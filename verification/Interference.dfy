/**
 What one replacement after the other makes of a masked text, also where a replacement brings in a
 placeholder whose turn is still to come.

 `InterferenceShows` says that the text written is that of replacing all at once exactly when none does.
 */
module Interference {
  import opened Placeholder
  import opened Document
  import opened Replacing
  import opened Spots

  // ---- texts, with what stands where a placeholder stood ----

  datatype Line = Close(lit: string) | Place(lit: string, spot: Spot, val: string, rest: Line)

  function Text(l: Line): string {
    match l
    case Close(lit) => lit
    case Place(lit, spot, _, rest) => lit + (SpotText(spot) + Text(rest))
  }

  function MovedLine(d: Doc, steps: seq<Step>): Line {
    match d
    case Tail(lit) => Close(lit)
    case Node(lit, tok, val, rest) => Place(lit, Moved(Open(tok, ""), steps), val, MovedLine(rest, steps))
  }

  function TargetLine(d: Doc, steps: seq<Step>): Line {
    match d
    case Tail(lit) => Close(lit)
    case Node(lit, tok, val, rest) => Place(lit, Target(steps, tok), val, TargetLine(rest, steps))
  }

  function HitLine(l: Line, s: Step): Line {
    match l
    case Close(lit) => l
    case Place(lit, spot, val, rest) => Place(lit, Hit(spot, s), val, HitLine(rest, s))
  }

  lemma {:induction false} TargetText(d: Doc, steps: seq<Step>)
    requires forall s :: s in steps ==> Worth(d, s)
    ensures Text(TargetLine(d, steps)) == Masked(Simultaneous(d, steps))
  {
    hide StepFor, BaseLen;
    match d
    case Tail(_) =>
    case Node(lit, tok, val, rest) =>
      TargetText(rest, steps);
      var i := StepFor(steps, tok);
      var after := Simultaneous(rest, steps);
      assert tok + "" == tok;
      if i >= 0 {
        assert steps[i] in steps;
        if steps[i].Keep? {
          assert HeadOf(steps[i].canonical) + TailOf(steps[i].canonical) == steps[i].canonical;
        } else {
          MaskedInFront(lit + val, after);
          assert lit + val + Masked(after) == lit + (val + Masked(after));
        }
      }
  }

  // ---- one replacement ----

  ghost predicate GoodSpot(x: Spot) {
    x.Open? ==> IsBase(x.base) && '[' !in x.tail
  }

  ghost predicate GoodSpots(l: Line) {
    l.Place? ==> GoodSpot(l.spot) && GoodSpots(l.rest)
  }

  /** No placeholder starts between the ones that are there; `pre` stands in front. */
  predicate Calm(pre: string, l: Line)
    decreases l
  {
    match l
    case Close(lit) => !HasPlaceholder(pre + lit)
    case Place(lit, spot, _, rest) =>
      if spot.Open? then !HasPlaceholder(pre + lit) && Calm("", rest) else Calm(pre + lit + spot.text, rest)
  }

  lemma PassTail(tail: string, rest: string, p: string, r: string)
    requires '[' !in tail && IsBase(p)
    ensures ReplaceAll(tail + rest, p, r) == tail + ReplaceAll(rest, p, r)
  {
    hide ReplaceAll, IsBase;
    BaseShape(p);
    forall i | 0 <= i < |tail| ensures !(p <= (tail + rest)[i..]) {
      assert (tail + rest)[i..][0] == tail[i];
    }
    PassOver(tail, rest, p, r);
  }

  /** A placeholder with what is left behind it, under a replacement. */
  lemma HitSpot(x: Spot, s: Step, rest: string, after: string)
    requires x.Open? && GoodSpot(x) && IsBase(s.needle) && after == ReplaceAll(rest, s.needle, s.Replacement())
    ensures ReplaceAll(SpotText(x) + rest, s.needle, s.Replacement()) == SpotText(Hit(x, s)) + after
  {
    hide ReplaceAll, IsBase, BaseLen, HeadOf, TailOf;
    var p, r := s.needle, s.Replacement();
    BaseShape(p);
    BaseShape(x.base);
    PassTail(x.tail, rest, p, r);
    assert SpotText(x) + rest == x.base + (x.tail + rest);
    if x.base == p {
      ReplacesHere(p, x.tail + rest, r);
      if s.Keep? {
        HeadAndTail(s.canonical);
        assert HeadOf(s.canonical) + (TailOf(s.canonical) + x.tail) ==
               HeadOf(s.canonical) + TailOf(s.canonical) + x.tail;
      }
      assert r + (x.tail + after) == r + x.tail + after;
    } else {
      assert x.base[..|x.base|] == x.base;
      assert IsToken(x.base);
      PassToken(x.base, x.tail + rest, p, r);
      assert x.base + (x.tail + after) == x.base + x.tail + after;
    }
  }

  lemma HeadAndTail(c: string)
    ensures HeadOf(c) + TailOf(c) == c
  {
  }

  lemma {:induction false} HitText(pre: string, l: Line, s: Step)
    requires Calm(pre, l) && GoodSpots(l) && IsBase(s.needle)
    ensures ReplaceAll(pre + Text(l), s.needle, s.Replacement()) == pre + Text(HitLine(l, s))
    decreases l
  {
    hide ReplaceAll, IsBase, HasPlaceholder, GoodSpot, Hit;
    var p, r := s.needle, s.Replacement();
    BaseShape(p);
    match l
    case Close(lit) =>
      assert pre + lit == pre + lit + "";
      PassLiteral(pre + lit, "", p, r);
      NothingReplaced(p, r);
    case Place(lit, x, val, rest) =>
      if x.Open? {
        HitText("", rest, s);
        assert "" + Text(rest) == Text(rest) && "" + Text(HitLine(rest, s)) == Text(HitLine(rest, s));
        HitOpen(pre, lit, x, s, Text(rest), Text(HitLine(rest, s)));
      } else {
        HitText(pre + lit + x.text, rest, s);
        ClosedStays(x, s);
        Regroup(pre, lit, x.text, Text(rest));
        Regroup(pre, lit, x.text, Text(HitLine(rest, s)));
      }
  }

  lemma HitOpen(pre: string, lit: string, x: Spot, s: Step, rest: string, after: string)
    requires !HasPlaceholder(pre + lit) && x.Open? && GoodSpot(x) && IsBase(s.needle)
    requires after == ReplaceAll(rest, s.needle, s.Replacement())
    ensures ReplaceAll(pre + (lit + (SpotText(x) + rest)), s.needle, s.Replacement()) ==
            pre + (lit + (SpotText(Hit(x, s)) + after))
  {
    hide ReplaceAll, IsBase, HasPlaceholder, GoodSpot, Hit, SpotText;
    var t, u := SpotText(x) + rest, SpotText(Hit(x, s)) + after;
    HitSpot(x, s, rest, after);
    OpenBracket(x, rest);
    BaseShape(s.needle);
    PassLiteral(pre + lit, t, s.needle, s.Replacement());
    assert pre + (lit + t) == pre + lit + t && pre + (lit + u) == pre + lit + u;
  }

  lemma OpenBracket(x: Spot, rest: string)
    requires x.Open? && GoodSpot(x)
    ensures SpotText(x) + rest != "" && (SpotText(x) + rest)[0] == '['
  {
    hide IsBase;
    BaseShape(x.base);
  }

  lemma ClosedStays(x: Spot, s: Step)
    requires x.Closed?
    ensures Hit(x, s) == x
  {
  }

  lemma Regroup(a: string, b: string, c: string, d: string)
    ensures a + (b + (c + d)) == a + b + c + d
  {
  }

  // ---- all replacements ----

  ghost predicate TokensPutIn(steps: seq<Step>) {
    forall s :: s in steps ==> IsBase(s.needle) && (s.Keep? ==> IsToken(s.canonical))
  }

  ghost predicate AllBases(d: Doc) {
    d.Node? ==> IsBase(d.tok) && AllBases(d.rest)
  }

  lemma {:induction false} MovedGood(x: Spot, steps: seq<Step>)
    requires GoodSpot(x) && TokensPutIn(steps)
    ensures GoodSpot(Moved(x, steps))
    decreases |steps|
  {
    hide IsBase, IsToken, BaseLen, HeadOf, TailOf;
    if steps != [] {
      var s := steps[0];
      assert s in steps;
      if s.Keep? {
        TokenParts(s.canonical);
      }
      MovedGood(Hit(x, s), steps[1..]);
    }
  }

  lemma {:induction false} MovedLineGood(d: Doc, steps: seq<Step>)
    requires AllBases(d) && TokensPutIn(steps)
    ensures GoodSpots(MovedLine(d, steps))
  {
    hide IsBase, IsToken, Moved, TokensPutIn;
    if d.Node? {
      MovedGood(Open(d.tok, ""), steps);
      MovedLineGood(d.rest, steps);
    }
  }

  lemma {:induction false} MovedLineThen(d: Doc, steps: seq<Step>, s: Step)
    ensures MovedLine(d, steps + [s]) == HitLine(MovedLine(d, steps), s)
  {
    hide Moved, Hit;
    if d.Node? {
      MovedOn(Open(d.tok, ""), steps, [s]);
      MovedOne(Moved(Open(d.tok, ""), steps), s);
      MovedLineThen(d.rest, steps, s);
    }
  }

  ghost predicate CalmThroughout(d: Doc, steps: seq<Step>) {
    forall n :: 0 <= n <= |steps| ==> Calm("", MovedLine(d, steps[..n]))
  }

  /** Replacing in sequence acts on every placeholder by itself, as long as none arises in between. */
  lemma {:induction false} SequentialText(d: Doc, steps: seq<Step>)
    requires AllBases(d) && TokensPutIn(steps) && CalmThroughout(d, steps)
    ensures Sequential(Masked(d), steps) == Text(MovedLine(d, steps))
    decreases |steps|
  {
    hide IsBase, IsToken, ReplaceAll, MovedLine, Calm, AllBases;
    if steps == [] {
      UnmovedText(d);
    } else {
      var init, s := steps[..|steps| - 1], steps[|steps| - 1];
      assert steps == init + [s] && s in steps;
      assert forall n :: 0 <= n <= |init| ==> init[..n] == steps[..n];
      SequentialText(d, init);
      MovedLineGood(d, init);
      MovedLineThen(d, init, s);
      HitText("", MovedLine(d, init), s);
      assert "" + Text(MovedLine(d, init)) == Text(MovedLine(d, init));
      assert "" + Text(MovedLine(d, steps)) == Text(MovedLine(d, steps));
    }
  }

  lemma {:induction false} UnmovedText(d: Doc)
    ensures Text(MovedLine(d, [])) == Masked(d)
  {
    if d.Node? {
      UnmovedText(d.rest);
      assert d.tok + "" == d.tok;
    }
  }

  // ---- when no placeholder arises in between ----

  /** No placeholder that is put in has one revealed later for its base. */
  predicate RevealsApart(steps: seq<Step>) {
    forall i, j :: 0 <= i < j < |steps| && steps[i].Keep? && steps[j].Reveal? ==>
                     HeadOf(steps[i].canonical) != steps[j].needle
  }

  /** Where `p` stands, or what was put in for it, or the value of its own step. */
  predicate OwnSpot(p: string, steps: seq<Step>, x: Spot) {
    if x.Open? then x == Open(p, "") || PutIn(steps, x.base)
    else exists s :: s in steps && s == Reveal(p, x.text)
  }

  predicate PutIn(steps: seq<Step>, base: string) {
    exists i :: 0 <= i < |steps| && steps[i].Keep? && HeadOf(steps[i].canonical) == base
  }

  lemma {:induction false} MovedOwn(p: string, steps: seq<Step>)
    requires RevealsApart(steps)
    ensures OwnSpot(p, steps, Moved(Open(p, ""), steps))
    decreases |steps|
  {
    hide HeadOf, TailOf, Moved;
    if steps == [] {
      assert Moved(Open(p, ""), steps) == Open(p, "") by { MovedNone(Open(p, "")); }
    } else {
      var init, s := steps[..|steps| - 1], steps[|steps| - 1];
      assert steps == init + [s];
      assert RevealsApart(init);
      MovedOwn(p, init);
      MovedOn(Open(p, ""), init, [s]);
      var x := Moved(Open(p, ""), init);
      MovedOne(x, s);
      OwnThen(p, init, s, x);
    }
  }

  lemma MovedNone(x: Spot)
    ensures Moved(x, []) == x
  {
  }

  lemma OwnThen(p: string, init: seq<Step>, s: Step, x: Spot)
    requires RevealsApart(init + [s]) && OwnSpot(p, init, x)
    ensures OwnSpot(p, init + [s], Hit(x, s))
  {
    hide HeadOf, TailOf;
    var steps := init + [s];
    assert steps[|init|] == s && forall i :: 0 <= i < |init| ==> steps[i] == init[i];
    PutInStays(init, s, x);
    if x.Closed? {
      var t :| t in init && t == Reveal(p, x.text);
      assert t in steps;
    } else if x.base == s.needle && s.Reveal? {
      NotPutIn(init, s);
      assert s.value + "" == s.value;
      assert s in steps;
    }
  }

  lemma NotPutIn(init: seq<Step>, s: Step)
    requires RevealsApart(init + [s]) && s.Reveal?
    ensures !PutIn(init, s.needle)
  {
    hide HeadOf;
    var steps := init + [s];
    assert steps[|init|] == s && forall i :: 0 <= i < |init| ==> steps[i] == init[i];
  }

  lemma PutInStays(init: seq<Step>, s: Step, x: Spot)
    ensures x.Open? && PutIn(init, x.base) ==> PutIn(init + [s], x.base)
  {
    hide HeadOf;
    if x.Open? && PutIn(init, x.base) {
      var i :| 0 <= i < |init| && init[i].Keep? && HeadOf(init[i].canonical) == x.base;
      assert (init + [s])[i] == init[i];
    }
  }

  /** Every value that stands in the line stands in its own place. */
  predicate Own(l: Line) {
    l.Place? ==> (l.spot.Closed? ==> l.spot.text == l.val) && Own(l.rest)
  }

  function Whole(l: Line): string {
    match l
    case Close(lit) => lit
    case Place(lit, _, val, rest) => lit + (val + Whole(rest))
  }

  lemma {:induction false} MovedLineOwn(d: Doc, steps: seq<Step>)
    requires RevealsApart(steps) && forall s :: s in steps ==> Worth(d, s)
    ensures Own(MovedLine(d, steps)) && Whole(MovedLine(d, steps)) == Original(d)
  {
    hide Moved, HeadOf;
    if d.Node? {
      MovedOwn(d.tok, steps);
      MovedLineOwn(d.rest, steps);
      var x := Moved(Open(d.tok, ""), steps);
      if x.Closed? {
        var s :| s in steps && s == Reveal(d.tok, x.text);
        assert Worth(d, s);
      }
    }
  }

  lemma {:induction false} OwnCalm(pre: string, l: Line)
    requires Own(l) && !HasPlaceholder(pre + Whole(l))
    ensures Calm(pre, l)
    decreases l
  {
    hide HasPlaceholder;
    match l
    case Close(lit) =>
    case Place(lit, x, val, rest) =>
      var behind := val + Whole(rest);
      assert pre + Whole(l) == "" + ((pre + lit) + behind);
      NoPlaceholderIn("", pre + lit, behind);
      assert pre + Whole(l) == (pre + lit + val) + (Whole(rest) + "");
      NoPlaceholderIn(pre + lit + val, Whole(rest), "");
      assert "" + Whole(rest) == Whole(rest);
      Regroup(pre, lit, val, Whole(rest));
      if x.Open? {
        OwnCalm("", rest);
      } else {
        OwnCalm(pre + lit + val, rest);
      }
  }

  /** No `[` anywhere but where placeholders start. */
  predicate Bare(l: Line) {
    match l
    case Close(lit) => '[' !in lit
    case Place(lit, x, _, rest) => '[' !in lit && (x.Closed? ==> '[' !in x.text) && Bare(rest)
  }

  lemma {:induction false} BareCalm(pre: string, l: Line)
    requires Bare(l) && '[' !in pre
    ensures Calm(pre, l)
    decreases l
  {
    hide HasPlaceholder;
    match l
    case Close(lit) => NoBracket(pre + lit);
    case Place(lit, x, val, rest) =>
      NoBracket(pre + lit);
      BareCalm(if x.Open? then "" else pre + lit + x.text, rest);
  }

  lemma {:induction false} NoBracket(s: string)
    requires '[' !in s
    ensures !HasPlaceholder(s)
  {
    if s != "" {
      assert s[0] in s;
      NoBracket(s[1..]);
    }
  }

  lemma {:induction false} MovedBare(x: Spot, steps: seq<Step>)
    requires GoodSpot(x) && TokensPutIn(steps) && (x.Closed? ==> '[' !in x.text)
    requires forall s :: s in steps && s.Reveal? ==> '[' !in s.value
    ensures var y := Moved(x, steps); y.Closed? ==> '[' !in y.text
    decreases |steps|
  {
    hide IsBase, IsToken, BaseLen, HeadOf, TailOf;
    if steps != [] {
      var s := steps[0];
      assert s in steps;
      if s.Keep? {
        TokenParts(s.canonical);
      }
      MovedBare(Hit(x, s), steps[1..]);
    }
  }

  lemma {:induction false} MovedLineBare(d: Doc, steps: seq<Step>)
    requires AllBases(d) && TokensPutIn(steps) && '[' !in Original(d)
    requires forall s :: s in steps && s.Reveal? ==> '[' !in s.value
    ensures Bare(MovedLine(d, steps))
  {
    hide Moved, IsBase, IsToken;
    match d
    case Tail(_) =>
    case Node(lit, tok, val, rest) =>
      assert forall i :: 0 <= i < |lit| ==> lit[i] == Original(d)[i];
      assert Original(rest) == Original(d)[|lit| + |val|..];
      MovedBare(Open(tok, ""), steps);
      MovedLineBare(rest, steps);
  }

  predicate Holds(d: Doc, p: string) {
    d.Node? && (d.tok == p || Holds(d.rest, p))
  }

  /** A revealed value is a part of the text. */
  lemma {:induction false} ValueInText(d: Doc, s: Step)
    requires s.Reveal? && Worth(d, s) && Holds(d, s.needle)
    ensures '[' !in Original(d) ==> '[' !in s.value
    ensures IsBase(s.needle) && !HasPlaceholder(Original(d)) ==> s.value != s.needle
  {
    hide HasPlaceholder, IsBase;
    assert forall i :: 0 <= i < |d.val| ==> d.val[i] == Original(d)[|d.lit| + i];
    assert Original(d.rest) == Original(d)[|d.lit| + |d.val|..];
    if d.tok == s.needle {
      if IsBase(s.needle) && !HasPlaceholder(Original(d)) {
        ValueIsNot(d, s.needle);
      }
    } else {
      if !HasPlaceholder(Original(d)) {
        RestClean(d);
      }
      ValueInText(d.rest, s);
    }
  }

  // ---- what the text says of the placeholders ----

  /** The same places hold values, and the same ones. */
  predicate SameShape(a: Line, b: Line) {
    match a
    case Close(lit) => b == a
    case Place(lit, x, val, rest) =>
      && b.Place? && b.lit == lit && b.val == val && SameShape(rest, b.rest)
      && (if x.Open? then b.spot.Open? else b.spot == x)
  }

  lemma {:induction false} IndexAppend(u: string, v: string)
    ensures IndexOfBracket(u + v) == if '[' in u then IndexOfBracket(u) else |u| + IndexOfBracket(v)
  {
    if u == "" {
      assert u + v == v;
    } else {
      assert (u + v)[1..] == u[1..] + v;
      IndexAppend(u[1..], v);
      assert u == [u[0]] + u[1..];
    }
  }

  predicate Brackets(s: string) {
    IndexOfBracket(s) < |s|
  }

  lemma BracketsIn(s: string)
    ensures Brackets(s) <==> '[' in s
  {
  }

  /** Texts of one shape have their first `[` at one place, or have none and are the same. */
  lemma {:induction false} FirstBracketSame(a: Line, b: Line)
    requires SameShape(a, b) && GoodSpots(a) && GoodSpots(b)
    ensures Brackets(Text(a)) <==> Brackets(Text(b))
    ensures if Brackets(Text(a)) then IndexOfBracket(Text(a)) == IndexOfBracket(Text(b)) else Text(a) == Text(b)
  {
    hide IsBase, IndexOfBracket;
    match a
    case Close(_) =>
    case Place(lit, x, _, rest) =>
      var s, t := SpotText(x) + Text(rest), SpotText(b.spot) + Text(b.rest);
      FirstBracketSame(rest, b.rest);
      IndexAppend(lit, s);
      IndexAppend(lit, t);
      BracketsIn(lit);
      if x.Open? {
        OpenBracket(x, Text(rest));
        OpenBracket(b.spot, Text(b.rest));
        StartsBracket(s);
        StartsBracket(t);
      } else {
        IndexAppend(x.text, Text(rest));
        IndexAppend(x.text, Text(b.rest));
        BracketsIn(x.text);
      }
  }

  lemma StartsBracket(s: string)
    requires s != "" && s[0] == '['
    ensures IndexOfBracket(s) == 0
  {
  }

  /** The text determines what stands at every place. */
  lemma {:induction false} ReadBack(a: Line, b: Line)
    requires SameShape(a, b) && GoodSpots(a) && GoodSpots(b) && Text(a) == Text(b)
    ensures a == b
  {
    hide IsBase, IndexOfBracket, Brackets, BaseLen;
    if a.Place? {
      var x, y := SpotText(a.spot) + Text(a.rest), SpotText(b.spot) + Text(b.rest);
      assert x == Text(a)[|a.lit|..] && y == Text(b)[|b.lit|..];
      if a.spot.Open? {
        SameSpot(a.spot, b.spot, a.rest, b.rest);
      }
      assert Text(a.rest) == x[|SpotText(a.spot)|..];
      ReadBack(a.rest, b.rest);
    }
  }

  lemma SameBase(p: string, q: string, u: string, v: string)
    requires IsBase(p) && IsBase(q) && p + u == q + v
    ensures p == q && u == v
  {
    hide IsBase, BaseLen;
    var s := p + u;
    assert s[..|p|] == p && s[..|q|] == q;
    BaseShape(p);
    BaseShape(q);
    BaseLenExact(s, |p|);
    BaseLenExact(s, |q|);
    assert s[|p|..] == u && s[|q|..] == v;
  }

  lemma SameSpot(x: Spot, y: Spot, a: Line, b: Line)
    requires x.Open? && y.Open? && GoodSpot(x) && GoodSpot(y)
    requires SameShape(a, b) && GoodSpots(a) && GoodSpots(b)
    requires SpotText(x) + Text(a) == SpotText(y) + Text(b)
    ensures x == y
  {
    hide IsBase, IndexOfBracket, BaseLen, SameShape, GoodSpots, Text;
    var u, v := x.tail + Text(a), y.tail + Text(b);
    assert SpotText(x) + Text(a) == x.base + u && SpotText(y) + Text(b) == y.base + v;
    SameBase(x.base, y.base, u, v);
    FirstBracketSame(a, b);
    IndexAppend(x.tail, Text(a));
    IndexAppend(y.tail, Text(b));
    assert |x.tail| == |y.tail|;
    assert x.tail == u[..|x.tail|];
  }

  /** How many placeholders stand in a line. */
  function Opens(l: Line): nat {
    if l.Close? then 0 else (if l.spot.Open? then 1 else 0) + Opens(l.rest)
  }

  /** How many bases start in a text. */
  function Bases(s: string): nat {
    if s == "" then 0 else (if BaseLen(s) > 0 then 1 else 0) + Bases(s[1..])
  }

  lemma {:induction false} BasesBehind(lit: string, rest: string)
    requires !HasPlaceholder(lit) && (rest == "" || rest[0] == '[')
    ensures Bases(lit + rest) == Bases(rest)
    decreases |lit|
  {
    hide BaseLen;
    if lit == "" {
      assert lit + rest == rest;
    } else {
      BaseLenLocal(lit, rest);
      assert rest == "" ==> lit + rest == lit;
      assert (lit + rest)[1..] == lit[1..] + rest;
      BasesBehind(lit[1..], rest);
    }
  }

  lemma {:induction false} BasesPass(tail: string, rest: string)
    requires '[' !in tail
    ensures Bases(tail + rest) == Bases(rest)
    decreases |tail|
  {
    hide BaseLen;
    if tail == "" {
      assert tail + rest == rest;
    } else {
      assert (tail + rest)[0] == tail[0] && tail[0] in tail;
      assert (tail + rest)[1..] == tail[1..] + rest;
      BasesPass(tail[1..], rest);
    }
  }

  lemma BasesOfBase(p: string, rest: string)
    requires IsBase(p)
    ensures Bases(p + rest) == 1 + Bases(rest)
  {
    hide IsBase, BaseLen;
    BaseShape(p);
    BaseLenLocal(p, rest);
    assert (p + rest)[1..] == p[1..] + rest;
    BasesPass(p[1..], rest);
  }

  /** In a calm line the bases that start are the placeholders that stand there. */
  lemma {:induction false} CalmBases(pre: string, l: Line)
    requires Calm(pre, l) && GoodSpots(l)
    ensures Bases(pre + Text(l)) == Opens(l)
    decreases l
  {
    hide IsBase, HasPlaceholder, Bases;
    match l
    case Close(lit) =>
      assert pre + lit == pre + lit + "";
      BasesBehind(pre + lit, "");
      NoBases();
    case Place(lit, x, _, rest) =>
      if x.Open? {
        CalmBases("", rest);
        assert "" + Text(rest) == Text(rest);
        OpenBases(pre + lit, x, Text(rest));
        assert pre + (lit + (SpotText(x) + Text(rest))) == pre + lit + (SpotText(x) + Text(rest));
      } else {
        CalmBases(pre + lit + x.text, rest);
        Regroup(pre, lit, x.text, Text(rest));
      }
  }

  lemma NoBases()
    ensures Bases("") == 0
  {
  }

  lemma OpenBases(lit: string, x: Spot, rest: string)
    requires x.Open? && GoodSpot(x) && !HasPlaceholder(lit)
    ensures Bases(lit + (SpotText(x) + rest)) == 1 + Bases(rest)
  {
    hide IsBase, HasPlaceholder, Bases;
    OpenBracket(x, rest);
    BasesBehind(lit, SpotText(x) + rest);
    assert SpotText(x) + rest == x.base + (x.tail + rest);
    BasesOfBase(x.base, x.tail + rest);
    BasesPass(x.tail, rest);
  }

  /** Where `b` has a value, `a` has the same one. */
  predicate Covers(a: Line, b: Line) {
    match a
    case Close(lit) => b == a
    case Place(lit, x, val, rest) =>
      && b.Place? && b.lit == lit && b.val == val && Covers(rest, b.rest)
      && (b.spot.Closed? ==> b.spot == x)
  }

  lemma {:induction false} CoversOpens(a: Line, b: Line)
    requires Covers(a, b)
    ensures Opens(a) <= Opens(b) && (Opens(a) == Opens(b) ==> SameShape(a, b))
  {
    if a.Place? {
      CoversOpens(a.rest, b.rest);
    }
  }

  // ---- the result ----

  /**
   What the gateway sends of one segment: the bare placeholders of the engine in a text without any, one
   step for each of them, and for none twice a different one.
   */
  ghost predicate Sendable(d: Doc, steps: seq<Step>) {
    && AllBases(d) && !HasPlaceholder(Original(d)) && TokensPutIn(steps) && Consistent(steps)
    && forall s :: s in steps ==> Worth(d, s) && Holds(d, s.needle)
  }

  lemma RevealEnds(steps: seq<Step>, p: string)
    requires Target(steps, p).Closed?
    ensures Moved(Open(p, ""), steps) == Target(steps, p)
  {
    hide StepFor, Moved;
    var i := StepFor(steps, p);
    var s := steps[i];
    NotYet(steps, p, i);
    assert steps[i..] == [s] + steps[i + 1..];
    MovedOn(Open(p, ""), [s], steps[i + 1..]);
    MovedOne(Open(p, ""), s);
    assert s.value + "" == s.value;
    Rests(Closed(s.value), steps[i + 1..]);
  }

  lemma {:induction false} LineCovers(d: Doc, steps: seq<Step>)
    ensures Covers(MovedLine(d, steps), TargetLine(d, steps))
  {
    hide Moved, Target;
    if d.Node? {
      if Target(steps, d.tok).Closed? {
        RevealEnds(steps, d.tok);
      }
      LineCovers(d.rest, steps);
    }
  }

  lemma {:induction false} TargetLineGood(d: Doc, steps: seq<Step>)
    requires AllBases(d) && TokensPutIn(steps)
    ensures GoodSpots(TargetLine(d, steps))
  {
    hide IsBase, IsToken, StepFor, HeadOf, TailOf, BaseLen;
    if d.Node? {
      var i := StepFor(steps, d.tok);
      if i >= 0 {
        assert steps[i] in steps;
        if steps[i].Keep? {
          TokenParts(steps[i].canonical);
        }
      }
      TargetLineGood(d.rest, steps);
    }
  }

  /** What replacing all at once gives has every value in its own place. */
  lemma {:induction false} TargetLineOwn(d: Doc, steps: seq<Step>)
    requires forall s :: s in steps ==> Worth(d, s)
    ensures Own(TargetLine(d, steps)) && Whole(TargetLine(d, steps)) == Original(d)
  {
    hide StepFor, HeadOf, TailOf;
    if d.Node? {
      TargetLineOwn(d.rest, steps);
      var i := StepFor(steps, d.tok);
      assert i >= 0 ==> steps[i] in steps;
    }
  }

  /** Where no value gets out of place nothing arises. */
  lemma ApartCalm(d: Doc, steps: seq<Step>)
    requires !HasPlaceholder(Original(d)) && RevealsApart(steps) && forall s :: s in steps ==> Worth(d, s)
    ensures CalmThroughout(d, steps)
  {
    hide HasPlaceholder, HeadOf, Moved, Calm;
    forall n | 0 <= n <= |steps|
      ensures Calm("", MovedLine(d, steps[..n]))
    {
      ApartBefore(steps, n);
      assert forall s :: s in steps[..n] ==> s in steps;
      MovedLineOwn(d, steps[..n]);
      assert "" + Original(d) == Original(d);
      OwnCalm("", MovedLine(d, steps[..n]));
    }
  }

  /** Nor does anything without a `[` to make up a placeholder with. */
  lemma CalmAlways(d: Doc, steps: seq<Step>)
    requires Sendable(d, steps) && (RevealsApart(steps) || '[' !in Original(d))
    ensures CalmThroughout(d, steps)
  {
    hide IsBase, IsToken, HasPlaceholder, HeadOf, Moved, AllBases, Calm, Worth, RevealsApart, Bare;
    if RevealsApart(steps) {
      ApartCalm(d, steps);
    } else {
      forall n | 0 <= n <= |steps|
        ensures Calm("", MovedLine(d, steps[..n]))
      {
        AllBare(d, steps, n);
        BareCalm("", MovedLine(d, steps[..n]));
      }
    }
  }

  lemma ApartBefore(steps: seq<Step>, n: nat)
    requires RevealsApart(steps) && n <= |steps|
    ensures RevealsApart(steps[..n])
  {
    hide HeadOf;
  }

  lemma AllBare(d: Doc, steps: seq<Step>, n: nat)
    requires Sendable(d, steps) && '[' !in Original(d) && n <= |steps|
    ensures Bare(MovedLine(d, steps[..n]))
  {
    hide IsBase, IsToken, HasPlaceholder, Moved, AllBases, Worth, Holds, Bare, MovedLine;
    assert forall s :: s in steps[..n] ==> s in steps;
    forall s | s in steps[..n] && s.Reveal?
      ensures '[' !in s.value
    {
      ValueInText(d, s);
    }
    MovedLineBare(d, steps[..n]);
  }

  lemma {:induction false} LineEnds(d: Doc, steps: seq<Step>, p: string)
    requires MovedLine(d, steps) == TargetLine(d, steps) && Holds(d, p)
    ensures Moved(Open(p, ""), steps) == Target(steps, p)
  {
    hide Moved, Target;
    if d.tok != p {
      LineEnds(d.rest, steps, p);
    }
  }

  lemma TextsShape(d: Doc, steps: seq<Step>)
    requires Sendable(d, steps) && CalmThroughout(d, steps)
    requires Text(MovedLine(d, steps)) == Text(TargetLine(d, steps))
    ensures SameShape(MovedLine(d, steps), TargetLine(d, steps))
  {
    hide IsBase, IsToken, HasPlaceholder, MovedLine, TargetLine, SameShape, Covers, Text, Bases, AllBases, Calm, Worth;
    var a, b := MovedLine(d, steps), TargetLine(d, steps);
    assert steps[..|steps|] == steps;
    MovedLineGood(d, steps);
    TargetLineGood(d, steps);
    TargetLineOwn(d, steps);
    assert "" + Whole(b) == Original(d);
    OwnCalm("", b);
    assert "" + Text(a) == Text(a) && "" + Text(b) == Text(b);
    CalmBases("", a);
    CalmBases("", b);
    LineCovers(d, steps);
    CoversOpens(a, b);
  }

  lemma SendableProper(d: Doc, steps: seq<Step>)
    requires Sendable(d, steps)
    ensures Proper(d, steps) && Fine(steps)
  {
    hide IsBase, IsToken, HasPlaceholder, AllBases, Worth, Replacing.Whole, Holds;
    BasesAreTokens(d);
    forall s | s in steps
      ensures Replacing.Whole(d, s.needle) && (s.Reveal? ==> Changes(s))
    {
      BasesWhole(d, s.needle);
      if s.Reveal? {
        ValueInText(d, s);
      }
    }
  }

  lemma {:induction false} BasesAreTokens(d: Doc)
    requires AllBases(d)
    ensures AllTokens(d)
  {
    hide IsBase;
    if d.Node? {
      assert IsToken(d.tok);
      BasesAreTokens(d.rest);
    }
  }

  lemma {:induction false} BasesWhole(d: Doc, p: string)
    requires AllBases(d)
    ensures Replacing.Whole(d, p)
  {
    hide IsBase, BaseLen;
    if d.Node? {
      BaseShape(d.tok);
      assert d.tok[..|d.tok|] == d.tok;
      BasesWhole(d.rest, p);
    }
  }

  /**
   As long as no placeholder arises by accident, the text written is that of replacing all placeholders at
   once if and only if no placeholder that is put in begins with one that a later step changes.
   */
  lemma InterferenceShows(d: Doc, steps: seq<Step>)
    requires Sendable(d, steps) && CalmThroughout(d, steps)
    ensures Sequential(Masked(d), steps) == Masked(Simultaneous(d, steps)) <==> NoInterference(steps)
  {
    hide Sequential, Simultaneous, Masked, HasPlaceholder, IsBase, IsToken, BaseLen, Text, MovedLine, TargetLine,
         AllBases, Worth, Replacing.Whole, Moved, Target, NoInterference, CalmThroughout, Holds, SameShape;
    SendableProper(d, steps);
    if NoInterference(steps) {
      SequentialIsSimultaneous(d, steps);
    } else if Sequential(Masked(d), steps) == Masked(Simultaneous(d, steps)) {
      SequentialText(d, steps);
      TargetText(d, steps);
      TextsShape(d, steps);
      MovedLineGood(d, steps);
      TargetLineGood(d, steps);
      ReadBack(MovedLine(d, steps), TargetLine(d, steps));
      forall s | s in steps
        ensures Moved(Open(s.needle, ""), steps) == Target(steps, s.needle)
      {
        LineEnds(d, steps, s.needle);
      }
      AllEndApart(steps);
    }
  }

  // ---- it happens ----

  /** Two placeholders, the first one replaced by one that begins with the second. */
  lemma LaterStepRewrites(p: string, c: string, q: string, r: string)
    requires IsBase(p) && IsBase(q) && p != q && IsToken(c) && HeadOf(c) == q && IsToken(r)
    ensures Sequential(p + " " + q, [Keep(p, c), Keep(q, r)]) == r + TailOf(c) + " " + r
  {
    hide IsBase, IsToken, BaseLen, HasPlaceholder, ReplaceAll, Sequential, Calm, Moved, HeadOf, TailOf, Sendable;
    var last := Node(" ", q, "", Tail(""));
    var d := Node("", p, "", last);
    var steps := [Keep(p, c), Keep(q, r)];
    TwoNames(p, c, q, r);
    assert RevealsApart(steps);
    CalmAlways(d, steps);
    SequentialText(d, steps);
    assert Masked(last) == " " + (q + "") == " " + q;
    assert Masked(d) == "" + (p + Masked(last)) == p + " " + q;
    assert steps == [steps[0]] + [steps[1]];
    MovedOn(Open(p, ""), [steps[0]], [steps[1]]);
    MovedOn(Open(q, ""), [steps[0]], [steps[1]]);
    MovedOne(Open(p, ""), steps[0]);
    MovedOne(Open(q, ""), steps[0]);
    assert TailOf(c) + "" == TailOf(c) && TailOf(r) + "" == TailOf(r);
    MovedOne(Open(q, TailOf(c)), steps[1]);
    MovedOne(Open(q, ""), steps[1]);
    HeadAndTail(r);
    var x, y := Open(HeadOf(r), TailOf(r) + TailOf(c)), Open(HeadOf(r), TailOf(r));
    assert SpotText(x) == r + TailOf(c) && SpotText(y) == r;
    var l := MovedLine(last, steps);
    assert l == Place(" ", y, "", MovedLine(Tail(""), steps));
    assert Text(l) == " " + (r + "") == " " + r;
    assert MovedLine(d, steps) == Place("", x, "", l);
    assert Text(MovedLine(d, steps)) == "" + (r + TailOf(c) + Text(l));
  }

  lemma {:induction false} KeepWorth(d: Doc, s: Step)
    requires s.Keep?
    ensures Worth(d, s)
  {
    if d.Node? {
      KeepWorth(d.rest, s);
    }
  }

  lemma TwoNames(p: string, c: string, q: string, r: string)
    requires IsBase(p) && IsBase(q) && p != q && IsToken(c) && IsToken(r)
    ensures var d := Node("", p, "", Node(" ", q, "", Tail("")));
            var steps := [Keep(p, c), Keep(q, r)];
            Sendable(d, steps) && AllBases(d) && TokensPutIn(steps)
  {
    hide IsBase, IsToken, HasPlaceholder, Worth, Original;
    var last := Node(" ", q, "", Tail(""));
    var d := Node("", p, "", last);
    NamesOriginal(p, q);
    NoBracket(" ");
    assert AllBases(Tail(""));
    assert AllBases(last);
    assert Holds(last, q);
    forall s | s in [Keep(p, c), Keep(q, r)]
      ensures Worth(d, s) && Holds(d, s.needle)
    {
      KeepWorth(d, s);
    }
  }

  lemma NamesOriginal(p: string, q: string)
    ensures Original(Node("", p, "", Node(" ", q, "", Tail("")))) == " "
  {
    var last := Node(" ", q, "", Tail(""));
    assert Original(last) == " " + ("" + "") == " ";
    assert "" + ("" + Original(last)) == " ";
  }

  /** The names of two persons swapped: both end under one placeholder. */
  lemma SwappedNames()
    ensures var steps := [Keep("[KISI_1]", "[KISI_2]"), Keep("[KISI_2]", "[KISI_1]")];
            Sequential("[KISI_1] [KISI_2]", steps) == "[KISI_1] [KISI_1]"
  {
    hide IsBase, BaseLen, Sequential;
    var p, q := "[KISI_1]", "[KISI_2]";
    Kisi("1");
    Kisi("2");
    assert p == "[KISI_" + "1" + "]" && q == "[KISI_" + "2" + "]";
    assert IsToken(p) && IsToken(q);
    TokenParts(q);
    LaterStepRewrites(p, q, q, p);
    assert p + " " + q == "[KISI_1] [KISI_2]";
    assert p + "" + " " + p == "[KISI_1] [KISI_1]";
  }

  /** A suffixed placeholder whose base is changed later keeps its suffix behind another base. */
  lemma SuffixedRewritten(suffix: string)
    requires IsSuffix(suffix)
    ensures var steps := [Keep("[KISI_1]", "[KISI_2]" + suffix), Keep("[KISI_2]", "[KISI_3]")];
            Sequential("[KISI_1] [KISI_2]", steps) == "[KISI_3]" + suffix + " [KISI_3]"
  {
    hide IsBase, IsSuffix, BaseLen, Sequential, HeadOf, TailOf;
    var p, q, r := "[KISI_1]", "[KISI_2]", "[KISI_3]";
    Kisi("1");
    Kisi("2");
    Kisi("3");
    assert p == "[KISI_" + "1" + "]" && q == "[KISI_" + "2" + "]" && r == "[KISI_" + "3" + "]";
    assert IsToken(r);
    SuffixedParts(q, suffix);
    LaterStepRewrites(p, q + suffix, q, r);
    assert p + " " + q == "[KISI_1] [KISI_2]";
    assert r + suffix + " " + r == r + suffix + (" " + r) && " " + r == " [KISI_3]";
  }

  /** With the suffix `#0123456789abcdef`, for one. */
  lemma SuffixedRewrittenAtHex()
    ensures var suffix := "#0123456789abcdef";
            var steps := [Keep("[KISI_1]", "[KISI_2]" + suffix), Keep("[KISI_2]", "[KISI_3]")];
            IsSuffix(suffix) && Sequential("[KISI_1] [KISI_2]", steps) == "[KISI_3]" + suffix + " [KISI_3]"
  {
    hide Sequential, IsBase;
    var suffix := "#0123456789abcdef";
    assert IsSuffix(suffix);
    SuffixedRewritten(suffix);
  }

  lemma SuffixedParts(q: string, suffix: string)
    requires IsBase(q) && IsSuffix(suffix)
    ensures IsToken(q + suffix) && HeadOf(q + suffix) == q && TailOf(q + suffix) == suffix
  {
    hide IsBase, BaseLen;
    var c := q + suffix;
    assert c[..|c| - SUFFIX_LENGTH] == q && c[|c| - SUFFIX_LENGTH..] == suffix;
    BaseShape(q);
    BaseLenLocal(q, suffix);
  }
}
