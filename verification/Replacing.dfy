/**
 Literal replacement of all occurrences of a placeholder, once and in sequence, on masked documents.

 Replacing one placeholder after the other is the same as replacing all at once exactly as long as no
 replacement brings in a placeholder whose turn is still to come.
 */
module Replacing {
  import opened Placeholder
  import opened Document

  /** `text.split(needle).join(replacement)`. */
  function ReplaceAll(text: string, needle: string, replacement: string): string {
    if needle == "" then Interleaved(text, replacement)
    else if text == "" then ""
    else if needle <= text then replacement + ReplaceAll(text[|needle|..], needle, replacement)
    else text[..1] + ReplaceAll(text[1..], needle, replacement)
  }

  /** Splitting at the empty text takes the characters apart. */
  function Interleaved(text: string, between: string): string {
    if |text| <= 1 then text else text[..1] + between + Interleaved(text[1..], between)
  }

  /** One replacement: a placeholder by the one the vault gave it, or by the value it stands for. */
  datatype Step = Keep(needle: string, canonical: string) | Reveal(needle: string, value: string) {
    function Replacement(): string {
      if Keep? then canonical else value
    }
  }

  function Sequential(text: string, steps: seq<Step>): string {
    if steps == [] then text
    else
      var init, s := steps[..|steps| - 1], steps[|steps| - 1];
      ReplaceAll(Sequential(text, init), s.needle, s.Replacement())
  }

  // ---- all at once ----

  function InFront(s: string, d: Doc): Doc {
    match d
    case Tail(lit) => Tail(s + lit)
    case Node(lit, tok, val, rest) => Node(s + lit, tok, val, rest)
  }

  /** The step for a placeholder is the first one: behind it the placeholder is gone. */
  function StepFor(steps: seq<Step>, p: string): (i: int)
    ensures -1 <= i < |steps|
    ensures i >= 0 ==> steps[i].needle == p && forall j :: 0 <= j < i ==> steps[j].needle != p
    ensures i < 0 ==> forall j :: 0 <= j < |steps| ==> steps[j].needle != p
  {
    if steps == [] then -1
    else
      var i := StepFor(steps[..|steps| - 1], p);
      if i >= 0 then i else if steps[|steps| - 1].needle == p then |steps| - 1 else -1
  }

  /** Every placeholder replaced once, by the step for it. */
  function Simultaneous(d: Doc, steps: seq<Step>): Doc {
    match d
    case Tail(_) => d
    case Node(lit, tok, val, rest) =>
      var i, after := StepFor(steps, tok), Simultaneous(rest, steps);
      if i < 0 then Node(lit, tok, val, after)
      else if steps[i].Keep? then Node(lit, steps[i].canonical, val, after)
      else InFront(lit + val, after)
  }

  // ---- one replacement on a document ----

  function Applied(d: Doc, s: Step): Doc {
    match d
    case Tail(_) => d
    case Node(lit, tok, val, rest) =>
      if tok != s.needle then Node(lit, tok, val, Applied(rest, s))
      else if s.Keep? then Node(lit, s.canonical, val, Applied(rest, s))
      else InFront(lit + val, Applied(rest, s))
  }

  lemma MaskedInFront(s: string, d: Doc)
    ensures Masked(InFront(s, d)) == s + Masked(d) && Original(InFront(s, d)) == s + Original(d)
  {
    match d
    case Tail(_) =>
    case Node(lit, tok, val, rest) =>
      assert s + (lit + (tok + Masked(rest))) == s + lit + (tok + Masked(rest));
      assert s + (lit + (val + Original(rest))) == s + lit + (val + Original(rest));
  }

  lemma {:induction false} AppliedOriginal(d: Doc, s: Step)
    ensures Original(Applied(d, s)) == Original(d)
  {
    match d
    case Tail(_) =>
    case Node(lit, tok, val, rest) =>
      AppliedOriginal(rest, s);
      MaskedInFront(lit + val, Applied(rest, s));
      assert lit + val + Original(rest) == lit + (val + Original(rest));
  }

  lemma ReplaceStep(text: string, p: string, r: string)
    requires p != "" && text != ""
    ensures ReplaceAll(text, p, r) ==
            if p <= text then r + ReplaceAll(text[|p|..], p, r) else text[..1] + ReplaceAll(text[1..], p, r)
  {
  }

  /** A stretch of text in which the needle starts nowhere is passed over. */
  lemma {:induction false} PassOver(s: string, rest: string, p: string, r: string)
    requires p != ""
    requires forall i :: 0 <= i < |s| ==> !(p <= (s + rest)[i..])
    ensures ReplaceAll(s + rest, p, r) == s + ReplaceAll(rest, p, r)
    decreases |s|
  {
    hide ReplaceAll;
    var all := s + rest;
    if s == "" {
      assert all == rest;
    } else {
      assert all[0..] == all;
      assert all[1..] == s[1..] + rest;
      forall i | 0 <= i < |s[1..]| ensures !(p <= (s[1..] + rest)[i..]) {
        assert all[i + 1..] == (s[1..] + rest)[i..];
      }
      PassOver(s[1..], rest, p, r);
      ReplaceStep(all, p, r);
      assert all[..1] + (s[1..] + ReplaceAll(rest, p, r)) == s + ReplaceAll(rest, p, r);
    }
  }

  /** A base never starts inside text that has no placeholder and ends at a `[`. */
  lemma {:induction false} NotInLiteral(lit: string, rest: string, p: string, i: nat)
    requires IsBase(p) && !HasPlaceholder(lit) && (rest == "" || rest[0] == '[') && i < |lit|
    ensures !(p <= (lit + rest)[i..])
  {
    hide BaseLen, IsBase, HasPlaceholder;
    var tail := lit[i..];
    assert (lit + rest)[i..] == tail + rest;
    NoPlaceholderAt(lit, i);
    TokenLenBeforeBracket(tail, rest);
    BaseLenLocal(tail, rest);
    assert rest == "" ==> tail + rest == tail;
    BaseShape(p);
    if p <= tail + rest {
      assert (tail + rest)[..|p|] == p;
      BaseLenExact(tail + rest, |p|);
    }
  }

  lemma {:induction false} NoPlaceholderAt(s: string, i: nat)
    requires !HasPlaceholder(s) && i < |s|
    ensures BaseLen(s[i..]) == 0
  {
    hide BaseLen;
    if i == 0 {
      assert s[0..] == s;
    } else {
      assert s[1..][i - 1..] == s[i..];
      NoPlaceholderAt(s[1..], i - 1);
    }
  }

  /** At a placeholder only its own base can start. */
  lemma NotInToken(t: string, rest: string, p: string, i: nat)
    requires IsBase(p) && IsToken(t) && i < |t| && (i == 0 ==> t[..BaseLen(t)] != p)
    ensures !(p <= (t + rest)[i..])
  {
    hide BaseLen, IsBase, IsToken;
    TokenShape(t);
    BaseShape(p);
    var s := (t + rest)[i..];
    if i > 0 {
      assert s[0] == t[i] != '[';
    } else if p <= s {
      assert s == t + rest && s[..|p|] == p;
      BaseLenExact(s, |p|);
      BaseLenLocal(t, rest);
      TokenAtStart(t);
    }
  }

  /** Whenever a placeholder of `d` begins with the needle, it is the needle. */
  predicate Whole(d: Doc, p: string) {
    d.Node? ==> (d.tok[..BaseLen(d.tok)] == p ==> d.tok == p) && Whole(d.rest, p)
  }

  predicate Worth(d: Doc, s: Step) {
    d.Node? ==> (d.tok == s.needle && s.Reveal? ==> d.val == s.value) && Worth(d.rest, s)
  }

  lemma {:induction false} ReplacesAll(d: Doc, s: Step)
    requires AllTokens(d) && !HasPlaceholder(Original(d)) && IsBase(s.needle)
    requires Whole(d, s.needle) && Worth(d, s)
    ensures ReplaceAll(Masked(d), s.needle, s.Replacement()) == Masked(Applied(d, s))
  {
    hide BaseLen, IsBase, IsToken, HasPlaceholder, ReplaceAll, Subst;
    var p, r := s.needle, s.Replacement();
    BaseShape(p);
    LiteralsInert(map[], d);
    match d
    case Tail(lit) =>
      PassLiteral(lit, "", p, r);
      assert lit + "" == lit;
      NothingReplaced(p, r);
    case Node(lit, tok, val, rest) =>
      var behind, after := Masked(rest), Masked(Applied(rest, s));
      TokenShape(tok);
      RestClean(d);
      ReplacesAll(rest, s);
      PassLiteral(lit, tok + behind, p, r);
      if tok == p {
        ReplacesHere(p, behind, r);
        MaskedInFront(lit + val, Applied(rest, s));
        assert s.Reveal? ==> lit + (val + after) == lit + val + after;
      } else {
        PassToken(tok, behind, p, r);
      }
  }

  lemma PassLiteral(lit: string, rest: string, p: string, r: string)
    requires IsBase(p) && p != "" && !HasPlaceholder(lit) && (rest == "" || rest[0] == '[')
    ensures ReplaceAll(lit + rest, p, r) == lit + ReplaceAll(rest, p, r)
  {
    hide IsBase, HasPlaceholder, ReplaceAll;
    forall i | 0 <= i < |lit| ensures !(p <= (lit + rest)[i..]) {
      NotInLiteral(lit, rest, p, i);
    }
    PassOver(lit, rest, p, r);
  }

  lemma PassToken(tok: string, rest: string, p: string, r: string)
    requires IsBase(p) && p != "" && IsToken(tok) && tok[..BaseLen(tok)] != p
    ensures ReplaceAll(tok + rest, p, r) == tok + ReplaceAll(rest, p, r)
  {
    hide BaseLen, IsBase, IsToken, ReplaceAll;
    forall i | 0 <= i < |tok| ensures !(p <= (tok + rest)[i..]) {
      NotInToken(tok, rest, p, i);
    }
    PassOver(tok, rest, p, r);
  }

  lemma NothingReplaced(p: string, r: string)
    requires p != ""
    ensures ReplaceAll("", p, r) == ""
  {
  }

  lemma ReplacesHere(p: string, behind: string, r: string)
    requires p != ""
    ensures ReplaceAll(p + behind, p, r) == r + ReplaceAll(behind, p, r)
  {
    var s := p + behind;
    assert p <= s && s[|p|..] == behind;
  }

  lemma RestClean(d: Doc)
    requires d.Node? && !HasPlaceholder(Original(d))
    ensures !HasPlaceholder(Original(d.rest))
  {
    hide HasPlaceholder;
    assert Original(d) == (d.lit + d.val) + (Original(d.rest) + "");
    NoPlaceholderIn(d.lit + d.val, Original(d.rest), "");
  }

  /** Replacing a placeholder by itself changes nothing. */
  lemma {:induction false} ReplacesItself(text: string, p: string)
    requires p != ""
    ensures ReplaceAll(text, p, p) == text
    decreases |text|
  {
    hide ReplaceAll;
    if text == "" {
      NothingReplaced(p, p);
    } else {
      var cut := if p <= text then |p| else 1;
      ReplaceStep(text, p, p);
      ReplacesItself(text[cut..], p);
      assert text[..cut] + text[cut..] == text;
    }
  }

  // ---- one after the other, and all at once ----

  /** What the gateway has: placeholders in a text without any of its own, and steps for bases among them. */
  ghost predicate Proper(d: Doc, steps: seq<Step>) {
    && AllTokens(d) && !HasPlaceholder(Original(d))
    && (forall s :: s in steps ==>
          IsBase(s.needle) && (s.Keep? ==> IsToken(s.canonical)) && Worth(d, s) && Whole(d, s.needle))
  }

  predicate Changes(s: Step) {
    s.Replacement() != s.needle
  }

  /** No placeholder that is put in begins with one whose turn comes later and changes it. */
  predicate NoInterference(steps: seq<Step>) {
    forall i, j :: 0 <= i < j < |steps| && steps[i].Keep? && Changes(steps[j]) ==>
                     steps[i].canonical[..BaseLen(steps[i].canonical)] != steps[j].needle
  }

  lemma AppliedInFront(x: string, d: Doc, s: Step)
    ensures Applied(InFront(x, d), s) == InFront(x, Applied(d, s))
    ensures AllTokens(InFront(x, d)) <==> AllTokens(d)
    ensures Whole(InFront(x, d), s.needle) <==> Whole(d, s.needle)
    ensures Worth(InFront(x, d), s) <==> Worth(d, s)
  {
    hide BaseLen, IsToken;
    match d
    case Tail(_) =>
    case Node(lit, tok, val, rest) =>
      var after := Applied(rest, s);
      if tok == s.needle && s.Reveal? {
        assert x + lit + val == x + (lit + val);
        InFrontTwice(x, lit + val, after);
      }
  }

  lemma InFrontTwice(x: string, y: string, d: Doc)
    ensures InFront(x, InFront(y, d)) == InFront(x + y, d)
  {
    assert x + (y + d.lit) == x + y + d.lit;
  }

  lemma {:induction false} SimultaneousKeeps(d: Doc, steps: seq<Step>)
    requires AllTokens(d) && forall s :: s in steps ==> (s.Keep? ==> IsToken(s.canonical))
    ensures AllTokens(Simultaneous(d, steps)) && Original(Simultaneous(d, steps)) == Original(d)
  {
    hide IsToken, StepFor;
    match d
    case Tail(_) =>
    case Node(lit, tok, val, rest) =>
      SimultaneousKeeps(rest, steps);
      var i, after := StepFor(steps, tok), Simultaneous(rest, steps);
      if i >= 0 {
        assert steps[i] in steps;
        MaskedInFront(lit + val, after);
        AppliedInFront(lit + val, after, steps[i]);
        assert lit + val + Original(after) == lit + (val + Original(after));
      }
  }

  lemma StepForThen(steps: seq<Step>, s: Step, p: string)
    ensures StepFor(steps + [s], p) ==
            if StepFor(steps, p) >= 0 then StepFor(steps, p) else if s.needle == p then |steps| else -1
  {
    assert (steps + [s])[..|steps|] == steps;
  }

  /** A step that changes nothing adds nothing. */
  lemma {:induction false} IdleStep(d: Doc, steps: seq<Step>, s: Step)
    requires s == Keep(s.needle, s.needle)
    ensures Simultaneous(d, steps + [s]) == Simultaneous(d, steps)
  {
    hide StepFor;
    match d
    case Tail(_) =>
    case Node(lit, tok, val, rest) =>
      IdleStep(rest, steps, s);
      StepForThen(steps, s, tok);
      var i := StepFor(steps, tok);
      assert i >= 0 ==> steps[i] in steps;
  }

  /** A step that changes something, where nothing interferes, acts on what it would act on anyway. */
  lemma {:induction false} NextStep(d: Doc, steps: seq<Step>, s: Step)
    requires Worth(d, s) && Whole(d, s.needle)
    requires forall t :: t in steps && t.Keep? ==>
               t.canonical[..BaseLen(t.canonical)] != s.needle && t.canonical != s.needle
    ensures var e := Simultaneous(d, steps);
            Applied(e, s) == Simultaneous(d, steps + [s]) && Whole(e, s.needle) && Worth(e, s)
  {
    hide BaseLen, StepFor;
    match d
    case Tail(_) =>
    case Node(lit, tok, val, rest) =>
      NextStep(rest, steps, s);
      StepForThen(steps, s, tok);
      var i := StepFor(steps, tok);
      assert i >= 0 ==> steps[i] in steps;
      AppliedInFront(lit + val, Simultaneous(rest, steps), s);
  }

  /**
   Replacing the placeholders one after the other, in the order of the records, gives what replacing all
   of them at once gives, whenever nothing interferes.
   */
  lemma {:induction false} SequentialIsSimultaneous(d: Doc, steps: seq<Step>)
    requires Proper(d, steps) && NoInterference(steps)
    ensures Sequential(Masked(d), steps) == Masked(Simultaneous(d, steps))
    decreases |steps|
  {
    hide BaseLen, IsBase, IsToken, HasPlaceholder, StepFor, ReplaceAll, Worth, Whole, Simultaneous, Masked;
    if steps == [] {
      NoSteps(d);
    } else {
      var init, s := steps[..|steps| - 1], steps[|steps| - 1];
      assert steps == init + [s];
      assert s in steps && forall t :: t in init ==> t in steps;
      SequentialIsSimultaneous(d, init);
      LastStep(d, init, s);
    }
  }

  /** The last step, on the document with all earlier ones taken. */
  lemma LastStep(d: Doc, init: seq<Step>, s: Step)
    requires Proper(d, init + [s]) && NoInterference(init + [s])
    ensures ReplaceAll(Masked(Simultaneous(d, init)), s.needle, s.Replacement()) == Masked(Simultaneous(d, init + [s]))
  {
    hide BaseLen, IsBase, IsToken, HasPlaceholder, StepFor, ReplaceAll, Worth, Whole, Simultaneous, Masked;
    var steps := init + [s];
    assert s in steps && forall t :: t in init ==> t in steps;
    SimultaneousKeeps(d, init);
    BaseShape(s.needle);
    if !Changes(s) {
      ReplacesItself(Masked(Simultaneous(d, init)), s.needle);
      LastIdle(d, init, s);
    } else {
      LastApart(init, s);
      NextStep(d, init, s);
      ReplacesAll(Simultaneous(d, init), s);
    }
  }

  lemma LastApart(init: seq<Step>, s: Step)
    requires NoInterference(init + [s]) && Changes(s) && IsBase(s.needle)
    ensures forall t :: t in init && t.Keep? ==>
              t.canonical[..BaseLen(t.canonical)] != s.needle && t.canonical != s.needle
  {
    hide BaseLen, IsBase;
    var steps := init + [s];
    forall t | t in init && t.Keep?
      ensures t.canonical[..BaseLen(t.canonical)] != s.needle && t.canonical != s.needle
    {
      var i :| 0 <= i < |init| && init[i] == t;
      assert steps[i] == t && steps[|init|] == s;
      BaseShape(s.needle);
      assert s.needle[..|s.needle|] == s.needle;
    }
  }

  lemma {:induction false} NoSteps(d: Doc)
    ensures Simultaneous(d, []) == d
  {
    if d.Node? {
      NoSteps(d.rest);
    }
  }

  /** A revealed value is no placeholder, so that a step which changes nothing keeps one. */
  lemma LastIdle(d: Doc, init: seq<Step>, s: Step)
    requires Proper(d, init + [s]) && !Changes(s)
    ensures Simultaneous(d, init + [s]) == Simultaneous(d, init)
  {
    hide BaseLen, IsToken, HasPlaceholder;
    var steps := init + [s];
    assert s in steps && forall t :: t in init ==> t in steps;
    if s.Keep? {
      IdleStep(d, init, s);
    } else {
      IdleReveal(d, init, s);
    }
  }

  /** Nothing in the document can have its own placeholder for a value. */
  lemma {:induction false} IdleReveal(d: Doc, steps: seq<Step>, s: Step)
    requires s == Reveal(s.needle, s.needle) && IsBase(s.needle) && Worth(d, s) && !HasPlaceholder(Original(d))
    ensures Simultaneous(d, steps + [s]) == Simultaneous(d, steps)
  {
    hide BaseLen, StepFor, HasPlaceholder, IsBase;
    match d
    case Tail(_) =>
    case Node(lit, tok, val, rest) =>
      RestClean(d);
      IdleReveal(rest, steps, s);
      StepForThen(steps, s, tok);
      if tok == s.needle {
        ValueIsNot(d, s.needle);
      }
  }

  lemma ValueIsNot(d: Doc, p: string)
    requires d.Node? && IsBase(p) && !HasPlaceholder(Original(d))
    ensures d.val != p
  {
    hide BaseLen, HasPlaceholder, IsBase;
    assert Original(d) == d.lit + (d.val + Original(d.rest));
    NoPlaceholderIn(d.lit, d.val, Original(d.rest));
    BaseShape(p);
    StartsPlaceholder(p);
  }

  lemma StartsPlaceholder(p: string)
    requires BaseLen(p) > 0
    ensures HasPlaceholder(p)
  {
    hide BaseLen;
  }
}
