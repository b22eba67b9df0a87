/**
 Interference that the text written does not show, so that the conditions of `InterferenceShows` cannot be
 dropped: a step that another one takes back, and a placeholder that arises by accident.
 */
module Accidents {
  import opened Placeholder
  import opened Document
  import opened Replacing
  import opened Spots
  import opened Interference

  lemma MovedFour(x: Spot, a: Step, b: Step, c: Step, e: Step)
    ensures Moved(x, [a, b, c, e]) == Hit(Hit(Hit(Hit(x, a), b), c), e)
  {
    hide Hit;
    assert [a, b, c, e] == [a, b] + [c, e] && [a, b] == [a] + [b] && [c, e] == [c] + [e];
    MovedOn(x, [a, b], [c, e]);
    MovedOn(x, [a], [b]);
    MovedOne(x, a);
    MovedOne(Hit(x, a), b);
    var y := Hit(Hit(x, a), b);
    MovedOn(y, [c], [e]);
    MovedOne(y, c);
    MovedOne(Hit(y, c), e);
  }

  function ThreeNames(p: string, q: string, t: string): Doc {
    Node("", p, "", Node(" ", q, "", Node(" ", t, "", Tail(""))))
  }

  lemma ThreeNamesMasked(p: string, q: string, t: string)
    ensures Masked(ThreeNames(p, q, t)) == p + (" " + (q + (" " + t)))
    ensures Original(ThreeNames(p, q, t)) == "  "
  {
    var last := Node(" ", t, "", Tail(""));
    var more := Node(" ", q, "", last);
    assert Masked(last) == " " + (t + "") == " " + t;
    assert Original(last) == " " + ("" + "") == " ";
    assert Original(more) == " " + ("" + Original(last)) == "  ";
    assert "" + (p + Masked(more)) == p + Masked(more);
  }

  lemma ThreeBases(p: string, q: string, t: string)
    requires IsBase(p) && IsBase(q) && IsBase(t)
    ensures AllBases(ThreeNames(p, q, t))
  {
    hide IsBase;
    var last := Node(" ", t, "", Tail(""));
    assert AllBases(last.rest);
    assert AllBases(last);
    var more := Node(" ", q, "", last);
    assert AllBases(more.rest);
    assert AllBases(more);
  }

  /** Two steps for one placeholder, the second one for what another step put in, which a fourth step takes back. */
  lemma TakenBack(p: string, q: string, t: string, r: string)
    requires IsBase(p) && IsBase(q) && IsBase(t) && IsBase(r)
    requires p != q && p != t && p != r && q != t && q != r && t != r
    ensures var d, steps := ThreeNames(p, q, t), [Keep(q, r), Keep(p, q), Keep(q, t), Keep(t, q)];
            && CalmThroughout(d, steps) && !NoInterference(steps) && !Consistent(steps)
            && Sequential(Masked(d), steps) == q + (" " + (r + (" " + q))) == Masked(Simultaneous(d, steps))
  {
    hide IsBase, BaseLen, HasPlaceholder, Sequential, Calm, Hit, HeadOf, TailOf, StepFor, Masked, NoInterference;
    var d, steps := ThreeNames(p, q, t), [Keep(q, r), Keep(p, q), Keep(q, t), Keep(t, q)];
    ThreeNamesMasked(p, q, t);
    NoBracket("  ");
    TokenParts(p);
    TokenParts(q);
    TokenParts(t);
    TokenParts(r);
    ThreeBases(p, q, t);
    assert RevealsApart(steps);
    forall s | s in steps
      ensures Worth(d, s)
    {
      KeepWorth(d, s);
    }
    ApartCalm(d, steps);
    SequentialText(d, steps);
    assert steps[1].canonical == q && steps[2].needle == q;
    Interferes(steps);
    assert steps[0] in steps && steps[2] in steps;
    MovedFour(Open(p, ""), steps[0], steps[1], steps[2], steps[3]);
    MovedFour(Open(q, ""), steps[0], steps[1], steps[2], steps[3]);
    MovedFour(Open(t, ""), steps[0], steps[1], steps[2], steps[3]);
    TakenBackSpots(p, q, t, r);
    TakenBackTarget(p, q, t, r);
    ThreeNamesMasked(q, r, q);
    TakenBackText(d, steps, q, r);
  }

  lemma Interferes(steps: seq<Step>)
    requires |steps| == 4 && steps[1].Keep? && steps[2].Keep? && IsBase(steps[1].canonical)
    requires steps[1].canonical == steps[2].needle && steps[2].canonical != steps[2].needle
    ensures !NoInterference(steps)
  {
    hide IsBase, BaseLen;
    BaseShape(steps[1].canonical);
    var c := steps[1].canonical;
    assert c[..|c|] == c;
  }

  lemma TakenBackSpots(p: string, q: string, t: string, r: string)
    requires p != q && p != t && p != r && q != t && q != r && t != r
    requires forall x :: x in {p, q, t, r} ==> HeadOf(x) == x && TailOf(x) == ""
    ensures var a, b, c, e := Keep(q, r), Keep(p, q), Keep(q, t), Keep(t, q);
            && Hit(Hit(Hit(Hit(Open(p, ""), a), b), c), e) == Open(q, "")
            && Hit(Hit(Hit(Hit(Open(q, ""), a), b), c), e) == Open(r, "")
            && Hit(Hit(Hit(Hit(Open(t, ""), a), b), c), e) == Open(q, "")
  {
    hide HeadOf, TailOf;
    assert "" + "" == "";
  }

  lemma TakenBackTarget(p: string, q: string, t: string, r: string)
    requires p != q && p != t && q != t
    ensures Simultaneous(ThreeNames(p, q, t), [Keep(q, r), Keep(p, q), Keep(q, t), Keep(t, q)]) == ThreeNames(q, r, q)
  {
    hide StepFor;
    var steps := [Keep(q, r), Keep(p, q), Keep(q, t), Keep(t, q)];
    assert steps[0].needle == q && steps[1].needle == p && steps[3].needle == t;
    assert StepFor(steps, q) == 0 && StepFor(steps, p) == 1 && StepFor(steps, t) == 3;
    var last := Node(" ", t, "", Tail(""));
    assert Simultaneous(last, steps) == Node(" ", q, "", Tail(""));
  }

  lemma TakenBackText(d: Doc, steps: seq<Step>, q: string, r: string)
    requires d.Node? && d.rest.Node? && d.rest.rest.Node? && d == ThreeNames(d.tok, d.rest.tok, d.rest.rest.tok)
    requires Moved(Open(d.tok, ""), steps) == Open(q, "") && Moved(Open(d.rest.tok, ""), steps) == Open(r, "")
    requires Moved(Open(d.rest.rest.tok, ""), steps) == Open(q, "")
    ensures Text(MovedLine(d, steps)) == q + (" " + (r + (" " + q)))
  {
    hide Moved;
    var last := d.rest.rest;
    assert MovedLine(last.rest, steps) == Close("");
    assert q + "" == q && r + "" == r;
    assert Text(MovedLine(last, steps)) == " " + (q + "") == " " + q;
    assert Text(MovedLine(d.rest, steps)) == " " + (r + Text(MovedLine(last, steps)));
    assert "" + (q + Text(MovedLine(d.rest, steps))) == q + Text(MovedLine(d.rest, steps));
  }

  /**
   A value out of its place and the text before it make up the placeholder `a`, and the value of that one
   makes up, with what is left, the placeholder that the value stands in for.
   */
  lemma AccidentRepairs(x: string, y: string, v: string, w: string, p: string, q: string, a: string)
    requires IsBase(p) && IsBase(q) && IsBase(a) && p != q && p != a && q != a
    requires !HasPlaceholder(x) && '[' !in y && '[' !in v
    requires x + v == a + y && w + y == x + q
    ensures var steps := [Keep(p, q), Reveal(q, v), Reveal(a, w)];
            Sequential(x + (p + (" " + (q + (" " + a)))), steps) == x + (q + (" " + (v + (" " + w))))
  {
    hide IsBase, BaseLen, HasPlaceholder, ReplaceAll, HeadOf, TailOf, Hit, HitLine, Text, Calm, GoodSpots, SpotText,
         GoodSpot, ThreePlaces, Sequential;
    var s0, s1, s2 := Keep(p, q), Reveal(q, v), Reveal(a, w);
    TokenParts(q);
    BareSpots(p, q, a, v);
    var l := ThreePlaces(x, Open(p, ""), Open(q, ""), Open(a, ""));
    var m := ThreePlaces(x, Open(q, ""), Open(q, ""), Open(a, ""));
    ThreePlacesCalm(x, Open(p, ""), Open(q, ""), Open(a, ""));
    ThreePlacesText(x, Open(p, ""), Open(q, ""), Open(a, ""));
    HitAtStart(l, s0);
    ThreePlacesHit(x, Open(p, ""), Open(q, ""), Open(a, ""), s0);
    ThreePlacesCalm(x, Open(q, ""), Open(q, ""), Open(a, ""));
    HitAtStart(m, s1);
    ThreePlacesHit(x, Open(q, ""), Open(q, ""), Open(a, ""), s1);
    ThreePlacesText(x, Closed(v), Closed(v), Open(a, ""));
    AccidentText(x, y, v, a);
    AccidentLast(y, v, w, a);
    SameStart(w, y, x, q, " " + (v + (" " + w)));
    ThreeSteps(x + (p + (" " + (q + (" " + a)))), s0, s1, s2);
  }

  lemma BareSpots(p: string, q: string, a: string, v: string)
    requires IsBase(p) && IsBase(q) && IsBase(a) && p != q && p != a && q != a && HeadOf(q) == q && TailOf(q) == ""
    ensures SpotText(Open(p, "")) == p && SpotText(Open(q, "")) == q && SpotText(Open(a, "")) == a
    ensures SpotText(Closed(v)) == v
    ensures GoodSpot(Open(p, "")) && GoodSpot(Open(q, "")) && GoodSpot(Open(a, ""))
    ensures !HasPlaceholder(" ") && !HasPlaceholder("")
    ensures Hit(Open(p, ""), Keep(p, q)) == Open(q, "") && Hit(Open(q, ""), Keep(p, q)) == Open(q, "")
    ensures Hit(Open(q, ""), Reveal(q, v)) == Closed(v)
    ensures forall s :: s in [Keep(p, q), Reveal(q, v)] ==> Hit(Open(a, ""), s) == Open(a, "")
  {
    hide IsBase, BaseLen, HasPlaceholder, HeadOf, TailOf;
    NoBracket(" ");
    NoBracket("");
    assert v + "" == v && p + "" == p && q + "" == q && a + "" == a;
  }

  lemma SameStart(a: string, b: string, c: string, e: string, rest: string)
    requires a + b == c + e
    ensures a + (b + rest) == c + (e + rest)
  {
    assert a + (b + rest) == a + b + rest && c + (e + rest) == c + e + rest;
  }

  lemma ThreePlacesHit(x: string, a: Spot, b: Spot, c: Spot, s: Step)
    ensures HitLine(ThreePlaces(x, a, b, c), s) == ThreePlaces(x, Hit(a, s), Hit(b, s), Hit(c, s))
  {
    hide Hit;
    var last := Place(" ", c, "", Close(""));
    assert HitLine(last, s) == Place(" ", Hit(c, s), "", Close(""));
    assert HitLine(Place(" ", b, "", last), s) == Place(" ", Hit(b, s), "", HitLine(last, s));
  }

  function ThreePlaces(x: string, a: Spot, b: Spot, c: Spot): Line {
    Place(x, a, "", Place(" ", b, "", Place(" ", c, "", Close(""))))
  }

  lemma ThreePlacesText(x: string, a: Spot, b: Spot, c: Spot)
    ensures Text(ThreePlaces(x, a, b, c)) == x + (SpotText(a) + (" " + (SpotText(b) + (" " + SpotText(c)))))
  {
    hide SpotText;
    var last := Place(" ", c, "", Close(""));
    assert Text(last) == " " + (SpotText(c) + "") == " " + SpotText(c);
    assert Text(Place(" ", b, "", last)) == " " + (SpotText(b) + Text(last));
  }

  lemma ThreePlacesCalm(x: string, a: Spot, b: Spot, c: Spot)
    requires a.Open? && b.Open? && c.Open? && !HasPlaceholder(x) && !HasPlaceholder(" ") && !HasPlaceholder("")
    requires GoodSpot(a) && GoodSpot(b) && GoodSpot(c)
    ensures Calm("", ThreePlaces(x, a, b, c)) && GoodSpots(ThreePlaces(x, a, b, c))
  {
    hide HasPlaceholder, GoodSpot;
    assert "" + x == x && "" + " " == " " && "" + "" == "";
    var last := Place(" ", c, "", Close(""));
    assert GoodSpots(Close("")) && Calm("", Close(""));
    assert Calm("", last) && GoodSpots(last);
    assert Calm("", Place(" ", b, "", last)) && GoodSpots(Place(" ", b, "", last));
  }

  lemma HitAtStart(l: Line, s: Step)
    requires Calm("", l) && GoodSpots(l) && IsBase(s.needle)
    ensures ReplaceAll(Text(l), s.needle, s.Replacement()) == Text(HitLine(l, s))
  {
    hide Calm, GoodSpots, IsBase, ReplaceAll, Text, HitLine;
    HitText("", l, s);
    assert "" + Text(l) == Text(l) && "" + Text(HitLine(l, s)) == Text(HitLine(l, s));
  }

  lemma AccidentText(x: string, y: string, v: string, a: string)
    requires x + v == a + y
    ensures x + (v + (" " + (v + (" " + a)))) == a + (y + " " + v + " " + a)
  {
    var rest := " " + (v + (" " + a));
    assert x + (v + rest) == x + v + rest == a + y + rest == a + (y + rest);
    assert y + rest == y + " " + v + " " + a;
  }

  lemma AccidentLast(y: string, v: string, w: string, a: string)
    requires IsBase(a) && '[' !in y && '[' !in v
    ensures ReplaceAll(a + (y + " " + v + " " + a), a, w) == w + (y + (" " + (v + (" " + w))))
  {
    hide IsBase, ReplaceAll;
    BaseShape(a);
    var lit := y + " " + v + " ";
    NothingReplaced(a, w);
    assert a + "" == a && w + "" == w;
    ReplacesHere(a, "", w);
    PassTail(lit, a, a, w);
    assert y + " " + v + " " + a == lit + a;
    ReplacesHere(a, lit + a, w);
    assert lit + w == y + (" " + (v + (" " + w)));
  }

  lemma ThreeSteps(text: string, a: Step, b: Step, c: Step)
    ensures Sequential(text, [a, b, c]) ==
            ReplaceAll(ReplaceAll(ReplaceAll(text, a.needle, a.Replacement()), b.needle, b.Replacement()),
                       c.needle, c.Replacement())
  {
    hide ReplaceAll;
    assert [a, b, c][..2] == [a, b] && [a, b][..1] == [a] && [a][..0] == [];
    assert Sequential(text, []) == text;
    assert Sequential(text, [a]) == ReplaceAll(text, a.needle, a.Replacement());
  }

  lemma {:induction false} JoinedHas(u: string, v: string)
    requires !HasPlaceholder(u) && v != "" && v[0] == '['
    ensures HasPlaceholder(u + v) <==> HasPlaceholder(v)
    decreases |u|
  {
    hide BaseLen;
    if u == "" {
      assert u + v == v;
    } else {
      BaseLenLocal(u, v);
      assert (u + v)[1..] == u[1..] + v;
      JoinedHas(u[1..], v);
    }
  }

  lemma OneBracket(s: string)
    requires s != "" && '[' !in s[1..] && BaseLen(s) == 0
    ensures !HasPlaceholder(s)
  {
    hide BaseLen;
    NoBracket(s[1..]);
  }

  /** A label that no number follows makes no base. */
  lemma NoNumber(s: string, k: nat)
    requires k + 1 <= |s| && forall i :: 1 <= i <= k ==> IsUpper(s[i])
    requires k + 1 < |s| ==> !IsUpper(s[k + 1])
    requires |s| <= k + 1 || s[k + 1] != '_' || |s| == k + 2
    ensures BaseLen(s) == 0
  {
    assert forall i :: 0 <= i < k ==> s[1..][i] == s[i + 1];
    assert k + 1 < |s| ==> s[1..][k] == s[k + 1];
    assert UpperRun(s[1..]) == k;
    if |s| == k + 2 {
      assert s[k + 2..] == "";
    }
  }

  lemma BrokenLabels()
    ensures BaseLen("[KISAda I_3]2] ") == 0 && BaseLen("[KIS") == 0 && BaseLen("[KISI_") == 0
  {
    hide BaseLen;
    NoNumber("[KISAda I_3]2] ", 4);
    NoNumber("[KIS", 3);
    NoNumber("[KISI_", 4);
  }

  /** A text with the beginnings of three placeholders in it, and none. */
  lemma BrokenText()
    ensures !HasPlaceholder("[KISAda I_3]2] " + ("[KIS" + "[KISI_")) && !HasPlaceholder("[KIS")
  {
    hide BaseLen, HasPlaceholder;
    BrokenLabels();
    Broken("[KISAda I_3]2] ", "[KIS", "[KISI_");
  }

  lemma Broken(a: string, b: string, c: string)
    requires a != "" && b != "" && c != "" && '[' !in a[1..] && '[' !in b[1..] && '[' !in c[1..]
    requires b[0] == '[' && c[0] == '[' && BaseLen(a) == 0 && BaseLen(b) == 0 && BaseLen(c) == 0
    ensures !HasPlaceholder(a + (b + c)) && !HasPlaceholder(b)
  {
    hide BaseLen, HasPlaceholder;
    OneBracket(a);
    OneBracket(b);
    OneBracket(c);
    JoinedHas(b, c);
    JoinedHas(a, b + c);
  }

  function AccidentDoc(x: string, v: string, w: string, p: string, q: string, a: string): Doc {
    Node(x, p, "Ada", Node(" ", q, v, Node(" ", a, w, Tail(""))))
  }

  lemma AccidentMasked(x: string, v: string, w: string, p: string, q: string, a: string)
    requires p != q && p != a && q != a
    ensures var d, steps := AccidentDoc(x, v, w, p, q, a), [Keep(p, q), Reveal(q, v), Reveal(a, w)];
            && Masked(d) == x + (p + (" " + (q + (" " + a))))
            && Masked(Simultaneous(d, steps)) == x + (q + (" " + (v + (" " + w))))
            && Original(d) == x + ("Ada" + (" " + (v + (" " + w))))
  {
    hide StepFor;
    var steps := [Keep(p, q), Reveal(q, v), Reveal(a, w)];
    assert steps[0].needle == p && steps[1].needle == q && steps[2].needle == a;
    assert StepFor(steps, p) == 0 && StepFor(steps, q) == 1 && StepFor(steps, a) == 2;
    var last := Node(" ", a, w, Tail(""));
    var more := Node(" ", q, v, last);
    assert a + "" == a && w + "" == w;
    assert Masked(last) == " " + a && Original(last) == " " + w;
    assert Masked(more) == " " + (q + (" " + a)) && Original(more) == " " + (v + (" " + w));
    assert Simultaneous(last, steps) == Tail(" " + w + "");
    assert Simultaneous(more, steps) == Tail(" " + v + (" " + w + ""));
    assert " " + v + (" " + w + "") == " " + (v + (" " + w));
  }

  lemma AccidentSendable(x: string, v: string, w: string, p: string, q: string, a: string)
    requires IsBase(p) && IsBase(q) && IsBase(a) && p != q && p != a && q != a
    requires !HasPlaceholder(Original(AccidentDoc(x, v, w, p, q, a)))
    ensures var d, steps := AccidentDoc(x, v, w, p, q, a), [Keep(p, q), Reveal(q, v), Reveal(a, w)];
            Sendable(d, steps) && (v != q ==> !NoInterference(steps))
  {
    hide IsBase, HasPlaceholder, BaseLen, Original;
    var d, steps := AccidentDoc(x, v, w, p, q, a), [Keep(p, q), Reveal(q, v), Reveal(a, w)];
    assert d.rest == Node(" ", q, v, d.rest.rest) && d.rest.rest == Node(" ", a, w, Tail(""));
    assert AllBases(Tail(""));
    assert AllBases(d.rest.rest);
    assert AllBases(d.rest);
    forall s | s in steps
      ensures Worth(d, s) && Holds(d, s.needle)
    {
      assert Worth(Tail(""), s) && Worth(d.rest.rest, s) && Worth(d.rest, s);
      assert Holds(d.rest.rest, a) && Holds(d.rest, q);
    }
    BaseShape(q);
    assert q[..|q|] == q;
    assert steps[0].canonical == q && steps[1].needle == q;
  }

  /**
   So it takes calm: here the accident makes up for the interference. After the second step the text reads
   `[KISI_3]2] I_3]2] [KISI_3]`, and the third one gives back what the second one spoilt.
   */
  lemma AccidentAtKisi()
    ensures var d := AccidentDoc("[KIS", "I_3]2]", "[KIS[KISI_", "[KISI_1]", "[KISI_2]", "[KISI_3]");
            var steps := [Keep("[KISI_1]", "[KISI_2]"), Reveal("[KISI_2]", "I_3]2]"), Reveal("[KISI_3]", "[KIS[KISI_")];
            && Sendable(d, steps) && !NoInterference(steps) && !CalmThroughout(d, steps)
            && Sequential(Masked(d), steps) == Masked(Simultaneous(d, steps))
  {
    hide IsBase, HasPlaceholder, BaseLen, Original, Masked, Simultaneous, Sequential, Sendable, NoInterference,
         CalmThroughout, AccidentDoc;
    var x, y, v, w := "[KIS", "2]", "I_3]2]", "[KIS[KISI_";
    var p, q, a := "[KISI_1]", "[KISI_2]", "[KISI_3]";
    Kisi("1");
    Kisi("2");
    Kisi("3");
    assert p == "[KISI_" + "1" + "]" && q == "[KISI_" + "2" + "]" && a == "[KISI_" + "3" + "]";
    AccidentPieces(x, y, v, w, q, a);
    AccidentMasked(x, v, w, p, q, a);
    AccidentSendable(x, v, w, p, q, a);
    AccidentRepairs(x, y, v, w, p, q, a);
    var d, steps := AccidentDoc(x, v, w, p, q, a), [Keep(p, q), Reveal(q, v), Reveal(a, w)];
    if CalmThroughout(d, steps) {
      InterferenceShows(d, steps);
    }
  }

  lemma AccidentPieces(x: string, y: string, v: string, w: string, q: string, a: string)
    requires x == "[KIS" && y == "2]" && v == "I_3]2]" && w == "[KIS[KISI_" && q == "[KISI_2]" && a == "[KISI_3]"
    ensures x + v == a + y && w + y == x + q && '[' !in y && '[' !in v && v != q && !HasPlaceholder(x)
    ensures !HasPlaceholder(x + ("Ada" + (" " + (v + (" " + w)))))
  {
    hide HasPlaceholder;
    BrokenText();
    assert "[KIS" + "[KISI_" == w;
    assert x + ("Ada" + (" " + (v + " "))) == "[KISAda I_3]2] ";
    assert x + ("Ada" + (" " + (v + (" " + w)))) == x + ("Ada" + (" " + (v + " "))) + w;
  }
}
