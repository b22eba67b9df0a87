/**
 What steps taken one after the other make of a single placeholder, also where one of them brings in a
 placeholder whose turn is still to come.
 */
module Spots {
  import opened Placeholder
  import opened Replacing

  // ---- one placeholder under the steps ----

  /** What stands where a placeholder stood: one again, with what earlier suffixes left behind it, or a value. */
  datatype Spot = Open(base: string, tail: string) | Closed(text: string)

  function SpotText(x: Spot): string {
    match x
    case Open(base, tail) => base + tail
    case Closed(text) => text
  }

  function HeadOf(p: string): string {
    p[..BaseLen(p)]
  }

  function TailOf(p: string): string {
    p[BaseLen(p)..]
  }

  function Hit(x: Spot, s: Step): Spot {
    if x.Closed? || x.base != s.needle then x
    else
      match s
      case Keep(_, canonical) => Open(HeadOf(canonical), TailOf(canonical) + x.tail)
      case Reveal(_, value) => Closed(value + x.tail)
  }

  function Moved(x: Spot, steps: seq<Step>): Spot
    decreases |steps|
  {
    if steps == [] then x else Moved(Hit(x, steps[0]), steps[1..])
  }

  /** What replacing all at once makes of it. */
  function Target(steps: seq<Step>, p: string): Spot {
    var i := StepFor(steps, p);
    if i < 0 then Open(p, "")
    else
      match steps[i]
      case Keep(_, canonical) => Open(HeadOf(canonical), TailOf(canonical))
      case Reveal(_, value) => Closed(value)
  }

  lemma {:induction false} MovedOn(x: Spot, a: seq<Step>, b: seq<Step>)
    ensures Moved(x, a + b) == Moved(Moved(x, a), b)
    decreases |a|
  {
    hide Hit;
    if a == [] {
      assert a + b == b;
    } else {
      assert (a + b)[1..] == a[1..] + b;
      MovedOn(Hit(x, a[0]), a[1..], b);
    }
  }

  lemma MovedOne(x: Spot, s: Step)
    ensures Moved(x, [s]) == Hit(x, s)
  {
    assert [s][1..] == [];
  }

  /** A placeholder stays until its first step. */
  lemma {:induction false} Still(p: string, tail: string, steps: seq<Step>)
    requires forall s :: s in steps ==> s.needle != p
    ensures Moved(Open(p, tail), steps) == Open(p, tail)
  {
    if steps != [] {
      Still(p, tail, steps[1..]);
    }
  }

  function Behind(x: Spot, tail: string): Spot {
    match x
    case Open(base, t) => Open(base, t + tail)
    case Closed(text) => Closed(text + tail)
  }

  /** What stands behind a placeholder is carried along. */
  lemma {:induction false} CarriesTail(x: Spot, tail: string, steps: seq<Step>)
    requires x.Open?
    ensures Moved(Behind(x, tail), steps) == Behind(Moved(x, steps), tail)
    decreases |steps|
  {
    hide HeadOf, TailOf;
    if steps != [] {
      var s := steps[0];
      var y := Hit(x, s);
      assert s.Keep? ==> TailOf(s.canonical) + (x.tail + tail) == TailOf(s.canonical) + x.tail + tail;
      assert s.Reveal? ==> s.value + (x.tail + tail) == s.value + x.tail + tail;
      assert Hit(Behind(x, tail), s) == Behind(y, tail);
      if y.Open? {
        CarriesTail(y, tail, steps[1..]);
      } else {
        Rests(y, steps[1..]);
        Rests(Behind(y, tail), steps[1..]);
      }
    }
  }

  lemma {:induction false} Rests(x: Spot, steps: seq<Step>)
    requires x.Closed?
    ensures Moved(x, steps) == x
  {
    if steps != [] {
      Rests(x, steps[1..]);
    }
  }

  // ---- a placeholder that interferes does not end where it should ----

  predicate Consistent(steps: seq<Step>) {
    forall s, t :: s in steps && t in steps && s.needle == t.needle ==> s == t
  }

  /** Steps for bases, each putting in a placeholder or a value that is none. */
  ghost predicate Fine(steps: seq<Step>) {
    forall s :: s in steps ==> IsBase(s.needle) && (if s.Keep? then IsToken(s.canonical) else Changes(s))
  }

  /** Every placeholder there is a step for ends as replacing all at once would have it. */
  predicate AllEnd(steps: seq<Step>) {
    forall s :: s in steps ==> Moved(Open(s.needle, ""), steps) == Target(steps, s.needle)
  }

  lemma TokenParts(c: string)
    requires IsToken(c)
    ensures IsBase(HeadOf(c)) && '[' !in TailOf(c) && HeadOf(c) + TailOf(c) == c
    ensures IsBase(c) ==> HeadOf(c) == c && TailOf(c) == ""
  {
    hide BaseLen, IsToken, TokenLen;
    TokenShape(c);
    BasePart(c);
    BaseLenSound(c);
    if IsBase(c) {
      BaseShape(c);
    }
  }

  lemma BasePart(c: string)
    requires IsToken(c)
    ensures BaseLen(c) > 0
  {
    hide BaseLen, IsBase, IsSuffix;
    if IsBase(c) {
      BaseShape(c);
    } else {
      var b := c[..|c| - SUFFIX_LENGTH];
      BaseShape(b);
      BaseLenLocal(b, c[|c| - SUFFIX_LENGTH..]);
      assert b + c[|c| - SUFFIX_LENGTH..] == c;
    }
  }

  lemma FirstStep(steps: seq<Step>, s: Step)
    requires s in steps && Consistent(steps)
    ensures StepFor(steps, s.needle) >= 0 && steps[StepFor(steps, s.needle)] == s
  {
    var i := StepFor(steps, s.needle);
    var j :| 0 <= j < |steps| && steps[j] == s;
    assert i >= 0 && steps[i] in steps;
  }

  /** When the turn of a placeholder that changes comes, -1 for all others. */
  function Turn(steps: seq<Step>, p: string): int {
    var i := StepFor(steps, p);
    if i >= 0 && Changes(steps[i]) then i else -1
  }

  lemma NotYet(steps: seq<Step>, p: string, i: nat)
    requires i <= |steps| && i <= StepFor(steps, p)
    ensures Moved(Open(p, ""), steps) == Moved(Open(p, ""), steps[i..])
  {
    hide Moved, StepFor;
    assert steps == steps[..i] + steps[i..];
    assert forall s :: s in steps[..i] ==> s.needle != p;
    Still(p, "", steps[..i]);
    MovedOn(Open(p, ""), steps[..i], steps[i..]);
  }

  /** Up to and with its own step, a placeholder has become the one put in for it. */
  lemma AfterOwnStep(steps: seq<Step>, i: nat)
    requires i < |steps| && StepFor(steps, steps[i].needle) == i && steps[i].Keep?
    ensures var c := steps[i].canonical;
            Moved(Open(steps[i].needle, ""), steps) == Moved(Open(HeadOf(c), TailOf(c)), steps[i + 1..])
  {
    hide HeadOf, TailOf, Moved, StepFor;
    var s := steps[i];
    NotYet(steps, s.needle, i);
    OwnStep(s, steps[i + 1..]);
    assert steps[i..] == [s] + steps[i + 1..];
  }

  lemma OwnStep(s: Step, more: seq<Step>)
    requires s.Keep?
    ensures Moved(Open(s.needle, ""), [s] + more) == Moved(Open(HeadOf(s.canonical), TailOf(s.canonical)), more)
  {
    hide HeadOf, TailOf, Moved;
    MovedOn(Open(s.needle, ""), [s], more);
    MovedOne(Open(s.needle, ""), s);
    assert TailOf(s.canonical) + "" == TailOf(s.canonical);
  }

  /** What a placeholder becomes had its turn before: else the two would go on as one. */
  lemma TurnsFall(steps: seq<Step>, p: string)
    requires Consistent(steps) && Fine(steps) && AllEnd(steps)
    requires Turn(steps, p) >= 0 && steps[Turn(steps, p)].Keep?
    requires HeadOf(steps[Turn(steps, p)].canonical) != p
    ensures Turn(steps, HeadOf(steps[Turn(steps, p)].canonical)) < Turn(steps, p)
  {
    hide IsBase, IsToken, BaseLen, Moved, StepFor, HeadOf, TailOf;
    var i := Turn(steps, p);
    assert steps[i] in steps;
    var c := steps[i].canonical;
    var q := HeadOf(c);
    var j := Turn(steps, q);
    if j > i {
      assert steps[j] in steps;
      AfterOwnStep(steps, i);
      NotYet(steps, q, i + 1);
      var x := Moved(Open(q, ""), steps[i + 1..]);
      assert "" + TailOf(c) == TailOf(c);
      CarriesTail(Open(q, ""), TailOf(c), steps[i + 1..]);
      assert Behind(x, TailOf(c)) == Open(q, TailOf(c));
      assert x.tail + TailOf(c) == TailOf(c) ==> x.tail == "";
      EndsChanged(steps[j], q);
    }
  }

  /** A step that changes its placeholder has it end differently. */
  lemma EndsChanged(s: Step, q: string)
    requires Changes(s) && s.needle == q && (s.Keep? ==> IsToken(s.canonical))
    ensures s.Keep? ==> Open(HeadOf(s.canonical), TailOf(s.canonical)) != Open(q, "")
  {
    hide IsToken, BaseLen, HeadOf, TailOf;
    if s.Keep? {
      TokenParts(s.canonical);
      assert q + "" == q;
    }
  }

  /** Further on: turned earlier, or the same with no less behind it. */
  predicate Beyond(steps: seq<Step>, x: Spot, base: string, least: nat) {
    x.Open? ==> Turn(steps, x.base) < Turn(steps, base) || (x.base == base && |x.tail| >= least)
  }

  lemma {:induction false} Descends(steps: seq<Step>, base: string, tail: string, rest: seq<Step>)
    requires Consistent(steps) && Fine(steps) && AllEnd(steps) && forall s :: s in rest ==> s in steps
    ensures Beyond(steps, Moved(Open(base, tail), rest), base, |tail|)
    ensures (exists s :: s in rest && s.needle == base && Changes(s)) ==>
              Beyond(steps, Moved(Open(base, tail), rest), base, |tail| + 1)
    decreases |rest|
  {
    hide IsBase, IsToken, BaseLen, StepFor, HeadOf, TailOf, AllEnd, Turn;
    if rest != [] {
      var s, more := rest[0], rest[1..];
      assert rest == [s] + more;
      if s.needle != base {
        Descends(steps, base, tail, more);
      } else {
        assert s in steps;
        StepAt(steps, s);
        if s.Reveal? {
          Rests(Closed(s.value + tail), more);
        } else {
          TokenParts(s.canonical);
          var b, t := HeadOf(s.canonical), TailOf(s.canonical);
          Descends(steps, b, t + tail, more);
          if !Changes(s) {
            assert b == base && t == "" && t + tail == tail;
            assert forall u :: u in more && u.needle == base ==> u == s;
          } else if b == base {
            assert t != "" by { assert t == "" ==> b + t == b; }
          } else {
            TurnsFall(steps, base);
          }
        }
      }
    }
  }

  lemma StepAt(steps: seq<Step>, s: Step)
    requires s in steps && Consistent(steps)
    ensures Changes(s) ==> Turn(steps, s.needle) >= 0 && steps[Turn(steps, s.needle)] == s
  {
    FirstStep(steps, s);
  }

  /** When all end as they should, no placeholder that is put in is changed by a later step. */
  lemma AllEndApart(steps: seq<Step>)
    requires Consistent(steps) && Fine(steps) && AllEnd(steps)
    ensures NoInterference(steps)
  {
    hide IsBase, IsToken, BaseLen, Moved, HeadOf, TailOf;
    forall i, j | 0 <= i < j < |steps| && steps[i].Keep? && Changes(steps[j])
      ensures HeadOf(steps[i].canonical) != steps[j].needle
    {
      if HeadOf(steps[i].canonical) == steps[j].needle {
        EndsBeyond(steps, i, j);
      }
    }
    assert forall i :: 0 <= i < |steps| && steps[i].Keep? ==> HeadOf(steps[i].canonical) == HeadOf(steps[i].canonical);
    ApartMeans(steps);
  }

  lemma ApartMeans(steps: seq<Step>)
    requires forall i, j :: 0 <= i < j < |steps| && steps[i].Keep? && Changes(steps[j]) ==>
                              HeadOf(steps[i].canonical) != steps[j].needle
    ensures NoInterference(steps)
  {
    hide BaseLen;
  }

  lemma EndsBeyond(steps: seq<Step>, i: nat, j: nat)
    requires Consistent(steps) && Fine(steps) && i < j < |steps| && steps[i].Keep? && Changes(steps[j])
    requires HeadOf(steps[i].canonical) == steps[j].needle
    ensures !AllEnd(steps)
  {
    hide IsBase, IsToken, BaseLen, HeadOf, TailOf, Turn, Beyond;
    assert steps[i] in steps && steps[j] in steps;
    FirstStep(steps, steps[i]);
    var k, c := StepFor(steps, steps[i].needle), steps[i].canonical;
    assert k <= i;
    AfterOwnStep(steps, k);
    if AllEnd(steps) {
      assert steps[k + 1..][j - k - 1] == steps[j];
      Descends(steps, HeadOf(c), TailOf(c), steps[k + 1..]);
      NotBeyond(steps, HeadOf(c), TailOf(c));
    }
  }

  lemma NotBeyond(steps: seq<Step>, base: string, tail: string)
    ensures !Beyond(steps, Open(base, tail), base, |tail| + 1)
  {
  }
}
