/**
 The digit scanner behind the number detectors: it finds groups of decimal digits that visual separators
 may run through, and yields those of one length.

 Declaratively the groups of a text are fixed - every digit is in exactly one - and the scanner yields
 precisely the groups with the requested count.
 */
module Digits {
  import opened Wrappers

  const SEPARATORS := ".-/\U{200b}\U{200c}\U{200d}\U{2060}"

  /** The Unicode tables: the decimal value of a character, as an ASCII digit, and white space. */
  datatype Tables = Tables(asciiDigit: char -> Option<char>, isSpace: char -> bool) {
    predicate IsDigit(c: char) {
      asciiDigit(c).Some?
    }

    predicate IsSeparator(c: char) {
      isSpace(c) || c in SEPARATORS
    }

    /** No character is both. */
    ghost predicate Valid() {
      forall c :: !(IsDigit(c) && IsSeparator(c))
    }
  }

  lemma Separators()
    ensures forall c :: c in SEPARATORS <==>
              c in ['.', '-', '/', '\U{200b}', '\U{200c}', '\U{200d}', '\U{2060}']
  {
    assert SEPARATORS == ['.', '-', '/', '\U{200b}', '\U{200c}', '\U{200d}', '\U{2060}'];
  }

  datatype Candidate = Candidate(start: nat, end: nat, digits: string)

  /** The digits between two places of a text. */
  function DigitsIn(t: Tables, text: string, a: nat, b: nat): string
    requires b <= |text|
  {
    if b <= a then ""
    else DigitsIn(t, text, a, b - 1) + if t.IsDigit(text[b - 1]) then [t.asciiDigit(text[b - 1]).value] else ""
  }

  /** Only digits and separators between two places. */
  predicate Linked(t: Tables, text: string, a: nat, b: nat) {
    b <= |text| && forall i :: a <= i < b ==> t.IsDigit(text[i]) || t.IsSeparator(text[i])
  }

  predicate Separated(t: Tables, text: string, a: nat, b: nat) {
    b <= |text| && forall i :: a <= i < b ==> t.IsSeparator(text[i])
  }

  predicate Preceded(t: Tables, text: string, start: nat) {
    start <= |text| && exists p :: 0 <= p < start && t.IsDigit(text[p]) && Separated(t, text, p + 1, start)
  }

  predicate Followed(t: Tables, text: string, end: nat) {
    exists p :: end <= p < |text| && t.IsDigit(text[p]) && Separated(t, text, end, p)
  }

  /** From a digit to a digit over digits and separators, and no further either way. */
  predicate IsGroup(t: Tables, text: string, start: nat, end: nat) {
    && start < end <= |text| && t.IsDigit(text[start]) && t.IsDigit(text[end - 1])
    && Linked(t, text, start, end)
    && !Preceded(t, text, start) && !Followed(t, text, end)
  }

  // ---- groups ----

  /** A separator-linked stretch that begins at a digit does not run past the end of its group. */
  lemma {:induction false} GroupEndsLast(t: Tables, text: string, start: nat, end: nat, last: nat)
    requires t.Valid() && IsGroup(t, text, start, end)
    requires end <= last < |text| && t.IsDigit(text[last])
    ensures !Linked(t, text, start, last + 1)
    decreases last
  {
    if Linked(t, text, start, last + 1) {
      if !Separated(t, text, end, last) {
        var i :| end <= i < last && !t.IsSeparator(text[i]);
        assert t.IsDigit(text[i]);
        GroupEndsLast(t, text, start, end, i);
      }
    }
  }

  lemma {:induction false} GroupStartsFirst(t: Tables, text: string, start: nat, end: nat, first: nat)
    requires t.Valid() && IsGroup(t, text, start, end)
    requires first < start && t.IsDigit(text[first])
    ensures !Linked(t, text, first, start)
    decreases start - first
  {
    if Linked(t, text, first, start) {
      if !Separated(t, text, first + 1, start) {
        var i :| first + 1 <= i < start && !t.IsSeparator(text[i]);
        assert t.IsDigit(text[i]);
        GroupStartsFirst(t, text, start, end, i);
      }
    }
  }

  /** Two groups are the same or have nothing in common. */
  lemma GroupsDisjoint(t: Tables, text: string, a: nat, b: nat, c: nat, d: nat)
    requires t.Valid() && IsGroup(t, text, a, b) && IsGroup(t, text, c, d)
    ensures (a == c && b == d) || b <= c || d <= a
  {
    if a < d && c < b {
      if a < c {
        GroupStartsFirst(t, text, c, d, a);
        assert Linked(t, text, a, c);
      } else if c < a {
        GroupStartsFirst(t, text, a, b, c);
        assert Linked(t, text, c, a);
      } else if b < d {
        GroupEndsLast(t, text, a, b, d - 1);
      } else if d < b {
        GroupEndsLast(t, text, c, d, b - 1);
      }
    }
  }

  /** Going left from a digit, over digits and separators, to the first digit of its group. */
  lemma {:induction false} FirstOf(t: Tables, text: string, i: nat) returns (start: nat)
    requires i < |text| && t.IsDigit(text[i])
    ensures start <= i && t.IsDigit(text[start]) && Linked(t, text, start, i + 1) && !Preceded(t, text, start)
    decreases i
  {
    if Preceded(t, text, i) {
      var p :| 0 <= p < i && t.IsDigit(text[p]) && Separated(t, text, p + 1, i);
      start := FirstOf(t, text, p);
    } else {
      start := i;
    }
  }

  lemma {:induction false} LastOf(t: Tables, text: string, i: nat) returns (end: nat)
    requires i < |text| && t.IsDigit(text[i])
    ensures i < end <= |text| && t.IsDigit(text[end - 1]) && Linked(t, text, i, end) && !Followed(t, text, end)
    decreases |text| - i
  {
    if Followed(t, text, i + 1) {
      var p :| i + 1 <= p < |text| && t.IsDigit(text[p]) && Separated(t, text, i + 1, p);
      end := LastOf(t, text, p);
    } else {
      end := i + 1;
    }
  }

  /** Every digit is in a group. */
  lemma GroupOf(t: Tables, text: string, i: nat) returns (start: nat, end: nat)
    requires i < |text| && t.IsDigit(text[i])
    ensures start <= i < end && IsGroup(t, text, start, end)
  {
    start := FirstOf(t, text, i);
    end := LastOf(t, text, i);
  }

  // ---- counting digits ----

  lemma {:induction false} DigitsGrow(t: Tables, text: string, a: nat, b: nat, c: nat)
    requires a <= b <= c <= |text|
    ensures DigitsIn(t, text, a, b) <= DigitsIn(t, text, a, c)
    ensures (exists i :: b <= i < c && t.IsDigit(text[i])) ==> |DigitsIn(t, text, a, b)| < |DigitsIn(t, text, a, c)|
    decreases c
  {
    if b < c {
      DigitsGrow(t, text, a, b, c - 1);
    }
  }

  /** The digits of a stretch are those of its parts, and of one place the ASCII digit of its value. */
  lemma {:induction false} DigitsOfParts(t: Tables, text: string, a: nat, b: nat, c: nat)
    requires a <= b <= c <= |text|
    ensures DigitsIn(t, text, a, c) == DigitsIn(t, text, a, b) + DigitsIn(t, text, b, c)
    decreases c
  {
    if b < c {
      DigitsOfParts(t, text, a, b, c - 1);
    } else {
      assert DigitsIn(t, text, a, b) + "" == DigitsIn(t, text, a, b);
    }
  }

  lemma DigitAt(t: Tables, text: string, i: nat)
    requires i < |text|
    ensures DigitsIn(t, text, i, i + 1) ==
            if t.asciiDigit(text[i]).Some? then [t.asciiDigit(text[i]).value] else ""
  {
    assert DigitsIn(t, text, i, i) == "";
  }

  lemma {:induction false} NoDigitsMore(t: Tables, text: string, a: nat, b: nat, c: nat)
    requires a <= b <= c && Separated(t, text, b, c) && t.Valid()
    ensures DigitsIn(t, text, a, c) == DigitsIn(t, text, a, b)
    decreases c
  {
    if b < c {
      NoDigitsMore(t, text, a, b, c - 1);
      assert t.IsSeparator(text[c - 1]);
    }
  }

  // ---- the scanner ----

  method HasPrecedingDigit(t: Tables, text: string, start: nat) returns (r: bool)
    requires t.Valid() && start <= |text|
    ensures r <==> Preceded(t, text, start)
  {
    var cursor: int := start - 1;
    while cursor >= 0 && t.IsSeparator(text[cursor])
      invariant -1 <= cursor < start && Separated(t, text, cursor + 1, start)
    {
      cursor := cursor - 1;
    }
    r := cursor >= 0 && t.IsDigit(text[cursor]);
  }

  method HasFollowingDigit(t: Tables, text: string, end: nat) returns (r: bool)
    requires t.Valid() && end <= |text|
    ensures r <==> Followed(t, text, end)
  {
    var cursor := end;
    while cursor < |text| && t.IsSeparator(text[cursor])
      invariant end <= cursor <= |text| && Separated(t, text, end, cursor)
    {
      cursor := cursor + 1;
    }
    r := cursor < |text| && t.IsDigit(text[cursor]);
  }

  /** What the scan from one digit has come to: `end` is behind the last digit it took. */
  ghost predicate Scanned(t: Tables, text: string, start: nat, end: nat, cursor: nat, digits: string) {
    && start < end <= cursor <= |text| && t.IsDigit(text[start]) && t.IsDigit(text[end - 1])
    && Linked(t, text, start, cursor) && Separated(t, text, end, cursor)
    && digits == DigitsIn(t, text, start, end)
  }

  /** The scan stopped because it has enough digits, or because nothing more is linked. */
  predicate Stopped(t: Tables, text: string, cursor: nat, enough: bool) {
    enough || cursor >= |text| || !(t.IsDigit(text[cursor]) || t.IsSeparator(text[cursor]))
  }

  /** Takes digits from `start` on, up to `length` of them. */
  method ScanFrom(t: Tables, text: string, start: nat, length: int)
    returns (end: nat, ghost cursor: nat, digits: string)
    requires t.Valid() && start < |text| && t.IsDigit(text[start])
    ensures Scanned(t, text, start, end, cursor, digits)
    ensures |digits| <= length || |digits| == 1
    ensures Stopped(t, text, cursor, |digits| >= length)
  {
    digits := [t.asciiDigit(text[start]).value];
    var at := start + 1;
    end := at;
    assert DigitsIn(t, text, start, start) == "";
    while at < |text| && |digits| < length
      invariant Scanned(t, text, start, end, at, digits)
      invariant |digits| <= length || |digits| == 1
    {
      if t.IsDigit(text[at]) {
        NoDigitsMore(t, text, start, end, at);
        digits := digits + [t.asciiDigit(text[at]).value];
        at := at + 1;
        end := at;
        continue;
      }
      if t.IsSeparator(text[at]) {
        at := at + 1;
        continue;
      }
      break;
    }
    cursor := at;
  }

  /** A group that starts here, with the requested number of digits, is what the scan took. */
  lemma ScanFindsGroup(t: Tables, text: string, start: nat, end: nat, cursor: nat, digits: string, length: int, e: nat)
    requires t.Valid() && Scanned(t, text, start, end, cursor, digits)
    requires |digits| <= length || |digits| == 1
    requires Stopped(t, text, cursor, |digits| >= length)
    requires IsGroup(t, text, start, e) && |DigitsIn(t, text, start, e)| == length
    ensures e == end && |digits| == length
  {
    assert DigitsIn(t, text, start, start) == "";
    DigitsGrow(t, text, start, start + 1, e);
    assert t.IsDigit(text[e - 1]) && (cursor < e ==> t.IsDigit(text[cursor]) || t.IsSeparator(text[cursor]));
    if e < end {
      DigitsGrow(t, text, start, e, end);
    } else if end < e {
      DigitsGrow(t, text, start, end, e);
    }
  }

  /** Exactly the groups with `length` digits that start before `n`, in order. */
  ghost predicate Yielded(t: Tables, text: string, length: int, n: nat, out: seq<Candidate>) {
    && (forall i, j :: 0 <= i < j < |out| ==> out[i].start < out[j].start)
    && (forall c :: c in out <==>
          && c.start < n && IsGroup(t, text, c.start, c.end)
          && c.digits == DigitsIn(t, text, c.start, c.end) && |c.digits| == length)
  }

  method IterDigitCandidates(t: Tables, text: string, length: int) returns (out: seq<Candidate>)
    requires t.Valid()
    ensures Yielded(t, text, length, |text|, out)
  {
    hide IsGroup, DigitsIn, Followed, Preceded, Scanned, Stopped, Yielded;
    out := [];
    NoneYielded(t, text, length);
    var start := 0;
    while start < |text|
      invariant start <= |text| && Yielded(t, text, length, start, out)
    {
      var preceded := true;
      if t.IsDigit(text[start]) {
        preceded := HasPrecedingDigit(t, text, start);
      }
      if preceded {
        YieldNothing(t, text, length, start, out);
      } else {
        var end, digits;
        ghost var cursor;
        end, cursor, digits := ScanFrom(t, text, start, length);
        ScanEnds(t, text, start, end, cursor, digits);
        var followed := true;
        if |digits| == length {
          followed := HasFollowingDigit(t, text, end);
        }
        YieldNext(t, text, length, start, end, cursor, digits, out);
        if !followed {
          out := out + [Candidate(start, end, digits)];
        }
      }
      start := start + 1;
    }
  }

  lemma ScanEnds(t: Tables, text: string, start: nat, end: nat, cursor: nat, digits: string)
    requires Scanned(t, text, start, end, cursor, digits)
    ensures end <= |text|
  {
  }

  lemma NoneYielded(t: Tables, text: string, length: int)
    ensures Yielded(t, text, length, 0, [])
  {
  }

  lemma YieldNothing(t: Tables, text: string, length: int, start: nat, out: seq<Candidate>)
    requires Yielded(t, text, length, start, out)
    requires start < |text| && (t.IsDigit(text[start]) ==> Preceded(t, text, start))
    ensures Yielded(t, text, length, start + 1, out)
  {
    hide DigitsIn, Preceded, Followed;
  }

  lemma YieldNext(t: Tables, text: string, length: int, start: nat, end: nat, cursor: nat, digits: string,
                  out: seq<Candidate>)
    requires t.Valid() && Yielded(t, text, length, start, out)
    requires start < |text| && !Preceded(t, text, start)
    requires Scanned(t, text, start, end, cursor, digits)
    requires |digits| <= length || |digits| == 1
    requires Stopped(t, text, cursor, |digits| >= length)
    ensures Yielded(t, text, length, start + 1,
                    if |digits| == length && !Followed(t, text, end) then out + [Candidate(start, end, digits)]
                    else out)
  {
    hide DigitsIn, Preceded, Followed, Stopped;
    var c := Candidate(start, end, digits);
    assert IsGroup(t, text, start, end) <==> !Followed(t, text, end);
    forall d: Candidate | d.start == start && IsGroup(t, text, d.start, d.end) &&
      |DigitsIn(t, text, d.start, d.end)| == length
      ensures d.end == end && |digits| == length
    {
      ScanFindsGroup(t, text, start, end, cursor, digits, length, d.end);
    }
    forall i | 0 <= i < |out|
      ensures out[i].start < start
    {
      assert out[i] in out;
    }
  }

  /** Scans for two lengths yield candidates that are the same or have nothing in common. */
  lemma CandidatesDisjoint(t: Tables, text: string, m: int, n: int, a: seq<Candidate>, b: seq<Candidate>,
                           c: Candidate, d: Candidate)
    requires t.Valid() && Yielded(t, text, m, |text|, a) && Yielded(t, text, n, |text|, b)
    requires c in a && d in b
    ensures c == d || c.end <= d.start || d.end <= c.start
    ensures c == d ==> m == n
  {
    hide DigitsIn, IsGroup;
    GroupsDisjoint(t, text, c.start, c.end, d.start, d.end);
  }

  /** Every digit of a text is in a candidate of exactly one length. */
  lemma DigitsCovered(t: Tables, text: string, i: nat) returns (c: Candidate)
    requires t.Valid() && i < |text| && t.IsDigit(text[i])
    ensures c.start <= i < c.end && IsGroup(t, text, c.start, c.end)
    ensures c.digits == DigitsIn(t, text, c.start, c.end)
    ensures forall length: int, out: seq<Candidate> :: Yielded(t, text, length, |text|, out) ==>
              ((exists d: Candidate :: d in out && d.start <= i < d.end) <==> length == |c.digits|)
  {
    hide DigitsIn;
    var start, end := GroupOf(t, text, i);
    c := Candidate(start, end, DigitsIn(t, text, start, end));
    forall length: int, out: seq<Candidate> | Yielded(t, text, length, |text|, out)
      ensures (exists d: Candidate :: d in out && d.start <= i < d.end) <==> length == |c.digits|
    {
      if length == |c.digits| {
        assert c in out;
      }
      forall d | d in out && d.start <= i < d.end
        ensures length == |c.digits|
      {
        GroupsDisjoint(t, text, start, end, d.start, d.end);
      }
    }
  }
}
