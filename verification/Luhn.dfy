/** The payment-card check: digits doubled by their place from the left sum up as the Luhn formula has it. */
module Luhn {
  import opened Decimal
  import opened Wrappers

  function Value(c: char): int {
    c as int - 48
  }

  /** Blanks and dashes dropped, other decimal digits as ASCII ones; nothing if any other character is there. */
  function CompactCard(asciiDigit: char -> Option<char>, value: string): Option<string> {
    if value == "" then Some("")
    else if value[0] in " -" then CompactCard(asciiDigit, value[1..])
    else
      var d, rest := asciiDigit(value[0]), CompactCard(asciiDigit, value[1..]);
      if d.None? || rest.None? then None else Some([d.value] + rest.value)
  }

  /** What the table gives for a decimal digit is an ASCII digit. */
  ghost predicate IsTable(asciiDigit: char -> Option<char>) {
    forall c :: asciiDigit(c).Some? ==> '0' <= asciiDigit(c).value <= '9'
  }

  lemma {:induction false} CompactDigits(asciiDigit: char -> Option<char>, value: string)
    requires IsTable(asciiDigit)
    ensures var c := CompactCard(asciiDigit, value); c.Some? ==> AllDigits(c.value)
  {
    if value != "" {
      CompactDigits(asciiDigit, value[1..]);
    }
  }

  /** Each character is dropped, replaced by its digit, or none of the whole. */
  lemma {:induction false} CompactParts(asciiDigit: char -> Option<char>, a: string, b: string)
    ensures var x, y := CompactCard(asciiDigit, a), CompactCard(asciiDigit, b);
            CompactCard(asciiDigit, a + b) == if x.None? || y.None? then None else Some(x.value + y.value)
  {
    if a == "" {
      var y := CompactCard(asciiDigit, b);
      assert a + b == b && (y.Some? ==> "" + y.value == y.value);
    } else {
      assert (a + b)[1..] == a[1..] + b && (a + b)[0] == a[0];
      CompactParts(asciiDigit, a[1..], b);
      var d, x, y := asciiDigit(a[0]), CompactCard(asciiDigit, a[1..]), CompactCard(asciiDigit, b);
      if d.Some? && x.Some? && y.Some? {
        assert [d.value] + (x.value + y.value) == [d.value] + x.value + y.value;
      }
    }
  }

  lemma CompactOne(asciiDigit: char -> Option<char>, c: char)
    ensures CompactCard(asciiDigit, [c]) ==
            if c == ' ' || c == '-' then Some("")
            else if asciiDigit(c).None? then None else Some([asciiDigit(c).value])
  {
    assert [c][0] == c && [c][1..] == "" && CompactCard(asciiDigit, "") == Some("");
    assert asciiDigit(c).Some? ==> [asciiDigit(c).value] + "" == [asciiDigit(c).value];
  }

  function Doubled(d: int): int {
    if 2 * d > 9 then 2 * d - 9 else 2 * d
  }

  /** From the last digit to the left every second one counts doubled; `doubled` says whether the last does. */
  function Sum(s: string, doubled: bool): int {
    if s == "" then 0
    else
      var d := Value(s[|s| - 1]);
      Sum(s[..|s| - 1], !doubled) + if doubled then Doubled(d) else d
  }

  predicate Checks(s: string) {
    Sum(s, false) % 10 == 0
  }

  method ValidateCreditCard(asciiDigit: char -> Option<char>, value: string) returns (r: bool)
    requires IsTable(asciiDigit)
    ensures var c := CompactCard(asciiDigit, value);
            r <==> c.Some? && 13 <= |c.value| <= 19 && Sum(c.value, false) % 10 == 0
  {
    hide Sum, CompactCard;
    var found := CompactCard(asciiDigit, value);
    if found.None? || !(13 <= |found.value| <= 19) {
      return false;
    }
    var compact := found.value;
    SumNone(|compact| % 2 == 1);
    var total, parity, i := 0, |compact| % 2, 0;
    while i < |compact|
      invariant i <= |compact|
      invariant total == Sum(compact[..i], (|compact| - i) % 2 == 1)
    {
      var digit := Value(compact[i]);
      if i % 2 == parity {
        digit := digit * 2;
        if digit > 9 {
          digit := digit - 9;
        }
      }
      SumNext(compact, i, i % 2 == parity);
      total := total + digit;
      i := i + 1;
    }
    assert compact[..i] == compact;
    r := total % 10 == 0;
  }

  /** The last digit counts as it is, the one before it doubled, and of two digits that gives the sum. */
  lemma LastTwo(s: string, x: char, y: char)
    requires '0' <= x <= '9' && '0' <= y <= '9'
    ensures var twice := 2 * (x as int - 48);
            Sum(s + [x, y], false) == Sum(s, false) + (twice / 10 + twice % 10) + (y as int - 48)
    ensures Sum("", false) == 0
  {
    hide Sum;
    SumAppend(s, [x, y], false);
    assert [x, y][..0] == "" && [x, y][..1] == [x] && [x, y][..2] == [x, y];
    SumNone(false);
    SumNext([x, y], 0, true);
    SumNext([x, y], 1, false);
  }

  lemma SumNone(doubled: bool)
    ensures Sum("", doubled) == 0
  {
  }

  lemma SumNext(s: string, i: nat, doubled: bool)
    requires i < |s|
    ensures Sum(s[..i + 1], doubled) == Sum(s[..i], !doubled) + Weight(Value(s[i]), doubled)
  {
    assert s[..i + 1][..i] == s[..i];
  }

  lemma {:induction false} SumAppend(a: string, b: string, doubled: bool)
    ensures Sum(a + b, doubled) == Sum(a, if |b| % 2 == 0 then doubled else !doubled) + Sum(b, doubled)
    decreases |b|
  {
    if b == "" {
      assert a + b == a;
    } else {
      var s, c := a + b, b[..|b| - 1];
      assert s[..|s| - 1] == a + c && s[|s| - 1] == b[|b| - 1];
      SumAppend(a, c, !doubled);
    }
  }

  /** Whether a stretch in the middle counts from a doubled place. */
  function Turned(b: string): bool {
    |b| % 2 == 1
  }

  lemma SumMiddle(a: string, m: string, b: string)
    ensures Sum(a + m + b, false) ==
            Sum(a, if |m| % 2 == 0 then Turned(b) else !Turned(b)) + Sum(m, Turned(b)) + Sum(b, false)
  {
    hide Sum;
    SumAppend(a + m, b, false);
    SumAppend(a, m, Turned(b));
  }

  /** Changing one digit of a checking number always breaks the check. */
  lemma DigitNoticed(s: string, i: nat, x: char)
    requires AllDigits(s) && i < |s| && '0' <= x <= '9' && x != s[i]
    requires Checks(s)
    ensures !Checks(s[i := x])
  {
    hide Sum, Weight, Doubled;
    var a, b := s[..i], s[i + 1..];
    assert s == a + [s[i]] + b && s[i := x] == a + [x] + b;
    SumMiddle(a, [s[i]], b);
    SumMiddle(a, [x], b);
    SumOne(s[i], Turned(b));
    SumOne(x, Turned(b));
    OneDigit(Value(s[i]), Value(x), Turned(b), Sum(a, !Turned(b)) + Sum(b, false));
  }

  lemma SumOne(c: char, doubled: bool)
    ensures Sum([c], doubled) == Weight(Value(c), doubled)
  {
    assert [c][..0] == "";
  }

  function Weight(d: int, doubled: bool): int {
    if doubled then Doubled(d) else d
  }

  lemma OneDigit(d: int, e: int, doubled: bool, rest: int)
    requires 0 <= d < 10 && 0 <= e < 10 && d != e
    ensures (rest + Weight(d, doubled)) % 10 != (rest + Weight(e, doubled)) % 10
  {
    assert 0 <= Weight(d, doubled) < 10 && 0 <= Weight(e, doubled) < 10 && Weight(d, doubled) != Weight(e, doubled);
  }

  lemma SumTwo(x: char, y: char, doubled: bool)
    ensures Sum([x, y], doubled) == Weight(Value(x), !doubled) + Weight(Value(y), doubled)
  {
    assert [x, y][..1] == [x];
    SumOne(x, !doubled);
  }

  /** Swapping two neighbours leaves the check as it is just when they are equal, or 0 and 9. */
  lemma SwapNoticed(s: string, i: nat)
    requires AllDigits(s) && i + 1 < |s| && Checks(s)
    ensures Checks(s[i := s[i + 1]][i + 1 := s[i]]) <==>
            s[i] == s[i + 1] || (s[i] in "09" && s[i + 1] in "09")
  {
    hide Sum, Weight, Doubled;
    var a, b, x, y := s[..i], s[i + 2..], s[i], s[i + 1];
    assert s == a + [x, y] + b && s[i := y][i + 1 := x] == a + [y, x] + b;
    SumMiddle(a, [x, y], b);
    SumMiddle(a, [y, x], b);
    SumTwo(x, y, Turned(b));
    SumTwo(y, x, Turned(b));
    TwoDigits(Value(x), Value(y), Turned(b), Sum(a, Turned(b)) + Sum(b, false));
  }

  lemma TwoDigits(x: int, y: int, doubled: bool, rest: int)
    requires 0 <= x < 10 && 0 <= y < 10
    ensures (rest + Weight(x, !doubled) + Weight(y, doubled)) % 10 ==
            (rest + Weight(y, !doubled) + Weight(x, doubled)) % 10 <==>
            x == y || ((x == 0 || x == 9) && (y == 0 || y == 9))
  {
    var p, q := Doubled(x) - x, Doubled(y) - y;
    assert -4 <= p <= 4 && -4 <= q <= 4;
  }

  /** Whatever stands before it, exactly one check digit fits. */
  lemma OneCheckDigit(s: string) returns (d: char)
    requires AllDigits(s)
    ensures '0' <= d <= '9' && forall x :: '0' <= x <= '9' ==> (Checks(s + [x]) <==> x == d)
  {
    hide Sum, Doubled;
    var k := Sum(s, true);
    d := (48 + (10 - k % 10) % 10) as char;
    forall x | '0' <= x <= '9'
      ensures Checks(s + [x]) <==> x == d
    {
      LastDigit(s, x);
      Completes(k, x as int - 48);
    }
  }

  lemma LastDigit(s: string, x: char)
    ensures Sum(s + [x], false) == Sum(s, true) + Value(x)
  {
    assert (s + [x])[..|s|] == s;
  }

  lemma Completes(k: int, d: int)
    requires 0 <= d < 10
    ensures (k + d) % 10 == 0 <==> d == (10 - k % 10) % 10
  {
  }
}
