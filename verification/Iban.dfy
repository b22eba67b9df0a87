/**
 The IBAN validator: the remainder is taken digit by digit, and what it comes to is the whole expanded
 number modulo 97 - so single substitutions and swaps of neighbours are noticed.
 */
module Iban {
  import opened Placeholder
  import opened Decimal

  const MODULUS: nat := 97

  predicate IsAlpha(c: char) { 'A' <= c <= 'Z' || 'a' <= c <= 'z' }

  predicate IsAlnum(c: char) { IsDigit(c) || IsAlpha(c) }

  /** A letter stands for two digits, 10 to 35 in upper case and 42 to 67 in lower case. */
  function Expand(c: char): string
    requires IsAlnum(c)
  {
    if IsDigit(c) then [c] else [Digit((c as int - 55) / 10), Digit((c as int - 55) % 10)]
  }

  predicate AllAlnum(s: string) {
    forall i :: 0 <= i < |s| ==> IsAlnum(s[i])
  }

  function Expanded(s: string): (e: string)
    requires AllAlnum(s)
    ensures AllDigits(e)
  {
    if s == "" then "" else Expanded(s[..|s| - 1]) + Expand(s[|s| - 1])
  }

  function Pow10(n: nat): (p: nat)
    ensures p > 0
  {
    if n == 0 then 1 else 10 * Pow10(n - 1)
  }

  function Compact(value: string): string {
    if value == "" then ""
    else (if value[0] in " -" then "" else [value[0]]) + Compact(value[1..])
  }

  /** Blanks and dashes are dropped and everything else stays in place. */
  lemma {:induction false} CompactParts(a: string, b: string)
    ensures Compact(a + b) == Compact(a) + Compact(b)
  {
    if a == "" {
      assert a + b == b;
    } else {
      assert (a + b)[1..] == a[1..] + b;
      CompactParts(a[1..], b);
    }
  }

  lemma CompactOne(c: char)
    ensures Compact([c]) == if c == ' ' || c == '-' then "" else [c]
  {
    assert [c][1..] == "";
  }

  /** Country, two check digits, and a BBAN; a Turkish one is 26 long and all digits. */
  predicate Formed(c: string) {
    && 15 <= |c| <= 34 && AllAlnum(c)
    && IsUpper(c[0]) && IsUpper(c[1]) && IsDigit(c[2]) && IsDigit(c[3])
    && ("TR" <= c ==> |c| == 26 && AllDigits(c[4..]))
  }

  function Rearranged(c: string): string
    requires |c| >= 4
  {
    c[4..] + c[..4]
  }

  lemma RearrangedAlnum(c: string)
    requires |c| >= 4 && AllAlnum(c)
    ensures AllAlnum(Rearranged(c))
  {
  }

  predicate Valid(c: string) {
    Formed(c) && (RearrangedAlnum(c); Value(Expanded(Rearranged(c))) % MODULUS == 1)
  }

  method ValidateIban(value: string) returns (r: bool)
    ensures r == Valid(Compact(value))
    ensures r <==>
            var c := Compact(value);
            && 15 <= |c| <= 34 && AllAlnum(c) && AllAlnum(c[4..] + c[..4])
            && 'A' <= c[0] <= 'Z' && 'A' <= c[1] <= 'Z' && IsDigit(c[2]) && IsDigit(c[3])
            && (c[0] == 'T' && c[1] == 'R' ==> |c| == 26 && AllDigits(c[4..]))
            && Value(Expanded(c[4..] + c[..4])) % 97 == 1
  {
    hide Value, Expanded;
    var compact := Compact(value);
    if !(15 <= |compact| <= 34) || !AllAlnum(compact) {
      return false;
    }
    if !IsUpper(compact[0]) || !IsUpper(compact[1]) || !IsDigit(compact[2]) || !IsDigit(compact[3]) {
      return false;
    }
    if "TR" <= compact && (|compact| != 26 || !AllDigits(compact[4..])) {
      return false;
    }
    var rearranged := compact[4..] + compact[..4];
    RearrangedAlnum(compact);
    var remainder, i := 0, 0;
    ValueNone();
    while i < |rearranged|
      invariant i <= |rearranged|
      invariant remainder == Value(Expanded(rearranged[..i])) % MODULUS
    {
      var encoded, j := Expand(rearranged[i]), 0;
      ghost var before := Expanded(rearranged[..i]);
      assert rearranged[..i + 1][..i] == rearranged[..i];
      ExpandedNext(rearranged[..i + 1]);
      assert before + encoded[..0] == before;
      while j < |encoded|
        invariant j <= |encoded|
        invariant AllDigits(before + encoded[..j])
        invariant remainder == Value(before + encoded[..j]) % MODULUS
      {
        ValueNext(before + encoded[..j], encoded[j]);
        assert before + encoded[..j] + [encoded[j]] == before + encoded[..j + 1];
        RemainderNext(remainder, Value(before + encoded[..j]), encoded[j] as int - 48);
        remainder := (remainder * 10 + (encoded[j] as int - 48)) % MODULUS;
        j := j + 1;
      }
      assert encoded[..j] == encoded;
      i := i + 1;
    }
    assert rearranged[..i] == rearranged;
    r := remainder == 1;
  }

  lemma ValueNone()
    ensures Value(Expanded("")) == 0
  {
  }

  lemma ExpandedNext(s: string)
    requires s != "" && AllAlnum(s)
    ensures Expanded(s) == Expanded(s[..|s| - 1]) + Expand(s[|s| - 1])
  {
  }

  lemma ValueNext(s: string, c: char)
    requires AllDigits(s) && IsDigit(c)
    ensures AllDigits(s + [c]) && Value(s + [c]) == 10 * Value(s) + (c as int - 48)
  {
    assert (s + [c])[..|s|] == s;
  }

  lemma RemainderNext(r: int, n: int, d: int)
    requires r == n % MODULUS
    ensures (r * 10 + d) % MODULUS == (10 * n + d) % MODULUS
  {
    var q := n / MODULUS;
    assert n == MODULUS * q + r;
    assert 10 * n + d == MODULUS * (10 * q) + (r * 10 + d);
    SameRemainder(r * 10 + d, 10 * q);
  }

  lemma SameRemainder(x: int, k: int)
    ensures (MODULUS * k + x) % MODULUS == x % MODULUS
  {
    var m := MODULUS * k + x;
    var q, r := x / MODULUS, x % MODULUS;
    assert m == MODULUS * (k + q) + r && 0 <= r < MODULUS;
    assert m / MODULUS == k + q;
  }

  // ---- one stretch of the number decides ----

  lemma {:induction false} ValueAppend(a: string, b: string)
    requires AllDigits(a) && AllDigits(b)
    ensures AllDigits(a + b) && Value(a + b) == Value(a) * Pow10(|b|) + Value(b)
    decreases |b|
  {
    if b == "" {
      assert a + b == a;
    } else {
      hide Value, Pow10;
      var c, d := b[..|b| - 1], b[|b| - 1];
      ValueAppend(a, c);
      assert a + b == a + c + [d] && b == c + [d];
      ValueNext(a + c, d);
      ValueNext(c, d);
      PowerNext(|c|);
      Distribute(Value(a), Pow10(|c|), Value(c));
    }
  }

  lemma PowerNext(n: nat)
    ensures Pow10(n + 1) == 10 * Pow10(n)
  {
  }

  lemma Distribute(n: int, p: int, k: int)
    ensures 10 * (n * p + k) == n * (10 * p) + 10 * k
  {
  }

  /** 10 is invertible modulo 97: `68 * 10 == 7 * 97 + 1`. */
  lemma {:induction false} PowerKeeps(d: int, k: nat)
    ensures (d * Pow10(k)) % MODULUS == 0 <==> d % MODULUS == 0
  {
    if k == 0 {
      assert d * Pow10(0) == d;
    } else {
      var m := d * Pow10(k - 1);
      assert d * Pow10(k) == 10 * m by {
        assert Pow10(k) == 10 * Pow10(k - 1);
        assert d * (10 * Pow10(k - 1)) == 10 * (d * Pow10(k - 1));
      }
      PowerKeeps(d, k - 1);
      TenKeeps(m);
    }
  }

  lemma TenKeeps(m: int)
    ensures (10 * m) % MODULUS == 0 <==> m % MODULUS == 0
  {
    UnitKeeps(10, 68, 7, m);
  }

  /** A factor with an inverse modulo 97 neither makes nor unmakes a multiple of 97. */
  lemma UnitKeeps(k: int, inverse: int, t: int, m: int)
    requires k * inverse == MODULUS * t + 1
    ensures (k * m) % MODULUS == 0 <==> m % MODULUS == 0
  {
    if (k * m) % MODULUS == 0 {
      var j := (k * m) / MODULUS;
      assert k * m == MODULUS * j;
      assert inverse * (k * m) == (MODULUS * t + 1) * m by {
        assert inverse * (k * m) == (k * inverse) * m;
      }
      assert m == MODULUS * (inverse * j - t * m) + 0 by {
        assert inverse * (MODULUS * j) == MODULUS * (inverse * j);
        assert (MODULUS * t + 1) * m == MODULUS * (t * m) + m;
      }
      SameRemainder(0, inverse * j - t * m);
    } else if m % MODULUS == 0 {
      var j := m / MODULUS;
      assert k * m == MODULUS * (k * j) + 0 by {
        assert k * (MODULUS * j) == MODULUS * (k * j);
      }
      SameRemainder(0, k * j);
    }
  }

  lemma Congruent(a: int, b: int)
    ensures a % MODULUS == b % MODULUS <==> (a - b) % MODULUS == 0
  {
    var p, q, r, s := a / MODULUS, b / MODULUS, a % MODULUS, b % MODULUS;
    assert a - b == MODULUS * (p - q) + (r - s);
    SameRemainder(r - s, p - q);
  }

  /** Numbers that differ in one stretch of digits have the same remainder just when the stretches do. */
  lemma MiddleDecides(a: string, m: string, n: string, b: string)
    requires AllDigits(a) && AllDigits(m) && AllDigits(n) && AllDigits(b) && |m| == |n|
    ensures AllDigits(a + m + b) && AllDigits(a + n + b)
    ensures Value(a + m + b) % MODULUS == Value(a + n + b) % MODULUS <==>
            Value(m) % MODULUS == Value(n) % MODULUS
  {
    hide Value, Pow10;
    ValueAppend(a, m);
    ValueAppend(a, n);
    ValueAppend(a + m, b);
    ValueAppend(a + n, b);
    var x: int, y: int, p := Value(a + m), Value(a + n), Pow10(|b|);
    Difference(x, y, p, Value(b));
    assert Value(a + m + b) - Value(a + n + b) == (x - y) * p;
    Congruent(Value(a + m + b), Value(a + n + b));
    PowerKeeps(x - y, |b|);
    var q: int, r: int := Value(m), Value(n);
    assert x - y == q - r;
    Congruent(q, r);
  }

  lemma Difference(x: int, y: int, p: int, k: int)
    ensures (x * p + k) - (y * p + k) == (x - y) * p
  {
  }

  lemma {:induction false} ExpandedAppend(a: string, b: string)
    requires AllAlnum(a) && AllAlnum(b)
    ensures Expanded(a + b) == Expanded(a) + Expanded(b)
    decreases |b|
  {
    if b == "" {
      assert a + b == a;
    } else {
      hide Expanded, Expand;
      var s, c := a + b, b[..|b| - 1];
      assert s[..|s| - 1] == a + c && s[|s| - 1] == b[|b| - 1];
      ExpandedNext(s);
      ExpandedNext(b);
      ExpandedAppend(a, c);
      Associate(Expanded(a), Expanded(c), Expand(b[|b| - 1]));
    }
  }

  lemma Associate(a: string, b: string, c: string)
    ensures a + b + c == a + (b + c)
  {
  }

  lemma StretchDecides(a: string, m: string, n: string, b: string)
    requires AllAlnum(a) && AllAlnum(m) && AllAlnum(n) && AllAlnum(b) && |Expanded(m)| == |Expanded(n)|
    ensures AllAlnum(a + m + b) && AllAlnum(a + n + b)
    ensures Value(Expanded(a + m + b)) % MODULUS == Value(Expanded(a + n + b)) % MODULUS <==>
            Value(Expanded(m)) % MODULUS == Value(Expanded(n)) % MODULUS
  {
    hide Expanded, Value;
    ExpandedAppend(a, m);
    ExpandedAppend(a, n);
    ExpandedAppend(a + m, b);
    ExpandedAppend(a + n, b);
    MiddleDecides(Expanded(a), Expanded(m), Expanded(n), Expanded(b));
  }

  // ---- errors ----

  /** `c` with the characters from `i` on replaced, the replacement not running from check digits into BBAN. */
  function Put(c: string, i: nat, s: string): string
    requires i + |s| <= |c|
  {
    c[..i] + s + c[i + |s|..]
  }

  predicate InOnePart(c: string, i: nat, n: nat) {
    4 <= i <= i + n <= |c| || 2 <= i <= i + n <= 4 <= |c|
  }

  /** Where a stretch stands once the first four characters have moved behind the BBAN. */
  lemma PutRearranged(c: string, i: nat, s: string) returns (a: string, b: string)
    requires InOnePart(c, i, |s|)
    ensures Rearranged(c) == a + c[i..i + |s|] + b
    ensures Rearranged(Put(c, i, s)) == a + s + b
  {
    var d, n := Put(c, i, s), |s|;
    if i >= 4 {
      a, b := c[4..i], c[i + n..] + c[..4];
      assert d[4..] == a + s + c[i + n..] && d[..4] == c[..4];
    } else {
      a, b := c[4..] + c[..i], c[i + n..4];
      assert d[4..] == c[4..] && d[..4] == c[..i] + s + b;
    }
  }

  /** A valid IBAN with a stretch replaced by one that keeps its form is valid just when the stretches agree. */
  lemma ReplacedStays(c: string, i: nat, s: string)
    requires Valid(c) && InOnePart(c, i, |s|) && AllAlnum(s) && Formed(Put(c, i, s))
    requires AllAlnum(c[i..i + |s|]) && |Expanded(s)| == |Expanded(c[i..i + |s|])|
    ensures Valid(Put(c, i, s)) <==>
            Value(Expanded(s)) % MODULUS == Value(Expanded(c[i..i + |s|])) % MODULUS
  {
    hide Expanded, Value, Rearranged, Put;
    var d := Put(c, i, s);
    RearrangedAlnum(c);
    RearrangedAlnum(d);
    var a, b := PutRearranged(c, i, s);
    AlnumParts(a, s, b);
    StretchDecides(a, c[i..i + |s|], s, b);
  }

  lemma AlnumParts(a: string, m: string, b: string)
    requires AllAlnum(a + m + b)
    ensures AllAlnum(a) && AllAlnum(b)
  {
    var s := a + m + b;
    assert forall i :: 0 <= i < |a| ==> a[i] == s[i];
    assert forall i :: 0 <= i < |b| ==> b[i] == s[|a| + |m| + i];
  }

  function Code(c: char): (k: int)
    requires IsAlnum(c)
    ensures 0 <= k < 68 && (IsDigit(c) <==> k < 10)
  {
    if IsDigit(c) then c as int - 48 else c as int - 55
  }

  /** Letters count from 10, as their codes have it. */
  lemma LetterValues()
    ensures Value(Expand('A')) == 10 && Value(Expand('Z')) == 35 && Value(Expand('a')) == 42 && Value(Expand('0')) == 0
  {
    ExpandedOne('A');
    ExpandedOne('Z');
    ExpandedOne('a');
    ExpandedOne('0');
  }

  lemma ExpandedOne(c: char)
    requires IsAlnum(c)
    ensures Expanded([c]) == Expand(c) && Value(Expand(c)) == Code(c)
  {
    assert [c][..0] == "";
    ExpandedNext([c]);
    hide Expanded, Value;
    assert Expanded("") + Expand(c) == Expand(c) by { ExpandedEmpty(); }
    assert Value("") == 0 by { ExpandedEmpty(); }
    if IsDigit(c) {
      ValueNext("", c);
      assert "" + [c] == [c];
    } else {
      var x, y := Expand(c)[0], Expand(c)[1];
      ValueNext("", x);
      ValueNext([x], y);
      assert "" + [x] == [x] && [x] + [y] == [x, y];
    }
  }

  lemma ExpandedEmpty()
    ensures Expanded("") == "" && Value("") == 0
  {
  }

  lemma PutOne(c: string, i: nat, x: char)
    requires 2 <= i < |c| && |c| >= 4
    ensures c[i := x] == Put(c, i, [x]) && c[i..i + 1] == [c[i]] && InOnePart(c, i, 1)
  {
  }

  /** Another digit for a digit, or another letter for a letter of the BBAN, is always noticed. */
  lemma SubstitutionNoticed(c: string, i: nat, x: char)
    requires Valid(c) && 2 <= i < |c| && x != c[i]
    requires if IsDigit(c[i]) then IsDigit(x) else IsAlpha(x)
    ensures !Valid(c[i := x])
  {
    hide Expanded, Value, Put, Expand;
    var d := c[i := x];
    PutOne(c, i, x);
    if Formed(d) {
      ExpandedOne(x);
      ExpandedOne(c[i]);
      WidthOf(x);
      WidthOf(c[i]);
      ReplacedStays(c, i, [x]);
      assert Code(x) != Code(c[i]);
    }
  }

  lemma WidthOf(c: char)
    requires IsAlnum(c)
    ensures |Expand(c)| == if IsDigit(c) then 1 else 2
  {
  }

  lemma ExpandedTwo(x: char, y: char)
    requires IsAlnum(x) && IsAlnum(y)
    ensures Expanded([x, y]) == Expand(x) + Expand(y)
    ensures Value(Expanded([x, y])) == Code(x) * (if IsDigit(y) then 10 else 100) + Code(y)
  {
    hide Value, Expand;
    assert [x, y] == [x] + [y];
    ExpandedAppend([x], [y]);
    ExpandedOne(x);
    ExpandedOne(y);
    WidthOf(y);
    ValueAppend(Expand(x), Expand(y));
    assert Pow10(1) == 10 * Pow10(0) && Pow10(2) == 10 * Pow10(1);
  }

  lemma PutTwo(c: string, i: nat)
    requires |c| >= 4 && (i == 2 || 4 <= i) && i + 1 < |c|
    ensures c[i := c[i + 1]][i + 1 := c[i]] == Put(c, i, [c[i + 1], c[i]])
    ensures c[i..i + 2] == [c[i], c[i + 1]] && InOnePart(c, i, 2)
  {
  }

  lemma SwapFormed(c: string, i: nat)
    requires Formed(c) && (i == 2 || 4 <= i) && i + 1 < |c|
    ensures Formed(c[i := c[i + 1]][i + 1 := c[i]])
  {
    var d := c[i := c[i + 1]][i + 1 := c[i]];
    assert forall j :: 0 <= j < |c| ==> d[j] == c[j] || d[j] == c[i] || d[j] == c[i + 1];
    assert d[0] == c[0] && d[1] == c[1];
    if "TR" <= c {
      assert forall j :: 4 <= j < |c| ==> IsDigit(c[j]) by {
        assert forall j :: 4 <= j < |c| ==> c[j] == c[4..][j - 4];
      }
    }
    assert "TR" <= d ==> c[0] == 'T' && c[1] == 'R';
  }

  lemma SwapArithmetic(p: int, q: int)
    requires 0 <= p < 68 && 0 <= q < 68
    ensures p < 10 && q < 10 ==> ((10 * p + q) % MODULUS == (10 * q + p) % MODULUS <==> p == q)
    ensures p >= 10 && q >= 10 ==> ((100 * p + q) % MODULUS == (100 * q + p) % MODULUS <==> p == q)
    ensures p >= 10 && q < 10 ==> ((10 * p + q) % MODULUS == (100 * q + p) % MODULUS <==> p == 11 * q)
    ensures p < 10 && q >= 10 ==> ((100 * p + q) % MODULUS == (10 * q + p) % MODULUS <==> q == 11 * p)
  {
    SmallMultiple(p - q);
    if p < 10 && q < 10 {
      Congruent(10 * p + q, 10 * q + p);
      UnitKeeps(9, 54, 5, p - q);
    } else if p >= 10 && q >= 10 {
      Congruent(100 * p + q, 100 * q + p);
      UnitKeeps(99, 49, 50, p - q);
    } else if p >= 10 {
      Congruent(10 * p + q, 100 * q + p);
      UnitKeeps(9, 54, 5, p - 11 * q);
      SmallMultiple(p - 11 * q);
    } else {
      Congruent(100 * p + q, 10 * q + p);
      UnitKeeps(9, 54, 5, 11 * p - q);
      SmallMultiple(11 * p - q);
    }
  }

  lemma SmallMultiple(m: int)
    requires -97 < m < 97
    ensures m % MODULUS == 0 <==> m == 0
  {
  }

  /**
   Two neighbours within the check digits or within the BBAN swapped are noticed, except when they spell
   the same number either way: equal characters, or a letter and a digit such as `B1` and `1B`.
   */
  lemma SwapNoticed(c: string, i: nat)
    requires Valid(c) && (i == 2 || 4 <= i) && i + 1 < |c|
    ensures Valid(c[i := c[i + 1]][i + 1 := c[i]]) <==>
            Expand(c[i]) + Expand(c[i + 1]) == Expand(c[i + 1]) + Expand(c[i])
  {
    hide Expanded, Value, Put, Expand;
    var x, y := c[i], c[i + 1];
    PutTwo(c, i);
    SwapFormed(c, i);
    ExpandedTwo(x, y);
    ExpandedTwo(y, x);
    WidthOf(x);
    WidthOf(y);
    ReplacedStays(c, i, [y, x]);
    SwapArithmetic(Code(x), Code(y));
    SwapSpells(x, y);
  }

  lemma SwapSpells(x: char, y: char)
    requires IsAlnum(x) && IsAlnum(y)
    ensures Expand(x) + Expand(y) == Expand(y) + Expand(x) <==>
            x == y || (IsAlpha(x) && IsDigit(y) && Code(x) == 11 * Code(y))
            || (IsDigit(x) && IsAlpha(y) && Code(y) == 11 * Code(x))
  {
    var s, t := Expand(x) + Expand(y), Expand(y) + Expand(x);
    if s == t {
      assert s[0] == t[0] && s[1] == t[1];
      assert |s| > 2 ==> s[2] == t[2];
    }
  }

  /** Of the check digits only the remainder counts: 00, 01 and 99 pass where 97, 98 and 02 do. */
  lemma CheckDigits(c: string, s: string)
    requires Valid(c) && |s| == 2 && AllDigits(s)
    ensures AllDigits(c[2..4])
    ensures Valid(c[..2] + s + c[4..]) <==> Value(s) % MODULUS == Value(c[2..4]) % MODULUS
  {
    hide Expanded, Value, Expand;
    var d := c[..2] + s + c[4..];
    assert d == Put(c, 2, s);
    CheckFormed(c, s);
    DigitsExpand(s);
    DigitsExpand(c[2..4]);
    ReplacedStays(c, 2, s);
  }

  lemma CheckFormed(c: string, s: string)
    requires Formed(c) && |s| == 2 && AllDigits(s)
    ensures Formed(c[..2] + s + c[4..]) && AllDigits(c[2..4])
  {
    var d := c[..2] + s + c[4..];
    assert d[4..] == c[4..];
    assert d[0] == c[0] && d[1] == c[1];
  }

  lemma {:induction false} DigitsExpand(s: string)
    requires AllDigits(s)
    ensures AllAlnum(s) && Expanded(s) == s
  {
    if s != "" {
      DigitsExpand(s[..|s| - 1]);
      assert s == s[..|s| - 1] + [s[|s| - 1]];
    }
  }
}
