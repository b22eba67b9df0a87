/** Decimal numerals, as the counters inside placeholders are written. */
module Decimal {
  import opened Placeholder

  predicate AllDigits(s: string) {
    forall i :: 0 <= i < |s| ==> IsDigit(s[i])
  }

  function Worth(c: char): nat
    requires IsDigit(c)
  {
    (c as int) - ('0' as int)
  }

  function Digit(d: int): (c: char)
    requires 0 <= d < 10
    ensures IsDigit(c) && Worth(c) == d
  {
    (('0' as int) + d) as char
  }

  function Numeral(n: nat): (s: string)
    ensures s != "" && AllDigits(s)
    ensures s[0] == '0' ==> n == 0
  {
    if n < 10 then [Digit(n)] else Numeral(n / 10) + [Digit(n % 10)]
  }

  /** The number a string of digits denotes. */
  function Value(s: string): nat
    requires AllDigits(s)
  {
    if s == "" then 0 else 10 * Value(s[..|s| - 1]) + Worth(s[|s| - 1])
  }

  /** The numeral of `n` reads back as `n`. */
  lemma {:induction false} NumeralValue(n: nat)
    ensures Value(Numeral(n)) == n
  {
    if n < 10 {
      assert Numeral(n)[..0] == "";
    } else {
      NumeralValue(n / 10);
      assert Numeral(n)[..|Numeral(n)| - 1] == Numeral(n / 10);
    }
  }

  lemma NumeralInjective(m: nat, n: nat)
    requires Numeral(m) == Numeral(n)
    ensures m == n
  {
    NumeralValue(m);
    NumeralValue(n);
  }

  /** A numeral fits the index of a placeholder exactly up to 99999. */
  lemma NumeralFits(n: nat)
    ensures IsIndex(Numeral(n)) <==> 1 <= n <= 99_999
  {
    NumeralLength(n);
    if n == 0 {
      assert Numeral(0)[0] == '0';
    }
  }

  lemma NumeralLength(n: nat)
    ensures |Numeral(n)| <= INDEX_MAX <==> n <= 99_999
  {
    var a, b, c, d := n / 10, n / 10 / 10, n / 10 / 10 / 10, n / 10 / 10 / 10 / 10;
    assert n >= 10 ==> |Numeral(n)| == 1 + |Numeral(a)|;
    assert a >= 10 ==> |Numeral(a)| == 1 + |Numeral(b)|;
    assert b >= 10 ==> |Numeral(b)| == 1 + |Numeral(c)|;
    assert c >= 10 ==> |Numeral(c)| == 1 + |Numeral(d)|;
    assert d >= 10 ==> |Numeral(d)| == 1 + |Numeral(d / 10)|;
  }

  // ---- placeholders with a counter ----

  function Render(lbl: string, n: nat, suffix: string): string {
    Base(lbl, Numeral(n)) + suffix
  }

  lemma RenderIsToken(lbl: string, n: nat, suffix: string)
    requires IsLabel(lbl) && 1 <= n <= 99_999 && (suffix == "" || IsSuffix(suffix))
    ensures IsToken(Render(lbl, n, suffix)) && BaseLen(Render(lbl, n, suffix)) == |Base(lbl, Numeral(n))|
    ensures suffix == "" <==> IsBase(Render(lbl, n, suffix))
  {
    NumeralFits(n);
    var base, p := Base(lbl, Numeral(n)), Render(lbl, n, suffix);
    assert IsBase(base);
    BaseShape(base);
    BaseLenLocal(base, suffix);
    if suffix == "" {
      assert p == base;
    } else {
      assert p[..|base|] == base && p[|base|..] == suffix;
      SuffixedEndsInHex(p);
    }
  }

  /** Label, digits and suffix can be read off what they were put together to. */
  lemma BaseInjective(l: string, a: string, s: string, k: string, b: string, t: string)
    requires (forall i :: 0 <= i < |l| ==> IsUpper(l[i])) && (forall i :: 0 <= i < |k| ==> IsUpper(k[i]))
    requires (forall i :: 0 <= i < |a| ==> IsDigit(a[i])) && (forall i :: 0 <= i < |b| ==> IsDigit(b[i]))
    requires Base(l, a) + s == Base(k, b) + t
    ensures l == k && a == b && s == t
  {
    var p := Base(l, a) + s;
    assert p[|l| + 1] == '_' && p[|k| + 1] == '_';
    assert forall i :: 1 <= i <= |l| ==> p[i] == l[i - 1];
    assert forall i :: 1 <= i <= |k| ==> p[i] == k[i - 1];
    assert |l| == |k|;
    assert l == p[1..|l| + 1] == k;
    var o := |l| + 2;
    assert forall i :: o <= i < o + |a| ==> p[i] == a[i - o];
    assert forall i :: o <= i < o + |b| ==> p[i] == b[i - o];
    assert p[o + |a|] == ']' && p[o + |b|] == ']';
    assert |a| == |b|;
    assert a == p[o..o + |a|] == b;
    assert s == p[o + |a| + 1..] == t;
  }

  lemma RenderInjective(l: string, m: nat, s: string, k: string, n: nat, t: string)
    requires (forall i :: 0 <= i < |l| ==> IsUpper(l[i])) && (forall i :: 0 <= i < |k| ==> IsUpper(k[i]))
    requires Render(l, m, s) == Render(k, n, t)
    ensures l == k && m == n && s == t
  {
    BaseInjective(l, Numeral(m), s, k, Numeral(n), t);
    NumeralInjective(m, n);
  }
}
