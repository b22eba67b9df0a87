/**
 The placeholder grammar `[LABEL_n]` with its optional `#` + 16 hex suffix, an explicit recogniser for
 it, and the reference meaning of unmasking: leftmost, suffix-preferred, non-overlapping substitution.

 The fact everything rests on is that `[` occurs only at the first position of a placeholder, so what a
 placeholder looks like is settled by the text up to the next `[`.
 */
module Placeholder {

  const LABEL_MIN: nat := 2
  const LABEL_MAX: nat := 12
  const INDEX_MAX: nat := 5
  const BRACKETS_AND_SEPARATOR: nat := 3
  const SUFFIX_LENGTH: nat := 17
  const BASE_MAX: nat := LABEL_MAX + INDEX_MAX + BRACKETS_AND_SEPARATOR
  const MAX_PLACEHOLDER: nat := BASE_MAX + SUFFIX_LENGTH

  predicate IsUpper(c: char) { 'A' <= c <= 'Z' }

  predicate IsDigit(c: char) { '0' <= c <= '9' }

  predicate IsHex(c: char) { '0' <= c <= '9' || 'a' <= c <= 'f' }

  // ---- the grammar, declaratively ----

  predicate IsLabel(s: string) {
    LABEL_MIN <= |s| <= LABEL_MAX && forall i :: 0 <= i < |s| ==> IsUpper(s[i])
  }

  predicate IsIndex(s: string) {
    1 <= |s| <= INDEX_MAX && s[0] != '0' && forall i :: 0 <= i < |s| ==> IsDigit(s[i])
  }

  predicate IsSuffix(s: string) {
    |s| == SUFFIX_LENGTH && s[0] == '#' && forall i :: 1 <= i < |s| ==> IsHex(s[i])
  }

  function Base(lbl: string, idx: string): string {
    "[" + lbl + "_" + idx + "]"
  }

  ghost predicate IsBase(s: string) {
    exists lbl, idx :: IsLabel(lbl) && IsIndex(idx) && s == Base(lbl, idx)
  }

  /** A whole placeholder: a base, alone or with a suffix. */
  ghost predicate IsToken(s: string) {
    IsBase(s) || IsSuffixed(s)
  }

  ghost predicate IsSuffixed(s: string) {
    |s| >= SUFFIX_LENGTH && IsBase(s[..|s| - SUFFIX_LENGTH]) && IsSuffix(s[|s| - SUFFIX_LENGTH..])
  }

  /** Where the first `[` is; the length of the text if it has none. */
  function IndexOfBracket(s: string): (i: nat)
    ensures i <= |s| && (i < |s| ==> s[i] == '[') && forall j :: 0 <= j < i ==> s[j] != '['
  {
    if s == "" || s[0] == '[' then 0 else 1 + IndexOfBracket(s[1..])
  }

  // ---- the recogniser ----

  function UpperRun(s: string): (n: nat)
    ensures n <= |s| && (forall i :: 0 <= i < n ==> IsUpper(s[i])) && (n < |s| ==> !IsUpper(s[n]))
  {
    if s == "" || !IsUpper(s[0]) then 0 else 1 + UpperRun(s[1..])
  }

  function DigitRun(s: string): (n: nat)
    ensures n <= |s| && (forall i :: 0 <= i < n ==> IsDigit(s[i])) && (n < |s| ==> !IsDigit(s[n]))
  {
    if s == "" || !IsDigit(s[0]) then 0 else 1 + DigitRun(s[1..])
  }

  /** The length of the base placeholder `s` starts with, 0 when it starts with none. */
  function BaseLen(s: string): (n: nat)
    ensures n <= |s| && n <= BASE_MAX
    ensures n > 0 ==> s[0] == '['
  {
    if s == "" || s[0] != '[' then 0
    else
      var l := UpperRun(s[1..]);
      if l < LABEL_MIN || l > LABEL_MAX || |s| <= l + 1 || s[l + 1] != '_' then 0
      else
        var d := DigitRun(s[l + 2..]);
        if d < 1 || d > INDEX_MAX || s[l + 2] == '0' || |s| <= l + d + 2 || s[l + d + 2] != ']' then 0
        else l + d + 3
  }

  /** The length of the placeholder `s` starts with, the suffix taken whenever it is there. */
  function TokenLen(s: string): (n: nat)
    ensures n <= |s| && n <= MAX_PLACEHOLDER
    ensures n == BaseLen(s) || n == BaseLen(s) + SUFFIX_LENGTH
    ensures n > 0 <==> BaseLen(s) > 0
  {
    var n := BaseLen(s);
    if n > 0 && |s| >= n + SUFFIX_LENGTH && IsSuffix(s[n..n + SUFFIX_LENGTH]) then n + SUFFIX_LENGTH else n
  }

  /** The recogniser is exact: the base it reports is the one and only base that `s` starts with. */
  lemma BaseLenExact(s: string, k: nat)
    requires k <= |s|
    ensures k > 0 && BaseLen(s) == k <==> IsBase(s[..k])
  {
    if k > 0 && BaseLen(s) == k {
      BaseLenSound(s);
    }
    if IsBase(s[..k]) {
      var lbl, idx :| IsLabel(lbl) && IsIndex(idx) && s[..k] == Base(lbl, idx);
      assert s == Base(lbl, idx) + s[k..];
      BaseLenOfBase(lbl, idx, s[k..]);
    }
  }

  lemma BaseLenSound(s: string)
    requires BaseLen(s) > 0
    ensures IsBase(s[..BaseLen(s)])
  {
    var l := UpperRun(s[1..]);
    var d := DigitRun(s[l + 2..]);
    var name, digits := s[1..], s[l + 2..];
    var lbl, idx := name[..l], digits[..d];
    assert digits[0] == s[l + 2];
    assert IsLabel(lbl) && IsIndex(idx);
    Pieces(s, l, d);
  }

  lemma Pieces(s: string, l: nat, d: nat)
    requires l + d + 3 <= |s| && s[0] == '[' && s[l + 1] == '_' && s[l + d + 2] == ']'
    ensures s[..l + d + 3] == Base(s[1..][..l], s[l + 2..][..d])
  {
    assert s[1..][..l] == s[1..l + 1] && s[l + 2..][..d] == s[l + 2..l + 2 + d];
    assert s[..l + d + 3] == [s[0]] + s[1..l + 1] + [s[l + 1]] + s[l + 2..l + 2 + d] + [s[l + d + 2]];
  }

  lemma BaseLenOfBase(lbl: string, idx: string, rest: string)
    requires IsLabel(lbl) && IsIndex(idx)
    ensures BaseLen(Base(lbl, idx) + rest) == |lbl| + |idx| + 3
  {
    var s := Base(lbl, idx) + rest;
    var l, d := |lbl|, |idx|;
    assert forall i :: 0 <= i < l ==> s[1..][i] == lbl[i];
    assert s[l + 1] == '_' && s[1..][l] == '_';
    assert UpperRun(s[1..]) == l;
    assert forall i :: 0 <= i < d ==> s[l + 2..][i] == idx[i];
    assert s[l + d + 2] == ']' && s[l + 2..][d] == ']';
    assert DigitRun(s[l + 2..]) == d;
  }

  /** The bounds of the grammar: labels of 2 to 12 letters, 5 digits, 16 hex digits, 37 characters in all. */
  lemma Bounds()
    ensures IsLabel("AB") && !IsLabel("A") && IsLabel("ABCDEFGHIJKL") && !IsLabel("ABCDEFGHIJKLM") && !IsLabel("Ab")
    ensures IsIndex("99999") && !IsIndex("100000") && !IsIndex("01") && !IsIndex("") && !IsIndex("0")
    ensures IsSuffix("#0123456789abcdef") && !IsSuffix("#0123456789abcde") && !IsSuffix("#0123456789ABCDEF")
    ensures MAX_PLACEHOLDER == 37
  {
    assert !IsUpper("Ab"[1]) && !IsHex("#0123456789ABCDEF"[11]);
  }

  /** The placeholders of persons, for examples. */
  lemma Kisi(idx: string)
    ensures IsLabel("KISI") && Base("KISI", idx) == "[KISI_" + idx + "]"
    ensures IsIndex(idx) ==> IsBase("[KISI_" + idx + "]")
  {
    assert "[" + "KISI" + "_" == "[KISI_";
  }

  lemma BaseShape(s: string)
    requires IsBase(s)
    ensures 6 <= |s| <= BASE_MAX && s[0] == '[' && s[|s| - 1] == ']'
    ensures forall i :: 0 < i < |s| ==> s[i] != '['
    ensures BaseLen(s) == |s|
  {
    var lbl, idx :| IsLabel(lbl) && IsIndex(idx) && s == Base(lbl, idx);
    BaseLenExact(s, |s|);
    assert s[..|s|] == s;
    forall i | 0 < i < |s| ensures s[i] != '[' {
      if i <= |lbl| { assert s[i] == lbl[i - 1]; }
      else if i == |lbl| + 1 {}
      else if i < |s| - 1 { assert s[i] == idx[i - |lbl| - 2]; }
    }
  }

  // ---- locality: what a text starts with is settled by its beginning ----

  predicate StartsSuffix(s: string) {
    |s| >= SUFFIX_LENGTH && IsSuffix(s[..SUFFIX_LENGTH])
  }

  lemma BaseLenLocal(s: string, rest: string)
    ensures BaseLen(s) > 0 ==> BaseLen(s + rest) == BaseLen(s)
    ensures BaseLen(s + rest) <= |s| ==> BaseLen(s + rest) == BaseLen(s)
    ensures s != "" && rest != "" && rest[0] == '[' ==> BaseLen(s + rest) == BaseLen(s)
  {
    hide BaseLen, IsBase;
    var n, m := BaseLen(s), BaseLen(s + rest);
    assert rest != "" ==> (s + rest)[|s|] == rest[0];
    if n > 0 {
      assert (s + rest)[..n] == s[..n];
      BaseLenExact(s, n);
      BaseLenExact(s + rest, n);
    } else if 0 < m <= |s| {
      assert (s + rest)[..m] == s[..m];
      BaseLenExact(s, m);
      BaseLenExact(s + rest, m);
    } else if m > |s| {
      BaseLenExact(s + rest, m);
      BaseShape((s + rest)[..m]);
      assert forall i :: 0 < i < m ==> (s + rest)[i] == (s + rest)[..m][i] != '[';
    }
  }

  lemma TokenLenBeforeBracket(s: string, rest: string)
    requires s != "" && (rest == "" || rest[0] == '[')
    ensures TokenLen(s + rest) == TokenLen(s)
  {
    hide BaseLen;
    BaseLenLocal(s, rest);
    var n := BaseLen(s);
    if rest == "" {
      assert s + rest == s;
    } else if n > 0 && |s + rest| >= n + SUFFIX_LENGTH {
      var w := (s + rest)[n..n + SUFFIX_LENGTH];
      if n + SUFFIX_LENGTH <= |s| {
        assert w == s[n..n + SUFFIX_LENGTH];
      } else {
        assert (s + rest)[|s|] == rest[0];
        assert !IsSuffix(w) by { assert w[|s| - n] == '['; }
      }
    }
  }

  lemma SuffixedEndsInHex(p: string)
    ensures IsSuffixed(p) ==> IsHex(p[|p| - 1]) && !IsBase(p)
  {
    if IsSuffixed(p) {
      assert p[|p| - 1] == p[|p| - SUFFIX_LENGTH..][SUFFIX_LENGTH - 1];
      if IsBase(p) {
        BaseShape(p);
      }
    }
  }

  /** A placeholder is read back whole unless it is a bare base that a suffix follows. */
  lemma TokenLenOfToken(p: string, rest: string)
    requires IsToken(p)
    ensures TokenLen(p + rest) == |p| <==> IsSuffixed(p) || !StartsSuffix(rest)
    ensures IsBase(p) && StartsSuffix(rest) ==> TokenLen(p + rest) == |p| + SUFFIX_LENGTH
  {
    hide BaseLen, IsBase;
    var s := p + rest;
    if IsBase(p) {
      assert s[..|p|] == p;
      BaseLenExact(s, |p|);
      BaseShape(p);
      SuffixedEndsInHex(p);
      if |rest| >= SUFFIX_LENGTH {
        assert s[|p|..|p| + SUFFIX_LENGTH] == rest[..SUFFIX_LENGTH];
      }
    } else {
      var n := |p| - SUFFIX_LENGTH;
      assert s[..n] == p[..n];
      BaseShape(p[..n]);
      BaseLenExact(s, n);
      assert s[n..n + SUFFIX_LENGTH] == p[n..];
    }
  }

  lemma TokenShape(p: string)
    requires IsToken(p)
    ensures 6 <= |p| <= MAX_PLACEHOLDER && p[0] == '[' && TokenLen(p) == |p|
    ensures forall i :: 0 < i < |p| ==> p[i] != '['
    ensures IsBase(p) <==> p[|p| - 1] == ']'
    ensures IsBase(p) <==> !IsSuffixed(p)
  {
    hide BaseLen, TokenLen, IsBase;
    TokenLenOfToken(p, "");
    assert p + "" == p;
    SuffixedEndsInHex(p);
    if IsBase(p) {
      BaseShape(p);
    } else {
      var n := |p| - SUFFIX_LENGTH;
      BaseShape(p[..n]);
      forall i | 0 < i < |p| ensures p[i] != '[' {
        if i < n { assert p[i] == p[..n][i]; } else { assert p[i] == p[n..][i - n]; }
      }
    }
  }

  lemma TokenAtStart(s: string)
    requires TokenLen(s) > 0
    ensures IsToken(s[..TokenLen(s)]) && s[0] == '['
    ensures TokenLen(s) == BaseLen(s) ==> IsBase(s[..TokenLen(s)])
    ensures TokenLen(s) != BaseLen(s) ==> TokenLen(s) == BaseLen(s) + SUFFIX_LENGTH && IsSuffixed(s[..TokenLen(s)])
  {
    hide BaseLen, IsBase, IsSuffix;
    var n, k := BaseLen(s), TokenLen(s);
    BaseLenExact(s, n);
    if k != n {
      assert s[..k][..n] == s[..n];
      assert s[..k][n..] == s[n..k];
    }
  }

  // ---- the reference meaning ----

  /** A text cut into placeholders and other characters. `suffix` is empty for a bare base. */
  datatype Parsed = End | Plain(c: char, rest: Parsed) | Token(base: string, suffix: string, rest: Parsed)

  /** The leftmost, suffix-preferred reading of a text. */
  function Parse(s: string): Parsed {
    if s == "" then End
    else
      var n, k := BaseLen(s), TokenLen(s);
      if k == 0 then Plain(s[0], Parse(s[1..]))
      else Token(s[..n], s[n..k], Parse(s[k..]))
  }

  function Print(t: Parsed): string {
    match t
    case End => ""
    case Plain(c, rest) => [c] + Print(rest)
    case Token(base, suffix, rest) => base + suffix + Print(rest)
  }

  function Lookup(values: map<string, string>, p: string): string {
    if p in values then values[p] else p
  }

  function Replace(values: map<string, string>, t: Parsed): string {
    match t
    case End => ""
    case Plain(c, rest) => [c] + Replace(values, rest)
    case Token(base, suffix, rest) => Lookup(values, base + suffix) + Replace(values, rest)
  }

  /** Substitution of every placeholder in `s` that has a value. */
  function Subst(values: map<string, string>, s: string): string {
    Replace(values, Parse(s))
  }

  /** Whether some position of `s` starts a placeholder: the search both maskers make on their input. */
  predicate HasPlaceholder(s: string) {
    s != "" && (BaseLen(s) > 0 || HasPlaceholder(s[1..]))
  }

  /** Reading a text loses nothing, and substituting nothing changes nothing. */
  lemma {:induction false} ParsePrints(s: string)
    ensures Print(Parse(s)) == s
    ensures Subst(map[], s) == s
  {
    hide BaseLen, TokenLen;
    if s != "" {
      var n, k := BaseLen(s), TokenLen(s);
      if k == 0 {
        ParsePrints(s[1..]);
        assert [s[0]] + s[1..] == s;
      } else {
        ParsePrints(s[k..]);
        assert s[..n] + s[n..k] == s[..k];
        assert s[..k] + s[k..] == s;
      }
    }
  }

  /** `plain` in front of a reading. */
  function Chars(plain: string, t: Parsed): Parsed {
    if plain == "" then t else Plain(plain[0], Chars(plain[1..], t))
  }

  lemma {:induction false} ReplaceChars(values: map<string, string>, plain: string, t: Parsed)
    ensures Replace(values, Chars(plain, t)) == plain + Replace(values, t)
  {
    if plain != "" {
      ReplaceChars(values, plain[1..], t);
      assert [plain[0]] + (plain[1..] + Replace(values, t)) == plain + Replace(values, t);
    }
  }

  /** Text without `[` is read as it is. */
  lemma {:induction false} ParseChars(plain: string, rest: string)
    requires '[' !in plain
    ensures Parse(plain + rest) == Chars(plain, Parse(rest))
  {
    if plain == "" {
      assert plain + rest == rest;
    } else {
      assert (plain + rest)[1..] == plain[1..] + rest;
      ParseChars(plain[1..], rest);
    }
  }

  /** A placeholder at the front is read whole when nothing behind it can extend it. */
  lemma ParseToken(p: string, rest: string)
    requires IsToken(p) && (IsSuffixed(p) || !StartsSuffix(rest))
    ensures Parse(p + rest) == Token(p[..BaseLen(p)], p[BaseLen(p)..], Parse(rest))
    ensures p[..BaseLen(p)] + p[BaseLen(p)..] == p
  {
    hide BaseLen, TokenLen, IsToken, IsSuffixed;
    TokenLenOfToken(p, rest);
    TokenShape(p);
    BaseLenLocal(p, rest);
    var n := BaseLen(p);
    assert (p + rest)[..n] == p[..n];
    assert (p + rest)[n..|p|] == p[n..];
    assert (p + rest)[|p|..] == rest;
  }
}
