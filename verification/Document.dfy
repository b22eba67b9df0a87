/**
 Masked documents: a text cut at the spans that were replaced. The same document gives the masked text
 and the original one, and unmasking the first gives the second whenever every placeholder in it is read
 back as it was written.
 */
module Document {
  import opened Placeholder

  /** Literal text, then a placeholder that stands for a value, and so on. */
  datatype Doc = Tail(lit: string) | Node(lit: string, tok: string, val: string, rest: Doc)

  function Masked(d: Doc): string {
    match d
    case Tail(lit) => lit
    case Node(lit, tok, _, rest) => lit + (tok + Masked(rest))
  }

  function Original(d: Doc): string {
    match d
    case Tail(lit) => lit
    case Node(lit, _, val, rest) => lit + (val + Original(rest))
  }

  /** The original with every value looked up instead. */
  function Revalued(values: map<string, string>, d: Doc): string {
    match d
    case Tail(lit) => lit
    case Node(lit, tok, _, rest) => lit + (Lookup(values, tok) + Revalued(values, rest))
  }

  function FirstLit(d: Doc): string {
    d.lit
  }

  /** No placeholder in `d` is extended by the literal text behind it. */
  predicate Separated(d: Doc) {
    match d
    case Tail(_) => true
    case Node(_, tok, _, rest) => (IsSuffixShaped(tok) || !StartsSuffix(FirstLit(rest))) && Separated(rest)
  }

  /** A placeholder ends in `]` exactly when it has no suffix. */
  predicate IsSuffixShaped(tok: string) {
    tok != "" && tok[|tok| - 1] != ']'
  }

  ghost predicate AllTokens(d: Doc) {
    match d
    case Tail(_) => true
    case Node(_, tok, _, rest) => IsToken(tok) && AllTokens(rest)
  }

  /** None of the literal text is, for `values`, a placeholder. */
  ghost predicate Inert(values: map<string, string>, d: Doc) {
    && Subst(values, d.lit) == d.lit
    && (d.Node? ==> Inert(values, d.rest))
  }

  function Append(t: Parsed, u: Parsed): Parsed {
    match t
    case End => u
    case Plain(c, rest) => Plain(c, Append(rest, u))
    case Token(base, suffix, rest) => Token(base, suffix, Append(rest, u))
  }

  lemma {:induction false} ReplaceAppend(values: map<string, string>, t: Parsed, u: Parsed)
    ensures Replace(values, Append(t, u)) == Replace(values, t) + Replace(values, u)
  {
    match t
    case End =>
    case Plain(c, rest) =>
      ReplaceAppend(values, rest, u);
      assert [c] + (Replace(values, rest) + Replace(values, u)) == [c] + Replace(values, rest) + Replace(values, u);
    case Token(base, suffix, rest) =>
      ReplaceAppend(values, rest, u);
      var v := Lookup(values, base + suffix);
      assert v + (Replace(values, rest) + Replace(values, u)) == v + Replace(values, rest) + Replace(values, u);
  }

  /** Reading stops at a `[`: what stands before it is read as if the text ended there. */
  lemma {:induction false} ParseBeforeBracket(lit: string, rest: string)
    requires rest == "" || rest[0] == '['
    ensures Parse(lit + rest) == Append(Parse(lit), Parse(rest))
    decreases |lit|
  {
    hide BaseLen, TokenLen;
    if lit == "" {
      assert lit + rest == rest;
    } else {
      var s, k := lit + rest, TokenLen(lit);
      TokenLenBeforeBracket(lit, rest);
      BaseLenLocal(lit, rest);
      var n := BaseLen(lit);
      if k == 0 {
        assert s[1..] == lit[1..] + rest;
        ParseBeforeBracket(lit[1..], rest);
      } else {
        assert rest == "" ==> s == lit;
        assert s[..n] == lit[..n] && s[n..k] == lit[n..k] && s[k..] == lit[k..] + rest;
        ParseBeforeBracket(lit[k..], rest);
      }
    }
  }

  /** How a masked document is read. */
  function Reading(d: Doc): Parsed {
    match d
    case Tail(lit) => Parse(lit)
    case Node(lit, tok, _, rest) =>
      Append(Parse(lit), Token(tok[..BaseLen(tok)], tok[BaseLen(tok)..], Reading(rest)))
  }

  lemma {:induction false} MaskedReads(d: Doc)
    requires AllTokens(d) && Separated(d)
    ensures Parse(Masked(d)) == Reading(d)
  {
    hide BaseLen, Parse, IsToken;
    match d
    case Tail(_) =>
    case Node(lit, tok, _, rest) =>
      MaskedReads(rest);
      TokenShape(tok);
      SeparatedHere(tok, rest);
      ParseToken(tok, Masked(rest));
      ParseBeforeBracket(lit, tok + Masked(rest));
  }

  /** Behind a placeholder, only the literal text up to the next one can look like a suffix. */
  lemma SeparatedHere(tok: string, rest: Doc)
    requires IsToken(tok) && AllTokens(rest)
    ensures IsSuffixShaped(tok) <==> IsSuffixed(tok)
    ensures StartsSuffix(Masked(rest)) <==> StartsSuffix(FirstLit(rest))
  {
    hide IsToken;
    TokenShape(tok);
    SuffixedEndsInHex(tok);
    var lit, all := FirstLit(rest), Masked(rest);
    if |lit| >= SUFFIX_LENGTH {
      assert all[..SUFFIX_LENGTH] == lit[..SUFFIX_LENGTH];
    } else if rest.Node? && |all| >= SUFFIX_LENGTH {
      TokenShape(rest.tok);
      assert all[..SUFFIX_LENGTH][|lit|] == all[|lit|] == '[';
    }
  }

  /** What unmasking makes of a masked document. */
  lemma {:induction false} Unmasks(values: map<string, string>, d: Doc)
    requires AllTokens(d) && Separated(d) && Inert(values, d)
    ensures Subst(values, Masked(d)) == Revalued(values, d)
  {
    hide Parse, BaseLen, IsToken, Separated;
    MaskedReads(d);
    ReadingReplaces(values, d);
  }

  lemma {:induction false} ReadingReplaces(values: map<string, string>, d: Doc)
    requires AllTokens(d) && Inert(values, d)
    ensures Replace(values, Reading(d)) == Revalued(values, d)
  {
    hide Parse, BaseLen, IsToken;
    match d
    case Tail(_) =>
    case Node(lit, tok, _, rest) =>
      ReadingReplaces(values, rest);
      var n := BaseLen(tok);
      assert tok[..n] + tok[n..] == tok;
      ReplaceAppend(values, Parse(lit), Token(tok[..n], tok[n..], Reading(rest)));
  }

  /** Values that are the ones replaced give the original back. */
  ghost predicate Valued(values: map<string, string>, d: Doc) {
    d.Node? ==> d.tok in values && values[d.tok] == d.val && Valued(values, d.rest)
  }

  lemma {:induction false} RevaluedOriginal(values: map<string, string>, d: Doc)
    requires Valued(values, d)
    ensures Revalued(values, d) == Original(d)
  {
    if d.Node? {
      RevaluedOriginal(values, d.rest);
    }
  }

  // ---- texts without placeholders ----

  /** A part of a text without placeholders has none. */
  lemma {:induction false} NoPlaceholderIn(a: string, b: string, c: string)
    requires !HasPlaceholder(a + (b + c))
    ensures !HasPlaceholder(b)
    decreases |a| + |b|
  {
    hide BaseLen;
    if a != "" {
      assert (a + (b + c))[1..] == a[1..] + (b + c);
      NoPlaceholderIn(a[1..], b, c);
    } else if b != "" {
      assert a + (b + c) == b + c;
      BaseLenLocal(b, c);
      assert (b + c)[1..] == "" + (b[1..] + c);
      NoPlaceholderIn("", b[1..], c);
    }
  }

  lemma {:induction false} NoPlaceholderParses(values: map<string, string>, s: string)
    requires !HasPlaceholder(s)
    ensures Subst(values, s) == s
    ensures Parse(s) == Chars(s, End)
  {
    hide BaseLen, TokenLen;
    if s != "" {
      NoPlaceholderParses(values, s[1..]);
      assert [s[0]] + s[1..] == s;
    }
  }

  lemma {:induction false} PlaceholderStays(a: string, b: string)
    requires HasPlaceholder(b)
    ensures HasPlaceholder(a + b)
  {
    hide BaseLen;
    if a == "" {
      assert a + b == b;
    } else {
      assert (a + b)[1..] == a[1..] + b;
      PlaceholderStays(a[1..], b);
    }
  }

  /** The literal text of a document whose original has no placeholder has none. */
  lemma {:induction false} LiteralsInert(values: map<string, string>, d: Doc)
    requires !HasPlaceholder(Original(d))
    ensures Inert(values, d) && !HasPlaceholder(d.lit)
  {
    hide HasPlaceholder, Subst;
    match d
    case Tail(lit) =>
      NoPlaceholderParses(values, lit);
    case Node(lit, tok, val, rest) =>
      var tail := val + Original(rest);
      assert "" + (lit + tail) == Original(d);
      NoPlaceholderIn("", lit, tail);
      NoPlaceholderParses(values, lit);
      assert (lit + val) + (Original(rest) + "") == Original(d);
      NoPlaceholderIn(lit + val, Original(rest), "");
      LiteralsInert(values, rest);
  }

  /** No value is known for a placeholder of `d` together with a suffix. */
  ghost predicate NoneExtended(values: map<string, string>, d: Doc) {
    d.Node? ==>
      && (forall suffix :: IsSuffix(suffix) ==> d.tok + suffix !in values)
      && NoneExtended(values, d.rest)
  }

  /** Values that are all under bare placeholders extend none. */
  lemma {:induction false} BasesExtendNone(values: map<string, string>, d: Doc)
    requires AllTokens(d) && (forall p | p in values :: IsBase(p))
    ensures NoneExtended(values, d)
  {
    hide IsToken, IsBase;
    if d.Node? {
      forall suffix | IsSuffix(suffix)
        ensures d.tok + suffix !in values
      {
        var p := d.tok + suffix;
        assert p[|p| - 1] == suffix[|suffix| - 1];
        if IsBase(p) {
          BaseEnds(p);
        }
      }
      BasesExtendNone(values, d.rest);
    }
  }

  lemma BaseEnds(p: string)
    requires IsBase(p)
    ensures p != "" && p[|p| - 1] == ']'
  {
  }

  /**
   When no value is known for any placeholder extended by a suffix, a bare one that a suffix follows is
   read together with it and stays, so that the original cannot come back.
   */
  lemma {:induction false} NotSeparatedStays(values: map<string, string>, d: Doc)
    requires AllTokens(d) && !Separated(d) && NoneExtended(values, d)
    ensures HasPlaceholder(Subst(values, Masked(d)))
  {
    hide BaseLen, HasPlaceholder, Parse, IsToken, IsBase, IsSuffix;
    var Node(lit, tok, _, rest) := d;
    TokenShape(tok);
    SeparatedHere(tok, rest);
    ParseBeforeBracket(lit, tok + Masked(rest));
    ReplaceAppend(values, Parse(lit), Parse(tok + Masked(rest)));
    if IsSuffixShaped(tok) || !StartsSuffix(FirstLit(rest)) {
      NotSeparatedStays(values, rest);
      ParseToken(tok, Masked(rest));
      PlaceholderStays(Lookup(values, tok), Subst(values, Masked(rest)));
    } else {
      ExtendedStays(values, tok, Masked(rest));
    }
    PlaceholderStays(Replace(values, Parse(lit)), Subst(values, tok + Masked(rest)));
  }

  lemma ExtendedStays(values: map<string, string>, tok: string, behind: string)
    requires IsBase(tok) && StartsSuffix(behind)
    requires forall suffix :: IsSuffix(suffix) ==> tok + suffix !in values
    ensures HasPlaceholder(Subst(values, tok + behind))
  {
    hide BaseLen, TokenLen, IsBase, IsSuffix, Replace;
    var s, suffix, rest := tok + behind, behind[..SUFFIX_LENGTH], behind[SUFFIX_LENGTH..];
    TokenLenOfToken(tok, behind);
    BaseShape(tok);
    BaseLenLocal(tok, behind);
    var k := |tok| + SUFFIX_LENGTH;
    assert s[..|tok|] == tok && s[|tok|..k] == suffix && s[k..] == rest;
    assert Parse(s) == Token(tok, suffix, Parse(rest));
    assert IsSuffix(suffix);
    var out := Subst(values, s);
    assert out == tok + suffix + Replace(values, Parse(rest)) by { UnknownStays(values, tok, suffix, Parse(rest)); }
    assert out == tok + (suffix + Replace(values, Parse(rest)));
    BaseLenLocal(tok, suffix + Replace(values, Parse(rest)));
  }

  lemma UnknownStays(values: map<string, string>, base: string, suffix: string, rest: Parsed)
    requires base + suffix !in values
    ensures Replace(values, Token(base, suffix, rest)) == base + suffix + Replace(values, rest)
  {
  }
}
