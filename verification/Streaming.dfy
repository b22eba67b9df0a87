/**
 The streaming restorer of the gateway: a push/finish parser that gives out text as soon as it may,
 holding back only what could still become a placeholder, and charges every placeholder it resolves to
 an authorization that several restorers share.

 `Budgeted` is the one-shot reference. The main result, `ChunkInvariance`, says for which texts every
 way of cutting them into chunks gives exactly the reference outcome.
 */
module Streaming {
  import opened Placeholder

  const LIMIT_EXCEEDED := "HM-4290"

  /** The placeholders a response may ask for, and what the vault holds while the stream lasts. */
  datatype Rights = Rights(allowed: set<string>, vault: map<string, string>) {
    function Restore(p: string): string {
      if p in allowed && p in vault then vault[p] else p
    }

    function Values(): map<string, string> {
      map p | p in allowed && p in vault :: vault[p]
    }
  }

  /** What a whole stream comes to: the text given out and the budget left, or the limit error. */
  datatype Outcome = Limit | Done(out: string, remaining: int)

  function Prepend(s: string, o: Outcome): Outcome {
    if o.Done? then Done(s + o.out, o.remaining) else Limit
  }

  // ---- the reference ----

  /** One-shot substitution that pays for each allowed placeholder. */
  function Budgeted(r: Rights, t: Parsed, remaining: int): Outcome {
    match t
    case End => Done("", remaining)
    case Plain(c, rest) => Prepend([c], Budgeted(r, rest, remaining))
    case Token(base, suffix, rest) =>
      var p := base + suffix;
      if p !in r.allowed then Prepend(p, Budgeted(r, rest, remaining))
      else if remaining <= 0 then Limit
      else Prepend(r.Restore(p), Budgeted(r, rest, remaining - 1))
  }

  /** How many allowed placeholders a text has. */
  function Charges(r: Rights, t: Parsed): nat {
    match t
    case End => 0
    case Plain(_, rest) => Charges(r, rest)
    case Token(base, suffix, rest) => (if base + suffix in r.allowed then 1 else 0) + Charges(r, rest)
  }

  /** The reference fails exactly when the budget is short, and is plain substitution otherwise. */
  lemma {:induction false} BudgetedMeans(r: Rights, t: Parsed, remaining: int)
    ensures Budgeted(r, t, remaining) ==
            if Charges(r, t) == 0 || Charges(r, t) <= remaining
            then Done(Replace(r.Values(), t), remaining - Charges(r, t))
            else Limit
  {
    match t
    case End =>
    case Plain(c, rest) =>
      BudgetedMeans(r, rest, remaining);
    case Token(base, suffix, rest) =>
      var p := base + suffix;
      assert Lookup(r.Values(), p) == r.Restore(p);
      BudgetedMeans(r, rest, if p in r.allowed then remaining - 1 else remaining);
  }

  // ---- the parser ----

  /** Where one `push` stops: the buffer it keeps, or the placeholder it was refused. */
  datatype Drained = Refused(buffer: string) | Held(out: string, buffer: string, remaining: int)

  function PrependHeld(s: string, d: Drained): Drained {
    if d.Held? then Held(s + d.out, d.buffer, d.remaining) else d
  }

  /** `#` and up to 15 hex digits: more input could complete a suffix. */
  predicate SuffixPending(s: string) {
    1 <= |s| < SUFFIX_LENGTH && s[0] == '#' && forall i :: 1 <= i < |s| ==> IsHex(s[i])
  }

  function Drain(r: Rights, buffer: string, remaining: int): Drained
    decreases |buffer|, 2
  {
    var opening := IndexOfBracket(buffer);
    if opening == |buffer| then Held(buffer, "", remaining)
    else PrependHeld(buffer[..opening], DrainAt(r, buffer[opening..], remaining))
  }

  function DrainAt(r: Rights, buffer: string, remaining: int): Drained
    requires buffer != "" && buffer[0] == '['
    decreases |buffer|, 1
  {
    var n, k := BaseLen(buffer), TokenLen(buffer);
    if k > n then DrainResolved(r, buffer, k, remaining)
    else if n > 0 then
      if SuffixPending(buffer[n..]) then Held("", buffer, remaining)
      else DrainResolved(r, buffer, n, remaining)
    else if |buffer| < MAX_PLACEHOLDER then Held("", buffer, remaining)
    else PrependHeld("[", Drain(r, buffer[1..], remaining))
  }

  /** Resolves the placeholder of length `n` that `buffer` starts with, and goes on behind it. */
  function DrainResolved(r: Rights, buffer: string, n: nat, remaining: int): Drained
    requires 0 < n <= |buffer|
    decreases |buffer|, 0
  {
    var p := buffer[..n];
    if p in r.allowed && remaining <= 0 then Refused(buffer)
    else
      var left := if p in r.allowed then remaining - 1 else remaining;
      if r.Restore(p) == p && n == |buffer| && BaseLen(buffer) == n then Held("", buffer, left)
      else PrependHeld(r.Restore(p), Drain(r, buffer[n..], left))
  }

  /** A whole stream: every chunk pushed, then `finish`. */
  function Stream(r: Rights, buffer: string, remaining: int, chunks: seq<string>): Outcome
    decreases |chunks|
  {
    if chunks == [] then Budgeted(r, Parse(buffer), remaining)
    else
      var d := Drain(r, buffer + chunks[0], remaining);
      if d.Refused? then Limit
      else Prepend(d.out, Stream(r, d.buffer, d.remaining, chunks[1..]))
  }

  function Join(chunks: seq<string>): string {
    if chunks == [] then "" else chunks[0] + Join(chunks[1..])
  }

  // ---- which texts may be cut anywhere ----

  /** The text given out for this placeholder never depends on where the stream was cut. */
  predicate SteadyToken(r: Rights, base: string, suffix: string) {
    suffix == "" || r.Restore(base) == base || r.Restore(base + suffix) == r.Restore(base) + suffix
  }

  /** Neither the text given out for it nor what it costs depends on where the stream was cut. */
  predicate SettledToken(r: Rights, base: string, suffix: string) {
    if suffix == "" then base in r.allowed ==> r.Restore(base) != base
    else base in r.allowed ==>
           && base + suffix in r.allowed
           && r.Restore(base) != base
           && r.Restore(base + suffix) == r.Restore(base) + suffix
  }

  /**
   Every placeholder of the text is steady, or a stray `[` less than 37 characters before the end of
   its base keeps the parser from stopping there. `back` is the distance from the last stray `[`.
   */
  predicate Steady(r: Rights, t: Parsed, back: nat) {
    match t
    case End => true
    case Plain(c, rest) => Steady(r, rest, if c == '[' then 1 else back + 1)
    case Token(base, suffix, rest) =>
      && (back + |base| < MAX_PLACEHOLDER || SteadyToken(r, base, suffix))
      && Steady(r, rest, back + |base| + |suffix|)
  }

  predicate Settled(r: Rights, t: Parsed, back: nat) {
    match t
    case End => true
    case Plain(c, rest) => Settled(r, rest, if c == '[' then 1 else back + 1)
    case Token(base, suffix, rest) =>
      && (back + |base| < MAX_PLACEHOLDER || SettledToken(r, base, suffix))
      && Settled(r, rest, back + |base| + |suffix|)
  }

  lemma {:induction false} SettledIsSteady(r: Rights, t: Parsed, back: nat)
    requires Settled(r, t, back)
    ensures Steady(r, t, back)
  {
    match t
    case End =>
    case Plain(c, rest) => SettledIsSteady(r, rest, if c == '[' then 1 else back + 1);
    case Token(base, suffix, rest) => SettledIsSteady(r, rest, back + |base| + |suffix|);
  }

  lemma {:induction false} CharsKeep(r: Rights, plain: string, t: Parsed, back: nat)
    requires '[' !in plain
    ensures Charges(r, Chars(plain, t)) == Charges(r, t)
    ensures Steady(r, Chars(plain, t), back) == Steady(r, t, back + |plain|)
    ensures Settled(r, Chars(plain, t), back) == Settled(r, t, back + |plain|)
  {
    if plain != "" {
      assert plain[0] != '[';
      CharsKeep(r, plain[1..], t, back + 1);
    }
  }

  // ---- one push ----

  predicate IsTail(tail: string, s: string) {
    |tail| <= |s| && s[|s| - |tail|..] == tail
  }

  lemma TailOfTail(tail: string, s: string, cut: nat)
    requires cut <= |s| && IsTail(tail, s[cut..])
    ensures IsTail(tail, s)
  {
    assert s[cut..][|s| - cut - |tail|..] == s[|s| - |tail|..];
  }

  /** What is kept after a push: short, and starting with the `[` it waits for. */
  predicate Waiting(d: Drained) {
    if d.Held? then |d.buffer| < MAX_PLACEHOLDER && (d.buffer != "" ==> d.buffer[0] == '[')
    else TokenLen(d.buffer) > 0
  }

  lemma {:induction false} DrainHolds(r: Rights, buffer: string, remaining: int)
    ensures IsTail(Drain(r, buffer, remaining).buffer, buffer) && Waiting(Drain(r, buffer, remaining))
    decreases |buffer|, 2
  {
    hide BaseLen, TokenLen, DrainAt;
    var opening := IndexOfBracket(buffer);
    if opening < |buffer| {
      DrainAtHolds(r, buffer[opening..], remaining);
      TailOfTail(DrainAt(r, buffer[opening..], remaining).buffer, buffer, opening);
    }
  }

  lemma {:induction false} DrainAtHolds(r: Rights, buffer: string, remaining: int)
    requires buffer != "" && buffer[0] == '['
    ensures IsTail(DrainAt(r, buffer, remaining).buffer, buffer) && Waiting(DrainAt(r, buffer, remaining))
    decreases |buffer|, 1
  {
    hide BaseLen, TokenLen, DrainResolved, Drain;
    var n, k := BaseLen(buffer), TokenLen(buffer);
    if n == 0 {
      DrainHolds(r, buffer[1..], remaining);
      TailOfTail(Drain(r, buffer[1..], remaining).buffer, buffer, 1);
    } else if k == n && SuffixPending(buffer[n..]) {
    } else {
      DrainResolvedHolds(r, buffer, k, remaining);
    }
  }

  lemma {:induction false} DrainResolvedHolds(r: Rights, buffer: string, k: nat, remaining: int)
    requires 0 < k <= |buffer| && buffer[0] == '[' && k == TokenLen(buffer)
    ensures IsTail(DrainResolved(r, buffer, k, remaining).buffer, buffer)
    ensures Waiting(DrainResolved(r, buffer, k, remaining))
    decreases |buffer|, 0
  {
    hide BaseLen, TokenLen, Drain;
    var left := if buffer[..k] in r.allowed then remaining - 1 else remaining;
    DrainHolds(r, buffer[k..], left);
    TailOfTail(Drain(r, buffer[k..], left).buffer, buffer, k);
  }

  // ---- how the text behind a buffer can change the reading of its head ----

  lemma HeadSuffixed(buffer: string, rest: string)
    requires TokenLen(buffer) > BaseLen(buffer)
    ensures var n, k := BaseLen(buffer), TokenLen(buffer);
            Parse(buffer + rest) == Token(buffer[..n], buffer[n..k], Parse(buffer[k..] + rest))
  {
    hide BaseLen, IsSuffix;
    var n, k := BaseLen(buffer), TokenLen(buffer);
    BaseLenLocal(buffer, rest);
    var s := buffer + rest;
    assert s[n..k] == buffer[n..k];
    assert s[..n] == buffer[..n];
    assert s[k..] == buffer[k..] + rest;
  }

  lemma HeadBase(buffer: string, rest: string)
    requires 0 < BaseLen(buffer) == TokenLen(buffer) < |buffer|
    requires !SuffixPending(buffer[BaseLen(buffer)..])
    ensures var n := BaseLen(buffer);
            Parse(buffer + rest) == Token(buffer[..n], "", Parse(buffer[n..] + rest))
  {
    hide BaseLen;
    var n := BaseLen(buffer);
    BaseLenLocal(buffer, rest);
    var s := buffer + rest;
    assert s[..n] == buffer[..n];
    assert s[n..] == buffer[n..] + rest;
    assert TokenLen(s) == n by {
      if |s| >= n + SUFFIX_LENGTH {
        var w := s[n..n + SUFFIX_LENGTH];
        if |buffer| >= n + SUFFIX_LENGTH {
          assert w == buffer[n..n + SUFFIX_LENGTH];
        } else {
          assert forall i :: 0 <= i < |buffer| - n ==> w[i] == buffer[n..][i];
        }
      }
    }
  }

  lemma HeadWholeBase(buffer: string, rest: string)
    requires 0 < BaseLen(buffer) == |buffer|
    ensures Parse(buffer + rest) ==
            if StartsSuffix(rest) then Token(buffer, rest[..SUFFIX_LENGTH], Parse(rest[SUFFIX_LENGTH..]))
            else Token(buffer, "", Parse(rest))
  {
    hide BaseLen, IsSuffix;
    var n := |buffer|;
    BaseLenLocal(buffer, rest);
    var s := buffer + rest;
    assert s[..n] == buffer && s[n..] == rest;
    if |rest| >= SUFFIX_LENGTH {
      assert s[n..n + SUFFIX_LENGTH] == rest[..SUFFIX_LENGTH];
      assert s[n + SUFFIX_LENGTH..] == rest[SUFFIX_LENGTH..];
    }
  }

  lemma HeadStray(buffer: string, rest: string)
    requires BaseLen(buffer) == 0 && |buffer| >= BASE_MAX && buffer[0] == '['
    ensures Parse(buffer + rest) == Plain('[', Parse(buffer[1..] + rest))
  {
    hide BaseLen, IsSuffix;
    BaseLenLocal(buffer, rest);
    assert (buffer + rest)[1..] == buffer[1..] + rest;
  }

  /** A suffix is plain text when what stands before it is gone. */
  lemma SuffixIsChars(rest: string)
    requires StartsSuffix(rest)
    ensures '[' !in rest[..SUFFIX_LENGTH]
    ensures Parse(rest) == Chars(rest[..SUFFIX_LENGTH], Parse(rest[SUFFIX_LENGTH..]))
  {
    hide BaseLen, TokenLen, Parse;
    assert rest == rest[..SUFFIX_LENGTH] + rest[SUFFIX_LENGTH..];
    ParseChars(rest[..SUFFIX_LENGTH], rest[SUFFIX_LENGTH..]);
  }

  // ---- one push, against the reference ----

  /** What a push gave out and what it kept have, together, the meaning of what it was given. */
  ghost predicate SameText(r: Rights, buffer: string, d: Drained, rest: string) {
    d.Held? ==> Subst(r.Values(), buffer + rest) == d.out + Subst(r.Values(), d.buffer + rest)
  }

  /** What a push paid and what is still to pay are, together, what it all costs. */
  ghost predicate SameCost(r: Rights, buffer: string, remaining: int, d: Drained, rest: string) {
    var cost := Charges(r, Parse(buffer + rest));
    if d.Refused? then 0 < cost && remaining < cost
    else
      && d.remaining <= remaining && (d.remaining == remaining || 0 <= d.remaining)
      && d.remaining - Charges(r, Parse(d.buffer + rest)) == remaining - cost
  }

  /** `next` is the distance from the last stray `[` to the buffer that is kept. */
  ghost predicate Keeps(r: Rights, buffer: string, remaining: int, rest: string, back: nat, d: Drained, next: nat) {
    && (d.Held? ==> next + |d.buffer| >= MAX_PLACEHOLDER)
    && (Steady(r, Parse(buffer + rest), back) ==>
          SameText(r, buffer, d, rest) && (d.Held? ==> Steady(r, Parse(d.buffer + rest), next)))
    && (Settled(r, Parse(buffer + rest), back) ==>
          SameCost(r, buffer, remaining, d, rest) && (d.Held? ==> Settled(r, Parse(d.buffer + rest), next)))
  }

  lemma RestoreLooksUp(r: Rights, p: string)
    ensures Lookup(r.Values(), p) == r.Restore(p)
  {
  }

  lemma Associate(a: string, b: string, c: string)
    ensures a + (b + c) == a + b + c
  {
  }

  lemma {:induction false} DrainKeeps(r: Rights, buffer: string, remaining: int, rest: string, back: nat)
    returns (next: nat)
    requires back + |buffer| >= MAX_PLACEHOLDER
    ensures Keeps(r, buffer, remaining, rest, back, Drain(r, buffer, remaining), next)
    decreases |buffer|, 2
  {
    hide BaseLen, TokenLen, Parse, Steady, Settled, DrainAt, Rights.Values, Replace;
    var opening := IndexOfBracket(buffer);
    var plain, b := buffer[..opening], buffer[opening..];
    assert buffer + rest == plain + (b + rest);
    ParseChars(plain, b + rest);
    ReplaceChars(r.Values(), plain, Parse(b + rest));
    CharsKeep(r, plain, Parse(b + rest), back);
    if b == "" {
      next := back + opening;
    } else {
      next := DrainAtKeeps(r, b, remaining, rest, back + opening);
      var d := DrainAt(r, b, remaining);
      if d.Held? {
        Associate(plain, d.out, Subst(r.Values(), d.buffer + rest));
      }
    }
  }

  lemma {:induction false} DrainAtKeeps(r: Rights, buffer: string, remaining: int, rest: string, back: nat)
    returns (next: nat)
    requires buffer != "" && buffer[0] == '[' && back + |buffer| >= MAX_PLACEHOLDER
    ensures Keeps(r, buffer, remaining, rest, back, DrainAt(r, buffer, remaining), next)
    decreases |buffer|, 1
  {
    hide BaseLen, TokenLen, SuffixPending, DrainResolved, Drain, Rights.Values;
    var n, k := BaseLen(buffer), TokenLen(buffer);
    if k > n {
      HeadSuffixed(buffer, rest);
      next := DrainResolvedKeeps(r, buffer, k, remaining, rest, back);
    } else if n > 0 {
      if SuffixPending(buffer[n..]) {
        next := back;
      } else if n < |buffer| {
        HeadBase(buffer, rest);
        next := DrainResolvedKeeps(r, buffer, n, remaining, rest, back);
      } else {
        next := DrainWholeKeeps(r, buffer, remaining, rest, back);
      }
    } else if |buffer| < MAX_PLACEHOLDER {
      next := back;
    } else {
      HeadStray(buffer, rest);
      next := DrainKeeps(r, buffer[1..], remaining, rest, 1);
      var d := Drain(r, buffer[1..], remaining);
      if d.Held? {
        Associate("[", d.out, Subst(r.Values(), d.buffer + rest));
      }
    }
  }

  lemma {:induction false} DrainResolvedKeeps(r: Rights, buffer: string, k: nat, remaining: int, rest: string,
                                              back: nat)
    returns (next: nat)
    requires 0 < k == TokenLen(buffer) && (k == BaseLen(buffer) ==> k < |buffer|)
    requires var n := BaseLen(buffer);
             Parse(buffer + rest) == Token(buffer[..n], buffer[n..k], Parse(buffer[k..] + rest))
    requires back + |buffer| >= MAX_PLACEHOLDER
    ensures Keeps(r, buffer, remaining, rest, back, DrainResolved(r, buffer, k, remaining), next)
    decreases |buffer|, 0
  {
    hide BaseLen, TokenLen, Drain, Parse, IsSuffix, Rights.Values;
    var n, p := BaseLen(buffer), buffer[..k];
    assert buffer[..n] + buffer[n..k] == p;
    var left := if p in r.allowed then remaining - 1 else remaining;
    next := DrainKeeps(r, buffer[k..], left, rest, back + k);
    RestoreLooksUp(r, p);
    var d := Drain(r, buffer[k..], left);
    if d.Held? {
      Associate(r.Restore(p), d.out, Subst(r.Values(), d.buffer + rest));
    }
  }

  /** The one place where the parser commits before it can know: a buffer that is a base and nothing more. */
  lemma DrainWholeKeeps(r: Rights, buffer: string, remaining: int, rest: string, back: nat)
    returns (next: nat)
    requires 0 < BaseLen(buffer) == |buffer|
    requires back + |buffer| >= MAX_PLACEHOLDER
    ensures Keeps(r, buffer, remaining, rest, back, DrainResolved(r, buffer, |buffer|, remaining), next)
  {
    hide BaseLen, TokenLen, IsSuffix, Parse, Rights.Values;
    var d := DrainResolved(r, buffer, |buffer|, remaining);
    assert buffer[..|buffer|] == buffer;
    HeadWholeBase(buffer, rest);
    assert buffer + "" == buffer;
    if d.Refused? || r.Restore(buffer) == buffer {
      next := back;
    } else {
      next := back + |buffer|;
      assert d.buffer == "" && d.out == r.Restore(buffer);
      assert d.buffer + rest == rest;
      RestoreLooksUp(r, buffer);
      if StartsSuffix(rest) {
        var suffix, tail := rest[..SUFFIX_LENGTH], Parse(rest[SUFFIX_LENGTH..]);
        SuffixIsChars(rest);
        RestoreLooksUp(r, buffer + suffix);
        ReplaceChars(r.Values(), suffix, tail);
        CharsKeep(r, suffix, tail, next);
        Associate(r.Restore(buffer), suffix, Replace(r.Values(), tail));
      }
    }
  }

  // ---- whole streams ----

  lemma {:induction false} StreamKeeps(r: Rights, buffer: string, remaining: int, chunks: seq<string>, back: nat)
    requires back + |buffer| >= MAX_PLACEHOLDER
    ensures var s := buffer + Join(chunks);
            var o := Stream(r, buffer, remaining, chunks);
            && (Steady(r, Parse(s), back) && o.Done? ==> o.out == Subst(r.Values(), s))
            && (Settled(r, Parse(s), back) ==> o == Budgeted(r, Parse(s), remaining))
    decreases |chunks|
  {
    hide Parse, Steady, Settled, Drain, Rights.Values, Budgeted, Charges;
    var s := buffer + Join(chunks);
    if chunks == [] {
      assert s == buffer;
      BudgetedMeans(r, Parse(s), remaining);
    } else {
      var input, rest := buffer + chunks[0], Join(chunks[1..]);
      assert s == input + rest;
      var d := Drain(r, input, remaining);
      var next := DrainKeeps(r, input, remaining, rest, back);
      if Settled(r, Parse(s), back) {
        SettledIsSteady(r, Parse(s), back);
      }
      BudgetedMeans(r, Parse(s), remaining);
      if d.Held? {
        StreamKeeps(r, d.buffer, d.remaining, chunks[1..], next);
        BudgetedMeans(r, Parse(d.buffer + rest), d.remaining);
      }
    }
  }

  // ---- a whole text pushed at once ----

  /** With nothing more to come, what a push gave out and what it kept are what it was given. */
  predicate SplitsText(r: Rights, buffer: string, d: Drained) {
    d.Held? ==> Subst(r.Values(), buffer) == d.out + Subst(r.Values(), d.buffer)
  }

  lemma {:induction false} DrainSplits(r: Rights, buffer: string, remaining: int)
    ensures SplitsText(r, buffer, Drain(r, buffer, remaining))
    decreases |buffer|, 2
  {
    hide BaseLen, TokenLen, Parse, DrainAt, Rights.Values, Replace;
    var opening := IndexOfBracket(buffer);
    var plain, b := buffer[..opening], buffer[opening..];
    assert buffer == plain + b;
    ParseChars(plain, b);
    ReplaceChars(r.Values(), plain, Parse(b));
    if b != "" {
      DrainAtSplits(r, b, remaining);
      var d := DrainAt(r, b, remaining);
      if d.Held? {
        Associate(plain, d.out, Subst(r.Values(), d.buffer));
      }
    }
  }

  lemma {:induction false} DrainAtSplits(r: Rights, buffer: string, remaining: int)
    requires buffer != "" && buffer[0] == '['
    ensures SplitsText(r, buffer, DrainAt(r, buffer, remaining))
    decreases |buffer|, 1
  {
    hide BaseLen, TokenLen, SuffixPending, DrainResolved, Drain, Rights.Values, Subst;
    var k := TokenLen(buffer);
    assert "" + Subst(r.Values(), buffer) == Subst(r.Values(), buffer);
    if k > 0 {
      DrainResolvedSplits(r, buffer, k, remaining);
    } else {
      FirstChar(r, buffer);
      DrainSplits(r, buffer[1..], remaining);
      var d := Drain(r, buffer[1..], remaining);
      if d.Held? {
        Associate("[", d.out, Subst(r.Values(), d.buffer));
      }
    }
  }

  lemma {:induction false} DrainResolvedSplits(r: Rights, buffer: string, k: nat, remaining: int)
    requires 0 < k == TokenLen(buffer)
    ensures SplitsText(r, buffer, DrainResolved(r, buffer, k, remaining))
    decreases |buffer|, 0
  {
    hide BaseLen, TokenLen, Drain, Rights.Values, Subst;
    assert "" + Subst(r.Values(), buffer) == Subst(r.Values(), buffer);
    FirstToken(r, buffer);
    var p := buffer[..k];
    var left := if p in r.allowed then remaining - 1 else remaining;
    DrainSplits(r, buffer[k..], left);
    var d := Drain(r, buffer[k..], left);
    if d.Held? {
      Associate(r.Restore(p), d.out, Subst(r.Values(), d.buffer));
    }
  }

  /** A text that arrives whole is given out as the plain substitution, whatever it holds. */
  lemma OneShotText(r: Rights, s: string, remaining: int)
    ensures var o := Stream(r, "", remaining, [s]); o.Done? ==> o.out == Subst(r.Values(), s)
  {
    hide Drain, Budgeted, Parse, Rights.Values, Replace, Charges;
    assert "" + s == s && [s][1..] == [];
    DrainSplits(r, s, remaining);
    var d := Drain(r, s, remaining);
    if d.Held? {
      BudgetedMeans(r, Parse(d.buffer), d.remaining);
    }
  }

  predicate Fine(cost: bool, r: Rights, t: Parsed, back: nat) {
    if cost then Settled(r, t, back) else Steady(r, t, back)
  }

  function SuffixOf(w: string): (suffix: string)
    ensures suffix == "" || (|suffix| == SUFFIX_LENGTH && suffix <= w)
  {
    if StartsSuffix(w) then w[..SUFFIX_LENGTH] else ""
  }

  lemma PrependTwice(a: string, b: string, d: Drained)
    ensures PrependHeld(a, PrependHeld(b, d)) == PrependHeld(a + b, d)
  {
    if d.Held? {
      Associate(a, b, d.out);
    }
  }

  lemma DrainPlain(r: Rights, c: char, s: string, remaining: int)
    requires c != '['
    ensures Drain(r, [c] + s, remaining) == PrependHeld([c], Drain(r, s, remaining))
  {
    hide DrainAt;
    var t := [c] + s;
    assert t[1..] == s;
    var i := IndexOfBracket(s);
    assert IndexOfBracket(t) == 1 + i;
    if i < |s| {
      assert t[..1 + i] == [c] + s[..i] && t[1 + i..] == s[i..];
      PrependTwice([c], s[..i], DrainAt(r, s[i..], remaining));
    }
  }

  /** A `[` that starts no placeholder is let go once 37 characters are there to show it. */
  lemma DrainStray(r: Rights, pre: string, w: string, remaining: int)
    requires |pre| >= MAX_PLACEHOLDER && pre[0] == '[' && BaseLen(pre + w) == 0
    ensures Drain(r, pre, remaining) == PrependHeld("[", Drain(r, pre[1..], remaining))
  {
    hide BaseLen, TokenLen, Drain;
    BaseLenLocal(pre, w);
    assert Drain(r, pre, remaining) == DrainAt(r, pre, remaining) by { DrainOpens(r, pre, remaining); }
  }

  lemma DrainOpens(r: Rights, buffer: string, remaining: int)
    requires buffer != "" && buffer[0] == '['
    ensures Drain(r, buffer, remaining) == DrainAt(r, buffer, remaining)
  {
    hide DrainAt;
    assert buffer[0..] == buffer;
  }

  /** A placeholder with a later `[` in the buffer is resolved as the whole text has it. */
  lemma DrainSeen(r: Rights, pre: string, w: string, remaining: int)
    requires var k := TokenLen(pre + w); 0 < k <= |pre| && '[' in pre[k..]
    ensures var k := TokenLen(pre + w);
            && pre[..k] == (pre + w)[..k]
            && Drain(r, pre, remaining) == DrainResolved(r, pre, k, remaining)
  {
    hide BaseLen, TokenLen, DrainResolved, Drain;
    TokenSeen(pre, w);
    var n, k := BaseLen(pre), TokenLen(pre);
    assert pre[..k] == (pre + w)[..k];
    assert k == n ==> !SuffixPending(pre[n..]);
    DrainOpens(r, pre, remaining);
  }

  lemma TokenSeen(pre: string, w: string)
    requires 0 < TokenLen(pre + w) <= |pre|
    ensures BaseLen(pre) == BaseLen(pre + w) && TokenLen(pre) == TokenLen(pre + w)
  {
    hide BaseLen;
    BaseLenLocal(pre, w);
    var n := BaseLen(pre);
    if n + SUFFIX_LENGTH <= |pre| {
      assert pre[n..n + SUFFIX_LENGTH] == (pre + w)[n..n + SUFFIX_LENGTH];
    }
  }

  /** A place to cut a text: `pre + w`, the end of `pre` being the base `b`. */
  datatype Cut = Cut(pre: string, b: string, w: string, text: string, paid: nat, at: nat)

  function Behind(w: string): string {
    w[|SuffixOf(w)|..]
  }

  /** The placeholder of `b` is the last one in the text that is not fine. */
  ghost predicate CutBad(cost: bool, r: Rights, b: string, w: string, at: nat) {
    && (if cost then !SettledToken(r, b, SuffixOf(w)) else !SteadyToken(r, b, SuffixOf(w)))
    && at >= MAX_PLACEHOLDER && Fine(cost, r, Parse(w), at)
    && 0 < BaseLen(b) == |b| && b[0] == '['
  }

  ghost predicate CutShape(s: string, back: nat, c: Cut) {
    && s == c.pre + c.w && IsTail(c.b, c.pre)
    && |c.pre| + back >= MAX_PLACEHOLDER && c.paid + |c.b| <= |c.pre|
  }

  /** Pushed up to there, the parser has given out `text` and paid `paid`, and faces `b` alone. */
  ghost predicate CutDrain(r: Rights, s: string, c: Cut) {
    forall remaining | remaining > |s| ::
      Drain(r, c.pre, remaining) == PrependHeld(c.text, Drain(r, c.b, remaining - c.paid))
  }

  /** So far the reference gives out the same. */
  ghost predicate CutText(r: Rights, s: string, c: Cut) {
    Subst(r.Values(), s) == c.text + (r.Restore(c.b + SuffixOf(c.w)) + Subst(r.Values(), Behind(c.w)))
  }

  /** And it pays the same. */
  ghost predicate CutCost(r: Rights, s: string, c: Cut) {
    Charges(r, Parse(s)) == c.paid + Due(r, c.b + SuffixOf(c.w)) + Charges(r, Parse(Behind(c.w)))
  }

  function Due(r: Rights, p: string): nat {
    if p in r.allowed then 1 else 0
  }

  ghost predicate IsCut(cost: bool, r: Rights, s: string, back: nat, c: Cut) {
    && CutBad(cost, r, c.b, c.w, c.at) && CutShape(s, back, c)
    && CutDrain(r, s, c) && CutText(r, s, c) && CutCost(r, s, c)
  }

  lemma {:induction false} CutBehind(cost: bool, r: Rights, s: string, back: nat) returns (c: Cut)
    requires !Fine(cost, r, Parse(s), back)
    ensures IsCut(cost, r, s, back, c)
    decreases |s|
  {
    hide BaseLen, TokenLen, IsCut;
    var k := TokenLen(s);
    if k == 0 {
      var next := if s[0] == '[' then 1 else back + 1;
      c := CutBehind(cost, r, s[1..], next);
      c := CutBehindPlain(cost, r, s, back, c);
    } else if !Fine(cost, r, Parse(s[k..]), back + k) {
      c := CutBehind(cost, r, s[k..], back + k);
      c := CutBehindSeen(cost, r, s, back, c);
    } else {
      c := CutHere(cost, r, s, back);
    }
  }

  lemma CutHere(cost: bool, r: Rights, s: string, back: nat) returns (c: Cut)
    requires var k := TokenLen(s); 0 < k && Fine(cost, r, Parse(s[k..]), back + k)
    requires !Fine(cost, r, Parse(s), back)
    ensures IsCut(cost, r, s, back, c)
  {
    hide BaseLen, TokenLen, Drain, Rights.Values, IsSuffix, SteadyToken, SettledToken, StartsSuffix, Fine, Parse,
         Subst, Charges, SuffixOf, Behind;
    var n, k := BaseLen(s), TokenLen(s);
    var b, w := s[..n], s[n..];
    c := Cut(b, b, w, "", 0, back + n);
    assert s == b + w;
    BaseLenLocal(b, w);
    TokenBehindBase(b, w);
    assert Fine(cost, r, Parse(Behind(w)), back + n + |SuffixOf(w)|);
    LastBad(cost, r, b, SuffixOf(w), Parse(Behind(w)), back);
    FineBehind(cost, r, w, back + n);
    assert CutShape(s, back, c) by { assert b[0..] == b; }
    FirstToken(r, s);
  }

  lemma TokenBehindBase(b: string, w: string)
    requires 0 < BaseLen(b) == |b|
    ensures TokenLen(b + w) == |b| + |SuffixOf(w)|
    ensures (b + w)[..|b| + |SuffixOf(w)|] == b + SuffixOf(w)
    ensures (b + w)[|b| + |SuffixOf(w)|..] == Behind(w)
    ensures Parse(b + w) == Token(b, SuffixOf(w), Parse(Behind(w)))
  {
    hide BaseLen, IsSuffix;
    HeadWholeBase(b, w);
    BaseLenLocal(b, w);
    var s, n := b + w, |b|;
    if |w| >= SUFFIX_LENGTH {
      assert s[n..n + SUFFIX_LENGTH] == w[..SUFFIX_LENGTH];
    }
  }

  lemma LastBad(cost: bool, r: Rights, base: string, suffix: string, rest: Parsed, back: nat)
    requires !Fine(cost, r, Token(base, suffix, rest), back)
    requires Fine(cost, r, rest, back + |base| + |suffix|)
    ensures back + |base| >= MAX_PLACEHOLDER
    ensures if cost then !SettledToken(r, base, suffix) else !SteadyToken(r, base, suffix)
  {
    hide SettledToken, SteadyToken;
  }

  lemma FineBehind(cost: bool, r: Rights, w: string, at: nat)
    requires Fine(cost, r, Parse(Behind(w)), at + |SuffixOf(w)|)
    ensures Fine(cost, r, Parse(w), at)
  {
    hide Parse, Settled, Steady, IsSuffix;
    if StartsSuffix(w) {
      SuffixIsChars(w);
      CharsKeep(r, w[..SUFFIX_LENGTH], Parse(w[SUFFIX_LENGTH..]), at);
    }
  }

  /** One character, or one placeholder, at the front of a text. */
  lemma FirstChar(r: Rights, s: string)
    requires s != "" && TokenLen(s) == 0
    ensures Subst(r.Values(), s) == [s[0]] + Subst(r.Values(), s[1..])
    ensures Charges(r, Parse(s)) == Charges(r, Parse(s[1..]))
  {
    hide BaseLen, TokenLen, Rights.Values;
  }

  lemma FirstToken(r: Rights, s: string)
    requires TokenLen(s) > 0
    ensures var k := TokenLen(s);
            && Subst(r.Values(), s) == r.Restore(s[..k]) + Subst(r.Values(), s[k..])
            && Charges(r, Parse(s)) == Due(r, s[..k]) + Charges(r, Parse(s[k..]))
  {
    hide BaseLen, TokenLen, Rights.Values;
    var n, k := BaseLen(s), TokenLen(s);
    assert s[..n] + s[n..k] == s[..k];
    RestoreLooksUp(r, s[..k]);
  }

  lemma CutBehindPlain(cost: bool, r: Rights, s: string, back: nat, tail: Cut) returns (c: Cut)
    requires s != "" && TokenLen(s) == 0
    requires IsCut(cost, r, s[1..], if s[0] == '[' then 1 else back + 1, tail)
    ensures IsCut(cost, r, s, back, c)
  {
    hide BaseLen, TokenLen, Drain, Rights.Values, Rights.Restore, SuffixOf, Behind, CutBad, IsTail, Parse, Subst,
         Charges;
    var head := [s[0]];
    c := tail.(pre := head + tail.pre, text := head + tail.text);
    assert s == head + s[1..] == c.pre + c.w;
    assert c.pre[1..] == tail.pre;
    TailOfTail(c.b, c.pre, 1);
    FirstChar(r, s);
    forall remaining | remaining > |s|
      ensures Drain(r, c.pre, remaining) == PrependHeld(c.text, Drain(r, c.b, remaining - c.paid))
    {
      if s[0] == '[' {
        DrainStray(r, c.pre, c.w, remaining);
      } else {
        DrainPlain(r, s[0], tail.pre, remaining);
      }
      PrependTwice(head, tail.text, Drain(r, c.b, remaining - c.paid));
    }
    Associate(head, tail.text, r.Restore(c.b + SuffixOf(c.w)) + Subst(r.Values(), Behind(c.w)));
  }

  lemma CutBehindSeen(cost: bool, r: Rights, s: string, back: nat, tail: Cut) returns (c: Cut)
    requires TokenLen(s) > 0
    requires var k := TokenLen(s); IsCut(cost, r, s[k..], back + k, tail)
    ensures IsCut(cost, r, s, back, c)
  {
    hide BaseLen, TokenLen, Drain, Rights.Values, SuffixOf, Behind, Parse, Subst, Charges, Rights.Restore, CutBad;
    var k := TokenLen(s);
    var p := s[..k];
    c := tail.(pre := p + tail.pre, text := r.Restore(p) + tail.text, paid := Due(r, p) + tail.paid);
    assert s == p + s[k..] == c.pre + c.w;
    assert c.pre[k..] == tail.pre;
    TailOfTail(c.b, c.pre, k);
    FirstToken(r, s);
    TailSeen(cost, r, tail);
    forall remaining | remaining > |s|
      ensures Drain(r, c.pre, remaining) == PrependHeld(c.text, Drain(r, c.b, remaining - c.paid))
    {
      SeenDrains(r, p, tail, remaining);
    }
    Associate(r.Restore(p), tail.text, r.Restore(c.b + SuffixOf(c.w)) + Subst(r.Values(), Behind(c.w)));
  }

  /** A placeholder that is seen whole is given out before the rest is. */
  lemma SeenDrains(r: Rights, p: string, tail: Cut, remaining: int)
    requires TokenLen(p + tail.pre + tail.w) == |p| > 0 && '[' in tail.pre && remaining > Due(r, p)
    requires Drain(r, tail.pre, remaining - Due(r, p)) ==
             PrependHeld(tail.text, Drain(r, tail.b, remaining - Due(r, p) - tail.paid))
    ensures Drain(r, p + tail.pre, remaining) ==
            PrependHeld(r.Restore(p) + tail.text, Drain(r, tail.b, remaining - Due(r, p) - tail.paid))
  {
    hide BaseLen, TokenLen, Drain, Rights.Values, Rights.Restore;
    var pre, k := p + tail.pre, |p|;
    assert pre[..k] == p && pre[k..] == tail.pre;
    DrainSeen(r, pre, tail.w, remaining);
    PrependTwice(r.Restore(p), tail.text, Drain(r, tail.b, remaining - Due(r, p) - tail.paid));
  }

  lemma TailSeen(cost: bool, r: Rights, c: Cut)
    requires CutBad(cost, r, c.b, c.w, c.at) && IsTail(c.b, c.pre)
    ensures '[' in c.pre
  {
    hide BaseLen, Fine, SuffixOf;
    assert c.pre[|c.pre| - |c.b|] == c.b[0];
  }

  // ---- enough budget is never refused ----

  lemma {:induction false} ChargesBound(r: Rights, s: string)
    ensures Charges(r, Parse(s)) <= |s|
  {
    hide BaseLen, TokenLen;
    if s != "" {
      var k := TokenLen(s);
      if k == 0 {
        ChargesBound(r, s[1..]);
      } else {
        FirstToken(r, s);
        ChargesBound(r, s[k..]);
      }
    }
  }

  predicate Affords(buffer: string, remaining: int, d: Drained) {
    d.Held? && d.remaining >= remaining - |buffer|
  }

  lemma {:induction false} DrainAffords(r: Rights, buffer: string, remaining: int)
    requires remaining >= |buffer|
    ensures Affords(buffer, remaining, Drain(r, buffer, remaining))
    decreases |buffer|, 1
  {
    hide DrainAt;
    var opening := IndexOfBracket(buffer);
    if opening < |buffer| {
      DrainAtAffords(r, buffer[opening..], remaining);
    }
  }

  lemma {:induction false} DrainAtAffords(r: Rights, buffer: string, remaining: int)
    requires remaining >= |buffer| && buffer != "" && buffer[0] == '['
    ensures Affords(buffer, remaining, DrainAt(r, buffer, remaining))
    decreases |buffer|, 0
  {
    hide Drain, BaseLen, TokenLen, Rights.Restore, SuffixPending;
    var k := TokenLen(buffer);
    if k == 0 {
      DrainAffords(r, buffer[1..], remaining);
    } else {
      DrainAffords(r, buffer[k..], remaining - Due(r, buffer[..k]));
    }
  }

  // ---- the main results ----

  lemma JoinCut(pre: string, w: string)
    ensures Join([pre, w]) == pre + w
    ensures Join([pre, "", w]) == pre + w
  {
    var two, three := [pre, w], [pre, "", w];
    assert two[1..] == [w] && three[1..] == ["", w] && three[1..][1..] == [w] && [w][1..] == [];
    assert Join([w]) == w + "" == w;
    assert Join(["", w]) == "" + w == w;
  }

  /** A base that stays as it is and is charged for can be charged for again by an empty chunk. */
  lemma CutTwice(r: Rights, s: string, c: Cut, remaining: int)
    requires IsCut(true, r, s, MAX_PLACEHOLDER, c) && remaining > |s| + 2
    requires c.b in r.allowed && r.Restore(c.b) == c.b
    ensures Join([c.pre, "", c.w]) == s == Join([c.pre, c.w])
    ensures Stream(r, "", remaining, [c.pre, "", c.w]) == Stream(r, "", remaining - 1, [c.pre, c.w])
  {
    hide BaseLen, TokenLen, SettledToken, Parse, Settled, IsTail, CutText, CutCost, Budgeted, Drain;
    var left := remaining - c.paid;
    HeldBase(r, c.b, left);
    HeldBase(r, c.b, left - 1);
    assert "" + c.pre == c.pre && c.b + "" == c.b;
    JoinCut(c.pre, c.w);
    var three, two := [c.pre, "", c.w], [c.pre, c.w];
    assert three[1..] == ["", c.w] && three[1..][1..] == [c.w] && two[1..] == [c.w];
    assert Drain(r, c.pre, remaining) == Held(c.text + "", c.b, left - 1);
    assert Drain(r, c.pre, remaining - 1) == Held(c.text + "", c.b, left - 2);
    assert Drain(r, c.b, left - 1) == Held("", c.b, left - 2);
    var o := Stream(r, c.b, left - 2, [c.w]);
    assert Stream(r, c.b, left - 1, ["", c.w]) == Prepend("", o);
    assert Prepend("", o) == o;
  }

  lemma HeldBase(r: Rights, b: string, remaining: int)
    requires 0 < BaseLen(b) == |b| && b[0] == '[' && b in r.allowed && remaining > 0
    ensures Drain(r, b, remaining) ==
            if r.Restore(b) == b then Held("", b, remaining - 1) else Held(r.Restore(b), "", remaining - 1)
  {
    hide BaseLen, TokenLen, Rights.Restore;
    DrainOpens(r, b, remaining);
    assert b[..|b|] == b && b[|b|..] == "";
    assert !SuffixPending(b[|b|..]);
    assert TokenLen(b) == |b|;
    assert r.Restore(b) + "" == r.Restore(b);
    assert Drain(r, "", remaining - 1) == Held("", "", remaining - 1);
  }

  /** A base that is resolved when nothing follows it yet, though a suffix does follow. */
  lemma CutEarly(cost: bool, r: Rights, s: string, c: Cut, remaining: int)
    requires IsCut(cost, r, s, MAX_PLACEHOLDER, c) && remaining > 3 * |s|
    requires c.b in r.allowed && r.Restore(c.b) != c.b
    ensures Join([c.pre, c.w]) == s
    ensures var o := Stream(r, "", remaining, [c.pre, c.w]);
            && o.Done? && o.out == c.text + (r.Restore(c.b) + Subst(r.Values(), c.w))
            && (cost ==> o.remaining == remaining - c.paid - 1 - Charges(r, Parse(c.w)))
  {
    hide BaseLen, TokenLen, SettledToken, SteadyToken, Parse, Settled, Steady, CutText, CutCost, Budgeted,
         Drain, Subst, Charges, Rights.Restore, Rights.Values, SuffixOf;
    var left := remaining - c.paid - 1;
    HeldBase(r, c.b, remaining - c.paid);
    var two := [c.pre, c.w];
    assert two[1..] == [c.w] && [c.w][1..] == [] && "" + c.pre == c.pre && "" + c.w == c.w;
    DrainAffords(r, c.w, left);
    var d := Drain(r, c.w, left);
    DrainHolds(r, c.w, left);
    ChargesBound(r, d.buffer);
    BudgetedMeans(r, Parse(d.buffer), d.remaining);
    JoinCut(c.pre, c.w);
    assert Stream(r, d.buffer, d.remaining, []).Done?;
    assert Stream(r, "", left, [c.w]).Done?;
    assert Join([c.w]) == c.w + "" == c.w;
    assert "" + Join([c.w]) == c.w;
    StreamKeeps(r, "", left, [c.w], c.at);
    if cost {
      SettledIsSteady(r, Parse(c.w), c.at);
      BudgetedMeans(r, Parse(c.w), left);
    }
    Associate(c.text, r.Restore(c.b), Subst(r.Values(), c.w));
  }

  lemma SubstBehind(r: Rights, w: string)
    ensures Subst(r.Values(), w) == SuffixOf(w) + Subst(r.Values(), Behind(w))
    ensures Charges(r, Parse(w)) == Charges(r, Parse(Behind(w)))
  {
    hide Parse, IsSuffix, Rights.Values;
    if StartsSuffix(w) {
      SuffixIsChars(w);
      ReplaceChars(r.Values(), w[..SUFFIX_LENGTH], Parse(w[SUFFIX_LENGTH..]));
      CharsKeep(r, w[..SUFFIX_LENGTH], Parse(w[SUFFIX_LENGTH..]), 0);
    }
  }

  /**
   A text gives, under every way of cutting it into chunks and with every budget, the one-shot outcome -
   text, charges and limit error alike - if and only if it is settled.
   */
  lemma ChunkInvariance(r: Rights, s: string)
    ensures (forall chunks, remaining | Join(chunks) == s ::
               Stream(r, "", remaining, chunks) == Budgeted(r, Parse(s), remaining))
            <==> Settled(r, Parse(s), MAX_PLACEHOLDER)
  {
    hide Parse, Steady, Settled, Stream, Subst, Rights.Values, Join;
    if Settled(r, Parse(s), MAX_PLACEHOLDER) {
      forall chunks, remaining | Join(chunks) == s
        ensures Stream(r, "", remaining, chunks) == Budgeted(r, Parse(s), remaining)
      {
        assert "" + Join(chunks) == s;
        StreamKeeps(r, "", remaining, chunks, MAX_PLACEHOLDER);
      }
    } else {
      var chunks, remaining := CutShows(r, s);
    }
  }

  /** A text that is not settled is cut so that the outcome differs. */
  lemma CutShows(r: Rights, s: string) returns (chunks: seq<string>, remaining: int)
    requires !Settled(r, Parse(s), MAX_PLACEHOLDER)
    ensures Join(chunks) == s && Stream(r, "", remaining, chunks) != Budgeted(r, Parse(s), remaining)
  {
    hide Parse, Settled, Steady, Stream, Budgeted, Drain, BaseLen, Charges, Rights.Values, SuffixOf, Join;
    remaining := 3 * |s| + 4;
    var c := CutBehind(true, r, s, MAX_PLACEHOLDER);
    ChargesBound(r, s);
    BudgetedMeans(r, Parse(s), remaining);
    chunks := [c.pre, c.w];
    if r.Restore(c.b) != c.b {
      CutEarly(true, r, s, c, remaining);
      SubstBehind(r, c.w);
      if r.Restore(c.b) + SuffixOf(c.w) != r.Restore(c.b + SuffixOf(c.w)) {
        CutDiffers(r, s, c);
      }
    } else {
      CutTwice(r, s, c, remaining);
      BudgetedMeans(r, Parse(s), remaining - 1);
      if Stream(r, "", remaining - 1, chunks) != Budgeted(r, Parse(s), remaining - 1) {
        remaining := remaining - 1;
      } else {
        chunks := [c.pre, "", c.w];
      }
    }
  }

  lemma CutDiffers(r: Rights, s: string, c: Cut)
    requires CutText(r, s, c) && r.Restore(c.b) + SuffixOf(c.w) != r.Restore(c.b + SuffixOf(c.w))
    ensures c.text + (r.Restore(c.b) + Subst(r.Values(), c.w)) != Subst(r.Values(), s)
  {
    hide Subst, SuffixOf, Rights.Values, Rights.Restore;
    SubstBehind(r, c.w);
    var rest := Subst(r.Values(), Behind(c.w));
    Associate(r.Restore(c.b), SuffixOf(c.w), rest);
    SameEnd(c.text, r.Restore(c.b) + SuffixOf(c.w), r.Restore(c.b + SuffixOf(c.w)), rest);
  }

  lemma SameEnd(a: string, b: string, c: string, d: string)
    ensures a + (b + d) == a + (c + d) ==> b == c
  {
    var x, y := a + (b + d), a + (c + d);
    if x == y {
      assert |b| == |c|;
      assert x[|a|..|a| + |b|] == b && y[|a|..|a| + |c|] == c;
    }
  }

  /**
   Whatever the budget, every stream that is not refused gives out the plain substitution, however the
   text was cut, if and only if the text is steady.
   */
  lemma ChunkInvarianceOfText(r: Rights, s: string)
    ensures (forall chunks, remaining | Join(chunks) == s && Stream(r, "", remaining, chunks).Done? ::
               Stream(r, "", remaining, chunks).out == Subst(r.Values(), s))
            <==> Steady(r, Parse(s), MAX_PLACEHOLDER)
  {
    hide Parse, Steady, Settled, Stream, Subst, Rights.Values, SuffixOf, Join, BaseLen, Drain;
    if Steady(r, Parse(s), MAX_PLACEHOLDER) {
      forall chunks, remaining | Join(chunks) == s && Stream(r, "", remaining, chunks).Done?
        ensures Stream(r, "", remaining, chunks).out == Subst(r.Values(), s)
      {
        assert "" + Join(chunks) == s;
        StreamKeeps(r, "", remaining, chunks, MAX_PLACEHOLDER);
      }
    } else {
      var remaining := 3 * |s| + 4;
      var c := CutBehind(false, r, s, MAX_PLACEHOLDER);
      CutEarly(false, r, s, c, remaining);
      CutDiffers(r, s, c);
    }
  }

  // ---- what a whole text costs ----

  /** A push that goes through under one budget goes through under every budget that covers what it cost. */
  lemma {:induction false} DrainCosts(r: Rights, buffer: string, a: int, b: int)
    requires Drain(r, buffer, a).Held?
    ensures var d := Drain(r, buffer, a);
            var n := a - d.remaining;
            && n >= 0 && (n == 0 || n <= a)
            && (n == 0 || n <= b ==> Drain(r, buffer, b) == Held(d.out, d.buffer, b - n))
    decreases |buffer|, 1
  {
    hide DrainAt;
    var opening := IndexOfBracket(buffer);
    if opening < |buffer| {
      DrainAtCosts(r, buffer[opening..], a, b);
    }
  }

  lemma {:induction false} DrainAtCosts(r: Rights, buffer: string, a: int, b: int)
    requires buffer != "" && buffer[0] == '[' && DrainAt(r, buffer, a).Held?
    ensures var d := DrainAt(r, buffer, a);
            var n := a - d.remaining;
            && n >= 0 && (n == 0 || n <= a)
            && (n == 0 || n <= b ==> DrainAt(r, buffer, b) == Held(d.out, d.buffer, b - n))
    decreases |buffer|, 0
  {
    hide Drain, BaseLen, TokenLen, Rights.Restore, SuffixPending;
    var n, k := BaseLen(buffer), TokenLen(buffer);
    if k == 0 {
      if |buffer| >= MAX_PLACEHOLDER {
        DrainCosts(r, buffer[1..], a, b);
      }
    } else if k > n || !SuffixPending(buffer[n..]) {
      var p := buffer[..k];
      var due := Due(r, p);
      if !(r.Restore(p) == p && k == |buffer| && BaseLen(buffer) == k) {
        DrainCosts(r, buffer[k..], a - due, b - due);
      }
    }
  }

  /** What one-shot unmasking of a text charges. */
  function Cost(r: Rights, s: string): nat {
    var enough := 2 * |s|;
    var o := Stream(r, "", enough, [s]);
    if o.Done? && o.remaining <= enough then enough - o.remaining else 0
  }

  lemma OneShotSteps(r: Rights, s: string, remaining: int)
    ensures Stream(r, "", remaining, [s]) ==
            var d := Drain(r, s, remaining);
            if d.Refused? then Limit else Prepend(d.out, Budgeted(r, Parse(d.buffer), d.remaining))
  {
    hide Drain, Budgeted, Parse;
    assert "" + s == s && [s][1..] == [];
  }

  lemma OneShotShift(r: Rights, s: string, a: int, b: int)
    requires Stream(r, "", a, [s]).Done?
    ensures var o := Stream(r, "", a, [s]);
            var n := a - o.remaining;
            && n >= 0 && (n == 0 || n <= a)
            && (n == 0 || n <= b ==> Stream(r, "", b, [s]) == Done(o.out, b - n))
  {
    hide Drain, Budgeted, Parse, Stream, Charges, Rights.Values, Replace;
    OneShotSteps(r, s, a);
    OneShotSteps(r, s, b);
    DrainCosts(r, s, a, b);
    var d := Drain(r, s, a);
    BudgetedMeans(r, Parse(d.buffer), d.remaining);
    BudgetedMeans(r, Parse(d.buffer), b - (a - d.remaining));
  }

  lemma OneShotAffords(r: Rights, s: string)
    ensures Stream(r, "", 2 * |s|, [s]).Done?
  {
    hide Drain, Budgeted, Parse, Stream, Charges;
    OneShotSteps(r, s, 2 * |s|);
    DrainAffords(r, s, 2 * |s|);
    DrainHolds(r, s, 2 * |s|);
    var d := Drain(r, s, 2 * |s|);
    ChargesBound(r, d.buffer);
    BudgetedMeans(r, Parse(d.buffer), d.remaining);
  }

  /** Unmasking a whole text fails exactly when the budget does not cover its cost. */
  lemma OneShotCosts(r: Rights, s: string, remaining: int)
    ensures Stream(r, "", remaining, [s]) ==
            if Cost(r, s) == 0 || Cost(r, s) <= remaining
            then Done(Subst(r.Values(), s), remaining - Cost(r, s)) else Limit
  {
    hide Stream, Subst, Rights.Values;
    OneShotAffords(r, s);
    OneShotShift(r, s, 2 * |s|, remaining);
    OneShotText(r, s, 2 * |s|);
    if Stream(r, "", remaining, [s]).Done? {
      OneShotShift(r, s, remaining, 2 * |s|);
    }
  }

  // ---- it happens ----

  /** A suffixed placeholder cut behind its base: the base is restored, though only the two together stand there. */
  lemma CutBeforeSuffix(p: string, suffix: string, v: string)
    requires IsBase(p) && IsSuffix(suffix) && v != p
    ensures var r := Rights({p}, map[p := v]);
            && Stream(r, "", 1, [p + suffix]) == Done(p + suffix, 1)
            && Stream(r, "", 1, [p, suffix]) == Done(v + suffix, 0)
  {
    hide IsBase, IsSuffix, Drain, DrainAt, BaseLen, Parse;
    var r, s := Rights({p}, map[p := v]), p + suffix;
    BaseShape(p);
    SuffixShape(suffix);
    SuffixPasses(r, p, suffix);
    HeldBase(r, p, 1);
    SuffixHolds(r, suffix, 0);
    assert Parse("") == End by { NothingParses(); }
    assert [s][1..] == [] && [p, suffix][1..] == [suffix] && [suffix][1..] == [];
    assert "" + s == s && "" + p == p && "" + suffix == suffix;
    assert s + "" == s && v + (suffix + "") == v + suffix;
    assert Stream(r, "", 1, []) == Done("", 1) && Stream(r, "", 0, []) == Done("", 0);
    assert Stream(r, "", 0, [suffix]) == Done(suffix + "", 0);
  }

  lemma NothingParses()
    ensures Parse("") == End
  {
  }

  lemma SuffixPasses(r: Rights, p: string, suffix: string)
    requires IsBase(p) && IsSuffix(suffix) && p + suffix !in r.allowed
    ensures Drain(r, p + suffix, 1) == Held(p + suffix, "", 1)
  {
    hide IsBase, IsSuffix, Drain, BaseLen, TokenLen;
    var s := p + suffix;
    BaseShape(p);
    SuffixShape(suffix);
    BaseLenLocal(p, suffix);
    TokenLenOfToken(p, suffix);
    DrainOpens(r, s, 1);
    assert s[..|s|] == s && s[|s|..] == "";
    assert Drain(r, "", 1) == Held("", "", 1) by { NothingDrains(r, 1); }
    assert s + "" == s;
  }

  lemma NothingDrains(r: Rights, remaining: int)
    ensures Drain(r, "", remaining) == Held("", "", remaining)
  {
  }

  lemma SuffixShape(suffix: string)
    requires IsSuffix(suffix)
    ensures |suffix| == SUFFIX_LENGTH && StartsSuffix(suffix) && forall j :: 0 <= j < |suffix| ==> suffix[j] != '['
  {
    assert suffix[..SUFFIX_LENGTH] == suffix;
  }

  lemma SuffixHolds(r: Rights, suffix: string, remaining: int)
    requires IsSuffix(suffix)
    ensures Drain(r, suffix, remaining) == Held(suffix, "", remaining)
  {
    hide IsSuffix, DrainAt;
    SuffixShape(suffix);
    assert IndexOfBracket(suffix) == |suffix|;
  }

  /** An allowed placeholder that the vault does not know is paid for with every call that finds it waiting. */
  lemma PaidAgain(p: string)
    requires IsBase(p)
    ensures var r := Rights({p}, map[]);
            && Budgeted(r, Parse(p), 1) == Done(p, 0)
            && Stream(r, "", 1, [p]) == Limit && Stream(r, "", 2, [p]) == Done(p, 0)
            && Stream(r, "", 2, [p, ""]) == Limit
  {
    hide IsBase, Drain, BaseLen, Parse, Budgeted;
    var r := Rights({p}, map[]);
    BaseShape(p);
    assert "" + p == p && p + "" == p;
    assert [p][1..] == [] && [p, ""][1..] == [""] && [""][1..] == [];
    HeldBase(r, p, 1);
    HeldBase(r, p, 2);
    ParseToken(p, "");
    assert p[..|p|] == p && p[|p|..] == "";
    OnePaid(r, p, 0);
    OnePaid(r, p, 1);
    RefusedBase(r, p);
    assert Stream(r, p, 1, [""]) == Prepend("", Stream(r, p, 0, []));
  }

  lemma RefusedBase(r: Rights, p: string)
    requires IsBase(p) && p in r.allowed
    ensures Drain(r, p, 0) == Refused(p)
  {
    hide IsBase, BaseLen, TokenLen;
    BaseShape(p);
    assert TokenLen(p) == |p|;
    DrainOpens(r, p, 0);
    assert p[..|p|] == p && p[|p|..] == "";
  }

  lemma OnePaid(r: Rights, p: string, remaining: int)
    requires r == Rights({p}, map[]) && Parse(p) == Token(p, "", Parse(""))
    ensures Budgeted(r, Parse(p), remaining) == if remaining <= 0 then Limit else Done(p, remaining - 1)
  {
    assert p + "" == p;
    NothingParses();
  }

  /** Both happen to `[KISI_1]`. */
  lemma CutShowsAtKisi(suffix: string)
    requires IsSuffix(suffix)
    ensures var r := Rights({"[KISI_1]"}, map["[KISI_1]" := "Ada"]);
            && Stream(r, "", 1, ["[KISI_1]" + suffix]) == Done("[KISI_1]" + suffix, 1)
            && Stream(r, "", 1, ["[KISI_1]", suffix]) == Done("Ada" + suffix, 0)
    ensures var r := Rights({"[KISI_1]"}, map[]);
            && Budgeted(r, Parse("[KISI_1]"), 1) == Done("[KISI_1]", 0)
            && Stream(r, "", 1, ["[KISI_1]"]) == Limit && Stream(r, "", 2, ["[KISI_1]"]) == Done("[KISI_1]", 0)
            && Stream(r, "", 2, ["[KISI_1]", ""]) == Limit
  {
    hide IsBase, IsSuffix, Stream, Budgeted, Parse;
    Kisi("1");
    assert "[KISI_" + "1" + "]" == "[KISI_1]";
    CutBeforeSuffix("[KISI_1]", suffix, "Ada");
    PaidAgain("[KISI_1]");
  }
}
