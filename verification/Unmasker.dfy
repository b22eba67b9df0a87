/**
 The restorer objects of the gateway: an authorization that a whole response shares, and the streaming
 unmasker that keeps a buffer between chunks.
 */
module Unmasker {
  import opened Placeholder
  import opened Streaming
  import opened Wrappers

  // ---- the shared budget, as a ledger ----

  /** What has happened to an authorization: the vault lookups made and the times the limit was reported. */
  datatype Ledger = Ledger(remaining: int, limitReported: bool, asked: seq<string>, reports: nat)

  /** One resolution by whichever restorer: it runs to the vault lookup without giving way. */
  function Resolution(allowed: set<string>, l: Ledger, p: string): Ledger {
    if p !in allowed then l
    else if l.remaining <= 0 then
      l.(limitReported := true, reports := if l.limitReported then l.reports else l.reports + 1)
    else l.(remaining := l.remaining - 1, asked := l.asked + [p])
  }

  /** Any interleaving of restorers sharing the authorization is, for the budget, a sequence of resolutions. */
  function Resolutions(allowed: set<string>, l: Ledger, calls: seq<string>): Ledger
    decreases |calls|
  {
    if calls == [] then l
    else Resolutions(allowed, Resolution(allowed, l, calls[0]), calls[1..])
  }

  /** The calls that count. */
  function Counted(allowed: set<string>, calls: seq<string>): seq<string> {
    if calls == [] then []
    else if calls[0] in allowed then [calls[0]] + Counted(allowed, calls[1..])
    else Counted(allowed, calls[1..])
  }

  /** Of the counted calls the vault sees the first ones, as many as were granted; more are reported once. */
  lemma {:induction false} BudgetExact(allowed: set<string>, granted: int, calls: seq<string>)
    ensures var l := Resolutions(allowed, Ledger(granted, false, [], 0), calls);
            var counted := Counted(allowed, calls);
            var n := if granted < 0 then 0 else if granted < |counted| then granted else |counted|;
            && l.asked == counted[..n]
            && l.remaining == granted - n
            && l.reports == (if n < |counted| then 1 else 0)
            && (forall p :: p in l.asked ==> p in allowed)
  {
    ResolutionsFrom(allowed, Ledger(granted, false, [], 0), calls);
    CountedAllowed(allowed, calls);
  }

  lemma {:induction false} CountedAllowed(allowed: set<string>, calls: seq<string>)
    ensures forall p :: p in Counted(allowed, calls) ==> p in allowed
  {
    if calls != [] {
      CountedAllowed(allowed, calls[1..]);
    }
  }

  lemma {:induction false} ResolutionsFrom(allowed: set<string>, l: Ledger, calls: seq<string>)
    requires l.limitReported ==> l.remaining <= 0
    ensures var e := Resolutions(allowed, l, calls);
            var counted := Counted(allowed, calls);
            var n := if l.remaining < 0 then 0 else if l.remaining < |counted| then l.remaining else |counted|;
            && e.asked == l.asked + counted[..n]
            && e.remaining == l.remaining - n
            && e.reports == l.reports + (if n < |counted| && !l.limitReported then 1 else 0)
    decreases |calls|
  {
    if calls != [] {
      var next := Resolution(allowed, l, calls[0]);
      ResolutionsFrom(allowed, next, calls[1..]);
    }
  }

  lemma {:induction false} ResolutionsThen(allowed: set<string>, l: Ledger, calls: seq<string>, p: string)
    ensures Resolutions(allowed, l, calls + [p]) == Resolution(allowed, Resolutions(allowed, l, calls), p)
    decreases |calls|
  {
    hide Resolution;
    var all := calls + [p];
    if calls == [] {
      assert all[1..] == [];
    } else {
      assert all[1..] == calls[1..] + [p];
      ResolutionsThen(allowed, Resolution(allowed, l, calls[0]), calls[1..], p);
    }
  }

  // ---- the objects ----

  class Authorization {
    const allowed: set<string>
    var remaining: int
    var limitReported: bool

    /** What was granted, every resolution made by any restorer, and what came of them. */
    ghost const granted: int
    ghost var calls: seq<string>
    ghost var asked: seq<string>
    ghost var reports: nat

    constructor (allowed: set<string>, granted: int)
      ensures this.allowed == allowed && this.granted == granted
      ensures Valid() && calls == [] && remaining == granted
    {
      this.allowed, this.granted := allowed, granted;
      remaining, limitReported := granted, false;
      calls, asked, reports := [], [], 0;
    }

    ghost function Account(): Ledger
      reads this
    {
      Ledger(remaining, limitReported, asked, reports)
    }

    /** Nothing but more resolutions since the calls were `before`. */
    ghost predicate Since(before: seq<string>)
      reads this
    {
      before <= calls
    }

    /** The account is what the resolutions so far come to, so `BudgetExact` speaks about it. */
    ghost predicate Valid()
      reads this
    {
      Account() == Resolutions(allowed, Ledger(granted, false, [], 0), calls)
    }
  }

  lemma SinceNow(a: Authorization)
    ensures a.Since(a.calls)
  {
  }

  class StreamingUnmasker {
    var buffer: string
    const vault: map<string, string>
    const authorization: Authorization

    constructor (vault: map<string, string>, authorization: Authorization)
      ensures this.vault == vault && this.authorization == authorization && buffer == ""
    {
      this.vault, this.authorization, buffer := vault, authorization, "";
    }

    function Grant(): Rights {
      Rights(authorization.allowed, vault)
    }

    method Resolve(p: string) returns (r: Result<string>)
      requires authorization.Valid()
      modifies authorization
      ensures authorization.Valid() && authorization.calls == old(authorization.calls) + [p]
      ensures forall before :: old(authorization.Since(before)) ==> authorization.Since(before)
      ensures r == if p !in authorization.allowed then Ok(p)
                   else if old(authorization.remaining) <= 0 then Err(LIMIT_EXCEEDED)
                   else if p in vault then Ok(vault[p]) else Ok(p)
      ensures r.Ok? ==> r.value == Grant().Restore(p)
      ensures authorization.remaining ==
              old(authorization.remaining) - (if r.Ok? && p in authorization.allowed then 1 else 0)
    {
      ResolutionsThen(authorization.allowed, Ledger(authorization.granted, false, [], 0), authorization.calls, p);
      authorization.calls := authorization.calls + [p];
      if p !in authorization.allowed {
        return Ok(p);
      }
      if authorization.remaining <= 0 {
        if !authorization.limitReported {
          authorization.limitReported := true;
          authorization.reports := authorization.reports + 1;
        }
        return Err(LIMIT_EXCEEDED);
      }
      authorization.remaining := authorization.remaining - 1;
      authorization.asked := authorization.asked + [p];
      r := Ok(if p in vault then vault[p] else p);
    }

    /** Gives out what `Drain` gives out and keeps what it keeps: a short tail of the input. */
    method Push(chunk: string) returns (r: Result<string>)
      requires authorization.Valid()
      modifies this`buffer, authorization
      ensures authorization.Valid() && authorization.Since(old(authorization.calls))
      ensures var d := Drain(Grant(), old(buffer) + chunk, old(authorization.remaining));
              && buffer == d.buffer
              && r == (if d.Held? then Ok(d.out) else Err(LIMIT_EXCEEDED))
              && (d.Held? ==> authorization.remaining == d.remaining)
      ensures IsTail(buffer, old(buffer) + chunk) && (r.Ok? ==> |buffer| < MAX_PLACEHOLDER)
    {
      hide BaseLen, TokenLen, SuffixPending, Rights.Restore, IsTail, Drain, IsSuffix, Resolution, DrainResolved,
           DrainAt, PrependHeld, Authorization.Valid, Authorization.Since, IndexOfBracket;
      SinceNow(authorization);
      buffer := buffer + chunk;
      ghost var input, budget := buffer, authorization.remaining;
      DrainHolds(Grant(), input, budget);
      var output := "";
      PrependNothing(Drain(Grant(), input, budget));
      while buffer != ""
        invariant authorization.Valid() && authorization.Since(old(authorization.calls))
        invariant Drain(Grant(), input, budget) == PrependHeld(output, Drain(Grant(), buffer, authorization.remaining))
        decreases |buffer|
      {
        var opening := IndexOfBracket(buffer);
        DrainSkips(Grant(), buffer, authorization.remaining, output);
        if opening == |buffer| {
          output := output + buffer;
          buffer := "";
          break;
        }
        output := output + buffer[..opening];
        buffer := buffer[opening..];
        DrainLooks(Grant(), buffer, authorization.remaining, output);
        var n, k := BaseLen(buffer), TokenLen(buffer);
        if k > n {
          DrainResolves(Grant(), buffer, k, authorization.remaining, output);
          r := Resolve(buffer[..k]);
          if r.Err? {
            return;
          }
          output := output + r.value;
          buffer := buffer[k..];
          continue;
        }
        if n > 0 {
          var base, remainder := buffer[..n], buffer[n..];
          if SuffixPending(remainder) {
            break;
          }
          DrainResolves(Grant(), buffer, n, authorization.remaining, output);
          r := Resolve(base);
          if r.Err? {
            return;
          }
          if r.value != base {
            output := output + r.value;
            buffer := remainder;
            continue;
          }
          if remainder == "" {
            break;
          }
          output := output + base;
          buffer := remainder;
          continue;
        }
        if |buffer| < MAX_PLACEHOLDER {
          break;
        }
        output := output + "[";
        buffer := buffer[1..];
      }
      DrainSkips(Grant(), "", authorization.remaining, output);
      assert output + "" == output;
      assert Drain(Grant(), input, budget) == Held(output, buffer, authorization.remaining);
      r := Ok(output);
    }

    /** Resolves what is left as a whole text. */
    method Finish() returns (r: Result<string>)
      requires authorization.Valid()
      modifies this`buffer, authorization
      ensures authorization.Valid() && authorization.Since(old(authorization.calls))
      ensures var o := Budgeted(Grant(), Parse(old(buffer)), old(authorization.remaining));
              && r == (if o.Done? then Ok(o.out) else Err(LIMIT_EXCEEDED))
              && buffer == (if o.Done? then "" else old(buffer))
              && (o.Done? ==> authorization.remaining == o.remaining)
    {
      hide BaseLen, TokenLen, Rights.Restore, Resolution, Authorization.Valid, Authorization.Since, Budgeted, Prepend,
           Parse;
      SinceNow(authorization);
      var output, cursor := "", 0;
      assert buffer[0..] == buffer;
      PrependNone(Budgeted(Grant(), Parse(buffer), authorization.remaining));
      while cursor < |buffer|
        invariant cursor <= |buffer| && buffer == old(buffer)
        invariant authorization.Valid() && authorization.Since(old(authorization.calls))
        invariant Budgeted(Grant(), Parse(old(buffer)), old(authorization.remaining)) ==
                  Prepend(output, Budgeted(Grant(), Parse(buffer[cursor..]), authorization.remaining))
      {
        var rest := buffer[cursor..];
        BudgetedStep(Grant(), rest, authorization.remaining, output);
        var k := TokenLen(rest);
        if k == 0 {
          output := output + rest[..1];
          assert rest[1..] == buffer[cursor + 1..];
          cursor := cursor + 1;
        } else {
          r := Resolve(rest[..k]);
          if r.Err? {
            return;
          }
          output := output + r.value;
          assert rest[k..] == buffer[cursor + k..];
          cursor := cursor + k;
        }
      }
      assert buffer[cursor..] == "";
      BudgetedNone(Grant(), authorization.remaining, output);
      buffer := "";
      r := Ok(output);
    }
  }

  /** One-shot unmasking of a whole text: a restorer fed with a single chunk. */
  method UnmaskText(text: string, vault: map<string, string>, authorization: Authorization)
    returns (r: Result<string>)
    requires authorization.Valid()
    modifies authorization
    ensures authorization.Valid()
    ensures var o := Stream(Rights(authorization.allowed, vault), "", old(authorization.remaining), [text]);
            && r == (if o.Done? then Ok(o.out) else Err(LIMIT_EXCEEDED))
            && (o.Done? ==> authorization.remaining == o.remaining)
    ensures r.Ok? ==> r.value == Subst(map p | p in authorization.allowed && p in vault :: vault[p], text)
  {
    hide Drain, Budgeted, Subst;
    OneShotText(Rights(authorization.allowed, vault), text, authorization.remaining);
    var unmasker := new StreamingUnmasker(vault, authorization);
    assert "" + text == text && [text][1..] == [];
    r := unmasker.Push(text);
    if r.Err? {
      return;
    }
    var output := r.value;
    r := unmasker.Finish();
    if r.Ok? {
      r := Ok(output + r.value);
    }
  }

  lemma PrependNone(o: Outcome)
    ensures Prepend("", o) == o
  {
  }

  lemma BudgetedNone(r: Rights, remaining: int, output: string)
    ensures Prepend(output, Budgeted(r, Parse(""), remaining)) == Done(output, remaining)
  {
    assert output + "" == output;
  }

  /** One step of the one-shot reference, with `output` already given out. */
  lemma BudgetedStep(r: Rights, s: string, remaining: int, output: string)
    requires s != ""
    ensures var k := TokenLen(s);
            Prepend(output, Budgeted(r, Parse(s), remaining)) ==
            if k == 0 then Prepend(output + s[..1], Budgeted(r, Parse(s[1..]), remaining))
            else if s[..k] in r.allowed && remaining <= 0 then Limit
            else Prepend(output + r.Restore(s[..k]),
                         Budgeted(r, Parse(s[k..]), if s[..k] in r.allowed then remaining - 1 else remaining))
  {
    hide BaseLen, TokenLen;
    var n, k := BaseLen(s), TokenLen(s);
    if k == 0 {
      PrependAgain(output, s[..1], Budgeted(r, Parse(s[1..]), remaining));
    } else {
      assert s[..n] + s[n..k] == s[..k];
      var left := if s[..k] in r.allowed then remaining - 1 else remaining;
      PrependAgain(output, r.Restore(s[..k]), Budgeted(r, Parse(s[k..]), left));
    }
  }

  lemma PrependAgain(a: string, b: string, o: Outcome)
    ensures Prepend(a, Prepend(b, o)) == Prepend(a + b, o)
  {
    if o.Done? {
      Associate(a, b, o.out);
    }
  }

  lemma PrependNothing(d: Drained)
    ensures PrependHeld("", d) == d
  {
  }

  /** The parser passes on what stands before the first `[`, with `output` already given out. */
  lemma DrainSkips(r: Rights, buffer: string, remaining: int, output: string)
    ensures var opening := IndexOfBracket(buffer);
            PrependHeld(output, Drain(r, buffer, remaining)) ==
            if opening == |buffer| then Held(output + buffer, "", remaining)
            else PrependHeld(output + buffer[..opening], DrainAt(r, buffer[opening..], remaining))
  {
    hide DrainAt;
    var opening := IndexOfBracket(buffer);
    if opening < |buffer| {
      PrependTwice(output, buffer[..opening], DrainAt(r, buffer[opening..], remaining));
    }
  }

  /** Then it looks at the `[`. */
  lemma DrainLooks(r: Rights, buffer: string, remaining: int, output: string)
    requires buffer != "" && buffer[0] == '['
    ensures var n, k := BaseLen(buffer), TokenLen(buffer);
            PrependHeld(output, DrainAt(r, buffer, remaining)) ==
            if k > n then PrependHeld(output, DrainResolved(r, buffer, k, remaining))
            else if n > 0 then
              if SuffixPending(buffer[n..]) then Held(output, buffer, remaining)
              else PrependHeld(output, DrainResolved(r, buffer, n, remaining))
            else if |buffer| < MAX_PLACEHOLDER then Held(output, buffer, remaining)
            else PrependHeld(output + "[", Drain(r, buffer[1..], remaining))
  {
    hide BaseLen, TokenLen, SuffixPending, DrainResolved, Drain;
    PrependTwice(output, "[", Drain(r, buffer[1..], remaining));
    assert output + "" == output;
  }

  /** One resolution inside a push, with `output` already given out. */
  lemma DrainResolves(r: Rights, buffer: string, n: nat, remaining: int, output: string)
    requires 0 < n <= |buffer|
    ensures var p, d := buffer[..n], PrependHeld(output, DrainResolved(r, buffer, n, remaining));
            var left := if p in r.allowed then remaining - 1 else remaining;
            d == (if p in r.allowed && remaining <= 0 then Refused(buffer)
                  else if r.Restore(p) == p && n == |buffer| && BaseLen(buffer) == n then Held(output, buffer, left)
                  else PrependHeld(output + r.Restore(p), Drain(r, buffer[n..], left)))
  {
    hide Drain, BaseLen, Rights.Restore;
    var p := buffer[..n];
    var left := if p in r.allowed then remaining - 1 else remaining;
    PrependTwice(output, r.Restore(p), Drain(r, buffer[n..], left));
    assert output + "" == output;
  }
}
