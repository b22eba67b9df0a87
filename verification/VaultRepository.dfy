/** The in-memory repository behind the encrypted vault: records, session keys and placeholder counters. */
module VaultRepository {
  import opened Placeholder
  import opened Decimal
  import opened Numbers
  import opened Taxonomy
  import opened OrderedMap
  import opened Wrappers
  import opened MemoryVault

  const MAX_COUNTER: nat := 99_999

  /** `cipher` is the sealed value with its nonce and tag. */
  datatype EncryptedRecord = EncryptedRecord(
    cipher: string, wrappedKey: string, kind: EntityType, valueHmac: string, expiresAt: int)

  datatype Repository = Repository(
    records: OMap<EntryKey, EncryptedRecord>, sessionKeys: map<Scope, string>, counters: map<CounterKey, nat>)

  // ---- what the operations do ----

  /** The counter of `p` if it is a placeholder with this label and suffix, 0 otherwise. */
  function MatchCounter(p: string, lbl: string, suffix: string): nat {
    var o, e := |lbl| + 2, |p| - |suffix| - 1;
    if o < e && p[..o] == "[" + lbl + "_" && p[e..] == "]" + suffix && IsIndex(p[o..e]) then Value(p[o..e]) else 0
  }

  lemma MatchRendered(lbl: string, n: nat, suffix: string)
    requires 1 <= n <= MAX_COUNTER
    ensures MatchCounter(Render(lbl, n, suffix), lbl, suffix) == n
  {
    hide Numeral, Value;
    var p, d := Render(lbl, n, suffix), Numeral(n);
    var o, e := |lbl| + 2, |p| - |suffix| - 1;
    NumeralFits(n);
    NumeralValue(n);
    assert p[..o] == "[" + lbl + "_";
    assert p[e..] == "]" + suffix;
    assert p[o..e] == d;
  }

  /** A rendered placeholder matches no other series. */
  lemma MatchesOne(lbl: string, n: nat, suffix: string, l: string, s: string)
    requires (forall i :: 0 <= i < |lbl| ==> IsUpper(lbl[i])) && (forall i :: 0 <= i < |l| ==> IsUpper(l[i]))
    requires MatchCounter(Render(lbl, n, suffix), l, s) > 0
    ensures l == lbl && s == suffix
  {
    hide Numeral, Value;
    var p := Render(lbl, n, suffix);
    var o, e := |l| + 2, |p| - |s| - 1;
    assert p == p[..o] + p[o..e] + p[e..];
    assert p == Base(l, p[o..e]) + s;
    BaseInjective(lbl, Numeral(n), suffix, l, p[o..e], s);
  }

  /** The highest counter with this label and suffix among the records of a scope. */
  function Highest(keys: seq<EntryKey>, scope: Scope, lbl: string, suffix: string): nat {
    if keys == [] then 0
    else
      var k := keys[|keys| - 1];
      Max(Highest(keys[..|keys| - 1], scope, lbl, suffix),
                if k.scope == scope then MatchCounter(k.placeholder, lbl, suffix) else 0)
  }

  lemma {:induction false} HighestBounds(keys: seq<EntryKey>, scope: Scope, lbl: string, suffix: string)
    ensures forall k :: k in keys && k.scope == scope ==>
              MatchCounter(k.placeholder, lbl, suffix) <= Highest(keys, scope, lbl, suffix)
    ensures Highest(keys, scope, lbl, suffix) == 0 ||
            exists k :: k in keys && k.scope == scope &&
              MatchCounter(k.placeholder, lbl, suffix) == Highest(keys, scope, lbl, suffix)
  {
    hide MatchCounter;
    if keys != [] {
      var init, last := keys[..|keys| - 1], keys[|keys| - 1];
      HighestBounds(init, scope, lbl, suffix);
      assert keys == init + [last];
    }
  }

  /** Where the counter stands: as stored, or as the records of the scope have it. */
  function Current(r: Repository, scope: Scope, lbl: string, suffix: string): nat {
    var ck := CounterKey(scope, lbl, suffix);
    if ck in r.counters then r.counters[ck] else Highest(r.records.keys, scope, lbl, suffix)
  }

  function NextCounter(r: Repository, scope: Scope, lbl: string, suffix: string, minimum: nat): nat {
    Max(Current(r, scope, lbl, suffix) + 1, minimum)
  }

  /**
   The next counter is at least the minimum and beyond the stored counter, or where there is none beyond those of
   the records of the scope; and it is the least such number.
   */
  lemma NextCounterExact(r: Repository, scope: Scope, lbl: string, suffix: string, minimum: nat)
    ensures var next, ck := NextCounter(r, scope, lbl, suffix, minimum), CounterKey(scope, lbl, suffix);
            && next >= minimum && next >= 1
            && (ck in r.counters ==> next > r.counters[ck] && (next == minimum || next == r.counters[ck] + 1))
            && (ck !in r.counters ==>
                  && (forall k :: k in r.records.keys && k.scope == scope ==>
                        MatchCounter(k.placeholder, lbl, suffix) < next)
                  && (next == minimum || next == 1 ||
                      exists k :: k in r.records.keys && k.scope == scope &&
                        next == MatchCounter(k.placeholder, lbl, suffix) + 1))
  {
    hide MatchCounter, Highest;
    HighestBounds(r.records.keys, scope, lbl, suffix);
  }

  predicate Matches(records: map<EntryKey, EncryptedRecord>, k: EntryKey, scope: Scope, kind: EntityType,
                    hmac: string)
  {
    k in records && k.scope == scope && records[k].kind == kind && records[k].valueHmac == hmac
  }

  /** The first record, in order of arrival, of this value. */
  function FindHmac(records: map<EntryKey, EncryptedRecord>, keys: seq<EntryKey>, scope: Scope, kind: EntityType,
                    hmac: string):
    (k: Option<EntryKey>)
    requires forall k :: k in keys ==> k in records
    ensures k.Some? ==> k.value in records && k.value.scope == scope
                        && records[k.value].kind == kind && records[k.value].valueHmac == hmac
  {
    if keys == [] then None
    else if keys[0].scope == scope && records[keys[0]].kind == kind && records[keys[0]].valueHmac == hmac
         then Some(keys[0])
    else FindHmac(records, keys[1..], scope, kind, hmac)
  }

  /** The `i`-th record is the first of this value; the number of records if there is none. */
  predicate FirstMatch(records: OMap<EntryKey, EncryptedRecord>, i: nat, scope: Scope, kind: EntityType, hmac: string) {
    && i <= |records.keys|
    && (i < |records.keys| ==> Matches(records.at, records.keys[i], scope, kind, hmac))
    && forall j :: 0 <= j < i ==> !Matches(records.at, records.keys[j], scope, kind, hmac)
  }

  lemma RecordsListed(records: OMap<EntryKey, EncryptedRecord>)
    requires records.Valid()
    ensures forall k :: k in records.keys ==> k in records.at
  {
  }

  lemma {:induction false} FindHmacIs(records: OMap<EntryKey, EncryptedRecord>, scope: Scope, kind: EntityType,
                                      hmac: string)
    returns (i: nat)
    requires forall k :: k in records.keys ==> k in records.at
    ensures FirstMatch(records, i, scope, kind, hmac)
    ensures FindHmac(records.at, records.keys, scope, kind, hmac) ==
            if i == |records.keys| then None else Some(records.keys[i])
    decreases |records.keys|
  {
    i := 0;
    if records.keys != [] && !Matches(records.at, records.keys[0], scope, kind, hmac) {
      var n := FindHmacIs(OMap(records.keys[1..], records.at), scope, kind, hmac);
      assert forall j :: 1 <= j < |records.keys| ==> records.keys[j] == records.keys[1..][j - 1];
      i := n + 1;
    }
  }

  class MemoryVaultRepository {
    var records: OMap<EntryKey, EncryptedRecord>
    var sessionKeys: map<Scope, string>
    var placeholderCounters: map<CounterKey, nat>

    constructor ()
      ensures Contents() == Repository(Empty(), map[], map[]) && Contents().records.Valid()
    {
      records, sessionKeys, placeholderCounters := Empty(), map[], map[];
    }

    function Contents(): Repository
      reads this
    {
      Repository(records, sessionKeys, placeholderCounters)
    }

    /** The first claim is kept. */
    method ClaimSessionKey(scope: Scope, candidate: string) returns (wrapped: string)
      modifies this`sessionKeys
      ensures wrapped == if scope in old(sessionKeys) then old(sessionKeys)[scope] else candidate
      ensures sessionKeys == old(sessionKeys)[scope := wrapped]
    {
      if scope in sessionKeys {
        assert sessionKeys == sessionKeys[scope := sessionKeys[scope]];
        return sessionKeys[scope];
      }
      sessionKeys := sessionKeys[scope := candidate];
      wrapped := candidate;
    }

    /** A counter is never given out twice, whatever has been deleted since; there are 99999 of them. */
    method AllocatePlaceholder(scope: Scope, lbl: string, suffix: string, minimum: nat) returns (r: Result<string>)
      modifies this`placeholderCounters
      ensures var next := NextCounter(old(Contents()), scope, lbl, suffix, minimum);
              if next > MAX_COUNTER then r.Err? && placeholderCounters == old(placeholderCounters)
              else r == Ok(Render(lbl, next, suffix))
                   && placeholderCounters == old(placeholderCounters)[CounterKey(scope, lbl, suffix) := next]
    {
      hide MatchCounter, Render;
      var counterKey := CounterKey(scope, lbl, suffix);
      var current: nat;
      if counterKey in placeholderCounters {
        current := placeholderCounters[counterKey];
      } else {
        current := 0;
        var i := 0;
        while i < |records.keys|
          invariant i <= |records.keys|
          invariant current == Highest(records.keys[..i], scope, lbl, suffix)
        {
          var key := records.keys[i];
          assert records.keys[..i + 1][..i] == records.keys[..i];
          if key.scope == scope {
            current := Max(current, MatchCounter(key.placeholder, lbl, suffix));
          }
          i := i + 1;
        }
        assert records.keys[..i] == records.keys;
      }
      var next := Max(current + 1, minimum);
      if next > MAX_COUNTER {
        return Err("vault placeholder space exhausted");
      }
      placeholderCounters := placeholderCounters[counterKey := next];
      r := Ok(Render(lbl, next, suffix));
    }

    method Put(key: EntryKey, record: EncryptedRecord)
      requires records.Valid()
      modifies this`records
      ensures records == old(records).Set(key, record) && records.Valid()
    {
      SetValid(records, key, record);
      records := records.Set(key, record);
    }

    method GetByValueHmac(scope: Scope, kind: EntityType, hmac: string) returns (found: Option<EntryKey>)
      requires records.Valid()
      ensures found == FindHmac(records.at, records.keys, scope, kind, hmac)
      ensures exists i: nat :: FirstMatch(records, i, scope, kind, hmac) &&
                if i == |records.keys| then found.None? else found == Some(records.keys[i])
    {
      hide OMap.Valid, FirstMatch;
      RecordsListed(records);
      ghost var first := FindHmacIs(records, scope, kind, hmac);
      var i := 0;
      assert records.keys[0..] == records.keys;
      while i < |records.keys|
        invariant i <= |records.keys|
        invariant FindHmac(records.at, records.keys, scope, kind, hmac) ==
                  FindHmac(records.at, records.keys[i..], scope, kind, hmac)
      {
        var key := records.keys[i];
        assert key in records.keys;
        if key.scope == scope && records.at[key].kind == kind && records.at[key].valueHmac == hmac {
          return Some(key);
        }
        assert records.keys[i..][1..] == records.keys[i + 1..];
        i := i + 1;
      }
      found := None;
    }

    /** Records go, counters and session keys stay. */
    method DeleteExpired(now: int) returns (count: nat)
      requires records.Valid()
      modifies this`records
      ensures records.Valid() && count == |old(records).at| - |records.at|
      ensures forall k :: k in records.at <==> k in old(records).at && old(records).at[k].expiresAt > now
      ensures forall k :: k in records.at ==> records.at[k] == old(records).at[k]
    {
      hide OMap.Valid, DroppedTo;
      count := 0;
      var keys, i := records.keys, 0;
      ghost var gone := (r: EncryptedRecord) => r.expiresAt <= now;
      NoneDropped(records, gone);
      while i < |keys|
        invariant i <= |keys| && records.Valid() && count == |old(records).at| - |records.at|
        invariant DroppedTo(old(records), records, i, gone)
      {
        var key := keys[i];
        DropNext(old(records), records, i, gone);
        if key in records.at && records.at[key].expiresAt <= now {
          DeleteValid(records, key);
          DeleteOne(records, key);
          records := records.Delete(key);
          count := count + 1;
        }
        i := i + 1;
      }
      AllDropped(old(records), records, gone);
    }
  }
}
