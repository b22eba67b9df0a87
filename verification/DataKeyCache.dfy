/**
 The gateway's cache of unwrapped data keys. Keys live in byte arrays that are zeroed as soon as they are
 no longer needed, so what matters is who holds which array: the cache never gives one of its own away.
 */
module DataKeyCache {
  import opened OrderedMap
  import opened Wrappers
  import opened MemoryVault

  const KEY_LENGTH: nat := 32
  const UNAVAILABLE := "HM-5040"

  type byte = x: int | 0 <= x < 256

  datatype CacheKey = CacheKey(scope: Scope, wrapped: string)

  /** A call asks for a key, or the one that waits at place `which` is answered. */
  datatype KeyEvent = Asks(scope: Scope, wrapped: string, now: int) | Answers(which: nat, now: int)

  datatype Given = Given(key: CacheKey, r: Result<array<byte>>)

  datatype Cached = Cached(key: array<byte>, wrapped: string, expiresAt: int, lastUsed: int)

  function CallOf(e: KeyEvent): multiset<CacheKey> {
    if e.Asks? then multiset{CacheKey(e.scope, e.wrapped)} else multiset{}
  }

  /** The keys that calls came in for. */
  function CallsOf(es: seq<KeyEvent>): multiset<CacheKey> {
    if es == [] then multiset{} else CallsOf(es[..|es| - 1]) + CallOf(es[|es| - 1])
  }

  /** The keys of the calls that were answered. */
  function KeysOf(given: seq<Given>): multiset<CacheKey> {
    if given == [] then multiset{} else KeysOf(given[..|given| - 1]) + multiset{given[|given| - 1].key}
  }

  lemma NoCalls()
    ensures CallsOf([]) == multiset{} && KeysOf([]) == multiset{}
  {
  }

  lemma MoreCalls(es: seq<KeyEvent>, e: KeyEvent)
    ensures CallsOf(es + [e]) == CallsOf(es) + CallOf(e)
  {
    assert (es + [e])[..|es|] == es;
  }

  lemma MoreKeys(given: seq<Given>, g: Given)
    ensures KeysOf(given + [g]) == KeysOf(given) + multiset{g.key}
  {
    assert (given + [g])[..|given|] == given;
  }

  lemma Balances(waiting: multiset<CacheKey>, given: multiset<CacheKey>, left: multiset<CacheKey>,
                 answer: multiset<CacheKey>, call: multiset<CacheKey>)
    requires left + answer == waiting + call
    ensures left + (given + answer) == waiting + given + call
    ensures answer == multiset{} ==> left + given == waiting + given + call
  {
    assert left + (given + answer) == left + answer + given;
    assert left + answer + given == waiting + call + given;
  }

  /** The arrays a map of cached keys holds. */
  ghost function Arrays(at: map<CacheKey, Cached>): set<object> {
    set k | k in at :: at[k].key
  }

  method Zero(a: array<byte>)
    modifies a
    ensures forall i :: 0 <= i < a.Length ==> a[i] == 0
  {
    for i := 0 to a.Length
      invariant forall j :: 0 <= j < i ==> a[j] == 0
    {
      a[i] := 0;
    }
  }

  method Copy(a: array<byte>) returns (b: array<byte>)
    ensures fresh(b) && b[..] == a[..]
  {
    b := new byte[a.Length](i requires 0 <= i < a.Length reads a => a[i]);
    assert b[..] == a[..];
  }

  class KeyCache {
    var dataKeys: OMap<CacheKey, Cached>
    /** The wrapped keys the service was asked to unwrap so far. */
    ghost var asked: seq<string>
    /** What the key service unwraps a wrapped key to. */
    const unwrap: string -> seq<byte>
    const maxCachedKeys: nat
    const keyCacheTtlMs: nat

    constructor (unwrap: string -> seq<byte>, maxCachedKeys: nat, keyCacheTtlMs: nat)
      ensures Valid() && dataKeys == Empty() && asked == []
      ensures this.unwrap == unwrap && this.maxCachedKeys == maxCachedKeys && this.keyCacheTtlMs == keyCacheTtlMs
    {
      this.unwrap, this.maxCachedKeys, this.keyCacheTtlMs := unwrap, maxCachedKeys, keyCacheTtlMs;
      dataKeys, asked := Empty(), [];
    }

    /** Every cached array is a key of its own and is what the service unwraps its wrapped key to. */
    ghost predicate Coherent()
      reads this`dataKeys, Arrays(dataKeys.at)
    {
      && dataKeys.Valid()
      && (forall k :: k in dataKeys.at ==>
            && dataKeys.at[k].wrapped == k.wrapped
            && dataKeys.at[k].key[..] == unwrap(k.wrapped)
            && |unwrap(k.wrapped)| == KEY_LENGTH)
      && (forall j, k :: j in dataKeys.at && k in dataKeys.at && j != k ==> dataKeys.at[j].key != dataKeys.at[k].key)
    }

    ghost predicate Valid()
      reads this`dataKeys, Arrays(dataKeys.at)
    {
      Coherent() && |dataKeys.keys| <= maxCachedKeys
    }

    lemma CachedHolds(k: CacheKey)
      requires Coherent() && k in dataKeys.at
      ensures dataKeys.at[k].key[..] == unwrap(k.wrapped)
    {
    }

    /** Zeroes a cached key and drops it; no other cached key is touched. */
    method DeleteCachedKey(k: CacheKey)
      requires Coherent() && k in dataKeys.at
      modifies this`dataKeys, dataKeys.at[k].key
      ensures Coherent() && dataKeys == old(dataKeys).Delete(k)
      ensures forall i :: 0 <= i < old(dataKeys.at[k].key).Length ==> old(dataKeys.at[k].key)[i] == 0
    {
      var a := dataKeys.at[k].key;
      ghost var before := dataKeys.at;
      assert forall j :: j in before && j != k ==> before[j].key != a;
      Zero(a);
      assert forall j :: j in before && j != k ==> before[j].key[..] == old(before[j].key[..]);
      DeleteValid(dataKeys, k);
      dataKeys := dataKeys.Delete(k);
    }

    /** After it no expired key is in the cache. */
    method EvictExpiredKeys(now: int)
      requires Coherent()
      modifies this`dataKeys, Arrays(dataKeys.at)
      ensures Coherent() && |dataKeys.keys| <= |old(dataKeys).keys| && Arrays(dataKeys.at) <= old(Arrays(dataKeys.at))
      ensures forall k :: k in dataKeys.at <==> k in old(dataKeys).at && old(dataKeys).at[k].expiresAt > now
      ensures forall k :: k in dataKeys.at ==> dataKeys.at[k] == old(dataKeys).at[k]
    {
      hide OMap.Valid, DroppedTo, OMap.Delete;
      var keys, i := dataKeys.keys, 0;
      ghost var gone := (c: Cached) => c.expiresAt <= now;
      NoneDropped(dataKeys, gone);
      while i < |keys|
        invariant i <= |keys| && Coherent() && |dataKeys.keys| <= |keys|
        invariant DroppedTo(old(dataKeys), dataKeys, i, gone)
        invariant Arrays(dataKeys.at) <= old(Arrays(dataKeys.at))
      {
        var k := keys[i];
        DropNext(old(dataKeys), dataKeys, i, gone);
        if k in dataKeys.at && dataKeys.at[k].expiresAt <= now {
          DeleteShrinks(dataKeys, k);
          DeleteCachedKey(k);
        }
        i := i + 1;
      }
      AllDropped(old(dataKeys), dataKeys, gone);
    }

    /** The least recently used key; among several the one cached first. */
    method Oldest() returns (k: CacheKey)
      requires dataKeys.Valid() && dataKeys.keys != []
      ensures k in dataKeys.at
      ensures exists i :: 0 <= i < |dataKeys.keys| && dataKeys.keys[i] == k && LeastUsed(dataKeys, i)
    {
      var keys, best, i := dataKeys.keys, 0, 1;
      assert forall j :: 0 <= j < |keys| ==> keys[j] in keys;
      while i < |keys|
        invariant 0 <= best < i <= |keys|
        invariant forall j :: 0 <= j < i ==>
                    dataKeys.at[keys[best]].lastUsed <= dataKeys.at[keys[j]].lastUsed
        invariant forall j :: 0 <= j < best ==> dataKeys.at[keys[best]].lastUsed < dataKeys.at[keys[j]].lastUsed
      {
        if dataKeys.at[keys[i]].lastUsed < dataKeys.at[keys[best]].lastUsed {
          best := i;
        }
        i := i + 1;
      }
      k := keys[best];
    }

    /** Evicts least recently used keys, zeroing each, until the limit is kept. */
    method EvictOverflowKeys()
      requires Coherent()
      modifies this`dataKeys, Arrays(dataKeys.at)
      ensures Valid() && Arrays(dataKeys.at) <= old(Arrays(dataKeys.at))
      ensures |old(dataKeys).keys| <= maxCachedKeys ==> dataKeys == old(dataKeys)
      ensures |old(dataKeys).keys| >= maxCachedKeys ==> |dataKeys.keys| == maxCachedKeys
      ensures LostOldest(old(dataKeys).at, dataKeys.at)
    {
      hide OMap.Valid, OMap.Delete, LostOldest, LeastUsed;
      NoneLost(dataKeys.at);
      while |dataKeys.keys| > maxCachedKeys
        invariant Coherent() && Arrays(dataKeys.at) <= old(Arrays(dataKeys.at))
        invariant |old(dataKeys).keys| <= maxCachedKeys ==> dataKeys == old(dataKeys)
        invariant |old(dataKeys).keys| >= maxCachedKeys ==> |dataKeys.keys| >= maxCachedKeys
        invariant LostOldest(old(dataKeys).at, dataKeys.at)
        decreases |dataKeys.keys|
      {
        var k := Oldest();
        ghost var i :| 0 <= i < |dataKeys.keys| && dataKeys.keys[i] == k && LeastUsed(dataKeys, i);
        DeleteShrinks(dataKeys, k);
        LoseOldest(old(dataKeys).at, dataKeys, i);
        DeleteCachedKey(k);
      }
    }

    /** Sets a copy. An array that was cached for this key before is no longer one of the cache. */
    method PutCopy(k: CacheKey, key: array<byte>, now: int) returns (cached: Cached)
      requires Coherent() && key[..] == unwrap(k.wrapped) && key.Length == KEY_LENGTH
      modifies this`dataKeys
      ensures Coherent() && dataKeys.at == old(dataKeys).at[k := cached]
      ensures |dataKeys.keys| == |old(dataKeys).keys| + if k in old(dataKeys).at then 0 else 1
      ensures fresh(cached.key) && cached.expiresAt == now + keyCacheTtlMs && cached.lastUsed == now
      ensures Arrays(dataKeys.at) <= old(Arrays(dataKeys.at)) + {cached.key}
      ensures k in old(dataKeys).at ==> old(dataKeys).at[k].key !in Arrays(dataKeys.at)
    {
      hide OMap.Valid, OMap.Set;
      var copy := Copy(key);
      cached := Cached(copy, k.wrapped, now + keyCacheTtlMs, now);
      SetKey(dataKeys, k, cached);
      dataKeys := dataKeys.Set(k, cached);
    }

    /**
     Caches a copy. An array that was cached for this key before is dropped as it is: no longer one of the
     cache, and not zeroed.
     */
    method CacheUnwrapped(scope: Scope, wrapped: string, key: array<byte>, now: int)
      requires Coherent() && key[..] == unwrap(wrapped) && key.Length == KEY_LENGTH && key !in Arrays(dataKeys.at)
      modifies this`dataKeys, Arrays(dataKeys.at)
      ensures Valid() && key !in Arrays(dataKeys.at) && fresh(Arrays(dataKeys.at) - old(Arrays(dataKeys.at)))
      ensures forall k :: k in dataKeys.at ==>
                if k == CacheKey(scope, wrapped)
                then dataKeys.at[k].expiresAt == now + keyCacheTtlMs && dataKeys.at[k].lastUsed == now
                else k in old(dataKeys).at && dataKeys.at[k] == old(dataKeys).at[k]
      ensures |old(dataKeys).keys| < maxCachedKeys
              || (CacheKey(scope, wrapped) in old(dataKeys).at && |old(dataKeys).keys| <= maxCachedKeys) ==>
                CacheKey(scope, wrapped) in dataKeys.at && forall k :: k in old(dataKeys).at ==> k in dataKeys.at
      ensures LostOldest(old(dataKeys).at - {CacheKey(scope, wrapped)}, dataKeys.at - {CacheKey(scope, wrapped)})
      ensures CacheKey(scope, wrapped) in old(dataKeys).at ==>
                var dropped := old(dataKeys).at[CacheKey(scope, wrapped)].key;
                dropped !in Arrays(dataKeys.at) && dropped[..] == old(dropped[..])
    {
      hide OMap.Valid, OMap.Set, LostOldest, Coherent;
      ghost var before := dataKeys.at;
      var cached := PutCopy(CacheKey(scope, wrapped), key, now);
      EvictOverflowKeys();
      LeftOfSet(before, CacheKey(scope, wrapped), cached, dataKeys.at);
      LostBeside(before, CacheKey(scope, wrapped), cached, dataKeys.at);
    }

    /** A live cached key, used now. */
    predicate Live(k: CacheKey, now: int)
      reads this`dataKeys
    {
      k in dataKeys.at && dataKeys.at[k].expiresAt > now
    }

    /** A copy of a cached key, which is marked as used. */
    method ServeCached(k: CacheKey, now: int) returns (served: array<byte>)
      requires Valid() && k in dataKeys.at
      modifies this`dataKeys
      ensures Valid() && Arrays(dataKeys.at) == old(Arrays(dataKeys.at))
      ensures fresh(served) && served !in Arrays(dataKeys.at) && served[..] == unwrap(k.wrapped)
      ensures dataKeys.at == old(dataKeys).at[k := old(dataKeys).at[k].(lastUsed := now)]
      ensures dataKeys.keys == old(dataKeys).keys && |unwrap(k.wrapped)| == KEY_LENGTH
    {
      hide OMap.Valid, OMap.Set;
      var cached := dataKeys.at[k];
      served := Copy(cached.key);
      TouchUsed(dataKeys, k, now);
      dataKeys := dataKeys.Set(k, cached.(lastUsed := now));
      assert dataKeys.at[k].key == cached.key;
    }

    /** What the key service answers: an array of the caller's own. */
    method Answer(wrapped: string) returns (key: array<byte>)
      ensures fresh(key) && key[..] == unwrap(wrapped)
    {
      key := new byte[|unwrap(wrapped)|](i requires 0 <= i < |unwrap(wrapped)| => unwrap(wrapped)[i]);
      assert key[..] == unwrap(wrapped);
    }

    /** The steps before the key service is awaited: a copy of a live key, or else the question is put. */
    method LookUp(scope: Scope, wrapped: string, now: int) returns (served: Option<array<byte>>)
      requires Valid()
      modifies this`dataKeys, this`asked, Arrays(dataKeys.at)
      ensures Valid() && Arrays(dataKeys.at) <= old(Arrays(dataKeys.at)) && |dataKeys.keys| <= |old(dataKeys).keys|
      ensures served.Some? <==> old(Live(CacheKey(scope, wrapped), now))
      ensures served.Some? ==>
                fresh(served.value) && served.value !in Arrays(dataKeys.at) && served.value[..] == unwrap(wrapped)
      ensures served.Some? ==> |unwrap(wrapped)| == KEY_LENGTH
      ensures asked == old(asked) + (if served.Some? then [] else [wrapped])
      ensures forall k :: k in dataKeys.at <==> old(Live(k, now))
      ensures forall k :: k in dataKeys.at && k != CacheKey(scope, wrapped) ==>
                k in old(dataKeys).at && dataKeys.at[k] == old(dataKeys).at[k]
      ensures served.Some? ==>
                var k := CacheKey(scope, wrapped);
                k in dataKeys.at && k in old(dataKeys).at && dataKeys.at[k] == old(dataKeys).at[k].(lastUsed := now)
    {
      hide OMap.Valid, Coherent;
      EvictExpiredKeys(now);
      var k := CacheKey(scope, wrapped);
      if k in dataKeys.at {
        var copy := ServeCached(k, now);
        return Some(copy);
      }
      asked := asked + [wrapped];
      assert Valid();
      served := None;
    }

    /** The steps behind it: the answer is copied into the cache, copied to the caller and zeroed. */
    method CacheAnswer(scope: Scope, wrapped: string, now: int) returns (r: Result<array<byte>>)
      requires Valid()
      modifies this`dataKeys, Arrays(dataKeys.at)
      ensures Valid() && fresh(Arrays(dataKeys.at) - old(Arrays(dataKeys.at)))
      ensures r.Ok? <==> |unwrap(wrapped)| == KEY_LENGTH
      ensures r.Ok? ==> fresh(r.value) && r.value !in Arrays(dataKeys.at) && r.value[..] == unwrap(wrapped)
      ensures r.Err? ==> r.code == UNAVAILABLE && dataKeys == old(dataKeys)
      ensures forall k :: k in dataKeys.at && k != CacheKey(scope, wrapped) ==>
                k in old(dataKeys).at && dataKeys.at[k] == old(dataKeys).at[k]
      ensures r.Ok? && (|old(dataKeys).keys| < maxCachedKeys || CacheKey(scope, wrapped) in old(dataKeys).at) ==>
                CacheKey(scope, wrapped) in dataKeys.at && forall k :: k in old(dataKeys).at ==> k in dataKeys.at
      ensures LostOldest(old(dataKeys).at - {CacheKey(scope, wrapped)}, dataKeys.at - {CacheKey(scope, wrapped)})
      ensures r.Ok? && CacheKey(scope, wrapped) in old(dataKeys).at ==>
                var dropped := old(dataKeys).at[CacheKey(scope, wrapped)].key;
                dropped !in Arrays(dataKeys.at) && dropped[..] == old(dropped[..])
    {
      hide OMap.Valid, Coherent, LostOldest;
      var key := Answer(wrapped);
      if key.Length != KEY_LENGTH {
        NoneLost(dataKeys.at - {CacheKey(scope, wrapped)});
        return Err(UNAVAILABLE);
      }
      CacheUnwrapped(scope, wrapped, key, now);
      var served := Copy(key);
      assert key !in Arrays(dataKeys.at);
      Zero(key);
      r := Ok(served);
    }

    /**
     Serves the key a wrapped key stands for: always an array of the caller's own, and never from an
     expired entry - whenever no live one is there the service is asked again. `later` is the time of its
     answer; no other call comes in between here.
     */
    method KeyForWrapped(scope: Scope, wrapped: string, now: int, later: int) returns (r: Result<array<byte>>)
      requires Valid()
      modifies this`dataKeys, this`asked, Arrays(dataKeys.at)
      ensures Valid() && fresh(Arrays(dataKeys.at) - old(Arrays(dataKeys.at)))
      ensures r.Ok? <==> |unwrap(wrapped)| == KEY_LENGTH
      ensures r.Ok? ==> fresh(r.value) && r.value !in Arrays(dataKeys.at) && r.value[..] == unwrap(wrapped)
      ensures r.Err? ==> r.code == UNAVAILABLE
      ensures asked == old(asked) + (if old(Live(CacheKey(scope, wrapped), now)) then [] else [wrapped])
      ensures forall k :: k in dataKeys.at && k != CacheKey(scope, wrapped) ==>
                old(Live(k, now)) && dataKeys.at[k] == old(dataKeys).at[k]
    {
      hide OMap.Valid, Coherent;
      var served := LookUp(scope, wrapped, now);
      if served.Some? {
        return Ok(served.value);
      }
      r := CacheAnswer(scope, wrapped, later);
    }

    /** One event: a call comes in, or the service answers one of the calls that wait. */
    method React(e: KeyEvent, waiting: seq<CacheKey>) returns (given: Option<Given>, left: seq<CacheKey>)
      requires Valid()
      modifies this`dataKeys, this`asked, Arrays(dataKeys.at)
      ensures Valid() && fresh(Arrays(dataKeys.at) - old(Arrays(dataKeys.at)))
      ensures given.Some? ==> (given.value.r.Ok? <==> |unwrap(given.value.key.wrapped)| == KEY_LENGTH)
      ensures given.Some? && given.value.r.Ok? ==>
                && fresh(given.value.r.value) && given.value.r.value !in Arrays(dataKeys.at)
                && given.value.r.value[..] == unwrap(given.value.key.wrapped)
      ensures multiset(left) + (if given.Some? then multiset{given.value.key} else multiset{}) ==
              multiset(waiting) + CallOf(e)
      ensures given.None? && e.Answers? ==> e.which >= |waiting| && left == waiting
    {
      hide OMap.Valid, Coherent;
      given, left := None, waiting;
      match e {
        case Asks(scope, wrapped, now) =>
          var served := LookUp(scope, wrapped, now);
          if served.Some? {
            given := Some(Given(CacheKey(scope, wrapped), Ok(served.value)));
          } else {
            left := waiting + [CacheKey(scope, wrapped)];
          }
        case Answers(which, now) =>
          if which < |waiting| {
            var key := waiting[which];
            var r := CacheAnswer(key.scope, key.wrapped, now);
            given := Some(Given(key, r));
            left := waiting[..which] + waiting[which + 1..];
            assert waiting == waiting[..which] + [key] + waiting[which + 1..];
          }
      }
    }

    /**
     Calls whose waits for the key service overlap in any way: each is answered once or still waits, each
     that is answered is given an array of its own with its key, and the cache stays what it is.
     */
    method Overlap(es: seq<KeyEvent>) returns (given: seq<Given>, waiting: seq<CacheKey>)
      requires Valid()
      modifies this`dataKeys, this`asked, Arrays(dataKeys.at)
      ensures Valid() && fresh(Arrays(dataKeys.at) - old(Arrays(dataKeys.at)))
      ensures multiset(waiting) + KeysOf(given) == CallsOf(es)
      ensures forall g :: g in given ==> (g.r.Ok? <==> |unwrap(g.key.wrapped)| == KEY_LENGTH)
      ensures forall g :: g in given && g.r.Ok? ==>
                fresh(g.r.value) && g.r.value !in Arrays(dataKeys.at) && g.r.value[..] == unwrap(g.key.wrapped)
      ensures forall i, j :: 0 <= i < j < |given| && given[i].r.Ok? && given[j].r.Ok? ==>
                given[i].r.value != given[j].r.value
    {
      hide OMap.Valid, Coherent, KeysOf, CallsOf, Valid;
      given, waiting := [], [];
      var i := 0;
      NoCalls();
      assert es[..0] == [];
      while i < |es|
        invariant i <= |es| && Valid() && fresh(Arrays(dataKeys.at) - old(Arrays(dataKeys.at)))
        invariant multiset(waiting) + KeysOf(given) == CallsOf(es[..i])
        invariant forall g :: g in given ==> (g.r.Ok? <==> |unwrap(g.key.wrapped)| == KEY_LENGTH)
        invariant forall g :: g in given && g.r.Ok? ==>
                    fresh(g.r.value) && g.r.value !in Arrays(dataKeys.at) && g.r.value[..] == unwrap(g.key.wrapped)
        invariant forall i, j :: 0 <= i < j < |given| && given[i].r.Ok? && given[j].r.Ok? ==>
                    given[i].r.value != given[j].r.value
      {
        var answer, left := React(es[i], waiting);
        MoreCalls(es[..i], es[i]);
        assert es[..i + 1] == es[..i] + [es[i]];
        Balances(multiset(waiting), KeysOf(given), multiset(left),
                 if answer.Some? then multiset{answer.value.key} else multiset{}, CallOf(es[i]));
        waiting := left;
        if answer.Some? {
          MoreKeys(given, answer.value);
          given := given + [answer.value];
        }
        i := i + 1;
      }
      assert es[..i] == es;
    }

    /** Two calls wait for one key at a time: the array cached for the first one is dropped with the key in it. */
    method TwoUnwraps(scope: Scope, wrapped: string, now: int) returns (ghost dropped: array<byte>)
      requires Valid() && dataKeys == Empty() && maxCachedKeys >= 1 && |unwrap(wrapped)| == KEY_LENGTH
      modifies this`dataKeys, this`asked
      ensures Valid() && asked == old(asked) + [wrapped, wrapped]
      ensures fresh(dropped) && dropped !in Arrays(dataKeys.at) && dropped[..] == unwrap(wrapped)
    {
      hide OMap.Valid, Coherent;
      var first := LookUp(scope, wrapped, now);
      var second := LookUp(scope, wrapped, now);
      var r := CacheAnswer(scope, wrapped, now);
      dropped := dataKeys.at[CacheKey(scope, wrapped)].key;
      CachedHolds(CacheKey(scope, wrapped));
      r := CacheAnswer(scope, wrapped, now);
    }

    /** A caller that reads a record: the key is zeroed after use, and the cache does not notice. */
    method Decrypt(scope: Scope, wrapped: string, now: int, later: int, open: seq<byte> -> Option<string>)
      returns (r: Result<string>)
      requires Valid()
      modifies this`dataKeys, this`asked, Arrays(dataKeys.at)
      ensures Valid() && fresh(Arrays(dataKeys.at) - old(Arrays(dataKeys.at)))
      ensures r == if |unwrap(wrapped)| == KEY_LENGTH && open(unwrap(wrapped)).Some?
                   then Ok(open(unwrap(wrapped)).value) else Err(UNAVAILABLE)
    {
      var key := KeyForWrapped(scope, wrapped, now, later);
      if key.Err? {
        return Err(key.code);
      }
      var text := open(key.value[..]);
      Zero(key.value);
      r := if text.Some? then Ok(text.value) else Err(UNAVAILABLE);
    }

    /**
     The key to write with: that of the session, or the caller's candidate if the session claimed it.
     A candidate that was passed in is zeroed either way.
     */
    method WriteSessionKey(scope: Scope, existing: Option<string>, candidate: array<byte>, candidateWrapped: string,
                           claimed: string, now: int, later: int)
      returns (r: Result<array<byte>>)
      requires Valid() && candidate !in Arrays(dataKeys.at)
      requires candidate[..] == unwrap(candidateWrapped) && candidate.Length == KEY_LENGTH
      modifies this`dataKeys, this`asked, Arrays(dataKeys.at), candidate
      ensures Valid() && fresh(Arrays(dataKeys.at) - old(Arrays(dataKeys.at)))
      ensures var wrapped := if existing.Some? then existing.value else claimed;
              && (r.Ok? <==> |unwrap(wrapped)| == KEY_LENGTH)
              && (r.Ok? ==> fresh(r.value) && r.value !in Arrays(dataKeys.at) && r.value[..] == unwrap(wrapped))
              && (r.Err? ==> r.code == UNAVAILABLE)
      ensures existing.None? ==> forall i :: 0 <= i < candidate.Length ==> candidate[i] == 0
    {
      hide OMap.Valid, Coherent;
      if existing.Some? {
        r := KeyForWrapped(scope, existing.value, now, later);
        return;
      }
      if claimed == candidateWrapped {
        CacheUnwrapped(scope, claimed, candidate, now);
        var key := Copy(candidate);
        Zero(candidate);
        return Ok(key);
      }
      Zero(candidate);
      r := KeyForWrapped(scope, claimed, now, later);
    }
  }

  /** Marking a key as used leaves its array and every other entry alone. */
  lemma TouchUsed(m: OMap<CacheKey, Cached>, k: CacheKey, now: int)
    requires m.Valid() && k in m.at
    ensures var t := m.Set(k, m.at[k].(lastUsed := now));
            && t.Valid() && t.keys == m.keys
            && t.at == m.at[k := m.at[k].(lastUsed := now)]
  {
    SetValid(m, k, m.at[k].(lastUsed := now));
  }

  /** No key was used longer ago, and none before it in order as long ago. */
  predicate LeastUsed(m: OMap<CacheKey, Cached>, i: nat)
    requires m.Valid() && i < |m.keys|
  {
    && m.keys[i] in m.at
    && (forall j :: 0 <= j < |m.keys| ==> m.keys[j] in m.at && m.at[m.keys[i]].lastUsed <= m.at[m.keys[j]].lastUsed)
    && (forall j :: 0 <= j < i ==> m.keys[j] in m.at && m.at[m.keys[i]].lastUsed < m.at[m.keys[j]].lastUsed)
  }

  /** Some keys are gone, none of them used later than one that stays; those that stay are unchanged. */
  predicate LostOldest(before: map<CacheKey, Cached>, after: map<CacheKey, Cached>) {
    && (forall k :: k in after ==> k in before && after[k] == before[k])
    && (forall j, k :: j in before && j !in after && k in after ==> before[j].lastUsed <= after[k].lastUsed)
  }

  lemma SetKey(m: OMap<CacheKey, Cached>, k: CacheKey, c: Cached)
    requires m.Valid()
    ensures m.Set(k, c).Valid() && m.Set(k, c).at == m.at[k := c]
    ensures |m.Set(k, c).keys| == |m.keys| + if k in m.at then 0 else 1
  {
    SetValid(m, k, c);
  }

  lemma LeftOfSet(before: map<CacheKey, Cached>, k: CacheKey, c: Cached, after: map<CacheKey, Cached>)
    requires LostOldest(before[k := c], after)
    ensures forall j :: j in after ==> if j == k then after[j] == c else j in before && after[j] == before[j]
  {
  }

  lemma NoneLost(at: map<CacheKey, Cached>)
    ensures LostOldest(at, at)
  {
  }

  lemma LostBeside(before: map<CacheKey, Cached>, k: CacheKey, c: Cached, after: map<CacheKey, Cached>)
    requires LostOldest(before[k := c], after)
    ensures LostOldest(before - {k}, after - {k})
  {
  }

  lemma LoseOldest(before: map<CacheKey, Cached>, m: OMap<CacheKey, Cached>, i: nat)
    requires m.Valid() && i < |m.keys| && LeastUsed(m, i) && LostOldest(before, m.at)
    ensures LostOldest(before, m.Delete(m.keys[i]).at)
  {
    var after := m.Delete(m.keys[i]).at;
    forall j, k | j in before && j !in after && k in after
      ensures before[j].lastUsed <= after[k].lastUsed
    {
      assert k in m.keys;
    }
  }

  lemma DeleteShrinks(m: OMap<CacheKey, Cached>, k: CacheKey)
    requires m.Valid() && k in m.at
    ensures |m.Delete(k).keys| == |m.keys| - 1
    ensures Arrays(m.Delete(k).at) <= Arrays(m.at)
    ensures forall j :: j in m.Delete(k).at ==> j in m.at && m.Delete(k).at[j] == m.at[j]
  {
    DeleteValid(m, k);
    KeysCount(m);
    KeysCount(m.Delete(k));
    DeleteOne(m, k);
  }
}
