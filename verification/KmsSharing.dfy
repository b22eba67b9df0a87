/**
 When a call into the encrypted vault shares the placeholder of an earlier one: exactly when the first
 record of its value has not expired. So a live value can be given a second placeholder, and calls that
 overlap always give it one each.
 */
module KmsSharing {
  import opened Placeholder
  import opened Decimal
  import opened Taxonomy
  import opened OrderedMap
  import opened Wrappers
  import opened MemoryVault
  import opened VaultRepository
  import opened KmsInterns

  ghost predicate HmacInjective(c: Crypto) {
    forall key, k, v, l, w :: c.hmac(key, k, v) == c.hmac(key, l, w) ==> k == l && v == w
  }

  /** A call that shares an existing placeholder shares one whose record opens to a value of equal normal form. */
  lemma SharedOpens(s: System, c: Crypto, id: nat, now: int, key: string, wrapped: string, iv: string)
    requires Invariant(s, c) && HmacInjective(c) && id in s.calls && s.calls[id].LookUp?
    requires forall k :: k in s.repo.records.keys ==> k in s.repo.records.at
    requires Advance(s, c, id, now, key, wrapped, iv).calls[id].Returned?
    ensures var req, p := s.calls[id].req, Advance(s, c, id, now, key, wrapped, iv).calls[id].placeholder;
            var k := EntryKey(req.scope, p);
            && k in s.repo.records.at && s.repo.records.at[k].expiresAt > now
            && s.repo.records.at[k].kind == req.record.kind
            && Decrypted(s, k, c).Some? && c.nfc(Decrypted(s, k, c).value) == c.nfc(req.record.value)
  {
    hide FindHmac, MatchCounter, Bounded, Separate, Increasing;
    var LookUp(req, k, w) := s.calls[id];
    var found := FindHmac(s.repo.records.at, s.repo.records.keys, req.scope, req.record.kind,
                          c.hmac(k, req.record.kind, c.nfc(req.record.value)));
    assert KmsInterns.Keyed(s.calls[id], s.repo, c);
    assert Opens(found.value, s.repo.records.at[found.value], s.repo, c);
  }

  // ---- when a call shares ----

  /** The record of a place, opened, has the type and the normal form of the value asked for. */
  predicate OfValue(s: System, k: EntryKey, req: Request, c: Crypto) {
    && k in s.repo.records.at && k.scope == req.scope && s.repo.records.at[k].kind == req.record.kind
    && Decrypted(s, k, c).Some? && c.nfc(Decrypted(s, k, c).value) == c.nfc(req.record.value)
  }

  /** Of the records of this value, in order of arrival, the `i`-th record is the first. */
  predicate FirstOfValue(s: System, i: int, req: Request, c: Crypto) {
    && 0 <= i < |s.repo.records.keys| && OfValue(s, s.repo.records.keys[i], req, c)
    && forall j :: 0 <= j < i ==> !OfValue(s, s.repo.records.keys[j], req, c)
  }

  predicate LiveFirst(s: System, i: int, req: Request, c: Crypto, now: int) {
    FirstOfValue(s, i, req, c) && s.repo.records.at[s.repo.records.keys[i]].expiresAt > now
  }

  predicate Hashed(records: map<EntryKey, EncryptedRecord>, k: EntryKey, scope: Scope, kind: EntityType, hmac: string)
    requires k in records
  {
    k.scope == scope && records[k].kind == kind && records[k].valueHmac == hmac
  }

  lemma {:induction false} FindsFirst(records: map<EntryKey, EncryptedRecord>, keys: seq<EntryKey>, scope: Scope,
                                      kind: EntityType, hmac: string, i: nat)
    requires (forall k :: k in keys ==> k in records) && i < |keys|
    requires Hashed(records, keys[i], scope, kind, hmac)
    requires forall j :: 0 <= j < i ==> !Hashed(records, keys[j], scope, kind, hmac)
    ensures FindHmac(records, keys, scope, kind, hmac) == Some(keys[i])
  {
    if i > 0 {
      assert !Hashed(records, keys[0], scope, kind, hmac);
      FindsFirst(records, keys[1..], scope, kind, hmac, i - 1);
    }
  }

  lemma {:induction false} FoundIsFirst(records: map<EntryKey, EncryptedRecord>, keys: seq<EntryKey>, scope: Scope,
                                        kind: EntityType, hmac: string)
    returns (i: nat)
    requires forall k :: k in keys ==> k in records
    requires FindHmac(records, keys, scope, kind, hmac).Some?
    ensures i < |keys| && keys[i] == FindHmac(records, keys, scope, kind, hmac).value
    ensures Hashed(records, keys[i], scope, kind, hmac)
    ensures forall j :: 0 <= j < i ==> !Hashed(records, keys[j], scope, kind, hmac)
  {
    if Hashed(records, keys[0], scope, kind, hmac) {
      i := 0;
    } else {
      i := FoundIsFirst(records, keys[1..], scope, kind, hmac);
      i := i + 1;
    }
  }

  lemma HashedIsOfValue(s: System, c: Crypto, id: nat, k: EntryKey)
    requires Invariant(s, c) && HmacInjective(c) && id in s.calls && s.calls[id].LookUp? && k in s.repo.records.at
    ensures var LookUp(req, key, w) := s.calls[id];
            Hashed(s.repo.records.at, k, req.scope, req.record.kind,
                   c.hmac(key, req.record.kind, c.nfc(req.record.value)))
            <==> OfValue(s, k, req, c)
  {
    hide MatchCounter, Bounded, Separate, Increasing, Issued, OMap.Valid;
    assert KmsInterns.Keyed(s.calls[id], s.repo, c);
    assert Opens(k, s.repo.records.at[k], s.repo, c);
  }

  /**
   A call shares a placeholder if and only if the first record of its value has not expired, and then that
   of this record: behind an expired record no live one is found.
   */
  lemma SharesExactly(s: System, c: Crypto, id: nat, now: int)
    requires Invariant(s, c) && HmacInjective(c) && id in s.calls && s.calls[id].LookUp?
    requires forall k :: k in s.repo.records.keys ==> k in s.repo.records.at
    ensures var req, t := s.calls[id].req, Advance(s, c, id, now, "", "", "");
            && (t.calls[id].Returned? <==> exists i :: LiveFirst(s, i, req, c, now))
            && forall i :: LiveFirst(s, i, req, c, now) ==>
                 t.calls[id] == Returned(req, s.repo.records.keys[i].placeholder)
  {
    hide Invariant, FindHmac, OfValue, HmacInjective;
    var LookUp(req, key, w) := s.calls[id];
    var keys, at := s.repo.records.keys, s.repo.records.at;
    var hmac := c.hmac(key, req.record.kind, c.nfc(req.record.value));
    forall k | k in keys
      ensures Hashed(at, k, req.scope, req.record.kind, hmac) <==> OfValue(s, k, req, c)
    {
      HashedIsOfValue(s, c, id, k);
    }
    forall i | FirstOfValue(s, i, req, c)
      ensures FindHmac(at, keys, req.scope, req.record.kind, hmac) == Some(keys[i])
    {
      FindsFirst(at, keys, req.scope, req.record.kind, hmac, i);
    }
    if FindHmac(at, keys, req.scope, req.record.kind, hmac).Some? {
      var i := FoundIsFirst(at, keys, req.scope, req.record.kind, hmac);
      assert FirstOfValue(s, i, req, c);
      assert LiveFirst(s, i, req, c, now) <==> at[keys[i]].expiresAt > now;
    }
  }

  // ---- a live value gets another placeholder ----

  ghost predicate Reaches(s: System, t: System, c: Crypto) {
    exists states, es :: Run(states, es, c) && states[0] == s && states[|es|] == t
  }

  lemma ReachesItself(s: System, c: Crypto)
    requires Invariant(s, c)
    ensures Reaches(s, s, c)
  {
    hide Invariant;
    var states, es: seq<Event> := [s], [];
    assert Run(states, es, c);
  }

  lemma ReachesNext(s: System, t: System, e: Event, u: System, c: Crypto)
    requires Reaches(s, t, c) && Next(t, e, u, c)
    ensures Reaches(s, u, c)
  {
    hide Invariant, Next;
    var states, es :| Run(states, es, c) && states[0] == s && states[|es|] == t;
    var more, fs := states + [u], es + [e];
    forall i | 0 <= i < |fs|
      ensures Next(more[i], fs[i], more[i + 1], c)
    {
      if i < |es| {
        assert Next(states[i], es[i], states[i + 1], c);
      }
    }
    assert Run(more, fs, c);
  }

  lemma ReachedInvariant(s: System, t: System, c: Crypto)
    requires Reaches(s, t, c) && Lawful(c)
    ensures Invariant(t, c)
  {
    hide Invariant, Next;
    var states, es :| Run(states, es, c) && states[0] == s && states[|es|] == t;
    RunKeeps(states, es, c, 0, |es|);
  }

  /** A first call of a scope, up to the look-up of its value. */
  lemma FirstLooksUp(o: System, s: System, c: Crypto, id: nat, req: Request, w: string)
    requires Reaches(o, s, c) && id !in s.calls && !req.record.kind.Unlisted? && req.scope !in s.repo.sessionKeys
    ensures var t := s.(repo := s.repo.(sessionKeys := s.repo.sessionKeys[req.scope := w]));
            Reaches(o, Put(t, id, LookUp(req, c.unwrap(w), w)), c)
  {
    hide Reaches;
    var k := c.unwrap(w);
    var s1, s2, s3 := Put(s, id, GetSessionKey(req)), Put(s, id, CreateDataKey(req)), Put(s, id, ClaimKey(req, k, w));
    var s4 := Put(s.(repo := s.repo.(sessionKeys := s.repo.sessionKeys[req.scope := w])), id, LookUp(req, k, w));
    ReachesNext(o, s, Begin(id, req), s1, c);
    assert Advance(s1, c, id, 0, k, w, "") == Put(s1, id, CreateDataKey(req)) == s2;
    ReachesNext(o, s1, Step(id, 0, k, w, ""), s2, c);
    assert Advance(s2, c, id, 0, k, w, "") == Put(s2, id, ClaimKey(req, k, w)) == s3;
    ReachesNext(o, s2, Step(id, 0, k, w, ""), s3, c);
    assert Advance(s3, c, id, 0, k, w, "") == s4;
    ReachesNext(o, s3, Step(id, 0, k, w, ""), s4, c);
  }

  /** A later one. */
  lemma LooksUpAgain(o: System, s: System, c: Crypto, id: nat, req: Request, w: string)
    requires Reaches(o, s, c) && id !in s.calls && !req.record.kind.Unlisted?
    requires req.scope in s.repo.sessionKeys && s.repo.sessionKeys[req.scope] == w
    ensures Reaches(o, Put(s, id, LookUp(req, c.unwrap(w), w)), c)
  {
    hide Reaches;
    var s1, s2, s3 := Put(s, id, GetSessionKey(req)), Put(s, id, UnwrapKey(req, w)),
      Put(s, id, LookUp(req, c.unwrap(w), w));
    ReachesNext(o, s, Begin(id, req), s1, c);
    assert Advance(s1, c, id, 0, "", "", "") == Put(s1, id, UnwrapKey(req, w)) == s2;
    ReachesNext(o, s1, Step(id, 0, "", "", ""), s2, c);
    assert Advance(s2, c, id, 0, "", "", "") == Put(s2, id, LookUp(req, c.unwrap(w), w)) == s3;
    ReachesNext(o, s2, Step(id, 0, "", "", ""), s3, c);
  }

  /** What a call that looks up and finds nothing live goes on to store. */
  function Stored(c: Crypto, req: Request, w: string, place: EntryKey, now: int): EncryptedRecord {
    EncryptedRecord(
      c.seal(c.unwrap(w), "", c.aad(place, req.record.kind), req.record.value), w, req.record.kind,
      c.hmac(c.unwrap(w), req.record.kind, c.nfc(req.record.value)), now + req.record.ttlSec * 1_000)
  }

  /** What the look-up of a value by hash finds. */
  function Found(s: System, c: Crypto, req: Request, w: string): Option<EntryKey>
    requires forall k :: k in s.repo.records.keys ==> k in s.repo.records.at
  {
    FindHmac(s.repo.records.at, s.repo.records.keys, req.scope, req.record.kind,
             c.hmac(c.unwrap(w), req.record.kind, c.nfc(req.record.value)))
  }

  /** Without a live first record of its value a call goes on to take a number. */
  lemma PassesOn(o: System, s: System, c: Crypto, id: nat, req: Request, w: string, now: int)
    requires Reaches(o, s, c) && id in s.calls && s.calls[id] == LookUp(req, c.unwrap(w), w)
    requires forall k :: k in s.repo.records.keys ==> k in s.repo.records.at
    requires var f := Found(s, c, req, w); f.Some? ==> s.repo.records.at[f.value].expiresAt <= now
    ensures Reaches(o, Put(s, id, Allocate(req, c.unwrap(w), w)), c)
    ensures Advance(s, c, id, now, "", "", "") == Put(s, id, Allocate(req, c.unwrap(w), w))
  {
    hide Reaches, FindHmac;
    var a := Put(s, id, Allocate(req, c.unwrap(w), w));
    assert Advance(s, c, id, now, "", "", "") == a;
    ReachesNext(o, s, Step(id, now, "", "", ""), a, c);
  }

  /** It takes the next number and stores. */
  lemma StoresNext(o: System, s: System, c: Crypto, id: nat, req: Request, w: string, now: int, next: nat)
    returns (t: System)
    requires Reaches(o, s, c) && Lawful(c) && id in s.calls && s.calls[id] == Allocate(req, c.unwrap(w), w)
    requires !req.record.kind.Unlisted? && Parts(req.requested, req.record.kind) == ("KISI", "")
    requires next == NextCounter(s.repo, req.scope, "KISI", "", Minimum(req.requested)) <= MAX_COUNTER
    ensures Reaches(o, t, c)
    ensures var place := EntryKey(req.scope, Render("KISI", next, ""));
            && t.repo.records == s.repo.records.Set(place, Stored(c, req, w, place, now))
            && t.repo.sessionKeys == s.repo.sessionKeys
            && t.repo.counters == s.repo.counters[CounterKey(req.scope, "KISI", "") := next]
            && t.calls == s.calls[id := Returned(req, place.placeholder)]
            && place !in s.repo.records.at
  {
    hide Reaches, Invariant, NextCounter, Parts, Render, OMap.Set, CounterOf;
    var k, p, ck := c.unwrap(w), Render("KISI", next, ""), CounterKey(req.scope, "KISI", "");
    var place := EntryKey(req.scope, p);
    var b := Put(System(s.repo.(counters := s.repo.counters[ck := next]), s.calls,
                        s.issued + [Issue(req.scope, "KISI", "", next)]), id, Store(req, k, w, p));
    assert Advance(s, c, id, now, "", "", "") == b;
    ReachesNext(o, s, Step(id, now, "", "", ""), b, c);
    ReachedInvariant(o, b, c);
    StoreStepKeeps(b, c, id, now, "");
    t := Put(b.(repo := b.repo.(records := b.repo.records.Set(place, Stored(c, req, w, place, now)))), id,
             Returned(req, p));
    assert Advance(b, c, id, now, "", "", "") == t;
    ReachesNext(o, b, Step(id, now, "", "", ""), t, c);
  }

  function Nothing(): System {
    System(Repository(Empty(), map[], map[]), map[], [])
  }

  function Named(scope: Scope, kind: EntityType, value: string): Request {
    Request(scope, "[KISI_1]", VaultRecord(kind, value, 1))
  }

  lemma NamedParts(scope: Scope, kind: EntityType, value: string)
    requires !kind.Unlisted?
    ensures Parts("[KISI_1]", kind) == ("KISI", "") && Minimum("[KISI_1]") == 1
  {
    hide Parts, CounterOf, Render;
    KisiOne();
    PartsOfRendered("KISI", 1, "", kind);
  }

  lemma KisiOne()
    ensures IsLabel("KISI") && Render("KISI", 1, "") == "[KISI_1]"
  {
    Kisi("1");
    assert Numeral(1) == "1";
    assert "[KISI_" + "1" + "]" + "" == "[KISI_1]";
  }

  lemma FoundFirst(s: System, c: Crypto, req: Request, w: string, place: EntryKey)
    requires s.repo.records.keys != [] && s.repo.records.keys[0] == place && place.scope == req.scope
    requires forall k :: k in s.repo.records.keys ==> k in s.repo.records.at
    requires exists now :: s.repo.records.at[place] == Stored(c, req, w, place, now)
    ensures Found(s, c, req, w) == Some(place)
  {
  }

  /** The state behind a first call for a value that lives one second, made at time 0. */
  lemma OneStored(c: Crypto, scope: Scope, kind: EntityType, value: string, w: string)
    returns (t: System, place: EntryKey)
    requires Lawful(c) && !kind.Unlisted?
    ensures var req := Named(scope, kind, value);
            && Reaches(Nothing(), t, c) && t.calls == map[1 := Returned(req, place.placeholder)] && place.scope == scope
            && t.repo.records == OMap([place], map[place := Stored(c, req, w, place, 0)])
            && t.repo.sessionKeys == map[scope := w] && t.repo.counters == map[CounterKey(scope, "KISI", "") := 1]
  {
    hide Reaches, Invariant, Parts, CounterOf, Render, Stored;
    var req, o := Named(scope, kind, value), Nothing();
    NothingStored(c);
    ReachesItself(o, c);
    FirstLooksUp(o, o, c, 1, req, w);
    var s := Put(o.(repo := o.repo.(sessionKeys := map[scope := w])), 1, LookUp(req, c.unwrap(w), w));
    PassesOn(o, s, c, 1, req, w, 0);
    var a := Put(s, 1, Allocate(req, c.unwrap(w), w));
    NamedParts(scope, kind, value);
    t := StoresNext(o, a, c, 1, req, w, 0, 1);
    place := EntryKey(scope, Render("KISI", 1, ""));
    assert [] + [place] == [place];
  }

  /**
   So a live value gets another placeholder with every call: here the record of the first call has expired
   and the one of the second is live, and the third takes a number of its own.
   */
  lemma HidesLive(c: Crypto, scope: Scope, kind: EntityType, value: string, w: string)
    returns (t: System, place: EntryKey)
    requires Lawful(c) && !kind.Unlisted?
    ensures var req := Named(scope, kind, value);
            && Reaches(Nothing(), t, c) && t.repo.records.Valid() && 2 in t.calls && 3 in t.calls
            && t.calls[2] == Returned(req, place.placeholder) && OfValue(t, place, req, c)
            && t.repo.records.at[place].expiresAt > 1_000
            && t.calls[3] == LookUp(req, c.unwrap(w), w)
            && Advance(t, c, 3, 1_000, "", "", "").calls[3].Allocate?
  {
    hide Reaches, Invariant, Parts, CounterOf, Render, Stored, Found, OfValue, Advance;
    var req, o := Named(scope, kind, value), Nothing();
    var t1, first := OneStored(c, scope, kind, value, w);
    LooksUpAgain(o, t1, c, 2, req, w);
    var s := Put(t1, 2, LookUp(req, c.unwrap(w), w));
    FoundFirst(s, c, req, w, first);
    StoredExpires(c, req, w, first, 0);
    PassesOn(o, s, c, 2, req, w, 1_000);
    NamedParts(scope, kind, value);
    var t2 := StoresNext(o, Put(s, 2, Allocate(req, c.unwrap(w), w)), c, 2, req, w, 1_000, 2);
    place := EntryKey(scope, Render("KISI", 2, ""));
    LooksUpAgain(o, t2, c, 3, req, w);
    t := Put(t2, 3, LookUp(req, c.unwrap(w), w));
    ReachedInvariant(o, t, c);
    ValidRecords(t, c);
    assert t.repo.records.keys == [first] + [place];
    FoundFirst(t, c, req, w, first);
    PassesOn(o, t, c, 3, req, w, 1_000);
    StoredExpires(c, req, w, place, 1_000);
    StoredIsOfValue(t, c, req, w, place, 1_000);
  }

  lemma ValidRecords(s: System, c: Crypto)
    requires Invariant(s, c)
    ensures s.repo.records.Valid()
  {
  }

  lemma StoredExpires(c: Crypto, req: Request, w: string, place: EntryKey, now: int)
    ensures Stored(c, req, w, place, now).expiresAt == now + req.record.ttlSec * 1_000
  {
  }

  lemma StoredIsOfValue(s: System, c: Crypto, req: Request, w: string, place: EntryKey, now: int)
    requires Lawful(c) && place in s.repo.records.at && place.scope == req.scope
    requires s.repo.records.at[place] == Stored(c, req, w, place, now)
    ensures OfValue(s, place, req, c)
  {
    var k := c.unwrap(w);
    assert c.open(k, c.seal(k, "", c.aad(place, req.record.kind), req.record.value), c.aad(place, req.record.kind)) ==
           Some(req.record.value);
  }

  /** Two calls for one value that overlap both take a number: the value is stored twice, under different ones. */
  lemma StoredTwice(c: Crypto, scope: Scope, kind: EntityType, value: string, w: string)
    returns (t: System, p: EntryKey, q: EntryKey)
    requires Lawful(c) && !kind.Unlisted?
    ensures var req := Named(scope, kind, value);
            && Reaches(Nothing(), t, c) && p != q && OfValue(t, p, req, c) && OfValue(t, q, req, c)
            && t.calls == map[1 := Returned(req, p.placeholder), 2 := Returned(req, q.placeholder)]
            && t.repo.records.at[p].expiresAt == t.repo.records.at[q].expiresAt == 1_000
  {
    hide Reaches, Invariant, Parts, CounterOf, Render, Stored, OfValue, Advance;
    var req, o := Named(scope, kind, value), Nothing();
    var k := c.unwrap(w);
    NothingStored(c);
    ReachesItself(o, c);
    FirstLooksUp(o, o, c, 1, req, w);
    var s1 := Put(o.(repo := o.repo.(sessionKeys := map[scope := w])), 1, LookUp(req, k, w));
    LooksUpAgain(o, s1, c, 2, req, w);
    var s2 := Put(s1, 2, LookUp(req, k, w));
    PassesOn(o, s2, c, 1, req, w, 0);
    var s3 := Put(s2, 1, Allocate(req, k, w));
    PassesOn(o, s3, c, 2, req, w, 0);
    var s4 := Put(s3, 2, Allocate(req, k, w));
    NamedParts(scope, kind, value);
    var t1 := StoresNext(o, s4, c, 1, req, w, 0, 1);
    p := EntryKey(scope, Render("KISI", 1, ""));
    t := StoresNext(o, t1, c, 2, req, w, 0, 2);
    q := EntryKey(scope, Render("KISI", 2, ""));
    StoredExpires(c, req, w, p, 0);
    StoredExpires(c, req, w, q, 0);
    StoredIsOfValue(t, c, req, w, p, 0);
    StoredIsOfValue(t, c, req, w, q, 0);
  }
}
