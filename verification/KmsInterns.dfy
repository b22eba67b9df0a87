/**
 Interning into the encrypted vault. Each call awaits the repository and the key service several times,
 so calls of one or several gateways interleave between those steps, and expired records may be deleted
 at any moment in between.
 */
module KmsInterns {
  import opened Placeholder
  import opened Decimal
  import opened Taxonomy
  import opened OrderedMap
  import opened Wrappers
  import opened MemoryVault
  import opened VaultRepository

  /** The key service, the sealing of values and the keyed hash of values, as functions. */
  datatype Crypto = Crypto(
    unwrap: string -> string,
    seal: (string, string, string, string) -> string,
    open: (string, string, string) -> Option<string>,
    hmac: (string, EntityType, string) -> string,
    aad: (EntryKey, EntityType) -> string,
    nfc: string -> string)

  /** What was sealed under a key opens with it and the same associated data. */
  ghost predicate Lawful(c: Crypto) {
    forall key, iv, aad, value :: c.open(key, c.seal(key, iv, aad, value), aad) == Some(value)
  }

  datatype Request = Request(scope: Scope, requested: string, record: VaultRecord)

  /** Where a call stands; what it awaits next. */
  datatype Call =
    | GetSessionKey(req: Request)
    | CreateDataKey(req: Request)
    | ClaimKey(req: Request, key: string, wrapped: string)
    | UnwrapKey(req: Request, wrapped: string)
    | LookUp(req: Request, key: string, wrapped: string)
    | Allocate(req: Request, key: string, wrapped: string)
    | Store(req: Request, key: string, wrapped: string, placeholder: string)
    | Returned(req: Request, placeholder: string)
    | Threw

  datatype Issue = Issue(scope: Scope, lbl: string, suffix: string, counter: nat)

  /** `issued` has every counter given out, in order. */
  datatype System = System(repo: Repository, calls: map<nat, Call>, issued: seq<Issue>)

  /** A step of a call, with what the outside world supplies to it, or a sweep of the repository. */
  datatype Event =
    | Begin(id: nat, req: Request)
    | Step(id: nat, now: int, key: string, wrapped: string, iv: string)
    | Fail(id: nat)
    | Sweep(now: int)

  function Minimum(requested: string): nat {
    var n := CounterOf(requested);
    if n == 0 then 1 else n
  }

  function Put(s: System, id: nat, c: Call): System {
    s.(calls := s.calls[id := c])
  }

  /** One awaited step of a call. */
  function Advance(s: System, c: Crypto, id: nat, now: int, key: string, wrapped: string, iv: string): (t: System)
    requires id in s.calls && (s.calls[id].LookUp? ==> forall k :: k in s.repo.records.keys ==> k in s.repo.records.at)
    requires (s.calls[id].Allocate? ==> !s.calls[id].req.record.kind.Unlisted?)
    ensures id in t.calls
  {
    match s.calls[id]
    case GetSessionKey(req) =>
      if req.scope in s.repo.sessionKeys then Put(s, id, UnwrapKey(req, s.repo.sessionKeys[req.scope]))
      else Put(s, id, CreateDataKey(req))
    case CreateDataKey(req) => Put(s, id, ClaimKey(req, key, wrapped))
    case ClaimKey(req, k, w) =>
      if req.scope in s.repo.sessionKeys && s.repo.sessionKeys[req.scope] != w
      then Put(s, id, UnwrapKey(req, s.repo.sessionKeys[req.scope]))
      else Put(s.(repo := s.repo.(sessionKeys := s.repo.sessionKeys[req.scope := w])), id, LookUp(req, k, w))
    case UnwrapKey(req, w) => Put(s, id, LookUp(req, c.unwrap(w), w))
    case LookUp(req, k, w) =>
      var hmac := c.hmac(k, req.record.kind, c.nfc(req.record.value));
      var found := FindHmac(s.repo.records.at, s.repo.records.keys, req.scope, req.record.kind, hmac);
      if found.Some? && s.repo.records.at[found.value].expiresAt > now
      then Put(s, id, Returned(req, found.value.placeholder))
      else Put(s, id, Allocate(req, k, w))
    case Allocate(req, k, w) =>
      var (lbl, suffix) := Parts(req.requested, req.record.kind);
      var next := NextCounter(s.repo, req.scope, lbl, suffix, Minimum(req.requested));
      if next > MAX_COUNTER then Put(s, id, Threw)
      else
        var ck := CounterKey(req.scope, lbl, suffix);
        Put(System(s.repo.(counters := s.repo.counters[ck := next]), s.calls,
                   s.issued + [Issue(req.scope, lbl, suffix, next)]),
            id, Store(req, k, w, Render(lbl, next, suffix)))
    case Store(req, k, w, p) =>
      var at := EntryKey(req.scope, p);
      var record := EncryptedRecord(
        c.seal(k, iv, c.aad(at, req.record.kind), req.record.value), w, req.record.kind,
        c.hmac(k, req.record.kind, c.nfc(req.record.value)), now + req.record.ttlSec * 1_000);
      Put(s.(repo := s.repo.(records := s.repo.records.Set(at, record))), id, Returned(req, p))
    case Returned(_, _) => s
    case Threw => s
  }

  /** The records that are left are those that have not expired. */
  ghost predicate Swept(before: OMap<EntryKey, EncryptedRecord>, after: OMap<EntryKey, EncryptedRecord>, now: int) {
    && after.Valid()
    && (forall k :: k in after.at <==> k in before.at && before.at[k].expiresAt > now)
    && (forall k :: k in after.at ==> after.at[k] == before.at[k])
  }

  ghost predicate Next(s: System, e: Event, t: System, c: Crypto) {
    match e
    case Begin(id, req) => id !in s.calls && !req.record.kind.Unlisted? && t == Put(s, id, GetSessionKey(req))
    case Step(id, now, key, wrapped, iv) =>
      && id in s.calls
      && (s.calls[id].CreateDataKey? ==> c.unwrap(wrapped) == key)
      && (s.calls[id].LookUp? ==> forall k :: k in s.repo.records.keys ==> k in s.repo.records.at)
      && (s.calls[id].Allocate? ==> !s.calls[id].req.record.kind.Unlisted?)
      && t == Advance(s, c, id, now, key, wrapped, iv)
    case Fail(id) => id in s.calls && t == Put(s, id, Threw)
    case Sweep(now) =>
      && Swept(s.repo.records, t.repo.records, now)
      && t == s.(repo := s.repo.(records := t.repo.records))
  }

  // ---- what holds throughout ----

  /** A call past the claim works with the session key of its scope. */
  predicate Keyed(x: Call, repo: Repository, c: Crypto) {
    match x
    case ClaimKey(_, k, w) => k == c.unwrap(w)
    case UnwrapKey(req, w) => req.scope in repo.sessionKeys && repo.sessionKeys[req.scope] == w
    case LookUp(req, k, w) => req.scope in repo.sessionKeys && repo.sessionKeys[req.scope] == w && k == c.unwrap(w)
    case Allocate(req, k, w) => req.scope in repo.sessionKeys && repo.sessionKeys[req.scope] == w && k == c.unwrap(w)
    case Store(req, k, w, _) => req.scope in repo.sessionKeys && repo.sessionKeys[req.scope] == w && k == c.unwrap(w)
    case _ => true
  }

  predicate KnownKind(x: Call) {
    x.Threw? || !x.req.record.kind.Unlisted?
  }

  /** Each record is under the session key of its scope, opens, and carries the hash of what it opens to. */
  predicate Opens(k: EntryKey, r: EncryptedRecord, repo: Repository, c: Crypto) {
    && k.scope in repo.sessionKeys && r.wrappedKey == repo.sessionKeys[k.scope]
    && var key := c.unwrap(r.wrappedKey);
       var value := c.open(key, r.cipher, c.aad(k, r.kind));
       value.Some? && r.valueHmac == c.hmac(key, r.kind, c.nfc(value.value))
  }

  function PlaceIssued(a: Issue): EntryKey {
    EntryKey(a.scope, Render(a.lbl, a.counter, a.suffix))
  }

  predicate SameSeries(a: Issue, b: Issue) {
    a.scope == b.scope && a.lbl == b.lbl && a.suffix == b.suffix
  }

  /** Counters of one series strictly increase, and the stored counter is at least the last. */
  ghost predicate Increasing(s: System) {
    && (forall i, j :: 0 <= i < j < |s.issued| && SameSeries(s.issued[i], s.issued[j]) ==>
          s.issued[i].counter < s.issued[j].counter)
    && (forall a :: a in s.issued ==>
          && 1 <= a.counter <= MAX_COUNTER && (forall i :: 0 <= i < |a.lbl| ==> IsUpper(a.lbl[i]))
          && CounterKey(a.scope, a.lbl, a.suffix) in s.repo.counters
          && a.counter <= s.repo.counters[CounterKey(a.scope, a.lbl, a.suffix)])
  }

  /** No record is beyond the counter of its series. */
  ghost predicate Bounded(s: System) {
    && (forall ck :: ck in s.repo.counters ==> forall i :: 0 <= i < |ck.lbl| ==> IsUpper(ck.lbl[i]))
    && forall k, ck :: k in s.repo.records.at && ck in s.repo.counters && ck.scope == k.scope ==>
      MatchCounter(k.placeholder, ck.lbl, ck.suffix) <= s.repo.counters[ck]
  }

  /** Those about to store hold different places, all of them free. */
  ghost predicate Separate(s: System) {
    && (forall i, j :: i in s.calls && j in s.calls && i != j && s.calls[i].Store? && s.calls[j].Store? ==>
          PlaceOf(s.calls[i]) != PlaceOf(s.calls[j]))
    && (forall i :: i in s.calls && s.calls[i].Store? ==> PlaceOf(s.calls[i]) !in s.repo.records.at)
  }

  function PlaceOf(x: Call): EntryKey
    requires x.Store?
  {
    EntryKey(x.req.scope, x.placeholder)
  }

  /** Who is about to store does so under a placeholder that was given out. */
  ghost predicate Issued(x: Call, issued: seq<Issue>) {
    x.Store? ==> exists a :: a in issued && PlaceOf(x) == PlaceIssued(a)
  }

  ghost predicate Invariant(s: System, c: Crypto) {
    && s.repo.records.Valid()
    && (forall k :: k in s.repo.records.at ==> Opens(k, s.repo.records.at[k], s.repo, c))
    && (forall i :: i in s.calls ==> Keyed(s.calls[i], s.repo, c) && KnownKind(s.calls[i]))
    && (forall i :: i in s.calls ==> Issued(s.calls[i], s.issued))
    && Increasing(s) && Bounded(s) && Separate(s)
  }

  /** A call that goes on without storing. */
  lemma PutKeeps(s: System, id: nat, x: Call, c: Crypto)
    requires Invariant(s, c) && !x.Store? && Keyed(x, s.repo, c) && KnownKind(x)
    ensures Invariant(Put(s, id, x), c)
  {
    hide Keyed, KnownKind, Opens, OMap.Valid, Issued, Increasing, Bounded, Separate;
    assert Issued(x, s.issued) by { NotStoring(x, s.issued); }
    PutLeaves(s, id, x);
  }

  /** What does not speak of calls that go on without storing. */
  lemma PutLeaves(s: System, id: nat, x: Call)
    requires Increasing(s) && Bounded(s) && Separate(s) && !x.Store?
    ensures Increasing(Put(s, id, x)) && Bounded(Put(s, id, x)) && Separate(Put(s, id, x))
  {
    hide MatchCounter;
  }

  lemma NotStoring(x: Call, issued: seq<Issue>)
    requires !x.Store?
    ensures Issued(x, issued)
  {
  }

  /** A session key, once claimed, is the session key. */
  predicate KeysStay(s: System, t: System) {
    forall scope :: scope in s.repo.sessionKeys ==>
      scope in t.repo.sessionKeys && t.repo.sessionKeys[scope] == s.repo.sessionKeys[scope]
  }

  /** The first claim of a scope. */
  lemma ClaimKeeps(s: System, id: nat, c: Crypto, w: string)
    requires Invariant(s, c) && id in s.calls && s.calls[id].ClaimKey? && w == s.calls[id].wrapped
    requires s.calls[id].req.scope !in s.repo.sessionKeys || s.repo.sessionKeys[s.calls[id].req.scope] == w
    ensures var t := s.(repo := s.repo.(sessionKeys := s.repo.sessionKeys[s.calls[id].req.scope := w]));
            && Invariant(t, c)
            && KeysStay(s, t)
  {
    hide KnownKind, OMap.Valid, Issued, Increasing, Bounded, Separate;
    var t := s.(repo := s.repo.(sessionKeys := s.repo.sessionKeys[s.calls[id].req.scope := w]));
    assert Increasing(t) && Bounded(t) && Separate(t) by { ClaimElsewhere(s, t); }
    forall i | i in t.calls ensures Keyed(t.calls[i], t.repo, c) {
      assert Keyed(s.calls[i], s.repo, c);
    }
  }

  lemma ClaimElsewhere(s: System, t: System)
    requires t.calls == s.calls && t.issued == s.issued
    requires t.repo.records == s.repo.records && t.repo.counters == s.repo.counters
    requires Increasing(s) && Bounded(s) && Separate(s)
    ensures Increasing(t) && Bounded(t) && Separate(t)
  {
  }

  /** The next counter of a series is beyond every record and every placeholder given out. */
  lemma NextIsNew(s: System, c: Crypto, scope: Scope, lbl: string, suffix: string, minimum: nat)
    requires Invariant(s, c) && forall i :: 0 <= i < |lbl| ==> IsUpper(lbl[i])
    requires NextCounter(s.repo, scope, lbl, suffix, minimum) <= MAX_COUNTER
    ensures var next := NextCounter(s.repo, scope, lbl, suffix, minimum);
            var place := EntryKey(scope, Render(lbl, next, suffix));
            && next >= 1 && place !in s.repo.records.at
            && (forall a :: a in s.issued ==> PlaceIssued(a) != place)
            && (forall a :: a in s.issued && SameSeries(a, Issue(scope, lbl, suffix, next)) ==> a.counter < next)
            && (forall k :: k in s.repo.records.at && k.scope == scope ==>
                MatchCounter(k.placeholder, lbl, suffix) < next)
  {
    hide MatchCounter, Render, Keyed, Opens, Issued, Separate;
    var next := NextCounter(s.repo, scope, lbl, suffix, minimum);
    var place, ck := EntryKey(scope, Render(lbl, next, suffix)), CounterKey(scope, lbl, suffix);
    HighestBounds(s.repo.records.keys, scope, lbl, suffix);
    MatchRendered(lbl, next, suffix);
    forall k | k in s.repo.records.at && k.scope == scope
      ensures MatchCounter(k.placeholder, lbl, suffix) < next
    {
      assert k in s.repo.records.keys;
      assert ck in s.repo.counters ==> ck.scope == k.scope;
      if ck in s.repo.counters {
        assert MatchCounter(k.placeholder, ck.lbl, ck.suffix) <= s.repo.counters[ck];
      }
    }
    forall a | a in s.issued ensures PlaceIssued(a) != place {
      assert SameSeries(a, Issue(scope, lbl, suffix, next)) ==> CounterKey(a.scope, a.lbl, a.suffix) == ck;
      if PlaceIssued(a) == place {
        RenderInjective(a.lbl, a.counter, a.suffix, lbl, next, suffix);
      }
    }
  }

  lemma AllocateKeeps(s: System, id: nat, c: Crypto, req: Request, k: string, w: string, lbl: string, suffix: string,
                      next: nat)
    requires Invariant(s, c) && id in s.calls && s.calls[id] == Allocate(req, k, w)
    requires forall i :: 0 <= i < |lbl| ==> IsUpper(lbl[i])
    requires next == NextCounter(s.repo, req.scope, lbl, suffix, Minimum(req.requested)) && next <= MAX_COUNTER
    ensures var ck := CounterKey(req.scope, lbl, suffix);
            Invariant(Put(System(s.repo.(counters := s.repo.counters[ck := next]), s.calls,
                                 s.issued + [Issue(req.scope, lbl, suffix, next)]),
                          id, Store(req, k, w, Render(lbl, next, suffix))), c)
  {
    hide MatchCounter, Render, Opens, OMap.Valid, NextCounter, Keyed, KnownKind, Increasing, Bounded, Separate, Issued;
    var ck, a := CounterKey(req.scope, lbl, suffix), Issue(req.scope, lbl, suffix, next);
    var x := Store(req, k, w, Render(lbl, next, suffix));
    var t := Put(System(s.repo.(counters := s.repo.counters[ck := next]), s.calls, s.issued + [a]), id, x);
    NextIsNew(s, c, req.scope, lbl, suffix, Minimum(req.requested));
    assert forall e :: e in s.repo.records.at ==> Opens(e, s.repo.records.at[e], t.repo, c) by {
      forall e | e in s.repo.records.at ensures Opens(e, s.repo.records.at[e], t.repo, c) {
        OpensStill(e, s.repo.records.at[e], s.repo, t.repo, c);
      }
    }
    forall i | i in t.calls
      ensures Keyed(t.calls[i], t.repo, c) && KnownKind(t.calls[i]) && Issued(t.calls[i], t.issued)
    {
      CallStill(s, t, i, id, c, a);
    }
    IncreasingThen(s, t, a, ck);
    BoundedThen(s, t, a, ck);
    SeparateThen(s, t, id, a, x, c);
  }

  lemma OpensStill(k: EntryKey, r: EncryptedRecord, before: Repository, after: Repository, c: Crypto)
    requires Opens(k, r, before, c) && after.sessionKeys == before.sessionKeys
    ensures Opens(k, r, after, c)
  {
  }

  lemma CallStill(s: System, t: System, i: nat, id: nat, c: Crypto, a: Issue)
    requires i in t.calls && id in s.calls && s.calls[id].Allocate? && (i == id || i in s.calls)
    requires Keyed(s.calls[i], s.repo, c) && KnownKind(s.calls[i]) && Issued(s.calls[i], s.issued)
    requires t.repo.sessionKeys == s.repo.sessionKeys && t.issued == s.issued + [a]
    requires t.calls[i] == if i == id
                           then Store(s.calls[id].req, s.calls[id].key, s.calls[id].wrapped, PlaceIssued(a).placeholder)
                           else s.calls[i]
    requires i == id ==> a.scope == s.calls[id].req.scope
    ensures Keyed(t.calls[i], t.repo, c) && KnownKind(t.calls[i]) && Issued(t.calls[i], t.issued)
  {
    hide Render;
    assert a in t.issued && forall b :: b in s.issued ==> b in t.issued;
    if i == id {
      assert PlaceOf(t.calls[i]) == PlaceIssued(a);
    }
  }

  lemma IncreasingThen(s: System, t: System, a: Issue, ck: CounterKey)
    requires Increasing(s) && t.issued == s.issued + [a] && ck == CounterKey(a.scope, a.lbl, a.suffix)
    requires t.repo.counters == s.repo.counters[ck := a.counter]
    requires 1 <= a.counter <= MAX_COUNTER && forall i :: 0 <= i < |a.lbl| ==> IsUpper(a.lbl[i])
    requires forall b :: b in s.issued && SameSeries(b, a) ==> b.counter < a.counter
    ensures Increasing(t)
  {
    forall i, j | 0 <= i < j < |t.issued| && SameSeries(t.issued[i], t.issued[j])
      ensures t.issued[i].counter < t.issued[j].counter
    {
      assert t.issued[i] == s.issued[i] && s.issued[i] in s.issued;
      assert j < |s.issued| ==> t.issued[j] == s.issued[j];
    }
  }

  lemma BoundedThen(s: System, t: System, a: Issue, ck: CounterKey)
    requires Bounded(s) && t.repo.records == s.repo.records && ck == CounterKey(a.scope, a.lbl, a.suffix)
    requires t.repo.counters == s.repo.counters[ck := a.counter]
    requires forall i :: 0 <= i < |a.lbl| ==> IsUpper(a.lbl[i])
    requires forall k :: k in s.repo.records.at && k.scope == a.scope ==>
             MatchCounter(k.placeholder, a.lbl, a.suffix) < a.counter
    ensures Bounded(t)
  {
    hide MatchCounter;
  }

  lemma SeparateThen(s: System, t: System, id: nat, a: Issue, x: Call, c: Crypto)
    requires Separate(s) && t.repo.records == s.repo.records && t.calls == s.calls[id := x]
    requires x.Store? && PlaceOf(x) == PlaceIssued(a) && PlaceIssued(a) !in s.repo.records.at
    requires forall b :: b in s.issued ==> PlaceIssued(b) != PlaceIssued(a)
    requires forall i :: i in s.calls ==> Issued(s.calls[i], s.issued)
    ensures Separate(t)
  {
    hide Render;
    forall i | i in s.calls && s.calls[i].Store? ensures PlaceOf(s.calls[i]) != PlaceIssued(a) {
      assert Issued(s.calls[i], s.issued);
      var b :| b in s.issued && PlaceOf(s.calls[i]) == PlaceIssued(b);
    }
  }

  lemma StoreKeeps(s: System, id: nat, c: Crypto, record: EncryptedRecord)
    requires Invariant(s, c) && id in s.calls && s.calls[id].Store?
    requires var x := s.calls[id]; Opens(PlaceOf(x), record, s.repo, c)
    ensures var x := s.calls[id];
            && PlaceOf(x) !in s.repo.records.at
            && Invariant(Put(s.(repo := s.repo.(records := s.repo.records.Set(PlaceOf(x), record))), id,
                             Returned(x.req, x.placeholder)), c)
  {
    hide MatchCounter, Render, Opens, OMap.Valid, Keyed, Issued, Increasing;
    var x := s.calls[id];
    var place := PlaceOf(x);
    var t := Put(s.(repo := s.repo.(records := s.repo.records.Set(place, record))), id, Returned(x.req, x.placeholder));
    SetValid(s.repo.records, place, record);
    forall k | k in t.repo.records.at ensures Opens(k, t.repo.records.at[k], t.repo, c) {
      OpensStill(k, t.repo.records.at[k], s.repo, t.repo, c);
    }
    forall i | i in t.calls
      ensures Keyed(t.calls[i], t.repo, c) && KnownKind(t.calls[i]) && Issued(t.calls[i], t.issued)
    {
      CallKept(s, t, i, id, c);
    }
    assert Increasing(t) by { IncreasingSame(s, t); }
    assert Issued(x, s.issued);
    StoreBounded(s, t, x);
  }

  lemma CallKept(s: System, t: System, i: nat, id: nat, c: Crypto)
    requires i in s.calls && i in t.calls
    requires Keyed(s.calls[i], s.repo, c) && KnownKind(s.calls[i]) && Issued(s.calls[i], s.issued)
    requires t.repo.sessionKeys == s.repo.sessionKeys && t.issued == s.issued
    requires t.calls[i] == s.calls[i] ||
             (t.calls[i].Returned? && !s.calls[i].Threw? && t.calls[i].req == s.calls[i].req)
    ensures Keyed(t.calls[i], t.repo, c) && KnownKind(t.calls[i]) && Issued(t.calls[i], t.issued)
  {
  }

  lemma IncreasingSame(s: System, t: System)
    requires Increasing(s) && t.issued == s.issued && t.repo.counters == s.repo.counters
    ensures Increasing(t)
  {
  }

  lemma StoreBounded(s: System, t: System, x: Call)
    requires Bounded(s) && Increasing(s) && x.Store? && Issued(x, s.issued)
    requires t.repo.counters == s.repo.counters
    requires forall k :: k in t.repo.records.at ==> k in s.repo.records.at || k == PlaceOf(x)
    ensures Bounded(t)
  {
    hide MatchCounter, Render;
    var a :| a in s.issued && PlaceOf(x) == PlaceIssued(a);
    MatchRendered(a.lbl, a.counter, a.suffix);
    forall ck | ck in s.repo.counters && ck.scope == a.scope
      ensures MatchCounter(PlaceOf(x).placeholder, ck.lbl, ck.suffix) <= s.repo.counters[ck]
    {
      if MatchCounter(PlaceOf(x).placeholder, ck.lbl, ck.suffix) > 0 {
        MatchesOne(a.lbl, a.counter, a.suffix, ck.lbl, ck.suffix);
        assert ck == CounterKey(a.scope, a.lbl, a.suffix);
      }
    }
  }

  lemma SweepKeeps(s: System, t: System, c: Crypto, now: int)
    requires Invariant(s, c) && Swept(s.repo.records, t.repo.records, now)
    requires t == s.(repo := s.repo.(records := t.repo.records))
    ensures Invariant(t, c)
  {
    hide MatchCounter, Render, Opens, OMap.Valid, Keyed, Issued, Increasing;
    assert Increasing(t) by { IncreasingSame(s, t); }
    forall k | k in t.repo.records.at ensures Opens(k, t.repo.records.at[k], t.repo, c) {
      OpensStill(k, t.repo.records.at[k], s.repo, t.repo, c);
    }
    forall i | i in t.calls
      ensures Keyed(t.calls[i], t.repo, c) && KnownKind(t.calls[i]) && Issued(t.calls[i], t.issued)
    {
      CallKept(s, t, i, i, c);
    }
  }

  // ---- every step, every run ----

  /** The record that was stored under a key is the record, for as long as there is one. */
  predicate RecordsStay(s: System, t: System) {
    forall k :: k in s.repo.records.at && k in t.repo.records.at ==> t.repo.records.at[k] == s.repo.records.at[k]
  }

  lemma AdvanceKeeps(s: System, c: Crypto, id: nat, now: int, key: string, wrapped: string, iv: string)
    requires Invariant(s, c) && Lawful(c) && id in s.calls
    requires s.calls[id].CreateDataKey? ==> c.unwrap(wrapped) == key
    requires s.calls[id].LookUp? ==> forall k :: k in s.repo.records.keys ==> k in s.repo.records.at
    requires s.calls[id].Allocate? ==> !s.calls[id].req.record.kind.Unlisted?
    ensures var t := Advance(s, c, id, now, key, wrapped, iv);
            Invariant(t, c) && KeysStay(s, t) && RecordsStay(s, t) && s.issued <= t.issued
  {
    hide Invariant, FindHmac, NextCounter, Parts, Render, OMap.Set;
    var x := s.calls[id];
    InvariantCall(s, id, c);
    match x {
      case GetSessionKey(req) =>
        if req.scope in s.repo.sessionKeys {
          PutKeeps(s, id, UnwrapKey(req, s.repo.sessionKeys[req.scope]), c);
        } else {
          PutKeeps(s, id, CreateDataKey(req), c);
        }
      case CreateDataKey(req) =>
        PutKeeps(s, id, ClaimKey(req, key, wrapped), c);
      case ClaimKey(req, k, w) =>
        if req.scope in s.repo.sessionKeys && s.repo.sessionKeys[req.scope] != w {
          PutKeeps(s, id, UnwrapKey(req, s.repo.sessionKeys[req.scope]), c);
        } else {
          ClaimKeeps(s, id, c, w);
          PutKeeps(s.(repo := s.repo.(sessionKeys := s.repo.sessionKeys[req.scope := w])), id, LookUp(req, k, w), c);
        }
      case UnwrapKey(req, w) =>
        PutKeeps(s, id, LookUp(req, c.unwrap(w), w), c);
      case LookUp(req, k, w) =>
        var found := FindHmac(s.repo.records.at, s.repo.records.keys, req.scope, req.record.kind,
                              c.hmac(k, req.record.kind, c.nfc(req.record.value)));
        if found.Some? && s.repo.records.at[found.value].expiresAt > now {
          PutKeeps(s, id, Returned(req, found.value.placeholder), c);
        } else {
          PutKeeps(s, id, Allocate(req, k, w), c);
        }
      case Allocate(req, k, w) =>
        var (lbl, suffix) := Parts(req.requested, req.record.kind);
        var next := NextCounter(s.repo, req.scope, lbl, suffix, Minimum(req.requested));
        if next > MAX_COUNTER {
          PutKeeps(s, id, Threw, c);
        } else {
          AllocateKeeps(s, id, c, req, k, w, lbl, suffix, next);
        }
      case Store(req, k, w, p) =>
        StoreStepKeeps(s, c, id, now, iv);
      case Returned(_, _) =>
      case Threw =>
    }
  }

  lemma InvariantCall(s: System, id: nat, c: Crypto)
    requires Invariant(s, c) && id in s.calls
    ensures Keyed(s.calls[id], s.repo, c) && KnownKind(s.calls[id]) && s.repo.records.Valid()
  {
  }

  /** What is stored opens to the value, and nothing was there before. */
  lemma StoreStepKeeps(s: System, c: Crypto, id: nat, now: int, iv: string)
    requires Invariant(s, c) && Lawful(c) && id in s.calls && s.calls[id].Store?
    ensures var t := Advance(s, c, id, now, "", "", iv);
            var x := s.calls[id];
            && PlaceOf(x) !in s.repo.records.at
            && Invariant(t, c) && KeysStay(s, t) && RecordsStay(s, t) && t.issued == s.issued
            && PlaceOf(x) in t.repo.records.at && t.calls[id] == Returned(x.req, x.placeholder)
            && Decrypted(t, PlaceOf(x), c) == Some(x.req.record.value)
            && t.repo.records.at[PlaceOf(x)].kind == x.req.record.kind
  {
    hide Invariant, MatchCounter, Render;
    InvariantCall(s, id, c);
    var Store(req, k, w, p) := s.calls[id];
    var at := EntryKey(req.scope, p);
    var record := EncryptedRecord(
      c.seal(k, iv, c.aad(at, req.record.kind), req.record.value), w, req.record.kind,
      c.hmac(k, req.record.kind, c.nfc(req.record.value)), now + req.record.ttlSec * 1_000);
    assert c.open(k, record.cipher, c.aad(at, req.record.kind)) == Some(req.record.value);
    StoreKeeps(s, id, c, record);
  }

  /** What resolving a stored placeholder gives: the session key is unwrapped and the record opened. */
  function Decrypted(s: System, k: EntryKey, c: Crypto): Option<string>
    requires k in s.repo.records.at
  {
    var r := s.repo.records.at[k];
    c.open(c.unwrap(r.wrappedKey), r.cipher, c.aad(k, r.kind))
  }

  /**
   A request for a placeholder is answered in its series, by a number no lower than the one requested, unless the
   numbers are used up.
   */
  lemma AllocatesFor(s: System, c: Crypto, id: nat, lbl: string, n: nat, suffix: string)
    requires Invariant(s, c) && id in s.calls && s.calls[id].Allocate? && !s.calls[id].req.record.kind.Unlisted?
    requires IsLabel(lbl) && 1 <= n <= 99_999 && (suffix == "" || IsSuffix(suffix))
    requires s.calls[id].req.requested == Render(lbl, n, suffix)
    ensures var req, t := s.calls[id].req, Advance(s, c, id, 0, "", "", "");
            if NextCounter(s.repo, req.scope, lbl, suffix, n) > 99_999 then t.calls[id] == Threw
            else
              && t.calls[id].Store? && t.calls[id].req == req && t.issued != []
              && var a := t.issued[|t.issued| - 1];
                 && a.scope == req.scope && a.lbl == lbl && a.suffix == suffix && n <= a.counter <= 99_999
                 && t.calls[id].placeholder == Render(lbl, a.counter, suffix)
  {
    hide Invariant, Parts, CounterOf, Render, IsLabel, IsSuffix, Current;
    PartsOfRendered(lbl, n, suffix, s.calls[id].req.record.kind);
  }

  lemma NextKeeps(s: System, e: Event, t: System, c: Crypto)
    requires Invariant(s, c) && Lawful(c) && Next(s, e, t, c)
    ensures Invariant(t, c) && KeysStay(s, t) && RecordsStay(s, t) && s.issued <= t.issued
  {
    hide Invariant, Advance, OMap.Valid;
    match e {
      case Begin(id, req) => PutKeeps(s, id, GetSessionKey(req), c);
      case Step(id, now, key, wrapped, iv) => AdvanceKeeps(s, c, id, now, key, wrapped, iv);
      case Fail(id) => PutKeeps(s, id, Threw, c);
      case Sweep(now) => SweepKeeps(s, t, c, now);
    }
  }

  ghost predicate Run(states: seq<System>, es: seq<Event>, c: Crypto) {
    && |states| == |es| + 1 && Invariant(states[0], c)
    && forall i :: 0 <= i < |es| ==> Next(states[i], es[i], states[i + 1], c)
  }

  lemma NothingStored(c: Crypto)
    ensures Invariant(System(Repository(Empty(), map[], map[]), map[], []), c)
  {
  }

  /**
   In every run, under every interleaving: the session key of a scope is the one first claimed; every
   record is under it and opens; counters given out in a series strictly increase and stay within 99999.
   */
  lemma {:induction false} RunKeeps(states: seq<System>, es: seq<Event>, c: Crypto, i: nat, j: nat)
    requires Run(states, es, c) && Lawful(c) && i <= j < |states|
    ensures Invariant(states[j], c) && KeysStay(states[i], states[j]) && states[i].issued <= states[j].issued
    ensures forall k :: k in states[j].repo.records.at ==>
              && k.scope in states[j].repo.sessionKeys
              && states[j].repo.records.at[k].wrappedKey == states[j].repo.sessionKeys[k.scope]
              && Decrypted(states[j], k, c).Some?
    ensures forall m, n :: 0 <= m < n < |states[j].issued| && SameSeries(states[j].issued[m], states[j].issued[n]) ==>
                             states[j].issued[m].counter < states[j].issued[n].counter <= MAX_COUNTER
    decreases j
  {
    hide Next;
    if j > 0 {
      RunKeeps(states, es, c, if i < j then i else j - 1, j - 1);
      NextKeeps(states[j - 1], es[j - 1], states[j], c);
    }
    AtRest(states[j], c);
    assert i == j ==> KeysStay(states[i], states[j]);
  }

  lemma AtRest(s: System, c: Crypto)
    requires Invariant(s, c)
    ensures forall k :: k in s.repo.records.at ==>
              && k.scope in s.repo.sessionKeys && s.repo.records.at[k].wrappedKey == s.repo.sessionKeys[k.scope]
              && Decrypted(s, k, c).Some?
    ensures forall m, n :: 0 <= m < n < |s.issued| && SameSeries(s.issued[m], s.issued[n]) ==>
                             s.issued[m].counter < s.issued[n].counter <= MAX_COUNTER
  {
    hide MatchCounter, Bounded, Separate, Keyed, Issued, OMap.Valid;
    forall k | k in s.repo.records.at
      ensures && k.scope in s.repo.sessionKeys && s.repo.records.at[k].wrappedKey == s.repo.sessionKeys[k.scope]
              && Decrypted(s, k, c).Some?
    {
      assert Opens(k, s.repo.records.at[k], s.repo, c);
    }
    forall m, n | 0 <= m < n < |s.issued| && SameSeries(s.issued[m], s.issued[n])
      ensures s.issued[m].counter < s.issued[n].counter <= MAX_COUNTER
    {
      assert s.issued[n] in s.issued;
    }
  }

  /**
   No `put` overwrites a record, and what a call stored opens, for as long as the record is there, to the
   very value the call was given.
   */
  lemma {:induction false} StoredStays(states: seq<System>, es: seq<Event>, c: Crypto, i: nat, j: nat)
    requires Run(states, es, c) && Lawful(c) && i < j < |states|
    requires es[i].Step? && es[i].id in states[i].calls && states[i].calls[es[i].id].Store?
    requires forall n :: i < n <= j ==> PlaceOf(states[i].calls[es[i].id]) in states[n].repo.records.at
    ensures var x := states[i].calls[es[i].id];
            && PlaceOf(x) !in states[i].repo.records.at
            && Decrypted(states[j], PlaceOf(x), c) == Some(x.req.record.value)
    decreases j
  {
    hide Invariant, Advance, Decrypted;
    var x := states[i].calls[es[i].id];
    RunKeeps(states, es, c, 0, i);
    if j == i + 1 {
      JustStored(states[i], es[i], states[j], c);
    } else {
      StoredStays(states, es, c, i, j - 1);
      RunKeeps(states, es, c, 0, j - 1);
      NextKeeps(states[j - 1], es[j - 1], states[j], c);
      StillOpens(states[j - 1], states[j], c, PlaceOf(x));
    }
  }

  lemma JustStored(s: System, e: Event, t: System, c: Crypto)
    requires Invariant(s, c) && Lawful(c) && Next(s, e, t, c)
    requires e.Step? && e.id in s.calls && s.calls[e.id].Store?
    ensures var x := s.calls[e.id];
            PlaceOf(x) !in s.repo.records.at && Decrypted(t, PlaceOf(x), c) == Some(x.req.record.value)
  {
    hide Invariant, Decrypted, Render, MatchCounter;
    var Step(id, now, key, wrapped, iv) := e;
    StoreStepKeeps(s, c, id, now, iv);
    assert Advance(s, c, id, now, key, wrapped, iv) == Advance(s, c, id, now, "", "", iv);
  }

  /** A record that is still there opens as before. */
  lemma StillOpens(s: System, t: System, c: Crypto, k: EntryKey)
    requires KeysStay(s, t) && RecordsStay(s, t) && k in s.repo.records.at && k in t.repo.records.at
    requires Decrypted(s, k, c).Some?
    ensures Decrypted(t, k, c) == Decrypted(s, k, c)
  {
  }
}
