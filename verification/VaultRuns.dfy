/** Whole runs of the in-memory vault: any sequence of operations, at any times. */
module VaultRuns {
  import opened Placeholder
  import opened Decimal
  import opened Numbers
  import opened Sets
  import opened Taxonomy
  import opened OrderedMap
  import opened MemoryVault
  import opened Wrappers

  /** One call with the time it was made at and what it returned. */
  datatype Op =
    | InternOp(scope: Scope, requested: string, record: VaultRecord, now: int, got: string)
    | ResolveOp(scope: Scope, placeholder: string, now: int, found: Option<string>)
    | SweepOp(now: int)

  /** What the methods of the vault ensure of one call. */
  ghost predicate Happens(before: State, op: Op, after: State, nfc: string -> string, max: nat) {
    match op
    case InternOp(scope, requested, record, now, got) =>
      !record.kind.Unlisted? && Interns(before, after, nfc, max, scope, requested, record, now, got)
    case ResolveOp(scope, placeholder, now, found) =>
      var k := EntryKey(scope, placeholder);
      && after == Resolved(before, scope, placeholder, now)
      && found == if Live(before, k, now) then Some(before.entries.at[k].value) else None
    case SweepOp(now) => SweptTo(before, after, |before.entries.keys|, now)
  }

  ghost predicate Run(states: seq<State>, ops: seq<Op>, nfc: string -> string, max: nat) {
    && |states| == |ops| + 1
    && Coherent(states[0], nfc, max)
    && forall i :: 0 <= i < |ops| ==> Happens(states[i], ops[i], states[i + 1], nfc, max)
  }

  // ---- what every step keeps ----

  lemma LiveKeysAre(entries: map<EntryKey, Stored>, keys: seq<EntryKey>, now: int)
    requires forall k :: k in keys ==> k in entries
    ensures forall k :: k in LiveKeys(entries, keys, now) <==> k in keys && entries[k].expiresAt > now
    ensures |LiveKeys(entries, keys, now)| <= |keys|
  {
    if keys != [] {
      var init, last := keys[..|keys| - 1], keys[|keys| - 1];
      LiveKeysAre(entries, init, now);
      assert keys == init + [last];
    }
  }

  lemma SweptCoherent(before: State, after: State, now: int, nfc: string -> string, max: nat)
    requires Coherent(before, nfc, max) && SweptTo(before, after, |before.entries.keys|, now)
    ensures Coherent(after, nfc, max) && Keeps(before, after)
    ensures forall k :: k in after.entries.at <==> Live(before, k, now)
  {
    var keys := before.entries.keys;
    assert keys[..|keys|] == keys && keys[|keys|..] == [];
    LiveKeysAre(before.entries.at, keys, now);
    forall rk | rk in after.reverse
      ensures EntryKey(rk.scope, after.reverse[rk]) in after.entries.at
    {
      var k := EntryKey(rk.scope, before.reverse[rk]);
      assert !Dropped(before, keys, now, rk);
      assert k in keys && before.entries.at[k].reverseKey == rk;
    }
  }

  /** Whether the value of `record` has a live placeholder already. */
  ghost predicate Shares(before: State, nfc: string -> string, scope: Scope, record: VaultRecord, now: int) {
    var rk := ReverseKey(scope, record.kind, nfc(record.value));
    rk in before.reverse && Live(before, EntryKey(scope, before.reverse[rk]), now)
  }

  /** How many of `n` entries are too many. */
  function Excess(n: nat, max: nat): (cut: nat)
    ensures cut <= n
  {
    if n <= max then 0 else n - max
  }

  function NewEntry(nfc: string -> string, scope: Scope, record: VaultRecord, now: int): Stored {
    Stored(record.kind, record.value, now + record.ttlSec * 1_000, ReverseKey(scope, record.kind, nfc(record.value)))
  }

  lemma InternsShares(before: State, after: State, nfc: string -> string, max: nat,
                      scope: Scope, requested: string, record: VaultRecord, now: int, p: string)
    requires !record.kind.Unlisted? && Coherent(before, nfc, max) && Shares(before, nfc, scope, record, now)
    requires Interns(before, after, nfc, max, scope, requested, record, now, p)
    ensures Coherent(after, nfc, max) && Keeps(before, after) && after.entries.at == before.entries.at
    ensures var k := EntryKey(scope, p);
            && k in before.entries.at && after.entries.keys == Without(before.entries.keys, k) + [k]
            && after.entries.at[k].kind == record.kind && nfc(after.entries.at[k].value) == nfc(record.value)
  {
    hide Parts, Takes, CounterOf, Evicted;
    var k := EntryKey(scope, p);
    TouchValid(before.entries, k);
    KeysCount(before.entries);
    KeysCount(before.entries.Touch(k));
  }

  lemma InternsNew(before: State, after: State, nfc: string -> string, max: nat,
                   scope: Scope, requested: string, record: VaultRecord, now: int, p: string)
    requires !record.kind.Unlisted? && Coherent(before, nfc, max) && !Shares(before, nfc, scope, record, now)
    requires Interns(before, after, nfc, max, scope, requested, record, now, p)
    ensures Coherent(after, nfc, max) && Keeps(before, after)
    ensures var k := EntryKey(scope, p);
            && k !in before.entries.at
            && after.entries.keys == (before.entries.keys + [k])[Excess(|before.entries.keys| + 1, max)..]
            && (k in after.entries.at ==> after.entries.at[k] == NewEntry(nfc, scope, record, now))
  {
    hide Coherent, OMap.Valid, Sound, Keyed, Keeps, Evicted, Interns;
    var rk, k, stored := ReverseKey(scope, record.kind, nfc(record.value)), EntryKey(scope, p),
      NewEntry(nfc, scope, record, now);
    InternsAdds(before, after, nfc, max, scope, requested, record, now, p);
    AddedCoherent(before, after, k, stored, nfc, max);
    Added(before, k, stored, nfc, max);
    EvictedKeepsNewest(before.entries.Set(k, stored), before.reverse[rk := p], max);
  }

  lemma InternsAdds(before: State, after: State, nfc: string -> string, max: nat,
                    scope: Scope, requested: string, record: VaultRecord, now: int, p: string)
    requires !record.kind.Unlisted? && !Shares(before, nfc, scope, record, now)
    requires Interns(before, after, nfc, max, scope, requested, record, now, p)
    ensures var k, stored := EntryKey(scope, p), NewEntry(nfc, scope, record, now);
            && k !in before.entries.at && before.entries.Set(k, stored).Valid()
            && (after.entries, after.reverse) ==
               Evicted(before.entries.Set(k, stored), before.reverse[stored.reverseKey := p], max)
  {
    hide Parts, CounterOf, Evicted, OMap.Set, OMap.Valid;
  }

  /**
   A value is given the placeholder of a live entry of its type and normal form that the index has, and this entry
   only becomes the newest.
   */
  lemma InternShares(before: State, after: State, nfc: string -> string, max: nat,
                     scope: Scope, requested: string, record: VaultRecord, now: int, p: string, k: EntryKey)
    requires !record.kind.Unlisted? && Coherent(before, nfc, max)
    requires Interns(before, after, nfc, max, scope, requested, record, now, p)
    requires Indexed(before, k) && k.scope == scope && before.entries.at[k].expiresAt > now
    requires before.entries.at[k].kind == record.kind && nfc(before.entries.at[k].value) == nfc(record.value)
    ensures p == k.placeholder && after.entries.at == before.entries.at
    ensures after.entries.keys != [] && after.entries.keys[|after.entries.keys| - 1] == k
  {
    hide Interns, Without;
    assert before.entries.at[k].reverseKey == ReverseKey(scope, record.kind, nfc(record.value));
    SharedIs(before, after, nfc, max, scope, requested, record, now, p);
    InternsShares(before, after, nfc, max, scope, requested, record, now, p);
  }

  lemma SharedIs(before: State, after: State, nfc: string -> string, max: nat,
                 scope: Scope, requested: string, record: VaultRecord, now: int, p: string)
    requires !record.kind.Unlisted? && Shares(before, nfc, scope, record, now)
    requires Interns(before, after, nfc, max, scope, requested, record, now, p)
    ensures p == before.reverse[ReverseKey(scope, record.kind, nfc(record.value))]
  {
    hide Parts, Takes, CounterOf, Evicted;
  }

  /** The entry stands last; it is the one that was there, not expired, or the value as it is, for its seconds. */
  predicate Holds(before: State, after: State, nfc: string -> string, k: EntryKey, record: VaultRecord, now: int) {
    && k in after.entries.at && after.entries.keys != [] && after.entries.keys[|after.entries.keys| - 1] == k
    && if k in before.entries.at then
         && after.entries.at[k] == before.entries.at[k] && after.entries.at[k].expiresAt > now
         && after.entries.at[k].kind == record.kind && nfc(after.entries.at[k].value) == nfc(record.value)
       else
         && after.entries.at[k].kind == record.kind && after.entries.at[k].value == record.value
         && after.entries.at[k].expiresAt == now + 1_000 * record.ttlSec
  }

  /**
   Otherwise what is put in is the value as it is, to expire when its seconds have passed; a value that is given
   the placeholder of an entry leaves that as it is, with its expiry, and it has not expired.
   */
  lemma InternGives(before: State, after: State, nfc: string -> string, max: nat,
                    scope: Scope, requested: string, record: VaultRecord, now: int, p: string)
    requires !record.kind.Unlisted? && Coherent(before, nfc, max) && max >= 1
    requires Interns(before, after, nfc, max, scope, requested, record, now, p)
    ensures Holds(before, after, nfc, EntryKey(scope, p), record, now)
  {
    hide Interns, Coherent, Shares, Holds;
    if Shares(before, nfc, scope, record, now) {
      InternGivesOld(before, after, nfc, max, scope, requested, record, now, p);
    } else {
      InternGivesNew(before, after, nfc, max, scope, requested, record, now, p);
    }
  }

  lemma InternGivesOld(before: State, after: State, nfc: string -> string, max: nat,
                       scope: Scope, requested: string, record: VaultRecord, now: int, p: string)
    requires !record.kind.Unlisted? && Coherent(before, nfc, max) && Shares(before, nfc, scope, record, now)
    requires Interns(before, after, nfc, max, scope, requested, record, now, p)
    ensures Holds(before, after, nfc, EntryKey(scope, p), record, now)
  {
    hide Interns, Without, Coherent, Shares, Keeps, OMap.Valid, OMap.Touch, OMap.Set, OMap.Delete;
    InternsShares(before, after, nfc, max, scope, requested, record, now, p);
    SharedLive(before, after, nfc, max, scope, requested, record, now, p);
  }

  lemma InternGivesNew(before: State, after: State, nfc: string -> string, max: nat,
                       scope: Scope, requested: string, record: VaultRecord, now: int, p: string)
    requires !record.kind.Unlisted? && Coherent(before, nfc, max) && max >= 1
    requires !Shares(before, nfc, scope, record, now)
    requires Interns(before, after, nfc, max, scope, requested, record, now, p)
    ensures Holds(before, after, nfc, EntryKey(scope, p), record, now)
  {
    hide Interns, Coherent, Shares, Keeps, OMap.Valid, Excess;
    InternsNew(before, after, nfc, max, scope, requested, record, now, p);
    NewestKept(before.entries.keys, EntryKey(scope, p), max);
    CoherentValid(after, nfc, max);
    KeysStored(after.entries);
  }

  lemma SharedLive(before: State, after: State, nfc: string -> string, max: nat,
                   scope: Scope, requested: string, record: VaultRecord, now: int, p: string)
    requires !record.kind.Unlisted? && Shares(before, nfc, scope, record, now)
    requires Interns(before, after, nfc, max, scope, requested, record, now, p)
    ensures Live(before, EntryKey(scope, p), now)
  {
    hide Interns;
    SharedIs(before, after, nfc, max, scope, requested, record, now, p);
  }

  lemma NewestKept(keys: seq<EntryKey>, k: EntryKey, max: nat)
    requires max >= 1
    ensures var left := (keys + [k])[Excess(|keys| + 1, max)..]; left != [] && left[|left| - 1] == k && k in left
  {
    var left := (keys + [k])[Excess(|keys| + 1, max)..];
    assert left[|left| - 1] == (keys + [k])[|keys|];
  }

  lemma InternsKept(before: State, after: State, nfc: string -> string, max: nat,
                    scope: Scope, requested: string, record: VaultRecord, now: int, p: string)
    requires !record.kind.Unlisted? && Coherent(before, nfc, max)
    requires Interns(before, after, nfc, max, scope, requested, record, now, p)
    ensures Coherent(after, nfc, max) && Keeps(before, after)
    ensures var k := EntryKey(scope, p);
            k in after.entries.at ==>
              after.entries.at[k].kind == record.kind && nfc(after.entries.at[k].value) == nfc(record.value)
  {
    hide Interns, Coherent, Shares, Keeps, Without;
    if Shares(before, nfc, scope, record, now) {
      InternsShares(before, after, nfc, max, scope, requested, record, now, p);
    } else {
      InternsNew(before, after, nfc, max, scope, requested, record, now, p);
    }
  }

  lemma StepKeeps(before: State, op: Op, after: State, nfc: string -> string, max: nat)
    requires Coherent(before, nfc, max) && Happens(before, op, after, nfc, max)
    ensures Coherent(after, nfc, max) && Keeps(before, after)
  {
    hide Coherent, Interns, SweptTo, Keeps;
    match op
    case InternOp(scope, requested, record, now, got) =>
      InternsKept(before, after, nfc, max, scope, requested, record, now, got);
    case ResolveOp(scope, placeholder, now, found) =>
      ResolvedKept(before, scope, placeholder, now, nfc, max);
    case SweepOp(now) =>
      SweptCoherent(before, after, now, nfc, max);
  }

  lemma ResolvedKept(before: State, scope: Scope, p: string, now: int, nfc: string -> string, max: nat)
    requires Coherent(before, nfc, max)
    ensures Coherent(Resolved(before, scope, p, now), nfc, max) && Keeps(before, Resolved(before, scope, p, now))
  {
    var k := EntryKey(scope, p);
    if k in before.entries.at {
      if before.entries.at[k].expiresAt <= now {
        DeletedCoherent(before, k, nfc, max);
      } else {
        TouchValid(before.entries, k);
        KeysCount(before.entries);
        KeysCount(before.entries.Touch(k));
      }
    }
  }

  lemma {:induction false} RunCoherent(states: seq<State>, ops: seq<Op>, nfc: string -> string, max: nat, n: nat)
    requires Run(states, ops, nfc, max) && n < |states|
    ensures Coherent(states[n], nfc, max)
  {
    hide Coherent, Happens;
    if n > 0 {
      RunCoherent(states, ops, nfc, max, n - 1);
      StepKeeps(states[n - 1], ops[n - 1], states[n], nfc, max);
    }
  }

  lemma {:induction false} EntryStays(states: seq<State>, ops: seq<Op>, nfc: string -> string, max: nat, k: EntryKey,
                                      i: nat, j: nat)
    requires Run(states, ops, nfc, max) && i <= j < |states|
    requires forall n :: i <= n <= j ==> k in states[n].entries.at
    ensures states[j].entries.at[k] == states[i].entries.at[k]
  {
    hide Coherent, Happens;
    if i < j {
      EntryStays(states, ops, nfc, max, k, i, j - 1);
      RunCoherent(states, ops, nfc, max, j - 1);
      StepKeeps(states[j - 1], ops[j - 1], states[j], nfc, max);
    }
  }

  /**
   As long as the entry is there, resolving the placeholder that a value was given finds, until the time
   the entry expires, a value of the same type and normal form - and nothing from that time on.
   */
  lemma InternedResolves(states: seq<State>, ops: seq<Op>, nfc: string -> string, max: nat, i: nat, j: nat)
    requires Run(states, ops, nfc, max) && i < j < |ops|
    requires ops[i].InternOp? && ops[j].ResolveOp?
    requires ops[j].scope == ops[i].scope && ops[j].placeholder == ops[i].got
    requires forall n :: i < n <= j ==> EntryKey(ops[i].scope, ops[i].got) in states[n].entries.at
    ensures var e := states[i + 1].entries.at[EntryKey(ops[i].scope, ops[i].got)];
            && e.kind == ops[i].record.kind && nfc(e.value) == nfc(ops[i].record.value)
            && ops[j].found == if ops[j].now < e.expiresAt then Some(e.value) else None
  {
    hide Coherent, Interns;
    var k := EntryKey(ops[i].scope, ops[i].got);
    RunCoherent(states, ops, nfc, max, i);
    assert Happens(states[i], ops[i], states[i + 1], nfc, max) && Happens(states[j], ops[j], states[j + 1], nfc, max);
    InternsKept(states[i], states[i + 1], nfc, max, ops[i].scope, ops[i].requested, ops[i].record, ops[i].now,
                ops[i].got);
    EntryStays(states, ops, nfc, max, k, i + 1, j);
  }

  /** An entry leaves only because it is found expired, or as one of the oldest when a new one needs room. */
  lemma LeavesOnly(before: State, op: Op, after: State, nfc: string -> string, max: nat, i: nat)
    requires Coherent(before, nfc, max) && Happens(before, op, after, nfc, max)
    requires i < |before.entries.keys| && before.entries.keys[i] !in after.entries.at
    ensures before.entries.keys[i] in before.entries.at
    ensures if op.InternOp? then i + max <= |before.entries.keys|
            else before.entries.at[before.entries.keys[i]].expiresAt <= op.now
  {
    hide Interns, SweptTo, Shares;
    var keys, k := before.entries.keys, before.entries.keys[i];
    assert k in keys;
    match op
    case InternOp(scope, requested, record, now, got) =>
      if Shares(before, nfc, scope, record, now) {
        InternsShares(before, after, nfc, max, scope, requested, record, now, got);
      } else {
        InternsNew(before, after, nfc, max, scope, requested, record, now, got);
        var cut := Excess(|keys| + 1, max);
        TailHas(keys, EntryKey(scope, got), cut);
      }
    case ResolveOp(scope, placeholder, now, found) =>
      var key := EntryKey(scope, placeholder);
      if key in before.entries.at && before.entries.at[key].expiresAt > now {
        TouchValid(before.entries, key);
      }
    case SweepOp(now) =>
      SweptCoherent(before, after, now, nfc, max);
  }

  lemma TailHas(keys: seq<EntryKey>, k: EntryKey, cut: nat)
    requires cut <= |keys| + 1
    ensures forall i :: cut <= i < |keys| ==> keys[i] in (keys + [k])[cut..]
  {
    forall i | cut <= i < |keys| ensures keys[i] in (keys + [k])[cut..] {
      assert (keys + [k])[cut..][i - cut] == keys[i];
    }
  }

  // ---- the order of the entries is the order of their last use ----

  predicate Uses(op: Op, k: EntryKey) {
    match op
    case InternOp(scope, _, _, _, got) => k == EntryKey(scope, got)
    case ResolveOp(scope, placeholder, _, found) => found.Some? && k == EntryKey(scope, placeholder)
    case SweepOp(_) => false
  }

  /** The last call that interned or resolved the entry, -1 if none. */
  function LastUse(ops: seq<Op>, k: EntryKey): (n: int)
    ensures -1 <= n < |ops|
  {
    if ops == [] then -1
    else if Uses(ops[|ops| - 1], k) then |ops| - 1
    else LastUse(ops[..|ops| - 1], k)
  }

  ghost predicate ByLastUse(keys: seq<EntryKey>, ops: seq<Op>) {
    forall a, b :: 0 <= a < b < |keys| ==> LastUse(ops, keys[a]) < LastUse(ops, keys[b])
  }

  /** `part` has some of the keys of `all`, in the same order. */
  ghost predicate PartOf(part: seq<EntryKey>, all: seq<EntryKey>) {
    && (forall k :: k in part ==> k in all)
    && forall a, b :: 0 <= a < b < |part| ==> Precedes(all, part[a], part[b])
  }

  ghost predicate Precedes(keys: seq<EntryKey>, j: EntryKey, k: EntryKey) {
    exists a, b :: 0 <= a < b < |keys| && keys[a] == j && keys[b] == k
  }

  lemma {:induction false} WithoutPart(keys: seq<EntryKey>, k: EntryKey)
    ensures PartOf(Without(keys, k), keys)
  {
    if keys != [] {
      var rest := Without(keys[1..], k);
      WithoutPart(keys[1..], k);
      WithoutKeeps(keys, k);
      PartOfTail(rest, keys);
      if keys[0] != k {
        HeadPart(rest, keys);
      }
    }
  }

  lemma PartOfTail(part: seq<EntryKey>, keys: seq<EntryKey>)
    requires keys != [] && PartOf(part, keys[1..])
    ensures PartOf(part, keys)
  {
    forall a, b | 0 <= a < b < |part| ensures Precedes(keys, part[a], part[b]) {
      var c, d :| 0 <= c < d < |keys[1..]| && keys[1..][c] == part[a] && keys[1..][d] == part[b];
      assert keys[c + 1] == part[a] && keys[d + 1] == part[b];
    }
  }

  lemma HeadPart(part: seq<EntryKey>, keys: seq<EntryKey>)
    requires keys != [] && PartOf(part, keys[1..])
    ensures PartOf([keys[0]] + part, keys)
  {
    var all := [keys[0]] + part;
    PartOfTail(part, keys);
    forall a, b | 0 <= a < b < |all| ensures Precedes(keys, all[a], all[b]) {
      if a == 0 {
        assert all[b] in keys[1..];
        var d :| 0 <= d < |keys[1..]| && keys[1..][d] == all[b];
        assert keys[d + 1] == all[b];
      } else {
        assert Precedes(keys, part[a - 1], part[b - 1]);
      }
    }
  }

  lemma {:induction false} LiveKeysPart(entries: map<EntryKey, Stored>, keys: seq<EntryKey>, now: int)
    requires forall k :: k in keys ==> k in entries
    ensures PartOf(LiveKeys(entries, keys, now), keys)
  {
    if keys != [] {
      var init, last := keys[..|keys| - 1], keys[|keys| - 1];
      var live := LiveKeys(entries, keys, now);
      LiveKeysPart(entries, init, now);
      LiveKeysAre(entries, keys, now);
      forall a, b | 0 <= a < b < |live| ensures Precedes(keys, live[a], live[b]) {
        var part := LiveKeys(entries, init, now);
        assert part[a] in init;
        if b < |part| {
          assert Precedes(init, part[a], part[b]);
          var c, d :| 0 <= c < d < |init| && init[c] == part[a] && init[d] == part[b];
          assert keys[c] == part[a] && keys[d] == part[b];
        } else {
          var c :| 0 <= c < |init| && init[c] == part[a];
          assert keys[c] == live[a] && keys[|keys| - 1] == live[b];
        }
      }
    }
  }

  lemma CutPart(keys: seq<EntryKey>, cut: nat)
    requires cut <= |keys|
    ensures PartOf(keys[cut..], keys)
  {
    var part := keys[cut..];
    forall a, b | 0 <= a < b < |part| ensures Precedes(keys, part[a], part[b]) {
      assert keys[cut + a] == part[a] && keys[cut + b] == part[b];
    }
  }

  /** Keys that are not used keep their order. */
  lemma PartByLastUse(part: seq<EntryKey>, keys: seq<EntryKey>, ops: seq<Op>, op: Op)
    requires PartOf(part, keys) && ByLastUse(keys, ops)
    requires forall k :: k in part ==> !Uses(op, k)
    ensures ByLastUse(part, ops + [op])
  {
    hide Uses;
    assert (ops + [op])[..|ops|] == ops;
    forall a, b | 0 <= a < b < |part|
      ensures LastUse(ops + [op], part[a]) < LastUse(ops + [op], part[b])
    {
      assert Precedes(keys, part[a], part[b]);
      var c, d :| 0 <= c < d < |keys| && keys[c] == part[a] && keys[d] == part[b];
      assert part[a] in part && part[b] in part;
    }
  }

  /** The key that is used goes last. */
  lemma UsedByLastUse(part: seq<EntryKey>, k: EntryKey, keys: seq<EntryKey>, ops: seq<Op>, op: Op)
    requires PartOf(part, keys) && ByLastUse(keys, ops)
    requires Uses(op, k) && forall j :: j in part ==> !Uses(op, j)
    ensures ByLastUse(part + [k], ops + [op])
  {
    hide Uses;
    PartByLastUse(part, keys, ops, op);
    assert (ops + [op])[..|ops|] == ops;
    assert LastUse(ops + [op], k) == |ops|;
    forall a, b | 0 <= a < b < |part + [k]|
      ensures LastUse(ops + [op], (part + [k])[a]) < LastUse(ops + [op], (part + [k])[b])
    {
      assert part[a] in part;
    }
  }

  /** In every run from an empty vault the entries stand in the order of their last use. */
  lemma {:induction false} RecencyOrder(states: seq<State>, ops: seq<Op>, nfc: string -> string, max: nat)
    requires Run(states, ops, nfc, max) && states[0].entries.keys == []
    ensures ByLastUse(states[|ops|].entries.keys, ops)
    decreases |ops|
  {
    hide Coherent, Happens, ByLastUse;
    if ops == [] {
      assert ByLastUse([], ops) by { NoLastUse(ops); }
    } else {
      var n := |ops| - 1;
      RecencyOrder(states[..n + 1], ops[..n], nfc, max);
      RunCoherent(states, ops, nfc, max, n);
      StepByLastUse(states[n], ops[n], states[n + 1], nfc, max, ops[..n]);
      assert ops == ops[..n] + [ops[n]];
    }
  }

  lemma NoLastUse(ops: seq<Op>)
    ensures ByLastUse([], ops)
  {
  }

  lemma StepByLastUse(before: State, op: Op, after: State, nfc: string -> string, max: nat, ops: seq<Op>)
    requires Coherent(before, nfc, max) && Happens(before, op, after, nfc, max) && ByLastUse(before.entries.keys, ops)
    ensures ByLastUse(after.entries.keys, ops + [op])
  {
    hide Interns, SweptTo, Shares, ByLastUse, PartOf, Without, LiveKeys;
    var keys := before.entries.keys;
    match op
    case InternOp(scope, requested, record, now, got) =>
      var k := EntryKey(scope, got);
      if Shares(before, nfc, scope, record, now) {
        InternsShares(before, after, nfc, max, scope, requested, record, now, got);
        WithoutPart(keys, k);
        WithoutKeeps(keys, k);
        UsedByLastUse(Without(keys, k), k, keys, ops, op);
      } else {
        InternsNew(before, after, nfc, max, scope, requested, record, now, got);
        var cut := Excess(|keys| + 1, max);
        if cut > |keys| {
          assert (keys + [k])[cut..] == [];
          NoLastUse(ops + [op]);
        } else {
          assert (keys + [k])[cut..] == keys[cut..] + [k];
          CutPart(keys, cut);
          UsedByLastUse(keys[cut..], k, keys, ops, op);
        }
      }
    case ResolveOp(scope, placeholder, now, found) =>
      var k := EntryKey(scope, placeholder);
      if k in before.entries.at {
        WithoutPart(keys, k);
        WithoutKeeps(keys, k);
        if found.Some? {
          TouchValid(before.entries, k);
          UsedByLastUse(Without(keys, k), k, keys, ops, op);
        } else {
          PartByLastUse(Without(keys, k), keys, ops, op);
        }
      } else {
        CutPart(keys, 0);
        assert keys[0..] == keys;
        PartByLastUse(keys, keys, ops, op);
      }
    case SweepOp(now) =>
      SweptLives(before, after, now);
      LiveKeysPart(before.entries.at, keys, now);
      PartByLastUse(LiveKeys(before.entries.at, keys, now), keys, ops, op);
  }

  /** What a sweep leaves are the entries that expire later, in their order. */
  lemma SweptExactly(before: State, after: State, now: int, nfc: string -> string, max: nat)
    requires Coherent(before, nfc, max) && SweptTo(before, after, |before.entries.keys|, now)
    ensures forall k :: k in after.entries.at <==> k in before.entries.at && before.entries.at[k].expiresAt > now
    ensures forall k :: k in after.entries.at ==> after.entries.at[k] == before.entries.at[k]
    ensures PartOf(after.entries.keys, before.entries.keys)
  {
    hide Coherent, SweptTo, PartOf, LiveKeys;
    SweptCoherent(before, after, now, nfc, max);
    SweptLives(before, after, now);
    KeysStored(before.entries) by { CoherentValid(before, nfc, max); }
    LiveKeysPart(before.entries.at, before.entries.keys, now);
  }

  lemma SweptLives(before: State, after: State, now: int)
    requires SweptTo(before, after, |before.entries.keys|, now)
    ensures after.entries.keys == LiveKeys(before.entries.at, before.entries.keys, now)
  {
    hide LiveKeys, SweptReverse;
    var keys := before.entries.keys;
    assert keys[..|keys|] == keys && keys[|keys|..] == [];
  }

  // ---- resolving does not disturb what can be seen ----

  /** At one moment, resolving looks a placeholder up in the view and leaves every view as it is. */
  lemma ResolvedView(st: State, scope: Scope, p: string, other: Scope, now: int)
    ensures View(Resolved(st, scope, p, now), other, now) == View(st, other, now)
    ensures Live(st, EntryKey(scope, p), now) <==> p in View(st, scope, now)
    ensures p in View(st, scope, now) ==> View(st, scope, now)[p] == st.entries.at[EntryKey(scope, p)].value
  {
    var k := EntryKey(scope, p);
    ViewLooksUp(st, scope, p, now);
    var after := Resolved(st, scope, p, now);
    forall q
      ensures q in View(after, other, now) <==> q in View(st, other, now)
      ensures q in View(st, other, now) ==> View(after, other, now)[q] == View(st, other, now)[q]
    {
      ViewLooksUp(st, other, q, now);
      ViewLooksUp(after, other, q, now);
    }
  }

  lemma ViewLooksUp(st: State, scope: Scope, p: string, now: int)
    ensures Live(st, EntryKey(scope, p), now) <==> p in View(st, scope, now)
    ensures p in View(st, scope, now) ==> View(st, scope, now)[p] == st.entries.at[EntryKey(scope, p)].value
  {
    assert Live(st, EntryKey(scope, p), now) ==> EntryKey(scope, p).placeholder in View(st, scope, now);
  }

  // ---- the placeholder taken for a new entry ----

  /** At most as many candidates are passed over as there are entries. */
  lemma TakesBound(entries: OMap<EntryKey, Stored>, scope: Scope, requested: string, lbl: string, suffix: string,
                   counter: nat, p: string, index: nat)
    requires Takes(entries, scope, requested, lbl, suffix, counter, p, index)
    requires forall i :: 0 <= i < |lbl| ==> IsUpper(lbl[i])
    ensures index <= counter + |entries.at| + 1
  {
    hide Render;
    if index > counter {
      var taken := CandidateKeys(scope, lbl, suffix, counter, index);
      assert taken <= entries.at.Keys;
      SubsetSize(taken, entries.at.Keys);
    }
  }

  lemma {:induction false} CandidateKeys(scope: Scope, lbl: string, suffix: string, counter: nat, index: nat)
    returns (keys: set<EntryKey>)
    requires (forall i :: 0 <= i < |lbl| ==> IsUpper(lbl[i])) && counter < index
    ensures |keys| == index - counter - 1
    ensures forall k :: k in keys ==> exists i :: counter < i < index && k == EntryKey(scope, Render(lbl, i, suffix))
    decreases index
  {
    hide Render;
    if index == counter + 1 {
      keys := {};
    } else {
      var fewer := CandidateKeys(scope, lbl, suffix, counter, index - 1);
      var key := EntryKey(scope, Render(lbl, index - 1, suffix));
      if key in fewer {
        var i :| counter < i < index - 1 && key == EntryKey(scope, Render(lbl, i, suffix));
        RenderInjective(lbl, i, suffix, lbl, index - 1, suffix);
      }
      assert key !in fewer;
      keys := fewer + {key};
      forall k | k in keys
        ensures exists i :: counter < i < index && k == EntryKey(scope, Render(lbl, i, suffix))
      {
        if k in fewer {
          var i :| counter < i < index - 1 && k == EntryKey(scope, Render(lbl, i, suffix));
          assert counter < i < index;
        }
      }
    }
  }

  /** A placeholder inside the grammar is free behind the counter. */
  predicate HasRoom(entries: OMap<EntryKey, Stored>, scope: Scope, lbl: string, suffix: string, counter: nat) {
    exists i :: counter < i <= 99_999 && EntryKey(scope, Render(lbl, i, suffix)) !in entries.at
  }

  /** There is room as long as counter and entries together stay below 100000. */
  lemma RoomBelow(entries: OMap<EntryKey, Stored>, scope: Scope, lbl: string, suffix: string, counter: nat)
    requires (forall i :: 0 <= i < |lbl| ==> IsUpper(lbl[i])) && counter + |entries.at| < 99_999
    ensures HasRoom(entries, scope, lbl, suffix, counter)
  {
    hide Render;
    var taken := CandidateKeys(scope, lbl, suffix, counter, 100_000);
    if taken <= entries.at.Keys {
      SubsetSize(taken, entries.at.Keys);
    } else {
      var k :| k in taken && k !in entries.at;
      var i :| counter < i < 100_000 && k == EntryKey(scope, Render(lbl, i, suffix));
    }
  }

  /** Label and suffix of a placeholder are a label and a suffix. */
  lemma PartsOfToken(p: string, kind: EntityType)
    requires IsToken(p) && !kind.Unlisted?
    ensures var (lbl, suffix) := Parts(p, kind); IsLabel(lbl) && (suffix == "" || IsSuffix(suffix))
  {
    hide IsToken, IsSuffix, Label;
    TokenShape(p);
    var l, n := UpperRun(p[1..]), BaseLen(p);
    assert forall i :: 0 <= i < l ==> p[1..l + 1][i] == p[1..][i];
    assert |p| == n + SUFFIX_LENGTH ==> p[n..n + SUFFIX_LENGTH] == p[n..];
  }

  /** What is put together fits the grammar for the counters from 1 to 99999 only. */
  lemma RenderFits(lbl: string, n: nat, suffix: string)
    requires IsLabel(lbl) && IsToken(Render(lbl, n, suffix))
    ensures 1 <= n <= 99_999
  {
    hide Numeral, IsSuffix;
    var p := Render(lbl, n, suffix);
    var k := if IsBase(p) then |p| else |p| - SUFFIX_LENGTH;
    assert IsBase(p) ==> p[..k] == p;
    var l, idx :| IsLabel(l) && IsIndex(idx) && p[..k] == Base(l, idx);
    assert p == Base(l, idx) + p[k..];
    BaseInjective(lbl, Numeral(n), suffix, l, idx, p[k..]);
    NumeralFits(n);
  }

  /**
   A request that fits the grammar is answered with an unused placeholder, and that one fits it too if and
   only if the request itself is free or one inside the grammar is free behind the counter; then it has
   the label and the suffix of the request.
   */
  lemma TakesInGrammar(entries: OMap<EntryKey, Stored>, scope: Scope, requested: string, kind: EntityType,
                       counter: nat, p: string, index: nat)
    requires IsToken(requested) && !kind.Unlisted?
    requires var (lbl, suffix) := Parts(requested, kind);
             Takes(entries, scope, requested, lbl, suffix, counter, p, index)
    ensures EntryKey(scope, p) !in entries.at
    ensures var (lbl, suffix) := Parts(requested, kind);
            IsToken(p) <==> EntryKey(scope, requested) !in entries.at || HasRoom(entries, scope, lbl, suffix, counter)
    ensures IsToken(p) ==> Parts(p, kind) == Parts(requested, kind) && (CounterOf(p) > counter || p == requested)
  {
    hide Render, Parts, CounterOf, IsToken;
    var (lbl, suffix) := Parts(requested, kind);
    PartsOfToken(requested, kind);
    if EntryKey(scope, requested) in entries.at {
      if IsToken(p) {
        RenderFits(lbl, index, suffix);
        PartsOfRendered(lbl, index, suffix, kind);
      }
      if HasRoom(entries, scope, lbl, suffix, counter) {
        var i :| counter < i <= 99_999 && EntryKey(scope, Render(lbl, i, suffix)) !in entries.at;
        assert index <= i;
        RenderIsToken(lbl, index, suffix);
      }
    }
  }

  // ---- runs that stay inside the grammar ----

  ghost predicate InGrammar(st: State) {
    forall k :: k in st.entries.at ==> IsToken(k.placeholder)
  }

  /** The request is free, or a placeholder of its series is. */
  ghost predicate Answerable(st: State, scope: Scope, requested: string, kind: EntityType)
    requires !kind.Unlisted?
  {
    var (lbl, suffix) := Parts(requested, kind);
    var ck := CounterKey(scope, lbl, suffix);
    || EntryKey(scope, requested) !in st.entries.at
    || HasRoom(st.entries, scope, lbl, suffix, if ck in st.counters then st.counters[ck] else 0)
  }

  /** If the call needs a new placeholder, there is one. */
  ghost predicate Askable(st: State, op: Op, nfc: string -> string) {
    op.InternOp? && !op.record.kind.Unlisted? ==>
      Shares(st, nfc, op.scope, op.record, op.now) || Answerable(st, op.scope, op.requested, op.record.kind)
  }

  lemma InternTakes(before: State, after: State, nfc: string -> string, max: nat,
                    scope: Scope, requested: string, record: VaultRecord, now: int, p: string)
    requires !record.kind.Unlisted? && IsToken(requested) && !Shares(before, nfc, scope, record, now)
    requires Interns(before, after, nfc, max, scope, requested, record, now, p)
    ensures IsToken(p) <==> Answerable(before, scope, requested, record.kind)
  {
    hide Parts, CounterOf, Evicted, HasRoom, Takes, OMap.Valid, OMap.Set, IsToken;
    var (lbl, suffix) := Parts(requested, record.kind);
    var ck := CounterKey(scope, lbl, suffix);
    var counter := if ck in before.counters then before.counters[ck] else 0;
    var index: nat :| Takes(before.entries, scope, requested, lbl, suffix, counter, p, index);
    TakesInGrammar(before.entries, scope, requested, record.kind, counter, p, index);
  }

  /**
   A call that asks for a placeholder gets one, and the vault stays inside the grammar, exactly when it is
   askable.
   */
  lemma StepInGrammar(before: State, op: Op, after: State, nfc: string -> string, max: nat)
    requires Coherent(before, nfc, max) && Happens(before, op, after, nfc, max) && InGrammar(before)
    requires op.InternOp? ==> IsToken(op.requested)
    ensures op.InternOp? ==> (IsToken(op.got) <==> Askable(before, op, nfc))
    ensures Askable(before, op, nfc) ==> InGrammar(after)
  {
    hide Interns, SweptTo, Shares, IsToken, Answerable;
    var keys := before.entries.keys;
    match op
    case InternOp(scope, requested, record, now, got) =>
      hide Coherent;
      var k := EntryKey(scope, got);
      if Shares(before, nfc, scope, record, now) {
        InternsShares(before, after, nfc, max, scope, requested, record, now, got);
        assert IsToken(k.placeholder);
      } else {
        InternsNew(before, after, nfc, max, scope, requested, record, now, got);
        InternTakes(before, after, nfc, max, scope, requested, record, now, got);
        NewInGrammar(before, after, k, Excess(|keys| + 1, max));
      }
    case ResolveOp(scope, placeholder, now, found) =>
    case SweepOp(now) =>
      SweptCoherent(before, after, now, nfc, max);
  }

  lemma NewInGrammar(before: State, after: State, k: EntryKey, cut: nat)
    requires InGrammar(before) && before.entries.Valid() && after.entries.Valid() && cut <= |before.entries.keys| + 1
    requires after.entries.keys == (before.entries.keys + [k])[cut..]
    ensures IsToken(k.placeholder) ==> InGrammar(after)
  {
    hide IsToken;
    forall j | j in after.entries.at
      ensures j in before.entries.at || j == k
    {
      assert j in after.entries.keys;
      assert j in before.entries.keys + [k];
    }
  }

  /** In a run of such calls everything handed out is a placeholder. */
  lemma {:induction false} RunInGrammar(states: seq<State>, ops: seq<Op>, nfc: string -> string, max: nat, n: nat)
    requires Run(states, ops, nfc, max) && InGrammar(states[0]) && n <= |ops|
    requires forall i :: 0 <= i < n ==>
               Askable(states[i], ops[i], nfc) && (ops[i].InternOp? ==> IsToken(ops[i].requested))
    ensures InGrammar(states[n])
    ensures forall i :: 0 <= i < n && ops[i].InternOp? ==> IsToken(ops[i].got)
  {
    hide Coherent, Happens, InGrammar, IsToken, Shares, Answerable;
    if n > 0 {
      RunInGrammar(states, ops, nfc, max, n - 1);
      RunCoherent(states, ops, nfc, max, n - 1);
      StepInGrammar(states[n - 1], ops[n - 1], states[n], nfc, max);
    }
  }

  lemma LastNumerals()
    ensures Numeral(99_999) == "99999" && Numeral(100_000) == "100000"
  {
    assert Numeral(9) == "9" && Numeral(1) == "1";
    assert Numeral(99) == Numeral(9) + "9" && Numeral(10) == Numeral(1) + "0";
    assert Numeral(999) == Numeral(99) + "9" && Numeral(100) == Numeral(10) + "0";
    assert Numeral(9_999) == Numeral(999) + "9" && Numeral(1_000) == Numeral(100) + "0";
    assert Numeral(99_999) == Numeral(9_999) + "9" && Numeral(10_000) == Numeral(1_000) + "0";
    assert Numeral(100_000) == Numeral(10_000) + "0";
  }

  /** Two values under one request with the last number: the second one gets a placeholder that nothing restores. */
  lemma OutgrowsGrammar(nfc: string -> string, max: nat, scope: Scope, kind: EntityType, a: string, b: string)
    returns (states: seq<State>, ops: seq<Op>)
    requires max >= 2 && !kind.Unlisted? && nfc(a) != nfc(b)
    ensures Run(states, ops, nfc, max) && |ops| == 2 && states[0] == State(Empty(), map[], map[])
    ensures forall i :: 0 <= i < 2 ==> ops[i].InternOp? && ops[i].requested == "[KISI_99999]" && ops[i].scope == scope
    ensures IsToken("[KISI_99999]") && ops[0].got == "[KISI_99999]"
    ensures ops[1].got == "[KISI_100000]" && !IsToken(ops[1].got)
  {
    hide Parts, CounterOf, Interns, Coherent, Evicted, Run, OMap.Valid, IsToken, Numeral, Render;
    LastNumerals();
    KisiPlaceholders();
    var p, q := "[KISI_99999]", "[KISI_100000]";
    var first, second := VaultRecord(kind, a, 1), VaultRecord(kind, b, 1);
    assert Empty<EntryKey, Stored>().Valid() by { NothingIn(); }
    var s0 := State(Empty(), map[], map[]);
    var s1 := InternRequested(s0, nfc, max, scope, p, first, 0);
    assert s1.entries.at.Keys == {EntryKey(scope, p)} && s1.reverse == map[ReverseKey(scope, kind, nfc(a)) := p];
    PartsOfRendered("KISI", 99_999, "", kind);
    if IsToken(q) {
      RenderFits("KISI", 100_000, "");
    }
    var s2 := InternNext(s1, nfc, max, scope, p, "KISI", 99_999, second, 0);
    states := [s0, s1, s2];
    ops := [InternOp(scope, p, first, 0, p), InternOp(scope, p, second, 0, q)];
    NothingStored(nfc, max);
    RunOfTwo(states, ops, nfc, max);
  }

  lemma KisiPlaceholders()
    ensures IsLabel("KISI") && IsToken("[KISI_99999]")
    ensures "[KISI_99999]" == Render("KISI", 99_999, "") && "[KISI_100000]" == Render("KISI", 100_000, "")
  {
    hide Numeral, IsToken, Render, Base, IsIndex;
    LastNumerals();
    Kisi("99999");
    Kisi("100000");
    assert "[KISI_" + "99999" + "]" == "[KISI_99999]" && "[KISI_" + "100000" + "]" == "[KISI_100000]";
    RenderIsToken("KISI", 99_999, "");
    RenderBare("KISI", 99_999);
    RenderBare("KISI", 100_000);
  }

  lemma RenderBare(lbl: string, n: nat)
    ensures Render(lbl, n, "") == Base(lbl, Numeral(n))
  {
    hide Numeral, Base;
    assert Base(lbl, Numeral(n)) + "" == Base(lbl, Numeral(n));
  }

  lemma RunOfTwo(states: seq<State>, ops: seq<Op>, nfc: string -> string, max: nat)
    requires |states| == 3 && |ops| == 2 && Coherent(states[0], nfc, max)
    requires Happens(states[0], ops[0], states[1], nfc, max) && Happens(states[1], ops[1], states[2], nfc, max)
    ensures Run(states, ops, nfc, max)
  {
    hide Happens, Coherent;
  }

  /** Interning under a request that is taken, when the next number is free and there is room. */
  lemma InternNext(st: State, nfc: string -> string, max: nat, scope: Scope, requested: string, lbl: string,
                   counter: nat, record: VaultRecord, now: int)
    returns (after: State)
    requires st.entries.Valid() && |st.entries.keys| < max && !record.kind.Unlisted?
    requires EntryKey(scope, requested) in st.entries.at && !Shares(st, nfc, scope, record, now)
    requires Parts(requested, record.kind) == (lbl, "")
    requires CounterKey(scope, lbl, "") in st.counters && st.counters[CounterKey(scope, lbl, "")] == counter
    requires EntryKey(scope, Render(lbl, counter + 1, "")) !in st.entries.at
    ensures Interns(st, after, nfc, max, scope, requested, record, now, Render(lbl, counter + 1, ""))
  {
    hide Parts, CounterOf, Render;
    var p := Render(lbl, counter + 1, "");
    var k, stored, ck := EntryKey(scope, p), NewEntry(nfc, scope, record, now), CounterKey(scope, lbl, "");
    SetValid(st.entries, k, stored);
    after := State(st.entries.Set(k, stored), st.reverse[stored.reverseKey := p],
                   st.counters[ck := Max(counter + 1, CounterOf(p))]);
    assert Takes(st.entries, scope, requested, lbl, "", counter, p, counter + 1);
  }

  // ---- the index is sound, not complete ----

  predicate Indexed(st: State, k: EntryKey) {
    k in st.entries.at &&
    st.entries.at[k].reverseKey in st.reverse && st.reverse[st.entries.at[k].reverseKey] == k.placeholder
  }

  /** Every live entry can be found through the index. */
  ghost predicate Complete(st: State, now: int) {
    forall k :: k in st.entries.at && Live(st, k, now) ==> Indexed(st, k)
  }

  /** Deleting an entry keeps the index complete unless a live entry has taken over its key. */
  lemma DeletedComplete(st: State, k: EntryKey, now: int, nfc: string -> string, max: nat)
    requires Coherent(st, nfc, max) && Complete(st, now) && k in st.entries.at
    ensures Complete(Deleted(st, k), now) <==>
            var rk := st.entries.at[k].reverseKey;
            !(rk in st.reverse && st.reverse[rk] != k.placeholder && Live(st, EntryKey(rk.scope, st.reverse[rk]), now))
  {
    var rk, after := st.entries.at[k].reverseKey, Deleted(st, k);
    assert rk.scope == k.scope;
    if rk in st.reverse && st.reverse[rk] != k.placeholder {
      var other := EntryKey(rk.scope, st.reverse[rk]);
      assert other in after.entries.at && st.entries.at[other].reverseKey == rk;
    }
  }

  /** Another entry of the same value leaves, or comes in. */
  ghost predicate Unsettles(before: State, after: State, k: EntryKey) {
    exists j :: j != k && Moves(before, after, j) && ReverseIn(before, after, j) == ReverseIn(before, after, k)
  }

  predicate Moves(before: State, after: State, j: EntryKey) {
    (j in before.entries.at) != (j in after.entries.at)
  }

  function ReverseIn(before: State, after: State, j: EntryKey): Option<ReverseKey> {
    if j in before.entries.at then Some(before.entries.at[j].reverseKey)
    else if j in after.entries.at then Some(after.entries.at[j].reverseKey)
    else None
  }

  /** An entry of this value is gone. */
  ghost predicate Gone(entries: OMap<EntryKey, Stored>, left: OMap<EntryKey, Stored>, rk: ReverseKey) {
    exists k :: k in entries.at && k !in left.at && entries.at[k].reverseKey == rk
  }

  lemma GoneOrOldest(entries: OMap<EntryKey, Stored>, left: OMap<EntryKey, Stored>, oldest: EntryKey, rk: ReverseKey)
    requires oldest in entries.at && oldest !in left.at
    ensures Gone(entries, left, rk) <==> Gone(entries.Delete(oldest), left, rk) || entries.at[oldest].reverseKey == rk
  {
    hide Without;
  }

  /** Eviction takes the index of exactly the entries it drops. */
  lemma {:induction false} EvictedIndex(entries: OMap<EntryKey, Stored>, reverse: map<ReverseKey, string>, max: nat,
                                        rk: ReverseKey)
    requires entries.Valid() && Sound(entries, reverse)
    ensures var (e, r) := Evicted(entries, reverse, max); rk in r <==> rk in reverse && !Gone(entries, e, rk)
    decreases |entries.keys|
  {
    hide Sound, OMap.Valid, Gone;
    if |entries.keys| > max {
      var oldest := entries.keys[0];
      assert oldest in entries.keys && oldest in entries.at by { KeysStored(entries); }
      DeleteValid(entries, oldest);
      DeleteOldest(entries);
      var fewer, less := entries.Delete(oldest), reverse - {entries.at[oldest].reverseKey};
      SoundWithout(entries, reverse, oldest);
      EvictedIndex(fewer, less, max, rk);
      OldestGone(entries, reverse, max);
      GoneOrOldest(entries, Evicted(entries, reverse, max).0, oldest, rk);
    } else {
      assert !Gone(entries, entries, rk) by { NoneGone(entries, rk); }
    }
  }

  lemma NoneGone(entries: OMap<EntryKey, Stored>, rk: ReverseKey)
    ensures !Gone(entries, entries, rk)
  {
  }

  lemma OldestGone(entries: OMap<EntryKey, Stored>, reverse: map<ReverseKey, string>, max: nat)
    requires entries.Valid() && Sound(entries, reverse) && |entries.keys| > max
    ensures entries.keys[0] !in Evicted(entries, reverse, max).0.at
  {
    hide Evicted, Sound;
    EvictedKeepsNewest(entries, reverse, max);
    var left := Evicted(entries, reverse, max).0;
    assert forall i :: 0 <= i < |left.keys| ==> left.keys[i] == entries.keys[|entries.keys| - max + i];
  }

  /** A new entry, and what eviction takes. */
  lemma NewIndexed(before: State, after: State, k: EntryKey, stored: Stored, nfc: string -> string, max: nat,
                   e: EntryKey)
    requires Coherent(before, nfc, max) && k !in before.entries.at && e in after.entries.at
    requires stored.reverseKey == ReverseKey(k.scope, stored.kind, nfc(stored.value))
    requires (after.entries, after.reverse) ==
             Evicted(before.entries.Set(k, stored), before.reverse[stored.reverseKey := k.placeholder], max)
    ensures Indexed(after, e) <==> (e in before.entries.at ==> Indexed(before, e)) && !Unsettles(before, after, e)
  {
    hide Evicted, Coherent, Sound, Keyed, OMap.Valid, Gone, Unsettles, Indexed, OMap.Set, SomeOf;
    Added(before, k, stored, nfc, max);
    SetKeys(before.entries, k, stored);
    var all, index := before.entries.Set(k, stored), before.reverse[stored.reverseKey := k.placeholder];
    EvictedSome(all, index, max);
    StillIndexed(all, index, after, max, e);
    PutIn(before, k, stored, nfc, max, e);
    NewestStays(before, after, k, max, e);
    UnsettledBy(before, after, k, stored, e);
  }

  /** Entries of `all`, unchanged. */
  ghost predicate SomeOf(part: OMap<EntryKey, Stored>, all: OMap<EntryKey, Stored>) {
    forall j :: j in part.at ==> j in all.at && part.at[j] == all.at[j]
  }

  lemma EvictedSome(all: OMap<EntryKey, Stored>, index: map<ReverseKey, string>, max: nat)
    requires all.Valid() && Sound(all, index)
    ensures var e := Evicted(all, index, max).0;
            e.Valid() && e.keys == all.keys[Excess(|all.keys|, max)..] && SomeOf(e, all)
  {
    hide Evicted, Sound, OMap.Valid;
    EvictedKeepsNewest(all, index, max);
  }

  lemma SetKeys(m: OMap<EntryKey, Stored>, k: EntryKey, stored: Stored)
    requires k !in m.at
    ensures m.Set(k, stored).keys == m.keys + [k]
    ensures forall j :: j in m.Set(k, stored).at <==> j == k || j in m.at
  {
  }

  /** An entry that eviction left. */
  lemma StillIndexed(all: OMap<EntryKey, Stored>, index: map<ReverseKey, string>, after: State, max: nat, e: EntryKey)
    requires all.Valid() && Sound(all, index) && (after.entries, after.reverse) == Evicted(all, index, max)
    requires e in after.entries.at
    ensures e in all.at
    ensures Indexed(after, e) <==>
            Indexed(State(all, index, map[]), e) && !Gone(all, after.entries, all.at[e].reverseKey)
  {
    hide Evicted, Sound, OMap.Valid, Gone;
    EvictedKeepsNewest(all, index, max);
    EvictedIndex(all, index, max, all.at[e].reverseKey);
  }

  lemma PutIn(before: State, k: EntryKey, stored: Stored, nfc: string -> string, max: nat, e: EntryKey)
    requires Coherent(before, nfc, max) && k !in before.entries.at && (e in before.entries.at || e == k)
    requires stored.reverseKey == ReverseKey(k.scope, stored.kind, nfc(stored.value))
    ensures var all := before.entries.Set(k, stored);
            && e in all.at
            && (Indexed(State(all, before.reverse[stored.reverseKey := k.placeholder], map[]), e) <==>
                (e in before.entries.at ==> Indexed(before, e)) &&
                  (e == k || all.at[e].reverseKey != stored.reverseKey))
  {
    hide Sound, OMap.Valid;
  }

  lemma UnsettledBy(before: State, after: State, k: EntryKey, stored: Stored, e: EntryKey)
    requires k !in before.entries.at && k in after.entries.at && e in after.entries.at
    requires SomeOf(after.entries, before.entries.Set(k, stored))
    ensures var all := before.entries.Set(k, stored);
            var rk := all.at[e].reverseKey;
            Unsettles(before, after, e) <==> Gone(all, after.entries, rk) || (e != k && stored.reverseKey == rk)
  {
    var all := before.entries.Set(k, stored);
    var rk := all.at[e].reverseKey;
    assert ReverseIn(before, after, e) == Some(rk);
    if Gone(all, after.entries, rk) {
      var j :| j in all.at && j !in after.entries.at && all.at[j].reverseKey == rk;
      assert Moves(before, after, j) && ReverseIn(before, after, j) == Some(rk);
    }
    if e != k && stored.reverseKey == rk {
      assert Moves(before, after, k) && ReverseIn(before, after, k) == Some(rk);
    }
    if Unsettles(before, after, e) {
      var j :| j != e && Moves(before, after, j) && ReverseIn(before, after, j) == Some(rk);
      assert j == k || (j in all.at && j !in after.entries.at);
    }
  }

  /** As long as anything is left, the newest entry is. */
  lemma NewestStays(before: State, after: State, k: EntryKey, max: nat, e: EntryKey)
    requires after.entries.Valid() && e in after.entries.at
    requires after.entries.keys == (before.entries.keys + [k])[Excess(|before.entries.keys| + 1, max)..]
    ensures k in after.entries.at
  {
    assert e in after.entries.keys;
    assert after.entries.keys[|after.entries.keys| - 1] == k;
  }

  /** What one call does to the index of an entry that is there afterwards. */
  lemma StepIndexed(before: State, op: Op, after: State, nfc: string -> string, max: nat, e: EntryKey)
    requires Coherent(before, nfc, max) && Happens(before, op, after, nfc, max) && e in after.entries.at
    ensures Indexed(after, e) <==> (e in before.entries.at ==> Indexed(before, e)) && !Unsettles(before, after, e)
  {
    hide Interns, SweptTo, Shares, Evicted, Without;
    match op
    case InternOp(scope, requested, record, now, got) =>
      if Shares(before, nfc, scope, record, now) {
        SharesIndexed(before, op, after, nfc, max, e);
      } else {
        hide Coherent;
        InternsAdds(before, after, nfc, max, scope, requested, record, now, got);
        NewIndexed(before, after, EntryKey(scope, got), NewEntry(nfc, scope, record, now), nfc, max, e);
      }
    case ResolveOp(scope, placeholder, now, found) =>
      ResolvedIndexed(before, scope, placeholder, now, nfc, max, e);
    case SweepOp(now) =>
      SweptIndexed(before, after, now, nfc, max, e);
  }

  lemma SharesIndexed(before: State, op: Op, after: State, nfc: string -> string, max: nat, e: EntryKey)
    requires Coherent(before, nfc, max) && op.InternOp? && Happens(before, op, after, nfc, max) && e in after.entries.at
    requires Shares(before, nfc, op.scope, op.record, op.now)
    ensures Indexed(after, e) <==> (e in before.entries.at ==> Indexed(before, e)) && !Unsettles(before, after, e)
  {
    hide Coherent, Without, Evicted, Parts, Takes;
    InternsShares(before, after, nfc, max, op.scope, op.requested, op.record, op.now, op.got);
    assert forall j :: !Moves(before, after, j);
  }

  lemma ResolvedIndexed(before: State, scope: Scope, p: string, now: int, nfc: string -> string, max: nat, e: EntryKey)
    requires Coherent(before, nfc, max) && e in Resolved(before, scope, p, now).entries.at
    ensures var after := Resolved(before, scope, p, now);
            Indexed(after, e) <==> (e in before.entries.at ==> Indexed(before, e)) && !Unsettles(before, after, e)
  {
    hide Without, Coherent;
    var k, after := EntryKey(scope, p), Resolved(before, scope, p, now);
    if k in before.entries.at && k !in after.entries.at {
      assert Moves(before, after, k) && forall j :: Moves(before, after, j) <==> j == k;
    } else {
      CoherentValid(before, nfc, max);
      assert after.reverse == before.reverse && after.entries.at == before.entries.at;
      assert forall j :: !Moves(before, after, j);
    }
  }

  lemma SweptIndexed(before: State, after: State, now: int, nfc: string -> string, max: nat, e: EntryKey)
    requires Coherent(before, nfc, max) && SweptTo(before, after, |before.entries.keys|, now) && e in after.entries.at
    ensures Indexed(after, e) <==> (e in before.entries.at ==> Indexed(before, e)) && !Unsettles(before, after, e)
  {
    SweptCoherent(before, after, now, nfc, max);
    var keys, rk := before.entries.keys, before.entries.at[e].reverseKey;
    assert keys[..|keys|] == keys;
    SweptAway(before, after, now, rk, e);
  }

  lemma SweptAway(before: State, after: State, now: int, rk: ReverseKey, e: EntryKey)
    requires before.entries.Valid() && e in before.entries.at && before.entries.at[e].reverseKey == rk &&
             Live(before, e, now)
    requires forall k :: k in after.entries.at <==> Live(before, k, now)
    ensures Dropped(before, before.entries.keys, now, rk) <==> Unsettles(before, after, e)
  {
    var keys := before.entries.keys;
    if Dropped(before, keys, now, rk) {
      var j :| j in keys && before.entries.at[j].expiresAt <= now && before.entries.at[j].reverseKey == rk;
      assert Moves(before, after, j) && ReverseIn(before, after, j) == ReverseIn(before, after, e);
    }
    if Unsettles(before, after, e) {
      var j :| j != e && Moves(before, after, j) && ReverseIn(before, after, j) == ReverseIn(before, after, e);
      assert j in keys;
    }
  }

  /**
   In every run an entry can be found through the index exactly if, since the call that put it in, no other
   entry of its value came or left.
   */
  lemma {:induction false} RunIndexed(states: seq<State>, ops: seq<Op>, nfc: string -> string, max: nat,
                                      i: nat, n: nat, e: EntryKey)
    requires Run(states, ops, nfc, max) && i < n <= |ops|
    requires e !in states[i].entries.at && forall j :: i < j <= n ==> e in states[j].entries.at
    ensures Indexed(states[n], e) <==> forall j :: i <= j < n ==> !Unsettles(states[j], states[j + 1], e)
    decreases n
  {
    hide Coherent, Happens, Indexed, Unsettles;
    RunCoherent(states, ops, nfc, max, n - 1);
    StepIndexed(states[n - 1], ops[n - 1], states[n], nfc, max, e);
    if i < n - 1 {
      RunIndexed(states, ops, nfc, max, i, n - 1, e);
    }
  }

  /**
   So a value can get a second placeholder while its first is live: the expired entry of an earlier
   placeholder, when it is found, takes the index of the newer one with it.
   */
  lemma ForgetsLiveValue(nfc: string -> string, max: nat, scope: Scope, kind: EntityType, value: string)
    returns (states: seq<State>, ops: seq<Op>)
    requires max >= 3 && !kind.Unlisted?
    ensures Run(states, ops, nfc, max) && |ops| == 4 && states[0] == State(Empty(), map[], map[])
    ensures ops[1].InternOp? && ops[3].InternOp? && ops[1].record == ops[3].record && ops[1].scope == ops[3].scope
    ensures Live(states[3], EntryKey(scope, ops[1].got), ops[3].now) && ops[1].scope == scope
    ensures ops[3].got != ops[1].got
  {
    hide Parts, CounterOf, Interns, Coherent, Without, Evicted, Run, OMap.Valid, SweptTo;
    var record := VaultRecord(kind, value, 1);
    assert Empty<EntryKey, Stored>().Valid() by { NothingIn(); }
    var rk := ReverseKey(scope, kind, nfc(value));
    var s0 := State(Empty(), map[], map[]);
    var s1 := InternRequested(s0, nfc, max, scope, "[KISI_1]", record, 0);
    assert s1.entries.at.Keys == {EntryKey(scope, "[KISI_1]")} && s1.reverse == map[rk := "[KISI_1]"];
    var s2 := InternRequested(s1, nfc, max, scope, "[KISI_2]", record, 1_000);
    var s3 := FindsExpired(s2, scope, rk);
    assert EntryKey(scope, "[KISI_3]") !in s3.entries.at by {
      assert s3.entries.at.Keys == {EntryKey(scope, "[KISI_2]")};
    }
    var s4 := InternRequested(s3, nfc, max, scope, "[KISI_3]", record, 1_000);
    states := [s0, s1, s2, s3, s4];
    ops := [InternOp(scope, "[KISI_1]", record, 0, "[KISI_1]"), InternOp(scope, "[KISI_2]", record, 1_000, "[KISI_2]"),
            ResolveOp(scope, "[KISI_1]", 1_000, None), InternOp(scope, "[KISI_3]", record, 1_000, "[KISI_3]")];
    NothingStored(nfc, max);
    RunOfFour(states, ops, nfc, max);
  }

  lemma RunOfFour(states: seq<State>, ops: seq<Op>, nfc: string -> string, max: nat)
    requires |states| == 5 && |ops| == 4 && Coherent(states[0], nfc, max)
    requires Happens(states[0], ops[0], states[1], nfc, max) && Happens(states[1], ops[1], states[2], nfc, max)
    requires Happens(states[2], ops[2], states[3], nfc, max) && Happens(states[3], ops[3], states[4], nfc, max)
    ensures Run(states, ops, nfc, max)
  {
    hide Happens, Coherent;
  }

  lemma NothingIn()
    ensures Empty<EntryKey, Stored>().Valid()
  {
  }

  lemma NothingStored(nfc: string -> string, max: nat)
    ensures Coherent(State(Empty(), map[], map[]), nfc, max)
  {
  }

  lemma TwoEntries(m: OMap<EntryKey, Stored>, a: EntryKey, b: EntryKey)
    requires m.Valid() && m.keys == [a, b] && a != b
    ensures a in m.at && b in m.at && m.at - {a} == map[b := m.at[b]]
  {
    assert m.keys[0] == a && m.keys[1] == b;
  }

  /** Two entries of one value, the older one expired, the index at the newer one. */
  lemma FindsExpired(st: State, scope: Scope, rk: ReverseKey) returns (after: State)
    requires var a, b := EntryKey(scope, "[KISI_1]"), EntryKey(scope, "[KISI_2]");
             && st.entries.Valid() && st.entries.keys == [a, b] && a in st.entries.at && b in st.entries.at
             && st.entries.at[a].reverseKey == rk && st.entries.at[a].expiresAt == 1_000
             && st.entries.at[b].expiresAt == 2_000
             && st.reverse == map[rk := "[KISI_2]"]
    ensures after == Resolved(st, scope, "[KISI_1]", 1_000) && after.reverse == map[]
    ensures after.entries.Valid() && after.entries.keys == [EntryKey(scope, "[KISI_2]")]
    ensures after.entries.at == map[EntryKey(scope, "[KISI_2]") := st.entries.at[EntryKey(scope, "[KISI_2]")]]
  {
    hide Without, OMap.Valid;
    var a, b := EntryKey(scope, "[KISI_1]"), EntryKey(scope, "[KISI_2]");
    after := Resolved(st, scope, "[KISI_1]", 1_000);
    assert st.entries.keys == [] + [a] + [b] && [] + [b] == [b];
    WithoutMiddle([], a, [b]);
    DeleteValid(st.entries, a);
    TwoEntries(st.entries, a, b);
    assert after == Deleted(st, a);
  }

  /** Interning under a request that is free, when the index has nothing live and there is room. */
  lemma InternRequested(st: State, nfc: string -> string, max: nat, scope: Scope, requested: string,
                        record: VaultRecord, now: int)
    returns (after: State)
    requires st.entries.Valid() && |st.entries.keys| < max && !record.kind.Unlisted?
    requires EntryKey(scope, requested) !in st.entries.at && !Shares(st, nfc, scope, record, now)
    ensures Interns(st, after, nfc, max, scope, requested, record, now, requested)
    ensures var k, stored := EntryKey(scope, requested), NewEntry(nfc, scope, record, now);
            && after.entries == st.entries.Set(k, stored) && after.entries.Valid()
            && after.reverse == st.reverse[stored.reverseKey := requested]
            && var (lbl, suffix) := Parts(requested, record.kind);
               var ck := CounterKey(scope, lbl, suffix);
               after.counters ==
               st.counters[ck := Max(if ck in st.counters then st.counters[ck] else 0, CounterOf(requested))]
  {
    hide Parts, CounterOf;
    var k, stored := EntryKey(scope, requested), NewEntry(nfc, scope, record, now);
    var (lbl, suffix) := Parts(requested, record.kind);
    var ck := CounterKey(scope, lbl, suffix);
    var counter := if ck in st.counters then st.counters[ck] else 0;
    SetValid(st.entries, k, stored);
    after := State(st.entries.Set(k, stored), st.reverse[stored.reverseKey := requested],
                   st.counters[ck := Max(counter, CounterOf(requested))]);
    assert Takes(st.entries, scope, requested, lbl, suffix, counter, requested, counter);
  }
}
