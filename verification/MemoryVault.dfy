/**
 The in-memory vault: a bounded, expiring store of masked values that forgets the least recently used
 entry first, with a reverse index that lets a value keep its placeholder.
 */
module MemoryVault {
  import opened Placeholder
  import opened Decimal
  import opened Numbers
  import opened Taxonomy
  import opened OrderedMap
  import opened Wrappers

  datatype Scope = Scope(tenantId: string, sessionId: string)

  datatype VaultRecord = VaultRecord(kind: EntityType, value: string, ttlSec: nat)

  datatype EntryKey = EntryKey(scope: Scope, placeholder: string)

  datatype ReverseKey = ReverseKey(scope: Scope, kind: EntityType, normalised: string)

  datatype CounterKey = CounterKey(scope: Scope, lbl: string, suffix: string)

  datatype Stored = Stored(kind: EntityType, value: string, expiresAt: int, reverseKey: ReverseKey)

  // ---- the parts of a requested placeholder ----

  /** Label and suffix of a placeholder, or the label of the type when the request is not one. */
  function Parts(requested: string, kind: EntityType): (r: (string, string))
    requires !kind.Unlisted?
    ensures forall i :: 0 <= i < |r.0| ==> IsUpper(r.0[i])
  {
    if requested != "" && TokenLen(requested) == |requested| then
      var l := UpperRun(requested[1..]);
      (requested[1..l + 1], requested[BaseLen(requested)..])
    else (Label(kind), "")
  }

  /** The counter of the placeholder that `s` starts with, 0 if none. */
  function CounterOf(s: string): nat {
    var n := BaseLen(s);
    if n == 0 then 0
    else
      var l := UpperRun(s[1..]);
      if l + 2 <= n - 1 && DigitRun(s[l + 2..n - 1]) == n - l - 3 then Value(s[l + 2..n - 1]) else 0
  }

  /** For a placeholder, `Parts` and `CounterOf` take apart what `Render` puts together. */
  lemma PartsOfRendered(lbl: string, n: nat, suffix: string, kind: EntityType)
    requires IsLabel(lbl) && 1 <= n <= 99_999 && (suffix == "" || IsSuffix(suffix)) && !kind.Unlisted?
    ensures Parts(Render(lbl, n, suffix), kind) == (lbl, suffix)
    ensures CounterOf(Render(lbl, n, suffix)) == n
  {
    hide BaseLen, TokenLen, Label, Numeral, IsToken, IsSuffix, Base, Value, IsBase;
    var p, d := Render(lbl, n, suffix), Numeral(n);
    RenderIsToken(lbl, n, suffix);
    TokenShape(p);
    RenderedPieces(lbl, n, suffix);
    assert p[BaseLen(p)..] == suffix;
    NumeralValue(n);
  }

  /** A request that is no placeholder is answered in the series of the type. */
  lemma PartsOfOther(requested: string, kind: EntityType)
    requires !kind.Unlisted? && !IsToken(requested)
    ensures Parts(requested, kind) == (Label(kind), "")
  {
    hide Label, IsToken, TokenLen, BaseLen;
    if requested != "" && TokenLen(requested) == |requested| {
      assert requested[..|requested|] == requested;
      TokenAtStart(requested);
    }
  }

  lemma RenderedPieces(lbl: string, n: nat, suffix: string)
    requires IsLabel(lbl)
    ensures var p, d, o := Render(lbl, n, suffix), Numeral(n), |lbl| + 2;
            && UpperRun(p[1..]) == |lbl| && p[1..|lbl| + 1] == lbl
            && |Base(lbl, d)| == o + |d| + 1 && p[o..o + |d|] == d && DigitRun(d) == |d|
  {
    hide Numeral;
    var p := Render(lbl, n, suffix);
    assert forall i :: 0 <= i < |lbl| ==> p[1..][i] == lbl[i];
    assert p[|lbl| + 1] == '_' && p[1..][|lbl|] == '_';
  }

  // ---- the state and what its operations may do to it ----

  /** Drops the oldest entries, and what the index has for them, until at most `max` are left. */
  function Evicted(entries: OMap<EntryKey, Stored>, reverse: map<ReverseKey, string>, max: nat):
    (r: (OMap<EntryKey, Stored>, map<ReverseKey, string>))
    requires entries.Valid()
    decreases |entries.keys|
  {
    if |entries.keys| <= max then (entries, reverse)
    else
      var oldest := entries.keys[0];
      assert oldest in entries.keys;
      DeleteValid(entries, oldest);
      DeleteOldest(entries);
      Evicted(entries.Delete(oldest), reverse - {entries.at[oldest].reverseKey}, max)
  }

  /** Every index entry points at a stored record of its key, which carries that key. */
  ghost predicate Sound(entries: OMap<EntryKey, Stored>, reverse: map<ReverseKey, string>) {
    && (forall rk :: rk in reverse ==>
          && EntryKey(rk.scope, reverse[rk]) in entries.at
          && entries.at[EntryKey(rk.scope, reverse[rk])].reverseKey == rk)
  }

  ghost predicate Keyed(entries: OMap<EntryKey, Stored>, nfc: string -> string) {
    forall k :: k in entries.at ==>
      entries.at[k].reverseKey == ReverseKey(k.scope, entries.at[k].kind, nfc(entries.at[k].value))
  }

  lemma KeysStored(m: OMap<EntryKey, Stored>)
    requires m.Valid()
    ensures forall k :: k in m.keys <==> k in m.at
  {
  }

  lemma SoundWithout(entries: OMap<EntryKey, Stored>, reverse: map<ReverseKey, string>, k: EntryKey)
    requires Sound(entries, reverse) && k in entries.at
    ensures Sound(entries.Delete(k), reverse - {entries.at[k].reverseKey})
  {
    hide Without;
  }

  /** Eviction keeps the newest entries, in order and unchanged, and the index sound. */
  lemma {:induction false} EvictedKeepsNewest(entries: OMap<EntryKey, Stored>, reverse: map<ReverseKey, string>,
                                              max: nat)
    requires entries.Valid() && Sound(entries, reverse)
    ensures var (e, r) := Evicted(entries, reverse, max);
            var n := |entries.keys|;
            && e.Valid() && Sound(e, r)
            && e.keys == entries.keys[if n <= max then 0 else n - max..]
            && |e.keys| == (if n <= max then n else max)
            && (forall k :: k in e.at ==> k in entries.at && e.at[k] == entries.at[k])
            && (forall rk :: rk in r ==> rk in reverse && r[rk] == reverse[rk])
    decreases |entries.keys|
  {
    hide Sound, OMap.Valid, Without;
    if |entries.keys| > max {
      var oldest := entries.keys[0];
      KeysStored(entries);
      assert oldest in entries.keys;
      DeleteValid(entries, oldest);
      DeleteOldest(entries);
      SoundWithout(entries, reverse, oldest);
      assert forall i :: 1 <= i <= |entries.keys| ==> entries.keys[1..][i - 1..] == entries.keys[i..];
      EvictedKeepsNewest(entries.Delete(oldest), reverse - {entries.at[oldest].reverseKey}, max);
    }
  }

  /** Everything the vault holds. */
  datatype State = State(
    entries: OMap<EntryKey, Stored>, reverse: map<ReverseKey, string>, counters: map<CounterKey, nat>)

  ghost predicate Coherent(st: State, nfc: string -> string, max: nat) {
    && st.entries.Valid() && |st.entries.keys| <= max
    && Sound(st.entries, st.reverse) && Keyed(st.entries, nfc)
  }

  predicate Live(st: State, k: EntryKey, now: int) {
    k in st.entries.at && st.entries.at[k].expiresAt > now
  }

  /** What a client can see in a scope at one moment. */
  function View(st: State, scope: Scope, now: int): map<string, string> {
    map k | k in st.entries.at && k.scope == scope && Live(st, k, now) :: k.placeholder := st.entries.at[k].value
  }

  /** Of an entry kept across an operation nothing changes. */
  ghost predicate Keeps(before: State, after: State) {
    forall k :: k in before.entries.at && k in after.entries.at ==> after.entries.at[k] == before.entries.at[k]
  }

  /**
   The placeholder taken for a new entry: the requested one, or else the first free one after the
   counter with its label and suffix; and the counter that is kept.
   */
  ghost predicate Takes(entries: OMap<EntryKey, Stored>, scope: Scope, requested: string, lbl: string, suffix: string,
                        counter: nat, p: string, index: nat) {
    && EntryKey(scope, p) !in entries.at
    && (if EntryKey(scope, requested) !in entries.at then p == requested && index == counter
        else
          && counter < index && p == Render(lbl, index, suffix)
          && forall i :: counter < i < index ==> EntryKey(scope, Render(lbl, i, suffix)) in entries.at)
  }

  /** What `intern` does: a live entry of the value is touched and shared, otherwise a new one is put in. */
  ghost predicate Interns(before: State, after: State, nfc: string -> string, max: nat,
                          scope: Scope, requested: string, record: VaultRecord, now: int, p: string)
    requires !record.kind.Unlisted?
  {
    var rk := ReverseKey(scope, record.kind, nfc(record.value));
    if rk in before.reverse && Live(before, EntryKey(scope, before.reverse[rk]), now) then
      p == before.reverse[rk] && after == before.(entries := before.entries.Touch(EntryKey(scope, p)))
    else
      var (lbl, suffix) := Parts(requested, record.kind);
      var ck := CounterKey(scope, lbl, suffix);
      var counter := if ck in before.counters then before.counters[ck] else 0;
      var stored := Stored(record.kind, record.value, now + record.ttlSec * 1_000, rk);
      && before.entries.Valid()
      && exists index: nat ::
           && Takes(before.entries, scope, requested, lbl, suffix, counter, p, index)
           && before.entries.Set(EntryKey(scope, p), stored).Valid()
           && var (entries, reverse) :=
                Evicted(before.entries.Set(EntryKey(scope, p), stored), before.reverse[rk := p], max);
              after == State(entries, reverse, before.counters[ck := Max(index, CounterOf(p))])
  }

  /** What deleting one entry leaves. */
  function Deleted(st: State, k: EntryKey): State
    requires k in st.entries.at
  {
    st.(entries := st.entries.Delete(k), reverse := st.reverse - {st.entries.at[k].reverseKey})
  }

  lemma DeletedCoherent(st: State, k: EntryKey, nfc: string -> string, max: nat)
    requires Coherent(st, nfc, max) && k in st.entries.at
    ensures Coherent(Deleted(st, k), nfc, max) && Keeps(st, Deleted(st, k))
    ensures |Deleted(st, k).entries.keys| < |st.entries.keys|
  {
    var after := Deleted(st, k);
    DeleteValid(st.entries, k);
    KeysCount(st.entries);
    KeysCount(after.entries);
    assert st.entries.at.Keys == after.entries.at.Keys + {k};
  }

  function Resolved(st: State, scope: Scope, p: string, now: int): State {
    var k := EntryKey(scope, p);
    if k !in st.entries.at then st
    else if st.entries.at[k].expiresAt <= now then Deleted(st, k)
    else st.(entries := st.entries.Touch(k))
  }

  /** The keys that are still live, in order. */
  function LiveKeys(entries: map<EntryKey, Stored>, keys: seq<EntryKey>, now: int): seq<EntryKey>
    requires forall k :: k in keys ==> k in entries
  {
    if keys == [] then []
    else
      var init, k := keys[..|keys| - 1], keys[|keys| - 1];
      LiveKeys(entries, init, now) + if entries[k].expiresAt > now then [k] else []
  }

  class Vault {
    var entries: OMap<EntryKey, Stored>
    var reverse: map<ReverseKey, string>
    var counters: map<CounterKey, nat>
    const maxEntries: nat
    const nfc: string -> string

    constructor (maxEntries: nat, nfc: string -> string)
      ensures Valid() && Contents() == State(Empty(), map[], map[])
      ensures this.maxEntries == maxEntries && this.nfc == nfc
    {
      this.maxEntries, this.nfc := maxEntries, nfc;
      entries, reverse, counters := Empty(), map[], map[];
    }

    ghost function Contents(): State
      reads this
    {
      State(entries, reverse, counters)
    }

    ghost predicate Valid()
      reads this
    {
      Coherent(Contents(), nfc, maxEntries)
    }

    /** The clock is read once: `now`. */
    method Intern(scope: Scope, requested: string, record: VaultRecord, now: int) returns (p: string)
      requires Valid() && !record.kind.Unlisted?
      modifies this
      ensures Valid() && Keeps(old(Contents()), Contents())
      ensures Interns(old(Contents()), Contents(), nfc, maxEntries, scope, requested, record, now, p)
    {
      hide Sound, Keyed, Evicted, Takes, Parts, CounterOf, Keeps, Coherent, Interns;
      var reverseKey := ReverseKey(scope, record.kind, nfc(record.value));
      ghost var before := Contents();
      if reverseKey in reverse {
        var existing := reverse[reverseKey];
        var key := EntryKey(scope, existing);
        if key in entries.at && entries.at[key].expiresAt > now {
          Touch(key);
          SameKeeps(before, Contents());
          InternsHit(before, Contents(), nfc, maxEntries, scope, requested, record, now, existing);
          return existing;
        }
        reverse := reverse - {reverseKey};
      }
      assert before.entries.Valid() by { CoherentValid(before, nfc, maxEntries); }
      ghost var index;
      p, index := AvailablePlaceholder(scope, requested, record.kind);
      var key := EntryKey(scope, p);
      var stored := Stored(record.kind, record.value, now + record.ttlSec * 1_000, reverseKey);
      assert reverse[reverseKey := p] == before.reverse[reverseKey := p];
      TakesFree(before.entries, scope, requested, record.kind, before.counters, p, index);
      Added(before, key, stored, nfc, maxEntries);
      entries := entries.Set(key, stored);
      reverse := reverse[reverseKey := p];
      EvictToLimit();
      AddedCoherent(before, Contents(), key, stored, nfc, maxEntries);
      InternsMiss(before, Contents(), nfc, maxEntries, scope, requested, record, now, p, index);
    }

    /** The first free placeholder is found, because only finitely many are taken. */
    method AvailablePlaceholder(scope: Scope, requested: string, kind: EntityType)
      returns (candidate: string, ghost taken: nat)
      requires entries.Valid() && !kind.Unlisted?
      modifies this`counters
      ensures var (lbl, suffix) := Parts(requested, kind);
              var ck := CounterKey(scope, lbl, suffix);
              var counter := if ck in old(counters) then old(counters)[ck] else 0;
              && Takes(entries, scope, requested, lbl, suffix, counter, candidate, taken)
              && counters == old(counters)[ck := Max(taken, CounterOf(candidate))]
    {
      hide Parts, CounterOf, Render, ProbedUpTo, OMap.Valid;
      var (lbl, suffix) := Parts(requested, kind);
      var counterKey := CounterKey(scope, lbl, suffix);
      var index: nat := if counterKey in counters then counters[counterKey] else 0;
      ghost var counter := index;
      candidate := requested;
      ghost var probed: set<EntryKey> := {};
      assert ProbedUpTo(scope, lbl, suffix, counter, index, probed) by { NoneProbed(scope, lbl, suffix, counter); }
      while EntryKey(scope, candidate) in entries.at
        invariant counter <= index && probed <= entries.at.Keys && counters == old(counters)
        invariant index == counter ==> candidate == requested
        invariant index > counter ==>
                    candidate == Render(lbl, index, suffix) && EntryKey(scope, requested) in entries.at
        invariant ProbedUpTo(scope, lbl, suffix, counter, index, probed)
        decreases index == counter, |entries.at.Keys - probed|
      {
        if index > counter {
          ghost var key := EntryKey(scope, candidate);
          ProbeNext(scope, lbl, suffix, counter, index, probed);
          assert entries.at.Keys - (probed + {key}) == (entries.at.Keys - probed) - {key};
          probed := probed + {key};
        } else {
          NextUnprobed(scope, lbl, suffix, counter, probed);
        }
        index := index + 1;
        candidate := Render(lbl, index, suffix);
      }
      counters := counters[counterKey := Max(index, CounterOf(candidate))];
      AllProbed(scope, lbl, suffix, counter, index, probed, entries);
      taken := index;
    }

    method Resolve(scope: Scope, placeholder: string, now: int) returns (value: Option<string>)
      requires Valid()
      modifies this
      ensures Valid() && Keeps(old(Contents()), Contents())
      ensures Contents() == Resolved(old(Contents()), scope, placeholder, now)
      ensures var k := EntryKey(scope, placeholder);
              && value == (if k in old(entries.at) && old(entries.at)[k].expiresAt > now
                           then Some(old(entries.at)[k].value) else None)
              && (value.Some? ==> entries.at == old(entries.at) && entries.keys != [] &&
                                  entries.keys[|entries.keys| - 1] == k)
              && (value.None? ==> entries.at == old(entries.at) - {k})
    {
      var key := EntryKey(scope, placeholder);
      if key !in entries.at {
        return None;
      }
      var stored := entries.at[key];
      if stored.expiresAt <= now {
        DeleteEntry(key);
        return None;
      }
      Touch(key);
      value := Some(stored.value);
    }

    method Touch(key: EntryKey)
      requires Valid() && key in entries.at
      modifies this`entries
      ensures Valid() && entries == old(entries).Touch(key) && entries.at == old(entries).at
    {
      TouchValid(entries, key);
      KeysCount(entries);
      KeysCount(entries.Touch(key));
      entries := entries.Touch(key);
    }

    method DeleteEntry(key: EntryKey)
      requires Valid() && key in entries.at
      modifies this`entries, this`reverse
      ensures Valid() && Contents() == Deleted(old(Contents()), key)
      ensures Keeps(old(Contents()), Contents()) && |entries.keys| < |old(entries).keys|
    {
      DeletedCoherent(Contents(), key, nfc, maxEntries);
      var stored := entries.at[key];
      entries := entries.Delete(key);
      reverse := reverse - {stored.reverseKey};
    }

    method EvictToLimit()
      requires entries.Valid()
      modifies this`entries, this`reverse
      ensures (entries, reverse) == Evicted(old(entries), old(reverse), maxEntries)
    {
      while |entries.keys| > maxEntries
        invariant entries.Valid()
        invariant Evicted(old(entries), old(reverse), maxEntries) == Evicted(entries, reverse, maxEntries)
        decreases |entries.keys|
      {
        var oldest := entries.keys[0];
        assert oldest in entries.keys;
        var stored := entries.at[oldest];
        DeleteValid(entries, oldest);
        DeleteOldest(entries);
        entries := entries.Delete(oldest);
        reverse := reverse - {stored.reverseKey};
      }
    }

    /** The live entries stay, in order; the index loses the keys of the others. */
    method Sweep(now: int) returns (purged: nat)
      requires Valid()
      modifies this`entries, this`reverse
      ensures Valid() && SweptTo(old(Contents()), Contents(), |old(entries).keys|, now)
      ensures purged == |old(entries).keys| - |entries.keys|
    {
      hide Coherent, SweptTo;
      purged := 0;
      var keys, i := entries.keys, 0;
      ghost var before := Contents();
      assert SweptTo(before, before, 0, now) by { NotSwept(before, nfc, maxEntries, now); }
      while i < |keys|
        invariant i <= |keys| && Valid()
        invariant SweptTo(before, Contents(), i, now)
        invariant purged == |keys| - |entries.keys|
      {
        var key := keys[i];
        SweepNext(before, Contents(), i, now, nfc, maxEntries);
        if entries.at[key].expiresAt <= now {
          DeleteEntry(key);
          purged := purged + 1;
        }
        i := i + 1;
      }
    }
  }

  // ---- the steps of the methods ----

  lemma CoherentValid(st: State, nfc: string -> string, max: nat)
    requires Coherent(st, nfc, max)
    ensures st.entries.Valid()
  {
  }

  lemma SameKeeps(before: State, after: State)
    requires after.entries.at == before.entries.at
    ensures Keeps(before, after)
  {
  }

  lemma InternsHit(before: State, after: State, nfc: string -> string, max: nat,
                   scope: Scope, requested: string, record: VaultRecord, now: int, p: string)
    requires !record.kind.Unlisted?
    requires var rk := ReverseKey(scope, record.kind, nfc(record.value));
             && rk in before.reverse && p == before.reverse[rk] && Live(before, EntryKey(scope, p), now)
             && after == before.(entries := before.entries.Touch(EntryKey(scope, p)))
    ensures Interns(before, after, nfc, max, scope, requested, record, now, p)
  {
    hide Parts, Takes, Evicted, OMap.Touch;
  }

  lemma InternsMiss(before: State, after: State, nfc: string -> string, max: nat,
                    scope: Scope, requested: string, record: VaultRecord, now: int, p: string, index: nat)
    requires !record.kind.Unlisted? && before.entries.Valid()
    requires var rk := ReverseKey(scope, record.kind, nfc(record.value));
             !(rk in before.reverse && Live(before, EntryKey(scope, before.reverse[rk]), now))
    requires var (lbl, suffix) := Parts(requested, record.kind);
             var ck := CounterKey(scope, lbl, suffix);
             && Takes(before.entries, scope, requested, lbl, suffix,
                      if ck in before.counters then before.counters[ck] else 0, p, index)
             && after.counters == before.counters[ck := Max(index, CounterOf(p))]
    requires var rk := ReverseKey(scope, record.kind, nfc(record.value));
             var stored := Stored(record.kind, record.value, now + record.ttlSec * 1_000, rk);
             && before.entries.Set(EntryKey(scope, p), stored).Valid()
             && (after.entries, after.reverse) ==
                Evicted(before.entries.Set(EntryKey(scope, p), stored), before.reverse[rk := p], max)
    ensures Interns(before, after, nfc, max, scope, requested, record, now, p)
  {
    hide Parts, Takes, Evicted, OMap.Set, OMap.Valid, CounterOf;
  }

  lemma TakesFree(entries: OMap<EntryKey, Stored>, scope: Scope, requested: string, kind: EntityType,
                  counters: map<CounterKey, nat>, p: string, index: nat)
    requires !kind.Unlisted?
    requires var (lbl, suffix) := Parts(requested, kind);
             var ck := CounterKey(scope, lbl, suffix);
             Takes(entries, scope, requested, lbl, suffix, if ck in counters then counters[ck] else 0, p, index)
    ensures EntryKey(scope, p) !in entries.at
  {
    hide Parts;
  }

  /** A new entry under a free key, indexed. */
  lemma Added(st: State, key: EntryKey, stored: Stored, nfc: string -> string, max: nat)
    requires Coherent(st, nfc, max) && key !in st.entries.at
    requires stored.reverseKey == ReverseKey(key.scope, stored.kind, nfc(stored.value))
    ensures st.entries.Set(key, stored).Valid()
    ensures Sound(st.entries.Set(key, stored), st.reverse[stored.reverseKey := key.placeholder])
    ensures Keyed(st.entries.Set(key, stored), nfc)
  {
    SetValid(st.entries, key, stored);
  }

  lemma AddedCoherent(st: State, after: State, key: EntryKey, stored: Stored, nfc: string -> string, max: nat)
    requires Coherent(st, nfc, max) && key !in st.entries.at
    requires stored.reverseKey == ReverseKey(key.scope, stored.kind, nfc(stored.value))
    requires st.entries.Set(key, stored).Valid()
    requires (after.entries, after.reverse) ==
             Evicted(st.entries.Set(key, stored), st.reverse[stored.reverseKey := key.placeholder], max)
    ensures Coherent(after, nfc, max) && Keeps(st, after)
  {
    hide Evicted, OMap.Valid;
    Added(st, key, stored, nfc, max);
    EvictedKeepsNewest(st.entries.Set(key, stored), st.reverse[stored.reverseKey := key.placeholder], max);
  }

  /** The keys of the candidates tried so far, the requested one left out. */
  ghost predicate ProbedUpTo(scope: Scope, lbl: string, suffix: string, counter: nat, index: nat,
                             probed: set<EntryKey>) {
    && (forall i :: counter < i < index ==> EntryKey(scope, Render(lbl, i, suffix)) in probed)
    && (forall k :: k in probed ==> exists i :: counter < i < index && k == EntryKey(scope, Render(lbl, i, suffix)))
  }

  lemma NoneProbed(scope: Scope, lbl: string, suffix: string, counter: nat)
    ensures ProbedUpTo(scope, lbl, suffix, counter, counter, {})
  {
  }

  lemma NextUnprobed(scope: Scope, lbl: string, suffix: string, counter: nat, probed: set<EntryKey>)
    requires ProbedUpTo(scope, lbl, suffix, counter, counter, probed)
    ensures ProbedUpTo(scope, lbl, suffix, counter, counter + 1, probed)
  {
    hide Render;
  }

  /** A candidate is never tried twice. */
  lemma ProbeNext(scope: Scope, lbl: string, suffix: string, counter: nat, index: nat, probed: set<EntryKey>)
    requires (forall i :: 0 <= i < |lbl| ==> IsUpper(lbl[i])) && counter < index
    requires ProbedUpTo(scope, lbl, suffix, counter, index, probed)
    ensures var key := EntryKey(scope, Render(lbl, index, suffix));
            key !in probed && ProbedUpTo(scope, lbl, suffix, counter, index + 1, probed + {key})
  {
    hide Render;
    var key := EntryKey(scope, Render(lbl, index, suffix));
    forall i | counter < i < index ensures EntryKey(scope, Render(lbl, i, suffix)) != key {
      if Render(lbl, i, suffix) == Render(lbl, index, suffix) {
        RenderInjective(lbl, i, suffix, lbl, index, suffix);
      }
    }
    forall k | k in probed + {key}
      ensures exists i :: counter < i < index + 1 && k == EntryKey(scope, Render(lbl, i, suffix))
    {
      if k in probed {
        var i :| counter < i < index && k == EntryKey(scope, Render(lbl, i, suffix));
        assert counter < i < index + 1;
      }
    }
  }

  lemma AllProbed(scope: Scope, lbl: string, suffix: string, counter: nat, index: nat, probed: set<EntryKey>,
                  entries: OMap<EntryKey, Stored>)
    requires ProbedUpTo(scope, lbl, suffix, counter, index, probed) && probed <= entries.at.Keys
    ensures forall i :: counter < i < index ==> EntryKey(scope, Render(lbl, i, suffix)) in entries.at
  {
    hide Render;
  }

  /** The first `i` entries have been looked at. */
  ghost predicate SweptTo(before: State, after: State, i: nat, now: int) {
    && i <= |before.entries.keys| && (forall k :: k in before.entries.keys ==> k in before.entries.at)
    && SweptEntries(before.entries, after.entries, i, now)
    && SweptReverse(before, after.reverse, before.entries.keys[..i], now)
    && after.counters == before.counters
  }

  ghost predicate SweptEntries(before: OMap<EntryKey, Stored>, after: OMap<EntryKey, Stored>, i: nat, now: int)
    requires i <= |before.keys| && forall k :: k in before.keys ==> k in before.at
  {
    && after.Valid()
    && after.keys == LiveKeys(before.at, before.keys[..i], now) + before.keys[i..]
    && forall k :: k in after.at ==> k in before.at && after.at[k] == before.at[k]
  }

  /** The index has lost exactly the keys of expired entries. */
  ghost predicate SweptReverse(before: State, after: map<ReverseKey, string>, seen: seq<EntryKey>, now: int)
    requires forall k :: k in seen ==> k in before.entries.at
  {
    && (forall rk :: rk in after ==>
          rk in before.reverse && after[rk] == before.reverse[rk] && !Dropped(before, seen, now, rk))
    && (forall rk :: rk in before.reverse ==> rk in after || Dropped(before, seen, now, rk))
  }

  ghost predicate Dropped(before: State, seen: seq<EntryKey>, now: int, rk: ReverseKey)
    requires forall k :: k in seen ==> k in before.entries.at
  {
    exists k :: k in seen && before.entries.at[k].expiresAt <= now && before.entries.at[k].reverseKey == rk
  }

  lemma NotSwept(st: State, nfc: string -> string, max: nat, now: int)
    requires Coherent(st, nfc, max)
    ensures SweptTo(st, st, 0, now)
  {
  }

  lemma SweepNext(before: State, st: State, i: nat, now: int, nfc: string -> string, max: nat)
    requires SweptTo(before, st, i, now) && i < |before.entries.keys| && Coherent(st, nfc, max)
    ensures var k := before.entries.keys[i];
            && k in st.entries.at && st.entries.at[k] == before.entries.at[k]
            && (if before.entries.at[k].expiresAt <= now
                then SweptTo(before, Deleted(st, k), i + 1, now) &&
                  |Deleted(st, k).entries.keys| == |st.entries.keys| - 1
                else SweptTo(before, st, i + 1, now))
  {
    hide LiveKeys, Without, Sound, Keyed, SweptEntries, SweptReverse, OMap.Delete;
    var k := before.entries.keys[i];
    SweepNextEntries(before.entries, st.entries, i, now);
    SweepNextReverse(before, st.reverse, before.entries.keys[..i], k, now);
    assert before.entries.keys[..i + 1] == before.entries.keys[..i] + [k];
  }

  lemma SweepNextEntries(before: OMap<EntryKey, Stored>, after: OMap<EntryKey, Stored>, i: nat, now: int)
    requires i < |before.keys| && forall k :: k in before.keys ==> k in before.at
    requires SweptEntries(before, after, i, now) && after.Valid()
    ensures var k := before.keys[i];
            && k in after.at && after.at[k] == before.at[k]
            && (if before.at[k].expiresAt <= now
                then SweptEntries(before, after.Delete(k), i + 1, now) && |after.Delete(k).keys| == |after.keys| - 1
                else SweptEntries(before, after, i + 1, now))
  {
    hide Without, LiveKeys, OMap.Valid;
    var keys := before.keys;
    var k, done := keys[i], LiveKeys(before.at, keys[..i], now);
    LiveKeysNext(before.at, keys, i, now);
    assert keys[i..] == [k] + keys[i + 1..];
    assert after.keys == done + [k] + keys[i + 1..];
    SplitDistinct(after, done, k, keys[i + 1..]);
    WithoutMiddle(done, k, keys[i + 1..]);
    DeleteValid(after, k);
  }

  lemma LiveKeysNext(entries: map<EntryKey, Stored>, keys: seq<EntryKey>, i: nat, now: int)
    requires i < |keys| && forall k :: k in keys ==> k in entries
    ensures LiveKeys(entries, keys[..i + 1], now) ==
            LiveKeys(entries, keys[..i], now) + if entries[keys[i]].expiresAt > now then [keys[i]] else []
  {
    assert keys[..i + 1][..i] == keys[..i];
  }

  lemma SweepNextReverse(before: State, reverse: map<ReverseKey, string>, seen: seq<EntryKey>, k: EntryKey, now: int)
    requires (forall x :: x in seen ==> x in before.entries.at) && k in before.entries.at
    requires SweptReverse(before, reverse, seen, now)
    ensures SweptReverse(before,
                         if before.entries.at[k].expiresAt <= now then reverse - {before.entries.at[k].reverseKey}
                           else reverse,
                         seen + [k], now)
  {
    forall rk
      ensures Dropped(before, seen + [k], now, rk) <==>
              Dropped(before, seen, now, rk) ||
              (before.entries.at[k].expiresAt <= now && before.entries.at[k].reverseKey == rk)
    {
      if Dropped(before, seen, now, rk) {
        var x :| x in seen && before.entries.at[x].expiresAt <= now && before.entries.at[x].reverseKey == rk;
        assert x in seen + [k];
      }
      if before.entries.at[k].expiresAt <= now && before.entries.at[k].reverseKey == rk {
        assert k in seen + [k];
      }
    }
  }

  lemma SplitDistinct(m: OMap<EntryKey, Stored>, a: seq<EntryKey>, k: EntryKey, b: seq<EntryKey>)
    requires m.Valid() && m.keys == a + [k] + b
    ensures k in m.at && k !in a && k !in b
  {
    assert m.keys[|a|] == k;
    assert forall i :: 0 <= i < |a| ==> m.keys[i] == a[i];
    assert forall i :: 0 <= i < |b| ==> m.keys[|a| + 1 + i] == b[i];
  }
}
