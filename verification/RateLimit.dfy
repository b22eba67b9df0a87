/**
 The in-memory rate limiter: fixed windows that open with a key's first call, in a map of bounded size
 that sweeps expired windows now and then and otherwise gives up its oldest key.
 */
module RateLimit {
  import opened OrderedMap

  const SWEEP_EVERY: nat := 256

  datatype Window = Window(count: nat, resetsAt: int)

  datatype Limiter = Limiter(windows: OMap<string, Window>, newKeysSinceSweep: nat)

  datatype Op = Consume(key: string, limit: int, windowMs: int, now: int) | Reset(key: string)

  // ---- one operation ----

  function Sweep(m: OMap<string, Window>, keys: seq<string>, now: int): OMap<string, Window>
    decreases |keys|
  {
    if keys == [] then m
    else Sweep(if keys[0] in m.at && m.at[keys[0]].resetsAt <= now then m.Delete(keys[0]) else m, keys[1..], now)
  }

  function Evict(m: OMap<string, Window>, maxKeys: nat): OMap<string, Window>
    requires m.Valid() && maxKeys >= 1
    decreases |m.keys|
  {
    if |m.keys| < maxKeys then m
    else
      DeleteValid(m, m.keys[0]);
      DeleteOldest(m);
      Evict(m.Delete(m.keys[0]), maxKeys)
  }

  function MakeCapacity(l: Limiter, now: int, maxKeys: nat): Limiter
    requires l.windows.Valid() && maxKeys >= 1
  {
    var sweeping := l.newKeysSinceSweep + 1 >= SWEEP_EVERY;
    var swept := if sweeping then Sweep(l.windows, l.windows.keys, now) else l.windows;
    SweepDrops(l.windows, l.windows.keys, now);
    Limiter(Evict(swept, maxKeys), if sweeping then 0 else l.newKeysSinceSweep + 1)
  }

  function Next(l: Limiter, op: Op, maxKeys: nat): Limiter
    requires l.windows.Valid() && maxKeys >= 1
  {
    match op
    case Reset(key) => l.(windows := l.windows.Delete(key))
    case Consume(key, limit, windowMs, now) =>
      if Live(l, key, now) then
        var w := l.windows.at[key];
        l.(windows := l.windows.Set(key, Window(w.count + 1, w.resetsAt)))
      else
        var room := if key in l.windows.at then l else MakeCapacity(l, now, maxKeys);
        room.(windows := room.windows.Set(key, Window(1, now + windowMs)))
  }

  predicate Live(l: Limiter, key: string, now: int) {
    key in l.windows.at && l.windows.at[key].resetsAt > now
  }

  predicate Allowed(l: Limiter, op: Op)
    requires op.Consume?
  {
    Live(l, op.key, op.now) ==> l.windows.at[op.key].count + 1 <= op.limit
  }

  // ---- what an operation leaves alone ----

  /** Entries may go; those that stay are as they were. */
  ghost predicate Within(small: OMap<string, Window>, big: OMap<string, Window>) {
    && small.Valid() && |small.keys| <= |big.keys|
    && forall k :: k in small.at ==> k in big.at && small.at[k] == big.at[k]
  }

  lemma {:induction false} SweepDrops(m: OMap<string, Window>, keys: seq<string>, now: int)
    requires m.Valid()
    ensures Within(Sweep(m, keys, now), m)
    ensures forall k :: k in keys && k in Sweep(m, keys, now).at ==> Sweep(m, keys, now).at[k].resetsAt > now
    ensures forall k :: k in m.at && m.at[k].resetsAt > now ==> k in Sweep(m, keys, now).at
    decreases |keys|
  {
    hide OMap.Valid;
    if keys != [] {
      var k := keys[0];
      var d := m.Delete(k);
      if k in m.at && m.at[k].resetsAt <= now {
        DeleteValid(m, k);
        KeysCount(m);
        KeysCount(d);
        DeleteOne(m, k);
        SweepDrops(d, keys[1..], now);
      } else {
        SweepDrops(m, keys[1..], now);
      }
    }
  }

  lemma {:induction false} EvictDrops(m: OMap<string, Window>, maxKeys: nat)
    requires m.Valid() && maxKeys >= 1
    ensures Within(Evict(m, maxKeys), m) && |Evict(m, maxKeys).keys| < maxKeys
    ensures |m.keys| < maxKeys ==> Evict(m, maxKeys) == m
    ensures Evict(m, maxKeys).keys == m.keys[if |m.keys| < maxKeys then 0 else |m.keys| - maxKeys + 1..]
    decreases |m.keys|
  {
    if |m.keys| >= maxKeys {
      DeleteValid(m, m.keys[0]);
      DeleteOldest(m);
      EvictDrops(m.Delete(m.keys[0]), maxKeys);
    }
  }

  lemma AllListed(m: OMap<string, Window>)
    requires m.Valid()
    ensures forall k :: k in m.keys <==> k in m.at
  {
  }

  ghost predicate Bounded(l: Limiter, maxKeys: nat) {
    l.windows.Valid() && |l.windows.keys| <= maxKeys
  }

  /** The map stays within its bound, and an operation touches no window but that of its key. */
  lemma NextKeeps(l: Limiter, op: Op, maxKeys: nat)
    requires l.windows.Valid() && maxKeys >= 1
    ensures Next(l, op, maxKeys).windows.Valid()
    ensures Bounded(l, maxKeys) ==> Bounded(Next(l, op, maxKeys), maxKeys)
    ensures forall k :: k in Next(l, op, maxKeys).windows.at && k != op.key ==>
              k in l.windows.at && Next(l, op, maxKeys).windows.at[k] == l.windows.at[k]
  {
    hide OMap.Valid, Sweep, Evict, Without;
    var m, key := l.windows, op.key;
    match op
    case Reset(_) =>
      ResetShrinks(m, key);
    case Consume(_, limit, windowMs, now) =>
      if Live(l, key, now) {
        SetValid(m, key, Window(m.at[key].count + 1, m.at[key].resetsAt));
      } else if key in m.at {
        SetValid(m, key, Window(1, now + windowMs));
      } else {
        var swept := if l.newKeysSinceSweep + 1 >= SWEEP_EVERY then Sweep(m, m.keys, now) else m;
        SweepDrops(m, m.keys, now);
        EvictDrops(swept, maxKeys);
        SetValid(Evict(swept, maxKeys), key, Window(1, now + windowMs));
      }
  }

  lemma ResetShrinks(m: OMap<string, Window>, key: string)
    requires m.Valid()
    ensures m.Delete(key).Valid() && |m.Delete(key).keys| <= |m.keys|
  {
    DeleteValid(m, key);
    KeysCount(m);
    KeysCount(m.Delete(key));
    if key in m.at {
      DeleteOne(m, key);
    } else {
      assert m.Delete(key).at == m.at;
    }
  }

  // ---- the object ----

  class MemoryRateLimiter {
    var windows: OMap<string, Window>
    var newKeysSinceSweep: nat
    const maxKeys: nat

    constructor (maxKeys: nat)
      requires maxKeys >= 1
      ensures Valid() && Contents() == Limiter(Empty(), 0) && this.maxKeys == maxKeys
    {
      this.maxKeys := maxKeys;
      windows, newKeysSinceSweep := Empty(), 0;
    }

    function Contents(): Limiter
      reads this
    {
      Limiter(windows, newKeysSinceSweep)
    }

    ghost predicate Valid()
      reads this
    {
      maxKeys >= 1 && Bounded(Contents(), maxKeys)
    }

    method Consume(key: string, limit: int, windowMs: int, now: int) returns (r: bool)
      requires Valid()
      modifies this
      ensures Valid()
      ensures Contents() == Next(old(Contents()), Op.Consume(key, limit, windowMs, now), maxKeys)
      ensures r == Allowed(old(Contents()), Op.Consume(key, limit, windowMs, now))
      ensures var live := key in old(windows.at) && old(windows.at)[key].resetsAt > now;
              && (r <==> (live ==> old(windows.at)[key].count + 1 <= limit))
              && key in windows.at
              && windows.at[key] == (if live then Window(old(windows.at)[key].count + 1, old(windows.at)[key].resetsAt)
                                     else Window(1, now + windowMs))
      ensures key in old(windows.at) ==>
                windows.keys == old(windows).keys && newKeysSinceSweep == old(newKeysSinceSweep)
    {
      hide OMap.Valid, Sweep, Evict, Without;
      NextKeeps(Contents(), Op.Consume(key, limit, windowMs, now), maxKeys);
      NextOf(Contents(), Op.Consume(key, limit, windowMs, now), key, maxKeys);
      if key !in windows.at || windows.at[key].resetsAt <= now {
        if key !in windows.at {
          RoomMade(now);
        }
        windows := windows.Set(key, Window(1, now + windowMs));
        return true;
      }
      var current := windows.at[key];
      windows := windows.Set(key, current.(count := current.count + 1));
      r := current.count + 1 <= limit;
    }

    method Reset(key: string)
      requires Valid()
      modifies this
      ensures Valid() && Contents() == Next(old(Contents()), Op.Reset(key), maxKeys)
    {
      NextKeeps(Contents(), Op.Reset(key), maxKeys);
      windows := windows.Delete(key);
    }

    method RoomMade(now: int)
      requires maxKeys >= 1 && windows.Valid()
      modifies this
      ensures Contents() == MakeCapacity(old(Contents()), now, maxKeys)
      ensures |windows.keys| < maxKeys
      ensures newKeysSinceSweep == if old(newKeysSinceSweep) + 1 >= 256 then 0 else old(newKeysSinceSweep) + 1
      ensures newKeysSinceSweep == 0 ==> forall k :: k in windows.at ==> windows.at[k].resetsAt > now
      ensures newKeysSinceSweep > 0 && |old(windows).keys| < maxKeys ==> windows == old(windows)
    {
      hide OMap.Valid, Sweep, Evict;
      SweepDrops(windows, windows.keys, now);
      newKeysSinceSweep := newKeysSinceSweep + 1;
      if newKeysSinceSweep >= SWEEP_EVERY {
        newKeysSinceSweep := 0;
        SweepExpired(now);
      }
      EvictDrops(windows, maxKeys);
      EvictOldest();
    }

    method SweepExpired(now: int)
      requires windows.Valid()
      modifies this`windows
      ensures windows == Sweep(old(windows), old(windows).keys, now)
      ensures forall k :: k in windows.at <==> k in old(windows).at && old(windows).at[k].resetsAt > now
      ensures forall k :: k in windows.at ==> windows.at[k] == old(windows).at[k]
    {
      hide OMap.Valid, Without;
      SweepDrops(windows, windows.keys, now);
      AllListed(windows);
      var keys, i := windows.keys, 0;
      assert keys[0..] == keys;
      while i < |keys|
        invariant i <= |keys|
        invariant Sweep(old(windows), keys, now) == Sweep(windows, keys[i..], now)
      {
        assert keys[i..][1..] == keys[i + 1..];
        if keys[i] in windows.at && windows.at[keys[i]].resetsAt <= now {
          windows := windows.Delete(keys[i]);
        }
        i := i + 1;
      }
      assert keys[|keys|..] == [];
    }

    method EvictOldest()
      requires windows.Valid() && maxKeys >= 1
      modifies this`windows
      ensures windows == Evict(old(windows), maxKeys)
      ensures var n := |old(windows).keys|;
              windows.keys == old(windows).keys[if n < maxKeys then 0 else n - maxKeys + 1..]
      ensures forall k :: k in windows.at ==> k in old(windows).at && windows.at[k] == old(windows).at[k]
    {
      EvictDrops(windows, maxKeys);
      hide OMap.Valid;
      while |windows.keys| >= maxKeys
        invariant windows.Valid() && Evict(old(windows), maxKeys) == Evict(windows, maxKeys)
        decreases |windows.keys|
      {
        DeleteValid(windows, windows.keys[0]);
        DeleteOldest(windows);
        windows := windows.Delete(windows.keys[0]);
      }
    }
  }

  // ---- whole runs ----

  /** Calls come in the order of their times, none before `since`. */
  predicate Timed(ops: seq<Op>, since: int) {
    if ops == [] then true
    else if ops[0].Consume? then ops[0].now >= since && Timed(ops[1..], ops[0].now)
    else Timed(ops[1..], since)
  }

  /** All calls for the key have one limit and one window. */
  predicate Uniform(ops: seq<Op>, key: string, limit: int, windowMs: int) {
    forall op :: op in ops && op.Consume? && op.key == key ==> op.limit == limit && op.windowMs == windowMs
  }

  /** The key's window is never taken away before it has expired. */
  predicate Undisturbed(l: Limiter, ops: seq<Op>, key: string, maxKeys: nat)
    requires l.windows.Valid() && maxKeys >= 1
    decreases |ops|
  {
    if ops == [] then true
    else
      NextKeeps(l, ops[0], maxKeys);
      var n := Next(l, ops[0], maxKeys);
      && (key in l.windows.at && key !in n.windows.at ==> ops[0].Consume? && l.windows.at[key].resetsAt <= ops[0].now)
      && Undisturbed(n, ops[1..], key, maxKeys)
  }

  /** How many calls for the key, from `from` on and before `to`, are let through. */
  function Admitted(l: Limiter, ops: seq<Op>, key: string, maxKeys: nat, from: int, to: int): nat
    requires l.windows.Valid() && maxKeys >= 1
    decreases |ops|
  {
    if ops == [] then 0
    else
      NextKeeps(l, ops[0], maxKeys);
      (if Counts(l, ops[0], key, from, to) then 1 else 0)
      + Admitted(Next(l, ops[0], maxKeys), ops[1..], key, maxKeys, from, to)
  }

  predicate Counts(l: Limiter, op: Op, key: string, from: int, to: int) {
    op.Consume? && op.key == key && from <= op.now < to && Allowed(l, op)
  }

  function AtLeastOne(limit: int): (n: nat)
    ensures n >= 1 && n >= limit
  {
    if limit >= 1 then limit else 1
  }

  lemma UniformRest(ops: seq<Op>, key: string, limit: int, windowMs: int)
    requires ops != [] && Uniform(ops, key, limit, windowMs)
    ensures Uniform(ops[1..], key, limit, windowMs)
    ensures ops[0].Consume? && ops[0].key == key ==> ops[0].limit == limit && ops[0].windowMs == windowMs
  {
    assert ops[0] in ops;
  }

  lemma {:induction false} NoneAfter(l: Limiter, ops: seq<Op>, key: string, maxKeys: nat, from: int, to: int,
                                     since: int)
    requires l.windows.Valid() && maxKeys >= 1 && Timed(ops, since) && since >= to
    ensures Admitted(l, ops, key, maxKeys, from, to) == 0
    decreases |ops|
  {
    hide Next, OMap.Valid;
    if ops != [] {
      NextKeeps(l, ops[0], maxKeys);
      NoneAfter(Next(l, ops[0], maxKeys), ops[1..], key, maxKeys, from, to,
                if ops[0].Consume? then ops[0].now else since);
    }
  }

  /** What one operation does to one key. */
  lemma NextOf(l: Limiter, op: Op, key: string, maxKeys: nat)
    requires l.windows.Valid() && maxKeys >= 1
    ensures var n := Next(l, op, maxKeys);
            && n.windows.Valid()
            && (op.key == key && op.Reset? ==> key !in n.windows.at)
            && (op.key != key && key in n.windows.at ==> key in l.windows.at && n.windows.at[key] == l.windows.at[key])
            && (op.key == key && op.Consume? ==>
                  key in n.windows.at
                  && n.windows.at[key] ==
                     if Live(l, key, op.now) then Window(l.windows.at[key].count + 1, l.windows.at[key].resetsAt)
                     else Window(1, op.now + op.windowMs))
  {
    hide OMap.Valid, MakeCapacity, Without;
    NextKeeps(l, op, maxKeys);
  }

  /** A window that outlasts the interval lets through no more than is left of the limit. */
  lemma {:induction false} RestOfWindow(l: Limiter, ops: seq<Op>, key: string, maxKeys: nat, from: int, to: int,
                                        since: int, limit: int, windowMs: int)
    requires l.windows.Valid() && maxKeys >= 1 && Timed(ops, since)
    requires Uniform(ops, key, limit, windowMs) && Undisturbed(l, ops, key, maxKeys)
    requires key in l.windows.at && l.windows.at[key].count >= 1 && l.windows.at[key].resetsAt >= to
    ensures var left := AtLeastOne(limit) - l.windows.at[key].count;
            Admitted(l, ops, key, maxKeys, from, to) <= if left > 0 then left else 0
    decreases |ops|
  {
    hide Next, OMap.Valid, Uniform;
    if ops != [] {
      var op, n := ops[0], Next(l, ops[0], maxKeys);
      NextOf(l, op, key, maxKeys);
      UniformRest(ops, key, limit, windowMs);
      if op.Consume? && op.now >= to {
        NoneAfter(n, ops[1..], key, maxKeys, from, to, op.now);
      } else {
        RestOfWindow(n, ops[1..], key, maxKeys, from, to, if op.Consume? then op.now else since, limit, windowMs);
      }
    }
  }

  /**
   From the call that opens it on, a window that is neither evicted live nor reset lets that call through
   and at most as many as the limit: it keeps to the limit if and only if the limit allows one.
   */
  lemma OneWindow(l: Limiter, ops: seq<Op>, key: string, maxKeys: nat, limit: int, windowMs: int)
    requires l.windows.Valid() && maxKeys >= 1 && ops != [] && windowMs >= 1
    requires ops[0].Consume? && ops[0].key == key && !Live(l, key, ops[0].now) && Timed(ops, ops[0].now)
    requires Uniform(ops, key, limit, windowMs) && Undisturbed(l, ops, key, maxKeys)
    ensures var admitted := Admitted(l, ops, key, maxKeys, ops[0].now, ops[0].now + windowMs);
            1 <= admitted <= AtLeastOne(limit) && (admitted <= limit <==> limit >= 1)
  {
    hide Next, OMap.Valid, Uniform;
    var from := ops[0].now;
    NextOf(l, ops[0], key, maxKeys);
    UniformRest(ops, key, limit, windowMs);
    RestOfWindow(Next(l, ops[0], maxKeys), ops[1..], key, maxKeys, from, from + windowMs, from, limit, windowMs);
  }

  /** Once the interval has begun: what is left of a window opened before it, and one more window. */
  lemma {:induction false} FromStartOn(l: Limiter, ops: seq<Op>, key: string, maxKeys: nat, from: int, since: int,
                                       limit: int, windowMs: int)
    requires l.windows.Valid() && maxKeys >= 1 && Timed(ops, since) && since >= from
    requires Uniform(ops, key, limit, windowMs) && Undisturbed(l, ops, key, maxKeys)
    requires key in l.windows.at ==> l.windows.at[key].count >= 1
    ensures var left := if key in l.windows.at then AtLeastOne(limit) - l.windows.at[key].count else 0;
            Admitted(l, ops, key, maxKeys, from, from + windowMs) <= AtLeastOne(limit) + if left > 0 then left else 0
    decreases |ops|
  {
    hide Next, OMap.Valid, Uniform;
    if ops != [] {
      var op, n := ops[0], Next(l, ops[0], maxKeys);
      var at := if op.Consume? then op.now else since;
      NextOf(l, op, key, maxKeys);
      UniformRest(ops, key, limit, windowMs);
      if op.Consume? && op.key == key && !Live(l, key, op.now) {
        RestOfWindow(n, ops[1..], key, maxKeys, from, from + windowMs, at, limit, windowMs);
      } else {
        FromStartOn(n, ops[1..], key, maxKeys, from, at, limit, windowMs);
      }
    }
  }

  lemma {:induction false} TimedFrom(ops: seq<Op>, since: int, from: int)
    requires ops != [] && Timed(ops, since) && ops[0].Consume? && ops[0].now >= from
    ensures Timed(ops, from)
  {
  }

  lemma {:induction false} BeforeStart(l: Limiter, ops: seq<Op>, key: string, maxKeys: nat, from: int, since: int,
                                       limit: int, windowMs: int)
    requires l.windows.Valid() && maxKeys >= 1 && Timed(ops, since)
    requires Uniform(ops, key, limit, windowMs) && Undisturbed(l, ops, key, maxKeys)
    requires key in l.windows.at ==> l.windows.at[key].count >= 1
    ensures Admitted(l, ops, key, maxKeys, from, from + windowMs) <= 2 * AtLeastOne(limit) - 1
    decreases |ops|
  {
    hide Next, OMap.Valid, Uniform;
    if ops != [] {
      var op, n := ops[0], Next(l, ops[0], maxKeys);
      NextOf(l, op, key, maxKeys);
      UniformRest(ops, key, limit, windowMs);
      if op.Consume? && op.now >= from {
        TimedFrom(ops, since, from);
        FromStartOn(l, ops, key, maxKeys, from, from, limit, windowMs);
      } else {
        BeforeStart(n, ops[1..], key, maxKeys, from, if op.Consume? then op.now else since, limit, windowMs);
      }
    }
  }

  /**
   From an empty limiter on, while a key's live window is never evicted or reset, any half-open interval
   as long as the window lets at most `2 * limit - 1` of its calls through, and one if the limit is not
   even 1.
   */
  lemma TwoWindowsAtMost(ops: seq<Op>, key: string, maxKeys: nat, from: int, since: int, limit: int, windowMs: int)
    requires maxKeys >= 1 && Timed(ops, since) && Uniform(ops, key, limit, windowMs)
    requires Undisturbed(Limiter(Empty(), 0), ops, key, maxKeys)
    ensures Admitted(Limiter(Empty(), 0), ops, key, maxKeys, from, from + windowMs) <= 2 * AtLeastOne(limit) - 1
  {
    BeforeStart(Limiter(Empty(), 0), ops, key, maxKeys, from, since, limit, windowMs);
  }

  // ---- the bound is met ----

  function Burst(op: Op, n: nat): seq<Op> {
    if n == 0 then [] else [op] + Burst(op, n - 1)
  }

  /** Calls at one time within a window, as many as the limit still allows. */
  lemma {:induction false} BurstAdmitted(l: Limiter, op: Op, n: nat, rest: seq<Op>, maxKeys: nat, from: int, to: int)
    returns (m: Limiter)
    requires l.windows.Valid() && maxKeys >= 1
    requires op.Consume? && Live(l, op.key, op.now) && l.windows.at[op.key].count + n <= op.limit
    requires from <= op.now < to
    ensures m.windows.Valid() && op.key in m.windows.at
    ensures m.windows.at[op.key] == Window(l.windows.at[op.key].count + n, l.windows.at[op.key].resetsAt)
    ensures Admitted(l, Burst(op, n) + rest, op.key, maxKeys, from, to) ==
            n + Admitted(m, rest, op.key, maxKeys, from, to)
    ensures Undisturbed(l, Burst(op, n) + rest, op.key, maxKeys) == Undisturbed(m, rest, op.key, maxKeys)
    ensures Timed(Burst(op, n) + rest, op.now) == Timed(rest, op.now)
    decreases n
  {
    hide Next, OMap.Valid;
    if n == 0 {
      m := l;
      assert Burst(op, 0) + rest == rest;
    } else {
      var all := Burst(op, n) + rest;
      assert all[0] == op && all[1..] == Burst(op, n - 1) + rest;
      NextOf(l, op, op.key, maxKeys);
      m := BurstAdmitted(Next(l, op, maxKeys), op, n - 1, rest, maxKeys, from, to);
    }
  }

  /** A call that opens a window. */
  lemma OpensWindow(l: Limiter, op: Op, rest: seq<Op>, maxKeys: nat, from: int, to: int)
    requires l.windows.Valid() && maxKeys >= 1 && op.Consume? && !Live(l, op.key, op.now)
    ensures var n := Next(l, op, maxKeys);
            && n.windows.Valid() && op.key in n.windows.at
            && n.windows.at[op.key] == Window(1, op.now + op.windowMs)
            && Admitted(l, [op] + rest, op.key, maxKeys, from, to) ==
               (if from <= op.now < to then 1 else 0) + Admitted(n, rest, op.key, maxKeys, from, to)
            && Undisturbed(l, [op] + rest, op.key, maxKeys) == Undisturbed(n, rest, op.key, maxKeys)
            && (Timed([op] + rest, op.now) == Timed(rest, op.now))
  {
    hide Next, OMap.Valid;
    assert ([op] + rest)[1..] == rest;
    NextOf(l, op, op.key, maxKeys);
  }

  /** The calls of the worst case: late in one window, and as soon as the next one may open. */
  function WorstCase(key: string, limit: nat, windowMs: int): seq<Op>
    requires limit >= 1
  {
    var late, next := Consume(key, limit, windowMs, windowMs - 1), Consume(key, limit, windowMs, windowMs);
    [Consume(key, limit, windowMs, 0)] + (Burst(late, limit - 1) + ([next] + (Burst(next, limit - 1) + [])))
  }

  /** That many calls can get through: the bound cannot be lowered. */
  lemma BoundIsMet(key: string, limit: nat, windowMs: int, maxKeys: nat)
    requires limit >= 1 && windowMs >= 2 && maxKeys >= 1
    ensures var ops := WorstCase(key, limit, windowMs);
            && Timed(ops, 0) && Uniform(ops, key, limit, windowMs)
            && Undisturbed(Limiter(Empty(), 0), ops, key, maxKeys)
            && Admitted(Limiter(Empty(), 0), ops, key, maxKeys, 1, 1 + windowMs) == 2 * limit - 1
  {
    hide Next, OMap.Valid, Uniform, Timed, Undisturbed, Admitted;
    var l := Limiter(Empty(), 0);
    assert l.windows.Valid() by { EmptyValid(); }
    var first, late, next := Consume(key, limit, windowMs, 0), Consume(key, limit, windowMs, windowMs - 1),
                             Consume(key, limit, windowMs, windowMs);
    var d := Burst(next, limit - 1) + [];
    var c := [next] + d;
    var b := Burst(late, limit - 1) + c;
    OpensWindow(l, first, b, maxKeys, 1, 1 + windowMs);
    var l1 := Next(l, first, maxKeys);
    var l2 := BurstAdmitted(l1, late, limit - 1, c, maxKeys, 1, 1 + windowMs);
    OpensWindow(l2, next, d, maxKeys, 1, 1 + windowMs);
    var l3 := Next(l2, next, maxKeys);
    var l4 := BurstAdmitted(l3, next, limit - 1, [], maxKeys, 1, 1 + windowMs);
    NothingMore(l4, key, maxKeys, 1, 1 + windowMs);
    TimedNext(c, windowMs - 1, next, d);
    TimedEarlier(b, windowMs - 1, 0);
    WorstUniform(key, limit, windowMs);
  }

  /** With a limit that allows nothing the first call of a window passes still, and only that one. */
  lemma FirstCallPasses(key: string, limit: int, windowMs: int, maxKeys: nat, now: int)
    requires limit <= 0 && windowMs >= 1 && maxKeys >= 1
    ensures var l, op := Limiter(Empty(), 0), Consume(key, limit, windowMs, now);
            && l.windows.Valid() && Allowed(l, op) && !Allowed(Next(l, op, maxKeys), op)
            && Admitted(l, [op, op], key, maxKeys, now, now + windowMs) == 1
  {
    hide Next, OMap.Valid;
    var l, op := Limiter(Empty(), 0), Consume(key, limit, windowMs, now);
    assert l.windows.Valid() by { EmptyValid(); }
    OpensWindow(l, op, [op], maxKeys, now, now + windowMs);
    assert [op] + [op] == [op, op] && [op][1..] == [];
    var n := Next(l, op, maxKeys);
    NextOf(n, op, key, maxKeys);
    assert Admitted(Next(n, op, maxKeys), [], key, maxKeys, now, now + windowMs) == 0;
  }

  lemma EmptyValid()
    ensures Empty<string, Window>().Valid()
  {
  }

  lemma NothingMore(l: Limiter, key: string, maxKeys: nat, from: int, to: int)
    requires l.windows.Valid() && maxKeys >= 1
    ensures Admitted(l, [], key, maxKeys, from, to) == 0 && Undisturbed(l, [], key, maxKeys)
    ensures forall since :: Timed([], since)
  {
  }

  lemma {:induction false} TimedEarlier(ops: seq<Op>, since: int, earlier: int)
    requires Timed(ops, since) && earlier <= since
    ensures Timed(ops, earlier)
  {
    if ops != [] && !ops[0].Consume? {
      TimedEarlier(ops[1..], since, earlier);
    }
  }

  lemma TimedNext(c: seq<Op>, since: int, op: Op, d: seq<Op>)
    requires op.Consume? && since <= op.now && c == [op] + d && Timed(d, op.now)
    ensures Timed(c, since)
  {
    assert c[1..] == d;
  }

  lemma {:induction false} BurstSame(op: Op, n: nat)
    ensures forall o :: o in Burst(op, n) ==> o == op
  {
    if n > 0 {
      BurstSame(op, n - 1);
    }
  }

  lemma WorstUniform(key: string, limit: nat, windowMs: int)
    requires limit >= 1
    ensures Uniform(WorstCase(key, limit, windowMs), key, limit, windowMs)
  {
    BurstSame(Consume(key, limit, windowMs, windowMs - 1), limit - 1);
    BurstSame(Consume(key, limit, windowMs, windowMs), limit - 1);
  }
}
