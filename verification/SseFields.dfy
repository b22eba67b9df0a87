/**
 What a stream does to one text field: everything given out for it, in rewritten frames and at flushes,
 is the placeholder substitution of everything that came in for it.
 */
module SseFields {
  import opened Placeholder
  import opened Streaming
  import opened OrderedMap
  import opened SseFrames
  import opened Sse
  import opened Wrappers

  // ---- what came in for a key, and what was given out ----

  function InFields(fields: seq<Field>, k: string): string {
    if fields == [] then ""
    else (if fields[0].key == k then fields[0].text else "") + InFields(fields[1..], k)
  }

  /** The payload says that the stream, or a message of it, is over. */
  predicate Terminal(env: Env, frame: string) {
    var p := Payload(Lines(frame));
    p.Some? && (p.value == "[DONE]" || env.codec.decode(p.value).MessageStop?)
  }

  /** The payload has fields. */
  predicate Carries(env: Env, frame: string) {
    var p := Payload(Lines(frame));
    p.Some? && p.value != "[DONE]" && env.codec.decode(p.value).Fields?
  }

  function FieldsOf(env: Env, frame: string): seq<Field> {
    if Carries(env, frame) then env.codec.decode(Payload(Lines(frame)).value).fields else []
  }

  /** What is done with a frame goes by its payload. */
  lemma EventIs(env: Env, frame: string)
    ensures EventOf(env, frame) ==
            if Terminal(env, frame) then Flush else if Carries(env, frame) then Feed(FieldsOf(env, frame)) else PassOn
  {
    hide Lines, Payload;
  }

  /** What comes in for a key before the next terminal frame. */
  function Ahead(env: Env, frames: seq<Frame>, k: string): string {
    if frames == [] || Terminal(env, frames[0].text) then ""
    else InFields(FieldsOf(env, frames[0].text), k) + Ahead(env, frames[1..], k)
  }

  /** The substitutions of what comes in between later terminal frames. */
  function Later(env: Env, frames: seq<Frame>, k: string): string {
    if frames == [] then ""
    else if Terminal(env, frames[0].text) then
      Subst(env.rights.Values(), Ahead(env, frames[1..], k)) + Later(env, frames[1..], k)
    else Later(env, frames[1..], k)
  }

  /** Every text between later terminal frames may be cut anywhere. */
  predicate LaterSteady(env: Env, frames: seq<Frame>, k: string) {
    if frames == [] then true
    else
      && (Terminal(env, frames[0].text) ==>
            Steady(env.rights, Parse(Ahead(env, frames[1..], k)), MAX_PLACEHOLDER))
      && LaterSteady(env, frames[1..], k)
  }

  predicate TextFields(fields: seq<Field>, k: string) {
    forall i :: 0 <= i < |fields| && fields[i].key == k ==> !fields[i].json
  }

  /** The key is that of a text field throughout. */
  predicate TextKey(env: Env, frames: seq<Frame>, k: string) {
    if frames == [] then true
    else TextFields(FieldsOf(env, frames[0].text), k) && TextKey(env, frames[1..], k)
  }

  function InValues(vs: seq<Value>, k: string): string {
    if vs == [] then ""
    else (if vs[0].key == k then vs[0].text else "") + InValues(vs[1..], k)
  }

  function InEmission(e: Emission, k: string): string {
    match e
    case Raw(_) => ""
    case Rewritten(_, values) => InValues(values, k)
    case Tail(v, _) => if v.key == k then v.text else ""
    case Document(v, _) => if v.key == k then v.text else ""
  }

  function Given(es: seq<Emission>, k: string): string {
    if es == [] then "" else InEmission(es[0], k) + Given(es[1..], k)
  }

  lemma {:induction false} GivenAppend(a: seq<Emission>, b: seq<Emission>, k: string)
    ensures Given(a + b, k) == Given(a, k) + Given(b, k)
  {
    if a == [] {
      assert a + b == b;
    } else {
      assert (a + b)[0] == a[0] && (a + b)[1..] == a[1..] + b;
      GivenAppend(a[1..], b, k);
      Associate(InEmission(a[0], k), Given(a[1..], k), Given(b, k));
    }
  }

  lemma GivenOne(e: Emission, k: string)
    ensures Given([e], k) == InEmission(e, k)
  {
    assert [e][1..] == [];
  }

  /** What the state of a key holds back. */
  function Held(slots: OMap<string, Slot>, k: string): string {
    if k in slots.at then slots.at[k].buffer else ""
  }

  predicate TextSlot(slots: OMap<string, Slot>, k: string) {
    k in slots.at ==> !slots.at[k].json
  }

  /** `back` makes up for a short buffer, as in `Keeps`. */
  predicate Ready(env: Env, slots: OMap<string, Slot>, k: string, rest: string, back: nat) {
    && TextSlot(slots, k) && back + |Held(slots, k)| >= MAX_PLACEHOLDER
    && Steady(env.rights, Parse(Held(slots, k) + rest), back)
  }

  // ---- feeding ----

  lemma PushFieldKeeps(env: Env, st: Session, f: Field, k: string, rest: string, back: nat) returns (next: nat)
    requires f.key == k ==> !f.json
    requires Ready(env, st.slots, k, (if f.key == k then f.text else "") + rest, back)
    ensures var s := PushField(env, st, f);
            s.Went? ==>
              && Ready(env, s.session.slots, k, rest, next)
              && Subst(env.rights.Values(), Held(st.slots, k) + ((if f.key == k then f.text else "") + rest)) ==
                 (if f.key == k then s.text else "") + Subst(env.rights.Values(), Held(s.session.slots, k) + rest)
  {
    hide Drain, Parse, Steady, Rights.Values, Subst;
    if f.key == k {
      var b := Held(st.slots, k);
      assert b + (f.text + rest) == b + f.text + rest;
      next := DrainKeeps(env.rights, b + f.text, st.remaining, rest, back);
    } else {
      next := back;
      assert "" + rest == rest;
    }
  }

  lemma {:induction false} PushFieldsKeep(env: Env, st: Session, fields: seq<Field>, k: string, rest: string, back: nat)
    returns (next: nat)
    requires TextFields(fields, k) && Ready(env, st.slots, k, InFields(fields, k) + rest, back)
    ensures var s := PushFields(env, st, fields);
            s.Pushed? ==>
              && Ready(env, s.session.slots, k, rest, next)
              && Subst(env.rights.Values(), Held(st.slots, k) + (InFields(fields, k) + rest)) ==
                 InValues(s.values, k) + Subst(env.rights.Values(), Held(s.session.slots, k) + rest)
    decreases |fields|
  {
    hide Ready, PushField, Rights.Values, Subst, Held;
    if fields == [] {
      next := back;
      assert "" + rest == rest;
    } else {
      var f, more := fields[0], InFields(fields[1..], k) + rest;
      Associate(if f.key == k then f.text else "", InFields(fields[1..], k), rest);
      next := PushFieldKeeps(env, st, f, k, more, back);
      var s := PushField(env, st, f);
      if s.Went? {
        next := PushFieldsKeep(env, s.session, fields[1..], k, rest, next);
        var t := PushFields(env, s.session, fields[1..]);
        if t.Pushed? {
          var v := Value(f.key, s.text);
          assert ([v] + t.values)[1..] == t.values;
          Associate(if f.key == k then s.text else "", InValues(t.values, k),
                    Subst(env.rights.Values(), Held(t.session.slots, k) + rest));
        }
      }
    }
  }

  // ---- flushing ----

  lemma FlushSlotGives(env: Env, key: string, slot: Slot, remaining: int, k: string)
    ensures var f := FlushSlot(env, key, slot, remaining);
            f.Flushed? ==>
              && (key != k ==> Given(f.out, k) == "")
              && (key == k && !slot.json ==> Given(f.out, k) == Subst(env.rights.Values(), slot.buffer))
  {
    hide Budgeted, Parse, Rights.Values, Subst, UnmaskEach;
    var f := FlushSlot(env, key, slot, remaining);
    if f.Flushed? {
      if f.out != [] {
        GivenOne(f.out[0], k);
      }
      if !slot.json {
        BudgetedText(env.rights, slot.buffer, remaining);
      }
    }
  }

  lemma {:induction false} FlushOthers(env: Env, slots: OMap<string, Slot>, keys: seq<string>, remaining: int,
                                       k: string)
    requires forall j :: j in keys ==> j in slots.at
    requires k !in keys
    ensures var f := FlushSlots(env, slots, keys, remaining); f.Flushed? ==> Given(f.out, k) == ""
    decreases |keys|
  {
    hide FlushSlot;
    if keys != [] {
      var f := FlushSlot(env, keys[0], slots.at[keys[0]], remaining);
      FlushSlotGives(env, keys[0], slots.at[keys[0]], remaining, k);
      if f.Flushed? {
        FlushOthers(env, slots, keys[1..], f.remaining, k);
        GivenBefore(f.out, FlushSlots(env, slots, keys[1..], f.remaining), k);
      }
    }
  }

  lemma GivenBefore(es: seq<Emission>, f: Flushing, k: string)
    ensures f.Flushed? ==> Given(Before(es, f).out, k) == Given(es, k) + Given(f.out, k)
  {
    if f.Flushed? {
      GivenAppend(es, f.out, k);
    }
  }

  lemma {:induction false} FlushGives(env: Env, slots: OMap<string, Slot>, keys: seq<string>, remaining: int, k: string)
    requires forall j :: j in keys ==> j in slots.at
    requires Distinct(keys) && k in keys && !slots.at[k].json
    ensures var f := FlushSlots(env, slots, keys, remaining);
            f.Flushed? ==> Given(f.out, k) == Subst(env.rights.Values(), slots.at[k].buffer)
    decreases |keys|
  {
    hide FlushSlot, Rights.Values, Subst;
    var rest := keys[1..];
    assert Distinct(rest) && keys[0] !in rest by {
      assert forall i :: 1 <= i < |keys| ==> keys[0] != keys[i];
    }
    var f := FlushSlot(env, keys[0], slots.at[keys[0]], remaining);
    FlushSlotGives(env, keys[0], slots.at[keys[0]], remaining, k);
    if f.Flushed? {
      if keys[0] == k {
        FlushOthers(env, slots, rest, f.remaining, k);
      } else {
        FlushGives(env, slots, rest, f.remaining, k);
      }
      GivenBefore(f.out, FlushSlots(env, slots, rest, f.remaining), k);
    }
  }

  lemma BudgetedText(r: Rights, s: string, remaining: int)
    ensures var o := Budgeted(r, Parse(s), remaining); o.Done? ==> o.out == Subst(r.Values(), s)
  {
    hide Budgeted, Parse, Charges, Replace, Rights.Values;
    BudgetedMeans(r, Parse(s), remaining);
  }

  /** A flush gives out, for a key, the substitution of what its state held back, and clears it. */
  lemma FlushAllGives(env: Env, p: Progress, last: seq<Emission>, k: string)
    requires p.session.slots.Valid() && p.failed.None? && TextSlot(p.session.slots, k)
    requires Given(last, k) == ""
    ensures var q := FlushAll(env, p, last);
            q.failed.None? ==>
              && Given(q.out, k) == Given(p.out, k) + Subst(env.rights.Values(), Held(p.session.slots, k))
              && q.session.slots == Empty()
  {
    hide FlushSlots, Rights.Values, Subst;
    var slots := p.session.slots;
    var f := FlushSlots(env, slots, slots.keys, p.session.remaining);
    if f.Flushed? {
      if k in slots.at {
        FlushGives(env, slots, slots.keys, p.session.remaining, k);
      } else {
        FlushOthers(env, slots, slots.keys, p.session.remaining, k);
        SubstNone(env.rights);
      }
      GivenAppend(p.out + f.out, last, k);
      GivenAppend(p.out, f.out, k);
      assert Given(p.out, k) + Given(f.out, k) + "" == Given(p.out, k) + Given(f.out, k);
    }
  }

  lemma SubstNone(r: Rights)
    ensures Subst(r.Values(), "") == ""
  {
  }

  // ---- a run ----

  function Finished(env: Env, p: Progress, frames: seq<Frame>): Progress
    requires p.session.slots.Valid()
  {
    var q := Run(env, p, frames);
    if q.failed.Some? then q else FlushAll(env, q, [])
  }

  lemma FinishedNext(env: Env, p: Progress, frames: seq<Frame>)
    requires p.session.slots.Valid() && frames != []
    ensures Process(env, p, frames[0]).session.slots.Valid()
    ensures Finished(env, p, frames) == Finished(env, Process(env, p, frames[0]), frames[1..])
  {
    hide Process, FlushAll;
    ProcessValid(env, p, frames[0]);
  }

  /** Everything that will be given out for a key, from a session on. */
  ghost predicate Restores(env: Env, p: Progress, frames: seq<Frame>, k: string)
    requires p.session.slots.Valid()
  {
    var q := Finished(env, p, frames);
    q.failed.None? ==>
      Given(q.out, k) ==
      Given(p.out, k) +
      (Subst(env.rights.Values(), Held(p.session.slots, k) + Ahead(env, frames, k)) + Later(env, frames, k))
  }

  lemma RestoresNone(env: Env, p: Progress, k: string)
    requires p.session.slots.Valid() && p.failed.None? && TextSlot(p.session.slots, k)
    ensures Restores(env, p, [], k)
  {
    hide FlushAll, Rights.Values, Subst, Held, TextSlot;
    FlushAllGives(env, p, [], k);
    assert Held(p.session.slots, k) + "" == Held(p.session.slots, k);
    var t := Subst(env.rights.Values(), Held(p.session.slots, k));
    assert t + "" == t;
  }

  lemma {:induction false} RunRestores(env: Env, p: Progress, frames: seq<Frame>, k: string, back: nat)
    requires p.session.slots.Valid() && p.failed.None?
    requires Ready(env, p.session.slots, k, Ahead(env, frames, k), back)
    requires TextKey(env, frames, k) && LaterSteady(env, frames, k)
    ensures Restores(env, p, frames, k)
    decreases |frames|
  {
    hide Process, FlushAll, Finished, Rights.Values, Subst, Ready, Steady, Parse, TextFields, EventOf, Held, PushFields,
         Terminal, Carries, FieldsOf;
    if frames == [] {
      assert TextSlot(p.session.slots, k) by { ReadyText(env, p.session.slots, k, "", back); }
      RestoresNone(env, p, k);
    } else {
      var rest := frames[1..];
      FinishedNext(env, p, frames);
      var q := Process(env, p, frames[0]);
      if q.failed.Some? {
        FinishedFails(env, q, rest);
      } else {
        EventIs(env, frames[0].text);
        match EventOf(env, frames[0].text)
        case PassOn => PassOnRestores(env, p, frames, k, back);
        case Flush => FlushRestores(env, p, frames, k, back);
        case Feed(fields) => FeedRestores(env, p, frames, k, back);
      }
    }
  }

  lemma ReadyText(env: Env, slots: OMap<string, Slot>, k: string, rest: string, back: nat)
    requires Ready(env, slots, k, rest, back)
    ensures TextSlot(slots, k)
  {
  }

  lemma FinishedFails(env: Env, p: Progress, frames: seq<Frame>)
    requires p.session.slots.Valid() && p.failed.Some?
    ensures Finished(env, p, frames).failed.Some?
  {
    hide Process, FlushAll;
    RunFailed(env, p, frames);
  }

  lemma {:induction false} PassOnRestores(env: Env, p: Progress, frames: seq<Frame>, k: string, back: nat)
    requires frames != [] && EventOf(env, frames[0].text).PassOn?
    requires p.session.slots.Valid() && p.failed.None?
    requires Ready(env, p.session.slots, k, Ahead(env, frames, k), back)
    requires TextKey(env, frames, k) && LaterSteady(env, frames, k)
    ensures Restores(env, p, frames, k)
    decreases |frames|, 0
  {
    hide FlushAll, Finished, Rights.Values, Subst, Ready, Steady, Parse, TextFields, EventOf, Held, PushFields,
         Terminal, Carries;
    EventIs(env, frames[0].text);
    FinishedNext(env, p, frames);
    var q := Process(env, p, frames[0]);
    assert "" + Ahead(env, frames[1..], k) == Ahead(env, frames[1..], k);
    RunRestores(env, q, frames[1..], k, back);
    GivenAppend(p.out, [Raw(frames[0])], k);
    GivenOne(Raw(frames[0]), k);
    assert Given(p.out, k) + "" == Given(p.out, k);
  }

  lemma {:induction false} FlushRestores(env: Env, p: Progress, frames: seq<Frame>, k: string, back: nat)
    requires frames != [] && EventOf(env, frames[0].text).Flush?
    requires p.session.slots.Valid() && p.failed.None?
    requires Ready(env, p.session.slots, k, Ahead(env, frames, k), back)
    requires TextKey(env, frames, k) && LaterSteady(env, frames, k)
    requires Process(env, p, frames[0]).failed.None?
    ensures Restores(env, p, frames, k)
    decreases |frames|, 0
  {
    hide FlushAll, Finished, Rights.Values, Subst, Ready, Steady, Parse, TextFields, EventOf, PushFields, Held,
         Terminal, Carries, FieldsOf;
    EventIs(env, frames[0].text);
    FinishedNext(env, p, frames);
    var q, rest := Process(env, p, frames[0]), frames[1..];
    GivenOne(Raw(frames[0]), k);
    ReadyText(env, p.session.slots, k, Ahead(env, frames, k), back);
    FlushAllGives(env, p, [Raw(frames[0])], k);
    ReadyEmpty(env, Ahead(env, rest, k), k);
    RunRestores(env, q, rest, k, MAX_PLACEHOLDER);
    assert Held(p.session.slots, k) + "" == Held(p.session.slots, k);
    assert "" + Ahead(env, rest, k) == Ahead(env, rest, k);
    Associate(Given(p.out, k), Subst(env.rights.Values(), Held(p.session.slots, k)),
              Subst(env.rights.Values(), Ahead(env, rest, k)) + Later(env, rest, k));
  }

  lemma ReadyEmpty(env: Env, rest: string, k: string)
    requires Steady(env.rights, Parse(rest), MAX_PLACEHOLDER)
    ensures Held(Empty(), k) == ""
    ensures Ready(env, Empty(), k, rest, MAX_PLACEHOLDER)
  {
    hide Steady, Parse;
    assert "" + rest == rest;
  }

  lemma {:induction false} FeedRestores(env: Env, p: Progress, frames: seq<Frame>, k: string, back: nat)
    requires frames != [] && EventOf(env, frames[0].text).Feed?
    requires p.session.slots.Valid() && p.failed.None?
    requires Ready(env, p.session.slots, k, Ahead(env, frames, k), back)
    requires TextKey(env, frames, k) && LaterSteady(env, frames, k)
    requires Process(env, p, frames[0]).failed.None?
    ensures Restores(env, p, frames, k)
    decreases |frames|, 0
  {
    hide FlushAll, Finished, Rights.Values, Subst, Ready, Steady, Parse, TextFields, EventOf, PushFields, Held,
         Terminal, Carries, FieldsOf;
    EventIs(env, frames[0].text);
    FinishedNext(env, p, frames);
    var q, rest, fields := Process(env, p, frames[0]), frames[1..], EventOf(env, frames[0].text).fields;
    var next := PushFieldsKeep(env, p.session, fields, k, Ahead(env, rest, k), back);
    var s := PushFields(env, p.session, fields);
    RunRestores(env, q, rest, k, next);
    var e := Rewritten(frames[0], s.values);
    GivenAppend(p.out, [e], k);
    GivenOne(e, k);
    var t := Subst(env.rights.Values(), Held(q.session.slots, k) + Ahead(env, rest, k));
    Associate(Given(p.out, k), InValues(s.values, k), t + Later(env, rest, k));
    Associate(InValues(s.values, k), t, Later(env, rest, k));
  }

  // ---- the result ----

  /** The frames of a whole text, what is left at the end counting as one. */
  function AllFrames(s: string): seq<Frame> {
    var c := Frames(s);
    if c.rest == "" then c.frames else c.frames + [Frame(c.rest, "")]
  }

  lemma TextFinished(env: Env, granted: int, s: string)
    ensures TransformedText(env, granted, s) == Finished(env, Begin(granted), AllFrames(s))
  {
    hide Frames, Process, FlushAll, OMap.Valid;
    assert Begin(granted).session.slots.Valid() by { EmptyValid(); }
    var c := Frames(s);
    RunAppend(env, Begin(granted), c.frames, [Frame(c.rest, "")]);
    RunOne(env, Run(env, Begin(granted), c.frames), Frame(c.rest, ""));
  }

  lemma RunOne(env: Env, p: Progress, f: Frame)
    requires p.session.slots.Valid()
    ensures Run(env, p, [f]) == Process(env, p, f)
  {
    hide Process;
    assert [f][1..] == [];
    ProcessValid(env, p, f);
    RunNone(env, Process(env, p, f));
  }

  /**
   However a stream arrived in chunks, if it ends without an error then what was given out for a text
   field is, flush by flush, the substitution of what came in for it.
   */
  lemma FieldsRestored(env: Env, granted: int, chunks: seq<string>, k: string)
    requires var frames := AllFrames(Join(chunks));
             && TextKey(env, frames, k)
             && Steady(env.rights, Parse(Ahead(env, frames, k)), MAX_PLACEHOLDER)
             && LaterSteady(env, frames, k)
    ensures var t, frames := Transformed(env, granted, chunks), AllFrames(Join(chunks));
            t.failed.None? ==>
              Given(t.out, k) == Subst(env.rights.Values(), Ahead(env, frames, k)) + Later(env, frames, k)
  {
    hide Rights.Values, Subst, Steady, Parse, TextKey, LaterSteady, Ahead, Later, AllFrames, Run, FlushAll, Finished,
         Transformed, TransformedText, Fits, Frames, OMap.Valid;
    var s := Join(chunks);
    var frames := AllFrames(s);
    ChunkingInvisible(env, granted, chunks);
    TextFinished(env, granted, s);
    assert Begin(granted).session.slots.Valid() by { EmptyValid(); }
    ReadyEmpty(env, Ahead(env, frames, k), k);
    RunRestores(env, Begin(granted), frames, k, MAX_PLACEHOLDER);
    RestoresFromStart(env, granted, frames, k);
  }

  lemma RestoresFromStart(env: Env, granted: int, frames: seq<Frame>, k: string)
    requires Begin(granted).session.slots.Valid() && Restores(env, Begin(granted), frames, k)
    ensures var q := Finished(env, Begin(granted), frames);
            q.failed.None? ==>
              Given(q.out, k) == Subst(env.rights.Values(), Ahead(env, frames, k)) + Later(env, frames, k)
  {
    hide Rights.Values, Subst, Ahead, Later, Finished;
    assert "" + Ahead(env, frames, k) == Ahead(env, frames, k);
    var t := Subst(env.rights.Values(), Ahead(env, frames, k)) + Later(env, frames, k);
    assert "" + t == t;
  }
}
