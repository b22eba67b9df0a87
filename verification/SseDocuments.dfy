/**
 What a stream does to a JSON field: its pieces are collected, and at a flush the document they make comes out
 with every string in it restored. And what a stream refuses: states and collected text beyond the limits.
 */
module SseDocuments {
  import opened Streaming
  import opened OrderedMap
  import opened SseFrames
  import opened Sse
  import opened SseFields

  /** A document with the strings in it substituted; nothing for one that is empty or not JSON. */
  function Rebuilt(env: Env, s: string): string {
    if s == "" then ""
    else
      match env.codec.strings(s)
      case None => ""
      case Some(texts) => env.codec.rebuild(s, Substituted(env.rights, texts))
  }

  /**
   A collected document comes out as one event of its shape and costs what its strings cost; what is not JSON fails,
   and so does what the budget does not cover.
   */
  lemma DocumentFlushed(env: Env, k: string, slot: Slot, remaining: int)
    requires slot.json && slot.buffer != ""
    ensures FlushSlot(env, k, slot, remaining) ==
            match env.codec.strings(slot.buffer)
            case None => FlushFailed(UPSTREAM)
            case Some(texts) =>
              if Costs(env.rights, texts) == 0 || Costs(env.rights, texts) <= remaining
              then Flushed(remaining - Costs(env.rights, texts),
                           [Document(Value(k, Rebuilt(env, slot.buffer)), slot.shape)])
              else FlushFailed(LIMIT_EXCEEDED)
  {
    hide UnmaskEach, Costs, Substituted;
    var texts := env.codec.strings(slot.buffer);
    if texts.Some? {
      UnmaskEachMeans(env.rights, texts.value, remaining);
    }
  }

  // ---- collecting ----

  predicate JsonFields(fields: seq<Field>, k: string) {
    forall i :: 0 <= i < |fields| && fields[i].key == k ==> fields[i].json
  }

  /** The key is that of a JSON field throughout. */
  predicate JsonKey(env: Env, frames: seq<Frame>, k: string) {
    if frames == [] then true
    else JsonFields(FieldsOf(env, frames[0].text), k) && JsonKey(env, frames[1..], k)
  }

  predicate JsonSlot(slots: OMap<string, Slot>, k: string) {
    k in slots.at ==> slots.at[k].json
  }

  lemma PushFieldCollects(env: Env, st: Session, f: Field, k: string)
    requires JsonSlot(st.slots, k) && (f.key == k ==> f.json)
    ensures var s := PushField(env, st, f);
            s.Went? ==>
              && JsonSlot(s.session.slots, k) && (f.key == k ==> s.text == "")
              && SseFields.Held(s.session.slots, k) ==
                 SseFields.Held(st.slots, k) + (if f.key == k then f.text else "")
  {
    hide Drain;
    assert SseFields.Held(st.slots, k) + "" == SseFields.Held(st.slots, k);
  }

  lemma {:induction false} PushFieldsCollect(env: Env, st: Session, fields: seq<Field>, k: string)
    requires JsonSlot(st.slots, k) && JsonFields(fields, k)
    ensures var s := PushFields(env, st, fields);
            s.Pushed? ==>
              && JsonSlot(s.session.slots, k) && InValues(s.values, k) == ""
              && SseFields.Held(s.session.slots, k) == SseFields.Held(st.slots, k) + InFields(fields, k)
    decreases |fields|
  {
    hide PushField, SseFields.Held, JsonSlot;
    if fields == [] {
      assert SseFields.Held(st.slots, k) + "" == SseFields.Held(st.slots, k);
    } else {
      var f := fields[0];
      PushFieldCollects(env, st, f, k);
      var s := PushField(env, st, f);
      if s.Went? {
        PushFieldsCollect(env, s.session, fields[1..], k);
        var t := PushFields(env, s.session, fields[1..]);
        Associate(SseFields.Held(st.slots, k), if f.key == k then f.text else "", InFields(fields[1..], k));
        if t.Pushed? {
          assert ([Value(f.key, s.text)] + t.values)[1..] == t.values;
        }
      }
    }
  }

  // ---- flushing ----

  lemma FlushSlotRebuilds(env: Env, k: string, slot: Slot, remaining: int)
    requires slot.json
    ensures var f := FlushSlot(env, k, slot, remaining); f.Flushed? ==> Given(f.out, k) == Rebuilt(env, slot.buffer)
  {
    hide UnmaskEach, Costs, Rebuilt, FlushDocument;
    if slot.buffer == "" {
      EmptyDocument(env, k, slot, remaining);
    } else {
      DocumentFlushed(env, k, slot, remaining);
      GivenOne(Document(Value(k, Rebuilt(env, slot.buffer)), slot.shape), k);
    }
  }

  lemma EmptyDocument(env: Env, k: string, slot: Slot, remaining: int)
    requires slot.buffer == ""
    ensures FlushDocument(env, k, slot, remaining) == Flushed(remaining, []) && Rebuilt(env, "") == ""
  {
  }

  lemma {:induction false} FlushRebuilds(env: Env, slots: OMap<string, Slot>, keys: seq<string>, remaining: int,
                                         k: string)
    requires forall j :: j in keys ==> j in slots.at
    requires Distinct(keys) && k in keys && slots.at[k].json
    ensures var f := FlushSlots(env, slots, keys, remaining);
            f.Flushed? ==> Given(f.out, k) == Rebuilt(env, slots.at[k].buffer)
    decreases |keys|
  {
    hide FlushSlot, Rebuilt;
    var rest := keys[1..];
    assert Distinct(rest) && keys[0] !in rest by {
      assert forall i :: 1 <= i < |keys| ==> keys[0] != keys[i];
    }
    var f := FlushSlot(env, keys[0], slots.at[keys[0]], remaining);
    if f.Flushed? {
      if keys[0] == k {
        FlushSlotRebuilds(env, k, slots.at[k], remaining);
        FlushOthers(env, slots, rest, f.remaining, k);
      } else {
        FlushSlotGives(env, keys[0], slots.at[keys[0]], remaining, k);
        FlushRebuilds(env, slots, rest, f.remaining, k);
      }
      GivenBefore(f.out, FlushSlots(env, slots, rest, f.remaining), k);
    }
  }

  lemma FlushAllRebuilds(env: Env, p: Progress, last: seq<Emission>, k: string)
    requires p.session.slots.Valid() && p.failed.None? && JsonSlot(p.session.slots, k) && Given(last, k) == ""
    ensures var q := FlushAll(env, p, last);
            q.failed.None? ==>
              && Given(q.out, k) == Given(p.out, k) + Rebuilt(env, SseFields.Held(p.session.slots, k))
              && q.session.slots == Empty()
  {
    hide FlushSlots, Rebuilt;
    var slots := p.session.slots;
    var f := FlushSlots(env, slots, slots.keys, p.session.remaining);
    if f.Flushed? {
      if k in slots.at {
        FlushRebuilds(env, slots, slots.keys, p.session.remaining, k);
      } else {
        FlushOthers(env, slots, slots.keys, p.session.remaining, k);
        assert Rebuilt(env, "") == "" by { NothingRebuilt(env); }
      }
      GivenAppend(p.out + f.out, last, k);
      GivenAppend(p.out, f.out, k);
      assert Given(p.out, k) + Given(f.out, k) + "" == Given(p.out, k) + Given(f.out, k);
    }
  }

  lemma NothingRebuilt(env: Env)
    ensures Rebuilt(env, "") == ""
  {
  }

  // ---- a run ----

  /** The documents that come in between later terminal frames, rebuilt. */
  function LaterDocuments(env: Env, frames: seq<Frame>, k: string): string {
    if frames == [] then ""
    else if Terminal(env, frames[0].text) then
      Rebuilt(env, Ahead(env, frames[1..], k)) + LaterDocuments(env, frames[1..], k)
    else LaterDocuments(env, frames[1..], k)
  }

  ghost predicate Rebuilds(env: Env, p: Progress, frames: seq<Frame>, k: string)
    requires p.session.slots.Valid()
  {
    var q := Finished(env, p, frames);
    q.failed.None? ==>
      Given(q.out, k) ==
      Given(p.out, k) +
      (Rebuilt(env, SseFields.Held(p.session.slots, k) + Ahead(env, frames, k)) + LaterDocuments(env, frames, k))
  }

  lemma {:induction false} RunRebuilds(env: Env, p: Progress, frames: seq<Frame>, k: string)
    requires p.session.slots.Valid() && p.failed.None? && JsonSlot(p.session.slots, k) && JsonKey(env, frames, k)
    ensures Rebuilds(env, p, frames, k)
    decreases |frames|
  {
    hide Process, FlushAll, Finished, Rebuilt, JsonSlot, JsonFields, EventOf, SseFields.Held, PushFields, Terminal,
         Carries, FieldsOf;
    var held := SseFields.Held(p.session.slots, k);
    if frames == [] {
      FinishedNone(env, p);
      FlushAllRebuilds(env, p, [], k);
      assert held + "" == held && Rebuilt(env, held) + "" == Rebuilt(env, held);
    } else {
      var rest := frames[1..];
      FinishedNext(env, p, frames);
      var q := Process(env, p, frames[0]);
      if q.failed.Some? {
        FinishedFails(env, q, rest);
      } else {
        RebuildsNext(env, p, frames, k);
        RunRebuilds(env, q, rest, k);
        var kept := SseFields.Held(q.session.slots, k);
        var t := Rebuilt(env, kept + Ahead(env, rest, k)) + LaterDocuments(env, rest, k);
        if Terminal(env, frames[0].text) {
          assert held + "" == held && "" + Ahead(env, rest, k) == Ahead(env, rest, k);
          Associate(Given(p.out, k), Rebuilt(env, held), t);
        } else {
          Associate(held, InFields(FieldsOf(env, frames[0].text), k), Ahead(env, rest, k));
        }
      }
    }
  }

  lemma FinishedNone(env: Env, p: Progress)
    requires p.session.slots.Valid() && p.failed.None?
    ensures Finished(env, p, []) == FlushAll(env, p, [])
  {
    hide FlushAll;
  }

  /** One frame: collected, or flushed. */
  lemma RebuildsNext(env: Env, p: Progress, frames: seq<Frame>, k: string)
    requires p.session.slots.Valid() && p.failed.None? && JsonSlot(p.session.slots, k)
    requires frames != [] && JsonFields(FieldsOf(env, frames[0].text), k)
    requires Process(env, p, frames[0]).failed.None?
    ensures var q := Process(env, p, frames[0]);
            && JsonSlot(q.session.slots, k)
            && if Terminal(env, frames[0].text)
               then Given(q.out, k) == Given(p.out, k) + Rebuilt(env, SseFields.Held(p.session.slots, k))
                    && SseFields.Held(q.session.slots, k) == ""
               else Given(q.out, k) == Given(p.out, k)
                    && SseFields.Held(q.session.slots, k) ==
                       SseFields.Held(p.session.slots, k) + InFields(FieldsOf(env, frames[0].text), k)
  {
    hide FlushAll, Rebuilt, JsonFields, EventOf, PushFields, Terminal, Carries;
    var f := frames[0];
    EventIs(env, f.text);
    var held := SseFields.Held(p.session.slots, k);
    match EventOf(env, f.text)
    case PassOn =>
      GivenAppend(p.out, [Raw(f)], k);
      GivenOne(Raw(f), k);
      assert Given(p.out, k) + "" == Given(p.out, k) && held + "" == held;
    case Flush =>
      GivenOne(Raw(f), k);
      FlushAllRebuilds(env, p, [Raw(f)], k);
    case Feed(fields) =>
      PushFieldsCollect(env, p.session, fields, k);
      var s := PushFields(env, p.session, fields);
      GivenAppend(p.out, [Rewritten(f, s.values)], k);
      GivenOne(Rewritten(f, s.values), k);
      assert Given(p.out, k) + "" == Given(p.out, k);
  }

  /**
   However a stream arrived in chunks, if it ends without an error then what was given out for a JSON field is, flush
   by flush, the document that its pieces make, with the strings in it substituted.
   */
  lemma DocumentsRestored(env: Env, granted: int, chunks: seq<string>, k: string)
    requires JsonKey(env, AllFrames(Join(chunks)), k)
    ensures var t, frames := Transformed(env, granted, chunks), AllFrames(Join(chunks));
            t.failed.None? ==>
              Given(t.out, k) == Rebuilt(env, Ahead(env, frames, k)) + LaterDocuments(env, frames, k)
  {
    hide Transformed, TransformedText, Fits, JsonKey, Ahead, LaterDocuments, AllFrames, Finished, Rebuilt, OMap.Valid;
    var s := Join(chunks);
    var frames := AllFrames(s);
    ChunkingInvisible(env, granted, chunks);
    TextFinished(env, granted, s);
    assert Begin(granted).session.slots.Valid() by { EmptyValid(); }
    RunRebuilds(env, Begin(granted), frames, k);
    assert "" + Ahead(env, frames, k) == Ahead(env, frames, k);
    var t := Rebuilt(env, Ahead(env, frames, k)) + LaterDocuments(env, frames, k);
    assert "" + t == t;
  }

  // ---- what is refused ----

  /**
   A field is refused just when its key is new and there are as many states as there may be, when a document
   collected gets too long, or when the budget does not cover what a restorer resolves.
   */
  lemma PushFieldRefuses(env: Env, st: Session, f: Field)
    ensures var first, text := f.key !in st.slots.at, SseFields.Held(st.slots, f.key) + f.text;
            var json := if first then f.json else st.slots.at[f.key].json;
            && (first && |st.slots.keys| >= env.maxStates ==> PushField(env, st, f) == Failed(UPSTREAM))
            && (!(first && |st.slots.keys| >= env.maxStates) && json ==>
                  (PushField(env, st, f).Failed? <==> env.over(text)) &&
                  (env.over(text) ==> PushField(env, st, f) == Failed(UPSTREAM)))
            && (!(first && |st.slots.keys| >= env.maxStates) && !json ==>
                  (PushField(env, st, f).Failed? <==> Drain(env.rights, text, st.remaining).Refused?) &&
                  (PushField(env, st, f).Failed? ==> PushField(env, st, f) == Failed(LIMIT_EXCEEDED)))
  {
    hide Drain;
  }

  /** A state keeps the format it was made with and takes the shape of its latest field; no other is touched. */
  lemma PushFieldShapes(env: Env, st: Session, f: Field)
    ensures var s := PushField(env, st, f);
            s.Went? ==>
              && f.key in s.session.slots.at && s.session.slots.at[f.key].shape == f.shape
              && s.session.slots.at[f.key].json == (if f.key in st.slots.at then st.slots.at[f.key].json else f.json)
              && forall k :: k != f.key ==>
                   (k in s.session.slots.at <==> k in st.slots.at) &&
                   (k in st.slots.at ==> s.session.slots.at[k] == st.slots.at[k])
  {
    hide Drain;
  }

  lemma PushFieldBounded(env: Env, st: Session, f: Field)
    requires |st.slots.keys| <= env.maxStates
    ensures var s := PushField(env, st, f); s.Went? ==> |s.session.slots.keys| <= env.maxStates
  {
    hide Drain;
  }

  lemma {:induction false} PushFieldsBounded(env: Env, st: Session, fields: seq<Field>)
    requires |st.slots.keys| <= env.maxStates
    ensures var s := PushFields(env, st, fields); s.Pushed? ==> |s.session.slots.keys| <= env.maxStates
    decreases |fields|
  {
    hide PushField;
    if fields != [] {
      PushFieldBounded(env, st, fields[0]);
      var s := PushField(env, st, fields[0]);
      if s.Went? {
        PushFieldsBounded(env, s.session, fields[1..]);
      }
    }
  }

  /** There are never more states than there may be. */
  lemma {:induction false} StatesBounded(env: Env, p: Progress, frames: seq<Frame>)
    requires p.session.slots.Valid() && |p.session.slots.keys| <= env.maxStates
    ensures |Run(env, p, frames).session.slots.keys| <= env.maxStates
    decreases |frames|
  {
    hide EventOf, PushFields, FlushSlots, OMap.Valid;
    if frames == [] {
      RunNone(env, p);
    } else {
      ProcessValid(env, p, frames[0]);
      var e := EventOf(env, frames[0].text);
      if e.Feed? {
        PushFieldsBounded(env, p.session, e.fields);
      }
      StatesBounded(env, Process(env, p, frames[0]), frames[1..]);
    }
  }
}
