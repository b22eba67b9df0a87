/** The stream transformer as an object: pending text, and a restorer for each field key. */
module SseTransformer {
  import opened Placeholder
  import opened Streaming
  import opened Unmasker
  import opened OrderedMap
  import opened SseFrames
  import opened Sse
  import opened SseText
  import opened Wrappers

  datatype StreamState = StreamState(unmasker: StreamingUnmasker, json: bool, jsonBuffer: string, shape: string)

  ghost function Unmaskers(at: map<string, StreamState>): set<StreamingUnmasker> {
    set k | k in at :: at[k].unmasker
  }

  ghost function SlotOf(s: StreamState): Slot
    reads s.unmasker
  {
    Slot(s.json, if s.json then s.jsonBuffer else s.unmasker.buffer, s.shape)
  }

  /** Every state has a restorer of its own; all of them share the authorization. */
  ghost predicate Owned(states: OMap<string, StreamState>, authorization: Authorization, vault: map<string, string>) {
    && states.Valid()
    && (forall k :: k in states.at ==>
          states.at[k].unmasker.authorization == authorization && states.at[k].unmasker.vault == vault)
    && (forall j, k :: j in states.at && k in states.at && j != k ==> states.at[j].unmasker != states.at[k].unmasker)
  }

  /** A state may be set whose restorer is not that of another key. */
  lemma OwnedSet(states: OMap<string, StreamState>, k: string, s: StreamState)
    requires Owned(states, s.unmasker.authorization, s.unmasker.vault)
    requires forall j :: j in states.at && j != k ==> states.at[j].unmasker != s.unmasker
    ensures Owned(states.Set(k, s), s.unmasker.authorization, s.unmasker.vault)
    ensures Unmaskers(states.Set(k, s).at) <= Unmaskers(states.at) + {s.unmasker}
  {
    hide OMap.Valid;
    SetValid(states, k, s);
  }

  class Transformer {
    var pending: string
    var states: OMap<string, StreamState>
    const vault: map<string, string>
    const authorization: Authorization
    const codec: Codec
    const over: string -> bool
    const maxStates: nat

    constructor (vault: map<string, string>, authorization: Authorization, codec: Codec,
                 over: string -> bool, maxStates: nat)
      requires authorization.Valid()
      ensures Valid() && pending == "" && Slots() == Empty()
      ensures this.vault == vault && this.authorization == authorization && this.codec == codec
      ensures this.over == over && this.maxStates == maxStates
      ensures authorization.remaining == old(authorization.remaining)
    {
      this.vault, this.authorization, this.codec, this.over, this.maxStates := vault, authorization, codec, over,
        maxStates;
      pending, states := "", Empty();
    }

    function Surroundings(): Env
      reads authorization
    {
      Env(Rights(authorization.allowed, vault), codec, over, maxStates)
    }

    ghost predicate Valid()
      reads this`states, authorization
    {
      authorization.Valid() && Owned(states, authorization, vault)
    }

    ghost function Slots(): OMap<string, Slot>
      reads this`states, Unmaskers(states.at)
    {
      OMap(states.keys, map k | k in states.at :: SlotOf(states.at[k]))
    }

    lemma SlotsValid()
      requires Valid()
      ensures Slots().Valid() && Slots().keys[0..] == Slots().keys
    {
      hide Authorization.Valid;
    }

    /** The state of a field's key; a new one only while there is room. */
    method StateFor(f: Field) returns (r: Result<StreamState>)
      requires Valid()
      modifies this`states
      ensures Valid() && fresh(Unmaskers(states.at) - old(Unmaskers(states.at)))
      ensures var s := SlotFor(Surroundings(), old(Slots()), f);
              if s.None? then r == Err(UPSTREAM)
              else r.Ok? && f.key in states.at && states.at[f.key] == r.value &&
                   Slots() == old(Slots()).Set(f.key, s.value)
    {
      hide OMap.Valid, Authorization.Valid, Owned;
      ghost var before := Slots();
      if f.key in states.at {
        SetSame(Slots(), f.key);
        return Ok(states.at[f.key]);
      }
      if |states.keys| >= maxStates {
        return Err(UPSTREAM);
      }
      var unmasker := new StreamingUnmasker(vault, authorization);
      var created := StreamState(unmasker, f.json, "", f.shape);
      OwnedSet(states, f.key, created);
      states := states.Set(f.key, created);
      SetSlot(before, Slots(), f.key);
      r := Ok(created);
    }

    /** A text field goes through its restorer; a JSON field is collected and leaves nothing behind. */
    method PushField(f: Field) returns (r: Result<string>)
      requires Valid()
      modifies this`states, authorization, Unmaskers(states.at)
      ensures Valid() && fresh(Unmaskers(states.at) - old(Unmaskers(states.at)))
      ensures var s := Sse.PushField(Surroundings(), Session(old(Slots()), old(authorization.remaining)), f);
              if s.Failed? then r == Err(s.code)
              else r == Ok(s.text) && Session(Slots(), authorization.remaining) == s.session
    {
      hide OMap.Valid, Drain, Authorization.Valid, Owned;
      ghost var before := Slots();
      var found := StateFor(f);
      if found.Err? {
        return Err(found.code);
      }
      ghost var slot := SlotFor(Surroundings(), before, f).value;
      assert slot == Slots().at[f.key] == SlotOf(found.value);
      if found.value.json {
        r := Collect(f);
        SetTwice(before, f.key, slot, Slot(true, slot.buffer + f.text, f.shape));
      } else {
        r := Restore(f);
        ghost var d := Drain(Surroundings().rights, slot.buffer + f.text, old(authorization.remaining));
        SetTwice(before, f.key, slot, Slot(false, d.buffer, f.shape));
      }
    }

    method Collect(f: Field) returns (r: Result<string>)
      requires Valid() && f.key in states.at && states.at[f.key].json
      modifies this`states
      ensures Valid() && Unmaskers(states.at) <= old(Unmaskers(states.at))
      ensures var text := old(SlotOf(states.at[f.key])).buffer + f.text;
              && Slots() == old(Slots()).Set(f.key, Slot(true, text, f.shape))
              && r == if over(text) then Err(UPSTREAM) else Ok("")
    {
      hide OMap.Valid, Authorization.Valid;
      ghost var before := Slots();
      var state := states.at[f.key];
      state := state.(jsonBuffer := state.jsonBuffer + f.text, shape := f.shape);
      OwnedSet(states, f.key, state);
      states := states.Set(f.key, state);
      SetSlot(before, Slots(), f.key);
      r := if over(state.jsonBuffer) then Err(UPSTREAM) else Ok("");
    }

    method Restore(f: Field) returns (r: Result<string>)
      requires Valid() && f.key in states.at && !states.at[f.key].json
      modifies this`states, authorization, states.at[f.key].unmasker
      ensures Valid() && Unmaskers(states.at) <= old(Unmaskers(states.at))
      ensures var d := Drain(Surroundings().rights, old(SlotOf(states.at[f.key])).buffer + f.text,
                             old(authorization.remaining));
              if d.Refused? then r == Err(LIMIT_EXCEEDED)
              else r == Ok(d.out) && authorization.remaining == d.remaining
                   && Slots() == old(Slots()).Set(f.key, Slot(false, d.buffer, f.shape))
    {
      hide OMap.Valid, Drain, Authorization.Valid;
      ghost var before := Slots();
      var state := states.at[f.key];
      r := state.unmasker.Push(f.text);
      assert forall j :: j in states.at && j != f.key ==> states.at[j].unmasker != state.unmasker;
      state := state.(shape := f.shape);
      OwnedSet(states, f.key, state);
      states := states.Set(f.key, state);
      SetSlot(before, Slots(), f.key);
    }

    /** The strings of a document, unmasked one after the other. */
    method UnmaskStrings(texts: seq<string>) returns (r: Result<seq<string>>)
      requires authorization.Valid()
      modifies authorization
      ensures authorization.Valid()
      ensures var t := UnmaskEach(Surroundings().rights, texts, old(authorization.remaining));
              if t.OverBudget? then r == Err(LIMIT_EXCEEDED)
              else r == Ok(t.outs) && authorization.remaining == t.remaining
    {
      hide Authorization.Valid, UnmaskEach, Stream;
      ghost var rights := Surroundings().rights;
      var outs, i := [], 0;
      assert texts[0..] == texts;
      TextsNone(rights, texts, authorization.remaining);
      while i < |texts|
        invariant i <= |texts| && authorization.Valid()
        invariant UnmaskEach(rights, texts, old(authorization.remaining)) ==
                  WithTexts(outs, UnmaskEach(rights, texts[i..], authorization.remaining))
      {
        assert texts[i..][0] == texts[i] && texts[i..][1..] == texts[i + 1..];
        TextsNext(rights, texts[i..], authorization.remaining, outs);
        var text := UnmaskText(texts[i], vault, authorization);
        if text.Err? {
          return Err(text.code);
        }
        outs := outs + [text.value];
        i := i + 1;
      }
      assert texts[|texts|..] == [];
      TextsDone(rights, outs, authorization.remaining);
      r := Ok(outs);
    }

    /** A collected document is parsed and comes out with every string in it restored. */
    method FlushJson(k: string, state: StreamState) returns (r: Result<string>, ghost es: seq<Emission>)
      requires Valid()
      modifies authorization
      ensures Valid()
      ensures var f := FlushDocument(Surroundings(), k, Slot(true, state.jsonBuffer, state.shape),
                                     old(authorization.remaining));
              if f.FlushFailed? then r == Err(f.code)
              else es == f.out && r == Ok(WrittenAll(Surroundings(), es)) && authorization.remaining == f.remaining
    {
      hide OMap.Valid, Authorization.Valid, UnmaskEach, WrittenAll;
      TextNone(Surroundings());
      if state.jsonBuffer == "" {
        return Ok(""), [];
      }
      var texts := codec.strings(state.jsonBuffer);
      if texts.None? {
        return Err(UPSTREAM), [];
      }
      var outs := UnmaskStrings(texts.value);
      if outs.Err? {
        return Err(outs.code), [];
      }
      var restored := codec.rebuild(state.jsonBuffer, outs.value);
      es := [Document(Value(k, restored), state.shape)];
      TextOne(Surroundings(), es[0]);
      r := Ok("data: " + codec.wrap(state.shape, restored) + "\n\n");
    }

    /** What one state still holds comes out; no other is touched. */
    method FlushState(k: string) returns (r: Result<string>, ghost es: seq<Emission>)
      requires Valid() && k in states.at
      modifies authorization, states.at[k].unmasker
      ensures Valid()
      ensures var f := FlushSlot(Surroundings(), k, old(SlotOf(states.at[k])), old(authorization.remaining));
              if f.FlushFailed? then r == Err(f.code)
              else es == f.out && r == Ok(WrittenAll(Surroundings(), es)) && authorization.remaining == f.remaining
    {
      hide OMap.Valid, Authorization.Valid, Budgeted, Parse, FlushDocument, WrittenAll;
      TextNone(Surroundings());
      var state := states.at[k];
      if state.json {
        r, es := FlushJson(k, state);
        return;
      }
      var tail := state.unmasker.Finish();
      if tail.Err? {
        return Err(tail.code), [];
      }
      if tail.value == "" {
        return Ok(""), [];
      }
      es := [Tail(Value(k, tail.value), state.shape)];
      TextOne(Surroundings(), es[0]);
      r := Ok("data: " + codec.wrap(state.shape, tail.value) + "\n\n");
    }

    /** Everything the states hold comes out, in the order they came up. */
    method FlushEach() returns (r: Result<string>, ghost es: seq<Emission>)
      requires Valid()
      modifies authorization, Unmaskers(states.at)
      ensures Valid() && Known(old(Slots()))
      ensures var f := FlushFrom(Surroundings(), old(Slots()), 0, old(authorization.remaining));
              if f.FlushFailed? then r == Err(f.code)
              else es == f.out && r == Ok(WrittenAll(Surroundings(), es)) && authorization.remaining == f.remaining
    {
      hide OMap.Valid, Authorization.Valid, Owned, FlushFrom, FlushSlot, Known, WrittenAll;
      ghost var slots, env, granted := Slots(), Surroundings(), authorization.remaining;
      OwnedKeys(states, slots, authorization, vault);
      var keys, i := states.keys, 0;
      var output := "";
      es := [];
      TextNone(env);
      BeforeNone(FlushFrom(env, slots, 0, granted));
      while i < |keys|
        invariant i <= |keys| && Valid()
        invariant Untouched(states, slots, i)
        invariant FlushFrom(env, slots, 0, granted) == Before(es, FlushFrom(env, slots, i, authorization.remaining))
        invariant output == WrittenAll(env, es)
      {
        FlushOne(env, slots, i, authorization.remaining, es);
        OwnedApart(states, authorization, vault, i);
        ghost var more;
        var flushed;
        flushed, more := FlushState(keys[i]);
        if flushed.Err? {
          return Err(flushed.code), [];
        }
        TextAppend(env, es, more);
        output := output + flushed.value;
        es := es + more;
        i := i + 1;
      }
      FlushNone(env, slots, authorization.remaining, es);
      r := Ok(output);
    }

    /** A flush: everything comes out and the states are dropped. */
    method FlushStates() returns (r: Result<string>, ghost es: seq<Emission>)
      requires Valid()
      modifies this`states, authorization, Unmaskers(states.at)
      ensures Valid() && Unmaskers(states.at) <= old(Unmaskers(states.at))
      ensures Known(old(Slots()))
      ensures var f := FlushFrom(Surroundings(), old(Slots()), 0, old(authorization.remaining));
              if f.FlushFailed? then r == Err(f.code)
              else es == f.out && r == Ok(WrittenAll(Surroundings(), es))
                   && Slots() == Empty() && authorization.remaining == f.remaining
    {
      hide OMap.Valid, Authorization.Valid, Owned, FlushSlots, WrittenAll;
      r, es := FlushEach();
      if r.Ok? {
        states := Empty();
        OwnedEmpty(authorization, vault);
        assert Slots().at == map[];
      }
    }

    /** What a frame has written for it, and the session behind it. */
    method ProcessFrame(f: Frame) returns (r: Result<string>, ghost es: seq<Emission>)
      requires Valid()
      modifies this`states, authorization, Unmaskers(states.at)
      ensures Valid() && fresh(Unmaskers(states.at) - old(Unmaskers(states.at)))
      ensures old(Slots()).Valid()
      ensures var p := Process(Surroundings(), Progress([], Session(old(Slots()), old(authorization.remaining)), None),
                               f);
              if p.failed.Some? then r == Err(p.failed.value)
              else es == p.out && r == Ok(WrittenAll(Surroundings(), es)) &&
                   Session(Slots(), authorization.remaining) == p.session
    {
      hide OMap.Valid, Authorization.Valid, Owned, FlushSlots, PushFields, Lines, Payload, WrittenAll, Rewrite;
      SlotsValid();
      match EventOf(Surroundings(), f.text)
      case PassOn =>
        es := [Raw(f)];
        assert [] + es == es;
        TextOne(Surroundings(), Raw(f));
        r := Ok(f.text + f.separator);
      case Flush =>
        r, es := FlushStates();
        if r.Ok? {
          TextAppend(Surroundings(), es, [Raw(f)]);
          TextOne(Surroundings(), Raw(f));
          assert [] + es + [Raw(f)] == es + [Raw(f)];
          assert r.value + (f.text + f.separator) == r.value + f.text + f.separator;
          es := es + [Raw(f)];
          r := Ok(r.value + f.text + f.separator);
        }
      case Feed(fields) =>
        var values := PushEach(fields);
        if values.Err? {
          return Err(values.code), [];
        }
        es := [Rewritten(f, values.value)];
        assert [] + es == es;
        TextOne(Surroundings(), es[0]);
        r := Ok(Rewrite(Surroundings(), f.text, values.value) + f.separator);
    }

    /** The fields of a frame, in order. */
    method PushEach(fields: seq<Field>) returns (r: Result<seq<Value>>)
      requires Valid()
      modifies this`states, authorization, Unmaskers(states.at)
      ensures Valid() && fresh(Unmaskers(states.at) - old(Unmaskers(states.at)))
      ensures var p := PushFields(Surroundings(), Session(old(Slots()), old(authorization.remaining)), fields);
              if p.PushFailed? then r == Err(p.code)
              else r == Ok(p.values) && Session(Slots(), authorization.remaining) == p.session
    {
      hide OMap.Valid, Authorization.Valid, Owned, PushFields, Sse.PushField;
      var values, i := [], 0;
      ghost var env, start := Surroundings(), Session(Slots(), authorization.remaining);
      assert fields[0..] == fields;
      WithNone(PushFields(env, start, fields));
      while i < |fields|
        invariant i <= |fields| && Valid()
        invariant fresh(Unmaskers(states.at) - old(Unmaskers(states.at)))
        invariant PushFields(env, start, fields) ==
                  WithValues(values, PushFields(env, Session(Slots(), authorization.remaining), fields[i..]))
      {
        assert fields[i..][1..] == fields[i + 1..];
        PushNext(env, Session(Slots(), authorization.remaining), fields[i..], values);
        var text := PushField(fields[i]);
        if text.Err? {
          return Err(text.code);
        }
        values := values + [Value(fields[i].key, text.value)];
        i := i + 1;
      }
      assert fields[|fields|..] == [];
      PushNone(env, Session(Slots(), authorization.remaining), values);
      r := Ok(values);
    }

    /** Frames are cut off the pending text and processed, one by one, as long as a blank line closes one. */
    method ProcessPending() returns (out: string, failed: Option<string>, ghost es: seq<Emission>)
      requires Valid()
      modifies this`pending, this`states, authorization, Unmaskers(states.at)
      ensures Valid() && fresh(Unmaskers(states.at) - old(Unmaskers(states.at)))
      ensures old(Slots()).Valid()
      ensures var c := Frames(old(pending));
              var p := Run(Surroundings(), Progress([], Session(old(Slots()), old(authorization.remaining)), None),
                           c.frames);
              && es == p.out && out == WrittenAll(Surroundings(), es) && failed == p.failed
              && (failed.None? ==> pending == c.rest && Session(Slots(), authorization.remaining) == p.session)
    {
      hide OMap.Valid, Valid, Slots, Process, FirstBlank, BlankLine, Frames, Run, WrittenAll;
      ghost var env, start, c := Surroundings(), Session(Slots(), authorization.remaining), Frames(pending);
      SlotsValid();
      out, failed, es := "", None, [];
      TextNone(env);
      while true
        invariant Valid() && fresh(Unmaskers(states.at) - old(Unmaskers(states.at)))
        invariant Slots().Valid() && Frames(pending).rest == c.rest
        invariant Run(env, Progress([], start, None), c.frames) ==
                  Run(env, Progress(es, Session(Slots(), authorization.remaining), None), Frames(pending).frames)
        invariant out == WrittenAll(env, es)
        decreases |pending|
      {
        var i := FirstBlank(pending);
        FramesStep(pending);
        ghost var now := Progress(es, Session(Slots(), authorization.remaining), None);
        if i == |pending| {
          RunNone(env, now);
          return;
        }
        var n := BlankLine(pending[i..]);
        var frame := Frame(pending[..i], pending[i..i + n]);
        RunNext(env, now, frame, Frames(pending[i + n..]).frames);
        ProcessShifts(env, es, now.session, frame);
        pending := pending[i + n..];
        ghost var more;
        var written;
        written, more := ProcessFrame(frame);
        if written.Err? {
          failed := Some(written.code);
          return;
        }
        SlotsValid();
        TextAppend(env, es, more);
        out := out + written.value;
        es := es + more;
      }
    }

    /** What is left pending counts as a frame; then everything is flushed. */
    method FinishSource() returns (out: string, failed: Option<string>, ghost es: seq<Emission>)
      requires Valid()
      modifies this`states, authorization, Unmaskers(states.at)
      ensures Valid() && fresh(Unmaskers(states.at) - old(Unmaskers(states.at)))
      ensures old(Slots()).Valid()
      ensures var t := Closing(Surroundings(), Progress([], Session(old(Slots()), old(authorization.remaining)), None),
                               pending);
              && es == t.out && out == WrittenAll(Surroundings(), es) && failed == t.failed
              && (failed.None? ==> Session(Slots(), authorization.remaining) == t.session)
    {
      hide OMap.Valid, Valid, Slots, Unmaskers, Process, FlushSlots, WrittenAll;
      out, failed, es := "", None, [];
      SlotsValid();
      TextNone(Surroundings());
      if pending != "" {
        ghost var now := Progress([], Session(Slots(), authorization.remaining), None);
        ProcessShifts(Surroundings(), [], now.session, Frame(pending, ""));
        ghost var first;
        var written;
        written, first := ProcessFrame(Frame(pending, ""));
        if written.Err? {
          failed := Some(written.code);
          return;
        }
        out, es := written.value, first;
        SlotsValid();
      }
      ghost var more;
      var tails;
      tails, more := FlushStates();
      if tails.Err? {
        failed := Some(tails.code);
        return;
      }
      assert es + more + [] == es + more;
      TextAppend(Surroundings(), es, more);
      out, es := out + tails.value, es + more;
    }

    /** The whole source: every chunk, then what is left pending, then a last flush; `out` is all that is written. */
    method Transform(chunks: seq<string>) returns (out: string, failed: Option<string>, ghost es: seq<Emission>)
      requires Valid() && pending == "" && Slots() == Empty()
      modifies this`pending, this`states, authorization, Unmaskers(states.at)
      ensures Valid()
      ensures var t := Transformed(Surroundings(), old(authorization.remaining), chunks);
              && es == t.out && out == WrittenAll(Surroundings(), es) && failed == t.failed
              && (failed.None? ==> Session(Slots(), authorization.remaining) == t.session)
    {
      hide OMap.Valid, Valid, Slots, Process, Frames, Run, RunChunks, Closing, WrittenAll;
      ghost var env, start := Surroundings(), Point(Begin(authorization.remaining), "");
      out, failed, es := "", None, [];
      SlotsValid();
      TextNone(env);
      var i := 0;
      assert chunks[0..] == chunks;
      while i < |chunks|
        invariant i <= |chunks| && Valid() && Slots().Valid()
        invariant fresh(Unmaskers(states.at) - old(Unmaskers(states.at)))
        invariant start.progress.session.slots.Valid()
        invariant RunChunks(env, start, chunks) ==
                  RunChunks(env, Point(Progress(es, Session(Slots(), authorization.remaining), None), pending),
                            chunks[i..])
        invariant out == WrittenAll(env, es)
      {
        ghost var now := Progress(es, Session(Slots(), authorization.remaining), None);
        assert chunks[i..][1..] == chunks[i + 1..];
        ChunkNext(env, Point(now, pending), chunks[i..]);
        pending := pending + chunks[i];
        ghost var buffer := pending;
        if over(pending) {
          failed := Some(UPSTREAM);
          EndKeepsOut(env, now.(failed := failed), buffer);
          return;
        }
        ghost var before := Session(Slots(), authorization.remaining);
        RunShifts(env, es, before, Frames(buffer).frames);
        ghost var q := Run(env, Progress([], before, None), Frames(buffer).frames);
        ghost var more;
        var written, code;
        written, code, more := ProcessPending();
        TextAppend(env, es, more);
        out, es := out + written, es + more;
        if code.Some? {
          failed := code;
          ChunksFailed(env, Point(Progress(es, q.session, code), Frames(buffer).rest), chunks[i + 1..]);
          return;
        }
        SlotsValid();
        i := i + 1;
      }
      assert chunks[|chunks|..] == [];
      ghost var now := Progress(es, Session(Slots(), authorization.remaining), None);
      ChunksNone(env, Point(now, pending));
      ghost var more;
      var last;
      last, failed, more := FinishSource();
      EndShifts(env, es, now.session, pending);
      TextAppend(env, es, more);
      out, es := out + last, es + more;
    }
  }

  function WithTexts(outs: seq<string>, t: Texts): Texts {
    if t.Texts? then t.(outs := outs + t.outs) else t
  }

  lemma TextsNone(r: Rights, texts: seq<string>, remaining: int)
    ensures WithTexts([], UnmaskEach(r, texts, remaining)) == UnmaskEach(r, texts, remaining)
  {
  }

  lemma TextsDone(r: Rights, outs: seq<string>, remaining: int)
    ensures WithTexts(outs, UnmaskEach(r, [], remaining)) == Texts(outs, remaining)
  {
    assert outs + [] == outs;
  }

  /** One text unmasked, with `outs` already there. */
  lemma TextsNext(r: Rights, texts: seq<string>, remaining: int, outs: seq<string>)
    requires texts != []
    ensures var o := Stream(r, "", remaining, [texts[0]]);
            WithTexts(outs, UnmaskEach(r, texts, remaining)) ==
            if o.Limit? then OverBudget else WithTexts(outs + [o.out], UnmaskEach(r, texts[1..], o.remaining))
  {
    hide Stream;
    var o := Stream(r, "", remaining, [texts[0]]);
    if o.Done? {
      var t := UnmaskEach(r, texts[1..], o.remaining);
      if t.Texts? {
        assert outs + ([o.out] + t.outs) == outs + [o.out] + t.outs;
      }
    }
  }

  // ---- progress, with some output already given out ----

  function Shift(out: seq<Emission>, p: Progress): Progress {
    p.(out := out + p.out)
  }

  lemma ShiftTwice(a: seq<Emission>, b: seq<Emission>, p: Progress)
    ensures Shift(a, Shift(b, p)) == Shift(a + b, p)
  {
    assert a + (b + p.out) == a + b + p.out;
  }

  /** Output so far has no part in what happens next; a frame that fails writes nothing. */
  lemma ProcessShifts(env: Env, out: seq<Emission>, st: Session, f: Frame)
    requires st.slots.Valid()
    ensures var p := Process(env, Progress([], st, None), f);
            && Process(env, Progress(out, st, None), f) == Shift(out, p)
            && (p.failed.Some? ==> p.out == [])
  {
    hide FlushSlots, PushFields, EventOf;
    assert out + [] == out;
    var g := FlushSlots(env, st.slots, st.slots.keys, st.remaining);
    if g.Flushed? {
      assert [] + g.out + [Raw(f)] == g.out + [Raw(f)];
      assert out + (g.out + [Raw(f)]) == out + g.out + [Raw(f)];
    }
  }

  lemma {:induction false} RunShifts(env: Env, out: seq<Emission>, st: Session, frames: seq<Frame>)
    requires st.slots.Valid()
    ensures Run(env, Progress(out, st, None), frames) == Shift(out, Run(env, Progress([], st, None), frames))
    decreases |frames|
  {
    hide Process, OMap.Valid;
    assert out + [] == out;
    if frames != [] {
      var p := Process(env, Progress([], st, None), frames[0]);
      ProcessShifts(env, out, st, frames[0]);
      ProcessValid(env, Progress([], st, None), frames[0]);
      if p.failed.None? {
        RunShifts(env, out + p.out, p.session, frames[1..]);
        RunShifts(env, p.out, p.session, frames[1..]);
        ShiftTwice(out, p.out, Run(env, Progress([], p.session, None), frames[1..]));
      } else {
        RunFailed(env, p, frames[1..]);
        RunFailed(env, Shift(out, p), frames[1..]);
      }
    }
  }

  lemma EndShifts(env: Env, out: seq<Emission>, st: Session, pending: string)
    requires st.slots.Valid()
    ensures Closing(env, Progress(out, st, None), pending) == Shift(out, Closing(env, Progress([], st, None), pending))
  {
    hide FlushSlots, Process;
    var f := Frame(pending, "");
    ProcessShifts(env, out, st, f);
    ProcessValid(env, Progress([], st, None), f);
    var q := if pending == "" then Progress([], st, None) else Process(env, Progress([], st, None), f);
    assert out + [] == out;
    var g := FlushSlots(env, q.session.slots, q.session.slots.keys, q.session.remaining);
    if g.Flushed? {
      assert out + (q.out + g.out + []) == out + q.out + g.out + [];
    }
  }

  lemma RunNext(env: Env, p: Progress, f: Frame, fs: seq<Frame>)
    requires p.session.slots.Valid()
    ensures Process(env, p, f).session.slots.Valid()
    ensures Run(env, p, [f] + fs) == Run(env, Process(env, p, f), fs)
    ensures Process(env, p, f).failed.Some? ==> Run(env, p, [f] + fs) == Process(env, p, f)
  {
    hide Process, OMap.Valid;
    ProcessValid(env, p, f);
    assert ([f] + fs)[1..] == fs;
    if Process(env, p, f).failed.Some? {
      RunFailed(env, Process(env, p, f), fs);
    }
  }

  lemma ChunkNext(env: Env, at: Point, chunks: seq<string>)
    requires at.progress.session.slots.Valid() && at.progress.failed.None? && chunks != []
    ensures var buffer := at.pending + chunks[0];
            RunChunks(env, at, chunks) ==
            if env.over(buffer) then Point(at.progress.(failed := Some(UPSTREAM)), buffer)
            else RunChunks(env, Point(Run(env, at.progress, Frames(buffer).frames), Frames(buffer).rest), chunks[1..])
  {
    hide Run, Frames, OMap.Valid;
  }

  lemma ChunksFailed(env: Env, at: Point, chunks: seq<string>)
    requires at.progress.session.slots.Valid() && at.progress.failed.Some?
    ensures RunChunks(env, at, chunks) == at && Closing(env, at.progress, at.pending) == at.progress
  {
    hide Closing;
    EndKeepsOut(env, at.progress, at.pending);
  }

  lemma ChunksNone(env: Env, at: Point)
    requires at.progress.session.slots.Valid()
    ensures RunChunks(env, at, []) == at
  {
  }

  function WithValues(vs: seq<Value>, p: Pushed): Pushed {
    if p.Pushed? then p.(values := vs + p.values) else p
  }

  lemma WithNone(p: Pushed)
    ensures WithValues([], p) == p
  {
  }

  lemma PushNone(env: Env, st: Session, values: seq<Value>)
    ensures WithValues(values, PushFields(env, st, [])) == Pushed(st, values)
  {
    assert values + [] == values;
  }

  /** One field pushed, with `values` already there. */
  lemma PushNext(env: Env, st: Session, fields: seq<Field>, values: seq<Value>)
    requires fields != []
    ensures var s := Sse.PushField(env, st, fields[0]);
            WithValues(values, PushFields(env, st, fields)) ==
            if s.Failed? then PushFailed(s.code)
            else WithValues(values + [Value(fields[0].key, s.text)], PushFields(env, s.session, fields[1..]))
  {
    hide Sse.PushField;
    var s := Sse.PushField(env, st, fields[0]);
    if s.Went? {
      var v, p := Value(fields[0].key, s.text), PushFields(env, s.session, fields[1..]);
      if p.Pushed? {
        assert values + ([v] + p.values) == values + [v] + p.values;
      }
    }
  }

  /** The states from the `i`-th on are still as in `slots`. */
  ghost predicate Untouched(states: OMap<string, StreamState>, slots: OMap<string, Slot>, i: nat)
    reads Unmaskers(states.at)
  {
    forall j :: i <= j < |states.keys| ==>
      states.keys[j] in states.at && states.keys[j] in slots.at &&
        SlotOf(states.at[states.keys[j]]) == slots.at[states.keys[j]]
  }

  predicate Known(slots: OMap<string, Slot>) {
    forall k :: k in slots.keys ==> k in slots.at
  }

  /** What the states from the `i`-th on still hold. */
  function FlushFrom(env: Env, slots: OMap<string, Slot>, i: nat, remaining: int): Flushing
    requires Known(slots) && i <= |slots.keys|
  {
    FlushSlots(env, slots, slots.keys[i..], remaining)
  }

  lemma OwnedKeys(states: OMap<string, StreamState>, slots: OMap<string, Slot>, authorization: Authorization,
                  vault: map<string, string>)
    requires Owned(states, authorization, vault) && slots.keys == states.keys && slots.at.Keys == states.at.Keys
    ensures Known(slots)
    ensures forall i :: 0 <= i < |states.keys| ==> states.keys[i] in states.at
  {
  }

  /** The restorer of the key at `i` is that of no other key. */
  lemma OwnedApart(states: OMap<string, StreamState>, authorization: Authorization, vault: map<string, string>, i: nat)
    requires Owned(states, authorization, vault) && i < |states.keys|
    ensures forall j :: 0 <= j < |states.keys| ==> states.keys[j] in states.at
    ensures var u := states.at[states.keys[i]].unmasker;
            && u.authorization == authorization && u.vault == vault
            && forall j :: 0 <= j < |states.keys| && j != i ==> states.at[states.keys[j]].unmasker != u
  {
    assert forall j :: 0 <= j < |states.keys| ==> states.keys[j] in states.keys;
  }

  lemma OwnedEmpty(authorization: Authorization, vault: map<string, string>)
    ensures Owned(Empty(), authorization, vault)
  {
  }

  lemma BeforeNone(f: Flushing)
    ensures Before([], f) == f
  {
  }

  lemma BeforeTwice(a: seq<Emission>, b: seq<Emission>, f: Flushing)
    ensures Before(a, Before(b, f)) == Before(a + b, f)
  {
    if f.Flushed? {
      assert a + (b + f.out) == a + b + f.out;
    }
  }

  lemma FlushNone(env: Env, slots: OMap<string, Slot>, remaining: int, output: seq<Emission>)
    requires Known(slots)
    ensures Before(output, FlushFrom(env, slots, |slots.keys|, remaining)) == Flushed(remaining, output)
  {
    assert slots.keys[|slots.keys|..] == [];
    assert output + [] == output;
  }

  /** One state flushed, with `output` already there. */
  lemma FlushOne(env: Env, slots: OMap<string, Slot>, i: nat, remaining: int, output: seq<Emission>)
    requires Known(slots) && i < |slots.keys|
    ensures slots.keys[i] in slots.at
    ensures var f := FlushSlot(env, slots.keys[i], slots.at[slots.keys[i]], remaining);
            Before(output, FlushFrom(env, slots, i, remaining)) ==
            if f.FlushFailed? then f else Before(output + f.out, FlushFrom(env, slots, i + 1, f.remaining))
  {
    hide FlushSlot;
    assert slots.keys[i..][0] == slots.keys[i] && slots.keys[i..][1..] == slots.keys[i + 1..];
    var f := FlushSlot(env, slots.keys[i], slots.at[slots.keys[i]], remaining);
    if f.Flushed? {
      BeforeTwice(output, f.out, FlushFrom(env, slots, i + 1, f.remaining));
    }
  }

  lemma SetTwice(m: OMap<string, Slot>, k: string, a: Slot, b: Slot)
    ensures m.Set(k, a).Set(k, b) == m.Set(k, b)
  {
    assert m.at[k := a][k := b] == m.at[k := b];
  }

  lemma SetSame(m: OMap<string, Slot>, k: string)
    requires k in m.at
    ensures m.Set(k, m.at[k]) == m
  {
  }

  /** A slot map that differs from another at most at one key is that one with the key set. */
  lemma SetSlot(a: OMap<string, Slot>, b: OMap<string, Slot>, k: string)
    requires b.keys == (if k in a.at then a.keys else a.keys + [k]) && b.at.Keys == a.at.Keys + {k}
    requires forall j :: j in a.at && j != k ==> a.at[j] == b.at[j]
    ensures b == a.Set(k, b.at[k])
  {
    assert b.at == a.at[k := b.at[k]];
  }
}
