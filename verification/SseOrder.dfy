/**
 What stands where in the output of a stream, told from the payloads of its frames: every frame comes out once,
 in order, and a terminal one only behind everything that came in before it.
 */
module SseOrder {
  import opened Placeholder
  import opened Streaming
  import opened OrderedMap
  import opened SseFrames
  import opened Sse
  import opened SseFields
  import opened SseText
  import opened Wrappers

  // ---- payloads ----

  predicate NoData(lines: seq<string>) {
    forall i :: 0 <= i < |lines| ==> !("data:" <= lines[i])
  }

  lemma {:induction false} DataIndexIs(before: seq<string>, line: string, after: seq<string>)
    requires NoData(before) && "data:" <= line
    ensures DataIndex(before + [line] + after) == |before|
  {
    var lines := before + [line] + after;
    if before != [] {
      assert lines[0] == before[0] && lines[1..] == before[1..] + [line] + after;
      DataIndexIs(before[1..], line, after);
    }
  }

  /** The payload is what stands on the first data line, behind `data:` and at most one white-space character. */
  lemma PayloadOf(before: seq<string>, space: string, payload: string, after: seq<string>)
    requires NoData(before) && (forall i :: 0 <= i < |payload| ==> !IsTerminator(payload[i]))
    requires if space == "" then payload == "" || !IsSpace(payload[0]) else |space| == 1 && IsSpace(space[0])
    ensures Payload(before + ["data:" + space + payload] + after) == Some(payload)
  {
    hide IsSpace, IsTerminator;
    var line := "data:" + space + payload;
    DataIndexIs(before, line, after);
    assert (before + [line] + after)[|before|] == line;
    assert Prefix(line) == "data:" + space;
  }

  lemma {:induction false} NoPayload(lines: seq<string>)
    requires NoData(lines)
    ensures Payload(lines) == None
  {
    if lines != [] {
      NoPayload(lines[1..]);
    }
  }

  /** The frames that end a stream, as they come. */
  lemma DoneIsTerminal(env: Env)
    ensures Terminal(env, "data: [DONE]")
  {
    hide Lines, Payload;
    LastLine("data: [DONE]");
    OneSpace("[DONE]");
    PayloadOf([], " ", "[DONE]", []);
    assert "data: " + "[DONE]" == "data: [DONE]";
    assert [] + ["data: [DONE]"] + [] == ["data: [DONE]"];
  }

  /** Written for a value at a flush: one event of its own, with the value wrapped up. */
  lemma TailReads(env: Env, e: Emission)
    requires (e.Tail? || e.Document?) && SseText.Plain(env.codec.wrap(e.shape, e.value.text))
    ensures var json := env.codec.wrap(e.shape, e.value.text);
            && Frames(Written(env, e)) == Cutting([Frame("data: " + json, "\n\n")], "")
            && Payload(Lines("data: " + json)) == Some(json)
  {
    hide Lines, Payload, IsSpace, Frames, FirstBlank, BlankLine;
    var json := env.codec.wrap(e.shape, e.value.text);
    var line := "data: " + json;
    assert '\n' !in line && '\r' !in line by { PlainLine(json); }
    LastLine(line);
    OneSpace(json);
    PayloadOf([], " ", json, []);
    assert [] + [line] + [] == [line];
    OneFrame(line);
  }

  lemma OneSpace(json: string)
    ensures IsSpace(" "[0]) && "data:" + " " + json == "data: " + json
  {
    assert "data:" + " " == "data: ";
  }

  lemma PlainLine(json: string)
    requires SseText.Plain(json)
    ensures '\n' !in "data: " + json && '\r' !in "data: " + json
  {
    hide IsSpace;
  }

  lemma OneFrame(line: string)
    requires '\n' !in line && '\r' !in line
    ensures Frames(line + "\n\n") == Cutting([Frame(line, "\n\n")], "")
  {
    hide Frames, FirstBlank;
    var s, c := line + "\n\n", Cutting([Frame(line, "\n\n")], "");
    forall j | 0 <= j < |line|
      ensures BlankLine(s[j..]) == 0
    {
      assert s[j..][0] == line[j] && line[j] in line;
    }
    assert s[|line|..] == "\n\n" && BlankLine("\n\n") == 2 by { TwoEnds(); }
    FirstIs(s, |line|);
    FirstIs("", 0);
    assert c.frames[1..] == [] && Text([]) == "";
    assert Text(c.frames) == line + "\n\n" + "" == s;
    FramesExact(s, c);
  }

  lemma TwoEnds()
    ensures BlankLine("\n\n") == 2
  {
    assert "\n\n"[1..] == "\n";
  }

  // ---- the frames of the output ----

  function FrameIn(e: Emission): seq<Frame> {
    match e
    case Raw(f) => [f]
    case Rewritten(f, _) => [f]
    case _ => []
  }

  /** The frames that an output has something for, in order. */
  function FramesOf(es: seq<Emission>): seq<Frame> {
    if es == [] then [] else FrameIn(es[0]) + FramesOf(es[1..])
  }

  lemma {:induction false} FramesOfAppend(a: seq<Emission>, b: seq<Emission>)
    ensures FramesOf(a + b) == FramesOf(a) + FramesOf(b)
  {
    if a == [] {
      assert a + b == b;
    } else {
      assert (a + b)[0] == a[0] && (a + b)[1..] == a[1..] + b;
      FramesOfAppend(a[1..], b);
    }
  }

  lemma FramesOfOne(e: Emission)
    ensures FramesOf([e]) == FrameIn(e)
  {
    assert [e][1..] == [];
  }

  lemma FramesOfPart(a: seq<Emission>, b: seq<Emission>)
    requires a <= b
    ensures FramesOf(a) <= FramesOf(b)
  {
    assert b == a + b[|a|..];
    FramesOfAppend(a, b[|a|..]);
  }

  /** A frame with fields comes out with a value for each of them, any other as it came. */
  predicate Apt(env: Env, e: Emission) {
    match e
    case Raw(f) => !Carries(env, f.text)
    case Rewritten(f, values) =>
      var fields := FieldsOf(env, f.text);
      && Carries(env, f.text) && |values| == |fields|
      && forall i :: 0 <= i < |fields| ==> values[i].key == fields[i].key
    case _ => true
  }

  predicate AllApt(env: Env, es: seq<Emission>) {
    forall e :: e in es ==> Apt(env, e)
  }

  predicate Tails(es: seq<Emission>) {
    forall e :: e in es ==> e.Tail? || e.Document?
  }

  lemma {:induction false} TailsNoFrames(es: seq<Emission>)
    requires Tails(es)
    ensures FramesOf(es) == []
  {
    if es != [] {
      assert es[0] in es;
      TailsNoFrames(es[1..]);
    }
  }

  lemma {:induction false} FlushTails(env: Env, slots: OMap<string, Slot>, keys: seq<string>, remaining: int)
    requires forall k :: k in keys ==> k in slots.at
    ensures var f := FlushSlots(env, slots, keys, remaining); f.Flushed? ==> Tails(f.out)
    decreases |keys|
  {
    hide Budgeted, Parse, UnmaskEach;
    if keys != [] {
      var f := FlushSlot(env, keys[0], slots.at[keys[0]], remaining);
      if f.Flushed? {
        FlushTails(env, slots, keys[1..], f.remaining);
      }
    }
  }

  lemma {:induction false} PushedKeys(env: Env, st: Session, fields: seq<Field>)
    ensures var p := PushFields(env, st, fields);
            p.Pushed? ==> |p.values| == |fields| && forall i :: 0 <= i < |fields| ==> p.values[i].key == fields[i].key
    decreases |fields|
  {
    hide PushField;
    if fields != [] {
      var s := PushField(env, st, fields[0]);
      if s.Went? {
        PushedKeys(env, s.session, fields[1..]);
      }
    }
  }

  lemma ProcessFrames(env: Env, p: Progress, f: Frame)
    requires p.session.slots.Valid() && p.failed.None? && AllApt(env, p.out)
    ensures var q := Process(env, p, f);
            && FramesOf(q.out) == FramesOf(p.out) + (if q.failed.None? then [f] else [])
            && AllApt(env, q.out)
  {
    hide EventOf, PushFields, FlushSlots, FramesOf, Terminal, Carries, FieldsOf, OMap.Valid;
    EventIs(env, f.text);
    var q := Process(env, p, f);
    match EventOf(env, f.text)
    case PassOn =>
      FramesOfAppend(p.out, [Raw(f)]);
      FramesOfOne(Raw(f));
    case Flush =>
      TerminalBare(env, f.text);
      KeysListed(p.session.slots);
      FlushTails(env, p.session.slots, p.session.slots.keys, p.session.remaining);
      var t := FlushSlots(env, p.session.slots, p.session.slots.keys, p.session.remaining);
      if t.Flushed? {
        FramesOfAppend(p.out + t.out, [Raw(f)]);
        FramesOfAppend(p.out, t.out);
        TailsNoFrames(t.out);
        FramesOfOne(Raw(f));
      }
    case Feed(fields) =>
      PushedKeys(env, p.session, fields);
      var pushed := PushFields(env, p.session, fields);
      if pushed.Pushed? {
        FramesOfAppend(p.out, [Rewritten(f, pushed.values)]);
        FramesOfOne(Rewritten(f, pushed.values));
      }
  }

  lemma TerminalBare(env: Env, frame: string)
    ensures Terminal(env, frame) ==> !Carries(env, frame)
  {
    hide Lines, Payload;
  }

  lemma KeysListed(slots: OMap<string, Slot>)
    requires slots.Valid()
    ensures forall k :: k in slots.keys ==> k in slots.at
  {
  }

  lemma {:induction false} RunFrames(env: Env, p: Progress, frames: seq<Frame>)
    requires p.session.slots.Valid() && p.failed.None? && AllApt(env, p.out)
    ensures var q := Run(env, p, frames);
            && AllApt(env, q.out) && FramesOf(q.out) <= FramesOf(p.out) + frames
            && (q.failed.None? ==> FramesOf(q.out) == FramesOf(p.out) + frames)
    decreases |frames|
  {
    hide Process, FramesOf, Apt, OMap.Valid;
    if frames == [] {
      RunNone(env, p);
    } else {
      var next, rest := Process(env, p, frames[0]), frames[1..];
      ProcessValid(env, p, frames[0]);
      ProcessFrames(env, p, frames[0]);
      assert FramesOf(p.out) + [frames[0]] + rest == FramesOf(p.out) + frames;
      if next.failed.Some? {
        RunFailed(env, next, rest);
        assert FramesOf(p.out) + [] == FramesOf(p.out);
      } else {
        RunFrames(env, next, rest);
      }
    }
  }

  lemma FinishedFrames(env: Env, granted: int, frames: seq<Frame>)
    requires Begin(granted).session.slots.Valid()
    ensures var q := Finished(env, Begin(granted), frames);
            && AllApt(env, q.out) && FramesOf(q.out) <= frames && (q.failed.None? ==> FramesOf(q.out) == frames)
  {
    hide Run, FlushSlots, FramesOf, Apt, OMap.Valid;
    NoFrames();
    RunFrames(env, Begin(granted), frames);
    assert [] + frames == frames;
    var q := Run(env, Begin(granted), frames);
    if q.failed.None? {
      KeysListed(q.session.slots);
      FlushTails(env, q.session.slots, q.session.slots.keys, q.session.remaining);
      var t := FlushSlots(env, q.session.slots, q.session.slots.keys, q.session.remaining);
      if t.Flushed? {
        assert q.out + t.out + [] == q.out + t.out;
        FramesOfAppend(q.out, t.out);
        TailsNoFrames(t.out);
        AptTails(env, q.out, t.out);
      }
    }
  }

  lemma AptTails(env: Env, a: seq<Emission>, b: seq<Emission>)
    requires AllApt(env, a) && Tails(b)
    ensures AllApt(env, a + b)
  {
    hide Carries, FieldsOf;
  }

  lemma NoFrames()
    ensures FramesOf([]) == []
  {
  }

  /**
   However a stream arrived in chunks, its frames come out once each and in order, those with fields with new
   values for them and the others as they came - all of them, or the first ones if the stream ends in an error.
   */
  lemma FramesWritten(env: Env, granted: int, chunks: seq<string>)
    ensures var t, frames := Transformed(env, granted, chunks), AllFrames(Join(chunks));
            && AllApt(env, t.out) && FramesOf(t.out) <= frames && (t.failed.None? ==> FramesOf(t.out) == frames)
  {
    hide Transformed, TransformedText, AllFrames, Finished, FramesOf, Apt, Fits, OMap.Valid;
    var s := Join(chunks);
    ChunkingInvisible(env, granted, chunks);
    TextFinished(env, granted, s);
    assert Begin(granted).session.slots.Valid() by { EmptyValid(); }
    FinishedFrames(env, granted, AllFrames(s));
    FramesOfPart(Transformed(env, granted, chunks).out, TransformedText(env, granted, s).out);
  }

  // ---- the order of a flush ----

  /** The values are for some of the keys, in the order of the keys. */
  predicate InOrder(es: seq<Emission>, keys: seq<string>)
    requires Tails(es)
    decreases |keys|
  {
    if es == [] then true
    else
      assert es[0] in es;
      keys != [] && if es[0].value.key == keys[0] then InOrder(es[1..], keys[1..]) else InOrder(es, keys[1..])
  }

  /** A flush brings out at most one value for each state, in the order the keys came up, in the state's shape. */
  lemma {:induction false} FlushInOrder(env: Env, slots: OMap<string, Slot>, keys: seq<string>, remaining: int)
    requires (forall k :: k in keys ==> k in slots.at) && Distinct(keys)
    ensures var f := FlushSlots(env, slots, keys, remaining);
            f.Flushed? ==>
              && Tails(f.out) && InOrder(f.out, keys)
              && forall e :: e in f.out ==>
                   e.value.key in keys && e.shape == slots.at[e.value.key].shape &&
                   (e.Document? <==> slots.at[e.value.key].json)
    decreases |keys|
  {
    hide Budgeted, Parse, UnmaskEach, Tails, InOrder;
    if keys == [] {
      NothingInOrder();
    } else {
      var rest := keys[1..];
      assert Distinct(rest) && keys[0] !in rest by {
        assert forall i :: 1 <= i < |keys| ==> keys[0] != keys[i];
      }
      var f := FlushSlot(env, keys[0], slots.at[keys[0]], remaining);
      FlushTails(env, slots, keys, remaining);
      if f.Flushed? {
        FlushTails(env, slots, rest, f.remaining);
        FlushInOrder(env, slots, rest, f.remaining);
        var more := FlushSlots(env, slots, rest, f.remaining);
        if more.Flushed? {
          if f.out == [] {
            assert f.out + more.out == more.out;
            NotFirst(more.out, keys);
          } else {
            FirstOf(f.out[0], more.out, keys);
            assert f.out == [f.out[0]];
          }
        }
      }
    }
  }

  lemma NothingInOrder()
    ensures Tails([]) && InOrder([], [])
  {
  }

  lemma NotFirst(es: seq<Emission>, keys: seq<string>)
    requires keys != [] && Tails(es) && InOrder(es, keys[1..])
    requires forall e :: e in es ==> e.value.key in keys[1..] && keys[0] !in keys[1..]
    ensures InOrder(es, keys)
  {
    if es != [] {
      assert es[0] in es;
    }
  }

  lemma FirstOf(e: Emission, es: seq<Emission>, keys: seq<string>)
    requires keys != [] && Tails(es) && InOrder(es, keys[1..]) && (e.Tail? || e.Document?) && e.value.key == keys[0]
    ensures Tails([e] + es) && InOrder([e] + es, keys)
  {
    assert ([e] + es)[1..] == es;
  }

  // ---- terminal frames ----

  /** A terminal frame comes out as it came, behind what every state still held, and no state is left. */
  lemma TerminalFlushes(env: Env, p: Progress, f: Frame) returns (tails: seq<Emission>)
    requires p.session.slots.Valid() && p.failed.None? && Terminal(env, f.text)
    ensures var q := Process(env, p, f);
            q.failed.None? ==>
              && q.out == p.out + tails + [Raw(f)] && Tails(tails) && q.session.slots == Empty()
              && forall k :: TextSlot(p.session.slots, k) ==>
                   Given(tails, k) == Subst(env.rights.Values(), SseFields.Held(p.session.slots, k))
  {
    hide EventOf, FlushSlots, Terminal, Carries, FieldsOf, OMap.Valid, Rights.Values, Subst, Given;
    EventIs(env, f.text);
    KeysListed(p.session.slots);
    var t := FlushSlots(env, p.session.slots, p.session.slots.keys, p.session.remaining);
    tails := [];
    if t.Flushed? {
      tails := t.out;
      FlushTails(env, p.session.slots, p.session.slots.keys, p.session.remaining);
      forall k | TextSlot(p.session.slots, k)
        ensures Given(tails, k) == Subst(env.rights.Values(), SseFields.Held(p.session.slots, k))
      {
        FlushedText(env, p.session.slots, p.session.remaining, k);
      }
    }
  }

  lemma FlushedText(env: Env, slots: OMap<string, Slot>, remaining: int, k: string)
    requires slots.Valid() && TextSlot(slots, k)
    ensures var f := FlushSlots(env, slots, slots.keys, remaining);
            f.Flushed? ==> Given(f.out, k) == Subst(env.rights.Values(), SseFields.Held(slots, k))
  {
    hide FlushSlots, Rights.Values, Subst, Given;
    if k in slots.at {
      FlushGives(env, slots, slots.keys, remaining, k);
    } else {
      FlushOthers(env, slots, slots.keys, remaining, k);
      SubstNone(env.rights);
    }
  }

  /** Behind a terminal frame everything that came in for a text field has been given out. */
  lemma TerminalGives(env: Env, granted: int, before: seq<Frame>, f: Frame, k: string)
    requires Terminal(env, f.text) && Begin(granted).session.slots.Valid()
    requires var frames := before + [f];
             && TextKey(env, frames, k) && LaterSteady(env, frames, k)
             && Steady(env.rights, Parse(Ahead(env, frames, k)), MAX_PLACEHOLDER)
    ensures var q := Run(env, Begin(granted), before + [f]);
            q.failed.None? ==>
              && q.out != [] && q.out[|q.out| - 1] == Raw(f) && q.session.slots == Empty()
              && FramesOf(q.out[..|q.out| - 1]) == before
              && Given(q.out[..|q.out| - 1], k) ==
                 Subst(env.rights.Values(), Ahead(env, before + [f], k)) + Later(env, before + [f], k)
  {
    hide Run, Process, Rights.Values, Subst, Steady, Parse, TextKey, LaterSteady, Ahead, Later, Finished, Terminal,
         OMap.Valid, FramesOf, Given, Apt;
    var frames := before + [f];
    var p, q := Run(env, Begin(granted), before), Run(env, Begin(granted), frames);
    RunAppend(env, Begin(granted), before, [f]);
    RunOne(env, p, f);
    if q.failed.None? {
      if p.failed.Some? {
        ProcessFailed(env, p, f);
      }
      var tails := TerminalFlushes(env, p, f);
      var front := p.out + tails;
      assert q.out == front + [Raw(f)] && q.out[..|q.out| - 1] == front;
      NoFrames();
      RunFrames(env, Begin(granted), before);
      FramesOfAppend(p.out, tails);
      TailsNoFrames(tails);
      assert [] + before + [] == before;
      FinishedEmpty(env, granted, frames);
      ReadyEmpty(env, Ahead(env, frames, k), k);
      RunRestores(env, Begin(granted), frames, k, MAX_PLACEHOLDER);
      RestoresFromStart(env, granted, frames, k);
      GivenAppend(front, [Raw(f)], k);
      GivenOne(Raw(f), k);
      assert Given(front, k) + "" == Given(front, k);
    }
  }

  /** With no state left, the flush at the end adds nothing. */
  lemma FinishedEmpty(env: Env, granted: int, frames: seq<Frame>)
    requires Begin(granted).session.slots.Valid()
    requires var q := Run(env, Begin(granted), frames); q.failed.None? && q.session.slots == Empty()
    ensures var q := Finished(env, Begin(granted), frames);
            q.failed.None? && q.out == Run(env, Begin(granted), frames).out
  {
    hide Run, OMap.Valid;
    var q := Run(env, Begin(granted), frames);
    assert q.out + [] + [] == q.out;
  }

  /**
   In the output of a stream that ends without an error, a terminal frame stands as it came behind what is written
   for all the frames before it, and in that, everything that came in for a text field until then has been given
   out: however the stream arrived in chunks.
   */
  lemma TerminalBefore(env: Env, granted: int, chunks: seq<string>, n: nat, k: string) returns (m: nat)
    requires n < |AllFrames(Join(chunks))| && Terminal(env, AllFrames(Join(chunks))[n].text)
    requires var frames := AllFrames(Join(chunks))[..n + 1];
             && TextKey(env, frames, k) && LaterSteady(env, frames, k)
             && Steady(env.rights, Parse(Ahead(env, frames, k)), MAX_PLACEHOLDER)
    ensures var t, frames := Transformed(env, granted, chunks), AllFrames(Join(chunks));
            t.failed.None? ==>
              && m < |t.out| && t.out[m] == Raw(frames[n]) && FramesOf(t.out[..m]) == frames[..n]
              && Given(t.out[..m], k) ==
                 Subst(env.rights.Values(), Ahead(env, frames[..n + 1], k)) + Later(env, frames[..n + 1], k)
  {
    hide Transformed, TransformedText, AllFrames, FramesOf, Fits, OMap.Valid, Run, FlushAll, Rights.Values, Subst,
         Steady, Parse, TextKey, LaterSteady, Ahead, Later, Terminal, Given;
    var s := Join(chunks);
    var frames := AllFrames(s);
    var f, t := frames[n], Transformed(env, granted, chunks);
    ChunkingInvisible(env, granted, chunks);
    TextFinished(env, granted, s);
    assert Begin(granted).session.slots.Valid() by { EmptyValid(); }
    assert frames[..n + 1] == frames[..n] + [f] && frames == frames[..n + 1] + frames[n + 1..];
    var q := Run(env, Begin(granted), frames[..n + 1]);
    RunAppend(env, Begin(granted), frames[..n + 1], frames[n + 1..]);
    TerminalGives(env, granted, frames[..n], f, k);
    m := 0;
    if t.failed.None? {
      if q.failed.Some? {
        RunFailed(env, q, frames[n + 1..]);
      }
      RunKeepsOut(env, q, frames[n + 1..]);
      FlushKeepsOut(env, Run(env, q, frames[n + 1..]));
      m := |q.out| - 1;
      var r := Run(env, q, frames[n + 1..]);
      assert q.out == r.out[..|q.out|] == t.out[..|r.out|][..|q.out|] == t.out[..|q.out|];
      assert t.out[..m] == t.out[..|q.out|][..m];
    }
  }

  lemma FlushKeepsOut(env: Env, p: Progress)
    requires p.session.slots.Valid()
    ensures p.out <= FlushAll(env, p, []).out
  {
    hide FlushSlots;
  }
}
