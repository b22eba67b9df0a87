/**
 What the stream transformer does with a frame: text fields of its payload are fed to one restorer per
 field key, JSON fields are collected, and a terminal frame flushes what every restorer still holds.

 Two results: the output does not depend on how the text arrived in chunks, and what is given out for a
 text field is the placeholder substitution of everything that came in for it.
 */
module Sse {
  import opened Placeholder
  import opened Streaming
  import opened OrderedMap
  import opened SseFrames
  import opened Wrappers

  const UPSTREAM := "HM-5001"

  /** `shape` is what the provider wraps a value in that is written for the field at a flush. */
  datatype Field = Field(key: string, text: string, json: bool, shape: string)

  /** What the payload of a data line turns out to be. */
  datatype Data = Other | MessageStop | Fields(fields: seq<Field>)

  datatype Event = PassOn | Flush | Feed(fields: seq<Field>)

  datatype Value = Value(key: string, text: string)

  /** What is written: a frame as it came, a frame with new field values, or what a flush brings out. */
  datatype Emission =
    | Raw(frame: Frame)
    | Rewritten(frame: Frame, values: seq<Value>)
    | Tail(value: Value, shape: string)
    | Document(value: Value, shape: string)

  /**
   JSON: `decode` parses a payload, `encode` serialises it with new values in its fields, `wrap` serialises
   a shape around a value; `strings` finds the strings of a document and `rebuild` serialises the document
   with others in their place.
   */
  datatype Codec = Codec(
    decode: string -> Data, encode: (string, seq<string>) -> string, wrap: (string, string) -> string,
    strings: string -> Option<seq<string>>, rebuild: (string, seq<string>) -> string)

  /** The fixed surroundings of a stream; `over` is the buffer limit. */
  datatype Env = Env(rights: Rights, codec: Codec, over: string -> bool, maxStates: nat)

  // ---- frames to events ----

  function Lines(s: string): (ls: seq<string>)
    ensures |ls| >= 1
    decreases |s|
  {
    if s == "" then [""]
    else
      var n := LineEnd(s);
      if n > 0 then [""] + Lines(s[n..])
      else
        var ls := Lines(s[1..]);
        [[s[0]] + ls[0]] + ls[1..]
  }

  /** White space and line terminators as the program's regular expressions have them. */
  predicate IsSpace(c: char) {
    || c in " \t\n\r\U{b}\U{c}\U{a0}\U{1680}\U{202f}\U{205f}\U{3000}\U{feff}"
    || '\U{2000}' <= c <= '\U{200a}' || IsTerminator(c)
  }

  predicate IsTerminator(c: char) {
    c in "\n\r\U{2028}\U{2029}"
  }

  /** Where the first data line is; the number of lines if there is none. */
  function DataIndex(lines: seq<string>): (i: nat)
    ensures i <= |lines| && (i < |lines| ==> "data:" <= lines[i])
  {
    if lines == [] || "data:" <= lines[0] then 0 else 1 + DataIndex(lines[1..])
  }

  /** `data:` with one white-space character if there is one. */
  function Prefix(line: string): (p: string)
    requires "data:" <= line
    ensures p <= line
  {
    if |line| > 5 && IsSpace(line[5]) then line[..6] else line[..5]
  }

  /** The payload of the first data line, if that line has one. */
  function Payload(lines: seq<string>): Option<string> {
    var i := DataIndex(lines);
    if i == |lines| then None
    else
      var payload := lines[i][|Prefix(lines[i])|..];
      if exists j :: 0 <= j < |payload| && IsTerminator(payload[j]) then None else Some(payload)
  }

  function EventOf(env: Env, frame: string): Event {
    match Payload(Lines(frame))
    case None => PassOn
    case Some(payload) =>
      if payload == "[DONE]" then Flush
      else match env.codec.decode(payload) {
        case Other => PassOn
        case MessageStop => Flush
        case Fields(fields) => Feed(fields)
      }
  }

  // ---- one frame ----

  /** A field's state: what its restorer holds back, or what has been collected of its document; its latest shape. */
  datatype Slot = Slot(json: bool, buffer: string, shape: string)

  datatype Session = Session(slots: OMap<string, Slot>, remaining: int)

  datatype Step = Failed(code: string) | Went(session: Session, text: string)

  function SlotFor(env: Env, slots: OMap<string, Slot>, f: Field): Option<Slot> {
    if f.key in slots.at then Some(slots.at[f.key])
    else if |slots.keys| >= env.maxStates then None
    else Some(Slot(f.json, "", f.shape))
  }

  function PushField(env: Env, st: Session, f: Field): Step {
    match SlotFor(env, st.slots, f)
    case None => Failed(UPSTREAM)
    case Some(slot) =>
      var text := slot.buffer + f.text;
      if slot.json then
        if env.over(text) then Failed(UPSTREAM)
        else Went(st.(slots := st.slots.Set(f.key, Slot(true, text, f.shape))), "")
      else
        var d := Drain(env.rights, text, st.remaining);
        if d.Refused? then Failed(LIMIT_EXCEEDED)
        else Went(Session(st.slots.Set(f.key, Slot(false, d.buffer, f.shape)), d.remaining), d.out)
  }

  datatype Pushed = PushFailed(code: string) | Pushed(session: Session, values: seq<Value>)

  function PushFields(env: Env, st: Session, fields: seq<Field>): Pushed
    decreases |fields|
  {
    if fields == [] then Pushed(st, [])
    else
      match PushField(env, st, fields[0])
      case Failed(code) => PushFailed(code)
      case Went(next, text) => WithValue(Value(fields[0].key, text), PushFields(env, next, fields[1..]))
  }

  function WithValue(v: Value, p: Pushed): Pushed {
    if p.Pushed? then p.(values := [v] + p.values) else p
  }

  datatype Flushing = FlushFailed(code: string) | Flushed(remaining: int, out: seq<Emission>)

  /** Several texts unmasked one after the other: all of them and the budget left, or the limit error. */
  datatype Texts = OverBudget | Texts(outs: seq<string>, remaining: int)

  function UnmaskEach(r: Rights, texts: seq<string>, remaining: int): Texts {
    if texts == [] then Texts([], remaining)
    else
      match Stream(r, "", remaining, [texts[0]])
      case Limit => OverBudget
      case Done(out, left) => WithText(out, UnmaskEach(r, texts[1..], left))
  }

  function WithText(out: string, t: Texts): Texts {
    if t.Texts? then t.(outs := [out] + t.outs) else t
  }

  function Costs(r: Rights, texts: seq<string>): nat {
    if texts == [] then 0 else Cost(r, texts[0]) + Costs(r, texts[1..])
  }

  function Substituted(r: Rights, texts: seq<string>): seq<string> {
    seq(|texts|, i requires 0 <= i < |texts| => Subst(r.Values(), texts[i]))
  }

  /** Each text has its own cost, so whether the budget covers them does not depend on their order. */
  lemma {:induction false} UnmaskEachMeans(r: Rights, texts: seq<string>, remaining: int)
    ensures UnmaskEach(r, texts, remaining) ==
            if Costs(r, texts) == 0 || Costs(r, texts) <= remaining
            then Texts(Substituted(r, texts), remaining - Costs(r, texts)) else OverBudget
  {
    hide Stream, Cost, Subst, Rights.Values;
    if texts != [] {
      OneShotCosts(r, texts[0], remaining);
      UnmaskEachMeans(r, texts[1..], remaining - Cost(r, texts[0]));
      assert Substituted(r, texts) == [Subst(r.Values(), texts[0])] + Substituted(r, texts[1..]);
    }
  }

  lemma {:induction false} CostsAppend(r: Rights, a: seq<string>, b: seq<string>)
    ensures Costs(r, a + b) == Costs(r, a) + Costs(r, b)
  {
    if a == [] {
      assert a + b == b;
    } else {
      assert (a + b)[1..] == a[1..] + b;
      CostsAppend(r, a[1..], b);
    }
  }

  /** A collected document with every string in it restored. */
  function FlushDocument(env: Env, k: string, slot: Slot, remaining: int): Flushing {
    if slot.buffer == "" then Flushed(remaining, [])
    else
      match env.codec.strings(slot.buffer)
      case None => FlushFailed(UPSTREAM)
      case Some(texts) =>
        match UnmaskEach(env.rights, texts, remaining) {
          case OverBudget => FlushFailed(LIMIT_EXCEEDED)
          case Texts(outs, left) =>
            Flushed(left, [Document(Value(k, env.codec.rebuild(slot.buffer, outs)), slot.shape)])
        }
  }

  /** What one state still holds. */
  function FlushSlot(env: Env, k: string, slot: Slot, remaining: int): Flushing {
    if slot.json then FlushDocument(env, k, slot, remaining)
    else
      match Budgeted(env.rights, Parse(slot.buffer), remaining)
      case Limit => FlushFailed(LIMIT_EXCEEDED)
      case Done(tail, left) => Flushed(left, if tail == "" then [] else [Tail(Value(k, tail), slot.shape)])
  }

  /** What the states of `keys` still hold, in order. */
  function FlushSlots(env: Env, slots: OMap<string, Slot>, keys: seq<string>, remaining: int): Flushing
    requires forall k :: k in keys ==> k in slots.at
    decreases |keys|
  {
    if keys == [] then Flushed(remaining, [])
    else
      match FlushSlot(env, keys[0], slots.at[keys[0]], remaining)
      case FlushFailed(code) => FlushFailed(code)
      case Flushed(left, es) => Before(es, FlushSlots(env, slots, keys[1..], left))
  }

  function Before(es: seq<Emission>, f: Flushing): Flushing {
    if f.Flushed? then f.(out := es + f.out) else f
  }

  /** What was given out so far, and where the stream stands: in a session, or ended by an error. */
  datatype Progress = Progress(out: seq<Emission>, session: Session, failed: Option<string>)

  function Begin(granted: int): Progress {
    Progress([], Session(Empty(), granted), None)
  }

  function FlushAll(env: Env, p: Progress, last: seq<Emission>): Progress
    requires p.session.slots.Valid()
  {
    match FlushSlots(env, p.session.slots, p.session.slots.keys, p.session.remaining)
    case FlushFailed(code) => p.(failed := Some(code))
    case Flushed(left, tails) => Progress(p.out + tails + last, Session(Empty(), left), None)
  }

  function Process(env: Env, p: Progress, f: Frame): Progress
    requires p.session.slots.Valid()
  {
    if p.failed.Some? then p
    else
      match EventOf(env, f.text)
      case PassOn => p.(out := p.out + [Raw(f)])
      case Flush => FlushAll(env, p, [Raw(f)])
      case Feed(fields) =>
        match PushFields(env, p.session, fields) {
          case PushFailed(code) => p.(failed := Some(code))
          case Pushed(st, values) => Progress(p.out + [Rewritten(f, values)], st, None)
        }
  }

  lemma {:induction false} PushFieldsValid(env: Env, st: Session, fields: seq<Field>)
    requires st.slots.Valid()
    ensures PushFields(env, st, fields).Pushed? ==> PushFields(env, st, fields).session.slots.Valid()
    decreases |fields|
  {
    hide OMap.Valid, OMap.Set, Drain;
    if fields != [] {
      var s := PushField(env, st, fields[0]);
      if s.Went? {
        var slot := SlotFor(env, st.slots, fields[0]).value;
        var text := slot.buffer + fields[0].text;
        SetValid(st.slots, fields[0].key,
                 if slot.json then Slot(true, text, fields[0].shape)
                 else Slot(false, Drain(env.rights, text, st.remaining).buffer, fields[0].shape));
        PushFieldsValid(env, s.session, fields[1..]);
      }
    }
  }

  lemma ProcessValid(env: Env, p: Progress, f: Frame)
    requires p.session.slots.Valid()
    ensures Process(env, p, f).session.slots.Valid()
  {
    hide EventOf, PushFields, FlushSlots;
    var e := EventOf(env, f.text);
    if e.Feed? {
      PushFieldsValid(env, p.session, e.fields);
    }
  }

  function Run(env: Env, p: Progress, frames: seq<Frame>): (q: Progress)
    requires p.session.slots.Valid()
    ensures q.session.slots.Valid()
    decreases |frames|
  {
    if frames == [] then p
    else
      ProcessValid(env, p, frames[0]);
      Run(env, Process(env, p, frames[0]), frames[1..])
  }

  /** The end of the source: what is still pending counts as a frame, then everything is flushed. */
  function Closing(env: Env, p: Progress, pending: string): Progress
    requires p.session.slots.Valid()
  {
    ProcessValid(env, p, Frame(pending, ""));
    var q := if pending == "" then p else Process(env, p, Frame(pending, ""));
    if q.failed.Some? then q else FlushAll(env, q, [])
  }

  // ---- a whole stream ----

  datatype Point = Point(progress: Progress, pending: string)

  function RunChunks(env: Env, at: Point, chunks: seq<string>): (q: Point)
    requires at.progress.session.slots.Valid()
    ensures q.progress.session.slots.Valid()
    decreases |chunks|
  {
    if chunks == [] || at.progress.failed.Some? then at
    else
      var buffer := at.pending + chunks[0];
      if env.over(buffer) then Point(at.progress.(failed := Some(UPSTREAM)), buffer)
      else
        var c := Frames(buffer);
        RunChunks(env, Point(Run(env, at.progress, c.frames), c.rest), chunks[1..])
  }

  function Transformed(env: Env, granted: int, chunks: seq<string>): Progress {
    var q := RunChunks(env, Point(Begin(granted), ""), chunks);
    Closing(env, q.progress, q.pending)
  }

  /** The same for a text that is all there at once and is not held against the limit. */
  function TransformedText(env: Env, granted: int, s: string): Progress {
    var c := Frames(s);
    Closing(env, Run(env, Begin(granted), c.frames), c.rest)
  }

  lemma {:induction false} RunAppend(env: Env, p: Progress, a: seq<Frame>, b: seq<Frame>)
    requires p.session.slots.Valid()
    ensures Run(env, p, a + b) == Run(env, Run(env, p, a), b)
    decreases |a|
  {
    hide Process, OMap.Valid;
    if a == [] {
      assert a + b == b;
    } else {
      ProcessValid(env, p, a[0]);
      assert (a + b)[1..] == a[1..] + b;
      RunAppend(env, Process(env, p, a[0]), a[1..], b);
    }
  }

  lemma {:induction false} RunFailed(env: Env, p: Progress, frames: seq<Frame>)
    requires p.session.slots.Valid() && p.failed.Some?
    ensures Run(env, p, frames) == p
  {
    if frames != [] {
      RunFailed(env, p, frames[1..]);
    }
  }

  /** What was given out stays given out. */
  lemma ProcessKeepsOut(env: Env, p: Progress, f: Frame)
    requires p.session.slots.Valid()
    ensures p.out <= Process(env, p, f).out
  {
    hide EventOf, PushFields, FlushSlots;
  }

  lemma {:induction false} RunKeepsOut(env: Env, p: Progress, frames: seq<Frame>)
    requires p.session.slots.Valid()
    ensures p.out <= Run(env, p, frames).out
    decreases |frames|
  {
    hide Process;
    if frames != [] {
      ProcessValid(env, p, frames[0]);
      ProcessKeepsOut(env, p, frames[0]);
      RunKeepsOut(env, Process(env, p, frames[0]), frames[1..]);
    }
  }

  lemma EndKeepsOut(env: Env, p: Progress, pending: string)
    requires p.session.slots.Valid()
    ensures p.out <= Closing(env, p, pending).out
    ensures p.failed.Some? ==> Closing(env, p, pending) == p
  {
    hide Process, FlushSlots;
    ProcessValid(env, p, Frame(pending, ""));
    ProcessKeepsOut(env, p, Frame(pending, ""));
    if p.failed.Some? {
      ProcessFailed(env, p, Frame(pending, ""));
    }
  }

  lemma ProcessFailed(env: Env, p: Progress, f: Frame)
    requires p.session.slots.Valid() && p.failed.Some?
    ensures Process(env, p, f) == p
  {
  }

  /** As `Closing` but from a text of which only the first part has been processed. */
  function Completed(env: Env, at: Point, more: string): Progress
    requires at.progress.session.slots.Valid()
  {
    var c := Frames(at.pending + more);
    Closing(env, Run(env, at.progress, c.frames), c.rest)
  }

  lemma {:induction false} RunChunksMeans(env: Env, at: Point, chunks: seq<string>)
    requires at.progress.session.slots.Valid() && Frames(at.pending) == Cutting([], at.pending)
    ensures var q := RunChunks(env, at, chunks);
            var t, whole := Closing(env, q.progress, q.pending), Completed(env, at, Join(chunks));
            if at.progress.failed.Some? then t == whole == at.progress
            else if Fits(env.over, at.pending, chunks) then t == whole
            else t.failed.Some? && t.out <= whole.out
    decreases |chunks|
  {
    hide Frames, Process, Closing, OMap.Valid, Fits, Run;
    var p := at.progress;
    var c := Frames(at.pending + Join(chunks));
    if p.failed.Some? {
      RunFailed(env, p, c.frames);
      EndKeepsOut(env, p, at.pending);
      EndKeepsOut(env, p, c.rest);
    } else if chunks == [] {
      assert at.pending + Join(chunks) == at.pending;
      assert Run(env, p, []) == p by { RunNone(env, p); }
      FitsNone(env.over, at.pending);
    } else {
      var buffer, more := at.pending + chunks[0], Join(chunks[1..]);
      assert at.pending + Join(chunks) == buffer + more;
      FitsNext(env.over, at.pending, chunks);
      if env.over(buffer) {
        RunKeepsOut(env, p, c.frames);
        EndKeepsOut(env, Run(env, p, c.frames), c.rest);
        EndKeepsOut(env, p.(failed := Some(UPSTREAM)), buffer);
      } else {
        var d := Frames(buffer);
        var next := Point(Run(env, p, d.frames), d.rest);
        RestHolds(buffer);
        RunChunksMeans(env, next, chunks[1..]);
        FramesAppend(buffer, more);
        RunAppend(env, p, d.frames, Frames(d.rest + more).frames);
      }
    }
  }

  lemma RunNone(env: Env, p: Progress)
    requires p.session.slots.Valid()
    ensures Run(env, p, []) == p
  {
  }

  lemma FitsNone(over: string -> bool, pending: string)
    ensures Fits(over, pending, [])
  {
  }

  /**
   The frames found, what is written for them, the errors raised and the budget left are the same for
   every way of cutting the text into chunks, as long as no chunk makes the pending text too long; if
   one does, the stream ends in an error after a part of that same output.
   */
  lemma ChunkingInvisible(env: Env, granted: int, chunks: seq<string>)
    ensures var t, whole := Transformed(env, granted, chunks), TransformedText(env, granted, Join(chunks));
            if Fits(env.over, "", chunks) then t == whole
            else t.failed.Some? && t.out <= whole.out
  {
    hide Frames, Process, Closing, OMap.Valid, Fits, Run, RunChunks;
    assert Begin(granted).session.slots.Valid() by { EmptyValid(); }
    FramesNone();
    RunChunksMeans(env, Point(Begin(granted), ""), chunks);
    assert "" + Join(chunks) == Join(chunks);
  }

  lemma EmptyValid()
    ensures Empty<string, Slot>().Valid()
  {
  }

  lemma FramesNone()
    ensures Frames("") == Cutting([], "")
  {
  }
}
