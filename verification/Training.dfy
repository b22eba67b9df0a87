/**
 The resumable training loop: which samples each optimizer step sees, when it stops and what it
 checkpoints. The model with its optimizer, random and validation state is one opaque value.

 `ResumedRun` says when a run resumed from a checkpoint does exactly what the first run had left to do.
 */
module Training {
  import opened Wrappers

  datatype TrainingProgress = TrainingProgress(
    epochIndex: nat, nextSampleOffset: nat, globalStep: nat, lossSum: real, lossCount: nat, finalLoss: Option<real>)

  /** Moves the end of an epoch to the start of the next one. */
  function NormalizedProgress(p: TrainingProgress, examples: nat): TrainingProgress {
    if p.nextSampleOffset >= examples then p.(epochIndex := p.epochIndex + 1, nextSampleOffset := 0) else p
  }

  /** What a checkpoint holds. */
  datatype State<M> = State(model: M, progress: TrainingProgress)

  /**
   What a run depends on: `indices` is the sampler, `learn` one optimizer step with its loss, `validate` a
   validation pass, and `asked` whether the validations without improvement have used up the patience.
   */
  datatype Setup<!M> = Setup(
    examples: nat, batchSize: nat, epochs: nat, indices: nat -> seq<nat>,
    learn: (M, seq<nat>) -> (M, real), validate: (M, nat) -> M, asked: M -> bool,
    validating: bool, validationEvery: nat)

  /** What may be chosen afresh when a run is resumed. */
  datatype Limits = Limits(maxSteps: Option<nat>, checkpointEvery: nat)

  datatype Stop = MaxSteps | EarlyStopping

  datatype Trace<M> = Trace(batches: seq<seq<nat>>, checkpoints: seq<State<M>>, end: State<M>, stopped: Option<Stop>)

  ghost predicate Valid<M>(s: Setup<M>, l: Limits) {
    && s.examples >= 1 && s.batchSize >= 1 && s.validationEvery >= 1 && l.checkpointEvery >= 1
    && forall e :: |s.indices(e)| == s.examples
  }

  function Min(a: int, b: int): int {
    if a < b then a else b
  }

  // ---- one optimizer step ----

  predicate Open<M>(s: Setup<M>, st: State<M>) {
    st.progress.epochIndex < s.epochs && st.progress.nextSampleOffset < s.examples
  }

  function Batch<M>(s: Setup<M>, st: State<M>): seq<nat>
    requires Open(s, st) && |s.indices(st.progress.epochIndex)| == s.examples
  {
    var p := st.progress;
    s.indices(p.epochIndex)[p.nextSampleOffset..Min(s.examples, p.nextSampleOffset + s.batchSize)]
  }

  predicate Due<M>(s: Setup<M>, step: nat)
    requires s.validationEvery >= 1
  {
    s.validating && step % s.validationEvery == 0
  }

  /** The state behind the step and whether validation asked to stop. */
  function Advance<M>(s: Setup<M>, st: State<M>): (State<M>, bool)
    requires Open(s, st) && |s.indices(st.progress.epochIndex)| == s.examples && s.validationEvery >= 1
  {
    var p := st.progress;
    var (learnt, loss) := s.learn(st.model, Batch(s, st));
    var next := NormalizedProgress(
      TrainingProgress(p.epochIndex, Min(s.examples, p.nextSampleOffset + s.batchSize), p.globalStep + 1,
                       p.lossSum + loss, p.lossCount + 1, Some(loss)), s.examples);
    if Due(s, next.globalStep) then
      var validated := s.validate(learnt, next.globalStep);
      (State(validated, next), s.asked(validated))
    else (State(learnt, next), false)
  }

  predicate MaxReached(l: Limits, step: nat) {
    l.maxSteps.Some? && step >= l.maxSteps.value
  }

  function Reason(l: Limits, step: nat, early: bool): Option<Stop> {
    if MaxReached(l, step) then Some(MaxSteps) else if early then Some(EarlyStopping) else None
  }

  predicate Saves<M>(s: Setup<M>, l: Limits, step: nat, stopped: Option<Stop>)
    requires s.validationEvery >= 1 && l.checkpointEvery >= 1
  {
    step % l.checkpointEvery == 0 || Due(s, step) || stopped.Some?
  }

  /** Batches still to come: a bound that every step lowers. */
  function Left<M>(s: Setup<M>, st: State<M>): int {
    (s.epochs - st.progress.epochIndex) * (s.examples + 1) - st.progress.nextSampleOffset
  }

  lemma AdvanceLowers<M>(s: Setup<M>, l: Limits, st: State<M>)
    requires Valid(s, l) && Open(s, st)
    ensures var n := Advance(s, st).0;
            && Left(s, n) < Left(s, st) && Left(s, st) >= 0 && n.progress.globalStep == st.progress.globalStep + 1
            && n.progress.nextSampleOffset < s.examples
  {
    OneLess(s.epochs - st.progress.epochIndex, s.examples + 1);
  }

  lemma OneLess(k: int, x: nat)
    ensures k * x == (k - 1) * x + x && (k >= 1 ==> k * x >= x)
  {
  }

  // ---- a run ----

  function Prepend<M>(batch: seq<nat>, saved: seq<State<M>>, t: Trace<M>): Trace<M> {
    Trace([batch] + t.batches, saved + t.checkpoints, t.end, t.stopped)
  }

  function Run<M>(s: Setup<M>, l: Limits, st: State<M>): Trace<M>
    requires Valid(s, l)
    decreases Left(s, st) + 1
  {
    if !Open(s, st) then Trace([], [], st, None)
    else
      AdvanceLowers(s, l, st);
      var (next, early) := Advance(s, st);
      var stopped := Reason(l, next.progress.globalStep, early);
      Prepend(Batch(s, st), if Saves(s, l, next.progress.globalStep, stopped) then [next] else [],
              if stopped.Some? then Trace([], [], next, stopped) else Run(s, l, next))
  }

  /** A run that begins with `st`, fresh or resumed. */
  function Started<M>(s: Setup<M>, l: Limits, st: State<M>): Trace<M>
    requires Valid(s, l)
  {
    if MaxReached(l, st.progress.globalStep) then Trace([], [], st, Some(MaxSteps)) else Run(s, l, st)
  }

  /** What is done so far, and what a run from here would do. */
  ghost function Continued<M>(s: Setup<M>, l: Limits, batches: seq<seq<nat>>, checkpoints: seq<State<M>>,
                              st: State<M>): Trace<M>
    requires Valid(s, l)
  {
    var t := Run(s, l, st);
    Trace(batches + t.batches, checkpoints + t.checkpoints, t.end, t.stopped)
  }

  lemma RunNext<M>(s: Setup<M>, l: Limits, st: State<M>)
    requires Valid(s, l) && Open(s, st)
    ensures var (next, early) := Advance(s, st);
            var stopped := Reason(l, next.progress.globalStep, early);
            Run(s, l, st) ==
            Prepend(Batch(s, st), if Saves(s, l, next.progress.globalStep, stopped) then [next] else [],
                    if stopped.Some? then Trace([], [], next, stopped) else Run(s, l, next))
  {
    hide Advance, Batch, Saves;
  }

  lemma ContinuedNext<M>(s: Setup<M>, l: Limits, batches: seq<seq<nat>>, checkpoints: seq<State<M>>, st: State<M>)
    requires Valid(s, l) && Open(s, st)
    ensures var (next, early) := Advance(s, st);
            var stopped := Reason(l, next.progress.globalStep, early);
            var done := batches + [Batch(s, st)];
            var saved := checkpoints + if Saves(s, l, next.progress.globalStep, stopped) then [next] else [];
            Continued(s, l, batches, checkpoints, st) ==
            if stopped.Some? then Trace(done, saved, next, stopped) else Continued(s, l, done, saved, next)
  {
    hide Advance, Batch, Saves, Run;
    RunNext(s, l, st);
    var (next, early) := Advance(s, st);
    var stopped := Reason(l, next.progress.globalStep, early);
    var saved := if Saves(s, l, next.progress.globalStep, stopped) then [next] else [];
    var t := if stopped.Some? then Trace([], [], next, stopped) else Run(s, l, next);
    assert batches + ([Batch(s, st)] + t.batches) == batches + [Batch(s, st)] + t.batches;
    assert checkpoints + (saved + t.checkpoints) == checkpoints + saved + t.checkpoints;
    if stopped.Some? {
      assert batches + [Batch(s, st)] + [] == batches + [Batch(s, st)];
      assert checkpoints + saved + [] == checkpoints + saved;
    }
  }

  method Train<M>(s: Setup<M>, l: Limits, resumed: State<M>) returns (t: Trace<M>)
    requires Valid(s, l) && resumed.progress.nextSampleOffset < s.examples
    ensures t == Started(s, l, resumed)
  {
    hide Run, Advance;
    var batches: seq<seq<nat>>, checkpoints: seq<State<M>>, st := [], [], resumed;
    var stopped := if MaxReached(l, st.progress.globalStep) then Some(MaxSteps) else None;
    var epochIndex := st.progress.epochIndex;
    NothingDone(s, l, resumed);
    while epochIndex < s.epochs && stopped.None?
      invariant stopped.None? ==> st.progress.epochIndex == epochIndex || (epochIndex >= s.epochs && !Open(s, st))
      invariant st.progress.nextSampleOffset < s.examples
      invariant if stopped.Some? then Started(s, l, resumed) == Trace(batches, checkpoints, st, stopped)
                else Started(s, l, resumed) == Continued(s, l, batches, checkpoints, st)
      decreases s.epochs - epochIndex, stopped.None?
    {
      var offset := st.progress.nextSampleOffset;
      var remaining := s.indices(epochIndex)[offset..];
      var at := 0;
      ghost var begin := offset;
      while at < |remaining| && stopped.None?
        invariant 0 <= at <= |remaining| && |s.indices(epochIndex)| == s.examples
        invariant remaining == s.indices(epochIndex)[begin..]
        invariant offset == begin + at
        invariant st.progress.nextSampleOffset < s.examples
        invariant stopped.None? && at < |remaining| ==>
                    st.progress.epochIndex == epochIndex && st.progress.nextSampleOffset == offset
        invariant stopped.None? && at == |remaining| ==> st.progress.epochIndex == epochIndex + 1
        invariant if stopped.Some? then Started(s, l, resumed) == Trace(batches, checkpoints, st, stopped)
                  else Started(s, l, resumed) == Continued(s, l, batches, checkpoints, st)
        decreases |remaining| - at, stopped.None?
      {
        var batch := remaining[at..Min(|remaining|, at + s.batchSize)];
        assert batch == Batch(s, st);
        ContinuedNext(s, l, batches, checkpoints, st);
        AdvanceMoves(s, l, st);
        ghost var next := Advance(s, st);
        var p := st.progress;
        var (learnt, loss) := s.learn(st.model, batch);
        var nextOffset := Min(s.examples, offset + s.batchSize);
        var progress := NormalizedProgress(
          TrainingProgress(epochIndex, nextOffset, p.globalStep + 1, p.lossSum + loss, p.lossCount + 1, Some(loss)),
          s.examples);
        offset := nextOffset;
        var due, early := Due(s, progress.globalStep), false;
        if due {
          learnt := s.validate(learnt, progress.globalStep);
          early := s.asked(learnt);
        }
        AdvanceIs(s, st, State(learnt, progress), early);
        st := State(learnt, progress);
        batches := batches + [batch];
        stopped := Reason(l, progress.globalStep, early);
        if progress.globalStep % l.checkpointEvery == 0 || due || stopped.Some? {
          checkpoints := checkpoints + [st];
        } else {
          assert checkpoints + [] == checkpoints;
        }
        at := Min(|remaining|, at + s.batchSize);
      }
      if stopped.None? {
        epochIndex := epochIndex + 1;
      }
    }
    RunOver(s, l, batches, checkpoints, st);
    t := Trace(batches, checkpoints, st, stopped);
  }

  lemma NothingDone<M>(s: Setup<M>, l: Limits, st: State<M>)
    requires Valid(s, l)
    ensures Continued(s, l, [], [], st) == Run(s, l, st)
  {
    var t := Run(s, l, st);
    assert [] + t.batches == t.batches && [] + t.checkpoints == t.checkpoints;
  }

  lemma RunOver<M>(s: Setup<M>, l: Limits, batches: seq<seq<nat>>, checkpoints: seq<State<M>>, st: State<M>)
    requires Valid(s, l)
    ensures !Open(s, st) ==> Continued(s, l, batches, checkpoints, st) == Trace(batches, checkpoints, st, None)
  {
    if !Open(s, st) {
      assert batches + [] == batches && checkpoints + [] == checkpoints;
    }
  }

  lemma AdvanceMoves<M>(s: Setup<M>, l: Limits, st: State<M>)
    requires Valid(s, l) && Open(s, st)
    ensures var p, n := st.progress, Advance(s, st).0.progress;
            if p.nextSampleOffset + s.batchSize < s.examples
            then n.epochIndex == p.epochIndex && n.nextSampleOffset == p.nextSampleOffset + s.batchSize
            else n.epochIndex == p.epochIndex + 1 && n.nextSampleOffset == 0
  {
  }

  lemma AdvanceIs<M>(s: Setup<M>, st: State<M>, next: State<M>, early: bool)
    requires Open(s, st) && |s.indices(st.progress.epochIndex)| == s.examples && s.validationEvery >= 1
    requires var p := st.progress;
             var (learnt, loss) := s.learn(st.model, Batch(s, st));
             && next.progress == NormalizedProgress(
                  TrainingProgress(p.epochIndex, Min(s.examples, p.nextSampleOffset + s.batchSize), p.globalStep + 1,
                                   p.lossSum + loss, p.lossCount + 1, Some(loss)), s.examples)
             && next.model == (if Due(s, next.progress.globalStep) then s.validate(learnt, next.progress.globalStep)
                               else learnt)
             && early == (Due(s, next.progress.globalStep) && s.asked(next.model))
    ensures Advance(s, st) == (next, early)
  {
  }

  // ---- counting steps ----

  /** Batches in an epoch: the examples divided by the batch size, rounded up. */
  function PerEpoch<M>(s: Setup<M>): nat
    requires s.batchSize >= 1
  {
    (s.examples + s.batchSize - 1) / s.batchSize
  }

  /** The offset is at a batch boundary and the steps are counted right. */
  predicate Aligned<M>(s: Setup<M>, st: State<M>)
    requires s.batchSize >= 1
  {
    var p := st.progress;
    && p.nextSampleOffset < s.examples && p.nextSampleOffset % s.batchSize == 0
    && p.globalStep == p.epochIndex * PerEpoch(s) + p.nextSampleOffset / s.batchSize
    && (p.epochIndex <= s.epochs && (p.epochIndex == s.epochs ==> p.nextSampleOffset == 0))
  }

  lemma NextMultiple(offset: nat, b: nat)
    requires b >= 1 && offset % b == 0
    ensures (offset + b) % b == 0 && (offset + b) / b == offset / b + 1
  {
    var q := offset / b;
    assert offset + b == b * (q + 1) + 0 by {
      assert offset == b * q;
    }
    Quotient(q + 1, b, 0);
  }

  lemma LastBatch(offset: nat, b: nat, n: nat)
    requires b >= 1 && offset % b == 0 && offset < n <= offset + b
    ensures (n + b - 1) / b == offset / b + 1
  {
    var q := offset / b;
    assert n + b - 1 == b * (q + 1) + (n - 1 - offset) by {
      assert offset == b * q;
    }
    Quotient(q + 1, b, n - 1 - offset);
  }

  lemma Quotient(q: int, b: int, r: int)
    requires b >= 1 && 0 <= r < b
    ensures (b * q + r) / b == q && (b * q + r) % b == r
  {
    var m := b * q + r;
    var d := m / b;
    Apart(b, q - d);
    assert b * (q - d) == b * q - b * d;
    assert m == b * d + m % b;
  }

  lemma Apart(b: int, k: int)
    requires b >= 1
    ensures k >= 1 ==> b * k >= b
    ensures k <= -1 ==> b * k <= -b
  {
  }

  lemma AdvanceAligned<M>(s: Setup<M>, l: Limits, st: State<M>)
    requires Valid(s, l) && Open(s, st) && Aligned(s, st)
    ensures Aligned(s, Advance(s, st).0)
  {
    hide Advance;
    var p, n := st.progress, Advance(s, st).0.progress;
    AdvanceMoves(s, l, st);
    AdvanceLowers(s, l, st);
    if p.nextSampleOffset + s.batchSize < s.examples {
      NextMultiple(p.nextSampleOffset, s.batchSize);
    } else {
      LastBatch(p.nextSampleOffset, s.batchSize, s.examples);
      OneLess(n.epochIndex, PerEpoch(s));
      assert 0 % s.batchSize == 0 && 0 / s.batchSize == 0 by { Quotient(0, s.batchSize, 0); }
    }
  }

  /**
   In every checkpoint and at the end the steps are the epochs done times the batches of an epoch plus
   the batches done in this one; a run that is not stopped has done all the steps there are.
   */
  lemma {:induction false} StepsCounted<M>(s: Setup<M>, l: Limits, st: State<M>)
    requires Valid(s, l) && Aligned(s, st)
    ensures var t := Run(s, l, st);
            && (forall c :: c in t.checkpoints ==> Aligned(s, c))
            && Aligned(s, t.end)
            && t.end.progress.globalStep == st.progress.globalStep + |t.batches|
            && (t.stopped.None? ==> t.end.progress.globalStep == s.epochs * PerEpoch(s))
    decreases Left(s, st) + 1
  {
    hide Advance, Run, Aligned, Batch;
    AlignedMeans(s, st);
    if Open(s, st) {
      var (next, early) := Advance(s, st);
      AdvanceAligned(s, l, st);
      AdvanceLowers(s, l, st);
      RunNext(s, l, st);
      if Reason(l, next.progress.globalStep, early).None? {
        StepsCounted(s, l, next);
      }
    } else {
      RunClosed(s, l, st);
    }
  }

  lemma AlignedMeans<M>(s: Setup<M>, st: State<M>)
    requires s.batchSize >= 1 && Aligned(s, st)
    ensures st.progress.nextSampleOffset < s.examples
    ensures !Open(s, st) ==> st.progress.globalStep == s.epochs * PerEpoch(s)
  {
    Quotient(0, s.batchSize, 0);
  }

  lemma RunClosed<M>(s: Setup<M>, l: Limits, st: State<M>)
    requires Valid(s, l) && !Open(s, st)
    ensures Run(s, l, st) == Trace([], [], st, None)
  {
  }

  // ---- every sample once an epoch ----

  function Flat(batches: seq<seq<nat>>): seq<nat> {
    if batches == [] then [] else batches[0] + Flat(batches[1..])
  }

  /** What the sampler has for the epochs from `e` on. */
  function Epochs<M>(s: Setup<M>, e: nat): seq<nat>
    decreases s.epochs - e
  {
    if e >= s.epochs then [] else s.indices(e) + Epochs(s, e + 1)
  }

  function Ahead<M>(s: Setup<M>, st: State<M>): seq<nat>
    requires Open(s, st) ==> |s.indices(st.progress.epochIndex)| == s.examples
  {
    if !Open(s, st) then []
    else s.indices(st.progress.epochIndex)[st.progress.nextSampleOffset..] + Epochs(s, st.progress.epochIndex + 1)
  }

  lemma AheadAtStart<M>(s: Setup<M>, l: Limits, st: State<M>)
    requires Valid(s, l) && st.progress.nextSampleOffset == 0
    ensures Ahead(s, st) == Epochs(s, st.progress.epochIndex)
  {
    if Open(s, st) {
      var idx := s.indices(st.progress.epochIndex);
      assert idx[0..] == idx;
    }
  }

  lemma AheadNext<M>(s: Setup<M>, l: Limits, st: State<M>)
    requires Valid(s, l) && Open(s, st)
    ensures Ahead(s, st) == Batch(s, st) + Ahead(s, Advance(s, st).0)
  {
    hide Advance, Epochs;
    AdvanceMoves(s, l, st);
    var p, next := st.progress, Advance(s, st).0;
    var idx, more := s.indices(p.epochIndex), Epochs(s, p.epochIndex + 1);
    if p.nextSampleOffset + s.batchSize < s.examples {
      assert idx[p.nextSampleOffset..] == Batch(s, st) + idx[p.nextSampleOffset + s.batchSize..];
      assert Batch(s, st) + idx[p.nextSampleOffset + s.batchSize..] + more ==
             Batch(s, st) + (idx[p.nextSampleOffset + s.batchSize..] + more);
    } else {
      assert idx[p.nextSampleOffset..] == Batch(s, st);
      AheadAtStart(s, l, next);
    }
  }

  /** A run that is not stopped feeds exactly what is left of the sampler's epochs, in order. */
  lemma {:induction false} AllSamplesFed<M>(s: Setup<M>, l: Limits, st: State<M>)
    requires Valid(s, l) && Run(s, l, st).stopped.None?
    ensures Flat(Run(s, l, st).batches) == Ahead(s, st)
    decreases Left(s, st) + 1
  {
    hide Advance, Run, Batch, Ahead;
    if Open(s, st) {
      var (next, early) := Advance(s, st);
      AdvanceLowers(s, l, st);
      RunNext(s, l, st);
      AheadNext(s, l, st);
      AllSamplesFed(s, l, next);
      var t := Run(s, l, next);
      assert ([Batch(s, st)] + t.batches)[1..] == t.batches;
    } else {
      RunClosed(s, l, st);
      NothingAhead(s, st);
    }
  }

  lemma NothingAhead<M>(s: Setup<M>, st: State<M>)
    requires !Open(s, st)
    ensures Ahead(s, st) == []
  {
  }

  // ---- what a step counts ----

  /** The counters of the state ask for an early stop. */
  predicate Asks<M>(s: Setup<M>, c: State<M>)
    requires s.validationEvery >= 1
  {
    Due(s, c.progress.globalStep) && s.asked(c.model)
  }

  lemma AdvanceAsks<M>(s: Setup<M>, l: Limits, st: State<M>)
    requires Valid(s, l) && Open(s, st)
    ensures Advance(s, st).1 == Asks(s, Advance(s, st).0)
  {
  }

  lemma {:induction false} RunGoes<M>(s: Setup<M>, l: Limits, st: State<M>)
    requires Valid(s, l)
    ensures var t := Run(s, l, st);
            && t.end.progress.globalStep == st.progress.globalStep + |t.batches|
            && (Open(s, st) <==> t.batches != [])
            && forall c :: c in t.checkpoints ==> c.progress.globalStep > st.progress.globalStep
    decreases Left(s, st) + 1
  {
    hide Advance, Run, Batch, Saves;
    if Open(s, st) {
      var (next, early) := Advance(s, st);
      AdvanceLowers(s, l, st);
      RunNext(s, l, st);
      if Reason(l, next.progress.globalStep, early).None? {
        RunGoes(s, l, next);
      }
    } else {
      RunClosed(s, l, st);
    }
  }

  // ---- checkpoints ----

  /** A step of a run after which a checkpoint is due. */
  predicate Checkpointed<M>(s: Setup<M>, l: Limits, step: nat, last: bool)
    requires s.validationEvery >= 1 && l.checkpointEvery >= 1
  {
    step % l.checkpointEvery == 0 || (s.validating && step % s.validationEvery == 0) || last
  }

  /** The steps of a run with a checkpoint, in order. */
  function StepsSaved<M>(checkpoints: seq<State<M>>): seq<nat> {
    seq(|checkpoints|, i requires 0 <= i < |checkpoints| => checkpoints[i].progress.globalStep)
  }

  /** The steps after `step` and up to `end` after which a checkpoint is due; `last` for the end of a stopped run. */
  function StepsDue<M>(s: Setup<M>, l: Limits, step: nat, end: nat, last: bool): seq<nat>
    requires s.validationEvery >= 1 && l.checkpointEvery >= 1
    decreases end - step
  {
    if step >= end then []
    else
      (if Checkpointed(s, l, step + 1, last && step + 1 == end) then [step + 1] else []) +
      StepsDue(s, l, step + 1, end, last)
  }

  /**
   The checkpoints of a run are those of the multiples of the two intervals among its steps, and of the step it is
   stopped at: one for each, in order, and no other.
   */
  lemma {:induction false} CheckpointsExact<M>(s: Setup<M>, l: Limits, st: State<M>)
    requires Valid(s, l)
    ensures var t := Run(s, l, st);
            StepsSaved(t.checkpoints) ==
            StepsDue(s, l, st.progress.globalStep, t.end.progress.globalStep, t.stopped.Some?)
    decreases Left(s, st) + 1
  {
    hide Advance, Run, Batch;
    RunGoes(s, l, st);
    if Open(s, st) {
      var (next, early) := Advance(s, st);
      var step := next.progress.globalStep;
      var stopped := Reason(l, step, early);
      AdvanceLowers(s, l, st);
      RunNext(s, l, st);
      var saved := if Saves(s, l, step, stopped) then [next] else [];
      if stopped.Some? {
        assert StepsDue(s, l, step, step, true) == [];
        assert saved + [] == saved;
      } else {
        CheckpointsExact(s, l, next);
        RunGoes(s, l, next);
        var rest := Run(s, l, next);
        assert StepsSaved(saved + rest.checkpoints) == StepsSaved(saved) + StepsSaved(rest.checkpoints);
        StopsLater(s, l, next);
      }
    } else {
      RunClosed(s, l, st);
    }
  }

  /** A run that is stopped makes a step. */
  lemma StopsLater<M>(s: Setup<M>, l: Limits, st: State<M>)
    requires Valid(s, l)
    ensures Run(s, l, st).stopped.Some? ==> Run(s, l, st).batches != []
  {
    hide Advance, Batch, Saves;
  }

  /** Every step whose number is a multiple of the interval has its checkpoint in the trace. */
  lemma {:induction false} MultiplesDue<M>(s: Setup<M>, l: Limits, from: nat, end: nat, last: bool, step: nat)
    requires s.validationEvery >= 1 && l.checkpointEvery >= 1 && from < step <= end
    ensures step in StepsDue(s, l, from, end, last) <==>
            step % l.checkpointEvery == 0 || (s.validating && step % s.validationEvery == 0) || (last && step == end)
    decreases end - from
  {
    if step > from + 1 {
      MultiplesDue(s, l, from + 1, end, last, step);
    } else {
      LaterDue(s, l, from + 1, end, last);
    }
  }

  lemma {:induction false} LaterDue<M>(s: Setup<M>, l: Limits, from: nat, end: nat, last: bool)
    requires s.validationEvery >= 1 && l.checkpointEvery >= 1
    ensures forall x :: x in StepsDue(s, l, from, end, last) ==> from < x <= end
    decreases end - from
  {
    if from < end {
      LaterDue(s, l, from + 1, end, last);
    }
  }

  // ---- what is learnt ----

  /** The model after these batches, validated where validation is due; `step` steps were made before. */
  function Learnt<M>(s: Setup<M>, model: M, step: nat, batches: seq<seq<nat>>): M
    requires s.validationEvery >= 1
    decreases |batches|
  {
    if batches == [] then model
    else
      var learnt := s.learn(model, batches[0]).0;
      Learnt(s, if s.validating && (step + 1) % s.validationEvery == 0 then s.validate(learnt, step + 1) else learnt,
             step + 1, batches[1..])
  }

  /** The losses of these batches, in order. */
  function Losses<M>(s: Setup<M>, model: M, step: nat, batches: seq<seq<nat>>): seq<real>
    requires s.validationEvery >= 1
    decreases |batches|
  {
    if batches == [] then []
    else
      var (learnt, loss) := s.learn(model, batches[0]);
      [loss] +
      Losses(s, if s.validating && (step + 1) % s.validationEvery == 0 then s.validate(learnt, step + 1) else learnt,
             step + 1, batches[1..])
  }

  function Total(losses: seq<real>): real {
    if losses == [] then 0.0 else losses[0] + Total(losses[1..])
  }

  /** At the end of a run the model has learnt its batches in order, and every loss is accounted for. */
  lemma {:induction false} RunLearns<M>(s: Setup<M>, l: Limits, st: State<M>)
    requires Valid(s, l)
    ensures var t, p := Run(s, l, st), st.progress;
            var losses := Losses(s, st.model, p.globalStep, t.batches);
            && t.end.model == Learnt(s, st.model, p.globalStep, t.batches) && |losses| == |t.batches|
            && t.end.progress.lossSum == p.lossSum + Total(losses)
            && t.end.progress.lossCount == p.lossCount + |losses|
            && t.end.progress.finalLoss == if losses == [] then p.finalLoss else Some(losses[|losses| - 1])
    decreases Left(s, st) + 1
  {
    hide Run, Batch, Saves, Advance;
    if Open(s, st) {
      var (next, early) := Advance(s, st);
      var stopped := Reason(l, next.progress.globalStep, early);
      AdvanceLowers(s, l, st);
      RunNext(s, l, st);
      AdvanceLearns(s, st);
      var rest := if stopped.Some? then Trace([], [], next, stopped) else Run(s, l, next);
      if stopped.None? {
        RunLearns(s, l, next);
      }
      assert ([Batch(s, st)] + rest.batches)[1..] == rest.batches;
      var more := Losses(s, next.model, next.progress.globalStep, rest.batches);
      var loss := s.learn(st.model, Batch(s, st)).1;
      assert ([loss] + more)[1..] == more;
    } else {
      RunClosed(s, l, st);
    }
  }

  lemma AdvanceLearns<M>(s: Setup<M>, st: State<M>)
    requires Open(s, st) && |s.indices(st.progress.epochIndex)| == s.examples && s.validationEvery >= 1
    ensures var next, p := Advance(s, st).0, st.progress;
            var (learnt, loss) := s.learn(st.model, Batch(s, st));
            && next.progress.globalStep == p.globalStep + 1
            && next.model == (if s.validating && (p.globalStep + 1) % s.validationEvery == 0
                              then s.validate(learnt, p.globalStep + 1) else learnt)
            && next.progress.lossSum == p.lossSum + loss && next.progress.lossCount == p.lossCount + 1
            && next.progress.finalLoss == Some(loss)
  {
    hide Batch;
  }

  // ---- why a run stops ----

  /** Validation was due after the last step of this state and has used up the patience. */
  predicate OutOfPatience<M>(s: Setup<M>, c: State<M>)
    requires s.validationEvery >= 1
  {
    s.validating && c.progress.globalStep % s.validationEvery == 0 && s.asked(c.model)
  }

  /**
   A run goes on until the step limit is reached, validation has used up the patience, or all epochs are done, in
   this order, and the limit is not passed; at no checkpoint before was there a reason to stop.
   */
  lemma {:induction false} StopsExactly<M>(s: Setup<M>, l: Limits, st: State<M>)
    requires Valid(s, l) && st.progress.nextSampleOffset < s.examples
    requires l.maxSteps.Some? ==> st.progress.globalStep < l.maxSteps.value
    ensures var t := Run(s, l, st);
            var full := l.maxSteps.Some? && t.end.progress.globalStep == l.maxSteps.value;
            && (l.maxSteps.Some? ==> t.end.progress.globalStep <= l.maxSteps.value)
            && (t.stopped == Some(MaxSteps) <==> full)
            && (t.stopped == Some(EarlyStopping) <==> !full && t.batches != [] && OutOfPatience(s, t.end))
            && (t.stopped == None ==> t.end.progress.epochIndex >= s.epochs)
            && forall c :: c in t.checkpoints && c.progress.globalStep < t.end.progress.globalStep ==>
                 !OutOfPatience(s, c)
    decreases Left(s, st) + 1
  {
    hide Run, Batch, Saves, Advance;
    RunGoes(s, l, st);
    if Open(s, st) {
      var (next, early) := Advance(s, st);
      var stopped := Reason(l, next.progress.globalStep, early);
      AdvanceLowers(s, l, st);
      AdvanceAsks(s, l, st);
      RunNext(s, l, st);
      if stopped.None? {
        StopsExactly(s, l, next);
        RunGoes(s, l, next);
        if !Open(s, next) {
          RunClosed(s, l, next);
        }
      }
    } else {
      RunClosed(s, l, st);
    }
  }

  // ---- resuming ----

  /** The resumed run does what the whole run had left to do from its `k`-th batch and `m`-th checkpoint on. */
  predicate DoesTheRest<M(==)>(whole: Trace<M>, k: nat, m: nat, resumed: Trace<M>) {
    && k <= |whole.batches| && whole.batches[k..] == resumed.batches
    && m <= |whole.checkpoints| && whole.checkpoints[m..] == resumed.checkpoints
    && whole.end == resumed.end
  }

  /** The first `m` checkpoints are those up to this step. */
  predicate SplitAt<M>(checkpoints: seq<State<M>>, m: nat, step: nat) {
    && m <= |checkpoints|
    && forall j :: 0 <= j < |checkpoints| ==> (checkpoints[j].progress.globalStep <= step <==> j < m)
  }

  /**
   A run under some limits saves a checkpoint, from which a run is resumed under limits of its own that
   allow at least as many steps. Up to the checkpoint a whole run under these limits does the same. The
   resumed run does exactly what is left of it - batches, checkpoints and state at the end - unless the
   counters in the checkpoint ask for an early stop, samples are left and the step limit is not reached:
   then the resumed run goes on. It gives the same reason for stopping too unless they ask for an early
   stop and the step limit is not reached.
   */
  lemma {:induction false} ResumedRun<M>(s: Setup<M>, first: Limits, second: Limits, st: State<M>, i: nat)
    returns (k: nat, m: nat)
    requires Valid(s, first) && Valid(s, second) && i < |Run(s, first, st).checkpoints|
    requires var c := Run(s, first, st).checkpoints[i];
             second.maxSteps.Some? ==> c.progress.globalStep <= second.maxSteps.value
    ensures var t, whole := Run(s, first, st), Run(s, second, st);
            var c := t.checkpoints[i];
            var r := Started(s, second, c);
            && 1 <= k <= |t.batches| && k <= |whole.batches| && whole.batches[..k] == t.batches[..k]
            && c.progress.globalStep == st.progress.globalStep + k
            && SplitAt(whole.checkpoints, m, c.progress.globalStep)
            && (DoesTheRest(whole, k, m, r) <==>
                !(Asks(s, c) && Open(s, c) && !MaxReached(second, c.progress.globalStep)))
            && (DoesTheRest(whole, k, m, r) && whole.stopped == r.stopped <==>
                !(Asks(s, c) && !MaxReached(second, c.progress.globalStep)))
    decreases Left(s, st) + 1
  {
    hide Advance, Run, Batch, Saves, Started, DoesTheRest, Prepend, Asks, SplitAt;
    if !Open(s, st) {
      RunClosed(s, first, st);
    }
    var (next, early) := Advance(s, st);
    var batch, step := Batch(s, st), next.progress.globalStep;
    AdvanceLowers(s, first, st);
    AdvanceAsks(s, first, st);
    RunNext(s, first, st);
    RunNext(s, second, st);
    var stopped := Reason(first, step, early);
    var saved := if Saves(s, first, step, stopped) then [next] else [];
    var rest := if stopped.Some? then Trace([], [], next, stopped) else Run(s, first, next);
    PrependParts(batch, saved, rest);
    var stopped2 := Reason(second, step, early);
    var saved2 := if Saves(s, second, step, stopped2) then [next] else [];
    var rest2 := if stopped2.Some? then Trace([], [], next, stopped2) else Run(s, second, next);
    PrependParts(batch, saved2, rest2);
    if i < |saved| {
      k, m := 1, |saved2|;
      ResumedHere(s, second, next, early, batch, saved2);
    } else {
      k, m := ResumedRun(s, first, second, next, i - |saved|);
      var c := Run(s, first, next).checkpoints[i - |saved|];
      ResumedLater(batch, saved2, rest2, k, m, Started(s, second, c));
      SplitLater(saved2, rest2.checkpoints, m, c.progress.globalStep);
      k, m := k + 1, m + |saved2|;
    }
  }

  lemma PrependParts<M>(batch: seq<nat>, saved: seq<State<M>>, t: Trace<M>)
    ensures var u := Prepend(batch, saved, t);
            && u.batches == [batch] + t.batches && u.checkpoints == saved + t.checkpoints
            && u.end == t.end && u.stopped == t.stopped
            && forall k :: 0 <= k <= |t.batches| ==> u.batches[..k + 1] == [batch] + t.batches[..k]
  {
  }

  /** The checkpoint is the state behind the next batch. */
  lemma ResumedHere<M>(s: Setup<M>, l: Limits, next: State<M>, early: bool, batch: seq<nat>, saved: seq<State<M>>)
    requires Valid(s, l) && (saved == [] || saved == [next])
    requires l.maxSteps.Some? ==> next.progress.globalStep <= l.maxSteps.value
    ensures var stopped := Reason(l, next.progress.globalStep, early);
            var whole := Prepend(batch, saved, if stopped.Some? then Trace([], [], next, stopped) else Run(s, l, next));
            var r := Started(s, l, next);
            && SplitAt(whole.checkpoints, |saved|, next.progress.globalStep)
            && (DoesTheRest(whole, 1, |saved|, r) <==>
                !(early && Open(s, next) && !MaxReached(l, next.progress.globalStep)))
            && (DoesTheRest(whole, 1, |saved|, r) && whole.stopped == r.stopped <==>
                !(early && !MaxReached(l, next.progress.globalStep)))
  {
    hide Run;
    RunGoes(s, l, next);
    var stopped := Reason(l, next.progress.globalStep, early);
    var rest := if stopped.Some? then Trace([], [], next, stopped) else Run(s, l, next);
    assert ([batch] + rest.batches)[1..] == rest.batches;
    assert (saved + rest.checkpoints)[|saved|..] == rest.checkpoints;
    assert forall j :: 0 <= j < |rest.checkpoints| ==> rest.checkpoints[j] in rest.checkpoints;
    assert forall j :: |saved| <= j < |saved + rest.checkpoints| ==>
             (saved + rest.checkpoints)[j] == rest.checkpoints[j - |saved|];
    if !Open(s, next) {
      RunClosed(s, l, next);
    }
  }

  lemma ResumedLater<M>(batch: seq<nat>, saved: seq<State<M>>, rest: Trace<M>, k: nat, m: nat, r: Trace<M>)
    ensures DoesTheRest(Prepend(batch, saved, rest), k + 1, m + |saved|, r) <==> DoesTheRest(rest, k, m, r)
  {
    if k <= |rest.batches| {
      assert ([batch] + rest.batches)[k + 1..] == rest.batches[k..];
    }
    if m <= |rest.checkpoints| {
      assert (saved + rest.checkpoints)[m + |saved|..] == rest.checkpoints[m..];
    }
  }

  lemma SplitLater<M>(saved: seq<State<M>>, checkpoints: seq<State<M>>, m: nat, step: nat)
    requires SplitAt(checkpoints, m, step) && forall c :: c in saved ==> c.progress.globalStep <= step
    ensures SplitAt(saved + checkpoints, m + |saved|, step)
  {
  }

  // ---- it happens ----

  /** One sample, two epochs, a validation after each step that always asks to stop. */
  function Impatient(): Setup<nat> {
    Setup(1, 1, 2, (e: nat) => [0], (m: nat, batch: seq<nat>) => (m, 0.0), (m: nat, step: nat) => m, (m: nat) => true,
          true, 1)
  }

  /** Its run stops after the first epoch, and resumed from the checkpoint it wrote feeds the second one. */
  lemma StopsThenGoesOn()
    ensures var l, st := Limits(None, 1), State(0, TrainingProgress(0, 0, 0, 0.0, 0, None));
            && Valid(Impatient(), l)
            && var t := Run(Impatient(), l, st);
               && t.batches == [[0]] && t.checkpoints == [t.end] && t.stopped == Some(EarlyStopping)
               && Started(Impatient(), l, t.end).batches == [[0]]
  {
    hide Run;
    var s, l, st := Impatient(), Limits(None, 1), State(0, TrainingProgress(0, 0, 0, 0.0, 0, None));
    var p := TrainingProgress(1, 0, 1, 0.0, 1, Some(0.0));
    assert Batch(s, st) == [0] && Advance(s, st) == (State(0, p), true);
    RunNext(s, l, st);
    var next := State(0, p);
    var q := TrainingProgress(2, 0, 2, 0.0, 2, Some(0.0));
    assert Batch(s, next) == [0] && Advance(s, next) == (State(0, q), true);
    RunNext(s, l, next);
  }
}
