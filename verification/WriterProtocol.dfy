/**
 Several audit writers over one store and one checkpoint file.

 A record is linked and appended in one step, but advancing the checkpoint is a later read of the file
 and, later still, an append to it, and a writer may stop between any two of these. A writer that has
 not yet done so first reconciles the checkpoint with the store, again in several steps. The steps below
 may be taken by any writer in any order.
 */
module WriterProtocol {
  import opened Wrappers
  import opened AuditChain
  import opened Checkpoints

  /** What a writer is about to do. */
  datatype Writer =
    | Idle(ready: bool)                                  // `ready` when it has reconciled
    | Reconciling                                        // list the store
    | Listed(snapshot: seq<AuditRecord>)                 // verified; read the checkpoint
    | Advancing(target: Checkpoint, appended: bool)      // read the head; `appended` for its own record
    | Writing(target: Checkpoint, appended: bool)        // append the line
    | Failed                                             // a rejected initialisation is kept

  /** `lost` has the records whose own advance did not come to an end. */
  datatype System = System(chain: seq<AuditRecord>, log: seq<Checkpoint>, writers: map<nat, Writer>, lost: set<int>)

  datatype Event =
    | Start(w: nat)
    | List(w: nat)
    | ReadCheckpoint(w: nat)
    | Append(w: nat, input: AuditInput)
    | ReadHead(w: nat)
    | WriteLine(w: nat)
    | AdvanceFails(w: nat)
    | Crash(w: nat)

  function Last(rs: seq<AuditRecord>): Checkpoint
    requires rs != []
  {
    Checkpoint(rs[|rs| - 1].body.seqNo, rs[|rs| - 1].hash)
  }

  function At(s: System, w: nat): Writer {
    if w in s.writers then s.writers[w] else Idle(false)
  }

  function Put(s: System, w: nat, x: Writer): System {
    s.(writers := s.writers[w := x])
  }

  /** The record whose advance is given up, if the writer was at it. */
  function GivenUp(x: Writer): set<int> {
    if (x.Advancing? || x.Writing?) && x.appended then {x.target.seqNo} else {}
  }

  /** After the store was listed and found linked: what the checkpoint makes of it. */
  function Reconciled(snapshot: seq<AuditRecord>, checkpoint: Option<Checkpoint>, bootstrap: bool): Writer {
    if checkpoint.Some? && !Names(snapshot, checkpoint.value) then Failed
    else if checkpoint.None? && snapshot != [] && !bootstrap then Failed
    else if snapshot != [] && (checkpoint.None? || Last(snapshot).seqNo > checkpoint.value.seqNo)
    then Advancing(Last(snapshot), false)
    else Idle(true)
  }

  /** One step; an event that its writer is not at leaves the system as it is. */
  function Next(s: System, e: Event, h: Body -> string, bootstrap: bool): System {
    var x := At(s, e.w);
    match e
    case Start(w) => if x == Idle(false) then Put(s, w, Reconciling) else s
    case List(w) =>
      if !x.Reconciling? then s
      else if Linked(s.chain, h) then Put(s, w, Listed(s.chain)) else Put(s, w, Failed)
    case ReadCheckpoint(w) =>
      if !x.Listed? then s
      else if !Harmonious(s.log) then Put(s, w, Failed)
      else Put(s, w, Reconciled(x.snapshot, Head(s.log), bootstrap))
    case Append(w, input) =>
      if x != Idle(true) then s
      else
        var chain := s.chain + [NextRecord(s.chain, input, h)];
        Put(s.(chain := chain), w, Advancing(Last(chain), true))
    case ReadHead(w) =>
      if !x.Advancing? then s
      else if !Harmonious(s.log) || (Head(s.log).Some? && Head(s.log).value.seqNo == x.target.seqNo
                                     && Head(s.log).value.hash != x.target.hash)
      then GiveUp(s, w)
      else if Head(s.log).Some? && x.target.seqNo <= Head(s.log).value.seqNo then Put(s, w, Idle(true))
      else Put(s, w, Writing(x.target, x.appended))
    case WriteLine(w) =>
      if !x.Writing? then s else Put(s.(log := s.log + [x.target]), w, Idle(true))
    case AdvanceFails(w) => if x.Advancing? || x.Writing? then GiveUp(s, w) else s
    case Crash(w) => Put(s.(lost := s.lost + GivenUp(x)), w, Idle(false))
  }

  /** A failed advance of an own record starts over; one of the reconciliation is kept as a failure. */
  function GiveUp(s: System, w: nat): System {
    var x := At(s, w);
    Put(s.(lost := s.lost + GivenUp(x)), w, if (x.Advancing? || x.Writing?) && x.appended then Idle(false) else Failed)
  }

  function Run(s: System, es: seq<Event>, h: Body -> string, bootstrap: bool): System {
    if es == [] then s else Next(Run(s, es[..|es| - 1], h, bootstrap), es[|es| - 1], h, bootstrap)
  }

  // ---- what the chain is made of ----

  /** The chain grows by an append of a writer that is ready, and by the record of that input. */
  lemma ChainGrows(s: System, e: Event, h: Body -> string, bootstrap: bool)
    ensures var t := Next(s, e, h, bootstrap);
            if e.Append? && At(s, e.w) == Idle(true) then
              && |t.chain| == |s.chain| + 1 && t.chain[..|s.chain|] == s.chain
              && Follows(t.chain[|s.chain|], s.chain, e.input, h)
            else t.chain == s.chain
  {
    hide Harmonious, Head, Linked, Reconciled;
  }

  function Inputs(rs: seq<AuditRecord>): seq<AuditInput> {
    seq(|rs|, i requires 0 <= i < |rs| => rs[i].body.input)
  }

  /** The inputs of the appends that found their writer ready, in order. */
  function Appended(s: System, es: seq<Event>, h: Body -> string, bootstrap: bool): seq<AuditInput> {
    if es == [] then []
    else
      var init, e := es[..|es| - 1], es[|es| - 1];
      Appended(s, init, h, bootstrap) +
      if e.Append? && At(Run(s, init, h, bootstrap), e.w) == Idle(true) then [e.input] else []
  }

  /** In every run the records added are those of these appends, in order: none is lost, changed or made up. */
  lemma {:induction false} RunRecords(s: System, es: seq<Event>, h: Body -> string, bootstrap: bool)
    ensures Inputs(Run(s, es, h, bootstrap).chain) == Inputs(s.chain) + Appended(s, es, h, bootstrap)
    decreases |es|
  {
    hide Next;
    if es != [] {
      var init, e := es[..|es| - 1], es[|es| - 1];
      var before := Run(s, init, h, bootstrap);
      RunRecords(s, init, h, bootstrap);
      ChainGrows(before, e, h, bootstrap);
      var after := Next(before, e, h, bootstrap);
      if e.Append? && At(before, e.w) == Idle(true) {
        assert after.chain == before.chain + [after.chain[|before.chain|]];
        assert Inputs(after.chain) == Inputs(before.chain) + [e.input];
      }
    }
  }

  /** An advance that fails has the writer of an own record reconcile again; a reconciliation stays rejected. */
  lemma FailureKept(s: System, w: nat, e: Event, h: Body -> string, bootstrap: bool)
    ensures At(s, w).Failed? && e.w == w && !e.Crash? ==> At(Next(s, e, h, bootstrap), w).Failed?
    ensures var x := At(s, w);
            x.Advancing? || x.Writing? ==>
              At(Next(s, AdvanceFails(w), h, bootstrap), w) == if x.appended then Idle(false) else Failed
    ensures e.w != w ==> At(Next(s, e, h, bootstrap), w) == At(s, w)
  {
    hide Harmonious, Head, Linked, Reconciled, NextRecord;
  }

  // ---- safety ----

  predicate WriterOk(x: Writer, chain: seq<AuditRecord>) {
    match x
    case Listed(snapshot) => snapshot <= chain
    case Advancing(target, _) => Names(chain, target)
    case Writing(target, _) => Names(chain, target)
    case _ => true
  }

  /** Some writer is still on its way to log record `n` or a later one. */
  ghost predicate Underway(s: System, n: int) {
    exists w :: w in s.writers && OnWay(s.writers[w], n)
  }

  predicate OnWay(x: Writer, n: int) {
    (x.Advancing? || x.Writing?) && x.appended && x.target.seqNo == n
  }

  /** Every record is covered by the head, or its advance is under way or was lost. */
  ghost predicate Accounted(s: System, n: int) {
    n <= HeadSeq(s.log) || n in s.lost || Underway(s, n)
  }

  ghost predicate Safe(s: System, h: Body -> string) {
    && Linked(s.chain, h)
    && AllName(s.chain, s.log)
    && (forall w :: w in s.writers ==> WriterOk(s.writers[w], s.chain))
  }

  ghost predicate Invariant(s: System, h: Body -> string, since: nat) {
    && Safe(s, h) && since <= |s.chain|
    && forall n :: since < n <= |s.chain| ==> Accounted(s, n)
  }

  lemma LastNames(rs: seq<AuditRecord>, h: Body -> string)
    requires Linked(rs, h) && rs != []
    ensures Names(rs, Last(rs)) && Last(rs).seqNo == |rs|
  {
    assert Good(rs, h, |rs| - 1);
  }

  lemma NamesLater(a: seq<AuditRecord>, b: seq<AuditRecord>, c: Checkpoint)
    requires a <= b && Names(a, c)
    ensures Names(b, c)
  {
    assert b[..|a|][c.seqNo - 1] == b[c.seqNo - 1];
  }

  /** The chain only grows, and what was known of it stays known. */
  lemma Grown(s: System, input: AuditInput, h: Body -> string)
    requires Safe(s, h)
    ensures var chain := s.chain + [NextRecord(s.chain, input, h)];
            && Linked(chain, h) && s.chain <= chain && AllName(chain, s.log)
            && Last(chain).seqNo == |chain|
            && (forall w :: w in s.writers ==> WriterOk(s.writers[w], chain))
  {
    var chain := s.chain + [NextRecord(s.chain, input, h)];
    assert s.chain[..|s.chain|] == s.chain;
    AppendLinks(s.chain, |s.chain|, input, h);
    assert chain[..|s.chain|] == s.chain;
    forall c | c in s.log ensures Names(chain, c) {
      NamesLater(s.chain, chain, c);
    }
    LastNames(chain, h);
    forall w | w in s.writers ensures WriterOk(s.writers[w], chain) {
      var x := s.writers[w];
      assert WriterOk(x, s.chain);
      if x.Listed? {
        assert chain[..|x.snapshot|] == s.chain[..|x.snapshot|];
      } else if x.Advancing? || x.Writing? {
        NamesLater(s.chain, chain, x.target);
      }
    }
  }

  /** What a listing and a reading made at different times lead to. */
  lemma ReconciledOk(s: System, snapshot: seq<AuditRecord>, h: Body -> string, bootstrap: bool)
    requires Safe(s, h) && snapshot <= s.chain
    ensures WriterOk(Reconciled(snapshot, Head(s.log), bootstrap), s.chain)
    ensures Reconciled(snapshot, Head(s.log), bootstrap).Failed? <==>
            HeadSeq(s.log) > |snapshot| || (s.log == [] && snapshot != [] && !bootstrap)
    ensures Reconciled(snapshot, Head(s.log), bootstrap).Idle? ==>
              Reconciled(snapshot, Head(s.log), bootstrap) == Idle(true) && HeadSeq(s.log) == |snapshot|
    ensures Reconciled(snapshot, Head(s.log), bootstrap).Advancing? ==>
              Reconciled(snapshot, Head(s.log), bootstrap) == Advancing(Last(snapshot), false) &&
                Last(snapshot).seqNo == |snapshot|
    ensures var x := Reconciled(snapshot, Head(s.log), bootstrap); x.Failed? || x.Idle? || x.Advancing?
  {
    forall i | 0 <= i < |snapshot| ensures Good(snapshot, h, i) {
      assert Good(s.chain, h, i);
      assert s.chain[..|snapshot|][i] == s.chain[i];
    }
    if snapshot != [] {
      LastNames(snapshot, h);
      NamesLater(snapshot, s.chain, Last(snapshot));
    }
    if s.log != [] {
      HeadIsNewest(s.log);
      var c := Head(s.log).value;
      assert Names(s.chain, c);
      assert c.seqNo <= |snapshot| ==> s.chain[..|snapshot|][c.seqNo - 1] == s.chain[c.seqNo - 1];
    }
  }

  /** Every step keeps the chain linked, the log naming records of it, and every writer on firm ground. */
  lemma NextSafe(s: System, e: Event, h: Body -> string, bootstrap: bool)
    requires Safe(s, h)
    ensures Safe(Next(s, e, h, bootstrap), h)
    ensures s.chain <= Next(s, e, h, bootstrap).chain
    ensures HeadSeq(Next(s, e, h, bootstrap).log) >= HeadSeq(s.log)
  {
    hide Head, Harmonious, Names, Reconciled, Linked;
    NamingIsHarmonious(s.chain, s.log);
    var x := At(s, e.w);
    assert s.chain[..|s.chain|] == s.chain;
    match e {
      case ReadCheckpoint(w) =>
        if x.Listed? {
          ReconciledOk(s, x.snapshot, h, bootstrap);
        }
      case Append(w, input) =>
        if x == Idle(true) {
          Grown(s, input, h);
          LastNames(s.chain + [NextRecord(s.chain, input, h)], h);
        }
      case WriteLine(w) =>
        if x.Writing? {
          HeadNeverGoesBack(s.chain, s.log, x.target);
        }
      case _ =>
    }
  }

  /** A line is on its way exactly when no line logged yet has its number or a later one. */
  lemma WritesNewer(s: System, w: nat, h: Body -> string, bootstrap: bool)
    requires Safe(s, h) && At(s, w).Advancing?
    ensures var x := At(s, w);
            At(Next(s, ReadHead(w), h, bootstrap), w) ==
            if forall c :: c in s.log ==> c.seqNo < x.target.seqNo then Writing(x.target, x.appended) else Idle(true)
  {
    hide Head, Harmonious, Names, Linked;
    NoConflict(s, w, h);
    if s.log != [] {
      HeadIsNewest(s.log);
    } else {
      NothingLogged();
    }
  }

  /** A chain that is not linked, or a log that cannot be read, rejects the reconciliation. */
  lemma BrokenRejects(s: System, w: nat, h: Body -> string, bootstrap: bool)
    ensures At(s, w).Reconciling? ==>
              At(Next(s, List(w), h, bootstrap), w) == if Linked(s.chain, h) then Listed(s.chain) else Failed
    ensures At(s, w).Listed? && !Harmonious(s.log) ==> At(Next(s, ReadCheckpoint(w), h, bootstrap), w).Failed?
  {
    hide Linked, Harmonious, Reconciled, Head;
  }

  /** Two names of one place are the same. */
  lemma NamesAgree(rs: seq<AuditRecord>, a: Checkpoint, b: Checkpoint)
    requires Names(rs, a) && Names(rs, b) && a.seqNo == b.seqNo
    ensures a == b
  {
  }

  lemma UnderwayElsewhere(s: System, t: System, w: nat, n: int)
    requires Underway(s, n) && !OnWay(At(s, w), n)
    requires forall v :: v in s.writers && v != w ==> v in t.writers && t.writers[v] == s.writers[v]
    ensures Underway(t, n)
  {
    var v :| v in s.writers && OnWay(s.writers[v], n);
    assert v != w;
  }

  /** Reading the head never finds a conflict. */
  lemma NoConflict(s: System, w: nat, h: Body -> string)
    requires Safe(s, h) && At(s, w).Advancing?
    ensures Harmonious(s.log)
    ensures Head(s.log).Some? && Head(s.log).value.seqNo == At(s, w).target.seqNo ==>
              Head(s.log).value.hash == At(s, w).target.hash
  {
    hide Head, Harmonious, Names, Linked;
    NamingIsHarmonious(s.chain, s.log);
    assert WriterOk(s.writers[w], s.chain);
    if s.log != [] {
      HeadIsNewest(s.log);
      assert Names(s.chain, Head(s.log).value);
      if Head(s.log).value.seqNo == At(s, w).target.seqNo {
        NamesAgree(s.chain, Head(s.log).value, At(s, w).target);
      }
    }
  }

  /** A record, once accounted for, stays so. */
  lemma StaysAccounted(s: System, e: Event, h: Body -> string, bootstrap: bool, n: int)
    requires Safe(s, h) && Accounted(s, n)
    ensures Accounted(Next(s, e, h, bootstrap), n)
  {
    hide Head, Harmonious, Names, Reconciled, Linked, AllName, WriterOk;
    var t, x := Next(s, e, h, bootstrap), At(s, e.w);
    NextSafe(s, e, h, bootstrap);
    if n > HeadSeq(s.log) && n !in s.lost {
      if OnWay(x, n) {
        assert e.w in t.writers;
        match e {
          case ReadHead(w) =>
            if x.Advancing? {
              NoConflict(s, w, h);
              assert t.writers[w] == Writing(x.target, true);
            }
          case WriteLine(w) =>
            if x.Writing? {
              assert WriterOk(s.writers[w], s.chain);
              WroteLine(s, x.target, h);
            }
          case _ =>
        }
      } else {
        UnderwayElsewhere(s, t, e.w, n);
      }
    }
  }

  lemma WroteLine(s: System, c: Checkpoint, h: Body -> string)
    requires Safe(s, h) && WriterOk(Writing(c, true), s.chain)
    ensures HeadSeq(s.log + [c]) >= c.seqNo
  {
    hide Linked, Head;
    HeadNeverGoesBack(s.chain, s.log, c);
  }

  lemma NextInvariant(s: System, e: Event, h: Body -> string, bootstrap: bool, since: nat)
    requires Invariant(s, h, since)
    ensures Invariant(Next(s, e, h, bootstrap), h, since)
  {
    hide Head, Harmonious, Names, Reconciled, Safe, Accounted, HeadSeq;
    var t := Next(s, e, h, bootstrap);
    NextSafe(s, e, h, bootstrap);
    forall n | since < n <= |t.chain| ensures Accounted(t, n) {
      if n <= |s.chain| {
        StaysAccounted(s, e, h, bootstrap, n);
      } else {
        NewAccounted(s, e, h, bootstrap);
      }
    }
  }

  lemma NewAccounted(s: System, e: Event, h: Body -> string, bootstrap: bool)
    requires Safe(s, h)
    ensures var t := Next(s, e, h, bootstrap);
            |t.chain| > |s.chain| ==> |t.chain| == |s.chain| + 1 && Accounted(t, |t.chain|)
  {
    hide Head, Harmonious, Names, Reconciled, Linked, AllName, WriterOk, HeadSeq;
    var t := Next(s, e, h, bootstrap);
    if |t.chain| > |s.chain| {
      Grown(s, e.input, h);
      assert OnWay(t.writers[e.w], |t.chain|);
    }
  }

  /**
   Under every interleaving of appends, reconciliations, advances and crashes: the chain stays linked,
   every logged checkpoint names a record of it, the log can always be read and its head never goes back,
   and every record is covered by the head unless its advance is under way or was lost.
   */
  lemma {:induction false} RunInvariant(s: System, es: seq<Event>, h: Body -> string, bootstrap: bool, since: nat)
    requires Invariant(s, h, since)
    ensures var t := Run(s, es, h, bootstrap);
            && Invariant(t, h, since) && Harmonious(t.log)
            && s.chain <= t.chain && HeadSeq(t.log) >= HeadSeq(s.log)
    decreases |es|
  {
    hide Head, Harmonious, Names, Next, Accounted, Linked, WriterOk, HeadSeq, AllName;
    if es == [] {
      assert s.chain[..|s.chain|] == s.chain;
      NamingIsHarmonious(s.chain, s.log);
    } else {
      var before := Run(s, es[..|es| - 1], h, bootstrap);
      RunInvariant(s, es[..|es| - 1], h, bootstrap, since);
      NextInvariant(before, es[|es| - 1], h, bootstrap, since);
      NextSafe(before, es[|es| - 1], h, bootstrap);
      var t := Run(s, es, h, bootstrap);
      NamingIsHarmonious(t.chain, t.log);
      assert before.chain[..|s.chain|] == t.chain[..|before.chain|][..|s.chain|] == t.chain[..|s.chain|];
    }
  }

  const NOTHING: System := System([], [], map[], {})

  /** From an empty store: when no advance was lost and none is under way, verification accepts everything. */
  lemma AcceptsWhenAdvanced(es: seq<Event>, h: Body -> string, bootstrap: bool)
    ensures var t := Run(NOTHING, es, h, bootstrap);
            && t.chain != [] && |t.chain| !in t.lost && !Underway(t, |t.chain|) ==>
                 Head(t.log).Some? && Accepts(t.chain, h, Head(t.log).value)
  {
    hide Run, Head, Linked, AllName, WriterOk, Underway;
    assert Invariant(NOTHING, h, 0) by { EmptyInvariant(h); }
    RunInvariant(NOTHING, es, h, bootstrap, 0);
    var t := Run(NOTHING, es, h, bootstrap);
    if t.chain != [] && |t.chain| !in t.lost && !Underway(t, |t.chain|) {
      assert Accounted(t, |t.chain|);
      FullHeadAccepts(t.chain, h, t.log);
    }
  }

  lemma EmptyInvariant(h: Body -> string)
    ensures Invariant(NOTHING, h, 0)
  {
  }

  /** While the head is behind, verification with it says where. */
  lemma BehindIsReported(s: System, h: Body -> string)
    requires Safe(s, h) && s.log != []
    ensures Accepts(s.chain, h, Head(s.log).value) <==> HeadSeq(s.log) == |s.chain|
  {
    HeadIsNewest(s.log);
    if s.chain != [] {
      LastNames(s.chain, h);
    }
  }

  /**
   A lone writer that reconciles leaves a checkpoint with which verification accepts whatever was in the
   store; it fails only where records without any checkpoint need an explicit bootstrap.
   */
  lemma LoneWriterReconciles(s: System, w: nat, h: Body -> string, bootstrap: bool)
    requires Safe(s, h) && At(s, w).Reconciling?
    ensures var t := Run(s, [List(w), ReadCheckpoint(w), ReadHead(w), WriteLine(w)], h, bootstrap);
            && t.chain == s.chain
            && (At(t, w).Failed? <==> s.log == [] && s.chain != [] && !bootstrap)
            && (!At(t, w).Failed? ==>
                  && At(t, w) == Idle(true)
                  && (s.chain != [] ==> Head(t.log).Some? && Accepts(t.chain, h, Head(t.log).value)))
  {
    hide Head, Harmonious, Names, Linked, AllName, Reconciled, Accepts;
    var s1 := Next(s, List(w), h, bootstrap);
    NextSafe(s, List(w), h, bootstrap);
    assert s.chain[..|s.chain|] == s.chain;
    NamingIsHarmonious(s.chain, s.log);
    ReconciledOk(s1, s.chain, h, bootstrap);
    HeadWithin(s, h);
    var s2 := Next(s1, ReadCheckpoint(w), h, bootstrap);
    NextSafe(s1, ReadCheckpoint(w), h, bootstrap);
    var s3 := Next(s2, ReadHead(w), h, bootstrap);
    NextSafe(s2, ReadHead(w), h, bootstrap);
    var s4 := Next(s3, WriteLine(w), h, bootstrap);
    NextSafe(s3, WriteLine(w), h, bootstrap);
    if At(s2, w).Advancing? {
      NoConflict(s2, w, h);
      if At(s3, w).Writing? {
        HeadNeverGoesBack(s3.chain, s3.log, At(s3, w).target);
      }
    }
    FourSteps(s, List(w), ReadCheckpoint(w), ReadHead(w), WriteLine(w), h, bootstrap);
    if s.chain != [] && !At(s4, w).Failed? {
      FullHeadAccepts(s4.chain, h, s4.log);
    }
  }

  lemma HeadWithin(s: System, h: Body -> string)
    requires Safe(s, h)
    ensures HeadSeq(s.log) <= |s.chain|
  {
    if s.log != [] {
      HeadIsNewest(s.log);
    }
  }

  lemma FourSteps(s: System, a: Event, b: Event, c: Event, d: Event, h: Body -> string, bootstrap: bool)
    ensures Run(s, [a, b, c, d], h, bootstrap) ==
            Next(Next(Next(Next(s, a, h, bootstrap), b, h, bootstrap), c, h, bootstrap), d, h, bootstrap)
  {
    hide Next;
    assert [a, b, c, d][..3] == [a, b, c] && [a, b, c][..2] == [a, b] && [a, b][..1] == [a] && [a][..0] == [];
    assert Run(s, [], h, bootstrap) == s;
    assert Run(s, [a], h, bootstrap) == Next(s, a, h, bootstrap);
    assert Run(s, [a, b], h, bootstrap) == Next(Run(s, [a], h, bootstrap), b, h, bootstrap);
    assert Run(s, [a, b, c], h, bootstrap) == Next(Run(s, [a, b], h, bootstrap), c, h, bootstrap);
  }

  /**
   A writer that listed the store before others appended, and reads the checkpoint after they advanced
   it, takes their checkpoint for a missing record: its failure says nothing about the chain.
   */
  lemma FailsWhenOvertaken(s: System, w: nat, h: Body -> string, bootstrap: bool)
    requires Safe(s, h) && At(s, w).Listed?
    ensures At(Next(s, ReadCheckpoint(w), h, bootstrap), w).Failed? <==>
            HeadSeq(s.log) > |At(s, w).snapshot| || (s.log == [] && At(s, w).snapshot != [] && !bootstrap)
  {
    hide Head, Harmonious, Names, Linked, AllName, Reconciled, HeadSeq;
    NamingIsHarmonious(s.chain, s.log);
    assert WriterOk(s.writers[w], s.chain);
    ReconciledOk(s, At(s, w).snapshot, h, bootstrap);
  }

  /** It happens: one writer lists the empty store, another appends and advances, the first then fails. */
  lemma OvertakenRun(input: AuditInput, h: Body -> string)
    returns (es: seq<Event>)
    ensures var t := Run(NOTHING, es, h, false);
            && At(t, 0).Failed? && |t.chain| == 1 && t.lost == {}
            && Head(t.log).Some? && Accepts(t.chain, h, Head(t.log).value)
  {
    hide Linked, Harmonious, Names, Accepts, Anchors, Next, Run, Safe, Head, HeadSeq, NextRecord, Last;
    var first, second := [Start(0), List(0), Start(1), List(1)],
      [ReadCheckpoint(1), Append(1, input), ReadHead(1), WriteLine(1)];
    es := first + second + [ReadCheckpoint(0)];
    FourSteps(NOTHING, Start(0), List(0), Start(1), List(1), h, false);
    BothList(h);
    OneAdvanced(BothListed(), input, h, NextRecord([], input, h));
    RunsOn(NOTHING, first, second, h, false);
    var s2 := Run(BothListed(), second, h, false);
    RunsOn(NOTHING, first + second, [ReadCheckpoint(0)], h, false);
    OneStep(s2, ReadCheckpoint(0), h, false);
    FailsWhenOvertaken(s2, 0, h, false);
    LastStep(s2, h);
  }

  lemma OneStep(s: System, e: Event, h: Body -> string, bootstrap: bool)
    ensures Run(s, [e], h, bootstrap) == Next(s, e, h, bootstrap)
  {
    hide Next;
    assert [e][..0] == [];
    assert Run(s, [], h, bootstrap) == s;
  }

  /** Reading the checkpoint changes its writer only. */
  lemma LastStep(s: System, h: Body -> string)
    ensures var t := Next(s, ReadCheckpoint(0), h, false); t.chain == s.chain && t.log == s.log && t.lost == s.lost
  {
    hide Reconciled, Harmonious, Head;
  }

  lemma BothList(h: Body -> string)
    ensures var first := Next(Next(NOTHING, Start(0), h, false), List(0), h, false);
            Next(Next(first, Start(1), h, false), List(1), h, false) == BothListed()
  {
    hide Linked;
    NothingLinked(h);
  }

  lemma NothingLinked(h: Body -> string)
    ensures Linked([], h) && Harmonious([])
  {
  }

  /** From here on the second of two writers appends and advances. */
  function BothListed(): System {
    NOTHING.(writers := map[0 := Listed([]), 1 := Listed([])])
  }

  lemma SecondReady(h: Body -> string)
    ensures Next(BothListed(), ReadCheckpoint(1), h, false) ==
            BothListed().(writers := map[0 := Listed([]), 1 := Idle(true)])
  {
    hide Names, Linked;
    assert map[0 := Listed([]), 1 := Listed([])][1 := Idle(true)] == map[0 := Listed([]), 1 := Idle(true)];
  }

  lemma SecondAppends(s: System, input: AuditInput, h: Body -> string, record: AuditRecord)
    requires s == BothListed().(writers := map[0 := Listed([]), 1 := Idle(true)]) && record == NextRecord([], input, h)
    ensures Next(s, Append(1, input), h, false) ==
            s.(chain := [record], writers := map[0 := Listed([]), 1 := Advancing(Last([record]), true)])
  {
    hide NextRecord, Last;
    assert [] + [record] == [record];
    var x := Advancing(Last([record]), true);
    assert map[0 := Listed([]), 1 := Idle(true)][1 := x] == map[0 := Listed([]), 1 := x];
  }

  lemma SecondReads(s: System, h: Body -> string, c: Checkpoint)
    requires s.writers == map[0 := Listed([]), 1 := Advancing(c, true)] && s.log == []
    ensures Next(s, ReadHead(1), h, false) == s.(writers := map[0 := Listed([]), 1 := Writing(c, true)])
  {
    hide Names, Linked;
    assert map[0 := Listed([]), 1 := Advancing(c, true)][1 := Writing(c, true)] ==
           map[0 := Listed([]), 1 := Writing(c, true)];
  }

  lemma SecondWrites(s: System, h: Body -> string, c: Checkpoint)
    requires s.writers == map[0 := Listed([]), 1 := Writing(c, true)] && s.log == []
    ensures Next(s, WriteLine(1), h, false) == s.(log := [c], writers := map[0 := Listed([]), 1 := Idle(true)])
  {
    assert [] + [c] == [c];
    assert map[0 := Listed([]), 1 := Writing(c, true)][1 := Idle(true)] == map[0 := Listed([]), 1 := Idle(true)];
  }

  lemma OneAdvanced(s: System, input: AuditInput, h: Body -> string, record: AuditRecord)
    requires s == BothListed() && record == NextRecord([], input, h)
    ensures var t := s.(chain := [record], log := [Last([record])], writers := map[0 := Listed([]), 1 := Idle(true)]);
            && Run(s, [ReadCheckpoint(1), Append(1, input), ReadHead(1), WriteLine(1)], h, false) == t
            && Safe(t, h) && HeadSeq(t.log) == 1
            && Head(t.log).Some? && Accepts(t.chain, h, Head(t.log).value)
  {
    hide Linked, Names, Accepts, NextRecord, Last, Next, Run, Safe, Head, HeadSeq;
    FourSteps(s, ReadCheckpoint(1), Append(1, input), ReadHead(1), WriteLine(1), h, false);
    SecondReady(h);
    var a := s.(writers := map[0 := Listed([]), 1 := Idle(true)]);
    SecondAppends(a, input, h, record);
    var c := Last([record]);
    var b := a.(chain := [record], writers := map[0 := Listed([]), 1 := Advancing(c, true)]);
    SecondReads(b, h, c);
    SecondWrites(b.(writers := map[0 := Listed([]), 1 := Writing(c, true)]), h, c);
    OneRecord(input, h);
    SafeAfter(s.(chain := [record], log := [c], writers := map[0 := Listed([]), 1 := Idle(true)]), h, c);
  }

  lemma SafeAfter(t: System, h: Body -> string, c: Checkpoint)
    requires Linked(t.chain, h) && Names(t.chain, c) && t.log == [c]
    requires t.writers == map[0 := Listed([]), 1 := Idle(true)]
    ensures Safe(t, h)
  {
    hide Linked, Names;
  }

  lemma OneRecord(input: AuditInput, h: Body -> string)
    ensures var r := [NextRecord([], input, h)];
            && Linked(r, h) && Names(r, Last(r)) && HeadSeq([Last(r)]) == 1
            && Head([Last(r)]) == Some(Last(r)) && Accepts(r, h, Last(r))
  {
    var r := [NextRecord([], input, h)];
    assert [Last(r)][..0] == [];
  }

  lemma {:induction false} RunsOn(s: System, es: seq<Event>, fs: seq<Event>, h: Body -> string, bootstrap: bool)
    ensures Run(s, es + fs, h, bootstrap) == Run(Run(s, es, h, bootstrap), fs, h, bootstrap)
    decreases |fs|
  {
    hide Next;
    if fs == [] {
      assert es + fs == es;
    } else {
      assert (es + fs)[..|es + fs| - 1] == es + fs[..|fs| - 1];
      RunsOn(s, es, fs[..|fs| - 1], h, bootstrap);
    }
  }
}
