/** One audit writer at work, as the program runs it: the store and the checkpoint file are changed step by step. */
module AuditWriter {
  import opened Wrappers
  import opened AuditChain
  import opened Checkpoints

  const BROKEN := "audit chain integrity failed"
  const NOT_CHECKPOINTED := "audit database does not contain the externally checkpointed head"
  const NO_BOOTSTRAP := "existing audit records require explicit external checkpoint bootstrap"

  class AuditStore {
    var records: seq<AuditRecord>
    /** Whether reading the latest record and appending the next one is one transaction. */
    const transactional: bool
    const h: Body -> string

    constructor (transactional: bool, h: Body -> string)
      ensures records == [] && this.transactional == transactional && this.h == h
    {
      records := [];
      this.transactional, this.h := transactional, h;
    }

    method AppendLinked(input: AuditInput) returns (record: AuditRecord)
      modifies this`records
      ensures record == NextRecord(old(records), input, h) && records == old(records) + [record]
      ensures record.body.input == input && record.hash == h(record.body) && Follows(record, old(records), input, h)
    {
      var previous := Latest();
      var body := Body(input, (if previous.None? then 0 else previous.value.body.seqNo) + 1,
                       if previous.None? then GENESIS_HASH else previous.value.hash);
      record := AuditRecord(body, h(body));
      Append(record);
    }

    method Latest() returns (record: Option<AuditRecord>)
      ensures record == if records == [] then None else Some(records[|records| - 1])
    {
      record := if records == [] then None else Some(records[|records| - 1]);
    }

    method Append(record: AuditRecord)
      modifies this`records
      ensures records == old(records) + [record]
    {
      records := records + [record];
    }
  }

  /** How far the writer's initialisation has come; a failed one is kept. */
  datatype Initialization = Pending | Done | Rejected(code: string)

  class AuditWriter {
    const store: AuditStore
    const checkpoints: FileAuditCheckpointStore
    const allowCheckpointBootstrap: bool
    var initialization: Initialization

    constructor (store: AuditStore, checkpoints: FileAuditCheckpointStore, allowCheckpointBootstrap: bool)
      ensures this.store == store && this.checkpoints == checkpoints
      ensures this.allowCheckpointBootstrap == allowCheckpointBootstrap && initialization == Pending
    {
      this.store, this.checkpoints := store, checkpoints;
      this.allowCheckpointBootstrap, initialization := allowCheckpointBootstrap, Pending;
    }

    /** The checkpoint file is authentic and only names records of the chain, which is linked. */
    ghost predicate Sound()
      reads store, checkpoints
    {
      && Linked(store.records, store.h)
      && Authentic(checkpoints.lines, checkpoints.mac)
      && AllName(store.records, Logged(checkpoints.lines))
    }

    /** Verification with the checkpoint of the file accepts the whole chain. */
    ghost predicate Anchored()
      reads store, checkpoints
    {
      store.records != [] ==>
        var head := Head(Logged(checkpoints.lines));
        head.Some? && Accepts(store.records, store.h, head.value)
    }

    /** A line of the file is forged, or two lines contradict each other. */
    predicate Unreadable()
      reads checkpoints
    {
      || (exists i :: 0 <= i < |checkpoints.lines| &&
            checkpoints.lines[i].mac != checkpoints.mac(checkpoints.lines[i].checkpoint))
      || !Harmonious(Logged(checkpoints.lines))
    }

    /** Whether a chain without any checkpoint may be taken for good. */
    predicate MayStart()
      reads store, checkpoints
    {
      store.records == [] || checkpoints.lines != [] || allowCheckpointBootstrap
    }

    /** The store and the file fit together, as far as one listing and one reading can tell. */
    ghost predicate Reconcilable()
      reads store, checkpoints
    {
      var cs := Logged(checkpoints.lines);
      && Linked(store.records, store.h) && Authentic(checkpoints.lines, checkpoints.mac) && Harmonious(cs)
      && (Head(cs).Some? ==> Names(store.records, Head(cs).value)) && MayStart()
    }

    method Initialize() returns (r: Result<()>)
      modifies this`initialization, checkpoints`lines
      ensures old(initialization.Done?) ==> r.Ok? && initialization.Done? && checkpoints.lines == old(checkpoints.lines)
      ensures old(initialization.Rejected?) ==>
                r == Err(old(initialization).code) && initialization == old(initialization)
                && checkpoints.lines == old(checkpoints.lines)
      ensures old(initialization.Pending?) ==>
                && (r.Ok? <==> old(Reconcilable())) && (r.Ok? ==> initialization.Done? && Anchored())
                && (r.Err? ==> initialization == Rejected(r.code))
      ensures old(Sound()) ==> Sound()
    {
      match initialization {
        case Pending =>
          r := ReconcileCheckpoint();
          initialization := if r.Ok? then Done else Rejected(r.code);
        case Done => r := Ok(());
        case Rejected(code) => r := Err(code);
      }
    }

    /** Brings the checkpoint up to the chain, unless the two do not fit together. */
    method ReconcileCheckpoint() returns (r: Result<()>)
      modifies checkpoints`lines
      ensures r.Ok? <==> old(Reconcilable())
      ensures !Linked(store.records, store.h) ==> r == Err(BROKEN)
      ensures Linked(store.records, store.h) && old(Unreadable()) ==> r.Err?
      ensures Linked(store.records, store.h) && !old(Unreadable()) ==>
                var head, rs := Head(Logged(old(checkpoints.lines))), store.records;
                && (head.Some? &&
                    !(1 <= head.value.seqNo <= |rs| && rs[head.value.seqNo - 1].hash == head.value.hash) ==>
                      r == Err(NOT_CHECKPOINTED))
                && (head.None? && rs != [] && !allowCheckpointBootstrap ==> r == Err(NO_BOOTSTRAP))
      ensures r.Ok? ==> Anchored()
      ensures r.Err? ==> checkpoints.lines == old(checkpoints.lines)
      ensures old(Sound()) ==> Sound()
    {
      hide Head, Linked, AllName, Harmonious, Accepts, Authentic;
      AuthenticIs(checkpoints.lines, checkpoints.mac);
      var records := store.records;
      var chain := VerifyAuditChain(records, 1, None, store.h, None);
      if !chain.ok {
        return Err(BROKEN);
      }
      var read := checkpoints.Read();
      if read.Err? {
        return Err(read.code);
      }
      var checkpoint := read.value;
      if checkpoint.Some? {
        var c := checkpoint.value;
        if !(1 <= c.seqNo <= |records| && records[c.seqNo - 1].hash == c.hash) {
          return Err(NOT_CHECKPOINTED);
        }
      } else if records != [] && !allowCheckpointBootstrap {
        return Err(NO_BOOTSTRAP);
      }
      r := Ok(());
      ghost var cs := Logged(checkpoints.lines);
      if records != [] {
        var latest := records[|records| - 1];
        LatestNames(records, store.h);
        ghost var c := Checkpoint(latest.body.seqNo, latest.hash);
        ghost var lines := checkpoints.lines;
        if checkpoint.None? || latest.body.seqNo > checkpoint.value.seqNo {
          r := checkpoints.Advance(Checkpoint(latest.body.seqNo, latest.hash));
          assert Logged(lines + [Line(c, checkpoints.mac(c))]) == cs + [c];
          NewHead(cs, c);
          AuthenticThen(lines, checkpoints.mac, c);
          NamesThen(records, cs, c);
        } else {
          SamePlace(records, checkpoint.value, c);
        }
        LatestAccepts(records, store.h);
      }
    }

    /**
     A record is linked to the chain and then checkpointed. On sound files, a call succeeds unless the
     initialisation does not, and then verification with the checkpoint accepts everything up to the new
     record. A failure to advance leaves the record in the chain and has the next call reconcile.
     */
    method Append(input: AuditInput) returns (r: Result<AuditRecord>)
      modifies this`initialization, store`records, checkpoints`lines
      ensures r.Ok? ==> && r.value == NextRecord(old(store.records), input, store.h)
                        && store.records == old(store.records) + [r.value] && initialization.Done?
                        && r.value.body.input == input && r.value.hash == store.h(r.value.body)
      ensures r.Err? ==> && (initialization.Rejected? ==> store.records == old(store.records))
                         && (initialization.Pending? ==>
                               store.records == old(store.records) + [NextRecord(old(store.records), input, store.h)])
                         && !initialization.Done?
      ensures store.records == old(store.records)
              || (|store.records| == |old(store.records)| + 1
                  && store.records[..|old(store.records)|] == old(store.records)
                  && Follows(store.records[|old(store.records)|], old(store.records), input, store.h))
      ensures old(Sound()) ==>
                && Sound() && (r.Ok? ==> Anchored())
                && (r.Ok? <==> old(initialization.Done? || (initialization.Pending? && MayStart())))
    {
      hide Head, Linked, AllName, Harmonious, Names, Accepts, Authentic;
      if Sound() {
        SoundReconcilable(this);
      }
      var ready := Initialize();
      if ready.Err? {
        return Err(ready.code);
      }
      ghost var before, lines := store.records, checkpoints.lines;
      var record;
      if store.transactional {
        record := store.AppendLinked(input);
      } else {
        record := AppendWithoutTransaction(input);
      }
      ghost var c := Checkpoint(record.body.seqNo, record.hash);
      if old(Sound()) {
        GrownNames(before, input, store.h, Logged(lines));
        LatestNames(store.records, store.h);
        AdvanceSucceeds(store.records, Logged(lines), c);
        assert Logged(lines + [Line(c, checkpoints.mac(c))]) == Logged(lines) + [c];
        AuthenticThen(lines, checkpoints.mac, c);
        NamesThen(store.records, Logged(lines), c);
      }
      var advanced := checkpoints.Advance(Checkpoint(record.body.seqNo, record.hash));
      if advanced.Err? {
        initialization := Pending;
        return Err(advanced.code);
      }
      if old(Sound()) {
        FullHeadAccepts(store.records, store.h, Logged(checkpoints.lines));
      }
      r := Ok(record);
    }

    /** Right only while nobody else appends between the two calls. */
    method AppendWithoutTransaction(input: AuditInput) returns (record: AuditRecord)
      modifies store`records
      ensures record == NextRecord(old(store.records), input, store.h) && store.records == old(store.records) + [record]
      ensures record.body.input == input && record.hash == store.h(record.body)
      ensures Follows(record, old(store.records), input, store.h)
    {
      var previous := store.Latest();
      var body := Body(input, (if previous.None? then 0 else previous.value.body.seqNo) + 1,
                       if previous.None? then GENESIS_HASH else previous.value.hash);
      record := AuditRecord(body, store.h(body));
      store.Append(record);
    }
  }

  /** Sound files can be reconciled as soon as there is a checkpoint or none is needed. */
  lemma SoundReconcilable(w: AuditWriter)
    requires w.Sound()
    ensures w.Reconcilable() <==> w.MayStart()
  {
    hide Head, Linked, AllName, Harmonious, Names, Authentic;
    var cs := Logged(w.checkpoints.lines);
    NamingIsHarmonious(w.store.records, cs);
    HeadNames(w.store.records, cs);
  }

  lemma HeadNames(rs: seq<AuditRecord>, cs: seq<Checkpoint>)
    requires AllName(rs, cs)
    ensures Head(cs).Some? ==> Names(rs, Head(cs).value)
  {
    if cs != [] {
      HeadIsNewest(cs);
    }
  }

  /** A newer checkpoint becomes the head. */
  lemma NewHead(cs: seq<Checkpoint>, c: Checkpoint)
    requires cs == [] || c.seqNo > HeadSeq(cs)
    ensures Head(cs + [c]) == Some(c)
  {
    assert (cs + [c])[..|cs|] == cs;
  }

  lemma AuthenticThen(lines: seq<Line>, mac: Checkpoint -> string, c: Checkpoint)
    requires Authentic(lines, mac)
    ensures Authentic(lines + [Line(c, mac(c))], mac)
  {
  }

  lemma NamesThen(rs: seq<AuditRecord>, cs: seq<Checkpoint>, c: Checkpoint)
    requires Names(rs, c)
    ensures AllName(rs, cs) ==> AllName(rs, cs + [c])
  {
  }

  /** Advancing to a record of the chain never meets a conflict, and the head covers it. */
  lemma AdvanceSucceeds(rs: seq<AuditRecord>, cs: seq<Checkpoint>, c: Checkpoint)
    requires AllName(rs, cs) && Names(rs, c)
    ensures Harmonious(cs)
    ensures Head(cs).Some? && Head(cs).value.seqNo == c.seqNo ==> Head(cs).value.hash == c.hash
    ensures HeadSeq(cs + [c]) >= c.seqNo
    ensures Head(cs).Some? && c.seqNo <= Head(cs).value.seqNo ==> HeadSeq(cs) >= c.seqNo
  {
    NamingIsHarmonious(rs, cs);
    HeadNames(rs, cs);
    HeadNeverGoesBack(rs, cs, c);
  }

  lemma LatestAccepts(rs: seq<AuditRecord>, h: Body -> string)
    requires Linked(rs, h) && rs != []
    ensures Accepts(rs, h, Checkpoint(rs[|rs| - 1].body.seqNo, rs[|rs| - 1].hash))
  {
  }

  lemma SamePlace(rs: seq<AuditRecord>, a: Checkpoint, b: Checkpoint)
    requires Names(rs, a) && Names(rs, b) && a.seqNo == b.seqNo
    ensures a == b
  {
  }

  lemma LatestNames(rs: seq<AuditRecord>, h: Body -> string)
    requires Linked(rs, h) && rs != []
    ensures Names(rs, Checkpoint(rs[|rs| - 1].body.seqNo, rs[|rs| - 1].hash)) && rs[|rs| - 1].body.seqNo == |rs|
  {
    assert Good(rs, h, |rs| - 1);
  }

  /** The next record keeps the chain linked and every checkpoint on its place. */
  lemma GrownNames(rs: seq<AuditRecord>, input: AuditInput, h: Body -> string, cs: seq<Checkpoint>)
    requires Linked(rs, h) && AllName(rs, cs)
    ensures var all := rs + [NextRecord(rs, input, h)]; Linked(all, h) && AllName(all, cs)
  {
    assert rs[..|rs|] == rs;
    AppendLinks(rs, |rs|, input, h);
  }
}
