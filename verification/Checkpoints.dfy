/**
 The external checkpoint: a log file to which heads are appended and from which the newest is selected,
 and its in-memory counterpart.
 */
module Checkpoints {
  import opened Numbers
  import opened Wrappers
  import opened AuditChain

  const CONFLICT := "audit checkpoint hash conflicts with the current head"
  const LOG_CONFLICT := "audit checkpoint log contains conflicting heads"
  const FORGED := "audit checkpoint authentication failed"

  /** One line of the log file, with the code that authenticates it. */
  datatype Line = Line(checkpoint: Checkpoint, mac: string)

  // ---- what reading the log comes to ----

  predicate Authentic(lines: seq<Line>, mac: Checkpoint -> string) {
    forall l :: l in lines ==> l.mac == mac(l.checkpoint)
  }

  /** The newest checkpoint of a log, the first line that has it. */
  function Head(cs: seq<Checkpoint>): (c: Option<Checkpoint>)
    ensures c.None? <==> cs == []
  {
    if cs == [] then None
    else
      var before, last := Head(cs[..|cs| - 1]), cs[|cs| - 1];
      if before.Some? && last.seqNo <= before.value.seqNo then before else Some(last)
  }

  lemma {:induction false} HeadIsNewest(cs: seq<Checkpoint>)
    requires cs != []
    ensures Head(cs).value in cs && forall c :: c in cs ==> c.seqNo <= Head(cs).value.seqNo
  {
    var init, last := cs[..|cs| - 1], cs[|cs| - 1];
    assert forall c :: c in cs <==> c in init || c == last;
    if init != [] {
      HeadIsNewest(init);
    }
  }

  /** No line contradicts the head selected from the lines before it. */
  predicate Harmonious(cs: seq<Checkpoint>) {
    cs != [] ==>
      && Harmonious(cs[..|cs| - 1])
      && var before, last := Head(cs[..|cs| - 1]), cs[|cs| - 1];
         before.Some? && before.value.seqNo == last.seqNo ==> before.value.hash == last.hash
  }

  function Logged(lines: seq<Line>): (cs: seq<Checkpoint>)
    ensures |cs| == |lines| && forall i :: 0 <= i < |lines| ==> cs[i] == lines[i].checkpoint
  {
    seq(|lines|, i requires 0 <= i < |lines| => lines[i].checkpoint)
  }

  lemma AuthenticIs(lines: seq<Line>, mac: Checkpoint -> string)
    ensures Authentic(lines, mac) <==> forall i :: 0 <= i < |lines| ==> lines[i].mac == mac(lines[i].checkpoint)
  {
  }

  /** The `j`-th line is as new as every line before it. */
  predicate Newest(cs: seq<Checkpoint>, j: nat)
    requires j < |cs|
  {
    forall i :: 0 <= i < j ==> cs[i].seqNo <= cs[j].seqNo
  }

  /** The head is the first line that none is newer than. */
  lemma {:induction false} HeadAt(cs: seq<Checkpoint>) returns (i: nat)
    requires cs != []
    ensures i < |cs| && Head(cs) == Some(cs[i])
    ensures forall j :: 0 <= j < |cs| ==> cs[j].seqNo <= cs[i].seqNo
    ensures forall j :: 0 <= j < i ==> cs[j].seqNo < cs[i].seqNo
  {
    var n := |cs| - 1;
    if n == 0 {
      i := 0;
    } else {
      i := HeadAt(cs[..n]);
      if cs[n].seqNo > cs[i].seqNo {
        i := n;
      }
    }
  }

  /** If the `j`-th line is as new as all before it, it agrees with those of its number. */
  predicate Agrees(cs: seq<Checkpoint>, j: nat)
    requires j < |cs|
  {
    Newest(cs, j) ==> forall i :: 0 <= i < j ==> (cs[i].seqNo == cs[j].seqNo ==> cs[i].hash == cs[j].hash)
  }

  /** The last line agrees exactly when it does not contradict the head before it. */
  lemma LastAgrees(cs: seq<Checkpoint>, init: seq<Checkpoint>)
    requires cs != [] && init == cs[..|cs| - 1] && Harmonious(init)
    requires forall j :: 0 <= j < |init| ==> Agrees(init, j)
    ensures var before, last := Head(init), cs[|cs| - 1];
            Agrees(cs, |cs| - 1) <==>
            (before.Some? && before.value.seqNo == last.seqNo ==> before.value.hash == last.hash)
  {
    hide Head, Harmonious;
    var n := |cs| - 1;
    if n > 0 {
      var h := HeadAt(init);
      assert init[h] == cs[h];
      if cs[n].seqNo == cs[h].seqNo && cs[h].hash == cs[n].hash {
        forall i | 0 <= i < n && cs[i].seqNo == cs[n].seqNo
          ensures cs[i].hash == cs[n].hash
        {
          assert init[i] == cs[i] && h <= i;
          assert Agrees(init, i);
        }
      }
    }
  }

  /**
   A log holds no conflict exactly when no line that is as new as all before it has another hash than an
   earlier line with its number.
   */
  lemma {:induction false} HarmoniousIs(cs: seq<Checkpoint>)
    ensures Harmonious(cs) <==> forall j :: 0 <= j < |cs| ==> Agrees(cs, j)
  {
    hide Head, Agrees;
    if cs != [] {
      var n := |cs| - 1;
      HarmoniousIs(cs[..n]);
      forall j | 0 <= j < n
        ensures Agrees(cs, j) == Agrees(cs[..n], j)
      {
        AgreesBefore(cs, n, j);
      }
      if Harmonious(cs[..n]) {
        LastAgrees(cs, cs[..n]);
      }
    }
  }

  lemma AgreesBefore(cs: seq<Checkpoint>, n: nat, j: nat)
    requires j < n <= |cs|
    ensures Agrees(cs, j) == Agrees(cs[..n], j)
  {
    assert forall i :: 0 <= i < n ==> cs[..n][i] == cs[i];
  }

  /** What a reader of the file gets. */
  predicate ReadsAs(lines: seq<Line>, mac: Checkpoint -> string, r: Result<Option<Checkpoint>>) {
    if Authentic(lines, mac) && Harmonious(Logged(lines)) then r == Ok(Head(Logged(lines))) else r.Err?
  }

  /** A later line, as new as all before it, has the number of an earlier one and another hash. */
  predicate Contradicts(lines: seq<Line>, i: nat, j: nat)
    requires i < j < |lines|
  {
    && lines[i].checkpoint.seqNo == lines[j].checkpoint.seqNo && lines[i].checkpoint.hash != lines[j].checkpoint.hash
    && Newest(Logged(lines), j)
  }

  lemma NoContradiction(lines: seq<Line>)
    requires Harmonious(Logged(lines))
    ensures forall i, j :: 0 <= i < j < |lines| ==> !Contradicts(lines, i, j)
  {
    hide Harmonious;
    HarmoniousIs(Logged(lines));
    forall i, j | 0 <= i < j < |lines|
      ensures !Contradicts(lines, i, j)
    {
      assert Agrees(Logged(lines), j);
      assert Logged(lines)[i] == lines[i].checkpoint;
    }
  }

  class FileAuditCheckpointStore {
    var lines: seq<Line>
    const mac: Checkpoint -> string

    constructor (mac: Checkpoint -> string)
      ensures this.mac == mac && lines == []
    {
      this.mac, lines := mac, [];
    }

    method Read() returns (r: Result<Option<Checkpoint>>)
      ensures ReadsAs(lines, mac, r)
      ensures (exists i :: 0 <= i < |lines| && lines[i].mac != mac(lines[i].checkpoint)) ==> r.Err?
      ensures (exists i, j :: 0 <= i < j < |lines| && Contradicts(lines, i, j)) ==> r.Err?
    {
      hide Head, Harmonious;
      var head: Option<Checkpoint> := None;
      var i := 0;
      ghost var cs := Logged(lines);
      assert cs[..0] == [] && Harmonious([]) && Head([]) == None by { NothingLogged(); }
      while i < |lines|
        invariant i <= |lines|
        invariant Authentic(lines[..i], mac) && Harmonious(cs[..i]) && head == Head(cs[..i])
      {
        var line := lines[i];
        LogNext(cs, i);
        assert lines[..i + 1] == lines[..i] + [line];
        if line.mac != mac(line.checkpoint) {
          assert line in lines;
          return Err(FORGED);
        }
        var candidate := line.checkpoint;
        if head.Some? && head.value.seqNo == candidate.seqNo && head.value.hash != candidate.hash {
          HarmoniousPrefix(cs, i + 1);
          return Err(LOG_CONFLICT);
        }
        head := if head.None? || candidate.seqNo > head.value.seqNo then Some(candidate) else head;
        i := i + 1;
      }
      assert lines[..i] == lines && cs[..i] == cs;
      NoContradiction(lines);
      r := Ok(head);
    }

    /** Appends a line only for a checkpoint newer than the head, and never against it. */
    method Advance(c: Checkpoint) returns (r: Result<()>)
      modifies this`lines
      ensures r.Err? ==> lines == old(lines)
      ensures Authentic(old(lines), mac) && Harmonious(Logged(old(lines))) ==>
                var head := Head(Logged(old(lines)));
                && (r.Err? <==> head.Some? && head.value.seqNo == c.seqNo && head.value.hash != c.hash)
                && (r.Ok? ==>
                      lines == if head.Some? && c.seqNo <= head.value.seqNo then old(lines)
                               else old(lines) + [Line(c, mac(c))])
      ensures !(Authentic(old(lines), mac) && Harmonious(Logged(old(lines)))) ==> r.Err?
    {
      var current := Read();
      if current.Err? {
        return Err(current.code);
      }
      if current.value.Some? && current.value.value.seqNo == c.seqNo && current.value.value.hash != c.hash {
        return Err(CONFLICT);
      }
      if current.value.Some? && c.seqNo <= current.value.value.seqNo {
        return Ok(());
      }
      lines := lines + [Line(c, mac(c))];
      r := Ok(());
    }
  }

  class MemoryAuditCheckpointStore {
    var checkpoint: Option<Checkpoint>

    constructor ()
      ensures checkpoint == None
    {
      checkpoint := None;
    }

    /** Keeps the head of everything it was advanced to. */
    method Advance(c: Checkpoint, ghost past: seq<Checkpoint>) returns (r: Result<()>)
      requires checkpoint == Head(past)
      modifies this
      ensures r.Ok? ==> checkpoint == Head(past + [c])
      ensures r.Err? ==> checkpoint == old(checkpoint)
      ensures Harmonious(past) ==> (r.Ok? <==> Harmonious(past + [c]))
    {
      assert (past + [c])[..|past|] == past;
      if checkpoint.Some? && checkpoint.value.seqNo == c.seqNo && checkpoint.value.hash != c.hash {
        return Err(CONFLICT);
      }
      if checkpoint.None? || c.seqNo > checkpoint.value.seqNo {
        checkpoint := Some(c);
      }
      r := Ok(());
    }
  }

  lemma NothingLogged()
    ensures Harmonious([]) && Head([]) == None
  {
  }

  /** What the next line does to the head. */
  lemma LogNext(cs: seq<Checkpoint>, i: nat)
    requires i < |cs|
    ensures var before, c := Head(cs[..i]), cs[i];
            && (Harmonious(cs[..i + 1]) <==>
                  Harmonious(cs[..i]) &&
                  (before.Some? && before.value.seqNo == c.seqNo ==> before.value.hash == c.hash))
            && Head(cs[..i + 1]) == if before.Some? && c.seqNo <= before.value.seqNo then before else Some(c)
  {
    assert cs[..i + 1][..i] == cs[..i];
  }

  lemma {:induction false} HarmoniousPrefix(cs: seq<Checkpoint>, n: nat)
    requires n <= |cs|
    ensures Harmonious(cs) ==> Harmonious(cs[..n])
    decreases |cs|
  {
    hide Head;
    if n < |cs| {
      assert cs[..|cs| - 1][..n] == cs[..n];
      HarmoniousPrefix(cs[..|cs| - 1], n);
    } else {
      assert cs[..n] == cs;
    }
  }

  // ---- logs that only ever name records of one chain ----

  /** `c` is a record of the chain. */
  predicate Names(rs: seq<AuditRecord>, c: Checkpoint) {
    1 <= c.seqNo <= |rs| && rs[c.seqNo - 1].hash == c.hash
  }

  predicate AllName(rs: seq<AuditRecord>, cs: seq<Checkpoint>) {
    forall c :: c in cs ==> Names(rs, c)
  }

  /** In such a log nothing conflicts, in whatever order the lines were written. */
  lemma {:induction false} NamingIsHarmonious(rs: seq<AuditRecord>, cs: seq<Checkpoint>)
    requires AllName(rs, cs)
    ensures Harmonious(cs)
  {
    hide Head;
    if cs != [] {
      var init, last := cs[..|cs| - 1], cs[|cs| - 1];
      assert forall c :: c in init ==> c in cs;
      NamingIsHarmonious(rs, init);
      assert last in cs;
      if init != [] {
        HeadIsNewest(init);
      }
    }
  }

  function HeadSeq(cs: seq<Checkpoint>): int {
    if Head(cs).Some? then Head(cs).value.seqNo else 0
  }

  /** The head of a naming log moves to a later record or stays where it is. */
  lemma HeadNeverGoesBack(rs: seq<AuditRecord>, cs: seq<Checkpoint>, c: Checkpoint)
    requires AllName(rs, cs) && Names(rs, c)
    ensures HeadSeq(cs + [c]) == Max(HeadSeq(cs), c.seqNo)
    ensures Names(rs, Head(cs + [c]).value)
    ensures Head(cs).Some? && c.seqNo <= HeadSeq(cs) ==> Head(cs + [c]) == Head(cs)
  {
    assert (cs + [c])[..|cs|] == cs;
    if cs != [] {
      HeadIsNewest(cs);
    }
  }

  /** A head as far as the chain goes is its anchor. */
  lemma FullHeadAccepts(rs: seq<AuditRecord>, h: Body -> string, cs: seq<Checkpoint>)
    requires Linked(rs, h) && AllName(rs, cs) && rs != [] && HeadSeq(cs) >= |rs|
    ensures Head(cs).Some? && Accepts(rs, h, Head(cs).value)
  {
    assert Good(rs, h, |rs| - 1);
    HeadIsNewest(cs);
  }
}
