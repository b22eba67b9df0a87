/**
 The hash-linked audit chain and its verification against an external checkpoint. The keyed hash of a
 record is a function `h` of everything in the record but the hash itself; only the tamper-evidence
 results ask that it be injective.
 */
module AuditChain {
  import opened Numbers
  import opened Wrappers

  datatype AuditInput = AuditInput(
    ts: string, kind: string, actor: string, sessionId: Option<string>, requestSha256: string,
      entities: seq<AuditEntity>)

  datatype AuditEntity = AuditEntity(kind: string, action: string, count: nat)

  /** What the hash of a record is computed from. */
  datatype Body = Body(input: AuditInput, seqNo: int, prevHash: string)

  datatype AuditRecord = AuditRecord(body: Body, hash: string)

  datatype Checkpoint = Checkpoint(seqNo: int, hash: string)

  datatype VerifyResult = VerifyResult(ok: bool, firstBrokenSeq: Option<int>, verified: nat, outOfRange: bool)

  /** SHA-256 of the genesis label. */
  const GENESIS_HASH := "a05221a949f31fd67dc835f5000fb2008cc590960ac0cf0b73540fb75a64bd91"

  // ---- what a good chain is ----

  function PrevHash(rs: seq<AuditRecord>, i: nat): string
    requires i <= |rs|
  {
    if i == 0 then GENESIS_HASH else rs[i - 1].hash
  }

  predicate Good(rs: seq<AuditRecord>, h: Body -> string, i: nat)
    requires i < |rs|
  {
    rs[i].body.seqNo == i + 1 && rs[i].body.prevHash == PrevHash(rs, i) && rs[i].hash == h(rs[i].body)
  }

  predicate Linked(rs: seq<AuditRecord>, h: Body -> string) {
    forall i :: 0 <= i < |rs| ==> Good(rs, h, i)
  }

  /** The checkpoint is the last record. */
  predicate Anchors(c: Checkpoint, rs: seq<AuditRecord>) {
    rs != [] && c == Checkpoint(rs[|rs| - 1].body.seqNo, rs[|rs| - 1].hash)
  }

  predicate InRange(n: int, from: int, to: Option<int>) {
    from <= n && (to.Some? ==> n <= to.value)
  }

  /** How many of the records lie in the range asked for. */
  function CountIn(rs: seq<AuditRecord>, from: int, to: Option<int>): nat {
    if rs == [] then 0
    else CountIn(rs[..|rs| - 1], from, to) + if InRange(rs[|rs| - 1].body.seqNo, from, to) then 1 else 0
  }

  /** The sequence number reported when a linked chain does not end in the checkpoint. */
  function MissedAt(rs: seq<AuditRecord>, c: Checkpoint): int {
    if rs == [] then 1
    else if rs[|rs| - 1].body.seqNo < c.seqNo then rs[|rs| - 1].body.seqNo + 1
    else c.seqNo + 1
  }

  /** `to` is `None` for the latest record. */
  method VerifyAuditChain(records: seq<AuditRecord>, from: int, to: Option<int>, h: Body -> string,
                          checkpoint: Option<Checkpoint>)
    returns (r: VerifyResult)
    ensures r.ok <==> Linked(records, h) && (checkpoint.Some? ==> Anchors(checkpoint.value, records))
    ensures r.ok ==> r == VerifyResult(true, None, CountIn(records, from, to), false)
    ensures !Linked(records, h) ==>
              exists k :: 0 <= k < |records| && Linked(records[..k], h) && !Good(records, h, k)
                          && r == VerifyResult(false, Some(records[k].body.seqNo), CountIn(records[..k], from, to),
                                               !InRange(records[k].body.seqNo, from, to))
    ensures Linked(records, h) && !r.ok ==>
              r == VerifyResult(false, Some(MissedAt(records, checkpoint.value)), CountIn(records, from, to),
                                !InRange(MissedAt(records, checkpoint.value), from, to))
  {
    var previousHash, expectedSeq, verified, i := GENESIS_HASH, 1, 0, 0;
    while i < |records|
      invariant i <= |records| && expectedSeq == i + 1 && previousHash == PrevHash(records, i)
      invariant Linked(records[..i], h) && verified == CountIn(records[..i], from, to)
    {
      var record := records[i];
      var expectedHash := h(Body(record.body.input, record.body.seqNo, record.body.prevHash));
      var broken := record.body.seqNo != expectedSeq || record.body.prevHash != previousHash ||
        record.hash != expectedHash;
      if broken {
        assert !Good(records, h, i) && !Linked(records, h);
        return VerifyResult(false, Some(record.body.seqNo), verified, !InRange(record.body.seqNo, from, to));
      }
      if InRange(record.body.seqNo, from, to) {
        verified := verified + 1;
      }
      LinkedNext(records, h, i);
      assert records[..i + 1][..i] == records[..i];
      previousHash := record.hash;
      expectedSeq := expectedSeq + 1;
      i := i + 1;
    }
    assert records[..i] == records;
    assert records != [] ==> Good(records, h, |records| - 1);
    if checkpoint.Some? {
      var c := checkpoint.value;
      var anchored := 1 <= c.seqNo <= |records| && records[c.seqNo - 1].hash == c.hash;
      if !anchored || |records| == 0 || records[|records| - 1].body.seqNo != c.seqNo {
        var latest := if |records| == 0 then 0 else records[|records| - 1].body.seqNo;
        var firstBrokenSeq := if |records| == 0 || latest < c.seqNo then latest + 1 else c.seqNo + 1;
        return VerifyResult(false, Some(firstBrokenSeq), verified, !InRange(firstBrokenSeq, from, to));
      }
    }
    r := VerifyResult(true, None, verified, false);
  }

  lemma LinkedNext(rs: seq<AuditRecord>, h: Body -> string, i: nat)
    requires i < |rs| && Linked(rs[..i], h)
    ensures Linked(rs[..i + 1], h) <==> Good(rs, h, i)
    ensures Good(rs, h, i) ==> Good(rs[..i + 1], h, i)
  {
    var next := rs[..i + 1];
    assert forall j :: 0 <= j < i ==> (Good(rs[..i], h, j) <==> Good(next, h, j));
    assert Good(next, h, i) <==> Good(rs, h, i);
  }

  // ---- what acceptance means ----

  predicate Accepts(rs: seq<AuditRecord>, h: Body -> string, c: Checkpoint) {
    Linked(rs, h) && Anchors(c, rs)
  }

  ghost predicate Injective(h: Body -> string) {
    forall a, b :: h(a) == h(b) ==> a == b
  }

  /** With a hash that has no collisions, one checkpoint is met by one list of records only. */
  lemma TamperEvident(a: seq<AuditRecord>, b: seq<AuditRecord>, h: Body -> string, c: Checkpoint)
    requires Injective(h) && Accepts(a, h, c) && Accepts(b, h, c)
    ensures a == b
  {
    assert Good(a, h, |a| - 1) && Good(b, h, |b| - 1);
    SameFrom(a, b, h, |a|);
  }

  /** Chains that agree in one hash agree in everything before it. */
  lemma {:induction false} SameFrom(a: seq<AuditRecord>, b: seq<AuditRecord>, h: Body -> string, n: nat)
    requires Injective(h) && Linked(a, h) && Linked(b, h) && n <= |a| && n <= |b|
    requires PrevHash(a, n) == PrevHash(b, n)
    ensures a[..n] == b[..n]
  {
    if n > 0 {
      assert Good(a, h, n - 1) && Good(b, h, n - 1);
      assert a[n - 1].body == b[n - 1].body;
      SameFrom(a, b, h, n - 1);
      assert a[..n] == a[..n - 1] + [a[n - 1]] && b[..n] == b[..n - 1] + [b[n - 1]];
    }
  }

  /** Any list that differs from an accepted one is reported, whatever range is asked for. */
  lemma TamperReported(honest: seq<AuditRecord>, shown: seq<AuditRecord>, h: Body -> string, c: Checkpoint)
    requires Injective(h) && Accepts(honest, h, c) && shown != honest
    ensures !Accepts(shown, h, c)
  {
    if Accepts(shown, h, c) {
      TamperEvident(honest, shown, h, c);
    }
  }

  function Min(a: int, b: int): int { if a < b then a else b }

  /** On a linked chain the count is the size of the part of the range that the chain covers. */
  lemma {:induction false} CountInLinked(rs: seq<AuditRecord>, h: Body -> string, from: int, to: Option<int>)
    requires Linked(rs, h)
    ensures var last := if to.Some? then Min(to.value, |rs|) else |rs|;
            CountIn(rs, from, to) == Max(0, last - Max(from, 1) + 1)
  {
    if rs != [] {
      var n := |rs| - 1;
      assert Good(rs, h, n);
      assert forall j :: 0 <= j < n ==> Good(rs, h, j) && Good(rs[..n], h, j);
      CountInLinked(rs[..n], h, from, to);
    }
  }

  // ---- the linked append ----

  function NextRecord(rs: seq<AuditRecord>, input: AuditInput, h: Body -> string): AuditRecord {
    var body := Body(input, (if rs == [] then 0 else rs[|rs| - 1].body.seqNo) + 1, PrevHash(rs, |rs|));
    AuditRecord(body, h(body))
  }

  /** A record holds this input, stands behind the last one, and carries the hash of all that. */
  predicate Follows(r: AuditRecord, rs: seq<AuditRecord>, input: AuditInput, h: Body -> string) {
    && r.body.input == input && r.hash == h(r.body)
    && if rs == [] then r.body.seqNo == 1 && r.body.prevHash == GENESIS_HASH
       else r.body.seqNo == rs[|rs| - 1].body.seqNo + 1 && r.body.prevHash == rs[|rs| - 1].hash
  }

  /** A record built on what was the chain at some earlier time fits exactly when nothing was added since. */
  lemma AppendLinks(rs: seq<AuditRecord>, n: nat, input: AuditInput, h: Body -> string)
    requires Linked(rs, h) && n <= |rs|
    ensures Linked(rs + [NextRecord(rs[..n], input, h)], h) <==> n == |rs|
  {
    var r := NextRecord(rs[..n], input, h);
    var all := rs + [r];
    assert n > 0 ==> Good(rs, h, n - 1);
    assert all[..|rs|] == rs && all[..|rs| + 1] == all;
    LinkedNext(all, h, |rs|);
    if n == |rs| {
      assert rs[..n] == rs;
    }
  }

  /** The number reported lies behind the chain exactly when the checkpoint is not before its last record. */
  lemma ReportedBehind(rs: seq<AuditRecord>, h: Body -> string, c: Checkpoint)
    requires Linked(rs, h) && !Anchors(c, rs)
    ensures MissedAt(rs, c) > |rs| <==> rs == [] || c.seqNo >= |rs|
    ensures rs != [] && c.seqNo >= |rs| ==> MissedAt(rs, c) == |rs| + 1
    ensures rs == [] ==> MissedAt(rs, c) == 1
    ensures rs != [] && c.seqNo < |rs| ==> MissedAt(rs, c) == c.seqNo + 1
  {
    assert rs != [] ==> Good(rs, h, |rs| - 1);
  }

  /** A chain of one record, its checkpoint with the wrong hash: record 2 is reported, outside the range 1 to 1. */
  lemma WrongHashReported(input: AuditInput, h: Body -> string, hash: string)
    requires hash != NextRecord([], input, h).hash
    ensures var rs := [NextRecord([], input, h)];
            && Accepts(rs, h, Checkpoint(1, rs[0].hash)) && !Accepts(rs, h, Checkpoint(1, hash))
            && MissedAt(rs, Checkpoint(1, hash)) == 2 && !InRange(2, 1, Some(1))
  {
    var rs := [NextRecord([], input, h)];
    assert [] + rs == rs;
    AppendLinks([], 0, input, h);
    assert Good(rs, h, 0);
  }
}
