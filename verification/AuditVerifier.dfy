/** The independent verifier of a workspace's audit chain. */
module AuditVerifier {
  import opened Prelude
  import opened AuditChain
  import S = AuditStore

  datatype Report =
    | Intact(total: nat)
    | Broken(total: nat, brokenSequence: int, fault: Fault)
    | Failed(sequenceNumber: int)

  /** The length of the longest valid prefix. */
  function ValidLength(c: Crypto, rs: seq<StoredRecord>): (n: nat)
    ensures n <= |rs|
  {
    if rs == [] then 0
    else
      var n := ValidLength(c, rs[..|rs| - 1]);
      if n < |rs| - 1 || FaultOf(c, Head(rs[..|rs| - 1]), |rs|, rs[|rs| - 1]).Some? then n else |rs|
  }

  function Inspect(c: Crypto, rs: seq<StoredRecord>): Report
  {
    var n := ValidLength(c, rs);
    if n == |rs| then Intact(|rs|)
    else
      match FaultOf(c, Head(rs[..n]), n + 1, rs[n])
      case Some(CanonicalisationFailed) => Failed(rs[n].sequenceNumber)
      case Some(fault) => Broken(|rs|, rs[n].sequenceNumber, fault)
      case None => Intact(|rs|)
  }

  method CheckRecord(c: Crypto, expectedPrev: string, expectedSeq: int, rec: StoredRecord) returns (fault: Option<Fault>)
    ensures fault == FaultOf(c, expectedPrev, expectedSeq, rec)
  {
    if rec.sequenceNumber != expectedSeq { return Some(SequenceGap); }
    if rec.body.prevHash != expectedPrev { return Some(BrokenLinkage); }
    var recomputed := ComputeCanonicalPayload(c, rec.body);
    if recomputed.None? { return Some(CanonicalisationFailed); }
    if recomputed.value != rec.body.canonicalPayload { return Some(PayloadTampered); }
    if rec.body.rowHash != RowHash(c, rec.body.prevHash, recomputed.value) { return Some(RowHashCorrupt); }
    fault := None;
  }

  /** One more record is part of the valid prefix, or ends it. */
  lemma StepOrStop(c: Crypto, rs: seq<StoredRecord>, i: nat)
    requires i < |rs| && ValidLength(c, rs[..i]) == i
    ensures var fault := FaultOf(c, Head(rs[..i]), i + 1, rs[i]);
      if fault.None? then ValidLength(c, rs[..i + 1]) == i + 1
      else Inspect(c, rs) == if fault.value == CanonicalisationFailed then Failed(rs[i].sequenceNumber)
                             else Broken(|rs|, rs[i].sequenceNumber, fault.value)
  {
    hide FaultOf, Head;
    assert rs[..i + 1][..i] == rs[..i];
    PrefixLength(c, rs, i + 1);
  }

  /** Oldest first. */
  method Chronological(desc: seq<StoredRecord>) returns (records: seq<StoredRecord>)
    ensures records == Reverse(desc)
  {
    records := [];
    for i := 0 to |desc|
      invariant |records| == i && forall j :: 0 <= j < i ==> records[j] == desc[|desc| - 1 - j]
    {
      records := records + [desc[|desc| - 1 - i]];
    }
  }

  method VerifyWorkspace(c: Crypto, store: S.MemoryStore, ws: string) returns (report: Report)
    ensures report == Inspect(c, S.Chain(store.Contents(), ws))
  {
    ghost var all := S.Chain(store.Contents(), ws);
    hide FaultOf, ValidLength, Inspect;
    NothingInspected(c, all);
    var desc := store.ListRecords(ws, 0);
    var total := |desc|;
    if total == 0 { return Intact(0); }
    var records := Chronological(desc);
    assert records == all;
    var expectedPrev := GENESIS;
    for i := 0 to |records|
      invariant ValidLength(c, all[..i]) == i && expectedPrev == Head(all[..i])
    {
      var rec := records[i];
      StepOrStop(c, all, i);
      var fault := CheckRecord(c, expectedPrev, i + 1, rec);
      if fault == Some(CanonicalisationFailed) { return Failed(rec.sequenceNumber); }
      if fault.Some? { return Broken(total, rec.sequenceNumber, fault.value); }
      expectedPrev := rec.body.rowHash;
    }
    AllInspected(c, all);
    report := Intact(total);
  }

  lemma NothingInspected(c: Crypto, rs: seq<StoredRecord>)
    ensures ValidLength(c, rs[..0]) == 0
    ensures rs == [] ==> Inspect(c, rs) == Intact(0)
  {
  }

  lemma AllInspected(c: Crypto, rs: seq<StoredRecord>)
    requires ValidLength(c, rs[..|rs|]) == |rs|
    ensures Inspect(c, rs) == Intact(|rs|)
  {
    assert rs[..|rs|] == rs;
  }

  /** A prefix has a shorter valid part only when the whole has. */
  lemma {:induction false} PrefixLength(c: Crypto, rs: seq<StoredRecord>, n: nat)
    requires n <= |rs|
    ensures ValidLength(c, rs[..n]) < n ==> ValidLength(c, rs) == ValidLength(c, rs[..n])
  {
    if n == |rs| {
      assert rs[..n] == rs;
    } else {
      assert rs[..|rs| - 1][..n] == rs[..n];
      PrefixLength(c, rs[..|rs| - 1], n);
    }
  }

  /** The first `n` records are a valid chain, and the record behind them, if any, has a fault. */
  ghost predicate StopsAt(c: Crypto, rs: seq<StoredRecord>, n: nat)
    requires n <= |rs|
  {
    && ChainValid(c, rs[..n])
    && (n < |rs| ==> FaultOf(c, Head(rs[..n]), n + 1, rs[n]).Some? && !InPlace(c, rs, n))
  }

  /** The valid length is exactly that: everything before it is a valid chain, and the record there,
      if any, has a fault. */
  lemma {:induction false} ValidLengthExactly(c: Crypto, rs: seq<StoredRecord>)
    ensures StopsAt(c, rs, ValidLength(c, rs))
  {
    if rs != [] {
      var init := rs[..|rs| - 1];
      ValidLengthExactly(c, init);
      LengthStep(c, rs);
      if ValidLength(c, init) < |init| { StopsStill(c, rs, ValidLength(c, init)); } else { LastDecides(c, rs); }
      hide ValidLength, StopsAt, FaultOf, Head;
    }
  }

  lemma StopsStill(c: Crypto, rs: seq<StoredRecord>, n: nat)
    requires n < |rs| - 1 && StopsAt(c, rs[..|rs| - 1], n)
    ensures StopsAt(c, rs, n)
  {
    InPlaceExactly(c, rs, n);
    hide FaultOf, Head, InPlace, ChainValid;
    assert rs[..|rs| - 1][..n] == rs[..n];
  }

  lemma LastDecides(c: Crypto, rs: seq<StoredRecord>)
    requires rs != [] && StopsAt(c, rs[..|rs| - 1], |rs| - 1)
    ensures StopsAt(c, rs, if FaultOf(c, Head(rs[..|rs| - 1]), |rs|, rs[|rs| - 1]).Some? then |rs| - 1 else |rs|)
  {
    var init, last := rs[..|rs| - 1], rs[|rs| - 1];
    assert init[..|init|] == init && rs == init + [last] && rs[..|rs|] == rs;
    InPlaceExactly(c, rs, |init|);
    AppendExactly(c, init, last);
    hide FaultOf, Head, InPlace, ChainValid;
  }

  lemma LengthStep(c: Crypto, rs: seq<StoredRecord>)
    requires rs != []
    ensures var init := rs[..|rs| - 1];
      var n := ValidLength(c, init);
      ValidLength(c, rs) == if n < |init| || FaultOf(c, Head(init), |rs|, rs[|rs| - 1]).Some? then n else |rs|
  {
    hide FaultOf, Head;
  }

  /** The report names record `n` with its fault, and everything before it is a valid chain. */
  ghost predicate Names(c: Crypto, rs: seq<StoredRecord>, report: Report, n: nat) {
    && n < |rs| && ChainValid(c, rs[..n]) && !InPlace(c, rs, n)
    && (match FaultOf(c, Head(rs[..n]), n + 1, rs[n])
        case Some(CanonicalisationFailed) => report == Failed(rs[n].sequenceNumber)
        case Some(fault) => report == Broken(|rs|, rs[n].sequenceNumber, fault)
        case None => false)
  }

  /** The verifier is exact. It reports a chain intact exactly when it is valid; otherwise it names
      the first record that is not in its place. */
  lemma VerifierExact(c: Crypto, rs: seq<StoredRecord>)
    ensures Inspect(c, rs).Intact? <==> ChainValid(c, rs)
    ensures Inspect(c, rs).Intact? ==> Inspect(c, rs).total == |rs|
    ensures !ChainValid(c, rs) ==> exists n :: Names(c, rs, Inspect(c, rs), n)
  {
    var n := ValidLength(c, rs);
    ValidLengthExactly(c, rs);
    if n == |rs| {
      assert rs[..n] == rs;
    } else {
      assert Names(c, rs, Inspect(c, rs), n);
    }
  }

  /** A valid prefix followed by a faulty record settles the report. */
  lemma FirstFaultReported(c: Crypto, rs: seq<StoredRecord>, n: nat)
    requires n < |rs| && ChainValid(c, rs[..n]) && FaultOf(c, Head(rs[..n]), n + 1, rs[n]).Some?
    ensures ValidLength(c, rs) == n
  {
    ValidLengthExactly(c, rs);
    InPlaceExactly(c, rs, n);
    var m := ValidLength(c, rs);
    if m < n {
      assert InPlace(c, rs[..n], m);
      PrefixInPlace(c, rs, n, m);
    } else if m > n {
      assert InPlace(c, rs[..m], n);
      PrefixInPlace(c, rs, m, n);
    }
  }

  /** Deleting any record but the last is reported, at the number of the record that followed it,
      whatever the hash does. */
  lemma DeletionReported(c: Crypto, rs: seq<StoredRecord>, k: nat)
    requires ChainValid(c, rs) && k < |rs| - 1
    ensures Inspect(c, rs[..k] + rs[k + 1..]) == Broken(|rs| - 1, k + 2, SequenceGap)
  {
    var shorter := rs[..k] + rs[k + 1..];
    assert shorter[..k] == rs[..k] && shorter[k] == rs[k + 1];
    assert InPlace(c, rs, k + 1);
    ValidPrefix(c, rs, k);
    FirstFaultReported(c, shorter, k);
  }

  /** Deleting the newest records is not: what is left is a valid chain. */
  lemma TruncationPasses(c: Crypto, rs: seq<StoredRecord>, n: nat)
    requires ChainValid(c, rs) && n <= |rs|
    ensures Inspect(c, rs[..n]) == Intact(n)
  {
    ValidPrefix(c, rs, n);
    VerifierExact(c, rs[..n]);
  }

  /** Swapping two records of a valid chain is reported at the earlier place. */
  lemma ReorderingReported(c: Crypto, rs: seq<StoredRecord>, i: nat, j: nat)
    requires ChainValid(c, rs) && i < j < |rs|
    ensures Inspect(c, rs[i := rs[j]][j := rs[i]]) == Broken(|rs|, j + 1, SequenceGap)
  {
    var swapped := rs[i := rs[j]][j := rs[i]];
    assert swapped[..i] == rs[..i];
    assert InPlace(c, rs, j);
    ValidPrefix(c, rs, i);
    FirstFaultReported(c, swapped, i);
  }

  /** What the verifier reports when the body of any one record of a valid chain was overwritten: the
      first check the new body fails, in this order; when it fails none but its hash is new, the broken
      link at the next record; and nothing when there is no next one. */
  lemma OverwriteReported(c: Crypto, rs: seq<StoredRecord>, i: nat, body: DecisionRecord)
    requires ChainValid(c, rs) && i < |rs|
    ensures Inspect(c, rs[i := rs[i].(body := body)]) ==
      if body.prevHash != rs[i].body.prevHash then Broken(|rs|, i + 1, BrokenLinkage)
      else if Payload(c, body).None? then Failed(i + 1)
      else if Payload(c, body).value != body.canonicalPayload then Broken(|rs|, i + 1, PayloadTampered)
      else if body.rowHash != c.hash(body.prevHash + body.canonicalPayload) then Broken(|rs|, i + 1, RowHashCorrupt)
      else if body.rowHash != rs[i].body.rowHash && i + 1 < |rs| then Broken(|rs|, i + 2, BrokenLinkage)
      else Intact(|rs|)
  {
    var after := rs[i := rs[i].(body := body)];
    assert InPlace(c, rs, i);
    ValidPrefix(c, rs, i);
    assert after[..i] == rs[..i];
    if FaultOf(c, Head(after[..i]), i + 1, after[i]).Some? {
      FirstFaultReported(c, after, i);
      hide ChainValid, Payload;
    } else {
      OverwrittenInPlace(c, rs, i, after);
      hide Payload, FaultOf, ChainValid;
    }
  }

  /** The overwritten record fits its place; the next one decides. */
  lemma OverwrittenInPlace(c: Crypto, rs: seq<StoredRecord>, i: nat, after: seq<StoredRecord>)
    requires ChainValid(c, rs) && i < |rs| == |after| && after == rs[i := after[i]]
    requires FaultOf(c, Head(after[..i]), i + 1, after[i]).None?
    ensures Inspect(c, after) ==
      if after[i].body.rowHash != rs[i].body.rowHash && i + 1 < |rs| then Broken(|rs|, i + 2, BrokenLinkage) else Intact(|rs|)
  {
    InPlaceExactly(c, after, i);
    assert i + 1 < |rs| ==> InPlace(c, rs, i + 1);
    var broken := i + 1 < |rs| && after[i].body.rowHash != rs[i].body.rowHash;
    forall j | 0 <= j < |rs| && (j != i + 1 || !broken) ensures InPlace(c, after, j) {
      if j != i { StillInPlace(c, rs, i, after, j); }
    }
    if broken {
      LinkBroken(c, after, i + 1);
    } else {
      VerifierExact(c, after);
    }
    hide Inspect, FaultOf, RowHash, Payload, Head;
  }

  lemma StillInPlace(c: Crypto, rs: seq<StoredRecord>, i: nat, after: seq<StoredRecord>, j: nat)
    requires i < |rs| == |after| && after == rs[i := after[i]] && j < |rs| && j != i
    requires InPlace(c, rs, j) && (j == i + 1 ==> after[i].body.rowHash == rs[i].body.rowHash)
    ensures InPlace(c, after, j)
  {
  }

  lemma LinkBroken(c: Crypto, rs: seq<StoredRecord>, n: nat)
    requires 0 < n < |rs| && forall j :: 0 <= j < n ==> InPlace(c, rs, j)
    requires rs[n].sequenceNumber == n + 1 && rs[n].body.prevHash != rs[n - 1].body.rowHash
    ensures Inspect(c, rs) == Broken(|rs|, n + 1, BrokenLinkage)
  {
    var before := rs[..n];
    forall j | 0 <= j < |before| ensures InPlace(c, before, j) { PrefixInPlace(c, rs, n, j); }
    hide InPlace, Payload, RowHash;
    assert Head(before) == rs[n - 1].body.rowHash;
    FirstFaultReported(c, rs, n);
  }

  /** In particular, changing nothing but what a record says is reported at that record. */
  lemma EditReported(c: Crypto, rs: seq<StoredRecord>, i: nat, body: DecisionRecord)
    requires c.Valid() && ChainValid(c, rs) && i < |rs| && !SameContent(body, rs[i].body)
    requires body.prevHash == rs[i].body.prevHash && body.canonicalPayload == rs[i].body.canonicalPayload
    ensures Inspect(c, rs[i := rs[i].(body := body)])
         == if Payload(c, body).None? then Failed(i + 1) else Broken(|rs|, i + 1, PayloadTampered)
  {
    assert InPlace(c, rs, i);
    OverwriteReported(c, rs, i, body);
    CanonicalExactly(body, rs[i].body);
    hide Inspect, ChainValid, SameContent, CanonicalOf;
  }
}
