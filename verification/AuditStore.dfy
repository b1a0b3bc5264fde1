/** The in-memory audit store: one append-only list per workspace. */
module AuditStore {
  import opened Prelude
  import opened AuditChain

  datatype AppendError = WriteFault | WorkspaceRequired

  datatype State = State(records: map<string, seq<StoredRecord>>, globalId: nat, faulty: bool)

  function Chain(s: State, ws: string): seq<StoredRecord> { if ws in s.records then s.records[ws] else [] }

  /** The record as it is stored: a missing time and event type are filled in. */
  function Filled(r: DecisionRecord, now: int): DecisionRecord
  {
    r.(timestamp := if r.timestamp == 0 then now else r.timestamp, eventType := EffectiveType(r.eventType))
  }

  function AppendFails(s: State, ws: string): Option<AppendError>
  {
    if s.faulty then Some(WriteFault) else if ws == "" then Some(WorkspaceRequired) else None
  }

  function Append(s: State, r: DecisionRecord, now: int): (State, Result<StoredRecord, AppendError>)
  {
    if AppendFails(s, r.workspaceId).Some? then (s, Err(AppendFails(s, r.workspaceId).value))
    else
      var rs := Chain(s, r.workspaceId);
      var stored := StoredRecord(s.globalId + 1, |rs| + 1, Filled(r, now));
      (s.(records := s.records[r.workspaceId := rs + [stored]], globalId := s.globalId + 1), Ok(stored))
  }

  datatype MutationEvent = MutationEvent(
    workspaceId: string, action: string, previousVersion: string, newVersion: string, correlationId: string,
    timestamp: int, operatorId: string)

  /** The record of a mutation, before any hash is computed. */
  function MutationRecord(e: MutationEvent, timestamp: int, prevHash: string): DecisionRecord
  {
    DecisionRecord(e.workspaceId, e.correlationId, timestamp, EVENT_MUTATION, "MUTATION", e.action, e.operatorId, [], "", "", "", "",
                   e.newVersion, e.previousVersion, map[], "", "", prevHash, "")
  }

  predicate Older(before: int, r: StoredRecord) { r.sequenceNumber < before }

  function OlderThan(before: int, rs: seq<StoredRecord>): seq<StoredRecord> { Filter(r => Older(before, r), rs) }

  /** The first `limit` records, or all of them when the limit is not positive. */
  function Limited(rs: seq<StoredRecord>, limit: int): seq<StoredRecord> { if limit <= 0 then rs else Take(rs, limit) }

  lemma OlderStart(before: int, rs: seq<StoredRecord>)
    ensures OlderThan(before, rs[..0]) == []
    ensures |OlderThan(before, rs)| <= |rs|
  {
  }

  lemma OlderStep(before: int, rs: seq<StoredRecord>, k: nat)
    requires k < |rs|
    ensures OlderThan(before, rs[..k + 1]) == OlderThan(before, rs[..k]) + if Older(before, rs[k]) then [rs[k]] else []
  {
    assert rs[..k + 1] == rs[..k] + [rs[k]];
    FilterAppend(r => Older(before, r), rs[..k], [rs[k]]);
  }

  lemma OlderRest(before: int, rs: seq<StoredRecord>, k: nat)
    requires k <= |rs|
    ensures OlderThan(before, rs) == OlderThan(before, rs[..k]) + OlderThan(before, rs[k..])
    ensures |OlderThan(before, rs)| <= |rs|
    ensures k == |rs| ==> rs[..k] == rs
  {
    assert rs == rs[..k] + rs[k..];
    FilterAppend(r => Older(before, r), rs[..k], rs[k..]);
  }

  predicate Holds(rs: seq<StoredRecord>, seqNo: int) { exists i :: 0 <= i < |rs| && rs[i].sequenceNumber == seqNo }

  /** The place of the first record with that number. */
  function FirstWith(rs: seq<StoredRecord>, seqNo: int): (k: nat)
    requires Holds(rs, seqNo)
    ensures k < |rs| && rs[k].sequenceNumber == seqNo && forall j :: 0 <= j < k ==> rs[j].sequenceNumber != seqNo
  {
    if rs[0].sequenceNumber == seqNo then 0
    else
      assert exists i :: 0 <= i < |rs[1..]| && rs[1..][i].sequenceNumber == seqNo by {
        var i :| 0 <= i < |rs| && rs[i].sequenceNumber == seqNo;
        assert rs[1..][i - 1] == rs[i];
      }
      1 + FirstWith(rs[1..], seqNo)
  }

  lemma FirstWithIs(rs: seq<StoredRecord>, seqNo: int, i: nat)
    requires i < |rs| && rs[i].sequenceNumber == seqNo && forall j :: 0 <= j < i ==> rs[j].sequenceNumber != seqNo
    ensures Holds(rs, seqNo) && FirstWith(rs, seqNo) == i
  {
    assert Holds(rs, seqNo);
    var k := FirstWith(rs, seqNo);
    assert !(k < i) && !(i < k);
  }

  class MemoryStore {
    var records: map<string, seq<StoredRecord>>
    var globalId: nat
    var faulty: bool

    function Contents(): State reads this { State(records, globalId, faulty) }

    constructor ()
      ensures Contents() == State(map[], 0, false)
    {
      records, globalId, faulty := map[], 0, false;
    }

    method SetFault(fault: bool)
      modifies this
      ensures Contents() == old(Contents()).(faulty := fault)
    {
      faulty := fault;
    }

    method AppendDecision(record: DecisionRecord, now: int) returns (r: Result<StoredRecord, AppendError>)
      modifies this
      ensures (Contents(), r) == Append(old(Contents()), record, now)
    {
      if faulty { return Err(WriteFault); }
      if record.workspaceId == "" { return Err(WorkspaceRequired); }
      var rec := record;
      if rec.timestamp == 0 { rec := rec.(timestamp := now); }
      if rec.eventType == "" { rec := rec.(eventType := EVENT_DECISION); }
      globalId := globalId + 1;
      var recs := if rec.workspaceId in records then records[rec.workspaceId] else [];
      var stored := StoredRecord(globalId, |recs| + 1, rec);
      records := records[rec.workspaceId := recs + [stored]];
      r := Ok(stored);
    }

    /** Writes neither payload nor row hash; see `HashlessMutationBreaksChain`. */
    method AppendMutation(event: MutationEvent, prevHash: string, now: int) returns (r: Result<StoredRecord, AppendError>)
      modifies this
      ensures (Contents(), r) == Append(old(Contents()), MutationRecord(event, event.timestamp, prevHash), now)
    {
      r := AppendDecision(MutationRecord(event, event.timestamp, prevHash), now);
    }

    method GetLatestRecord(ws: string) returns (r: Option<StoredRecord>)
      ensures r == var rs := Chain(Contents(), ws); if rs == [] then None else Some(rs[|rs| - 1])
    {
      if ws !in records || |records[ws]| == 0 { return None; }
      var recs := records[ws];
      r := Some(recs[|recs| - 1]);
    }

    /** Newest first. */
    method ListRecords(ws: string, limit: int) returns (out: seq<StoredRecord>)
      ensures out == Limited(Reverse(Chain(Contents(), ws)), limit)
    {
      if ws !in records || |records[ws]| == 0 { return []; }
      var recs := records[ws];
      var n := |recs|;
      var count := if limit <= 0 || limit > n then n else limit;
      out := [];
      var i := n - 1;
      while i >= n - count
        invariant n - count - 1 <= i < n && |out| == n - 1 - i
        invariant out == Reverse(recs)[..n - 1 - i]
      {
        out := out + [recs[i]];
        i := i - 1;
      }
    }

    /** Newest first, those with a smaller sequence number only. */
    method ListRecordsBefore(ws: string, before: int, limit: int) returns (out: seq<StoredRecord>)
      ensures out == Limited(OlderThan(before, Reverse(Chain(Contents(), ws))), limit)
    {
      if ws !in records || |records[ws]| == 0 { return []; }
      var recs := records[ws];
      var count := if limit <= 0 then |recs| else limit;
      ghost var all := Reverse(recs);
      out := [];
      var i := |recs| - 1;
      OlderStart(before, all);
      hide OlderThan, Chain;
      while i >= 0 && |out| < count
        invariant -1 <= i < |recs| && |out| <= count
        invariant out == OlderThan(before, all[..|recs| - 1 - i])
      {
        OlderStep(before, all, |recs| - 1 - i);
        if recs[i].sequenceNumber < before { out := out + [recs[i]]; }
        i := i - 1;
      }
      OlderRest(before, all, |recs| - 1 - i);
    }

    method GetRecordBySequence(ws: string, seqNo: int) returns (r: Option<StoredRecord>)
      ensures r.Some? ==> r.value in Chain(Contents(), ws) && r.value.sequenceNumber == seqNo
      ensures r.None? ==> forall x :: x in Chain(Contents(), ws) ==> x.sequenceNumber != seqNo
    {
      if ws !in records { return None; }
      var recs := records[ws];
      for i := 0 to |recs|
        invariant forall j :: 0 <= j < i ==> recs[j].sequenceNumber != seqNo
      {
        if recs[i].sequenceNumber == seqNo { return Some(recs[i]); }
      }
      r := None;
    }

    /** Overwrites the first record with that number, as someone with access to the rows would. */
    method SimulateTamper(ws: string, seqNo: int, tampered: StoredRecord)
      modifies this
      ensures globalId == old(globalId) && faulty == old(faulty)
      ensures forall other :: other != ws ==> Chain(Contents(), other) == Chain(old(Contents()), other)
      ensures var before := Chain(old(Contents()), ws);
        Chain(Contents(), ws) == if Holds(before, seqNo) then before[FirstWith(before, seqNo) := tampered] else before
    {
      if ws !in records { return; }
      var recs := records[ws];
      for i := 0 to |recs|
        invariant Contents() == old(Contents())
        invariant forall j :: 0 <= j < i ==> recs[j].sequenceNumber != seqNo
      {
        if recs[i].sequenceNumber == seqNo {
          FirstWithIs(recs, seqNo, i);
          records := records[ws := recs[i := tampered]];
          return;
        }
      }
    }
  }

  // ---- What the store promises ----

  /** Every workspace's records are numbered 1..n. */
  ghost predicate Numbered(s: State) {
    forall ws, i :: 0 <= i < |Chain(s, ws)| ==> Chain(s, ws)[i].sequenceNumber == i + 1
  }

  /** Later records only ever come after earlier ones. */
  ghost predicate Extends(s: State, t: State) {
    forall ws :: IsPrefix(Chain(s, ws), Chain(t, ws))
  }

  /** An append changes one workspace by one record at its end, or nothing when it fails. */
  lemma AppendExtends(s: State, r: DecisionRecord, now: int)
    ensures var (t, result) := Append(s, r, now);
      && Extends(s, t)
      && (result.Ok? <==> !s.faulty && r.workspaceId != "")
      && (result.Ok? ==> Chain(t, r.workspaceId) == Chain(s, r.workspaceId) + [result.value])
      && (result.Err? ==> t == s)
      && (forall ws :: ws != r.workspaceId ==> Chain(t, ws) == Chain(s, ws))
  {
  }

  lemma ExtendsTransitive(s: State, t: State, u: State)
    requires Extends(s, t) && Extends(t, u)
    ensures Extends(s, u)
  {
    forall ws ensures IsPrefix(Chain(s, ws), Chain(u, ws)) {
      assert IsPrefix(Chain(s, ws), Chain(t, ws)) && IsPrefix(Chain(t, ws), Chain(u, ws));
    }
  }

  lemma AppendKeepsNumbering(s: State, r: DecisionRecord, now: int)
    requires Numbered(s)
    ensures Numbered(Append(s, r, now).0)
  {
    var t := Append(s, r, now).0;
    forall ws, i | 0 <= i < |Chain(t, ws)| ensures Chain(t, ws)[i].sequenceNumber == i + 1 {
      if i < |Chain(s, ws)| { assert Chain(t, ws)[i] == Chain(s, ws)[i]; }
    }
  }

  /** No identifier was given twice, in whatever workspaces, and none is ahead of the counter. */
  ghost predicate UniqueIds(s: State) {
    && (forall ws, i :: 0 <= i < |Chain(s, ws)| ==> Chain(s, ws)[i].id <= s.globalId)
    && (forall ws, i, other, j :: 0 <= i < |Chain(s, ws)| && 0 <= j < |Chain(s, other)| && (ws != other || i != j) ==>
          Chain(s, ws)[i].id != Chain(s, other)[j].id)
  }

  lemma AppendKeepsUniqueIds(s: State, r: DecisionRecord, now: int)
    requires UniqueIds(s)
    ensures UniqueIds(Append(s, r, now).0)
  {
    var t := Append(s, r, now).0;
    AppendExtends(s, r, now);
    if t != s {
      forall ws, i | 0 <= i < |Chain(t, ws)| ensures Chain(t, ws)[i].id <= t.globalId { OldOrNew(s, r, now, ws, i); }
      forall ws, i, other, j | 0 <= i < |Chain(t, ws)| && 0 <= j < |Chain(t, other)| && (ws != other || i != j)
        ensures Chain(t, ws)[i].id != Chain(t, other)[j].id
      {
        OldOrNew(s, r, now, ws, i);
        OldOrNew(s, r, now, other, j);
        hide Append, Chain;
      }
    }
  }

  /** A record after an append was there before, or is the new one with the new identifier. */
  lemma OldOrNew(s: State, r: DecisionRecord, now: int, ws: string, i: nat)
    requires UniqueIds(s) && Append(s, r, now).0 != s && i < |Chain(Append(s, r, now).0, ws)|
    ensures var t, n := Append(s, r, now).0, |Chain(s, r.workspaceId)|;
      && t.globalId == s.globalId + 1
      && if ws == r.workspaceId && i == n then Chain(t, ws)[i].id == t.globalId
         else i < |Chain(s, ws)| && Chain(t, ws)[i] == Chain(s, ws)[i] && Chain(t, ws)[i].id <= s.globalId
  {
  }

  /** Of numbered records, those before sequence number `before` are the ones that were there when
      there were `before - 1`. */
  lemma {:induction false} OlderIsSuffix(rs: seq<StoredRecord>, before: int)
    requires forall i :: 0 <= i < |rs| ==> rs[i].sequenceNumber == i + 1
    ensures OlderThan(before, Reverse(rs)) == Reverse(rs[..if before <= 0 then 0 else if before - 1 < |rs| then before - 1 else |rs|])
  {
    if rs == [] {
    } else {
      var init, last := rs[..|rs| - 1], rs[|rs| - 1];
      assert Reverse(rs)[0] == last && Reverse(rs)[1..] == Reverse(init);
      OlderIsSuffix(init, before);
      if before - 1 < |rs| {
        assert 0 < before ==> init[..before - 1] == rs[..before - 1];
      } else {
        assert Reverse(rs) == [last] + Reverse(init);
      }
      assert init[..|init|] == init && rs[..|rs|] == rs;
    }
  }

  /** A mutation written past the service carries no hash, so no chain is valid after it. */
  lemma HashlessMutationBreaksChain(c: Crypto, s: State, e: MutationEvent, prevHash: string, now: int)
    requires c.Valid()
    requires Append(s, MutationRecord(e, e.timestamp, prevHash), now).1.Ok?
    ensures !ChainValid(c, Chain(Append(s, MutationRecord(e, e.timestamp, prevHash), now).0, e.workspaceId))
  {
    var rs := Chain(Append(s, MutationRecord(e, e.timestamp, prevHash), now).0, e.workspaceId);
    if ChainValid(c, rs) { HashWidth(c, rs, |rs| - 1); }
  }
}
