/** Audit records, their canonical form, and the hash chain they form. Times are nanoseconds since
    the zero time. */
module AuditChain {
  import opened Prelude
  import opened Sorting

  const HASH_LENGTH := 64

  const GENESIS := "0000000000000000000000000000000000000000000000000000000000000000"

  const EVENT_DECISION := "decision"
  const EVENT_MUTATION := "mutation"

  datatype DecisionRecord = DecisionRecord(
    workspaceId: string, executionId: string, timestamp: int, eventType: string, decision: string, reason: string,
    agentId: string, roles: seq<string>, onBehalfOf: string, backendId: string, toolName: string, risk: string,
    policyVersion: string, policyHash: string, redactedArguments: map<string, string>, credentialRef: string,
    canonicalPayload: string, prevHash: string, rowHash: string)

  /** A persisted record: what was appended, with the identifiers the store gave it. */
  datatype StoredRecord = StoredRecord(id: int, sequenceNumber: int, body: DecisionRecord)

  datatype CanonicalRecord = CanonicalRecord(
    workspaceId: string, executionId: string, timestamp: Option<int>, eventType: string, decision: string, reason: string,
    agentId: string, roles: seq<string>, onBehalfOf: string, backendId: string, toolName: string, risk: string,
    policyVersion: string, policyHash: string, redactedArguments: map<string, string>, credentialRef: string)

  /** The unseen libraries: a hash with results of a fixed width, and a serialisation that may fail
      and otherwise loses nothing. The hash is not assumed to be injective. */
  datatype Crypto = Crypto(hash: string -> string, render: CanonicalRecord -> Option<string>) {
    ghost predicate Valid() {
      && (forall s :: |hash(s)| == HASH_LENGTH)
      && (forall a, b :: render(a).Some? && render(a) == render(b) ==> a == b)
    }
  }

  // ---- Canonical form ----

  /** Truncation to microseconds, toward the past. */
  function Truncated(t: int): int { t - t % 1000 }

  function CanonicalTime(t: int): Option<int> { if t == 0 then None else Some(Truncated(t)) }

  function EffectiveType(eventType: string): string { if eventType == "" then EVENT_DECISION else eventType }

  function CanonicalOf(r: DecisionRecord): CanonicalRecord
  {
    CanonicalRecord(r.workspaceId, r.executionId, CanonicalTime(r.timestamp), EffectiveType(r.eventType), r.decision, r.reason,
                    r.agentId, Sort(StringLe, r.roles), r.onBehalfOf, r.backendId, r.toolName, r.risk,
                    r.policyVersion, r.policyHash, r.redactedArguments, r.credentialRef)
  }

  function Payload(c: Crypto, r: DecisionRecord): Option<string> { c.render(CanonicalOf(r)) }

  function RowHash(c: Crypto, prevHash: string, payload: string): string { c.hash(prevHash + payload) }

  method ComputeCanonicalPayload(c: Crypto, record: DecisionRecord) returns (payload: Option<string>)
    ensures payload == Payload(c, record)
  {
    var roles := Sort(StringLe, record.roles);
    var args: map<string, string> := map[];
    var todo := record.redactedArguments.Keys;
    while todo != {}
      invariant todo <= record.redactedArguments.Keys && args.Keys == record.redactedArguments.Keys - todo
      invariant forall k :: k in args ==> args[k] == record.redactedArguments[k]
    {
      var k :| k in todo;
      args := args[k := record.redactedArguments[k]];
      todo := todo - {k};
    }
    assert args == record.redactedArguments;
    var timestamp := None;
    if record.timestamp != 0 { timestamp := Some(Truncated(record.timestamp)); }
    var eventType := record.eventType;
    if eventType == "" { eventType := EVENT_DECISION; }
    payload := c.render(CanonicalRecord(
      record.workspaceId, record.executionId, timestamp, eventType, record.decision, record.reason,
      record.agentId, roles, record.onBehalfOf, record.backendId, record.toolName, record.risk,
      record.policyVersion, record.policyHash, args, record.credentialRef));
  }

  /** Two records tell the same story: every audited field agrees, up to the order of the roles, the
      default event type and what a timestamp holds below a microsecond. */
  ghost predicate SameContent(a: DecisionRecord, b: DecisionRecord) {
    && a.workspaceId == b.workspaceId && a.executionId == b.executionId
    && (a.timestamp == 0 <==> b.timestamp == 0) && a.timestamp / 1000 == b.timestamp / 1000
    && (a.eventType == b.eventType || {a.eventType, b.eventType} == {"", EVENT_DECISION})
    && a.decision == b.decision && a.reason == b.reason
    && a.agentId == b.agentId && multiset(a.roles) == multiset(b.roles) && a.onBehalfOf == b.onBehalfOf
    && a.backendId == b.backendId && a.toolName == b.toolName && a.risk == b.risk
    && a.policyVersion == b.policyVersion && a.policyHash == b.policyHash
    && a.redactedArguments == b.redactedArguments && a.credentialRef == b.credentialRef
  }

  /** Two times have the same canonical form exactly when both are missing or both lie in the same
      microsecond. */
  lemma TimesExactly(a: int, b: int)
    ensures CanonicalTime(a) == CanonicalTime(b) <==> (a == 0 && b == 0) || (a != 0 && b != 0 && a / 1000 == b / 1000)
  {
  }

  lemma TypesAgree(a: string, b: string)
    ensures EffectiveType(a) == EffectiveType(b) <==> a == b || {a, b} == {"", EVENT_DECISION}
  {
    if {a, b} == {"", EVENT_DECISION} {
      assert a in {"", EVENT_DECISION} && b in {"", EVENT_DECISION};
    }
    if EffectiveType(a) == EffectiveType(b) && a != b {
      assert {"", EVENT_DECISION} == {EVENT_DECISION, ""};
    }
  }

  /** The canonical form identifies two records exactly when they tell the same story, so the
      payload depends on nothing else and loses nothing else. */
  lemma CanonicalExactly(a: DecisionRecord, b: DecisionRecord)
    ensures CanonicalOf(a) == CanonicalOf(b) <==> SameContent(a, b)
  {
    StringOrder();
    SortEqualIffPermutation(StringLe, a.roles, b.roles);
    TypesAgree(a.eventType, b.eventType);
    TimesExactly(a.timestamp, b.timestamp);
    hide Sort, EffectiveType, CanonicalTime;
  }

  // ---- The chain ----

  datatype Fault = SequenceGap | BrokenLinkage | PayloadTampered | RowHashCorrupt | CanonicalisationFailed

  /** What is wrong with a record in the place of sequence number `seqNo` after the hash `prev`, in
      the order in which the checks are made. */
  function FaultOf(c: Crypto, prev: string, seqNo: int, r: StoredRecord): Option<Fault>
  {
    if r.sequenceNumber != seqNo then Some(SequenceGap)
    else if r.body.prevHash != prev then Some(BrokenLinkage)
    else if Payload(c, r.body).None? then Some(CanonicalisationFailed)
    else if Payload(c, r.body).value != r.body.canonicalPayload then Some(PayloadTampered)
    else if r.body.rowHash != RowHash(c, r.body.prevHash, r.body.canonicalPayload) then Some(RowHashCorrupt)
    else None
  }

  /** The hash the record after `rs` has to link to. */
  function Head(rs: seq<StoredRecord>): string { if rs == [] then GENESIS else rs[|rs| - 1].body.rowHash }

  /** Record `i` is in its place: its number, its link, its payload and its hash are right. */
  ghost predicate InPlace(c: Crypto, rs: seq<StoredRecord>, i: nat)
    requires i < |rs|
  {
    && rs[i].sequenceNumber == i + 1
    && rs[i].body.prevHash == (if i == 0 then GENESIS else rs[i - 1].body.rowHash)
    && Payload(c, rs[i].body) == Some(rs[i].body.canonicalPayload)
    && rs[i].body.rowHash == RowHash(c, rs[i].body.prevHash, rs[i].body.canonicalPayload)
  }

  /** A valid chain: numbered from one without gaps, linked from genesis, every payload and hash
      what the contents say. */
  ghost predicate ChainValid(c: Crypto, rs: seq<StoredRecord>) {
    forall i :: 0 <= i < |rs| ==> InPlace(c, rs, i)
  }

  lemma InPlaceExactly(c: Crypto, rs: seq<StoredRecord>, i: nat)
    requires i < |rs|
    ensures InPlace(c, rs, i) <==> FaultOf(c, Head(rs[..i]), i + 1, rs[i]).None?
  {
  }

  lemma PrefixInPlace(c: Crypto, rs: seq<StoredRecord>, n: nat, i: nat)
    requires i < n <= |rs|
    ensures InPlace(c, rs[..n], i) <==> InPlace(c, rs, i)
  {
  }

  lemma ValidPrefix(c: Crypto, rs: seq<StoredRecord>, n: nat)
    requires ChainValid(c, rs) && n <= |rs|
    ensures ChainValid(c, rs[..n])
  {
    forall i | 0 <= i < n ensures InPlace(c, rs[..n], i) { PrefixInPlace(c, rs, n, i); }
  }

  /** Appending keeps a chain valid exactly when the new record fits behind its head. */
  lemma AppendExactly(c: Crypto, rs: seq<StoredRecord>, r: StoredRecord)
    requires ChainValid(c, rs)
    ensures ChainValid(c, rs + [r]) <==> FaultOf(c, Head(rs), |rs| + 1, r).None?
  {
    var longer := rs + [r];
    assert longer[..|rs|] == rs;
    InPlaceExactly(c, longer, |rs|);
    forall i | 0 <= i < |rs| ensures InPlace(c, longer, i) {
      assert InPlace(c, rs, i);
      PrefixInPlace(c, longer, |rs|, i);
    }
  }

  // ---- Tamper evidence ----

  /** A break of the hash, found by comparing two chains. */
  datatype Break = NoBreak | Collision(x: string, y: string) | GenesisPreimage(x: string)

  function HashInput(r: StoredRecord): string { r.body.prevHash + r.body.canonicalPayload }

  /** Walks two chains back from their heads and returns the first pair of hash inputs that ought
      not to exist. */
  function FindBreak(a: seq<StoredRecord>, b: seq<StoredRecord>): Break
  {
    if a == [] && b == [] then NoBreak
    else if a == [] then GenesisPreimage(HashInput(b[|b| - 1]))
    else if b == [] then GenesisPreimage(HashInput(a[|a| - 1]))
    else if HashInput(a[|a| - 1]) != HashInput(b[|b| - 1]) then Collision(HashInput(a[|a| - 1]), HashInput(b[|b| - 1]))
    else FindBreak(a[..|a| - 1], b[..|b| - 1])
  }

  /** Two records agree in everything the chain protects; only the store's own identifier is free. */
  ghost predicate Agree(a: StoredRecord, b: StoredRecord) {
    && a.sequenceNumber == b.sequenceNumber && SameContent(a.body, b.body)
    && a.body.canonicalPayload == b.body.canonicalPayload && a.body.prevHash == b.body.prevHash
    && a.body.rowHash == b.body.rowHash
  }

  lemma HashWidth(c: Crypto, rs: seq<StoredRecord>, i: nat)
    requires c.Valid() && ChainValid(c, rs) && i < |rs|
    ensures |rs[i].body.prevHash| == HASH_LENGTH && |rs[i].body.rowHash| == HASH_LENGTH
  {
    assert InPlace(c, rs, i);
    if i > 0 { assert InPlace(c, rs, i - 1); }
  }

  /** Because previous hashes have a fixed width, equal hash inputs split into equal parts. */
  lemma EqualInputsSplit(p: string, x: string, q: string, y: string)
    requires |p| == |q| && p + x == q + y
    ensures p == q && x == y
  {
    assert p == (p + x)[..|p|] && q == (q + y)[..|q|];
    assert x == (p + x)[|p|..] && y == (q + y)[|q|..];
  }

  lemma LastRecordsAgree(c: Crypto, a: seq<StoredRecord>, b: seq<StoredRecord>)
    requires c.Valid() && ChainValid(c, a) && ChainValid(c, b) && |a| == |b| > 0
    requires HashInput(a[|a| - 1]) == HashInput(b[|b| - 1])
    ensures Agree(a[|a| - 1], b[|b| - 1])
  {
    var x, y := a[|a| - 1], b[|b| - 1];
    HashWidth(c, a, |a| - 1);
    HashWidth(c, b, |b| - 1);
    assert InPlace(c, a, |a| - 1) && InPlace(c, b, |b| - 1);
    EqualInputsSplit(x.body.prevHash, x.body.canonicalPayload, y.body.prevHash, y.body.canonicalPayload);
    assert CanonicalOf(x.body) == CanonicalOf(y.body);
    CanonicalExactly(x.body, y.body);
  }

  lemma SamePrevHash(c: Crypto, a: seq<StoredRecord>, b: seq<StoredRecord>)
    requires c.Valid() && ChainValid(c, a) && ChainValid(c, b) && a != [] && b != []
    requires HashInput(a[|a| - 1]) == HashInput(b[|b| - 1])
    ensures Head(a[..|a| - 1]) == Head(b[..|b| - 1])
  {
    var x, y := a[|a| - 1], b[|b| - 1];
    HashWidth(c, a, |a| - 1);
    HashWidth(c, b, |b| - 1);
    assert InPlace(c, a, |a| - 1) && InPlace(c, b, |b| - 1);
    EqualInputsSplit(x.body.prevHash, x.body.canonicalPayload, y.body.prevHash, y.body.canonicalPayload);
  }

  /** Tamper evidence. Two valid chains that end in the same hash agree record by record, or
      comparing them yields two different inputs with one hash, or an input that hashes to the
      genesis value. */
  lemma {:induction false} TamperEvidence(c: Crypto, a: seq<StoredRecord>, b: seq<StoredRecord>)
    requires c.Valid() && ChainValid(c, a) && ChainValid(c, b) && Head(a) == Head(b)
    ensures match FindBreak(a, b)
      case NoBreak => |a| == |b| && forall i :: 0 <= i < |a| ==> Agree(a[i], b[i])
      case Collision(x, y) => x != y && c.hash(x) == c.hash(y)
      case GenesisPreimage(x) => c.hash(x) == GENESIS
  {
    if a == [] && b == [] {
    } else if a == [] {
      assert InPlace(c, b, |b| - 1);
    } else if b == [] {
      assert InPlace(c, a, |a| - 1);
    } else if HashInput(a[|a| - 1]) != HashInput(b[|b| - 1]) {
      assert InPlace(c, a, |a| - 1) && InPlace(c, b, |b| - 1);
    } else {
      ValidPrefix(c, a, |a| - 1);
      ValidPrefix(c, b, |b| - 1);
      SamePrevHash(c, a, b);
      TamperEvidence(c, a[..|a| - 1], b[..|b| - 1]);
      if FindBreak(a[..|a| - 1], b[..|b| - 1]).NoBreak? {
        LastRecordsAgree(c, a, b);
        forall i | 0 <= i < |a| ensures Agree(a[i], b[i]) {
          if i < |a| - 1 { assert Agree(a[..|a| - 1][i], b[..|b| - 1][i]); }
        }
      }
    }
  }

  /** Rewriting a record that is not the last: if the chain is still valid, the record tells the same
      story, or its hash input collides with the original's. */
  lemma RewriteExposed(c: Crypto, rs: seq<StoredRecord>, k: nat, forged: StoredRecord)
    requires c.Valid() && ChainValid(c, rs) && k < |rs| - 1
    requires ChainValid(c, rs[k := forged])
    ensures SameContent(forged.body, rs[k].body)
      || (HashInput(forged) != HashInput(rs[k]) && c.hash(HashInput(forged)) == c.hash(HashInput(rs[k])))
  {
    var other := rs[k := forged];
    assert InPlace(c, rs, k) && InPlace(c, other, k) && InPlace(c, rs, k + 1) && InPlace(c, other, k + 1);
    if HashInput(forged) == HashInput(rs[k]) {
      ValidPrefix(c, rs, k + 1);
      ValidPrefix(c, other, k + 1);
      LastRecordsAgree(c, rs[..k + 1], other[..k + 1]);
    }
  }

  /** The record that would take the place of the last one after its content was rewritten. */
  function Resealed(c: Crypto, original: StoredRecord, content: DecisionRecord, payload: string): StoredRecord
  {
    original.(body := content.(prevHash := original.body.prevHash, canonicalPayload := payload,
                               rowHash := RowHash(c, original.body.prevHash, payload)))
  }

  /** The last record is protected by nothing behind it: whatever content is put in its place, a
      recomputed payload and hash make the chain valid again. */
  lemma ResealedHeadPasses(c: Crypto, rs: seq<StoredRecord>, content: DecisionRecord)
    requires ChainValid(c, rs) && rs != [] && Payload(c, content).Some?
    ensures ChainValid(c, rs[|rs| - 1 := Resealed(c, rs[|rs| - 1], content, Payload(c, content).value)])
  {
    var before, last := rs[..|rs| - 1], rs[|rs| - 1];
    var forged := Resealed(c, last, content, Payload(c, content).value);
    ValidPrefix(c, rs, |rs| - 1);
    assert InPlace(c, rs, |rs| - 1);
    assert CanonicalOf(forged.body) == CanonicalOf(content);
    AppendExactly(c, before, forged);
    assert rs[|rs| - 1 := forged] == before + [forged];
  }
}
