/** The audited decision service: evaluate, issue a credential, then record the outcome at the head
    of the workspace's chain before anything is returned. Evaluation and issuance run unlocked; reading
    the head and appending run under one lock. */
module AuditService {
  import opened Prelude
  import opened AuditChain
  import D = Decision
  import S = AuditStore

  datatype Credential = Credential(headerName: string, headerValue: string, ref: string)

  /** How the service reaches policies. `evaluate` may fail; `provenance` is absent when the
      evaluator does not provide it, and answers None when it has nothing for the workspace. */
  datatype Evaluator = Evaluator(
    evaluate: (string, D.Request) -> Option<D.Result>, provenance: Option<string -> Option<(string, string)>>)

  type Issuer = (D.Request, D.Result) -> Option<Credential>

  /** What does not change: the libraries and the redaction of arguments. */
  datatype Setup = Setup(crypto: Crypto, redact: (string, map<string, D.AttributeValue>) -> map<string, string>)

  /** An evaluated request on its way to the record. */
  datatype Pending = Pending(
    req: D.Request, res: D.Result, policyVersion: string, policyHash: string, cred: Option<Credential>)

  // ---- Before the lock ----

  function Evaluated(evaluator: Option<Evaluator>, req: D.Request): D.Result
  {
    if evaluator.None? then D.Evaluate(None, req)
    else
      match evaluator.value.evaluate(req.workspaceId, req)
      case Some(res) => res
      case None => D.Denied(req, D.EvaluationError, "")
  }

  /** The version and content hash to record: the evaluator's provenance when it names a version,
      otherwise the version the evaluation reported, for both. */
  function ProvenanceOf(evaluator: Option<Evaluator>, req: D.Request, res: D.Result): (string, string)
  {
    if res.policyVersion == "" then ("", "")
    else if evaluator.None? || evaluator.value.provenance.None? then (res.policyVersion, res.policyVersion)
    else
      match evaluator.value.provenance.value(req.workspaceId)
      case Some((version, hash)) =>
        if version == "" then (res.policyVersion, res.policyVersion)
        else (version, if hash != "" then hash else res.policyVersion)
      case None => (res.policyVersion, res.policyVersion)
  }

  function UsableCredential(cred: Option<Credential>): bool { cred.Some? && cred.value.ref != "" && cred.value.headerValue != "" }

  function Prepared(evaluator: Option<Evaluator>, issuer: Option<Issuer>, req: D.Request): Pending
  {
    var res := Evaluated(evaluator, req);
    var (version, hash) := ProvenanceOf(evaluator, req, res);
    var stamped := if res.policyVersion == "" then res else res.(policyVersion := version);
    if stamped.verdict == D.Allow && issuer.Some? then
      var cred := issuer.value(req, stamped);
      if UsableCredential(cred) then Pending(req, stamped, version, hash, cred)
      else Pending(req, D.Result(D.Deny, D.CredentialIssuanceFailure, stamped.policyVersion, stamped.executionId), version, hash, None)
    else Pending(req, stamped, version, hash, None)
  }

  // ---- Under the lock ----

  /** The hash a new record links to. Any failure to read the head counts as an empty chain. */
  function PrevHash(st: S.State, ws: string, readFails: bool): string
  {
    if readFails then GENESIS else Head(S.Chain(st, ws))
  }

  /** The record of a decision before its payload and hash are computed. */
  function Draft(u: Setup, p: Pending, now: int, prev: string): DecisionRecord
  {
    DecisionRecord(
      p.req.workspaceId, p.req.executionId, Truncated(now), EVENT_DECISION, D.VerdictName(p.res.verdict), D.ReasonName(p.res.reason),
      p.req.identity.agentId, p.req.identity.roles, p.req.identity.onBehalfOf, p.req.backendId, p.req.toolName, p.req.risk,
      p.policyVersion, p.policyHash, u.redact(p.req.toolName, p.req.arguments), if p.cred.Some? then p.cred.value.ref else "",
      "", prev, "")
  }

  /** The draft with its payload and hash. */
  function Sealed(c: Crypto, draft: DecisionRecord, payload: string): DecisionRecord
  {
    draft.(canonicalPayload := payload, rowHash := RowHash(c, draft.prevHash, payload))
  }

  datatype Outcome = Outcome(res: D.Result, cred: Option<Credential>)

  /** The clock readings and the read fault of one commit. `storeNow` is the time the store fills in
      when a record has none. */
  datatype Moment = Moment(now: int, storeNow: int, readFails: bool)

  function FailedClosed(p: Pending): Outcome
  {
    if p.res.verdict == D.Allow
    then Outcome(D.Result(D.Deny, D.EvaluationError, p.res.policyVersion, p.req.executionId), None)
    else Outcome(p.res, None)
  }

  /** Recording an evaluated request: the new store, what the caller gets, and whether the append failed. */
  function Commit(u: Setup, st: S.State, p: Pending, at: Moment): (S.State, Outcome, bool)
  {
    var draft := Draft(u, p, at.now, PrevHash(st, p.req.workspaceId, at.readFails));
    match Payload(u.crypto, draft)
    case None => (st, FailedClosed(p), false)
    case Some(payload) =>
      var (next, stored) := S.Append(st, Sealed(u.crypto, draft, payload), at.storeNow);
      (next, if stored.Ok? then Outcome(p.res, p.cred) else FailedClosed(p), stored.Err?)
  }

  /** Recording a mutation. When its payload cannot be computed it is written without one. */
  function Mutate(u: Setup, st: S.State, e: S.MutationEvent, at: Moment): (S.State, bool)
  {
    var draft := S.MutationRecord(e, Truncated(e.timestamp), PrevHash(st, e.workspaceId, at.readFails));
    var record := match Payload(u.crypto, draft)
      case Some(payload) => Sealed(u.crypto, draft, payload)
      case None => draft;
    var (next, stored) := S.Append(st, record, at.storeNow);
    (next, stored.Err?)
  }

  // ---- The service ----

  class AuditedDecisionService {
    const setup: Setup
    const store: S.MemoryStore
    var evaluator: Option<Evaluator>
    var issuer: Option<Issuer>
    var appendFailures: nat

    constructor (setup: Setup, evaluator: Option<Evaluator>, store: S.MemoryStore)
      ensures this.setup == setup && this.store == store && this.evaluator == evaluator
      ensures issuer == None && appendFailures == 0
    {
      this.setup, this.store, this.evaluator, issuer, appendFailures := setup, store, evaluator, None, 0;
    }

    method SetEvaluator(evaluator: Option<Evaluator>)
      modifies this
      ensures this.evaluator == evaluator && issuer == old(issuer) && appendFailures == old(appendFailures)
    {
      this.evaluator := evaluator;
    }

    method SetIssuer(issuer: Option<Issuer>)
      modifies this
      ensures this.issuer == issuer && evaluator == old(evaluator) && appendFailures == old(appendFailures)
    {
      this.issuer := issuer;
    }

    /** The unlocked part of a call. */
    method Prepare(req: D.Request) returns (p: Pending)
      ensures p == Prepared(evaluator, issuer, req)
    {
      var res: D.Result;
      if evaluator.Some? {
        var answer := evaluator.value.evaluate(req.workspaceId, req);
        if answer.None? {
          res := D.Result(D.Deny, D.EvaluationError, "", req.executionId);
        } else {
          res := answer.value;
        }
      } else {
        res := D.Evaluate(None, req);
      }
      var policyVersion, policyHash := "", "";
      if res.policyVersion != "" {
        policyHash, policyVersion := res.policyVersion, res.policyVersion;
        if evaluator.Some? && evaluator.value.provenance.Some? {
          var answer := evaluator.value.provenance.value(req.workspaceId);
          if answer.Some? && answer.value.0 != "" {
            policyVersion := answer.value.0;
            if answer.value.1 != "" { policyHash := answer.value.1; }
          }
        }
        res := res.(policyVersion := policyVersion);
      }
      var cred := None;
      if res.verdict == D.Allow && issuer.Some? {
        var issued := issuer.value(req, res);
        if issued.None? || issued.value.ref == "" || issued.value.headerValue == "" {
          res := D.Result(D.Deny, D.CredentialIssuanceFailure, res.policyVersion, res.executionId);
        } else {
          cred := issued;
        }
      }
      p := Pending(req, res, policyVersion, policyHash, cred);
    }

    /** The locked part of a call. */
    method Record(p: Pending, at: Moment) returns (out: Outcome)
      modifies this, store
      ensures evaluator == old(evaluator) && issuer == old(issuer)
      ensures var (next, outcome, failed) := Commit(setup, old(store.Contents()), p, at);
        store.Contents() == next && out == outcome && appendFailures == old(appendFailures) + if failed then 1 else 0
    {
      var prevHash := GENESIS;
      if !at.readFails {
        var latest := store.GetLatestRecord(p.req.workspaceId);
        if latest.Some? { prevHash := latest.value.body.rowHash; }
      }
      var record := Draft(setup, p, at.now, prevHash);
      var canonical := ComputeCanonicalPayload(setup.crypto, record);
      if canonical.None? {
        if p.res.verdict == D.Allow {
          return Outcome(D.Result(D.Deny, D.EvaluationError, p.res.policyVersion, p.req.executionId), None);
        }
        return Outcome(p.res, None);
      }
      record := record.(canonicalPayload := canonical.value, rowHash := RowHash(setup.crypto, prevHash, canonical.value));
      var appended := store.AppendDecision(record, at.storeNow);
      if appended.Err? {
        appendFailures := appendFailures + 1;
        if p.res.verdict == D.Allow {
          return Outcome(D.Result(D.Deny, D.EvaluationError, p.res.policyVersion, p.req.executionId), None);
        }
        return Outcome(p.res, None);
      }
      out := Outcome(p.res, p.cred);
    }

    method EvaluateWithCredential(req: D.Request, at: Moment) returns (out: Outcome)
      modifies this, store
      ensures evaluator == old(evaluator) && issuer == old(issuer)
      ensures var (next, outcome, failed) :=
          Commit(setup, old(store.Contents()), Prepared(old(evaluator), old(issuer), req), at);
        store.Contents() == next && out == outcome && appendFailures == old(appendFailures) + if failed then 1 else 0
    {
      var p := Prepare(req);
      out := Record(p, at);
    }

    method OnMutation(e: S.MutationEvent, at: Moment)
      modifies this, store
      ensures evaluator == old(evaluator) && issuer == old(issuer)
      ensures var (next, failed) := Mutate(setup, old(store.Contents()), e, at);
        store.Contents() == next && appendFailures == old(appendFailures) + if failed then 1 else 0
    {
      var prevHash := GENESIS;
      if !at.readFails {
        var latest := store.GetLatestRecord(e.workspaceId);
        if latest.Some? { prevHash := latest.value.body.rowHash; }
      }
      var record := S.MutationRecord(e, Truncated(e.timestamp), prevHash);
      var canonical := ComputeCanonicalPayload(setup.crypto, record);
      if canonical.Some? {
        record := record.(canonicalPayload := canonical.value, rowHash := RowHash(setup.crypto, prevHash, canonical.value));
      }
      var appended := store.AppendDecision(record, at.storeNow);
      if appended.Err? { appendFailures := appendFailures + 1; }
    }
  }

  // ---- When an append keeps the chain ----

  lemma FillingKeepsTime(draft: DecisionRecord, storeNow: int)
    requires draft.timestamp == Truncated(draft.timestamp) && draft.eventType != ""
    ensures CanonicalOf(S.Filled(draft, storeNow)) == CanonicalOf(draft) <==> draft.timestamp != 0 || storeNow == 0
  {
  }

  /** A sealed record fits behind the head exactly when it links to the head and the store does not
      fill in a time after the hash was computed. */
  lemma SealedFits(c: Crypto, rs: seq<StoredRecord>, id: int, draft: DecisionRecord, storeNow: int)
    requires c.Valid() && Payload(c, draft).Some?
    requires draft.timestamp == Truncated(draft.timestamp) && draft.eventType != ""
    ensures var stored := StoredRecord(id, |rs| + 1, S.Filled(Sealed(c, draft, Payload(c, draft).value), storeNow));
      FaultOf(c, Head(rs), |rs| + 1, stored).None? <==> draft.prevHash == Head(rs) && (draft.timestamp != 0 || storeNow == 0)
  {
    var sealedDraft := Sealed(c, draft, Payload(c, draft).value);
    assert CanonicalOf(sealedDraft) == CanonicalOf(draft);
    FillingKeepsTime(sealedDraft, storeNow);
    var filled := S.Filled(sealedDraft, storeNow);
    assert Payload(c, filled) == Payload(c, draft) <==> CanonicalOf(filled) == CanonicalOf(draft);
  }

  /** A record that was committed extends a valid chain to a valid chain exactly when the head was
      read (or there was none to read) and the clock did not stand at the zero time. */
  lemma CommitKeepsChainExactly(u: Setup, st: S.State, p: Pending, at: Moment)
    requires u.crypto.Valid() && ChainValid(u.crypto, S.Chain(st, p.req.workspaceId))
    ensures var next := Commit(u, st, p, at).0;
      next != st ==>
        (ChainValid(u.crypto, S.Chain(next, p.req.workspaceId)) <==>
          (!at.readFails || Head(S.Chain(st, p.req.workspaceId)) == GENESIS) && (Truncated(at.now) != 0 || at.storeNow == 0))
  {
    var rs := S.Chain(st, p.req.workspaceId);
    var draft := Draft(u, p, at.now, PrevHash(st, p.req.workspaceId, at.readFails));
    if Payload(u.crypto, draft).Some? && S.AppendFails(st, p.req.workspaceId).None? {
      var payload := Payload(u.crypto, draft).value;
      SealedFits(u.crypto, rs, st.globalId + 1, draft, at.storeNow);
      AppendExactly(u.crypto, rs, StoredRecord(st.globalId + 1, |rs| + 1, S.Filled(Sealed(u.crypto, draft, payload), at.storeNow)));
    }
  }

  /** The same for a mutation; one whose payload cannot be computed always breaks the chain. */
  lemma MutateKeepsChainExactly(u: Setup, st: S.State, e: S.MutationEvent, at: Moment)
    requires u.crypto.Valid() && ChainValid(u.crypto, S.Chain(st, e.workspaceId))
    ensures var (next, failed) := Mutate(u, st, e, at);
      !failed ==>
        (ChainValid(u.crypto, S.Chain(next, e.workspaceId)) <==>
          && Payload(u.crypto, S.MutationRecord(e, Truncated(e.timestamp), "")).Some?
          && (!at.readFails || Head(S.Chain(st, e.workspaceId)) == GENESIS) && (Truncated(e.timestamp) != 0 || at.storeNow == 0))
  {
    var rs := S.Chain(st, e.workspaceId);
    var draft := S.MutationRecord(e, Truncated(e.timestamp), PrevHash(st, e.workspaceId, at.readFails));
    assert CanonicalOf(draft) == CanonicalOf(S.MutationRecord(e, Truncated(e.timestamp), ""));
    if S.AppendFails(st, e.workspaceId).None? {
      if Payload(u.crypto, draft).Some? {
        var payload := Payload(u.crypto, draft).value;
        SealedFits(u.crypto, rs, st.globalId + 1, draft, at.storeNow);
        AppendExactly(u.crypto, rs, StoredRecord(st.globalId + 1, |rs| + 1, S.Filled(Sealed(u.crypto, draft, payload), at.storeNow)));
      } else {
        var stored := StoredRecord(st.globalId + 1, |rs| + 1, S.Filled(draft, at.storeNow));
        AppendExactly(u.crypto, rs, stored);
        assert S.Chain(Mutate(u, st, e, at).0, e.workspaceId) == rs + [stored];
        if ChainValid(u.crypto, rs + [stored]) { HashWidth(u.crypto, rs + [stored], |rs|); }
      }
    }
  }

  // ---- What the caller gets ----

  /** The time on a record: a clock reading without what it holds below a microsecond, or, if nothing is
      left of it, the time the store fills in. */
  ghost predicate TimeOf(reading: int, storeNow: int, recorded: int) {
    if 0 <= reading < 1000 then recorded == storeNow
    else recorded <= reading < recorded + 1000 && recorded % 1000 == 0
  }

  /** The record a committed decision leaves: when and where it was made, and what it says. */
  ghost predicate RecordOf(u: Setup, p: Pending, at: Moment, r: StoredRecord) {
    && r.body.workspaceId == p.req.workspaceId && r.body.executionId == p.req.executionId
    && TimeOf(at.now, at.storeNow, r.body.timestamp) && r.body.eventType == EVENT_DECISION
    && r.body.decision == D.VerdictName(p.res.verdict) && r.body.reason == D.ReasonName(p.res.reason)
    && r.body.policyVersion == p.policyVersion && r.body.policyHash == p.policyHash
    && r.body.agentId == p.req.identity.agentId && r.body.roles == p.req.identity.roles
    && r.body.onBehalfOf == p.req.identity.onBehalfOf
    && r.body.backendId == p.req.backendId && r.body.toolName == p.req.toolName && r.body.risk == p.req.risk
    && r.body.redactedArguments == u.redact(p.req.toolName, p.req.arguments)
    && r.body.credentialRef == (if p.cred.Some? then p.cred.value.ref else "")
  }

  /** The record a mutation leaves. */
  ghost predicate RecordOfMutation(e: S.MutationEvent, at: Moment, r: StoredRecord) {
    && r.body.workspaceId == e.workspaceId && r.body.executionId == e.correlationId
    && TimeOf(e.timestamp, at.storeNow, r.body.timestamp) && r.body.eventType == EVENT_MUTATION
    && r.body.decision == "MUTATION" && r.body.reason == e.action
    && r.body.agentId == e.operatorId && r.body.roles == [] && r.body.onBehalfOf == ""
    && r.body.backendId == "" && r.body.toolName == "" && r.body.risk == ""
    && r.body.policyVersion == e.newVersion && r.body.policyHash == e.previousVersion
    && r.body.redactedArguments == map[] && r.body.credentialRef == ""
  }

  /** What preparation guarantees: a credential comes only with ALLOW, and is usable. */
  ghost predicate WellPrepared(p: Pending) {
    p.cred.Some? ==> p.res.verdict == D.Allow && UsableCredential(p.cred)
  }

  lemma PreparedWell(evaluator: Option<Evaluator>, issuer: Option<Issuer>, req: D.Request)
    ensures WellPrepared(Prepared(evaluator, issuer, req)) && Prepared(evaluator, issuer, req).req == req
  {
  }

  /** What preparation comes to, exactly, for any evaluator and issuer. A failing evaluator, or none at
      all, denies; a denial is passed on; an ALLOW goes on with a usable credential, without any when
      there is no issuer, and otherwise becomes a denial. The version and hash on record are those the
      evaluator's provenance names, or the version the evaluation reported. */
  lemma PreparedExactly(evaluator: Option<Evaluator>, issuer: Option<Issuer>, req: D.Request)
    ensures var p := Prepared(evaluator, issuer, req);
      && p.req == req
      && (evaluator.None? ==> p.res.verdict == D.Deny && p.cred == None && p.policyVersion == p.policyHash == "")
      && (evaluator.Some? ==>
            match evaluator.value.evaluate(req.workspaceId, req)
            case None => p == Pending(req, D.Result(D.Deny, D.EvaluationError, "", req.executionId), "", "", None)
            case Some(res) =>
              && NamesPolicy(evaluator.value, req.workspaceId, res.policyVersion, p.policyVersion, p.policyHash)
              && var stamped := res.(policyVersion := p.policyVersion);
              if res.verdict == D.Deny || issuer.None? then p.res == stamped && p.cred == None
              else
                var cred := issuer.value(req, stamped);
                if cred.Some? && cred.value.ref != "" && cred.value.headerValue != "" then p.res == stamped && p.cred == cred
                else p.cred == None
                     && p.res == D.Result(D.Deny, D.CredentialIssuanceFailure, p.policyVersion, res.executionId))
  {
    hide D.ReachesPolicy;
    D.AllowedExactly(None, req);
    hide D.Evaluate;
  }

  /** `version` and `hash` name the policy of an evaluation that reported `reported`. */
  ghost predicate NamesPolicy(evaluator: Evaluator, ws: string, reported: string, version: string, hash: string) {
    var named := if evaluator.provenance.Some? then evaluator.provenance.value(ws) else None;
    if reported == "" then version == hash == ""
    else if named.Some? && named.value.0 != "" then
      version == named.value.0 && hash == if named.value.1 != "" then named.value.1 else reported
    else version == hash == reported
  }

  /** A record was written for `p` at the end of its workspace's chain. */
  ghost predicate Recorded(u: Setup, p: Pending, at: Moment, st: S.State, next: S.State) {
    var before, after := S.Chain(st, p.req.workspaceId), S.Chain(next, p.req.workspaceId);
    |after| == |before| + 1 && after[..|before|] == before && RecordOf(u, p, at, after[|before|])
  }

  /** The result of a call that could not be recorded: an ALLOW becomes a denial, a denial stays. */
  ghost predicate ClosedFor(p: Pending, out: Outcome) {
    && out.cred == None
    && out.res == if p.res.verdict == D.Deny then p.res
                  else D.Result(D.Deny, D.EvaluationError, p.res.policyVersion, p.req.executionId)
  }

  /** A commit leaves the store alone and fails closed, exactly when the record cannot be serialised or
      the store takes no writes or the workspace has no name; otherwise it writes one record and hands
      out the prepared result. The failure is counted when the write was refused. */
  lemma CommitCases(u: Setup, st: S.State, p: Pending, at: Moment)
    ensures var (next, out, failed) := Commit(u, st, p, at);
      && (next == st ==> ClosedFor(p, out))
      && (next != st ==> out == Outcome(p.res, p.cred) && Recorded(u, p, at, st, next))
      && (forall ws :: ws != p.req.workspaceId ==> S.Chain(next, ws) == S.Chain(st, ws))
      && (failed ==> next == st && (st.faulty || p.req.workspaceId == ""))
      && (st.faulty || p.req.workspaceId == "" ==> next == st)
      && (!failed && next == st ==> Payload(u.crypto, Draft(u, p, at.now, PrevHash(st, p.req.workspaceId, at.readFails))).None?)
  {
    var draft := Draft(u, p, at.now, PrevHash(st, p.req.workspaceId, at.readFails));
    if Payload(u.crypto, draft).Some? {
      var record := Sealed(u.crypto, draft, Payload(u.crypto, draft).value);
      S.AppendExtends(st, record, at.storeNow);
      FloorTime(at.now, at.storeNow);
      assert RecordOf(u, p, at, StoredRecord(0, 0, S.Filled(record, at.storeNow)));
    }
    hide Payload, Truncated, PrevHash, TimeOf;
  }

  lemma FloorTime(reading: int, storeNow: int)
    ensures TimeOf(reading, storeNow, if Truncated(reading) == 0 then storeNow else Truncated(reading))
  {
  }

  /** A mutation is recorded unless the store takes no writes or the workspace has no name. */
  lemma MutateCases(u: Setup, st: S.State, e: S.MutationEvent, at: Moment)
    ensures var (next, failed) := Mutate(u, st, e, at);
      var before, after := S.Chain(st, e.workspaceId), S.Chain(next, e.workspaceId);
      && (failed <==> st.faulty || e.workspaceId == "")
      && (failed ==> next == st)
      && (!failed ==> |after| == |before| + 1 && after[..|before|] == before && RecordOfMutation(e, at, after[|before|]))
      && (forall ws :: ws != e.workspaceId ==> S.Chain(next, ws) == S.Chain(st, ws))
  {
    FloorTime(e.timestamp, at.storeNow);
    hide Payload, Truncated, PrevHash, TimeOf;
  }

  /** Fail closed, exactly. A call returns ALLOW if and only if its evaluation ended in ALLOW and its
      record was appended; a credential comes only with a returned ALLOW; and an ALLOW is never returned
      unless the evaluator answered ALLOW. */
  lemma AllowIffRecorded(u: Setup, st: S.State, evaluator: Option<Evaluator>, issuer: Option<Issuer>, req: D.Request, at: Moment)
    ensures var p := Prepared(evaluator, issuer, req);
      var (next, out, _) := Commit(u, st, p, at);
      && (out.res.verdict == D.Allow <==> p.res.verdict == D.Allow && Recorded(u, p, at, st, next))
      && (out.cred.Some? ==> out.res.verdict == D.Allow && UsableCredential(out.cred) && out.cred == p.cred)
      && (p.res.verdict == D.Deny ==> out == Outcome(p.res, None))
      && (out.res.verdict == D.Allow ==>
            evaluator.Some? && evaluator.value.evaluate(req.workspaceId, req).Some?
            && evaluator.value.evaluate(req.workspaceId, req).value.verdict == D.Allow)
  {
    var p := Prepared(evaluator, issuer, req);
    PreparedWell(evaluator, issuer, req);
    PreparedExactly(evaluator, issuer, req);
    CommitCases(u, st, p, at);
    hide Prepared, Commit, RecordOf;
  }
}
