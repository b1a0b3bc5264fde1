/** Runs of the gateway with any number of checks in flight. A check's unlocked part (evaluation and
    issuance), its locked part (the record) and its answer are separate steps; its time may run out
    between any two of them, while the rest of it goes on. Policy mutations and write faults come at
    any point. */
module CheckRuns {
  import opened Prelude
  import opened AuditChain
  import C = CheckServer
  import D = Decision
  import P = Pagination
  import S = AuditStore
  import V = AuditService
  import W = AuditVerifier

  /** A check: its request, and the reason it will be denied with if it could not be adapted. */
  datatype Call =
    | Waiting(req: D.Request, denial: Option<D.Reason>)
    | Ready(p: V.Pending, denial: Option<D.Reason>)
    | Done(p: V.Pending, denial: Option<D.Reason>, at: V.Moment, out: V.Outcome, position: Option<nat>)

  /** `returned` lists what the decision service returned, in order; `at` and `position` in a finished call
      are when its record was made and where it went. All three are history. */
  datatype State = State(
    store: S.State, calls: map<nat, Call>, replies: map<nat, C.Reply>, returned: seq<(V.Pending, V.Outcome)>)

  datatype Setup = Setup(service: V.Setup, requireCredential: bool)

  datatype Event =
    | Begin(id: nat, req: D.Request, denial: Option<D.Reason>)
    | Prepare(id: nat, evaluator: Option<V.Evaluator>, issuer: Option<V.Issuer>)
    | Commit(id: nat, at: V.Moment)
    | Reply(id: nat)
    | TimeOut(id: nat)
    | Mutate(e: S.MutationEvent, at: V.Moment)
    | SetFault(fault: bool)

  function Initial(): State { State(S.State(map[], 0, false), map[], map[], []) }

  function RequestOf(c: Call): D.Request { if c.Waiting? then c.req else c.p.req }

  function Committed(u: Setup, s: State, id: nat, at: V.Moment): State
    requires id in s.calls && s.calls[id].Ready?
  {
    var p := s.calls[id].p;
    var (next, out, _) := V.Commit(u.service, s.store, p, at);
    var length := |S.Chain(s.store, p.req.workspaceId)|;
    var position := if |S.Chain(next, p.req.workspaceId)| > length then Some(length) else None;
    s.(store := next, calls := s.calls[id := Done(p, s.calls[id].denial, at, out, position)], returned := s.returned + [(p, out)])
  }

  /** One step; an event that is not enabled changes nothing. */
  function Apply(u: Setup, s: State, event: Event): State
  {
    match event
    case Begin(id, req, denial) =>
      if id in s.calls then s else s.(calls := s.calls[id := Waiting(req, denial)])
    case Prepare(id, evaluator, issuer) =>
      if id in s.calls && s.calls[id].Waiting?
      then s.(calls := s.calls[id := Ready(V.Prepared(evaluator, issuer, s.calls[id].req), s.calls[id].denial)]) else s
    case Commit(id, at) =>
      if id in s.calls && s.calls[id].Ready? then Committed(u, s, id, at) else s
    case Reply(id) =>
      if id in s.calls && s.calls[id].Done? && id !in s.replies
      then s.(replies := s.replies[id := C.ReplyTo(u.requireCredential, s.calls[id].p.req, s.calls[id].denial, s.calls[id].out)])
      else s
    case TimeOut(id) =>
      if id in s.calls && s.calls[id].denial.None? && id !in s.replies
      then s.(replies := s.replies[id := C.Refused(D.EvaluationError, RequestOf(s.calls[id]).executionId)]) else s
    case Mutate(e, at) => s.(store := V.Mutate(u.service, s.store, e, at).0)
    case SetFault(fault) => s.(store := s.store.(faulty := fault))
  }

  function Run(u: Setup, events: seq<Event>): State
  {
    if events == [] then Initial()
    else Apply(u, Run(u, events[..|events| - 1]), events[|events| - 1])
  }

  // ---- The chains of every run ----

  /** What a step needs for the chains to stay valid: the head can be read, the clock and the
      mutation's own time are past the first microsecond, and the mutation can be serialised. */
  ghost predicate Calm(u: Setup, event: Event) {
    match event
    case Commit(_, at) => !at.readFails && Truncated(at.now) != 0
    case Mutate(e, at) =>
      !at.readFails && Truncated(e.timestamp) != 0
      && Payload(u.service.crypto, S.MutationRecord(e, Truncated(e.timestamp), "")).Some?
    case _ => true
  }

  ghost predicate AllValid(c: Crypto, s: S.State) { forall ws :: ChainValid(c, S.Chain(s, ws)) }

  lemma CommitKeepsAllValid(u: Setup, s: S.State, p: V.Pending, at: V.Moment)
    requires u.service.crypto.Valid() && AllValid(u.service.crypto, s) && !at.readFails && Truncated(at.now) != 0
    ensures AllValid(u.service.crypto, V.Commit(u.service, s, p, at).0)
  {
    V.CommitCases(u.service, s, p, at);
    V.CommitKeepsChainExactly(u.service, s, p, at);
    hide V.Commit, ChainValid;
  }

  lemma MutateKeepsAllValid(u: Setup, s: S.State, e: S.MutationEvent, at: V.Moment)
    requires u.service.crypto.Valid() && AllValid(u.service.crypto, s) && Calm(u, Mutate(e, at))
    ensures AllValid(u.service.crypto, V.Mutate(u.service, s, e, at).0)
  {
    V.MutateCases(u.service, s, e, at);
    V.MutateKeepsChainExactly(u.service, s, e, at);
    hide V.Mutate, ChainValid;
  }

  lemma StepKeepsAllValid(u: Setup, s: State, event: Event)
    requires u.service.crypto.Valid() && AllValid(u.service.crypto, s.store) && Calm(u, event)
    ensures AllValid(u.service.crypto, Apply(u, s, event).store)
  {
    match event
    case Commit(id, at) => if id in s.calls && s.calls[id].Ready? { CommitKeepsAllValid(u, s.store, s.calls[id].p, at); }
    case Mutate(e, at) => MutateKeepsAllValid(u, s.store, e, at);
    case SetFault(fault) =>
      forall ws ensures ChainValid(u.service.crypto, S.Chain(Apply(u, s, event).store, ws)) {
        assert ChainValid(u.service.crypto, S.Chain(s.store, ws));
      }
    case _ =>
  }

  /** In every run of checks and mutations, however they interleave and whatever fails to be issued or
      written, every workspace's chain passes verification, after each step. */
  lemma {:induction false} EveryChainVerifies(u: Setup, events: seq<Event>, ws: string)
    requires u.service.crypto.Valid() && forall i :: 0 <= i < |events| ==> Calm(u, events[i])
    ensures AllValid(u.service.crypto, Run(u, events).store)
    ensures var rs := S.Chain(Run(u, events).store, ws); W.Inspect(u.service.crypto, rs) == W.Intact(|rs|)
  {
    if events != [] {
      var before, event := events[..|events| - 1], events[|events| - 1];
      EveryChainVerifies(u, before, ws);
      StepKeepsAllValid(u, Run(u, before), event);
      hide Apply;
    }
    W.VerifierExact(u.service.crypto, S.Chain(Run(u, events).store, ws));
    assert ChainValid(u.service.crypto, S.Chain(Run(u, events).store, ws));
  }

  // ---- What a step does to the chains ----

  lemma StepExtends(u: Setup, s: State, event: Event)
    ensures S.Extends(s.store, Apply(u, s, event).store)
  {
    match event
    case Commit(id, at) => if id in s.calls && s.calls[id].Ready? { V.CommitCases(u.service, s.store, s.calls[id].p, at); }
    case Mutate(e, at) => V.MutateCases(u.service, s.store, e, at);
    case _ =>
    hide V.Commit, V.Mutate, V.RecordOf;
  }

  /** The event writes a record to the chain of `ws`. */
  ghost predicate Writes(u: Setup, s: State, event: Event, ws: string) {
    S.Chain(Apply(u, s, event).store, ws) != S.Chain(s.store, ws)
  }

  /** What a write needs for the chain to stay valid: the head was read, or there was none to read, and
      the record's time was past the first microsecond or not filled in; a mutation can be serialised. */
  ghost predicate WritesRightly(u: Setup, s: State, event: Event, ws: string) {
    match event
    case Commit(_, at) =>
      (!at.readFails || Head(S.Chain(s.store, ws)) == GENESIS) && (Truncated(at.now) != 0 || at.storeNow == 0)
    case Mutate(e, at) =>
      && Payload(u.service.crypto, S.MutationRecord(e, Truncated(e.timestamp), "")).Some?
      && (!at.readFails || Head(S.Chain(s.store, ws)) == GENESIS) && (Truncated(e.timestamp) != 0 || at.storeNow == 0)
    case _ => true
  }

  lemma StepValidExactly(u: Setup, s: State, event: Event, ws: string)
    requires u.service.crypto.Valid()
    ensures ChainValid(u.service.crypto, S.Chain(Apply(u, s, event).store, ws)) <==>
      ChainValid(u.service.crypto, S.Chain(s.store, ws)) && (Writes(u, s, event, ws) ==> WritesRightly(u, s, event, ws))
  {
    var c, t := u.service.crypto, Apply(u, s, event);
    var rs, longer := S.Chain(s.store, ws), S.Chain(t.store, ws);
    StepExtends(u, s, event);
    assert IsPrefix(rs, longer);
    if ChainValid(c, longer) { ValidPrefix(c, longer, |rs|); }
    if ChainValid(c, rs) && longer != rs {
      WriteExactly(u, s, event, ws);
    }
    hide ChainValid, Apply;
  }

  lemma WriteExactly(u: Setup, s: State, event: Event, ws: string)
    requires u.service.crypto.Valid() && ChainValid(u.service.crypto, S.Chain(s.store, ws)) && Writes(u, s, event, ws)
    ensures ChainValid(u.service.crypto, S.Chain(Apply(u, s, event).store, ws)) <==> WritesRightly(u, s, event, ws)
  {
    match event
    case Commit(id, at) =>
      if id in s.calls && s.calls[id].Ready? {
        V.CommitCases(u.service, s.store, s.calls[id].p, at);
        if ws == s.calls[id].p.req.workspaceId { V.CommitKeepsChainExactly(u.service, s.store, s.calls[id].p, at); }
      }
    case Mutate(e, at) =>
      V.MutateCases(u.service, s.store, e, at);
      if ws == e.workspaceId { V.MutateKeepsChainExactly(u.service, s.store, e, at); }
    case _ =>
    hide V.Commit, V.Mutate, ChainValid, V.RecordOf;
  }

  /** When a chain passes verification at the end of a run, exactly: every step that wrote to it wrote
      rightly. */
  lemma {:induction false} ChainVerifiesExactly(u: Setup, events: seq<Event>, ws: string)
    requires u.service.crypto.Valid()
    ensures W.Inspect(u.service.crypto, S.Chain(Run(u, events).store, ws)).Intact? <==> AllWrittenRightly(u, events, ws)
  {
    W.VerifierExact(u.service.crypto, S.Chain(Run(u, events).store, ws));
    if events != [] {
      var before, event := events[..|events| - 1], events[|events| - 1];
      assert events == before + [event];
      ChainVerifiesExactly(u, before, ws);
      W.VerifierExact(u.service.crypto, S.Chain(Run(u, before).store, ws));
      StepValidExactly(u, Run(u, before), event, ws);
      OneMoreWrite(u, before, event, ws);
      hide Apply, Writes, WritesRightly, W.Inspect, AllWrittenRightly, ChainValid;
    }
  }

  /** Every step of the run that wrote to the chain of `ws` did so rightly. */
  ghost predicate AllWrittenRightly(u: Setup, events: seq<Event>, ws: string) {
    forall i :: 0 <= i < |events| ==> RightAt(u, events, i, ws)
  }

  ghost predicate RightAt(u: Setup, events: seq<Event>, i: nat, ws: string)
    requires i < |events|
  {
    Writes(u, Run(u, events[..i]), events[i], ws) ==> WritesRightly(u, Run(u, events[..i]), events[i], ws)
  }

  lemma OneMoreWrite(u: Setup, before: seq<Event>, event: Event, ws: string)
    ensures AllWrittenRightly(u, before + [event], ws) <==>
      AllWrittenRightly(u, before, ws) && (Writes(u, Run(u, before), event, ws) ==> WritesRightly(u, Run(u, before), event, ws))
  {
    hide Run, Writes, WritesRightly;
    var events := before + [event];
    forall i | 0 <= i < |before| ensures RightAt(u, events, i, ws) <==> RightAt(u, before, i, ws) {
      assert events[..i] == before[..i] && events[i] == before[i];
    }
    assert events[..|before|] == before && events[|before|] == event;
    assert RightAt(u, events, |before|, ws) <==> (Writes(u, Run(u, before), event, ws) ==> WritesRightly(u, Run(u, before), event, ws));
  }

  /** Nothing recorded is ever changed or lost: the chains at any point of a run are prefixes of
      those at any later point. */
  lemma {:induction false} RecordsOnlyAppended(u: Setup, events: seq<Event>, n: nat)
    requires n <= |events|
    ensures S.Extends(Run(u, events[..n]).store, Run(u, events).store)
  {
    if n == |events| {
      assert events[..n] == events;
    } else {
      var before := events[..|events| - 1];
      assert before[..n] == events[..n];
      RecordsOnlyAppended(u, before, n);
      StepExtends(u, Run(u, before), events[|events| - 1]);
      S.ExtendsTransitive(Run(u, events[..n]).store, Run(u, before).store, Run(u, events).store);
    }
  }

  ghost predicate Ordered(st: S.State) { S.Numbered(st) && S.UniqueIds(st) }

  lemma AppendKeepsOrder(st: S.State, r: DecisionRecord, now: int)
    requires Ordered(st)
    ensures Ordered(S.Append(st, r, now).0)
  {
    S.AppendKeepsNumbering(st, r, now);
    S.AppendKeepsUniqueIds(st, r, now);
  }

  lemma FaultKeepsOrder(st: S.State, fault: bool)
    requires Ordered(st)
    ensures Ordered(st.(faulty := fault))
  {
    var t := st.(faulty := fault);
    assert forall ws :: S.Chain(t, ws) == S.Chain(st, ws);
  }

  lemma StepKeepsOrder(u: Setup, s: State, event: Event)
    requires Ordered(s.store)
    ensures Ordered(Apply(u, s, event).store)
  {
    match event
    case Commit(id, at) =>
      if id in s.calls && s.calls[id].Ready? {
        var p := s.calls[id].p;
        var draft := V.Draft(u.service, p, at.now, V.PrevHash(s.store, p.req.workspaceId, at.readFails));
        if Payload(u.service.crypto, draft).Some? {
          AppendKeepsOrder(s.store, V.Sealed(u.service.crypto, draft, Payload(u.service.crypto, draft).value), at.storeNow);
        }
        hide S.Append, Ordered;
      }
    case Mutate(e, at) =>
      var draft := S.MutationRecord(e, Truncated(e.timestamp), V.PrevHash(s.store, e.workspaceId, at.readFails));
      var payload := Payload(u.service.crypto, draft);
      AppendKeepsOrder(s.store, if payload.Some? then V.Sealed(u.service.crypto, draft, payload.value) else draft, at.storeNow);
      hide S.Append, Ordered;
    case SetFault(fault) => FaultKeepsOrder(s.store, fault); hide Ordered;
    case _ =>
  }

  /** In every run, whatever fails, sequence numbers run from one without a gap and no identifier is
      given twice. */
  lemma {:induction false} NumberedInEveryRun(u: Setup, events: seq<Event>)
    ensures S.Numbered(Run(u, events).store) && S.UniqueIds(Run(u, events).store)
  {
    if events != [] {
      NumberedInEveryRun(u, events[..|events| - 1]);
      StepKeepsOrder(u, Run(u, events[..|events| - 1]), events[|events| - 1]);
      hide Apply, S.Numbered, S.UniqueIds;
    }
  }

  /** The stores that successive pages of the dashboard read in any run satisfy what its loop relies on. */
  lemma PagesReadAGrowingStore(u: Setup, events: seq<Event>, points: seq<nat>)
    requires forall i, j :: 0 <= i <= j < |points| ==> points[i] <= points[j] <= |events|
    ensures P.Growing(seq(|points|, i requires 0 <= i < |points| => Run(u, events[..points[i]]).store))
  {
    var snapshots := seq(|points|, i requires 0 <= i < |points| => Run(u, events[..points[i]]).store);
    forall i | 0 <= i < |points| ensures S.Numbered(snapshots[i]) { NumberedInEveryRun(u, events[..points[i]]); }
    forall i, j | 0 <= i < j < |points| ensures S.Extends(snapshots[i], snapshots[j]) {
      var later := events[..points[j]];
      assert later[..points[i]] == events[..points[i]];
      RecordsOnlyAppended(u, later, points[i]);
    }
    hide Run, S.Numbered, S.Extends;
  }

  // ---- Conservation of ALLOW ----

  /** What one ALLOW says: for whom, by which policy version, with which credential. */
  datatype Grant = Grant(executionId: string, agentId: string, policyVersion: string, credentialRef: string)

  predicate Allows(r: StoredRecord) { r.body.eventType == EVENT_DECISION && r.body.decision == D.VerdictName(D.Allow) }

  function GrantOf(r: StoredRecord): Grant
  {
    Grant(r.body.executionId, r.body.agentId, r.body.policyVersion, r.body.credentialRef)
  }

  /** The ALLOW records of a chain, in order. */
  function Ledger(rs: seq<StoredRecord>): seq<Grant>
  {
    if rs == [] then []
    else Ledger(rs[..|rs| - 1]) + if Allows(rs[|rs| - 1]) then [GrantOf(rs[|rs| - 1])] else []
  }

  function GrantReturned(p: V.Pending, out: V.Outcome): Grant
  {
    Grant(p.req.executionId, p.req.identity.agentId, out.res.policyVersion, if out.cred.Some? then out.cred.value.ref else "")
  }

  /** The ALLOW results returned for a workspace, in order. */
  function Grants(returned: seq<(V.Pending, V.Outcome)>, ws: string): seq<Grant>
  {
    if returned == [] then []
    else
      var (p, out) := returned[|returned| - 1];
      Grants(returned[..|returned| - 1], ws)
      + if p.req.workspaceId == ws && out.res.verdict == D.Allow then [GrantReturned(p, out)] else []
  }

  ghost predicate Conserved(s: State) {
    forall ws :: Ledger(S.Chain(s.store, ws)) == Grants(s.returned, ws)
  }

  ghost predicate Prepared(p: V.Pending) { V.WellPrepared(p) && p.policyVersion == p.res.policyVersion }

  /** Calls that are ready were prepared; a finished call that returned ALLOW has its record. */
  ghost predicate CallsSound(u: Setup, s: State) {
    forall id :: id in s.calls ==> CallSound(u, s.store, s.calls[id])
  }

  ghost predicate CallSound(u: Setup, store: S.State, c: Call) {
    match c
    case Waiting(_, _) => true
    case Ready(p, _) => Prepared(p)
    case Done(p, _, at, out, position) =>
      && RecordedAt(u, store, p, at, position)
      && (position.None? ==> V.ClosedFor(p, out)) && (position.Some? ==> out == V.Outcome(p.res, p.cred))
      && (out.cred.Some? ==> out.res.verdict == D.Allow)
      && (position.Some? ==> position.value < |S.Chain(store, p.req.workspaceId)|)
      && (out.res.verdict == D.Allow <==> LeftAllow(store, p, position))
      && (out.res.verdict == D.Allow ==> HasRecord(store, p, out, position.value))
  }

  /** The record written for the call, if any, says what was decided. */
  ghost predicate RecordedAt(u: Setup, store: S.State, p: V.Pending, at: V.Moment, position: Option<nat>) {
    position.Some? ==>
      && position.value < |S.Chain(store, p.req.workspaceId)|
      && V.RecordOf(u.service, p, at, S.Chain(store, p.req.workspaceId)[position.value])
  }

  /** A record was written for the call, and it says ALLOW. */
  ghost predicate LeftAllow(store: S.State, p: V.Pending, position: Option<nat>) {
    && position.Some? && position.value < |S.Chain(store, p.req.workspaceId)|
    && Allows(S.Chain(store, p.req.workspaceId)[position.value])
  }

  /** The record of an ALLOW at position `k` of its workspace's chain. */
  ghost predicate HasRecord(store: S.State, p: V.Pending, out: V.Outcome, k: nat) {
    var rs := S.Chain(store, p.req.workspaceId);
    k < |rs| && Allows(rs[k]) && GrantOf(rs[k]) == GrantReturned(p, out)
  }

  /** Every OK answer stands for a finished, adapted call that returned ALLOW with that credential. */
  ghost predicate RepliesSound(u: Setup, s: State) {
    forall id :: id in s.replies && s.replies[id].Okay? ==>
      && id in s.calls && s.calls[id].Done? && s.calls[id].denial.None?
      && s.calls[id].out == V.Outcome(s.replies[id].res, s.replies[id].cred)
      && s.replies[id].res.verdict == D.Allow
      && (u.requireCredential ==> s.replies[id].cred.Some?)
      && (s.replies[id].cred.Some? ==> s.replies[id].cred.value.headerName != "")
  }

  ghost predicate Inv(u: Setup, s: State) { Conserved(s) && CallsSound(u, s) && RepliesSound(u, s) }

  lemma LedgerAppend(rs: seq<StoredRecord>, longer: seq<StoredRecord>)
    requires |longer| == |rs| + 1 && longer[..|rs|] == rs
    ensures Ledger(longer) == Ledger(rs) + if Allows(longer[|rs|]) then [GrantOf(longer[|rs|])] else []
  {
  }

  lemma GrantsAppend(returned: seq<(V.Pending, V.Outcome)>, p: V.Pending, out: V.Outcome, ws: string)
    ensures Grants(returned + [(p, out)], ws) ==
      Grants(returned, ws) + if p.req.workspaceId == ws && out.res.verdict == D.Allow then [GrantReturned(p, out)] else []
  {
    assert (returned + [(p, out)])[..|returned|] == returned;
  }

  lemma RecordSays(u: Setup, p: V.Pending, at: V.Moment, r: StoredRecord)
    requires Prepared(p) && V.RecordOf(u.service, p, at, r)
    ensures Allows(r) <==> p.res.verdict == D.Allow
    ensures Allows(r) ==> GrantOf(r) == GrantReturned(p, V.Outcome(p.res, p.cred))
  {
  }

  lemma CommitConserves(u: Setup, s: State, id: nat, at: V.Moment)
    requires Conserved(s) && id in s.calls && s.calls[id].Ready? && Prepared(s.calls[id].p)
    ensures Conserved(Committed(u, s, id, at))
  {
    var p, t := s.calls[id].p, Committed(u, s, id, at);
    var out := V.Commit(u.service, s.store, p, at).1;
    V.CommitCases(u.service, s.store, p, at);
    hide V.Commit, Allows;
    forall ws ensures Ledger(S.Chain(t.store, ws)) == Grants(t.returned, ws) {
      GrantsAppend(s.returned, p, out, ws);
      assert Ledger(S.Chain(s.store, ws)) == Grants(s.returned, ws);
      if ws == p.req.workspaceId && t.store != s.store {
        var rs := S.Chain(s.store, ws);
        LedgerAppend(rs, S.Chain(t.store, ws));
        RecordSays(u, p, at, S.Chain(t.store, ws)[|rs|]);
      }
    }
  }

  lemma MutateConserves(u: Setup, s: State, e: S.MutationEvent, at: V.Moment)
    requires Conserved(s)
    ensures Conserved(Apply(u, s, Mutate(e, at)))
  {
    var t := Apply(u, s, Mutate(e, at));
    V.MutateCases(u.service, s.store, e, at);
    hide V.Mutate;
    forall ws ensures Ledger(S.Chain(t.store, ws)) == Grants(t.returned, ws) {
      assert Ledger(S.Chain(s.store, ws)) == Grants(s.returned, ws);
      if ws == e.workspaceId && t.store != s.store { LedgerAppend(S.Chain(s.store, ws), S.Chain(t.store, ws)); }
    }
  }

  lemma RecordStays(u: Setup, s: S.State, t: S.State, c: Call)
    requires S.Extends(s, t) && CallSound(u, s, c)
    ensures CallSound(u, t, c)
  {
    if c.Done? && c.position.Some? {
      var ws := c.p.req.workspaceId;
      assert IsPrefix(S.Chain(s, ws), S.Chain(t, ws));
      assert S.Chain(t, ws)[c.position.value] == S.Chain(s, ws)[c.position.value];
    }
    hide Allows, GrantOf, GrantReturned, S.Chain, V.RecordOf, V.ClosedFor;
  }

  lemma FinishedCallSound(u: Setup, s: State, id: nat, at: V.Moment)
    requires id in s.calls && s.calls[id].Ready? && Prepared(s.calls[id].p)
    ensures CallSound(u, Committed(u, s, id, at).store, Committed(u, s, id, at).calls[id])
  {
    var p := s.calls[id].p;
    V.CommitCases(u.service, s.store, p, at);
    var t := Committed(u, s, id, at);
    var rs := S.Chain(s.store, p.req.workspaceId);
    hide V.Commit;
    if t.store != s.store { RecordSays(u, p, at, S.Chain(t.store, p.req.workspaceId)[|rs|]); }
  }

  lemma PreparedCall(evaluator: Option<V.Evaluator>, issuer: Option<V.Issuer>, req: D.Request)
    ensures Prepared(V.Prepared(evaluator, issuer, req)) && V.Prepared(evaluator, issuer, req).req == req
  {
    V.PreparedWell(evaluator, issuer, req);
  }

  lemma StepKeepsCalls(u: Setup, s: State, event: Event)
    requires CallsSound(u, s)
    ensures CallsSound(u, Apply(u, s, event))
  {
    var t := Apply(u, s, event);
    StepExtends(u, s, event);
    forall id | id in t.calls ensures CallSound(u, t.store, t.calls[id]) {
      if id in s.calls && t.calls[id] == s.calls[id] {
        RecordStays(u, s.store, t.store, s.calls[id]);
      } else {
        match event
        case Prepare(_, evaluator, issuer) => PreparedCall(evaluator, issuer, s.calls[id].req);
        case Commit(_, at) => FinishedCallSound(u, s, id, at);
        case _ =>
      }
    }
  }

  lemma StepKeepsReplies(u: Setup, s: State, event: Event)
    requires RepliesSound(u, s)
    ensures RepliesSound(u, Apply(u, s, event))
  {
    hide V.Prepared, V.Commit, V.Mutate;
  }

  lemma StepKeepsInv(u: Setup, s: State, event: Event)
    requires Inv(u, s)
    ensures Inv(u, Apply(u, s, event))
  {
    StepKeepsCalls(u, s, event);
    StepKeepsReplies(u, s, event);
    match event
    case Commit(id, at) => if id in s.calls && s.calls[id].Ready? { CommitConserves(u, s, id, at); }
    case Mutate(e, at) => MutateConserves(u, s, e, at);
    case _ =>
    hide CallsSound, RepliesSound, V.Prepared, V.Commit, V.Mutate;
  }

  lemma {:induction false} EveryRunSound(u: Setup, events: seq<Event>)
    ensures Inv(u, Run(u, events))
  {
    if events != [] {
      EveryRunSound(u, events[..|events| - 1]);
      StepKeepsInv(u, Run(u, events[..|events| - 1]), events[|events| - 1]);
    }
  }

  /** Conservation. In every run, whatever faults and time-outs it has, the ALLOW results the service
      returned for a workspace are exactly the ALLOW records in its chain: the same number, in the
      same order, for the same executions, agents, policy versions and credential references. */
  lemma AllowsConserved(u: Setup, events: seq<Event>, ws: string)
    ensures Ledger(S.Chain(Run(u, events).store, ws)) == Grants(Run(u, events).returned, ws)
  {
    EveryRunSound(u, events);
  }

  /** An OK answer is never given without its record: the chain holds an ALLOW record for that
      execution, with the reference of the credential that was handed out, if any. */
  lemma OkAnswerHasRecord(u: Setup, events: seq<Event>, id: nat)
    requires id in Run(u, events).replies && Run(u, events).replies[id].Okay?
    ensures var s := Run(u, events);
      && id in s.calls && s.calls[id].Done? && s.calls[id].denial.None?
      && var (reply, p) := (s.replies[id], s.calls[id].p);
      && (reply.cred.Some? ==> reply.cred.value.headerName != "") && (u.requireCredential ==> reply.cred.Some?)
      && exists k :: HasRecord(s.store, p, V.Outcome(reply.res, reply.cred), k)
  {
    EveryRunSound(u, events);
    var s := Run(u, events);
    assert CallSound(u, s.store, s.calls[id]);
    assert HasRecord(s.store, s.calls[id].p, s.calls[id].out, s.calls[id].position.value);
  }

  /** What is on record about each call, in every run: a finished call either has its record, which says
      when, for whom, with which arguments, under which policy and how it was decided, or could not be
      recorded and was returned as a denial. */
  lemma FinishedCallRecorded(u: Setup, events: seq<Event>, id: nat)
    requires id in Run(u, events).calls && Run(u, events).calls[id].Done?
    ensures var s, c := Run(u, events), Run(u, events).calls[id];
      if c.position.Some? then
        var rs := S.Chain(s.store, c.p.req.workspaceId);
        c.position.value < |rs| && V.RecordOf(u.service, c.p, c.at, rs[c.position.value]) && c.out == V.Outcome(c.p.res, c.p.cred)
      else V.ClosedFor(c.p, c.out)
  {
    EveryRunSound(u, events);
    assert CallSound(u, Run(u, events).store, Run(u, events).calls[id]);
    hide Run, V.RecordOf, V.ClosedFor;
  }

  // ---- Which answer a call gets ----

  /** The event answers call `id` for lack of time. */
  ghost predicate TimesOut(s: State, event: Event, id: nat) {
    event.TimeOut? && event.id == id && id in s.calls && s.calls[id].denial.None? && id !in s.replies
  }

  /** At some point of the run, the time of call `id` ran out before it was answered. */
  ghost predicate TimedOut(u: Setup, events: seq<Event>, id: nat) {
    exists i :: 0 <= i < |events| && TimesOut(Run(u, events[..i]), events[i], id)
  }

  lemma TimedOutStep(u: Setup, before: seq<Event>, event: Event, id: nat)
    ensures TimedOut(u, before + [event], id) <==> TimedOut(u, before, id) || TimesOut(Run(u, before), event, id)
  {
    hide Run, TimesOut;
    var events := before + [event];
    assert events[..|before|] == before && events[|before|] == event;
    assert forall i :: 0 <= i < |before| ==> events[..i] == before[..i] && events[i] == before[i];
    if TimedOut(u, before, id) {
      var i :| 0 <= i < |before| && TimesOut(Run(u, before[..i]), before[i], id);
      assert TimesOut(Run(u, events[..i]), events[i], id);
    }
    if TimesOut(Run(u, before), event, id) { assert TimesOut(Run(u, events[..|before|]), events[|before|], id); }
  }

  /** A call keeps its request and its kind, a finished one stays as it is, and an answer is never taken
      back. */
  lemma CallStays(u: Setup, s: State, event: Event, id: nat)
    requires id in s.calls
    ensures var t := Apply(u, s, event);
      && id in t.calls && t.calls[id].denial == s.calls[id].denial && RequestOf(t.calls[id]) == RequestOf(s.calls[id])
      && (s.calls[id].Done? ==> t.calls[id] == s.calls[id])
      && (id in s.replies ==> id in t.replies && t.replies[id] == s.replies[id])
  {
    if event.Prepare? && event.id == id && s.calls[id].Waiting? { PreparedCall(event.evaluator, event.issuer, s.calls[id].req); }
    hide V.Prepared, V.Commit, V.Mutate;
  }

  /** The answer call `id` should have in state `s`. */
  ghost predicate AnsweredRightly(u: Setup, s: State, id: nat, late: bool) {
    && id in s.calls && id in s.replies
    && var c := s.calls[id];
    if late then c.denial.None? && s.replies[id] == C.Refused(D.EvaluationError, RequestOf(c).executionId)
    else c.Done? && s.replies[id] == (if c.denial.Some? then C.Refused(c.denial.value, c.p.req.executionId)
                                      else C.Answer(u.requireCredential, c.out))
  }

  lemma NewAnswer(u: Setup, s: State, event: Event, id: nat)
    requires id !in s.replies
    ensures var t := Apply(u, s, event);
      && (TimesOut(s, event, id) ==> AnsweredRightly(u, t, id, true))
      && (id in t.replies && !TimesOut(s, event, id) ==> AnsweredRightly(u, t, id, false))
  {
    hide V.Prepared, V.Commit, V.Mutate, C.Answer;
  }

  /** Every answer is the refusal for lack of time, if time ran out first, and otherwise what the
      finished call's outcome calls for. */
  lemma {:induction false} AnswerExactly(u: Setup, events: seq<Event>, id: nat)
    ensures id in Run(u, events).replies ==> AnsweredRightly(u, Run(u, events), id, TimedOut(u, events, id))
    ensures TimedOut(u, events, id) ==> id in Run(u, events).replies
  {
    if events != [] {
      var before, event := events[..|events| - 1], events[|events| - 1];
      assert events == before + [event];
      AnswerExactly(u, before, id);
      TimedOutStep(u, before, event, id);
      var s := Run(u, before);
      if id in s.replies { CallStays(u, s, event, id); } else { NewAnswer(u, s, event, id); }
      hide Apply, TimedOut, C.Answer;
    }
  }

  /** When an answer is OK, exactly: the call's time did not run out first, it ended in a returned ALLOW,
      and the credential gate let that through. */
  lemma OkExactly(u: Setup, events: seq<Event>, id: nat)
    requires id in Run(u, events).replies
    ensures var s := Run(u, events);
      && id in s.calls
      && (s.calls[id].denial.None? ==>
            (s.replies[id].Okay? <==>
              !TimedOut(u, events, id) && s.calls[id].Done? && s.calls[id].out.res.verdict == D.Allow
              && C.GateOpen(u.requireCredential, s.calls[id].out.cred)))
  {
    AnswerExactly(u, events, id);
    hide Run, TimedOut;
  }

  /** When a refused check leaves an ALLOW record, exactly: it ended in a returned ALLOW, and its time
      had run out first or the credential gate refused it. */
  lemma RefusedWithRecordExactly(u: Setup, events: seq<Event>, id: nat)
    requires id in Run(u, events).replies && id in Run(u, events).calls
    requires Run(u, events).calls[id].Done? && Run(u, events).calls[id].denial.None?
    ensures var s, c := Run(u, events), Run(u, events).calls[id];
      s.replies[id].Refused? && LeftAllow(s.store, c.p, c.position) <==>
      c.out.res.verdict == D.Allow && (TimedOut(u, events, id) || !C.GateOpen(u.requireCredential, c.out.cred))
  {
    OkExactly(u, events, id);
    EveryRunSound(u, events);
    assert CallSound(u, Run(u, events).store, Run(u, events).calls[id]);
    hide Run, TimedOut, HasRecord, LeftAllow;
  }

  /** The decision record at place `k` of the chain of `ws` is that of call `id`. */
  ghost predicate LeftBy(s: State, id: nat, ws: string, k: nat) {
    id in s.calls && s.calls[id].Done? && s.calls[id].p.req.workspaceId == ws && s.calls[id].position == Some(k)
  }

  /** Every record of a decision was left by a call. */
  ghost predicate Accounted(s: State) {
    forall ws, k :: 0 <= k < |S.Chain(s.store, ws)| && S.Chain(s.store, ws)[k].body.eventType == EVENT_DECISION ==>
      exists id :: LeftBy(s, id, ws, k)
  }

  lemma StepKeepsAccounted(u: Setup, s: State, event: Event, ws: string, k: nat)
    requires Accounted(s)
    requires var rs := S.Chain(Apply(u, s, event).store, ws); k < |rs| && rs[k].body.eventType == EVENT_DECISION
    ensures exists id :: LeftBy(Apply(u, s, event), id, ws, k)
  {
    var t := Apply(u, s, event);
    StepExtends(u, s, event);
    assert IsPrefix(S.Chain(s.store, ws), S.Chain(t.store, ws));
    if k < |S.Chain(s.store, ws)| {
      assert S.Chain(s.store, ws)[k] == S.Chain(t.store, ws)[k];
      var id :| LeftBy(s, id, ws, k);
      CallStays(u, s, event, id);
      assert LeftBy(t, id, ws, k);
    } else {
      NewRecordAccounted(u, s, event, ws, k);
    }
    hide Apply, Accounted;
  }

  lemma NewRecordAccounted(u: Setup, s: State, event: Event, ws: string, k: nat)
    requires var rs := S.Chain(Apply(u, s, event).store, ws); k < |rs| && rs[k].body.eventType == EVENT_DECISION
    requires |S.Chain(s.store, ws)| <= k
    ensures exists id :: LeftBy(Apply(u, s, event), id, ws, k)
  {
    match event
    case Commit(id, at) =>
      if id in s.calls && s.calls[id].Ready? { CommittedAccounted(u, s, id, at, ws, k); }
    case Mutate(e, at) =>
      V.MutateCases(u.service, s.store, e, at);
      hide V.Mutate, V.TimeOf;
    case _ =>
  }

  lemma CommittedAccounted(u: Setup, s: State, id: nat, at: V.Moment, ws: string, k: nat)
    requires id in s.calls && s.calls[id].Ready?
    requires |S.Chain(s.store, ws)| <= k < |S.Chain(Apply(u, s, Commit(id, at)).store, ws)|
    ensures LeftBy(Apply(u, s, Commit(id, at)), id, ws, k)
  {
    V.CommitCases(u.service, s.store, s.calls[id].p, at);
    hide V.Commit, V.RecordOf, V.ClosedFor, V.TimeOf, S.Chain;
  }

  /** In every run, every record of a decision in any chain was left by a call; so no decision is on record
      that was not made. */
  lemma {:induction false} EveryDecisionHasItsCall(u: Setup, events: seq<Event>)
    ensures Accounted(Run(u, events))
  {
    if events != [] {
      var before, event := events[..|events| - 1], events[|events| - 1];
      EveryDecisionHasItsCall(u, before);
      var s := Run(u, before);
      forall ws, k | 0 <= k < |S.Chain(Apply(u, s, event).store, ws)|
          && S.Chain(Apply(u, s, event).store, ws)[k].body.eventType == EVENT_DECISION
        ensures exists id :: LeftBy(Apply(u, s, event), id, ws, k)
      {
        StepKeepsAccounted(u, s, event, ws, k);
      }
      hide Apply, LeftBy;
    }
  }

  /** The event shows the record that call `id` left at place `k`. */
  ghost predicate ShowsCall(u: Setup, s: State, ws: string, e: P.AuditEvent, id: nat, k: nat) {
    && LeftBy(s, id, ws, k) && k < |S.Chain(s.store, ws)| && e == P.View(S.Chain(s.store, ws)[k])
    && V.RecordOf(u.service, s.calls[id].p, s.calls[id].at, S.Chain(s.store, ws)[k])
  }

  lemma LeftRecordSays(u: Setup, s: State, ws: string, id: nat, k: nat)
    requires CallsSound(u, s) && LeftBy(s, id, ws, k)
    ensures k < |S.Chain(s.store, ws)| && V.RecordOf(u.service, s.calls[id].p, s.calls[id].at, S.Chain(s.store, ws)[k])
  {
    assert CallSound(u, s.store, s.calls[id]);
    hide V.RecordOf, V.ClosedFor, LeftAllow, HasRecord;
  }

  /** What the dashboard shows was decided: every event it loads shows the record of a finished call. */
  lemma DashboardShowsCalls(u: Setup, events: seq<Event>, ws: string, limit: int, e: P.AuditEvent)
    requires e in P.RecentDecisions(Run(u, events).store, ws, limit)
    ensures exists id, k :: ShowsCall(u, Run(u, events), ws, e, id, k)
  {
    var s := Run(u, events);
    var rs := S.Chain(s.store, ws);
    P.RecentDecisionsAreDecisions(s.store, ws, limit, e);
    EveryDecisionHasItsCall(u, events);
    EveryRunSound(u, events);
    var k :| 0 <= k < |rs| && e == P.View(rs[k]) && rs[k].body.eventType == "decision";
    hide Run, P.RecentDecisions, P.View, V.RecordOf, CallsSound, Conserved, RepliesSound;
    var id :| LeftBy(s, id, ws, k);
    LeftRecordSays(u, s, ws, id, k);
    assert ShowsCall(u, s, ws, e, id, k);
  }

  /** Check 0 was refused for lack of time although the chain holds its ALLOW record. */
  ghost predicate RefusedWithRecord(s: State, req: D.Request) {
    && 0 in s.replies && s.replies[0] == C.Refused(D.EvaluationError, req.executionId)
    && |Ledger(S.Chain(s.store, req.workspaceId))| == 1
  }

  /** Such a run: a check whose time runs out after its record was written is refused, and its ALLOW
      stays in the chain. */
  lemma RefusedAfterRecord(u: Setup, req: D.Request) returns (events: seq<Event>)
    requires req.workspaceId != "" && forall r :: u.service.crypto.render(r).Some?
    ensures RefusedWithRecord(Run(u, events), req)
  {
    var res := D.Result(D.Allow, D.PolicyAllow, "", req.executionId);
    var evaluator := V.Evaluator((ws, r) => Some(res), None);
    var at, p := V.Moment(1000, 1000, false), V.Pending(req, res, "", "", None);
    events := [Begin(0, req, None), Prepare(0, Some(evaluator), None), Commit(0, at), TimeOut(0)];
    RunOfFour(u, events);
    AllowsConserved(u, events, req.workspaceId);
    assert V.Prepared(Some(evaluator), None, req) == p;
    TwoSteps(u, evaluator, req);
    FirstCommit(u, p, at);
    var s1 := Initial().(calls := map[0 := Ready(p, None)]);
    assert Apply(u, s1, Commit(0, at)) == Committed(u, s1, 0, at);
    hide V.Prepared, Committed, Ledger, Grants, Run;
  }

  lemma RunOfFour(u: Setup, events: seq<Event>)
    requires |events| == 4
    ensures Run(u, events) == Apply(u, Apply(u, Apply(u, Apply(u, Initial(), events[0]), events[1]), events[2]), events[3])
  {
    hide Apply, Initial;
    var e1, e2, e3 := events[..1], events[..2], events[..3];
    assert e1[..0] == [] && e2[..1] == e1 && e3[..2] == e2;
    assert Run(u, []) == Initial();
    assert Run(u, e1) == Apply(u, Initial(), events[0]);
    assert Run(u, e2) == Apply(u, Run(u, e1), events[1]);
  }

  lemma TwoSteps(u: Setup, evaluator: V.Evaluator, req: D.Request)
    ensures Apply(u, Apply(u, Initial(), Begin(0, req, None)), Prepare(0, Some(evaluator), None))
         == Initial().(calls := map[0 := Ready(V.Prepared(Some(evaluator), None, req), None)])
  {
    hide V.Prepared;
  }

  /** The first commit of a run, when nothing fails. */
  lemma FirstCommit(u: Setup, p: V.Pending, at: V.Moment)
    requires p.req.workspaceId != "" && p.res.verdict == D.Allow && forall r :: u.service.crypto.render(r).Some?
    ensures var t := Committed(u, Initial().(calls := map[0 := Ready(p, None)]), 0, at);
      t.calls.Keys == {0} && t.replies == map[] && RequestOf(t.calls[0]) == p.req && t.calls[0].denial.None?
      && |Grants(t.returned, p.req.workspaceId)| == 1
  {
    var s := Initial().(calls := map[0 := Ready(p, None)]);
    var out := V.Commit(u.service, s.store, p, at).1;
    V.CommitCases(u.service, s.store, p, at);
    assert V.Commit(u.service, s.store, p, at).0 != s.store;
    hide V.Commit;
    GrantsAppend([], p, out, p.req.workspaceId);
    assert Committed(u, s, 0, at).returned == [] + [(p, out)];
  }
}
