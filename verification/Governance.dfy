/** Decisions under the managed policies, and what the audit record says about the policy that made
    them. */
module Governance {
  import opened Prelude
  import D = Decision
  import M = PolicyManager
  import P = PolicyStore
  import V = AuditService

  /** What a policy source means to the policy engine. */
  type Semantics = string -> (D.EvalInput -> D.EvalOutput)

  function PolicyOf(l: M.Language, semantics: Semantics, eng: M.Engine): D.Policy
  {
    D.Policy(semantics(eng.source), l.hash(eng.source))
  }

  function Governed(l: M.Language, semantics: Semantics, m: M.State, ws: string, req: D.Request): D.Result
  {
    match M.ActiveEngine(m, ws)
    case Some(eng) => D.Evaluate(Some(PolicyOf(l, semantics, eng)), req)
    case None => D.Evaluate(None, req)
  }

  class GovernanceDecisionService {
    const manager: M.Manager
    const semantics: Semantics

    constructor (manager: M.Manager, semantics: Semantics)
      ensures this.manager == manager && this.semantics == semantics
    {
      this.manager, this.semantics := manager, semantics;
    }

    method EvaluateWithActivePolicy(ws: string, req: D.Request) returns (r: D.Result)
      ensures r == Governed(manager.lang, semantics, manager.Contents(), ws, req)
    {
      var eng := manager.GetActiveEngine(ws);
      if eng.None? {
        r := D.Evaluate(None, req);
      } else {
        r := D.Evaluate(Some(PolicyOf(manager.lang, semantics, eng.value)), req);
      }
    }

    method GetActiveProvenance(ws: string) returns (r: Option<(string, string)>)
      ensures r == M.Provenance(manager.lang, manager.Contents(), ws)
    {
      r := manager.GetActiveProvenance(ws);
    }
  }

  /** Whose policy decides, exactly. In every run of the policy lifecycle, a workspace with a cached engine
      allows a request exactly when the request passes every structural check and the content stored under
      the workspace's active version, as the policy engine reads it, allows it without an error; one
      without allows nothing. */
  lemma ActiveContentDecides(l: M.Language, semantics: Semantics, ops: seq<M.Op>, ws: string, req: D.Request)
    requires l.Valid()
    ensures var m := M.Run(l, ops);
      if ws in m.engines then
        exists version :: P.IsActive(m.data, ws, version)
          && Decides(semantics, m.data[ws][version].content, req, Governed(l, semantics, m, ws, req).verdict)
      else Governed(l, semantics, m, ws, req).verdict == D.Deny
  {
    var m := M.Run(l, ops);
    M.CacheAgreesInEveryRun(l, ops, 0);
    M.AgreedCache(l, m);
    if ws in m.engines {
      D.AllowedExactly(Some(PolicyOf(l, semantics, m.engines[ws])), req);
      assert P.IsActive(m.data, ws, m.versions[ws]);
    } else {
      D.AllowedExactly(None, req);
    }
    hide M.Run, M.Agrees, D.Evaluate, D.ReachesPolicy;
  }

  /** The verdict on the request is what the policy with this content says. */
  ghost predicate Decides(semantics: Semantics, content: string, req: D.Request, verdict: D.Verdict) {
    verdict == D.Allow <==>
      D.ReachesPolicy(req)
      && semantics(content)(D.EvalInputOf(req)).allowed && !semantics(content)(D.EvalInputOf(req)).hadError
  }

  /** The evaluator as one call meets it: it evaluates in one state of the manager and reads the
      provenance in another, later one. */
  function EvaluatorAt(l: M.Language, semantics: Semantics, evaluated: M.State, read: M.State): V.Evaluator
  {
    V.Evaluator((ws, req) => Some(Governed(l, semantics, evaluated, ws, req)), Some(ws => M.Provenance(l, read, ws)))
  }

  function PreparedAt(l: M.Language, semantics: Semantics, evaluated: M.State, read: M.State, issuer: Option<V.Issuer>, req: D.Request): V.Pending
  {
    V.Prepared(Some(EvaluatorAt(l, semantics, evaluated, read)), issuer, req)
  }

  /** What is prepared names a policy exactly when the policy was consulted; it then names the one the
      provenance was read from. */
  lemma PreparedProvenance(l: M.Language, semantics: Semantics, evaluated: M.State, read: M.State, issuer: Option<V.Issuer>, req: D.Request)
    requires l.Valid()
    ensures var p, ws := PreparedAt(l, semantics, evaluated, read, issuer, req), req.workspaceId;
      if D.ReachesPolicy(req) && ws in evaluated.engines then
        match M.Provenance(l, read, ws)
        case None => p.policyVersion == p.policyHash == l.hash(evaluated.engines[ws].source)
        case Some((version, hash)) => p.policyVersion == version && p.policyHash == hash
      else p.policyVersion == "" && p.policyHash == ""
  {
    var ws := req.workspaceId;
    D.AllowedExactly(if ws in evaluated.engines then Some(PolicyOf(l, semantics, evaluated.engines[ws])) else None, req);
    hide D.Evaluate, D.ReachesPolicy;
  }

  // ---- The cached engine from evaluation to provenance ----

  lemma {:induction false} LoadKeepsEngine(l: M.Language, m: M.State, workspaces: seq<string>, ws: string)
    requires M.Agrees(l, m) && ws in m.engines
    ensures ws in M.Loaded(m, workspaces).engines && M.Loaded(m, workspaces).engines[ws] == m.engines[ws]
  {
    if workspaces != [] {
      var before := workspaces[..|workspaces| - 1];
      LoadKeepsEngine(l, m, before, ws);
      M.LoadKeepsAgreement(l, m, before);
      LoadOneKeepsEngine(l, M.Loaded(m, before), workspaces[|workspaces| - 1], ws);
      hide M.Agrees, M.LoadedOne;
    }
  }

  lemma LoadOneKeepsEngine(l: M.Language, m: M.State, loaded: string, ws: string)
    requires M.Agrees(l, m) && ws in m.engines
    ensures ws in M.LoadedOne(m, loaded).engines && M.LoadedOne(m, loaded).engines[ws] == m.engines[ws]
  {
    M.AgreedCache(l, m);
    if loaded == ws {
      var v := P.ActiveVersion(m.data, ws);
      assert P.IsActive(m.data, ws, m.versions[ws]);
      assert P.IsActive(m.data, ws, v) && v == m.versions[ws];
    }
  }

  /** The content that a successful activation or rollback of `ws` brings in. */
  ghost function Brings(l: M.Language, m: M.State, op: M.Op, ws: string): Option<string>
  {
    match op
    case DoActivate(w, version, now, f) => BringsBy(l, m, w, version, M.Activated, now, f, ws)
    case DoRollback(w, version, now, f) => BringsBy(l, m, w, version, M.RolledBack, now, f, ws)
    case _ => None
  }

  ghost function BringsBy(l: M.Language, m: M.State, w: string, version: string, action: M.Action, now: int, f: M.Faults, ws: string): Option<string>
  {
    if w == ws && M.Switch(l, m, ws, version, action, now, f).1.Some? then Some(P.Get(m.data, ws, version, f.read).value.content)
    else None
  }

  /** The content brought in by the last successful switch of `ws` in `ops[from..]`, if there is one. */
  ghost function LastBrought(l: M.Language, ops: seq<M.Op>, from: nat, ws: string): Option<string>
    requires from <= |ops|
  {
    if |ops| == from then None
    else
      var before := ops[..|ops| - 1];
      var brought := Brings(l, M.Run(l, before), ops[|ops| - 1], ws);
      if brought.Some? then brought else LastBrought(l, before, from, ws)
  }

  lemma SwitchEngine(l: M.Language, m: M.State, w: string, version: string, action: M.Action, now: int, f: M.Faults, ws: string)
    requires ws in m.engines
    ensures var n, brought := M.Switch(l, m, w, version, action, now, f).0, BringsBy(l, m, w, version, action, now, f, ws);
      ws in n.engines && n.engines[ws].source == if brought.Some? then brought.value else m.engines[ws].source
  {
    hide P.Activate;
  }

  lemma EngineStep(l: M.Language, m: M.State, op: M.Op, ws: string)
    requires M.Agrees(l, m) && ws in m.engines && !op.Restart?
    ensures var n, brought := M.ApplyOp(l, m, op), Brings(l, m, op, ws);
      ws in n.engines && n.engines[ws].source == if brought.Some? then brought.value else m.engines[ws].source
  {
    match op
    case DoCreate(_, _, _, _, _, _) =>
    case DoActivate(w, version, now, f) => SwitchEngine(l, m, w, version, M.Activated, now, f, ws);
    case DoRollback(w, version, now, f) => SwitchEngine(l, m, w, version, M.RolledBack, now, f, ws);
    case DoLoad(workspaces) => LoadKeepsEngine(l, m, workspaces, ws);
    case Restart =>
    hide M.Agrees, M.Switch, M.Loaded, BringsBy, P.Create;
  }

  /** While the process lives, a workspace with a cached engine keeps one, and its source is that of the
      last successful switch since, or what it was if there was none. */
  lemma {:induction false} EngineAfter(l: M.Language, ops: seq<M.Op>, from: nat, ws: string)
    requires l.Valid() && from <= |ops| && ws in M.Run(l, ops[..from]).engines
    requires forall i :: from <= i < |ops| ==> !ops[i].Restart?
    ensures ws in M.Run(l, ops).engines
    ensures var brought := LastBrought(l, ops, from, ws);
      M.Run(l, ops).engines[ws].source == if brought.Some? then brought.value else M.Run(l, ops[..from]).engines[ws].source
  {
    if from == |ops| {
      assert ops[..from] == ops;
    } else {
      var before, op := ops[..|ops| - 1], ops[|ops| - 1];
      assert before[..from] == ops[..from];
      EngineAfter(l, before, from, ws);
      M.CacheAgreesInEveryRun(l, before, 0);
      EngineStep(l, M.Run(l, before), op, ws);
      hide M.ApplyOp, M.Agrees, Brings;
    }
  }

  // ---- What the record says about the policy ----

  /** The recorded policy hash is the hash of the content stored under the recorded policy version.
      In every run of the policy lifecycle, whatever happens between evaluating and reading the
      provenance while the process lives, a record that names a policy names the workspace's active
      version with that version's content hash, and the store still holds that content under that
      version at any later point. */
  lemma RecordedHashOfStoredContent(
      l: M.Language, semantics: Semantics, ops: seq<M.Op>, evaluated: nat, read: nat, issuer: Option<V.Issuer>, req: D.Request)
    requires l.Valid() && evaluated <= read <= |ops|
    requires forall i :: evaluated <= i < read ==> !ops[i].Restart?
    ensures var at, later, ws := M.Run(l, ops[..read]), M.Run(l, ops), req.workspaceId;
      var p := PreparedAt(l, semantics, M.Run(l, ops[..evaluated]), at, issuer, req);
      p.policyVersion != "" ==>
        && P.IsActive(at.data, ws, p.policyVersion)
        && ws in later.data && p.policyVersion in later.data[ws]
        && p.policyHash == l.hash(later.data[ws][p.policyVersion].content)
  {
    var at, ws := M.Run(l, ops[..read]), req.workspaceId;
    PreparedProvenance(l, semantics, M.Run(l, ops[..evaluated]), at, issuer, req);
    assert ops[..read][..evaluated] == ops[..evaluated];
    if ws in M.Run(l, ops[..evaluated]).engines { EngineAfter(l, ops[..read], evaluated, ws); }
    M.ProvenanceNamesStoredContent(l, ops[..read], ws);
    M.CacheAgreesInEveryRun(l, ops, read);
    hide M.Run, V.Prepared, LastBrought;
  }

  /** The recorded hash is that of the policy that decided exactly when the last successful activation
      or rollback of the workspace between evaluating and reading the provenance, if there is one,
      brought in content with that same hash. */
  lemma RecordedPolicyDecidedExactly(
      l: M.Language, semantics: Semantics, ops: seq<M.Op>, evaluated: nat, issuer: Option<V.Issuer>, req: D.Request)
    requires l.Valid() && evaluated <= |ops| && D.ReachesPolicy(req)
    requires req.workspaceId in M.Run(l, ops[..evaluated]).engines
    requires forall i :: evaluated <= i < |ops| ==> !ops[i].Restart?
    ensures var m, ws := M.Run(l, ops[..evaluated]), req.workspaceId;
      var brought := LastBrought(l, ops, evaluated, ws);
      PreparedAt(l, semantics, m, M.Run(l, ops), issuer, req).policyHash == l.hash(m.engines[ws].source) <==>
      (brought.Some? ==> l.hash(brought.value) == l.hash(m.engines[ws].source))
  {
    EngineAfter(l, ops, evaluated, req.workspaceId);
    PreparedProvenance(l, semantics, M.Run(l, ops[..evaluated]), M.Run(l, ops), issuer, req);
    hide M.Run, V.Prepared, LastBrought, D.ReachesPolicy;
  }

  /** An operation that is no activation, rollback or restart for `ws`. */
  predicate Quiet(op: M.Op, ws: string) {
    match op
    case DoActivate(w, _, _, _) => w != ws
    case DoRollback(w, _, _, _) => w != ws
    case Restart => false
    case _ => true
  }

  lemma {:induction false} QuietBringsNothing(l: M.Language, ops: seq<M.Op>, from: nat, ws: string)
    requires from <= |ops| && forall i :: from <= i < |ops| ==> Quiet(ops[i], ws)
    ensures LastBrought(l, ops, from, ws).None?
  {
    if from < |ops| {
      QuietBringsNothing(l, ops[..|ops| - 1], from, ws);
      assert Quiet(ops[|ops| - 1], ws);
      hide M.Run, M.Switch;
    }
  }

  /** In particular, when nothing switches the workspace in between, the policy on record decided. */
  lemma RecordedPolicyDecided(
      l: M.Language, semantics: Semantics, ops: seq<M.Op>, evaluated: nat, issuer: Option<V.Issuer>, req: D.Request)
    requires l.Valid() && evaluated <= |ops| && D.ReachesPolicy(req)
    requires req.workspaceId in M.Run(l, ops[..evaluated]).engines
    requires forall i :: evaluated <= i < |ops| ==> Quiet(ops[i], req.workspaceId)
    ensures PreparedAt(l, semantics, M.Run(l, ops[..evaluated]), M.Run(l, ops), issuer, req).policyHash
         == l.hash(M.Run(l, ops[..evaluated]).engines[req.workspaceId].source)
  {
    QuietBringsNothing(l, ops, evaluated, req.workspaceId);
    assert forall i :: evaluated <= i < |ops| ==> Quiet(ops[i], req.workspaceId) && !ops[i].Restart?;
    RecordedPolicyDecidedExactly(l, semantics, ops, evaluated, issuer, req);
    hide M.Run, V.Prepared, LastBrought, D.ReachesPolicy;
  }
}
