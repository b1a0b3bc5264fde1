/** The gateway's authorization check: adapt, decide through the audited service, answer. A call that
    cannot be adapted is denied, after its denial has been recorded. */
module CheckServer {
  import opened Prelude
  import opened Strings
  import A = Adapter
  import D = Decision
  import I = Identity
  import V = AuditService

  // ---- Answers ----

  datatype Reply =
    | Okay(res: D.Result, cred: Option<V.Credential>)
    | Refused(reason: D.Reason, executionId: string)

  /** The answer to a call whose decision arrived in time. */
  function Answer(requireCredential: bool, out: V.Outcome): Reply
  {
    if out.res.verdict == D.Deny then Refused(out.res.reason, out.res.executionId)
    else if out.cred.Some? && out.cred.value.headerName == "" then Refused(D.CredentialIssuanceFailure, out.res.executionId)
    else if out.cred.None? && requireCredential then Refused(D.CredentialIssuanceFailure, out.res.executionId)
    else Okay(out.res, out.cred)
  }

  /** The credential gate lets an ALLOW through. */
  predicate GateOpen(requireCredential: bool, cred: Option<V.Credential>) {
    (cred.Some? ==> cred.value.headerName != "") && (requireCredential ==> cred.Some?)
  }

  /** A header to set on the request that goes on; `overwrites` replaces any header of that name. */
  datatype Header = Header(key: string, value: string, overwrites: bool)

  /** The response to the gateway, without its free text. */
  datatype Response =
    | OkResponse(headers: seq<Header>, headersToRemove: seq<string>)
    | DeniedResponse(headers: seq<Header>)

  const DECISION_HEADER := "x-agentgate-decision"
  const REASON_HEADER := "x-agentgate-reason"
  const EXECUTION_HEADER := "x-agentgate-execution-id"
  const VERSION_HEADER := "x-agentgate-policy-version"

  function Plain(key: string, value: string): Header { Header(key, value, false) }

  function OkHeaders(res: D.Result, cred: Option<V.Credential>): seq<Header>
  {
    [Plain(DECISION_HEADER, "allow"), Plain(REASON_HEADER, D.ReasonName(res.reason)), Plain(EXECUTION_HEADER, res.executionId)]
    + (if res.policyVersion != "" then [Plain(VERSION_HEADER, res.policyVersion)] else [])
    + (if cred.Some? then [Header(cred.value.headerName, cred.value.headerValue, true)] else [])
  }

  function ResponseOf(reply: Reply): Response
  {
    match reply
    case Okay(res, cred) => OkResponse(OkHeaders(res, cred), if cred.Some? then [] else ["authorization"])
    case Refused(reason, executionId) =>
      DeniedResponse([Plain(DECISION_HEADER, "deny"), Plain(REASON_HEADER, D.ReasonName(reason))]
                     + (if executionId != "" then [Plain(EXECUTION_HEADER, executionId)] else []))
  }

  method BuildOkResponse(res: D.Result, cred: Option<V.Credential>) returns (resp: Response)
    ensures resp == ResponseOf(Okay(res, cred))
  {
    var headers := [Plain(DECISION_HEADER, "allow"), Plain(REASON_HEADER, D.ReasonName(res.reason)),
                    Plain(EXECUTION_HEADER, res.executionId)];
    if res.policyVersion != "" { headers := headers + [Plain(VERSION_HEADER, res.policyVersion)]; }
    var toRemove := [];
    if cred.Some? {
      headers := headers + [Header(cred.value.headerName, cred.value.headerValue, true)];
    } else {
      toRemove := ["authorization"];
    }
    resp := OkResponse(headers, toRemove);
  }

  method BuildDeniedResponse(reason: D.Reason, executionId: string) returns (resp: Response)
    ensures resp == ResponseOf(Refused(reason, executionId))
  {
    var headers := [Plain(DECISION_HEADER, "deny"), Plain(REASON_HEADER, D.ReasonName(reason))];
    if executionId != "" { headers := headers + [Plain(EXECUTION_HEADER, executionId)]; }
    resp := DeniedResponse(headers);
  }

  /** The first header whose name matches without regard to case. */
  function OptionHeader(fold: string -> string, headers: seq<Header>, key: string): string
  {
    if headers == [] then ""
    else if fold(headers[0].key) == fold(key) then headers[0].value
    else OptionHeader(fold, headers[1..], key)
  }

  /** The verdict and reason a response is counted under. */
  function ExtractDecision(fold: string -> string, resp: Response): (string, string)
  {
    var reason := OptionHeader(fold, resp.headers, REASON_HEADER);
    match resp
    case OkResponse(_, _) => ("ALLOW", if reason == "" then D.ReasonName(D.PolicyAllow) else reason)
    case DeniedResponse(_) => ("DENY", if reason == "" then D.ReasonName(D.EvaluationError) else reason)
  }

  /** What is counted is what was answered, whatever header the credential uses. */
  lemma CountedAsAnswered(fold: string -> string, reply: Reply)
    requires fold(DECISION_HEADER) != fold(REASON_HEADER)
    ensures ExtractDecision(fold, ResponseOf(reply)) ==
      match reply
      case Okay(res, _) => ("ALLOW", D.ReasonName(res.reason))
      case Refused(reason, _) => ("DENY", D.ReasonName(reason))
  {
    var headers := ResponseOf(reply).headers;
    assert headers[1..][0].key == REASON_HEADER;
    assert OptionHeader(fold, headers, REASON_HEADER) == OptionHeader(fold, headers[1..], REASON_HEADER);
  }

  /** The headers that overwrite one of the client's. */
  function Overwriting(headers: seq<Header>): seq<Header>
  {
    if headers == [] then [] else (if headers[0].overwrites then [headers[0]] else []) + Overwriting(headers[1..])
  }

  /** The client's own header `key` goes on to the backend: it is neither removed nor overwritten. */
  ghost predicate ClientPasses(fold: string -> string, resp: Response, key: string) {
    && resp.OkResponse?
    && (forall i :: 0 <= i < |resp.headersToRemove| ==> fold(resp.headersToRemove[i]) != fold(key))
    && (forall i :: 0 <= i < |resp.headers| ==> !resp.headers[i].overwrites || fold(resp.headers[i].key) != fold(key))
  }

  /** An OK response sets a minted credential and nothing else over what the client sent. The client's
      authorization goes on exactly when a credential is set under another name; without a credential it
      is removed, and under its own name it is replaced. */
  lemma CredentialReplacesClients(fold: string -> string, res: D.Result, cred: Option<V.Credential>)
    ensures var resp := ResponseOf(Okay(res, cred));
      && Overwriting(resp.headers) == (if cred.Some? then [Header(cred.value.headerName, cred.value.headerValue, true)] else [])
      && (ClientPasses(fold, resp, "authorization") <==> cred.Some? && fold(cred.value.headerName) != fold("authorization"))
  {
    var resp := ResponseOf(Okay(res, cred));
    var fixed := [Plain(DECISION_HEADER, "allow"), Plain(REASON_HEADER, D.ReasonName(res.reason)), Plain(EXECUTION_HEADER, res.executionId)]
      + (if res.policyVersion != "" then [Plain(VERSION_HEADER, res.policyVersion)] else []);
    var minted := if cred.Some? then [Header(cred.value.headerName, cred.value.headerValue, true)] else [];
    assert resp.headers == fixed + minted;
    PlainBefore(fixed, minted);
    if cred.Some? {
      assert resp.headers[|fixed|] == minted[0];
      OverwritesAlone(minted[0]);
    } else {
      assert Overwriting(minted) == [] && resp.headersToRemove[0] == "authorization";
    }
  }

  lemma OverwritesAlone(h: Header)
    requires h.overwrites
    ensures Overwriting([h]) == [h]
  {
    assert [h][1..] == [];
    assert Overwriting([h]) == [h] + Overwriting([]);
  }

  lemma {:induction false} PlainBefore(plain: seq<Header>, rest: seq<Header>)
    requires forall i :: 0 <= i < |plain| ==> !plain[i].overwrites
    ensures Overwriting(plain + rest) == Overwriting(rest)
  {
    if plain == [] {
      assert plain + rest == rest;
    } else {
      assert (plain + rest)[1..] == plain[1..] + rest;
      PlainBefore(plain[1..], rest);
    }
  }

  /** What a response tells the gateway: the verdict, the reason, the execution, and for an OK the policy
      version. */
  lemma AnswerHeaders(fold: string -> string, reply: Reply)
    requires fold(DECISION_HEADER) != fold(REASON_HEADER) && fold(DECISION_HEADER) != fold(EXECUTION_HEADER)
    requires fold(REASON_HEADER) != fold(EXECUTION_HEADER) && fold(VERSION_HEADER) != fold(DECISION_HEADER)
    requires fold(VERSION_HEADER) != fold(REASON_HEADER) && fold(VERSION_HEADER) != fold(EXECUTION_HEADER)
    ensures var headers := ResponseOf(reply).headers;
      match reply
      case Okay(res, _) =>
        && ResponseOf(reply).OkResponse?
        && OptionHeader(fold, headers, "x-agentgate-decision") == "allow"
        && OptionHeader(fold, headers, "x-agentgate-reason") == D.ReasonName(res.reason)
        && OptionHeader(fold, headers, "x-agentgate-execution-id") == res.executionId
        && (res.policyVersion != "" ==> OptionHeader(fold, headers, "x-agentgate-policy-version") == res.policyVersion)
      case Refused(reason, executionId) =>
        && ResponseOf(reply).DeniedResponse?
        && OptionHeader(fold, headers, "x-agentgate-decision") == "deny"
        && OptionHeader(fold, headers, "x-agentgate-reason") == D.ReasonName(reason)
        && OptionHeader(fold, headers, "x-agentgate-execution-id") == executionId
  {
    var headers := ResponseOf(reply).headers;
    HeadersOf(reply);
    hide D.ReasonName, ResponseOf, OptionHeader;
    HeaderAt(fold, headers, 0);
    HeaderAt(fold, headers, 1);
    if |headers| > 2 {
      HeaderAt(fold, headers, 2);
    } else {
      assert headers == [headers[0], headers[1]];
      NoneOfTwo(fold, headers[0], headers[1], EXECUTION_HEADER);
    }
    if reply.Okay? && reply.res.policyVersion != "" { HeaderAt(fold, headers, 3); }
  }

  /** The leading headers of a response. */
  lemma HeadersOf(reply: Reply)
    ensures var headers := ResponseOf(reply).headers;
      && 2 <= |headers| && headers[0].key == DECISION_HEADER && headers[1].key == REASON_HEADER
      && match reply
         case Okay(res, _) =>
           && ResponseOf(reply).OkResponse? && 3 <= |headers|
           && headers[0].value == "allow" && headers[1].value == D.ReasonName(res.reason)
           && headers[2] == Plain(EXECUTION_HEADER, res.executionId)
           && (res.policyVersion != "" ==> 4 <= |headers| && headers[3] == Plain(VERSION_HEADER, res.policyVersion))
         case Refused(reason, executionId) =>
           && ResponseOf(reply).DeniedResponse?
           && headers[0].value == "deny" && headers[1].value == D.ReasonName(reason)
           && (if executionId == "" then |headers| == 2 else |headers| == 3 && headers[2] == Plain(EXECUTION_HEADER, executionId))
  {
    hide D.ReasonName;
  }

  lemma NoneOfTwo(fold: string -> string, a: Header, b: Header, key: string)
    requires fold(a.key) != fold(key) && fold(b.key) != fold(key)
    ensures OptionHeader(fold, [a, b], key) == ""
  {
    assert OptionHeader(fold, [b], key) == "" by { assert [b][1..] == []; }
    assert [a, b][1..] == [b];
  }

  lemma {:induction false} HeaderAt(fold: string -> string, headers: seq<Header>, i: nat)
    requires i < |headers| && forall j :: 0 <= j < i ==> fold(headers[j].key) != fold(headers[i].key)
    ensures OptionHeader(fold, headers, headers[i].key) == headers[i].value
  {
    if i > 0 { HeaderAt(fold, headers[1..], i - 1); }
  }

  /** Which refusal a denied or gated call gets, exactly. */
  lemma RefusalExactly(requireCredential: bool, out: V.Outcome)
    ensures Answer(requireCredential, out) ==
      if out.res.verdict == D.Deny then Refused(out.res.reason, out.res.executionId)
      else if GateOpen(requireCredential, out.cred) then Okay(out.res, out.cred)
      else Refused(D.CredentialIssuanceFailure, out.res.executionId)
  {
  }

  // ---- The recorded denial of a call that cannot be adapted ----

  const UNAUTHENTICATED := "unauthenticated"

  function OrElse(s: string, fallback: string): string { if s != "" then s else fallback }

  function FallbackRequest(cfg: A.Config, e: A.Error, executionId: string): D.Request
  {
    var identified := e.identity.Some? && e.identity.value.agentId != "";
    D.Request(
      executionId, OrElse(OrElse(e.workspaceId, cfg.defaultWorkspaceId), "default"),
      D.Identity(if identified then e.identity.value.agentId else UNAUTHENTICATED,
                 if e.identity.Some? then e.identity.value.onBehalfOf else "",
                 if identified then e.identity.value.roles else [UNAUTHENTICATED]),
      OrElse(OrElse(e.backendId, cfg.defaultBackendId), "default"), OrElse(e.toolName, "unknown"), false, "", map[])
  }

  /** Whatever went wrong in adaptation, the request that stands for it is denied by every policy
      and belongs to a named workspace. The recorded reason is always unknown_tool, even when the
      response reports another. */
  lemma FallbackDenied(cfg: A.Config, number: real -> string, generated: string, req: A.CheckRequest, executionId: string, p: Option<D.Policy>)
    requires executionId != "" && A.Adapt(cfg, number, generated, req).Err?
    ensures var f := FallbackRequest(cfg, A.Adapt(cfg, number, generated, req).error, executionId);
      f.workspaceId != "" && D.Evaluate(p, f) == D.Result(D.Deny, D.UnknownTool, "", executionId)
  {
    var e := A.Adapt(cfg, number, generated, req).error;
    assert !Blank(UNAUTHENTICATED) by { assert Trimmed(UNAUTHENTICATED); }
    ErrorIdentityUsable(cfg, number, generated, req);
    hide A.Adapt, Blank;
  }

  /** Under which names a denial in adaptation is recorded: those of the error, and where it has none, the
      configured workspace and backend, the tool "unknown" and an unauthenticated caller. */
  lemma FallbackSays(cfg: A.Config, e: A.Error, executionId: string)
    requires cfg.Valid() && (e.identity.Some? ==> e.identity.value.agentId != "")
    ensures var f := FallbackRequest(cfg, e, executionId);
      && f.executionId == executionId && !f.known && f.risk == "" && f.arguments == map[]
      && f.workspaceId == (if e.workspaceId == "" then cfg.defaultWorkspaceId else e.workspaceId)
      && f.backendId == (if e.backendId == "" then cfg.defaultBackendId else e.backendId)
      && f.toolName == (if e.toolName == "" then "unknown" else e.toolName)
      && f.identity == (if e.identity.Some? then e.identity.value
                        else D.Identity("unauthenticated", "", ["unauthenticated"]))
  {
  }

  /** An error that names an identity names one the decision core accepts. */
  lemma ErrorIdentityUsable(cfg: A.Config, number: real -> string, generated: string, req: A.CheckRequest)
    ensures var r := A.Adapt(cfg, number, generated, req);
      r.Err? && r.error.identity.Some? ==> D.ValidateIdentity(r.error.identity.value).None?
  {
    var r := A.Adapt(cfg, number, generated, req);
    if r.Err? && r.error.identity.Some? {
      ErrorIdentityMapped(cfg, number, generated, req);
      var claims := A.ExtractClaims(number, req.jwt);
      var id := I.Map(cfg.mapper.value, claims).value;
      I.MappedIdentityUsable(cfg.mapper.value, claims);
      A.RolesNotBlank(id.roles);
      hide A.Adapt, I.Map, Blank;
    }
  }

  ghost predicate IsMappedIdentity(cfg: A.Config, claims: I.Claims, id: D.Identity) {
    && cfg.mapper.Some? && I.Map(cfg.mapper.value, claims).Ok?
    && var mapped := I.Map(cfg.mapper.value, claims).value;
    && id == D.Identity(mapped.agentId, mapped.onBehalfOf, mapped.roles)
  }

  lemma ErrorIdentityMapped(cfg: A.Config, number: real -> string, generated: string, req: A.CheckRequest)
    ensures var r := A.Adapt(cfg, number, generated, req);
      r.Err? && r.error.identity.Some? ==> IsMappedIdentity(cfg, A.ExtractClaims(number, req.jwt), r.error.identity.value)
  {
    hide I.Map, A.ExtractClaims, A.ResolveWorkspace, A.RegistryOf, A.DeclsFor, A.BackendOf, A.FingerprintOf, A.Assemble, TrimSpace;
  }

  // ---- A call that finishes in time ----

  /** The request whose decision is recorded for a call, and the reason it will be denied with if it
      was not adapted. */
  function Admitted(cfg: A.Config, adapted: Result<D.Request, A.Error>, executionId: string): (D.Request, Option<D.Reason>)
  {
    match adapted
    case Ok(req) => (req, None)
    case Err(e) => (FallbackRequest(cfg, e, executionId), Some(e.reason))
  }

  function ReplyTo(requireCredential: bool, req: D.Request, denial: Option<D.Reason>, out: V.Outcome): Reply
  {
    if denial.Some? then Refused(denial.value, req.executionId) else Answer(requireCredential, out)
  }

  /** The execution under which a denial in adaptation is recorded and answered: the caller's, or one
      made up in its absence. */
  function DenialExecution(req: A.CheckRequest, another: string): string { OrElse(req.headers.executionId, another) }

  predicate IsIssuanceFailure(reply: Reply) { reply.Refused? && reply.reason == D.CredentialIssuanceFailure }

  class Server {
    const adapter: A.Translator?
    const service: V.AuditedDecisionService?
    const requireCredential: bool
    var issuanceFailures: nat

    constructor (adapter: A.Translator?, service: V.AuditedDecisionService?, requireCredential: bool)
      ensures this.adapter == adapter && this.service == service && this.requireCredential == requireCredential
      ensures issuanceFailures == 0
    {
      this.adapter, this.service, this.requireCredential, issuanceFailures := adapter, service, requireCredential, 0;
    }

    ghost function Frame(): set<object>
    {
      if service == null then {} else {service, service.store}
    }

    /** A call that finishes in time. `generated` and `another` are the identifiers made up for a call
        that names no execution, in adaptation and in its denial. */
    method Check(number: real -> string, generated: string, another: string, req: A.CheckRequest, at: V.Moment) returns (resp: Response)
      modifies this, Frame()
      ensures adapter == null ==> resp == ResponseOf(Refused(D.EvaluationError, ""))
      ensures adapter != null && service == null ==>
        var adapted := A.Adapt(adapter.cfg, number, generated, req);
        resp == ResponseOf(if adapted.Err? then Refused(adapted.error.reason, DenialExecution(req, another))
                           else Refused(D.EvaluationError, adapted.value.executionId))
      ensures adapter == null || service == null ==>
        issuanceFailures == old(issuanceFailures) && (service != null ==> service.store.Contents() == old(service.store.Contents()))
      ensures adapter != null && service != null ==>
        var (admitted, denial) := Admitted(adapter.cfg, A.Adapt(adapter.cfg, number, generated, req), DenialExecution(req, another));
        var p := V.Prepared(old(service.evaluator), old(service.issuer), admitted);
        var (next, out, _) := V.Commit(service.setup, old(service.store.Contents()), p, at);
        var reply := ReplyTo(requireCredential, admitted, denial, out);
        && service.store.Contents() == next && resp == ResponseOf(reply)
        && issuanceFailures == old(issuanceFailures) + if IsIssuanceFailure(reply) then 1 else 0
    {
      hide V.Commit, V.Prepared, ResponseOf, FallbackRequest, A.Adapt;
      if adapter == null {
        resp := BuildDenied(D.EvaluationError, "");
        return;
      }
      var adapted := adapter.AdaptRequest(number, generated, req);
      if adapted.Err? {
        AdaptationReasons(adapter.cfg, number, generated, req);
        var id := req.headers.executionId;
        if id == "" { id := another; }
        if service != null {
          var fallback := BuildFallback(adapter.cfg, adapted.error, id);
          FallbackKeepsExecution(adapter.cfg, adapted.error, id);
          var _ := service.EvaluateWithCredential(fallback, at);
        }
        resp := BuildDenied(adapted.error.reason, id);
        return;
      }
      if service == null {
        resp := BuildDenied(D.EvaluationError, adapted.value.executionId);
        return;
      }
      var out := service.EvaluateWithCredential(adapted.value, at);
      resp := Respond(out);
    }

    /** The denied response; an issuance failure is counted. */
    method BuildDenied(reason: D.Reason, executionId: string) returns (resp: Response)
      modifies this`issuanceFailures
      ensures resp == ResponseOf(Refused(reason, executionId))
      ensures issuanceFailures == old(issuanceFailures) + if reason == D.CredentialIssuanceFailure then 1 else 0
    {
      if reason == D.CredentialIssuanceFailure { issuanceFailures := issuanceFailures + 1; }
      resp := BuildDeniedResponse(reason, executionId);
    }

    method Respond(out: V.Outcome) returns (resp: Response)
      modifies this`issuanceFailures
      ensures resp == ResponseOf(Answer(requireCredential, out))
      ensures issuanceFailures == old(issuanceFailures) + if IsIssuanceFailure(Answer(requireCredential, out)) then 1 else 0
    {
      hide ResponseOf;
      var res, cred := out.res, out.cred;
      if res.verdict == D.Allow {
        if cred.Some? && cred.value.headerName == "" {
          resp := BuildDenied(D.CredentialIssuanceFailure, res.executionId);
          return;
        }
        if cred.None? && requireCredential {
          resp := BuildDenied(D.CredentialIssuanceFailure, res.executionId);
          return;
        }
        resp := BuildOkResponse(res, cred);
        return;
      }
      resp := BuildDenied(res.reason, res.executionId);
    }
  }

  method BuildFallback(cfg: A.Config, e: A.Error, executionId: string) returns (req: D.Request)
    ensures req == FallbackRequest(cfg, e, executionId)
  {
    var toolName := e.toolName;
    if toolName == "" { toolName := "unknown"; }
    var backendId := e.backendId;
    if backendId == "" { backendId := cfg.defaultBackendId; }
    if backendId == "" { backendId := "default"; }
    var workspaceId := e.workspaceId;
    if workspaceId == "" { workspaceId := cfg.defaultWorkspaceId; }
    if workspaceId == "" { workspaceId := "default"; }
    var agentId, roles, onBehalfOf := UNAUTHENTICATED, [UNAUTHENTICATED], "";
    if e.identity.Some? {
      onBehalfOf := e.identity.value.onBehalfOf;
      if e.identity.value.agentId != "" { agentId, roles := e.identity.value.agentId, e.identity.value.roles; }
    }
    req := D.Request(executionId, workspaceId, D.Identity(agentId, onBehalfOf, roles), backendId, toolName, false, "", map[]);
  }

  lemma FallbackKeepsExecution(cfg: A.Config, e: A.Error, executionId: string)
    ensures FallbackRequest(cfg, e, executionId).executionId == executionId
  {
  }

  /** Adaptation fails for one of three reasons only. */
  lemma AdaptationReasons(cfg: A.Config, number: real -> string, generated: string, req: A.CheckRequest)
    ensures var r := A.Adapt(cfg, number, generated, req);
      r.Err? ==> r.error.reason in {D.UnknownTool, D.MalformedRequest, D.InvalidIdentity}
  {
    hide I.Map, A.ExtractClaims, A.ResolveWorkspace, A.RegistryOf, A.DeclsFor, A.BackendOf, A.FingerprintOf, A.Assemble, TrimSpace;
  }
}
