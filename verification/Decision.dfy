/** The decision core: structural checks in a fixed order, then the policy, which is an arbitrary
    function of its input. */
module Decision {
  import opened Prelude
  import opened Strings

  datatype Verdict = Allow | Deny

  datatype Reason =
    | PolicyAllow | PolicyDeny | NoMatchingPolicy | InvalidIdentity | UnknownTool | MalformedRequest
    | EvaluationError | NoPolicyLoaded | CredentialIssuanceFailure

  function VerdictName(v: Verdict): string { if v == Allow then "ALLOW" else "DENY" }

  function ReasonName(r: Reason): string
  {
    match r
    case PolicyAllow => "policy_allow"
    case PolicyDeny => "policy_deny"
    case NoMatchingPolicy => "no_matching_policy"
    case InvalidIdentity => "invalid_identity"
    case UnknownTool => "unknown_tool"
    case MalformedRequest => "malformed_request"
    case EvaluationError => "evaluation_error"
    case NoPolicyLoaded => "no_policy_loaded"
    case CredentialIssuanceFailure => "credential_issuance_failure"
  }

  datatype Identity = Identity(agentId: string, onBehalfOf: string, roles: seq<string>)

  datatype AttributeValue = Invalid | Str(str: string) | Num(num: int) | Bool(b: bool)

  datatype Request = Request(
    executionId: string, workspaceId: string, identity: Identity, backendId: string, toolName: string,
    known: bool, risk: string, arguments: map<string, AttributeValue>)

  datatype Result = Result(verdict: Verdict, reason: Reason, policyVersion: string, executionId: string)

  datatype PolicyAttr = PolicyStr(str: string) | PolicyNum(num: int) | PolicyBool(b: bool)

  datatype EvalInput = EvalInput(
    principalId: string, roles: seq<string>, onBehalfOf: string, resourceId: string, resourceRisk: string,
    context: map<string, PolicyAttr>)

  datatype EvalOutput = EvalOutput(allowed: bool, matched: bool, hadError: bool)

  datatype Policy = Policy(evaluate: EvalInput -> EvalOutput, version: string)

  function ValidateShape(req: Request): Option<Reason>
  {
    if req.executionId == "" || req.workspaceId == "" || req.backendId == "" || req.toolName == "" then Some(MalformedRequest)
    else None
  }

  function ValidateIdentity(id: Identity): Option<Reason>
  {
    if id.agentId == "" || id.roles == [] || (exists r :: r in id.roles && Blank(r))
       || (id.onBehalfOf != "" && id.onBehalfOf == id.agentId) then Some(InvalidIdentity)
    else None
  }

  function ToPolicyAttr(a: AttributeValue): PolicyAttr
    requires !a.Invalid?
  {
    match a
    case Str(s) => PolicyStr(s)
    case Num(n) => PolicyNum(n)
    case Bool(b) => PolicyBool(b)
  }

  predicate AllValid(args: map<string, AttributeValue>) { forall k :: k in args ==> !args[k].Invalid? }

  function EvalInputOf(req: Request): EvalInput
    requires AllValid(req.arguments)
  {
    EvalInput(req.identity.agentId, req.identity.roles, req.identity.onBehalfOf,
              req.backendId + "/" + req.toolName, req.risk,
              map k | k in req.arguments :: ToPolicyAttr(req.arguments[k]))
  }

  /** Translates the arguments in no particular order; neither success nor result depends on it. */
  method BuildEvalInput(req: Request) returns (r: Option<EvalInput>)
    ensures r == if AllValid(req.arguments) then Some(EvalInputOf(req)) else None
  {
    var args: map<string, PolicyAttr> := map[];
    var todo := req.arguments.Keys;
    while todo != {}
      invariant todo <= req.arguments.Keys && args.Keys == req.arguments.Keys - todo
      invariant forall k :: k in args ==> !req.arguments[k].Invalid? && args[k] == ToPolicyAttr(req.arguments[k])
    {
      var k :| k in todo;
      if req.arguments[k].Invalid? { return None; }
      args := args[k := ToPolicyAttr(req.arguments[k])];
      todo := todo - {k};
    }
    assert args == map k | k in req.arguments :: ToPolicyAttr(req.arguments[k]);
    r := Some(EvalInput(req.identity.agentId, req.identity.roles, req.identity.onBehalfOf,
                        req.backendId + "/" + req.toolName, req.risk, args));
  }

  function Denied(req: Request, reason: Reason, version: string): Result
  {
    Result(Deny, reason, version, req.executionId)
  }

  function Evaluate(p: Option<Policy>, req: Request): Result
  {
    if ValidateShape(req).Some? then Denied(req, ValidateShape(req).value, "")
    else if ValidateIdentity(req.identity).Some? then Denied(req, ValidateIdentity(req.identity).value, "")
    else if !req.known then Denied(req, UnknownTool, "")
    else if Blank(req.risk) then Denied(req, MalformedRequest, "")
    else if p.None? then Denied(req, NoPolicyLoaded, "")
    else if !AllValid(req.arguments) then Denied(req, MalformedRequest, "")
    else
      var out, version := p.value.evaluate(EvalInputOf(req)), p.value.version;
      if out.hadError then Denied(req, EvaluationError, version)
      else if out.allowed then Result(Allow, PolicyAllow, version, req.executionId)
      else if out.matched then Denied(req, PolicyDeny, version)
      else Denied(req, NoMatchingPolicy, version)
  }

  /** Nothing but the structural checks stands between this request and the policy. */
  ghost predicate ReachesPolicy(req: Request) {
    && ValidateShape(req).None? && ValidateIdentity(req.identity).None?
    && req.known && !Blank(req.risk) && AllValid(req.arguments)
  }

  /** What a policy is asked about a request: the agent as principal, with its roles and whom it acts for,
      the tool as `backend/name` with its risk, and every argument under its name as it is. */
  lemma PolicySees(req: Request)
    requires AllValid(req.arguments)
    ensures var input := EvalInputOf(req);
      && input.principalId == req.identity.agentId && input.roles == req.identity.roles
      && input.onBehalfOf == req.identity.onBehalfOf
      && input.resourceId == req.backendId + "/" + req.toolName && input.resourceRisk == req.risk
      && (forall k :: k in input.context <==> k in req.arguments)
      && (forall k :: k in req.arguments ==>
            match req.arguments[k]
            case Str(s) => input.context[k] == PolicyStr(s)
            case Num(n) => input.context[k] == PolicyNum(n)
            case Bool(b) => input.context[k] == PolicyBool(b)
            case Invalid => false)
  {
  }

  /** Why a request is denied, exactly: the first structural check it fails, then the lack of a policy,
      then what the policy says. */
  lemma DeniedExactly(p: Option<Policy>, req: Request)
    requires Evaluate(p, req).verdict == Deny
    ensures var id := req.identity;
      Evaluate(p, req).reason ==
        if req.executionId == "" || req.workspaceId == "" || req.backendId == "" || req.toolName == "" then MalformedRequest
        else if id.agentId == "" || id.roles == [] || (exists r :: r in id.roles && Blank(r))
                || (id.onBehalfOf != "" && id.onBehalfOf == id.agentId) then InvalidIdentity
        else if !req.known then UnknownTool
        else if Blank(req.risk) then MalformedRequest
        else if p.None? then NoPolicyLoaded
        else if exists k :: k in req.arguments && req.arguments[k].Invalid? then MalformedRequest
        else if p.value.evaluate(EvalInputOf(req)).hadError then EvaluationError
        else if p.value.evaluate(EvalInputOf(req)).matched then PolicyDeny
        else NoMatchingPolicy
  {
    hide EvalInputOf, Blank;
  }

  /** A request is allowed exactly when it passes every structural check and a loaded policy allows
      it without an error; the version is the policy's exactly when the policy was consulted. */
  lemma AllowedExactly(p: Option<Policy>, req: Request)
    ensures Evaluate(p, req).verdict == Allow <==>
      ReachesPolicy(req) && p.Some? && p.value.evaluate(EvalInputOf(req)).allowed && !p.value.evaluate(EvalInputOf(req)).hadError
    ensures Evaluate(p, req).policyVersion == if ReachesPolicy(req) && p.Some? then p.value.version else ""
    ensures Evaluate(p, req).executionId == req.executionId
  {
  }
}
