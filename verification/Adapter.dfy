/** Translation of a gateway authorization check into a decision request: claims, workspace,
    governance, declared arguments, assembly. Bodies are taken after JSON decoding. */
module Adapter {
  import opened Prelude
  import opened Strings
  import A = ArgDecl
  import D = Decision
  import I = Identity
  import R = ToolRegistry
  import T = ToolCatalog

  // ---- Assembly ----

  function ToAttributeValue(r: A.ResolvedArg): Option<D.AttributeValue>
  {
    if r.typ == A.TYPE_STRING then Some(D.Str(r.strVal))
    else if r.typ == A.TYPE_INT then Some(D.Num(r.intVal))
    else if r.typ == A.TYPE_BOOL then Some(D.Bool(r.boolVal))
    else None
  }

  predicate Translatable(args: map<string, A.ResolvedArg>) { forall k :: k in args ==> ToAttributeValue(args[k]).Some? }

  function Translated(args: map<string, A.ResolvedArg>): map<string, D.AttributeValue>
    requires Translatable(args)
  {
    map k | k in args :: ToAttributeValue(args[k]).value
  }

  /** Translates resolved arguments in no particular order. */
  method TranslateArgs(args: map<string, A.ResolvedArg>) returns (r: Option<map<string, D.AttributeValue>>)
    ensures r == if Translatable(args) then Some(Translated(args)) else None
  {
    var out: map<string, D.AttributeValue> := map[];
    var todo := args.Keys;
    while todo != {}
      invariant todo <= args.Keys && out.Keys == args.Keys - todo
      invariant forall k :: k in out ==> ToAttributeValue(args[k]) == Some(out[k])
    {
      var k :| k in todo;
      var attr := ToAttributeValue(args[k]);
      if attr.None? { return None; }
      out := out[k := attr.value];
      todo := todo - {k};
    }
    assert out == Translated(args);
    r := Some(out);
  }

  function Assemble(executionId: string, workspaceId: string, id: I.MappedIdentity, gov: R.GovernanceRecord,
                    args: map<string, A.ResolvedArg>): Option<D.Request>
  {
    if executionId == "" || workspaceId == "" || id.agentId == "" || id.roles == [] then None
    else if !gov.Authoritative() || !Translatable(args) then None
    else Some(D.Request(executionId, workspaceId, D.Identity(id.agentId, id.onBehalfOf, id.roles),
                        gov.toolId.backendId, gov.toolId.toolName, true, gov.risk, Translated(args)))
  }

  // ---- The check request ----

  datatype Params = NoParams | BadParams | ToolCall(name: string, arguments: A.RawArgs)

  datatype Body = NoBody | BadJson | Rpc(rpcMethod: string, params: Params)

  /** The header values the adapter reads, empty when absent. */
  datatype Headers = Headers(executionId: string, requestId: string, backendId: string,
                             toolFingerprint: string, agentgateFingerprint: string)

  datatype CheckRequest = CheckRequest(
    headers: Headers, body: Body, jwt: Option<map<string, I.ClaimValue>>, extensions: map<string, string>)

  datatype Config = Config(
    mapper: Option<I.MapperConfig>, allowStaticWorkspace: bool, defaultWorkspaceId: string, defaultBackendId: string,
    registry: Option<R.Registry>, argDecls: map<string, A.DeclarationSet>, catalog: Option<Option<T.Snapshot>>)
  {
    /** What construction makes sure of. */
    ghost predicate Valid() { defaultBackendId != "" && defaultWorkspaceId != "" }
  }

  datatype Error = Error(reason: D.Reason, toolName: string, backendId: string, workspaceId: string, identity: Option<D.Identity>)

  function Plain(reason: D.Reason): Error { Error(reason, "", "", "", None) }

  function ExtractClaims(number: real -> string, jwt: Option<map<string, I.ClaimValue>>): I.Claims
  {
    if jwt.None? then map[]
    else
      var fields :=
        if "jwt_payload" in jwt.value && jwt.value["jwt_payload"].Struct? then jwt.value["jwt_payload"].fields else jwt.value;
      map k | k in fields :: I.ClaimToString(number, fields[k])
  }

  function NonblankAt(m: map<string, string>, key: string): Option<string>
  {
    if key in m && !Blank(m[key]) then Some(TrimSpace(m[key])) else None
  }

  /** Verified claims first, then the route's own context, then the static workspace if allowed. */
  function ResolveWorkspace(cfg: Config, claims: I.Claims, extensions: map<string, string>): Option<string>
  {
    if NonblankAt(claims, "workspace_id").Some? then NonblankAt(claims, "workspace_id")
    else if NonblankAt(claims, "workspace").Some? then NonblankAt(claims, "workspace")
    else if NonblankAt(extensions, "workspace_id").Some? then NonblankAt(extensions, "workspace_id")
    else if cfg.allowStaticWorkspace && !Blank(cfg.defaultWorkspaceId) then Some(TrimSpace(cfg.defaultWorkspaceId))
    else None
  }

  function FirstNonempty(a: string, b: string): string { if a != "" then a else b }

  function At(m: map<string, string>, key: string): string { if key in m then m[key] else "" }

  function BackendOf(cfg: Config, req: CheckRequest): string
  {
    FirstNonempty(FirstNonempty(req.headers.backendId, At(req.extensions, "backend_id")), cfg.defaultBackendId)
  }

  function FingerprintOf(req: CheckRequest): string
  {
    FirstNonempty(FirstNonempty(req.headers.toolFingerprint, req.headers.agentgateFingerprint),
                  At(req.extensions, "tool_fingerprint"))
  }

  /** The declarations that apply to the tool: under its full key, or under its bare name when the
      declarations are not the catalog's. */
  function DeclsFor(cfg: Config, id: R.ToolId): A.DeclarationSet
  {
    if cfg.catalog.Some? then
      if cfg.catalog.value.Some? && id.Key() in cfg.catalog.value.value.argDecls
      then cfg.catalog.value.value.argDecls[id.Key()] else map[]
    else if id.Key() in cfg.argDecls then cfg.argDecls[id.Key()]
    else if id.toolName in cfg.argDecls then cfg.argDecls[id.toolName]
    else map[]
  }

  function RegistryOf(cfg: Config): Option<R.Registry>
  {
    if cfg.catalog.Some? then (if cfg.catalog.value.Some? then Some(cfg.catalog.value.value.registry) else None)
    else cfg.registry
  }

  /** `generated` is the identifier made up when the request carries none. */
  function Adapt(cfg: Config, number: real -> string, generated: string, req: CheckRequest): Result<D.Request, Error>
  {
    if cfg.catalog == Some(None) then Err(Plain(D.UnknownTool))
    else if !req.body.Rpc? || req.body.rpcMethod != "tools/call" || !req.body.params.ToolCall? then Err(Plain(D.MalformedRequest))
    else
      var toolName := TrimSpace(req.body.params.name);
      if toolName == "" then Err(Plain(D.MalformedRequest))
      else
        var claims := ExtractClaims(number, req.jwt);
        if cfg.mapper.None? then Err(Plain(D.InvalidIdentity))
        else
          var mapped := I.Map(cfg.mapper.value, claims);
          if mapped.Err? then Err(Plain(D.InvalidIdentity))
          else
            var workspace := ResolveWorkspace(cfg, claims, req.extensions);
            if workspace.None? then Err(Plain(D.InvalidIdentity))
            else AdaptTool(cfg, generated, req, toolName, mapped.value, workspace.value)
  }

  function AdaptTool(cfg: Config, generated: string, req: CheckRequest, toolName: string,
                     id: I.MappedIdentity, workspace: string): Result<D.Request, Error>
    requires req.body.Rpc? && req.body.params.ToolCall?
  {
    var executionId := FirstNonempty(FirstNonempty(req.headers.executionId, req.headers.requestId), generated);
    var toolId := R.ToolId(BackendOf(cfg, req), toolName);
    var registry := RegistryOf(cfg);
    if registry.None? then Err(Plain(D.UnknownTool))
    else
      var gov := R.Lookup(registry.value, toolId, FingerprintOf(req));
      if !gov.known || gov.drift == R.Detected then
        Err(Error(D.UnknownTool, toolName, toolId.backendId, workspace, Some(D.Identity(id.agentId, id.onBehalfOf, id.roles))))
      else if !gov.Authoritative() then Err(Plain(D.UnknownTool))
      else
        var ds, raw := DeclsFor(cfg, toolId), req.body.params.arguments;
        if !A.Resolvable(ds, raw) then Err(Plain(D.MalformedRequest))
        else
          var assembled := Assemble(executionId, workspace, id, gov, A.Resolved(ds, raw));
          if assembled.None? then Err(Plain(D.MalformedRequest)) else Ok(assembled.value)
  }

  // ---- Step by step ----

  /** Reads the claims in no particular order. */
  method ReadClaims(number: real -> string, jwt: Option<map<string, I.ClaimValue>>) returns (claims: I.Claims)
    ensures claims == ExtractClaims(number, jwt)
  {
    claims := map[];
    if jwt.None? { return; }
    var fields := jwt.value;
    if "jwt_payload" in fields && fields["jwt_payload"].Struct? { fields := fields["jwt_payload"].fields; }
    var todo := fields.Keys;
    while todo != {}
      invariant todo <= fields.Keys && claims.Keys == fields.Keys - todo
      invariant forall k :: k in claims ==> claims[k] == I.ClaimToString(number, fields[k])
    {
      var k :| k in todo;
      var text := I.ValueToString(number, fields[k]);
      claims := claims[k := text];
      todo := todo - {k};
    }
    assert claims == map k | k in fields :: I.ClaimToString(number, fields[k]);
  }

  method AssembleRequest(executionId: string, workspaceId: string, id: I.MappedIdentity, gov: R.GovernanceRecord,
                         args: map<string, A.ResolvedArg>) returns (r: Option<D.Request>)
    ensures r == Assemble(executionId, workspaceId, id, gov, args)
  {
    if executionId == "" { return None; }
    if workspaceId == "" { return None; }
    if id.agentId == "" { return None; }
    if |id.roles| == 0 { return None; }
    if !gov.Authoritative() { return None; }
    var translated := TranslateArgs(args);
    if translated.None? { return None; }
    r := Some(D.Request(executionId, workspaceId, D.Identity(id.agentId, id.onBehalfOf, id.roles),
                        gov.toolId.backendId, gov.toolId.toolName, true, gov.risk, translated.value));
  }

  class Translator {
    const cfg: Config

    constructor (cfg: Config)
      ensures this.cfg == cfg
    {
      this.cfg := cfg;
    }

    method AdaptRequest(number: real -> string, generated: string, req: CheckRequest) returns (r: Result<D.Request, Error>)
      ensures r == Adapt(cfg, number, generated, req)
    {
      hide I.Map, ExtractClaims, ResolveWorkspace, AdaptTool, TrimSpace;
      if cfg.catalog.Some? && cfg.catalog.value.None? { return Err(Plain(D.UnknownTool)); }
      if !req.body.Rpc? || req.body.rpcMethod != "tools/call" { return Err(Plain(D.MalformedRequest)); }
      if !req.body.params.ToolCall? { return Err(Plain(D.MalformedRequest)); }
      var toolName := TrimSpace(req.body.params.name);
      if toolName == "" { return Err(Plain(D.MalformedRequest)); }
      var claims := ReadClaims(number, req.jwt);
      if cfg.mapper.None? { return Err(Plain(D.InvalidIdentity)); }
      var mapper := new I.Mapper(cfg.mapper.value);
      var mapped := mapper.MapClaims(claims);
      if mapped.Err? { return Err(Plain(D.InvalidIdentity)); }
      var workspace := ResolveWorkspace(cfg, claims, req.extensions);
      if workspace.None? { return Err(Plain(D.InvalidIdentity)); }
      r := GovernAndResolve(generated, req, toolName, mapped.value, workspace.value);
    }

    /** The part of adaptation that needs the tool: governance, arguments, assembly. */
    method GovernAndResolve(generated: string, req: CheckRequest, toolName: string, id: I.MappedIdentity, workspace: string)
      returns (r: Result<D.Request, Error>)
      requires req.body.Rpc? && req.body.params.ToolCall?
      ensures r == AdaptTool(cfg, generated, req, toolName, id, workspace)
    {
      hide R.Lookup, A.Resolvable, A.Resolved, Assemble, DeclsFor, RegistryOf;
      var executionId := req.headers.executionId;
      if executionId == "" { executionId := req.headers.requestId; }
      if executionId == "" { executionId := generated; }
      var toolId := R.ToolId(BackendOf(cfg, req), toolName);
      var registry := RegistryOf(cfg);
      if registry.None? { return Err(Plain(D.UnknownTool)); }
      var gov := R.Lookup(registry.value, toolId, FingerprintOf(req));
      if !gov.known || gov.drift == R.Detected {
        return Err(Error(D.UnknownTool, toolName, toolId.backendId, workspace, Some(D.Identity(id.agentId, id.onBehalfOf, id.roles))));
      }
      if !gov.Authoritative() { return Err(Plain(D.UnknownTool)); }
      var resolved := A.Resolve(DeclsFor(cfg, toolId), req.body.params.arguments);
      if resolved.Err? { return Err(Plain(D.MalformedRequest)); }
      var assembled := AssembleRequest(executionId, workspace, id, gov, resolved.value);
      if assembled.None? { return Err(Plain(D.MalformedRequest)); }
      r := Ok(assembled.value);
    }
  }

  // ---- What adaptation promises ----

  lemma RolesNotBlank(roles: seq<string>)
    requires forall r :: r in roles ==> I.IsRole(r)
    ensures forall r :: r in roles ==> !Blank(r)
  {
    forall r | r in roles ensures !Blank(r) { TrimmedUnchanged(r); }
  }

  lemma ResolvedTranslatable(ds: A.DeclarationSet, raw: A.RawArgs)
    requires A.Resolvable(ds, raw)
    ensures Translatable(A.Resolved(ds, raw)) && D.AllValid(Translated(A.Resolved(ds, raw)))
  {
  }

  lemma RiskNotBlank(risk: string)
    requires R.ValidRisk(risk)
    ensures !Blank(risk)
  {
    assert Trimmed(risk);
  }

  /** Every adapted request reaches the policy: no structural check of the decision core fails on
      it, so the outcome is the policy's, and it is allowed exactly when the policy allows it
      without an error. */
  lemma AdaptedReachesPolicy(cfg: Config, number: real -> string, generated: string, req: CheckRequest, p: Option<D.Policy>)
    requires cfg.Valid() && generated != ""
    ensures Adapt(cfg, number, generated, req).Ok? ==> DecidedByPolicy(p, Adapt(cfg, number, generated, req).value)
  {
    AdaptedParts(cfg, number, generated, req);
    if Adapt(cfg, number, generated, req).Ok? {
      PartsReachPolicy(cfg, number, generated, req, Adapt(cfg, number, generated, req).value, p);
    }
    hide Adapt, Parts, DecidedByPolicy;
  }

  /** No structural check fails, and the verdict is the policy's. */
  ghost predicate DecidedByPolicy(p: Option<D.Policy>, d: D.Request) {
    && D.ReachesPolicy(d)
    && D.Evaluate(p, d).reason !in {D.MalformedRequest, D.InvalidIdentity, D.UnknownTool}
    && (D.Evaluate(p, d).verdict == D.Allow <==>
          p.Some? && p.value.evaluate(D.EvalInputOf(d)).allowed && !p.value.evaluate(D.EvalInputOf(d)).hadError)
  }

  lemma PartsReachPolicy(cfg: Config, number: real -> string, generated: string, req: CheckRequest, d: D.Request, p: Option<D.Policy>)
    ensures Parts(cfg, number, generated, req, d) ==> DecidedByPolicy(p, d)
  {
    if Parts(cfg, number, generated, req, d) {
      var claims := ExtractClaims(number, req.jwt);
      var id := I.Map(cfg.mapper.value, claims).value;
      I.MappedIdentityUsable(cfg.mapper.value, claims);
      RolesNotBlank(id.roles);
      var toolId := R.ToolId(BackendOf(cfg, req), TrimSpace(req.body.params.name));
      var gov := R.Lookup(RegistryOf(cfg).value, toolId, FingerprintOf(req));
      RiskNotBlank(gov.risk);
      ResolvedTranslatable(DeclsFor(cfg, toolId), req.body.params.arguments);
      LookedUpId(RegistryOf(cfg).value, toolId, FingerprintOf(req));
      assert D.ReachesPolicy(d) by {
        hide I.Map, R.Lookup, DeclsFor, RegistryOf, FingerprintOf, ExtractClaims, ResolveWorkspace, Translated, D.EvalInputOf,
          Blank, R.ValidRisk;
      }
      D.AllowedExactly(p, d);
      OutcomeOfPolicy(p, d);
      hide I.Map, R.Lookup, DeclsFor, RegistryOf, FingerprintOf, ExtractClaims, ResolveWorkspace, D.ReachesPolicy, D.Evaluate;
    }
  }

  lemma LookedUpId(reg: R.Registry, id: R.ToolId, live: string)
    ensures R.Lookup(reg, id, live).toolId == id
  {
  }

  lemma OutcomeOfPolicy(p: Option<D.Policy>, d: D.Request)
    requires D.ReachesPolicy(d)
    ensures D.Evaluate(p, d).reason !in {D.MalformedRequest, D.InvalidIdentity, D.UnknownTool}
  {
    hide D.EvalInputOf, Blank;
  }

  lemma ResolvedWorkspaceNonempty(cfg: Config, claims: I.Claims, extensions: map<string, string>)
    requires ResolveWorkspace(cfg, claims, extensions).Some?
    ensures ResolveWorkspace(cfg, claims, extensions).value != ""
  {
  }

  /** With a usable identity and a workspace, only governance and the declared arguments decide. */
  lemma AdaptToolExactly(cfg: Config, generated: string, req: CheckRequest, toolName: string, id: I.MappedIdentity, workspace: string)
    requires generated != "" && req.body.Rpc? && req.body.params.ToolCall?
    requires id.agentId != "" && id.roles != [] && workspace != ""
    ensures AdaptTool(cfg, generated, req, toolName, id, workspace).Ok? <==>
      && RegistryOf(cfg).Some?
      && (var toolId := R.ToolId(BackendOf(cfg, req), toolName);
          && R.Lookup(RegistryOf(cfg).value, toolId, FingerprintOf(req)).Authoritative()
          && A.Resolvable(DeclsFor(cfg, toolId), req.body.params.arguments))
  {
    var toolId := R.ToolId(BackendOf(cfg, req), toolName);
    if A.Resolvable(DeclsFor(cfg, toolId), req.body.params.arguments) {
      ResolvedTranslatable(DeclsFor(cfg, toolId), req.body.params.arguments);
    }
    hide A.Resolvable, A.Resolved, R.Lookup, DeclsFor, RegistryOf, BackendOf, FingerprintOf, Translatable, Translated;
  }

  /** When a tool call is adapted, exactly: it is a tools/call with a name, its claims map to an
      identity, its workspace resolves, its tool is governed and undrifted, and its declared
      arguments resolve. */
  lemma AdaptedExactly(cfg: Config, number: real -> string, generated: string, req: CheckRequest)
    requires cfg.Valid() && generated != ""
    ensures Adapt(cfg, number, generated, req).Ok? <==>
      && req.body.Rpc? && req.body.rpcMethod == "tools/call" && req.body.params.ToolCall?
      && !Blank(req.body.params.name)
      && cfg.mapper.Some? && I.Map(cfg.mapper.value, ExtractClaims(number, req.jwt)).Ok?
      && ResolveWorkspace(cfg, ExtractClaims(number, req.jwt), req.extensions).Some?
      && RegistryOf(cfg).Some?
      && (var toolId := R.ToolId(BackendOf(cfg, req), TrimSpace(req.body.params.name));
          && R.Lookup(RegistryOf(cfg).value, toolId, FingerprintOf(req)).Authoritative()
          && A.Resolvable(DeclsFor(cfg, toolId), req.body.params.arguments))
  {
    var claims := ExtractClaims(number, req.jwt);
    assert cfg.catalog == Some(None) ==> RegistryOf(cfg).None?;
    if req.body.Rpc? && req.body.params.ToolCall? && cfg.mapper.Some? && I.Map(cfg.mapper.value, claims).Ok?
       && ResolveWorkspace(cfg, claims, req.extensions).Some? {
      I.MappedIdentityUsable(cfg.mapper.value, claims);
      ResolvedWorkspaceNonempty(cfg, claims, req.extensions);
      AdaptToolExactly(cfg, generated, req, TrimSpace(req.body.params.name), I.Map(cfg.mapper.value, claims).value,
                       ResolveWorkspace(cfg, claims, req.extensions).value);
    }
    hide A.Resolvable, I.Map, R.Lookup, ResolveWorkspace, ExtractClaims, AdaptTool, RegistryOf, DeclsFor, BackendOf, FingerprintOf;
  }

  // ---- What an adapted request says ----

  /** The verified payload has the value `v` under `name`: inside `jwt_payload` when that is a struct, and
      at the top level otherwise. */
  ghost predicate ClaimIs(jwt: Option<map<string, I.ClaimValue>>, name: string, v: I.ClaimValue) {
    jwt.Some? &&
    if "jwt_payload" in jwt.value && jwt.value["jwt_payload"].Struct?
    then name in jwt.value["jwt_payload"].fields && jwt.value["jwt_payload"].fields[name] == v
    else name in jwt.value && jwt.value[name] == v
  }

  /** The claims are those of the verified payload and no others: texts as they are, flags and numbers
      written out, lists joined with spaces, and nothing for what has no text form. */
  lemma ClaimsExactly(number: real -> string, jwt: Option<map<string, I.ClaimValue>>, name: string)
    ensures var claims := ExtractClaims(number, jwt);
      && (name in claims <==> exists v :: ClaimIs(jwt, name, v))
      && (forall v :: ClaimIs(jwt, name, v) ==>
            match v
            case Text(text) => claims[name] == text
            case Flag(b) => claims[name] == if b then "true" else "false"
            case Number(n) => claims[name] == number(n)
            case List(items) => claims[name] == Join(I.NonemptyParts(number, items), ' ')
            case Null => claims[name] == ""
            case Struct(_) => claims[name] == "")
  {
    if name in ExtractClaims(number, jwt) {
      var v := if "jwt_payload" in jwt.value && jwt.value["jwt_payload"].Struct? then jwt.value["jwt_payload"].fields[name]
               else jwt.value[name];
      assert ClaimIs(jwt, name, v);
    }
    hide Join, I.NonemptyParts;
  }

  /** `m` has `w`, trimmed and not blank, under `name`. */
  ghost predicate Names(m: map<string, string>, name: string, w: string) {
    name in m && w == TrimSpace(m[name]) && w != ""
  }

  ghost predicate NamesNone(m: map<string, string>, name: string) {
    name in m ==> TrimSpace(m[name]) == ""
  }

  /** The workspace a call belongs to: the verified claim `workspace_id` wins over the verified claim
      `workspace`, both win over the route, and the static workspace comes last and only if allowed. */
  ghost predicate BelongsTo(cfg: Config, claims: I.Claims, extensions: map<string, string>, w: string) {
    if !NamesNone(claims, "workspace_id") then Names(claims, "workspace_id", w)
    else if !NamesNone(claims, "workspace") then Names(claims, "workspace", w)
    else if !NamesNone(extensions, "workspace_id") then Names(extensions, "workspace_id", w)
    else cfg.allowStaticWorkspace && w == TrimSpace(cfg.defaultWorkspaceId) && w != ""
  }

  lemma WorkspaceExactly(cfg: Config, claims: I.Claims, extensions: map<string, string>, w: string)
    ensures ResolveWorkspace(cfg, claims, extensions) == Some(w) <==> BelongsTo(cfg, claims, extensions, w)
  {
    hide TrimSpace;
  }

  /** The backend a call names: in its header, else in its route, else the configured one. */
  ghost predicate RoutedTo(cfg: Config, req: CheckRequest, backend: string) {
    var route := if "backend_id" in req.extensions then req.extensions["backend_id"] else "";
    backend == if req.headers.backendId != "" then req.headers.backendId else if route != "" then route else cfg.defaultBackendId
  }

  /** The fingerprint a call claims for the tool, or the empty string. */
  ghost predicate ClaimsFingerprint(req: CheckRequest, live: string) {
    var route := if "tool_fingerprint" in req.extensions then req.extensions["tool_fingerprint"] else "";
    live == if req.headers.toolFingerprint != "" then req.headers.toolFingerprint
            else if req.headers.agentgateFingerprint != "" then req.headers.agentgateFingerprint
            else route
  }

  /** The registry and the declarations in force for the tool: those of the catalog under the tool's key,
      or without a catalog the configured ones, declarations also under the bare tool name. */
  ghost predicate InForce(cfg: Config, key: string, toolName: string, entry: R.Entry, ds: A.DeclarationSet) {
    match cfg.catalog
    case Some(Some(snapshot)) =>
      && key in snapshot.registry && entry == snapshot.registry[key]
      && ds == if key in snapshot.argDecls then snapshot.argDecls[key] else map[]
    case Some(None) => false
    case None =>
      && cfg.registry.Some? && key in cfg.registry.value && entry == cfg.registry.value[key]
      && ds == if key in cfg.argDecls then cfg.argDecls[key] else if toolName in cfg.argDecls then cfg.argDecls[toolName] else map[]
  }

  /** An argument of a decision request is the value given, under its declared type. */
  ghost predicate Carries(typ: string, raw: A.Json, v: D.AttributeValue) {
    match raw
    case Text(text) => typ == "string" && v == D.Str(text)
    case Integer(n) => typ == "int64" && v == D.Num(n)
    case Flag(b) => typ == "bool" && v == D.Bool(b)
    case _ => false
  }

  /** Exactly the declared arguments that were given, each as given. */
  ghost predicate CarriesDeclared(ds: A.DeclarationSet, raw: A.RawArgs, args: map<string, D.AttributeValue>) {
    && (forall k :: k in args <==> k in ds && k in raw)
    && (forall k :: k in args ==> Carries(ds[k].typ, raw[k], args[k]))
  }

  /** What an adapted request says, from the call and the configuration alone: under which execution and
      workspace, who asks, for which tool with which registered risk, and with which arguments. */
  ghost predicate Says(cfg: Config, number: real -> string, generated: string, req: CheckRequest, d: D.Request) {
    var claims := ExtractClaims(number, req.jwt);
    && req.body.Rpc? && req.body.params.ToolCall? && cfg.mapper.Some?
    && d.executionId == (if req.headers.executionId != "" then req.headers.executionId
                         else if req.headers.requestId != "" then req.headers.requestId else generated)
    && BelongsTo(cfg, claims, req.extensions, d.workspaceId)
    && I.StandsFor(cfg.mapper.value, claims, d.identity.agentId, d.identity.onBehalfOf, d.identity.roles)
    && RoutedTo(cfg, req, d.backendId) && d.toolName == TrimSpace(req.body.params.name) && d.known
    && exists entry, ds, live :: Governs(cfg, req, d, entry, ds, live)
  }

  /** The tool of `d` is registered as `entry`, has not drifted from it, and `d` carries its declared
      arguments. */
  ghost predicate Governs(cfg: Config, req: CheckRequest, d: D.Request, entry: R.Entry, ds: A.DeclarationSet, live: string)
    requires req.body.Rpc? && req.body.params.ToolCall?
  {
    && InForce(cfg, d.backendId + "/" + d.toolName, d.toolName, entry, ds) && d.risk == entry.risk
    && ClaimsFingerprint(req, live) && (live == "" || live == entry.fingerprint)
    && CarriesDeclared(ds, req.body.params.arguments, d.arguments)
  }

  lemma TranslatedCarries(ds: A.DeclarationSet, raw: A.RawArgs)
    requires A.Resolvable(ds, raw)
    ensures Translatable(A.Resolved(ds, raw)) && CarriesDeclared(ds, raw, Translated(A.Resolved(ds, raw)))
  {
    A.ResolvedExactly(ds, raw);
    ResolvedTranslatable(ds, raw);
    var args := A.Resolved(ds, raw);
    hide A.Resolvable, A.Resolved;
    forall k | k in args ensures Carries(ds[k].typ, raw[k], Translated(args)[k]) { assert A.Reads(ds[k].typ, raw[k], args[k]); }
  }

  lemma RoutedExactly(cfg: Config, req: CheckRequest)
    ensures RoutedTo(cfg, req, BackendOf(cfg, req)) && ClaimsFingerprint(req, FingerprintOf(req))
  {
  }

  lemma GovernedExactly(cfg: Config, id: R.ToolId, live: string)
    requires RegistryOf(cfg).Some? && R.Lookup(RegistryOf(cfg).value, id, live).Authoritative()
    ensures var gov, reg := R.Lookup(RegistryOf(cfg).value, id, live), RegistryOf(cfg).value;
      && gov.toolId == id && id.backendId + "/" + id.toolName in reg
      && InForce(cfg, id.backendId + "/" + id.toolName, id.toolName, reg[id.backendId + "/" + id.toolName], DeclsFor(cfg, id))
      && gov.risk == reg[id.backendId + "/" + id.toolName].risk
      && (live == "" || live == reg[id.backendId + "/" + id.toolName].fingerprint)
  {
  }

  lemma PartsSay(cfg: Config, number: real -> string, generated: string, req: CheckRequest, d: D.Request)
    ensures Parts(cfg, number, generated, req, d) ==> Says(cfg, number, generated, req, d)
  {
    if Parts(cfg, number, generated, req, d) {
      var claims, id := ExtractClaims(number, req.jwt), R.ToolId(BackendOf(cfg, req), TrimSpace(req.body.params.name));
      var live, ds, raw := FingerprintOf(req), DeclsFor(cfg, id), req.body.params.arguments;
      I.MappedExactly(cfg.mapper.value, claims);
      WorkspaceExactly(cfg, claims, req.extensions, ResolveWorkspace(cfg, claims, req.extensions).value);
      RoutedExactly(cfg, req);
      TranslatedCarries(ds, raw);
      GovernedExactly(cfg, id, live);
      hide I.Map, I.StandsFor, ResolveWorkspace, BelongsTo, ExtractClaims, RoutedTo, ClaimsFingerprint, BackendOf, FingerprintOf,
        DeclsFor, RegistryOf, R.Lookup, InForce, A.Resolvable, A.Resolved, Translatable, Translated, CarriesDeclared, TrimSpace,
        R.GovernanceRecord.Authoritative;
      assert Governs(cfg, req, d, RegistryOf(cfg).value[id.backendId + "/" + id.toolName], ds, live);
    }
  }

  /** Every adapted request says what the call says. */
  lemma AdaptedSays(cfg: Config, number: real -> string, generated: string, req: CheckRequest)
    ensures Adapt(cfg, number, generated, req).Ok? ==> Says(cfg, number, generated, req, Adapt(cfg, number, generated, req).value)
  {
    AdaptedParts(cfg, number, generated, req);
    if Adapt(cfg, number, generated, req).Ok? { PartsSay(cfg, number, generated, req, Adapt(cfg, number, generated, req).value); }
    hide Adapt, Parts, Says;
  }

  /** The call names a tool, in the one way that is understood. */
  ghost predicate CallsTool(req: CheckRequest) {
    req.body.Rpc? && req.body.rpcMethod == "tools/call" && req.body.params.ToolCall? && !Blank(req.body.params.name)
  }

  /** The call's claims map to an identity and its workspace resolves. */
  ghost predicate Identified(cfg: Config, number: real -> string, req: CheckRequest) {
    && cfg.mapper.Some? && I.Map(cfg.mapper.value, ExtractClaims(number, req.jwt)).Ok?
    && ResolveWorkspace(cfg, ExtractClaims(number, req.jwt), req.extensions).Some?
  }

  /** The governance record of the tool that a call names. */
  function GovernanceOf(cfg: Config, req: CheckRequest): Option<R.GovernanceRecord>
    requires req.body.Rpc? && req.body.params.ToolCall?
  {
    if RegistryOf(cfg).None? then None
    else Some(R.Lookup(RegistryOf(cfg).value, R.ToolId(BackendOf(cfg, req), TrimSpace(req.body.params.name)), FingerprintOf(req)))
  }

  /** Why a call is not adapted, exactly, and what is known of it by then: the caller, the workspace and
      the tool when the tool is unknown or has drifted, and nothing otherwise. */
  ghost predicate FailsRightly(cfg: Config, number: real -> string, req: CheckRequest, e: Error) {
    if cfg.catalog == Some(None) then e == Error(D.UnknownTool, "", "", "", None)
    else if !CallsTool(req) then e == Error(D.MalformedRequest, "", "", "", None)
    else if !Identified(cfg, number, req) then e == Error(D.InvalidIdentity, "", "", "", None)
    else
      var gov := GovernanceOf(cfg, req);
      if gov.Some? && (!gov.value.known || gov.value.drift == R.Detected) then
        && e.reason == D.UnknownTool && e.toolName == TrimSpace(req.body.params.name) && RoutedTo(cfg, req, e.backendId)
        && BelongsTo(cfg, ExtractClaims(number, req.jwt), req.extensions, e.workspaceId)
        && e.identity.Some?
        && var id := e.identity.value;
        && I.StandsFor(cfg.mapper.value, ExtractClaims(number, req.jwt), id.agentId, id.onBehalfOf, id.roles)
      else
        e == Error(if gov.Some? && gov.value.Authoritative() then D.MalformedRequest else D.UnknownTool, "", "", "", None)
  }

  lemma AdaptFailsExactly(cfg: Config, number: real -> string, generated: string, req: CheckRequest)
    ensures Adapt(cfg, number, generated, req).Err? ==> FailsRightly(cfg, number, req, Adapt(cfg, number, generated, req).error)
  {
    if CallsTool(req) && Identified(cfg, number, req) {
      var claims := ExtractClaims(number, req.jwt);
      I.MappedExactly(cfg.mapper.value, claims);
      WorkspaceExactly(cfg, claims, req.extensions, ResolveWorkspace(cfg, claims, req.extensions).value);
      RoutedExactly(cfg, req);
    }
    hide I.Map, I.StandsFor, ResolveWorkspace, BelongsTo, ExtractClaims, RoutedTo, ClaimsFingerprint, BackendOf, FingerprintOf,
      DeclsFor, RegistryOf, R.Lookup, A.Resolvable, A.Resolved, Assemble, TrimSpace, R.GovernanceRecord.Authoritative;
  }

  /** The route cannot move a call to another workspace: two adapted calls with the same nonblank verified
      workspace claim belong to the same workspace, whatever else they say. */
  lemma VerifiedWorkspaceWins(cfg: Config, number: real -> string, generated: string, a: CheckRequest, b: CheckRequest, text: string)
    requires ClaimIs(a.jwt, "workspace_id", I.Text(text)) && ClaimIs(b.jwt, "workspace_id", I.Text(text)) && !Blank(text)
    ensures var x, y := Adapt(cfg, number, generated, a), Adapt(cfg, number, generated, b);
      && (x.Ok? ==> x.value.workspaceId == TrimSpace(text))
      && (x.Ok? && y.Ok? ==> x.value.workspaceId == y.value.workspaceId)
  {
    AdaptedSays(cfg, number, generated, a);
    AdaptedSays(cfg, number, generated, b);
    ClaimsExactly(number, a.jwt, "workspace_id");
    ClaimsExactly(number, b.jwt, "workspace_id");
    hide Adapt, ExtractClaims, I.StandsFor, RoutedTo, Governs, TrimSpace, ClaimIs;
  }

  /** The same request with other arguments. */
  function WithArguments(req: CheckRequest, args: A.RawArgs): CheckRequest
    requires req.body.Rpc? && req.body.params.ToolCall?
  {
    req.(body := req.body.(params := req.body.params.(arguments := args)))
  }

  /** Undeclared arguments do not interfere: two calls that differ only in them are adapted alike,
      so they lead to the same decision request and the same input of the policy. */
  lemma UndeclaredArgumentsDoNotInterfere(cfg: Config, number: real -> string, generated: string, req: CheckRequest,
                                          args: A.RawArgs, p: Option<D.Policy>)
    requires req.body.Rpc? && req.body.params.ToolCall?
    requires A.SameDeclared(DeclsFor(cfg, R.ToolId(BackendOf(cfg, req), TrimSpace(req.body.params.name))),
                            req.body.params.arguments, args)
    ensures var a, b := Adapt(cfg, number, generated, req), Adapt(cfg, number, generated, WithArguments(req, args));
      a == b && (a.Ok? ==> D.Evaluate(p, a.value) == D.Evaluate(p, b.value))
  {
    var other := WithArguments(req, args);
    var ds := DeclsFor(cfg, R.ToolId(BackendOf(cfg, req), TrimSpace(req.body.params.name)));
    A.UndeclaredInvisible(ds, req.body.params.arguments, args);
    assert BackendOf(cfg, other) == BackendOf(cfg, req) && FingerprintOf(other) == FingerprintOf(req);
  }

  /** Only declared names reach the decision request. */
  lemma OnlyDeclaredNamesReachPolicy(cfg: Config, number: real -> string, generated: string, req: CheckRequest)
    ensures var r := Adapt(cfg, number, generated, req);
      r.Ok? ==> forall k :: k in r.value.arguments ==> IsDeclaredArgument(cfg, req, k)
  {
    AdaptedParts(cfg, number, generated, req);
    hide Adapt, AdaptTool, DeclsFor, BackendOf, TrimSpace;
  }

  /** `k` is declared for the requested tool and given a value that is not null. */
  ghost predicate IsDeclaredArgument(cfg: Config, req: CheckRequest, k: string) {
    && req.body.Rpc? && req.body.params.ToolCall?
    && k in DeclsFor(cfg, R.ToolId(BackendOf(cfg, req), TrimSpace(req.body.params.name)))
    && k in req.body.params.arguments && !req.body.params.arguments[k].JNull?
  }

  /** The parts the decision request `d` is put together from. */
  ghost predicate Parts(cfg: Config, number: real -> string, generated: string, req: CheckRequest, d: D.Request) {
    && req.body.Rpc? && req.body.params.ToolCall? && !Blank(req.body.params.name) && cfg.mapper.Some? && RegistryOf(cfg).Some?
    && var claims, toolId := ExtractClaims(number, req.jwt), R.ToolId(BackendOf(cfg, req), TrimSpace(req.body.params.name));
    && I.Map(cfg.mapper.value, claims).Ok? && ResolveWorkspace(cfg, claims, req.extensions).Some?
    && var gov, ds, raw := R.Lookup(RegistryOf(cfg).value, toolId, FingerprintOf(req)), DeclsFor(cfg, toolId), req.body.params.arguments;
    && gov.Authoritative() && A.Resolvable(ds, raw)
    && Assemble(FirstNonempty(FirstNonempty(req.headers.executionId, req.headers.requestId), generated),
                ResolveWorkspace(cfg, claims, req.extensions).value, I.Map(cfg.mapper.value, claims).value, gov, A.Resolved(ds, raw))
       == Some(d)
  }

  lemma AdaptedParts(cfg: Config, number: real -> string, generated: string, req: CheckRequest)
    ensures Adapt(cfg, number, generated, req).Ok? ==> Parts(cfg, number, generated, req, Adapt(cfg, number, generated, req).value)
  {
    hide Assemble, A.Resolvable, A.Resolved, R.Lookup, I.Map, DeclsFor, BackendOf, FingerprintOf, ResolveWorkspace, ExtractClaims,
      TrimSpace, R.GovernanceRecord.Authoritative, RegistryOf;
  }

  /** A request header map after case-insensitive search: the exact key wins, otherwise any key
      that matches without regard to case, otherwise the empty string. */
  ghost predicate HeaderValue(lower: string -> string, headers: map<string, string>, key: string, v: string) {
    if key in headers then v == headers[key]
    else if exists k :: k in headers && lower(k) == lower(key) then
      exists k :: k in headers && lower(k) == lower(key) && v == headers[k]
    else v == ""
  }

  method GetHeader(lower: string -> string, headers: map<string, string>, key: string) returns (v: string)
    ensures HeaderValue(lower, headers, key, v)
  {
    if key in headers { return headers[key]; }
    var todo := headers.Keys;
    while todo != {}
      invariant todo <= headers.Keys
      invariant forall k :: k in headers && k !in todo ==> lower(k) != lower(key)
    {
      var k :| k in todo;
      if lower(k) == lower(key) { return headers[k]; }
      todo := todo - {k};
    }
    v := "";
  }

  /** The value found does not depend on the order of the search as long as no two header names
      differ in case only. */
  lemma HeaderValueUnique(lower: string -> string, headers: map<string, string>, key: string, v: string, w: string)
    requires forall j, k :: j in headers && k in headers && lower(j) == lower(k) ==> j == k
    requires HeaderValue(lower, headers, key, v) && HeaderValue(lower, headers, key, w)
    ensures v == w
  {
  }
}
