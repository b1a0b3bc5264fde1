/** From an allowed check to the backend: the token issuer as the audited service uses it, and what the
    token that goes out with an OK answer opens. */
module Issuance {
  import opened Prelude
  import C = CheckServer
  import D = Decision
  import K = Credential
  import S = AuditStore
  import V = AuditService

  function GrantOf(req: D.Request): K.Grant
  {
    K.Grant(req.identity.agentId, req.identity.onBehalfOf, req.backendId, req.toolName, req.risk, req.executionId)
  }

  function RefOf(j: K.Issuer, jti: string): string { "jti:" + jti + ";kid:" + j.keyId }

  /** The credential for a signed token; `token` signs and encodes claims. */
  function CredentialOf(j: K.Issuer, token: K.Claims -> string, c: K.Claims): V.Credential
  {
    V.Credential("Authorization", "Bearer " + token(c), RefOf(j, c.jti))
  }

  /** The issuer at one call: its clock reads `now` and its random identifier is `jti`. */
  function IssuerAt(j: K.Issuer, token: K.Claims -> string, jti: string, now: int): V.Issuer
  {
    (req: D.Request, res: D.Result) =>
      match K.Issue(j, res.verdict == D.Allow, GrantOf(req), jti, now)
      case Ok(c) => Some(CredentialOf(j, token, c))
      case Err(_) => None
  }

  /** The token minted for a call names that call: its agent and the one it acts for, its backend, tool
      and execution, and the audience of its backend. */
  lemma TokenNamesCall(j: K.Issuer, req: D.Request, jti: string, issued: int)
    ensures var minted := K.Issue(j, true, GrantOf(req), jti, issued);
      minted.Ok? ==>
        var c := minted.value;
        && c.sub == req.identity.agentId
        && c.act == (if req.identity.onBehalfOf == "" then None else Some(req.identity.onBehalfOf))
        && c.backend == req.backendId && c.tool == req.toolName && c.exec == req.executionId && c.jti == jti
        && c.iss == j.issuer && K.NamesAudience(c.aud, j.audienceFor(req.backendId))
  {
    K.IssuedExactly(j, true, GrantOf(req), jti, issued);
    hide K.Issue;
  }

  /** With a token issuer wired in, a check is answered OK exactly when its decision was ALLOW, could
      be issued a token, and was recorded; the answer carries that token in the authorization header,
      and the record its reference. */
  lemma OkCarriesRecordedToken(u: V.Setup, st: S.State, evaluator: Option<V.Evaluator>, j: K.Issuer, token: K.Claims -> string,
                               jti: string, issued: int, req: D.Request, at: V.Moment, requireCredential: bool)
    ensures var p := V.Prepared(evaluator, Some(IssuerAt(j, token, jti, issued)), req);
      var (next, out, _) := V.Commit(u, st, p, at);
      var minted := K.Issue(j, true, GrantOf(req), jti, issued);
      && (C.Answer(requireCredential, out).Okay? <==>
            V.Evaluated(evaluator, req).verdict == D.Allow && minted.Ok? && next != st)
      && (C.Answer(requireCredential, out).Okay? ==>
            && C.Answer(requireCredential, out).cred
               == Some(V.Credential("Authorization", "Bearer " + token(minted.value), "jti:" + jti + ";kid:" + j.keyId))
            && var rs := S.Chain(next, req.workspaceId); rs != [] && rs[|rs| - 1].body.credentialRef == "jti:" + jti + ";kid:" + j.keyId)
  {
    var issuer := IssuerAt(j, token, jti, issued);
    PreparedWithToken(evaluator, j, token, jti, issued, req);
    var p := V.Prepared(evaluator, Some(issuer), req);
    V.CommitCases(u, st, p, at);
    hide V.Prepared, V.Commit, V.Evaluated, K.Issue, IssuerAt, CredentialOf;
  }

  lemma PreparedWithToken(evaluator: Option<V.Evaluator>, j: K.Issuer, token: K.Claims -> string, jti: string, issued: int, req: D.Request)
    ensures var p := V.Prepared(evaluator, Some(IssuerAt(j, token, jti, issued)), req);
      var minted := K.Issue(j, true, GrantOf(req), jti, issued);
      && p.req == req
      && (p.res.verdict == D.Allow <==> V.Evaluated(evaluator, req).verdict == D.Allow && minted.Ok?)
      && p.cred == (if p.res.verdict == D.Allow then Some(CredentialOf(j, token, minted.value)) else None)
      && (minted.Ok? ==> CredentialOf(j, token, minted.value)
                         == V.Credential("Authorization", "Bearer " + token(minted.value), "jti:" + jti + ";kid:" + j.keyId))
  {
    var minted := K.Issue(j, true, GrantOf(req), jti, issued);
    if minted.Ok? { assert |"Bearer " + token(minted.value)| > 0 && |RefOf(j, jti)| > 0; }
    hide V.Evaluated, V.ProvenanceOf, K.Issue;
  }

  /** What the token of an OK answer opens: under the default scope map it is accepted exactly by a
      backend with the issuer's name and the audience of the call's backend, that has not seen it, within
      the acceptance window, for the tool of the recorded call, when the tool's risk covers it. */
  lemma OkTokenOpensItsTool(u: V.Setup, st: S.State, evaluator: Option<V.Evaluator>, j: K.Issuer, token: K.Claims -> string,
                            jti: string, issued: int, req: D.Request, at: V.Moment, requireCredential: bool,
                            issuer: string, audience: string, seen: map<string, int>, tool: string, now: int)
    requires 0 < j.lifetime <= K.MAX_LIFETIME && issued >= K.SECOND && jti != "" && j.scopes == K.DefaultScopeMapper
    ensures var out := V.Commit(u, st, V.Prepared(evaluator, Some(IssuerAt(j, token, jti, issued)), req), at).1;
      C.Answer(requireCredential, out).Okay? ==>
        var minted := K.Issue(j, true, GrantOf(req), jti, issued);
        && minted.Ok? && C.Answer(requireCredential, out).cred
           == Some(V.Credential("Authorization", "Bearer " + token(minted.value), "jti:" + jti + ";kid:" + j.keyId))
        && minted.value.sub == req.identity.agentId && minted.value.exec == req.executionId
        && (K.Verify(issuer, audience, seen, minted.value, tool, now).1.None? <==>
              && issuer == j.issuer && audience == j.audienceFor(req.backendId)
              && K.Unix(issued) * K.SECOND - K.CLOCK_SKEW <= now < K.Unix(issued + j.lifetime) * K.SECOND + K.CLOCK_SKEW
              && tool == req.toolName && K.Covered(req.risk, tool) && !K.Live(seen, jti, now))
  {
    OkCarriesRecordedToken(u, st, evaluator, j, token, jti, issued, req, at, requireCredential);
    TokenNamesCall(j, req, jti, issued);
    var g := GrantOf(req);
    hide V.Prepared, V.Commit, V.Evaluated, K.Issue, K.Verify, K.Covered, K.Unix, K.Live, IssuerAt, C.Answer;
    if K.Issue(j, true, g, jti, issued).Ok? {
      K.IssuedTokenAccepted(j, g, jti, issued, issuer, audience, seen, tool, now);
    }
  }
}
