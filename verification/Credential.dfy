/** Downstream credentials: the claims the issuer mints and the independent checks of the backend
    that receives them. Times are nanoseconds since the Unix epoch; claims are whole seconds, as
    sections 4.1.4, 4.1.5 and 4.1.7 of RFC 7519 define `exp`, `nbf` and `iat`. */
module Credential {
  import opened Prelude
  import opened Strings

  const SECOND := 1_000_000_000
  const CLOCK_SKEW := 10 * SECOND
  const MAX_LIFETIME := 300 * SECOND
  const MAX_CRED_LIFETIME_SEC := 300
  const MIN_KEY_BITS := 2048

  /** Whole seconds since the epoch, rounded down. */
  function Unix(t: int): int { t / SECOND }

  // ---- The issuer ----

  datatype IssuerConfig = IssuerConfig(
    issuer: string, keyId: string, keyBits: Option<nat>, lifetime: int,
    audienceFor: Option<string -> string>, scopes: Option<(string, string, string) -> seq<string>>)

  datatype Issuer = Issuer(
    issuer: string, keyId: string, lifetime: int,
    audienceFor: string -> string, scopes: (string, string, string) -> seq<string>)

  datatype ConfigError = KeyRequired | KeyTooShort | IssuerRequired | KeyIdRequired | BadLifetime | AudienceRequired

  function DefaultScopeMapper(backend: string, tool: string, risk: string): seq<string>
  {
    if risk == "read" then ["tickets:read"]
    else if risk == "write" then ["tickets:read", "tickets:write"]
    else if risk == "destructive" then ["tickets:read", "tickets:delete"]
    else []
  }

  function NewIssuer(cfg: IssuerConfig): (r: Result<Issuer, ConfigError>)
    ensures r.Ok? <==>
      && cfg.keyBits.Some? && cfg.keyBits.value >= 2048 && cfg.issuer != "" && cfg.keyId != ""
      && 0 < cfg.lifetime <= 300 * SECOND && cfg.audienceFor.Some?
    ensures r.Ok? ==> r.value.issuer == cfg.issuer && r.value.keyId == cfg.keyId && r.value.lifetime == cfg.lifetime
    ensures r.Ok? ==> r.value.audienceFor == cfg.audienceFor.value
    ensures r.Ok? ==> r.value.scopes == if cfg.scopes.Some? then cfg.scopes.value else DefaultScopeMapper
  {
    if cfg.keyBits.None? then Err(KeyRequired)
    else if cfg.keyBits.value < MIN_KEY_BITS then Err(KeyTooShort)
    else if cfg.issuer == "" then Err(IssuerRequired)
    else if cfg.keyId == "" then Err(KeyIdRequired)
    else if cfg.lifetime <= 0 || cfg.lifetime > MAX_LIFETIME then Err(BadLifetime)
    else if cfg.audienceFor.None? then Err(AudienceRequired)
    else Ok(Issuer(cfg.issuer, cfg.keyId, cfg.lifetime, cfg.audienceFor.value,
                   if cfg.scopes.Some? then cfg.scopes.value else DefaultScopeMapper))
  }

  datatype Grant = Grant(agentId: string, onBehalfOf: string, backend: string, tool: string, risk: string, exec: string)

  datatype Audience = One(name: string) | Many(names: seq<Option<string>>) | Other

  datatype Claims = Claims(
    iss: string, aud: Audience, sub: string, act: Option<string>, scope: string,
    tool: string, backend: string, exec: string, jti: string, iat: int, nbf: int, exp: int)

  datatype IssueError = NotAllowed | NoScopes | NoAudience

  /** The claims minted at `now` for an allowed call; `jti` is the fresh random identifier. */
  function Issue(j: Issuer, allowed: bool, g: Grant, jti: string, now: int): Result<Claims, IssueError>
  {
    if !allowed then Err(NotAllowed)
    else
      var scopes := j.scopes(g.backend, g.tool, g.risk);
      if scopes == [] then Err(NoScopes)
      else
        var aud := j.audienceFor(g.backend);
        if aud == "" then Err(NoAudience)
        else Ok(Claims(
          j.issuer, One(aud), g.agentId, if g.onBehalfOf != "" then Some(g.onBehalfOf) else None,
          Join(scopes, ' '), g.tool, g.backend, g.exec, jti,
          Unix(now), Unix(now), Unix(now + j.lifetime)))
  }

  method IssueClaims(j: Issuer, allowed: bool, g: Grant, jti: string, now: int) returns (r: Result<Claims, IssueError>)
    ensures r == Issue(j, allowed, g, jti, now)
  {
    if !allowed { return Err(NotAllowed); }
    var scopes := j.scopes(g.backend, g.tool, g.risk);
    if |scopes| == 0 { return Err(NoScopes); }
    var aud := j.audienceFor(g.backend);
    if aud == "" { return Err(NoAudience); }
    var claims := Claims(j.issuer, One(aud), g.agentId, None, Join(scopes, ' '), g.tool, g.backend, g.exec, jti,
                         Unix(now), Unix(now), Unix(now + j.lifetime));
    if g.onBehalfOf != "" { claims := claims.(act := Some(g.onBehalfOf)); }
    r := Ok(claims);
  }

  // ---- The backend's checks ----

  const TOOL_SCOPES: map<string, string> := map[
    "list_tickets" := "tickets:read",
    "update_ticket_status" := "tickets:write",
    "delete_ticket" := "tickets:delete"]

  datatype Rejection =
    | InvalidIssuer | InvalidAudience | MissingTimes | NotYetValid | Expired | LifetimeTooLong
    | WrongTool | NoScopeForTool | MissingScope | MissingJti | Replayed

  predicate AudienceMatches(aud: Audience, want: string)
  {
    match aud
    case One(name) => name == want
    case Many(names) =>
      |names| == 1 && (match names[0] case Some(s) => s == want case None => want == "")
    case Other => false
  }

  predicate HasScope(scope: string, required: string) { required in Fields(scope) }

  function CheckTimes(c: Claims, now: int): Option<Rejection>
  {
    if c.iat == 0 || c.nbf == 0 || c.exp == 0 then Some(MissingTimes)
    else if c.nbf > Unix(now + CLOCK_SKEW) then Some(NotYetValid)
    else if c.exp <= Unix(now - CLOCK_SKEW) then Some(Expired)
    else if c.exp - c.iat > MAX_CRED_LIFETIME_SEC then Some(LifetimeTooLong)
    else None
  }

  /** The checks on signed claims up to the replay check, in the backend's order. */
  function CheckClaims(issuer: string, audience: string, c: Claims, tool: string, now: int): Option<Rejection>
  {
    if c.iss != issuer then Some(InvalidIssuer)
    else if !AudienceMatches(c.aud, audience) then Some(InvalidAudience)
    else if CheckTimes(c, now).Some? then CheckTimes(c, now)
    else if c.tool != tool then Some(WrongTool)
    else if tool !in TOOL_SCOPES then Some(NoScopeForTool)
    else if !HasScope(c.scope, TOOL_SCOPES[tool]) then Some(MissingScope)
    else if c.jti == "" then Some(MissingJti)
    else None
  }

  function Cutoff(now: int): int { Unix(now - CLOCK_SKEW) }

  /** The replay cache after `jti` is presented, and whether it was new. */
  function Consume(seen: map<string, int>, jti: string, exp: int, now: int): (map<string, int>, bool)
  {
    var live := map id | id in seen && seen[id] > Cutoff(now) :: seen[id];
    if jti in live then (live, false) else (live[jti := exp], true)
  }

  function Verify(issuer: string, audience: string, seen: map<string, int>, c: Claims, tool: string, now: int)
    : (map<string, int>, Option<Rejection>)
  {
    var rejected := CheckClaims(issuer, audience, c, tool, now);
    if rejected.Some? then (seen, rejected)
    else
      var (kept, unused) := Consume(seen, c.jti, c.exp, now);
      (kept, if unused then None else Some(Replayed))
  }

  class Verifier {
    const issuer: string
    const audience: string
    var seen: map<string, int>

    constructor (issuer: string, audience: string)
      ensures this.issuer == issuer && this.audience == audience && seen == map[]
    {
      this.issuer, this.audience, seen := issuer, audience, map[];
    }

    /** Forgets expired identifiers, then records `jti` unless it is still remembered. */
    method ConsumeJti(jti: string, exp: int, now: int) returns (unused: bool)
      modifies this
      ensures (seen, unused) == Consume(old(seen), jti, exp, now)
    {
      var cutoff := Unix(now - CLOCK_SKEW);
      var todo := seen.Keys;
      while todo != {}
        invariant todo <= old(seen).Keys
        invariant forall id :: id in seen <==> id in old(seen) && (id in todo || old(seen)[id] > cutoff)
        invariant forall id :: id in seen ==> seen[id] == old(seen)[id]
      {
        var id :| id in todo;
        if seen[id] <= cutoff {
          seen := seen - {id};
        }
        todo := todo - {id};
      }
      assert seen == map id | id in old(seen) && old(seen)[id] > cutoff :: old(seen)[id];
      if jti in seen { return false; }
      seen := seen[jti := exp];
      return true;
    }

    method VerifyClaims(c: Claims, tool: string, now: int) returns (rejected: Option<Rejection>)
      modifies this
      ensures (seen, rejected) == Verify(issuer, audience, old(seen), c, tool, now)
    {
      rejected := CheckClaims(issuer, audience, c, tool, now);
      if rejected.None? {
        var unused := ConsumeJti(c.jti, c.exp, now);
        if !unused { rejected := Some(Replayed); }
      }
    }
  }

  // ---- Issuer and backend agree on time ----

  lemma FloorMonotone(a: int, b: int)
    requires a <= b
    ensures Unix(a) <= Unix(b)
  {
  }

  lemma FloorShift(t: int, k: int)
    ensures Unix(t + k * SECOND) == Unix(t) + k
  {
  }

  /** The verifier clocks at which an issued token passes the time checks, exactly: from ten
      seconds before the issue second to just short of ten seconds after the expiry second. */
  lemma AcceptanceWindow(lifetime: int, issued: int, c: Claims, now: int)
    requires 0 < lifetime <= MAX_LIFETIME && issued >= SECOND
    requires c.iat == c.nbf == Unix(issued) && c.exp == Unix(issued + lifetime)
    ensures CheckTimes(c, now).None? <==>
      Unix(issued) * SECOND - CLOCK_SKEW <= now < Unix(issued + lifetime) * SECOND + CLOCK_SKEW
    ensures now < Unix(issued) * SECOND - CLOCK_SKEW ==> CheckTimes(c, now) == Some(NotYetValid)
    ensures now >= Unix(issued + lifetime) * SECOND + CLOCK_SKEW ==> CheckTimes(c, now) == Some(Expired)
  {
    FloorMonotone(SECOND, issued);
    FloorMonotone(issued, issued + lifetime);
    FloorMonotone(issued + lifetime, issued + MAX_LIFETIME);
    FloorShift(issued, 300);
    FloorShift(now, 10);
    FloorShift(now, -10);
  }

  /** In terms of the true issue time and lifetime: accepted from ten seconds before issue to nine
      seconds after expiry, refused from ten seconds after expiry on. */
  lemma IssuedTokenTimes(j: Issuer, g: Grant, jti: string, issued: int, now: int)
    requires 0 < j.lifetime <= MAX_LIFETIME && issued >= SECOND
    requires Issue(j, true, g, jti, issued).Ok?
    ensures var c := Issue(j, true, g, jti, issued).value;
      && (issued - CLOCK_SKEW <= now <= issued + j.lifetime + 9 * SECOND ==> CheckTimes(c, now).None?)
      && (now >= issued + j.lifetime + CLOCK_SKEW ==> CheckTimes(c, now) == Some(Expired))
  {
    AcceptanceWindow(j.lifetime, issued, Issue(j, true, g, jti, issued).value, now);
  }

  // ---- Issuer and backend agree on scopes ----

  lemma DefaultScopesAreWords(backend: string, tool: string, risk: string)
    ensures forall i :: 0 <= i < |DefaultScopeMapper(backend, tool, risk)| ==>
      IsWord(DefaultScopeMapper(backend, tool, risk)[i])
  {
    ScopeWord("tickets:read");
    ScopeWord("tickets:write");
    ScopeWord("tickets:delete");
    hide IsWord;
  }

  lemma ScopeWord(s: string)
    requires s != "" && forall i :: 0 <= i < |s| ==> s[i] == ':' || 'a' <= s[i] <= 'z'
    ensures IsWord(s)
  {
  }

  /** Which calls the default scope map covers: reading always, each change with its own risk. */
  predicate Covered(risk: string, tool: string)
  {
    || (tool == "list_tickets" && risk in {"read", "write", "destructive"})
    || (tool == "update_ticket_status" && risk == "write")
    || (tool == "delete_ticket" && risk == "destructive")
  }

  lemma CoveredIffGranted(backend: string, risk: string, tool: string)
    requires tool in TOOL_SCOPES
    ensures TOOL_SCOPES[tool] in DefaultScopeMapper(backend, tool, risk) <==> Covered(risk, tool)
  {
    var a, b, c := "tickets:read", "tickets:write", "tickets:delete";
    assert |a| != |b| && |a| != |c| && |b| != |c|;
    assert tool == "list_tickets" || tool == "update_ticket_status" || tool == "delete_ticket";
    assert |"list_tickets"| != |"update_ticket_status"| && |"list_tickets"| != |"delete_ticket"|
      && |"update_ticket_status"| != |"delete_ticket"|;
    assert |"read"| != |"write"| && |"read"| != |"destructive"| && |"write"| != |"destructive"|;
  }

  // ---- What the backend accepts ----

  /** The audience names exactly `want`: alone, or as the only element of a list. An element that is not
      a string counts as the empty name. */
  ghost predicate NamesAudience(aud: Audience, want: string) {
    aud == One(want) || aud == Many([Some(want)]) || (want == "" && aud == Many([None]))
  }

  /** The clock, in nanoseconds, is between ten seconds before the second `nbf` and ten seconds after the
      second `exp`. */
  ghost predicate InWindow(nbf: int, exp: int, now: int) {
    nbf * SECOND - 10 * SECOND <= now < exp * SECOND + 10 * SECOND
  }

  /** The cache holds the identifier with an expiry that has not passed, ten seconds allowed. */
  ghost predicate Live(seen: map<string, int>, jti: string, now: int) {
    jti in seen && now < seen[jti] * SECOND + 10 * SECOND
  }

  /** Everything the backend demands of signed claims. */
  ghost predicate Acceptable(issuer: string, audience: string, seen: map<string, int>, c: Claims, tool: string, now: int) {
    && c.iss == issuer && NamesAudience(c.aud, audience)
    && c.iat != 0 && c.nbf != 0 && c.exp != 0 && InWindow(c.nbf, c.exp, now) && c.exp - c.iat <= 300
    && c.tool == tool && tool in TOOL_SCOPES && TOOL_SCOPES[tool] in Fields(c.scope)
    && c.jti != "" && !Live(seen, c.jti, now)
  }

  lemma SecondsBefore(second: int, now: int)
    ensures second > Unix(now + CLOCK_SKEW) <==> now < second * SECOND - 10 * SECOND
    ensures second <= Unix(now - CLOCK_SKEW) <==> now >= second * SECOND + 10 * SECOND
  {
  }

  /** The backend accepts a token exactly when it is acceptable in every respect, for any claims. It then
      remembers the token's identifier and every identifier that is still live, and nothing else; a
      rejection never adds an identifier. */
  lemma AcceptedExactly(issuer: string, audience: string, seen: map<string, int>, c: Claims, tool: string, now: int)
    ensures var (kept, rejected) := Verify(issuer, audience, seen, c, tool, now);
      && (rejected.None? <==> Acceptable(issuer, audience, seen, c, tool, now))
      && (rejected.None? ==> forall id :: id in kept <==> id == c.jti || Live(seen, id, now))
      && (rejected.None? ==> forall id :: id in kept ==> kept[id] == if id == c.jti then c.exp else seen[id])
      && (rejected.Some? ==> forall id :: id in kept ==> id in seen && kept[id] == seen[id])
      && (rejected.Some? ==> forall id :: Live(seen, id, now) ==> id in kept)
  {
    ChecksExactly(issuer, audience, c, tool, now);
    forall id | id in seen ensures seen[id] <= Cutoff(now) <==> !Live(seen, id, now) { SecondsBefore(seen[id], now); }
    hide CheckClaims, Unix, Fields;
  }

  lemma ChecksExactly(issuer: string, audience: string, c: Claims, tool: string, now: int)
    ensures CheckClaims(issuer, audience, c, tool, now).None? <==>
      && c.iss == issuer && NamesAudience(c.aud, audience)
      && c.iat != 0 && c.nbf != 0 && c.exp != 0 && InWindow(c.nbf, c.exp, now) && c.exp - c.iat <= 300
      && c.tool == tool && tool in TOOL_SCOPES && TOOL_SCOPES[tool] in Fields(c.scope) && c.jti != ""
  {
    SecondsBefore(c.nbf, now);
    SecondsBefore(c.exp, now);
    AudienceExactly(c.aud, audience);
    hide Unix, Fields, AudienceMatches, NamesAudience;
  }

  lemma AudienceExactly(aud: Audience, want: string)
    ensures AudienceMatches(aud, want) <==> NamesAudience(aud, want)
  {
    if aud.Many? && |aud.names| == 1 { assert aud.names == [aud.names[0]]; }
  }

  /** Why a token is rejected, exactly: the first of the demands it fails. */
  lemma RejectedExactly(issuer: string, audience: string, seen: map<string, int>, c: Claims, tool: string, now: int)
    requires Verify(issuer, audience, seen, c, tool, now).1.Some?
    ensures Verify(issuer, audience, seen, c, tool, now).1.value ==
      if c.iss != issuer then InvalidIssuer
      else if !NamesAudience(c.aud, audience) then InvalidAudience
      else if c.iat == 0 || c.nbf == 0 || c.exp == 0 then MissingTimes
      else if now < c.nbf * SECOND - 10 * SECOND then NotYetValid
      else if now >= c.exp * SECOND + 10 * SECOND then Expired
      else if c.exp - c.iat > 300 then LifetimeTooLong
      else if c.tool != tool then WrongTool
      else if tool !in TOOL_SCOPES then NoScopeForTool
      else if TOOL_SCOPES[tool] !in Fields(c.scope) then MissingScope
      else if c.jti == "" then MissingJti
      else Replayed
  {
    SecondsBefore(c.nbf, now);
    SecondsBefore(c.exp, now);
    AudienceExactly(c.aud, audience);
    hide Unix, Fields, AudienceMatches, NamesAudience, Consume;
  }

  /** What an issued token says: who acts, for whom, with which scopes, where, for which call, and from
      when to when; and when none is issued. */
  lemma IssuedExactly(j: Issuer, allowed: bool, g: Grant, jti: string, now: int)
    ensures Issue(j, allowed, g, jti, now).Ok? <==>
      allowed && j.scopes(g.backend, g.tool, g.risk) != [] && j.audienceFor(g.backend) != ""
    ensures Issue(j, allowed, g, jti, now).Ok? ==>
      var c := Issue(j, allowed, g, jti, now).value;
      && c.iss == j.issuer && NamesAudience(c.aud, j.audienceFor(g.backend))
      && c.sub == g.agentId && c.act == (if g.onBehalfOf == "" then None else Some(g.onBehalfOf))
      && c.tool == g.tool && c.backend == g.backend && c.exec == g.exec && c.jti == jti
      && c.iat == c.nbf && c.iat * SECOND <= now < (c.iat + 1) * SECOND
      && c.exp * SECOND <= now + j.lifetime < (c.exp + 1) * SECOND
      && ((forall i :: 0 <= i < |j.scopes(g.backend, g.tool, g.risk)| ==> IsWord(j.scopes(g.backend, g.tool, g.risk)[i])) ==>
            Fields(c.scope) == j.scopes(g.backend, g.tool, g.risk))
  {
    var scopes := j.scopes(g.backend, g.tool, g.risk);
    if forall i :: 0 <= i < |scopes| ==> IsWord(scopes[i]) { FieldsJoin(scopes); }
    hide Fields, Join, IsWord;
  }

  /** End to end, for any backend: a token minted with the default scope map is accepted exactly by a
      backend with the issuer's name and the audience of the call's backend, that has not seen it, within
      the acceptance window, for the tool it was minted for, when the risk covers that tool. */
  lemma IssuedTokenAccepted(j: Issuer, g: Grant, jti: string, issued: int, issuer: string, audience: string,
                            seen: map<string, int>, tool: string, now: int)
    requires 0 < j.lifetime <= MAX_LIFETIME && issued >= SECOND && jti != ""
    requires j.scopes == DefaultScopeMapper
    requires Issue(j, true, g, jti, issued).Ok?
    ensures Verify(issuer, audience, seen, Issue(j, true, g, jti, issued).value, tool, now).1.None? <==>
      && issuer == j.issuer && audience == j.audienceFor(g.backend)
      && Unix(issued) * SECOND - CLOCK_SKEW <= now < Unix(issued + j.lifetime) * SECOND + CLOCK_SKEW
      && tool == g.tool && Covered(g.risk, tool) && !Live(seen, jti, now)
  {
    var c := Issue(j, true, g, jti, issued).value;
    AcceptedExactly(issuer, audience, seen, c, tool, now);
    MintedTimes(j.lifetime, issued, c);
    DefaultScopesAreWords(g.backend, g.tool, g.risk);
    FieldsJoin(DefaultScopeMapper(g.backend, g.tool, g.risk));
    if tool in TOOL_SCOPES { CoveredIffGranted(g.backend, g.risk, tool); }
    CoveredHasScope(g.risk, tool);
    hide Verify, Covered, DefaultScopeMapper, Fields, Join, Unix, Live;
  }

  lemma MintedTimes(lifetime: int, issued: int, c: Claims)
    requires 0 < lifetime <= MAX_LIFETIME && issued >= SECOND
    requires c.iat == c.nbf == Unix(issued) && c.exp == Unix(issued + lifetime)
    ensures c.iat != 0 && c.nbf != 0 && c.exp != 0 && c.exp - c.iat <= 300
  {
    FloorMonotone(SECOND, issued);
    FloorMonotone(issued, issued + lifetime);
    FloorMonotone(issued + lifetime, issued + MAX_LIFETIME);
    FloorShift(issued, 300);
  }

  lemma CoveredHasScope(risk: string, tool: string)
    ensures Covered(risk, tool) ==> tool in TOOL_SCOPES
  {
  }

  // ---- Replay ----

  datatype Presentation = Presentation(claims: Claims, tool: string, now: int)

  ghost predicate Nondecreasing(ps: seq<Presentation>) {
    forall i, j :: 0 <= i < j < |ps| ==> ps[i].now <= ps[j].now
  }

  function SeenAfter(issuer: string, audience: string, ps: seq<Presentation>): map<string, int>
  {
    if ps == [] then map[]
    else
      var p := ps[|ps| - 1];
      Verify(issuer, audience, SeenAfter(issuer, audience, ps[..|ps| - 1]), p.claims, p.tool, p.now).0
  }

  function Verdict(issuer: string, audience: string, ps: seq<Presentation>, p: Presentation): Option<Rejection>
  {
    Verify(issuer, audience, SeenAfter(issuer, audience, ps), p.claims, p.tool, p.now).1
  }

  /** The (identifier, expiry) pairs accepted during a run. */
  function Accepted(issuer: string, audience: string, ps: seq<Presentation>): set<(string, int)>
  {
    if ps == [] then {}
    else
      var before, p := ps[..|ps| - 1], ps[|ps| - 1];
      Accepted(issuer, audience, before)
      + if Verdict(issuer, audience, before, p).None? then {(p.claims.jti, p.claims.exp)} else {}
  }

  ghost predicate Remembers(seen: map<string, int>, accepted: set<(string, int)>, cutoff: int) {
    && (forall id :: id in seen ==> (id, seen[id]) in accepted)
    && (forall id, exp :: (id, exp) in accepted && exp > cutoff ==> id in seen && seen[id] == exp)
  }

  lemma ConsumeRemembers(seen: map<string, int>, accepted: set<(string, int)>, jti: string, exp: int, now: int)
    requires Remembers(seen, accepted, Cutoff(now))
    ensures var (kept, unused) := Consume(seen, jti, exp, now);
      Remembers(kept, accepted + if unused then {(jti, exp)} else {}, Cutoff(now))
  {
  }

  /** The cache remembers exactly what can still matter: everything it holds was accepted, and
      everything accepted that has not expired by `now` is in it. */
  lemma {:induction false} CacheRemembersLive(issuer: string, audience: string, ps: seq<Presentation>, now: int)
    requires Nondecreasing(ps) && forall i :: 0 <= i < |ps| ==> ps[i].now <= now
    ensures Remembers(SeenAfter(issuer, audience, ps), Accepted(issuer, audience, ps), Cutoff(now))
  {
    if ps != [] {
      var before, p := ps[..|ps| - 1], ps[|ps| - 1];
      CacheRemembersLive(issuer, audience, before, p.now);
      FloorMonotone(p.now - CLOCK_SKEW, now - CLOCK_SKEW);
      ConsumeRemembers(SeenAfter(issuer, audience, before), Accepted(issuer, audience, before),
                       p.claims.jti, p.claims.exp, p.now);
    }
  }

  /** With a nondecreasing clock a presentation that passes every other check is refused as a
      replay exactly when its identifier was accepted before with an expiry that has not passed. */
  lemma ReplayExactly(issuer: string, audience: string, ps: seq<Presentation>, p: Presentation)
    requires Nondecreasing(ps + [p])
    ensures Verdict(issuer, audience, ps, p) == Some(Replayed) <==>
      && CheckClaims(issuer, audience, p.claims, p.tool, p.now).None?
      && exists exp :: (p.claims.jti, exp) in Accepted(issuer, audience, ps) && exp > Cutoff(p.now)
  {
    assert forall i :: 0 <= i < |ps| ==> (ps + [p])[i] == ps[i];
    assert (ps + [p])[|ps|] == p;
    CacheRemembersLive(issuer, audience, ps, p.now);
    hide CheckClaims;
  }

  /** No token is accepted twice although expired entries are evicted, and an identifier never
      accepted before is never refused as a replay. */
  lemma NoTokenTwice(issuer: string, audience: string, ps: seq<Presentation>, p: Presentation)
    requires Nondecreasing(ps + [p])
    ensures Verdict(issuer, audience, ps, p).None? ==> (p.claims.jti, p.claims.exp) !in Accepted(issuer, audience, ps)
    ensures (forall exp :: (p.claims.jti, exp) !in Accepted(issuer, audience, ps)) ==>
      Verdict(issuer, audience, ps, p) != Some(Replayed)
  {
    ReplayExactly(issuer, audience, ps, p);
  }
}
