/** Mapping of gateway-verified claims to an agent identity, and the role normal form. */
module Identity {
  import opened Prelude
  import opened Strings

  datatype FailureClass = MissingClaim | MalformedClaim | AmbiguousIdentity | MissingRoles

  datatype MapperConfig = MapperConfig(agentIdClaim: string, onBehalfOfClaim: string, rolesClaim: string)

  datatype MappedIdentity = MappedIdentity(agentId: string, onBehalfOf: string, roles: seq<string>)

  // ---- Role lists ----

  function Trims(pieces: seq<string>): (r: seq<string>)
    ensures |r| == |pieces| && forall i :: 0 <= i < |pieces| ==> r[i] == TrimSpace(pieces[i])
  {
    seq(|pieces|, i requires 0 <= i < |pieces| => TrimSpace(pieces[i]))
  }

  predicate IsNonempty(s: string) { s != "" }

  /** The nonblank pieces of a space-separated string, trimmed, in order. */
  function Pieces(raw: string): seq<string>
  {
    Filter(IsNonempty, Trims(Split(raw, ' ')))
  }

  /** Keeps the first occurrence of every element. */
  function FirstOccurrences(s: seq<string>): seq<string>
  {
    if s == [] then []
    else
      var before, x := s[..|s| - 1], s[|s| - 1];
      FirstOccurrences(before) + if x in before then [] else [x]
  }

  /** The normal form of a roles claim. */
  function Roles(raw: string): seq<string>
  {
    FirstOccurrences(Pieces(raw))
  }

  /** What the first `i` parts contribute. */
  function Kept(parts: seq<string>, i: nat): seq<string>
    requires i <= |parts|
  {
    Filter(IsNonempty, Trims(parts[..i]))
  }

  lemma KeptStep(parts: seq<string>, i: nat)
    requires i < |parts|
    ensures var t := TrimSpace(parts[i]);
      Kept(parts, i + 1) == if t == "" then Kept(parts, i) else Kept(parts, i) + [t]
  {
    var t := TrimSpace(parts[i]);
    assert Trims(parts[..i + 1]) == Trims(parts[..i]) + [t];
    FilterAppend(IsNonempty, Trims(parts[..i]), [t]);
  }

  lemma FirstOccurrencesStep(s: seq<string>, x: string)
    ensures FirstOccurrences(s + [x]) == FirstOccurrences(s) + if x in s then [] else [x]
  {
    assert (s + [x])[..|s + [x]| - 1] == s;
  }

  method SplitRoles(raw: string) returns (out: seq<string>)
    ensures out == Roles(raw)
  {
    hide TrimSpace, Split, FirstOccurrences, Kept;
    var parts := Split(raw, ' ');
    var seen: set<string> := {};
    out := [];
    NothingKept(parts);
    for i := 0 to |parts|
      invariant out == FirstOccurrences(Kept(parts, i))
      invariant forall r :: r in seen <==> r in Kept(parts, i)
    {
      var trimmed := TrimSpace(parts[i]);
      KeptStep(parts, i);
      FirstOccurrencesStep(Kept(parts, i), trimmed);
      if trimmed == "" {
        continue;
      }
      if trimmed in seen {
        continue;
      }
      seen := seen + {trimmed};
      out := out + [trimmed];
    }
    AllKept(raw);
  }

  lemma NothingKept(parts: seq<string>)
    ensures FirstOccurrences(Kept(parts, 0)) == [] && Kept(parts, 0) == []
  {
  }

  lemma AllKept(raw: string)
    ensures Kept(Split(raw, ' '), |Split(raw, ' ')|) == Pieces(raw)
  {
    var parts := Split(raw, ' ');
    assert parts[..|parts|] == parts;
  }

  /** Keeping first occurrences loses no element, repeats none, and keeps their order. */
  lemma {:induction false} FirstOccurrencesFacts(s: seq<string>)
    ensures var r := FirstOccurrences(s);
      && (forall x :: x in r <==> x in s)
      && Distinct(r)
      && (forall i, j :: 0 <= i < j < |r| ==> FirstIndex(s, r[i]) < FirstIndex(s, r[j]))
  {
    if s != [] {
      var before, x := s[..|s| - 1], s[|s| - 1];
      FirstOccurrencesFacts(before);
      assert s == before + [x];
      forall y | y in before ensures FirstIndex(s, y) == FirstIndex(before, y) { IndexInPrefix(before, x, y); }
      if x !in before { IndexOfNew(before, x); }
    }
  }

  /** Where `x` first occurs in `s`; the length when it does not. */
  function FirstIndex(s: seq<string>, x: string): (i: nat)
    ensures i <= |s| && (i < |s| ==> s[i] == x) && (x in s ==> i < |s|)
  {
    if s == [] || s[0] == x then 0 else 1 + FirstIndex(s[1..], x)
  }

  lemma {:induction false} IndexInPrefix(s: seq<string>, x: string, y: string)
    requires y in s
    ensures FirstIndex(s + [x], y) == FirstIndex(s, y)
  {
    assert (s + [x])[0] == s[0];
    if s[0] != y {
      assert (s + [x])[1..] == s[1..] + [x];
      IndexInPrefix(s[1..], x, y);
    }
  }

  lemma {:induction false} IndexOfNew(s: seq<string>, x: string)
    requires x !in s
    ensures FirstIndex(s + [x], x) == |s|
  {
    if s != [] {
      assert (s + [x])[1..] == s[1..] + [x];
      IndexOfNew(s[1..], x);
    }
  }

  lemma {:induction false} DistinctUnchanged(s: seq<string>)
    requires Distinct(s)
    ensures FirstOccurrences(s) == s
  {
    if s != [] {
      var before, x := s[..|s| - 1], s[|s| - 1];
      DistinctUnchanged(before);
      assert s == before + [x];
    }
  }

  /** A role as it may stand in a normal form: nonempty, trimmed, without the separator. */
  predicate IsRole(r: string) { r != "" && Trimmed(r) && ' ' !in r }

  lemma {:induction false} FilterKeepsAll(s: seq<string>)
    requires forall i :: 0 <= i < |s| ==> s[i] != ""
    ensures Filter(IsNonempty, s) == s
  {
    if s != [] {
      FilterKeepsAll(s[1..]);
      assert s == [s[0]] + s[1..];
    }
  }

  lemma PiecesAreRoles(raw: string)
    ensures forall r :: r in Pieces(raw) ==> IsRole(r)
  {
    var parts := Split(raw, ' ');
    PiecesHaveNoSeparator(raw, ' ');
    forall r | r in Pieces(raw) ensures IsRole(r) {
      var i :| 0 <= i < |parts| && r == TrimSpace(parts[i]);
      TrimSpaceFacts(parts[i]);
    }
  }

  lemma PiecesOfJoinedRoles(roles: seq<string>)
    requires forall r :: r in roles ==> IsRole(r)
    ensures Pieces(Join(roles, ' ')) == roles
  {
    if roles == [] {
      assert Split("", ' ') == [""];
      assert Trims([""]) == [""];
    } else {
      assert forall i :: 0 <= i < |roles| ==> roles[i] in roles;
      SplitJoin(roles, ' ');
      forall i | 0 <= i < |roles| ensures TrimSpace(roles[i]) == roles[i] && roles[i] != "" {
        assert roles[i] in roles;
        TrimmedUnchanged(roles[i]);
      }
      assert Trims(roles) == roles;
      FilterKeepsAll(roles);
    }
  }

  /** `r` is the trimmed form of a space-separated piece of `raw`. */
  ghost predicate IsPieceOf(r: string, raw: string) {
    r != "" && exists i :: 0 <= i < |Split(raw, ' ')| && r == TrimSpace(Split(raw, ' ')[i])
  }

  lemma PiecesAreThePieces(raw: string, r: string)
    ensures r in Pieces(raw) <==> IsPieceOf(r, raw)
  {
    hide TrimSpace, Split;
    var parts := Split(raw, ' ');
    if r in Pieces(raw) {
      assert r in Trims(parts);
      var i :| 0 <= i < |parts| && r == Trims(parts)[i];
      assert r == TrimSpace(parts[i]);
    }
    if IsPieceOf(r, raw) {
      var i :| 0 <= i < |parts| && r == TrimSpace(parts[i]);
      KeptByFilter(Trims(parts), i);
    }
  }

  /** The normal form is a list of distinct roles, the trimmed nonblank pieces in order of first
      occurrence, and splitting the joined normal form gives it back. */
  lemma RolesNormalForm(raw: string)
    ensures Distinct(Roles(raw)) && forall r :: r in Roles(raw) ==> IsRole(r)
    ensures forall r :: r in Roles(raw) <==> IsPieceOf(r, raw)
    ensures Roles(Join(Roles(raw), ' ')) == Roles(raw)
  {
    hide Pieces, IsPieceOf, IsRole, FirstOccurrences;
    FirstOccurrencesFacts(Pieces(raw));
    PiecesAreRoles(raw);
    PiecesOfJoinedRoles(Roles(raw));
    DistinctUnchanged(Roles(raw));
    forall r ensures r in Pieces(raw) <==> IsPieceOf(r, raw) { PiecesAreThePieces(raw, r); }
  }

  lemma {:induction false} KeptByFilter(s: seq<string>, i: nat)
    requires i < |s| && s[i] != ""
    ensures s[i] in Filter(IsNonempty, s)
  {
    if i > 0 { KeptByFilter(s[1..], i - 1); }
  }

  // ---- Lists of roles joined by the adapter ----

  function AllPieces(parts: seq<string>): seq<string>
  {
    if parts == [] then [] else Pieces(parts[0]) + AllPieces(parts[1..])
  }

  lemma PiecesOfTwo(a: string, b: string)
    ensures Pieces(a + [' '] + b) == Pieces(a) + Pieces(b)
  {
    SplitAt(a, b, ' ');
    var x, y := Split(a, ' '), Split(b, ' ');
    hide Split, TrimSpace;
    assert Trims(x + y) == Trims(x) + Trims(y);
    FilterAppend(IsNonempty, Trims(x), Trims(y));
  }

  /** Joining a list and splitting it again normalises every element in order. */
  lemma {:induction false} PiecesOfJoin(parts: seq<string>)
    ensures Pieces(Join(parts, ' ')) == AllPieces(parts)
  {
    hide Pieces;
    if parts == [] {
      PiecesOfJoinedRoles([]);
    } else if |parts| == 1 {
      assert AllPieces(parts) == Pieces(parts[0]) + AllPieces([]);
    } else {
      PiecesOfJoin(parts[1..]);
      PiecesOfTwo(parts[0], Join(parts[1..], ' '));
    }
  }

  lemma {:induction false} PiecesIgnoreTrim(raw: string)
    ensures Pieces(TrimSpace(raw)) == Pieces(raw)
    decreases |raw|
  {
    if raw == "" {
    } else if IsSpace(raw[0]) {
      assert raw == [raw[0]] + raw[1..];
      TrimIgnoresOuterSpace(raw[1..], raw[0]);
      LeadingSpace(raw[1..], raw[0]);
      PiecesIgnoreTrim(raw[1..]);
    } else if IsSpace(raw[|raw| - 1]) {
      var shorter, c := raw[..|raw| - 1], raw[|raw| - 1];
      assert raw == shorter + [c];
      TrimIgnoresOuterSpace(shorter, c);
      TrailingSpace(shorter, c);
      PiecesIgnoreTrim(shorter);
    } else {
      TrimmedUnchanged(raw);
    }
  }

  lemma LeadingSpace(s: string, c: char)
    requires IsSpace(c)
    ensures Pieces([c] + s) == Pieces(s)
  {
    var rest := Split(s, ' ');
    assert ([c] + s)[1..] == s;
    if c == ' ' {
      assert Trims([""] + rest) == [""] + Trims(rest);
    } else {
      TrimIgnoresOuterSpace(rest[0], c);
      assert Trims(Prepend(c, rest)) == Trims(rest);
    }
  }

  lemma TrailingSpace(s: string, c: char)
    requires IsSpace(c)
    ensures Pieces(s + [c]) == Pieces(s)
  {
    var parts := Split(s, ' ');
    if c == ' ' {
      SplitAt(s, "", ' ');
      assert s + [' '] + "" == s + [c];
      assert Trims(parts + [""]) == Trims(parts) + [""];
      FilterAppend(IsNonempty, Trims(parts), [""]);
    } else {
      SplitTrailing(s, c);
      var last := parts[|parts| - 1];
      TrimIgnoresOuterSpace(last, c);
      assert Trims(AppendToLast(parts, c)) == Trims(parts);
    }
  }

  /** Puts `c` behind the last part. */
  function AppendToLast(parts: seq<string>, c: char): (r: seq<string>)
    requires parts != []
    ensures |r| == |parts|
  {
    parts[..|parts| - 1] + [parts[|parts| - 1] + [c]]
  }

  lemma PrependAppendToLast(a: char, parts: seq<string>, c: char)
    requires parts != []
    ensures Prepend(a, AppendToLast(parts, c)) == AppendToLast(Prepend(a, parts), c)
  {
    assert |parts| == 1 ==> [a] + (parts[0] + [c]) == ([a] + parts[0]) + [c];
  }

  lemma {:induction false} SplitTrailing(s: string, c: char)
    requires c != ' '
    ensures Split(s + [c], ' ') == AppendToLast(Split(s, ' '), c)
  {
    if s == "" {
      assert s + [c] == [c] && [c][1..] == "";
      assert [c] + "" == [c] == "" + [c];
      assert AppendToLast([""], c) == [[c]] && Prepend(c, [""]) == [[c]];
    } else {
      hide Prepend, AppendToLast;
      var rest := Split(s[1..], ' ');
      SplitTrailing(s[1..], c);
      assert (s + [c])[1..] == s[1..] + [c] && (s + [c])[0] == s[0];
      PrependAppendToLast(s[0], rest, c);
      AppendToLastBehind(rest, c);
    }
  }

  lemma AppendToLastBehind(parts: seq<string>, c: char)
    requires parts != []
    ensures [""] + AppendToLast(parts, c) == AppendToLast([""] + parts, c)
  {
  }

  // ---- The mapper ----

  type Claims = map<string, string>

  function RequireStringClaim(claims: Claims, key: string): Result<string, FailureClass>
  {
    if key !in claims then Err(MissingClaim)
    else if Blank(claims[key]) then Err(MalformedClaim)
    else Ok(TrimSpace(claims[key]))
  }

  function OnBehalfOf(cfg: MapperConfig, claims: Claims): Result<string, FailureClass>
  {
    if cfg.onBehalfOfClaim == "" || cfg.onBehalfOfClaim !in claims then Ok("")
    else if Blank(claims[cfg.onBehalfOfClaim]) then Err(MalformedClaim)
    else Ok(TrimSpace(claims[cfg.onBehalfOfClaim]))
  }

  function Map(cfg: MapperConfig, claims: Claims): Result<MappedIdentity, FailureClass>
  {
    var agentId := RequireStringClaim(claims, cfg.agentIdClaim);
    if agentId.Err? then Err(agentId.error)
    else
      var onBehalfOf := OnBehalfOf(cfg, claims);
      if onBehalfOf.Err? then Err(onBehalfOf.error)
      else
        var rawRoles := RequireStringClaim(claims, cfg.rolesClaim);
        if rawRoles.Err? then Err(rawRoles.error)
        else
          var roles := Roles(rawRoles.value);
          if roles == [] then Err(MissingRoles)
          else if onBehalfOf.value != "" && onBehalfOf.value == agentId.value then Err(AmbiguousIdentity)
          else Ok(MappedIdentity(agentId.value, onBehalfOf.value, roles))
  }

  class Mapper {
    const cfg: MapperConfig

    constructor (cfg: MapperConfig)
      ensures this.cfg == cfg
    {
      this.cfg := cfg;
    }

    method MapClaims(claims: Claims) returns (r: Result<MappedIdentity, FailureClass>)
      ensures r == Map(cfg, claims)
    {
      hide Roles, TrimSpace;
      var agentId := RequireStringClaim(claims, cfg.agentIdClaim);
      if agentId.Err? { return Err(agentId.error); }
      var onBehalfOf := "";
      if cfg.onBehalfOfClaim != "" {
        if cfg.onBehalfOfClaim in claims {
          var trimmed := TrimSpace(claims[cfg.onBehalfOfClaim]);
          if trimmed == "" { return Err(MalformedClaim); }
          onBehalfOf := trimmed;
        }
      }
      var rawRoles := RequireStringClaim(claims, cfg.rolesClaim);
      if rawRoles.Err? { return Err(rawRoles.error); }
      var roles := SplitRoles(rawRoles.value);
      if |roles| == 0 { return Err(MissingRoles); }
      if onBehalfOf != "" && onBehalfOf == agentId.value { return Err(AmbiguousIdentity); }
      r := Ok(MappedIdentity(agentId.value, onBehalfOf, roles));
    }
  }

  /** Whom claims stand for: the trimmed agent, the trimmed principal it acts for, if that claim is
      configured and present, and the normal form of the roles. */
  ghost predicate StandsFor(cfg: MapperConfig, claims: Claims, agentId: string, onBehalfOf: string, roles: seq<string>) {
    && cfg.agentIdClaim in claims && cfg.rolesClaim in claims
    && agentId == TrimSpace(claims[cfg.agentIdClaim]) && agentId != ""
    && onBehalfOf == (if cfg.onBehalfOfClaim != "" && cfg.onBehalfOfClaim in claims then TrimSpace(claims[cfg.onBehalfOfClaim]) else "")
    && Distinct(roles) && roles != [] && (forall r :: r in roles <==> IsPieceOf(r, claims[cfg.rolesClaim]))
    && roles == FirstOccurrences(Pieces(claims[cfg.rolesClaim]))
  }

  lemma MappedExactly(cfg: MapperConfig, claims: Claims)
    ensures Map(cfg, claims).Ok? ==>
      var id := Map(cfg, claims).value; StandsFor(cfg, claims, id.agentId, id.onBehalfOf, id.roles)
  {
    if Map(cfg, claims).Ok? {
      PiecesIgnoreTrim(claims[cfg.rolesClaim]);
      RolesNormalForm(claims[cfg.rolesClaim]);
      hide TrimSpace, Pieces, FirstOccurrences, IsPieceOf;
    }
  }

  /** Why claims are not mapped, exactly: the first thing that is wrong with them. */
  lemma MapFailsExactly(cfg: MapperConfig, claims: Claims)
    requires Map(cfg, claims).Err?
    ensures var asked := cfg.onBehalfOfClaim != "" && cfg.onBehalfOfClaim in claims;
      Map(cfg, claims).error ==
        if cfg.agentIdClaim !in claims then MissingClaim
        else if Blank(claims[cfg.agentIdClaim]) then MalformedClaim
        else if asked && Blank(claims[cfg.onBehalfOfClaim]) then MalformedClaim
        else if cfg.rolesClaim !in claims then MissingClaim
        else if Blank(claims[cfg.rolesClaim]) then MalformedClaim
        else AmbiguousIdentity
  {
    MapOutcome(cfg, claims);
    if cfg.rolesClaim in claims && !Blank(claims[cfg.rolesClaim]) {
      TrimSpaceFacts(claims[cfg.rolesClaim]);
      NonblankHasRole(TrimSpace(claims[cfg.rolesClaim]));
    }
    hide Roles;
  }

  /** A mapped identity is usable as it stands: the decision core's own checks cannot fail on it. */
  lemma MappedIdentityUsable(cfg: MapperConfig, claims: Claims)
    requires Map(cfg, claims).Ok?
    ensures var id := Map(cfg, claims).value;
      && id.agentId != "" && Trimmed(id.agentId) && Trimmed(id.onBehalfOf)
      && id.roles != [] && Distinct(id.roles) && (forall r :: r in id.roles ==> IsRole(r))
      && (id.onBehalfOf != "" ==> id.onBehalfOf != id.agentId)
  {
    TrimSpaceFacts(claims[cfg.agentIdClaim]);
    RolesNormalForm(RequireStringClaim(claims, cfg.rolesClaim).value);
    if cfg.onBehalfOfClaim != "" && cfg.onBehalfOfClaim in claims {
      TrimSpaceFacts(claims[cfg.onBehalfOfClaim]);
    }
  }

  /** Mapping never reports missing roles: a roles claim that is not blank has a role. */
  lemma NonblankHasRole(raw: string)
    requires !Blank(raw)
    ensures Roles(raw) != []
  {
    var t := TrimSpace(raw);
    TrimSpaceFacts(raw);
    PiecesIgnoreTrim(raw);
    var parts := Split(t, ' ');
    FirstCharInFirstPiece(t);
    LeftOfNonspace(parts[0]);
    KeptByFilter(Trims(parts), 0);
    FirstOccurrencesFacts(Pieces(t));
  }

  lemma FirstCharInFirstPiece(s: string)
    requires s != "" && s[0] != ' '
    ensures Split(s, ' ')[0] != "" && Split(s, ' ')[0][0] == s[0]
  {
  }

  lemma LeftOfNonspace(s: string)
    requires s != "" && !IsSpace(s[0])
    ensures TrimSpace(s) != ""
  {
    TrimRightFacts(s);
  }

  /** When the claims are mapped, the failure classes are exactly the documented ones; the
      missing-roles class cannot occur because a blank roles claim is already malformed. */
  lemma MapOutcome(cfg: MapperConfig, claims: Claims)
    ensures Map(cfg, claims) != Err(MissingRoles)
    ensures Map(cfg, claims).Ok? <==>
      && cfg.agentIdClaim in claims && !Blank(claims[cfg.agentIdClaim])
      && cfg.rolesClaim in claims && !Blank(claims[cfg.rolesClaim])
      && (cfg.onBehalfOfClaim != "" && cfg.onBehalfOfClaim in claims ==>
            !Blank(claims[cfg.onBehalfOfClaim])
            && TrimSpace(claims[cfg.onBehalfOfClaim]) != TrimSpace(claims[cfg.agentIdClaim]))
  {
    if cfg.rolesClaim in claims && !Blank(claims[cfg.rolesClaim]) {
      TrimSpaceFacts(claims[cfg.rolesClaim]);
      NonblankHasRole(TrimSpace(claims[cfg.rolesClaim]));
    }
  }

  // ---- Claims as the adapter reads them ----

  datatype ClaimValue =
    | Null
    | Text(text: string)
    | Number(number: real)
    | Flag(flag: bool)
    | List(items: seq<ClaimValue>)
    | Struct(fields: map<string, ClaimValue>)

  /** The string form of a claim; `number` renders a floating-point value. */
  function ClaimToString(number: real -> string, v: ClaimValue): string
  {
    match v
    case Text(t) => t
    case Number(n) => number(n)
    case Flag(b) => if b then "true" else "false"
    case List(items) => Join(NonemptyParts(number, items), ' ')
    case Null => ""
    case Struct(_) => ""
  }

  function NonemptyParts(number: real -> string, items: seq<ClaimValue>): seq<string>
  {
    if items == [] then []
    else
      var s := ClaimToString(number, items[0]);
      (if s != "" then [s] else []) + NonemptyParts(number, items[1..])
  }

  lemma {:induction false} PartsAppend(number: real -> string, items: seq<ClaimValue>, v: ClaimValue)
    ensures var s := ClaimToString(number, v);
      NonemptyParts(number, items + [v]) == NonemptyParts(number, items) + if s != "" then [s] else []
  {
    hide ClaimToString;
    if items == [] {
      assert [v][1..] == [];
    } else {
      assert (items + [v])[1..] == items[1..] + [v];
      PartsAppend(number, items[1..], v);
    }
  }

  method ValueToString(number: real -> string, v: ClaimValue) returns (s: string)
    ensures s == ClaimToString(number, v)
    decreases v
  {
    match v
    case Text(t) => s := t;
    case Number(n) => s := number(n);
    case Flag(b) => s := if b then "true" else "false";
    case List(items) =>
      var parts := [];
      for i := 0 to |items|
        invariant parts == NonemptyParts(number, items[..i])
      {
        var part := ValueToString(number, items[i]);
        PartsAppend(number, items[..i], items[i]);
        assert items[..i + 1] == items[..i] + [items[i]];
        if part != "" { parts := parts + [part]; }
      }
      assert items[..|items|] == items;
      s := Join(parts, ' ');
    case Null => s := "";
    case Struct(_) => s := "";
  }

  /** The pieces of every list element, in order. */
  function ElementPieces(number: real -> string, items: seq<ClaimValue>): seq<string>
  {
    if items == [] then [] else Pieces(ClaimToString(number, items[0])) + ElementPieces(number, items[1..])
  }

  lemma {:induction false} PartsPieces(number: real -> string, items: seq<ClaimValue>)
    ensures AllPieces(NonemptyParts(number, items)) == ElementPieces(number, items)
  {
    PiecesOfJoinedRoles([]);
    hide Pieces, ClaimToString;
    if items != [] {
      PartsPieces(number, items[1..]);
      var s := ClaimToString(number, items[0]);
      var rest := NonemptyParts(number, items[1..]);
      assert ([s] + rest)[1..] == rest;
      assert AllPieces([s] + rest) == Pieces(s) + AllPieces(rest);
      assert [] + rest == rest;
    }
  }

  /** A list-valued roles claim maps to the normal form of all its elements in order. */
  lemma ListRolesNormalise(number: real -> string, items: seq<ClaimValue>)
    ensures Roles(TrimSpace(ClaimToString(number, List(items)))) == FirstOccurrences(ElementPieces(number, items))
  {
    var joined := ClaimToString(number, List(items));
    PiecesIgnoreTrim(joined);
    PiecesOfJoin(NonemptyParts(number, items));
    PartsPieces(number, items);
  }
}
