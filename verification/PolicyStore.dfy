/** The versioned policy store. Every call takes a fault bit: a failing call changes nothing. */
module PolicyStore {
  import opened Prelude

  datatype State = Unset | Candidate | Active | Historical

  datatype PolicyRecord = PolicyRecord(
    workspaceId: string, version: string, content: string, state: State,
    description: string, createdAt: int, activatedAt: Option<int>)

  datatype Error = NotFound | NoActivePolicy | AlreadyExists | InvalidStateTransition | Backend

  type Versions = map<string, PolicyRecord>

  type Data = map<string, Versions>

  /** The record as it is stored: version, state and creation time filled in when missing. */
  function Completed(hash: string -> string, p: PolicyRecord, now: int): PolicyRecord
  {
    p.(version := if p.version == "" then hash(p.content) else p.version,
       state := if p.state == Unset then Candidate else p.state,
       createdAt := if p.createdAt == 0 then now else p.createdAt)
  }

  function Versioned(d: Data, ws: string): Versions
  {
    if ws in d then d[ws] else map[]
  }

  function Create(hash: string -> string, d: Data, p: PolicyRecord, now: int, fault: bool): (Data, Option<Error>)
  {
    if fault then (d, Some(Backend))
    else if p.workspaceId == "" then (d, Some(InvalidStateTransition))
    else
      var q, ws := Completed(hash, p, now), Versioned(d, p.workspaceId);
      if q.version in ws then (d, Some(AlreadyExists))
      else (d[p.workspaceId := ws[q.version := q]], None)
  }

  function Get(d: Data, ws: string, version: string, fault: bool): Result<PolicyRecord, Error>
  {
    if fault then Err(Backend)
    else if ws !in d || version !in d[ws] then Err(NotFound)
    else Ok(d[ws][version])
  }

  ghost predicate IsActive(d: Data, ws: string, version: string) {
    ws in d && version in d[ws] && d[ws][version].state == Active
  }

  /** The version active in the workspace, or the empty string. */
  ghost function ActiveVersion(d: Data, ws: string): (v: string)
    ensures (exists w :: IsActive(d, ws, w)) ==> IsActive(d, ws, v)
    ensures (forall w :: !IsActive(d, ws, w)) ==> v == ""
  {
    if exists w :: IsActive(d, ws, w) then var v :| IsActive(d, ws, v); v else ""
  }

  /** Every active version becomes historical, then `version` becomes active. */
  function Promoted(vs: Versions, version: string, now: int): Versions
    requires version in vs
  {
    map v | v in vs ::
      if v == version then vs[v].(state := Active, activatedAt := Some(now))
      else if vs[v].state == Active then vs[v].(state := Historical)
      else vs[v]
  }

  function Activate(d: Data, ws: string, version: string, now: int, fault: bool): (Data, Option<Error>)
  {
    if fault then (d, Some(Backend))
    else if ws !in d || version !in d[ws] then (d, Some(NotFound))
    else (d[ws := Promoted(d[ws], version, now)], None)
  }

  class MemoryStore {
    const hash: string -> string
    var data: Data

    constructor (hash: string -> string)
      ensures this.hash == hash && data == map[]
    {
      this.hash, data := hash, map[];
    }

    method CreatePolicy(p: PolicyRecord, now: int, fault: bool) returns (err: Option<Error>)
      modifies this
      ensures (data, err) == Create(hash, old(data), p, now, fault)
    {
      if fault { return Some(Backend); }
      if p.workspaceId == "" { return Some(InvalidStateTransition); }
      var q := p;
      if q.version == "" { q := q.(version := hash(q.content)); }
      if q.state == Unset { q := q.(state := Candidate); }
      if q.createdAt == 0 { q := q.(createdAt := now); }
      var ws := map[];
      if p.workspaceId in data { ws := data[p.workspaceId]; }
      if q.version in ws { return Some(AlreadyExists); }
      data := data[p.workspaceId := ws[q.version := q]];
      return None;
    }

    method GetPolicy(ws: string, version: string, fault: bool) returns (r: Result<PolicyRecord, Error>)
      ensures r == Get(data, ws, version, fault)
    {
      if fault { return Err(Backend); }
      if ws !in data { return Err(NotFound); }
      if version !in data[ws] { return Err(NotFound); }
      return Ok(data[ws][version]);
    }

    /** Some active record of the workspace; the map is walked in no particular order. */
    method GetActivePolicy(ws: string, fault: bool) returns (r: Result<PolicyRecord, Error>)
      ensures fault ==> r == Err(Backend)
      ensures !fault && r.Ok? ==> exists v :: IsActive(data, ws, v) && r.value == data[ws][v]
      ensures !fault && r.Err? ==> r.error == NoActivePolicy && forall v :: !IsActive(data, ws, v)
    {
      if fault { return Err(Backend); }
      if ws !in data { return Err(NoActivePolicy); }
      var todo := data[ws].Keys;
      while todo != {}
        invariant todo <= data[ws].Keys
        invariant forall v :: v in data[ws] && v !in todo ==> data[ws][v].state != Active
      {
        var v :| v in todo;
        if data[ws][v].state == Active {
          assert IsActive(data, ws, v);
          return Ok(data[ws][v]);
        }
        todo := todo - {v};
      }
      return Err(NoActivePolicy);
    }

    /** Makes `version` the active one and returns the version active before, if any. */
    method ActivatePolicy(ws: string, version: string, now: int, fault: bool) returns (previous: string, err: Option<Error>)
      modifies this
      ensures (data, err) == Activate(old(data), ws, version, now, fault)
      ensures err.None? ==>
        IsActive(old(data), ws, previous) || (previous == "" && forall v :: !IsActive(old(data), ws, v))
    {
      previous := "";
      if fault { err := Some(Backend); return; }
      if ws !in data { err := Some(NotFound); return; }
      var vs := data[ws];
      if version !in vs { err := Some(NotFound); return; }
      var target := vs[version];
      var todo := vs.Keys;
      while todo != {}
        invariant todo <= vs.Keys && vs.Keys == old(data)[ws].Keys
        invariant forall v :: v in vs ==>
          vs[v] == if v !in todo && old(data)[ws][v].state == Active then old(data)[ws][v].(state := Historical) else old(data)[ws][v]
        invariant IsActive(old(data), ws, previous)
          || (previous == "" && forall v :: v in vs && v !in todo ==> !IsActive(old(data), ws, v))
      {
        var v :| v in todo;
        if vs[v].state == Active {
          previous := v;
          vs := vs[v := vs[v].(state := Historical)];
        }
        todo := todo - {v};
      }
      target := target.(state := Active, activatedAt := Some(now));
      data := data[ws := vs[version := target]];
      assert data[ws] == Promoted(old(data)[ws], version, now);
      err := None;
    }
  }

  // ---- What the calls come to ----

  /** A creation stores the record as given, under its version or, if it has none, its content hash, with
      state and creation time filled in when missing; it is refused exactly when the call fails, the
      workspace has no name or the version exists. */
  lemma CreateExactly(hash: string -> string, d: Data, p: PolicyRecord, now: int, fault: bool)
    ensures var (e, err) := Create(hash, d, p, now, fault);
      var ws, version := p.workspaceId, if p.version == "" then hash(p.content) else p.version;
      var taken := ws in d && version in d[ws];
      && err == (if fault then Some(Backend) else if ws == "" then Some(InvalidStateTransition)
                 else if taken then Some(AlreadyExists) else None)
      && (err.Some? ==> e == d)
      && (err.None? ==>
            && (forall w, v :: StoredUnder(e, w, v) == if w == ws && v == version then
                  Some(PolicyRecord(ws, version, p.content, if p.state == Unset then Candidate else p.state, p.description,
                                    if p.createdAt == 0 then now else p.createdAt, p.activatedAt))
                  else StoredUnder(d, w, v)))
  {
  }

  function StoredUnder(d: Data, ws: string, version: string): Option<PolicyRecord>
  {
    if ws in d && version in d[ws] then Some(d[ws][version]) else None
  }

  /** Activating succeeds exactly when the call does and the version is stored; then that version is active
      from now, the versions that were active are historical, and nothing else changes. */
  lemma ActivateExactly(d: Data, ws: string, version: string, now: int, fault: bool)
    ensures var (e, err) := Activate(d, ws, version, now, fault);
      && err == (if fault then Some(Backend) else if StoredUnder(d, ws, version).None? then Some(NotFound) else None)
      && (err.Some? ==> e == d)
      && (err.None? ==> forall w, v :: ActivatedFrom(StoredUnder(d, w, v), StoredUnder(e, w, v), w == ws, v == version, now))
  {
  }

  /** How one stored record changes when a version of the workspace is activated. */
  ghost predicate ActivatedFrom(before: Option<PolicyRecord>, after: Option<PolicyRecord>, here: bool, target: bool, now: int) {
    if before.None? then after.None?
    else if here && target then after == Some(before.value.(state := Active, activatedAt := Some(now)))
    else if here && before.value.state == Active then after == Some(before.value.(state := Historical))
    else after == before
  }

  /** At most one version of each workspace is active, and records sit under their own names. */
  ghost predicate Consistent(d: Data) {
    && WellNamed(d)
    && (forall ws, v, w :: IsActive(d, ws, v) && IsActive(d, ws, w) ==> v == w)
  }

  /** Nothing stored disappears and no stored content changes. */
  ghost predicate ContentKept(d: Data, e: Data) {
    forall ws, v :: ws in d && v in d[ws] ==> ws in e && v in e[ws] && e[ws][v].content == d[ws][v].content
  }

  /** What creating does: stored content is kept, and the set of active versions grows by the new one
      if it was stored as active. */
  lemma CreateFacts(hash: string -> string, d: Data, p: PolicyRecord, now: int, fault: bool)
    ensures var (e, err) := Create(hash, d, p, now, fault);
      && ContentKept(d, e)
      && (err.Some? ==> e == d)
      && (forall ws, v :: IsActive(e, ws, v) <==>
            IsActive(d, ws, v) || (err.None? && p.state == Active && ws == p.workspaceId && v == Completed(hash, p, now).version))
  {
    var e := Create(hash, d, p, now, fault).0;
  }

  /** Creating keeps the store consistent exactly when it does not add an active record beside another
      one: the store does not refuse that. */
  lemma CreateKeepsConsistency(hash: string -> string, d: Data, p: PolicyRecord, now: int, fault: bool)
    requires Consistent(d) && hash(p.content) != ""
    ensures var (e, err) := Create(hash, d, p, now, fault);
      && ContentKept(d, e)
      && (Consistent(e) <==> err.Some? || p.state != Active || forall v :: !IsActive(d, p.workspaceId, v))
      && (p.state != Active ==> forall ws, v :: IsActive(e, ws, v) <==> IsActive(d, ws, v))
  {
    CreateFacts(hash, d, p, now, fault);
    NamesKept(hash, d, p, now, fault);
    var (e, err) := Create(hash, d, p, now, fault);
    hide Create, ContentKept;
    if err.None? && p.state == Active {
      var version := Completed(hash, p, now).version;
      assert IsActive(e, p.workspaceId, version);
      forall v | IsActive(d, p.workspaceId, v) ensures IsActive(e, p.workspaceId, v) && v != version {
        CreatedIsNew(hash, d, p, now, fault);
      }
    }
  }

  ghost predicate WellNamed(d: Data) {
    forall ws, v :: ws in d && v in d[ws] ==> d[ws][v].workspaceId == ws && d[ws][v].version == v && v != ""
  }

  lemma NamesKept(hash: string -> string, d: Data, p: PolicyRecord, now: int, fault: bool)
    requires WellNamed(d) && hash(p.content) != ""
    ensures WellNamed(Create(hash, d, p, now, fault).0)
  {
  }

  lemma CreatedIsNew(hash: string -> string, d: Data, p: PolicyRecord, now: int, fault: bool)
    requires Create(hash, d, p, now, fault).1.None?
    ensures !IsActive(d, p.workspaceId, Completed(hash, p, now).version)
  {
  }

  lemma ActivateKeepsConsistency(d: Data, ws: string, version: string, now: int, fault: bool)
    requires Consistent(d)
    ensures var (e, err) := Activate(d, ws, version, now, fault);
      && Consistent(e) && ContentKept(d, e) && ContentKept(e, d)
      && (err.None? ==> forall v :: IsActive(e, ws, v) <==> v == version)
      && (forall other, v :: other != ws || err.Some? ==> (IsActive(e, other, v) <==> IsActive(d, other, v)))
  {
    var (e, err) := Activate(d, ws, version, now, fault);
    assert err.None? ==> forall v :: IsActive(e, ws, v) <==> v == version;
    assert forall other, v :: other != ws ==> (IsActive(e, other, v) <==> IsActive(d, other, v));
  }
}
