/** The policy lifecycle manager: a store of versioned policies and, per workspace, a cached engine
    with the version it was activated under. */
module PolicyManager {
  import opened Prelude
  import S = PolicyStore

  /** The policy language as this component sees it: which sources parse, and their content hash. */
  datatype Language = Language(parses: string -> bool, hash: string -> string) {
    ghost predicate Valid() { forall source: string :: hash(source) != "" }
  }

  /** A loaded policy; its version is the hash of its source. */
  datatype Engine = Engine(source: string)

  datatype Action = Created | Activated | RolledBack

  datatype Mutation = Mutation(workspaceId: string, action: Action, previousVersion: string, newVersion: string)

  datatype Error = InvalidPolicy | Store(error: S.Error)

  datatype State = State(data: S.Data, engines: map<string, Engine>, versions: map<string, string>)

  /** Which store calls of one operation fail. */
  datatype Faults = Faults(read: bool, write: bool, readBack: bool)

  // ---- Operations on values ----

  /** Creating a candidate; an empty `version` stands for the content hash. The mutation event is
      absent when nothing was stored. */
  function Create(l: Language, m: State, ws: string, version: string, content: string, description: string, now: int, f: Faults)
    : (State, Option<Mutation>)
  {
    if !l.parses(content) then (m, None)
    else
      var p := S.PolicyRecord(ws, version, content, S.Candidate, description, 0, None);
      var (data, err) := S.Create(l.hash, m.data, p, now, f.write);
      (m.(data := data), if err.None? then Some(Mutation(ws, Created, "", version)) else None)
  }

  /** What the caller of a creation gets: the new candidate, or, when the version exists already, the
      record stored under it, whatever its content. */
  function CreateAnswer(l: Language, m: State, ws: string, version: string, content: string, description: string, now: int, f: Faults)
    : Result<S.PolicyRecord, Error>
  {
    if !l.parses(content) then Err(InvalidPolicy)
    else
      var p := S.PolicyRecord(ws, version, content, S.Candidate, description, 0, None);
      match S.Create(l.hash, m.data, p, now, f.write).1
      case None => Ok(p)
      case Some(AlreadyExists) =>
        (match S.Get(m.data, ws, version, f.readBack)
         case Ok(stored) => Ok(stored)
         case Err(e) => Err(Store(e)))
      case Some(e) => Err(Store(e))
  }

  /** Activating (or rolling back to) a stored version: read, parse, write, then swap the cache. */
  ghost function Switch(l: Language, m: State, ws: string, version: string, action: Action, now: int, f: Faults)
    : (State, Option<Mutation>)
  {
    var rec := S.Get(m.data, ws, version, f.read);
    if rec.Err? || !l.parses(rec.value.content) then (m, None)
    else
      var (data, err) := S.Activate(m.data, ws, version, now, f.write);
      if err.Some? then (m.(data := data), None)
      else (State(data, m.engines[ws := Engine(rec.value.content)], m.versions[ws := version]),
            Some(Mutation(ws, action, S.ActiveVersion(m.data, ws), version)))
  }

  function ActiveEngine(m: State, ws: string): Option<Engine> { if ws in m.engines then Some(m.engines[ws]) else None }

  function Provenance(l: Language, m: State, ws: string): Option<(string, string)>
  {
    if ws !in m.engines then None
    else
      var hash := l.hash(m.engines[ws].source);
      var version := if ws in m.versions then m.versions[ws] else "";
      Some((if version == "" then hash else version, hash))
  }

  /** The cache after reading the active policy of `ws`. */
  ghost function LoadedOne(m: State, ws: string): State
  {
    if exists v :: S.IsActive(m.data, ws, v) then
      var v := S.ActiveVersion(m.data, ws);
      m.(engines := m.engines[ws := Engine(m.data[ws][v].content)], versions := m.versions[ws := v])
    else m
  }

  /** The cache after reading the active policies of `workspaces`. */
  ghost function Loaded(m: State, workspaces: seq<string>): State
  {
    if workspaces == [] then m
    else LoadedOne(Loaded(m, workspaces[..|workspaces| - 1]), workspaces[|workspaces| - 1])
  }

  /** How many of the reads come before the first failing one. */
  function Before(faults: seq<bool>): (n: nat)
    ensures n <= |faults| && (n < |faults| ==> faults[n]) && forall i :: 0 <= i < n ==> !faults[i]
  {
    if faults == [] || faults[0] then 0 else 1 + Before(faults[1..])
  }

  lemma NothingBefore(faults: seq<bool>)
    ensures 0 <= Before(faults) <= |faults|
  {
  }

  lemma OneMoreBefore(faults: seq<bool>, i: nat)
    requires i < |faults| && i <= Before(faults)
    ensures if faults[i] then Before(faults) == i else i < Before(faults)
  {
  }

  class Manager {
    const lang: Language
    const store: S.MemoryStore
    var engines: map<string, Engine>
    var activeVersions: map<string, string>

    function Contents(): State reads this, store { State(store.data, engines, activeVersions) }

    ghost predicate Valid() reads this, store { store.hash == lang.hash && Agrees(lang, Contents()) }

    constructor (lang: Language, store: S.MemoryStore)
      ensures this.lang == lang && this.store == store && engines == map[] && activeVersions == map[]
    {
      this.lang, this.store, engines, activeVersions := lang, store, map[], map[];
    }

    method CreateCandidateWithVersion(ws: string, version: string, content: string, description: string, now: int, f: Faults)
      returns (r: Result<S.PolicyRecord, Error>, event: Option<Mutation>)
      requires store.hash == lang.hash
      modifies this, store
      ensures (Contents(), event) == Create(lang, old(Contents()), ws, version, content, description, now, f)
      ensures r == CreateAnswer(lang, old(Contents()), ws, version, content, description, now, f)
    {
      event := None;
      if !lang.parses(content) { r := Err(InvalidPolicy); return; }
      var rec := S.PolicyRecord(ws, version, content, S.Candidate, description, 0, None);
      var err := store.CreatePolicy(rec, now, f.write);
      if err.Some? {
        if err.value == S.AlreadyExists {
          var existing := store.GetPolicy(ws, version, f.readBack);
          r := match existing case Ok(p) => Ok(p) case Err(e) => Err(Store(e));
        } else {
          r := Err(Store(err.value));
        }
        return;
      }
      event := Some(Mutation(ws, Created, "", version));
      r := Ok(rec);
    }

    /** A candidate under its content hash. */
    method CreateCandidate(ws: string, content: string, description: string, now: int, f: Faults)
      returns (r: Result<S.PolicyRecord, Error>, event: Option<Mutation>)
      requires store.hash == lang.hash
      modifies this, store
      ensures (Contents(), event) == Create(lang, old(Contents()), ws, lang.hash(content), content, description, now, f)
      ensures r == CreateAnswer(lang, old(Contents()), ws, lang.hash(content), content, description, now, f)
    {
      r, event := CreateCandidateWithVersion(ws, lang.hash(content), content, description, now, f);
    }

    method Activate(ws: string, version: string, now: int, f: Faults)
      returns (r: Result<S.PolicyRecord, Error>, event: Option<Mutation>)
      requires Valid()
      modifies this, store
      ensures (Contents(), event) == Switch(lang, old(Contents()), ws, version, Activated, now, f)
      ensures Valid()
      ensures event.Some? && !f.readBack ==> r == Ok(store.data[ws][version])
      ensures event.None? ==> r.Err?
    {
      r, event := SwitchTo(ws, version, Activated, now, f);
    }

    method Rollback(ws: string, target: string, now: int, f: Faults)
      returns (r: Result<S.PolicyRecord, Error>, event: Option<Mutation>)
      requires Valid()
      modifies this, store
      ensures (Contents(), event) == Switch(lang, old(Contents()), ws, target, RolledBack, now, f)
      ensures Valid()
      ensures event.Some? && !f.readBack ==> r == Ok(store.data[ws][target])
      ensures event.None? ==> r.Err?
    {
      r, event := SwitchTo(ws, target, RolledBack, now, f);
    }

    /** The sequence activation and rollback share. */
    method SwitchTo(ws: string, version: string, action: Action, now: int, f: Faults)
      returns (r: Result<S.PolicyRecord, Error>, event: Option<Mutation>)
      requires Valid()
      modifies this, store
      ensures (Contents(), event) == Switch(lang, old(Contents()), ws, version, action, now, f)
      ensures Valid()
      ensures event.Some? && !f.readBack ==> r == Ok(store.data[ws][version])
      ensures event.None? ==> r.Err?
    {
      event := None;
      SwitchKeepsAgreement(lang, Contents(), ws, version, action, now, f);
      ghost var before := Contents();
      var rec := store.GetPolicy(ws, version, f.read);
      if rec.Err? { r := Err(Store(rec.error)); return; }
      if !lang.parses(rec.value.content) { r := Err(InvalidPolicy); return; }
      var eng := Engine(rec.value.content);
      var previous, err := store.ActivatePolicy(ws, version, now, f.write);
      if err.Some? { r := Err(Store(err.value)); return; }
      engines := engines[ws := eng];
      activeVersions := activeVersions[ws := version];
      event := Some(Mutation(ws, action, previous, version));
      S.ActivateKeepsConsistency(before.data, ws, version, now, f.write);
      var active := store.GetActivePolicy(ws, f.readBack);
      r := match active case Ok(p) => Ok(p) case Err(e) => Err(Store(e));
    }

    /** Hydrates the cache; stops at the first store error or unparsable policy. `faults[i]` says
        whether reading the active policy of `workspaces[i]` fails. */
    method LoadActivePolicies(workspaces: seq<string>, faults: seq<bool>) returns (err: Option<Error>)
      requires Valid() && |faults| == |workspaces|
      modifies this
      ensures Valid() && Contents() == Loaded(old(Contents()), workspaces[..Before(faults)])
      ensures err.None? <==> Before(faults) == |faults|
    {
      hide Agrees, Before, LoadedOne;
      err := None;
      NothingBefore(faults);
      for i := 0 to |workspaces|
        invariant Valid() && Contents() == Loaded(old(Contents()), workspaces[..i])
        invariant i <= Before(faults) && err.None?
      {
        assert workspaces[..i + 1][..i] == workspaces[..i];
        OneMoreBefore(faults, i);
        err := LoadActivePolicy(workspaces[i], faults[i]);
        if err.Some? { return; }
      }
    }

    /** The body of the hydration loop. */
    method LoadActivePolicy(ws: string, fault: bool) returns (err: Option<Error>)
      requires Valid()
      modifies this
      ensures Valid() && Contents() == if fault then old(Contents()) else LoadedOne(old(Contents()), ws)
      ensures err.Some? <==> fault
    {
      var rec := store.GetActivePolicy(ws, fault);
      if rec.Err? {
        if rec.error == S.NoActivePolicy { return None; }
        return Some(Store(rec.error));
      }
      if !lang.parses(rec.value.content) { return Some(InvalidPolicy); }
      engines := engines[ws := Engine(rec.value.content)];
      activeVersions := activeVersions[ws := rec.value.version];
      err := None;
    }

    method GetActiveEngine(ws: string) returns (r: Option<Engine>)
      ensures r == ActiveEngine(Contents(), ws)
    {
      if ws !in engines { return None; }
      r := Some(engines[ws]);
    }

    method GetActiveProvenance(ws: string) returns (r: Option<(string, string)>)
      ensures r == Provenance(lang, Contents(), ws)
    {
      if ws !in engines { return None; }
      var eng := engines[ws];
      var version := "";
      if ws in activeVersions { version := activeVersions[ws]; }
      if version == "" { version := lang.hash(eng.source); }
      return Some((version, lang.hash(eng.source)));
    }
  }

  // ---- Agreement ----

  /** Every cached engine and version match the workspace's unique active record. */
  ghost predicate Agrees(l: Language, m: State) {
    && S.Consistent(m.data)
    && AllParse(l, m.data)
    && m.engines.Keys == m.versions.Keys
    && (forall ws :: ws in m.engines ==>
          S.IsActive(m.data, ws, m.versions[ws]) && m.data[ws][m.versions[ws]].content == m.engines[ws].source)
  }

  ghost predicate AllParse(l: Language, d: S.Data) {
    forall ws, v :: ws in d && v in d[ws] ==> l.parses(d[ws][v].content)
  }

  lemma ParseKept(l: Language, d: S.Data, e: S.Data)
    requires AllParse(l, d) && S.ContentKept(e, d)
    ensures AllParse(l, e)
  {
  }

  lemma CreateKeepsAgreement(l: Language, m: State, ws: string, version: string, content: string, description: string, now: int, f: Faults)
    requires l.Valid() && Agrees(l, m)
    ensures var next := Create(l, m, ws, version, content, description, now, f).0;
      Agrees(l, next) && S.ContentKept(m.data, next.data)
  {
    if l.parses(content) {
      var p := S.PolicyRecord(ws, version, content, S.Candidate, description, 0, None);
      S.CreateKeepsConsistency(l.hash, m.data, p, now, f.write);
      AgreedCache(l, m);
      var next := Create(l, m, ws, version, content, description, now, f).0;
      CreatedParses(l, m.data, p, now, f.write);
      hide Agrees, AllParse, S.Create, S.Consistent;
      AgreesByParts(l, next);
    }
  }

  lemma CreatedParses(l: Language, d: S.Data, p: S.PolicyRecord, now: int, fault: bool)
    requires AllParse(l, d) && l.parses(p.content)
    ensures AllParse(l, S.Create(l.hash, d, p, now, fault).0)
  {
  }

  /** When a creation is answered with a record, exactly: the content parses, and either it was stored,
      with a mutation event, as the record says, or the version was taken and its stored record could be
      read, whose content may be any other. */
  lemma CreateAnswered(l: Language, m: State, ws: string, version: string, content: string, description: string, now: int, f: Faults)
    requires version != ""
    ensures var r, event := CreateAnswer(l, m, ws, version, content, description, now, f),
                            Create(l, m, ws, version, content, description, now, f).1;
      && (r.Ok? <==> l.parses(content) && ws != "" && !f.write && (ws in m.data && version in m.data[ws] ==> !f.readBack))
      && (event.Some? <==> r.Ok? && !(ws in m.data && version in m.data[ws]))
      && (r.Ok? ==> r.value == if event.Some? then S.PolicyRecord(ws, version, content, S.Candidate, description, 0, None)
                               else m.data[ws][version])
  {
  }

  lemma SwitchKeepsAgreement(l: Language, m: State, ws: string, version: string, action: Action, now: int, f: Faults)
    requires Agrees(l, m)
    ensures var next := Switch(l, m, ws, version, action, now, f).0;
      Agrees(l, next) && S.ContentKept(m.data, next.data)
  {
    var rec := S.Get(m.data, ws, version, f.read);
    if rec.Ok? && l.parses(rec.value.content) && S.Activate(m.data, ws, version, now, f.write).1.None? {
      SuccessfulSwitch(l, m, ws, version, now, f);
    }
  }

  /** When an activation or rollback succeeds, exactly, and what it does: the version can be read, its
      content parses and the write succeeds; then the store has that version active and the cache its
      content, and the mutation reports the action, the version active before and the new one. Otherwise
      nothing changes and nothing is reported. */
  lemma SwitchExactly(l: Language, m: State, ws: string, version: string, action: Action, now: int, f: Faults)
    requires Agrees(l, m)
    ensures var (n, event) := Switch(l, m, ws, version, action, now, f);
      var stored := S.StoredUnder(m.data, ws, version);
      && (event.Some? <==> !f.read && !f.write && stored.Some? && l.parses(stored.value.content))
      && (event.None? ==> n == m)
      && (event.Some? ==>
            && event.value.workspaceId == ws && event.value.action == action && event.value.newVersion == version
            && (if exists v :: S.IsActive(m.data, ws, v) then S.IsActive(m.data, ws, event.value.previousVersion)
                else event.value.previousVersion == "")
            && S.IsActive(n.data, ws, version)
            && n.engines == m.engines[ws := Engine(stored.value.content)] && n.versions == m.versions[ws := version])
  {
    S.ActivateExactly(m.data, ws, version, now, f.write);
    hide S.Activate, Agrees;
    if !f.read && !f.write && S.StoredUnder(m.data, ws, version).Some? {
      var data := S.Activate(m.data, ws, version, now, f.write).0;
      assert S.ActivatedFrom(S.StoredUnder(m.data, ws, version), S.StoredUnder(data, ws, version), true, true, now);
      assert S.IsActive(data, ws, version);
    }
  }

  /** What a creation does to the manager: only a stored candidate changes the store, and the cache stays;
      it is reported exactly when it was stored. */
  lemma CreateExactly(l: Language, m: State, ws: string, version: string, content: string, description: string, now: int, f: Faults)
    requires version != ""
    ensures var (n, event) := Create(l, m, ws, version, content, description, now, f);
      var stored := l.parses(content) && !f.write && ws != "" && S.StoredUnder(m.data, ws, version).None?;
      && n.engines == m.engines && n.versions == m.versions
      && event == (if stored then Some(Mutation(ws, Created, "", version)) else None)
      && (!stored ==> n == m)
      && (stored ==> forall w, v :: S.StoredUnder(n.data, w, v) == if w == ws && v == version then
            Some(S.PolicyRecord(ws, version, content, S.Candidate, description, now, None)) else S.StoredUnder(m.data, w, v))
  {
    S.CreateExactly(l.hash, m.data, S.PolicyRecord(ws, version, content, S.Candidate, description, 0, None), now, f.write);
    hide S.Create;
  }

  lemma SuccessfulSwitch(l: Language, m: State, ws: string, version: string, now: int, f: Faults)
    requires Agrees(l, m)
    requires var rec := S.Get(m.data, ws, version, f.read); rec.Ok? && l.parses(rec.value.content)
    requires S.Activate(m.data, ws, version, now, f.write).1.None?
    ensures var data := S.Activate(m.data, ws, version, now, f.write).0;
      var next := State(data, m.engines[ws := Engine(m.data[ws][version].content)], m.versions[ws := version]);
      Agrees(l, next) && S.ContentKept(m.data, next.data)
  {
    S.ActivateKeepsConsistency(m.data, ws, version, now, f.write);
    var data := S.Activate(m.data, ws, version, now, f.write).0;
    ParseKept(l, m.data, data);
    var next := State(data, m.engines[ws := Engine(m.data[ws][version].content)], m.versions[ws := version]);
    AgreedCache(l, m);
    SwitchedCache(m, next, ws);
    assert S.IsActive(data, ws, version);
    hide S.Promoted, S.Activate, S.Consistent, AllParse, Agrees;
    assert data[ws][version].content == m.data[ws][version].content;
    AgreesByParts(l, next);
  }

  /** What agreement says about the cache. */
  lemma AgreedCache(l: Language, m: State)
    requires Agrees(l, m)
    ensures m.engines.Keys == m.versions.Keys
    ensures forall other :: other in m.engines ==>
      S.IsActive(m.data, other, m.versions[other]) && m.data[other][m.versions[other]].content == m.engines[other].source
  {
  }

  lemma AgreesByParts(l: Language, m: State)
    requires S.Consistent(m.data) && AllParse(l, m.data) && m.engines.Keys == m.versions.Keys
    requires forall ws :: ws in m.engines ==>
      S.IsActive(m.data, ws, m.versions[ws]) && m.data[ws][m.versions[ws]].content == m.engines[ws].source
    ensures Agrees(l, m)
  {
  }

  /** The cache entries of the other workspaces still match. */
  lemma SwitchedCache(m: State, next: State, ws: string)
    requires S.ContentKept(m.data, next.data)
    requires forall other, v :: other != ws ==> (S.IsActive(next.data, other, v) <==> S.IsActive(m.data, other, v))
    requires m.engines.Keys == m.versions.Keys
    requires forall other :: other in m.engines ==>
      S.IsActive(m.data, other, m.versions[other]) && m.data[other][m.versions[other]].content == m.engines[other].source
    requires ws in next.engines && ws in next.versions
    requires next.engines == m.engines[ws := next.engines[ws]] && next.versions == m.versions[ws := next.versions[ws]]
    ensures forall other :: other in next.engines && other != ws ==>
      S.IsActive(next.data, other, next.versions[other])
      && next.data[other][next.versions[other]].content == next.engines[other].source
  {
    forall other | other in next.engines && other != ws
      ensures S.IsActive(next.data, other, next.versions[other])
      ensures next.data[other][next.versions[other]].content == next.engines[other].source
    {
      assert S.IsActive(m.data, other, m.versions[other]);
    }
  }

  // ---- Runs ----

  datatype Op =
    | DoCreate(ws: string, version: string, content: string, description: string, now: int, f: Faults)
    | DoActivate(ws: string, version: string, now: int, f: Faults)
    | DoRollback(ws: string, version: string, now: int, f: Faults)
    | DoLoad(workspaces: seq<string>)
    | Restart

  ghost function ApplyOp(l: Language, m: State, op: Op): State
  {
    match op
    case DoCreate(ws, version, content, description, now, f) => Create(l, m, ws, version, content, description, now, f).0
    case DoActivate(ws, version, now, f) => Switch(l, m, ws, version, Activated, now, f).0
    case DoRollback(ws, version, now, f) => Switch(l, m, ws, version, RolledBack, now, f).0
    case DoLoad(workspaces) => Loaded(m, workspaces)
    case Restart => State(m.data, map[], map[])
  }

  ghost function Run(l: Language, ops: seq<Op>): State
  {
    if ops == [] then State(map[], map[], map[])
    else ApplyOp(l, Run(l, ops[..|ops| - 1]), ops[|ops| - 1])
  }

  lemma {:induction false} LoadKeepsAgreement(l: Language, m: State, workspaces: seq<string>)
    requires Agrees(l, m)
    ensures Agrees(l, Loaded(m, workspaces)) && Loaded(m, workspaces).data == m.data
  {
    if workspaces != [] {
      LoadKeepsAgreement(l, m, workspaces[..|workspaces| - 1]);
    }
  }

  /** After a hydration without errors a workspace it covers has a cached engine exactly when the
      store has an active policy for it. */
  lemma {:induction false} LoadIsComplete(l: Language, m: State, workspaces: seq<string>, ws: string)
    requires Agrees(l, m) && ws in workspaces
    ensures ws in Loaded(m, workspaces).engines <==> exists v :: S.IsActive(m.data, ws, v)
  {
    var before, last := workspaces[..|workspaces| - 1], workspaces[|workspaces| - 1];
    LoadKeepsAgreement(l, m, before);
    if ws != last {
      LoadIsComplete(l, m, before, ws);
    } else if ws in Loaded(m, before).engines {
      assert S.IsActive(m.data, ws, Loaded(m, before).versions[ws]);
    }
  }

  lemma OpKeepsAgreement(l: Language, m: State, op: Op)
    requires l.Valid() && Agrees(l, m)
    ensures Agrees(l, ApplyOp(l, m, op)) && S.ContentKept(m.data, ApplyOp(l, m, op).data)
  {
    match op
    case DoCreate(ws, version, content, description, now, f) =>
      CreateKeepsAgreement(l, m, ws, version, content, description, now, f);
    case DoActivate(ws, version, now, f) => SwitchKeepsAgreement(l, m, ws, version, Activated, now, f);
    case DoRollback(ws, version, now, f) => SwitchKeepsAgreement(l, m, ws, version, RolledBack, now, f);
    case DoLoad(workspaces) => LoadKeepsAgreement(l, m, workspaces);
    case Restart =>
  }

  /** In every sequential run of creations, activations, rollbacks, hydrations and restarts with
      failing store calls, at most one version per workspace is active, every cached engine and
      version match it, and what is stored under a version never changes from one point of the run
      to a later one. */
  lemma {:induction false} CacheAgreesInEveryRun(l: Language, ops: seq<Op>, earlier: nat)
    requires l.Valid() && earlier <= |ops|
    ensures Agrees(l, Run(l, ops))
    ensures S.ContentKept(Run(l, ops[..earlier]).data, Run(l, ops).data)
  {
    if ops == [] {
    } else if earlier == |ops| {
      assert ops[..earlier] == ops;
      CacheAgreesInEveryRun(l, ops[..|ops| - 1], |ops| - 1);
      OpKeepsAgreement(l, Run(l, ops[..|ops| - 1]), ops[|ops| - 1]);
    } else {
      var before := ops[..|ops| - 1];
      assert before[..earlier] == ops[..earlier];
      CacheAgreesInEveryRun(l, before, earlier);
      OpKeepsAgreement(l, Run(l, before), ops[|ops| - 1]);
    }
  }

  /** The provenance read for a workspace names its active version and the hash of the content
      stored under that version. */
  lemma ProvenanceNamesStoredContent(l: Language, ops: seq<Op>, ws: string)
    requires l.Valid()
    ensures var m := Run(l, ops);
      match Provenance(l, m, ws)
      case None => ws !in m.engines
      case Some((version, hash)) =>
        S.IsActive(m.data, ws, version) && m.data[ws][version].content == m.engines[ws].source
        && hash == l.hash(m.data[ws][version].content)
  {
    CacheAgreesInEveryRun(l, ops, 0);
  }
}
