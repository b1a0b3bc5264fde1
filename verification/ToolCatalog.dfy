/** The tool catalog: a store of operator-written definitions, the live snapshot built from it, and
    the handlers that change the store, reload the snapshot and roll back when that fails. */
module ToolCatalog {
  import opened Prelude
  import opened Strings
  import opened Sorting
  import A = ArgDecl
  import R = ToolRegistry

  // ---- Definitions ----

  /** A schema as stored: not JSON, JSON other than an object, or an object with its text. */
  datatype Schema = NotJson | NotObject | Object(text: string)

  datatype ToolDefinition = ToolDefinition(
    id: R.ToolId, risk: string, schema: Schema, arguments: seq<A.Declaration>,
    description: string, updatedAt: int, updatedBy: string)

  predicate NameChar(c: char) {
    'a' <= c <= 'z' || 'A' <= c <= 'Z' || '0' <= c <= '9' || c == '_' || c == '.' || c == '-'
  }

  predicate ValidToolName(s: string) {
    1 <= |s| <= 128 && forall i :: 0 <= i < |s| ==> NameChar(s[i])
  }

  predicate ValidId(id: R.ToolId) { id.backendId != "" && ValidToolName(id.toolName) }

  /** The argument checks of a definition: unlike a declaration set, a blank name passes. */
  predicate ValidArguments(args: seq<A.Declaration>) {
    && (forall i :: 0 <= i < |args| ==> args[i].name != "" && A.ValidArgType(args[i].typ))
    && (forall i, j :: 0 <= i < j < |args| ==> args[i].name != args[j].name)
  }

  predicate ValidDefinition(d: ToolDefinition) {
    ValidId(d.id) && R.ValidRisk(d.risk) && d.schema.Object? && ValidArguments(d.arguments)
  }

  method Validate(d: ToolDefinition) returns (ok: bool)
    ensures ok <==> ValidDefinition(d)
  {
    if !d.id.Valid() { return false; }
    if !ValidToolName(d.id.toolName) { return false; }
    if !R.ValidRisk(d.risk) { return false; }
    if !d.schema.Object? { return false; }
    var seen: set<string> := {};
    for i := 0 to |d.arguments|
      invariant forall j :: 0 <= j < i ==> d.arguments[j].name != "" && A.ValidArgType(d.arguments[j].typ)
      invariant forall j, k :: 0 <= j < k < i ==> d.arguments[j].name != d.arguments[k].name
      invariant forall n :: n in seen <==> exists j :: 0 <= j < i && d.arguments[j].name == n
    {
      var a := d.arguments[i];
      if a.name == "" { return false; }
      if !A.ValidArgType(a.typ) { return false; }
      if a.name in seen { return false; }
      seen := seen + {a.name};
    }
    ok := true;
  }

  // ---- Snapshots ----

  datatype Snapshot = Snapshot(registry: R.Registry, argDecls: map<string, A.DeclarationSet>)

  /** Schema fingerprints, as a function of the schema text; never empty. */
  ghost predicate Fingerprinting(fp: string -> string) { forall s: string :: fp(s) != "" }

  function EntryOf(fp: string -> string, d: ToolDefinition): R.Entry
  {
    R.Entry(d.id, d.risk, if d.schema.Object? then fp(d.schema.text) else "")
  }

  function EntriesOf(fp: string -> string, defs: seq<ToolDefinition>): (r: seq<R.Entry>)
    ensures |r| == |defs|
  {
    seq(|defs|, i requires 0 <= i < |defs| => EntryOf(fp, defs[i]))
  }

  /** The declaration sets by tool key, unless some definition is invalid. */
  function DeclsOf(defs: seq<ToolDefinition>): Option<map<string, A.DeclarationSet>>
  {
    if defs == [] then Some(map[])
    else
      var before, d := DeclsOf(defs[..|defs| - 1]), defs[|defs| - 1];
      if before.None? || !ValidDefinition(d) || A.Declared(d.arguments).Err? then None
      else Some(before.value[d.id.Key() := A.Declared(d.arguments).value])
  }

  function Built(fp: string -> string, defs: seq<ToolDefinition>): Option<Snapshot>
  {
    var decls, reg := DeclsOf(defs), R.Registered(EntriesOf(fp, defs));
    if decls.Some? && reg.Ok? then Some(Snapshot(reg.value, decls.value)) else None
  }

  lemma {:induction false} NoDeclsStays(defs: seq<ToolDefinition>, n: nat)
    requires n <= |defs| && DeclsOf(defs[..n]).None?
    ensures DeclsOf(defs).None?
  {
    if n == |defs| {
      assert defs[..n] == defs;
    } else {
      assert defs[..|defs| - 1][..n] == defs[..n];
      NoDeclsStays(defs[..|defs| - 1], n);
    }
  }

  method BuildSnapshot(fp: string -> string, defs: seq<ToolDefinition>) returns (r: Option<Snapshot>)
    ensures r == Built(fp, defs)
  {
    var entries: seq<R.Entry> := [];
    var decls: map<string, A.DeclarationSet> := map[];
    for i := 0 to |defs|
      invariant entries == EntriesOf(fp, defs[..i])
      invariant DeclsOf(defs[..i]) == Some(decls)
    {
      var d := defs[i];
      ghost var upTo := defs[..i + 1];
      assert upTo[..i] == defs[..i] && upTo[|upTo| - 1] == d;
      var ok := Validate(d);
      if !ok {
        NoDeclsStays(defs, i + 1);
        return None;
      }
      entries := entries + [R.Entry(d.id, d.risk, fp(d.schema.text))];
      assert entries == EntriesOf(fp, upTo);
      var ds := A.NewDeclarationSet(d.arguments);
      if ds.Err? {
        NoDeclsStays(defs, i + 1);
        return None;
      }
      decls := decls[d.id.Key() := ds.value];
    }
    assert defs[..|defs|] == defs;
    var reg := R.NewRegistry(entries);
    if reg.Err? { return None; }
    r := Some(Snapshot(reg.value, decls));
  }

  // ---- The store ----

  type Data = map<R.ToolId, ToolDefinition>

  ghost predicate WellFormed(data: Data) {
    forall id :: id in data ==> data[id].id == id && ValidDefinition(data[id]) && data[id].updatedAt != 0
  }

  function Stamped(d: ToolDefinition, now: int): ToolDefinition
  {
    if d.updatedAt == 0 then d.(updatedAt := now) else d
  }

  ghost predicate DistinctIds(defs: seq<ToolDefinition>) {
    forall i, j :: 0 <= i < j < |defs| ==> defs[i].id != defs[j].id
  }

  /** `defs` lists every stored definition exactly once. */
  ghost predicate Lists(data: Data, defs: seq<ToolDefinition>) {
    && DistinctIds(defs)
    && (forall d :: d in defs ==> d.id in data && data[d.id] == d)
    && (forall id :: id in data ==> data[id] in defs)
  }

  predicate IdLe(a: ToolDefinition, b: ToolDefinition) {
    if a.id.backendId != b.id.backendId then StringLe(a.id.backendId, b.id.backendId)
    else StringLe(a.id.toolName, b.id.toolName)
  }

  lemma IdOrder()
    ensures TotalPreorder(IdLe)
  {
    StringOrder();
    forall x: ToolDefinition, y: ToolDefinition, z: ToolDefinition | IdLe(x, y) && IdLe(y, z) ensures IdLe(x, z) {
      StringLeTransitive(x.id.backendId, y.id.backendId, z.id.backendId);
      if x.id.backendId == z.id.backendId && x.id.backendId != y.id.backendId {
        StringLeAntisymmetric(x.id.backendId, y.id.backendId);
      }
      if x.id.backendId == y.id.backendId == z.id.backendId {
        StringLeTransitive(x.id.toolName, y.id.toolName, z.id.toolName);
      }
    }
    forall x: ToolDefinition, y: ToolDefinition ensures IdLe(x, y) || IdLe(y, x) {
      StringLeTotal(x.id.backendId, y.id.backendId);
      StringLeTotal(x.id.toolName, y.id.toolName);
    }
  }

  lemma ListsPermutation(data: Data, a: seq<ToolDefinition>, b: seq<ToolDefinition>)
    requires Lists(data, a) && multiset(a) == multiset(b)
    ensures Lists(data, b)
  {
    DistinctPermutation(a, b);
    forall d | d in b ensures d.id in data && data[d.id] == d { assert d in multiset(a); }
    forall id | id in data ensures data[id] in b { assert data[id] in multiset(b); }
    forall i, j | 0 <= i < j < |b| ensures b[i].id != b[j].id {
      assert b[i] in b && b[j] in b;
    }
  }

  class MemoryStore {
    var data: Data

    constructor ()
      ensures data == map[]
    {
      data := map[];
    }

    /** Every definition, ordered by backend and tool name. */
    method List(fault: bool) returns (r: Option<seq<ToolDefinition>>)
      requires WellFormed(data)
      ensures r.Some? <==> !fault
      ensures r.Some? ==> Lists(data, r.value) && SortedBy(IdLe, r.value)
    {
      if fault { return None; }
      var out: seq<ToolDefinition> := [];
      var todo := data.Keys;
      while todo != {}
        invariant todo <= data.Keys && DistinctIds(out)
        invariant forall d :: d in out ==> d.id in data && d.id !in todo && data[d.id] == d
        invariant forall id :: id in data && id !in todo ==> data[id] in out
      {
        var id :| id in todo;
        todo := todo - {id};
        assert forall i :: 0 <= i < |out| ==> out[i] in out;
        out := out + [data[id]];
      }
      SortMultiset(IdLe, out);
      ListsPermutation(data, out, Sort(IdLe, out));
      IdOrder();
      SortSorted(IdLe, out);
      r := Some(Sort(IdLe, out));
    }

    method Get(id: R.ToolId, fault: bool) returns (r: Result<Option<ToolDefinition>, ()>)
      ensures r == if fault then Err(()) else Ok(if id in data then Some(data[id]) else None)
    {
      if fault { return Err(()); }
      if id !in data { return Ok(None); }
      return Ok(Some(data[id]));
    }

    /** Stores `d` under its id; an invalid definition is refused. */
    method Upsert(d: ToolDefinition, now: int, fault: bool) returns (ok: bool)
      modifies this
      ensures ok <==> ValidDefinition(d) && !fault
      ensures data == if ok then old(data)[d.id := Stamped(d, now)] else old(data)
    {
      var valid := Validate(d);
      if !valid || fault { return false; }
      var e := d;
      if e.updatedAt == 0 { e := e.(updatedAt := now); }
      data := data[e.id := e];
      ok := true;
    }

    method Delete(id: R.ToolId, fault: bool) returns (ok: bool)
      modifies this
      ensures ok <==> !fault
      ensures data == if ok then old(data) - {id} else old(data)
    {
      if fault { return false; }
      data := data - {id};
      ok := true;
    }
  }

  // ---- The snapshot a store calls for ----

  lemma ValidNameHasNoSlash(s: string)
    requires ValidToolName(s)
    ensures '/' !in s
  {
  }

  lemma StoredKeysInjective(data: Data)
    requires WellFormed(data)
    ensures forall a, b :: a in data && b in data && a.Key() == b.Key() ==> a == b
  {
    forall a, b | a in data && b in data && a.Key() == b.Key() ensures a == b {
      ValidNameHasNoSlash(data[a].id.toolName);
      ValidNameHasNoSlash(data[b].id.toolName);
      R.KeyInjective(a, b);
    }
  }

  /** Every definition's arguments form a declaration set. */
  ghost predicate AllDeclared(data: Data) {
    forall id :: id in data ==> A.Declared(data[id].arguments).Ok?
  }

  /** The snapshot of exactly the stored definitions. */
  ghost function SnapshotOf(fp: string -> string, data: Data): Snapshot
    requires WellFormed(data) && AllDeclared(data)
  {
    Snapshot(ByKey(data, d => EntryOf(fp, d)), ByKey(data, DeclsIn))
  }

  /** What `f` says of every stored tool, under the tool's key. */
  ghost function ByKey<T>(data: Data, f: ToolDefinition -> T): map<string, T>
    requires WellFormed(data)
  {
    StoredKeysInjective(data);
    map id | id in data :: id.Key() := f(data[id])
  }

  function DeclsIn(d: ToolDefinition): A.DeclarationSet
  {
    if A.Declared(d.arguments).Ok? then A.Declared(d.arguments).value else map[]
  }

  /** A stored definition fails to declare its arguments exactly when one of their names is blank. */
  lemma UndeclaredIffBlankName(d: ToolDefinition)
    requires ValidDefinition(d)
    ensures A.Declared(d.arguments).Err? <==>
      exists i :: 0 <= i < |d.arguments| && Blank(d.arguments[i].name)
  {
    A.DeclaredExactly(d.arguments);
  }

  ghost predicate HoldsEntries(fp: string -> string, reg: R.Registry, defs: seq<ToolDefinition>) {
    && (forall d :: d in defs ==> d.id.Key() in reg && reg[d.id.Key()] == EntryOf(fp, d))
    && (forall k :: k in reg ==> exists d :: d in defs && d.id.Key() == k)
  }

  ghost predicate HoldsDecls(decls: map<string, A.DeclarationSet>, defs: seq<ToolDefinition>) {
    && (forall d :: d in defs && A.Declared(d.arguments).Ok? ==>
          d.id.Key() in decls && decls[d.id.Key()] == A.Declared(d.arguments).value)
    && (forall k :: k in decls ==> exists d :: d in defs && d.id.Key() == k)
  }

  lemma HoldsEntriesStep(fp: string -> string, reg: R.Registry, before: seq<ToolDefinition>, d: ToolDefinition)
    requires HoldsEntries(fp, reg, before) && forall e :: e in before ==> e.id.Key() != d.id.Key()
    ensures HoldsEntries(fp, reg[d.id.Key() := EntryOf(fp, d)], before + [d]) && d.id.Key() !in reg
  {
    hide EntryOf;
    assert d in before + [d];
    forall k | k in reg ensures exists e :: e in before + [d] && e.id.Key() == k {
      var e :| e in before && e.id.Key() == k;
      assert e in before + [d];
    }
  }

  lemma HoldsDeclsStep(decls: map<string, A.DeclarationSet>, before: seq<ToolDefinition>, d: ToolDefinition)
    requires HoldsDecls(decls, before) && forall e :: e in before ==> e.id.Key() != d.id.Key()
    requires A.Declared(d.arguments).Ok?
    ensures HoldsDecls(decls[d.id.Key() := A.Declared(d.arguments).value], before + [d])
  {
    hide A.Declared;
    assert d in before + [d];
    forall k | k in decls ensures exists e :: e in before + [d] && e.id.Key() == k {
      var e :| e in before && e.id.Key() == k;
      assert e in before + [d];
    }
  }

  /** Registration of valid definitions with distinct ids never fails. */
  lemma {:induction false} RegisteredDefinitions(fp: string -> string, defs: seq<ToolDefinition>)
    requires Fingerprinting(fp) && DistinctIds(defs) && forall d :: d in defs ==> ValidDefinition(d)
    ensures R.Registered(EntriesOf(fp, defs)).Ok? && HoldsEntries(fp, R.Registered(EntriesOf(fp, defs)).value, defs)
  {
    if defs != [] {
      var before, d := defs[..|defs| - 1], defs[|defs| - 1];
      assert defs == before + [d];
      assert forall e :: e in before ==> e in defs;
      RegisteredDefinitions(fp, before);
      assert d in defs;
      NewKey(before, d);
      RegisterOne(fp, before, d);
    }
  }

  lemma RegisterOne(fp: string -> string, before: seq<ToolDefinition>, d: ToolDefinition)
    requires Fingerprinting(fp) && ValidDefinition(d) && forall e :: e in before ==> e.id.Key() != d.id.Key()
    requires R.Registered(EntriesOf(fp, before)).Ok? && HoldsEntries(fp, R.Registered(EntriesOf(fp, before)).value, before)
    ensures R.Registered(EntriesOf(fp, before + [d])).Ok?
    ensures HoldsEntries(fp, R.Registered(EntriesOf(fp, before + [d])).value, before + [d])
  {
    var entries, reg := EntriesOf(fp, before), R.Registered(EntriesOf(fp, before)).value;
    HoldsEntriesStep(fp, reg, before, d);
    assert R.Problem(reg, EntryOf(fp, d)) == None;
    hide HoldsEntries, ValidDefinition, Fingerprinting, R.Problem;
    assert EntriesOf(fp, before + [d]) == entries + [EntryOf(fp, d)];
    assert (entries + [EntryOf(fp, d)])[..|entries|] == entries;
  }

  lemma NewKey(before: seq<ToolDefinition>, d: ToolDefinition)
    requires DistinctIds(before + [d]) && ValidDefinition(d) && forall e :: e in before ==> ValidDefinition(e)
    ensures forall e :: e in before ==> e.id.Key() != d.id.Key()
  {
    forall e | e in before ensures e.id.Key() != d.id.Key() {
      var i :| 0 <= i < |before| && before[i] == e;
      assert (before + [d])[i].id != (before + [d])[|before|].id;
      ValidNameHasNoSlash(e.id.toolName);
      ValidNameHasNoSlash(d.id.toolName);
      R.KeyInjective(e.id, d.id);
    }
  }

  lemma {:induction false} DeclaredDefinitions(defs: seq<ToolDefinition>)
    requires DistinctIds(defs) && forall d :: d in defs ==> ValidDefinition(d)
    ensures DeclsOf(defs).Some? <==> forall d :: d in defs ==> A.Declared(d.arguments).Ok?
    ensures DeclsOf(defs).Some? ==> HoldsDecls(DeclsOf(defs).value, defs)
  {
    if defs != [] {
      var before, d := defs[..|defs| - 1], defs[|defs| - 1];
      assert defs == before + [d];
      assert forall e :: e in defs <==> e in before || e == d;
      PrefixDistinctIds(before, d);
      DeclaredDefinitions(before);
      NewKey(before, d);
      assert DeclsOf(defs) == (if DeclsOf(before).None? || A.Declared(d.arguments).Err? then None
                               else Some(DeclsOf(before).value[d.id.Key() := A.Declared(d.arguments).value])) by {
        assert ValidDefinition(d);
        hide A.Declared, ValidDefinition;
      }
      hide ValidDefinition, A.Declared, HoldsDecls, DistinctIds, DeclsOf, R.ToolId.Key;
      if A.Declared(d.arguments).Ok? && DeclsOf(before).Some? { HoldsDeclsStep(DeclsOf(before).value, before, d); }
    }
  }

  lemma PrefixDistinctIds(before: seq<ToolDefinition>, d: ToolDefinition)
    requires DistinctIds(before + [d])
    ensures DistinctIds(before)
  {
    assert forall i :: 0 <= i < |before| ==> (before + [d])[i] == before[i];
  }

  /** `m` maps the key of every stored tool to `f` of its definition, and nothing else. */
  ghost predicate MapsStored<T>(data: Data, m: map<string, T>, f: ToolDefinition -> T) {
    && (forall id :: id in data ==> id.Key() in m && m[id.Key()] == f(data[id]))
    && (forall k :: k in m ==> exists id :: id in data && id.Key() == k)
  }

  lemma MapsStoredUnique<T>(data: Data, m: map<string, T>, n: map<string, T>, f: ToolDefinition -> T)
    requires MapsStored(data, m, f) && MapsStored(data, n, f)
    ensures m == n
  {
    forall k ensures k in m <==> k in n {
      if k in m { var id :| id in data && id.Key() == k; }
      if k in n { var id :| id in data && id.Key() == k; }
    }
    forall k | k in m ensures m[k] == n[k] {
      var id :| id in data && id.Key() == k;
    }
  }

  lemma ByKeyMapsStored<T>(data: Data, f: ToolDefinition -> T)
    requires WellFormed(data)
    ensures MapsStored(data, ByKey(data, f), f)
  {
    StoredKeysInjective(data);
    hide WellFormed, R.ToolId.Key;
  }

  lemma SnapshotMapsStored(fp: string -> string, data: Data)
    requires WellFormed(data) && AllDeclared(data)
    ensures MapsStored(data, SnapshotOf(fp, data).registry, d => EntryOf(fp, d))
    ensures MapsStored(data, SnapshotOf(fp, data).argDecls, DeclsIn)
  {
    ByKeyMapsStored(data, d => EntryOf(fp, d));
    ByKeyMapsStored(data, DeclsIn);
    hide MapsStored, ByKey;
  }

  lemma EntriesMapStored(fp: string -> string, data: Data, defs: seq<ToolDefinition>, reg: R.Registry)
    requires WellFormed(data) && Lists(data, defs) && HoldsEntries(fp, reg, defs)
    ensures MapsStored(data, reg, d => EntryOf(fp, d))
  {
    hide ValidDefinition, EntryOf, R.ToolId.Key, DistinctIds;
    forall id | id in data ensures id.Key() in reg && reg[id.Key()] == EntryOf(fp, data[id]) {
      assert data[id] in defs && data[id].id == id;
    }
    forall k | k in reg ensures exists id :: id in data && id.Key() == k {
      var d :| d in defs && d.id.Key() == k;
    }
  }

  lemma DeclsMapStored(data: Data, defs: seq<ToolDefinition>, decls: map<string, A.DeclarationSet>)
    requires WellFormed(data) && AllDeclared(data) && Lists(data, defs) && HoldsDecls(decls, defs)
    ensures MapsStored(data, decls, DeclsIn)
  {
    hide ValidDefinition, A.Declared, R.ToolId.Key, DistinctIds;
    forall id | id in data ensures id.Key() in decls && decls[id.Key()] == DeclsIn(data[id]) {
      assert data[id] in defs && data[id].id == id;
    }
    forall k | k in decls ensures exists id :: id in data && id.Key() == k {
      var d :| d in defs && d.id.Key() == k;
    }
  }

  /** Building from any listing of the store yields the store's snapshot, and fails exactly when
      some stored definition does not declare its arguments; duplicates cannot arise. */
  lemma BuiltFromStore(fp: string -> string, data: Data, defs: seq<ToolDefinition>)
    requires Fingerprinting(fp) && WellFormed(data) && Lists(data, defs)
    ensures Built(fp, defs).Some? <==> AllDeclared(data)
    ensures AllDeclared(data) ==> Built(fp, defs) == Some(SnapshotOf(fp, data))
  {
    hide A.Declared, ValidDefinition, R.Registered, DeclsOf, SnapshotOf;
    RegisteredDefinitions(fp, defs);
    DeclaredDefinitions(defs);
    if AllDeclared(data) {
      var reg, decls, want := R.Registered(EntriesOf(fp, defs)).value, DeclsOf(defs).value, SnapshotOf(fp, data);
      SnapshotMapsStored(fp, data);
      EntriesMapStored(fp, data, defs, reg);
      DeclsMapStored(data, defs, decls);
      MapsStoredUnique(data, reg, want.registry, d => EntryOf(fp, d));
      MapsStoredUnique(data, decls, want.argDecls, DeclsIn);
    } else {
      var id :| id in data && A.Declared(data[id].arguments).Err?;
      assert data[id] in defs;
    }
  }

  // ---- Lookups ----

  /** What a lookup in the catalog's registry answers, exactly, for any name a client may send. */
  lemma LookupFinds(fp: string -> string, data: Data, id: R.ToolId, live: string)
    requires WellFormed(data) && AllDeclared(data)
    ensures '/' in id.Key()
    ensures R.Lookup(SnapshotOf(fp, data).registry, id, live).known <==> R.FromKey(id.Key()) in data
  {
    R.FromKeyOfKey(id);
    StoredKeysInjective(data);
    var found, reg := R.FromKey(id.Key()), SnapshotOf(fp, data).registry;
    if id.Key() in reg {
      var stored :| stored in data && stored.Key() == id.Key();
      ValidNameHasNoSlash(data[stored].id.toolName);
      R.FromKeyOfKey(stored);
    }
  }

  function Sample(id: R.ToolId): ToolDefinition
  {
    ToolDefinition(id, "read", Object("{}"), [], "", 1, "")
  }

  /** Only an exact match is known, for every catalog, exactly when the name has no slash or the
      part after its last slash could not be stored as a tool name. */
  lemma LookupExactIff(fp: string -> string, id: R.ToolId, live: string)
    ensures '/' in id.Key()
    ensures (forall data: Data :: WellFormed(data) && AllDeclared(data) ==>
        (R.Lookup(SnapshotOf(fp, data).registry, id, live).known <==> id in data))
      <==> ('/' !in id.toolName || !ValidToolName(R.FromKey(id.Key()).toolName) || R.FromKey(id.Key()).backendId == "")
  {
    R.FromKeyOfKey(id);
    var other := R.FromKey(id.Key());
    if '/' !in id.toolName || !ValidId(other) {
      forall data: Data | WellFormed(data) && AllDeclared(data)
        ensures R.Lookup(SnapshotOf(fp, data).registry, id, live).known <==> id in data
      {
        LookupFinds(fp, data, id, live);
        if id in data { ValidNameHasNoSlash(data[id].id.toolName); }
      }
    } else {
      var data: Data := map[other := Sample(other)];
      assert WellFormed(data) && AllDeclared(data);
      LookupFinds(fp, data, id, live);
      assert other in data && id !in data;
    }
  }

  // ---- The live catalog and the handlers ----

  datatype Faults = Faults(get: bool, write: bool, list: bool, rollback: bool)

  datatype Response = InvalidTool | ReadFailed | WriteFailed | NotFound | ReloadFailed(rolledBack: bool) | Done

  datatype System = System(data: Data, live: Snapshot)

  /** The reload after a change to `data`, with the rollback to `before` when it fails. */
  ghost function Reloaded(fp: string -> string, before: Data, data: Data, live: Snapshot, f: Faults): (System, Response)
    requires WellFormed(data)
  {
    if !f.list && AllDeclared(data) then (System(data, SnapshotOf(fp, data)), Done)
    else if f.rollback then (System(data, live), ReloadFailed(false))
    else (System(before, live), ReloadFailed(true))
  }

  lemma PutKeepsWellFormed(data: Data, d: ToolDefinition)
    requires WellFormed(data) && ValidDefinition(d) && d.updatedAt != 0
    ensures WellFormed(data[d.id := d])
  {
  }

  ghost function Put(fp: string -> string, s: System, d: ToolDefinition, f: Faults): (System, Response)
    requires WellFormed(s.data) && d.updatedAt != 0
  {
    if !ValidDefinition(d) then (s, InvalidTool)
    else if f.get then (s, ReadFailed)
    else if f.write then (s, WriteFailed)
    else
      PutKeepsWellFormed(s.data, d);
      Reloaded(fp, s.data, s.data[d.id := d], s.live, f)
  }

  ghost function Remove(fp: string -> string, s: System, id: R.ToolId, f: Faults): (System, Response)
    requires WellFormed(s.data)
  {
    if !ValidId(id) then (s, InvalidTool)
    else if f.get then (s, ReadFailed)
    else if id !in s.data then (s, NotFound)
    else if f.write then (s, WriteFailed)
    else
      assert WellFormed(s.data - {id});
      Reloaded(fp, s.data, s.data - {id}, s.live, f)
  }

  class Catalog {
    const fp: string -> string
    var cur: Snapshot

    constructor (fp: string -> string, snap: Snapshot)
      ensures this.fp == fp && cur == snap
    {
      this.fp, cur := fp, snap;
    }

    /** Swaps in the snapshot of `defs` only if every definition is valid. */
    method Replace(defs: seq<ToolDefinition>) returns (ok: bool)
      modifies this
      ensures ok <==> Built(fp, defs).Some?
      ensures cur == if ok then Built(fp, defs).value else old(cur)
    {
      var snap := BuildSnapshot(fp, defs);
      if snap.None? { return false; }
      cur := snap.value;
      ok := true;
    }

    method Reload(store: MemoryStore, listFault: bool) returns (ok: bool)
      requires Fingerprinting(fp) && WellFormed(store.data)
      modifies this
      ensures ok <==> !listFault && AllDeclared(store.data)
      ensures cur == if ok then SnapshotOf(fp, store.data) else old(cur)
    {
      var defs := store.List(listFault);
      if defs.None? { return false; }
      BuiltFromStore(fp, store.data, defs.value);
      ok := Replace(defs.value);
    }
  }

  class Handler {
    const store: MemoryStore
    const catalog: Catalog

    ghost predicate Valid() reads this, store, catalog { Fingerprinting(catalog.fp) && WellFormed(store.data) }

    function Contents(): System reads this, store, catalog { System(store.data, catalog.cur) }

    constructor (store: MemoryStore, catalog: Catalog)
      ensures this.store == store && this.catalog == catalog
    {
      this.store, this.catalog := store, catalog;
    }

    method HandlePut(d: ToolDefinition, f: Faults) returns (resp: Response)
      requires Valid() && d.updatedAt != 0
      modifies store, catalog
      ensures Valid() && (Contents(), resp) == Put(catalog.fp, old(Contents()), d, f)
    {
      hide ValidDefinition, AllDeclared, SnapshotOf;
      var valid := Validate(d);
      if !valid { return InvalidTool; }
      var prev := store.Get(d.id, f.get);
      if prev.Err? { return ReadFailed; }
      PutKeepsWellFormed(store.data, d);
      var stored := store.Upsert(d, d.updatedAt, f.write);
      if !stored { return WriteFailed; }
      var reloaded := catalog.Reload(store, f.list);
      if !reloaded {
        resp := ReloadFailure(prev.value, d.id, f.rollback);
        assert !f.rollback ==> store.data == old(store.data);
        return;
      }
      resp := Done;
    }

    method HandleDelete(id: R.ToolId, f: Faults) returns (resp: Response)
      requires Valid()
      modifies store, catalog
      ensures Valid() && (Contents(), resp) == Remove(catalog.fp, old(Contents()), id, f)
    {
      if !ValidId(id) { return InvalidTool; }
      var prev := store.Get(id, f.get);
      if prev.Err? { return ReadFailed; }
      if prev.value.None? { return NotFound; }
      var deleted := store.Delete(id, f.write);
      if !deleted { return WriteFailed; }
      var reloaded := catalog.Reload(store, f.list);
      if !reloaded {
        resp := ReloadFailure(prev.value, id, f.rollback);
        assert !f.rollback ==> store.data == old(store.data);
        return;
      }
      resp := Done;
    }

    /** Undoes the change to `id`, whose definition was `prev`. */
    method ReloadFailure(prev: Option<ToolDefinition>, id: R.ToolId, fault: bool) returns (resp: Response)
      requires prev.Some? ==> prev.value.id == id && ValidDefinition(prev.value) && prev.value.updatedAt != 0
      modifies store
      ensures resp == ReloadFailed(!fault)
      ensures store.data == if fault then old(store.data)
                            else if prev.Some? then old(store.data)[id := prev.value]
                            else old(store.data) - {id}
    {
      var ok;
      if prev.Some? {
        ok := store.Upsert(prev.value, prev.value.updatedAt, fault);
      } else {
        ok := store.Delete(id, fault);
      }
      resp := ReloadFailed(ok);
    }
  }

  // ---- Runs ----

  datatype Request = PutTool(def: ToolDefinition, f: Faults) | DeleteTool(id: R.ToolId, f: Faults)

  ghost predicate Stampable(reqs: seq<Request>) {
    forall i :: 0 <= i < |reqs| && reqs[i].PutTool? ==> reqs[i].def.updatedAt != 0
  }

  ghost function Answer(fp: string -> string, s: System, r: Request): (System, Response)
    requires WellFormed(s.data) && (r.PutTool? ==> r.def.updatedAt != 0)
  {
    match r
    case PutTool(d, f) => Put(fp, s, d, f)
    case DeleteTool(id, f) => Remove(fp, s, id, f)
  }

  lemma AnswerKeepsWellFormed(fp: string -> string, s: System, r: Request)
    requires WellFormed(s.data) && (r.PutTool? ==> r.def.updatedAt != 0)
    ensures WellFormed(Answer(fp, s, r).0.data)
  {
    if r.PutTool? && ValidDefinition(r.def) { PutKeepsWellFormed(s.data, r.def); }
  }

  /** The system after a run, and whether a failed rollback has been reported since the last success. */
  ghost function Run(fp: string -> string, start: System, reqs: seq<Request>): (r: (System, bool))
    requires WellFormed(start.data) && Stampable(reqs)
    ensures WellFormed(r.0.data)
  {
    if reqs == [] then (start, false)
    else
      var last := reqs[|reqs| - 1];
      var (s, warned) := Run(fp, start, reqs[..|reqs| - 1]);
      AnswerKeepsWellFormed(fp, s, last);
      var (t, resp) := Answer(fp, s, last);
      (t, if resp == ReloadFailed(false) then true else if resp == Done then false else warned)
  }

  /** The live snapshot is the snapshot of the stored definitions. */
  ghost predicate InStep(fp: string -> string, s: System)
    requires WellFormed(s.data)
  {
    AllDeclared(s.data) && s.live == SnapshotOf(fp, s.data)
  }

  lemma SnapshotKeysCoincide(fp: string -> string, data: Data)
    requires WellFormed(data) && AllDeclared(data)
    ensures SnapshotOf(fp, data).registry.Keys == SnapshotOf(fp, data).argDecls.Keys
  {
    StoredKeysInjective(data);
  }

  /** Over every run of writes and deletions with failing reads, writes, listings and rollbacks, the
      live snapshot equals the snapshot of the store unless a failed rollback was reported after the
      last success, the next success restores it, and registry and declarations cover the same tools. */
  lemma {:induction false} CatalogInStepInEveryRun(fp: string -> string, start: System, reqs: seq<Request>)
    requires WellFormed(start.data) && InStep(fp, start) && Stampable(reqs)
    ensures var (s, warned) := Run(fp, start, reqs);
      && (!warned ==> InStep(fp, s))
      && s.live.registry.Keys == s.live.argDecls.Keys
  {
    if reqs == [] {
      SnapshotKeysCoincide(fp, start.data);
    } else {
      var before, last := reqs[..|reqs| - 1], reqs[|reqs| - 1];
      CatalogInStepInEveryRun(fp, start, before);
      var (s, warned) := Run(fp, start, before);
      AnswerKeepsWellFormed(fp, s, last);
      AnswerOutcome(fp, s, last);
      var (t, resp) := Answer(fp, s, last);
      if resp == Done { SnapshotKeysCoincide(fp, t.data); }
    }
  }

  /** A request either succeeds and leaves store and snapshot in step, or leaves both unchanged, or
      reports a failed rollback and leaves the snapshot unchanged. */
  lemma AnswerOutcome(fp: string -> string, s: System, r: Request)
    requires WellFormed(s.data) && (r.PutTool? ==> r.def.updatedAt != 0)
    ensures WellFormed(Answer(fp, s, r).0.data)
    ensures var (t, resp) := Answer(fp, s, r);
      if resp == Done then InStep(fp, t)
      else if resp == ReloadFailed(false) then t.live == s.live
      else t == s
  {
    AnswerKeepsWellFormed(fp, s, r);
    match r
    case PutTool(d, f) => PutOutcome(fp, s, d, f);
    case DeleteTool(id, f) => RemoveOutcome(fp, s, id, f);
    hide InStep, Put, Remove, WellFormed;
  }

  /** What a change and its reload come to. */
  ghost predicate Outcome(fp: string -> string, s: System, t: System, resp: Response)
    requires WellFormed(t.data)
  {
    if resp == Done then InStep(fp, t)
    else if resp == ReloadFailed(false) then t.live == s.live
    else t == s
  }

  lemma ReloadedOutcome(fp: string -> string, s: System, data: Data, f: Faults)
    requires WellFormed(s.data) && WellFormed(data)
    ensures var (t, resp) := Reloaded(fp, s.data, data, s.live, f); WellFormed(t.data) && Outcome(fp, s, t, resp)
  {
    hide WellFormed, AllDeclared, SnapshotOf;
  }

  lemma PutOutcome(fp: string -> string, s: System, d: ToolDefinition, f: Faults)
    requires WellFormed(s.data) && d.updatedAt != 0
    ensures var (t, resp) := Put(fp, s, d, f); WellFormed(t.data) && Outcome(fp, s, t, resp)
  {
    if ValidDefinition(d) {
      PutKeepsWellFormed(s.data, d);
      ReloadedOutcome(fp, s, s.data[d.id := d], f);
    }
    hide WellFormed, ValidDefinition, Reloaded, InStep;
  }

  lemma RemoveOutcome(fp: string -> string, s: System, id: R.ToolId, f: Faults)
    requires WellFormed(s.data)
    ensures var (t, resp) := Remove(fp, s, id, f); WellFormed(t.data) && Outcome(fp, s, t, resp)
  {
    assert WellFormed(s.data - {id});
    ReloadedOutcome(fp, s, s.data - {id}, f);
    hide WellFormed, Reloaded, InStep;
  }

  // ---- What an answer means, in terms of requests and responses ----

  function TargetOf(r: Request): R.ToolId { if r.PutTool? then r.def.id else r.id }

  /** What a request that takes effect leaves under its id. */
  function EffectOf(r: Request): Option<ToolDefinition> { if r.PutTool? then Some(r.def) else None }

  function StoredAt(data: Data, id: R.ToolId): Option<ToolDefinition> { if id in data then Some(data[id]) else None }

  /** `b` is `a` except that it holds what the request leaves under its id. */
  ghost predicate TakesEffect(r: Request, a: Data, b: Data) {
    forall id :: StoredAt(b, id) == if id == TargetOf(r) then EffectOf(r) else StoredAt(a, id)
  }

  /** Some argument of a stored definition has a blank name, so no snapshot can be built. */
  ghost predicate HasBlankName(data: Data) {
    exists id :: id in data && exists i :: 0 <= i < |data[id].arguments| && Blank(data[id].arguments[i].name)
  }

  /** The definition the live snapshot has under the key of `d` is `d`: its risk, its fingerprint and
      exactly its arguments. */
  ghost predicate Shows(fp: string -> string, live: Snapshot, d: ToolDefinition) {
    && d.schema.Object?
    && d.id.Key() in live.registry && live.registry[d.id.Key()] == R.Entry(d.id, d.risk, fp(d.schema.text))
    && d.id.Key() in live.argDecls
    && var decls := live.argDecls[d.id.Key()];
    && (forall i :: 0 <= i < |d.arguments| ==> d.arguments[i].name in decls && decls[d.arguments[i].name] == d.arguments[i])
    && (forall n :: n in decls ==> exists i :: 0 <= i < |d.arguments| && d.arguments[i].name == n)
  }

  /** Which of the early responses a request gets, exactly: the checks come in order. */
  ghost predicate RefusedRightly(s: System, r: Request, resp: Response) {
    var valid := if r.PutTool? then ValidDefinition(r.def) else ValidId(r.id);
    && (resp == InvalidTool <==> !valid)
    && (resp == ReadFailed <==> valid && r.f.get)
    && (resp == NotFound <==> valid && !r.f.get && r.DeleteTool? && r.id !in s.data)
    && (resp == WriteFailed <==> valid && !r.f.get && (r.PutTool? || r.id in s.data) && r.f.write)
  }

  /** What a request does to the store and the live snapshot, by its response: one answered Done has taken
      effect and could be listed and snapshot, one whose rollback failed has taken effect in the store
      alone, any other leaves everything as it was. */
  ghost predicate EffectRight(s: System, r: Request, t: System, resp: Response) {
    match resp
    case Done => !r.f.list && TakesEffect(r, s.data, t.data) && !HasBlankName(t.data)
    case ReloadFailed(rolledBack) =>
      && rolledBack == !r.f.rollback && t.live == s.live
      && if rolledBack then t == s else TakesEffect(r, s.data, t.data) && (r.f.list || HasBlankName(t.data))
    case _ => t == s
  }

  /** After Done, checks meet the new definition as it is, or no longer know the deleted tool. */
  ghost predicate LiveRight(fp: string -> string, r: Request, t: System, resp: Response) {
    && (resp == Done && r.PutTool? ==> Shows(fp, t.live, r.def))
    && (resp == Done && r.DeleteTool? ==>
          r.id.Key() !in t.live.argDecls && forall live :: !R.Lookup(t.live.registry, r.id, live).known)
  }

  /** Which response a request gets and what it does, exactly. */
  ghost predicate AnsweredRightly(fp: string -> string, s: System, r: Request, t: System, resp: Response) {
    RefusedRightly(s, r, resp) && EffectRight(s, r, t, resp) && LiveRight(fp, r, t, resp)
  }

  lemma AllDeclaredExactly(data: Data)
    requires WellFormed(data)
    ensures AllDeclared(data) <==> !HasBlankName(data)
  {
    forall id | id in data
      ensures A.Declared(data[id].arguments).Err? <==>
        exists i :: 0 <= i < |data[id].arguments| && Blank(data[id].arguments[i].name)
    {
      UndeclaredIffBlankName(data[id]);
    }
    hide ValidDefinition, A.Declared, Blank;
  }

  /** The snapshot of a store shows every stored definition as it is. */
  lemma SnapshotShows(fp: string -> string, data: Data, id: R.ToolId)
    requires WellFormed(data) && AllDeclared(data) && id in data
    ensures Shows(fp, SnapshotOf(fp, data), data[id])
  {
    SnapshotMapsStored(fp, data);
    A.DeclaredExactly(data[id].arguments);
    assert ValidDefinition(data[id]);
    hide SnapshotOf, A.Declared, WellFormed, ByKey;
  }

  lemma SnapshotForgets(fp: string -> string, data: Data, id: R.ToolId)
    requires WellFormed(data) && AllDeclared(data) && ValidId(id) && id !in data
    ensures id.Key() !in SnapshotOf(fp, data).argDecls && id.Key() !in SnapshotOf(fp, data).registry
  {
    ValidNameHasNoSlash(id.toolName);
    R.FromKeyOfKey(id);
    LookupFinds(fp, data, id, "");
    SnapshotKeysCoincide(fp, data);
    hide SnapshotOf;
  }

  lemma AnswerExactly(fp: string -> string, s: System, r: Request)
    requires WellFormed(s.data) && (r.PutTool? ==> r.def.updatedAt != 0)
    ensures AnsweredRightly(fp, s, r, Answer(fp, s, r).0, Answer(fp, s, r).1)
  {
    RefusalExactly(fp, s, r);
    if r.PutTool? { PutExactly(fp, s, r); } else { DeleteExactly(fp, s, r); }
    hide RefusedRightly, EffectRight, LiveRight, Answer, WellFormed;
  }

  lemma RefusalExactly(fp: string -> string, s: System, r: Request)
    requires WellFormed(s.data) && (r.PutTool? ==> r.def.updatedAt != 0)
    ensures RefusedRightly(s, r, Answer(fp, s, r).1)
  {
    hide WellFormed, ValidDefinition, ValidId, AllDeclared, SnapshotOf;
  }

  lemma ReloadExactly(fp: string -> string, s: System, r: Request, data: Data)
    requires WellFormed(s.data) && WellFormed(data) && TakesEffect(r, s.data, data)
    ensures var (t, resp) := Reloaded(fp, s.data, data, s.live, r.f);
      EffectRight(s, r, t, resp) && (resp == Done ==> AllDeclared(data) && t.live == SnapshotOf(fp, data))
  {
    AllDeclaredExactly(data);
    hide WellFormed, AllDeclared, HasBlankName, SnapshotOf, TakesEffect;
  }

  lemma PutExactly(fp: string -> string, s: System, r: Request)
    requires WellFormed(s.data) && r.PutTool? && r.def.updatedAt != 0
    ensures var (t, resp) := Answer(fp, s, r); EffectRight(s, r, t, resp) && LiveRight(fp, r, t, resp)
  {
    if ValidDefinition(r.def) {
      var data := s.data[r.def.id := r.def];
      PutKeepsWellFormed(s.data, r.def);
      assert TakesEffect(r, s.data, data);
      ReloadExactly(fp, s, r, data);
      if AllDeclared(data) { SnapshotShows(fp, data, r.def.id); }
    }
    hide ValidDefinition, WellFormed, AllDeclared, HasBlankName, SnapshotOf, Shows, R.Lookup, Reloaded, TakesEffect;
  }

  lemma DeleteExactly(fp: string -> string, s: System, r: Request)
    requires WellFormed(s.data) && r.DeleteTool?
    ensures var (t, resp) := Answer(fp, s, r); EffectRight(s, r, t, resp) && LiveRight(fp, r, t, resp)
  {
    var data := s.data - {r.id};
    assert WellFormed(data);
    assert TakesEffect(r, s.data, data);
    ReloadExactly(fp, s, r, data);
    if ValidId(r.id) && AllDeclared(data) { SnapshotForgets(fp, data, r.id); }
    hide ValidDefinition, ValidId, WellFormed, AllDeclared, HasBlankName, SnapshotOf, Shows, Reloaded, TakesEffect;
  }

  /** The responses of a run, in order. */
  ghost function Responses(fp: string -> string, start: System, reqs: seq<Request>): (rs: seq<Response>)
    requires WellFormed(start.data) && Stampable(reqs)
    ensures |rs| == |reqs|
  {
    if reqs == [] then []
    else
      var before := reqs[..|reqs| - 1];
      Responses(fp, start, before) + [Answer(fp, Run(fp, start, before).0, reqs[|reqs| - 1]).1]
  }

  /** What the store should hold for `id`: what the last request for it that was answered Done, or that
      reported a failed rollback, leaves; and what it held at the start if there is none. */
  function Held(start: Data, reqs: seq<Request>, resps: seq<Response>, id: R.ToolId): Option<ToolDefinition>
    requires |resps| == |reqs|
  {
    if reqs == [] then StoredAt(start, id)
    else
      var r, resp := reqs[|reqs| - 1], resps[|resps| - 1];
      if TargetOf(r) == id && (resp == Done || resp == ReloadFailed(false)) then EffectOf(r)
      else Held(start, reqs[..|reqs| - 1], resps[..|resps| - 1], id)
  }

  /** In every run, the store holds for each tool what its last effective request left. */
  lemma {:induction false} StoreHoldsLastEffect(fp: string -> string, start: System, reqs: seq<Request>, id: R.ToolId)
    requires WellFormed(start.data) && Stampable(reqs)
    ensures StoredAt(Run(fp, start, reqs).0.data, id) == Held(start.data, reqs, Responses(fp, start, reqs), id)
  {
    if reqs != [] {
      var before, last := reqs[..|reqs| - 1], reqs[|reqs| - 1];
      StoreHoldsLastEffect(fp, start, before, id);
      var s := Run(fp, start, before).0;
      AnswerExactly(fp, s, last);
      var rs := Responses(fp, start, reqs);
      assert rs[..|rs| - 1] == Responses(fp, start, before);
      hide Answer, WellFormed, HasBlankName, LiveRight, RefusedRightly;
    }
  }

  /** What governance a check meets, exactly, for any name a client may send: it is known when the tool that
      its key reads back as is stored, with the risk and the fingerprint of that definition, and drifted
      when the call names another fingerprint. */
  lemma LookupAnswersExactly(fp: string -> string, data: Data, id: R.ToolId, live: string)
    requires WellFormed(data) && AllDeclared(data)
    ensures '/' in id.Key()
    ensures var gov, found := R.Lookup(SnapshotOf(fp, data).registry, id, live), R.FromKey(id.Key());
      && ('/' !in id.toolName ==> found == id) && gov.toolId == id && (gov.known <==> found in data)
      && (found in data ==>
            && data[found].schema.Object? && gov.risk == data[found].risk
            && gov.registeredFingerprint == fp(data[found].schema.text)
            && (gov.drift == R.Detected <==> live != "" && live != fp(data[found].schema.text)))
      && (gov.Authoritative() <==>
            id.backendId != "" && found in data && (live == "" || live == fp(data[found].schema.text)))
  {
    R.FromKeyOfKey(id);
    LookupFinds(fp, data, id, live);
    var found := R.FromKey(id.Key());
    if found in data {
      SnapshotShows(fp, data, found);
      assert ValidDefinition(data[found]) && data[found].id == found && found.toolName != "";
      StoredIsNamed(id, found);
    }
    hide SnapshotOf, WellFormed, AllDeclared, R.FromKey, ValidArguments, ValidToolName;
  }

  lemma StoredIsNamed(id: R.ToolId, found: R.ToolId)
    requires id.Key() == found.Key() && found.toolName != "" && '/' !in found.toolName
    ensures id.toolName != ""
  {
    var key := found.Key();
    assert key[|key| - 1] == found.toolName[|found.toolName| - 1];
    assert id.Key()[|id.backendId|] == '/';
  }

  /** The reload failure is reachable without any store fault: a blank argument name passes the
      validation of the definition, its reload fails and it is rolled back. */
  lemma BlankArgumentNameRollsBack(fp: string -> string, s: System, d: ToolDefinition)
    requires WellFormed(s.data) && ValidDefinition(d) && d.updatedAt != 0
    requires exists i :: 0 <= i < |d.arguments| && Blank(d.arguments[i].name)
    ensures Put(fp, s, d, Faults(false, false, false, false)) == (s, ReloadFailed(true))
  {
    UndeclaredIffBlankName(d);
    assert d.id in s.data[d.id := d];
  }
}
