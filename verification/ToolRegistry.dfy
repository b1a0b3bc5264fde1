/** Tool identity, risk and the governance registry. */
module ToolRegistry {
  import opened Prelude

  datatype ToolId = ToolId(backendId: string, toolName: string) {
    function Key(): string { backendId + "/" + toolName }

    predicate Valid() { backendId != "" && toolName != "" }
  }

  predicate ValidRisk(r: string) { r == "read" || r == "write" || r == "destructive" }

  datatype Drift = NoDrift | Detected | UnknownTool

  function CheckDrift(registered: string, live: string): Drift
  {
    if registered == live then NoDrift else Detected
  }

  datatype GovernanceRecord = GovernanceRecord(
    toolId: ToolId, known: bool, risk: string, registeredFingerprint: string, drift: Drift)
  {
    /** Fully authoritative: identified, known, not drifted, with a recognised risk. */
    predicate Authoritative() { toolId.Valid() && known && drift != Detected && ValidRisk(risk) }
  }

  datatype Entry = Entry(toolId: ToolId, risk: string, fingerprint: string)

  datatype RegistryError = IncompleteId | InvalidRisk | EmptyFingerprint | DuplicateEntry

  type Registry = map<string, Entry>

  function Problem(r: Registry, e: Entry): Option<RegistryError>
  {
    if !e.toolId.Valid() then Some(IncompleteId)
    else if !ValidRisk(e.risk) then Some(InvalidRisk)
    else if e.fingerprint == "" then Some(EmptyFingerprint)
    else if e.toolId.Key() in r then Some(DuplicateEntry)
    else None
  }

  function Registered(entries: seq<Entry>): Result<Registry, RegistryError>
  {
    if entries == [] then Ok(map[])
    else
      var before, e := Registered(entries[..|entries| - 1]), entries[|entries| - 1];
      if before.Err? then before
      else if Problem(before.value, e).Some? then Err(Problem(before.value, e).value)
      else Ok(before.value[e.toolId.Key() := e])
  }

  lemma {:induction false} FirstProblemStays(entries: seq<Entry>, n: nat)
    requires n <= |entries| && Registered(entries[..n]).Err?
    ensures Registered(entries) == Registered(entries[..n])
  {
    if n == |entries| {
      assert entries[..n] == entries;
    } else {
      assert entries[..|entries| - 1][..n] == entries[..n];
      FirstProblemStays(entries[..|entries| - 1], n);
    }
  }

  method NewRegistry(entries: seq<Entry>) returns (r: Result<Registry, RegistryError>)
    ensures r == Registered(entries)
  {
    var reg: Registry := map[];
    for i := 0 to |entries|
      invariant Registered(entries[..i]) == Ok(reg)
    {
      var e := entries[i];
      ghost var upTo := entries[..i + 1];
      assert upTo[..i] == entries[..i] && upTo[|upTo| - 1] == e;
      var problem := None;
      if !e.toolId.Valid() { problem := Some(IncompleteId); }
      else if !ValidRisk(e.risk) { problem := Some(InvalidRisk); }
      else if e.fingerprint == "" { problem := Some(EmptyFingerprint); }
      else if e.toolId.Key() in reg { problem := Some(DuplicateEntry); }
      if problem.Some? {
        FirstProblemStays(entries, i + 1);
        return Err(problem.value);
      }
      reg := reg[e.toolId.Key() := e];
    }
    assert entries[..|entries|] == entries;
    r := Ok(reg);
  }

  ghost predicate WellRegistered(entries: seq<Entry>) {
    && (forall i :: 0 <= i < |entries| ==>
          entries[i].toolId.backendId != "" && entries[i].toolId.toolName != ""
          && entries[i].risk in ["read", "write", "destructive"] && entries[i].fingerprint != "")
    && (forall i, j :: 0 <= i < j < |entries| ==> entries[i].toolId.Key() != entries[j].toolId.Key())
  }

  ghost predicate Registers(entries: seq<Entry>, key: string) {
    exists i :: 0 <= i < |entries| && entries[i].toolId.Key() == key
  }

  lemma WellRegisteredStep(before: seq<Entry>, e: Entry)
    ensures WellRegistered(before + [e]) <==>
      WellRegistered(before) && e.toolId.Valid() && ValidRisk(e.risk) && e.fingerprint != "" && !Registers(before, e.toolId.Key())
    ensures forall k :: Registers(before + [e], k) <==> Registers(before, k) || k == e.toolId.Key()
  {
    hide ToolId.Key;
    var entries := before + [e];
    assert entries[|before|] == e && forall i :: 0 <= i < |before| ==> entries[i] == before[i];
    if Registers(before, e.toolId.Key()) {
      var i :| 0 <= i < |before| && before[i].toolId.Key() == e.toolId.Key();
      assert entries[i].toolId.Key() == entries[|before|].toolId.Key();
    }
    forall k | Registers(before, k) ensures Registers(entries, k) {
      var i :| 0 <= i < |before| && before[i].toolId.Key() == k;
      assert entries[i].toolId.Key() == k;
    }
  }

  /** Entries make a registry exactly when each is complete, with a known risk and a fingerprint, and no
      two have the same key; the registry then holds each under its key and nothing else. */
  lemma {:induction false} RegisteredExactly(entries: seq<Entry>)
    ensures Registered(entries).Ok? <==> WellRegistered(entries)
    ensures Registered(entries).Ok? ==>
      && (forall i :: 0 <= i < |entries| ==>
            entries[i].toolId.Key() in Registered(entries).value && Registered(entries).value[entries[i].toolId.Key()] == entries[i])
      && (forall k :: k in Registered(entries).value <==> Registers(entries, k))
  {
    if entries != [] {
      var before, e := entries[..|entries| - 1], entries[|entries| - 1];
      RegisteredExactly(before);
      assert entries == before + [e];
      WellRegisteredStep(before, e);
      hide WellRegistered, ValidRisk, ToolId.Valid, ToolId.Key;
      if Registered(entries).Ok? {
        forall i | 0 <= i < |before| ensures before[i].toolId.Key() != e.toolId.Key() {
          assert before[i].toolId.Key() in Registered(before).value;
        }
      }
    }
  }

  /** The governance record for `id`; an empty live fingerprint skips the drift check. */
  function Lookup(r: Registry, id: ToolId, liveFingerprint: string): GovernanceRecord
  {
    if id.Key() !in r then GovernanceRecord(id, false, "", "", UnknownTool)
    else
      var e := r[id.Key()];
      GovernanceRecord(id, true, e.risk, e.fingerprint,
        if liveFingerprint != "" then CheckDrift(e.fingerprint, liveFingerprint) else NoDrift)
  }

  // ---- The textual key ----

  /** The position of the last slash, or -1. */
  function LastSlash(s: string): (i: int)
    ensures -1 <= i < |s| && (i >= 0 ==> s[i] == '/') && forall j :: i < j < |s| ==> s[j] != '/'
  {
    if s == "" then -1
    else if s[|s| - 1] == '/' then |s| - 1
    else LastSlash(s[..|s| - 1])
  }

  /** Reads a key back, splitting at the last slash. */
  function FromKey(key: string): ToolId
    requires '/' in key
  {
    var i := LastSlash(key);
    ToolId(key[..i], key[i + 1..])
  }

  lemma KeyHasSlash(id: ToolId)
    ensures '/' in id.Key()
  {
    assert id.Key()[|id.backendId|] == '/';
  }

  /** Reading a key back recovers the tool exactly when its name has no slash. */
  lemma FromKeyOfKey(id: ToolId)
    ensures '/' in id.Key()
    ensures FromKey(id.Key()).Key() == id.Key() && '/' !in FromKey(id.Key()).toolName
    ensures FromKey(id.Key()) == id <==> '/' !in id.toolName
  {
    KeyHasSlash(id);
    var key, n := id.Key(), |id.backendId|;
    var i := LastSlash(key);
    assert key[n] == '/' && forall j :: n < j < |key| ==> key[j] == id.toolName[j - n - 1];
    assert n <= i;
    assert key == key[..i] + ['/'] + key[i + 1..];
    assert '/' !in key[i + 1..];
    if '/' !in id.toolName {
      assert i == n;
      assert key[..n] == id.backendId && key[n + 1..] == id.toolName;
    }
  }

  /** Keys are injective on tools whose names have no slash. */
  lemma KeyInjective(a: ToolId, b: ToolId)
    requires '/' !in a.toolName && '/' !in b.toolName
    ensures a.Key() == b.Key() <==> a == b
  {
    FromKeyOfKey(a);
    FromKeyOfKey(b);
  }
}
