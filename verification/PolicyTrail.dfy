/** The policy lifecycle as its audit trail tells it: every mutation the manager reports is appended
    to the chain of its workspace, among the decisions. */
module PolicyTrail {
  import opened Prelude
  import A = AuditChain
  import M = PolicyManager
  import P = PolicyStore
  import S = AuditStore
  import V = AuditService

  function ActionName(a: M.Action): string
  {
    match a
    case Created => "create_candidate"
    case Activated => "activate"
    case RolledBack => "rollback"
  }

  /** Who asked for a mutation and when. */
  datatype Info = Info(correlationId: string, timestamp: int, operatorId: string)

  function EventOf(mu: M.Mutation, info: Info): S.MutationEvent
  {
    S.MutationEvent(mu.workspaceId, ActionName(mu.action), mu.previousVersion, mu.newVersion,
                    info.correlationId, info.timestamp, info.operatorId)
  }

  datatype State = State(policies: M.State, store: S.State)

  datatype Event =
    | Govern(op: M.Op, info: Info, at: V.Moment)
    | Decide(p: V.Pending, at: V.Moment)
    | SetFault(fault: bool)

  /** The mutation an operation reports, if any. */
  ghost function Reported(l: M.Language, m: M.State, op: M.Op): Option<M.Mutation>
  {
    match op
    case DoCreate(ws, version, content, description, now, f) => M.Create(l, m, ws, version, content, description, now, f).1
    case DoActivate(ws, version, now, f) => M.Switch(l, m, ws, version, M.Activated, now, f).1
    case DoRollback(ws, version, now, f) => M.Switch(l, m, ws, version, M.RolledBack, now, f).1
    case _ => None
  }

  ghost function Apply(u: V.Setup, l: M.Language, s: State, event: Event): State
  {
    match event
    case Govern(op, info, at) =>
      var reported := Reported(l, s.policies, op);
      State(M.ApplyOp(l, s.policies, op),
            if reported.Some? then V.Mutate(u, s.store, EventOf(reported.value, info), at).0 else s.store)
    case Decide(p, at) => s.(store := V.Commit(u, s.store, p, at).0)
    case SetFault(fault) => s.(store := s.store.(faulty := fault))
  }

  ghost function Run(u: V.Setup, l: M.Language, events: seq<Event>): State
  {
    if events == [] then State(M.State(map[], map[], map[]), S.State(map[], 0, false))
    else Apply(u, l, Run(u, l, events[..|events| - 1]), events[|events| - 1])
  }

  predicate IsSwitch(r: A.StoredRecord) {
    r.body.eventType == A.EVENT_MUTATION && r.body.reason in [ActionName(M.Activated), ActionName(M.RolledBack)]
  }

  /** The active version according to the records: that of the last activation or rollback. */
  function Told(rs: seq<A.StoredRecord>): string
  {
    if rs == [] then ""
    else if IsSwitch(rs[|rs| - 1]) then rs[|rs| - 1].body.policyVersion
    else Told(rs[..|rs| - 1])
  }

  /** Every activation or rollback on record gives as previous version the one active by then. */
  ghost predicate LinksUp(rs: seq<A.StoredRecord>) {
    forall i :: 0 <= i < |rs| && IsSwitch(rs[i]) ==> rs[i].body.policyHash == Told(rs[..i])
  }

  lemma TrailAppend(rs: seq<A.StoredRecord>, r: A.StoredRecord)
    ensures LinksUp(rs + [r]) <==> LinksUp(rs) && (IsSwitch(r) ==> r.body.policyHash == Told(rs))
    ensures Told(rs + [r]) == if IsSwitch(r) then r.body.policyVersion else Told(rs)
  {
    var longer := rs + [r];
    assert longer[..|rs|] == rs && longer[|rs|] == r;
    assert forall i :: 0 <= i < |rs| ==> longer[..i] == rs[..i] && longer[i] == rs[i];
    hide IsSwitch, Told;
    if LinksUp(longer) {
      forall i | 0 <= i < |rs| && IsSwitch(rs[i]) ensures rs[i].body.policyHash == Told(rs[..i]) {
        assert longer[i].body.policyHash == Told(longer[..i]);
      }
    }
    if LinksUp(rs) {
      forall i | 0 <= i < |rs| && IsSwitch(longer[i]) ensures longer[i].body.policyHash == Told(longer[..i]) {
        assert rs[i].body.policyHash == Told(rs[..i]);
      }
    }
  }

  // ---- The switches of a run ----

  /** A successful activation or rollback, and whether the audit store took its record. */
  datatype Switched = Switched(version: string, recorded: bool)

  /** The switch of `ws` that an event makes, if any. */
  ghost function SwitchBy(l: M.Language, s: State, event: Event, ws: string): Option<Switched>
  {
    if !event.Govern? then None
    else
      var reported := Reported(l, s.policies, event.op);
      if reported.Some? && !reported.value.action.Created? && reported.value.workspaceId == ws
      then Some(Switched(reported.value.newVersion, !s.store.faulty)) else None
  }

  /** The switches of `ws` in a run, in order. */
  ghost function Switches(u: V.Setup, l: M.Language, events: seq<Event>, ws: string): seq<Switched>
  {
    if events == [] then []
    else
      var before := events[..|events| - 1];
      var made := SwitchBy(l, Run(u, l, before), events[|events| - 1], ws);
      Switches(u, l, before, ws) + if made.Some? then [made.value] else []
  }

  /** The version last switched to, or the empty string. */
  function Current(sw: seq<Switched>): string { if sw == [] then "" else sw[|sw| - 1].version }

  /** The version last switched to on record, or the empty string. */
  function OnRecord(sw: seq<Switched>): string
  {
    if sw == [] then ""
    else if sw[|sw| - 1].recorded then sw[|sw| - 1].version
    else OnRecord(sw[..|sw| - 1])
  }

  /** The last switch was recorded, or it only brought back the version last on record. */
  ghost predicate UpToDate(sw: seq<Switched>) {
    sw != [] && !sw[|sw| - 1].recorded ==> sw[|sw| - 1].version == OnRecord(sw)
  }

  /** No switch was recorded while the record was out of date. */
  ghost predicate RecordedInTime(sw: seq<Switched>) {
    forall i :: 0 <= i < |sw| && sw[i].recorded ==> UpToDate(sw[..i])
  }

  lemma UpToDateExactly(sw: seq<Switched>)
    ensures UpToDate(sw) <==> Current(sw) == OnRecord(sw)
  {
  }

  lemma OneMoreSwitch(sw: seq<Switched>, x: Switched)
    ensures OnRecord(sw + [x]) == if x.recorded then x.version else OnRecord(sw)
    ensures RecordedInTime(sw + [x]) <==> RecordedInTime(sw) && (x.recorded ==> UpToDate(sw))
  {
    hide UpToDate;
    var longer := sw + [x];
    assert longer[..|sw|] == sw && longer[|sw|] == x;
    assert forall i :: 0 <= i < |sw| ==> longer[..i] == sw[..i] && longer[i] == sw[i];
    if RecordedInTime(longer) {
      forall i | 0 <= i < |sw| && sw[i].recorded ensures UpToDate(sw[..i]) { assert UpToDate(longer[..i]); }
    }
    if RecordedInTime(sw) {
      forall i | 0 <= i < |sw| && longer[i].recorded ensures UpToDate(longer[..i]) { assert UpToDate(sw[..i]); }
    }
  }

  /** The chain and the store of `ws` in state `s` are what the switches `sw` make them. */
  ghost predicate Matches(s: State, ws: string, sw: seq<Switched>) {
    var rs := S.Chain(s.store, ws);
    && Told(rs) == OnRecord(sw) && P.ActiveVersion(s.policies.data, ws) == Current(sw)
    && (LinksUp(rs) <==> RecordedInTime(sw))
  }

  ghost predicate PoliciesOk(l: M.Language, s: State) { M.Agrees(l, s.policies) && "" !in s.policies.data }

  lemma SameActive(d: P.Data, e: P.Data, ws: string)
    requires P.Consistent(d) && forall v :: P.IsActive(d, ws, v) <==> P.IsActive(e, ws, v)
    ensures P.ActiveVersion(d, ws) == P.ActiveVersion(e, ws)
  {
    if v :| P.IsActive(d, ws, v) {
      assert P.IsActive(e, ws, v);
      assert P.IsActive(d, ws, P.ActiveVersion(d, ws)) && P.IsActive(e, ws, P.ActiveVersion(e, ws));
      assert P.IsActive(d, ws, P.ActiveVersion(e, ws));
    }
  }

  /** A mutation of a named workspace leaves one record that says what was reported. */
  lemma MutationRecorded(u: V.Setup, st: S.State, e: S.MutationEvent, at: V.Moment)
    requires !st.faulty && e.workspaceId != ""
    ensures var next := V.Mutate(u, st, e, at).0;
      var rs, after := S.Chain(st, e.workspaceId), S.Chain(next, e.workspaceId);
      && !next.faulty && |after| == |rs| + 1 && after == rs + [after[|rs|]]
      && V.RecordOfMutation(e, at, after[|rs|])
      && forall ws :: ws != e.workspaceId ==> S.Chain(next, ws) == S.Chain(st, ws)
  {
    V.MutateCases(u, st, e, at);
  }

  /** While the store fails, a mutation leaves no record. */
  lemma MutationMissed(u: V.Setup, st: S.State, e: S.MutationEvent, at: V.Moment)
    requires st.faulty
    ensures V.Mutate(u, st, e, at).0 == st
  {
  }

  lemma DecideMatches(u: V.Setup, l: M.Language, s: State, p: V.Pending, at: V.Moment, ws: string, sw: seq<Switched>)
    requires Matches(s, ws, sw)
    ensures Matches(Apply(u, l, s, Decide(p, at)), ws, sw)
  {
    var t := Apply(u, l, s, Decide(p, at));
    V.CommitCases(u, s.store, p, at);
    hide V.Commit, P.ActiveVersion, OnRecord, RecordedInTime;
    if ws == p.req.workspaceId && t.store != s.store {
      var rs, after := S.Chain(s.store, ws), S.Chain(t.store, ws);
      TrailAppend(rs, after[|rs|]);
      assert after == rs + [after[|rs|]];
    }
    hide Told, LinksUp;
  }

  /** What an operation does to the active versions and what it reports belong together. */
  lemma ReportMatches(l: M.Language, m: M.State, op: M.Op)
    requires l.Valid() && M.Agrees(l, m) && "" !in m.data
    ensures var next, reported := M.ApplyOp(l, m, op), Reported(l, m, op);
      && "" !in next.data
      && (reported.Some? ==> reported.value.workspaceId != "")
      && (reported.Some? && !reported.value.action.Created? ==>
            && reported.value.previousVersion == P.ActiveVersion(m.data, reported.value.workspaceId)
            && reported.value.newVersion == P.ActiveVersion(next.data, reported.value.workspaceId))
      && (forall ws :: (reported.Some? && !reported.value.action.Created? ==> ws != reported.value.workspaceId) ==>
            P.ActiveVersion(next.data, ws) == P.ActiveVersion(m.data, ws))
  {
    var next, reported := M.ApplyOp(l, m, op), Reported(l, m, op);
    match op
    case DoCreate(ws, version, content, description, now, f) =>
      if l.parses(content) {
        var p := P.PolicyRecord(ws, version, content, P.Candidate, description, 0, None);
        P.CreateKeepsConsistency(l.hash, m.data, p, now, f.write);
        forall other ensures P.ActiveVersion(next.data, other) == P.ActiveVersion(m.data, other) {
          SameActive(m.data, next.data, other);
        }
      }
    case DoActivate(ws, version, now, f) => SwitchMatches(l, m, ws, version, M.Activated, now, f);
    case DoRollback(ws, version, now, f) => SwitchMatches(l, m, ws, version, M.RolledBack, now, f);
    case DoLoad(workspaces) => M.LoadKeepsAgreement(l, m, workspaces);
    case Restart =>
  }

  lemma SwitchMatches(l: M.Language, m: M.State, ws: string, version: string, action: M.Action, now: int, f: M.Faults)
    requires M.Agrees(l, m) && "" !in m.data
    ensures var (next, reported) := M.Switch(l, m, ws, version, action, now, f);
      && "" !in next.data
      && (reported.Some? ==>
            && reported == Some(M.Mutation(ws, action, P.ActiveVersion(m.data, ws), P.ActiveVersion(next.data, ws)))
            && ws != "")
      && (forall other :: (reported.Some? ==> other != ws) ==> P.ActiveVersion(next.data, other) == P.ActiveVersion(m.data, other))
  {
    var (next, reported) := M.Switch(l, m, ws, version, action, now, f);
    if reported.Some? {
      P.ActivateKeepsConsistency(m.data, ws, version, now, f.write);
      assert P.IsActive(next.data, ws, version);
      hide P.Promoted;
      forall other | other != ws ensures P.ActiveVersion(next.data, other) == P.ActiveVersion(m.data, other) {
        SameActive(m.data, next.data, other);
      }
    }
  }

  lemma GovernMatches(u: V.Setup, l: M.Language, s: State, op: M.Op, info: Info, at: V.Moment, ws: string, sw: seq<Switched>)
    requires l.Valid() && PoliciesOk(l, s) && Matches(s, ws, sw)
    ensures var made := SwitchBy(l, s, Govern(op, info, at), ws);
      Matches(Apply(u, l, s, Govern(op, info, at)), ws, sw + if made.Some? then [made.value] else [])
  {
    var t, reported := Apply(u, l, s, Govern(op, info, at)), Reported(l, s.policies, op);
    ReportMatches(l, s.policies, op);
    assert sw + [] == sw;
    if reported.None? || s.store.faulty || ws != reported.value.workspaceId {
      if reported.Some? {
        if s.store.faulty {
          MutationMissed(u, s.store, EventOf(reported.value, info), at);
        } else {
          MutationRecorded(u, s.store, EventOf(reported.value, info), at);
        }
      }
      assert S.Chain(t.store, ws) == S.Chain(s.store, ws);
      hide V.Mutate, M.ApplyOp, Reported, M.Agrees, Matches;
      UnrecordedMatches(s, t, ws, sw, SwitchBy(l, s, Govern(op, info, at), ws));
    } else {
      MutationRecorded(u, s.store, EventOf(reported.value, info), at);
      hide V.Mutate, M.ApplyOp, Reported, M.Agrees, Matches;
      RecordedMatches(s, t, ws, sw, reported.value, S.Chain(t.store, ws)[|S.Chain(s.store, ws)|]);
    }
  }

  lemma RecordedMatches(s: State, t: State, ws: string, sw: seq<Switched>, mu: M.Mutation, r: A.StoredRecord)
    requires Matches(s, ws, sw) && S.Chain(t.store, ws) == S.Chain(s.store, ws) + [r]
    requires r.body.eventType == A.EVENT_MUTATION && r.body.reason == ActionName(mu.action)
    requires r.body.policyVersion == mu.newVersion && r.body.policyHash == mu.previousVersion
    requires if mu.action.Created? then P.ActiveVersion(t.policies.data, ws) == P.ActiveVersion(s.policies.data, ws)
      else mu.previousVersion == P.ActiveVersion(s.policies.data, ws) && mu.newVersion == P.ActiveVersion(t.policies.data, ws)
    ensures Matches(t, ws, sw + if mu.action.Created? then [] else [Switched(mu.newVersion, true)])
  {
    SwitchByAction(r, mu.action);
    hide P.ActiveVersion, Told, LinksUp, RecordedInTime, UpToDate, OnRecord, IsSwitch, ActionName, S.Chain;
    TrailAppend(S.Chain(s.store, ws), r);
    UpToDateExactly(sw);
    if mu.action.Created? {
      assert sw + [] == sw;
    } else {
      OneMoreSwitch(sw, Switched(mu.newVersion, true));
    }
  }

  lemma SwitchByAction(r: A.StoredRecord, action: M.Action)
    requires r.body.eventType == A.EVENT_MUTATION && r.body.reason == ActionName(action)
    ensures IsSwitch(r) <==> !action.Created?
  {
  }

  lemma UnrecordedMatches(s: State, t: State, ws: string, sw: seq<Switched>, made: Option<Switched>)
    requires Matches(s, ws, sw) && S.Chain(t.store, ws) == S.Chain(s.store, ws)
    requires made.Some? ==> !made.value.recorded
    requires P.ActiveVersion(t.policies.data, ws) ==
      if made.Some? then made.value.version else P.ActiveVersion(s.policies.data, ws)
    ensures Matches(t, ws, sw + if made.Some? then [made.value] else [])
  {
    if made.Some? { OneMoreSwitch(sw, made.value); }
    assert sw + [] == sw;
    hide P.ActiveVersion, Told, LinksUp, RecordedInTime, UpToDate, OnRecord;
  }

  lemma {:induction false} RunMatches(u: V.Setup, l: M.Language, events: seq<Event>, ws: string)
    requires l.Valid()
    ensures PoliciesOk(l, Run(u, l, events)) && Matches(Run(u, l, events), ws, Switches(u, l, events, ws))
  {
    if events != [] {
      var before, event := events[..|events| - 1], events[|events| - 1];
      RunMatches(u, l, before, ws);
      var s, sw := Run(u, l, before), Switches(u, l, before, ws);
      match event
      case Govern(op, info, at) =>
        M.OpKeepsAgreement(l, s.policies, op);
        ReportMatches(l, s.policies, op);
        GovernMatches(u, l, s, op, info, at, ws, sw);
        hide M.ApplyOp, M.Agrees, SwitchBy, Matches;
      case Decide(p, at) =>
        DecideMatches(u, l, s, p, at, ws, sw);
        assert sw + [] == sw;
        hide Matches, M.Agrees;
      case SetFault(fault) =>
        assert sw + [] == sw;
        assert S.Chain(Apply(u, l, s, event).store, ws) == S.Chain(s.store, ws);
        hide Told, LinksUp, M.Agrees, P.ActiveVersion;
    }
  }

  /** What the trail is worth, exactly. In every run of policy operations and decisions, with failing
      store calls and audit writes: the last activation or rollback in a workspace's chain names its
      active version if and only if the last one made was recorded, or only brought back the version
      last on record; and each one on record names the version active before it if and only if that was
      so whenever one was recorded. */
  lemma TrailExactly(u: V.Setup, l: M.Language, events: seq<Event>, ws: string)
    requires l.Valid()
    ensures var s, sw := Run(u, l, events), Switches(u, l, events, ws);
      && (Told(S.Chain(s.store, ws)) == P.ActiveVersion(s.policies.data, ws) <==> UpToDate(sw))
      && (LinksUp(S.Chain(s.store, ws)) <==> RecordedInTime(sw))
  {
    RunMatches(u, l, events, ws);
    UpToDateExactly(Switches(u, l, events, ws));
    hide Run, Switches;
  }

  /** No switch that changed the version was missed. */
  ghost predicate NoChangeMissed(sw: seq<Switched>) {
    forall i :: 0 <= i < |sw| && !sw[i].recorded ==> sw[i].version == Current(sw[..i])
  }

  lemma {:induction false} NoChangeMissedUpToDate(sw: seq<Switched>)
    requires NoChangeMissed(sw)
    ensures UpToDate(sw) && RecordedInTime(sw)
  {
    if sw != [] {
      var before, x := sw[..|sw| - 1], sw[|sw| - 1];
      assert sw == before + [x];
      assert forall i :: 0 <= i < |before| ==> before[..i] == sw[..i] && before[i] == sw[i];
      NoChangeMissedUpToDate(before);
      UpToDateExactly(before);
      OneMoreSwitch(before, x);
    }
  }

  /** In particular, as long as no change of version is missed, the trail tells the lifecycle. */
  lemma TrailTellsActiveVersion(u: V.Setup, l: M.Language, events: seq<Event>, ws: string)
    requires l.Valid()
    ensures var s := Run(u, l, events);
      NoChangeMissed(Switches(u, l, events, ws)) ==>
        Told(S.Chain(s.store, ws)) == P.ActiveVersion(s.policies.data, ws) && LinksUp(S.Chain(s.store, ws))
  {
    TrailExactly(u, l, events, ws);
    if NoChangeMissed(Switches(u, l, events, ws)) { NoChangeMissedUpToDate(Switches(u, l, events, ws)); }
    hide Run, Switches, UpToDate, RecordedInTime;
  }

  /** What a switch does to the trail: one that is recorded repairs what the trail tells; one that is
      missed spoils it exactly when it leaves the version last on record. */
  lemma SwitchRepairsOrSpoils(u: V.Setup, l: M.Language, events: seq<Event>, event: Event, ws: string)
    requires l.Valid() && SwitchBy(l, Run(u, l, events), event, ws).Some?
    ensures var made, t := SwitchBy(l, Run(u, l, events), event, ws).value, Run(u, l, events + [event]);
      Told(S.Chain(t.store, ws)) == P.ActiveVersion(t.policies.data, ws) <==>
      made.recorded || made.version == Told(S.Chain(Run(u, l, events).store, ws))
  {
    var made := SwitchBy(l, Run(u, l, events), event, ws).value;
    assert (events + [event])[..|events|] == events;
    RunMatches(u, l, events, ws);
    RunMatches(u, l, events + [event], ws);
    OneMoreSwitch(Switches(u, l, events, ws), made);
    assert Switches(u, l, events + [event], ws) == Switches(u, l, events, ws) + [made];
    hide Run, Switches, SwitchBy;
  }

  /** A run in which the trail is wrong: a version is created, the audit store fails, and the version is
      activated. */
  lemma MissedActivation(u: V.Setup, l: M.Language, content: string, info: Info, at: V.Moment) returns (events: seq<Event>)
    requires l.Valid() && l.parses(content)
    ensures var s := Run(u, l, events);
      Told(S.Chain(s.store, "w")) == "" && P.ActiveVersion(s.policies.data, "w") == "v"
  {
    var f := M.Faults(false, false, false);
    var create, activate := M.DoCreate("w", "v", content, "", 0, f), M.DoActivate("w", "v", 0, f);
    events := [Govern(create, info, at), SetFault(true), Govern(activate, info, at)];
    var e1, e2 := events[..1], events[..2];
    assert e1[..0] == [] && e2[..1] == e1;
    CreatedThenActivated(l, content);
    RunMatches(u, l, events, "w");
    hide M.ApplyOp, V.Mutate, Reported, Matches, PoliciesOk;
    var s0 := Run(u, l, []);
    assert s0 == State(M.State(map[], map[], map[]), S.State(map[], 0, false));
    assert Run(u, l, e1) == Apply(u, l, s0, events[0]);
    assert Run(u, l, e2) == Apply(u, l, Run(u, l, e1), SetFault(true));
    assert Switches(u, l, [], "w") == [] && SwitchBy(l, s0, events[0], "w") == None;
    assert Switches(u, l, e1, "w") == [] && Switches(u, l, e2, "w") == [];
    assert Switches(u, l, events, "w") == [Switched("v", false)];
    MatchesSays(Run(u, l, events), "w", Switches(u, l, events, "w"));
  }

  lemma MatchesSays(s: State, ws: string, sw: seq<Switched>)
    requires Matches(s, ws, sw)
    ensures Told(S.Chain(s.store, ws)) == OnRecord(sw) && P.ActiveVersion(s.policies.data, ws) == Current(sw)
  {
  }

  lemma CreatedThenActivated(l: M.Language, content: string)
    requires l.Valid() && l.parses(content)
    ensures var f, m := M.Faults(false, false, false), M.State(map[], map[], map[]);
      var create, activate := M.DoCreate("w", "v", content, "", 0, f), M.DoActivate("w", "v", 0, f);
      && Reported(l, m, create) == Some(M.Mutation("w", M.Created, "", "v"))
      && var reported := Reported(l, M.ApplyOp(l, m, create), activate);
      && reported.Some? && reported.value.workspaceId == "w" && reported.value.action.Activated? && reported.value.newVersion == "v"
  {
    hide P.ActiveVersion;
  }
}
