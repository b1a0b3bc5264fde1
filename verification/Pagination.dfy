/** The audit-events endpoint and the dashboard's loop over its pages. */
module Pagination {
  import opened Prelude
  import A = AuditChain
  import S = AuditStore

  const DEFAULT_LIMIT := 50
  const MAX_LIMIT := 100

  /** A record as the endpoint shows it: without its payload, its hashes and the credential reference. */
  datatype AuditEvent = AuditEvent(
    id: int, workspaceId: string, sequenceNumber: int, executionId: string, timestamp: int, eventType: string,
    decision: string, reason: string, agentId: string, roles: seq<string>, onBehalfOf: string, backendId: string,
    toolName: string, risk: string, policyVersion: string, policyHash: string, redactedArguments: map<string, string>)

  datatype Response = BadRequest | NotImplemented | InternalError | Page(events: seq<AuditEvent>, next: Option<int>)

  function View(r: A.StoredRecord): AuditEvent
  {
    AuditEvent(r.id, r.body.workspaceId, r.sequenceNumber, r.body.executionId, r.body.timestamp, r.body.eventType,
               r.body.decision, r.body.reason, r.body.agentId, r.body.roles, r.body.onBehalfOf, r.body.backendId,
               r.body.toolName, r.body.risk, r.body.policyVersion, r.body.policyHash, r.body.redactedArguments)
  }

  function Views(rs: seq<A.StoredRecord>): (es: seq<AuditEvent>)
    ensures |es| == |rs| && forall i :: 0 <= i < |rs| ==> es[i] == View(rs[i])
  {
    seq(|rs|, i requires 0 <= i < |rs| => View(rs[i]))
  }

  function PageOf(events: seq<AuditEvent>): Response
  {
    Page(events, if events == [] then None else Some(events[|events| - 1].sequenceNumber))
  }

  /** The page of a store: its newest records, those before `before` if it is given. */
  function Listed(st: S.State, ws: string, limit: int, before: Option<int>): Response
  {
    var rs := Reverse(S.Chain(st, ws));
    PageOf(Views(S.Limited(if before.Some? then S.OlderThan(before.value, rs) else rs, limit)))
  }

  method ViewAll(records: seq<A.StoredRecord>) returns (events: seq<AuditEvent>)
    ensures events == Views(records)
  {
    events := [];
    for i := 0 to |records|
      invariant |events| == i && forall j :: 0 <= j < i ==> events[j] == View(records[j])
    {
      events := events + [View(records[i])];
    }
  }

  /** The request parameters are raw strings, empty when absent; `parse` reads an integer. */
  method HandleListAuditEvents(parse: string -> Option<int>, store: S.MemoryStore?, ws: string, rawLimit: string, rawBefore: string, fault: bool)
    returns (r: Response)
    ensures r == BadRequest <==>
      || ws == ""
      || (store != null && rawLimit != "" && (parse(rawLimit).None? || parse(rawLimit).value <= 0))
      || (store != null && rawBefore != "" && parse(rawBefore).None?)
    ensures r == NotImplemented <==> ws != "" && store == null
    ensures r.Page? ==> !fault && store != null && (rawLimit == "" || parse(rawLimit).Some?)
    ensures r.Page? ==>
      r == Listed(store.Contents(), ws,
                  if rawLimit == "" then 50 else if parse(rawLimit).value > 100 then 100 else parse(rawLimit).value,
                  if rawBefore == "" then None else parse(rawBefore))
    ensures r == InternalError ==> fault
  {
    hide S.OlderThan, S.Limited, Views;
    if ws == "" { return BadRequest; }
    if store == null { return NotImplemented; }
    var limit := DEFAULT_LIMIT;
    if rawLimit != "" {
      var parsed := parse(rawLimit);
      if parsed.None? || parsed.value <= 0 { return BadRequest; }
      limit := parsed.value;
    }
    if limit > MAX_LIMIT { limit := MAX_LIMIT; }
    var records: seq<A.StoredRecord>;
    if rawBefore != "" {
      var before := parse(rawBefore);
      if before.None? { return BadRequest; }
      if fault { return InternalError; }
      records := store.ListRecordsBefore(ws, before.value, limit);
    } else {
      if fault { return InternalError; }
      records := store.ListRecords(ws, limit);
    }
    var events := ViewAll(records);
    var next := None;
    if |events| > 0 { next := Some(events[|events| - 1].sequenceNumber); }
    r := Page(events, next);
  }

  // ---- The dashboard's loop ----

  const PAGE_SIZE := 100
  const MAX_PAGES := 30

  predicate IsDecision(e: AuditEvent) { e.eventType == A.EVENT_DECISION }

  /** The newest `limit` decisions among the newest 3000 events of a snapshot. */
  function RecentDecisions(st: S.State, ws: string, limit: int): seq<AuditEvent>
  {
    Take(Filter(IsDecision, Take(Newest(st, ws), MAX_PAGES * PAGE_SIZE)), limit)
  }

  /** The store as the pages find it: numbered, and only growing from page to page. */
  ghost predicate Growing(snapshots: seq<S.State>) {
    && (forall i :: 0 <= i < |snapshots| ==> S.Numbered(snapshots[i]))
    && (forall i, j :: 0 <= i < j < |snapshots| ==> S.Extends(snapshots[i], snapshots[j]))
  }

  function Newest(st: S.State, ws: string): seq<AuditEvent> { Views(Reverse(S.Chain(st, ws))) }

  /** The cursor after `seen` of `n` events: none before the first page. */
  ghost predicate Cursor(before: Option<int>, n: nat, seen: nat) {
    (before == None && seen == 0) || before == Some(n - seen + 1)
  }

  /** Where the next page ends. */
  function PageEnd(n: nat, seen: nat): (r: nat)
    requires seen <= n
    ensures seen <= r <= n
  {
    if seen + PAGE_SIZE <= n then seen + PAGE_SIZE else n
  }

  lemma ViewsOfPrefix(first: seq<A.StoredRecord>, seen: nat)
    requires seen <= |first|
    ensures Views(S.Limited(Reverse(first[..|first| - seen]), PAGE_SIZE)) == Views(Reverse(first))[seen..PageEnd(|first|, seen)]
  {
  }

  /** What arrived after the first snapshot does not show up behind the cursor. */
  lemma ShownRecords(first: seq<A.StoredRecord>, now: seq<A.StoredRecord>, seen: nat)
    requires IsPrefix(first, now) && seen <= |first|
    requires forall i :: 0 <= i < |now| ==> now[i].sequenceNumber == i + 1
    ensures S.OlderThan(|first| - seen + 1, Reverse(now)) == Reverse(first[..|first| - seen])
  {
    var m := |first| - seen;
    S.OlderIsSuffix(now, m + 1);
    assert now[..m] == first[..m] && now[..|now|] == now;
    if m == |now| { assert now[..m] == now; }
  }

  /** A page shows the next hundred events of the first snapshot, whichever later snapshot it reads. */
  lemma NextPage(snapshots: seq<S.State>, ws: string, k: nat, seen: nat, before: Option<int>)
    requires Growing(snapshots) && k < |snapshots| && seen <= |Newest(snapshots[0], ws)|
    requires Cursor(before, |Newest(snapshots[0], ws)|, seen) && (before.None? ==> k == 0)
    ensures var all := Newest(snapshots[0], ws);
      Listed(snapshots[k], ws, PAGE_SIZE, before) == PageOf(all[seen..PageEnd(|all|, seen)])
  {
    hide Listed, Newest, S.OlderThan, S.Limited, Views, PageEnd, Growing, S.Chain, PageOf, Reverse, IsPrefix;
    var first, now := S.Chain(snapshots[0], ws), S.Chain(snapshots[k], ws);
    NewestViews(snapshots[0], ws);
    GrownChain(snapshots, ws, k);
    ListedShows(snapshots[k], ws, before);
    ViewsOfPrefix(first, seen);
    if before.Some? {
      ShownRecords(first, now, seen);
    } else {
      assert first[..|first|] == first;
    }
  }

  lemma NewestViews(st: S.State, ws: string)
    ensures Newest(st, ws) == Views(Reverse(S.Chain(st, ws))) && |Newest(st, ws)| == |S.Chain(st, ws)|
  {
  }

  lemma ListedShows(st: S.State, ws: string, before: Option<int>)
    ensures var rs := Reverse(S.Chain(st, ws));
      Listed(st, ws, PAGE_SIZE, before) == PageOf(Views(S.Limited(if before.Some? then S.OlderThan(before.value, rs) else rs, PAGE_SIZE)))
  {
  }

  lemma GrownChain(snapshots: seq<S.State>, ws: string, k: nat)
    requires Growing(snapshots) && k < |snapshots|
    ensures var first, now := S.Chain(snapshots[0], ws), S.Chain(snapshots[k], ws);
      && IsPrefix(first, now) && (k == 0 ==> now == first)
      && forall i :: 0 <= i < |now| ==> now[i].sequenceNumber == i + 1
  {
    assert S.Numbered(snapshots[k]);
    if k > 0 { assert S.Extends(snapshots[0], snapshots[k]); }
  }

  /** Taking stops where it is full. */
  lemma TakeFilterMore(a: seq<AuditEvent>, b: seq<AuditEvent>, limit: int)
    ensures var taken := Take(Filter(IsDecision, a), limit);
      limit > 0 && |taken| >= limit ==> Take(Filter(IsDecision, a + b), limit) == taken
  {
    FilterAppend(IsDecision, a, b);
  }

  lemma TakeFilterOne(a: seq<AuditEvent>, e: AuditEvent, limit: int)
    requires limit > 0
    ensures var taken := Take(Filter(IsDecision, a), limit);
      Take(Filter(IsDecision, a + [e]), limit) == if IsDecision(e) && |taken| < limit then taken + [e] else taken
  {
    FilterAppend(IsDecision, a, [e]);
    assert Filter(IsDecision, [e]) == if IsDecision(e) then [e] else [];
    TakeOne(Filter(IsDecision, a), e, limit);
    hide Take, Filter, IsDecision;
  }

  lemma TakeOne(s: seq<AuditEvent>, e: AuditEvent, limit: int)
    requires limit > 0
    ensures Take(s + [e], limit) == if |Take(s, limit)| < limit then Take(s, limit) + [e] else Take(s, limit)
    ensures s + [] == s
  {
  }

  /** Adds the decisions of one page, up to the limit. */
  method Collect(ghost seen: seq<AuditEvent>, events: seq<AuditEvent>, limit: int, soFar: seq<AuditEvent>) returns (out: seq<AuditEvent>)
    requires limit > 0 && soFar == Take(Filter(IsDecision, seen), limit)
    ensures out == Take(Filter(IsDecision, seen + events), limit)
  {
    hide Take, Filter, IsDecision;
    out := soFar;
    assert seen + events[..0] == seen;
    for i := 0 to |events|
      invariant out == Take(Filter(IsDecision, seen + events[..i]), limit)
    {
      var e := events[i];
      TakeFilterOne(seen + events[..i], e, limit);
      assert seen + events[..i + 1] == seen + events[..i] + [e];
      if IsDecision(e) && |out| < limit { out := out + [e]; }
    }
    assert events[..|events|] == events;
  }

  /** Looking further than `seen` changes nothing when the limit is reached or nothing is left. */
  lemma EnoughSeen(st: S.State, ws: string, seen: nat, limit: int)
    requires limit > 0 && seen <= |Newest(st, ws)| && seen <= MAX_PAGES * PAGE_SIZE
    requires var all := Newest(st, ws);
      |Take(Filter(IsDecision, all[..seen]), limit)| >= limit || seen == |all| || seen == MAX_PAGES * PAGE_SIZE
    ensures Take(Filter(IsDecision, Newest(st, ws)[..seen]), limit) == RecentDecisions(st, ws, limit)
  {
    hide Newest, Filter, Take;
    var all := Newest(st, ws);
    var rest := TakeCut(all, seen, MAX_PAGES * PAGE_SIZE);
    TakeFilterMore(all[..seen], rest, limit);
    assert all[..seen] + [] == all[..seen];
  }

  lemma TakeCut(all: seq<AuditEvent>, seen: nat, n: nat) returns (rest: seq<AuditEvent>)
    requires seen <= |all| && seen <= n
    ensures Take(all, n) == all[..seen] + rest
    ensures seen == |all| || seen == n ==> rest == []
  {
    rest := Take(all, n)[seen..];
  }

  /** Pages from the newest event back until `limit` decisions are found, the events end, or thirty
      pages were read. `snapshots[k]` is the store when page `k` is read. Although records keep
      arriving between pages, the result is that of one look at the first snapshot. */
  method LoadRecentDecisions(snapshots: seq<S.State>, ws: string, limit: int) returns (out: seq<AuditEvent>)
    requires |snapshots| == MAX_PAGES && Growing(snapshots)
    ensures out == RecentDecisions(snapshots[0], ws, limit)
  {
    hide Listed, Views, Growing, Filter, IsDecision, Take, Newest, RecentDecisions;
    out := [];
    if limit <= 0 { NothingWanted(snapshots[0], ws, limit); return; }
    ghost var all := Newest(snapshots[0], ws);
    ghost var seen: nat := 0;
    var before: Option<int> := None;
    var page := 0;
    NothingSeen(all, limit);
    while page < MAX_PAGES && |out| < limit
      invariant 0 <= page <= MAX_PAGES && seen <= |all|
      invariant seen == if page * PAGE_SIZE <= |all| then page * PAGE_SIZE else |all|
      invariant Cursor(before, |all|, seen) && (before.None? ==> page == 0)
      invariant out == Take(Filter(IsDecision, all[..seen]), limit)
      decreases MAX_PAGES - page
    {
      NextPage(snapshots, ws, page, seen, before);
      var res := Listed(snapshots[page], ws, PAGE_SIZE, before);
      out := Collect(all[..seen], res.events, limit, out);
      assert all[..seen] + res.events == all[..seen + |res.events|];
      seen := seen + |res.events|;
      if res.next.None? || |res.events| == 0 { break; }
      LastNumber(snapshots, ws, seen);
      before := res.next;
      page := page + 1;
    }
    EnoughSeen(snapshots[0], ws, seen, limit);
  }

  lemma NothingWanted(st: S.State, ws: string, limit: int)
    requires limit <= 0
    ensures RecentDecisions(st, ws, limit) == []
  {
  }

  lemma NothingSeen(all: seq<AuditEvent>, limit: int)
    ensures Take(Filter(IsDecision, all[..0]), limit) == []
  {
  }

  /** The number of the last of the newest `seen` events. */
  lemma LastNumber(snapshots: seq<S.State>, ws: string, seen: nat)
    requires Growing(snapshots) && snapshots != [] && 0 < seen <= |Newest(snapshots[0], ws)|
    ensures Newest(snapshots[0], ws)[seen - 1].sequenceNumber == |Newest(snapshots[0], ws)| - seen + 1
  {
  }

  /** What an event shows of its record: everything but the payload, the hashes and the credential
      reference. */
  lemma ViewShows(r: A.StoredRecord)
    ensures var e := View(r);
      && e.id == r.id && e.sequenceNumber == r.sequenceNumber && e.workspaceId == r.body.workspaceId
      && e.executionId == r.body.executionId && e.timestamp == r.body.timestamp && e.eventType == r.body.eventType
      && e.decision == r.body.decision && e.reason == r.body.reason && e.agentId == r.body.agentId && e.roles == r.body.roles
      && e.onBehalfOf == r.body.onBehalfOf && e.backendId == r.body.backendId && e.toolName == r.body.toolName
      && e.risk == r.body.risk && e.policyVersion == r.body.policyVersion && e.policyHash == r.body.policyHash
      && e.redactedArguments == r.body.redactedArguments
  {
  }

  /** Every event returned shows a record of the workspace that a decision left. */
  lemma RecentDecisionsAreDecisions(st: S.State, ws: string, limit: int, e: AuditEvent)
    requires e in RecentDecisions(st, ws, limit)
    ensures exists k :: 0 <= k < |S.Chain(st, ws)| && e == View(S.Chain(st, ws)[k]) && S.Chain(st, ws)[k].body.eventType == "decision"
  {
    var rs := S.Chain(st, ws);
    var all := Newest(st, ws);
    assert |all| == |rs| && forall i :: 0 <= i < |rs| ==> all[i] == View(rs[|rs| - 1 - i]);
    assert e in all && IsDecision(e) by {
      hide Newest, IsDecision;
      var cut := Take(all, MAX_PAGES * PAGE_SIZE);
      assert e in Filter(IsDecision, cut);
      assert e in cut;
    }
    var i :| 0 <= i < |all| && all[i] == e;
    hide Newest, Filter;
    assert e == View(rs[|rs| - 1 - i]);
  }

  lemma NewestOf(rs: seq<A.StoredRecord>, older: nat, limit: int)
    requires older <= |rs| && 0 < limit
    ensures var shown := S.Limited(Reverse(rs[..older]), limit);
      |shown| == (if older < limit then older else limit) && forall i :: 0 <= i < |shown| ==> shown[i] == rs[older - 1 - i]
  {
  }

  /** The response shows the `size` records of `rs` that end below place `older`, newest first, and
      says where the next page begins. */
  ghost predicate ShowsBelow(resp: Response, rs: seq<A.StoredRecord>, older: nat, size: nat)
    requires size <= older <= |rs|
  {
    && resp.Page? && |resp.events| == size
    && (forall i :: 0 <= i < size ==> resp.events[i] == View(rs[older - 1 - i]))
    && resp.next == if size == 0 then None else Some(older - size + 1)
  }

  lemma PageShows(shown: seq<A.StoredRecord>, rs: seq<A.StoredRecord>, older: nat)
    requires |shown| <= older <= |rs| && forall i :: 0 <= i < |shown| ==> shown[i] == rs[older - 1 - i]
    requires shown != [] ==> rs[older - |shown|].sequenceNumber == older - |shown| + 1
    ensures ShowsBelow(PageOf(Views(shown)), rs, older, |shown|)
  {
    hide View;
    if shown != [] { assert View(shown[|shown| - 1]).sequenceNumber == older - |shown| + 1 by { ViewShows(shown[|shown| - 1]); } }
  }

  /** A page of a numbered chain, exactly: the newest records before the cursor, as many as the limit. */
  lemma PageExactly(st: S.State, ws: string, limit: int, before: int)
    requires S.Numbered(st) && 0 < limit && 0 < before
    ensures var rs := S.Chain(st, ws);
      var older := if before - 1 < |rs| then before - 1 else |rs|;
      ShowsBelow(Listed(st, ws, limit, Some(before)), rs, older, if older < limit then older else limit)
  {
    var rs := S.Chain(st, ws);
    assert forall i :: 0 <= i < |rs| ==> rs[i].sequenceNumber == i + 1;
    var older := if before - 1 < |rs| then before - 1 else |rs|;
    S.OlderIsSuffix(rs, before);
    NewestOf(rs, older, limit);
    var shown := S.Limited(Reverse(rs[..older]), limit);
    assert shown != [] ==> rs[older - |shown|].sequenceNumber == older - |shown| + 1;
    ListedPage(st, ws, limit, before);
    hide Listed, S.OlderThan, S.Chain, S.Limited, S.Numbered, Reverse, PageOf, Views, ShowsBelow, View;
    PageShows(shown, rs, older);
  }

  lemma ListedPage(st: S.State, ws: string, limit: int, before: int)
    ensures Listed(st, ws, limit, Some(before)) == PageOf(Views(S.Limited(S.OlderThan(before, Reverse(S.Chain(st, ws))), limit)))
  {
  }

  /** The result has no duplicates and is in descending order. */
  lemma RecentDecisionsDescend(st: S.State, ws: string, limit: int)
    requires S.Numbered(st)
    ensures var es := RecentDecisions(st, ws, limit);
      forall i, j :: 0 <= i < j < |es| ==> es[i].sequenceNumber > es[j].sequenceNumber
  {
    FilterDescends(Take(Newest(st, ws), MAX_PAGES * PAGE_SIZE));
  }

  ghost predicate Descends(es: seq<AuditEvent>) {
    forall i, j :: 0 <= i < j < |es| ==> es[i].sequenceNumber > es[j].sequenceNumber
  }

  lemma {:induction false} FilterDescends(es: seq<AuditEvent>)
    requires Descends(es)
    ensures Descends(Filter(IsDecision, es))
  {
    if es != [] {
      FilterDescends(es[1..]);
      forall e | e in Filter(IsDecision, es[1..]) ensures es[0].sequenceNumber > e.sequenceNumber { assert e in es[1..]; }
    }
  }

  /** The list misses no decision: every decision among the newest 3000 records is on it, unless it is full
      of newer ones. */
  lemma RecentDecisionsComplete(st: S.State, ws: string, limit: int, k: nat)
    requires S.Numbered(st) && 0 < limit && k < |S.Chain(st, ws)| <= k + 3000
    requires S.Chain(st, ws)[k].body.eventType == "decision"
    ensures var es, e := RecentDecisions(st, ws, limit), View(S.Chain(st, ws)[k]);
      && |es| <= limit
      && (e in es || (|es| == limit && forall x :: x in es ==> x.sequenceNumber > e.sequenceNumber))
  {
    var place := NewestCut(st, ws, k);
    var cut, e := Take(Newest(st, ws), MAX_PAGES * PAGE_SIZE), View(S.Chain(st, ws)[k]);
    assert IsDecision(e);
    hide Newest, View, IsDecision, Take, S.Chain;
    FilterDescends(cut);
    FilterFinds(cut, place);
    hide Filter;
    ShownOrFull(Filter(IsDecision, cut), e, limit);
  }

  /** Where record `k` is among the newest 3000. */
  lemma NewestCut(st: S.State, ws: string, k: nat) returns (place: nat)
    requires S.Numbered(st) && k < |S.Chain(st, ws)| <= k + 3000
    ensures var cut := Take(Newest(st, ws), MAX_PAGES * PAGE_SIZE);
      Descends(cut) && place < |cut| && cut[place] == View(S.Chain(st, ws)[k])
  {
    place := |S.Chain(st, ws)| - 1 - k;
  }

  lemma ShownOrFull(es: seq<AuditEvent>, e: AuditEvent, limit: int)
    requires Descends(es) && e in es && 0 < limit
    ensures |Take(es, limit)| <= limit
    ensures e in Take(es, limit)
      || (|Take(es, limit)| == limit && forall x :: x in Take(es, limit) ==> x.sequenceNumber > e.sequenceNumber)
  {
    var i :| 0 <= i < |es| && es[i] == e;
    if i < limit { assert Take(es, limit)[i] == e; }
  }

  lemma {:induction false} FilterFinds(es: seq<AuditEvent>, i: nat)
    requires i < |es| && IsDecision(es[i])
    ensures es[i] in Filter(IsDecision, es)
  {
    hide IsDecision;
    if i > 0 { FilterFinds(es[1..], i - 1); }
  }
}
