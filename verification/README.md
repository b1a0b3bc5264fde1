# Verification of AgentGate's core

AgentGate is an authorization gateway for tool calls. A call is adapted to a decision request, the
workspace's active policy decides, a downstream credential may be issued, and the outcome is chained
into a tamper-evident audit log before it is answered. This project models the stateful components of
the gateway in Dafny and proves what they promise, over every input, every run and every interleaving
of steps. `dafny verify dfyconfig.toml` checks all of it.

Components that change state are classes whose methods are proved against functions on values; the
properties are lemmas about those functions and about runs of them.

| modules | component |
|---|---|
| AuditChain, AuditStore, AuditVerifier, AuditService | the audit hash chain, its store, its verifier, and the service that decides, issues and records |
| CheckServer, CheckRuns | the authorization check, and runs of it with any number of calls in flight |
| Pagination | the audit-events endpoint and the dashboard's paging loop |
| PolicyStore, PolicyManager, Governance, PolicyTrail | the policy lifecycle, decisions under it, and what the audit trail says about it |
| ToolRegistry, ToolCatalog, ArgDecl | tool governance, the live catalog and argument declarations |
| Identity, Adapter, Decision | claims to identity, call to decision request, decision core |
| Credential, Issuance | the token issuer, the backend that verifies its tokens, and what the token of an OK answer opens |
| JwksCache, RateLimiter, Metrics | the key cache, the token bucket and the metric vectors |
| Prelude, Strings, Sorting | shared datatypes and models of library functions |

## Where the promise is not unconditional

Each of these is proved as an exact condition or shown by a concrete run.

- Any failure to read the head of a chain restarts it from genesis, and a record without a time gets one
  after it was hashed; `ChainVerifiesExactly` says when a chain survives a run.
- The token bucket is exact only when the idle timeout refills a whole burst (`ExactIffIdleRefillsBurst`).
- The newest audit records can be removed, and the last one rewritten, unnoticed (`TruncationPasses`,
  `ResealedHeadPasses`).
- An activation between evaluation and the provenance read can make a record name a policy that did not
  decide (`RecordedPolicyDecidedExactly`).
- A refused check leaves an ALLOW record when its time ran out before it was answered, or the credential
  gate refused it (`RefusedWithRecordExactly`).
- A policy switch that the audit store does not take is missing from the trail (`TrailExactly`).
- The policy store accepts a record created active beside another active one (`CreateKeepsConsistency`).
- The key cache needs its startup fetch (`StartupFetchNeeded`).
- A requested tool name with a slash can meet another tool's key (`LookupExactIff`).
- A blank argument name is valid in a definition and fails its reload (`BlankArgumentNameRollsBack`).
- The client's own authorization reaches the backend beside a credential that uses another header name
  (`CredentialReplacesClients`).
- The documentation of the identity mapper lists a missing-roles failure that cannot occur (`MapOutcome`).
- A denial in adaptation is recorded as unknown_tool whatever the response says (`FallbackDenied`).

## Model

| member | source | states |
|---|---|---|
| `AuditChain.ComputeCanonicalPayload` | agentgate/internal/audit/chain.go:38-78 | The copy, sort and defaulting loop yields the rendering of the canonical record, whatever order the arguments are walked in. |
| `AuditChain.CanonicalExactly` | agentgate/internal/audit/chain.go:38-78 | Two records have the same canonical form if and only if they tell the same story: every audited field agrees up to role order, default event type and what a timestamp holds below a microsecond. |
| `AuditChain.TimesExactly` | agentgate/internal/audit/chain.go:38-78 | Two times have the same canonical form if and only if both are missing, or neither is and they lie in the same microsecond. |
| `AuditChain.InPlaceExactly` | agentgate/internal/audit/verifier.go:46-116 | The four checks in the order the verifier makes them find no fault exactly when the declarative condition on a record holds. |
| `AuditChain.AppendExactly` | agentgate/internal/audit/verifier.go:46-117 | Appending keeps a valid chain valid if and only if the new record has no fault behind the current head. |
| `AuditChain.TamperEvidence` | agentgate/internal/audit/verifier.go:46-117 | Two valid chains ending in the same row hash agree record by record, or walking them back yields two different inputs with one hash, or an input hashing to the genesis value. No injectivity of the hash is assumed. |
| `AuditChain.LastRecordsAgree` | agentgate/internal/audit/chain.go:80-86 | Because previous hashes are 64 characters wide, equal hash inputs split into equal parts, so the two records agree. |
| `AuditChain.RewriteExposed` | agentgate/internal/audit/verifier.go:71-115 | Rewriting any record but the last in a valid chain either leaves its story unchanged, breaks validity, or exhibits a hash collision. |
| `AuditChain.ResealedHeadPasses` | agentgate/internal/audit/verifier.go:46-117 | The limit of the promise: any content in place of the last record passes once payload and hash are recomputed. |
| `AuditStore.MemoryStore.AppendDecision` | agentgate/internal/audit/memory.go:48-98 | Appends one record at the end of its workspace with the next number and identifier, filling a missing time and type, or fails and changes nothing. |
| `AuditStore.MemoryStore.AppendMutation` | agentgate/internal/audit/memory.go:101-117 | Appends the mutation record without payload or row hash. |
| `AuditStore.MemoryStore.SimulateTamper` | agentgate/internal/audit/memory.go:35-44 | Overwrites exactly the first record with the given number, or nothing if there is none. |
| `AuditStore.MemoryStore.GetLatestRecord` | agentgate/internal/audit/memory.go:120-131 | The last record of the workspace, or none exactly when it has none. |
| `AuditStore.MemoryStore.ListRecords` | agentgate/internal/audit/memory.go:134-153 | The newest records, newest first, limited when the limit is positive. |
| `AuditStore.MemoryStore.ListRecordsBefore` | agentgate/internal/audit/memory.go:155-174 | The newest records with a smaller sequence number, newest first, limited when the limit is positive. |
| `AuditStore.MemoryStore.GetRecordBySequence` | agentgate/internal/audit/memory.go:177-193 | A record with that number, or none exactly when no record has it. |
| `AuditStore.AppendExtends` | agentgate/internal/audit/memory.go:48-98 | An append succeeds exactly when the store is not failing and the workspace is named; it extends that chain by one record and leaves the others alone. |
| `AuditStore.AppendKeepsNumbering` | agentgate/internal/audit/memory.go:69-71 | Sequence numbers stay 1..n in every workspace. |
| `AuditStore.AppendKeepsUniqueIds` | agentgate/internal/audit/memory.go:69-74 | Identifiers stay unique across workspaces. |
| `AuditStore.OlderIsSuffix` | agentgate/internal/audit/memory.go:155-174 | In a numbered chain, the records before a number are those that were there when it had that many less one. |
| `AuditStore.HashlessMutationBreaksChain` | agentgate/internal/audit/memory.go:101-117 | After a mutation is written past the service no chain is valid, whatever was there before. |
| `AuditVerifier.VerifyWorkspace` | agentgate/internal/audit/verifier.go:25-123 | The reverse-and-check loops compute the report determined by the longest valid prefix. |
| `AuditVerifier.CheckRecord` | agentgate/internal/audit/verifier.go:46-115 | The checks on one record find exactly its first fault in the order they are made. |
| `AuditVerifier.ValidLengthExactly` | agentgate/internal/audit/verifier.go:46-117 | Everything before the reported place is a valid chain and the record there has a fault. |
| `AuditVerifier.VerifierExact` | agentgate/internal/audit/verifier.go:40-122 | Reports intact if and only if the list is a valid chain, with its length; otherwise names the first record out of place, with the first check it fails. |
| `AuditVerifier.OverwriteReported` | agentgate/internal/audit/verifier.go:46-116 | What is reported when the body of any one record of a valid chain was overwritten, for every new body: which check fails at that record, or the broken link at the next one, or nothing. |
| `AuditVerifier.EditReported` | agentgate/internal/audit/verifier.go:85-102 | Changing only what a record says is reported at that record, as a tampered payload or a failed serialisation. |
| `AuditVerifier.DeletionReported` | agentgate/internal/audit/verifier.go:49-57 | Deleting any record but the last is reported as a sequence gap at the number of the record that followed, with no assumption on the hash. |
| `AuditVerifier.ReorderingReported` | agentgate/internal/audit/verifier.go:49-57 | Swapping any two records is reported as a sequence gap at the earlier place. |
| `AuditVerifier.TruncationPasses` | agentgate/internal/audit/verifier.go:46-122 | The limit of the promise: deleting the newest records is never noticed. |
| `AuditService.AuditedDecisionService.Prepare` | agentgate/internal/audit/service.go:88-150 | Evaluation, provenance and issuance of one call yield exactly the prepared result. |
| `AuditService.AuditedDecisionService.Record` | agentgate/internal/audit/service.go:155-226 | The locked part yields exactly the committed store, outcome and failure count. |
| `AuditService.AuditedDecisionService.EvaluateWithCredential` | agentgate/internal/audit/service.go:87-227 | Both parts in sequence. |
| `AuditService.AuditedDecisionService.OnMutation` | agentgate/internal/audit/service.go:230-265 | A mutation is recorded at the head of its chain; when its payload cannot be computed it is recorded without one. |
| `AuditService.SealedFits` | agentgate/internal/audit/service.go:202-206 | A sealed record fits behind the head exactly when it links to it and the store fills in no time after hashing. |
| `AuditService.CommitKeepsChainExactly` | agentgate/internal/audit/service.go:159-206 | A committed decision keeps its chain valid if and only if the head could be read (or there was none to read) and the clock was past the first microsecond. |
| `AuditService.MutateKeepsChainExactly` | agentgate/internal/audit/service.go:234-260 | A recorded mutation keeps its chain valid if and only if it can be serialised, the head could be read (or there was none), and its own time is past the first microsecond. |
| `AuditService.PreparedWell` | agentgate/internal/audit/service.go:132-150 | A credential is prepared only with ALLOW, and then has a reference and a value. |
| `AuditService.PreparedExactly` | agentgate/internal/audit/service.go:88-150 | What is prepared, field by field: the evaluator's result under the version the provenance names, kept when no credential is wanted or a usable one was issued, and otherwise turned into the issuance failure; an evaluator that fails denies. |
| `AuditService.CommitCases` | agentgate/internal/audit/service.go:187-226 | A commit either changes nothing and fails closed, or appends one record to the chain of its workspace and hands out the prepared result; the record names the call, the caller, the tool, the policy, the verdict and the reason, the redacted arguments, the credential reference and the time to the microsecond. |
| `AuditService.AllowIffRecorded` | agentgate/internal/audit/service.go:187-226 | A call returns ALLOW if and only if its evaluation and issuance ended in ALLOW and its record was appended; a credential comes only with a returned ALLOW; DENY is returned as it was decided; and no ALLOW is returned unless the evaluator answered ALLOW. |
| `AuditService.MutateCases` | agentgate/internal/audit/service.go:230-265 | A mutation leaves exactly one record, which gives its action, versions, operator, correlation id and time, unless the store takes no writes or the workspace has no name; nothing else changes. |
| `CheckServer.Server.Check` | agentgate/internal/authz/server.go:81-216 | A check that finishes in time: the response, the store and the count of issuance failures that adaptation, decision, record and the credential gate determine, and the denials without an adapter or a decision service. |
| `CheckServer.BuildFallback` | agentgate/internal/authz/server.go:116-157 | The request that stands for a call that could not be adapted. |
| `CheckServer.Server.Respond` | agentgate/internal/authz/server.go:205-215 | OK exactly for an ALLOW with a well-formed credential, or with none where none is required. |
| `CheckServer.CountedAsAnswered` | agentgate/internal/authz/server.go:325-353 | The verdict and reason read back from a response for the metrics are those it was built from, whatever header the credential uses. |
| `CheckServer.CredentialReplacesClients` | agentgate/internal/authz/server.go:237-262 | An OK response overwrites nothing of the client's but the header of the credential; the client's own authorization goes on to the backend if and only if a credential was set under another header name. |
| `CheckServer.AnswerHeaders` | agentgate/internal/authz/server.go:218-299 | The verdict, reason, execution and policy version a reader finds in the headers of a response. |
| `CheckServer.RefusalExactly` | agentgate/internal/authz/server.go:189-215 | Which outcome is refused, and with which reason. |
| `CheckServer.FallbackDenied` | agentgate/internal/authz/server.go:107-161 | The request that stands for a failed adaptation belongs to a named workspace and is denied as unknown_tool under every policy, whatever reason the response reports. |
| `CheckServer.FallbackSays` | agentgate/internal/authz/server.go:116-157 | Under which workspace, backend, tool and identity the denial of a call that could not be adapted is recorded. |
| `CheckServer.ErrorIdentityUsable` | agentgate/internal/authz/adapter.go:236-265 | An adaptation error that carries an identity carries one the decision core accepts. |
| `CheckRuns.StepKeepsAllValid` | agentgate/internal/audit/service.go:155-265 | Each step of a run keeps every chain valid when the head can be read, clocks are past the first microsecond and mutations can be serialised. |
| `CheckRuns.EveryChainVerifies` | agentgate/internal/audit/service.go:87-265 | In every interleaving of checks and mutations over any workspaces, with issuance failures, write faults and time-outs anywhere, every chain passes verification after each step. |
| `CheckRuns.ChainVerifiesExactly` | agentgate/internal/audit/service.go:155-265 | In every run, whatever fails, a chain passes verification at the end if and only if every step that wrote to it read the head (or there was none to read), had a time past the first microsecond, and, for a mutation, could be serialised. |
| `CheckRuns.RecordsOnlyAppended` | agentgate/internal/audit/memory.go:48-98 | The chains at any point of a run are prefixes of those at any later point. |
| `CheckRuns.NumberedInEveryRun` | agentgate/internal/audit/memory.go:69-74 | In every run, numbers are 1..n and identifiers unique, with no premise. |
| `CheckRuns.PagesReadAGrowingStore` | agentgate/internal/govapi/handler.go:513-526 | The stores that successive page reads meet in any run satisfy what the pagination loop relies on. |
| `CheckRuns.CommitConserves` | agentgate/internal/audit/service.go:205-226 | One commit adds an ALLOW record exactly when it returns ALLOW, with the same execution, agent, policy version and credential reference. |
| `CheckRuns.StepKeepsInv` | agentgate/internal/authz/server.go:174-215 | Every step keeps conservation, the record behind each finished ALLOW, and what OK answers stand for. |
| `CheckRuns.AllowsConserved` | agentgate/internal/audit/service.go:132-226 | In every run and workspace the ALLOW results returned are, one for one and in order, the ALLOW records of the chain. |
| `CheckRuns.FinishedCallRecorded` | agentgate/internal/audit/service.go:155-226 | In every run, the record of each finished call is in the chain of its workspace and says what was decided: every audited field, the redacted arguments and the time. |
| `CheckRuns.EveryDecisionHasItsCall` | agentgate/internal/audit/service.go:155-226 | In every run, every decision record in any chain was left by a call, so no decision is on record that was not made. |
| `CheckRuns.DashboardShowsCalls` | frontend/app/src/lib/loadDecisions.ts:10-26 | In every run, every event the dashboard shows is that of a call made in its workspace, with that call's verdict, caller, tool and redacted arguments. |
| `CheckRuns.OkAnswerHasRecord` | agentgate/internal/authz/server.go:189-212 | An OK answer implies an ALLOW record of that execution with the reference of the credential handed out, although time-outs may refuse after recording. |
| `CheckRuns.AnswerExactly` | agentgate/internal/authz/server.go:174-215 | In every run, every answer is the refusal for lack of time if time ran out first, and otherwise what the outcome of the finished call calls for. |
| `CheckRuns.OkExactly` | agentgate/internal/authz/server.go:189-212 | In every run, an adapted call is answered OK if and only if its time did not run out first, it ended in a returned ALLOW, and the credential gate let that through. |
| `CheckRuns.RefusedWithRecordExactly` | agentgate/internal/authz/server.go:194-215 | In every run, a finished adapted call is refused and leaves an ALLOW record if and only if it ended in a returned ALLOW and its time had run out first or the credential gate refused it. |
| `CheckRuns.RefusedAfterRecord` | agentgate/internal/authz/server.go:194-199 | A concrete run in which a check refused for lack of time leaves an ALLOW record. |
| `Pagination.HandleListAuditEvents` | agentgate/internal/govapi/handler.go:488-565 | Exactly when each error is answered; otherwise the page of the store under the clamped limit and the cursor. |
| `Pagination.PageExactly` | agentgate/internal/govapi/handler.go:513-562 | A page of a numbered chain: the newest records before the cursor, as many as the limit, and where the next page begins. |
| `Pagination.ViewShows` | agentgate/internal/govapi/handler.go:528-556 | What an event shows of its record: everything but the payload, the hashes and the credential reference. |
| `Pagination.LoadRecentDecisions` | frontend/app/src/lib/loadDecisions.ts:10-26 | The bounded cursor loop returns exactly the newest `limit` decisions among the newest 3000 events of the store as the first page found it, although records arrive between pages. |
| `Pagination.Collect` | frontend/app/src/lib/loadDecisions.ts:19-21 | Pushing the decisions of one page up to the limit equals filtering and taking from everything seen. |
| `Pagination.NextPage` | agentgate/internal/govapi/handler.go:513-562 | A page behind a cursor shows the next hundred events of the first snapshot, whichever later snapshot it reads. |
| `Pagination.ShownRecords` | agentgate/internal/audit/memory.go:155-174 | Records that arrived later never show up behind a cursor. |
| `Pagination.RecentDecisionsDescend` | frontend/app/src/lib/loadDecisions.ts:10-26 | The result is in strictly descending order, so without duplicates. |
| `Pagination.RecentDecisionsAreDecisions` | frontend/app/src/lib/loadDecisions.ts:19-21 | Every event returned shows a record of the workspace that a decision left. |
| `Pagination.RecentDecisionsComplete` | frontend/app/src/lib/loadDecisions.ts:10-26 | No decision is missed: each one among the newest 3000 records is returned unless the list is full of newer ones. |
| `Governance.GovernanceDecisionService.EvaluateWithActivePolicy` | agentgate/internal/governanceintegration/integration.go:34-43 | Evaluates under the cached engine of the workspace, or as with no policy loaded. |
| `Governance.ActiveContentDecides` | agentgate/internal/governanceintegration/integration.go:34-43 | In every run of the policy lifecycle, a workspace with a cached engine allows a request if and only if it passes every structural check and the content stored under the active version allows it without error; one without an engine allows nothing. |
| `Governance.PreparedProvenance` | agentgate/internal/audit/service.go:106-126 | A prepared result names a policy exactly when the policy was consulted, and then the one the provenance was read from. |
| `Governance.EngineAfter` | agentgate/internal/policymanager/manager.go:133-201 | While the process lives, the source of a cached engine is that brought by the last successful switch of its workspace, or what it was. |
| `Governance.RecordedHashOfStoredContent` | agentgate/internal/audit/service.go:106-126 | In every run of the policy lifecycle, whatever happens between evaluation and provenance read short of a restart, a record that names a policy names the active version, and its hash is that of the content stored under that version, then and at any later point. |
| `Governance.RecordedPolicyDecided` | agentgate/internal/audit/service.go:92-126 | In particular it is when nothing switches the workspace in between. |
| `Governance.RecordedPolicyDecidedExactly` | agentgate/internal/audit/service.go:92-126 | Over any operations between evaluation and provenance read short of a restart, the recorded hash is that of the policy that decided if and only if the last successful switch of the workspace among them, if any, brought content with that hash. |
| `PolicyTrail.ReportMatches` | agentgate/internal/policymanager/manager.go:67-201 | The previous and new versions an operation reports are the active versions before and after it, and no other workspace changes. |
| `PolicyTrail.MutationRecorded` | agentgate/internal/audit/service.go:230-265 | A reported mutation leaves one record that repeats its action and versions and names its operator, correlation id and time. |
| `PolicyTrail.TrailExactly` | agentgate/internal/audit/service.go:230-265 | In every run of policy operations, decisions and audit write faults: the last switch on record names the active version if and only if the last switch made was recorded or only brought back the version last on record; and each one on record names the version active before it if and only if that held whenever one was recorded. |
| `PolicyTrail.SwitchRepairsOrSpoils` | agentgate/internal/audit/service.go:260-264 | A recorded switch repairs what the trail tells; a missed one spoils it if and only if it leaves the version last on record. |
| `PolicyTrail.MissedActivation` | agentgate/internal/audit/service.go:260-264 | A concrete run in which the trail does not name the active version. |
| `PolicyTrail.TrailTellsActiveVersion` | agentgate/internal/audit/service.go:230-265 | In every run in which no change of version is missed by the audit store, the last activation or rollback in a chain names the active version of the workspace, and each names the version active before it. |
| `PolicyStore.MemoryStore.CreatePolicy` | agentgate/internal/policystore/memory.go:23-52 | Stores the completed record under a new version or changes nothing. |
| `PolicyStore.MemoryStore.GetActivePolicy` | agentgate/internal/policystore/memory.go:69-83 | Some active record, or the no-active error exactly when there is none. |
| `PolicyStore.MemoryStore.ActivatePolicy` | agentgate/internal/policystore/memory.go:106-136 | The loop over a mutable map demotes every active version, promotes the target and reports the version active before. |
| `PolicyStore.CreateExactly` | agentgate/internal/policystore/memory.go:23-52 | When a creation is refused and with which error; otherwise what every place of the store holds afterwards. |
| `PolicyStore.ActivateExactly` | agentgate/internal/policystore/memory.go:106-136 | When an activation is refused; otherwise how every stored record changes: the target active from now, the active ones historical, the rest as they were. |
| `PolicyStore.CreateKeepsConsistency` | agentgate/internal/policystore/memory.go:23-52 | Creating keeps every stored content, and keeps at most one active version if and only if it does not add an active record beside another one, which the store does not refuse. |
| `PolicyStore.ActivateKeepsConsistency` | agentgate/internal/policystore/memory.go:106-136 | Activating makes exactly that version active, keeps every stored content, and leaves other workspaces alone. |
| `PolicyManager.Manager.CreateCandidateWithVersion` | agentgate/internal/policymanager/manager.go:100-129 | Stores a parsing candidate and reports the mutation exactly when something was stored; when the version exists, the answer is the record stored under it. |
| `PolicyManager.Manager.CreateCandidate` | agentgate/internal/policymanager/manager.go:67-97 | The same under the content hash. |
| `PolicyManager.CreateAnswered` | agentgate/internal/policymanager/manager.go:67-129 | Exactly when a creation is answered with a record, and whether that is the new candidate or the stored record, whatever its content. |
| `PolicyManager.CreateExactly` | agentgate/internal/policymanager/manager.go:67-129 | When a creation stores and reports a candidate, and what every place of the store holds afterwards; the cache stays. |
| `PolicyManager.Manager.Activate` | agentgate/internal/policymanager/manager.go:133-166 | Read, parse, write, swap: the new store, cache and event, and cache and store still agree. |
| `PolicyManager.Manager.Rollback` | agentgate/internal/policymanager/manager.go:169-201 | The same for a rollback. |
| `PolicyManager.SwitchExactly` | agentgate/internal/policymanager/manager.go:133-201 | An activation or rollback succeeds if and only if the version can be read, its content parses and the write succeeds; then store, cache and event show that version, and otherwise nothing changes. |
| `PolicyManager.Manager.LoadActivePolicies` | agentgate/internal/policymanager/manager.go:255-274 | Hydrates from every workspace before the first failing read, and reports an error exactly when there was one. |
| `PolicyManager.Manager.LoadActivePolicy` | agentgate/internal/policymanager/manager.go:257-272 | One workspace is hydrated from its unique active record, or left alone. |
| `PolicyManager.CreateKeepsAgreement` | agentgate/internal/policymanager/manager.go:67-129 | Creating keeps cache and store in agreement under failing store calls. |
| `PolicyManager.SwitchKeepsAgreement` | agentgate/internal/policymanager/manager.go:133-201 | Activating and rolling back keep agreement under failing store calls. |
| `PolicyManager.LoadKeepsAgreement` | agentgate/internal/policymanager/manager.go:255-274 | Hydrating keeps agreement. |
| `PolicyManager.LoadIsComplete` | agentgate/internal/policymanager/manager.go:255-274 | After an error-free hydration a covered workspace has an engine exactly when the store has an active policy for it. |
| `PolicyManager.CacheAgreesInEveryRun` | agentgate/internal/policymanager/manager.go:67-201 | In every sequential run with store faults and restarts: at most one active version, every cached engine and version match it, and stored content never changes. |
| `PolicyManager.ProvenanceNamesStoredContent` | agentgate/internal/policymanager/manager.go:218-231 | The provenance of a run names the active version and the hash of the content stored under it. |
| `RateLimiter.Limiter.Allow` | agentgate/internal/ratelimit/ratelimit.go:49-97 | The new buckets, cleanup time and answer of one call. |
| `RateLimiter.Limiter.EvictIdle` | agentgate/internal/ratelimit/ratelimit.go:55-62 | The deletion loop keeps exactly the keys accessed within the idle timeout. |
| `RateLimiter.EvictionInvisible` | agentgate/internal/ratelimit/ratelimit.go:55-77 | With a nondecreasing clock every answer equals that of a limiter that never evicts and depends only on that key's own call times. |
| `RateLimiter.IdleKeysForgotten` | agentgate/internal/ratelimit/ratelimit.go:55-63 | Memory is bounded by recent use: after any call, a key is kept only if it was called less than the idle timeout and one cleanup interval before. |
| `RateLimiter.LevelDecides` | agentgate/internal/ratelimit/ratelimit.go:79-96 | The room in the tightest window is at least one exactly when one more event fits every window. |
| `RateLimiter.TokensAreLevel` | agentgate/internal/ratelimit/ratelimit.go:73-94 | When an idle period refills a burst, the stored tokens are the room in the tightest window of the admitted events. |
| `RateLimiter.ExactWhenIdleRefills` | agentgate/internal/ratelimit/ratelimit.go:65-96 | Then a request is admitted if and only if admitting it keeps every window within burst + rate * length. |
| `RateLimiter.BurstTooMany` | agentgate/internal/ratelimit/ratelimit.go:73-77 | Otherwise a burst, the idle timeout and another burst break the bound. |
| `RateLimiter.ExactIffIdleRefillsBurst` | agentgate/internal/ratelimit/ratelimit.go:65-96 | The limiter is an exact token bucket for all runs if and only if rate * idle timeout >= burst. |
| `RateLimiter.WindowBoundBetweenIdleGaps` | agentgate/internal/ratelimit/ratelimit.go:78-94 | For any idle timeout, a stretch without an idle gap admits at most burst + rate * length events. |
| `Metrics.EscapeLabelValue` | agentgate/internal/metrics/metrics.go:33-49 | The escaping loop computes the escape of the whole string. |
| `Metrics.FormatLabels` | agentgate/internal/metrics/metrics.go:67-89 | The building loop computes the key of the sorted labels. |
| `Metrics.MakeLabels` | agentgate/internal/metrics/metrics.go:104-114 | Missing label values are empty, surplus ones are dropped. |
| `Metrics.EscapePrefixFree` | agentgate/internal/metrics/metrics.go:33-49 | An escaped value ends at its quote whatever follows: equal encodings have equal values and equal rests. |
| `Metrics.FormatReadsBack` | agentgate/internal/metrics/metrics.go:33-89 | A reader of the text format, defined independently, finds in the label text the same labels with the same values, in the order of their names. |
| `Metrics.ItemsDecodable` | agentgate/internal/metrics/metrics.go:67-89 | Over the same names, equal concatenations have equal labels. |
| `Metrics.SortNames` | agentgate/internal/metrics/metrics.go:67-89 | The order of labels depends on their names only. |
| `Metrics.OrderByNameUnique` | agentgate/internal/metrics/metrics.go:67-89 | With distinct names there is one order by name, so an unstable sort makes no difference. |
| `Metrics.KeyIdentifiesValues` | agentgate/internal/metrics/metrics.go:104-118 | For distinct names, two calls share a series if and only if their padded label values are equal. |
| `Metrics.HistogramVec.constructor` | agentgate/internal/metrics/metrics.go:286-301 | The buckets are the given ones, or the defaults, sorted. |
| `Metrics.HistogramVec.GetSeries` | agentgate/internal/metrics/metrics.go:307-330 | Finds or creates exactly the series of the values. |
| `Metrics.HistogramVec.Observe` | agentgate/internal/metrics/metrics.go:332-344 | One observation bumps count, sum and every covering bucket of its own series only. |
| `Metrics.SeriesSummariseTheirTuple` | agentgate/internal/metrics/metrics.go:307-344 | After any run a series is the summary of exactly the observations of its tuple: labels, count, sum, and per bucket the number at most its bound; it exists exactly when there was one. |
| `Metrics.CountsAreCumulative` | agentgate/internal/metrics/metrics.go:332-344 | Bucket counts are nondecreasing and bounded by the count. |
| `Metrics.CounterVec.GetSeries` | agentgate/internal/metrics/metrics.go:201-220 | Finds or creates exactly the series of the values. |
| `Metrics.CounterVec.Add` | agentgate/internal/metrics/metrics.go:226-234 | Adds a nonnegative amount to its own series only. |
| `Metrics.CountersSumTheirTuple` | agentgate/internal/metrics/metrics.go:201-234 | After any run a counter series is the sum of the nonnegative amounts added with exactly its tuple. |
| `JwksCache.Fetch` | agentgate/internal/oidcverify/jwks.go:119-151 | A fetch succeeds exactly on a document of at most 64 entries without repeated key ids, and yields exactly its usable keys. |
| `JwksCache.KeySet.GetBegin` | agentgate/internal/oidcverify/jwks.go:49-73 | The first critical section: answer from the cache, refuse, or claim the fetch. |
| `JwksCache.KeySet.GetEnd` | agentgate/internal/oidcverify/jwks.go:75-90 | The second critical section: commit the fetched set or the failure, and answer. |
| `JwksCache.KeySet.Refresh` | agentgate/internal/oidcverify/jwks.go:93-105 | The startup fetch. |
| `JwksCache.GetKeepsInv` | agentgate/internal/oidcverify/jwks.go:49-73 | Entering keeps the invariant of the protocol with any callers in flight. |
| `JwksCache.FinishKeepsInv` | agentgate/internal/oidcverify/jwks.go:75-90 | Committing keeps it whatever was fetched. |
| `JwksCache.EveryInterleaving` | agentgate/internal/oidcverify/jwks.go:49-105 | Over all interleavings: fetch starts at least 30 s apart; a key is returned only from a successful fetch at most 2 * maxAge before the caller's entry; invalid-token only when the last fetch to end had succeeded and the latest set lacks the key id; unavailable only when the last fetch to end had failed or the key of the latest set is too old. |
| `JwksCache.LookupExactly` | agentgate/internal/oidcverify/jwks.go:49-73 | In every run, a lookup starts a fetch if and only if the latest set lacks the key id or is older than maxAge, and the last attempt is at least 30 s old; otherwise it is answered at once, with the key of the latest set whenever that is at most 2 * maxAge old. |
| `JwksCache.FinishExactly` | agentgate/internal/oidcverify/jwks.go:75-90 | In every run, a caller whose fetch ends is answered from the set it fetched, or after a failure with the key the latest set had when it entered, if that set was at most 2 * maxAge old. |
| `JwksCache.StaleOnlyMeanwhile` | agentgate/internal/oidcverify/jwks.go:54-84 | In every run, a key of a set older than maxAge is answered only within 30 s of an attempt or after the caller's own fetch failed. |
| `JwksCache.StartupFetchNeeded` | agentgate/internal/oidcverify/jwks.go:63-71 | Without the startup fetch that fails: two lookups at once, and the second calls the token invalid although nothing was fetched. |
| `JwksCache.FetchesAreSerial` | agentgate/internal/oidcverify/jwks.go:75-84 | Under the 5 s deadline of every fetch, at most one is in flight and no step makes the cached set older. |
| `JwksCache.NeverOlderExactly` | agentgate/internal/oidcverify/jwks.go:20-20 | The deadlines under which no run makes the cached set older are exactly those below the refresh minimum. |
| `ToolRegistry.NewRegistry` | agentgate/internal/toolregistry/toolregistry.go:270-289 | Registers entries in order up to the first problem. |
| `ToolRegistry.RegisteredExactly` | agentgate/internal/toolregistry/toolregistry.go:270-289 | A list registers if and only if its entries are complete, of known risk, with fingerprints and distinct keys; the registry then holds exactly them. |
| `ToolRegistry.FromKeyOfKey` | agentgate/internal/toolregistry/toolregistry.go:59-61 | Reading a key back at its last slash recovers the tool if and only if the name has no slash. |
| `ToolRegistry.KeyInjective` | agentgate/internal/toolregistry/toolregistry.go:59-61 | Keys are injective on tools whose names have no slash. |
| `ToolCatalog.Validate` | agentgate/internal/toolcatalog/types.go:30-64 | The loop over arguments accepts exactly the valid definitions. |
| `ToolCatalog.BuildSnapshot` | agentgate/internal/toolcatalog/catalog.go:60-84 | The loop builds the snapshot of the definitions, or none at the first problem. |
| `ToolCatalog.MemoryStore.List` | agentgate/internal/toolcatalog/memory.go:24-38 | Every stored definition exactly once, in order. |
| `ToolCatalog.MemoryStore.Upsert` | agentgate/internal/toolcatalog/memory.go:51-62 | Stores a valid definition, stamped, or changes nothing. |
| `ToolCatalog.MemoryStore.Delete` | agentgate/internal/toolcatalog/memory.go:64-69 | Removes exactly that definition. |
| `ToolCatalog.UndeclaredIffBlankName` | agentgate/internal/argdecl/argdecl.go:99-116 | A stored definition fails to declare its arguments if and only if one of their names is blank. |
| `ToolCatalog.RegisteredDefinitions` | agentgate/internal/toolcatalog/catalog.go:60-84 | Registering valid definitions with distinct ids never fails and registers exactly them. |
| `ToolCatalog.BuiltFromStore` | agentgate/internal/toolcatalog/catalog.go:52-84 | Building from any listing of a store yields the store's snapshot, and fails exactly when some definition does not declare its arguments. |
| `ToolCatalog.SnapshotKeysCoincide` | agentgate/internal/toolcatalog/catalog.go:60-84 | Registry and declarations cover the same tools. |
| `ToolCatalog.LookupFinds` | agentgate/internal/toolregistry/toolregistry.go:297-319 | A lookup knows a requested name exactly when the tool its key reads back as is stored. |
| `ToolCatalog.LookupExactIff` | agentgate/internal/toolregistry/toolregistry.go:297-319 | Only exact matches are known, for every catalog, if and only if the requested name has no slash or what follows its last slash could not be stored. |
| `ToolCatalog.Catalog.Replace` | agentgate/internal/toolcatalog/catalog.go:37-44 | Swaps the snapshot in exactly when every definition is valid. |
| `ToolCatalog.Catalog.Reload` | agentgate/internal/toolcatalog/catalog.go:52-58 | Succeeds exactly when the listing does and all arguments declare, and then shows the store's snapshot. |
| `ToolCatalog.Handler.HandlePut` | agentgate/internal/govapi/tools_catalog.go:147-206 | Validation, write, reload and rollback of a PUT: the new store, snapshot and response. |
| `ToolCatalog.Handler.HandleDelete` | agentgate/internal/govapi/tools_catalog.go:208-241 | The same for a DELETE. |
| `ToolCatalog.Handler.ReloadFailure` | agentgate/internal/govapi/tools_catalog.go:246-261 | The compensating write restores the definition that was there, or reports that it could not. |
| `ToolCatalog.AnswerOutcome` | agentgate/internal/govapi/tools_catalog.go:187-261 | A request succeeds with store and snapshot in step, or changes nothing, or reports a failed rollback with the snapshot unchanged. |
| `ToolCatalog.AnswerExactly` | agentgate/internal/govapi/tools_catalog.go:147-261 | Which request is refused and how; Done of a PUT or DELETE changes the store at that tool alone, and a failed reload says whether it was undone; the live snapshot then shows the definition put, or knows the deleted tool no more. |
| `ToolCatalog.SnapshotShows` | agentgate/internal/toolcatalog/catalog.go:60-84 | What the snapshot of a store shows of a stored definition: its risk, the fingerprint of its schema, and exactly its declared arguments. |
| `ToolCatalog.CatalogInStepInEveryRun` | agentgate/internal/govapi/tools_catalog.go:147-261 | Over every run with failing reads, writes, listings and rollbacks, the live snapshot equals the store's unless a failed rollback was reported since the last success; registry and declaration keys always coincide. |
| `ToolCatalog.StoreHoldsLastEffect` | agentgate/internal/govapi/tools_catalog.go:147-261 | After any run, the store holds for each tool what the last request for it that was answered Done, or whose rollback failed, left there. |
| `ToolCatalog.LookupAnswersExactly` | agentgate/internal/toolregistry/toolregistry.go:297-319 | What a lookup says of any requested name: known exactly when the tool its key reads back as is stored, then with that definition's risk and fingerprint, and drifted exactly when the call names another fingerprint. |
| `ToolCatalog.BlankArgumentNameRollsBack` | agentgate/internal/govapi/tools_catalog.go:187-206 | A blank argument name passes validation, fails the reload without any store fault, and is rolled back. |
| `ArgDecl.NewDeclarationSet` | agentgate/internal/argdecl/argdecl.go:99-116 | The loop computes the declared set or the first problem. |
| `ArgDecl.DeclaredExactly` | agentgate/internal/argdecl/argdecl.go:99-116 | A list declares a set if and only if names are nonblank and distinct and types known; the set holds exactly the list. |
| `ArgDecl.Resolve` | agentgate/internal/argdecl/argdecl.go:173-206 | Success and result do not depend on the order in which the map is walked; a reported problem is a real one. |
| `ArgDecl.ResolvedExactly` | agentgate/internal/argdecl/argdecl.go:173-251 | Arguments resolve if and only if every declared one is present or optional and, when present, of its declared type and in range; each result is the value read. |
| `ArgDecl.ResolvedFacts` | agentgate/internal/argdecl/argdecl.go:173-251 | A result holds a name exactly when it is declared and present, with its declared type, never for null. |
| `ArgDecl.UndeclaredInvisible` | agentgate/internal/argdecl/argdecl.go:173-206 | Undeclared arguments change neither success nor result. |
| `Identity.SplitRoles` | agentgate/internal/identity/mapper.go:251-267 | The loop with its seen-set computes the role normal form. |
| `Identity.FirstOccurrencesFacts` | agentgate/internal/identity/mapper.go:251-267 | Nothing is lost or repeated, and the order is that of first occurrence. |
| `Identity.RolesNormalForm` | agentgate/internal/identity/mapper.go:251-267 | The normal form is the distinct nonblank trimmed pieces, and splitting its space-join gives it back. |
| `Identity.Mapper.MapClaims` | agentgate/internal/identity/mapper.go:176-227 | The mapping of claims to an identity or its failure class. |
| `Identity.MappedExactly` | agentgate/internal/identity/mapper.go:176-227 | A mapped identity is the trimmed agent, the trimmed principal where one is claimed, and the distinct trimmed roles. |
| `Identity.MapFailsExactly` | agentgate/internal/identity/mapper.go:176-227 | Which failure class claims that do not map are given. |
| `Identity.MapOutcome` | agentgate/internal/identity/mapper.go:176-227 | Exactly when claims map; the missing-roles class, which the documentation lists, cannot occur. |
| `Identity.MappedIdentityUsable` | agentgate/internal/identity/mapper.go:176-227 | A mapped identity passes every identity check of the decision core. |
| `Identity.ValueToString` | agentgate/internal/authz/adapter.go:359-387 | The recursive rendering of a claim value. |
| `Identity.ListRolesNormalise` | agentgate/internal/authz/adapter.go:373-383 | Joining a list claim and splitting it normalises all its elements in order. |
| `Adapter.ReadClaims` | agentgate/internal/authz/adapter.go:322-357 | The claims read, in whatever order the map is walked. |
| `Adapter.TranslateArgs` | agentgate/internal/contextassembly/assembler.go:115-125 | Translation succeeds exactly when every argument has a known type, in whatever order the map is walked. |
| `Adapter.AssembleRequest` | agentgate/internal/contextassembly/assembler.go:84-145 | The assembled request or none. |
| `Adapter.Translator.AdaptRequest` | agentgate/internal/authz/adapter.go:85-320 | Adaptation step by step: the decision request or the error with what was known by then. |
| `Adapter.AdaptedExactly` | agentgate/internal/authz/adapter.go:85-320 | Exactly when a call is adapted: a named tools/call whose claims map, whose workspace resolves, whose tool is governed and undrifted, and whose declared arguments resolve. |
| `Adapter.AdaptedSays` | agentgate/internal/authz/adapter.go:85-320 | What an adapted request says, from the call and the configuration alone: the workspace by its order of sources, the identity, the backend and tool requested, the registered risk, each argument as the declared typed value, and the execution id. |
| `Adapter.AdaptFailsExactly` | agentgate/internal/authz/adapter.go:85-320 | With which reason a call is not adapted, and what the error carries by then. |
| `Adapter.ClaimsExactly` | agentgate/internal/authz/adapter.go:322-357 | The claims are those of the verified payload and no others, each in its text form. |
| `Adapter.WorkspaceExactly` | agentgate/internal/authz/adapter.go:42-64 | Which workspace a call belongs to: the trimmed claim, then the route's own context, then the static one where allowed. |
| `Adapter.VerifiedWorkspaceWins` | agentgate/internal/authz/adapter.go:42-64 | Two adapted calls with the same nonblank verified workspace claim belong to the same workspace, whatever else they say. |
| `Adapter.AdaptedReachesPolicy` | agentgate/internal/authz/adapter.go:163-319 | Every adapted request passes all structural checks of the decision core, and is allowed if and only if the policy allows it without error. |
| `Adapter.UndeclaredArgumentsDoNotInterfere` | agentgate/internal/authz/adapter.go:275-310 | Two calls that differ only in undeclared arguments lead to the same decision request and result. |
| `Adapter.OnlyDeclaredNamesReachPolicy` | agentgate/internal/authz/adapter.go:275-310 | Only declared, present, non-null names reach the decision request. |
| `Adapter.GetHeader` | agentgate/internal/authz/adapter.go:389-400 | The exact name wins, then any name equal up to case, then the empty string. |
| `Adapter.HeaderValueUnique` | agentgate/internal/authz/adapter.go:389-400 | The value found does not depend on the search order when no two names differ in case only. |
| `Decision.BuildEvalInput` | agentgate/internal/decision/engine.go:163-180 | Success and result do not depend on the order in which arguments are walked. |
| `Decision.PolicySees` | agentgate/internal/decision/engine.go:163-190 | What the policy is asked: the agent as principal, its roles and principal, the tool as backend/name with its risk, and every argument as it is. |
| `Decision.AllowedExactly` | agentgate/internal/decision/engine.go:47-158 | ALLOW if and only if every structural check passes and a loaded policy allows without error; the version is the policy's exactly when it was consulted. |
| `Decision.DeniedExactly` | agentgate/internal/decision/engine.go:47-158 | With which reason a request is denied. |
| `Credential.NewIssuer` | agentgate/internal/credential/jwtissuer.go:64-98 | An issuer is built if and only if it has a key of at least 2048 bits, a name, a key id, an audience map and a lifetime in (0, 300 s]; it keeps what it was given, with the default scope map where none was. |
| `Credential.IssuedExactly` | agentgate/internal/credential/jwtissuer.go:106-160 | When a token is issued, and what it says: issuer, audience, agent, principal, tool, backend, execution, identifier, scopes and times. |
| `Credential.AcceptanceWindow` | deploy/demo/support-desk-mcp/credverify.go:149-163 | The verifier clocks at which an issued token passes the time checks, exactly, despite flooring on both sides. |
| `Credential.IssuedTokenTimes` | agentgate/internal/credential/jwtissuer.go:124-137 | Accepted from ten seconds before issue to nine seconds after expiry, expired from ten seconds after. |
| `Credential.CoveredIffGranted` | agentgate/internal/credential/jwtissuer.go:31-42 | The default scope map grants a tool's scope for exactly the covered risks. |
| `Credential.IssuedTokenAccepted` | deploy/demo/support-desk-mcp/credverify.go:141-184 | End to end, for any backend: a minted token is accepted if and only if the backend has the issuer's name and the audience of the call's backend, the clock is in the window, the tool is the one it was minted for with a covering risk, and its identifier is not live in the replay cache. |
| `Credential.Verifier.ConsumeJti` | deploy/demo/support-desk-mcp/credverify.go:216-230 | The eviction loop and the replay answer. |
| `Credential.Verifier.VerifyClaims` | deploy/demo/support-desk-mcp/credverify.go:141-184 | The checks on signed claims in order, then the replay cache. |
| `Credential.AcceptedExactly` | deploy/demo/support-desk-mcp/credverify.go:141-230 | Arbitrary claims are accepted if and only if issuer and audience are the backend's, the three times are set, the clock is in their window, the lifetime is at most 300 s, the tool is the one called with its scope granted, and the identifier is nonempty and not live. |
| `Credential.RejectedExactly` | deploy/demo/support-desk-mcp/credverify.go:141-184 | With which reason claims are refused. |
| `Credential.CacheRemembersLive` | deploy/demo/support-desk-mcp/credverify.go:216-230 | The cache holds only accepted identifiers, and every accepted one that has not expired. |
| `Credential.ReplayExactly` | deploy/demo/support-desk-mcp/credverify.go:150-184 | With a nondecreasing clock a token is refused as a replay if and only if it passes every other check and its identifier was accepted with an expiry that has not passed. |
| `Credential.NoTokenTwice` | deploy/demo/support-desk-mcp/credverify.go:150-184 | No (identifier, expiry) pair is accepted twice although expired entries are evicted, and a fresh identifier is never refused as a replay. |
| `Issuance.OkCarriesRecordedToken` | agentgate/internal/authz/server.go:205-213 | With a token issuer wired in, a check is answered OK if and only if its decision was ALLOW, a token could be minted and the record was written; the answer carries that token as a bearer authorization and the record its reference. |
| `Issuance.TokenNamesCall` | agentgate/internal/credential/jwtissuer.go:106-160 | The token minted for a call names its agent, the one it acts for, its backend, tool and execution, and the audience of that backend. |
| `Issuance.OkTokenOpensItsTool` | agentgate/internal/credential/jwtissuer.go:106-160 | The token of an OK answer is accepted by a backend that has not seen it if and only if the backend has the issuer's name and the audience of the call's backend, the clock is in the acceptance window, the tool is that of the recorded call, and its risk covers the tool. |

## Left out

- PostgreSQL stores, migrations, HTTP and gRPC transport, TLS, configuration, logging and the command line: input and output. Store failures are fault bits of single calls.
- The policy language, SHA-256, RSA, JSON text, base64 and time formatting: functions whose properties are stated where they are used. The hash has results of fixed width and is not assumed injective; the canonical rendering loses nothing on success, which for Go's encoder supposes valid Unicode strings.
- Free-text messages of results, errors and responses.
- Rates, tokens, observations and claim numbers are reals and counters are naturals: rounding of float64 and wrap-around of 64-bit counters are not modelled. Times are integers or reals without the saturation of `time.Sub`.
- Series, buckets and definitions are values in maps; sharing of pointers between map entries and callers is not modelled.
- Redaction of arguments is an arbitrary function; which arguments it masks is a set of single-branch keyword facts.
- Evaluators and issuers are arbitrary functions of one call, which may differ from call to call. Evaluation and issuance inside one call are one step; the read of the provenance is separated from the evaluation in Governance.
- Concurrent activations and rollbacks of one workspace, and several writers to one chain: the code orders neither, so the policy results are about sequential runs and the audit results about one service.
- JwksCache.FetchesAreSerial: counts the deadline of a fetch from the caller's entry; what a caller spends on the lock before its fetch and after it is not modelled.
- CheckServer.Server.Check: a call that finishes in time, without the text of the response; time-outs are steps of CheckRuns. The decision counters and durations are not updated in it; what they would count is `CountedAsAnswered`.
- The adapter starts after JSON decoding, and its header values are given; the search that finds them is `GetHeader`. Custom workspace resolvers are not part of this model.
- The backend's bearer parsing, signature check and key lookup before the claim checks, and the conversion of a JWK to a public key.
- The dashboard's client raises on an HTTP failure; Pagination.LoadRecentDecisions models pages that are answered.
- `RollbackPolicy` of the policy store repeats `ActivatePolicy`; the manager's rollback is modelled with the latter. Listing and previewing policies, dry-run comparison, gauges, the lines of the exposition format around the labels and the tool list are not modelled.
- Audit records of catalog changes, which the catalog handlers emit after they succeed.
- React pages, the website, fixtures, probe programs and the demo traffic agent.
