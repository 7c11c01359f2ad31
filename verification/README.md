# OpenWA: verified models of its stateful cores

OpenWA is a WhatsApp gateway. This project models six of its pieces in Dafny and proves what they promise
over every run, every text and every input:

1. **In-flight body budget** (`InflightLedger`, `InflightBudget`, `InflightRuns`, `InflightStalls`): how many
   request-body bytes the HTTP gateway lets in at once, in total and per client, with mid-stream re-pricing of
   chunked bodies and a reaper for senders that stop.
2. **Lost-write replay of the chat cache** (`CacheLedger`, `ChatCache`, `CacheRuns`, `ThreadWrites`,
   `CacheThreads`): writes made while a page fetch is under way are queued and replayed when the page lands.
3. **Boot migrations across replicas** (`BootControl`, `BootReplicas`, `BootProgress`,
   `BootThreats`): processes that boot together serialise
   their migrations on the session-level advisory lock of section 13.3.5 of the PostgreSQL documentation.
4. **Dependency patchers** (`Text`, `PatchGroups`, `ParticipantArity`, `ArityUpgrade`, `ReadySync`, `Backport`):
   scripts that rewrite the installed whatsapp-web.js by exact text, and one that applies a diff that can be
   interrupted half way.
5. **Web-version resolver** (`WebVersion`): one fetch at a time, success cached, failure backed off.
6. **Go SDK** (`RetryLoop`, `PathEscape`): the retry loop with its int64 backoff, and path-segment escaping
   (sections 2.1 and 3.3 of RFC 3986).

Each piece has the same build. A specification on values says what one step does; where the code updates state
in place, a class or method written like the code is proved to do exactly that step; the theorems are about the
specification over whole runs. `Common` and `Text` are shared. `dafny verify dfyconfig.toml` checks everything.

## Where the code and its documentation part ways

The model follows the code. Each of these is a lemma below.

- `useChatMessages.ts:172` asks that each queued write be idempotent. As a contract for `apply` that is not enough:
  two idempotent writes can make a queue that must not be replayed over its own result
  (`IdempotentWritesCanStillDisagree`). The exact condition is `ReplaySafe` (`PrefixReplayIsHarmlessIff`). The page's
  handlers of incoming events meet it, because they edit only messages the thread shows; its edits after a server
  reply (a reaction, a deletion, a failed send) do unless the queue inserts again a message that was gone
  (`GatedIsReplaySafe`, `HandlerWritesCountOnce`).
- `chatMessages.ts:163-166` says delivery ticks never regress. An acknowledgement is merged when it arrives and queued
  as a fixed status (`Chats.tsx:421-425`), so a queued `delivered` replayed over a landing page that says `read` sets
  it back (`LateAckSetsBack`); `QueuedStatusHoldsIff` says exactly when.
- `useChatMessages.ts:101-112` calls the hook's own replay a second chance that is a no-op. If a fetch has started and
  a write has been queued since the render that saw `idle`, it empties the queue, and exactly the writes queued
  before it are lost (`StaleHookLoses`, `HookSafeIff`).
- `pg-boot-migrations.ts:79-80` says no crashed boot can leave the lock held. A live process keeps it when `end()`
  fails and the lock was not given back first, because the unlock failed too or because the lock query itself rejected
  after the server had granted it; until the server drops the session (`DoneHoldsLockIff`). Exactly-once holds only in the
  transactional modes (`ExactlyOnceIffTransactional`), and mutual exclusion needs the lock session to survive
  from the grant, heard of or not, to the end of the migration, and nothing else (`LossIsTheOnlyThreatIff`).
- `patch-wwebjs-ready-sync.js:106-108` says each replacement contains its find; that of the attach edit (45-50) does
  not. A rewritten file is accepted by the next run exactly under `CutsClean` (`SecondRunStandsDownIff`), and every edit
  of the list has files that fail it (`SidesCanSpellTheFind`).
- `patch-wwebjs-201832.js:315-318` says best effort never passes a half-patched tree. It does when nothing can run on a
  tree that was interrupted before Message.js (`HalfPatchedTreeIsReachable`), and also over a tree the run itself has
  half patched: lines 162-169 tell git's refusals from its crashes by its messages, and one of the accepted messages,
  "No such file or directory", can come from a run that goes on and dies later (`GuessIsSafeIff`).
  `ExitZeroOverHalfPatchedIff` covers both.
- `wa-web-version.ts:129-134` says a failure is retried later. A fetcher that throws before returning a promise leaves
  the in-flight slot set for good (`RetriesIffNotThrown`).
- `retry.go:79-80` honours Retry-After on 429 and 503; the code honours it on any retried response
  (`RetryAfterOnAnyStatus`, `ServerErrorIsHonoured`). The documented schedule of `retry.go:110-111` holds exactly
  when no doubling short of MaxDelay leaves int64 (`BackoffIsCappedExponentialIff`), and a Retry-After whose nanoseconds overflow is cut short (`RetryAfterGrantedIff`).
- `client.go:290-296` restores `@`, `:` and `+`. Go's encoder already keeps them, so the restorer never fires
  (`GoEncoderNeedsNoRestorer`).

## Model

| member | source | states |
|---|---|---|
| InflightBudget.Budget.Middleware | src/config/inflight-body-budget.ts:182-324 | Answers 415, 503 or next as the admission rules say, changes nothing when it refuses, and otherwise books the reservation in both counters and arms the reaper exactly when bytes are reserved |
| InflightBudget.Budget.Release | src/config/inflight-body-budget.ts:238-251 | The handler of all five terminal events takes the current reservation off both counters once, disarms the reaper and drops a client that reaches zero |
| InflightBudget.Budget.ReconcileUndeclared | src/config/inflight-body-budget.ts:273-295 | Re-prices a chunked body on both counters, and releases and destroys it exactly when the budget or the client share is then exceeded |
| InflightBudget.Budget.DisarmStallReaper | src/config/inflight-body-budget.ts:232-236 | The end of the body stops the reaper and keeps the reservation |
| InflightBudget.Budget.StallTick | src/config/inflight-body-budget.ts:297-319 | One timer tick: disarm on a complete message, re-price and restart the clock on progress, release and destroy after a full timeout without any |
| InflightRuns.EveryRunBalances | src/config/inflight-body-budget.ts:214-256 | In every run, with repeated and reordered events, the aggregate and each client's entry equal the sums over live requests, neither exceeds its bound, and the map never outgrows its limit |
| InflightRuns.AdmissionIs | src/config/inflight-body-budget.ts:182-258 | Over every run: what a body weighs, when it is answered 415, 503 or let in, that a refusal changes nothing, and that exactly the requests with a body are watched |
| InflightRuns.ShareIs | src/config/inflight-body-budget.ts:135-136 | One client's share: half by default, else the fraction asked for, at least 1 byte and at most the budget |
| InflightRuns.TerminalEnds | src/config/inflight-body-budget.ts:241-256 | Any terminal event ends its request for good |
| InflightRuns.EndedRunIsEmpty | src/config/inflight-body-budget.ts:137-142 | When every admitted request has had a terminal event the counter is 0 and the map has no key, zero-byte requests included |
| InflightRuns.RepricingInsertsNoKey | src/config/inflight-body-budget.ts:279-284 | Re-pricing never adds a client to the map, which is what keeps the map bound |
| InflightRuns.AbortRestores | src/config/inflight-body-budget.ts:280-294 | A mid-stream abort gives back exactly what the request held before it was re-priced |
| InflightRuns.ReleaseOnce | src/config/inflight-body-budget.ts:238-243 | A second terminal event changes nothing |
| InflightRuns.ReleasesCommute | src/config/inflight-body-budget.ts:241-256 | The order in which two requests end does not matter, even for one client |
| InflightRuns.OtherClientsGetIn | src/config/inflight-body-budget.ts:214-225 | While one client is active, any other client's body is admitted if and only if it fits the share (default share, budget at least 2) |
| InflightRuns.BudgetOfOneIsShared | src/config/inflight-body-budget.ts:135-136 | With a budget of 1 that isolation fails |
| InflightRuns.TwoFullBodiesButNotThree | src/config/inflight-body-budget.ts:95-102 | Under the default budget of four body limits a lone client gets two full bodies in and not a third |
| InflightStalls.TickEndsOnlyFor | src/config/inflight-body-budget.ts:273-319 | A tick destroys a request exactly when it releases it, and exactly for a stall or for outgrowing the budget or share |
| InflightStalls.BodiesAreWatched | src/config/inflight-body-budget.ts:258-268 | From its arrival on, every body let in is watched until it is released or has ended |
| InflightStalls.ChunkedBodiesAreRepriced | src/config/inflight-body-budget.ts:269-279 | From its arrival on, a chunked body is booked after each tick at the bytes that have come in, never below its opening weight, unless it has been released |
| InflightStalls.FinishedBodyIsLeftAlone | src/config/inflight-body-budget.ts:297-321 | Once a body is in (end seen, message complete, or all declared bytes arrived) only a terminal event ends the request, and it keeps its reservation till then |
| InflightStalls.SilentSenderIsReleased | src/config/inflight-body-budget.ts:58-68 | From its arrival on: a sender with a body that falls silent is released at most 20 s after its last byte, whatever other requests do |
| InflightStalls.OnlyStillSendersAreReaped | src/config/inflight-body-budget.ts:306-318 | If a tick ends a request that still fits the budget and its share, its true byte counter stood still for the whole 15 s before |
| ChatCache.Cache.WriteMessagesCache | dashboard/src/hooks/useChatMessages.ts:174-191 | Never seeds an absent key; otherwise applies the write and, unless idle, queues it with the value it produced and subscribes on the first one; no other key changes |
| ChatCache.Cache.ScheduleReplayOnSettle | dashboard/src/hooks/useChatMessages.ts:144-164 | Leaves exactly one subscription for the key |
| ChatCache.Cache.ReplayWritesLostToFetch | dashboard/src/hooks/useChatMessages.ts:207-216 | Empties the queue and re-applies all of it in order unless the last queued write's value is still the cached one |
| ChatCache.Cache.OnQueryEvent | dashboard/src/hooks/useChatMessages.ts:147-162 | A subscribed listener waits for idle, unsubscribes once and replays |
| ChatCache.Cache.PageLands | dashboard/src/hooks/useChatMessages.ts:93-97 | A landing page overwrites the cache, settles the key and triggers the replay |
| ChatCache.Cache.FetchEnds | dashboard/src/hooks/useChatMessages.ts:193-200 | A failing fetch settles the key without touching its value |
| ChatCache.Cache.QueryRemoved | dashboard/src/hooks/useChatMessages.ts:149-154 | Removal of a subscribed query drops its queue and subscription |
| CacheRuns.RunAgrees | dashboard/src/hooks/useChatMessages.ts:144-216 | Over every interleaving, hook effects that come too late included, the cache equals a reference that simply remembers the writes made since it was idle (a late effect makes it forget them); a non-empty queue always has its subscription |
| CacheRuns.FailedFetchAppliesEachWriteOnce | dashboard/src/hooks/useChatMessages.ts:193-200 | After a failed fetch, paused and resumed or not, each write is in the cache exactly once and in order |
| CacheRuns.LandedFetchKeepsEveryWrite | dashboard/src/hooks/useChatMessages.ts:93-101 | After a landing the cache is the page with every write since the start applied in order, or a page kept as the same object because it already shows them |
| CacheRuns.IdleWritesApply | dashboard/src/hooks/useChatMessages.ts:174-185 | Outside a fetch each write is applied at once and nothing is queued |
| CacheRuns.NeverSeeded | dashboard/src/hooks/useChatMessages.ts:166-181 | A key without data is never seeded by a write |
| CacheRuns.FirstPageLandsAsItCame | dashboard/src/hooks/useChatMessages.ts:166-181 | The first page of a chat lands as it came, whatever was written before |
| CacheRuns.RemovalForgets | dashboard/src/hooks/useChatMessages.ts:149-154 | After a query is removed the next page lands as it came: nothing queued before is replayed |
| CacheRuns.StaleHookLoses | dashboard/src/hooks/useChatMessages.ts:104-112 | After a hook effect in flight, whatever is written and however the fetch goes on, the landing leaves the page with exactly the later writes |
| CacheRuns.HookSafeIff | dashboard/src/hooks/useChatMessages.ts:104-112 | A late effect keeps the queue's promise for all continuations and pages exactly when the writes queued before it change no page |
| CacheThreads.ReplacedFetchAppliesEachWriteOnce | dashboard/src/hooks/useChatMessages.ts:93-97 | A fetch replaced half way lands over a page that shows a prefix of a replay-safe queue, and each write still counts once |
| CacheThreads.HandlerWritesCountOnce | dashboard/src/pages/Chats.tsx:411-430 | The same for every queue the handlers make, with no condition on the writes: edits go only to messages shown at that moment, and the new fetch keeps what was shown |
| CacheThreads.LandedStatus | dashboard/src/hooks/useChatMessages.ts:207-216 | After any window that lands, a message of the page has the page's delivery status with the whole queue run over it |
| CacheThreads.QueuedStatusHoldsIff | dashboard/src/pages/Chats.tsx:411-430 | Over any queue, the landing page's status is not set back exactly when no queued acknowledgement or patch fixes a status, or the last one, advanced by the echoes after it, is reachable from it |
| CacheThreads.LateAckSetsBack | dashboard/src/pages/Chats.tsx:421-425 | Shown as sent, acknowledged as delivered while a page on its way says read: the thread ends at delivered |
| ThreadWrites.PrefixReplayIsHarmlessIff | dashboard/src/hooks/useChatMessages.ts:166-172 | Replaying a queue over a thread that holds a prefix of it is harmless for every continuation exactly when each message is there already, is cleared by the prefix, or is inserted with edits queued before it leaving no field behind and not lifting its status |
| ThreadWrites.GatedIsReplaySafe | dashboard/src/pages/Chats.tsx:416-428 | Every queue in which edits name messages the thread shows at that point, or never inserted later, meets that condition |
| ThreadWrites.IdempotentWritesCanStillDisagree | dashboard/src/hooks/useChatMessages.ts:172 | Idempotence of each write, the contract asked of `apply`, does not make a replay harmless |
| ThreadWrites.EffectsAreTheQueue | dashboard/src/utils/chatMessages.ts:246-282 | Upserts with placeholder drops, patches and removals act on each message id independently |
| ThreadWrites.PresentTwice | dashboard/src/utils/chatMessages.ts:208-259 | On a message that stays in the thread any queue is idempotent: body, kept fields, reactions, media payload and delivery status all settle |
| ThreadWrites.PresentIff | dashboard/src/utils/messagePages.ts:59-70 | A message is in the thread exactly when the last write that brings it or takes it away brings it, or none does and it was there |
| ThreadWrites.LastBodyShows | dashboard/src/utils/chatMessages.ts:246-274 | Its text is what the last echo or edit said |
| ThreadWrites.LastFieldShows | dashboard/src/utils/chatMessages.ts:208-238 | Author, quote, call, buttons and each reaction are what the last write that says anything about them said |
| ThreadWrites.UnsaidFieldStays | dashboard/src/utils/chatMessages.ts:208-259 | Such a field survives every write that says nothing about it, echoes without it included |
| ThreadWrites.LastPayloadShows | dashboard/src/utils/chatMessages.ts:214-220 | The media payload is the last one that came |
| ThreadWrites.PayloadSurvives | dashboard/src/utils/chatMessages.ts:214-220 | No echo without a media payload erases the one that is there |
| ThreadWrites.AbsentIsTakenAsIs | dashboard/src/utils/chatMessages.ts:246-274 | A message that was not there is taken over as it comes, a patch of one does nothing, a dropped placeholder is gone |
| ThreadWrites.EchoesEndAtFurthest | dashboard/src/utils/chatMessages.ts:163-179 | Over any queue of echoes delivery ends at the furthest of pending, sent, delivered and read; failed wins only before any sign of delivery, and then for good |
| ThreadWrites.SetStartsAfresh | dashboard/src/utils/chatMessages.ts:264-274 | A patch that sets the status starts that climb afresh |
| BootControl.CreateBootDataSource | src/database/pg-boot-migrations.ts:66-95 | The nested try, finally and catch makes the calls and gives the result of the step-by-step transition used by the replicas |
| BootControl.PathsAre | src/database/pg-boot-migrations.ts:66-95 | The calls and the result of each of the seven ways through, spelled out |
| BootControl.EveryPathCleansUp | src/database/pg-boot-migrations.ts:66-95 | The lock session is ended if and only if it was opened, unlock is tried if and only if the lock was taken, and the DataSource is destroyed if and only if the boot is refused |
| BootControl.OriginalErrorSurvives | src/database/pg-boot-migrations.ts:66-94 | The boot succeeds exactly when the six essential calls do, and otherwise rethrows the first error whatever the cleanup does |
| BootControl.CallsDescend | src/database/pg-boot-migrations.ts:66-95 | No call is repeated and all come in one order |
| BootReplicas.OneMigratesAtATime | src/database/pg-boot-migrations.ts:5-8 | At most one live replica is inside runMigrations, in every run in which no session is lost between its grant, heard of or not, and the end of its migration; crashes, failures, late grants and any other lost session are allowed |
| BootReplicas.EachMigrationOnceInOrder | src/database/pg-boot-migrations.ts:75-77 | The ledger is always a prefix of the chain, and in a transactional mode each of its migrations took effect once and in order |
| BootReplicas.ReturnedSeesFullLedger | src/database/pg-boot-migrations.ts:5-8 | A replica that returns its DataSource finds every migration it knows in the ledger |
| BootProgress.UndisturbedBootCompletes | src/database/pg-boot-migrations.ts:66-95 | After any run, once the lock is free, a fresh replica left in peace applies exactly the missing migrations, once and in order, in every mode, returns, and leaves the lock free |
| BootReplicas.DoneHoldsLockIff | src/database/pg-boot-migrations.ts:78-87 | A finished live replica holds the lock exactly when it was granted, the unlock failed or was never tried because the lock query rejected, end failed, and the server has not dropped the session |
| BootThreats.ExactlyOnceIffTransactional | src/database/pg-boot-migrations.ts:76-77 | No migration runs twice in any run exactly when the mode is transactional |
| BootThreats.CrashRerunsUnrecordedMigration | src/database/pg-boot-migrations.ts:76-77 | The run that shows it: without a transaction, a crash before the ledger row makes the next replica run it again |
| BootThreats.LossIsTheOnlyThreatIff | src/database/pg-boot-migrations.ts:71-84 | After any run, with a replica still to boot, an event leaves all later runs mutually exclusive if and only if it does not take the session from a replica that has been granted the lock and has not finished migrating |
| BootThreats.LostSessionLetsTwoMigrate | src/database/pg-boot-migrations.ts:71-84 | From any state with a migrating holder, losing its session lets any fresh replica migrate beside it |
| BootThreats.LostGrantLetsTwoMigrate | src/database/pg-boot-migrations.ts:73-77 | So does losing it between the grant and the reply, which the replica still reads |
| Text.FirstAcross | scripts/patch-wwebjs-status.js:119-121 | The first occurrence in a text cut at an unrelated word is never one that straddles the cut |
| Text.CountAcross | scripts/patch-wwebjs-status.js:119-121 | Counting by split adds up over the two sides of an unrelated word |
| Text.ReplaceFirstHit | scripts/patch-wwebjs-status.js:158-160 | First-occurrence replacement with a replacement free of `$` changes that occurrence and nothing else |
| PatchGroups.Installed.ApplyGroups | scripts/patch-wwebjs-status.js:140-176 | The loop over groups: a refused source is never written, even after earlier groups matched, and an accepted one is written once or not at all |
| PatchGroups.AcceptedIsApplied | scripts/patch-wwebjs-status.js:129-176 | Every accepted source comes out satisfying isApplied |
| PatchGroups.AppliesNothingIff | scripts/patch-wwebjs-status.js:150-174 | Nothing is applied exactly when isApplied already held, and then the text is unchanged |
| PatchGroups.AcceptedIff | scripts/patch-wwebjs-status.js:150-174 | A source is accepted exactly when each group is wholly in place or wholly untouched; the untouched ones are reported applied and the others skipped, in order |
| PatchGroups.AcceptedTextIs | scripts/patch-wwebjs-status.js:158-160 | An accepted run exchanges each find for its replacement and leaves the rest of the text alone |
| PatchGroups.SecondRunIsIdle | scripts/patch-wwebjs-status.js:140-176 | A second run over an accepted result applies nothing and changes nothing |
| PatchGroups.OpenedWordsAreIndependent | scripts/patch-wwebjs-status.js:38-102 | Texts that each have an opening of their own, held by no other text even cut off, cannot overlap: the hypothesis of the patcher results, read off the texts |
| PatchGroups.HeadedWordsAreIndependent | scripts/patch-wwebjs-participant-arity.js:44-101 | The same for texts that share one opening, as the three actions' bodies do, none being the beginning of another |
| ParticipantArity.ApplyParticipantArityPatches | scripts/patch-wwebjs-participant-arity.js:143-182 | Rewinds older bodies, then resolves the groups; writes only when something was applied |
| ParticipantArity.RewindCounts | scripts/patch-wwebjs-participant-arity.js:108-115 | On any text the rewind turns every legacy body into a pristine one and moves no other count |
| ParticipantArity.AcceptedIsCurrent | scripts/patch-wwebjs-participant-arity.js:134-182 | Every accepted file ends with one current body per action and no pristine or legacy one |
| ParticipantArity.AcceptedArityIff | scripts/patch-wwebjs-participant-arity.js:143-177 | A file is accepted exactly when it has one body per action, in one of its shapes |
| ParticipantArity.AppliesNothingIffCurrent | scripts/patch-wwebjs-participant-arity.js:149-180 | `applied` is empty exactly when the file was already current throughout |
| ParticipantArity.SecondArityRunIsIdle | scripts/patch-wwebjs-participant-arity.js:143-182 | The patcher is idempotent and its result satisfies isApplied |
| ArityUpgrade.UpgradeReachesCurrent | scripts/patch-wwebjs-participant-arity.js:78-115 | Whatever mix of pristine, legacy and current bodies a file carries, in any order and context, it is accepted and becomes the file with every body current |
| ArityUpgrade.UpgradeIsConfluent | scripts/patch-wwebjs-participant-arity.js:108-182 | Two files that differ only in the version of their bodies end equal |
| ArityUpgrade.UpgradeEqualsFreshPatch | scripts/patch-wwebjs-participant-arity.js:78-182 | Any mix ends as the file that patching the all-pristine tree it came from gives |
| ArityUpgrade.UpgradeAppliesNothingIff | scripts/patch-wwebjs-participant-arity.js:104-115 | Something is applied unless every body was already current, so the body common to both versions is never undone and redone |
| ReadySync.ApplyReadySyncPatch | scripts/patch-wwebjs-ready-sync.js:98-125 | All three edits or none; a refused or already patched file is not written |
| ReadySync.AcceptedIff | scripts/patch-wwebjs-ready-sync.js:104-125 | Which files are left alone, rewritten and refused, by the counts |
| ReadySync.AcceptedTextIs | scripts/patch-wwebjs-ready-sync.js:114-118 | Rewriting exchanges each find for its replacement and leaves the rest of the file alone |
| ReadySync.SecondRunStandsDownIff | scripts/patch-wwebjs-ready-sync.js:85-125 | A rewritten file satisfies isApplied, and the next run stands down, exactly when cutting its finds out joins no new find; otherwise the next run refuses it |
| ReadySync.OpenedEditsAreSeparate | scripts/patch-wwebjs-ready-sync.js:36-73 | One opening per edit, shared by its find and its replacement, is enough for the results below |
| ReadySync.SpelledSidesAreRefused | scripts/patch-wwebjs-ready-sync.js:106-124 | Any accepted file in which the text around a find spells that find again is refused by the next run |
| ReadySync.SidesCanSpellTheFind | scripts/patch-wwebjs-ready-sync.js:69-124 | In every list of separate edits each edit has such files: its find inside a copy of itself, beside the other finds, is accepted exactly when no replacement occurs in it, and the next run refuses the result |
| Backport.Installation.ApplyBackport | scripts/patch-wwebjs-201832.js:192-301 | One run over a tree: version skew, stand-down, refusal of a half-patched tree, either applier with its failures, reject and site checks |
| Backport.Installation.RunApplier | scripts/patch-wwebjs-201832.js:253-272 | The applier deals with the files in order up to where it stops; an already patched file rejects |
| Backport.Installation.EverySiteLanded | scripts/patch-wwebjs-201832.js:285-292 | True exactly when every required site shows its marker |
| Backport.Installation.Main201832 | scripts/patch-wwebjs-201832.js:303-330 | Exit 1 exactly on a failure that best effort may not swallow |
| Backport.FreshInstallSucceedsIff | scripts/patch-wwebjs-201832.js:192-301 | An applier that runs to its end over a fresh install succeeds, with no reject left, exactly when every required file takes its patch and only tolerated files reject; anything else exits 1, best effort or not |
| Backport.OrdinaryInstallSucceeds | scripts/patch-wwebjs-201832.js:272-300 | When the diff fits, the whole of it lands, exit 0 both ways, and every later run stands down |
| Backport.ShippedInstallSucceeds | scripts/patch-wwebjs-201832.js:38-39 | The shipped diff with the one reject that is expected of Contact.js is such an install |
| Backport.FailureIsLoudIff | scripts/patch-wwebjs-201832.js:184-188 | A missing library or an applier taken to have refused fails only without best effort; one that broke fails always |
| Backport.ExitZeroMeansWholeOrWaved | scripts/patch-wwebjs-201832.js:303-330 | On any tree, a run that exits 0 leaves every required site landed, or best effort waved it through: not the expected library, or no `patch` and a git failure taken for a refusal; and then the tree is what git had written by then |
| Backport.ExitZeroVouchesForAllIff | scripts/patch-wwebjs-201832.js:45-66 | After any history of runs and kills on a fresh install that the diff fits, exit 0 of a run that is not taken for refused means every file of the diff has landed, the unchecked ones included, exactly when the last file of the diff is a required site |
| Backport.ExitZeroOverHalfPatchedIff | scripts/patch-wwebjs-201832.js:162-169 | The only exit 0 over a half-patched tree is a best-effort run waved through on a tree that was half patched already or that git half-patched before it died |
| Backport.GuessIsSafeIff | scripts/patch-wwebjs-201832.js:162-188 | On a fresh install a git failure taken for a refusal never yields exit 0 over a half-patched tree exactly when git had written nothing or every required file |
| Backport.HalfPatchedTreeIsReachable | scripts/patch-wwebjs-201832.js:315-326 | A kill before Message.js and a run without an applier reach that case |
| Backport.KilledEarlyIsCompleted | scripts/patch-wwebjs-201832.js:249-250 | A run killed before Message.js is completed and reported by the next run, and the one after stands down |
| Backport.KilledLateIsRefusedForGood | scripts/patch-wwebjs-201832.js:214-234 | A run killed after Message.js is refused by every later run, best effort or not |
| Backport.NoLatchIffLastFileChecked | scripts/patch-wwebjs-201832.js:45-51 | No interrupted tree passes for an upstream fix exactly when the diff's last file is a required site |
| Backport.ShippedDiffIsSafe | scripts/patch-wwebjs-201832.js:52-66 | The shipped order and site list meet both conditions: no latch, and exit 0 vouches for all twelve files |
| WebVersion.PickSettledWebVersion | src/engine/wa-web-version.ts:111-127 | Returns the first of the newest qualifying entries, and currentVersion exactly when none qualifies |
| WebVersion.PickIsUnique | src/engine/wa-web-version.ts:124-126 | That choice leaves no freedom, ties included |
| WebVersion.PickMeans | src/engine/wa-web-version.ts:111-127 | In plain terms: no beta, released 12 hours ago or more, not expired, digit-led, newest, first of equals; the current version when there is none |
| WebVersion.Resolver.ResolveCurrentWebVersion | src/engine/wa-web-version.ts:136-172 | One call: cached value, joined flight, backed-off null, or a new flight |
| WebVersion.Resolver.FlightSettles | src/engine/wa-web-version.ts:147-169 | A settled flight caches the registry's settled build, or its current version when that is one, or stamps the failure; either way it clears the slot, and only a digit-led version is ever cached |
| WebVersion.FirstCallJoinsTheFirstFlight | src/engine/wa-web-version.ts:142-171 | The first call fetches and is answered with that flight |
| WebVersion.CallersJoinTheFlight | src/engine/wa-web-version.ts:138-171 | A call that starts a fetch is answered with its flight, and so is every call until it settles; none of them fetches |
| WebVersion.JoinedCallersGetTheOutcome | src/engine/wa-web-version.ts:138-169 | Once the flight settles its outcome is what all of them get, and a build is every later caller's at once |
| WebVersion.CallersBackOff | src/engine/wa-web-version.ts:139-141 | For 60 s after a failure callers are answered null at once and nothing is fetched; the first call after that starts and joins a new flight |
| WebVersion.AtMostOneOutstanding | src/engine/wa-web-version.ts:138 | In every run at most one fetch is unsettled, and it is the last one started |
| WebVersion.FetchesAreRateLimited | src/engine/wa-web-version.ts:139-141 | Consecutive fetches start at least one backoff apart, so n of them span n - 1 backoffs |
| WebVersion.SuccessIsForever | src/engine/wa-web-version.ts:137 | After a success every call returns it and nothing is fetched again |
| WebVersion.FlightsSettleOnce | src/engine/wa-web-version.ts:138 | All callers joined to one flight get one value |
| WebVersion.JoinedCallersGetTheCachedBuild | src/engine/wa-web-version.ts:129-138 | The flight that succeeded gave its callers the value every later call gets |
| WebVersion.ThrowingFetcherSticks | src/engine/wa-web-version.ts:142-171 | After a synchronous throw every call joins the dead flight for good |
| WebVersion.RetriesIffNotThrown | src/engine/wa-web-version.ts:142-171 | Another fetch can follow exactly when the fetcher returned a promise |
| RetryLoop.RoundTrip | sdk/go/retry.go:151-217 | The loop refines the recursive specification: replies, waits and ending |
| RetryLoop.RetryableStatusLoop | sdk/go/retry.go:97-108 | True exactly for the listed statuses, or the default five when there is no list |
| RetryLoop.WrapIs | sdk/go/retry.go:117-121 | Durations wrap as int64: the one value in range that differs by a multiple of 2^64 |
| RetryLoop.Backoff | sdk/go/retry.go:112-128 | The doubling loop with int64 wrap-around and early cap refines its specification |
| RetryLoop.BackoffIsCappedExponentialIff | sdk/go/retry.go:110-128 | For every int64 base and cap, the delay is base times 2^attempt capped at MaxDelay for all attempts exactly when the base is below 2^62 ns and none of its doublings lies between 2^62 ns and MaxDelay |
| RetryLoop.UncappedBackoffIff | sdk/go/retry.go:117-127 | Without a cap it is exact precisely as long as the product fits an int64 |
| RetryLoop.BackoffIsMonotone | sdk/go/retry.go:110-128 | Later retries wait no less and at least 1 ns, with a cap or without, as long as nothing wraps |
| RetryLoop.RetryAfterGrantedIff | sdk/go/retry.go:138-140 | For every policy a requested wait is granted exactly when its nanoseconds fit an int64, and the delay is then the larger of the two |
| RetryLoop.RetryAfterOnAnyStatus | sdk/go/retry.go:193-198 | Whatever the status of a retried response, the pause after it is at least its Retry-After |
| RetryLoop.ServerErrorIsHonoured | sdk/go/retry.go:193-198 | A 500 with Retry-After makes the default policy wait that long |
| RetryLoop.AttemptsAreBounded | sdk/go/retry.go:68-70 | At most max(0, MaxRetries) + 1 attempts, for any transport |
| RetryLoop.PostActsAtMostOnce | sdk/go/retry.go:30-52 | Every attempt of a POST but the one whose reply is returned was answered 429 or 503 |
| RetryLoop.RetriedIff | sdk/go/retry.go:151-213 | Exactly when an attempt is followed by another, verb by verb and status by status |
| RetryLoop.PauseIs | sdk/go/retry.go:110-147 | How long each pause is: exponential from the base or 200 ms, capped if there is a cap, or the longer Retry-After in seconds or date |
| RetryLoop.EndingIs | sdk/go/retry.go:154-213 | When a request ends for an unrewindable body, for its context, or with its last reply |
| RetryLoop.OnlyRetryableIsRetried | sdk/go/retry.go:166-213 | Each further attempt follows a retryable reply and a completed wait of the computed length; none follows the end of the context |
| RetryLoop.RepliesOnlyWhenDone | sdk/go/retry.go:186-188 | A reply is returned only when it is not retryable or the retries are used up |
| PathEscape.DecodeUndoesPathEscape | sdk/go/client.go:288-294 | Percent-decoding an escaped segment returns it, for every byte string |
| PathEscape.NoSeparatorEscapes | sdk/go/client.go:288-290 | The result holds no separator, query or fragment mark, and `%` only at the head of a whole triple |
| PathEscape.PathEscapeIsInjective | sdk/go/client.go:288-294 | Different segments never share an escaped form |
| PathEscape.RestorerFiresOnWholeTriples | sdk/go/client.go:291-296 | The restorer acts byte by byte of the original: three characters come back and nothing else changes |
| PathEscape.RestorerIsIdleIff | sdk/go/client.go:296 | The restorer changes nothing exactly when the encoder already keeps all three characters |
| PathEscape.GoEncoderNeedsNoRestorer | sdk/go/client.go:291-294 | Go's own encoder does |
| PathEscape.OneByteEscapes | sdk/go/client.go:291-296 | Byte by byte: which bytes stand for themselves, and the two upper-case hex digits of the others |
| PathEscape.EscapeConcat | sdk/go/client.go:291-294 | A segment is escaped byte by byte |

## Left out

In-flight body budget:

- Number parsing of BODY_SIZE_LIMIT, INFLIGHT_BODY_BUDGET_BYTES and Content-Length: the budget and the declared length are inputs; three independent string readers would add only easy members.
- Rounding of doubles above 2^53: byte counts are unbounded integers, and the share is an exact real.
- The 415 and 503 bodies, and what happens when a response has already started: only the verdict is modelled.
- Client-address resolution: the client key is an input.

Chat cache:

- The query library itself: a fetch starting, pausing, resuming, being replaced, landing, failing and a query being removed are events; a cancelled fetch that reverts is a landing of the old value.
- Page layout, ordering and the cap on media payloads; an empty button list counts as none, and an unknown status string has no counterpart.
- ThreadWrites.EffectsAreTheQueue: a message has one id, where the page keys rows by `waMessageId ?? id` and matches edits by either; a removal that names one id and an echo that carries the other are therefore not told apart.
- ThreadWrites.PrefixReplayIsHarmlessIff: speaks of the same one-id threads.

Boot migrations:

- The branch for other databases, the UTC check's own query, the lock client's settings and the outer boot retry.
- BootReplicas.ReturnedSeesFullLedger: replicas of different versions know prefixes of one chain; diverging chains are not modelled.
- BootReplicas.OneMigratesAtATime: is about live processes; a migration statement that the server is still running for a process that has died is not modelled, though a lock request that is still waiting is.
- BootReplicas.EachMigrationOnceInOrder: for the same reason; a COMMIT in flight when its process dies, landing after the next replica has read the ledger, has no event.
- BootThreats.ExactlyOnceIffTransactional: likewise.

Patchers:

- The patch texts are not spelled out. Results hold for any texts that cannot overlap (`Independent`, `SeparateEdits`) and replacements free of `$`; `OpenedWordsAreIndependent`, `HeadedWordsAreIndependent` and `OpenedEditsAreSeparate` say how to see that of a text. For the upgrade, the surrounding text holds none of the texts (`Template`).
- Missing or unreadable files, console reports and the other patch scripts.
- Backport.GuessIsSafeIff: which messages git prints when is an input; the script's guess from them is a flag beside what git had written.
- Backport.Installation.ApplyBackport: a file is pristine or landed; a file written in part, a marker matched at a wrong place, a required file other than Base.js and Message.js that is missing, and the copy with LF line ends are not modelled.

Web version: parsing the registry's JSON and dates (an unusable field is absent), the five-second abort, warnings, and the pin derived from the environment.

Go SDK:

- Cloning requests, draining bodies and logging; when a timer and a cancellation are both due, which one wins is an input.
- RetryLoop.RetryAfterGrantedIff: is about waits in seconds; an HTTP date enters as the wait left until it.
- Everything else in the SDK, the gateway and the dashboard: thin wrappers and user interface.
