# CivicRecords AI: a verified model

This project models the parts of CivicRecords AI that carry state, loops or arithmetic, and proves what
they promise:

- **The audit hash chain** (`AuditChain`, `AuditDisorder`, `AuditEvidence`, `AuditHistory`, `AuditStore`). Rows are appended under a hash that
  covers the previous hash, the timestamp, the actor, the action and the details; old rows are pruned by
  timestamp; a verifier reads the table in pages. The verifier is related to the obvious check of the whole
  log for *every* table, including those whose timestamps run against their ids, and for page queries that
  interleave with writes and pruning.
- **The login limiter** (`LoginLimiter`). An insertion-ordered dictionary with lazy pruning and eviction is
  compared with the full history of admitted attempts, and its order with the order of insertion, over every run.
- **Directive binding** (`BindLine`, `DirectiveRun`). What the bind step writes to run.log, what is read back
  from it character by character, exactly when each gate gives each verdict, and what that implies for all approvals of a run.
- **The stop gates** (`RunLog`, `StopGates`, `StopEvidence`, `GateCases`). The resume stage as the log grows, how the
  three gates that let an agent stop relate, what evidence each stop condition needs, and texts on which they give way.
- **The text scanners** (`Text`, `QuoteScanners`, `ManifestParsers`, `ManifestCases`, `Normalize`, `ReleasePlan`). Two quote
  automata, three parsers of one YAML subset, and the nested rung sections of a release plan.
- **Three data migrations** (`Deduplication`, `CronConversion`, `ConfigEncryption`).

`dafny verify dfyconfig.toml` checks everything. SHA-256, Fernet, JSON and YAML parsing, and the chain
verifier of the civiccore package are not part of this repository; they appear as function values, and each
lemma states what it assumes of them.

## Where the code does not do what it says

Each of these is proved, with the exact condition under which the code does meet its promise.

- `verify_chain` orders each page by timestamp but moves its cursor by id. If timestamps ever run against
  ids, rows are stepped over and never checked: with the page size in use, a forged first row that carries a
  late timestamp is accepted (`LateRowIsSteppedOver`, `ForgedLateRowIsAccepted`). The rows visited are the whole table
  if and only if timestamps agree with ids (`VisitsWholeTableIffOrdered`), and a correctly linked table is
  accepted in full if and only if they do (`LinkedTableAcceptedIffOrdered`, `WrittenTableAcceptedIffClockMonotone`).
- Retention clean-up during a verification can make an untampered chain fail, also with the page size in use
  (`CleanupBreaksFullPage`). It does so if and only if it takes a row that the verification has yet to
  read, or all rows there are, and a later page query still finds a row (`InterleavedFailsExactlyWhen`); for a single
  clean-up between two queries, if and only if the row after the cursor goes (`CleanupBreaksExactlyWhen`).
- Evicting an address from the limiter forgets its recent attempts, so a sixth attempt within the window can
  be admitted (`EvictionForgets`). The limiter decides as the full history does unless five admitted attempts
  are live and fewer than five of them came after the last eviction of the address (`LimiterAgreesWithHistory`), and
  the window bound holds for a run and an address if and only if that never happened in it
  (`WindowBoundExactlyWhen`). An eviction that is 60 seconds old costs nothing.
- The bind line is read back as written unless the log ends, without a line break, in an unfinished bind line
  that lacks exactly four hex digits: the year of the timestamp then completes it
  (`BindReadsBackExactlyWhen`, `UnfinishedBindIsCompletedByYear`). A check on such a log approves one directive and
  binds another (`ApprovalBinds`, `UnfinishedBindApprovesAnother`).
- A bound hash that ends the log, without so much as a line break after it, is unbound by a digit logged next, and
  another directive can be approved (`UnsettledBindApprovesAnother`). It is bound for good if and only if it stands on
  a finished line or something follows it (`BoundForGoodExactlyWhen`, `BoundHashIsForever`).
- The plan gate by itself fixes no directive: with nothing bound, or with a bound hash that is not bound for good, it
  approves one directive after another (`UnboundPlanGateFollowsEdits`, `UnsettledPlanGateFollowsEdits`). All plan
  approvals of every run carry one hash if and only if a hash is bound for good (`PlanGateFixesOneExactlyWhen`), and then
  neither gate approves another (`ApprovalsAreForTheBound`).
- A blank `stop_condition` validates, although the rule asks for a valid one (`BlankStopConditionPasses`); on such a file
  the final response gate and pipeline-continue let the run stop, and so does the agent decision gate, if and only if a
  valid condition is claimed with evidence files that exist (`BlankStopOpensGates`, `BlankNeedsEvidence`).
- A gate stage that was completed can be claimed again if and only if no stage is left to resume at or the first one left
  has no name (`CompletedGateStaysClosed`, `FinishedRunReopensGate`, `NamelessStageReopensGate`).
- The path check and the manifest check keep different lists after a scalar or `[]` follows items of a key, and where
  items stand under a scalar (`CheckedListsAreEnforced`, `ScalarHeaderSplitsLists`), and also after a space before the
  colon (`SpacedHeaderSplitsLists`); on any text, they agree if and only if each line is held by both
  or by neither, as long as no item is repeated (`ListsAgreeExactlyWhen`).
- The manifest parser and the scope-lock parser differ on a text, after some line of it and on some key, if and only if
  it has the block marker or an item under a colon without a key (`ReadersAlikeExactlyWhen`, `MarkerSplitsReaders`,
  `ColonSplitsReaders`); on ordinary keys they never do (`ReadersAgree`).
- Migration 014 can leave duplicates that its unique index rejects, exactly when a structured row without an
  ingestion time shares its key (`DuplicateSurvives`, `IndexHoldsExactlyWhen`).
- Migration 015 reports seven intervals as having no clean cron equivalent that do have one: 1, 2, 3, 4, 6 and 12
  minutes, and the week. Apart from the allowlist these are all, among expressions with `*` for day of month and month
  (`CleanCronExactlyWhen`, `RefusedThoughExact`).

## Model

| member | source | states |
|---|---|---|
| `AuditChain.VisitsWholeTableIffOrdered` | backend/app/audit/logger.py:86-114 | for every table and page size, the rows the paging loop looks at are the whole table in id order if and only if timestamps never run against ids |
| `AuditChain.PagedRefinesWholeLog` | backend/app/audit/logger.py:73-116 | on an ordered table, True exactly when every hash recomputes and every adjacent link matches, the count is then the table size, and otherwise it is the position of the first bad row |
| `AuditChain.CursorAdvances` | backend/app/audit/logger.py:86-114 | on every table, even with disordered timestamps, the last id of a page exceeds the previous one and strictly fewer rows remain |
| `AuditDisorder.LateRowIsSteppedOver` | backend/app/audit/logger.py:86-114 | a row with a later timestamp than a full page of later rows is never checked, whatever it holds |
| `AuditDisorder.ForgedLateRowIsAccepted` | backend/app/audit/logger.py:81-116 | with pages of 1000 there is a table with a forged row that is accepted |
| `AuditDisorder.LinkedTableAcceptedIffOrdered` | backend/app/audit/logger.py:73-116 | a correctly linked table with distinct hashes is accepted in full if and only if timestamps agree with ids |
| `AuditEvidence.TamperEvidence` | backend/app/audit/logger.py:36-42 | two valid chains ending in the same hash agree on all hashed fields as far back as the shorter one reaches, or contain two rows that collide |
| `AuditEvidence.AcceptedVisitsAgree` | backend/app/audit/logger.py:61-116 | the same for the rows visited of any two tables that the paged verifier accepts, ordered or not |
| `AuditEvidence.AcceptedLogsAgree` | backend/app/audit/logger.py:61-116 | on ordered tables, the same for the whole tables |
| `AuditEvidence.UnhashedColumnsAreFree` | backend/app/audit/logger.py:61-70 | resource type, resource id and the AI flag are outside the evidence: on any table, ordered or not, changing them changes neither the verdict nor the count |
| `AuditHistory.CleanupDropsAPrefix` | backend/app/ingestion/scheduler.py:138-140 | on an ordered table, deleting by cutoff removes exactly an oldest prefix |
| `AuditHistory.SurvivingMeans` | backend/app/ingestion/scheduler.py:138-140 | on any table, a row is kept if and only if it is not older than the cutoff |
| `AuditHistory.EveryReachableTableVerifies` | backend/app/audit/logger.py:16-116 | after any mix of atomic writes and clean-ups under a clock that never goes back, the whole table is accepted |
| `AuditHistory.TableHoldsLastWrites` | backend/app/audit/logger.py:25-58 | after any mix of writes and clean-ups under a clock that never goes back, the rows are those of the last writes, in order, each with the timestamp, actor, action, details, resource type, resource id and AI flag of its write |
| `AuditHistory.WrittenTableAcceptedIffClockMonotone` | backend/app/audit/logger.py:34-58 | a table built by writes is accepted in full if and only if the clock readings never went back |
| `AuditHistory.PageStepMeaning` | backend/app/audit/logger.py:86-114 | one turn of the loop, from any point, either extends the accepted rows by one page or gives the final answer for all rows to be visited |
| `AuditHistory.PagingAnswers` | backend/app/audit/logger.py:86-116 | on a table left alone, enough page queries end in the answer for the rows visited |
| `AuditHistory.InterleavedStaysAccepting` | backend/app/audit/logger.py:73-116 | page queries interleaved with any writes, and with clean-ups that take nothing the verification has yet to read and do not empty the table, never report a broken chain |
| `AuditHistory.InterleavedVerificationEnds` | backend/app/audit/logger.py:73-116 | after finitely many such events, further page queries end with True |
| `AuditHistory.InterleavedFailsExactlyWhen` | backend/app/audit/logger.py:73-116 | over every interleaving of page queries, writes and clean-ups without hash collisions, an untampered table is reported broken if and only if a clean-up takes a row yet to be read, or all rows, and a later page query finds a row |
| `AuditHistory.CleanupBreaksExactlyWhen` | backend/app/audit/logger.py:98-103 | with the cursor on a row, dropping the first n rows makes the next page query fail if and only if the row after the cursor is among them; dropping all rows, if and only if one is written before the query |
| `AuditHistory.CleanupMidVerificationFails` | backend/app/audit/logger.py:98-103 | at every page size, a clean-up that reaches past the row after the first page makes an untampered chain fail |
| `AuditHistory.CleanupBreaksFullPage` | backend/app/audit/logger.py:81-103 | such a table exists for pages of 1000 |
| `AuditStore.AuditLog.GetLastHash` | backend/app/audit/logger.py:16-22 | the newest row's hash, or the zero hash when there is none or it is empty |
| `AuditStore.AuditLog.WriteAuditLog` | backend/app/audit/logger.py:25-58 | one row is appended under the next id; it holds every column the caller passed, its hash covers the newest row's hash, the timestamp, the actor, the action and the details, and recomputes |
| `AuditStore.AuditLog.CleanupAuditLogs` | backend/app/ingestion/scheduler.py:138-141 | exactly the rows older than the cutoff are deleted, whatever their order |
| `AuditStore.AuditLog.VerifyChain` | backend/app/audit/logger.py:73-116 | the loop's boolean and count are those of the longest valid prefix of the rows visited, for every table |
| `LoginLimiter.StepKeepsValid` | backend/app/main.py:144-164 | after every request the dictionary lists each key once, holds at most 10,000 addresses with non-empty sorted lists of at most five times, and still tracks the address served |
| `LoginLimiter.EvictionSparesServed` | backend/app/main.py:161-164 | one eviction is always enough and never hits the address being served |
| `LoginLimiter.PruneKeepsOrder` | backend/app/main.py:148-154 | pruning takes out an address whose times have all expired and leaves the others in their order; otherwise it moves none |
| `LoginLimiter.OrderIsInsertionOrder` | backend/app/main.py:148-164 | over every run, of two tracked addresses the one that stands first is the one that last entered the dictionary earlier |
| `LoginLimiter.EarliestIsEvicted` | backend/app/main.py:163-164 | at 10,001 addresses, the one that goes is the one that entered earliest, and every other one stays |
| `LoginLimiter.NoneEvictedWithinBound` | backend/app/main.py:163-164 | with at most 10,000 addresses none is evicted |
| `LoginLimiter.DecisionAgainstHistory` | backend/app/main.py:148-161 | for every address, the stored list decides as the admitted times since its last eviction do |
| `LoginLimiter.LimiterAgreesWithHistory` | backend/app/main.py:145-164 | over every run and for every address, each refusal has five admitted attempts in the last 60 seconds behind it, and the decision is the full history's if and only if it is not the case that five are that recent and fewer than five of them came after the last eviction |
| `LoginLimiter.WindowBoundExactlyWhen` | backend/app/main.py:146-164 | every half-open interval of 60 seconds holds at most five admitted attempts of an address if and only if the limiter never had forgotten some of five live ones when one came |
| `LoginLimiter.WindowBound` | backend/app/main.py:146-161 | any half-open interval of 60 seconds after the last eviction of an address, or any at all if there was none, holds at most five of its admitted attempts |
| `LoginLimiter.EvictionForgets` | backend/app/main.py:163-164 | five attempts, ten thousand other addresses, and a sixth attempt at the same instant is admitted |
| `LoginLimiter.RateLimiter.PruneClient` | backend/app/main.py:148-154 | in place: expired times go, and the address with them when none are left; `PruneKeepsOrder` says what that means for the order |
| `LoginLimiter.RateLimiter.EvictOldest` | backend/app/main.py:163-164 | the eviction loop removes at most the oldest entry and restores the bound |
| `LoginLimiter.RateLimiter.RateLimitLogin` | backend/app/main.py:143-165 | the in-place request step is the step of the specification, whose order, eviction and decisions the rows above characterise over every run |
| `QuoteScanners.StripYamlComment` | scripts/policy/policy_utils.py:29-51 | the flag automaton cuts at exactly the first position where the blanked-out line shows a hash mark that starts the line or follows white space |
| `QuoteScanners.OutsideQuotes` | scripts/policy/policy_utils.py:54-78 | the blanking loop shows a character exactly when it is neither quoted nor a quote |
| `QuoteScanners.OutsideOnlyBlanks` | scripts/policy/policy_utils.py:54-78 | blanking keeps the length, invents no character, and shows hash marks only in the open state |
| `QuoteScanners.StripCommentIdempotent` | scripts/policy/policy_utils.py:29-51 | stripping returns a prefix and stripping again changes nothing |
| `QuoteScanners.NoCommentSurvives` | scripts/policy/policy_utils.py:29-51 | no comment shows in a stripped line |
| `QuoteScanners.QuotedIsHidden` | scripts/policy/policy_utils.py:54-78 | what stands between two quotes of one kind, and the quotes, are blanked, and after them the line is open again |
| `QuoteScanners.EscapedIsHidden` | scripts/policy/policy_utils.py:29-78 | within double quotes a backslash takes the next character with it, a quote included |
| `ManifestParsers.ReadManifest` | scripts/policy/check_manifest_schema.py:57-123 | the loop computes the fold of the line step |
| `ManifestParsers.LoadManifestLists` | scripts/policy/check_allowed_paths.py:57-88 | the loop computes the fold of the line step |
| `ManifestParsers.ParseSimpleYaml` | scripts/policy/scope_lock_utils.py:38-68 | the loop computes the fold of the line step |
| `ManifestCases.ScalarReadsBack` | scripts/policy/scope_lock_utils.py:55-67 | a key and a value written on one line are read back by the manifest parser and the scope-lock parser |
| `ManifestCases.ListReadsBack` | scripts/policy/check_manifest_schema.py:82-123 | a list of any length, written one indented item per line, is read back, in order, by both |
| `ManifestCases.PathListReadsBack` | scripts/policy/check_allowed_paths.py:61-88 | under a path key it is read back by the path check too, and nothing goes to the other list |
| `Text.StripQuotesIsMiddle` | scripts/policy/scope_lock_utils.py:52 | quotes are taken off both ends of a value, and nothing else |
| `ManifestParsers.CheckedListsAreEnforced` | scripts/policy/check_allowed_paths.py:61-88 | on every text of regular lines, scalars included, the path check and the manifest check hold the same list for a key if and only if the text never gives the key another value after putting something in its list and has no item under a scalar of it |
| `ManifestParsers.ListsAgreeExactlyWhen` | scripts/policy/check_allowed_paths.py:61-88 | on every text whatever, the two lists are the same if each line is held by both parsers or by neither, and, where no item is repeated, only then |
| `ManifestParsers.ScalarHeaderSplitsLists` | scripts/policy/check_allowed_paths.py:66-70 | a text with a scalar after the key on which the path check holds an item and the manifest check none |
| `ManifestParsers.SpacedHeaderSplitsLists` | scripts/policy/check_manifest_schema.py:82-117 | a text with a space before the colon on which it is the other way round |
| `ManifestParsers.ReadersAgree` | scripts/policy/check_manifest_schema.py:82-123 | the manifest parser and the scope-lock parser read every text alike on every ordinary key |
| `ManifestParsers.ReadersAlikeExactlyWhen` | scripts/policy/scope_lock_utils.py:38-68 | they hold the same fields after every line, on every key whatever, if and only if the text has no block marker and no item under a colon without a key |
| `ManifestParsers.MarkerSplitsReaders` | scripts/policy/check_manifest_schema.py:107-109 | a text with the block marker on which they differ |
| `ManifestParsers.ColonSplitsReaders` | scripts/policy/scope_lock_utils.py:47-61 | a text with an item under a colon on which they differ |
| `Normalize.NormalizeKeepsSubstring` | scripts/policy/scope_lock_utils.py:31-35 | normalising respects containment of texts |
| `Normalize.NormalizeGap` | scripts/policy/scope_lock_utils.py:31-35 | joining two texts by any white space normalises to their normal forms joined by one space |
| `Normalize.CaseAndDashesDoNotMatter` | scripts/policy/scope_lock_utils.py:31-35 | texts that differ in case and in the kind of dash normalise alike |
| `Normalize.OuterSpaceDoesNotMatter` | scripts/policy/scope_lock_utils.py:31-35 | white space around a text does not matter |
| `ReleasePlan.TitleEndsLine` | scripts/policy/scope_lock_utils.py:18-21 | a heading's title is what its line ends with |
| `ReleasePlan.HeadingReadsBack` | scripts/policy/scope_lock_utils.py:97-106 | a heading written with one to six marks, the word, a v, a dotted number of any length and a title is read back as level, rung and title |
| `ReleasePlan.HeadingLevelMeans` | scripts/policy/scope_lock_utils.py:18-21 | the level of any heading is the number of marks its line starts with, at most six, and its rung starts with a digit |
| `ReleasePlan.SectionsAreLaminar` | scripts/policy/scope_lock_utils.py:108-114 | two sections are nested or disjoint, decided by whether all headings up to the later one are deeper |
| `ReleasePlan.EndFromMeaning` | scripts/policy/scope_lock_utils.py:109-113 | a section ends at the first later heading of the same or a shallower level, or with the text |
| `ReleasePlan.OnePassFindsEnds` | scripts/policy/scope_lock_utils.py:108-114 | the quadratic scan finds the same ends as one pass with a stack |
| `ReleasePlan.FindHeadings` | scripts/policy/scope_lock_utils.py:94-106 | the first loop collects every rung heading, in line order |
| `ReleasePlan.FindEnd` | scripts/policy/scope_lock_utils.py:109-113 | the inner loop finds the first later heading no deeper than this one, or the end of the text |
| `ReleasePlan.ParseReleasePlan` | scripts/policy/scope_lock_utils.py:90-116 | the two loops build the plan of the specification, in dictionary order |
| `ReleasePlan.PlanListsSections` | scripts/policy/scope_lock_utils.py:108-116 | with distinct rung numbers the plan lists every heading's section in line order |
| `ReleasePlan.PutReplaces` | scripts/policy/scope_lock_utils.py:116 | a rung number that comes again keeps its place in the plan and gets the later section |
| `ReleasePlan.SectionHoldsItsLines` | scripts/policy/scope_lock_utils.py:108-116 | the body of a section is the lines from below its heading up to its end, joined and stripped |
| `ReleasePlan.InnerHaystackInOuter` | scripts/policy/scope_lock_utils.py:119-125 | what a nested section can be searched for, the section around it can be searched for too |
| `ReleasePlan.OwnerIsFirst` | scripts/policy/scope_lock_utils.py:119-125 | the owner is the first rung whose normalised text contains the normalised term |
| `ReleasePlan.OwnerIsOutermost` | scripts/policy/scope_lock_utils.py:90-125 | with distinct rung numbers, the owner's section lies inside no other section |
| `BindLine.BoundHashOfConcat` | scripts/policy/directive_utils.py:96-103 | after whole lines, a bound hash never changes and what is appended is read on its own |
| `BindLine.BindTextIs` | scripts/policy/directive_utils.py:119-123 | the line that is written, character by character |
| `BindLine.WrittenBindReadsBack` | scripts/policy/directive_utils.py:96-123 | written after whole lines, a bind line reads back as the hash that was bound, whatever author and authority hold |
| `BindLine.BindReadsBackExactlyWhen` | scripts/policy/directive_utils.py:96-123 | on any log without a bound hash, it reads back if and only if no unfinished bind line lacking four digits is at the end, or the year completes it to the same hash |
| `BindLine.UnfinishedBindIsCompletedByYear` | scripts/policy/directive_utils.py:18 | logs on which another hash is read back |
| `BindLine.BindReadsBackAs` | scripts/policy/directive_utils.py:96-123 | on any log without a bound hash, exactly which hash is read back after a bind |
| `BindLine.BoundForGoodExactlyWhen` | scripts/policy/directive_utils.py:96-103 | a bound hash is read back from every extension of the log if and only if it stands on a finished line or something follows it on the last |
| `DirectiveRun.RunDirectory.CheckConformance` | scripts/policy/check_directive_conformance.py:49-96 | the bind, approve or diverge step gives the verdict and the log of the specification |
| `DirectiveRun.ConformanceVerdicts` | scripts/policy/check_directive_conformance.py:49-96 | exactly when each verdict of the conformance check is given, in terms of the directive, its declared hash, the bound hash, manifest, scope lock and leave to bind |
| `DirectiveRun.LogAfterMeans` | scripts/policy/check_directive_conformance.py:78-91 | the check writes the bind line of the approved directive exactly when it approves with nothing bound, and otherwise leaves the log alone |
| `DirectiveRun.PlanGateVerdicts` | scripts/policy/check_plan_against_directive.py:63-112 | the plan gate approves if and only if the directive loads, a declared hash is blank or its own, the bound hash is absent or its own, manifest and scope lock parse to what is preapproved, and there is a plan and a non-empty list of assertions that it passes; and exactly when it gives each other verdict but the fallback |
| `DirectiveRun.PlanApprovalsSawThePlan` | scripts/policy/check_plan_against_directive.py:84-109 | at every point of every run, an event of the plan gate approves if and only if all that holds of the files at that point |
| `DirectiveRun.ApprovalBinds` | scripts/policy/check_directive_conformance.py:78-91 | on any log, which hash is bound after an approving conformance check, and that it is the approved one if and only if one was bound before or no unfinished bind line is completed to another |
| `DirectiveRun.ApprovalMeans` | scripts/policy/directive_utils.py:106-148 | in every run, an approval by either gate is for the bound hash, and for a manifest and scope lock that parse to what the directive preapproved; what it takes besides is in `PlanApprovalsSawThePlan` and `ConformanceVerdicts` |
| `DirectiveRun.BoundHashIsForever` | scripts/policy/directive_utils.py:96-115 | a bound hash survives every interleaving of edits, logged text and checks if and only if it is settled |
| `DirectiveRun.ApprovalsAreForTheBound` | scripts/policy/directive_utils.py:106-115 | from any point at which a settled hash is bound, every later approval by either gate is for that hash |
| `DirectiveRun.OneDirectivePerRun` | scripts/policy/check_plan_against_directive.py:63-109 | on any log and under any logged text, later approvals by either gate carry the hash of a conformance approval if its bind keeps, and after a new bind only if; approvals with one hash are, collisions aside, for the same directive, manifest and scope lock |
| `DirectiveRun.UnfinishedBindApprovesAnother` | scripts/policy/check_directive_conformance.py:78-91 | a run that approves two directives, on a log that ends in an unfinished bind line |
| `DirectiveRun.UnsettledBindApprovesAnother` | scripts/policy/directive_utils.py:96-103 | a run that approves two directives, on a log that ends in a bound hash |
| `DirectiveRun.UnboundPlanGateFollowsEdits` | scripts/policy/check_plan_against_directive.py:63-109 | with nothing bound, the plan gate approves one directive after another |
| `DirectiveRun.UnsettledPlanGateFollowsEdits` | scripts/policy/check_plan_against_directive.py:63-109 | with a bound hash that is not bound for good, so it does after a digit is logged |
| `DirectiveRun.PlanGateFixesOneExactlyWhen` | scripts/policy/check_plan_against_directive.py:63-109 | where two directives with different hashes could be approved, all plan approvals of every run carry one hash if and only if a hash is bound for good |
| `RunLog.ReadRunLog` | scripts/policy/stop_validator.py:308-319 | the loop reads one event from each line of four parts |
| `RunLog.EventsOfConcat` | scripts/policy/stop_validator.py:308-319 | events come in the order of their lines |
| `RunLog.PipelineStages` | scripts/policy/stop_validator.py:290-305 | a stage is listed exactly when a line names it after a line that says stages: |
| `RunLog.StagesOfConcat` | scripts/policy/stop_validator.py:290-305 | stages are listed in line order |
| `RunLog.CompletedStays` | scripts/policy/stop_validator.py:308-328 | a stage logged COMPLETE stays so, whatever text is appended |
| `RunLog.ResumeNeverMovesBack` | scripts/policy/stop_validator.py:322-332 | for a fixed stage list the resume stage never moves backwards |
| `StopGates.ParseControlState` | scripts/policy/check_pipeline_control_loop.py:65-71 | a key has a value exactly when some line gives it that value and no later line gives it any |
| `StopGates.ValidateControlState` | scripts/policy/check_pipeline_control_loop.py:74-115 | no violation is reported exactly for clean control states |
| `StopGates.ActiveAllowedExactlyWhen` | scripts/policy/stop_validator.py:81-133 | exactly when an active run may stop; `StopEvidence.StopNeedsEvidence` spells the evidence out |
| `StopEvidence.CleanStatesMean` | scripts/policy/check_pipeline_control_loop.py:74-115 | a control state is clean if and only if all keys are there, active_run is true or false, and it either allows a final response with a blank or valid stop condition, or forbids it with a blank one, or with the condition none and something to continue with |
| `StopEvidence.StopNeedsEvidence` | scripts/policy/stop_validator.py:81-133 | an active run is let stop if and only if it asks to and its stop condition is blank or one of the seven with its evidence: for each, which stages, events, receipt or words that takes |
| `StopEvidence.EvidenceMeans` | scripts/policy/stop_validator.py:170-269 | what the evidence check accepts for each of the seven conditions, in terms of fields, stages, events and substrings |
| `StopEvidence.PermissionNeedsEvidence` | scripts/policy/stop_validator.py:136-167 | when pipeline-continue lets the agent stop, every active run asks to stop and has that evidence |
| `StopEvidence.RefusalClosesGates` | scripts/policy/stop_validator.py:136-167 | an active run that is not let stop closes pipeline-continue and the final response gate |
| `StopEvidence.WordlessIsRefused` | scripts/policy/stop_validator.py:263-269 | a text for each of the four conditions that need a word, refused because nothing it says is one |
| `StopEvidence.ExecuteIsNoGate` | scripts/policy/stop_validator.py:211-216 | a text that claims a human gate at execute, refused under every run log |
| `StopEvidence.ScopeIsSettled` | scripts/policy/stop_validator.py:227-247 | a text that claims a scope conflict, refused because the scope-lock receipt passes and it does not replan |
| `StopEvidence.NothingFailed` | scripts/policy/stop_validator.py:250-260 | a text that claims a failed gate, refused because the log has an event and none says so |
| `StopGates.BlankStopConditionPasses` | scripts/policy/check_pipeline_control_loop.py:96-110 | a permission without a valid stop condition is exactly one with a blank stop condition |
| `StopGates.NextAction` | scripts/policy/pipeline_continue.py:26-61 | STOP_ALLOWED exactly when there is an active run and none is blocked; the runs reported blocked and allowed, in order |
| `StopGates.PathsMean` | scripts/policy/pipeline_continue.py:36-50 | a path is listed as blocked or allowed exactly when a run with it has that verdict |
| `StopGates.PathsOfConcat` | scripts/policy/pipeline_continue.py:36-50 | the paths are listed in the order of the runs |
| `StopGates.FinalGateVersusContinue` | scripts/policy/stop_validator.py:136-167 | the final response gate is pipeline-continue plus clean control states of inactive runs, both ways |
| `StopGates.FinalGateWithoutRun` | scripts/policy/stop_validator.py:136-167 | where no active run is required, the final response gate allows if and only if every state file validates |
| `StopGates.GatesAreOrdered` | scripts/policy/agent_decision_gate.py:268-338 | agent decision implies final response implies pipeline-continue; and agent decision implies that every run has a clean control state and every active one a justified stop |
| `StopGates.AgentDecisionExactlyWhen` | scripts/policy/agent_decision_gate.py:268-338 | the agent decision gate allows if and only if the intent is known, the final response gate allows, the claim is one of the seven conditions, no evidence file is missing, and there is one or the recorded condition is the claimed one |
| `StopGates.StateForRunMeans` | scripts/policy/agent_decision_gate.py:119-127 | the state consulted is the first with the path named, or the first active one |
| `StopGates.ActiveOnlyOfConcat` | scripts/policy/stop_validator.py:72-78 | active runs are taken in the order of the files |
| `StopGates.PermissionIsJustified` | scripts/policy/stop_validator.py:81-167 | any permission means every active run records final_response_allowed true and a blank or valid and evidenced stop condition; `StopEvidence.PermissionNeedsEvidence` spells that out |
| `StopGates.CompletedGateStaysClosed` | scripts/policy/stop_validator.py:211-224 | a completed human gate is refused in every extension of the log if and only if a stage is left and the first one left has a name; where every stage has one, if and only if some stage is not completed |
| `StopEvidence.CompletedGateIsRefused` | scripts/policy/stop_validator.py:81-224 | the same at the gates: a run that claims a gate whose stage was logged complete is let stop, in every extension of the log, if and only if no stage is left or the first one left is nameless; otherwise pipeline-continue and the final response gate stay closed |
| `StopGates.BlankNeedsEvidence` | scripts/policy/agent_decision_gate.py:286-316 | where no stop condition is on record and the final response gate allows, the agent decision gate allows exactly a valid claim with evidence files that all exist |
| `GateCases.StateReadsBack` | scripts/policy/check_pipeline_control_loop.py:65-71 | a control state written one line per key is read back, and alike, by the validator and by the agent decision gate |
| `GateCases.PipelineReadsBack` | scripts/policy/stop_validator.py:290-305 | stages written one line each are read back, nameless ones included |
| `GateCases.FinishedRunReopensGate` | scripts/policy/stop_validator.py:211-224 | a pipeline and a log with every stage completed on which the completed gate is accepted |
| `GateCases.NamelessStageReopensGate` | scripts/policy/stop_validator.py:322-332 | a pipeline and a log with two stages to be done, the first nameless, on which the completed gate is accepted |
| `GateCases.BlankStopOpensGates` | scripts/policy/check_pipeline_control_loop.py:96-110 | a text with a blank stop condition on which the gates let the run stop |
| `Deduplication.DocumentsTable.Upgrade` | backend/alembic/versions/014_p6a_idempotency.py:42-88 | backfill and delete in place, and exactly when the unique index can then be created; the rows below say what either does to a row |
| `Deduplication.BackfillMeans` | backend/alembic/versions/014_p6a_idempotency.py:42-48 | each document gets the type of its own source, if it has one, and nothing else changes |
| `Deduplication.NewestSurvives` | backend/alembic/versions/014_p6a_idempotency.py:52-62 | a rest_api or odbc row with a time survives if and only if each timed row of the same source and path has a smaller time, or the same time and no greater id |
| `Deduplication.NewerIsLeft` | backend/alembic/versions/014_p6a_idempotency.py:52-62 | an instance: of an old and a new row of one key the new one is left |
| `Deduplication.SurvivorsAreTheLatest` | backend/alembic/versions/014_p6a_idempotency.py:52-62 | a structured row with a time survives exactly when it has the greatest time and id of its key; all other rows survive; none changes |
| `Deduplication.ExactlyOneRemains` | backend/alembic/versions/014_p6a_idempotency.py:52-62 | exactly one row with a time remains per structured key |
| `Deduplication.SecondPassDeletesNothing` | backend/alembic/versions/014_p6a_idempotency.py:52-62 | the delete is idempotent |
| `Deduplication.NullTimesAreInert` | backend/alembic/versions/014_p6a_idempotency.py:52-62 | a row without a time is neither deleted nor a cause of deletion |
| `Deduplication.DuplicateSurvives` | backend/alembic/versions/014_p6a_idempotency.py:52-88 | a table on which the unique index cannot be created after the delete |
| `Deduplication.IndexHoldsExactlyWhen` | backend/alembic/versions/014_p6a_idempotency.py:52-88 | the unique index holds after the delete if and only if every structured row without a time is alone on its key |
| `CronConversion.StepIsEvenIffDivides` | backend/alembic/versions/015_p6b_scheduler.py:123-127 | a step of k in a cycle of n fires at even distances if and only if k divides n, and then the distance is k |
| `CronConversion.ConversionIsExact` | backend/alembic/versions/015_p6b_scheduler.py:27-41 | each allowlisted expression fires exactly its interval apart at every point of unbounded time |
| `CronConversion.AllowlistFires` | backend/alembic/versions/015_p6b_scheduler.py:27-41 | an allowlisted expression fires exactly at the multiples of its interval, and the daily one at two in the morning |
| `CronConversion.HoursAllowedExactlyWhenTheyFit` | backend/alembic/versions/015_p6b_scheduler.py:27-41 | of the whole-hour intervals up to a day, the allowlist has exactly those that divide a day |
| `CronConversion.CleanCronExactlyWhen` | backend/alembic/versions/015_p6b_scheduler.py:27-41 | for every interval, some cron expression, whatever its minute, hour and day-of-week fields, fires exactly that far apart if and only if the interval is in the allowlist, one of six short ones, or the week |
| `CronConversion.RefusedThoughExact` | backend/alembic/versions/015_p6b_scheduler.py:116-127 | the intervals refused although they have an exact expression are 1, 2, 3, 4, 6 and 12 minutes and the week |
| `CronConversion.Migration015.Upgrade` | backend/alembic/versions/015_p6b_scheduler.py:98-139 | every row with an interval is converted or nulled and reported once, in order; no other row changes |
| `CronConversion.RefusedIsSwitchedOff` | backend/alembic/versions/015_p6b_scheduler.py:116-133 | a source whose interval is not in the allowlist is switched off, loses its schedule and is reported as nulled; nothing else about it changes |
| `CronConversion.OnlyScheduleChanges` | backend/alembic/versions/015_p6b_scheduler.py:98-111 | a converted source changes in its schedule only and is reported with it; one without an interval is left alone and not reported |
| `CronConversion.ReportsOfConcat` | backend/alembic/versions/015_p6b_scheduler.py:98-133 | sources are reported in their order |
| `CronConversion.ConvertedKeepsInterval` | backend/alembic/versions/015_p6b_scheduler.py:98-111 | a converted source fires exactly its old interval apart |
| `ConfigEncryption.RowStepKeepsView` | backend/alembic/versions/019_encrypt_connection_config.py:102-144 | neither direction changes what a row means or stops at a row in order |
| `ConfigEncryption.DowngradeKeepsViewExactlyWhen` | backend/alembic/versions/019_encrypt_connection_config.py:139-144 | decrypting keeps the meaning if and only if the cell is not an envelope in an envelope or what is inside decrypts to itself |
| `ConfigEncryption.NobodyDoubles` | backend/app/models/document.py:42-49 | neither the application's column type nor the migration puts an envelope in an envelope |
| `ConfigEncryption.DoubledCellUnwrapsOnce` | backend/alembic/versions/019_encrypt_connection_config.py:139-144 | on such a cell the downgrade unwraps one layer and the row means something else |
| `ConfigEncryption.DataSources.Upgrade` | backend/alembic/versions/019_encrypt_connection_config.py:83-122 | the row loop in place, with its counters, and exactly when it stops early |
| `ConfigEncryption.DataSources.Downgrade` | backend/alembic/versions/019_encrypt_connection_config.py:125-148 | the row loop in place, with its counters, and exactly when it stops early |
| `ConfigEncryption.DataSources.VerifyAtRest` | backend/scripts/verify_at_rest.py:39-89 | counts add up, exactly the plaintext rows are listed, in order, and none is listed exactly when all rows are encrypted |
| `ConfigEncryption.PlaintextIdsMean` | backend/scripts/verify_at_rest.py:39-89 | an id is listed exactly when a row with it can be read and is no envelope |
| `ConfigEncryption.PlaintextIdsOfConcat` | backend/scripts/verify_at_rest.py:39-89 | the ids are listed in the order of the rows |
| `ConfigEncryption.UpgradeCountsPlaintext` | backend/alembic/versions/019_encrypt_connection_config.py:99-122 | as many rows are written as were plaintext, and the rest are skipped |
| `ConfigEncryption.DowngradeCountsEnvelopes` | backend/alembic/versions/019_encrypt_connection_config.py:136-148 | as many rows are skipped as were plaintext, and the rest are written |
| `ConfigEncryption.RunsKeepViews` | backend/alembic/versions/019_encrypt_connection_config.py:83-148 | any sequence of full or interrupted upgrades and downgrades preserves what every row means |
| `ConfigEncryption.CompletedUpgradeVerifies` | backend/alembic/versions/019_encrypt_connection_config.py:83-122 | after any history, a completed upgrade leaves no plaintext row and nothing for the at-rest check to list |
| `ConfigEncryption.CompletedDowngradeRestores` | backend/alembic/versions/019_encrypt_connection_config.py:125-148 | after any history, a completed downgrade leaves every cell as the plaintext its row meant at the start |
| `ConfigEncryption.SecondPassWritesNothing` | backend/alembic/versions/019_encrypt_connection_config.py:19-21 | each direction is idempotent |
| `ConfigEncryption.RoundTrip` | backend/alembic/versions/019_encrypt_connection_config.py:17-18 | up and down again is the identity on a plaintext table |

## Left out

- Row locks and concurrent writers: each write, request, migration pass and gate is one atomic step; only verification is
  split, at its page queries.
- The civiccore chain verifier is modelled as "each hash recomputes, each link matches, the first link is
  free, the count is the position of the first failure"; its error texts are not modelled.
- Floating point: the limiter's times are reals, and its clock is assumed not to go back.
- Routing around the limiter (path and method tests) and the client address lookup.
- Case folding, digits and word characters outside ASCII; byte order marks; `\r\n` counts as two breaks, which only adds empty
  lines.
- `unsupported_yaml_constructs` and the schema rules of the manifest check: independent pattern tests on each
  line or field.
- `AuditStore.AuditLog.CleanupAuditLogs`: does not model the archive file that is written before the delete.
- `DirectiveRun.RunDirectory.CheckConformance`: does not model exit codes and printed diffs; the exit code
  depends on the words of an error message. Plan assertions are one function of the directive and the files of the run.
- Encryption: a row is assumed to mean an object that does not itself look like an envelope. No writer of the
  application makes another kind (`NobodyDoubles`); one put into the table by hand would change its meaning on downgrade
  (`DoubledCellUnwrapsOnce`).
- Cron expressions whose day-of-month or month field is not `*`.
- `start_rung_work` of the agent decision gate, the decision ledger and the reasons each gate prints.
- Schema steps of the three migrations, and the index on file hashes of migration 014.
- Transactions: an interrupted migration pass keeps the rows it wrote; one that is rolled back is a pass that
  reached no row.
- Git calls, report printing, configuration, the frontend and document generators.
