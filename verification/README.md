# SilentGuard: a verified model of its detection, delivery, authentication and text-rewriting logic

This Dafny project models the parts of SilentGuard in which a small mistake is hard to see, and proves what they
guarantee over all inputs or all runs - or, where a promise fails, exactly when it holds.
`dafny verify dfyconfig.toml` checks everything.

| Modules | Part of SilentGuard |
|---|---|
| `SigmaTokens`, `SigmaCondition`, `SigmaTotality`, `SigmaSyntax`, `SigmaCompiler`, `SigmaRules`, `SigmaMissing`, `SigmaSelection`, `SigmaUnreported` | the compiler of Sigma detection rules: tokenizer, recursive-descent parser, closures, aggregates, selections |
| `Spool`, `SpoolRuns`, `SpoolFlush` | the agent's bounded telemetry buffer, its on-disk spool, and whole runs with failures and crashes |
| `Ingest`, `IngestFields`, `IngestResend`, `SpoolIngest` | ingestion of telemetry on the server, read off the fields of the events, what re-sending a batch does, and runs of spool and server together |
| `CommandQueue`, `DeliveryWorld`, `DeliveryOrder`, `DeliveryRuns`, `DeliveryOutcomes` | the command queue of a device, response actions, check-in, execution and reports, over whole runs |
| `RateLimit`, `Lockout`, `LockoutHistory`, `Sessions`, `UserTokens`, `AuthService` | login limiter, account lockout, refresh tokens, emailed tokens, and the operations that span them |
| `NetMatch`, `ThreatIntel` | subdomain matching and the indicator store |
| `UpdateFloor` | version order and the anti-rollback floor of agent updates |
| `HostsFile`, `HostsExact`, `HostsMarkers`, `DnsSinkhole` | the marked block in the hosts file, for the agent and the desktop application |
| `Cef` | the extension part of a CEF line |
| `ProcessTree` | the process forest of a device |
| `Quarantine` | files moved into quarantine and back |
| `Text`, `TextSearch`, `Decimal` | the string operations and decimal numerals all of these use |

Code that updates state in place is modelled by classes whose methods are proved against specification functions; the
theorems about whole runs are about those functions, and the methods named `TakeStep` and `Serve...` show that
every call is a step of such a run. Passwords, signatures, clocks, file-system outcomes, regular expressions and URL parsing enter as
parameters or as arbitrary functions.

## Where the code and its promises part

* **Commands handed out once.** A telemetry request loads the device row, commits, waits for broadcasts, and may then
  isolate the device by appending to the command list it loaded before (server/app/auth.py:149-156,
  server/app/routers/agents.py:121-140, server/app/detection/engine.py:192-198). `DeliveryOrder.OrderExactly`: in a run,
  what the check-ins handed out followed by what is pending is everything queued, once and in order, if and only if each
  such request found the list it had loaded still pending. Otherwise a command is executed and reported twice
  (`DeliveryRuns.StaleRepeats`) or never handed out (`StaleLoses`), and the order is never restored.
* **Re-sent telemetry.** A batch is one transaction, and its session does not flush before it reads
  (server/app/database.py:14), so a new item is invisible to the later events of its batch. An item quarantined and
  restored in one batch stays `quarantined` when that batch is ingested once, and becomes `restored` when it is re-sent.
  `IngestResend.ResendExactly` says, for all batches, when re-sending is harmless; `ResendCanChange`, `ReportDoesNotCommit`
  and `RejectionCanLose` are inputs for which it is not. A batch that creates an unknown item twice is rejected, whole,
  whenever it is re-sent (`RejectedForever`, with `DoubleCreationRejected` as its input).
* **Late posts.** Re-sending keeps response actions right (`SpoolIngest.FirstReportsCount`), but a post that arrives after
  the agent stopped waiting can turn the stop flag back although nothing is lost (`SpoolIngest.LatePostStops`).
* **Nothing lost offline.** README.md:250 and docs/offline-queue.md promise that buffered events survive. Snapshot and
  removal of a flush are separate critical sections, so events emitted in between can push others out: a flush of n
  events during which m are emitted loses exactly n + m - 5000 undelivered ones when that is positive
  (`Spool.FlushLoses`).
* **Isolate and release.** server/app/services/response.py:8-10 says that these actions stay queued until the agent
  reports. The agent has no branch for them and never reports. `DeliveryRuns.FinishesExactly`: an action can leave
  `queued` in some run if and only if the agent has a branch for its command.
* **Unreported Sigma fields.** server/app/detection/sigma.py:22-23 says that a rule on fields the agent does not report
  never matches. `SigmaUnreported.UnreportedMatchesExactly` gives the exact condition, for every rule and every event that
  reports none of its fields; `not s` and an empty value are inputs that do match (`NegatedRuleMatches`,
  `EmptyValueMatches`).
* **Missing Sigma condition.** The selection names are pasted together as condition text.
  `SigmaMissing.MissingMeansAllExactly` says for which names that means "all selections"; a name with a blank breaks it.
* **Hosts file.** agent/silentguard_agent/monitors/dns_sinkhole.py:54 promises that the file sinkholes exactly the current
  blocked set. For a file that spells no begin marker outside its first block that is so once something was written
  (`DnsSinkhole.SyncPinsExactly`, `CleanKeepsOutside`); an agent started again after everything was unblocked leaves the
  old block in force (`RestartKeepsStale`). With a begin marker elsewhere it fails although the agent writes
  (`DnsSinkhole.InStepExactly`): in a file with two blocks each rewrite strips the older one and leaves the hosts of the
  list before in force (`TwoBlocksStale`), and with no end marker behind the stray one the second rewrite erases the text
  behind it (`HostsMarkers.LocalhostLost`). An end marker only in front of the begin marker makes every pass fail before
  check-in and flush (`HostsFile.MalformedExactly`, `DnsSinkhole.MalformedStays`).
* **Restore.** Restoring a quarantined file overwrites a new file at the original path; contents are conserved exactly
  when that path is free (`Quarantine.RestoreConservesExactly`, with `RestoreOverwrites` as its input). README.md:252-253
  promises that quarantined files can be restored; one whose attempt failed behind the move cannot
  (`Quarantine.MovedRestorableExactly`).
* **URL indicators.** URLs are looked up among the domain indicators only, so a stored `url` indicator never hits
  (`ThreatIntel.UrlNeverHits`).

## Assumptions

Transactions are serial - a telemetry request takes several - the clock of the login limiter does not go back, and
generated ids and tokens are fresh. There is one flusher per agent, as in agent/silentguard_agent/main.py:198 and 204.
Parameters of a response action hold no key `command` or `action_id` (`CommandQueue.CommandCarriesExactly` shows what
happens otherwise). Letter case is folded, and digits of versions and counts are read, in ASCII.

## Model

| member | source | states |
|---|---|---|
| `SigmaTokens.TokenizeLay` | server/app/detection/sigma.py:117-118 | However tokens are laid out - any white space, none next to parentheses - tokenizing the text gives exactly those tokens back. |
| `SigmaTokens.TokenizeKeepsText` | server/app/detection/sigma.py:117-118 | Conversely, for every text the tokens, end to end, are the text without its white space, and each is a parenthesis or a word. |
| `SigmaTokens.TokenizeConcat` | server/app/detection/sigma.py:117-118 | Texts with white space between them tokenize independently. |
| `Text.SpacesAre` | server/app/detection/sigma.py:118 | White space is the characters that `str.isspace` accepts. |
| `SigmaCondition.ParseFactor` | server/app/detection/sigma.py:153-176 | The grammar of a factor consumes at least one token unless it stands at the end. |
| `SigmaTotality.ParserTotal` | server/app/detection/sigma.py:127-176 | For every token list, well formed or not: parsing fails only if the tokens end in a count word and `of`; else it leaves a proper suffix and builds only from names and aggregates that were written. |
| `SigmaTotality.ParsedMonotone` | server/app/detection/sigma.py:137-199 | Any token list without `not` that parses means a predicate that stays true when more selections fire. |
| `SigmaSyntax.ExprReads` | server/app/detection/sigma.py:137-143 | Parsing a well-formed expression in front of any suitable rest reads that expression, left-associated, and goes on from the rest. |
| `SigmaSyntax.GroupReads` | server/app/detection/sigma.py:162-167 | Parsing a parenthesized condition inside any context gives what parsing it alone gives. |
| `SigmaSyntax.ReadText` | server/app/detection/sigma.py:117-176 | The text of any concrete syntax tree, with any white space and letter case of keywords, parses to the condition the tree stands for, with nothing left over. |
| `SigmaSyntax.PrintParse` | server/app/detection/sigma.py:117-176 | Printing a condition with the fewest or with all parentheses and parsing the text gives the condition back: `or` loosest, then `and`, `not`, aggregates and parentheses. |
| `SigmaSyntax.TruncatedAggregateFails` | server/app/detection/sigma.py:131-135 | The one failure does occur: behind any well-formed condition, `or`, a count word and `of` read past the last token. |
| `SigmaCompiler.CompileOfMeans` | server/app/detection/sigma.py:179-199 | The counting closure decides the aggregate: `all` - a non-empty group of which every member fired; `any` - one fired; N - at least N fired. |
| `SigmaCompiler.BelongsExactly` | server/app/detection/sigma.py:179-186 | A selection belongs to the group `them`, to `prefix*` if its name starts with the prefix in any case, and to any other word if that is its name in any case; to nothing else. |
| `SigmaCompiler.AggregateExactly` | server/app/detection/sigma.py:188-199 | The compiled aggregate: `all` asks for a non-empty group of which every member fired, a printed decimal number for at least as many, and `any`, or digits that are no decimal number, for one. |
| `SigmaCompiler.CountsExactly` | server/app/detection/sigma.py:168 | The count words are `all` and `any` in any case and what consists of digits, every printed number among them. |
| `Decimal.NumberOfPrinted` | server/app/detection/sigma.py:196-197 | A number printed by repeated division is read back as that number. |
| `SigmaCompiler.ConditionParser.Expr` | server/app/detection/sigma.py:137-143 | With its one moving position, the loop over `or` builds a closure that means the condition the grammar reads there, and stops where the grammar does. |
| `SigmaCompiler.ConditionParser.Term` | server/app/detection/sigma.py:145-151 | The same for the loop over `and`. |
| `SigmaCompiler.ConditionParser.Factor` | server/app/detection/sigma.py:153-174 | The same for `not`, parentheses (a missing closing one is tolerated), aggregates and names; a missing operand never fires. |
| `SigmaCompiler.CompileCondition` | server/app/detection/sigma.py:121-176 | The compiled closure agrees with the meaning of the parsed tree on every result map; there is none exactly when the grammar reads past the end. |
| `SigmaRules.PrintedCondition` | server/app/detection/sigma.py:121-176 | The condition of a rule, printed in any layout, compiles as the condition itself. |
| `SigmaRules.ListIsDisjunction` | server/app/detection/sigma.py:121-124 | A list of readable conditions means the disjunction of what each means alone. |
| `SigmaRules.MissingIsConjunction` | server/app/detection/sigma.py:124 | With operand names a missing condition is the conjunction of all selections. |
| `SigmaRules.CompileRule` | server/app/detection/sigma.py:219-233 | A rule without selections is refused; else the compiled rule matches an event exactly when its condition holds of the selections that fire on it. |
| `SigmaRules.RuleWithoutCondition` | server/app/detection/sigma.py:219-233 | A rule without condition matches exactly the events that all its selections match. |
| `SigmaMissing.MissingMeansAllExactly` | server/app/detection/sigma.py:124 | A missing condition means "all selections" if and only if each name is a lone `)` or a word without blanks and parentheses other than `not`, provided the pasted names spell no aggregate. |
| `SigmaMissing.NoBlankPastesNoAggregate` | server/app/detection/sigma.py:124 | Names without white space never spell an aggregate when pasted. |
| `SigmaMissing.BlankInNameBreaks` | server/app/detection/sigma.py:124 | A rule whose one selection is named `a b` does not mean that selection. |
| `SigmaSelection.EmptyFieldMatches` | server/app/detection/sigma.py:77-92 | An unreported field matches a value exactly when the value, or the expression, matches the empty text. |
| `SigmaSelection.StoppedNeverSelects` | server/app/detection/sigma.py:95-108 | One entry on an unreported field that cannot match the empty text stops its selection, whatever the other entries say. |
| `SigmaSelection.MatchValueMeans` | server/app/detection/sigma.py:77-92 | A field matches a value, up to case: with `contains` as text, value, text; with `startswith` as value, text; with `endswith` as text, value; without these as the value itself; `re` searches. Of several modifiers the first in this order counts: `re`, `contains`, `startswith`, `endswith`. |
| `Text.FoldsLetters` | server/app/detection/sigma.py:84-85 | Folding case exchanges the 26 capitals for the small letters at their places, and nothing else. |
| `SigmaSelection.FieldValueMeans` | server/app/detection/sigma.py:65-74 | What a field reads: the detail of that name; failing that the command line for eight known field names and the `name` detail for three others; else nothing. |
| `SigmaSelection.SelectsMeans` | server/app/detection/sigma.py:65-113 | A selection selects exactly the events it means: every entry of the mapping matches - all its values with `all`, else one - or a keyword stands in the text of the event. |
| `SigmaSelection.SelectsExactly` | server/app/detection/sigma.py:65-108 | A mapping selects an event if and only if nothing stops it and its entries on reported fields match. |
| `SigmaUnreported.NothingFired` | server/app/detection/sigma.py:137-199 | Whether a condition holds when no selection fires can be read off the condition alone, whatever the names. |
| `SigmaUnreported.StoppedNotFired` | server/app/detection/sigma.py:231-233 | In a rule of any selections, a stopped one counts as one that did not fire. |
| `SigmaUnreported.UnreportedMatchesExactly` | server/app/detection/sigma.py:65-199 | On an event that reports none of the fields its mappings name, a rule matches if and only if its condition holds of what the values of each selection make of the empty text, and of the keywords in the event. |
| `SigmaUnreported.MatchesMeaning` | server/app/detection/sigma.py:65-233 | A rule of differently named selections matches exactly the events of which its condition holds, each selection taken as the concatenations of texts that its values ask for. |
| `SigmaUnreported.MappingsIgnoreText` | server/app/detection/sigma.py:95-113 | Without keywords that is read off the rule alone: it matches all such events or none. |
| `SigmaUnreported.StoppedMatchesExactly` | server/app/detection/sigma.py:65-199 | A rule all of whose selections are stopped, whatever else the event reports, matches if and only if its condition holds of nothing. |
| `SigmaUnreported.CompileSigma` | server/app/detection/sigma.py:219-233 | Compiling selections and condition gives a rule that matches an event exactly when its condition holds of the selections that the event means, field by field and value by value; on events that report none of its fields that is read off the rule and the keywords. |
| `SigmaUnreported.PositiveRuleIsQuiet` | server/app/detection/sigma.py:22-23 | The promise is kept by every rule whose condition contains no `not` and no count of zero. |
| `SigmaUnreported.NegatedRuleMatches` | server/app/detection/sigma.py:158-161 | The rule `not s` with `s` on an unreported field matches every event. |
| `SigmaUnreported.EmptyValueMatches` | server/app/detection/sigma.py:65-92 | So does a rule whose one selection asks for the empty value. |
| `Spool.TelemetryClient.constructor` | agent/silentguard_agent/telemetry.py:27-39 | Start-up buffers the newest events of the spool and leaves the file alone. |
| `Spool.TelemetryClient.Emit` | agent/silentguard_agent/telemetry.py:77-90 | The event becomes the last of the buffer, the oldest gives way in a full one, and the spool follows if it can be written. |
| `Spool.TelemetryClient.Remove` | agent/silentguard_agent/telemetry.py:109-113 | As many events leave the front as the batch held, or all. |
| `Spool.TelemetryClient.Flush` | agent/silentguard_agent/telemetry.py:92-113 | After a successful flush of n events during which m are emitted, the buffer is exactly the last min(m, MAX - n) of those, in order; a failed flush loses nothing but overflow. |
| `Spool.FlushLeaves` | agent/silentguard_agent/telemetry.py:92-113 | The count behind it: popping n events off the overflown buffer leaves the last min(m, MAX - n) emitted ones. |
| `Spool.FlushLoses` | agent/silentguard_agent/telemetry.py:92-113 | A flush loses no undelivered event if n + m is at most MAX, else exactly n + m - MAX. |
| `SpoolRuns.RunKeeps` | agent/silentguard_agent/telemetry.py:35-113 | Over every run of emits, flushes, lost replies, late deliveries, failed saves, crashes and restarts: buffer and spool are stretches of one log, and what overflowed since a snapshot is counted exactly. |
| `SpoolRuns.NothingElseLost` | agent/silentguard_agent/telemetry.py:35-113 | In every run each event on record is buffered at its place, was acknowledged and had been received, or was dropped by the size bound. |
| `SpoolRuns.Conservation` | agent/silentguard_agent/telemetry.py:35-113 | While saves succeed, whatever else fails: the spool is the buffer, no emitted event is off record, and emitted = buffered + acknowledged + overflows. |
| `SpoolRuns.ReceivedWereEmitted` | agent/silentguard_agent/telemetry.py:92-113 | Whatever the server processes, however late a post arrives, was emitted before. |
| `SpoolFlush.FlushCompletes` | agent/silentguard_agent/telemetry.py:92-113 | From any state, a flush whose post and reply arrive has the server process the whole buffer of the snapshot, in order, and leaves of the events emitted since the last ones for which 5000 leave room. |
| `SpoolFlush.ReplyLost` | agent/silentguard_agent/telemetry.py:92-113 | One whose reply is lost is processed by the server, and kept by the agent. |
| `SpoolFlush.TimedOut` | agent/silentguard_agent/telemetry.py:92-113 | One that times out is kept by the agent, and its post may still arrive, once. |
| `SpoolFlush.Restarted` | agent/silentguard_agent/telemetry.py:27-39 | A restart buffers the newest 5000 events of the spool, and leaves the file and posts under way alone. |
| `SpoolRuns.TakeStep` | agent/silentguard_agent/telemetry.py:27-113 | Every critical section of the client, and every restart from its spool, is a step of those runs. |
| `SpoolIngest.FirstReportsCount` | server/app/routers/agents.py:95-121 | In every run without loss and rejection, however often batches are re-sent and however late posts arrive: the server has seen a prefix of what was emitted, which covers all that the agent dropped, and each response action shows the first report in it. |
| `SpoolIngest.StopFlagInOrder` | server/app/routers/agents.py:95-121 | If no post arrives late, the stop flag is the last word of that prefix. |
| `SpoolIngest.LatePostStops` | agent/silentguard_agent/telemetry.py:96-113 | A post that arrives after the agent stopped waiting makes the server take a running agent for stopped, although nothing is lost. |
| `Ingest.SyncQuarantine` | server/app/routers/agents.py:17-44 | One quarantine event changes the open session as specified: a new row stays invisible, an unknown item is ignored. |
| `Ingest.RecordResult` | server/app/services/response.py:106-113 | A report resolves a queued action and keeps its details; any other report changes nothing. |
| `Ingest.Telemetry` | server/app/routers/agents.py:95-121 | The ingestion loop and the one commit behind it accept, and save, exactly what the event-by-event specification says. |
| `Ingest.AcceptedExactly` | server/app/routers/agents.py:95-121 | A batch is accepted if and only if it creates no item that is not on record twice; a rejected one changes nothing. |
| `Ingest.IngestReads` | server/app/routers/agents.py:95-121 | The server after an accepted batch, read off the batch: the last word on the stop flag and on known items, the first report on each action, and every new item quarantined, whatever else the batch says. |
| `IngestFields.FirstResultDecides` | server/app/services/response.py:106-113 | After an accepted batch a queued action is decided by the first event with source `response`, action `result` and its id: completed if and only if that event has no status or one of `ok`, `completed`, `success`; failed otherwise; the event is its result and its kind stays. |
| `IngestFields.OtherActionsStay` | server/app/services/response.py:106-113 | Any action that is not queued, or has no such event in the batch, stays as it is. |
| `IngestFields.LastRestoreDecides` | server/app/routers/agents.py:17-44 | A known item becomes restored if the last event about its restoring has action `restored`, and quarantined if it has `restore_failed`. |
| `IngestFields.UnrestoredStays` | server/app/routers/agents.py:17-44 | A known item without such an event stays as it is. |
| `IngestFields.NewItems` | server/app/routers/agents.py:17-44 | An accepted batch puts exactly the unknown items it quarantines on record, each as quarantined. |
| `IngestFields.RejectedExactly` | server/app/routers/agents.py:17-44 | A batch is rejected, and changes nothing, if and only if two of its events quarantine one item that is not on record. |
| `IngestFields.LastStopDecides` | server/app/routers/agents.py:96-99 | The device counts as stopped if and only if the last `stopped` or `started` event of the agent is `stopped`. |
| `IngestFields.FlagStays` | server/app/routers/agents.py:96-99 | Without such an event the flag stays as it is. |
| `IngestResend.ResendExactly` | server/app/routers/agents.py:95-121 | For all batches: ingesting a batch and then the batch with its continuation leaves the server as ingesting the latter once, if and only if no new item of the batch is last reported restored or, the long batch being rejected, the first one changed nothing. |
| `IngestResend.AcceptedResend` | server/app/routers/agents.py:95-121 | If the long batch is acceptable so is the repetition, and flags, actions and the set of items agree in any case. |
| `IngestResend.RejectionCanLose` | server/app/routers/agents.py:95-121 | A stop event, and behind it an item created twice: as one batch the flag is lost, re-sent it is kept. |
| `IngestResend.ResendCanChange` | server/app/routers/agents.py:17-44 | A file quarantined and restored in one batch: `quarantined` after one ingestion, `restored` after the second. |
| `IngestResend.ReportDoesNotCommit` | server/app/routers/agents.py:102-121 | The same with a resolved action in between: reports commit nothing. |
| `IngestResend.RejectedForever` | server/app/routers/agents.py:95-121 | A rejected batch changes nothing, and is rejected again whatever is appended to it. |
| `IngestResend.DoubleCreationRejected` | server/app/routers/agents.py:95-121 | An item created twice, with a report in between, is such a batch. |
| `CommandQueue.CommandCarriesExactly` | server/app/services/response.py:43-46 | A queued command asks for the dispatched command under the action's id if and only if the parameters do not say otherwise. |
| `CommandQueue.Device.Store` | server/app/services/response.py:43-46 | A writer stores a list with its command appended; appending to the pending list keeps what was handed out followed by what is pending equal to what was queued. |
| `CommandQueue.Device.SetIsolation` | server/app/routers/admin.py:92-97 | Sets the flag and queues `isolate` or `release`, nothing else. |
| `CommandQueue.Device.AutoIsolate` | server/app/detection/engine.py:192-198 | A device that was isolated when it was loaded is left alone; else it is isolated and the list loaded then, with one command appended, replaces the current one. |
| `CommandQueue.Device.RequestRestore` | server/app/routers/admin.py:190-206 | Unknown items and restored ones are refused; else one command is queued and the item marked. |
| `CommandQueue.Device.Dispatch` | server/app/services/response.py:73-103 | Agent actions are recorded queued with one command, server actions recorded completed with none, others refused without trace. |
| `CommandQueue.Device.Checkin` | server/app/routers/agents.py:162-181 | Hands out the whole pending list and empties it. |
| `DeliveryWorld.RunKeeps` | server/app/routers/agents.py:95-181 | Over every run, however telemetry requests overlap with check-ins: one queued command per agent action, reports only for executed commands, outcomes only from reports. |
| `DeliveryOrder.OrderExactly` | server/app/detection/engine.py:192-198 | In every run, what the check-ins handed out followed by what is pending is everything queued, once and in order, if and only if each telemetry request that isolated the device found the list it had loaded still pending. |
| `DeliveryOrder.FreshRunKeeps` | server/app/routers/agents.py:168-169 | In such a run the agent executes each command at most once, in the order of queueing, and reports each id once. |
| `DeliveryRuns.AtMostOnceInOrder` | server/app/routers/agents.py:168-169 | In such a run the commands handed out followed by those pending are the commands the four writers queued. |
| `DeliveryRuns.StaleRepeats` | server/app/detection/engine.py:192-198 | A check-in between load and isolation: a command is handed out, executed and reported twice. |
| `DeliveryRuns.StaleLoses` | server/app/detection/engine.py:192-198 | A command queued between load and isolation is never handed out. |
| `DeliveryRuns.OutcomesAreTheAgents` | server/app/services/response.py:73-113 | In every run each committed action is a completed server action without a command, or has exactly one queued command carrying its id; an outcome it shows comes from a report of executing that command - the only one, if the run is in order. |
| `DeliveryOutcomes.CompletedExactly` | server/app/services/response.py:106-113 | In every run an agent action that left `queued` shows the report of one execution of a command under its id, and is completed if and only if that execution succeeded, failed if and only if it did not. |
| `DeliveryOutcomes.ReportsAreExecutions` | agent/silentguard_agent/main.py:87-121 | In every run each report of an action was emitted by a step that executed a command under its id, with status `ok` if that succeeded and `failed` if not. |
| `DeliveryOutcomes.DispatchQueues` | server/app/services/response.py:43-46 | A dispatched agent action adds one command: its own name, or `restore_quarantine` for `restore_file`, its id, and its parameters. |
| `DeliveryOutcomes.ActionTable` | server/app/services/response.py:20-31 | The seven actions of the agent with their commands, and the three of the server. |
| `DeliveryOutcomes.PlainCommands` | server/app/routers/admin.py:92-97 | Isolation queues `isolate` or `release`, a restore `restore_quarantine` with the item; neither carries an action id. |
| `DeliveryOutcomes.IsolatesOnce` | server/app/detection/engine.py:192-198 | A telemetry request isolates the device at most once, and then what is pending is the list it loaded followed by `isolate`. |
| `DeliveryOutcomes.RestoreShows` | server/app/routers/admin.py:190-206 | A restore that is requested, handed out, executed and reported in any batch silent on the item otherwise shows as restored if and only if the agent restored the file, else as quarantined again. |
| `DeliveryRuns.OutcomesAreFinal` | server/app/services/response.py:106-113 | Once an action has left `queued`, its status and result never change, however often telemetry is re-sent. |
| `DeliveryRuns.FinishesExactly` | agent/silentguard_agent/main.py:94-121 | Some run resolves an action of a kind if and only if the agent has a branch for its command; so `isolate` and `release` never finish. |
| `DeliveryRuns.UnhandledStaysQueued` | agent/silentguard_agent/main.py:94-121 | An action whose command the agent does not handle is queued in every run. |
| `DeliveryRuns.SpoolIsAChannel` | agent/silentguard_agent/telemetry.py:92-113 | Every batch the server processes in a run of the agent's spool is one it may receive in these runs. |
| `DeliveryWorld.ReceiveAction` | server/app/services/response.py:106-113 | Ingesting a batch leaves an action alone or, if it was queued, resolves it by a report of that batch; a rejected batch leaves everything alone. |
| `DeliveryWorld.HandledReports` | agent/silentguard_agent/main.py:87-121 | Executing a command reports only under its own id, only if the agent has a branch for it, and only once. |
| `DeliveryRuns.ServeRequest` | server/app/services/response.py:43-103 | Dispatch, isolation, restore and check-in by the methods on the device are steps of those runs. |
| `DeliveryRuns.ServeTelemetry` | server/app/routers/agents.py:85-121 | So is loading the device row and ingesting a batch. |
| `DeliveryRuns.ServeIsolation` | server/app/detection/engine.py:192-198 | So is isolating the device later, from the row loaded then. |
| `RateLimit.RateLimiter.RateLimited` | server/app/services/auth_service.py:47-57 | Pops what left the window, rejects on a full deque without recording, else records; other keys are untouched. |
| `RateLimit.AtMostLimitPerWindow` | server/app/services/auth_service.py:47-57 | In every closed interval as long as the window, at most `limit` attempts are accepted. |
| `RateLimit.RejectedExactly` | server/app/services/auth_service.py:47-57 | An attempt is rejected if and only if `limit` attempts were accepted in the window ending now, and the pruned deque holds as many as were. |
| `RateLimit.RunKeeps` | server/app/services/auth_service.py:47-57 | The deque is the suffix of all accepted attempts, with only outdated ones cut off. |
| `Lockout.User.Authenticate` | server/app/services/auth_service.py:164-192 | Disabled and locked accounts are refused unchecked; a wrong password counts and may lock; success clears both. |
| `Lockout.CounterBounded` | server/app/services/auth_service.py:178-186 | The failure counter stays below the maximum in every reachable state. |
| `Lockout.AtMostLimitWrong` | server/app/services/auth_service.py:164-192 | In any window as long as the lockout, without a success or reset in it, at most `login_max_attempts` wrong passwords are checked, whatever happened before. |
| `Lockout.LockHolds` | server/app/services/auth_service.py:175-176 | While an account is locked no password is checked, not even the right one. |
| `LockoutHistory.VerdictsExactly` | server/app/services/auth_service.py:164-192 | After any logins, resets and activations, an attempt on an active account is refused as locked if and only if the last wrong password that reached the maximum was checked less than `login_lockout_seconds` ago and no success or reset has come since; otherwise the password decides, and only an inactive account is refused as disabled. |
| `LockoutHistory.LockEnds` | server/app/services/auth_service.py:175-176 | A lock ends `login_lockout_seconds` after the maximum was reached: until then the right password is refused, from then on it logs in. |
| `LockoutHistory.LimitReached` | server/app/services/auth_service.py:178-186 | The bound is tight, and counts anew whenever nothing is counted and no lock is in force: the maximum number of wrong passwords in a row is checked, and locks the account. |
| `LockoutHistory.ClearedStartsOver` | server/app/services/auth_service.py:188-189 | After a success or a reset nothing is counted and no lock is in force at any time. |
| `Sessions.SessionStore.RefreshTokens` | server/app/services/auth_service.py:268-286 | A token is exchanged if and only if it is recorded, unrevoked, unexpired and its user active; it is then revoked and replaced, else nothing changes. |
| `Sessions.SessionStore.RevokeRefreshToken` | server/app/services/auth_service.py:289-299 | Logout revokes a recorded token and is idempotent. |
| `Sessions.SessionStore.RevokeAll` | server/app/services/auth_service.py:369-372 | The loop revokes all sessions of one user and no others. |
| `Sessions.SingleUse` | server/app/services/auth_service.py:255-299 | In every run each refresh token is exchanged at most once, and at most one unrevoked token descends from each login. |
| `Sessions.ExchangedExactly` | server/app/services/auth_service.py:268-299 | In every run a token issued by a login or an exchange is exchanged if and only if it has not expired, was not exchanged before, its user is active, and no logout with it and no password reset of the user has come since. |
| `Sessions.ResetEndsSessions` | server/app/services/auth_service.py:361-374 | After a password reset no token the user held before is ever exchanged. |
| `Sessions.DeadLoginStaysDead` | server/app/services/auth_service.py:268-299 | A login whose open token was closed never has an open token again. |
| `Sessions.TakeStep` | server/app/services/auth_service.py:255-299 | Every call on the session store is a step of those runs. |
| `UserTokens.TokenStore.IssueToken` | server/app/services/auth_service.py:307-317 | Issuing invalidates exactly the outstanding tokens of that user and purpose, and adds the new one. |
| `UserTokens.TokenStore.ConsumeToken` | server/app/services/auth_service.py:320-330 | A token is accepted if and only if an unused row of that purpose holds it, has not expired and belongs to a user on record; it is used up when the caller commits. |
| `UserTokens.AcceptedOnce` | server/app/services/auth_service.py:307-330 | In every run each emailed token is accepted at most once, and a user has at most one unused token per purpose. |
| `UserTokens.AcceptedExactly` | server/app/services/auth_service.py:307-330 | In every run an issued token is accepted if and only if it is used for its purpose, has not expired, was not accepted before, and no other token was issued to its user for that purpose since; it is then that user's. |
| `UserTokens.OlderTokensEnd` | server/app/services/auth_service.py:307-317 | Once a newer token of the same user and purpose is issued, no older one is ever accepted. |
| `UserTokens.TakeStep` | server/app/services/auth_service.py:307-330 | Every call on the token store is a step of those runs. |
| `AuthService.Service.Authenticate` | server/app/services/auth_service.py:164-192 | The limiter comes first, under the client's address or the e-mail as typed; a limited or unknown login touches no account, any other is exactly one lockout step. |
| `AuthService.Service.ResetPassword` | server/app/services/auth_service.py:361-374 | A reset succeeds if and only if the password is acceptable, the token accepted and its user on record; it uses up the token, clears the lock and revokes every session of the user, and otherwise changes nothing. |
| `AuthService.ResetEndsEverything` | server/app/services/auth_service.py:255-374 | After a successful reset, whatever happened before and happens next to tokens and sessions: the lock and the counter are cleared, the link is never accepted again, and no session the user held is exchanged again. |
| `NetMatch.SuffixesAreUnder` | server/app/core/netmatch.py:32-40 | The candidate list of a host holds exactly the host and what follows each of its dots. |
| `NetMatch.SuffixesShorter` | server/app/core/netmatch.py:32-40 | Candidates are strictly ordered, longest first. |
| `NetMatch.AnyExactly` | server/app/core/netmatch.py:43-63 | The suffix-set lookup finds something if and only if some blocked entry passes the linear dot-boundary test, and then returns the longest such domain. |
| `NetMatch.DotBoundary` | agent/silentguard_agent/net_match.py:31-36 | Text in front of a domain gives a host under it if and only if that text ends in a dot. |
| `NetMatch.HostMeans` | agent/silentguard_agent/net_match.py:31-36 | The linear test: neither host is empty, and the first is the second, or any text, a dot and the second. |
| `ThreatIntel.Store.Upsert` | server/app/services/threat_intel.py:45-65 | On any table, with duplicates or without: the first row of the indicator is updated, or a row is added; unknown types are refused. |
| `ThreatIntel.PutStores` | server/app/services/threat_intel.py:45-65 | Afterwards the indicator is stored with the new data, all others are as before, and it has no more rows than before, or one. |
| `ThreatIntel.PutPlace` | server/app/services/threat_intel.py:45-65 | The new row stands in the place of the first one of the same organization, kind and value, or else at the end; nothing else moves. |
| `ThreatIntel.PutKeepsUnique` | server/app/services/threat_intel.py:45-65 | A table without duplicates stays one. |
| `ThreatIntel.Store.PruneExpired` | server/app/services/threat_intel.py:115-121 | Deletes exactly the expired indicators and returns their number. |
| `ThreatIntel.LiveExactly` | server/app/services/threat_intel.py:115-121 | Pruning drops exactly the rows whose time has come and keeps the others in order. |
| `ThreatIntel.LookupExactly` | server/app/services/threat_intel.py:94-112 | A domain or URL lookup hits if and only if the organization holds a live domain indicator that is the host or a dot-boundary suffix of it, and returns such an indicator. |
| `ThreatIntel.OtherLookupExactly` | server/app/services/threat_intel.py:94-112 | Any other lookup hits if and only if the organization holds a live indicator of that kind and value - without blanks around it, and in lower case for hashes and certificates - and returns such an indicator. |
| `ThreatIntel.StoredIsFound` | server/app/services/threat_intel.py:32-65 | A stored address, hash or certificate is found until it expires, with any blanks around it and, but for an address, in any case. |
| `ThreatIntel.NormalizeReads` | server/app/services/threat_intel.py:32-42 | Indicators are stored without blanks around them, domains as their host, all but addresses in lower case. |
| `ThreatIntel.StoredDomainCovers` | server/app/services/threat_intel.py:32-65 | A stored domain indicator makes every host under it hit until it expires. |
| `ThreatIntel.PruneIsInvisible` | server/app/services/threat_intel.py:115-121 | Pruning never changes what a later lookup returns. |
| `ThreatIntel.UrlNeverHits` | server/app/services/threat_intel.py:94-112 | No lookup, of whatever kind, returns a stored URL indicator. |
| `ThreatIntel.OnlyUrlsNeverHit` | server/app/services/threat_intel.py:94-112 | A table of URL indicators answers no lookup at all. |
| `UpdateFloor.ParseVersionLoop` | agent/silentguard_agent/update_verifier.py:43-54 | The two loops compute the number at the head of each dot-separated chunk. |
| `UpdateFloor.ParsePrinted` | agent/silentguard_agent/update_verifier.py:43-54 | Parsing inverts printing: a version of any numbers in decimal, with dots between and any tail behind each that does not start with a digit or contain a dot, is parsed to those numbers. |
| `UpdateFloor.PaddedOrder` | agent/silentguard_agent/update_verifier.py:57-59 | Comparing zero-padded tuples, at whatever common length, compares the first place at which the versions differ. |
| `UpdateFloor.ComparisonsAreOlder` | agent/silentguard_agent/update_verifier.py:66-74 | `is_rollback` and `version_gt` are one order read in either direction. |
| `UpdateFloor.StrictWeakOrder` | agent/silentguard_agent/update_verifier.py:57-74 | That order is irreflexive, asymmetric and transitive, and versions of which neither is older are interchangeable. |
| `UpdateFloor.TrailingZeros` | agent/silentguard_agent/update_verifier.py:57-59 | Trailing zero parts make no difference: 1.2 is 1.2.0. |
| `UpdateFloor.AgentState.Enrol` | agent/silentguard_agent/telemetry.py:71-73 | Enrolling again writes fresh credentials only, so it forgets the floor. |
| `UpdateFloor.AgentState.SetUpdateFloor` | agent/silentguard_agent/config.py:138-142 | Stores the floor and keeps every other key of the state. |
| `UpdateFloor.AgentState.RemoteUpdate` | agent/silentguard_agent/response_handlers.py:79-131 | The branches over the stored state give the verdict, and the floor, of the specification. |
| `UpdateFloor.PrintedVerdict` | agent/silentguard_agent/response_handlers.py:99-117 | A signed manifest of one printed version against the floor of another is blocked if and only if the first number that differs is smaller and there is no override; else it is accepted, and the floor is the larger of the two. |
| `UpdateFloor.FloorIsMaximum` | agent/silentguard_agent/response_handlers.py:99-117 | Between enrolments the floor is the maximum of all accepted numeric versions and the initial floor. |
| `UpdateFloor.FloorRises` | agent/silentguard_agent/response_handlers.py:99-117 | No update lowers the floor, not even one that allows rollback, and none it accepts is above the new floor. |
| `UpdateFloor.AcceptedExactly` | agent/silentguard_agent/response_handlers.py:99-117 | For every floor: a signed manifest is accepted if and only if it is not older than the floor, unless its version holds no digit, it carries the override `1`, `true` or `yes`, or there is no floor; an unsigned one is refused; without manifest there is only an acknowledgement. |
| `UpdateFloor.AcceptedNotBelow` | agent/silentguard_agent/response_handlers.py:99-117 | A numeric manifest accepted without the override is not below any version accepted before, nor below the initial floor. |
| `HostsFile.LastRewriteWins` | agent/silentguard_agent/monitors/dns_sinkhole.py:78-84 | Rewriting with one list and then another equals rewriting with the second alone, when no begin marker stands outside the block. |
| `HostsExact.LastRewriteWinsExactly` | agent/silentguard_agent/monitors/dns_sinkhole.py:78-84 | For every text that is not malformed, it does so if and only if no begin marker stands outside the first block. |
| `HostsExact.BlocksSlide` | agent/silentguard_agent/monitors/dns_sinkhole.py:78-84 | Of two blocks a rewrite drops the first and puts its own behind the second. |
| `HostsFile.StripKeeps` | agent/silentguard_agent/monitors/dns_sinkhole.py:78-81 | Stripping removes one stretch from a begin marker to an end marker behind it, and keeps all other text in order. |
| `HostsFile.RStripExactly` | agent/silentguard_agent/monitors/dns_sinkhole.py:83 | Before the block is appended, exactly the newlines at the end are dropped. |
| `HostsFile.RewriteLines` | agent/silentguard_agent/monitors/dns_sinkhole.py:82-84 | The rewritten file, line by line: the kept lines, the begin marker, one line `0.0.0.0` and host for each listed host in order, the end marker, and nothing else. |
| `HostsFile.RewritePinsExactly` | agent/silentguard_agent/monitors/dns_sinkhole.py:82-84 | Read line by line, the rewritten file pins exactly the listed hosts besides those pinned outside the block. |
| `HostsFile.OneBlockRemains` | desktop/silentguard_home/engine.py:43-49 | After a rewrite the begin marker occurs at one place only, behind the kept text. |
| `HostsFile.MalformedExactly` | agent/silentguard_agent/monitors/dns_sinkhole.py:78-81 | Stripping raises an exception if and only if both markers occur and every end marker starts before the first begin marker has ended. |
| `HostsMarkers.OwnMarkersProper` | agent/silentguard_agent/monitors/dns_sinkhole.py:18-19 | The markers of both programs are lines of comment, and neither spells the other. |
| `HostsMarkers.OwnRewriteWinsExactly` | desktop/silentguard_home/engine.py:43-49 | The same for the markers of either program, any plain hosts and any text that is not malformed. |
| `HostsMarkers.OwnBlockRemains` | agent/silentguard_agent/monitors/dns_sinkhole.py:78-84 | For the markers of either program and any plain hosts, one block remains. |
| `HostsMarkers.StrayBeginErases` | agent/silentguard_agent/monitors/dns_sinkhole.py:78-84 | With a begin marker in front of a text without end marker, the second rewrite erases the whole text. |
| `HostsMarkers.LocalhostLost` | agent/silentguard_agent/monitors/dns_sinkhole.py:78-84 | A hosts file that starts with such a marker loses its line for localhost when one host is blocked and then none. |
| `DnsSinkhole.ExpandHosts` | agent/silentguard_agent/monitors/dns_sinkhole.py:34-44 | The loops collect each non-empty host and, for hosts with exactly one dot, the three common subdomains. |
| `DnsSinkhole.ExpandExactly` | agent/silentguard_agent/monitors/dns_sinkhole.py:34-44 | A host is blocked if and only if it is a listed non-empty one, or `www.`, `m.` or `mobile.` in front of a listed one that is two dot-free texts around one dot. |
| `DnsSinkhole.HomeVariantsExactly` | desktop/silentguard_home/engine.py:31-42 | The same expansion in the desktop application. |
| `DnsSinkhole.Sinkhole.Sync` | agent/silentguard_agent/monitors/dns_sinkhole.py:53-104 | One synchronisation changes file and remembered set as specified, whichever file operation fails, and announces only newly blocked configured hosts. |
| `DnsSinkhole.PassReads` | agent/silentguard_agent/monitors/dns_sinkhole.py:53-104 | A pass that can read and write a well-formed file puts the wanted set in force and remembers it; one that cannot changes nothing; a dry run changes no file. |
| `DnsSinkhole.SyncIsOneRewrite` | agent/silentguard_agent/monitors/dns_sinkhole.py:53-104 | From an original without a begin marker outside its first block, however often the blocked set changes and file operations fail: the file is the original before the first write and the original rewritten once, with the remembered set, after it. |
| `DnsSinkhole.InStepExactly` | agent/silentguard_agent/monitors/dns_sinkhole.py:53-104 | All runs from an original keep that form if and only if it has no begin marker outside its first block, or is malformed and so never written. |
| `DnsSinkhole.RunPins` | agent/silentguard_agent/monitors/dns_sinkhole.py:53-104 | From any original: once written, the file pins exactly the remembered set besides what the text kept by the last write pins. |
| `DnsSinkhole.SyncPinsExactly` | agent/silentguard_agent/monitors/dns_sinkhole.py:53-104 | From any original that is not malformed, after a synchronisation that reports success: the file pins exactly the expanded blocked set besides what lines outside the original's first block pin, if and only if the text the last write kept pins the same other hosts or, nothing being written yet, the original has no stale block. |
| `DnsSinkhole.CleanKeepsOutside` | agent/silentguard_agent/monitors/dns_sinkhole.py:78-84 | From an original without a begin marker outside its first block, every write keeps the text the first one kept. |
| `DnsSinkhole.TwoBlocksStale` | agent/silentguard_agent/monitors/dns_sinkhole.py:78-84 | From a file with two blocks, blocking one host and then another leaves the first in force, although both synchronisations report success. |
| `DnsSinkhole.StaleExactly` | agent/silentguard_agent/monitors/dns_sinkhole.py:78-84 | The block an earlier process wrote is stale if and only if it pins a host that no line outside pins. |
| `DnsSinkhole.RestartKeepsStale` | agent/silentguard_agent/monitors/dns_sinkhole.py:51-66 | An agent started again with nothing to block reports nothing to do, and the old pins stay. |
| `DnsSinkhole.MalformedStays` | agent/silentguard_agent/monitors/dns_sinkhole.py:78-81 | A malformed file is never changed, and every pass with something to block raises the exception. |
| `DnsSinkhole.ApplyHosts` | desktop/silentguard_home/engine.py:31-52 | The desktop application performs the same rewrite with its own markers, or leaves the file alone. |
| `Cef.EscapeIsOnePass` | server/app/services/integrations.py:46-47 | The three chained replacements equal a single pass that puts a backslash before each special character. |
| `Cef.EscapesExactly` | server/app/services/integrations.py:46-47 | Backslash, equals sign and bar get a backslash in front of them, and no other character changes. |
| `Cef.UnescapeEscaped` | server/app/services/integrations.py:46-47 | Unescaping gives every value back. |
| `Cef.ReadPrinted` | server/app/services/integrations.py:50-60 | A reader that cuts at unescaped `=` and takes the token behind the last blank as key recovers all fields, whatever the values contain. |
| `Cef.PayloadRecovered` | server/app/services/integrations.py:50-60 | Reading the line of an event gives exactly its non-empty fields - host name under `dvchost`, source under `cs1`, action under `act`, technique under `cs2` - in this order. |
| `ProcessTree.ProcessForest` | server/app/services/analytics.py:136-155 | Read off the rows: each process that some row mentions stands in the list of p if the first parent reported for it is p, another process that some row mentions, and among the roots if there is no such p; every list keeps the order of first mention. |
| `ProcessTree.Link` | server/app/services/analytics.py:147-155 | The linking loop puts each node under its recorded parent, in order, or among the roots. |
| `ProcessTree.CollectReads` | server/app/services/analytics.py:136-146 | A pid is recorded if and only if some row mentions it, with the first parent reported for it. |
| `ProcessTree.CollectNames` | server/app/services/analytics.py:141-143 | A node bears the name given by the first row that mentions its pid. |
| `ProcessTree.PlacedOnce` | server/app/services/analytics.py:147-154 | Each recorded pid stands once among the roots and in no children list, or once in its parent's list and nowhere else. |
| `ProcessTree.ForestComplete` | server/app/services/analytics.py:136-155 | Reading the returned forest meets each recorded pid exactly once, except those whose ancestor chain enters a cycle: these are missing. |
| `ProcessTree.LongExactlyCycles` | server/app/services/analytics.py:147-154 | An ancestor chain still going after as many steps as there are pids is exactly one that enters a cycle. |
| `Quarantine.QuarantineManager.Quarantine` | agent/silentguard_agent/quarantine.py:77-113 | Moves the file and lists it, or - depending on how far the file operations get - does less, never more; a dry run only lists. |
| `Quarantine.QuarantineManager.Restore` | agent/silentguard_agent/quarantine.py:115-139 | Restores the first entry of the id still in quarantine, or changes nothing. |
| `Quarantine.QuarantineConserves` | agent/silentguard_agent/quarantine.py:77-113 | Quarantining keeps the number of copies of every content, however far it gets. |
| `Quarantine.RestoreConservesExactly` | agent/silentguard_agent/quarantine.py:115-139 | Restoring keeps them if and only if no file stands at the original path. |
| `Quarantine.RestoreOverwrites` | agent/silentguard_agent/quarantine.py:115-139 | Quarantine, a new file in its place, restore: the only copy of the new file is gone. |
| `Quarantine.RoundTrip` | agent/silentguard_agent/quarantine.py:77-139 | Restoring right after quarantining puts every file back where it was. |
| `Quarantine.RestoreExactly` | agent/silentguard_agent/quarantine.py:115-139 | Restoring takes the first entry of the id that is in quarantine and puts its file back at the path listed - in a dry run only the entry changes; it fails if and only if there is no such entry or the file operations fail. |
| `Quarantine.DryRunOnlyLists` | agent/silentguard_agent/quarantine.py:93-98 | A dry run of quarantining lists an entry, and moves nothing. |
| `Quarantine.QuarantinedIsRestorable` | agent/silentguard_agent/quarantine.py:77-139 | In every run a file listed as quarantined was moved there by some step, and can be restored, once, to where that step found it and with the content it had; the digest listed is the one handed in, or else that of the content. |
| `Quarantine.MovedRestorableExactly` | agent/silentguard_agent/quarantine.py:100-113 | A file that was moved lies in quarantine, unchanged, until it is restored - and can be restored if and only if the attempt went through behind the move. |
| `Quarantine.OrphanForever` | agent/silentguard_agent/quarantine.py:100-113 | One whose attempt failed behind the move is restored by no run. |

## Left out

- Text.Lower: folds ASCII letters only; other cased letters and Unicode digits are not modelled, except the superscript digits that the count test of Sigma accepts and `int` refuses.
- SigmaCompiler.CompileCondition: Python's recursion limit on deeply nested conditions is not modelled.
- SigmaMissing.MissingMeansAllExactly: names with blanks that, pasted together, spell an aggregate (`1 of them`) are excluded by the condition on pasted names.
- SigmaRules.CompileRule: YAML loading, the level and tag metadata and the digest cache of compiled rules are left out; the cache only repeats what compiling gave.
- SigmaUnreported.UnreportedMatchesExactly: the regular-expression engine is an arbitrary function, and a field reported as the empty text counts as unreported.
- SpoolRuns.Conservation: a spool file torn in mid-write, and several flushers, are not modelled.
- Ingest.Telemetry: timestamps, stored event rows, detections and notifications are left out, and so is an `action_id` that is not a number, which ends the request.
- IngestResend.ResendExactly: no administrator acts on the items between the two ingestions.
- SpoolIngest.FirstReportsCount: runs in which events overflow, saves fail or a batch is rejected are covered only by what the modules on either side say.
- DeliveryRuns.FinishesExactly: the agent's handlers may end in an uncaught exception, which is the step that gives up the list of commands.
- DeliveryOrder.OrderExactly: of the requests only the telemetry request is split into its transactions; two other requests that rewrite one device's command list at once are not modelled.
- DeliveryRuns.OutcomesAreTheAgents: parameters that hold a key `command` or `action_id` are excluded.
- Sessions.SingleUse: a server that dies between revoking the old token and issuing the new one ends that login; this is not a separate step.
- UserTokens.AcceptedOnce: raw tokens are fresh and their hashes do not collide.
- NetMatch.AnyExactly: `extract_host` is an arbitrary function that maps the empty text to the empty host.
- ThreatIntel.Store.Upsert: bulk import, in which two copies of one indicator are both stored because nothing is written in between, feeds and indicator extraction are left out; `first()` is the first row in storage order.
- UpdateFloor.AgentState.RemoteUpdate: the signature check is an input, and so is the integrity check of the state file.
- HostsExact.LastRewriteWinsExactly: newline translation by the file system is left out.
- DnsSinkhole.SyncPinsExactly: the runs are those of one process outside dry-run mode whose file nobody else rewrites; the agent and the desktop application rewriting one file in turns is not modelled; `sorted` is any list of the set's elements.
- Cef.PayloadRecovered: the header of a CEF line is not escaped by the code and is excluded; the JSON, Splunk and chat formats and delivery are left out.
- ProcessTree.ProcessForest: the query, its limit of 500 rows and values that are not numbers are left out.
- Quarantine.QuarantinedIsRestorable: a manifest that cannot be written, and a move that fails half-way, are not modelled; on the server a status `restored` is not final.
- TOTP, single sign-on, sign-up, password policy and hashing: library calls and single branches.
- Dashboards, HTTP, sockets, mail, the AI assistant, firewall and monitor plug-ins: input and output around libraries.
- Roles, plans, policy merge, compliance scores, keyword rules, the MITRE table, risk scores and the liveness sweep: finite tables or single branches.
