# Investigation-job monitor, modelled in Dafny

This project models the core of the asynchronous investigation monitor of the
CloudWatch Application Signals MCP server (`AsyncTaskMonitor` in
`async_monitor.py`) and of the script that lists the investigations it stores
(`list_investigations` in `check_dynamodb_investigations.py`).

An investigation is a job in a key-value table. Its `prompt` attribute is an
append-only **job log**:

- The log opens with the question, the creation time and the initial context.
- A periodic **master poll** feeds every open job's log, followed by a fixed
  instruction text, to a generation backend (a real CLI or a built-in
  simulator).
- The **response interpreter** turns the reply into a status, an action,
  findings and an optional answer.
- The poll appends one time-stamped entry to the log. It moves the job from
  `open` to `complete` when the reply says so.

A second poller announces completed deployment-related jobs on a Slack
webhook, at most once per job. Every value written to the table first has its
floats replaced by decimals. The listing script scans the whole table, splits
investigations from other jobs, and orders the investigations by descending
job id. It then reads each investigation's question, creation time, iteration
count, latest findings and answer back out of its log.

Modules, in dependency order:

| file | module | what it models |
|---|---|---|
| `options.dfy` | `Options` | the optional-value type |
| `text.dfy` | `Text` | substring tests, `strip`, `lower`, `split`/`join`, `str(n)` |
| `json.dfy` | `Json` | stored values and `convert_floats_to_decimal` |
| `findings.dfy` | `Findings` | the insertion-ordered findings dict |
| `search.dfy` | `Search` | `re.search` for an opener, a `[^c]+` group and a closer `c` |
| `interpreter.dfy` | `Interpreter` | `_parse_llm_response` |
| `joblog.dfy` | `JobLog` | the log text: initial prompt, instruction suffix, iteration entry |
| `pages.dfy` | `Pages` | paginated scans |
| `jobstore.dfy` | `JobStore` | store, cache, `get_task`, `update_task`, `stop_task`, `get_active_tasks`, `create_investigation` |
| `engine.dfy` | `Engine` | the simulator, `_process_investigation`, `_update_investigation`, the master poll |
| `notify.dfy` | `Notify` | the Slack payload and the deployment poller |
| `logreader.dfy` | `LogReader` | the listing's extraction of fields from a log, and the write/read round trips |
| `listing.dfy` | `Listing` | `list_investigations` |

The monitor's state is an immutable record. It holds the table (a map from
job id to item), the cache, and the set of notification keys already used.
Each operation is a pure function from one state to the next. Three things
are parameters of the model:

- the clock, the UUID and the environment settings;
- the backend's output;
- the rendering of a non-string value with `str`.

These behaviours follow the code:

- A status token is recognised only with the upper-case values `CONTINUING`
  and `COMPLETE`.
- A reply without a token that contains the word "recommend" is `complete`,
  because `recommend` is one of the eleven completion phrases.
- The deployment poller marks a job as announced even when no webhook is
  configured or the post fails.
- The master poll processes only the first response of its scan.
- Every iteration passes iteration number 0 to the simulator. Without a
  working real backend, a job therefore never completes by itself.

## Model

`AM` below stands for `mcp/awslabs/cloudwatch_appsignals_mcp_server/async_monitor.py`
and `LS` for `mcp/scripts/check_dynamodb_investigations.py`; the source column
spells the paths out.

| member | source | states |
|---|---|---|
| Json.ConvertFloats | mcp/awslabs/cloudwatch_appsignals_mcp_server/async_monitor.py:15-23 | the result holds no float anywhere; at the top level a float becomes the decimal of its text, any other leaf is returned as it is, a list keeps its length and a dict its keys |
| Json.ConvertAt | mcp/awslabs/cloudwatch_appsignals_mcp_server/async_monitor.py:15-23 | at every depth the converted value has exactly the original's paths; at each path sits the conversion of what sat there, so a float became the decimal of its text, every other leaf is unchanged, and every nested list keeps its length and every nested dict its keys |
| Json.ConvertItem | mcp/awslabs/cloudwatch_appsignals_mcp_server/async_monitor.py:213-215 | a converted record keeps its attribute names, holds no float, and each attribute's value is the conversion of the old one |
| Json.ConvertFloatFree | mcp/awslabs/cloudwatch_appsignals_mcp_server/async_monitor.py:15-23 | a value without floats is returned exactly as it is |
| Json.ConvertItemFloatFree | mcp/awslabs/cloudwatch_appsignals_mcp_server/async_monitor.py:254-256 | a float-free record is written as it is |
| Json.ConvertIdempotent | mcp/awslabs/cloudwatch_appsignals_mcp_server/async_monitor.py:15-23 | converting twice is converting once |
| Search.FirstDelimitedIsLeftmost | mcp/awslabs/cloudwatch_appsignals_mcp_server/async_monitor.py:459 | `re.search` fails exactly when no position matches, and otherwise returns the match at the leftmost matching position |
| Search.FirstDelimitedAt | mcp/scripts/check_dynamodb_investigations.py:88-89 | a match with no match before it is the one the search returns |
| Search.DelimitedAtComplete | mcp/scripts/check_dynamodb_investigations.py:88 | any text of the form opener, non-empty group without the closer, closer is matched with exactly that group |
| Search.FirstDelimitedExtend | mcp/scripts/check_dynamodb_investigations.py:88 | text appended after a successful search never changes its result |
| Search.FirstDelimitedSkip | mcp/scripts/check_dynamodb_investigations.py:92 | a search over a line-ended prefix without matches continues in the text after it |
| Interpreter.StatusTokenFromIsLeftmost | mcp/awslabs/cloudwatch_appsignals_mcp_server/async_monitor.py:442 | the token search returns the leftmost status token, and nothing exactly when there is none |
| Interpreter.ParseStatusSpec | mcp/awslabs/cloudwatch_appsignals_mcp_server/async_monitor.py:442-456 | the leftmost status token decides the status over any phrase; with no token the status is complete exactly when one of the eleven phrases occurs in the lower-cased reply |
| Interpreter.OpeningStatus | mcp/awslabs/cloudwatch_appsignals_mcp_server/async_monitor.py:442-445 | a reply that opens with a status token has that status whatever follows |
| Interpreter.StatusTokensDiffer | mcp/awslabs/cloudwatch_appsignals_mcp_server/async_monitor.py:442 | the two tokens cannot both occur at one position |
| Interpreter.FirstMatch | mcp/awslabs/cloudwatch_appsignals_mcp_server/async_monitor.py:473-477 | the result of the first matching pattern in list order; nothing exactly when no pattern matches |
| Interpreter.ParseActionSpec | mcp/awslabs/cloudwatch_appsignals_mcp_server/async_monitor.py:458-477 | the stripped group of the leftmost action token; with no token, the first matching action pattern's group, stripped; else the default action |
| Interpreter.FindingAtSound | mcp/awslabs/cloudwatch_appsignals_mcp_server/async_monitor.py:480 | a recognised finding token has a non-empty key without `=` and a non-empty value without `]`, and its text is the token |
| Interpreter.FindingAtComplete | mcp/awslabs/cloudwatch_appsignals_mcp_server/async_monitor.py:480 | every finding token in the text is recognised where it starts, with exactly its key and value |
| Interpreter.FindingTokensEmpty | mcp/awslabs/cloudwatch_appsignals_mcp_server/async_monitor.py:480 | `findall` returns nothing exactly when no position starts a finding token |
| Interpreter.StripPairsTrimmed | mcp/awslabs/cloudwatch_appsignals_mcp_server/async_monitor.py:481-482 | every stripped key and value is a piece of the original key or value with no whitespace at either end |
| Interpreter.StripPairsIdempotent | mcp/awslabs/cloudwatch_appsignals_mcp_server/async_monitor.py:481-482 | stripping the pairs a second time changes nothing |
| Interpreter.CleanMetric | mcp/awslabs/cloudwatch_appsignals_mcp_server/async_monitor.py:496 | a cleaned metric label has the stripped label's length and no space |
| Interpreter.ParseFindingsSpec | mcp/awslabs/cloudwatch_appsignals_mcp_server/async_monitor.py:479-497 | with a finding token the findings are the token pairs under dict assignment and the metric patterns are never used; with none they come from the metric patterns alone; keys are distinct |
| Interpreter.LastSegment | mcp/awslabs/cloudwatch_appsignals_mcp_server/async_monitor.py:521 | the last piece of the split on `[.!?]+` is the suffix after the last terminator and holds none |
| Interpreter.ParseAnswerSpec | mcp/awslabs/cloudwatch_appsignals_mcp_server/async_monitor.py:499-523 | the leftmost answer token wins over the conclusion patterns, which win over the last sentence; the last sentence becomes the answer exactly when it is longer than ten characters |
| Interpreter.Parse | mcp/awslabs/cloudwatch_appsignals_mcp_server/async_monitor.py:430-526 | an answer is present only in a complete reply, and the findings never list a key twice |
| Findings.Put | mcp/awslabs/cloudwatch_appsignals_mcp_server/async_monitor.py:482 | assignment makes the key map to the value, leaves every other key alone, keeps a present key's position and appends a new key |
| Findings.PutAllLookup | mcp/awslabs/cloudwatch_appsignals_mcp_server/async_monitor.py:481-482 | after assigning a list of pairs, each key holds the value of its last pair |
| Findings.PutAllOrder | mcp/awslabs/cloudwatch_appsignals_mcp_server/async_monitor.py:481-482 | the keys are listed once each in the order of their first assignment |
| JobLog.InvestigationPromptSuffix | mcp/awslabs/cloudwatch_appsignals_mcp_server/async_monitor.py:339-352 | the backend prompt is the log followed by a fixed suffix that depends on nothing else |
| JobLog.AppendEntry | mcp/awslabs/cloudwatch_appsignals_mcp_server/async_monitor.py:540-553 | the old log is a strict prefix of the new one |
| JobStore.Empty | mcp/awslabs/cloudwatch_appsignals_mcp_server/async_monitor.py:39-40 | the initial state satisfies the store invariant and the cache agrees with the store |
| JobStore.GetTaskTwice | mcp/awslabs/cloudwatch_appsignals_mcp_server/async_monitor.py:223-234 | reading a job a second time returns the same answer and leaves the monitor as the first read left it |
| JobStore.GetTaskValid | mcp/awslabs/cloudwatch_appsignals_mcp_server/async_monitor.py:223-234 | reading keeps the invariant and the cache's agreement |
| JobStore.UpdateTask | mcp/awslabs/cloudwatch_appsignals_mcp_server/async_monitor.py:236-264 | the update succeeds exactly for a stored, non-empty record, writes nothing when it fails, and never adds or removes a job |
| JobStore.ApplySpec | mcp/awslabs/cloudwatch_appsignals_mcp_server/async_monitor.py:244-252 | an update sets the attributes it names, always stamps `updated_at`, and keeps every other attribute |
| JobStore.UpdateTaskStore | mcp/awslabs/cloudwatch_appsignals_mcp_server/async_monitor.py:254-259 | a successful update writes the updated record to the store and the cache |
| JobStore.UpdateTaskSpec | mcp/awslabs/cloudwatch_appsignals_mcp_server/async_monitor.py:236-264 | on a valid state an update succeeds exactly for stored jobs, writes the updated record, and keeps the invariant |
| JobStore.UpdateTaskAgrees | mcp/awslabs/cloudwatch_appsignals_mcp_server/async_monitor.py:255-259 | after an update the cache still agrees with the store |
| JobStore.StopTaskSpec | mcp/awslabs/cloudwatch_appsignals_mcp_server/async_monitor.py:274-276 | stopping succeeds exactly for stored jobs, leaves other jobs alone and keeps the invariant |
| JobStore.StopTaskCompletes | mcp/awslabs/cloudwatch_appsignals_mcp_server/async_monitor.py:274-276 | a stopped job is complete |
| JobStore.StopTaskKeeps | mcp/awslabs/cloudwatch_appsignals_mcp_server/async_monitor.py:274-276 | stopping changes no attribute but `status` and `updated_at` |
| JobStore.GetActiveTasks | mcp/awslabs/cloudwatch_appsignals_mcp_server/async_monitor.py:266-272 | the active tasks are exactly the cached records whose status is `open`; with the cache in agreement, they are the stored open jobs this process has seen |
| JobStore.NewJobIdKept | mcp/awslabs/cloudwatch_appsignals_mcp_server/async_monitor.py:197-198 | a new job's id is never empty, and passing it back as the caller's id keeps it |
| JobStore.CreateInvestigation | mcp/awslabs/cloudwatch_appsignals_mcp_server/async_monitor.py:193-221 | the new record, its log stamped with the first clock reading and `updated_at` with the second, is written under the new id in the store and the cache, and nothing else changes |
| JobStore.CreateInvestigationValid | mcp/awslabs/cloudwatch_appsignals_mcp_server/async_monitor.py:206-218 | creating keeps the invariant and the cache's agreement, and the new job is open |
| Engine.SimulatedStatus | mcp/awslabs/cloudwatch_appsignals_mcp_server/async_monitor.py:367-387 | the simulator's reply is continuing for iterations 0 to 2 and complete from 3 on |
| Engine.SimulatorContinues | mcp/awslabs/cloudwatch_appsignals_mcp_server/async_monitor.py:358-387 | without a working real backend, the reply of an early iteration is continuing and has no answer |
| Engine.SimulatedIterationContinues | mcp/awslabs/cloudwatch_appsignals_mcp_server/async_monitor.py:331 | because every iteration passes iteration 0, a job without a working real backend always gets a continuing reply |
| Engine.NextStatus | mcp/awslabs/cloudwatch_appsignals_mcp_server/async_monitor.py:555-558 | the written status is complete exactly when the reply or the stored status is complete, and a continuing reply keeps the stored status |
| Engine.UpdateInvestigationWrite | mcp/awslabs/cloudwatch_appsignals_mcp_server/async_monitor.py:528-562 | an iteration on a job with a status writes its record to the store and the cache and changes nothing else |
| Engine.UpdateInvestigationEffect | mcp/awslabs/cloudwatch_appsignals_mcp_server/async_monitor.py:534-538 | an iteration on a missing job, or one without a status, only rereads |
| Engine.IterationRecordSpec | mcp/awslabs/cloudwatch_appsignals_mcp_server/async_monitor.py:540-562 | the written record holds the next status, the log with the entry appended and the write time, and keeps every other attribute |
| Engine.UpdateInvestigationValid | mcp/awslabs/cloudwatch_appsignals_mcp_server/async_monitor.py:528-562 | an iteration keeps the store invariant |
| Engine.UpdateInvestigationSpec | mcp/awslabs/cloudwatch_appsignals_mcp_server/async_monitor.py:555-562 | whatever the reply, an iteration keeps the set of jobs, touches no other job and never reopens a complete job |
| Engine.ContinuingKeepsStatus | mcp/awslabs/cloudwatch_appsignals_mcp_server/async_monitor.py:555-558 | a continuing reply changes no job's status |
| Engine.FallbackContinues | mcp/awslabs/cloudwatch_appsignals_mcp_server/async_monitor.py:358-370 | a job iteration that falls back to the simulator, with no real backend selected or a failing one, gets a continuing reply |
| Engine.IterateKeepsStatus | mcp/awslabs/cloudwatch_appsignals_mcp_server/async_monitor.py:333-334 | writing a continuing reply keeps every stored status |
| Engine.SimulatedProcessKeepsStatus | mcp/awslabs/cloudwatch_appsignals_mcp_server/async_monitor.py:319-337 | a simulated job never completes by itself: an iteration that falls back to the simulator leaves every stored status as it was |
| Engine.UpdateAppends | mcp/awslabs/cloudwatch_appsignals_mcp_server/async_monitor.py:540-562 | the stored log is extended by exactly one entry |
| Engine.ProcessInvestigationSpec | mcp/awslabs/cloudwatch_appsignals_mcp_server/async_monitor.py:319-337 | one job's iteration keeps the invariant and the set of jobs, touches only that job and never reopens a complete one |
| Engine.IterationAppends | mcp/awslabs/cloudwatch_appsignals_mcp_server/async_monitor.py:324-334 | processing a job whose scanned log is its stored log appends the entry for the reply to that log |
| Engine.MasterPoll | mcp/awslabs/cloudwatch_appsignals_mcp_server/async_monitor.py:113-134 | the poll takes the first response's jobs in order until one lacks a job id; it keeps the invariant and the set of jobs, touches only the jobs it took and reopens none; without a real backend selected it changes no job's status |
| Notify.SlackPayloadFalsy | mcp/awslabs/cloudwatch_appsignals_mcp_server/async_monitor.py:298-307 | without a truthy job id the payload is the same whatever the id is |
| Notify.SlackPayloadDistinguishes | mcp/awslabs/cloudwatch_appsignals_mcp_server/async_monitor.py:298-307 | two truthy job ids that render differently give different payloads, so a payload names its job |
| Notify.DeploymentTermsRedundant | mcp/awslabs/cloudwatch_appsignals_mcp_server/async_monitor.py:165-170 | a job is deployment-related exactly when its prompt is a string whose lower-cased text contains `deploy` or `alarm` |
| Notify.AnnounceItemsRemembers | mcp/awslabs/cloudwatch_appsignals_mcp_server/async_monitor.py:161-187 | after the loop, the remembered keys are the earlier ones plus the keys of every deployment-related item |
| Notify.AnnounceItemsFresh | mcp/awslabs/cloudwatch_appsignals_mcp_server/async_monitor.py:173-187 | every announced job's key was not remembered before, and no key is announced twice |
| Notify.AnnounceItemsCovers | mcp/awslabs/cloudwatch_appsignals_mcp_server/async_monitor.py:173-187 | every newly remembered key belongs to an announced job |
| Notify.AnnounceItemsCount | mcp/awslabs/cloudwatch_appsignals_mcp_server/async_monitor.py:173-187 | the remembered keys only grow, and the number of announcements is the number of new keys |
| Notify.AnnounceItemsQuiet | mcp/awslabs/cloudwatch_appsignals_mcp_server/async_monitor.py:173-187 | when every deployment key is already remembered, nothing is announced |
| Notify.Posts | mcp/awslabs/cloudwatch_appsignals_mcp_server/async_monitor.py:184 | one post per announced job with a configured webhook, none without |
| Notify.DeploymentTickSpec | mcp/awslabs/cloudwatch_appsignals_mcp_server/async_monitor.py:136-191 | a tick remembers every deployment-related scanned job, and with a webhook sends one post per newly remembered key |
| Notify.DeploymentTickIdempotent | mcp/awslabs/cloudwatch_appsignals_mcp_server/async_monitor.py:173-187 | a second tick over the same scan sends nothing and remembers nothing new |
| Notify.PollDeployments | mcp/awslabs/cloudwatch_appsignals_mcp_server/async_monitor.py:140-187 | the source's loop computes exactly the posts and keys of a tick |
| Notify.PostsAppend | mcp/awslabs/cloudwatch_appsignals_mcp_server/async_monitor.py:184 | the posts for announcements made one after the other are the posts for all of them in order |
| Notify.PollTick | mcp/awslabs/cloudwatch_appsignals_mcp_server/async_monitor.py:173-187 | a run on the monitor leaves the table and cache alone, adds to the remembered keys every deployment-related job's key, and with a webhook posts once per newly remembered key |
| Notify.PollTicksOnce | mcp/awslabs/cloudwatch_appsignals_mcp_server/async_monitor.py:173-187 | across any sequence of runs over any scans, each post is for an announced job, no two announced jobs share a key, no announced key was remembered at the start, and the announcements number exactly the keys remembered since: every job is announced at most once |
| Pages.ScanItemsConcat | mcp/scripts/check_dynamodb_investigations.py:50-56 | on a complete scan the collected items are all pages' items in page order |
| Pages.ScanItemsStops | mcp/scripts/check_dynamodb_investigations.py:54-56 | no page after the first one without a resume key is requested |
| Pages.Scan | mcp/scripts/check_dynamodb_investigations.py:49-56 | the pagination loop collects exactly the scan's items |
| Listing.CreatedIsInvestigation | mcp/scripts/check_dynamodb_investigations.py:68 | every log the monitor creates marks its item as an investigation |
| Listing.Classify | mcp/scripts/check_dynamodb_investigations.py:62-71 | the first group holds only investigations, the second none, and together they count every item |
| Listing.ClassifyPartition | mcp/scripts/check_dynamodb_investigations.py:66-71 | the two groups together are exactly the scanned items |
| Listing.ClassifyMembership | mcp/scripts/check_dynamodb_investigations.py:66-71 | an item is among the investigations exactly when it is one, and among the other jobs exactly when it is not |
| Listing.BelowTotal | mcp/scripts/check_dynamodb_investigations.py:78-81 | Python's string order is total |
| Listing.DescendingEverywhere | mcp/scripts/check_dynamodb_investigations.py:78-81 | in the sorted list every job id is at least every later one |
| Listing.SortDescending | mcp/scripts/check_dynamodb_investigations.py:78-82 | the sorted list is a permutation of the input in descending job id order |
| Listing.SummaryOfCreated | mcp/scripts/check_dynamodb_investigations.py:87-93 | the summary of a monitor-created investigation shows its question and creation time |
| Listing.ListInvestigations | mcp/scripts/check_dynamodb_investigations.py:58-60 | the listing is empty exactly when the scan is, and reports a failure exactly when two or more investigations have ids that are not all strings |
| Listing.ListedSummaries | mcp/scripts/check_dynamodb_investigations.py:73-82 | a listing shows one summary per investigation in descending job id order, and keeps the other jobs |
| LogReader.ShownAnswer | mcp/scripts/check_dynamodb_investigations.py:117-120 | an answer is shown exactly for a complete item with an answer line, cut to its first 200 characters |
| LogReader.QuestionRoundTrip | mcp/scripts/check_dynamodb_investigations.py:88-89 | the question of a created log is read back, whatever was appended since |
| LogReader.CreatedRoundTrip | mcp/scripts/check_dynamodb_investigations.py:92-93 | the creation time of a created log is read back when the question does not contain `Created: ` |
| LogReader.AnswerRoundTrip | mcp/scripts/check_dynamodb_investigations.py:117-119 | the answer an entry writes is read back when nothing before it holds `Answer: ` |
| LogReader.HeadersApart | mcp/scripts/check_dynamodb_investigations.py:96 | two matches of the header pattern never overlap |
| LogReader.HeaderCountAppend | mcp/scripts/check_dynamodb_investigations.py:96 | counts add up across a seam that no match can span |
| LogReader.StampCountsOnce | mcp/scripts/check_dynamodb_investigations.py:96 | the header line written for an ISO time stamp matches exactly once |
| LogReader.IterationsAppend | mcp/scripts/check_dynamodb_investigations.py:95-96 | each appended entry adds exactly one to the iteration count when its body holds no header-shaped text |
| LogReader.BlocksNone | mcp/scripts/check_dynamodb_investigations.py:109 | text without `Findings:` and a newline holds no findings block |
| LogReader.BlocksShift | mcp/scripts/check_dynamodb_investigations.py:109 | reading blocks in a suffix is unaffected by the text before it |
| LogReader.BlocksAppend | mcp/scripts/check_dynamodb_investigations.py:109 | at a line boundary, the blocks of a concatenation are those of the parts |
| LogReader.BlockReadBack | mcp/scripts/check_dynamodb_investigations.py:109 | a written findings block is read back whole as the first block |
| LogReader.ReadBackBlock | mcp/scripts/check_dynamodb_investigations.py:112 | stripping and splitting a written block gives back its lines |
| LogReader.LatestFindingsAppend | mcp/scripts/check_dynamodb_investigations.py:108-114 | just after an entry with findings, the latest findings are that entry's findings lines |
| Text.SplitJoin | mcp/scripts/check_dynamodb_investigations.py:112 | splitting a join of separator-free pieces gives the pieces back |

## Left out

- Thread, event-loop and scheduler lifecycle (`start`, `stop`, `_run_event_loop`, `_init_scheduler`, `_stop_loop`) and the polling intervals: concurrency and timing, not state changes.
- The table client: the table is a map from job id to item, and a scan is the sequence of its responses. Failed requests are not modelled. In particular, when `put_item` raises inside `update_task` (`AM` lines 239-258), the cached record has already been changed in place, so the source's cache then differs from its table. The model cannot show that state. The caught exceptions the model does cover are these. The `KeyError` at `AM` line 130 ends the master poll before the job that lacks a `job_id`. The `TypeError` for a log that is not a string (`AM` line 328) and the `KeyError` for a job without a `status` (`AM` line 556) each end that job's iteration with no write.
- `utcnow()`, `uuid4()`, `USE_REAL_LLM`, `SLACK_WEBHOOK_URL` and `LLM_CLI`: these are parameters. The backend (`_call_llm_cli` and its subprocess) is a function from prompt to output or failure, and a failure falls back to the simulator.
- `Decimal(str(f))`: kept as an uninterpreted constructor; no float or decimal arithmetic is modelled.
- The natural-language action, metric and conclusion regular expressions: uninterpreted matchers, tried in the source's order.
- `\d` in the header pattern matches only ASCII digits here, and `str.lower` lower-cases only ASCII letters.
- Notify.Truthy: a decimal known only by its text is assumed to be plain digits. Its truth value is wrong for `NaN`, `Infinity` (true in Python) and exponent forms such as `0E+5` (false in Python). Job ids are strings in the table, so no stored id reaches this case.
- `str(v)` of a non-string job id in the payload and in the notification key is an uninterpreted `show` parameter.
- The `next_steps` entry of the parsed reply is always empty and never read, so it is not kept.
- The result of the webhook POST is only logged, so it is not modelled.
- The printing of the listing (`print` formatting, the `...` after the answer, the exception trace) is not modelled. Neither is the ordering and display of the other jobs (`LS` lines 122-145); the model only returns them.
- Listing.SortDescending: Python's sort is stable. The model states the permutation and the descending order, not the relative order of equal job ids.
- Listing.ListInvestigations: the model reports `KeysIncomparable` whenever two or more investigations have job ids that are not all strings. Python's sort fails only when it compares two values of incomparable types. In particular, ids that are all numbers (`Decimal`, `int`, `bool`) sort without error, and the model does not order them. The table declares `job_id` as its string-typed key (`LS` line 33), so every id the table stores is a string and neither case arises from it.
- JobStore.GetActiveTasks: the source returns a list of the cached open records in the cache's insertion order. The model returns them as a map from job id, so that order, and the list shape, are not modelled.
- Engine.MasterPoll: states the invariant and frame facts the loop keeps, not the final state as a fold of the iterations.
- LogReader.IterationsAppend, LogReader.AnswerRoundTrip and LogReader.LatestFindingsAppend: each assumes that the written text does not itself hold the pattern being read (a header-shaped string, an `Answer: ` or a `Findings:` line). Without it the source's count or search can read the written text itself.
- The JavaScript Slack bot, the appointment service, table provisioning and the test drivers are not part of this model.
