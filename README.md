# remip-example: chat history, tool tracking, event display and session bookkeeping in Dafny

This project models the sequence and string logic at the centre of the
remip-example chat application. This is the logic that sits beneath its
Streamlit pages and its agent-framework glue:

- **Chat-history reconstruction** (`src/remip_example/chat_history.py`):
  - `event_text`;
  - `events_to_messages`, which folds a stream of agent events into
    `(role, text)` messages. It merges streamed partial chunks per
    invocation id in an insertion-ordered dictionary and flushes leftovers at
    the end;
  - `build_committed_events_from_partials`, which groups partial events by
    invocation id or by runs of id-less events, and commits one merged,
    stripped event per group.
- **Tool-usage tracking** (`src/remip_example/agent.py`): the
  `clear_tool_calling_track` and `track_tool_calling` callbacks. They cover
  argument truncation to 128 characters and the ordered success rule.
- **Event display** (`src/remip_example/app.py`): `process_event`, which
  classifies parts with precedence thought > tool call > tool response > text,
  and `group_events`, which merges consecutive events by one author.
- **The older display** (`src/remip_example/app_old.py`): its `process_event`,
  which hides `ask`/`exit_loop` tool traffic, and the loop of
  `drain_outbox_and_render` that moves queued worker messages into the chat
  log.
- **Session registry bookkeeping** (`src/remip_example/services.py`): what
  `AgentService.create_talk_session`, `get_talk_session`,
  `list_talk_sessions` and `stop` do to the per-user session dictionary, the
  output-queue table and the command queue.
- **Newline normalisation** (`src/remip_sample/utils.py`): `finalize_response`.

## How the model is built

Modules follow the source files:

| module | models |
|---|---|
| `ChatHistory` + `ChatHistoryLemmas` | `events_to_messages` and `event_text` |
| `CommittedEvents` + `CommittedEventsLemmas` | `build_committed_events_from_partials` |
| `Agent` | agent.py |
| `App` + `AppLemmas` | app.py |
| `AppOld` + `AppOldLemmas` | app_old.py |
| `Services` | services.py |
| `Utils` | utils.py |

Four helper modules support them:

- `Wrappers`: `Option` and `Result`.
- `PyStrings`: Python's `str.isspace`, `strip`, `replace` and `"".join`.
- `OrderedMaps`: an insertion-ordered `dict` as a sequence of pairs with distinct keys.
- `AdkEvents`: the `Event`, `Content`, `Part`, `FunctionCall` and `FunctionResponse` records the code reads.

Every loop of the source is a Dafny `method` with its own loop:

- `ChatHistory.EventsToMessagesLoop`
- `ChatHistory.FlushPartials`
- `CommittedEvents.BuildCommittedEventsFromPartials`
- `Agent.TruncateArgs`
- `App.ProcessEventLoop`
- `App.GroupEventsLoop`
- `AppOld.ProcessEventLoop`
- `AppOld.DrainOutbox`

Each such method is proved equal to a specification function, and the
properties are proved as lemmas about those functions.

State the source updates in place is held in classes:

- `Agent.ToolState` holds the callback state's `"tools_used"` entry.
- `AppOld.Outbox` and `AppOld.ChatState` hold the worker queue and the session-state entries the drain updates.
- `Services.AgentService` holds the registry.

Python's exceptions are `Failure` results:

- `KeyError` in `events_to_messages` and `get_talk_session`.
- `TypeError` from `thoughts_markdown += None` in app.py.

Where code and tests disagree, the model follows the code.
`tests/test_app.py:93-105` expects app.py's `process_event` to skip a final
response. `src/remip_example/app.py:144-214` has no such branch: a final
text part is returned as the response like any other, and the model does
the same.

## Model

| member | source | states |
|---|---|---|
| ChatHistoryLemmas.EventTextSpec | src/remip_example/chat_history.py:10-17 | `event_text` is "" without content; otherwise it is the in-order concatenation of the parts' non-empty texts. It is "" exactly when no part has text. |
| ChatHistoryLemmas.JoinPartTexts | src/remip_example/chat_history.py:15-17 | Joining the filtered texts equals reading each part's text in turn. |
| ChatHistory.EventsToMessagesLoop | src/remip_example/chat_history.py:20-79 | The loop returns what the fold `EventsToMessages` returns, including the `KeyError` outcome. |
| ChatHistory.SelectKey | src/remip_example/chat_history.py:47-62 | Choosing the `partials` key updates the dictionary, the counter and the active none key exactly as the key-selection function says. |
| ChatHistory.FlushPartials | src/remip_example/chat_history.py:73-77 | The flush loop emits the stripped non-empty leftovers in insertion order. |
| ChatHistory.StepValid | src/remip_example/chat_history.py:35-71 | One event keeps the keys of `partials` distinct. |
| ChatHistory.RunValid | src/remip_example/chat_history.py:35-71 | A whole run keeps the keys of `partials` distinct. |
| ChatHistoryLemmas.RunSkipsEmpty | src/remip_example/chat_history.py:35-38 | Dropping the events with empty text does not change the outcome. |
| ChatHistoryLemmas.StepFacts | src/remip_example/chat_history.py:35-71 | One event appends at most one well-formed message and keeps the earlier history. An empty-text event changes nothing. A user event appends `("user", text)` unstripped. A non-user event never appends a user message. |
| ChatHistoryLemmas.AccumulateFacts | src/remip_example/chat_history.py:64-71 | A chunk appends nothing or one stripped, non-empty assistant message. |
| ChatHistoryLemmas.RunAppend | src/remip_example/chat_history.py:35-71 | Running over `a + b` is running over `a` and then over `b`. A failure in `a` stops the run. |
| ChatHistoryLemmas.RunKeepsHistory | src/remip_example/chat_history.py:29-71 | Over a run the history only grows; earlier messages are never changed. |
| ChatHistoryLemmas.RunUserTexts | src/remip_example/chat_history.py:40-45 | The user messages of the history are the non-empty user events' texts, in order. |
| ChatHistoryLemmas.FlushFacts | src/remip_example/chat_history.py:73-77 | Flushed leftovers are well-formed assistant messages, at most one per non-empty entry. |
| ChatHistoryLemmas.MessagesFacts | src/remip_example/chat_history.py:55-77 | Every emitted message has non-empty text, and every non-user message is a stripped assistant message. The user messages are the user events' texts in order. There is at most one message per event with non-empty text. |
| ChatHistoryLemmas.UserEmittedInPlace | src/remip_example/chat_history.py:40-45 | A user event's message comes immediately after the messages of the events before it. |
| ChatHistoryLemmas.StreamingRun | src/remip_example/chat_history.py:58-66 | Partial chunks with invocation ids never fail and emit nothing yet. They leave one entry per invocation, in first-seen order, holding that invocation's concatenated texts. |
| ChatHistoryLemmas.FlushInKeyOrder | src/remip_example/chat_history.py:73-77 | The flush emits one message per key, in the dictionary's key order. |
| ChatHistoryLemmas.StreamingMessages | src/remip_example/chat_history.py:58-77 | Partials with no final chunk are flushed after the loop, one stripped message per invocation, in first-seen order. |
| ChatHistoryLemmas.MergeWithFinal | src/remip_example/chat_history.py:64-71 | One invocation's partial chunks followed by its final chunk give a single stripped assistant message of all their texts, emitted only if non-empty. Nothing is left to flush. |
| ChatHistoryLemmas.KeysRemove | src/remip_example/chat_history.py:67 | `partials.pop(key, None)` leaves the other keys in their order. |
| ChatHistoryLemmas.FinalAmidStep | src/remip_example/chat_history.py:59-71 | A final chunk with an invocation id pops that invocation's entry, whatever else is pending, and emits the stripped accumulated text plus its own when non-empty. |
| ChatHistoryLemmas.MergeWithFinalAmid | src/remip_example/chat_history.py:58-71 | Partial chunks of any invocations, then the final chunk of one of them: it emits `strip(` that invocation's chunk texts `+` its own text `)` when non-empty. The other invocations' entries stay, in first-seen order, each holding its concatenated texts. |
| ChatHistoryLemmas.MergeAmidMessages | src/remip_example/chat_history.py:58-77 | The same through `events_to_messages`: the merged message, then the other invocations' leftovers flushed in first-seen order. |
| ChatHistoryLemmas.Interleaved | src/remip_example/chat_history.py:58-77 | A chunk of `x`, a chunk of `y`, then the final chunk of `x`: `x`'s merged text at once, then `y`'s text flushed. |
| ChatHistoryLemmas.InterleavedExample | src/remip_example/chat_history.py:58-77 | The same with chunks `a` of `x`, `b` of `y` and final `c` of `x`: messages `strip(a + c)` and then `strip(b)`. |
| ChatHistoryLemmas.IdlessChunks | src/remip_example/chat_history.py:52-66 | With no live none key, id-less chunks fill one fresh `__none__:<n>` entry, appended last, with their concatenated texts, and that key becomes active. The corrected selection does this even after a stale key; the code as written does it when no key is remembered. |
| ChatHistoryLemmas.IdlessMerge | src/remip_example/chat_history.py:52-71 | Id-less chunks and an id-less final chunk emit one stripped message of all their texts, when non-empty, and leave the other entries as they were. |
| ChatHistoryLemmas.IdlessMessages | src/remip_example/chat_history.py:52-77 | Through `events_to_messages`: id-less chunks and an id-less final chunk give one merged message. |
| ChatHistoryLemmas.IdlessFlushed | src/remip_example/chat_history.py:52-77 | Id-less chunks with no final chunk give their stripped concatenated text, flushed after the loop. |
| ChatHistoryLemmas.CorrectedNeverFails | src/remip_example/chat_history.py:52-57 | With the corrected none-key selection the loop never raises `KeyError`. |
| ChatHistoryLemmas.StaleNoneKeyFails | src/remip_example/chat_history.py:52-65 | A final id-less reply followed by a partial id-less chunk raises `KeyError` as written. The corrected selection returns both texts. |
| ChatHistoryLemmas.StaleAsWritten | src/remip_example/chat_history.py:52-65 | The concrete input "a" (final, no id) then "b" (partial, no id) fails with `KeyError('__none__:0')`. |
| ChatHistoryLemmas.StaleCorrected | src/remip_example/chat_history.py:52-57 | On the same input the corrected selection yields the messages "a" and "b". |
| ChatHistoryLemmas.MergesPartialsAndIncludesHistory | tests/test_chat_history.py:31-48 | The user message stays; the three chunks of `inv-1` merge into one message; `inv-2` gives a reply of its own. |
| ChatHistoryLemmas.MergesPartialsAndIncludesHistoryFor | src/remip_example/chat_history.py:40-77 | The same shape for any texts and ids. |
| ChatHistoryLemmas.HandlesPartialWithoutFinal | tests/test_chat_history.py:51-61 | Two chunks of `inv-1` with no final chunk are flushed as "Streaming output". |
| ChatHistoryLemmas.HandlesPartialWithoutFinalFor | src/remip_example/chat_history.py:64-77 | The same shape for any non-empty chunk texts. |
| CommittedEvents.GroupId | src/remip_example/chat_history.py:92-95 | An event has a group id exactly when its invocation id is truthy. |
| CommittedEvents.AppendAt | src/remip_example/chat_history.py:117 | Appending to one group changes only that group's events, by exactly one event at the end. |
| CommittedEvents.BuildCommittedEventsFromPartials | src/remip_example/chat_history.py:82-144 | The two loops return what the specification function `BuildCommitted` returns. |
| CommittedEventsLemmas.AddEventIndexed | src/remip_example/chat_history.py:91-117 | One step keeps the invariant: `indexed` maps each id to the one group carrying it; the current id-less group is the last group; it is open exactly after an id-less event. |
| CommittedEventsLemmas.GroupsFollowIds | src/remip_example/chat_history.py:93-105 | The id-bearing groups are one per invocation id, in first-appearance order, and `indexed` holds exactly those ids. |
| CommittedEventsLemmas.IdsInOrderDistinct | src/remip_example/chat_history.py:93-105 | The group ids are distinct, and they are exactly the truthy ids of the input. |
| CommittedEventsLemmas.GroupHoldsItsEvents | src/remip_example/chat_history.py:93-117 | The group of each invocation id holds exactly that id's events, in order. |
| CommittedEventsLemmas.IdLessGroupsAreRuns | src/remip_example/chat_history.py:105-117 | Consecutive id-less events share one group, and an id-bearing event ends the run. The id-less groups are exactly the maximal runs. |
| CommittedEventsLemmas.GroupAuthors | src/remip_example/chat_history.py:98-113 | Every group is non-empty and carries its first event's author, or "assistant". |
| CommittedEventsLemmas.MergedTextIsEventsText | src/remip_example/chat_history.py:120-127 | The merged text is the stripped concatenation of the group's event texts. |
| CommittedEventsLemmas.CommitFacts | src/remip_example/chat_history.py:126-142 | A group with empty merged text is dropped. Otherwise its event is a final "model" event whose non-empty, stripped text is the merged text and whose author is the group's author. It carries the group's id exactly when that id is truthy. |
| CommittedEventsLemmas.CommitAllFrom | src/remip_example/chat_history.py:119-142 | Every committed event comes from some group. |
| CommittedEventsLemmas.CommitAllHas | src/remip_example/chat_history.py:119-142 | Every group with non-empty merged text yields a committed event. |
| CommittedEventsLemmas.CommittedIdsDistinct | src/remip_example/chat_history.py:119-142 | No two committed events share an id when no two groups do. |
| CommittedEventsLemmas.BuildCommittedFacts | src/remip_example/chat_history.py:82-144 | Every committed event is a final "model" event with an author and stripped, non-empty text. Every id a committed event carries is an input id, and no two share one. There are at most as many events as ids plus id-less runs. |
| CommittedEventsLemmas.CommittedForId | src/remip_example/chat_history.py:91-142 | For an input id: if its events' stripped text is empty, no committed event carries it. Otherwise exactly one does, with that text and the first event's author or "assistant". |
| CommittedEventsLemmas.MergesByInvocation | tests/test_chat_history.py:64-81 | "First " and "piece" under `foo` and "Another" under `bar` commit two events: "First piece" for `foo`, then "Another" for `bar`. |
| CommittedEventsLemmas.MergesByInvocationFor | src/remip_example/chat_history.py:91-142 | The same shape for any texts and distinct ids. |
| Agent.ToolState.ClearToolCallingTrack | src/remip_example/agent.py:23-24 | "tools_used" becomes the empty list. |
| Agent.ToolState.TrackToolCalling | src/remip_example/agent.py:27-61 | "tools_used" is created when absent. Exactly one record is appended, with the agent name, the tool name, the truncated arguments and the success flag; earlier records are unchanged. |
| Agent.TruncateArgs | src/remip_example/agent.py:36-39 | The truncated arguments have exactly the input's keys, in order, and each value is the truncation of the input's value. |
| Agent.ComputeSuccess | src/remip_example/agent.py:41-52 | The success rule, case by case. No response succeeds. A mapping with "isError" gives its negation. Otherwise a mapping fails exactly when "error" or "error_message" is truthy. A non-mapping fails exactly when its `isError` is present and truthy. |
| Agent.TruncateFacts | src/remip_example/agent.py:39 | A value over 128 characters becomes its first 128 characters plus "...", 131 in all. A shorter value is kept. |
| Agent.TruncateKeepsIff | src/remip_example/agent.py:39 | Truncation leaves a value unchanged exactly when it is at most 128 characters long, or already 131 characters ending in "...". |
| Agent.TruncateIdempotent | src/remip_example/agent.py:39 | Truncating twice is truncating once. |
| Agent.TruncatesLongArgs | tests/test_agent.py:85-102 | A 200-character value gives 131 characters ending in "...". |
| Agent.IsErrorTakesPrecedence | src/remip_example/agent.py:45-48 | A present "isError" decides the flag, whatever "error" and "error_message" hold. |
| App.ProcessEventLoop | src/remip_example/app.py:144-214 | The loop returns what the specification function `ProcessEvent` returns, including the `TypeError` outcome. |
| App.AccumulateFails | src/remip_example/app.py:158-160 | Once a part raises, the whole loop raises. |
| AppLemmas.ClassifyAgrees | src/remip_example/app.py:158-212 | A part that does not raise contributes to exactly one output: its thought text to the thoughts, and otherwise its tool-call block, tool-response block or text to the response, in that precedence. |
| AppLemmas.AccumulateIsPerPart | src/remip_example/app.py:158-212 | The loop raises exactly when some thought part has no text. Otherwise the response is every part's response contribution in order, and the thoughts every thought part's text in order. |
| AppLemmas.ProcessEventFacts | src/remip_example/app.py:151-214 | Without content the result is `(author, None, None)`. With content, of the raises the model covers, it raises `TypeError` exactly when a thought part lacks text; otherwise the author is passed through and each output is the joined contributions, or `None` when empty. |
| AppLemmas.ThoughtStaysOutOfResponse | src/remip_example/app.py:159-160 | A thought part's text goes to the thoughts only, never to the response. |
| AppLemmas.ResponseLanguage | src/remip_example/app.py:171-205 | A tool response is shown as Python, with `str(response)`, exactly when neither it nor a nested result renders as JSON. Otherwise its JSON is shown. |
| AppLemmas.TextEventExample | tests/test_app.py:26-36 | A "Hello" text part is the response; there are no thoughts. |
| AppLemmas.ThoughtEventExample | tests/test_app.py:84-90 | A thought part fills the thoughts and leaves the response `None`. |
| AppLemmas.ToolCallEventExample | tests/test_app.py:39-54 | A tool call becomes one collapsible block starting "<details><summary>Tool Call: ". |
| App.GroupEventsLoop | src/remip_example/app.py:217-248 | The loop returns what the specification function `GroupEvents` returns. |
| App.ProcessAllFails | src/remip_example/app.py:223-232 | Once an event raises, `group_events` raises. |
| AppLemmas.ProcessAllFacts | src/remip_example/app.py:223-232 | Processing succeeds exactly when every event's `process_event` does, giving one result per event in order. |
| AppLemmas.CollapseFacts | src/remip_example/app.py:236-247 | The collapse of an author sequence keeps its first and last element, never grows, has no two equal neighbours and adds no element. |
| AppLemmas.GroupFromAuthors | src/remip_example/app.py:223-247 | The groups' authors are the kept authors with runs of repeats collapsed. The kept authors are the first event's, or "unknown", then every later truthy one. |
| AppLemmas.GroupFromResponses | src/remip_example/app.py:228-244 | Joined, the groups' responses are the kept events' responses joined in order. |
| AppLemmas.MergeRunsOneAuthor | src/remip_example/app.py:236-240 | A run of triples of one author merges into one group: that author, all responses concatenated, and the first thoughts followed by each later event's thoughts with "\n\n" appended (empty thoughts add nothing). |
| AppLemmas.MergeRunsAppend | src/remip_example/app.py:241-245 | Where the author changes, the merge splits: the groups over `a + b` are the groups over `a` followed by those over `b`. |
| AppLemmas.KeptParts | src/remip_example/app.py:223-234 | The kept triples carry exactly the kept authors and the kept responses. |
| AppLemmas.GroupFromRuns | src/remip_example/app.py:222-247 | The finished groups and the open group are the kept triples (the first event's, author defaulting to "unknown", then every later one with a truthy author) with each run of one author merged. |
| AppLemmas.ThoughtsSeparatorExample | src/remip_example/app.py:236-240 | Two events of one author with thoughts `t1` and `t2` give one group with thoughts `t1 + t2 + "\n\n"`: the first event's thoughts get no separator. |
| AppLemmas.KeptAuthorsFacts | src/remip_example/app.py:223-234 | There is at most one kept author per event, none is empty, and the first is the first event's author or "unknown". |
| AppLemmas.GroupProcessedFacts | src/remip_example/app.py:222-248 | There are between 1 and as many groups as events. Adjacent groups have different authors and every author is non-empty. The first author is the first event's or "unknown". No response text is lost or reordered. Group by group, the result is the kept triples with each run of one author merged (`MergeRuns`). |
| AppLemmas.GroupEventsFacts | src/remip_example/app.py:217-248 | `group_events` raises exactly when `process_event` raises on some event. Otherwise it gives [] exactly for no events and never more groups than events. Adjacent authors differ, and the first author is the first event's or "unknown". The groups are the kept triples of the processed events with each run of one author merged, and their authors are the kept authors collapsed. |
| AppOld.RenderPart | src/remip_example/app_old.py:189-202 | One part's markdown is its text, then the visible tool-call block, then the visible tool-response block. |
| AppOld.ProcessEventLoop | src/remip_example/app_old.py:180-208 | The loop returns what the specification function `ProcessEvent` returns. |
| AppOldLemmas.HiddenToolsShowOnlyText | src/remip_example/app_old.py:193-198 | `ask` and `exit_loop` calls and responses add no markup: only the text is left. |
| AppOldLemmas.VisibleToolShows | src/remip_example/app_old.py:193-197 | Any other tool call adds markup after the text. |
| AppOldLemmas.SilentPartsShowNothing | src/remip_example/app_old.py:188-206 | Parts with no text and only hidden tool traffic contribute to neither output. |
| AppOldLemmas.ThoughtPartsStayOut | src/remip_example/app_old.py:203-206 | Thought parts, tool markup included, never reach the response. |
| AppOldLemmas.ResponseAppend | src/remip_example/app_old.py:188-206 | The response markdown over `a + b` is that over `a` followed by that over `b`. |
| AppOldLemmas.ThoughtsAppend | src/remip_example/app_old.py:188-206 | The thoughts markdown over `a + b` is that over `a` followed by that over `b`. |
| AppOldLemmas.ProcessEventFacts | src/remip_example/app_old.py:185-208 | Without content the result is `(None, None, None)`. Otherwise the author is passed through. Silent events give `(author, None, None)`. Thought-only events give no response. |
| AppOldLemmas.NoContentDropsAuthor | src/remip_example/app_old.py:185-186 | Without content the older `process_event` drops the author, whereas app.py's keeps it. |
| AppOld.DrainOutbox | src/remip_example/app_old.py:260-280 | The queue ends empty, drained in FIFO order. Every non-done message is appended to `chat_log` with the author defaulting to "assistant" and the markdown to "". A done message sets `stream_done`. The result is true exactly when something was appended. |
| AppOldLemmas.LoggedAppend | src/remip_example/app_old.py:261-273 | Draining in two batches logs what one drain of everything logs. |
| AppOldLemmas.LoggedFacts | src/remip_example/app_old.py:266-273 | At most one entry is logged per message. Nothing is logged exactly when every message is a done signal. Every entry has a non-empty author. |
| AppOldLemmas.DoneOnlyExample | src/remip_example/app_old.py:266-267 | A done message alone sets `stream_done` and logs nothing. |
| AppOldLemmas.DefaultsExample | src/remip_example/app_old.py:269-272 | A message without author or markdown is logged as an empty "assistant" entry. |
| Services.AgentService.constructor | src/remip_example/services.py:31-42 | A new service has no sessions, queues or commands, and is running. |
| Services.AgentService.CreateTalkSession | src/remip_example/services.py:44-58 | Returns the given fresh id and files the session under the user, with that id and `agent_mode`. Adds an output queue of capacity 1 and enqueues exactly one `create_adk_session` command. The registry stays well formed and every session stays queued. |
| Services.AgentService.GetTalkSession | src/remip_example/services.py:60-61 | Raises `KeyError` on the first missing key; otherwise returns the stored session, whose id and user are the ones asked for. |
| Services.AgentService.ListTalkSessions | src/remip_example/services.py:63-64 | An unknown user has no sessions. An id is listed exactly when it can be looked up. |
| Services.AgentService.Stop | src/remip_example/services.py:105-107 | Clears `_is_running` and enqueues one TERMINATE command; the sessions and queues are unchanged. |
| Services.LookupFinds | src/remip_example/services.py:60-61 | In a well-formed registry a lookup returns the session filed under the ids asked for. |
| Services.ListedIffFound | src/remip_example/services.py:63-64 | A session id is listed for a user exactly when it can be looked up. |
| Services.RegisterWellFormed | src/remip_example/services.py:46-51 | Filing a session keeps the registry well formed. |
| Services.RegisterKeepsQueued | src/remip_example/services.py:46-57 | Filing a session, with its queue and command, keeps every session queued. |
| Services.LookupAfterRegister | src/remip_example/services.py:46-61 | Looking a session up right after creating it returns exactly that session. |
| Services.RegisterKeepsOthers | src/remip_example/services.py:46-51 | Creating a session leaves every other session, of this user or another, as it was. |
| Services.RegisterLists | src/remip_example/services.py:46-64 | The user's list gains the new id at its end, or is unchanged if the id was already there. Other users' lists are unchanged. |
| Utils.ReplaceCrIsCrToLf | src/remip_sample/utils.py:43 | The second `replace` turns each "\r" into "\n" on its own. |
| Utils.TwoPassesAreOneScan | src/remip_sample/utils.py:43 | After the first pass, the second one finishes a single left-to-right scan. |
| Utils.FinalizeIsNormalized | src/remip_sample/utils.py:41-43 | `finalize_response` turns each "\r\n" into one "\n" and each lone "\r" into "\n". |
| Utils.NormalizedFacts | src/remip_sample/utils.py:43 | The scan leaves no "\r" and keeps a text without "\r" unchanged. It loses one character per "\r\n". |
| Utils.FinalizeFacts | src/remip_sample/utils.py:41-43 | The result has no "\r", and a text without "\r" is unchanged. The length drops by exactly the number of "\r\n" pairs. Applying it twice is applying it once. |

## Left out

Threads, queues and the worker:

- `AsyncIteratorBridge`, `AsyncSession`, `AgentService._runner`, `_producer_loop`, `_run_agent_task`, `stream_new_responses` and `add_message`: these are concurrency, cancellation and blocking queues. The command queue is a sequence of commands. An output queue is its capacity only; its contents are not modelled.
- Streamlit rendering, the `with chat_container` loop of `drain_outbox_and_render` (app_old.py:275-278), `schedule_autorerun_if_streaming` and the other UI code: display only.
- `build_agent` and the ADK, Gemini and MCP configuration: opaque third-party objects.

Foreign renderings are carried as data:

- `json.dumps` of tool-call arguments and responses, `json.loads` of a nested `CallToolResult`, and `str()` / `repr` of SDK objects are foreign code. Each appears in the model as a precomputed string. The JSON rendering of a response is `None` where `json.dumps` raises `TypeError`.
- `str(v)` of a tool argument is likewise a precomputed string.

Model-level simplifications:

- `getattr(event, "invocationId", None) or getattr(event, "invocation_id", None)` is one optional field: the value that expression yields.
- A `Content` whose `parts` is `None` is read as an empty list. chat_history.py does this (`or []`). app.py and app_old.py would raise `TypeError` iterating over `None`; that outcome is not modelled.
- `str(uuid.uuid4())` is a parameter of `CreateTalkSession`. Random ids are not modelled, so freshness is a caller's choice, and `RegisterLists` states what happens when the id repeats.
- The outer `_sessions` dictionary's key order is not modelled (it is a `map`). The per-user dictionary's order is modelled, since `list_talk_sessions` returns it.
- Only the "tools_used" entry of the callback state is modelled; other state keys are untouched by these callbacks.
- `EventActions()` of a committed event is not modelled.
- The "role" of a `partials` entry is always "assistant" in the source, so only its text is kept.
- `events_to_messages` synthesises keys `__none__:<n>`. The model's `NoneKey(n)` keeps these apart from invocation ids, whereas in Python an event whose invocation id is literally `__none__:0` would share that key.

Weaker contracts:

- AppLemmas.ProcessEventFacts: the only raise modelled is the `TypeError` of `thoughts_markdown += None`. The model assumes these renderings succeed, because tool arguments and responses normally come from decoded JSON: `json.dumps` of tool-call arguments (app.py:163-165, outside any `try`); a `ValueError` from `json.dumps` of a response (app.py:174); and the `TypeError` that `json.loads` raises on a non-string nested text (app.py:192), which the `except` at app.py:196 does not catch.

## Findings

| source | as written | input that shows it | evidently intended | confidence | as-written member | corrected member |
|---|---|---|---|---|---|---|
| src/remip_example/chat_history.py:52-65 | When the active none key has already been popped by a final reply, a fresh `__none__:<n>` entry is inserted, but `key = last_none_key or ...` still picks the stale key. A following partial chunk then raises `KeyError` at `partials[key]["text"] += text`. ADK's `Event.invocation_id` defaults to `''`, and such events take the invocation-id branch with key `''`. So the path is reached only by events whose id is `None`, as in the test suite's fake events. | a final id-less model event "a", then a partial id-less model event "b" | use the fresh entry, giving messages "a" and "b" | not executed | ChatHistoryLemmas.StaleAsWritten | ChatHistoryLemmas.StaleCorrected |

`ChatHistory.EventsToMessages` models the code as written, and
`ChatHistoryLemmas.StaleNoneKeyFails` exhibits the failure.
`ChatHistory.EventsToMessagesCorrected` selects the fresh entry instead, and
`ChatHistoryLemmas.CorrectedNeverFails` proves that it never raises. The
general lemmas (`MessagesFacts`, `StreamingMessages`, `MergeWithFinal`,
`RunUserTexts` and the rest) are proved for both selections.
