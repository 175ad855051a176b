# DecodeTUI playback session

InferDecode's terminal UI replays a precomputed decoding trace: the model
produces the whole trace for a prompt once, and the UI then posts one
`TokenUpdate` message per trace step, either all of them on a background
worker (Start), one per press (Step), or until the user presses Stop. This
project models that playback session of `DecodeTUI` in
`inferdecode/decode_tui.py` and proves its cursor bounds, its exactly-once
in-order emission, its regenerate-or-resume rule and what Stop leaves behind.

Files:

- `trace_events.dfy` (module `TraceEvents`): a step record, the `TokenUpdate`
  message (record, cursor, trace length) and `Emissions(trace, lo, hi)`, the
  messages for positions `lo .. hi-1` in order, with its lemmas.
- `playback.dfy` (module `Playback`): the session's fields as a value
  (`Session`), one transition function per method of the source
  (`DecodeOneToken`, `RunFullGeneration`, `StartDecoding`, `Stop`,
  `OnButtonPressed`), the session invariant `Inv`, and the properties as lemmas.
- `decode_tui.dfy` (module `DecodeTui`): class `DecodeTUI` with the fields the
  source mutates (`trace`, `curPos`, `finished`, `stopRequested`,
  `tracePrompt`, `paused`, `worker`, and `posted`, the queue of posted
  messages). Every method keeps `Valid()` and ends in exactly the state the
  matching `Playback` function gives for the old state; `RunFullGeneration` is
  the source's `while` loop with its invariants. Two client methods replay
  concrete scenarios through the class.

Abstractions:

- The model call `generate_full_trace` is the parameter `generated`: the trace
  the model would return for the prompt and settings. It is only installed
  when the session regenerates.
- The prompt box's text is the parameter `prompt`.
- The worker loop runs to its exit inside `StartDecoding`. What
  `worker.is_cancelled` reads at the top of iteration `k` is `cancelled[k]`
  (false beyond the end of the sequence). A Stop pressed while the loop sleeps
  is modelled as that cancellation followed by the Stop handler. Among the
  paths the model covers (no Start or Step while a loop runs), the only
  canceller is a Stop press; the cancellation that `exclusive=True` applies
  when a Start arrives during a running loop falls under the concurrency
  listed in "## Left out". So a `true` in `cancelled` stands for the cancel
  issued by a following Stop. A run with a `true` that no Stop
  follows is an over-approximation: it leaves a live, resumable session that
  the source cannot reach.
- `post_message(TokenUpdate(...))` appends to the field `posted`.
- The worker handle is a value `Option<Worker(isCancelled)>`. `cancel()`
  replaces it with a cancelled one.

What Stop and Step do to a later command:

- A Start after stopping a full run regenerates from cursor 0. Stop sets
  `finished` whenever a non-cancelled worker handle exists, and every full run
  leaves one (`StopWithWorkerForcesRegeneration`, `StopAfterSecondEvent`).
- A Stop with no live worker handle leaves `finished`, the cursor and the trace
  alone, so the next Step resumes at the frozen cursor
  (`StopWithoutWorkerThenStepResumes`).
- A Step on a finished session regenerates and then posts the first record of
  the new trace. It posts nothing only when the new trace is empty
  (`StepOnEmptyTrace`).
- The session has no phase variable: its state is the flags `finished`,
  `stop_requested` and `paused`, the cursor, the trace and the worker handle.

## Model

| member | source | states |
|---|---|---|
| `DecodeTui.DecodeTUI.constructor` | inferdecode/decode_tui.py:42-50 | the new session has an empty trace, cursor 0, neither finished nor stopped, no cached prompt and no worker, and satisfies the session invariant |
| `DecodeTui.DecodeTUI.DecodeOneToken` | inferdecode/decode_tui.py:156-166 | keeps the invariant; when finished, past the trace or stopped it posts nothing, keeps cursor and trace, and sets finished; otherwise it posts the message for `trace[curPos]` with the old cursor and the trace length, advances the cursor by one, and is finished iff the cursor reached the end |
| `DecodeTui.DecodeTUI.RunFullGeneration` | inferdecode/decode_tui.py:142-154 | the loop keeps the invariant, never moves the cursor back, posts exactly the messages from the old cursor to the new one in order, changes no prompt, stop flag or worker, and without cancellation on an unfinished, unstopped session ends at the end of the trace, finished if the trace is non-empty |
| `DecodeTui.DecodeTUI.StartDecoding` | inferdecode/decode_tui.py:102-140 | keeps the invariant; the trace afterwards is `generated` exactly when the prompt changed, the trace was empty or the session was finished, and the old trace otherwise; the cached prompt is the given one and the stop flag is clear |
| `DecodeTui.DecodeTUI.OnButtonPressed` | inferdecode/decode_tui.py:85-100 | keeps the invariant and follows `Playback.OnButtonPressed`; Stop sets the stop flag, sets finished exactly when it was finished or a live worker was present, and leaves cursor, trace and posted messages alone |
| `DecodeTui.FiveRecordPlayback` | inferdecode/decode_tui.py:207-211 | Start on a new application with the five-record trace of the demonstration model posts the cursors 0, 1, 2, 3, 4 |
| `DecodeTui.StopAfterSecondEventPlayback` | inferdecode/decode_tui.py:92-100 | Start cancelled before the third iteration, then Stop twice: cursor 2, posted cursors 0 and 1, and the next Start regenerates |
| `TraceEvents.EmissionsAt` | inferdecode/decode_tui.py:148-151 | the emissions for `[lo, hi)` number `hi - lo`, and element `i` is the message for position `lo + i` carrying `trace[lo + i]`, `lo + i` and the trace length |
| `TraceEvents.EmissionIndices` | inferdecode/decode_tui.py:145-154 | the cursors carried by the emissions for `[lo, hi)` are exactly `lo, lo + 1, ..., hi - 1`: in order, no duplicate, no skip |
| `TraceEvents.EmissionsSplit` | inferdecode/decode_tui.py:145-154 | emitting `[lo, mid)` and then `[mid, hi)` is emitting `[lo, hi)`, so what a cancelled loop posted is a prefix of the full in-order emission |
| `Playback.InitialInv` | inferdecode/decode_tui.py:42-50 | the initial session satisfies the invariant: empty trace, cursor 0, not finished, not stopped, no prompt, no live worker |
| `Playback.AdvancePreservesInv` | inferdecode/decode_tui.py:161-166 | one emission keeps `curPos <= len(trace)`, finished at the end of a non-empty trace, and the posted messages ending with the records before the cursor in order |
| `Playback.DecodeOneTokenBlocked` | inferdecode/decode_tui.py:158-160 | finished, cursor past the trace or stop pending: nothing posted, cursor and trace unchanged, finished set, invariant kept |
| `Playback.DecodeOneTokenAdvances` | inferdecode/decode_tui.py:161-166 | otherwise exactly one message with `trace[curPos]`, the old cursor and the trace length; cursor plus one; finished iff the new cursor reached the end |
| `Playback.RunFullGenerationEmitsInOrder` | inferdecode/decode_tui.py:145-154 | however the loop exits, it posts the records from the old cursor to the new one in order, keeps the invariant, and is finished iff it emitted and reached the end |
| `Playback.RunFullGenerationCompletes` | inferdecode/decode_tui.py:145-154 | with no cancellation, from an unfinished, unstopped session, the loop posts every record from the cursor to the end and ends with the cursor at the end, finished if the trace is non-empty |
| `Playback.RunFullGenerationStopsAtCancel` | inferdecode/decode_tui.py:146-147 | cancellation first seen at iteration `j` stops the loop after `j - k` emissions (fewer if the trace runs out); seen at once, nothing is posted and the cursor stays |
| `Playback.StartDecodingRegeneratesOrResumes` | inferdecode/decode_tui.py:102-140 | regeneration happens iff the prompt changed, the trace is empty or the session is finished; then the run starts on the new trace at 0, otherwise on the old trace at the old cursor; the stop flag is always cleared, so a full run always starts the loop on a live worker and plays to the end without cancellation, and a step advances by exactly one while records remain |
| `Playback.ResumedStepAdvancesByOne` | inferdecode/decode_tui.py:131-140 | a Step on a resumed trace advances the cursor by one and posts the record that was at the cursor, without regenerating |
| `Playback.StepOnEmptyTrace` | inferdecode/decode_tui.py:104-160 | a Step that regenerates into an empty trace posts nothing and leaves the session finished at cursor 0 |
| `Playback.StepPressesEmitInOrder` | inferdecode/decode_tui.py:89-166 | k Step presses after a regeneration, `1 <= k <= len(trace)`, leave the cursor at k, have posted exactly the first k records in order, and are finished iff k is the trace length |
| `Playback.StopEffect` | inferdecode/decode_tui.py:92-100 | Stop always sets the stop flag, sets finished iff it was finished or a live worker was present, cancels that worker, and keeps cursor, trace, prompt, posted messages and the invariant |
| `Playback.StopIdempotent` | inferdecode/decode_tui.py:92-100 | a second Stop changes nothing further |
| `Playback.StopWithWorkerForcesRegeneration` | inferdecode/decode_tui.py:92-104 | after a Stop that cancelled a live worker the next Start or Step regenerates |
| `Playback.StopWithoutWorkerThenStepResumes` | inferdecode/decode_tui.py:92-134 | with no live worker, Stop then Step resumes: the cursor moves on by one from where it was and the record there is posted |
| `Playback.OnButtonPressedPreservesInv` | inferdecode/decode_tui.py:85-100 | every button keeps the session invariant |
| `Playback.FiveRecordFullRun` | inferdecode/decode_tui.py:207-209 | Start on a new session with a five-record trace posts cursors 0, 1, 2, 3, 4 and ends finished at cursor 5 |
| `Playback.StopAfterSecondEvent` | inferdecode/decode_tui.py:92-100 | cancellation before the third iteration then Stop: cursor 2, cursors 0 and 1 posted, stop flag and finished set, next Start regenerates |

## Left out

- Wall-clock timing: `total_time`, `avg_time_per_token` and the two timing fields of `TokenUpdate` are floating point over `time.time()` readings.
- The settings fields (`decoding_strategy`, `top_p`, `top_k`, `temperature`, `max_steps`, `delay`) and the `prompt` copy: their values reach the model call, the loop's sleep (`self.delay`, inferdecode/decode_tui.py line 154) and the metrics panel (`self.decoding_strategy`, line 201); all three are outside the model. Parsing the input boxes with defaults is string-to-number conversion outside the session.
- `generate_full_trace` and `DummyModel`: the generator is an external call; its result is a parameter. Generation failures are not modelled. In the source, lines 106-118 set `trace_prompt`, `cur_pos = 0`, `finished = False` and `stop_requested = False` before the model call is awaited at line 121. So a call that raises keeps the old trace under the new prompt, and the next Start with that prompt replays the old trace from cursor 0.
- `compose`, the CSS, the widgets, `query_one` and `on_token_update`: layout and rendering.
- Concurrency: `run_worker` with `exclusive=True`, `asyncio.sleep`, `worker.wait()` and `WorkerCancelled`. The loop runs to its exit inside the call that starts it. So the model does not cover a Start or Step handled while a loop is still running, nor another handler that runs while the model call is awaited.
- Worker identity: the handle is a value. The model, like the source's condition `self.worker and not self.worker.is_cancelled`, treats any handle that was not cancelled as live, including one whose loop already ended. A Stop after a completed full run therefore also sets `finished`.
- The `paused` field is kept and cleared as in the source. Nothing in the source reads it.
