/** The playback session of DecodeTUI (inferdecode/decode_tui.py) as values:
    the state its fields hold, one transition function per method of the
    source, and the properties of those transitions. The class in module
    DecodeTui is proved to follow these functions. */
module Playback {
  import opened TraceEvents

  datatype Option<T> = None | Some(value: T)

  /** The handle of the background loop, reduced to its cancellation flag. */
  datatype Worker = Worker(isCancelled: bool)

  datatype ButtonId = StartButton | StepButton | StopButton

  /** The playback fields of DecodeTUI; `posted` is the queue of TokenUpdate messages. */
  datatype Session = Session(
    trace: seq<StepRecord>,
    curPos: nat,
    finished: bool,
    stopRequested: bool,
    tracePrompt: Option<string>,
    paused: bool,
    worker: Option<Worker>,
    posted: seq<TokenUpdate>)

  /** The state DecodeTUI.__init__ sets up. */
  function Initial(): Session
  {
    Session([], 0, false, false, None, false, None, [])
  }

  /** The session invariant: the cursor stays within the trace, a non-empty trace
      whose cursor is at its end is finished, and the messages posted so far end
      with the records before the cursor, each once and in trace order. */
  predicate Inv(s: Session)
  {
    s.curPos <= |s.trace|
    && (s.curPos == |s.trace| && s.trace != [] ==> s.finished)
    && EndsWith(s.posted, Emissions(s.trace, 0, s.curPos))
  }

  /** The stop branch's test `self.worker and not self.worker.is_cancelled`. */
  predicate LiveWorker(s: Session)
  {
    s.worker.Some? && !s.worker.value.isCancelled
  }

  /** One emission: post the record at the cursor, move the cursor on, and mark
      the session finished when the trace is used up. */
  function Advance(s: Session): Session
    requires s.curPos < |s.trace|
  {
    var next := s.curPos + 1;
    s.(posted := s.posted + [UpdateAt(s.trace, s.curPos)],
       curPos := next,
       finished := if next >= |s.trace| then true else s.finished)
  }

  /** decode_one_token. */
  function DecodeOneToken(s: Session): Session
  {
    if s.finished || s.curPos >= |s.trace| || s.stopRequested then s.(finished := true)
    else Advance(s)
  }

  /** Whether the loop observes `worker.is_cancelled` at the top of iteration k. */
  predicate CancelledAt(cancelled: seq<bool>, k: nat)
  {
    k < |cancelled| && cancelled[k]
  }

  predicate NoCancellationFrom(cancelled: seq<bool>, k: nat)
  {
    forall j :: k <= j < |cancelled| ==> !cancelled[j]
  }

  /** run_full_generation from iteration k on: loop while not finished, not stopped
      and the cursor is inside the trace, leaving at once on cancellation. */
  function RunFullGeneration(s: Session, cancelled: seq<bool>, k: nat): Session
    decreases |s.trace| - s.curPos
  {
    if s.finished || s.stopRequested || s.curPos >= |s.trace| then s
    else if CancelledAt(cancelled, k) then s
    else RunFullGeneration(Advance(s), cancelled, k + 1)
  }

  /** The test at the head of start_decoding: a new prompt, an empty trace or a
      finished session regenerates; nothing else does. */
  predicate Regenerates(s: Session, prompt: string)
  {
    s.tracePrompt != Some(prompt) || s.trace == [] || s.finished
  }

  /** The first half of start_decoding: install `generated` (what the model returns
      for this prompt and these settings) with a fresh cursor, or resume. */
  function Prepare(s: Session, prompt: string, generated: seq<StepRecord>): Session
  {
    if Regenerates(s, prompt) then
      s.(tracePrompt := Some(prompt), curPos := 0, finished := false, paused := false,
         stopRequested := false, trace := generated)
    else
      s.(stopRequested := false, paused := false)
  }

  /** start_decoding: after Prepare, either start the full-run loop on a new
      worker or process one step. */
  function StartDecoding(s: Session, prompt: string, generated: seq<StepRecord>,
                         fullRun: bool, cancelled: seq<bool>): Session
  {
    var p := Prepare(s, prompt, generated);
    if fullRun && !p.stopRequested then RunFullGeneration(p.(worker := Some(Worker(false))), cancelled, 0)
    else DecodeOneToken(p)
  }

  /** The stop branch of on_button_pressed. */
  function Stop(s: Session): Session
  {
    var r := s.(stopRequested := true);
    if LiveWorker(s) then r.(worker := Some(Worker(true)), finished := true) else r
  }

  /** on_button_pressed for the three buttons. */
  function OnButtonPressed(s: Session, button: ButtonId, prompt: string,
                           generated: seq<StepRecord>, cancelled: seq<bool>): Session
  {
    match button
    case StartButton => StartDecoding(s.(stopRequested := false), prompt, generated, true, cancelled)
    case StepButton => StartDecoding(s.(stopRequested := false), prompt, generated, false, cancelled)
    case StopButton => Stop(s)
  }

  /** k presses of Step with the same prompt and the same model answer. */
  function StepPresses(s: Session, prompt: string, generated: seq<StepRecord>, k: nat): Session
  {
    if k == 0 then s
    else OnButtonPressed(StepPresses(s, prompt, generated, k - 1), StepButton, prompt, generated, [])
  }

  function Min(a: int, b: int): int
  {
    if a <= b then a else b
  }

  // ---------------------------------------------------------------------
  // The session invariant

  lemma InitialInv()
    ensures Inv(Initial())
    ensures Initial().trace == [] && Initial().curPos == 0 && Initial().tracePrompt == None
    ensures !Initial().finished && !Initial().stopRequested && !LiveWorker(Initial())
  {
  }

  lemma AdvancePreservesInv(s: Session)
    requires Inv(s) && s.curPos < |s.trace|
    ensures Inv(Advance(s))
  {
    var r := Advance(s);
    var e := Emissions(s.trace, 0, s.curPos);
    EmissionsSnoc(s.trace, 0, s.curPos);
    assert r.posted[|r.posted| - (|e| + 1)..] == s.posted[|s.posted| - |e|..] + [UpdateAt(s.trace, s.curPos)];
  }

  // ---------------------------------------------------------------------
  // decode_one_token

  /** When the session is finished, the cursor is past the trace or a stop is
      pending, nothing is posted, cursor and trace stay, and the session is finished. */
  lemma DecodeOneTokenBlocked(s: Session)
    requires Inv(s)
    requires s.finished || s.curPos >= |s.trace| || s.stopRequested
    ensures var r := DecodeOneToken(s);
      Inv(r) && r.finished && r.posted == s.posted && r.curPos == s.curPos && r.trace == s.trace
      && r.stopRequested == s.stopRequested && r.tracePrompt == s.tracePrompt && r.worker == s.worker
  {
  }

  /** Otherwise exactly one message, for the record at the old cursor, is posted,
      the cursor moves on by one, and the session is finished iff the trace is used up. */
  lemma DecodeOneTokenAdvances(s: Session)
    requires Inv(s)
    requires !s.finished && s.curPos < |s.trace| && !s.stopRequested
    ensures var r := DecodeOneToken(s);
      Inv(r) && r.posted == s.posted + [TokenUpdate(s.trace[s.curPos], s.curPos, |s.trace|)]
      && r.curPos == s.curPos + 1 && r.trace == s.trace && (r.finished <==> r.curPos >= |r.trace|)
      && r.stopRequested == s.stopRequested && r.tracePrompt == s.tracePrompt && r.worker == s.worker
  {
    AdvancePreservesInv(s);
  }

  // ---------------------------------------------------------------------
  // run_full_generation

  /** Whatever stops the loop, it posts the records from the old cursor up to the
      new one, in order and once each, changes nothing but the cursor, the queue
      and `finished`, and keeps the invariant. */
  lemma {:induction false} RunFullGenerationEmitsInOrder(s: Session, cancelled: seq<bool>, k: nat)
    requires Inv(s)
    decreases |s.trace| - s.curPos
    ensures var r := RunFullGeneration(s, cancelled, k);
      Inv(r) && s.curPos <= r.curPos && r.trace == s.trace
      && r.posted == s.posted + Emissions(s.trace, s.curPos, r.curPos)
      && (r.curPos == s.curPos ==> r.finished == s.finished)
      && (r.curPos > s.curPos ==> (r.finished <==> r.curPos == |r.trace|))
      && r.stopRequested == s.stopRequested && r.tracePrompt == s.tracePrompt
      && r.worker == s.worker && r.paused == s.paused
  {
    if !(s.finished || s.stopRequested || s.curPos >= |s.trace|) && !CancelledAt(cancelled, k) {
      AdvancePreservesInv(s);
      RunFullGenerationEmitsInOrder(Advance(s), cancelled, k + 1);
    }
  }

  /** With no cancellation, a loop that starts unfinished and unstopped posts every
      record from the cursor to the end and leaves the cursor at the end. */
  lemma {:induction false} RunFullGenerationCompletes(s: Session, cancelled: seq<bool>, k: nat)
    requires Inv(s) && !s.finished && !s.stopRequested
    requires NoCancellationFrom(cancelled, k)
    decreases |s.trace| - s.curPos
    ensures var r := RunFullGeneration(s, cancelled, k);
      r.curPos == |s.trace| && r.posted == s.posted + Emissions(s.trace, s.curPos, |s.trace|)
      && (s.trace != [] ==> r.finished)
  {
    RunFullGenerationEmitsInOrder(s, cancelled, k);
    if s.curPos < |s.trace| {
      AdvancePreservesInv(s);
      var a := Advance(s);
      if !a.finished {
        RunFullGenerationCompletes(a, cancelled, k + 1);
      }
    }
  }

  /** A cancellation first observed at iteration j ends the loop after the j - k
      emissions before it (fewer if the trace runs out first); observed at once,
      it ends the loop with nothing posted. */
  lemma {:induction false} RunFullGenerationStopsAtCancel(s: Session, cancelled: seq<bool>, k: nat, j: nat)
    requires Inv(s) && !s.finished && !s.stopRequested
    requires k <= j && CancelledAt(cancelled, j)
    requires forall i :: k <= i < j ==> !CancelledAt(cancelled, i)
    decreases j - k
    ensures var r := RunFullGeneration(s, cancelled, k);
      r.curPos == Min(|s.trace|, s.curPos + (j - k))
      && r.posted == s.posted + Emissions(s.trace, s.curPos, r.curPos)
  {
    RunFullGenerationEmitsInOrder(s, cancelled, k);
    if s.curPos < |s.trace| && k < j {
      AdvancePreservesInv(s);
      var a := Advance(s);
      if !a.finished {
        RunFullGenerationStopsAtCancel(a, cancelled, k + 1, j);
      }
    }
  }

  // ---------------------------------------------------------------------
  // start_decoding

  /** start_decoding regenerates exactly when Regenerates holds: then it runs on
      `generated` from position 0, otherwise on the old trace from the old cursor,
      without asking the model. Either way the stop flag is cleared, so a full run
      always starts the loop and a step always reaches decode_one_token. */
  lemma StartDecodingRegeneratesOrResumes(s: Session, prompt: string, generated: seq<StepRecord>,
                                          fullRun: bool, cancelled: seq<bool>)
    requires Inv(s)
    ensures var r := StartDecoding(s, prompt, generated, fullRun, cancelled);
      var from := if Regenerates(s, prompt) then 0 else s.curPos;
      var t := if Regenerates(s, prompt) then generated else s.trace;
      Inv(r) && r.trace == t && r.tracePrompt == Some(prompt) && !r.stopRequested
      && from <= r.curPos && r.posted == s.posted + Emissions(t, from, r.curPos)
      && (fullRun ==> r.worker == Some(Worker(false)))
      && (fullRun && NoCancellationFrom(cancelled, 0) ==> r.curPos == |t| && (t != [] ==> r.finished))
      && (!fullRun ==> r.worker == s.worker)
      && (!fullRun && from < |t| ==> r.curPos == from + 1)
      && (!fullRun && from == |t| ==> r.curPos == from && r.finished)
  {
    var p := Prepare(s, prompt, generated);
    assert Inv(p);
    if fullRun {
      var q := p.(worker := Some(Worker(false)));
      RunFullGenerationEmitsInOrder(q, cancelled, 0);
      if NoCancellationFrom(cancelled, 0) {
        RunFullGenerationCompletes(q, cancelled, 0);
      }
    } else if p.curPos < |p.trace| {
      DecodeOneTokenAdvances(p);
    }
  }

  /** A step on a resumed trace moves the cursor on by exactly one and posts the
      record that was at the cursor. */
  lemma ResumedStepAdvancesByOne(s: Session, prompt: string, generated: seq<StepRecord>)
    requires Inv(s) && !Regenerates(s, prompt)
    ensures var r := OnButtonPressed(s, StepButton, prompt, generated, []);
      r.trace == s.trace && r.curPos == s.curPos + 1
      && r.posted == s.posted + [UpdateAt(s.trace, s.curPos)]
  {
    DecodeOneTokenAdvances(Prepare(s.(stopRequested := false), prompt, generated));
  }

  /** Step on a session that regenerates into an empty trace posts nothing and
      leaves the session finished with its cursor at 0. */
  lemma StepOnEmptyTrace(s: Session, prompt: string)
    requires Regenerates(s, prompt)
    ensures var r := OnButtonPressed(s, StepButton, prompt, [], []);
      r.posted == s.posted && r.finished && r.trace == [] && r.curPos == 0
  {
  }

  /** k Step presses, the first of which regenerates, post exactly the first k
      records of the new trace in order and leave the cursor at k; the session is
      finished iff k is the trace length. */
  lemma {:induction false} StepPressesEmitInOrder(s: Session, prompt: string, generated: seq<StepRecord>, k: nat)
    requires Inv(s) && Regenerates(s, prompt)
    requires 1 <= k <= |generated|
    ensures var r := StepPresses(s, prompt, generated, k);
      Inv(r) && r.trace == generated && r.curPos == k && r.tracePrompt == Some(prompt)
      && r.posted == s.posted + Emissions(generated, 0, k) && (r.finished <==> k == |generated|)
  {
    if k == 1 {
      var p := Prepare(s.(stopRequested := false), prompt, generated);
      DecodeOneTokenAdvances(p);
    } else {
      StepPressesEmitInOrder(s, prompt, generated, k - 1);
      var q := StepPresses(s, prompt, generated, k - 1);
      ResumedStepAdvancesByOne(q, prompt, generated);
      StartDecodingRegeneratesOrResumes(q.(stopRequested := false), prompt, generated, false, []);
      EmissionsSnoc(generated, 0, k - 1);
    }
  }

  // ---------------------------------------------------------------------
  // Stop

  /** Stop always sets the stop flag; it marks the session finished only when a
      live worker was present, and then cancels it. Cursor, trace and the queue stay. */
  lemma StopEffect(s: Session)
    ensures var r := Stop(s);
      r.stopRequested && r.finished == (s.finished || LiveWorker(s)) && !LiveWorker(r)
      && r.curPos == s.curPos && r.trace == s.trace && r.posted == s.posted
      && r.tracePrompt == s.tracePrompt && (Inv(s) ==> Inv(r))
  {
  }

  /** A second Stop changes nothing further. */
  lemma StopIdempotent(s: Session)
    ensures Stop(Stop(s)) == Stop(s)
  {
  }

  /** After a Stop that cancelled a worker, the next Start or Step regenerates
      rather than resumes. */
  lemma StopWithWorkerForcesRegeneration(s: Session, prompt: string)
    requires LiveWorker(s)
    ensures Regenerates(Stop(s), prompt)
  {
  }

  /** With no live worker, Stop leaves a resumable session resumable: the next
      Step continues from the frozen cursor. */
  lemma StopWithoutWorkerThenStepResumes(s: Session, prompt: string, generated: seq<StepRecord>)
    requires Inv(s) && !LiveWorker(s) && !Regenerates(s, prompt)
    ensures var r := OnButtonPressed(Stop(s), StepButton, prompt, generated, []);
      r.trace == s.trace && r.curPos == s.curPos + 1
      && r.posted == s.posted + [UpdateAt(s.trace, s.curPos)]
  {
    StopEffect(s);
    ResumedStepAdvancesByOne(Stop(s), prompt, generated);
  }

  /** Every button keeps the session invariant. */
  lemma OnButtonPressedPreservesInv(s: Session, button: ButtonId, prompt: string,
                                    generated: seq<StepRecord>, cancelled: seq<bool>)
    requires Inv(s)
    ensures Inv(OnButtonPressed(s, button, prompt, generated, cancelled))
  {
    match button
    case StartButton =>
      StartDecodingRegeneratesOrResumes(s.(stopRequested := false), prompt, generated, true, cancelled);
    case StepButton =>
      StartDecodingRegeneratesOrResumes(s.(stopRequested := false), prompt, generated, false, cancelled);
    case StopButton =>
      StopEffect(s);
  }

  // ---------------------------------------------------------------------
  // Scenarios

  /** The five identical records the demonstration model returns. */
  function FiveRecords(rec: StepRecord): seq<StepRecord>
  {
    [rec, rec, rec, rec, rec]
  }

  /** Start on a new session with a five-record trace and no cancellation posts
      the cursors 0, 1, 2, 3, 4 and ends finished with the cursor at 5. */
  lemma FiveRecordFullRun(prompt: string, rec: StepRecord)
    ensures var r := OnButtonPressed(Initial(), StartButton, prompt, FiveRecords(rec), []);
      Indices(r.posted) == [0, 1, 2, 3, 4] && r.curPos == 5 && r.finished
  {
    var five := FiveRecords(rec);
    var s0 := Initial();
    InitialInv();
    assert s0.(stopRequested := false) == s0;
    assert NoCancellationFrom([], 0);
    StartDecodingRegeneratesOrResumes(s0, prompt, five, true, []);
    var r := StartDecoding(s0, prompt, five, true, []);
    assert Regenerates(s0, prompt) && |five| == 5;
    assert r.posted == Emissions(five, 0, 5);
    EmissionsAt(five, 0, 5);
    assert |r.posted| == 5;
    assert r.posted[0].curPos == 0 && r.posted[1].curPos == 1 && r.posted[2].curPos == 2;
    assert r.posted[3].curPos == 3 && r.posted[4].curPos == 4;
    assert Indices(r.posted) == [0, 1, 2, 3, 4];
  }

  /** Start, cancellation before the third iteration, then Stop: the cursor stays
      at 2 after posting 0 and 1, the stop flag is set, and, because Stop marks the
      session finished, the next Start regenerates. */
  lemma StopAfterSecondEvent(prompt: string, rec: StepRecord)
    ensures var s1 := OnButtonPressed(Initial(), StartButton, prompt, FiveRecords(rec), [false, false, true]);
      var r := OnButtonPressed(s1, StopButton, prompt, [], []);
      Indices(r.posted) == [0, 1] && r.curPos == 2 && r.stopRequested && r.finished
      && Regenerates(r, prompt)
  {
    InitialInv();
    var p := Prepare(Initial(), prompt, FiveRecords(rec)).(worker := Some(Worker(false)));
    var s1 := OnButtonPressed(Initial(), StartButton, prompt, FiveRecords(rec), [false, false, true]);
    assert s1 == RunFullGeneration(p, [false, false, true], 0);
    RunFullGenerationStopsAtCancel(p, [false, false, true], 0, 2);
    RunFullGenerationEmitsInOrder(p, [false, false, true], 0);
    assert LiveWorker(s1);
    var r := Stop(s1);
    assert r.posted == Emissions(FiveRecords(rec), 0, 2);
    EmissionsAt(FiveRecords(rec), 0, 2);
    assert |r.posted| == 2 && r.posted[0].curPos == 0 && r.posted[1].curPos == 1;
    assert Indices(r.posted) == [0, 1];
  }
}
