/** The playback part of the DecodeTUI application (inferdecode/decode_tui.py):
    an object whose fields its button handler, start_decoding, decode_one_token
    and the run_full_generation loop update in place. Each method is proved to
    keep the session invariant and to move the fields exactly as the matching
    transition of module Playback, where the properties are proved. */
module DecodeTui {
  import opened TraceEvents
  import Playback

  class DecodeTUI {
    var trace: seq<StepRecord>
    var curPos: nat
    var finished: bool
    var stopRequested: bool
    var tracePrompt: Playback.Option<string>
    var paused: bool
    var worker: Playback.Option<Playback.Worker>
    /** The TokenUpdate messages posted so far, oldest first. */
    var posted: seq<TokenUpdate>

    /** The fields as one value. */
    function Snapshot(): Playback.Session
      reads this
    {
      Playback.Session(trace, curPos, finished, stopRequested, tracePrompt, paused, worker, posted)
    }

    ghost predicate Valid()
      reads this
    {
      Playback.Inv(Snapshot())
    }

    /** The playback fields of __init__: an empty trace, cursor 0, nothing
        finished or stopped, no cached prompt and no worker. */
    constructor ()
      ensures Valid() && Snapshot() == Playback.Initial()
      ensures trace == [] && curPos == 0 && !finished && !stopRequested
      ensures tracePrompt == Playback.None && worker == Playback.None
    {
      trace := [];
      curPos := 0;
      finished := false;
      stopRequested := false;
      tracePrompt := Playback.None;
      paused := false;
      worker := Playback.None;
      posted := [];
    }

    /** Process one step for the Step button. */
    method DecodeOneToken()
      requires Valid()
      modifies this
      ensures Valid() && Snapshot() == Playback.DecodeOneToken(old(Snapshot()))
      ensures trace == old(trace) && tracePrompt == old(tracePrompt) && worker == old(worker)
      ensures old(finished || curPos >= |trace| || stopRequested) ==>
                finished && curPos == old(curPos) && posted == old(posted)
      ensures !old(finished || curPos >= |trace| || stopRequested) ==>
                curPos == old(curPos) + 1
                && posted == old(posted) + [TokenUpdate(trace[old(curPos)], old(curPos), |trace|)]
                && (finished <==> curPos >= |trace|)
    {
      if finished || curPos >= |trace| || stopRequested {
        finished := true;
        return;
      }
      Playback.AdvancePreservesInv(Snapshot());
      var stepInfo := trace[curPos];
      posted := posted + [TokenUpdate(stepInfo, curPos, |trace|)];
      curPos := curPos + 1;
      if curPos >= |trace| {
        finished := true;
      }
    }

    /** The worker's loop. `cancelled[k]` is what `worker.is_cancelled` reads at
        the top of iteration k (false past the end of the sequence). */
    method RunFullGeneration(cancelled: seq<bool>)
      requires Valid()
      modifies this
      ensures Valid() && Snapshot() == Playback.RunFullGeneration(old(Snapshot()), cancelled, 0)
      ensures trace == old(trace) && old(curPos) <= curPos
      ensures tracePrompt == old(tracePrompt) && stopRequested == old(stopRequested) && worker == old(worker)
      ensures posted == old(posted) + Emissions(trace, old(curPos), curPos)
      ensures !old(finished) && !old(stopRequested) && Playback.NoCancellationFrom(cancelled, 0) ==>
                curPos == |trace| && (trace != [] ==> finished)
    {
      Playback.RunFullGenerationEmitsInOrder(Snapshot(), cancelled, 0);
      if !finished && !stopRequested && Playback.NoCancellationFrom(cancelled, 0) {
        Playback.RunFullGenerationCompletes(Snapshot(), cancelled, 0);
      }
      var k := 0;
      while !finished && !stopRequested && curPos < |trace|
        invariant Valid()
        invariant Playback.RunFullGeneration(Snapshot(), cancelled, k)
                  == Playback.RunFullGeneration(old(Snapshot()), cancelled, 0)
        decreases |trace| - curPos
      {
        if k < |cancelled| && cancelled[k] {
          break;
        }
        ghost var before := Snapshot();
        Playback.AdvancePreservesInv(before);
        var stepInfo := trace[curPos];
        posted := posted + [TokenUpdate(stepInfo, curPos, |trace|)];
        curPos := curPos + 1;
        if curPos >= |trace| {
          finished := true;
        }
        assert Snapshot() == Playback.Advance(before);
        k := k + 1;
      }
    }

    /** start_decoding. `prompt` is the prompt box's text and `generated` the trace
        the model returns for it and the current settings; it is used only when
        the session regenerates. */
    method StartDecoding(prompt: string, generated: seq<StepRecord>, fullRun: bool, cancelled: seq<bool>)
      requires Valid()
      modifies this
      ensures Valid()
      ensures Snapshot() == Playback.StartDecoding(old(Snapshot()), prompt, generated, fullRun, cancelled)
      ensures trace == (if Playback.Regenerates(old(Snapshot()), prompt) then generated else old(trace))
      ensures tracePrompt == Playback.Some(prompt) && !stopRequested
    {
      if tracePrompt != Playback.Some(prompt) || trace == [] || finished {
        tracePrompt := Playback.Some(prompt);
        curPos := 0;
        finished := false;
        paused := false;
        stopRequested := false;
        trace := generated;
      } else {
        stopRequested := false;
        paused := false;
      }
      if fullRun && !stopRequested {
        worker := Playback.Some(Playback.Worker(false));
        RunFullGeneration(cancelled);
      } else {
        DecodeOneToken();
      }
    }

    /** on_button_pressed for the Start, Step and Stop buttons. */
    method OnButtonPressed(button: Playback.ButtonId, prompt: string,
                           generated: seq<StepRecord>, cancelled: seq<bool>)
      requires Valid()
      modifies this
      ensures Valid()
      ensures Snapshot() == Playback.OnButtonPressed(old(Snapshot()), button, prompt, generated, cancelled)
      ensures button == Playback.StopButton ==>
                stopRequested && finished == (old(finished) || Playback.LiveWorker(old(Snapshot())))
                && curPos == old(curPos) && trace == old(trace) && posted == old(posted)
    {
      match button
      case StartButton =>
        stopRequested := false;
        StartDecoding(prompt, generated, true, cancelled);
      case StepButton =>
        stopRequested := false;
        StartDecoding(prompt, generated, false, cancelled);
      case StopButton =>
        stopRequested := true;
        if worker.Some? && !worker.value.isCancelled {
          worker := Playback.Some(Playback.Worker(true));
          finished := true;
        }
    }
  }

  /** A new application, a five-record trace and the Start button: the posted
      messages carry the cursors 0, 1, 2, 3, 4. */
  method FiveRecordPlayback(prompt: string, rec: StepRecord) returns (indices: seq<nat>)
    ensures indices == [0, 1, 2, 3, 4]
  {
    var app := new DecodeTUI();
    app.OnButtonPressed(Playback.StartButton, prompt, Playback.FiveRecords(rec), []);
    Playback.FiveRecordFullRun(prompt, rec);
    indices := Indices(app.posted);
  }

  /** Start with cancellation before the third iteration, then Stop, then Stop
      again: the cursor stays at 2, the messages carry 0 and 1, and the session is
      finished, so the next Start regenerates. */
  method StopAfterSecondEventPlayback(prompt: string, rec: StepRecord)
    returns (cursor: nat, indices: seq<nat>, regenerates: bool)
    ensures cursor == 2 && indices == [0, 1] && regenerates
  {
    var app := new DecodeTUI();
    app.OnButtonPressed(Playback.StartButton, prompt, Playback.FiveRecords(rec), [false, false, true]);
    app.OnButtonPressed(Playback.StopButton, prompt, [], []);
    ghost var afterFirstStop := app.Snapshot();
    app.OnButtonPressed(Playback.StopButton, prompt, [], []);
    Playback.StopAfterSecondEvent(prompt, rec);
    Playback.StopIdempotent(afterFirstStop);
    cursor := app.curPos;
    indices := Indices(app.posted);
    regenerates := Playback.Regenerates(app.Snapshot(), prompt);
  }
}
