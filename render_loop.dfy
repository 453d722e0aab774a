/**
 * The termination rule of `renderLoop`, over an abstract trace: frame `k`
 * holds what `Display.isCloseRequested` reports before iteration `k` and
 * what `nifty.update` returns during it.
 */
module RenderLoop {
  datatype Frame = Frame(closeRequested: bool, exitRequested: bool)

  /**
   * How the loop ends on a trace: the iterations it runs, and whether it
   * stopped within the trace (rather than running past its end).
   */
  datatype Outcome = Outcome(iterations: nat, stopped: bool)

  /** The outcome of the loop on `frames`, one frame per iteration. */
  function Run(frames: seq<Frame>): (o: Outcome)
    ensures o.iterations <= |frames|
    ensures forall k :: 0 <= k < o.iterations ==> !frames[k].closeRequested
    ensures forall k :: 0 <= k < o.iterations - 1 ==> !frames[k].exitRequested
    ensures o.stopped <==>
      (o.iterations < |frames| && frames[o.iterations].closeRequested) ||
      (0 < o.iterations && frames[o.iterations - 1].exitRequested)
  {
    if frames == [] then Outcome(0, false)
    else if frames[0].closeRequested then Outcome(0, true)
    else if frames[0].exitRequested then Outcome(1, true)
    else
      var o := Run(frames[1..]);
      Outcome(o.iterations + 1, o.stopped)
  }

  /**
   * The loop ends at the first signal: before iteration `k` when close is
   * requested there, right after it when the GUI asks to exit in it.
   */
  lemma {:induction false} RunStopsAtFirstSignal(frames: seq<Frame>, k: nat)
    requires k < |frames| && (frames[k].closeRequested || frames[k].exitRequested)
    requires forall j :: 0 <= j < k ==> !frames[j].closeRequested && !frames[j].exitRequested
    ensures Run(frames) == if frames[k].closeRequested then Outcome(k, true) else Outcome(k + 1, true)
  {
    if k > 0 {
      assert forall j :: 0 <= j < k - 1 ==> frames[1..][j] == frames[j + 1];
      RunStopsAtFirstSignal(frames[1..], k - 1);
    }
  }

  /** A trace with no signal in it runs every frame and does not stop. */
  lemma {:induction false} RunWithoutSignal(frames: seq<Frame>)
    requires forall j :: 0 <= j < |frames| ==> !frames[j].closeRequested && !frames[j].exitRequested
    ensures Run(frames) == Outcome(|frames|, false)
  {
    if frames != [] {
      assert forall j :: 0 <= j < |frames| - 1 ==> frames[1..][j] == frames[j + 1];
      RunWithoutSignal(frames[1..]);
    }
  }

  /**
   * The `while` loop of `renderLoop`: polls for a close request, updates the
   * GUI (which may set `done`) and renders, once per iteration.
   */
  method RenderLoop(frames: seq<Frame>) returns (iterations: nat, renders: nat, stopped: bool)
    ensures Outcome(iterations, stopped) == Run(frames)
    ensures renders == iterations
  {
    var done := false;
    iterations, renders := 0, 0;
    while !done && iterations < |frames| && !frames[iterations].closeRequested
      invariant iterations <= |frames| && renders == iterations
      invariant !done ==> Run(frames) == Outcome(iterations + Run(frames[iterations..]).iterations, Run(frames[iterations..]).stopped)
      invariant done ==> Run(frames) == Outcome(iterations, true)
    {
      ghost var rest := frames[iterations..];
      assert rest[0] == frames[iterations] && rest[1..] == frames[iterations + 1..];
      if frames[iterations].exitRequested {
        done := true;
      }
      renders := renders + 1;
      iterations := iterations + 1;
    }
    stopped := done || (iterations < |frames| && frames[iterations].closeRequested);
    if !done && iterations < |frames| {
      assert frames[iterations..][0] == frames[iterations];
    }
  }
}
