/**
 * The frame's start/close lifecycle: the flags that the UI thread's Start and
 * close handlers, and the actions the worker posts back to the UI thread,
 * update. Each handler is a function on FrameState; the Frame class holds the
 * same fields and its methods are specified by those functions.
 */
module Lifecycle {
  import opened Gauge
  import opened BubblePasses
  import opened SortWorker

  /** The fields of the frame that the handlers read and update. */
  datatype FrameState = FrameState(
    processing: bool,      // a run was started and its terminal action not yet handled
    quitRequested: bool,   // a close was vetoed while processing
    destroyed: bool,       // Destroy() has been called
    timerRunning: bool,    // the grid refresh timer
    joinable: bool,        // backgroundThread holds a thread not yet joined
    gauge: int)            // the progress gauge's value

  /** The frame as its constructor leaves it: idle, with the refresh timer started. */
  const Initial: FrameState := FrameState(false, false, false, true, false, 0)

  /**
   * What holds between the handlers: a worker thread exists exactly while a
   * run is in progress (so there is never more than one); the frame is never
   * destroyed while processing; the timer is off once a close was requested or
   * the frame destroyed; the gauge stays within its range.
   */
  predicate Consistent(f: FrameState)
  {
    && f.joinable == f.processing
    && (f.destroyed ==> !f.processing && !f.timerRunning)
    && (f.quitRequested ==> !f.timerRunning)
    && 0 <= f.gauge <= GaugeRange
  }

  /** The Start button: a worker is spawned only when no run is in progress. */
  function Click(f: FrameState): FrameState
  {
    if f.processing then f else f.(processing := true, joinable := true)
  }

  /** The close request: the timer is stopped; a close during a run is vetoed and recorded. */
  function Close(f: FrameState): FrameState
  {
    var stopped := f.(timerRunning := false);
    if f.processing then stopped.(quitRequested := true) else stopped.(destroyed := true)
  }

  /** The progress action: the gauge is set to the posted value. */
  function ShowProgress(f: FrameState, value: int): FrameState
  {
    f.(gauge := value)
  }

  /** The cancelled action: join the worker, clear both flags, destroy the frame. */
  function AfterCancelled(f: FrameState): FrameState
  {
    f.(joinable := false, processing := false, quitRequested := false, destroyed := true)
  }

  /** The completed action: join the worker and clear processing; quitRequested is left as it is. */
  function AfterCompleted(f: FrameState): FrameState
  {
    f.(joinable := false, processing := false)
  }

  /** The effect of one action the worker posts, when the UI thread runs it. */
  function Deliver(f: FrameState, e: Event): FrameState
  {
    match e
    case Started(_) => f
    case Progress(v) => ShowProgress(f, v)
    case Cancelled => AfterCancelled(f)
    case Completed(_) => AfterCompleted(f)
  }

  /** The effect of the actions of t, run in posting order. */
  function DeliverAll(f: FrameState, t: seq<Event>): FrameState
  {
    if |t| == 0 then f else Deliver(DeliverAll(f, t[..|t| - 1]), t[|t| - 1])
  }

  /**
   * Start while a run is in progress changes nothing. Start while idle sets
   * processing and spawns the one worker, never replacing a thread that is
   * still joinable, and keeps the handlers' invariant.
   */
  lemma ClickStartsOneWorker(f: FrameState)
    requires Consistent(f) && !f.destroyed
    ensures f.processing ==> Click(f) == f
    ensures !f.processing ==> !f.joinable && Click(f).processing && Click(f).joinable
    ensures Click(f).(processing := f.processing, joinable := f.joinable) == f
    ensures Consistent(Click(f))
  {
  }

  /**
   * Close always stops the timer. During a run it is vetoed: quitRequested is
   * set and the frame is not destroyed. Otherwise the frame is destroyed.
   * Either way the invariant is kept.
   */
  lemma CloseVetoesWhileProcessing(f: FrameState)
    requires Consistent(f) && !f.destroyed
    ensures !Close(f).timerRunning
    ensures f.processing ==> Close(f).quitRequested && !Close(f).destroyed
    ensures Close(f).destroyed <==> !f.processing
    ensures Close(f).processing == f.processing && Close(f).gauge == f.gauge
    ensures Consistent(Close(f))
  {
  }

  /**
   * The worker's terminal actions join the one worker thread, which is
   * joinable while processing. The cancelled action clears both flags and
   * destroys the frame; the completed action clears processing only.
   */
  lemma TerminalActionsJoin(f: FrameState)
    requires Consistent(f) && f.processing && !f.destroyed
    ensures f.joinable
    ensures f.quitRequested ==> Consistent(AfterCancelled(f))
    ensures var g := AfterCancelled(f); !g.processing && !g.quitRequested && g.destroyed && !g.joinable
    ensures Consistent(AfterCompleted(f))
    ensures var g := AfterCompleted(f);
      !g.processing && !g.joinable && g.quitRequested == f.quitRequested && !g.destroyed
  {
  }

  /** Delivering Started and the first k progress actions leaves the gauge at the last value posted. */
  lemma {:induction false} DeliverProgress(f: FrameState, n: nat, k: nat)
    requires k <= PassCount(n)
    ensures DeliverAll(f, [Started(n)] + ProgressEvents(n, k))
      == if k == 0 then f else f.(gauge := ProgressValue(k - 1, n))
  {
    var t := [Started(n)] + ProgressEvents(n, k);
    if k == 0 {
      assert t[..0] == [];
    } else {
      var prev := [Started(n)] + ProgressEvents(n, k - 1);
      assert t == prev + [Progress(ProgressValue(k - 1, n))];
      assert t[..|t| - 1] == prev;
      DeliverProgress(f, n, k - 1);
    }
  }

  /**
   * Delivering every action of a run to a frame that started it: the worker is
   * joined and processing cleared. A cancelled run leaves the frame destroyed
   * with both flags clear and the gauge at the progress value of the iteration
   * that saw the flag; a completed run leaves it open with quitRequested as it
   * was and, over two or more elements, the gauge full.
   */
  lemma DeliverRun(f: FrameState, s: seq<int>, quit: seq<bool>)
    requires Consistent(f) && f.processing && !f.destroyed
    requires (exists i :: 0 <= i < PassCount(|s|) && QuitAt(quit, i)) ==> f.quitRequested
    ensures var t := Trace(s, quit); var g := DeliverAll(f, t);
      && Consistent(g) && !g.processing && !g.joinable
      && (t[|t| - 1] == Cancelled ==> g.destroyed && !g.quitRequested)
      && (t[|t| - 1] == Cancelled ==> g.gauge == ProgressValue(StopIndex(quit, PassCount(|s|)), |s|))
      && (t[|t| - 1].Completed? ==> !g.destroyed && g.quitRequested == f.quitRequested)
      && (t[|t| - 1].Completed? && |s| >= 2 ==> g.gauge == GaugeRange)
  {
    var n := |s|;
    var k := StopIndex(quit, PassCount(n));
    var t := Trace(s, quit);
    if k < PassCount(n) {
      TraceWhenCancelled(s, quit, k);
      var head := [Started(n)] + ProgressEvents(n, k + 1);
      assert t == head + [Cancelled];
      assert t[..|t| - 1] == head;
      DeliverProgress(f, n, k + 1);
      assert f.quitRequested by {
        assert QuitAt(quit, k);
      }
    } else {
      TraceWhenCompleted(s, quit);
      var head := [Started(n)] + ProgressEvents(n, k);
      assert t == head + [t[|t| - 1]];
      assert t[..|t| - 1] == head;
      DeliverProgress(f, n, k);
    }
  }

  /**
   * A close that arrives after the worker has read the quit flag for the last
   * time is vetoed, but the completed action leaves quitRequested set: the
   * frame stays open, and the next Start spawns a worker that reads the flag
   * set at its first outer iteration, is cancelled, and destroys the frame.
   */
  lemma LateCloseCancelsNextRun(s: seq<int>, quit: seq<bool>, next: seq<int>)
    requires forall i :: 0 <= i < PassCount(|s|) ==> !QuitAt(quit, i)
    requires |next| >= 2
    ensures var closing := Close(Click(Initial));
      var after := DeliverAll(closing, Trace(s, quit));
      var restarted := Click(after);
      var t := Trace(next, [restarted.quitRequested]);
      && closing.quitRequested && !closing.destroyed
      && !after.destroyed && !after.processing && after.quitRequested
      && restarted.processing
      && t[|t| - 1] == Cancelled
      && DeliverAll(restarted, t).destroyed
  {
    var closing := Close(Click(Initial));
    CompletedRun(s, quit);
    DeliverRun(closing, s, quit);
    var after := DeliverAll(closing, Trace(s, quit));
    var restarted := Click(after);
    assert QuitAt([restarted.quitRequested], 0);
    CancelledRun(next, [restarted.quitRequested]);
    DeliverRun(restarted, next, [restarted.quitRequested]);
  }

  /** MyFrame's fields that the lifecycle handlers update, updated in place. */
  class Frame {
    var processing: bool
    var quitRequested: bool
    var destroyed: bool
    var timerRunning: bool
    var joinable: bool
    var gauge: int

    function State(): FrameState
      reads this
    {
      FrameState(processing, quitRequested, destroyed, timerRunning, joinable, gauge)
    }

    ghost predicate Valid()
      reads this
    {
      Consistent(State())
    }

    /** The constructor: idle, no worker, the refresh timer started. */
    constructor ()
      ensures State() == Initial && Valid()
    {
      processing := false;
      quitRequested := false;
      destroyed := false;
      timerRunning := true;
      joinable := false;
      gauge := 0;
    }

    /** The Start button handler; spawned tells whether a worker was started. */
    method OnButtonClick() returns (spawned: bool)
      requires Valid() && !destroyed
      modifies this
      ensures Valid()
      ensures spawned == !old(processing)
      ensures State() == Click(old(State()))
    {
      spawned := !processing;
      if !processing {
        processing := true;
        joinable := true;
      }
    }

    /** The close handler; vetoed tells whether the close was refused. */
    method OnClose() returns (vetoed: bool)
      requires Valid() && !destroyed
      modifies this
      ensures Valid()
      ensures vetoed == old(processing)
      ensures State() == Close(old(State()))
    {
      timerRunning := false;
      vetoed := processing;
      if processing {
        quitRequested := true;
      } else {
        destroyed := true;
      }
    }

    /** The progress action posted at each outer iteration. */
    method OnProgress(value: int)
      requires Valid() && !destroyed && 0 <= value <= GaugeRange
      modifies this
      ensures Valid()
      ensures State() == ShowProgress(old(State()), value)
    {
      gauge := value;
    }

    /**
     * The cancelled action. The worker posts it only after reading the quit
     * flag set, which a vetoed close sets and only this action clears.
     */
    method OnCancelled()
      requires Valid() && processing && quitRequested && !destroyed
      modifies this
      ensures Valid()
      ensures State() == AfterCancelled(old(State()))
    {
      joinable := false;
      processing := false;
      quitRequested := false;
      destroyed := true;
    }

    /** The completed action, posted after the last outer iteration. */
    method OnCompleted()
      requires Valid() && processing && !destroyed
      modifies this
      ensures Valid()
      ensures State() == AfterCompleted(old(State()))
    {
      joinable := false;
      processing := false;
    }
  }
}
