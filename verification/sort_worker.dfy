/**
 * MyFrame::BackgroundTask: the cancellable bubble sort that runs on the worker
 * thread. Each action the worker posts to the UI thread becomes an Event; the
 * value of the quit flag the worker reads at the start of each outer iteration
 * is supplied as an input.
 */
module SortWorker {
  import opened Wrappers
  import opened Gauge
  import opened BubblePasses

  /** An action the worker posts to the UI thread, in posting order. */
  datatype Event =
    | Started(count: int)              // "Sorting the array of n elements..."
    | Progress(value: int)             // the gauge value for one outer iteration
    | Cancelled                        // join, clear both flags, destroy the frame
    | Completed(front: Option<int>)    // the first element, then join and clear processing

  predicate Terminal(e: Event)
  {
    e.Cancelled? || e.Completed?
  }

  /** The quit flag as read at outer iteration i; iterations past the end of quit read false. */
  predicate QuitAt(quit: seq<bool>, i: nat)
  {
    i < |quit| && quit[i]
  }

  /**
   * The outer iteration at which the worker stops: the first i < total at
   * which it reads the quit flag set, or total when it never does.
   */
  function StopIndex(quit: seq<bool>, total: nat): (k: nat)
    ensures k <= total
    ensures forall i :: 0 <= i < k ==> !QuitAt(quit, i)
    ensures k < total ==> QuitAt(quit, k)
  {
    if total == 0 then 0
    else
      var k := StopIndex(quit, total - 1);
      if k < total - 1 || QuitAt(quit, total - 1) then k else total
  }

  /** An outer iteration that does not see the quit flag is followed by another one the run reaches. */
  lemma StopIndexStep(quit: seq<bool>, total: nat, i: nat)
    requires i < total && i <= StopIndex(quit, total) && !QuitAt(quit, i)
    ensures i + 1 <= StopIndex(quit, total)
  {
  }

  /** The progress events of the first k outer iterations of a run over n elements. */
  function ProgressEvents(n: nat, k: nat): (t: seq<Event>)
    requires k <= PassCount(n)
    ensures |t| == k
    ensures forall i :: 0 <= i < k ==> t[i] == Progress(ProgressValue(i, n))
  {
    if k == 0 then [] else ProgressEvents(n, k - 1) + [Progress(ProgressValue(k - 1, n))]
  }

  lemma ProgressEventsNext(n: nat, k: nat, head: seq<Event>)
    requires k < PassCount(n)
    ensures head + ProgressEvents(n, k + 1) == head + ProgressEvents(n, k) + [Progress(ProgressValue(k, n))]
  {
    assert ProgressEvents(n, k + 1) == ProgressEvents(n, k) + [Progress(ProgressValue(k, n))];
  }

  /** The first element of the buffer; None when it is empty. */
  function Front(s: seq<int>): Option<int>
  {
    if |s| == 0 then None else Some(s[0])
  }

  /** The buffer after a run over s that reads the quit flag as quit. */
  function FinalBuffer(s: seq<int>, quit: seq<bool>): seq<int>
  {
    Passes(s, StopIndex(quit, PassCount(|s|)))
  }

  /**
   * The actions a run over s posts: Started, then one Progress per outer
   * iteration reached (including the one at which the quit flag is seen),
   * then Cancelled if the flag was seen and Completed otherwise.
   */
  function Trace(s: seq<int>, quit: seq<bool>): seq<Event>
  {
    var n := |s|;
    var k := StopIndex(quit, PassCount(n));
    if k < PassCount(n) then [Started(n)] + ProgressEvents(n, k + 1) + [Cancelled]
    else [Started(n)] + ProgressEvents(n, k) + [Completed(Front(Passes(s, k)))]
  }

  /**
   * The worker: sorts data in place by adjacent swaps, posting a progress
   * value at the start of every outer iteration and stopping before the pass
   * of the first iteration at which the quit flag is set.
   */
  method BackgroundTask(data: array<int>, quit: seq<bool>) returns (events: seq<Event>)
    modifies data
    ensures data[..] == FinalBuffer(old(data[..]), quit)
    ensures events == Trace(old(data[..]), quit)
    ensures multiset(data[..]) == multiset(old(data[..]))
    ensures events[|events| - 1].Completed? ==> Sorted(data[..])
  {
    ghost var initial := data[..];
    var n := data.Length;
    events := [Started(n)];
    ghost var stop := StopIndex(quit, PassCount(n));
    var i := 0;
    while i < n - 1
      invariant 0 <= i <= stop
      invariant data[..] == Passes(initial, i)
      invariant events == [Started(n)] + ProgressEvents(n, i)
    {
      ProgressEventsNext(n, i, [Started(n)]);
      events := events + [Progress(ProgressValue(i, n))];
      if i < |quit| && quit[i] {
        events := events + [Cancelled];
        assert QuitAt(quit, i);
        TraceWhenCancelled(initial, quit, i);
        PassesPermute(initial, i);
        return;
      }
      StopIndexStep(quit, PassCount(n), i);
      ghost var before := data[..];
      BubblePass(data, n - i - 1);
      assert data[..] == BubbleTo(before, n - i - 1);
      PassesNext(initial, i, n - i - 1);
      i := i + 1;
    }
    assert i == PassCount(n);
    TraceWhenCompleted(initial, quit);
    PassesPermute(initial, i);
    FullPassesSort(initial);
    events := events + [Completed(if n == 0 then None else Some(data[0]))];
  }

  /** The trace and final buffer of a run that sees the quit flag at outer iteration k. */
  lemma TraceWhenCancelled(s: seq<int>, quit: seq<bool>, k: nat)
    requires k < PassCount(|s|) && k <= StopIndex(quit, PassCount(|s|)) && QuitAt(quit, k)
    ensures k == StopIndex(quit, PassCount(|s|))
    ensures Trace(s, quit) == [Started(|s|)] + ProgressEvents(|s|, k + 1) + [Cancelled]
    ensures FinalBuffer(s, quit) == Passes(s, k)
  {
  }

  /** The trace and final buffer of a run that never sees the quit flag. */
  lemma TraceWhenCompleted(s: seq<int>, quit: seq<bool>)
    requires StopIndex(quit, PassCount(|s|)) == PassCount(|s|)
    ensures var r := Passes(s, PassCount(|s|));
      && Trace(s, quit) == [Started(|s|)] + ProgressEvents(|s|, PassCount(|s|)) + [Completed(Front(r))]
      && FinalBuffer(s, quit) == r
  {
  }

  /**
   * One pass of the inner loop, `for (int j = 0; j < m; j++)`, under the
   * buffer's lock: swaps each out-of-order adjacent pair in turn.
   */
  method BubblePass(data: array<int>, m: nat)
    requires m < data.Length
    modifies data
    ensures data[..] == BubbleTo(old(data[..]), m)
  {
    ghost var before := data[..];
    var j := 0;
    while j < m
      invariant 0 <= j <= m
      invariant data[..] == BubbleTo(before, j)
    {
      ghost var current := data[..];
      CompareSwapUpdates(current, j);
      if data[j] > data[j + 1] {
        data[j], data[j + 1] := data[j + 1], data[j];
      }
      BubbleToNext(before, j);
      j := j + 1;
    }
  }

  /** Every run posts Started first and exactly one terminal action, which is its last. */
  lemma TraceShape(s: seq<int>, quit: seq<bool>)
    ensures var t := Trace(s, quit);
      && |t| >= 2 && t[0] == Started(|s|)
      && Terminal(t[|t| - 1])
      && forall e :: 0 <= e < |t| - 1 ==> !Terminal(t[e])
  {
    var t := Trace(s, quit);
    var n := |s|;
    var k := StopIndex(quit, PassCount(n));
    var p := if k < PassCount(n) then k + 1 else k;
    assert t == [Started(n)] + ProgressEvents(n, p) + [t[|t| - 1]];
    forall e | 0 <= e < |t| - 1
      ensures !Terminal(t[e])
    {
      if e > 0 {
        assert t[e] == ProgressEvents(n, p)[e - 1];
      }
    }
  }

  /**
   * A run is cancelled exactly when the quit flag is read set at some outer
   * iteration it reaches; then, with k the first such iteration, it has
   * posted k + 1 progress values, applied exactly k passes, and left a
   * permutation of the input whose last k positions hold its k largest
   * elements, sorted.
   */
  lemma CancelledRun(s: seq<int>, quit: seq<bool>)
    ensures var t := Trace(s, quit);
      t[|t| - 1] == Cancelled <==> exists i :: 0 <= i < PassCount(|s|) && QuitAt(quit, i)
    ensures var t := Trace(s, quit); var k := StopIndex(quit, PassCount(|s|));
      t[|t| - 1] == Cancelled ==>
        && |t| == k + 3
        && FinalBuffer(s, quit) == Passes(s, k)
        && multiset(FinalBuffer(s, quit)) == multiset(s)
        && SortedSuffix(FinalBuffer(s, quit), k)
  {
    var k := StopIndex(quit, PassCount(|s|));
    PassesPermute(s, k);
    PassesSortSuffix(s, k);
    if k < PassCount(|s|) {
      assert QuitAt(quit, k);
    }
  }

  /** A run completes exactly when the quit flag is never read set at an outer iteration it reaches. */
  lemma CompletedRun(s: seq<int>, quit: seq<bool>)
    ensures var t := Trace(s, quit);
      t[|t| - 1].Completed? <==> forall i :: 0 <= i < PassCount(|s|) ==> !QuitAt(quit, i)
  {
    var k := StopIndex(quit, PassCount(|s|));
    if k < PassCount(|s|) {
      assert QuitAt(quit, k);
    }
  }

  /**
   * A run that never reads the quit flag set posts one progress value per
   * outer iteration, n - 1 of them, in non-decreasing order ending at the full
   * gauge range, and then reports the first element of the final buffer.
   */
  lemma CompletedTrace(s: seq<int>, quit: seq<bool>)
    requires forall i :: 0 <= i < PassCount(|s|) ==> !QuitAt(quit, i)
    ensures var t := Trace(s, quit);
      && |t| == PassCount(|s|) + 2
      && (forall a, b :: 1 <= a <= b < |t| - 1 ==> t[a].Progress? && t[a].value <= t[b].value)
      && (|s| >= 2 ==> t[|t| - 2] == Progress(GaugeRange))
      && t[|t| - 1] == Completed(Front(FinalBuffer(s, quit)))
  {
    if StopIndex(quit, PassCount(|s|)) < PassCount(|s|) {
      assert false;
    }
    TraceWhenCompleted(s, quit);
    FullProgressRise(|s|, Trace(s, quit), Completed(Front(FinalBuffer(s, quit))));
  }

  /** The shape of a trace made of Started, every outer iteration's progress value, and one last action. */
  lemma FullProgressRise(n: nat, t: seq<Event>, last: Event)
    requires t == [Started(n)] + ProgressEvents(n, PassCount(n)) + [last]
    ensures |t| == PassCount(n) + 2
    ensures forall a, b :: 1 <= a <= b < |t| - 1 ==> t[a].Progress? && t[a].value <= t[b].value
    ensures n >= 2 ==> t[|t| - 2] == Progress(GaugeRange)
    ensures t[|t| - 1] == last
  {
    var progress := ProgressEvents(n, PassCount(n));
    ProgressEventsRise(n, PassCount(n));
    forall a, b | 1 <= a <= b < |t| - 1
      ensures t[a].Progress? && t[a].value <= t[b].value
    {
      assert t[a] == progress[a - 1] && t[b] == progress[b - 1];
    }
  }

  /**
   * A run that never reads the quit flag set leaves the buffer a sorted
   * permutation of its input, so the element it reports is the minimum.
   */
  lemma CompletedBuffer(s: seq<int>, quit: seq<bool>)
    requires forall i :: 0 <= i < PassCount(|s|) ==> !QuitAt(quit, i)
    ensures var r := FinalBuffer(s, quit);
      && Sorted(r) && multiset(r) == multiset(s)
      && (|s| == 0 ==> Front(r) == None)
      && (|s| > 0 ==> Front(r) == Some(r[0]) && r[0] in s && forall x :: x in s ==> r[0] <= x)
  {
    var k := StopIndex(quit, PassCount(|s|));
    if k < PassCount(|s|) {
      assert false;
    }
    var r := Passes(s, k);
    PassesPermute(s, k);
    FullPassesSort(s);
    if |s| > 0 {
      SortedFrontIsMinimum(s, r);
    }
  }

  /**
   * The progress values of a run never decrease, and a run over two or more
   * elements that reaches its last outer iteration posts the full range there.
   */
  lemma ProgressEventsRise(n: nat, k: nat)
    requires k <= PassCount(n)
    ensures var p := ProgressEvents(n, k);
      && (forall a, b :: 0 <= a <= b < k ==> p[a].value <= p[b].value)
      && (k == PassCount(n) && n >= 2 ==> p[k - 1] == Progress(GaugeRange))
  {
    var p := ProgressEvents(n, k);
    forall a, b | 0 <= a <= b < k
      ensures p[a].value <= p[b].value
    {
      ProgressMonotone(a, b, n);
    }
  }
}
