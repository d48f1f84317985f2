# wx data sharing tutorial: the sorting worker and the frame lifecycle, in Dafny

The program is a small wxWidgets application. It shows a frame with a Start
button, a progress gauge and a grid that draws a shared buffer of 50000
random numbers. Start spawns a worker thread. The worker sorts the buffer in
place with a bubble sort while holding the buffer's mutex, and posts actions
back to the UI thread: a status text at the start, a progress value at each
outer iteration, and at the end either a "cancelled" or a "completed" action.
Closing the frame while the worker runs is vetoed. The close sets a quit flag
instead, and the worker reads that flag at the start of every outer
iteration. When the worker sees it, it posts the cancelled action, which
joins the thread and destroys the frame.

This project models two pieces.

**The worker**, `MyFrame::BackgroundTask`, is modelled in `sort_worker.dfy`.
- The method `SortWorker.BackgroundTask` sorts an `array<int>` in place with the
  source's two nested loops.
- It returns the actions it posts as a sequence of `Event`s:
  `Started(n)`, one `Progress(v)` per outer iteration reached, then `Cancelled`
  or `Completed(front)`.
- The quit flag's value at each outer iteration is an input sequence (`quit`).
- The method's postcondition ties the final buffer and the event sequence to
  two specification functions, `FinalBuffer` and `Trace`.
- Lemmas about those functions state the promises:
  - exactly one terminal action, and it comes last;
  - a sorted permutation after a full run, with the minimum reported;
  - the sorted suffix and the permutation after a cancelled run;
  - non-decreasing progress values, ending at the full gauge range.
- The passes themselves are functions on sequences in `bubble_passes.dfy`.
- The progress formula is in `gauge.dfy`.

**The lifecycle**, from the Start and close handlers and the two terminal
actions, is modelled in `lifecycle.dfy`.
- `Lifecycle.Frame` is a class with the frame's flags: `processing`,
  `quitRequested`, `destroyed`, `timerRunning`, whether the worker thread is
  joinable, and the gauge value.
- Each handler is a method whose postcondition is a transition function on
  `FrameState`.
- The invariant `Consistent` holds between handlers. It says:
  - a joinable worker exists exactly while processing, so there is never a
    second worker, and Start never overwrites a joinable `std::thread`;
  - the frame is never destroyed while processing;
  - the timer is off once a close was requested.
- `DeliverAll` runs a worker's whole action sequence against the frame. This
  connects the two pieces (`DeliverRun`).

One behaviour of the code as written is worth knowing, and the model keeps it.
The completed action clears `processing` but not `quitRequested`. Suppose a
close arrives after the worker's last read of the flag. The close is vetoed,
and the frame then stays open with the flag still set. The next Start then
spawns a worker that is cancelled at its first outer iteration, and that
destroys the frame. `Lifecycle.LateCloseCancelsNextRun` proves this sequence.

The source's buffer holds `float`s drawn from [0, 1). The worker only ever
compares them, so the model uses `int`.

## Model

| member | source | states |
|---|---|---|
| Gauge.ProgressAsWritten | src/main.cpp:150-151 | the posted progress value as written: a division by zero exactly when n == 2, otherwise a value within the gauge range 0..1000 |
| Gauge.ProgressValue | src/main.cpp:150-151 | the progress value with the n == 2 case mended: within 0..1000, 0 at the first iteration, exactly 1000 at the last iteration i = n - 2, and equal to the as-written value whenever that is defined |
| Gauge.ProgressMonotone | src/main.cpp:150-151 | progress values never decrease as the outer index grows |
| Gauge.TwoElementRunDividesByZero | src/main.cpp:150-151 | counterexample: for a two-element buffer the only outer iteration divides by zero as written; the mended value is the full range |
| BubblePasses.CompareSwapOrders | src/main.cpp:167-170 | one inner step leaves positions j, j+1 in order, holding the same two values as before (kept or exchanged), and changes no other position |
| BubblePasses.CompareSwapUpdates | src/main.cpp:167-170 | the inner step equals the conditional exchange of elements j and j+1 that the loop body performs |
| BubblePasses.ExchangeSwaps | src/main.cpp:169 | exchanging j and j+1 puts s[j+1] at j and s[j] at j+1 and keeps every other element |
| BubblePasses.CompareSwapPermutesPrefix | src/main.cpp:167-170 | an inner step only rearranges the elements up to j+1 among themselves |
| BubblePasses.BubbleToBubblesMax | src/main.cpp:165-171 | after the inner loop has run up to m, position m holds the largest of the first m+1 elements and nothing beyond m has moved |
| BubblePasses.BubbleToPermutesPrefix | src/main.cpp:165-171 | the inner loop up to m permutes the first m+1 elements among themselves |
| BubblePasses.BubbleToPermutes | src/main.cpp:165-171 | one whole inner pass keeps the buffer a permutation of its contents |
| BubblePasses.PassesPermute | src/main.cpp:148-172 | any number of outer passes keeps the buffer a permutation of the initial buffer |
| BubblePasses.PassExtendsSortedSuffix | src/main.cpp:148-171 | if the last k-1 positions hold the k-1 largest elements in order, one more pass makes that true of the last k |
| BubblePasses.PassesSortSuffix | src/main.cpp:148-172 | after k passes the last k positions are sorted and none is smaller than any element before them |
| BubblePasses.FullPassesSort | src/main.cpp:148-172 | after all n-1 outer iterations the buffer is sorted in non-decreasing order |
| BubblePasses.SortedSuffixAll | src/main.cpp:148 | a sorted suffix covering all but the first position makes the whole buffer sorted |
| BubblePasses.SortedFrontIsMinimum | src/main.cpp:179 | the first element of a sorted permutation of s occurs in s and is no greater than any element of s |
| SortWorker.StopIndex | src/main.cpp:153-162 | the outer iteration at which the worker returns: the first one whose quit read is set, and no read before it is set; the iteration count if none is |
| SortWorker.ProgressEvents | src/main.cpp:150-151 | the first k progress actions: exactly k of them, the i-th carrying the progress value of iteration i |
| SortWorker.StopIndexStep | src/main.cpp:153-162 | an iteration that reads the flag clear is followed by another iteration the run reaches |
| SortWorker.BackgroundTask | src/main.cpp:136-185 | the final buffer is the input after the passes run before the quit flag is first read set; the posted actions are exactly the run's trace; the buffer stays a permutation of the input, and is sorted whenever the run completes |
| SortWorker.BubblePass | src/main.cpp:164-171 | the inner loop under the lock turns the buffer into the inner pass up to m of the old buffer |
| SortWorker.TraceWhenCancelled | src/main.cpp:153-162 | a run that reads the flag set at iteration k stops there: its trace is Started, k+1 progress actions, Cancelled, and its buffer has had k passes |
| SortWorker.TraceWhenCompleted | src/main.cpp:148-185 | a run that never reads the flag set posts Started, n-1 progress actions and Completed with the front of the fully passed buffer |
| SortWorker.TraceShape | src/main.cpp:141-185 | every run posts Started first, exactly one terminal action (cancelled or completed), and that action is the last one |
| SortWorker.CancelledRun | src/main.cpp:153-162 | a run ends Cancelled if and only if the flag is read set at an iteration it reaches; then k+1 progress values were posted, exactly k passes applied, and the buffer is a permutation whose last k positions hold its k largest elements in order |
| SortWorker.CompletedRun | src/main.cpp:177-184 | a run ends Completed if and only if the flag is never read set at the iterations it reaches |
| SortWorker.CompletedTrace | src/main.cpp:148-184 | a completed run posts n-1 progress values in non-decreasing order, the last of them the full range when n >= 2, and then Completed carrying the final buffer's front |
| SortWorker.FullProgressRise | src/main.cpp:148-151 | a trace of Started, every iteration's progress value and one last action has n+1 elements (for n > 0), rising progress values, and ends at the full range before the last action |
| SortWorker.CompletedBuffer | src/main.cpp:148-184 | a completed run leaves a sorted permutation of its input, and the front it reports is the minimum of the input (none for an empty buffer) |
| SortWorker.ProgressEventsRise | src/main.cpp:150-151 | the posted progress values are non-decreasing, and the one at the last iteration is the full range |
| Lifecycle.ClickStartsOneWorker | src/main.cpp:97-107 | Start while processing changes nothing; Start while idle sets processing and spawns a worker onto a thread that is not joinable; nothing else changes and the invariant holds |
| Lifecycle.CloseVetoesWhileProcessing | src/main.cpp:109-122 | close always stops the timer; while processing it is vetoed, quitRequested is set and the frame survives; otherwise the frame is destroyed; the invariant holds |
| Lifecycle.TerminalActionsJoin | src/main.cpp:155-184 | the terminal actions join a joinable worker; cancelled clears both flags and destroys; completed clears processing only, keeping quitRequested, and does not destroy |
| Lifecycle.DeliverProgress | src/main.cpp:150-151 | running Started and the first k progress actions leaves the gauge at the last value posted |
| Lifecycle.DeliverRun | src/main.cpp:141-184 | after a run's actions are delivered the worker is joined and processing clear; a cancelled run destroys the frame and clears quitRequested; a completed run leaves it open, keeps quitRequested, and leaves the gauge full |
| Lifecycle.LateCloseCancelsNextRun | src/main.cpp:153-184 | a close after the worker's last flag read is vetoed but leaves quitRequested set; the next Start's run is cancelled at once and destroys the frame |
| Lifecycle.Frame.constructor | src/main.cpp:56-95 | the frame starts idle, not destroyed, with no worker and the refresh timer running |
| Lifecycle.Frame.OnButtonClick | src/main.cpp:97-107 | spawns a worker exactly when idle; the new state is the Start transition of the old one |
| Lifecycle.Frame.OnClose | src/main.cpp:109-122 | vetoes exactly when processing; the new state is the close transition of the old one |
| Lifecycle.Frame.OnProgress | src/main.cpp:150-151 | sets the gauge to the posted value |
| Lifecycle.Frame.OnCancelled | src/main.cpp:155-160 | joins the worker, clears processing and quitRequested, destroys the frame |
| Lifecycle.Frame.OnCompleted | src/main.cpp:177-184 | joins the worker and clears processing; quitRequested is unchanged |

## Left out

- The wxWidgets construction of the frame, sizers, button, gauge and grid (src/main.cpp:56-95) is left out because it is foreign library calls. The model keeps only the fields' initial values and the timer start.
- Threads, the mutex, the atomic flag and `CallAfter` are modelled as sequential steps. The worker's reads of `quitRequested` are the input `quit`, and the actions it posts are its returned events. `Lifecycle.DeliverAll` runs those events on the UI thread in order. The interleaving of UI events with the worker is not modelled.
- `RandomizeSharedData` (src/main.cpp:124-134) is left out because it uses a random generator. The initial buffer is an arbitrary input of any length, not only 50000.
- The elapsed-time measurement and its formatting (src/main.cpp:146, 174-180) are left out because they depend on the clock and on floating-point output. The same holds for the status-bar texts and the `std::cout` lines. `Started` and the front value are the only parts of them kept.
- The buffer holds `float`s in the source and `int` in the model. Only comparisons are made, and NaN cannot arise from the [0, 1) distribution.
- Gauge.ProgressValue: the 32-bit `int` product `i * 1000` is computed without overflow. It would overflow only for buffers over about 2.1 million elements, and the program's buffer has 50000.
- SortWorker.BackgroundTask: for an empty buffer, `front()` is undefined behaviour. The model reports `Completed(None)` there.
- Lifecycle.Frame.OnCancelled: the action is required to arrive while `quitRequested` is set. The worker posts it only after reading the flag set, and only this action clears the flag.
- Lifecycle.Frame.OnProgress: it requires a value within the gauge's range, which is what the worker posts.
- The grid's refresh timer handler and paint code (src/visualgrid.cpp, src/visualgrid.h) are left out because they are drawing code. src/example.cpp is left out because it is a free-running threading demo.

## Findings

| source | as written | input that shows it | evidently intended | confidence | as-written member | corrected member |
|---|---|---|---|---|---|---|
| src/main.cpp:150-151 | the progress action divides `i * GetRange()` by `n - 2` | a buffer of 2 elements: its only outer iteration, i = 0, divides by zero | the last outer iteration (i = n - 2) reports the full range, so a two-element run should report 1000 | low (the program's buffer always has 50000 elements); not executed | Gauge.ProgressAsWritten, Gauge.TwoElementRunDividesByZero | Gauge.ProgressValue |
