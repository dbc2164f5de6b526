# Serial-port fan-out: sliding-window filters and the reader's registry

This project models the sequential core of a program that reads fixed-size text frames
from a serial port and hands each timestamped reading to a set of registered analyzers.
Two analyzers exist, and both keep a trailing window of `2k+1` samples. `MedianFilter`
reduces the window to a median. `MovingAverageFilter` reduces it to an arithmetic mean.

- `records.dfy` (`Records`): the values that flow through the program. A `Reading` is a
  `(time_t, string)` pair. A `Sample` is a `(time_t, double)` pair. `Sentinel` is `(-1, 0)`.
  `IsControl` tests for the three control strings `ERROR`, `CLOSED` and `INITIALIZING`.
- `median.dfy` (`Median`): the median exactly as `MedianFilter::processData` computes it.
  The window's values go into a `std::set<double>`, which is ascending and drops duplicates.
  The element at index `width/2` of that set is the result. `SetMedian` returns `None` when
  the set has `width/2` elements or fewer. In the source the iterator then steps past the
  set's end, which is undefined behaviour. The model exposes this case; it does not fix it.
- `mean.dfy` (`Mean`): the front-to-back sum and the division by the width.
- `filter_window.dfy` (`FilterWindow`): the state machine that both `fetchNewData` copies
  implement, as the function `Step`, with `Run` for a sequence of calls. `Inv` is the
  invariant that holds between calls. The lemmas state what the source promises, once for
  either reducer.
- `median_filter.dfy`, `moving_average_filter.dfy`: the two analyzers as classes. Their
  fields are the source's fields. `FetchNewData` and `ProcessData` update those fields in
  place, and each `FetchNewData` is proved to perform exactly one `FilterWindow.Step`.
- `serial.dfy` (`Serial`): the reader as a class with `active`, `lastReading` and
  `registered`. It covers registration with its duplicate scan, deregistration with the
  erase-remove idiom, one iteration of `doReading` (`ReadStep`), the loop over a given
  sequence of read outcomes (`DoReading`), `getData`, and the destructor's CLOSED broadcast
  (`Close`).

Sample values are `real`. `std::stod` is a parameter `parse: string -> Option<real>`, and
`None` stands for the exception it throws. `std::time(nullptr)` becomes an input `now`, or
one entry of `clock`. A `ReadFile` call becomes a `ReadOutcome` input. Analyzer pointers are
opaque `nat` identities, and a null pointer is `None`.

Points where the code behaves in a way a reader might not expect, all kept in the model:
- The median is not the middle of the window sorted with duplicates. `processData` indexes
  the set of distinct values (`Median.MedianSkipsDuplicates`: `[1,1,2,3,4]` gives 3, not 2;
  `Median.MedianPastEnd`: `[1,1,1]` has no element at index 1).
- The registry is a vector kept in insertion order, and the CLOSED broadcast follows that
  order.
- `filterWindowWidth` is `unsigned int`, so `2k+1` is computed modulo 2^32
  (`FilterWindow.Width`).
- The constructors leave `currentRawValue` and `currentProcessedValue` value-initialised to
  `(0, 0)`, not to the sentinel (`FilterWindow.Initial`). The getters still return the
  sentinel, because both flags are false.

## Model

| member | source | states |
|---|---|---|
| `Records.IsControl` | MedianFilter.cpp:50 | The three control texts, `ERROR`, `CLOSED` and `INITIALIZING`, that reset a filter (same test at MovingAverageFilter.cpp:50); the reset itself is stated by `FilterWindow.ControlClears` |
| `FilterWindow.Inserted` | MedianFilter.cpp:75-86 | The window after a parsed sample: for a window of at most `width` samples it is `min(n+1, width)` long, the sample is at index 0, and behind it the old window without its oldest element when that was full |
| `FilterWindow.Process` | MedianFilter.cpp:94-107 | `processData` on a full window: stamped with the timestamp of element `width/2`; always defined for the mean (MovingAverageFilter.cpp:95-107), defined for the median exactly when the window holds more than `width/2` distinct values |
| `FilterWindow.Run` | MedianFilter.cpp:48-92 | `fetchNewData` applied to each reading in turn, undefined from the first undefined step on; its properties are `RunKeepsInv`, `MeanRunDefined`, `ProcessedLegitUntilReset`, `FillFromEmpty` and `CenterLag` |
| `FilterWindow.FullWindowSum` | MovingAverageFilter.cpp:75-79 | On a full window, the window that `processData` re-sums after a parsed sample has the old sum plus the new value minus the evicted oldest value |
| `FilterWindow.Step` | MedianFilter.cpp:48-92 | One `fetchNewData` call. With the mean reducer it is always defined. It preserves `Inv`: the window holds at most `width` samples, `rawLegit` holds iff the window is non-empty and then `currentRaw` is the front element, `processedLegit` holds iff the window is full and then `currentProcessed` is what `processData` gives (the code at MovingAverageFilter.cpp:49-93 is the same) |
| `FilterWindow.Width` | MedianFilter.cpp:16 | `2*filterWindow+1` in 32-bit unsigned arithmetic is always odd, its half is the radius modulo 2^31, and it equals `2k+1` for radii below 2^31 |
| `FilterWindow.ControlClears` | MedianFilter.cpp:50-61 | `ERROR`, `CLOSED` or `INITIALIZING` clears both flags, empties the window and sets both current values to `(-1,0)`, whatever the prior state (same code at MovingAverageFilter.cpp:50-61) |
| `FilterWindow.UnparsedUnchanged` | MedianFilter.cpp:64-66 | A text that `stod` rejects leaves the window, both current values and both flags unchanged (the catch at 88-90; same at MovingAverageFilter.cpp:64-66, 88-90) |
| `FilterWindow.ParsedSampleInserted` | MedianFilter.cpp:68-86 | A parsed sample becomes `currentRaw`, sets `rawLegit` and is inserted at index 0. The rest of the window is the old window, without its last (oldest) element when it was already full |
| `FilterWindow.ProcessedLegitFlips` | MedianFilter.cpp:75-86 | `processedLegit` is switched on only by the insertion that brings the window to full width. It stays on for further samples, and a window below full width never has it |
| `FilterWindow.ProcessedIsCentered` | MedianFilter.cpp:105 | A legitimate processed value carries the timestamp of window element `width/2`. Its value is the set median (median filter) or sum/width (MovingAverageFilter.cpp:96-105) |
| `FilterWindow.MedianUndefinedExactly` | MedianFilter.cpp:95-103 | The median filter's step is undefined exactly when a parsed sample leaves a full window with at most `width/2` distinct values |
| `FilterWindow.RunKeepsInv` | MedianFilter.cpp:75-86 | After any sequence of `fetchNewData` calls the invariant holds, so the window size is at most `2k+1` (also MovingAverageFilter.cpp:75-86) |
| `FilterWindow.MeanRunDefined` | MovingAverageFilter.cpp:95-107 | The moving-average filter is defined on every sequence of readings |
| `FilterWindow.ProcessedLegitUntilReset` | MedianFilter.cpp:52-53 | Once set, `processedLegit` stays true across any sequence of readings that contains no control string |
| `FilterWindow.NumericStep` | MedianFilter.cpp:68-86 | A numeric reading on a state satisfying the invariant grows the window by one up to `width`, sets `rawLegit`, and leaves `processedLegit` true exactly when the window was at least `width - 1` long |
| `FilterWindow.InsertedNewest` | MovingAverageFilter.cpp:75-86 | Pushing the newest reading's sample onto a window of the newest samples before it, and dropping the oldest when full, gives the newest `min(n, width)` samples of all `n` readings |
| `FilterWindow.CenteredNewest` | MovingAverageFilter.cpp:105 | A full window of the newest samples is legitimate, and its processed value carries the timestamp of the reading `width/2` places before the newest |
| `FilterWindow.FillFromEmpty` | MovingAverageFilter.cpp:75-86 | Starting from an empty window, `n` numeric readings leave the newest `min(n, width)` samples in the window, newest first. `rawLegit` becomes true iff `n > 0`, and `processedLegit` iff `n >= width` |
| `FilterWindow.CenterLag` | MovingAverageFilter.cpp:105 | Once `width` samples have arrived after an empty window, the processed timestamp is that of the sample `width/2` insertions before the newest one |
| `Median.SetMedian` | MedianFilter.cpp:103 | `*std::next(begin, width/2)` on the set of the window's values; when defined it is one of the window's values (characterised further by `SetMedianDefined` and `SetMedianRank`) |
| `Median.Insert` | MedianFilter.cpp:99-101 | `std::set::insert` keeps the sequence strictly ascending, and its elements are the old elements plus the new value |
| `Median.DistinctSorted` | MedianFilter.cpp:95-101 | Filling the set from the window gives a strictly ascending sequence whose elements are exactly the window's values |
| `Median.SortedSetUnique` | MedianFilter.cpp:95 | Two strictly ascending sequences with the same elements are equal, so the set's iteration order is determined by its contents |
| `Median.SetMedianDefined` | MedianFilter.cpp:103 | `*std::next(begin, k)` is defined iff the window holds more than `k` distinct values |
| `Median.SetMedianRank` | MedianFilter.cpp:103 | When defined, the result is a window value with exactly `k` distinct window values below it |
| `Median.SetMedianOfDistinct` | MedianFilter.cpp:103 | With `2k+1` distinct values the result is always defined, and `k` distinct values lie below it and `k` above it |
| `Median.IncreasingCard` | MedianFilter.cpp:95 | A std::set of `n` elements iterates over `n` distinct values |
| `Median.MedianOfThree` | MedianFilter.cpp:103 | Window `[5,1,3]` with radius 1 gives 3 |
| `Median.MedianPastEnd` | MedianFilter.cpp:103 | Window `[1,1,1]` with radius 1 has no defined median: the index steps past the set `{1}` |
| `Median.MedianSkipsDuplicates` | MedianFilter.cpp:95-103 | Window `[1,1,2,3,4]` with radius 2 gives 3, not the sorted-with-duplicates middle value 2 |
| `Mean.Sum` | MovingAverageFilter.cpp:96-100 | The accumulator of the summing loop after the whole window; `SumAppend`, `SumBounds` and `SlidingSum` state its properties |
| `Mean.Average` | MovingAverageFilter.cpp:102 | The sum divided by the width: multiplying the result by the width gives back the sum |
| `Mean.SumAppend` | MovingAverageFilter.cpp:98-100 | The accumulating sum over two concatenated parts is the sum of their sums |
| `Mean.SlidingSum` | MovingAverageFilter.cpp:75-79 | Putting a value in front of the kept values and dropping the last one changes the sum by the new value minus the dropped one (used by `FilterWindow.FullWindowSum`) |
| `Mean.SumBounds` | MovingAverageFilter.cpp:96-100 | Values in `[lo, hi]` have a sum between `n*lo` and `n*hi` |
| `Mean.AverageWithinBounds` | MovingAverageFilter.cpp:102 | The mean of a full window lies between any lower and upper bound of its values |
| `Mean.AverageOfConstant` | MovingAverageFilter.cpp:102 | A window of equal values has that value as its mean |
| `Mean.AverageOfThree` | MovingAverageFilter.cpp:102 | Window `[5,1,3]` has mean 3.0 |
| `MedianFilter.MedianFilter.constructor` | MedianFilter.cpp:12-30 | Both flags start false, the width is `2*filterWindow+1`, and the invariant holds |
| `MedianFilter.MedianFilter.GetRawData` | MedianFilter.cpp:36-40 | Returns `(-1,0)` when `rawLegit` is false. Otherwise returns the window's front element (MedianFilter.h:59-61) |
| `MedianFilter.MedianFilter.GetProcessedData` | MedianFilter.cpp:42-46 | Returns `(-1,0)` when `processedLegit` is false. Otherwise returns the set median of the full window, stamped with element `width/2`'s timestamp |
| `MedianFilter.MedianFilter.ProcessData` | MedianFilter.cpp:94-107 | The loop that fills the set, then the pick at index `width/2`. It sets `currentProcessed` to `Process(window)` when defined, and reports undefinedness otherwise |
| `MedianFilter.MedianFilter.FetchNewData` | MedianFilter.cpp:48-92 | Performs exactly `FilterWindow.Step` on the fields and keeps `Valid()`. Reports when the source's behaviour is undefined |
| `MovingAverageFilter.MovingAverageFilter.constructor` | MovingAverageFilter.cpp:11-29 | Both flags start false, the width is `2*filterWindow+1`, and the invariant holds |
| `MovingAverageFilter.MovingAverageFilter.GetRawData` | MovingAverageFilter.cpp:36-40 | Returns `(-1,0)` when `rawLegit` is false. Otherwise returns the window's front element (MovingAverageFilter.h:60-62) |
| `MovingAverageFilter.MovingAverageFilter.GetProcessedData` | MovingAverageFilter.cpp:42-46 | Returns `(-1,0)` when `processedLegit` is false. Otherwise returns sum/width of the full window, stamped with element `width/2`'s timestamp |
| `MovingAverageFilter.MovingAverageFilter.ProcessData` | MovingAverageFilter.cpp:95-107 | The summing loop, then the division by the width. Sets `currentProcessed` to `Process(window)` |
| `MovingAverageFilter.MovingAverageFilter.FetchNewData` | MovingAverageFilter.cpp:49-93 | Performs exactly `FilterWindow.Step` on the fields, which is always defined here, and keeps `Valid()` |
| `Serial.Serial.constructor` | Serial.cpp:6-78 | `lastReading` starts as `(-1,"INITIALIZING")` and the registry starts empty. The reader is active only when the port was opened and configured (line 67) |
| `Serial.Serial.GetData` | Serial.cpp:115-120 | Returns `lastReading` and changes nothing |
| `Serial.Serial.RegisterDataAnalyzer` | Serial.cpp:122-145 | Fails and leaves the registry unchanged when the handle is null, the reader is inactive, or the handle is already registered. Otherwise appends the handle at the end and returns true. The registry never holds duplicates |
| `Serial.Serial.DeregisterDataAnalyzer` | Serial.cpp:147-153 | The registry becomes `Without(old registry, handle)`, and it still holds no duplicates |
| `Serial.Without` | Serial.cpp:150-152 | `erase(remove(begin, end, h), end)`: the registry with every `h` removed, no longer than before and without `h` (order and counts in `WithoutMultiset` and `WithoutAppend`) |
| `Serial.WithoutMultiset` | Serial.cpp:150-152 | Every occurrence of the handle goes, and each other handle remains as often as before |
| `Serial.WithoutMembers` | Serial.cpp:150-152 | A handle remains iff it was registered and is not the one removed |
| `Serial.WithoutAbsent` | Serial.cpp:150-152 | Deregistering an absent handle does nothing |
| `Serial.WithoutIdempotent` | Serial.cpp:147-153 | Deregistering twice is the same as deregistering once |
| `Serial.WithoutAppend` | Serial.cpp:150-152 | Removal works piecewise over a concatenation, so the remaining handles keep their relative order |
| `Serial.RegisterThenDeregister` | Serial.cpp:139 | Registering a new handle and then deregistering it restores the registry |
| `Serial.WithoutNoDuplicates` | Serial.cpp:147-153 | Deregistration keeps the registry free of duplicates |
| `Serial.ReadOnce` | Serial.cpp:186-216 | After one loop body the reader is active iff it was active and the read returned exactly `nbOfCharsRead` bytes. It then publishes `(now, text)`. Otherwise it publishes `(-1,"ERROR")` |
| `Serial.Serial.ReadStep` | Serial.cpp:182-216 | One iteration of the reading loop, run only while active, is exactly `ReadOnce` |
| `Serial.Serial.DoReading` | Serial.cpp:174-220 | The loop over the given outcomes is `RunReader`, which stops at the first inactive state |
| `Serial.RunReader` | Serial.cpp:180-218 | `doReading`'s loop over a sequence of read outcomes, stopping once the reader is inactive; it never turns an inactive reader active (further in `NeverReactivated`, `FullReadsPublish`, `FailureIsTerminal`) |
| `Serial.NeverReactivated` | Serial.cpp:180 | An inactive reader stays as it is, whatever the port does next |
| `Serial.FullReadsPublish` | Serial.cpp:190-194 | While every read fills the frame, the reader stays active and publishes the last frame with its time |
| `Serial.FailureIsTerminal` | Serial.cpp:195-216 | The first short or failed read leaves the reader inactive with `(-1,"ERROR")`, whatever follows |
| `Serial.Serial.Close` | Serial.cpp:80-95 | The reader becomes inactive. Then every registered handle, in registry order, receives `(-1,"CLOSED")`; since the registry holds no duplicates (`Valid()`, required and kept) each handle receives it exactly once |

## Left out

- Threads, mutexes and the condition variable are not modelled. This covers `sendDataToAnalyzers` (Serial.cpp:155-172), the thread start (71-72), `notify_all` and the joins (97-100). Their purpose is concurrency. The dispatcher's delivery of each new reading to every analyzer is therefore not modelled either; `Serial.Serial.Close` models the one direct broadcast.
- The unlocked flag writes in the reset branch (MedianFilter.cpp:52-53) race with the getters. The model is sequential and does not capture that race.
- Win32 port handling is not modelled: `CreateFile`, `GetCommState`/`SetCommState`, `PurgeComm`, `ClearCommError`, `ReadFile` and `CloseHandle`. These are foreign I/O calls. Their results are the constructor's `portOpened` and the `ReadOutcome` inputs.
- `std::string(charBuffer)` builds the text from a buffer that is not NUL-terminated. The model takes the frame's text as given.
- `std::stod` and IEEE `double` arithmetic are not modelled. Parsing is an abstract function, and values are exact reals.
- `std::time(nullptr)` is an input (`now`, or `clock`).
- All `std::cout` diagnostics are left out, including the "registering failed" message in the filter constructors.
- Registration of an analyzer from its own constructor, and deregistration from its destructor, go through `SerialPortDataAnalyzer` (a one-line delegation to `Serial::registerDataAnalyzer`/`deregisterDataAnalyzer`). They are modelled only as those two `Serial` methods. Analyzer objects and the reader are not linked by reference, and `shared_ptr` ownership is not modelled.
- `Serial.Serial.DoReading`: the source loops until the reader becomes inactive. The model runs over a finite sequence of outcomes, so it also stops when that sequence ends.
- `Serial.Serial.Close`: the CLOSED deliveries are returned as a list of `(handle, reading)` pairs, not performed as calls into the analyzers. Closing the port handle and freeing the buffer after the joins are left out.
- `Serial::IsConnected` (which returns `readerActive`) and `main.cpp`'s polling and file output are I/O glue and are not modelled.
- When the open fails, the source never assigns `readerActive`. The model reads it as false.
- `MedianFilter.MedianFilter.FetchNewData`: when the median is undefined (`defined == false`), the source dereferences an end iterator. The model promises nothing about the state after that call.
