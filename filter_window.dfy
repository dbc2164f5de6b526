/** The sliding-window state machine that MedianFilter and MovingAverageFilter each
    implement (two copies of the same fetchNewData, differing only in processData).
    Step is one fetchNewData call on the filter's state; the two filter classes are
    proved to perform exactly Step, and what the source promises about the state
    machine is proved here once, for either reducer. */
module FilterWindow {
  import opened Records
  import Median
  import Mean

  /** The processData of the two filters. */
  datatype Reducer = MedianReducer | MeanReducer

  /** The fields fetchNewData reads and writes: valuesInFilterWindow (newest first),
      rawValueLegit, processedValueLegit, currentRawValue, currentProcessedValue. */
  datatype FilterState = FilterState(
    window: seq<Sample>,
    rawLegit: bool,
    processedLegit: bool,
    currentRaw: Sample,
    currentProcessed: Sample)

  const UIntRange: nat := 0x1_0000_0000

  /** filterWindowWidth = 2*filterWindow + 1 in unsigned int arithmetic: always odd,
      and the middle index width/2 is the radius (modulo 2^31). */
  function Width(k: nat): (w: nat)
    requires k < UIntRange
    ensures w % 2 == 1
    ensures w / 2 == k % 0x8000_0000
    ensures k < 0x8000_0000 ==> w == 2 * k + 1
  {
    if 2 * k + 1 < UIntRange then 2 * k + 1 else 2 * k + 1 - UIntRange
  }

  /** The reducer's value over the window's values; None where the source's median
      dereferences the set's end iterator. */
  function Reduce(red: Reducer, vs: seq<real>, width: nat): Option<real>
    requires width > 0
  {
    match red
    case MedianReducer => Median.SetMedian(vs, width / 2)
    case MeanReducer => Some(Mean.Average(vs, width))
  }

  /** processData on a full window: the reduced value, stamped with the timestamp of
      the middle element (the output lags the newest sample by width/2 samples). */
  function Process(window: seq<Sample>, width: nat, red: Reducer): (r: Option<Sample>)
    requires 0 < width == |window|
    ensures red == MeanReducer ==> r.Some?
    ensures r.Some? ==> r.value.timestamp == window[width / 2].timestamp
    ensures red == MedianReducer ==> (r.Some? <==> width / 2 < |Median.Elems(Values(window))|)
  {
    Median.SetMedianDefined(Values(window), width / 2);
    match Reduce(red, Values(window), width)
    case None => None
    case Some(v) => Some(Sample(window[width / 2].timestamp, v))
  }

  /** The state the control-string branch leaves behind. */
  const Cleared := FilterState([], false, false, Sentinel, Sentinel)

  /** The state after construction: both flags false, the window empty and the
      current values value-initialised pairs (0, 0). */
  const Initial := FilterState([], false, false, Sample(0, 0.0), Sample(0, 0.0))

  /** What holds between calls: the window never exceeds its width, rawLegit means the
      window is non-empty and currentRaw is its front, processedLegit means the window is
      full and currentProcessed is what processData computes from it. */
  ghost predicate Inv(st: FilterState, width: nat, red: Reducer)
  {
    && width > 0
    && |st.window| <= width
    && (st.rawLegit <==> st.window != [])
    && (st.rawLegit ==> st.currentRaw == st.window[0])
    && (st.processedLegit <==> |st.window| == width)
    && (st.processedLegit ==> Process(st.window, width, red) == Some(st.currentProcessed))
  }

  /** One fetchNewData(data) call. None: processData stepped past the end of the set
      (undefined behaviour of the median filter); nothing is known of the state then. */
  function Step(st: FilterState, data: Reading, parse: string -> Option<real>, width: nat, red: Reducer): (r: Option<FilterState>)
    requires width > 0
    ensures red == MeanReducer ==> r.Some?
    ensures Inv(st, width, red) && r.Some? ==> Inv(r.value, width, red)
  {
    if IsControl(data.text) then Some(Cleared)
    else
      match parse(data.text)
      case None => Some(st)
      case Some(v) =>
        var s := Sample(data.timestamp, v);
        if |st.window| == width then
          var w := ([s] + st.window)[..width];
          match Process(w, width, red)
          case None => None
          case Some(p) => Some(FilterState(w, true, st.processedLegit, s, p))
        else
          var w := [s] + st.window;
          if |w| == width then
            match Process(w, width, red)
            case None => None
            case Some(p) => Some(FilterState(w, true, true, s, p))
          else
            Some(FilterState(w, true, st.processedLegit, s, st.currentProcessed))
  }

  /** The window after a parsed sample: inserted at the front, the oldest element
      dropped when the window was already full. */
  function Inserted(window: seq<Sample>, s: Sample, width: nat): (r: seq<Sample>)
    ensures 0 < width && |window| <= width ==>
      && |r| == Min(|window| + 1, width)
      && r[0] == s
      && r[1..] == window[..|r| - 1]
  {
    if |window| == width then ([s] + window)[..width] else [s] + window
  }

  /** fetchNewData called on each reading of rs in turn. */
  function Run(st: FilterState, rs: seq<Reading>, parse: string -> Option<real>, width: nat, red: Reducer): Option<FilterState>
    requires width > 0
    decreases |rs|
  {
    if rs == [] then Some(st)
    else
      match Run(st, rs[..|rs| - 1], parse, width, red)
      case None => None
      case Some(s) => Step(s, rs[|rs| - 1], parse, width, red)
  }

  /** Every reading of rs is a number the parser accepts. */
  predicate AllNumeric(rs: seq<Reading>, parse: string -> Option<real>)
  {
    forall i :: 0 <= i < |rs| ==> !IsControl(rs[i].text) && parse(rs[i].text).Some?
  }

  /** No reading of rs is a control string. */
  predicate NoControl(rs: seq<Reading>)
  {
    forall i :: 0 <= i < |rs| ==> !IsControl(rs[i].text)
  }

  /** The sample a numeric reading becomes; only used for readings the parser accepts
      (for any other text the value 0 stands in). */
  function SampleOf(r: Reading, parse: string -> Option<real>): Sample
  {
    match parse(r.text)
    case Some(v) => Sample(r.timestamp, v)
    case None => Sample(r.timestamp, 0.0)
  }

  /** The samples of the newest m readings of rs, newest first: element j is the sample
      of the reading j places before the newest. */
  function Newest(rs: seq<Reading>, parse: string -> Option<real>, m: nat): (w: seq<Sample>)
    requires m <= |rs|
    ensures |w| == m
    ensures forall j :: 0 <= j < m ==> w[j] == SampleOf(rs[|rs| - 1 - j], parse)
  {
    seq(m, j requires 0 <= j < m => SampleOf(rs[|rs| - 1 - j], parse))
  }

  function Min(a: nat, b: nat): nat
  {
    if a < b then a else b
  }

  /** A control string clears the filter whatever its prior state: both flags false,
      the window empty, both current values the sentinel. */
  lemma ControlClears(st: FilterState, data: Reading, parse: string -> Option<real>, width: nat, red: Reducer)
    requires width > 0 && IsControl(data.text)
    ensures var r := Step(st, data, parse, width, red);
      && r.Some? && r.value.window == []
      && !r.value.rawLegit && !r.value.processedLegit
      && r.value.currentRaw == Sentinel && r.value.currentProcessed == Sentinel
  {
  }

  /** A text the parser rejects is dropped: the state does not change at all. */
  lemma UnparsedUnchanged(st: FilterState, data: Reading, parse: string -> Option<real>, width: nat, red: Reducer)
    requires width > 0 && !IsControl(data.text) && parse(data.text).None?
    ensures Step(st, data, parse, width, red) == Some(st)
  {
  }

  /** A parsed sample becomes currentRaw and the window's front element, rawLegit is set,
      and the rest of the window is the old window, without its oldest element if it
      was already full. */
  lemma ParsedSampleInserted(st: FilterState, data: Reading, parse: string -> Option<real>, width: nat, red: Reducer)
    requires width > 0 && !IsControl(data.text) && parse(data.text).Some?
    requires Step(st, data, parse, width, red).Some?
    ensures var r := Step(st, data, parse, width, red).value;
      var s := SampleOf(data, parse);
      && r.rawLegit && r.currentRaw == s
      && r.window == Inserted(st.window, s, width)
      && r.window[0] == s
      && r.window[1..] == (if |st.window| == width then st.window[..width - 1] else st.window)
  {
    var s := SampleOf(data, parse);
    var r := Step(st, data, parse, width, red).value;
    assert s == Sample(data.timestamp, parse(data.text).value);
    if |st.window| == width {
      assert r.window == ([s] + st.window)[..width];
      FrontTake(s, st.window, width);
    } else {
      assert r.window == [s] + st.window;
    }
  }

  /** Pushing an element to the front and keeping the first n keeps the first n - 1 behind it. */
  lemma FrontTake<T>(x: T, w: seq<T>, n: nat)
    requires 0 < n <= |w|
    ensures ([x] + w)[..n] == [x] + w[..n - 1]
  {
  }

  /** On a full window, the window processData re-sums after a parsed sample has the old
      window's sum plus the new value minus the value of the evicted oldest sample. */
  lemma FullWindowSum(st: FilterState, data: Reading, parse: string -> Option<real>, width: nat, red: Reducer)
    requires width > 0 && |st.window| == width
    requires !IsControl(data.text) && parse(data.text).Some?
    requires Step(st, data, parse, width, red).Some?
    ensures Mean.Sum(Values(Step(st, data, parse, width, red).value.window))
      == Mean.Sum(Values(st.window)) + parse(data.text).value - st.window[width - 1].value
  {
    ParsedSampleInserted(st, data, parse, width, red);
    FullInserted(st.window, SampleOf(data, parse));
    SlidingValues(st.window, SampleOf(data, parse));
  }

  /** Inserting into a full window pushes to the front and drops the last element. */
  lemma FullInserted(w: seq<Sample>, s: Sample)
    requires |w| > 0
    ensures Inserted(w, s, |w|) == [s] + w[..|w| - 1]
  {
  }

  /** The sum of a window slid by one sample, in terms of the sum before. */
  lemma SlidingValues(w: seq<Sample>, s: Sample)
    requires |w| > 0
    ensures Mean.Sum(Values([s] + w[..|w| - 1])) == Mean.Sum(Values(w)) + s.value - w[|w| - 1].value
  {
    var kept := Values(w[..|w| - 1]);
    assert Values([s] + w[..|w| - 1]) == [s.value] + kept;
    assert Values(w) == kept + [w[|w| - 1].value];
    Mean.SlidingSum(kept, s.value, w[|w| - 1].value);
  }

  /** processedLegit is switched on only by the insertion that makes the window full,
      stays on for every further sample, and a window below full width never has it. */
  lemma ProcessedLegitFlips(st: FilterState, data: Reading, parse: string -> Option<real>, width: nat, red: Reducer)
    requires Inv(st, width, red)
    requires Step(st, data, parse, width, red).Some?
    ensures var r := Step(st, data, parse, width, red).value;
      && (!st.processedLegit && r.processedLegit ==>
            !IsControl(data.text) && |st.window| + 1 == width && |r.window| == width)
      && (st.processedLegit && !IsControl(data.text) ==> r.processedLegit)
      && (|r.window| < width ==> !r.processedLegit)
  {
  }

  /** A legitimate processed value is the reducer's result over the full window, stamped
      with the timestamp of window element width/2. */
  lemma ProcessedIsCentered(st: FilterState, width: nat, red: Reducer)
    requires Inv(st, width, red) && st.processedLegit
    ensures |st.window| == width
    ensures st.currentProcessed.timestamp == st.window[width / 2].timestamp
    ensures red == MeanReducer ==> st.currentProcessed.value == Mean.Average(Values(st.window), width)
    ensures red == MedianReducer ==> Median.SetMedian(Values(st.window), width / 2) == Some(st.currentProcessed.value)
  {
  }

  /** The median filter's fetchNewData is undefined exactly when a parsed sample leaves a
      full window holding no more than width/2 distinct values. */
  lemma MedianUndefinedExactly(st: FilterState, data: Reading, parse: string -> Option<real>, width: nat)
    requires width > 0
    ensures Step(st, data, parse, width, MedianReducer).None? <==>
      && !IsControl(data.text) && parse(data.text).Some?
      && var w := Inserted(st.window, SampleOf(data, parse), width);
         |w| == width && |Median.Elems(Values(w))| <= width / 2
  {
    if !IsControl(data.text) && parse(data.text).Some? {
      var w := Inserted(st.window, SampleOf(data, parse), width);
      if |w| == width {
        Median.SetMedianDefined(Values(w), width / 2);
      }
    }
  }

  /** After any sequence of fetchNewData calls the invariant still holds; in particular
      the window never holds more than width samples. */
  lemma {:induction false} RunKeepsInv(st: FilterState, rs: seq<Reading>, parse: string -> Option<real>, width: nat, red: Reducer)
    requires Inv(st, width, red)
    requires Run(st, rs, parse, width, red).Some?
    ensures Inv(Run(st, rs, parse, width, red).value, width, red)
    ensures |Run(st, rs, parse, width, red).value.window| <= width
  {
    if rs != [] {
      RunKeepsInv(st, rs[..|rs| - 1], parse, width, red);
    }
  }

  /** The moving-average filter never reaches an undefined state. */
  lemma {:induction false} MeanRunDefined(st: FilterState, rs: seq<Reading>, parse: string -> Option<real>, width: nat)
    requires width > 0
    ensures Run(st, rs, parse, width, MeanReducer).Some?
  {
    if rs != [] {
      MeanRunDefined(st, rs[..|rs| - 1], parse, width);
    }
  }

  /** Once legitimate, the processed value stays legitimate until a control string arrives. */
  lemma {:induction false} ProcessedLegitUntilReset(st: FilterState, rs: seq<Reading>, parse: string -> Option<real>, width: nat, red: Reducer)
    requires Inv(st, width, red) && st.processedLegit
    requires NoControl(rs)
    requires Run(st, rs, parse, width, red).Some?
    ensures Run(st, rs, parse, width, red).value.processedLegit
  {
    if rs != [] {
      var prefix := rs[..|rs| - 1];
      assert NoControl(prefix) by {
        forall i | 0 <= i < |prefix| ensures !IsControl(prefix[i].text) {
          assert prefix[i] == rs[i];
        }
      }
      ProcessedLegitUntilReset(st, prefix, parse, width, red);
      RunKeepsInv(st, prefix, parse, width, red);
      ProcessedLegitFlips(Run(st, prefix, parse, width, red).value, rs[|rs| - 1], parse, width, red);
    }
  }

  /** One numeric sample on a state satisfying the invariant: the window grows by one
      until it is full, and processedLegit holds once it is. */
  lemma NumericStep(st: FilterState, data: Reading, parse: string -> Option<real>, width: nat, red: Reducer)
    requires Inv(st, width, red)
    requires !IsControl(data.text) && parse(data.text).Some?
    requires Step(st, data, parse, width, red).Some?
    ensures var r := Step(st, data, parse, width, red).value;
      && r.window == Inserted(st.window, SampleOf(data, parse), width)
      && |r.window| == Min(|st.window| + 1, width)
      && r.rawLegit
      && r.processedLegit == (|st.window| + 1 >= width)
  {
    ParsedSampleInserted(st, data, parse, width, red);
  }

  lemma AllNumericPrefix(rs: seq<Reading>, parse: string -> Option<real>)
    requires AllNumeric(rs, parse) && rs != []
    ensures AllNumeric(rs[..|rs| - 1], parse)
    ensures !IsControl(rs[|rs| - 1].text) && parse(rs[|rs| - 1].text).Some?
  {
    var prefix := rs[..|rs| - 1];
    forall i | 0 <= i < |prefix|
      ensures !IsControl(prefix[i].text) && parse(prefix[i].text).Some?
    {
      assert prefix[i] == rs[i];
    }
  }

  /** Inserting the sample of the newest reading into the newest samples of the readings
      before it gives the newest samples of all of them. */
  lemma InsertedNewest(rs: seq<Reading>, parse: string -> Option<real>, width: nat)
    requires width > 0 && rs != []
    ensures Inserted(Newest(rs[..|rs| - 1], parse, Min(|rs| - 1, width)), SampleOf(rs[|rs| - 1], parse), width)
      == Newest(rs, parse, Min(|rs|, width))
  {
    var pre := rs[..|rs| - 1];
    var m := Min(|rs|, width);
    var before := Newest(pre, parse, Min(|pre|, width));
    var after := Inserted(before, SampleOf(rs[|rs| - 1], parse), width);
    assert after == [after[0]] + after[1..];
    NewestPrefix(pre, parse, Min(|pre|, width), m - 1);
    NewestPush(rs, parse, m);
  }

  /** The first m' of the newest m samples are the newest m' samples. */
  lemma NewestPrefix(rs: seq<Reading>, parse: string -> Option<real>, m: nat, m': nat)
    requires m' <= m <= |rs|
    ensures Newest(rs, parse, m)[..m'] == Newest(rs, parse, m')
  {
  }

  /** The newest m samples are the newest reading's sample followed by the newest m - 1
      samples of the readings before it. */
  lemma NewestPush(rs: seq<Reading>, parse: string -> Option<real>, m: nat)
    requires 0 < m <= |rs|
    ensures Newest(rs, parse, m) == [SampleOf(rs[|rs| - 1], parse)] + Newest(rs[..|rs| - 1], parse, m - 1)
  {
    var pre := rs[..|rs| - 1];
    forall j | 0 < j < m ensures Newest(rs, parse, m)[j] == Newest(pre, parse, m - 1)[j - 1] {
      assert pre[|pre| - 1 - (j - 1)] == rs[|rs| - 1 - j];
    }
  }

  /** Filling from an empty window (after construction or a reset) with numeric readings:
      the window holds the newest min(n, width) samples, newest first; rawLegit is set
      from the first sample on and processedLegit exactly from the width-th sample on. */
  lemma {:induction false} FillFromEmpty(st: FilterState, rs: seq<Reading>, parse: string -> Option<real>, width: nat, red: Reducer)
    requires Inv(st, width, red) && st.window == []
    requires AllNumeric(rs, parse)
    requires Run(st, rs, parse, width, red).Some?
    ensures var r := Run(st, rs, parse, width, red).value;
      && r.window == Newest(rs, parse, Min(|rs|, width))
      && r.rawLegit == (|rs| > 0)
      && r.processedLegit == (|rs| >= width)
  {
    if rs != [] {
      var n := |rs|;
      var prefix := rs[..n - 1];
      AllNumericPrefix(rs, parse);
      assert Run(st, rs, parse, width, red) == Step(Run(st, prefix, parse, width, red).value, rs[n - 1], parse, width, red);
      FillFromEmpty(st, prefix, parse, width, red);
      RunKeepsInv(st, prefix, parse, width, red);
      NumericStep(Run(st, prefix, parse, width, red).value, rs[n - 1], parse, width, red);
      InsertedNewest(rs, parse, width);
    }
  }

  /** A full window of the newest samples carries a processed value stamped with the
      sample width/2 readings before the newest one. */
  lemma CenteredNewest(r: FilterState, rs: seq<Reading>, parse: string -> Option<real>, width: nat, red: Reducer)
    requires Inv(r, width, red) && width <= |rs|
    requires r.window == Newest(rs, parse, width)
    ensures r.processedLegit
    ensures r.currentProcessed.timestamp == rs[|rs| - 1 - width / 2].timestamp
  {
    ProcessedIsCentered(r, width, red);
  }

  /** Centre lag: once width samples have arrived since the window was empty, the processed
      value carries the timestamp of the sample width/2 insertions before the newest one. */
  lemma CenterLag(st: FilterState, rs: seq<Reading>, parse: string -> Option<real>, width: nat, red: Reducer)
    requires Inv(st, width, red) && st.window == []
    requires AllNumeric(rs, parse) && |rs| >= width
    requires Run(st, rs, parse, width, red).Some?
    ensures var r := Run(st, rs, parse, width, red).value;
      && r.processedLegit
      && r.currentProcessed.timestamp == rs[|rs| - 1 - width / 2].timestamp
  {
    FillFromEmpty(st, rs, parse, width, red);
    RunKeepsInv(st, rs, parse, width, red);
    CenteredNewest(Run(st, rs, parse, width, red).value, rs, parse, width, red);
  }
}
