/** MedianFilter: an analyzer whose processed value is the median of the last 2k+1 samples. */
module MedianFilter {
  import opened Records
  import Median
  import FW = FilterWindow

  class MedianFilter {
    /** valuesInFilterWindow, newest sample first. */
    var window: seq<Sample>
    var rawLegit: bool
    var processedLegit: bool
    var currentRaw: Sample
    var currentProcessed: Sample
    /** filterWindowWidth. */
    const width: nat

    function State(): FW.FilterState
      reads this
    {
      FW.FilterState(window, rawLegit, processedLegit, currentRaw, currentProcessed)
    }

    ghost predicate Valid()
      reads this
    {
      width % 2 == 1 && FW.Inv(State(), width, FW.MedianReducer)
    }

    /** Both constructors: flags false, width 2*filterWindow + 1. Registering with the
        serial reader is Serial.RegisterDataAnalyzer. */
    constructor (filterWindow: nat)
      requires filterWindow < FW.UIntRange
      ensures Valid()
      ensures width == FW.Width(filterWindow)
      ensures State() == FW.Initial
    {
      window := [];
      rawLegit := false;
      processedLegit := false;
      currentRaw := Sample(0, 0.0);
      currentProcessed := Sample(0, 0.0);
      width := FW.Width(filterWindow);
    }

    /** The newest sample, or the sentinel before the first sample and after a reset. */
    function GetRawData(): (r: Sample)
      reads this
      requires Valid()
      ensures !rawLegit ==> r == Sentinel
      ensures rawLegit ==> window != [] && r == window[0]
    {
      if rawLegit then currentRaw else Sentinel
    }

    /** The median of the full window, stamped with the middle sample's timestamp, or the
        sentinel while the window is not full. */
    function GetProcessedData(): (r: Sample)
      reads this
      requires Valid()
      ensures !processedLegit ==> r == Sentinel
      ensures processedLegit ==> |window| == width && r.timestamp == window[width / 2].timestamp
      ensures processedLegit ==> Median.SetMedian(Values(window), width / 2) == Some(r.value)
    {
      if processedLegit then currentProcessed else Sentinel
    }

    /** Fills a std::set with the window's values and takes the element at index width/2;
        defined is false where that iterator is past the set's end. */
    method ProcessData() returns (defined: bool)
      requires |window| == width && width % 2 == 1
      modifies this`currentProcessed
      ensures defined == FW.Process(window, width, FW.MedianReducer).Some?
      ensures defined ==> currentProcessed == FW.Process(window, width, FW.MedianReducer).value
    {
      var sortedValues: seq<real> := [];
      for i := 0 to |window|
        invariant sortedValues == Median.DistinctSorted(Values(window[..i]))
      {
        ValuesPrefix(window, i);
        sortedValues := Median.Insert(sortedValues, window[i].value);
      }
      assert window[..|window|] == window;
      if width / 2 < |sortedValues| {
        var medianValue := sortedValues[width / 2];
        currentProcessed := Sample(window[width / 2].timestamp, medianValue);
        defined := true;
      } else {
        defined := false;
      }
    }

    /** fetchNewData: exactly one FilterWindow.Step. When defined is false the source has
        dereferenced the set's end iterator and nothing is promised about the state. */
    method FetchNewData(data: Reading, parse: string -> Option<real>) returns (defined: bool)
      requires Valid()
      modifies this
      ensures var next := FW.Step(old(State()), data, parse, width, FW.MedianReducer);
        && defined == next.Some?
        && (defined ==> Valid() && State() == next.value)
    {
      // the step this call performs
      ghost var next := FW.Step(State(), data, parse, width, FW.MedianReducer);
      if IsControl(data.text) {
        rawLegit := false;
        processedLegit := false;
        window := [];
        currentRaw := Sentinel;
        currentProcessed := Sentinel;
        return true;
      }
      var parsed := parse(data.text);
      if parsed.None? {
        // std::stod threw: the record is dropped
        return true;
      }
      var newValue := parsed.value;
      currentRaw := Sample(data.timestamp, newValue);
      if !rawLegit {
        rawLegit := true;
      }
      if |window| == width {
        window := [Sample(data.timestamp, newValue)] + window;
        window := window[..|window| - 1];
        assert window == FW.Inserted(old(window), currentRaw, width);
        defined := ProcessData();
      } else {
        window := [Sample(data.timestamp, newValue)] + window;
        defined := true;
        if |window| == width {
          defined := ProcessData();
          if defined {
            processedLegit := true;
          }
        }
      }
    }
  }
}
