/** MovingAverageFilter: an analyzer whose processed value is the mean of the last 2k+1 samples. */
module MovingAverageFilter {
  import opened Records
  import Mean
  import FW = FilterWindow

  class MovingAverageFilter {
    /** valuesInFilterWindow, newest sample first. */
    var window: seq<Sample>
    var rawLegit: bool
    var processedLegit: bool
    var currentRaw: Sample
    var currentProcessed: Sample
    /** filterWindowWidth. */
    const width: nat

    function State(): FW.FilterState
      reads this
    {
      FW.FilterState(window, rawLegit, processedLegit, currentRaw, currentProcessed)
    }

    ghost predicate Valid()
      reads this
    {
      width % 2 == 1 && FW.Inv(State(), width, FW.MeanReducer)
    }

    /** Both constructors: flags false, width 2*filterWindow + 1. Registering with the
        serial reader is Serial.RegisterDataAnalyzer. */
    constructor (filterWindow: nat)
      requires filterWindow < FW.UIntRange
      ensures Valid()
      ensures width == FW.Width(filterWindow)
      ensures State() == FW.Initial
    {
      window := [];
      rawLegit := false;
      processedLegit := false;
      currentRaw := Sample(0, 0.0);
      currentProcessed := Sample(0, 0.0);
      width := FW.Width(filterWindow);
    }

    /** The newest sample, or the sentinel before the first sample and after a reset. */
    function GetRawData(): (r: Sample)
      reads this
      requires Valid()
      ensures !rawLegit ==> r == Sentinel
      ensures rawLegit ==> window != [] && r == window[0]
    {
      if rawLegit then currentRaw else Sentinel
    }

    /** The mean of the full window, stamped with the middle sample's timestamp, or the
        sentinel while the window is not full. */
    function GetProcessedData(): (r: Sample)
      reads this
      requires Valid()
      ensures !processedLegit ==> r == Sentinel
      ensures processedLegit ==> |window| == width && r.timestamp == window[width / 2].timestamp
      ensures processedLegit ==> r.value == Mean.Sum(Values(window)) / width as real
    {
      if processedLegit then currentProcessed else Sentinel
    }

    /** Sums the window's values front to back and divides by the width. */
    method ProcessData()
      requires |window| == width && width % 2 == 1
      modifies this`currentProcessed
      ensures currentProcessed == FW.Process(window, width, FW.MeanReducer).value
    {
      var sum := 0.0;
      for i := 0 to |window|
        invariant sum == Mean.Sum(Values(window[..i]))
      {
        ValuesPrefix(window, i);
        sum := sum + window[i].value;
      }
      assert window[..|window|] == window;
      var averageValue := sum / width as real;
      currentProcessed := Sample(window[width / 2].timestamp, averageValue);
    }

    /** fetchNewData: exactly one FilterWindow.Step, which is always defined for the mean. */
    method FetchNewData(data: Reading, parse: string -> Option<real>)
      requires Valid()
      modifies this
      ensures Valid()
      ensures FW.Step(old(State()), data, parse, width, FW.MeanReducer) == Some(State())
    {
      // the step this call performs
      ghost var next := FW.Step(State(), data, parse, width, FW.MeanReducer);
      if IsControl(data.text) {
        rawLegit := false;
        processedLegit := false;
        window := [];
        currentRaw := Sentinel;
        currentProcessed := Sentinel;
        return;
      }
      var parsed := parse(data.text);
      if parsed.None? {
        // std::stod threw: the record is dropped
        return;
      }
      var newValue := parsed.value;
      currentRaw := Sample(data.timestamp, newValue);
      if !rawLegit {
        rawLegit := true;
      }
      if |window| == width {
        window := [Sample(data.timestamp, newValue)] + window;
        window := window[..|window| - 1];
        assert window == FW.Inserted(old(window), currentRaw, width);
        ProcessData();
      } else {
        window := [Sample(data.timestamp, newValue)] + window;
        if |window| == width {
          ProcessData();
          processedLegit := true;
        }
      }
    }
  }
}
