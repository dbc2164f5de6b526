/** Serial: the reader side — the registry of analyzers, one iteration of the reading
    loop (doReading), the snapshot getter and the destructor's CLOSED broadcast. */
module Serial {
  import opened Records

  /** An analyzer's identity: the SerialPortDataAnalyzer* the registry stores. */
  type AnalyzerId = nat

  /** What one ReadFile call gives: failure, or success with a byte count and the text
      of the buffer. */
  datatype ReadOutcome = ReadFailed | ReadDone(bytesRead: nat, text: string)

  const InitializingReading := Reading(-1, "INITIALIZING")
  const ErrorReading := Reading(-1, "ERROR")
  const ClosedReading := Reading(-1, "CLOSED")

  predicate NoDuplicates(s: seq<AnalyzerId>)
  {
    forall i, j :: 0 <= i < j < |s| ==> s[i] != s[j]
  }

  /** erase(remove(begin, end, h), end): a stable removal of every h. */
  function Without(s: seq<AnalyzerId>, h: AnalyzerId): (r: seq<AnalyzerId>)
    ensures h !in r
    ensures |r| <= |s|
  {
    if s == [] then []
    else Without(s[..|s| - 1], h) + (if s[|s| - 1] == h then [] else [s[|s| - 1]])
  }

  /** Removal leaves exactly the other handles, each as often as before. */
  lemma {:induction false} WithoutMultiset(s: seq<AnalyzerId>, h: AnalyzerId)
    ensures multiset(Without(s, h)) == multiset(s)[h := 0]
  {
    if s != [] {
      var n := |s| - 1;
      WithoutMultiset(s[..n], h);
      assert s == s[..n] + [s[n]];
      assert multiset(s) == multiset(s[..n]) + multiset{s[n]};
    }
  }

  /** A handle is in the result exactly when it was in the registry and is not h. */
  lemma WithoutMembers(s: seq<AnalyzerId>, h: AnalyzerId, x: AnalyzerId)
    ensures x in Without(s, h) <==> x in s && x != h
  {
    WithoutMultiset(s, h);
    assert x in Without(s, h) <==> x in multiset(Without(s, h));
    assert x in s <==> x in multiset(s);
  }

  /** Removing an absent handle does nothing. */
  lemma {:induction false} WithoutAbsent(s: seq<AnalyzerId>, h: AnalyzerId)
    requires h !in s
    ensures Without(s, h) == s
  {
    if s != [] {
      var n := |s| - 1;
      assert h !in s[..n];
      WithoutAbsent(s[..n], h);
      assert s == s[..n] + [s[n]];
    }
  }

  /** Removal is idempotent: deregistering twice is deregistering once. */
  lemma WithoutIdempotent(s: seq<AnalyzerId>, h: AnalyzerId)
    ensures Without(Without(s, h), h) == Without(s, h)
  {
    WithoutMembers(s, h, h);
    WithoutAbsent(Without(s, h), h);
  }

  /** Removal works piecewise, so the handles that remain keep their relative order. */
  lemma {:induction false} WithoutAppend(a: seq<AnalyzerId>, b: seq<AnalyzerId>, h: AnalyzerId)
    ensures Without(a + b, h) == Without(a, h) + Without(b, h)
  {
    if b == [] {
      assert a + b == a;
    } else {
      var n := |b| - 1;
      assert (a + b)[..|a + b| - 1] == a + b[..n];
      WithoutAppend(a, b[..n], h);
    }
  }

  /** Registering a new handle and deregistering it again restores the registry. */
  lemma RegisterThenDeregister(s: seq<AnalyzerId>, h: AnalyzerId)
    requires h !in s
    ensures Without(s + [h], h) == s
  {
    WithoutAppend(s, [h], h);
    assert [h][..0] == [];
    WithoutAbsent(s, h);
  }

  /** Removal keeps the registry free of duplicates. */
  lemma WithoutNoDuplicates(s: seq<AnalyzerId>, h: AnalyzerId)
    requires NoDuplicates(s)
    ensures NoDuplicates(Without(s, h))
  {
    var r := Without(s, h);
    WithoutMultiset(s, h);
    forall i, j | 0 <= i < j < |r| ensures r[i] != r[j] {
      if r[i] == r[j] {
        assert multiset(r)[r[i]] >= 2 by {
          assert r == r[..i] + [r[i]] + r[i + 1..j] + [r[j]] + r[j + 1..];
        }
        NoDuplicatesCount(s, r[i]);
      }
    }
  }

  /** In a registry without duplicates no handle occurs twice. */
  lemma {:induction false} NoDuplicatesCount(s: seq<AnalyzerId>, x: AnalyzerId)
    requires NoDuplicates(s)
    ensures multiset(s)[x] <= 1
  {
    if s != [] {
      var n := |s| - 1;
      assert NoDuplicates(s[..n]);
      NoDuplicatesCount(s[..n], x);
      assert s == s[..n] + [s[n]];
      assert multiset(s) == multiset(s[..n]) + multiset{s[n]};
      if s[n] == x {
        assert x !in s[..n];
        assert multiset(s[..n])[x] == 0;
      }
    }
  }

  /** readerActive and lastReading. */
  datatype ReaderState = ReaderState(active: bool, lastReading: Reading)

  /** One pass of doReading's loop body: a read of exactly frameSize bytes publishes
      (now, text); a short or failed read ends the reader and publishes (-1, "ERROR"). */
  function ReadOnce(frameSize: nat, st: ReaderState, outcome: ReadOutcome, now: int): (r: ReaderState)
    ensures r.active <==> st.active && outcome.ReadDone? && outcome.bytesRead == frameSize
    ensures !r.active ==> r.lastReading == ErrorReading || !st.active
    ensures r.active ==> r.lastReading == Reading(now, outcome.text)
  {
    match outcome
    case ReadDone(bytesRead, text) =>
      if bytesRead == frameSize then ReaderState(st.active, Reading(now, text))
      else ReaderState(false, ErrorReading)
    case ReadFailed => ReaderState(false, ErrorReading)
  }

  /** doReading's loop over a given sequence of read outcomes, each with the clock's
      reading at that time; it stops as soon as the reader is inactive. */
  function RunReader(frameSize: nat, st: ReaderState, outcomes: seq<ReadOutcome>, clock: seq<int>): (r: ReaderState)
    requires |clock| == |outcomes|
    ensures r.active ==> st.active
    decreases |outcomes|
  {
    if outcomes == [] || !st.active then st
    else RunReader(frameSize, ReadOnce(frameSize, st, outcomes[0], clock[0]), outcomes[1..], clock[1..])
  }

  predicate FullRead(frameSize: nat, outcome: ReadOutcome)
  {
    outcome.ReadDone? && outcome.bytesRead == frameSize
  }

  /** An inactive reader is never reactivated, whatever the port does afterwards. */
  lemma NeverReactivated(frameSize: nat, st: ReaderState, outcomes: seq<ReadOutcome>, clock: seq<int>)
    requires |clock| == |outcomes| && !st.active
    ensures RunReader(frameSize, st, outcomes, clock) == st
  {
  }

  /** While every read delivers a full frame the reader stays active and publishes the
      last frame with its time. */
  lemma {:induction false} FullReadsPublish(frameSize: nat, st: ReaderState, outcomes: seq<ReadOutcome>, clock: seq<int>)
    requires |clock| == |outcomes| > 0 && st.active
    requires forall i :: 0 <= i < |outcomes| ==> FullRead(frameSize, outcomes[i])
    ensures FullRead(frameSize, outcomes[|outcomes| - 1])
      && RunReader(frameSize, st, outcomes, clock)
         == ReaderState(true, Reading(clock[|clock| - 1], outcomes[|outcomes| - 1].text))
    decreases |outcomes|
  {
    var next := ReadOnce(frameSize, st, outcomes[0], clock[0]);
    if |outcomes| > 1 {
      assert forall i :: 0 <= i < |outcomes[1..]| ==> outcomes[1..][i] == outcomes[i + 1];
      FullReadsPublish(frameSize, next, outcomes[1..], clock[1..]);
    }
  }

  /** The first short or failed read is terminal: the reader ends inactive with the
      ERROR record, whatever follows it. */
  lemma {:induction false} FailureIsTerminal(frameSize: nat, st: ReaderState, outcomes: seq<ReadOutcome>, clock: seq<int>, k: nat)
    requires |clock| == |outcomes| && st.active
    requires k < |outcomes| && !FullRead(frameSize, outcomes[k])
    requires forall i :: 0 <= i < k ==> FullRead(frameSize, outcomes[i])
    ensures RunReader(frameSize, st, outcomes, clock) == ReaderState(false, ErrorReading)
    decreases k
  {
    var next := ReadOnce(frameSize, st, outcomes[0], clock[0]);
    if k > 0 {
      assert forall i :: 0 <= i < k - 1 ==> outcomes[1..][i] == outcomes[i + 1];
      FailureIsTerminal(frameSize, next, outcomes[1..], clock[1..], k - 1);
    } else {
      NeverReactivated(frameSize, next, outcomes[1..], clock[1..]);
    }
  }

  class Serial {
    /** readerActive. */
    var active: bool
    var lastReading: Reading
    /** registeredAnalyzers. */
    var registered: seq<AnalyzerId>
    /** nbOfCharsRead: the frame size every read must fill. */
    const frameSize: nat

    function State(): ReaderState
      reads this
    {
      ReaderState(active, lastReading)
    }

    ghost predicate Valid()
      reads this
    {
      NoDuplicates(registered)
    }

    /** portOpened: whether CreateFile, GetCommState and SetCommState all succeeded; only
        then is the reader made active. */
    constructor (bufferSize: nat, portOpened: bool)
      requires bufferSize < 0x1_0000_0000
      ensures Valid()
      ensures frameSize == bufferSize
      ensures lastReading == InitializingReading
      ensures registered == []
      ensures active == portOpened
    {
      frameSize := bufferSize;
      lastReading := InitializingReading;
      registered := [];
      active := portOpened;
    }

    /** A copy of the last reading; nothing changes. */
    method GetData() returns (r: Reading)
      ensures r == lastReading
    {
      r := lastReading;
    }

    /** analyzer None stands for a null pointer. */
    method RegisterDataAnalyzer(analyzer: Option<AnalyzerId>) returns (ok: bool)
      requires Valid()
      modifies this`registered
      ensures Valid()
      ensures ok <==> analyzer.Some? && active && analyzer.value !in old(registered)
      ensures registered == if ok then old(registered) + [analyzer.value] else old(registered)
    {
      if analyzer.Some? && active {
        var analyzerAlreadyRegistered := false;
        for i := 0 to |registered|
          invariant analyzerAlreadyRegistered <==> analyzer.value in registered[..i]
        {
          if registered[i] == analyzer.value {
            analyzerAlreadyRegistered := true;
          }
        }
        assert registered[..|registered|] == registered;
        if analyzerAlreadyRegistered {
          return false;
        } else {
          registered := registered + [analyzer.value];
          return true;
        }
      } else {
        return false;
      }
    }

    /** The erase-remove idiom: every occurrence goes, the others keep their order. */
    method DeregisterDataAnalyzer(analyzer: AnalyzerId)
      requires Valid()
      modifies this`registered
      ensures Valid()
      ensures registered == Without(old(registered), analyzer)
    {
      var kept: seq<AnalyzerId> := [];
      for i := 0 to |registered|
        invariant kept == Without(registered[..i], analyzer)
      {
        assert registered[..i + 1][..i] == registered[..i];
        if registered[i] != analyzer {
          kept := kept + [registered[i]];
        }
      }
      assert registered[..|registered|] == registered;
      WithoutNoDuplicates(registered, analyzer);
      registered := kept;
    }

    /** One iteration of doReading's loop, which runs only while the reader is active. */
    method ReadStep(outcome: ReadOutcome, now: int)
      requires active
      modifies this`active, this`lastReading
      ensures State() == ReadOnce(frameSize, old(State()), outcome, now)
    {
      match outcome {
        case ReadDone(bytesRead, text) =>
          if bytesRead == frameSize {
            lastReading := Reading(now, text);
          } else {
            active := false;
            lastReading := ErrorReading;
          }
        case ReadFailed =>
          active := false;
          lastReading := ErrorReading;
      }
    }

    /** doReading over the given read outcomes and clock readings. */
    method DoReading(outcomes: seq<ReadOutcome>, clock: seq<int>)
      requires |clock| == |outcomes|
      modifies this`active, this`lastReading
      ensures State() == RunReader(frameSize, old(State()), outcomes, clock)
    {
      var i := 0;
      while i < |outcomes| && active
        invariant 0 <= i <= |outcomes|
        invariant RunReader(frameSize, State(), outcomes[i..], clock[i..])
               == RunReader(frameSize, old(State()), outcomes, clock)
        decreases |outcomes| - i
      {
        assert outcomes[i..][1..] == outcomes[i + 1..] && clock[i..][1..] == clock[i + 1..];
        ReadStep(outcomes[i], clock[i]);
        i := i + 1;
      }
    }

    /** The destructor's first half: the reader becomes inactive and every registered
        analyzer receives (-1, "CLOSED") once, in registry order. */
    method Close() returns (deliveries: seq<(AnalyzerId, Reading)>)
      requires Valid()
      modifies this`active
      ensures Valid()
      ensures !active
      ensures |deliveries| == |registered|
      ensures forall i :: 0 <= i < |registered| ==> deliveries[i] == (registered[i], ClosedReading)
    {
      active := false;
      deliveries := [];
      if |registered| != 0 {
        for i := 0 to |registered|
          invariant |deliveries| == i
          invariant forall j :: 0 <= j < i ==> deliveries[j] == (registered[j], ClosedReading)
        {
          deliveries := deliveries + [(registered[i], ClosedReading)];
        }
      }
    }
  }
}
