/** The legacy sampling mode over whole runs: the counters list is built by the first scan that finds a
    counter, and afterwards every read hands out the value together with the one handed out before. */
module LegacyRuns {
  import opened PluginTypes
  import opened StatsTree
  import opened ScanSpec

  /** `calls` counts the calls made before the list was built, as a 64-bit number. */
  datatype LegacyState = LegacyState(initialized: bool, calls: uint64, records: seq<CounterRecord>)

  /** A call, with the statistics the server would deliver to it. */
  datatype LegacyCall = LegacyCall(index: uint32, root: StatsNode)

  datatype LegacyOutcome = Reading(value: uint64, prevValue: uint64) | Detected | NothingYet

  const FRESH := LegacyState(false, 0, [])

  predicate Attempts(s: LegacyState) {
    !s.initialized && s.records == [] && s.calls % 256 == 0
  }

  /** A call that asks the server for its statistics. */
  predicate Scans(s: LegacyState, index: uint32) {
    Attempts(s) || (s.initialized && index == 0)
  }

  /** The call with what the server delivers, of which the head matters, and only to a call that asks for it. */
  function CallWith(index: uint32, stats: seq<StatsNode>): LegacyCall {
    LegacyCall(index, if stats == [] then StatsNode("", [], []) else stats[0])
  }

  function Step(s: LegacyState, call: LegacyCall): (LegacyState, LegacyOutcome) {
    if s.initialized then
      var records := if call.index == 0 then Scan(false, call.root, s.records) else s.records;
      if call.index < |records| then
        var r := records[call.index];
        (s.(records := records[call.index := r.(prevValue := r.value)]), Reading(r.value, r.prevValue))
      else
        (s.(records := records), Reading(0, 0))
    else
      var records := if Attempts(s) then Scan(true, call.root, s.records) else s.records;
      if Attempts(s) && records != [] then (LegacyState(true, s.calls, records), Detected)
      else (LegacyState(false, AddUint64(s.calls, 1), records), NothingYet)
  }

  /** What every call hands out.  Once detected: the value in the slot, after the scan that comes with index 0, with the
      value handed out before; zeros beyond the list.  Before: nothing, or that a call number 0, 256, ... found counters. */
  lemma OutcomeOfCall(s: LegacyState, call: LegacyCall)
    ensures s.initialized ==>
              var values := Values(call.root.children);
              var i := call.index;
              Step(s, call).1 ==
                if i >= |s.records| then Reading(0, 0)
                else Reading(if i == 0 && values != [] then values[0] else s.records[i].value, s.records[i].prevValue)
    ensures !s.initialized ==>
              (Step(s, call).1 == Detected <==>
               s.records == [] && s.calls % 256 == 0 && Values(call.root.children) != [])
    ensures !s.initialized ==> Step(s, call).1 == Detected || Step(s, call).1 == NothingYet
    ensures s.initialized ==> Step(s, call).0.initialized && Step(s, call).0.calls == s.calls
    ensures !s.initialized ==>
              Step(s, call).0.calls == if Step(s, call).1 == Detected then s.calls else (s.calls + 1) % 0x1_0000_0000_0000_0000
  {
    hide Values;
    Remainder(s.calls + 1, 0x1_0000_0000_0000_0000, if s.calls == UINT64_MAX then 1 else 0,
              if s.calls == UINT64_MAX then 0 else s.calls + 1);
  }

  function Run(s: LegacyState, calls: seq<LegacyCall>): LegacyState
    decreases |calls|
  {
    if calls == [] then s else Run(Step(s, calls[0]).0, calls[1..])
  }

  /** The readings of slot `i`, in order. */
  function Readings(s: LegacyState, calls: seq<LegacyCall>, i: uint32): seq<LegacyOutcome>
    decreases |calls|
  {
    if calls == [] then []
    else
      var (next, out) := Step(s, calls[0]);
      (if out.Reading? && calls[0].index == i then [out] else []) + Readings(next, calls[1..], i)
  }

  function ScanAttempts(s: LegacyState, calls: seq<LegacyCall>): nat
    decreases |calls|
  {
    if calls == [] then 0
    else (if Attempts(s) then 1 else 0) + ScanAttempts(Step(s, calls[0]).0, calls[1..])
  }

  // ---- detection ----

  ghost predicate Found(calls: seq<LegacyCall>, j: int) {
    0 <= j < |calls| && j % 256 == 0 && Values(calls[j].root.children) != []
  }

  /** The list is built by exactly those runs in which some call number 0, 256, 512, ... is answered with
      a counter below the root.  The flag is set if and only if the list is non-empty. */
  lemma DetectionIff(calls: seq<LegacyCall>)
    ensures Run(FRESH, calls).initialized <==> exists j :: Found(calls, j)
    ensures Run(FRESH, calls).initialized <==> Run(FRESH, calls).records != []
  {
    DetectionFrom(FRESH, calls, 0);
    assert forall j :: FoundFrom(calls, 0, j) == Found(calls, j);
  }

  lemma CallCounter(n: nat)
    ensures AddUint64(ToUint64(n), 1) == ToUint64(n + 1)
    ensures ToUint64(n) % 256 == n % 256
  {
    NextRemainder(n, UINT64_MAX + 1);
    var q, r := n / 0x1_0000_0000_0000_0000, ToUint64(n);
    assert n == 256 * (0x100_0000_0000_0000 * q) + r;
    Remainder(n, 256, 0x100_0000_0000_0000 * q + r / 256, r % 256);
  }

  lemma CeilDivStep(n: nat)
    ensures CeilDiv(n + 1, 256) == CeilDiv(n, 256) + if n % 256 == 0 then 1 else 0
  {
  }

  ghost predicate FoundFrom(calls: seq<LegacyCall>, n: nat, j: int) {
    0 <= j < |calls| && (n + j) % 256 == 0 && Values(calls[j].root.children) != []
  }

  lemma {:induction false} DetectionFrom(s: LegacyState, calls: seq<LegacyCall>, n: nat)
    requires !s.initialized && s.records == [] && s.calls == ToUint64(n)
    ensures Run(s, calls).initialized <==> exists j :: FoundFrom(calls, n, j)
    ensures Run(s, calls).initialized <==> Run(s, calls).records != []
    decreases |calls|
  {
    if calls != [] {
      CallCounter(n);
      var next := Step(s, calls[0]).0;
      if next.initialized {
        assert FoundFrom(calls, n, 0);
        SteadyState(next, calls[1..]);
      } else {
        assert !FoundFrom(calls, n, 0);
        DetectionFrom(next, calls[1..], n + 1);
        if j :| FoundFrom(calls, n, j) {
          assert FoundFrom(calls[1..], n + 1, j - 1);
        }
        var rest, m := calls[1..], n + 1;
        if j :| FoundFrom(rest, m, j) {
          assert FoundFrom(calls, n, j + 1);
        }
      }
    }
  }

  /** As long as nothing is detected, `n` calls make one scan attempt in 256, the first one included. */
  lemma {:induction false} AttemptsWhileUndetected(calls: seq<LegacyCall>)
    requires !Run(FRESH, calls).initialized
    ensures ScanAttempts(FRESH, calls) == CeilDiv(|calls|, 256)
    ensures Run(FRESH, calls).calls == ToUint64(|calls|)
  {
    AttemptsFrom(FRESH, calls, 0);
  }

  lemma {:induction false} AttemptsFrom(s: LegacyState, calls: seq<LegacyCall>, n: nat)
    requires !s.initialized && s.records == [] && s.calls == ToUint64(n)
    requires !Run(s, calls).initialized
    ensures ScanAttempts(s, calls) == CeilDiv(n + |calls|, 256) - CeilDiv(n, 256)
    ensures Run(s, calls).calls == ToUint64(n + |calls|)
    decreases |calls|
  {
    hide Scan, Values;
    if calls != [] {
      var next := Step(s, calls[0]).0;
      if next.initialized {
        SteadyState(next, calls[1..]);
        assert false;
      }
      CallCounter(n);
      CeilDivStep(n);
      AttemptsFrom(next, calls[1..], n + 1);
    }
  }

  // ---- steady state ----

  predicate SameIdentity(r: CounterRecord, t: CounterRecord) {
    r.name == t.name && r.scorepCounterId == t.scorepCounterId && r.alreadyRenamed == t.alreadyRenamed
  }

  /** Once built, the list stays, with its length, names and ids. */
  lemma {:induction false} SteadyState(s: LegacyState, calls: seq<LegacyCall>)
    requires s.initialized
    ensures Run(s, calls).initialized
    ensures |Run(s, calls).records| == |s.records|
    ensures forall i :: 0 <= i < |s.records| ==> SameIdentity(Run(s, calls).records[i], s.records[i])
    decreases |calls|
  {
    if calls != [] {
      SteadyState(Step(s, calls[0]).0, calls[1..]);
    }
  }

  /** Each reading carries the value of the reading before it; the first one carries `prev`. */
  ghost predicate Chained(prev: uint64, readings: seq<LegacyOutcome>) {
    && (forall j :: 0 <= j < |readings| ==> readings[j].Reading?)
    && (forall j :: 0 < j < |readings| ==> readings[j].prevValue == readings[j - 1].value)
    && (readings != [] ==> readings[0].prevValue == prev)
  }

  lemma {:induction false} SteadyReadingsChained(s: LegacyState, calls: seq<LegacyCall>, i: uint32)
    requires s.initialized && i < |s.records|
    ensures Chained(s.records[i].prevValue, Readings(s, calls, i))
    decreases |calls|
  {
    if calls != [] {
      var (next, out) := Step(s, calls[0]);
      SteadyReadingsChained(next, calls[1..], i);
    }
  }

  /** In every run from the start, the readings of a slot of the list form one chain that begins with the
      64-bit value of -1. */
  lemma {:induction false} ReadingsChained(calls: seq<LegacyCall>, i: uint32)
    requires i < |Run(FRESH, calls).records|
    ensures Chained(UINT64_MAX, Readings(FRESH, calls, i))
  {
    ReadingsChainedFrom(FRESH, calls, i);
  }

  lemma BuiltFresh(root: StatsNode)
    ensures forall i :: 0 <= i < |Scan(true, root, [])| ==> Scan(true, root, [])[i].prevValue == UINT64_MAX
  {
  }

  lemma {:induction false} ReadingsChainedFrom(s: LegacyState, calls: seq<LegacyCall>, i: uint32)
    requires !s.initialized && s.records == []
    requires i < |Run(s, calls).records|
    ensures Chained(UINT64_MAX, Readings(s, calls, i))
    decreases |calls|
  {
    hide Scan, Chained;
    var next := Step(s, calls[0]).0;
    BuiltFresh(calls[0].root);
    assert Readings(s, calls, i) == Readings(next, calls[1..], i);
    if next.initialized {
      SteadyState(next, calls[1..]);
      SteadyReadingsChained(next, calls[1..], i);
    } else {
      ReadingsChainedFrom(next, calls[1..], i);
    }
  }

  /** The sum of the differences a slot's readings report, in 64-bit arithmetic. */
  function SumOfDeltas(readings: seq<LegacyOutcome>): uint64
    requires forall j :: 0 <= j < |readings| ==> readings[j].Reading?
  {
    if readings == [] then 0
    else
      var last := readings[|readings| - 1];
      AddUint64(SumOfDeltas(readings[..|readings| - 1]), SubUint64(last.value, last.prevValue))
  }

  /** The differences telescope: over any run they add up to the last value, plus one. */
  lemma {:induction false} DeltasTelescope(calls: seq<LegacyCall>, i: uint32)
    requires i < |Run(FRESH, calls).records| && Readings(FRESH, calls, i) != []
    ensures
      var readings := Readings(FRESH, calls, i);
      && Chained(UINT64_MAX, readings)
      && SumOfDeltas(readings) == AddUint64(readings[|readings| - 1].value, 1)
  {
    ReadingsChained(calls, i);
    ChainTelescopes(UINT64_MAX, Readings(FRESH, calls, i));
    MinusMinusOne(Readings(FRESH, calls, i)[|Readings(FRESH, calls, i)| - 1].value);
  }

  lemma MinusMinusOne(v: uint64)
    ensures SubUint64(v, UINT64_MAX) == AddUint64(v, 1)
  {
  }

  lemma {:induction false} ChainTelescopes(prev: uint64, readings: seq<LegacyOutcome>)
    requires Chained(prev, readings) && readings != []
    ensures SumOfDeltas(readings) == SubUint64(readings[|readings| - 1].value, prev)
  {
    var init := readings[..|readings| - 1];
    if init != [] {
      ChainTelescopes(prev, init);
    }
  }

  /** A read of index 0, and the reads of other slots after it, return the values of that one scan. */
  lemma {:induction false} SweepReadsOneScan(s: LegacyState, first: LegacyCall, rest: seq<LegacyCall>, i: uint32, j: nat)
    requires s.initialized && first.index == 0
    requires forall k :: 0 <= k < |rest| ==> rest[k].index != 0
    requires 0 < i < |s.records| && i < |Values(first.root.children)|
    requires j < |Readings(Step(s, first).0, rest, i)|
    ensures Step(s, first).1 == Reading(Values(first.root.children)[0], s.records[0].prevValue)
    ensures Readings(Step(s, first).0, rest, i)[j].Reading?
    ensures Readings(Step(s, first).0, rest, i)[j].value == Values(first.root.children)[i]
  {
    ReadingsBetweenScans(Step(s, first).0, rest, i, j);
  }

  lemma {:induction false} ReadingsBetweenScans(s: LegacyState, calls: seq<LegacyCall>, i: uint32, j: nat)
    requires s.initialized && i < |s.records|
    requires forall k :: 0 <= k < |calls| ==> calls[k].index != 0
    requires j < |Readings(s, calls, i)|
    ensures Readings(s, calls, i)[j].Reading? && Readings(s, calls, i)[j].value == s.records[i].value
    decreases |calls|
  {
    var next := Step(s, calls[0]).0;
    if calls[0].index != i {
      ReadingsBetweenScans(next, calls[1..], i, j);
    } else if j > 0 {
      ReadingsBetweenScans(next, calls[1..], i, j - 1);
    }
  }
}
