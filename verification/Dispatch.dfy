/** The default sampling mode: a snapshot of aggregate sums that only a read of id 0 refreshes, and the
    dispatch of a counter id to that snapshot or to the NIC counters. */
module Dispatch {
  import opened PluginTypes

  /** The capacity of the array the library fills. */
  const SUM_COUNTERS_MAX: nat := 64

  /** What the library answers: at most as many sums as it was given room for. */
  type Snapshot = s: seq<uint64> | |s| <= SUM_COUNTERS_MAX witness []

  datatype State = State(mpiInitialized: bool, size: nat, counters: seq<uint64>) {
    predicate Valid() {
      |counters| == SUM_COUNTERS_MAX && size <= SUM_COUNTERS_MAX
    }

    /** A refresh writes the sums over the front of the array and leaves the rest of it. */
    function Refresh(snapshot: Snapshot): State
      requires Valid()
    {
      State(true, |snapshot|, snapshot + counters[|snapshot|..])
    }
  }

  /** A call of the plugin that bears on the snapshot.
      A read: whether MPI is up, and what the library would answer to the refresh that comes with the first
      successful read, and to the one that comes with a read of id 0.
      A registration of the UCX metrics: whether it has to ask the library, because there is no file of names,
      and what the library answers to the refresh that comes with asking. */
  datatype Call =
    | Read(id: int32, mpiUp: bool, warmup: Snapshot, snapshot: Snapshot)
    | Register(asked: bool, snapshot: Snapshot)

  datatype Outcome = NotReady | UcxValue(value: uint64) | NicCounter(index: uint32) | NoValue

  function Fresh(): (s: State)
    ensures s.Valid()
  {
    State(false, 0, seq(SUM_COUNTERS_MAX, _ => 0))
  }

  predicate Ready(s: State, call: Call)
    requires call.Read?
  {
    s.mpiInitialized || call.mpiUp
  }

  function Warm(s: State, call: Call): State
    requires s.Valid() && call.Read?
  {
    if s.mpiInitialized then s else s.Refresh(call.warmup)
  }

  /** The id is compared as an unsigned number, so a negative one is out of range. */
  predicate IsUcx(s: State, id: int32) {
    0 <= id < s.size
  }

  function Step(s: State, call: Call): (r: (State, Outcome))
    requires s.Valid()
    ensures r.0.Valid()
  {
    if call.Register? then (if call.asked then s.Refresh(call.snapshot) else s, NoValue)
    else if !Ready(s, call) then (s, NotReady)
    else
      var warm := Warm(s, call);
      if IsUcx(warm, call.id) then
        var next := if call.id == 0 then warm.Refresh(call.snapshot) else warm;
        (next, UcxValue(next.counters[call.id]))
      else
        (warm, NicCounter(ToUint32(call.id - warm.size)))
  }

  lemma RegisterStep(s: State, asked: bool, snapshot: Snapshot)
    requires s.Valid()
    ensures Step(s, Register(asked, snapshot)).0 == if asked then s.Refresh(snapshot) else s
    ensures s.Refresh(snapshot).(mpiInitialized := true) == s.Refresh(snapshot)
    ensures s.(mpiInitialized := true).Refresh(snapshot) == s.Refresh(snapshot)
  {
  }

  /** The snapshots a call takes, in order. */
  function Taken(s: State, call: Call): seq<Snapshot>
    requires s.Valid()
  {
    if call.Register? then if call.asked then [call.snapshot] else []
    else if !Ready(s, call) then []
    else
      (if s.mpiInitialized then [] else [call.warmup]) +
      (if call.id == 0 && IsUcx(Warm(s, call), 0) then [call.snapshot] else [])
  }

  function Run(s: State, calls: seq<Call>): (r: State)
    requires s.Valid()
    ensures r.Valid()
  {
    if calls == [] then s else Step(Run(s, calls[..|calls| - 1]), calls[|calls| - 1]).0
  }

  function Log(s: State, calls: seq<Call>): seq<Snapshot>
    requires s.Valid()
  {
    if calls == [] then []
    else
      var before := calls[..|calls| - 1];
      Log(s, before) + Taken(Run(s, before), calls[|calls| - 1])
  }

  // ---- the array holds the latest snapshot ----

  ghost predicate Holds(s: State, latest: Snapshot) {
    s.Valid() && s.size == |latest| && s.counters[..s.size] == latest
  }

  /** The state after the snapshots in `log` were taken: the fresh one, or one that holds the last of them. */
  ghost predicate Recorded(s: State, log: seq<Snapshot>) {
    if log == [] then s == Fresh() else s.mpiInitialized && Holds(s, log[|log| - 1])
  }

  /** After every run of reads and registrations the live part of the array is the snapshot taken last. */
  lemma {:induction false} HoldsLatest(calls: seq<Call>)
    ensures Recorded(Run(Fresh(), calls), Log(Fresh(), calls))
    ensures |Run(Fresh(), calls).counters| == 64
  {
    if calls != [] {
      var before := calls[..|calls| - 1];
      HoldsLatest(before);
      StepRecords(Run(Fresh(), before), Log(Fresh(), before), calls[|calls| - 1]);
    }
  }

  lemma StepRecords(s: State, before: seq<Snapshot>, call: Call)
    requires s.Valid() && Recorded(s, before)
    ensures Recorded(Step(s, call).0, before + Taken(s, call))
  {
    if Taken(s, call) == [] {
      assert before + Taken(s, call) == before;
    } else if call.Read? {
      RefreshHolds(s, call.warmup);
      RefreshHolds(Warm(s, call), call.snapshot);
    } else {
      RefreshHolds(s, call.snapshot);
    }
  }

  lemma RefreshHolds(s: State, snapshot: Snapshot)
    requires s.Valid()
    ensures Holds(s.Refresh(snapshot), snapshot)
  {
  }

  /** What a read returns, in a state that holds `latest`.  A refresh answered with nothing is reported as a
      failure, and the value read is the old one. */
  lemma ReadOfHeldSnapshot(s: State, latest: Snapshot, call: Call)
    requires s.mpiInitialized && Holds(s, latest) && call.Read?
    ensures Step(s, call).1 ==
            if !(0 <= call.id < |latest|) then NicCounter(ToUint32(call.id - |latest|))
            else if call.id == 0 && call.snapshot != [] then UcxValue(call.snapshot[0])
            else UcxValue(latest[call.id])
  {
    assert IsUcx(s, call.id) ==> latest[call.id] == s.counters[call.id];
  }

  /** The number a NIC counter is asked for, as 32 bits, when `size` sums are held; a negative id has wrapped around. */
  function NicIndex(id: int32, size: nat): uint32
    requires !(0 <= id < size) && size <= 64
  {
    if id < 0 then id - size + 0x1_0000_0000 else id - size
  }

  /** What any read returns, and the snapshot held after it.  As long as MPI is not up that is nothing at all.  The first
      read that finds it up takes a snapshot whatever its id is, and a second one if its id is 0 and the first was not
      empty.  A value after an empty answer is the one held before. */
  lemma OutcomeOfRead(s: State, held: Snapshot, call: Call)
    requires s.Valid() && Holds(s, held) && call.Read?
    ensures !s.mpiInitialized && !call.mpiUp ==> Step(s, call) == (s, NotReady)
    ensures s.mpiInitialized || call.mpiUp ==>
              var (next, outcome) := Step(s, call);
              var found := if s.mpiInitialized then held else call.warmup;
              && next.mpiInitialized
              && Holds(next, if call.id == 0 && found != [] then call.snapshot else found)
              && outcome ==
                 if 0 < call.id < |found| then UcxValue(found[call.id])
                 else if call.id == 0 && found != [] then UcxValue(if call.snapshot != [] then call.snapshot[0] else found[0])
                 else NicCounter(NicIndex(call.id, |found|))
  {
    hide Step, Holds, State.Refresh;
    if s.mpiInitialized {
      ReadWhenUp(s, held, call);
    } else {
      ReadBeforeMpi(s, call);
      RefreshHolds(s, call.warmup);
      RefreshSize(s, call);
      ReadWhenUp(s.Refresh(call.warmup), call.warmup, call);
    }
  }

  lemma ReadBeforeMpi(s: State, call: Call)
    requires s.Valid() && call.Read? && !s.mpiInitialized
    ensures if call.mpiUp then Step(s, call) == Step(s.Refresh(call.warmup), call) else Step(s, call) == (s, NotReady)
  {
  }

  lemma ReadWhenUp(s: State, held: Snapshot, call: Call)
    requires s.mpiInitialized && Holds(s, held) && call.Read?
    ensures
      var (next, outcome) := Step(s, call);
      && next.mpiInitialized
      && Holds(next, if call.id == 0 && held != [] then call.snapshot else held)
      && outcome ==
         if 0 < call.id < |held| then UcxValue(held[call.id])
         else if call.id == 0 && held != [] then UcxValue(if call.snapshot != [] then call.snapshot[0] else held[0])
         else NicCounter(NicIndex(call.id, |held|))
  {
    ReadOfHeldSnapshot(s, held, call);
    RefreshHolds(s, call.snapshot);
  }

  /** A call that asks for no refresh: a read of another id than 0, or a registration served from the file. */
  predicate Quiet(call: Call) {
    if call.Read? then call.id != 0 else !call.asked
  }

  /** After a read of id 0, and as long as only quiet calls follow, reads of the other ids return components of the
      one snapshot that read took. */
  lemma {:induction false} SweepReadsOneSnapshot(s: State, first: Call, rest: seq<Call>)
    requires s.Valid() && s.mpiInitialized && s.size > 0
    requires first.Read? && first.id == 0
    requires forall k :: 0 <= k < |rest| ==> Quiet(rest[k])
    ensures var after := Run(Step(s, first).0, rest);
            && Holds(after, first.snapshot)
            && forall id: int32, up, w, t :: 0 < id < |first.snapshot| ==>
                 Step(after, Read(id, up, w, t)) == (after, UcxValue(first.snapshot[id]))
  {
    var next := Step(s, first).0;
    assert Holds(next, first.snapshot);
    StaysBetweenRefreshes(next, rest);
    forall id: int32, up, w, t | 0 < id < |first.snapshot|
      ensures Step(next, Read(id, up, w, t)) == (next, UcxValue(first.snapshot[id]))
    {
      ReadOfHeldSnapshot(next, first.snapshot, Read(id, up, w, t));
    }
  }

  lemma {:induction false} StaysBetweenRefreshes(s: State, calls: seq<Call>)
    requires s.Valid() && s.mpiInitialized
    requires forall k :: 0 <= k < |calls| ==> Quiet(calls[k])
    ensures Run(s, calls) == s
  {
    if calls != [] {
      StaysBetweenRefreshes(s, calls[..|calls| - 1]);
    }
  }

  // ---- when refreshes happen ----

  /** An occasion for a refresh.  The first read that finds MPI up and a registration that has to ask are forced;
      a read of id 0 is not. */
  datatype Occasion = Occasion(forced: bool, snapshot: Snapshot)

  predicate Initialises(call: Call) {
    if call.Read? then call.mpiUp else call.asked
  }

  ghost predicate IsUp(calls: seq<Call>) {
    exists k :: 0 <= k < |calls| && Initialises(calls[k])
  }

  function OccasionsOf(up: bool, call: Call): seq<Occasion> {
    if call.Register? then if call.asked then [Occasion(true, call.snapshot)] else []
    else if !up && !call.mpiUp then []
    else
      (if up then [] else [Occasion(true, call.warmup)]) +
      (if call.id == 0 then [Occasion(false, call.snapshot)] else [])
  }

  ghost function Occasions(calls: seq<Call>): seq<Occasion> {
    if calls == [] then []
    else
      var before := calls[..|calls| - 1];
      Occasions(before) + OccasionsOf(IsUp(before), calls[|calls| - 1])
  }

  /** Some forced occasion was answered with sums, and so was every occasion after it. */
  ghost predicate Open(occasions: seq<Occasion>) {
    exists f :: 0 <= f < |occasions| && OpenSince(occasions, f)
  }

  ghost predicate OpenSince(occasions: seq<Occasion>, f: nat)
    requires f < |occasions|
  {
    occasions[f].forced && forall j :: f <= j < |occasions| ==> occasions[j].snapshot != []
  }

  /** The forced occasions, and the others before which the snapshot is open. */
  ghost function Used(occasions: seq<Occasion>): seq<Snapshot> {
    if occasions == [] then []
    else
      var before, last := occasions[..|occasions| - 1], occasions[|occasions| - 1];
      Used(before) + if last.forced || Open(before) then [last.snapshot] else []
  }

  lemma OneMoreOccasion(occasions: seq<Occasion>, next: Occasion)
    ensures Open(occasions + [next]) <==> next.snapshot != [] && (next.forced || Open(occasions))
    ensures Used(occasions + [next]) ==
            Used(occasions) + if next.forced || Open(occasions) then [next.snapshot] else []
  {
    var all := occasions + [next];
    assert all[..|all| - 1] == occasions;
    if Open(all) {
      var f :| 0 <= f < |all| && OpenSince(all, f);
      assert all[|occasions|] == next;
      if f < |occasions| {
        assert forall j :: f <= j < |occasions| ==> occasions[j] == all[j];
        assert OpenSince(occasions, f);
      }
    }
    if next.snapshot != [] && next.forced {
      assert OpenSince(all, |occasions|);
    }
    if f :| 0 <= f < |occasions| && OpenSince(occasions, f) {
      assert forall j :: f <= j < |occasions| ==> all[j] == occasions[j];
      assert next.snapshot != [] ==> OpenSince(all, f);
    }
  }

  /** A run of reads and registrations takes exactly these snapshots: each forced one, and that of a read of id 0
      if and only if sums came with some forced occasion before it and with every occasion since.  So after an
      empty answer only a registration can bring the sums back. */
  lemma {:induction false} RefreshesOfRun(calls: seq<Call>)
    ensures Log(Fresh(), calls) == Used(Occasions(calls))
    ensures Run(Fresh(), calls).mpiInitialized <==> IsUp(calls)
    ensures Run(Fresh(), calls).size > 0 <==> Open(Occasions(calls))
    ensures !Run(Fresh(), calls).mpiInitialized ==> Run(Fresh(), calls).size == 0
  {
    if calls != [] {
      hide Run, Log, Occasions, Used, Open, OccasionsOf, Taken, Step, IsUp, Initialises, Fresh;
      var before, call := calls[..|calls| - 1], calls[|calls| - 1];
      OneMoreCall(before, call);
      RefreshesOfRun(before);
      UpStep(before, call);
      assert calls == before + [call];
      OccasionsOfStep(Run(Fresh(), before), Occasions(before), call);
    }
  }

  lemma OneMoreCall(before: seq<Call>, call: Call)
    ensures var s := Run(Fresh(), before);
            && Run(Fresh(), before + [call]) == Step(s, call).0
            && Log(Fresh(), before + [call]) == Log(Fresh(), before) + Taken(s, call)
            && Occasions(before + [call]) == Occasions(before) + OccasionsOf(IsUp(before), call)
  {
    assert (before + [call])[..|before|] == before;
  }

  lemma UpStep(before: seq<Call>, call: Call)
    ensures IsUp(before + [call]) <==> IsUp(before) || Initialises(call)
  {
    var all := before + [call];
    if k :| 0 <= k < |before| && Initialises(before[k]) {
      assert Initialises(all[k]);
    }
    if Initialises(call) {
      assert Initialises(all[|before|]);
    }
  }

  lemma RefreshSize(s: State, call: Call)
    requires s.Valid()
    ensures s.Refresh(call.snapshot).mpiInitialized && s.Refresh(call.snapshot).size == |call.snapshot|
    ensures call.Read? ==>
              && s.Refresh(call.warmup).mpiInitialized && s.Refresh(call.warmup).size == |call.warmup|
              && Warm(s, call).Refresh(call.snapshot).mpiInitialized
              && Warm(s, call).Refresh(call.snapshot).size == |call.snapshot|
  {
  }

  lemma OccasionsOfStep(s: State, occasions: seq<Occasion>, call: Call)
    requires s.Valid() && (s.size > 0 <==> Open(occasions)) && (!s.mpiInitialized ==> s.size == 0)
    ensures var all := occasions + OccasionsOf(s.mpiInitialized, call);
            && Used(all) == Used(occasions) + Taken(s, call)
            && (Step(s, call).0.size > 0 <==> Open(all))
            && (Step(s, call).0.mpiInitialized <==> s.mpiInitialized || Initialises(call))
            && (!Step(s, call).0.mpiInitialized ==> Step(s, call).0.size == 0)
  {
    hide Used, Open, State.Refresh;
    RefreshSize(s, call);
    if call.Register? {
      OneMoreOccasion(occasions, Occasion(true, call.snapshot));
      assert occasions + [] == occasions && Used(occasions) + [] == Used(occasions);
    } else {
      var warmup, read := Occasion(true, call.warmup), Occasion(false, call.snapshot);
      OneMoreOccasion(occasions, warmup);
      OneMoreOccasion(occasions, read);
      OneMoreOccasion(occasions + [warmup], read);
      assert occasions + [warmup, read] == occasions + [warmup] + [read];
      assert [warmup] + [read] == [warmup, read] && occasions + [] == occasions;
      assert [warmup] + [] == [warmup] && [] + [read] == [read];
    }
  }

  // ---- whether an id reads the counter that was registered under it ----

  /** A counter: a component of the snapshot, or a counter of the NIC device. */
  datatype Counter = Sum(k: nat) | Nic(j: nat)

  /** The counter that stands at a position in the list of metrics, with `ucx` names of UCX counters in front. */
  function CounterOf(id: nat, ucx: nat): Counter {
    if id < ucx then Sum(id) else Nic(id - ucx)
  }

  /** The read returns this very counter, as it is after the read. */
  predicate Reads(s: State, call: Call, counter: Counter)
    requires s.Valid() && call.Read?
  {
    var (next, outcome) := Step(s, call);
    match counter
    case Sum(k) => k < next.size && call.id == k && outcome == UcxValue(next.counters[k])
    case Nic(j) => j <= UINT32_MAX && outcome == NicCounter(j)
  }

  predicate ReadsItsOwn(s: State, call: Call, ucx: nat)
    requires s.Valid() && call.Read? && 0 <= call.id
  {
    Reads(s, call, CounterOf(call.id, ucx))
  }

  /** Reads of the ids 0, 1, ... in order, as a measurement makes them. */
  predicate IsSweep(calls: seq<Call>) {
    forall k :: 0 <= k < |calls| ==> calls[k].Read? && calls[k].id == k
  }

  ghost predicate SweepReadsItsOwn(s: State, calls: seq<Call>, ucx: nat)
    requires s.Valid() && IsSweep(calls)
  {
    forall k :: 0 <= k < |calls| ==> ReadsItsOwn(Run(s, calls[..k]), calls[k], ucx)
  }

  /** The number of sums a read finds when it comes to dispatch its id. */
  function SizeFound(s: State, call: Call): nat
    requires call.Read?
  {
    if s.mpiInitialized then s.size else |call.warmup|
  }

  /** As many sums as UCX names; or more, if no NIC counter is registered. */
  predicate Matches(sums: nat, ucx: nat, nic: nat) {
    sums == ucx || (sums > ucx && nic == 0)
  }

  /** The condition for one sweep: MPI is up; with UCX names, id 0 finds sums and the snapshot that it takes matches;
      with none, there are no sums. */
  predicate SweepMatches(s: State, first: Call, ucx: nat, nic: nat)
    requires first.Read?
  {
    && Ready(s, first)
    && if ucx == 0 then SizeFound(s, first) == 0
       else SizeFound(s, first) > 0 && Matches(|first.snapshot|, ucx, nic)
  }

  lemma FirstOfSweep(s: State, first: Call, ucx: nat)
    requires s.Valid() && first.Read? && first.id == 0
    ensures
      var next := Step(s, first).0;
      && (Ready(s, first) ==>
            && next.mpiInitialized
            && next.size == if SizeFound(s, first) > 0 then |first.snapshot| else 0)
      && (ReadsItsOwn(s, first, ucx) <==>
          Ready(s, first) && if ucx == 0 then SizeFound(s, first) == 0 else SizeFound(s, first) > 0 && first.snapshot != [])
  {
  }

  lemma LaterOfSweep(s: State, call: Call, ucx: nat)
    requires s.Valid() && s.mpiInitialized && call.Read? && 0 < call.id
    ensures Step(s, call).0 == s
    ensures ReadsItsOwn(s, call, ucx) <==> if call.id < ucx then call.id < s.size else s.size == ucx
  {
  }

  /** After its first read a sweep changes nothing. */
  lemma {:induction false} SweepState(s: State, calls: seq<Call>, k: nat)
    requires s.Valid() && IsSweep(calls) && 0 < k <= |calls| && Ready(s, calls[0])
    ensures Run(s, calls[..k]) == Step(s, calls[0]).0
  {
    hide Step, ReadsItsOwn;
    assert calls[..k][..k - 1] == calls[..k - 1];
    if k > 1 {
      SweepState(s, calls, k - 1);
      FirstOfSweep(s, calls[0], 0);
      LaterOfSweep(Step(s, calls[0]).0, calls[k - 1], 0);
    }
  }

  /** A sweep over all registered ids, from any state, reads everyone's own counter exactly when its snapshot matches. */
  lemma SweepReadsItsOwnIff(s: State, calls: seq<Call>, ucx: nat, nic: nat)
    requires s.Valid() && IsSweep(calls) && |calls| == ucx + nic > 0
    ensures SweepReadsItsOwn(s, calls, ucx) <==> SweepMatches(s, calls[0], ucx, nic)
  {
    hide Step, Run, ReadsItsOwn;
    var first, next := calls[0], Step(s, calls[0]).0;
    FirstOfSweep(s, first, ucx);
    assert Run(s, calls[..0]) == s by { RunNothing(s); assert calls[..0] == []; }
    if Ready(s, first) {
      forall k | 0 < k < |calls|
        ensures ReadsItsOwn(Run(s, calls[..k]), calls[k], ucx) <==> if k < ucx then k < next.size else next.size == ucx
      {
        SweepState(s, calls, k);
        LaterOfSweep(next, calls[k], ucx);
      }
      if SweepReadsItsOwn(s, calls, ucx) && ucx > 0 {
        assert ucx > 1 ==> ReadsItsOwn(Run(s, calls[..ucx - 1]), calls[ucx - 1], ucx);
        assert nic > 0 ==> ReadsItsOwn(Run(s, calls[..ucx]), calls[ucx], ucx);
      }
    }
    assert ReadsItsOwn(Run(s, calls[..0]), calls[0], ucx) <==> ReadsItsOwn(s, first, ucx);
  }

  lemma RunNothing(s: State)
    requires s.Valid()
    ensures Run(s, []) == s
  {
  }

  ghost predicate SweepsReadTheirOwn(s: State, sweeps: seq<seq<Call>>, ucx: nat)
    requires s.Valid() && forall i :: 0 <= i < |sweeps| ==> IsSweep(sweeps[i])
    decreases |sweeps|
  {
    sweeps == [] ||
    (SweepReadsItsOwn(s, sweeps[0], ucx) && SweepsReadTheirOwn(Run(s, sweeps[0]), sweeps[1..], ucx))
  }

  /** Over any number of sweeps every read is one of the id's own counter exactly when the first sweep finds sums and
      every sweep's snapshot matches; or, without UCX names, when the first sweep finds no sums. */
  lemma {:induction false} SweepsReadTheirOwnIff(s: State, sweeps: seq<seq<Call>>, ucx: nat, nic: nat)
    requires s.Valid() && ucx + nic > 0
    requires forall i :: 0 <= i < |sweeps| ==> IsSweep(sweeps[i]) && |sweeps[i]| == ucx + nic
    ensures SweepsReadTheirOwn(s, sweeps, ucx) <==>
            sweeps == [] ||
            (&& Ready(s, sweeps[0][0])
             && if ucx == 0 then SizeFound(s, sweeps[0][0]) == 0
                else
                  && SizeFound(s, sweeps[0][0]) > 0
                  && forall i :: 0 <= i < |sweeps| ==> Matches(|sweeps[i][0].snapshot|, ucx, nic))
    decreases |sweeps|
  {
    hide Step, Run, ReadsItsOwn, SweepReadsItsOwn;
    if sweeps != [] {
      var calls := sweeps[0];
      SweepReadsItsOwnIff(s, calls, ucx, nic);
      if SweepMatches(s, calls[0], ucx, nic) {
        SweepState(s, calls, |calls|);
        assert calls[..|calls|] == calls;
        FirstOfSweep(s, calls[0], ucx);
      }
      SweepsReadTheirOwnIff(Run(s, calls), sweeps[1..], ucx, nic);
      assert forall i :: 0 < i < |sweeps| ==> sweeps[i] == sweeps[1..][i - 1];
    }
  }

  /** That the snapshot matches when the counters are registered is not enough: the first read of a sweep takes
      another.  With two names registered and two sums held, one sum less sends id 1 to the NIC counters. */
  lemma OneSumLessSendsIdAway(up: bool, w: Snapshot, t: Snapshot)
    ensures
      var registered := Step(Fresh(), Register(true, [7, 8])).0;
      var calls := [Read(0, up, w, [9]), Read(1, up, w, t)];
      && registered.size == 2 && IsSweep(calls)
      && Step(Run(registered, calls[..1]), calls[1]).1 == NicCounter(0)
      && !SweepReadsItsOwn(registered, calls, 2)
  {
    var registered := Step(Fresh(), Register(true, [7, 8])).0;
    var calls := [Read(0, up, w, [9]), Read(1, up, w, t)];
    SweepReadsItsOwnIff(registered, calls, 2, 0);
    SweepState(registered, calls, 1);
    FirstOfSweep(registered, calls[0], 2);
  }
}
