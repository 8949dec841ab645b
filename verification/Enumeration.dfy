/** The legacy enumeration: rank 0 reads the counters list and sends it to the other ranks, by one barrier
    and three broadcasts (sections 5.3 and 5.4 of MPI-3.1), as interleaved steps of any number of ranks. */
module Enumeration {
  import opened CStrings
  import opened NameSerializer

  datatype ElementType = LongLong | Character

  /** A collective call as a rank issues it.  Calls match when all their arguments do. */
  datatype Call = Barrier | Bcast(count: nat, element: ElementType, root: nat)

  /** What the root of a broadcast puts into it. */
  datatype Payload = Nothing | Number(n: nat) | Text(text: string)

  datatype Op = ReadList | SerializeNames | Allocate | Conclude | Synchronise | BcastCount | BcastSize | BcastNames

  datatype Option<T> = None | Some(value: T)

  /** One rank.  `inside` tells that it has issued the collective it stands at and not returned from it;
      the data fields start with whatever was in memory. */
  datatype Rank = Rank(
    pc: nat, inside: bool, issued: seq<Call>,
    list: seq<CString>, count: nat, size: nat, room: nat, buffer: string,
    counters: Option<nat>)

  datatype World = World(ranks: seq<Rank>, posted: seq<Payload>, failed: bool)

  /** `sync`: the library lets no rank out of a broadcast before all have entered it.  Otherwise the root may
      go on at once, and the other ranks as soon as the root has entered. */
  datatype Setup = Setup(names: seq<CString>, dummy: nat, sync: bool)

  const ROOT_PROGRAM: seq<Op> := [ReadList, Synchronise, SerializeNames, BcastCount, BcastSize, BcastNames, Conclude]
  const OTHER_PROGRAM: seq<Op> := [Synchronise, BcastCount, BcastSize, Allocate, BcastNames, Conclude]

  function Program(r: nat): seq<Op> {
    if r == 0 then ROOT_PROGRAM else OTHER_PROGRAM
  }

  predicate IsCollective(op: Op) {
    op.Synchronise? || op.BcastCount? || op.BcastSize? || op.BcastNames?
  }

  function CallOf(op: Op, s: Rank): Call
    requires IsCollective(op)
  {
    match op
    case Synchronise => Barrier
    case BcastNames => Bcast(s.size, Character, 0)
    case _ => Bcast(1, LongLong, 0)
  }

  function PayloadOf(op: Op, s: Rank): Payload
    requires IsCollective(op)
  {
    match op
    case Synchronise => Nothing
    case BcastCount => Number(|s.list|)
    case BcastSize => Number(s.size)
    case BcastNames => Text(s.buffer)
  }

  /** The number of counters, capped by the user's limit; the limit 1 means none. */
  function Cap(count: nat, dummy: nat): (r: nat)
    ensures r <= count && (dummy != 1 ==> r <= dummy)
    ensures r == count || (dummy != 1 && r == dummy)
  {
    if dummy != 1 && dummy < count then dummy else count
  }

  function Local(setup: Setup, op: Op, s: Rank): Rank
    requires !IsCollective(op)
  {
    match op
    case ReadList => s.(list := setup.names)
    case SerializeNames => s.(size := TotalSize(s.list), buffer := Serialize(s.list))
    case Allocate => s.(room := s.size)
    case Conclude => s.(counters := Some(Cap(s.count, setup.dummy)))
  }

  /** What a broadcast leaves with a rank; rank 0 sets its own count before it sends it. */
  function Receive(op: Op, s: Rank, payload: Payload): Option<Rank> {
    match (op, payload)
    case (BcastCount, Number(n)) => Some(s.(count := n))
    case (BcastSize, Number(n)) => Some(s.(size := n))
    case (BcastNames, Text(t)) => if |t| <= s.room then Some(s.(buffer := t)) else None
    case _ => None
  }

  predicate Entered(w: World, r: nat, k: nat) {
    r < |w.ranks| && |w.ranks[r].issued| > k
  }

  predicate AllEntered(w: World, k: nat) {
    forall r :: 0 <= r < |w.ranks| ==> |w.ranks[r].issued| > k
  }

  predicate CanLeave(setup: Setup, w: World, r: nat)
    requires r < |w.ranks| && w.ranks[r].issued != []
  {
    var k := |w.ranks[r].issued| - 1;
    AllEntered(w, k) || (w.ranks[r].issued[k].Bcast? && !setup.sync && Entered(w, 0, k))
  }

  predicate Enabled(setup: Setup, w: World, r: nat) {
    && r < |w.ranks|
    && var s := w.ranks[r];
       && s.pc < |Program(r)|
       && (s.inside ==> s.issued != [] && CanLeave(setup, w, r))
  }

  function Step(setup: Setup, w: World, r: nat): World
    requires Enabled(setup, w, r)
  {
    var s := w.ranks[r];
    var op := Program(r)[s.pc];
    if !IsCollective(op) then
      w.(ranks := w.ranks[r := Local(setup, op, s).(pc := s.pc + 1)])
    else if !s.inside then
      var ready := if r == 0 && op.BcastCount? then s.(count := |s.list|) else s;
      var next := ready.(inside := true, issued := s.issued + [CallOf(op, s)]);
      w.(ranks := w.ranks[r := next], posted := if r == 0 then w.posted + [PayloadOf(op, s)] else w.posted)
    else
      var left := s.(inside := false, pc := s.pc + 1);
      var k := |s.issued| - 1;
      if r == 0 || op.Synchronise? then w.(ranks := w.ranks[r := left])
      else if k >= |w.posted| || k >= |w.ranks[0].issued| || w.ranks[0].issued[k] != s.issued[k] then
        w.(failed := true)
      else
        match Receive(op, left, w.posted[k])
        case None => w.(failed := true)
        case Some(next) => w.(ranks := w.ranks[r := next])
  }

  // ---- runs ----

  predicate IsRun(setup: Setup, w: World, schedule: seq<nat>)
    decreases |schedule|
  {
    schedule == [] || (Enabled(setup, w, schedule[0]) && IsRun(setup, Step(setup, w, schedule[0]), schedule[1..]))
  }

  function Final(setup: Setup, w: World, schedule: seq<nat>): World
    requires IsRun(setup, w, schedule)
    decreases |schedule|
  {
    if schedule == [] then w else Final(setup, Step(setup, w, schedule[0]), schedule[1..])
  }

  ghost predicate Initial(w: World) {
    && w.ranks != [] && w.posted == [] && !w.failed
    && forall r :: 0 <= r < |w.ranks| ==>
         w.ranks[r].pc == 0 && !w.ranks[r].inside && w.ranks[r].issued == [] && w.ranks[r].counters == None
  }

  predicate Finished(w: World) {
    forall r :: 0 <= r < |w.ranks| ==> w.ranks[r].pc == |Program(r)|
  }

  // ---- what every step keeps ----

  /** The collectives every rank issues, in order. */
  function Protocol(names: seq<CString>): (p: seq<Call>)
    ensures |p| == 4
  {
    [Barrier, Bcast(1, LongLong, 0), Bcast(1, LongLong, 0), Bcast(|Serialize(names)|, Character, 0)]
  }

  function Payloads(names: seq<CString>): (p: seq<Payload>)
    ensures |p| == 4
  {
    [Nothing, Number(|names|), Number(|Serialize(names)|), Text(Serialize(names))]
  }

  /** How many collectives a rank has returned from when it stands at `pc`. */
  function Returned(r: nat, pc: nat): (k: nat)
    ensures k <= 4
  {
    if r == 0 then [0, 0, 1, 1, 2, 3, 4][if pc < 7 then pc else 6]
    else [0, 1, 2, 3, 3, 4][if pc < 6 then pc else 5]
  }

  function IssuedCount(r: nat, s: Rank): nat {
    Returned(r, s.pc) + if s.inside then 1 else 0
  }

  predicate RootData(setup: Setup, s: Rank) {
    && (s.pc > 0 ==> s.list == setup.names)
    && (s.pc > 2 ==> s.size == |Serialize(setup.names)| && s.buffer == Serialize(setup.names))
    && ((s.pc == 3 && s.inside) || s.pc > 3 ==> s.count == |setup.names|)
    && (s.pc > 6 ==> s.counters == Some(Cap(|setup.names|, setup.dummy)))
  }

  predicate OtherData(setup: Setup, s: Rank) {
    && (s.pc > 1 ==> s.count == |setup.names|)
    && (s.pc > 2 ==> s.size == |Serialize(setup.names)|)
    && (s.pc > 3 ==> s.room == s.size)
    && (s.pc > 4 ==> s.buffer == Serialize(setup.names))
    && (s.pc > 5 ==> s.counters == Some(Cap(|setup.names|, setup.dummy)))
  }

  predicate RankOk(setup: Setup, r: nat, s: Rank) {
    && s.pc <= |Program(r)|
    && (s.inside ==> s.pc < |Program(r)| && IsCollective(Program(r)[s.pc]))
    && IssuedCount(r, s) <= 4
    && s.issued == Protocol(setup.names)[..IssuedCount(r, s)]
    && if r == 0 then RootData(setup, s) else OtherData(setup, s)
  }

  ghost predicate Invariant(setup: Setup, w: World) {
    && w.ranks != [] && !w.failed
    && (forall r :: 0 <= r < |w.ranks| ==> RankOk(setup, r, w.ranks[r]))
    && |w.posted| == |w.ranks[0].issued|
    && w.posted == Payloads(setup.names)[..|w.posted|]
    && ((exists r :: 0 <= r < |w.ranks| && Returned(r, w.ranks[r].pc) > 0) ==> AllEntered(w, 0))
  }

  lemma RootStepOk(setup: Setup, w: World)
    requires Invariant(setup, w) && Enabled(setup, w, 0)
    ensures var next := Step(setup, w, 0);
            && !next.failed
            && RankOk(setup, 0, next.ranks[0])
            && |next.posted| == |next.ranks[0].issued|
            && next.posted == Payloads(setup.names)[..|next.posted|]
  {
    hide TotalSize, Serialize;
    SerializedSize(setup.names);
    var k, calls, payloads := |w.ranks[0].issued|, Protocol(setup.names), Payloads(setup.names);
    if k < 4 {
      assert calls[..k + 1] == calls[..k] + [calls[k]] && payloads[..k + 1] == payloads[..k] + [payloads[k]];
    }
  }

  lemma OtherStepDelivers(setup: Setup, w: World, r: nat)
    requires r > 0 && Invariant(setup, w) && Enabled(setup, w, r)
    ensures !Step(setup, w, r).failed && Step(setup, w, r).posted == w.posted
  {
    hide TotalSize, Serialize;
    assert RankOk(setup, 0, w.ranks[0]);
  }

  lemma OtherStepOk(setup: Setup, w: World, r: nat)
    requires r > 0 && Invariant(setup, w) && Enabled(setup, w, r)
    ensures RankOk(setup, r, Step(setup, w, r).ranks[r])
  {
    hide TotalSize, Serialize;
    OtherStepDelivers(setup, w, r);
  }

  lemma StepChangesOneRank(setup: Setup, w: World, r: nat)
    requires Enabled(setup, w, r)
    ensures |Step(setup, w, r).ranks| == |w.ranks|
    ensures forall q :: 0 <= q < |w.ranks| && q != r ==> Step(setup, w, r).ranks[q] == w.ranks[q]
    ensures |Step(setup, w, r).ranks[r].issued| >= |w.ranks[r].issued|
  {
  }

  lemma StepKeepsInvariant(setup: Setup, w: World, r: nat)
    requires Invariant(setup, w) && Enabled(setup, w, r)
    ensures Invariant(setup, Step(setup, w, r))
    ensures |Step(setup, w, r).ranks| == |w.ranks|
  {
    hide RootData, OtherData, Step, Payloads, RankOk;
    StepChangesOneRank(setup, w, r);
    if r == 0 {
      RootStepOk(setup, w);
    } else {
      OtherStepOk(setup, w, r);
      OtherStepDelivers(setup, w, r);
    }
    if Returned(r, Step(setup, w, r).ranks[r].pc) > 0 {
      BarrierStep(setup, w, r);
    }
  }

  /** The first rank to get past the barrier finds all ranks in it. */
  lemma BarrierStep(setup: Setup, w: World, r: nat)
    requires Invariant(setup, w) && Enabled(setup, w, r)
    requires Returned(r, Step(setup, w, r).ranks[r].pc) > 0
    ensures AllEntered(w, 0)
  {
    hide RootData, OtherData, Payloads, Local, Receive;
    assert RankOk(setup, r, w.ranks[r]);
  }

  // ---- no run gets stuck ----

  /** Some rank can take a step, unless all have finished: of the unfinished ranks, one that has issued the
      fewest collectives is never kept waiting. */
  lemma Progress(setup: Setup, w: World) returns (r: nat)
    requires Invariant(setup, w) && !Finished(w)
    ensures Enabled(setup, w, r)
  {
    r := LeastAdvanced(w, |w.ranks|);
    var s := w.ranks[r];
    assert RankOk(setup, r, s);
    if s.inside {
      forall q | 0 <= q < |w.ranks|
        ensures |w.ranks[q].issued| >= |s.issued|
      {
        assert RankOk(setup, q, w.ranks[q]);
      }
    }
  }

  lemma {:induction false} LeastAdvanced(w: World, n: nat) returns (r: nat)
    requires n <= |w.ranks| && exists q :: 0 <= q < n && w.ranks[q].pc != |Program(q)|
    ensures r < n && w.ranks[r].pc != |Program(r)|
    ensures forall q :: 0 <= q < n && w.ranks[q].pc != |Program(q)| ==> |w.ranks[r].issued| <= |w.ranks[q].issued|
  {
    if exists q :: 0 <= q < n - 1 && w.ranks[q].pc != |Program(q)| {
      r := LeastAdvanced(w, n - 1);
      if w.ranks[n - 1].pc != |Program(n - 1)| && |w.ranks[n - 1].issued| < |w.ranks[r].issued| {
        r := n - 1;
      }
    } else {
      r := n - 1;
    }
  }

  /** The steps a rank has yet to take: one for each operation, and one more to enter each collective. */
  function StepsLeft(r: nat, s: Rank): int {
    |Program(r)| - s.pc + 4 - |s.issued|
  }

  function TotalLeft(ranks: seq<Rank>): int {
    if ranks == [] then 0 else TotalLeft(ranks[..|ranks| - 1]) + StepsLeft(|ranks| - 1, ranks[|ranks| - 1])
  }

  lemma {:induction false} TotalLeftUpdate(ranks: seq<Rank>, r: nat, s: Rank)
    requires r < |ranks|
    ensures TotalLeft(ranks[r := s]) == TotalLeft(ranks) - StepsLeft(r, ranks[r]) + StepsLeft(r, s)
  {
    var init := ranks[..|ranks| - 1];
    if r < |init| {
      TotalLeftUpdate(init, r, s);
      assert ranks[r := s][..|ranks| - 1] == init[r := s];
    } else {
      assert ranks[r := s][..|ranks| - 1] == init;
    }
  }

  lemma {:induction false} TotalLeftBounds(setup: Setup, ranks: seq<Rank>)
    requires forall r :: 0 <= r < |ranks| ==> RankOk(setup, r, ranks[r])
    ensures TotalLeft(ranks) >= 0
    ensures TotalLeft(ranks) == 0 <==> forall r :: 0 <= r < |ranks| ==> ranks[r].pc == |Program(r)|
  {
    if ranks != [] {
      var last := |ranks| - 1;
      TotalLeftBounds(setup, ranks[..last]);
      assert forall r :: 0 <= r < last ==> ranks[..last][r] == ranks[r];
      assert RankOk(setup, last, ranks[last]);
    }
  }

  lemma {:induction false} TotalLeftAtStart(w: World, n: nat)
    requires Initial(w) && n <= |w.ranks|
    ensures TotalLeft(w.ranks[..n]) == 10 * n + if n > 0 then 1 else 0
  {
    if n > 0 {
      TotalLeftAtStart(w, n - 1);
      assert w.ranks[..n][..n - 1] == w.ranks[..n - 1];
    }
  }

  lemma StepTakesOne(setup: Setup, w: World, r: nat)
    requires Invariant(setup, w) && Enabled(setup, w, r)
    ensures TotalLeft(Step(setup, w, r).ranks) == TotalLeft(w.ranks) - 1
  {
    hide RootData, OtherData, Payloads, Protocol, TotalLeft, TotalSize, Serialize, CanLeave;
    StepKeepsInvariant(setup, w, r);
    var next := Step(setup, w, r);
    assert RankOk(setup, r, w.ranks[r]) && RankOk(setup, r, next.ranks[r]);
    assert next.ranks == w.ranks[r := next.ranks[r]];
    TotalLeftUpdate(w.ranks, r, next.ranks[r]);
  }

  // ---- whole runs ----

  lemma {:induction false} RunFrom(setup: Setup, w: World, schedule: seq<nat>)
    requires Invariant(setup, w) && IsRun(setup, w, schedule)
    ensures var end := Final(setup, w, schedule);
            && Invariant(setup, end) && |end.ranks| == |w.ranks|
            && TotalLeft(end.ranks) == TotalLeft(w.ranks) - |schedule|
    decreases |schedule|
  {
    if schedule != [] {
      StepKeepsInvariant(setup, w, schedule[0]);
      StepTakesOne(setup, w, schedule[0]);
      RunFrom(setup, Step(setup, w, schedule[0]), schedule[1..]);
    }
  }

  lemma InitialInvariant(setup: Setup, w: World)
    requires Initial(w)
    ensures Invariant(setup, w)
  {
  }

  /** No run is longer than ten steps a rank and one, every run can go on until all ranks have finished, and
      it ends exactly then. */
  lemma EveryRunFinishes(setup: Setup, w: World, schedule: seq<nat>)
    requires Initial(w) && IsRun(setup, w, schedule)
    ensures var end := Final(setup, w, schedule);
            && |schedule| <= 10 * |w.ranks| + 1
            && (Finished(end) <==> |schedule| == 10 * |w.ranks| + 1)
            && (Finished(end) <==> !exists r :: Enabled(setup, end, r))
  {
    InitialInvariant(setup, w);
    RunFrom(setup, w, schedule);
    var end := Final(setup, w, schedule);
    TotalLeftAtStart(w, |w.ranks|);
    assert w.ranks[..|w.ranks|] == w.ranks;
    TotalLeftBounds(setup, end.ranks);
    if !Finished(end) {
      var r := Progress(setup, end);
    }
  }

  /** At every point of every run the ranks have issued the same collectives, with the same arguments, as far as
      each has come; so no message is ever refused. */
  lemma SameCollectives(setup: Setup, w: World, schedule: seq<nat>, q: nat, r: nat)
    requires Initial(w) && IsRun(setup, w, schedule)
    requires q < |Final(setup, w, schedule).ranks| && r < |Final(setup, w, schedule).ranks|
    ensures var end := Final(setup, w, schedule);
            && !end.failed
            && (end.ranks[q].issued <= end.ranks[r].issued || end.ranks[r].issued <= end.ranks[q].issued)
  {
    InitialInvariant(setup, w);
    RunFrom(setup, w, schedule);
    var end := Final(setup, w, schedule);
    assert RankOk(setup, q, end.ranks[q]) && RankOk(setup, r, end.ranks[r]);
  }

  /** No rank gets past the barrier before rank 0 has read its list. */
  lemma BarrierWaitsForRead(setup: Setup, w: World, schedule: seq<nat>, r: nat)
    requires Initial(w) && IsRun(setup, w, schedule)
    requires r < |Final(setup, w, schedule).ranks|
    requires r > 0 && Final(setup, w, schedule).ranks[r].pc > 0
    ensures Final(setup, w, schedule).ranks[0].list == setup.names
  {
    InitialInvariant(setup, w);
    RunFrom(setup, w, schedule);
    var end := Final(setup, w, schedule);
    assert RankOk(setup, r, end.ranks[r]) && RankOk(setup, 0, end.ranks[0]);
    assert Returned(r, end.ranks[r].pc) > 0;
    assert |end.ranks[0].issued| > 0;
  }

  /** When all ranks have finished, each of them has the same, capped number of counters and a buffer that
      holds exactly the names rank 0 read. */
  lemma AllRanksAgree(setup: Setup, w: World, schedule: seq<nat>, r: nat)
    requires Initial(w) && IsRun(setup, w, schedule) && Finished(Final(setup, w, schedule))
    requires r < |w.ranks|
    ensures var end := Final(setup, w, schedule);
            && |end.ranks| == |w.ranks|
            && end.ranks[r].counters == Some(Cap(|setup.names|, setup.dummy))
            && Deserialize(end.ranks[r].buffer) == setup.names
  {
    InitialInvariant(setup, w);
    RunFrom(setup, w, schedule);
    DeserializeSerialize(setup.names);
    var end := Final(setup, w, schedule);
    assert RankOk(setup, r, end.ranks[r]);
  }

  /** That number is the lesser one of the number of names and the limit, and the limit 1 is none. */
  lemma CountOfFinishedRun(setup: Setup, w: World, schedule: seq<nat>, r: nat)
    requires Initial(w) && IsRun(setup, w, schedule) && Finished(Final(setup, w, schedule))
    requires r < |w.ranks|
    ensures var end := Final(setup, w, schedule);
            && |end.ranks| == |w.ranks| && end.ranks[r].counters.Some?
            && var count := end.ranks[r].counters.value;
               && count <= |setup.names| && (setup.dummy != 1 ==> count <= setup.dummy)
               && (count == |setup.names| || (setup.dummy != 1 && count == setup.dummy))
  {
    AllRanksAgree(setup, w, schedule, r);
  }

  /** A rank that has finished has issued one barrier and three broadcasts from rank 0: two of a single number, and one of
      as many characters as the names take, a terminator each. */
  lemma CollectivesOfFinishedRun(setup: Setup, w: World, schedule: seq<nat>, r: nat)
    requires Initial(w) && IsRun(setup, w, schedule) && Finished(Final(setup, w, schedule))
    requires r < |w.ranks|
    ensures var end := Final(setup, w, schedule);
            && |end.ranks| == |w.ranks|
            && end.ranks[r].issued ==
               [Barrier, Bcast(1, LongLong, 0), Bcast(1, LongLong, 0), Bcast(TotalSize(setup.names), Character, 0)]
  {
    InitialInvariant(setup, w);
    RunFrom(setup, w, schedule);
    SerializedSize(setup.names);
    var end := Final(setup, w, schedule);
    assert RankOk(setup, r, end.ranks[r]);
  }

  /** In a finished run a rank's number of counters is within the user's limit exactly when the limit is not 1 or
      rank 0 read no more than one name. */
  lemma LimitKeptIff(setup: Setup, w: World, schedule: seq<nat>, r: nat)
    requires Initial(w) && IsRun(setup, w, schedule) && Finished(Final(setup, w, schedule))
    requires r < |w.ranks|
    ensures var end := Final(setup, w, schedule);
            && |end.ranks| == |w.ranks| && end.ranks[r].counters.Some?
            && (end.ranks[r].counters.value <= setup.dummy <==> setup.dummy != 1 || |setup.names| <= 1)
  {
    AllRanksAgree(setup, w, schedule, r);
  }

  /** Every run can be carried on until all ranks have finished. */
  lemma {:induction false} CanFinish(setup: Setup, w: World) returns (schedule: seq<nat>)
    requires Invariant(setup, w)
    ensures IsRun(setup, w, schedule) && Finished(Final(setup, w, schedule))
    decreases TotalLeft(w.ranks)
  {
    schedule := [];
    if !Finished(w) {
      var r := Progress(setup, w);
      StepKeepsInvariant(setup, w, r);
      StepTakesOne(setup, w, r);
      TotalLeftBounds(setup, w.ranks);
      var rest := CanFinish(setup, Step(setup, w, r));
      schedule := [r] + rest;
      assert schedule[1..] == rest;
    }
  }

  /** With two names or more there is a finished run in which a user's limit of 1 is exceeded, by every rank. */
  lemma LimitOfOneExceeded(names: seq<CString>, sync: bool, w: World) returns (schedule: seq<nat>)
    requires Initial(w) && |names| > 1
    ensures
      var setup := Setup(names, 1, sync);
      && IsRun(setup, w, schedule) && Finished(Final(setup, w, schedule))
      && |Final(setup, w, schedule).ranks| == |w.ranks|
      && forall r :: 0 <= r < |w.ranks| ==>
           Final(setup, w, schedule).ranks[r].counters == Some(|names|)
  {
    var setup := Setup(names, 1, sync);
    InitialInvariant(setup, w);
    schedule := CanFinish(setup, w);
    forall r | 0 <= r < |w.ranks|
      ensures |Final(setup, w, schedule).ranks| == |w.ranks|
      ensures Final(setup, w, schedule).ranks[r].counters == Some(|names|)
    {
      AllRanksAgree(setup, w, schedule, r);
    }
    assert w.ranks != [];
    AllRanksAgree(setup, w, schedule, 0);
  }
}
