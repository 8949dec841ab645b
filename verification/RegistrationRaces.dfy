/** The registration of one job: its ranks look for the file of names, initialise MPI and add their names one by
    one, in any interleaving; so a rank may look while rank 0 is still adding. */
module RegistrationRaces {
  import opened CStrings
  import opened NameFile
  import opened Registration

  /** How far a rank is, and the names it has registered: one by one after asking the library, or all from the file. */
  datatype Phase = Looking | Initialising | Adding(names: seq<CString>) | FromFile(names: seq<CString>)

  datatype World = World(ranks: seq<Phase>, file: File)

  /** The file before the job, and the request of each rank.  `sync`: initialising MPI lets no rank go on before all have
      looked. */
  datatype Setup = Setup(file: File, requests: seq<Request>, sync: bool) {
    predicate Valid() {
      requests != [] && forall r :: 0 <= r < |requests| ==> requests[r].rank == r
    }
  }

  function Initial(setup: Setup): World {
    World(seq(|setup.requests|, _ => Looking), setup.file)
  }

  predicate Finished(request: Request, phase: Phase) {
    phase.FromFile? || (phase.Adding? && |phase.names| >= |request.answer|)
  }

  predicate Enabled(setup: Setup, w: World, r: nat)
    requires |w.ranks| == |setup.requests|
  {
    && r < |w.ranks|
    && !Finished(setup.requests[r], w.ranks[r])
    && (w.ranks[r].Initialising? && setup.sync ==> Looking !in w.ranks)
  }

  function Step(setup: Setup, w: World, r: nat): (next: World)
    requires |w.ranks| == |setup.requests| && Enabled(setup, w, r)
    ensures |next.ranks| == |w.ranks|
  {
    var request := setup.requests[r];
    match w.ranks[r]
    case Looking =>
      w.(ranks := w.ranks[r := if Served(w.file, request) then FromFile(ReadNames(w.file.content)) else Initialising])
    case Initialising => w.(ranks := w.ranks[r := Adding([])])
    case Adding(names) =>
      var name := CounterName(request.metric, request.answer[|names|]);
      World(w.ranks[r := Adding(names + [name])],
            if r == 0 && |names| !in request.unopened then Append(w.file, name) else w.file)
    case FromFile(_) => assert false; w
  }

  ghost predicate IsRun(setup: Setup, schedule: seq<nat>)
    decreases |schedule|, 0
  {
    schedule == [] ||
    (var before := schedule[..|schedule| - 1];
     IsRun(setup, before) && Enabled(setup, Final(setup, before), schedule[|schedule| - 1]))
  }

  /** The world after a run. */
  ghost function Final(setup: Setup, schedule: seq<nat>): (w: World)
    requires IsRun(setup, schedule)
    ensures |w.ranks| == |setup.requests|
    decreases |schedule|, 1
  {
    if schedule == [] then Initial(setup)
    else Step(setup, Final(setup, schedule[..|schedule| - 1]), schedule[|schedule| - 1])
  }

  ghost predicate IsFinished(setup: Setup, schedule: seq<nat>) {
    && IsRun(setup, schedule)
    && forall r :: 0 <= r < |setup.requests| ==> Finished(setup.requests[r], Final(setup, schedule).ranks[r])
  }

  // ---- a run, told from its schedule ----

  function StepsOf(schedule: seq<nat>, r: nat): nat {
    if schedule == [] then 0
    else StepsOf(schedule[..|schedule| - 1], r) + if schedule[|schedule| - 1] == r then 1 else 0
  }

  /** The number of names rank 0 has gone through: its first two steps are looking and initialising. */
  function Progress(schedule: seq<nat>): nat {
    var steps := StepsOf(schedule, 0);
    if steps <= 2 then 0 else steps - 2
  }

  /** The number of names rank 0 had gone through when rank `r` looked. */
  function ProgressAtLook(schedule: seq<nat>, r: nat): nat {
    if schedule == [] then 0
    else
      var before := schedule[..|schedule| - 1];
      if StepsOf(before, r) > 0 then ProgressAtLook(before, r) else Progress(before)
  }

  /** The file when rank 0 has gone through `n` names. */
  function FileAt(setup: Setup, n: nat): File
    requires setup.Valid() && n <= |setup.requests[0].answer|
  {
    Extended(setup.file, KeptNames(setup.requests[0], n))
  }

  /** The file as rank `r` found it when it looked. */
  function FileAtLook(setup: Setup, schedule: seq<nat>, r: nat): File
    requires setup.Valid() && ProgressAtLook(schedule, r) <= |setup.requests[0].answer|
  {
    FileAt(setup, ProgressAtLook(schedule, r))
  }

  /** The first `n` names, as far as there are any. */
  function FirstNames(request: Request, n: nat): (names: seq<CString>)
    ensures |names| == if n <= |request.answer| then n else |request.answer|
  {
    AnsweredNames(request.metric, request.answer)[..if n <= |request.answer| then n else |request.answer|]
  }

  function PhaseAfter(setup: Setup, schedule: seq<nat>, r: nat): Phase
    requires setup.Valid() && r < |setup.requests| && ProgressAtLook(schedule, r) <= |setup.requests[0].answer|
  {
    var steps := StepsOf(schedule, r);
    if steps == 0 then Looking
    else if Served(FileAtLook(setup, schedule, r), setup.requests[r]) then
      FromFile(ReadNames(FileAtLook(setup, schedule, r).content))
    else if steps == 1 then Initialising
    else Adding(FirstNames(setup.requests[r], steps - 2))
  }

  lemma {:induction false} RootLooksFirst(schedule: seq<nat>)
    ensures ProgressAtLook(schedule, 0) == 0
  {
    if schedule != [] {
      RootLooksFirst(schedule[..|schedule| - 1]);
    }
  }

  lemma {:induction false} LooksBehind(schedule: seq<nat>, r: nat)
    ensures ProgressAtLook(schedule, r) <= Progress(schedule)
  {
    if schedule != [] {
      LooksBehind(schedule[..|schedule| - 1], r);
    }
  }

  /** The whole world at any point of a run. */
  ghost predicate WorldAfter(setup: Setup, schedule: seq<nat>)
    requires setup.Valid() && IsRun(setup, schedule)
  {
    var w := Final(setup, schedule);
    && Progress(schedule) <= |setup.requests[0].answer|
    && w.file == FileAt(setup, Progress(schedule))
    && forall r :: 0 <= r < |setup.requests| ==>
         && ProgressAtLook(schedule, r) <= Progress(schedule)
         && w.ranks[r] == PhaseAfter(setup, schedule, r)
  }

  /** One step of rank `q`, as it shows in the phase of rank `r`. */
  lemma PhaseStep(setup: Setup, w: World, before: seq<nat>, q: nat, r: nat)
    requires setup.Valid() && |w.ranks| == |setup.requests| && Enabled(setup, w, q) && r < |setup.requests|
    requires ProgressAtLook(before, r) <= Progress(before) <= |setup.requests[0].answer|
    requires w.file == FileAt(setup, Progress(before))
    requires w.ranks[r] == PhaseAfter(setup, before, r)
    ensures ProgressAtLook(before + [q], r) <= Progress(before)
    ensures Step(setup, w, q).ranks[r] == PhaseAfter(setup, before + [q], r)
  {
    hide ReadNames, WriteNames, KeptNames, FileAt, AnsweredNames, CounterName;
    var schedule, request := before + [q], setup.requests[r];
    assert schedule[..|schedule| - 1] == before;
    var steps := StepsOf(before, r);
    if 2 <= steps < |request.answer| + 2 {
      AnsweredStep(request.metric, request.answer, steps - 2);
    }
  }

  /** One step, as it shows in the file. */
  lemma FileStep(setup: Setup, w: World, before: seq<nat>, q: nat)
    requires setup.Valid() && |w.ranks| == |setup.requests| && Enabled(setup, w, q)
    requires ProgressAtLook(before, 0) <= Progress(before) <= |setup.requests[0].answer|
    requires w.file == FileAt(setup, Progress(before))
    requires w.ranks[0] == PhaseAfter(setup, before, 0)
    ensures Progress(before + [q]) <= |setup.requests[0].answer|
    ensures Step(setup, w, q).file == FileAt(setup, Progress(before + [q]))
  {
    hide ReadNames, WriteNames, KeptNames, Extended, CounterName;
    var schedule, request := before + [q], setup.requests[0];
    assert schedule[..|schedule| - 1] == before;
    RootLooksFirst(before);
    AddStep(setup.file, request, 0);
    var n := Progress(schedule);
    if q == 0 && Progress(before) < n {
      AddStep(setup.file, request, n);
      ExtendedAppend(setup.file, KeptNames(request, n - 1), CounterName(request.metric, request.answer[n - 1]));
    }
  }

  /** At every point of every run: what rank 0 has gone through is in the file, as far as it could be opened, and each
      rank is as far as its own steps take it, with the file as rank 0 had it when the rank looked. */
  lemma {:induction false} RunToldFromSchedule(setup: Setup, schedule: seq<nat>)
    requires setup.Valid() && IsRun(setup, schedule)
    ensures WorldAfter(setup, schedule)
  {
    hide ReadNames, WriteNames, KeptNames, Step, Enabled, PhaseAfter, ProgressAtLook, Progress, FileAt;
    if schedule == [] {
      NotStarted(setup);
    } else {
      var before, q := schedule[..|schedule| - 1], schedule[|schedule| - 1];
      RunToldFromSchedule(setup, before);
      assert schedule == before + [q];
      var w := Final(setup, before);
      LooksBehind(before, 0);
      FileStep(setup, w, before, q);
      forall r | 0 <= r < |setup.requests|
        ensures ProgressAtLook(schedule, r) <= Progress(schedule)
        ensures Final(setup, schedule).ranks[r] == PhaseAfter(setup, schedule, r)
      {
        PhaseStep(setup, w, before, q, r);
        LooksBehind(schedule, r);
      }
    }
  }

  lemma NotStarted(setup: Setup)
    requires setup.Valid()
    ensures WorldAfter(setup, [])
  {
  }

  /** No rank takes more steps than looking, initialising and adding its names; one that reads the file just looks. */
  lemma {:induction false} StepsBounded(setup: Setup, schedule: seq<nat>, r: nat)
    requires setup.Valid() && IsRun(setup, schedule) && r < |setup.requests|
    ensures StepsOf(schedule, r) <= 2 + |setup.requests[r].answer|
    ensures Final(setup, schedule).ranks[r].FromFile? ==> StepsOf(schedule, r) == 1
  {
    hide ReadNames, AnsweredNames, FileAt;
    if schedule != [] {
      var before := schedule[..|schedule| - 1];
      StepsBounded(setup, before, r);
      RunToldFromSchedule(setup, before);
      assert Final(setup, before).ranks[r] == PhaseAfter(setup, before, r);
    }
  }

  // ---- what the ranks of a job register ----

  /** The list of a finished rank: what it read if it found a file, and else what the library answers it. */
  lemma FinishedRank(setup: Setup, schedule: seq<nat>, r: nat)
    requires setup.Valid() && IsFinished(setup, schedule) && r < |setup.requests|
    ensures ProgressAtLook(schedule, r) <= Progress(schedule) <= |setup.requests[0].answer|
    ensures Final(setup, schedule).ranks[r].names ==
            Register(FileAtLook(setup, schedule, r), setup.requests[r]).1
  {
    hide ReadNames, KeptNames, AnsweredNames, FileAt;
    RunToldFromSchedule(setup, schedule);
  }

  /** Rank 0 finds the file as it was before the job, and goes through all its names unless it can read that. */
  lemma RootProgress(setup: Setup, schedule: seq<nat>)
    requires setup.Valid() && IsFinished(setup, schedule)
    ensures ProgressAtLook(schedule, 0) == 0 && FileAtLook(setup, schedule, 0) == setup.file
    ensures Progress(schedule) == if Served(setup.file, setup.requests[0]) then 0 else |setup.requests[0].answer|
  {
    hide ReadNames, AnsweredNames, Extended, Served;
    RunToldFromSchedule(setup, schedule);
    RootLooksFirst(schedule);
    ExtendedNothing(setup.file);
    StepsBounded(setup, schedule, 0);
  }

  /** Whatever the interleaving, the job leaves the file that rank 0 alone would have left. */
  lemma FileOfJob(setup: Setup, schedule: seq<nat>)
    requires setup.Valid() && IsFinished(setup, schedule)
    ensures Final(setup, schedule).file == Register(setup.file, setup.requests[0]).0
  {
    hide KeptNames, Extended, AddNames;
    RunToldFromSchedule(setup, schedule);
    RootProgress(setup, schedule);
    AddNamesWrites(setup.file, setup.requests[0], |setup.requests[0].answer|);
    assert KeptNames(setup.requests[0], 0) == [] by { AddStep(Absent, setup.requests[0], 0); }
    ExtendedNothing(setup.file);
  }

  /** When rank 0 can read the file that is there, so does every rank that can, and they have one list. */
  lemma OneListFromFile(setup: Setup, schedule: seq<nat>, r: nat)
    requires setup.Valid() && IsFinished(setup, schedule) && r < |setup.requests|
    requires Served(setup.file, setup.requests[0])
    ensures Final(setup, schedule).ranks[r].names ==
            if setup.requests[r].readable then ReadNames(setup.file.content)
            else AnsweredNames(setup.requests[r].metric, setup.requests[r].answer)
  {
    hide ReadNames, AnsweredNames, Extended;
    RootProgress(setup, schedule);
    FinishedRank(setup, schedule, r);
    assert KeptNames(setup.requests[0], 0) == [];
    ExtendedNothing(setup.file);
  }

  /** The first names that reached the file, read back, are all of the names exactly when those are all there and
      within the file's limits. */
  lemma FrontReadsAsAllIff(request: Request, n: nat)
    requires n <= |request.answer|
    ensures
      var names := AnsweredNames(request.metric, request.answer);
      ReadNames(WriteNames(KeptNames(request, n))) == names <==>
      n == |request.answer| && AllOpened(request, n) && AllFit(names)
  {
    hide ReadNames, WriteNames, KeptNames, TotalLength, Fits, CounterName;
    var names := AnsweredNames(request.metric, request.answer);
    KeptAreShorter(request, n);
    NamesComeBackNoLonger(KeptNames(request, n));
    RoundTripIffFits(names);
    assert names[..n] + names[n..] == names;
    TotalLengthConcat(names[..n], names[n..]);
    if n < |names| {
      assert names[n..] == [names[n]] + names[n + 1..];
      TotalLengthConcat([names[n]], names[n + 1..]);
      OneMoreLength([], names[n]);
      assert [] + [names[n]] == [names[n]];
    } else if AllOpened(request, n) {
      assert names[..n] == names;
      AllOpenedKeepsAll(request, n);
    }
  }

  /** Rank 0 had put a name into the file when rank `r` looked, and `r` could read it. */
  predicate FindsNames(setup: Setup, schedule: seq<nat>, r: nat)
    requires setup.Valid() && r < |setup.requests| && ProgressAtLook(schedule, r) <= |setup.requests[0].answer|
  {
    setup.requests[r].readable && KeptNames(setup.requests[0], ProgressAtLook(schedule, r)) != []
  }

  /** Rank `r` registers the same names as rank 0: it found all of them in the file, or nothing there and is answered
      the same. */
  predicate Agrees(setup: Setup, schedule: seq<nat>, r: nat)
    requires setup.Valid() && r < |setup.requests| && ProgressAtLook(schedule, r) <= |setup.requests[0].answer|
  {
    var root, request := setup.requests[0], setup.requests[r];
    var names := AnsweredNames(root.metric, root.answer);
    if FindsNames(setup, schedule, r) then
      ProgressAtLook(schedule, r) == |root.answer| && AllOpened(root, |root.answer|) && AllFit(names)
    else AnsweredNames(request.metric, request.answer) == names
  }

  lemma ListWithoutFile(setup: Setup, schedule: seq<nat>, r: nat)
    requires setup.Valid() && setup.file.Absent? && IsFinished(setup, schedule) && r < |setup.requests|
    ensures ProgressAtLook(schedule, r) <= |setup.requests[0].answer|
    ensures Final(setup, schedule).ranks[r].names ==
            if FindsNames(setup, schedule, r) then
              ReadNames(WriteNames(KeptNames(setup.requests[0], ProgressAtLook(schedule, r))))
            else AnsweredNames(setup.requests[r].metric, setup.requests[r].answer)
  {
    hide ReadNames, WriteNames, KeptNames, AnsweredNames;
    FinishedRank(setup, schedule, r);
  }

  /** In every finished run of a job that started without a file, a rank has rank 0's list exactly when it looked before
      rank 0 had put a name into the file, or could not read it, and is answered the same; or looked after all names
      had been put there, and they are within the file's limits. */
  lemma OneListIff(setup: Setup, schedule: seq<nat>, r: nat)
    requires setup.Valid() && setup.file.Absent? && IsFinished(setup, schedule) && r < |setup.requests|
    ensures ProgressAtLook(schedule, r) <= |setup.requests[0].answer|
    ensures Final(setup, schedule).ranks[r].names == Final(setup, schedule).ranks[0].names <==>
            Agrees(setup, schedule, r)
  {
    hide ReadNames, WriteNames, AnsweredNames, Fits;
    ListWithoutFile(setup, schedule, 0);
    ListWithoutFile(setup, schedule, r);
    RootLooksFirst(schedule);
    FrontReadsAsAllIff(setup.requests[0], ProgressAtLook(schedule, r));
  }

  lemma {:induction false} AllHaveLooked(setup: Setup, schedule: seq<nat>, r: nat)
    requires setup.Valid() && setup.sync && IsRun(setup, schedule) && r < |setup.requests|
    ensures StepsOf(schedule, 0) >= 2 ==> StepsOf(schedule, r) > 0
    ensures ProgressAtLook(schedule, r) == 0
  {
    hide KeptNames, ReadNames, FileAt;
    if schedule != [] {
      var before := schedule[..|schedule| - 1];
      AllHaveLooked(setup, before, r);
      RunToldFromSchedule(setup, before);
      assert Final(setup, before).ranks[r] == PhaseAfter(setup, before, r);
      assert Final(setup, before).ranks[0] == PhaseAfter(setup, before, 0);
    }
  }

  /** When initialising MPI waits for all ranks, each finds the file as it was before the job, and without one registers
      what the library answers. */
  lemma OneListWhenSynchronised(setup: Setup, schedule: seq<nat>, r: nat)
    requires setup.Valid() && setup.sync && IsFinished(setup, schedule) && r < |setup.requests|
    ensures Final(setup, schedule).ranks[r].names == Register(setup.file, setup.requests[r]).1
  {
    hide ReadNames, AnsweredNames, Extended;
    AllHaveLooked(setup, schedule, r);
    FinishedRank(setup, schedule, r);
    assert KeptNames(setup.requests[0], 0) == [];
    ExtendedNothing(setup.file);
  }

  /** A run can always go on until all have finished. */
  lemma NeverStuck(setup: Setup, schedule: seq<nat>) returns (r: nat)
    requires setup.Valid() && IsRun(setup, schedule) && !IsFinished(setup, schedule)
    ensures IsRun(setup, schedule + [r])
  {
    hide Step;
    var w := Final(setup, schedule);
    if Looking in w.ranks {
      r :| 0 <= r < |w.ranks| && w.ranks[r] == Looking;
    } else {
      r :| 0 <= r < |setup.requests| && !Finished(setup.requests[r], w.ranks[r]);
    }
    assert Enabled(setup, w, r);
    assert (schedule + [r])[..|schedule|] == schedule;
  }

  lemma OneMoreStep(setup: Setup, before: seq<nat>, r: nat)
    requires IsRun(setup, before) && Enabled(setup, Final(setup, before), r)
    ensures IsRun(setup, before + [r]) && Final(setup, before + [r]) == Step(setup, Final(setup, before), r)
  {
    assert (before + [r])[..|before|] == before;
  }

  /** When it does not wait, a rank that looks after rank 0 has put its first name into the file registers that name
      alone, however many there are. */
  lemma RankReadsAFront(setup: Setup)
    requires setup.Valid() && setup.file.Absent? && !setup.sync && |setup.requests| == 2 && setup.requests[1].readable
    requires setup.requests[0].answer != [] && 0 !in setup.requests[0].unopened
    requires Fits(CounterName(setup.requests[0].metric, setup.requests[0].answer[0]))
    ensures IsRun(setup, [0, 0, 0, 1])
    ensures Final(setup, [0, 0, 0, 1]).ranks[1] ==
            FromFile([CounterName(setup.requests[0].metric, setup.requests[0].answer[0])])
  {
    hide ReadNames, WriteNames, Fits, CounterName;
    var root := setup.requests[0];
    var name := CounterName(root.metric, root.answer[0]);
    OneMoreStep(setup, [], 0);
    OneMoreStep(setup, [0], 0);
    OneMoreStep(setup, [0, 0], 0);
    OneMoreStep(setup, [0, 0, 0], 1);
    assert [] + [0] == [0] && [0] + [0] == [0, 0] && [0, 0] + [0] == [0, 0, 0] && [0, 0, 0] + [1] == [0, 0, 0, 1];
    WriteNamesCons(name, []);
    assert [name] + [] == [name] && name + "\n" + "" == name + "\n";
    RoundTripIffFits([name]);
    assert AllFit([name]);
    assert Final(setup, [0, 0, 0]).file == Present(WriteNames([name]));
  }
}
