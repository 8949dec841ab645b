/** The plugin object: src/scorep_plugin_ucx.cpp and src/scorep_plugin_ucx.h.

    What the outside world answers is passed in: whether MPI is up and the rank it gives, the snapshots the
    aggregate API would deliver, the statistics the NIC device would deliver, whether the names file can be opened
    for reading, and at which names it cannot be opened for appending. */
module ScorepPlugin {
  import opened CStrings
  import opened NumberText
  import opened PluginTypes
  import opened ScanSpec
  import opened StatsTree
  import opened UcxSampling
  import Dispatch
  import Enumeration
  import LegacyRuns
  import MetricIds
  import MetricSpec
  import NameFile
  import NameSerializer
  import NicNames
  import NicRuns
  import Registration
  import Renaming

  const TEMPORARY_COUNTERS: nat := 50

  function NamesOf(records: seq<CounterRecord>): (r: seq<CString>)
    ensures |r| == |records|
  {
    seq(|records|, i requires 0 <= i < |records| => records[i].name)
  }

  function NicMetricNames(metric: CString, device: seq<CString>, num: nat): seq<CString>
    requires num <= |device|
  {
    seq(num, i requires 0 <= i < num => metric + "_nic_cnt_" + device[i])
  }

  /** A specification that cannot be parsed is thrown back at Score-P. */
  datatype Properties = Thrown | Registered(names: seq<CString>)

  class ScorepPlugin {
    /** Whether the NIC counters are compiled in. */
    const nicCompiled: bool
    const ucxEnabled: bool
    const nicEnabled: bool

    const sampling: UcxSampling
    const counters: CounterList
    const disk: NameFile.Disk

    var mpiInitialized: bool
    var mpiRank: nat
    var metricName: CString
    var nUcxCounters: nat

    /** The id of the next metric added; the plugin is the only one of its kind. */
    var nextId: uint32

    /** The rename function Score-P provides, 0 when it has not; and the calls made of it. */
    var updateFunc: uint64
    var renames: seq<Renaming.Rename>

    ghost predicate Valid()
      reads this, sampling, sampling.sumCounters, counters, counters.Repr
    {
      && sampling.Valid() && counters.Valid()
      && this !in counters.Repr && sampling !in counters.Repr && disk !in counters.Repr
      && sampling.sumCounters !in counters.Repr
    }

    constructor (nicCompiled: bool, ucxEnabled: bool, nicEnabled: bool, sampling: UcxSampling, disk: NameFile.Disk)
      requires sampling.Valid()
      ensures Valid() && this.sampling == sampling && this.disk == disk
      ensures !mpiInitialized && nextId == 0 && updateFunc == 0 && renames == [] && counters.Records() == []
    {
      this.nicCompiled, this.ucxEnabled, this.nicEnabled := nicCompiled, ucxEnabled, nicEnabled;
      this.sampling, this.disk := sampling, disk;
      counters := new CounterList();
      mpiInitialized, mpiRank, metricName, nUcxCounters := false, 0, "", 0;
      nextId, updateFunc, renames := 0, 0, [];
    }

    ghost function DispatchState(): Dispatch.State
      reads this, sampling, sampling.sumCounters
    {
      sampling.Aggregate(mpiInitialized)
    }

    // ---- reading a counter ----

    /** `warmup` is the snapshot that comes with the first successful read, `snapshot` the one of a read of id 0.
        A read of the NIC counters must stay inside the device's table. */
    method CurrentValueGet(
        id: int32, mpiUp: bool, rank: nat,
        warmup: Dispatch.Snapshot, snapshot: Dispatch.Snapshot, device: seq<uint64>)
      returns (value: uint64, prevValue: uint64)
      requires Valid() && |device| == |sampling.nicStrings|
      requires
        var outcome := Dispatch.Step(DispatchState(), Dispatch.Read(id, mpiUp, warmup, snapshot)).1;
        nicCompiled && sampling.nicInitialized && outcome.NicCounter? ==> outcome.index < |sampling.nicStrings|
      modifies this`mpiInitialized, this`mpiRank
      modifies sampling`sumSize, sampling`nicData, sampling`nicRounds, sampling.sumCounters
      ensures Valid()
      ensures
        var (next, outcome) := Dispatch.Step(old(DispatchState()), Dispatch.Read(id, mpiUp, warmup, snapshot));
        && DispatchState() == next
        && (if outcome.NicCounter? && nicCompiled
            then (sampling.Nic(), value) == NicRuns.Step(old(sampling.Nic()), NicRuns.Read(outcome.index, device))
            else sampling.Nic() == old(sampling.Nic()) && value == if outcome.UcxValue? then outcome.value else 0)
      ensures prevValue == 0
      ensures mpiRank == if !old(mpiInitialized) && mpiUp then rank else old(mpiRank)
    {
      hide NicRuns.Step;
      value, prevValue := 0, 0;
      if !mpiInitialized {
        if mpiUp {
          mpiInitialized := true;
          mpiRank := rank;
          var _, _ := sampling.AggregateCounterGet(0, warmup);
        } else {
          return;
        }
      }
      var size := sampling.sumSize;
      if 0 <= id < size {
        var _, sum := sampling.AggregateCounterGet(id, snapshot);
        value := sum;
      } else if nicCompiled {
        value := sampling.NicCounterValueGet(ToUint32(id - size), device);
      }
    }

    // ---- registering the metrics ----

    /** The device has to fit into the mapping if its counters are grouped. */
    predicate DeviceFits(device: seq<uint64>) {
      && |device| == |sampling.nicStrings|
      && (nicCompiled && nicEnabled && sampling.nicInitialized ==> |sampling.nicStrings| <= 10240)
    }

    /** A registration has to ask the library when UCX counters are collected and there is no file to read. */
    predicate Asks(file: NameFile.File, readable: bool) {
      ucxEnabled && !(file.Present? && readable)
    }

    ghost function NicAfterRegistration(s: NicRuns.NicState, device: seq<uint64>): NicRuns.NicState
      requires nicCompiled && nicEnabled && s.initialized ==> |device| == |s.data|
    {
      if nicCompiled && nicEnabled then NicRuns.Step(s, NicRuns.Group(device)).0 else s
    }

    method GetMetricProperties(
        metric: CString, rank: nat, answer: seq<Registration.CounterClass>,
        readable: bool, unopened: set<nat>, snapshot: Dispatch.Snapshot, device: seq<uint64>)
      returns (r: Properties)
      requires Valid() && DeviceFits(device)
      modifies this`mpiInitialized, this`mpiRank, this`metricName, this`nUcxCounters, this`updateFunc, disk
      modifies sampling`sumSize, sampling`nicData, sampling`numNicCountersTotal, sampling`nicAggregateNum
      modifies sampling.sumCounters, sampling.nicMapping, sampling.nicAggregateNames
      ensures Valid()
      ensures r.Thrown? <==> !MetricSpec.Parse(metric).Metric?
      ensures MetricSpec.IsUcx(metric) ==>
                && metricName == metric && nUcxCounters == 50 && updateFunc == old(updateFunc)
                && (disk.file, r.names) ==
                   RegisteredMetrics(old(disk.file), Registration.Request(metric, rank, answer, readable, unopened))
                && mpiRank == (if Asks(old(disk.file), readable) then rank else old(mpiRank))
                && DispatchState() ==
                   Dispatch.Step(old(DispatchState()), Dispatch.Register(Asks(old(disk.file), readable), snapshot)).0
                && sampling.Nic() == NicAfterRegistration(old(sampling.Nic()), device)
      ensures !MetricSpec.IsUcx(metric) ==>
                && (r.Registered? ==> r.names == [])
                && disk.file == old(disk.file) && metricName == old(metricName) && nUcxCounters == old(nUcxCounters)
                && mpiRank == old(mpiRank) && DispatchState() == old(DispatchState())
                && sampling.Nic() == old(sampling.Nic())
                && updateFunc == match MetricSpec.Parse(metric)
                                 case Metric(event, _, pointer) =>
                                   if event == "SCOREP_Strictly_Synchronous_metric_name_update" ||
                                      event == "SCOREP_metric_name_update"
                                   then pointer else old(updateFunc)
                                 case _ => old(updateFunc)
    {
      hide RegisteredMetrics, MetricSpec.Parse, MetricSpec.ParsesAs, NicAfterRegistration, Dispatch.Step;
      var parsed := MetricSpec.ParseMetric(metric);
      if !parsed.Metric? {
        return Thrown;
      }
      if parsed.event != "UCX" {
        if IsUpdateFunction(parsed.event) {
          updateFunc := parsed.pointer;
        }
        return Registered([]);
      }
      metricName, nUcxCounters := metric, TEMPORARY_COUNTERS;
      var names := RegisterMetrics(metric, rank, answer, readable, unopened, snapshot, device);
      r := Registered(names);
    }

    /** What a registration makes of the file, and all the names it registers: those of the UCX counters, and
        then the device's own first names, as many as there are aggregate names. */
    function RegisteredMetrics(file: NameFile.File, request: Registration.Request): (NameFile.File, seq<CString>) {
      var (next, ucxNames) := if ucxEnabled then Registration.Register(file, request) else (file, []);
      (next, ucxNames + NicMetrics(request.metric))
    }

    function NicMetrics(metric: CString): seq<CString> {
      if !nicCompiled || !nicEnabled || !sampling.nicInitialized then []
      else
        NicNames.FewerAggregateNames(sampling.nicStrings);
        NicMetricNames(metric, sampling.nicStrings, |NicNames.AggregateNames(sampling.nicStrings)|)
    }

    method RegisterMetrics(
        metric: CString, rank: nat, answer: seq<Registration.CounterClass>, readable: bool, unopened: set<nat>,
        snapshot: Dispatch.Snapshot, device: seq<uint64>)
      returns (names: seq<CString>)
      requires Valid() && DeviceFits(device)
      modifies this`mpiInitialized, this`mpiRank, disk
      modifies sampling`sumSize, sampling`nicData, sampling`numNicCountersTotal, sampling`nicAggregateNum
      modifies sampling.sumCounters, sampling.nicMapping, sampling.nicAggregateNames
      ensures Valid()
      ensures (disk.file, names) ==
              RegisteredMetrics(old(disk.file), Registration.Request(metric, rank, answer, readable, unopened))
      ensures mpiRank == if Asks(old(disk.file), readable) then rank else old(mpiRank)
      ensures DispatchState() ==
              Dispatch.Step(old(DispatchState()), Dispatch.Register(Asks(old(disk.file), readable), snapshot)).0
      ensures sampling.Nic() == NicAfterRegistration(old(sampling.Nic()), device)
    {
      hide Registration.Register, NicMetricNames, NicNames.AggregateNames;
      names := [];
      if ucxEnabled {
        names := RegisterUcx(metric, rank, answer, readable, unopened, snapshot);
      }
      assert names + [] == names;
      if nicCompiled && nicEnabled {
        var nicNames := RegisterNic(metric, device);
        names := names + nicNames;
      }
    }

    /** The UCX part: the names in the file, or, when there is none, those the aggregate API answers. */
    method RegisterUcx(
        metric: CString, rank: nat, answer: seq<Registration.CounterClass>, readable: bool, unopened: set<nat>,
        snapshot: Dispatch.Snapshot)
      returns (names: seq<CString>)
      requires Valid()
      modifies this`mpiInitialized, this`mpiRank, disk, sampling`sumSize, sampling.sumCounters
      ensures Valid()
      ensures (disk.file, names) ==
              Registration.Register(old(disk.file), Registration.Request(metric, rank, answer, readable, unopened))
      ensures mpiRank == if old(disk.file).Present? && readable then old(mpiRank) else rank
      ensures DispatchState() ==
              Dispatch.Step(old(DispatchState()), Dispatch.Register(!(old(disk.file).Present? && readable), snapshot)).0
    {
      hide Registration.AnsweredNames, Registration.AddNames, NameFile.ReadNames, Dispatch.Step, Dispatch.State.Refresh;
      Dispatch.RegisterStep(DispatchState(), !(disk.file.Present? && readable), snapshot);
      var found;
      found, names := disk.ReadCountersList(readable);
      if found {
        return;
      }
      mpiInitialized := true;
      mpiRank := rank;
      var _, _ := sampling.AggregateCounterGet(0, snapshot);
      names := AddAnswered(metric, answer, unopened, Registration.Request(metric, rank, answer, readable, unopened));
    }

    /** The names that the library answers, each of which rank 0 adds to the file. */
    method AddAnswered(
        metric: CString, answer: seq<Registration.CounterClass>, unopened: set<nat>, ghost request: Registration.Request)
      returns (names: seq<CString>)
      requires request.metric == metric && request.answer == answer && request.unopened == unopened
      modifies disk
      ensures names == Registration.AnsweredNames(metric, answer)
      ensures disk.file == if mpiRank == 0 then Registration.AddNames(old(disk.file), request, |answer|) else old(disk.file)
    {
      hide Registration.CounterName, Registration.AnsweredNames, Registration.AddNames, NameFile.Append;
      ghost var before := disk.file;
      names := [];
      Registration.AddStep(before, request, 0);
      for i := 0 to |answer|
        invariant names == Registration.AnsweredNames(metric, answer)[..i]
        invariant disk.file == if mpiRank == 0 then Registration.AddNames(before, request, i) else before
      {
        Registration.AnsweredStep(metric, answer, i);
        Registration.AddStep(before, request, i + 1);
        var name := Registration.CounterName(metric, answer[i]);
        names := names + [name];
        if mpiRank == 0 {
          disk.AddName(name, i !in unopened);
        }
      }
      assert Registration.AnsweredNames(metric, answer)[..|answer|] == Registration.AnsweredNames(metric, answer);
    }

    method RegisterNic(metric: CString, device: seq<uint64>) returns (names: seq<CString>)
      requires Valid() && nicCompiled && nicEnabled && DeviceFits(device)
      modifies sampling`nicData, sampling`numNicCountersTotal, sampling`nicAggregateNum
      modifies sampling.nicMapping, sampling.nicAggregateNames
      ensures Valid()
      ensures names == NicMetrics(metric)
      ensures sampling.Nic() == NicAfterRegistration(old(sampling.Nic()), device)
    {
      hide NicNames.AggregateNames, NicNames.IsMapping;
      var num := sampling.NicCountersAggregate(device);
      NicNames.AggregateNothing();
      NicNames.FewerAggregateNames(sampling.nicStrings);
      names := [];
      for i := 0 to num
        invariant names == NicMetricNames(metric, sampling.nicStrings, i)
      {
        names := names + [metric + "_nic_cnt_" + sampling.nicStrings[i]];
      }
    }

    // ---- adding a registered metric ----

    method AddMetric(metric: string) returns (r: MetricIds.Outcome)
      modifies this`nextId
      ensures (nextId, r) == MetricIds.Add(old(nextId), metric)
    {
      hide MetricSpec.Parse, MetricSpec.ParsesAs;
      var parsed := MetricSpec.ParseMetric(metric);
      if !parsed.Metric? {
        return MetricIds.Thrown;
      }
      var id: int32 := 0;
      if parsed.event == "UCX" {
        id := MetricIds.ToInt32(nextId);
        nextId := ToUint32(nextId + 1);
      }
      r := MetricIds.Id(id);
    }

    // ---- the legacy enumeration, on either side of the collectives ----

    /** Copies the string and its terminator; the room for both must be there. */
    static method StrCpy(dst: array<char>, offset: nat, src: CString)
      requires offset + |src| < dst.Length
      modifies dst
      ensures dst[offset..offset + |src| + 1] == src + "\0"
      ensures dst[..offset] == old(dst[..offset])
    {
      for k := 0 to |src|
        invariant dst[offset..offset + k] == src[..k]
        invariant dst[..offset] == old(dst[..offset])
      {
        dst[offset + k] := src[k];
      }
      dst[offset + |src|] := '\0';
      assert dst[offset..offset + |src|] == src;
    }

    method MetricsNamesSerialize() returns (serialized: array<char>, size: nat)
      requires Valid()
      ensures fresh(serialized) && serialized.Length == size
      ensures serialized[..] == NameSerializer.Serialize(NamesOf(counters.Records()))
    {
      hide NameSerializer.Serialize, NameSerializer.TotalSize;
      ghost var names := NamesOf(counters.Records());
      NameSerializer.SerializeNothing();
      assert names[..0] == [];
      size := 0;
      for i := 0 to |counters.items|
        invariant size == NameSerializer.TotalSize(names[..i])
      {
        assert names[..i + 1] == names[..i] + [names[i]];
        NameSerializer.TotalSizeAppend(names[..i], names[i]);
        size := size + |counters.items[i].name| + 1;
      }
      assert names[..|names|] == names;
      NameSerializer.SerializedSize(names);
      serialized := new char[size];
      var offset := 0;
      for i := 0 to |counters.items|
        invariant offset == |NameSerializer.Serialize(names[..i])| <= size
        invariant serialized[..offset] == NameSerializer.Serialize(names[..i])
      {
        SerializedFits(names, i);
        assert names[i] == counters.items[i].name;
        StrCpy(serialized, offset, counters.items[i].name);
        SliceInTwo(serialized[..], offset, offset + |names[i]| + 1);
        offset := offset + |counters.items[i].name| + 1;
      }
      assert serialized[..offset] == serialized[..];
    }

    /** Rank 0 before its broadcasts, and what it keeps after them. */
    method EnumerateLegacyRoot(dummy: nat, stats: seq<StatsNode>) returns (count: nat, size: nat, names: array<char>)
      requires Valid() && (LegacyRuns.Scans(sampling.LegacyState(counters), 0) ==> stats != [])
      modifies this`nUcxCounters, sampling`countersInitialized, sampling`calls, counters.Repr
      ensures Valid()
      ensures sampling.LegacyState(counters) ==
              LegacyRuns.Step(old(sampling.LegacyState(counters)), LegacyRuns.CallWith(0, stats)).0
      ensures count == |counters.Records()| && size == names.Length
      ensures names[..] == NameSerializer.Serialize(NamesOf(counters.Records()))
      ensures nUcxCounters <= count && (dummy != 1 ==> nUcxCounters <= dummy)
      ensures nUcxCounters == count || (dummy != 1 && nUcxCounters == dummy)
    {
      var _, _, _ := sampling.StatisticsCurrentValueGet(0, counters, stats, 0, 0);
      names, size := MetricsNamesSerialize();
      count := |counters.items|;
      nUcxCounters := count;
      if dummy != 1 {
        nUcxCounters := if nUcxCounters < dummy then nUcxCounters else dummy;
      }
    }

    // ---- renaming ----

    method MetricRename(counterId: uint32, newName: CString)
      modifies this`renames
      ensures renames == old(renames) + [Renaming.RenameOf(metricName, counterId, newName)]
    {
      var temporaryName := Renaming.TemporaryName(metricName, counterId);
      renames := renames + [Renaming.Rename(temporaryName, newName, metricName, 0)];
    }

    /** One round of the loop over the counters. */
    method CounterRename(i: nat)
      requires Valid() && i < |counters.Records()| <= UINT32_MAX
      modifies this`renames, counters.Repr
      ensures Valid() && counters.Repr == old(counters.Repr) && counters.items == old(counters.items)
      ensures renames == old(renames) +
                         if old(counters.Records()[i]).alreadyRenamed then []
                         else [Renaming.RenameOf(metricName, i, old(counters.Records()[i]).name)]
      ensures counters.Records() ==
              old(counters.Records())[i := old(counters.Records()[i]).(alreadyRenamed := true)]
    {
      hide Renaming.RenameOf;
      assert counters.Records()[i] == counters.items[i].Record();
      if !counters.items[i].alreadyRenamed {
        MetricRename(i, counters.items[i].name);
        counters.MarkRenamed(i);
      }
    }

    method CountersScorepUpdate()
      requires Valid() && |counters.Records()| <= UINT32_MAX
      modifies this`renames, counters.Repr
      ensures Valid()
      ensures Renaming.State(counters.Records(), renames) ==
              Renaming.Step(Renaming.State(old(counters.Records()), old(renames)),
                            Renaming.Pass(metricName, updateFunc != 0))
    {
      hide Renaming.RenameOf, Renaming.PendingFrom, Renaming.AllRenamed, Renaming.RenamedUpTo, CounterList.Records;
      if updateFunc == 0 {
        return;
      }
      ghost var records, log := counters.Records(), renames;
      Renaming.RenamedUpToEnds(records);
      for i := 0 to |counters.items|
        invariant Valid() && counters.Repr == old(counters.Repr) && counters.items == old(counters.items)
        invariant counters.Records() == Renaming.RenamedUpTo(records, i)
        invariant renames + Renaming.PendingFrom(metricName, records, i) ==
                  log + Renaming.PendingFrom(metricName, records, 0)
      {
        Renaming.RenamedUpToStep(records, i);
        Renaming.RoundKeepsTotal(metricName, records, i, renames);
        CounterRename(i);
      }
      assert renames + Renaming.PendingFrom(metricName, records, |records|) == renames by {
        Renaming.PendingStep(metricName, records, |records|);
      }
    }
  }

  predicate IsUpdateFunction(event: string) {
    event == "SCOREP_Strictly_Synchronous_metric_name_update" || event == "SCOREP_metric_name_update"
  }

  lemma SliceInTwo(s: seq<char>, i: nat, j: nat)
    requires i <= j <= |s|
    ensures s[..j] == s[..i] + s[i..j]
  {
  }

  /** The next name and its terminator still fit into the buffer. */
  lemma SerializedFits(names: seq<CString>, i: nat)
    requires i < |names|
    ensures NameSerializer.Serialize(names[..i + 1]) == NameSerializer.Serialize(names[..i]) + names[i] + "\0"
    ensures |NameSerializer.Serialize(names[..i])| + |names[i]| < |NameSerializer.Serialize(names)|
  {
    assert names[..i + 1] == names[..i] + [names[i]];
    NameSerializer.SerializeAppend(names[..i], names[i]);
    NameSerializer.SerializeConcat(names[..i + 1], names[i + 1..]);
    assert names == names[..i + 1] + names[i + 1..];
  }

  /** The names of the counters below the root, in preorder. */
  ghost predicate AreNamesOfTree(names: seq<CString>, root: StatsNode) {
    var places := Places(root.children, 0);
    && |names| == |places|
    && forall i :: 0 <= i < |places| ==>
         HasCounter(root.children, 0, places[i]) && names[i] == NameAt(root.children, 0, "cnt", 0, places[i])
  }

  lemma ScannedNames(s: LegacyRuns.LegacyState, root: StatsNode)
    requires LegacyRuns.Attempts(s)
    ensures AreNamesOfTree(NamesOf(LegacyRuns.Step(s, LegacyRuns.LegacyCall(0, root)).0.records), root)
  {
    hide Scan;
    BuiltLength(root);
    forall i | 0 <= i < |Places(root.children, 0)|
      ensures HasCounter(root.children, 0, Places(root.children, 0)[i])
      ensures Scan(true, root, [])[i].name == NameAt(root.children, 0, "cnt", 0, Places(root.children, 0)[i])
    {
      BuiltInPreorder(root, i);
    }
  }

  /** From the statistics tree to every rank: when the legacy enumeration of a read that attempts a scan has
      finished, each rank has the capped number of counters below the root, and a buffer that holds exactly their
      names in preorder. */
  lemma RanksHoldTheNamesOfTheTree(
      setup: Enumeration.Setup, w: Enumeration.World, schedule: seq<nat>,
      s: LegacyRuns.LegacyState, root: StatsNode, r: nat)
    requires LegacyRuns.Attempts(s)
    requires setup.names == NamesOf(LegacyRuns.Step(s, LegacyRuns.LegacyCall(0, root)).0.records)
    requires Enumeration.Initial(w) && Enumeration.IsRun(setup, w, schedule)
    requires Enumeration.Finished(Enumeration.Final(setup, w, schedule)) && r < |w.ranks|
    ensures
      var end := Enumeration.Final(setup, w, schedule);
      && |end.ranks| == |w.ranks|
      && end.ranks[r].counters == Enumeration.Some(Enumeration.Cap(|Places(root.children, 0)|, setup.dummy))
      && AreNamesOfTree(NameSerializer.Deserialize(end.ranks[r].buffer), root)
  {
    hide LegacyRuns.Step, Enumeration.Final, Enumeration.IsRun, Enumeration.Finished, Enumeration.Initial;
    Enumeration.AllRanksAgree(setup, w, schedule, r);
    ScannedNames(s, root);
  }

  // ---- how many metrics are registered ----

  /** The number of UCX names that a registration takes from the file or, if it cannot read one, from the library. */
  function UcxCount(ucxEnabled: bool, file: NameFile.File, request: Registration.Request): nat {
    if !ucxEnabled then 0
    else if Registration.Served(file, request) then |NameFile.ReadNames(file.content)|
    else |request.answer|
  }

  /** The number of NIC metrics: one for each kind of counter, up to 1024. */
  function NicCount(collected: bool, device: seq<CString>): nat {
    var kinds := |NicNames.Kinds(device)|;
    if !collected then 0 else if kinds <= 1024 then kinds else 1024
  }

  function NicMetricsCount(plugin: ScorepPlugin): nat {
    NicCount(plugin.nicCompiled && plugin.nicEnabled && plugin.sampling.nicInitialized, plugin.sampling.nicStrings)
  }

  /** No more than `limit` metrics are registered exactly when there are no more UCX names and kinds of NIC counters
      than that; the number in the metric's specification has no part in it. */
  lemma LimitKeptByRegistrationIff(
      plugin: ScorepPlugin, file: NameFile.File, request: Registration.Request, limit: nat)
    ensures |plugin.RegisteredMetrics(file, request).1| ==
            UcxCount(plugin.ucxEnabled, file, request) + NicMetricsCount(plugin)
    ensures |plugin.RegisteredMetrics(file, request).1| <= limit <==>
            UcxCount(plugin.ucxEnabled, file, request) + NicMetricsCount(plugin) <= limit
  {
    hide NicNames.AggregateNames, NicNames.Kinds, NameFile.ReadNames;
    NicNames.AggregateNamesCount(plugin.sampling.nicStrings);
  }

  /** For every N there is an answer of the library on which `UCX@N` registers more than N metrics. */
  lemma LimitIgnored(plugin: ScorepPlugin, limit: uint64, c: Registration.CounterClass)
    requires plugin.ucxEnabled
    ensures
      var metric: CString := "UCX@" + Decimal(limit);
      var request := Registration.Request(metric, 0, seq(limit + 1, _ => c), true, {});
      && MetricSpec.IsUcx(metric) && MetricSpec.Parse(metric).number == ToUint32(limit)
      && |plugin.RegisteredMetrics(NameFile.Absent, request).1| > limit
  {
    hide MetricSpec.Parse, Convert, Numeral;
    var text := Decimal(limit);
    NumeralMagnitude(limit, 10);
    assert !IsDigit('@', 10);
    MetricSpec.ParsesEventArgument("UCX", text);
    ReadsDecimal(limit);
    assert "UCX" + "@" + text == "UCX@" + text;
    var request := Registration.Request("UCX@" + text, 0, seq(limit + 1, _ => c), true, {});
    LimitKeptByRegistrationIff(plugin, NameFile.Absent, request, limit);
  }

  // ---- the ids of the registered metrics ----

  /** The names that come from the library and from the device, added in order, get their positions as ids exactly when
      there are none; or the specification they were asked for has no `@` at its end, no name has one but at its very
      end, and their number is within 31 bits. */
  lemma RegisteredIdsArePositionsIff(plugin: ScorepPlugin, file: NameFile.File, request: Registration.Request)
    requires MetricSpec.IsUcx(request.metric) && !Registration.Served(file, request)
    ensures
      var names := plugin.RegisteredMetrics(file, request).1;
      var answer := if plugin.ucxEnabled then request.answer else [];
      MetricIds.AreCounted(MetricIds.AddAll(0, names), 0) <==>
      || names == []
      || (&& |names| <= INT32_MAX + 1
          && !MetricSpec.EndsWith(request.metric, '@')
          && (forall k :: 0 <= k < |answer| ==> MetricIds.DelimiterOnlyLast(MetricIds.Suffix(answer[k])))
          && (forall k :: 0 <= k < NicMetricsCount(plugin) && k < |plugin.sampling.nicStrings| ==>
                MetricIds.DelimiterOnlyLast(plugin.sampling.nicStrings[k])))
  {
    hide MetricSpec.Parse, MetricSpec.IsUcx, MetricIds.AreCounted, MetricIds.AddAll, MetricIds.AllParsed, MetricIds.AllUcx;
    hide MetricIds.DelimiterOnlyLast, NicNames.AggregateNames, Registration.AnsweredNames;
    var device := plugin.sampling.nicStrings;
    var num := NicMetricsCount(plugin);
    var answer := if plugin.ucxEnabled then request.answer else [];
    var names := plugin.RegisteredMetrics(file, request).1;
    NicNames.FewerAggregateNames(device);
    NicNames.AggregateNamesCount(device);
    MetricIds.AnsweredAcceptedIff(request.metric, answer);
    NicAcceptedIff(request.metric, device, num);
    assert names == Registration.AnsweredNames(request.metric, answer) + NicMetricNames(request.metric, device, num);
    MetricIds.AllConcat(
      Registration.AnsweredNames(request.metric, answer), NicMetricNames(request.metric, device, num));
    MetricIds.IdsArePositionsIff(names);
    assert |names| == 1 && MetricSpec.Parse(names[0]).Metric? ==> MetricIds.AllParsed(names) by {
      OneIsAll(names);
    }
  }

  lemma OneIsAll(names: seq<CString>)
    ensures |names| == 1 && MetricSpec.Parse(names[0]).Metric? ==> MetricIds.AllParsed(names)
  {
    hide MetricSpec.Parse;
  }

  lemma NicAcceptedIff(metric: CString, device: seq<CString>, num: nat)
    requires MetricSpec.IsUcx(metric) && num <= |device|
    ensures var names := NicMetricNames(metric, device, num);
            && (MetricIds.AllUcx(names) <==>
                num == 0 ||
                (!MetricSpec.EndsWith(metric, '@') && forall k :: 0 <= k < num ==> MetricIds.DelimiterOnlyLast(device[k])))
            && (MetricIds.AllParsed(names) ==> MetricIds.AllUcx(names))
  {
    hide MetricSpec.Parse, MetricSpec.IsUcx, MetricSpec.EndsWith, MetricIds.DelimiterOnlyLast;
    var names := NicMetricNames(metric, device, num);
    forall k | 0 <= k < num
      ensures MetricSpec.IsUcx(names[k]) <==>
              !MetricSpec.EndsWith(metric, '@') && MetricIds.DelimiterOnlyLast(device[k])
      ensures MetricSpec.Parse(names[k]).Metric? ==> MetricSpec.IsUcx(names[k])
    {
      MetricIds.NicNameAcceptedIff(metric, device[k]);
    }
    assert num > 0 && MetricIds.AllUcx(names) ==> MetricSpec.IsUcx(names[0]);
  }

  // ---- whether an id reads what was registered under it ----

  /** The name of a counter: of component k, the k-th name in the file if it could be read, and else the metric's name
      with the class and the name of the k-th counter of the answer; of NIC counter j, the metric's name with the
      device's own name of it. */
  predicate IsNameOf(
      plugin: ScorepPlugin, file: NameFile.File, request: Registration.Request, name: CString, counter: Dispatch.Counter) {
    match counter
    case Sum(k) =>
      if file.Present? && request.readable then
        k < |NameFile.ReadNames(file.content)| && name == NameFile.ReadNames(file.content)[k]
      else
        && k < |request.answer|
        && name == request.metric + "_" + request.answer[k].className + "_" + request.answer[k].counterName
    case Nic(j) =>
      j < |plugin.sampling.nicStrings| && name == request.metric + "_nic_cnt_" + plugin.sampling.nicStrings[j]
  }

  /** The UCX names come first, and then the NIC names, each in the order of its counters. */
  lemma RegisteredNameAt(plugin: ScorepPlugin, file: NameFile.File, request: Registration.Request, id: nat)
    requires id < |plugin.RegisteredMetrics(file, request).1|
    ensures IsNameOf(
              plugin, file, request, plugin.RegisteredMetrics(file, request).1[id],
              Dispatch.CounterOf(id, UcxCount(plugin.ucxEnabled, file, request)))
  {
    hide NicNames.AggregateNames, NicNames.Kinds, NameFile.ReadNames, Registration.AddNames;
    Registration.RegisterOutcome(file, request);
    NicNames.FewerAggregateNames(plugin.sampling.nicStrings);
  }

  /** After a registration, over any number of sweeps through the registered ids, every read is one of the id's own
      counter exactly when the first sweep finds MPI up and a non-empty snapshot, and every sweep's own snapshot has as
      many sums as there are UCX names, or more if no NIC counter is registered; or, without UCX names, when the first
      sweep finds no sums.  The snapshot found is the registration's if it had to ask the library, else the one held
      before, else the one that comes with the first read.  An id's own counter is the one that its name is of. */
  lemma RegisteredSweepsReadTheirOwnIff(
      plugin: ScorepPlugin, s: Dispatch.State, file: NameFile.File, request: Registration.Request,
      registered: Dispatch.Snapshot, sweeps: seq<seq<Dispatch.Call>>)
    requires s.Valid() && sweeps != []
    requires plugin.RegisteredMetrics(file, request).1 != []
    requires forall i :: 0 <= i < |sweeps| ==>
               && Dispatch.IsSweep(sweeps[i])
               && |sweeps[i]| == |plugin.RegisteredMetrics(file, request).1|
               && sweeps[i][0].Read?
    ensures
      var asks, first := plugin.Asks(file, request.readable), sweeps[0][0];
      var after := Dispatch.Step(s, Dispatch.Register(asks, registered)).0;
      var ucx, nic := UcxCount(plugin.ucxEnabled, file, request), NicMetricsCount(plugin);
      var found := if asks then |registered| else if s.mpiInitialized then s.size else |first.warmup|;
      Dispatch.SweepsReadTheirOwn(after, sweeps, ucx) <==>
      && (asks || s.mpiInitialized || first.mpiUp)
      && if ucx == 0 then found == 0
         else found > 0 && forall i :: 0 <= i < |sweeps| ==> Dispatch.Matches(|sweeps[i][0].snapshot|, ucx, nic)
    ensures
      var names := plugin.RegisteredMetrics(file, request).1;
      var ucx := UcxCount(plugin.ucxEnabled, file, request);
      forall id :: 0 <= id < |names| ==> IsNameOf(plugin, file, request, names[id], Dispatch.CounterOf(id, ucx))
  {
    hide NicNames.Kinds, NameFile.ReadNames, Dispatch.SweepsReadTheirOwn, IsNameOf;
    forall id | 0 <= id < |plugin.RegisteredMetrics(file, request).1|
      ensures IsNameOf(
                plugin, file, request, plugin.RegisteredMetrics(file, request).1[id],
                Dispatch.CounterOf(id, UcxCount(plugin.ucxEnabled, file, request)))
    {
      RegisteredNameAt(plugin, file, request, id);
    }
    LimitKeptByRegistrationIff(plugin, file, request, 0);
    var after := Dispatch.Step(s, Dispatch.Register(plugin.Asks(file, request.readable), registered)).0;
    Dispatch.SweepsReadTheirOwnIff(
      after, sweeps, UcxCount(plugin.ucxEnabled, file, request), NicMetricsCount(plugin));
  }

  /** With UCX collection off and NIC collection on, as documented for the NIC counters, no UCX name is registered, and
      id 0, that of the first NIC metric, reads a UCX sum as soon as the library delivers any. */
  lemma NicOnlyReadsUcxSums(
      plugin: ScorepPlugin, file: NameFile.File, request: Registration.Request,
      warmup: Dispatch.Snapshot, snapshot: Dispatch.Snapshot)
    requires !plugin.ucxEnabled && warmup != []
    ensures UcxCount(plugin.ucxEnabled, file, request) == 0
    ensures
      var after := Dispatch.Step(Dispatch.Fresh(), Dispatch.Register(plugin.Asks(file, request.readable), [])).0;
      && Dispatch.Step(after, Dispatch.Read(0, true, warmup, snapshot)).1.UcxValue?
      && !Dispatch.ReadsItsOwn(after, Dispatch.Read(0, true, warmup, snapshot), 0)
  {
  }
}
