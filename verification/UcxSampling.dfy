/** The sampling object: src/ucx_sampling.cpp. */
module UcxSampling {
  import opened CStrings
  import opened PluginTypes
  import opened StatsTree
  import opened ScanSpec
  import Dispatch
  import LegacyRuns
  import NicNames
  import NicRuns

  class UcxSampling {
    // legacy mode
    var countersInitialized: bool
    var calls: uint64

    // aggregate sums
    var sumSize: nat
    const sumCounters: array<uint64>

    // the NIC device: its counters and their names, as many of the one as of the other
    const nicInitialized: bool
    const nicStrings: seq<CString>
    var nicData: seq<uint64>
    var nicRounds: uint32

    // aggregate names of the NIC counters
    var numNicCountersTotal: nat
    var nicAggregateNum: nat
    const nicMapping: array<uint32>
    const nicAggregateNames: array<CString>

    ghost predicate Valid()
      reads this, sumCounters
    {
      && sumSize <= sumCounters.Length == 64
      && |nicData| == |nicStrings|
      && nicMapping.Length == 10240
      && nicAggregateNames.Length == 1024
    }

    /** A device that was opened, or none (then its tables are empty). */
    constructor (nicDevice: bool, nicStrings: seq<CString>, nicData: seq<uint64>)
      requires |nicData| == |nicStrings|
      ensures Valid() && fresh(sumCounters) && fresh(nicMapping) && fresh(nicAggregateNames)
      ensures LegacyRuns.FRESH == LegacyRuns.LegacyState(countersInitialized, calls, [])
      ensures Aggregate(false) == Dispatch.Fresh()
      ensures Nic() == NicRuns.NicState(nicDevice, 0, nicData) && this.nicStrings == nicStrings
      ensures numNicCountersTotal == 0 && nicAggregateNum == 0
    {
      countersInitialized, calls := false, 0;
      sumSize := 0;
      sumCounters := new uint64[Dispatch.SUM_COUNTERS_MAX](_ => 0);
      nicInitialized, this.nicStrings, this.nicData, nicRounds := nicDevice, nicStrings, nicData, 0;
      numNicCountersTotal, nicAggregateNum := 0, 0;
      nicMapping := new uint32[NicNames.COUNTERS_MAX](_ => 0);
      nicAggregateNames := new CString[NicNames.NAMES_MAX](_ => "");
    }

    ghost function Aggregate(mpiInitialized: bool): Dispatch.State
      reads this, sumCounters
    {
      Dispatch.State(mpiInitialized, sumSize, sumCounters[..])
    }

    ghost function Nic(): NicRuns.NicState
      reads this
    {
      NicRuns.NicState(nicInitialized, nicRounds, nicData)
    }

    /** The abstract state of the legacy mode, whose list belongs to the caller. */
    ghost function LegacyState(list: CounterList): LegacyRuns.LegacyState
      requires list.Valid()
      reads this, list, list.Repr
    {
      LegacyRuns.LegacyState(countersInitialized, calls, list.Records())
    }

    /** The counters of one node.  `exit` tells that an updating scan ran out of slots. */
    method ScanOwnCounters(node: StatsNode, objectName: CString, list: CounterList, numCounters: nat, initialize: bool)
      returns (cursor: nat, exit: bool)
      requires list.Valid()
      modifies list.Repr
      ensures list.Valid() && fresh(list.Repr - old(list.Repr))
      ensures list.Records() == OwnScannedRecords(initialize, node, objectName, numCounters, old(list.Records()))
      ensures cursor == ScannedCursor(initialize, |node.counters|, numCounters, |old(list.items)|)
      ensures exit <==> !initialize && Room(|old(list.items)|, numCounters) < |node.counters|
    {
      hide OwnNames, OwnValues, NewRecords, Overwrite, CounterName, CounterList.Records;
      cursor, exit := numCounters, false;
      ghost var size := |list.items|;
      ghost var names, values := OwnNames(node, objectName), OwnValues(node);
      OwnStart(node, objectName, numCounters, list.Records());
      for k := 0 to |node.counters|
        invariant list.Valid() && fresh(list.Repr - old(list.Repr))
        invariant cursor == numCounters + k
        invariant !initialize ==> |list.items| == size && (k == 0 || cursor <= size)
        invariant list.Records() ==
                  if initialize then old(list.Records()) + NewRecords(names[..k], values[..k], numCounters)
                  else Overwrite(old(list.Records()), numCounters, values[..k])
      {
        OwnStep(node, objectName, numCounters, k, old(list.Records()));
        if initialize {
          list.PushBack(CounterName(objectName, node.counters[k].name), ToUint32(cursor), node.counters[k].value);
        } else {
          if cursor >= |list.items| {
            exit := true;
            OverwriteFull(values, numCounters, k, old(list.Records()));
            return;
          }
          list.SetValue(cursor, node.counters[k].value);
        }
        cursor := cursor + 1;
      }
      assert names[..|names|] == names && values[..|values|] == values;
    }

    /** One round of the loop over the children: a node's counters, then the nodes below it.  `done` is false
        when an updating scan ran out of slots within the node's own counters. */
    method ScanNode(
        node: StatsNode, prefix: CString, list: CounterList, numObjects: nat, numCounters: nat, initialize: bool)
      returns (done: bool, childObjects: nat, cursor: nat)
      requires list.Valid()
      modifies list.Repr
      ensures list.Valid() && fresh(list.Repr - old(list.Repr))
      ensures done <==> initialize || |node.counters| <= Room(|old(list.Records())|, numCounters)
      ensures
        var inner := ChildPrefix(prefix, node);
        var own := OwnScannedRecords(initialize, node, ObjectName(numObjects, inner), numCounters, old(list.Records()));
        var c1 := ScannedCursor(initialize, |node.counters|, numCounters, |old(list.Records())|);
        var size1 := OwnSize(initialize, node, |old(list.Records())|);
        if done then
          && list.Records() == ScannedRecords(initialize, node.children, inner, numObjects + 1, c1, own)
          && cursor == ScannedCursor(initialize, |Values(node.children)|, c1, size1)
        else
          list.Records() == own && cursor == c1
      ensures initialize ==> childObjects == |node.children|
      decreases node, 1
    {
      var inner := if initialize then ChildPrefix(prefix, node) else "";
      var objectName := if initialize then ObjectName(numObjects, inner) else "";
      var exit;
      cursor, exit := ScanOwnCounters(node, objectName, list, numCounters, initialize);
      if exit {
        return false, 0, cursor;
      }
      childObjects, cursor := RecursiveScanCountersList(node, inner, list, numObjects + 1, cursor, initialize);
      done := true;
    }

    method RecursiveScanCountersList(
        root: StatsNode, prefix: CString, list: CounterList, numObjects: nat, numCounters: nat, initialize: bool)
      returns (localObjects: nat, cursor: nat)
      requires list.Valid()
      modifies list.Repr
      ensures list.Valid() && fresh(list.Repr - old(list.Repr))
      ensures list.Records() ==
              ScannedRecords(initialize, root.children, prefix, numObjects, numCounters, old(list.Records()))
      ensures cursor == ScannedCursor(initialize, |Values(root.children)|, numCounters, |old(list.Records())|)
      ensures localObjects ==
              if initialize then |root.children| else CompletedNodes(root.children, Room(|old(list.Records())|, numCounters))
      decreases root, 0
    {
      hide *;
      cursor, localObjects := numCounters, 0;
      var objects := numObjects;
      ghost var size := |list.Records()|;
      ghost var target := ScannedRecords(initialize, root.children, prefix, numObjects, numCounters, list.Records());
      ghost var end := ScannedCursor(initialize, |Values(root.children)|, numCounters, size);
      ghost var completed := CompletedNodes(root.children, Room(size, numCounters));
      assert root.children[0..] == root.children;
      for i := 0 to |root.children|
        invariant list.Valid() && fresh(list.Repr - old(list.Repr))
        invariant ScannedRecords(initialize, root.children[i..], prefix, objects, cursor, list.Records()) == target
        invariant ScannedCursor(initialize, |Values(root.children[i..])|, cursor, size) == end
        invariant !initialize ==> |list.Records()| == size
        invariant localObjects == i
        invariant !initialize ==> i + CompletedNodes(root.children[i..], Room(size, cursor)) == completed
      {
        ghost var rest, records, n, c := root.children[i..], list.Records(), objects, cursor;
        var node := root.children[i];
        assert rest[0] == node && rest[1..] == root.children[i + 1..];
        ghost var c1 := ScannedCursor(initialize, |node.counters|, cursor, |list.Records()|);
        var done, childObjects;
        done, childObjects, cursor := ScanNode(node, prefix, list, objects, cursor, initialize);
        if !done {
          ScanStop(rest, prefix, ObjectName(n, ChildPrefix(prefix, node)), n, c, records);
          return;
        }
        objects := objects + 1 + childObjects;
        localObjects := localObjects + 1;
        ScanStep(initialize, rest, prefix, n, objects, c, c1, cursor, records);
        CursorStep(initialize, rest, c, c1, cursor, size, |records|);
        if !initialize {
          CompletedStep(rest, c, c1, cursor, size);
        }
      }
      assert root.children[|root.children|..] == [];
      ScanNothing(initialize, prefix, objects, cursor, list.Records(), size);
    }

    /** Scans the head of the statistics list, which must have one. */
    method ScanCountersList(stats: seq<StatsNode>, list: CounterList, initialize: bool)
      requires stats != []
      requires list.Valid()
      modifies list.Repr
      ensures list.Valid() && fresh(list.Repr - old(list.Repr))
      ensures list.Records() == Scan(initialize, stats[0], old(list.Records()))
    {
      var _, _ := RecursiveScanCountersList(stats[0], "cnt", list, 0, 0, initialize);
    }

    /** `stats` is what the server delivers, should this call ask it.  The out-parameters keep what the
        caller had in them when the call hands out no reading. */
    method StatisticsCurrentValueGet(
        index: uint32, list: CounterList, stats: seq<StatsNode>, value0: uint64, prevValue0: uint64)
      returns (detected: bool, value: uint64, prevValue: uint64)
      requires list.Valid() && this !in list.Repr
      requires LegacyRuns.Scans(LegacyState(list), index) ==> stats != []
      modifies this`countersInitialized, this`calls, list.Repr
      ensures list.Valid() && fresh(list.Repr - old(list.Repr))
      ensures
        var (next, outcome) := LegacyRuns.Step(old(LegacyState(list)), LegacyRuns.CallWith(index, stats));
        && LegacyState(list) == next
        && detected == outcome.Detected?
        && if outcome.Reading? then value == outcome.value && prevValue == outcome.prevValue
           else value == value0 && prevValue == prevValue0
    {
      detected, value, prevValue := false, value0, prevValue0;
      if countersInitialized {
        if index == 0 {
          ScanCountersList(stats, list, false);
        }
        if index < |list.items| {
          value, prevValue := list.Read(index);
        } else {
          value, prevValue := 0, 0;
        }
        return;
      }
      if |list.items| == 0 {
        if calls % 256 == 0 {
          ScanCountersList(stats, list, true);
          if |list.items| != 0 {
            countersInitialized := true;
            return true, value, prevValue;
          }
        }
      }
      calls := AddUint64(calls, 1);
    }

    // ---- aggregate sums ----

    /** The library's part: fills the front of the array, and says how much of it. */
    method StatsAggregate(snapshot: Dispatch.Snapshot) returns (size: nat)
      requires Valid()
      modifies sumCounters
      ensures size == |snapshot|
      ensures sumCounters[..] == snapshot + old(sumCounters[..])[|snapshot|..]
    {
      size := 0;
      while size < |snapshot|
        invariant size <= |snapshot|
        invariant forall k :: 0 <= k < size ==> sumCounters[k] == snapshot[k]
        invariant forall k :: size <= k < sumCounters.Length ==> sumCounters[k] == old(sumCounters[k])
      {
        sumCounters[size] := snapshot[size];
        size := size + 1;
      }
    }

    /** Index 0 refreshes first.  The result is false when that refresh brought nothing, and even then the
        value is what the array holds. */
    method AggregateCounterGet(index: uint32, snapshot: Dispatch.Snapshot) returns (ok: bool, value: uint64)
      requires Valid() && index < 64
      modifies this`sumSize, sumCounters
      ensures Valid()
      ensures forall m :: Aggregate(m) ==
                          if index == 0 then old(Aggregate(true)).Refresh(snapshot).(mpiInitialized := m) else old(Aggregate(m))
      ensures value == Aggregate(true).counters[index]
      ensures ok <==> index != 0 || snapshot != []
    {
      ok := true;
      if index == 0 {
        sumSize := StatsAggregate(snapshot);
        if sumSize == 0 {
          ok, value := false, 0;
        }
        value := sumCounters[0];
      } else {
        value := sumCounters[index];
      }
    }

    // ---- NIC counters ----

    /** `device` is what the device answers when it is queried. */
    method NicCountersUpdate(device: seq<uint64>) returns (numCounters: nat)
      requires Valid() && |device| == |nicStrings|
      modifies this`nicData
      ensures Valid()
      ensures nicData == if nicInitialized then device else old(nicData)
      ensures numCounters == if nicInitialized then |nicStrings| else 0
    {
      numCounters := 0;
      if nicInitialized {
        nicData := device;
        numCounters := |nicData|;
      }
    }

    method NicCounterValueGet(index: uint32, device: seq<uint64>) returns (value: uint64)
      requires Valid()
      requires |device| == |nicStrings|
      requires nicInitialized ==> index < |nicStrings|
      modifies this`nicData, this`nicRounds
      ensures Valid()
      ensures (Nic(), value) == NicRuns.Step(old(Nic()), NicRuns.Read(index, device))
    {
      value := 0;
      if nicInitialized {
        if index == 0 {
          if nicRounds % NicRuns.DECIMATION == 0 {
            var _ := NicCountersUpdate(device);
          }
          nicRounds := ToUint32(nicRounds + 1);
        }
        value := nicData[index];
      }
    }

    /** Looks the name up among the first `num` aggregate names. */
    method AggregateNameFind(name: CString, num: nat) returns (found: bool, slot: uint32)
      requires Valid() && num <= 1024
      ensures NicNames.MappedTo(nicAggregateNames[..num], name, slot)
      ensures found <==> name in nicAggregateNames[..num]
    {
      for i := 0 to num
        invariant name !in nicAggregateNames[..i]
      {
        if name == nicAggregateNames[i] {
          return true, i;
        }
      }
      return false, UINT32_MAX;
    }

    /** The live aggregate names are `live`, and the first `n` of the device's counters are mapped to them. */
    ghost predicate Grouped(live: seq<CString>, names: seq<CString>, n: nat)
      requires n <= |names| <= nicMapping.Length && nicAggregateNames.Length == NicNames.NAMES_MAX
      reads nicMapping, nicAggregateNames
    {
      && |live| <= NicNames.NAMES_MAX
      && (forall k :: 0 <= k < |live| ==> nicAggregateNames[k] == live[k])
      && forall k :: 0 <= k < n ==> NicNames.MappedTo(live, NicNames.Filter(names[k]), nicMapping[k])
    }

    /** One round of the loop over the device's counters. */
    method AggregateCounter(names: seq<CString>, index: nat, num: nat, ghost live: seq<CString>)
      returns (nextNum: nat, ghost nextLive: seq<CString>)
      requires Valid() && index < |names| <= 10240
      requires Grouped(live, names, index) && num == |live|
      requires num < 1024 ==> forall k :: 0 <= k < index ==> NicNames.Filter(names[k]) in live
      modifies nicMapping, nicAggregateNames
      ensures Grouped(nextLive, names, index + 1) && num <= nextNum == |nextLive|
      ensures nextLive == NicNames.WithName(live, NicNames.Filter(names[index]))
      ensures forall k :: 0 <= k < nicMapping.Length && k != index ==> nicMapping[k] == old(nicMapping[k])
      ensures forall k :: nextNum <= k < 1024 ==> nicAggregateNames[k] == old(nicAggregateNames[k])
    {
      hide NicNames.Filter, NicNames.IsFiltered, NicNames.Clean;
      nextNum, nextLive := num, live;
      var name := NicNames.Filter(names[index]);
      var found, slot := AggregateNameFind(name, num);
      assert nicAggregateNames[..num] == live;
      if !found && num < NicNames.NAMES_MAX {
        slot := num;
        nicAggregateNames[slot] := name;
        nextNum, nextLive := num + 1, live + [name];
        NicNames.MappingGrows(live, name, names[..index], nicMapping[..index]);
        assert forall k :: 0 <= k < index ==> NicNames.MappedTo(nextLive, NicNames.Filter(names[..index][k]), nicMapping[..index][k]);
      }
      nicMapping[index] := slot;
    }

    /** Groups the device's counters by filtered name.  Entries beyond the live ones stay as they were. */
    method NicCountersAggregate(device: seq<uint64>) returns (num: nat)
      requires Valid()
      requires |device| == |nicStrings|
      requires nicInitialized ==> |nicStrings| <= 10240
      modifies this`nicData, this`numNicCountersTotal, this`nicAggregateNum, nicMapping, nicAggregateNames
      ensures Valid()
      ensures
        var names := if nicInitialized then nicStrings else [];
        && num == nicAggregateNum <= 1024
        && numNicCountersTotal == |names|
        && nicAggregateNames[..num] == NicNames.AggregateNames(names)
        && NicNames.IsMapping(names, nicMapping[..|names|])
        && (forall k :: |names| <= k < nicMapping.Length ==> nicMapping[k] == old(nicMapping[k]))
        && (forall k :: num <= k < 1024 ==> nicAggregateNames[k] == old(nicAggregateNames[k]))
      ensures Nic() == NicRuns.Step(old(Nic()), NicRuns.Group(device)).0
    {
      hide NicNames.AggregateNames, NicNames.MappedTo, NicNames.Filter, NicNames.WithName;
      NicNames.AggregateNothing();
      numNicCountersTotal := NicCountersUpdate(device);
      ghost var names := if nicInitialized then nicStrings else [];
      ghost var live := [];
      assert names[..0] == [];
      var index: nat := 0;
      num := 0;
      while index < numNicCountersTotal
        invariant Valid() && numNicCountersTotal == |names| && index <= |names|
        invariant nicData == if nicInitialized then device else old(nicData)
        invariant Grouped(live, names, index) && num == |live| && live == NicNames.AggregateNames(names[..index])
        invariant forall k :: num <= k < NicNames.NAMES_MAX ==> nicAggregateNames[k] == old(nicAggregateNames[k])
        invariant forall k :: |names| <= k < nicMapping.Length ==> nicMapping[k] == old(nicMapping[k])
      {
        NicNames.AggregateStep(names, index);
        num, live := AggregateCounter(nicStrings, index, num, live);
        index := index + 1;
      }
      assert names[..|names|] == names && nicAggregateNames[..num] == live;
      nicAggregateNum := num;
    }
  }
}
