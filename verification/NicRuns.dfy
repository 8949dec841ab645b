/** NIC counter reads over whole runs: the device is queried at one round in 128, and whenever the counters are
    grouped by name. */
module NicRuns {
  import opened PluginTypes

  /** A power of two. */
  const DECIMATION: nat := 128

  datatype NicState = NicState(initialized: bool, rounds: uint32, data: seq<uint64>)

  /** A read of one counter, or a grouping of all of them, with the statistics the device would answer if it were
      queried. */
  datatype NicCall = Read(index: uint32, device: seq<uint64>) | Group(device: seq<uint64>)

  /** The call stays inside the device's table, whose length does not change. */
  predicate InRange(s: NicState, call: NicCall) {
    |call.device| == |s.data| && (call.Read? ==> call.index < |s.data|)
  }

  predicate IsRound(call: NicCall) {
    call.Read? && call.index == 0
  }

  predicate Queries(s: NicState, call: NicCall) {
    s.initialized && (call.Group? || (call.index == 0 && s.rounds % DECIMATION == 0))
  }

  /** The state after a call, and the value read; a grouping reads none. */
  function Step(s: NicState, call: NicCall): (NicState, uint64)
    requires s.initialized ==> InRange(s, call)
  {
    if !s.initialized then (s, 0)
    else
      var data := if Queries(s, call) then call.device else s.data;
      var rounds := if IsRound(call) then ToUint32(s.rounds + 1) else s.rounds;
      (NicState(true, rounds, data), if call.Read? then data[call.index] else 0)
  }

  ghost predicate AllInRange(data: seq<uint64>, calls: seq<NicCall>) {
    forall k :: 0 <= k < |calls| ==> InRange(NicState(true, 0, data), calls[k])
  }

  function Run(s: NicState, calls: seq<NicCall>): (r: NicState)
    requires s.initialized && AllInRange(s.data, calls)
    ensures r.initialized && |r.data| == |s.data|
  {
    if calls == [] then s else Step(Run(s, calls[..|calls| - 1]), calls[|calls| - 1]).0
  }

  function QueryCount(s: NicState, calls: seq<NicCall>): nat
    requires s.initialized && AllInRange(s.data, calls)
  {
    if calls == [] then 0
    else
      var before := calls[..|calls| - 1];
      QueryCount(s, before) + if Queries(Run(s, before), calls[|calls| - 1]) then 1 else 0
  }

  /** The number of rounds, that is, of reads of index 0. */
  function RoundCount(calls: seq<NicCall>): nat {
    if calls == [] then 0 else RoundCount(calls[..|calls| - 1]) + if IsRound(calls[|calls| - 1]) then 1 else 0
  }

  function GroupCount(calls: seq<NicCall>): nat {
    if calls == [] then 0 else GroupCount(calls[..|calls| - 1]) + if calls[|calls| - 1].Group? then 1 else 0
  }

  /** A call at which the device is queried, told from the calls alone: a grouping, or a round whose number, counted
      from 0, is a multiple of 128. */
  predicate IsQuery(calls: seq<NicCall>, k: nat)
    requires k < |calls|
  {
    calls[k].Group? || (IsRound(calls[k]) && RoundCount(calls[..k]) % 128 == 0)
  }

  ghost predicate IsLatestQuery(calls: seq<NicCall>, q: nat) {
    && q < |calls| && IsQuery(calls, q)
    && forall k :: q < k < |calls| ==> !IsQuery(calls, k)
  }

  lemma RoundCounter(n: nat)
    ensures ToUint32(ToUint32(n) + 1) == ToUint32(n + 1)
    ensures ToUint32(n) % 128 == n % 128
    ensures (n + 128) / 128 == (n + 127) / 128 + if n % 128 == 0 then 1 else 0
  {
    var q, r := n / 0x1_0000_0000, ToUint32(n);
    assert n == 128 * (0x200_0000 * q) + r;
    Remainder(n, 128, 0x200_0000 * q + r / 128, r % 128);
    NextRemainder(n, 0x1_0000_0000);
  }

  /** After any run from the start the device has been queried at one round in 128, the first included, and at each
      grouping.  The 32-bit round counter may wrap around any number of times. */
  lemma {:induction false} RoundsCounted(data: seq<uint64>, calls: seq<NicCall>)
    requires AllInRange(data, calls)
    ensures
      var s := NicState(true, 0, data);
      && QueryCount(s, calls) == (RoundCount(calls) + 127) / 128 + GroupCount(calls)
      && Run(s, calls).rounds == RoundCount(calls) % 0x1_0000_0000
  {
    if calls != [] {
      var before := calls[..|calls| - 1];
      RoundsCounted(data, before);
      RoundCounter(RoundCount(before));
    }
  }

  /** Without a device a read is 0, and nothing changes. */
  lemma NothingWithoutDevice(s: NicState, call: NicCall)
    requires !s.initialized
    ensures Step(s, call).0 == s && Step(s, call).1 == 0
  {
  }

  lemma QueryStep(data: seq<uint64>, calls: seq<NicCall>)
    requires calls != [] && AllInRange(data, calls)
    ensures
      var last := |calls| - 1;
      && (IsQuery(calls, last) <==> Queries(Run(NicState(true, 0, data), calls[..last]), calls[last]))
      && forall k :: 0 <= k < last ==> (IsQuery(calls, k) <==> IsQuery(calls[..last], k))
  {
    var before := calls[..|calls| - 1];
    RoundsCounted(data, before);
    RoundCounter(RoundCount(before));
    assert forall k :: 0 <= k < |before| ==> before[..k] == calls[..k];
  }

  /** The data in use is what the device answered at the latest query, or what there was at the start. */
  lemma {:induction false} DataOfLatestQuery(data: seq<uint64>, calls: seq<NicCall>)
    requires AllInRange(data, calls)
    ensures forall q: nat :: IsLatestQuery(calls, q) ==> Run(NicState(true, 0, data), calls).data == calls[q].device
    ensures (forall k :: 0 <= k < |calls| ==> !IsQuery(calls, k)) ==> Run(NicState(true, 0, data), calls).data == data
  {
    hide IsQuery, Queries;
    if calls != [] {
      var last := |calls| - 1;
      var before := calls[..last];
      DataOfLatestQuery(data, before);
      QueryStep(data, calls);
      forall q: nat | IsLatestQuery(calls, q)
        ensures Run(NicState(true, 0, data), calls).data == calls[q].device
      {
        if q < last {
          assert IsLatestQuery(before, q);
        }
      }
    }
  }

  /** Once there was a round or a grouping there is a latest query, and at most 127 rounds have followed it. */
  lemma {:induction false} LatestQuery(data: seq<uint64>, calls: seq<NicCall>) returns (q: nat)
    requires AllInRange(data, calls)
    requires RoundCount(calls) > 0 || GroupCount(calls) > 0
    ensures IsLatestQuery(calls, q)
    ensures RoundCount(calls) <= 128 * ((RoundCount(calls[..q + 1]) + 127) / 128)
  {
    var last := |calls| - 1;
    assert calls[..last + 1] == calls;
    if IsQuery(calls, last) {
      q := last;
    } else {
      var before := calls[..last];
      QueryStep(data, calls);
      q := LatestQuery(data, before);
      assert before[..q + 1] == calls[..q + 1];
    }
  }

  /** A read returns the device's answer at the latest query, at most 127 rounds back, whatever index it reads. */
  lemma ReadIsAtMost127RoundsOld(data: seq<uint64>, calls: seq<NicCall>, call: NicCall) returns (q: nat)
    requires call.Read? && AllInRange(data, calls + [call]) && AllInRange(data, calls)
    requires RoundCount(calls + [call]) > 0 || GroupCount(calls + [call]) > 0
    ensures
      var (after, value) := Step(Run(NicState(true, 0, data), calls), call);
      var all := calls + [call];
      && IsLatestQuery(all, q)
      && RoundCount(all) - RoundCount(all[..q + 1]) <= 127
      && |all[q].device| == |data| && value == all[q].device[call.index]
  {
    var all := calls + [call];
    assert all[..|all| - 1] == calls && all[|all| - 1] == call;
    q := LatestQuery(data, all);
    DataOfLatestQuery(data, all);
    assert InRange(NicState(true, 0, data), all[q]);
  }
}
