/** Renaming the temporary Score-P metrics: each counter once, in the order of the list. */
module Renaming {
  import opened CStrings
  import opened NumberText
  import opened PluginTypes

  const WORDS: CString := "temporary_counter_name"

  /** The words, and 39 underscores. */
  function Template(): CString {
    WORDS + seq(39, _ => '_')
  }

  /** The size of the buffer the index is printed in. */
  const INDEX_SIZE: nat := 10

  function TemporaryName(metric: CString, index: uint32): CString {
    metric + "_" + Template() + Fit(Decimal(index), INDEX_SIZE)
  }

  /** The text of a temporary name: the metric's name, an underscore, the words and 39 underscores, and at most nine
      digits, those of the index or, from 10^9 on, of a tenth of it. */
  lemma TemporaryNameText(metric: CString, index: uint32)
    ensures
      var name, words, digits := TemporaryName(metric, index), |metric| + 1, |metric| + 62;
      && digits < |name| <= digits + 9
      && name[..words] == metric + "_"
      && name[words..words + 22] == "temporary_counter_name"
      && (forall k :: words + 22 <= k < digits ==> name[k] == '_')
      && (forall k :: digits <= k < |name| ==> IsDigit(name[k], 10))
      && Magnitude(name[digits..], 10) == if index < 1000000000 then index else index / 10
  {
    hide Numeral, Magnitude, IsDigit, Template;
    TemplateText();
    PrintedDigits(index);
    var n, template := Printed(index), Template();
    NumeralMagnitude(n, 10);
    PowersUsed();
    NumeralLength(n, 10, 9);
    var name, words := TemporaryName(metric, index), |metric| + 1;
    assert name == metric + "_" + template + Decimal(n);
    assert name[words + 61..] == Decimal(n);
    assert name[words..words + 61] == template;
    assert name[words..words + 22] == template[..22];
    assert forall k :: words + 22 <= k < words + 61 ==> name[k] == template[k - words];
  }

  lemma TemplateText()
    ensures |Template()| == 61 && Template()[..22] == "temporary_counter_name"
    ensures forall k :: 22 <= k < 61 ==> Template()[k] == '_'
  {
  }

  // ---- when temporary names differ ----

  /** What is left of an index when only nine digits are printed. */
  function Printed(index: uint32): nat {
    if index < 1000000000 then index else index / 10
  }

  lemma PrintedDigits(index: uint32)
    ensures Fit(Decimal(index), INDEX_SIZE) == Decimal(Printed(index))
  {
    PowersUsed();
    NumeralLength(index, 10, 9);
    NumeralLength(index, 10, 10);
  }

  /** Two counters of a metric get the same temporary name exactly when nine digits do not tell them apart. */
  lemma SameTemporaryNameIff(metric: CString, i: uint32, j: uint32)
    ensures TemporaryName(metric, i) == TemporaryName(metric, j) <==> Printed(i) == Printed(j)
  {
    PrintedDigits(i);
    PrintedDigits(j);
    DecimalInjective(Printed(i), Printed(j));
    var front := metric + "_" + Template();
    assert TemporaryName(metric, i)[|front|..] == Decimal(Printed(i));
    assert TemporaryName(metric, j)[|front|..] == Decimal(Printed(j));
  }

  lemma TemporaryNamesDistinct(metric: CString, i: uint32, j: uint32)
    requires i < j < 1000000000
    ensures TemporaryName(metric, i) != TemporaryName(metric, j)
  {
    SameTemporaryNameIff(metric, i, j);
  }

  /** A collision beyond that. */
  lemma TemporaryNamesCollide(metric: CString)
    ensures TemporaryName(metric, 100000000) == TemporaryName(metric, 1000000000)
  {
    SameTemporaryNameIff(metric, 100000000, 1000000000);
  }

  // ---- passes ----

  /** A call of the rename function that Score-P provides. */
  datatype Rename = Rename(temporaryName: CString, newName: CString, metricName: CString, numMetricsSet: nat)

  function RenameOf(metric: CString, index: uint32, name: CString): Rename {
    Rename(TemporaryName(metric, index), name, metric, 0)
  }

  lemma RenameIs(metric: CString, index: uint32, name: CString)
    ensures RenameOf(metric, index, name) == Rename(TemporaryName(metric, index), name, metric, 0)
  {
  }

  /** The calls a pass makes for the records from `i` on. */
  function PendingFrom(metric: CString, records: seq<CounterRecord>, i: nat): seq<Rename>
    requires i <= |records| <= UINT32_MAX
    decreases |records| - i
  {
    if i == |records| then []
    else (if records[i].alreadyRenamed then [] else [RenameOf(metric, i, records[i].name)]) + PendingFrom(metric, records, i + 1)
  }

  function AllRenamed(records: seq<CounterRecord>): seq<CounterRecord> {
    seq(|records|, i requires 0 <= i < |records| => records[i].(alreadyRenamed := true))
  }

  lemma PendingStep(metric: CString, records: seq<CounterRecord>, i: nat)
    requires i <= |records| <= UINT32_MAX
    ensures PendingFrom(metric, records, i) ==
            if i == |records| then []
            else if records[i].alreadyRenamed then PendingFrom(metric, records, i + 1)
            else [RenameOf(metric, i, records[i].name)] + PendingFrom(metric, records, i + 1)
  {
  }

  /** The records when a pass has gone through the first `n`. */
  function RenamedUpTo(records: seq<CounterRecord>, n: nat): (r: seq<CounterRecord>)
    ensures |r| == |records|
  {
    seq(|records|, i requires 0 <= i < |records| => if i < n then records[i].(alreadyRenamed := true) else records[i])
  }

  lemma RenamedUpToStep(records: seq<CounterRecord>, n: nat)
    requires n < |records|
    ensures RenamedUpTo(records, n)[n] == records[n]
    ensures RenamedUpTo(records, n + 1) == RenamedUpTo(records, n)[n := records[n].(alreadyRenamed := true)]
  {
  }

  lemma RenamedUpToEnds(records: seq<CounterRecord>)
    ensures RenamedUpTo(records, 0) == records && RenamedUpTo(records, |records|) == AllRenamed(records)
  {
  }

  /** What is logged and what is pending, before and after one round. */
  lemma RoundKeepsTotal(metric: CString, records: seq<CounterRecord>, i: nat, log: seq<Rename>)
    requires i < |records| <= UINT32_MAX
    ensures var made := if records[i].alreadyRenamed then [] else [RenameOf(metric, i, records[i].name)];
            log + PendingFrom(metric, records, i) == log + made + PendingFrom(metric, records, i + 1)
  {
    hide RenameOf, PendingFrom;
    PendingStep(metric, records, i);
    var later := PendingFrom(metric, records, i + 1);
    if records[i].alreadyRenamed {
      assert log + [] == log;
    } else {
      var made := [RenameOf(metric, i, records[i].name)];
      assert log + (made + later) == log + made + later;
    }
  }

  /** The list grows at its end, its values change, or a rename pass is made, with the callback set or not. */
  datatype Event = Grow(added: seq<CounterRecord>) | Revalue(values: seq<(uint64, uint64)>) | Pass(metric: CString, callback: bool)

  datatype State = State(records: seq<CounterRecord>, log: seq<Rename>)

  predicate Possible(s: State, e: Event) {
    match e
    case Grow(added) =>
      |s.records| + |added| <= UINT32_MAX && forall i :: 0 <= i < |added| ==> !added[i].alreadyRenamed
    case Revalue(values) => |values| == |s.records|
    case Pass(_, _) => |s.records| <= UINT32_MAX
  }

  function Step(s: State, e: Event): State
    requires Possible(s, e)
  {
    match e
    case Grow(added) => s.(records := s.records + added)
    case Revalue(values) =>
      s.(records := seq(|s.records|, i requires 0 <= i < |s.records| =>
        s.records[i].(value := values[i].0, prevValue := values[i].1)))
    case Pass(metric, callback) =>
      if callback then State(AllRenamed(s.records), s.log + PendingFrom(metric, s.records, 0)) else s
  }

  predicate IsRun(s: State, events: seq<Event>)
    decreases |events|
  {
    events == [] || (Possible(s, events[0]) && IsRun(Step(s, events[0]), events[1..]))
  }

  function Run(s: State, events: seq<Event>): State
    requires IsRun(s, events)
    decreases |events|
  {
    if events == [] then s else Run(Step(s, events[0]), events[1..])
  }

  /** Entry `i` of the log renames counter `i`, and the counters in the log are those marked as renamed. */
  ghost predicate LoggedOnce(s: State) {
    && |s.log| <= |s.records| <= UINT32_MAX
    && (forall i :: 0 <= i < |s.log| ==> s.log[i] == RenameOf(s.log[i].metricName, i, s.records[i].name))
    && (forall i :: 0 <= i < |s.records| ==> (s.records[i].alreadyRenamed <==> i < |s.log|))
  }

  lemma {:induction false} RenamedAreSkipped(metric: CString, records: seq<CounterRecord>, i: nat, m: nat)
    requires i <= m <= |records| <= UINT32_MAX
    requires forall k :: i <= k < m ==> records[k].alreadyRenamed
    ensures PendingFrom(metric, records, i) == PendingFrom(metric, records, m)
    decreases m - i
  {
    hide RenameOf;
    if i < m {
      RenamedAreSkipped(metric, records, i + 1, m);
    }
  }

  lemma {:induction false} OthersArePending(metric: CString, records: seq<CounterRecord>, m: nat)
    requires m <= |records| <= UINT32_MAX
    requires forall k :: m <= k < |records| ==> !records[k].alreadyRenamed
    ensures |PendingFrom(metric, records, m)| == |records| - m
    ensures forall k :: 0 <= k < |records| - m ==>
              PendingFrom(metric, records, m)[k] == RenameOf(metric, m + k, records[m + k].name)
    decreases |records| - m
  {
    hide RenameOf, PendingFrom;
    PendingStep(metric, records, m);
    if m < |records| {
      OthersArePending(metric, records, m + 1);
      forall k | 0 <= k < |records| - m
        ensures PendingFrom(metric, records, m)[k] == RenameOf(metric, m + k, records[m + k].name)
      {
        if k > 0 {
          assert PendingFrom(metric, records, m)[k] == PendingFrom(metric, records, m + 1)[k - 1];
        }
      }
    }
  }

  lemma StepLogsOnce(s: State, e: Event)
    requires LoggedOnce(s) && Possible(s, e)
    ensures LoggedOnce(Step(s, e))
    ensures e.Pass? && e.callback ==> |Step(s, e).log| == |s.records|
    ensures e.Pass? && !e.callback ==> Step(s, e) == s
    ensures s.log <= Step(s, e).log
  {
    hide TemporaryName;
    if e.Pass? && e.callback {
      var m := |s.log|;
      RenamedAreSkipped(e.metric, s.records, 0, m);
      OthersArePending(e.metric, s.records, m);
      var next := Step(s, e);
      forall i | 0 <= i < |next.log|
        ensures next.log[i] == RenameOf(next.log[i].metricName, i, next.records[i].name)
      {
        if i >= m {
          assert next.log[i] == PendingFrom(e.metric, s.records, m)[i - m];
        }
      }
    }
  }

  /** A pass with the callback asks to rename each counter not renamed yet, to its own name, and for the metric's. */
  lemma LoggedByPass(s: State, metric: CString, i: nat)
    requires LoggedOnce(s) && |s.log| <= i < |s.records|
    ensures
      var log := Step(s, Pass(metric, true)).log;
      && |log| == |s.records|
      && log[i] == Rename(TemporaryName(metric, i), s.records[i].name, metric, 0)
  {
    hide TemporaryName, PendingFrom;
    var m := |s.log|;
    RenamedAreSkipped(metric, s.records, 0, m);
    OthersArePending(metric, s.records, m);
    assert Step(s, Pass(metric, true)).log[i] == PendingFrom(metric, s.records, m)[i - m];
  }

  /** Over any run from a state whose log is in order, such as the empty list with an empty log, no counter is
      renamed twice and the order is that of the list. */
  lemma {:induction false} RenamedExactlyOnce(s: State, events: seq<Event>)
    requires LoggedOnce(s) && IsRun(s, events)
    ensures LoggedOnce(Run(s, events)) && s.log <= Run(s, events).log
    decreases |events|
  {
    if events != [] {
      StepLogsOnce(s, events[0]);
      RenamedExactlyOnce(Step(s, events[0]), events[1..]);
    }
  }

  /** The first 10^9 entries of such a log that were made for one metric have pairwise distinct temporary names. */
  lemma LoggedNamesDistinct(s: State, i: nat, j: nat)
    requires LoggedOnce(s) && i < j < |s.log| && j < 1000000000
    requires s.log[i].metricName == s.log[j].metricName
    ensures s.log[i].temporaryName != s.log[j].temporaryName
  {
    TemporaryNamesDistinct(s.log[i].metricName, i, j);
    assert s.log[i] == RenameOf(s.log[i].metricName, i, s.records[i].name);
    assert s.log[j] == RenameOf(s.log[j].metricName, j, s.records[j].name);
  }

  /** From the empty list, a pass that finds the callback set leaves each counter of the list renamed once, in
      order; and the temporary names of one metric differ below index 10^9. */
  lemma RenamedExactlyOnceFromStart(events: seq<Event>, metric: CString)
    requires IsRun(State([], []), events) && |Run(State([], []), events).records| <= UINT32_MAX
    ensures
      var end := Step(Run(State([], []), events), Pass(metric, true));
      && |end.log| == |end.records|
      && (forall i :: 0 <= i < |end.log| ==>
            && end.log[i].temporaryName == TemporaryName(end.log[i].metricName, i)
            && end.log[i].newName == end.records[i].name && end.log[i].numMetricsSet == 0)
      && forall i, j :: 0 <= i < j < |end.log| && j < 1000000000 && end.log[i].metricName == end.log[j].metricName ==>
           end.log[i].temporaryName != end.log[j].temporaryName
  {
    hide TemporaryName;
    RenamedExactlyOnce(State([], []), events);
    StepLogsOnce(Run(State([], []), events), Pass(metric, true));
    var end := Step(Run(State([], []), events), Pass(metric, true));
    forall i, j | 0 <= i < j < |end.log| && j < 1000000000 && end.log[i].metricName == end.log[j].metricName
      ensures end.log[i].temporaryName != end.log[j].temporaryName
    {
      LoggedNamesDistinct(end, i, j);
    }
  }
}
