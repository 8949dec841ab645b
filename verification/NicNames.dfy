/** Grouping the NIC counters by name, once digits and colons are taken out. */
module NicNames {
  import opened CStrings
  import opened NumberText
  import opened PluginTypes

  /** The capacity of the array of distinct names, and of the mapping of the device's counters to them. */
  const NAMES_MAX: nat := 1024
  const COUNTERS_MAX: nat := 10240

  predicate IsFiltered(c: char) {
    c in "0123456789:"
  }

  /** Neither a decimal digit nor a colon is in the name. */
  predicate Clean(name: string) {
    forall i :: 0 <= i < |name| ==> !('0' <= name[i] <= '9') && name[i] != ':'
  }

  /** Exactly the decimal digits and the colon are filtered. */
  lemma FilteredIff(c: char)
    ensures IsFiltered(c) <==> '0' <= c <= '9' || c == ':'
    ensures IsFiltered(c) <==> IsDigit(c, 10) || c == ':'
  {
    var chars := "0123456789:";
    if '0' <= c <= '9' {
      var k := c as int - '0' as int;
      assert chars[k] == c;
    }
    assert chars[10] == ':';
  }

  /** The name without its digits and colons. */
  function Filter(name: string): (r: string)
    ensures NulFree(name) ==> NulFree(r)
    ensures Clean(r)
    ensures |r| <= |name|
  {
    if name == "" then ""
    else
      FilteredIff(name[0]);
      if IsFiltered(name[0]) then Filter(name[1..]) else [name[0]] + Filter(name[1..])
  }

  /** Filtering leaves alone exactly the names that have no digit and no colon. */
  lemma {:induction false} UnchangedIffClean(name: string)
    ensures Filter(name) == name <==> Clean(name)
  {
    if name != "" {
      FilteredIff(name[0]);
      UnchangedIffClean(name[1..]);
      assert name == [name[0]] + name[1..];
    }
  }

  lemma FilterNothing()
    ensures Filter("") == ""
  {
  }

  lemma FilterCons(c: char, rest: string)
    ensures Filter([c] + rest) == if IsFiltered(c) then Filter(rest) else [c] + Filter(rest)
  {
    assert ([c] + rest)[1..] == rest;
  }

  lemma Regroup(x: string, y: string, z: string)
    ensures x + (y + z) == x + y + z
  {
  }

  /** Nothing but digits and colons is taken out, and the order stays: with `FilterCons`, this says it all. */
  lemma {:induction false} FilterKeepsTheRest(a: string, b: string)
    ensures Filter(a + b) == Filter(a) + Filter(b)
  {
    hide Filter, IsFiltered, Clean;
    FilterNothing();
    if a == "" {
      assert a + b == b;
    } else {
      var c, rest := a[0], a[1..];
      var tail, x, y := rest + b, Filter(rest), Filter(b);
      FilterKeepsTheRest(rest, b);
      assert a == [c] + rest && a + b == [c] + tail;
      FilterCons(c, rest);
      FilterCons(c, tail);
      if !IsFiltered(c) {
        Regroup([c], x, y);
      }
    }
  }

  /** A number in a name leaves nothing behind. */
  lemma NumbersAreFilteredOut(front: string, n: nat, back: string)
    ensures Filter(front + Decimal(n) + back) == Filter(front) + Filter(back)
    ensures Clean(front) && Clean(back) ==> Filter(front + Decimal(n) + back) == front + back
  {
    hide Filter, Numeral, Clean;
    NumeralMagnitude(n, 10);
    DigitsAreFilteredOut(Decimal(n));
    FilterKeepsTheRest(front, Decimal(n));
    FilterKeepsTheRest(front + Decimal(n), back);
    assert Filter(front) + "" == Filter(front);
    UnchangedIffClean(front);
    UnchangedIffClean(back);
  }

  lemma {:induction false} DigitsAreFilteredOut(digits: string)
    requires forall i :: 0 <= i < |digits| ==> IsDigit(digits[i], 10)
    ensures Filter(digits) == ""
  {
    if digits != "" {
      FilteredIff(digits[0]);
      DigitsAreFilteredOut(digits[1..]);
    }
  }

  function FilterAll(names: seq<CString>): (r: seq<CString>)
    ensures |r| == |names|
  {
    seq(|names|, i requires 0 <= i < |names| => Filter(names[i]))
  }

  // ---- first occurrences ----

  /** The distinct names, in the order in which they first occur. */
  function FirstOccurrences(names: seq<CString>): seq<CString> {
    if names == [] then []
    else
      var before, last := FirstOccurrences(names[..|names| - 1]), names[|names| - 1];
      if last in before then before else before + [last]
  }

  ghost predicate Distinct(names: seq<CString>) {
    forall i, j :: 0 <= i < j < |names| ==> names[i] != names[j]
  }

  ghost predicate FirstAt(names: seq<CString>, name: CString, p: nat) {
    p < |names| && names[p] == name && name !in names[..p]
  }

  /** This pins the list down: no name twice, the same names, ordered by their first occurrence. */
  lemma {:induction false} FirstOccurrencesMeaning(names: seq<CString>)
    ensures Distinct(FirstOccurrences(names))
    ensures forall x :: x in FirstOccurrences(names) <==> x in names
    ensures forall i, j, p: nat, q: nat |
              && 0 <= i < j < |FirstOccurrences(names)|
              && FirstAt(names, FirstOccurrences(names)[i], p)
              && FirstAt(names, FirstOccurrences(names)[j], q)
            :: p < q
  {
    if names != [] {
      var init, last := names[..|names| - 1], names[|names| - 1];
      FirstOccurrencesMeaning(init);
      assert names == init + [last];
      var first := FirstOccurrences(names);
      forall i, j, p: nat, q: nat | 0 <= i < j < |first| && FirstAt(names, first[i], p) && FirstAt(names, first[j], q)
        ensures p < q
      {
        assert first[i] in init && init[..p] == names[..p];
        if q < |init| {
          assert init[..q] == names[..q];
          assert FirstAt(init, first[j], q);
          if p < |init| {
            assert FirstAt(init, first[i], p);
          }
        }
      }
    }
  }

  lemma {:induction false} FirstOccurrencesPrefix(names: seq<CString>, n: nat)
    requires n <= |names|
    ensures FirstOccurrences(names[..n]) <= FirstOccurrences(names)
  {
    if n < |names| {
      FirstOccurrencesPrefix(names[..|names| - 1], n);
      assert names[..|names| - 1][..n] == names[..n];
    } else {
      assert names[..n] == names;
    }
  }

  lemma {:induction false} FirstOccurrencesOfDistinct(names: seq<CString>)
    requires Distinct(names)
    ensures FirstOccurrences(names) == names
  {
    if names != [] {
      FirstOccurrencesOfDistinct(names[..|names| - 1]);
      assert names == names[..|names| - 1] + [names[|names| - 1]];
    }
  }

  // ---- the aggregate names and the mapping ----

  function Cut(names: seq<CString>): seq<CString> {
    if |names| <= NAMES_MAX then names else names[..NAMES_MAX]
  }

  /** The aggregate names of a device: the first 1024 distinct filtered names. */
  function AggregateNames(device: seq<CString>): seq<CString> {
    Cut(FirstOccurrences(FilterAll(device)))
  }

  /** The slot of the name, or the unsigned value of -1 when it has none. */
  predicate MappedTo(live: seq<CString>, name: CString, slot: uint32) {
    if name in live then slot < |live| && live[slot] == name else slot == UINT32_MAX
  }

  ghost predicate IsMapping(device: seq<CString>, mapping: seq<uint32>) {
    && |mapping| == |device|
    && forall i :: 0 <= i < |device| ==> MappedTo(AggregateNames(device), Filter(device[i]), mapping[i])
  }

  /** There is exactly one mapping, so nothing the arrays held before can show in it. */
  lemma MappingUnique(device: seq<CString>, m: seq<uint32>, n: seq<uint32>)
    requires IsMapping(device, m) && IsMapping(device, n)
    ensures m == n
  {
    AggregateNamesDistinct(device);
    forall i | 0 <= i < |m|
      ensures m[i] == n[i]
    {
      assert MappedTo(AggregateNames(device), Filter(device[i]), m[i]);
      assert MappedTo(AggregateNames(device), Filter(device[i]), n[i]);
    }
  }

  lemma AggregateNamesDistinct(device: seq<CString>)
    ensures Distinct(AggregateNames(device)) && |AggregateNames(device)| <= 1024
    ensures forall x :: x in AggregateNames(device) ==> Clean(x)
  {
    FirstOccurrencesMeaning(FilterAll(device));
    assert forall x :: x in AggregateNames(device) ==> x in FirstOccurrences(FilterAll(device));
  }

  /** Two counters that have a slot share it exactly when their filtered names are equal; and a counter has
      no slot exactly when its filtered name comes after 1024 other ones. */
  lemma {:induction false} SharedSlotIffSameName(device: seq<CString>, mapping: seq<uint32>, i: nat, j: nat)
    requires IsMapping(device, mapping) && i < |device| && j < |device|
    ensures mapping[i] != UINT32_MAX && mapping[j] != UINT32_MAX ==>
              (mapping[i] == mapping[j] <==> Filter(device[i]) == Filter(device[j]))
    ensures mapping[i] == UINT32_MAX <==>
              Filter(device[i]) in FirstOccurrences(FilterAll(device))[|AggregateNames(device)|..]
  {
    hide Filter, FirstOccurrences;
    var live, all := AggregateNames(device), FirstOccurrences(FilterAll(device));
    FirstOccurrencesMeaning(FilterAll(device));
    AggregateNamesDistinct(device);
    assert MappedTo(live, Filter(device[i]), mapping[i]) && MappedTo(live, Filter(device[j]), mapping[j]);
    assert FilterAll(device)[i] in all;
    assert all == live + all[|live|..];
    var p :| 0 <= p < |all| && all[p] == Filter(device[i]);
    if p < |live| {
      assert live[p] == Filter(device[i]);
    } else {
      assert all[|live|..][p - |live|] == all[p];
    }
  }

  /** Counters whose names differ in a number only, such as that of a queue, are mapped to one slot, or none has one. */
  lemma NumberedCountersShareSlot(
      device: seq<CString>, mapping: seq<uint32>, i: nat, j: nat, front: CString, m: nat, n: nat, back: CString)
    requires IsMapping(device, mapping) && i < |device| && j < |device|
    requires device[i] == front + Decimal(m) + back && device[j] == front + Decimal(n) + back
    ensures mapping[i] == mapping[j]
  {
    hide Filter, FirstOccurrences, Numeral;
    NumbersAreFilteredOut(front, m, back);
    NumbersAreFilteredOut(front, n, back);
    AggregateNamesDistinct(device);
    assert MappedTo(AggregateNames(device), Filter(device[i]), mapping[i]);
    assert MappedTo(AggregateNames(device), Filter(device[j]), mapping[j]);
  }

  /** All names, once filtered, are among the first `p`, as far as 1024 slots go; and those need no filtering and
      are all different. */
  ghost predicate FrontIsAllNames(device: seq<CString>, p: nat) {
    && p <= |device| && p <= 1024
    && Distinct(device[..p])
    && (forall i :: 0 <= i < p ==> Clean(device[i]))
    && (p == 1024 || forall i :: p <= i < |device| ==> Filter(device[i]) in device[..p])
  }

  /** The names under which NIC counters are registered are the device's own first names, as many as there are
      aggregate names.  They are the aggregate names exactly when some front of the device's names is all of them. */
  lemma {:induction false} RegisteredAreAggregateIff(device: seq<CString>)
    ensures |AggregateNames(device)| <= |device|
    ensures device[..|AggregateNames(device)|] == AggregateNames(device) <==> exists p: nat :: FrontIsAllNames(device, p)
  {
    hide Filter, FirstOccurrences;
    var live, all := AggregateNames(device), FilterAll(device);
    FewerAggregateNames(device);
    AggregateNamesDistinct(device);
    FirstOccurrencesMeaning(all);
    if device[..|live|] == live {
      assert forall i :: 0 <= i < |device| ==> all[i] in FirstOccurrences(all);
      forall i | 0 <= i < |live|
        ensures Clean(device[i])
      {
        assert device[i] == live[i] && live[i] in live;
      }
      assert |live| < NAMES_MAX ==> live == FirstOccurrences(all);
      assert Distinct(device[..|live|]);
      forall i | |live| <= i < |device| && |live| < NAMES_MAX
        ensures Filter(device[i]) in device[..|live|]
      {
        assert all[i] in FirstOccurrences(all);
      }
      assert FrontIsAllNames(device, |live|);
    }
    if p: nat :| FrontIsAllNames(device, p) {
      FrontIsAggregate(device, p);
    }
  }

  lemma FrontIsAggregate(device: seq<CString>, p: nat)
    requires FrontIsAllNames(device, p)
    ensures AggregateNames(device) == device[..p]
  {
    hide Filter, FirstOccurrences;
    var all := FilterAll(device);
    forall i | 0 <= i < p
      ensures all[i] == device[i]
    {
      UnchangedIffClean(device[i]);
    }
    assert all[..p] == device[..p];
    FirstOccurrencesOfDistinct(device[..p]);
    FirstOccurrencesPrefix(all, p);
    if forall i :: p <= i < |device| ==> Filter(device[i]) in device[..p] {
      NothingNew(all, p);
    }
  }

  lemma {:induction false} NothingNew(names: seq<CString>, p: nat)
    requires p <= |names| && forall i :: p <= i < |names| ==> names[i] in names[..p]
    ensures FirstOccurrences(names) == FirstOccurrences(names[..p])
  {
    if p == |names| {
      assert names[..p] == names;
    } else {
      var init := names[..|names| - 1];
      assert init[..p] == names[..p];
      NothingNew(init, p);
      FirstOccurrencesMeaning(init[..p]);
    }
  }

  /** Two counters of a kind, such as `rx_0_packets` and `rx_1_packets`, are enough to register another name than
      the aggregate one. */
  lemma RegisteredAreNotAggregate(front: CString, back: CString)
    requires Clean(front) && Clean(back)
    ensures var device: seq<CString> := [front + "0" + back, front + "1" + back];
            && AggregateNames(device) == [front + back]
            && device[..|AggregateNames(device)|] == [front + "0" + back] != AggregateNames(device)
  {
    hide Filter, FirstOccurrences, Clean, IsFiltered;
    var device: seq<CString>, name: CString := [front + "0" + back, front + "1" + back], front + back;
    ZeroAndOneAreFiltered();
    FilterOut(front, '0', back);
    FilterOut(front, '1', back);
    assert FilterAll(device) == [name, name];
    OneKind(name);
    assert device[..1] == [front + "0" + back];
    assert |front + "0" + back| == |name| + 1;
  }

  lemma ZeroAndOneAreFiltered()
    ensures IsFiltered('0') && IsFiltered('1')
  {
    FilteredIff('0');
    FilteredIff('1');
  }

  lemma OneKind(name: CString)
    ensures FirstOccurrences([name, name]) == [name]
  {
    assert [name][..0] == [];
    assert FirstOccurrences([name]) == [name];
    assert [name, name][..1] == [name];
  }

  lemma FilterOut(front: string, c: char, back: string)
    requires Clean(front) && Clean(back) && IsFiltered(c)
    ensures Filter(front + [c] + back) == front + back
  {
    hide Filter, IsFiltered, Clean;
    var rest := [c] + back;
    FilterCons(c, back);
    FilterKeepsTheRest(front, rest);
    UnchangedIffClean(front);
    UnchangedIffClean(back);
    assert front + [c] + back == front + rest;
  }

  /** The different names of the device's counters, filtered. */
  function Kinds(device: seq<CString>): set<CString> {
    set x | x in FilterAll(device)
  }

  /** There are as many aggregate names as different filtered names, up to 1024. */
  lemma AggregateNamesCount(device: seq<CString>)
    ensures |AggregateNames(device)| == if |Kinds(device)| <= 1024 then |Kinds(device)| else 1024
  {
    hide Filter, FirstOccurrences;
    FirstOccurrencesCount(FilterAll(device));
  }

  lemma {:induction false} FirstOccurrencesCount(names: seq<CString>)
    ensures |FirstOccurrences(names)| == |set x | x in names|
  {
    if names != [] {
      var init, last := names[..|names| - 1], names[|names| - 1];
      FirstOccurrencesCount(init);
      FirstOccurrencesMeaning(init);
      assert names == init + [last];
      assert (set x | x in names) == (set x | x in init) + {last};
    }
  }

  lemma FewerAggregateNames(device: seq<CString>)
    ensures |AggregateNames(device)| <= |device|
  {
    FirstOccurrencesShort(FilterAll(device));
  }

  lemma {:induction false} FirstOccurrencesShort(names: seq<CString>)
    ensures |FirstOccurrences(names)| <= |names|
  {
    if names != [] {
      FirstOccurrencesShort(names[..|names| - 1]);
    }
  }

  /** The live names once a counter of the given name was met. */
  function WithName(live: seq<CString>, name: CString): seq<CString> {
    if name in live || |live| == 1024 then live else live + [name]
  }

  lemma AggregateNothing()
    ensures AggregateNames([]) == []
  {
  }

  /** One more device counter: what it adds to the aggregate names, and that earlier mappings stay right. */
  lemma {:induction false} AggregateStep(device: seq<CString>, n: nat)
    requires n < |device|
    ensures
      var live, name := AggregateNames(device[..n]), Filter(device[n]);
      && AggregateNames(device[..n + 1]) == WithName(live, name)
      && (|live| < 1024 ==> forall k :: 0 <= k < n ==> Filter(device[k]) in live)
  {
    var before, after := FilterAll(device[..n]), FilterAll(device[..n + 1]);
    assert after[..n] == before;
    FirstOccurrencesMeaning(before);
    FirstOccurrencesMeaning(after);
    assert forall k :: 0 <= k < n ==> before[k] == Filter(device[k]);
  }

  /** Adding a new name leaves every mapping of counters that have a slot as it was. */
  lemma MappingGrows(live: seq<CString>, name: CString, device: seq<CString>, mapping: seq<uint32>)
    requires |device| == |mapping|
    requires forall k :: 0 <= k < |device| ==> Filter(device[k]) in live && MappedTo(live, Filter(device[k]), mapping[k])
    ensures forall k :: 0 <= k < |device| ==> MappedTo(live + [name], Filter(device[k]), mapping[k])
  {
  }
}
