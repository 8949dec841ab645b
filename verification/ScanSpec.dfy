/** What a scan makes of the counters list, in its two modes. */
module ScanSpec {
  import opened CStrings
  import MetricSpec
  import opened PluginTypes
  import opened StatsTree
  import opened ObjectNumbers
  import opened NumberText

  // ---- building the list ----

  /** The name prefix a node gets from that of its parent. */
  function ChildPrefix(prefix: CString, node: StatsNode): CString {
    Fit(prefix + "-" + node.className, NAME_SIZE)
  }

  function ObjectName(n: nat, prefix: CString): CString {
    Fit("ucx-object-" + Decimal(n) + "-" + prefix, NAME_SIZE)
  }

  function CounterName(objectName: CString, counterName: CString): CString {
    Fit(objectName + "-" + counterName, NAME_SIZE)
  }

  function OwnNames(node: StatsNode, objectName: CString): seq<CString> {
    seq(|node.counters|, k requires 0 <= k < |node.counters| => CounterName(objectName, node.counters[k].name))
  }

  /** The names an initialising scan builds, in the order it builds them, from object number `n`. */
  function Names(forest: seq<StatsNode>, prefix: CString, n: nat): (r: seq<CString>)
    ensures |r| == |Values(forest)|
    decreases forest
  {
    if forest == [] then []
    else
      var inner := ChildPrefix(prefix, forest[0]);
      OwnNames(forest[0], ObjectName(n, inner)) +
      Names(forest[0].children, inner, n + 1) +
      Names(forest[1..], prefix, n + 1 + |forest[0].children|)
  }

  /** Fresh records for the given names and values, their ids counted from `c`. */
  function NewRecords(names: seq<CString>, values: seq<uint64>, c: nat): seq<CounterRecord>
    requires |names| == |values|
  {
    seq(|names|, i requires 0 <= i < |names| =>
      CounterRecord(names[i], ToUint32(c + i), false, values[i], UINT64_MAX))
  }

  /** The prefix of a node's counter names: the class names on the way to it. */
  function PrefixAt(forest: seq<StatsNode>, base: nat, prefix: CString, path: Path): CString
    requires HasNode(forest, base, path)
    decreases forest
  {
    if path[0] != base then PrefixAt(forest[1..], base + 1, prefix, path)
    else if |path| == 1 then ChildPrefix(prefix, forest[0])
    else PrefixAt(forest[0].children, 0, ChildPrefix(prefix, forest[0]), path[1..])
  }

  /** The name of a counter, told from its place alone. */
  function NameAt(forest: seq<StatsNode>, base: nat, prefix: CString, n: nat, place: Place): CString
    requires HasCounter(forest, base, place)
  {
    var objectName := ObjectName(ObjectNumber(forest, base, n, place.path), PrefixAt(forest, base, prefix, place.path));
    CounterName(objectName, CounterAt(forest, base, place).name)
  }

  lemma {:induction false} NameParts(forest: seq<StatsNode>, prefix: CString, n: nat, i: nat)
    requires i < |Values(forest)|
    ensures forest != []
    ensures
      var node := forest[0];
      var inner := ChildPrefix(prefix, node);
      var own, sub := |node.counters|, |Values(node.children)|;
      Names(forest, prefix, n)[i] ==
        if i < own then CounterName(ObjectName(n, inner), node.counters[i].name)
        else if i < own + sub then Names(node.children, inner, n + 1)[i - own]
        else Names(forest[1..], prefix, n + 1 + |node.children|)[i - own - sub]
  {
    var node := forest[0];
    var inner := ChildPrefix(prefix, node);
    assert forest != [];
    IndexThree(OwnNames(node, ObjectName(n, inner)), Names(node.children, inner, n + 1),
               Names(forest[1..], prefix, n + 1 + |node.children|), i);
  }

  /** The scan names each counter after its place: its node's object number and class path, and its own name. */
  lemma {:induction false} NamesInPreorder(forest: seq<StatsNode>, base: nat, prefix: CString, n: nat, i: nat)
    requires i < |Places(forest, base)| == |Values(forest)|
    ensures HasCounter(forest, base, Places(forest, base)[i])
    ensures Names(forest, prefix, n)[i] == NameAt(forest, base, prefix, n, Places(forest, base)[i])
    decreases forest
  {
    hide *;
    PlaceParts(forest, base, i);
    NameParts(forest, prefix, n, i);
    var node := forest[0];
    var inner := ChildPrefix(prefix, node);
    var own, sub := |node.counters|, |Values(node.children)|;
    if i < own {
      NameOwn(forest, base, prefix, n, i);
    } else if i < own + sub {
      NamesInPreorder(node.children, 0, inner, n + 1, i - own);
      NameBelow(forest, base, prefix, n, Places(node.children, 0)[i - own]);
    } else {
      FlatLength(forest[1..], base + 1);
      NamesInPreorder(forest[1..], base + 1, prefix, n + 1 + |node.children|, i - own - sub);
      NameBeside(forest, base, prefix, n, Places(forest, base)[i]);
    }
  }

  lemma NameOwn(forest: seq<StatsNode>, base: nat, prefix: CString, n: nat, k: nat)
    requires forest != [] && k < |forest[0].counters|
    ensures HasCounter(forest, base, Place([base], k))
    ensures NameAt(forest, base, prefix, n, Place([base], k)) ==
            CounterName(ObjectName(n, ChildPrefix(prefix, forest[0])), forest[0].counters[k].name)
  {
  }

  lemma NameBelow(forest: seq<StatsNode>, base: nat, prefix: CString, n: nat, below: Place)
    requires forest != [] && HasCounter(forest[0].children, 0, below)
    ensures
      var place := Place([base] + below.path, below.k);
      && HasCounter(forest, base, place)
      && NameAt(forest, base, prefix, n, place) ==
         NameAt(forest[0].children, 0, ChildPrefix(prefix, forest[0]), n + 1, below)
  {
    assert ([base] + below.path)[1..] == below.path;
  }

  lemma NameBeside(forest: seq<StatsNode>, base: nat, prefix: CString, n: nat, place: Place)
    requires forest != [] && HasCounter(forest[1..], base + 1, place)
    ensures HasCounter(forest, base, place)
    ensures NameAt(forest, base, prefix, n, place) ==
            NameAt(forest[1..], base + 1, prefix, n + 1 + |forest[0].children|, place)
  {
  }

  // ---- the names, spelled out ----

  /** The class names on the way to a node. */
  function Classes(forest: seq<StatsNode>, base: nat, path: Path): seq<CString>
    requires HasNode(forest, base, path)
    decreases forest
  {
    if path[0] != base then Classes(forest[1..], base + 1, path)
    else [forest[0].className] + if |path| == 1 then [] else Classes(forest[0].children, 0, path[1..])
  }

  function Dashed(words: seq<CString>): string {
    if words == [] then "" else "-" + words[0] + Dashed(words[1..])
  }

  /** What a buffer of 512 bytes leaves of a text. */
  function Front(text: string): string {
    if |text| <= 511 then text else text[..511]
  }

  lemma FrontOfFront(a: string, b: string)
    ensures Front(Front(a) + b) == Front(a + b)
    ensures Front(b + Front(a)) == Front(b + a)
  {
    if |a| > 511 {
      assert (a[..511] + b)[..511] == a[..511] == (a + b)[..511];
    }
  }

  /** Each of the three buffers leaves the front of its text. */
  lemma BuffersKeepFronts(prefix: CString, node: StatsNode, n: nat, objectName: CString, counterName: CString)
    ensures ChildPrefix(prefix, node) == Front(prefix + "-" + node.className)
    ensures ObjectName(n, prefix) == Front("ucx-object-" + Decimal(n) + "-" + prefix)
    ensures CounterName(objectName, counterName) == Front(objectName + "-" + counterName)
  {
  }

  lemma DashedCons(word: CString, words: seq<CString>)
    ensures Dashed([word] + words) == "-" + word + Dashed(words)
    ensures Dashed([]) == ""
  {
    assert ([word] + words)[1..] == words;
  }

  lemma {:induction false} PrefixText(forest: seq<StatsNode>, base: nat, prefix: CString, path: Path)
    requires HasNode(forest, base, path)
    ensures PrefixAt(forest, base, prefix, path) == Front(prefix + Dashed(Classes(forest, base, path)))
    decreases forest
  {
    hide ChildPrefix, Dashed, Front;
    if path[0] != base {
      PrefixText(forest[1..], base + 1, prefix, path);
    } else {
      var node := forest[0];
      var inner := ChildPrefix(prefix, node);
      BuffersKeepFronts(prefix, node, 0, "", "");
      if |path| == 1 {
        DashedCons(node.className, []);
        assert [node.className] + [] == [node.className];
        assert prefix + ("-" + node.className + "") == prefix + "-" + node.className;
      } else {
        var rest := Classes(node.children, 0, path[1..]);
        PrefixText(node.children, 0, inner, path[1..]);
        DashedCons(node.className, rest);
        FrontOfFront(prefix + "-" + node.className, Dashed(rest));
        assert prefix + ("-" + node.className + Dashed(rest)) == prefix + "-" + node.className + Dashed(rest);
      }
    }
  }

  lemma PlaceText(forest: seq<StatsNode>, base: nat, prefix: CString, n: nat, place: Place)
    requires HasCounter(forest, base, place)
    ensures
      NameAt(forest, base, prefix, n, place) ==
      Front("ucx-object-" + Decimal(ObjectNumber(forest, base, n, place.path)) + "-" + prefix +
            Dashed(Classes(forest, base, place.path)) + "-" + CounterAt(forest, base, place).name)
  {
    hide PrefixAt, ObjectName, CounterName, Dashed, Front, CounterAt, Classes, ObjectNumber, Numeral;
    var number := ObjectNumber(forest, base, n, place.path);
    var inner := PrefixAt(forest, base, prefix, place.path);
    var counter := CounterAt(forest, base, place).name;
    var head, path: string := "ucx-object-" + Decimal(number) + "-", prefix + Dashed(Classes(forest, base, place.path));
    PrefixText(forest, base, prefix, place.path);
    BuffersKeepFronts("", StatsNode("", [], []), number, ObjectName(number, inner), counter);
    BuffersKeepFronts(inner, StatsNode("", [], []), number, "", "");
    FrontOfFront(path, head);
    FrontOfFront(head + path, "-" + counter);
    assert head + path + ("-" + counter) == head + path + "-" + counter;
    assert ObjectName(number, inner) + "-" + counter == ObjectName(number, inner) + ("-" + counter);
    assert head + prefix + Dashed(Classes(forest, base, place.path)) == head + path;
  }

  /** The parts of a counter's name: its node's object number, the class names on the way there, its own name. */
  function NameWords(root: StatsNode, place: Place): seq<string>
    requires HasCounter(root.children, 0, place)
  {
    ["ucx", "object", Decimal(ObjectNumber(root.children, 0, 0, place.path)), "cnt"] +
    Classes(root.children, 0, place.path) + [CounterAt(root.children, 0, place).name]
  }

  lemma {:induction false} JoinDashed(word: string, words: seq<CString>, last: CString)
    ensures MetricSpec.Join([word] + words + [last], '-') == word + Dashed(words) + "-" + last
    decreases |words|
  {
    hide MetricSpec.Join, Dashed;
    MetricSpec.JoinCons(last, [], '-');
    assert [last] + [] == [last];
    if words == [] {
      DashedCons("", []);
      MetricSpec.JoinCons(word, [last], '-');
      assert [word] + words + [last] == [word] + [last];
      assert word + "" + "-" + last == word + ['-'] + last;
    } else {
      var rest := words[1..];
      JoinDashed(words[0], rest, last);
      DashedCons(words[0], rest);
      MetricSpec.JoinCons(word, [words[0]] + rest + [last], '-');
      assert words == [words[0]] + rest;
      assert [word] + words + [last] == [word] + ([words[0]] + rest + [last]);
    }
  }

  lemma JoinedWords(number: nat, classes: seq<CString>, last: CString)
    ensures MetricSpec.Join(["ucx", "object", Decimal(number), "cnt"] + classes + [last], '-') ==
            "ucx-object-" + Decimal(number) + "-" + "cnt" + Dashed(classes) + "-" + last
  {
    hide MetricSpec.Join, Dashed, Numeral;
    var d := Decimal(number);
    var c := ["cnt"] + classes + [last];
    JoinDashed("cnt", classes, last);
    MetricSpec.JoinCons(d, c, '-');
    MetricSpec.JoinCons("object", [d] + c, '-');
    MetricSpec.JoinCons("ucx", ["object"] + ([d] + c), '-');
    assert ["ucx", "object", d, "cnt"] + classes + [last] == ["ucx"] + (["object"] + ([d] + c));
    Concatenated(d, "cnt" + Dashed(classes) + "-" + last);
    Regroup("ucx-object-" + d + "-", "cnt" + Dashed(classes) + "-", last);
    Regroup("ucx-object-" + d + "-", "cnt" + Dashed(classes), "-");
    Regroup("ucx-object-" + d + "-", "cnt", Dashed(classes));
  }

  lemma Regroup(x: string, y: string, z: string)
    ensures x + (y + z) == x + y + z
  {
  }

  lemma Concatenated(number: string, rest: string)
    ensures "ucx" + "-" + ("object" + "-" + (number + "-" + rest)) == "ucx-object-" + number + "-" + rest
  {
    Regroup("ucx-object-", number + "-", rest);
    Regroup("ucx-object-", number, "-");
    Regroup("ucx" + "-", "object" + "-", number + "-" + rest);
    assert "ucx" + "-" + ("object" + "-") == "ucx-object-";
  }

  /** Three truncations amount to one: record `i` of an initialising scan is named by the first 511 bytes of its words
      joined by dashes. */
  lemma RecordNameIsJoined(root: StatsNode, i: nat)
    requires i < |Places(root.children, 0)|
    ensures |Scan(true, root, [])| == |Places(root.children, 0)| && HasCounter(root.children, 0, Places(root.children, 0)[i])
    ensures
      var text := MetricSpec.Join(NameWords(root, Places(root.children, 0)[i]), '-');
      Scan(true, root, [])[i].name == if |text| <= 511 then text else text[..511]
  {
    hide MetricSpec.Join, Dashed, Places, Values, Names, NameAt, HasNode, NodeAt, Numeral, Classes;
    var place := Places(root.children, 0)[i];
    BuiltInPreorder(root, i);
    PlaceText(root.children, 0, "cnt", 0, place);
    JoinedWords(
      ObjectNumber(root.children, 0, 0, place.path), Classes(root.children, 0, place.path),
      CounterAt(root.children, 0, place).name);
  }

  /** The words come back from a name that the buffer holds, if none of them has a dash and the last is not empty. */
  lemma RecordNameReadsBack(root: StatsNode, i: nat)
    requires i < |Places(root.children, 0)|
    ensures |Scan(true, root, [])| == |Places(root.children, 0)| && HasCounter(root.children, 0, Places(root.children, 0)[i])
    ensures
      var words := NameWords(root, Places(root.children, 0)[i]);
      && Magnitude(words[2], 10) == ObjectNumber(root.children, 0, 0, Places(root.children, 0)[i].path)
      && (|MetricSpec.Join(words, '-')| <= 511 && words[|words| - 1] != "" && (forall k :: 3 < k < |words| ==> '-' !in words[k]) ==>
            MetricSpec.Split(Scan(true, root, [])[i].name, '-') == words)
  {
    hide MetricSpec.Join, MetricSpec.Split, Scan, Places, HasNode, NodeAt, Numeral, Classes, ObjectNumber;
    RecordNameIsJoined(root, i);
    var words := NameWords(root, Places(root.children, 0)[i]);
    var number := ObjectNumber(root.children, 0, 0, Places(root.children, 0)[i].path);
    NumeralMagnitude(number, 10);
    assert words[2] == Decimal(number) && '-' !in Decimal(number) by {
      assert !IsDigit('-', 10);
    }
    if words[|words| - 1] != "" && (forall k :: 3 < k < |words| ==> '-' !in words[k]) {
      assert words[0] == "ucx" && words[1] == "object" && words[3] == "cnt";
      MetricSpec.SplitJoin(words, '-');
    }
  }

  // ---- the object number in a name ----

  lemma NumberTextLength(n: uint64)
    ensures 0 < |Decimal(n)| <= 20
  {
    hide Numeral;
    PowersUsed();
    assert Power(10, 20) == 10_000 * Power(10, 16);
    NumeralLength(n, 10, 20);
  }

  /** Behind the first 11 bytes of the name come the digits of `n`, and then a dash, whatever is cut off behind. */
  ghost predicate IsNumbered(name: string, n: nat) {
    && 11 <= |name| && name[..11] == "ucx-object-"
    && var d := DigitsLength(name[11..], 10);
       11 + d < |name| && name[11 + d] == '-' && Magnitude(name[11..11 + d], 10) == n
  }

  lemma FrontParts(head: string, digits: string, rest: string) returns (shown: string)
    requires |head| + |digits| < 511 && rest != ""
    ensures shown != "" && shown <= rest && Front(head + digits + rest) == head + digits + shown
  {
    var text, n := head + digits + rest, |head| + |digits|;
    shown := if |text| <= 511 then rest else rest[..511 - n];
    if |text| > 511 {
      assert text[..511] == head + digits + rest[..511 - n];
    }
  }

  lemma FrontIsNumbered(n: uint64, rest: string)
    requires rest != "" && rest[0] == '-'
    ensures var name := Front("ucx-object-" + Decimal(n) + rest);
            && IsNumbered(name, n)
            && DigitsLength(name[11..], 10) == |Decimal(n)|
            && name[11 + |Decimal(n)|..] <= rest
  {
    hide Numeral, Magnitude, Front;
    var digits := Decimal(n);
    NumberTextLength(n);
    NumeralMagnitude(n, 10);
    var shown := FrontParts("ucx-object-", digits, rest);
    var name := "ucx-object-" + digits + shown;
    assert name[..11] == "ucx-object-" && name[11..] == digits + shown;
    assert name[11..11 + |digits|] == digits && name[11 + |digits|..] == shown;
    AllDigits(digits, shown, 10);
  }

  /** The object number can be read back from an object's name, and after it comes as much of the prefix as the buffer of
      512 bytes holds. */
  lemma ObjectNumberReadsBack(n: uint64, prefix: CString)
    ensures
      var name := ObjectName(n, prefix);
      && IsNumbered(name, n)
      && var d := DigitsLength(name[11..], 10);
         && name[12 + d..] <= prefix
         && |name| == if 12 + d + |prefix| <= 511 then 12 + d + |prefix| else 511
  {
    hide Numeral, Magnitude, IsNumbered;
    BuffersKeepFronts(prefix, StatsNode("", [], []), n, "", "");
    FrontIsNumbered(n, "-" + prefix);
    assert "ucx-object-" + Decimal(n) + ("-" + prefix) == "ucx-object-" + Decimal(n) + "-" + prefix;
    var name, d := ObjectName(n, prefix), |Decimal(n)|;
    NumberTextLength(n);
    assert name[12 + d..] == name[11 + d..][1..] && ("-" + prefix)[1..] == prefix;
  }

  /** And from the name of every record of an initialising scan. */
  lemma RecordNumberReadsBack(root: StatsNode, i: nat)
    requires i < |Places(root.children, 0)|
    ensures |Scan(true, root, [])| == |Places(root.children, 0)| && HasCounter(root.children, 0, Places(root.children, 0)[i])
    ensures var number := ObjectNumber(root.children, 0, 0, Places(root.children, 0)[i].path);
            number <= UINT64_MAX ==> IsNumbered(Scan(true, root, [])[i].name, number)
  {
    hide Dashed, Places, Values, Names, NameAt, HasNode, NodeAt, Numeral, Classes, IsNumbered, Front;
    var place := Places(root.children, 0)[i];
    BuiltInPreorder(root, i);
    PlaceText(root.children, 0, "cnt", 0, place);
    var number := ObjectNumber(root.children, 0, 0, place.path);
    if number <= UINT64_MAX {
      var rest := "-" + "cnt" + Dashed(Classes(root.children, 0, place.path)) + "-" + CounterAt(root.children, 0, place).name;
      FrontIsNumbered(number, rest);
      assert "ucx-object-" + Decimal(number) + rest ==
             "ucx-object-" + Decimal(number) + "-" + "cnt" + Dashed(Classes(root.children, 0, place.path)) + "-" +
             CounterAt(root.children, 0, place).name;
    }
  }

  /** So names made from one prefix are the same exactly when the object numbers are, and nodes of different numbers never
      share a name. */
  lemma ObjectNamesEqualIff(m: uint64, n: uint64, p: CString, q: CString)
    ensures ObjectName(m, p) == ObjectName(n, p) <==> m == n
    ensures ObjectName(m, p) == ObjectName(n, q) ==> m == n
  {
    hide ObjectName;
    ObjectNumberReadsBack(m, p);
    ObjectNumberReadsBack(n, p);
    ObjectNumberReadsBack(n, q);
  }

  // ---- overwriting the values in the list ----

  /** The records with the values from the cursor on replaced, as far as both lists reach. */
  function Overwrite(records: seq<CounterRecord>, c: nat, values: seq<uint64>): (r: seq<CounterRecord>)
    ensures |r| == |records|
  {
    seq(|records|, i requires 0 <= i < |records| =>
      if c <= i < c + |values| then records[i].(value := values[i - c]) else records[i])
  }

  /** Where the cursor stops. */
  function Advance(size: nat, c: nat, count: nat): nat {
    if size <= c then c else if size <= c + count then size else c + count
  }

  /** Overwriting in two goes is overwriting in one, even when the first go runs off the list. */
  lemma OverwriteInTwo(records: seq<CounterRecord>, c: nat, u: seq<uint64>, v: seq<uint64>)
    ensures Overwrite(Overwrite(records, c, u), Advance(|records|, c, |u|), v) == Overwrite(records, c, u + v)
    ensures Advance(|records|, Advance(|records|, c, |u|), |v|) == Advance(|records|, c, |u + v|)
  {
    var w := u + v;
    assert forall i :: 0 <= i < |v| ==> w[|u| + i] == v[i];
    forall i | 0 <= i < |records|
      ensures Overwrite(Overwrite(records, c, u), Advance(|records|, c, |u|), v)[i] == Overwrite(records, c, w)[i]
    {
    }
  }

  // ---- both modes together ----

  /** The list, and the cursor, after the scan of a forest. */
  function ScannedRecords(
      initialize: bool, forest: seq<StatsNode>, prefix: CString, n: nat, c: nat, records: seq<CounterRecord>)
    : (r: seq<CounterRecord>)
    ensures |r| == if initialize then |records| + |Values(forest)| else |records|
  {
    if initialize then records + NewRecords(Names(forest, prefix, n), Values(forest), c)
    else Overwrite(records, c, Values(forest))
  }

  function ScannedCursor(initialize: bool, count: nat, c: nat, size: nat): nat {
    if initialize then c + count else Advance(size, c, count)
  }

  /** The number of leading nodes that are scanned to the end: an updating scan leaves the level at the
      first node one of whose own counters no longer has a slot among the `room` remaining ones. */
  function CompletedNodes(forest: seq<StatsNode>, room: nat): nat
    decreases forest
  {
    if forest == [] || room < |forest[0].counters| then 0
    else
      var taken := |forest[0].counters| + |Values(forest[0].children)|;
      1 + CompletedNodes(forest[1..], if room <= taken then 0 else room - taken)
  }

  /** What is left of the slots after `count` values. */
  function Left(room: nat, count: nat): nat {
    if room <= count then 0 else room - count
  }

  lemma FirstNodes(forest: seq<StatsNode>, j: nat)
    requires 0 < j <= |forest|
    ensures |Values(forest[..j])| ==
            |forest[0].counters| + |Values(forest[0].children)| + |Values(forest[1..][..j - 1])|
  {
    assert forest[..j][0] == forest[0] && forest[..j][1..] == forest[1..][..j - 1];
    ValuesLength(forest[..j]);
  }

  lemma CompletedNext(forest: seq<StatsNode>, room: nat)
    ensures CompletedNodes(forest, room) ==
            if forest == [] || room < |forest[0].counters| then 0
            else 1 + CompletedNodes(forest[1..], Left(room, |forest[0].counters| + |Values(forest[0].children)|))
    ensures |Values(forest[..0])| == 0
  {
    assert forest[..0] == [];
  }

  /** A node is scanned to the end when its own counters and those of all nodes before it have slots; the first one
      that is not is where the scan leaves the level. */
  lemma {:induction false} CompletedNodesMeaning(forest: seq<StatsNode>, room: nat, j: nat)
    requires j < |forest|
    ensures
      var k := CompletedNodes(forest, room);
      && k <= |forest|
      && (j < k ==> |forest[j].counters| <= Left(room, |Values(forest[..j])|))
      && (j == k ==> Left(room, |Values(forest[..j])|) < |forest[j].counters|)
    decreases forest
  {
    hide CompletedNodes, Values;
    CompletedNext(forest, room);
    if room >= |forest[0].counters| {
      var rest, left := forest[1..], Left(room, |forest[0].counters| + |Values(forest[0].children)|);
      CompletedNext(rest, left);
      if j > 0 {
        CompletedNodesMeaning(rest, left, j - 1);
        FirstNodes(forest, j);
      } else if rest != [] {
        CompletedNodesMeaning(rest, left, 0);
      }
    }
  }

  /** No counter of a node yet, in either mode. */
  lemma OwnStart(node: StatsNode, objectName: CString, c: nat, records: seq<CounterRecord>)
    ensures |OwnNames(node, objectName)| == |OwnValues(node)| == |node.counters|
    ensures records + NewRecords(OwnNames(node, objectName)[..0], OwnValues(node)[..0], c) == records
    ensures Overwrite(records, c, OwnValues(node)[..0]) == records
  {
  }

  /** One more counter of a node, in either mode. */
  lemma OwnStep(node: StatsNode, objectName: CString, c: nat, k: nat, records: seq<CounterRecord>)
    requires k < |node.counters|
    ensures |OwnNames(node, objectName)| == |OwnValues(node)| == |node.counters|
    ensures
      var names, values := OwnNames(node, objectName), OwnValues(node);
      var next := CounterRecord(
                    CounterName(objectName, node.counters[k].name), ToUint32(c + k), false, node.counters[k].value, UINT64_MAX);
      && NewRecords(names[..k + 1], values[..k + 1], c) == NewRecords(names[..k], values[..k], c) + [next]
    ensures var before := Overwrite(records, c, OwnValues(node)[..k]);
            Overwrite(records, c, OwnValues(node)[..k + 1]) ==
              if c + k < |records| then before[c + k := before[c + k].(value := node.counters[k].value)] else before
  {
  }

  /** Values that have no slot make no difference. */
  lemma OverwriteFull(values: seq<uint64>, c: nat, k: nat, records: seq<CounterRecord>)
    requires k <= |values| && |records| <= c + k
    ensures Overwrite(records, c, values[..k]) == Overwrite(records, c, values)
  {
  }

  /** The slots from the cursor to the end of the list. */
  function Room(size: nat, c: nat): nat {
    if size <= c then 0 else size - c
  }

  function OwnSize(initialize: bool, node: StatsNode, size: nat): nat {
    if initialize then size + |node.counters| else size
  }

  /** The list after a node's own counters. */
  function OwnScannedRecords(initialize: bool, node: StatsNode, objectName: CString, c: nat, records: seq<CounterRecord>)
    : (r: seq<CounterRecord>)
    ensures |r| == OwnSize(initialize, node, |records|)
  {
    if initialize then records + NewRecords(OwnNames(node, objectName), OwnValues(node), c)
    else Overwrite(records, c, OwnValues(node))
  }

  lemma NewRecordsConcat(a: seq<CString>, b: seq<CString>, u: seq<uint64>, v: seq<uint64>, c: nat)
    requires |a| == |u| && |b| == |v|
    ensures NewRecords(a + b, u + v, c) == NewRecords(a, u, c) + NewRecords(b, v, c + |a|)
  {
  }

  /** Scanning a forest is scanning the first node's counters, its children, and then the other trees. */
  lemma ScanStep(
      initialize: bool, forest: seq<StatsNode>, prefix: CString, n: nat, next: nat,
      c: nat, c1: nat, c2: nat, records: seq<CounterRecord>)
    requires forest != []
    requires initialize ==> next == n + 1 + |forest[0].children|
    requires c1 == ScannedCursor(initialize, |forest[0].counters|, c, |records|)
    requires c2 == ScannedCursor(initialize, |Values(forest[0].children)|, c1, OwnSize(initialize, forest[0], |records|))
    ensures
      var node := forest[0];
      var inner := ChildPrefix(prefix, node);
      var records1 := OwnScannedRecords(initialize, node, ObjectName(n, inner), c, records);
      var records2 := ScannedRecords(initialize, node.children, inner, n + 1, c1, records1);
      ScannedRecords(initialize, forest, prefix, n, c, records) ==
      ScannedRecords(initialize, forest[1..], prefix, next, c2, records2)
  {
    if initialize {
      AppendStep(forest, prefix, n, next, c, c1, c2, records);
    } else {
      OverwriteStep(forest, c, c1, c2, records);
    }
  }

  /** The size of the list matters to an updating scan only, which does not change it. */
  lemma CursorStep(initialize: bool, forest: seq<StatsNode>, c: nat, c1: nat, c2: nat, size: nat, now: nat)
    requires forest != [] && (initialize || now == size)
    requires c1 == ScannedCursor(initialize, |forest[0].counters|, c, now)
    requires c2 == ScannedCursor(initialize, |Values(forest[0].children)|, c1, OwnSize(initialize, forest[0], now))
    ensures ScannedCursor(initialize, |Values(forest)|, c, size) ==
            ScannedCursor(initialize, |Values(forest[1..])|, c2, size)
  {
    ValuesLength(forest);
  }

  lemma CompletedStep(forest: seq<StatsNode>, c: nat, c1: nat, c2: nat, size: nat)
    requires forest != [] && |forest[0].counters| <= Room(size, c)
    requires c1 == ScannedCursor(false, |forest[0].counters|, c, size)
    requires c2 == ScannedCursor(false, |Values(forest[0].children)|, c1, OwnSize(false, forest[0], size))
    ensures CompletedNodes(forest, Room(size, c)) == 1 + CompletedNodes(forest[1..], Room(size, c2))
  {
  }

  lemma ValuesLength(forest: seq<StatsNode>)
    requires forest != []
    ensures |Values(forest)| == |forest[0].counters| + |Values(forest[0].children)| + |Values(forest[1..])|
  {
  }

  lemma OverwriteStep(forest: seq<StatsNode>, c: nat, c1: nat, c2: nat, records: seq<CounterRecord>)
    requires forest != []
    requires c1 == Advance(|records|, c, |forest[0].counters|)
    requires c2 == Advance(|records|, c1, |Values(forest[0].children)|)
    ensures
      var u, v, w := OwnValues(forest[0]), Values(forest[0].children), Values(forest[1..]);
      Overwrite(records, c, Values(forest)) == Overwrite(Overwrite(Overwrite(records, c, u), c1, v), c2, w)
  {
    var u, v, w := OwnValues(forest[0]), Values(forest[0].children), Values(forest[1..]);
    OverwriteInTwo(records, c, u, v);
    OverwriteInTwo(records, c, u + v, w);
  }

  lemma AppendStep(
      forest: seq<StatsNode>, prefix: CString, n: nat, next: nat, c: nat, c1: nat, c2: nat, records: seq<CounterRecord>)
    requires forest != [] && next == n + 1 + |forest[0].children|
    requires c1 == c + |forest[0].counters| && c2 == c1 + |Values(forest[0].children)|
    ensures
      var node := forest[0];
      var inner := ChildPrefix(prefix, node);
      records + NewRecords(Names(forest, prefix, n), Values(forest), c) ==
      records + NewRecords(OwnNames(node, ObjectName(n, inner)), OwnValues(node), c) +
      NewRecords(Names(node.children, inner, n + 1), Values(node.children), c1) +
      NewRecords(Names(forest[1..], prefix, next), Values(forest[1..]), c2)
  {
    hide NewRecords, OwnNames, OwnValues, ChildPrefix, ObjectName, Overwrite, Fit;
    var node := forest[0];
    var inner := ChildPrefix(prefix, node);
    var a, b, d := OwnNames(node, ObjectName(n, inner)), Names(node.children, inner, n + 1), Names(forest[1..], prefix, next);
    var u, v, w := OwnValues(node), Values(node.children), Values(forest[1..]);
    assert Names(forest, prefix, n) == a + b + d && Values(forest) == u + v + w;
    OwnStart(node, ObjectName(n, inner), c, records);
    AppendInThree(records, a, b, d, u, v, w, c, c1, c2);
  }

  lemma AppendInThree(
      records: seq<CounterRecord>,
      a: seq<CString>, b: seq<CString>, d: seq<CString>, u: seq<uint64>, v: seq<uint64>, w: seq<uint64>,
      c: nat, c1: nat, c2: nat)
    requires |a| == |u| && |b| == |v| && |d| == |w| && c1 == c + |u| && c2 == c1 + |v|
    ensures records + NewRecords(a + b + d, u + v + w, c) ==
            records + NewRecords(a, u, c) + NewRecords(b, v, c1) + NewRecords(d, w, c2)
  {
    NewRecordsConcat(a, b, u, v, c);
    NewRecordsConcat(a + b, d, u + v, w, c);
  }

  /** An updating scan that leaves at a node without room for its counters has filled the list already. */
  lemma ScanStop(
      forest: seq<StatsNode>, prefix: CString, objectName: CString, n: nat, c: nat, records: seq<CounterRecord>)
    requires forest != [] && Room(|records|, c) < |forest[0].counters|
    ensures ScannedRecords(false, forest, prefix, n, c, records) ==
            OwnScannedRecords(false, forest[0], objectName, c, records)
    ensures ScannedCursor(false, |Values(forest)|, c, |records|) ==
            ScannedCursor(false, |forest[0].counters|, c, |records|)
    ensures CompletedNodes(forest, Room(|records|, c)) == 0
  {
    var rest := Values(forest[0].children) + Values(forest[1..]);
    assert Values(forest) == OwnValues(forest[0]) + rest;
    OverwriteInTwo(records, c, OwnValues(forest[0]), rest);
  }

  lemma ScanNothing(initialize: bool, prefix: CString, n: nat, c: nat, records: seq<CounterRecord>, size: nat)
    ensures ScannedRecords(initialize, [], prefix, n, c, records) == records
    ensures ScannedCursor(initialize, |Values([])|, c, size) == c
    ensures CompletedNodes([], Room(size, c)) == 0
  {
  }

  /** The whole scan, from a list of the statistics entries: the head's descendants, and nothing else. */
  function Scan(initialize: bool, root: StatsNode, records: seq<CounterRecord>): (r: seq<CounterRecord>)
    ensures !initialize ==> |r| == |records|
  {
    ScannedRecords(initialize, root.children, "cnt", 0, 0, records)
  }

  lemma BuiltLength(root: StatsNode)
    ensures |Scan(true, root, [])| == |Places(root.children, 0)|
  {
    FlatLength(root.children, 0);
  }

  /** An initialising scan of an empty list makes one record for each counter below the root, in preorder:
      record `i` is named after its place, holds the value found there, and has its own position as its id. */
  lemma BuiltInPreorder(root: StatsNode, i: nat)
    requires i < |Places(root.children, 0)|
    ensures |Scan(true, root, [])| == |Places(root.children, 0)|
    ensures
      var place := Places(root.children, 0)[i];
      && HasCounter(root.children, 0, place)
      && Scan(true, root, [])[i] ==
         CounterRecord(
           NameAt(root.children, 0, "cnt", 0, place),
           ToUint32(i),
           false,
           CounterAt(root.children, 0, place).value,
           UINT64_MAX)
  {
    FlatLength(root.children, 0);
    NamesInPreorder(root.children, 0, "cnt", 0, i);
    PlacesAreCounters(root.children, 0, i);
  }

  /** An updating scan of any list writes exactly the first counters of the flattening that have a slot, each into
      the slot of its position; it changes nothing else, and the cursor stops after them. */
  lemma UpdateWritesFlattening(root: StatsNode, records: seq<CounterRecord>)
    ensures
      var places := Places(root.children, 0);
      && |places| == |Values(root.children)| && |Scan(false, root, records)| == |records|
      && (forall i :: 0 <= i < |records| && i < |places| ==>
            && HasCounter(root.children, 0, places[i])
            && Scan(false, root, records)[i] == records[i].(value := CounterAt(root.children, 0, places[i]).value))
      && (forall i :: |places| <= i < |records| ==> Scan(false, root, records)[i] == records[i])
      && ScannedCursor(false, |places|, 0, |records|) == if |records| < |places| then |records| else |places|
  {
    hide Values, Places, HasNode, NodeAt;
    FlatLength(root.children, 0);
    var places := Places(root.children, 0);
    forall i | 0 <= i < |records| && i < |places|
      ensures HasCounter(root.children, 0, places[i])
      ensures Scan(false, root, records)[i] == records[i].(value := CounterAt(root.children, 0, places[i]).value)
    {
      PlacesAreCounters(root.children, 0, i);
    }
  }

  /** A list built from one tree and then updated from a tree of the same shape has in each slot the value of
      the very counter the slot was created for; nothing else in the list changes. */
  lemma RescanReadsTheSameCounter(root: StatsNode, later: StatsNode, i: nat)
    requires SameShape(root.children, later.children) && i < |Places(root.children, 0)|
    ensures
      var built := Scan(true, root, []);
      var place := Places(root.children, 0)[i];
      && |built| == |Scan(false, later, built)| == |Places(root.children, 0)|
      && HasCounter(later.children, 0, place)
      && Scan(false, later, built)[i] == built[i].(value := CounterAt(later.children, 0, place).value)
  {
    BuiltInPreorder(root, i);
    SameShapeSamePlaces(root.children, later.children, 0);
    PlacesAreCounters(later.children, 0, i);
  }

  /** Slot `i` of a list built from one tree gets the value of the counter it was created for, whatever the values are in
      a later tree shaped like `later`. */
  ghost predicate ReadsItsCounter(root: StatsNode, later: StatsNode, i: nat)
    requires i < |Places(root.children, 0)| == |Scan(true, root, [])|
  {
    var place := Places(root.children, 0)[i];
    forall t: StatsNode :: SameShape(t.children, later.children) ==>
      && HasCounter(t.children, 0, place)
      && Scan(false, t, Scan(true, root, []))[i].value == CounterAt(t.children, 0, place).value
  }

  lemma UpdatedValue(t: StatsNode, records: seq<CounterRecord>, i: nat)
    requires i < |records|
    ensures Scan(false, t, records)[i].value == if i < |Values(t.children)| then Values(t.children)[i] else records[i].value
  {
  }

  lemma ValueAtPlace(t: StatsNode, later: StatsNode, i: nat)
    requires SameShape(t.children, later.children) && i < |Places(later.children, 0)|
    ensures |Values(t.children)| == |Places(later.children, 0)|
    ensures HasCounter(t.children, 0, Places(later.children, 0)[i])
    ensures Values(t.children)[i] == CounterAt(t.children, 0, Places(later.children, 0)[i]).value
  {
    SameShapeSamePlaces(t.children, later.children, 0);
    PlacesAreCounters(t.children, 0, i);
  }

  /** It does exactly when the flattenings of the two trees have the same place at that position. */
  lemma ReadsItsCounterIff(root: StatsNode, later: StatsNode, i: nat)
    requires i < |Places(root.children, 0)|
    ensures |Places(root.children, 0)| == |Scan(true, root, [])|
    ensures ReadsItsCounter(root, later, i) <==>
            i < |Places(later.children, 0)| && Places(later.children, 0)[i] == Places(root.children, 0)[i]
  {
    hide Scan, Places, Values, HasCounter, CounterAt, PlaceIndex, SameShape, WithValue;
    BuiltLength(root);
    FlatLength(later.children, 0);
    SameShapeItself(later.children);
    var built, place := Scan(true, root, []), Places(root.children, 0)[i];
    var places := Places(later.children, 0);
    if i < |places| && places[i] == place {
      forall t: StatsNode | SameShape(t.children, later.children)
        ensures HasCounter(t.children, 0, place)
        ensures Scan(false, t, built)[i].value == CounterAt(t.children, 0, place).value
      {
        ValueAtPlace(t, later, i);
        UpdatedValue(t, built, i);
      }
    } else if HasCounter(later.children, 0, place) {
      EveryCounterHasAPlace(later.children, 0, place);
      var j := PlaceIndex(later.children, 0, place);
      UpdatedValue(later, built, i);
      var other: uint64 := if Scan(false, later, built)[i].value == 0 then 1 else 0;
      WithValueKeepsShape(later.children, j, other);
      WithValueChangesOne(later.children, j, other);
      var t := later.(children := WithValue(later.children, j, other));
      UpdatedValue(t, built, i);
      ValueAtPlace(t, later, j);
      assert !ReadsItsCounter(root, later, i);
    }
  }

  /** A changed tree is harmless, for all slots, exactly when its flattening begins with that of the first tree. */
  lemma ChangedTreeHarmlessIff(root: StatsNode, later: StatsNode)
    ensures |Places(root.children, 0)| == |Scan(true, root, [])|
    ensures (forall i :: 0 <= i < |Places(root.children, 0)| ==> ReadsItsCounter(root, later, i)) <==>
            Places(root.children, 0) <= Places(later.children, 0)
  {
    hide Scan, Places, ReadsItsCounter;
    BuiltLength(root);
    forall i | 0 <= i < |Places(root.children, 0)|
      ensures ReadsItsCounter(root, later, i) <==>
              i < |Places(later.children, 0)| && Places(later.children, 0)[i] == Places(root.children, 0)[i]
    {
      ReadsItsCounterIff(root, later, i);
    }
    var n := |Places(root.children, 0)|;
    if n > 0 && forall i :: 0 <= i < n ==> ReadsItsCounter(root, later, i) {
      assert ReadsItsCounter(root, later, n - 1);
    }
  }

  /** A node that comes up in front of the others, with `c` counters in and below it, shifts all values by `c` slots. */
  lemma EarlierNodeShifts(root: StatsNode, node: StatsNode, i: nat)
    requires |Values([node])| <= i < |Scan(true, root, [])|
    ensures
      var built := Scan(true, root, []);
      Scan(false, root.(children := [node] + root.children), built)[i].value == built[i - |Values([node])|].value
  {
    ForestParts(node, root.children);
    ForestParts(node, []);
    assert [node] + [] == [node];
  }
}
