/** The tree of UCX statistics objects, and what scanning it amounts to.

    A forest is the list of children of some node.  A path leads from the forest down to one of its
    nodes, one child index a level; the child indices of a forest are counted from `base`, so that
    dropping the first tree and counting from `base + 1` leaves every other path as it was. */
module StatsTree {
  import opened CStrings
  import opened PluginTypes

  datatype Counter = Counter(name: CString, value: uint64)

  datatype StatsNode = StatsNode(className: CString, counters: seq<Counter>, children: seq<StatsNode>)

  type Path = seq<nat>

  /** The place of one counter: the node's path, and the index of the counter in the node. */
  datatype Place = Place(path: Path, k: nat)

  // ---- places, independently of any order ----

  predicate HasNode(forest: seq<StatsNode>, base: nat, path: Path)
    decreases forest
  {
    && forest != [] && path != [] && base <= path[0]
    && if path[0] == base
       then |path| == 1 || HasNode(forest[0].children, 0, path[1..])
       else HasNode(forest[1..], base + 1, path)
  }

  function NodeAt(forest: seq<StatsNode>, base: nat, path: Path): StatsNode
    requires HasNode(forest, base, path)
    decreases forest
  {
    if path[0] != base then NodeAt(forest[1..], base + 1, path)
    else if |path| == 1 then forest[0]
    else NodeAt(forest[0].children, 0, path[1..])
  }

  predicate HasCounter(forest: seq<StatsNode>, base: nat, place: Place) {
    HasNode(forest, base, place.path) && place.k < |NodeAt(forest, base, place.path).counters|
  }

  function CounterAt(forest: seq<StatsNode>, base: nat, place: Place): Counter
    requires HasCounter(forest, base, place)
  {
    NodeAt(forest, base, place.path).counters[place.k]
  }

  /** A path gives, level by level, the index of a child, counted from `base` on the first level; a place gives the index
      of the counter in the node. */
  lemma {:induction false} NodeByIndex(forest: seq<StatsNode>, base: nat, path: Path)
    ensures HasNode(forest, base, path) <==>
            && path != [] && base <= path[0] < base + |forest|
            && (|path| == 1 || HasNode(forest[path[0] - base].children, 0, path[1..]))
    ensures HasNode(forest, base, path) ==>
              NodeAt(forest, base, path) ==
              if |path| == 1 then forest[path[0] - base] else NodeAt(forest[path[0] - base].children, 0, path[1..])
    ensures forall k: nat :: HasCounter(forest, base, Place(path, k)) ==>
              CounterAt(forest, base, Place(path, k)) == NodeAt(forest, base, path).counters[k]
    decreases |forest|
  {
    if forest != [] && path != [] && path[0] > base {
      NodeByIndex(forest[1..], base + 1, path);
      if path[0] < base + |forest| {
        assert forest[1..][path[0] - base - 1] == forest[path[0] - base];
      }
    }
  }

  /** Preorder on paths: an ancestor before its descendants, an earlier sibling before a later one. */
  predicate PathBefore(p: Path, q: Path) {
    q != [] && (p == [] || p[0] < q[0] || (p[0] == q[0] && PathBefore(p[1..], q[1..])))
  }

  predicate Before(p: Place, q: Place) {
    PathBefore(p.path, q.path) || (p.path == q.path && p.k < q.k)
  }

  /** Two forests whose nodes and counters are in the same places; names and values may differ. */
  predicate SameShape(f: seq<StatsNode>, g: seq<StatsNode>)
    decreases f
  {
    && |f| == |g|
    && (f != [] ==>
          && |f[0].counters| == |g[0].counters|
          && SameShape(f[0].children, g[0].children)
          && SameShape(f[1..], g[1..]))
  }

  // ---- the preorder flattening ----

  function OwnPlaces(node: StatsNode, base: nat): seq<Place> {
    seq(|node.counters|, k requires 0 <= k => Place([base], k))
  }

  function Below(base: nat, places: seq<Place>): seq<Place> {
    seq(|places|, i requires 0 <= i < |places| => Place([base] + places[i].path, places[i].k))
  }

  /** The places of all counters of the forest, in preorder. */
  function Places(forest: seq<StatsNode>, base: nat): seq<Place>
    decreases forest
  {
    if forest == [] then []
    else OwnPlaces(forest[0], base) + Below(base, Places(forest[0].children, 0)) + Places(forest[1..], base + 1)
  }

  function OwnValues(node: StatsNode): seq<uint64> {
    seq(|node.counters|, k requires 0 <= k < |node.counters| => node.counters[k].value)
  }

  /** The values of all counters of the forest, in preorder. */
  function Values(forest: seq<StatsNode>): seq<uint64>
    decreases forest
  {
    if forest == [] then []
    else OwnValues(forest[0]) + Values(forest[0].children) + Values(forest[1..])
  }

  /** Where the place stands in the flattening. */
  function PlaceIndex(forest: seq<StatsNode>, base: nat, place: Place): nat
    requires HasCounter(forest, base, place)
    decreases forest
  {
    if place.path[0] != base then
      |forest[0].counters| + |Places(forest[0].children, 0)| + PlaceIndex(forest[1..], base + 1, place)
    else if |place.path| == 1 then place.k
    else |forest[0].counters| + PlaceIndex(forest[0].children, 0, Place(place.path[1..], place.k))
  }

  lemma IndexThree<T>(a: seq<T>, b: seq<T>, c: seq<T>, i: nat)
    requires i < |a| + |b| + |c|
    ensures (a + b + c)[i] == if i < |a| then a[i] else if i < |a| + |b| then b[i - |a|] else c[i - |a| - |b|]
  {
  }

  /** The place of entry `i`, whichever part of the flattening it is in. */
  lemma PlaceParts(forest: seq<StatsNode>, base: nat, i: nat)
    requires i < |Places(forest, base)|
    ensures forest != [] && |Places(forest, base)| == |Values(forest)|
    ensures |Places(forest[0].children, 0)| == |Values(forest[0].children)|
    ensures
      var own, sub := |forest[0].counters|, |Values(forest[0].children)|;
      && |Places(forest[1..], base + 1)| == |Values(forest)| - own - sub
      && Places(forest, base)[i] ==
         if i < own then Place([base], i)
         else if i < own + sub then
           var below := Places(forest[0].children, 0)[i - own]; Place([base] + below.path, below.k)
         else Places(forest[1..], base + 1)[i - own - sub]
  {
    FlatLength(forest, base);
    FlatLength(forest[0].children, 0);
    IndexThree(OwnPlaces(forest[0], base), Below(base, Places(forest[0].children, 0)), Places(forest[1..], base + 1), i);
  }

  lemma ValueParts(forest: seq<StatsNode>, i: nat)
    requires i < |Values(forest)|
    ensures forest != []
    ensures
      var own, sub := |forest[0].counters|, |Values(forest[0].children)|;
      Values(forest)[i] ==
        if i < own then forest[0].counters[i].value
        else if i < own + sub then Values(forest[0].children)[i - own]
        else Values(forest[1..])[i - own - sub]
  {
    IndexThree(OwnValues(forest[0]), Values(forest[0].children), Values(forest[1..]), i);
  }

  /** Every entry of the flattening is a counter of the forest, with that counter's value. */
  lemma {:induction false} PlacesAreCounters(forest: seq<StatsNode>, base: nat, i: nat)
    requires i < |Places(forest, base)|
    ensures HasCounter(forest, base, Places(forest, base)[i])
    ensures |Values(forest)| == |Places(forest, base)|
    ensures Values(forest)[i] == CounterAt(forest, base, Places(forest, base)[i]).value
    decreases forest
  {
    PlaceParts(forest, base, i);
    ValueParts(forest, i);
    var own, sub := |forest[0].counters|, |Values(forest[0].children)|;
    var place := Places(forest, base)[i];
    if own <= i < own + sub {
      PlacesAreCounters(forest[0].children, 0, i - own);
      assert place.path[1..] == Places(forest[0].children, 0)[i - own].path;
    } else if own + sub <= i {
      PlacesAreCounters(forest[1..], base + 1, i - own - sub);
    }
  }

  lemma {:induction false} FlatLength(forest: seq<StatsNode>, base: nat)
    ensures |Values(forest)| == |Places(forest, base)|
    decreases forest
  {
    if forest != [] {
      FlatLength(forest[0].children, 0);
      FlatLength(forest[1..], base + 1);
    }
  }

  lemma PlacesLength(forest: seq<StatsNode>, base: nat)
    requires forest != []
    ensures |Places(forest, base)| ==
            |forest[0].counters| + |Places(forest[0].children, 0)| + |Places(forest[1..], base + 1)|
  {
  }

  /** Every counter of the forest is in the flattening. */
  lemma {:induction false} EveryCounterHasAPlace(forest: seq<StatsNode>, base: nat, place: Place)
    requires HasCounter(forest, base, place)
    ensures PlaceIndex(forest, base, place) < |Places(forest, base)|
    ensures Places(forest, base)[PlaceIndex(forest, base, place)] == place
    decreases forest
  {
    hide Places, Values;
    PlacesLength(forest, base);
    if place.path[0] != base {
      EveryCounterHasAPlace(forest[1..], base + 1, place);
    } else if |place.path| == 1 {
      assert place.path == [base];
    } else {
      EveryCounterHasAPlace(forest[0].children, 0, Place(place.path[1..], place.k));
      assert [base] + place.path[1..] == place.path;
    }
    PlaceParts(forest, base, PlaceIndex(forest, base, place));
  }

  /** The flattening is strictly in preorder, so no counter is in it twice. */
  lemma {:induction false} PlacesInPreorder(forest: seq<StatsNode>, base: nat, i: nat, j: nat)
    requires i < j < |Places(forest, base)|
    ensures Before(Places(forest, base)[i], Places(forest, base)[j])
    decreases forest
  {
    hide Places, Values, HasNode, NodeAt;
    PlaceParts(forest, base, i);
    PlaceParts(forest, base, j);
    var own, sub := |forest[0].counters|, Places(forest[0].children, 0);
    var p, q := Places(forest, base)[i], Places(forest, base)[j];
    if own + |sub| <= i {
      PlacesInPreorder(forest[1..], base + 1, i - own - |sub|, j - own - |sub|);
    } else if own + |sub| <= j {
      PlacesFromBase(forest[1..], base + 1, j - own - |sub|);
    } else if own <= i {
      PlacesInPreorder(forest[0].children, 0, i - own, j - own);
      assert p.path[1..] == sub[i - own].path && q.path[1..] == sub[j - own].path;
    } else if own <= j {
      PlacesFromBase(forest[0].children, 0, j - own);
      assert p.path[1..] == [] && q.path[1..] == sub[j - own].path;
      assert p.path[0] == q.path[0] == base && PathBefore(p.path[1..], q.path[1..]);
    } else {
      assert p == Place([base], i) && q == Place([base], j);
    }
  }

  lemma PlacesFromBase(forest: seq<StatsNode>, base: nat, i: nat)
    requires i < |Places(forest, base)|
    ensures Places(forest, base)[i].path != [] && base <= Places(forest, base)[i].path[0]
  {
    PlacesAreCounters(forest, base, i);
  }

  lemma {:induction false} SameShapeSamePlaces(f: seq<StatsNode>, g: seq<StatsNode>, base: nat)
    requires SameShape(f, g)
    ensures Places(f, base) == Places(g, base)
    decreases f
  {
    if f != [] {
      SameShapeSamePlaces(f[0].children, g[0].children, 0);
      SameShapeSamePlaces(f[1..], g[1..], base + 1);
      assert OwnPlaces(f[0], base) == OwnPlaces(g[0], base);
    }
  }

  lemma {:induction false} SameShapeItself(forest: seq<StatsNode>)
    ensures SameShape(forest, forest)
    decreases forest
  {
    if forest != [] {
      SameShapeItself(forest[0].children);
      SameShapeItself(forest[1..]);
    }
  }

  function WithOwnValue(node: StatsNode, i: nat, value: uint64): StatsNode
    requires i < |node.counters|
  {
    node.(counters := node.counters[i := node.counters[i].(value := value)])
  }

  /** The forest with another value for counter `i` of the flattening. */
  function WithValue(forest: seq<StatsNode>, i: nat, value: uint64): (r: seq<StatsNode>)
    requires i < |Values(forest)|
    ensures |r| == |forest| > 0
    decreases forest
  {
    var node := forest[0];
    var own, sub := |node.counters|, |Values(node.children)|;
    if i < own then [WithOwnValue(node, i, value)] + forest[1..]
    else if i < own + sub then [node.(children := WithValue(node.children, i - own, value))] + forest[1..]
    else [node] + WithValue(forest[1..], i - own - sub, value)
  }

  lemma ForestParts(node: StatsNode, rest: seq<StatsNode>)
    ensures Values([node] + rest) == OwnValues(node) + Values(node.children) + Values(rest)
    ensures ([node] + rest)[1..] == rest
  {
    assert ([node] + rest)[1..] == rest;
  }

  lemma UpdateInThree<T>(a: seq<T>, b: seq<T>, c: seq<T>, i: nat, x: T)
    requires i < |a| + |b| + |c|
    ensures (a + b + c)[i := x] ==
            if i < |a| then a[i := x] + b + c
            else if i < |a| + |b| then a + b[i - |a| := x] + c
            else a + b + c[i - |a| - |b| := x]
  {
  }

  lemma {:induction false} WithValueKeepsShape(forest: seq<StatsNode>, i: nat, value: uint64)
    requires i < |Values(forest)|
    ensures SameShape(WithValue(forest, i, value), forest)
    decreases forest
  {
    var node, rest := forest[0], forest[1..];
    var own, sub := |node.counters|, |Values(node.children)|;
    SameShapeItself(node.children);
    SameShapeItself(rest);
    if i < own {
      ForestParts(WithOwnValue(node, i, value), rest);
    } else if i < own + sub {
      WithValueKeepsShape(node.children, i - own, value);
      ForestParts(node.(children := WithValue(node.children, i - own, value)), rest);
    } else {
      WithValueKeepsShape(rest, i - own - sub, value);
      ForestParts(node, WithValue(rest, i - own - sub, value));
    }
  }

  lemma {:induction false} WithValueChangesOne(forest: seq<StatsNode>, i: nat, value: uint64)
    requires i < |Values(forest)|
    ensures Values(WithValue(forest, i, value)) == Values(forest)[i := value]
    decreases forest
  {
    hide Values;
    ValueParts(forest, i);
    var node, rest := forest[0], forest[1..];
    var own, sub := OwnValues(node), Values(node.children);
    ForestParts(node, rest);
    assert forest == [node] + rest;
    UpdateInThree(own, sub, Values(rest), i, value);
    if i < |own| {
      ForestParts(WithOwnValue(node, i, value), rest);
      assert OwnValues(WithOwnValue(node, i, value)) == own[i := value];
    } else if i < |own| + |sub| {
      WithValueChangesOne(node.children, i - |own|, value);
      ForestParts(node.(children := WithValue(node.children, i - |own|, value)), rest);
    } else {
      WithValueChangesOne(rest, i - |own| - |sub|, value);
      ForestParts(node, WithValue(rest, i - |own| - |sub|, value));
    }
  }
}
