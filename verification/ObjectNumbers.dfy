/** The object number put into counter names.  The scan numbers the nodes as it meets them, but the
    number of objects a recursive call reports back covers the direct children only. */
module ObjectNumbers {
  import opened CStrings
  import opened StatsTree

  /** The number of nodes in the forest. */
  function Count(forest: seq<StatsNode>): nat
    decreases forest
  {
    if forest == [] then 0 else 1 + Count(forest[0].children) + Count(forest[1..])
  }

  /** The object number of a node when the scan of the forest starts at `n`. */
  function ObjectNumber(forest: seq<StatsNode>, base: nat, n: nat, path: Path): (r: nat)
    requires HasNode(forest, base, path)
    ensures r >= n
    decreases forest
  {
    if path[0] != base then ObjectNumber(forest[1..], base + 1, n + 1 + |forest[0].children|, path)
    else if |path| == 1 then n
    else ObjectNumber(forest[0].children, 0, n + 1, path[1..])
  }

  /** The preorder rank of a node when its forest starts at rank `n`. */
  function Rank(forest: seq<StatsNode>, base: nat, n: nat, path: Path): nat
    requires HasNode(forest, base, path)
    decreases forest
  {
    if path[0] != base then Rank(forest[1..], base + 1, n + 1 + Count(forest[0].children), path)
    else if |path| == 1 then n
    else Rank(forest[0].children, 0, n + 1, path[1..])
  }

  // ---- the rank is the position in the preorder listing of the nodes ----

  function PathsBelow(base: nat, paths: seq<Path>): seq<Path> {
    seq(|paths|, i requires 0 <= i < |paths| => [base] + paths[i])
  }

  /** The paths of all nodes of the forest, in preorder. */
  function Paths(forest: seq<StatsNode>, base: nat): (r: seq<Path>)
    ensures |r| == Count(forest)
    decreases forest
  {
    if forest == [] then []
    else [[base]] + PathsBelow(base, Paths(forest[0].children, 0)) + Paths(forest[1..], base + 1)
  }

  lemma {:induction false} RankIsPreorderPosition(forest: seq<StatsNode>, base: nat, n: nat, path: Path)
    requires HasNode(forest, base, path)
    ensures n <= Rank(forest, base, n, path) < n + Count(forest)
    ensures Paths(forest, base)[Rank(forest, base, n, path) - n] == path
    decreases forest
  {
    hide Paths;
    var sub := Count(forest[0].children);
    if path[0] != base {
      RankIsPreorderPosition(forest[1..], base + 1, n + 1 + sub, path);
    } else if |path| == 1 {
      assert path == [base];
    } else {
      RankIsPreorderPosition(forest[0].children, 0, n + 1, path[1..]);
      assert [base] + path[1..] == path;
    }
    PathParts(forest, base, Rank(forest, base, n, path) - n);
  }

  lemma {:induction false} PathsAreNodes(forest: seq<StatsNode>, base: nat, n: nat, i: nat)
    requires i < Count(forest)
    ensures HasNode(forest, base, Paths(forest, base)[i])
    ensures Rank(forest, base, n, Paths(forest, base)[i]) == n + i
    decreases forest
  {
    hide Paths;
    PathParts(forest, base, i);
    var path, sub := Paths(forest, base)[i], Count(forest[0].children);
    if 1 <= i < 1 + sub {
      assert path[1..] == Paths(forest[0].children, 0)[i - 1];
      PathsAreNodes(forest[0].children, 0, n + 1, i - 1);
    } else if 1 + sub <= i {
      PathsAreNodes(forest[1..], base + 1, n + 1 + sub, i - 1 - sub);
    }
  }

  lemma PathParts(forest: seq<StatsNode>, base: nat, i: nat)
    requires i < Count(forest)
    ensures
      var sub := Count(forest[0].children);
      Paths(forest, base)[i] ==
        if i == 0 then [base]
        else if i < 1 + sub then [base] + Paths(forest[0].children, 0)[i - 1]
        else Paths(forest[1..], base + 1)[i - 1 - sub]
  {
    IndexThree([[base]], PathsBelow(base, Paths(forest[0].children, 0)), Paths(forest[1..], base + 1), i);
  }

  // ---- what the object number does keep ----

  lemma {:induction false} ChildrenAreCounted(forest: seq<StatsNode>)
    ensures |forest| <= Count(forest)
    ensures |forest| == Count(forest) <==> forall i :: 0 <= i < |forest| ==> forest[i].children == []
    decreases forest
  {
    if forest != [] {
      ChildrenAreCounted(forest[1..]);
      assert forall i :: 0 < i < |forest| ==> forest[i] == forest[1..][i - 1];
      if forest[0].children != [] {
        assert Count(forest[0].children) >= 1;
      }
    }
  }

  /** The object number never exceeds the preorder rank. */
  lemma {:induction false} ObjectNumberAtMostRank(forest: seq<StatsNode>, base: nat, n: nat, m: nat, path: Path)
    requires HasNode(forest, base, path) && n <= m
    ensures ObjectNumber(forest, base, n, path) <= Rank(forest, base, m, path)
    decreases forest
  {
    if path[0] != base {
      ChildrenAreCounted(forest[0].children);
      ObjectNumberAtMostRank(forest[1..], base + 1, n + 1 + |forest[0].children|, m + 1 + Count(forest[0].children), path);
    } else if |path| > 1 {
      ObjectNumberAtMostRank(forest[0].children, 0, n + 1, m + 1, path[1..]);
    }
  }

  /** The object number strictly increases along every path from the root. */
  lemma {:induction false} ObjectNumberIncreasesDownwards(
      forest: seq<StatsNode>, base: nat, n: nat, path: Path, below: Path)
    requires HasNode(forest, base, path) && HasNode(forest, base, path + below) && below != []
    ensures ObjectNumber(forest, base, n, path) < ObjectNumber(forest, base, n, path + below)
    decreases forest
  {
    if path[0] != base {
      ObjectNumberIncreasesDownwards(forest[1..], base + 1, n + 1 + |forest[0].children|, path, below);
    } else if |path| > 1 {
      assert (path + below)[1..] == path[1..] + below;
      ObjectNumberIncreasesDownwards(forest[0].children, 0, n + 1, path[1..], below);
    }
  }

  /** The object number strictly increases along the children of every node. */
  lemma {:induction false} ObjectNumberIncreasesSideways(
      forest: seq<StatsNode>, base: nat, n: nat, parent: Path, i: nat, j: nat)
    requires i < j && HasNode(forest, base, parent + [i]) && HasNode(forest, base, parent + [j])
    ensures ObjectNumber(forest, base, n, parent + [i]) < ObjectNumber(forest, base, n, parent + [j])
    decreases forest
  {
    var p, q := parent + [i], parent + [j];
    if parent == [] {
      if i != base {
        ObjectNumberIncreasesSideways(forest[1..], base + 1, n + 1 + |forest[0].children|, [], i, j);
      }
    } else if parent[0] != base {
      ObjectNumberIncreasesSideways(forest[1..], base + 1, n + 1 + |forest[0].children|, parent, i, j);
    } else {
      assert p[1..] == parent[1..] + [i] && q[1..] == parent[1..] + [j];
      ObjectNumberIncreasesSideways(forest[0].children, 0, n + 1, parent[1..], i, j);
    }
  }

  // ---- exactly when it is the preorder rank ----

  /** Every node with a later sibling has no grandchildren. */
  predicate Shallow(forest: seq<StatsNode>)
    decreases forest
  {
    forest == [] ||
    (&& Shallow(forest[0].children)
     && Shallow(forest[1..])
     && (|forest| == 1 || forall i :: 0 <= i < |forest[0].children| ==> forest[0].children[i].children == []))
  }

  ghost predicate NumberedByRank(forest: seq<StatsNode>, base: nat, n: nat) {
    forall path :: HasNode(forest, base, path) ==>
      ObjectNumber(forest, base, n, path) == Rank(forest, base, n, path)
  }

  /** The object numbers of a forest are its preorder ranks exactly when it is shallow. */
  lemma NumberedByRankIffShallow(forest: seq<StatsNode>, base: nat, n: nat)
    ensures NumberedByRank(forest, base, n) <==> Shallow(forest)
  {
    if Shallow(forest) {
      forall path | HasNode(forest, base, path)
        ensures ObjectNumber(forest, base, n, path) == Rank(forest, base, n, path)
      {
        ShallowNumberedByRank(forest, base, n, path);
      }
    } else {
      var path := Misnumbered(forest, base, n);
    }
  }

  lemma {:induction false} ShallowNumberedByRank(forest: seq<StatsNode>, base: nat, n: nat, path: Path)
    requires Shallow(forest) && HasNode(forest, base, path)
    ensures ObjectNumber(forest, base, n, path) == Rank(forest, base, n, path)
    decreases forest
  {
    if path[0] != base {
      ChildrenAreCounted(forest[0].children);
      ShallowNumberedByRank(forest[1..], base + 1, n + 1 + |forest[0].children|, path);
    } else if |path| > 1 {
      ShallowNumberedByRank(forest[0].children, 0, n + 1, path[1..]);
    }
  }

  /** A node of a forest that is not shallow whose object number is below its rank. */
  lemma {:induction false} Misnumbered(forest: seq<StatsNode>, base: nat, n: nat) returns (path: Path)
    requires !Shallow(forest)
    ensures HasNode(forest, base, path)
    ensures ObjectNumber(forest, base, n, path) < Rank(forest, base, n, path)
    decreases forest
  {
    ChildrenAreCounted(forest[0].children);
    if !Shallow(forest[0].children) {
      var below := Misnumbered(forest[0].children, 0, n + 1);
      path := [base] + below;
      assert path[1..] == below;
    } else if |forest| > 1 && |forest[0].children| < Count(forest[0].children) {
      path := [base + 1];
    } else {
      path := Misnumbered(forest[1..], base + 1, n + 1 + |forest[0].children|);
    }
  }

  /** Two siblings of which the first has a grandchild: the second sibling gets the grandchild's number, not its rank. */
  lemma GrandchildMisnumbersSibling(a: CString, b: CString, c: CString, d: CString)
    ensures
      var first := StatsNode(a, [], [StatsNode(b, [], [StatsNode(c, [], [])])]);
      var forest := [first, StatsNode(d, [], [])];
      && !Shallow(forest) && HasNode(forest, 0, [1]) && HasNode(forest, 0, [0, 0, 0])
      && ObjectNumber(forest, 0, 0, [1]) == ObjectNumber(forest, 0, 0, [0, 0, 0]) == 2
      && Rank(forest, 0, 0, [1]) == 3
  {
    var grandchild := StatsNode(c, [], []);
    var child := StatsNode(b, [], [grandchild]);
    var first, second := StatsNode(a, [], [child]), StatsNode(d, [], []);
    var forest := [first, second];
    assert forest[1..] == [second] && [child][1..] == [] && [grandchild][1..] == [];
    assert [0, 0, 0][1..] == [0, 0] && [0, 0][1..] == [0];
    assert Count([grandchild]) == 1 && Count([child]) == 2;
    assert HasNode([grandchild], 0, [0]) && HasNode([child], 0, [0, 0]) && HasNode([second], 1, [1]);
    assert ObjectNumber([grandchild], 0, 2, [0]) == 2 && ObjectNumber([child], 0, 1, [0, 0]) == 2;
    assert first.children[0].children != [];
  }

  /** The number of levels of the forest. */
  function Levels(forest: seq<StatsNode>): nat
    decreases forest
  {
    if forest == [] then 0
    else
      var below, beside := 1 + Levels(forest[0].children), Levels(forest[1..]);
      if below < beside then beside else below
  }

  /** Two levels below the root are always numbered by rank. */
  lemma {:induction false} TwoLevelsAreShallow(forest: seq<StatsNode>)
    requires Levels(forest) <= 2
    ensures Shallow(forest)
    decreases forest
  {
    if forest != [] {
      TwoLevelsAreShallow(forest[0].children);
      TwoLevelsAreShallow(forest[1..]);
      OneLevelIsLeaves(forest[0].children);
    }
  }

  lemma {:induction false} OneLevelIsLeaves(forest: seq<StatsNode>)
    requires Levels(forest) <= 1
    ensures forall i :: 0 <= i < |forest| ==> forest[i].children == []
    decreases forest
  {
    if forest != [] {
      OneLevelIsLeaves(forest[1..]);
      assert forall i :: 0 < i < |forest| ==> forest[i] == forest[1..][i - 1];
    }
  }
}
