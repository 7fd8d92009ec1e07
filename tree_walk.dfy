/** What the walker draws of a freshly built tree: every entity the build
    made, each exactly once, so every entry of the archive appears as one
    label under the `data` root.

    The argument follows the ghost node paths of tree_shape.dfy: the
    entities below a directory node are exactly those whose path extends the
    directory's path, and distinct children of one directory have disjoint
    sets of such entities. */
module TreeWalk {
  import opened Paths
  import opened Ecs
  import opened TreeBuilder
  import opened TreeShape
  import opened Walker
  import opened TreeFacts

  /** `p` is a proper prefix of `q`. */
  ghost predicate Below(p: Path, q: Path) {
    |p| < |q| && q[..|p|] == p
  }

  /** Entity `n` belongs to the subtree of entity `i`: it is `i` itself, or
      `i` is a directory node whose path is a proper prefix of `n`'s. */
  ghost predicate InSubtree(w: World, paths: seq<Path>, i: nat, n: nat) {
    i < |w| && i < |paths| && n < |paths| &&
    (n == i || (w[i].treeNode && Below(paths[i], paths[n])))
  }

  ghost function Subtree(w: World, paths: seq<Path>, b: nat, i: nat): set<nat> {
    set n | b <= n < |w| && InSubtree(w, paths, i, n)
  }

  /** The subtrees of the entities in `cs`, together. */
  ghost function Subtrees(w: World, paths: seq<Path>, b: nat, cs: seq<nat>): set<nat>
    decreases |cs|
  {
    if cs == [] then {} else Subtree(w, paths, b, cs[0]) + Subtrees(w, paths, b, cs[1..])
  }

  lemma {:induction false} SubtreesMember(w: World, paths: seq<Path>, b: nat, cs: seq<nat>, n: nat)
    ensures n in Subtrees(w, paths, b, cs) <==> exists j :: 0 <= j < |cs| && n in Subtree(w, paths, b, cs[j])
    decreases |cs|
  {
    if cs != [] {
      SubtreesMember(w, paths, b, cs[1..], n);
      if exists j :: 0 <= j < |cs| && n in Subtree(w, paths, b, cs[j]) {
        var j :| 0 <= j < |cs| && n in Subtree(w, paths, b, cs[j]);
        if j > 0 {
          assert cs[1..][j - 1] == cs[j];
        }
      }
      if exists j :: 0 <= j < |cs| - 1 && n in Subtree(w, paths, b, cs[1..][j]) {
        var j :| 0 <= j < |cs| - 1 && n in Subtree(w, paths, b, cs[1..][j]);
        assert cs[j + 1] == cs[1..][j];
      }
    }
  }

  /** Every ancestor directory of a non-root node, from `data` down, is
      indexed: the parent links lead all the way up. */
  lemma {:induction false} AncestorIndexed(w: World, index: Index, paths: seq<Path>, b: nat, n: nat, k: nat)
    requires Inv(w, index, paths, b, {}) && b < n < |w|
    requires 1 <= k < |paths[n]|
    ensures paths[n][..k] in index
    decreases |paths[n]|
  {
    var q := Pop(paths[n]);
    var m := index[q];
    assert paths[m] == q;
    if k < |q| {
      assert m != b by {
        assert |paths[b]| == 1;
      }
      AncestorIndexed(w, index, paths, b, m, k);
      assert q[..k] == paths[n][..k];
    } else {
      assert paths[n][..k] == q;
    }
  }

  lemma PathNotEmpty(w: World, index: Index, paths: seq<Path>, b: nat, i: nat)
    requires Inv(w, index, paths, b, {}) && b <= i < |w|
    ensures 1 <= |paths[i]| && (i != b ==> 2 <= |paths[i]|)
  {
    if i != b {
      assert InsideData(paths[i]);
    }
  }

  /** The subtree of a node whose path extends `i`'s by one component lies
      in the subtree of the directory node `i` and misses `i` itself. */
  lemma ChildInside(w: World, paths: seq<Path>, b: nat, i: nat, c: nat, n: nat)
    requires |paths| == |w| && b <= i < |w| && w[i].treeNode
    requires c < |w| && paths[c] != [] && Pop(paths[c]) == paths[i]
    requires n in Subtree(w, paths, b, c)
    ensures n != i && n in Subtree(w, paths, b, i)
  {
    assert Below(paths[i], paths[c]);
    if n != c {
      assert Below(paths[c], paths[n]);
      assert paths[n][..|paths[i]|] == paths[n][..|paths[c]|][..|paths[i]|];
    }
  }

  /** The children's subtrees lie in the directory node's subtree and miss
      the node itself. */
  lemma ChildSubtreesInside(w: World, index: Index, paths: seq<Path>, b: nat, i: nat)
    requires Inv(w, index, paths, b, {}) && b <= i < |w| && w[i].treeNode
    ensures forall n :: n in Subtrees(w, paths, b, w[i].children) ==> n != i && n in Subtree(w, paths, b, i)
  {
    var cs := w[i].children;
    forall n | n in Subtrees(w, paths, b, cs)
      ensures n != i && n in Subtree(w, paths, b, i)
    {
      SubtreesMember(w, paths, b, cs, n);
      var j :| 0 <= j < |cs| && n in Subtree(w, paths, b, cs[j]);
      var c := cs[j];
      assert c < |w| && Pop(paths[c]) == paths[i] && InsideData(paths[c]);
      ChildInside(w, paths, b, i, c, n);
    }
  }

  /** One entity of a directory node's subtree, other than the node: it
      lies in the subtree of the child on its path. */
  lemma InChildSubtree(w: World, index: Index, paths: seq<Path>, b: nat, i: nat, n: nat)
    requires Inv(w, index, paths, b, {}) && b <= i < |w| && w[i].treeNode
    requires n in Subtree(w, paths, b, i) && n != i
    ensures n in Subtrees(w, paths, b, w[i].children)
  {
    var cs := w[i].children;
    PathNotEmpty(w, index, paths, b, n);
    assert index[paths[i]] == i;
    var k := |paths[i]| + 1;
    var q := paths[n][..k];
    assert Pop(q) == paths[i];
    var c: nat;
    if k == |paths[n]| {
      assert q == paths[n];
      c := n;
    } else {
      AncestorIndexed(w, index, paths, b, n, k);
      c := index[q];
      assert paths[c] == q && w[c].treeNode && b <= c < |w|;
      PathNotEmpty(w, index, paths, b, c);
      assert c != b;
    }
    assert c in cs;
    var j :| 0 <= j < |cs| && cs[j] == c;
    assert n in Subtree(w, paths, b, cs[j]);
    SubtreesMember(w, paths, b, cs, n);
  }

  /** A directory node's subtree is the node and its children's subtrees,
      and the node lies in none of those. */
  lemma SubtreeSplit(w: World, index: Index, paths: seq<Path>, b: nat, i: nat)
    requires Inv(w, index, paths, b, {}) && b <= i < |w| && w[i].treeNode
    ensures i !in Subtrees(w, paths, b, w[i].children)
    ensures Subtree(w, paths, b, i) == {i} + Subtrees(w, paths, b, w[i].children)
  {
    ChildSubtreesInside(w, index, paths, b, i);
    forall n | n in Subtree(w, paths, b, i) && n != i
      ensures n in Subtrees(w, paths, b, w[i].children)
    {
      InChildSubtree(w, index, paths, b, i, n);
    }
  }

  /** Two entities whose paths have the same length, and which are not two
      directory nodes for one path, have disjoint subtrees. */
  lemma SiblingsDisjoint(w: World, paths: seq<Path>, b: nat, c1: nat, c2: nat)
    requires c1 < |w| && c2 < |w| && |paths| == |w| && c1 != c2
    requires |paths[c1]| == |paths[c2]|
    requires !(w[c1].treeNode && w[c2].treeNode && paths[c1] == paths[c2])
    ensures Subtree(w, paths, b, c1) !! Subtree(w, paths, b, c2)
  {
    forall n | n in Subtree(w, paths, b, c1)
      ensures n !in Subtree(w, paths, b, c2)
    {
      assert n != c1 ==> paths[n][..|paths[c1]|] == paths[c1];
    }
  }

  /** Two different children of one directory node have paths of the same
      length, and at most one of them is the directory node for its path. */
  lemma SiblingFacts(w: World, index: Index, paths: seq<Path>, b: nat, i: nat, c1: nat, c2: nat)
    requires Inv(w, index, paths, b, {}) && b <= i < |w|
    requires c1 in w[i].children && c2 in w[i].children && c1 != c2
    ensures c1 < |w| && c2 < |w| && |paths| == |w|
    ensures |paths[c1]| == |paths[c2]|
    ensures !(w[c1].treeNode && w[c2].treeNode && paths[c1] == paths[c2])
  {
    assert Pop(paths[c1]) == paths[i] == Pop(paths[c2]);
    assert w[c1].treeNode && w[c2].treeNode ==> index[paths[c1]] == c1 && index[paths[c2]] == c2;
  }

  /** The subtrees of children listed in `cs` avoid that of child `c`,
      when `c` is not among them. */
  lemma {:induction false} SubtreesAvoid(w: World, index: Index, paths: seq<Path>, b: nat, i: nat, c: nat, cs: seq<nat>)
    requires Inv(w, index, paths, b, {}) && b <= i < |w| && c in w[i].children
    requires forall j :: 0 <= j < |cs| ==> cs[j] in w[i].children && cs[j] != c
    ensures Subtree(w, paths, b, c) !! Subtrees(w, paths, b, cs)
    decreases |cs|
  {
    if cs != [] {
      SiblingFacts(w, index, paths, b, i, c, cs[0]);
      SiblingsDisjoint(w, paths, b, c, cs[0]);
      SubtreesAvoid(w, index, paths, b, i, c, cs[1..]);
    }
  }

  lemma DisjointUnion(a: set<nat>, b: set<nat>)
    requires a !! b
    ensures multiset(a + b) == multiset(a) + multiset(b)
  {
    forall x ensures multiset(a + b)[x] == (multiset(a) + multiset(b))[x] {
      if x in a {
        assert x !in b;
      }
    }
  }

  /** The walk from an entity of the tree reaches every entity of its
      subtree, each exactly once, and nothing else. */
  lemma {:induction false} VisitIsSubtree(w: World, index: Index, paths: seq<Path>, b: nat, i: nat, h: nat)
    requires Inv(w, index, paths, b, {}) && b <= i < |w| && WalkableWithin(w, i, h)
    ensures multiset(Visit(w, i, h)) == multiset(Subtree(w, paths, b, i))
    decreases h, 0
  {
    if w[i].treeNode {
      var cs := w[i].children;
      var vs := VisitChildren(w, cs, h - 1);
      assert Visit(w, i, h) == [i] + vs;
      ChildrenDistinct(w, index, paths, b, i);
      VisitChildrenIsSubtrees(w, index, paths, b, i, cs, h - 1);
      SubtreeSplit(w, index, paths, b, i);
      DisjointUnion({i}, Subtrees(w, paths, b, cs));
    } else {
      LeafSubtree(w, paths, b, i);
    }
  }

  /** A child list holds no entity twice. */
  lemma ChildrenDistinct(w: World, index: Index, paths: seq<Path>, b: nat, i: nat)
    requires Inv(w, index, paths, b, {}) && b <= i < |w|
    ensures forall j, k :: 0 <= j < k < |w[i].children| ==> w[i].children[j] != w[i].children[k]
  {
  }

  /** An entity that is not a directory node is its own whole subtree. */
  lemma LeafSubtree(w: World, paths: seq<Path>, b: nat, i: nat)
    requires |paths| == |w| && b <= i < |w| && !w[i].treeNode
    ensures Subtree(w, paths, b, i) == {i}
  {
  }

  lemma {:induction false} VisitChildrenIsSubtrees(w: World, index: Index, paths: seq<Path>, b: nat, i: nat, cs: seq<nat>, h: nat)
    requires Inv(w, index, paths, b, {}) && b <= i < |w|
    requires forall j :: 0 <= j < |cs| ==> cs[j] in w[i].children && WalkableWithin(w, cs[j], h)
    requires forall j, k :: 0 <= j < k < |cs| ==> cs[j] != cs[k]
    ensures multiset(VisitChildren(w, cs, h)) == multiset(Subtrees(w, paths, b, cs))
    decreases h, 1, |cs|
  {
    if cs != [] {
      var c := cs[0];
      var rest := cs[1..];
      assert forall j :: 0 <= j < |rest| ==> rest[j] == cs[j + 1];
      assert b < c < |w|;
      VisitIsSubtree(w, index, paths, b, c, h);
      VisitChildrenIsSubtrees(w, index, paths, b, i, rest, h);
      SubtreesAvoid(w, index, paths, b, i, c, rest);
      DisjointUnion(Subtree(w, paths, b, c), Subtrees(w, paths, b, rest));
    }
  }

  /** `Range(lo, hi)` lists each id from `lo` up to `hi` exactly once. */
  lemma {:induction false} RangeCounts(lo: nat, hi: nat)
    requires lo <= hi
    ensures forall n :: multiset(Range(lo, hi))[n] == if lo <= n < hi then 1 else 0
    decreases hi - lo
  {
    if lo < hi {
      RangeCounts(lo, hi - 1);
      assert multiset(Range(lo, hi)) == multiset(Range(lo, hi - 1)) + multiset([hi - 1]);
    }
  }

  /** Reordering the entities reorders their labels and nothing more. */
  lemma {:induction false} LeafTitlesPermute(w: World, vs: seq<nat>, us: seq<nat>)
    requires multiset(vs) == multiset(us)
    ensures multiset(LeafTitles(w, vs)) == multiset(LeafTitles(w, us))
    decreases |vs|
  {
    if vs == [] {
      assert |us| == |multiset(us)| == 0;
    } else {
      var x := vs[0];
      assert x in multiset(us);
      var k :| 0 <= k < |us| && us[k] == x;
      var us' := us[..k] + us[k + 1..];
      assert us == us[..k] + [x] + us[k + 1..];
      assert vs == [x] + vs[1..];
      assert multiset(us) == multiset(us[..k]) + multiset([x]) + multiset(us[k + 1..]);
      assert multiset(vs) == multiset([x]) + multiset(vs[1..]);
      assert multiset(us') == multiset(us[..k]) + multiset(us[k + 1..]);
      forall y ensures multiset(vs[1..])[y] == multiset(us')[y] {
        assert multiset(vs)[y] == multiset([x])[y] + multiset(vs[1..])[y];
        assert multiset(us)[y] == multiset([x])[y] + multiset(us')[y];
      }
      assert multiset(vs[1..]) == multiset(us');
      LeafTitlesPermute(w, vs[1..], us');
      LeafTitlesAppend(w, us[..k] + [x], us[k + 1..]);
      LeafTitlesAppend(w, us[..k], [x]);
      LeafTitlesAppend(w, us[..k], us[k + 1..]);
      assert LeafTitles(w, vs) == LeafTitle(w, x) + LeafTitles(w, vs[1..]);
      assert LeafTitles(w, [x]) == LeafTitle(w, x) + LeafTitles(w, []);
    }
  }

  /** Completeness of the drawn tree: after a build whose entries all lie
      inside `data/`, the walk from the new root reaches every entity the
      build made exactly once and no other. */
  lemma BuildTreeVisitsAll(w: World, entries: seq<Path>)
    requires forall k :: 0 <= k < |entries| ==> InsideData(entries[k])
    ensures BuildTree(w, entries).Attached?
    ensures var r := BuildTree(w, entries); var h := MaxLen(TreePaths(w, entries));
      WalkableWithin(r.world, |w|, h) &&
      forall n :: multiset(Visit(r.world, |w|, h))[n] == if |w| <= n < |r.world| then 1 else 0
  {
    var r := BuildTree(w, entries);
    var paths := TreePaths(w, entries);
    var b := |w|;
    BuildTreeShape(w, entries);
    BuildTreeWalkable(w, entries);
    VisitIsSubtree(r.world, r.index, paths, b, b, MaxLen(paths));
    RootSubtreeIsAll(r.world, r.index, paths, b);
  }

  /** The root's subtree is every entity from the root on. */
  lemma RootSubtreeIsAll(w: World, index: Index, paths: seq<Path>, b: nat)
    requires Inv(w, index, paths, b, {})
    ensures forall n :: n in Subtree(w, paths, b, b) <==> b <= n < |w|
  {
    forall n | b <= n < |w| ensures n in Subtree(w, paths, b, b) {
      if n != b {
        assert InsideData(paths[n]);
        assert paths[n][..1] == RootPath;
      }
    }
  }

  /** A sequence holding each id from `lo` up to `hi` exactly once is a
      reordering of `Range(lo, hi)`. */
  lemma CountsToRange(vs: seq<nat>, lo: nat, hi: nat)
    requires lo <= hi
    requires forall n :: multiset(vs)[n] == if lo <= n < hi then 1 else 0
    ensures multiset(vs) == multiset(Range(lo, hi))
  {
    RangeCounts(lo, hi);
  }

  /** When the walk from `b` reaches each entity from `b` on exactly once,
      its plain labels are the names of the unmarked ones among them. */
  lemma DrawnLeaves(w: World, b: nat, h: nat)
    requires b <= |w| && WalkableWithin(w, b, h)
    requires forall n :: multiset(Visit(w, b, h))[n] == if b <= n < |w| then 1 else 0
    ensures multiset(Labels(Walk(w, b, h))) == multiset(LeafNames(w, b, |w|))
  {
    var vs := Visit(w, b, h);
    WalkTitles(w, b, h);
    CountsToRange(vs, b, |w|);
    LeafTitlesPermute(w, vs, Range(b, |w|));
  }

  /** Every entry of the archive is drawn: the plain labels of the drawn
      tree are the entries' labels, each as often as there are entries with
      that label (in pre-order rather than iteration order). */
  lemma BuildTreeDrawsEveryEntry(w: World, entries: seq<Path>)
    requires forall k :: 0 <= k < |entries| ==> InsideData(entries[k])
    ensures BuildTree(w, entries).Attached?
    ensures var r := BuildTree(w, entries); var h := MaxLen(TreePaths(w, entries));
      WalkableWithin(r.world, |w|, h) &&
      multiset(Labels(Walk(r.world, |w|, h))) == multiset(EntryLabels(entries))
  {
    var r := BuildTree(w, entries);
    var h := MaxLen(TreePaths(w, entries));
    BuildTreeVisitsAll(w, entries);
    var rw := r.world;
    DrawnLeaves(rw, |w|, h);
    BuildTreeLeaves(w, entries);
    assert LeafNames(rw, |w|, |rw|) == EntryLabels(entries);
  }

  /** Siblings appear in the order they were first spawned: every child list
      the build leaves is strictly increasing in entity id. Together with
      `BuildTreeLeaves` (leaves are spawned in iteration order) this is the
      order of first appearance in the archive. */
  lemma BuildTreeSiblingOrder(w: World, entries: seq<Path>)
    requires forall k :: 0 <= k < |entries| ==> InsideData(entries[k])
    ensures BuildTree(w, entries).Attached?
    ensures var r := BuildTree(w, entries).world;
      forall i, j, k :: |w| <= i < |r| && 0 <= j < k < |r[i].children| ==> r[i].children[j] < r[i].children[k]
  {
    BuildTreeShape(w, entries);
  }

  // Two files of one directory: `data/x/a.txt` then `data/x/b.txt`.
  const FileA: Path := [Data, Named("x"), Named("a.txt")]
  const FileB: Path := [Data, Named("x"), Named("b.txt")]
  const DirX: Path := [Data, Named("x")]
  /** The world after the first entry: root 0, leaf 1, directory `x` 2. */
  const AfterA: World := [Node("data", true, true, [2]), Node("a.txt", false, false, []), Node("x", true, false, [1])]
  /** The world after the second entry: leaf 3 appended under `x`. */
  const AfterB: World :=
    [Node("data", true, true, [2]), Node("a.txt", false, false, []), Node("x", true, false, [1, 3]), Node("b.txt", false, false, [])]

  /** The first entry spawns its leaf and the missing directory `x`. */
  lemma FirstFileBuilds()
    ensures AttachToParent(Spawned(Seed([]).world, "a.txt", false, false), map[RootPath := 0], 1, FileA) ==
      Attached(AfterA, map[RootPath := 0, DirX := 2])
  {
    var w1 := Spawned(Seed([]).world, "a.txt", false, false);
    var i1 := map[RootPath := 0, DirX := 2];
    assert Pop(FileA) == DirX && Pop(DirX) == RootPath && DirX != RootPath && LabelOf(DirX) == "x";
    assert map[RootPath := 0][DirX := 2] == i1;
    var v1 := WithChild(Spawned(w1, "x", true, false), 2, 1);
    assert |v1| == 3 && v1[0] == Node("data", true, true, []) && v1[1] == Node("a.txt", false, false, []);
    assert v1[2] == Node("x", true, false, [1]);
    var u1 := WithChild(v1, 0, 2);
    assert u1[0] == AfterA[0] && u1[1] == AfterA[1] && u1[2] == AfterA[2];
    assert u1 == AfterA;
  }

  /** The second entry finds `x` indexed and joins it as its second child. */
  lemma SecondFileBuilds()
    ensures AttachToParent(Spawned(AfterA, "b.txt", false, false), map[RootPath := 0, DirX := 2], 3, FileB) ==
      Attached(AfterB, map[RootPath := 0, DirX := 2])
  {
    assert Pop(FileB) == DirX;
    var u2 := WithChild(Spawned(AfterA, "b.txt", false, false), 2, 3);
    assert |u2| == 4 && u2[0] == AfterB[0] && u2[1] == AfterB[1] && u2[3] == AfterB[3];
    assert u2[2] == AfterB[2];
    assert u2 == AfterB;
  }

  lemma SecondFileRound()
    ensures AddEntries(AfterA, map[RootPath := 0, DirX := 2], [FileB]) == Attached(AfterB, map[RootPath := 0, DirX := 2])
  {
    assert LabelOf(FileB) == "b.txt";
    SecondFileBuilds();
    assert [FileB][1..] == [];
  }

  lemma TwoFilesBuild()
    ensures BuildTree([], [FileA, FileB]) == Attached(AfterB, map[RootPath := 0, DirX := 2])
  {
    var s := Seed([]);
    assert s.world == [Node("data", true, true, [])] && s.index == map[RootPath := 0];
    assert LabelOf(FileA) == "a.txt";
    FirstFileBuilds();
    assert [FileA, FileB][1..] == [FileB];
    SecondFileRound();
  }

  lemma DirectoryXWalk()
    ensures WalkableWithin(AfterB, 2, 1)
    ensures Walk(AfterB, 2, 1) == [Open("x"), Label("a.txt"), Label("b.txt"), Close]
  {
    assert AfterB[2].children == [1, 3];
    assert Walk(AfterB, 1, 0) == [Label("a.txt")] && Walk(AfterB, 3, 0) == [Label("b.txt")];
    assert WalkChildren(AfterB, [3], 0) == [Label("b.txt")];
    assert WalkChildren(AfterB, [1, 3], 0) == [Label("a.txt"), Label("b.txt")] by {
      assert [1, 3][1..] == [3];
    }
  }

  lemma TwoFilesWalk()
    ensures WalkableWithin(AfterB, 0, 2)
    ensures Walk(AfterB, 0, 2) == [Open("data"), Open("x"), Label("a.txt"), Label("b.txt"), Close, Close]
  {
    assert AfterB[0].children == [2];
    DirectoryXWalk();
    assert WalkChildren(AfterB, [2], 1) == [Open("x"), Label("a.txt"), Label("b.txt"), Close];
  }

  /** Two files of one directory, as the builder and the walker see them:
      `data/x/a.txt` then `data/x/b.txt` give one `x` section holding the two
      labels in that order. */
  lemma TwoFilesInOneDirectory()
    ensures var r := BuildTree([], [FileA, FileB]);
      r.Attached? && WalkableWithin(r.world, 0, 2) &&
      Walk(r.world, 0, 2) == [Open("data"), Open("x"), Label("a.txt"), Label("b.txt"), Close, Close]
  {
    TwoFilesBuild();
    TwoFilesWalk();
  }
}
