/** Consequences of the builder invariant: when `open_grf` panics, what the
    finished graph looks like, how many directory nodes and leaves it has,
    and which entities carry `FileTreeRoot` afterwards. */
module TreeFacts {
  import opened Paths
  import opened Ecs
  import opened TreeBuilder
  import opened TreeShape
  import opened Walker

  /** A path outside `data/` has no indexed prefix shorter than itself, not
      even the empty path. */
  lemma NoKeyOnChain(keys: set<Path>, x: Path)
    requires DirKeys(keys) && !InsideData(x)
    ensures [] !in keys
    ensures forall k :: 0 <= k < |x| ==> x[..k] !in keys
  {
    forall k | 0 <= k < |x| ensures x[..k] !in keys {
      if k > 0 {
        assert x[..k][0] == x[0];
      }
    }
  }

  /** Attaching along a path none of whose proper prefixes is indexed pops
      down to the empty path, indexes it, and then asks the node just made
      to become its own child: `add_node_to_parent` panics. */
  lemma {:induction false} AttachPanics(w: World, index: Index, e: nat, x: Path)
    requires e < |w| && IndexInWorld(w, index)
    requires forall k :: 0 <= k < |x| ==> x[..k] !in index
    requires [] in index ==> index[[]] == e
    ensures AttachToParent(w, index, e, x).Panicked?
    decreases |x|, if Pop(x) in index then 0 else 1
  {
    var p := Pop(x);
    if p !in index {
      var node := |w|;
      var w' := WithChild(Spawned(w, LabelOf(p), true, false), node, e);
      var index' := index[p := node];
      if x != [] {
        assert x[..0] == [];
      }
      forall k | 0 <= k < |p| ensures p[..k] !in index' {
        assert p[..k] == x[..k];
      }
      AttachPanics(w', index', node, p);
    }
  }

  /** One round of the entry loop on an entry inside `data/` keeps the
      invariant and the key set closed. */
  lemma EntryKeepsKeys(w: World, index: Index, paths: seq<Path>, b: nat, e: Path)
    requires Inv(w, index, paths, b, {}) && DirKeys(index.Keys) && PrefixClosed(index.Keys) && InsideData(e)
    ensures IndexInWorld(w, index)
    ensures var r := AttachToParent(Spawned(w, LabelOf(e), false, false), index, |w|, e);
      r.Attached? && Inv(r.world, r.index, paths + [e] + Created(index.Keys, e), b, {}) &&
      DirKeys(r.index.Keys) && PrefixClosed(r.index.Keys)
  {
    EntryKeepsInv(w, index, paths, b, e);
    AttachIndexes(Spawned(w, LabelOf(e), false, false), index, |w|, e);
    CreatedDirs(index.Keys, e);
    AddSubdirsKeepsClosed(index.Keys, e);
  }

  /** A round of the entry loop on an entry outside `data/` panics. */
  lemma EntryPanics(w: World, index: Index, entries: seq<Path>)
    requires IndexInWorld(w, index) && DirKeys(index.Keys)
    requires entries != [] && !InsideData(entries[0])
    ensures AddEntries(w, index, entries).Panicked?
  {
    var e := entries[0];
    NoKeyOnChain(index.Keys, e);
    AttachPanics(Spawned(w, LabelOf(e), false, false), index, |w|, e);
  }

  /** The entry loop panics as soon as it meets an entry outside `data/`
      (here the one at `k`), provided the entries before it lie inside. */
  lemma {:induction false} AddEntriesPanics(w: World, index: Index, paths: seq<Path>, b: nat, entries: seq<Path>, k: nat)
    requires Inv(w, index, paths, b, {}) && DirKeys(index.Keys) && PrefixClosed(index.Keys)
    requires IndexInWorld(w, index)
    requires k < |entries| && !InsideData(entries[k])
    ensures AddEntries(w, index, entries).Panicked?
    decreases |entries|
  {
    var e := entries[0];
    if !InsideData(e) {
      EntryPanics(w, index, entries);
    } else {
      assert k != 0;
      assert entries[1..][k - 1] == entries[k];
      EntryKeepsKeys(w, index, paths, b, e);
      var r1 := AttachToParent(Spawned(w, LabelOf(e), false, false), index, |w|, e);
      AddEntriesPanics(r1.world, r1.index, paths + [e] + Created(index.Keys, e), b, entries[1..], k - 1);
      LaterPanic(w, index, entries);
    }
  }

  /** A panic in a later round is a panic of the whole loop. */
  lemma LaterPanic(w: World, index: Index, entries: seq<Path>)
    requires IndexInWorld(w, index) && entries != []
    requires var r1 := AttachToParent(Spawned(w, LabelOf(entries[0]), false, false), index, |w|, entries[0]);
      r1.Attached? && AddEntries(r1.world, r1.index, entries[1..]).Panicked?
    ensures AddEntries(w, index, entries).Panicked?
  {
  }

  /** `open_grf` finishes without a panic exactly when every entry lies
      strictly inside `data/`. */
  lemma BuildTreeAttachedIff(w: World, entries: seq<Path>)
    ensures BuildTree(w, entries).Attached? <==> forall k :: 0 <= k < |entries| ==> InsideData(entries[k])
  {
    if forall k :: 0 <= k < |entries| ==> InsideData(entries[k]) {
      BuildTreeShape(w, entries);
    } else {
      var k :| 0 <= k < |entries| && !InsideData(entries[k]);
      SeedInv(w);
      AddEntriesPanics(Seed(w).world, Seed(w).index, seq(|w|, _ => []) + [RootPath], |w|, entries, k);
    }
  }

  /** Every child slot of the tree holds a different entity: together with
      `HasParent`, each node but the root has exactly one parent and sits
      in its child list exactly once, so the graph is a tree. */
  lemma ChildOnce(w: World, index: Index, paths: seq<Path>, b: nat)
    requires Inv(w, index, paths, b, {})
    ensures forall p, j, q, k ::
      (b <= p < |w| && b <= q < |w| && 0 <= j < |w[p].children| && 0 <= k < |w[q].children| &&
       w[p].children[j] == w[q].children[k]) ==> p == q && j == k
  {
    forall p, j, q, k | b <= p < |w| && b <= q < |w| &&
      0 <= j < |w[p].children| && 0 <= k < |w[q].children| &&
      w[p].children[j] == w[q].children[k]
      ensures p == q && j == k
    {
      var c := w[p].children[j];
      assert paths[p] == Pop(paths[c]) == paths[q];
      assert index[paths[p]] == p && index[paths[q]] == q;
    }
  }

  /** The directory nodes (`FileTreeNode`) from `b` on. */
  ghost function Branches(w: World, b: nat): set<nat> {
    set i | b <= i < |w| && w[i].treeNode
  }

  lemma {:induction false} InjectiveImageCard(m: map<Path, nat>, ks: set<Path>)
    requires ks <= m.Keys
    requires forall q1, q2 :: q1 in ks && q2 in ks && m[q1] == m[q2] ==> q1 == q2
    ensures |set q | q in ks :: m[q]| == |ks|
    decreases |ks|
  {
    if ks != {} {
      var q :| q in ks;
      var ks' := ks - {q};
      InjectiveImageCard(m, ks');
      var img := set q | q in ks :: m[q];
      var img' := set q | q in ks' :: m[q];
      assert img == img' + {m[q]};
      assert m[q] !in img';
    }
  }

  /** The index is a one-to-one correspondence between directory keys and
      directory nodes, so there are as many directory nodes as keys. */
  lemma BranchCount(w: World, index: Index, paths: seq<Path>, b: nat)
    requires Inv(w, index, paths, b, {})
    ensures |Branches(w, b)| == |index.Keys|
  {
    var img := set q | q in index.Keys :: index[q];
    assert img == Branches(w, b);
    InjectiveImageCard(index, index.Keys);
  }

  lemma BranchCountFromKeys(w: World, index: Index, paths: seq<Path>, b: nat, entries: seq<Path>)
    requires Inv(w, index, paths, b, {}) && index.Keys == {RootPath} + AllSubdirs(entries)
    ensures |Branches(w, b)| == 1 + |AllSubdirs(entries)|
  {
    BranchCount(w, index, paths, b);
    AllSubdirsBelowData(entries);
  }

  lemma {:induction false} AllSubdirsBelowData(entries: seq<Path>)
    ensures RootPath !in AllSubdirs(entries)
    decreases |entries|
  {
    if entries != [] {
      AllSubdirsBelowData(entries[1..]);
    }
  }

  /** For an archive whose entries all lie inside `data/`, the build makes
      one directory node for `data` and one for each distinct directory
      strictly below it that contains an entry. */
  lemma BuildTreeBranches(w: World, entries: seq<Path>)
    requires forall k :: 0 <= k < |entries| ==> InsideData(entries[k])
    ensures BuildTree(w, entries).Attached?
    ensures |Branches(BuildTree(w, entries).world, |w|)| == 1 + |AllSubdirs(entries)|
  {
    BuildTreeShape(w, entries);
    var r := BuildTree(w, entries);
    BranchCountFromKeys(r.world, r.index, TreePaths(w, entries), |w|, entries);
  }

  // Two entries in directories whose names do not decode and differ byte
  // for byte: `data/<0xff>/a` then `data/<0xfe>/b`.
  const OddDirA: Path := [Data, Undecodable([0xff])]
  const OddDirB: Path := [Data, Undecodable([0xfe])]
  const OddA: Path := OddDirA + [Named("a")]
  const OddB: Path := OddDirB + [Named("b")]

  lemma OddDirsDistinct()
    ensures AllSubdirs([OddA, OddB]) == {OddDirA, OddDirB} && OddDirA != OddDirB
  {
    assert Subdirs(OddA) == {OddDirA} by {
      assert OddA[..2] == OddDirA;
    }
    assert Subdirs(OddB) == {OddDirB} by {
      assert OddB[..2] == OddDirB;
    }
    assert [OddA, OddB][1..] == [OddB];
    assert AllSubdirs([OddB]) == Subdirs(OddB) + AllSubdirs([]);
    assert OddDirA[1].raw != OddDirB[1].raw;
  }

  /** Undecodable directory names that differ are two index keys, and so
      two directory nodes: the two entries above build three
      `FileTreeNode`s (`data` and one per directory). */
  lemma TwoUndecodableDirs()
    ensures BuildTree([], [OddA, OddB]).Attached?
    ensures |Branches(BuildTree([], [OddA, OddB]).world, 0)| == 3
  {
    OddDirsDistinct();
    BuildTreeBranches([], [OddA, OddB]);
  }

  /** The label each entry's leaf gets, in iteration order. */
  function EntryLabels(entries: seq<Path>): (r: seq<string>)
    ensures |r| == |entries| && forall k :: 0 <= k < |r| ==> r[k] == LabelOf(entries[k])
  {
    seq(|entries|, k requires 0 <= k < |entries| => LabelOf(entries[k]))
  }

  /** The names of the unmarked nodes with ids from `lo` up to `hi`, in id
      order. */
  function LeafNames(w: World, lo: nat, hi: nat): seq<string>
    requires lo <= hi <= |w|
  {
    LeafTitles(w, Range(lo, hi))
  }

  /** The leaf names up to `hi` are those up to `hi - 1`, then the name of
      `hi - 1` if it is unmarked. */
  lemma LeafNamesSnoc(w: World, lo: nat, hi: nat)
    requires lo < hi <= |w|
    ensures LeafNames(w, lo, hi) == LeafNames(w, lo, hi - 1) + LeafTitle(w, hi - 1)
  {
    var r := Range(lo, hi - 1);
    assert Range(lo, hi) == r + [hi - 1];
    LeafTitlesAppend(w, r, [hi - 1]);
    assert LeafTitles(w, [hi - 1]) == LeafTitle(w, hi - 1) + LeafTitles(w, []);
  }

  /** The ids up to `hi` are those up to `mid`, then the rest. */
  lemma {:induction false} RangeSplit(lo: nat, mid: nat, hi: nat)
    requires lo <= mid <= hi
    ensures Range(lo, hi) == Range(lo, mid) + Range(mid, hi)
    decreases hi - mid
  {
    if mid < hi {
      RangeSplit(lo, mid, hi - 1);
      assert Range(lo, hi) == (Range(lo, mid) + Range(mid, hi - 1)) + [hi - 1];
    }
  }

  lemma LeafNamesSplit(w: World, lo: nat, mid: nat, hi: nat)
    requires lo <= mid <= hi <= |w|
    ensures LeafNames(w, lo, hi) == LeafNames(w, lo, mid) + LeafNames(w, mid, hi)
  {
    RangeSplit(lo, mid, hi);
    LeafTitlesAppend(w, Range(lo, mid), Range(mid, hi));
  }

  lemma {:induction false} LeafNamesGrows(w: World, w2: World, lo: nat, hi: nat)
    requires Grows(w, w2) && lo <= hi <= |w|
    ensures LeafNames(w2, lo, hi) == LeafNames(w, lo, hi)
    decreases hi - lo
  {
    if lo < hi {
      LeafNamesGrows(w, w2, lo, hi - 1);
      LeafNamesSnoc(w, lo, hi);
      LeafNamesSnoc(w2, lo, hi);
      assert LeafTitle(w2, hi - 1) == LeafTitle(w, hi - 1);
    } else {
      assert LeafNames(w, lo, hi) == [] == LeafNames(w2, lo, hi);
    }
  }

  lemma {:induction false} LeafNamesOfDirs(w: World, lo: nat, hi: nat)
    requires lo <= hi <= |w| && forall i :: lo <= i < hi ==> w[i].treeNode
    ensures LeafNames(w, lo, hi) == []
    decreases hi - lo
  {
    if lo < hi {
      LeafNamesOfDirs(w, lo, hi - 1);
      LeafNamesSnoc(w, lo, hi);
    } else {
      assert Range(lo, hi) == [];
    }
  }

  /** Attaching a spawned entry leaf `n` adds only directory nodes after
      it, so the leaf is the only unmarked node from `n` on. */
  lemma LeafThenDirs(n: nat, r1: World)
    requires n < |r1| && !r1[n].treeNode
    requires forall i :: n < i < |r1| ==> r1[i].treeNode
    ensures LeafNames(r1, n, |r1|) == [r1[n].name]
  {
    LeafNamesSplit(r1, n, n + 1, |r1|);
    LeafNamesSnoc(r1, n, n + 1);
    assert LeafNames(r1, n, n) == [];
    LeafNamesOfDirs(r1, n + 1, |r1|);
  }

  /** The leaf names from a spawned entry leaf `n` on: its own label, then
      those of the later rounds. */
  lemma LeafRound(n: nat, r1: World, r: World, rest: seq<string>)
    requires n < |r1| && Grows(r1, r) && !r1[n].treeNode
    requires forall i :: n < i < |r1| ==> r1[i].treeNode
    requires LeafNames(r, |r1|, |r|) == rest
    ensures LeafNames(r, n, |r|) == [r1[n].name] + rest
  {
    LeafThenDirs(n, r1);
    LeafNamesGrows(r1, r, n, |r1|);
    LeafNamesSplit(r, n, |r1|, |r|);
  }

  /** One round of the entry loop contributes the entry's label, followed
      by whatever the later rounds contribute. */
  lemma EntryLeaf(w: World, index: Index, e: Path, r: World, rest: seq<string>)
    requires IndexInWorld(w, index)
    requires AttachToParent(Spawned(w, LabelOf(e), false, false), index, |w|, e).Attached?
    requires var r1 := AttachToParent(Spawned(w, LabelOf(e), false, false), index, |w|, e);
      Grows(r1.world, r) && LeafNames(r, |r1.world|, |r|) == rest
    ensures LeafNames(r, |w|, |r|) == [LabelOf(e)] + rest
  {
    var r1 := AttachToParent(Spawned(w, LabelOf(e), false, false), index, |w|, e);
    LeafRound(|w|, r1.world, r, rest);
  }

  lemma EntryLabelsCons(entries: seq<Path>)
    requires entries != []
    ensures EntryLabels(entries) == [LabelOf(entries[0])] + EntryLabels(entries[1..])
  {
    assert EntryLabels(entries)[1..] == EntryLabels(entries[1..]);
  }

  /** A loop that does not panic did not panic in its first round either,
      and went on from there. */
  lemma AttachedRound(w: World, index: Index, entries: seq<Path>)
    requires IndexInWorld(w, index) && entries != [] && AddEntries(w, index, entries).Attached?
    ensures var r1 := AttachToParent(Spawned(w, LabelOf(entries[0]), false, false), index, |w|, entries[0]);
      r1.Attached? && AddEntries(w, index, entries) == AddEntries(r1.world, r1.index, entries[1..])
  {
  }

  /** The entry loop, when it does not panic, adds exactly one unmarked node
      per entry, in iteration order, labelled with the entry's file name
      or "Unnamed"; every other node it adds is a directory node. */
  lemma {:induction false} AddEntriesLeaves(w: World, index: Index, entries: seq<Path>)
    requires IndexInWorld(w, index) && AddEntries(w, index, entries).Attached?
    ensures LeafNames(AddEntries(w, index, entries).world, |w|, |AddEntries(w, index, entries).world|) ==
      EntryLabels(entries)
    decreases |entries|
  {
    if entries != [] {
      var e := entries[0];
      EntryLabelsCons(entries);
      var r1 := AttachToParent(Spawned(w, LabelOf(e), false, false), index, |w|, e);
      AttachedRound(w, index, entries);
      var r := AddEntries(r1.world, r1.index, entries[1..]);
      AddEntriesLeaves(r1.world, r1.index, entries[1..]);
      EntryLeaf(w, index, e, r.world, EntryLabels(entries[1..]));
    }
  }

  /** A build that does not panic leaves, after the `data` root, one leaf
      per entry in iteration order, each labelled with the entry's file
      name or "Unnamed". */
  lemma BuildTreeLeaves(w: World, entries: seq<Path>)
    requires BuildTree(w, entries).Attached?
    ensures LeafNames(BuildTree(w, entries).world, |w|, |BuildTree(w, entries).world|) == EntryLabels(entries)
  {
    var s := Seed(w);
    var r := BuildTree(w, entries);
    AddEntriesLeaves(s.world, s.index, entries);
    LeafNamesSplit(r.world, |w|, |w| + 1, |r.world|);
    LeafNamesOfDirs(r.world, |w|, |w| + 1);
  }

  /** The nodes the entry loop adds never carry `FileTreeRoot`. */
  lemma {:induction false} AddEntriesNoRoots(w: World, index: Index, entries: seq<Path>)
    requires IndexInWorld(w, index)
    ensures forall i :: |w| <= i < |AddEntries(w, index, entries).world| ==> !AddEntries(w, index, entries).world[i].treeRoot
    decreases |entries|
  {
    if entries != [] {
      var e := entries[0];
      var w' := Spawned(w, LabelOf(e), false, false);
      var r1 := AttachToParent(w', index, |w|, e);
      if r1.Attached? {
        AddEntriesNoRoots(r1.world, r1.index, entries[1..]);
      }
    }
  }

  /** Each `open_grf` adds exactly one `FileTreeRoot` entity, its new `data`
      root, and removes none: after a second open there are two roots. */
  lemma BuildTreeRoots(w: World, entries: seq<Path>)
    ensures RootsOf(BuildTree(w, entries).world) == RootsOf(w) + [|w|]
  {
    var s := Seed(w);
    var r := BuildTree(w, entries);
    AddEntriesNoRoots(s.world, s.index, entries);
    RootsOfGrows(s.world, r.world);
    assert s.world[..|w|] == w;
    assert RootsOf(s.world) == RootsOf(w) + [|w|];
  }

  /** The longest of `paths`. */
  ghost function MaxLen(paths: seq<Path>): (m: nat)
    ensures forall j :: 0 <= j < |paths| ==> |paths[j]| <= m
    decreases |paths|
  {
    if paths == [] then 0
    else
      var m := MaxLen(paths[..|paths| - 1]);
      assert forall j :: 0 <= j < |paths| - 1 ==> paths[j] == paths[..|paths| - 1][j];
      if |paths[|paths| - 1]| > m then |paths[|paths| - 1]| else m
  }

  /** Each level down the tree lengthens the node's path by one, so the
      walk from a node needs no more nested sections than the longest path
      is longer than the node's own. */
  lemma {:induction false} ShapeWalkable(w: World, paths: seq<Path>, b: nat, i: nat, h: nat)
    requires Shaped(w, paths, b) && ChildEdges(w, paths, b, {})
    requires b <= i < |w| && MaxLen(paths) < |paths[i]| + h
    ensures WalkableWithin(w, i, h)
    decreases h
  {
    if w[i].treeNode {
      assert |paths[i]| <= MaxLen(paths);
      forall j | 0 <= j < |w[i].children| ensures WalkableWithin(w, w[i].children[j], h - 1) {
        var c := w[i].children[j];
        assert b < c < |w| && Pop(paths[c]) == paths[i] && InsideData(paths[c]);
        ShapeWalkable(w, paths, b, c, h - 1);
      }
    }
  }

  /** The tree a build leaves is finite: the walk from its root terminates,
      with the longest node path as a bound on the nesting. */
  lemma BuildTreeWalkable(w: World, entries: seq<Path>)
    requires forall k :: 0 <= k < |entries| ==> InsideData(entries[k])
    ensures BuildTree(w, entries).Attached?
    ensures WalkableWithin(BuildTree(w, entries).world, |w|, MaxLen(TreePaths(w, entries)))
  {
    BuildTreeShape(w, entries);
    var r := BuildTree(w, entries);
    ShapeWalkable(r.world, TreePaths(w, entries), |w|, |w|, MaxLen(TreePaths(w, entries)));
  }

  /** The walk from the world's root, when there is exactly one, finishes
      within `h` nested sections. */
  ghost predicate RootWalkable(w: World, h: nat) {
    |RootsOf(w)| == 1 ==> WalkableWithin(w, RootsOf(w)[0], h)
  }

  /** After a build that does not panic, whenever the new root is the only
      `FileTreeRoot`, the walk from it terminates within the bound
      `BuildTreeWalkable` gives. */
  lemma BuildTreeDrawable(w: World, entries: seq<Path>)
    requires BuildTree(w, entries).Attached?
    ensures RootWalkable(BuildTree(w, entries).world, MaxLen(TreePaths(w, entries)))
  {
    BuildTreeAttachedIff(w, entries);
    BuildTreeWalkable(w, entries);
    BuildTreeRoots(w, entries);
  }

  /** Opening a second archive adds a second `FileTreeRoot` and keeps the
      first, so from then on there are at least two roots and the side panel
      stops drawing the tree. */
  lemma SecondBuildTwoRoots(w: World, first: seq<Path>, second: seq<Path>)
    requires BuildTree(w, first).Attached? && BuildTree(BuildTree(w, first).world, second).Attached?
    ensures var w2 := BuildTree(BuildTree(w, first).world, second).world;
      RootsOf(w2) == RootsOf(w) + [|w|, |BuildTree(w, first).world|] && |RootsOf(w2)| >= 2
  {
    var w1 := BuildTree(w, first).world;
    BuildTreeRoots(w, first);
    BuildTreeRoots(w1, second);
    AppendTwice(RootsOf(w), RootsOf(w1), RootsOf(BuildTree(w1, second).world), |w|, |w1|);
  }

  lemma AppendTwice(a: seq<nat>, b: seq<nat>, c: seq<nat>, x: nat, y: nat)
    requires b == a + [x] && c == b + [y]
    ensures c == a + [x, y] && |c| >= 2
  {
  }

  /** An archive with no entries still shows its root: a collapsing section
      titled "data" with nothing inside. */
  lemma EmptyArchiveTree(w: World, h: nat)
    requires WalkableWithin(BuildTree(w, []).world, |w|, h)
    ensures Walk(BuildTree(w, []).world, |w|, h) == [Open("data"), Close]
  {
    var r := BuildTree(w, []);
    assert r == Seed(w);
    assert WalkChildren(r.world, r.world[|w|].children, h - 1) == [];
  }
}
