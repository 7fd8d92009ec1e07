/** What the builder guarantees about the graph it produces.

    The proofs follow each node's path: the entry path for a leaf, the
    directory path for a directory node. Those paths are ghost bookkeeping
    (`paths[i]` for node `i`); the source never stores them, but they are
    what makes the node names, the index and the child links agree. */
module TreeShape {
  import opened Paths
  import opened Ecs
  import opened TreeBuilder

  /** Nodes from `b` on form the tree: `b` is the `data` root, every other
      node is inside `data/`, each is named after its path, and only the
      root carries `FileTreeRoot`. */
  ghost predicate Shaped(w: World, paths: seq<Path>, b: nat) {
    |paths| == |w| && b < |w| && paths[b] == RootPath && w[b].treeNode &&
    (forall i :: b < i < |w| ==> InsideData(paths[i])) &&
    (forall i :: b <= i < |w| ==> w[i].name == LabelOf(paths[i])) &&
    (forall i :: b <= i < |w| ==> (w[i].treeRoot <==> i == b))
  }

  /** The index maps each directory path to the one directory node for it,
      and every directory node is indexed under its own path. */
  ghost predicate Indexed(w: World, index: Index, paths: seq<Path>, b: nat) {
    |paths| == |w| &&
    (forall q :: q in index ==> b <= index[q] < |w| && w[index[q]].treeNode && paths[index[q]] == q) &&
    (forall i :: b <= i < |w| && w[i].treeNode ==> paths[i] in index && index[paths[i]] == i)
  }

  /** Only directory nodes have children, every child is a non-root node
      that is not pending, and a child's path extends its parent's by one
      component. */
  ghost predicate ChildEdges(w: World, paths: seq<Path>, b: nat, pending: set<nat>) {
    |paths| == |w| &&
    forall i, j :: b <= i < |w| && 0 <= j < |w[i].children| ==>
      b < w[i].children[j] < |w| && w[i].children[j] !in pending && w[i].treeNode &&
      Pop(paths[w[i].children[j]]) == paths[i]
  }

  /** Every child list is in creation order: strictly increasing ids, so
      siblings appear in the order they were first spawned and none twice. */
  ghost predicate ChildrenInOrder(w: World, b: nat) {
    forall i, j, k :: b <= i < |w| && 0 <= j < k < |w[i].children| ==>
      w[i].children[j] < w[i].children[k]
  }

  /** Every node but the root and the pending ones is a child of the node
      indexed under its parent directory. */
  ghost predicate HasParent(w: World, index: Index, paths: seq<Path>, b: nat, pending: set<nat>) {
    |paths| == |w| &&
    (forall i :: b < i < |w| && i !in pending ==>
       Pop(paths[i]) in index && index[Pop(paths[i])] < |w| && i in w[index[Pop(paths[i])]].children) &&
    (forall e :: e in pending ==> b < e && e + 1 == |w|)
  }

  /** Child links: the three properties above, with `pending` the node
      spawned but not yet attached, which is always the newest one. */
  ghost predicate Linked(w: World, index: Index, paths: seq<Path>, b: nat, pending: set<nat>) {
    ChildEdges(w, paths, b, pending) && ChildrenInOrder(w, b) && HasParent(w, index, paths, b, pending)
  }

  ghost predicate Inv(w: World, index: Index, paths: seq<Path>, b: nat, pending: set<nat>) {
    Shaped(w, paths, b) && Indexed(w, index, paths, b) && Linked(w, index, paths, b, pending)
  }

  /** `add_child` changes no name, marker or path, so the shape and the
      index stay as they were. */
  lemma WithChildKeepsShapeAndIndex(w: World, index: Index, paths: seq<Path>, b: nat, parent: nat, child: nat)
    requires parent < |w|
    ensures Shaped(w, paths, b) ==> Shaped(WithChild(w, parent, child), paths, b)
    ensures Indexed(w, index, paths, b) ==> Indexed(WithChild(w, parent, child), index, paths, b)
  {
  }

  lemma SpawnLeafShape(w: World, index: Index, paths: seq<Path>, b: nat, e: Path)
    requires Shaped(w, paths, b) && Indexed(w, index, paths, b) && InsideData(e)
    ensures Shaped(Spawned(w, LabelOf(e), false, false), paths + [e], b)
    ensures Indexed(Spawned(w, LabelOf(e), false, false), index, paths + [e], b)
  {
    var w' := Spawned(w, LabelOf(e), false, false);
    var paths' := paths + [e];
    assert forall i :: 0 <= i < |w| ==> w'[i] == w[i] && paths'[i] == paths[i];
  }

  lemma SpawnLeafLinks(w: World, index: Index, paths: seq<Path>, b: nat, e: Path)
    requires Linked(w, index, paths, b, {}) && b < |w|
    ensures Linked(Spawned(w, LabelOf(e), false, false), index, paths + [e], b, {|w|})
  {
    var w' := Spawned(w, LabelOf(e), false, false);
    var paths' := paths + [e];
    assert forall i :: 0 <= i < |w| ==> w'[i] == w[i] && paths'[i] == paths[i];
    forall i | b < i < |w'| && i != |w|
      ensures Pop(paths'[i]) in index && index[Pop(paths'[i])] < |w'| && i in w'[index[Pop(paths'[i])]].children
    {
      assert w'[index[Pop(paths[i])]] == w[index[Pop(paths[i])]];
    }
  }

  /** Spawning the leaf for an entry inside `data/` keeps the invariant, with
      the leaf pending. */
  lemma SpawnLeaf(w: World, index: Index, paths: seq<Path>, b: nat, e: Path)
    requires Inv(w, index, paths, b, {}) && InsideData(e)
    ensures Inv(Spawned(w, LabelOf(e), false, false), index, paths + [e], b, {|w|})
  {
    SpawnLeafShape(w, index, paths, b, e);
    SpawnLeafLinks(w, index, paths, b, e);
  }

  lemma OccupiedLinks(w: World, index: Index, paths: seq<Path>, b: nat, e: nat, parent: nat)
    requires Linked(w, index, paths, b, {e}) && b <= parent < |w| && w[parent].treeNode
    requires Pop(paths[e]) in index && index[Pop(paths[e])] == parent && paths[parent] == Pop(paths[e])
    ensures Linked(WithChild(w, parent, e), index, paths, b, {})
  {
    var w' := WithChild(w, parent, e);
    forall i, j | b <= i < |w'| && 0 <= j < |w'[i].children|
      ensures b < w'[i].children[j] < |w'| && w'[i].treeNode &&
              Pop(paths[w'[i].children[j]]) == paths[i]
    {
      if i != parent || j < |w[i].children| {
        assert w'[i].children[j] == w[i].children[j];
      }
    }
    forall i, j, k | b <= i < |w'| && 0 <= j < k < |w'[i].children|
      ensures w'[i].children[j] < w'[i].children[k]
    {
      if i == parent && k == |w[i].children| {
        assert w'[i].children[j] == w[i].children[j];
        assert e + 1 == |w|;
      }
    }
    forall i | b < i < |w'|
      ensures Pop(paths[i]) in index && index[Pop(paths[i])] < |w'| && i in w'[index[Pop(paths[i])]].children
    {
      if i == e {
        assert w'[parent].children[|w[parent].children|] == e;
      } else {
        var q := index[Pop(paths[i])];
        var j :| 0 <= j < |w[q].children| && w[q].children[j] == i;
        assert w'[q].children[j] == i;
      }
    }
  }

  /** Occupied case: the pending node is appended to the indexed parent,
      which is never the node itself. */
  lemma AttachOccupied(w: World, index: Index, paths: seq<Path>, b: nat, e: nat)
    requires Inv(w, index, paths, b, {e}) && Pop(paths[e]) in index
    ensures index[Pop(paths[e])] != e
    ensures Inv(WithChild(w, index[Pop(paths[e])], e), index, paths, b, {})
  {
    var p := Pop(paths[e]);
    var parent := index[p];
    assert paths[parent] == p && |p| < |paths[e]|;
    WithChildKeepsShapeAndIndex(w, index, paths, b, parent, e);
    OccupiedLinks(w, index, paths, b, e, parent);
  }

  lemma VacantShape(w: World, index: Index, paths: seq<Path>, b: nat, e: nat)
    requires Shaped(w, paths, b) && Indexed(w, index, paths, b)
    requires b < e < |w| && Pop(paths[e]) !in index
    ensures var p := Pop(paths[e]);
      Shaped(WithChild(Spawned(w, LabelOf(p), true, false), |w|, e), paths + [p], b) &&
      Indexed(WithChild(Spawned(w, LabelOf(p), true, false), |w|, e), index[p := |w|], paths + [p], b)
  {
    var p := Pop(paths[e]);
    var w0 := Spawned(w, LabelOf(p), true, false);
    var paths' := paths + [p];
    assert p != RootPath by {
      assert paths[b] == RootPath && w[b].treeNode;
    }
    assert InsideData(p) by {
      assert paths[e][..1] == p[..1];
    }
    assert forall i :: 0 <= i < |w| ==> w0[i] == w[i] && paths'[i] == paths[i];
    assert Shaped(w0, paths', b);
    assert Indexed(w0, index[p := |w|], paths', b);
    WithChildKeepsShapeAndIndex(w0, index[p := |w|], paths', b, |w|, e);
  }

  lemma VacantEdges(w: World, paths: seq<Path>, b: nat, e: nat, p: Path)
    requires ChildEdges(w, paths, b, {e})
    requires b < e < |w| && p == Pop(paths[e])
    ensures ChildEdges(WithChild(Spawned(w, LabelOf(p), true, false), |w|, e), paths + [p], b, {|w|})
  {
    var node := |w|;
    var w1 := WithChild(Spawned(w, LabelOf(p), true, false), node, e);
    var paths1 := paths + [p];
    assert w1[node].children == [e] && w1[node].treeNode;
    forall i, j | b <= i < |w1| && 0 <= j < |w1[i].children|
      ensures b < w1[i].children[j] < |w1| && w1[i].children[j] !in {node} && w1[i].treeNode &&
        Pop(paths1[w1[i].children[j]]) == paths1[i]
    {
      if i == node {
        assert w1[i].children[j] == e && paths1[e] == paths[e];
      } else {
        assert w1[i] == w[i] && paths1[i] == paths[i];
        var c := w[i].children[j];
        assert b < c < |w| && paths1[c] == paths[c];
      }
    }
  }

  lemma VacantInOrder(w: World, b: nat, e: nat, p: Path)
    requires ChildrenInOrder(w, b) && b < e < |w|
    ensures ChildrenInOrder(WithChild(Spawned(w, LabelOf(p), true, false), |w|, e), b)
  {
    var node := |w|;
    var w1 := WithChild(Spawned(w, LabelOf(p), true, false), node, e);
    assert w1[node].children == [e];
    forall i, j, k | b <= i < |w1| && 0 <= j < k < |w1[i].children|
      ensures w1[i].children[j] < w1[i].children[k]
    {
      assert i != node;
      assert w1[i] == w[i];
    }
  }

  lemma VacantAttached(w: World, index: Index, paths: seq<Path>, b: nat, e: nat, p: Path)
    requires HasParent(w, index, paths, b, {e}) && IndexInWorld(w, index)
    requires b < e < |w| && p == Pop(paths[e]) && p !in index
    ensures HasParent(WithChild(Spawned(w, LabelOf(p), true, false), |w|, e), index[p := |w|], paths + [p], b, {|w|})
  {
    var node := |w|;
    var w1 := WithChild(Spawned(w, LabelOf(p), true, false), node, e);
    var index1 := index[p := node];
    var paths1 := paths + [p];
    assert w1[node].children == [e];
    forall i | b < i < |w1| && i != node
      ensures Pop(paths1[i]) in index1 && index1[Pop(paths1[i])] < |w1| && i in w1[index1[Pop(paths1[i])]].children
    {
      if i != e {
        assert w1[i] == w[i] && paths1[i] == paths[i];
        var q := Pop(paths[i]);
        assert q != p && index1[q] == index[q];
        assert w1[index[q]] == w[index[q]];
      }
    }
  }

  lemma VacantLinks(w: World, index: Index, paths: seq<Path>, b: nat, e: nat)
    requires Linked(w, index, paths, b, {e}) && IndexInWorld(w, index)
    requires b < e < |w| && Pop(paths[e]) !in index
    ensures var p := Pop(paths[e]);
      Linked(WithChild(Spawned(w, LabelOf(p), true, false), |w|, e), index[p := |w|], paths + [p], b, {|w|})
  {
    VacantEdges(w, paths, b, e, Pop(paths[e]));
    VacantInOrder(w, b, e, Pop(paths[e]));
    VacantAttached(w, index, paths, b, e, Pop(paths[e]));
  }

  /** Vacant case: the new directory node for the parent path takes the
      pending node as its only child, is indexed, and becomes the pending
      node in turn. */
  lemma AttachVacant(w: World, index: Index, paths: seq<Path>, b: nat, e: nat)
    requires Inv(w, index, paths, b, {e}) && Pop(paths[e]) !in index
    ensures var p := Pop(paths[e]);
      Inv(WithChild(Spawned(w, LabelOf(p), true, false), |w|, e), index[p := |w|], paths + [p], b, {|w|})
  {
    VacantShape(w, index, paths, b, e);
    VacantLinks(w, index, paths, b, e);
  }

  /** `add_node_to_parent` on a pending node inside `data/` never panics: it
      attaches every node, and the directory nodes it spawns are those for
      the paths `Created` lists, in that order. */
  lemma {:induction false} AttachKeepsInv(w: World, index: Index, paths: seq<Path>, b: nat, e: nat)
    requires Inv(w, index, paths, b, {e})
    ensures e < |w| && IndexInWorld(w, index)
    ensures var r := AttachToParent(w, index, e, paths[e]);
      r.Attached? && Inv(r.world, r.index, paths + Created(index.Keys, paths[e]), b, {})
    decreases |paths[e]|, 1
  {
    if Pop(paths[e]) in index {
      assert paths + Created(index.Keys, paths[e]) == paths by {
        assert Created(index.Keys, paths[e]) == [];
      }
      AttachOccupied(w, index, paths, b, e);
    } else {
      AttachVacantKeepsInv(w, index, paths, b, e);
    }
  }

  lemma {:induction false} AttachVacantKeepsInv(w: World, index: Index, paths: seq<Path>, b: nat, e: nat)
    requires Inv(w, index, paths, b, {e}) && Pop(paths[e]) !in index
    requires e < |w| && IndexInWorld(w, index)
    ensures var r := AttachToParent(w, index, e, paths[e]);
      r.Attached? && Inv(r.world, r.index, paths + Created(index.Keys, paths[e]), b, {})
    decreases |paths[e]|, 0
  {
    var p := Pop(paths[e]);
    AttachVacant(w, index, paths, b, e);
    var node := |w|;
    var w1 := WithChild(Spawned(w, LabelOf(p), true, false), node, e);
    var paths1 := paths + [p];
    assert paths1[node] == p;
    AttachKeepsInv(w1, index[p := node], paths1, b, node);
    VacantStep(w, index, paths, e);
  }

  /** The vacant case of `add_node_to_parent` and of `Created` take the
      same step: spawn the parent directory, then carry on from it. */
  lemma VacantStep(w: World, index: Index, paths: seq<Path>, e: nat)
    requires e < |w| && e < |paths| && IndexInWorld(w, index) && Pop(paths[e]) !in index
    ensures var p := Pop(paths[e]);
      var w1 := WithChild(Spawned(w, LabelOf(p), true, false), |w|, e);
      AttachToParent(w, index, e, paths[e]) == AttachToParent(w1, index[p := |w|], |w|, p) &&
      paths + Created(index.Keys, paths[e]) == paths + [p] + Created(index[p := |w|].Keys, p)
  {
    var p := Pop(paths[e]);
    assert index[p := |w|].Keys == index.Keys + {p};
    assert Created(index.Keys, paths[e]) == [p] + Created(index.Keys + {p}, p);
    assert paths + ([p] + Created(index.Keys + {p}, p)) == paths + [p] + Created(index.Keys + {p}, p);
  }

  /** The node paths after the entry loop: for each entry, its leaf and then
      the directories its attachment creates. */
  ghost function BuiltPaths(paths: seq<Path>, keys: set<Path>, entries: seq<Path>): seq<Path>
    decreases |entries|
  {
    if entries == [] then paths
    else
      var e := entries[0];
      BuiltPaths(paths + [e] + Created(keys, e), keys + Elems(Created(keys, e)), entries[1..])
  }

  /** One round of the entry loop: the leaf for an entry inside `data/` is
      spawned and attached without a panic, and the invariant holds again
      with nothing pending. */
  lemma EntryKeepsInv(w: World, index: Index, paths: seq<Path>, b: nat, e: Path)
    requires Inv(w, index, paths, b, {}) && InsideData(e)
    ensures IndexInWorld(w, index)
    ensures var r := AttachToParent(Spawned(w, LabelOf(e), false, false), index, |w|, e);
      r.Attached? && Inv(r.world, r.index, paths + [e] + Created(index.Keys, e), b, {})
  {
    SpawnLeaf(w, index, paths, b, e);
    assert (paths + [e])[|w|] == e;
    AttachKeepsInv(Spawned(w, LabelOf(e), false, false), index, paths + [e], b, |w|);
  }

  /** One round of the entry loop followed by the rest of it. */
  lemma AddEntriesUnfold(w: World, index: Index, entries: seq<Path>)
    requires IndexInWorld(w, index) && entries != []
    requires AttachToParent(Spawned(w, LabelOf(entries[0]), false, false), index, |w|, entries[0]).Attached?
    ensures var r1 := AttachToParent(Spawned(w, LabelOf(entries[0]), false, false), index, |w|, entries[0]);
      AddEntries(w, index, entries) == AddEntries(r1.world, r1.index, entries[1..]) &&
      r1.index.Keys == index.Keys + Elems(Created(index.Keys, entries[0]))
  {
    AttachIndexes(Spawned(w, LabelOf(entries[0]), false, false), index, |w|, entries[0]);
  }

  /** The entry loop and the path bookkeeping take the same round. */
  lemma EntryRound(w: World, index: Index, paths: seq<Path>, entries: seq<Path>)
    requires IndexInWorld(w, index) && entries != []
    requires AttachToParent(Spawned(w, LabelOf(entries[0]), false, false), index, |w|, entries[0]).Attached?
    ensures var e := entries[0];
      var r1 := AttachToParent(Spawned(w, LabelOf(e), false, false), index, |w|, e);
      AddEntries(w, index, entries) == AddEntries(r1.world, r1.index, entries[1..]) &&
      BuiltPaths(paths, index.Keys, entries) == BuiltPaths(paths + [e] + Created(index.Keys, e), r1.index.Keys, entries[1..])
  {
    AddEntriesUnfold(w, index, entries);
  }

  /** The entry loop over entries that all lie inside `data/` never panics
      and keeps the invariant. */
  lemma {:induction false} AddEntriesKeepsInv(w: World, index: Index, paths: seq<Path>, b: nat, entries: seq<Path>)
    requires Inv(w, index, paths, b, {})
    requires forall k :: 0 <= k < |entries| ==> InsideData(entries[k])
    requires IndexInWorld(w, index)
    ensures var r := AddEntries(w, index, entries);
      r.Attached? && Inv(r.world, r.index, BuiltPaths(paths, index.Keys, entries), b, {})
    decreases |entries|
  {
    if entries != [] {
      var e := entries[0];
      assert forall k :: 0 <= k < |entries| - 1 ==> InsideData(entries[1..][k]);
      EntryKeepsInv(w, index, paths, b, e);
      var r1 := AttachToParent(Spawned(w, LabelOf(e), false, false), index, |w|, e);
      AddEntriesKeepsInv(r1.world, r1.index, paths + [e] + Created(index.Keys, e), b, entries[1..]);
      EntryRound(w, index, paths, entries);
    }
  }

  /** When the entry loop finishes, exactly the directories that were indexed
      before plus every directory containing an entry are indexed, and the
      key set stays closed under taking the parent. */
  lemma {:induction false} AddEntriesKeys(w: World, index: Index, entries: seq<Path>)
    requires IndexInWorld(w, index) && DirKeys(index.Keys) && PrefixClosed(index.Keys)
    requires forall k :: 0 <= k < |entries| ==> InsideData(entries[k])
    requires AddEntries(w, index, entries).Attached?
    ensures var r := AddEntries(w, index, entries);
      r.index.Keys == index.Keys + AllSubdirs(entries) &&
      DirKeys(r.index.Keys) && PrefixClosed(r.index.Keys)
    decreases |entries|
  {
    if entries != [] {
      var e := entries[0];
      var w' := Spawned(w, LabelOf(e), false, false);
      var r1 := AttachToParent(w', index, |w|, e);
      AddEntriesUnfold(w, index, entries);
      CreatedDirs(index.Keys, e);
      AddSubdirsKeepsClosed(index.Keys, e);
      AddEntriesKeys(r1.world, r1.index, entries[1..]);
    }
  }

  /** The path bookkeeping for a whole build on top of `w`: nothing for the
      existing entities, `data` for the root, then the spawned nodes. */
  ghost function TreePaths(w: World, entries: seq<Path>): seq<Path> {
    BuiltPaths(seq(|w|, _ => []) + [RootPath], {RootPath}, entries)
  }

  /** The builder's main guarantee: when every entry lies inside `data/`,
      `open_grf` never panics, leaves the existing world as it was, indexes
      `data` and exactly the directories that contain an entry, and the
      nodes from the new root on satisfy the invariant with nothing
      pending: every node but the root has its parent directory's node as
      parent, only directories have children, and names follow paths. */
  lemma BuildTreeShape(w: World, entries: seq<Path>)
    requires forall k :: 0 <= k < |entries| ==> InsideData(entries[k])
    ensures var r := BuildTree(w, entries);
      r.Attached? && r.world[..|w|] == w &&
      r.index.Keys == {RootPath} + AllSubdirs(entries) &&
      Inv(r.world, r.index, TreePaths(w, entries), |w|, {})
  {
    var s := Seed(w);
    SeedInv(w);
    AddEntriesKeepsInv(s.world, s.index, seq(|w|, _ => []) + [RootPath], |w|, entries);
    AddEntriesKeys(s.world, s.index, entries);
    AddEntriesFrame(s.world, s.index, entries, |w|);
    assert s.world[..|w|] == w;
  }

  /** Seeding makes the root the only tree node, indexed under `data`. */
  lemma SeedInv(w: World)
    ensures var s := Seed(w);
      Inv(s.world, s.index, seq(|w|, _ => []) + [RootPath], |w|, {}) &&
      DirKeys(s.index.Keys) && PrefixClosed(s.index.Keys) && IndexFrom(s.index, |w|)
  {
    assert Seed(w).world[|w|] == Node("data", true, true, []);
    assert LabelOf(RootPath) == "data";
  }
}
