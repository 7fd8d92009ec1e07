/** The part of the entity-component world the explorer uses, as an arena.

    An entity is an index into the arena. Each node carries its `Name`, the
    two marker components `FileTreeNode` (a directory, drawn as a collapsible
    section) and `FileTreeRoot`, and its `Children` list in stored order (an
    entity without a `Children` component has the empty list). Commands are
    applied immediately and in the order they are issued; entities are
    allocated sequentially. */
module Ecs {

  datatype Node = Node(name: string, treeNode: bool, treeRoot: bool, children: seq<nat>)

  type World = seq<Node>

  /** `commands.spawn(..)`: a new entity with no children, at the next id. */
  function Spawned(w: World, name: string, treeNode: bool, treeRoot: bool): (r: World)
    ensures |r| == |w| + 1 && r[..|w|] == w
    ensures r[|w|] == Node(name, treeNode, treeRoot, [])
  {
    w + [Node(name, treeNode, treeRoot, [])]
  }

  /** `add_child`: `child` becomes the last entry of `parent`'s children;
      every other entity, and everything else about `parent`, is unchanged. */
  function WithChild(w: World, parent: nat, child: nat): (r: World)
    requires parent < |w|
    ensures |r| == |w|
    ensures r[parent] == w[parent].(children := w[parent].children + [child])
    ensures forall i :: 0 <= i < |w| && i != parent ==> r[i] == w[i]
  {
    w[parent := w[parent].(children := w[parent].children + [child])]
  }

  /** `after` extends `before`: the same entities in front, each with the same
      name and markers, and each child list only appended to. */
  ghost predicate Grows(before: World, after: World) {
    |before| <= |after| &&
    forall i :: 0 <= i < |before| ==>
      after[i].name == before[i].name && after[i].treeNode == before[i].treeNode &&
      after[i].treeRoot == before[i].treeRoot &&
      |before[i].children| <= |after[i].children| &&
      after[i].children[..|before[i].children|] == before[i].children
  }

  lemma GrowsTransitive(a: World, b: World, c: World)
    requires Grows(a, b) && Grows(b, c)
    ensures Grows(a, c)
  {
    forall i | 0 <= i < |a|
      ensures |a[i].children| <= |c[i].children| && c[i].children[..|a[i].children|] == a[i].children
    {
      assert c[i].children[..|a[i].children|] == c[i].children[..|b[i].children|][..|a[i].children|];
    }
  }

  /** The entities that carry the `FileTreeRoot` marker, in id order: what
      `Query<Entity, With<FileTreeRoot>>` yields. Each yielded id is an
      existing entity, and none is yielded twice. */
  function RootsOf(w: World): (r: seq<nat>)
    ensures forall k :: 0 <= k < |r| ==> r[k] < |w|
    ensures forall j, k :: 0 <= j < k < |r| ==> r[j] < r[k]
    decreases |w|
  {
    if w == [] then []
    else RootsOf(w[..|w| - 1]) + (if w[|w| - 1].treeRoot then [|w| - 1] else [])
  }

  /** Every entity `RootsOf` lists exists and carries the marker. */
  lemma {:induction false} RootsAreMarked(w: World)
    ensures forall k :: 0 <= k < |RootsOf(w)| ==> RootsOf(w)[k] < |w| && w[RootsOf(w)[k]].treeRoot
    decreases |w|
  {
    if w != [] {
      var w' := w[..|w| - 1];
      RootsAreMarked(w');
      var r := RootsOf(w);
      forall k | 0 <= k < |r| ensures r[k] < |w| && w[r[k]].treeRoot {
        if k < |RootsOf(w')| {
          assert r[k] == RootsOf(w')[k] && w'[r[k]] == w[r[k]];
        }
      }
    }
  }

  /** Every entity with the marker is listed by `RootsOf`. */
  lemma {:induction false} MarkedAreRoots(w: World)
    ensures forall i :: 0 <= i < |w| && w[i].treeRoot ==> i in RootsOf(w)
    decreases |w|
  {
    if w != [] {
      var w' := w[..|w| - 1];
      MarkedAreRoots(w');
      forall i | 0 <= i < |w| && w[i].treeRoot ensures i in RootsOf(w) {
        if i < |w'| {
          assert w'[i] == w[i];
        }
      }
    }
  }

  /** `RootsOf` looks only at the `FileTreeRoot` markers. */
  lemma {:induction false} RootsSameMarkers(w: World, w2: World)
    requires |w| == |w2| && forall i :: 0 <= i < |w| ==> w[i].treeRoot == w2[i].treeRoot
    ensures RootsOf(w) == RootsOf(w2)
    decreases |w|
  {
    if w != [] {
      RootsSameMarkers(w[..|w| - 1], w2[..|w2| - 1]);
    }
  }

  /** Growing the world with entities that are not roots leaves the roots
      as they were. */
  lemma {:induction false} RootsOfGrows(w: World, w2: World)
    requires Grows(w, w2) && forall i :: |w| <= i < |w2| ==> !w2[i].treeRoot
    ensures RootsOf(w2) == RootsOf(w)
    decreases |w2|
  {
    if |w2| == |w| {
      RootsSameMarkers(w, w2);
    } else {
      RootsOfGrows(w, w2[..|w2| - 1]);
    }
  }
}
