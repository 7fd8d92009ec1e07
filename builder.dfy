/** The directory-tree builder of `open_grf` (src/observers.rs), on values.

    `AttachToParent` is `add_node_to_parent`, `AddEntries` is the loop over
    the archive's entries and `BuildTree` is the whole build, seeding
    included. The class in explorer.dfy runs the same steps in place and is
    proved to produce exactly these results. */
module TreeBuilder {
  import opened Paths
  import opened Ecs

  /** `file_entity_map`: directory path to the entity that stands for it. */
  type Index = map<Path, nat>

  /** The result of running builder code: the world and index it leaves, or
      the panic `add_child` raises when asked to make an entity its own
      child, with the world as it was at that point. */
  datatype Step = Attached(world: World, index: Index) | Panicked(world: World)

  ghost predicate IndexInWorld(w: World, index: Index) {
    forall q :: q in index ==> index[q] < |w|
  }

  /** `add_node_to_parent(entity, path)`: pop `path`; if the parent directory
      is indexed, `entity` becomes its last child; otherwise a new directory
      node named after the parent is spawned with `entity` as its child,
      indexed, and attached one level up in turn. The recursion ends for
      every path: a path that shrinks to the empty one indexes it, and the
      next call finds the node it just made and would attach that node to
      itself, which panics. */
  function AttachToParent(w: World, index: Index, entity: nat, path: Path): (r: Step)
    requires entity < |w| && IndexInWorld(w, index)
    ensures Grows(w, r.world)
    ensures forall i :: |w| <= i < |r.world| ==> r.world[i].treeNode && !r.world[i].treeRoot
    ensures r.Attached? ==> IndexInWorld(r.world, r.index)
    decreases |path|, if Pop(path) in index then 0 else 1
  {
    var p := Pop(path);
    if p in index then
      if index[p] == entity then Panicked(w)
      else Attached(WithChild(w, index[p], entity), index)
    else
      var node := |w|;
      var w' := WithChild(Spawned(w, LabelOf(p), true, false), node, entity);
      var r := AttachToParent(w', index[p := node], node, p);
      GrowsTransitive(w, w', r.world);
      r
  }

  /** What `add_node_to_parent` does to the index: it keeps every entry and
      adds exactly the directories `Created` lists, one new node for each. */
  lemma {:induction false} AttachIndexes(w: World, index: Index, entity: nat, path: Path)
    requires entity < |w| && IndexInWorld(w, index)
    ensures var r := AttachToParent(w, index, entity, path);
      r.Attached? ==>
        (forall q :: q in index ==> q in r.index && r.index[q] == index[q]) &&
        r.index.Keys == index.Keys + Elems(Created(index.Keys, path)) &&
        |r.world| == |w| + |Created(index.Keys, path)|
    decreases |path|, if Pop(path) in index then 0 else 1
  {
    var p := Pop(path);
    if p !in index {
      var node := |w|;
      var w' := WithChild(Spawned(w, LabelOf(p), true, false), node, entity);
      AttachIndexes(w', index[p := node], node, p);
      assert index[p := node].Keys == index.Keys + {p};
      assert Created(index.Keys, path) == [p] + Created(index[p := node].Keys, p);
    }
  }

  /** Every index entry points at node `b` or later. */
  ghost predicate IndexFrom(index: Index, b: nat) {
    forall q :: q in index ==> b <= index[q]
  }

  /** `add_node_to_parent` only appends to the child lists of indexed
      directory nodes and of nodes it spawns itself, so the entities below
      every indexed node and below `entity` are left exactly as they were. */
  lemma {:induction false} AttachFrame(w: World, index: Index, entity: nat, path: Path, b: nat)
    requires entity < |w| && IndexInWorld(w, index)
    requires b <= entity && IndexFrom(index, b)
    ensures AttachToParent(w, index, entity, path).world[..b] == w[..b]
    ensures AttachToParent(w, index, entity, path).Attached? ==>
      IndexFrom(AttachToParent(w, index, entity, path).index, b)
    decreases |path|, if Pop(path) in index then 0 else 1
  {
    var p := Pop(path);
    if p !in index {
      var node := |w|;
      var w' := WithChild(Spawned(w, LabelOf(p), true, false), node, entity);
      AttachFrame(w', index[p := node], node, p, b);
      assert w'[..b] == w[..b];
    } else if index[p] != entity {
      assert WithChild(w, index[p], entity)[..b] == w[..b];
    }
  }

  /** The loop of `open_grf` over the entries, in iteration order: spawn a
      leaf named after the entry and attach it under its directory. The
      first panic ends the build. */
  function AddEntries(w: World, index: Index, entries: seq<Path>): (r: Step)
    requires IndexInWorld(w, index)
    ensures Grows(w, r.world)
    ensures r.Attached? ==> IndexInWorld(r.world, r.index)
    decreases |entries|
  {
    if entries == [] then Attached(w, index)
    else
      var leaf := |w|;
      var w' := Spawned(w, LabelOf(entries[0]), false, false);
      match AttachToParent(w', index, leaf, entries[0])
      case Panicked(w'') => Panicked(w'')
      case Attached(w'', index') =>
        var r := AddEntries(w'', index', entries[1..]);
        GrowsTransitive(w, w', w'');
        GrowsTransitive(w, w'', r.world);
        r
  }

  /** The seeding of `open_grf`: a root entity named "data" with both
      markers, and an index whose only key is `data`, mapped to it. */
  function Seed(w: World): (r: Step)
    ensures r.Attached? && r.index.Keys == {RootPath} && r.index[RootPath] == |w|
    ensures |r.world| == |w| + 1 && r.world[..|w|] == w
    ensures r.world[|w|].name == "data" && r.world[|w|].treeNode && r.world[|w|].treeRoot
    ensures r.world[|w|].children == []
  {
    Attached(Spawned(w, "data", true, true), map[RootPath := |w|])
  }

  /** The entry loop leaves the entities below `b` alone. */
  lemma {:induction false} AddEntriesFrame(w: World, index: Index, entries: seq<Path>, b: nat)
    requires IndexInWorld(w, index) && b <= |w| && IndexFrom(index, b)
    ensures AddEntries(w, index, entries).world[..b] == w[..b]
    decreases |entries|
  {
    if entries != [] {
      var w' := Spawned(w, LabelOf(entries[0]), false, false);
      AttachFrame(w', index, |w|, entries[0], b);
      var r1 := AttachToParent(w', index, |w|, entries[0]);
      if r1.Attached? {
        AddEntriesFrame(r1.world, r1.index, entries[1..], b);
      }
      assert w'[..b] == w[..b];
    }
  }

  /** The whole build of `open_grf` for an archive whose entries are
      `entries`, on top of the existing world `w`. */
  function BuildTree(w: World, entries: seq<Path>): (r: Step)
    ensures Grows(w, r.world)
  {
    var s := Seed(w);
    var r := AddEntries(s.world, s.index, entries);
    GrowsTransitive(w, s.world, r.world);
    r
  }
}
