/** The explorer's state and the steps that change it, in place.

    `Explorer` holds the entity world and the `OpenGrf` resource. `Open` is
    the `open_grf` observer: it spawns and links entities one command at a
    time, threading the directory index through `AddNodeToParent` as the
    source threads its `HashMap` through `add_node_to_parent`. `Draw` is the
    side panel of `ui_example_system`. Each method is proved to do exactly
    what the value-level definitions in builder.dfy and walker.dfy describe,
    so the lemmas proved there hold of the class as well. */
module Explorer {
  import opened Paths
  import opened Ecs
  import opened TreeBuilder
  import opened TreeShape
  import opened Walker
  import opened TreeFacts

  /** The `OpenGrf` resource: the archive's display name and its entries. */
  datatype OpenGrf = OpenGrf(filename: string, entries: seq<Path>)

  /** How a `LoadGrf` trigger ended: the archive could not be read (the
      observer logs and returns), the build panicked in `add_child`, or the
      tree was built and the resource inserted. */
  datatype OpenOutcome = Unreadable | BuildPanicked | Opened

  const Heading: string := "Ragnarok Explorer"
  const NoFileOpen: string := "No file open"

  class Explorer {
    var world: World
    var openGrf: Option<OpenGrf>
    /** A bound on the nesting below the tree root, for the walk's
        termination argument; it has no counterpart in the source. */
    ghost var height: nat

    /** When exactly one root exists, the walk from it terminates. */
    ghost predicate Valid()
      reads this
    {
      RootWalkable(world, height)
    }

    /** App start-up: no entities of the explorer's and no archive open. */
    constructor()
      ensures world == [] && openGrf == None && Valid()
    {
      world := [];
      openGrf := None;
      height := 0;
    }

    /** `commands.spawn(..)`: the new entity's id is the next free one. */
    method Spawn(name: string, treeNode: bool, treeRoot: bool) returns (id: nat)
      modifies this
      ensures id == |old(world)| && world == Spawned(old(world), name, treeNode, treeRoot)
      ensures openGrf == old(openGrf) && height == old(height)
    {
      id := |world|;
      world := world + [Node(name, treeNode, treeRoot, [])];
    }

    /** `add_child`: appends `child` to `parent`'s children, or refuses (the
        panic) when asked to make an entity its own child. */
    method AddChild(parent: nat, child: nat) returns (ok: bool)
      requires parent < |world|
      modifies this
      ensures ok <==> parent != child
      ensures world == if ok then WithChild(old(world), parent, child) else old(world)
      ensures openGrf == old(openGrf) && height == old(height)
    {
      if parent == child {
        return false;
      }
      var node := world[parent];
      world := world[parent := node.(children := node.children + [child])];
      return true;
    }

    /** `add_node_to_parent(entity, path)`, on the world in place, with the
        index passed in and handed back updated: the step `AttachToParent`
        describes, including where it panics. */
    method AddNodeToParent(index: Index, entity: nat, path: Path) returns (panicked: bool, index': Index)
      requires entity < |world| && IndexInWorld(world, index)
      modifies this
      ensures AttachToParent(old(world), index, entity, path) ==
        if panicked then Panicked(world) else Attached(world, index')
      ensures openGrf == old(openGrf) && height == old(height)
      decreases |path|, if Pop(path) in index then 0 else 1
    {
      var parentPath := Pop(path);
      if parentPath in index {
        var ok := AddChild(index[parentPath], entity);
        panicked, index' := !ok, index;
      } else {
        var node := Spawn(LabelOf(parentPath), true, false);
        var ok := AddChild(node, entity);
        index' := index[parentPath := node];
        panicked, index' := AddNodeToParent(index', node, parentPath);
      }
    }

    /** The `for` loop of `open_grf`: for each entry in iteration order,
        spawn its leaf and attach it with `AddNodeToParent`. It stops at the
        first panic; otherwise it hands back the final index. */
    method AddEntriesInPlace(index: Index, entries: seq<Path>) returns (panicked: bool, index': Index)
      requires IndexInWorld(world, index)
      modifies this
      ensures AddEntries(old(world), index, entries) ==
        if panicked then Panicked(world) else Attached(world, index')
      ensures openGrf == old(openGrf) && height == old(height)
    {
      index' := index;
      var i := 0;
      while i < |entries|
        invariant 0 <= i <= |entries|
        invariant IndexInWorld(world, index') && openGrf == old(openGrf) && height == old(height)
        invariant AddEntries(old(world), index, entries) == AddEntries(world, index', entries[i..])
      {
        var entry := entries[i];
        assert entries[i..][0] == entry && entries[i..][1..] == entries[i + 1..];
        var leaf := Spawn(LabelOf(entry), false, false);
        panicked, index' := AddNodeToParent(index', leaf, entry);
        if panicked {
          return;
        }
        i := i + 1;
      }
      assert entries[i..] == [];
      panicked := false;
    }

    /** The building part of `open_grf`: seed the index with a new `data`
        root, then run the entry loop. It builds exactly what `BuildTree`
        describes; a build that panics is undone, since the observer's
        commands are never applied. */
    method BuildInPlace(entries: seq<Path>) returns (panicked: bool)
      modifies this
      ensures panicked <==> BuildTree(old(world), entries).Panicked?
      ensures world == if panicked then old(world) else BuildTree(old(world), entries).world
      ensures !panicked ==> RootWalkable(world, MaxLen(TreePaths(old(world), entries)))
      ensures openGrf == old(openGrf) && height == old(height)
    {
      var before := world;
      var root := Spawn("data", true, true);
      var index: Index := map[RootPath := root];
      assert Seed(before) == Attached(world, index);
      var index';
      panicked, index' := AddEntriesInPlace(index, entries);
      if panicked {
        world := before;
      } else {
        BuildTreeDrawable(before, entries);
      }
    }

    /** The `open_grf` observer for an archive at `eventPath` whose entries
        are `archive` (`None` when it cannot be read): build the tree and,
        unless the build panicked, make the archive the open one, named
        after the file name of `eventPath` or "Unnamed". */
    method Open(eventPath: Path, archive: Option<seq<Path>>) returns (outcome: OpenOutcome)
      requires Valid()
      modifies this
      ensures Valid()
      ensures outcome ==
        if archive.None? then Unreadable
        else if BuildTree(old(world), archive.value).Panicked? then BuildPanicked
        else Opened
      ensures world == if outcome == Opened then BuildTree(old(world), archive.value).world else old(world)
      ensures openGrf == if outcome == Opened then Some(OpenGrf(LabelOf(eventPath), archive.value)) else old(openGrf)
    {
      if archive.None? {
        return Unreadable;
      }
      var filename := LabelOf(eventPath);
      var panicked := BuildInPlace(archive.value);
      if panicked {
        return BuildPanicked;
      }
      openGrf := Some(OpenGrf(filename, archive.value));
      height := MaxLen(TreePaths(old(world), archive.value));
      return Opened;
    }

    /** The side panel of `ui_example_system`: the heading, the label next
        to the "Open Grf" button (the open archive's name, or "No file
        open"), and the file tree, drawn only while an archive is open and
        exactly one `FileTreeRoot` exists. The panel only reads the state. */
    method Draw() returns (heading: string, fileLabel: string, tree: Option<seq<RenderEvent>>)
      requires Valid()
      ensures heading == Heading
      ensures fileLabel == if openGrf.Some? then openGrf.value.filename else NoFileOpen
      ensures tree.Some? <==> openGrf.Some? && |RootsOf(world)| == 1
      ensures tree.Some? ==> tree.value == Walk(world, RootsOf(world)[0], height)
    {
      heading := Heading;
      fileLabel := if openGrf.Some? then openGrf.value.filename else NoFileOpen;
      tree := None;
      if openGrf.Some? {
        var roots := RootsOf(world);
        if |roots| == 1 {
          tree := Some(Walk(world, roots[0], height));
        }
      }
    }
  }
}
