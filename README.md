# Ragnarok Explorer: the file tree, modelled in Dafny

Ragnarok Explorer is a small Bevy/egui desktop app for browsing a GRF archive,
the packed-file format of Ragnarok Online. When the user presses "Open Grf", a
`LoadGrf` event is triggered. The `open_grf` observer reads the archive. It
spawns one `Name`d entity for every entry (a leaf), plus one entity for every
directory that holds an entry (a `FileTreeNode`). Directory entities are
created on demand by `add_node_to_parent`, which keeps a map from directory path
to entity. The whole tree hangs below a `data` root that carries
`FileTreeRoot`. Once the tree is built, the observer inserts the `OpenGrf`
resource, which holds the archive's display name. Every frame, the side panel
shows the heading, the open archive's name (or "No file open") and the tree.
The tree is drawn only while an archive is open and exactly one
`FileTreeRoot` exists. `grf_file_tree` draws it recursively: a collapsing
section for a `FileTreeNode`, with its children in stored order, and a plain
label for anything else.

The project is organised as follows:

- **Paths (`paths.dfy`).** A path is a sequence of components. A component
  either decodes to a string or does not. A component that does not decode
  keeps its raw bytes, so two different undecodable names are two different
  index keys, as they are in the `HashMap`. The module models `PathBuf::pop`,
  `file_name().and_then(to_str)` and the "Unnamed" fallback.
- **The world (`ecs.dfy`).** The entity world is an arena of nodes. Entity ids
  are positions in the arena; spawning appends a node. `add_child` appends to a
  child list. `RootsOf` is the `FileTreeRoot` query.
- **The builder (`builder.dfy`).** It is written as functions on values:
  `AttachToParent` is `add_node_to_parent`, `AddEntries` is the entry loop, and
  `BuildTree` is the whole observer.
- **Builder proofs (`tree_shape.dfy`, `tree_facts.dfy`).** These hold the
  invariants the builder keeps and what follows from them:
  - the panic condition;
  - tree shape and the index;
  - directory and leaf counts;
  - roots;
  - termination of the walk.
- **What gets drawn (`tree_walk.dfy`).** These proofs connect the builder to
  the walker. The walk from a freshly built root reaches every entity the build
  made exactly once, so every entry of the archive is drawn as one label.
- **The walker (`walker.dfy`).** `grf_file_tree` is a function from the world
  to the sequence of widgets it asks egui for. The walk covers the fully
  expanded tree: egui runs a collapsing section's body, and with it the
  recursion into the children, only while the section is open.
- **The app state (`explorer.dfy`).** The class `Explorer` holds the world and
  the `OpenGrf` resource. `Open` runs the observer in place, one spawn and one
  `add_child` at a time. `Draw` is the side panel. Each method is proved equal
  to the value-level definitions, so every lemma about those definitions holds
  of the class.

Some things in the code are fixed points of the model:

- **The root key.** The root is indexed under the one-component path `data`
  (src/observers.rs:29).
- **Entries outside `data/`.** For an entry whose path does not begin with
  `data/`, `add_node_to_parent` pops all the way down to the empty path and
  indexes a node for it. The next call finds that node under the empty path
  and asks it to become its own child, and Bevy's `add_child` panics on that.
  The model proves that the build panics exactly when some entry is not
  strictly inside `data/` (`TreeFacts.BuildTreeAttachedIff`).
- **Leaves versus sections.** The walker chooses between a section and a label
  by the `FileTreeNode` marker, not by whether the entity has children. A
  directory with no children is still drawn as an (empty) section.
- **A second open.** Opening a second archive keeps the first tree and adds a
  second `FileTreeRoot`. From then on the panel shows the new file name but
  draws no tree (`TreeFacts.SecondBuildTwoRoots` with `Explorer.Explorer.Draw`).

## Model

| member | source | states |
|---|---|---|
| `Paths.Pop` | src/observers.rs:62 | Popping a non-empty path drops exactly its last component; popping the empty path leaves it empty |
| `Paths.FileName` | src/observers.rs:65-67 | A file name exists exactly when the path is non-empty and its last component decodes, and it is that component's text |
| `Paths.LabelOf` | src/observers.rs:35-38 | The label is the last component when it decodes, and "Unnamed" otherwise (the empty path included) |
| `Paths.CreatedDirs` | src/observers.rs:62-75 | For an entry inside `data/`, and with a parent-closed key set, the directories the recursion creates add exactly the entry's missing ancestor directories to the keys |
| `Paths.CreatedFresh` | src/observers.rs:63-74 | Each directory the recursion creates was not indexed before and lies inside `data/`; they are created deepest first, one level shorter each time, so none is created twice |
| `Ecs.Spawned` | src/observers.rs:40 | Spawning appends one entity with the given name and markers, and with no children, at the next id; existing entities are unchanged |
| `Ecs.WithChild` | src/observers.rs:77 | `add_child` appends the child to the end of the parent's child list and changes nothing else |
| `Ecs.RootsOf` | src/main.rs:89 | The query yields only existing entities, each once, in increasing id order. Which entities it yields is stated by `Ecs.RootsAreMarked` and `Ecs.MarkedAreRoots` |
| `Ecs.RootsAreMarked` | src/main.rs:117 | Every entity the `FileTreeRoot` query yields exists and carries the marker |
| `Ecs.MarkedAreRoots` | src/main.rs:117 | Every entity carrying `FileTreeRoot` is yielded by the query |
| `Ecs.RootsOfGrows` | src/main.rs:117 | Adding entities without the marker, or adding children, leaves the query's result unchanged |
| `TreeBuilder.AttachToParent` | src/observers.rs:56-80 | The recursion terminates on every path. It only appends entities and child links. Every entity it spawns is a `FileTreeNode` without `FileTreeRoot`. The index it returns points into the world |
| `TreeBuilder.AttachIndexes` | src/observers.rs:63-75 | The recursion keeps every index entry. It adds exactly the directories it creates, one new entity for each |
| `TreeBuilder.AttachFrame` | src/observers.rs:69-77 | Entities older than every index entry and than the attached entity are left exactly as they were |
| `TreeBuilder.AddEntries` | src/observers.rs:34-48 | The entry loop only appends entities and child links; when it does not panic, its index points into the world |
| `TreeBuilder.Seed` | src/observers.rs:27-33 | Before any entry, the index holds only `data`, mapped to a new entity named "data" that has both markers and no children |
| `TreeBuilder.BuildTree` | src/observers.rs:27-48 | Its own contract says only that the build appends entities and child links (`Grows`). What it builds is stated by `TreeShape.BuildTreeShape`, and when it panics by `TreeFacts.BuildTreeAttachedIff` |
| `TreeBuilder.AddEntriesFrame` | src/observers.rs:34-48 | The entry loop leaves every entity older than the index entries untouched |
| `TreeShape.AddEntriesKeys` | src/observers.rs:34-48 | After the loop, the index keys are the old keys plus every directory strictly inside `data/` that contains an entry, and the key set stays closed under taking the parent |
| `TreeShape.BuildTreeShape` | src/observers.rs:16-53 | When every entry lies inside `data/`, the build does not panic and leaves the existing world unchanged. It indexes `data` and exactly the directories that contain an entry. Every new entity except the root is a child of the entity for its parent directory. Only directories have children. Every child list is strictly increasing in id, so siblings keep their creation order and none appears twice. Names follow paths |
| `TreeFacts.AttachPanics` | src/observers.rs:62-77 | When no proper prefix of a path is indexed, attaching along it panics: it ends by making an entity its own child |
| `TreeFacts.BuildTreeAttachedIff` | src/observers.rs:34-48 | The build finishes without a panic if and only if every entry lies strictly inside `data/` |
| `TreeFacts.ChildOnce` | src/observers.rs:69-77 | In the built tree, no entity sits in two child slots, so every entity except the root has exactly one parent |
| `TreeFacts.BuildTreeBranches` | src/observers.rs:64-75 | A build whose entries all lie inside `data/` makes one `FileTreeNode` for `data` plus one for each distinct directory below it that contains an entry |
| `TreeFacts.TwoUndecodableDirs` | src/observers.rs:63-73 | Two directories whose names do not decode but differ byte for byte are two index keys: `data/<0xff>/a` and `data/<0xfe>/b` build three `FileTreeNode`s |
| `TreeFacts.BuildTreeLeaves` | src/observers.rs:34-40 | A build that does not panic adds exactly one unmarked entity per entry, in iteration order, named with the entry's file name or "Unnamed" |
| `TreeFacts.BuildTreeRoots` | src/observers.rs:30-31 | Every build adds exactly one `FileTreeRoot` entity, its new `data` root, and removes none |
| `TreeFacts.SecondBuildTwoRoots` | src/main.rs:116-119 | After two opens there are at least two `FileTreeRoot` entities, so the single-root query fails and the tree is not drawn |
| `TreeFacts.BuildTreeWalkable` | src/main.rs:134-168 | The tree a build leaves is finite: the recursive walk from its root terminates, with nesting bounded by the longest path |
| `TreeFacts.BuildTreeDrawable` | src/main.rs:116-119 | After a build that does not panic, whenever the new root is the only root, the walk from it terminates |
| `TreeFacts.EmptyArchiveTree` | src/main.rs:152-164 | An archive with no entries is drawn as a single empty collapsing section titled "data" |
| `Walker.Walk` | src/main.rs:134-168 | The widgets the walk asks for are always properly nested: every collapsing section is closed, and never before it is opened |
| `Walker.WalkChildren` | src/main.rs:156-163 | The children's widgets, drawn in stored order, are properly nested |
| `Walker.WalkDeterministic` | src/main.rs:134-168 | The output of the walk depends only on the world, not on the termination bound |
| `Walker.WalkChildrenAppend` | src/main.rs:156-163 | Drawing two runs of children is drawing the first run, then the second |
| `Walker.MissingChildSkipped` | src/main.rs:143-145 | A child the node query cannot find draws nothing, and the loop goes on with the next sibling |
| `Walker.WalkTitles` | src/main.rs:152-167 | The walk draws one label per unmarked entity it reaches and one section per `FileTreeNode`, in visiting order, each titled with the entity's `Name` |
| `TreeWalk.AncestorIndexed` | src/observers.rs:62-75 | In the built tree, every proper prefix of a non-root entity's path, from `data` on, is an indexed directory |
| `TreeWalk.SubtreeSplit` | src/main.rs:156-163 | A directory node's subtree is the node plus its children's subtrees, and the node lies in none of those |
| `TreeWalk.VisitIsSubtree` | src/main.rs:134-168 | The walk from an entity of the built tree visits every entity of its subtree exactly once and nothing else |
| `TreeWalk.BuildTreeVisitsAll` | src/main.rs:134-168 | After a build whose entries all lie inside `data/`, the walk from the new root visits each entity the build made exactly once, and no other entity |
| `TreeWalk.BuildTreeDrawsEveryEntry` | src/main.rs:152-167 | After such a build, the drawn labels are exactly the entries' labels, each as often as it occurs among the entries |
| `TreeWalk.BuildTreeSiblingOrder` | src/observers.rs:69-77 | After such a build, every child list is strictly increasing in id, so siblings appear in the order they were first spawned |
| `TreeWalk.TwoFilesInOneDirectory` | src/observers.rs:34-80 | `data/x/a.txt` then `data/x/b.txt` build one `x` directory, drawn as one `x` section holding `a.txt` then `b.txt` |
| `Explorer.Explorer.constructor` | src/main.rs:28-42 | At start-up there are no entities and no archive is open |
| `Explorer.Explorer.Spawn` | src/observers.rs:40 | Spawning in place appends the entity at the next id; the resource is unchanged |
| `Explorer.Explorer.AddChild` | src/observers.rs:77 | Succeeds exactly when parent and child differ, and then appends the child to the parent's child list; otherwise (the panic) nothing changes |
| `Explorer.Explorer.AddNodeToParent` | src/observers.rs:56-80 | The in-place recursion, threading the index, ends in exactly the world and index of `AttachToParent`, or panics exactly when it does |
| `Explorer.Explorer.AddEntriesInPlace` | src/observers.rs:34-48 | The in-place entry loop ends in exactly the world and index of `AddEntries`, or panics exactly when it does |
| `Explorer.Explorer.BuildInPlace` | src/observers.rs:27-48 | The in-place build panics exactly when `BuildTree` does. Otherwise it leaves exactly `BuildTree`'s world, whose single root, if it is the only one, can be walked |
| `Explorer.Explorer.Open` | src/observers.rs:16-53 | An unreadable archive changes nothing. A build that panics changes nothing. Otherwise the world becomes `BuildTree`'s world, and `OpenGrf` is set, only after the build, to the event path's file name (or "Unnamed") and the archive's entries |
| `Explorer.Explorer.Draw` | src/main.rs:97-119 | The heading is "Ragnarok Explorer". The label is the open archive's name, or "No file open". A tree is drawn exactly when an archive is open and exactly one `FileTreeRoot` exists, and it is the walk from that root |

## Left out

- **GRF parsing.** `GRF::new` and `iter_filenames` come from another crate and
  are not part of this model. An archive is given as its entry paths in
  iteration order, or as `None` when it cannot be read. The error log is not
  modelled.
- **Filesystem path semantics.** Paths are sequences of components. A
  component either decodes to UTF-8 or is kept as its raw bytes. Separators, normalisation,
  `.`/`..` and platform differences are not modelled.
- **Bevy's deferred commands.** Commands are applied one at a time, in order.
  In Bevy, a panic in `add_child` aborts the app when the command queue is
  applied. The model reports it as a panicked build and leaves the world and
  the resource as they were.
- **Entity identity.** Entity ids are positions in an arena. Id reuse and
  despawning are not modelled, and neither are other entities such as the
  camera, because the source never touches them in the core.
- **The `Children` component.** A child list is part of the node. An entity
  without children has an empty list. This is the same thing `grf_file_tree`
  reads when the `Children` query fails.
- **egui.** Widgets are reduced to the events the walk emits (open a
  collapsing section, close it, draw a label). The following are not modelled:
  - the button click;
  - the hard-coded `data.grf` path of the trigger (src/main.rs:105-110);
  - the scroll area;
  - panel sizing;
  - the separator;
  - collapse state. The walk models every section expanded; a closed
    section draws only its header, and the model does not capture that.
- **Other code.** Fonts, logging, the camera and app setup are not modelled.
  The event and resource declarations (src/events.rs, src/resources.rs) appear
  only as the `OpenGrf` datatype and the event path passed to `Open`.
- **The walk's height.** The walk takes a ghost height. It only bounds the
  recursion, has no counterpart in the source, and does not change the output
  (`Walker.WalkDeterministic`).
- Ecs.RootsOf: yields the roots in id order. Bevy's query order is
  unspecified. The model only relies on the set of roots and their number.
