/** Archive entry paths as the tree builder sees them.

    A path is the sequence of its components. The operating system's
    separator parsing and UTF-8 decoding are abstracted away: a component
    either decodes to display text (`Named`) or it does not (`Undecodable`,
    which keeps the component's raw bytes, so two different undecodable
    names are still two different index keys), and `PathBuf::file_name` /
    `OsStr::to_str` failing is the same thing as the path having no
    decodable last component. */
module Paths {

  datatype Option<+T> = None | Some(value: T)

  datatype Segment = Named(name: string) | Undecodable(raw: seq<bv8>)

  type Path = seq<Segment>

  /** The directory every archive entry lives under; its path is the key the
      index is seeded with. */
  const Data: Segment := Named("data")
  const RootPath: Path := [Data]

  /** The label used when a path has no decodable last component. */
  const Unnamed: string := "Unnamed"

  /** `PathBuf::pop`: drop the last component; on the empty path it does
      nothing. */
  function Pop(p: Path): (r: Path)
    ensures p != [] ==> |r| == |p| - 1 && r == p[..|r|]
    ensures p == [] ==> r == []
  {
    if p == [] then [] else p[..|p| - 1]
  }

  /** `file_name().and_then(to_str)`: the decoded last component, if any. */
  function FileName(p: Path): (r: Option<string>)
    ensures r.Some? <==> p != [] && p[|p| - 1].Named?
    ensures r.Some? ==> r.value == p[|p| - 1].name
  {
    if p != [] && p[|p| - 1].Named? then Some(p[|p| - 1].name) else None
  }

  /** The label a node gets for path `p`: its file name, or "Unnamed". */
  function LabelOf(p: Path): (r: string)
    ensures p != [] && p[|p| - 1].Named? ==> r == p[|p| - 1].name
    ensures !(p != [] && p[|p| - 1].Named?) ==> r == Unnamed
  {
    match FileName(p)
    case Some(name) => name
    case None => Unnamed
  }

  /** A path strictly inside `data/`: an entry or a directory below the root.
      This is the shape the builder's recursion silently relies on. */
  predicate InsideData(p: Path) {
    |p| >= 2 && p[0] == Data
  }

  /** The directories strictly below `data/` that contain entry `e`. */
  ghost function Subdirs(e: Path): set<Path> {
    set k | 2 <= k < |e| :: e[..k]
  }

  /** All directories strictly below `data/` that contain some entry. */
  ghost function AllSubdirs(entries: seq<Path>): set<Path>
    decreases |entries|
  {
    if entries == [] then {} else Subdirs(entries[0]) + AllSubdirs(entries[1..])
  }

  /** A set of directory keys: every key is `data` or lies inside it. */
  ghost predicate DirKeys(keys: set<Path>) {
    RootPath in keys && forall q :: q in keys ==> q == RootPath || InsideData(q)
  }

  /** Every key's parent directory is a key too (down to `data`). */
  ghost predicate PrefixClosed(keys: set<Path>) {
    forall q :: q in keys && InsideData(q) ==> Pop(q) in keys
  }

  /** In a closed set of directory keys, every ancestor of a key is a key. */
  lemma {:induction false} ClosedHasAncestors(keys: set<Path>, q: Path, k: nat)
    requires DirKeys(keys) && PrefixClosed(keys)
    requires q in keys && 1 <= k <= |q|
    ensures q[..k] in keys
    decreases |q|
  {
    if k < |q| {
      assert q != RootPath;
      var p := Pop(q);
      assert p in keys;
      ClosedHasAncestors(keys, p, k);
      assert p[..k] == q[..k];
    } else {
      assert q[..k] == q;
    }
  }

  /** The directory paths that the builder creates, in creation order, when
      it attaches a node whose path is `path` while `keys` are indexed: the
      parent, then the grandparent, and so on up to the first indexed one.
      The recursion mirrors the builder's, including its termination
      argument for the empty path. */
  ghost function Created(keys: set<Path>, path: Path): seq<Path>
    decreases |path|, if Pop(path) in keys then 0 else 1
  {
    var p := Pop(path);
    if p in keys then [] else [p] + Created(keys + {p}, p)
  }

  ghost function Elems<T>(s: seq<T>): set<T> {
    set x | x in s
  }

  /** Indexing a path that is neither empty nor a strict prefix of `x` does
      not change what attaching at `x` creates. */
  lemma {:induction false} CreatedFrame(keys: set<Path>, y: Path, x: Path)
    requires y != [] && !(|y| < |x| && x[..|y|] == y)
    ensures Created(keys + {y}, x) == Created(keys, x)
    decreases |x|, if Pop(x) in keys then 0 else 1
  {
    var p := Pop(x);
    assert p != y by {
      if x != [] {
        assert |p| < |x| && x[..|p|] == p;
      }
    }
    if p !in keys {
      assert keys + {y} + {p} == keys + {p} + {y};
      CreatedFrame(keys + {p}, y, p);
    }
  }

  /** The subdirectories of `x` are its parent directory and the parent's
      own subdirectories (when the parent is itself below `data/`). */
  lemma SubdirsOfParent(x: Path)
    requires InsideData(Pop(x)) && x != []
    ensures Subdirs(x) == {Pop(x)} + Subdirs(Pop(x))
  {
    var p := Pop(x);
    forall q | q in Subdirs(x) ensures q in {p} + Subdirs(p) {
      var k :| 2 <= k < |x| && q == x[..k];
      if k < |p| { assert p[..k] == q; }
    }
    forall q | q in Subdirs(p) ensures q in Subdirs(x) {
      var k :| 2 <= k < |p| && q == p[..k];
      assert x[..k] == q;
    }
  }

  /** Adding the ancestors of an entry to a closed key set keeps it closed. */
  lemma AddSubdirsKeepsClosed(keys: set<Path>, x: Path)
    requires DirKeys(keys) && PrefixClosed(keys) && InsideData(x)
    ensures DirKeys(keys + Subdirs(x)) && PrefixClosed(keys + Subdirs(x))
  {
    forall q | q in Subdirs(x) ensures InsideData(q) && Pop(q) in keys + Subdirs(x) {
      var k :| 2 <= k < |x| && q == x[..k];
      if k == 2 {
        assert Pop(q) == RootPath;
      } else {
        assert Pop(q) == x[..k - 1];
      }
    }
  }

  /** Attaching an entry inside `data/` to a closed key set creates exactly
      its missing ancestor directories. */
  lemma {:induction false} CreatedDirs(keys: set<Path>, x: Path)
    requires DirKeys(keys) && PrefixClosed(keys) && InsideData(x)
    ensures keys + Elems(Created(keys, x)) == keys + Subdirs(x)
    decreases |x|
  {
    var p := Pop(x);
    assert x[..1] == RootPath;
    if p in keys {
      forall q | q in Subdirs(x) ensures q in keys {
        var k :| 2 <= k < |x| && q == x[..k];
        ClosedHasAncestors(keys, p, k);
        assert p[..k] == q;
      }
    } else {
      assert p != RootPath && InsideData(p);
      CreatedFrame(keys, p, p);
      CreatedDirs(keys, p);
      assert Elems(Created(keys, x)) == {p} + Elems(Created(keys, p));
      SubdirsOfParent(x);
    }
  }

  /** None of the directories created is already indexed, each lies inside
      `data/`, and they are created from the deepest up, one level at a
      time, so none is created twice. */
  lemma {:induction false} CreatedFresh(keys: set<Path>, x: Path)
    requires DirKeys(keys) && PrefixClosed(keys) && InsideData(x)
    ensures forall q :: q in Created(keys, x) ==> q !in keys && InsideData(q)
    ensures forall i :: 0 <= i < |Created(keys, x)| ==> |Created(keys, x)[i]| == |x| - 1 - i
    decreases |x|
  {
    var p := Pop(x);
    assert x[..1] == RootPath;
    if p !in keys {
      assert p != RootPath && InsideData(p);
      CreatedFrame(keys, p, p);
      CreatedFresh(keys, p);
      assert Created(keys, x) == [p] + Created(keys, p);
    }
  }
}
