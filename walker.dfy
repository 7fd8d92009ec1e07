/** The file-tree walker `grf_file_tree` (src/main.rs), as a function from
    the world to the widgets it asks egui for, in call order, with every
    collapsing section expanded (egui runs a section's body, and so the
    recursion into its children, only while the section is open).

    `Open(t)` is the start of `ui.collapsing(t, ..)`, `Close` its end, and
    `Label(t)` a plain `ui.label(t)`. The walk is read-only; the ghost
    height `h` only bounds the recursion for the termination argument and
    does not change the result (`WalkDeterministic`). */
module Walker {
  import opened Ecs

  datatype RenderEvent = Open(title: string) | Close | Label(title: string)

  function Weight(e: RenderEvent): int {
    match e
    case Open(_) => 1
    case Close => -1
    case Label(_) => 0
  }

  /** Collapsing sections opened and not yet closed after `s`. */
  function Depth(s: seq<RenderEvent>): int
    decreases |s|
  {
    if s == [] then 0 else Depth(s[..|s| - 1]) + Weight(s[|s| - 1])
  }

  /** Every collapsing section is closed, and never before it was opened. */
  ghost predicate Balanced(s: seq<RenderEvent>) {
    Depth(s) == 0 && forall k :: 0 <= k <= |s| ==> Depth(s[..k]) >= 0
  }

  lemma {:induction false} DepthAppend(a: seq<RenderEvent>, b: seq<RenderEvent>)
    ensures Depth(a + b) == Depth(a) + Depth(b)
    decreases |b|
  {
    if b != [] {
      var b' := b[..|b| - 1];
      assert (a + b)[..|a + b| - 1] == a + b';
      DepthAppend(a, b');
    } else {
      assert a + b == a;
    }
  }

  lemma BalancedAppend(a: seq<RenderEvent>, b: seq<RenderEvent>)
    requires Balanced(a) && Balanced(b)
    ensures Balanced(a + b)
  {
    DepthAppend(a, b);
    forall k | 0 <= k <= |a + b| ensures Depth((a + b)[..k]) >= 0 {
      if k <= |a| {
        assert (a + b)[..k] == a[..k];
      } else {
        assert (a + b)[..k] == a + b[..k - |a|];
        DepthAppend(a, b[..k - |a|]);
      }
    }
  }

  lemma BalancedWrap(t: string, s: seq<RenderEvent>)
    requires Balanced(s)
    ensures Balanced([Open(t)] + s + [Close])
  {
    var r := [Open(t)] + s + [Close];
    DepthAppend([Open(t)] + s, [Close]);
    DepthAppend([Open(t)], s);
    assert Depth([Open(t)]) == 1 by { assert [Open(t)][..0] == []; }
    assert Depth([Close]) == -1 by { assert [Close][..0] == []; }
    forall k | 0 <= k <= |r| ensures Depth(r[..k]) >= 0 {
      if 1 <= k <= |s| + 1 {
        assert r[..k] == [Open(t)] + s[..k - 1];
        DepthAppend([Open(t)], s[..k - 1]);
      } else if k == |r| {
        assert r[..k] == r;
      }
    }
  }

  /** The walk from `id` needs at most `h` nested sections: every marked
      node on the way has a height left to recurse into its children. A
      missing entity or an unmarked one needs none. */
  ghost predicate WalkableWithin(w: World, id: nat, h: nat)
    decreases h
  {
    id < |w| && w[id].treeNode ==>
      h > 0 && forall j :: 0 <= j < |w[id].children| ==> WalkableWithin(w, w[id].children[j], h - 1)
  }

  /** `grf_file_tree(ui, id, ..)`: nothing for an entity the query cannot
      find; a collapsing section around the children, in stored order, for
      a `FileTreeNode`; a plain label otherwise. The output is always
      properly nested. */
  function Walk(w: World, id: nat, ghost h: nat): (r: seq<RenderEvent>)
    requires WalkableWithin(w, id, h)
    ensures Balanced(r)
    decreases h, 0
  {
    if id >= |w| then []
    else if w[id].treeNode then
      var inner := WalkChildren(w, w[id].children, h - 1);
      BalancedWrap(w[id].name, inner);
      [Open(w[id].name)] + inner + [Close]
    else
      assert [Label(w[id].name)][..0] == [];
      [Label(w[id].name)]
  }

  /** The `for child in node_children` loop: each child's walk, in order. */
  function WalkChildren(w: World, cs: seq<nat>, ghost h: nat): (r: seq<RenderEvent>)
    requires forall j :: 0 <= j < |cs| ==> WalkableWithin(w, cs[j], h)
    ensures Balanced(r)
    decreases h, 1, |cs|
  {
    if cs == [] then []
    else
      var first := Walk(w, cs[0], h);
      var rest := WalkChildren(w, cs[1..], h);
      BalancedAppend(first, rest);
      first + rest
  }

  /** The height is only a termination device: any two heights that suffice
      give the same output, so the walk is a function of the world alone. */
  lemma {:induction false} WalkDeterministic(w: World, id: nat, h1: nat, h2: nat)
    requires WalkableWithin(w, id, h1) && WalkableWithin(w, id, h2)
    ensures Walk(w, id, h1) == Walk(w, id, h2)
    decreases h1, 0
  {
    if id < |w| && w[id].treeNode {
      WalkChildrenDeterministic(w, w[id].children, h1 - 1, h2 - 1);
    }
  }

  lemma {:induction false} WalkChildrenDeterministic(w: World, cs: seq<nat>, h1: nat, h2: nat)
    requires forall j :: 0 <= j < |cs| ==> WalkableWithin(w, cs[j], h1)
    requires forall j :: 0 <= j < |cs| ==> WalkableWithin(w, cs[j], h2)
    ensures WalkChildren(w, cs, h1) == WalkChildren(w, cs, h2)
    decreases h1, 1, |cs|
  {
    if cs != [] {
      WalkDeterministic(w, cs[0], h1, h2);
      WalkChildrenDeterministic(w, cs[1..], h1, h2);
    }
  }

  /** The loop visits the children in stored order: walking a list of
      children is walking its first part, then the rest. */
  lemma {:induction false} WalkChildrenAppend(w: World, cs: seq<nat>, ds: seq<nat>, h: nat)
    requires forall j :: 0 <= j < |cs| ==> WalkableWithin(w, cs[j], h)
    requires forall j :: 0 <= j < |ds| ==> WalkableWithin(w, ds[j], h)
    ensures forall j :: 0 <= j < |cs + ds| ==> WalkableWithin(w, (cs + ds)[j], h)
    ensures WalkChildren(w, cs + ds, h) == WalkChildren(w, cs, h) + WalkChildren(w, ds, h)
    decreases |cs|
  {
    var t := cs + ds;
    assert forall j :: 0 <= j < |t| ==> t[j] == if j < |cs| then cs[j] else ds[j - |cs|];
    if cs == [] {
      assert t == ds;
    } else {
      assert t[0] == cs[0] && t[1..] == cs[1..] + ds;
      WalkChildrenAppend(w, cs[1..], ds, h);
      assert WalkChildren(w, t, h) == Walk(w, cs[0], h) + WalkChildren(w, t[1..], h);
    }
  }

  /** The entities the walk reaches, in the order it reaches them: the node
      itself, then (for a `FileTreeNode`) what each child's walk reaches. */
  ghost function Visit(w: World, id: nat, h: nat): seq<nat>
    requires WalkableWithin(w, id, h)
    decreases h, 0
  {
    if id >= |w| then []
    else if w[id].treeNode then [id] + VisitChildren(w, w[id].children, h - 1)
    else [id]
  }

  ghost function VisitChildren(w: World, cs: seq<nat>, h: nat): seq<nat>
    requires forall j :: 0 <= j < |cs| ==> WalkableWithin(w, cs[j], h)
    decreases h, 1, |cs|
  {
    if cs == [] then [] else Visit(w, cs[0], h) + VisitChildren(w, cs[1..], h)
  }

  /** The title of `e` if it is a plain label. */
  function LabelTitle(e: RenderEvent): seq<string> {
    if e.Label? then [e.title] else []
  }

  /** The title of `e` if it opens a collapsing section. */
  function SectionOpened(e: RenderEvent): seq<string> {
    if e.Open? then [e.title] else []
  }

  /** The titles of the plain labels in `r`, in order. */
  function Labels(r: seq<RenderEvent>): seq<string>
    decreases |r|
  {
    if r == [] then [] else LabelTitle(r[0]) + Labels(r[1..])
  }

  /** The titles of the collapsing sections in `r`, in order. */
  function Sections(r: seq<RenderEvent>): seq<string>
    decreases |r|
  {
    if r == [] then [] else SectionOpened(r[0]) + Sections(r[1..])
  }

  /** The title the walk gives `id` as a plain label, if it draws one. */
  function LeafTitle(w: World, id: nat): seq<string> {
    if id < |w| && !w[id].treeNode then [w[id].name] else []
  }

  /** The title the walk gives `id` as a collapsing section, if it draws one. */
  function SectionTitle(w: World, id: nat): seq<string> {
    if id < |w| && w[id].treeNode then [w[id].name] else []
  }

  /** The names of the existing unmarked entities among `ids`, in order. */
  function LeafTitles(w: World, ids: seq<nat>): seq<string>
    decreases |ids|
  {
    if ids == [] then [] else LeafTitle(w, ids[0]) + LeafTitles(w, ids[1..])
  }

  /** The entity ids from `lo` up to `hi`, in order. */
  function Range(lo: nat, hi: nat): seq<nat>
    requires lo <= hi
    decreases hi - lo
  {
    if lo == hi then [] else Range(lo, hi - 1) + [hi - 1]
  }

  /** The names of the existing marked entities among `ids`, in order. */
  function SectionTitles(w: World, ids: seq<nat>): seq<string>
    decreases |ids|
  {
    if ids == [] then [] else SectionTitle(w, ids[0]) + SectionTitles(w, ids[1..])
  }

  lemma {:induction false} LabelsAppend(a: seq<RenderEvent>, b: seq<RenderEvent>)
    ensures Labels(a + b) == Labels(a) + Labels(b)
    decreases |a|
  {
    if a == [] {
      assert a + b == b;
    } else {
      var t := a + b;
      assert t[0] == a[0] && t[1..] == a[1..] + b;
      LabelsAppend(a[1..], b);
      assert Labels(t) == LabelTitle(a[0]) + (Labels(a[1..]) + Labels(b));
    }
  }

  lemma {:induction false} SectionsAppend(a: seq<RenderEvent>, b: seq<RenderEvent>)
    ensures Sections(a + b) == Sections(a) + Sections(b)
    decreases |a|
  {
    if a == [] {
      assert a + b == b;
    } else {
      var t := a + b;
      assert t[0] == a[0] && t[1..] == a[1..] + b;
      SectionsAppend(a[1..], b);
      assert Sections(t) == SectionOpened(a[0]) + (Sections(a[1..]) + Sections(b));
    }
  }

  lemma EventTitlesAppend(a: seq<RenderEvent>, b: seq<RenderEvent>)
    ensures Labels(a + b) == Labels(a) + Labels(b)
    ensures Sections(a + b) == Sections(a) + Sections(b)
  {
    LabelsAppend(a, b);
    SectionsAppend(a, b);
  }

  lemma {:induction false} LeafTitlesAppend(w: World, a: seq<nat>, b: seq<nat>)
    ensures LeafTitles(w, a + b) == LeafTitles(w, a) + LeafTitles(w, b)
    decreases |a|
  {
    if a == [] {
      assert a + b == b;
    } else {
      var t := a + b;
      assert t[0] == a[0] && t[1..] == a[1..] + b;
      LeafTitlesAppend(w, a[1..], b);
      var x := LeafTitle(w, a[0]);
      assert LeafTitles(w, t) == x + (LeafTitles(w, a[1..]) + LeafTitles(w, b));
    }
  }

  lemma {:induction false} SectionTitlesAppend(w: World, a: seq<nat>, b: seq<nat>)
    ensures SectionTitles(w, a + b) == SectionTitles(w, a) + SectionTitles(w, b)
    decreases |a|
  {
    if a == [] {
      assert a + b == b;
    } else {
      var t := a + b;
      assert t[0] == a[0] && t[1..] == a[1..] + b;
      SectionTitlesAppend(w, a[1..], b);
      var x := SectionTitle(w, a[0]);
      assert SectionTitles(w, t) == x + (SectionTitles(w, a[1..]) + SectionTitles(w, b));
    }
  }

  lemma NodeTitlesAppend(w: World, a: seq<nat>, b: seq<nat>)
    ensures LeafTitles(w, a + b) == LeafTitles(w, a) + LeafTitles(w, b)
    ensures SectionTitles(w, a + b) == SectionTitles(w, a) + SectionTitles(w, b)
  {
    LeafTitlesAppend(w, a, b);
    SectionTitlesAppend(w, a, b);
  }

  /** The walk draws one plain label for each unmarked entity it reaches and
      one collapsing section for each marked one, in the order it reaches
      them, each titled with the entity's `Name`. */
  lemma {:induction false} WalkTitles(w: World, id: nat, h: nat)
    requires WalkableWithin(w, id, h)
    ensures Labels(Walk(w, id, h)) == LeafTitles(w, Visit(w, id, h))
    ensures Sections(Walk(w, id, h)) == SectionTitles(w, Visit(w, id, h))
    decreases h, 0
  {
    if id < |w| && w[id].treeNode {
      var name := w[id].name;
      var inner := WalkChildren(w, w[id].children, h - 1);
      WalkChildrenTitles(w, w[id].children, h - 1);
      EventTitlesAppend([Open(name)] + inner, [Close]);
      EventTitlesAppend([Open(name)], inner);
      NodeTitlesAppend(w, [id], VisitChildren(w, w[id].children, h - 1));
    }
  }

  lemma {:induction false} WalkChildrenTitles(w: World, cs: seq<nat>, h: nat)
    requires forall j :: 0 <= j < |cs| ==> WalkableWithin(w, cs[j], h)
    ensures Labels(WalkChildren(w, cs, h)) == LeafTitles(w, VisitChildren(w, cs, h))
    ensures Sections(WalkChildren(w, cs, h)) == SectionTitles(w, VisitChildren(w, cs, h))
    decreases h, 1, |cs|
  {
    if cs != [] {
      WalkTitles(w, cs[0], h);
      WalkChildrenTitles(w, cs[1..], h);
      EventTitlesAppend(Walk(w, cs[0], h), WalkChildren(w, cs[1..], h));
      NodeTitlesAppend(w, Visit(w, cs[0], h), VisitChildren(w, cs[1..], h));
    }
  }

  /** A child the node query cannot find draws nothing, and the loop goes
      on with the next sibling as if it were not there. */
  lemma MissingChildSkipped(w: World, cs: seq<nat>, id: nat, ds: seq<nat>, h: nat)
    requires id >= |w|
    requires forall j :: 0 <= j < |cs| ==> WalkableWithin(w, cs[j], h)
    requires forall j :: 0 <= j < |ds| ==> WalkableWithin(w, ds[j], h)
    ensures forall j :: 0 <= j < |cs + ([id] + ds)| ==> WalkableWithin(w, (cs + ([id] + ds))[j], h)
    ensures WalkChildren(w, cs + ([id] + ds), h) == WalkChildren(w, cs + ds, h)
  {
    var t := [id] + ds;
    assert t[0] == id && t[1..] == ds;
    assert forall j :: 0 <= j < |t| ==> WalkableWithin(w, t[j], h);
    assert WalkChildren(w, t, h) == WalkChildren(w, ds, h);
    WalkChildrenAppend(w, cs, t, h);
    WalkChildrenAppend(w, cs, ds, h);
  }
}
