/**
 * The initial-tree builder (parsing/MembraneBuilder.java) and the parser
 * callbacks that drive it (the membrane-definition handlers of
 * parsing/SimulationFactory.java). Builders live in an arena and are
 * identified by creation index; a child builder is always created after
 * its parent. One builder stands for "k copies of this membrane", and
 * `Create` expands it into k distinct membranes of a `Tree`.
 */
module MembraneBuilding {
  import opened Wrappers
  import opened Text
  import opened Species
  import opened Membranes

  /**
   * A builder: the type (set when its definition closes), the tags, the
   * species it starts with, and the child builders with their number of
   * copies, in first-insertion order.
   */
  datatype BuilderNode = BuilderNode(
    mtype: string,
    tags: seq<string>,
    on: Counts,
    under: Counts,
    contained: Counts,
    children: seq<(nat, nat)>)

  function EmptyBuilder(): BuilderNode {
    BuilderNode("", [], map[], map[], map[], [])
  }

  /** A Guava multiset never stores a zero count. */
  predicate PositiveCounts(c: Counts) {
    forall s :: s in c ==> c[s] > 0
  }

  /** How many copies of `child` a builder holds. */
  function Multiplicity(children: seq<(nat, nat)>, child: nat): nat {
    if children == [] then 0
    else
      var last := children[|children| - 1];
      Multiplicity(children[..|children| - 1], child) + (if last.0 == child then last.1 else 0)
  }

  /** The position of a child builder's entry, or -1 when it has none. */
  function Find(children: seq<(nat, nat)>, child: nat): (f: int)
    ensures -1 <= f < |children|
    ensures f == -1 ==> forall e :: 0 <= e < |children| ==> children[e].0 != child
    ensures f >= 0 ==> children[f].0 == child
    decreases |children|
  {
    if children == [] then -1
    else if children[|children| - 1].0 == child then |children| - 1
    else Find(children[..|children| - 1], child)
  }

  /**
   * `Multiset.add(child, k)` on the children: a present child's count grows
   * by k, a new one is appended, and k = 0 changes nothing.
   */
  function AddChild(children: seq<(nat, nat)>, child: nat, k: nat): (r: seq<(nat, nat)>)
    ensures forall d :: Multiplicity(r, d) == Multiplicity(children, d) + (if d == child then k else 0)
  {
    if k == 0 then children
    else
      var f := Find(children, child);
      if f < 0 then children + [(child, k)]
      else
        MultiplicityUpdate(children, f, (child, children[f].1 + k));
        children[f := (child, children[f].1 + k)]
  }

  /** Replacing one entry moves the multiplicities of the old and the new builder accordingly. */
  lemma {:induction false} MultiplicityUpdate(children: seq<(nat, nat)>, f: nat, x: (nat, nat))
    requires f < |children|
    ensures forall d ::
      Multiplicity(children[f := x], d) == Multiplicity(children, d) - (if children[f].0 == d then children[f].1 else 0) + (if x.0 == d then x.1 else 0)
    decreases |children|
  {
    var n := |children| - 1;
    if f < n {
      MultiplicityUpdate(children[..n], f, x);
      assert children[f := x][..n] == children[..n][f := x];
    } else {
      assert children[f := x][..n] == children[..n];
    }
  }

  /** Child entries between lo and hi, each with a positive count, each builder once. */
  predicate EntriesOk(children: seq<(nat, nat)>, lo: nat, hi: nat) {
    (forall e :: 0 <= e < |children| ==> lo < children[e].0 < hi && children[e].1 > 0) &&
    (forall e, f :: 0 <= e < f < |children| ==> children[e].0 != children[f].0)
  }

  /** Builder well-formedness: children come later, each appears once, counts are positive. */
  predicate BuilderArena(nodes: seq<BuilderNode>) {
    forall b :: 0 <= b < |nodes| ==>
      PositiveCounts(nodes[b].on) && PositiveCounts(nodes[b].under) && PositiveCounts(nodes[b].contained) &&
      EntriesOk(nodes[b].children, b, |nodes|)
  }

  /** The number of membranes a builder expands to: itself and, for each child, its count times the child's expansion. */
  function Copies(nodes: seq<BuilderNode>, b: nat): nat
    requires BuilderArena(nodes) && b < |nodes|
    decreases |nodes| - b, 1, 0
  {
    1 + CopiesList(nodes, nodes[b].children, b)
  }

  function CopiesList(nodes: seq<BuilderNode>, entries: seq<(nat, nat)>, lo: nat): nat
    requires BuilderArena(nodes) && forall e :: 0 <= e < |entries| ==> lo < entries[e].0 < |nodes|
    decreases |nodes| - lo, 0, |entries|
  {
    if entries == [] then 0
    else
      var last := entries[|entries| - 1];
      CopiesList(nodes, entries[..|entries| - 1], lo) + last.1 * Copies(nodes, last.0)
  }

  /**
   * The child builders of a builder's membrane, one per copy, entry by
   * entry: the order in which `create` walks the multiset of children.
   */
  function Occurrences(entries: seq<(nat, nat)>): (r: seq<nat>)
    ensures forall j :: 0 <= j < |r| ==> exists e :: 0 <= e < |entries| && r[j] == entries[e].0
  {
    if entries == [] then []
    else
      var n := |entries| - 1;
      var rest := Occurrences(entries[..n]);
      assert forall j :: 0 <= j < |rest| ==> exists e :: 0 <= e < n && rest[j] == entries[e].0 by {
        assert forall e :: 0 <= e < n ==> entries[..n][e] == entries[e];
      }
      rest + Replicate(entries[n].0, entries[n].1)
  }

  /** k occurrences of builder x. */
  function Replicate(x: nat, k: nat): (r: seq<nat>)
    ensures |r| == k && forall j :: 0 <= j < k ==> r[j] == x
  {
    if k == 0 then [] else Replicate(x, k - 1) + [x]
  }

  /** Each child builder occurs exactly as many times as the multiset counts it. */
  lemma {:induction false} OccurrencesCount(entries: seq<(nat, nat)>, d: nat)
    ensures multiset(Occurrences(entries))[d] == Multiplicity(entries, d)
    decreases |entries|
  {
    if entries != [] {
      var n := |entries| - 1;
      OccurrencesCount(entries[..n], d);
      ReplicateCount(entries[n].0, entries[n].1, d);
    }
  }

  lemma {:induction false} ReplicateCount(x: nat, k: nat, d: nat)
    ensures multiset(Replicate(x, k))[d] == if d == x then k else 0
    decreases k
  {
    if k > 0 {
      ReplicateCount(x, k - 1, d);
    }
  }

  /** A membrane has the type, the kept tags and the species of the builder it was created from. */
  ghost predicate MadeFrom(m: Membrane, node: BuilderNode) {
    m.mtype == node.mtype && m.tags == KeptTags(node.mtype, node.tags) &&
    m.on == node.on && m.under == node.under && m.contained == node.contained
  }

  /**
   * Membrane r of arena t is the expansion of builder c: made from it, with
   * one child per occurrence of a child builder, in order, each a later
   * membrane whose parent is r and which is in turn that builder's expansion.
   */
  ghost predicate Expanded(t: seq<Membrane>, r: nat, bs: seq<BuilderNode>, c: nat)
    requires BuilderArena(bs) && c < |bs|
    decreases |bs| - c, 1
  {
    r < |t| && MadeFrom(t[r], bs[c]) && ChildrenExpanded(t, r, bs, Occurrences(bs[c].children), c)
  }

  ghost predicate ChildrenExpanded(t: seq<Membrane>, r: nat, bs: seq<BuilderNode>, occ: seq<nat>, lo: nat)
    requires BuilderArena(bs) && forall j :: 0 <= j < |occ| ==> lo < occ[j] < |bs|
    decreases |bs| - lo, 0
  {
    r < |t| && |t[r].children| == |occ| &&
    forall j :: 0 <= j < |occ| ==>
      r < t[r].children[j] < |t| && t[t[r].children[j]].parent == Some(r) && Expanded(t, t[r].children[j], bs, occ[j])
  }

  /**
   * A root builder holding two copies of a `cell` builder expands to a root
   * with two children, both cells whose parent is the root.
   */
  lemma ExpandedTwoCells(t: seq<Membrane>, bs: seq<BuilderNode>)
    requires BuilderArena(bs) && |bs| == 2 && bs[0].children == [(1, 2)] && bs[1].mtype == "cell"
    requires Expanded(t, 0, bs, 0)
    ensures |t[0].children| == 2
    ensures forall j :: 0 <= j < 2 ==>
      0 < t[0].children[j] < |t| && t[t[0].children[j]].mtype == "cell" && t[t[0].children[j]].parent == Some(0)
  {
    var ch := bs[0].children;
    assert ch[..0] == [] && ch[0] == (1, 2);
    var occ := Occurrences(ch);
    assert occ == Occurrences([]) + Replicate(1, 2);
    assert Replicate(1, 2) == [1, 1];
    assert ChildrenExpanded(t, 0, bs, occ, 0);
    forall j | 0 <= j < 2
      ensures 0 < t[0].children[j] < |t| && t[t[0].children[j]].mtype == "cell" && t[t[0].children[j]].parent == Some(0)
    {
      assert occ[j] == 1 && Expanded(t, t[0].children[j], bs, occ[j]);
      assert MadeFrom(t[t[0].children[j]], bs[1]);
    }
  }

  /** An expansion stays one while the membranes from r to the end of the old arena are left alone. */
  lemma {:induction false} ExpandedFrame(t1: seq<Membrane>, t2: seq<Membrane>, r: nat, bs: seq<BuilderNode>, c: nat)
    requires BuilderArena(bs) && c < |bs| && Expanded(t1, r, bs, c)
    requires |t1| <= |t2| && forall y :: r <= y < |t1| ==> t2[y] == t1[y]
    ensures Expanded(t2, r, bs, c)
    decreases |bs| - c
  {
    var occ := Occurrences(bs[c].children);
    forall j | 0 <= j < |occ|
      ensures Expanded(t2, t2[r].children[j], bs, occ[j])
    {
      ExpandedFrame(t1, t2, t1[r].children[j], bs, occ[j]);
    }
  }

  const NegativeCount: string := "Count cannot be negative"

  class Builders {
    var nodes: seq<BuilderNode>

    ghost predicate Valid()
      reads this
    {
      BuilderArena(nodes)
    }

    constructor ()
      ensures Valid() && nodes == []
    {
      nodes := [];
    }

    /** `new MembraneBuilder()`: no type yet, no tags, species or children. */
    method NewBuilder() returns (b: nat)
      requires Valid()
      modifies this
      ensures Valid() && b == |old(nodes)| && nodes == old(nodes) + [EmptyBuilder()]
    {
      b := |nodes|;
      nodes := nodes + [EmptyBuilder()];
    }

    method SetType(b: nat, mtype: string)
      requires Valid() && b < |nodes|
      modifies this
      ensures Valid() && nodes == old(nodes)[b := old(nodes[b]).(mtype := mtype)]
    {
      nodes := nodes[b := nodes[b].(mtype := mtype)];
    }

    method AddTag(b: nat, tag: string)
      requires Valid() && b < |nodes|
      modifies this
      ensures Valid() && nodes == old(nodes)[b := old(nodes[b]).(tags := old(nodes[b].tags) + [tag])]
    {
      nodes := nodes[b := nodes[b].(tags := nodes[b].tags + [tag])];
    }

    /** `addSpecies`: one more copy at on, under or contained; `around` is ignored. */
    method AddSpecies(b: nat, ls: LocatedSpecies)
      requires Valid() && b < |nodes|
      modifies this
      ensures Valid()
      ensures nodes == old(nodes)[b := BuilderWithSpecies(old(nodes[b]), ls)]
    {
      nodes := nodes[b := BuilderWithSpecies(nodes[b], ls)];
    }

    /**
     * `addMembrane(child, k)`: k more copies of the child builder. A
     * negative k is refused (Guava throws), leaving the builder unchanged.
     */
    method AddMembrane(b: nat, child: nat, k: int) returns (res: Result<()>)
      requires Valid() && b < child < |nodes|
      modifies this
      ensures Valid()
      ensures k < 0 ==> res == Failure(NegativeCount) && nodes == old(nodes)
      ensures k >= 0 ==> res.Success? && nodes == old(nodes)[b := old(nodes[b]).(children := AddChild(old(nodes[b].children), child, k))]
    {
      if k < 0 {
        return Failure(NegativeCount);
      }
      var ch := AddChild(nodes[b].children, child, k);
      AddChildArena(nodes, b, child, k);
      nodes := nodes[b := nodes[b].(children := ch)];
      return Success(());
    }

    /**
     * `create`: a membrane for this builder under `parent`, holding the
     * builder's species, followed by the expansion of each copy of each
     * child, each recorded as a child of the new membrane. The new
     * membranes take the indices after the existing ones, which stay as
     * they were, and the new membrane's subtree index and reach are exactly
     * them.
     */
    method Create(tree: Tree, b: nat, parent: Option<nat>) returns (i: nat)
      requires Valid() && b < |nodes| && tree.Valid() && (parent.Some? ==> parent.value < |tree.nodes|)
      modifies tree
      ensures tree.Valid() && i == |old(tree.nodes)| && |tree.nodes| == i + Copies(nodes, b)
      ensures tree.nodes[..i] == old(tree.nodes)
      ensures var m := tree.nodes[i];
        m.mtype == nodes[b].mtype && m.tags == KeptTags(nodes[b].mtype, nodes[b].tags) && m.parent == parent &&
        m.on == nodes[b].on && m.under == nodes[b].under && m.contained == nodes[b].contained &&
        m.uniqueTag == UniqueTagFor(nodes[b].mtype, Lookup(old(tree.typeIndices), nodes[b].mtype) + 1)
      ensures Covers(tree.nodes, i)
      ensures tree.cache == old(tree.cache) && tree.resetMark == old(tree.resetMark)
      ensures Expanded(tree.nodes, i, nodes, b)
      decreases |nodes| - b, 1
    {
      i := NewFromBuilder(tree, nodes[b], parent);
      CreateChildren(tree, i, b);
    }

    /** The loop of `create` over the child builders: each entry's copies, in order, under membrane i. */
    method CreateChildren(tree: Tree, i: nat, b: nat)
      requires Valid() && b < |nodes| && tree.Valid() && i < |tree.nodes| && Covers(tree.nodes, i) && tree.nodes[i].children == []
      modifies tree
      ensures tree.Valid() && |tree.nodes| == |old(tree.nodes)| + CopiesList(nodes, nodes[b].children, b)
      ensures tree.nodes[..i] == old(tree.nodes[..i])
      ensures tree.nodes[i] == old(tree.nodes[i]).(children := tree.nodes[i].children, all := tree.nodes[i].all)
      ensures Covers(tree.nodes, i)
      ensures tree.cache == old(tree.cache) && tree.resetMark == old(tree.resetMark)
      ensures ChildrenExpanded(tree.nodes, i, nodes, Occurrences(nodes[b].children), b)
      decreases |nodes| - b, 0
    {
      var node := nodes[b];
      var e := 0;
      ghost var occ: seq<nat> := [];
      assert node.children[..0] == [];
      while e < |node.children|
        invariant 0 <= e <= |node.children|
        invariant tree.Valid() && i < |tree.nodes| && |tree.nodes| == |old(tree.nodes)| + CopiesList(nodes, node.children[..e], b)
        invariant tree.nodes[..i] == old(tree.nodes[..i])
        invariant tree.nodes[i] == old(tree.nodes[i]).(children := tree.nodes[i].children, all := tree.nodes[i].all)
        invariant Covers(tree.nodes, i)
        invariant tree.cache == old(tree.cache) && tree.resetMark == old(tree.resetMark)
        invariant occ == Occurrences(node.children[..e]) && forall j :: 0 <= j < |occ| ==> b < occ[j] < |nodes|
        invariant ChildrenExpanded(tree.nodes, i, nodes, occ, b)
      {
        var entry := node.children[e];
        EntryPrefix(nodes, b, e);
        CreateCopies(tree, i, entry.0, entry.1, occ, b);
        occ := occ + Replicate(entry.0, entry.1);
        e := e + 1;
      }
      assert node.children[..e] == node.children;
    }

    /** The `k` copies of one child entry, each created and then recorded as a child of membrane p. */
    method CreateCopies(tree: Tree, p: nat, c: nat, k: nat, ghost occ: seq<nat>, ghost lo: nat)
      requires Valid() && c < |nodes| && tree.Valid() && p < |tree.nodes|
      requires Covers(tree.nodes, p)
      requires lo < c && (forall j :: 0 <= j < |occ| ==> lo < occ[j] < |nodes|) && ChildrenExpanded(tree.nodes, p, nodes, occ, lo)
      modifies tree
      ensures tree.Valid() && |tree.nodes| == |old(tree.nodes)| + k * Copies(nodes, c)
      ensures tree.nodes[..p] == old(tree.nodes[..p])
      ensures tree.nodes[p] == old(tree.nodes[p]).(children := tree.nodes[p].children, all := tree.nodes[p].all)
      ensures Covers(tree.nodes, p)
      ensures tree.cache == old(tree.cache) && tree.resetMark == old(tree.resetMark)
      ensures forall y :: 0 <= y < |old(tree.nodes)| && y != p ==> tree.nodes[y] == old(tree.nodes[y])
      ensures |tree.nodes[p].children| == |old(tree.nodes[p].children)| + k
      ensures tree.nodes[p].children[..|old(tree.nodes[p].children)|] == old(tree.nodes[p].children)
      ensures ChildrenExpanded(tree.nodes, p, nodes, occ + Replicate(c, k), lo)
      decreases |nodes| - c, 3
    {
      ghost var size := Copies(nodes, c);
      ghost var n0 := |tree.nodes[p].children|;
      var n := 0;
      while n < k
        invariant 0 <= n <= k
        invariant tree.Valid() && p < |tree.nodes| && |tree.nodes| == |old(tree.nodes)| + n * size
        invariant tree.nodes[..p] == old(tree.nodes[..p])
        invariant tree.nodes[p] == old(tree.nodes[p]).(children := tree.nodes[p].children, all := tree.nodes[p].all)
        invariant Covers(tree.nodes, p)
        invariant tree.cache == old(tree.cache) && tree.resetMark == old(tree.resetMark)
        invariant forall y :: 0 <= y < |old(tree.nodes)| && y != p ==> tree.nodes[y] == old(tree.nodes[y])
        invariant |tree.nodes[p].children| == n0 + n && tree.nodes[p].children[..n0] == old(tree.nodes[p].children)
        invariant CopiesRecorded(tree.nodes, p, n0, |old(tree.nodes)|, nodes, c)
      {
        CreateCopy(tree, p, c, n0, |old(tree.nodes)|);
        assert (n + 1) * size == n * size + size;
        n := n + 1;
      }
      EntryStep(old(tree.nodes), tree.nodes, p, nodes, occ, lo, c, k);
    }

    /** One copy: `childMembrane.create()` under p, then `addMembrane` records it as p's last child. */
    method CreateCopy(tree: Tree, p: nat, c: nat, ghost n0: nat, ghost base: nat)
      requires Valid() && c < |nodes| && tree.Valid() && p < base <= |tree.nodes|
      requires Covers(tree.nodes, p) && CopiesRecorded(tree.nodes, p, n0, base, nodes, c)
      modifies tree
      ensures tree.Valid() && |tree.nodes| == |old(tree.nodes)| + Copies(nodes, c)
      ensures tree.nodes[..p] == old(tree.nodes[..p])
      ensures tree.nodes[p] == old(tree.nodes[p]).(children := old(tree.nodes[p].children) + [|old(tree.nodes)|], all := tree.nodes[p].all)
      ensures forall y :: 0 <= y < |old(tree.nodes)| && y != p ==> tree.nodes[y] == old(tree.nodes[y])
      ensures Covers(tree.nodes, p)
      ensures tree.cache == old(tree.cache) && tree.resetMark == old(tree.resetMark)
      ensures CopiesRecorded(tree.nodes, p, n0, base, nodes, c)
      decreases |nodes| - c, 2
    {
      ghost var before := tree.nodes;
      var child := Create(tree, c, Some(p));
      ghost var mid := tree.nodes;
      ChildIsNew(before, mid, p, child);
      tree.AddMembrane(p, child);
      CopyStep(before, mid, tree.nodes, p, child);
      assert tree.nodes[p].children == before[p].children + [child];
      RootsStep(before, mid, tree.nodes, p, child, nodes, c, n0, base);
    }
  }

  /** The children of p from position n0 on are new membranes (from index base on), each an expansion of builder c. */
  ghost predicate CopiesRecorded(t: seq<Membrane>, p: nat, n0: nat, base: nat, bs: seq<BuilderNode>, c: nat)
    requires BuilderArena(bs) && c < |bs|
  {
    p < |t| && n0 <= |t[p].children| &&
    forall j :: n0 <= j < |t[p].children| ==>
      base <= t[p].children[j] < |t| && t[t[p].children[j]].parent == Some(p) && Expanded(t, t[p].children[j], bs, c)
  }

  /** The copies and the occurrences of one more entry of builder b's children. */
  lemma EntryPrefix(nodes: seq<BuilderNode>, b: nat, e: nat)
    requires BuilderArena(nodes) && b < |nodes| && e < |nodes[b].children|
    ensures var entry := nodes[b].children[e];
      b < entry.0 < |nodes| &&
      CopiesList(nodes, nodes[b].children[..e + 1], b) == CopiesList(nodes, nodes[b].children[..e], b) + entry.1 * Copies(nodes, entry.0) &&
      Occurrences(nodes[b].children[..e + 1]) == Occurrences(nodes[b].children[..e]) + Replicate(entry.0, entry.1)
  {
    var ch := nodes[b].children;
    assert ch[..e + 1][..e] == ch[..e];
    assert ch[..e + 1][e] == ch[e];
  }

  /** One child entry expanded: the expansions recorded for the earlier entries survive, and the new copies follow them. */
  lemma EntryStep(before: seq<Membrane>, after: seq<Membrane>, i: nat, bs: seq<BuilderNode>, occ: seq<nat>, lo: nat, c: nat, k: nat)
    requires BuilderArena(bs) && (forall j :: 0 <= j < |occ| ==> lo < occ[j] < |bs|) && lo < c < |bs|
    requires ChildrenExpanded(before, i, bs, occ, lo)
    requires |before| <= |after| && forall y :: 0 <= y < |before| && y != i ==> after[y] == before[y]
    requires |after[i].children| == |occ| + k && after[i].children[..|occ|] == before[i].children
    requires CopiesRecorded(after, i, |occ|, |before|, bs, c)
    ensures ChildrenExpanded(after, i, bs, occ + Replicate(c, k), lo)
  {
    var occ' := occ + Replicate(c, k);
    var kids := after[i].children;
    EarlierEntriesKept(before, after, i, bs, occ, lo, occ');
    forall j | |occ| <= j < |occ'|
      ensures i < kids[j] < |after| && after[kids[j]].parent == Some(i) && Expanded(after, kids[j], bs, occ'[j])
    {
      assert occ'[j] == c;
    }
  }

  /** The children recorded for the earlier entries are still expansions once later membranes are added. */
  lemma EarlierEntriesKept(before: seq<Membrane>, after: seq<Membrane>, i: nat, bs: seq<BuilderNode>, occ: seq<nat>, lo: nat, occ': seq<nat>)
    requires BuilderArena(bs) && forall j :: 0 <= j < |occ| ==> lo < occ[j] < |bs|
    requires |occ| <= |occ'| && forall j :: 0 <= j < |occ| ==> occ'[j] == occ[j]
    requires ChildrenExpanded(before, i, bs, occ, lo)
    requires |before| <= |after| && forall y :: 0 <= y < |before| && y != i ==> after[y] == before[y]
    requires |occ| <= |after[i].children| && after[i].children[..|occ|] == before[i].children
    ensures forall j :: 0 <= j < |occ| ==>
      i < after[i].children[j] < |after| && after[after[i].children[j]].parent == Some(i) && Expanded(after, after[i].children[j], bs, occ'[j])
  {
    var kids := after[i].children;
    forall j | 0 <= j < |occ|
      ensures i < kids[j] < |after| && after[kids[j]].parent == Some(i) && Expanded(after, kids[j], bs, occ'[j])
    {
      assert kids[j] == kids[..|occ|][j] == before[i].children[j];
      ExpandedFrame(before, after, kids[j], bs, occ[j]);
    }
  }

  /**
   * One more copy recorded under p: the copies recorded so far are still
   * expansions, and so is the new one, now p's last child.
   */
  lemma RootsStep(before: seq<Membrane>, mid: seq<Membrane>, after: seq<Membrane>, p: nat, child: nat,
                  bs: seq<BuilderNode>, c: nat, n0: nat, base: nat)
    requires BuilderArena(bs) && c < |bs| && p < base <= |before| == child < |mid| == |after| && mid[..child] == before
    requires forall y :: 0 <= y < |after| && y != p ==> after[y] == mid[y]
    requires after[p].children == before[p].children + [child]
    requires CopiesRecorded(before, p, n0, base, bs, c)
    requires mid[child].parent == Some(p) && Expanded(mid, child, bs, c)
    ensures CopiesRecorded(after, p, n0, base, bs, c)
  {
    forall j | n0 <= j < |after[p].children|
      ensures base <= after[p].children[j] < |after|
      ensures after[after[p].children[j]].parent == Some(p) && Expanded(after, after[p].children[j], bs, c)
    {
      var x := after[p].children[j];
      if j < |before[p].children| {
        assert x == before[p].children[j];
        assert mid[..child][x] == mid[x];
        ExpandedFrame(before, after, x, bs, c);
      } else {
        assert x == child;
        ExpandedFrame(mid, after, x, bs, c);
      }
    }
  }

  /** The membrane of one builder, with the builder's species and no children yet. */
  method NewFromBuilder(tree: Tree, node: BuilderNode, parent: Option<nat>) returns (i: nat)
    requires tree.Valid() && (parent.Some? ==> parent.value < |tree.nodes|)
    requires PositiveCounts(node.on) && PositiveCounts(node.under) && PositiveCounts(node.contained)
    modifies tree
    ensures tree.Valid() && i == |old(tree.nodes)| && |tree.nodes| == i + 1
    ensures tree.nodes[..i] == old(tree.nodes)
    ensures var m := tree.nodes[i];
      m.mtype == node.mtype && m.tags == KeptTags(node.mtype, node.tags) && m.parent == parent &&
      m.on == node.on && m.under == node.under && m.contained == node.contained &&
      m.uniqueTag == UniqueTagFor(node.mtype, Lookup(old(tree.typeIndices), node.mtype) + 1) &&
      m.children == [] && m.all == [i]
    ensures Covers(tree.nodes, i)
    ensures tree.cache == old(tree.cache) && tree.resetMark == old(tree.resetMark)
  {
    i := tree.NewMembrane(node.mtype, node.tags, parent);
    CopySpecies(tree, i, node);
    LeafCovers(tree.nodes, i);
  }

  /** The three species loops of `create`, filling the empty multisets of membrane i from the builder. */
  method CopySpecies(tree: Tree, i: nat, node: BuilderNode)
    requires tree.Valid() && i < |tree.nodes|
    requires tree.nodes[i].on == map[] && tree.nodes[i].under == map[] && tree.nodes[i].contained == map[]
    requires PositiveCounts(node.on) && PositiveCounts(node.under) && PositiveCounts(node.contained)
    modifies tree
    ensures tree.Valid() && tree.nodes == old(tree.nodes)[i := old(tree.nodes[i]).(on := node.on, under := node.under, contained := node.contained)]
    ensures tree.cache == old(tree.cache) && tree.resetMark == old(tree.resetMark)
  {
    ghost var m0 := tree.nodes[i];
    CopyCounts(tree, i, On, node.on);
    assert tree.nodes[i] == m0.(on := node.on);
    CopyCounts(tree, i, Under, node.under);
    assert tree.nodes[i] == m0.(on := node.on, under := node.under);
    CopyCounts(tree, i, Contained, node.contained);
  }

  /** The builder after `addSpecies`. */
  function BuilderWithSpecies(node: BuilderNode, ls: LocatedSpecies): (r: BuilderNode)
    ensures PositiveCounts(node.on) && PositiveCounts(node.under) && PositiveCounts(node.contained) ==>
      PositiveCounts(r.on) && PositiveCounts(r.under) && PositiveCounts(r.contained)
    ensures r.mtype == node.mtype && r.tags == node.tags && r.children == node.children
  {
    match ls.location
    case On => node.(on := AddCount(node.on, ls.speciesName, 1))
    case Under => node.(under := AddCount(node.under, ls.speciesName, 1))
    case Contained => node.(contained := AddCount(node.contained, ls.speciesName, 1))
    case Around => node
  }

  /** Each `addSpecies` call adds exactly one copy at its location (and none for `around`). */
  lemma BuilderSpeciesCount(node: BuilderNode, ls: LocatedSpecies)
    ensures var r := BuilderWithSpecies(node, ls);
      (ls.location == On ==> Count(r.on, ls.speciesName) == Count(node.on, ls.speciesName) + 1) &&
      (ls.location == Under ==> Count(r.under, ls.speciesName) == Count(node.under, ls.speciesName) + 1) &&
      (ls.location == Contained ==> Count(r.contained, ls.speciesName) == Count(node.contained, ls.speciesName) + 1) &&
      (ls.location == Around ==> r == node)
  {
  }

  /** Adding copies of a later builder keeps the arena well formed. */
  lemma AddChildArena(nodes: seq<BuilderNode>, b: nat, child: nat, k: nat)
    requires BuilderArena(nodes) && b < child < |nodes|
    ensures BuilderArena(nodes[b := nodes[b].(children := AddChild(nodes[b].children, child, k))])
  {
    AddChildShape(nodes[b].children, b, |nodes|, child, k);
  }

  /** `AddChild` keeps the entries well formed. */
  lemma AddChildShape(children: seq<(nat, nat)>, lo: nat, hi: nat, child: nat, k: nat)
    requires EntriesOk(children, lo, hi) && lo < child < hi
    ensures EntriesOk(AddChild(children, child, k), lo, hi)
  {
  }

  /** The newest membrane, with no children yet, covers the tail of the arena it ends. */
  lemma LeafCovers(nodes: seq<Membrane>, i: nat)
    requires Links(nodes) && i + 1 == |nodes| && nodes[i].children == [] && nodes[i].all == [i]
    ensures Covers(nodes, i)
  {
    assert Reach(nodes, i) == {i};
  }

  /** Membrane p's subtree index and reach are exactly the membranes from p to the end of the arena. */
  ghost predicate Covers(nodes: seq<Membrane>, p: nat) {
    Links(nodes) && p < |nodes| &&
    (forall m :: m in nodes[p].all <==> p <= m < |nodes|) &&
    (forall m :: m in Reach(nodes, p) <==> p <= m < |nodes|)
  }

  /** A membrane created after all of p's subtree is not yet a child of p. */
  lemma ChildIsNew(before: seq<Membrane>, mid: seq<Membrane>, p: nat, child: nat)
    requires Links(before) && p < |before| == child < |mid| && mid[..child] == before
    ensures mid[p] == before[p] && child !in mid[p].children
  {
    assert mid[..child][p] == mid[p];
  }

  /**
   * One more copy recorded under p: p's subtree index and reach grow by the
   * copy's subtree, which is the new tail of the arena.
   */
  lemma CopyStep(before: seq<Membrane>, mid: seq<Membrane>, after: seq<Membrane>, p: nat, child: nat)
    requires Links(before) && Links(mid) && Links(after)
    requires p < |before| == child < |mid| == |after| && mid[..child] == before
    requires Covers(before, p) && Covers(mid, child)
    requires forall j :: 0 <= j < |after| && j != p ==> after[j] == mid[j]
    requires forall m :: m in after[p].all <==> m in mid[p].all || m in Reach(mid, child)
    requires Reach(after, p) == Reach(mid, p) + Reach(mid, child)
    ensures Covers(after, p) && after[..p] == before[..p]
  {
    assert forall y :: 0 <= y < |before| ==> mid[..child][y] == mid[y];
    ReachFrame(before, mid, p);
    assert mid[p] == before[p];
  }

  /**
   * Copies a builder multiset into an empty multiset of a new membrane, one
   * `addSpecies(location, name, count)` call per entry.
   */
  method CopyCounts(tree: Tree, i: nat, loc: Location, counts: Counts)
    requires tree.Valid() && i < |tree.nodes| && loc != Around && PositiveCounts(counts)
    requires LocalCounts(tree.nodes[i], loc) == map[]
    modifies tree
    ensures tree.Valid() && tree.nodes == old(tree.nodes)[i := WithLocalCounts(old(tree.nodes[i]), loc, counts)]
    ensures tree.cache == old(tree.cache) && tree.resetMark == old(tree.resetMark)
  {
    var keys := counts.Keys;
    ghost var m0 := tree.nodes[i];
    while keys != {}
      invariant keys <= counts.Keys
      invariant tree.Valid() && tree.nodes == old(tree.nodes)[i := WithLocalCounts(m0, loc, Restrict(counts, counts.Keys - keys))]
      invariant tree.cache == old(tree.cache) && tree.resetMark == old(tree.resetMark)
      decreases |keys|
    {
      var s :| s in keys;
      RestrictAdd(counts, counts.Keys - keys, s);
      assert counts.Keys - (keys - {s}) == (counts.Keys - keys) + {s};
      tree.AddSpeciesAt(i, loc, s, counts[s]);
      keys := keys - {s};
    }
    assert counts.Keys - keys == counts.Keys;
    assert Restrict(counts, counts.Keys) == counts;
  }

  function Restrict(c: Counts, ks: set<string>): Counts {
    map s | s in c && s in ks :: c[s]
  }

  /** Adding the full count of one more key to the part copied so far. */
  lemma RestrictAdd(c: Counts, ks: set<string>, s: string)
    requires PositiveCounts(c) && s in c && s !in ks
    ensures AddCount(Restrict(c, ks), s, c[s]) == Restrict(c, ks + {s})
  {
    assert Count(Restrict(c, ks), s) == 0;
  }

  /**
   * The end of the initial-tree definition: the unique-tag numbering starts
   * again and the root builder is expanded into a new tree. The root is
   * membrane 0, is numbered 1 of its type, and its subtree index holds
   * every membrane of the tree. The k-th membrane of each type is numbered
   * k, so every generated tag differs from all the others.
   */
  method BuildInitialTree(bs: Builders, root: nat) returns (tree: Tree)
    requires bs.Valid() && root < |bs.nodes|
    ensures tree.Valid() && |tree.nodes| == Copies(bs.nodes, root)
    ensures tree.nodes[0].parent == None && tree.nodes[0].mtype == bs.nodes[root].mtype
    ensures tree.nodes[0].uniqueTag == UniqueTagFor(bs.nodes[root].mtype, 1)
    ensures forall m :: m in tree.nodes[0].all <==> 0 <= m < |tree.nodes|
    ensures forall m :: m in Reach(tree.nodes, 0) <==> 0 <= m < |tree.nodes|
    ensures tree.cache == map[] && fresh(tree)
    ensures MadeFrom(tree.nodes[0], bs.nodes[root]) && Expanded(tree.nodes, 0, bs.nodes, root)
    ensures tree.resetMark == 0
    ensures forall i :: 0 <= i < |tree.nodes| ==>
      tree.nodes[i].uniqueTag == UniqueTagFor(tree.nodes[i].mtype, CountType(tree.nodes, 0, i + 1, tree.nodes[i].mtype))
    ensures forall i, j :: 0 <= i < j < |tree.nodes| ==> tree.nodes[i].uniqueTag != tree.nodes[j].uniqueTag
  {
    tree := new Tree();
    tree.ResetUniqueTags();
    var i := bs.Create(tree, root, None);
    TagsDistinct(tree.nodes, tree.resetMark, tree.typeIndices);
  }

  // ---------------------------------------------------------------- parser callbacks

  const BadQuotedTag: string := "String index out of range"

  /**
   * A tag value in single quotes loses exactly the outer quotes; a lone
   * quote both starts and ends the value, and taking its inside throws.
   */
  function Unquote(tag: string): (r: Result<string>)
    ensures r.Failure? <==> tag == "'"
    ensures r.Success? && StartsWith(tag, "'") && EndsWith(tag, "'") ==> tag == "'" + r.value + "'"
    ensures !(StartsWith(tag, "'") && EndsWith(tag, "'")) ==> r == Success(tag)
  {
    if StartsWith(tag, "'") && EndsWith(tag, "'") then
      if |tag| < 2 then Failure(BadQuotedTag)
      else
        assert tag == [tag[0]] + tag[1..|tag| - 1] + [tag[|tag| - 1]];
        Success(tag[1..|tag| - 1])
    else Success(tag)
  }

  /** Quoting and unquoting give the tag back. */
  lemma UnquoteQuoted(t: string)
    ensures Unquote("'" + t + "'") == Success(t)
  {
    var q := "'" + t + "'";
    assert q[..1] == "'" && q[|q| - 1..] == "'";
    assert q[1..|q| - 1] == t;
  }

  /**
   * Entering a membrane definition: a new builder under the innermost open
   * one, added once as a placeholder.
   */
  method EnterMembraneDefinition(bs: Builders, parent: nat) returns (b: nat)
    requires bs.Valid() && parent < |bs.nodes|
    modifies bs
    ensures bs.Valid() && b == |old(bs.nodes)| && |bs.nodes| == b + 1 && bs.nodes[b] == EmptyBuilder()
    ensures Multiplicity(bs.nodes[parent].children, b) == 1
    ensures forall d :: d != b ==> Multiplicity(bs.nodes[parent].children, d) == Multiplicity(old(bs.nodes[parent].children), d)
    ensures bs.nodes[parent] == old(bs.nodes[parent]).(children := bs.nodes[parent].children)
    ensures forall x :: 0 <= x < |old(bs.nodes)| && x != parent ==> bs.nodes[x] == old(bs.nodes[x])
  {
    b := bs.NewBuilder();
    assert Multiplicity(bs.nodes[parent].children, b) == 0 by {
      NotYetAChild(bs.nodes[parent].children, b);
    }
    var res := bs.AddMembrane(parent, b, 1);
  }

  /**
   * Leaving a membrane definition: the type and the unquoted tags are set,
   * then the remaining howMany - 1 copies are added (howMany is 1 when the
   * count is absent). A zero count asks for -1 copies and fails.
   */
  method ExitMembraneDefinition(bs: Builders, parent: nat, b: nat, mtype: string, howMany: Option<nat>, tags: seq<string>)
    returns (res: Result<()>)
    requires bs.Valid() && parent < b < |bs.nodes| && Multiplicity(bs.nodes[parent].children, b) == 1
    modifies bs
    ensures bs.Valid() && |bs.nodes| == |old(bs.nodes)|
    ensures res.Success? ==>
      bs.nodes[b].mtype == mtype && Multiplicity(bs.nodes[parent].children, b) == (if howMany.Some? then howMany.value else 1)
    ensures res.Success? <==> (howMany.None? || howMany.value > 0) && forall k :: 0 <= k < |tags| ==> tags[k] != "'"
    ensures res.Success? ==> |bs.nodes[b].tags| == |old(bs.nodes[b].tags)| + |tags|
    ensures res.Success? ==> forall k :: 0 <= k < |tags| ==> Unquote(tags[k]) == Success(bs.nodes[b].tags[|old(bs.nodes[b].tags)| + k])
    ensures res.Failure? ==> Multiplicity(bs.nodes[parent].children, b) == 1
    ensures bs.nodes[b] == old(bs.nodes[b]).(mtype := mtype, tags := bs.nodes[b].tags) && old(bs.nodes[b].tags) <= bs.nodes[b].tags
    ensures bs.nodes[parent] == old(bs.nodes[parent]).(children := bs.nodes[parent].children)
    ensures forall d :: d != b ==> Multiplicity(bs.nodes[parent].children, d) == Multiplicity(old(bs.nodes[parent].children), d)
    ensures forall x :: 0 <= x < |bs.nodes| && x != b && x != parent ==> bs.nodes[x] == old(bs.nodes[x])
  {
    bs.SetType(b, mtype);
    var copies := if howMany.Some? then howMany.value else 1;
    var k := 0;
    while k < |tags|
      invariant 0 <= k <= |tags| && bs.Valid() && |bs.nodes| == |old(bs.nodes)|
      invariant Multiplicity(bs.nodes[parent].children, b) == 1
      invariant forall q :: 0 <= q < k ==> tags[q] != "'"
      invariant |bs.nodes[b].tags| == |old(bs.nodes[b].tags)| + k
      invariant forall q :: 0 <= q < k ==> Unquote(tags[q]) == Success(bs.nodes[b].tags[|old(bs.nodes[b].tags)| + q])
      invariant bs.nodes[b] == old(bs.nodes[b]).(mtype := mtype, tags := bs.nodes[b].tags) && old(bs.nodes[b].tags) <= bs.nodes[b].tags
      invariant bs.nodes[parent] == old(bs.nodes[parent])
      invariant forall x :: 0 <= x < |bs.nodes| && x != b ==> bs.nodes[x] == old(bs.nodes[x])
    {
      var t := Unquote(tags[k]);
      if t.Failure? {
        return Failure(t.error);
      }
      bs.AddTag(b, t.value);
      k := k + 1;
    }
    res := bs.AddMembrane(parent, b, copies - 1);
  }

  lemma {:induction false} NotYetAChild(children: seq<(nat, nat)>, b: nat)
    requires forall e :: 0 <= e < |children| ==> children[e].0 < b
    ensures Multiplicity(children, b) == 0
    decreases |children|
  {
    if children != [] {
      NotYetAChild(children[..|children| - 1], b);
    }
  }
}
