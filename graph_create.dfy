/**
 * Building the diagram graph of a model (diagramming/Graph.java, `create`
 * with and without tags). Species get nodes of group 1 with ids 0, 1, ...;
 * reactions get nodes of group 2 after them; every consumed species is
 * joined to its reaction and every reaction to its produced species. With
 * tags, a reference to a species without any of the tags gets a new node of
 * group 3 of its own. A node's handle is its id.
 */
module DiagramBuilding {
  import opened Wrappers
  import opened Species
  import opened Reactions
  import opened Models
  import opened Diagrams
  import opened Collections
  import Text

  /** A species node: `new Node(id, 1, speciesName)`. */
  function SpeciesNode(id: nat, name: string): Node {
    Node(id, 1, Some(name), map[], None, None)
  }

  /** The reaction was built with its MDSL line (`setMdslLine` sets both parts). */
  predicate LineRecorded(r: Reaction) {
    r.mdslLine.Some? && r.mdslLineNumber.Some?
  }

  /** A reaction node: `new Node(id, 2)` with the reaction's MDSL line and line number as data. */
  function ReactionNode(id: nat, r: Reaction): Node
    requires LineRecorded(r)
  {
    Node(id, 2, None, map["mdsl_line" := r.mdslLine.value,
                          "mdsl_line_number" := Text.IntToString(r.mdslLineNumber.value)], None, None)
  }

  /** A stand-in for a species without the tags: `new Node(id, 3, speciesName)`. */
  function UntaggedNode(id: nat, name: string): Node {
    Node(id, 3, Some(name), map[], None, None)
  }

  /** One mention of a species by a reaction: the reaction's node, the species name and its side. */
  datatype Ref = Ref(reaction: nat, name: string, consumed: bool)

  /** The mentions of one reaction, in the order `create` visits them: consumed, then produced. */
  function ReactionRefs(handle: nat, r: Reaction): seq<Ref> {
    seq(|r.consumed|, j requires 0 <= j < |r.consumed| => Ref(handle, r.consumed[j].species.speciesName, true))
    + seq(|r.produced|, j requires 0 <= j < |r.produced| => Ref(handle, r.produced[j].species.speciesName, false))
  }

  /** The mentions of the reactions `order` lists, the i-th one having node first + i. */
  function AllRefs(first: nat, order: seq<nat>, reactions: seq<Reaction>): seq<Ref>
    requires forall i :: 0 <= i < |order| ==> order[i] < |reactions|
  {
    if order == [] then []
    else AllRefs(first, order[..|order| - 1], reactions)
         + ReactionRefs(first + |order| - 1, reactions[order[|order| - 1]])
  }

  predicate Consumes(r: Reaction, name: string) {
    exists j :: 0 <= j < |r.consumed| && r.consumed[j].species.speciesName == name
  }

  predicate Produces(r: Reaction, name: string) {
    exists j :: 0 <= j < |r.produced| && r.produced[j].species.speciesName == name
  }

  /** A mention is in the list exactly when its reaction is listed and mentions the species on that side. */
  lemma {:induction false} AllRefsMembers(first: nat, order: seq<nat>, reactions: seq<Reaction>, ref: Ref)
    requires forall i :: 0 <= i < |order| ==> order[i] < |reactions|
    ensures ref in AllRefs(first, order, reactions) <==>
      first <= ref.reaction < first + |order| &&
      (if ref.consumed then Consumes(reactions[order[ref.reaction - first]], ref.name)
       else Produces(reactions[order[ref.reaction - first]], ref.name))
  {
    if order != [] {
      var init := order[..|order| - 1];
      var r := reactions[order[|order| - 1]];
      var h := first + |order| - 1;
      AllRefsMembers(first, init, reactions, ref);
      ReactionRefsMembers(h, r, ref);
      assert AllRefs(first, order, reactions) == AllRefs(first, init, reactions) + ReactionRefs(h, r);
      if first <= ref.reaction < h {
        assert order[ref.reaction - first] == init[ref.reaction - first];
      }
    }
  }

  /** A mention is among a reaction's exactly when it names the reaction and a species on that side. */
  lemma ReactionRefsMembers(h: nat, r: Reaction, ref: Ref)
    ensures ref in ReactionRefs(h, r) <==>
      ref.reaction == h && (if ref.consumed then Consumes(r, ref.name) else Produces(r, ref.name))
  {
    var own := ReactionRefs(h, r);
    if ref in own {
      var k :| 0 <= k < |own| && own[k] == ref;
      if k < |r.consumed| {
        assert r.consumed[k].species.speciesName == ref.name;
      } else {
        assert r.produced[k - |r.consumed|].species.speciesName == ref.name;
      }
    }
    if ref.reaction == h {
      if ref.consumed && Consumes(r, ref.name) {
        var j :| 0 <= j < |r.consumed| && r.consumed[j].species.speciesName == ref.name;
        assert own[j] == ref;
      }
      if !ref.consumed && Produces(r, ref.name) {
        var j :| 0 <= j < |r.produced| && r.produced[j].species.speciesName == ref.name;
        assert own[|r.consumed| + j] == ref;
      }
    }
  }

  /** What the wiring has built so far: nodes, edges and the next free id. */
  datatype Built = Built(nodes: map<nat, Node>, edges: set<(nat, nat)>, next: nat)

  /** The edge between a mention's reaction and the node standing for its species. */
  function Endpoints(ref: Ref, species: nat): (nat, nat) {
    if ref.consumed then (species, ref.reaction) else (ref.reaction, species)
  }

  /**
   * One mention wired: a species with a node is joined to the reaction; a
   * species without one gets a new group-3 node when `duplicate` holds, and
   * is passed over otherwise.
   */
  function WireOne(ref: Ref, at: map<string, nat>, duplicate: bool, b: Built): Built {
    if ref.name in at then Built(b.nodes, b.edges + {Endpoints(ref, at[ref.name])}, b.next)
    else if duplicate then
      Built(b.nodes[b.next := UntaggedNode(b.next, ref.name)], b.edges + {Endpoints(ref, b.next)}, b.next + 1)
    else b
  }

  /** All mentions wired in order. */
  function Wire(refs: seq<Ref>, at: map<string, nat>, duplicate: bool, b: Built): Built {
    if refs == [] then b
    else WireOne(refs[|refs| - 1], at, duplicate, Wire(refs[..|refs| - 1], at, duplicate, b))
  }

  /** How many mentions name a species outside `known`. */
  function Missing(refs: seq<Ref>, known: set<string>): nat {
    if refs == [] then 0
    else Missing(refs[..|refs| - 1], known) + (if refs[|refs| - 1].name in known then 0 else 1)
  }

  /** The edges of a mention whose species has a node. */
  ghost predicate KnownEdge(refs: seq<Ref>, at: map<string, nat>, e: (nat, nat)) {
    exists ref :: ref in refs && ref.name in at && e == Endpoints(ref, at[ref.name])
  }

  /** The edges touching node h. */
  function Touching(edges: set<(nat, nat)>, h: nat): set<(nat, nat)> {
    set e | e in edges && (e.0 == h || e.1 == h)
  }

  /**
   * Without duplicates no node is added and the edges added are exactly
   * those of the mentions whose species has a node.
   */
  lemma {:induction false} WireKnown(refs: seq<Ref>, at: map<string, nat>, b: Built)
    ensures Wire(refs, at, false, b).nodes == b.nodes && Wire(refs, at, false, b).next == b.next
    ensures forall e :: e in Wire(refs, at, false, b).edges <==> e in b.edges || KnownEdge(refs, at, e)
  {
    if refs != [] {
      var init := refs[..|refs| - 1];
      var last := refs[|refs| - 1];
      WireKnown(init, at, b);
      forall e
        ensures e in Wire(refs, at, false, b).edges <==> e in b.edges || KnownEdge(refs, at, e)
      {
        if KnownEdge(refs, at, e) {
          var ref :| ref in refs && ref.name in at && e == Endpoints(ref, at[ref.name]);
          if ref != last {
            assert ref in init;
          }
        }
        if KnownEdge(init, at, e) {
          var ref :| ref in init && ref.name in at && e == Endpoints(ref, at[ref.name]);
          assert ref in refs;
        }
        if last.name in at && e == Endpoints(last, at[last.name]) {
          assert last in refs;
        }
      }
    }
  }

  /** Every id in the built nodes and at every end of a built edge is below the next free id. */
  ghost predicate Below(b: Built) {
    (forall h :: h in b.nodes ==> h < b.next) &&
    (forall e :: e in b.edges ==> e.0 < b.next && e.1 < b.next)
  }

  /** Every node a mention or the name table points at is below `bound`. */
  ghost predicate PointsBelow(refs: seq<Ref>, at: map<string, nat>, bound: nat) {
    (forall n :: n in at ==> at[n] < bound) &&
    (forall ref :: ref in refs ==> ref.reaction < bound)
  }

  /** The new group-3 node h stands for a mention of an unknown species and has that mention's edge alone. */
  ghost predicate StandIn(refs: seq<Ref>, known: set<string>, nodes: map<nat, Node>, edges: set<(nat, nat)>, h: nat) {
    h in nodes &&
    exists ref :: ref in refs && ref.name !in known && nodes[h] == UntaggedNode(h, ref.name) &&
                  Touching(edges, h) == {Endpoints(ref, h)}
  }

  /**
   * What wiring `refs` with duplicates onto b has produced in r: r is below
   * its next id, counts one new node per mention of a species without a
   * node, keeps the old nodes, makes each new node a stand-in and adds
   * between old nodes exactly the edges of the known mentions.
   */
  ghost predicate FreshOk(refs: seq<Ref>, at: map<string, nat>, b: Built, r: Built) {
    && Below(r)
    && r.next == b.next + Missing(refs, at.Keys)
    && (forall h :: h in r.nodes <==> h in b.nodes || b.next <= h < r.next)
    && (forall h :: h in b.nodes ==> r.nodes[h] == b.nodes[h])
    && (forall h: nat :: b.next <= h < r.next ==> StandIn(refs, at.Keys, r.nodes, r.edges, h))
    && (forall x: nat, y: nat :: x < b.next && y < b.next ==>
          ((x, y) in r.edges <==> (x, y) in b.edges || KnownEdge(refs, at, (x, y))))
  }

  /** The stand-ins of the earlier mentions stay stand-ins, and a new one is one too. */
  lemma StandInsStep(init: seq<Ref>, last: Ref, at: map<string, nat>, b: Built, p: Built)
    requires FreshOk(init, at, b, p) && Below(b) && PointsBelow(init + [last], at, b.next)
    ensures forall h: nat :: b.next <= h < WireOne(last, at, true, p).next ==>
      StandIn(init + [last], at.Keys, WireOne(last, at, true, p).nodes, WireOne(last, at, true, p).edges, h)
  {
    var refs := init + [last];
    var r := WireOne(last, at, true, p);
    assert last in refs;
    forall h: nat | b.next <= h < p.next
      ensures StandIn(refs, at.Keys, r.nodes, r.edges, h)
    {
      assert StandIn(init, at.Keys, p.nodes, p.edges, h);
      var ref :| ref in init && ref.name !in at && p.nodes[h] == UntaggedNode(h, ref.name) &&
                 Touching(p.edges, h) == {Endpoints(ref, h)};
      assert ref in refs;
      assert Touching(r.edges, h) == Touching(p.edges, h);
    }
    if last.name !in at {
      assert Touching(p.edges, p.next) == {};
      assert Touching(r.edges, p.next) == {Endpoints(last, p.next)};
    }
  }

  /** Between old nodes, wiring one more mention adds exactly its edge when its species has a node. */
  lemma KnownEdgesStep(init: seq<Ref>, last: Ref, at: map<string, nat>, b: Built, p: Built)
    requires FreshOk(init, at, b, p) && Below(b) && PointsBelow(init + [last], at, b.next)
    ensures forall x: nat, y: nat :: x < b.next && y < b.next ==>
      ((x, y) in WireOne(last, at, true, p).edges <==> (x, y) in b.edges || KnownEdge(init + [last], at, (x, y)))
  {
    var refs := init + [last];
    var r := WireOne(last, at, true, p);
    assert last in refs;
    forall x: nat, y: nat | x < b.next && y < b.next
      ensures (x, y) in r.edges <==> (x, y) in b.edges || KnownEdge(refs, at, (x, y))
    {
      var e := (x, y);
      if KnownEdge(refs, at, e) {
        var ref :| ref in refs && ref.name in at && e == Endpoints(ref, at[ref.name]);
        if ref != last {
          assert ref in init;
        }
      }
      if KnownEdge(init, at, e) {
        var ref :| ref in init && ref.name in at && e == Endpoints(ref, at[ref.name]);
        assert ref in refs;
      }
    }
  }

  /** Wiring one more mention keeps FreshOk. */
  lemma WireFreshStep(init: seq<Ref>, last: Ref, at: map<string, nat>, b: Built, p: Built)
    requires FreshOk(init, at, b, p) && Below(b) && PointsBelow(init + [last], at, b.next)
    ensures FreshOk(init + [last], at, b, WireOne(last, at, true, p))
  {
    var refs := init + [last];
    assert refs[..|refs| - 1] == init;
    StandInsStep(init, last, at, b, p);
    KnownEdgesStep(init, last, at, b, p);
  }

  /**
   * With duplicates, each mention of a species without a node adds one new
   * node of group 3, whose only edge joins it to the mention's reaction;
   * between old nodes the edges added are those of the known mentions.
   */
  lemma {:induction false} WireFresh(refs: seq<Ref>, at: map<string, nat>, b: Built)
    requires Below(b) && PointsBelow(refs, at, b.next)
    ensures FreshOk(refs, at, b, Wire(refs, at, true, b))
  {
    if refs != [] {
      var init := refs[..|refs| - 1];
      var last := refs[|refs| - 1];
      assert refs == init + [last];
      assert forall ref :: ref in init ==> ref in refs;
      WireFresh(init, at, b);
      WireFreshStep(init, last, at, b, Wire(init, at, true, b));
    }
  }

  /** `at` gives each name its position in order, and order lists each name of `names` once. */
  ghost predicate Numbered(names: set<string>, at: map<string, nat>, order: seq<string>) {
    && at.Keys == names
    && (forall n :: n in at ==> at[n] < |order| && order[at[n]] == n)
    && (forall i :: 0 <= i < |order| ==> order[i] in at && at[order[i]] == i)
  }

  /** The nodes are exactly the species nodes of order, the i-th with id i. */
  ghost predicate SpeciesNodes(nodes: map<nat, Node>, order: seq<string>) {
    && (forall h: nat :: h in nodes <==> h < |order|)
    && (forall h :: 0 <= h < |order| ==> nodes[h] == SpeciesNode(h, order[h]))
  }

  /**
   * The species loop of `create`: one group-1 node per name, ids counting
   * up from 0 in the order the names are taken; `at` is the `speciesNodes`
   * table. The names come in insertion order for a whole model (a
   * `LinkedHashSet`) and in no fixed order for a tag list (a `HashSet`); a
   * `set` records neither, so `order` is left open.
   */
  method AddSpeciesNodes(g: Graph, names: set<string>) returns (at: map<string, nat>, ghost order: seq<string>)
    requires g.Valid() && g.nodes == map[]
    modifies g
    ensures g.Valid() && g.edges == old(g.edges)
    ensures Numbered(names, at, order) && |order| == |names|
    ensures SpeciesNodes(g.nodes, order)
  {
    at, order := map[], [];
    var remaining := names;
    var next: nat := 0;
    while remaining != {}
      invariant remaining <= names && next == |order|
      invariant Numbered(names - remaining, at, order) && |order| + |remaining| == |names|
      invariant g.Valid() && g.edges == old(g.edges)
      invariant SpeciesNodes(g.nodes, order)
      decreases |remaining|
    {
      var name :| name in remaining;
      g.AddNode(next, SpeciesNode(next, name));
      at := at[name := next];
      order := order + [name];
      next := next + 1;
      remaining := remaining - {name};
    }
  }

  /** The reaction loop of `create`: the i-th reaction of `order` gets group-2 node first + i. */
  method AddReactionNodes(g: Graph, reactions: seq<Reaction>, order: seq<nat>, first: nat)
    requires g.Valid() && forall h :: h in g.nodes ==> h < first
    requires forall i :: 0 <= i < |order| ==> order[i] < |reactions| && LineRecorded(reactions[order[i]])
    modifies g
    ensures g.Valid() && g.edges == old(g.edges)
    ensures forall h :: h in g.nodes <==> h in old(g.nodes) || first <= h < first + |order|
    ensures forall h :: h in old(g.nodes) ==> g.nodes[h] == old(g.nodes)[h]
    ensures forall i :: 0 <= i < |order| ==> g.nodes[first + i] == ReactionNode(first + i, reactions[order[i]])
  {
    var i := 0;
    while i < |order|
      invariant 0 <= i <= |order|
      invariant g.Valid() && g.edges == old(g.edges)
      invariant forall h :: h in g.nodes <==> h in old(g.nodes) || first <= h < first + i
      invariant forall h :: h in old(g.nodes) ==> g.nodes[h] == old(g.nodes)[h]
      invariant forall k :: 0 <= k < i ==> g.nodes[first + k] == ReactionNode(first + k, reactions[order[k]])
    {
      g.AddNode(first + i, ReactionNode(first + i, reactions[order[i]]));
      i := i + 1;
    }
  }

  /** One mention through `addEdge`, with a new group-3 node first when `duplicate` asks for one. */
  method WireReference(g: Graph, ref: Ref, at: map<string, nat>, duplicate: bool, next: nat) returns (last: nat)
    requires g.Valid() && forall h :: h in g.nodes ==> h < next
    modifies g
    ensures g.Valid() && last >= next && forall h :: h in g.nodes ==> h < last
    ensures Built(g.nodes, g.edges, last) == WireOne(ref, at, duplicate, Built(old(g.nodes), old(g.edges), next))
  {
    last := next;
    if ref.name in at {
      if ref.consumed {
        g.AddEdge(at[ref.name], ref.reaction);
      } else {
        g.AddEdge(ref.reaction, at[ref.name]);
      }
    } else if duplicate {
      g.AddNode(next, UntaggedNode(next, ref.name));
      if ref.consumed {
        g.AddEdge(next, ref.reaction);
      } else {
        g.AddEdge(ref.reaction, next);
      }
      last := next + 1;
    }
  }

  /**
   * The edge loop of `create`: each mention in turn, through `addEdge`;
   * with `duplicate`, a mention of a species without a node first adds a
   * group-3 node with the next id.
   */
  method WireReferences(g: Graph, refs: seq<Ref>, at: map<string, nat>, duplicate: bool, next: nat)
    returns (last: nat)
    requires g.Valid() && forall h :: h in g.nodes ==> h < next
    modifies g
    ensures g.Valid()
    ensures Built(g.nodes, g.edges, last) == Wire(refs, at, duplicate, Built(old(g.nodes), old(g.edges), next))
  {
    last := next;
    var i := 0;
    while i < |refs|
      invariant 0 <= i <= |refs| && last >= next
      invariant g.Valid() && forall h :: h in g.nodes ==> h < last
      invariant Built(g.nodes, g.edges, last) == Wire(refs[..i], at, duplicate, Built(old(g.nodes), old(g.edges), next))
    {
      assert refs[..i + 1][..i] == refs[..i];
      last := WireReference(g, refs[i], at, duplicate, last);
      i := i + 1;
    }
    assert refs[..|refs|] == refs;
  }

  /** The edges `create` draws: consumed species to reaction, reaction to produced species. */
  ghost predicate DiagramEdge(speciesOrder: seq<string>, reactions: seq<Reaction>, order: seq<nat>, x: nat, y: nat)
    requires forall i :: 0 <= i < |order| ==> order[i] < |reactions|
  {
    var S := |speciesOrder|;
    (x < S && S <= y < S + |order| && Consumes(reactions[order[y - S]], speciesOrder[x])) ||
    (S <= x < S + |order| && y < S && Produces(reactions[order[x - S]], speciesOrder[y]))
  }

  /** refs holds exactly the mentions of the reactions of `order`, the i-th one having node first + i. */
  ghost predicate Mentions(refs: seq<Ref>, first: nat, order: seq<nat>, reactions: seq<Reaction>)
    requires forall i :: 0 <= i < |order| ==> order[i] < |reactions|
  {
    forall ref :: ref in refs <==>
      first <= ref.reaction < first + |order| &&
      (if ref.consumed then Consumes(reactions[order[ref.reaction - first]], ref.name)
       else Produces(reactions[order[ref.reaction - first]], ref.name))
  }

  lemma AllRefsMentions(first: nat, order: seq<nat>, reactions: seq<Reaction>)
    requires forall i :: 0 <= i < |order| ==> order[i] < |reactions|
    ensures Mentions(AllRefs(first, order, reactions), first, order, reactions)
  {
    forall ref {
      AllRefsMembers(first, order, reactions, ref);
    }
  }

  /** The edge of a known mention is a diagram edge. */
  lemma KnownEdgeIsDiagramEdge(names: set<string>, at: map<string, nat>, speciesOrder: seq<string>,
                               reactions: seq<Reaction>, order: seq<nat>, refs: seq<Ref>, x: nat, y: nat)
    requires Numbered(names, at, speciesOrder)
    requires forall i :: 0 <= i < |order| ==> order[i] < |reactions|
    requires Mentions(refs, |speciesOrder|, order, reactions)
    requires KnownEdge(refs, at, (x, y))
    ensures DiagramEdge(speciesOrder, reactions, order, x, y)
  {
    var S := |speciesOrder|;
    var ref :| ref in refs && ref.name in at && (x, y) == Endpoints(ref, at[ref.name]);
    var k := at[ref.name];
    assert k < S && speciesOrder[k] == ref.name;
    var r := reactions[order[ref.reaction - S]];
    if ref.consumed {
      assert Consumes(r, ref.name);
      assert x == k && y == ref.reaction;
      assert x < S;
      assert S <= y < S + |order|;
      assert speciesOrder[x] == ref.name;
      assert reactions[order[y - S]] == r;
    } else {
      assert Produces(r, ref.name);
      assert x == ref.reaction && y == k;
      assert y < S;
      assert S <= x < S + |order|;
      assert speciesOrder[y] == ref.name;
      assert reactions[order[x - S]] == r;
    }
  }

  /** An edge from a species to a reaction consuming it is the edge of a known mention. */
  lemma ConsumedIsKnownEdge(names: set<string>, at: map<string, nat>, speciesOrder: seq<string>,
                            reactions: seq<Reaction>, order: seq<nat>, refs: seq<Ref>, x: nat, y: nat)
    requires Numbered(names, at, speciesOrder)
    requires forall i :: 0 <= i < |order| ==> order[i] < |reactions|
    requires Mentions(refs, |speciesOrder|, order, reactions)
    requires x < |speciesOrder| <= y < |speciesOrder| + |order|
    requires Consumes(reactions[order[y - |speciesOrder|]], speciesOrder[x])
    ensures KnownEdge(refs, at, (x, y))
  {
    var ref := Ref(y, speciesOrder[x], true);
    assert ref in refs;
    assert ref.name in at && at[ref.name] == x;
    assert Endpoints(ref, at[ref.name]) == (x, y);
  }

  /** An edge from a reaction to a species it produces is the edge of a known mention. */
  lemma ProducedIsKnownEdge(names: set<string>, at: map<string, nat>, speciesOrder: seq<string>,
                            reactions: seq<Reaction>, order: seq<nat>, refs: seq<Ref>, x: nat, y: nat)
    requires Numbered(names, at, speciesOrder)
    requires forall i :: 0 <= i < |order| ==> order[i] < |reactions|
    requires Mentions(refs, |speciesOrder|, order, reactions)
    requires y < |speciesOrder| <= x < |speciesOrder| + |order|
    requires Produces(reactions[order[x - |speciesOrder|]], speciesOrder[y])
    ensures KnownEdge(refs, at, (x, y))
  {
    var ref := Ref(x, speciesOrder[y], false);
    assert ref in refs;
    assert ref.name in at && at[ref.name] == y;
    assert Endpoints(ref, at[ref.name]) == (x, y);
  }

  /** A diagram edge is the edge of a known mention. */
  lemma DiagramEdgeIsKnownEdge(names: set<string>, at: map<string, nat>, speciesOrder: seq<string>,
                               reactions: seq<Reaction>, order: seq<nat>, refs: seq<Ref>, x: nat, y: nat)
    requires Numbered(names, at, speciesOrder)
    requires forall i :: 0 <= i < |order| ==> order[i] < |reactions|
    requires Mentions(refs, |speciesOrder|, order, reactions)
    requires DiagramEdge(speciesOrder, reactions, order, x, y)
    ensures KnownEdge(refs, at, (x, y))
  {
    if x < |speciesOrder| {
      ConsumedIsKnownEdge(names, at, speciesOrder, reactions, order, refs, x, y);
    } else {
      ProducedIsKnownEdge(names, at, speciesOrder, reactions, order, refs, x, y);
    }
  }

  /** Between species and reaction nodes, the edges of the known mentions are the diagram's edges. */
  lemma KnownEdgeIff(names: set<string>, at: map<string, nat>, speciesOrder: seq<string>,
                     reactions: seq<Reaction>, order: seq<nat>, refs: seq<Ref>, x: nat, y: nat)
    requires Numbered(names, at, speciesOrder)
    requires forall i :: 0 <= i < |order| ==> order[i] < |reactions|
    requires Mentions(refs, |speciesOrder|, order, reactions)
    ensures KnownEdge(refs, at, (x, y)) <==>
            DiagramEdge(speciesOrder, reactions, order, x, y)
  {
    if KnownEdge(refs, at, (x, y)) {
      KnownEdgeIsDiagramEdge(names, at, speciesOrder, reactions, order, refs, x, y);
    }
    if DiagramEdge(speciesOrder, reactions, order, x, y) {
      DiagramEdgeIsKnownEdge(names, at, speciesOrder, reactions, order, refs, x, y);
    }
  }

  /**
   * The graph `create` draws: species nodes 0 .. |names| - 1 in the order
   * speciesOrder lists the names, then the nodes of the reactions of
   * `order`; between them exactly the diagram's edges; after them, with
   * `duplicate` only, one stand-in per mention of a species outside
   * `names`; and every edge joins two nodes of the graph.
   */
  ghost predicate IsDiagram(names: set<string>, speciesOrder: seq<string>, reactions: seq<Reaction>,
                            order: seq<nat>, duplicate: bool, nodes: map<nat, Node>, edges: set<(nat, nat)>)
    requires forall i :: 0 <= i < |order| ==> order[i] < |reactions| && LineRecorded(reactions[order[i]])
  {
    var S := |names|;
    var refs := AllRefs(S, order, reactions);
    && |speciesOrder| == S
    && (forall h :: 0 <= h < S ==> h in nodes && nodes[h] == SpeciesNode(h, speciesOrder[h]))
    && (forall i :: 0 <= i < |order| ==> S + i in nodes && nodes[S + i] == ReactionNode(S + i, reactions[order[i]]))
    && (forall h: nat :: h in nodes <==> h < S + |order| + (if duplicate then Missing(refs, names) else 0))
    && (forall x: nat, y: nat :: x < S + |order| && y < S + |order| ==>
          ((x, y) in edges <==> DiagramEdge(speciesOrder, reactions, order, x, y)))
    && (forall h: nat :: S + |order| <= h && h in nodes ==> StandIn(refs, names, nodes, edges, h))
    && (forall x, y :: (x, y) in edges ==> x in nodes && y in nodes)
  }

  /** The premises on the nodes before wiring that the `Wired` lemmas share. */
  ghost predicate Unwired(names: set<string>, at: map<string, nat>, speciesOrder: seq<string>,
                          reactions: seq<Reaction>, order: seq<nat>, n0: map<nat, Node>)
  {
    && Numbered(names, at, speciesOrder) && |speciesOrder| == |names|
    && (forall i :: 0 <= i < |order| ==> order[i] < |reactions| && LineRecorded(reactions[order[i]]))
    && (forall h: nat :: h in n0 <==> h < |names| + |order|)
    && (forall h :: 0 <= h < |names| ==> n0[h] == SpeciesNode(h, speciesOrder[h]))
    && (forall i :: 0 <= i < |order| ==> n0[|names| + i] == ReactionNode(|names| + i, reactions[order[i]]))
  }

  /** The mentions' reactions are below the first free id, so the fresh-node lemma applies. */
  lemma RefsBelow(names: set<string>, at: map<string, nat>, speciesOrder: seq<string>,
                  reactions: seq<Reaction>, order: seq<nat>, n0: map<nat, Node>)
    requires Unwired(names, at, speciesOrder, reactions, order, n0)
    ensures Below(Built(n0, {}, |names| + |order|))
    ensures PointsBelow(AllRefs(|names|, order, reactions), at, |names| + |order|)
  {
    forall ref | ref in AllRefs(|names|, order, reactions)
      ensures ref.reaction < |names| + |order|
    {
      AllRefsMembers(|names|, order, reactions, ref);
    }
  }

  /** Wiring keeps the species and reaction nodes and adds stand-ins only, and only with `duplicate`. */
  lemma WiredNodes(names: set<string>, at: map<string, nat>, speciesOrder: seq<string>,
                   reactions: seq<Reaction>, order: seq<nat>, duplicate: bool, n0: map<nat, Node>)
    requires Unwired(names, at, speciesOrder, reactions, order, n0)
    ensures var r := Wire(AllRefs(|names|, order, reactions), at, duplicate, Built(n0, {}, |names| + |order|));
      && (forall h :: h in n0 ==> h in r.nodes && r.nodes[h] == n0[h])
      && (forall h: nat :: h in r.nodes <==>
            h < |names| + |order| + (if duplicate then Missing(AllRefs(|names|, order, reactions), names) else 0))
      && (forall h: nat :: |names| + |order| <= h && h in r.nodes ==>
            StandIn(AllRefs(|names|, order, reactions), names, r.nodes, r.edges, h))
  {
    var refs := AllRefs(|names|, order, reactions);
    var b := Built(n0, {}, |names| + |order|);
    if duplicate {
      RefsBelow(names, at, speciesOrder, reactions, order, n0);
      WireFresh(refs, at, b);
    } else {
      WireKnown(refs, at, b);
    }
  }

  /** Between species and reaction nodes wiring draws exactly the diagram's edges. */
  lemma WiredEdges(names: set<string>, at: map<string, nat>, speciesOrder: seq<string>,
                   reactions: seq<Reaction>, order: seq<nat>, duplicate: bool, n0: map<nat, Node>)
    requires Unwired(names, at, speciesOrder, reactions, order, n0)
    ensures var r := Wire(AllRefs(|names|, order, reactions), at, duplicate, Built(n0, {}, |names| + |order|));
      forall x: nat, y: nat :: x < |names| + |order| && y < |names| + |order| ==>
        ((x, y) in r.edges <==> DiagramEdge(speciesOrder, reactions, order, x, y))
  {
    var refs := AllRefs(|names|, order, reactions);
    var b := Built(n0, {}, |names| + |order|);
    if duplicate {
      RefsBelow(names, at, speciesOrder, reactions, order, n0);
      WireFresh(refs, at, b);
    } else {
      WireKnown(refs, at, b);
    }
    AllRefsMentions(|names|, order, reactions);
    forall x: nat, y: nat | x < |names| + |order| && y < |names| + |order|
      ensures (x, y) in Wire(refs, at, duplicate, b).edges <==> DiagramEdge(speciesOrder, reactions, order, x, y)
    {
      KnownEdgeIff(names, at, speciesOrder, reactions, order, refs, x, y);
    }
  }

  /** Every wired edge joins two nodes of the graph. */
  lemma WiredClosed(names: set<string>, at: map<string, nat>, speciesOrder: seq<string>,
                    reactions: seq<Reaction>, order: seq<nat>, duplicate: bool, n0: map<nat, Node>)
    requires Unwired(names, at, speciesOrder, reactions, order, n0)
    ensures var r := Wire(AllRefs(|names|, order, reactions), at, duplicate, Built(n0, {}, |names| + |order|));
      forall x, y :: (x, y) in r.edges ==> x in r.nodes && y in r.nodes
  {
    var refs := AllRefs(|names|, order, reactions);
    var b := Built(n0, {}, |names| + |order|);
    if duplicate {
      RefsBelow(names, at, speciesOrder, reactions, order, n0);
      WireFresh(refs, at, b);
    } else {
      WireKnown(refs, at, b);
      forall x, y | (x, y) in Wire(refs, at, duplicate, b).edges
        ensures x in n0 && y in n0
      {
        var ref :| ref in refs && ref.name in at && (x, y) == Endpoints(ref, at[ref.name]);
        AllRefsMembers(|names|, order, reactions, ref);
      }
    }
  }

  /**
   * Wiring all mentions onto the species and reaction nodes n0 gives the
   * diagram.
   */
  lemma Wired(names: set<string>, at: map<string, nat>, speciesOrder: seq<string>,
              reactions: seq<Reaction>, order: seq<nat>, duplicate: bool, n0: map<nat, Node>,
              nodes: map<nat, Node>, edges: set<(nat, nat)>, last: nat)
    requires Unwired(names, at, speciesOrder, reactions, order, n0)
    requires Built(nodes, edges, last) ==
             Wire(AllRefs(|names|, order, reactions), at, duplicate, Built(n0, {}, |names| + |order|))
    ensures IsDiagram(names, speciesOrder, reactions, order, duplicate, nodes, edges)
  {
    WiredNodes(names, at, speciesOrder, reactions, order, duplicate, n0);
    WiredEdges(names, at, speciesOrder, reactions, order, duplicate, n0);
    WiredClosed(names, at, speciesOrder, reactions, order, duplicate, n0);
  }

  /** The node loops of `create`: species nodes, then reaction nodes, and no edge yet. */
  method AddNodes(g: Graph, names: set<string>, reactions: seq<Reaction>, order: seq<nat>)
    returns (at: map<string, nat>, ghost speciesOrder: seq<string>)
    requires g.Valid() && g.nodes == map[] && g.edges == {}
    requires forall i :: 0 <= i < |order| ==> order[i] < |reactions| && LineRecorded(reactions[order[i]])
    modifies g
    ensures g.Valid() && g.edges == {}
    ensures Unwired(names, at, speciesOrder, reactions, order, g.nodes)
  {
    at, speciesOrder := AddSpeciesNodes(g, names);
    AddReactionNodes(g, reactions, order, |names|);
  }

  /** Names numbered one to one are listed once each. */
  lemma NumberedDistinct(names: set<string>, at: map<string, nat>, speciesOrder: seq<string>)
    requires Numbered(names, at, speciesOrder)
    ensures forall n :: n in names <==> n in speciesOrder
    ensures forall i, j :: 0 <= i < j < |speciesOrder| ==> speciesOrder[i] != speciesOrder[j]
  {
    forall i, j | 0 <= i < j < |speciesOrder|
      ensures speciesOrder[i] != speciesOrder[j]
    {
      assert at[speciesOrder[i]] != at[speciesOrder[j]];
    }
  }

  /**
   * Both `create` methods: the species nodes, then the reaction nodes of
   * `order`, then the edges; with `duplicate`, each mention of a species
   * outside `names` gets a group-3 node of its own, and otherwise it draws
   * no edge. speciesOrder is the order the names are taken in.
   */
  method Build(names: set<string>, reactions: seq<Reaction>, order: seq<nat>, duplicate: bool)
    returns (g: Graph, ghost speciesOrder: seq<string>)
    requires forall i :: 0 <= i < |order| ==> order[i] < |reactions| && LineRecorded(reactions[order[i]])
    ensures fresh(g) && g.Valid()
    ensures |speciesOrder| == |names| && forall n :: n in names <==> n in speciesOrder
    ensures forall i, j :: 0 <= i < j < |speciesOrder| ==> speciesOrder[i] != speciesOrder[j]
    ensures IsDiagram(names, speciesOrder, reactions, order, duplicate, g.nodes, g.edges)
  {
    g := new Graph();
    var at;
    at, speciesOrder := AddNodes(g, names, reactions, order);
    ghost var n0 := g.nodes;
    NumberedDistinct(names, at, speciesOrder);
    var refs := AllRefs(|names|, order, reactions);
    var last := WireReferences(g, refs, at, duplicate, |names| + |order|);
    Wired(names, at, speciesOrder, reactions, order, duplicate, n0, g.nodes, g.edges, last);
  }

  /**
   * In a diagram every node's id is its handle, so ids are distinct; its
   * group is 1 for species, 2 for reactions and 3 for stand-ins.
   */
  lemma DiagramIdsAndGroups(names: set<string>, speciesOrder: seq<string>, reactions: seq<Reaction>,
                            order: seq<nat>, duplicate: bool, nodes: map<nat, Node>, edges: set<(nat, nat)>)
    requires forall i :: 0 <= i < |order| ==> order[i] < |reactions| && LineRecorded(reactions[order[i]])
    requires IsDiagram(names, speciesOrder, reactions, order, duplicate, nodes, edges)
    ensures forall h :: h in nodes ==> nodes[h].id == h
    ensures forall h :: h in nodes ==>
      nodes[h].group == (if h < |names| then 1 else if h < |names| + |order| then 2 else 3)
  {
    forall h | h in nodes
      ensures nodes[h].id == h
      ensures nodes[h].group == (if h < |names| then 1 else if h < |names| + |order| then 2 else 3)
    {
      if h < |names| {
      } else if h < |names| + |order| {
        assert nodes[|names| + (h - |names|)] == ReactionNode(h, reactions[order[h - |names|]]);
      } else {
        assert StandIn(AllRefs(|names|, order, reactions), names, nodes, edges, h);
      }
    }
  }

  /** 0, 1, ..., n - 1. */
  function Indices(n: nat): (r: seq<nat>)
    ensures |r| == n && forall i :: 0 <= i < n ==> r[i] == i
  {
    seq(n, i requires 0 <= i => i)
  }

  /**
   * `create(model)`: every species and every reaction of the model; a
   * mention of a species the model does not list draws no edge.
   */
  method Create(m: MembraneModel) returns (g: Graph, ghost speciesOrder: seq<string>)
    requires forall k :: 0 <= k < |m.reactions| ==> LineRecorded(m.reactions[k])
    ensures fresh(g) && g.Valid()
    ensures |speciesOrder| == |m.speciesNames| && forall n :: n in m.speciesNames <==> n in speciesOrder
    ensures forall i, j :: 0 <= i < j < |speciesOrder| ==> speciesOrder[i] != speciesOrder[j]
    ensures IsDiagram(m.speciesNames, speciesOrder, m.reactions, Indices(|m.reactions|), false, g.nodes, g.edges)
  {
    g, speciesOrder := Build(m.speciesNames, m.reactions, Indices(|m.reactions|), false);
  }

  /** The species names carrying at least one of the tags (`getSpeciesForTag` for each, all added). */
  method TaggedSpecies(m: MembraneModel, tags: seq<string>) returns (names: set<string>)
    ensures forall n :: n in names <==> exists t :: 0 <= t < |tags| && n in m.SpeciesForTag(tags[t])
  {
    names := {};
    var t := 0;
    while t < |tags|
      invariant 0 <= t <= |tags|
      invariant forall n :: n in names <==> exists u :: 0 <= u < t && n in m.SpeciesForTag(tags[u])
    {
      names := names + m.SpeciesForTag(tags[t]);
      t := t + 1;
    }
  }

  /** The reactions involving a species that carries one of the tags (`getReactionsForSpeciesTag` for each). */
  method TaggedReactions(m: MembraneModel, tags: seq<string>) returns (rs: set<nat>)
    ensures forall k: nat :: k in rs <==>
      k < |m.reactions| && exists t :: 0 <= t < |tags| && InvolvedSpecies(m.reactions[k]) * m.SpeciesForTag(tags[t]) != {}
  {
    rs := {};
    var t := 0;
    while t < |tags|
      invariant 0 <= t <= |tags|
      invariant forall k: nat :: k in rs <==>
        k < |m.reactions| && exists u :: 0 <= u < t && InvolvedSpecies(m.reactions[k]) * m.SpeciesForTag(tags[u]) != {}
    {
      var more := ReactionsForSpeciesTag(m, tags[t]);
      rs := rs + more;
      t := t + 1;
    }
  }

  /**
   * `create(model, tags)`: the species with one of the tags, then the
   * reactions involving one of them, iterated in one fixed order; a
   * mention of an untagged species gets its own group-3 node.
   */
  method CreateForTags(m: MembraneModel, tags: seq<string>)
    returns (g: Graph, names: set<string>, ghost speciesOrder: seq<string>, order: seq<nat>)
    requires forall k :: 0 <= k < |m.reactions| ==> LineRecorded(m.reactions[k])
    ensures fresh(g) && g.Valid()
    ensures forall n :: n in names <==> exists t :: 0 <= t < |tags| && n in m.SpeciesForTag(tags[t])
    ensures forall k: nat :: k in order <==>
      k < |m.reactions| && exists t :: 0 <= t < |tags| && InvolvedSpecies(m.reactions[k]) * m.SpeciesForTag(tags[t]) != {}
    ensures forall i, j :: 0 <= i < j < |order| ==> order[i] != order[j]
    ensures |speciesOrder| == |names| && forall n :: n in names <==> n in speciesOrder
    ensures forall i, j :: 0 <= i < j < |speciesOrder| ==> speciesOrder[i] != speciesOrder[j]
    ensures forall i :: 0 <= i < |order| ==> order[i] < |m.reactions|
    ensures IsDiagram(names, speciesOrder, m.reactions, order, true, g.nodes, g.edges)
  {
    names := TaggedSpecies(m, tags);
    var rs := TaggedReactions(m, tags);
    order := Enumerate(rs);
    forall i | 0 <= i < |order|
      ensures order[i] < |m.reactions| && LineRecorded(m.reactions[order[i]])
    {
      assert order[i] in rs;
    }
    g, speciesOrder := Build(names, m.reactions, order, true);
  }
}
