/**
 * The simulation's membrane tree (simulation/Membrane.java). Every membrane
 * instance of a run lives in one arena, `Tree`, and is identified by its
 * creation index; a parent is always created before its children. Each
 * instance has three species-count multisets (`on`, `under`, `contained`),
 * its children, and the list of membranes recorded in its subtree index
 * (`all`, the values of `allMembranes`). The process-wide counter of unique
 * tags is the arena's `typeIndices` map.
 */
module Membranes {
  import opened Wrappers
  import opened Text
  import opened Species
  import opened Equations
  import opened Reactions

  /** A species-count multiset: absent names count 0. */
  type Counts = map<string, nat>

  function Count(c: Counts, s: string): nat {
    if s in c then c[s] else 0
  }

  /**
   * `Multiset.add(s, n)` for n > 0 and `Multiset.remove(s, -n)` otherwise:
   * a removal takes away at most the copies present.
   */
  function AddCount(c: Counts, s: string, n: int): (r: Counts)
    ensures Count(r, s) == if Count(c, s) + n < 0 then 0 else Count(c, s) + n
    ensures forall t :: t != s ==> Count(r, t) == Count(c, t)
  {
    var v := Count(c, s) + n;
    if v > 0 then c[s := v] else c - {s}
  }

  /** Adding n copies and then removing them gives back the original count. */
  lemma AddRemoveRoundTrip(c: Counts, s: string, n: nat)
    ensures forall t :: Count(AddCount(AddCount(c, s, n), s, -(n as int)), t) == Count(c, t)
  {
  }

  datatype Membrane = Membrane(
    mtype: string,
    tags: seq<string>,
    uniqueTag: string,
    parent: Option<nat>,
    children: seq<nat>,
    on: Counts,
    under: Counts,
    contained: Counts,
    all: seq<nat>)

  // ---------------------------------------------------------------- tags

  /** The generated tag of the k-th membrane of a type: `<type>_<k>`. */
  function UniqueTagFor(mtype: string, k: nat): string {
    mtype + "_" + NatToString(k)
  }

  /** `isUniqueTag`: the tag is the type, an underscore and a non-empty run of digits. */
  predicate IsUniqueTag(mtype: string, tag: string) {
    StartsWith(tag, mtype + "_") && IsNumeric(tag[|mtype| + 1..])
  }

  /** A generated tag has the unique-tag form, so a re-parsed copy of it is discarded. */
  lemma GeneratedTagIsUnique(mtype: string, k: nat)
    ensures IsUniqueTag(mtype, UniqueTagFor(mtype, k))
  {
    NatToStringNumeric(k);
    var t := UniqueTagFor(mtype, k);
    assert t[..|mtype| + 1] == mtype + "_";
    assert t[|mtype| + 1..] == NatToString(k);
  }


  /** Splitting at the only underscore of the right-hand part is unambiguous. */
  lemma SplitAtUnderscore(a: string, b: string, c: string, d: string)
    requires a + "_" + b == c + "_" + d
    requires forall k :: 0 <= k < |b| ==> b[k] != '_'
    requires forall k :: 0 <= k < |d| ==> d[k] != '_'
    ensures a == c && b == d
  {
    var w := a + "_" + b;
    assert forall k :: |a| < k < |w| ==> w[k] == b[k - |a| - 1];
    assert forall k :: |c| < k < |w| ==> w[k] == d[k - |c| - 1];
    assert w[|a|] == '_' && w[|c|] == '_';
    assert |a| == |c|;
    assert a == w[..|a|] && c == w[..|c|];
    assert b == w[|a| + 1..] && d == w[|c| + 1..];
  }

  /** Two generated tags are equal only for the same type and the same number. */
  lemma UniqueTagInjective(t1: string, k1: nat, t2: string, k2: nat)
    ensures UniqueTagFor(t1, k1) == UniqueTagFor(t2, k2) <==> t1 == t2 && k1 == k2
  {
    if UniqueTagFor(t1, k1) == UniqueTagFor(t2, k2) {
      NatToStringNumeric(k1);
      NatToStringNumeric(k2);
      SplitAtUnderscore(t1, NatToString(k1), t2, NatToString(k2));
      NatToStringInjective(k1, k2);
    }
  }

  /**
   * The tags a new membrane keeps: the supplied ones in order, without
   * repeats and without any of the unique-tag form.
   */
  function KeptTags(mtype: string, tags: seq<string>): seq<string>
    decreases |tags|
  {
    if tags == [] then []
    else
      var rest := KeptTags(mtype, tags[..|tags| - 1]);
      var t := tags[|tags| - 1];
      if IsUniqueTag(mtype, t) || t in rest then rest else rest + [t]
  }

  lemma {:induction false} KeptTagsSpec(mtype: string, tags: seq<string>)
    ensures forall t :: t in KeptTags(mtype, tags) <==> t in tags && !IsUniqueTag(mtype, t)
    ensures forall i, j :: 0 <= i < j < |KeptTags(mtype, tags)| ==> KeptTags(mtype, tags)[i] != KeptTags(mtype, tags)[j]
    decreases |tags|
  {
    if tags != [] {
      var n := |tags| - 1;
      KeptTagsSpec(mtype, tags[..n]);
      assert tags == tags[..n] + [tags[n]];
    }
  }

  /** `matchesTag`: one of the kept tags, or the generated one. */
  predicate MatchesTag(m: Membrane, tag: string) {
    tag in m.tags || m.uniqueTag == tag
  }

  // ---------------------------------------------------------------- arena shape

  /**
   * Parents come first, children come after their parent and point back at
   * it, subtree lists stay in range.
   */
  predicate Links(nodes: seq<Membrane>) {
    (forall i :: 0 <= i < |nodes| && nodes[i].parent.Some? ==> nodes[i].parent.value < i) &&
    (forall i, k :: 0 <= i < |nodes| && 0 <= k < |nodes[i].children| ==>
      i < nodes[i].children[k] < |nodes| && nodes[nodes[i].children[k]].parent == Some(i)) &&
    (forall i, k :: 0 <= i < |nodes| && 0 <= k < |nodes[i].all| ==> nodes[i].all[k] < |nodes|)
  }

  /** The number of membranes reachable through children links, the measure of the subtree walk. */
  function Size(nodes: seq<Membrane>, i: nat): nat
    requires Links(nodes) && i < |nodes|
    decreases |nodes| - i, 1, 0
  {
    1 + SizeList(nodes, nodes[i].children, i)
  }

  function SizeList(nodes: seq<Membrane>, xs: seq<nat>, lo: nat): nat
    requires Links(nodes) && forall k :: 0 <= k < |xs| ==> lo < xs[k] < |nodes|
    decreases |nodes| - lo, 0, |xs|
  {
    if xs == [] then 0 else SizeList(nodes, xs[..|xs| - 1], lo) + Size(nodes, xs[|xs| - 1])
  }

  /** The membranes reachable from i through children links, i included. */
  function Reach(nodes: seq<Membrane>, i: nat): set<nat>
    requires Links(nodes) && i < |nodes|
    decreases |nodes| - i, 1, 0
  {
    {i} + ReachList(nodes, nodes[i].children, i)
  }

  function ReachList(nodes: seq<Membrane>, xs: seq<nat>, lo: nat): set<nat>
    requires Links(nodes) && forall k :: 0 <= k < |xs| ==> lo < xs[k] < |nodes|
    decreases |nodes| - lo, 0, |xs|
  {
    if xs == [] then {} else ReachList(nodes, xs[..|xs| - 1], lo) + Reach(nodes, xs[|xs| - 1])
  }

  /** Membership in the reachable set, link by link. */
  lemma {:induction false} ReachInRange(nodes: seq<Membrane>, i: nat)
    requires Links(nodes) && i < |nodes|
    ensures forall m :: m in Reach(nodes, i) ==> i <= m < |nodes|
    decreases |nodes| - i, 1, 0
  {
    ReachListInRange(nodes, nodes[i].children, i);
  }

  lemma {:induction false} ReachListInRange(nodes: seq<Membrane>, xs: seq<nat>, lo: nat)
    requires Links(nodes) && forall k :: 0 <= k < |xs| ==> lo < xs[k] < |nodes|
    ensures forall m :: m in ReachList(nodes, xs, lo) ==> lo < m < |nodes|
    decreases |nodes| - lo, 0, |xs|
  {
    if xs != [] {
      ReachListInRange(nodes, xs[..|xs| - 1], lo);
      ReachInRange(nodes, xs[|xs| - 1]);
    }
  }

  // ---------------------------------------------------------------- species counts

  /** The multiset a membrane keeps for one of its own locations (`around` is not one of them). */
  function LocalCounts(m: Membrane, loc: Location): Counts {
    match loc
    case On => m.on
    case Under => m.under
    case _ => m.contained
  }

  /** The membrane with the multiset of one of its own locations replaced. */
  function WithLocalCounts(m: Membrane, loc: Location, c: Counts): (r: Membrane)
    ensures loc != Around ==> LocalCounts(r, loc) == c
    ensures forall l :: l != Around && l != loc && (loc == Around ==> l != Contained) ==> LocalCounts(r, l) == LocalCounts(m, l)
    ensures r.(on := m.on, under := m.under, contained := m.contained) == m
  {
    match loc
    case On => m.(on := c)
    case Under => m.(under := c)
    case _ => m.(contained := c)
  }

  /** `numSpecies(name, location)` on membrane j: `around` reads the parent's contained species. */
  function NumSpeciesAt(nodes: seq<Membrane>, j: nat, loc: Location, name: string): nat {
    if j >= |nodes| then 0
    else if loc == Around then
      var p := nodes[j].parent;
      if p.Some? && p.value < |nodes| then Count(nodes[p.value].contained, name) else 0
    else Count(LocalCounts(nodes[j], loc), name)
  }

  /**
   * `addSpecies(location, name, n)` on membrane j: changes exactly one
   * multiset; `around` goes to the parent's contained species and is a
   * no-op at the root.
   */
  function AddedAt(nodes: seq<Membrane>, j: nat, loc: Location, name: string, n: int): seq<Membrane> {
    if j >= |nodes| then nodes
    else if loc == Around then
      var p := nodes[j].parent;
      if p.Some? && p.value < |nodes| then
        var q := nodes[p.value];
        nodes[p.value := q.(contained := AddCount(q.contained, name, n))]
      else nodes
    else
      var m := nodes[j];
      nodes[j := WithLocalCounts(m, loc, AddCount(LocalCounts(m, loc), name, n))]
  }

  /** Only counts change: the shape of the tree is kept. */
  predicate SameShape(a: seq<Membrane>, b: seq<Membrane>) {
    |a| == |b| &&
    forall i :: 0 <= i < |a| ==>
      a[i].mtype == b[i].mtype && a[i].tags == b[i].tags && a[i].uniqueTag == b[i].uniqueTag &&
      a[i].parent == b[i].parent && a[i].children == b[i].children && a[i].all == b[i].all
  }

  /**
   * Adding then querying the same place: the count moves by n but never
   * below zero, and every other (membrane, location, species) count is
   * unchanged.
   */
  lemma AddedAtCounts(nodes: seq<Membrane>, j: nat, loc: Location, name: string, n: int)
    requires j < |nodes| && (loc == Around ==> nodes[j].parent.Some? && nodes[j].parent.value < |nodes|)
    ensures SameShape(nodes, AddedAt(nodes, j, loc, name, n))
    ensures var old_ := NumSpeciesAt(nodes, j, loc, name);
      NumSpeciesAt(AddedAt(nodes, j, loc, name, n), j, loc, name) == if old_ + n < 0 then 0 else old_ + n
    ensures forall s :: s != name ==>
      NumSpeciesAt(AddedAt(nodes, j, loc, name, n), j, loc, s) == NumSpeciesAt(nodes, j, loc, s)
  {
  }

  /** A membrane other than the target (and, for `around`, the target's parent) keeps all its counts. */
  lemma AddedAtFrame(nodes: seq<Membrane>, j: nat, loc: Location, name: string, n: int, k: nat)
    requires j < |nodes| && k < |nodes| && k != j
    requires loc == Around ==> nodes[j].parent != Some(k)
    ensures AddedAt(nodes, j, loc, name, n)[k] == nodes[k]
  {
  }

  /** An addition at the root's `around` changes nothing. */
  lemma AroundAtRootIsNoOp(nodes: seq<Membrane>, j: nat, name: string, n: int)
    requires j < |nodes| && nodes[j].parent.None?
    ensures AddedAt(nodes, j, Around, name, n) == nodes
  {
  }

  // ---------------------------------------------------------------- located species

  predicate HasChildOfType(nodes: seq<Membrane>, i: nat, mtype: string)
    requires i < |nodes|
  {
    exists k :: 0 <= k < |nodes[i].children| && nodes[i].children[k] < |nodes| && nodes[nodes[i].children[k]].mtype == mtype
  }

  /**
   * Where `addSpecies(locatedSpecies, n)` on membrane i puts the species:
   * itself when the name is its type or one of its tags; the parent's
   * contained species when a `contained` name is the parent's type or tag;
   * its own contained species when an `around` name is the type of one of
   * its children; otherwise nowhere (the source logs an error).
   */
  function ResolveAdd(nodes: seq<Membrane>, i: nat, ls: LocatedSpecies): Option<(nat, Location)> {
    if i >= |nodes| then None
    else
      var m := nodes[i];
      var name := ls.membraneName;
      if name == m.mtype || MatchesTag(m, name) then Some((i, ls.location))
      else if ls.location == Contained then
        if m.parent.Some? && m.parent.value < |nodes| &&
           (name == nodes[m.parent.value].mtype || MatchesTag(nodes[m.parent.value], name))
        then Some((m.parent.value, Contained))
        else None
      else if ls.location == Around then
        if HasChildOfType(nodes, i, name) then Some((i, Contained)) else None
      else None
  }

  /**
   * Where `numSpecies(locatedSpecies)` on membrane i reads: the same rules
   * as `ResolveAdd` with types only, never tags.
   */
  function ResolveNum(nodes: seq<Membrane>, i: nat, ls: LocatedSpecies): Option<(nat, Location)> {
    if i >= |nodes| then None
    else
      var m := nodes[i];
      var name := ls.membraneName;
      if name == m.mtype then Some((i, ls.location))
      else if ls.location == Contained then
        if m.parent.Some? && m.parent.value < |nodes| && name == nodes[m.parent.value].mtype
        then Some((m.parent.value, Contained))
        else None
      else if ls.location == Around then
        if HasChildOfType(nodes, i, name) then Some((i, Contained)) else None
      else None
  }

  /** `numSpecies(locatedSpecies)`: 0 when the reference does not resolve. */
  function NumLocated(nodes: seq<Membrane>, i: nat, ls: LocatedSpecies): nat {
    match ResolveNum(nodes, i, ls)
    case None => 0
    case Some(target) => NumSpeciesAt(nodes, target.0, target.1, ls.speciesName)
  }

  /** `addSpecies(locatedSpecies, n)` as a new arena. */
  function AddedLocated(nodes: seq<Membrane>, i: nat, ls: LocatedSpecies, n: int): seq<Membrane> {
    match ResolveAdd(nodes, i, ls)
    case None => nodes
    case Some(target) => AddedAt(nodes, target.0, target.1, ls.speciesName, n)
  }

  /** Counting resolves like adding whenever no tag is involved. */
  lemma ResolveNumAgreesWithAdd(nodes: seq<Membrane>, i: nat, ls: LocatedSpecies)
    requires i < |nodes|
    requires ResolveNum(nodes, i, ls).Some?
    requires !MatchesTag(nodes[i], ls.membraneName) || ls.membraneName == nodes[i].mtype
    ensures ResolveAdd(nodes, i, ls) == ResolveNum(nodes, i, ls)
  {
  }

  /** A tag is enough for adding but not for counting: a membrane found only by tag reads 0. */
  lemma TagOnlyCountsZero(nodes: seq<Membrane>, i: nat, ls: LocatedSpecies)
    requires i < |nodes| && MatchesTag(nodes[i], ls.membraneName) && ls.membraneName != nodes[i].mtype
    requires ls.location == On || ls.location == Under
    ensures ResolveAdd(nodes, i, ls) == Some((i, ls.location))
    ensures NumLocated(nodes, i, ls) == 0
  {
  }

  /** Adding through a located species and counting it back sees the clamped sum. */
  lemma AddedLocatedCount(nodes: seq<Membrane>, i: nat, ls: LocatedSpecies, n: int)
    requires i < |nodes| && ResolveNum(nodes, i, ls).Some?
    requires !MatchesTag(nodes[i], ls.membraneName) || ls.membraneName == nodes[i].mtype
    requires var t := ResolveNum(nodes, i, ls).value;
      t.1 == Around ==> nodes[t.0].parent.Some? && nodes[t.0].parent.value < |nodes|
    ensures var old_ := NumLocated(nodes, i, ls);
      NumLocated(AddedLocated(nodes, i, ls, n), i, ls) == if old_ + n < 0 then 0 else old_ + n
  {
    ResolveNumAgreesWithAdd(nodes, i, ls);
    var t := ResolveNum(nodes, i, ls).value;
    AddedAtCounts(nodes, t.0, t.1, ls.speciesName, n);
    assert ResolveNum(AddedLocated(nodes, i, ls, n), i, ls) == Some(t);
  }

  // ---------------------------------------------------------------- totals

  /** `getAllSpecies`: contained + on + under here, plus the same over every child, recursively. */
  function AllSpecies(nodes: seq<Membrane>, i: nat, name: string): nat
    requires Links(nodes) && i < |nodes|
    decreases |nodes| - i, 1, 0
  {
    Count(nodes[i].contained, name) + Count(nodes[i].on, name) + Count(nodes[i].under, name)
      + AllSpeciesList(nodes, nodes[i].children, i, name)
  }

  function AllSpeciesList(nodes: seq<Membrane>, xs: seq<nat>, lo: nat, name: string): nat
    requires Links(nodes) && forall k :: 0 <= k < |xs| ==> lo < xs[k] < |nodes|
    decreases |nodes| - lo, 0, |xs|
  {
    if xs == [] then 0 else AllSpeciesList(nodes, xs[..|xs| - 1], lo, name) + AllSpecies(nodes, xs[|xs| - 1], name)
  }

  // ---------------------------------------------------------------- reactions

  /** `stoichiometryMatches`: every consumed species is present at least as often as it is consumed. */
  function StoichiometryMatches(nodes: seq<Membrane>, i: nat, consumed: seq<StoichiometrySpecies>): (b: bool)
    ensures b <==> forall k :: 0 <= k < |consumed| ==> NumLocated(nodes, i, consumed[k].species) >= consumed[k].stoichiometry
    decreases |consumed|
  {
    if consumed == [] then true
    else
      var n := |consumed| - 1;
      StoichiometryMatches(nodes, i, consumed[..n]) && NumLocated(nodes, i, consumed[n].species) >= consumed[n].stoichiometry
  }

  /** The count function a rate equation is evaluated with on membrane i. */
  function CountsOf(nodes: seq<Membrane>, i: nat): LocatedSpecies -> nat {
    (ls: LocatedSpecies) => NumLocated(nodes, i, ls)
  }

  const CouldNotEvaluate: string := "Terminating simulation: Could not evaluate rate for reaction"
  const NegativeRate: string := "Terminating simulation: Negative reaction rate"

  /** `computeRate`: the rate equation's value on membrane i; an evaluation error or a negative value fails. */
  function ComputeRate(nodes: seq<Membrane>, i: nat, r: Reaction, ln: real -> real): (res: Result<real>)
    ensures res.Success? <==> Eval(r.rateEquation, CountsOf(nodes, i), ln).Success? && Eval(r.rateEquation, CountsOf(nodes, i), ln).value >= 0.0
    ensures res.Success? ==> res.value == Eval(r.rateEquation, CountsOf(nodes, i), ln).value && res.value >= 0.0
    ensures res.Failure? ==> res.error == CouldNotEvaluate || res.error == NegativeRate
  {
    var v := Eval(r.rateEquation, CountsOf(nodes, i), ln);
    if v.Failure? then Failure(CouldNotEvaluate)
    else if v.value < 0.0 then Failure(NegativeRate)
    else Success(v.value)
  }

  /** The rate depends on the counts only: a change of shape-preserving counts outside the rate species keeps it. */
  lemma ComputeRateLocal(a: seq<Membrane>, b: seq<Membrane>, i: nat, r: Reaction, ln: real -> real)
    requires forall ls :: ls in RateSpecies(r.rateEquation) ==> NumLocated(a, i, ls) == NumLocated(b, i, ls)
    ensures ComputeRate(a, i, r, ln) == ComputeRate(b, i, r, ln)
  {
    EvalDependsOnlyOnRateSpecies(r.rateEquation, CountsOf(a, i), CountsOf(b, i), ln);
  }

  // ---------------------------------------------------------------- matching membranes

  /** The subtree index of i restricted to one type (`allMembranes.get(type)`). */
  function OfType(nodes: seq<Membrane>, i: nat, mtype: string): set<nat> {
    if i >= |nodes| then {}
    else set m | m in nodes[i].all && m < |nodes| && nodes[m].mtype == mtype
  }

  function WithTag(nodes: seq<Membrane>, i: nat, tag: string): set<nat> {
    if i >= |nodes| then {}
    else set m | m in nodes[i].all && m < |nodes| && MatchesTag(nodes[m], tag)
  }

  function Parents(nodes: seq<Membrane>, ms: set<nat>): set<nat> {
    set m | m in ms && m < |nodes| && nodes[m].parent.Some? :: nodes[m].parent.value
  }

  /**
   * `getMatchingMembranes(name, location)`: the recorded membranes of type
   * name; only if there are none, those with tag name; for `around`, the
   * parents of those.
   */
  function MatchingMembranes(nodes: seq<Membrane>, i: nat, name: string, loc: Location): (r: set<nat>)
    ensures var base := if OfType(nodes, i, name) != {} then OfType(nodes, i, name) else WithTag(nodes, i, name);
      (loc != Around ==> r == base) && (loc == Around ==> r == Parents(nodes, base))
  {
    var same := OfType(nodes, i, name);
    var named := if same != {} then same else WithTag(nodes, i, name);
    if loc == Around then Parents(nodes, named) else named
  }

  /** `computeMatchingMembranes(reaction)`: type only for ordinary reactions, the parents for around reactions. */
  function ComputeMatching(nodes: seq<Membrane>, i: nat, r: Reaction): set<nat> {
    if r.aroundReaction then MatchingMembranes(nodes, i, r.membraneType, Around)
    else OfType(nodes, i, r.membraneType)
  }

  /** An ordinary reaction never falls back to tags: every matched membrane has the reaction's type. */
  lemma OrdinaryMatchingByType(nodes: seq<Membrane>, i: nat, r: Reaction)
    requires !r.aroundReaction
    ensures forall m :: m in ComputeMatching(nodes, i, r) ==> m < |nodes| && nodes[m].mtype == r.membraneType
  {
  }

  /** A membrane matched by type one level down: its parent is matched for `around`. */
  lemma AroundMatchesParents(nodes: seq<Membrane>, i: nat, name: string, m: nat)
    requires m in OfType(nodes, i, name) && nodes[m].parent.Some?
    ensures nodes[m].parent.value in MatchingMembranes(nodes, i, name, Around)
  {
  }

  /** Membrane matching reads only the shape, never the counts. */
  lemma MatchingIgnoresCounts(a: seq<Membrane>, b: seq<Membrane>, i: nat, r: Reaction)
    requires SameShape(a, b)
    ensures ComputeMatching(a, i, r) == ComputeMatching(b, i, r)
  {
    var name := r.membraneType;
    assert OfType(a, i, name) == OfType(b, i, name);
    assert WithTag(a, i, name) == WithTag(b, i, name);
    var base := if OfType(a, i, name) != {} then OfType(a, i, name) else WithTag(a, i, name);
    assert Parents(a, base) == Parents(b, base);
  }

  // ---------------------------------------------------------------- unique-tag counter

  /** How many of the membranes lo .. hi-1 have type t. */
  function CountType(nodes: seq<Membrane>, lo: nat, hi: nat, t: string): (k: nat)
    requires hi <= |nodes|
    decreases hi
  {
    if hi <= lo then 0 else CountType(nodes, lo, hi - 1, t) + (if nodes[hi - 1].mtype == t then 1 else 0)
  }

  lemma {:induction false} CountTypeMonotone(nodes: seq<Membrane>, lo: nat, i: nat, j: nat, t: string)
    requires i <= j <= |nodes|
    ensures CountType(nodes, lo, i, t) <= CountType(nodes, lo, j, t)
    ensures lo < j && i < j && nodes[j - 1].mtype == t ==> CountType(nodes, lo, i, t) < CountType(nodes, lo, j, t)
    decreases j
  {
    if i < j {
      CountTypeMonotone(nodes, lo, i, j - 1, t);
    }
  }

  /** Counting reads only the types, and only those below `hi`. */
  lemma {:induction false} CountTypeFrame(a: seq<Membrane>, b: seq<Membrane>, lo: nat, hi: nat, t: string)
    requires hi <= |a| && hi <= |b| && forall k :: lo <= k < hi ==> a[k].mtype == b[k].mtype
    ensures CountType(a, lo, hi, t) == CountType(b, lo, hi, t)
    decreases hi
  {
    if lo < hi {
      CountTypeFrame(a, b, lo, hi - 1, t);
    }
  }

  /** The counter's entry for a type; a type never seen is at 0. */
  function Lookup(idx: map<string, nat>, t: string): nat {
    if t in idx then idx[t] else 0
  }

  /**
   * Since the last reset (at index `mark`) the counter of each type holds the
   * number of membranes of that type created, and the k-th of them carries
   * the tag `<type>_<k>`.
   */
  ghost predicate TagInvariant(nodes: seq<Membrane>, mark: nat, idx: map<string, nat>) {
    mark <= |nodes| &&
    (forall t :: Lookup(idx, t) == CountType(nodes, mark, |nodes|, t)) &&
    (forall i :: mark <= i < |nodes| ==> nodes[i].uniqueTag == UniqueTagFor(nodes[i].mtype, CountType(nodes, mark, i + 1, nodes[i].mtype)))
  }

  /** Membranes created since the last reset carry pairwise different unique tags. */
  lemma TagsDistinct(nodes: seq<Membrane>, mark: nat, idx: map<string, nat>)
    requires TagInvariant(nodes, mark, idx)
    ensures forall i, j :: mark <= i < j < |nodes| ==> nodes[i].uniqueTag != nodes[j].uniqueTag
  {
    forall i, j | mark <= i < j < |nodes| ensures nodes[i].uniqueTag != nodes[j].uniqueTag {
      var ti, tj := nodes[i].mtype, nodes[j].mtype;
      CountTypeMonotone(nodes, mark, i + 1, j + 1, tj);
      UniqueTagInjective(ti, CountType(nodes, mark, i + 1, ti), tj, CountType(nodes, mark, j + 1, tj));
    }
  }

  // ---------------------------------------------------------------- stack walk measures

  /** The sizes of the subtrees held on a stack. */
  function StackSize(nodes: seq<Membrane>, st: seq<nat>): nat
    requires Links(nodes) && forall k :: 0 <= k < |st| ==> st[k] < |nodes|
  {
    if st == [] then 0 else StackSize(nodes, st[..|st| - 1]) + Size(nodes, st[|st| - 1])
  }

  /** The membranes reachable from a stack. */
  function ReachStack(nodes: seq<Membrane>, st: seq<nat>): set<nat>
    requires Links(nodes) && forall k :: 0 <= k < |st| ==> st[k] < |nodes|
  {
    if st == [] then {} else ReachStack(nodes, st[..|st| - 1]) + Reach(nodes, st[|st| - 1])
  }

  lemma {:induction false} ListIsStack(nodes: seq<Membrane>, xs: seq<nat>, lo: nat)
    requires Links(nodes) && forall k :: 0 <= k < |xs| ==> lo < xs[k] < |nodes|
    ensures SizeList(nodes, xs, lo) == StackSize(nodes, xs)
    ensures ReachList(nodes, xs, lo) == ReachStack(nodes, xs)
    decreases |xs|
  {
    if xs != [] {
      ListIsStack(nodes, xs[..|xs| - 1], lo);
    }
  }

  lemma {:induction false} StackConcat(nodes: seq<Membrane>, a: seq<nat>, b: seq<nat>)
    requires Links(nodes)
    requires forall k :: 0 <= k < |a| ==> a[k] < |nodes|
    requires forall k :: 0 <= k < |b| ==> b[k] < |nodes|
    ensures StackSize(nodes, a + b) == StackSize(nodes, a) + StackSize(nodes, b)
    ensures ReachStack(nodes, a + b) == ReachStack(nodes, a) + ReachStack(nodes, b)
    decreases |b|
  {
    if b == [] {
      assert a + b == a;
    } else {
      var n := |b| - 1;
      assert (a + b)[..|a + b| - 1] == a + b[..n];
      StackConcat(nodes, a, b[..n]);
    }
  }

  /** Popping a membrane and pushing its children: the stack measure drops by one, the reach is kept. */
  lemma PopPush(nodes: seq<Membrane>, st: seq<nat>)
    requires Links(nodes) && st != [] && forall k :: 0 <= k < |st| ==> st[k] < |nodes|
    ensures var x, rest := st[|st| - 1], st[..|st| - 1];
      (forall k :: 0 <= k < |nodes[x].children| ==> nodes[x].children[k] < |nodes|) &&
      StackSize(nodes, rest + nodes[x].children) + 1 == StackSize(nodes, st) &&
      ReachStack(nodes, rest + nodes[x].children) + {x} == ReachStack(nodes, st)
  {
    var x, rest := st[|st| - 1], st[..|st| - 1];
    ListIsStack(nodes, nodes[x].children, x);
    StackConcat(nodes, rest, nodes[x].children);
  }

  /**
   * Reachability from x reads only the children lists from x on: a longer
   * arena, or one that differs only below x, reaches the same membranes.
   */
  lemma {:induction false} ReachFrame(a: seq<Membrane>, b: seq<Membrane>, x: nat)
    requires Links(a) && Links(b) && x < |a| <= |b|
    requires forall y :: x <= y < |a| ==> a[y].children == b[y].children
    ensures Reach(a, x) == Reach(b, x)
    decreases |a| - x, 1, 0
  {
    ReachListFrame(a, b, a[x].children, x);
  }

  lemma {:induction false} ReachListFrame(a: seq<Membrane>, b: seq<Membrane>, xs: seq<nat>, lo: nat)
    requires Links(a) && Links(b) && |a| <= |b|
    requires forall k :: 0 <= k < |xs| ==> lo < xs[k] < |a|
    requires forall y :: lo < y < |a| ==> a[y].children == b[y].children
    ensures ReachList(a, xs, lo) == ReachList(b, xs, lo)
    decreases |a| - lo, 0, |xs|
  {
    if xs != [] {
      ReachListFrame(a, b, xs[..|xs| - 1], lo);
      ReachFrame(a, b, xs[|xs| - 1]);
    }
  }

  /** Giving p one more child c adds exactly the subtree of c to what p reaches. */
  lemma ReachAddChild(nodes: seq<Membrane>, ns: seq<Membrane>, p: nat, c: nat)
    requires Links(nodes) && Links(ns) && p < c < |nodes| == |ns|
    requires ns[p].children == nodes[p].children + [c]
    requires forall y :: 0 <= y < |nodes| && y != p ==> ns[y].children == nodes[y].children
    ensures Reach(ns, p) == Reach(nodes, p) + Reach(nodes, c)
  {
    var ch := nodes[p].children;
    ListIsStack(ns, ch + [c], p);
    ListIsStack(ns, ch, p);
    ListIsStack(nodes, ch, p);
    ReachListFrame(nodes, ns, ch, p);
    ReachFrame(nodes, ns, c);
    assert (ch + [c])[..|ch|] == ch;
  }

  /** Appending the elements of `xs` not yet present, in order. */
  function AppendNew(s: seq<nat>, x: nat): seq<nat> {
    if x in s then s else s + [x]
  }

  predicate Distinct(s: seq<nat>) {
    forall i, j :: 0 <= i < j < |s| ==> s[i] != s[j]
  }

  /** The arena invariant: well-linked, duplicate-free subtree lists, and the tag counter. */
  ghost predicate Shape(nodes: seq<Membrane>, mark: nat, idx: map<string, nat>) {
    Links(nodes) &&
    (forall i :: 0 <= i < |nodes| ==> Distinct(nodes[i].all) && i in nodes[i].all) &&
    TagInvariant(nodes, mark, idx)
  }

  /** The counter invariant reads only the types and the tags. */
  lemma TagInvariantFrame(a: seq<Membrane>, b: seq<Membrane>, mark: nat, idx: map<string, nat>)
    requires TagInvariant(a, mark, idx) && |a| == |b|
    requires forall i :: 0 <= i < |a| ==> a[i].mtype == b[i].mtype && a[i].uniqueTag == b[i].uniqueTag
    ensures TagInvariant(b, mark, idx)
  {
    forall t ensures CountType(a, mark, |a|, t) == CountType(b, mark, |b|, t) {
      CountTypeFrame(a, b, mark, |a|, t);
    }
    forall i | mark <= i < |a| ensures CountType(a, mark, i + 1, a[i].mtype) == CountType(b, mark, i + 1, a[i].mtype) {
      CountTypeFrame(a, b, mark, i + 1, a[i].mtype);
    }
  }

  /** A change of counts alone keeps the arena invariant. */
  lemma SameShapeKeepsShape(a: seq<Membrane>, b: seq<Membrane>, mark: nat, idx: map<string, nat>)
    requires Shape(a, mark, idx) && SameShape(a, b)
    ensures Shape(b, mark, idx)
  {
    TagInvariantFrame(a, b, mark, idx);
  }

  lemma AddedAtSameShape(nodes: seq<Membrane>, j: nat, loc: Location, name: string, n: int)
    ensures SameShape(nodes, AddedAt(nodes, j, loc, name, n))
  {
  }

  lemma AddedLocatedSameShape(nodes: seq<Membrane>, i: nat, ls: LocatedSpecies, n: int)
    ensures SameShape(nodes, AddedLocated(nodes, i, ls, n))
  {
  }

  /** Appending a membrane whose tag takes the next number of its type keeps the counter invariant. */
  lemma TagInvariantAppend(nodes: seq<Membrane>, mark: nat, idx: map<string, nat>, m: Membrane)
    requires TagInvariant(nodes, mark, idx)
    requires m.uniqueTag == UniqueTagFor(m.mtype, Lookup(idx, m.mtype) + 1)
    ensures TagInvariant(nodes + [m], mark, idx[m.mtype := Lookup(idx, m.mtype) + 1])
  {
    var ns, idx' := nodes + [m], idx[m.mtype := Lookup(idx, m.mtype) + 1];
    forall t ensures CountType(ns, mark, |nodes|, t) == CountType(nodes, mark, |nodes|, t) {
      CountTypeFrame(ns, nodes, mark, |nodes|, t);
    }
    forall i | mark <= i < |nodes| ensures CountType(ns, mark, i + 1, ns[i].mtype) == CountType(nodes, mark, i + 1, nodes[i].mtype) {
      CountTypeFrame(ns, nodes, mark, i + 1, nodes[i].mtype);
    }
    assert forall t :: CountType(ns, mark, |ns|, t) == CountType(ns, mark, |nodes|, t) + (if m.mtype == t then 1 else 0);
  }

  /** A new membrane, childless and recording only itself, keeps the arena invariant. */
  lemma ShapeAppend(nodes: seq<Membrane>, mark: nat, idx: map<string, nat>, m: Membrane)
    requires Shape(nodes, mark, idx)
    requires m.parent.Some? ==> m.parent.value < |nodes|
    requires m.children == [] && m.all == [|nodes|]
    requires m.uniqueTag == UniqueTagFor(m.mtype, Lookup(idx, m.mtype) + 1)
    ensures Shape(nodes + [m], mark, idx[m.mtype := Lookup(idx, m.mtype) + 1])
  {
    TagInvariantAppend(nodes, mark, idx, m);
    var ns := nodes + [m];
    assert forall i :: 0 <= i < |nodes| ==> ns[i] == nodes[i];
  }

  /** Recording a child and a grown duplicate-free subtree list keeps the arena invariant. */
  lemma AddChildShape(nodes: seq<Membrane>, mark: nat, idx: map<string, nat>, p: nat, c: nat, all: seq<nat>)
    requires Shape(nodes, mark, idx) && p < |nodes| && c < |nodes| && nodes[c].parent == Some(p)
    requires Distinct(all) && nodes[p].all <= all
    requires forall k :: 0 <= k < |all| ==> all[k] < |nodes|
    ensures Shape(nodes[p := nodes[p].(children := AppendNew(nodes[p].children, c), all := all)], mark, idx)
  {
    var ns := nodes[p := nodes[p].(children := AppendNew(nodes[p].children, c), all := all)];
    assert p < c;
    assert p in nodes[p].all;
    TagInvariantFrame(nodes, ns, mark, idx);
  }

  /**
   * The stack walk of `addMembrane`: pops a membrane, records it unless it
   * is already recorded, and pushes its children, until the stack is empty.
   */
  method WalkSubtree(nodes: seq<Membrane>, all0: seq<nat>, c: nat) returns (all: seq<nat>)
    requires Links(nodes) && c < |nodes| && Distinct(all0)
    requires forall k :: 0 <= k < |all0| ==> all0[k] < |nodes|
    ensures Distinct(all) && all0 <= all
    ensures forall k :: 0 <= k < |all| ==> all[k] < |nodes|
    ensures forall m :: m in all <==> m in all0 || m in Reach(nodes, c)
  {
    all := all0;
    var stack: seq<nat> := [c];
    assert [c][..0] == [];
    ReachInRange(nodes, c);
    while stack != []
      invariant forall k :: 0 <= k < |stack| ==> stack[k] < |nodes|
      invariant Distinct(all) && all0 <= all
      invariant forall k :: 0 <= k < |all| ==> all[k] < |nodes|
      invariant forall m :: m in all || m in ReachStack(nodes, stack) <==> m in all0 || m in Reach(nodes, c)
      decreases StackSize(nodes, stack)
    {
      var x := stack[|stack| - 1];
      PopPush(nodes, stack);
      stack := stack[..|stack| - 1] + nodes[x].children;
      all := AppendNew(all, x);
    }
  }

  /** The tags a new membrane keeps, collected one by one as the constructor does. */
  method KeepTags(mtype: string, tags: seq<string>) returns (kept: seq<string>)
    ensures kept == KeptTags(mtype, tags)
  {
    kept := [];
    var n := 0;
    while n < |tags|
      invariant 0 <= n <= |tags|
      invariant kept == KeptTags(mtype, tags[..n])
    {
      assert tags[..n + 1][..n] == tags[..n];
      if !IsUniqueTag(mtype, tags[n]) && tags[n] !in kept {
        kept := kept + [tags[n]];
      }
      n := n + 1;
    }
    assert tags[..n] == tags;
  }

  // ---------------------------------------------------------------- the arena

  class Tree {
    /** Every membrane instance, by creation index. */
    var nodes: seq<Membrane>
    /** The per-type unique-tag counter (`membraneTypeIndices`). */
    var typeIndices: map<string, nat>
    /** Where the counter was last cleared. */
    ghost var resetMark: nat
    /** `matchingMembranes`, the per-membrane cache of reaction matches. */
    var cache: map<(nat, Reaction), set<nat>>

    ghost predicate Valid()
      reads this
    {
      Shape(nodes, resetMark, typeIndices)
    }

    constructor ()
      ensures Valid() && nodes == [] && typeIndices == map[] && cache == map[]
    {
      nodes, typeIndices, resetMark, cache := [], map[], 0, map[];
    }

    /** `resetUniqueTags`: the next membrane of every type is numbered 1 again. */
    method ResetUniqueTags()
      requires Valid()
      modifies this
      ensures Valid() && typeIndices == map[] && resetMark == |nodes|
      ensures nodes == old(nodes) && cache == old(cache)
    {
      typeIndices := map[];
      resetMark := |nodes|;
    }

    /**
     * The `Membrane` constructor: takes the next number of its type for the
     * unique tag, keeps the supplied tags that are not of the unique-tag
     * form, starts with no species, no children, and itself as the only
     * recorded membrane of its subtree.
     */
    method NewMembrane(mtype: string, tags: seq<string>, parent: Option<nat>) returns (i: nat)
      requires Valid() && (parent.Some? ==> parent.value < |nodes|)
      modifies this
      ensures Valid() && i == |old(nodes)|
      ensures nodes == old(nodes) + [Membrane(mtype, KeptTags(mtype, tags),
        UniqueTagFor(mtype, Lookup(old(typeIndices), mtype) + 1), parent, [], map[], map[], map[], [i])]
      ensures typeIndices == old(typeIndices)[mtype := Lookup(old(typeIndices), mtype) + 1]
      ensures cache == old(cache) && resetMark == old(resetMark)
    {
      var k := Lookup(typeIndices, mtype) + 1;
      var kept := KeepTags(mtype, tags);
      i := |nodes|;
      var m := Membrane(mtype, kept, UniqueTagFor(mtype, k), parent, [], map[], map[], map[], [i]);
      ShapeAppend(nodes, resetMark, typeIndices, m);
      nodes := nodes + [m];
      typeIndices := typeIndices[mtype := k];
    }

    /**
     * `addMembrane`: records `c` as a child of `p` and walks the subtree of
     * `c` with a stack, recording every membrane met in the subtree list of
     * `p` (only that of `p`, not of its ancestors).
     */
    method AddMembrane(p: nat, c: nat)
      requires Valid() && p < |nodes| && c < |nodes| && nodes[c].parent == Some(p)
      modifies this
      ensures Valid() && |nodes| == |old(nodes)|
      ensures forall j :: 0 <= j < |nodes| && j != p ==> nodes[j] == old(nodes[j])
      ensures nodes[p] == old(nodes[p]).(children := AppendNew(old(nodes[p].children), c), all := nodes[p].all)
      ensures old(nodes[p].all) <= nodes[p].all
      ensures forall m :: m in nodes[p].all <==> m in old(nodes[p].all) || m in Reach(old(nodes), c)
      ensures c !in old(nodes[p].children) ==> Reach(nodes, p) == Reach(old(nodes), p) + Reach(old(nodes), c)
      ensures typeIndices == old(typeIndices) && cache == old(cache) && resetMark == old(resetMark)
    {
      var all := WalkSubtree(nodes, nodes[p].all, c);
      AddChildShape(nodes, resetMark, typeIndices, p, c, all);
      ghost var before := nodes;
      nodes := nodes[p := nodes[p].(children := AppendNew(nodes[p].children, c), all := all)];
      if c !in before[p].children {
        ReachAddChild(before, nodes, p, c);
      }
    }

    /** `addSpecies(location, name, n)` on membrane j. */
    method AddSpeciesAt(j: nat, loc: Location, name: string, n: int)
      requires Valid()
      modifies this
      ensures Valid() && nodes == AddedAt(old(nodes), j, loc, name, n)
      ensures typeIndices == old(typeIndices) && cache == old(cache) && resetMark == old(resetMark)
    {
      AddedAtSameShape(nodes, j, loc, name, n);
      SameShapeKeepsShape(nodes, AddedAt(nodes, j, loc, name, n), resetMark, typeIndices);
      nodes := AddedAt(nodes, j, loc, name, n);
    }

    /**
     * `addSpecies(locatedSpecies, n)` on membrane i: the membrane name picks
     * this membrane, its parent (for `contained`) or, for `around`, this
     * membrane's contents when a child has that type; any other reference is
     * logged and ignored.
     */
    method AddLocatedSpecies(i: nat, ls: LocatedSpecies, n: int)
      requires Valid() && i < |nodes|
      modifies this
      ensures Valid() && nodes == AddedLocated(old(nodes), i, ls, n)
      ensures typeIndices == old(typeIndices) && cache == old(cache) && resetMark == old(resetMark)
    {
      var m := nodes[i];
      var name := ls.membraneName;
      if name == m.mtype || MatchesTag(m, name) {
        AddSpeciesAt(i, ls.location, ls.speciesName, n);
      } else if ls.location == Contained {
        if m.parent.Some? && m.parent.value < |nodes| &&
           (name == nodes[m.parent.value].mtype || MatchesTag(nodes[m.parent.value], name)) {
          AddSpeciesAt(m.parent.value, Contained, ls.speciesName, n);
        }
      } else if ls.location == Around {
        var k := 0;
        var found := false;
        while k < |m.children| && !found
          invariant 0 <= k <= |m.children|
          invariant found <==> HasChildOfTypeBelow(nodes, i, name, k)
        {
          found := m.children[k] < |nodes| && nodes[m.children[k]].mtype == name;
          k := k + 1;
        }
        if found {
          AddSpeciesAt(i, Contained, ls.speciesName, n);
        }
      }
    }

    /** `stoichiometryMatches`: each consumed species is present in the needed number. */
    method StoichiometryMatches(i: nat, consumed: seq<StoichiometrySpecies>) returns (b: bool)
      ensures b <==> forall k :: 0 <= k < |consumed| ==> NumLocated(nodes, i, consumed[k].species) >= consumed[k].stoichiometry
    {
      var k := 0;
      while k < |consumed|
        invariant 0 <= k <= |consumed|
        invariant forall q :: 0 <= q < k ==> NumLocated(nodes, i, consumed[q].species) >= consumed[q].stoichiometry
      {
        if NumLocated(nodes, i, consumed[k].species) < consumed[k].stoichiometry {
          return false;
        }
        k := k + 1;
      }
      return true;
    }

    /** `getAllSpecies`: the total over a subtree, summed child by child. */
    method AllSpeciesOf(i: nat, name: string) returns (total: nat)
      requires Valid() && i < |nodes|
      ensures total == AllSpecies(nodes, i, name)
      decreases |nodes| - i
    {
      var m := nodes[i];
      total := Count(m.contained, name) + Count(m.on, name) + Count(m.under, name);
      var k := 0;
      while k < |m.children|
        invariant 0 <= k <= |m.children|
        invariant total == Count(m.contained, name) + Count(m.on, name) + Count(m.under, name)
          + AllSpeciesList(nodes, m.children[..k], i, name)
      {
        assert m.children[..k + 1][..k] == m.children[..k];
        var sub := AllSpeciesOf(m.children[k], name);
        total := total + sub;
        k := k + 1;
      }
      assert m.children[..k] == m.children;
    }

    /**
     * `getMatchingMembranes(name, location)`: the recorded membranes of that
     * type, or failing that those carrying that tag, mapped to their parents
     * for `around`.
     */
    method MatchingMembranesOf(i: nat, name: string, loc: Location) returns (r: set<nat>)
      requires i < |nodes|
      ensures r == MatchingMembranes(nodes, i, name, loc)
    {
      var all := nodes[i].all;
      var same: set<nat> := {};
      var named: set<nat> := {};
      var k := 0;
      while k < |all|
        invariant 0 <= k <= |all|
        invariant same == (set m | m in all[..k] && m < |nodes| && nodes[m].mtype == name)
        invariant named == (set m | m in all[..k] && m < |nodes| && MatchesTag(nodes[m], name))
      {
        assert all[..k + 1] == all[..k] + [all[k]];
        if all[k] < |nodes| && nodes[all[k]].mtype == name {
          same := same + {all[k]};
        }
        if all[k] < |nodes| && MatchesTag(nodes[all[k]], name) {
          named := named + {all[k]};
        }
        k := k + 1;
      }
      assert all[..k] == all;
      var base := if same != {} then same else named;
      if loc == Around {
        r := Parents(nodes, base);
      } else {
        r := base;
      }
    }

    /** The cache is correct when each stored entry is what a fresh computation would give. */
    ghost predicate CacheCoherent()
      reads this
    {
      forall key :: key in cache ==> cache[key] == ComputeMatching(nodes, key.0, key.1)
    }

    /**
     * `getMatchingMembranes(reaction)` on membrane i: the cached entry when
     * there is one, otherwise a fresh computation that is then stored.
     */
    method MatchingFor(i: nat, r: Reaction) returns (ms: set<nat>)
      requires i < |nodes|
      modifies this`cache
      ensures (i, r) in old(cache) ==> ms == old(cache)[(i, r)] && cache == old(cache)
      ensures (i, r) !in old(cache) ==> ms == ComputeMatching(nodes, i, r) && cache == old(cache)[(i, r) := ms]
      ensures old(CacheCoherent()) ==> CacheCoherent() && ms == ComputeMatching(nodes, i, r)
    {
      if (i, r) in cache {
        ms := cache[(i, r)];
      } else {
        if r.aroundReaction {
          ms := MatchingMembranesOf(i, r.membraneType, Around);
        } else {
          ms := OfTypeOf(i, r.membraneType);
        }
        cache := cache[(i, r) := ms];
      }
    }

    /** `allMembranes.get(type)` on membrane i. */
    method OfTypeOf(i: nat, mtype: string) returns (r: set<nat>)
      requires i < |nodes|
      ensures r == OfType(nodes, i, mtype)
    {
      var all := nodes[i].all;
      r := {};
      var k := 0;
      while k < |all|
        invariant 0 <= k <= |all|
        invariant r == (set m | m in all[..k] && m < |nodes| && nodes[m].mtype == mtype)
      {
        assert all[..k + 1] == all[..k] + [all[k]];
        if all[k] < |nodes| && nodes[all[k]].mtype == mtype {
          r := r + {all[k]};
        }
        k := k + 1;
      }
      assert all[..k] == all;
    }
  }

  predicate HasChildOfTypeBelow(nodes: seq<Membrane>, i: nat, name: string, k: nat)
    requires i < |nodes|
  {
    exists q :: 0 <= q < k && q < |nodes[i].children| && nodes[i].children[q] < |nodes| && nodes[nodes[i].children[q]].mtype == name
  }

  /** A count change keeps every cached match correct. */
  lemma CacheSurvivesCounts(a: seq<Membrane>, b: seq<Membrane>, cache: map<(nat, Reaction), set<nat>>)
    requires SameShape(a, b)
    requires forall key :: key in cache ==> cache[key] == ComputeMatching(a, key.0, key.1)
    ensures forall key :: key in cache ==> cache[key] == ComputeMatching(b, key.0, key.1)
  {
    forall key | key in cache ensures cache[key] == ComputeMatching(b, key.0, key.1) {
      MatchingIgnoresCounts(a, b, key.0, key.1);
    }
  }
}
