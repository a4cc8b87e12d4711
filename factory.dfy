/**
 * The rules `SimulationFactory` applies while it turns the listener events
 * of a parsed model file into a simulation (parsing/SimulationFactory.java):
 * reading a stoichiometry token, stripping quotes from tag values, building
 * the reverse of a reversible reaction, seeding the initial species into the
 * membrane tree and the semantic checks on listed and inferred names. The
 * simplification of rate equations is in module Simplify.
 */
module Factory {
  import opened Wrappers
  import opened Text
  import opened Species
  import opened Equations
  import opened Reactions
  import opened Membranes

  // ---------------------------------------------------------------- stoichiometry tokens

  /**
   * The stoichiometry of a species in a reaction: 1 when no token is
   * written, 0 for `gene` and `catalyst`, otherwise the integer written.
   */
  function StoichiometryOf(token: Option<string>): (r: Result<int>)
    ensures token.None? ==> r == Success(1)
    ensures token == Some("gene") || token == Some("catalyst") ==> r == Success(0)
    ensures r.Success? ==> IntMin <= r.value <= IntMax
  {
    match token
    case None => Success(1)
    case Some(t) => if t == "gene" || t == "catalyst" then Success(0) else ParseInt(t)
  }

  /** A written integer is read as that stoichiometry; it is never mistaken for a keyword. */
  lemma StoichiometryTokenRoundTrip(n: int)
    requires IntMin <= n <= IntMax
    ensures StoichiometryOf(Some(IntToString(n))) == Success(n)
  {
    ParseIntRoundTrip(n);
    var s := IntToString(n);
    var m: nat := if n < 0 then -n else n;
    NatToStringNumeric(m);
    assert s[0] == '-' || IsDigit(s[0]);
    assert s != "gene" && s != "catalyst" by {
      assert "gene"[0] == 'g' && "catalyst"[0] == 'c';
    }
  }

  // ---------------------------------------------------------------- reversible reactions

  /** Anchor conflicts are judged pairwise, so they do not depend on the order of the species. */
  lemma ConsistentSwap(a: seq<StoichiometrySpecies>, b: seq<StoichiometrySpecies>)
    requires Consistent(a + b)
    ensures Consistent(b + a)
  {
    var s, t := a + b, b + a;
    forall j | 0 <= j < |t|
      ensures !ConflictAt(t, j)
    {
      if ConflictAt(t, j) {
        var i :| 0 <= i < j && IsOnUnder(t[i].species.location) == IsOnUnder(t[j].species.location)
          && t[i].species.membraneName != t[j].species.membraneName;
        var i', j' := Moved(i, |a|, |b|), Moved(j, |a|, |b|);
        assert t[i] == s[i'] && t[j] == s[j'];
        if i' < j' {
          assert ConflictAt(s, j');
        } else {
          assert ConflictAt(s, i');
        }
        assert false;
      }
    }
  }

  /** Where entry k of b + a sits in a + b. */
  function Moved(k: nat, na: nat, nb: nat): nat {
    if k < nb then k + na else k - nb
  }

  /** Two anchor types of the same species are the same type. */
  lemma AnchorUnique(s: seq<StoichiometrySpecies>, t1: string, t2: string)
    requires AnchorType(s, t1) && AnchorType(s, t2)
    ensures t1 == t2
  {
    if exists i :: 0 <= i < |s| && IsOnUnder(s[i].species.location) {
      var i :| 0 <= i < |s| && IsOnUnder(s[i].species.location);
      assert s[i].species.membraneName == t1 && s[i].species.membraneName == t2;
    } else {
      var i :| 0 <= i < |s| && s[i].species.membraneName == t1;
      assert s[i].species.membraneName == t2;
    }
  }

  /** The anchor type is about which species there are, not their order. */
  lemma AnchorTypeSwap(a: seq<StoichiometrySpecies>, b: seq<StoichiometrySpecies>, t: string)
    requires AnchorType(a + b, t)
    ensures AnchorType(b + a, t)
  {
    var s, u := a + b, b + a;
    forall i | 0 <= i < |u|
      ensures u[i] == s[Moved(i, |a|, |b|)]
    {
    }
    var w :| 0 <= w < |s| && s[w].species.membraneName == t;
    var w' := if w < |a| then w + |b| else w - |a|;
    assert u[w'] == s[w];
    if forall i :: 0 <= i < |u| ==> !IsOnUnder(u[i].species.location) {
      forall i | 0 <= i < |s|
        ensures !IsOnUnder(s[i].species.location)
      {
        var i' := if i < |a| then i + |b| else i - |a|;
        assert u[i'] == s[i];
      }
    }
  }

  /**
   * The reverse of a reversible reaction: a new `Reaction` whose consumed
   * species are the forward's products and whose products are the forward's
   * consumed species, with the reverse modifier and delay.
   */
  method ReverseReaction(forward: Reaction, reverseModifier: Expr, simplifiedReverse: Expr, reverseDelayHours: real)
    returns (r: Result<Reaction>)
    ensures r.Success? ==>
      r.value.consumed == forward.produced && r.value.produced == forward.consumed &&
      r.value.rateModifier == reverseModifier && r.value.delayHours == reverseDelayHours &&
      r.value.mdslLine == forward.mdslLine && r.value.mdslLineNumber == forward.mdslLineNumber
    ensures forward.consumed + forward.produced != [] && Consistent(forward.consumed + forward.produced) ==>
      r.Success?
    ensures r.Success? && AnchorType(forward.consumed + forward.produced, forward.membraneType) ==>
      r.value.membraneType == forward.membraneType
  {
    r := NewReaction(forward.produced, forward.consumed, reverseModifier, simplifiedReverse, reverseDelayHours,
                     forward.mdslLine, forward.mdslLineNumber);
    if forward.consumed + forward.produced != [] && Consistent(forward.consumed + forward.produced) {
      ConsistentSwap(forward.consumed, forward.produced);
    }
    if r.Success? && AnchorType(forward.consumed + forward.produced, forward.membraneType) {
      AnchorTypeSwap(forward.consumed, forward.produced, forward.membraneType);
      AnchorUnique(forward.produced + forward.consumed, r.value.membraneType, forward.membraneType);
    }
  }

  // ---------------------------------------------------------------- initial species

  /** Membrane matching reads only the shape of the tree. */
  lemma MatchingKeptByShape(a: seq<Membrane>, b: seq<Membrane>, i: nat, name: string, loc: Location)
    requires SameShape(a, b)
    ensures MatchingMembranes(a, i, name, loc) == MatchingMembranes(b, i, name, loc)
  {
    assert OfType(a, i, name) == OfType(b, i, name);
    assert WithTag(a, i, name) == WithTag(b, i, name);
    var base := if OfType(a, i, name) != {} then OfType(a, i, name) else WithTag(a, i, name);
    assert Parents(a, base) == Parents(b, base);
  }

  /** In a well-linked arena every matching membrane exists. */
  lemma MatchingInRange(nodes: seq<Membrane>, i: nat, name: string, loc: Location)
    requires Links(nodes)
    ensures forall m :: m in MatchingMembranes(nodes, i, name, loc) ==> m < |nodes|
  {
    forall m | m in MatchingMembranes(nodes, i, name, loc)
      ensures m < |nodes|
    {
      var base := if OfType(nodes, i, name) != {} then OfType(nodes, i, name) else WithTag(nodes, i, name);
      if loc == Around {
        var c :| c in base && c < |nodes| && nodes[c].parent.Some? && nodes[c].parent.value == m;
      }
    }
  }

  /** One initial entry added to each membrane of ms in turn. */
  function SeedOne(nodes: seq<Membrane>, ms: seq<nat>, ls: LocatedSpecies, n: nat): seq<Membrane> {
    if ms == [] then nodes
    else AddedLocated(SeedOne(nodes, ms[..|ms| - 1], ls, n), ms[|ms| - 1], ls, n)
  }

  /** Every initial entry seeded in turn, entry i into the membranes order[i]. */
  function Seeded(nodes: seq<Membrane>, initial: seq<(LocatedSpecies, nat)>, order: seq<seq<nat>>): seq<Membrane>
    requires |order| == |initial|
  {
    if initial == [] then nodes
    else
      var k := |initial| - 1;
      SeedOne(Seeded(nodes, initial[..k], order[..k]), order[k], initial[k].0, initial[k].1)
  }

  /** Seeding only moves counts: the tree's membranes, tags and links stay as they are. */
  lemma {:induction false} SeedOneShape(nodes: seq<Membrane>, ms: seq<nat>, ls: LocatedSpecies, n: nat)
    ensures SameShape(nodes, SeedOne(nodes, ms, ls, n))
  {
    if ms != [] {
      var before := SeedOne(nodes, ms[..|ms| - 1], ls, n);
      SeedOneShape(nodes, ms[..|ms| - 1], ls, n);
      AddedLocatedSameShape(before, ms[|ms| - 1], ls, n);
    }
  }

  lemma {:induction false} SeededShape(nodes: seq<Membrane>, initial: seq<(LocatedSpecies, nat)>, order: seq<seq<nat>>)
    requires |order| == |initial|
    ensures SameShape(nodes, Seeded(nodes, initial, order))
  {
    if initial != [] {
      var k := |initial| - 1;
      var before := Seeded(nodes, initial[..k], order[..k]);
      SeededShape(nodes, initial[..k], order[..k]);
      SeedOneShape(before, order[k], initial[k].0, initial[k].1);
    }
  }

  /** A single membrane seeded once, with a name that picks it directly, gains exactly n of the species there. */
  lemma SeedSingleCount(nodes: seq<Membrane>, m: nat, ls: LocatedSpecies, n: nat)
    requires m < |nodes| && nodes[m].mtype == ls.membraneName && ls.location != Around
    ensures NumLocated(SeedOne(nodes, [m], ls, n), m, ls) == NumLocated(nodes, m, ls) + n
  {
    assert SeedOne(nodes, [m], ls, n) == AddedLocated(nodes, m, ls, n);
    ResolveNumAgreesWithAdd(nodes, m, ls);
    AddedLocatedCount(nodes, m, ls, n);
  }

  /**
   * The seeding loop of `constructSimulation`: each initial (species, count)
   * entry is added to every membrane of the tree that matches its membrane
   * name and location. The source visits the matches in the order they
   * were recorded (a `LinkedHashMultimap`), or in no fixed order for a tag
   * (a `HashSet`); a `set` records neither, so `order` records the
   * order in which each entry's matching membranes were visited.
   */
  method SeedInitialSpecies(tree: Tree, initial: seq<(LocatedSpecies, nat)>) returns (ghost order: seq<seq<nat>>)
    requires tree.Valid() && |tree.nodes| > 0
    modifies tree
    ensures tree.Valid() && |order| == |initial|
    ensures forall i :: 0 <= i < |initial| ==>
      Distinct(order[i]) &&
      forall m :: m in order[i] <==> m in MatchingMembranes(old(tree.nodes), 0, initial[i].0.membraneName, initial[i].0.location)
    ensures tree.nodes == Seeded(old(tree.nodes), initial, order)
    ensures tree.typeIndices == old(tree.typeIndices) && tree.cache == old(tree.cache) && tree.resetMark == old(tree.resetMark)
  {
    ghost var start := tree.nodes;
    order := [];
    var i := 0;
    while i < |initial|
      invariant 0 <= i <= |initial| && |order| == i
      invariant tree.Valid() && tree.typeIndices == old(tree.typeIndices) && tree.cache == old(tree.cache) && tree.resetMark == old(tree.resetMark)
      invariant tree.nodes == Seeded(start, initial[..i], order)
      invariant forall j :: 0 <= j < i ==>
        Distinct(order[j]) &&
        forall m :: m in order[j] <==> m in MatchingMembranes(start, 0, initial[j].0.membraneName, initial[j].0.location)
    {
      var ls, howMany := initial[i].0, initial[i].1;
      SeededShape(start, initial[..i], order);
      MatchingKeptByShape(start, tree.nodes, 0, ls.membraneName, ls.location);
      var matching := tree.MatchingMembranesOf(0, ls.membraneName, ls.location);
      MatchingInRange(tree.nodes, 0, ls.membraneName, ls.location);
      ghost var visited := SeedMatching(tree, matching, ls, howMany);
      assert initial[..i + 1][..i] == initial[..i];
      assert (order + [visited])[..i] == order;
      order := order + [visited];
      i := i + 1;
    }
    assert initial[..i] == initial;
  }

  /** The inner loop: one entry added to each membrane of the matching set, in the order visited. */
  method SeedMatching(tree: Tree, matching: set<nat>, ls: LocatedSpecies, howMany: nat) returns (ghost visited: seq<nat>)
    requires tree.Valid() && forall m :: m in matching ==> m < |tree.nodes|
    modifies tree
    ensures tree.Valid() && tree.typeIndices == old(tree.typeIndices) && tree.cache == old(tree.cache) && tree.resetMark == old(tree.resetMark)
    ensures Distinct(visited) && forall m :: m in visited <==> m in matching
    ensures tree.nodes == SeedOne(old(tree.nodes), visited, ls, howMany)
  {
    ghost var start := tree.nodes;
    visited := [];
    var left := matching;
    while left != {}
      invariant left <= matching && Distinct(visited)
      invariant forall m :: m in visited <==> m in matching && m !in left
      invariant tree.Valid() && tree.typeIndices == old(tree.typeIndices) && tree.cache == old(tree.cache) && tree.resetMark == old(tree.resetMark)
      invariant tree.nodes == SeedOne(start, visited, ls, howMany)
      invariant |tree.nodes| == |start|
      decreases |left|
    {
      var m :| m in left;
      AddedLocatedSameShape(tree.nodes, m, ls, howMany);
      tree.AddLocatedSpecies(m, ls, howMany);
      assert (visited + [m])[..|visited|] == visited;
      visited := visited + [m];
      left := left - {m};
    }
  }

  // ---------------------------------------------------------------- semantic checks

  /** The listed-versus-used differences that `performSemanticChecks` reports. */
  datatype SemanticReport = SemanticReport(
    speciesNotListed: set<LocatedSpecies>,
    speciesNotUsed: set<LocatedSpecies>,
    parametersNotListed: set<string>,
    parametersNotUsed: set<string>)

  const ModelNotValid: string := "Simulation cannot be run because model is not valid - check error log for details."

  /**
   * The report: located species used in a reaction but never listed and
   * the reverse, and parameters used in an equation but never defined and
   * the reverse.
   */
  function SemanticChecks(speciesInferred: set<LocatedSpecies>, speciesListed: set<LocatedSpecies>,
                          parametersInferred: set<string>, parametersDefined: set<string>): (r: SemanticReport)
    ensures r.speciesNotListed <= speciesInferred && r.speciesNotListed !! speciesListed
    ensures r.speciesNotUsed <= speciesListed && r.speciesNotUsed !! speciesInferred
    ensures r.speciesNotListed + r.speciesNotUsed + (speciesInferred * speciesListed) == speciesInferred + speciesListed
    ensures r.parametersNotListed <= parametersInferred && r.parametersNotListed !! parametersDefined
    ensures r.parametersNotUsed <= parametersDefined && r.parametersNotUsed !! parametersInferred
    ensures r.parametersNotListed + r.parametersNotUsed + (parametersInferred * parametersDefined) ==
      parametersInferred + parametersDefined
  {
    SemanticReport(speciesInferred - speciesListed, speciesListed - speciesInferred,
                   parametersInferred - parametersDefined, parametersDefined - parametersInferred)
  }

  /**
   * The verdict of the checks: a model that uses a parameter it never
   * defines cannot be run; species that are unlisted or unused only give
   * warnings.
   */
  function CheckModel(speciesInferred: set<LocatedSpecies>, speciesListed: set<LocatedSpecies>,
                      parametersInferred: set<string>, parametersDefined: set<string>): (r: Result<SemanticReport>)
    ensures r.Success? <==> parametersInferred <= parametersDefined
    ensures r.Failure? ==> r.error == ModelNotValid
    ensures r.Success? ==> r.value.parametersNotListed == {}
  {
    var report := SemanticChecks(speciesInferred, speciesListed, parametersInferred, parametersDefined);
    if report.parametersNotListed != {} then Failure(ModelNotValid) else Success(report)
  }

  /** The species names of the model: those of every listed or inferred located species. */
  function AllSpeciesNames(speciesListed: set<LocatedSpecies>, speciesInferred: set<LocatedSpecies>): (r: set<string>)
    ensures forall ls :: ls in speciesListed || ls in speciesInferred ==> ls.speciesName in r
    ensures forall n :: n in r ==> exists ls :: ls in speciesListed + speciesInferred && ls.speciesName == n
  {
    set ls | ls in speciesListed + speciesInferred :: ls.speciesName
  }
}
