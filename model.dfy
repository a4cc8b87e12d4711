/**
 * The parsed model (model/MembraneModel.java): its reactions, parameter
 * values, species tags and the static table of which reactions must have
 * their rates recomputed when a given reaction fires. Reactions are
 * identified by their position in `reactions`.
 */
module Models {
  import opened Wrappers
  import opened Species
  import opened Equations
  import opened Reactions

  /** The species names of the leaves of a rate equation. */
  function RateSpeciesNames(e: Expr): set<string> {
    set ls | ls in RateSpecies(e) :: ls.speciesName
  }

  /**
   * Reaction `check` must be recomputed after `fired` fires: its rate
   * equation has a leaf whose species name `fired` modifies, whatever the
   * leaf's location.
   */
  predicate DependsOn(reactions: seq<Reaction>, fired: nat, check: nat)
    requires fired < |reactions| && check < |reactions|
  {
    RateSpeciesNames(reactions[check].rateEquation) * ModifiedSpecies(reactions[fired]) != {}
  }

  /** Every reaction has an entry, holding exactly the reactions that depend on it. */
  predicate DependencyTable(reactions: seq<Reaction>, deps: map<nat, set<nat>>) {
    (forall f :: f in deps ==> f < |reactions|) &&
    (forall f :: 0 <= f < |reactions| ==> f in deps) &&
    (forall f, c :: f in deps && c in deps[f] ==> c < |reactions| && DependsOn(reactions, f, c)) &&
    (forall f, c :: 0 <= f < |reactions| && 0 <= c < |reactions| && DependsOn(reactions, f, c) ==> c in deps[f])
  }

  /** The identifiers 0 .. n-1. */
  function AllIndices(n: nat): (s: set<nat>)
    ensures forall i: nat :: i in s <==> i < n
  {
    if n == 0 then {} else AllIndices(n - 1) + {n - 1}
  }

  datatype MembraneModel = MembraneModel(
    membraneNames: set<string>,
    speciesNames: set<string>,
    initialSpecies: seq<(LocatedSpecies, nat)>,
    parameterValues: map<string, real>,
    reactions: seq<Reaction>,
    speciesToTags: map<string, set<string>>,
    tagsToSpecies: map<string, set<string>>,
    reactionDependencies: map<nat, set<nat>>)
  {
    predicate Valid() {
      DependencyTable(reactions, reactionDependencies)
    }

    /** `getSpeciesForTag`: an unknown tag has no species. */
    function SpeciesForTag(tag: string): (r: set<string>)
      ensures tag !in tagsToSpecies ==> r == {}
      ensures tag in tagsToSpecies ==> r == tagsToSpecies[tag]
    {
      if tag in tagsToSpecies then tagsToSpecies[tag] else {}
    }

    /** `getParameterValue`: None for a parameter the model does not define. */
    function ParameterValue(name: string): (r: Option<real>)
      ensures r.Some? <==> name in parameterValues
      ensures r.Some? ==> r.value == parameterValues[name]
    {
      if name in parameterValues then Some(parameterValues[name]) else None
    }

    /**
     * `getDependentReactions`: with no reaction fired yet every reaction;
     * otherwise the reactions depending on the fired one.
     */
    function DependentReactions(fired: Option<nat>): (r: Option<set<nat>>)
      requires Valid()
      ensures fired.None? ==> r == Some(AllIndices(|reactions|))
      ensures fired.Some? ==> (r.Some? <==> fired.value < |reactions|)
      ensures fired.Some? && r.Some? ==>
        forall c: nat :: c in r.value <==> c < |reactions| && DependsOn(reactions, fired.value, c)
    {
      if fired.None? then Some(AllIndices(|reactions|))
      else if fired.value in reactionDependencies then Some(reactionDependencies[fired.value])
      else None
    }
  }

  /**
   * A reaction outside the dependents of `fired` keeps its rate whenever
   * only species named in `fired`'s modified species change.
   */
  lemma IndependentRateUnchanged(reactions: seq<Reaction>, deps: map<nat, set<nat>>, fired: nat, check: nat,
                                 c1: LocatedSpecies -> nat, c2: LocatedSpecies -> nat, ln: real -> real)
    requires DependencyTable(reactions, deps)
    requires fired < |reactions| && check < |reactions| && check !in deps[fired]
    requires forall ls: LocatedSpecies :: ls.speciesName !in ModifiedSpecies(reactions[fired]) ==> c1(ls) == c2(ls)
    ensures Eval(reactions[check].rateEquation, c1, ln) == Eval(reactions[check].rateEquation, c2, ln)
  {
    var e := reactions[check].rateEquation;
    forall ls | ls in RateSpecies(e)
      ensures c1(ls) == c2(ls)
    {
      assert ls.speciesName in RateSpeciesNames(e);
      assert !DependsOn(reactions, fired, check);
      DisjointNotIn(ls.speciesName, RateSpeciesNames(e), ModifiedSpecies(reactions[fired]));
    }
    EvalDependsOnlyOnRateSpecies(e, c1, c2, ln);
  }

  /** The species names the source's binary-only worklist reaches. */
  function BinaryReachableNames(e: Expr): set<string> {
    set ls | ls in BinaryReachableSpecies(e) :: ls.speciesName
  }

  /**
   * The dependency as `calculateReactionDependencies` computes it: its
   * worklist descends through binary operations only.
   */
  predicate DependsOnAsWritten(reactions: seq<Reaction>, fired: nat, check: nat)
    requires fired < |reactions| && check < |reactions|
  {
    BinaryReachableNames(reactions[check].rateEquation) * ModifiedSpecies(reactions[fired]) != {}
  }

  /** The table the source builds: every reaction's entry holds exactly its as-written dependents. */
  predicate AsWrittenDependencyTable(reactions: seq<Reaction>, deps: map<nat, set<nat>>) {
    (forall f :: f in deps ==> f < |reactions|) &&
    (forall f :: 0 <= f < |reactions| ==> f in deps) &&
    (forall f, c :: f in deps && c in deps[f] ==> c < |reactions| && DependsOnAsWritten(reactions, f, c)) &&
    (forall f, c :: 0 <= f < |reactions| && 0 <= c < |reactions| && DependsOnAsWritten(reactions, f, c) ==> c in deps[f])
  }

  /**
   * Every dependency the source records is a real one, and when no rate
   * equation has a species below Round or Ln the source records them all.
   */
  lemma AsWrittenDependsOn(reactions: seq<Reaction>, fired: nat, check: nat)
    requires fired < |reactions| && check < |reactions|
    ensures DependsOnAsWritten(reactions, fired, check) ==> DependsOn(reactions, fired, check)
    ensures NoSpeciesUnderUnary(reactions[check].rateEquation) ==>
      (DependsOnAsWritten(reactions, fired, check) <==> DependsOn(reactions, fired, check))
  {
    var e := reactions[check].rateEquation;
    var mod := ModifiedSpecies(reactions[fired]);
    BinaryReachableInRateSpecies(e);
    if DependsOnAsWritten(reactions, fired, check) {
      var n :| n in BinaryReachableNames(e) * mod;
      assert n in RateSpeciesNames(e) * mod;
    }
    if NoSpeciesUnderUnary(e) {
      BinaryWalkComplete(e);
      assert BinaryReachableNames(e) == RateSpeciesNames(e);
    }
  }

  /**
   * For a model with no species below Round or Ln, the source's table is
   * the table every recomputation contract here is proved against.
   */
  lemma AsWrittenTableComplete(reactions: seq<Reaction>, deps: map<nat, set<nat>>)
    requires AsWrittenDependencyTable(reactions, deps)
    requires forall k :: 0 <= k < |reactions| ==> NoSpeciesUnderUnary(reactions[k].rateEquation)
    ensures DependencyTable(reactions, deps)
  {
    forall f, c | 0 <= f < |reactions| && 0 <= c < |reactions|
      ensures DependsOnAsWritten(reactions, f, c) <==> DependsOn(reactions, f, c)
    {
      AsWrittenDependsOn(reactions, f, c);
    }
  }

  /**
   * The source's table misses a dependency: after a reaction consuming a
   * fires, the reaction producing a at rate round(a) is not listed, yet
   * its rate changes with the count of a alone.
   */
  lemma AsWrittenDependencyMissed(a: LocatedSpecies, ln: real -> real)
    ensures var consume := Reaction([StoichiometrySpecies(1, a)], [], Number(1.0), RateEquationOf([StoichiometrySpecies(1, a)], Number(1.0)),
                                    0.0, a.membraneName, false, None, None);
      var rounded := Unary(Round, LeafOf(a));
      var produce := Reaction([], [StoichiometrySpecies(1, a)], rounded, RateEquationOf([], rounded),
                              0.0, a.membraneName, false, None, None);
      var reactions := [consume, produce];
      var before := (ls: LocatedSpecies) => 0;
      var after := (ls: LocatedSpecies) => if ls.speciesName == a.speciesName then 1 else 0;
      DependsOn(reactions, 0, 1) && !DependsOnAsWritten(reactions, 0, 1) &&
      (forall ls: LocatedSpecies :: ls.speciesName !in ModifiedSpecies(reactions[0]) ==> before(ls) == after(ls)) &&
      Eval(reactions[1].rateEquation, before, ln) != Eval(reactions[1].rateEquation, after, ln)
  {
    var s := [StoichiometrySpecies(1, a)];
    assert RateEquationOf(s, Number(1.0)) == Binary(Multiply, StoichiometryLeafOf(s[0]), Number(1.0)) by {
      assert s[..0] == [];
    }
    assert (s + [])[0].stoichiometry != 0;
    assert a.speciesName in ModifiedSpecies(Reaction(s, [], Number(1.0), RateEquationOf(s, Number(1.0)), 0.0, a.membraneName, false, None, None));
    var rounded := Unary(Round, LeafOf(a));
    assert RateSpecies(rounded) == {a};
    assert a.speciesName in RateSpeciesNames(rounded);
    assert a.speciesName in RateSpeciesNames(rounded) * ModifiedSpecies(Reaction(s, [], Number(1.0), RateEquationOf(s, Number(1.0)), 0.0, a.membraneName, false, None, None));
    assert RoundHalfUp(0.0) == 0 && RoundHalfUp(1.0) == 1;
  }

  lemma DisjointNotIn<T>(x: T, a: set<T>, b: set<T>)
    requires a * b == {} && x in a
    ensures x !in b
  {
    assert x in b ==> x in a * b;
  }

  /** Some leaf of e has a species name in `names`: a stack worklist that stops at the first such leaf. */
  method UsesAnyOf(e: Expr, names: set<string>) returns (b: bool)
    ensures b <==> RateSpeciesNames(e) * names != {}
  {
    var stack := [e];
    assert stack == [] + [e];
    while stack != []
      invariant RateSpeciesOfAll(stack) <= RateSpecies(e)
      invariant forall ls :: ls in RateSpecies(e) && ls.speciesName in names ==> ls in RateSpeciesOfAll(stack)
      decreases SizeSum(stack)
    {
      var x := stack[|stack| - 1];
      var rest := stack[..|stack| - 1];
      assert stack == rest + [x];
      StackPush(rest, [x]);
      assert SizeSum([x]) == Size(x) && RateSpeciesOfAll([x]) == RateSpecies(x) by {
        assert [x][..0] == [];
      }
      stack := rest;
      match x {
        case SpeciesLeaf(ls, _) =>
          if ls.speciesName in names {
            assert ls.speciesName in RateSpeciesNames(e) * names;
            return true;
          }
        case Binary(_, l, r) =>
          StackPush(rest, [l, r]);
          assert [l, r][..1] == [l] && [l][..0] == [];
          stack := stack + [l, r];
        case Unary(_, y) =>
          StackPush(rest, [y]);
          assert [y][..0] == [];
          stack := stack + [y];
        case _ =>
      }
    }
    return false;
  }

  /** `calculateReactionDependencies`: for every fired reaction, every reaction checked against it. */
  method CalculateReactionDependencies(reactions: seq<Reaction>) returns (deps: map<nat, set<nat>>)
    ensures DependencyTable(reactions, deps)
  {
    deps := map[];
    var f: nat := 0;
    while f < |reactions|
      invariant f <= |reactions|
      invariant forall i: nat :: i in deps <==> i < f
      invariant forall i, c :: i in deps && c in deps[i] ==> c < |reactions| && DependsOn(reactions, i, c)
      invariant forall i: nat, c: nat :: i < f && c < |reactions| && DependsOn(reactions, i, c) ==> c in deps[i]
    {
      var modified := ModifiedSpecies(reactions[f]);
      var recalc: set<nat> := {};
      var c: nat := 0;
      while c < |reactions|
        invariant c <= |reactions|
        invariant forall k :: k in recalc ==> k < c && DependsOn(reactions, f, k)
        invariant forall k: nat :: k < c && DependsOn(reactions, f, k) ==> k in recalc
      {
        var uses := UsesAnyOf(reactions[c].rateEquation, modified);
        if uses {
          recalc := recalc + {c};
        }
        c := c + 1;
      }
      deps := deps[f := recalc];
      f := f + 1;
    }
  }

  /** The constructor computes the dependency table once. */
  method NewMembraneModel(membraneNames: set<string>, speciesNames: set<string>,
                          initialSpecies: seq<(LocatedSpecies, nat)>, parameterValues: map<string, real>,
                          reactions: seq<Reaction>, speciesToTags: map<string, set<string>>,
                          tagsToSpecies: map<string, set<string>>) returns (m: MembraneModel)
    ensures m.Valid()
    ensures m.membraneNames == membraneNames && m.speciesNames == speciesNames
    ensures m.initialSpecies == initialSpecies && m.parameterValues == parameterValues
    ensures m.reactions == reactions && m.speciesToTags == speciesToTags && m.tagsToSpecies == tagsToSpecies
  {
    var deps := CalculateReactionDependencies(reactions);
    m := MembraneModel(membraneNames, speciesNames, initialSpecies, parameterValues, reactions, speciesToTags, tagsToSpecies, deps);
  }

  /** `getReactionsForSpeciesTag`: the reactions involving a species carrying the tag. */
  method ReactionsForSpeciesTag(m: MembraneModel, tag: string) returns (r: set<nat>)
    ensures forall i: nat :: i in r <==> i < |m.reactions| && InvolvedSpecies(m.reactions[i]) * m.SpeciesForTag(tag) != {}
  {
    var names := m.SpeciesForTag(tag);
    r := {};
    var i: nat := 0;
    while i < |m.reactions|
      invariant i <= |m.reactions|
      invariant forall k: nat :: k in r <==> k < i && InvolvedSpecies(m.reactions[k]) * names != {}
    {
      if InvolvedSpecies(m.reactions[i]) * names != {} {
        r := r + {i};
      }
      i := i + 1;
    }
  }
}
