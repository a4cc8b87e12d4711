/**
 * Reactions (model/Reaction.java): consumed and produced species, the rate
 * equation built from the simplified modifier, the anchor membrane type and
 * the species a reaction modifies or depends on.
 */
module Reactions {
  import opened Wrappers
  import opened Species
  import opened Equations

  const OnUnderConflict: string := "Multiple 'on' or 'under' locations for different membranes."
  const ContainedAroundConflict: string := "Multiple 'contained' or 'around' locations for different membranes."
  const NoLeftHandSide: string := "No left hand side of reaction"

  /** `InvalidReactionException` prefixes its message. */
  function InvalidReaction(message: string): string { "Invalid reaction: " + message }

  /**
   * A reaction. The species sets are insertion-ordered and hold no two
   * entries with equal located species. `mdslLine` and `mdslLineNumber` are None when the
   * builder was never given a line.
   */
  datatype Reaction = Reaction(
    consumed: seq<StoichiometrySpecies>,
    produced: seq<StoichiometrySpecies>,
    rateModifier: Expr,
    rateEquation: Expr,
    delayHours: real,
    membraneType: string,
    aroundReaction: bool,
    mdslLine: Option<string>,
    mdslLineNumber: Option<int>)

  predicate IsOnUnder(l: Location) { l == On || l == Under }

  /** Species j has the same on/under-ness as an earlier species of a different membrane type. */
  predicate ConflictAt(s: seq<StoichiometrySpecies>, j: int) {
    0 <= j < |s| &&
    exists i :: 0 <= i < j && IsOnUnder(s[i].species.location) == IsOnUnder(s[j].species.location)
      && s[i].species.membraneName != s[j].species.membraneName
  }

  predicate Consistent(s: seq<StoichiometrySpecies>) {
    forall j :: 0 <= j < |s| ==> !ConflictAt(s, j)
  }

  /** The error for the first conflicting species, by its location. */
  function ConflictMessage(l: Location): string {
    if IsOnUnder(l) then OnUnderConflict else ContainedAroundConflict
  }

  /**
   * t is the anchor type of the species s: every on/under species has type
   * t, and if there is none, every contained/around species has type t.
   */
  predicate AnchorType(s: seq<StoichiometrySpecies>, t: string) {
    (exists i :: 0 <= i < |s| && s[i].species.membraneName == t) &&
    (forall i :: 0 <= i < |s| && IsOnUnder(s[i].species.location) ==> s[i].species.membraneName == t) &&
    ((forall i :: 0 <= i < |s| ==> !IsOnUnder(s[i].species.location)) ==>
      forall i :: 0 <= i < |s| ==> s[i].species.membraneName == t)
  }

  predicate AllAround(s: seq<StoichiometrySpecies>) {
    forall i :: 0 <= i < |s| ==> s[i].species.location == Around
  }

  /**
   * `computeMembraneType` over consumed ++ produced: the on/under type if
   * any, otherwise the contained/around type; an error at the first species
   * whose type differs from an earlier one of the same kind, or when there
   * is no species at all. `around` tells whether every species is at
   * `around`.
   */
  method ComputeMembraneType(s: seq<StoichiometrySpecies>) returns (r: Result<string>, around: bool)
    ensures r.Success? <==> s != [] && Consistent(s)
    ensures r.Success? ==> AnchorType(s, r.value) && (around <==> AllAround(s))
    ensures s == [] ==> r == Failure(InvalidReaction(NoLeftHandSide))
    ensures s != [] && r.Failure? ==>
      exists j :: ConflictAt(s, j) && (forall k :: 0 <= k < j ==> !ConflictAt(s, k))
        && r.error == InvalidReaction(ConflictMessage(s[j].species.location))
  {
    around := true;
    var typeX: Option<string> := None;
    var typeY: Option<string> := None;
    var k := 0;
    while k < |s|
      invariant 0 <= k <= |s|
      invariant forall j :: 0 <= j < k ==> !ConflictAt(s, j)
      invariant typeX.None? <==> forall i :: 0 <= i < k ==> !IsOnUnder(s[i].species.location)
      invariant typeX.Some? ==> forall i :: 0 <= i < k && IsOnUnder(s[i].species.location) ==> s[i].species.membraneName == typeX.value
      invariant typeY.None? <==> forall i :: 0 <= i < k ==> IsOnUnder(s[i].species.location)
      invariant typeY.Some? ==> forall i :: 0 <= i < k && !IsOnUnder(s[i].species.location) ==> s[i].species.membraneName == typeY.value
      invariant around <==> forall i :: 0 <= i < k ==> s[i].species.location == Around
    {
      var t := s[k].species.membraneName;
      var loc := s[k].species.location;
      if loc == On || loc == Under {
        around := false;
        if typeX.None? || typeX.value == t {
          typeX := Some(t);
        } else {
          var i :| 0 <= i < k && IsOnUnder(s[i].species.location);
          assert ConflictAt(s, k);
          return Failure(InvalidReaction(OnUnderConflict)), around;
        }
      } else {
        if loc == Contained {
          around := false;
        }
        if typeY.None? || typeY.value == t {
          typeY := Some(t);
        } else {
          var i :| 0 <= i < k && !IsOnUnder(s[i].species.location);
          assert ConflictAt(s, k);
          return Failure(InvalidReaction(ContainedAroundConflict)), around;
        }
      }
      k := k + 1;
    }
    assert s != [] ==> IsOnUnder(s[0].species.location) || !IsOnUnder(s[0].species.location);
    if typeX.Some? {
      r := Success(typeX.value);
    } else if typeY.Some? {
      r := Success(typeY.value);
    } else {
      r := Failure(InvalidReaction(NoLeftHandSide));
    }
  }

  /** The rate equation: the modifier wrapped in one Multiply per consumed species, leaf on the left. */
  function RateEquationOf(consumed: seq<StoichiometrySpecies>, modifier: Expr): Expr
    decreases |consumed|
  {
    if consumed == [] then modifier
    else Binary(Multiply, StoichiometryLeafOf(consumed[|consumed| - 1]), RateEquationOf(consumed[..|consumed| - 1], modifier))
  }

  /** Every consumed species is a leaf of the rate equation, so the rate reads its count. */
  predicate ConsumedInRate(r: Reaction) {
    forall k :: 0 <= k < |r.consumed| ==> r.consumed[k].species in RateSpecies(r.rateEquation)
  }

  /** The rate equation built from the consumed species has a leaf for each of them. */
  lemma {:induction false} ConsumedInRateEquation(consumed: seq<StoichiometrySpecies>, modifier: Expr)
    ensures forall k :: 0 <= k < |consumed| ==> consumed[k].species in RateSpecies(RateEquationOf(consumed, modifier))
    decreases |consumed|
  {
    if consumed != [] {
      var n := |consumed| - 1;
      ConsumedInRateEquation(consumed[..n], modifier);
      forall k | 0 <= k < |consumed|
        ensures consumed[k].species in RateSpecies(RateEquationOf(consumed, modifier))
      {
        if k < n {
          assert consumed[..n][k] == consumed[k];
        }
      }
    }
  }

  /** `writeRateEquation`. */
  method WriteRateEquation(consumed: seq<StoichiometrySpecies>, simplifiedModifier: Expr) returns (e: Expr)
    ensures e == RateEquationOf(consumed, simplifiedModifier)
  {
    e := simplifiedModifier;
    var i := 0;
    while i < |consumed|
      invariant 0 <= i <= |consumed|
      invariant e == RateEquationOf(consumed[..i], simplifiedModifier)
    {
      assert consumed[..i + 1][..i] == consumed[..i];
      e := Binary(Multiply, StoichiometryLeafOf(consumed[i]), e);
      i := i + 1;
    }
    assert consumed[..i] == consumed;
  }

  /** The mass-action term of one consumed species. */
  function Term(ss: StoichiometrySpecies, count: LocatedSpecies -> nat): Result<real> {
    MassAction(count(ss.species), ss.stoichiometry)
  }

  /** Every consumed species' mass-action term can be computed. */
  predicate MassActionDefined(consumed: seq<StoichiometrySpecies>, count: LocatedSpecies -> nat) {
    forall i :: 0 <= i < |consumed| ==> Term(consumed[i], count).Success?
  }

  /**
   * The consumed species' mass-action terms multiplied onto `v`, the last
   * species outermost (a failed term counts as 0).
   */
  function ScaledProduct(consumed: seq<StoichiometrySpecies>, count: LocatedSpecies -> nat, v: real): real
    decreases |consumed|
  {
    if consumed == [] then v
    else
      var t := Term(consumed[|consumed| - 1], count);
      (if t.Success? then t.value else 0.0) * ScaledProduct(consumed[..|consumed| - 1], count, v)
  }

  /** A product succeeds exactly when both factors do, with the product of their values. */
  lemma EvalMultiply(l: Expr, r: Expr, count: LocatedSpecies -> nat, ln: real -> real)
    ensures Eval(Binary(Multiply, l, r), count, ln).Success? <==> Eval(l, count, ln).Success? && Eval(r, count, ln).Success?
    ensures Eval(l, count, ln).Success? && Eval(r, count, ln).Success? ==>
      Eval(Binary(Multiply, l, r), count, ln).value == Eval(l, count, ln).value * Eval(r, count, ln).value
  {
  }

  /** The rate is the product of the mass-action terms times the modifier, and fails exactly when one of them fails. */
  lemma RateEquationValue(consumed: seq<StoichiometrySpecies>, modifier: Expr, count: LocatedSpecies -> nat, ln: real -> real)
    requires Eval(modifier, count, ln).Success?
    ensures Eval(RateEquationOf(consumed, modifier), count, ln).Success? <==> MassActionDefined(consumed, count)
    ensures MassActionDefined(consumed, count) ==>
      Eval(RateEquationOf(consumed, modifier), count, ln).value == ScaledProduct(consumed, count, Eval(modifier, count, ln).value)
  {
    RateEquationSucceeds(consumed, modifier, count, ln);
    if MassActionDefined(consumed, count) {
      RateEquationScaled(consumed, modifier, count, ln);
    }
  }

  lemma {:induction false} RateEquationSucceeds(consumed: seq<StoichiometrySpecies>, modifier: Expr, count: LocatedSpecies -> nat, ln: real -> real)
    requires Eval(modifier, count, ln).Success?
    ensures Eval(RateEquationOf(consumed, modifier), count, ln).Success? <==> MassActionDefined(consumed, count)
    decreases |consumed|
  {
    if consumed != [] {
      var n := |consumed| - 1;
      var leaf, restEq := StoichiometryLeafOf(consumed[n]), RateEquationOf(consumed[..n], modifier);
      assert RateEquationOf(consumed, modifier) == Binary(Multiply, leaf, restEq);
      assert Eval(leaf, count, ln) == Term(consumed[n], count);
      RateEquationSucceeds(consumed[..n], modifier, count, ln);
      MassActionDefinedSplit(consumed, count);
      EvalMultiply(leaf, restEq, count, ln);
    }
  }

  lemma {:induction false} RateEquationScaled(consumed: seq<StoichiometrySpecies>, modifier: Expr, count: LocatedSpecies -> nat, ln: real -> real)
    requires Eval(modifier, count, ln).Success? && MassActionDefined(consumed, count)
    ensures Eval(RateEquationOf(consumed, modifier), count, ln).Success?
    ensures Eval(RateEquationOf(consumed, modifier), count, ln).value == ScaledProduct(consumed, count, Eval(modifier, count, ln).value)
    decreases |consumed|
  {
    if consumed != [] {
      var n := |consumed| - 1;
      MassActionDefinedSplit(consumed, count);
      RateEquationScaled(consumed[..n], modifier, count, ln);
      RateEquationSnoc(consumed, modifier);
      LeafProduct(consumed[n], RateEquationOf(consumed[..n], modifier), count, ln);
    }
  }

  /** One more consumed species puts its leaf in front of the rate equation. */
  lemma RateEquationSnoc(consumed: seq<StoichiometrySpecies>, modifier: Expr)
    requires consumed != []
    ensures RateEquationOf(consumed, modifier)
      == Binary(Multiply, StoichiometryLeafOf(consumed[|consumed| - 1]), RateEquationOf(consumed[..|consumed| - 1], modifier))
  {
  }

  /** A leaf times any expression evaluates to the leaf's mass-action term times the expression's value. */
  lemma LeafProduct(ss: StoichiometrySpecies, rest: Expr, count: LocatedSpecies -> nat, ln: real -> real)
    requires Term(ss, count).Success? && Eval(rest, count, ln).Success?
    ensures Eval(Binary(Multiply, StoichiometryLeafOf(ss), rest), count, ln).Success?
    ensures Eval(Binary(Multiply, StoichiometryLeafOf(ss), rest), count, ln).value == Term(ss, count).value * Eval(rest, count, ln).value
  {
    assert Eval(StoichiometryLeafOf(ss), count, ln) == Term(ss, count);
    EvalMultiply(StoichiometryLeafOf(ss), rest, count, ln);
  }

  lemma MassActionDefinedSplit(consumed: seq<StoichiometrySpecies>, count: LocatedSpecies -> nat)
    requires consumed != []
    ensures MassActionDefined(consumed, count) <==>
      MassActionDefined(consumed[..|consumed| - 1], count) && Term(consumed[|consumed| - 1], count).Success?
  {
    var n := |consumed| - 1;
    assert forall i :: 0 <= i < n ==> consumed[..n][i] == consumed[i];
  }

  /** The mass-action terms of the pools a = 11 and b = 13 used by the rate examples below. */
  lemma PoolTerms(a: LocatedSpecies, b: LocatedSpecies, count: LocatedSpecies -> nat)
    requires count(a) == 11 && count(b) == 13
    ensures Term(StoichiometrySpecies(2, a), count) == Success(55.0)
    ensures Term(StoichiometrySpecies(3, b), count) == Success(286.0)
    ensures Term(StoichiometrySpecies(5, a), count) == Success(462.0)
    ensures Term(StoichiometrySpecies(7, b), count) == Success(1716.0)
  {
    assert Term(StoichiometrySpecies(2, a), count) == Success(55.0) by {
      MassActionIsBinomial(count(a), 2); ChooseValues();
    }
    assert Term(StoichiometrySpecies(3, b), count) == Success(286.0) by {
      MassActionIsBinomial(count(b), 3); ChooseValues();
    }
    assert Term(StoichiometrySpecies(5, a), count) == Success(462.0) by {
      MassActionIsBinomial(count(a), 5); ChooseValues();
    }
    assert Term(StoichiometrySpecies(7, b), count) == Success(1716.0) by {
      MassActionIsBinomial(count(b), 7); ChooseValues();
    }
  }

  /** Rate of a reaction with one consumed species. */
  lemma SingleRate(t: StoichiometrySpecies, modifier: Expr, count: LocatedSpecies -> nat, ln: real -> real)
    requires Term(t, count).Success? && Eval(modifier, count, ln).Success?
    ensures Eval(RateEquationOf([t], modifier), count, ln) == Success(Term(t, count).value * Eval(modifier, count, ln).value)
  {
    assert [t][..0] == [];
    assert Eval(StoichiometryLeafOf(t), count, ln) == Term(t, count);
    EvalMultiply(StoichiometryLeafOf(t), modifier, count, ln);
  }

  /** Initial rates for the pools a = 11 and b = 13: 2 a gives C(11,2) and 3 b gives C(13,3). */
  lemma SingleSpeciesRates(a: LocatedSpecies, b: LocatedSpecies, count: LocatedSpecies -> nat, ln: real -> real)
    requires count(a) == 11 && count(b) == 13
    ensures Eval(RateEquationOf([StoichiometrySpecies(2, a)], Number(1.0)), count, ln) == Success(55.0)
    ensures Eval(RateEquationOf([StoichiometrySpecies(3, b)], Number(1.0)), count, ln) == Success(286.0)
  {
    PoolTerms(a, b, count);
    SingleRate(StoichiometrySpecies(2, a), Number(1.0), count, ln);
    SingleRate(StoichiometrySpecies(3, b), Number(1.0), count, ln);
  }

  /** 5 a + 7 b gives C(11,5)·C(13,7) for the same pools. */
  lemma TwoSpeciesRate(a: LocatedSpecies, b: LocatedSpecies, count: LocatedSpecies -> nat, ln: real -> real)
    requires count(a) == 11 && count(b) == 13
    ensures Eval(RateEquationOf([StoichiometrySpecies(5, a), StoichiometrySpecies(7, b)], Number(1.0)), count, ln)
      == Success(1716.0 * 462.0)
  {
    var ta, tb := StoichiometrySpecies(5, a), StoichiometrySpecies(7, b);
    var rest := RateEquationOf([ta], Number(1.0));
    assert RateEquationOf([ta, tb], Number(1.0)) == Binary(Multiply, StoichiometryLeafOf(tb), rest) by {
      assert [ta, tb][..1] == [ta];
    }
    assert Eval(rest, count, ln) == Success(462.0) by {
      PoolTerms(a, b, count);
      SingleRate(ta, Number(1.0), count, ln);
    }
    assert Eval(StoichiometryLeafOf(tb), count, ln) == Success(1716.0) by {
      PoolTerms(a, b, count);
    }
    EvalMultiply(StoichiometryLeafOf(tb), rest, count, ln);
  }

  /** The species that can be modified: consumed ++ produced with stoichiometry not 0 (`getModifiedSpecies`). */
  function ModifiedSpecies(r: Reaction): set<string> {
    var s := r.consumed + r.produced;
    set i | 0 <= i < |s| && s[i].stoichiometry != 0 :: s[i].species.speciesName
  }

  /** `getInvolvedSpecies`: the names of consumed ++ produced. */
  function InvolvedSpecies(r: Reaction): set<string> {
    var s := r.consumed + r.produced;
    set i | 0 <= i < |s| :: s[i].species.speciesName
  }

  lemma ModifiedAreInvolved(r: Reaction)
    ensures ModifiedSpecies(r) <= InvolvedSpecies(r)
  {
  }

  /**
   * The leaves the source's worklist collects: it descends through binary
   * operations only, so leaves under Round and Ln are missed.
   */
  function BinaryReachableSpecies(e: Expr): set<LocatedSpecies> {
    match e
    case SpeciesLeaf(ls, _) => {ls}
    case Binary(_, l, r) => BinaryReachableSpecies(l) + BinaryReachableSpecies(r)
    case _ => {}
  }

  /** Every species leaf of the equation: the species its value depends on. */
  function RateSpecies(e: Expr): set<LocatedSpecies> {
    match e
    case SpeciesLeaf(ls, _) => {ls}
    case Binary(_, l, r) => RateSpecies(l) + RateSpecies(r)
    case Unary(_, x) => RateSpecies(x)
    case _ => {}
  }

  predicate AgreeOn(c1: LocatedSpecies -> nat, c2: LocatedSpecies -> nat, species: set<LocatedSpecies>) {
    forall ls :: ls in species ==> c1(ls) == c2(ls)
  }

  /** The value of an equation depends only on the counts of its rate species. */
  lemma {:induction false} EvalDependsOnlyOnRateSpecies(e: Expr, c1: LocatedSpecies -> nat, c2: LocatedSpecies -> nat, ln: real -> real)
    requires AgreeOn(c1, c2, RateSpecies(e))
    ensures Eval(e, c1, ln) == Eval(e, c2, ln)
  {
    match e
    case Binary(_, l, r) =>
      EvalDependsOnlyOnRateSpecies(l, c1, c2, ln);
      EvalDependsOnlyOnRateSpecies(r, c1, c2, ln);
    case Unary(_, x) => EvalDependsOnlyOnRateSpecies(x, c1, c2, ln);
    case _ =>
  }

  /**
   * The binary-only walk misses dependencies: round(a) has no binary-reachable
   * species, yet its value changes with the count of a.
   */
  lemma UnaryLeavesMissed(a: LocatedSpecies, ln: real -> real)
    ensures var e := Unary(Round, LeafOf(a));
      BinaryReachableSpecies(e) == {} && RateSpecies(e) == {a} &&
      Eval(e, (ls: LocatedSpecies) => 0, ln) != Eval(e, (ls: LocatedSpecies) => 1, ln)
  {
    assert RoundHalfUp(0.0) == 0 && RoundHalfUp(1.0) == 1;
  }

  lemma {:induction false} BinaryReachableInRateSpecies(e: Expr)
    ensures BinaryReachableSpecies(e) <= RateSpecies(e)
  {
    match e
    case Binary(_, l, r) => BinaryReachableInRateSpecies(l); BinaryReachableInRateSpecies(r);
    case _ =>
  }

  /** No species leaf sits below a Round or an Ln. */
  predicate NoSpeciesUnderUnary(e: Expr) {
    match e
    case Binary(_, l, r) => NoSpeciesUnderUnary(l) && NoSpeciesUnderUnary(r)
    case Unary(_, x) => RateSpecies(x) == {}
    case _ => true
  }

  /**
   * Where no species sits below Round or Ln, the binary-only walk finds
   * every species leaf, so the source's walk and the complete one agree.
   */
  lemma {:induction false} BinaryWalkComplete(e: Expr)
    requires NoSpeciesUnderUnary(e)
    ensures BinaryReachableSpecies(e) == RateSpecies(e)
  {
    match e
    case Binary(_, l, r) => BinaryWalkComplete(l); BinaryWalkComplete(r);
    case _ =>
  }

  /**
   * The reactant leaves of a rate equation sit below Multiply only, so its
   * species below Round or Ln are exactly the modifier's.
   */
  lemma {:induction false} RateEquationUnderUnary(consumed: seq<StoichiometrySpecies>, modifier: Expr)
    ensures NoSpeciesUnderUnary(RateEquationOf(consumed, modifier)) <==> NoSpeciesUnderUnary(modifier)
    decreases |consumed|
  {
    if consumed != [] {
      RateEquationUnderUnary(consumed[..|consumed| - 1], modifier);
    }
  }

  function Size(e: Expr): nat {
    match e
    case Binary(_, l, r) => 1 + Size(l) + Size(r)
    case Unary(_, x) => 1 + Size(x)
    case _ => 1
  }

  function SizeSum(stack: seq<Expr>): nat {
    if stack == [] then 0 else SizeSum(stack[..|stack| - 1]) + Size(stack[|stack| - 1])
  }

  function RateSpeciesOfAll(stack: seq<Expr>): set<LocatedSpecies> {
    if stack == [] then {} else RateSpeciesOfAll(stack[..|stack| - 1]) + RateSpecies(stack[|stack| - 1])
  }

  lemma {:induction false} StackPush(stack: seq<Expr>, more: seq<Expr>)
    ensures RateSpeciesOfAll(stack + more) == RateSpeciesOfAll(stack) + RateSpeciesOfAll(more)
    ensures SizeSum(stack + more) == SizeSum(stack) + SizeSum(more)
    decreases |more|
  {
    if more == [] {
      assert stack + more == stack;
    } else {
      var n := |more| - 1;
      assert (stack + more)[..|stack + more| - 1] == stack + more[..n];
      StackPush(stack, more[..n]);
    }
  }

  /**
   * `getDependentLocatedSpecies`: a stack worklist over the rate equation
   * collecting its species leaves, with Round and Ln expanded as well.
   */
  method DependentLocatedSpecies(rateEquation: Expr) returns (found: set<LocatedSpecies>)
    ensures found == RateSpecies(rateEquation)
  {
    found := {};
    var stack := [rateEquation];
    assert stack == [] + [rateEquation];
    while stack != []
      invariant found + RateSpeciesOfAll(stack) == RateSpecies(rateEquation)
      decreases SizeSum(stack)
    {
      var e := stack[|stack| - 1];
      var rest := stack[..|stack| - 1];
      assert stack == rest + [e];
      StackPush(rest, [e]);
      assert SizeSum([e]) == Size(e) && RateSpeciesOfAll([e]) == RateSpecies(e) by {
        assert [e][..0] == [];
      }
      stack := rest;
      match e {
        case SpeciesLeaf(ls, _) =>
          found := found + {ls};
        case Binary(_, l, r) =>
          StackPush(rest, [l, r]);
          assert [l, r][..1] == [l] && [l][..0] == [];
          stack := stack + [l, r];
        case Unary(_, x) =>
          StackPush(rest, [x]);
          assert [x][..0] == [];
          stack := stack + [x];
        case _ =>
      }
    }
  }

  /** `getDelaySeconds`: the delay in seconds; positive exactly when the delay in hours is. */
  function DelaySeconds(r: Reaction): (d: real)
    ensures d > 0.0 <==> r.delayHours > 0.0
    ensures d == 0.0 <==> r.delayHours == 0.0
  {
    r.delayHours * 3600.0
  }

  /**
   * The `Reaction` constructor: computes the anchor type (which can fail)
   * and the rate equation from the simplified modifier.
   */
  method NewReaction(consumed: seq<StoichiometrySpecies>, produced: seq<StoichiometrySpecies>,
                     rateModifier: Expr, simplifiedModifier: Expr, delayHours: real,
                     mdslLine: Option<string>, mdslLineNumber: Option<int>) returns (r: Result<Reaction>)
    ensures r.Success? <==> consumed + produced != [] && Consistent(consumed + produced)
    ensures r.Success? ==>
      var x := r.value;
      x.consumed == consumed && x.produced == produced && x.rateModifier == rateModifier &&
      x.rateEquation == RateEquationOf(consumed, simplifiedModifier) && x.delayHours == delayHours &&
      AnchorType(consumed + produced, x.membraneType) &&
      (x.aroundReaction <==> AllAround(consumed + produced)) &&
      x.mdslLine == mdslLine && x.mdslLineNumber == mdslLineNumber
    ensures r.Success? ==> ConsumedInRate(r.value)
  {
    var t, around := ComputeMembraneType(consumed + produced);
    if t.Failure? {
      return Failure(t.error);
    }
    var eq := WriteRateEquation(consumed, simplifiedModifier);
    ConsumedInRateEquation(consumed, simplifiedModifier);
    r := Success(Reaction(consumed, produced, rateModifier, eq, delayHours, t.value, around, mdslLine, mdslLineNumber));
  }
}
