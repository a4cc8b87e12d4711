/**
 * The step-by-step reaction builder of the parser (parsing/ReactionBuilder.java).
 * Its two species collections are insertion-ordered sets keyed on the
 * located species, so a second entry that differs only in stoichiometry is
 * dropped.
 */
module ReactionBuilding {
  import opened Wrappers
  import opened Species
  import opened Equations
  import opened Reactions

  /** No two entries share a located species. */
  predicate DistinctSpecies(s: seq<StoichiometrySpecies>) {
    forall i, j :: 0 <= i < j < |s| ==> !SameSpecies(s[i], s[j])
  }

  predicate HasSpecies(s: seq<StoichiometrySpecies>, x: StoichiometrySpecies) {
    exists i :: 0 <= i < |s| && SameSpecies(s[i], x)
  }

  /** `LinkedHashSet.add`: appends x unless an equal element is already present. */
  function SetAdd(s: seq<StoichiometrySpecies>, x: StoichiometrySpecies): (r: seq<StoichiometrySpecies>)
    ensures s <= r && |r| <= |s| + 1
  {
    if HasSpecies(s, x) then s else s + [x]
  }

  /** Adding keeps the set property, and the new set holds exactly the old elements and x. */
  lemma SetAddProperties(s: seq<StoichiometrySpecies>, x: StoichiometrySpecies)
    requires DistinctSpecies(s)
    ensures DistinctSpecies(SetAdd(s, x))
    ensures forall y :: HasSpecies(SetAdd(s, x), y) <==> HasSpecies(s, y) || SameSpecies(x, y)
    ensures HasSpecies(s, x) <==> SetAdd(s, x) == s
  {
    var r := SetAdd(s, x);
    forall y
      ensures HasSpecies(r, y) <==> HasSpecies(s, y) || SameSpecies(x, y)
    {
      if !HasSpecies(s, x) {
        if SameSpecies(x, y) {
          assert r[|s|] == x;
        }
        if HasSpecies(r, y) && !HasSpecies(s, y) {
          var i :| 0 <= i < |r| && SameSpecies(r[i], y);
          assert i == |s|;
        }
      } else {
        if SameSpecies(x, y) {
          var i :| 0 <= i < |s| && SameSpecies(s[i], x);
          assert SameSpecies(s[i], y);
        }
      }
    }
    if !HasSpecies(s, x) {
      assert |r| == |s| + 1;
    }
  }

  /** A second entry that differs from the first only in stoichiometry is dropped. */
  lemma SetAddKeepsFirst(s: seq<StoichiometrySpecies>, a: StoichiometrySpecies, b: StoichiometrySpecies)
    requires SameSpecies(a, b) && a.stoichiometry != b.stoichiometry
    ensures SetAdd(SetAdd(s, a), b) == SetAdd(s, a)
    ensures !HasSpecies(s, a) ==> SetAdd(SetAdd(s, a), b)[|s|] == a
  {
    var r := SetAdd(s, a);
    if !HasSpecies(s, a) {
      assert r[|s|] == a;
    } else {
      var i :| 0 <= i < |s| && SameSpecies(s[i], a);
      assert r[i] == s[i];
    }
    assert HasSpecies(r, b);
  }

  class ReactionBuilder {
    var consumed: seq<StoichiometrySpecies>
    var produced: seq<StoichiometrySpecies>
    var rateModifier: Option<Expr>
    var simplifiedRateModifier: Option<Expr>
    var delayHours: real
    var mdslLine: Option<string>
    var mdslLineNumber: Option<int>
    /** Whether species currently go to the left-hand side. */
    var onLeftHandSide: bool

    predicate Valid()
      reads this
    {
      DistinctSpecies(consumed) && DistinctSpecies(produced)
    }

    /** A new builder is on the left-hand side, with no species and no delay. */
    constructor ()
      ensures Valid()
      ensures consumed == [] && produced == [] && onLeftHandSide
      ensures rateModifier == None && simplifiedRateModifier == None && delayHours == 0.0
      ensures mdslLine == None && mdslLineNumber == None
    {
      consumed, produced := [], [];
      rateModifier, simplifiedRateModifier := None, None;
      delayHours := 0.0;
      mdslLine, mdslLineNumber := None, None;
      onLeftHandSide := true;
    }

    method AddConsumedSpecies(x: StoichiometrySpecies)
      requires Valid()
      modifies this
      ensures Valid()
      ensures consumed == SetAdd(old(consumed), x)
      ensures produced == old(produced) && onLeftHandSide == old(onLeftHandSide)
      ensures rateModifier == old(rateModifier) && simplifiedRateModifier == old(simplifiedRateModifier)
      ensures delayHours == old(delayHours) && mdslLine == old(mdslLine) && mdslLineNumber == old(mdslLineNumber)
    {
      SetAddProperties(consumed, x);
      consumed := SetAdd(consumed, x);
    }

    method AddProducedSpecies(x: StoichiometrySpecies)
      requires Valid()
      modifies this
      ensures Valid()
      ensures produced == SetAdd(old(produced), x)
      ensures consumed == old(consumed) && onLeftHandSide == old(onLeftHandSide)
      ensures rateModifier == old(rateModifier) && simplifiedRateModifier == old(simplifiedRateModifier)
      ensures delayHours == old(delayHours) && mdslLine == old(mdslLine) && mdslLineNumber == old(mdslLineNumber)
    {
      SetAddProperties(produced, x);
      produced := SetAdd(produced, x);
    }

    /** Adds to the consumed species before the switch and to the produced species after it. */
    method AddSpecies(x: StoichiometrySpecies)
      requires Valid()
      modifies this
      ensures Valid()
      ensures old(onLeftHandSide) ==> consumed == SetAdd(old(consumed), x) && produced == old(produced)
      ensures !old(onLeftHandSide) ==> produced == SetAdd(old(produced), x) && consumed == old(consumed)
      ensures onLeftHandSide == old(onLeftHandSide)
      ensures rateModifier == old(rateModifier) && simplifiedRateModifier == old(simplifiedRateModifier)
      ensures delayHours == old(delayHours) && mdslLine == old(mdslLine) && mdslLineNumber == old(mdslLineNumber)
    {
      if onLeftHandSide {
        AddConsumedSpecies(x);
      } else {
        AddProducedSpecies(x);
      }
    }

    /** One-way: nothing sets the flag back. */
    method SwitchToRightHandSide()
      requires Valid()
      modifies this
      ensures Valid() && !onLeftHandSide
      ensures consumed == old(consumed) && produced == old(produced)
      ensures rateModifier == old(rateModifier) && simplifiedRateModifier == old(simplifiedRateModifier)
      ensures delayHours == old(delayHours) && mdslLine == old(mdslLine) && mdslLineNumber == old(mdslLineNumber)
    {
      onLeftHandSide := false;
    }

    method SetRateModifier(modifier: Expr, simplified: Expr)
      requires Valid()
      modifies this
      ensures Valid()
      ensures rateModifier == Some(modifier) && simplifiedRateModifier == Some(simplified)
      ensures consumed == old(consumed) && produced == old(produced) && onLeftHandSide == old(onLeftHandSide)
      ensures delayHours == old(delayHours) && mdslLine == old(mdslLine) && mdslLineNumber == old(mdslLineNumber)
    {
      rateModifier, simplifiedRateModifier := Some(modifier), Some(simplified);
    }

    method SetDelayHours(hours: real)
      requires Valid()
      modifies this
      ensures Valid() && delayHours == hours
      ensures consumed == old(consumed) && produced == old(produced) && onLeftHandSide == old(onLeftHandSide)
      ensures rateModifier == old(rateModifier) && simplifiedRateModifier == old(simplifiedRateModifier)
      ensures mdslLine == old(mdslLine) && mdslLineNumber == old(mdslLineNumber)
    {
      delayHours := hours;
    }

    method SetMdslLine(line: string, lineNumber: int)
      requires Valid()
      modifies this
      ensures Valid() && mdslLine == Some(line) && mdslLineNumber == Some(lineNumber)
      ensures consumed == old(consumed) && produced == old(produced) && onLeftHandSide == old(onLeftHandSide)
      ensures rateModifier == old(rateModifier) && simplifiedRateModifier == old(simplifiedRateModifier)
      ensures delayHours == old(delayHours)
    {
      mdslLine, mdslLineNumber := Some(line), Some(lineNumber);
    }

    /**
     * Passes every field to the reaction and propagates its membrane-type
     * error. A builder that was never given a rate modifier is an error here.
     */
    method Create() returns (r: Result<Reaction>)
      requires Valid()
      ensures simplifiedRateModifier.None? || rateModifier.None? ==> r.Failure?
      ensures simplifiedRateModifier.Some? && rateModifier.Some? ==>
        (r.Success? <==> consumed + produced != [] && Consistent(consumed + produced))
      ensures r.Success? ==>
        var x := r.value;
        x.consumed == consumed && x.produced == produced && Some(x.rateModifier) == rateModifier &&
        x.rateEquation == RateEquationOf(consumed, simplifiedRateModifier.value) &&
        x.delayHours == delayHours && AnchorType(consumed + produced, x.membraneType) &&
        x.mdslLine == mdslLine && x.mdslLineNumber == mdslLineNumber
    {
      if rateModifier.None? || simplifiedRateModifier.None? {
        return Failure(InvalidReaction(NoRateModifier));
      }
      r := NewReaction(consumed, produced, rateModifier.value, simplifiedRateModifier.value, delayHours, mdslLine, mdslLineNumber);
    }
  }

  const NoRateModifier: string := "No rate modifier"

  /** Species added in order on each side end up, without repeats, on that side. */
  lemma {:induction false} AddAllKeepsAll(s: seq<StoichiometrySpecies>, xs: seq<StoichiometrySpecies>)
    requires DistinctSpecies(s)
    ensures DistinctSpecies(AddAll(s, xs))
    ensures forall y :: HasSpecies(AddAll(s, xs), y) <==> HasSpecies(s, y) || HasSpecies(xs, y)
    decreases |xs|
  {
    if xs != [] {
      var n := |xs| - 1;
      AddAllKeepsAll(s, xs[..n]);
      SetAddProperties(AddAll(s, xs[..n]), xs[n]);
      forall y
        ensures HasSpecies(xs, y) <==> HasSpecies(xs[..n], y) || SameSpecies(xs[n], y)
      {
        if HasSpecies(xs, y) && !SameSpecies(xs[n], y) {
          var i :| 0 <= i < |xs| && SameSpecies(xs[i], y);
          assert i < n && xs[..n][i] == xs[i];
        }
        if HasSpecies(xs[..n], y) {
          var i :| 0 <= i < n && SameSpecies(xs[..n][i], y);
          assert xs[i] == xs[..n][i];
        }
      }
    }
  }

  /** The set built by adding xs one after another. */
  function AddAll(s: seq<StoichiometrySpecies>, xs: seq<StoichiometrySpecies>): seq<StoichiometrySpecies>
    decreases |xs|
  {
    if xs == [] then s else SetAdd(AddAll(s, xs[..|xs| - 1]), xs[|xs| - 1])
  }
}
