/**
 * Constant folding of rate equations (`SimulationFactory.simplifyEquation`,
 * `simplifyEquationToDouble`, `simplifyEquationToInteger`): parameters are
 * replaced by their values and every operation whose operands are all
 * numbers is applied.
 */
module Simplification {
  import opened Wrappers
  import opened Species
  import opened Equations
  import Text

  /**
   * `simplifyEquation`. None is the source's null. Numbers and species
   * leaves are kept, a parameter becomes its value, and a node whose
   * simplified operands are all numbers is folded by evaluating it; a
   * fold that fails (a constant division by zero) gives None.
   */
  function Simplify(e: Expr, params: map<string, real>, ln: real -> real): Option<Expr> {
    match e
    case Number(_) => Some(e)
    case SpeciesLeaf(_, _) => Some(e)
    case Parameter(name) => if name in params then Some(Number(params[name])) else None
    case Unary(op, x) =>
      var sx := Simplify(x, params, ln);
      if sx.None? then None
      else if sx.value.Number? then Some(Number(ApplyUnary(op, sx.value.value, ln)))
      else Some(Unary(op, sx.value))
    case Binary(op, l, r) =>
      var sl := Simplify(l, params, ln);
      var sr := Simplify(r, params, ln);
      if sl.None? || sr.None? then None
      else if sl.value.Number? && sr.value.Number? then
        var v := ApplyBinary(op, sl.value.value, sr.value.value);
        if v.Failure? then None else Some(Number(v.value))
      else Some(Binary(op, sl.value, sr.value))
  }

  /** The reference meaning of parameters: each defined one stands for its value. */
  function Substitute(e: Expr, params: map<string, real>): Expr {
    match e
    case Parameter(name) => if name in params then Number(params[name]) else e
    case Binary(op, l, r) => Binary(op, Substitute(l, params), Substitute(r, params))
    case Unary(op, x) => Unary(op, Substitute(x, params))
    case _ => e
  }

  predicate NoParameters(e: Expr) {
    match e
    case Parameter(_) => false
    case Binary(_, l, r) => NoParameters(l) && NoParameters(r)
    case Unary(_, x) => NoParameters(x)
    case _ => true
  }

  /** No operation is left whose operands are all numbers. */
  predicate Folded(e: Expr) {
    match e
    case Binary(_, l, r) => !(l.Number? && r.Number?) && Folded(l) && Folded(r)
    case Unary(_, x) => !x.Number? && Folded(x)
    case _ => true
  }

  /** Simplification preserves the value in every membrane. */
  lemma {:induction false} SimplifySound(e: Expr, params: map<string, real>, ln: real -> real, count: LocatedSpecies -> nat)
    requires Simplify(e, params, ln).Some?
    ensures Eval(Simplify(e, params, ln).value, count, ln) == Eval(Substitute(e, params), count, ln)
  {
    match e
    case Unary(op, x) => SimplifySound(x, params, ln, count);
    case Binary(op, l, r) =>
      SimplifySound(l, params, ln, count);
      SimplifySound(r, params, ln, count);
    case _ =>
  }

  /** When simplification gives null, evaluating the equation fails in every membrane. */
  lemma {:induction false} SimplifyNoneFails(e: Expr, params: map<string, real>, ln: real -> real, count: LocatedSpecies -> nat)
    requires Simplify(e, params, ln).None?
    ensures Eval(Substitute(e, params), count, ln).Failure?
  {
    match e
    case Unary(op, x) => SimplifyNoneFails(x, params, ln, count);
    case Binary(op, l, r) =>
      var sl := Simplify(l, params, ln);
      var sr := Simplify(r, params, ln);
      if sl.None? {
        SimplifyNoneFails(l, params, ln, count);
      } else if sr.None? {
        SimplifyNoneFails(r, params, ln, count);
      } else {
        SimplifySound(l, params, ln, count);
        SimplifySound(r, params, ln, count);
      }
    case _ =>
  }

  /** The result mentions no parameter and holds no foldable operation. */
  lemma {:induction false} SimplifyNormal(e: Expr, params: map<string, real>, ln: real -> real)
    requires Simplify(e, params, ln).Some?
    ensures NoParameters(Simplify(e, params, ln).value) && Folded(Simplify(e, params, ln).value)
  {
    match e
    case Unary(op, x) => SimplifyNormal(x, params, ln);
    case Binary(op, l, r) =>
      SimplifyNormal(l, params, ln);
      SimplifyNormal(r, params, ln);
    case _ =>
  }

  /** A simplified, folded equation is its own simplification. */
  lemma {:induction false} SimplifyFixpoint(e: Expr, params: map<string, real>, ln: real -> real)
    requires NoParameters(e) && Folded(e)
    ensures Simplify(e, params, ln) == Some(e)
  {
    match e
    case Unary(op, x) => SimplifyFixpoint(x, params, ln);
    case Binary(op, l, r) =>
      SimplifyFixpoint(l, params, ln);
      SimplifyFixpoint(r, params, ln);
    case _ =>
  }

  /** Simplification is idempotent. */
  lemma SimplifyIdempotent(e: Expr, params: map<string, real>, ln: real -> real)
    requires Simplify(e, params, ln).Some?
    ensures Simplify(Simplify(e, params, ln).value, params, ln) == Simplify(e, params, ln)
  {
    SimplifyNormal(e, params, ln);
    SimplifyFixpoint(Simplify(e, params, ln).value, params, ln);
  }

  /** An equation without species leaves folds all the way to a number, or fails. */
  lemma {:induction false} ConstantFoldsToNumber(e: Expr, params: map<string, real>, ln: real -> real)
    requires Constant(e)
    ensures Simplify(e, params, ln).Some? ==> Simplify(e, params, ln).value.Number?
  {
    match e
    case Unary(op, x) => ConstantFoldsToNumber(x, params, ln);
    case Binary(op, l, r) =>
      ConstantFoldsToNumber(l, params, ln);
      ConstantFoldsToNumber(r, params, ln);
    case _ =>
  }

  /** `simplifyEquationToDouble`: null unless the equation simplifies to a number. */
  function SimplifyToReal(e: Expr, params: map<string, real>, ln: real -> real): Option<real> {
    var s := Simplify(e, params, ln);
    if s.Some? && s.value.Number? then Some(s.value.value) else None
  }

  /** The number obtained is the equation's value in any membrane. */
  lemma SimplifyToRealIsValue(e: Expr, params: map<string, real>, ln: real -> real, count: LocatedSpecies -> nat)
    requires SimplifyToReal(e, params, ln).Some?
    ensures Eval(Substitute(e, params), count, ln) == Success(SimplifyToReal(e, params, ln).value)
  {
    SimplifySound(e, params, ln, count);
  }

  /** Java's `(int)` cast of a double: truncation toward zero, saturating at the int range. */
  function JavaIntCast(v: real): (i: int)
    ensures Text.IntMin <= i <= Text.IntMax
  {
    var t := if v >= 0.0 then v.Floor else -((-v).Floor);
    if t < Text.IntMin then Text.IntMin else if t > Text.IntMax then Text.IntMax else t
  }

  /** `simplifyEquationToInteger`: the value, when it is a whole number that survives the cast. */
  function SimplifyToInt(e: Expr, params: map<string, real>, ln: real -> real): Option<int> {
    var d := SimplifyToReal(e, params, ln);
    if d.None? then None
    else
      var i := JavaIntCast(d.value);
      if i as real != d.value then None else Some(i)
  }

  /** An integer result is exactly a real result that is whole and within the int range. */
  lemma SimplifyToIntIff(e: Expr, params: map<string, real>, ln: real -> real, i: int)
    ensures SimplifyToInt(e, params, ln) == Some(i)
        <==> SimplifyToReal(e, params, ln) == Some(i as real) && Text.IntMin <= i <= Text.IntMax
  {
    var d := SimplifyToReal(e, params, ln);
    if d == Some(i as real) && Text.IntMin <= i <= Text.IntMax {
      assert (i as real).Floor == i;
      assert JavaIntCast(i as real) == i by {
        if i < 0 { assert (-(i as real)).Floor == -i; }
      }
    }
  }
}
