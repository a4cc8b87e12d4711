/**
 * Rate equations (the classes of model/equations): an expression tree evaluated
 * relative to one membrane. The membrane is represented by its species
 * count function (`Membrane.numSpecies`), and `Math.log` by the parameter
 * `ln`, since the model has no floating point.
 */
module Equations {
  import opened Wrappers
  import opened Species
  import Text

  /** The concrete subclasses of `OperationExpression`. */
  datatype BinaryOp = Add | Subtract | Multiply | Divide

  /** The concrete subclasses of `UnaryOperationExpression`. */
  datatype UnaryOp = Round | Ln

  /**
   * `Equation`. Java's structural `equals` on every node kind (same class,
   * equal value, name, species and stoichiometry, or equal children) is
   * datatype equality here.
   */
  datatype Expr =
    | Number(value: real)
    | Parameter(name: string)
    | SpeciesLeaf(species: LocatedSpecies, stoichiometry: int)
    | Binary(op: BinaryOp, left: Expr, right: Expr)
    | Unary(uop: UnaryOp, sub: Expr)

  /** The `LocatedSpeciesExpression(LocatedSpecies)` constructor: stoichiometry 1. */
  function LeafOf(ls: LocatedSpecies): (e: Expr)
    ensures e.SpeciesLeaf? && e.species == ls && e.stoichiometry == 1
  {
    SpeciesLeaf(ls, 1)
  }

  /** The `LocatedSpeciesExpression(StoichiometrySpecies)` constructor: the carried stoichiometry. */
  function StoichiometryLeafOf(ss: StoichiometrySpecies): (e: Expr)
    ensures e.SpeciesLeaf? && e.species == ss.species && e.stoichiometry == ss.stoichiometry
  {
    SpeciesLeaf(ss.species, ss.stoichiometry)
  }

  /** Unary minus, as the parser writes it: 0 - x. */
  function Negate(x: Expr): Expr {
    Binary(Subtract, Number(0.0), x)
  }

  /** `Math.round`: the nearest integer, ties upward. */
  function RoundHalfUp(x: real): (r: int)
    ensures x - 0.5 < r as real <= x + 0.5
  {
    (x + 0.5).Floor
  }

  /** `OperationExpression.evaluate(double, double)` of each subclass. */
  function ApplyBinary(op: BinaryOp, l: real, r: real): (res: Result<real>)
    ensures res.Failure? <==> op == Divide && r == 0.0
    ensures res.Failure? ==> res.error == "Divide by zero"
  {
    match op
    case Add => Success(l + r)
    case Subtract => Success(l - r)
    case Multiply => Success(l * r)
    case Divide => if r == 0.0 then Failure("Divide by zero") else Success(l / r)
  }

  /** `UnaryOperationExpression.evaluate(double)` of each subclass; neither raises. */
  function ApplyUnary(op: UnaryOp, x: real, ln: real -> real): real {
    match op
    case Round => RoundHalfUp(x) as real
    case Ln => ln(x)
  }

  /** Binomial coefficient by Pascal's rule. */
  function Choose(n: nat, k: nat): nat {
    if k == 0 then 1
    else if n == 0 then 0
    else Choose(n - 1, k - 1) + Choose(n - 1, k)
  }

  lemma {:induction false} ChooseOne(n: nat)
    ensures Choose(n, 1) == n
  {
    if n > 0 { ChooseOne(n - 1); }
  }

  lemma {:induction false} ChooseTwo(n: nat)
    ensures 2 * Choose(n, 2) == n * (n - 1)
  {
    if n > 0 {
      ChooseTwo(n - 1);
      ChooseOne(n - 1);
    }
  }

  /** k·C(n,k) = n·C(n-1,k-1): the multiplicative form of the binomial. */
  lemma {:induction false} ChooseAbsorption(n: nat, k: nat)
    requires n >= 1 && k >= 1
    ensures k * Choose(n, k) == n * Choose(n - 1, k - 1)
  {
    if n == 1 {
    } else if k == 1 {
      ChooseOne(n);
    } else {
      var a := Choose(n - 1, k - 1);
      var b := Choose(n - 1, k);
      var c := Choose(n - 2, k - 2);
      var d := Choose(n - 2, k - 1);
      assert Choose(n, k) == a + b;
      assert a == c + d;
      ChooseAbsorption(n - 1, k);
      ChooseAbsorption(n - 1, k - 1);
      AbsorptionStep(n, k, a, b, c, d);
    }
  }

  lemma AbsorptionStep(n: int, k: int, a: int, b: int, c: int, d: int)
    requires a == c + d && k * b == (n - 1) * d && (k - 1) * a == (n - 1) * c
    ensures k * (a + b) == n * a
  {
    calc {
      k * (a + b);
      k * a + k * b;
      a + (k - 1) * a + (n - 1) * d;
      a + (n - 1) * c + (n - 1) * d;
      a + (n - 1) * (c + d);
      n * a;
    }
  }
  /** Values used by the initial-rate closed forms: C(11,2), C(11,5), C(13,7) and C(13,3). */
  lemma ChooseValues()
    ensures Choose(11, 2) == 55 && Choose(11, 5) == 462 && Choose(13, 7) == 1716 && Choose(13, 3) == 286
  {
    ChooseTwo(11);
    ChooseOne(7); ChooseAbsorption(8, 2); ChooseAbsorption(9, 3); ChooseAbsorption(10, 4);
    ChooseAbsorption(11, 5); ChooseAbsorption(12, 6); ChooseAbsorption(13, 7);
    ChooseOne(11); ChooseAbsorption(12, 2); ChooseAbsorption(13, 3);
  }

  lemma {:induction false} ChooseAbove(n: nat, k: nat)
    requires n < k
    ensures Choose(n, k) == 0
  {
    if n > 0 { ChooseAbove(n - 1, k - 1); ChooseAbove(n - 1, k); }
  }

  /**
   * Mass-action term of `LocatedSpeciesExpression.evaluate` for a count n:
   * n for stoichiometry 0 or 1, n(n-1)/2 for 2 (written here as C(n, 2),
   * which `PairFormula` shows is the same integer), and C(n, s) otherwise,
   * where the binomial routine rejects s < 0 and s > n.
   */
  function MassAction(n: nat, s: int): Result<real> {
    if s == 0 || s == 1 then Success(n as real)
    else if s < 0 || (s != 2 && n < s) then Failure("Binomial coefficient out of range")
    else Success(Choose(n, s) as real)
  }

  /** Stoichiometry 2 gives the source's integer formula n(n-1)/2. */
  lemma PairFormula(n: nat)
    ensures MassAction(n, 2) == Success(((n * (n - 1)) / 2) as real)
  {
    ChooseTwo(n);
  }

  /** Each mass-action term is the number of ways to pick the reacting copies. */
  lemma MassActionIsBinomial(n: nat, s: nat)
    requires s >= 1 && n >= s
    ensures MassAction(n, s) == Success(Choose(n, s) as real)
  {
    if s == 1 { ChooseOne(n); }
  }

  /** Genes and catalysts (stoichiometry 0) count with order 1. */
  lemma MassActionOrderOne(n: nat)
    ensures MassAction(n, 0) == MassAction(n, 1) == Success(Choose(n, 1) as real)
  {
    ChooseOne(n);
  }

  /**
   * `Equation.evaluate(membrane)`: `count` is the membrane's
   * `numSpecies(LocatedSpecies)`. A failing operand makes the enclosing
   * operation fail, the left operand first. Parameters must have been
   * substituted by simplification: evaluating one fails.
   */
  function Eval(e: Expr, count: LocatedSpecies -> nat, ln: real -> real): Result<real> {
    match e
    case Number(v) => Success(v)
    case Parameter(name) => Failure("Tried to evaluate a parameter expression: " + name)
    case SpeciesLeaf(ls, s) => MassAction(count(ls), s)
    case Binary(op, l, r) =>
      var lv := Eval(l, count, ln);
      if lv.Failure? then lv
      else
        var rv := Eval(r, count, ln);
        if rv.Failure? then rv
        else ApplyBinary(op, lv.value, rv.value)
    case Unary(op, x) =>
      var xv := Eval(x, count, ln);
      if xv.Failure? then xv else Success(ApplyUnary(op, xv.value, ln))
  }

  /**
   * A failing operand makes the enclosing operation fail with the operand's
   * error, the left one first; otherwise the operation applies to the values.
   */
  lemma OperandFailure(op: BinaryOp, l: Expr, r: Expr, count: LocatedSpecies -> nat, ln: real -> real)
    ensures Eval(l, count, ln).Failure? ==>
      Eval(Binary(op, l, r), count, ln).Failure? && Eval(Binary(op, l, r), count, ln).error == Eval(l, count, ln).error
    ensures Eval(l, count, ln).Success? && Eval(r, count, ln).Failure? ==>
      Eval(Binary(op, l, r), count, ln).Failure? && Eval(Binary(op, l, r), count, ln).error == Eval(r, count, ln).error
    ensures Eval(Binary(op, l, r), count, ln).Failure? <==>
      Eval(l, count, ln).Failure? || Eval(r, count, ln).Failure? || (op == Divide && Eval(r, count, ln).value == 0.0)
  {
  }

  /** A unary operation fails exactly when its operand does; Round and Ln never raise. */
  lemma UnaryFailure(op: UnaryOp, x: Expr, count: LocatedSpecies -> nat, ln: real -> real)
    ensures Eval(Unary(op, x), count, ln).Failure? <==> Eval(x, count, ln).Failure?
    ensures Eval(x, count, ln).Success? ==> Eval(Unary(op, x), count, ln).value == ApplyUnary(op, Eval(x, count, ln).value, ln)
  {
  }

  /** No species leaf anywhere in the tree. */
  predicate Constant(e: Expr) {
    match e
    case SpeciesLeaf(_, _) => false
    case Binary(_, l, r) => Constant(l) && Constant(r)
    case Unary(_, x) => Constant(x)
    case _ => true
  }

  /** A constant expression has the same value in every membrane (the source evaluates it with none). */
  lemma {:induction false} ConstantEvalIndependent(e: Expr, c1: LocatedSpecies -> nat, c2: LocatedSpecies -> nat, ln: real -> real)
    requires Constant(e)
    ensures Eval(e, c1, ln) == Eval(e, c2, ln)
  {
    match e
    case Binary(_, l, r) =>
      ConstantEvalIndependent(l, c1, c2, ln);
      ConstantEvalIndependent(r, c1, c2, ln);
    case Unary(_, x) => ConstantEvalIndependent(x, c1, c2, ln);
    case _ =>
  }

  /** Built from numbers, order-1/2 species, Add, Subtract, Multiply, Round and Ln only. */
  predicate Total(e: Expr) {
    match e
    case Number(_) => true
    case Parameter(_) => false
    case SpeciesLeaf(_, s) => 0 <= s <= 2
    case Binary(op, l, r) => op != Divide && Total(l) && Total(r)
    case Unary(_, x) => Total(x)
  }

  /** Only division, parameters and out-of-range binomials can make evaluation fail. */
  lemma {:induction false} TotalEvalSucceeds(e: Expr, count: LocatedSpecies -> nat, ln: real -> real)
    requires Total(e)
    ensures Eval(e, count, ln).Success?
  {
    match e
    case Binary(_, l, r) =>
      TotalEvalSucceeds(l, count, ln);
      TotalEvalSucceeds(r, count, ln);
    case Unary(_, x) => TotalEvalSucceeds(x, count, ln);
    case _ =>
  }

  function BinaryOpSymbol(op: BinaryOp): string {
    match op
    case Add => " + "
    case Subtract => " - "
    case Multiply => " * "
    case Divide => " / "
  }

  /**
   * `toString` of each node kind. Integral numbers print as "(n)"; the
   * text of any other double (`Double.toString`) is the parameter `fmt`.
   */
  function ExprText(e: Expr, fmt: real -> string): string {
    match e
    case Number(v) =>
      if v == v.Floor as real then "(" + Text.IntToString(v.Floor) + ")" else "(" + fmt(v) + ")"
    case Parameter(name) => "(" + name + ")"
    case SpeciesLeaf(ls, _) => "(" + SpeciesText(ls) + ")"
    case Binary(op, l, r) => "(" + ExprText(l, fmt) + BinaryOpSymbol(op) + ExprText(r, fmt) + ")"
    case Unary(Round, x) => "round(" + ExprText(x, fmt) + ")"
    case Unary(Ln, x) => "ln(" + ExprText(x, fmt) + ")"
  }

  /** Count of '(' minus count of ')'. */
  function Depth(s: string): int {
    if s == [] then 0
    else (if s[0] == '(' then 1 else if s[0] == ')' then -1 else 0) + Depth(s[1..])
  }

  lemma {:induction false} DepthConcat(a: string, b: string)
    ensures Depth(a + b) == Depth(a) + Depth(b)
  {
    if a != [] {
      assert (a + b)[0] == a[0];
      assert (a + b)[1..] == a[1..] + b;
      DepthConcat(a[1..], b);
    } else {
      assert a + b == b;
    }
  }

  predicate ParenFree(s: string) { '(' !in s && ')' !in s }

  lemma {:induction false} ParenFreeDepth(s: string)
    requires ParenFree(s)
    ensures Depth(s) == 0
  {
    if s != [] { ParenFreeDepth(s[1..]); }
  }

  /** Names and formatted numbers hold no parentheses. */
  predicate PlainNames(e: Expr, fmt: real -> string) {
    match e
    case Number(v) => ParenFree(fmt(v))
    case Parameter(name) => ParenFree(name)
    case SpeciesLeaf(ls, _) => ParenFree(ls.speciesName) && ParenFree(ls.membraneName)
    case Binary(_, l, r) => PlainNames(l, fmt) && PlainNames(r, fmt)
    case Unary(_, x) => PlainNames(x, fmt)
  }

  lemma Wrapped(head: string, body: string)
    ensures Depth(head + body + ")") == Depth(head) + Depth(body) - 1
    ensures |head + body + ")"| > 0 && (head + body + ")")[|head + body + ")"| - 1] == ')'
  {
    DepthConcat(head, body);
    DepthConcat(head + body, ")");
  }

  lemma SpeciesDepth(ls: LocatedSpecies)
    requires ParenFree(ls.speciesName) && ParenFree(ls.membraneName)
    ensures Depth(SpeciesText(ls)) == 0
  {
    var loc := LocationName(ls.location);
    assert ParenFree(loc) by {
      match ls.location { case On => case Under => case Contained => case Around => }
    }
    ParenFreeDepth(ls.speciesName);
    ParenFreeDepth(ls.membraneName);
    ParenFreeDepth(loc);
    DepthConcat(ls.speciesName, " ");
    DepthConcat(ls.speciesName + " ", loc);
    DepthConcat(ls.speciesName + " " + loc, " ");
    DepthConcat(ls.speciesName + " " + loc + " ", ls.membraneName);
  }

  lemma NumberDepth(v: real, fmt: real -> string)
    requires ParenFree(fmt(v))
    ensures Depth(ExprText(Number(v), fmt)) == 0
  {
    if v == v.Floor as real {
      Text.NatToStringNumeric(if v.Floor < 0 then -v.Floor else v.Floor);
      var digits := Text.IntToString(v.Floor);
      assert ParenFree(digits);
      ParenFreeDepth(digits);
      Wrapped("(", digits);
    } else {
      ParenFreeDepth(fmt(v));
      Wrapped("(", fmt(v));
    }
  }

  /** Every printed node is wrapped in a balanced pair of parentheses. */
  lemma {:induction false} ExprTextBalanced(e: Expr, fmt: real -> string)
    requires PlainNames(e, fmt)
    ensures Depth(ExprText(e, fmt)) == 0
    ensures |ExprText(e, fmt)| > 0 && ExprText(e, fmt)[|ExprText(e, fmt)| - 1] == ')'
  {
    match e
    case Number(v) =>
      NumberDepth(v, fmt);
      if v == v.Floor as real { Wrapped("(", Text.IntToString(v.Floor)); } else { Wrapped("(", fmt(v)); }
    case Parameter(name) =>
      ParenFreeDepth(name);
      Wrapped("(", name);
    case SpeciesLeaf(ls, _) =>
      SpeciesDepth(ls);
      Wrapped("(", SpeciesText(ls));
    case Binary(op, l, r) =>
      ExprTextBalanced(l, fmt);
      ExprTextBalanced(r, fmt);
      assert ParenFree(BinaryOpSymbol(op)) by {
        match op { case Add => case Subtract => case Multiply => case Divide => }
      }
      BinaryWrapped(ExprText(l, fmt), BinaryOpSymbol(op), ExprText(r, fmt));
    case Unary(op, x) =>
      ExprTextBalanced(x, fmt);
      if op == Round {
        assert "round(" == "round" + "(";
        UnaryWrapped("round", ExprText(x, fmt));
      } else {
        assert "ln(" == "ln" + "(";
        UnaryWrapped("ln", ExprText(x, fmt));
      }
  }

  lemma BinaryWrapped(lt: string, sym: string, rt: string)
    requires Depth(lt) == 0 && Depth(rt) == 0 && ParenFree(sym)
    ensures Depth("(" + lt + sym + rt + ")") == 0
    ensures ("(" + lt + sym + rt + ")")[|"(" + lt + sym + rt + ")"| - 1] == ')'
  {
    ParenFreeDepth(sym);
    DepthConcat("(", lt);
    DepthConcat("(" + lt, sym);
    DepthConcat("(" + lt + sym, rt);
    Wrapped("(" + lt + sym, rt);
  }

  lemma UnaryWrapped(word: string, xt: string)
    requires Depth(xt) == 0 && ParenFree(word)
    ensures Depth((word + "(") + xt + ")") == 0
    ensures ((word + "(") + xt + ")")[|(word + "(") + xt + ")"| - 1] == ')'
  {
    ParenFreeDepth(word);
    DepthConcat(word, "(");
    Wrapped(word + "(", xt);
  }
}
