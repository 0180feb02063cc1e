/** The SymPy objects the extractor handles, as terms. SymPy itself is outside the
    model: the extractor only builds symbols, quotients, differences, equations and
    substitutions, and hands everything else to the two LaTeX parsers and to
    `free_symbols`, which are parameters here. */
module Algebra {
  import opened Results

  /** An expression. `Symbol(name)` is `sp.Symbol(name)`, `Quotient(a, b)` is `a / b`,
      `Difference(a, b)` is `a - b`, `Substituted(e, b)` is `e.subs(b)` and
      `Literal(text)` an atom the caller supplies (a number, say). No simplification
      is applied: these are the calls, not their values. */
  datatype Expr =
    | Symbol(name: string)
    | Literal(text: string)
    | Quotient(num: Expr, den: Expr)
    | Difference(lhs: Expr, rhs: Expr)
    | Substituted(body: Expr, bindings: Bindings)

  /** The items of a substitution dictionary, in insertion order. */
  type Bindings = seq<(Expr, Expr)>

  /** `ExprOrEq`: an expression, or `sp.Eq(lhs, rhs)`. */
  datatype ExprOrEq = Bare(expr: Expr) | Equation(lhs: Expr, rhs: Expr)

  /** What the extractor calls outside itself: `latex2sympy` (primary), SymPy's
      `parse_latex` (secondary) — each either returns an expression or raises with a
      message — and the names of an expression's free symbols. */
  datatype Backend = Backend(
    primary: string -> Result<Expr, string>,
    secondary: string -> Result<Expr, string>,
    freeSymbols: Expr -> set<string>)

  /** `_residual_of`: `lhs - rhs` of an equation; any other expression is its own residual. */
  function ResidualOf(obj: ExprOrEq): (r: Expr)
    ensures obj.Equation? ==> r == Difference(obj.lhs, obj.rhs)
    ensures obj.Bare? ==> r == obj.expr
  {
    match obj
    case Bare(e) => e
    case Equation(l, r) => Difference(l, r)
  }

  /** Values for the symbols and the literal atoms of an expression. */
  datatype Valuation = Valuation(sym: string -> real, lit: string -> real)

  /** The value of an expression, when it has one: a quotient by zero has none, and a
      substitution is left to SymPy and has none here. */
  function Eval(e: Expr, v: Valuation): Option<real> {
    match e
    case Symbol(n) => Some(v.sym(n))
    case Literal(t) => Some(v.lit(t))
    case Quotient(a, b) =>
      (match (Eval(a, v), Eval(b, v))
       case (Some(x), Some(y)) => if y == 0.0 then None else Some(x / y)
       case _ => None)
    case Difference(a, b) =>
      (match (Eval(a, v), Eval(b, v))
       case (Some(x), Some(y)) => Some(x - y)
       case _ => None)
    case Substituted(_, _) => None
  }

  /** What an object asserts under a valuation: an equation that both sides are defined
      and equal, a bare expression (SymPy's `solve` convention) that it is zero. */
  predicate Holds(obj: ExprOrEq, v: Valuation) {
    match obj
    case Equation(l, r) => Eval(l, v).Some? && Eval(l, v) == Eval(r, v)
    case Bare(e) => Eval(e, v) == Some(0.0)
  }

  /** The residual of an object vanishes exactly where the object holds. */
  lemma ResidualVanishes(obj: ExprOrEq, v: Valuation)
    ensures Eval(ResidualOf(obj), v) == Some(0.0) <==> Holds(obj, v)
  {
    if obj.Equation? {
      var l, r := Eval(obj.lhs, v), Eval(obj.rhs, v);
      if l.Some? && r.Some? {
        assert Eval(ResidualOf(obj), v) == Some(l.value - r.value);
      }
    }
  }
}
