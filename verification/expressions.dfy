/**
  The function tree of Bertini 2 as an immutable value: integer constants,
  variables, n-ary sums with a sign on every edge, n-ary products, integer
  powers and square roots. A node that is shared between several parents in
  the original is simply repeated here.
 */
module Expressions {

  /** One edge of a Sum: the operand and whether it is subtracted. */
  datatype Summand = Summand(negated: bool, operand: Expr)

  datatype Expr =
    | Integer(value: int)
    | Var(name: string)
    | Sum(summands: seq<Summand>)
    | Product(factors: seq<Expr>)
    | Pow(base: Expr, exponent: nat)
    | Sqrt(arg: Expr)

  /** The constants the rewrite passes look for, recognised structurally. */
  const Zero: Expr := Integer(0)
  const One: Expr := Integer(1)

  /** The trees the binary `+` and `*` operators build. */
  function Add(a: Expr, b: Expr): Expr {
    Sum([Summand(false, a), Summand(false, b)])
  }

  function Mul(a: Expr, b: Expr): Expr {
    Product([a, b])
  }

  /** What a rewrite pass returns: the rewritten tree (or list of edges) and
      how many eliminations it performed. */
  datatype Rewritten<T> = Rewritten(value: T, eliminated: nat)

  /** The values of the leaves that are not constants: the current value of
      every variable, and the square root, which the model leaves
      uninterpreted so that nothing depends on floating point. */
  datatype Valuation = Valuation(variable: string -> int, sqrt: int -> int)

  function Power(b: int, k: nat): int {
    if k == 0 then 1 else b * Power(b, k - 1)
  }

  /** Evaluation of a tree; an empty Sum is 0 and an empty Product is 1. */
  function Eval(e: Expr, val: Valuation): int
    decreases e
  {
    match e
    case Integer(n) => n
    case Var(x) => val.variable(x)
    case Sum(ts) => SumOf(ts, val)
    case Product(fs) => ProductOf(fs, val)
    case Pow(b, k) => Power(Eval(b, val), k)
    case Sqrt(a) => val.sqrt(Eval(a, val))
  }

  function SummandValue(t: Summand, val: Valuation): int
    decreases t
  {
    if t.negated then -Eval(t.operand, val) else Eval(t.operand, val)
  }

  function SumOf(ts: seq<Summand>, val: Valuation): int
    decreases ts
  {
    if ts == [] then 0 else SummandValue(ts[0], val) + SumOf(ts[1..], val)
  }

  function ProductOf(fs: seq<Expr>, val: Valuation): int
    decreases fs
  {
    if fs == [] then 1 else Eval(fs[0], val) * ProductOf(fs[1..], val)
  }

  /** Number of nodes of a tree; edges carry no weight of their own. */
  function Size(e: Expr): nat
    decreases e
  {
    match e
    case Integer(_) => 1
    case Var(_) => 1
    case Sum(ts) => 1 + SummandsSize(ts)
    case Product(fs) => 1 + FactorsSize(fs)
    case Pow(b, _) => 1 + Size(b)
    case Sqrt(a) => 1 + Size(a)
  }

  function SummandSize(t: Summand): nat
    decreases t
  {
    Size(t.operand)
  }

  function SummandsSize(ts: seq<Summand>): nat
    decreases ts
  {
    if ts == [] then 0 else SummandSize(ts[0]) + SummandsSize(ts[1..])
  }

  function FactorsSize(fs: seq<Expr>): (n: nat)
    decreases fs
    ensures n >= |fs|
  {
    if fs == [] then 0 else Size(fs[0]) + FactorsSize(fs[1..])
  }

  /** The binary `+` and `*` evaluate to the sum and product of their operands. */
  lemma AddValue(a: Expr, b: Expr, val: Valuation)
    ensures Eval(Add(a, b), val) == Eval(a, val) + Eval(b, val)
  {
    var ts := [Summand(false, a), Summand(false, b)];
    assert ts[1..] == [Summand(false, b)];
    assert ts[1..][1..] == [];
    assert SumOf(ts[1..], val) == Eval(b, val);
    assert Eval(Add(a, b), val) == SumOf(ts, val) == Eval(a, val) + SumOf(ts[1..], val);
  }

  lemma MulValue(a: Expr, b: Expr, val: Valuation)
    ensures Eval(Mul(a, b), val) == Eval(a, val) * Eval(b, val)
  {
    var fs := [a, b];
    assert fs[1..] == [b];
    assert fs[1..][1..] == [];
    assert ProductOf(fs[1..], val) == Eval(b, val);
    assert Eval(Mul(a, b), val) == ProductOf(fs, val) == Eval(a, val) * ProductOf(fs[1..], val);
  }

  /** A product with a zero factor is zero, whatever the other factors are. */
  lemma {:induction false} ZeroFactorAnnihilates(fs: seq<Expr>, val: Valuation)
    requires Zero in fs
    ensures ProductOf(fs, val) == 0
    decreases fs
  {
    if fs[0] != Zero {
      assert Zero in fs[1..];
      ZeroFactorAnnihilates(fs[1..], val);
    }
  }
}
