/**
  The unit-test scenarios of the rewrite passes, stated for every valuation
  (every value of the other variables and every square root function) rather
  than for one double-precision run, and for a variable of any name where the
  tests use "x". Trees are built the way the binary `+` and `*` operators,
  `pow` and `sqrt` build them; a bare integer operand becomes an integer
  constant.
 */
module TransformTests {
  import opened Expressions
  import ZeroElimination
  import OneElimination

  /** EliminateZeros on a lone zero eliminates nothing; the node is still 0. */
  lemma CantEliminateZeroSelf(val: Valuation)
    ensures ZeroElimination.EliminateZeros(Zero) == Rewritten(Zero, 0)
    ensures Eval(ZeroElimination.EliminateZeros(Zero).value, val) == 0
  {
  }

  /** zero+zero, zero+0 and 0+zero: the three test trees coincide here, since
      `Zero` is the integer constant 0, as a Sum of two zero constants. It is
      replaced by zero, with at least one elimination. */
  lemma EliminateSingleZeroSum(val: Valuation)
    ensures var r := ZeroElimination.EliminateZeros(Add(Zero, Zero));
      r.eliminated >= 1 && r.value == Zero && Eval(r.value, val) == 0
  {
  }

  /** 1*zero and zero*zero collapse to the zero constant. */
  lemma EliminateZeroProduct(val: Valuation)
    ensures var r := ZeroElimination.EliminateZeros(Mul(Integer(1), Zero));
      r.eliminated >= 1 && r.value == Zero && Eval(r.value, val) == 0
    ensures var r := ZeroElimination.EliminateZeros(Mul(Zero, Zero));
      r.eliminated >= 1 && r.value == Zero && Eval(r.value, val) == 0
  {
  }

  /** pow(x,2) + zero*2 with x = 2: the zero product is removed from the Sum
      and the value stays 4. */
  lemma EliminateZeroSumZeroSummand(x: string, val: Valuation)
    requires val.variable(x) == 2
    ensures var r := ZeroElimination.EliminateZeros(Add(Pow(Var(x), 2), Mul(Zero, Integer(2))));
      r.eliminated >= 1 && Eval(r.value, val) == 4
  {
    var n := Add(Pow(Var(x), 2), Mul(Zero, Integer(2)));
    ZeroElimination.MulZeroFree(Zero, Integer(2));
    ZeroElimination.AddZeroFree(Pow(Var(x), 2), Mul(Zero, Integer(2)));
    ZeroElimination.CountZeroIffZeroFree(n);
    ZeroElimination.PreservesValue(n, val);
    AddValue(Pow(Var(x), 2), Mul(Zero, Integer(2)), val);
    MulValue(Zero, Integer(2), val);
    assert Eval(Pow(Var(x), 2), val) == Power(2, 2) == 4;
  }

  /** x*zero*2*(x*x*x), the summand of the next scenario that holds the zero. */
  function BuriedZero(x: string): Expr {
    Mul(Mul(Mul(Var(x), Zero), Integer(2)), Mul(Mul(Var(x), Var(x)), Var(x)))
  }

  lemma BuriedZeroFacts(x: string, val: Valuation)
    ensures !ZeroElimination.ZeroFree(BuriedZero(x))
    ensures Eval(BuriedZero(x), val) == 0
  {
    ZeroElimination.MulZeroFree(Var(x), Zero);
    ZeroElimination.MulZeroFree(Mul(Var(x), Zero), Integer(2));
    ZeroElimination.MulZeroFree(Mul(Mul(Var(x), Zero), Integer(2)), Mul(Mul(Var(x), Var(x)), Var(x)));
    MulValue(Var(x), Zero, val);
    MulValue(Mul(Var(x), Zero), Integer(2), val);
    MulValue(Mul(Mul(Var(x), Zero), Integer(2)), Mul(Mul(Var(x), Var(x)), Var(x)), val);
  }

  /** pow(x,2) + x*zero*2*(x*x*x) with x = 2: the zero buried in a summand's
      nested products collapses that summand; the value stays 4. */
  lemma EliminateZeroSumZeroSummand2(x: string, val: Valuation)
    requires val.variable(x) == 2
    ensures var r := ZeroElimination.EliminateZeros(Add(Pow(Var(x), 2), BuriedZero(x)));
      r.eliminated >= 1 && Eval(r.value, val) == 4
  {
    var n := Add(Pow(Var(x), 2), BuriedZero(x));
    BuriedZeroFacts(x, val);
    ZeroElimination.AddZeroFree(Pow(Var(x), 2), BuriedZero(x));
    ZeroElimination.CountZeroIffZeroFree(n);
    ZeroElimination.PreservesValue(n, val);
    AddValue(Pow(Var(x), 2), BuriedZero(x), val);
    assert Eval(Pow(Var(x), 2), val) == Power(2, 2) == 4;
  }

  /** x*2*(x*x*x), the second summand of the next scenario. */
  function Level2Product(x: string): Expr {
    Mul(Mul(Var(x), Integer(2)), Mul(Mul(Var(x), Var(x)), Var(x)))
  }

  lemma Level2ProductValue(x: string, val: Valuation)
    requires val.variable(x) == 2
    ensures Eval(Level2Product(x), val) == 32
  {
    MulValue(Var(x), Integer(2), val);
    MulValue(Var(x), Var(x), val);
    MulValue(Mul(Var(x), Var(x)), Var(x), val);
    MulValue(Mul(Var(x), Integer(2)), Mul(Mul(Var(x), Var(x)), Var(x)), val);
  }

  /** A zero added to the left operand of a Sum, one level down, is
      eliminated without changing the value of the whole. */
  lemma ZeroInLeftSummand(a: Expr, b: Expr, val: Valuation)
    ensures var r := ZeroElimination.EliminateZeros(Add(Add(a, Zero), b));
      r.eliminated >= 1 && Eval(r.value, val) == Eval(Add(a, b), val)
  {
    ZeroElimination.AddZeroFree(a, Zero);
    ZeroElimination.AddZeroFree(Add(a, Zero), b);
    ZeroElimination.CountZeroIffZeroFree(Add(Add(a, Zero), b));
    ZeroElimination.PreservesValue(Add(Add(a, Zero), b), val);
    AddValue(Add(a, Zero), b, val);
    AddValue(a, Zero, val);
    AddValue(a, b, val);
  }

  /** (x + sqrt(x) + zero) + x*2*(x*x*x) with x = 2: the zero two levels down
      is eliminated, and the result has the value of the tree without it,
      2 + sqrt(2) + 32, whatever the square root is. */
  lemma EliminateZeroInSumLevel2(x: string, val: Valuation)
    requires val.variable(x) == 2
    ensures var r := ZeroElimination.EliminateZeros(Add(Add(Add(Var(x), Sqrt(Var(x))), Zero), Level2Product(x)));
      && r.eliminated >= 1
      && Eval(r.value, val) == Eval(Add(Add(Var(x), Sqrt(Var(x))), Level2Product(x)), val) == 34 + val.sqrt(2)
  {
    ZeroInLeftSummand(Add(Var(x), Sqrt(Var(x))), Level2Product(x), val);
    AddValue(Add(Var(x), Sqrt(Var(x))), Level2Product(x), val);
    AddValue(Var(x), Sqrt(Var(x)), val);
    Level2ProductValue(x, val);
  }

  /** EliminateOnes on a lone one eliminates nothing; the node is still 1. */
  lemma CantEliminateOneSelf(val: Valuation)
    ensures OneElimination.EliminateOnes(One) == Rewritten(One, 0)
    ensures Eval(OneElimination.EliminateOnes(One).value, val) == 1
  {
  }
}
