/**
  EliminateZeros: the rewrite pass that removes the additive zero from the
  function tree. It works children first, so that a parent sees a child that
  has itself become the zero constant:
  - a Sum edge whose rewritten operand is the zero constant is dropped, and
    every drop counts one elimination; a Sum that loses all of its edges is
    replaced by the zero constant;
  - a Product one of whose rewritten factors is the zero constant collapses
    to the zero constant, which counts one elimination;
  - powers and square roots are traversed but never removed;
  - a lone constant is never eliminated: it comes back unchanged with
    count 0. A Sum or Product the pass is called on may itself come back as
    the zero constant; the original edits that node in place instead, with
    the same count and the same value.
  Zero is recognised structurally (a constant holding 0), never by evaluating.
 */
module ZeroElimination {
  import opened Expressions

  /** No Sum or Product anywhere in the tree has the zero constant as an
      operand: the trees on which the pass has nothing to do. */
  predicate ZeroFree(e: Expr)
    decreases e
  {
    match e
    case Integer(_) => true
    case Var(_) => true
    case Sum(ts) => SummandsZeroFree(ts)
    case Product(fs) => Zero !in fs && FactorsZeroFree(fs)
    case Pow(b, _) => ZeroFree(b)
    case Sqrt(a) => ZeroFree(a)
  }

  predicate SummandZeroFree(t: Summand)
    decreases t
  {
    t.operand != Zero && ZeroFree(t.operand)
  }

  predicate SummandsZeroFree(ts: seq<Summand>)
    decreases ts
  {
    ts == [] || (SummandZeroFree(ts[0]) && SummandsZeroFree(ts[1..]))
  }

  predicate FactorsZeroFree(fs: seq<Expr>)
    decreases fs
  {
    fs == [] || (ZeroFree(fs[0]) && FactorsZeroFree(fs[1..]))
  }

  function EliminateZeros(e: Expr): (r: Rewritten<Expr>)
    decreases e
    ensures ZeroFree(r.value)
    ensures Size(r.value) + r.eliminated <= Size(e)
  {
    match e
    case Integer(_) => Rewritten(e, 0)
    case Var(_) => Rewritten(e, 0)
    case Sum(ts) =>
      var kept := ZerosInSummands(ts);
      if kept.value == [] && ts != [] then Rewritten(Zero, kept.eliminated)
      else Rewritten(Sum(kept.value), kept.eliminated)
    case Product(fs) =>
      var rewritten := ZerosInFactors(fs);
      if Zero in rewritten.value then Rewritten(Zero, rewritten.eliminated + 1)
      else Rewritten(Product(rewritten.value), rewritten.eliminated)
    case Pow(b, k) =>
      var rb := EliminateZeros(b);
      Rewritten(Pow(rb.value, k), rb.eliminated)
    case Sqrt(a) =>
      var ra := EliminateZeros(a);
      Rewritten(Sqrt(ra.value), ra.eliminated)
  }

  /** Rewrites the operand of one Sum edge, keeping its sign. */
  function ZerosInSummand(t: Summand): (r: Rewritten<Summand>)
    decreases t
    ensures r.value.negated == t.negated
    ensures ZeroFree(r.value.operand)
    ensures SummandSize(r.value) + r.eliminated <= SummandSize(t)
  {
    var o := EliminateZeros(t.operand);
    Rewritten(Summand(t.negated, o.value), o.eliminated)
  }

  /** Rewrites every edge of a Sum and drops those that became zero. */
  function ZerosInSummands(ts: seq<Summand>): (r: Rewritten<seq<Summand>>)
    decreases ts
    ensures SummandsZeroFree(r.value)
    ensures |r.value| <= |ts|
    ensures SummandsSize(r.value) + r.eliminated <= SummandsSize(ts)
  {
    if ts == [] then Rewritten([], 0)
    else
      var head := ZerosInSummand(ts[0]);
      var tail := ZerosInSummands(ts[1..]);
      if head.value.operand == Zero then
        Rewritten(tail.value, head.eliminated + 1 + tail.eliminated)
      else
        Rewritten([head.value] + tail.value, head.eliminated + tail.eliminated)
  }

  /** Rewrites every factor of a Product, keeping all of them in place. */
  function ZerosInFactors(fs: seq<Expr>): (r: Rewritten<seq<Expr>>)
    decreases fs
    ensures |r.value| == |fs|
    ensures FactorsZeroFree(r.value)
    ensures FactorsSize(r.value) + r.eliminated <= FactorsSize(fs)
  {
    if fs == [] then Rewritten([], 0)
    else
      var head := EliminateZeros(fs[0]);
      var tail := ZerosInFactors(fs[1..]);
      Rewritten([head.value] + tail.value, head.eliminated + tail.eliminated)
  }

  // ---------------------------------------------------------------------
  // A zero-free tree is a fixpoint of the pass.

  lemma {:induction false} ZeroFreeIsFixpoint(e: Expr)
    requires ZeroFree(e)
    ensures EliminateZeros(e) == Rewritten(e, 0)
    decreases e
  {
    match e
    case Integer(_) =>
    case Var(_) =>
    case Sum(ts) => SummandsFixpoint(ts);
    case Product(fs) => FactorsFixpoint(fs);
    case Pow(b, _) => ZeroFreeIsFixpoint(b);
    case Sqrt(a) => ZeroFreeIsFixpoint(a);
  }

  lemma {:induction false} SummandFixpoint(t: Summand)
    requires SummandZeroFree(t)
    ensures ZerosInSummand(t) == Rewritten(t, 0)
    decreases t
  {
    ZeroFreeIsFixpoint(t.operand);
  }

  lemma {:induction false} SummandsFixpoint(ts: seq<Summand>)
    requires SummandsZeroFree(ts)
    ensures ZerosInSummands(ts) == Rewritten(ts, 0)
    decreases ts
  {
    if ts != [] {
      SummandFixpoint(ts[0]);
      SummandsFixpoint(ts[1..]);
      assert [ts[0]] + ts[1..] == ts;
    }
  }

  lemma {:induction false} FactorsFixpoint(fs: seq<Expr>)
    requires FactorsZeroFree(fs)
    ensures ZerosInFactors(fs) == Rewritten(fs, 0)
    decreases fs
  {
    if fs != [] {
      ZeroFreeIsFixpoint(fs[0]);
      FactorsFixpoint(fs[1..]);
      assert [fs[0]] + fs[1..] == fs;
    }
  }

  // ---------------------------------------------------------------------
  // A count of zero means nothing changed.

  lemma {:induction false} NoEliminationMeansUnchanged(e: Expr)
    ensures EliminateZeros(e).eliminated == 0 ==> EliminateZeros(e).value == e
    decreases e
  {
    match e
    case Integer(_) =>
    case Var(_) =>
    case Sum(ts) => SummandsUnchanged(ts);
    case Product(fs) => FactorsUnchanged(fs);
    case Pow(b, _) => NoEliminationMeansUnchanged(b);
    case Sqrt(a) => NoEliminationMeansUnchanged(a);
  }

  lemma {:induction false} SummandUnchanged(t: Summand)
    ensures ZerosInSummand(t).eliminated == 0 ==> ZerosInSummand(t).value == t
    decreases t
  {
    NoEliminationMeansUnchanged(t.operand);
  }

  lemma {:induction false} SummandsUnchanged(ts: seq<Summand>)
    ensures ZerosInSummands(ts).eliminated == 0 ==> ZerosInSummands(ts).value == ts
    decreases ts
  {
    if ts != [] {
      SummandUnchanged(ts[0]);
      SummandsUnchanged(ts[1..]);
      assert [ts[0]] + ts[1..] == ts;
    }
  }

  lemma {:induction false} FactorsUnchanged(fs: seq<Expr>)
    ensures ZerosInFactors(fs).eliminated == 0 ==> ZerosInFactors(fs).value == fs
    decreases fs
  {
    if fs != [] {
      NoEliminationMeansUnchanged(fs[0]);
      FactorsUnchanged(fs[1..]);
      assert [fs[0]] + fs[1..] == fs;
    }
  }

  /** The pass reports no elimination exactly when the tree has no zero
      operand anywhere, and then it returns the tree unchanged. */
  lemma CountZeroIffZeroFree(e: Expr)
    ensures EliminateZeros(e).eliminated == 0 <==> ZeroFree(e)
    ensures EliminateZeros(e).eliminated == 0 <==> EliminateZeros(e).value == e
  {
    NoEliminationMeansUnchanged(e);
    if ZeroFree(e) {
      ZeroFreeIsFixpoint(e);
    }
  }

  /** Running the pass a second time eliminates nothing and changes nothing. */
  lemma Idempotent(e: Expr)
    ensures var once := EliminateZeros(e).value;
      EliminateZeros(once) == Rewritten(once, 0)
  {
    ZeroFreeIsFixpoint(EliminateZeros(e).value);
  }

  // ---------------------------------------------------------------------
  // The pass preserves the value of the tree under every valuation.

  lemma {:induction false} PreservesValue(e: Expr, val: Valuation)
    ensures Eval(EliminateZeros(e).value, val) == Eval(e, val)
    decreases e
  {
    match e
    case Integer(_) =>
    case Var(_) =>
    case Sum(ts) => SummandsPreserveValue(ts, val);
    case Product(fs) =>
      FactorsPreserveValue(fs, val);
      var rewritten := ZerosInFactors(fs).value;
      if Zero in rewritten {
        ZeroFactorAnnihilates(rewritten, val);
      }
    case Pow(b, _) => PreservesValue(b, val);
    case Sqrt(a) => PreservesValue(a, val);
  }

  lemma {:induction false} SummandPreservesValue(t: Summand, val: Valuation)
    ensures SummandValue(ZerosInSummand(t).value, val) == SummandValue(t, val)
    decreases t
  {
    PreservesValue(t.operand, val);
  }

  lemma {:induction false} SummandsPreserveValue(ts: seq<Summand>, val: Valuation)
    ensures SumOf(ZerosInSummands(ts).value, val) == SumOf(ts, val)
    decreases ts
  {
    if ts != [] {
      SummandPreservesValue(ts[0], val);
      SummandsPreserveValue(ts[1..], val);
      var head := ZerosInSummand(ts[0]).value;
      var tail := ZerosInSummands(ts[1..]).value;
      if head.operand != Zero {
        assert ([head] + tail)[1..] == tail;
      }
    }
  }

  lemma {:induction false} FactorsPreserveValue(fs: seq<Expr>, val: Valuation)
    ensures ProductOf(ZerosInFactors(fs).value, val) == ProductOf(fs, val)
    decreases fs
  {
    if fs != [] {
      PreservesValue(fs[0], val);
      FactorsPreserveValue(fs[1..], val);
      var head := EliminateZeros(fs[0]).value;
      var tail := ZerosInFactors(fs[1..]).value;
      assert ([head] + tail)[1..] == tail;
    }
  }

  // ---------------------------------------------------------------------
  // The neutral-element cases the pass exists for.

  /** A factor that rewrites to zero leaves a zero among the rewritten
      factors... */
  lemma {:induction false} ZeroFactorSurvives(fs: seq<Expr>)
    requires exists i :: 0 <= i < |fs| && EliminateZeros(fs[i]).value == Zero
    ensures Zero in ZerosInFactors(fs).value
    decreases fs
  {
    if EliminateZeros(fs[0]).value != Zero {
      var i :| 0 <= i < |fs| && EliminateZeros(fs[i]).value == Zero;
      assert fs[1..][i - 1] == fs[i];
      ZeroFactorSurvives(fs[1..]);
    }
  }

  /** ...so a Product one of whose factors rewrites to zero collapses to the
      zero constant, whatever its other factors are. */
  lemma ProductWithVanishingFactorCollapses(fs: seq<Expr>)
    requires exists i :: 0 <= i < |fs| && EliminateZeros(fs[i]).value == Zero
    ensures EliminateZeros(Product(fs)).value == Zero
    ensures EliminateZeros(Product(fs)).eliminated >= 1
  {
    ZeroFactorSurvives(fs);
  }

  /** In particular a Product with the zero constant as a factor collapses. */
  lemma ProductWithZeroCollapses(fs: seq<Expr>)
    requires Zero in fs
    ensures EliminateZeros(Product(fs)).value == Zero
    ensures EliminateZeros(Product(fs)).eliminated >= 1
  {
    var i :| 0 <= i < |fs| && fs[i] == Zero;
    assert EliminateZeros(fs[i]).value == Zero;
    ProductWithVanishingFactorCollapses(fs);
  }

  /** Every summand of the Sum is zero after rewriting: the Sum is replaced by
      the zero constant. */
  lemma {:induction false} ZeroSummandsAllDropped(ts: seq<Summand>)
    requires forall i :: 0 <= i < |ts| ==> EliminateZeros(ts[i].operand).value == Zero
    ensures ZerosInSummands(ts).value == []
    ensures ZerosInSummands(ts).eliminated >= |ts|
    decreases ts
  {
    if ts != [] {
      assert EliminateZeros(ts[0].operand).value == Zero;
      ZeroSummandsAllDropped(ts[1..]);
    }
  }

  lemma SumOfZerosBecomesZero(ts: seq<Summand>)
    requires ts != []
    requires forall i :: 0 <= i < |ts| ==> EliminateZeros(ts[i].operand).value == Zero
    ensures EliminateZeros(Sum(ts)).value == Zero
    ensures EliminateZeros(Sum(ts)).eliminated >= |ts|
  {
    ZeroSummandsAllDropped(ts);
  }

  /** The binary `+` and `*` are zero-free exactly when neither operand is
      the zero constant and both operands are zero-free. */
  lemma AddZeroFree(a: Expr, b: Expr)
    ensures ZeroFree(Add(a, b)) <==> a != Zero && ZeroFree(a) && b != Zero && ZeroFree(b)
  {
    var ts := [Summand(false, a), Summand(false, b)];
    assert ts[1..] == [Summand(false, b)];
    assert ts[1..][1..] == [];
    assert SummandsZeroFree(ts[1..]) == SummandZeroFree(ts[1]);
    assert ZeroFree(Add(a, b)) == (SummandZeroFree(ts[0]) && SummandsZeroFree(ts[1..]));
  }

  lemma MulZeroFree(a: Expr, b: Expr)
    ensures ZeroFree(Mul(a, b)) <==> a != Zero && ZeroFree(a) && b != Zero && ZeroFree(b)
  {
    var fs := [a, b];
    assert fs[1..] == [b];
    assert fs[1..][1..] == [];
    assert FactorsZeroFree(fs[1..]) == ZeroFree(b);
    assert ZeroFree(Mul(a, b)) == (Zero !in fs && ZeroFree(a) && FactorsZeroFree(fs[1..]));
  }

  /** Adding the zero constant on either side is eliminated at least once and
      leaves the value of the other operand. */
  lemma ZeroSummandEliminated(s: Expr, val: Valuation)
    ensures EliminateZeros(Add(s, Zero)).eliminated >= 1
    ensures Eval(EliminateZeros(Add(s, Zero)).value, val) == Eval(s, val)
    ensures EliminateZeros(Add(Zero, s)).eliminated >= 1
    ensures Eval(EliminateZeros(Add(Zero, s)).value, val) == Eval(s, val)
  {
    AddZeroFree(s, Zero);
    AddZeroFree(Zero, s);
    CountZeroIffZeroFree(Add(s, Zero));
    CountZeroIffZeroFree(Add(Zero, s));
    PreservesValue(Add(s, Zero), val);
    PreservesValue(Add(Zero, s), val);
    AddValue(s, Zero, val);
    AddValue(Zero, s, val);
  }
}
