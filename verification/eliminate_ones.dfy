/**
  EliminateOnes: the rewrite pass that removes the multiplicative one from
  the function tree, children first:
  - a Product factor whose rewritten form is the one constant is dropped, and
    every drop counts one elimination; a Product that loses all of its
    factors is replaced by the one constant;
  - Sums, powers and square roots are traversed, never shortened;
  - a lone constant is never eliminated: it comes back unchanged with
    count 0. A Product the pass is called on may itself come back as the one
    constant; the original edits that node in place instead, with the same
    count and the same value.
  One is recognised structurally (a constant holding 1), never by evaluating.
 */
module OneElimination {
  import opened Expressions

  /** No Product anywhere in the tree has the one constant as a factor: the
      trees on which the pass has nothing to do. */
  predicate OneFree(e: Expr)
    decreases e
  {
    match e
    case Integer(_) => true
    case Var(_) => true
    case Sum(ts) => SummandsOneFree(ts)
    case Product(fs) => FactorsOneFree(fs)
    case Pow(b, _) => OneFree(b)
    case Sqrt(a) => OneFree(a)
  }

  predicate SummandOneFree(t: Summand)
    decreases t
  {
    OneFree(t.operand)
  }

  predicate SummandsOneFree(ts: seq<Summand>)
    decreases ts
  {
    ts == [] || (SummandOneFree(ts[0]) && SummandsOneFree(ts[1..]))
  }

  predicate FactorsOneFree(fs: seq<Expr>)
    decreases fs
  {
    fs == [] || (fs[0] != One && OneFree(fs[0]) && FactorsOneFree(fs[1..]))
  }

  function EliminateOnes(e: Expr): (r: Rewritten<Expr>)
    decreases e
    ensures OneFree(r.value)
    ensures Size(r.value) + r.eliminated <= Size(e)
  {
    match e
    case Integer(_) => Rewritten(e, 0)
    case Var(_) => Rewritten(e, 0)
    case Sum(ts) =>
      var rewritten := OnesInSummands(ts);
      Rewritten(Sum(rewritten.value), rewritten.eliminated)
    case Product(fs) =>
      var kept := OnesInFactors(fs);
      if kept.value == [] && fs != [] then Rewritten(One, kept.eliminated)
      else Rewritten(Product(kept.value), kept.eliminated)
    case Pow(b, k) =>
      var rb := EliminateOnes(b);
      Rewritten(Pow(rb.value, k), rb.eliminated)
    case Sqrt(a) =>
      var ra := EliminateOnes(a);
      Rewritten(Sqrt(ra.value), ra.eliminated)
  }

  /** Rewrites the operand of one Sum edge, keeping its sign. */
  function OnesInSummand(t: Summand): (r: Rewritten<Summand>)
    decreases t
    ensures r.value.negated == t.negated
    ensures OneFree(r.value.operand)
    ensures SummandSize(r.value) + r.eliminated <= SummandSize(t)
  {
    var o := EliminateOnes(t.operand);
    Rewritten(Summand(t.negated, o.value), o.eliminated)
  }

  /** Rewrites every edge of a Sum, keeping all of them in place. */
  function OnesInSummands(ts: seq<Summand>): (r: Rewritten<seq<Summand>>)
    decreases ts
    ensures |r.value| == |ts|
    ensures SummandsOneFree(r.value)
    ensures SummandsSize(r.value) + r.eliminated <= SummandsSize(ts)
  {
    if ts == [] then Rewritten([], 0)
    else
      var head := OnesInSummand(ts[0]);
      var tail := OnesInSummands(ts[1..]);
      Rewritten([head.value] + tail.value, head.eliminated + tail.eliminated)
  }

  /** Rewrites every factor of a Product and drops those that became one. */
  function OnesInFactors(fs: seq<Expr>): (r: Rewritten<seq<Expr>>)
    decreases fs
    ensures |r.value| <= |fs|
    ensures FactorsOneFree(r.value)
    ensures FactorsSize(r.value) + r.eliminated <= FactorsSize(fs)
  {
    if fs == [] then Rewritten([], 0)
    else
      var head := EliminateOnes(fs[0]);
      var tail := OnesInFactors(fs[1..]);
      if head.value == One then
        Rewritten(tail.value, head.eliminated + 1 + tail.eliminated)
      else
        Rewritten([head.value] + tail.value, head.eliminated + tail.eliminated)
  }

  // ---------------------------------------------------------------------
  // A one-free tree is a fixpoint of the pass.

  lemma {:induction false} OneFreeIsFixpoint(e: Expr)
    requires OneFree(e)
    ensures EliminateOnes(e) == Rewritten(e, 0)
    decreases e
  {
    match e
    case Integer(_) =>
    case Var(_) =>
    case Sum(ts) => SummandsFixpoint(ts);
    case Product(fs) => FactorsFixpoint(fs);
    case Pow(b, _) => OneFreeIsFixpoint(b);
    case Sqrt(a) => OneFreeIsFixpoint(a);
  }

  lemma {:induction false} SummandFixpoint(t: Summand)
    requires SummandOneFree(t)
    ensures OnesInSummand(t) == Rewritten(t, 0)
    decreases t
  {
    OneFreeIsFixpoint(t.operand);
  }

  lemma {:induction false} SummandsFixpoint(ts: seq<Summand>)
    requires SummandsOneFree(ts)
    ensures OnesInSummands(ts) == Rewritten(ts, 0)
    decreases ts
  {
    if ts != [] {
      SummandFixpoint(ts[0]);
      SummandsFixpoint(ts[1..]);
      assert [ts[0]] + ts[1..] == ts;
    }
  }

  lemma {:induction false} FactorsFixpoint(fs: seq<Expr>)
    requires FactorsOneFree(fs)
    ensures OnesInFactors(fs) == Rewritten(fs, 0)
    decreases fs
  {
    if fs != [] {
      OneFreeIsFixpoint(fs[0]);
      FactorsFixpoint(fs[1..]);
      assert [fs[0]] + fs[1..] == fs;
    }
  }

  // ---------------------------------------------------------------------
  // A count of zero means nothing changed.

  lemma {:induction false} NoEliminationMeansUnchanged(e: Expr)
    ensures EliminateOnes(e).eliminated == 0 ==> EliminateOnes(e).value == e
    decreases e
  {
    match e
    case Integer(_) =>
    case Var(_) =>
    case Sum(ts) => SummandsUnchanged(ts);
    case Product(fs) => FactorsUnchanged(fs);
    case Pow(b, _) => NoEliminationMeansUnchanged(b);
    case Sqrt(a) => NoEliminationMeansUnchanged(a);
  }

  lemma {:induction false} SummandUnchanged(t: Summand)
    ensures OnesInSummand(t).eliminated == 0 ==> OnesInSummand(t).value == t
    decreases t
  {
    NoEliminationMeansUnchanged(t.operand);
  }

  lemma {:induction false} SummandsUnchanged(ts: seq<Summand>)
    ensures OnesInSummands(ts).eliminated == 0 ==> OnesInSummands(ts).value == ts
    decreases ts
  {
    if ts != [] {
      SummandUnchanged(ts[0]);
      SummandsUnchanged(ts[1..]);
      assert [ts[0]] + ts[1..] == ts;
    }
  }

  lemma {:induction false} FactorsUnchanged(fs: seq<Expr>)
    ensures OnesInFactors(fs).eliminated == 0 ==> OnesInFactors(fs).value == fs
    decreases fs
  {
    if fs != [] {
      NoEliminationMeansUnchanged(fs[0]);
      FactorsUnchanged(fs[1..]);
      assert [fs[0]] + fs[1..] == fs;
    }
  }

  /** The pass reports no elimination exactly when no Product in the tree has
      a one factor, and then it returns the tree unchanged. */
  lemma CountZeroIffOneFree(e: Expr)
    ensures EliminateOnes(e).eliminated == 0 <==> OneFree(e)
    ensures EliminateOnes(e).eliminated == 0 <==> EliminateOnes(e).value == e
  {
    NoEliminationMeansUnchanged(e);
    if OneFree(e) {
      OneFreeIsFixpoint(e);
    }
  }

  /** Running the pass a second time eliminates nothing and changes nothing. */
  lemma Idempotent(e: Expr)
    ensures var once := EliminateOnes(e).value;
      EliminateOnes(once) == Rewritten(once, 0)
  {
    OneFreeIsFixpoint(EliminateOnes(e).value);
  }

  // ---------------------------------------------------------------------
  // The pass preserves the value of the tree under every valuation.

  lemma {:induction false} PreservesValue(e: Expr, val: Valuation)
    ensures Eval(EliminateOnes(e).value, val) == Eval(e, val)
    decreases e
  {
    match e
    case Integer(_) =>
    case Var(_) =>
    case Sum(ts) => SummandsPreserveValue(ts, val);
    case Product(fs) => FactorsPreserveValue(fs, val);
    case Pow(b, _) => PreservesValue(b, val);
    case Sqrt(a) => PreservesValue(a, val);
  }

  lemma {:induction false} SummandPreservesValue(t: Summand, val: Valuation)
    ensures SummandValue(OnesInSummand(t).value, val) == SummandValue(t, val)
    decreases t
  {
    PreservesValue(t.operand, val);
  }

  lemma {:induction false} SummandsPreserveValue(ts: seq<Summand>, val: Valuation)
    ensures SumOf(OnesInSummands(ts).value, val) == SumOf(ts, val)
    decreases ts
  {
    if ts != [] {
      SummandPreservesValue(ts[0], val);
      SummandsPreserveValue(ts[1..], val);
      var head := OnesInSummand(ts[0]).value;
      var tail := OnesInSummands(ts[1..]).value;
      assert ([head] + tail)[1..] == tail;
    }
  }

  lemma {:induction false} FactorsPreserveValue(fs: seq<Expr>, val: Valuation)
    ensures ProductOf(OnesInFactors(fs).value, val) == ProductOf(fs, val)
    decreases fs
  {
    if fs != [] {
      PreservesValue(fs[0], val);
      FactorsPreserveValue(fs[1..], val);
      var head := EliminateOnes(fs[0]).value;
      var tail := OnesInFactors(fs[1..]).value;
      if head != One {
        assert ([head] + tail)[1..] == tail;
      }
    }
  }

  // ---------------------------------------------------------------------
  // The neutral-element cases the pass exists for.

  /** Every factor of the Product is one after rewriting: the Product is
      replaced by the one constant. */
  lemma {:induction false} OneFactorsAllDropped(fs: seq<Expr>)
    requires forall i :: 0 <= i < |fs| ==> EliminateOnes(fs[i]).value == One
    ensures OnesInFactors(fs).value == []
    ensures OnesInFactors(fs).eliminated >= |fs|
    decreases fs
  {
    if fs != [] {
      assert EliminateOnes(fs[0]).value == One;
      OneFactorsAllDropped(fs[1..]);
    }
  }

  lemma ProductOfOnesBecomesOne(fs: seq<Expr>)
    requires fs != []
    requires forall i :: 0 <= i < |fs| ==> EliminateOnes(fs[i]).value == One
    ensures EliminateOnes(Product(fs)).value == One
    ensures EliminateOnes(Product(fs)).eliminated >= |fs|
  {
    OneFactorsAllDropped(fs);
  }

  /** Multiplying by the one constant on either side is eliminated at least
      once and leaves the value of the other factor. */
  lemma OneFactorEliminated(s: Expr, val: Valuation)
    ensures EliminateOnes(Mul(s, One)).eliminated >= 1
    ensures Eval(EliminateOnes(Mul(s, One)).value, val) == Eval(s, val)
    ensures EliminateOnes(Mul(One, s)).eliminated >= 1
    ensures Eval(EliminateOnes(Mul(One, s)).value, val) == Eval(s, val)
  {
    var right := [s, One];
    var left := [One, s];
    assert right[1..] == [One];
    assert left[1..] == [s];
    assert right[1..][1..] == [] && left[1..][1..] == [];
    assert !FactorsOneFree(right[1..]);
    CountZeroIffOneFree(Mul(s, One));
    CountZeroIffOneFree(Mul(One, s));
    PreservesValue(Mul(s, One), val);
    PreservesValue(Mul(One, s), val);
    assert ProductOf(right[1..], val) == 1;
    assert ProductOf(left[1..], val) == Eval(s, val);
    assert Eval(Mul(s, One), val) == ProductOf(right, val) == Eval(s, val) * ProductOf(right[1..], val);
  }
}
