/**
  The Variable leaf of the function tree: a name and, for every numeric type
  the tree can be evaluated in, one (value, flag) pair. Setting a value for
  one type writes that type's pair only; reading a variable in one type
  returns that type's stored value.
 */
module Variables {

  /** The numeric types of the tree: double precision and multiple precision. */
  datatype Precision = Dbl | Mpfr

  /** A number of one of those types; D stands for the double type and M for
      the multiple-precision type, neither of which the model interprets. */
  datatype Value<D, M> = DblValue(d: D) | MpfrValue(m: M) {
    /** The type the number belongs to, which selects the slot it goes in. */
    function Kind(): Precision {
      if DblValue? then Dbl else Mpfr
    }
  }

  /** One pair of the per-type tuple: the stored value and its flag. */
  datatype Slot<T> = Slot(value: T, flag: bool)

  datatype Variable<D, M> = Variable(name: string, dbl: Slot<D>, mpfr: Slot<M>)

  /** The printed form of the node: the variable's name. */
  function PrintNode<D, M>(v: Variable<D, M>): string {
    v.name
  }

  /** The explicit conversion to a string: the variable's name as well. */
  function AsString<D, M>(v: Variable<D, M>): string {
    v.name
  }

  /** The flag of the slot for precision p. */
  function Flag<D, M>(v: Variable<D, M>, p: Precision): bool {
    match p
    case Dbl => v.dbl.flag
    case Mpfr => v.mpfr.flag
  }

  /** Stores x in the slot of x's own type and clears that slot's flag. */
  function SetCurrentValue<D, M>(v: Variable<D, M>, x: Value<D, M>): (r: Variable<D, M>)
    ensures r.name == v.name
    ensures x.DblValue? ==> r.dbl == Slot(x.d, false) && r.mpfr == v.mpfr
    ensures x.MpfrValue? ==> r.mpfr == Slot(x.m, false) && r.dbl == v.dbl
  {
    match x
    case DblValue(d) => v.(dbl := Slot(d, false))
    case MpfrValue(m) => v.(mpfr := Slot(m, false))
  }

  /** The value of the variable in precision p: the value stored in that
      slot, read without looking at the flag. */
  function FreshEval<D, M>(v: Variable<D, M>, p: Precision): (r: Value<D, M>)
    ensures r.Kind() == p
    ensures p == Dbl ==> r == DblValue(v.dbl.value)
    ensures p == Mpfr ==> r == MpfrValue(v.mpfr.value)
  {
    match p
    case Dbl => DblValue(v.dbl.value)
    case Mpfr => MpfrValue(v.mpfr.value)
  }

  // ---------------------------------------------------------------------

  /** Reading a variable back in the type just set returns the value set,
      and the flag of that slot is cleared. */
  lemma SetThenFreshEval<D, M>(v: Variable<D, M>, x: Value<D, M>)
    ensures FreshEval(SetCurrentValue(v, x), x.Kind()) == x
    ensures !Flag(SetCurrentValue(v, x), x.Kind())
  {
  }

  /** Setting a value in one type leaves the other type's value and flag
      exactly as they were. */
  lemma SetLeavesOtherPrecision<D, M>(v: Variable<D, M>, x: Value<D, M>, p: Precision)
    requires p != x.Kind()
    ensures FreshEval(SetCurrentValue(v, x), p) == FreshEval(v, p)
    ensures Flag(SetCurrentValue(v, x), p) == Flag(v, p)
  {
  }

  /** The second of two values set in the same type is the one that stays. */
  lemma LastSetWins<D, M>(v: Variable<D, M>, x: Value<D, M>, y: Value<D, M>)
    requires x.Kind() == y.Kind()
    ensures SetCurrentValue(SetCurrentValue(v, x), y) == SetCurrentValue(v, y)
  {
  }

  /** Values set in different types do not interfere, in either order. */
  lemma SetsInDifferentPrecisionsCommute<D, M>(v: Variable<D, M>, x: Value<D, M>, y: Value<D, M>)
    requires x.Kind() != y.Kind()
    ensures SetCurrentValue(SetCurrentValue(v, x), y) == SetCurrentValue(SetCurrentValue(v, y), x)
  {
  }

  /** The flag does not influence what FreshEval returns. */
  lemma FreshEvalIgnoresFlag<D, M>(v: Variable<D, M>, p: Precision, b: bool)
    ensures FreshEval(v.(dbl := v.dbl.(flag := b)), p) == FreshEval(v, p)
    ensures FreshEval(v.(mpfr := v.mpfr.(flag := b)), p) == FreshEval(v, p)
  {
  }

  /** Printing and string conversion both give the name, before and after a
      value is set. */
  lemma PrintNodeIsName<D, M>(v: Variable<D, M>, x: Value<D, M>)
    ensures PrintNode(v) == AsString(v) == v.name
    ensures PrintNode(SetCurrentValue(v, x)) == PrintNode(v)
    ensures AsString(SetCurrentValue(v, x)) == AsString(v)
  {
  }
}
