# Bertini 2 function tree: neutral-element rewrites and variable slots

This project models two pieces of the Bertini 2 expression-tree engine in
Dafny and proves properties of them.

1. **The rewrite passes `EliminateZeros` and `EliminateOnes`.** A tree
   (`Expressions.Expr`) is built from integer constants, variables, n-ary
   Sums with a sign on every edge, n-ary Products, `pow(e, k)` and `sqrt(e)`.
   Each pass works children first and returns the rewritten tree together
   with the number of eliminations (`Rewritten<Expr>`).
   - `EliminateZeros` drops every Sum edge whose operand has become the
     zero constant. A Sum that loses all its edges is replaced by zero. A
     Product with a zero factor collapses to zero.
   - `EliminateOnes` drops every Product factor that has become the one
     constant. A Product that loses all its factors is replaced by one.
   - A lone constant is never eliminated: called on the zero (or one)
     constant itself, a pass returns it with count 0. A Sum or Product the
     pass is called on can come back as the neutral constant (see below).
   - Zero and one are recognised structurally, as constants, never by
     evaluation.

   `Eval` gives the meaning of a tree over the integers. A `Valuation`
   supplies the value of each variable, looked up by name, and the square
   root, which stays uninterpreted. A constant is its integer; a Sum adds
   its operands, subtracting the negated ones, and an empty Sum is 0; a
   Product multiplies its factors, and an empty Product is 1; `pow(e, k)`
   takes a natural-number exponent and is `e` multiplied by itself `k`
   times (1 when `k` is 0); `sqrt(e)` applies the valuation's square root.
   `Add` and `Mul` build the binary Sum and Product that the `+` and `*`
   operators of the tests build; `AddValue` and `MulValue` state their
   values.
2. **The per-precision value slots of `Variable`.** A variable holds a name
   and one `(value, flag)` pair for each numeric type: double (`dbl`) and
   multiple precision (`mpfr`). The two number types are type parameters
   that the model does not interpret. `SetCurrentValue` writes the pair of
   the value's own type and clears its flag. `FreshEval` reads the value
   stored for the requested type.

The implementation of the two passes is not part of this model. The unit
tests in `core/test/classes/function_tree_transform.cpp` fix what a caller
observes:
- on a lone zero or one constant the count is 0 and the value is unchanged
  (lines 63-78, 219-234);
- on the trees of lines 81-189, each holding a zero summand or a zero
  factor, the count is at least 1 and the value is unchanged.

The rest is this model's own reading of the passes: they run children
first, a Sum drops zero edges, a Product with a zero factor collapses, the
count adds up over the whole tree, and a second run eliminates nothing. The
rows for `ZeroElimination.Idempotent` and for the general `OneElimination`
lemmas state such properties of the modelled passes; the lines they cite are
the tests of that pass, which do not exercise the property themselves.

The original edits shared nodes in place and never changes a node's type.
Here an emptied Sum and a collapsed Product are *replaced* by the neutral
constant in the returned tree. This is the value a parent substitutes for
its edge. At the root, the caller sees the same value through `Eval`.

`variable.hpp:70-78` returns the `.first` of the slot without consulting
its `.second`, so reading a slot that was never set returns whatever the
slot holds rather than signalling an error. `Variables.FreshEval` does the
same (`Variables.FreshEvalIgnoresFlag`).

Files:
- `expressions.dfy`: module `Expressions`, covering the tree, the binary
  `+`/`*` construction, `Eval` and `Size`.
- `eliminate_zeros.dfy`: module `ZeroElimination`.
- `eliminate_ones.dfy`: module `OneElimination`.
- `transform_tests.dfy`: module `TransformTests`, the unit-test scenarios
  stated for every valuation.
- `variable.dfy`: module `Variables`.

## Model

| member | source | states |
|---|---|---|
| ZeroElimination.EliminateZeros | core/test/classes/function_tree_transform.cpp:81-189 | After the pass, no Sum or Product anywhere in the tree has the zero constant as an operand. The result's node count plus the number of eliminations never exceeds the input's node count, so every elimination shrinks the tree. |
| ZeroElimination.CountZeroIffZeroFree | core/test/classes/function_tree_transform.cpp:63-189 | The pass reports 0 eliminations exactly when no Sum or Product has a zero operand. It reports 0 exactly when it returns the tree unchanged. Otherwise it reports at least one. |
| ZeroElimination.ZeroFreeIsFixpoint | core/test/classes/function_tree_transform.cpp:63-78 | A tree with no zero operand, a lone zero constant among them, comes back unchanged with count 0: a lone constant is never eliminated. |
| ZeroElimination.Idempotent | core/test/classes/function_tree_transform.cpp:81-88 | Running the pass on its own result eliminates nothing and changes nothing (a property of the modelled pass; the test runs it once). |
| ZeroElimination.PreservesValue | core/test/classes/function_tree_transform.cpp:142-189 | The rewritten tree has the same value as the original under every valuation of the variables and every square root. |
| ZeroElimination.ProductWithZeroCollapses | core/test/classes/function_tree_transform.cpp:112-138 | A Product with the zero constant among its factors becomes the zero constant, whatever the other factors are, with at least one elimination. |
| ZeroElimination.ProductWithVanishingFactorCollapses | core/test/classes/function_tree_transform.cpp:159-172 | A Product collapses to zero as soon as one factor rewrites to zero, including a zero buried in nested products. |
| ZeroElimination.SumOfZerosBecomesZero | core/test/classes/function_tree_transform.cpp:81-108 | A non-empty Sum whose every operand rewrites to zero is replaced by the zero constant. At least one elimination is counted per edge. |
| ZeroElimination.ZeroSummandEliminated | core/test/classes/function_tree_transform.cpp:91-108 | `s + 0` and `0 + s` each report at least one elimination for any `s`, and evaluate to the value of `s`. |
| ZeroElimination.AddZeroFree | core/test/classes/function_tree_transform.cpp:81-108 | A binary Sum has nothing for the pass to do exactly when neither operand is zero and both operands have nothing to do. |
| ZeroElimination.MulZeroFree | core/test/classes/function_tree_transform.cpp:112-138 | The same characterisation holds for a binary Product. |
| OneElimination.EliminateOnes | core/test/classes/function_tree_transform.cpp:217-237 | After the pass, no Product anywhere in the tree has the one constant as a factor. The result's node count plus the number of eliminations never exceeds the input's node count. |
| OneElimination.CountZeroIffOneFree | core/test/classes/function_tree_transform.cpp:219-234 | The pass reports 0 eliminations exactly when no Product has a one factor, and exactly when it returns the tree unchanged. |
| OneElimination.OneFreeIsFixpoint | core/test/classes/function_tree_transform.cpp:219-234 | A tree with no one factor, a lone one constant among them, comes back unchanged with count 0. |
| OneElimination.Idempotent | core/test/classes/function_tree_transform.cpp:219-234 | Running the pass on its own result eliminates nothing and changes nothing. (a property of the modelled pass; the ones tests exercise only a lone one) |
| OneElimination.PreservesValue | core/test/classes/function_tree_transform.cpp:219-234 | The rewritten tree has the same value as the original under every valuation. (a property of the modelled pass; the ones tests exercise only a lone one) |
| OneElimination.ProductOfOnesBecomesOne | core/test/classes/function_tree_transform.cpp:217-237 | A non-empty Product whose every factor rewrites to one is replaced by the one constant. At least one elimination is counted per factor. (a property of the modelled pass; the ones tests exercise only a lone one) |
| OneElimination.OneFactorEliminated | core/test/classes/function_tree_transform.cpp:217-237 | `s * 1` and `1 * s` each report at least one elimination for any `s`, and evaluate to the value of `s`. (a property of the modelled pass; the ones tests exercise only a lone one) |
| Expressions.AddValue | core/test/classes/function_tree_transform.cpp:84 | The Sum the binary `+` builds evaluates to the sum of its two operands' values. |
| Expressions.MulValue | core/test/classes/function_tree_transform.cpp:115 | The Product the binary `*` builds evaluates to the product of its two factors' values. |
| TransformTests.CantEliminateZeroSelf | core/test/classes/function_tree_transform.cpp:63-78 | EliminateZeros on a lone zero returns it with count 0, and it evaluates to 0. |
| TransformTests.EliminateSingleZeroSum | core/test/classes/function_tree_transform.cpp:81-108 | `zero+zero`, `zero+0` and `0+zero` are the same tree. It reports at least one elimination, becomes the zero constant and evaluates to 0. |
| TransformTests.EliminateZeroProduct | core/test/classes/function_tree_transform.cpp:112-138 | `1*zero` and `zero*zero` each report at least one elimination, become the zero constant and evaluate to 0. |
| TransformTests.EliminateZeroSumZeroSummand | core/test/classes/function_tree_transform.cpp:142-155 | `pow(x,2) + zero*2` with x = 2 reports at least one elimination and evaluates to 4. |
| TransformTests.EliminateZeroSumZeroSummand2 | core/test/classes/function_tree_transform.cpp:159-172 | `pow(x,2) + x*zero*2*(x*x*x)` with x = 2 reports at least one elimination and evaluates to 4. |
| TransformTests.EliminateZeroInSumLevel2 | core/test/classes/function_tree_transform.cpp:174-189 | `(x + sqrt(x) + zero) + x*2*(x*x*x)` with x = 2 reports at least one elimination. Its result has the value of `(x + sqrt(x)) + x*2*(x*x*x)`, namely 34 + sqrt(2). |
| TransformTests.CantEliminateOneSelf | core/test/classes/function_tree_transform.cpp:219-234 | EliminateOnes on a lone one returns it with count 0, and it evaluates to 1. |
| Variables.SetCurrentValue | b2Test/Brake_Function_and_Parser/function_tree/symbols/variable.hpp:55-60 | Setting a value stores it in the slot of its own precision and clears that slot's flag. The other precision's slot and the name stay as they were. |
| Variables.FreshEval | b2Test/Brake_Function_and_Parser/function_tree/symbols/variable.hpp:70-78 | Reading in precision p gives exactly the value stored in that precision's slot (the `.first` of the pair), as a value of precision p. |
| Variables.SetThenFreshEval | b2Test/Brake_Function_and_Parser/function_tree/symbols/variable.hpp:56-78 | After a value is set, reading in its precision returns exactly that value, and that slot's flag is false. |
| Variables.SetLeavesOtherPrecision | b2Test/Brake_Function_and_Parser/function_tree/symbols/variable.hpp:56-60 | Setting a value in one precision leaves what the other precision reads, and its flag, unchanged. |
| Variables.LastSetWins | b2Test/Brake_Function_and_Parser/function_tree/symbols/variable.hpp:56-60 | Of two values set in the same precision, the second one is all that remains. |
| Variables.SetsInDifferentPrecisionsCommute | b2Test/Brake_Function_and_Parser/function_tree/symbols/variable.hpp:56-60 | Values set in different precisions give the same variable in either order. |
| Variables.FreshEvalIgnoresFlag | b2Test/Brake_Function_and_Parser/function_tree/symbols/variable.hpp:70-78 | What FreshEval returns does not depend on either flag. |
| Variables.PrintNodeIsName | b2Test/Brake_Function_and_Parser/function_tree/symbols/variable.hpp:48-50 | PrintNode and the string conversion both return the variable's name, and setting a value does not change it. |

## Left out

- The cached `Eval<T>`, its per-node cache and the generation counter live in the Node and Symbol base classes, which are not part of this model. Only `FreshEval` is modelled.
- The `Variable` constructors are left out. The initial contents of the slots come from those base classes.
- Floating point and mpfr arithmetic are left out. Values are integers, `sqrt` is a parameter of the valuation, and the two precisions' number types are type parameters.
- Shared nodes and in-place mutation are left out. The tree is an immutable value, and a shared child is repeated.
- Variables hold no value inside the tree: `Eval` looks a variable's value up by name in the valuation, so two distinct variable nodes with the same name share one value, whereas the source keeps the value inside each node (variable.hpp:58). The passes never inspect variables, so nothing they do depends on this.
- Division is left out, and with it Product edges with exponent -1 and `pow` with a negative or non-integer exponent. Integers form a ring, not a field.
- Transcendental functions other than `sqrt`, and non-integer constants, are not in the tree.
- Printing the tree to `std::cout`, the Boost.Test harness and the Boost.Spirit parser are left out.
- ZeroElimination.EliminateZeros: when the Sum or Product it is called on empties or collapses, that root is replaced by the zero constant in the returned tree instead of being edited in place. The two things a caller can observe, the count and the value under `Eval`, are the same as for the in-place edit.
- OneElimination.EliminateOnes: likewise, a Product it is called on that loses all its factors is replaced by the one constant instead of being edited in place; the count and the value under `Eval` are the same.
- ZeroElimination.EliminateZeros: the exact count is this model's choice: one per dropped Sum edge plus one per collapsed Product. The tests only fix `== 0` or `>= 1`, and the contracts promise no more than that, plus the bound by the size of the tree.
- OneElimination.EliminateOnes: the exact count, one per dropped factor, is likewise this model's choice. The contracts promise only zero versus at least one, plus the size bound.
- TransformTests.EliminateZeroInSumLevel2: states the value as 34 + sqrt(2) for any square root over the integers, not as the double 35.414213562373095…. The exact double depends on floating-point rounding and summation order.
