# Folds, monoids and the list monad of a functional template library

This project models the runtime behaviour of the sequence operations of a
header-only C++ library that retrofits Haskell-style typeclasses (Monoid,
Foldable, Functor, Monad) onto standard containers. Beneath its compile-time
dispatch, each operation is a small pure function over a finite sequence.
The model writes them as Dafny functions and methods over `seq<T>` that take
function-valued parameters. It then proves the laws and worked examples the
library documents.

- `monoids.dfy` (module `Monoids`): a monoid is an explicit record
  `Monoid(id, append)`, passed as a parameter where the library uses template
  specialisation. The laws are the ghost predicate `IsMonoid`. The integer sum
  and product monoids used by the library's examples are defined here directly.
- `foldable.dfy` (module `Foldable`): the reference left and right folds, and
  the inheritable default implementations. These are `foldl` (a read-only and a
  consuming overload), `foldMap` built from `foldl` and a monoid, and `fold`
  built from `foldMap` with the identity function.
- `forward_list.dfy` (module `ForwardList`): the singly-linked-list instances.
  - The list monoid: the empty list, one copying `append` and three splicing ones.
  - The recursive `foldr` over successive tails.
  - `pure`, the three `map` overloads, `concatMap` and `bind`.

A list is modelled by the sequence of its elements, front first. Node links,
iterators, splicing and move semantics are not modelled; only the sequences
the operations produce are. Overloads that differ in how they build the
result (copy and insert versus splice; copy versus consume versus overwrite
in place) are separate members. Lemmas prove that they produce the same value.

## Model

| member | source | states |
|---|---|---|
| `Foldable.FoldLEquations` | include/ftl/concepts/foldable.h:228-234 | a left fold of the empty structure is its zero; a non-empty one first combines the zero with the first element, accumulator first, then folds the rest |
| `Foldable.FoldLSnoc` | include/ftl/concepts/foldable.h:228-234 | the last element of the traversal is combined last, into the fold of everything before it |
| `Foldable.FoldLConcat` | include/ftl/concepts/foldable.h:228-234 | folding two traversals in sequence is folding the second from the result of the first |
| `Foldable.DerivingFoldL` | include/ftl/concepts/foldable.h:228-234 | the read-only `foldl` loop, which replaces the accumulator by `fn(accumulator, element)` for each element in order, returns the reference left fold |
| `Foldable.DerivingFoldLConsuming` | include/ftl/concepts/foldable.h:246-252 | the consuming `foldl`, which moves each element out of the structure, returns the same value as the read-only overload |
| `Foldable.FoldMapAsWritten` | include/ftl/concepts/foldable.h:282-290 | `foldMap` exactly as written: the empty structure gives the monoid's `id`; each later step combines `fn` applied to the converted accumulator with the converted element, because `foldl` passes the accumulator into the lambda's element parameter |
| `Foldable.FoldMapArgumentOrderCounterexample` | include/ftl/concepts/foldable.h:282-290 | with the sum monoid and a doubling `fn`, the as-written `foldMap` of `[1]` is 1 while mapping then combining gives 2 |
| `Foldable.FoldMap` | include/ftl/concepts/foldable.h:274-291 | `foldMap` as intended: the empty structure gives `id`; otherwise the result is the `foldMap` of all but the last element, combined with `fn` of the last element |
| `Foldable.FoldLAccumulates` | include/ftl/concepts/foldable.h:282-290 | under the monoid laws, a left fold from any accumulator equals that accumulator combined with the matching right fold from `id` |
| `Foldable.FoldMapRightNested` | include/ftl/concepts/foldable.h:282-290 | for a lawful monoid, `foldMap`'s left-nested combination equals the right-nested `append(fn(x0), append(fn(x1), ... id))` |
| `Foldable.Fold` | include/ftl/concepts/foldable.h:318-327 | `fold` of the empty structure is `id`; otherwise it is the `fold` of all but the last element, combined with the last element |
| `Foldable.FoldIsLeftNested` | include/ftl/concepts/foldable.h:324-326 | `fold` is the left fold of `append` from `id`, and the as-written `foldMap` with identity function and conversions computes the same value, so the argument swap is harmless for `fold` |
| `Foldable.FoldIsRightNested` | include/ftl/concepts/foldable.h:324-326 | for a lawful monoid, `fold` also equals the right-nested combination of the elements ending in `id` |
| `Foldable.FoldSumExample` | include/ftl/concepts/foldable.h:84-87 | folding `[sum 2, sum 4, sum 10]` gives `sum 16` |
| `Foldable.FoldMapProdExample` | include/ftl/concepts/foldable.h:98-102 | `foldMap(prod, [2, 2, 2])` gives `prod 8`, under both the intended and the as-written `foldMap` |
| `ForwardList.Id` | include/ftl/forward_list.h:146-148 | the monoid identity is the empty list |
| `ForwardList.InsertAfter` | include/ftl/forward_list.h:154-157 | inserting a range element by element after a position, each after the previously inserted one, places the range contiguously at that position in order |
| `ForwardList.Append` | include/ftl/forward_list.h:150-158 | the copying `append`, which inserts `l1`'s elements in front of a copy of `l2`, yields `l1` followed by `l2` |
| `ForwardList.SpliceToFront` | include/ftl/forward_list.h:167 | splicing a list to the front of another puts all its elements first, in order, followed by the other list unchanged |
| `ForwardList.AppendSplice` | include/ftl/forward_list.h:160-190 | the three splicing `append` overloads yield a list whose first `length(l1)` elements are `l1` and whose remainder is `l2` |
| `ForwardList.AppendOverloadsAgree` | include/ftl/forward_list.h:150-190 | the splicing overloads return the same list as the copying one |
| `ForwardList.AppendIdentity` | include/ftl/forward_list.h:137-158 | the empty list is a left and right identity of `append` |
| `ForwardList.AppendAssociative` | include/ftl/forward_list.h:137-158 | `append` is associative |
| `ForwardList.ListMonoidLawful` | include/ftl/forward_list.h:137-193 | the list instance, empty list and `append`, satisfies the monoid laws |
| `ForwardList.FwdFoldR` | include/ftl/forward_list.h:311-329 | the recursion from an iterator position to the end returns the right fold of the remaining suffix, combining each element with the fold of what follows it |
| `ForwardList.FoldR` | include/ftl/forward_list.h:349-354 | the list's `foldr` returns the zero for the empty list, and otherwise `f(head, foldr of the tail)` |
| `ForwardList.FoldRSubtractExample` | include/ftl/concepts/foldable.h:117-122 | `foldr` of subtraction from 3 over `[4, 8, 5]` is `4 - (8 - (5 - 3)) == -2` |
| `ForwardList.FoldLSubtractExample` | include/ftl/concepts/foldable.h:143-148 | `foldl` of subtraction from 3 over `[4, 8, 5]` is `((3 - 4) - 8) - 5 == -14` |
| `ForwardList.FoldOfListsIsFlatten` | include/ftl/forward_list.h:336-340 | the derived `fold` over a list of lists, with the list monoid, concatenates the sublists in order |
| `ForwardList.Pure` | include/ftl/forward_list.h:213-230 | `pure(t)` is the one-element list holding `t`, for both overloads |
| `ForwardList.Map` | include/ftl/forward_list.h:232-248 | `map` yields a list of the same length whose element `i` is `f` of the source's element `i` |
| `ForwardList.MapCopy` | include/ftl/forward_list.h:238-248 | the copying overload, which inserts each image after the previous one, yields exactly that list |
| `ForwardList.MapConsuming` | include/ftl/forward_list.h:250-267 | the overload for a temporary source with a changed element type, which moves each element into `f`, yields the same list |
| `ForwardList.MapInPlace` | include/ftl/forward_list.h:269-287 | the no-copies overload, which overwrites each element of the taken-over source by its image, yields the same list |
| `ForwardList.MapIdentity` | include/ftl/forward_list.h:232-248 | mapping the identity returns the list unchanged |
| `ForwardList.MapComposition` | include/ftl/forward_list.h:232-248 | mapping `f` and then `g` is mapping their composition |
| `ForwardList.ConcatMap` | include/ftl/forward_list.h:71-134 | `concatMap` is the in-order concatenation of `f(l[0]), f(l[1]), ...`, and its length is the sum of the sublists' lengths |
| `ForwardList.ConcatMapByInsertion` | include/ftl/forward_list.h:78-134 | the library's loop, which maps and then moves each sublist's elements after the last inserted one, yields that concatenation (both overloads) |
| `ForwardList.ConcatMapIsFoldMap` | include/ftl/forward_list.h:85-102 | `concatMap` equals the list monoid's `foldMap` of `f` |
| `ForwardList.Bind` | include/ftl/forward_list.h:289-305 | `bind(l, f)`, for both overloads, is the in-order concatenation of the images of `l`'s elements |
| `ForwardList.BindLeftIdentity` | include/ftl/forward_list.h:213-305 | `bind(pure(x), f) == f(x)` |
| `ForwardList.BindRightIdentity` | include/ftl/forward_list.h:213-305 | `bind(l, pure) == l` |
| `ForwardList.BindAssociative` | include/ftl/forward_list.h:289-305 | `bind(bind(l, f), g) == bind(l, x -> bind(f(x), g))` |
| `ForwardList.MapIsBindPure` | include/ftl/forward_list.h:232-305 | `map(f, l) == bind(l, x -> pure(f(x)))` |

## Left out

- Compile-time dispatch: the `instance` flags, the `Foldable()` predicate, the `enable_if`/`result_of` constraints and overload selection by value category. These have no runtime behaviour. Each overload that builds its result differently is its own member instead.
- Whether the consuming `foldl` overload can ever be selected is not modelled. Its `enable_if` tests convertibility of `std::result_of<...>` itself rather than `std::result_of<...>::type` (include/ftl/concepts/foldable.h:241). That is a type-level question; the overload is modelled as producing its value.
- The `re_parametrise` specialisation and allocator re-parametrisation (include/ftl/forward_list.h:62-69) are purely type-level.
- The curried facades `FoldMap`, `foldR` and `foldL`, the free `fold` alias, and their curried bases (include/ftl/concepts/foldable.h:329-455). They only forward arguments. The curried bases are not part of this model.
- `deriving_join`, `deriving_apply`, the `sum_monoid`/`prod` monoids and the prelude are not part of this model. The integer sum and product monoids used in the worked examples are defined directly in `Monoids`.
- Memory, iterator and splice mechanics (`before_begin`, `insert_after`, `splice_after`, move iterators) are not modelled. Only the resulting sequences are.
- Integer width: the examples' `int` is unbounded here. No example comes near 32-bit overflow.
- Conversions in `foldMap`: the implicit conversions the as-written `foldMap` needs are explicit parameters of `Foldable.FoldMapAsWritten`. The model cannot decide whether C++ finds such conversions for a given pair of types.

## Findings

| source | as written | input that shows it | evidently intended | confidence | as-written member | corrected member |
|---|---|---|---|---|---|---|
| include/ftl/concepts/foldable.h:282-290 | the `foldMap` lambda declares its parameters as (element, accumulator) and returns `append(fn(element), accumulator)`, but `foldl` calls it as `fn(accumulator, element)` (include/ftl/concepts/foldable.h:230), so `fn` is applied to the running accumulator and the raw element is appended | element type equal to the monoid type (integer sum), `fn` = doubling, structure `[1]`: result 1 | `append(accumulator, fn(element))` at each step: 2 for that input | medium, not executed; it depends on the element and monoid types converting into each other, as they do when they are the same type | `Foldable.FoldMapAsWritten`, `Foldable.FoldMapArgumentOrderCounterexample` | `Foldable.FoldMap`, `Foldable.FoldMapRightNested` |
