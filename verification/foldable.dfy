/**
 The Foldable concept: reducing a structure, traversed linearly in order, to
 one accumulated value.  A structure is modelled by the finite sequence of
 elements its forward traversal yields.

 `FoldL` and `FoldR` are the reference left and right folds.  The members
 named `Deriving...` model the library's inheritable default implementations:
 `foldl` as a loop over the traversal (read-only and consuming overloads),
 `foldMap` built from `foldl` and a monoid, and `fold` built from `foldMap`.
 */
module Foldable {
  import opened Monoids

  /** Reference left fold: `fn(...fn(fn(z, xs[0]), xs[1])..., xs[n-1])`. */
  function FoldL<T, U>(fn: (U, T) -> U, z: U, xs: seq<T>): U
    decreases |xs|
  {
    if |xs| == 0 then z else FoldL(fn, fn(z, xs[0]), xs[1..])
  }

  /** Reference right fold: `fn(xs[0], fn(xs[1], ...fn(xs[n-1], z)...))`. */
  function FoldR<T, U>(fn: (T, U) -> U, z: U, xs: seq<T>): U
    decreases |xs|
  {
    if |xs| == 0 then z else fn(xs[0], FoldR(fn, z, xs[1..]))
  }

  /** Folding the empty structure returns the zero unchanged, and a non-empty
      one combines the zero with its first element before folding the rest. */
  lemma FoldLEquations<T, U>(fn: (U, T) -> U, z: U, x: T, xs: seq<T>)
    ensures FoldL(fn, z, []) == z
    ensures FoldL(fn, z, [x] + xs) == FoldL(fn, fn(z, x), xs)
  {
    assert ([x] + xs)[1..] == xs;
  }

  /** The last element is combined last. */
  lemma {:induction false} FoldLSnoc<T, U>(fn: (U, T) -> U, z: U, xs: seq<T>, x: T)
    ensures FoldL(fn, z, xs + [x]) == fn(FoldL(fn, z, xs), x)
    decreases |xs|
  {
    if |xs| == 0 {
      assert xs + [x] == [x];
      assert [x][1..] == [];
    } else {
      assert (xs + [x])[1..] == xs[1..] + [x];
      FoldLSnoc(fn, fn(z, xs[0]), xs[1..], x);
    }
  }

  /** Folding two traversals one after the other is folding the second from
      the result of the first. */
  lemma {:induction false} FoldLConcat<T, U>(fn: (U, T) -> U, z: U, xs: seq<T>, ys: seq<T>)
    ensures FoldL(fn, z, xs + ys) == FoldL(fn, FoldL(fn, z, xs), ys)
    decreases |xs|
  {
    if |xs| == 0 {
      assert xs + ys == ys;
    } else {
      assert (xs + ys)[1..] == xs[1..] + ys;
      FoldLConcat(fn, fn(z, xs[0]), xs[1..], ys);
    }
  }

  /** Two folding functions that agree on every argument pair fold alike. */
  lemma {:induction false} FoldLExtensional<T, U>(f: (U, T) -> U, g: (U, T) -> U, z: U, xs: seq<T>)
    requires forall u, t :: f(u, t) == g(u, t)
    ensures FoldL(f, z, xs) == FoldL(g, z, xs)
    decreases |xs|
  {
    if |xs| > 0 {
      FoldLExtensional(f, g, f(z, xs[0]), xs[1..]);
    }
  }

  /**
   The read-only overload of the inheritable `foldl`: one pass over the
   traversal, replacing the accumulator by `fn(accumulator, element)`.
   */
  method DerivingFoldL<T, U>(fn: (U, T) -> U, z0: U, f: seq<T>) returns (z: U)
    ensures z == FoldL(fn, z0, f)
  {
    z := z0;
    for i := 0 to |f|
      invariant FoldL(fn, z, f[i..]) == FoldL(fn, z0, f)
    {
      assert f[i..][1..] == f[i + 1..];
      z := fn(z, f[i]);
    }
  }

  /**
   The consuming overload of the inheritable `foldl`: each element is moved
   out of the structure into `fn`.  The structure is consumed front to back;
   the accumulated value is the same as for the read-only overload.
   */
  method DerivingFoldLConsuming<T, U>(fn: (U, T) -> U, z0: U, f: seq<T>) returns (z: U)
    ensures z == FoldL(fn, z0, f)
  {
    z := z0;
    var rest := f;
    while |rest| > 0
      invariant FoldL(fn, z, rest) == FoldL(fn, z0, f)
      decreases |rest|
    {
      z := fn(z, rest[0]);
      rest := rest[1..];
    }
  }

  /**
   The inheritable `foldMap` exactly as the library writes it.  It hands
   `foldl` a lambda whose parameters are declared (element, accumulator) and
   which returns `append(fn(element), accumulator)`; but `foldl` calls it as
   `fn(accumulator, element)`.  So the lambda's element parameter receives the
   accumulator and its accumulator parameter receives the element.  For that
   to compile, the accumulator must convert to the element type and the
   element to the monoid type; `toElement` and `toMonoid` are those implicit
   conversions.
   */
  function FoldMapAsWritten<T, M>(m: Monoid<M>, fn: T -> M, toElement: M -> T, toMonoid: T -> M, xs: seq<T>): (r: M)
    ensures |xs| == 0 ==> r == m.id
    ensures |xs| > 0 ==>
      r == m.append(fn(toElement(FoldMapAsWritten(m, fn, toElement, toMonoid, xs[..|xs| - 1]))), toMonoid(xs[|xs| - 1]))
  {
    var step := (acc: M, e: T) => m.append(fn(toElement(acc)), toMonoid(e));
    if |xs| > 0 then
      assert xs == xs[..|xs| - 1] + [xs[|xs| - 1]];
      FoldLSnoc(step, m.id, xs[..|xs| - 1], xs[|xs| - 1]);
      FoldL(step, m.id, xs)
    else
      FoldL(step, m.id, xs)
  }

  /**
   With the doubling function into the integer sum monoid, a one-element
   structure holding 1 folds to 1 as written, where mapping then summing
   gives 2: the mapped function is applied to the running total instead of
   to the element.
   */
  lemma FoldMapArgumentOrderCounterexample()
    ensures FoldMapAsWritten(SumMonoid(), (x: int) => 2 * x, (x: int) => x, (x: int) => x, [1]) == 1
    ensures FoldMap(SumMonoid(), (x: int) => 2 * x, [1]) == 2
  {
    var dbl := (x: int) => 2 * x;
    var same := (x: int) => x;
    assert [1][..0] == [];
    assert FoldMapAsWritten(SumMonoid(), dbl, same, same, []) == 0;
    assert FoldMap(SumMonoid(), dbl, []) == 0;
  }

  /**
   The inheritable `foldMap` as evidently intended: map every element into
   the monoid and combine the results left to right, starting from `id`.
   */
  function FoldMap<T, M>(m: Monoid<M>, fn: T -> M, xs: seq<T>): (r: M)
    ensures |xs| == 0 ==> r == m.id
    ensures |xs| > 0 ==> r == m.append(FoldMap(m, fn, xs[..|xs| - 1]), fn(xs[|xs| - 1]))
  {
    var step := (acc: M, e: T) => m.append(acc, fn(e));
    if |xs| > 0 then
      assert xs == xs[..|xs| - 1] + [xs[|xs| - 1]];
      FoldLSnoc(step, m.id, xs[..|xs| - 1], xs[|xs| - 1]);
      FoldL(step, m.id, xs)
    else
      FoldL(step, m.id, xs)
  }

  /** For a lawful monoid, the left-nested combination `foldMap` computes
      equals the right-nested one, `append(fn(x0), append(fn(x1), ...id))`. */
  lemma FoldMapRightNested<T, M(!new)>(m: Monoid<M>, fn: T -> M, xs: seq<T>)
    requires IsMonoid(m)
    ensures FoldMap(m, fn, xs) == FoldR((e: T, acc: M) => m.append(fn(e), acc), m.id, xs)
  {
    var step := (acc: M, e: T) => m.append(acc, fn(e));
    var rstep := (e: T, acc: M) => m.append(fn(e), acc);
    FoldLAccumulates(m, step, rstep, m.id, xs);
  }

  /** Under the monoid laws a left fold from any accumulator `a` is `a`
      combined with the right fold from `id`, when the two step functions
      combine through `append` on the same side as their names say. */
  lemma {:induction false} FoldLAccumulates<T, M(!new)>(m: Monoid<M>, step: (M, T) -> M, rstep: (T, M) -> M, a: M, xs: seq<T>)
    requires IsMonoid(m)
    requires forall acc, e :: step(acc, e) == m.append(acc, rstep(e, m.id))
    requires forall e, acc :: rstep(e, acc) == m.append(rstep(e, m.id), acc)
    ensures FoldL(step, a, xs) == m.append(a, FoldR(rstep, m.id, xs))
    decreases |xs|
  {
    if |xs| == 0 {
    } else {
      var x := xs[0];
      var rest := FoldR(rstep, m.id, xs[1..]);
      FoldLAccumulates(m, step, rstep, step(a, x), xs[1..]);
      calc {
        FoldL(step, a, xs);
        FoldL(step, step(a, x), xs[1..]);
        m.append(step(a, x), rest);
        m.append(m.append(a, rstep(x, m.id)), rest);
        m.append(a, m.append(rstep(x, m.id), rest));
        m.append(a, rstep(x, rest));
      }
    }
  }

  /**
   The inheritable `fold`: `foldMap` with the identity function, for
   structures whose elements are themselves monoid values.
   */
  function Fold<M>(m: Monoid<M>, xs: seq<M>): (r: M)
    ensures |xs| == 0 ==> r == m.id
    ensures |xs| > 0 ==> r == m.append(Fold(m, xs[..|xs| - 1]), xs[|xs| - 1])
  {
    FoldMap(m, (x: M) => x, xs)
  }

  /** `fold` computes the left-nested `append(...append(append(id, x0), x1)..., xn)`,
      whichever of the two `foldMap` definitions it is built on: with the
      identity function (and identity conversions) the argument swap in the
      library's lambda is harmless. */
  lemma FoldIsLeftNested<M>(m: Monoid<M>, xs: seq<M>)
    ensures Fold(m, xs) == FoldL(m.append, m.id, xs)
    ensures FoldMapAsWritten(m, (x: M) => x, (x: M) => x, (x: M) => x, xs) == Fold(m, xs)
  {
    var same := (x: M) => x;
    FoldLExtensional((acc: M, e: M) => m.append(acc, same(e)), m.append, m.id, xs);
    FoldLExtensional((acc: M, e: M) => m.append(same(same(acc)), same(e)), m.append, m.id, xs);
  }

  /** For a lawful monoid, `fold` also equals the right-nested combination
      `append(x0, append(x1, ... append(xn, id)))`. */
  lemma FoldIsRightNested<M(!new)>(m: Monoid<M>, xs: seq<M>)
    requires IsMonoid(m)
    ensures Fold(m, xs) == FoldR(m.append, m.id, xs)
  {
    var same := (x: M) => x;
    FoldMapRightNested(m, same, xs);
    FoldRExtensional((e: M, acc: M) => m.append(same(e), acc), m.append, m.id, xs);
  }

  /** Two right-folding functions that agree on every argument pair fold alike. */
  lemma {:induction false} FoldRExtensional<T, U>(f: (T, U) -> U, g: (T, U) -> U, z: U, xs: seq<T>)
    requires forall t, u :: f(t, u) == g(t, u)
    ensures FoldR(f, z, xs) == FoldR(g, z, xs)
    decreases |xs|
  {
    if |xs| > 0 {
      FoldRExtensional(f, g, z, xs[1..]);
    }
  }

  /** Worked example: folding `[sum 2, sum 4, sum 10]` gives `sum 16`. */
  lemma FoldSumExample()
    ensures Fold(SumMonoid(), [2, 4, 10]) == 16
  {
    FoldIsRightNested(SumMonoid(), [2, 4, 10]);
    assert [2, 4, 10][1..] == [4, 10];
    assert [4, 10][1..] == [10];
    assert [10][1..] == [];
  }

  /** Worked example: `foldMap(prod, [2, 2, 2])` gives `prod 8`; `prod` only
      wraps an integer, so it is the identity into the product monoid.  The
      library's argument swap does not show here. */
  lemma FoldMapProdExample()
    ensures FoldMap(ProdMonoid(), (x: int) => x, [2, 2, 2]) == 8
    ensures FoldMapAsWritten(ProdMonoid(), (x: int) => x, (x: int) => x, (x: int) => x, [2, 2, 2]) == 8
  {
    FoldIsRightNested(ProdMonoid(), [2, 2, 2]);
    FoldIsLeftNested(ProdMonoid(), [2, 2, 2]);
    assert [2, 2, 2][1..] == [2, 2];
    assert [2, 2][1..] == [2];
    assert [2][1..] == [];
  }
}
