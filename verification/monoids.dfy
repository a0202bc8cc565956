/**
 A monoid is an identity value together with a binary combine operation.
 The library declares monoids by specialising a descriptor template; here a
 monoid is an explicit record that generic operations receive as a parameter.
 The monoid laws are conventions the library documents but never checks, so
 they are stated separately, as the ghost predicate `IsMonoid`.
 */
module Monoids {

  /** An identity value `id` and a combine operation `append`. */
  datatype Monoid<!M> = Monoid(id: M, append: (M, M) -> M)

  /** `id` is a two-sided identity of `append`. */
  ghost predicate HasIdentity<M(!new)>(m: Monoid<M>) {
    && (forall x :: m.append(m.id, x) == x)
    && (forall x :: m.append(x, m.id) == x)
  }

  /** `append` is associative. */
  ghost predicate Associative<M(!new)>(m: Monoid<M>) {
    forall x, y, z :: m.append(m.append(x, y), z) == m.append(x, m.append(y, z))
  }

  /** The monoid laws every instance is expected to obey. */
  ghost predicate IsMonoid<M(!new)>(m: Monoid<M>) {
    HasIdentity(m) && Associative(m)
  }

  /** Integers under addition, starting from 0 (the library's `sum_monoid`). */
  function SumMonoid(): (m: Monoid<int>)
    ensures IsMonoid(m)
    ensures forall a, b :: m.append(a, b) == a + b
  {
    Monoid(0, (a: int, b: int) => a + b)
  }

  /** Integers under multiplication, starting from 1 (the library's `prod`). */
  function ProdMonoid(): (m: Monoid<int>)
    ensures IsMonoid(m)
    ensures forall a, b :: m.append(a, b) == a * b
  {
    Monoid(1, (a: int, b: int) => a * b)
  }
}
