/**
 The typeclass instances for singly linked lists.  A list is modelled by the
 sequence of its elements, front first; node links, iterators and allocators
 are not modelled, only the sequences the operations produce.

 - Monoid: the empty list and concatenation (one copying `append`, three
   splicing ones).
 - Foldable: `foldl`, `foldMap` and `fold` are the inheritable defaults of
   module `Foldable`; `foldr` recurses over successive tails.
 - Monad: `pure`, three `map` overloads, `bind`, and the `concatMap` helper
   it forwards to.
 */
module ForwardList {
  import opened Monoids
  import Foldable

  // ---------------------------------------------------------------------
  // Monoid instance
  // ---------------------------------------------------------------------

  /** The monoid identity: a freshly constructed, empty list. */
  function Id<T>(): (r: seq<T>)
    ensures |r| == 0
  {
    []
  }

  /**
   Inserting the elements of `src`, in order, after position `pos` of `d`:
   each one goes after the previously inserted one, the way a ranged
   `insert_after` walks its insertion point forward.  Position 0 stands for
   the place just before the first element.
   */
  function InsertAfter<T>(d: seq<T>, pos: nat, src: seq<T>): (r: seq<T>)
    requires pos <= |d|
    ensures r == d[..pos] + src + d[pos..]
    decreases |src|
  {
    if |src| == 0 then
      d
    else
      var d' := d[..pos] + [src[0]] + d[pos..];
      assert d'[..pos + 1] == d[..pos] + [src[0]];
      assert d'[pos + 1..] == d[pos..];
      InsertAfter(d', pos + 1, src[1..])
  }

  /**
   The copying `append`: copy `l2`, then insert the elements of `l1` in front
   of the copy.
   */
  function Append<T>(l1: seq<T>, l2: seq<T>): (r: seq<T>)
    ensures r == l1 + l2
  {
    assert l2[..0] == [] && l2[0..] == l2;
    InsertAfter(l2, 0, l1)
  }

  /**
   Moving every node of `src` to the front of `dest`, as `splice_after` at
   the position before the first element does.
   */
  function SpliceToFront<T>(dest: seq<T>, src: seq<T>): (r: seq<T>)
    ensures |r| == |src| + |dest|
    ensures r[..|src|] == src && r[|src|..] == dest
  {
    src + dest
  }

  /**
   The three splicing `append` overloads, used when `l1`, `l2` or both are
   temporaries: whichever list is not a temporary is copied, and the nodes of
   (the copy of) `l1` are spliced to the front of (the copy of) `l2`.  The
   three differ only in which storage is reused.
   */
  function AppendSplice<T>(l1: seq<T>, l2: seq<T>): (r: seq<T>)
    ensures |r| == |l1| + |l2|
    ensures r[..|l1|] == l1 && r[|l1|..] == l2
  {
    SpliceToFront(l2, l1)
  }

  /** All four `append` overloads produce the same list. */
  lemma AppendOverloadsAgree<T>(l1: seq<T>, l2: seq<T>)
    ensures AppendSplice(l1, l2) == Append(l1, l2)
  {
    assert AppendSplice(l1, l2) == AppendSplice(l1, l2)[..|l1|] + AppendSplice(l1, l2)[|l1|..];
  }

  /** The list monoid: identity and the copying `append`. */
  function ListMonoid<T>(): Monoid<seq<T>>
  {
    Monoid(Id(), (a: seq<T>, b: seq<T>) => Append(a, b))
  }

  /** The empty list is a two-sided identity of `append`. */
  lemma AppendIdentity<T>(l: seq<T>)
    ensures Append(Id(), l) == l
    ensures Append(l, Id()) == l
  {
  }

  /** `append` is associative. */
  lemma AppendAssociative<T>(a: seq<T>, b: seq<T>, c: seq<T>)
    ensures Append(Append(a, b), c) == Append(a, Append(b, c))
  {
  }

  /** The list instance obeys the monoid laws. */
  lemma ListMonoidLawful<T(!new)>()
    ensures IsMonoid(ListMonoid<T>())
  {
    var m := ListMonoid<T>();
    forall x: seq<T>
      ensures m.append(m.id, x) == x && m.append(x, m.id) == x
    {
      AppendIdentity(x);
    }
    forall x: seq<T>, y: seq<T>, z: seq<T>
      ensures m.append(m.append(x, y), z) == m.append(x, m.append(y, z))
    {
      AppendAssociative(x, y, z);
    }
  }

  // ---------------------------------------------------------------------
  // Foldable instance
  // ---------------------------------------------------------------------

  /**
   The right fold over the list from iterator position `it` to the end: an
   element is combined with the fold of everything after it, so the zero is
   combined with the last element first.
   */
  function FwdFoldR<T, Z>(f: (T, Z) -> Z, z: Z, l: seq<T>, it: nat): (r: Z)
    requires it <= |l|
    ensures r == Foldable.FoldR(f, z, l[it..])
    decreases |l| - it
  {
    if it != |l| then
      assert l[it..][1..] == l[it + 1..];
      f(l[it], FwdFoldR(f, z, l, it + 1))
    else
      z
  }

  /** The list's `foldr`: `FwdFoldR` over the whole list. */
  function FoldR<T, Z>(f: (T, Z) -> Z, z: Z, l: seq<T>): (r: Z)
    ensures |l| == 0 ==> r == z
    ensures |l| > 0 ==> r == f(l[0], FoldR(f, z, l[1..]))
  {
    assert l[0..] == l;
    FwdFoldR(f, z, l, 0)
  }

  /** Worked example: `foldr` of subtraction from 3 over `[4, 8, 5]` is
      `4 - (8 - (5 - 3)) == -2`. */
  lemma FoldRSubtractExample()
    ensures FoldR((x: int, y: int) => x - y, 3, [4, 8, 5]) == -2
  {
    var l := [4, 8, 5];
    assert l[1..] == [8, 5];
    assert l[1..][1..] == [5];
    assert l[1..][1..][1..] == [];
  }

  /** Worked example: `foldl` of subtraction from 3 over `[4, 8, 5]` is
      `((3 - 4) - 8) - 5 == -14`. */
  lemma FoldLSubtractExample()
    ensures Foldable.FoldL((x: int, y: int) => x - y, 3, [4, 8, 5]) == -14
  {
    var l := [4, 8, 5];
    assert l[1..] == [8, 5];
    assert l[1..][1..] == [5];
    assert l[1..][1..][1..] == [];
  }

  /** Folding a list of lists with the list monoid concatenates them in order. */
  lemma FoldOfListsIsFlatten<T(!new)>(xss: seq<seq<T>>)
    ensures Foldable.Fold(ListMonoid<T>(), xss) == Flatten(xss)
  {
    ListMonoidLawful<T>();
    Foldable.FoldIsRightNested(ListMonoid<T>(), xss);
    FoldRAppendIsFlatten(xss);
  }

  lemma {:induction false} FoldRAppendIsFlatten<T>(xss: seq<seq<T>>)
    ensures Foldable.FoldR(ListMonoid<T>().append, [], xss) == Flatten(xss)
    decreases |xss|
  {
    if |xss| > 0 {
      FoldRAppendIsFlatten(xss[1..]);
    }
  }

  // ---------------------------------------------------------------------
  // Monad instance
  // ---------------------------------------------------------------------

  /** `pure`: a list holding just `t` (both overloads). */
  function Pure<T>(t: T): (r: seq<T>)
    ensures |r| == 1 && r[0] == t
  {
    [t]
  }

  /** Reference definition of `map`: the list of the images, in order. */
  function Map<T, U>(f: T -> U, l: seq<T>): (r: seq<U>)
    ensures |r| == |l|
    ensures forall i :: 0 <= i < |l| ==> r[i] == f(l[i])
    decreases |l|
  {
    if |l| == 0 then [] else [f(l[0])] + Map(f, l[1..])
  }

  /**
   The copying `map`: walks the source read-only and inserts each image after
   the last inserted one.
   */
  method MapCopy<T, U>(f: T -> U, l: seq<T>) returns (rl: seq<U>)
    ensures rl == Map(f, l)
  {
    rl := [];
    for i := 0 to |l|
      invariant |rl| == i
      invariant forall j :: 0 <= j < i ==> rl[j] == f(l[j])
    {
      rl := rl + [f(l[i])];
    }
  }

  /**
   The `map` overload for a temporary source when the element type changes:
   every element is moved out of the source, front to back, into `f`.
   */
  method MapConsuming<T, U>(f: T -> U, l: seq<T>) returns (rl: seq<U>)
    ensures rl == Map(f, l)
  {
    rl := [];
    var rest := l;
    while |rest| > 0
      invariant |rl| + |rest| == |l|
      invariant rest == l[|rl|..]
      invariant forall j :: 0 <= j < |rl| ==> rl[j] == f(l[j])
      decreases |rest|
    {
      rl := rl + [f(rest[0])];
      rest := rest[1..];
    }
  }

  /**
   The no-copies `map`, for a temporary source when `f` keeps the element
   type: takes over the source's storage and overwrites each element by its
   image.
   */
  method MapInPlace<T>(f: T -> T, l: seq<T>) returns (rl: seq<T>)
    ensures rl == Map(f, l)
  {
    rl := l;
    for i := 0 to |rl|
      invariant |rl| == |l|
      invariant forall j :: 0 <= j < i ==> rl[j] == f(l[j])
      invariant forall j :: i <= j < |rl| ==> rl[j] == l[j]
    {
      rl := rl[i := f(rl[i])];
    }
  }

  /** Mapping the identity leaves a list unchanged. */
  lemma MapIdentity<T>(l: seq<T>)
    ensures Map((x: T) => x, l) == l
  {
  }

  /** Mapping `f` then `g` is mapping their composition. */
  lemma MapComposition<T, U, V>(f: T -> U, g: U -> V, l: seq<T>)
    ensures Map(g, Map(f, l)) == Map((x: T) => g(f(x)), l)
  {
  }

  /** The concatenation of a list of lists, in order. */
  function Flatten<T>(xss: seq<seq<T>>): seq<T>
    decreases |xss|
  {
    if |xss| == 0 then [] else xss[0] + Flatten(xss[1..])
  }

  /** The sum of the lengths of a list of lists. */
  function TotalLength<T>(xss: seq<seq<T>>): nat
    decreases |xss|
  {
    if |xss| == 0 then 0 else |xss[0]| + TotalLength(xss[1..])
  }

  lemma {:induction false} FlattenConcat<T>(a: seq<seq<T>>, b: seq<seq<T>>)
    ensures Flatten(a + b) == Flatten(a) + Flatten(b)
    decreases |a|
  {
    if |a| == 0 {
      assert a + b == b;
    } else {
      assert (a + b)[1..] == a[1..] + b;
      FlattenConcat(a[1..], b);
    }
  }

  lemma {:induction false} FlattenLength<T>(xss: seq<seq<T>>)
    ensures |Flatten(xss)| == TotalLength(xss)
    decreases |xss|
  {
    if |xss| > 0 {
      FlattenLength(xss[1..]);
    }
  }

  /**
   `concatMap`: the images of the elements under `f`, each itself a list,
   concatenated in element order.
   */
  function ConcatMap<T, U>(f: T -> seq<U>, l: seq<T>): (r: seq<U>)
    ensures r == Flatten(Map(f, l))
    ensures |r| == TotalLength(Map(f, l))
    decreases |l|
  {
    FlattenLength(Map(f, l));
    if |l| == 0 then [] else f(l[0]) + ConcatMap(f, l[1..])
  }

  /**
   `concatMap` as the library computes it (both overloads): map `f` over the
   list into a list of lists, then walk that once, moving each sublist's
   elements after the last inserted element of the result.
   */
  method ConcatMapByInsertion<T, U>(f: T -> seq<U>, l: seq<T>) returns (result: seq<U>)
    ensures result == ConcatMap(f, l)
  {
    var nested := MapCopy(f, l);
    result := [];
    for i := 0 to |nested|
      invariant result == Flatten(nested[..i])
    {
      assert nested[..i + 1] == nested[..i] + [nested[i]];
      FlattenConcat(nested[..i], [nested[i]]);
      result := InsertAfter(result, |result|, nested[i]);
    }
    assert nested[..|nested|] == nested;
  }

  /** Monadic `bind` (both overloads): `concatMap` with its arguments swapped. */
  function Bind<T, U>(l: seq<T>, f: T -> seq<U>): (r: seq<U>)
    ensures r == Flatten(Map(f, l))
  {
    ConcatMap(f, l)
  }

  lemma {:induction false} ConcatMapConcat<T, U>(f: T -> seq<U>, a: seq<T>, b: seq<T>)
    ensures ConcatMap(f, a + b) == ConcatMap(f, a) + ConcatMap(f, b)
    decreases |a|
  {
    if |a| == 0 {
      assert a + b == b;
    } else {
      assert (a + b)[1..] == a[1..] + b;
      ConcatMapConcat(f, a[1..], b);
    }
  }

  /** Left identity: binding a `pure` value applies the function to it. */
  lemma BindLeftIdentity<T, U>(x: T, f: T -> seq<U>)
    ensures Bind(Pure(x), f) == f(x)
  {
    assert Pure(x)[1..] == [];
  }

  /** Right identity: binding `pure` returns the list unchanged. */
  lemma {:induction false} BindRightIdentity<T>(l: seq<T>)
    ensures Bind(l, (x: T) => Pure(x)) == l
    decreases |l|
  {
    if |l| > 0 {
      BindRightIdentity(l[1..]);
    }
  }

  /** Associativity of `bind`. */
  lemma {:induction false} BindAssociative<T, U, V>(l: seq<T>, f: T -> seq<U>, g: U -> seq<V>)
    ensures Bind(Bind(l, f), g) == Bind(l, (x: T) => Bind(f(x), g))
    decreases |l|
  {
    if |l| > 0 {
      BindAssociative(l[1..], f, g);
      ConcatMapConcat(g, f(l[0]), ConcatMap(f, l[1..]));
    }
  }

  /** `map` is `bind` followed by `pure`. */
  lemma {:induction false} MapIsBindPure<T, U>(f: T -> U, l: seq<T>)
    ensures Map(f, l) == Bind(l, (x: T) => Pure(f(x)))
    decreases |l|
  {
    if |l| > 0 {
      MapIsBindPure(f, l[1..]);
    }
  }

  /** `concatMap` is the list monoid's `foldMap`. */
  lemma {:induction false} ConcatMapIsFoldMap<T, U>(f: T -> seq<U>, l: seq<T>)
    ensures ConcatMap(f, l) == Foldable.FoldMap(ListMonoid<U>(), f, l)
    decreases |l|
  {
    if |l| > 0 {
      var n := |l| - 1;
      ConcatMapIsFoldMap(f, l[..n]);
      ConcatMapConcat(f, l[..n], [l[n]]);
      assert l[..n] + [l[n]] == l;
      assert [l[n]][1..] == [];
    }
  }
}
