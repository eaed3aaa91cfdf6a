/** The order in which pandas lays out the labels of a pivot table's
    index: each distinct label once, in ascending order. Strings compare
    as Python compares them, code point by code point; tuples of strings
    compare component by component. */
module Ordering {
  import opened Common

  /** Python's `a < b` on `str`. */
  predicate LexLess(a: string, b: string) {
    if |a| == 0 then |b| > 0
    else if |b| == 0 then false
    else if a[0] != b[0] then a[0] < b[0]
    else LexLess(a[1..], b[1..])
  }

  lemma {:induction false} LexLessIrreflexive(a: string)
    ensures !LexLess(a, a)
  {
    if |a| > 0 {
      LexLessIrreflexive(a[1..]);
    }
  }

  lemma {:induction false} LexLessTransitive(a: string, b: string, c: string)
    requires LexLess(a, b) && LexLess(b, c)
    ensures LexLess(a, c)
  {
    if |a| > 0 && |b| > 0 && |c| > 0 && a[0] == b[0] && b[0] == c[0] {
      LexLessTransitive(a[1..], b[1..], c[1..]);
    }
  }

  lemma {:induction false} LexLessTotal(a: string, b: string)
    requires a != b
    ensures LexLess(a, b) || LexLess(b, a)
  {
    if |a| > 0 && |b| > 0 && a[0] == b[0] {
      assert a == [a[0]] + a[1..] && b == [b[0]] + b[1..];
      LexLessTotal(a[1..], b[1..]);
    }
  }

  ghost predicate StrictTotalOrder<T(!new)>(lt: (T, T) -> bool) {
    && (forall a :: !lt(a, a))
    && (forall a, b, c :: lt(a, b) && lt(b, c) ==> lt(a, c))
    && (forall a, b :: a != b ==> lt(a, b) || lt(b, a))
  }

  lemma LexLessIsStrictTotalOrder()
    ensures StrictTotalOrder(LexLess)
  {
    forall a ensures !LexLess(a, a) {
      LexLessIrreflexive(a);
    }
    forall a, b, c | LexLess(a, b) && LexLess(b, c) ensures LexLess(a, c) {
      LexLessTransitive(a, b, c);
    }
    forall a, b | a != b ensures LexLess(a, b) || LexLess(b, a) {
      LexLessTotal(a, b);
    }
  }

  /** A company's index in the company pivot table
      (NIT_EXPORTADOR, RAZON_SOCIAL, SECTOR_ESTRELLA). */
  datatype Entity = Entity(nit: string, name: string, sector: string)

  /** Python's `<` on the 3-tuple of the entity's fields. */
  predicate EntityLess(a: Entity, b: Entity) {
    if a.nit != b.nit then LexLess(a.nit, b.nit)
    else if a.name != b.name then LexLess(a.name, b.name)
    else LexLess(a.sector, b.sector)
  }

  lemma EntityLessTransitive(a: Entity, b: Entity, c: Entity)
    requires EntityLess(a, b) && EntityLess(b, c)
    ensures EntityLess(a, c)
  {
    if a.nit != b.nit && b.nit != c.nit {
      LexLessTransitive(a.nit, b.nit, c.nit);
      if a.nit == c.nit {
        LexLessIrreflexive(a.nit);
      }
    } else if a.nit == b.nit && b.nit == c.nit && a.name != b.name && b.name != c.name {
      LexLessTransitive(a.name, b.name, c.name);
      if a.name == c.name {
        LexLessIrreflexive(a.name);
      }
    } else if a.nit == b.nit && b.nit == c.nit && a.name == b.name && b.name == c.name {
      LexLessTransitive(a.sector, b.sector, c.sector);
    }
  }

  lemma EntityLessIsStrictTotalOrder()
    ensures StrictTotalOrder(EntityLess)
  {
    forall a: Entity ensures !EntityLess(a, a) {
      LexLessIrreflexive(a.sector);
    }
    forall a: Entity, b: Entity, c: Entity | EntityLess(a, b) && EntityLess(b, c) ensures EntityLess(a, c) {
      EntityLessTransitive(a, b, c);
    }
    forall a: Entity, b: Entity | a != b ensures EntityLess(a, b) || EntityLess(b, a) {
      if a.nit != b.nit {
        LexLessTotal(a.nit, b.nit);
      } else if a.name != b.name {
        LexLessTotal(a.name, b.name);
      } else {
        LexLessTotal(a.sector, b.sector);
      }
    }
  }

  ghost predicate StrictlySorted<T>(s: seq<T>, lt: (T, T) -> bool) {
    forall i, j | 0 <= i < j < |s| :: lt(s[i], s[j])
  }

  /** Inserts `x` into its place in `s`, unless it is already there. */
  function InsertUnique<T(==)>(x: T, s: seq<T>, lt: (T, T) -> bool): seq<T> {
    if s == [] then [x]
    else if x == s[0] then s
    else if lt(x, s[0]) then [x] + s
    else [s[0]] + InsertUnique(x, s[1..], lt)
  }

  /** The distinct elements of `xs` in ascending order: a pivot table's index. */
  function SortUnique<T(==)>(xs: seq<T>, lt: (T, T) -> bool): seq<T> {
    if xs == [] then [] else InsertUnique(xs[0], SortUnique(xs[1..], lt), lt)
  }

  lemma {:induction false} InsertUniqueElements<T>(x: T, s: seq<T>, lt: (T, T) -> bool)
    ensures forall y :: y in InsertUnique(x, s, lt) <==> y == x || y in s
  {
    if s != [] && x != s[0] && !lt(x, s[0]) {
      InsertUniqueElements(x, s[1..], lt);
    }
  }

  lemma {:induction false} InsertUniqueSorted<T(!new)>(x: T, s: seq<T>, lt: (T, T) -> bool)
    requires StrictTotalOrder(lt) && StrictlySorted(s, lt)
    ensures StrictlySorted(InsertUnique(x, s, lt), lt)
  {
    if s != [] && x != s[0] && !lt(x, s[0]) {
      InsertUniqueSorted(x, s[1..], lt);
      InsertUniqueElements(x, s[1..], lt);
      var r := InsertUnique(x, s[1..], lt);
      assert lt(s[0], x);
      forall j | 0 <= j < |r| ensures lt(s[0], r[j]) {
        assert r[j] in r;
      }
    }
  }

  lemma {:induction false} StrictlySortedDistinct<T(!new)>(s: seq<T>, lt: (T, T) -> bool)
    requires StrictTotalOrder(lt) && StrictlySorted(s, lt)
    ensures Distinct(s)
  {
  }

  /** The pivot index holds every label of the input exactly once, in
      ascending order. */
  lemma {:induction false} SortUniqueSpec<T(!new)>(xs: seq<T>, lt: (T, T) -> bool)
    requires StrictTotalOrder(lt)
    ensures StrictlySorted(SortUnique(xs, lt), lt)
    ensures Distinct(SortUnique(xs, lt))
    ensures forall y :: y in SortUnique(xs, lt) <==> y in xs
  {
    if xs != [] {
      SortUniqueSpec(xs[1..], lt);
      InsertUniqueSorted(xs[0], SortUnique(xs[1..], lt), lt);
      InsertUniqueElements(xs[0], SortUnique(xs[1..], lt), lt);
      assert forall y :: y in xs <==> y == xs[0] || y in xs[1..];
    }
    StrictlySortedDistinct(SortUnique(xs, lt), lt);
  }
}
