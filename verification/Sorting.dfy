/** Rust's stable `sort_by`, as insertion sort over sequences. */
module Sorting {
  /** `le` can serve as a sort order: total and transitive. */
  ghost predicate TotalPreorder<T(!new)>(le: (T, T) -> bool) {
    && (forall x, y :: le(x, y) || le(y, x))
    && (forall x, y, z :: le(x, y) && le(y, z) ==> le(x, z))
  }

  function Insert<T>(x: T, ys: seq<T>, le: (T, T) -> bool): (r: seq<T>)
    ensures multiset(r) == multiset{x} + multiset(ys)
    ensures |r| == |ys| + 1
  {
    assert ys != [] ==> ys == [ys[0]] + ys[1..];
    if ys == [] || le(x, ys[0]) then [x] + ys else [ys[0]] + Insert(x, ys[1..], le)
  }

  /** The elements of xs, ordered by `le`. */
  function StableSort<T>(xs: seq<T>, le: (T, T) -> bool): (r: seq<T>)
    ensures multiset(r) == multiset(xs)
    ensures |r| == |xs|
  {
    assert xs != [] ==> xs == [xs[0]] + xs[1..];
    if xs == [] then [] else Insert(xs[0], StableSort(xs[1..], le), le)
  }

  ghost predicate Sorted<T>(xs: seq<T>, le: (T, T) -> bool) {
    forall i, j :: 0 <= i < j < |xs| ==> le(xs[i], xs[j])
  }

  function Apply<T, U>(f: T -> U, xs: seq<T>): (r: seq<U>)
    ensures |r| == |xs| && forall i :: 0 <= i < |xs| ==> r[i] == f(xs[i])
  {
    seq(|xs|, i requires 0 <= i < |xs| => f(xs[i]))
  }

  function Filter<T>(xs: seq<T>, keep: T -> bool): seq<T> {
    if xs == [] then []
    else (if keep(xs[0]) then [xs[0]] else []) + Filter(xs[1..], keep)
  }

  lemma {:induction false} InsertKeepsSorted<T(!new)>(x: T, ys: seq<T>, le: (T, T) -> bool)
    requires TotalPreorder(le) && Sorted(ys, le)
    ensures Sorted(Insert(x, ys, le), le)
  {
    if ys == [] {
    } else if le(x, ys[0]) {
      forall j | 0 <= j < |ys| ensures le(x, ys[j]) {
        assert j > 0 ==> le(ys[0], ys[j]);
      }
    } else {
      InsertKeepsSorted(x, ys[1..], le);
      var r := Insert(x, ys[1..], le);
      forall i | 0 <= i < |r| ensures le(ys[0], r[i]) {
        assert r[i] in multiset(r);
      }
    }
  }

  /** The result is ordered. */
  lemma {:induction false} SortSorts<T(!new)>(xs: seq<T>, le: (T, T) -> bool)
    requires TotalPreorder(le)
    ensures Sorted(StableSort(xs, le), le)
  {
    if xs != [] {
      SortSorts(xs[1..], le);
      InsertKeepsSorted(xs[0], StableSort(xs[1..], le), le);
    }
  }

  lemma {:induction false} FilterCons<T>(x: T, ys: seq<T>, keep: T -> bool)
    ensures Filter([x] + ys, keep) == (if keep(x) then [x] else []) + Filter(ys, keep)
  {
    assert ([x] + ys)[1..] == ys;
  }

  lemma {:induction false} SortMembers<T>(xs: seq<T>, le: (T, T) -> bool)
    ensures forall x :: x in StableSort(xs, le) <==> x in xs
  {
    assert forall x :: x in StableSort(xs, le) <==> x in multiset(StableSort(xs, le));
    assert forall x :: x in xs <==> x in multiset(xs);
  }

  /** The elements that compare equal to c. */
  function ClassOf<T>(c: T, le: (T, T) -> bool): T -> bool {
    (y: T) => le(c, y) && le(y, c)
  }

  /** Elements that `le` tells apart are never both of the class of c. */
  ghost predicate Separates<T(!new)>(le: (T, T) -> bool, c: T) {
    forall x, y :: !le(x, y) ==> !(ClassOf(c, le)(x) && ClassOf(c, le)(y))
  }

  lemma {:induction false} InsertKeepsClass<T(!new)>(x: T, ys: seq<T>, le: (T, T) -> bool, c: T)
    requires Separates(le, c)
    ensures Filter(Insert(x, ys, le), ClassOf(c, le)) == Filter([x] + ys, ClassOf(c, le))
  {
    var same := ClassOf(c, le);
    if ys == [] || le(x, ys[0]) {
    } else {
      var y, rest := ys[0], ys[1..];
      InsertKeepsClass(x, rest, le, c);
      assert ys == [y] + rest;
      assert Insert(x, ys, le) == [y] + Insert(x, rest, le);
      FilterCons(x, ys, same);
      FilterCons(x, rest, same);
      FilterCons(y, rest, same);
      FilterCons(y, Insert(x, rest, le), same);
      if same(x) {
        assert !same(y);
      }
    }
  }

  lemma {:induction false} SortKeepsClass<T(!new)>(xs: seq<T>, le: (T, T) -> bool, c: T)
    requires Separates(le, c)
    ensures Filter(StableSort(xs, le), ClassOf(c, le)) == Filter(xs, ClassOf(c, le))
  {
    if xs != [] {
      SortKeepsClass(xs[1..], le, c);
      InsertKeepsClass(xs[0], StableSort(xs[1..], le), le, c);
      FilterCons(xs[0], StableSort(xs[1..], le), ClassOf(c, le));
    }
  }

  /** Stability: elements that compare equal keep their input order. */
  lemma {:induction false} SortIsStable<T(!new)>(xs: seq<T>, le: (T, T) -> bool, c: T)
    requires TotalPreorder(le)
    ensures Filter(StableSort(xs, le), ClassOf(c, le)) == Filter(xs, ClassOf(c, le))
  {
    SortKeepsClass(xs, le, c);
  }

  /** Sorting an ordered sequence leaves it alone. */
  lemma {:induction false} SortedIsFixed<T(!new)>(xs: seq<T>, le: (T, T) -> bool)
    requires Sorted(xs, le)
    ensures StableSort(xs, le) == xs
  {
    if xs != [] {
      SortedIsFixed(xs[1..], le);
      assert xs == [xs[0]] + xs[1..];
      assert |xs| > 1 ==> le(xs[0], xs[1]);
    }
  }

  /** Taking the same element out of two permutations leaves permutations. */
  lemma {:induction false} RemoveSame<T>(a: seq<T>, b: seq<T>, k: nat)
    requires multiset(a) == multiset(b) && a != [] && k < |b| && b[k] == a[0]
    ensures multiset(a[1..]) == multiset(b[..k] + b[k + 1..])
  {
    WithoutOne(a, 0);
    WithoutOne(b, k);
    assert a[..0] + a[1..] == a[1..];
  }

  lemma {:induction false} SameHeadAndTail<T>(a: seq<T>, b: seq<T>)
    requires a != [] && b != [] && a[0] == b[0] && a[1..] == b[1..]
    ensures a == b
  {
    assert a == [a[0]] + a[1..] && b == [b[0]] + b[1..];
  }

  lemma {:induction false} SplitLast<T>(s: seq<T>)
    requires s != []
    ensures s == s[..|s| - 1] + [s[|s| - 1]]
  {
  }

  lemma {:induction false} ConcatAssociative<T>(a: seq<T>, b: seq<T>, c: seq<T>)
    ensures a + (b + c) == (a + b) + c
  {
  }

  lemma {:induction false} FilterConcat<T>(a: seq<T>, b: seq<T>, keep: T -> bool)
    ensures Filter(a + b, keep) == Filter(a, keep) + Filter(b, keep)
  {
    if a == [] {
      assert a + b == b;
    } else {
      FilterConcat(a[1..], b, keep);
      var first := if keep(a[0]) then [a[0]] else [];
      var fa, fb := Filter(a[1..], keep), Filter(b, keep);
      assert (a + b)[1..] == a[1..] + b;
      ConcatAssociative(first, fa, fb);
    }
  }

  /** Elements that tie stand in the same order in both sequences. */
  ghost predicate SameClasses<T(!new)>(a: seq<T>, b: seq<T>, le: (T, T) -> bool) {
    forall c :: Filter(a, ClassOf(c, le)) == Filter(b, ClassOf(c, le))
  }

  lemma {:induction false} FirstIsLeast<T(!new)>(a: seq<T>, b: seq<T>, le: (T, T) -> bool)
    requires TotalPreorder(le) && Sorted(b, le) && SameClasses(a, b, le) && a != []
    ensures b != [] && le(b[0], a[0])
  {
    FilterMembers(a, ClassOf(a[0], le));
    FilterMembers(b, ClassOf(a[0], le));
    assert le(a[0], a[0]) && a[0] in a;
    assert a[0] in Filter(b, ClassOf(a[0], le));
    var k :| 0 <= k < |b| && b[k] == a[0];
  }

  lemma {:induction false} TailsShareClasses<T(!new)>(a: seq<T>, b: seq<T>, le: (T, T) -> bool)
    requires SameClasses(a, b, le) && a != [] && b != [] && a[0] == b[0]
    ensures SameClasses(a[1..], b[1..], le)
  {
    forall c ensures Filter(a[1..], ClassOf(c, le)) == Filter(b[1..], ClassOf(c, le)) {
      var x, fa, fb := a[0], Filter(a[1..], ClassOf(c, le)), Filter(b[1..], ClassOf(c, le));
      assert Filter(a, ClassOf(c, le)) == Filter(b, ClassOf(c, le));
      if ClassOf(c, le)(x) {
        assert ([x] + fa)[1..] == fa && ([x] + fb)[1..] == fb;
      } else {
        assert [] + fa == fa && [] + fb == fb;
      }
    }
  }

  /** Sequences that are sorted and have their ties in the same order are the same. */
  lemma {:induction false} SortedByClasses<T(!new)>(a: seq<T>, b: seq<T>, le: (T, T) -> bool)
    requires TotalPreorder(le) && Sorted(a, le) && Sorted(b, le) && SameClasses(a, b, le)
    ensures a == b
  {
    if a == [] {
      if b != [] {
        FirstIsLeast(b, a, le);
        assert false;
      }
    } else {
      FirstIsLeast(a, b, le);
      FirstIsLeast(b, a, le);
      assert Filter(a, ClassOf(a[0], le))[0] == a[0];
      assert Filter(b, ClassOf(a[0], le))[0] == b[0];
      TailsShareClasses(a, b, le);
      SortedByClasses(a[1..], b[1..], le);
      SameHeadAndTail(a, b);
    }
  }

  /** Sorting depends on nothing but the order of the ties. */
  lemma {:induction false} SortByClasses<T(!new)>(a: seq<T>, b: seq<T>, le: (T, T) -> bool)
    requires TotalPreorder(le) && SameClasses(a, b, le)
    ensures StableSort(a, le) == StableSort(b, le)
  {
    SortSorts(a, le);
    SortSorts(b, le);
    forall c ensures Filter(StableSort(a, le), ClassOf(c, le)) == Filter(StableSort(b, le), ClassOf(c, le)) {
      SortIsStable(a, le, c);
      SortIsStable(b, le, c);
      assert Filter(a, ClassOf(c, le)) == Filter(b, ClassOf(c, le));
    }
    SortedByClasses(StableSort(a, le), StableSort(b, le), le);
  }

  /** Nothing ties but equal elements. */
  ghost predicate TiesEqual<T>(xs: seq<T>, le: (T, T) -> bool) {
    forall i, j :: 0 <= i < j < |xs| && le(xs[i], xs[j]) && le(xs[j], xs[i]) ==> xs[i] == xs[j]
  }

  lemma {:induction false} ConstantsAgree<T>(a: seq<T>, b: seq<T>)
    requires multiset(a) == multiset(b) && forall x, y :: x in a && y in a ==> x == y
    ensures a == b
  {
    assert |a| == |multiset(a)| == |b|;
    forall i | 0 <= i < |a| ensures a[i] == b[i] {
      assert b[i] in multiset(b);
      assert a[i] in a && b[i] in a;
    }
  }

  lemma {:induction false} PermutationLength<T>(a: seq<T>, b: seq<T>)
    requires multiset(a) == multiset(b)
    ensures |a| == |b|
  {
    assert |a| == |multiset(a)| == |b|;
  }

  /** If nothing ties but equal elements, sorting does not depend on the order of the input. */
  lemma {:induction false} SortIgnoresOrder<T(!new)>(a: seq<T>, b: seq<T>, le: (T, T) -> bool)
    requires TotalPreorder(le) && TiesEqual(a, le) && multiset(a) == multiset(b)
    ensures StableSort(a, le) == StableSort(b, le)
  {
    forall c ensures Filter(a, ClassOf(c, le)) == Filter(b, ClassOf(c, le)) {
      FilterPermutes(a, b, ClassOf(c, le));
      FilterMembers(a, ClassOf(c, le));
      ConstantsAgree(Filter(a, ClassOf(c, le)), Filter(b, ClassOf(c, le)));
    }
    SortByClasses(a, b, le);
  }

  /** Images of permutations are permutations, if equal elements have equal images. */
  lemma {:induction false} ImagesPermute<T, U>(a: seq<T>, b: seq<T>, x: seq<U>, y: seq<U>)
    requires multiset(a) == multiset(b) && |x| == |a| && |y| == |b|
    requires forall i, j :: 0 <= i < |a| && 0 <= j < |b| && a[i] == b[j] ==> x[i] == y[j]
    ensures multiset(x) == multiset(y)
  {
    if a == [] {
      assert |multiset(b)| == 0;
    } else {
      assert a[0] in multiset(b);
      var k :| 0 <= k < |b| && b[k] == a[0];
      RemoveSame(a, b, k);
      ImagesPermute(a[1..], b[..k] + b[k + 1..], x[1..], y[..k] + y[k + 1..]);
      assert x == [x[0]] + x[1..];
      assert y == y[..k] + [y[k]] + y[k + 1..];
    }
  }

  lemma {:induction false} FilterMembers<T>(xs: seq<T>, keep: T -> bool)
    ensures forall x :: x in Filter(xs, keep) <==> x in xs && keep(x)
  {
    if xs != [] {
      FilterMembers(xs[1..], keep);
      assert xs == [xs[0]] + xs[1..];
    }
  }

  lemma {:induction false} FilterEmpty<T>(xs: seq<T>, keep: T -> bool)
    ensures Filter(xs, keep) == [] <==> forall i :: 0 <= i < |xs| ==> !keep(xs[i])
  {
    if xs != [] {
      FilterEmpty(xs[1..], keep);
      assert forall i :: 0 < i < |xs| ==> xs[i] == xs[1..][i - 1];
    }
  }

  lemma {:induction false} FilterTwice<T>(xs: seq<T>, p: T -> bool, q: T -> bool, both: T -> bool)
    requires forall x :: x in xs ==> both(x) == (p(x) && q(x))
    ensures Filter(Filter(xs, p), q) == Filter(xs, both)
  {
    if xs != [] {
      FilterTwice(xs[1..], p, q, both);
      FilterConcat(if p(xs[0]) then [xs[0]] else [], Filter(xs[1..], p), q);
    }
  }

  /** Filtering images is the same as taking the images of what is filtered. */
  lemma {:induction false} FilterImages<T, U>(xs: seq<T>, f: T -> U, keep: T -> bool, keepImage: U -> bool)
    requires forall x :: x in xs ==> keepImage(f(x)) == keep(x)
    ensures Filter(Apply(f, xs), keepImage) == Apply(f, Filter(xs, keep))
  {
    if xs != [] {
      FilterImages(xs[1..], f, keep, keepImage);
      assert Apply(f, xs)[1..] == Apply(f, xs[1..]);
    }
  }

  /** Of a prefix, a prefix of what is kept is kept. */
  lemma {:induction false} FilterPrefix<T>(xs: seq<T>, keep: T -> bool, k: nat)
    requires k <= |xs|
    ensures Filter(xs[..k], keep) <= Filter(xs, keep)
  {
    assert xs == xs[..k] + xs[k..];
    FilterConcat(xs[..k], xs[k..], keep);
  }

  /** An element that is kept stands behind all that are kept before it. */
  lemma {:induction false} FilterAt<T>(xs: seq<T>, keep: T -> bool, k: nat)
    requires k < |xs| && keep(xs[k])
    ensures |Filter(xs[..k], keep)| < |Filter(xs, keep)| && Filter(xs, keep)[|Filter(xs[..k], keep)|] == xs[k]
  {
    if k > 0 {
      FilterAt(xs[1..], keep, k - 1);
      assert xs[..k][1..] == xs[1..][..k - 1];
    }
  }

  function Swap<T>(xs: seq<T>, i: nat, j: nat): (r: seq<T>)
    requires i < j < |xs|
    ensures multiset(r) == multiset(xs)
  {
    xs[i := xs[j]][j := xs[i]]
  }

  /** Swapping two elements that are kept shows if their images differ. */
  lemma {:induction false} SwapShows<T, U>(xs: seq<T>, i: nat, j: nat, keep: T -> bool, f: T -> U)
    requires i < j < |xs| && keep(xs[i]) && keep(xs[j]) && f(xs[i]) != f(xs[j])
    ensures Apply(f, Filter(Swap(xs, i, j), keep)) != Apply(f, Filter(xs, keep))
  {
    var swapped := Swap(xs, i, j);
    assert swapped[..i] == xs[..i] && swapped[i] == xs[j];
    FilterAt(xs, keep, i);
    FilterAt(swapped, keep, i);
    var k := |Filter(xs[..i], keep)|;
    assert Apply(f, Filter(xs, keep))[k] == f(xs[i]);
    assert Apply(f, Filter(swapped, keep))[k] == f(xs[j]);
  }

  lemma {:induction false} FilterRemove<T>(b: seq<T>, k: nat, keep: T -> bool)
    requires k < |b|
    ensures multiset(Filter(b, keep))
         == (if keep(b[k]) then multiset{b[k]} else multiset{}) + multiset(Filter(b[..k] + b[k + 1..], keep))
  {
    var rest := b[..k] + b[k + 1..];
    if k == 0 {
      assert rest == b[1..];
    } else {
      FilterRemove(b[1..], k - 1, keep);
      assert rest[1..] == b[1..][..k - 1] + b[1..][k..];
    }
  }

  lemma {:induction false} FilterPermutes<T>(a: seq<T>, b: seq<T>, keep: T -> bool)
    requires multiset(a) == multiset(b)
    ensures multiset(Filter(a, keep)) == multiset(Filter(b, keep))
  {
    if a == [] {
      assert |multiset(b)| == 0;
    } else {
      assert a[0] in multiset(b);
      var k :| 0 <= k < |b| && b[k] == a[0];
      RemoveSame(a, b, k);
      FilterPermutes(a[1..], b[..k] + b[k + 1..], keep);
      FilterRemove(b, k, keep);
    }
  }

  /** The i-th element a filter keeps stands behind i others that it keeps. */
  lemma {:induction false} FilterPosition<T>(xs: seq<T>, keep: T -> bool, i: nat) returns (p: nat)
    requires i < |Filter(xs, keep)|
    ensures p < |xs| && xs[p] == Filter(xs, keep)[i] && keep(xs[p])
    ensures |Filter(xs[..p], keep)| == i
  {
    if keep(xs[0]) && i == 0 {
      p := 0;
    } else {
      var q := FilterPosition(xs[1..], keep, if keep(xs[0]) then i - 1 else i);
      p := q + 1;
      assert xs[..p][1..] == xs[1..][..q];
    }
  }

  /** What stands behind an element that is kept comes behind it in the result, too. */
  lemma {:induction false} FilterBehind<T>(xs: seq<T>, keep: T -> bool, k: nat, j: nat) returns (m: nat)
    requires k < j < |xs| && keep(xs[k]) && keep(xs[j])
    ensures |Filter(xs[..k], keep)| < m < |Filter(xs, keep)| && Filter(xs, keep)[m] == xs[j]
  {
    if k == 0 {
      FilterMembers(xs[1..], keep);
      assert xs[j] == xs[1..][j - 1];
      var i :| 0 <= i < |Filter(xs[1..], keep)| && Filter(xs[1..], keep)[i] == xs[j];
      m := i + 1;
    } else {
      m := FilterBehind(xs[1..], keep, k - 1, j - 1);
      m := if keep(xs[0]) then m + 1 else m;
      assert xs[..k][1..] == xs[1..][..k - 1];
    }
  }

  lemma {:induction false} PlaceIn<T>(b: seq<T>, a: seq<T>, i: nat) returns (p: nat)
    requires multiset(a) == multiset(b) && i < |b|
    ensures p < |a| && a[p] == b[i]
  {
    assert b[i] in multiset(a);
    p :| 0 <= p < |a| && a[p] == b[i];
  }

  /** Two positions of a sequence have counterparts, also distinct, in a permutation of it. */
  lemma {:induction false} PairInPermutation<T>(b: seq<T>, a: seq<T>, i: nat, j: nat) returns (p: nat, q: nat)
    requires multiset(a) == multiset(b) && i < j < |b|
    ensures p < |a| && q < |a| && p != q && a[p] == b[i] && a[q] == b[j]
  {
    q := PlaceIn(b, a, j);
    WithoutOne(a, q);
    WithoutOne(b, j);
    var r := PlaceIn(b[..j] + b[j + 1..], a[..q] + a[q + 1..], i);
    p := if r < q then r else r + 1;
  }

  lemma {:induction false} WithoutOne<T>(a: seq<T>, k: nat)
    requires k < |a|
    ensures multiset(a[..k] + a[k + 1..]) == multiset(a) - multiset{a[k]}
  {
    assert a == a[..k] + [a[k]] + a[k + 1..];
  }

  /** Related elements are ordered alike. */
  ghost predicate OrderedAlike<T(!new), U(!new)>(rel: (T, U) -> bool, le: (T, T) -> bool, leU: (U, U) -> bool) {
    forall x, y, u, v :: rel(x, u) && rel(y, v) ==> le(x, y) == leU(u, v)
  }

  ghost predicate Related<T, U>(xs: seq<T>, us: seq<U>, rel: (T, U) -> bool) {
    |xs| == |us| && forall i :: 0 <= i < |xs| ==> rel(xs[i], us[i])
  }

  lemma {:induction false} RelatedCons<T, U>(x: T, u: U, xs: seq<T>, us: seq<U>, rel: (T, U) -> bool)
    requires rel(x, u) && Related(xs, us, rel)
    ensures Related([x] + xs, [u] + us, rel)
  {
  }

  lemma {:induction false} InsertRelated<T(!new), U(!new)>(x: T, u: U, xs: seq<T>, us: seq<U>, rel: (T, U) -> bool,
                                                           le: (T, T) -> bool, leU: (U, U) -> bool)
    requires OrderedAlike(rel, le, leU) && rel(x, u) && Related(xs, us, rel)
    ensures Related(Insert(x, xs, le), Insert(u, us, leU), rel)
  {
    if xs != [] {
      assert le(x, xs[0]) == leU(u, us[0]);
    }
    if xs == [] || le(x, xs[0]) {
      RelatedCons(x, u, xs, us, rel);
    } else {
      InsertRelated(x, u, xs[1..], us[1..], rel, le, leU);
      RelatedCons(xs[0], us[0], Insert(x, xs[1..], le), Insert(u, us[1..], leU), rel);
    }
  }

  /** Sorting keeps related what is related. */
  lemma {:induction false} SortRelated<T(!new), U(!new)>(xs: seq<T>, us: seq<U>, rel: (T, U) -> bool,
                                                         le: (T, T) -> bool, leU: (U, U) -> bool)
    requires OrderedAlike(rel, le, leU) && Related(xs, us, rel)
    ensures Related(StableSort(xs, le), StableSort(us, leU), rel)
  {
    if xs != [] {
      SortRelated(xs[1..], us[1..], rel, le, leU);
      InsertRelated(xs[0], us[0], StableSort(xs[1..], le), StableSort(us[1..], leU), rel, le, leU);
    }
  }
}
