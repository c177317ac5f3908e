/**
 Datatypes and sorting shared by the models of the other modules: options and results, SQL truth values, ceiling
 division, and Python's `sorted` for a text-valued key. Sorting is a stable insertion sort on code points; two sorted
 arrangements of one bag agree once the key tells the elements apart, which is what makes serialised mappings and
 aggregated names independent of the order they are found in. Bags are compared through a second reading of their
 elements where equality of one reading implies equality of the other.
 */
module Common {

  datatype Option<+T> = None | Some(value: T)

  datatype Result<+T, +E> = Ok(value: T) | Err(error: E)

  /** SQL truth values. */
  datatype Truth = True | False | Unknown

  function Min(a: int, b: int): int {
    if a <= b then a else b
  }

  function Max(a: int, b: int): int {
    if a >= b then a else b
  }

  /** Number of whole steps of size `step` needed to cover `n`: Python's `math.ceil(n / step)`. */
  function CeilDiv(n: int, step: int): (r: int)
    requires 0 < step
    ensures (r - 1) * step < n <= r * step
  {
    (n + step - 1) / step
  }

  lemma Associative<T>(a: seq<T>, b: seq<T>, c: seq<T>)
    ensures a + (b + c) == a + b + c
  {
  }

  lemma TakeNext<T>(xs: seq<T>, i: nat)
    requires i < |xs|
    ensures xs[..i + 1] == xs[..i] + [xs[i]] && xs[..i + 1][..i] == xs[..i]
  {
  }

  /** Code-point order on texts, the order Python's `sorted` uses on `str`. */
  predicate TextLe(a: string, b: string) {
    a == [] || (b != [] && (a[0] < b[0] || (a[0] == b[0] && TextLe(a[1..], b[1..]))))
  }

  lemma {:induction false} TextLeTotal(a: string, b: string)
    ensures TextLe(a, b) || TextLe(b, a)
  {
    if a != [] && b != [] && a[0] == b[0] {
      TextLeTotal(a[1..], b[1..]);
    }
  }

  lemma {:induction false} TextLeAntisymmetric(a: string, b: string)
    requires TextLe(a, b) && TextLe(b, a)
    ensures a == b
  {
    if a != [] && b != [] {
      TextLeAntisymmetric(a[1..], b[1..]);
      assert a == [a[0]] + a[1..] && b == [b[0]] + b[1..];
    }
  }

  lemma {:induction false} TextLeTransitive(a: string, b: string, c: string)
    requires TextLe(a, b) && TextLe(b, c)
    ensures TextLe(a, c)
  {
    if a != [] && b != [] && c != [] && a[0] == b[0] == c[0] {
      TextLeTransitive(a[1..], b[1..], c[1..]);
    }
  }

  /** Stable insertion sort: Python's `sorted(xs, key=key)` for a text-valued key. */
  function InsertBy<T>(x: T, xs: seq<T>, key: T -> string): seq<T> {
    if xs == [] || TextLe(key(x), key(xs[0])) then [x] + xs
    else [xs[0]] + InsertBy(x, xs[1..], key)
  }

  function SortBy<T>(xs: seq<T>, key: T -> string): seq<T> {
    if xs == [] then [] else InsertBy(xs[0], SortBy(xs[1..], key), key)
  }

  ghost predicate SortedBy<T>(xs: seq<T>, key: T -> string) {
    forall i, j :: 0 <= i < j < |xs| ==> TextLe(key(xs[i]), key(xs[j]))
  }

  lemma {:induction false} InsertByBag<T>(x: T, xs: seq<T>, key: T -> string)
    ensures multiset(InsertBy(x, xs, key)) == multiset{x} + multiset(xs)
    ensures |InsertBy(x, xs, key)| == |xs| + 1
  {
    if xs != [] && !TextLe(key(x), key(xs[0])) {
      InsertByBag(x, xs[1..], key);
      assert xs == [xs[0]] + xs[1..];
    }
  }

  lemma {:induction false} SortByBag<T>(xs: seq<T>, key: T -> string)
    ensures multiset(SortBy(xs, key)) == multiset(xs)
    ensures |SortBy(xs, key)| == |xs|
  {
    if xs != [] {
      SortByBag(xs[1..], key);
      InsertByBag(xs[0], SortBy(xs[1..], key), key);
      assert xs == [xs[0]] + xs[1..];
    }
  }

  lemma {:induction false} InsertBySorted<T>(x: T, xs: seq<T>, key: T -> string)
    requires SortedBy(xs, key)
    ensures SortedBy(InsertBy(x, xs, key), key)
  {
    if xs == [] {
    } else if TextLe(key(x), key(xs[0])) {
      forall j | 0 <= j < |xs|
        ensures TextLe(key(x), key(xs[j]))
      {
        if j > 0 {
          TextLeTransitive(key(x), key(xs[0]), key(xs[j]));
        }
      }
    } else {
      TextLeTotal(key(x), key(xs[0]));
      var rest := InsertBy(x, xs[1..], key);
      InsertBySorted(x, xs[1..], key);
      InsertByBag(x, xs[1..], key);
      forall j | 0 <= j < |rest|
        ensures TextLe(key(xs[0]), key(rest[j]))
      {
        assert rest[j] in multiset(rest);
        assert rest[j] == x || rest[j] in xs[1..];
      }
    }
  }

  lemma {:induction false} SortBySorted<T>(xs: seq<T>, key: T -> string)
    ensures SortedBy(SortBy(xs, key), key)
  {
    if xs != [] {
      SortBySorted(xs[1..], key);
      InsertBySorted(xs[0], SortBy(xs[1..], key), key);
    }
  }

  /** The key tells the elements of the sequence apart. */
  ghost predicate KeyDistinguishes<T>(xs: seq<T>, key: T -> string) {
    forall i, j :: 0 <= i < |xs| && 0 <= j < |xs| && key(xs[i]) == key(xs[j]) ==> xs[i] == xs[j]
  }

  lemma SortedHeadsAgree<T>(xs: seq<T>, ys: seq<T>, key: T -> string)
    requires xs != [] && ys != []
    requires SortedBy(xs, key) && SortedBy(ys, key) && KeyDistinguishes(xs, key)
    requires multiset(xs) == multiset(ys)
    ensures xs[0] == ys[0]
  {
    assert ys[0] in multiset(xs) && xs[0] in multiset(ys);
    var i :| 0 <= i < |xs| && xs[i] == ys[0];
    var j :| 0 <= j < |ys| && ys[j] == xs[0];
    if i != 0 && j != 0 {
      TextLeAntisymmetric(key(xs[0]), key(ys[0]));
    }
  }

  lemma TailKeepsOrder<T>(xs: seq<T>, key: T -> string)
    requires xs != []
    ensures SortedBy(xs, key) ==> SortedBy(xs[1..], key)
    ensures KeyDistinguishes(xs, key) ==> KeyDistinguishes(xs[1..], key)
    ensures multiset(xs[1..]) == multiset(xs) - multiset{xs[0]}
  {
    assert xs == [xs[0]] + xs[1..];
  }

  lemma SameBagSameLength<T>(xs: seq<T>, ys: seq<T>)
    requires multiset(xs) == multiset(ys)
    ensures |xs| == |ys|
  {
    assert |multiset(xs)| == |xs| && |multiset(ys)| == |ys|;
  }

  lemma SortedTailsAgree<T>(xs: seq<T>, ys: seq<T>, key: T -> string)
    requires xs != [] && ys != []
    requires SortedBy(xs, key) && SortedBy(ys, key) && KeyDistinguishes(xs, key)
    requires multiset(xs) == multiset(ys)
    ensures xs[0] == ys[0] && multiset(xs[1..]) == multiset(ys[1..])
    ensures SortedBy(xs[1..], key) && SortedBy(ys[1..], key) && KeyDistinguishes(xs[1..], key)
  {
    SortedHeadsAgree(xs, ys, key);
    TailKeepsOrder(xs, key);
    TailKeepsOrder(ys, key);
  }

  /** Two sorted arrangements of one bag agree once the key tells its elements apart. */
  lemma {:induction false} SortedArrangementUnique<T>(xs: seq<T>, ys: seq<T>, key: T -> string)
    requires SortedBy(xs, key) && SortedBy(ys, key) && KeyDistinguishes(xs, key)
    requires multiset(xs) == multiset(ys)
    ensures xs == ys
  {
    SameBagSameLength(xs, ys);
    if xs != [] {
      SortedTailsAgree(xs, ys, key);
      SortedArrangementUnique(xs[1..], ys[1..], key);
      assert xs == [xs[0]] + xs[1..] && ys == [ys[0]] + ys[1..];
    }
  }

  lemma SortByUnique<T>(xs: seq<T>, ys: seq<T>, key: T -> string)
    requires multiset(xs) == multiset(ys)
    requires KeyDistinguishes(xs, key)
    ensures SortBy(xs, key) == SortBy(ys, key)
  {
    SortBySorted(xs, key);
    SortBySorted(ys, key);
    SortByBag(xs, key);
    SortByBag(ys, key);
    var sorted := SortBy(xs, key);
    forall i | 0 <= i < |sorted|
      ensures sorted[i] in xs
    {
      assert sorted[i] in multiset(sorted);
    }
    SortedArrangementUnique(sorted, SortBy(ys, key), key);
  }

  function Map<T, U>(xs: seq<T>, f: T -> U): (r: seq<U>) {
    seq(|xs|, i requires 0 <= i < |xs| => f(xs[i]))
  }

  /** Sorting commutes with a map that keeps the sort key. */
  lemma {:induction false} MapInsert<T, U>(x: T, xs: seq<T>, key: T -> string, f: T -> U, key': U -> string)
    requires forall t :: key'(f(t)) == key(t)
    ensures Map(InsertBy(x, xs, key), f) == InsertBy(f(x), Map(xs, f), key')
  {
    if xs == [] || TextLe(key(x), key(xs[0])) {
      assert Map([x] + xs, f) == [f(x)] + Map(xs, f);
    } else {
      MapInsert(x, xs[1..], key, f, key');
      var r := InsertBy(x, xs[1..], key);
      assert Map([xs[0]] + r, f) == [f(xs[0])] + Map(r, f);
      assert Map(xs, f)[1..] == Map(xs[1..], f);
    }
  }

  lemma {:induction false} MapSort<T, U>(xs: seq<T>, key: T -> string, f: T -> U, key': U -> string)
    requires forall t :: key'(f(t)) == key(t)
    ensures Map(SortBy(xs, key), f) == SortBy(Map(xs, f), key')
  {
    if xs != [] {
      MapSort(xs[1..], key, f, key');
      MapInsert(xs[0], SortBy(xs[1..], key), key, f, key');
      assert Map(xs, f)[1..] == Map(xs[1..], f);
    }
  }

  function Without<T>(xs: seq<T>, j: nat): seq<T>
    requires j < |xs|
  {
    xs[..j] + xs[j + 1..]
  }

  lemma WithoutBag<T>(xs: seq<T>, j: nat)
    requires j < |xs|
    ensures multiset(Without(xs, j)) == multiset(xs) - multiset{xs[j]}
  {
    assert xs == xs[..j] + [xs[j]] + xs[j + 1..];
  }

  /** A second reading of the elements never tells apart what the first one equates. */
  ghost predicate Factors<A, B>(xs: seq<A>, ys: seq<A>, fs: seq<B>, gs: seq<B>) {
    && |xs| == |fs| && |ys| == |gs|
    && forall i, j :: 0 <= i < |xs| && 0 <= j < |ys| && xs[i] == ys[j] ==> fs[i] == gs[j]
  }

  lemma FactorsStep<A, B>(xs: seq<A>, ys: seq<A>, fs: seq<B>, gs: seq<B>, j: nat)
    requires Factors(xs, ys, fs, gs) && xs != [] && j < |ys|
    ensures Factors(xs[1..], Without(ys, j), fs[1..], Without(gs, j))
  {
    forall i, k | 0 <= i < |xs[1..]| && 0 <= k < |Without(ys, j)| && xs[1..][i] == Without(ys, j)[k]
      ensures fs[1..][i] == Without(gs, j)[k]
    {
      var k' := if k < j then k else k + 1;
      assert xs[i + 1] == ys[k'];
    }
  }

  /** Equal bags under the first reading are then equal bags under the second. */
  lemma {:induction false} BagFactors<A, B>(xs: seq<A>, ys: seq<A>, fs: seq<B>, gs: seq<B>)
    requires Factors(xs, ys, fs, gs) && multiset(xs) == multiset(ys)
    ensures multiset(fs) == multiset(gs)
  {
    assert |multiset(xs)| == |xs| && |multiset(ys)| == |ys|;
    if xs != [] {
      assert xs[0] in multiset(ys);
      var j :| 0 <= j < |ys| && ys[j] == xs[0];
      FactorsStep(xs, ys, fs, gs, j);
      WithoutBag(ys, j);
      WithoutBag(gs, j);
      TailBag(xs);
      TailBag(fs);
      BagFactors(xs[1..], Without(ys, j), fs[1..], Without(gs, j));
      assert gs[j] in multiset(gs);
    }
  }

  lemma TailBag<T>(xs: seq<T>)
    requires xs != []
    ensures multiset(xs) == multiset{xs[0]} + multiset(xs[1..])
  {
    assert xs == [xs[0]] + xs[1..];
  }

  ghost predicate Distinct<T>(xs: seq<T>) {
    forall i, j :: 0 <= i < j < |xs| ==> xs[i] != xs[j]
  }

  lemma {:induction false} DistinctMultiplicity<T>(xs: seq<T>, x: T)
    requires Distinct(xs)
    ensures multiset(xs)[x] == if x in xs then 1 else 0
  {
    if xs != [] {
      DistinctMultiplicity(xs[1..], x);
      TailBag(xs);
    }
  }

  /** Two duplicate-free sequences with the same elements are rearrangements of each other. */
  lemma DistinctSameElements<T>(xs: seq<T>, ys: seq<T>)
    requires Distinct(xs) && Distinct(ys)
    requires forall x :: x in xs <==> x in ys
    ensures multiset(xs) == multiset(ys)
  {
    forall x: T
      ensures multiset(xs)[x] == multiset(ys)[x]
    {
      DistinctMultiplicity(xs, x);
      DistinctMultiplicity(ys, x);
    }
  }
}
