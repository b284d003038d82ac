/**
 * The parts of Ruby's Array behaviour that the checker relies on: `uniq`
 * (drop repeated elements, keep each first occurrence) and `sort` under a
 * total order, together with the fact that makes `a.sort == b.sort` a test
 * for "same elements, same multiplicities", and the
 * `each_with_object([])` walk that pushes what each element yields.
 */
module ArrayOps {
  import opened Wrappers

  predicate NoDuplicates<T(==)>(xs: seq<T>) {
    forall i, j :: 0 <= i < j < |xs| ==> xs[i] != xs[j]
  }

  /** The index of the first occurrence of `x` in `xs`. */
  function FirstIndex<T(==)>(xs: seq<T>, x: T): (i: nat)
    requires x in xs
    ensures i < |xs| && xs[i] == x
    ensures forall j :: 0 <= j < i ==> xs[j] != x
  {
    if xs[0] == x then 0 else 1 + FirstIndex(xs[1..], x)
  }

  /** An occurrence with no earlier occurrence is the first one. */
  lemma FirstIndexIs<T>(xs: seq<T>, x: T, i: nat)
    requires i < |xs| && xs[i] == x
    requires forall j :: 0 <= j < i ==> xs[j] != x
    ensures FirstIndex(xs, x) == i
  {
    var f := FirstIndex(xs, x);
    assert xs[f] == x;
  }

  /**
   * `xs.uniq`: each distinct element once, ordered by its first occurrence.
   * The four properties below determine the result completely.
   */
  function Uniq<T(==)>(xs: seq<T>): (r: seq<T>)
    ensures forall i :: 0 <= i < |r| ==> r[i] in xs
    ensures forall i :: 0 <= i < |xs| ==> xs[i] in r
    ensures NoDuplicates(r)
    ensures forall k, l :: 0 <= k < l < |r| ==> FirstIndex(xs, r[k]) < FirstIndex(xs, r[l])
    ensures |r| <= |xs|
  {
    if xs == [] then []
    else
      var init, last := xs[..|xs| - 1], xs[|xs| - 1];
      assert xs == init + [last];
      var u := Uniq(init);
      FirstIndicesAfterAppend(init, last);
      if last in u then u else u + [last]
  }

  /** Appending an element moves no first occurrence; a new element comes first at the end. */
  lemma FirstIndicesAfterAppend<T>(init: seq<T>, last: T)
    ensures forall x | x in init :: FirstIndex(init + [last], x) == FirstIndex(init, x)
    ensures last !in init ==> FirstIndex(init + [last], last) == |init|
  {
    var xs := init + [last];
    forall x | x in init ensures FirstIndex(xs, x) == FirstIndex(init, x) {
      FirstIndexIs(xs, x, FirstIndex(init, x));
    }
    if last !in init {
      FirstIndexIs(xs, last, |init|);
    }
  }

  /** `uniq` keeps exactly the elements it was given. */
  lemma UniqSameElements<T>(xs: seq<T>)
    ensures forall x :: x in Uniq(xs) <==> x in xs
  {
    var r := Uniq(xs);
    forall x | x in xs ensures x in r {
      var i :| 0 <= i < |xs| && xs[i] == x;
    }
  }

  /** `uniq` leaves a sequence that has no repeated element as it is. */
  lemma {:induction false} UniqOfDistinct<T>(xs: seq<T>)
    requires NoDuplicates(xs)
    ensures Uniq(xs) == xs
  {
    if xs != [] {
      var init := xs[..|xs| - 1];
      assert NoDuplicates(init);
      UniqOfDistinct(init);
      assert xs[|xs| - 1] !in init;
      assert init + [xs[|xs| - 1]] == xs;
    }
  }

  /** `le` is a total order: total, antisymmetric and transitive (hence reflexive). */
  ghost predicate IsTotalOrder<T(!new)>(le: (T, T) -> bool) {
    && (forall a, b :: le(a, b) || le(b, a))
    && (forall a, b :: le(a, b) && le(b, a) ==> a == b)
    && (forall a, b, c :: le(a, b) && le(b, c) ==> le(a, c))
  }

  predicate Sorted<T>(s: seq<T>, le: (T, T) -> bool) {
    forall i, j :: 0 <= i < j < |s| ==> le(s[i], s[j])
  }

  /** Inserts `x` in front of the first element it is not after. */
  function Insert<T>(x: T, s: seq<T>, le: (T, T) -> bool): (r: seq<T>)
    ensures multiset(r) == multiset(s) + multiset{x}
  {
    if s == [] || le(x, s[0]) then [x] + s
    else
      assert s == [s[0]] + s[1..];
      [s[0]] + Insert(x, s[1..], le)
  }

  /** Inserting into a sorted sequence keeps it sorted. */
  lemma {:induction false} InsertSorted<T(!new)>(x: T, s: seq<T>, le: (T, T) -> bool)
    requires IsTotalOrder(le) && Sorted(s, le)
    ensures Sorted(Insert(x, s, le), le)
  {
    if s == [] || le(x, s[0]) {
      var r := [x] + s;
      forall i, j | 0 <= i < j < |r| ensures le(r[i], r[j]) {
        if i == 0 && j > 1 {
          assert le(x, s[0]) && le(s[0], s[j - 1]);
        }
      }
    } else {
      var rest := Insert(x, s[1..], le);
      assert Sorted(s[1..], le);
      InsertSorted(x, s[1..], le);
      assert le(s[0], x);
      forall k | 0 <= k < |rest| ensures le(s[0], rest[k]) {
        assert rest[k] in multiset(rest);
        assert rest[k] == x || rest[k] in multiset(s[1..]);
        if rest[k] != x {
          var m :| 0 <= m < |s[1..]| && s[1..][m] == rest[k];
          assert s[m + 1] == rest[k];
        }
      }
      var r := [s[0]] + rest;
      forall i, j | 0 <= i < j < |r| ensures le(r[i], r[j]) {
        if i > 0 {
          assert r[i] == rest[i - 1] && r[j] == rest[j - 1];
        }
      }
    }
  }

  /** `a.sort`: the elements of `a` rearranged into ascending order. */
  function Sort<T>(a: seq<T>, le: (T, T) -> bool): (r: seq<T>)
    ensures multiset(r) == multiset(a)
  {
    if a == [] then []
    else
      assert a == [a[0]] + a[1..];
      Insert(a[0], Sort(a[1..], le), le)
  }

  /** Under a total order the result of `sort` is in ascending order. */
  lemma {:induction false} SortSorted<T(!new)>(a: seq<T>, le: (T, T) -> bool)
    requires IsTotalOrder(le)
    ensures Sorted(Sort(a, le), le)
  {
    if a != [] {
      SortSorted(a[1..], le);
      InsertSorted(a[0], Sort(a[1..], le), le);
    }
  }

  /** Under a total order, a multiset has exactly one sorted arrangement. */
  lemma {:induction false} SortedArrangementUnique<T(!new)>(x: seq<T>, y: seq<T>, le: (T, T) -> bool)
    requires IsTotalOrder(le)
    requires Sorted(x, le) && Sorted(y, le)
    requires multiset(x) == multiset(y)
    ensures x == y
  {
    if x != [] {
      assert x[0] in multiset(y);
      assert y != [];
      assert y[0] in multiset(x);
      var i :| 0 <= i < |x| && x[i] == y[0];
      var j :| 0 <= j < |y| && y[j] == x[0];
      assert le(x[0], x[i]);
      assert le(y[0], y[j]);
      assert x[0] == y[0];
      assert x == [x[0]] + x[1..];
      assert y == [y[0]] + y[1..];
      assert multiset(x) == multiset{x[0]} + multiset(x[1..]);
      assert multiset(y) == multiset{y[0]} + multiset(y[1..]);
      assert multiset(x[1..]) == multiset(x) - multiset{x[0]};
      assert multiset(y[1..]) == multiset(y) - multiset{y[0]};
      assert Sorted(x[1..], le) && Sorted(y[1..], le);
      SortedArrangementUnique(x[1..], y[1..], le);
    } else {
      assert |multiset(y)| == 0;
    }
  }

  /** `a.sort == b.sort` exactly when `a` and `b` hold the same elements equally often. */
  lemma SortEqualIffSameMultiset<T(!new)>(a: seq<T>, b: seq<T>, le: (T, T) -> bool)
    requires IsTotalOrder(le)
    ensures Sort(a, le) == Sort(b, le) <==> multiset(a) == multiset(b)
  {
    if multiset(a) == multiset(b) {
      SortSorted(a, le);
      SortSorted(b, le);
      SortedArrangementUnique(Sort(a, le), Sort(b, le), le);
    }
  }

  /** Without repeated elements, equal multisets and equal sets coincide. */
  lemma DistinctMultisetIsSet<T>(a: seq<T>, b: seq<T>)
    requires NoDuplicates(a) && NoDuplicates(b)
    ensures multiset(a) == multiset(b) <==> (set x | x in a) == (set x | x in b)
  {
    DistinctCount(a);
    DistinctCount(b);
    var sa, sb := set z | z in a, set z | z in b;
    if sa == sb {
      forall x ensures multiset(a)[x] == multiset(b)[x] {
        assert (x in a) == (x in sa) == (x in sb) == (x in b);
      }
      assert multiset(a) == multiset(b);
    }
    if multiset(a) == multiset(b) {
      forall x ensures x in sa <==> x in sb {
        assert (x in a) == (multiset(a)[x] > 0) == (multiset(b)[x] > 0) == (x in b);
      }
    }
  }

  /** In a sequence without repeated elements every element occurs once. */
  lemma {:induction false} DistinctCount<T>(a: seq<T>)
    requires NoDuplicates(a)
    ensures forall x :: multiset(a)[x] == if x in a then 1 else 0
  {
    if a != [] {
      var init := a[..|a| - 1];
      assert a == init + [a[|a| - 1]];
      assert NoDuplicates(init);
      DistinctCount(init);
      assert a[|a| - 1] !in init;
    }
  }

  /**
   * `xs.each_with_object([]) { |x, acc| acc << y if (y = f(x)) }`: what `f`
   * yields for the elements of `xs`, in the order of the elements.
   */
  function Collect<T, U>(xs: seq<T>, f: T -> Option<U>): (r: seq<U>)
    ensures |r| <= |xs|
  {
    if xs == [] then []
    else (match f(xs[0]) case Some(y) => [y] case None => []) + Collect(xs[1..], f)
  }

  /** Walking two lists one after the other collects their results one after the other. */
  lemma {:induction false} CollectAppend<T, U>(a: seq<T>, b: seq<T>, f: T -> Option<U>)
    ensures Collect(a + b, f) == Collect(a, f) + Collect(b, f)
  {
    if a == [] {
      assert a + b == b;
    } else {
      assert (a + b)[0] == a[0] && (a + b)[1..] == a[1..] + b;
      CollectAppend(a[1..], b, f);
    }
  }

  /** Every result `f` yields for an element is collected. */
  lemma {:induction false} CollectComplete<T, U>(xs: seq<T>, f: T -> Option<U>, i: nat)
    requires i < |xs| && f(xs[i]).Some?
    ensures f(xs[i]).value in Collect(xs, f)
  {
    if i > 0 {
      assert xs[1..][i - 1] == xs[i];
      CollectComplete(xs[1..], f, i - 1);
    }
  }
}
