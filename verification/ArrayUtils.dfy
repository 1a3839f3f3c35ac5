/** The list-as-set helpers (`contains`, `each`, `uniquelize`, `intersect`, `minus`,
    `union`, `complement`, `inAButNotInB`) and the `sort_by` comparator, on sequences. */
module ArrayUtils {
  import opened Wrappers

  /** `contains`: a scan for an element equal to `x`. */
  function Contains<T(==)>(a: seq<T>, x: T): (found: bool)
    ensures found <==> x in a
  {
    if |a| == 0 then false
    else if a[0] == x then true
    else Contains(a[1..], x)
  }

  predicate NoDuplicates<T(==)>(s: seq<T>) {
    forall i, j :: 0 <= i < j < |s| ==> s[i] != s[j]
  }

  /** Position of the first occurrence of `x` in `a`. */
  function FirstIndex<T(==)>(a: seq<T>, x: T): (k: nat)
    requires x in a
    ensures k < |a| && a[k] == x
    ensures forall j :: 0 <= j < k ==> a[j] != x
  {
    if a[0] == x then 0 else 1 + FirstIndex(a[1..], x)
  }

  /** `each`: call `fn(element, index)` on every element, keeping the results that are not null. */
  function Each<T, U(!new)>(a: seq<T>, fn: (T, nat) -> Option<U>): (r: seq<U>)
    ensures |r| <= |a|
    ensures forall y :: y in r <==> exists i :: 0 <= i < |a| && fn(a[i], i) == Some(y)
  {
    if |a| == 0 then []
    else
      var front := Each(a[..|a| - 1], fn);
      assert forall i :: 0 <= i < |a| - 1 ==> a[..|a| - 1][i] == a[i];
      match fn(a[|a| - 1], |a| - 1)
      case None => front
      case Some(y) => front + [y]
  }

  /** The callback `fn` seen from `k` positions further along: what `each` calls on a
      suffix of the array that starts at index `k`. */
  function Shifted<T, U>(fn: (T, nat) -> Option<U>, k: nat): (T, nat) -> Option<U> {
    (x: T, i: nat) => fn(x, i + k)
  }

  /** The callback result `each` keeps: nothing for null, the value otherwise. */
  function Kept<U>(o: Option<U>): seq<U> {
    match o
    case None => []
    case Some(y) => [y]
  }

  /** `each` on a non-empty array: the results for all but the last element, then the
      last element's kept result. */
  lemma EachLast<T, U(!new)>(a: seq<T>, fn: (T, nat) -> Option<U>)
    requires |a| > 0
    ensures Each(a, fn) == Each(a[..|a| - 1], fn) + Kept(fn(a[|a| - 1], |a| - 1))
  {
  }

  /** Order is kept: `each` over a concatenation is `each` over the first part followed by
      `each` over the second, whose indices continue after the first. */
  lemma {:induction false} EachAppend<T, U(!new)>(a1: seq<T>, a2: seq<T>, fn: (T, nat) -> Option<U>)
    ensures Each(a1 + a2, fn) == Each(a1, fn) + Each(a2, Shifted(fn, |a1|))
  {
    if |a2| == 0 {
      assert a1 + a2 == a1;
    } else {
      var a, g := a1 + a2, Shifted(fn, |a1|);
      var n, m := |a| - 1, |a2| - 1;
      var front := a2[..m];
      assert a[..n] == a1 + front;
      assert g(a2[m], m) == fn(a[n], n);
      EachAppend(a1, front, fn);
      EachLast(a, fn);
      EachLast(a2, g);
      var e1, e2, k := Each(a1, fn), Each(front, g), Kept(fn(a[n], n));
      assert Each(a[..n], fn) == e1 + e2;
      assert Each(a2, g) == e2 + k;
      assert e1 + (e2 + k) == (e1 + e2) + k;
    }
  }

  /** The indices whose callback result is `y`. */
  ghost function Hits<T, U>(a: seq<T>, fn: (T, nat) -> Option<U>, y: U): set<nat> {
    set i: nat | i < |a| && fn(a[i], i) == Some(y)
  }

  lemma HitsLast<T, U>(a: seq<T>, fn: (T, nat) -> Option<U>, y: U)
    requires |a| > 0
    ensures |Hits(a, fn, y)| == |Hits(a[..|a| - 1], fn, y)| + (if fn(a[|a| - 1], |a| - 1) == Some(y) then 1 else 0)
  {
    var n := |a| - 1;
    var front := a[..n];
    assert forall i :: 0 <= i < n ==> front[i] == a[i];
    if fn(a[n], n) == Some(y) {
      assert Hits(a, fn, y) == Hits(front, fn, y) + {n};
    } else {
      assert Hits(a, fn, y) == Hits(front, fn, y);
    }
  }

  lemma EachLastCount<T, U(!new)>(a: seq<T>, fn: (T, nat) -> Option<U>, y: U)
    requires |a| > 0
    ensures multiset(Each(a, fn))[y] == multiset(Each(a[..|a| - 1], fn))[y] + (if fn(a[|a| - 1], |a| - 1) == Some(y) then 1 else 0)
  {
    EachLast(a, fn);
  }

  /** Duplicates are kept: a value occurs in the result once for every index whose
      callback result is that value. */
  lemma {:induction false} EachCounts<T, U(!new)>(a: seq<T>, fn: (T, nat) -> Option<U>, y: U)
    ensures multiset(Each(a, fn))[y] == |Hits(a, fn, y)|
  {
    if |a| == 0 {
      assert Hits(a, fn, y) == {};
    } else {
      EachCounts(a[..|a| - 1], fn, y);
      EachLastCount(a, fn, y);
      HitsLast(a, fn, y);
    }
  }

  /** An `each` callback that returns its element or null keeps a subsequence, so it
      keeps a duplicate-free input duplicate-free. */
  lemma {:induction false} EachFilterNoDuplicates<T(!new)>(a: seq<T>, fn: (T, nat) -> Option<T>)
    requires NoDuplicates(a)
    requires forall i :: 0 <= i < |a| ==> fn(a[i], i) == None || fn(a[i], i) == Some(a[i])
    ensures NoDuplicates(Each(a, fn))
  {
    if |a| > 0 {
      var front := a[..|a| - 1];
      assert forall i :: 0 <= i < |front| ==> front[i] == a[i];
      EachFilterNoDuplicates(front, fn);
    }
  }

  /** `uniquelize`: the distinct elements, in the order of their first occurrence. */
  function Uniquelize<T(==,!new)>(a: seq<T>): (r: seq<T>)
    ensures NoDuplicates(r)
    ensures forall x :: x in r <==> x in a
    ensures forall i, j :: 0 <= i < j < |r| ==> FirstIndex(a, r[i]) < FirstIndex(a, r[j])
    ensures |r| <= |a|
  {
    if |a| == 0 then []
    else
      var front := a[..|a| - 1];
      var ra := Uniquelize(front);
      FirstIndexInPrefix(a, |a| - 1);
      if Contains(ra, a[|a| - 1]) then ra else ra + [a[|a| - 1]]
  }

  /** First occurrences inside a prefix are first occurrences in the whole sequence. */
  lemma FirstIndexInPrefix<T>(a: seq<T>, n: nat)
    requires n <= |a|
    ensures forall x :: x in a[..n] ==> FirstIndex(a, x) == FirstIndex(a[..n], x)
    ensures n < |a| && a[n] !in a[..n] ==> FirstIndex(a, a[n]) == n
  {
    forall x | x in a[..n]
      ensures FirstIndex(a, x) == FirstIndex(a[..n], x)
    {
      var k := FirstIndex(a[..n], x);
      assert a[k] == x;
    }
  }

  /** `Array.intersect`: the distinct elements of `a` that are also in `b`. */
  function Intersect<T(==,!new)>(a: seq<T>, b: seq<T>): (r: seq<T>)
    ensures NoDuplicates(r)
    ensures forall x :: x in r <==> x in a && x in b
  {
    var fn := (o: T, i: nat) => if Contains(b, o) then Some(o) else None;
    EachFilterNoDuplicates(Uniquelize(a), fn);
    Each(Uniquelize(a), fn)
  }

  /** `Array.minus`: the distinct elements of `a` that are not in `b`. */
  function Minus<T(==,!new)>(a: seq<T>, b: seq<T>): (r: seq<T>)
    ensures NoDuplicates(r)
    ensures forall x :: x in r <==> x in a && x !in b
  {
    var fn := (o: T, i: nat) => if Contains(b, o) then None else Some(o);
    EachFilterNoDuplicates(Uniquelize(a), fn);
    Each(Uniquelize(a), fn)
  }

  /** `Array.union`: the distinct elements of `a` followed by the new ones of `b`. */
  function Union<T(==,!new)>(a: seq<T>, b: seq<T>): (r: seq<T>)
    ensures NoDuplicates(r)
    ensures forall x :: x in r <==> x in a || x in b
  {
    Uniquelize(a + b)
  }

  /** `Array.complement`: the symmetric difference of `a` and `b`. */
  function Complement<T(==,!new)>(a: seq<T>, b: seq<T>): (r: seq<T>)
    ensures NoDuplicates(r)
    ensures forall x :: x in r <==> (x in a && x !in b) || (x in b && x !in a)
  {
    Minus(Union(a, b), Intersect(a, b))
  }

  /** `inAButNotInB`: `A` with every element that occurs in `B` filtered out. */
  function InAButNotInB<T(==,!new)>(A: seq<T>, B: seq<T>): (r: seq<T>)
    ensures |r| <= |A|
    ensures forall x :: x in r <==> x in A && x !in B
  {
    if |A| == 0 then []
    else (if Contains(B, A[0]) then [] else [A[0]]) + InAButNotInB(A[1..], B)
  }

  /** Duplicates are kept: an element not in `B` occurs as often as in `A`. */
  lemma {:induction false} InAButNotInBCounts<T(!new)>(A: seq<T>, B: seq<T>, x: T)
    ensures multiset(InAButNotInB(A, B))[x] == if x in B then 0 else multiset(A)[x]
  {
    if |A| > 0 {
      assert A == [A[0]] + A[1..];
      InAButNotInBCounts(A[1..], B, x);
    }
  }

  /** Order is kept: filtering a concatenation filters each part. */
  lemma {:induction false} InAButNotInBAppend<T(!new)>(A1: seq<T>, A2: seq<T>, B: seq<T>)
    ensures InAButNotInB(A1 + A2, B) == InAButNotInB(A1, B) + InAButNotInB(A2, B)
  {
    if |A1| == 0 {
      assert A1 + A2 == A2;
    } else {
      assert (A1 + A2)[1..] == A1[1..] + A2;
      InAButNotInBAppend(A1[1..], A2, B);
    }
  }

  /** The comparator returned by `sort_by(field, reverse, primer)`, for integer keys:
      `key` is the field read through the optional primer. */
  function SortBy<R>(key: R -> int, reverse: bool, x: R, y: R): (c: int)
    ensures c == -1 || c == 0 || c == 1
    ensures c == 0 <==> key(x) == key(y)
    ensures c == 1 <==> (if reverse then key(x) < key(y) else key(x) > key(y))
  {
    var sign := if !reverse then 1 else -1;
    var a := key(x);
    var b := key(y);
    sign * ((if a > b then 1 else 0) - (if b > a then 1 else 0))
  }
}
