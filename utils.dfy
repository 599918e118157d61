/** Shared vocabulary: node identifiers, optional values, sequence helpers
    (filter, zip, sorting, sums) used by every other module. */
module Utils {

  /** Node identifiers are the strings read from the edge and diagnosis tables. */
  type Node = string

  datatype Option<T> = None | Some(value: T)

  /** The Python exceptions the modelled code can raise. */
  datatype Failure = ValueError | ZeroDivisionError | KeyError | IndexError | NotANumber | UnboundLocalError

  datatype Result<T> = Ok(value: T) | Err(failure: Failure)

  // ---------------------------------------------------------------- orders

  ghost predicate TotalOrder<T(!new)>(le: (T, T) -> bool) {
    && (forall a, b :: le(a, b) || le(b, a))
    && (forall a, b :: le(a, b) && le(b, a) ==> a == b)
    && (forall a, b, c :: le(a, b) && le(b, c) ==> le(a, c))
  }

  predicate SortedBy<T>(s: seq<T>, le: (T, T) -> bool) {
    forall i, j :: 0 <= i < j < |s| ==> le(s[i], s[j])
  }

  predicate StrictlyIncreasing(s: seq<int>) {
    forall i, j :: 0 <= i < j < |s| ==> s[i] < s[j]
  }

  predicate IntLe(a: int, b: int) { a <= b }

  lemma IntLeTotal()
    ensures TotalOrder(IntLe)
  {
  }

  /** A sorted sequence without repetitions, under `IntLe`, is strictly increasing. */
  lemma SortedDistinctIncreasing(s: seq<int>)
    requires SortedBy(s, IntLe)
    requires forall i, j :: 0 <= i < j < |s| ==> s[i] != s[j]
    ensures StrictlyIncreasing(s)
  {
  }

  /** Python's string comparison: lexicographic by character code, a proper
      prefix first. */
  predicate StrLe(a: string, b: string) {
    if a == [] then true
    else if b == [] then false
    else if a[0] != b[0] then a[0] < b[0]
    else StrLe(a[1..], b[1..])
  }

  lemma {:induction false} StrLeConnex(a: string, b: string)
    ensures StrLe(a, b) || StrLe(b, a)
  {
    if a != [] && b != [] && a[0] == b[0] { StrLeConnex(a[1..], b[1..]); }
  }

  lemma {:induction false} StrLeAntisymmetric(a: string, b: string)
    requires StrLe(a, b) && StrLe(b, a)
    ensures a == b
  {
    if a != [] && b != [] {
      StrLeAntisymmetric(a[1..], b[1..]);
      assert a == [a[0]] + a[1..] && b == [b[0]] + b[1..];
    }
  }

  lemma {:induction false} StrLeTransitive(a: string, b: string, c: string)
    requires StrLe(a, b) && StrLe(b, c)
    ensures StrLe(a, c)
  {
    if a != [] && b != [] && c != [] && a[0] == b[0] && b[0] == c[0] {
      StrLeTransitive(a[1..], b[1..], c[1..]);
    }
  }

  lemma StrLeTotal()
    ensures TotalOrder(StrLe)
  {
    forall a, b ensures StrLe(a, b) || StrLe(b, a) { StrLeConnex(a, b); }
    forall a, b | StrLe(a, b) && StrLe(b, a) ensures a == b { StrLeAntisymmetric(a, b); }
    forall a, b, c | StrLe(a, b) && StrLe(b, c) ensures StrLe(a, c) { StrLeTransitive(a, b, c); }
  }

  // ------------------------------------------------------ minimum of a set

  lemma MinExists<T(!new)>(s: set<T>, le: (T, T) -> bool)
    requires s != {} && TotalOrder(le)
    ensures exists m :: m in s && forall x :: x in s ==> le(m, x)
    decreases |s|
  {
    var y :| y in s;
    if s == {y} {
      assert forall x :: x in s ==> x == y;
    } else {
      MinExists(s - {y}, le);
      var m :| m in s - {y} && forall x :: x in s - {y} ==> le(m, x);
      if le(y, m) {
        forall x | x in s ensures le(y, x) {
          if x != y { assert x in s - {y}; }
        }
      } else {
        forall x | x in s ensures le(m, x) {
          if x != y { assert x in s - {y}; }
        }
      }
    }
  }

  /** Some element of a non-empty set (the visiting order of a dict's keys). */
  method Choose<T>(s: set<T>) returns (x: T)
    requires s != {}
    ensures x in s
  {
    x :| x in s;
  }

  /** The least element of a finite non-empty set under a total order. */
  function MinOf<T(!new)>(s: set<T>, le: (T, T) -> bool): (m: T)
    requires s != {} && TotalOrder(le)
    ensures m in s && forall x :: x in s ==> le(m, x)
  {
    MinExists(s, le);
    var m :| m in s && forall x :: x in s ==> le(m, x); m
  }

  /** The elements of a finite set in ascending order (Python's `sorted(s)`). */
  function SortedSet<T(!new)>(s: set<T>, le: (T, T) -> bool): (r: seq<T>)
    requires TotalOrder(le)
    ensures |r| == |s|
    ensures forall x :: x in r <==> x in s
    ensures SortedBy(r, le)
    ensures forall i, j :: 0 <= i < j < |r| ==> r[i] != r[j]
    decreases |s|
  {
    if s == {} then []
    else
      var m := MinOf(s, le);
      var rest := SortedSet(s - {m}, le);
      assert forall i :: 0 <= i < |rest| ==> le(m, rest[i]) && rest[i] != m by {
        forall i | 0 <= i < |rest| ensures le(m, rest[i]) && rest[i] != m {
          assert rest[i] in s - {m};
        }
      }
      var r := [m] + rest;
      assert forall i :: 0 < i < |r| ==> r[i] == rest[i - 1];
      r
  }

  // -------------------------------------------------------- insertion sort

  function Insert<T>(x: T, s: seq<T>, le: (T, T) -> bool): (r: seq<T>)
    ensures multiset(r) == multiset(s) + multiset{x}
  {
    if s == [] then [x]
    else if le(x, s[0]) then [x] + s
    else
      assert s == [s[0]] + s[1..];
      [s[0]] + Insert(x, s[1..], le)
  }

  /** Python's `sorted(list)`: a stable insertion sort. */
  function Sort<T>(s: seq<T>, le: (T, T) -> bool): (r: seq<T>)
    ensures multiset(r) == multiset(s)
  {
    if s == [] then []
    else
      assert s == [s[0]] + s[1..];
      Insert(s[0], Sort(s[1..], le), le)
  }

  lemma {:induction false} InsertSorted<T(!new)>(x: T, s: seq<T>, le: (T, T) -> bool)
    requires TotalOrder(le) && SortedBy(s, le)
    ensures SortedBy(Insert(x, s, le), le)
  {
    if s != [] && !le(x, s[0]) {
      InsertSorted(x, s[1..], le);
      var t := Insert(x, s[1..], le);
      assert multiset(t) == multiset(s[1..]) + multiset{x};
      forall i | 0 <= i < |t| ensures le(s[0], t[i]) {
        assert t[i] in multiset(t);
        if t[i] != x {
          assert t[i] in multiset(s[1..]);
          assert t[i] in s[1..];
        }
      }
    }
  }

  lemma {:induction false} SortSorted<T(!new)>(s: seq<T>, le: (T, T) -> bool)
    requires TotalOrder(le)
    ensures SortedBy(Sort(s, le), le)
  {
    if s != [] {
      SortSorted(s[1..], le);
      InsertSorted(s[0], Sort(s[1..], le), le);
    }
  }

  /** Two sorted sequences holding the same elements are equal. */
  lemma SortSameElements<T(!new)>(s: seq<T>, le: (T, T) -> bool)
    ensures |Sort(s, le)| == |s|
    ensures forall x :: x in Sort(s, le) <==> x in s
  {
    var r := Sort(s, le);
    assert |multiset(r)| == |multiset(s)|;
    forall x ensures x in r <==> x in s {
      assert x in r <==> x in multiset(r);
      assert x in s <==> x in multiset(s);
    }
  }

  lemma {:induction false} SortedUnique<T(!new)>(a: seq<T>, b: seq<T>, le: (T, T) -> bool)
    requires TotalOrder(le) && SortedBy(a, le) && SortedBy(b, le)
    requires multiset(a) == multiset(b)
    ensures a == b
  {
    if a != [] {
      assert |b| == |multiset(b)| == |multiset(a)| == |a|;
      assert a[0] in multiset(b) && b[0] in multiset(a);
      assert a[0] in b && b[0] in a;
      assert le(a[0], b[0]) && le(b[0], a[0]);
      assert a[0] == b[0];
      assert a == [a[0]] + a[1..] && b == [b[0]] + b[1..];
      assert multiset(a) == multiset{a[0]} + multiset(a[1..]);
      assert multiset(b) == multiset{a[0]} + multiset(b[1..]);
      assert multiset(a[1..]) == multiset(a) - multiset{a[0]};
      assert multiset(b[1..]) == multiset(b) - multiset{a[0]};
      SortedUnique(a[1..], b[1..], le);
    }
  }

  /** Sorting a list whose elements are exactly a set's yields that set in order. */
  lemma SortOfSetList<T(!new)>(l: seq<T>, s: set<T>, le: (T, T) -> bool)
    requires TotalOrder(le)
    requires multiset(l) == multiset(s)
    ensures Sort(l, le) == SortedSet(s, le)
  {
    SortSorted(l, le);
    var r := SortedSet(s, le);
    assert multiset(r) == multiset(s) by {
      DistinctSeqMultiset(r);
    }
    SortedUnique(Sort(l, le), r, le);
  }

  /** A duplicate-free list with exactly a set's elements has its multiset. */
  lemma DistinctListMultiset<T>(l: seq<T>, s: set<T>)
    requires forall x :: x in l <==> x in s
    requires forall i, j :: 0 <= i < j < |l| ==> l[i] != l[j]
    ensures multiset(l) == multiset(s)
  {
    DistinctSeqMultiset(l);
    assert (set x | x in l) == s;
  }

  lemma {:induction false} DistinctSeqMultiset<T>(r: seq<T>)
    requires forall i, j :: 0 <= i < j < |r| ==> r[i] != r[j]
    ensures multiset(r) == multiset(set x | x in r)
  {
    if r != [] {
      DistinctSeqMultiset(r[1..]);
      assert r == [r[0]] + r[1..];
      assert r[0] !in r[1..];
      assert (set x | x in r) == {r[0]} + (set x | x in r[1..]);
    }
  }

  // ------------------------------------------------------- filter and zip

  /** Python's `[x for x in s if p(x)]`. */
  function Filter<T(!new)>(s: seq<T>, p: T -> bool): (r: seq<T>)
    ensures |r| <= |s|
    ensures forall x :: x in r <==> x in s && p(x)
  {
    if s == [] then []
    else (if p(s[0]) then [s[0]] else []) + Filter(s[1..], p)
  }

  lemma {:induction false} FilterCount<T(!new)>(s: seq<T>, p: T -> bool, x: T)
    ensures multiset(Filter(s, p))[x] == if p(x) then multiset(s)[x] else 0
  {
    if s != [] {
      FilterCount(s[1..], p, x);
      assert s == [s[0]] + s[1..];
    }
  }

  /** Filtering two rearrangements of one list gives rearrangements of one list. */
  lemma FilterPermutation<T(!new)>(a: seq<T>, b: seq<T>, p: T -> bool)
    requires multiset(a) == multiset(b)
    ensures multiset(Filter(a, p)) == multiset(Filter(b, p))
  {
    forall x ensures multiset(Filter(a, p))[x] == multiset(Filter(b, p))[x] {
      FilterCount(a, p, x);
      FilterCount(b, p, x);
    }
  }

  /** Python's `zip(a, b)`, which stops at the shorter input. */
  function Zip<A, B>(a: seq<A>, b: seq<B>): (r: seq<(A, B)>)
    ensures |r| == if |a| <= |b| then |a| else |b|
    ensures forall i :: 0 <= i < |r| ==> r[i] == (a[i], b[i])
  {
    if a == [] || b == [] then [] else [(a[0], b[0])] + Zip(a[1..], b[1..])
  }

  // ----------------------------------------------------------------- sums

  function SumReals(s: seq<real>): real {
    if s == [] then 0.0 else s[0] + SumReals(s[1..])
  }

  lemma {:induction false} SumRealsAppend(a: seq<real>, b: seq<real>)
    ensures SumReals(a + b) == SumReals(a) + SumReals(b)
  {
    if a != [] {
      assert (a + b)[1..] == a[1..] + b;
      SumRealsAppend(a[1..], b);
    } else {
      assert a + b == b;
    }
  }

  lemma {:induction false} SumRealsNonNegative(s: seq<real>)
    requires forall i :: 0 <= i < |s| ==> s[i] >= 0.0
    ensures SumReals(s) >= 0.0
  {
    if s != [] { SumRealsNonNegative(s[1..]); }
  }

  lemma {:induction false} SumRealsAtMostLength(s: seq<real>)
    requires forall i :: 0 <= i < |s| ==> s[i] <= 1.0
    ensures SumReals(s) <= |s| as real
  {
    if s != [] { SumRealsAtMostLength(s[1..]); }
  }

  /** A share of a positive whole lies in [0, 1]. */
  lemma DivUnit(a: real, b: real)
    requires 0.0 <= a <= b && b > 0.0
    ensures 0.0 <= a / b <= 1.0
  {
  }

  /** Maps with the same keys and the same values are equal. */
  lemma MapsEqual<K, V>(a: map<K, V>, b: map<K, V>)
    requires forall k :: k in a <==> k in b
    requires forall k :: k in a ==> a[k] == b[k]
    ensures a == b
  {
  }

  /** An element of a non-empty sequence is in its front or is its last. */
  lemma LastSplit<T>(s: seq<T>, x: T)
    requires s != []
    ensures x in s <==> x in s[..|s| - 1] || x == s[|s| - 1]
  {
    assert s == s[..|s| - 1] + [s[|s| - 1]];
  }

  /** Python's `int(x)`: truncation toward zero. */
  function Trunc(x: real): (t: int)
    ensures 0.0 <= x ==> t as real <= x < t as real + 1.0
    ensures x < 0.0 ==> t as real - 1.0 < x <= t as real
  {
    if x >= 0.0 then x.Floor else -((-x).Floor)
  }

  /** `list.remove(x)`: drop the first occurrence, `None` (a `ValueError`)
      when there is none. */
  function RemoveFirst<T(==)>(s: seq<T>, x: T): Option<seq<T>> {
    if s == [] then None
    else if s[0] == x then Some(s[1..])
    else match RemoveFirst(s[1..], x)
      case None => None
      case Some(rest) => Some([s[0]] + rest)
  }

  /** `remove` succeeds exactly on a member and takes away one copy of it. */
  lemma {:induction false} RemoveFirstMeans<T>(s: seq<T>, x: T)
    ensures RemoveFirst(s, x).Some? <==> x in s
    ensures RemoveFirst(s, x).Some? ==>
      multiset(RemoveFirst(s, x).value) == multiset(s) - multiset{x}
  {
    if s != [] {
      RemoveFirstMeans(s[1..], x);
      assert s == [s[0]] + s[1..];
      assert multiset(s) == multiset{s[0]} + multiset(s[1..]);
    }
  }

  /** The multiset of a non-empty sequence: its front's, and its last. */
  lemma MultisetLast<T>(s: seq<T>)
    requires s != []
    ensures multiset(s) == multiset(s[..|s| - 1]) + multiset{s[|s| - 1]}
  {
    assert s == s[..|s| - 1] + [s[|s| - 1]];
  }

  /** `sum(f(x) for x in s)` over exact reals. */
  function SumOf<T>(s: seq<T>, f: T -> real): real {
    if s == [] then 0.0 else f(s[0]) + SumOf(s[1..], f)
  }

  lemma {:induction false} SumOfAppend<T>(a: seq<T>, b: seq<T>, f: T -> real)
    ensures SumOf(a + b, f) == SumOf(a, f) + SumOf(b, f)
  {
    if a != [] {
      assert (a + b)[0] == a[0] && (a + b)[1..] == a[1..] + b;
      SumOfAppend(a[1..], b, f);
      assert SumOf(a + b, f) == f(a[0]) + SumOf(a[1..] + b, f);
    } else {
      assert a + b == b;
    }
  }

  /** The order of the summands does not matter. */
  lemma {:induction false} SumOfPermutation<T>(a: seq<T>, b: seq<T>, f: T -> real)
    requires multiset(a) == multiset(b)
    ensures SumOf(a, f) == SumOf(b, f)
    decreases |a|
  {
    if a != [] {
      var j := MatchHead(a, b);
      SumOfPermutation(a[1..], b[..j] + b[j + 1..], f);
      SumOfRemoveAt(b, j, f);
    } else {
      assert |b| == |multiset(b)| == 0;
    }
  }

  /** A position of `b` holding the head of its permutation `a`; the rests
      are permutations of each other. */
  lemma MatchHead<T>(a: seq<T>, b: seq<T>) returns (j: int)
    requires multiset(a) == multiset(b) && a != []
    ensures 0 <= j < |b| && b[j] == a[0]
    ensures multiset(a[1..]) == multiset(b[..j] + b[j + 1..])
  {
    assert a[0] in multiset(b);
    assert a[0] in b;
    j :| 0 <= j < |b| && b[j] == a[0];
    assert a == [a[0]] + a[1..];
    assert multiset(a) == multiset{a[0]} + multiset(a[1..]);
    RemoveAt(b, j);
  }

  lemma RemoveAt<T>(s: seq<T>, j: int)
    requires 0 <= j < |s|
    ensures multiset(s[..j] + s[j + 1..]) == multiset(s) - multiset{s[j]}
  {
    assert s == s[..j] + [s[j]] + s[j + 1..];
  }

  lemma SumOfRemoveAt<T>(s: seq<T>, j: int, f: T -> real)
    requires 0 <= j < |s|
    ensures SumOf(s, f) == f(s[j]) + SumOf(s[..j] + s[j + 1..], f)
  {
    assert s == s[..j] + ([s[j]] + s[j + 1..]);
    SumOfAppend(s[..j], [s[j]] + s[j + 1..], f);
    SumOfAppend(s[..j], s[j + 1..], f);
    assert ([s[j]] + s[j + 1..])[1..] == s[j + 1..];
  }

  /** A sum of `f` over `s` is the sum of the values `f` takes there. */
  lemma {:induction false} SumOfValues<T>(s: seq<T>, f: T -> real, vals: seq<real>)
    requires |s| == |vals| && forall i :: 0 <= i < |s| ==> f(s[i]) == vals[i]
    ensures SumOf(s, f) == SumReals(vals)
  {
    if s != [] { SumOfValues(s[1..], f, vals[1..]); }
  }
}
