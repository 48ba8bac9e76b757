/** Sums, sorting and permutations of finite sequences: the vocabulary of the other modules. */
module Seqs {

  /** The sum of f over the elements of s, in order. */
  function Sum<T>(s: seq<T>, f: T -> int): int
  {
    if s == [] then 0 else f(s[0]) + Sum(s[1..], f)
  }

  lemma {:induction false} SumAppend<T>(a: seq<T>, b: seq<T>, f: T -> int)
    ensures Sum(a + b, f) == Sum(a, f) + Sum(b, f)
  {
    if a == [] {
      assert a + b == b;
    } else {
      assert (a + b)[1..] == a[1..] + b;
      SumAppend(a[1..], b, f);
    }
  }

  lemma {:induction false} SumSnoc<T>(a: seq<T>, x: T, f: T -> int)
    ensures Sum(a + [x], f) == Sum(a, f) + f(x)
  {
    SumAppend(a, [x], f);
    assert Sum([x], f) == f(x) + Sum([], f);
  }

  lemma {:induction false} SumSplit<T>(s: seq<T>, k: nat, f: T -> int)
    requires k <= |s|
    ensures Sum(s, f) == Sum(s[..k], f) + Sum(s[k..], f)
  {
    SumAppend(s[..k], s[k..], f);
    assert s == s[..k] + s[k..];
  }

  lemma SumStep<T>(s: seq<T>, k: nat, f: T -> int)
    requires k < |s|
    ensures Sum(s[..k + 1], f) == Sum(s[..k], f) + f(s[k])
  {
    assert s[..k + 1] == s[..k] + [s[k]];
    SumSnoc(s[..k], s[k], f);
  }

  lemma {:induction false} SumMonotone<T>(s: seq<T>, f: T -> int, g: T -> int)
    requires forall x :: x in s ==> f(x) <= g(x)
    ensures Sum(s, f) <= Sum(s, g)
  {
    if s != [] {
      assert s[0] in s;
      forall x | x in s[1..] ensures f(x) <= g(x) { assert x in s; }
      SumMonotone(s[1..], f, g);
    }
  }

  lemma {:induction false} SumCongruent<T>(s: seq<T>, f: T -> int, g: T -> int)
    requires forall x :: x in s ==> f(x) == g(x)
    ensures Sum(s, f) == Sum(s, g)
  {
    SumMonotone(s, f, g);
    SumMonotone(s, g, f);
  }

  function Zero<T>(): T -> int
  {
    x => 0
  }

  lemma {:induction false} SumZero<T>(s: seq<T>)
    ensures Sum(s, Zero()) == 0
  {
    if s != [] {
      SumZero(s[1..]);
    }
  }

  lemma {:induction false} SumNonNegative<T>(s: seq<T>, f: T -> int)
    requires forall x :: x in s ==> 0 <= f(x)
    ensures 0 <= Sum(s, f)
  {
    SumZero(s);
    SumMonotone(s, Zero(), f);
  }

  lemma HeadOfSum<T>(a: seq<T>, b: seq<T>)
    requires a != []
    ensures a + b == [a[0]] + (a[1..] + b)
  {
  }

  lemma CutTail<T>(s: seq<T>, i: nat, m: nat)
    requires i + m <= |s|
    ensures s[i..] == s[i..i + m] + s[i + m..]
  {
  }

  lemma Reassociate<T>(a: seq<T>, b: seq<T>, c: seq<T>)
    ensures a + (b + c) == a + b + c
  {
  }

  /** Removes the element at position k. */
  function Without<T>(s: seq<T>, k: nat): seq<T>
    requires k < |s|
  {
    s[..k] + s[k + 1..]
  }

  lemma WithoutMultiset<T>(s: seq<T>, k: nat)
    requires k < |s|
    ensures multiset(Without(s, k)) == multiset(s) - multiset{s[k]}
  {
    assert s == s[..k] + [s[k]] + s[k + 1..];
  }

  lemma HeadMultiset<T>(s: seq<T>)
    requires s != []
    ensures multiset(s[1..]) == multiset(s) - multiset{s[0]}
  {
    assert s == [s[0]] + s[1..];
  }

  lemma {:induction false} SumWithout<T>(s: seq<T>, k: nat, f: T -> int)
    requires k < |s|
    ensures Sum(s, f) == f(s[k]) + Sum(Without(s, k), f)
  {
    SumAppend(s[..k], s[k + 1..], f);
    SumSplit(s, k, f);
    assert s[k..][1..] == s[k + 1..];
  }

  lemma {:induction false} SumOfZeros<T>(s: seq<T>, f: T -> int)
    requires forall k :: 0 <= k < |s| ==> f(s[k]) == 0
    ensures Sum(s, f) == 0
  {
    SumZero(s);
    SumCongruent(s, f, Zero());
  }

  function One<T>(): T -> int
  {
    x => 1
  }

  lemma {:induction false} SumOne<T>(s: seq<T>)
    ensures Sum(s, One()) == |s|
  {
    if s != [] { SumOne(s[1..]); }
  }

  lemma {:induction false} SumStrict<T>(s: seq<T>, f: T -> int, g: T -> int, x: T)
    requires (forall y :: y in s ==> f(y) <= g(y)) && x in s && f(x) < g(x)
    ensures Sum(s, f) < Sum(s, g)
  {
    assert s[0] in s;
    forall y | y in s[1..] ensures f(y) <= g(y) { assert y in s; }
    if s[0] == x {
      SumMonotone(s[1..], f, g);
    } else {
      SumStrict(s[1..], f, g, x);
    }
  }

  lemma SumUpdate<T>(s: seq<T>, k: nat, x: T, f: T -> int)
    requires k < |s|
    ensures Sum(s[k := x], f) == Sum(s, f) - f(s[k]) + f(x)
  {
    SumWithout(s, k, f);
    SumWithout(s[k := x], k, f);
    assert Without(s[k := x], k) == Without(s, k);
  }

  /** Two sequences with the same elements, counted with multiplicity, have the same sum. */
  lemma {:induction false} SumPermutation<T>(a: seq<T>, b: seq<T>, f: T -> int)
    requires multiset(a) == multiset(b)
    ensures Sum(a, f) == Sum(b, f)
    decreases |a|
  {
    PermutationLength(a, b);
    if a != [] {
      var k := PermutationWitness(a, b);
      SumPermutation(a[1..], Without(b, k), f);
      SumWithout(b, k, f);
    }
  }

  lemma PermutationWitness<T>(a: seq<T>, b: seq<T>) returns (k: nat)
    requires a != [] && multiset(a) == multiset(b)
    ensures k < |b| && b[k] == a[0]
    ensures multiset(a[1..]) == multiset(Without(b, k))
  {
    assert a[0] in multiset(b);
    k :| 0 <= k < |b| && b[k] == a[0];
    WithoutMultiset(b, k);
    HeadMultiset(a);
  }

  lemma PermutationLength<T>(a: seq<T>, b: seq<T>)
    requires multiset(a) == multiset(b)
    ensures |a| == |b|
  {
    assert |multiset(a)| == |a|;
    assert |multiset(b)| == |b|;
  }

  lemma PermutationMembers<T>(a: seq<T>, b: seq<T>)
    requires multiset(a) == multiset(b)
    ensures forall x :: x in a <==> x in b
  {
    forall x ensures x in a <==> x in b {
      assert x in a <==> x in multiset(a);
      assert x in b <==> x in multiset(b);
    }
  }

  /** A comparator a stable sort accepts: total and transitive. */
  ghost predicate TotalPreorder<T(!new)>(le: (T, T) -> bool)
  {
    && (forall x, y :: le(x, y) || le(y, x))
    && (forall x, y, z :: le(x, y) && le(y, z) ==> le(x, z))
  }

  ghost predicate SortedBy<T>(s: seq<T>, le: (T, T) -> bool)
  {
    forall i, j :: 0 <= i < j < |s| ==> le(s[i], s[j])
  }

  function Insert<T>(x: T, s: seq<T>, le: (T, T) -> bool): (r: seq<T>)
    ensures |r| == |s| + 1
  {
    if s == [] || le(x, s[0]) then [x] + s else [s[0]] + Insert(x, s[1..], le)
  }

  /** A stable sort: equal elements keep their order. */
  function Sort<T>(s: seq<T>, le: (T, T) -> bool): (r: seq<T>)
    ensures |r| == |s|
  {
    if s == [] then [] else Insert(s[0], Sort(s[1..], le), le)
  }

  lemma {:induction false} InsertMultiset<T(!new)>(x: T, s: seq<T>, le: (T, T) -> bool)
    ensures multiset(Insert(x, s, le)) == multiset{x} + multiset(s)
  {
    if s != [] && !le(x, s[0]) {
      InsertMultiset(x, s[1..], le);
      assert s == [s[0]] + s[1..];
    }
  }

  lemma {:induction false} InsertMembers<T(!new)>(x: T, s: seq<T>, le: (T, T) -> bool)
    ensures forall y :: y in Insert(x, s, le) ==> y == x || y in s
  {
    if s != [] && !le(x, s[0]) { InsertMembers(x, s[1..], le); }
  }

  lemma SortedCons<T(!new)>(x: T, s: seq<T>, le: (T, T) -> bool)
    requires SortedBy(s, le) && forall y :: y in s ==> le(x, y)
    ensures SortedBy([x] + s, le)
  {
  }

  lemma {:induction false} InsertSorts<T(!new)>(x: T, s: seq<T>, le: (T, T) -> bool)
    requires TotalPreorder(le) && SortedBy(s, le)
    ensures SortedBy(Insert(x, s, le), le)
  {
    if s == [] {
    } else if le(x, s[0]) {
      forall y | y in s ensures le(x, y) {
        var k :| 0 <= k < |s| && s[k] == y;
        assert le(s[0], y);
      }
      SortedCons(x, s, le);
    } else {
      InsertSorts(x, s[1..], le);
      InsertMembers(x, s[1..], le);
      forall y | y in Insert(x, s[1..], le) ensures le(s[0], y) {
        assert y == x || y in s[1..];
      }
      SortedCons(s[0], Insert(x, s[1..], le), le);
    }
  }

  lemma {:induction false} SortSorts<T(!new)>(s: seq<T>, le: (T, T) -> bool)
    requires TotalPreorder(le)
    ensures SortedBy(Sort(s, le), le)
    ensures multiset(Sort(s, le)) == multiset(s)
  {
    if s != [] {
      SortSorts(s[1..], le);
      InsertSorts(s[0], Sort(s[1..], le), le);
      InsertMultiset(s[0], Sort(s[1..], le), le);
      assert s == [s[0]] + s[1..];
    }
  }

  lemma {:induction false} SortOfSorted<T(!new)>(s: seq<T>, le: (T, T) -> bool)
    requires SortedBy(s, le)
    ensures Sort(s, le) == s
  {
    if s != [] {
      SortOfSorted(s[1..], le);
      assert s[1..] != [] ==> le(s[0], s[1]);
      assert s == [s[0]] + s[1..];
    }
  }

  /** The ascending order on integers. */
  function Ascending(): (int, int) -> bool
  {
    (x, y) => x <= y
  }

  lemma SortedHeads(a: seq<int>, b: seq<int>)
    requires a != [] && b != [] && multiset(a) == multiset(b)
    requires SortedBy(a, Ascending()) && SortedBy(b, Ascending())
    ensures a[0] == b[0]
  {
    PermutationMembers(a, b);
    assert a[0] in b && b[0] in a;
    var i :| 0 <= i < |b| && b[i] == a[0];
    var j :| 0 <= j < |a| && a[j] == b[0];
    assert Ascending()(b[0], b[i]) && Ascending()(a[0], a[j]);
  }

  /** Sorted integer sequences with the same elements are equal. */
  lemma {:induction false} SortedUnique(a: seq<int>, b: seq<int>)
    requires multiset(a) == multiset(b)
    requires SortedBy(a, Ascending()) && SortedBy(b, Ascending())
    ensures a == b
  {
    PermutationLength(a, b);
    if a != [] {
      SortedHeads(a, b);
      HeadMultiset(a);
      HeadMultiset(b);
      SortedUnique(a[1..], b[1..]);
      assert a == [a[0]] + a[1..] && b == [b[0]] + b[1..];
    }
  }

  /** Sorting integers forgets the order they came in. */
  lemma {:induction false} SortForgetsOrder(a: seq<int>, b: seq<int>)
    requires multiset(a) == multiset(b)
    ensures Sort(a, Ascending()) == Sort(b, Ascending())
  {
    SortSorts(a, Ascending());
    SortSorts(b, Ascending());
    SortedUnique(Sort(a, Ascending()), Sort(b, Ascending()));
  }

  /** An injection from a set of numbers into [0, n) bounds the set's size by n. */
  lemma {:induction false} InjectionBound(s: set<nat>, f: nat -> nat, n: nat)
    requires forall i :: i in s ==> f(i) < n
    requires forall i, j :: i in s && j in s && f(i) == f(j) ==> i == j
    ensures |s| <= n
    decreases n
  {
    if n == 0 {
      assert forall i :: i !in s;
    } else if exists i :: i in s && f(i) == n - 1 {
      var i :| i in s && f(i) == n - 1;
      InjectionBound(s - {i}, f, n - 1);
      assert s == (s - {i}) + {i};
    } else {
      InjectionBound(s, f, n - 1);
    }
  }

  ghost predicate Distinct<T>(s: seq<T>)
  {
    forall i, j :: 0 <= i < j < |s| ==> s[i] != s[j]
  }

  lemma DistinctWithout<T>(s: seq<T>, k: nat)
    requires k < |s| && multiset(s)[s[k]] == 1
    ensures s[k] !in Without(s, k)
  {
    WithoutMultiset(s, k);
    assert s[k] !in multiset(Without(s, k));
  }

  lemma DistinctCount<T>(s: seq<T>, k: nat)
    requires Distinct(s) && k < |s|
    ensures multiset(s)[s[k]] == 1
  {
    WithoutMultiset(s, k);
    assert s[k] !in Without(s, k);
    assert s[k] !in multiset(Without(s, k));
  }

  lemma DistinctPermutation<T>(a: seq<T>, b: seq<T>)
    requires Distinct(a) && multiset(a) == multiset(b)
    ensures Distinct(b)
  {
    forall p, q | 0 <= p < q < |b| ensures b[p] != b[q] {
      assert b[q] in multiset(a);
      var k :| 0 <= k < |a| && a[k] == b[q];
      DistinctCount(a, k);
      DistinctWithout(b, q);
      assert Without(b, q)[p] == b[p];
    }
  }

  function Below(m: nat): (r: set<nat>)
    ensures |r| == m && forall k: nat :: k in r <==> k < m
  {
    if m == 0 then {} else Below(m - 1) + {m - 1}
  }

  /** Numbers below n that are all different are at most n in number. */
  lemma DistinctFits(p: seq<nat>, n: nat)
    requires Distinct(p) && forall k :: 0 <= k < |p| ==> p[k] < n
    ensures |p| <= n
  {
    InjectionBound(Below(|p|), (k: nat) => if k < |p| then p[k] else 0, n);
  }

  /** x stands before y somewhere in s. */
  ghost predicate Before<T>(s: seq<T>, x: T, y: T)
  {
    exists i, j :: 0 <= i < j < |s| && s[i] == x && s[j] == y
  }

  lemma BeforeSnoc<T>(s: seq<T>, z: T, x: T, y: T)
    ensures Before(s + [z], x, y) <==> Before(s, x, y) || (x in s && y == z)
  {
    var t := s + [z];
    if Before(s, x, y) {
      var i, j :| 0 <= i < j < |s| && s[i] == x && s[j] == y;
      assert t[i] == x && t[j] == y;
    }
    if x in s && y == z {
      var i :| 0 <= i < |s| && s[i] == x;
      assert t[i] == x && t[|s|] == y;
    }
  }

  lemma BeforeAppend<T>(s: seq<T>, t: seq<T>, x: T, y: T)
    requires Before(s, x, y) || (x in s && y in t) || Before(t, x, y)
    ensures Before(s + t, x, y)
  {
    var u := s + t;
    if Before(s, x, y) {
      var i, j :| 0 <= i < j < |s| && s[i] == x && s[j] == y;
      assert u[i] == x && u[j] == y;
    } else if Before(t, x, y) {
      var i, j :| 0 <= i < j < |t| && t[i] == x && t[j] == y;
      assert u[|s| + i] == x && u[|s| + j] == y;
    } else {
      var i :| 0 <= i < |s| && s[i] == x;
      var j :| 0 <= j < |t| && t[j] == y;
      assert u[i] == x && u[|s| + j] == y;
    }
  }

  lemma OneWay<T>(s: seq<T>, x: T, y: T)
    requires Distinct(s) && Before(s, x, y)
    ensures !Before(s, y, x)
  {
  }

  lemma BeforeCons<T>(h: T, s: seq<T>, x: T, y: T)
    ensures Before([h] + s, x, y) <==> (h == x && y in s) || Before(s, x, y)
  {
    var t := [h] + s;
    if h == x && y in s {
      var j :| 0 <= j < |s| && s[j] == y;
      assert t[0] == x && t[j + 1] == y;
    }
    if Before(s, x, y) {
      var i, j :| 0 <= i < j < |s| && s[i] == x && s[j] == y;
      assert t[i + 1] == x && t[j + 1] == y;
    }
  }

  lemma {:induction false} InsertGoesFirst<T(!new)>(x: T, s: seq<T>, le: (T, T) -> bool, y: T)
    requires y in s && le(x, y)
    ensures Before(Insert(x, s, le), x, y)
  {
    assert s == [s[0]] + s[1..];
    if le(x, s[0]) {
      BeforeCons(x, s, x, y);
    } else {
      InsertGoesFirst(x, s[1..], le, y);
      BeforeCons(s[0], Insert(x, s[1..], le), x, y);
    }
  }

  lemma {:induction false} InsertKeepsBefore<T(!new)>(x: T, s: seq<T>, le: (T, T) -> bool, y: T, z: T)
    requires Before(s, y, z)
    ensures Before(Insert(x, s, le), y, z)
  {
    assert s == [s[0]] + s[1..];
    if le(x, s[0]) {
      BeforeCons(x, s, y, z);
    } else {
      BeforeCons(s[0], s[1..], y, z);
      BeforeCons(s[0], Insert(x, s[1..], le), y, z);
      InsertMultiset(x, s[1..], le);
      if Before(s[1..], y, z) {
        InsertKeepsBefore(x, s[1..], le, y, z);
      } else {
        assert z in multiset(Insert(x, s[1..], le));
      }
    }
  }

  /** The sort is stable: what stands before another in the right order, or level with it, stays before it. */
  lemma {:induction false} SortKeepsBefore<T(!new)>(s: seq<T>, le: (T, T) -> bool, x: T, y: T)
    requires TotalPreorder(le) && Before(s, x, y) && le(x, y)
    ensures Before(Sort(s, le), x, y)
  {
    assert s == [s[0]] + s[1..];
    BeforeCons(s[0], s[1..], x, y);
    SortSorts(s[1..], le);
    if Before(s[1..], x, y) {
      SortKeepsBefore(s[1..], le, x, y);
      InsertKeepsBefore(s[0], Sort(s[1..], le), le, x, y);
    } else {
      PermutationMembers(Sort(s[1..], le), s[1..]);
      InsertGoesFirst(x, Sort(s[1..], le), le, y);
    }
  }

  function Filter<T>(s: seq<T>, p: T -> bool): seq<T>
  {
    if s == [] then [] else (if p(s[0]) then [s[0]] else []) + Filter(s[1..], p)
  }

  lemma {:induction false} FilterAppend<T>(a: seq<T>, b: seq<T>, p: T -> bool)
    ensures Filter(a + b, p) == Filter(a, p) + Filter(b, p)
  {
    if a == [] {
      assert a + b == b;
    } else {
      var head := if p(a[0]) then [a[0]] else [];
      assert (a + b)[0] == a[0] && (a + b)[1..] == a[1..] + b;
      FilterAppend(a[1..], b, p);
      Reassociate(head, Filter(a[1..], p), Filter(b, p));
    }
  }

  lemma {:induction false} FilterNone<T>(s: seq<T>, p: T -> bool)
    requires forall x :: x in s ==> !p(x)
    ensures Filter(s, p) == []
  {
    if s != [] {
      assert s[0] in s;
      FilterNone(s[1..], p);
    }
  }

  lemma {:induction false} InsertFilter<T(!new)>(x: T, s: seq<T>, le: (T, T) -> bool, p: T -> bool)
    requires forall y, z :: p(y) && p(z) ==> le(y, z)
    ensures Filter(Insert(x, s, le), p) == (if p(x) then [x] else []) + Filter(s, p)
  {
    if s != [] && !le(x, s[0]) {
      InsertFilter(x, s[1..], le, p);
      assert Insert(x, s, le)[1..] == Insert(x, s[1..], le);
    } else {
      assert Insert(x, s, le)[1..] == s;
    }
  }

  /** The sort is stable: elements that are level with each other keep their order. */
  lemma {:induction false} SortKeepsFilter<T(!new)>(s: seq<T>, le: (T, T) -> bool, p: T -> bool)
    requires forall y, z :: p(y) && p(z) ==> le(y, z)
    ensures Filter(Sort(s, le), p) == Filter(s, p)
  {
    if s != [] {
      SortKeepsFilter(s[1..], le, p);
      InsertFilter(s[0], Sort(s[1..], le), le, p);
    }
  }
}
