/** Stable sorting by a comparator, top-K truncation, and why their order of composition does not matter. */
module StableSort {

  // ---------- sequences as sets ----------

  function Elems<T(==)>(s: seq<T>): set<T> {
    set x | x in s
  }

  predicate NoDup<T(==)>(s: seq<T>) {
    forall i, j | 0 <= i < j < |s| :: s[i] != s[j]
  }

  function Filter<T>(p: T -> bool, s: seq<T>): seq<T> {
    if s == [] then [] else Filter(p, s[..|s| - 1]) + (if p(s[|s| - 1]) then [s[|s| - 1]] else [])
  }

  /** Truncation as every query does it: `topK > 0 && len(s) > topK`. */
  function TopK<T>(k: int, s: seq<T>): seq<T> {
    if 0 < k < |s| then s[..k] else s
  }

  ghost function Enumerate<T(!new)>(es: set<T>): (s: seq<T>)
    ensures NoDup(s) && Elems(s) == es
  {
    if es == {} then [] else
      var x :| x in es;
      var rest := Enumerate(es - {x});
      var s := [x] + rest;
      assert forall y :: y in s <==> y == x || y in Elems(rest);
      assert x !in Elems(rest);
      s
  }

  ghost function Pick<T>(es: set<T>): (x: T)
    requires es != {}
    ensures x in es
  {
    var x :| x in es; x
  }

  lemma TopKElems<T(!new)>(k: int, s: seq<T>)
    ensures Elems(TopK(k, s)) <= Elems(s)
  {}

  lemma ElemsSnoc<T(!new)>(s: seq<T>, x: T)
    ensures Elems(s + [x]) == Elems(s) + {x}
  {}

  lemma ElemsConcat<T(!new)>(s: seq<T>, t: seq<T>)
    ensures Elems(s + t) == Elems(s) + Elems(t)
  {}

  /** `slices.Collect(maps.Keys(...))`: the elements in some order. */
  method Collect<T(==,!new)>(es: set<T>) returns (s: seq<T>)
    ensures NoDup(s) && Elems(s) == es
  {
    s := [];
    var todo := es;
    while todo != {}
      invariant NoDup(s) && todo <= es && Elems(s) == es - todo
    {
      var x :| x in todo;
      assert x !in Elems(s);
      ElemsSnoc(s, x);
      s, todo := s + [x], todo - {x};
    }
  }

  lemma {:induction false} FilterMembers<T(!new)>(p: T -> bool, s: seq<T>, x: T)
    ensures x in Filter(p, s) <==> x in s && p(x)
  {
    if s != [] {
      FilterMembers(p, s[..|s| - 1], x);
      assert s == s[..|s| - 1] + [s[|s| - 1]];
    }
  }

  lemma {:induction false} FilterNoDup<T(!new)>(p: T -> bool, s: seq<T>)
    requires NoDup(s)
    ensures NoDup(Filter(p, s))
  {
    if s != [] {
      FilterNoDup(p, s[..|s| - 1]);
      FilterMembers(p, s[..|s| - 1], s[|s| - 1]);
    }
  }

  lemma {:induction false} FilterConcat<T(!new)>(p: T -> bool, s: seq<T>, t: seq<T>)
    ensures Filter(p, s + t) == Filter(p, s) + Filter(p, t)
  {
    if t == [] {
      assert s + t == s;
    } else {
      assert (s + t)[..|s + t| - 1] == s + t[..|t| - 1];
      FilterConcat(p, s, t[..|t| - 1]);
    }
  }

  lemma {:induction false} FilterAll<T(!new)>(p: T -> bool, s: seq<T>)
    requires forall x | x in s :: p(x)
    ensures Filter(p, s) == s
  {
    if s != [] {
      FilterAll(p, s[..|s| - 1]);
      assert s == s[..|s| - 1] + [s[|s| - 1]];
    }
  }

  lemma {:induction false} FilterCongruent<T(!new)>(p: T -> bool, q: T -> bool, s: seq<T>)
    requires forall x | x in s :: p(x) == q(x)
    ensures Filter(p, s) == Filter(q, s)
  {
    if s != [] { FilterCongruent(p, q, s[..|s| - 1]); }
  }

  // ---------- the sort ----------

  /** Moves x left from the end of s past every element it is strictly less than. */
  function Insert<T>(lt: (T, T) -> bool, s: seq<T>, x: T): seq<T> {
    if s == [] || !lt(x, s[|s| - 1]) then s + [x] else Insert(lt, s[..|s| - 1], x) + [s[|s| - 1]]
  }

  function Sort<T>(lt: (T, T) -> bool, s: seq<T>): seq<T> {
    if s == [] then [] else Insert(lt, Sort(lt, s[..|s| - 1]), s[|s| - 1])
  }

  /** One pass of the insertion sort: swaps a[i] left until its left neighbour is not greater. */
  method SiftLeft<T>(lt: (T, T) -> bool, a: array<T>, i: nat)
    requires i < a.Length
    modifies a
    ensures a[..i + 1] == Insert(lt, old(a[..i]), old(a[i]))
    ensures a[i + 1..] == old(a[i + 1..])
  {
    var j := i;
    ghost var was := a[..];
    while j > 0 && lt(a[j], a[j - 1])
      invariant 0 <= j <= i && a[j] == was[i]
      invariant forall m | 0 <= m < j :: a[m] == was[m]
      invariant forall m | j < m <= i :: a[m] == was[m - 1]
      invariant forall m | i < m < a.Length :: a[m] == was[m]
      invariant Insert(lt, was[..j], was[i]) + was[j..i] == Insert(lt, was[..i], was[i])
    {
      InsertPasses(lt, was, was[i], j, i);
      a[j], a[j - 1] := a[j - 1], a[j];
      j := j - 1;
    }
    InsertStops(lt, was, was[i], j);
    assert a[..i + 1] == was[..j] + [was[i]] + was[j..i];
  }

  lemma InsertStops<T>(lt: (T, T) -> bool, s: seq<T>, x: T, j: nat)
    requires j <= |s| && (j == 0 || !lt(x, s[j - 1]))
    ensures Insert(lt, s[..j], x) == s[..j] + [x]
  {}

  lemma InsertPasses<T>(lt: (T, T) -> bool, s: seq<T>, x: T, j: nat, i: nat)
    requires 0 < j <= i <= |s| && lt(x, s[j - 1])
    ensures Insert(lt, s[..j], x) + s[j..i] == Insert(lt, s[..j - 1], x) + s[j - 1..i]
  {
    assert s[..j][..j - 1] == s[..j - 1];
    assert s[j - 1..i] == [s[j - 1]] + s[j..i];
  }

  /**
   A stable in-place sort, by insertion. The library's own sorts insert only within small blocks; they give this
   result whenever the comparator is a strict total order on the elements, since the ascending order is unique.
   */
  method SortInPlace<T>(lt: (T, T) -> bool, a: array<T>)
    modifies a
    ensures a[..] == Sort(lt, old(a[..]))
  {
    ghost var was := a[..];
    for i := 0 to a.Length
      invariant a[..i] == Sort(lt, was[..i])
      invariant a[i..] == was[i..]
    {
      assert was[..i + 1][..i] == was[..i] && a[i] == was[i];
      SiftLeft(lt, a, i);
    }
    assert a[..a.Length] == a[..] && was[..a.Length] == was;
  }

  method Sorted<T>(lt: (T, T) -> bool, s: seq<T>) returns (r: seq<T>)
    ensures r == Sort(lt, s)
  {
    var a := new T[|s|](i requires 0 <= i < |s| => s[i]);
    assert a[..] == s;
    SortInPlace(lt, a);
    r := a[..];
  }

  lemma {:induction false} InsertKeeps<T(!new)>(lt: (T, T) -> bool, s: seq<T>, x: T)
    ensures multiset(Insert(lt, s, x)) == multiset(s) + multiset{x}
  {
    if s != [] && lt(x, s[|s| - 1]) {
      InsertKeeps(lt, s[..|s| - 1], x);
      assert s == s[..|s| - 1] + [s[|s| - 1]];
    }
  }

  /** Sorting by any comparator whatever, transitive or not, only permutes. */
  lemma {:induction false} SortPermutes<T(!new)>(lt: (T, T) -> bool, s: seq<T>)
    ensures multiset(Sort(lt, s)) == multiset(s)
  {
    if s != [] {
      SortPermutes(lt, s[..|s| - 1]);
      InsertKeeps(lt, Sort(lt, s[..|s| - 1]), s[|s| - 1]);
      assert s == s[..|s| - 1] + [s[|s| - 1]];
    }
  }

  lemma SortMembers<T(!new)>(lt: (T, T) -> bool, s: seq<T>)
    ensures Elems(Sort(lt, s)) == Elems(s) && |Sort(lt, s)| == |s|
  {
    SortPermutes(lt, s);
    assert |multiset(Sort(lt, s))| == |multiset(s)|;
    forall x: T ensures x in Elems(Sort(lt, s)) <==> x in Elems(s) {
      assert x in Sort(lt, s) <==> x in multiset(Sort(lt, s));
      assert x in s <==> x in multiset(s);
    }
  }

  lemma SortNoDup<T(!new)>(lt: (T, T) -> bool, s: seq<T>)
    requires NoDup(s)
    ensures NoDup(Sort(lt, s))
  {
    SortPermutes(lt, s);
    PermutationNoDup(s, Sort(lt, s));
  }

  lemma PermutationNoDup<T(!new)>(s: seq<T>, r: seq<T>)
    requires NoDup(s) && multiset(r) == multiset(s)
    ensures NoDup(r)
  {
    forall i, j | 0 <= i < j < |r| ensures r[i] != r[j] {
      if r[i] == r[j] {
        assert r == r[..i] + [r[i]] + r[i + 1..j] + [r[j]] + r[j + 1..];
        assert multiset(r)[r[i]] >= 2;
        NoDupCounts(s, r[i]);
      }
    }
  }

  lemma {:induction false} NoDupCounts<T(!new)>(s: seq<T>, x: T)
    requires NoDup(s)
    ensures multiset(s)[x] <= 1
  {
    if s != [] {
      var front, last := s[..|s| - 1], s[|s| - 1];
      assert s == front + [last];
      NoDupCounts(front, x);
      assert last !in front;
    }
  }

  lemma {:induction false} InsertCongruent<T(!new)>(f: (T, T) -> bool, g: (T, T) -> bool, s: seq<T>, x: T)
    requires forall y | y in s :: f(x, y) == g(x, y)
    ensures Insert(f, s, x) == Insert(g, s, x)
  {
    if s != [] { InsertCongruent(f, g, s[..|s| - 1], x); }
  }

  /** Comparators that agree on the elements sort them alike. */
  lemma {:induction false} SortCongruent<T(!new)>(f: (T, T) -> bool, g: (T, T) -> bool, s: seq<T>)
    requires forall x, y | x in s && y in s :: f(x, y) == g(x, y)
    ensures Sort(f, s) == Sort(g, s)
  {
    if s != [] {
      SortCongruent(f, g, s[..|s| - 1]);
      SortMembers(f, s[..|s| - 1]);
      forall y | y in Sort(f, s[..|s| - 1]) ensures y in s {
        assert y in Elems(Sort(f, s[..|s| - 1]));
      }
      InsertCongruent(f, g, Sort(f, s[..|s| - 1]), s[|s| - 1]);
    }
  }

  // ---------- strict total orders ----------

  ghost predicate StrictOrder<T(!new)>(lt: (T, T) -> bool, es: set<T>) {
    && (forall x | x in es :: !lt(x, x))
    && (forall x, y, z | x in es && y in es && z in es && lt(x, y) && lt(y, z) :: lt(x, z))
    && (forall x, y | x in es && y in es && x != y :: lt(x, y) || lt(y, x))
  }

  ghost predicate Ascending<T>(lt: (T, T) -> bool, s: seq<T>) {
    forall i, j | 0 <= i < j < |s| :: lt(s[i], s[j])
  }

  lemma InsertMembers<T(!new)>(lt: (T, T) -> bool, s: seq<T>, x: T, y: T)
    ensures y in Insert(lt, s, x) <==> y in s || y == x
  {
    InsertKeeps(lt, s, x);
    assert y in Insert(lt, s, x) <==> y in multiset(Insert(lt, s, x));
  }

  lemma {:induction false} InsertAscending<T(!new)>(lt: (T, T) -> bool, s: seq<T>, x: T)
    requires Ascending(lt, s)
    requires forall y | y in s :: lt(x, y) || lt(y, x)
    requires forall y, z | y in s && z in s && lt(y, z) && lt(z, x) :: lt(y, x)
    ensures Ascending(lt, Insert(lt, s, x))
  {
    if s != [] {
      var front, last := s[..|s| - 1], s[|s| - 1];
      assert s == front + [last];
      if lt(x, last) {
        InsertAscending(lt, front, x);
        forall y | y in Insert(lt, front, x) ensures lt(y, last) { InsertMembers(lt, front, x, y); }
      } else {
        assert forall y | y in front :: lt(y, last);
      }
    }
  }

  lemma {:induction false} SortAscending<T(!new)>(lt: (T, T) -> bool, s: seq<T>)
    requires NoDup(s) && StrictOrder(lt, Elems(s))
    ensures Ascending(lt, Sort(lt, s))
  {
    if s != [] {
      var front, last := s[..|s| - 1], s[|s| - 1];
      assert s == front + [last];
      assert Elems(front) + {last} == Elems(s);
      SortAscending(lt, front);
      SortMembers(lt, front);
      forall y | y in Sort(lt, front) ensures y in Elems(front) && y in Elems(s) && y != last {
        assert y in Elems(Sort(lt, front));
      }
      InsertAscending(lt, Sort(lt, front), last);
    }
  }

  lemma SomeElems<T(!new)>(s: seq<T>)
    requires s != []
    ensures Elems(s) != {}
  {
    assert s[0] in Elems(s);
  }

  /** A set has at most one ascending enumeration. */
  lemma {:induction false} AscendingUnique<T(!new)>(lt: (T, T) -> bool, s: seq<T>, t: seq<T>)
    requires Ascending(lt, s) && Ascending(lt, t) && Elems(s) == Elems(t) && StrictOrder(lt, Elems(s))
    ensures s == t
  {
    if s == [] {
      assert Elems(t) == {};
      if t != [] { SomeElems(t); }
    } else {
      assert s[0] in Elems(t);
      var j :| 0 <= j < |t| && t[j] == s[0];
      assert t[0] in Elems(s);
      var i :| 0 <= i < |s| && s[i] == t[0];
      var x, y := s[0], t[0];
      assert i == 0 || lt(x, y);
      assert j == 0 || lt(y, x);
      assert x == y;
      assert s[0] !in s[1..] && t[0] !in t[1..];
      assert Elems(s[1..]) == Elems(s) - {s[0]} by {
        assert s == [s[0]] + s[1..];
      }
      assert Elems(t[1..]) == Elems(t) - {t[0]} by {
        assert t == [t[0]] + t[1..];
      }
      AscendingUnique(lt, s[1..], t[1..]);
      assert s == [s[0]] + s[1..] && t == [t[0]] + t[1..];
    }
  }

  // ---------- ranking a set ----------

  /** The ascending enumeration of a set: what every ranked answer is compared with. */
  ghost function Rank<T(!new)>(lt: (T, T) -> bool, es: set<T>): seq<T> {
    Sort(lt, Enumerate(es))
  }

  lemma RankIsAscending<T(!new)>(lt: (T, T) -> bool, es: set<T>)
    requires StrictOrder(lt, es)
    ensures Ascending(lt, Rank(lt, es)) && Elems(Rank(lt, es)) == es && NoDup(Rank(lt, es))
  {
    SortAscending(lt, Enumerate(es));
    SortMembers(lt, Enumerate(es));
    var r := Rank(lt, es);
    forall i, j | 0 <= i < j < |r| ensures r[i] != r[j] {
      assert r[i] in Elems(r);
    }
  }

  /** Sorting forgets the order in which the elements arrived. */
  lemma SortIsRank<T(!new)>(lt: (T, T) -> bool, s: seq<T>)
    requires NoDup(s) && StrictOrder(lt, Elems(s))
    ensures Sort(lt, s) == Rank(lt, Elems(s))
  {
    SortAscending(lt, s);
    SortMembers(lt, s);
    RankIsAscending(lt, Elems(s));
    AscendingUnique(lt, Sort(lt, s), Rank(lt, Elems(s)));
  }

  lemma {:induction false} FilterAscending<T(!new)>(lt: (T, T) -> bool, p: T -> bool, s: seq<T>)
    requires Ascending(lt, s)
    ensures Ascending(lt, Filter(p, s))
  {
    if s != [] {
      var front, last := s[..|s| - 1], s[|s| - 1];
      FilterAscending(lt, p, front);
      forall y | y in Filter(p, front) ensures lt(y, last) { FilterMembers(p, front, y); }
    }
  }

  /** Filtering a ranked list is ranking the filtered set. */
  lemma RankFilter<T(!new)>(lt: (T, T) -> bool, p: T -> bool, es: set<T>, kept: set<T>)
    requires StrictOrder(lt, es) && forall x :: x in kept <==> x in es && p(x)
    ensures Filter(p, Rank(lt, es)) == Rank(lt, kept)
  {
    var r := Filter(p, Rank(lt, es));
    RankIsAscending(lt, es);
    RankIsAscending(lt, kept);
    FilterAscending(lt, p, Rank(lt, es));
    forall x ensures x in Elems(r) <==> x in kept {
      FilterMembers(p, Rank(lt, es), x);
      assert x in Rank(lt, es) <==> x in Elems(Rank(lt, es));
    }
    AscendingUnique(lt, r, Rank(lt, kept));
  }

  /** Any subset that still holds the first k elements has the same first k elements. */
  lemma TopKOfPart<T(!new)>(lt: (T, T) -> bool, k: int, part: set<T>, whole: set<T>)
    requires StrictOrder(lt, whole) && part <= whole && Elems(TopK(k, Rank(lt, whole))) <= part
    ensures TopK(k, Rank(lt, part)) == TopK(k, Rank(lt, whole))
  {
    var r := Rank(lt, whole);
    RankIsAscending(lt, whole);
    if 0 < k < |r| {
      var p := (x: T) => x in part;
      RankFilter(lt, p, whole, part);
      FilterAllowsPrefix(p, r, k);
    } else {
      assert part == whole;
    }
  }

  /** Whatever truncation keeps comes before whatever it drops. */
  lemma TopKPrecedes<T(!new)>(lt: (T, T) -> bool, k: int, r: seq<T>, b: T, c: T)
    requires Ascending(lt, r) && b in TopK(k, r) && c in r && c !in TopK(k, r)
    ensures lt(b, c)
  {
    var j :| 0 <= j < |r| && r[j] == c;
    var i :| 0 <= i < |TopK(k, r)| && TopK(k, r)[i] == b;
    assert forall n | 0 <= n < |TopK(k, r)| :: r[n] in TopK(k, r);
  }

  /** Filtering can only move an element forward. */
  lemma FilterAdvances<T(!new)>(p: T -> bool, k: int, s: seq<T>, x: T)
    requires x in TopK(k, s) && p(x)
    ensures x in TopK(k, Filter(p, s))
  {
    FilterShrinks(p, s);
    FilterMembers(p, s, x);
    if 0 < k < |s| {
      FilterConcat(p, s[..k], s[k..]);
      FilterMembers(p, s[..k], x);
      FilterShrinks(p, s[..k]);
      assert s == s[..k] + s[k..];
      var j :| 0 <= j < |Filter(p, s[..k])| && Filter(p, s[..k])[j] == x;
      assert TopK(k, Filter(p, s))[j] == x;
    }
  }

  lemma {:induction false} FilterShrinks<T>(p: T -> bool, s: seq<T>)
    ensures |Filter(p, s)| <= |s|
  {
    if s != [] { FilterShrinks(p, s[..|s| - 1]); }
  }

  lemma FilterAllowsPrefix<T(!new)>(p: T -> bool, r: seq<T>, k: nat)
    requires k < |r| && forall x | x in Elems(r[..k]) :: p(x)
    ensures TopK(k, Filter(p, r)) == if 0 < k then r[..k] else Filter(p, r)
  {
    assert forall x | x in r[..k] :: x in Elems(r[..k]);
    FilterAll(p, r[..k]);
    FilterConcat(p, r[..k], r[k..]);
    assert r == r[..k] + r[k..];
  }

  lemma {:induction false} NoDupSize<T>(s: seq<T>)
    requires NoDup(s)
    ensures |Elems(s)| == |s|
  {
    if s != [] {
      NoDupSize(s[1..]);
      assert s == [s[0]] + s[1..];
      assert Elems(s) == Elems(s[1..]) + {s[0]} && s[0] !in Elems(s[1..]);
    }
  }
}
