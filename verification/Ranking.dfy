/** Weighted scores, the tolerant comparator, and the reference answer every store must give. */
module Ranking {
  import opened Entries
  import opened StableSort
  import Text

  type Weight = Entry -> real

  const EPSILON := 0.0000000001

  // ---------- weighted score ----------

  /** LastHit, or Created for an entry that was never hit. */
  function Reference(e: Entry): Time {
    if e.lastHit == 0 then e.created else e.lastHit
  }

  function WeightedScore(decay: Time -> real, now: Time): Weight {
    (e: Entry) => e.score * decay(now - Reference(e))
  }

  /** What the model assumes of `exp(-0.05 * days)`. */
  ghost predicate Exponential(decay: Time -> real) {
    && (forall t :: decay(t) > 0.0)
    && (forall s, t :: Composes(decay, s, t))
  }

  ghost predicate Composes(decay: Time -> real, s: Time, t: Time) {
    decay(s + t) == decay(s) * decay(t)
  }

  // ---------- the comparator ----------

  /** `strings.Compare`. */
  function CompareIds(a: string, b: string): int {
    if Text.Less(a, b) then -1 else if a == b then 0 else 1
  }

  function Compare(w: Weight, a: Entry, b: Entry): int {
    if -EPSILON < w(a) - w(b) < EPSILON then CompareIds(a.id, b.id)
    else if w(b) < w(a) then -1
    else 1
  }

  function Comparator(w: Weight): (Entry, Entry) -> bool {
    (a, b) => Compare(w, a, b) < 0
  }

  /** The comparator without its tolerance. */
  function Order(w: Weight): (Entry, Entry) -> bool {
    (a, b) => w(b) < w(a) || (w(a) == w(b) && Text.Less(a.id, b.id))
  }

  /** Weights that differ at all differ by at least the tolerance. */
  ghost predicate Gapped(w: Weight, es: set<Entry>) {
    forall a, b | a in es && b in es :: w(a) <= w(b) - EPSILON || w(a) == w(b) || w(b) <= w(a) - EPSILON
  }

  lemma OrderIsStrict(w: Weight, es: set<Entry>)
    requires DistinctIds(es)
    ensures StrictOrder(Order(w), es)
  {
    forall a | a in es ensures !Order(w)(a, a) { Text.LessIrreflexive(a.id); }
    forall a, b, c | a in es && b in es && c in es && Order(w)(a, b) && Order(w)(b, c) ensures Order(w)(a, c) {
      if Text.Less(a.id, b.id) && Text.Less(b.id, c.id) { Text.LessTransitive(a.id, b.id, c.id); }
    }
    forall a, b | a in es && b in es && a != b ensures Order(w)(a, b) || Order(w)(b, a) {
      Text.LessTotal(a.id, b.id);
    }
  }

  /** With the gap the comparator is the strict total order; without it, see ToleranceIsNotTransitive. */
  lemma ComparatorIsStrict(w: Weight, es: set<Entry>)
    requires DistinctIds(es) && Gapped(w, es)
    ensures StrictOrder(Comparator(w), es)
    ensures forall a, b | a in es && b in es :: Comparator(w)(a, b) == Order(w)(a, b)
  {
    OrderIsStrict(w, es);
    forall a, b | a in es && b in es ensures Comparator(w)(a, b) == Order(w)(a, b) {}
  }

  /** Whatever the decay and the time, three weighted scores closer than the tolerance can go round in a circle. */
  lemma ToleranceIsNotTransitive(decay: Time -> real, now: Time) returns (a: Entry, b: Entry, c: Entry)
    requires Exponential(decay)
    ensures DistinctIds({a, b, c})
    ensures var lt := Comparator(WeightedScore(decay, now)); lt(a, b) && lt(b, c) && lt(c, a)
  {
    a := Entry("a", "", [], "domain", "global", 0.0, 0, now, now, "");
    b := a.(id := "b", score := 0.00000000006);
    c := a.(id := "c", score := 0.00000000012);
    NoAgeNoDecay(decay, 0);
    var w := WeightedScore(decay, now);
    assert w(a) == a.score && w(b) == b.score && w(c) == c.score;
    assert Text.Less("a", "b") && Text.Less("b", "c");
  }

  lemma NoAgeNoDecay(decay: Time -> real, age: Time)
    requires Exponential(decay) && age == 0
    ensures decay(age) == 1.0
  {
    assert Composes(decay, age, age) && age + age == age;
    var d := decay(age);
    assert decay(age + age) == d * d;
    UnitFactor(d, decay(age + age));
  }

  lemma UnitFactor(x: real, y: real)
    requires x > 0.0 && y == x * x && y == x
    ensures x == 1.0
  {
    assert x * (x - 1.0) == 0.0;
  }

  /** `SortByWeightedScore`. */
  method SortByWeightedScore(w: Weight, entries: array<Entry>)
    modifies entries
    ensures entries[..] == Sort(Comparator(w), old(entries[..]))
    ensures multiset(entries[..]) == multiset(old(entries[..]))
    ensures var es := Elems(old(entries[..]));
            NoDup(old(entries[..])) && DistinctIds(es) && Gapped(w, es) ==> entries[..] == Rank(Order(w), es)
  {
    ghost var was := entries[..];
    SortInPlace(Comparator(w), entries);
    SortPermutes(Comparator(w), was);
    if NoDup(was) && DistinctIds(Elems(was)) && Gapped(w, Elems(was)) {
      SortedIsRanked(w, was);
    }
  }

  /** The same over a slice held as a sequence. */
  method Ranked(w: Weight, s: seq<Entry>) returns (r: seq<Entry>)
    ensures r == Sort(Comparator(w), s)
  {
    var a := new Entry[|s|](i requires 0 <= i < |s| => s[i]);
    assert a[..] == s;
    SortByWeightedScore(w, a);
    r := a[..];
  }

  lemma SortedIsRanked(w: Weight, s: seq<Entry>)
    requires NoDup(s) && DistinctIds(Elems(s)) && Gapped(w, Elems(s))
    ensures Sort(Comparator(w), s) == Rank(Order(w), Elems(s))
  {
    ComparatorIsStrict(w, Elems(s));
    OrderIsStrict(w, Elems(s));
    forall x, y | x in s && y in s ensures Comparator(w)(x, y) == Order(w)(x, y) {
      assert x in Elems(s) && y in Elems(s);
    }
    SortCongruent(Comparator(w), Order(w), s);
    SortIsRank(Order(w), s);
  }

  /** The sorted permutation is unique: any input order gives the same output. */
  lemma ArrivalOrderDoesNotMatter(w: Weight, s: seq<Entry>, t: seq<Entry>)
    requires NoDup(s) && NoDup(t) && Elems(s) == Elems(t) && DistinctIds(Elems(s)) && Gapped(w, Elems(s))
    ensures Sort(Comparator(w), s) == Sort(Comparator(w), t)
  {
    SortedIsRanked(w, s);
    SortedIsRanked(w, t);
  }

  /** Under the gap every sorting algorithm agrees: an ascending permutation is the insertion sort's result. */
  lemma AnySortAgrees(w: Weight, s: seq<Entry>, sorted: seq<Entry>)
    requires NoDup(s) && DistinctIds(Elems(s)) && Gapped(w, Elems(s))
    requires multiset(sorted) == multiset(s) && forall i, j | 0 <= i < j < |sorted| :: !Comparator(w)(sorted[j], sorted[i])
    ensures sorted == Sort(Comparator(w), s)
  {
    var lt := Comparator(w);
    assert forall x :: x in sorted <==> x in multiset(sorted);
    assert forall x :: x in s <==> x in multiset(s);
    assert Elems(sorted) == Elems(s);
    PermutationNoDup(s, sorted);
    ComparatorIsStrict(w, Elems(s));
    forall i, j | 0 <= i < j < |sorted| ensures lt(sorted[i], sorted[j]) {
      assert sorted[i] in Elems(sorted) && sorted[j] in Elems(sorted);
    }
    SortAscending(lt, s);
    SortMembers(lt, s);
    AscendingUnique(lt, sorted, Sort(lt, s));
  }

  // ---------- time ----------

  /** Moving `now` scales every weight by the same positive factor. */
  lemma WeightsScaleTogether(decay: Time -> real, now: Time, later: Time, e: Entry)
    requires Exponential(decay)
    ensures WeightedScore(decay, later)(e) == decay(later - now) * WeightedScore(decay, now)(e)
  {
    var t := now - Reference(e);
    assert Composes(decay, later - now, t) && (later - now) + t == later - Reference(e);
    ScaleRegroups(e.score, decay(later - now), decay(t));
  }

  lemma ScaleRegroups(score: real, f: real, d: real)
    ensures score * (f * d) == f * (score * d)
  {}

  /** The sign of a difference of weights is the same at every time of evaluation. */
  lemma SignIsTimeless(decay: Time -> real, now: Time, later: Time, a: Entry, b: Entry)
    requires Exponential(decay)
    ensures WeightedScore(decay, now)(a) < WeightedScore(decay, now)(b)
       <==> WeightedScore(decay, later)(a) < WeightedScore(decay, later)(b)
  {
    WeightsScaleTogether(decay, now, later, a);
    WeightsScaleTogether(decay, now, later, b);
    ScaleKeepsSign(decay(later - now), WeightedScore(decay, now)(a), WeightedScore(decay, now)(b));
  }

  lemma ScaleKeepsSign(f: real, x: real, y: real)
    requires f > 0.0
    ensures x < y <==> f * x < f * y
  {
    if x < y { assert f * (y - x) > 0.0; }
    if y < x { assert f * (x - y) > 0.0; }
  }

  /** A pair ordered by score at one time is, at any other time, ordered the same way or tied within the tolerance. */
  lemma TimeOnlyTies(decay: Time -> real, now: Time, later: Time, a: Entry, b: Entry)
    requires Exponential(decay)
    requires WeightedScore(decay, now)(a) - WeightedScore(decay, now)(b) >= EPSILON
    ensures Compare(WeightedScore(decay, now), a, b) == -1
    ensures var w := WeightedScore(decay, later);
            if w(a) - w(b) >= EPSILON then Compare(w, a, b) == -1
            else Compare(w, a, b) == CompareIds(a.id, b.id)
  {
    SignIsTimeless(decay, now, later, b, a);
  }

  /** So two evaluation times that both respect the gap rank any set alike. */
  lemma RankingIsTimeless(decay: Time -> real, now: Time, later: Time, s: seq<Entry>)
    requires Exponential(decay) && NoDup(s) && DistinctIds(Elems(s))
    requires Gapped(WeightedScore(decay, now), Elems(s)) && Gapped(WeightedScore(decay, later), Elems(s))
    ensures Sort(Comparator(WeightedScore(decay, now)), s) == Sort(Comparator(WeightedScore(decay, later)), s)
  {
    var v, w := WeightedScore(decay, now), WeightedScore(decay, later);
    forall a, b | a in s && b in s ensures Comparator(v)(a, b) == Comparator(w)(a, b) {
      assert a in Elems(s) && b in Elems(s);
      SignIsTimeless(decay, now, later, a, b);
      SignIsTimeless(decay, now, later, b, a);
    }
    SortCongruent(Comparator(v), Comparator(w), s);
  }

  // ---------- the reference answer ----------

  /** What a store holding m must return for q, truncated to k. */
  ghost function Answer(w: Weight, m: EntryMap, q: Request, k: int): seq<Entry> {
    TopK(k, Rank(Order(w), Matching(m, q)))
  }

  /** The ranking hypothesis: ids name entries, and the matching weights respect the gap. */
  ghost predicate Rankable(w: Weight, m: EntryMap, q: Request) {
    KeyedById(m) && Gapped(w, Matching(m, q))
  }

  /** r is the reference answer, whenever that is well defined. */
  ghost predicate Answers(w: Weight, m: EntryMap, q: Request, k: int, r: seq<Entry>) {
    Rankable(w, m, q) ==> r == Answer(w, m, q, k)
  }

  lemma MatchingIsOrdered(w: Weight, m: EntryMap, q: Request)
    requires KeyedById(m)
    ensures DistinctIds(Matching(m, q)) && StrictOrder(Order(w), Matching(m, q))
  {
    OrderIsStrict(w, Matching(m, q));
  }

  /** Sort then truncate, over any enumeration of the matching entries, is the reference answer. */
  lemma SortedAnswer(w: Weight, m: EntryMap, q: Request, k: int, candidates: seq<Entry>)
    requires KeyedById(m) && NoDup(candidates) && Elems(candidates) == Matching(m, q)
    ensures Answers(w, m, q, k, TopK(k, Sort(Comparator(w), candidates)))
  {
    MatchingIsOrdered(w, m, q);
    if Gapped(w, Matching(m, q)) { SortedIsRanked(w, candidates); }
  }

  lemma AnswerMembers(w: Weight, m: EntryMap, q: Request, k: int)
    requires KeyedById(m)
    ensures var r := Answer(w, m, q, k);
            && NoDup(r)
            && Elems(r) <= Matching(m, q)
            && (k <= 0 ==> Elems(r) == Matching(m, q))
            && |r| == if 0 < k < |Matching(m, q)| then k else |Matching(m, q)|
  {
    MatchingIsOrdered(w, m, q);
    var full := Rank(Order(w), Matching(m, q));
    RankIsAscending(Order(w), Matching(m, q));
    NoDupSize(full);
    var r := Answer(w, m, q, k);
    forall x | x in Elems(r) ensures x in Elems(full) {}
  }

  // ---------- what weights and answers are ----------

  /** The weight is the score decayed by the age since the last hit, or since the creation of what was never hit. */
  lemma WeightIs(decay: Time -> real, now: Time, e: Entry, age: Time)
    requires now == age + if e.lastHit != 0 then e.lastHit else e.created
    ensures WeightedScore(decay, now)(e) == e.score * decay(age)
  {
    assert now - Reference(e) == age;
  }

  /** Weights at least 1e-10 apart decide; nearer ones leave it to the ids. */
  lemma CompareIs(w: Weight, a: Entry, b: Entry)
    ensures w(a) >= w(b) + 0.0000000001 ==> Comparator(w)(a, b) && !Comparator(w)(b, a)
    ensures w(b) < w(a) + 0.0000000001 && w(a) < w(b) + 0.0000000001 ==> Comparator(w)(a, b) == Text.Less(a.id, b.id)
  {}

  /** The reference answer goes down in weight, and up in id where weights are equal. */
  lemma AnswerIsInOrder(w: Weight, m: EntryMap, q: Request, k: int)
    requires KeyedById(m)
    ensures var r := Answer(w, m, q, k);
            forall i, j | 0 <= i < j < |r| :: w(r[i]) > w(r[j]) || (w(r[i]) == w(r[j]) && Text.Less(r[i].id, r[j].id))
  {
    MatchingIsOrdered(w, m, q);
    RankIsAscending(Order(w), Matching(m, q));
    var full, r := Rank(Order(w), Matching(m, q)), Answer(w, m, q, k);
    forall i, j | 0 <= i < j < |r|
      ensures w(r[i]) > w(r[j]) || (w(r[i]) == w(r[j]) && Text.Less(r[i].id, r[j].id))
    {
      assert r[i] == full[i] && r[j] == full[j] && Order(w)(full[i], full[j]);
    }
  }
}
