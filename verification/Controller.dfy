/** The memory controller: a store and a vector index kept in step, with semantic deduplication and merging. */
module Controller {
  import opened ControllerRuns
  import opened Deduplication
  import opened Effects
  import opened Entries
  import opened Managers
  import opened Merging
  import opened Ranking
  import opened Rebuild
  import opened StableSort
  import opened Vectors
  import opened YamlState
  import Text
  import YamlStore

  // ---------- semantic search ----------

  datatype Candidate = Candidate(entry: Entry, distance: real)

  /** Nearer first, then heavier, then by id; the first two within a tolerance. */
  function Nearer(w: Weight): (Candidate, Candidate) -> bool {
    (a: Candidate, b: Candidate) =>
      if a.distance - b.distance > EPSILON || b.distance - a.distance > EPSILON then a.distance < b.distance
      else if w(a.entry) - w(b.entry) > EPSILON || w(b.entry) - w(a.entry) > EPSILON then w(b.entry) < w(a.entry)
      else Text.Less(a.entry.id, b.entry.id)
  }

  /** The raw scope and the category must be among those asked for, when any are. */
  predicate Eligible(e: Entry, scopes: seq<string>, categories: seq<string>) {
    (scopes == [] || e.scope in scopes) && (categories == [] || e.category in categories)
  }

  function Candidates(m: EntryMap, results: seq<SearchResult>, scopes: seq<string>, categories: seq<string>): seq<Candidate> {
    if results == [] then [] else
      var r := results[|results| - 1];
      Candidates(m, results[..|results| - 1], scopes, categories)
      + if r.id in m && Eligible(m[r.id], scopes, categories) then [Candidate(m[r.id], r.distance)] else []
  }

  predicate DistinctHits(results: seq<SearchResult>) {
    forall i, j | 0 <= i < j < |results| :: results[i].id != results[j].id
  }

  function EntriesOf(cs: seq<Candidate>): seq<Entry> {
    seq(|cs|, i requires 0 <= i < |cs| => cs[i].entry)
  }

  /** The loop appends before it tests the length, so even k <= 0 returns one entry. */
  function Best(k: int, cs: seq<Candidate>): seq<Candidate> {
    TopK(if k < 1 then 1 else k, cs)
  }

  /** The stored hits whose own scope and category are among those asked for, as a set: it knows no order of the hits. */
  ghost function Found(m: EntryMap, hits: set<SearchResult>, scopes: seq<string>, categories: seq<string>): set<Candidate> {
    set r | r in hits && r.id in m && (|scopes| > 0 ==> m[r.id].scope in scopes)
            && (|categories| > 0 ==> m[r.id].category in categories) :: Candidate(m[r.id], r.distance)
  }

  /** The candidates are those, each once. */
  lemma {:induction false} CandidatesExact(m: EntryMap, results: seq<SearchResult>, scopes: seq<string>, categories: seq<string>)
    requires DistinctHits(results) && KeyedById(m)
    ensures var cs := Candidates(m, results, scopes, categories);
            && (forall c :: c in cs <==> c in Found(m, Elems(results), scopes, categories))
            && (forall c | c in cs :: SearchResult(c.entry.id, c.distance) in results && c.entry.id in m && m[c.entry.id] == c.entry)
            && (forall i, j | 0 <= i < j < |cs| :: cs[i].entry.id != cs[j].entry.id)
  {
    if results != [] {
      var front, last := results[..|results| - 1], results[|results| - 1];
      assert results == front + [last];
      CandidatesExact(m, front, scopes, categories);
      FoundMore(m, front, last, scopes, categories);
    }
  }

  lemma FoundMore(m: EntryMap, front: seq<SearchResult>, r: SearchResult, scopes: seq<string>, categories: seq<string>)
    ensures Found(m, Elems(front + [r]), scopes, categories)
         == Found(m, Elems(front), scopes, categories)
            + if r.id in m && Eligible(m[r.id], scopes, categories) then {Candidate(m[r.id], r.distance)} else {}
  {
    ElemsSnoc(front, r);
  }

  lemma CandidatesAreFound(m: EntryMap, results: seq<SearchResult>, scopes: seq<string>, categories: seq<string>)
    requires DistinctHits(results) && KeyedById(m)
    ensures var cs := Candidates(m, results, scopes, categories);
            && NoDup(cs) && Elems(cs) == Found(m, Elems(results), scopes, categories) && DistinctCandidates(Elems(cs))
            && |cs| == |Found(m, Elems(results), scopes, categories)|
  {
    CandidatesExact(m, results, scopes, categories);
    NoDupSize(Candidates(m, results, scopes, categories));
  }

  /** Asking for scopes and for categories finds what both find alone; asking for neither, every stored hit. */
  lemma FoundIntersect(m: EntryMap, hits: set<SearchResult>, scopes: seq<string>, categories: seq<string>)
    requires KeyedById(m) && forall r, s | r in hits && s in hits && r.id == s.id :: r == s
    ensures Found(m, hits, scopes, categories) == Found(m, hits, scopes, []) * Found(m, hits, [], categories)
    ensures |Found(m, hits, [], [])| == |set r | r in hits && r.id in m|
  {
    var stored := set r | r in hits && r.id in m;
    FoundSize(m, stored);
    assert Found(m, hits, [], []) == Found(m, stored, [], []);
  }

  lemma {:induction false} FoundSize(m: EntryMap, hits: set<SearchResult>)
    requires KeyedById(m) && forall r | r in hits :: r.id in m
    requires forall r, s | r in hits && s in hits && r.id == s.id :: r == s
    ensures |Found(m, hits, [], [])| == |hits|
    decreases |hits|
  {
    if hits != {} {
      var r := Pick(hits);
      FoundSize(m, hits - {r});
      assert Found(m, hits, [], []) == Found(m, hits - {r}, [], []) + {Candidate(m[r.id], r.distance)};
    }
  }

  /** Distinct stored entries as asked for, as many as the limit and what was found allow. */
  ghost predicate Finds(m: EntryMap, k: int, hits: set<SearchResult>, scopes: seq<string>, categories: seq<string>, r: seq<Entry>) {
    && DistinctEntries(r)
    && (forall e | e in r ::
          && e.id in m && m[e.id] == e
          && (|scopes| > 0 ==> e.scope in scopes) && (|categories| > 0 ==> e.category in categories))
    && |r| == var n := |Found(m, hits, scopes, categories)|; if k < 1 then (if n < 1 then n else 1) else if n < k then n else k
  }

  /** What SemanticSearch promises its callers. */
  lemma SemanticAnswer(w: Weight, m: EntryMap, k: int, results: seq<SearchResult>, scopes: seq<string>, categories: seq<string>)
    requires DistinctHits(results) && KeyedById(m)
    ensures Finds(m, k, Elems(results), scopes, categories,
                  EntriesOf(Best(k, Sort(Nearer(w), Candidates(m, results, scopes, categories)))))
  {
    var cs := Candidates(m, results, scopes, categories);
    CandidatesExact(m, results, scopes, categories);
    CandidatesAreFound(m, results, scopes, categories);
    SortMembers(Nearer(w), cs);
    SortKeepsDistinct(Nearer(w), cs);
    FirstCandidates(k, cs, Sort(Nearer(w), cs));
  }

  /** Nearer without its tolerances. */
  function ByDistance(w: Weight): (Candidate, Candidate) -> bool {
    (a: Candidate, b: Candidate) =>
      || a.distance < b.distance
      || (a.distance == b.distance && w(b.entry) < w(a.entry))
      || (a.distance == b.distance && w(a.entry) == w(b.entry) && Text.Less(a.entry.id, b.entry.id))
  }

  predicate Apart(x: real, y: real) {
    x == y || x - y > EPSILON || y - x > EPSILON
  }

  /** Distances that differ, and weights that differ, do so by more than the tolerance. */
  ghost predicate NearGapped(w: Weight, cs: set<Candidate>) {
    forall a, b | a in cs && b in cs :: Apart(a.distance, b.distance) && Apart(w(a.entry), w(b.entry))
  }

  ghost predicate DistinctCandidates(cs: set<Candidate>) {
    forall a, b | a in cs && b in cs && a.entry.id == b.entry.id :: a == b
  }

  /** With the gaps the search's comparator is the strict order by distance, then weight, then id. */
  lemma NearerIsStrict(w: Weight, cs: set<Candidate>)
    requires DistinctCandidates(cs)
    ensures StrictOrder(ByDistance(w), cs)
    ensures NearGapped(w, cs) ==> forall a, b | a in cs && b in cs :: Nearer(w)(a, b) == ByDistance(w)(a, b)
  {
    var lt := ByDistance(w);
    forall a | a in cs ensures !lt(a, a) { Text.LessIrreflexive(a.entry.id); }
    forall a, b, c | a in cs && b in cs && c in cs && lt(a, b) && lt(b, c) ensures lt(a, c) {
      if Text.Less(a.entry.id, b.entry.id) && Text.Less(b.entry.id, c.entry.id) {
        Text.LessTransitive(a.entry.id, b.entry.id, c.entry.id);
      }
    }
    forall a, b | a in cs && b in cs && a != b ensures lt(a, b) || lt(b, a) { Text.LessTotal(a.entry.id, b.entry.id); }
  }

  /** The answer is the first k of all eligible hits by distance, then weight, then id, whatever order they came in. */
  ghost predicate Nearest(w: Weight, m: EntryMap, k: int, hits: set<SearchResult>, scopes: seq<string>, categories: seq<string>,
                          r: seq<Entry>)
  {
    var cs := Found(m, hits, scopes, categories);
    NearGapped(w, cs) ==> r == EntriesOf(Best(k, Rank(ByDistance(w), cs)))
  }

  lemma SemanticIsNearest(w: Weight, m: EntryMap, k: int, results: seq<SearchResult>, scopes: seq<string>, categories: seq<string>)
    requires DistinctHits(results) && KeyedById(m)
    ensures Nearest(w, m, k, Elems(results), scopes, categories,
                    EntriesOf(Best(k, Sort(Nearer(w), Candidates(m, results, scopes, categories)))))
  {
    var cs := Candidates(m, results, scopes, categories);
    CandidatesAreFound(m, results, scopes, categories);
    NearerIsStrict(w, Elems(cs));
    if NearGapped(w, Elems(cs)) {
      forall a, b | a in cs && b in cs ensures Nearer(w)(a, b) == ByDistance(w)(a, b) {
        assert a in Elems(cs) && b in Elems(cs);
      }
      SortCongruent(Nearer(w), ByDistance(w), cs);
      SortIsRank(ByDistance(w), cs);
    }
  }

  /** b is farther than a, or as far and lighter, or weighs the same and its id comes later. */
  ghost predicate InOrder(w: Weight, a: Candidate, b: Candidate) {
    && a.distance <= b.distance
    && (a.distance == b.distance ==> w(a.entry) >= w(b.entry))
    && (a.distance == b.distance && w(a.entry) == w(b.entry) ==> Text.Less(a.entry.id, b.entry.id))
  }

  /** That ranking is in this order. */
  lemma RankedByDistance(w: Weight, cs: set<Candidate>)
    requires DistinctCandidates(cs)
    ensures var r := Rank(ByDistance(w), cs);
            && Ascending(ByDistance(w), r) && Elems(r) == cs
            && (forall i, j | 0 <= i < j < |r| :: InOrder(w, r[i], r[j]))
  {
    NearerIsStrict(w, cs);
    RankIsAscending(ByDistance(w), cs);
    var r := Rank(ByDistance(w), cs);
    forall i, j | 0 <= i < j < |r| ensures InOrder(w, r[i], r[j]) { assert ByDistance(w)(r[i], r[j]); }
  }

  /** And no candidate that the limit drops is nearer than one it keeps. */
  lemma NoneOmittedIsNearer(w: Weight, k: int, cs: set<Candidate>, b: Candidate, c: Candidate)
    requires DistinctCandidates(cs) && b in Best(k, Rank(ByDistance(w), cs))
    requires c in cs && c !in Best(k, Rank(ByDistance(w), cs))
    ensures b.distance <= c.distance
  {
    var r := Rank(ByDistance(w), cs);
    RankedByDistance(w, cs);
    assert c in Elems(r);
    TopKPrecedes(ByDistance(w), if k < 1 then 1 else k, r, b, c);
  }

  lemma FirstCandidates(k: int, cs: seq<Candidate>, sorted: seq<Candidate>)
    requires Elems(sorted) == Elems(cs) && |sorted| == |cs|
    requires forall i, j | 0 <= i < j < |sorted| :: sorted[i].entry.id != sorted[j].entry.id
    ensures var r := EntriesOf(Best(k, sorted));
            && DistinctEntries(r)
            && (forall e | e in r :: exists c :: c in cs && c.entry == e)
            && |r| == (var b := if k < 1 then 1 else k; if b < |cs| then b else |cs|)
  {
    var best := Best(k, sorted);
    forall e | e in EntriesOf(best) ensures exists c :: c in cs && c.entry == e {
      var i :| 0 <= i < |best| && best[i].entry == e;
      assert best[i] == sorted[i] && sorted[i] in Elems(sorted);
      assert sorted[i] in cs;
    }
  }

  lemma SortKeepsDistinct(lt: (Candidate, Candidate) -> bool, cs: seq<Candidate>)
    requires forall i, j | 0 <= i < j < |cs| :: cs[i].entry.id != cs[j].entry.id
    ensures var r := Sort(lt, cs); forall i, j | 0 <= i < j < |r| :: r[i].entry.id != r[j].entry.id
  {
    var r := Sort(lt, cs);
    SortNoDup(lt, cs);
    SortMembers(lt, cs);
    forall i, j | 0 <= i < j < |r| ensures r[i].entry.id != r[j].entry.id {
      assert r[i] in Elems(r) && r[j] in Elems(r);
      assert r[i] in cs && r[j] in cs;
    }
  }

  // ---------- similar entries ----------

  datatype SimilarEntry = SimilarEntry(entry: Entry, distance: real)

  /** A stored hit other than the entry itself, no farther than the target distance. */
  predicate Resembles(m: EntryMap, id: string, target: real, r: SearchResult) {
    r.id != id && r.distance <= target && r.id in m
  }

  function Resembling(m: EntryMap, id: string, target: real, results: seq<SearchResult>): seq<SimilarEntry> {
    if results == [] then [] else
      var r := results[|results| - 1];
      Resembling(m, id, target, results[..|results| - 1])
      + if Resembles(m, id, target, r) then [SimilarEntry(m[r.id], r.distance)] else []
  }

  /** The vector a similarity search starts from: the indexed one, else that of the stored content. */
  function VectorOf(m: EntryMap, index: VectorMap, embed: string -> Option<Vector>, id: string): Option<Vector> {
    if id in index then Some(index[id]) else if id in m then embed(m[id].content) else None
  }

  /** FindSimilar as a function of the id; None for each of its errors. */
  function SimilarTo(m: EntryMap, index: VectorMap, available: bool, embed: string -> Option<Vector>,
                     search: Vector -> Option<seq<SearchResult>>, threshold: real): string -> Option<seq<SimilarEntry>>
  {
    (id: string) =>
      var v := if available then VectorOf(m, index, embed, id) else None;
      var results := if v.Some? then search(v.value) else None;
      if results.Some? then Some(Resembling(m, id, 1.0 - threshold, results.value)) else None
  }

  /** A similarity search returns stored entries close enough, and never the entry itself. */
  lemma {:induction false} ResemblingExact(m: EntryMap, id: string, target: real, results: seq<SearchResult>, s: SimilarEntry)
    requires KeyedById(m)
    ensures s in Resembling(m, id, target, results) <==>
              && s.entry.id in m && m[s.entry.id] == s.entry && s.entry.id != id && s.distance <= target
              && SearchResult(s.entry.id, s.distance) in results
  {
    if results != [] {
      var front, last := results[..|results| - 1], results[|results| - 1];
      assert results == front + [last];
      ResemblingExact(m, id, target, front, s);
    }
  }

  /** Exactly the stored hits other than the entry itself whose similarity, 1 minus the distance, reaches the threshold. */
  ghost predicate SimilarHits(m: EntryMap, id: string, threshold: real, results: seq<SearchResult>, r: seq<SimilarEntry>) {
    forall s :: s in r <==>
      && s.entry.id in m && m[s.entry.id] == s.entry && s.entry.id != id && 1.0 - s.distance >= threshold
      && SearchResult(s.entry.id, s.distance) in results
  }

  /**
   The search starts from the indexed vector when there is one and embeds the stored content only when there is
   not; it is an error exactly without an embedder, without either vector, or when the index search fails.
   */
  lemma SimilarIs(m: EntryMap, index: VectorMap, available: bool, embed: string -> Option<Vector>,
                  search: Vector -> Option<seq<SearchResult>>, threshold: real, id: string)
    requires KeyedById(m)
    ensures var r := SimilarTo(m, index, available, embed, search, threshold)(id);
            && (!available || (id !in index && (id !in m || embed(m[id].content) == None)) ==> r == None)
            && (available && id in index ==>
                  (r == None <==> search(index[id]) == None)
                  && (r.Some? ==> SimilarHits(m, id, threshold, search(index[id]).value, r.value)))
            && (available && id !in index && id in m && embed(m[id].content).Some? ==>
                  var v := embed(m[id].content).value;
                  (r == None <==> search(v) == None) && (r.Some? ==> SimilarHits(m, id, threshold, search(v).value, r.value)))
  {
    var r := SimilarTo(m, index, available, embed, search, threshold)(id);
    if r.Some? {
      var results := search(VectorOf(m, index, embed, id).value).value;
      forall s ensures s in r.value <==>
                         && s.entry.id in m && m[s.entry.id] == s.entry && s.entry.id != id && 1.0 - s.distance >= threshold
                         && SearchResult(s.entry.id, s.distance) in results
      {
        ResemblingExact(m, id, 1.0 - threshold, results, s);
      }
    }
  }

  /** The similar entries come in the order of the hits. */
  lemma {:induction false} ResemblingInOrder(m: EntryMap, id: string, target: real, a: seq<SearchResult>, b: seq<SearchResult>)
    ensures Resembling(m, id, target, a + b) == Resembling(m, id, target, a) + Resembling(m, id, target, b)
    decreases |b|
  {
    if b == [] {
      assert a + b == a;
    } else {
      var n := |b| - 1;
      assert (a + b)[..|a + b| - 1] == a + b[..n];
      ResemblingInOrder(m, id, target, a, b[..n]);
    }
  }

  class MemoryController {
    const store: YamlStore.Store
    /** Whether an embedder is configured, what it returns for one text, and the size of its vectors. */
    const available: bool
    const embed: string -> Option<Vector>
    const dimensions: nat
    /** What the index manager holds, of either kind. */
    var index: Held
    constructor (store: YamlStore.Store, available: bool, embed: string -> Option<Vector>, dimensions: nat, index: Held)
      ensures this.store == store && this.index == index
    {
      this.store, this.available, this.embed, this.dimensions, this.index := store, available, embed, dimensions, index;
    }

    ghost predicate Valid()
      reads store
    {
      store.Valid()
    }

    ghost function Contents(): EntryMap
      reads store
    {
      store.Contents()
    }

    ghost function Config(): Settings {
      Settings(store.scopes, store.autoHit, available, embed, dimensions)
    }

    ghost function Keeps(): Kept
      reads this, store
    {
      Kept(Contents(), index)
    }

    // ---------- writes ----------

    /** The manager's IndexEntry; landed is whether the two tables' transaction goes through. */
    method IndexEntry(e: Entry, landed: bool)
      modifies this`index
      ensures index == Reindexed(Config(), old(index), e, landed)
    {
      var v := embed(e.content);
      if available && v.Some? && |v.value| == dimensions { index := Entered(index, e.id, v.value, landed); }
    }

    /** The store after an upsert: its own step, what was stored, whose ids it holds, and whether it is well formed. */
    ghost predicate Stores(s: State, entry: Entry, newId: string, now: Time, ok: bool, o: Outcome, stored: Entry, s1: State) {
      var op := Op.Upsert(entry, newId, now, ok);
      && (s1, o) == UpsertStep(s, entry, newId, now, ok)
      && (if Accepted(s.scopes, entry) then IsStored(entry, stored, newId, now) else stored == entry)
      && stored == (if Accepted(s.scopes, entry) then Filled(entry, newId, now) else entry)
      && View(s1.data).Keys == View(s.data).Keys + (if Accepted(s.scopes, entry) then {stored.id} else {})
      && (WellFormed(s) ==> (WellFormed(s1) <==> KeepsBucket(s.scopes, View(s.data), op)))
      && (WellFormed(s) && WellFormed(s1) ==> View(s1.data) == MapStep(s.scopes, s.autoHit, View(s.data), op))
    }

    method Put(entry: Entry, newId: string, now: Time, ok: bool) returns (o: Outcome, stored: Entry)
      modifies store
      ensures Stores(old(store.Now()), entry, newId, now, ok, o, stored, store.Now())
    {
      PutIds(store.data, Home(Filled(entry, newId, now)), Filled(entry, newId, now));
      o, stored := store.Upsert(entry, newId, now, ok);
    }

    /** The store first, then the index. */
    method DoUpsert(entry: Entry, newId: string, now: Time, ok: bool, landed: bool) returns (o: Outcome, stored: Entry)
      modifies this`index, store
      ensures Stores(old(store.Now()), entry, newId, now, ok, o, stored, store.Now())
      ensures index == if o == Done then Reindexed(Config(), old(index), stored, landed) else old(index)
    {
      o, stored := Put(entry, newId, now, ok);
      if o == Done { IndexEntry(stored, landed); }
    }

    /** An entry that names another bucket for a known id is stored twice. */
    method Save(entry: Entry, newId: string, now: Time, ok: bool, landed: bool) returns (o: Outcome, stored: Entry)
      modifies this`index, store
      ensures Stores(old(store.Now()), entry, newId, now, ok, o, stored, store.Now())
      ensures index == if o == Done then Reindexed(Config(), old(index), stored, landed) else old(index)
      ensures old(Valid()) && Valid() ==> Follows(Config(), old(Keeps()), Saves(entry, newId, now, ok, landed), Keeps())
    {
      ghost var k := Keeps();
      ghost var valid := Valid();
      o, stored := DoUpsert(entry, newId, now, ok, landed);
      if valid && Valid() { SaveFollows(Config(), k, entry, newId, now, ok, landed, Contents(), index); }
    }

    /** found is what the index search returned, None when it failed. */
    method Upsert(entry: Entry, found: Option<seq<SearchResult>>, newId: string, now: Time, ok: bool, landed: bool)
      returns (o: Outcome, stored: Entry, ghost e: Entry)
      requires Valid()
      modifies this`index, store
      ensures var results := if available && embed(entry.content).Some? && found.Some? then found.value else [];
              && (forall i | IsFirstHit(old(Contents()), entry, results, i) ::
                    TakesOver(entry, old(Contents())[results[i].id], e, now))
              && ((forall i :: !IsFirstHit(old(Contents()), entry, results, i)) ==> e == entry)
              && Stores(old(store.Now()), e, newId, now, ok, o, stored, store.Now())
              && (Valid() ==> Follows(Config(), old(Keeps()), Saves(e, newId, now, ok, landed), Keeps()))
      ensures index == if o == Done then Reindexed(Config(), old(index), stored, landed) else old(index)
    {
      var results := if available && embed(entry.content).Some? && found.Some? then found.value else [];
      ViewKeyed(store.data);
      DedupedChoice(Contents(), entry, results, now);
      var deduped := Dedup(entry, results, now);
      e := deduped;
      o, stored := Save(deduped, newId, now, ok, landed);
    }

    /** The loop over the hits: close, still stored, and of the same category and scope. */
    method Dedup(entry: Entry, results: seq<SearchResult>, now: Time) returns (e: Entry)
      requires Valid()
      ensures e == Deduped(Contents(), entry, results, now)
    {
      for i := 0 to |results|
        invariant Deduped(Contents(), entry, results, now) == Deduped(Contents(), entry, results[i..], now)
      {
        assert results[i..][1..] == results[i + 1..];
        if results[i].distance >= DUPLICATE_DISTANCE { continue; }
        var existing := store.Get(results[i].id);
        if existing.None? { continue; }
        if existing.value.category != entry.category
           || NormalizedScope(existing.value.scope) != NormalizedScope(entry.scope) { continue; }
        return Reused(entry, existing.value, now);
      }
      e := entry;
    }

    /** Deletes from the store alone. */
    method Forget(id: string, ok: bool) returns (o: Outcome)
      requires Valid()
      modifies store
      ensures Valid()
      ensures (store.Now(), o) == DeleteStep(old(store.Now()), id, ok)
      ensures o == if id in old(Contents()) then Written(ok) else NotFound
      ensures Contents() == old(Contents()) - {id}
    {
      o := store.Delete(id, ok);
    }

    /** The store first; the index is told only after a success. */
    method Remove(id: string, ok: bool, gone: bool) returns (o: Outcome)
      requires Valid()
      modifies this`index, store
      ensures Valid()
      ensures (store.Now(), o) == DeleteStep(old(store.Now()), id, ok)
      ensures o == if id in old(Contents()) then Written(ok) else NotFound
      ensures Contents() == old(Contents()) - {id}
      ensures index == if o == Done && available then Dropped(old(index), id, gone) else old(index)
    {
      o := Forget(id, ok);
      if o == Done && available { index := Dropped(index, id, gone); }
    }

    method Delete(id: string, ok: bool, gone: bool) returns (o: Outcome)
      requires Valid()
      modifies this`index, store
      ensures Valid()
      ensures (store.Now(), o) == DeleteStep(old(store.Now()), id, ok)
      ensures o == if id in old(Contents()) then Written(ok) else NotFound
      ensures Follows(Config(), old(Keeps()), Deletes(id, ok, gone), Keeps())
    {
      ghost var k := Keeps();
      o := Remove(id, ok, gone);
      DeleteFollows(Config(), k, id, ok, gone, Contents(), index);
    }

    // ---------- merging ----------

    /** The lookups and the combination both merge implementations begin with. */
    method Fold(keepId: string, deleteId: string, ghost newId: string, ghost now: Time, ghost ok: bool)
      returns (merged: Option<Entry>)
      requires Valid() && newId !in Contents()
      ensures merged.Some? <==> keepId in Contents() && deleteId in Contents()
      ensures merged.Some? ==>
                && merged.value == Merged(Contents()[keepId], Contents()[deleteId]) && merged.value.id == keepId
                && KeepsBucket(store.scopes, Contents(), Op.Upsert(merged.value, newId, now, ok))
                && (Accepted(store.scopes, merged.value) <==> Accepted(store.scopes, Contents()[keepId]))
    {
      ViewKeyed(store.data);
      var keep := store.Get(keepId);
      if keep.None? { return None; }
      var other := store.Get(deleteId);
      if other.None? { return None; }
      var e := Combine(keep.value, other.value);
      merged := Some(e);
    }

    /** The first half of a merge: both entries are looked up, and the combined one is stored and indexed. */
    method SaveMerged(keepId: string, deleteId: string, newId: string, now: Time, ok1: bool, landed: bool) returns (o: Outcome)
      requires Valid() && newId !in Contents()
      modifies this`index, store
      ensures Valid()
      ensures o == MergeOutcome(store.scopes, old(Contents()), keepId, deleteId, ok1, true)
      ensures o == Done <==> MergeSaves(store.scopes, old(Contents()), keepId, deleteId, ok1)
      ensures Contents() == MergePut(store.scopes, old(Contents()), keepId, deleteId, newId, now)
      ensures index == MergeEntered(Config(), old(Keeps()), keepId, deleteId, newId, now, ok1, landed)
    {
      var merged := Fold(keepId, deleteId, newId, now, ok1);
      if merged.None? { return NotFound; }
      var stored;
      o, stored := DoUpsert(merged.value, newId, now, ok1, landed);
    }

    /** Folds deleteId into keepId; the index is told of the kept entry but not of the loss. */
    method Merge(keepId: string, deleteId: string, newId: string, now: Time, ok1: bool, landed: bool, ok2: bool)
      returns (o: Outcome)
      requires Valid() && newId !in Contents()
      modifies this`index, store
      ensures Valid()
      ensures o == MergeOutcome(store.scopes, old(Contents()), keepId, deleteId, ok1, ok2)
      ensures Follows(Config(), old(Keeps()), Merges(keepId, deleteId, newId, now, ok1, landed), Keeps())
    {
      ghost var k := Keeps();
      o := DoMerge(keepId, deleteId, newId, now, ok1, landed, ok2);
      MergeFollows(Config(), k, keepId, deleteId, newId, now, ok1, landed, Contents(), index);
    }

    method DoMerge(keepId: string, deleteId: string, newId: string, now: Time, ok1: bool, landed: bool, ok2: bool)
      returns (o: Outcome)
      requires Valid() && newId !in Contents()
      modifies this`index, store
      ensures Valid()
      ensures o == MergeOutcome(store.scopes, old(Contents()), keepId, deleteId, ok1, ok2)
      ensures Contents() == MergeContents(store.scopes, old(Contents()), keepId, deleteId, newId, now, ok1)
      ensures index == MergeEntered(Config(), old(Keeps()), keepId, deleteId, newId, now, ok1, landed)
    {
      ghost var m := Contents();
      o := SaveMerged(keepId, deleteId, newId, now, ok1, landed);
      MergeEnds(store.scopes, m, keepId, deleteId, newId, now, ok1);
      if o == Done { o := Forget(deleteId, ok2); }
    }

    /** The daemon's handler: the same merge through Save and Delete, so the index hears of the loser; None is a bad request. */
    method AdminMerge(keepId: string, deleteId: string, newId: string, now: Time, ok1: bool, landed: bool, ok2: bool, gone: bool)
      returns (o: Option<Outcome>)
      requires Valid() && newId !in Contents()
      modifies this`index, store
      ensures Valid()
      ensures o == if keepId == "" || deleteId == "" then None
                   else Some(MergeOutcome(store.scopes, old(Contents()), keepId, deleteId, ok1, ok2))
      ensures Follows(Config(), old(Keeps()), AdminMerges(keepId, deleteId, newId, now, ok1, landed, ok2, gone), Keeps())
    {
      ghost var k, e := Keeps(), AdminMerges(keepId, deleteId, newId, now, ok1, landed, ok2, gone);
      o := None;
      if keepId != "" && deleteId != "" {
        var r := SaveAndDelete(keepId, deleteId, newId, now, ok1, landed, ok2, gone);
        o := Some(r);
      }
      AdminMergeFollows(Config(), k, e, Contents(), index);
    }

    method SaveAndDelete(keepId: string, deleteId: string, newId: string, now: Time, ok1: bool, landed: bool, ok2: bool,
                         gone: bool)
      returns (o: Outcome)
      requires Valid() && newId !in Contents()
      modifies this`index, store
      ensures Valid()
      ensures o == MergeOutcome(store.scopes, old(Contents()), keepId, deleteId, ok1, ok2)
      ensures Contents() == MergeContents(store.scopes, old(Contents()), keepId, deleteId, newId, now, ok1)
      ensures var entered := MergeEntered(Config(), old(Keeps()), keepId, deleteId, newId, now, ok1, landed);
              index == if MergeSaves(store.scopes, old(Contents()), keepId, deleteId, ok1) && ok2 && available
                       then Dropped(entered, deleteId, gone) else entered
    {
      ghost var m := Contents();
      o := SaveMerged(keepId, deleteId, newId, now, ok1, landed);
      MergeEnds(store.scopes, m, keepId, deleteId, newId, now, ok1);
      if o == Done { o := Remove(deleteId, ok2, gone); }
    }

    // ---------- search and rebuild ----------

    /** Search hits that are no longer stored are removed from the index on the way. */
    method SemanticSearch(w: Weight, k: int, scopes: seq<string>, categories: seq<string>, found: Option<seq<SearchResult>>,
                          stuck: set<string>)
      returns (r: Option<seq<Entry>>)
      requires Valid()
      modifies this`index
      ensures !available ==> r == Some([])
      ensures available && found.None? ==> r == None
      ensures available && found.Some? ==>
                r == Some(EntriesOf(Best(k, Sort(Nearer(w), Candidates(Contents(), found.value, scopes, categories)))))
      ensures available && found.Some? && DistinctHits(found.value) ==>
                && Nearest(w, Contents(), k, Elems(found.value), scopes, categories, r.value)
                && Finds(Contents(), k, Elems(found.value), scopes, categories, r.value)
      ensures if found.None? then index == old(index)
              else Follows(Config(), old(Keeps()), Searches(found.value, stuck), Keeps())
    {
      if found.Some? { DidFollows(Config(), Keeps(), Searches(found.value, stuck)); }
      if !available { return Some([]); }
      if found.None? { return None; }
      ViewKeyed(store.data);
      if DistinctHits(found.value) {
        SemanticIsNearest(w, Contents(), k, found.value, scopes, categories);
        SemanticAnswer(w, Contents(), k, found.value, scopes, categories);
      }
      var candidates := GatherCandidates(found.value, scopes, categories, stuck);
      var sorted := Sorted(Nearer(w), candidates);
      var entries := FirstEntries(k, sorted);
      r := Some(entries);
    }

    method GatherCandidates(results: seq<SearchResult>, scopes: seq<string>, categories: seq<string>, stuck: set<string>)
      returns (candidates: seq<Candidate>)
      requires Valid()
      modifies this`index
      ensures Scanned(old(index), Contents(), results, scopes, categories, stuck, index, candidates)
    {
      candidates := [];
      ghost var h, m := index, Contents();
      ScanStart(h, m, scopes, categories, stuck);
      for i := 0 to |results|
        invariant Scanned(h, m, results[..i], scopes, categories, stuck, index, candidates)
      {
        ghost var before := index;
        var c := Examine(results[i], scopes, categories, stuck);
        ScanStep(h, m, results, i, scopes, categories, stuck, before, candidates);
        candidates := candidates + c;
      }
      assert results[..|results|] == results;
    }

    method Examine(hit: SearchResult, scopes: seq<string>, categories: seq<string>, stuck: set<string>)
      returns (c: seq<Candidate>)
      requires Valid()
      modifies this`index
      ensures index == if hit.id in Contents() then old(index) else Dropped(old(index), hit.id, hit.id !in stuck)
      ensures c == if hit.id in Contents() && Eligible(Contents()[hit.id], scopes, categories)
                   then [Candidate(Contents()[hit.id], hit.distance)] else []
    {
      var entry := store.Get(hit.id);
      if entry.None? {
        index := Dropped(index, hit.id, hit.id !in stuck);
        return [];
      }
      if !Eligible(entry.value, scopes, categories) { return []; }
      c := [Candidate(entry.value, hit.distance)];
    }

    method FindSimilar(id: string, threshold: real, search: Vector -> Option<seq<SearchResult>>)
      returns (r: Option<seq<SimilarEntry>>)
      requires Valid()
      ensures r == SimilarTo(Contents(), index.vectors, available, embed, search, threshold)(id)
    {
      if !available { return None; }
      var v := StartVector(id);
      if v.None? { return None; }
      var results := search(v.value);
      if results.None? { return None; }
      var similar := KeepResembling(id, 1.0 - threshold, results.value);
      r := Some(similar);
    }

    /** The indexed vector, as embedding again may return a slightly different one. */
    method StartVector(id: string) returns (v: Option<Vector>)
      requires Valid()
      ensures v == VectorOf(Contents(), index.vectors, embed, id)
    {
      if id in index.vectors { return Some(index.vectors[id]); }
      var entry := store.Get(id);
      v := if entry.None? then None else embed(entry.value.content);
    }

    method KeepResembling(id: string, target: real, results: seq<SearchResult>) returns (similar: seq<SimilarEntry>)
      requires Valid()
      ensures similar == Resembling(Contents(), id, target, results)
    {
      similar := [];
      for i := 0 to |results|
        invariant similar == Resembling(Contents(), id, target, results[..i])
      {
        assert results[..i + 1][..i] == results[..i];
        if results[i].id == id || results[i].distance > target { continue; }
        var e := store.Get(results[i].id);
        if e.None? { continue; }
        similar := similar + [SimilarEntry(e.value, results[i].distance)];
      }
      assert results[..|results|] == results;
    }

    method ListEverything(w: Weight, now: Time) returns (listed: seq<Entry>)
      requires Valid()
      modifies store
      ensures Valid() && Contents().Keys == old(Contents()).Keys == IdsOf(listed)
      ensures Contents() == YamlStore.Noted(store.autoHit, old(Contents()), listed, now)
      ensures YamlStore.Lists(old(Contents()), listed)
    {
      ghost var m := Contents();
      ViewKeyed(store.data);
      listed := store.All(w, now, []);
      YamlStore.ListedIds(m, listed);
    }

    /** A rebuild that ran through indexes exactly the stored ids, exactly when it had only to repair what it can. */
    ghost predicate Repairs(h: Held, ids: set<string>, force: bool, embedAll: seq<string> -> Option<seq<Vector>>,
                            bad: Failures, r: BuildResult, h1: Held)
    {
      AlwaysRightSized(dimensions, embedAll) && r in {Built, FlushFailed} ==>
        (h1.vectors.Keys == ids <==> Repairable(h, ids, force, bad))
    }

    /** With an embedder that batches, every stored entry ends with the vector of its content, or keeps the one it had. */
    ghost predicate Reembeds(h: Held, m: EntryMap, force: bool, embedAll: seq<string> -> Option<seq<Vector>>,
                             bad: Failures, r: BuildResult, h1: Held)
    {
      Batches(dimensions, embed, embedAll) && r in {Built, FlushFailed} ==>
        forall id | id in m && (h.Joined? ==> id !in bad.refused) :: Embedded(dimensions, h, m[id], force, embed, bad, h1)
    }

    lemma ReembedsListed(h: Held, m: EntryMap, listed: seq<Entry>, now: Time, force: bool, embedAll: seq<string> -> Option<seq<Vector>>,
                         bad: Failures, flushOk: bool)
      requires KeyedById(m) && YamlStore.Lists(m, listed)
      ensures var (r, h1) := Rebuilding(dimensions, h, listed, force, embedAll, bad, flushOk);
              Reembeds(h, YamlStore.Noted(store.autoHit, m, listed, now), force, embedAll, bad, r, h1)
    {
      var (r, h1) := Rebuilding(dimensions, h, listed, force, embedAll, bad, flushOk);
      RebuildEmbedsAll(dimensions, h, listed, force, embed, embedAll, bad, flushOk);
      var m1 := YamlStore.Noted(store.autoHit, m, listed, now);
      forall id | id in m ensures m1[id].id == id && m1[id].content == m[id].content && m[id] in listed {}
    }

    lemma RepairsListed(h: Held, listed: seq<Entry>, force: bool, embedAll: seq<string> -> Option<seq<Vector>>,
                        bad: Failures, flushOk: bool)
      ensures var (r, h1) := Rebuilding(dimensions, h, listed, force, embedAll, bad, flushOk);
              Repairs(h, IdsOf(listed), force, embedAll, bad, r, h1)
    {
      var (r, h1) := Rebuilding(dimensions, h, listed, force, embedAll, bad, flushOk);
      if AlwaysRightSized(dimensions, embedAll) && r in {Built, FlushFailed} {
        RebuildingIsExactIff(dimensions, h, listed, force, embedAll, bad, flushOk);
      }
    }

    method ListAndRebuild(w: Weight, now: Time, force: bool, embedAll: seq<string> -> Option<seq<Vector>>,
                          bad: Failures, flushOk: bool)
      returns (r: BuildResult, listed: seq<Entry>)
      requires Valid()
      modifies this`index, store
      ensures Valid() && Contents().Keys == old(Contents()).Keys == IdsOf(listed)
      ensures Contents() == YamlStore.Noted(store.autoHit, old(Contents()), listed, now)
      ensures YamlStore.Lists(old(Contents()), listed)
      ensures (r, index) == Rebuilding(dimensions, old(index), listed, force, embedAll, bad, flushOk)
    {
      listed := ListEverything(w, now);
      var outcome := Rebuilding(dimensions, index, listed, force, embedAll, bad, flushOk);
      r, index := outcome.0, outcome.1;
    }

    /** The manager's rebuild over everything listed. */
    method BuildIndexes(w: Weight, now: Time, force: bool, embedAll: seq<string> -> Option<seq<Vector>>,
                        bad: Failures, flushOk: bool)
      returns (r: Option<BuildResult>, ghost listed: seq<Entry>)
      requires Valid()
      modifies this`index, store
      ensures Valid() && (r.None? <==> !available)
      ensures r.None? ==> Keeps() == old(Keeps())
      ensures r.Some? ==>
                && IdsOf(listed) == old(Contents()).Keys == Contents().Keys
                && Follows(Config(), old(Keeps()), Rebuilds(listed, now, force, embedAll, bad, flushOk), Keeps())
                && r.value == Rebuilding(dimensions, old(index), listed, force, embedAll, bad, flushOk).0
                && Repairs(old(index), Contents().Keys, force, embedAll, bad, r.value, index)
                && Reembeds(old(index), Contents(), force, embedAll, bad, r.value, index)
    {
      if !available { return None, []; }
      ghost var k := Keeps();
      ViewKeyed(store.data);
      var outcome, entries := ListAndRebuild(w, now, force, embedAll, bad, flushOk);
      r, listed := Some(outcome), entries;
      DidFollows(Config(), k, Rebuilds(entries, now, force, embedAll, bad, flushOk));
      ReembedsListed(k.index, k.contents, entries, now, force, embedAll, bad, flushOk);
      RepairsListed(k.index, entries, force, embedAll, bad, flushOk);
    }
  }

  /** The final loop of SemanticSearch. */
  method FirstEntries(k: int, sorted: seq<Candidate>) returns (entries: seq<Entry>)
    ensures entries == EntriesOf(Best(k, sorted))
  {
    entries := [];
    for i := 0 to |sorted|
      invariant entries == EntriesOf(sorted[..i]) && (i > 0 ==> i < k)
    {
      entries := entries + [sorted[i].entry];
      if |entries| >= k {
        assert sorted[..i + 1] == Best(k, sorted);
        return;
      }
    }
    assert sorted[..|sorted|] == sorted;
  }

  /** The loop over the hits: the candidates so far, and the index without the orphans met so far. */
  ghost predicate Scanned(h0: Held, m: EntryMap, results: seq<SearchResult>, scopes: seq<string>, categories: seq<string>,
                          stuck: set<string>, h: Held, candidates: seq<Candidate>)
  {
    candidates == Candidates(m, results, scopes, categories) && h == DroppedAll(h0, Orphans(m, results), stuck)
  }

  lemma ScanStart(h: Held, m: EntryMap, scopes: seq<string>, categories: seq<string>, stuck: set<string>)
    ensures Scanned(h, m, [], scopes, categories, stuck, h, [])
  {
    DroppedAllMore(h, {}, stuck, "");
  }

  lemma ScanStep(h0: Held, m: EntryMap, results: seq<SearchResult>, i: nat, scopes: seq<string>, categories: seq<string>,
                 stuck: set<string>, h: Held, candidates: seq<Candidate>)
    requires i < |results| && Scanned(h0, m, results[..i], scopes, categories, stuck, h, candidates)
    ensures var id := results[i].id;
            var c := if id in m && Eligible(m[id], scopes, categories) then [Candidate(m[id], results[i].distance)] else [];
            Scanned(h0, m, results[..i + 1], scopes, categories, stuck, if id in m then h else Dropped(h, id, id !in stuck),
                    candidates + c)
  {
    assert results[..i + 1] == results[..i] + [results[i]] && results[..i + 1][..i] == results[..i];
    var id := results[i].id;
    assert Orphans(m, results[..i + 1]) == Orphans(m, results[..i]) + if id in m then {} else {id};
    DroppedAllMore(h0, Orphans(m, results[..i]), stuck, id);
  }
}
