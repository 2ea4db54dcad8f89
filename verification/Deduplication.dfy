/** Semantic deduplication: which stored entry an upsert takes over, and what that does to the store. */
module Deduplication {
  import opened ControllerRuns
  import opened Effects
  import opened Entries
  import opened StableSort
  import opened YamlState

  const DUPLICATE_DISTANCE := 0.05

  function Reused(entry: Entry, existing: Entry, now: Time): Entry {
    entry.(id := existing.id,
           score := existing.score + 0.1,
           hitCount := existing.hitCount,
           lastHit := now,
           created := existing.created,
           source := existing.source,
           tags := if entry.tags == [] && existing.tags != [] then existing.tags else entry.tags)
  }

  predicate IsDuplicate(m: EntryMap, entry: Entry, r: SearchResult) {
    r.distance < DUPLICATE_DISTANCE && r.id in m && Home(m[r.id]) == Home(entry)
  }

  /** The entry Upsert stores: it takes over the first close hit of its own category and scope. */
  function Deduped(m: EntryMap, entry: Entry, results: seq<SearchResult>, now: Time): Entry {
    if results == [] then entry
    else if IsDuplicate(m, entry, results[0]) then Reused(entry, m[results[0].id], now)
    else Deduped(m, entry, results[1..], now)
  }

  predicate Reuses(m: EntryMap, entry: Entry, results: seq<SearchResult>) {
    exists r | r in results :: IsDuplicate(m, entry, r)
  }

  /** A hit near enough, still stored, in the category and the scope of the entry, where no scope means the global one. */
  predicate IsCloseHit(m: EntryMap, entry: Entry, r: SearchResult) {
    && r.distance < 0.05 && r.id in m && m[r.id].category == entry.category
    && (m[r.id].scope == entry.scope || (m[r.id].scope in ["", "global"] && entry.scope in ["", "global"]))
  }

  /** The first such hit. */
  predicate IsFirstHit(m: EntryMap, entry: Entry, results: seq<SearchResult>, i: int) {
    && 0 <= i < |results| && IsCloseHit(m, entry, results[i])
    && forall j | 0 <= j < i :: !IsCloseHit(m, entry, results[j])
  }

  /** e is the entry with its place in the store, its hits and its origin taken from the existing one, and a little more score. */
  predicate TakesOver(entry: Entry, existing: Entry, e: Entry, now: Time) {
    && e.id == existing.id && e.score == existing.score + 0.1 && e.hitCount == existing.hitCount
    && e.lastHit == now && e.created == existing.created && e.source == existing.source
    && e.content == entry.content && e.category == entry.category && e.scope == entry.scope
    && (if entry.tags != [] then e.tags == entry.tags else e.tags == existing.tags)
  }

  lemma CloseHitIs(m: EntryMap, entry: Entry, r: SearchResult)
    ensures IsDuplicate(m, entry, r) <==> IsCloseHit(m, entry, r)
  {}

  lemma FirstHitShifts(m: EntryMap, entry: Entry, results: seq<SearchResult>, i: int)
    requires results != [] && !IsCloseHit(m, entry, results[0])
    ensures IsFirstHit(m, entry, results, i) <==> IsFirstHit(m, entry, results[1..], i - 1)
  {
    var rest := results[1..];
    if IsFirstHit(m, entry, results, i) {
      forall j | 0 <= j < i - 1 ensures !IsCloseHit(m, entry, rest[j]) { assert rest[j] == results[j + 1]; }
    }
    if IsFirstHit(m, entry, rest, i - 1) {
      forall j | 0 <= j < i ensures !IsCloseHit(m, entry, results[j]) { assert j > 0 ==> results[j] == rest[j - 1]; }
    }
  }

  /** An entry takes over the first close hit of its own bucket, and without one stays as it is. */
  lemma {:induction false} DedupedChoice(m: EntryMap, entry: Entry, results: seq<SearchResult>, now: Time)
    requires KeyedById(m)
    ensures var e := Deduped(m, entry, results, now);
            && (forall i | IsFirstHit(m, entry, results, i) :: TakesOver(entry, m[results[i].id], e, now))
            && ((forall i :: !IsFirstHit(m, entry, results, i)) ==> e == entry)
  {
    if results != [] {
      CloseHitIs(m, entry, results[0]);
      if IsDuplicate(m, entry, results[0]) {
        assert IsFirstHit(m, entry, results, 0);
      } else {
        DedupedChoice(m, entry, results[1..], now);
        forall i ensures IsFirstHit(m, entry, results, i) <==> IsFirstHit(m, entry, results[1..], i - 1) {
          FirstHitShifts(m, entry, results, i);
        }
        forall i ensures IsFirstHit(m, entry, results[1..], i) <==> IsFirstHit(m, entry, results, i + 1) {
          FirstHitShifts(m, entry, results, i + 1);
        }
      }
    }
  }

  /** There is a first close hit exactly when there is any. */
  lemma {:induction false} ReusesIff(m: EntryMap, entry: Entry, results: seq<SearchResult>)
    ensures Reuses(m, entry, results) <==> exists i :: IsFirstHit(m, entry, results, i)
  {
    if i :| IsFirstHit(m, entry, results, i) {
      CloseHitIs(m, entry, results[i]);
      assert results[i] in results;
    }
    if Reuses(m, entry, results) {
      CloseHitIs(m, entry, results[0]);
      if IsDuplicate(m, entry, results[0]) {
        assert IsFirstHit(m, entry, results, 0);
      } else {
        assert results == [results[0]] + results[1..];
        ReusesIff(m, entry, results[1..]);
        var i :| IsFirstHit(m, entry, results[1..], i);
        FirstHitShifts(m, entry, results, i + 1);
      }
    }
  }

  /** What a reused entry is. */
  lemma ReusedIs(m: EntryMap, entry: Entry, results: seq<SearchResult>, now: Time)
    requires KeyedById(m) && Reuses(m, entry, results)
    ensures var e := Deduped(m, entry, results, now);
            e.id in m && Home(m[e.id]) == Home(entry) && Home(e) == Home(entry) && TakesOver(entry, m[e.id], e, now)
  {
    DedupedChoice(m, entry, results, now);
    ReusesIff(m, entry, results);
    var i :| IsFirstHit(m, entry, results, i);
    CloseHitIs(m, entry, results[i]);
  }

  /** A reused id never leaves its bucket; otherwise all depends on the id the caller chose. */
  lemma DedupedKeepsBucketIff(scopes: set<string>, m: EntryMap, entry: Entry, results: seq<SearchResult>,
                              newId: string, now: Time, ok: bool)
    requires KeyedById(m) && newId !in m
    ensures KeepsBucket(scopes, m, Upsert(Deduped(m, entry, results, now), newId, now, ok))
       <==> Reuses(m, entry, results) || KeepsBucket(scopes, m, Upsert(entry, newId, now, ok))
  {
    ReusesIff(m, entry, results);
    if Reuses(m, entry, results) { ReusedIs(m, entry, results, now); } else { DedupedChoice(m, entry, results, now); }
  }

  /** One controller upsert: the hits its search returned and the outcome of its file write. */
  datatype Call = Call(entry: Entry, results: seq<SearchResult>, newId: string, now: Time, ok: bool)

  function StoreOp(m: EntryMap, c: Call): Op {
    Upsert(Deduped(m, c.entry, c.results, c.now), c.newId, c.now, c.ok)
  }

  function Upserted(scopes: set<string>, autoHit: bool, m: EntryMap, c: Call): EntryMap {
    MapStep(scopes, autoHit, m, StoreOp(m, c))
  }

  /** The flat map after a run of upserts. */
  function AfterCalls(scopes: set<string>, autoHit: bool, m: EntryMap, calls: seq<Call>): EntryMap
    decreases |calls|
  {
    if calls == [] then m else AfterCalls(scopes, autoHit, Upserted(scopes, autoHit, m, calls[0]), calls[1..])
  }

  /** A generated id is new; an id the caller brings is new or already in the bucket the entry names. */
  predicate SafeCall(m: EntryMap, c: Call) {
    c.newId !in m && (c.entry.id in m ==> Home(m[c.entry.id]) == Home(c.entry))
  }

  ghost function RunCalls(s: State, calls: seq<Call>): State
    decreases |calls|
  {
    if calls == [] then s else RunCalls(Step(s, StoreOp(View(s.data), calls[0])).0, calls[1..])
  }

  ghost predicate SafeCalls(s: State, calls: seq<Call>)
    decreases |calls|
  {
    calls == [] ||
    (SafeCall(View(s.data), calls[0]) && SafeCalls(Step(s, StoreOp(View(s.data), calls[0])).0, calls[1..]))
  }

  /** No run of controller upserts puts one id in two buckets, so each is the run over the flat map. */
  lemma {:induction false} UpsertsStayWellFormed(s: State, calls: seq<Call>)
    requires WellFormed(s) && SafeCalls(s, calls)
    ensures WellFormed(RunCalls(s, calls))
    ensures View(RunCalls(s, calls).data) == AfterCalls(s.scopes, s.autoHit, View(s.data), calls)
    decreases |calls|
  {
    if calls != [] {
      var c, m := calls[0], View(s.data);
      ViewKeyed(s.data);
      DedupedKeepsBucketIff(s.scopes, m, c.entry, c.results, c.newId, c.now, c.ok);
      StepRefines(s, StoreOp(m, c));
      StepKeepsConfig(s, StoreOp(m, c));
      UpsertsStayWellFormed(Step(s, StoreOp(m, c)).0, calls[1..]);
    }
  }

  // ---------- what reusing an entry does to the store ----------

  /** An upsert that reuses an entry replaces that one alone, and no hit is lost or gained. */
  lemma ReuseKeepsHits(scopes: set<string>, autoHit: bool, m: EntryMap, c: Call)
    requires KeyedById(m) && "" !in m && Reuses(m, c.entry, c.results)
    ensures var m' := Upserted(scopes, autoHit, m, c);
            KeyedById(m') && OnlyAt(m, m', Deduped(m, c.entry, c.results, c.now).id) && TotalHits(m') == TotalHits(m)
  {
    var e := Deduped(m, c.entry, c.results, c.now);
    ReusedIs(m, c.entry, c.results, c.now);
    if Accepted(scopes, e) {
      var f := Filled(e, c.newId, c.now);
      TotalHitsWithout(m, e.id);
      TotalHitsWith(m, e.id, f);
    }
  }

  /** Every call is accepted and reuses the entry with the id. */
  predicate AllReuse(scopes: set<string>, autoHit: bool, m: EntryMap, calls: seq<Call>, id: string)
    decreases |calls|
  {
    calls == [] || (
      && Reuses(m, calls[0].entry, calls[0].results) && Accepted(scopes, calls[0].entry)
      && Deduped(m, calls[0].entry, calls[0].results, calls[0].now).id == id
      && AllReuse(scopes, autoHit, Upserted(scopes, autoHit, m, calls[0]), calls[1..], id))
  }

  /** n duplicates in a row raise the score by a tenth each, and leave the hits, the origin and every other entry alone. */
  lemma {:induction false} ReusesAddUp(scopes: set<string>, autoHit: bool, m: EntryMap, calls: seq<Call>, id: string)
    requires KeyedById(m) && "" !in m && id in m && m[id].score >= 0.0 && m[id].created != 0
    requires AllReuse(scopes, autoHit, m, calls, id)
    ensures var m' := AfterCalls(scopes, autoHit, m, calls);
            && OnlyAt(m, m', id) && TotalHits(m') == TotalHits(m)
            && m'[id].score == m[id].score + 0.1 * |calls| as real
            && m'[id].hitCount == m[id].hitCount && m'[id].created == m[id].created && m'[id].source == m[id].source
            && (calls != [] ==> m'[id].content == calls[|calls| - 1].entry.content)
    decreases |calls|
  {
    if calls != [] {
      var c := calls[0];
      ReuseKeepsHits(scopes, autoHit, m, c);
      ReusedIs(m, c.entry, c.results, c.now);
      var m1 := Upserted(scopes, autoHit, m, c);
      assert m1[id] == Deduped(m, c.entry, c.results, c.now);
      ReusesAddUp(scopes, autoHit, m1, calls[1..], id);
      assert |calls| as real == 1.0 + |calls[1..]| as real;
    }
  }
}
