/** What the operations of the flat map do to one entry, field by field, and what that adds up to over several of them. */
module Effects {
  import opened Entries
  import opened StableSort
  import opened YamlState

  // ---------- one operation ----------

  /** f is e with delta added to its score, which stops at zero, and a hit counted if hits are. */
  predicate IsScored(e: Entry, f: Entry, delta: real, now: Time, autoHit: bool) {
    && (if e.score + delta > 0.0 then f.score == e.score + delta else f.score == 0.0)
    && f.hitCount == e.hitCount + (if autoHit then 1 else 0)
    && f.lastHit == (if autoHit then now else e.lastHit)
    && f == e.(score := f.score, hitCount := f.hitCount, lastHit := f.lastHit)
  }

  /** f is e with one hit more, the last of them now. */
  predicate IsHit(e: Entry, f: Entry, now: Time) {
    f.hitCount == e.hitCount + 1 && f.lastHit == now && f == e.(hitCount := f.hitCount, lastHit := f.lastHit)
  }

  /** f is what an upsert of e stores: what e leaves out is filled in, the rest is e's. */
  predicate IsStored(e: Entry, f: Entry, newId: string, now: Time) {
    && (if e.id == "" then f.id == newId else f.id == e.id)
    && (if e.score == 0.0 then f.score == 1.0 else f.score == e.score)
    && (if e.created == 0 then f.created == now else f.created == e.created)
    && f == e.(id := f.id, score := f.score, created := f.created)
  }

  /** Only the entry with the id differs, and no id comes or goes. */
  predicate OnlyAt(m: EntryMap, m': EntryMap, id: string) {
    m'.Keys == m.Keys && forall k | k in m && k != id :: m'[k] == m[k]
  }

  /** The entry with the id is scored, if it is stored, and nothing else changes. */
  predicate ScoreDone(m: EntryMap, m': EntryMap, id: string, delta: real, now: Time, autoHit: bool) {
    OnlyAt(m, m', id) && (id in m ==> IsScored(m[id], m'[id], delta, now, autoHit))
  }

  /** Exactly the listed entries have a hit more. */
  predicate HitsDone(m: EntryMap, m': EntryMap, ids: set<string>, now: Time) {
    m'.Keys == m.Keys && forall id | id in m :: if id in ids then IsHit(m[id], m'[id], now) else m'[id] == m[id]
  }

  lemma ScoreDoes(scopes: set<string>, autoHit: bool, m: EntryMap, id: string, delta: real, now: Time, ok: bool)
    ensures ScoreDone(m, MapStep(scopes, autoHit, m, Score(id, delta, now, ok)), id, delta, now, autoHit)
  {}

  lemma MarkHitsDoes(scopes: set<string>, autoHit: bool, m: EntryMap, ids: set<string>, now: Time)
    requires KeyedById(m)
    ensures HitsDone(m, MapStep(scopes, autoHit, m, MarkHits(ids, now)), if autoHit then ids else {}, now)
  {
    assert MarkedMap(m, ids, now).Keys == m.Keys;
  }

  /** The entry with the id says the new scope, if it is stored and was to be moved; nothing else changes. */
  predicate MoveDone(m: EntryMap, m': EntryMap, id: string, target: string, moves: bool) {
    OnlyAt(m, m', id) && (id in m ==> m'[id].scope == (if moves then target else m[id].scope) && m[id] == m'[id].(scope := m[id].scope))
  }

  /** A promotion moves an entry exactly to another configured scope, when the first write succeeds. */
  predicate Moves(scopes: set<string>, m: EntryMap, id: string, target: string, ok1: bool) {
    ok1 && target in scopes && id in m && target != (if m[id].scope == "" then "global" else m[id].scope)
  }

  lemma PromoteDoes(scopes: set<string>, autoHit: bool, m: EntryMap, id: string, target: string, ok1: bool, ok2: bool)
    ensures MoveDone(m, MapStep(scopes, autoHit, m, Promote(id, target, ok1, ok2)), id, target,
                     Moves(scopes, m, id, target, ok1))
  {}

  lemma FilledDoes(e: Entry, newId: string, now: Time)
    ensures IsStored(e, Filled(e, newId, now), newId, now)
  {}

  // ---------- scores ----------

  /** No score falls below zero, and a larger delta never leaves a smaller score. */
  lemma ScoreIsMonotone(scopes: set<string>, autoHit: bool, m: EntryMap, id: string, a: real, b: real, now: Time, ok: bool)
    requires id in m && a <= b
    ensures 0.0 <= MapStep(scopes, autoHit, m, Score(id, a, now, ok))[id].score
                <= MapStep(scopes, autoHit, m, Score(id, b, now, ok))[id].score
  {}

  /** Scoring twice gives the score of scoring once by the sum, exactly when the first does not stop at zero or the second only lowers. */
  lemma ScoresAddUpIff(scopes: set<string>, autoHit: bool, m: EntryMap, id: string, a: real, b: real, now: Time)
    requires id in m
    ensures var once := MapStep(scopes, autoHit, m, Score(id, a + b, now, true));
            var twice := MapStep(scopes, autoHit, MapStep(scopes, autoHit, m, Score(id, a, now, true)), Score(id, b, now, true));
            && (twice[id].score == once[id].score <==> m[id].score + a >= 0.0 || b <= 0.0)
            && (!autoHit && twice[id].score == once[id].score ==> twice == once)
  {}

  // ---------- hits ----------

  ghost function TotalHits(m: EntryMap): int {
    if m == map[] then 0 else
      var id := Pick(m.Keys);
      m[id].hitCount + TotalHits(m - {id})
  }

  lemma {:induction false} TotalHitsWithout(m: EntryMap, id: string)
    requires id in m
    ensures TotalHits(m) == m[id].hitCount + TotalHits(m - {id})
    decreases |m|
  {
    var x := Pick(m.Keys);
    if x != id {
      TotalHitsWithout(m - {x}, id);
      assert m - {x} - {id} == m - {id} - {x};
      TotalHitsWithout(m - {id}, x);
    }
  }

  lemma TotalHitsWith(m: EntryMap, id: string, e: Entry)
    ensures TotalHits(m[id := e]) == e.hitCount + TotalHits(m - {id})
  {
    TotalHitsWithout(m[id := e], id);
    assert m[id := e] - {id} == m - {id};
  }

  lemma CountWithout(keys: set<string>, ids: set<string>, id: string)
    requires id in keys
    ensures |keys * ids| == |(keys - {id}) * ids| + if id in ids then 1 else 0
  {
    if id in ids {
      assert keys * ids == (keys - {id}) * ids + {id};
    } else {
      assert keys * ids == (keys - {id}) * ids;
    }
  }

  /** Counting hits adds one to the total for each stored id that is listed. */
  lemma {:induction false} HitsAddUp(m: EntryMap, m': EntryMap, ids: set<string>, now: Time)
    requires HitsDone(m, m', ids, now)
    ensures TotalHits(m') == TotalHits(m) + |m.Keys * ids|
    decreases |m|
  {
    if m == map[] {
      assert m' == map[];
    } else {
      var id := Pick(m.Keys);
      HitsAddUp(m - {id}, m' - {id}, ids, now);
      TotalHitsWithout(m', id);
      TotalHitsWithout(m, id);
      CountWithout(m.Keys, ids, id);
      assert (m - {id}).Keys == m.Keys - {id};
    }
  }
}
