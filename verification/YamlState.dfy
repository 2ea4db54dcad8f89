/** The YAML store as a value: what each operation does to memory, to the dirty marks and to the files. */
module YamlState {
  import opened Entries

  type Buckets = map<Bucket, seq<Entry>>

  /** data is scope -> category -> entries, keyed by the pair; disk has one file for each key. */
  datatype State = State(scopes: set<string>, autoHit: bool, data: Buckets, dirty: set<Bucket>, disk: Buckets)

  datatype Position = Position(bucket: Bucket, index: nat)

  ghost predicate At(d: Buckets, b: Bucket, i: int) {
    b in d && 0 <= i < |d[b]|
  }

  ghost predicate Holds(d: Buckets, id: string, b: Bucket, i: int) {
    At(d, b, i) && d[b][i].id == id
  }

  ghost predicate UniqueIds(d: Buckets) {
    forall id, b, i, c, j | Holds(d, id, b, i) && Holds(d, id, c, j) :: b == c && i == j
  }

  ghost predicate Placed(d: Buckets) {
    forall b, i | At(d, b, i) :: Home(d[b][i]) == b
  }

  ghost predicate WellFormed(s: State) {
    && UniqueIds(s.data)
    && Placed(s.data)
    && "" !in s.scopes
    && (forall b | b in s.data :: b.scope in s.scopes)
    && s.dirty <= s.data.Keys
  }

  ghost function Ids(d: Buckets): set<string> {
    set b, i | b in d && 0 <= i < |d[b]| && At(d, b, i) :: d[b][i].id
  }

  /** The place of a stored id. */
  ghost function Place(d: Buckets, id: string): (p: Position)
    requires id in Ids(d)
    ensures Holds(d, id, p.bucket, p.index)
  {
    var b, i :| At(d, b, i) && d[b][i].id == id;
    Position(b, i)
  }

  /** The flat id -> entry map the nested buckets stand for. */
  ghost function View(d: Buckets): EntryMap {
    map id | id in Ids(d) :: d[Place(d, id).bucket][Place(d, id).index]
  }

  lemma ViewAt(d: Buckets, b: Bucket, i: nat)
    requires UniqueIds(d) && At(d, b, i)
    ensures d[b][i].id in View(d) && View(d)[d[b][i].id] == d[b][i] && Place(d, d[b][i].id) == Position(b, i)
  {
    var id := d[b][i].id;
    assert Holds(d, id, b, i) && id in Ids(d);
    assert Holds(d, id, Place(d, id).bucket, Place(d, id).index);
  }

  lemma ViewPlace(d: Buckets, id: string) returns (b: Bucket, i: nat)
    requires id in View(d)
    ensures Holds(d, id, b, i) && View(d)[id] == d[b][i]
  {
    b, i := Place(d, id).bucket, Place(d, id).index;
  }

  /** The view is the map that agrees with every place. */
  lemma ViewIs(d: Buckets, m: EntryMap)
    requires forall id, b, i | Holds(d, id, b, i) :: id in m && m[id] == d[b][i]
    requires forall id | id in m :: exists b, i :: Holds(d, id, b, i)
    ensures View(d) == m
  {}

  lemma ViewKeyed(d: Buckets)
    ensures KeyedById(View(d))
  {}

  // ---------- the three ways a bucket changes ----------

  function In(d: Buckets, b: Bucket): seq<Entry> {
    if b in d then d[b] else []
  }

  function Replaced(d: Buckets, b: Bucket, i: nat, e: Entry): Buckets
    requires b in d && i < |d[b]|
  {
    d[b := d[b][i := e]]
  }

  function Removed(d: Buckets, b: Bucket, i: nat): Buckets
    requires b in d && i < |d[b]|
  {
    d[b := d[b][..i] + d[b][i + 1..]]
  }

  function Appended(d: Buckets, b: Bucket, e: Entry): Buckets {
    d[b := In(d, b) + [e]]
  }

  lemma ReplacedView(d: Buckets, b: Bucket, i: nat, e: Entry)
    requires UniqueIds(d) && At(d, b, i) && d[b][i].id == e.id
    ensures var d' := Replaced(d, b, i, e); UniqueIds(d') && View(d') == View(d)[e.id := e]
    ensures Placed(d) && Home(e) == b ==> Placed(Replaced(d, b, i, e))
  {
    var d', m := Replaced(d, b, i, e), View(d)[e.id := e];
    assert Holds(d, e.id, b, i);
    forall id, c, j ensures Holds(d', id, c, j) <==> Holds(d, id, c, j) {}
    forall id, c, j | Holds(d', id, c, j) ensures id in m && m[id] == d'[c][j] { ViewAt(d, c, j); }
    forall id | id in m ensures exists c, j :: Holds(d', id, c, j) {
      if id in View(d) { var c, j := ViewPlace(d, id); assert Holds(d', id, c, j); }
    }
    ViewIs(d', m);
  }

  lemma AppendedHolds(d: Buckets, b: Bucket, e: Entry, id: string, c: Bucket, j: int)
    ensures var d', n := Appended(d, b, e), |In(d, b)|;
            && (Holds(d', id, c, j) <==> Holds(d, id, c, j) || (id == e.id && c == b && j == n))
            && (Holds(d, id, c, j) ==> d'[c][j] == d[c][j])
            && d'[b][n] == e
  {}

  lemma AppendedView(d: Buckets, b: Bucket, e: Entry)
    requires UniqueIds(d) && e.id !in View(d)
    ensures var d' := Appended(d, b, e); UniqueIds(d') && View(d') == View(d)[e.id := e]
    ensures Placed(d) && Home(e) == b ==> Placed(Appended(d, b, e))
  {
    var d', m, n := Appended(d, b, e), View(d)[e.id := e], |In(d, b)|;
    forall id, c, j | Holds(d', id, c, j)
      ensures id in m && m[id] == d'[c][j] && (if id == e.id then c == b && j == n else Holds(d, id, c, j))
    {
      AppendedHolds(d, b, e, id, c, j);
      if Holds(d, id, c, j) { ViewAt(d, c, j); }
    }
    assert UniqueIds(d');
    forall id | id in m ensures exists c, j :: Holds(d', id, c, j) {
      AppendedHolds(d, b, e, id, b, n);
      if id in View(d) {
        var c, j := ViewPlace(d, id);
        AppendedHolds(d, b, e, id, c, j);
      }
    }
    ViewIs(d', m);
    if Placed(d) && Home(e) == b { AppendedPlaced(d, b, e); }
  }

  lemma AppendedPlaced(d: Buckets, b: Bucket, e: Entry)
    requires Placed(d) && Home(e) == b
    ensures Placed(Appended(d, b, e))
  {}

  /** Where the element that Removed leaves at j came from. */
  function Before(b: Bucket, i: int, c: Bucket, j: int): int {
    if c == b && j >= i then j + 1 else j
  }

  lemma RemovedHolds(d: Buckets, b: Bucket, i: nat, id: string, c: Bucket, j: int)
    requires At(d, b, i)
    ensures var d' := Removed(d, b, i);
            && (Holds(d', id, c, j) <==> 0 <= j && Holds(d, id, c, Before(b, i, c, j)))
            && (Holds(d', id, c, j) ==> d'[c][j] == d[c][Before(b, i, c, j)])
  {}

  lemma RemovedView(d: Buckets, b: Bucket, i: nat)
    requires UniqueIds(d) && At(d, b, i)
    ensures var d' := Removed(d, b, i); UniqueIds(d') && View(d') == View(d) - {d[b][i].id}
    ensures Placed(d) ==> Placed(Removed(d, b, i))
  {
    var d', gone := Removed(d, b, i), d[b][i].id;
    var m := View(d) - {gone};
    assert Holds(d, gone, b, i);
    forall id, c, j | Holds(d', id, c, j)
      ensures var k := Before(b, i, c, j); Holds(d, id, c, k) && d'[c][j] == d[c][k] && id in m && m[id] == d'[c][j]
    {
      RemovedHolds(d, b, i, id, c, j);
      ViewAt(d, c, Before(b, i, c, j));
    }
    forall id | id in m ensures exists c, j :: Holds(d', id, c, j) {
      var c, k := ViewPlace(d, id);
      var j := if c == b && k > i then k - 1 else k;
      RemovedHolds(d, b, i, id, c, j);
      assert Holds(d', id, c, j);
    }
    ViewIs(d', m);
    if Placed(d) {
      forall c, j | At(d', c, j) ensures Home(d'[c][j]) == c {
        assert Holds(d', d'[c][j].id, c, j);
        assert At(d, c, Before(b, i, c, j));
      }
    }
  }

  // ---------- entry updates ----------

  /** Upsert's defaults; newId is the generated id. */
  function Filled(e: Entry, newId: string, now: Time): Entry {
    e.(id := if e.id == "" then newId else e.id,
       score := if e.score == 0.0 then 1.0 else e.score,
       created := if e.created == 0 then now else e.created)
  }

  function Hit(e: Entry, now: Time): Entry {
    e.(hitCount := e.hitCount + 1, lastHit := now)
  }

  function Scored(e: Entry, delta: real, now: Time, autoHit: bool): Entry {
    var scored := e.(score := if e.score + delta < 0.0 then 0.0 else e.score + delta);
    if autoHit then Hit(scored, now) else scored
  }

  function MarkedEntry(e: Entry, ids: set<string>, now: Time): Entry {
    if e.id in ids then Hit(e, now) else e
  }

  function MarkedSeq(es: seq<Entry>, ids: set<string>, now: Time): seq<Entry> {
    seq(|es|, i requires 0 <= i < |es| => MarkedEntry(es[i], ids, now))
  }

  function Marked(d: Buckets, ids: set<string>, now: Time): Buckets {
    map b | b in d :: MarkedSeq(d[b], ids, now)
  }

  function MarkedMap(m: EntryMap, ids: set<string>, now: Time): EntryMap {
    map id | id in m :: MarkedEntry(m[id], ids, now)
  }

  predicate Touches(es: seq<Entry>, ids: set<string>) {
    exists i | 0 <= i < |es| :: es[i].id in ids
  }

  lemma MarkedView(d: Buckets, ids: set<string>, now: Time)
    requires UniqueIds(d)
    ensures var d' := Marked(d, ids, now); UniqueIds(d') && View(d') == MarkedMap(View(d), ids, now)
    ensures Placed(d) ==> Placed(Marked(d, ids, now))
  {
    var d', m := Marked(d, ids, now), MarkedMap(View(d), ids, now);
    forall id, c, j ensures Holds(d', id, c, j) <==> Holds(d, id, c, j) {}
    forall id, c, j | Holds(d', id, c, j) ensures id in m && m[id] == d'[c][j] { ViewAt(d, c, j); }
    forall id | id in m ensures exists c, j :: Holds(d', id, c, j) {
      var c, j := ViewPlace(d, id);
      assert Holds(d', id, c, j);
    }
    ViewIs(d', m);
    if Placed(d) {
      forall c, j | At(d', c, j) ensures Home(d'[c][j]) == c { assert At(d, c, j); }
    }
  }

  // ---------- operations ----------

  /** ok, ok1 and ok2 say whether the file writes succeed; flushed is the part of dirty a flush reached. */
  datatype Op =
    | Upsert(entry: Entry, newId: string, now: Time, ok: bool)
    | Score(id: string, delta: real, now: Time, ok: bool)
    | Delete(id: string, ok: bool)
    | Promote(id: string, target: string, ok1: bool, ok2: bool)
    | MarkHits(ids: set<string>, now: Time)
    | Flush(flushed: set<Bucket>)

  datatype Outcome = Done | NotAllowed | ScopeNotConfigured | NotFound | WriteFailed

  /** Where id is stored, outside the skipped scopes. */
  ghost function Locate(d: Buckets, id: string, skip: set<string>): Option<Position> {
    if exists b, i :: Holds(d, id, b, i) && b.scope !in skip then
      var b, i :| Holds(d, id, b, i) && b.scope !in skip;
      Some(Position(b, i))
    else None
  }

  lemma LocateUnique(d: Buckets, id: string, skip: set<string>, b: Bucket, i: nat)
    requires UniqueIds(d) && Holds(d, id, b, i) && b.scope !in skip
    ensures Locate(d, id, skip) == Some(Position(b, i))
  {}

  /** The first entry with the id, or the length. */
  function First(es: seq<Entry>, id: string): (n: nat)
    ensures n <= |es| && (forall j | 0 <= j < n :: es[j].id != id) && (n < |es| ==> es[n].id == id)
  {
    if es == [] || es[0].id == id then 0 else First(es[1..], id) + 1
  }

  /** Overwrites the first entry with e's id, or appends. */
  function Put(es: seq<Entry>, e: Entry): seq<Entry> {
    var n := First(es, e.id);
    if n < |es| then es[n := e] else es + [e]
  }

  function Persist(s: State, b: Bucket, ok: bool): State {
    if ok then s.(disk := s.disk[b := In(s.data, b)]) else s
  }

  function Written(ok: bool): Outcome {
    if ok then Done else WriteFailed
  }

  function UpsertStep(s: State, entry: Entry, newId: string, now: Time, ok: bool): (State, Outcome) {
    if !IsAllowedCategory(entry.category) then (s, NotAllowed)
    else if NormalizedScope(entry.scope) !in s.scopes then (s, ScopeNotConfigured)
    else
      var e := Filled(entry, newId, now);
      var b := Home(e);
      (Persist(s.(data := s.data[b := Put(In(s.data, b), e)]), b, ok), Written(ok))
  }

  ghost function ScoreStep(s: State, id: string, delta: real, now: Time, ok: bool): (State, Outcome) {
    match Locate(s.data, id, {})
    case None => (s, NotFound)
    case Some(Position(b, i)) =>
      (Persist(s.(data := Replaced(s.data, b, i, Scored(s.data[b][i], delta, now, s.autoHit))), b, ok), Written(ok))
  }

  ghost function DeleteStep(s: State, id: string, ok: bool): (State, Outcome) {
    match Locate(s.data, id, {})
    case None => (s, NotFound)
    case Some(Position(b, i)) => (Persist(s.(data := Removed(s.data, b, i)), b, ok), Written(ok))
  }

  /** Removes from the source file first; if that write fails the entry is put back. */
  ghost function PromoteStep(s: State, id: string, target: string, ok1: bool, ok2: bool): (State, Outcome) {
    if target !in s.scopes then (s, ScopeNotConfigured)
    else match Locate(s.data, id, {target})
      case None => (s, NotFound)
      case Some(Position(b, i)) =>
        if !ok1 then (s, WriteFailed)
        else
          var e := s.data[b][i].(scope := target);
          var s1 := Persist(s.(data := Removed(s.data, b, i)), b, true);
          var b2 := Bucket(target, b.category);
          (Persist(s1.(data := Appended(s1.data, b2, e)), b2, ok2), Written(ok2))
  }

  function MarkHitsStep(s: State, ids: set<string>, now: Time): State {
    if !s.autoHit then s
    else s.(data := Marked(s.data, ids, now), dirty := s.dirty + set b | b in s.data && Touches(s.data[b], ids))
  }

  function FlushStep(s: State, flushed: set<Bucket>): State {
    var reached := flushed * s.dirty;
    s.(dirty := s.dirty - reached,
       disk := map b | b in s.disk.Keys + reached :: if b in reached then In(s.data, b) else s.disk[b])
  }

  ghost function Step(s: State, op: Op): (State, Outcome) {
    match op
    case Upsert(entry, newId, now, ok) => UpsertStep(s, entry, newId, now, ok)
    case Score(id, delta, now, ok) => ScoreStep(s, id, delta, now, ok)
    case Delete(id, ok) => DeleteStep(s, id, ok)
    case Promote(id, target, ok1, ok2) => PromoteStep(s, id, target, ok1, ok2)
    case MarkHits(ids, now) => (MarkHitsStep(s, ids, now), Done)
    case Flush(flushed) => (FlushStep(s, flushed), Done)
  }

  // ---------- the flat specification ----------

  function MapStep(scopes: set<string>, autoHit: bool, m: EntryMap, op: Op): EntryMap {
    match op
    case Upsert(entry, newId, now, _) =>
      if Accepted(scopes, entry) then var e := Filled(entry, newId, now); m[e.id := e] else m
    case Score(id, delta, now, _) =>
      if id in m then m[id := Scored(m[id], delta, now, autoHit)] else m
    case Delete(id, _) => m - {id}
    case Promote(id, target, ok1, _) =>
      if target in scopes && id in m && NormalizedScope(m[id].scope) != target && ok1
      then m[id := m[id].(scope := target)] else m
    case MarkHits(ids, now) => if autoHit then MarkedMap(m, ids, now) else m
    case Flush(_) => m
  }

  predicate Accepted(scopes: set<string>, entry: Entry) {
    IsAllowedCategory(entry.category) && NormalizedScope(entry.scope) in scopes
  }

  /** The well-formedness hypothesis on callers: an upsert of a known id names the bucket it is already in. */
  predicate KeepsBucket(scopes: set<string>, m: EntryMap, op: Op) {
    op.Upsert? && Accepted(scopes, op.entry) ==>
      var e := Filled(op.entry, op.newId, op.now);
      e.id in m ==> Home(m[e.id]) == Home(e)
  }

  lemma PutView(d: Buckets, e: Entry)
    requires UniqueIds(d) && Placed(d) && (e.id in View(d) ==> Home(View(d)[e.id]) == Home(e))
    ensures var d' := d[Home(e) := Put(In(d, Home(e)), e)];
            UniqueIds(d') && Placed(d') && View(d') == View(d)[e.id := e]
  {
    var b, es := Home(e), In(d, Home(e));
    var n := First(es, e.id);
    if n < |es| {
      ReplacedView(d, b, n, e);
    } else {
      if e.id in View(d) {
        var c, i := ViewPlace(d, e.id);
      }
      AppendedView(d, b, e);
    }
  }

  lemma PutPlaces(d: Buckets, b: Bucket, e: Entry, id: string, c: Bucket, i: int)
    requires id != e.id
    ensures Holds(d[b := Put(In(d, b), e)], id, c, i) <==> Holds(d, id, c, i)
  {
    if c == b {
      var es, n := In(d, b), First(In(d, b), e.id);
      assert Put(es, e) == if n < |es| then es[n := e] else es + [e];
    }
  }

  /** Whatever the buckets hold, putting an entry forgets no id and adds its own. */
  lemma PutIds(d: Buckets, b: Bucket, e: Entry)
    ensures Ids(d[b := Put(In(d, b), e)]) == Ids(d) + {e.id}
  {
    var d', n := d[b := Put(In(d, b), e)], First(In(d, b), e.id);
    assert Holds(d', e.id, b, n);
    forall id ensures id in Ids(d') <==> id in Ids(d) + {e.id} {
      if id != e.id && id in Ids(d) {
        var p := Place(d, id);
        PutPlaces(d, b, e, id, p.bucket, p.index);
      }
      if id != e.id && id in Ids(d') {
        var p := Place(d', id);
        PutPlaces(d, b, e, id, p.bucket, p.index);
      }
    }
  }

  /** s' is well formed and stands for what the flat map has become. */
  ghost predicate Refined(s: State, op: Op, s': State) {
    WellFormed(s') && View(s'.data) == MapStep(s.scopes, s.autoHit, View(s.data), op)
  }

  lemma UpsertRefines(s: State, entry: Entry, newId: string, now: Time, ok: bool)
    requires WellFormed(s) && KeepsBucket(s.scopes, View(s.data), Upsert(entry, newId, now, ok))
    ensures Refined(s, Upsert(entry, newId, now, ok), UpsertStep(s, entry, newId, now, ok).0)
  {
    if Accepted(s.scopes, entry) {
      PutView(s.data, Filled(entry, newId, now));
    }
  }

  lemma MovedView(d: Buckets, b: Bucket, i: nat, target: string, e: Entry, d1: Buckets, d2: Buckets)
    requires UniqueIds(d) && Placed(d) && At(d, b, i) && target != ""
    requires e == d[b][i].(scope := target)
    requires d1 == Removed(d, b, i) && d2 == Appended(d1, Bucket(target, b.category), e)
    ensures UniqueIds(d2) && Placed(d2) && View(d2) == View(d)[e.id := e]
  {
    assert UniqueIds(d1) && Placed(d1) && View(d1) == View(d) - {e.id} by { RemovedView(d, b, i); }
    assert Home(e) == Bucket(target, b.category) by { assert Home(d[b][i]) == b; }
    AppendedView(d1, Home(e), e);
    Reinserted(View(d), e.id, e);
  }

  lemma Reinserted(m: EntryMap, id: string, e: Entry)
    ensures (m - {id})[id := e] == m[id := e]
  {}

  lemma PromoteRefines(s: State, id: string, target: string, ok1: bool, ok2: bool)
    requires WellFormed(s)
    ensures Refined(s, Promote(id, target, ok1, ok2), PromoteStep(s, id, target, ok1, ok2).0)
  {
    if target in s.scopes {
      if id in View(s.data) { var c, j := ViewPlace(s.data, id); }
      match Locate(s.data, id, {target}) {
        case None =>
        case Some(Position(b, i)) =>
          ViewAt(s.data, b, i);
          var e, d1 := s.data[b][i].(scope := target), Removed(s.data, b, i);
          MovedView(s.data, b, i, target, e, d1, Appended(d1, Bucket(target, b.category), e));
      }
    }
  }

  lemma ScoreRefines(s: State, id: string, delta: real, now: Time, ok: bool)
    requires WellFormed(s)
    ensures Refined(s, Score(id, delta, now, ok), ScoreStep(s, id, delta, now, ok).0)
  {
    if id in View(s.data) { var c, j := ViewPlace(s.data, id); }
    match Locate(s.data, id, {}) {
      case None =>
      case Some(Position(b, i)) =>
        ViewAt(s.data, b, i);
        ReplacedView(s.data, b, i, Scored(s.data[b][i], delta, now, s.autoHit));
    }
  }

  /** The search finds an id exactly when it is stored, and where it is stored. */
  lemma LocateView(d: Buckets, id: string)
    requires UniqueIds(d)
    ensures var p := Locate(d, id, {});
            (p.None? <==> id !in View(d)) && (p.Some? ==> Holds(d, id, p.value.bucket, p.value.index))
  {
    if id in View(d) { var c, j := ViewPlace(d, id); }
    if b, i :| Holds(d, id, b, i) { ViewAt(d, b, i); }
  }

  lemma RemovedRefines(s: State, id: string, ok: bool, b: Bucket, i: nat)
    requires WellFormed(s) && Holds(s.data, id, b, i)
    ensures Refined(s, Delete(id, ok), Persist(s.(data := Removed(s.data, b, i)), b, ok))
  {
    RemovedView(s.data, b, i);
  }

  lemma AbsentRefines(s: State, id: string, ok: bool)
    requires WellFormed(s) && id !in View(s.data)
    ensures Refined(s, Delete(id, ok), s)
  {
    assert View(s.data) - {id} == View(s.data);
  }

  lemma DeleteRefines(s: State, id: string, ok: bool)
    requires WellFormed(s)
    ensures Refined(s, Delete(id, ok), DeleteStep(s, id, ok).0)
  {
    var p := Locate(s.data, id, {});
    LocateView(s.data, id);
    if p.None? {
      AbsentRefines(s, id, ok);
    } else {
      RemovedRefines(s, id, ok, p.value.bucket, p.value.index);
    }
  }

  lemma MarkHitsRefines(s: State, ids: set<string>, now: Time)
    requires WellFormed(s)
    ensures Refined(s, MarkHits(ids, now), MarkHitsStep(s, ids, now))
  {
    MarkedView(s.data, ids, now);
  }

  lemma FlushRefines(s: State, flushed: set<Bucket>)
    requires WellFormed(s)
    ensures Refined(s, Flush(flushed), FlushStep(s, flushed))
  {}

  /** One operation on the nested store is one operation on the flat map. */
  lemma StepRefines(s: State, op: Op)
    requires WellFormed(s) && KeepsBucket(s.scopes, View(s.data), op)
    ensures Refined(s, op, Step(s, op).0)
  {
    match op
    case Upsert(entry, newId, now, ok) => UpsertRefines(s, entry, newId, now, ok);
    case Score(id, delta, now, ok) => ScoreRefines(s, id, delta, now, ok);
    case Delete(id, ok) => DeleteRefines(s, id, ok);
    case Promote(id, target, ok1, ok2) => PromoteRefines(s, id, target, ok1, ok2);
    case MarkHits(ids, now) => MarkHitsRefines(s, ids, now);
    case Flush(flushed) => FlushRefines(s, flushed);
  }

  lemma StepKeepsConfig(s: State, op: Op)
    ensures Step(s, op).0.scopes == s.scopes && Step(s, op).0.autoHit == s.autoHit
  {}

  // ---------- runs ----------

  ghost function Run(s: State, ops: seq<Op>): State
    decreases |ops|
  {
    if ops == [] then s else Run(Step(s, ops[0]).0, ops[1..])
  }

  function MapRun(scopes: set<string>, autoHit: bool, m: EntryMap, ops: seq<Op>): EntryMap
    decreases |ops|
  {
    if ops == [] then m else MapRun(scopes, autoHit, MapStep(scopes, autoHit, m, ops[0]), ops[1..])
  }

  predicate LegalRun(scopes: set<string>, autoHit: bool, m: EntryMap, ops: seq<Op>)
    decreases |ops|
  {
    ops == [] ||
    (KeepsBucket(scopes, m, ops[0]) && LegalRun(scopes, autoHit, MapStep(scopes, autoHit, m, ops[0]), ops[1..]))
  }

  /** Over every run the store is the flat map, and stays well formed. */
  lemma {:induction false} RunRefines(s: State, ops: seq<Op>)
    requires WellFormed(s) && LegalRun(s.scopes, s.autoHit, View(s.data), ops)
    ensures WellFormed(Run(s, ops))
    ensures View(Run(s, ops).data) == MapRun(s.scopes, s.autoHit, View(s.data), ops)
    decreases |ops|
  {
    if ops != [] {
      var s1 := Step(s, ops[0]).0;
      StepRefines(s, ops[0]);
      StepKeepsConfig(s, ops[0]);
      RunRefines(s1, ops[1..]);
      assert Run(s, ops) == Run(s1, ops[1..]);
    }
  }

  /** Exactly when one upsert keeps the store well formed. */
  lemma UpsertWellFormedIff(s: State, entry: Entry, newId: string, now: Time, ok: bool)
    requires WellFormed(s)
    ensures WellFormed(UpsertStep(s, entry, newId, now, ok).0)
       <==> KeepsBucket(s.scopes, View(s.data), Upsert(entry, newId, now, ok))
  {
    var op := Upsert(entry, newId, now, ok);
    if KeepsBucket(s.scopes, View(s.data), op) {
      UpsertRefines(s, entry, newId, now, ok);
    } else {
      var e := Filled(entry, newId, now);
      var b, es := Home(e), In(s.data, Home(e));
      var c, i := ViewPlace(s.data, e.id);
      var n := First(es, e.id);
      if n < |es| { assert Holds(s.data, e.id, b, n); }
      var d' := s.data[b := Put(es, e)];
      assert Holds(d', e.id, b, n) && Holds(d', e.id, c, i);
    }
  }

  // ---------- memory and disk ----------

  /** Every clean bucket equals its file, and no file of a configured scope is unknown to memory. */
  ghost predicate Synced(s: State) {
    && (forall b | b in s.data && b !in s.dirty :: b in s.disk && s.disk[b] == s.data[b])
    && (forall b | b in s.disk && b.scope in s.scopes :: b in s.data)
  }

  /** The writes that must succeed: all but a flush's, and Promote's first. */
  predicate WritesSucceed(op: Op) {
    match op
    case Upsert(_, _, _, ok) => ok
    case Score(_, _, _, ok) => ok
    case Delete(_, ok) => ok
    case Promote(_, _, ok1, ok2) => ok1 ==> ok2
    case MarkHits(_, _) => true
    case Flush(_) => true
  }

  lemma StepSynced(s: State, op: Op)
    requires WellFormed(s) && Synced(s) && WritesSucceed(op)
    ensures Synced(Step(s, op).0)
  {}

  lemma {:induction false} RunSynced(s: State, ops: seq<Op>)
    requires WellFormed(s) && Synced(s) && LegalRun(s.scopes, s.autoHit, View(s.data), ops)
    requires forall op | op in ops :: WritesSucceed(op)
    ensures Synced(Run(s, ops)) && Run(s, ops).scopes == s.scopes
    decreases |ops|
  {
    if ops != [] {
      var s1 := Step(s, ops[0]).0;
      StepRefines(s, ops[0]);
      StepKeepsConfig(s, ops[0]);
      StepSynced(s, ops[0]);
      RunSynced(s1, ops[1..]);
      assert Run(s, ops) == Run(s1, ops[1..]);
    }
  }

  /** Exactly when a write-through of one bucket leaves memory and disk in agreement. */
  lemma WriteThroughSyncedIff(s: State, b: Bucket, es: seq<Entry>, ok: bool)
    requires Synced(s) && b.scope in s.scopes
    ensures Synced(Persist(s.(data := s.data[b := es]), b, ok))
       <==> ok || b in s.dirty || (b in s.disk && s.disk[b] == es)
  {}

  // ---------- closing and reopening ----------

  function Cleaned(es: seq<Entry>, sanitize: seq<string> -> seq<string>): seq<Entry> {
    seq(|es|, i requires 0 <= i < |es| => es[i].(tags := sanitize(es[i].tags)))
  }

  /** What New reads: every file of every configured scope, with its tags sanitised. */
  function Loaded(scopes: set<string>, disk: Buckets, sanitize: seq<string> -> seq<string>): Buckets {
    map b | b in disk && b.scope in scopes :: Cleaned(disk[b], sanitize)
  }

  /** Loading takes every file of a configured scope, entry by entry, and changes nothing but the tags. */
  lemma LoadedIs(scopes: set<string>, disk: Buckets, sanitize: seq<string> -> seq<string>)
    ensures var d := Loaded(scopes, disk, sanitize);
            && (forall b :: b in d <==> b in disk && b.scope in scopes)
            && (forall b | b in d :: |d[b]| == |disk[b]|)
            && (forall b, i | At(d, b, i) :: d[b][i] == disk[b][i].(tags := sanitize(disk[b][i].tags)))
  {}

  ghost predicate CleanTags(d: Buckets, sanitize: seq<string> -> seq<string>) {
    forall b, i | At(d, b, i) :: sanitize(d[b][i].tags) == d[b][i].tags
  }

  /** A successful Close followed by New gives back memory, exactly when the tags were clean. */
  lemma CloseThenNew(s: State, sanitize: seq<string> -> seq<string>)
    requires WellFormed(s) && Synced(s)
    ensures var closed := FlushStep(s, s.dirty);
            Loaded(s.scopes, closed.disk, sanitize) == s.data <==> CleanTags(s.data, sanitize)
  {
    var closed := FlushStep(s, s.dirty);
    assert forall b | b in s.data :: b in closed.disk && closed.disk[b] == s.data[b];
    var d := Loaded(s.scopes, closed.disk, sanitize);
    assert d.Keys == s.data.Keys;
    assert forall b | b in d :: d[b] == Cleaned(s.data[b], sanitize);
    if CleanTags(s.data, sanitize) {
      forall b | b in d ensures d[b] == s.data[b] {
        assert forall i | 0 <= i < |s.data[b]| :: At(s.data, b, i);
      }
    }
    if d == s.data {
      forall b, i | At(s.data, b, i) ensures sanitize(s.data[b][i].tags) == s.data[b][i].tags {
        assert d[b][i] == s.data[b][i];
      }
    }
  }

  /** Over every run with successful writes, closing and reopening loses nothing. */
  lemma RunCloseNew(s: State, ops: seq<Op>, sanitize: seq<string> -> seq<string>)
    requires WellFormed(s) && Synced(s) && LegalRun(s.scopes, s.autoHit, View(s.data), ops)
    requires forall op | op in ops :: WritesSucceed(op)
    ensures var last := Run(s, ops);
            Loaded(s.scopes, FlushStep(last, last.dirty).disk, sanitize) == last.data
            <==> CleanTags(last.data, sanitize)
  {
    RunRefines(s, ops);
    RunSynced(s, ops);
    CloseThenNew(Run(s, ops), sanitize);
  }
}
