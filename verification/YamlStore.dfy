/** The YAML store: buckets spliced in place, written through to files, with hits flushed lazily. */
module YamlStore {
  import opened Effects
  import opened Entries
  import opened Ranking
  import opened Selection
  import opened StableSort
  import opened YamlState
  import opened YamlListing
  import opened Heads
  import Text

  class Store {
    const scopes: set<string>
    const autoHit: bool
    var data: Buckets
    var dirty: set<Bucket>
    /** The files under the scope directories. */
    var disk: Buckets
    var closed: bool

    ghost function Now(): State
      reads this
    {
      State(scopes, autoHit, data, dirty, disk)
    }

    ghost predicate Valid()
      reads this
    {
      WellFormed(Now())
    }

    ghost function Contents(): EntryMap
      reads this
    {
      View(data)
    }

    /** Loads every file of every configured scope. */
    constructor (scopes: set<string>, autoHit: bool, disk: Buckets, sanitize: seq<string> -> seq<string>)
      ensures Now() == State(scopes, autoHit, Loaded(scopes, disk, sanitize), {}, disk) && !closed
    {
      this.scopes, this.autoHit, this.disk := scopes, autoHit, disk;
      data, dirty, closed := map[], {}, false;
      new;
      var todo := disk.Keys;
      while todo != {}
        invariant todo <= disk.Keys && this.disk == disk && dirty == {} && !closed
        invariant data == map b | b in disk && b !in todo && b.scope in scopes :: Cleaned(disk[b], sanitize)
      {
        var b :| b in todo;
        if b.scope in scopes {
          data := data[b := Cleaned(disk[b], sanitize)];
        }
        todo := todo - {b};
      }
    }

    /** Fails when a scope's directory cannot be created or listed, or one of its files cannot be read; else loads them all. */
    static method New(scopes: set<string>, autoHit: bool, disk: Buckets, unusable: set<string>, unreadable: set<Bucket>,
                      sanitize: seq<string> -> seq<string>) returns (store: Store?)
      ensures store == null <==> scopes * unusable != {} || exists b :: b in unreadable && b in disk && b.scope in scopes
      ensures store != null ==>
                fresh(store) && !store.closed && store.Now() == State(scopes, autoHit, Loaded(scopes, disk, sanitize), {}, disk)
    {
      if scopes * unusable != {} { return null; }
      var todo := disk.Keys;
      while todo != {}
        invariant todo <= disk.Keys
        invariant forall b | b in disk && b !in todo && b.scope in scopes :: b !in unreadable
      {
        var b :| b in todo;
        todo := todo - {b};
        if b.scope in scopes && b in unreadable { return null; }
      }
      store := new Store(scopes, autoHit, disk, sanitize);
    }

    // ---------- files ----------

    method Persist(b: Bucket, ok: bool) returns (o: Outcome)
      modifies this`disk
      ensures Now() == YamlState.Persist(old(Now()), b, ok) && o == Written(ok)
    {
      if !ok { return WriteFailed; }
      disk := disk[b := In(data, b)];
      o := Done;
    }

    /** Writes dirty buckets in some order until one fails; reached are those written. */
    method Flush(failing: set<Bucket>) returns (ok: bool, ghost reached: set<Bucket>)
      modifies this`disk, this`dirty
      ensures reached <= old(dirty) && Now() == FlushStep(old(Now()), reached)
      ensures ok ==> reached == old(dirty)
      ensures !ok ==> failing * dirty != {}
    {
      reached := {};
      while dirty != {}
        invariant reached <= old(dirty) && Now() == FlushStep(old(Now()), reached)
        invariant dirty == old(dirty) - reached
        decreases dirty
      {
        var b :| b in dirty;
        var o := Persist(b, b !in failing);
        if o != Done {
          assert b in failing * dirty;
          return false, reached;
        }
        dirty := dirty - {b};
        FlushMore(old(Now()), reached, b);
        reached := reached + {b};
      }
      ok := true;
    }

    /** A second close does nothing; reached are the buckets the first one wrote. */
    method Close(failing: set<Bucket>) returns (ok: bool, ghost reached: set<Bucket>)
      modifies this`disk, this`dirty, this`closed
      ensures closed && (old(closed) ==> ok && Now() == old(Now()))
      ensures !old(closed) ==> reached <= old(dirty) && Now() == FlushStep(old(Now()), reached)
      ensures !old(closed) ==> (ok ==> reached == old(dirty)) && (!ok ==> failing * dirty != {})
    {
      if closed { return true, {}; }
      closed := true;
      ok, reached := Flush(failing);
    }

    // ---------- writes ----------

    /** The nested search all of Score, Delete and Promote begin with. */
    method Find(id: string, skip: set<string>) returns (p: Option<Position>)
      ensures p.Some? ==> Holds(data, id, p.value.bucket, p.value.index) && p.value.bucket.scope !in skip
      ensures p.None? ==> forall b, i | Holds(data, id, b, i) :: b.scope in skip
      ensures UniqueIds(data) ==> p == Locate(data, id, skip)
    {
      var todo := data.Keys;
      while todo != {}
        invariant todo <= data.Keys
        invariant forall b, i | Holds(data, id, b, i) && b !in todo :: b.scope in skip
      {
        var b :| b in todo;
        todo := todo - {b};
        if b.scope in skip { continue; }
        var es := data[b];
        for i := 0 to |es|
          invariant forall j | 0 <= j < i :: es[j].id != id
        {
          if es[i].id == id {
            assert Holds(data, id, b, i);
            if UniqueIds(data) { LocateUnique(data, id, skip, b, i); }
            return Some(Position(b, i));
          }
        }
      }
      p := None;
    }

    method Upsert(entry: Entry, newId: string, now: Time, ok: bool) returns (o: Outcome, stored: Entry)
      modifies this`data, this`disk
      ensures (Now(), o) == UpsertStep(old(Now()), entry, newId, now, ok)
      ensures stored == if o == Done || o == WriteFailed then Filled(entry, newId, now) else entry
      ensures if o == Done || o == WriteFailed then IsStored(entry, stored, newId, now) else Now() == old(Now())
      ensures o == NotAllowed <==> entry.category !in ["avoidance", "security", "syntax", "architecture", "domain"]
      ensures old(Valid()) ==>
                (Valid() <==> KeepsBucket(scopes, old(Contents()), YamlState.Op.Upsert(entry, newId, now, ok)))
      ensures old(Valid()) && Valid() ==>
                Contents() == MapStep(scopes, autoHit, old(Contents()), YamlState.Op.Upsert(entry, newId, now, ok))
    {
      ghost var s := Now();
      if WellFormed(s) {
        UpsertWellFormedIff(s, entry, newId, now, ok);
        if KeepsBucket(scopes, View(data), YamlState.Op.Upsert(entry, newId, now, ok)) {
          UpsertRefines(s, entry, newId, now, ok);
        }
      }
      o, stored := Write(entry, newId, now, ok);
    }

    /** Overwrites the first entry of the bucket with the same id, or appends. */
    method Write(entry: Entry, newId: string, now: Time, ok: bool) returns (o: Outcome, stored: Entry)
      modifies this`data, this`disk
      ensures (Now(), o) == UpsertStep(old(Now()), entry, newId, now, ok)
      ensures stored == if o == Done || o == WriteFailed then Filled(entry, newId, now) else entry
    {
      if !IsAllowedCategory(entry.category) { return NotAllowed, entry; }
      var scope := NormalizedScope(entry.scope);
      if scope !in scopes { return ScopeNotConfigured, entry; }
      stored := Filled(entry, newId, now);
      var b := Bucket(scope, entry.category);
      if b !in data { data := data[b := []]; }
      var i := 0;
      while i < |data[b]| && data[b][i].id != stored.id
        invariant 0 <= i <= |data[b]| && i <= First(data[b], stored.id)
      {
        i := i + 1;
      }
      if i < |data[b]| {
        data := data[b := data[b][i := stored]];
      } else {
        data := data[b := data[b] + [stored]];
      }
      assert data == old(data)[b := Put(In(old(data), b), stored)];
      o := Persist(b, ok);
    }

    method Score(id: string, delta: real, now: Time, ok: bool) returns (o: Outcome)
      modifies this`data, this`disk
      ensures UniqueIds(old(data)) ==> (Now(), o) == ScoreStep(old(Now()), id, delta, now, ok)
      ensures o == NotFound <==> forall b, i :: !Holds(old(data), id, b, i)
      ensures o == NotFound ==> Now() == old(Now())
      ensures old(Valid()) ==> Valid()
      ensures old(Valid()) ==>
                Contents() == MapStep(scopes, autoHit, old(Contents()), YamlState.Op.Score(id, delta, now, ok))
      ensures old(Valid()) ==> ScoreDone(old(Contents()), Contents(), id, delta, now, autoHit)
    {
      ghost var s := Now();
      ScoreDoes(scopes, autoHit, Contents(), id, delta, now, ok);
      if WellFormed(s) { ScoreRefines(s, id, delta, now, ok); }
      o := Rescore(id, delta, now, ok);
    }

    /** Adds to the score wherever the entry is found first. */
    method Rescore(id: string, delta: real, now: Time, ok: bool) returns (o: Outcome)
      modifies this`data, this`disk
      ensures UniqueIds(old(data)) ==> (Now(), o) == ScoreStep(old(Now()), id, delta, now, ok)
      ensures o == NotFound <==> forall b, i :: !Holds(old(data), id, b, i)
      ensures o == NotFound ==> Now() == old(Now())
    {
      var p := Find(id, {});
      if p.None? { return NotFound; }
      var b, i := p.value.bucket, p.value.index;
      data := Replaced(data, b, i, Scored(data[b][i], delta, now, autoHit));
      o := Persist(b, ok);
    }

    method Delete(id: string, ok: bool) returns (o: Outcome)
      modifies this`data, this`disk
      ensures UniqueIds(old(data)) ==> (Now(), o) == DeleteStep(old(Now()), id, ok)
      ensures o == NotFound <==> forall b, i :: !Holds(old(data), id, b, i)
      ensures o == NotFound ==> Now() == old(Now())
      ensures old(Valid()) ==> Valid() && Contents() == old(Contents()) - {id}
      ensures old(Valid()) ==> (o == NotFound <==> id !in old(Contents()))
    {
      ghost var s := Now();
      if WellFormed(s) {
        DeleteRefines(s, id, ok);
        KnownIff(data, id);
      }
      o := Remove(id, ok);
    }

    /** Splices the entry out wherever it is found first. */
    method Remove(id: string, ok: bool) returns (o: Outcome)
      modifies this`data, this`disk
      ensures UniqueIds(old(data)) ==> (Now(), o) == DeleteStep(old(Now()), id, ok)
      ensures o == NotFound <==> forall b, i :: !Holds(old(data), id, b, i)
      ensures o == NotFound ==> Now() == old(Now())
    {
      var p := Find(id, {});
      if p.None? { return NotFound; }
      var b, i := p.value.bucket, p.value.index;
      data := data[b := data[b][..i] + data[b][i + 1..]];
      o := Persist(b, ok);
    }

    method Promote(id: string, target: string, ok1: bool, ok2: bool) returns (o: Outcome)
      modifies this`data, this`disk
      ensures UniqueIds(old(data)) ==> (Now(), o) == PromoteStep(old(Now()), id, target, ok1, ok2)
      ensures o == ScopeNotConfigured <==> target !in scopes
      ensures o == ScopeNotConfigured || o == NotFound || !ok1 ==> Now() == old(Now())
      ensures old(Valid()) ==> Valid()
      ensures old(Valid()) ==>
                Contents() == MapStep(scopes, autoHit, old(Contents()), YamlState.Op.Promote(id, target, ok1, ok2))
      ensures old(Valid()) ==> MoveDone(old(Contents()), Contents(), id, target, Moves(scopes, old(Contents()), id, target, ok1))
    {
      PromoteDoes(scopes, autoHit, Contents(), id, target, ok1, ok2);
      ghost var s := Now();
      if WellFormed(s) { PromoteRefines(s, id, target, ok1, ok2); }
      o := Move(id, target, ok1, ok2);
    }

    /** The source file first; if that write fails the entry is spliced back in. */
    method Move(id: string, target: string, ok1: bool, ok2: bool) returns (o: Outcome)
      modifies this`data, this`disk
      ensures UniqueIds(old(data)) ==> (Now(), o) == PromoteStep(old(Now()), id, target, ok1, ok2)
      ensures o == ScopeNotConfigured <==> target !in scopes
      ensures o == ScopeNotConfigured || o == NotFound || !ok1 ==> Now() == old(Now())
    {
      if target !in scopes { return ScopeNotConfigured; }
      var p := Find(id, {target});
      if p.None? { return NotFound; }
      var b, i := p.value.bucket, p.value.index;
      var e := data[b][i];
      data := data[b := data[b][..i] + data[b][i + 1..]];
      o := Persist(b, ok1);
      if o != Done {
        data := data[b := data[b][..i] + [e] + data[b][i..]];
        assert data[b] == old(data[b]);
        assert data == old(data);
        return;
      }
      var t := Bucket(target, b.category);
      data := data[t := In(data, t) + [e.(scope := target)]];
      o := Persist(t, ok2);
    }

    // ---------- hits ----------

    method MarkBucket(b: Bucket, ids: set<string>, now: Time)
      requires b in data
      modifies this`data, this`dirty
      ensures data == old(data)[b := MarkedSeq(old(data)[b], ids, now)]
      ensures dirty == old(dirty) + if Touches(old(data)[b], ids) then {b} else {}
    {
      ghost var was := data[b];
      for i := 0 to |data[b]|
        invariant b in data && |data[b]| == |was| && data == old(data)[b := data[b]]
        invariant forall j | 0 <= j < |was| :: data[b][j] == if j < i then MarkedEntry(was[j], ids, now) else was[j]
        invariant dirty == old(dirty) + if Touches(was[..i], ids) then {b} else {}
      {
        assert was[..i + 1] == was[..i] + [was[i]];
        assert Touches(was[..i + 1], ids) <==> Touches(was[..i], ids) || was[i].id in ids by {
          assert was[..i + 1][i] == was[i];
          if Touches(was[..i], ids) {
            var j :| 0 <= j < i && was[..i][j].id in ids;
            assert was[..i + 1][j].id in ids;
          }
          if Touches(was[..i + 1], ids) && was[i].id !in ids {
            var j :| 0 <= j < i + 1 && was[..i + 1][j].id in ids;
            assert was[..i][j].id in ids;
          }
        }
        if data[b][i].id in ids {
          data := data[b := data[b][i := Hit(data[b][i], now)]];
          dirty := dirty + {b};
        }
      }
      assert was[..|was|] == was;
      assert data[b] == MarkedSeq(was, ids, now);
    }

    method MarkHits(entries: seq<Entry>, now: Time)
      modifies this`data, this`dirty
      ensures Now() == MarkHitsStep(old(Now()), IdsOf(entries), now)
      ensures old(Valid()) ==> Valid() && Contents() == Noted(autoHit, old(Contents()), entries, now)
      ensures old(Valid()) ==> HitsDone(old(Contents()), Contents(), if autoHit then IdsOf(entries) else {}, now)
    {
      ViewKeyed(data);
      NotedDoes(autoHit, Contents(), entries, now);
      if WellFormed(Now()) { MarkingIsNoted(Now(), entries, now); }
      MarkStored(entries, now);
    }

    /** Increments HitCount and sets LastHit wherever an answered entry is stored. */
    method MarkStored(entries: seq<Entry>, now: Time)
      modifies this`data, this`dirty
      ensures Now() == MarkHitsStep(old(Now()), IdsOf(entries), now)
    {
      if !autoHit || entries == [] {
        if entries == [] { MarkNothing(Now(), now); assert IdsOf(entries) == {}; }
        return;
      }
      var ids := IdsOf(entries);
      var todo := data.Keys;
      while todo != {}
        invariant todo <= data.Keys == old(data).Keys
        invariant forall b | b in data :: data[b] == if b in todo then old(data)[b] else MarkedSeq(old(data)[b], ids, now)
        invariant dirty == old(dirty) + set b | b in old(data) && b !in todo && Touches(old(data)[b], ids)
      {
        var b :| b in todo;
        MarkBucket(b, ids, now);
        todo := todo - {b};
      }
    }

    // ---------- queries ----------

    method ScopesForQuery(requested: seq<string>) returns (r: seq<string>)
      ensures r == Covered(scopes, requested)
    {
      if requested != [] { return requested; }
      var keys := Collect(scopes);
      AlphabeticalIsStrict(scopes);
      SortIsRank(Text.Alphabetical(), keys);
      r := Sorted(Text.Alphabetical(), keys);
    }

    method AllEntries(scopes: seq<string>) returns (out: seq<Entry>)
      ensures out == Gather(data, BucketsOf(data, scopes))
    {
      out := [];
      for i := 0 to |scopes|
        invariant out == Gather(data, BucketsOf(data, scopes[..i]))
      {
        var own := ScopeEntries(scopes[i]);
        out := out + own;
        assert scopes[..i + 1][..i] == scopes[..i];
        GatherConcat(data, BucketsOf(data, scopes[..i]),
                     Under(scopes[i], Rank(Text.Alphabetical(), CategoriesIn(data, scopes[i]))));
      }
      assert scopes[..|scopes|] == scopes;
    }

    /** One scope's entries, its categories in name order. */
    method ScopeEntries(scope: string) returns (out: seq<Entry>)
      ensures out == Gather(data, Under(scope, Rank(Text.Alphabetical(), CategoriesIn(data, scope))))
    {
      var names := Collect(CategoriesIn(data, scope));
      AlphabeticalIsStrict(Elems(names));
      SortIsRank(Text.Alphabetical(), names);
      var categories := Sorted(Text.Alphabetical(), names);
      ghost var bs := Under(scope, categories);
      out := [];
      for j := 0 to |categories|
        invariant out == Gather(data, bs[..j])
      {
        assert bs[..j + 1][..j] == bs[..j];
        out := out + In(data, Bucket(scope, categories[j]));
      }
      assert bs[..|categories|] == bs;
    }

    /** The loop of AllByCategory and QueryByCategory: only the category's own files are touched. */
    method CategoryEntries(scopes: seq<string>, category: string, criteria: Criteria) returns (out: seq<Entry>)
      ensures out == Filter(Selects(None, criteria), Gather(data, Across(scopes, category)))
    {
      out := [];
      ghost var bs := Across(scopes, category);
      for i := 0 to |scopes|
        invariant out == Filter(Selects(None, criteria), Gather(data, bs[..i]))
      {
        assert bs[..i + 1][..i] == bs[..i] && bs[i] == Bucket(scopes[i], category);
        var own := Selected(In(data, Bucket(scopes[i], category)), None, criteria);
        FilterConcat(Selects(None, criteria), Gather(data, bs[..i]), In(data, bs[i]));
        out := out + own;
      }
      assert bs[..|scopes|] == bs;
    }

    method RankedAll(w: Weight, requested: seq<string>) returns (r: seq<Entry>)
      ensures r == Sort(Comparator(w), Gather(data, BucketsOf(data, Covered(scopes, requested))))
      ensures Valid() && NoDup(requested) ==> Answers(w, Contents(), Request(None, requested, Anything), 0, r)
      ensures Valid() && requested == [] ==> Lists(Contents(), r)
    {
      var covered := ScopesForQuery(requested);
      var entries := AllEntries(covered);
      if Valid() && NoDup(requested) {
        ViewKeyed(data);
        FilterAll(Selects(None, Anything), entries);
        ScopesCover(Now(), Request(None, requested, Anything));
        SortedAnswer(w, Contents(), Request(None, requested, Anything), 0, entries);
      }
      r := Ranked(w, entries);
      if Valid() && requested == [] {
        EverythingIsListed(Now(), entries);
        SortMembers(Comparator(w), entries);
        SortNoDup(Comparator(w), entries);
        ListedInAnyOrder(Contents(), entries, r);
      }
    }

    method RankedCategory(w: Weight, category: string, criteria: Criteria, topK: int, requested: seq<string>)
      returns (r: seq<Entry>)
      ensures r == TopK(topK, Sort(Comparator(w),
                Filter(Selects(None, criteria), Gather(data, Across(Covered(scopes, requested), category)))))
      ensures Valid() && NoDup(requested) ==> Answers(w, Contents(), Request(Some(category), requested, criteria), topK, r)
      ensures Valid() ==> Elems(r) <= Matching(Contents(), Request(Some(category), requested, criteria))
      ensures Valid() && NoDup(requested) && topK <= 0 ==>
                Elems(r) == Matching(Contents(), Request(Some(category), requested, criteria))
      ensures topK > 0 ==> |r| <= topK
    {
      var covered := ScopesForQuery(requested);
      var candidates := CategoryEntries(covered, category, criteria);
      if Valid() { CategoryWithin(Now(), Request(Some(category), requested, criteria)); }
      SortMembers(Comparator(w), candidates);
      if Valid() && NoDup(requested) {
        ViewKeyed(data);
        CategoryCovers(Now(), Request(Some(category), requested, criteria));
        SortedAnswer(w, Contents(), Request(Some(category), requested, criteria), topK, candidates);
      }
      r := Ranked(w, candidates);
      TopKElems(topK, r);
      if topK > 0 && |r| > topK { r := r[..topK]; }
    }

    method RankedTagged(w: Weight, category: string, tags: seq<string>) returns (hits: seq<Entry>)
      ensures Valid() ==> Answers(w, Contents(), TagRequest(category, tags), 0, hits)
      ensures Valid() ==> Elems(hits) == Matching(Contents(), TagRequest(category, tags))
    {
      var covered := ScopesForQuery([]);
      var entries := AllEntries(covered);
      hits := Selected(entries, CategoryFilter(category), Tags(Lowered(tags)));
      SortMembers(Comparator(w), hits);
      if Valid() {
        ViewKeyed(data);
        ScopesCover(Now(), TagRequest(category, tags));
        SortedAnswer(w, Contents(), TagRequest(category, tags), 0, hits);
      }
      hits := Ranked(w, hits);
    }

    method All(w: Weight, now: Time, requested: seq<string>) returns (r: seq<Entry>)
      modifies this`data, this`dirty
      ensures r == Sort(Comparator(w), Gather(old(data), BucketsOf(old(data), Covered(scopes, requested))))
      ensures Now() == MarkHitsStep(old(Now()), IdsOf(r), now)
      ensures old(Valid()) ==> Valid() && Contents() == Noted(autoHit, old(Contents()), r, now)
      ensures old(Valid()) && NoDup(requested) ==> Answers(w, old(Contents()), Request(None, requested, Anything), 0, r)
      ensures old(Valid()) && requested == [] ==> Lists(old(Contents()), r)
    {
      r := RankedAll(w, requested);
      MarkHits(r, now);
    }

    method AllByCategory(w: Weight, now: Time, category: string, topK: int, requested: seq<string>) returns (r: seq<Entry>)
      modifies this`data, this`dirty
      ensures Now() == MarkHitsStep(old(Now()), IdsOf(r), now)
      ensures old(Valid()) ==> Valid() && Contents() == Noted(autoHit, old(Contents()), r, now)
      ensures old(Valid()) && NoDup(requested) ==> Answers(w, old(Contents()), Request(Some(category), requested, Anything), topK, r)
      ensures old(Valid()) ==> Elems(r) <= Matching(old(Contents()), Request(Some(category), requested, Anything))
    {
      r := RankedCategory(w, category, Anything, topK, requested);
      MarkHits(r, now);
    }

    method QueryByCategory(w: Weight, now: Time, category: string, query: string, topK: int, requested: seq<string>)
      returns (r: seq<Entry>)
      modifies this`data, this`dirty
      ensures Now() == MarkHitsStep(old(Now()), IdsOf(r), now)
      ensures old(Valid()) ==> Valid() && Contents() == Noted(autoHit, old(Contents()), r, now)
      ensures old(Valid()) && NoDup(requested) ==> Answers(w, old(Contents()), WordRequest(category, requested, query), topK, r)
      ensures old(Valid()) ==> Elems(r) <= Matching(old(Contents()), WordRequest(category, requested, query))
      ensures old(Valid()) ==> forall e | e in r :: WordHit(old(Contents()), category, requested, query, e)
      ensures old(Valid()) && NoDup(requested) && topK <= 0 ==>
                forall e | WordHit(old(Contents()), category, requested, query, e) :: e in r
      ensures topK > 0 ==> |r| <= topK
    {
      ViewKeyed(data);
      WordsFind(Contents(), category, requested, query);
      r := RankedCategory(w, category, Keywords(Terms(query)), topK, requested);
      MembersOf(r);
      MarkHits(r, now);
    }

    method Query(w: Weight, now: Time, category: string, tags: seq<string>) returns (hits: seq<Entry>)
      modifies this`data, this`dirty
      ensures Now() == MarkHitsStep(old(Now()), IdsOf(hits), now)
      ensures old(Valid()) ==> Valid() && Contents() == Noted(autoHit, old(Contents()), hits, now)
      ensures old(Valid()) ==> Answers(w, old(Contents()), TagRequest(category, tags), 0, hits)
      ensures old(Valid()) ==> forall e :: e in hits <==> TagHit(old(Contents()), category, tags, e)
    {
      ViewKeyed(data);
      TagsFind(Contents(), category, tags);
      hits := RankedTagged(w, category, tags);
      MembersOf(hits);
      MarkHits(hits, now);
    }

    method Get(id: string) returns (r: Option<Entry>)
      ensures r.Some? ==> r.value.id == id
      ensures Valid() ==> r == if id in Contents() then Some(Contents()[id]) else None
    {
      var covered := ScopesForQuery([]);
      var entries := AllEntries(covered);
      if Valid() { EverythingIsListed(Now(), entries); }
      for i := 0 to |entries|
        invariant forall j | 0 <= j < i :: entries[j].id != id
      {
        if entries[i].id == id { return Some(entries[i]); }
      }
      r := None;
    }

    method ListHeads(requested: seq<string>) returns (heads: seq<HeadInfo>)
      ensures Valid() && NoDup(requested) ==>
                heads == Rank(ByName(), HeadSet(Matching(Contents(), Request(None, requested, Anything))))
    {
      ghost var q := Request(None, requested, Anything);
      var covered := ScopesForQuery(requested);
      var entries := AllEntries(covered);
      FilterAll(Selects(None, Anything), entries);
      if Valid() && NoDup(requested) { ScopesCover(Now(), q); }
      heads := CountHeads(entries);
    }
  }

  /** Contents after a query has counted its hits. */
  function Noted(autoHit: bool, m: EntryMap, r: seq<Entry>, now: Time): EntryMap {
    if autoHit then MarkedMap(m, IdsOf(r), now) else m
  }

  /** Exactly the answered entries have a hit more. */
  lemma NotedDoes(autoHit: bool, m: EntryMap, r: seq<Entry>, now: Time)
    requires KeyedById(m)
    ensures HitsDone(m, Noted(autoHit, m, r, now), if autoHit then IdsOf(r) else {}, now)
  {
    MarkHitsDoes({}, autoHit, m, IdsOf(r), now);
  }

  lemma MarkingIsNoted(s: State, entries: seq<Entry>, now: Time)
    requires WellFormed(s)
    ensures var s' := MarkHitsStep(s, IdsOf(entries), now);
            WellFormed(s') && View(s'.data) == Noted(s.autoHit, View(s.data), entries, now)
  {
    MarkHitsRefines(s, IdsOf(entries), now);
  }

  lemma FlushMore(s: State, reached: set<Bucket>, b: Bucket)
    requires b in s.dirty && reached <= s.dirty
    ensures var t := YamlState.Persist(FlushStep(s, reached), b, true);
            FlushStep(s, reached + {b}) == t.(dirty := t.dirty - {b})
  {}

  lemma KnownIff(d: Buckets, id: string)
    requires UniqueIds(d)
    ensures id in View(d) <==> exists b, i :: Holds(d, id, b, i)
  {}

  /** Every entry of the map, once. */
  ghost predicate Lists(m: EntryMap, r: seq<Entry>) {
    DistinctEntries(r) && (forall e | e in r :: e.id in m && m[e.id] == e) && forall id | id in m :: m[id] in r
  }

  lemma ListedIds(m: EntryMap, r: seq<Entry>)
    requires KeyedById(m) && Lists(m, r)
    ensures IdsOf(r) == m.Keys
  {
    forall id ensures id in IdsOf(r) <==> id in m {
      if id in m { assert m[id] in r && m[id].id == id; }
    }
  }

  lemma ListedInAnyOrder(m: EntryMap, a: seq<Entry>, r: seq<Entry>)
    requires NoDup(r) && Elems(a) == Elems(r)
    requires (forall e | e in a :: e.id in m && m[e.id] == e) && forall id | id in m :: m[id] in a
    ensures Lists(m, r)
  {
    forall e ensures e in r <==> e in a { assert e in Elems(a) <==> e in Elems(r); }
  }

  lemma MarkNothing(s: State, now: Time)
    ensures MarkHitsStep(s, {}, now) == s
  {
    forall b | b in s.data ensures MarkedSeq(s.data[b], {}, now) == s.data[b] {}
    assert Marked(s.data, {}, now) == s.data;
  }
}
