/** The SQL store: one table keyed by id, ranked either by the query or by the program. */
module SqliteStore {
  import opened Effects
  import opened Entries
  import opened Heads
  import opened Ranking
  import opened Selection
  import opened StableSort
  import opened YamlState
  import Text

  // ---------- the two weights ----------

  /** The ORDER BY expression: a zero last_hit is not stored as '', so it never falls back to created. */
  function SqlWeight(decay: Time -> real, now: Time): Weight {
    (e: Entry) => e.score * decay(now - e.lastHit)
  }

  /** Older is worth strictly less. */
  ghost predicate Decays(decay: Time -> real) {
    Exponential(decay) && forall t | t > 0 :: decay(t) < 1.0
  }

  /** Exactly when the query's weight of an entry is the program's. */
  lemma SqlWeightIff(decay: Time -> real, now: Time, e: Entry)
    requires Decays(decay)
    ensures SqlWeight(decay, now)(e) == WeightedScore(decay, now)(e)
       <==> WeighsAlike(e)
  {
    if e.lastHit == 0 && e.created != 0 {
      if e.created > 0 {
        OlderIsWorthLess(decay, now - e.created, now);
      } else {
        OlderIsWorthLess(decay, now, now - e.created);
      }
      DistinctProducts(e.score, decay(now), decay(now - e.created));
    }
  }

  lemma OlderIsWorthLess(decay: Time -> real, age: Time, older: Time)
    requires Decays(decay) && age < older
    ensures decay(older) < decay(age)
  {
    var t := older - age;
    assert Composes(decay, age, t) && age + t == older;
    ShrinksStrictly(decay(older), decay(age), decay(t));
  }

  lemma ShrinksStrictly(y: real, x: real, f: real)
    requires y == x * f && x > 0.0 && f < 1.0
    ensures y < x
  {
    assert x * (1.0 - f) > 0.0;
  }

  lemma DistinctProducts(s: real, x: real, y: real)
    requires x != y
    ensures s * x == s * y <==> s == 0.0
  {
    if s * x == s * y {
      assert s * (x - y) == 0.0;
    }
  }

  /** The query and the program weigh the entry alike; see SqlWeightIff. */
  predicate WeighsAlike(e: Entry) {
    e.lastHit != 0 || e.score == 0.0 || e.created == 0
  }

  /** So they weigh every row that the category and the scopes of the request select. */
  ghost predicate RowsWeighAlike(m: EntryMap, q: Request) {
    forall e | e in Matching(m, Request(q.category, q.scopes, Anything)) :: WeighsAlike(e)
  }

  /** For every decay, two entries that the program ranks one way and the query the other. */
  lemma QueryRanksDifferently(decay: Time -> real, now: Time) returns (unhit: Entry, hit: Entry)
    requires Decays(decay) && now > 0
    ensures DistinctIds({unhit, hit}) && Gapped(WeightedScore(decay, now), {unhit, hit})
    ensures Sort(Comparator(WeightedScore(decay, now)), [unhit, hit]) == [unhit, hit]
    ensures Sort(Order(SqlWeight(decay, now)), [unhit, hit]) == [hit, unhit]
  {
    var d := decay(now);
    NoAgeNoDecay(decay, 0);
    OlderIsWorthLess(decay, 0, now);
    var s := 1.0 / (1.0 - d);
    unhit := Entry("a", "", [], "domain", "global", s, 0, 0, now, "");
    hit := unhit.(id := "b", score := s - 0.5, hitCount := 1, lastHit := now);
    Between(s, d);
    var w, v := WeightedScore(decay, now), SqlWeight(decay, now);
    WeighedTwice(decay, now, unhit, s);
    WeighedTwice(decay, now, hit, s - 0.5);
    RankedApart(w, v, unhit, hit);
  }

  lemma RankedApart(w: Weight, v: Weight, a: Entry, b: Entry)
    requires w(b) == w(a) - 0.5 && v(a) < v(b)
    ensures Gapped(w, {a, b}) && Sort(Comparator(w), [a, b]) == [a, b] && Sort(Order(v), [a, b]) == [b, a]
  {
    CompareIs(w, a, b);
    SortTwo(Comparator(w), a, b);
    assert Order(v)(b, a);
    SortTwo(Order(v), a, b);
    GappedPair(w, a, b);
  }

  lemma GappedPair(w: Weight, a: Entry, b: Entry)
    requires w(b) == w(a) - 0.5
    ensures Gapped(w, {a, b})
  {}

  /** The program counts the age from now, the query from the last hit. */
  lemma WeighedTwice(decay: Time -> real, now: Time, e: Entry, s: real)
    requires decay(0) == 1.0 && e.score == s && Reference(e) == now
    ensures WeightedScore(decay, now)(e) == s
    ensures SqlWeight(decay, now)(e) == s * decay(now - e.lastHit)
    ensures e.lastHit == now ==> SqlWeight(decay, now)(e) == s
  {
    assert now - Reference(e) == 0;
  }

  lemma Between(s: real, d: real)
    requires d < 1.0 && s == 1.0 / (1.0 - d)
    ensures s * d < s - 0.5
  {
    assert s * (1.0 - d) == 1.0;
  }

  lemma SortTwo(lt: (Entry, Entry) -> bool, a: Entry, b: Entry)
    ensures Sort(lt, [a, b]) == if lt(b, a) then [b, a] else [a, b]
  {
    assert [a, b][..1] == [a] && [a][..0] == [];
    assert Insert(lt, [], a) == [a];
    assert Sort(lt, [a]) == Insert(lt, Sort(lt, []), a);
    assert Sort(lt, [a, b]) == Insert(lt, Sort(lt, [a]), b);
    assert Insert(lt, [], b) == [b];
  }

  // ---------- scopes ----------

  /** The scopes a request covers once the configured ones are taken into account. */
  ghost function Resolved(configured: set<string>, requested: seq<string>): seq<string> {
    if configured == {} || requested != [] then requested else Rank(Text.Alphabetical(), configured)
  }

  ghost predicate SameScopes(a: seq<string>, b: seq<string>) {
    (a == [] <==> b == []) && forall s :: s in a <==> s in b
  }

  lemma SameScopesMatchAlike(m: EntryMap, q: Request, scopes: seq<string>)
    requires SameScopes(q.scopes, scopes)
    ensures Matching(m, q) == Matching(m, q.(scopes := scopes))
  {}

  // ---------- sorting in the query ----------

  lemma FilteredRows(m: EntryMap, q: Request, rows: seq<Entry>)
    requires NoDup(rows) && Elems(rows) == Matching(m, Request(q.category, q.scopes, Anything))
    ensures var kept := Filter(Selects(None, q.criteria), rows); NoDup(kept) && Elems(kept) == Matching(m, q)
  {
    var p := Selects(None, q.criteria);
    FilterNoDup(p, rows);
    forall e ensures e in Elems(Filter(p, rows)) <==> e in Matching(m, q) {
      FilterMembers(p, rows, e);
      assert e in rows <==> e in Elems(rows);
      if e in Matching(m, q) { assert e in Matching(m, Request(q.category, q.scopes, Anything)); }
    }
  }

  lemma SqlRowsAreRanked(v: Weight, w: Weight, m: EntryMap, q: Request, rows: seq<Entry>)
    requires KeyedById(m) && NoDup(rows) && Elems(rows) == Matching(m, q)
    requires forall e | e in rows :: v(e) == w(e)
    ensures Sort(Order(v), rows) == Rank(Order(w), Matching(m, q))
  {
    MatchingIsOrdered(w, m, q);
    SortCongruent(Order(v), Order(w), rows);
    SortIsRank(Order(w), rows);
  }

  /** Rows sorted by the query and then filtered are the filtered rows sorted by the program. */
  lemma SqlSortThenFilter(v: Weight, w: Weight, m: EntryMap, q: Request, k: int, rows: seq<Entry>)
    requires Rankable(w, m, q) && NoDup(rows) && Elems(rows) == Matching(m, Request(q.category, q.scopes, Anything))
    requires forall e | e in rows :: v(e) == w(e)
    ensures TopK(k, Filter(Selects(None, q.criteria), Sort(Order(v), rows)))
         == TopK(k, Sort(Comparator(w), Filter(Selects(None, q.criteria), rows)))
         == Answer(w, m, q, k)
  {
    var base, p := Request(q.category, q.scopes, Anything), Selects(None, q.criteria);
    FilteredRows(m, q, rows);
    SortedAnswer(w, m, q, k, Filter(p, rows));
    SqlRowsAreRanked(v, w, m, base, rows);
    RankingNarrows(w, m, q, p);
  }

  /** Whichever of the two sorts, the truncated result is the reference answer. */
  lemma RowsAnswer(sqlSort: bool, decay: Time -> real, now: Time, m: EntryMap, q: Request, k: int, picked: seq<Entry>)
    requires NoDup(picked) && Elems(picked) == Matching(m, Request(q.category, q.scopes, Anything))
    ensures var v, w, p := SqlWeight(decay, now), WeightedScore(decay, now), Selects(None, q.criteria);
            (sqlSort ==> RowsWeighAlike(m, q)) ==>
              Answers(w, m, q, k, TopK(k, if sqlSort then Filter(p, Sort(Order(v), picked)) else Sort(Comparator(w), Filter(p, picked))))
  {
    var v, w := SqlWeight(decay, now), WeightedScore(decay, now);
    if Rankable(w, m, q) && (sqlSort ==> RowsWeighAlike(m, q)) {
      if sqlSort {
        forall e | e in picked ensures v(e) == w(e) { assert e in Elems(picked) && WeighsAlike(e); }
        SqlSortThenFilter(v, w, m, q, k, picked);
      } else {
        SqlSortThenFilter(w, w, m, q, k, picked);
      }
    }
  }

  /** When the query sorts, the result is the reference answer for the query's own weight, ties and near-ties included. */
  lemma SqlAnswer(v: Weight, m: EntryMap, q: Request, k: int, picked: seq<Entry>)
    requires KeyedById(m) && NoDup(picked) && Elems(picked) == Matching(m, Request(q.category, q.scopes, Anything))
    ensures TopK(k, Filter(Selects(None, q.criteria), Sort(Order(v), picked))) == Answer(v, m, q, k)
  {
    SqlRowsAreRanked(v, v, m, Request(q.category, q.scopes, Anything), picked);
    RankingNarrows(v, m, q, Selects(None, q.criteria));
  }

  lemma RankingNarrows(w: Weight, m: EntryMap, q: Request, p: Entry -> bool)
    requires KeyedById(m) && p == Selects(None, q.criteria)
    ensures Filter(p, Rank(Order(w), Matching(m, Request(q.category, q.scopes, Anything)))) == Rank(Order(w), Matching(m, q))
  {
    var base := Request(q.category, q.scopes, Anything);
    MatchingIsOrdered(w, m, base);
    MatchingNarrows(m, q, p);
    RankFilter(Order(w), p, Matching(m, base), Matching(m, q));
  }

  lemma MatchingNarrows(m: EntryMap, q: Request, p: Entry -> bool)
    requires p == Selects(None, q.criteria)
    ensures forall e :: e in Matching(m, q) <==> e in Matching(m, Request(q.category, q.scopes, Anything)) && p(e)
  {}

  /** What is kept is what matches; truncation only drops, and never everything. */
  lemma KeptMembers(sqlSort: bool, v: Weight, w: Weight, m: EntryMap, q: Request, k: int, picked: seq<Entry>)
    requires NoDup(picked) && Elems(picked) == Matching(m, Request(q.category, q.scopes, Anything))
    ensures var p := Selects(None, q.criteria);
            var r := TopK(k, if sqlSort then Filter(p, Sort(Order(v), picked)) else Sort(Comparator(w), Filter(p, picked)));
            && Elems(r) <= Matching(m, q) && (k <= 0 ==> Elems(r) == Matching(m, q))
            && (r == [] <==> Matching(m, q) == {})
  {
    var p, sorted := Selects(None, q.criteria), Sort(Order(v), picked);
    SortMembers(Order(v), picked);
    SortNoDup(Order(v), picked);
    FilteredRows(m, q, picked);
    FilteredRows(m, q, sorted);
    SortMembers(Comparator(w), Filter(p, picked));
    var kept := if sqlSort then Filter(p, sorted) else Sort(Comparator(w), Filter(p, picked));
    TopKElems(k, kept);
    NoneElems(kept);
  }

  // ---------- what a query finds ----------

  /** The row is in a scope asked for, or when none is, in a configured one, if any are. */
  predicate InSqlScopes(configured: set<string>, requested: seq<string>, e: Entry) {
    if requested != [] then e.scope in requested else configured == {} || e.scope in configured
  }

  ghost predicate SqlHit(configured: set<string>, m: EntryMap, category: string, requested: seq<string>, e: Entry) {
    && e.id in m && m[e.id] == e && (category == "" || e.category == category)
    && InSqlScopes(configured, requested, e)
  }

  lemma ResolvedScopes(configured: set<string>, requested: seq<string>, e: Entry)
    requires e.scope != ""
    ensures var scopes := Resolved(configured, requested);
            (scopes == [] || NormalizedScope(e.scope) in scopes) <==> InSqlScopes(configured, requested, e)
  {
    if configured != {} && requested == [] {
      AlphabeticalIsStrict(configured);
      RankIsAscending(Text.Alphabetical(), configured);
      var r := Rank(Text.Alphabetical(), configured);
      assert forall s :: s in r <==> s in Elems(r);
      assert r != [] by { assert Elems(r) == configured; }
    }
  }

  /** The rows a request selects. */
  lemma RowsFound(configured: set<string>, m: EntryMap, category: string, requested: seq<string>, criteria: Criteria)
    requires KeyedById(m) && forall id | id in m :: m[id].scope != ""
    ensures var q := Request(CategoryFilter(category), Resolved(configured, requested), criteria);
            forall e :: e in Matching(m, q) <==> SqlHit(configured, m, category, requested, e) && Meets(criteria, e)
  {
    forall id | id in m
      ensures var scopes := Resolved(configured, requested);
              (scopes == [] || NormalizedScope(m[id].scope) in scopes) <==> InSqlScopes(configured, requested, m[id])
    {
      ResolvedScopes(configured, requested, m[id]);
    }
  }

  lemma NoneElems(s: seq<Entry>)
    ensures s == [] <==> Elems(s) == {}
  {
    if s != [] { SomeElems(s); }
  }

  /** A row as a scan returns it: its tags cleaned up, its table row as it was. */
  function Scanned(sanitize: seq<string> -> seq<string>, e: Entry): Entry {
    e.(tags := sanitize(e.tags))
  }

  function ScannedMap(sanitize: seq<string> -> seq<string>, m: EntryMap): EntryMap {
    map id | id in m :: Scanned(sanitize, m[id])
  }

  lemma ScannedIs(sanitize: seq<string> -> seq<string>, m: EntryMap)
    ensures var seen := ScannedMap(sanitize, m);
            && seen.Keys == m.Keys
            && forall id | id in m :: seen[id].tags == sanitize(m[id].tags) && m[id] == seen[id].(tags := m[id].tags)
  {}

  class Store {
    const configured: set<string>
    const autoHit: bool
    /** Whether the engine has exp(), so that the query can rank. */
    const sqlSort: bool
    /** What a scan does to a stringified list of tags. */
    const sanitize: seq<string> -> seq<string>
    var table: EntryMap

    /** What the queries read. */
    ghost function Shown(): EntryMap
      reads this
    {
      ScannedMap(sanitize, table)
    }

    ghost predicate Valid()
      reads this
    {
      KeyedById(table) && forall id | id in table :: table[id].scope != ""
    }

    /** Exactly ranked by the query's weight when the query sorts, and the other stores' answer when the weights agree. */
    ghost predicate Ranks(decay: Time -> real, now: Time, m: EntryMap, q: Request, k: int, r: seq<Entry>) {
      && (sqlSort ==> r == Answer(SqlWeight(decay, now), m, q, k))
      && ((sqlSort ==> RowsWeighAlike(m, q)) ==> Answers(WeightedScore(decay, now), m, q, k, r))
    }

    /** A request for a scope that is not configured is an error. */
    ghost predicate Refuses(requested: seq<string>) {
      configured != {} && exists s :: s in requested && s !in configured
    }

    method ResolveQueryScopes(requested: seq<string>) returns (r: Option<seq<string>>)
      ensures r.None? <==> Refuses(requested)
      ensures r.Some? ==> SameScopes(r.value, Resolved(configured, requested))
    {
      if configured == {} { return Some(requested); }
      if requested == [] {
        var all := Collect(configured);
        AlphabeticalIsStrict(configured);
        RankIsAscending(Text.Alphabetical(), configured);
        forall s ensures s in all <==> s in Rank(Text.Alphabetical(), configured) {
          assert s in all <==> s in Elems(all);
          assert s in Rank(Text.Alphabetical(), configured) <==> s in Elems(Rank(Text.Alphabetical(), configured));
        }
        assert all != [] by { assert Elems(all) == configured; }
        assert Rank(Text.Alphabetical(), configured) != [] by {
          assert Elems(Rank(Text.Alphabetical(), configured)) == configured;
        }
        return Some(all);
      }
      var resolved: seq<string> := [];
      var seen: set<string> := {};
      for i := 0 to |requested|
        invariant forall s | s in requested[..i] :: s in configured
        invariant forall s :: s in resolved <==> s in requested[..i]
        invariant forall s :: s in seen <==> s in resolved
      {
        assert requested[..i + 1] == requested[..i] + [requested[i]];
        if requested[i] !in configured { return None; }
        if requested[i] in seen { continue; }
        seen := seen + {requested[i]};
        resolved := resolved + [requested[i]];
      }
      assert requested[..|requested|] == requested;
      assert requested[0] in requested;
      r := Some(resolved);
    }

    /** SELECT ... WHERE category = ? AND scope IN (...), with ORDER BY when the engine can rank. */
    method Rows(v: Weight, requested: seq<string>, category: string, readOk: bool)
      returns (r: Option<seq<Entry>>, ghost picked: seq<Entry>)
      requires Valid()
      ensures r.None? <==> Refuses(requested) || !readOk
      ensures r.Some? ==>
                && NoDup(picked)
                && Elems(picked) == Matching(Shown(), Request(CategoryFilter(category), Resolved(configured, requested), Anything))
                && r.value == if sqlSort then Sort(Order(v), picked) else picked
    {
      var resolved := ResolveQueryScopes(requested);
      if resolved.None? || !readOk { return None, []; }
      ghost var q := Request(CategoryFilter(category), resolved.value, Anything);
      SameScopesMatchAlike(Shown(), q, Resolved(configured, requested));
      var rows: seq<Entry> := [];
      var todo := table.Keys;
      while todo != {}
        invariant todo <= table.Keys && NoDup(rows)
        invariant Elems(rows) == set id | id in Shown() && id !in todo && Wants(q, Shown()[id]) :: Shown()[id]
      {
        var id :| id in todo;
        todo := todo - {id};
        var e := Scanned(sanitize, table[id]);
        assert e == Shown()[id];
        if (category == "" || e.category == category) && (resolved.value == [] || e.scope in resolved.value) {
          assert Wants(q, e);
          assert e !in Elems(rows);
          ElemsSnoc(rows, e);
          rows := rows + [e];
        }
      }
      picked := rows;
      if sqlSort { rows := Sorted(Order(v), rows); }
      r := Some(rows);
    }

    /** Sorts only when the query did not. */
    method SortEntries(w: Weight, entries: seq<Entry>) returns (r: seq<Entry>)
      ensures r == if sqlSort then entries else Sort(Comparator(w), entries)
    {
      if sqlSort { return entries; }
      r := Ranked(w, entries);
    }

    /** One transaction; a failing statement or commit rolls all of it back. */
    method MarkHits(entries: seq<Entry>, now: Time, hitOk: bool) returns (ok: bool)
      requires Valid()
      modifies this`table
      ensures Valid()
      ensures ok <==> !autoHit || entries == [] || hitOk
      ensures table == if autoHit && ok then MarkedMap(old(table), IdsOf(entries), now) else old(table)
      ensures HitsDone(old(table), table, if autoHit && ok then IdsOf(entries) else {}, now)
    {
      MarkHitsDoes({}, autoHit, table, IdsOf(entries), now);
      if !autoHit || entries == [] {
        assert entries == [] ==> IdsOf(entries) == {};
        return true;
      }
      var tx := UpdateHits(IdsOf(entries), now);
      if !hitOk { return false; }
      table := tx;
      ok := true;
    }

    /** The updates of the transaction, one id after another. */
    method UpdateHits(ids: set<string>, now: Time) returns (tx: EntryMap)
      requires Valid()
      ensures tx == MarkedMap(table, ids, now)
    {
      var todo := ids;
      tx := table;
      while todo != {}
        invariant todo <= ids && tx == MarkedMap(table, ids - todo, now)
      {
        var id :| id in todo;
        if id in tx { tx := tx[id := Hit(tx[id], now)]; }
        todo := todo - {id};
      }
    }

    /** Rows, filter, sort, truncate. */
    method Respond(decay: Time -> real, now: Time, requested: seq<string>, category: string, criteria: Criteria, topK: int,
                   readOk: bool)
      returns (r: Option<seq<Entry>>)
      requires Valid()
      ensures r.None? <==> Refuses(requested) || !readOk
      ensures r.Some? ==>
                var q := Request(CategoryFilter(category), Resolved(configured, requested), criteria);
                && Ranks(decay, now, Shown(), q, topK, r.value) && (r.value == [] <==> Matching(Shown(), q) == {})
                && Elems(r.value) <= Matching(Shown(), q) && (topK <= 0 ==> Elems(r.value) == Matching(Shown(), q))
    {
      var v, w := SqlWeight(decay, now), WeightedScore(decay, now);
      var rows, picked := Rows(v, requested, category, readOk);
      if rows.None? { return None; }
      var kept := Selected(rows.value, None, criteria);
      kept := SortEntries(w, kept);
      ghost var q := Request(CategoryFilter(category), Resolved(configured, requested), criteria);
      SqlAnswer(v, Shown(), q, topK, picked);
      RowsAnswer(sqlSort, decay, now, Shown(), q, topK, picked);
      KeptMembers(sqlSort, v, w, Shown(), q, topK, picked);
      if topK > 0 && |kept| > topK { kept := kept[..topK]; }
      r := Some(kept);
    }

    /** When a query is an error: a scope not configured, a failing read, or hits that could not be counted. */
    ghost predicate Fails(requested: seq<string>, m: EntryMap, q: Request, readOk: bool, hitOk: bool) {
      Refuses(requested) || !readOk || (autoHit && !hitOk && Matching(m, q) != {})
    }

    /** What the three category queries share; they differ in their criteria, and an empty category means any. */
    method ByCategory(decay: Time -> real, now: Time, requested: seq<string>, category: string, criteria: Criteria, topK: int,
                      readOk: bool, hitOk: bool)
      returns (r: Option<seq<Entry>>)
      requires Valid()
      modifies this`table
      ensures var q := Request(CategoryFilter(category), Resolved(configured, requested), criteria);
              && (r.None? <==> Fails(requested, old(Shown()), q, readOk, hitOk))
              && (r.Some? ==>
                    && Ranks(decay, now, old(Shown()), q, topK, r.value)
                    && Elems(r.value) <= Matching(old(Shown()), q) && (topK <= 0 ==> Elems(r.value) == Matching(old(Shown()), q)))
      ensures Valid()
      ensures table == if r.Some? && autoHit then MarkedMap(old(table), IdsOf(r.value), now) else old(table)
    {
      r := Respond(decay, now, requested, category, criteria, topK, readOk);
      if r.None? { return; }
      var ok := MarkHits(r.value, now, hitOk);
      if !ok { r := None; }
    }

    method AllByCategory(decay: Time -> real, now: Time, requested: seq<string>, category: string, topK: int,
                         readOk: bool, hitOk: bool)
      returns (r: Option<seq<Entry>>)
      requires Valid()
      modifies this`table
      ensures var q := Request(CategoryFilter(category), Resolved(configured, requested), Anything);
              && (r.None? <==> Fails(requested, old(Shown()), q, readOk, hitOk))
              && (r.Some? ==> Ranks(decay, now, old(Shown()), q, topK, r.value))
      ensures r.Some? ==> forall e | e in r.value :: SqlHit(configured, old(Shown()), category, requested, e)
      ensures r.Some? && topK <= 0 ==> forall e | SqlHit(configured, old(Shown()), category, requested, e) :: e in r.value
      ensures Valid()
      ensures table == if r.Some? && autoHit then MarkedMap(old(table), IdsOf(r.value), now) else old(table)
    {
      RowsFound(configured, Shown(), category, requested, Anything);
      r := ByCategory(decay, now, requested, category, Anything, topK, readOk, hitOk);
      if r.Some? { MembersOf(r.value); }
    }

    method QueryByCategory(decay: Time -> real, now: Time, requested: seq<string>, category: string, query: string, topK: int,
                           readOk: bool, hitOk: bool)
      returns (r: Option<seq<Entry>>)
      requires Valid()
      modifies this`table
      ensures var q := Request(CategoryFilter(category), Resolved(configured, requested), Keywords(Terms(query)));
              && (r.None? <==> Fails(requested, old(Shown()), q, readOk, hitOk))
              && (r.Some? ==> Ranks(decay, now, old(Shown()), q, topK, r.value))
      ensures r.Some? ==>
                forall e | e in r.value :: SqlHit(configured, old(Shown()), category, requested, e) && MentionsAny(e, query)
      ensures r.Some? && topK <= 0 ==>
                forall e | SqlHit(configured, old(Shown()), category, requested, e) && MentionsAny(e, query) :: e in r.value
      ensures Valid()
      ensures table == if r.Some? && autoHit then MarkedMap(old(table), IdsOf(r.value), now) else old(table)
    {
      RowsFound(configured, Shown(), category, requested, Keywords(Terms(query)));
      forall e ensures Meets(Keywords(Terms(query)), e) <==> MentionsAny(e, query) { WordsDecide(e, query); }
      r := ByCategory(decay, now, requested, category, Keywords(Terms(query)), topK, readOk, hitOk);
      if r.Some? { MembersOf(r.value); }
    }

    method Query(decay: Time -> real, now: Time, category: string, tags: seq<string>, readOk: bool, hitOk: bool)
      returns (r: Option<seq<Entry>>)
      requires Valid()
      modifies this`table
      ensures var q := Request(CategoryFilter(category), Resolved(configured, []), Tags(Lowered(tags)));
              && (r.None? <==> Fails([], old(Shown()), q, readOk, hitOk))
              && (r.Some? ==> Ranks(decay, now, old(Shown()), q, 0, r.value))
      ensures r.Some? ==>
                forall e :: e in r.value <==> SqlHit(configured, old(Shown()), category, [], e) && CarriesAll(e, tags)
      ensures Valid()
      ensures table == if r.Some? && autoHit then MarkedMap(old(table), IdsOf(r.value), now) else old(table)
    {
      RowsFound(configured, Shown(), category, [], Tags(Lowered(tags)));
      forall e ensures Meets(Tags(Lowered(tags)), e) <==> CarriesAll(e, tags) { TagsDecide(e, tags); }
      r := ByCategory(decay, now, [], category, Tags(Lowered(tags)), 0, readOk, hitOk);
      if r.Some? { MembersOf(r.value); }
    }

    method All(decay: Time -> real, now: Time, requested: seq<string>, readOk: bool, hitOk: bool) returns (r: Option<seq<Entry>>)
      requires Valid()
      modifies this`table
      ensures var q := Request(None, Resolved(configured, requested), Anything);
              && (r.None? <==> Fails(requested, old(Shown()), q, readOk, hitOk))
              && (r.Some? ==> Ranks(decay, now, old(Shown()), q, 0, r.value))
      ensures Valid()
      ensures table == if r.Some? && autoHit then MarkedMap(old(table), IdsOf(r.value), now) else old(table)
    {
      r := ByCategory(decay, now, requested, "", Anything, 0, readOk, hitOk);
    }

    method ListHeads(v: Weight, requested: seq<string>, readOk: bool) returns (heads: Option<seq<HeadInfo>>)
      requires Valid()
      ensures heads.None? <==> Refuses(requested) || !readOk
      ensures heads.Some? ==>
                heads.value == Rank(ByName(), HeadSet(Matching(Shown(), Request(None, Resolved(configured, requested), Anything))))
    {
      var rows, picked := Rows(v, requested, "", readOk);
      if rows.None? { return None; }
      SortMembers(Order(v), picked);
      assert NoDup(rows.value) by {
        if sqlSort { SortNoDup(Order(v), picked); }
      }
      var counted := CountHeads(rows.value);
      heads := Some(counted);
    }

    /** INSERT ... ON CONFLICT(id) DO UPDATE: an id keeps one row whatever its category or scope. */
    method Upsert(entry: Entry, newId: string, now: Time, ok: bool) returns (o: Outcome)
      modifies this`table
      ensures o == if IsAllowedCategory(entry.category) then Written(ok) else NotAllowed
      ensures table == if o == Done then SqlUpserted(old(table), entry, newId, now) else old(table)
      ensures old(Valid()) ==> Valid()
    {
      if !IsAllowedCategory(entry.category) { return NotAllowed; }
      var e := Filled(entry.(scope := NormalizedScope(entry.scope)), newId, now);
      if !ok { return WriteFailed; }
      table := table[e.id := e];
      o := Done;
    }

    /** The row is read first; WriteFailed stands for any statement that fails. */
    method Score(id: string, delta: real, now: Time, readOk: bool, ok: bool) returns (o: Outcome)
      modifies this`table
      ensures o == if !readOk then WriteFailed else if id in old(table) then Written(ok) else NotFound
      ensures table == if o == Done then MapStep({}, autoHit, old(table), Op.Score(id, delta, now, ok)) else old(table)
      ensures o == Done ==> ScoreDone(old(table), table, id, delta, now, autoHit)
      ensures old(Valid()) ==> Valid()
    {
      if !readOk { return WriteFailed; }
      if id !in table { return NotFound; }
      if !ok { return WriteFailed; }
      var e := table[id];
      var score := if e.score + delta < 0.0 then 0.0 else e.score + delta;
      table := table[id := e.(score := score)];
      if autoHit { table := table[id := e.(score := score, hitCount := e.hitCount + 1, lastHit := now)]; }
      o := Done;
    }

    /** Deleting an unknown id is no error. */
    method Delete(id: string, ok: bool) returns (o: Outcome)
      modifies this`table
      ensures o == Written(ok)
      ensures table == if ok then old(table) - {id} else old(table)
      ensures old(Valid()) ==> Valid()
    {
      if !ok { return WriteFailed; }
      table := table - {id};
      o := Done;
    }

    /** Writes whatever scope it is given, configured or not, and even an empty one. */
    method Promote(id: string, target: string, ok: bool) returns (o: Outcome)
      modifies this`table
      ensures o == if !ok then WriteFailed else if id in old(table) then Done else NotFound
      ensures table == if o == Done then SqlPromoted(old(table), id, target) else old(table)
      ensures MoveDone(old(table), table, id, target, o == Done)
      ensures old(Valid()) ==> (Valid() <==> o != Done || target != "")
    {
      if !ok { return WriteFailed; }
      if id !in table { return NotFound; }
      table := table[id := table[id].(scope := target)];
      o := Done;
      assert table[id].scope == target;
    }
  }

  function SqlPromoted(m: EntryMap, id: string, target: string): EntryMap {
    if id in m then m[id := m[id].(scope := target)] else m
  }

  /**
   Exactly when promoting does the same to the flat map in both stores: the YAML store only moves an entry, and
   only to a configured scope.
   */
  lemma PromotesAlikeIff(scopes: set<string>, autoHit: bool, m: EntryMap, id: string, target: string)
    ensures SqlPromoted(m, id, target) == MapStep(scopes, autoHit, m, Op.Promote(id, target, true, true))
       <==> id !in m || m[id].scope == target || (target in scopes && NormalizedScope(m[id].scope) != target)
  {}

  /** The row an upsert leaves: what the entry leaves out is filled in, its scope included. */
  lemma SqlUpsertDoes(m: EntryMap, entry: Entry, newId: string, now: Time) returns (f: Entry)
    ensures SqlUpserted(m, entry, newId, now) == m[f.id := f]
    ensures IsStored(entry.(scope := if entry.scope == "" then "global" else entry.scope), f, newId, now)
  {
    f := Filled(entry.(scope := NormalizedScope(entry.scope)), newId, now);
  }

  function SqlUpserted(m: EntryMap, entry: Entry, newId: string, now: Time): EntryMap {
    var e := Filled(entry.(scope := NormalizedScope(entry.scope)), newId, now);
    m[e.id := e]
  }

  /**
   For a configured scope the two stores' upserts of an entry that names its scope are one map update. Only the
   SQL store's is one for every entry: it has no bucket for a known id to leave.
   */
  lemma UpsertsAlike(s: State, entry: Entry, newId: string, now: Time)
    requires WellFormed(s) && Accepted(s.scopes, entry) && entry.scope != ""
    ensures var op := Op.Upsert(entry, newId, now, true);
            var s' := UpsertStep(s, entry, newId, now, true).0;
            WellFormed(s') && View(s'.data) == SqlUpserted(View(s.data), entry, newId, now) <==> KeepsBucket(s.scopes, View(s.data), op)
  {
    UpsertWellFormedIff(s, entry, newId, now, true);
    if KeepsBucket(s.scopes, View(s.data), Op.Upsert(entry, newId, now, true)) { UpsertRefines(s, entry, newId, now, true); }
  }
}
