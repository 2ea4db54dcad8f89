/** The query handler: categories cleaned, asked one by one, merged, ranked again, and used to fill a semantic answer. */
module Server {
  import opened Controller
  import opened ControllerRuns
  import opened Entries
  import opened Managers
  import opened Merging
  import opened Ranking
  import opened Selection
  import opened StableSort
  import opened YamlState
  import Text
  import YamlStore

  // ---------- categories ----------

  function Trimmed(names: seq<string>): seq<string> {
    seq(|names|, i requires 0 <= i < |names| => Text.TrimSpace(names[i]))
  }

  /** A category the repository does not know. */
  predicate Foreign(c: string) {
    c != "" && !IsAllowedCategory(c)
  }

  lemma NamesStep(names: seq<string>, i: nat)
    requires i < |names|
    ensures Missing(names[..i + 1], [""])
         == Missing(names[..i], [""]) + if names[i] == "" || names[i] in names[..i] then [] else [names[i]]
    ensures forall c :: c in names[..i + 1] <==> c in names[..i] || c == names[i]
  {
    assert names[..i + 1] == names[..i] + [names[i]] && names[..i + 1][..i] == names[..i];
  }

  /** The one category and the list of them, trimmed, without blanks and repetitions. */
  function Names(category: string, categories: seq<string>): seq<string> {
    Missing(Trimmed([category] + categories), [""])
  }

  /** A name that is neither blank nor known is among them. */
  predicate Foreigners(category: string, categories: seq<string>) {
    exists name :: name in [category] + categories && Foreign(Text.TrimSpace(name))
  }

  lemma {:induction false} BlankFirst(names: seq<string>)
    ensures Missing([""] + names, [""]) == Missing(names, [""])
  {
    if names == [] {
      assert [""] + [] == [""] && [""][..0] == [];
    } else {
      var front, last := names[..|names| - 1], names[|names| - 1];
      assert ([""] + names)[..|names|] == [""] + front;
      BlankFirst(front);
    }
  }

  lemma CombinedNames(category: string, categories: seq<string>, combined: seq<string>)
    requires combined == if category == "" then categories else [category] + categories
    ensures Missing(Trimmed(combined), [""]) == Names(category, categories)
  {
    if category == "" {
      assert Trimmed([category] + categories) == [""] + Trimmed(combined);
      BlankFirst(Trimmed(combined));
    }
  }

  lemma ForeignIn(category: string, categories: seq<string>, combined: seq<string>)
    requires combined == if category == "" then categories else [category] + categories
    ensures Foreigners(category, categories) <==> exists name :: name in combined && Foreign(Text.TrimSpace(name))
  {}

  /** Refused exactly when a name is not known; otherwise each name once, in order of first appearance. */
  method NormalizeCategories(category: string, categories: seq<string>) returns (r: Option<seq<string>>)
    ensures r == None <==> Foreigners(category, categories)
    ensures r.Some? ==> r.value == Names(category, categories) && forall c | c in r.value :: IsAllowedCategory(c)
  {
    var combined := if category != "" then [category] else [];
    combined := combined + categories;
    CombinedNames(category, categories, combined);
    ForeignIn(category, categories, combined);
    if !exists name :: name in combined && Foreign(Text.TrimSpace(name)) { NamesAreAllowed(combined); }
    r := Normalized(combined);
  }

  lemma NamesAreAllowed(combined: seq<string>)
    requires !exists name :: name in combined && Foreign(Text.TrimSpace(name))
    ensures forall c | c in Missing(Trimmed(combined), [""]) :: IsAllowedCategory(c)
  {
    MissingExact(Trimmed(combined), [""]);
    forall c | c in Missing(Trimmed(combined), [""]) ensures IsAllowedCategory(c) {
      var i :| 0 <= i < |combined| && Trimmed(combined)[i] == c;
      assert combined[i] in combined;
    }
  }

  method Normalized(combined: seq<string>) returns (r: Option<seq<string>>)
    ensures r == None <==> exists name :: name in combined && Foreign(Text.TrimSpace(name))
    ensures r.Some? ==> r.value == Missing(Trimmed(combined), [""])
  {
    ghost var names := Trimmed(combined);
    var filtered: seq<string> := [];
    var seen: set<string> := {};
    for i := 0 to |combined|
      invariant filtered == Missing(names[..i], [""])
      invariant forall c :: c in seen <==> c in names[..i] && c != ""
      invariant forall j | 0 <= j < i :: !Foreign(Text.TrimSpace(combined[j]))
    {
      var c := Text.TrimSpace(combined[i]);
      assert names[i] == c;
      NamesStep(names, i);
      if c == "" { continue; }
      if !IsAllowedCategory(c) {
        assert combined[i] in combined && Foreign(Text.TrimSpace(combined[i]));
        return None;
      }
      if c in seen { continue; }
      seen := seen + {c};
      filtered := filtered + [c];
    }
    assert names[..|combined|] == names;
    r := Some(filtered);
  }

  // ---------- entries with new ids ----------

  /** The entries whose ids are neither had nor carried by an earlier entry. */
  function NewOnes(had: set<string>, es: seq<Entry>): seq<Entry> {
    if es == [] then [] else
      var front, last := es[..|es| - 1], es[|es| - 1];
      NewOnes(had, front) + if last.id in had || last.id in IdsOf(front) then [] else [last]
  }

  lemma {:induction false} NewOnesFrom(had: set<string>, es: seq<Entry>, e: Entry)
    requires e in NewOnes(had, es)
    ensures e in es && e.id !in had
  {
    var front := es[..|es| - 1];
    assert es == front + [es[|es| - 1]];
    if e in NewOnes(had, front) { NewOnesFrom(had, front, e); }
  }

  lemma {:induction false} NewOnesIds(had: set<string>, es: seq<Entry>)
    ensures IdsOf(NewOnes(had, es)) == IdsOf(es) - had
  {
    if es != [] {
      var front, last := es[..|es| - 1], es[|es| - 1];
      assert es == front + [last];
      NewOnesIds(had, front);
      IdsSnoc(front, last);
      IdsSnoc(NewOnes(had, front), last);
      assert NewOnes(had, front) + [] == NewOnes(had, front);
      assert IdsOf(es) == IdsOf(front) + {last.id};
    }
  }

  lemma {:induction false} NewOnesDistinct(had: set<string>, es: seq<Entry>)
    ensures DistinctEntries(NewOnes(had, es))
  {
    if es != [] {
      var front, last := es[..|es| - 1], es[|es| - 1];
      NewOnesDistinct(had, front);
      NewOnesIds(had, front);
      if last.id !in had && last.id !in IdsOf(front) { DistinctSnoc(NewOnes(had, front), last); }
    }
  }

  lemma DistinctSnoc(es: seq<Entry>, e: Entry)
    requires DistinctEntries(es) && e.id !in IdsOf(es)
    ensures DistinctEntries(es + [e])
  {}

  lemma NewOnesStep(had: set<string>, es: seq<Entry>, i: nat)
    requires i < |es|
    ensures IdsOf(es[..i + 1]) == IdsOf(es[..i]) + {es[i].id}
    ensures NewOnes(had, es[..i + 1])
         == NewOnes(had, es[..i]) + if es[i].id in had + IdsOf(es[..i]) then [] else [es[i]]
  {
    assert es[..i + 1] == es[..i] + [es[i]] && es[..i + 1][..i] == es[..i];
    IdsSnoc(es[..i], es[i]);
  }

  lemma {:induction false} NewOnesGrow(had: set<string>, es: seq<Entry>, n: nat)
    requires n <= |es|
    ensures NewOnes(had, es[..n]) <= NewOnes(had, es)
    decreases |es|
  {
    if n < |es| {
      NewOnesGrow(had, es[..|es| - 1], n);
      assert es[..|es| - 1][..n] == es[..n];
    } else {
      assert es[..n] == es;
    }
  }

  lemma FullIsTopK(existing: seq<Entry>, some: seq<Entry>, all: seq<Entry>, topK: int)
    requires some <= all && 0 < topK == |existing + some|
    ensures TopK(topK, existing + all) == existing + some
  {}

  /** The loop both merges share: appends what was not seen, up to a limit when there is one. */
  method AppendNew(existing: seq<Entry>, additional: seq<Entry>, topK: int) returns (merged: seq<Entry>)
    requires topK > 0 ==> |existing| < topK
    ensures merged == TopK(topK, existing + NewOnes(IdsOf(existing), additional))
  {
    ghost var had, news := IdsOf(existing), [];
    merged := existing;
    var seen := IdsOf(existing);
    for i := 0 to |additional|
      invariant news == NewOnes(had, additional[..i]) && merged == existing + news
      invariant seen == had + IdsOf(additional[..i])
      invariant topK > 0 ==> |merged| < topK
    {
      NewOnesStep(had, additional, i);
      if additional[i].id in seen { continue; }
      seen := seen + {additional[i].id};
      merged := merged + [additional[i]];
      news := news + [additional[i]];
      if topK > 0 && |merged| >= topK {
        NewOnesGrow(had, additional, i + 1);
        FullIsTopK(existing, news, NewOnes(had, additional), topK);
        return;
      }
    }
    assert additional[..|additional|] == additional;
  }

  /** Adds to a first answer what a second one has that is new, up to topK in all. */
  method FillWithAdditional(existing: seq<Entry>, additional: seq<Entry>, topK: int) returns (r: seq<Entry>)
    ensures r == TopK(topK, existing + NewOnes(IdsOf(existing), additional))
  {
    if topK > 0 && |existing| >= topK {
      assert existing[..topK] == (existing + NewOnes(IdsOf(existing), additional))[..topK];
      return existing[..topK];
    }
    r := AppendNew(existing, additional, topK);
  }

  lemma IdsConcat(a: seq<Entry>, b: seq<Entry>)
    ensures IdsOf(a + b) == IdsOf(a) + IdsOf(b)
  {}

  lemma DistinctConcat(a: seq<Entry>, b: seq<Entry>)
    requires DistinctEntries(a) && DistinctEntries(b) && IdsOf(a) !! IdsOf(b)
    ensures DistinctEntries(a + b)
  {
    var c := a + b;
    forall i, j | 0 <= i < j < |c| ensures c[i].id != c[j].id {
      if i < |a| <= j { assert a[i].id in IdsOf(a) && b[j - |a|].id in IdsOf(b); }
    }
  }

  lemma DistinctTopK(k: int, es: seq<Entry>)
    requires DistinctEntries(es) && k > 0
    ensures var r, n := TopK(k, es), |IdsOf(es)|;
            DistinctEntries(r) && r <= es && |r| == if n < k then n else k
  {
    DistinctSize(es);
  }

  lemma PrefixOfConcat(r: seq<Entry>, a: seq<Entry>, b: seq<Entry>)
    requires r <= a + b
    ensures r <= a || a <= r
  {}

  lemma FillIds(existing: seq<Entry>, additional: seq<Entry>, news: seq<Entry>)
    requires DistinctEntries(existing) && news == NewOnes(IdsOf(existing), additional)
    ensures DistinctEntries(existing + news) && IdsOf(existing + news) == IdsOf(existing) + IdsOf(additional)
  {
    NewOnesDistinct(IdsOf(existing), additional);
    NewOnesIds(IdsOf(existing), additional);
    DistinctConcat(existing, news);
    IdsConcat(existing, news);
    assert IdsOf(existing) + IdsOf(news) == IdsOf(existing) + IdsOf(additional);
  }

  /** Distinct ids, the existing entries first, and as many as the limit and the two id sets allow. */
  lemma FillExact(existing: seq<Entry>, additional: seq<Entry>, topK: int)
    requires DistinctEntries(existing) && topK > 0
    ensures var r, n := TopK(topK, existing + NewOnes(IdsOf(existing), additional)), |IdsOf(existing) + IdsOf(additional)|;
            && DistinctEntries(r)
            && (r <= existing || existing <= r)
            && (forall e | e in r :: e in existing || e in additional)
            && |r| == if n < topK then n else topK
  {
    var news := NewOnes(IdsOf(existing), additional);
    FillIds(existing, additional, news);
    DistinctTopK(topK, existing + news);
    var r := TopK(topK, existing + news);
    PrefixOfConcat(r, existing, news);
    forall e | e in r ensures e in existing || e in additional {
      if e !in existing { NewOnesFrom(IdsOf(existing), additional, e); }
    }
  }

  lemma {:induction false} DistinctSize(es: seq<Entry>)
    requires DistinctEntries(es)
    ensures |IdsOf(es)| == |es|
  {
    if es != [] {
      var front, last := es[..|es| - 1], es[|es| - 1];
      assert es == front + [last];
      DistinctSize(front);
      IdsSnoc(front, last);
    }
  }

  // ---------- several categories ----------

  function Criterion(query: string): Criteria {
    if query == "" then Anything else Keywords(Terms(query))
  }

  ghost function MatchingAny(m: EntryMap, categories: seq<string>, scopes: seq<string>, criteria: Criteria): set<Entry> {
    set id | id in m && m[id].category in categories && Wants(Request(None, scopes, criteria), m[id]) :: m[id]
  }

  /** A stored entry of one of the categories, in one of the scopes when any are given, that mentions a word of the query. */
  ghost predicate AnyHit(m: EntryMap, categories: seq<string>, scopes: seq<string>, query: string, e: Entry) {
    exists c :: c in categories && WordHit(m, c, scopes, query, e)
  }

  lemma AcrossFinds(m: EntryMap, categories: seq<string>, scopes: seq<string>, query: string)
    requires KeyedById(m)
    ensures forall e :: e in MatchingAny(m, categories, scopes, Criterion(query)) <==> AnyHit(m, categories, scopes, query, e)
  {
    forall e ensures Meets(Criterion(query), e) <==> MentionsAny(e, query) { WordsDecide(e, query); }
    forall e ensures e in MatchingAny(m, categories, scopes, Criterion(query)) <==> AnyHit(m, categories, scopes, query, e) {
      if e in MatchingAny(m, categories, scopes, Criterion(query)) { assert WordHit(m, e.category, scopes, query, e); }
    }
  }

  /** b is a after some hits. */
  ghost predicate SameButHits(a: Entry, b: Entry) {
    b == a.(hitCount := b.hitCount, lastHit := b.lastHit)
  }

  /** n is m after some hits on the listed ids, and nothing else. */
  ghost predicate OnlyHits(m: EntryMap, n: EntryMap, ids: set<string>) {
    n.Keys == m.Keys && forall id | id in m :: if id in ids then SameButHits(m[id], n[id]) else n[id] == m[id]
  }

  lemma SomeHits(m: EntryMap, n: EntryMap, ids: set<string>)
    requires OnlyHits(m, n, ids)
    ensures OnlyHits(m, n, m.Keys)
  {}

  lemma NotedOnlyHits(m: EntryMap, entries: seq<Entry>, autoHit: bool, now: Time)
    requires KeyedById(m)
    ensures OnlyHits(m, YamlStore.Noted(autoHit, m, entries, now), m.Keys)
  {}

  /** The category's reference answer has been merged. */
  ghost predicate Covers(w: Weight, m: EntryMap, q: Request, k: int, merged: seq<Entry>) {
    Rankable(w, m, q) ==> Elems(Answer(w, m, q, k)) <= Elems(merged)
  }

  /** What the loop over categories knows after some of them. */
  ghost predicate Gathered(w: Weight, m0: EntryMap, m: EntryMap, done: seq<string>, scopes: seq<string>, criteria: Criteria,
                           k: int, merged: seq<Entry>)
  {
    && KeyedById(m0) && DistinctEntries(merged)
    && OnlyHits(m0, m, IdsOf(merged))
    && Elems(merged) <= MatchingAny(m0, done, scopes, criteria)
    && (NoDup(done) && NoDup(scopes) ==> forall c | c in done :: Covers(w, m0, Request(Some(c), scopes, criteria), k, merged))
  }

  /** Hits counted for earlier categories do not disturb a later one. */
  lemma UntouchedCategory(m0: EntryMap, m: EntryMap, ids: set<string>, q: Request)
    requires OnlyHits(m0, m, ids) && q.category.Some?
    requires forall id | id in ids && id in m0 :: m0[id].category != q.category.value
    ensures Matching(m, q) == Matching(m0, q)
  {}

  lemma GatheredNothing(w: Weight, d: Buckets, scopes: seq<string>, criteria: Criteria, k: int)
    ensures Gathered(w, View(d), View(d), [], scopes, criteria, k, [])
  {}

  /** One more category: its answer is merged, and only hits have changed. */
  lemma GatherOne(w: Weight, m0: EntryMap, m: EntryMap, done: seq<string>, c: string, scopes: seq<string>,
                  criteria: Criteria, k: int, merged: seq<Entry>, entries: seq<Entry>, autoHit: bool, now: Time)
    requires Gathered(w, m0, m, done, scopes, criteria, k, merged)
    requires Elems(entries) <= Matching(m, Request(Some(c), scopes, criteria))
    requires NoDup(scopes) ==> Answers(w, m, Request(Some(c), scopes, criteria), k, entries)
    ensures Gathered(w, m0, YamlStore.Noted(autoHit, m, entries, now), done + [c], scopes, criteria, k,
                     merged + NewOnes(IdsOf(merged), entries))
  {
    var q, news := Request(Some(c), scopes, criteria), NewOnes(IdsOf(merged), entries);
    NewOnesDistinct(IdsOf(merged), entries);
    NewOnesIds(IdsOf(merged), entries);
    DistinctConcat(merged, news);
    IdsConcat(merged, news);
    MoreHits(m0, m, IdsOf(merged), entries, autoHit, now);
    assert IdsOf(merged + news) == IdsOf(merged) + IdsOf(entries);
    NewOnesMatch(m0, m, done, c, scopes, criteria, merged, entries);
    if NoDup(done + [c]) && NoDup(scopes) {
      NoDupFront(done, c);
      CoversNew(w, m0, m, done, q, k, merged, entries);
      forall d | d in done + [c] ensures Covers(w, m0, Request(Some(d), scopes, criteria), k, merged + news) {
        if d in done {
          assert Covers(w, m0, Request(Some(d), scopes, criteria), k, merged);
          ElemsConcat(merged, news);
        }
      }
    }
  }

  lemma MoreHits(m0: EntryMap, m: EntryMap, ids: set<string>, entries: seq<Entry>, autoHit: bool, now: Time)
    requires OnlyHits(m0, m, ids) && KeyedById(m0)
    ensures OnlyHits(m0, YamlStore.Noted(autoHit, m, entries, now), ids + IdsOf(entries))
  {}

  lemma NoDupFront(done: seq<string>, c: string)
    requires NoDup(done + [c])
    ensures NoDup(done) && c !in done
  {
    var both := done + [c];
    forall i | 0 <= i < |done| ensures both[i] == done[i] && done[i] != c { assert both[|done|] == c; }
  }

  lemma NewOnesMatch(m0: EntryMap, m: EntryMap, done: seq<string>, c: string, scopes: seq<string>,
                     criteria: Criteria, merged: seq<Entry>, entries: seq<Entry>)
    requires OnlyHits(m0, m, IdsOf(merged)) && KeyedById(m0)
    requires Elems(merged) <= MatchingAny(m0, done, scopes, criteria)
    requires Elems(entries) <= Matching(m, Request(Some(c), scopes, criteria))
    ensures Elems(merged + NewOnes(IdsOf(merged), entries)) <= MatchingAny(m0, done + [c], scopes, criteria)
  {
    var news := NewOnes(IdsOf(merged), entries);
    forall e | e in merged + news ensures e in MatchingAny(m0, done + [c], scopes, criteria) {
      if e in merged {
        assert e in Elems(merged);
      } else {
        NewOnesFrom(IdsOf(merged), entries, e);
        assert e in Elems(entries);
        var id :| id in m && m[id] == e && Wants(Request(Some(c), scopes, criteria), m[id]);
        assert m0[id].id == id && m[id].id == id;
        assert m0[id] == e && c in done + [c];
      }
    }
  }

  lemma CoversNew(w: Weight, m0: EntryMap, m: EntryMap, done: seq<string>, q: Request, k: int,
                  merged: seq<Entry>, entries: seq<Entry>)
    requires OnlyHits(m0, m, IdsOf(merged)) && KeyedById(m0) && q.category.Some? && q.category.value !in done
    requires Elems(merged) <= MatchingAny(m0, done, q.scopes, q.criteria)
    requires Elems(entries) <= Matching(m, q) && Answers(w, m, q, k, entries)
    ensures Covers(w, m0, q, k, merged + NewOnes(IdsOf(merged), entries))
  {
    var news := NewOnes(IdsOf(merged), entries);
    forall id | id in IdsOf(merged) && id in m0 ensures m0[id].category != q.category.value {
      var e :| e in merged && e.id == id;
      assert e in Elems(merged);
    }
    UntouchedCategory(m0, m, IdsOf(merged), q);
    if Rankable(w, m0, q) {
      assert Rankable(w, m, q);
      NewOnesIds(IdsOf(merged), entries);
      forall e | e in entries ensures e in news {
        assert e in Elems(entries) && e in Matching(m0, q);
        assert e.id in IdsOf(news);
        var x :| x in news && x.id == e.id;
        NewOnesFrom(IdsOf(merged), entries, x);
        assert x in Elems(entries) && x in Matching(m0, q);
      }
    }
  }

  // ---------- top-K over several categories ----------

  /** Truncating each category, merging, ranking again and truncating is ranking everything and truncating once. */
  lemma TopKAcross(w: Weight, m: EntryMap, categories: seq<string>, scopes: seq<string>, criteria: Criteria, k: int,
                   merged: seq<Entry>)
    requires var whole := MatchingAny(m, categories, scopes, criteria);
             KeyedById(m) && Gapped(w, whole) && DistinctEntries(merged) && Elems(merged) <= whole
    requires forall c | c in categories :: Covers(w, m, Request(Some(c), scopes, criteria), k, merged)
    ensures TopK(k, Sort(Comparator(w), merged)) == TopK(k, Rank(Order(w), MatchingAny(m, categories, scopes, criteria)))
  {
    var whole := MatchingAny(m, categories, scopes, criteria);
    OrderIsStrict(w, whole);
    assert NoDup(merged) && DistinctIds(Elems(merged)) && Gapped(w, Elems(merged));
    SortedIsRanked(w, merged);
    forall e | e in Elems(TopK(k, Rank(Order(w), whole))) ensures e in Elems(merged) {
      FirstOfItsCategory(w, m, categories, scopes, criteria, k, e);
      assert Covers(w, m, Request(Some(e.category), scopes, criteria), k, merged);
    }
    TopKOfPart(Order(w), k, Elems(merged), whole);
  }

  /** Whoever is among the first k of all is among the first k of its own category. */
  lemma FirstOfItsCategory(w: Weight, m: EntryMap, categories: seq<string>, scopes: seq<string>, criteria: Criteria,
                           k: int, e: Entry)
    requires var whole := MatchingAny(m, categories, scopes, criteria);
             KeyedById(m) && Gapped(w, whole) && e in TopK(k, Rank(Order(w), whole))
    ensures var q := Request(Some(e.category), scopes, criteria);
            e.category in categories && Rankable(w, m, q) && e in Answer(w, m, q, k)
  {
    var whole, q := MatchingAny(m, categories, scopes, criteria), Request(Some(e.category), scopes, criteria);
    OrderIsStrict(w, whole);
    RankIsAscending(Order(w), whole);
    assert e in Elems(Rank(Order(w), whole)) by { TopKElems(k, Rank(Order(w), whole)); assert e in Elems(TopK(k, Rank(Order(w), whole))); }
    var p := (x: Entry) => x.category == e.category;
    forall x ensures x in Matching(m, q) <==> x in whole && p(x) {
      if x in Matching(m, q) { assert Wants(Request(None, scopes, criteria), x); }
      if x in whole && p(x) { assert Wants(q, x); }
    }
    RankFilter(Order(w), p, whole, Matching(m, q));
    FilterAdvances(p, k, Rank(Order(w), whole), e);
  }

  /** Keyword search when there is a query text, the whole category when there is none. */
  method AskCategory(store: YamlStore.Store, w: Weight, now: Time, query: string, category: string,
                     topK: int, scopes: seq<string>) returns (r: seq<Entry>)
    requires store.Valid()
    modifies store`data, store`dirty
    ensures store.Valid() && store.Contents() == YamlStore.Noted(store.autoHit, old(store.Contents()), r, now)
    ensures Elems(r) <= Matching(old(store.Contents()), Request(Some(category), scopes, Criterion(query)))
    ensures NoDup(scopes) ==>
              Answers(w, old(store.Contents()), Request(Some(category), scopes, Criterion(query)), topK, r)
  {
    if query != "" {
      r := store.QueryByCategory(w, now, category, query, topK, scopes);
    } else {
      r := store.AllByCategory(w, now, category, topK, scopes);
    }
  }

  /** The loop over categories after the first i of them. */
  ghost predicate Reached(store: YamlStore.Store, w: Weight, m0: EntryMap, categories: seq<string>, i: int, scopes: seq<string>,
                          criteria: Criteria, k: int, merged: seq<Entry>)
    reads store
  {
    && 0 <= i <= |categories| && store.Valid()
    && Gathered(w, m0, store.Contents(), categories[..i], scopes, criteria, k, merged)
  }

  method GatherCategory(store: YamlStore.Store, w: Weight, now: Time, query: string,
                        ghost m0: EntryMap, categories: seq<string>, i: nat, topK: int, scopes: seq<string>,
                        sofar: seq<Entry>)
    returns (merged: seq<Entry>)
    requires i < |categories| && Reached(store, w, m0, categories, i, scopes, Criterion(query), topK, sofar)
    modifies store`data, store`dirty
    ensures Reached(store, w, m0, categories, i + 1, scopes, Criterion(query), topK, merged)
  {
    ghost var m := store.Contents();
    var entries := AskCategory(store, w, now, query, categories[i], topK, scopes);
    assert categories[..i + 1] == categories[..i] + [categories[i]];
    GatherOne(w, m0, m, categories[..i], categories[i], scopes, Criterion(query), topK, sofar, entries, store.autoHit, now);
    merged := AppendNew(sofar, entries, 0);
  }

  /** Some category's query fails. */
  predicate FailsFor(failing: set<Option<string>>, categories: seq<string>) {
    exists c :: c in categories && Some(c) in failing
  }

  /** Asks each category in turn, up to the first whose query fails; the same id is never merged twice. */
  method GatherAll(store: YamlStore.Store, w: Weight, now: Time, query: string,
                   categories: seq<string>, topK: int, scopes: seq<string>, failing: set<Option<string>>)
    returns (merged: Option<seq<Entry>>, ghost touched: set<string>)
    requires store.Valid()
    modifies store`data, store`dirty
    ensures merged.None? <==> FailsFor(failing, categories)
    ensures store.Valid() && OnlyHits(old(store.Contents()), store.Contents(), touched)
    ensures merged.Some? ==>
              Gathered(w, old(store.Contents()), store.Contents(), categories, scopes, Criterion(query), topK, merged.value)
  {
    ghost var m0 := store.Contents();
    var sofar := [];
    GatheredNothing(w, store.data, scopes, Criterion(query), topK);
    var i := 0;
    while i < |categories| && Some(categories[i]) !in failing
      invariant Reached(store, w, m0, categories, i, scopes, Criterion(query), topK, sofar)
      invariant forall j | 0 <= j < i :: Some(categories[j]) !in failing
    {
      sofar := GatherCategory(store, w, now, query, m0, categories, i, topK, scopes, sofar);
      i := i + 1;
    }
    touched := IdsOf(sofar);
    assert categories[..|categories|] == categories;
    merged := if i < |categories| then None else Some(sofar);
  }

  /** Merges the categories' answers, ranks them together and truncates; failing are the categories whose query fails. */
  method QueryByCategories(store: YamlStore.Store, w: Weight, now: Time, query: string,
                           categories: seq<string>, topK: int, scopes: seq<string>, failing: set<Option<string>>)
    returns (r: Option<seq<Entry>>, ghost touched: set<string>)
    requires store.Valid()
    modifies store`data, store`dirty
    ensures r.None? <==> FailsFor(failing, categories)
    ensures store.Valid() && OnlyHits(old(store.Contents()), store.Contents(), touched)
    ensures r.Some? ==> AnswersAcross(w, old(store.Contents()), categories, scopes, Criterion(query), topK, r.value)
    ensures r.Some? ==> forall e | e in r.value :: AnyHit(old(store.Contents()), categories, scopes, query, e)
  {
    ViewKeyed(store.data);
    AcrossFinds(store.Contents(), categories, scopes, query);
    ghost var m0 := store.Contents();
    var merged;
    merged, touched := GatherAll(store, w, now, query, categories, topK, scopes, failing);
    if merged.None? { return None, touched; }
    RankMerged(w, m0, store.Contents(), categories, scopes, Criterion(query), topK, merged.value);
    var ranked := Ranked(w, merged.value);
    if topK > 0 && |ranked| > topK { ranked := ranked[..topK]; }
    r := Some(ranked);
    MembersOf(ranked);
  }

  /** Distinct ids, only what matches, and the first k of everything that matches in any of the categories. */
  ghost predicate AnswersAcross(w: Weight, m: EntryMap, categories: seq<string>, scopes: seq<string>, criteria: Criteria,
                                k: int, r: seq<Entry>)
  {
    var whole := MatchingAny(m, categories, scopes, criteria);
    && DistinctEntries(r) && Elems(r) <= whole
    && (NoDup(categories) && NoDup(scopes) && Gapped(w, whole) ==> r == TopK(k, Rank(Order(w), whole)))
  }

  lemma SortKeepsIdsDistinct(lt: (Entry, Entry) -> bool, es: seq<Entry>)
    requires DistinctEntries(es)
    ensures DistinctEntries(Sort(lt, es))
  {
    var r := Sort(lt, es);
    SortNoDup(lt, es);
    SortMembers(lt, es);
    forall i, j | 0 <= i < j < |r| ensures r[i].id != r[j].id {
      assert r[i] in Elems(r) && r[j] in Elems(r);
      assert r[i] in es && r[j] in es;
    }
  }

  lemma RankMerged(w: Weight, m0: EntryMap, m: EntryMap, categories: seq<string>, scopes: seq<string>, criteria: Criteria,
                   k: int, merged: seq<Entry>)
    requires Gathered(w, m0, m, categories, scopes, criteria, k, merged)
    ensures AnswersAcross(w, m0, categories, scopes, criteria, k, TopK(k, Sort(Comparator(w), merged)))
  {
    SortMembers(Comparator(w), merged);
    TopKElems(k, Sort(Comparator(w), merged));
    SortKeepsIdsDistinct(Comparator(w), merged);
    if NoDup(categories) && NoDup(scopes) && Gapped(w, MatchingAny(m0, categories, scopes, criteria)) {
      TopKAcross(w, m0, categories, scopes, criteria, k, merged);
    }
  }

  // ---------- the handler ----------

  datatype QueryInput = QueryInput(query: string, category: string, categories: seq<string>,
                                   scopes: seq<string>, topK: int)

  function Limit(topK: int): int {
    if topK <= 0 then 5 else topK
  }

  /** The semantic answer a store holding m gives; no entries when it cannot search or the search failed. */
  function Semantic(w: Weight, m: EntryMap, k: int, found: Option<seq<SearchResult>>, scopes: seq<string>,
                    categories: seq<string>): seq<Entry>
  {
    if found.None? then []
    else EntriesOf(Best(k, Sort(Nearer(w), Candidates(m, found.value, scopes, categories))))
  }

  /** A stored entry of one of the categories, in one of the scopes by its own name or its bucket's. */
  predicate Relevant(m: EntryMap, categories: seq<string>, scopes: seq<string>, e: Entry) {
    && e.id in m && m[e.id] == e
    && (categories == [] || e.category in categories)
    && (scopes == [] || e.scope in scopes || NormalizedScope(e.scope) in scopes)
  }

  lemma SemanticIsRelevant(w: Weight, m: EntryMap, k: int, found: Option<seq<SearchResult>>, scopes: seq<string>,
                           categories: seq<string>)
    requires KeyedById(m) && (found.Some? ==> DistinctHits(found.value)) && k > 0
    ensures var r := Semantic(w, m, k, found, scopes, categories);
            && DistinctEntries(r) && |r| <= k && (forall e | e in r :: Relevant(m, categories, scopes, e))
            && (found.Some? ==> Nearest(w, m, k, Elems(found.value), scopes, categories, r))
  {
    if found.Some? {
      SemanticAnswer(w, m, k, found.value, scopes, categories);
      SemanticIsNearest(w, m, k, found.value, scopes, categories);
    }
  }

  /** The reply when categories are given: semantic hits first, then what the categories add, topK in all. */
  ghost predicate Backfilled(m: EntryMap, categories: seq<string>, scopes: seq<string>, k: int, semantic: seq<Entry>,
                             keyword: seq<Entry>, r: seq<Entry>)
  {
    && r == TopK(k, semantic + NewOnes(IdsOf(semantic), keyword))
    && DistinctEntries(r) && (r <= semantic || semantic <= r)
    && (forall e | e in r :: Relevant(m, categories, scopes, e))
    && |r| == var n := |IdsOf(semantic) + IdsOf(keyword)|; if n < k then n else k
  }

  lemma BackfillExact(w: Weight, m: EntryMap, categories: seq<string>, scopes: seq<string>, criteria: Criteria, k: int,
                      semantic: seq<Entry>, keyword: seq<Entry>)
    requires KeyedById(m) && k > 0 && AnswersAcross(w, m, categories, scopes, criteria, k, keyword)
    requires DistinctEntries(semantic) && forall e | e in semantic :: Relevant(m, categories, scopes, e)
    ensures Backfilled(m, categories, scopes, k, semantic, keyword, TopK(k, semantic + NewOnes(IdsOf(semantic), keyword)))
  {
    FillExact(semantic, keyword, k);
    forall e | e in keyword ensures Relevant(m, categories, scopes, e) {
      assert e in Elems(keyword) && e in MatchingAny(m, categories, scopes, criteria);
    }
  }

  /** The ids a search found that are no longer stored. */
  function Stale(m: EntryMap, asked: Option<seq<SearchResult>>): set<string> {
    if asked.None? then {} else Orphans(m, asked.value)
  }

  method SearchFirst(memory: MemoryController, searches: bool, w: Weight, k: int, input: QueryInput,
                     categories: seq<string>, found: Option<seq<SearchResult>>, stuck: set<string>)
    returns (semantic: seq<Entry>)
    requires memory.Valid()
    modifies memory`index
    ensures var asked := if input.query != "" && searches && memory.available then found else None;
            && semantic == Semantic(w, memory.Contents(), k, asked, input.scopes, categories)
            && memory.index == DroppedAll(old(memory.index), Stale(memory.Contents(), asked), stuck)
  {
    DroppedAllMore(memory.index, {}, stuck, "");
    semantic := [];
    if input.query != "" && searches {
      var r := memory.SemanticSearch(w, k, input.scopes, categories, found, stuck);
      semantic := if r.Some? then r.value else [];
    }
  }

  method Backfill(store: YamlStore.Store, w: Weight, now: Time, k: int, input: QueryInput, categories: seq<string>,
                  semantic: seq<Entry>, failing: set<Option<string>>)
    returns (r: Option<seq<Entry>>, ghost keyword: seq<Entry>)
    requires store.Valid() && k > 0
    modifies store`data, store`dirty
    ensures r.None? <==> FailsFor(failing, categories)
    ensures store.Valid() && OnlyHits(old(store.Contents()), store.Contents(), old(store.Contents()).Keys)
    ensures r.Some? ==>
              AnswersAcross(w, old(store.Contents()), categories, input.scopes, Criterion(input.query), k, keyword)
    ensures r.Some? && DistinctEntries(semantic)
            && (forall e | e in semantic :: Relevant(old(store.Contents()), categories, input.scopes, e)) ==>
              Backfilled(old(store.Contents()), categories, input.scopes, k, semantic, keyword, r.value)
  {
    ghost var m := store.Contents();
    ViewKeyed(store.data);
    var fallback, touched := QueryByCategories(store, w, now, input.query, categories, k, input.scopes, failing);
    SomeHits(m, store.Contents(), touched);
    if fallback.None? { return None, []; }
    keyword := fallback.value;
    if DistinctEntries(semantic) && forall e | e in semantic :: Relevant(m, categories, input.scopes, e) {
      BackfillExact(w, m, categories, input.scopes, Criterion(input.query), k, semantic, keyword);
    }
    var filled := FillWithAdditional(semantic, fallback.value, k);
    r := Some(filled);
  }

  /** No categories and nothing found: the one blank category asked for, or everything. */
  method Fallback(store: YamlStore.Store, w: Weight, now: Time, k: int, input: QueryInput, failing: set<Option<string>>)
    returns (r: Option<seq<Entry>>)
    requires store.Valid() && k > 0
    modifies store`data, store`dirty
    ensures r.None? <==> FallbackRequest(input).category in failing
    ensures store.Valid() && OnlyHits(old(store.Contents()), store.Contents(), old(store.Contents()).Keys)
    ensures r.Some? ==> |r.value| <= k
    ensures r.Some? && NoDup(input.scopes) ==> Answers(w, old(store.Contents()), FallbackRequest(input), k, r.value)
  {
    ghost var m := store.Contents();
    ViewKeyed(store.data);
    if FallbackRequest(input).category in failing { return None; }
    var entries;
    if input.category != "" {
      entries := store.QueryByCategory(w, now, input.category, input.query, k, input.scopes);
      NotedOnlyHits(m, entries, store.autoHit, now);
    } else {
      entries := store.All(w, now, input.scopes);
      NotedOnlyHits(m, entries, store.autoHit, now);
      if |entries| > k { entries := entries[..k]; }
    }
    r := Some(entries);
  }

  function FallbackRequest(input: QueryInput): Request {
    if input.category != "" then WordRequest(input.category, input.scopes, input.query)
    else Request(None, input.scopes, Anything)
  }

  /** What the store adds to the semantic answer: backfill for categories, a fallback for nothing. */
  ghost predicate Completed(w: Weight, m: EntryMap, names: seq<string>, input: QueryInput, semantic: seq<Entry>,
                            keyword: seq<Entry>, r: seq<Entry>)
  {
    var k := Limit(input.topK);
    if names != [] then
      && AnswersAcross(w, m, names, input.scopes, Criterion(input.query), k, keyword)
      && Backfilled(m, names, input.scopes, k, semantic, keyword, r)
    else if semantic != [] then
      r == semantic && DistinctEntries(r) && |r| <= k && forall e | e in r :: Relevant(m, [], input.scopes, e)
    else
      |r| <= k && (NoDup(input.scopes) ==> Answers(w, m, FallbackRequest(input), k, r))
  }

  /** A store query the handler comes to fails: one for each category, else one when the search found nothing. */
  predicate QueryFails(names: seq<string>, input: QueryInput, semantic: seq<Entry>, failing: set<Option<string>>) {
    if names != [] then FailsFor(failing, names) else semantic == [] && FallbackRequest(input).category in failing
  }

  method FromStore(store: YamlStore.Store, w: Weight, now: Time, k: int, input: QueryInput, names: seq<string>,
                   semantic: seq<Entry>, failing: set<Option<string>>)
    returns (r: Option<seq<Entry>>, ghost keyword: seq<Entry>)
    requires store.Valid() && k == Limit(input.topK)
    modifies store`data, store`dirty
    ensures r.None? <==> QueryFails(names, input, semantic, failing)
    ensures store.Valid() && OnlyHits(old(store.Contents()), store.Contents(), old(store.Contents()).Keys)
    ensures r.Some? && DistinctEntries(semantic) && |semantic| <= k
            && (forall e | e in semantic :: Relevant(old(store.Contents()), names, input.scopes, e)) ==>
              Completed(w, old(store.Contents()), names, input, semantic, keyword, r.value)
  {
    r, keyword := Some(semantic), [];
    if |names| > 0 {
      r, keyword := Backfill(store, w, now, k, input, names, semantic, failing);
    } else if |semantic| == 0 {
      r := Fallback(store, w, now, k, input, failing);
    }
  }

  /**
   found is what the index search returned, None when it failed; stuck are the ids whose deletion from the index
   fails; failing are the store queries that fail, by category, None for the listing of everything. A failed
   query ends in an error, but whatever was asked before it has counted its hits.
   */
  method HandleQuery(memory: MemoryController, searches: bool, w: Weight, now: Time, input: QueryInput,
                     found: Option<seq<SearchResult>>, stuck: set<string>, failing: set<Option<string>>)
    returns (r: Option<seq<Entry>>, ghost keyword: seq<Entry>)
    requires memory.Valid()
    modifies memory`index, memory.store
    ensures memory.Valid() && OnlyHits(old(memory.Contents()), memory.Contents(), old(memory.Contents()).Keys)
    ensures var asked := if input.query != "" && searches && memory.available then found else None;
            && (r == None <==> Foreigners(input.category, input.categories) || Fails(w, old(memory.Contents()), asked, input, failing))
            && memory.index == (if Foreigners(input.category, input.categories) then old(memory.index)
                                else DroppedAll(old(memory.index), Stale(old(memory.Contents()), asked), stuck))
            && (r.Some? && (found.Some? ==> DistinctHits(found.value)) ==>
                  Reply(w, old(memory.Contents()), asked, input, keyword, r.value))
  {
    var k := input.topK;
    if k <= 0 { k := 5; }
    ghost var m := memory.Contents();
    var names := NormalizeCategories(input.category, input.categories);
    keyword := [];
    if names.None? { return None, []; }
    ghost var asked := if input.query != "" && searches && memory.available then found else None;
    ViewKeyed(memory.store.data);
    if found.Some? ==> DistinctHits(found.value) {
      SemanticIsRelevant(w, m, k, asked, input.scopes, names.value);
    }
    var entries := SearchFirst(memory, searches, w, k, input, names.value, found, stuck);
    r, keyword := FromStore(memory.store, w, now, k, input, names.value, entries, failing);
  }

  predicate Fails(w: Weight, m: EntryMap, asked: Option<seq<SearchResult>>, input: QueryInput, failing: set<Option<string>>) {
    var names := Names(input.category, input.categories);
    QueryFails(names, input, Semantic(w, m, Limit(input.topK), asked, input.scopes, names), failing)
  }

  /** What the handler owes its caller: the semantic answer, the nearest hits, and what the store completes it with. */
  ghost predicate Reply(w: Weight, m: EntryMap, asked: Option<seq<SearchResult>>, input: QueryInput, keyword: seq<Entry>,
                        r: seq<Entry>)
  {
    var semantic := Semantic(w, m, Limit(input.topK), asked, input.scopes, Names(input.category, input.categories));
    && (asked.Some? ==>
          Nearest(w, m, Limit(input.topK), Elems(asked.value), input.scopes, Names(input.category, input.categories), semantic))
    && Completed(w, m, Names(input.category, input.categories), input, semantic, keyword, r)
  }

  /**
   What that comes to: a positive limit is kept, else five; with categories the reply fills it as far as the ids of
   both answers reach, and whatever is not semantic mentions a word of the query in one of the categories; without
   any it is the semantic answer, or the fallback's when that is empty.
   */
  lemma ReplyIs(w: Weight, m: EntryMap, asked: Option<seq<SearchResult>>, input: QueryInput, keyword: seq<Entry>, r: seq<Entry>)
    requires KeyedById(m) && Reply(w, m, asked, input, keyword, r)
    ensures var names := Names(input.category, input.categories);
            var limit := if input.topK > 0 then input.topK else 5;
            var semantic := Semantic(w, m, limit, asked, input.scopes, names);
            && |r| <= limit
            && (names != [] ==>
                  && |r| == (var n := |IdsOf(semantic) + IdsOf(keyword)|; if n < limit then n else limit)
                  && forall e | e in r && e !in semantic :: AnyHit(m, names, input.scopes, input.query, e))
            && (names == [] && semantic != [] ==> r == semantic)
            && (names == [] && semantic == [] && NoDup(input.scopes) && Rankable(w, m, FallbackRequest(input)) ==>
                  if input.category != "" then forall e | e in r :: WordHit(m, input.category, input.scopes, input.query, e)
                  else r == Answer(w, m, Request(None, input.scopes, Anything), limit))
  {
    var names, k := Names(input.category, input.categories), Limit(input.topK);
    var semantic := Semantic(w, m, k, asked, input.scopes, names);
    if names == [] && input.category != "" && Rankable(w, m, FallbackRequest(input)) {
      WordsFind(m, input.category, input.scopes, input.query);
      AnswerMembers(w, m, WordRequest(input.category, input.scopes, input.query), k);
      MembersOf(Answer(w, m, WordRequest(input.category, input.scopes, input.query), k));
    }
    if names != [] {
      AcrossFinds(m, names, input.scopes, input.query);
      TopKElems(k, semantic + NewOnes(IdsOf(semantic), keyword));
      forall e | e in r && e !in semantic ensures AnyHit(m, names, input.scopes, input.query, e) {
        assert e in Elems(r);
        assert e in NewOnes(IdsOf(semantic), keyword);
        NewOnesFrom(IdsOf(semantic), keyword, e);
        assert e in Elems(keyword);
      }
    }
  }
}
