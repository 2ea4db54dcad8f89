/** The in-memory snapshot: an unordered map whose answers must not show its order. */
module SnapshotStore {
  import opened Entries
  import opened Heads
  import opened Ranking
  import opened Selection
  import opened StableSort

  /** The snapshot compares an entry's own scope, without the default for an empty one. */
  ghost function InScopes(m: EntryMap, scopes: seq<string>): set<Entry> {
    set id | id in m && (scopes == [] || m[id].scope in scopes) :: m[id]
  }

  ghost predicate ExplicitScopes(m: EntryMap) {
    forall id | id in m :: m[id].scope != ""
  }

  /** The snapshot and the YAML store read every scope list alike exactly when no entry leaves its scope empty. */
  lemma ScopesReadAlikeIff(m: EntryMap)
    ensures (forall scopes: seq<string> :: InScopes(m, scopes) == Matching(m, Request(None, scopes, Anything)))
       <==> ExplicitScopes(m)
  {
    if ExplicitScopes(m) {
      forall scopes: seq<string> ensures InScopes(m, scopes) == Matching(m, Request(None, scopes, Anything)) {}
    } else {
      var id :| id in m && m[id].scope == "";
      var q := Request(None, [GLOBAL_SCOPE], Anything);
      assert m[id] in Matching(m, q);
      assert m[id] !in InScopes(m, [GLOBAL_SCOPE]);
    }
  }

  /** The entries a snapshot selects, by its own reading of scopes. */
  ghost function Picked(m: EntryMap, q: Request): set<Entry> {
    set e | e in InScopes(m, q.scopes) && Selects(q.category, q.criteria)(e)
  }

  /** r is the ranked, truncated selection, whatever order the map was visited in. */
  ghost predicate Replies(w: Weight, m: EntryMap, q: Request, k: int, r: seq<Entry>) {
    Gapped(w, Picked(m, q)) ==> r == TopK(k, Rank(Order(w), Picked(m, q)))
  }

  /** Without empty scopes that is the reference answer. */
  lemma RepliesAreAnswers(w: Weight, m: EntryMap, q: Request, k: int, r: seq<Entry>)
    requires ExplicitScopes(m) && Replies(w, m, q, k, r)
    ensures Answers(w, m, q, k, r)
  {
    forall e ensures e in Picked(m, q) <==> e in Matching(m, q) {}
    assert Picked(m, q) == Matching(m, q);
  }

  lemma SortedReply(w: Weight, m: EntryMap, q: Request, k: int, base: seq<Entry>)
    requires KeyedById(m) && NoDup(base) && Elems(base) == InScopes(m, q.scopes)
    ensures var r := TopK(k, Sort(Comparator(w), Filter(Selects(q.category, q.criteria), base)));
            Replies(w, m, q, k, r) && Elems(r) <= Picked(m, q) && (k <= 0 ==> Elems(r) == Picked(m, q))
  {
    var p := Selects(q.category, q.criteria);
    var out := Filter(p, base);
    FilterNoDup(p, base);
    forall e ensures e in Elems(out) <==> e in Picked(m, q) {
      FilterMembers(p, base, e);
      assert e in base <==> e in Elems(base);
    }
    assert Elems(out) == Picked(m, q);
    SortMembers(Comparator(w), out);
    TopKElems(k, Sort(Comparator(w), out));
    if Gapped(w, Picked(m, q)) { SortedIsRanked(w, out); }
  }

  /** What a keyword query picks: the snapshot's own reading of scopes, any word of the query. */
  ghost predicate PicksWords(m: EntryMap, category: string, scopes: seq<string>, query: string, e: Entry) {
    e.id in m && m[e.id] == e && e.category == category && (scopes == [] || e.scope in scopes) && MentionsAny(e, query)
  }

  lemma WordsPicked(m: EntryMap, category: string, scopes: seq<string>, query: string, r: seq<Entry>)
    requires KeyedById(m)
    ensures Elems(r) <= Picked(m, WordRequest(category, scopes, query)) ==>
              forall e | e in r :: PicksWords(m, category, scopes, query, e)
    ensures Elems(r) == Picked(m, WordRequest(category, scopes, query)) ==>
              forall e | PicksWords(m, category, scopes, query, e) :: e in r
  {
    var q := WordRequest(category, scopes, query);
    forall e ensures e in Picked(m, q) <==> PicksWords(m, category, scopes, query, e) { WordsDecide(e, query); }
    assert forall e :: e in r <==> e in Elems(r);
  }

  lemma TagsPicked(m: EntryMap, category: string, tags: seq<string>, r: seq<Entry>)
    requires KeyedById(m) && Elems(r) == Picked(m, TagRequest(category, tags))
    ensures forall e :: e in r <==> TagHit(m, category, tags, e)
  {
    var q := TagRequest(category, tags);
    forall e ensures e in Picked(m, q) <==> TagHit(m, category, tags, e) { TagsDecide(e, tags); }
    assert forall e :: e in r <==> e in Elems(r);
  }

  function FromList(list: seq<Entry>): EntryMap {
    if list == [] then map[] else
      var last := list[|list| - 1];
      FromList(list[..|list| - 1])[last.id := last]
  }

  lemma {:induction false} FromListKeys(list: seq<Entry>)
    ensures FromList(list).Keys == IdsOf(list)
  {
    if list != [] {
      var front, last := list[..|list| - 1], list[|list| - 1];
      assert list == front + [last];
      FromListKeys(front);
      IdsSnoc(front, last);
    }
  }

  lemma {:induction false} FromListHolds(list: seq<Entry>, m: EntryMap, id: string)
    requires (forall e | e in list :: e.id in m && m[e.id] == e) && id in FromList(list)
    ensures id in m && FromList(list)[id] == m[id]
  {
    var front, last := list[..|list| - 1], list[|list| - 1];
    if id != last.id { FromListHolds(front, m, id); }
  }

  /** A snapshot of everything a store lists holds exactly what the store holds. */
  lemma SnapshotOfAll(m: EntryMap, list: seq<Entry>)
    requires KeyedById(m) && NoDup(list) && Elems(list) == m.Values
    ensures FromList(list) == m
  {
    FromListKeys(list);
    forall e | e in list ensures e.id in m && m[e.id] == e { assert e in Elems(list); }
    forall id | id in FromList(list) ensures id in m && FromList(list)[id] == m[id] { FromListHolds(list, m, id); }
    forall id | id in m ensures id in IdsOf(list) {
      assert m[id] in m.Values;
      assert m[id] in Elems(list) && m[id].id == id;
    }
  }

  class Snapshot {
    var entries: EntryMap

    ghost predicate Valid()
      reads this
    {
      KeyedById(entries)
    }

    constructor (list: seq<Entry>)
      ensures Valid() && entries == FromList(list)
    {
      entries := map[];
      new;
      for i := 0 to |list|
        invariant entries == FromList(list[..i]) && Valid()
      {
        assert list[..i + 1][..i] == list[..i];
        entries := entries[list[i].id := list[i]];
      }
      assert list[..|list|] == list;
    }

    /** Visits the map in no particular order. */
    method EntriesForScopes(scopes: seq<string>) returns (out: seq<Entry>)
      requires Valid()
      ensures NoDup(out) && Elems(out) == InScopes(entries, scopes)
    {
      out := [];
      var todo := entries.Keys;
      while todo != {}
        invariant todo <= entries.Keys && NoDup(out)
        invariant Elems(out) == set id | id in entries && id !in todo && (scopes == [] || entries[id].scope in scopes) :: entries[id]
      {
        var id :| id in todo;
        todo := todo - {id};
        if scopes == [] || entries[id].scope in scopes {
          assert entries[id] !in Elems(out);
          ElemsSnoc(out, entries[id]);
          out := out + [entries[id]];
        }
      }
    }

    /** Filter, sort, truncate. */
    method Respond(w: Weight, category: Option<string>, criteria: Criteria, topK: int, scopes: seq<string>)
      returns (r: seq<Entry>)
      requires Valid()
      ensures var q := Request(category, scopes, criteria);
              && Replies(w, entries, q, topK, r) && (ExplicitScopes(entries) ==> Answers(w, entries, q, topK, r))
              && Elems(r) <= Picked(entries, q) && (topK <= 0 ==> Elems(r) == Picked(entries, q))
    {
      ghost var q := Request(category, scopes, criteria);
      var base := EntriesForScopes(scopes);
      var out := Selected(base, category, criteria);
      r := Ranked(w, out);
      if topK > 0 && |r| > topK { r := r[..topK]; }
      SortedReply(w, entries, q, topK, base);
      if ExplicitScopes(entries) { RepliesAreAnswers(w, entries, q, topK, r); }
    }

    method All(w: Weight, scopes: seq<string>) returns (r: seq<Entry>)
      requires Valid()
      ensures var q := Request(None, scopes, Anything);
              Replies(w, entries, q, 0, r) && (ExplicitScopes(entries) ==> Answers(w, entries, q, 0, r))
    {
      r := Respond(w, None, Anything, 0, scopes);
    }

    method AllByCategory(w: Weight, category: string, topK: int, scopes: seq<string>) returns (r: seq<Entry>)
      requires Valid()
      ensures var q := Request(Some(category), scopes, Anything);
              Replies(w, entries, q, topK, r) && (ExplicitScopes(entries) ==> Answers(w, entries, q, topK, r))
    {
      r := Respond(w, Some(category), Anything, topK, scopes);
    }

    method QueryByCategory(w: Weight, category: string, query: string, topK: int, scopes: seq<string>)
      returns (r: seq<Entry>)
      requires Valid()
      ensures var q := WordRequest(category, scopes, query);
              Replies(w, entries, q, topK, r) && (ExplicitScopes(entries) ==> Answers(w, entries, q, topK, r))
      ensures forall e | e in r :: PicksWords(entries, category, scopes, query, e)
      ensures topK <= 0 ==> forall e | PicksWords(entries, category, scopes, query, e) :: e in r
    {
      r := Respond(w, Some(category), Keywords(Terms(query)), topK, scopes);
      WordsPicked(entries, category, scopes, query, r);
    }

    method Query(w: Weight, category: string, tags: seq<string>) returns (r: seq<Entry>)
      requires Valid()
      ensures var q := TagRequest(category, tags);
              Replies(w, entries, q, 0, r) && (ExplicitScopes(entries) ==> Answers(w, entries, q, 0, r))
      ensures forall e :: e in r <==> TagHit(entries, category, tags, e)
    {
      r := Respond(w, CategoryFilter(category), Tags(Lowered(tags)), 0, []);
      TagsPicked(entries, category, tags, r);
    }

    method ListHeads(scopes: seq<string>) returns (heads: seq<HeadInfo>)
      requires Valid()
      ensures heads == Rank(ByName(), HeadSet(InScopes(entries, scopes)))
      ensures ExplicitScopes(entries) ==>
                heads == Rank(ByName(), HeadSet(Matching(entries, Request(None, scopes, Anything))))
    {
      var found := EntriesForScopes(scopes);
      heads := CountHeads(found);
      ScopesReadAlikeIff(entries);
    }
  }
}
