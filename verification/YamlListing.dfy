/** The order in which the YAML store gathers candidates, and that they are exactly the matching entries. */
module YamlListing {
  import opened Entries
  import opened Selection
  import opened StableSort
  import opened YamlState
  import Text

  /** The entries of the listed buckets, one after another; an unknown bucket contributes nothing. */
  function Gather(d: Buckets, bs: seq<Bucket>): seq<Entry> {
    if bs == [] then [] else Gather(d, bs[..|bs| - 1]) + In(d, bs[|bs| - 1])
  }

  function CategoriesIn(d: Buckets, scope: string): set<string> {
    set b | b in d && b.scope == scope :: b.category
  }

  function Under(scope: string, categories: seq<string>): seq<Bucket> {
    seq(|categories|, i requires 0 <= i < |categories| => Bucket(scope, categories[i]))
  }

  /** Scopes in the order given, the categories of each in name order. */
  ghost function BucketsOf(d: Buckets, scopes: seq<string>): seq<Bucket> {
    if scopes == [] then [] else
      var scope := scopes[|scopes| - 1];
      BucketsOf(d, scopes[..|scopes| - 1]) + Under(scope, Rank(Text.Alphabetical(), CategoriesIn(d, scope)))
  }

  /** The one file of a category in each scope. */
  function Across(scopes: seq<string>, category: string): seq<Bucket> {
    seq(|scopes|, i requires 0 <= i < |scopes| => Bucket(scopes[i], category))
  }

  /** The scopes a query covers: those requested, or all configured ones in name order. */
  ghost function Covered(configured: set<string>, requested: seq<string>): seq<string> {
    if requested != [] then requested else Rank(Text.Alphabetical(), configured)
  }

  lemma NameRank(names: set<string>)
    ensures var r := Rank(Text.Alphabetical(), names); NoDup(r) && Elems(r) == names
  {
    AlphabeticalIsStrict(names);
    RankIsAscending(Text.Alphabetical(), names);
  }

  lemma CoveredIsDistinct(configured: set<string>, requested: seq<string>)
    requires NoDup(requested)
    ensures NoDup(Covered(configured, requested))
    ensures requested == [] ==> Elems(Covered(configured, requested)) == configured
  {
    NameRank(configured);
  }

  lemma {:induction false} GatherMember(d: Buckets, bs: seq<Bucket>, e: Entry)
    ensures e in Gather(d, bs) <==> exists b, i :: b in bs && At(d, b, i) && d[b][i] == e
  {
    if bs != [] {
      var front, last := bs[..|bs| - 1], bs[|bs| - 1];
      GatherMember(d, front, e);
      assert bs == front + [last];
      if e in In(d, last) {
        var i :| 0 <= i < |In(d, last)| && In(d, last)[i] == e;
        assert last in bs && At(d, last, i);
      }
    }
  }

  lemma {:induction false} GatherConcat(d: Buckets, bs: seq<Bucket>, cs: seq<Bucket>)
    ensures Gather(d, bs + cs) == Gather(d, bs) + Gather(d, cs)
  {
    if cs == [] {
      assert bs + cs == bs;
    } else {
      assert (bs + cs)[..|bs + cs| - 1] == bs + cs[..|cs| - 1];
      GatherConcat(d, bs, cs[..|cs| - 1]);
    }
  }

  lemma {:induction false} GatherNoDup(d: Buckets, bs: seq<Bucket>)
    requires UniqueIds(d) && NoDup(bs)
    ensures NoDup(Gather(d, bs))
  {
    if bs != [] {
      var front, last := bs[..|bs| - 1], bs[|bs| - 1];
      var g, own := Gather(d, front), In(d, last);
      GatherNoDup(d, front);
      assert forall k | 0 <= k < |own| :: Holds(d, own[k].id, last, k);
      forall j, k | 0 <= j < |g| && 0 <= k < |own| ensures g[j] != own[k] {
        GatherMember(d, front, g[j]);
        var b, i :| b in front && At(d, b, i) && d[b][i] == g[j];
        assert Holds(d, g[j].id, b, i);
      }
    }
  }

  lemma {:induction false} BucketsOfMember(d: Buckets, scopes: seq<string>, b: Bucket)
    ensures b in BucketsOf(d, scopes) <==> b in d && b.scope in scopes
  {
    if scopes != [] {
      var front, last := scopes[..|scopes| - 1], scopes[|scopes| - 1];
      BucketsOfMember(d, front, b);
      assert scopes == front + [last];
      var names := Rank(Text.Alphabetical(), CategoriesIn(d, last));
      NameRank(CategoriesIn(d, last));
      assert b in Under(last, names) <==> b.scope == last && b.category in Elems(names) by {
        if b.scope == last && b.category in Elems(names) {
          var i :| 0 <= i < |names| && names[i] == b.category;
          assert Under(last, names)[i] == b;
        }
      }
    }
  }

  lemma {:induction false} BucketsOfNoDup(d: Buckets, scopes: seq<string>)
    requires NoDup(scopes)
    ensures NoDup(BucketsOf(d, scopes))
  {
    if scopes != [] {
      var front, last := scopes[..|scopes| - 1], scopes[|scopes| - 1];
      BucketsOfNoDup(d, front);
      NameRank(CategoriesIn(d, last));
      var g := BucketsOf(d, front);
      forall j | 0 <= j < |g| ensures g[j].scope in front { BucketsOfMember(d, front, g[j]); }
    }
  }

  /** Buckets that cover a request in a well-formed store yield exactly the matching entries, once each. */
  lemma GatherMatches(s: State, bs: seq<Bucket>, q: Request, p: Entry -> bool)
    requires WellFormed(s) && NoDup(bs)
    requires forall b | b in s.data && b in bs :: q.scopes == [] || b.scope in q.scopes
    requires forall b | b in s.data && (q.scopes == [] || b.scope in q.scopes)
                        && (q.category.None? || b.category == q.category.value) :: b in bs
    requires forall e | e in Gather(s.data, bs) :: p(e) == Selects(q.category, q.criteria)(e)
    ensures var r := Filter(p, Gather(s.data, bs)); NoDup(r) && Elems(r) == Matching(View(s.data), q)
  {
    var d, g := s.data, Gather(s.data, bs);
    GatherNoDup(d, bs);
    FilterNoDup(p, g);
    forall e ensures e in Elems(Filter(p, g)) <==> e in Matching(View(d), q) {
      FilterMembers(p, g, e);
      GatherMember(d, bs, e);
      if e in g && p(e) {
        var b, i :| b in bs && At(d, b, i) && d[b][i] == e;
        ViewAt(d, b, i);
      }
      if e in Matching(View(d), q) {
        var b, i := ViewPlace(d, e.id);
        assert Home(d[b][i]) == b;
      }
    }
  }

  lemma ScopesCover(s: State, q: Request)
    requires WellFormed(s) && NoDup(q.scopes)
    ensures var r := Filter(Selects(q.category, q.criteria), Gather(s.data, BucketsOf(s.data, Covered(s.scopes, q.scopes))));
            NoDup(r) && Elems(r) == Matching(View(s.data), q)
  {
    var scopes := Covered(s.scopes, q.scopes);
    var bs := BucketsOf(s.data, scopes);
    CoveredIsDistinct(s.scopes, q.scopes);
    BucketsOfNoDup(s.data, scopes);
    forall b | b in s.data ensures b in bs <==> q.scopes == [] || b.scope in q.scopes {
      BucketsOfMember(s.data, scopes, b);
      assert b.scope in scopes <==> b.scope in Elems(scopes);
    }
    GatherMatches(s, bs, q, Selects(q.category, q.criteria));
  }

  /** The category's own files need no test of the category. */
  lemma CategoryCovers(s: State, q: Request)
    requires WellFormed(s) && NoDup(q.scopes) && q.category.Some?
    ensures var r := Filter(Selects(None, q.criteria), Gather(s.data, Across(Covered(s.scopes, q.scopes), q.category.value)));
            NoDup(r) && Elems(r) == Matching(View(s.data), q)
  {
    var scopes := Covered(s.scopes, q.scopes);
    var bs := Across(scopes, q.category.value);
    CoveredIsDistinct(s.scopes, q.scopes);
    forall b | b in s.data && (q.scopes == [] || b.scope in q.scopes) && b.category == q.category.value ensures b in bs {
      assert b.scope in Elems(scopes);
      var i :| 0 <= i < |scopes| && scopes[i] == b.scope;
      assert bs[i] == b;
    }
    forall b | b in s.data && b in bs ensures q.scopes == [] || b.scope in q.scopes {
      assert b.scope in scopes;
    }
    var p := Selects(None, q.criteria);
    forall e | e in Gather(s.data, bs) ensures p(e) == Selects(q.category, q.criteria)(e) {
      GatherMember(s.data, bs, e);
      var b, i :| b in bs && At(s.data, b, i) && s.data[b][i] == e;
      assert Home(s.data[b][i]) == b;
    }
    GatherMatches(s, bs, q, p);
  }

  /** Even with a scope asked for twice, only matching entries are gathered. */
  lemma CategoryWithin(s: State, q: Request)
    requires WellFormed(s) && q.category.Some?
    ensures Elems(Filter(Selects(None, q.criteria), Gather(s.data, Across(Covered(s.scopes, q.scopes), q.category.value))))
         <= Matching(View(s.data), q)
  {
    var bs, p := Across(Covered(s.scopes, q.scopes), q.category.value), Selects(None, q.criteria);
    forall e | e in Elems(Filter(p, Gather(s.data, bs))) ensures e in Matching(View(s.data), q) {
      FilterMembers(p, Gather(s.data, bs), e);
      GatherMember(s.data, bs, e);
      var b, i :| b in bs && At(s.data, b, i) && s.data[b][i] == e;
      ViewAt(s.data, b, i);
      assert Home(s.data[b][i]) == b;
    }
  }

  /** What Get searches is what the store contains. */
  lemma EverythingIsListed(s: State, entries: seq<Entry>)
    requires WellFormed(s) && entries == Gather(s.data, BucketsOf(s.data, Covered(s.scopes, [])))
    ensures forall e | e in entries :: e.id in View(s.data) && View(s.data)[e.id] == e
    ensures forall id | id in View(s.data) :: View(s.data)[id] in entries
  {
    var q := Request(None, [], Anything);
    FilterAll(Selects(None, Anything), entries);
    ScopesCover(s, q);
    ViewKeyed(s.data);
    EverythingMatches(View(s.data), entries);
  }

  lemma EverythingMatches(m: EntryMap, entries: seq<Entry>)
    requires KeyedById(m) && Elems(entries) == Matching(m, Request(None, [], Anything))
    ensures forall e | e in entries :: e.id in m && m[e.id] == e
    ensures forall id | id in m :: m[id] in entries
  {
    forall e | e in entries ensures e.id in m && m[e.id] == e { assert e in Elems(entries); }
    forall id | id in m ensures m[id] in entries {
      assert Wants(Request(None, [], Anything), m[id]);
      assert m[id] in Elems(entries);
    }
  }
}
