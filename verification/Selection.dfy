/** The filtering loops the stores share, and what they select. */
module Selection {
  import opened Entries
  import opened StableSort
  import Text

  /** The test a query applies to each candidate. */
  function Selects(category: Option<string>, criteria: Criteria): Entry -> bool {
    (e: Entry) => (category.None? || e.category == category.value) && Meets(criteria, e)
  }

  /** An empty category means any. */
  function CategoryFilter(category: string): Option<string> {
    if category == "" then None else Some(category)
  }

  /** The words of a keyword query. */
  function Terms(query: string): seq<string> {
    Text.Fields(Text.ToLower(query))
  }

  function Lowered(tags: seq<string>): seq<string> {
    seq(|tags|, i requires 0 <= i < |tags| => Text.ToLower(tags[i]))
  }

  function WordRequest(category: string, scopes: seq<string>, query: string): Request {
    Request(Some(category), scopes, Keywords(Terms(query)))
  }

  function TagRequest(category: string, tags: seq<string>): Request {
    Request(CategoryFilter(category), [], Tags(Lowered(tags)))
  }

  // ---------- the loops ----------

  /** Any of the terms, in the content or in a tag. */
  method KeywordMatch(e: Entry, terms: seq<string>) returns (r: bool)
    ensures r <==> Meets(Keywords(terms), e)
  {
    if |terms| == 0 { return true; }
    var content := Text.ToLower(e.content);
    r := AnyOccurs(content, terms);
    if r { return; }
    for i := 0 to |e.tags|
      invariant forall j, t | 0 <= j < i && t in terms :: !Text.Contains(Text.ToLower(e.tags[j]), t)
    {
      r := AnyOccurs(Text.ToLower(e.tags[i]), terms);
      if r { return; }
    }
  }

  method AnyOccurs(s: string, terms: seq<string>) returns (r: bool)
    ensures r <==> exists t | t in terms :: Text.Contains(s, t)
  {
    for i := 0 to |terms|
      invariant forall j | 0 <= j < i :: !Text.Contains(s, terms[j])
    {
      if Text.Contains(s, terms[i]) { return true; }
    }
    r := false;
  }

  /** All of the required tags. */
  method TagsMatch(e: Entry, required: seq<string>) returns (r: bool)
    ensures r <==> Meets(Tags(required), e)
  {
    if |required| == 0 { return true; }
    var folded: set<string> := {};
    for i := 0 to |e.tags|
      invariant forall t :: t in folded <==> exists j | 0 <= j < i :: Text.ToLower(e.tags[j]) == t
    {
      folded := folded + {Text.ToLower(e.tags[i])};
    }
    for i := 0 to |required|
      invariant forall j | 0 <= j < i :: required[j] in folded
    {
      assert required[i] in required;
      if required[i] !in folded { return false; }
    }
    r := true;
  }

  method Fits(criteria: Criteria, e: Entry) returns (r: bool)
    ensures r <==> Meets(criteria, e)
  {
    match criteria
    case Anything => r := true;
    case Keywords(terms) => r := KeywordMatch(e, terms);
    case Tags(required) => r := TagsMatch(e, required);
  }

  method Selected(es: seq<Entry>, category: Option<string>, criteria: Criteria) returns (out: seq<Entry>)
    ensures out == Filter(Selects(category, criteria), es)
  {
    out := [];
    for i := 0 to |es|
      invariant out == Filter(Selects(category, criteria), es[..i])
    {
      assert es[..i + 1][..i] == es[..i];
      if category.Some? && es[i].category != category.value { continue; }
      var fits := Fits(criteria, es[i]);
      if !fits { continue; }
      out := out + [es[i]];
    }
    assert es[..|es|] == es;
  }

  // ---------- what a query finds ----------

  /** The word can be cut out of the entry's content or of one of its tags, in any case. */
  ghost predicate Mentions(e: Entry, word: string) {
    || (exists before, after :: Text.ToLower(e.content) == before + word + after)
    || (exists i, before, after :: 0 <= i < |e.tags| && Text.ToLower(e.tags[i]) == before + word + after)
  }

  /** A query without words finds everything, another what mentions any of its words. */
  ghost predicate MentionsAny(e: Entry, query: string) {
    (forall c | c in query :: Text.IsSpace(c)) || exists word | word in Terms(query) :: Mentions(e, word)
  }

  /** The entry has the tag, in any case. */
  ghost predicate Carries(e: Entry, lowered: string) {
    exists i | 0 <= i < |e.tags| :: Text.ToLower(e.tags[i]) == lowered
  }

  /** Every tag asked for is one of the entry's. */
  ghost predicate CarriesAll(e: Entry, tags: seq<string>) {
    forall i | 0 <= i < |tags| :: Carries(e, Text.ToLower(tags[i]))
  }

  lemma MentionsIff(e: Entry, word: string)
    ensures Mentions(e, word) <==>
              Text.Contains(Text.ToLower(e.content), word) || exists tag | tag in e.tags :: Text.Contains(Text.ToLower(tag), word)
  {
    Text.ContainsIff(Text.ToLower(e.content), word);
    forall i | 0 <= i < |e.tags|
      ensures Text.Contains(Text.ToLower(e.tags[i]), word) <==>
                exists before, after :: Text.ToLower(e.tags[i]) == before + word + after
    {
      Text.ContainsIff(Text.ToLower(e.tags[i]), word);
    }
    if tag :| tag in e.tags && Text.Contains(Text.ToLower(tag), word) {
      var i :| 0 <= i < |e.tags| && e.tags[i] == tag;
      assert Text.Contains(Text.ToLower(e.tags[i]), word);
    }
  }

  lemma BlankIff(query: string)
    ensures Terms(query) == [] <==> forall c | c in query :: Text.IsSpace(c)
  {
    var low := Text.ToLower(query);
    Text.FieldsAreWords(low);
    assert forall i | 0 <= i < |query| :: Text.IsSpace(low[i]) == Text.IsSpace(query[i]);
    if forall c | c in query :: Text.IsSpace(c) {
      forall c | c in low ensures Text.IsSpace(c) { var i :| 0 <= i < |low| && low[i] == c; assert query[i] in query; }
    }
    if forall c | c in low :: Text.IsSpace(c) {
      forall c | c in query ensures Text.IsSpace(c) { var i :| 0 <= i < |query| && query[i] == c; assert low[i] in low; }
    }
  }

  /** What the keyword test decides. */
  lemma WordsDecide(e: Entry, query: string)
    ensures Meets(Keywords(Terms(query)), e) <==> MentionsAny(e, query)
  {
    BlankIff(query);
    forall word
      ensures Mentions(e, word) <==>
                Text.Contains(Text.ToLower(e.content), word) || exists tag | tag in e.tags :: Text.Contains(Text.ToLower(tag), word)
    {
      MentionsIff(e, word);
    }
  }

  lemma CarriesIff(e: Entry, t: string)
    ensures Carries(e, t) <==> exists tag | tag in e.tags :: Text.ToLower(tag) == t
  {
    if tag :| tag in e.tags && Text.ToLower(tag) == t {
      var i :| 0 <= i < |e.tags| && e.tags[i] == tag;
    }
  }

  /** What the tag test decides. */
  lemma TagsDecide(e: Entry, tags: seq<string>)
    ensures Meets(Tags(Lowered(tags)), e) <==> CarriesAll(e, tags)
  {
    var low := Lowered(tags);
    forall t ensures Carries(e, t) <==> exists tag | tag in e.tags :: Text.ToLower(tag) == t { CarriesIff(e, t); }
    assert forall i | 0 <= i < |tags| :: low[i] == Text.ToLower(tags[i]) && low[i] in low;
  }

  /** A stored entry of the category, in one of the scopes when any are given, that mentions a word of the query. */
  ghost predicate WordHit(m: EntryMap, category: string, scopes: seq<string>, query: string, e: Entry) {
    && e.id in m && m[e.id] == e && e.category == category
    && (scopes == [] || (if e.scope == "" then "global" in scopes else e.scope in scopes))
    && MentionsAny(e, query)
  }

  /** A stored entry, of the category when one is given, that has all the tags. */
  ghost predicate TagHit(m: EntryMap, category: string, tags: seq<string>, e: Entry) {
    e.id in m && m[e.id] == e && (category == "" || e.category == category) && CarriesAll(e, tags)
  }

  lemma WordsFind(m: EntryMap, category: string, scopes: seq<string>, query: string)
    requires KeyedById(m)
    ensures forall e :: e in Matching(m, WordRequest(category, scopes, query)) <==> WordHit(m, category, scopes, query, e)
  {
    forall e ensures Meets(Keywords(Terms(query)), e) <==> MentionsAny(e, query) { WordsDecide(e, query); }
  }

  lemma TagsFind(m: EntryMap, category: string, tags: seq<string>)
    requires KeyedById(m)
    ensures forall e :: e in Matching(m, TagRequest(category, tags)) <==> TagHit(m, category, tags, e)
  {
    forall e ensures Meets(Tags(Lowered(tags)), e) <==> CarriesAll(e, tags) { TagsDecide(e, tags); }
  }

  lemma MembersOf(r: seq<Entry>)
    ensures forall e :: e in r <==> e in Elems(r)
  {}

  // ---------- laws of queries ----------

  /** Two queries in one find what either finds. */
  lemma WordsUnite(m: EntryMap, category: string, scopes: seq<string>, p: string, q: string, blank: char)
    requires Text.IsSpace(blank) && Terms(p) != [] && Terms(q) != []
    ensures Matching(m, WordRequest(category, scopes, p + [blank] + q))
         == Matching(m, WordRequest(category, scopes, p)) + Matching(m, WordRequest(category, scopes, q))
  {
    TermsSplit(p, blank, q);
    forall e ensures Meets(Keywords(Terms(p) + Terms(q)), e) <==>
                       Meets(Keywords(Terms(p)), e) || Meets(Keywords(Terms(q)), e)
    {
      TermsEither(e, Terms(p), Terms(q));
    }
  }

  lemma TermsSplit(p: string, blank: char, q: string)
    requires Text.IsSpace(blank)
    ensures Terms(p + [blank] + q) == Terms(p) + Terms(q)
  {
    assert Text.ToLower(p + [blank] + q) == Text.ToLower(p) + [blank] + Text.ToLower(q);
    Text.FieldsSplit(Text.ToLower(p), blank, Text.ToLower(q));
  }

  lemma TermsEither(e: Entry, a: seq<string>, b: seq<string>)
    requires a != [] && b != []
    ensures Meets(Keywords(a + b), e) <==> Meets(Keywords(a), e) || Meets(Keywords(b), e)
  {
    assert forall t :: t in a + b <==> t in a || t in b;
  }

  /** Asking for more tags finds what both requests find. */
  lemma TagsIntersect(m: EntryMap, category: string, a: seq<string>, b: seq<string>)
    ensures Matching(m, TagRequest(category, a + b)) == Matching(m, TagRequest(category, a)) * Matching(m, TagRequest(category, b))
  {
    assert Lowered(a + b) == Lowered(a) + Lowered(b);
    forall e ensures Meets(Tags(Lowered(a + b)), e) <==> Meets(Tags(Lowered(a)), e) && Meets(Tags(Lowered(b)), e) {
      assert forall t :: t in Lowered(a + b) <==> t in Lowered(a) || t in Lowered(b);
    }
  }

  /** A query of blanks lists the category, and no tags the whole of what the category leaves. */
  lemma NothingAsked(m: EntryMap, category: string, scopes: seq<string>, query: string)
    requires forall c | c in query :: Text.IsSpace(c)
    ensures Matching(m, WordRequest(category, scopes, query)) == Matching(m, Request(Some(category), scopes, Anything))
    ensures Matching(m, TagRequest(category, [])) == Matching(m, Request(CategoryFilter(category), [], Anything))
  {
    BlankIff(query);
  }

  lemma AlphabeticalIsStrict(names: set<string>)
    ensures StrictOrder(Text.Alphabetical(), names)
  {
    var lt := Text.Alphabetical();
    forall a | a in names ensures !lt(a, a) { Text.LessIrreflexive(a); }
    forall a, b, c | a in names && b in names && c in names && lt(a, b) && lt(b, c) ensures lt(a, c) {
      Text.LessTransitive(a, b, c);
    }
    forall a, b | a in names && b in names && a != b ensures lt(a, b) || lt(b, a) { Text.LessTotal(a, b); }
  }
}
