/** The stored entry, the buckets it lives in, and what a query selects. */
module Entries {
  import opened Text

  datatype Option<+T> = None | Some(value: T)

  /** Nanoseconds since the zero `time.Time`; 0 is the zero time itself. */
  type Time = int

  datatype Entry = Entry(
    id: string,
    content: string,
    tags: seq<string>,
    category: string,
    scope: string,
    score: real,
    hitCount: int,
    lastHit: Time,
    created: Time,
    source: string)

  const GLOBAL_SCOPE := "global"

  predicate IsAllowedCategory(category: string) {
    category in {"avoidance", "security", "syntax", "architecture", "domain"}
  }

  predicate IsMandatoryCategory(category: string) {
    category in {"avoidance", "security"}
  }

  function NormalizedScope(scope: string): string {
    if scope == "" then GLOBAL_SCOPE else scope
  }

  /** One category file of one scope. */
  datatype Bucket = Bucket(scope: string, category: string)

  /** The bucket an entry belongs in. */
  function Home(e: Entry): Bucket {
    Bucket(NormalizedScope(e.scope), e.category)
  }

  function IdsOf(entries: seq<Entry>): set<string> {
    set e | e in entries :: e.id
  }

  lemma IdsOfPrefix(es: seq<Entry>, i: nat)
    requires i < |es|
    ensures IdsOf(es[..i + 1]) == IdsOf(es[..i]) + {es[i].id}
  {}

  lemma IdsSnoc(es: seq<Entry>, e: Entry)
    ensures IdsOf(es + [e]) == IdsOf(es) + {e.id}
  {}

  ghost predicate DistinctEntries(es: seq<Entry>) {
    forall i, j | 0 <= i < j < |es| :: es[i].id != es[j].id
  }

  // ---------- selection ----------

  /** Keyword terms and required tags arrive in lower case. */
  datatype Criteria = Anything | Keywords(terms: seq<string>) | Tags(required: seq<string>)

  predicate Meets(c: Criteria, e: Entry) {
    match c
    case Anything => true
    case Keywords(terms) =>
      terms == []
      || (exists t | t in terms :: Contains(ToLower(e.content), t))
      || (exists tag, t | tag in e.tags && t in terms :: Contains(ToLower(tag), t))
    case Tags(required) =>
      forall r | r in required :: exists tag | tag in e.tags :: ToLower(tag) == r
  }

  /** No category means every category; no scopes means every scope. */
  datatype Request = Request(category: Option<string>, scopes: seq<string>, criteria: Criteria)

  predicate InCategory(q: Request, e: Entry) {
    q.category.None? || e.category == q.category.value
  }

  predicate Wants(q: Request, e: Entry) {
    && InCategory(q, e)
    && (q.scopes == [] || NormalizedScope(e.scope) in q.scopes)
    && Meets(q.criteria, e)
  }

  /** The abstract contents of every store: one entry for each id. */
  type EntryMap = map<string, Entry>

  ghost predicate KeyedById(m: EntryMap) {
    forall id | id in m :: m[id].id == id
  }

  ghost function Matching(m: EntryMap, q: Request): set<Entry> {
    set id | id in m && Wants(q, m[id]) :: m[id]
  }

  ghost predicate DistinctIds(es: set<Entry>) {
    forall a, b | a in es && b in es && a.id == b.id :: a == b
  }
}
