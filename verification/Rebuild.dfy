/** What BuildIndexes leaves in an index: prune, keep or embed again, insert. */
module Rebuild {
  import opened Entries
  import opened StableSort
  import opened Vectors

  /** ListFailed is the two-table manager's alone, and FlushFailed the HNSW manager's: rebuilt in memory, but not written. */
  datatype BuildResult = Built | ListFailed | EmbeddingFailed | WrongCount | FlushFailed

  /**
   What fails in the two tables during a rebuild: the listing of the ids, the lookup of the unread ids, the
   deletion of the stuck ones and the insertion of the refused ones. Only a failed listing is reported.
   */
  datatype Failures = Failures(listing: bool, unread: set<string>, stuck: set<string>, refused: set<string>)

  const NoFailures := Failures(false, {}, {}, {})

  function TextsOf(entries: seq<Entry>): seq<string> {
    seq(|entries|, i requires 0 <= i < |entries| => entries[i].content)
  }

  /** The loop that collects the texts of a batch. */
  method Texts(entries: seq<Entry>) returns (texts: seq<string>)
    ensures texts == TextsOf(entries)
  {
    texts := [];
    for i := 0 to |entries|
      invariant texts == TextsOf(entries[..i])
    {
      texts := texts + [entries[i].content];
    }
    assert entries[..|entries|] == entries;
  }

  function Unknown(known: set<string>): Entry -> bool {
    (e: Entry) => e.id !in known
  }

  /** The entries to embed: all when forced, else those not indexed yet. */
  function Pending(entries: seq<Entry>, known: set<string>, force: bool): seq<Entry> {
    if force then entries else Filter(Unknown(known), entries)
  }

  /** The loop that collects the active ids and the entries not indexed yet. */
  method Unindexed(entries: seq<Entry>, known: set<string>) returns (active: set<string>, toEmbed: seq<Entry>)
    ensures active == IdsOf(entries) && toEmbed == Pending(entries, known, false)
  {
    active, toEmbed := {}, [];
    for i := 0 to |entries|
      invariant active == IdsOf(entries[..i]) && toEmbed == Pending(entries[..i], known, false)
    {
      assert entries[..i + 1][..i] == entries[..i];
      IdsOfSnoc(entries[..i + 1]);
      active := active + {entries[i].id};
      if entries[i].id !in known { toEmbed := toEmbed + [entries[i]]; }
    }
    assert entries[..|entries|] == entries;
  }

  function Pruned(m: VectorMap, active: set<string>): VectorMap {
    map id | id in m && id in active :: m[id]
  }

  /** Inserts the vectors in order, skipping those of the wrong size and those whose insertion fails. */
  function Overlay(dimensions: nat, m: VectorMap, es: seq<Entry>, vs: seq<Vector>, refused: set<string>): VectorMap
    requires |es| == |vs|
  {
    if es == [] then m else
      var n := |es| - 1;
      var before := Overlay(dimensions, m, es[..n], vs[..n], refused);
      if |vs[n]| == dimensions && es[n].id !in refused then before[es[n].id := vs[n]] else before
  }

  ghost predicate RightSized(dimensions: nat, vs: seq<Vector>) {
    forall v | v in vs :: |v| == dimensions
  }

  lemma IdsOfSnoc(es: seq<Entry>)
    requires es != []
    ensures IdsOf(es) == IdsOf(es[..|es| - 1]) + {es[|es| - 1].id}
  {}

  /** What the vectors that go in amount to. */
  function Landed(dimensions: nat, es: seq<Entry>, vs: seq<Vector>, refused: set<string>): VectorMap
    requires |es| == |vs|
  {
    Overlay(dimensions, map[], es, vs, refused)
  }

  /** Inserting in order is one merge. */
  lemma {:induction false} OverlayIsMerge(dimensions: nat, m: VectorMap, es: seq<Entry>, vs: seq<Vector>, refused: set<string>)
    requires |es| == |vs|
    ensures Overlay(dimensions, m, es, vs, refused) == m + Landed(dimensions, es, vs, refused)
  {
    if es == [] {
      assert m + map[] == m;
    } else {
      var n := |es| - 1;
      OverlayIsMerge(dimensions, m, es[..n], vs[..n], refused);
      var before := Landed(dimensions, es[..n], vs[..n], refused);
      assert (m + before)[es[n].id := vs[n]] == m + before[es[n].id := vs[n]];
    }
  }

  lemma {:induction false} LandedKeys(dimensions: nat, es: seq<Entry>, vs: seq<Vector>, refused: set<string>)
    requires |es| == |vs|
    ensures Landed(dimensions, es, vs, refused).Keys <= IdsOf(es) - refused
    ensures RightSized(dimensions, vs) ==> Landed(dimensions, es, vs, refused).Keys == IdsOf(es) - refused
  {
    if es != [] {
      LandedKeys(dimensions, es[..|es| - 1], vs[..|es| - 1], refused);
      IdsOfSnoc(es);
    }
  }

  /** Each distinct entry that is not refused gets its own vector. */
  lemma {:induction false} OverlayAt(dimensions: nat, m: VectorMap, es: seq<Entry>, vs: seq<Vector>, refused: set<string>, i: nat)
    requires |es| == |vs| && RightSized(dimensions, vs) && DistinctEntries(es) && i < |es| && es[i].id !in refused
    ensures var r := Overlay(dimensions, m, es, vs, refused); es[i].id in r && r[es[i].id] == vs[i]
  {
    var n := |es| - 1;
    if i < n { OverlayAt(dimensions, m, es[..n], vs[..n], refused, i); }
  }

  // ---------- the whole rebuild ----------

  /** The ids whose vectors an unforced rebuild finds in the index. */
  function Seen(m: VectorMap, bad: Failures): set<string> {
    m.Keys - bad.unread
  }

  /** The index after a rebuild that got through, with vs from its batch embedding. */
  function Rebuilt(dimensions: nat, m: VectorMap, entries: seq<Entry>, force: bool, vs: seq<Vector>, bad: Failures): VectorMap
    requires |Pending(entries, Seen(m, bad), force)| == |vs|
  {
    Overlay(dimensions, Pruned(m, IdsOf(entries) + bad.stuck), Pending(entries, Seen(m, bad), force), vs, bad.refused)
  }

  lemma NoIdsNoEntries(es: seq<Entry>)
    ensures IdsOf(es) == {} ==> es == []
  {
    if es != [] { assert es[0].id in IdsOf(es); }
  }

  /** How a rebuild over one map ends: its result and the map. */
  function BuildOutcome(dimensions: nat, m: VectorMap, entries: seq<Entry>, force: bool,
                        embed: seq<string> -> Option<seq<Vector>>, bad: Failures): (BuildResult, VectorMap)
  {
    var todo := Pending(entries, Seen(m, bad), force);
    var vs := if todo == [] then Some([]) else embed(TextsOf(todo));
    if bad.listing then (ListFailed, m)
    else if vs.None? then (EmbeddingFailed, Pruned(m, IdsOf(entries) + bad.stuck))
    else if |vs.value| != |todo| then (WrongCount, Pruned(m, IdsOf(entries) + bad.stuck))
    else (Built, Rebuilt(dimensions, m, entries, force, vs.value, bad))
  }

  /** The entries to embed are all of them, or those not known. */
  lemma PendingWithin(entries: seq<Entry>, known: set<string>, force: bool)
    ensures IdsOf(Pending(entries, known, force)) == IdsOf(entries) - if force then {} else known
  {
    PendingIds(entries, known);
  }

  /** The ids a rebuild that got through leaves. */
  lemma RebuiltKeys(dimensions: nat, m: VectorMap, entries: seq<Entry>, force: bool, vs: seq<Vector>, bad: Failures)
    requires |Pending(entries, Seen(m, bad), force)| == |vs|
    ensures var m', ids := Rebuilt(dimensions, m, entries, force, vs, bad), IdsOf(entries);
            && m.Keys * (ids + bad.stuck) <= m'.Keys <= m.Keys * bad.stuck + ids
            && (RightSized(dimensions, vs) ==> m'.Keys == m.Keys * (ids + bad.stuck) + (ids - bad.refused))
  {
    var todo := Pending(entries, Seen(m, bad), force);
    OverlayIsMerge(dimensions, Pruned(m, IdsOf(entries) + bad.stuck), todo, vs, bad.refused);
    LandedKeys(dimensions, todo, vs, bad.refused);
    PendingWithin(entries, Seen(m, bad), force);
  }

  /** Whatever its outcome, a rebuild leaves no stale id, exactly when it listed the ids and could delete them, or had none. */
  lemma OutcomeHasNoOrphansIff(dimensions: nat, m: VectorMap, entries: seq<Entry>, force: bool,
                               embed: seq<string> -> Option<seq<Vector>>, bad: Failures)
    ensures BuildOutcome(dimensions, m, entries, force, embed, bad).1.Keys <= IdsOf(entries)
       <==> m.Keys * (if bad.listing then m.Keys else bad.stuck) <= IdsOf(entries)
  {
    var todo := Pending(entries, Seen(m, bad), force);
    var vs := if todo == [] then Some([]) else embed(TextsOf(todo));
    if vs.Some? && |vs.value| == |todo| { RebuiltKeys(dimensions, m, entries, force, vs.value, bad); }
  }

  /** An embedder whose vectors, when it returns any, all have the right size. */
  ghost predicate AlwaysRightSized(dimensions: nat, embed: seq<string> -> Option<seq<Vector>>) {
    forall texts :: embed(texts).Some? ==> RightSized(dimensions, embed(texts).value)
  }

  /** Nothing stale is stuck, and nothing that is refused is missing. */
  predicate Harmless(known: set<string>, ids: set<string>, bad: Failures) {
    known * bad.stuck <= ids && ids * bad.refused <= known
  }

  /** With such an embedder a rebuild that reports success indexes exactly the entries, exactly when no failure did harm. */
  lemma OutcomeIsExactIff(dimensions: nat, m: VectorMap, entries: seq<Entry>, force: bool,
                          embed: seq<string> -> Option<seq<Vector>>, bad: Failures)
    requires AlwaysRightSized(dimensions, embed)
    ensures var (r, m') := BuildOutcome(dimensions, m, entries, force, embed, bad);
            r == Built ==> (m'.Keys == IdsOf(entries) <==> Harmless(m.Keys, IdsOf(entries), bad))
  {
    var todo := Pending(entries, Seen(m, bad), force);
    var vs := if todo == [] then Some([]) else embed(TextsOf(todo));
    if !bad.listing && vs.Some? && |vs.value| == |todo| { RebuiltIds(dimensions, m, entries, force, vs.value, bad); }
  }

  lemma RebuiltIds(dimensions: nat, m: VectorMap, entries: seq<Entry>, force: bool, vs: seq<Vector>, bad: Failures)
    requires |Pending(entries, Seen(m, bad), force)| == |vs| && RightSized(dimensions, vs)
    ensures Rebuilt(dimensions, m, entries, force, vs, bad).Keys == IdsOf(entries) <==> Harmless(m.Keys, IdsOf(entries), bad)
  {
    RebuiltKeys(dimensions, m, entries, force, vs, bad);
    var keys, ids := Rebuilt(dimensions, m, entries, force, vs, bad).Keys, IdsOf(entries);
    if keys == ids {
      forall id | id in ids * bad.refused ensures id in m.Keys { assert id in keys; }
    }
    if Harmless(m.Keys, ids, bad) {
      forall id ensures id in keys <==> id in ids {}
    }
  }

  lemma PendingIds(entries: seq<Entry>, known: set<string>)
    ensures IdsOf(Pending(entries, known, false)) == IdsOf(entries) - known
  {
    forall e ensures e in Pending(entries, known, false) <==> e in entries && e.id !in known {
      FilterMembers(Unknown(known), entries, e);
    }
    forall id ensures id in IdsOf(Pending(entries, known, false)) <==> id in IdsOf(entries) - known {
      if id in IdsOf(entries) - known {
        var e :| e in entries && e.id == id;
        assert e in Pending(entries, known, false);
      }
    }
  }

  /**
   Exactly the entries' ids are indexed, exactly when no failure did harm; an unforced rebuild keeps every
   vector it could read, and whatever was refused keeps the vector it had.
   */
  lemma RebuiltExactlyIff(dimensions: nat, m: VectorMap, entries: seq<Entry>, force: bool, vs: seq<Vector>, bad: Failures)
    requires |Pending(entries, Seen(m, bad), force)| == |vs| && RightSized(dimensions, vs)
    ensures var m' := Rebuilt(dimensions, m, entries, force, vs, bad);
            && (m'.Keys == IdsOf(entries) <==> Harmless(m.Keys, IdsOf(entries), bad))
            && (forall id | id in m && id in IdsOf(entries) && (id in bad.refused || (!force && id !in bad.unread)) ::
                  id in m' && m'[id] == m[id])
  {
    RebuiltIds(dimensions, m, entries, force, vs, bad);
    var todo := Pending(entries, Seen(m, bad), force);
    OverlayIsMerge(dimensions, Pruned(m, IdsOf(entries) + bad.stuck), todo, vs, bad.refused);
    LandedKeys(dimensions, todo, vs, bad.refused);
    PendingWithin(entries, Seen(m, bad), force);
  }

  lemma FreshIsLanded(dimensions: nat, m: VectorMap, entries: seq<Entry>, vs: seq<Vector>)
    requires |entries| == |vs| && RightSized(dimensions, vs)
    ensures Rebuilt(dimensions, m, entries, true, vs, NoFailures) == Landed(dimensions, entries, vs, {})
  {
    LandedKeys(dimensions, entries, vs, {});
    OverlayIsMerge(dimensions, Pruned(m, IdsOf(entries)), entries, vs, {});
    assert Pruned(m, IdsOf(entries) + {}) == Pruned(m, IdsOf(entries));
  }

  /** When no statement fails, a forced rebuild holds fresh vectors only: overwrite-and-prune is clear-and-rebuild. */
  lemma ForcedIsFresh(dimensions: nat, m: VectorMap, entries: seq<Entry>, vs: seq<Vector>)
    requires |entries| == |vs| && RightSized(dimensions, vs)
    ensures var m' := Rebuilt(dimensions, m, entries, true, vs, NoFailures);
            && m' == Rebuilt(dimensions, map[], entries, true, vs, NoFailures)
            && (DistinctEntries(entries) ==> forall i | 0 <= i < |entries| :: entries[i].id in m' && m'[entries[i].id] == vs[i])
  {
    FreshIsLanded(dimensions, m, entries, vs);
    FreshIsLanded(dimensions, map[], entries, vs);
    if DistinctEntries(entries) {
      forall i | 0 <= i < |entries|
        ensures var m' := Landed(dimensions, entries, vs, {}); entries[i].id in m' && m'[entries[i].id] == vs[i]
      {
        OverlayAt(dimensions, map[], entries, vs, {}, i);
      }
    }
  }

  /** An unforced rebuild without failures right after one that did no harm embeds nothing and changes nothing. */
  lemma RebuiltIdempotent(dimensions: nat, m: VectorMap, entries: seq<Entry>, force: bool, vs: seq<Vector>, bad: Failures)
    requires |Pending(entries, Seen(m, bad), force)| == |vs| && RightSized(dimensions, vs)
    requires Harmless(m.Keys, IdsOf(entries), bad)
    ensures var once := Rebuilt(dimensions, m, entries, force, vs, bad);
            && Pending(entries, Seen(once, NoFailures), false) == []
            && Rebuilt(dimensions, once, entries, false, [], NoFailures) == once
  {
    var once := Rebuilt(dimensions, m, entries, force, vs, bad);
    RebuiltExactlyIff(dimensions, m, entries, force, vs, bad);
    PendingIds(entries, Seen(once, NoFailures));
    NoIdsNoEntries(Pending(entries, Seen(once, NoFailures), false));
    assert Pruned(once, IdsOf(entries) + {}) == once;
  }

  // ---------- which text is embedded ----------

  /** The vectors are what a single-text embedder returns for each of the texts, all of the right size. */
  ghost predicate EachOf(dimensions: nat, one: string -> Option<Vector>, texts: seq<string>, vs: seq<Vector>) {
    |vs| == |texts| && forall i | 0 <= i < |vs| :: one(texts[i]) == Some(vs[i]) && |vs[i]| == dimensions
  }

  /** A batch embedder that embeds text by text. */
  ghost predicate Batches(dimensions: nat, one: string -> Option<Vector>, embed: seq<string> -> Option<seq<Vector>>) {
    forall texts :: embed(texts).Some? ==> EachOf(dimensions, one, texts, embed(texts).value)
  }

  lemma {:induction false} FilterKeepsDistinct(p: Entry -> bool, es: seq<Entry>)
    requires DistinctEntries(es)
    ensures DistinctEntries(Filter(p, es)) && forall e | e in Filter(p, es) :: e in es
  {
    if es != [] {
      var n := |es| - 1;
      FilterKeepsDistinct(p, es[..n]);
      forall e | e in Filter(p, es[..n]) ensures e.id != es[n].id && e in es {
        var j :| 0 <= j < n && es[..n][j] == e;
        assert es[j] == e;
      }
    }
  }

  /** Inserting a batch gives an entry that is in it, and not refused, the vector of its own content. */
  lemma BatchGives(dimensions: nat, m: VectorMap, todo: seq<Entry>, one: string -> Option<Vector>, vs: seq<Vector>,
                   refused: set<string>, e: Entry)
    requires DistinctEntries(todo) && EachOf(dimensions, one, TextsOf(todo), vs) && e in todo && e.id !in refused
    ensures var r := Overlay(dimensions, m, todo, vs, refused);
            e.id in r && |r[e.id]| == dimensions && one(e.content) == Some(r[e.id])
  {
    var i :| 0 <= i < |todo| && todo[i] == e;
    assert RightSized(dimensions, vs);
    assert TextsOf(todo)[i] == e.content;
    OverlayAt(dimensions, m, todo, vs, refused, i);
  }

  /** And leaves alone whoever is not in it. */
  lemma BatchSpares(dimensions: nat, m: VectorMap, todo: seq<Entry>, vs: seq<Vector>, refused: set<string>, id: string)
    requires |todo| == |vs| && id !in IdsOf(todo)
    ensures SameAt(Overlay(dimensions, m, todo, vs, refused), m, id)
  {
    OverlayIsMerge(dimensions, m, todo, vs, refused);
    LandedKeys(dimensions, todo, vs, refused);
  }

  /** Whoever is to be embedded is in the batch. */
  lemma PendingHas(entries: seq<Entry>, known: set<string>, force: bool, e: Entry)
    requires DistinctEntries(entries) && e in entries
    ensures DistinctEntries(Pending(entries, known, force))
    ensures if force || e.id !in known then e in Pending(entries, known, force) else e.id !in IdsOf(Pending(entries, known, force))
  {
    FilterKeepsDistinct(Unknown(known), entries);
    FilterMembers(Unknown(known), entries, e);
    PendingWithin(entries, known, force);
  }

  /**
   After a rebuild that reports success an entry has the vector of its content, if it was to be embedded and
   its insertion did not fail, and otherwise the vector it had.
   */
  lemma RebuiltEmbeds(dimensions: nat, m: VectorMap, entries: seq<Entry>, force: bool, one: string -> Option<Vector>,
                      embed: seq<string> -> Option<seq<Vector>>, bad: Failures, e: Entry)
    requires Batches(dimensions, one, embed) && DistinctEntries(entries) && e in entries && e.id !in bad.refused
    requires BuildOutcome(dimensions, m, entries, force, embed, bad).0 == Built
    ensures var m' := BuildOutcome(dimensions, m, entries, force, embed, bad).1;
            if force || e.id !in m || e.id in bad.unread
            then e.id in m' && |m'[e.id]| == dimensions && one(e.content) == Some(m'[e.id])
            else SameAt(m', m, e.id)
  {
    var todo := Pending(entries, Seen(m, bad), force);
    var vs := if todo == [] then Some([]) else embed(TextsOf(todo));
    var kept := Pruned(m, IdsOf(entries) + bad.stuck);
    PendingHas(entries, Seen(m, bad), force, e);
    if force || e.id !in Seen(m, bad) {
      BatchGives(dimensions, kept, todo, one, vs.value, bad.refused, e);
    } else {
      BatchSpares(dimensions, kept, todo, vs.value, bad.refused, e.id);
      assert e.id in IdsOf(entries);
    }
  }
}
