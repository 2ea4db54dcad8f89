/** What an index manager holds, as the controller sees it, and what each operation does to it. */
module Managers {
  import opened Entries
  import opened Rebuild
  import opened StableSort
  import opened Vectors

  /** The two-table index, which is one map, or the HNSW manager's graph beside its metadata. */
  datatype Held = Joined(vectors: VectorMap) | Graph(vectors: VectorMap, meta: set<string>)

  /** Metadata and graph name the same ids. */
  predicate Aligned(h: Held) {
    h.Graph? ==> h.vectors.Keys == h.meta
  }

  // ---------- one id ----------

  /** landed is whether the two tables' transaction went through; the graph is in memory. */
  function Entered(h: Held, id: string, v: Vector, landed: bool): Held {
    match h
    case Joined(vectors) => if landed then Joined(vectors[id := v]) else h
    case Graph(vectors, meta) => Graph(vectors[id := v], meta + {id})
  }

  /** Likewise gone; the HNSW manager does nothing for an id without metadata. */
  function Dropped(h: Held, id: string, gone: bool): Held {
    match h
    case Joined(vectors) => if gone then Joined(vectors - {id}) else h
    case Graph(vectors, meta) => if id in meta then Graph(vectors - {id}, meta - {id}) else h
  }

  /** Removing an id leaves its vector behind exactly when the deletion failed or drift has hidden it; alignment is kept. */
  lemma DroppedIff(h: Held, id: string, gone: bool)
    ensures Dropped(h, id, gone).vectors == h.vectors - {id} <==> id !in h.vectors || (if h.Joined? then gone else id in h.meta)
    ensures Aligned(h) ==> Aligned(Dropped(h, id, gone))
    ensures Aligned(h) && (h.Graph? || gone) ==> Dropped(h, id, gone).vectors == h.vectors - {id}
  {
    if id !in h.vectors { assert h.vectors - {id} == h.vectors; }
  }

  // ---------- several ids ----------

  /** The deletion of the stuck ids fails in the two tables. */
  function DroppedAll(h: Held, ids: set<string>, stuck: set<string>): Held {
    match h
    case Joined(vectors) => Joined(vectors - (ids - stuck))
    case Graph(vectors, meta) => Graph(vectors - ids * meta, meta - ids)
  }

  lemma DroppedAllMore(h: Held, ids: set<string>, stuck: set<string>, id: string)
    ensures DroppedAll(h, {}, stuck) == h
    ensures Dropped(DroppedAll(h, ids, stuck), id, id !in stuck) == DroppedAll(h, ids + {id}, stuck)
  {
    match h
    case Joined(vectors) =>
      assert {} - stuck == {} && vectors - {} == vectors;
      if id in stuck {
        assert ids + {id} - stuck == ids - stuck;
      } else {
        assert vectors - (ids - stuck) - {id} == vectors - (ids + {id} - stuck);
      }
    case Graph(vectors, meta) =>
      assert vectors - {} * meta == vectors;
      if id in meta && id !in ids {
        assert vectors - ids * meta - {id} == vectors - (ids + {id}) * meta;
      } else {
        assert (ids + {id}) * meta == ids * meta;
      }
  }

  /** The ids among the given ones that stay in the index. */
  function Staying(h: Held, ids: set<string>, stuck: set<string>): set<string> {
    h.vectors.Keys * ids * if h.Joined? then stuck else h.vectors.Keys - h.meta
  }

  lemma DroppedAllExact(h: Held, ids: set<string>, stuck: set<string>)
    ensures DroppedAll(h, ids, stuck).vectors == h.vectors - (ids - Staying(h, ids, stuck))
    ensures Aligned(h) ==> Aligned(DroppedAll(h, ids, stuck)) && (h.Graph? ==> Staying(h, ids, stuck) == {})
  {}

  // ---------- rebuilding ----------

  /** The graph once stale metadata ids have been deleted from it. */
  function Kept(graph: VectorMap, known: set<string>, active: set<string>): VectorMap {
    graph - (known - active)
  }

  /** The HNSW manager's prune, batch and inserts, from the given graph and metadata. */
  function GraphOutcome(dimensions: nat, graph: VectorMap, known: set<string>, entries: seq<Entry>,
                        embed: seq<string> -> Option<seq<Vector>>): (BuildResult, Held)
  {
    var active, todo := IdsOf(entries), Pending(entries, known, false);
    var vs := if todo == [] then Some([]) else embed(TextsOf(todo));
    var kept := Kept(graph, known, active);
    if vs.None? then (EmbeddingFailed, Graph(kept, known * active))
    else if |vs.value| != |todo| then (WrongCount, Graph(kept, known * active))
    else (Built, Graph(Overlay(dimensions, kept, todo, vs.value, {}), known * active + Landed(dimensions, todo, vs.value, {}).Keys))
  }

  /**
   BuildIndexes of either manager; bad is what fails in the two tables. A forced HNSW rebuild clears first, and a
   successful one flushes.
   */
  function Rebuilding(dimensions: nat, h: Held, entries: seq<Entry>, force: bool, embed: seq<string> -> Option<seq<Vector>>,
                      bad: Failures, flushOk: bool): (BuildResult, Held)
  {
    match h
    case Joined(vectors) =>
      var (r, m) := BuildOutcome(dimensions, vectors, entries, force, embed, bad);
      (r, Joined(m))
    case Graph(vectors, meta) =>
      var (r, h1) := GraphOutcome(dimensions, if force then map[] else vectors, if force then {} else meta, entries, embed);
      (if r == Built && !flushOk then FlushFailed else r, h1)
  }

  /** The ids a rebuild leaves in the graph and in the metadata. */
  lemma GraphOutcomeKeys(dimensions: nat, graph: VectorMap, known: set<string>, entries: seq<Entry>,
                         embed: seq<string> -> Option<seq<Vector>>)
    returns (landed: set<string>)
    ensures var (r, h) := GraphOutcome(dimensions, graph, known, entries, embed);
            && h.vectors.Keys == graph.Keys - (known - IdsOf(entries)) + landed
            && h.meta == known * IdsOf(entries) + landed
            && landed <= IdsOf(entries) - known
            && (r == Built && AlwaysRightSized(dimensions, embed) ==> landed == IdsOf(entries) - known)
            && (r != Built ==> landed == {})
  {
    var todo := Pending(entries, known, false);
    var vs := if todo == [] then Some([]) else embed(TextsOf(todo));
    landed := {};
    PendingIds(entries, known);
    if vs.Some? && |vs.value| == |todo| {
      landed := Landed(dimensions, todo, vs.value, {}).Keys;
      LandedKeys(dimensions, todo, vs.value, {});
      OverlayIsMerge(dimensions, Kept(graph, known, IdsOf(entries)), todo, vs.value, {});
    }
  }

  /** Every rebuild keeps metadata and graph aligned, a forced one aligns them. */
  lemma RebuildingAligned(dimensions: nat, h: Held, entries: seq<Entry>, force: bool, embed: seq<string> -> Option<seq<Vector>>,
                          bad: Failures, flushOk: bool)
    ensures Aligned(h) || force ==> Aligned(Rebuilding(dimensions, h, entries, force, embed, bad, flushOk).1)
  {
    if h.Graph? {
      var landed := GraphOutcomeKeys(dimensions, if force then map[] else h.vectors, if force then {} else h.meta, entries, embed);
    }
  }

  /** Ids that are no entry's, and that the rebuild does not get rid of. */
  function Stuck(h: Held, ids: set<string>, force: bool, bad: Failures): set<string> {
    match h
    case Joined(vectors) => vectors.Keys * (if bad.listing then vectors.Keys else bad.stuck) - ids
    case Graph(vectors, meta) => if force then {} else vectors.Keys - meta - ids
  }

  /** The orphans a rebuild leaves, whatever its outcome: those it could not delete, or that drift has hidden from it. */
  lemma RebuildingOrphans(dimensions: nat, h: Held, entries: seq<Entry>, force: bool, embed: seq<string> -> Option<seq<Vector>>,
                          bad: Failures, flushOk: bool)
    ensures Rebuilding(dimensions, h, entries, force, embed, bad, flushOk).1.vectors.Keys - IdsOf(entries)
         == Stuck(h, IdsOf(entries), force, bad)
  {
    match h
    case Joined(vectors) =>
      var todo := Pending(entries, Seen(vectors, bad), force);
      var vs := if todo == [] then Some([]) else embed(TextsOf(todo));
      if vs.Some? && |vs.value| == |todo| { RebuiltKeys(dimensions, vectors, entries, force, vs.value, bad); }
    case Graph(vectors, meta) =>
      var landed := GraphOutcomeKeys(dimensions, if force then map[] else vectors, if force then {} else meta, entries, embed);
  }

  /** When a rebuild that ran through indexes exactly the entries. */
  predicate Repairable(h: Held, ids: set<string>, force: bool, bad: Failures) {
    match h
    case Joined(vectors) => Harmless(vectors.Keys, ids, bad)
    case Graph(vectors, meta) => force || (vectors.Keys <= meta + ids && meta * ids <= vectors.Keys)
  }

  /**
   A rebuild that ran through leaves exactly the entries' ids, exactly when no failed statement did harm, or
   when graph and metadata had not drifted apart.
   */
  lemma RebuildingIsExactIff(dimensions: nat, h: Held, entries: seq<Entry>, force: bool, embed: seq<string> -> Option<seq<Vector>>,
                             bad: Failures, flushOk: bool)
    requires AlwaysRightSized(dimensions, embed)
    requires Rebuilding(dimensions, h, entries, force, embed, bad, flushOk).0 in {Built, FlushFailed}
    ensures var h1 := Rebuilding(dimensions, h, entries, force, embed, bad, flushOk).1;
            && (h1.vectors.Keys == IdsOf(entries) <==> Repairable(h, IdsOf(entries), force, bad))
            && (h1.Graph? ==> h1.meta == IdsOf(entries))
  {
    var ids := IdsOf(entries);
    match h
    case Joined(vectors) =>
      OutcomeIsExactIff(dimensions, vectors, entries, force, embed, bad);
    case Graph(vectors, meta) =>
      var landed := GraphOutcomeKeys(dimensions, if force then map[] else vectors, if force then {} else meta, entries, embed);
      var keys := Rebuilding(dimensions, h, entries, force, embed, bad, flushOk).1.vectors.Keys;
      if !force && keys == ids {
        forall id | id in vectors ensures id in meta + ids { if id !in meta { assert id in keys; } }
        forall id | id in meta * ids ensures id in vectors { assert id in keys && id !in landed; }
      }
      if !force && vectors.Keys <= meta + ids && meta * ids <= vectors.Keys {
        forall id ensures id in keys <==> id in ids {}
      }
  }

  /** From an aligned graph an unforced rebuild is the two-table manager's when no statement fails. */
  lemma UnforcedAlike(dimensions: nat, h: Held, entries: seq<Entry>, embed: seq<string> -> Option<seq<Vector>>)
    requires h.Graph? && Aligned(h)
    ensures var (r, h1) := Rebuilding(dimensions, h, entries, false, embed, NoFailures, true);
            (r, h1.vectors) == BuildOutcome(dimensions, h.vectors, entries, false, embed, NoFailures)
  {
    assert Seen(h.vectors, NoFailures) == h.meta;
    assert Kept(h.vectors, h.meta, IdsOf(entries)) == Pruned(h.vectors, IdsOf(entries) + {});
  }

  /** What a forced rebuild inserts; nothing when it aborts. */
  function BatchVectors(dimensions: nat, entries: seq<Entry>, embed: seq<string> -> Option<seq<Vector>>): VectorMap {
    var vs := if entries == [] then Some([]) else embed(TextsOf(entries));
    if vs.Some? && |vs.value| == |entries| then Landed(dimensions, entries, vs.value, {}) else map[]
  }

  /**
   When no statement fails, clearing first or overwriting and pruning end alike exactly when the batch has a
   right-sized vector for every listed id that is indexed.
   */
  lemma ForcedAlikeIff(dimensions: nat, h: Held, entries: seq<Entry>, embed: seq<string> -> Option<seq<Vector>>)
    requires h.Graph?
    ensures var (r, h1) := Rebuilding(dimensions, h, entries, true, embed, NoFailures, true);
            var (r2, m2) := BuildOutcome(dimensions, h.vectors, entries, true, embed, NoFailures);
            && r == r2 && h1.vectors == BatchVectors(dimensions, entries, embed)
            && (h1.vectors == m2 <==> h.vectors.Keys * IdsOf(entries) <= BatchVectors(dimensions, entries, embed).Keys)
  {
    ForcedGraph(dimensions, h, entries, embed);
    ForcedJoined(dimensions, h.vectors, entries, embed);
    var kept, landed := Pruned(h.vectors, IdsOf(entries)), BatchVectors(dimensions, entries, embed);
    if kept + landed == landed {
      forall id | id in h.vectors && id in IdsOf(entries) ensures id in landed { assert id in kept + landed; }
    }
    if h.vectors.Keys * IdsOf(entries) <= landed.Keys { assert kept + landed == landed; }
  }

  lemma ForcedGraph(dimensions: nat, h: Held, entries: seq<Entry>, embed: seq<string> -> Option<seq<Vector>>)
    requires h.Graph?
    ensures var (r, h1) := Rebuilding(dimensions, h, entries, true, embed, NoFailures, true);
            && r == BuildOutcome(dimensions, h.vectors, entries, true, embed, NoFailures).0
            && h1.vectors == BatchVectors(dimensions, entries, embed)
  {
    FilterAll(Unknown({}), entries);
    var none: VectorMap := map[];
    assert Kept(none, {}, IdsOf(entries)) == none;
  }

  lemma ForcedJoined(dimensions: nat, m: VectorMap, entries: seq<Entry>, embed: seq<string> -> Option<seq<Vector>>)
    ensures BuildOutcome(dimensions, m, entries, true, embed, NoFailures).1
         == Pruned(m, IdsOf(entries)) + BatchVectors(dimensions, entries, embed)
  {
    assert IdsOf(entries) + {} == IdsOf(entries);
    var vs := if entries == [] then Some([]) else embed(TextsOf(entries));
    if vs.Some? && |vs.value| == |entries| { OverlayIsMerge(dimensions, Pruned(m, IdsOf(entries)), entries, vs.value, {}); }
  }

  // ---------- which text is embedded ----------

  /** The rebuild embeds the id again: it is forced to, or does not find it in the index, or in the metadata. */
  predicate Embeds(h: Held, force: bool, bad: Failures, id: string) {
    force || match h
      case Joined(vectors) => id !in vectors || id in bad.unread
      case Graph(_, meta) => id !in meta
  }

  /** The entry has its own vector if it was to be embedded, else what was there. */
  predicate Embedded(dimensions: nat, h: Held, e: Entry, force: bool, one: string -> Option<Vector>, bad: Failures, h1: Held) {
    if Embeds(h, force, bad, e.id)
    then e.id in h1.vectors && |h1.vectors[e.id]| == dimensions && one(e.content) == Some(h1.vectors[e.id])
    else SameAt(h1.vectors, h.vectors, e.id)
  }

  lemma GraphEmbeds(dimensions: nat, graph: VectorMap, known: set<string>, entries: seq<Entry>, one: string -> Option<Vector>,
                    embed: seq<string> -> Option<seq<Vector>>, e: Entry)
    requires Batches(dimensions, one, embed) && DistinctEntries(entries) && e in entries
    requires GraphOutcome(dimensions, graph, known, entries, embed).0 == Built
    ensures var h1 := GraphOutcome(dimensions, graph, known, entries, embed).1;
            if e.id !in known then e.id in h1.vectors && |h1.vectors[e.id]| == dimensions && one(e.content) == Some(h1.vectors[e.id])
            else SameAt(h1.vectors, graph, e.id)
  {
    var todo := Pending(entries, known, false);
    var vs := if todo == [] then Some([]) else embed(TextsOf(todo));
    var kept := Kept(graph, known, IdsOf(entries));
    PendingHas(entries, known, false, e);
    if e.id !in known {
      BatchGives(dimensions, kept, todo, one, vs.value, {}, e);
    } else {
      BatchSpares(dimensions, kept, todo, vs.value, {}, e.id);
      assert e.id in IdsOf(entries);
    }
  }

  /**
   Either manager's rebuild that ran through gives an entry the vector of its own content, whatever else was in
   the batch, or leaves it the vector it had.
   */
  lemma RebuildEmbeds(dimensions: nat, h: Held, entries: seq<Entry>, force: bool, one: string -> Option<Vector>,
                      embed: seq<string> -> Option<seq<Vector>>, bad: Failures, flushOk: bool, e: Entry)
    requires Batches(dimensions, one, embed) && DistinctEntries(entries) && e in entries && (h.Joined? ==> e.id !in bad.refused)
    requires Rebuilding(dimensions, h, entries, force, embed, bad, flushOk).0 in {Built, FlushFailed}
    ensures Embedded(dimensions, h, e, force, one, bad, Rebuilding(dimensions, h, entries, force, embed, bad, flushOk).1)
  {
    match h
    case Joined(vectors) => RebuiltEmbeds(dimensions, vectors, entries, force, one, embed, bad, e);
    case Graph(vectors, meta) =>
      GraphEmbeds(dimensions, if force then map[] else vectors, if force then {} else meta, entries, one, embed, e);
  }

  /** The same of every entry, when the embedder works text by text and ids are distinct. */
  ghost predicate EmbedsAll(dimensions: nat, h: Held, entries: seq<Entry>, force: bool, one: string -> Option<Vector>,
                            embed: seq<string> -> Option<seq<Vector>>, bad: Failures, r: BuildResult, h1: Held)
  {
    Batches(dimensions, one, embed) && DistinctEntries(entries) && r in {Built, FlushFailed} ==>
      forall e | e in entries && (h.Joined? ==> e.id !in bad.refused) :: Embedded(dimensions, h, e, force, one, bad, h1)
  }

  lemma RebuildEmbedsAll(dimensions: nat, h: Held, entries: seq<Entry>, force: bool, one: string -> Option<Vector>,
                         embed: seq<string> -> Option<seq<Vector>>, bad: Failures, flushOk: bool)
    ensures var (r, h1) := Rebuilding(dimensions, h, entries, force, embed, bad, flushOk);
            EmbedsAll(dimensions, h, entries, force, one, embed, bad, r, h1)
  {
    var (r, h1) := Rebuilding(dimensions, h, entries, force, embed, bad, flushOk);
    if Batches(dimensions, one, embed) && DistinctEntries(entries) && r in {Built, FlushFailed} {
      forall e | e in entries && (h.Joined? ==> e.id !in bad.refused) ensures Embedded(dimensions, h, e, force, one, bad, h1) {
        RebuildEmbeds(dimensions, h, entries, force, one, embed, bad, flushOk, e);
      }
    }
  }

  // ---------- ids that only the metadata knows ----------

  /** One unforced rebuild: what the store lists, the embedder, and whether the flush at its end succeeds. */
  datatype Build = Build(entries: seq<Entry>, embed: seq<string> -> Option<seq<Vector>>, flushOk: bool)

  function RunBuilds(dimensions: nat, h: Held, builds: seq<Build>): Held
    decreases |builds|
  {
    if builds == [] then h else
      var b := builds[0];
      RunBuilds(dimensions, Rebuilding(dimensions, h, b.entries, false, b.embed, NoFailures, b.flushOk).1, builds[1..])
  }

  /** Every one of the rebuilds is given an entry with the id. */
  predicate Lists(builds: seq<Build>, id: string) {
    forall i | 0 <= i < |builds| :: id in IdsOf(builds[i].entries)
  }

  /** The metadata has the id, the graph has no vector for it. */
  predicate Hides(h: Held, id: string) {
    h.Graph? && id in h.meta && id !in h.vectors
  }

  /** Unforced rebuilds never index such an id while they list it, and hide no other: only an unlisted round resets it. */
  lemma {:induction false} HiddenIff(dimensions: nat, h: Held, builds: seq<Build>, id: string)
    ensures Hides(RunBuilds(dimensions, h, builds), id) <==> Hides(h, id) && Lists(builds, id)
    decreases |builds|
  {
    if builds != [] {
      var b := builds[0];
      var h1 := Rebuilding(dimensions, h, b.entries, false, b.embed, NoFailures, b.flushOk).1;
      if h.Graph? {
        var landed := GraphOutcomeKeys(dimensions, h.vectors, h.meta, b.entries, b.embed);
      }
      assert Hides(h1, id) <==> Hides(h, id) && id in IdsOf(b.entries);
      HiddenIff(dimensions, h1, builds[1..], id);
      assert builds == [b] + builds[1..];
    }
  }
}
