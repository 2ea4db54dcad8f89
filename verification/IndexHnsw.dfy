/** The HNSW index manager: graph, metadata and dirty flag, each method a sequence of protocol steps. */
module IndexHnsw {
  import opened Entries
  import opened FlushProtocol
  import opened Managers
  import opened Rebuild
  import opened StableSort
  import opened Vectors

  lemma RunSnoc(m: Manager, trace: seq<Action>, a: Action)
    ensures Run(m, trace + [a]) == Step(Run(m, trace), a)
  {
    RunConcat(m, trace, [a]);
    var n := Run(m, trace);
    assert Run(n, [a]) == Run(Step(n, a), [a][1..]);
  }

  /** The sections of BuildIndexes before it reads the metadata. */
  function Opening(force: bool): seq<Action> {
    if force then [BuildStart, ResetGraph, ResetMeta] else [BuildStart]
  }

  lemma Opened(m: Manager, force: bool)
    requires m.mutator.Idle?
    ensures Run(m, Opening(force)) ==
            if force then m.(mutator := Building, graph := map[], meta := {}) else m.(mutator := Building)
  {
    if force { RunThree(m, Opening(force)); } else { RunSnoc(m, [], BuildStart); }
  }

  lemma RunParts(m: Manager, a: seq<Action>, b: seq<Action>, c: seq<Action>)
    ensures Run(m, a + b + c) == Run(Run(Run(m, a), b), c)
  {
    RunConcat(m, a + b, c);
    RunConcat(m, a, b);
  }

  class HnswManager {
    const dimensions: nat
    var graph: VectorMap
    var meta: set<string>
    var dirty: bool
    var diskGraph: IndexFile
    var diskMeta: set<string>

    /** The protocol state while the mutator is at the given point and no flush is running. */
    ghost function During(mutator: Mutator): Manager
      reads this
    {
      Manager(graph, meta, dirty, diskGraph, diskMeta, mutator, map[])
    }

    ghost function Now(): Manager
      reads this
    {
      During(Idle)
    }

    /** What the controller sees of the manager. */
    ghost function Holding(): Held
      reads this
    {
      Graph(graph, meta)
    }

    /** vector is None when embedding failed; a vector of the wrong size is not inserted. */
    method IndexEntry(id: string, vector: Option<Vector>) returns (ghost trace: seq<Action>)
      modifies this
      ensures Now() == Run(old(Now()), trace) && forall a | a in trace :: Succeeds(a)
      ensures if vector.Some? && |vector.value| == dimensions
              then Holding() == Entered(old(Holding()), id, vector.value, true) && dirty
              else Now() == old(Now())
      ensures Aligned(old(Holding())) ==> Aligned(Holding())
    {
      trace := [];
      if vector.None? || |vector.value| != dimensions { return; }
      graph := graph[id := vector.value];
      trace := [InsertNode(id, vector.value)];
      assert During(Inserted(id)) == Step(old(Now()), InsertNode(id, vector.value));
      meta := meta + {id};
      dirty := true;
      trace := trace + [RecordNode];
      RunTwo(old(Now()), trace);
    }

    /** Does nothing for an id without metadata. */
    method RemoveFromIndex(id: string) returns (ghost trace: seq<Action>)
      modifies this
      ensures Now() == Run(old(Now()), trace) && forall a | a in trace :: Succeeds(a)
      ensures Holding() == Dropped(old(Holding()), id, true)
      ensures if id in old(meta) then dirty else Now() == old(Now())
      ensures Aligned(old(Holding())) ==> Aligned(Holding())
    {
      trace := [];
      if id !in meta { return; }
      meta := meta - {id};
      dirty := true;
      trace := [ForgetNode(id)];
      assert During(Removing(id)) == Step(old(Now()), ForgetNode(id));
      graph := graph - {id};
      trace := trace + [DropNode];
      RunTwo(old(Now()), trace);
    }

    /** failing is None when every write succeeds, else how far the flush got before its error. */
    method Flush(failing: Option<Flusher>) returns (ok: bool, ghost trace: seq<Action>)
      modifies this`dirty, this`diskGraph, this`diskMeta
      ensures Now() == Run(old(Now()), trace) == Flushed(old(Now()), failing)
      ensures ok <==> forall a | a in trace :: Succeeds(a)
      ensures ok <==> !old(dirty) || failing.None?
    {
      trace := [];
      if !dirty { return true, trace; }
      FlushRuns(Now(), 0, failing);
      trace := FlushRun(0, failing);
      dirty := false;
      if failing == Some(Cleared) { return false, trace; }
      diskGraph := Truncated;
      if failing == Some(Created) { return false, trace; }
      diskGraph := Whole(graph);
      if failing == Some(Exported) { return false, trace; }
      diskMeta := meta;
      ok := true;
    }

    /** Called on a manager just created, whose memory is empty; partial is what a failed import leaves in the graph. */
    method Load(fault: LoadFault, partial: VectorMap) returns (ok: bool)
      requires graph == map[] && meta == {} && !dirty
      modifies this`graph, this`meta
      ensures Now() == Restarted(old(Now()), fault, partial)
      ensures ok <==> LoadsWithoutError(old(Now()), fault)
    {
      if fault.BadMetadata? { return false; }
      meta := diskMeta;
      if fault.Unopenable? { return false; }
      if diskGraph.Missing? {
        meta := {};
        return true;
      }
      if diskGraph.Truncated? || fault.BadImport? {
        graph := partial;
        return false;
      }
      graph := diskGraph.graph;
      if fault.Invalid? && meta != {} { graph, meta := map[], {}; }
      ok := true;
    }

    /** The flush after a rebuild that got through may still fail. one is an embedder of single texts. */
    method BuildIndexes(entries: seq<Entry>, force: bool, embed: seq<string> -> Option<seq<Vector>>, failing: Option<Flusher>,
                        ghost one: string -> Option<Vector>)
      returns (r: BuildResult, ghost trace: seq<Action>)
      modifies this
      ensures Now() == Run(old(Now()), trace)
      ensures r == Built <==> forall a | a in trace :: Succeeds(a)
      ensures (r, Holding()) == Rebuilding(dimensions, old(Holding()), entries, force, embed, NoFailures, failing.None?)
      ensures EmbedsAll(dimensions, old(Holding()), entries, force, one, embed, NoFailures, r, Holding())
      ensures Aligned(old(Holding())) || force ==> Aligned(Holding())
      ensures r == Built ==> !dirty && diskGraph == Whole(graph) && diskMeta == meta
      ensures Aborted(r) ==> dirty == old(dirty) && diskGraph == old(diskGraph) && diskMeta == old(diskMeta)
      ensures Aborted(r) && Agrees(old(Now())) && !old(dirty) ==>
                (Agrees(Now()) <==> if force then old(meta) == {} else old(meta) <= IdsOf(entries))
    {
      ghost var m := Now();
      AbortedBuildIff(dimensions, m, entries, force, embed, failing.None?);
      RebuildingAligned(dimensions, Holding(), entries, force, embed, NoFailures, failing.None?);
      RebuildEmbedsAll(dimensions, Holding(), entries, force, one, embed, NoFailures, failing.None?);
      if force {
        graph := map[];
        meta := {};
      }
      Opened(m, force);
      ghost var middle, last;
      r, middle := Refresh(entries, embed);
      var ok;
      ok, last := Finish(r == Built, failing);
      if r == Built && !ok { r := FlushFailed; }
      trace := Opening(force) + middle + last;
      RunParts(m, Opening(force), middle, last);
    }

    /** markDirty and the flush that follows it, or the early return of a failed embedding. */
    method Finish(built: bool, failing: Option<Flusher>) returns (ok: bool, ghost last: seq<Action>)
      modifies this`dirty, this`diskGraph, this`diskMeta
      ensures Now() == Run(old(During(Building)), last) && (built && ok <==> forall a | a in last :: Succeeds(a))
      ensures built ==> !dirty && (ok <==> failing.None?)
      ensures built && ok ==> diskGraph == Whole(graph) && diskMeta == meta
      ensures !built ==> dirty == old(dirty) && diskGraph == old(diskGraph) && diskMeta == old(diskMeta)
    {
      ok := true;
      if built {
        dirty := true;
        assert Now() == Step(old(During(Building)), BuildDone);
        ghost var flush;
        ok, flush := Flush(failing);
        last := [BuildDone] + flush;
        SucceedsAfter(BuildDone, flush);
      } else {
        last := [BuildAbort];
        assert !Succeeds(last[0]);
      }
    }

    /** Prunes, embeds what is missing in one batch, and inserts it. */
    method Refresh(entries: seq<Entry>, embed: seq<string> -> Option<seq<Vector>>)
      returns (r: BuildResult, ghost trace: seq<Action>)
      modifies this`graph, this`meta
      ensures During(Building) == Run(old(During(Building)), trace) && forall a | a in trace :: Succeeds(a)
      ensures (r, Holding()) == GraphOutcome(dimensions, old(graph), old(meta), entries, embed)
    {
      var known := meta;
      var active, toEmbed := Unindexed(entries, known);
      trace := RemoveStale(known, active);
      if toEmbed == [] {
        assert known * active + Landed(dimensions, [], [], {}).Keys == known * active;
        return Built, trace;
      }
      var texts := Texts(toEmbed);
      var vectors := embed(texts);
      if vectors.None? { return EmbeddingFailed, trace; }
      if |vectors.value| != |toEmbed| { return WrongCount, trace; }
      ghost var more := InsertAll(toEmbed, vectors.value);
      RunConcat(old(During(Building)), trace, more);
      trace := trace + more;
      r := Built;
    }

    /** Deletes the nodes and metadata of ids that are no longer active. */
    method RemoveStale(known: set<string>, active: set<string>) returns (ghost trace: seq<Action>)
      requires known == meta
      modifies this`graph, this`meta
      ensures During(Building) == Run(old(During(Building)), trace) && forall a | a in trace :: Succeeds(a)
      ensures graph == Kept(old(graph), known, active) && meta == known * active
    {
      trace := [];
      ghost var m := During(Building);
      var todo := known;
      while todo != {}
        invariant todo <= known
        invariant During(Building) == Run(m, trace) && forall a | a in trace :: Succeeds(a)
        invariant graph == old(graph) - (known - active - todo) && meta == known - (known - active - todo)
      {
        var id :| id in todo;
        ghost var gone := known - active - todo;
        todo := todo - {id};
        if id !in active {
          RunSnoc(m, trace, BuildDrop(id));
          RunSnoc(m, trace + [BuildDrop(id)], BuildForget(id));
          graph := graph - {id};
          meta := meta - {id};
          trace := trace + [BuildDrop(id)] + [BuildForget(id)];
          assert known - active - todo == gone + {id};
          RemovedAlso(old(graph), gone, id);
        } else {
          assert known - active - todo == gone;
        }
      }
      assert known - active - todo == known - active;
    }

    /** Inserts each vector and, if it was accepted, records its id. */
    method InsertAll(es: seq<Entry>, vs: seq<Vector>) returns (ghost trace: seq<Action>)
      requires |es| == |vs|
      modifies this`graph, this`meta
      ensures During(Building) == Run(old(During(Building)), trace) && forall a | a in trace :: Succeeds(a)
      ensures graph == Overlay(dimensions, old(graph), es, vs, {}) && meta == old(meta) + Landed(dimensions, es, vs, {}).Keys
    {
      trace := [];
      ghost var m := During(Building);
      for i := 0 to |es|
        invariant During(Building) == Run(m, trace) && forall a | a in trace :: Succeeds(a)
        invariant graph == Overlay(dimensions, old(graph), es[..i], vs[..i], {})
        invariant meta == old(meta) + Landed(dimensions, es[..i], vs[..i], {}).Keys
      {
        assert es[..i + 1][..i] == es[..i] && vs[..i + 1][..i] == vs[..i];
        ghost var more := InsertOne(es[i].id, vs[i]);
        RunConcat(m, trace, more);
        trace := trace + more;
      }
      assert es[..|es|] == es && vs[..|vs|] == vs;
    }

    method InsertOne(id: string, v: Vector) returns (ghost trace: seq<Action>)
      modifies this`graph, this`meta
      ensures During(Building) == Run(old(During(Building)), trace) && forall a | a in trace :: Succeeds(a)
      ensures graph == if |v| == dimensions then old(graph)[id := v] else old(graph)
      ensures meta == if |v| == dimensions then old(meta) + {id} else old(meta)
    {
      trace := [];
      if |v| != dimensions { return; }
      graph := graph[id := v];
      meta := meta + {id};
      trace := [BuildInsert(id, v), BuildRecord(id)];
      RunTwo(old(During(Building)), trace);
    }
  }

  lemma SucceedsAfter(a: Action, rest: seq<Action>)
    requires Succeeds(a)
    ensures (forall x | x in [a] + rest :: Succeeds(x)) <==> forall x | x in rest :: Succeeds(x)
  {
    assert forall x | x in rest :: x in [a] + rest;
  }

  /** The early returns of a build, after pruning and before anything is written. */
  predicate Aborted(r: BuildResult) {
    r == EmbeddingFailed || r == WrongCount
  }

  /**
   Exactly when an aborted build leaves a clean, saved manager saved: a forced one when nothing was indexed,
   another when there was nothing to prune.
   */
  lemma AbortedBuildIff(dimensions: nat, m: Manager, entries: seq<Entry>, force: bool,
                        embed: seq<string> -> Option<seq<Vector>>, flushOk: bool)
    ensures var (r, h) := Rebuilding(dimensions, Graph(m.graph, m.meta), entries, force, embed, NoFailures, flushOk);
            Aborted(r) && Agrees(m) && !m.dirty ==>
              (Agrees(m.(graph := h.vectors, meta := h.meta)) <==> if force then m.meta == {} else m.meta <= IdsOf(entries))
  {
    var (r, h) := Rebuilding(dimensions, Graph(m.graph, m.meta), entries, force, embed, NoFailures, flushOk);
    if Aborted(r) && Agrees(m) && !force && m.meta <= IdsOf(entries) {
      assert m.meta * IdsOf(entries) == m.meta;
      assert h.vectors == m.graph;
      assert forall id | id in h.meta :: GraphSaved(m, id);
    }
  }

  lemma RemovedAlso(m: VectorMap, gone: set<string>, id: string)
    ensures (m - gone) - {id} == m - (gone + {id})
  {}

  // ---------- a flush, a restart and a rebuild ----------

  /** The manager a new process holds after m's flush, when every write but the failing one succeeded. */
  function Reopened(m: Manager, failing: Option<Flusher>, fault: LoadFault, partial: VectorMap): Held {
    var r := Restarted(Run(m, FlushRun(0, failing)), fault, partial);
    Graph(r.graph, r.meta)
  }

  /** Every id of the graph is in the metadata or stored, and every stored id of the metadata is in the graph. */
  predicate Fits(graph: set<string>, meta: set<string>, ids: set<string>) {
    graph <= meta + ids && meta * ids <= graph
  }

  /** The index file after a dirty flush. */
  function FileAfter(m: Manager, failing: Option<Flusher>): IndexFile {
    match failing
    case None => Whole(m.graph)
    case Some(Cleared) => m.diskGraph
    case Some(Created) => Truncated
    case Some(Exported) => Whole(m.graph)
  }

  /**
   When the first unforced rebuild after such a flush and restart indexes exactly the ids: the metadata, new
   only if the whole flush succeeded, must fit what the load made of the file, unless the load starts over.
   */
  predicate Recovers(m: Manager, failing: Option<Flusher>, fault: LoadFault, partial: VectorMap, ids: set<string>) {
    var meta, file := if failing.None? then m.meta else m.diskMeta, FileAfter(m, failing);
    match fault
    case BadMetadata => true
    case Unopenable => meta * ids == {}
    case BadImport => file.Missing? || Fits(partial.Keys, meta, ids)
    case Invalid =>
      file.Missing? || if file.Truncated? then Fits(partial.Keys, meta, ids) else meta != {} || file.graph.Keys <= ids
    case Loads => file.Missing? || Fits(if file.Truncated? then partial.Keys else file.graph.Keys, meta, ids)
  }

  lemma ReopenedIs(m: Manager, failing: Option<Flusher>, fault: LoadFault, partial: VectorMap)
    requires Settled(m) && m.dirty
    ensures var r := Restarted(Flushed(m, failing), fault, partial);
            Reopened(m, failing, fault, partial) == Graph(r.graph, r.meta)
  {
    FlushRuns(m, 0, failing);
  }

  lemma RepairableIff(m: Manager, failing: Option<Flusher>, fault: LoadFault, partial: VectorMap, ids: set<string>, h: Held)
    requires Settled(m) && m.dirty && h == Reopened(m, failing, fault, partial)
    ensures h.Graph? && (Repairable(h, ids, false, NoFailures) <==> Recovers(m, failing, fault, partial, ids))
  {
    ReopenedIs(m, failing, fault, partial);
  }

  /** Exactly that: a flush, whole or cut off, a load with any fault into h, and an unforced rebuild that ran through. */
  lemma RecoversIff(dimensions: nat, m: Manager, failing: Option<Flusher>, fault: LoadFault, partial: VectorMap, h: Held,
                    entries: seq<Entry>, embed: seq<string> -> Option<seq<Vector>>, flushOk: bool)
    requires Settled(m) && m.dirty && AlwaysRightSized(dimensions, embed) && h == Reopened(m, failing, fault, partial)
    requires Rebuilding(dimensions, h, entries, false, embed, NoFailures, flushOk).0 in {Built, FlushFailed}
    ensures Rebuilding(dimensions, h, entries, false, embed, NoFailures, flushOk).1.vectors.Keys == IdsOf(entries)
       <==> Recovers(m, failing, fault, partial, IdsOf(entries))
  {
    RepairableIff(m, failing, fault, partial, IdsOf(entries), h);
    RebuildingIsExactIff(dimensions, h, entries, false, embed, NoFailures, flushOk);
  }

  /** The condition for an aligned manager whose files open and load, write by write. */
  lemma RecoversWhen(m: Manager, ids: set<string>)
    requires m.graph.Keys == m.meta
    ensures Recovers(m, None, Loads, map[], ids)
    ensures Recovers(m, Some(Created), Loads, map[], ids) <==> m.diskMeta * ids == {}
    ensures Recovers(m, Some(Exported), Loads, map[], ids) <==> m.meta - ids <= m.diskMeta && m.diskMeta * ids <= m.meta
  {}

  /**
   An export that fails hides every id of the old metadata that the import cannot recover, from the restart
   on and through every unforced rebuild that lists it.
   */
  lemma FailedExportHides(dimensions: nat, m: Manager, partial: VectorMap, builds: seq<Build>, id: string)
    requires Settled(m) && m.dirty
    ensures var h := Reopened(m, Some(Created), Loads, partial);
            Hides(RunBuilds(dimensions, h, builds), id) <==> id in m.diskMeta && id !in partial && Lists(builds, id)
  {
    ReopenedIs(m, Some(Created), Loads, partial);
    HiddenIff(dimensions, Reopened(m, Some(Created), Loads, partial), builds, id);
  }
}
