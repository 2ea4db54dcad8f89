/** The index manager over the two-table index: overwrite and prune. */
module IndexSqlite {
  import opened Entries
  import opened Managers
  import opened Rebuild
  import opened StableSort
  import opened VectorTables
  import opened Vectors

  /** How the statements of a rebuild end, id by id. */
  datatype Statements = Statements(listOk: bool, readable: string -> bool, drops: string -> Fault, puts: string -> Fault)

  /** The failures they amount to over an index m and entries with the given ids. */
  function FailuresOf(f: Statements, m: VectorMap, ids: set<string>): Failures {
    Failures(!f.listOk,
             set id | id in m && !f.readable(id),
             set id | id in m && f.drops(id) != NoFault,
             set id | id in ids && Refuses(f.puts(id), id in m))
  }

  /** Of these entries exactly the refused ones cannot be inserted into m. */
  ghost predicate RefusesThese(f: Statements, m: VectorMap, es: seq<Entry>, refused: set<string>) {
    forall e | e in es :: e.id in refused <==> Refuses(f.puts(e.id), e.id in m)
  }

  /** Pruning in between makes no difference to which insertions fail. */
  lemma PendingRefused(f: Statements, m: VectorMap, entries: seq<Entry>, todo: seq<Entry>, force: bool, bad: Failures)
    requires bad == FailuresOf(f, m, IdsOf(entries)) && todo == Pending(entries, Seen(m, bad), force)
    ensures RefusesThese(f, Pruned(m, IdsOf(entries) + bad.stuck), todo, bad.refused)
  {
    PendingWithin(entries, Seen(m, bad), force);
    forall e | e in todo ensures e.id in IdsOf(entries) { assert e.id in IdsOf(todo); }
  }

  /** Of the listed ids exactly the active ones and those whose deletion fails stay. */
  ghost predicate StaysIn(f: Statements, ids: seq<string>, active: set<string>, keep: set<string>) {
    active <= keep && forall id | id in ids && id !in active :: id in keep <==> f.drops(id) != NoFault
  }

  lemma PruneKeeps(f: Statements, m: VectorMap, ids: seq<string>, active: set<string>, bad: Failures)
    requires bad == FailuresOf(f, m, active) && Elems(ids) == m.Keys
    ensures StaysIn(f, ids, active, active + bad.stuck)
  {
    forall id | id in ids ensures id in m { assert id in Elems(ids); }
  }

  class SqliteManager {
    const idx: Index

    constructor (idx: Index)
      ensures this.idx == idx
    {
      this.idx := idx;
    }

    ghost predicate Valid()
      reads idx
    {
      idx.Valid()
    }

    /** What the controller sees of the manager. */
    ghost function Holding(): Held
      reads idx
    {
      Joined(idx.vectors)
    }

    /** vector is None when embedding the content failed; a failed insertion is only logged. */
    method IndexEntry(id: string, vector: Option<Vector>, fault: Fault) returns (ghost landed: bool)
      requires Valid()
      modifies idx
      ensures Valid()
      ensures landed <==> vector.Some? && |vector.value| == idx.dimensions && !Refuses(fault, id in old(idx.vectors))
      ensures Holding() == if vector.Some? then Entered(old(Holding()), id, vector.value, landed) else old(Holding())
    {
      landed := false;
      if vector.Some? {
        var ok := idx.InsertVector(id, vector.value, fault);
        landed := ok;
      }
    }

    /** A failed deletion is ignored. */
    method RemoveFromIndex(id: string, fault: Fault)
      requires Valid()
      modifies idx
      ensures Valid()
      ensures Holding() == Dropped(old(Holding()), id, fault == NoFault)
    {
      var ok := idx.DeleteVector(id, fault);
      assert id !in old(idx.vectors) ==> old(idx.vectors) - {id} == old(idx.vectors);
    }

    /**
     A failed listing ends it at once; failed lookups, deletions and insertions are only logged. one is an embedder
     of single texts.
     */
    method BuildIndexes(entries: seq<Entry>, force: bool, embed: seq<string> -> Option<seq<Vector>>, f: Statements,
                        ghost one: string -> Option<Vector>)
      returns (r: BuildResult)
      requires Valid()
      modifies idx
      ensures Valid()
      ensures var bad := FailuresOf(f, old(idx.vectors), IdsOf(entries));
              && (r, Holding()) == Rebuilding(idx.dimensions, old(Holding()), entries, force, embed, bad, true)
              && EmbedsAll(idx.dimensions, old(Holding()), entries, force, one, embed, bad, r, Holding())
    {
      RebuildEmbedsAll(idx.dimensions, Holding(), entries, force, one, embed, FailuresOf(f, idx.vectors, IdsOf(entries)), true);
      r := Refresh(entries, force, embed, f);
    }

    method Refresh(entries: seq<Entry>, force: bool, embed: seq<string> -> Option<seq<Vector>>, f: Statements)
      returns (r: BuildResult)
      requires Valid()
      modifies idx
      ensures Valid()
      ensures var bad := FailuresOf(f, old(idx.vectors), IdsOf(entries));
              (r, Holding()) == Rebuilding(idx.dimensions, old(Holding()), entries, force, embed, bad, true)
    {
      ghost var bad := FailuresOf(f, idx.vectors, IdsOf(entries));
      var active, toEmbed := Outdated(entries, force, f, bad);
      var ids := idx.ListIDs(f.listOk);
      if ids.None? { return ListFailed; }
      PruneKeeps(f, old(idx.vectors), ids.value, active, bad);
      Prune(ids.value, active, f, active + bad.stuck);

      if toEmbed == [] { return Built; }
      var texts := Texts(toEmbed);
      var vectors := embed(texts);
      if vectors.None? { return EmbeddingFailed; }
      if |vectors.value| != |toEmbed| { return WrongCount; }
      PendingRefused(f, old(idx.vectors), entries, toEmbed, force, bad);
      InsertAll(toEmbed, vectors.value, f, bad.refused);
      r := Built;
    }

    /** The ids to keep and the entries to embed. */
    method Outdated(entries: seq<Entry>, force: bool, f: Statements, ghost bad: Failures)
      returns (active: set<string>, toEmbed: seq<Entry>)
      requires Valid() && bad == FailuresOf(f, idx.vectors, IdsOf(entries))
      ensures active == IdsOf(entries) && toEmbed == Pending(entries, Seen(idx.vectors, bad), force)
    {
      ghost var known := Seen(idx.vectors, bad);
      active, toEmbed := {}, [];
      for i := 0 to |entries|
        invariant active == IdsOf(entries[..i])
        invariant toEmbed == Pending(entries[..i], known, force)
      {
        OutdatedStep(entries, i, known, force);
        active := active + {entries[i].id};
        if force {
          toEmbed := toEmbed + [entries[i]];
          continue;
        }
        var found := idx.LookupVector(entries[i].id, f.readable(entries[i].id));
        if found.None? {
          toEmbed := toEmbed + [entries[i]];
        }
      }
      assert entries[..|entries|] == entries;
    }

    /** Deletes the vectors whose entries no longer exist; keep are the active ids and the stuck ones. */
    method Prune(ids: seq<string>, active: set<string>, f: Statements, ghost keep: set<string>)
      requires Valid() && Elems(ids) == idx.vectors.Keys && StaysIn(f, ids, active, keep)
      modifies idx
      ensures Valid() && idx.vectors == Pruned(old(idx.vectors), keep)
    {
      ghost var m := idx.vectors;
      PruneBounds(m, ids, keep);
      for j := 0 to |ids|
        invariant Valid() && idx.vectors == PrunedUpTo(m, ids[..j], keep)
      {
        PruneStep(m, ids, j, keep);
        if ids[j] !in active { Discard(ids[j], f, keep); }
      }
    }

    method Discard(id: string, f: Statements, ghost keep: set<string>)
      requires Valid() && (id in keep <==> f.drops(id) != NoFault)
      modifies idx
      ensures Valid() && idx.vectors == if id in keep then old(idx.vectors) else old(idx.vectors) - {id}
    {
      RemoveFromIndex(id, f.drops(id));
    }

    method InsertAll(es: seq<Entry>, vs: seq<Vector>, f: Statements, ghost refused: set<string>)
      requires Valid() && |es| == |vs| && RefusesThese(f, idx.vectors, es, refused)
      modifies idx
      ensures Valid() && idx.vectors == Overlay(idx.dimensions, old(idx.vectors), es, vs, refused)
    {
      ghost var m := idx.vectors;
      for i := 0 to |es|
        invariant Valid() && idx.vectors == Overlay(idx.dimensions, m, es[..i], vs[..i], refused)
      {
        OverlayStep(f, idx.dimensions, m, es, vs, refused, i);
        var ok := idx.InsertVector(es[i].id, vs[i], f.puts(es[i].id));
      }
      assert es[..|es|] == es && vs[..|vs|] == vs;
    }
  }

  lemma OutdatedStep(entries: seq<Entry>, i: nat, known: set<string>, force: bool)
    requires i < |entries|
    ensures IdsOf(entries[..i + 1]) == IdsOf(entries[..i]) + {entries[i].id}
    ensures Pending(entries[..i + 1], known, force)
         == Pending(entries[..i], known, force) + if force || entries[i].id !in known then [entries[i]] else []
  {
    assert entries[..i + 1][..i] == entries[..i];
    IdsOfSnoc(entries[..i + 1]);
  }

  /** One insertion of the batch: whether it fails does not depend on those before it. */
  lemma OverlayStep(f: Statements, dimensions: nat, m: VectorMap, es: seq<Entry>, vs: seq<Vector>, refused: set<string>, i: nat)
    requires i < |es| == |vs| && RefusesThese(f, m, es, refused)
    ensures var before := Overlay(dimensions, m, es[..i], vs[..i], refused);
            Overlay(dimensions, m, es[..i + 1], vs[..i + 1], refused) ==
              if |vs[i]| == dimensions && !Refuses(f.puts(es[i].id), es[i].id in before) then before[es[i].id := vs[i]] else before
  {
    assert es[..i + 1][..i] == es[..i] && vs[..i + 1][..i] == vs[..i];
    assert es[i] in es;
    RefusedStaysOut(dimensions, m, es[..i], vs[..i], refused, es[i].id);
  }

  /** A refused id is in the index exactly when it was there before the inserts. */
  lemma RefusedStaysOut(dimensions: nat, m: VectorMap, es: seq<Entry>, vs: seq<Vector>, refused: set<string>, id: string)
    requires |es| == |vs|
    ensures id in m ==> id in Overlay(dimensions, m, es, vs, refused)
    ensures id in refused ==> (id in Overlay(dimensions, m, es, vs, refused) <==> id in m)
  {
    OverlayIsMerge(dimensions, m, es, vs, refused);
    LandedKeys(dimensions, es, vs, refused);
  }

  /** The ids already visited are gone unless they are kept. */
  function PrunedUpTo(m: VectorMap, ids: seq<string>, keep: set<string>): VectorMap {
    map id | id in m && (id in keep || id !in ids) :: m[id]
  }

  lemma PruneStep(m: VectorMap, ids: seq<string>, j: nat, keep: set<string>)
    requires j < |ids|
    ensures var before, after := PrunedUpTo(m, ids[..j], keep), PrunedUpTo(m, ids[..j + 1], keep);
            after == if ids[j] in keep then before else before - {ids[j]}
  {}

  lemma PruneBounds(m: VectorMap, ids: seq<string>, keep: set<string>)
    requires Elems(ids) == m.Keys
    ensures PrunedUpTo(m, ids[..0], keep) == m && PrunedUpTo(m, ids[..|ids|], keep) == Pruned(m, keep)
  {}
}
