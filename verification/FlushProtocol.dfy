/** The HNSW manager's critical sections as atomic steps: one mutator, any number of flushers, two files. */
module FlushProtocol {
  import opened Entries
  import opened Vectors

  /** What the mutator is in the middle of. */
  datatype Mutator = Idle | Inserted(id: string) | Removing(id: string) | Building

  /** What a Flush call has done since it cleared the dirty flag. */
  datatype Flusher = Cleared | Created | Exported

  /** The index file: never written, cut off by os.Create or a failed export, or a whole graph. */
  datatype IndexFile = Missing | Truncated | Whole(graph: VectorMap)

  datatype Manager = Manager(
    graph: VectorMap,
    meta: set<string>,
    dirty: bool,
    diskGraph: IndexFile,
    diskMeta: set<string>,
    mutator: Mutator,
    flushers: map<nat, Flusher>)

  datatype Action =
    // IndexEntry: the graph section, then the metadata section
    | InsertNode(id: string, vector: Vector)
    | RecordNode
    // RemoveFromIndex: the metadata section, then the graph section
    | ForgetNode(id: string)
    | DropNode
    // BuildIndexes: any sequence of its sections, then markDirty, or the early return of a failed embedding
    | BuildStart
    | ResetGraph
    | ResetMeta
    | BuildInsert(id: string, vector: Vector)
    | BuildRecord(id: string)
    | BuildDrop(id: string)
    | BuildForget(id: string)
    | BuildDone
    | BuildAbort
    // Flush, for each caller t: test and clear dirty; create the file; export; save the metadata
    | FlushStart(t: nat)
    | FlushCreate(t: nat)
    | FlushExport(t: nat)
    | FlushSave(t: nat)
    | FlushFail(t: nat)

  predicate At(m: Manager, t: nat, f: Flusher) {
    t in m.flushers && m.flushers[t] == f
  }

  predicate Enabled(m: Manager, a: Action) {
    match a
    case InsertNode(_, _) => m.mutator.Idle?
    case RecordNode => m.mutator.Inserted?
    case ForgetNode(id) => m.mutator.Idle? && id in m.meta
    case DropNode => m.mutator.Removing?
    case BuildStart => m.mutator.Idle?
    case ResetGraph => m.mutator.Building?
    case ResetMeta => m.mutator.Building?
    case BuildInsert(_, _) => m.mutator.Building?
    case BuildRecord(_) => m.mutator.Building?
    case BuildDrop(_) => m.mutator.Building?
    case BuildForget(_) => m.mutator.Building?
    case BuildDone => m.mutator.Building?
    case BuildAbort => m.mutator.Building?
    case FlushStart(t) => t !in m.flushers && m.dirty
    case FlushCreate(t) => At(m, t, Cleared)
    case FlushExport(t) => At(m, t, Created)
    case FlushSave(t) => At(m, t, Exported)
    case FlushFail(t) => t in m.flushers
  }

  /** A section that is not enabled returns without effect. */
  function Step(m: Manager, a: Action): Manager {
    if !Enabled(m, a) then m
    else match a
      case InsertNode(id, v) => m.(graph := m.graph[id := v], mutator := Inserted(id))
      case RecordNode => m.(meta := m.meta + {m.mutator.id}, dirty := true, mutator := Idle)
      case ForgetNode(id) => m.(meta := m.meta - {id}, dirty := true, mutator := Removing(id))
      case DropNode => m.(graph := m.graph - {m.mutator.id}, mutator := Idle)
      case BuildStart => m.(mutator := Building)
      case ResetGraph => m.(graph := map[])
      case ResetMeta => m.(meta := {})
      case BuildInsert(id, v) => m.(graph := m.graph[id := v])
      case BuildRecord(id) => m.(meta := m.meta + {id})
      case BuildDrop(id) => m.(graph := m.graph - {id})
      case BuildForget(id) => m.(meta := m.meta - {id})
      case BuildDone => m.(dirty := true, mutator := Idle)
      case BuildAbort => m.(mutator := Idle)
      case FlushStart(t) => m.(dirty := false, flushers := m.flushers[t := Cleared])
      case FlushCreate(t) => m.(diskGraph := Truncated, flushers := m.flushers[t := Created])
      case FlushExport(t) => m.(diskGraph := Whole(m.graph), flushers := m.flushers[t := Exported])
      case FlushSave(t) => m.(diskMeta := m.meta, flushers := m.flushers - {t})
      case FlushFail(t) => m.(flushers := m.flushers - {t})
  }

  function Run(m: Manager, actions: seq<Action>): Manager
    decreases |actions|
  {
    if actions == [] then m else Run(Step(m, actions[0]), actions[1..])
  }

  // ---------- agreement ----------

  ghost predicate GraphSaved(m: Manager, id: string) {
    m.diskGraph.Whole? && SameAt(m.diskGraph.graph, m.graph, id)
  }

  /** The files say what memory says about every indexed id. */
  ghost predicate Agrees(m: Manager) {
    m.diskMeta == m.meta && forall id | id in m.meta :: GraphSaved(m, id)
  }

  predicate Settled(m: Manager) {
    m.mutator.Idle? && m.flushers == map[]
  }

  ghost predicate ExportPending(m: Manager) {
    exists t :: At(m, t, Cleared) || At(m, t, Created)
  }

  /** Every disagreement is owed by someone: the flag, a flusher yet to write, or the mutator in progress. */
  ghost predicate Inv(m: Manager) {
    && (m.diskMeta == m.meta || m.dirty || m.flushers != map[] || m.mutator.Building?)
    && (forall id | id in m.meta ::
          GraphSaved(m, id) || m.dirty || ExportPending(m) || m.mutator.Building? || m.mutator == Inserted(id))
    && (m.mutator.Removing? ==> m.mutator.id !in m.meta)
  }

  predicate Succeeds(a: Action) {
    !a.FlushFail? && !a.BuildAbort?
  }

  lemma MutatorStepKeepsInv(m: Manager, a: Action)
    requires Inv(m) && Succeeds(a) && !a.FlushStart? && !a.FlushCreate? && !a.FlushExport? && !a.FlushSave?
    ensures Inv(Step(m, a))
  {
    var m' := Step(m, a);
    assert forall t, f :: At(m', t, f) == At(m, t, f);
    if ExportPending(m) {
      var t :| At(m, t, Cleared) || At(m, t, Created);
      assert At(m', t, Cleared) || At(m', t, Created);
    }
    forall id | id in m'.meta && GraphSaved(m, id) && id in m.meta && !m'.mutator.Building? && m'.mutator != Inserted(id)
      ensures GraphSaved(m', id) || m'.dirty {}
  }

  lemma FlushStepKeepsInv(m: Manager, t: nat, a: Action)
    requires Inv(m) && (a == FlushStart(t) || a == FlushCreate(t) || a == FlushExport(t) || a == FlushSave(t))
    ensures Inv(Step(m, a))
  {
    var m' := Step(m, a);
    if Enabled(m, a) {
      if a.FlushStart? { assert At(m', t, Cleared); }
      if a.FlushCreate? { assert At(m', t, Created); }
      if a.FlushExport? { assert t in m'.flushers; }
      if a.FlushSave? && ExportPending(m) {
        var u :| At(m, u, Cleared) || At(m, u, Created);
        assert At(m', u, Cleared) || At(m', u, Created);
      }
    }
  }

  lemma StepKeepsInv(m: Manager, a: Action)
    requires Inv(m) && Succeeds(a)
    ensures Inv(Step(m, a))
  {
    if a.FlushStart? || a.FlushCreate? || a.FlushExport? || a.FlushSave? {
      FlushStepKeepsInv(m, a.t, a);
    } else {
      MutatorStepKeepsInv(m, a);
    }
  }

  lemma {:induction false} RunKeepsInv(m: Manager, actions: seq<Action>)
    requires Inv(m) && forall a | a in actions :: Succeeds(a)
    ensures Inv(Run(m, actions))
    decreases |actions|
  {
    if actions != [] {
      StepKeepsInv(m, actions[0]);
      RunKeepsInv(Step(m, actions[0]), actions[1..]);
    }
  }

  /** No lost update: however mutations and flushes interleave, a settled clean manager is saved. */
  lemma NoLostUpdate(m: Manager, actions: seq<Action>)
    requires Settled(m) && Agrees(m) && forall a | a in actions :: Succeeds(a)
    ensures var last := Run(m, actions);
            Settled(last) && !last.dirty ==>
              && Agrees(last)
              && (forall id | !GraphSaved(last, id) :: id !in last.meta)
  {
    RunKeepsInv(m, actions);
  }

  function WholeFlush(t: nat): seq<Action> {
    [FlushStart(t), FlushCreate(t), FlushExport(t), FlushSave(t)]
  }

  /** Caller t alone in a flush of m, with the given index file. */
  function InFlush(m: Manager, t: nat, f: Flusher, disk: IndexFile): Manager {
    m.(dirty := false, diskGraph := disk, flushers := map[t := f])
  }

  lemma FlushOpens(m: Manager, t: nat)
    requires m.flushers == map[] && m.dirty
    ensures Step(m, FlushStart(t)) == InFlush(m, t, Cleared, m.diskGraph)
    ensures Step(InFlush(m, t, Cleared, m.diskGraph), FlushCreate(t)) == InFlush(m, t, Created, Truncated)
  {
    assert map[t := Cleared][t := Created] == map[t := Created];
  }

  lemma FlushCloses(m: Manager, t: nat)
    requires m.flushers == map[]
    ensures Step(InFlush(m, t, Created, Truncated), FlushExport(t)) == InFlush(m, t, Exported, Whole(m.graph))
    ensures Step(InFlush(m, t, Exported, Whole(m.graph)), FlushSave(t))
         == m.(dirty := false, diskGraph := Whole(m.graph), diskMeta := m.meta)
  {
    assert map[t := Created][t := Exported] == map[t := Exported];
    assert map[t := Exported] - {t} == map[];
  }

  lemma FlushFails(m: Manager, t: nat, f: Flusher, disk: IndexFile)
    requires m.flushers == map[]
    ensures Step(InFlush(m, t, f, disk), FlushFail(t)) == m.(dirty := false, diskGraph := disk)
  {
    assert map[t := f] - {t} == map[];
  }

  lemma FlushWrites(m: Manager, t: nat)
    requires m.flushers == map[] && m.dirty
    ensures Run(m, WholeFlush(t)) == m.(dirty := false, diskGraph := Whole(m.graph), diskMeta := m.meta)
  {
    RunFour(m, WholeFlush(t));
    FlushOpens(m, t);
    FlushCloses(m, t);
  }

  /** From any settled state one undisturbed flush saves everything, the whole graph included. */
  lemma FlushSaves(m: Manager, t: nat)
    requires Settled(m) && Inv(m)
    ensures var last := Run(m, WholeFlush(t));
            Settled(last) && !last.dirty && Agrees(last) && last.graph == m.graph && last.meta == m.meta
            && (m.dirty ==> last.diskGraph == Whole(m.graph))
  {
    if m.dirty {
      FlushWrites(m, t);
    } else {
      RunFour(m, WholeFlush(t));
    }
  }

  lemma RunTwo(m: Manager, a: seq<Action>)
    requires |a| == 2
    ensures Run(m, a) == Step(Step(m, a[0]), a[1])
  {
    assert a[1..][1..] == [];
    assert Run(m, a) == Run(Step(m, a[0]), a[1..]);
  }

  lemma RunThree(m: Manager, a: seq<Action>)
    requires |a| == 3
    ensures Run(m, a) == Step(Step(Step(m, a[0]), a[1]), a[2])
  {
    RunTwo(Step(m, a[0]), a[1..]);
  }

  lemma RunFour(m: Manager, a: seq<Action>)
    requires |a| == 4
    ensures Run(m, a) == Step(Step(Step(Step(m, a[0]), a[1]), a[2]), a[3])
  {
    RunThree(Step(m, a[0]), a[1..]);
  }

  // ---------- why the hypotheses are needed ----------

  /** A whole flush, or one that fails at creating the file, at exporting or at saving the metadata. */
  function FlushRun(t: nat, failing: Option<Flusher>): seq<Action> {
    match failing
    case None => WholeFlush(t)
    case Some(Cleared) => [FlushStart(t), FlushFail(t)]
    case Some(Created) => [FlushStart(t), FlushCreate(t), FlushFail(t)]
    case Some(Exported) => [FlushStart(t), FlushCreate(t), FlushExport(t), FlushFail(t)]
  }

  /** What such a flush leaves when nothing interleaves. */
  function Flushed(m: Manager, failing: Option<Flusher>): Manager {
    if !m.dirty then m
    else match failing
      case None => m.(dirty := false, diskGraph := Whole(m.graph), diskMeta := m.meta)
      case Some(Cleared) => m.(dirty := false)
      case Some(Created) => m.(dirty := false, diskGraph := Truncated)
      case Some(Exported) => m.(dirty := false, diskGraph := Whole(m.graph))
  }

  lemma FlushRuns(m: Manager, t: nat, failing: Option<Flusher>)
    requires m.flushers == map[] && m.dirty
    ensures Run(m, FlushRun(t, failing)) == Flushed(m, failing)
    ensures failing.None? <==> forall a | a in FlushRun(t, failing) :: Succeeds(a)
  {
    if failing.Some? {
      var run := FlushRun(t, failing);
      assert !Succeeds(run[|run| - 1]);
    }
    FlushOpens(m, t);
    FlushCloses(m, t);
    match failing
    case None => FlushWrites(m, t);
    case Some(Cleared) =>
      RunTwo(m, FlushRun(t, failing));
      FlushFails(m, t, Cleared, m.diskGraph);
    case Some(Created) =>
      RunThree(m, FlushRun(t, failing));
      FlushFails(m, t, Created, Truncated);
    case Some(Exported) =>
      RunFour(m, FlushRun(t, failing));
      FlushFails(m, t, Exported, Whole(m.graph));
  }

  /**
   Flush clears the flag before writing, so a failed one always ends clean. When creating the file failed the
   files are right exactly if they were before; when exporting failed, exactly if nothing is indexed on either
   side; when saving the metadata failed, exactly if the old metadata is still right, since the graph is whole.
   */
  lemma FailedFlushIff(m: Manager, t: nat, f: Flusher)
    requires Settled(m) && m.dirty
    ensures var last := Run(m, FlushRun(t, Some(f)));
            && last == Flushed(m, Some(f)) && Settled(last) && !last.dirty
            && (Agrees(last) <==> match f
                                  case Cleared => Agrees(m)
                                  case Created => m.diskMeta == m.meta == {}
                                  case Exported => m.diskMeta == m.meta)
  {
    FlushRuns(m, t, Some(f));
    var last := Flushed(m, Some(f));
    match f
    case Cleared => assert forall id :: GraphSaved(last, id) == GraphSaved(m, id);
    case Created => assert forall id :: !GraphSaved(last, id);
    case Exported => assert forall id :: GraphSaved(last, id);
  }

  // ---------- restarting ----------

  /** What can go wrong in Load: unreadable metadata, an index file that does not open, import or validate. */
  datatype LoadFault = Loads | BadMetadata | Unopenable | BadImport | Invalid

  /**
   A new process: empty memory, then Load. A missing index file clears the metadata; a truncated one fails to
   import, with whatever partial graph that leaves, and keeps it. Only non-empty metadata is ever validated.
   */
  function Restarted(m: Manager, fault: LoadFault, partial: VectorMap): Manager {
    var empty := m.(graph := map[], meta := {}, dirty := false, mutator := Idle, flushers := map[]);
    if fault.BadMetadata? then empty
    else if fault.Unopenable? then empty.(meta := m.diskMeta)
    else match m.diskGraph
      case Missing => empty
      case Truncated => empty.(graph := partial, meta := m.diskMeta)
      case Whole(g) =>
        if fault.BadImport? then empty.(graph := partial, meta := m.diskMeta)
        else if fault.Invalid? && m.diskMeta != {} then empty
        else empty.(graph := g, meta := m.diskMeta)
  }

  /** Whether Load reports no error. */
  predicate LoadsWithoutError(m: Manager, fault: LoadFault) {
    !fault.BadMetadata? && !fault.Unopenable? && (m.diskGraph.Missing? || (m.diskGraph.Whole? && !fault.BadImport?))
  }

  /** Restarting a saved manager keeps the metadata and the vector of every indexed id. */
  lemma RestartKeepsIndexed(m: Manager)
    requires Agrees(m)
    ensures var r := Restarted(m, Loads, map[]);
            r.meta == m.meta && forall id | id in m.meta :: SameAt(r.graph, m.graph, id)
  {}

  /** An undisturbed successful flush followed by a restart gives back graph and metadata whole. */
  lemma FlushThenRestart(m: Manager, t: nat)
    requires Settled(m) && m.dirty
    ensures var r := Restarted(Run(m, WholeFlush(t)), Loads, map[]); r.graph == m.graph && r.meta == m.meta && !r.dirty
  {
    FlushWrites(m, t);
  }

  /** What the restart finds in the index file. */
  function LoadedGraph(m: Manager, fault: LoadFault, partial: VectorMap): VectorMap {
    if fault.Unopenable? then map[]
    else if m.diskGraph.Whole? && !fault.BadImport? then m.diskGraph.graph
    else partial
  }

  /** Whether the restart gives up on the metadata too. */
  predicate StartsOver(m: Manager, fault: LoadFault) {
    || fault.BadMetadata?
    || (m.diskGraph.Missing? && !fault.Unopenable?)
    || (m.diskGraph.Whole? && fault.Invalid? && m.diskMeta != {})
  }

  /** Exactly when a restart keeps the metadata of ids whose vectors it has not got. */
  lemma RestartHidesIff(m: Manager, fault: LoadFault, partial: VectorMap)
    ensures var r := Restarted(m, fault, partial);
            !(r.meta <= r.graph.Keys) <==> !StartsOver(m, fault) && !(m.diskMeta <= LoadedGraph(m, fault, partial).Keys)
  {}

  // ---------- removed nodes ----------

  predicate OnDisk(m: Manager, id: string) {
    m.diskGraph.Whole? && id in m.diskGraph.graph
  }

  /** No section of the run inserts the id. */
  predicate NeverInserts(actions: seq<Action>, id: string) {
    forall a | a in actions :: (a.InsertNode? || a.BuildInsert?) ==> a.id != id
  }

  /** Some flush creates or exports the index file during the run. */
  predicate Rewrites(m: Manager, actions: seq<Action>)
    decreases |actions|
  {
    actions != [] &&
    ((Enabled(m, actions[0]) && (actions[0].FlushCreate? || actions[0].FlushExport?)) || Rewrites(Step(m, actions[0]), actions[1..]))
  }

  /**
   Exactly when a node already out of the graph is still in the index file: it was there when it left the
   graph, and no flush has touched the file since.
   */
  lemma {:induction false} RemovedNodeSurvivesIff(m: Manager, actions: seq<Action>, id: string)
    requires id !in m.graph && NeverInserts(actions, id)
    ensures var last := Run(m, actions);
            id !in last.graph && (OnDisk(last, id) <==> OnDisk(m, id) && !Rewrites(m, actions))
    decreases |actions|
  {
    if actions != [] {
      var m1 := Step(m, actions[0]);
      assert actions[0] in actions;
      RemovedNodeSurvivesIff(m1, actions[1..], id);
    }
  }

  /**
   A flush between RemoveFromIndex's two sections saves the doomed node. After a restart it is back in the
   graph without metadata, and RemoveFromIndex no longer touches it.
   */
  lemma RemovedNodeComesBack(id: string, v: Vector) returns (actions: seq<Action>)
    ensures forall a | a in actions :: Succeeds(a)
    ensures var start := Manager(map[id := v], {id}, false, Whole(map[id := v]), {id}, Idle, map[]);
            var last := Run(start, actions);
            && Settled(start) && Agrees(start)
            && Settled(last) && !last.dirty && Agrees(last) && id !in last.graph
            && id in Restarted(last, Loads, map[]).graph
            && Step(Restarted(last, Loads, map[]), ForgetNode(id)) == Restarted(last, Loads, map[])
  {
    var g: VectorMap := map[id := v];
    var start := Manager(g, {id}, false, Whole(g), {id}, Idle, map[]);
    var flush := WholeFlush(0);
    actions := [ForgetNode(id)] + flush + [DropNode];
    var s1 := Step(start, ForgetNode(id));
    var s5 := Manager(g, {}, false, Whole(g), {}, Removing(id), map[]);
    assert Run(s1, flush) == s5 by { FlushWrites(s1, 0); }
    assert Run(s5, [DropNode]) == Run(Step(s5, DropNode), []);
    assert actions[1..] == flush + [DropNode];
    RunConcat(s1, flush, [DropNode]);
    assert Run(start, actions) == Step(s5, DropNode);
    assert GraphSaved(start, id);
  }

  lemma {:induction false} RunConcat(m: Manager, a: seq<Action>, b: seq<Action>)
    ensures Run(m, a + b) == Run(Run(m, a), b)
    decreases |a|
  {
    if a == [] {
      assert a + b == b;
    } else {
      assert (a + b)[0] == a[0] && (a + b)[1..] == a[1..] + b;
      RunConcat(Step(m, a[0]), a[1..], b);
    }
  }
}
