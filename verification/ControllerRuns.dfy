/** Store and index side by side: what each controller operation does to both, and which ids a run leaves only in the index. */
module ControllerRuns {
  import opened Entries
  import opened Managers
  import opened Merging
  import opened Rebuild
  import opened StableSort
  import opened Vectors
  import opened YamlState
  import YamlStore

  /** One hit of the index search; lower distance is closer. */
  datatype SearchResult = SearchResult(id: string, distance: real)

  function Orphans(m: EntryMap, results: seq<SearchResult>): set<string> {
    set r | r in results && r.id !in m :: r.id
  }

  /** What does not change while a controller runs: embed and dimensions belong to its embedder, if one is available. */
  datatype Settings = Settings(
    scopes: set<string>,
    autoHit: bool,
    available: bool,
    embed: string -> Option<Vector>,
    dimensions: nat)

  datatype Kept = Kept(contents: EntryMap, index: Held)

  /**
   ok, ok1 and ok2 say whether the store's file writes succeed; landed, gone, stuck and bad what fails in the two
   tables of the index; an AdminMerge is the daemon's merge; Forwards are the operations the index never hears of.
   */
  datatype Event =
    | Saves(entry: Entry, newId: string, now: Time, ok: bool, landed: bool)
    | Deletes(id: string, ok: bool, gone: bool)
    | Merges(keepId: string, deleteId: string, newId: string, now: Time, ok1: bool, landed: bool)
    | AdminMerges(keepId: string, deleteId: string, newId: string, now: Time, ok1: bool, landed: bool, ok2: bool, gone: bool)
    | Searches(hits: seq<SearchResult>, stuck: set<string>)
    | Rebuilds(listed: seq<Entry>, now: Time, force: bool, embedAll: seq<string> -> Option<seq<Vector>>, bad: Failures,
               flushOk: bool)
    | Forwards(op: Op)

  /** The manager's IndexEntry: an entry whose embedding fails or has the wrong size leaves the index as it was. */
  function Reindexed(c: Settings, h: Held, e: Entry, landed: bool): Held {
    var v := c.embed(e.content);
    if c.available && v.Some? && |v.value| == c.dimensions then Entered(h, e.id, v.value, landed) else h
  }

  /** A rebuild gives an entry the vector that indexing it alone gives it. */
  lemma RebuildIsReindex(c: Settings, h: Held, entries: seq<Entry>, force: bool, embedAll: seq<string> -> Option<seq<Vector>>,
                         bad: Failures, flushOk: bool, e: Entry)
    requires c.available && Batches(c.dimensions, c.embed, embedAll) && DistinctEntries(entries) && e in entries
    requires Rebuilding(c.dimensions, h, entries, force, embedAll, bad, flushOk).0 in {Built, FlushFailed}
    requires Embeds(h, force, bad, e.id) && (h.Joined? ==> e.id !in bad.refused)
    ensures SameAt(Rebuilding(c.dimensions, h, entries, force, embedAll, bad, flushOk).1.vectors,
                   Reindexed(c, h, e, true).vectors, e.id)
    ensures forall k | k in h.vectors && k != e.id :: SameAt(Reindexed(c, h, e, true).vectors, h.vectors, k)
  {
    RebuildEmbeds(c.dimensions, h, entries, force, c.embed, embedAll, bad, flushOk, e);
  }

  // ---------- how a merge ends ----------

  /** The entry a merge stores. */
  function MergedEntry(m: EntryMap, keepId: string, deleteId: string, newId: string, now: Time): Entry
    requires keepId in m && deleteId in m
  {
    Filled(Merged(m[keepId], m[deleteId]), newId, now)
  }

  /** The kept entry was looked up, accepted and written. */
  predicate MergeSaves(scopes: set<string>, m: EntryMap, keepId: string, deleteId: string, ok1: bool) {
    keepId in m && deleteId in m && Accepted(scopes, m[keepId]) && ok1
  }

  function MergeOutcome(scopes: set<string>, m: EntryMap, keepId: string, deleteId: string, ok1: bool, ok2: bool): Outcome {
    if keepId !in m || deleteId !in m then NotFound
    else if !IsAllowedCategory(m[keepId].category) then NotAllowed
    else if NormalizedScope(m[keepId].scope) !in scopes then ScopeNotConfigured
    else Written(ok1 && ok2)
  }

  /** The store after a merge: untouched, half done after a failed first write, or merged. */
  function MergeContents(scopes: set<string>, m: EntryMap, keepId: string, deleteId: string, newId: string, now: Time,
                         ok1: bool): EntryMap
  {
    if keepId !in m || deleteId !in m || !Accepted(scopes, m[keepId]) then m
    else if ok1 then MergeMap(m, keepId, deleteId, newId, now)
    else var e := MergedEntry(m, keepId, deleteId, newId, now); m[e.id := e]
  }

  /** The store once a merge has put the kept entry, before it deletes the other. */
  function MergePut(scopes: set<string>, m: EntryMap, keepId: string, deleteId: string, newId: string, now: Time): EntryMap {
    if keepId !in m || deleteId !in m || !Accepted(scopes, m[keepId]) then m
    else var e := MergedEntry(m, keepId, deleteId, newId, now); m[e.id := e]
  }

  lemma MergeEnds(scopes: set<string>, m: EntryMap, keepId: string, deleteId: string, newId: string, now: Time, ok1: bool)
    ensures var put := MergePut(scopes, m, keepId, deleteId, newId, now);
            MergeContents(scopes, m, keepId, deleteId, newId, now, ok1)
              == (if MergeSaves(scopes, m, keepId, deleteId, ok1) then put - {deleteId} else put)
    ensures MergeSaves(scopes, m, keepId, deleteId, ok1) ==> deleteId in MergePut(scopes, m, keepId, deleteId, newId, now)
  {}

  /** The index once a merge has saved the kept entry, before anything is said about the loser. */
  function MergeEntered(c: Settings, k: Kept, keepId: string, deleteId: string, newId: string, now: Time, ok1: bool,
                        landed: bool): Held
  {
    if MergeSaves(c.scopes, k.contents, keepId, deleteId, ok1)
    then Reindexed(c, k.index, MergedEntry(k.contents, keepId, deleteId, newId, now), landed) else k.index
  }

  // ---------- one event ----------

  function Did(c: Settings, k: Kept, e: Event): Kept {
    match e
    case Saves(entry, newId, now, ok, landed) =>
      if !Accepted(c.scopes, entry) then k else
        var stored := Filled(entry, newId, now);
        Kept(k.contents[stored.id := stored], if ok then Reindexed(c, k.index, stored, landed) else k.index)
    case Deletes(id, ok, gone) =>
      Kept(k.contents - {id}, if id in k.contents && ok && c.available then Dropped(k.index, id, gone) else k.index)
    case Merges(keepId, deleteId, newId, now, ok1, landed) =>
      Kept(MergeContents(c.scopes, k.contents, keepId, deleteId, newId, now, ok1),
           MergeEntered(c, k, keepId, deleteId, newId, now, ok1, landed))
    case AdminMerges(keepId, deleteId, newId, now, ok1, landed, ok2, gone) =>
      if keepId == "" || deleteId == "" then k else
        var entered := MergeEntered(c, k, keepId, deleteId, newId, now, ok1, landed);
        Kept(MergeContents(c.scopes, k.contents, keepId, deleteId, newId, now, ok1),
             if Tells(c, k, e) then Dropped(entered, deleteId, gone) else entered)
    case Searches(hits, stuck) =>
      if c.available then k.(index := DroppedAll(k.index, Orphans(k.contents, hits), stuck)) else k
    case Rebuilds(listed, now, force, embedAll, bad, flushOk) =>
      if !c.available then k else
        Kept(YamlStore.Noted(c.autoHit, k.contents, listed, now),
             Rebuilding(c.dimensions, k.index, listed, force, embedAll, bad, flushOk).1)
    case Forwards(op) => k.(contents := MapStep(c.scopes, c.autoHit, k.contents, op))
  }

  /** The daemon's merge got as far as telling the index of the loser. */
  predicate Tells(c: Settings, k: Kept, e: Event)
    requires e.AdminMerges?
  {
    MergeSaves(c.scopes, k.contents, e.keepId, e.deleteId, e.ok1) && e.ok2 && c.available
  }

  /** A rebuild is handed exactly the stored ids, as the store lists them; the index hears of upserts and deletions. */
  predicate Lawful(k: Kept, e: Event) {
    && (e.Rebuilds? ==> IdsOf(e.listed) == k.contents.Keys)
    && (e.Forwards? ==> !e.op.Upsert? && !e.op.Delete?)
  }

  // ---------- ids that only the index has ----------

  function Orphaned(k: Kept): set<string> {
    k.index.vectors.Keys - k.contents.Keys
  }

  /** A deletion takes the id out: its statement succeeds, or the metadata knows it. */
  predicate Removes(h: Held, id: string, gone: bool) {
    if h.Joined? then gone else id in h.meta
  }

  /** The ids an event takes from the store and leaves in the index. */
  function Abandons(c: Settings, k: Kept, e: Event): set<string> {
    match e
    case Deletes(id, ok, gone) =>
      if id in k.contents && id in k.index.vectors && !(ok && c.available && Removes(k.index, id, gone)) then {id} else {}
    case Merges(keepId, deleteId, newId, now, ok1, landed) =>
      var entered := MergeEntered(c, k, keepId, deleteId, newId, now, ok1, landed);
      if MergeSaves(c.scopes, k.contents, keepId, deleteId, ok1) && deleteId in entered.vectors then {deleteId} else {}
    case AdminMerges(keepId, deleteId, newId, now, ok1, landed, ok2, gone) =>
      var entered := MergeEntered(c, k, keepId, deleteId, newId, now, ok1, landed);
      if keepId != "" && deleteId != "" && MergeSaves(c.scopes, k.contents, keepId, deleteId, ok1)
         && deleteId in entered.vectors && !(Tells(c, k, e) && Removes(entered, deleteId, gone)) then {deleteId} else {}
    case _ => {}
  }

  /** The id a merge stores, whether or not its write succeeds. */
  function MergeStores(c: Settings, k: Kept, keepId: string, deleteId: string, newId: string, now: Time): set<string> {
    if keepId in k.contents && deleteId in k.contents && Accepted(c.scopes, k.contents[keepId])
    then {MergedEntry(k.contents, keepId, deleteId, newId, now).id} else {}
  }

  /** The ids an event stores again or takes out of the index, if they were orphans. */
  function Reclaims(c: Settings, k: Kept, e: Event): set<string> {
    match e
    case Saves(entry, newId, now, _, _) => if Accepted(c.scopes, entry) then {Filled(entry, newId, now).id} else {}
    case Merges(keepId, deleteId, newId, now, _, _) => MergeStores(c, k, keepId, deleteId, newId, now)
    case AdminMerges(keepId, deleteId, newId, now, _, _, _, _) =>
      if keepId == "" || deleteId == "" then {} else MergeStores(c, k, keepId, deleteId, newId, now)
    case Searches(hits, stuck) =>
      if c.available then Orphans(k.contents, hits) - Staying(k.index, Orphans(k.contents, hits), stuck) else {}
    case Rebuilds(_, _, force, _, bad, _) =>
      if c.available then Orphaned(k) - Stuck(k.index, k.contents.Keys, force, bad) else {}
    case _ => {}
  }

  lemma ReindexedKeys(c: Settings, h: Held, e: Entry, landed: bool)
    ensures h.vectors.Keys <= Reindexed(c, h, e, landed).vectors.Keys <= h.vectors.Keys + {e.id}
    ensures Aligned(h) ==> Aligned(Reindexed(c, h, e, landed))
  {}

  lemma DroppedKeys(h: Held, id: string, gone: bool)
    ensures Dropped(h, id, gone).vectors.Keys == h.vectors.Keys - if Removes(h, id, gone) then {id} else {}
  {}

  lemma SaveOrphans(c: Settings, k: Kept, e: Event)
    requires e.Saves?
    ensures Orphaned(Did(c, k, e)) == Orphaned(k) - Reclaims(c, k, e) + Abandons(c, k, e)
  {
    ReindexedKeys(c, k.index, Filled(e.entry, e.newId, e.now), e.landed);
  }

  lemma DeleteOrphans(c: Settings, k: Kept, e: Event)
    requires e.Deletes?
    ensures Orphaned(Did(c, k, e)) == Orphaned(k) - Reclaims(c, k, e) + Abandons(c, k, e)
  {
    DroppedKeys(k.index, e.id, e.gone);
  }

  lemma MergeOrphans(c: Settings, k: Kept, e: Event)
    requires e.Merges?
    ensures Orphaned(Did(c, k, e)) == Orphaned(k) - Reclaims(c, k, e) + Abandons(c, k, e)
  {
    if MergeSaves(c.scopes, k.contents, e.keepId, e.deleteId, e.ok1) {
      ReindexedKeys(c, k.index, MergedEntry(k.contents, e.keepId, e.deleteId, e.newId, e.now), e.landed);
    }
  }

  lemma AdminMergeOrphans(c: Settings, k: Kept, e: Event)
    requires e.AdminMerges?
    ensures Orphaned(Did(c, k, e)) == Orphaned(k) - Reclaims(c, k, e) + Abandons(c, k, e)
  {
    if MergeSaves(c.scopes, k.contents, e.keepId, e.deleteId, e.ok1) {
      ReindexedKeys(c, k.index, MergedEntry(k.contents, e.keepId, e.deleteId, e.newId, e.now), e.landed);
    }
    DroppedKeys(MergeEntered(c, k, e.keepId, e.deleteId, e.newId, e.now, e.ok1, e.landed), e.deleteId, e.gone);
  }

  lemma SearchOrphans(c: Settings, k: Kept, e: Event)
    requires e.Searches?
    ensures Orphaned(Did(c, k, e)) == Orphaned(k) - Reclaims(c, k, e) + Abandons(c, k, e)
  {
    DroppedAllExact(k.index, Orphans(k.contents, e.hits), e.stuck);
  }

  lemma RebuildOrphans(c: Settings, k: Kept, e: Event)
    requires e.Rebuilds? && Lawful(k, e)
    ensures Orphaned(Did(c, k, e)) == Orphaned(k) - Reclaims(c, k, e) + Abandons(c, k, e)
  {
    RebuildingOrphans(c.dimensions, k.index, e.listed, e.force, e.embedAll, e.bad, e.flushOk);
    assert Stuck(k.index, k.contents.Keys, e.force, e.bad) <= Orphaned(k);
    assert YamlStore.Noted(c.autoHit, k.contents, e.listed, e.now).Keys == k.contents.Keys;
  }

  /** What one event does to the ids that only the index has. */
  lemma StepOrphans(c: Settings, k: Kept, e: Event)
    requires Lawful(k, e)
    ensures Orphaned(Did(c, k, e)) == Orphaned(k) - Reclaims(c, k, e) + Abandons(c, k, e)
  {
    match e
    case Saves(_, _, _, _, _) => SaveOrphans(c, k, e);
    case Deletes(_, _, _) => DeleteOrphans(c, k, e);
    case Merges(_, _, _, _, _, _) => MergeOrphans(c, k, e);
    case AdminMerges(_, _, _, _, _, _, _, _) => AdminMergeOrphans(c, k, e);
    case Searches(_, _) => SearchOrphans(c, k, e);
    case Rebuilds(_, _, _, _, _, _) => RebuildOrphans(c, k, e);
    case Forwards(_) =>
  }

  /** No event makes graph and metadata drift apart. */
  lemma StepAligned(c: Settings, k: Kept, e: Event)
    requires Aligned(k.index)
    ensures Aligned(Did(c, k, e).index)
  {
    match e
    case Saves(entry, newId, now, _, landed) => ReindexedKeys(c, k.index, Filled(entry, newId, now), landed);
    case Deletes(id, _, gone) => DroppedIff(k.index, id, gone);
    case Merges(_, _, _, _, _, _) =>
    case AdminMerges(keepId, deleteId, newId, now, ok1, landed, _, gone) =>
      DroppedIff(MergeEntered(c, k, keepId, deleteId, newId, now, ok1, landed), deleteId, gone);
    case Searches(hits, stuck) => DroppedAllExact(k.index, Orphans(k.contents, hits), stuck);
    case Rebuilds(listed, _, force, embedAll, bad, flushOk) =>
      RebuildingAligned(c.dimensions, k.index, listed, force, embedAll, bad, flushOk);
    case Forwards(_) =>
  }

  /** k1 is what the event makes of k; which ids have become orphans and which no longer are; and nothing drifts. */
  ghost predicate Follows(c: Settings, k: Kept, e: Event, k1: Kept) {
    && k1 == Did(c, k, e)
    && Orphaned(k1) == Orphaned(k) - Reclaims(c, k, e) + Abandons(c, k, e)
    && (Aligned(k.index) ==> Aligned(k1.index))
  }

  lemma DidFollows(c: Settings, k: Kept, e: Event)
    requires Lawful(k, e)
    ensures Follows(c, k, e, Did(c, k, e))
  {
    StepOrphans(c, k, e);
    if Aligned(k.index) { StepAligned(c, k, e); }
  }

  lemma SaveFollows(c: Settings, k: Kept, entry: Entry, newId: string, now: Time, ok: bool, landed: bool, m1: EntryMap, h1: Held)
    requires m1 == MapStep(c.scopes, c.autoHit, k.contents, Op.Upsert(entry, newId, now, ok))
    requires h1 == if Accepted(c.scopes, entry) && ok then Reindexed(c, k.index, Filled(entry, newId, now), landed) else k.index
    ensures Follows(c, k, Saves(entry, newId, now, ok, landed), Kept(m1, h1))
  {
    DidFollows(c, k, Saves(entry, newId, now, ok, landed));
  }

  lemma DeleteFollows(c: Settings, k: Kept, id: string, ok: bool, gone: bool, m1: EntryMap, h1: Held)
    requires m1 == k.contents - {id}
    requires h1 == if id in k.contents && ok && c.available then Dropped(k.index, id, gone) else k.index
    ensures Follows(c, k, Deletes(id, ok, gone), Kept(m1, h1))
  {
    DidFollows(c, k, Deletes(id, ok, gone));
  }

  lemma MergeFollows(c: Settings, k: Kept, keepId: string, deleteId: string, newId: string, now: Time, ok1: bool, landed: bool,
                     m1: EntryMap, h1: Held)
    requires m1 == MergeContents(c.scopes, k.contents, keepId, deleteId, newId, now, ok1)
    requires h1 == MergeEntered(c, k, keepId, deleteId, newId, now, ok1, landed)
    ensures Follows(c, k, Merges(keepId, deleteId, newId, now, ok1, landed), Kept(m1, h1))
  {
    DidFollows(c, k, Merges(keepId, deleteId, newId, now, ok1, landed));
  }

  lemma AdminMergeFollows(c: Settings, k: Kept, e: Event, m1: EntryMap, h1: Held)
    requires e.AdminMerges?
    requires if e.keepId == "" || e.deleteId == "" then m1 == k.contents && h1 == k.index else
             var entered := MergeEntered(c, k, e.keepId, e.deleteId, e.newId, e.now, e.ok1, e.landed);
             && m1 == MergeContents(c.scopes, k.contents, e.keepId, e.deleteId, e.newId, e.now, e.ok1)
             && h1 == if Tells(c, k, e) then Dropped(entered, e.deleteId, e.gone) else entered
    ensures Follows(c, k, e, Kept(m1, h1))
  {
    DidFollows(c, k, e);
  }

  // ---------- runs ----------

  /** Store and index after the events. */
  function After(c: Settings, k: Kept, events: seq<Event>): Kept
    decreases |events|
  {
    if events == [] then k else
      var n := |events| - 1;
      Did(c, After(c, k, events[..n]), events[n])
  }

  predicate LawfulRun(c: Settings, k: Kept, events: seq<Event>) {
    forall i | 0 <= i < |events| :: Lawful(After(c, k, events[..i]), events[i])
  }

  /** Event i of the run abandons, or reclaims, the id. */
  predicate AbandonedAt(c: Settings, k: Kept, events: seq<Event>, i: int, id: string) {
    0 <= i < |events| && id in Abandons(c, After(c, k, events[..i]), events[i])
  }

  predicate ReclaimedAt(c: Settings, k: Kept, events: seq<Event>, i: int, id: string) {
    0 <= i < |events| && id in Reclaims(c, After(c, k, events[..i]), events[i])
  }

  /** Nothing from event i on reclaims the id. */
  predicate LostFrom(c: Settings, k: Kept, events: seq<Event>, i: int, id: string) {
    forall j | i <= j < |events| :: !ReclaimedAt(c, k, events, j, id)
  }

  /** Where the run left the id only in the index for good: before it began, or at an event that abandoned it. */
  ghost predicate LeftBehind(c: Settings, k: Kept, events: seq<Event>, id: string) {
    || (id in Orphaned(k) && LostFrom(c, k, events, 0, id))
    || exists i :: AbandonedAt(c, k, events, i, id) && LostFrom(c, k, events, i + 1, id)
  }

  lemma PrefixEvents(c: Settings, k: Kept, events: seq<Event>, n: nat, i: nat, id: string)
    requires i < n <= |events|
    ensures AbandonedAt(c, k, events[..n], i, id) == AbandonedAt(c, k, events, i, id)
    ensures ReclaimedAt(c, k, events[..n], i, id) == ReclaimedAt(c, k, events, i, id)
    ensures Lawful(After(c, k, events[..n][..i]), events[..n][i]) == Lawful(After(c, k, events[..i]), events[i])
  {
    assert events[..n][..i] == events[..i];
  }

  lemma LostThen(c: Settings, k: Kept, events: seq<Event>, n: nat, i: nat, id: string)
    requires n == |events| - 1 && i <= n
    ensures LostFrom(c, k, events, i, id) <==> LostFrom(c, k, events[..n], i, id) && !ReclaimedAt(c, k, events, n, id)
  {
    forall j | i <= j < n ensures ReclaimedAt(c, k, events[..n], j, id) == ReclaimedAt(c, k, events, j, id) {
      PrefixEvents(c, k, events, n, j, id);
    }
  }

  lemma LeftThen(c: Settings, k: Kept, events: seq<Event>, n: nat, id: string)
    requires n == |events| - 1
    ensures LeftBehind(c, k, events, id) <==>
              AbandonedAt(c, k, events, n, id) || (LeftBehind(c, k, events[..n], id) && !ReclaimedAt(c, k, events, n, id))
  {
    LostThen(c, k, events, n, 0, id);
    forall i | 0 <= i < n
      ensures AbandonedAt(c, k, events[..n], i, id) == AbandonedAt(c, k, events, i, id)
      ensures LostFrom(c, k, events, i + 1, id) <==> LostFrom(c, k, events[..n], i + 1, id) && !ReclaimedAt(c, k, events, n, id)
    {
      PrefixEvents(c, k, events, n, i, id);
      LostThen(c, k, events, n, i + 1, id);
    }
    if AbandonedAt(c, k, events, n, id) { assert LostFrom(c, k, events, n + 1, id); }
  }

  /**
   After any run an id is in the index without being stored exactly when some event abandoned it, or it began
   so, and no later event stored it again, met it in a search, or rebuilt the index without it.
   */
  lemma {:induction false} OrphansIff(c: Settings, k: Kept, events: seq<Event>, id: string)
    requires LawfulRun(c, k, events)
    ensures id in Orphaned(After(c, k, events)) <==> LeftBehind(c, k, events, id)
    decreases |events|
  {
    if events != [] {
      var n := |events| - 1;
      forall i | 0 <= i < n ensures Lawful(After(c, k, events[..n][..i]), events[..n][i]) {
        PrefixEvents(c, k, events, n, i, id);
      }
      OrphansIff(c, k, events[..n], id);
      StepOrphans(c, After(c, k, events[..n]), events[n]);
      LeftThen(c, k, events, n, id);
    }
  }

  /** No run makes graph and metadata drift apart. */
  lemma {:induction false} RunAligned(c: Settings, k: Kept, events: seq<Event>)
    requires Aligned(k.index)
    ensures Aligned(After(c, k, events).index)
    decreases |events|
  {
    if events != [] {
      var n := |events| - 1;
      RunAligned(c, k, events[..n]);
      StepAligned(c, After(c, k, events[..n]), events[n]);
    }
  }

  /** Every deletion reaches store and index. */
  predicate Heard(e: Event) {
    && (e.Deletes? ==> e.ok && e.gone)
    && (e.AdminMerges? ==> e.ok2 && e.gone)
  }

  /** With an embedder, and when no deletion fails, whatever only the index has was merged away since it was last reclaimed. */
  lemma OrphansWereMerged(c: Settings, k: Kept, events: seq<Event>, id: string)
    requires LawfulRun(c, k, events) && c.available && Aligned(k.index) && Orphaned(k) == {}
    requires forall i | 0 <= i < |events| :: Heard(events[i])
    ensures id in Orphaned(After(c, k, events)) ==>
              exists i :: AbandonedAt(c, k, events, i, id) && events[i].Merges? && events[i].deleteId == id
                          && LostFrom(c, k, events, i + 1, id)
  {
    OrphansIff(c, k, events, id);
    if LeftBehind(c, k, events, id) {
      var i :| AbandonedAt(c, k, events, i, id) && LostFrom(c, k, events, i + 1, id);
      var e, before := events[i], After(c, k, events[..i]);
      assert Heard(e);
      RunAligned(c, k, events[..i]);
      if e.AdminMerges? && MergeSaves(c.scopes, before.contents, e.keepId, e.deleteId, e.ok1) {
        ReindexedKeys(c, before.index, MergedEntry(before.contents, e.keepId, e.deleteId, e.newId, e.now), e.landed);
      }
    }
  }
}
