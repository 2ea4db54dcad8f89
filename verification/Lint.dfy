/** The linter: one greedy pass over all entries, and what the user's choices over its proposals may refer to. */
module Lint {
  import opened Controller
  import opened ControllerRuns
  import opened Effects
  import opened Entries
  import opened Merging
  import opened StableSort
  import opened Vectors
  import opened YamlState

  /** The similarity lookup at the linter's threshold; None when it fails. */
  type Lookup = string -> Option<seq<SimilarEntry>>

  datatype Kind = ToMerge | ToDelete

  datatype Action = Action(kind: Kind, left: Entry, right: Entry, similarity: real)

  const NEAR_DUPLICATE := 0.98

  // ---------- the pass ----------

  predicate UniqueTags(first: Entry, second: Entry) {
    exists t | t in first.tags :: t !in second.tags
  }

  method HasUniqueTags(first: Entry, second: Entry) returns (r: bool)
    ensures r <==> UniqueTags(first, second)
  {
    var tags := Elems(second.tags);
    for i := 0 to |first.tags|
      invariant forall t | t in first.tags[..i] :: t in second.tags
    {
      if first.tags[i] !in tags { return true; }
    }
    r := false;
  }

  function HitIds(hits: seq<SimilarEntry>): set<string> {
    set h | h in hits :: h.entry.id
  }

  function Propose(left: Entry, s: SimilarEntry): Action {
    var similarity := 1.0 - s.distance;
    Action(if similarity >= NEAR_DUPLICATE && !UniqueTags(s.entry, left) then ToDelete else ToMerge, left, s.entry, similarity)
  }

  /** The hits not seen before, each against left. */
  function Proposals(seen: set<string>, left: Entry, hits: seq<SimilarEntry>): seq<Action> {
    if hits == [] then [] else
      var front, last := hits[..|hits| - 1], hits[|hits| - 1];
      Proposals(seen, left, front) + if last.entry.id in seen + HitIds(front) then [] else [Propose(left, last)]
  }

  function Skips(find: Lookup, seen: set<string>, e: Entry): bool {
    e.id in seen || find(e.id).None?
  }

  /** The seen set after a pass over es: a failed lookup marks nothing. */
  function Seen(find: Lookup, es: seq<Entry>): set<string> {
    if es == [] then {} else
      var e, seen := es[|es| - 1], Seen(find, es[..|es| - 1]);
      if Skips(find, seen, e) then seen else seen + HitIds(find(e.id).value) + {e.id}
  }

  function Actions(find: Lookup, es: seq<Entry>): seq<Action> {
    if es == [] then [] else
      var e, seen := es[|es| - 1], Seen(find, es[..|es| - 1]);
      Actions(find, es[..|es| - 1]) + if Skips(find, seen, e) then [] else Proposals(seen, e, find(e.id).value)
  }

  lemma HitIdsSnoc(hits: seq<SimilarEntry>, i: nat)
    requires i < |hits|
    ensures HitIds(hits[..i + 1]) == HitIds(hits[..i]) + {hits[i].entry.id}
  {}

  method ProposeAll(seen: set<string>, left: Entry, hits: seq<SimilarEntry>) returns (actions: seq<Action>, marked: set<string>)
    ensures actions == Proposals(seen, left, hits) && marked == seen + HitIds(hits)
  {
    actions, marked := [], seen;
    for i := 0 to |hits|
      invariant actions == Proposals(seen, left, hits[..i]) && marked == seen + HitIds(hits[..i])
    {
      assert hits[..i + 1][..i] == hits[..i];
      HitIdsSnoc(hits, i);
      if hits[i].entry.id in marked { continue; }
      var similarity, kind := 1.0 - hits[i].distance, ToMerge;
      var unique := HasUniqueTags(hits[i].entry, left);
      if similarity >= NEAR_DUPLICATE && !unique { kind := ToDelete; }
      actions := actions + [Action(kind, left, hits[i].entry, similarity)];
      marked := marked + {hits[i].entry.id};
    }
    assert hits[..|hits|] == hits;
  }

  method Analyze(find: Lookup, entries: seq<Entry>) returns (actions: seq<Action>)
    ensures actions == Actions(find, entries)
  {
    actions := [];
    var seen: set<string> := {};
    for i := 0 to |entries|
      invariant actions == Actions(find, entries[..i]) && seen == Seen(find, entries[..i])
    {
      Snoc(find, entries, i);
      var e := entries[i];
      if e.id in seen { continue; }
      var hits := find(e.id);
      if hits.None? { continue; }
      var more;
      more, seen := ProposeAll(seen, e, hits.value);
      actions := actions + more;
      seen := seen + {e.id};
    }
    assert entries[..|entries|] == entries;
  }

  // ---------- the proposals ----------

  function Rights(actions: seq<Action>): set<string> {
    set a | a in actions :: a.right.id
  }

  ghost predicate DistinctRights(actions: seq<Action>) {
    forall i, j | 0 <= i < j < |actions| :: actions[i].right.id != actions[j].right.id
  }

  /** No entry is proposed for removal twice, and none that others are compared with is proposed at all. */
  ghost predicate Proper(actions: seq<Action>) {
    && DistinctRights(actions)
    && (forall a | a in actions :: a.left.id !in Rights(actions))
  }

  /** A lookup never returns the entry it was asked about. */
  ghost predicate Irreflexive(find: Lookup) {
    forall id | find(id).Some? :: id !in HitIds(find(id).value)
  }

  ghost predicate Similars(find: Lookup, x: string, y: string) {
    find(x).Some? && y in HitIds(find(x).value)
  }

  ghost predicate Symmetric(find: Lookup) {
    forall x, y | Similars(find, x, y) :: Similars(find, y, x)
  }

  lemma {:induction false} ProposalsFrom(seen: set<string>, left: Entry, hits: seq<SimilarEntry>, a: Action)
    requires a in Proposals(seen, left, hits)
    ensures a.left == left && exists h :: h in hits && a == Propose(left, h)
  {
    var front, last := hits[..|hits| - 1], hits[|hits| - 1];
    assert hits == front + [last];
    if a in Proposals(seen, left, front) { ProposalsFrom(seen, left, front, a); }
  }

  lemma {:induction false} ProposalsRights(seen: set<string>, left: Entry, hits: seq<SimilarEntry>)
    ensures Rights(Proposals(seen, left, hits)) == HitIds(hits) - seen
  {
    if hits != [] {
      var front, last := hits[..|hits| - 1], hits[|hits| - 1];
      ProposalsRights(seen, left, front);
      assert hits[..|hits|] == hits;
      HitIdsSnoc(hits, |hits| - 1);
      RightsSnoc(Proposals(seen, left, front), Propose(left, last));
      assert Proposals(seen, left, front) + [] == Proposals(seen, left, front);
    }
  }

  lemma {:induction false} ProposalsDistinct(seen: set<string>, left: Entry, hits: seq<SimilarEntry>)
    ensures DistinctRights(Proposals(seen, left, hits))
  {
    if hits != [] {
      var front, last := hits[..|hits| - 1], hits[|hits| - 1];
      ProposalsDistinct(seen, left, front);
      ProposalsRights(seen, left, front);
      DistinctRightsConcat(Proposals(seen, left, front), if last.entry.id in seen + HitIds(front) then [] else [Propose(left, last)]);
    }
  }

  lemma DistinctRightsConcat(a: seq<Action>, b: seq<Action>)
    requires DistinctRights(a) && DistinctRights(b) && Rights(a) !! Rights(b)
    ensures DistinctRights(a + b)
  {
    var c := a + b;
    forall i, j | 0 <= i < j < |c| ensures c[i].right.id != c[j].right.id {
      if i < |a| <= j { assert a[i].right.id in Rights(a) && b[j - |a|].right.id in Rights(b); }
    }
  }

  lemma RightsSnoc(actions: seq<Action>, a: Action)
    ensures Rights(actions + [a]) == Rights(actions) + {a.right.id}
  {}

  lemma RightsConcat(a: seq<Action>, b: seq<Action>)
    ensures Rights(a + b) == Rights(a) + Rights(b)
  {}

  /** What one more entry adds to the pass. */
  lemma Snoc(find: Lookup, es: seq<Entry>, n: nat)
    requires n < |es|
    ensures var e, seen := es[n], Seen(find, es[..n]);
            if Skips(find, seen, e) then
              Seen(find, es[..n + 1]) == seen && Actions(find, es[..n + 1]) == Actions(find, es[..n])
            else
              && Seen(find, es[..n + 1]) == seen + HitIds(find(e.id).value) + {e.id}
              && Actions(find, es[..n + 1]) == Actions(find, es[..n]) + Proposals(seen, e, find(e.id).value)
              && Rights(Actions(find, es[..n + 1])) == Rights(Actions(find, es[..n])) + (HitIds(find(e.id).value) - seen)
  {
    var e, seen := es[n], Seen(find, es[..n]);
    assert es[..n + 1][..n] == es[..n];
    if !Skips(find, seen, e) {
      ProposalsRights(seen, e, find(e.id).value);
      RightsConcat(Actions(find, es[..n]), Proposals(seen, e, find(e.id).value));
    } else {
      assert Actions(find, es[..n]) + [] == Actions(find, es[..n]);
    }
  }

  /** Everything proposed was seen, and everything seen was proposed or processed. */
  ghost predicate Covered(rights: set<string>, seen: set<string>, ids: set<string>) {
    rights <= seen <= rights + ids
  }

  lemma {:induction false} SeenExact(find: Lookup, es: seq<Entry>, n: nat)
    requires n <= |es|
    ensures Covered(Rights(Actions(find, es[..n])), Seen(find, es[..n]), IdsOf(es[..n]))
    decreases n
  {
    if n > 0 {
      var e, seen := es[n - 1], Seen(find, es[..n - 1]);
      SeenExact(find, es, n - 1);
      Snoc(find, es, n - 1);
      IdsOfPrefix(es, n - 1);
      if !Skips(find, seen, e) {
        StillCovered(Rights(Actions(find, es[..n - 1])), seen, IdsOf(es[..n - 1]), HitIds(find(e.id).value), e.id);
      }
    }
  }

  lemma StillCovered(rights: set<string>, seen: set<string>, ids: set<string>, hits: set<string>, id: string)
    requires Covered(rights, seen, ids)
    ensures Covered(rights + (hits - seen), seen + hits + {id}, ids + {id})
  {}

  /** The lefts: processed, seen, and never themselves proposed. */
  lemma {:induction false} ActionsAreProper(find: Lookup, es: seq<Entry>, n: nat)
    requires n <= |es| && Irreflexive(find)
    ensures Proper(Actions(find, es[..n]))
    ensures forall a | a in Actions(find, es[..n]) :: a.left.id in Seen(find, es[..n])
    decreases n
  {
    if n > 0 {
      var e, seen, acts := es[n - 1], Seen(find, es[..n - 1]), Actions(find, es[..n - 1]);
      ActionsAreProper(find, es, n - 1);
      Snoc(find, es, n - 1);
      if !Skips(find, seen, e) {
        var more := Proposals(seen, e, find(e.id).value);
        SeenExact(find, es, n - 1);
        ProposalsDistinct(seen, e, find(e.id).value);
        ProposalsRights(seen, e, find(e.id).value);
        DistinctRightsConcat(acts, more);
        forall a: Action | a in acts + more ensures a.left.id !in Rights(acts + more) && a.left.id in Seen(find, es[..n]) {
          if a in more { ProposalsFrom(seen, e, find(e.id).value, a); }
        }
      }
    }
  }

  // ---------- what the pass computes ----------

  /** Every entry could be looked up. */
  ghost predicate Answered(find: Lookup, es: seq<Entry>) {
    forall e | e in es :: find(e.id).Some?
  }

  /** The proposals of a prefix stay. */
  lemma {:induction false} ActionsGrow(find: Lookup, es: seq<Entry>, n: nat, m: nat)
    requires n <= m <= |es|
    ensures Actions(find, es[..n]) <= Actions(find, es[..m])
    ensures Rights(Actions(find, es[..n])) <= Rights(Actions(find, es[..m]))
    ensures Seen(find, es[..n]) <= Seen(find, es[..m])
    decreases m - n
  {
    if n < m {
      ActionsGrow(find, es, n, m - 1);
      Snoc(find, es, m - 1);
    }
  }

  /** Once its turn is over an entry is seen, and unless it was proposed so is all it resembles. */
  lemma AfterItsTurn(find: Lookup, es: seq<Entry>, i: nat)
    requires i < |es| && find(es[i].id).Some? && DistinctEntries(es)
    ensures es[i].id in Seen(find, es[..i + 1])
    ensures es[i].id in Rights(Actions(find, es[..i + 1])) || HitIds(find(es[i].id).value) <= Seen(find, es[..i + 1])
  {
    Snoc(find, es, i);
    SeenExact(find, es, i);
    NotYet(es, i, i);
  }

  lemma NotYet(es: seq<Entry>, n: nat, j: nat)
    requires DistinctEntries(es) && n <= j < |es|
    ensures es[j].id !in IdsOf(es[..n])
  {}

  /** The entries never proposed do not resemble one another. */
  lemma NeverProposedAreIndependent(find: Lookup, es: seq<Entry>, i: nat, j: nat)
    requires DistinctEntries(es) && Answered(find, es) && Irreflexive(find) && Symmetric(find)
    requires i < |es| && j < |es|
    requires es[i].id !in Rights(Actions(find, es)) && es[j].id !in Rights(Actions(find, es))
    ensures !Similars(find, es[i].id, es[j].id)
  {
    var x, y := es[i].id, es[j].id;
    assert es[i] in es && es[j] in es;
    if i < j {
      ForwardIndependent(find, es, i, j);
    } else if j < i {
      ForwardIndependent(find, es, j, i);
      NotSimilarBack(find, x, y);
    } else {
      assert find(x).Some? && x !in HitIds(find(x).value);
    }
  }

  lemma NotSimilarBack(find: Lookup, x: string, y: string)
    requires Symmetric(find) && !Similars(find, y, x)
    ensures !Similars(find, x, y)
  {}

  /** In the order of the pass this needs no symmetry. */
  lemma ForwardIndependent(find: Lookup, es: seq<Entry>, i: nat, j: nat)
    requires DistinctEntries(es) && i < j < |es| && find(es[i].id).Some?
    requires es[i].id !in Rights(Actions(find, es)) && es[j].id !in Rights(Actions(find, es))
    ensures !Similars(find, es[i].id, es[j].id)
  {
    NotYetProposed(find, es, i + 1, es[i].id);
    NotYetSeen(find, es, i + 1, j);
    AfterItsTurn(find, es, i);
  }

  lemma NotYetProposed(find: Lookup, es: seq<Entry>, n: nat, id: string)
    requires n <= |es| && id !in Rights(Actions(find, es))
    ensures id !in Rights(Actions(find, es[..n]))
  {
    ActionsGrow(find, es, n, |es|);
    assert es[..|es|] == es;
  }

  /** An entry never proposed is not seen before its turn. */
  lemma NotYetSeen(find: Lookup, es: seq<Entry>, n: nat, j: nat)
    requires DistinctEntries(es) && n <= j < |es| && es[j].id !in Rights(Actions(find, es))
    ensures es[j].id !in Seen(find, es[..n])
  {
    NotYetProposed(find, es, n, es[j].id);
    SeenExact(find, es, n);
    NotYet(es, n, j);
    Unseen(Rights(Actions(find, es[..n])), Seen(find, es[..n]), IdsOf(es[..n]), es[j].id);
  }

  lemma Unseen(rights: set<string>, seen: set<string>, ids: set<string>, id: string)
    requires Covered(rights, seen, ids) && id !in rights && id !in ids
    ensures id !in seen
  {}

  /** What a proposal relates: its right is a hit of its left. */
  lemma {:induction false} ActionsFrom(find: Lookup, es: seq<Entry>, n: nat, a: Action) returns (i: nat)
    requires n <= |es| && a in Actions(find, es[..n])
    ensures i < n && es[i] == a.left && find(a.left.id).Some? && a.right.id !in Seen(find, es[..i])
    ensures exists h :: h in find(a.left.id).value && a == Propose(a.left, h)
    decreases n
  {
    if a in Actions(find, es[..n - 1]) {
      i := ActionsFrom(find, es, n - 1, a);
    } else {
      i := n - 1;
      LastAction(find, es, i, a);
    }
  }

  lemma LastAction(find: Lookup, es: seq<Entry>, i: nat, a: Action)
    requires i < |es| && a in Actions(find, es[..i + 1]) && a !in Actions(find, es[..i])
    ensures es[i] == a.left && find(a.left.id).Some? && a.right.id !in Seen(find, es[..i])
    ensures exists h :: h in find(a.left.id).value && a == Propose(a.left, h)
  {
    Snoc(find, es, i);
    ProposalFrom(Seen(find, es[..i]), es[i], find(es[i].id).value, a);
  }

  lemma ProposalFrom(seen: set<string>, left: Entry, hits: seq<SimilarEntry>, a: Action)
    requires a in Proposals(seen, left, hits)
    ensures a.left == left && a.right.id !in seen && exists h :: h in hits && a == Propose(left, h)
  {
    ProposalsFrom(seen, left, hits, a);
    ProposalsRights(seen, left, hits);
    assert a.right.id in Rights(Proposals(seen, left, hits));
  }

  lemma {:induction false} AnsweredAreSeen(find: Lookup, es: seq<Entry>, n: nat, j: nat)
    requires j < n <= |es| && find(es[j].id).Some?
    ensures es[j].id in Seen(find, es[..n])
    decreases n
  {
    Snoc(find, es, n - 1);
    if j < n - 1 { AnsweredAreSeen(find, es, n - 1, j); }
  }

  /**
   Every proposal: a hit of its left, which is never proposed and earlier in the list than its right. It is a
   deletion exactly for a distance of at most 0.02 to an entry without tags of its own.
   */
  lemma ProposalsPointForward(find: Lookup, es: seq<Entry>, a: Action) returns (i: nat, j: nat)
    requires Answered(find, es) && Irreflexive(find) && a in Actions(find, es) && a.right.id in IdsOf(es)
    ensures i < j < |es| && es[i] == a.left && es[j].id == a.right.id
    ensures Similars(find, a.left.id, a.right.id) && a.left.id !in Rights(Actions(find, es))
    ensures exists h :: h in find(a.left.id).value && h.entry == a.right && a.similarity == 1.0 - h.distance
              && (a.kind.ToDelete? <==> h.distance <= 0.02 && forall t | t in a.right.tags :: t in a.left.tags)
  {
    assert es[..|es|] == es;
    i := ActionsFrom(find, es, |es|, a);
    var e :| e in es && e.id == a.right.id;
    j :| 0 <= j < |es| && es[j] == e;
    if j < i { AnsweredAreSeen(find, es, i, j); }
    ActionsAreProper(find, es, |es|);
  }

  // ---------- the user's choices ----------

  /** A is the left entry, B the right one; each merge names the entry it folds away. */
  datatype Choice = KeepBoth | MergeA | MergeB | DeleteA | DeleteB

  function Removes(c: Choice, a: Action): set<string> {
    match c
    case KeepBoth => {}
    case MergeA | DeleteA => {a.left.id}
    case MergeB | DeleteB => {a.right.id}
  }

  /** strict says whether the store reports an error for deleting an unknown id; the YAML store does, the SQL store does not. */
  function RefersTo(strict: bool, c: Choice, a: Action): set<string> {
    match c
    case KeepBoth => {}
    case MergeA | MergeB => {a.left.id, a.right.id}
    case DeleteA => if strict then {a.left.id} else {}
    case DeleteB => if strict then {a.right.id} else {}
  }

  /** One choice against the store's contents; None when it is an error. */
  function Decide(strict: bool, m: EntryMap, a: Action, c: Choice, now: Time): Option<EntryMap> {
    if !(RefersTo(strict, c, a) <= m.Keys) then None else
      match c
      case KeepBoth => Some(m)
      case MergeA => Some(MergeMap(m, a.right.id, a.left.id, "", now))
      case MergeB => Some(MergeMap(m, a.left.id, a.right.id, "", now))
      case DeleteA => Some(m - {a.left.id})
      case DeleteB => Some(m - {a.right.id})
  }

  /** Going through the proposals one by one; it ends at the first error. */
  function DecideAll(strict: bool, m: EntryMap, actions: seq<Action>, choices: seq<Choice>, now: Time): Option<EntryMap>
    requires |choices| == |actions|
  {
    if actions == [] then Some(m) else
      var n := |actions| - 1;
      var before := DecideAll(strict, m, actions[..n], choices[..n], now);
      if before.None? then None else Decide(strict, before.value, actions[n], choices[n], now)
  }

  predicate TakesLeft(c: Choice) {
    c.MergeA? || c.DeleteA?
  }

  predicate NeedsLeft(strict: bool, c: Choice) {
    c.MergeA? || c.MergeB? || (strict && c.DeleteA?)
  }

  /** An earlier choice took away a left entry that a later choice still names. */
  ghost predicate Clash(strict: bool, actions: seq<Action>, choices: seq<Choice>)
    requires |choices| == |actions|
  {
    exists i, j | 0 <= i < j < |actions| ::
      TakesLeft(choices[i]) && actions[i].left.id == actions[j].left.id && NeedsLeft(strict, choices[j])
  }

  function Gone(actions: seq<Action>, choices: seq<Choice>): set<string>
    requires |choices| == |actions|
  {
    set i | 0 <= i < |actions|, id | id in Removes(choices[i], actions[i]) :: id
  }

  ghost predicate Stored(m: EntryMap, actions: seq<Action>) {
    && KeyedById(m) && "" !in m
    && forall a | a in actions :: a.left.id in m && a.right.id in m
  }

  lemma GoneSnoc(actions: seq<Action>, choices: seq<Choice>, n: nat)
    requires |choices| == |actions| == n + 1
    ensures Gone(actions, choices) == Gone(actions[..n], choices[..n]) + Removes(choices[n], actions[n])
  {}

  /** Before the last proposal: its right is still there, and its left is unless an earlier choice took it. */
  lemma LastOperands(actions: seq<Action>, choices: seq<Choice>, n: nat)
    requires |choices| == |actions| == n + 1 && Proper(actions)
    ensures actions[n].right.id !in Gone(actions[..n], choices[..n])
    ensures actions[n].left.id in Gone(actions[..n], choices[..n])
       <==> exists i | 0 <= i < n :: TakesLeft(choices[i]) && actions[i].left.id == actions[n].left.id
  {
    var front, chosen, last := actions[..n], choices[..n], actions[n];
    assert last in actions;
    forall i | 0 <= i < n ensures last.right.id !in Removes(chosen[i], front[i]) {
      assert actions[i] in actions && last.right.id in Rights(actions);
    }
    if last.left.id in Gone(front, chosen) {
      var i :| 0 <= i < n && last.left.id in Removes(chosen[i], front[i]);
      assert actions[i] in actions && actions[i].right.id in Rights(actions);
      assert TakesLeft(choices[i]) && actions[i].left.id == last.left.id;
    }
    if i :| 0 <= i < n && TakesLeft(choices[i]) && actions[i].left.id == last.left.id {
      assert last.left.id in Removes(chosen[i], front[i]);
    }
  }

  lemma ClashSnoc(strict: bool, actions: seq<Action>, choices: seq<Choice>, n: nat)
    requires |choices| == |actions| == n + 1
    ensures Clash(strict, actions, choices) <==>
              || Clash(strict, actions[..n], choices[..n])
              || (NeedsLeft(strict, choices[n]) && exists i | 0 <= i < n :: TakesLeft(choices[i]) && actions[i].left.id == actions[n].left.id)
  {}

  lemma DecideExact(strict: bool, m: EntryMap, a: Action, c: Choice, now: Time)
    requires KeyedById(m) && "" !in m && a.left.id != a.right.id
    ensures Decide(strict, m, a, c, now).Some? <==> RefersTo(strict, c, a) <= m.Keys
    ensures var r := Decide(strict, m, a, c, now); r.Some? ==> KeyedById(r.value) && r.value.Keys == m.Keys - Removes(c, a)
  {}

  /** The outcome of a session: an error exactly on a clash, and otherwise only the removed entries are gone. */
  ghost predicate Decided(strict: bool, m: EntryMap, actions: seq<Action>, choices: seq<Choice>, r: Option<EntryMap>)
    requires |choices| == |actions|
  {
    && (r.Some? <==> !Clash(strict, actions, choices))
    && (r.Some? ==> KeyedById(r.value) && r.value.Keys == m.Keys - Gone(actions, choices))
  }

  /** What one choice does to the contents: nobody's content changes, and a merge keeps the hits of both. */
  ghost predicate Spares(m: EntryMap, m': EntryMap, c: Choice) {
    && KeyedById(m') && "" !in m' && m'.Keys <= m.Keys
    && (forall id | id in m' :: m'[id].content == m[id].content && Home(m'[id]) == Home(m[id]))
    && (!c.DeleteA? && !c.DeleteB? ==> TotalHits(m') == TotalHits(m))
  }

  lemma DecideSpares(strict: bool, m: EntryMap, a: Action, c: Choice, now: Time)
    requires KeyedById(m) && "" !in m && a.left.id != a.right.id
    ensures var r := Decide(strict, m, a, c, now); r.Some? ==> Spares(m, r.value, c)
  {
    if c.MergeA? && {a.left.id, a.right.id} <= m.Keys {
      HitsConservedIff(m, a.right.id, a.left.id, "", now);
      MergeKeeps(m, a.right.id, a.left.id, "", now);
    }
    if c.MergeB? && {a.left.id, a.right.id} <= m.Keys {
      HitsConservedIff(m, a.left.id, a.right.id, "", now);
      MergeKeeps(m, a.left.id, a.right.id, "", now);
    }
  }

  /** A session rewrites nobody's content and moves nobody; one that only keeps and merges loses no hits. */
  lemma {:induction false} SessionSpares(strict: bool, m: EntryMap, actions: seq<Action>, choices: seq<Choice>, now: Time)
    requires |choices| == |actions| && KeyedById(m) && "" !in m
    requires forall a | a in actions :: a.left.id != a.right.id
    ensures var r := DecideAll(strict, m, actions, choices, now);
            r.Some? ==>
              && KeyedById(r.value) && "" !in r.value && r.value.Keys <= m.Keys
              && (forall id | id in r.value :: r.value[id].content == m[id].content && Home(r.value[id]) == Home(m[id]))
              && ((forall c | c in choices :: !c.DeleteA? && !c.DeleteB?) ==> TotalHits(r.value) == TotalHits(m))
    decreases |actions|
  {
    if actions != [] {
      var n := |actions| - 1;
      SessionSpares(strict, m, actions[..n], choices[..n], now);
      var before := DecideAll(strict, m, actions[..n], choices[..n], now);
      if before.Some? {
        assert actions[n] in actions && choices[n] in choices;
        DecideSpares(strict, before.value, actions[n], choices[n], now);
      }
    }
  }

  /** Exactly which choices over the linter's proposals never name an entry that is already gone. */
  lemma {:induction false} ChoicesSucceedIff(strict: bool, m: EntryMap, actions: seq<Action>, choices: seq<Choice>, now: Time)
    requires |choices| == |actions| && Proper(actions) && Stored(m, actions)
    ensures Decided(strict, m, actions, choices, DecideAll(strict, m, actions, choices, now))
    decreases |actions|
  {
    if actions != [] {
      var n := |actions| - 1;
      ProperFront(actions, n);
      ChoicesSucceedIff(strict, m, actions[..n], choices[..n], now);
      var before := DecideAll(strict, m, actions[..n], choices[..n], now);
      ClashSnoc(strict, actions, choices, n);
      if before.Some? { LastChoice(strict, m, before.value, actions, choices, n, now); }
    }
  }

  lemma LastChoice(strict: bool, m: EntryMap, before: EntryMap, actions: seq<Action>, choices: seq<Choice>, n: nat, now: Time)
    requires |choices| == |actions| == n + 1 && Proper(actions) && Stored(m, actions)
    requires Decided(strict, m, actions[..n], choices[..n], Some(before))
    ensures Decided(strict, m, actions, choices, Decide(strict, before, actions[n], choices[n], now))
  {
    GoneSnoc(actions, choices, n);
    ClashSnoc(strict, actions, choices, n);
    LastOperands(actions, choices, n);
    assert actions[n] in actions && actions[n].right.id in Rights(actions);
    DecideExact(strict, before, actions[n], choices[n], now);
  }

  lemma ProperFront(actions: seq<Action>, n: nat)
    requires Proper(actions) && n <= |actions|
    ensures Proper(actions[..n])
  {}

  /** The controller's similarity search is a lookup the linter can rely on. */
  lemma ControllerLookup(m: EntryMap, index: VectorMap, available: bool, embed: string -> Option<Vector>,
                         search: Vector -> Option<seq<SearchResult>>, threshold: real)
    requires KeyedById(m)
    ensures var find := SimilarTo(m, index, available, embed, search, threshold);
            Irreflexive(find) && forall id | find(id).Some? :: HitIds(find(id).value) <= m.Keys
  {
    var find := SimilarTo(m, index, available, embed, search, threshold);
    forall id | find(id).Some? ensures id !in HitIds(find(id).value) && HitIds(find(id).value) <= m.Keys {
      var results := search(VectorOf(m, index, embed, id).value).value;
      forall h | h in find(id).value ensures h.entry.id != id && h.entry.id in m {
        ResemblingExact(m, id, 1.0 - threshold, results, h);
      }
    }
  }

  /** A whole session over the linter's own proposals, with no other writer, over a store of either kind. */
  lemma SessionSucceedsIff(strict: bool, find: Lookup, es: seq<Entry>, m: EntryMap, choices: seq<Choice>, now: Time)
    requires Irreflexive(find) && KeyedById(m) && "" !in m && |choices| == |Actions(find, es)|
    requires forall e | e in es :: e.id in m
    requires forall id | find(id).Some? :: HitIds(find(id).value) <= m.Keys
    ensures DecideAll(strict, m, Actions(find, es), choices, now).Some? <==> !Clash(strict, Actions(find, es), choices)
    ensures (forall c | c in choices :: !TakesLeft(c)) ==> DecideAll(strict, m, Actions(find, es), choices, now).Some?
  {
    var actions := Actions(find, es);
    assert es[..|es|] == es;
    ActionsAreProper(find, es, |es|);
    forall a | a in actions ensures a.left.id in m && a.right.id in m {
      var i := ActionsFrom(find, es, |es|, a);
      var h :| h in find(a.left.id).value && a == Propose(a.left, h);
      assert a.right.id in HitIds(find(a.left.id).value);
    }
    ChoicesSucceedIff(strict, m, actions, choices, now);
  }

  /** Deleting A while a later proposal still compares with A ends the session with an error, over a store of either kind. */
  lemma LeftChoicesDangle(strict: bool) returns (find: Lookup, es: seq<Entry>, m: EntryMap, choices: seq<Choice>)
    ensures Irreflexive(find) && Symmetric(find) && DistinctEntries(es) && Answered(find, es)
    ensures forall e :: e in es <==> e.id in m && m[e.id] == e
    ensures |choices| == |Actions(find, es)| && Stored(m, Actions(find, es))
    ensures DecideAll(strict, m, Actions(find, es), choices, 0) == None
  {
    var a := Entry("a", "", [], "domain", "global", 1.0, 0, 0, 0, "");
    var b, c := a.(id := "b"), a.(id := "c");
    find, es, m, choices := Star(a, b, c), [a, b, c], StarMap(a, b, c), [DeleteA, MergeB];
    StarIsSymmetric(a, b, c);
    StarActions(a, b, c, es);
    StarDangles(strict, a, b, c, m, Actions(find, es));
  }

  function StarMap(a: Entry, b: Entry, c: Entry): (m: EntryMap)
    requires a.id != b.id && a.id != c.id && b.id != c.id
    ensures KeyedById(m) && m.Keys == {a.id, b.id, c.id}
    ensures forall e :: e in [a, b, c] <==> e.id in m && m[e.id] == e
  {
    map[a.id := a, b.id := b, c.id := c]
  }

  lemma StarDangles(strict: bool, a: Entry, b: Entry, c: Entry, m: EntryMap, actions: seq<Action>)
    requires KeyedById(m) && "" !in m && a.id in m && b.id in m && c.id in m && Proper(actions)
    requires actions == [Propose(a, SimilarEntry(b, 0.05)), Propose(a, SimilarEntry(c, 0.05))]
    ensures Stored(m, actions) && DecideAll(strict, m, actions, [DeleteA, MergeB], 0) == None
  {
    var choices := [DeleteA, MergeB];
    assert TakesLeft(choices[0]) && NeedsLeft(strict, choices[1]) && Clash(strict, actions, choices);
    ChoicesSucceedIff(strict, m, actions, choices, 0);
  }

  /** b and c each resemble a. */
  function Star(a: Entry, b: Entry, c: Entry): Lookup {
    (id: string) =>
      if id == a.id then Some([SimilarEntry(b, 0.05), SimilarEntry(c, 0.05)])
      else if id == b.id || id == c.id then Some([SimilarEntry(a, 0.05)])
      else None
  }

  lemma StarIsSymmetric(a: Entry, b: Entry, c: Entry)
    requires a.id != b.id && a.id != c.id && b.id != c.id
    ensures var find := Star(a, b, c);
            && Irreflexive(find) && Symmetric(find)
            && HitIds(find(a.id).value) == {b.id, c.id} && HitIds(find(b.id).value) == HitIds(find(c.id).value) == {a.id}
  {
    HitIdsOfTwo([SimilarEntry(b, 0.05), SimilarEntry(c, 0.05)]);
    HitIdsOfOne([SimilarEntry(a, 0.05)]);
  }

  lemma StarActions(a: Entry, b: Entry, c: Entry, es: seq<Entry>)
    requires a.id != b.id && a.id != c.id && b.id != c.id && es == [a, b, c]
    ensures var acts := Actions(Star(a, b, c), es);
            acts == [Propose(a, SimilarEntry(b, 0.05)), Propose(a, SimilarEntry(c, 0.05))] && Proper(acts)
  {
    var find := Star(a, b, c);
    StarIsSymmetric(a, b, c);
    assert es[..0] == [] && es[..3] == es;
    Snoc(find, es, 0);
    ProposalsOfTwo(a, find(a.id).value);
    Snoc(find, es, 1);
    Snoc(find, es, 2);
    ActionsAreProper(find, es, 3);
  }

  lemma HitIdsOfOne(hits: seq<SimilarEntry>)
    requires |hits| == 1
    ensures HitIds(hits) == {hits[0].entry.id}
  {
    assert hits[0] in hits;
  }

  lemma HitIdsOfTwo(hits: seq<SimilarEntry>)
    requires |hits| == 2
    ensures HitIds(hits) == {hits[0].entry.id, hits[1].entry.id}
  {
    assert hits[0] in hits && hits[1] in hits;
  }

  lemma ProposalsOfTwo(left: Entry, hits: seq<SimilarEntry>)
    requires |hits| == 2 && hits[0].entry.id != hits[1].entry.id
    ensures Proposals({}, left, hits) == [Propose(left, hits[0]), Propose(left, hits[1])]
  {
    HitIdsOfOne(hits[..1]);
    assert hits[..1][..0] == [] && HitIds([]) == {};
    assert Proposals({}, left, hits[..1]) == [Propose(left, hits[0])];
  }
}
