/** What merging two entries conserves. */
module Merging {
  import opened Effects
  import opened Entries
  import opened StableSort
  import opened YamlState

  // ---------- tags ----------

  /** The tags not already had, each once, in order of first appearance. */
  function Missing(tags: seq<string>, had: seq<string>): seq<string> {
    if tags == [] then [] else
      var front, last := tags[..|tags| - 1], tags[|tags| - 1];
      Missing(front, had) + if last in had || last in front then [] else [last]
  }

  function FirstIndex(tags: seq<string>, t: string): nat {
    if tags == [] || tags[0] == t then 0 else FirstIndex(tags[1..], t) + 1
  }

  lemma {:induction false} FirstIndexSnoc(tags: seq<string>, last: string, t: string)
    ensures t in tags ==> FirstIndex(tags + [last], t) == FirstIndex(tags, t) < |tags|
    ensures t !in tags ==> FirstIndex(tags, t) == |tags|
    ensures t !in tags && t == last ==> FirstIndex(tags + [last], t) == |tags|
  {
    if tags != [] && tags[0] != t {
      assert (tags + [last])[1..] == tags[1..] + [last];
      FirstIndexSnoc(tags[1..], last, t);
    }
  }

  /** Missing is exactly the set difference, without repeats, in the order of the tags it came from. */
  lemma {:induction false} MissingExact(tags: seq<string>, had: seq<string>)
    ensures var r := Missing(tags, had);
            && (forall t :: t in r <==> t in tags && t !in had)
            && NoDup(r)
            && (forall i, j | 0 <= i < j < |r| :: FirstIndex(tags, r[i]) < FirstIndex(tags, r[j]))
  {
    if tags != [] {
      var front, last := tags[..|tags| - 1], tags[|tags| - 1];
      assert tags == front + [last];
      MissingExact(front, had);
      var r := Missing(tags, had);
      forall i, j | 0 <= i < j < |r| ensures FirstIndex(tags, r[i]) < FirstIndex(tags, r[j]) {
        FirstIndexSnoc(front, last, r[i]);
        FirstIndexSnoc(front, last, r[j]);
      }
    }
  }

  /** The tag loop of both merge implementations. */
  method MergeTags(keep: seq<string>, other: seq<string>) returns (tags: seq<string>)
    ensures tags == keep + Missing(other, keep)
  {
    tags := keep;
    var seen := Elems(keep);
    for i := 0 to |other|
      invariant tags == keep + Missing(other[..i], keep)
      invariant forall t :: t in seen <==> t in keep || t in other[..i]
    {
      assert other[..i + 1][..i] == other[..i] && other[..i + 1] == other[..i] + [other[i]];
      if other[i] !in seen {
        tags := tags + [other[i]];
        seen := seen + {other[i]};
      }
    }
    assert other[..|other|] == other;
  }

  // ---------- entries ----------

  function Merged(keep: Entry, other: Entry): Entry {
    keep.(tags := keep.tags + Missing(other.tags, keep.tags),
          score := if keep.score < other.score then other.score else keep.score,
          hitCount := keep.hitCount + other.hitCount,
          lastHit := if other.lastHit > keep.lastHit then other.lastHit else keep.lastHit)
  }

  /** The body of both merge implementations, between the lookups and the writes. */
  method Combine(keep: Entry, other: Entry) returns (e: Entry)
    ensures e == Merged(keep, other)
  {
    var tags := MergeTags(keep.tags, other.tags);
    e := keep.(tags := tags);
    e := e.(score := if e.score < other.score then other.score else e.score);
    e := e.(hitCount := e.hitCount + other.hitCount);
    if other.lastHit > e.lastHit { e := e.(lastHit := other.lastHit); }
  }

  // ---------- the store ----------

  /** Contents after both entries were found, the merged one was upserted and the other deleted. */
  function MergeMap(m: EntryMap, keepId: string, deleteId: string, newId: string, now: Time): EntryMap
    requires keepId in m && deleteId in m
  {
    var e := Filled(Merged(m[keepId], m[deleteId]), newId, now);
    m[e.id := e] - {deleteId}
  }

  /** Total hits survive a merge exactly when the ids differ, or the doomed entry had none. */
  lemma HitsConservedIff(m: EntryMap, keepId: string, deleteId: string, newId: string, now: Time)
    requires KeyedById(m) && keepId in m && deleteId in m && keepId != ""
    ensures TotalHits(MergeMap(m, keepId, deleteId, newId, now)) == TotalHits(m)
       <==> keepId != deleteId || m[keepId].hitCount == 0
  {
    var e := Filled(Merged(m[keepId], m[deleteId]), newId, now);
    assert e.id == keepId;
    var m1 := m[keepId := e];
    TotalHitsWith(m, keepId, e);
    TotalHitsWithout(m1, deleteId);
    TotalHitsWithout(m, keepId);
    if keepId == deleteId {
      assert m1 - {deleteId} == m - {keepId};
    } else {
      assert m1[deleteId] == m[deleteId];
    }
  }

  /**
   The kept entry after a merge of two different ids: content, category, scope and source stay its own, hits are
   added, the later hit and the larger score win. Every third entry is untouched.
   */
  lemma MergeKeeps(m: EntryMap, keepId: string, deleteId: string, newId: string, now: Time)
    requires KeyedById(m) && keepId in m && deleteId in m && keepId != "" && keepId != deleteId
    ensures var m', keep, other := MergeMap(m, keepId, deleteId, newId, now), m[keepId], m[deleteId];
            && m'.Keys == m.Keys - {deleteId}
            && (forall id | id in m' && id != keepId :: m'[id] == m[id])
            && m'[keepId].hitCount == keep.hitCount + other.hitCount
            && (if keep.created == 0 then m'[keepId].created == now else m'[keepId].created == keep.created)
            && m'[keepId] == keep.(tags := m'[keepId].tags, score := m'[keepId].score, hitCount := m'[keepId].hitCount,
                                   lastHit := m'[keepId].lastHit, created := m'[keepId].created)
            && m'[keepId].tags == keep.tags + Missing(other.tags, keep.tags)
            && m'[keepId].lastHit >= keep.lastHit && m'[keepId].lastHit >= other.lastHit
            && m'[keepId].lastHit in [keep.lastHit, other.lastHit]
            && (keep.score != 0.0 && other.score <= keep.score ==> m'[keepId].score == keep.score)
            && (other.score != 0.0 && keep.score <= other.score ==> m'[keepId].score == other.score)
            && (keep.score == other.score == 0.0 ==> m'[keepId].score == 1.0)
  {}
}
