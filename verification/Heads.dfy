/** ListHeads: entry counts by category, in name order. All three stores share this loop. */
module Heads {
  import opened Entries
  import opened StableSort
  import Text

  datatype HeadInfo = HeadInfo(name: string, count: nat, mandatory: bool)

  function ByName(): (HeadInfo, HeadInfo) -> bool {
    (a: HeadInfo, b: HeadInfo) => Text.Less(a.name, b.name)
  }

  function Tally(s: seq<Entry>, category: string): nat {
    if s == [] then 0 else Tally(s[..|s| - 1], category) + if s[|s| - 1].category == category then 1 else 0
  }

  function TallyHead(s: seq<Entry>, category: string): HeadInfo {
    HeadInfo(category, Tally(s, category), IsMandatoryCategory(category))
  }

  function Categories(s: seq<Entry>): set<string> {
    set e | e in s :: e.category
  }

  function TallySet(s: seq<Entry>): set<HeadInfo> {
    set c | c in Categories(s) :: TallyHead(s, c)
  }

  /** The reference answer: one head for each category that occurs, with its number of entries. */
  ghost function HeadSet(es: set<Entry>): set<HeadInfo> {
    set e | e in es :: HeadInfo(e.category, |set x | x in es && x.category == e.category|, IsMandatoryCategory(e.category))
  }

  method Count(entries: seq<Entry>) returns (counts: map<string, nat>)
    ensures counts.Keys == Categories(entries) && forall c | c in counts :: counts[c] == Tally(entries, c)
  {
    counts := map[];
    for i := 0 to |entries|
      invariant counts.Keys == Categories(entries[..i])
      invariant forall c | c in counts :: counts[c] == Tally(entries[..i], c)
    {
      var c := entries[i].category;
      TallyStep(entries, i);
      counts := counts[c := (if c in counts then counts[c] else 0) + 1];
    }
    assert entries[..|entries|] == entries;
  }

  method CountHeads(entries: seq<Entry>) returns (heads: seq<HeadInfo>)
    ensures heads == Rank(ByName(), TallySet(entries))
    ensures NoDup(entries) ==> heads == Rank(ByName(), HeadSet(Elems(entries)))
  {
    var counts := Count(entries);
    var names := Collect(counts.Keys);
    var out: seq<HeadInfo> := [];
    for i := 0 to |names|
      invariant |out| == i && forall j | 0 <= j < i :: out[j] == TallyHead(entries, names[j])
    {
      assert names[i] in Elems(names);
      out := out + [HeadInfo(names[i], counts[names[i]], IsMandatoryCategory(names[i]))];
    }
    HeadsOfNames(entries, names, out);
    heads := Sorted(ByName(), out);
    ByNameIsStrict(entries);
    SortIsRank(ByName(), out);
    if NoDup(entries) { TallySetIsHeadSet(entries); }
  }

  lemma HeadsOfNames(s: seq<Entry>, names: seq<string>, out: seq<HeadInfo>)
    requires NoDup(names) && Elems(names) == Categories(s)
    requires |out| == |names| && forall j | 0 <= j < |out| :: out[j] == TallyHead(s, names[j])
    ensures NoDup(out) && Elems(out) == TallySet(s)
  {}

  lemma TallyStep(s: seq<Entry>, i: nat)
    requires i < |s|
    ensures Categories(s[..i + 1]) == Categories(s[..i]) + {s[i].category}
    ensures forall c :: Tally(s[..i + 1], c) == Tally(s[..i], c) + if s[i].category == c then 1 else 0
    ensures forall c | c !in Categories(s[..i]) :: Tally(s[..i], c) == 0
  {
    var t := s[..i + 1];
    assert t[..|t| - 1] == s[..i] && t == s[..i] + [s[i]];
    forall c | c !in Categories(s[..i]) ensures Tally(s[..i], c) == 0 { TallyAbsent(s[..i], c); }
    forall c ensures c in Categories(t) <==> c in Categories(s[..i]) + {s[i].category} {
      if c in Categories(s[..i]) {
        var e :| e in s[..i] && e.category == c;
        assert e in t;
      }
      assert s[i] in t;
    }
  }

  lemma {:induction false} TallyAbsent(s: seq<Entry>, c: string)
    requires c !in Categories(s)
    ensures Tally(s, c) == 0
  {
    if s != [] {
      assert s[|s| - 1] in s;
      TallyAbsent(s[..|s| - 1], c);
    }
  }

  lemma ByNameIsStrict(s: seq<Entry>)
    ensures StrictOrder(ByName(), TallySet(s))
  {
    var es, lt := TallySet(s), ByName();
    forall a | a in es ensures !lt(a, a) { Text.LessIrreflexive(a.name); }
    forall a, b, c | a in es && b in es && c in es && lt(a, b) && lt(b, c) ensures lt(a, c) {
      Text.LessTransitive(a.name, b.name, c.name);
    }
    forall a, b | a in es && b in es && a != b ensures lt(a, b) || lt(b, a) { Text.LessTotal(a.name, b.name); }
  }

  ghost function Those(es: set<Entry>, c: string): set<Entry> {
    set e | e in es && e.category == c
  }

  lemma {:induction false} TallyIsSize(s: seq<Entry>, c: string)
    requires NoDup(s)
    ensures Tally(s, c) == |Those(Elems(s), c)|
  {
    if s != [] {
      var front, last := s[..|s| - 1], s[|s| - 1];
      assert s == front + [last];
      TallyIsSize(front, c);
      assert last !in Elems(front);
      ElemsSnoc(front, last);
      ThoseSnoc(Elems(front), last, c);
    }
  }

  lemma ThoseSnoc(es: set<Entry>, e: Entry, c: string)
    requires e !in es
    ensures |Those(es + {e}, c)| == |Those(es, c)| + if e.category == c then 1 else 0
  {
    assert Those(es + {e}, c) == Those(es, c) + if e.category == c then {e} else {};
  }

  lemma TallySetIsHeadSet(s: seq<Entry>)
    requires NoDup(s)
    ensures TallySet(s) == HeadSet(Elems(s))
  {
    forall c ensures Tally(s, c) == |Those(Elems(s), c)| { TallyIsSize(s, c); }
    forall h ensures h in TallySet(s) <==> h in HeadSet(Elems(s)) {
      if h in TallySet(s) {
        var e :| e in s && e.category == h.name;
        assert e in Elems(s) && Those(Elems(s), h.name) == (set x | x in Elems(s) && x.category == e.category);
      }
      if h in HeadSet(Elems(s)) {
        var e :| e in Elems(s) && e.category == h.name
          && h == HeadInfo(e.category, |set x | x in Elems(s) && x.category == e.category|, IsMandatoryCategory(e.category));
        assert Those(Elems(s), h.name) == (set x | x in Elems(s) && x.category == e.category);
        assert h == TallyHead(s, h.name);
      }
    }
  }

  /** Exactly the heads of avoidance and security are mandatory. */
  lemma MandatoryHeads(es: set<Entry>, h: HeadInfo)
    requires h in HeadSet(es)
    ensures h.mandatory <==> h.name == "avoidance" || h.name == "security"
  {}
}
