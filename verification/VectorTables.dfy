/** The SQLite vector index: an id table and an embedding table, joined by rowid, that act as one map. */
module VectorTables {
  import opened Entries
  import opened StableSort
  import opened Vectors

  datatype Tables = Tables(ids: map<int, string>, embeddings: map<int, Vector>)

  /** Both tables hold the same rowids and ids are UNIQUE. */
  ghost predicate Joinable(t: Tables) {
    t.ids.Keys == t.embeddings.Keys && forall r, s | r in t.ids && s in t.ids && t.ids[r] == t.ids[s] :: r == s
  }

  /** The join of the two tables. */
  ghost function View(t: Tables): VectorMap
    requires Joinable(t)
  {
    map r | r in t.ids :: t.ids[r] := t.embeddings[r]
  }

  ghost predicate RowOf(t: Tables, id: string, r: int) {
    r in t.ids && t.ids[r] == id
  }

  /** SQLite's choice for INTEGER PRIMARY KEY: one past the largest rowid in use, or 1. */
  ghost function NextRow(rows: set<int>): (n: int)
    ensures forall r | r in rows :: r < n
    ensures if rows == {} then n == 1 else n - 1 in rows
  {
    if rows == {} then 1 else
      var r := Pick(rows);
      var n := NextRow(rows - {r});
      assert forall s | s in rows :: s == r || s in rows - {r};
      if rows != {r} && r < n then n else r + 1
  }

  // ---------- transactions ----------

  ghost function InsertTables(t: Tables, id: string, v: Vector): Tables {
    if exists r :: RowOf(t, id, r) then
      var r :| RowOf(t, id, r);
      t.(embeddings := t.embeddings[r := v])
    else
      var n := NextRow(t.ids.Keys);
      Tables(t.ids[n := id], t.embeddings[n := v])
  }

  ghost function DeleteTables(t: Tables, id: string): Tables {
    if exists r :: RowOf(t, id, r) then
      var r :| RowOf(t, id, r);
      Tables(t.ids - {r}, t.embeddings - {r})
    else t
  }

  lemma ViewRow(t: Tables, id: string) returns (r: int)
    requires Joinable(t) && id in View(t)
    ensures RowOf(t, id, r) && View(t)[id] == t.embeddings[r]
  {
    r :| r in t.ids && t.ids[r] == id;
  }

  lemma RowView(t: Tables, id: string, r: int)
    requires Joinable(t) && RowOf(t, id, r)
    ensures id in View(t) && View(t)[id] == t.embeddings[r]
  {}

  /** The join is the map that agrees with every row and has a row for every id. */
  lemma ViewIs(t: Tables, m: VectorMap)
    requires Joinable(t)
    requires forall id, r | RowOf(t, id, r) :: id in m && m[id] == t.embeddings[r]
    requires forall id | id in m :: exists r :: RowOf(t, id, r)
    ensures View(t) == m
  {}

  lemma EmptyTables(t: Tables)
    requires t.ids.Keys == {} && t.embeddings.Keys == {}
    ensures Joinable(t) && View(t).Keys == {}
  {}

  /** Writing v at row leaves every other row alone. */
  lemma WrittenRows(t: Tables, id: string, row: int, v: Vector, k: string, r: int)
    requires Joinable(t)
    requires RowOf(t, id, row) || (row !in t.ids && forall s :: !RowOf(t, id, s))
    ensures var t' := Tables(t.ids[row := id], t.embeddings[row := v]);
            && (RowOf(t', k, r) <==> (k == id && r == row) || (k != id && RowOf(t, k, r)))
            && (RowOf(t', k, r) && k != id ==> t'.embeddings[r] == t.embeddings[r])
  {
    assert r != row ==> (RowOf(Tables(t.ids[row := id], t.embeddings[row := v]), k, r) <==> RowOf(t, k, r));
  }

  lemma WrittenJoinable(t: Tables, id: string, row: int, v: Vector, t': Tables)
    requires Joinable(t) && t' == Tables(t.ids[row := id], t.embeddings[row := v])
    requires RowOf(t, id, row) || (row !in t.ids && forall r :: !RowOf(t, id, r))
    ensures Joinable(t')
  {
    forall r, s | r in t'.ids && s in t'.ids && t'.ids[r] == t'.ids[s] ensures r == s {
      WrittenRows(t, id, row, v, t'.ids[r], r);
      WrittenRows(t, id, row, v, t'.ids[r], s);
      assert RowOf(t', t'.ids[r], r) && RowOf(t', t'.ids[r], s);
    }
  }

  lemma WrittenView(t: Tables, id: string, row: int, v: Vector, t': Tables)
    requires Joinable(t) && t' == Tables(t.ids[row := id], t.embeddings[row := v])
    requires RowOf(t, id, row) || (row !in t.ids && forall r :: !RowOf(t, id, r))
    ensures Joinable(t') && View(t') == View(t)[id := v]
  {
    WrittenJoinable(t, id, row, v, t');
    var m := View(t)[id := v];
    forall k, r | RowOf(t', k, r) ensures k in m && m[k] == t'.embeddings[r] {
      WrittenRows(t, id, row, v, k, r);
      if k != id { RowView(t, k, r); }
    }
    forall k | k in m ensures exists r :: RowOf(t', k, r) {
      if k == id {
        assert RowOf(t', k, row);
      } else {
        var r := ViewRow(t, k);
        WrittenRows(t, id, row, v, k, r);
      }
    }
    ViewIs(t', m);
  }

  lemma InsertView(t: Tables, id: string, v: Vector)
    requires Joinable(t)
    ensures Joinable(InsertTables(t, id, v)) && View(InsertTables(t, id, v)) == View(t)[id := v]
  {
    if exists r :: RowOf(t, id, r) {
      var row :| RowOf(t, id, row);
      assert t.ids[row := id] == t.ids;
      WrittenView(t, id, row, v, InsertTables(t, id, v));
    } else {
      WrittenView(t, id, NextRow(t.ids.Keys), v, InsertTables(t, id, v));
    }
  }

  lemma DeleteView(t: Tables, id: string)
    requires Joinable(t)
    ensures Joinable(DeleteTables(t, id)) && View(DeleteTables(t, id)) == View(t) - {id}
  {
    var t', m := DeleteTables(t, id), View(t) - {id};
    forall k, r ensures RowOf(t', k, r) <==> k != id && RowOf(t, k, r) {}
    forall k, r | RowOf(t', k, r) ensures k in m && m[k] == t'.embeddings[r] { RowView(t, k, r); }
    forall k | k in m ensures exists r :: RowOf(t', k, r) { var r := ViewRow(t, k); assert RowOf(t', k, r); }
    ViewIs(t', m);
  }

  // ---------- runs ----------

  datatype Op = Insert(id: string, vector: Vector, ok: bool) | Delete(id: string, ok: bool)

  ghost function Step(t: Tables, op: Op): Tables {
    if !op.ok then t
    else match op
      case Insert(id, v, _) => InsertTables(t, id, v)
      case Delete(id, _) => DeleteTables(t, id)
  }

  function MapStep(m: VectorMap, op: Op): VectorMap {
    if !op.ok then m
    else match op
      case Insert(id, v, _) => m[id := v]
      case Delete(id, _) => m - {id}
  }

  ghost function Run(t: Tables, ops: seq<Op>): Tables
    decreases |ops|
  {
    if ops == [] then t else Run(Step(t, ops[0]), ops[1..])
  }

  function MapRun(m: VectorMap, ops: seq<Op>): VectorMap
    decreases |ops|
  {
    if ops == [] then m else MapRun(MapStep(m, ops[0]), ops[1..])
  }

  lemma StepRefines(t: Tables, op: Op)
    requires Joinable(t)
    ensures Joinable(Step(t, op)) && View(Step(t, op)) == MapStep(View(t), op)
  {
    match op
    case Insert(id, v, _) => InsertView(t, id, v);
    case Delete(id, _) => DeleteView(t, id);
  }

  /** Over every run the two tables are one id -> vector map. */
  lemma {:induction false} RunRefines(t: Tables, ops: seq<Op>)
    requires Joinable(t)
    ensures Joinable(Run(t, ops)) && View(Run(t, ops)) == MapRun(View(t), ops)
    decreases |ops|
  {
    if ops != [] {
      StepRefines(t, ops[0]);
      RunRefines(Step(t, ops[0]), ops[1..]);
    }
  }

  /** Deleting the id of the last row frees that very rowid, and its next owner sees only its own vector. */
  lemma ReusedRowIsClean(t: Tables, r: int, id: string, v: Vector)
    requires Joinable(t) && r in t.ids && (forall s | s in t.ids :: s <= r) && id !in View(t)
    requires r == NextRow(t.ids.Keys - {r})
    ensures var t' := InsertTables(DeleteTables(t, t.ids[r]), id, v);
            && RowOf(t', id, r)
            && View(t') == (View(t) - {t.ids[r]})[id := v]
  {
    var gone := t.ids[r];
    assert RowOf(t, gone, r);
    DeleteView(t, gone);
    var t1 := DeleteTables(t, gone);
    assert t1.ids.Keys == t.ids.Keys - {r};
    InsertView(t1, id, v);
    forall s ensures !RowOf(t1, id, s) {
      if RowOf(t1, id, s) { RowView(t1, id, s); }
    }
  }

  // ---------- the index ----------

  /** The statement of a transaction that fails, if one does. */
  datatype Fault = NoFault | Begin | Statement1 | Statement2 | Statement3 | Statement4 | Commit

  /** An insertion does not reach its fourth statement when the id already has an embedding. */
  predicate Refuses(fault: Fault, present: bool) {
    fault != NoFault && !(fault == Statement4 && present)
  }

  class Index {
    const dimensions: nat
    var ids: map<int, string>
    var embeddings: map<int, Vector>
    /** The one map the two tables stand for. */
    ghost var vectors: VectorMap

    ghost function Now(): Tables
      reads this
    {
      Tables(ids, embeddings)
    }

    ghost predicate Valid()
      reads this
    {
      Joinable(Now()) && vectors == View(Now())
    }

    constructor (dimensions: nat)
      ensures Valid() && vectors == map[] && this.dimensions == dimensions
    {
      this.dimensions, ids, embeddings, vectors := dimensions, map[], map[], map[];
      new;
      ghost var t := Now();
      EmptyTables(t);
      vectors := View(t);
      assert Now() == t;
      assert Joinable(Now());
      assert vectors == View(Now());
    }

    method FindRow(id: string) returns (row: Option<int>)
      ensures row.Some? ==> RowOf(Now(), id, row.value)
      ensures row.None? ==> forall r :: !RowOf(Now(), id, r)
    {
      var rows := Collect(ids.Keys);
      assert forall r | r in ids :: r in Elems(rows);
      for i := 0 to |rows|
        invariant forall j | 0 <= j < i :: rows[j] in ids && ids[rows[j]] != id
      {
        assert rows[i] in Elems(rows);
        if ids[rows[i]] == id { return Some(rows[i]); }
      }
      row := None;
    }

    method NewRow() returns (n: int)
      ensures n == NextRow(ids.Keys)
    {
      n := 1;
      var rows := Collect(ids.Keys);
      assert forall r | r in ids :: r in Elems(rows);
      for i := 0 to |rows|
        invariant forall j | 0 <= j < i :: rows[j] < n
        invariant if i == 0 then n == 1 else n - 1 in rows[..i]
      {
        assert rows[..i + 1] == rows[..i] + [rows[i]];
        if i == 0 || rows[i] >= n { n := rows[i] + 1; }
      }
      if |rows| > 0 { assert n - 1 in Elems(rows); }
    }

    /** INSERT OR IGNORE, then SELECT: the id's row, mapped when it was not. */
    method MapId(id: string) returns (row: int, txIds: map<int, string>)
      ensures txIds == ids[row := id]
      ensures RowOf(Now(), id, row) || (row == NextRow(ids.Keys) && forall r :: !RowOf(Now(), id, r))
    {
      var found := FindRow(id);
      if found.Some? {
        row := found.value;
      } else {
        row := NewRow();
      }
      txIds := ids[row := id];
    }

    /** The statements of an insertion, up to the commit: what they would leave in the tables. */
    method StageInsert(id: string, vector: Vector, fault: Fault)
      returns (ok: bool, txIds: map<int, string>, txEmbeddings: map<int, Vector>)
      requires Valid()
      ensures ok <==> !Refuses(fault, id in vectors)
      ensures ok ==> Tables(txIds, txEmbeddings) == InsertTables(Now(), id, vector)
    {
      ok, txIds, txEmbeddings := false, ids, embeddings;
      if fault == Begin || fault == Statement1 { return; }
      var row;
      row, txIds := MapId(id);
      InsertedTables(Now(), id, vector, row);
      PresentIff(Now(), id, row);
      txEmbeddings := embeddings[row := vector];
      // the update, and the insertion when no row was affected
      ok := fault == NoFault || (fault == Statement4 && row in embeddings);
    }

    /** One transaction: map the id, then update or insert its embedding; any failure rolls all of it back. */
    method InsertVector(id: string, vector: Vector, fault: Fault) returns (ok: bool)
      requires Valid()
      modifies this
      ensures Valid()
      ensures ok <==> |vector| == dimensions && !Refuses(fault, id in old(vectors))
      ensures Now() == if ok then InsertTables(old(Now()), id, vector) else old(Now())
      ensures vectors == if ok then old(vectors)[id := vector] else old(vectors)
    {
      if |vector| != dimensions { return false; }
      InsertView(Now(), id, vector);
      var txIds, txEmbeddings;
      ok, txIds, txEmbeddings := StageInsert(id, vector, fault);
      if ok { ids, embeddings, vectors := txIds, txEmbeddings, vectors[id := vector]; }
    }

    /** False, with nothing changed, for an unknown id or a failed statement. */
    method DeleteVector(id: string, fault: Fault) returns (ok: bool)
      requires Valid()
      modifies this
      ensures Valid()
      ensures ok <==> id in old(vectors) && fault == NoFault
      ensures Now() == if ok then DeleteTables(old(Now()), id) else old(Now())
      ensures vectors == if ok then old(vectors) - {id} else old(vectors)
    {
      if fault == Begin { return false; }
      DeleteView(Now(), id);
      var row := FindRow(id);
      if row.None? || fault == Statement1 { return false; }
      var txEmbeddings := embeddings - {row.value};
      if fault == Statement2 { return false; }
      var txIds := ids - {row.value};
      if fault == Statement3 || fault == Statement4 || fault == Commit { return false; }
      ids, embeddings, vectors := txIds, txEmbeddings, vectors - {id};
      ok := true;
    }

    /** readable is false when the query, a scan or closing the rows fails. */
    method ListIDs(readable: bool) returns (r: Option<seq<string>>)
      requires Valid()
      ensures r.Some? <==> readable
      ensures r.Some? ==> NoDup(r.value) && Elems(r.value) == vectors.Keys
    {
      if !readable { return None; }
      var list := AllIDs();
      r := Some(list);
    }

    method AllIDs() returns (list: seq<string>)
      requires Valid()
      ensures NoDup(list) && Elems(list) == vectors.Keys
    {
      list := [];
      var rows := Collect(ids.Keys);
      assert forall r | r in ids :: r in Elems(rows);
      for i := 0 to |rows|
        invariant |list| == i && forall j | 0 <= j < i :: rows[j] in ids && list[j] == ids[rows[j]]
      {
        assert rows[i] in Elems(rows);
        list := list + [ids[rows[i]]];
      }
      forall i, j | 0 <= i < j < |list| ensures list[i] != list[j] {
        assert RowOf(Now(), list[i], rows[i]) && RowOf(Now(), list[j], rows[j]);
      }
      forall id ensures id in Elems(list) <==> id in vectors {
        if id in vectors {
          var r := ViewRow(Now(), id);
          var j :| 0 <= j < |rows| && rows[j] == r;
          assert list[j] == id;
        }
        if id in list {
          var j :| 0 <= j < |list| && list[j] == id;
          RowView(Now(), id, rows[j]);
        }
      }
    }

    /** A failing read is reported as no vector. */
    method LookupVector(id: string, readable: bool) returns (v: Option<Vector>)
      requires Valid()
      ensures v == if readable && id in vectors then Some(vectors[id]) else None
    {
      if !readable { return None; }
      var row := FindRow(id);
      if id in vectors { ghost var r := ViewRow(Now(), id); }
      if row.None? || row.value !in embeddings { return None; }
      v := Some(embeddings[row.value]);
    }
  }

  /** What the statements write is the specified insertion. */
  lemma InsertedTables(t: Tables, id: string, v: Vector, row: int)
    requires Joinable(t)
    requires RowOf(t, id, row) || (row == NextRow(t.ids.Keys) && forall r :: !RowOf(t, id, r))
    ensures Tables(t.ids[row := id], t.embeddings[row := v]) == InsertTables(t, id, v)
  {
    if RowOf(t, id, row) { assert t.ids[row := id] == t.ids; }
  }

  /** The update finds a row to write exactly when the id is in the join. */
  lemma PresentIff(t: Tables, id: string, row: int)
    requires Joinable(t)
    requires RowOf(t, id, row) || (row == NextRow(t.ids.Keys) && forall r :: !RowOf(t, id, r))
    ensures row in t.embeddings <==> id in View(t)
  {
    if RowOf(t, id, row) {
      RowView(t, id, row);
    } else if id in View(t) {
      var r := ViewRow(t, id);
    }
  }
}
