/**
 * DELETE FROM as a function on catalog values: the unconditional bulk
 * delete, and the predicated delete that removes each matching row unless
 * some referencing table still holds its value (`inv_ref`), in which case
 * the row is kept and counted as blocked.
 */
module Delete {
  import opened Types
  import opened ThreeValued
  import opened Where

  // ---------------------------------------------------------------------
  // inv_ref
  // ---------------------------------------------------------------------

  /** The referencers of one column, in list order: the first referencing
      table holding `v` answers true. A referencer whose table or column is
      gone is a Python runtime exception. */
  function HitIn(cat: Catalog, refs: seq<Ref>, v: Value): Result<bool>
  {
    if refs == [] then Ok(false)
    else
      var r := refs[0];
      if r.table !in cat || r.column !in cat[r.table].names then Err(RuntimeFault)
      else if Holds(cat[r.table], r.column, v) then Ok(true)
      else HitIn(cat, refs[1..], v)
  }

  /** `inv_ref` from position `k` on: the cells of the row paired with the
      column names, in column order. */
  function InvRefFrom(cat: Catalog, names: seq<string>, invrefs: map<string, seq<Ref>>, record: Row, k: nat): Result<bool>
    decreases |names| - k
  {
    if k >= |names| || k >= |record| then Ok(false)
    else if names[k] !in invrefs then InvRefFrom(cat, names, invrefs, record, k + 1)
    else match HitIn(cat, invrefs[names[k]], record[k])
      case Err(e) => Err(e)
      case Ok(true) => Ok(true)
      case Ok(false) => InvRefFrom(cat, names, invrefs, record, k + 1)
  }

  /** `inv_ref`: is the row still referenced from another table? */
  function InvRef(cat: Catalog, t: Table, record: Row): Result<bool>
  {
    InvRefFrom(cat, t.names, t.invrefs, record, 0)
  }

  /** Every inverse reference of `t` names a table of the catalog that has
      the referencing column. */
  predicate Resolvable(cat: Catalog, t: Table)
  {
    forall n, j :: n in t.invrefs && 0 <= j < |t.invrefs[n]| ==>
      t.invrefs[n][j].table in cat && t.invrefs[n][j].column in cat[t.invrefs[n][j].table].names
  }

  /** The reference definition: some cell of the row is held by some
      referencer of its column. */
  predicate Referenced(cat: Catalog, t: Table, record: Row, k: nat)
  {
    exists i, j :: k <= i < |t.names| && i < |record| && t.names[i] in t.invrefs && 0 <= j < |t.invrefs[t.names[i]]| &&
      var r := t.invrefs[t.names[i]][j];
      r.table in cat && r.column in cat[r.table].names && Holds(cat[r.table], r.column, record[i])
  }

  lemma {:induction false} HitInSpec(cat: Catalog, refs: seq<Ref>, v: Value)
    requires forall j :: 0 <= j < |refs| ==> refs[j].table in cat && refs[j].column in cat[refs[j].table].names
    ensures HitIn(cat, refs, v) == Ok(exists j :: 0 <= j < |refs| && Holds(cat[refs[j].table], refs[j].column, v))
  {
    if refs != [] {
      assert forall j :: 0 <= j < |refs| - 1 ==> refs[1..][j] == refs[j + 1];
      HitInSpec(cat, refs[1..], v);
      if exists j :: 0 <= j < |refs| && Holds(cat[refs[j].table], refs[j].column, v) {
        var j :| 0 <= j < |refs| && Holds(cat[refs[j].table], refs[j].column, v);
        if j > 0 { assert refs[1..][j - 1] == refs[j]; }
      }
    }
  }

  /** With every referencer resolvable, `inv_ref` answers exactly whether
      some cell of the row is still held by a referencing table. */
  lemma {:induction false} InvRefFromSpec(cat: Catalog, t: Table, record: Row, k: nat)
    requires Resolvable(cat, t)
    ensures InvRefFrom(cat, t.names, t.invrefs, record, k) == Ok(Referenced(cat, t, record, k))
    decreases |t.names| - k
  {
    if k < |t.names| && k < |record| {
      InvRefFromSpec(cat, t, record, k + 1);
      var n := t.names[k];
      if n in t.invrefs {
        HitInSpec(cat, t.invrefs[n], record[k]);
        if HitIn(cat, t.invrefs[n], record[k]) == Ok(true) {
          var j :| 0 <= j < |t.invrefs[n]| && Holds(cat[t.invrefs[n][j].table], t.invrefs[n][j].column, record[k]);
          assert k <= k < |t.names| && k < |record| && t.names[k] in t.invrefs && 0 <= j < |t.invrefs[t.names[k]]|;
        }
      }
      if Referenced(cat, t, record, k) {
        var i, j :| k <= i < |t.names| && i < |record| && t.names[i] in t.invrefs && 0 <= j < |t.invrefs[t.names[i]]| &&
          var r := t.invrefs[t.names[i]][j];
          r.table in cat && r.column in cat[r.table].names && Holds(cat[r.table], r.column, record[i]);
        if i == k {
          assert HitIn(cat, t.invrefs[n], record[k]) == Ok(true);
        } else {
          assert Referenced(cat, t, record, k + 1);
        }
      }
    }
  }

  lemma InvRefSpec(cat: Catalog, t: Table, record: Row)
    requires Resolvable(cat, t)
    ensures InvRef(cat, t, record) == Ok(Referenced(cat, t, record, 0))
  {
    InvRefFromSpec(cat, t, record, 0);
  }

  // ---------------------------------------------------------------------
  // delete_query
  // ---------------------------------------------------------------------

  /** What a predicated delete does with one row. */
  datatype Fate = Keep | Remove | Block

  /** The column dictionary a DELETE evaluates its predicate against: the
      table's columns qualified by its name, in column order. */
  function TableScope(name: string, t: Table): (s: Scope)
    requires WellFormed(t)
    ensures s.tables == [name] && |s.entries| == |t.names|
  {
    Scope([name], TableEntries(name, t))
  }

  /** One iteration of the row loop: a row not evaluating to True is kept;
      a True row is blocked if still referenced, otherwise removed. */
  function Classify(cat: Catalog, name: string, t: Table, c: Cond, record: Row): Result<Fate>
    requires WellFormed(t) && |record| == |t.names|
  {
    match Eval(record, TableScope(name, t), c)
    case Err(e) => Err(e)
    case Ok(v) =>
      if v != True then Ok(Keep)
      else match InvRef(cat, t, record)
        case Err(e) => Err(e)
        case Ok(hit) => Ok(if hit then Block else Remove)
  }

  /** The fates of the rows, in row order; the first failing row aborts. */
  function Fates(cat: Catalog, name: string, t: Table, c: Cond, rows: seq<Row>): (r: Result<seq<Fate>>)
    requires WellFormed(t) && forall i :: 0 <= i < |rows| ==> |rows[i]| == |t.names|
    ensures r.Ok? ==> |r.value| == |rows|
  {
    if rows == [] then Ok([])
    else
      var n := |rows| - 1;
      match Fates(cat, name, t, c, rows[..n])
      case Err(e) => Err(e)
      case Ok(fs) =>
        match Classify(cat, name, t, c, rows[n])
        case Err(e) => Err(e)
        case Ok(f) => Ok(fs + [f])
  }

  /** `new_data`: the rows whose fate is not `Remove`, in row order. */
  function Survivors(rows: seq<Row>, fs: seq<Fate>): seq<Row>
    requires |fs| == |rows|
  {
    if rows == [] then []
    else
      var n := |rows| - 1;
      Survivors(rows[..n], fs[..n]) + (if fs[n] == Remove then [] else [rows[n]])
  }

  /** The number of fates equal to `f` (the counters `count` and `inv_refs`). */
  function CountFate(fs: seq<Fate>, f: Fate): nat
  {
    if fs == [] then 0
    else CountFate(fs[..|fs| - 1], f) + (if fs[|fs| - 1] == f then 1 else 0)
  }

  /** One more fate extends the survivors by its row unless it is `Remove`. */
  lemma SurvivorsSnoc(rows: seq<Row>, k: nat, fs: seq<Fate>, f: Fate)
    requires k < |rows| && |fs| == k
    ensures Survivors(rows[..k + 1], fs + [f]) == Survivors(rows[..k], fs) + (if f == Remove then [] else [rows[k]])
  {
    assert rows[..k + 1][..k] == rows[..k];
    assert (fs + [f])[..k] == fs;
  }

  /** One more fate adds one to its own counter. */
  lemma CountFateSnoc(fs: seq<Fate>, f: Fate, g: Fate)
    ensures CountFate(fs + [f], g) == CountFate(fs, g) + (if f == g then 1 else 0)
  {
    assert (fs + [f])[..|fs|] == fs;
  }

  /** The outcome of a DELETE: the new catalog and the counts of removed and
      blocked rows. A non-zero `blocked` is the soft condition
      `DeleteReferentialIntegrityPassed`, raised after the table is stored. */
  datatype Outcome = Outcome(cat: Catalog, deleted: nat, blocked: nat)

  /** `delete_query`. Without a predicate every row goes and no reference is
      checked. */
  function DeleteStatement(cat: Catalog, name: string, c: Option<Cond>): Result<Outcome>
    requires CatalogWF(cat)
  {
    if name !in cat then Err(NoSuchTable)
    else
      var t := cat[name];
      match c
      case None => Ok(Outcome(cat[name := t.(data := [])], |t.data|, 0))
      case Some(cond) =>
        match Fates(cat, name, t, cond, t.data)
        case Err(e) => Err(e)
        case Ok(fs) =>
          Ok(Outcome(cat[name := t.(data := Survivors(t.data, fs))], CountFate(fs, Remove), CountFate(fs, Block)))
  }

  // ---------------------------------------------------------------------
  // Properties
  // ---------------------------------------------------------------------

  /** The row classification, stated against the predicate and `inv_ref`. */
  lemma ClassifySpec(cat: Catalog, name: string, t: Table, c: Cond, record: Row)
    requires WellFormed(t) && |record| == |t.names|
    ensures var e, r := Eval(record, TableScope(name, t), c), Classify(cat, name, t, c, record);
      && (r == Ok(Keep) <==> e.Ok? && e.value != True)
      && (r == Ok(Block) <==> e == Ok(True) && InvRef(cat, t, record) == Ok(true))
      && (r == Ok(Remove) <==> e == Ok(True) && InvRef(cat, t, record) == Ok(false))
  {
  }

  /** One unfolding of `Fates`: the prefix's fates followed by the last
      row's classification. */
  lemma FatesLast(cat: Catalog, name: string, t: Table, c: Cond, rows: seq<Row>)
    requires WellFormed(t) && forall i :: 0 <= i < |rows| ==> |rows[i]| == |t.names|
    requires rows != []
    ensures var n := |rows| - 1;
      var rp, cl := Fates(cat, name, t, c, rows[..n]), Classify(cat, name, t, c, rows[n]);
      && (Fates(cat, name, t, c, rows).Ok? <==> rp.Ok? && cl.Ok?)
      && (rp.Ok? && cl.Ok? ==> Fates(cat, name, t, c, rows).value == rp.value + [cl.value])
  {
  }

  /** The loop succeeds exactly when every row classifies. */
  lemma {:induction false} FatesOk(cat: Catalog, name: string, t: Table, c: Cond, rows: seq<Row>)
    requires WellFormed(t) && forall i :: 0 <= i < |rows| ==> |rows[i]| == |t.names|
    ensures Fates(cat, name, t, c, rows).Ok? <==> forall i :: 0 <= i < |rows| ==> Classify(cat, name, t, c, rows[i]).Ok?
  {
    if rows != [] {
      var n := |rows| - 1;
      var pre := rows[..n];
      forall i | 0 <= i < n ensures pre[i] == rows[i] {}
      FatesOk(cat, name, t, c, pre);
      FatesLast(cat, name, t, c, rows);
    }
  }

  /** Each row's fate is its classification. */
  lemma {:induction false} FatesValues(cat: Catalog, name: string, t: Table, c: Cond, rows: seq<Row>)
    requires WellFormed(t) && forall i :: 0 <= i < |rows| ==> |rows[i]| == |t.names|
    requires Fates(cat, name, t, c, rows).Ok?
    ensures forall i :: 0 <= i < |rows| ==> Classify(cat, name, t, c, rows[i]) == Ok(Fates(cat, name, t, c, rows).value[i])
  {
    if rows != [] {
      var n := |rows| - 1;
      var pre := rows[..n];
      forall i | 0 <= i < n ensures pre[i] == rows[i] {}
      FatesLast(cat, name, t, c, rows);
      FatesValues(cat, name, t, c, pre);
    }
  }

  /** A failing loop fails with the error of the first failing row. */
  lemma {:induction false} FatesFirstError(cat: Catalog, name: string, t: Table, c: Cond, rows: seq<Row>)
    requires WellFormed(t) && forall i :: 0 <= i < |rows| ==> |rows[i]| == |t.names|
    requires Fates(cat, name, t, c, rows).Err?
    ensures exists i ::
      && 0 <= i < |rows| && Classify(cat, name, t, c, rows[i]) == Err(Fates(cat, name, t, c, rows).error)
      && forall j :: 0 <= j < i ==> Classify(cat, name, t, c, rows[j]).Ok?
  {
    var n := |rows| - 1;
    var pre := rows[..n];
    assert forall i :: 0 <= i < n ==> pre[i] == rows[i];
    var rp := Fates(cat, name, t, c, pre);
    if rp.Err? {
      FatesFirstError(cat, name, t, c, pre);
      var i :| 0 <= i < n && Classify(cat, name, t, c, pre[i]) == Err(rp.error) &&
        forall j :: 0 <= j < i ==> Classify(cat, name, t, c, pre[j]).Ok?;
      assert Classify(cat, name, t, c, rows[i]) == Err(Fates(cat, name, t, c, rows).error);
    } else {
      FatesOk(cat, name, t, c, pre);
      FatesLast(cat, name, t, c, rows);
      assert Classify(cat, name, t, c, rows[n]) == Err(Fates(cat, name, t, c, rows).error);
    }
  }

  /** The fates partition the rows: kept + removed + blocked = all rows. */
  lemma {:induction false} CountFatesPartition(fs: seq<Fate>)
    ensures CountFate(fs, Keep) + CountFate(fs, Remove) + CountFate(fs, Block) == |fs|
  {
    if fs != [] { CountFatesPartition(fs[..|fs| - 1]); }
  }

  /** `Survivors` has one row per non-`Remove` fate. */
  lemma {:induction false} SurvivorsLength(rows: seq<Row>, fs: seq<Fate>)
    requires |fs| == |rows|
    ensures |Survivors(rows, fs)| == |rows| - CountFate(fs, Remove)
  {
    if rows != [] {
      var n := |rows| - 1;
      SurvivorsLength(rows[..n], fs[..n]);
      CountFatesPartition(fs[..n]);
    }
  }

  /** `Survivors` only ever holds rows of the table. */
  lemma {:induction false} SurvivorsSubset(rows: seq<Row>, fs: seq<Fate>)
    requires |fs| == |rows|
    ensures multiset(Survivors(rows, fs)) <= multiset(rows)
  {
    if rows != [] {
      var n := |rows| - 1;
      SurvivorsSubset(rows[..n], fs[..n]);
      assert rows == rows[..n] + [rows[n]];
    }
  }

  /** Every row whose fate is not `Remove` survives. */
  lemma {:induction false} SurvivorsKeep(rows: seq<Row>, fs: seq<Fate>, i: nat)
    requires |fs| == |rows| && i < |rows| && fs[i] != Remove
    ensures rows[i] in Survivors(rows, fs)
  {
    var n := |rows| - 1;
    if i < n {
      assert rows[..n][i] == rows[i] && fs[..n][i] == fs[i];
      SurvivorsKeep(rows[..n], fs[..n], i);
    }
  }

  /** Every survivor is a row whose fate is not `Remove`. */
  lemma {:induction false} SurvivorsFrom(rows: seq<Row>, fs: seq<Fate>, x: Row)
    requires |fs| == |rows| && x in Survivors(rows, fs)
    ensures exists j :: 0 <= j < |rows| && rows[j] == x && fs[j] != Remove
  {
    var n := |rows| - 1;
    if x in Survivors(rows[..n], fs[..n]) {
      SurvivorsFrom(rows[..n], fs[..n], x);
      var j :| 0 <= j < n && rows[..n][j] == x && fs[..n][j] != Remove;
      assert rows[j] == x && fs[j] != Remove;
    } else {
      assert rows[n] == x && fs[n] != Remove;
    }
  }

  /** Survivors keep their relative order: a row kept before another comes
      first in `Survivors`. */
  lemma {:induction false} SurvivorsOrdered(rows: seq<Row>, fs: seq<Fate>, i: nat, j: nat)
    requires |fs| == |rows| && i < j < |rows| && fs[i] != Remove && fs[j] != Remove
    ensures exists a, b ::
      && 0 <= a < b < |Survivors(rows, fs)|
      && Survivors(rows, fs)[a] == rows[i] && Survivors(rows, fs)[b] == rows[j]
  {
    var n := |rows| - 1;
    var pre := Survivors(rows[..n], fs[..n]);
    assert rows[..n][i] == rows[i] && fs[..n][i] == fs[i];
    if j < n {
      assert rows[..n][j] == rows[j] && fs[..n][j] == fs[j];
      SurvivorsOrdered(rows[..n], fs[..n], i, j);
      var a, b :| 0 <= a < b < |pre| && pre[a] == rows[i] && pre[b] == rows[j];
      assert Survivors(rows, fs)[a] == pre[a] && Survivors(rows, fs)[b] == pre[b];
    } else {
      SurvivorsKeep(rows[..n], fs[..n], i);
      assert rows[i] in pre;
      var a :| 0 <= a < |pre| && pre[a] == rows[i];
      assert Survivors(rows, fs) == pre + [rows[n]];
      assert Survivors(rows, fs)[a] == rows[i] && Survivors(rows, fs)[|pre|] == rows[j];
    }
  }

  /** The number of rows whose predicate evaluates to True. */
  function CountTrue(name: string, t: Table, c: Cond, rows: seq<Row>): nat
    requires WellFormed(t) && forall i :: 0 <= i < |rows| ==> |rows[i]| == |t.names|
  {
    if rows == [] then 0
    else
      var n := |rows| - 1;
      CountTrue(name, t, c, rows[..n]) + (if Eval(rows[n], TableScope(name, t), c) == Ok(True) then 1 else 0)
  }

  /** Removed + blocked = the number of rows matching the predicate. */
  lemma {:induction false} DeletedPlusBlockedIsMatched(cat: Catalog, name: string, t: Table, c: Cond, rows: seq<Row>)
    requires WellFormed(t) && forall i :: 0 <= i < |rows| ==> |rows[i]| == |t.names|
    requires Fates(cat, name, t, c, rows).Ok?
    ensures var fs := Fates(cat, name, t, c, rows).value;
      CountFate(fs, Remove) + CountFate(fs, Block) == CountTrue(name, t, c, rows)
  {
    if rows != [] {
      var n := |rows| - 1;
      var pre := rows[..n];
      forall i | 0 <= i < n ensures pre[i] == rows[i] {}
      FatesLast(cat, name, t, c, rows);
      DeletedPlusBlockedIsMatched(cat, name, t, c, pre);
      var ps := Fates(cat, name, t, c, pre).value;
      var f := Classify(cat, name, t, c, rows[n]).value;
      CountFateSnoc(ps, f, Remove);
      CountFateSnoc(ps, f, Block);
      ClassifySpec(cat, name, t, c, rows[n]);
    }
  }

  /** Bulk delete empties the table and reports every row, references or
      not; nothing else changes. */
  lemma BulkDeleteClears(cat: Catalog, name: string)
    requires CatalogWF(cat) && name in cat
    ensures DeleteStatement(cat, name, None).Ok?
    ensures var o := DeleteStatement(cat, name, None).value;
      && o.cat.Keys == cat.Keys && o.cat[name].data == [] && o.deleted == |cat[name].data| && o.blocked == 0
      && o.cat[name] == cat[name].(data := [])
      && (forall n :: n in cat && n != name ==> o.cat[n] == cat[n])
  {
  }

  /** A predicated delete changes only the rows of its table, keeps every
      row that does not match or is still referenced, and reports removed +
      blocked = matched. */
  lemma PredicatedDeleteSpec(cat: Catalog, name: string, c: Cond)
    requires CatalogWF(cat) && name in cat
    requires DeleteStatement(cat, name, Some(c)).Ok?
    ensures var o := DeleteStatement(cat, name, Some(c)).value;
      var t := cat[name];
      && o.cat.Keys == cat.Keys
      && o.cat[name] == t.(data := o.cat[name].data)
      && (forall n :: n in cat && n != name ==> o.cat[n] == cat[n])
      && o.deleted + o.blocked == CountTrue(name, t, c, t.data)
      && |o.cat[name].data| == |t.data| - o.deleted
      && multiset(o.cat[name].data) <= multiset(t.data)
  {
    var t := cat[name];
    var fs := Fates(cat, name, t, c, t.data).value;
    DeletedPlusBlockedIsMatched(cat, name, t, c, t.data);
    SurvivorsLength(t.data, fs);
    SurvivorsSubset(t.data, fs);
  }

  /** The catalog stays well formed after a predicated delete. */
  lemma PredicatedDeleteWellFormed(cat: Catalog, name: string, c: Cond)
    requires CatalogWF(cat) && name in cat
    requires DeleteStatement(cat, name, Some(c)).Ok?
    ensures CatalogWF(DeleteStatement(cat, name, Some(c)).value.cat)
  {
    var t := cat[name];
    var fs := Fates(cat, name, t, c, t.data).value;
    SurvivorsSubset(t.data, fs);
    var o := DeleteStatement(cat, name, Some(c)).value;
    forall r | r in o.cat[name].data ensures |r| == |o.cat[name].names| {
      assert multiset(o.cat[name].data)[r] > 0;
      assert r in t.data;
    }
  }

  /** The fate of one row, stated against the predicate and `inv_ref`. */
  lemma FateOfRow(cat: Catalog, name: string, t: Table, c: Cond, rows: seq<Row>, i: nat)
    requires WellFormed(t) && forall j :: 0 <= j < |rows| ==> |rows[j]| == |t.names|
    requires Fates(cat, name, t, c, rows).Ok? && i < |rows|
    ensures var f, e := Fates(cat, name, t, c, rows).value[i], Eval(rows[i], TableScope(name, t), c);
      && (f == Keep <==> e.Ok? && e.value != True)
      && (f == Block <==> e == Ok(True) && InvRef(cat, t, rows[i]) == Ok(true))
      && (f == Remove <==> e == Ok(True) && InvRef(cat, t, rows[i]) == Ok(false))
  {
    FatesValues(cat, name, t, c, rows);
    ClassifySpec(cat, name, t, c, rows[i]);
  }

  /** A row that does not match, or that matches but is still referenced,
      is kept. */
  lemma PredicatedDeleteKeeps(cat: Catalog, name: string, c: Cond, i: nat)
    requires CatalogWF(cat) && name in cat && i < |cat[name].data|
    requires DeleteStatement(cat, name, Some(c)).Ok?
    requires var t := cat[name];
      var e := Eval(t.data[i], TableScope(name, t), c);
      e != Ok(True) || InvRef(cat, t, t.data[i]) == Ok(true)
    ensures cat[name].data[i] in DeleteStatement(cat, name, Some(c)).value.cat[name].data
  {
    var t := cat[name];
    var fs := Fates(cat, name, t, c, t.data).value;
    FateOfRow(cat, name, t, c, t.data, i);
    SurvivorsKeep(t.data, fs, i);
  }

  /** A row that matches and is not referenced is removed: no row equal to
      it is left in the stored table. */
  lemma PredicatedDeleteRemoves(cat: Catalog, name: string, c: Cond, i: nat)
    requires CatalogWF(cat) && name in cat && i < |cat[name].data|
    requires DeleteStatement(cat, name, Some(c)).Ok?
    requires var t := cat[name];
      Eval(t.data[i], TableScope(name, t), c) == Ok(True) && InvRef(cat, t, t.data[i]) == Ok(false)
    ensures cat[name].data[i] !in DeleteStatement(cat, name, Some(c)).value.cat[name].data
  {
    var t := cat[name];
    var fs := Fates(cat, name, t, c, t.data).value;
    FatesValues(cat, name, t, c, t.data);
    ClassifySpec(cat, name, t, c, t.data[i]);
    if t.data[i] in Survivors(t.data, fs) {
      SurvivorsFrom(t.data, fs, t.data[i]);
      assert false;
    }
  }
}
