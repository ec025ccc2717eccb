/**
 * The transformer session as an object: the store of tables, the table a
 * CREATE is building (`new_table`) and the inverse references it queues
 * (`add_invs`). Each method does what the transformer method of the same
 * name does, loop by loop, and is proved to compute the statement function
 * of the module that specifies it.
 */
module Engine {
  import opened Types
  import opened ThreeValued
  import opened Where
  import opened Schema
  import opened Insert
  import opened Delete
  import opened Select

  // ---------------------------------------------------------------------
  // Scans shared by INSERT and DELETE
  // ---------------------------------------------------------------------

  /** The row scan of the PK and FK checks: does some row hold `v` at
      position `i`? Stops at the first hit. */
  method ScanColumn(data: seq<Row>, i: nat, v: Value) returns (found: bool)
    ensures found == Occurs(data, i, v)
  {
    var k := 0;
    while k < |data|
      invariant 0 <= k <= |data|
      invariant forall j :: 0 <= j < k ==> !(i < |data[j]| && data[j][i] == v)
    {
      if i < |data[k]| && data[k][i] == v {
        return true;
      }
      k := k + 1;
    }
    return false;
  }

  // ---------------------------------------------------------------------
  // Prefix lemmas for the statement functions the loops follow
  // ---------------------------------------------------------------------

  /** The first column that fails decides the error of the whole row. */
  lemma {:induction false} ConvertErrorKept(cat: Catalog, t: Table, lits: seq<Literal>, k: nat, m: nat)
    requires WellFormed(t) && |lits| == |t.names| && k <= m <= |lits|
    requires Convert(cat, t, lits, k).Err?
    ensures Convert(cat, t, lits, m) == Convert(cat, t, lits, k)
    decreases m
  {
    if m > k {
      ConvertErrorKept(cat, t, lits, k, m - 1);
    }
  }

  /** A foreign-key pair list that stops at `i` is refused with the
      error of pair `i`. */
  lemma {:induction false} PairsErrorFirst(rt: Table, t: Table, local: seq<string>, refs: seq<string>, i: nat)
    requires |local| == |refs| && i < |local|
    requires forall l :: l in local ==> l in t.cols
    requires forall j :: 0 <= j < i ==> PairError(rt, t, local[j], refs[j]).None?
    requires PairError(rt, t, local[i], refs[i]).Some?
    ensures PairsError(rt, t, local, refs) == PairError(rt, t, local[i], refs[i])
  {
    if i > 0 {
      assert PairError(rt, t, local[0], refs[0]).None?;
      assert forall j :: 0 <= j < i - 1 ==> local[1..][j] == local[j + 1] && refs[1..][j] == refs[j + 1];
      PairsErrorFirst(rt, t, local[1..], refs[1..], i - 1);
    }
  }

  /** Registration changes only inverse references, so well-formedness of
      every table is kept. */
  lemma RegisterKeepsWellFormed(cat: Catalog, newName: string, ps: seq<PendingRef>)
    requires CatalogWF(cat) && forall p :: p in ps ==> p.refTable in cat
    ensures CatalogWF(Register(cat, newName, ps))
  {
    var cat' := Register(cat, newName, ps);
    forall n | n in cat' ensures WellFormed(cat'[n]) {
      assert cat'[n] == cat[n].(invrefs := cat'[n].invrefs);
    }
  }

  /** `values_ordered`: each listed value is written at its column's
      position in the table's column order, the rest stay Null. */
  method ScatterValues(names: seq<string>, cols: seq<string>, vals: seq<Literal>) returns (row: seq<Literal>)
    requires Distinct(names) && |cols| == |vals|
    requires forall c :: c in cols ==> c in names
    ensures row == Scatter(names, cols, vals)
  {
    row := seq(|names|, _ => NullLit);
    var k := 0;
    while k < |cols|
      invariant 0 <= k <= |cols|
      invariant |row| == |names|
      invariant forall i :: 0 <= i < |names| ==> row[i] == Assigned(cols[..k], vals[..k], names[i])
    {
      var pos := IndexOf(names, cols[k]);
      row := row[pos := vals[k]];
      assert cols[..k + 1][..k] == cols[..k] && vals[..k + 1][..k] == vals[..k];
      k := k + 1;
    }
    assert cols[..k] == cols && vals[..k] == vals;
  }

  /** The checks `referential_constraint` makes on one pair. */
  method CheckPair(rt: Table, t: Table, l: string, rc: string) returns (e: Option<Error>)
    requires l in t.cols
    ensures e == PairError(rt, t, l, rc)
  {
    var hc := t.cols[l];
    if rc !in rt.cols {
      return Some(ReferenceColumnExistenceError);
    }
    if rt.cols[rc].ctype != hc.ctype || rt.cols[rc].size != hc.size {
      return Some(ReferenceTypeError);
    }
    if rc !in rt.pks {
      return Some(ReferenceNonPrimaryKeyError);
    }
    return None;
  }

  /** The referenced columns a pair list covers. */
  function Elems(s: seq<string>): set<string>
  {
    set x | x in s
  }

  /** Marking one more pair extends the marked prefix by that pair. */
  lemma MarkForeignSnoc(t0: Table, ls: seq<string>, rs: seq<string>, i: nat, rtName: string)
    requires |ls| == |rs| && i < |ls| && ls[i] in t0.cols
    requires forall x :: x in ls[..i] ==> x in t0.cols
    ensures forall x :: x in ls[..i + 1] ==> x in t0.cols
    ensures Elems(rs[..i + 1]) == Elems(rs[..i]) + {rs[i]}
    ensures MarkForeign(t0, ls[..i + 1], rtName, rs[..i + 1]) ==
      var p := MarkForeign(t0, ls[..i], rtName, rs[..i]);
      p.(cols := p.cols[ls[i] := p.cols[ls[i]].(isFK := true)], fors := p.fors[ls[i] := Ref(rtName, rs[i])])
  {
    assert ls[..i + 1] == ls[..i] + [ls[i]] && rs[..i + 1] == rs[..i] + [rs[i]];
    assert ls[..i + 1][..i] == ls[..i] && rs[..i + 1][..i] == rs[..i];
    assert forall x :: x in rs[..i + 1] <==> x in rs[..i] || x == rs[i];
  }

  /** The key loop of `primary_key_constraint`: every listed column must be
      defined; each is marked NOT NULL and PK and added to the key set. */
  method MarkKeys(t0: Table, ks: seq<string>) returns (r: Result<Table>)
    ensures r.Err? <==> exists k :: k in ks && k !in t0.cols
    ensures r.Err? ==> r.error == NonExistingColumnDefError
    ensures r.Ok? ==> r.value == MarkPrimary(t0, ks)
  {
    var t := t0;
    var i := 0;
    while i < |ks|
      invariant 0 <= i <= |ks|
      invariant forall j :: 0 <= j < i ==> ks[j] in t0.cols
      invariant forall k :: k in ks[..i] ==> k in t0.cols
      invariant t == MarkPrimary(t0, ks[..i])
    {
      var k := ks[i];
      if k !in t.cols {
        return Err(NonExistingColumnDefError);
      }
      MarkPrimaryStep(t0, ks, i);
      t := t.(cols := t.cols[k := t.cols[k].(notNull := true, isPK := true)], pks := t.pks + {k});
      i := i + 1;
    }
    assert ks[..i] == ks;
    r := Ok(t);
  }

  /** The pair loop of `referential_constraint`: each (local, referenced)
      pair is checked and then marked, the first failing pair aborting;
      `covered` collects the referenced columns (the `done` flags). The
      checks read the column types of the draft, which marking leaves as
      they were. */
  method MarkPairs(t0: Table, rt: Table, rtName: string, ls: seq<string>, rs: seq<string>)
    returns (r: Result<Table>, covered: set<string>)
    requires |ls| == |rs| && forall l :: l in ls ==> l in t0.cols
    ensures PairsError(rt, t0, ls, rs).Some? ==> r == Err(PairsError(rt, t0, ls, rs).value)
    ensures PairsError(rt, t0, ls, rs).None? ==>
      r == Ok(MarkForeign(t0, ls, rtName, rs)) && covered == Elems(rs)
  {
    var t := t0;
    covered := {};
    var i := 0;
    while i < |ls|
      invariant 0 <= i <= |ls|
      invariant forall l :: l in ls[..i] ==> l in t0.cols
      invariant forall j :: 0 <= j < i ==> PairError(rt, t0, ls[j], rs[j]).None?
      invariant t == MarkForeign(t0, ls[..i], rtName, rs[..i])
      invariant covered == Elems(rs[..i])
    {
      var l, rc := ls[i], rs[i];
      var e := CheckPair(rt, t0, l, rc);
      if e.Some? {
        PairsErrorFirst(rt, t0, ls, rs, i);
        return Err(e.value), covered;
      }
      covered := covered + {rc};
      t := t.(cols := t.cols[l := t.cols[l].(isFK := true)], fors := t.fors[l := Ref(rtName, rc)]);
      forall j | 0 <= j < i + 1 ensures PairError(rt, t0, ls[j], rs[j]).None? {
        if j == i { assert e == PairError(rt, t0, ls[j], rs[j]); }
      }
      MarkForeignSnoc(t0, ls, rs, i, rtName);
      i := i + 1;
    }
    assert ls[..i] == ls && rs[..i] == rs;
    PairsErrorNone(rt, t0, ls, rs);
    r := Ok(t);
  }

  /** The inner registration loop of `create_table_query`, over
      `zip(ref_cols, from_cols)` of one queued entry. */
  method AddPairs(m: map<string, seq<Ref>>, name: string, z: seq<(string, string)>) returns (m': map<string, seq<Ref>>)
    ensures m' == AddReferencers(m, name, z)
  {
    m' := m;
    var j := 0;
    while j < |z|
      invariant 0 <= j <= |z|
      invariant m' == AddReferencers(m, name, z[..j])
    {
      var (rc, fc) := z[j];
      if rc !in m' {
        m' := m'[rc := [Ref(name, fc)]];
      } else {
        m' := m'[rc := m'[rc] + [Ref(name, fc)]];
      }
      assert z[..j + 1][..j] == z[..j];
      j := j + 1;
    }
    assert z[..j] == z;
  }

  /** The outer registration loop of `create_table_query`, in `add_invs` order. */
  method RegisterPending(cat0: Catalog, name: string, ps: seq<PendingRef>) returns (cat: Catalog)
    requires forall p :: p in ps ==> p.refTable in cat0
    ensures cat == Register(cat0, name, ps)
  {
    cat := cat0;
    var i := 0;
    while i < |ps|
      invariant 0 <= i <= |ps|
      invariant forall p :: p in ps[..i] ==> p.refTable in cat0
      invariant cat == Register(cat0, name, ps[..i])
    {
      var p := ps[i];
      assert p in ps;
      var rt := cat[p.refTable];
      var m := AddPairs(rt.invrefs, name, Zip(p.refCols, p.localCols));
      cat := cat[p.refTable := rt.(invrefs := m)];
      assert ps[..i + 1][..i] == ps[..i];
      assert forall x :: x in ps[..i + 1] <==> x in ps[..i] || x == p;
      i := i + 1;
    }
    assert ps[..i] == ps;
  }

  /** The column check of an explicit INSERT column list. */
  method ColumnsExist(t: Table, cs: seq<string>) returns (ok: bool)
    ensures ok <==> forall c :: c in cs ==> c in t.cols
  {
    var k := 0;
    while k < |cs|
      invariant 0 <= k <= |cs|
      invariant forall c :: c in cs[..k] ==> c in t.cols
    {
      if cs[k] !in t.cols {
        return false;
      }
      assert forall x :: x in cs[..k + 1] <==> x in cs[..k] || x == cs[k];
      k := k + 1;
    }
    assert cs[..k] == cs;
    return true;
  }

  /** The literal row of `insert_query`: the explicit column list is checked
      and scattered, or the VALUES are taken as they are. */
  method LiteralValues(t: Table, cols: Option<seq<string>>, vals: seq<Literal>) returns (r: Result<seq<Literal>>)
    requires WellFormed(t)
    ensures r == LiteralRow(t, cols, vals)
  {
    match cols {
      case Some(cs) =>
        var ok := ColumnsExist(t, cs);
        if !ok {
          return Err(InsertColumnExistenceError);
        }
        if |cs| != |vals| {
          return Err(InsertTypeMismatchError);
        }
        var lits := ScatterValues(t.names, cs, vals);
        r := Ok(lits);
      case None =>
        if |vals| != |t.names| {
          return Err(InsertTypeMismatchError);
        }
        r := Ok(vals);
    }
  }

  // ---------------------------------------------------------------------
  // DELETE: prefix lemmas for the row loop
  // ---------------------------------------------------------------------

  /** A failing row decides the error of the whole loop. */
  lemma {:induction false} FatesErrorKept(cat: Catalog, name: string, t: Table, c: Cond, rows: seq<Row>, k: nat)
    requires WellFormed(t) && forall i :: 0 <= i < |rows| ==> |rows[i]| == |t.names|
    requires k <= |rows| && Fates(cat, name, t, c, rows[..k]).Err?
    ensures Fates(cat, name, t, c, rows) == Fates(cat, name, t, c, rows[..k])
  {
    if k < |rows| {
      var n := |rows| - 1;
      assert rows[..n][..k] == rows[..k];
      FatesErrorKept(cat, name, t, c, rows[..n], k);
    } else {
      assert rows[..k] == rows;
    }
  }

  /** A row that fails to classify aborts the whole row loop with its error. */
  lemma FatesStepError(cat: Catalog, name: string, t: Table, c: Cond, rows: seq<Row>, k: nat, fs: seq<Fate>)
    requires WellFormed(t) && forall i :: 0 <= i < |rows| ==> |rows[i]| == |t.names|
    requires k < |rows| && Fates(cat, name, t, c, rows[..k]) == Ok(fs)
    requires Classify(cat, name, t, c, rows[k]).Err?
    ensures Fates(cat, name, t, c, rows) == Err(Classify(cat, name, t, c, rows[k]).error)
  {
    assert rows[..k + 1][..k] == rows[..k];
    FatesErrorKept(cat, name, t, c, rows, k + 1);
  }

  /** One more classified row extends the fates. */
  lemma FatesSnoc(cat: Catalog, name: string, t: Table, c: Cond, rows: seq<Row>, k: nat, fs: seq<Fate>, f: Fate)
    requires WellFormed(t) && forall i :: 0 <= i < |rows| ==> |rows[i]| == |t.names|
    requires k < |rows| && Fates(cat, name, t, c, rows[..k]) == Ok(fs)
    requires Classify(cat, name, t, c, rows[k]) == Ok(f)
    ensures Fates(cat, name, t, c, rows[..k + 1]) == Ok(fs + [f])
  {
    assert rows[..k + 1][..k] == rows[..k];
  }

  // ---------------------------------------------------------------------
  // SELECT: the dictionary, the product, the filter and the projection
  // ---------------------------------------------------------------------

  /** The column loop of `select_query` for one FROM table: each
      (table, column) key is inserted into `sel_tbl_cols`; a key already
      present keeps its place. */
  method AddColumns(es: seq<Entry>, name: string, t: Table) returns (out: seq<Entry>)
    requires WellFormed(t)
    ensures out == AddEntries(es, TableEntries(name, t))
  {
    ghost var te := TableEntries(name, t);
    out := es;
    var k := 0;
    while k < |t.names|
      invariant 0 <= k <= |t.names|
      invariant out == AddEntries(es, te[..k])
    {
      var c := t.names[k];
      var key := Ref(name, c);
      if FindKey(out, key).None? {
        out := out + [Entry(key, t.cols[c].ctype)];
      }
      assert te[..k + 1][..k] == te[..k] && te[k] == Entry(key, t.cols[c].ctype);
      k := k + 1;
    }
    assert te[..k] == te;
  }

  /** One more FROM table extends the dictionary and the row lists. */
  lemma GatherStep(cat: Catalog, from: seq<string>, i: nat)
    requires CatalogWF(cat) && i < |from| && from[i] in cat && FromValid(cat, from[..i])
    ensures FromValid(cat, from[..i + 1])
    ensures Dictionary(cat, from[..i + 1]) == AddEntries(Dictionary(cat, from[..i]), TableEntries(from[i], cat[from[i]]))
    ensures Datas(cat, from[..i + 1]) == Datas(cat, from[..i]) + [cat[from[i]].data]
  {
    assert from[..i + 1] == from[..i] + [from[i]];
    FromValidSnoc(cat, from[..i], from[i]);
    DictionarySnoc(cat, from[..i], from[i]);
    DatasSnoc(cat, from[..i], from[i]);
  }

  /** The table loop of `select_query`: every FROM table must exist; their
      rows are collected in FROM order and their keys inserted into the
      column dictionary. */
  method GatherTables(cat: Catalog, from: seq<string>) returns (r: Option<(seq<Entry>, seq<seq<Row>>)>)
    requires CatalogWF(cat)
    ensures r.None? <==> exists i :: 0 <= i < |from| && from[i] !in cat
    ensures r.Some? ==> FromValid(cat, from) && r.value == (Dictionary(cat, from), Datas(cat, from))
  {
    var entries: seq<Entry> := [];
    var ds: seq<seq<Row>> := [];
    var i := 0;
    while i < |from|
      invariant 0 <= i <= |from|
      invariant FromValid(cat, from[..i])
      invariant entries == Dictionary(cat, from[..i])
      invariant ds == Datas(cat, from[..i])
    {
      if from[i] !in cat {
        return None;
      }
      var t := cat[from[i]];
      GatherStep(cat, from, i);
      ds := ds + [t.data];
      entries := AddColumns(entries, from[i], t);
      i := i + 1;
    }
    assert from[..i] == from;
    return Some((entries, ds));
  }

  /** The product and WHERE part of `select_query`: the nested `add_recs`
      enumeration of the FROM tables' rows, then the optional filter. */
  method CandidateRows(cat: Catalog, from: seq<string>, entries: seq<Entry>, ds: seq<seq<Row>>, where: Option<Cond>)
    returns (r: Result<seq<Row>>)
    requires FromValid(cat, from) && entries == Dictionary(cat, from) && ds == Datas(cat, from)
    ensures r == Candidates(cat, from, where)
  {
    var rows := AddRecs([], ds, []);
    RecsIsProduct(ds, []);
    ExtendEmpty(Product(ds));
    assert rows == Product(Datas(cat, from));
    var scope := Scope(from, entries);
    forall x | x in rows ensures |scope.entries| <= |x| {
      ProductCoversDictionary(cat, from, x);
    }
    r := Ok(rows);
    if where.Some? {
      r := FilterRows(scope, where.value, rows);
    }
  }

  /** The projection part of `select_query`: `*` keeps every dictionary key
      and the full rows; otherwise the items are resolved and projected. */
  method ProjectCandidates(cat: Catalog, from: seq<string>, entries: seq<Entry>, items: seq<SelItem>,
                           where: Option<Cond>, rows: seq<Row>) returns (r: Result<Answer>)
    requires CatalogWF(cat) && FromValid(cat, from) && entries == Dictionary(cat, from)
    requires Candidates(cat, from, where) == Ok(rows)
    ensures r == SelectStatement(cat, from, items, where)
  {
    var scope := Scope(from, entries);
    assert !exists i :: 0 <= i < |from| && from[i] !in cat;
    if items == [] {
      return Ok(Answer(Keys(entries), rows));
    }
    var order := ResolveSelection(scope, items);
    if order.Err? {
      return Err(order.error);
    }
    var a := ProjectRows(scope, items, order.value, rows);
    r := Ok(a);
  }

  /** `select_query` up to the rendering. */
  method RunSelect(cat: Catalog, from: seq<string>, items: seq<SelItem>, where: Option<Cond>) returns (r: Result<Answer>)
    requires CatalogWF(cat)
    ensures r == SelectStatement(cat, from, items, where)
  {
    var g := GatherTables(cat, from);
    if g.None? {
      return Err(SelectTableExistenceError);
    }
    var (entries, ds) := g.value;
    var c := CandidateRows(cat, from, entries, ds, where);
    if c.Err? {
      assert !exists i :: 0 <= i < |from| && from[i] !in cat;
      return Err(c.error);
    }
    r := ProjectCandidates(cat, from, entries, items, where, c.value);
  }

  /** `add_recs`: appends to `acc`, depth first, `curr` followed by every
      combination of one row from each of the tables `ds`. */
  method AddRecs(acc: seq<Row>, ds: seq<seq<Row>>, curr: Row) returns (out: seq<Row>)
    ensures out == acc + Recs(ds, curr)
    decreases |ds|
  {
    if |ds| == 0 {
      return acc + [curr];
    }
    out := acc;
    var k := 0;
    while k < |ds[0]|
      invariant 0 <= k <= |ds[0]|
      invariant out + RecsOver(ds[0][k..], ds[1..], curr) == acc + Recs(ds, curr)
    {
      var record := ds[0][k];
      ghost var before := out;
      assert ds[0][k..][1..] == ds[0][k + 1..];
      out := AddRecs(out, ds[1..], curr + record);
      assert before + RecsOver(ds[0][k..], ds[1..], curr) ==
        before + (Recs(ds[1..], curr + record) + RecsOver(ds[0][k + 1..], ds[1..], curr));
      k := k + 1;
    }
    assert ds[0][k..] == [];
  }

  /** A failing row decides the error of the whole filter. */
  lemma {:induction false} FilterErrorKept(scope: Scope, c: Cond, rows: seq<Row>, k: nat)
    requires forall i :: 0 <= i < |rows| ==> |scope.entries| <= |rows[i]|
    requires k <= |rows|
    requires forall i :: 0 <= i < k ==> |scope.entries| <= |rows[..k][i]|
    requires Filter(scope, c, rows[..k]).Err?
    ensures Filter(scope, c, rows) == Filter(scope, c, rows[..k])
  {
    if k < |rows| {
      var n := |rows| - 1;
      assert rows[..n][..k] == rows[..k];
      FilterErrorKept(scope, c, rows[..n], k);
    } else {
      assert rows[..k] == rows;
    }
  }

  /** The WHERE loop of `select_query`: rows whose predicate is not True are
      skipped. */
  method FilterRows(scope: Scope, c: Cond, rows: seq<Row>) returns (r: Result<seq<Row>>)
    requires forall i :: 0 <= i < |rows| ==> |scope.entries| <= |rows[i]|
    ensures r == Filter(scope, c, rows)
  {
    var kept: seq<Row> := [];
    var k := 0;
    while k < |rows|
      invariant 0 <= k <= |rows|
      invariant forall i :: 0 <= i < k ==> |scope.entries| <= |rows[..k][i]|
      invariant Filter(scope, c, rows[..k]) == Ok(kept)
    {
      var v := Eval(rows[k], scope, c);
      assert rows[..k + 1][..k] == rows[..k];
      if v.Err? {
        FilterErrorKept(scope, c, rows, k + 1);
        return Err(v.error);
      }
      if v.value == True {
        kept := kept + [rows[k]];
      }
      k := k + 1;
    }
    assert rows[..k] == rows;
    r := Ok(kept);
  }

  /** The count loop of an unqualified select item: how many keys have
      column part `c`, and the table of the last of them. */
  method CountMatches(es: seq<Entry>, c: string) returns (cnt: nat, tbl: string)
    ensures cnt == CountColumn(es, c)
    ensures cnt > 0 ==> exists j :: 0 <= j < |es| && es[j].ref == Ref(tbl, c)
  {
    cnt, tbl := 0, "";
    var k := 0;
    while k < |es|
      invariant 0 <= k <= |es|
      invariant cnt + CountColumn(es[k..], c) == CountColumn(es, c)
      invariant cnt > 0 ==> exists j :: 0 <= j < k && es[j].ref == Ref(tbl, c)
    {
      assert es[k..][1..] == es[k + 1..];
      if es[k].ref.column == c {
        cnt, tbl := cnt + 1, es[k].ref.table;
      }
      k := k + 1;
    }
  }

  /** One select item resolved to its dictionary position, or refused. */
  method ResolveOne(scope: Scope, it: SelItem) returns (r: Result<nat>)
    ensures r == ResolveItem(scope, it)
  {
    match it.table {
      case Some(tb) =>
        if tb !in scope.tables {
          return Err(SelectColumnResolveError);
        }
        var f := FindKey(scope.entries, Ref(tb, it.column));
        if f.None? {
          return Err(SelectColumnResolveError);
        }
        r := Ok(f.value);
      case None =>
        var cnt, tbl := CountMatches(scope.entries, it.column);
        ResolveUnqualified(scope, it.column);
        if cnt != 1 {
          CountColumnZero(scope.entries, it.column);
          if cnt == 0 {
            return Err(SelectColumnResolveError);
          }
          match FindColumn(scope.entries, it.column) {
            case None =>
            case Some(k) => CountColumnOne(scope.entries, it.column, k);
          }
          return Err(SelectColumnResolveError);
        }
        var f := FindKey(scope.entries, Ref(tbl, it.column));
        var j := f.value;
        CountColumnOne(scope.entries, it.column, j);
        r := Ok(j);
    }
  }

  /** A failing item decides the error of the whole item list. */
  lemma {:induction false} ResolveItemsErrorKept(scope: Scope, items: seq<SelItem>, k: nat)
    requires k <= |items| && ResolveItems(scope, items[..k]).Err?
    ensures ResolveItems(scope, items) == ResolveItems(scope, items[..k])
  {
    if k < |items| {
      var n := |items| - 1;
      assert items[..n][..k] == items[..k];
      ResolveItemsErrorKept(scope, items[..n], k);
    } else {
      assert items[..k] == items;
    }
  }

  /** The item loop of `select_query`: `sel_order`, the first unresolvable
      item aborting. */
  method ResolveSelection(scope: Scope, items: seq<SelItem>) returns (r: Result<seq<nat>>)
    ensures r == ResolveItems(scope, items)
  {
    var order: seq<nat> := [];
    var k := 0;
    while k < |items|
      invariant 0 <= k <= |items|
      invariant ResolveItems(scope, items[..k]) == Ok(order)
    {
      var p := ResolveOne(scope, items[k]);
      assert items[..k + 1][..k] == items[..k];
      if p.Err? {
        ResolveItemsErrorKept(scope, items, k + 1);
        return Err(p.error);
      }
      order := order + [p.value];
      k := k + 1;
    }
    assert items[..k] == items;
    r := Ok(order);
  }

  /** The projection of `select_query`: the selected keys, renamed by their
      aliases, and each row cut down to the selected positions. */
  method ProjectRows(scope: Scope, items: seq<SelItem>, idx: seq<nat>, rows: seq<Row>) returns (a: Answer)
    requires |idx| == |items| && forall j :: 0 <= j < |idx| ==> idx[j] < |scope.entries|
    requires forall x :: x in rows ==> |scope.entries| <= |x|
    ensures a == Projection(scope, items, idx, rows)
  {
    var hs := seq(|idx|, j requires 0 <= j < |idx| => scope.entries[idx[j]].ref);
    var i := 0;
    while i < |items|
      invariant 0 <= i <= |items| && |hs| == |items|
      invariant forall m :: 0 <= m < |hs| ==>
        hs[m] == if m < i then Header(scope.entries[idx[m]], items[m]) else scope.entries[idx[m]].ref
    {
      if items[i].alias.Some? {
        hs := hs[i := Ref(hs[i].table, items[i].alias.value)];
      }
      i := i + 1;
    }
    var out: seq<Row> := [];
    var k := 0;
    while k < |rows|
      invariant 0 <= k <= |rows| && |out| == k
      invariant forall m :: 0 <= m < k ==> out[m] == ProjectRow(rows[m], idx)
    {
      assert rows[k] in rows;
      out := out + [ProjectRow(rows[k], idx)];
      k := k + 1;
    }
    a := Answer(hs, out);
  }

  // ---------------------------------------------------------------------
  // Insert and delete
  // ---------------------------------------------------------------------

  /** The checks of the `i`-th value of an INSERT, in the order
      `insert_query` makes them. */
  method CheckValue(cat: Catalog, t: Table, i: nat, lit: Literal) returns (r: Result<Value>)
    requires WellFormed(t) && i < |t.names|
    ensures r == CheckColumn(cat, t, i, lit)
  {
    var n := t.names[i];
    var c := t.cols[n];
    var v: Value;
    if lit.NullLit? {
      if c.notNull {
        return Err(InsertColumnNonNullableError);
      }
      v := Null;
    } else if LitType(lit) != c.ctype {
      return Err(InsertTypeMismatchError);
    } else {
      v := Val(lit.text);
      if c.ctype == CharType {
        v := Val(Truncate(Unquote(lit.text), c.size));
      }
    }
    if c.isPK {
      var dup := ScanColumn(t.data, i, v);
      if dup {
        return Err(InsertDuplicatePrimaryKeyError);
      }
    }
    if c.isFK {
      if n !in t.fors {
        return Err(RuntimeFault);
      }
      var target := t.fors[n];
      if target.table !in cat {
        return Err(RuntimeFault);
      }
      var rt := cat[target.table];
      if target.column !in rt.names {
        return Err(RuntimeFault);
      }
      var present := ScanColumn(rt.data, IndexOf(rt.names, target.column), v);
      if !present {
        return Err(InsertReferentialIntegrityError);
      }
    }
    r := Ok(v);
  }

  /** The column loop of `insert_query`: each value checked and converted
      in column order, the first failure aborting. */
  method ConvertValues(cat: Catalog, t: Table, lits: seq<Literal>) returns (r: Result<Row>)
    requires WellFormed(t) && |lits| == |t.names|
    ensures r == Convert(cat, t, lits, |lits|)
  {
    var row: Row := [];
    var i := 0;
    while i < |lits|
      invariant 0 <= i <= |lits|
      invariant Convert(cat, t, lits, i) == Ok(row)
    {
      var v := CheckValue(cat, t, i, lits[i]);
      if v.Err? {
        ConvertErrorKept(cat, t, lits, i + 1, |lits|);
        return Err(v.error);
      }
      row := row + [v.value];
      i := i + 1;
    }
    r := Ok(row);
  }

  /** `insert_query` on the database `cat`: the new catalog, or the error. */
  method RunInsert(cat: Catalog, name: string, cols: Option<seq<string>>, vals: seq<Literal>) returns (r: Result<Catalog>)
    requires CatalogWF(cat)
    ensures r == InsertStatement(cat, name, cols, vals)
  {
    if name !in cat {
      return Err(NoSuchTable);
    }
    var t := cat[name];
    var lr := LiteralValues(t, cols, vals);
    if lr.Err? {
      return Err(lr.error);
    }
    var row := ConvertValues(cat, t, lr.value);
    if row.Err? {
      return Err(row.error);
    }
    r := Ok(cat[name := t.(data := t.data + [row.value])]);
  }

  /** The referencer loop of `inv_ref` for one cell: the first referencing
      table that holds the value answers true. */
  method ReferencedBy(cat: Catalog, refs: seq<Ref>, v: Value) returns (r: Result<bool>)
    ensures r == HitIn(cat, refs, v)
  {
    var j := 0;
    while j < |refs|
      invariant 0 <= j <= |refs|
      invariant HitIn(cat, refs, v) == HitIn(cat, refs[j..], v)
    {
      assert refs[j..][1..] == refs[j + 1..];
      var rf := refs[j];
      if rf.table !in cat {
        return Err(RuntimeFault);
      }
      var rt := cat[rf.table];
      if rf.column !in rt.names {
        return Err(RuntimeFault);
      }
      var hit := ScanColumn(rt.data, IndexOf(rt.names, rf.column), v);
      if hit {
        return Ok(true);
      }
      j := j + 1;
    }
    assert refs[j..] == [];
    return Ok(false);
  }

  /** `inv_ref`: the cells of the row with their column names, in column
      order; true as soon as one cell is still referenced. */
  method InvRefQuery(cat: Catalog, t: Table, record: Row) returns (r: Result<bool>)
    ensures r == InvRef(cat, t, record)
  {
    var k := 0;
    while k < |t.names| && k < |record|
      invariant InvRef(cat, t, record) == InvRefFrom(cat, t.names, t.invrefs, record, k)
      decreases |t.names| - k
    {
      var n := t.names[k];
      if n in t.invrefs {
        var hit := ReferencedBy(cat, t.invrefs[n], record[k]);
        if hit.Err? {
          return Err(hit.error);
        }
        if hit.value {
          return Ok(true);
        }
      }
      k := k + 1;
    }
    return Ok(false);
  }

  /** The verdict on one row of a predicated `delete_query`: the WHERE
      predicate, and for a matching row the `inv_ref` check. */
  method ClassifyRow(cat: Catalog, name: string, t: Table, c: Cond, record: Row) returns (r: Result<Fate>)
    requires WellFormed(t) && |record| == |t.names|
    ensures r == Classify(cat, name, t, c, record)
  {
    var v := Eval(record, TableScope(name, t), c);
    if v.Err? {
      return Err(v.error);
    }
    if v.value != True {
      return Ok(Keep);
    }
    var hit := InvRefQuery(cat, t, record);
    if hit.Err? {
      return Err(hit.error);
    }
    r := Ok(if hit.value then Block else Remove);
  }

  /** What the row loop of a predicated `delete_query` has computed after
      the first `k` rows: their fates, the surviving rows and both counters. */
  ghost predicate RowsDone(cat: Catalog, name: string, t: Table, c: Cond, rows: seq<Row>, k: nat,
                           fs: seq<Fate>, kept: seq<Row>, removed: nat, blocked: nat)
    requires WellFormed(t) && forall i :: 0 <= i < |rows| ==> |rows[i]| == |t.names|
  {
    && k <= |rows|
    && Fates(cat, name, t, c, rows[..k]) == Ok(fs)
    && kept == Survivors(rows[..k], fs)
    && removed == CountFate(fs, Remove) && blocked == CountFate(fs, Block)
  }

  /** One more classified row advances the row loop. */
  lemma RowsDoneStep(cat: Catalog, name: string, t: Table, c: Cond, rows: seq<Row>, k: nat,
                     fs: seq<Fate>, kept: seq<Row>, removed: nat, blocked: nat, f: Fate)
    requires WellFormed(t) && forall i :: 0 <= i < |rows| ==> |rows[i]| == |t.names|
    requires RowsDone(cat, name, t, c, rows, k, fs, kept, removed, blocked) && k < |rows|
    requires Classify(cat, name, t, c, rows[k]) == Ok(f)
    ensures RowsDone(cat, name, t, c, rows, k + 1, fs + [f],
                     kept + (if f == Remove then [] else [rows[k]]),
                     removed + (if f == Remove then 1 else 0), blocked + (if f == Block then 1 else 0))
  {
    FatesSnoc(cat, name, t, c, rows, k, fs, f);
    SurvivorsSnoc(rows, k, fs, f);
    CountFateSnoc(fs, f, Remove);
    CountFateSnoc(fs, f, Block);
  }

  /** The row loop of a predicated `delete_query`: `new_data` and the
      counters `count` and `inv_refs`. */
  method DeleteRows(cat: Catalog, name: string, t: Table, c: Cond) returns (r: Result<(seq<Row>, nat, nat)>)
    requires WellFormed(t)
    ensures match Fates(cat, name, t, c, t.data)
      case Err(e) => r == Err(e)
      case Ok(fs) => r == Ok((Survivors(t.data, fs), CountFate(fs, Remove), CountFate(fs, Block)))
  {
    var newData: seq<Row> := [];
    var count, invRefs := 0, 0;
    ghost var fs: seq<Fate> := [];
    var k := 0;
    while k < |t.data|
      invariant 0 <= k <= |t.data|
      invariant RowsDone(cat, name, t, c, t.data, k, fs, newData, count, invRefs)
    {
      var record := t.data[k];
      assert record in t.data;
      var cl := ClassifyRow(cat, name, t, c, record);
      if cl.Err? {
        FatesStepError(cat, name, t, c, t.data, k, fs);
        return Err(cl.error);
      }
      var f := cl.value;
      RowsDoneStep(cat, name, t, c, t.data, k, fs, newData, count, invRefs, f);
      if f == Block {
        invRefs := invRefs + 1;
      } else if f == Remove {
        count := count + 1;
      }
      if f != Remove {
        newData := newData + [record];
      }
      fs := fs + [f];
      k := k + 1;
    }
    assert t.data[..k] == t.data;
    r := Ok((newData, count, invRefs));
  }

  // ---------------------------------------------------------------------
  // The session
  // ---------------------------------------------------------------------

  /** The parser object: the database and the state of the CREATE being
      parsed, with one method per statement. */
  class Session {
    /** The key-value store: table name to stored table document. */
    var store: Catalog
    /** `new_table`: the table the current CREATE builds. */
    var newTable: Table
    /** `add_invs`: the inverse references the current CREATE queues. */
    var addInvs: seq<PendingRef>

    /** Every stored table is well formed and the draft is valid, with no rows
        and no inverse references. */
    ghost predicate Valid()
      reads this
    {
      CatalogWF(store) && TableValid(newTable)
    }

    /** Every queued registration names a stored table. */
    ghost predicate PendingKnown()
      reads this
    {
      forall p :: p in addInvs ==> p.refTable in store
    }

    constructor(store0: Catalog)
      requires CatalogWF(store0)
      ensures Valid() && PendingKnown()
      ensures store == store0 && newTable == EmptyTable && addInvs == []
    {
      store := store0;
      newTable := EmptyTable;
      addInvs := [];
    }

    /** `clean`: the session state is reset before every statement. */
    method Clean()
      requires CatalogWF(store)
      modifies this
      ensures Valid() && PendingKnown()
      ensures store == old(store) && newTable == EmptyTable && addInvs == []
    {
      newTable := EmptyTable;
      addInvs := [];
    }

    /** `table_element`: one element of a CREATE applied to the draft. */
    method TableElement(e: Element) returns (err: Option<Error>)
      requires Valid()
      modifies this
      ensures store == old(store)
      ensures var r := ElementStep(old(store), Draft(old(newTable), old(addInvs)), e);
        && (err.None? <==> r.Ok?)
        && (r.Err? ==> err == Some(r.error))
        && (r.Ok? ==> newTable == r.value.table && addInvs == r.value.pending && Valid())
        && (r.Ok? && old(PendingKnown()) ==> PendingKnown())
    {
      ghost var d := Draft(newTable, addInvs);
      match e {
        case ColumnDef(n, ty, len, nn) =>
          err := AddColumnDef(n, ty, len, nn);
        case PrimaryKey(ks) =>
          err := AddPrimary(ks);
        case ForeignKey(ls, rt, rs) =>
          err := AddForeign(ls, rt, rs);
      }
      ElementStepValid(store, d, e);
      ElementStepQueues(store, d, e);
    }

    /** The `column_definition` branch of `table_element`. */
    method AddColumnDef(n: string, ty: ColType, len: int, nn: bool) returns (err: Option<Error>)
      modifies this
      ensures store == old(store) && addInvs == old(addInvs)
      ensures var r := AddColumn(old(newTable), n, ty, len, nn);
        && (err.None? <==> r.Ok?)
        && (r.Err? ==> err == Some(r.error))
        && (r.Ok? ==> newTable == r.value)
    {
      if n in newTable.cols {
        return Some(DuplicateColumnDefError);
      }
      var size := 0;
      if ty == CharType {
        size := len;
        if size < 1 {
          return Some(CharLengthError);
        }
      }
      newTable := newTable.(names := newTable.names + [n], cols := newTable.cols[n := Column(ty, size, nn, false, false)]);
      err := None;
    }

    /** The `primary_key_constraint` branch of `table_element`. */
    method AddPrimary(ks: seq<string>) returns (err: Option<Error>)
      modifies this
      ensures store == old(store) && addInvs == old(addInvs)
      ensures var r := AddPrimaryKey(old(newTable), ks);
        && (err.None? <==> r.Ok?)
        && (r.Err? ==> err == Some(r.error))
        && (r.Ok? ==> newTable == r.value)
    {
      if |newTable.pks| != 0 {
        return Some(DuplicatePrimaryKeyDefError);
      }
      var r := MarkKeys(newTable, ks);
      if r.Err? {
        return Some(r.error);
      }
      newTable := r.value;
      err := None;
    }

    /** The `referential_constraint` branch of `table_element`. */
    method AddForeign(ls: seq<string>, rtName: string, rs: seq<string>) returns (err: Option<Error>)
      modifies this
      ensures store == old(store)
      ensures var r := AddForeignKey(old(store), old(newTable), ls, rtName, rs);
        && (err.None? <==> r.Ok?)
        && (r.Err? ==> err == Some(r.error))
        && (r.Ok? ==> newTable == r.value.0 && addInvs == old(addInvs) + [r.value.1])
    {
      var t0 := newTable;
      var i := 0;
      while i < |ls|
        invariant 0 <= i <= |ls|
        invariant forall l :: l in ls[..i] ==> l in t0.cols
      {
        if ls[i] !in t0.cols {
          return Some(NonExistingColumnDefError);
        }
        assert forall x :: x in ls[..i + 1] <==> x in ls[..i] || x == ls[i];
        i := i + 1;
      }
      assert ls[..i] == ls;
      if |ls| != |rs| {
        return Some(ReferenceTypeError);
      }
      if rtName !in store {
        return Some(ReferenceTableExistenceError);
      }
      var rt := store[rtName];
      var marked, covered := MarkPairs(t0, rt, rtName, ls, rs);
      if marked.Err? {
        return Some(marked.error);
      }
      if exists k :: k in rt.pks && k !in covered {
        return Some(ReferenceNonPrimaryKeyError);
      }
      newTable := marked.value;
      addInvs := addInvs + [PendingRef(rtName, rs, ls)];
      err := None;
    }

    /** `create_table_query`: refused if the name is taken; otherwise the
        draft is stored and every queued pair is recorded as a referencer on
        its referenced table. */
    method CreateTableQuery(name: string) returns (err: Option<Error>)
      requires Valid() && PendingKnown()
      modifies this
      ensures Valid() && newTable == old(newTable) && addInvs == old(addInvs)
      ensures var r := CreateTable(old(store), name, Draft(old(newTable), old(addInvs)));
        && (err.None? <==> r.Ok?)
        && (r.Err? ==> err == Some(r.error) && store == old(store))
        && (r.Ok? ==> store == r.value)
    {
      if name in store {
        return Some(TableExistenceError);
      }
      RegisterKeepsWellFormed(store[name := newTable], name, addInvs);
      store := RegisterPending(store[name := newTable], name, addInvs);
      err := None;
    }

    /** `drop_table_query`: an absent table or one with inverse references
        is refused; otherwise the table is deleted from the store. */
    method DropTableQuery(name: string) returns (err: Option<Error>)
      requires Valid()
      modifies this
      ensures Valid() && newTable == old(newTable) && addInvs == old(addInvs)
      ensures var r := DropTable(old(store), name);
        && (err.None? <==> r.Ok?)
        && (r.Err? ==> err == Some(r.error) && store == old(store))
        && (r.Ok? ==> store == r.value)
    {
      if name !in store {
        return Some(NoSuchTable);
      }
      if |store[name].invrefs| != 0 {
        return Some(DropReferencedTableError);
      }
      store := store - {name};
      err := None;
    }

    /** `insert_query`: the table must exist; an explicit column list must
        name existing columns and match the values in number; the values
        are checked column by column and the row is appended. */
    method InsertQuery(name: string, cols: Option<seq<string>>, vals: seq<Literal>) returns (err: Option<Error>)
      requires Valid()
      modifies this
      ensures Valid() && newTable == old(newTable) && addInvs == old(addInvs)
      ensures var r := InsertStatement(old(store), name, cols, vals);
        && (err.None? <==> r.Ok?)
        && (r.Err? ==> err == Some(r.error) && store == old(store))
        && (r.Ok? ==> store == r.value)
    {
      var r := RunInsert(store, name, cols, vals);
      if r.Err? {
        return Some(r.error);
      }
      InsertKeepsWellFormed(store, name, cols, vals);
      store := r.value;
      err := None;
    }

    /** `delete_query`: no table is `NoSuchTable`; without a predicate every
        row goes; otherwise each matching row goes unless still referenced.
        `blocked` > 0 is where the source raises
        `DeleteReferentialIntegrityPassed` after storing the table. */
    method DeleteQuery(name: string, c: Option<Cond>) returns (err: Option<Error>, deleted: nat, blocked: nat)
      requires Valid()
      modifies this
      ensures Valid() && newTable == old(newTable) && addInvs == old(addInvs)
      ensures var r := DeleteStatement(old(store), name, c);
        && (err.None? <==> r.Ok?)
        && (r.Err? ==> err == Some(r.error) && store == old(store))
        && (r.Ok? ==> store == r.value.cat && deleted == r.value.deleted && blocked == r.value.blocked)
    {
      if name !in store {
        return Some(NoSuchTable), 0, 0;
      }
      var t := store[name];
      match c {
        case None =>
          deleted := |t.data|;
          store := store[name := t.(data := [])];
          return None, deleted, 0;
        case Some(cond) =>
          var r := DeleteRows(store, name, t, cond);
          if r.Err? {
            return Some(r.error), 0, 0;
          }
          var (newData, count, invRefs) := r.value;
          PredicatedDeleteWellFormed(store, name, cond);
          store := store[name := t.(data := newData)];
          return None, count, invRefs;
      }
    }

    /** `select_query` up to the rendering. */
    method SelectQuery(from: seq<string>, items: seq<SelItem>, where: Option<Cond>) returns (r: Result<Answer>)
      requires Valid()
      ensures r == SelectStatement(store, from, items, where)
    {
      r := RunSelect(store, from, items, where);
    }
  }
}
