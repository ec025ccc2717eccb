/**
 * SELECT as a function on catalog values: the column dictionary of the
 * FROM tables, the cartesian product `add_recs` builds, the WHERE filter,
 * and the resolution of the projection list with its aliases.
 */
module Select {
  import opened Types
  import opened ThreeValued
  import opened Where

  // ---------------------------------------------------------------------
  // The cartesian product (add_recs)
  // ---------------------------------------------------------------------

  /** `prefix` concatenated in front of each row, in order. */
  function Extend(prefix: Row, rs: seq<Row>): (out: seq<Row>)
    ensures |out| == |rs|
    ensures forall j :: 0 <= j < |rs| ==> out[j] == prefix + rs[j]
  {
    if rs == [] then [] else [prefix + rs[0]] + Extend(prefix, rs[1..])
  }

  /** One level of `add_recs`: each row of the first table, in order, in
      front of every row of the product of the remaining tables. */
  function ProductOver(first: seq<Row>, rest: seq<Row>): seq<Row>
  {
    if first == [] then [] else Extend(first[0], rest) + ProductOver(first[1..], rest)
  }

  /** The rows `add_recs` collects from the empty prefix. */
  function Product(ds: seq<seq<Row>>): seq<Row>
  {
    if ds == [] then [[]] else ProductOver(ds[0], Product(ds[1..]))
  }

  /** Extending a concatenation extends each part. */
  lemma {:induction false} ExtendAppend(prefix: Row, a: seq<Row>, b: seq<Row>)
    ensures Extend(prefix, a + b) == Extend(prefix, a) + Extend(prefix, b)
  {
    if a == [] {
      assert a + b == b;
    } else {
      assert (a + b)[1..] == a[1..] + b;
      ExtendAppend(prefix, a[1..], b);
    }
  }

  /** Extending twice extends by the concatenated prefix. */
  lemma {:induction false} ExtendExtend(p: Row, q: Row, rs: seq<Row>)
    ensures Extend(p, Extend(q, rs)) == Extend(p + q, rs)
  {
    if rs != [] {
      ExtendExtend(p, q, rs[1..]);
      assert Extend(q, rs)[1..] == Extend(q, rs[1..]);
      assert p + (q + rs[0]) == (p + q) + rs[0];
    }
  }

  /** The empty prefix changes nothing. */
  lemma {:induction false} ExtendEmpty(rs: seq<Row>)
    ensures Extend([], rs) == rs
  {
    if rs != [] {
      ExtendEmpty(rs[1..]);
      assert [] + rs[0] == rs[0];
    }
  }

  /** `add_recs` as written, depth first: `curr` followed by each
      combination of one row from each table of `ds`, the first table's rows
      varying slowest. */
  function Recs(ds: seq<seq<Row>>, curr: Row): seq<Row>
    decreases |ds|, 0
  {
    if ds == [] then [curr] else RecsOver(ds[0], ds[1..], curr)
  }

  /** The row loop of `add_recs` over the rows `first` of the current table. */
  function RecsOver(first: seq<Row>, rest: seq<seq<Row>>, curr: Row): seq<Row>
    decreases |rest|, |first|
  {
    if first == [] then [] else Recs(rest, curr + first[0]) + RecsOver(first[1..], rest, curr)
  }

  /** The depth-first recursion of `add_recs` yields the product rows behind
      its prefix. */
  lemma {:induction false} RecsIsProduct(ds: seq<seq<Row>>, curr: Row)
    ensures Recs(ds, curr) == Extend(curr, Product(ds))
    decreases |ds| + 1, 0
  {
    if ds == [] {
      var one: seq<Row> := [[]];
      assert one[1..] == [] && curr + one[0] == curr;
      assert Extend(curr, one) == [curr + one[0]] + Extend(curr, one[1..]);
    } else {
      RecsOverIsProduct(ds[0], ds[1..], curr);
    }
  }

  lemma {:induction false} RecsOverIsProduct(first: seq<Row>, rest: seq<seq<Row>>, curr: Row)
    ensures RecsOver(first, rest, curr) == Extend(curr, ProductOver(first, Product(rest)))
    decreases |rest| + 1, |first|
  {
    if first != [] {
      var p := Product(rest);
      RecsIsProduct(rest, curr + first[0]);
      ExtendExtend(curr, first[0], p);
      RecsOverIsProduct(first[1..], rest, curr);
      ExtendAppend(curr, Extend(first[0], p), ProductOver(first[1..], p));
    }
  }

  function ProdSizes(ds: seq<seq<Row>>): nat
  {
    if ds == [] then 1 else |ds[0]| * ProdSizes(ds[1..])
  }

  lemma {:induction false} ProductOverSize(first: seq<Row>, rest: seq<Row>)
    ensures |ProductOver(first, rest)| == |first| * |rest|
  {
    if first != [] {
      ProductOverSize(first[1..], rest);
      assert |first| * |rest| == |rest| + (|first| - 1) * |rest|;
    }
  }

  /** `add_recs` yields exactly the product of the tables' row counts. */
  lemma {:induction false} ProductSize(ds: seq<seq<Row>>)
    ensures |Product(ds)| == ProdSizes(ds)
  {
    if ds != [] {
      ProductSize(ds[1..]);
      ProductOverSize(ds[0], Product(ds[1..]));
    }
  }

  /** A choice of one row index per table. */
  predicate ValidChoice(ds: seq<seq<Row>>, ch: seq<nat>)
  {
    |ch| == |ds| && forall i :: 0 <= i < |ds| ==> ch[i] < |ds[i]|
  }

  /** The left-to-right concatenation of the chosen rows. */
  function Pick(ds: seq<seq<Row>>, ch: seq<nat>): Row
    requires ValidChoice(ds, ch)
  {
    if ds == [] then [] else ds[0][ch[0]] + Pick(ds[1..], ch[1..])
  }

  lemma {:induction false} ProductOverComplete(first: seq<Row>, rest: seq<Row>, i: nat, r: Row)
    requires i < |first| && r in rest
    ensures first[i] + r in ProductOver(first, rest)
  {
    if i == 0 {
      var j :| 0 <= j < |rest| && rest[j] == r;
      assert Extend(first[0], rest)[j] == first[0] + r;
    } else {
      ProductOverComplete(first[1..], rest, i - 1, r);
    }
  }

  lemma {:induction false} ProductOverSound(first: seq<Row>, rest: seq<Row>, x: Row)
    requires x in ProductOver(first, rest)
    ensures exists i, r :: 0 <= i < |first| && r in rest && x == first[i] + r
  {
    if x in Extend(first[0], rest) {
      var j :| 0 <= j < |rest| && Extend(first[0], rest)[j] == x;
      assert rest[j] in rest && x == first[0] + rest[j];
    } else {
      ProductOverSound(first[1..], rest, x);
      var i, r :| 0 <= i < |first[1..]| && r in rest && x == first[1..][i] + r;
      assert x == first[i + 1] + r;
    }
  }

  /** Every choice of one row per table, concatenated in FROM order, is a
      row of the product. */
  lemma {:induction false} ProductComplete(ds: seq<seq<Row>>, ch: seq<nat>)
    requires ValidChoice(ds, ch)
    ensures Pick(ds, ch) in Product(ds)
  {
    if ds != [] {
      assert ValidChoice(ds[1..], ch[1..]) by {
        forall i | 0 <= i < |ds| - 1 ensures ch[1..][i] < |ds[1..][i]| {
          assert ch[1..][i] == ch[i + 1] && ds[1..][i] == ds[i + 1];
        }
      }
      ProductComplete(ds[1..], ch[1..]);
      ProductOverComplete(ds[0], Product(ds[1..]), ch[0], Pick(ds[1..], ch[1..]));
    }
  }

  /** Every row of the product is the concatenation of one row per table,
      in FROM order. */
  lemma {:induction false} ProductSound(ds: seq<seq<Row>>, x: Row)
    requires x in Product(ds)
    ensures exists ch :: ValidChoice(ds, ch) && x == Pick(ds, ch)
  {
    if ds == [] {
      assert ValidChoice(ds, []) && x == Pick(ds, []);
    } else {
      ProductOverSound(ds[0], Product(ds[1..]), x);
      var i, r :| 0 <= i < |ds[0]| && r in Product(ds[1..]) && x == ds[0][i] + r;
      ProductSound(ds[1..], r);
      var ch :| ValidChoice(ds[1..], ch) && r == Pick(ds[1..], ch);
      var ch' := [i] + ch;
      assert ch'[1..] == ch;
      assert ValidChoice(ds, ch') by {
        forall k | 0 <= k < |ds| ensures ch'[k] < |ds[k]| {
          if k > 0 { assert ch'[k] == ch[k - 1] && ds[k] == ds[1..][k - 1]; }
        }
      }
      assert x == Pick(ds, ch');
    }
  }

  function Sum(ws: seq<nat>): nat
  {
    if ws == [] then 0 else ws[0] + Sum(ws[1..])
  }

  /** When every row of table `i` has width `ws[i]`, a chosen combination has
      the total width. */
  lemma {:induction false} PickWidth(ds: seq<seq<Row>>, ws: seq<nat>, ch: seq<nat>)
    requires ValidChoice(ds, ch) && |ws| == |ds|
    requires forall i, r :: 0 <= i < |ds| && r in ds[i] ==> |r| == ws[i]
    ensures |Pick(ds, ch)| == Sum(ws)
  {
    if ds != [] {
      assert ds[0][ch[0]] in ds[0];
      assert ValidChoice(ds[1..], ch[1..]) by {
        forall i | 0 <= i < |ds| - 1 ensures ch[1..][i] < |ds[1..][i]| {
          assert ch[1..][i] == ch[i + 1] && ds[1..][i] == ds[i + 1];
        }
      }
      forall i, r | 0 <= i < |ds| - 1 && r in ds[1..][i] ensures |r| == ws[1..][i] {
        assert ds[1..][i] == ds[i + 1];
      }
      PickWidth(ds[1..], ws[1..], ch[1..]);
    }
  }

  /** Every product row is as wide as the tables' widths together. */
  lemma ProductWidth(ds: seq<seq<Row>>, ws: seq<nat>, x: Row)
    requires |ws| == |ds| && x in Product(ds)
    requires forall i, r :: 0 <= i < |ds| && r in ds[i] ==> |r| == ws[i]
    ensures |x| == Sum(ws)
  {
    ProductSound(ds, x);
    var ch :| ValidChoice(ds, ch) && x == Pick(ds, ch);
    PickWidth(ds, ws, ch);
  }

  // ---------------------------------------------------------------------
  // The FROM list
  // ---------------------------------------------------------------------

  predicate HasKey(es: seq<Entry>, k: Ref)
  {
    exists j :: 0 <= j < |es| && es[j].ref == k
  }

  /** Python dictionary insertion: a key already present keeps its place. */
  function AddEntries(es: seq<Entry>, more: seq<Entry>): (out: seq<Entry>)
    ensures |out| <= |es| + |more|
    ensures es <= out
  {
    if more == [] then es
    else
      var n := |more| - 1;
      var prev := AddEntries(es, more[..n]);
      if FindKey(prev, more[n].ref).Some? then prev else prev + [more[n]]
  }

  lemma {:induction false} AddEntriesKeys(es: seq<Entry>, more: seq<Entry>, k: Ref)
    ensures HasKey(AddEntries(es, more), k) <==> HasKey(es, k) || HasKey(more, k)
  {
    if more != [] {
      var n := |more| - 1;
      AddEntriesKeys(es, more[..n], k);
      HasKeySnoc(more, k);
      AddEntryKeys(AddEntries(es, more[..n]), more[n], k);
    }
  }

  /** A key is in a list iff it is in the front or is the last key. */
  lemma HasKeySnoc(more: seq<Entry>, k: Ref)
    requires more != []
    ensures HasKey(more, k) <==> HasKey(more[..|more| - 1], k) || more[|more| - 1].ref == k
  {
    var n := |more| - 1;
    if HasKey(more, k) && more[n].ref != k {
      var j :| 0 <= j < |more| && more[j].ref == k;
      assert more[..n][j].ref == k;
    }
    if HasKey(more[..n], k) {
      var j :| 0 <= j < n && more[..n][j].ref == k;
      assert more[j].ref == k;
    }
  }

  /** One dictionary insertion adds exactly the inserted key. */
  lemma AddEntryKeys(prev: seq<Entry>, e: Entry, k: Ref)
    ensures var out := if FindKey(prev, e.ref).Some? then prev else prev + [e];
      HasKey(out, k) <==> HasKey(prev, k) || e.ref == k
  {
    if FindKey(prev, e.ref).None? {
      var out := prev + [e];
      if HasKey(out, k) {
        var j :| 0 <= j < |out| && out[j].ref == k;
        if j < |prev| { assert prev[j].ref == k; }
      }
      if HasKey(prev, k) {
        var j :| 0 <= j < |prev| && prev[j].ref == k;
        assert out[j].ref == k;
      }
      assert out[|prev|].ref == e.ref;
    } else {
      var j := FindKey(prev, e.ref).value;
      assert prev[j].ref == e.ref;
    }
  }

  /** Every FROM table exists and is well formed. */
  predicate FromValid(cat: Catalog, from: seq<string>)
  {
    forall i :: 0 <= i < |from| ==> from[i] in cat && WellFormed(cat[from[i]])
  }

  /** `sel_tbl_cols`: the column dictionary of the FROM tables in FROM order. */
  function Dictionary(cat: Catalog, from: seq<string>): seq<Entry>
    requires FromValid(cat, from)
  {
    if from == [] then []
    else
      var n := |from| - 1;
      AddEntries(Dictionary(cat, from[..n]), TableEntries(from[n], cat[from[n]]))
  }

  /** Every FROM table exists. */
  predicate Listed(cat: Catalog, from: seq<string>)
  {
    forall i :: 0 <= i < |from| ==> from[i] in cat
  }

  /** The widths of the FROM tables. */
  function Widths(cat: Catalog, from: seq<string>): (ws: seq<nat>)
    requires Listed(cat, from)
    ensures |ws| == |from|
  {
    if from == [] then []
    else
      var n := |from| - 1;
      assert Listed(cat, from[..n]) by {
        forall i | 0 <= i < n ensures from[..n][i] in cat { assert from[..n][i] == from[i]; }
      }
      Widths(cat, from[..n]) + [|cat[from[n]].names|]
  }

  lemma {:induction false} WidthsAt(cat: Catalog, from: seq<string>, i: nat)
    requires Listed(cat, from) && i < |from|
    ensures Widths(cat, from)[i] == |cat[from[i]].names|
  {
    var n := |from| - 1;
    assert Listed(cat, from[..n]) by {
      forall j | 0 <= j < n ensures from[..n][j] in cat { assert from[..n][j] == from[j]; }
    }
    if i < n {
      WidthsAt(cat, from[..n], i);
      assert from[..n][i] == from[i];
    }
  }

  lemma {:induction false} SumSnoc(ws: seq<nat>, w: nat)
    ensures Sum(ws + [w]) == Sum(ws) + w
  {
    if ws != [] {
      assert (ws + [w])[1..] == ws[1..] + [w];
      SumSnoc(ws[1..], w);
    }
  }

  lemma FromValidPrefix(cat: Catalog, from: seq<string>, n: nat)
    requires FromValid(cat, from) && n <= |from|
    ensures FromValid(cat, from[..n])
  {
    forall i | 0 <= i < n ensures from[..n][i] in cat && WellFormed(cat[from[..n][i]]) {
      assert from[..n][i] == from[i];
    }
  }

  /** One more valid FROM table keeps the FROM list valid. */
  lemma FromValidSnoc(cat: Catalog, pre: seq<string>, x: string)
    requires FromValid(cat, pre) && x in cat && WellFormed(cat[x])
    ensures FromValid(cat, pre + [x])
  {
    var s := pre + [x];
    forall j | 0 <= j < |s| ensures s[j] in cat && WellFormed(cat[s[j]]) {
      if j < |pre| { assert s[j] == pre[j]; }
    }
  }

  /** The dictionary of `pre + [x]` is that of `pre` with the keys of `x` added. */
  lemma DictionarySnoc(cat: Catalog, pre: seq<string>, x: string)
    requires FromValid(cat, pre + [x])
    ensures FromValid(cat, pre) && x in cat && WellFormed(cat[x])
    ensures Dictionary(cat, pre + [x]) == AddEntries(Dictionary(cat, pre), TableEntries(x, cat[x]))
  {
    var s := pre + [x];
    assert s[..|pre|] == pre;
    assert s[|pre|] == x;
    FromValidPrefix(cat, s, |pre|);
  }

  lemma InPrefixOrLast<T>(s: seq<T>, x: T)
    requires s != []
    ensures x in s <==> x in s[..|s| - 1] || x == s[|s| - 1]
  {
    assert s == s[..|s| - 1] + [s[|s| - 1]];
  }

  /** One table's entries have the key (t, c) exactly when t names that
      table and c is one of its columns. */
  lemma TableEntriesKeys(name: string, t: Table, k: Ref)
    requires WellFormed(t)
    ensures HasKey(TableEntries(name, t), k) <==> k.table == name && k.column in t.cols
  {
    var te := TableEntries(name, t);
    if HasKey(te, k) {
      var j :| 0 <= j < |te| && te[j].ref == k;
      assert t.names[j] in t.cols;
    }
    if k.table == name && k.column in t.cols {
      var j :| 0 <= j < |t.names| && t.names[j] == k.column;
      assert te[j].ref == k;
    }
  }

  /** The dictionary has a key (t, c) exactly when t is a FROM table and c
      one of its columns. */
  lemma {:induction false} DictionaryKeys(cat: Catalog, from: seq<string>, k: Ref)
    requires FromValid(cat, from)
    ensures HasKey(Dictionary(cat, from), k) <==> k.table in from && k.column in cat[k.table].cols
  {
    if from != [] {
      var n := |from| - 1;
      FromValidPrefix(cat, from, n);
      DictionaryKeys(cat, from[..n], k);
      TableEntriesKeys(from[n], cat[from[n]], k);
      AddEntriesKeys(Dictionary(cat, from[..n]), TableEntries(from[n], cat[from[n]]), k);
      InPrefixOrLast(from, k.table);
    }
  }

  /** The dictionary is never longer than the FROM tables' widths together. */
  lemma {:induction false} DictionarySize(cat: Catalog, from: seq<string>)
    requires FromValid(cat, from)
    ensures Listed(cat, from) && |Dictionary(cat, from)| <= Sum(Widths(cat, from))
  {
    if from != [] {
      var n := |from| - 1;
      FromValidPrefix(cat, from, n);
      DictionarySize(cat, from[..n]);
      var t := cat[from[n]];
      var ws' := Widths(cat, from[..n]);
      SumSnoc(ws', |t.names|);
      assert |Dictionary(cat, from)| <= |Dictionary(cat, from[..n])| + |t.names|;
    }
  }

  /** The rows of the FROM tables, in FROM order. */
  function Datas(cat: Catalog, from: seq<string>): (ds: seq<seq<Row>>)
    requires FromValid(cat, from)
    ensures |ds| == |from|
    ensures forall i :: 0 <= i < |from| ==> ds[i] == cat[from[i]].data
  {
    seq(|from|, i requires 0 <= i < |from| => cat[from[i]].data)
  }

  /** The row lists of `pre + [x]` are those of `pre` followed by the rows of `x`. */
  lemma DatasSnoc(cat: Catalog, pre: seq<string>, x: string)
    requires FromValid(cat, pre + [x]) && FromValid(cat, pre) && x in cat
    ensures Datas(cat, pre + [x]) == Datas(cat, pre) + [cat[x].data]
  {
    var s := pre + [x];
    assert s[|pre|] == x;
    forall j | 0 <= j < |pre| ensures s[j] == pre[j] {}
  }

  /** The scope the WHERE clause of a SELECT is evaluated in. */
  function FromScope(cat: Catalog, from: seq<string>): Scope
    requires FromValid(cat, from)
  {
    Scope(from, Dictionary(cat, from))
  }

  /** Every product row is at least as wide as the dictionary, so WHERE
      lookups and projection indices stay within the row. */
  lemma ProductCoversDictionary(cat: Catalog, from: seq<string>, x: Row)
    requires FromValid(cat, from) && x in Product(Datas(cat, from))
    ensures |FromScope(cat, from).entries| <= |x|
  {
    var ds, ws := Datas(cat, from), Widths(cat, from);
    forall i, r | 0 <= i < |ds| && r in ds[i] ensures |r| == ws[i] {
      WidthsAt(cat, from, i);
    }
    ProductWidth(ds, ws, x);
    DictionarySize(cat, from);
  }

  // ---------------------------------------------------------------------
  // WHERE and the projection
  // ---------------------------------------------------------------------

  /** The WHERE loop: the rows whose predicate is True, in order; the first
      failing evaluation aborts. */
  function Filter(scope: Scope, c: Cond, rows: seq<Row>): (r: Result<seq<Row>>)
    requires forall i :: 0 <= i < |rows| ==> |scope.entries| <= |rows[i]|
    ensures r.Ok? ==> forall x :: x in r.value ==> x in rows && Eval(x, scope, c) == Ok(True)
  {
    if rows == [] then Ok([])
    else
      var n := |rows| - 1;
      assert forall i :: 0 <= i < n ==> rows[..n][i] == rows[i];
      match Filter(scope, c, rows[..n])
      case Err(e) => Err(e)
      case Ok(kept) =>
        match Eval(rows[n], scope, c)
        case Err(e) => Err(e)
        case Ok(v) => Ok(if v == True then kept + [rows[n]] else kept)
  }

  /** Every row whose predicate is True survives the filter. */
  lemma {:induction false} FilterComplete(scope: Scope, c: Cond, rows: seq<Row>, i: nat)
    requires forall i :: 0 <= i < |rows| ==> |scope.entries| <= |rows[i]|
    requires Filter(scope, c, rows).Ok? && i < |rows| && Eval(rows[i], scope, c) == Ok(True)
    ensures rows[i] in Filter(scope, c, rows).value
  {
    var n := |rows| - 1;
    assert forall i :: 0 <= i < n ==> rows[..n][i] == rows[i];
    if i < n {
      FilterComplete(scope, c, rows[..n], i);
    }
  }

  /** A projection item: `[table.]column [as alias]`. */
  datatype SelItem = SelItem(table: Option<string>, column: string, alias: Option<string>)

  /** A projection item's position in the dictionary: the WHERE resolution
      rule, with every failure reported as `SelectColumnResolveError`. */
  function ResolveItem(scope: Scope, it: SelItem): (r: Result<nat>)
    ensures r.Ok? ==> r.value < |scope.entries|
    ensures r.Err? ==> r.error == SelectColumnResolveError
  {
    match Resolve(scope, ColRef(it.table, it.column))
    case Err(_) => Err(SelectColumnResolveError)
    case Ok(i) => Ok(i)
  }

  /** `sel_order`: the positions of the items, the first unresolvable item
      deciding the error. */
  function ResolveItems(scope: Scope, items: seq<SelItem>): (r: Result<seq<nat>>)
    ensures r.Ok? ==> |r.value| == |items| && forall j :: 0 <= j < |items| ==> r.value[j] < |scope.entries|
  {
    if items == [] then Ok([])
    else
      var n := |items| - 1;
      match ResolveItems(scope, items[..n])
      case Err(e) => Err(e)
      case Ok(idx) =>
        match ResolveItem(scope, items[n])
        case Err(e) => Err(e)
        case Ok(i) => Ok(idx + [i])
  }

  /** A qualified item resolves iff it names a FROM table and a column of it;
      a bare item resolves iff exactly one key carries its column name, and
      then to that key's position. */
  lemma ResolveItemSpec(cat: Catalog, from: seq<string>, it: SelItem)
    requires FromValid(cat, from)
    ensures var scope := FromScope(cat, from);
      && (it.table.Some? ==>
            (ResolveItem(scope, it).Ok? <==> it.table.value in from && it.column in cat[it.table.value].cols))
      && (it.table.Some? && ResolveItem(scope, it).Ok? ==>
            scope.entries[ResolveItem(scope, it).value].ref == Ref(it.table.value, it.column))
      && (it.table.None? ==>
            (ResolveItem(scope, it).Ok? <==> CountColumn(scope.entries, it.column) == 1))
      && (it.table.None? && ResolveItem(scope, it).Ok? ==>
            var i := ResolveItem(scope, it).value;
            && scope.entries[i].ref.column == it.column
            && forall j :: 0 <= j < |scope.entries| && j != i ==> scope.entries[j].ref.column != it.column)
  {
    var scope := FromScope(cat, from);
    match it.table
    case Some(t) =>
      ResolveQualified(scope, t, it.column);
      DictionaryKeys(cat, from, Ref(t, it.column));
      if t in from && it.column in cat[t].cols {
        var j :| 0 <= j < |scope.entries| && scope.entries[j].ref == Ref(t, it.column);
      }
    case None =>
      ResolveUnqualified(scope, it.column);
      CountColumnZero(scope.entries, it.column);
      match FindColumn(scope.entries, it.column)
      case None =>
      case Some(k) => CountColumnOne(scope.entries, it.column, k);
  }

  lemma {:induction false} ResolveItemsSpec(scope: Scope, items: seq<SelItem>)
    ensures ResolveItems(scope, items).Ok? <==> forall j :: 0 <= j < |items| ==> ResolveItem(scope, items[j]).Ok?
    ensures ResolveItems(scope, items).Ok? ==>
      forall j :: 0 <= j < |items| ==> ResolveItems(scope, items).value[j] == ResolveItem(scope, items[j]).value
  {
    if items != [] {
      var n := |items| - 1;
      ResolveItemsSpec(scope, items[..n]);
      forall j | 0 <= j < n ensures items[..n][j] == items[j] {}
      var prev, last := ResolveItems(scope, items[..n]), ResolveItem(scope, items[n]);
      if prev.Ok? && last.Ok? {
        assert ResolveItems(scope, items) == Ok(prev.value + [last.value]);
      }
    }
  }

  lemma {:induction false} ResolveItemsError(scope: Scope, items: seq<SelItem>)
    ensures ResolveItems(scope, items).Err? ==> ResolveItems(scope, items).error == SelectColumnResolveError
  {
    if items != [] {
      ResolveItemsError(scope, items[..|items| - 1]);
    }
  }

  /** One output row: the cells at the resolved positions. */
  function ProjectRow(x: Row, idx: seq<nat>): (y: Row)
    requires forall j :: 0 <= j < |idx| ==> idx[j] < |x|
    ensures |y| == |idx| && forall j :: 0 <= j < |idx| ==> y[j] == x[idx[j]]
  {
    seq(|idx|, j requires 0 <= j < |idx| => x[idx[j]])
  }

  /** The output header of one item: its dictionary key, with the alias, if
      any, in place of the column name. */
  function Header(e: Entry, it: SelItem): Ref
  {
    match it.alias
    case None => e.ref
    case Some(a) => Ref(e.ref.table, a)
  }

  /** The result of a SELECT: the column headers and the rows. */
  datatype Answer = Answer(headers: seq<Ref>, rows: seq<Row>)

  // ---------------------------------------------------------------------
  // select_query
  // ---------------------------------------------------------------------

  /** The rows after the WHERE filter (all product rows without a WHERE). */
  function Candidates(cat: Catalog, from: seq<string>, where: Option<Cond>): (r: Result<seq<Row>>)
    requires FromValid(cat, from)
    ensures r.Ok? ==> forall x :: x in r.value ==> x in Product(Datas(cat, from)) && |FromScope(cat, from).entries| <= |x|
  {
    var rows := Product(Datas(cat, from));
    forall x | x in rows ensures |FromScope(cat, from).entries| <= |x| {
      ProductCoversDictionary(cat, from, x);
    }
    match where
    case None => Ok(rows)
    case Some(c) => Filter(FromScope(cat, from), c, rows)
  }

  /** The projection of the candidate rows onto the resolved positions, with
      one header per item. */
  function Projection(scope: Scope, items: seq<SelItem>, idx: seq<nat>, rows: seq<Row>): (a: Answer)
    requires |idx| == |items| && forall j :: 0 <= j < |idx| ==> idx[j] < |scope.entries|
    requires forall x :: x in rows ==> |scope.entries| <= |x|
    ensures |a.rows| == |rows| && |a.headers| == |items|
    ensures forall r :: 0 <= r < |rows| ==> a.rows[r] == ProjectRow(rows[r], idx)
  {
    Answer(seq(|items|, j requires 0 <= j < |items| => Header(scope.entries[idx[j]], items[j])),
           seq(|rows|, r requires 0 <= r < |rows| => ProjectRow(rows[r], idx)))
  }

  /** `list(sel_tbl_cols)`: the dictionary keys in insertion order. */
  function Keys(es: seq<Entry>): (ks: seq<Ref>)
    ensures |ks| == |es| && forall j :: 0 <= j < |es| ==> ks[j] == es[j].ref
  {
    seq(|es|, j requires 0 <= j < |es| => es[j].ref)
  }

  /** `select_query` up to the rendering: every FROM table must exist, then
      the WHERE filter runs, then the projection is resolved. An empty item
      list is `*`: all dictionary keys and the full rows. */
  function SelectStatement(cat: Catalog, from: seq<string>, items: seq<SelItem>, where: Option<Cond>): Result<Answer>
    requires CatalogWF(cat)
  {
    if exists i :: 0 <= i < |from| && from[i] !in cat then Err(SelectTableExistenceError)
    else
      var scope := FromScope(cat, from);
      match Candidates(cat, from, where)
      case Err(e) => Err(e)
      case Ok(rows) =>
        if items == [] then Ok(Answer(Keys(scope.entries), rows))
        else match ResolveItems(scope, items)
          case Err(e) => Err(e)
          case Ok(idx) => Ok(Projection(scope, items, idx, rows))
  }

  // ---------------------------------------------------------------------
  // Properties
  // ---------------------------------------------------------------------

  /** A missing FROM table is refused before anything else. */
  lemma SelectMissingTable(cat: Catalog, from: seq<string>, items: seq<SelItem>, where: Option<Cond>, i: nat)
    requires CatalogWF(cat) && i < |from| && from[i] !in cat
    ensures SelectStatement(cat, from, items, where) == Err(SelectTableExistenceError)
  {
  }

  /** Without WHERE, a SELECT returns one row per combination of rows of the
      FROM tables, each the concatenation of one row per table in FROM order
      (for `*`) or its projection (otherwise). */
  lemma SelectWithoutWhere(cat: Catalog, from: seq<string>, items: seq<SelItem>)
    requires CatalogWF(cat) && SelectStatement(cat, from, items, None).Ok?
    ensures var a := SelectStatement(cat, from, items, None).value;
      && FromValid(cat, from)
      && |a.rows| == ProdSizes(Datas(cat, from))
      && (items == [] ==> a.rows == Product(Datas(cat, from)))
  {
    ProductSize(Datas(cat, from));
  }

  /** Projection keeps the row count, every output row has one cell per item
      holding the cell at that item's resolved position, and each header is
      the item's key under its alias. */
  lemma ProjectionSpec(scope: Scope, items: seq<SelItem>, idx: seq<nat>, rows: seq<Row>)
    requires |idx| == |items| && forall j :: 0 <= j < |idx| ==> idx[j] < |scope.entries|
    requires forall x :: x in rows ==> |scope.entries| <= |x|
    ensures var a := Projection(scope, items, idx, rows);
      && (forall r :: 0 <= r < |rows| ==>
            |a.rows[r]| == |items| && forall j :: 0 <= j < |items| ==> a.rows[r][j] == rows[r][idx[j]])
      && (forall j :: 0 <= j < |items| ==> a.headers[j] == Header(scope.entries[idx[j]], items[j]))
  {
    var a := Projection(scope, items, idx, rows);
    forall r | 0 <= r < |rows| ensures |a.rows[r]| == |items| {
      assert rows[r] in rows;
    }
  }

  /** A SELECT with a projection list projects the candidate rows onto the
      resolved item positions; an unresolvable item refuses the statement. */
  lemma SelectProjects(cat: Catalog, from: seq<string>, items: seq<SelItem>, where: Option<Cond>)
    requires CatalogWF(cat) && items != [] && FromValid(cat, from)
    requires Candidates(cat, from, where).Ok?
    ensures ResolveItems(FromScope(cat, from), items).Err? ==>
      SelectStatement(cat, from, items, where) == Err(SelectColumnResolveError)
    ensures ResolveItems(FromScope(cat, from), items).Ok? ==>
      SelectStatement(cat, from, items, where) ==
        Ok(Projection(FromScope(cat, from), items, ResolveItems(FromScope(cat, from), items).value, Candidates(cat, from, where).value))
  {
    if ResolveItems(FromScope(cat, from), items).Err? {
      ResolveItemsError(FromScope(cat, from), items);
    }
  }

  /** With a WHERE clause, exactly the product rows whose predicate is True
      reach the projection. */
  lemma SelectWhere(cat: Catalog, from: seq<string>, c: Cond, x: Row)
    requires CatalogWF(cat) && FromValid(cat, from)
    requires Candidates(cat, from, Some(c)).Ok? && x in Product(Datas(cat, from))
    ensures |FromScope(cat, from).entries| <= |x|
    ensures x in Candidates(cat, from, Some(c)).value <==> Eval(x, FromScope(cat, from), c) == Ok(True)
  {
    var rows := Product(Datas(cat, from));
    forall y | y in rows ensures |FromScope(cat, from).entries| <= |y| {
      ProductCoversDictionary(cat, from, y);
    }
    ProductCoversDictionary(cat, from, x);
    if Eval(x, FromScope(cat, from), c) == Ok(True) {
      var i :| 0 <= i < |rows| && rows[i] == x;
      FilterComplete(FromScope(cat, from), c, rows, i);
    }
  }
}
