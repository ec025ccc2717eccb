/**
 * INSERT INTO as a function on catalog values: the scatter of an explicit
 * column list into the table's column order, the per-column checks
 * `insert_query` makes in schema order, and the appended row.
 */
module Insert {
  import opened Types

  /** A literal of the VALUES list with its token text (a STR token still
      has its quotes); `NullLit` is the `null` keyword and also the filler
      of a column the explicit list does not mention. */
  datatype Literal = IntLit(text: string) | StrLit(text: string) | DateLit(text: string) | NullLit

  /** The column type a non-null literal's syntactic class maps to. */
  function LitType(lit: Literal): ColType
    requires !lit.NullLit?
  {
    match lit
    case IntLit(_) => IntType
    case StrLit(_) => CharType
    case DateLit(_) => DateType
  }

  // ---------------------------------------------------------------------
  // The explicit column list
  // ---------------------------------------------------------------------

  /** The literal the explicit list gives column `n`: the value paired with
      the last mention of `n`, or `NullLit` when `n` is not mentioned. */
  function Assigned(cols: seq<string>, vals: seq<Literal>, n: string): Literal
    requires |cols| == |vals|
  {
    if cols == [] then NullLit
    else if cols[|cols| - 1] == n then vals[|vals| - 1]
    else Assigned(cols[..|cols| - 1], vals[..|vals| - 1], n)
  }

  /** `values_ordered`: the full-width row of literals in column order. */
  function Scatter(names: seq<string>, cols: seq<string>, vals: seq<Literal>): (row: seq<Literal>)
    requires |cols| == |vals|
    ensures |row| == |names|
  {
    seq(|names|, i requires 0 <= i < |names| => Assigned(cols, vals, names[i]))
  }

  /** An unmentioned column is filled with `NullLit`. */
  lemma {:induction false} AssignedUnmentioned(cols: seq<string>, vals: seq<Literal>, n: string)
    requires |cols| == |vals| && n !in cols
    ensures Assigned(cols, vals, n) == NullLit
  {
    if cols != [] {
      assert forall x :: x in cols[..|cols| - 1] ==> x in cols;
      AssignedUnmentioned(cols[..|cols| - 1], vals[..|vals| - 1], n);
    }
  }

  /** A mentioned column receives the value paired with its last mention. */
  lemma {:induction false} AssignedLastMention(cols: seq<string>, vals: seq<Literal>, j: nat)
    requires |cols| == |vals| && j < |cols|
    requires forall k :: j < k < |cols| ==> cols[k] != cols[j]
    ensures Assigned(cols, vals, cols[j]) == vals[j]
  {
    var m := |cols| - 1;
    if j < m {
      assert cols[..m][j] == cols[j];
      assert vals[..m][j] == vals[j];
      AssignedLastMention(cols[..m], vals[..m], j);
    }
  }

  // ---------------------------------------------------------------------
  // The checks on one column
  // ---------------------------------------------------------------------

  /** The stored value of an accepted literal: Null, the unquoted text
      truncated to the column size for CHAR, the token text otherwise. */
  function StoredValue(c: Column, lit: Literal): Value
  {
    if lit.NullLit? then Null
    else if c.ctype == CharType then Val(Truncate(Unquote(lit.text), c.size))
    else Val(lit.text)
  }

  /** Nullability, then the literal's class against the column type. */
  function CheckLiteral(c: Column, lit: Literal): Result<Value>
  {
    if lit.NullLit? then (if c.notNull then Err(InsertColumnNonNullableError) else Ok(Null))
    else if LitType(lit) != c.ctype then Err(InsertTypeMismatchError)
    else Ok(StoredValue(c, lit))
  }

  /** The referential check of an FK column `n`: the referenced table is
      looked up and its rows are searched for `v` at the referenced column.
      A missing entry, table or column is a Python runtime exception. */
  function ForeignKeyPresent(cat: Catalog, t: Table, n: string, v: Value): Result<bool>
  {
    if n !in t.fors then Err(RuntimeFault)
    else
      var target := t.fors[n];
      if target.table !in cat then Err(RuntimeFault)
      else
        var rt := cat[target.table];
        if target.column !in rt.names then Err(RuntimeFault)
        else Ok(Holds(rt, target.column, v))
  }

  /** All checks on the `i`-th column in schema order: literal, then PK
      uniqueness against the same position of every existing row, then FK
      presence in the referenced table. */
  function CheckColumn(cat: Catalog, t: Table, i: nat, lit: Literal): Result<Value>
    requires WellFormed(t) && i < |t.names|
  {
    var n := t.names[i];
    var c := t.cols[n];
    match CheckLiteral(c, lit)
    case Err(e) => Err(e)
    case Ok(v) =>
      if c.isPK && Occurs(t.data, i, v) then Err(InsertDuplicatePrimaryKeyError)
      else if !c.isFK then Ok(v)
      else match ForeignKeyPresent(cat, t, n, v)
        case Err(e) => Err(e)
        case Ok(present) => if present then Ok(v) else Err(InsertReferentialIntegrityError)
  }

  /** The column loop over the first `k` columns: the first failing column
      decides the error; otherwise the converted values in column order. */
  function Convert(cat: Catalog, t: Table, lits: seq<Literal>, k: nat): (r: Result<Row>)
    requires WellFormed(t) && |lits| == |t.names| && k <= |lits|
    ensures r.Ok? ==> |r.value| == k
  {
    if k == 0 then Ok([])
    else match Convert(cat, t, lits, k - 1)
      case Err(e) => Err(e)
      case Ok(vs) =>
        match CheckColumn(cat, t, k - 1, lits[k - 1])
        case Err(e) => Err(e)
        case Ok(v) => Ok(vs + [v])
  }

  /** The column loop succeeds exactly when every column's check does, and
      then the row holds each column's checked value. */
  lemma {:induction false} ConvertSpec(cat: Catalog, t: Table, lits: seq<Literal>, k: nat)
    requires WellFormed(t) && |lits| == |t.names| && k <= |lits|
    ensures Convert(cat, t, lits, k).Ok? <==> forall i :: 0 <= i < k ==> CheckColumn(cat, t, i, lits[i]).Ok?
    ensures Convert(cat, t, lits, k).Ok? ==>
      forall i :: 0 <= i < k ==> CheckColumn(cat, t, i, lits[i]) == Ok(Convert(cat, t, lits, k).value[i])
  {
    if k > 0 {
      ConvertSpec(cat, t, lits, k - 1);
    }
  }

  /** A failing column loop fails with the error of the first failing column. */
  lemma {:induction false} ConvertFirstError(cat: Catalog, t: Table, lits: seq<Literal>, k: nat)
    requires WellFormed(t) && |lits| == |t.names| && k <= |lits|
    requires Convert(cat, t, lits, k).Err?
    ensures exists i ::
      && 0 <= i < k && CheckColumn(cat, t, i, lits[i]) == Err(Convert(cat, t, lits, k).error)
      && forall j :: 0 <= j < i ==> CheckColumn(cat, t, j, lits[j]).Ok?
  {
    if Convert(cat, t, lits, k - 1).Err? {
      ConvertFirstError(cat, t, lits, k - 1);
    } else {
      ConvertSpec(cat, t, lits, k - 1);
      assert CheckColumn(cat, t, k - 1, lits[k - 1]) == Err(Convert(cat, t, lits, k).error);
    }
  }

  // ---------------------------------------------------------------------
  // insert_query
  // ---------------------------------------------------------------------

  /** The literal row an INSERT checks: the scattered explicit list, or the
      VALUES as given. An unknown explicit column and a length mismatch are
      refused first. */
  function LiteralRow(t: Table, cols: Option<seq<string>>, vals: seq<Literal>): (r: Result<seq<Literal>>)
    ensures r.Ok? ==> |r.value| == |t.names|
  {
    match cols
    case Some(cs) =>
      if exists c :: c in cs && c !in t.cols then Err(InsertColumnExistenceError)
      else if |cs| != |vals| then Err(InsertTypeMismatchError)
      else Ok(Scatter(t.names, cs, vals))
    case None =>
      if |vals| != |t.names| then Err(InsertTypeMismatchError)
      else Ok(vals)
  }

  /** The row an INSERT appends, or its error. */
  function InsertRow(cat: Catalog, name: string, cols: Option<seq<string>>, vals: seq<Literal>): Result<Row>
    requires CatalogWF(cat)
  {
    if name !in cat then Err(NoSuchTable)
    else
      var t := cat[name];
      match LiteralRow(t, cols, vals)
      case Err(e) => Err(e)
      case Ok(lits) => Convert(cat, t, lits, |lits|)
  }

  /** `insert_query`: on success the row is appended to the table. */
  function InsertStatement(cat: Catalog, name: string, cols: Option<seq<string>>, vals: seq<Literal>): Result<Catalog>
    requires CatalogWF(cat)
  {
    match InsertRow(cat, name, cols, vals)
    case Err(e) => Err(e)
    case Ok(row) => Ok(cat[name := cat[name].(data := cat[name].data + [row])])
  }

  // ---------------------------------------------------------------------
  // Properties
  // ---------------------------------------------------------------------

  /** A successful INSERT appends exactly one full-width row to the named
      table and changes nothing else. */
  lemma InsertAppendsOneRow(cat: Catalog, name: string, cols: Option<seq<string>>, vals: seq<Literal>)
    requires CatalogWF(cat)
    requires InsertStatement(cat, name, cols, vals).Ok?
    ensures var cat' := InsertStatement(cat, name, cols, vals).value;
      && name in cat && cat'.Keys == cat.Keys
      && cat'[name].data == cat[name].data + [InsertRow(cat, name, cols, vals).value]
      && |InsertRow(cat, name, cols, vals).value| == |cat[name].names|
      && cat'[name] == cat[name].(data := cat'[name].data)
      && (forall n :: n in cat && n != name ==> cat'[n] == cat[n])
  {
    var t := cat[name];
    var lits := LiteralRow(t, cols, vals).value;
    assert InsertRow(cat, name, cols, vals) == Convert(cat, t, lits, |lits|);
  }

  /** A successful INSERT keeps the catalog well formed. */
  lemma InsertKeepsWellFormed(cat: Catalog, name: string, cols: Option<seq<string>>, vals: seq<Literal>)
    requires CatalogWF(cat)
    requires InsertStatement(cat, name, cols, vals).Ok?
    ensures CatalogWF(InsertStatement(cat, name, cols, vals).value)
  {
    InsertAppendsOneRow(cat, name, cols, vals);
    AppendKeepsWellFormed(cat, name, InsertRow(cat, name, cols, vals).value);
  }

  /** Appending a full-width row to one table keeps the catalog well formed. */
  lemma AppendKeepsWellFormed(cat: Catalog, name: string, row: Row)
    requires CatalogWF(cat) && name in cat && |row| == |cat[name].names|
    ensures CatalogWF(cat[name := cat[name].(data := cat[name].data + [row])])
  {
    var t := cat[name];
    var t' := t.(data := t.data + [row]);
    assert forall r :: r in t'.data ==> r in t.data || r == row;
    assert WellFormed(t');
  }

  /** The statement-level error conditions, in the order they are checked. */
  lemma InsertErrors(cat: Catalog, name: string, cols: Option<seq<string>>, vals: seq<Literal>)
    requires CatalogWF(cat)
    ensures name !in cat ==> InsertRow(cat, name, cols, vals) == Err(NoSuchTable)
    ensures name in cat && cols.Some? && (exists c :: c in cols.value && c !in cat[name].cols) ==>
      InsertRow(cat, name, cols, vals) == Err(InsertColumnExistenceError)
    ensures name in cat && cols.Some? && (forall c :: c in cols.value ==> c in cat[name].cols) && |cols.value| != |vals| ==>
      InsertRow(cat, name, cols, vals) == Err(InsertTypeMismatchError)
    ensures name in cat && cols.None? && |vals| != |cat[name].names| ==>
      InsertRow(cat, name, cols, vals) == Err(InsertTypeMismatchError)
  {
  }

  /** With an explicit list, an unmentioned column is checked as a Null
      literal and a mentioned one as the value of its last mention. */
  lemma ExplicitListScatter(t: Table, cs: seq<string>, vals: seq<Literal>, i: nat)
    requires WellFormed(t) && i < |t.names|
    requires LiteralRow(t, Some(cs), vals).Ok?
    ensures t.names[i] !in cs ==> LiteralRow(t, Some(cs), vals).value[i] == NullLit
    ensures forall j :: 0 <= j < |cs| && cs[j] == t.names[i] && (forall k :: j < k < |cs| ==> cs[k] != cs[j]) ==>
      LiteralRow(t, Some(cs), vals).value[i] == vals[j]
  {
    if t.names[i] !in cs {
      AssignedUnmentioned(cs, vals, t.names[i]);
    }
    forall j | 0 <= j < |cs| && cs[j] == t.names[i] && (forall k :: j < k < |cs| ==> cs[k] != cs[j])
      ensures LiteralRow(t, Some(cs), vals).value[i] == vals[j]
    {
      AssignedLastMention(cs, vals, j);
    }
  }

  /** The literal checks: Null only in a nullable column, a literal class
      matching the column type, and CHAR text unquoted and truncated to the
      column size. */
  lemma CheckLiteralSpec(c: Column, lit: Literal)
    ensures CheckLiteral(c, lit) == Err(InsertColumnNonNullableError) <==> lit.NullLit? && c.notNull
    ensures CheckLiteral(c, lit) == Err(InsertTypeMismatchError) <==> !lit.NullLit? && LitType(lit) != c.ctype
    ensures CheckLiteral(c, lit).Ok? && !lit.NullLit? && c.ctype == CharType ==>
      var s := CheckLiteral(c, lit).value.text;
      && s <= Unquote(lit.text)
      && (c.size >= 0 ==> |s| <= c.size)
      && (|Unquote(lit.text)| <= c.size ==> s == Unquote(lit.text))
    ensures CheckLiteral(c, lit).Ok? && !lit.NullLit? && c.ctype != CharType ==>
      CheckLiteral(c, lit) == Ok(Val(lit.text))
  {
  }

  /** A PK column refuses a value some existing row already holds in the
      same position, whatever the other columns hold. */
  lemma DuplicatePrimaryKeyRejected(cat: Catalog, t: Table, i: nat, lit: Literal, r: Row)
    requires WellFormed(t) && i < |t.names|
    requires t.cols[t.names[i]].isPK && r in t.data
    requires CheckLiteral(t.cols[t.names[i]], lit).Ok? && r[i] == CheckLiteral(t.cols[t.names[i]], lit).value
    ensures CheckColumn(cat, t, i, lit) == Err(InsertDuplicatePrimaryKeyError)
  {
  }

  /** An FK value absent from the referenced column of the referenced table
      is refused; a present one passes the FK check. */
  lemma ForeignKeyChecked(cat: Catalog, t: Table, i: nat, lit: Literal)
    requires WellFormed(t) && i < |t.names|
    requires var c := t.cols[t.names[i]];
      c.isFK && CheckLiteral(c, lit).Ok? && !(c.isPK && Occurs(t.data, i, CheckLiteral(c, lit).value))
    requires ForeignKeyPresent(cat, t, t.names[i], CheckLiteral(t.cols[t.names[i]], lit).value).Ok?
    ensures var v := CheckLiteral(t.cols[t.names[i]], lit).value;
      var target := t.fors[t.names[i]];
      var rt := cat[target.table];
      CheckColumn(cat, t, i, lit) == (if Holds(rt, target.column, v) then Ok(v)
                                      else Err(InsertReferentialIntegrityError))
  {
  }

  /** A Null accepted into a nullable FK column still goes through the FK
      check, so it is refused unless the referenced column holds a Null. */
  lemma NullForeignKeyRejected(cat: Catalog, t: Table, i: nat)
    requires WellFormed(t) && i < |t.names|
    requires var c := t.cols[t.names[i]]; c.isFK && !c.notNull && !c.isPK
    requires var n := t.names[i];
      && n in t.fors && t.fors[n].table in cat
      && var rt := cat[t.fors[n].table];
         t.fors[n].column in rt.names && !Holds(rt, t.fors[n].column, Null)
    ensures CheckColumn(cat, t, i, NullLit) == Err(InsertReferentialIntegrityError)
  {
  }

  /** PK uniqueness is checked per column: with a two-column key, a row that
      repeats only the first key column is refused although the key pair is
      new. */
  lemma PrimaryKeyCheckedPerColumn()
    ensures var t := Table(["a", "b"],
                           map["a" := Column(IntType, 0, true, true, false), "b" := Column(IntType, 0, true, true, false)],
                           {"a", "b"}, map[], map[], [[Val("1"), Val("1")]]);
      && WellFormed(t)
      && InsertRow(map["t" := t], "t", None, [IntLit("1"), IntLit("2")]) == Err(InsertDuplicatePrimaryKeyError)
  {
    var t := Table(["a", "b"],
                   map["a" := Column(IntType, 0, true, true, false), "b" := Column(IntType, 0, true, true, false)],
                   {"a", "b"}, map[], map[], [[Val("1"), Val("1")]]);
    var cat := map["t" := t];
    var lits := [IntLit("1"), IntLit("2")];
    assert t.data[0][0] == Val("1");
    assert LiteralRow(t, None, lits) == Ok(lits);
    assert CheckColumn(cat, t, 0, lits[0]) == Err(InsertDuplicatePrimaryKeyError);
    assert Convert(cat, t, lits, 1) == Err(InsertDuplicatePrimaryKeyError);
  }
}
