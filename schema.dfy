/**
 * CREATE TABLE and DROP TABLE as functions on catalog values: the checks
 * `table_element` makes on each element of a CREATE, the registration of
 * inverse references that `create_table_query` performs on the referenced
 * tables, and the check `drop_table_query` makes before deleting a table.
 */
module Schema {
  import opened Types

  /** One element of a CREATE TABLE: a column definition (`charLen` is the
      CHAR length and is ignored for the other types), a PRIMARY KEY
      constraint or a FOREIGN KEY ... REFERENCES constraint. */
  datatype Element =
    | ColumnDef(name: string, ctype: ColType, charLen: int, notNull: bool)
    | PrimaryKey(keyCols: seq<string>)
    | ForeignKey(localCols: seq<string>, refTable: string, refCols: seq<string>)

  /** An entry of `add_invs`: `[ref_tbl_name, ref_cols, here_cols]`. */
  datatype PendingRef = PendingRef(refTable: string, refCols: seq<string>, localCols: seq<string>)

  /** The session state of a CREATE in progress: `new_table` and `add_invs`. */
  datatype Draft = Draft(table: Table, pending: seq<PendingRef>)

  const EmptyDraft: Draft := Draft(EmptyTable, [])

  /** The key flags of every column agree with the table's key sets: a column
      is flagged PK iff it is in `pks`, and then it is NOT NULL; it is flagged
      FK iff it has an entry in `fors`. */
  predicate KeyFlagsAgree(t: Table)
  {
    && (forall c :: c in t.pks ==> c in t.cols)
    && (forall c :: c in t.fors ==> c in t.cols)
    && (forall c :: c in t.cols ==> (t.cols[c].isPK <==> c in t.pks))
    && (forall c :: c in t.cols ==> (t.cols[c].isFK <==> c in t.fors))
    && (forall c :: c in t.pks ==> t.cols[c].notNull)
  }

  /** A table as `table_element` builds it: well formed, flags agreeing, no
      rows and no inverse references yet. */
  predicate TableValid(t: Table)
  {
    WellFormed(t) && KeyFlagsAgree(t) && t.data == [] && t.invrefs == map[]
  }

  // ---------------------------------------------------------------------
  // Column definitions
  // ---------------------------------------------------------------------

  /** `column_definition`: a repeated name or a CHAR length below 1 is refused;
      otherwise the column is appended with no key flags. */
  function AddColumn(t: Table, name: string, ctype: ColType, charLen: int, notNull: bool): Result<Table>
  {
    if name in t.cols then Err(DuplicateColumnDefError)
    else if ctype == CharType && charLen < 1 then Err(CharLengthError)
    else
      var size := if ctype == CharType then charLen else 0;
      Ok(t.(names := t.names + [name], cols := t.cols[name := Column(ctype, size, notNull, false, false)]))
  }

  /** A repeated column name and a CHAR length below 1 are refused, in that
      order. */
  lemma AddColumnErrors(t: Table, name: string, ctype: ColType, charLen: int, notNull: bool)
    ensures name in t.cols ==> AddColumn(t, name, ctype, charLen, notNull) == Err(DuplicateColumnDefError)
    ensures name !in t.cols && ctype == CharType && charLen < 1 ==>
      AddColumn(t, name, ctype, charLen, notNull) == Err(CharLengthError)
    ensures AddColumn(t, name, ctype, charLen, notNull).Ok? <==>
      name !in t.cols && (ctype == CharType ==> charLen >= 1)
  {
  }

  /** An accepted column is appended with its descriptor; the other columns
      and every other part of the table are unchanged. */
  lemma AddColumnSpec(t: Table, name: string, ctype: ColType, charLen: int, notNull: bool)
    requires AddColumn(t, name, ctype, charLen, notNull).Ok?
    ensures var t' := AddColumn(t, name, ctype, charLen, notNull).value;
      && t'.names == t.names + [name]
      && t'.cols[name] == Column(ctype, if ctype == CharType then charLen else 0, notNull, false, false)
      && (ctype == CharType ==> t'.cols[name].size >= 1)
      && (forall c :: c in t.cols ==> c in t'.cols && t'.cols[c] == t.cols[c])
      && t'.cols.Keys == t.cols.Keys + {name}
      && t'.pks == t.pks && t'.fors == t.fors && t'.data == t.data && t'.invrefs == t.invrefs
  {
  }

  /** An accepted column keeps a valid draft table valid. */
  lemma AddColumnValid(t: Table, name: string, ctype: ColType, charLen: int, notNull: bool)
    requires TableValid(t) && AddColumn(t, name, ctype, charLen, notNull).Ok?
    ensures TableValid(AddColumn(t, name, ctype, charLen, notNull).value)
  {
    var t' := AddColumn(t, name, ctype, charLen, notNull).value;
    AddColumnSpec(t, name, ctype, charLen, notNull);
    assert Distinct(t'.names) by {
      forall i, j | 0 <= i < j < |t'.names| ensures t'.names[i] != t'.names[j] {
        if j == |t.names| { assert t'.names[i] == t.names[i] && t'.names[i] in t.cols; }
      }
    }
    assert KeyFlagsAgree(t');
  }

  // ---------------------------------------------------------------------
  // PRIMARY KEY
  // ---------------------------------------------------------------------

  /** Marks the listed columns NOT NULL and PK and adds them to `pks`. */
  function MarkPrimary(t: Table, ks: seq<string>): (t': Table)
    requires forall k :: k in ks ==> k in t.cols
    ensures t'.names == t.names && t'.cols.Keys == t.cols.Keys
    ensures t'.pks == t.pks + set k | k in ks
    ensures forall c :: c in t.cols && c in ks ==>
      t'.cols[c] == t.cols[c].(notNull := true, isPK := true)
    ensures forall c :: c in t.cols && c !in ks ==> t'.cols[c] == t.cols[c]
    ensures t'.fors == t.fors && t'.invrefs == t.invrefs && t'.data == t.data
  {
    if ks == [] then t
    else
      var prev := MarkPrimary(t, ks[..|ks| - 1]);
      var k := ks[|ks| - 1];
      assert forall x :: x in ks <==> x in ks[..|ks| - 1] || x == k;
      prev.(cols := prev.cols[k := prev.cols[k].(notNull := true, isPK := true)], pks := prev.pks + {k})
  }

  /** The last listed key is marked on top of the marks of the others. */
  lemma MarkPrimaryStep(t: Table, ks: seq<string>, i: nat)
    requires i < |ks| && forall j :: 0 <= j <= i ==> ks[j] in t.cols
    ensures forall k :: k in ks[..i] ==> k in t.cols
    ensures forall k :: k in ks[..i + 1] ==> k in t.cols
    ensures var p := MarkPrimary(t, ks[..i]);
      MarkPrimary(t, ks[..i + 1]) == p.(cols := p.cols[ks[i] := p.cols[ks[i]].(notNull := true, isPK := true)], pks := p.pks + {ks[i]})
  {
    var s := ks[..i + 1];
    assert s[..i] == ks[..i];
    assert s[i] == ks[i];
    forall k | k in s ensures k in t.cols {
      var j :| 0 <= j < |s| && s[j] == k;
      assert s[j] == ks[j];
    }
  }

  /** `primary_key_constraint`: refused when a primary key is already
      defined or when a listed column is not defined before the constraint. */
  function AddPrimaryKey(t: Table, ks: seq<string>): Result<Table>
  {
    if |t.pks| != 0 then Err(DuplicatePrimaryKeyDefError)
    else if exists k :: k in ks && k !in t.cols then Err(NonExistingColumnDefError)
    else Ok(MarkPrimary(t, ks))
  }

  /** A second PK constraint is refused, a PK naming an undefined column is
      refused, and an accepted PK leaves each of its columns NOT NULL and PK. */
  lemma AddPrimaryKeySpec(t: Table, ks: seq<string>)
    ensures t.pks != {} ==> AddPrimaryKey(t, ks) == Err(DuplicatePrimaryKeyDefError)
    ensures t.pks == {} && (exists k :: k in ks && k !in t.cols) ==>
      AddPrimaryKey(t, ks) == Err(NonExistingColumnDefError)
    ensures AddPrimaryKey(t, ks).Ok? ==>
      var t' := AddPrimaryKey(t, ks).value;
      && t.pks == {} && t'.pks == (set k | k in ks)
      && (forall k :: k in ks ==> k in t'.cols && t'.cols[k].notNull && t'.cols[k].isPK)
  {
  }

  // ---------------------------------------------------------------------
  // FOREIGN KEY ... REFERENCES
  // ---------------------------------------------------------------------

  /** The checks on one (local column, referenced column) pair, in the order
      the source makes them. */
  function PairError(rt: Table, t: Table, l: string, rc: string): Option<Error>
    requires l in t.cols
  {
    if rc !in rt.cols then Some(ReferenceColumnExistenceError)
    else if rt.cols[rc].ctype != t.cols[l].ctype || rt.cols[rc].size != t.cols[l].size then Some(ReferenceTypeError)
    else if rc !in rt.pks then Some(ReferenceNonPrimaryKeyError)
    else None
  }

  /** The error of the first failing pair, scanning left to right. */
  function PairsError(rt: Table, t: Table, local: seq<string>, refs: seq<string>): (r: Option<Error>)
    requires |local| == |refs|
    requires forall l :: l in local ==> l in t.cols
  {
    if local == [] then None
    else match PairError(rt, t, local[0], refs[0])
      case Some(e) => Some(e)
      case None => PairsError(rt, t, local[1..], refs[1..])
  }

  lemma {:induction false} PairsErrorNone(rt: Table, t: Table, local: seq<string>, refs: seq<string>)
    requires |local| == |refs|
    requires forall l :: l in local ==> l in t.cols
    ensures PairsError(rt, t, local, refs).None? <==>
      forall i :: 0 <= i < |local| ==> PairError(rt, t, local[i], refs[i]).None?
  {
    if local != [] {
      PairsErrorNone(rt, t, local[1..], refs[1..]);
      assert forall i :: 1 <= i < |local| ==> local[i] == local[1..][i - 1] && refs[i] == refs[1..][i - 1];
    }
  }

  /** Flags the local columns FK and records their targets, pair by pair. */
  function MarkForeign(t: Table, local: seq<string>, refTable: string, refs: seq<string>): (t': Table)
    requires |local| == |refs|
    requires forall l :: l in local ==> l in t.cols
    ensures t'.names == t.names && t'.cols.Keys == t.cols.Keys
    ensures t'.pks == t.pks && t'.invrefs == t.invrefs && t'.data == t.data
  {
    if local == [] then t
    else
      var n := |local| - 1;
      var prev := MarkForeign(t, local[..n], refTable, refs[..n]);
      var l := local[n];
      assert l in t.cols;
      prev.(cols := prev.cols[l := prev.cols[l].(isFK := true)], fors := prev.fors[l := Ref(refTable, refs[n])])
  }

  /** The local columns, and only they, become FK; nothing else in a column changes. */
  lemma {:induction false} MarkForeignCols(t: Table, local: seq<string>, refTable: string, refs: seq<string>)
    requires |local| == |refs|
    requires forall l :: l in local ==> l in t.cols
    ensures forall c :: c in t.cols ==>
      MarkForeign(t, local, refTable, refs).cols[c] == if c in local then t.cols[c].(isFK := true) else t.cols[c]
  {
    if local != [] {
      var n := |local| - 1;
      MarkForeignCols(t, local[..n], refTable, refs[..n]);
      assert forall x :: x in local <==> x in local[..n] || x == local[n];
    }
  }

  /** The local columns gain entries in `fors` naming the referenced table;
      the other entries of `fors` are kept. */
  lemma {:induction false} MarkForeignFors(t: Table, local: seq<string>, refTable: string, refs: seq<string>)
    requires |local| == |refs|
    requires forall l :: l in local ==> l in t.cols
    ensures MarkForeign(t, local, refTable, refs).fors.Keys == t.fors.Keys + set l | l in local
    ensures forall c :: c in t.fors && c !in local ==> MarkForeign(t, local, refTable, refs).fors[c] == t.fors[c]
    ensures forall l :: l in local ==> MarkForeign(t, local, refTable, refs).fors[l].table == refTable
  {
    if local != [] {
      var n := |local| - 1;
      MarkForeignFors(t, local[..n], refTable, refs[..n]);
      assert forall x :: x in local <==> x in local[..n] || x == local[n];
    }
  }

  /** Each local column maps to the referenced column it was last paired with. */
  lemma {:induction false} MarkForeignForsLast(t: Table, local: seq<string>, refTable: string, refs: seq<string>, i: nat)
    requires |local| == |refs|
    requires forall l :: l in local ==> l in t.cols
    requires i < |local| && forall j :: i < j < |local| ==> local[j] != local[i]
    ensures var f := MarkForeign(t, local, refTable, refs).fors;
      local[i] in f && f[local[i]] == Ref(refTable, refs[i])
  {
    var n := |local| - 1;
    if i < n {
      assert local[..n][i] == local[i] && refs[..n][i] == refs[i];
      MarkForeignForsLast(t, local[..n], refTable, refs[..n], i);
    }
  }

  /** `referential_constraint`: every local column must be defined, the two
      column lists must be equally long, the referenced table must exist,
      each pair must pass `PairError`, and the referenced columns must cover
      every PK column of the referenced table. On success the local columns
      are marked and the registration is queued. */
  function AddForeignKey(cat: Catalog, t: Table, local: seq<string>, refTable: string, refs: seq<string>): Result<(Table, PendingRef)>
  {
    if exists l :: l in local && l !in t.cols then Err(NonExistingColumnDefError)
    else if |local| != |refs| then Err(ReferenceTypeError)
    else if refTable !in cat then Err(ReferenceTableExistenceError)
    else
      var rt := cat[refTable];
      match PairsError(rt, t, local, refs)
      case Some(e) => Err(e)
      case None =>
        if exists k :: k in rt.pks && k !in refs then Err(ReferenceNonPrimaryKeyError)
        else Ok((MarkForeign(t, local, refTable, refs), PendingRef(refTable, refs, local)))
  }

  /** A foreign key is accepted exactly when its local columns exist, the
      lists have equal length, the referenced table exists, every referenced
      column exists with the local column's type and size and is a PK of the
      referenced table, and together they cover that table's primary key.
      The accepted key flags its local columns FK with targets in the
      referenced table. */
  lemma AddForeignKeyAccepted(cat: Catalog, t: Table, local: seq<string>, refTable: string, refs: seq<string>)
    ensures AddForeignKey(cat, t, local, refTable, refs).Ok? <==>
      && (forall l :: l in local ==> l in t.cols)
      && |local| == |refs|
      && refTable in cat
      && (forall i :: 0 <= i < |local| ==>
            && refs[i] in cat[refTable].cols
            && cat[refTable].cols[refs[i]].ctype == t.cols[local[i]].ctype
            && cat[refTable].cols[refs[i]].size == t.cols[local[i]].size
            && refs[i] in cat[refTable].pks)
      && (forall k :: k in cat[refTable].pks ==> k in refs)
  {
    if (forall l :: l in local ==> l in t.cols) && |local| == |refs| && refTable in cat {
      PairsErrorNone(cat[refTable], t, local, refs);
    }
  }

  /** The accepted key flags its local columns FK with targets in the
      referenced table, and queues exactly its own registration. */
  lemma AddForeignKeyMarks(cat: Catalog, t: Table, local: seq<string>, refTable: string, refs: seq<string>)
    requires AddForeignKey(cat, t, local, refTable, refs).Ok?
    ensures var (t', p) := AddForeignKey(cat, t, local, refTable, refs).value;
      && p == PendingRef(refTable, refs, local)
      && (forall l :: l in local ==> t'.cols[l].isFK && l in t'.fors && t'.fors[l].table == refTable)
  {
    MarkForeignCols(t, local, refTable, refs);
    MarkForeignFors(t, local, refTable, refs);
  }

  // ---------------------------------------------------------------------
  // table_element and the whole element list
  // ---------------------------------------------------------------------

  /** `table_element`: one element applied to the draft. */
  function ElementStep(cat: Catalog, d: Draft, e: Element): Result<Draft>
  {
    match e
    case ColumnDef(n, ty, len, nn) =>
      (match AddColumn(d.table, n, ty, len, nn)
       case Err(x) => Err(x)
       case Ok(t') => Ok(d.(table := t')))
    case PrimaryKey(ks) =>
      (match AddPrimaryKey(d.table, ks)
       case Err(x) => Err(x)
       case Ok(t') => Ok(d.(table := t')))
    case ForeignKey(ls, rt, rs) =>
      (match AddForeignKey(cat, d.table, ls, rt, rs)
       case Err(x) => Err(x)
       case Ok((t', p)) => Ok(Draft(t', d.pending + [p])))
  }

  lemma MarkPrimaryValid(t: Table, ks: seq<string>)
    requires TableValid(t)
    requires forall k :: k in ks ==> k in t.cols
    ensures TableValid(MarkPrimary(t, ks))
  {
    MarkPrimaryFlags(t, ks);
  }

  lemma MarkPrimaryFlags(t: Table, ks: seq<string>)
    requires KeyFlagsAgree(t)
    requires forall k :: k in ks ==> k in t.cols
    ensures KeyFlagsAgree(MarkPrimary(t, ks))
  {
    var t' := MarkPrimary(t, ks);
    forall c | c in t'.cols ensures t'.cols[c].isPK <==> c in t'.pks {
      if c in ks { assert c in t'.pks; }
    }
    forall c | c in t'.pks ensures t'.cols[c].notNull {
      if c !in ks { assert c in t.pks; }
    }
  }

  lemma MarkForeignValid(t: Table, local: seq<string>, refTable: string, refs: seq<string>)
    requires TableValid(t)
    requires |local| == |refs|
    requires forall l :: l in local ==> l in t.cols
    ensures TableValid(MarkForeign(t, local, refTable, refs))
  {
    MarkForeignCols(t, local, refTable, refs);
    MarkForeignFors(t, local, refTable, refs);
  }

  /** The registrations an element queues: one for a FOREIGN KEY, none
      otherwise. */
  function Queued(e: Element): seq<PendingRef>
  {
    if e.ForeignKey? then [PendingRef(e.refTable, e.refCols, e.localCols)] else []
  }

  /** Every element step appends the element's registration, if any. */
  lemma ElementStepQueues(cat: Catalog, d: Draft, e: Element)
    ensures ElementStep(cat, d, e).Ok? ==> ElementStep(cat, d, e).value.pending == d.pending + Queued(e)
  {
    if !e.ForeignKey? {
      assert d.pending + [] == d.pending;
    }
  }

  /** Every element step keeps the draft valid, and a FOREIGN KEY step
      names a table of the catalog. */
  lemma ElementStepValid(cat: Catalog, d: Draft, e: Element)
    requires TableValid(d.table)
    ensures ElementStep(cat, d, e).Ok? ==>
      && TableValid(ElementStep(cat, d, e).value.table)
      && (e.ForeignKey? ==> e.refTable in cat)
  {
    match e
    case ColumnDef(n, ty, len, nn) =>
      if AddColumn(d.table, n, ty, len, nn).Ok? { AddColumnValid(d.table, n, ty, len, nn); }
    case PrimaryKey(ks) =>
      if AddPrimaryKey(d.table, ks).Ok? { MarkPrimaryValid(d.table, ks); }
    case ForeignKey(ls, rt, rs) =>
      if AddForeignKey(cat, d.table, ls, rt, rs).Ok? {
        MarkForeignValid(d.table, ls, rt, rs);
      }
  }

  /** The elements of a CREATE applied in order to the empty draft, the first
      refused element deciding the error. */
  function BuildDraft(cat: Catalog, es: seq<Element>): Result<Draft>
  {
    if es == [] then Ok(EmptyDraft)
    else match BuildDraft(cat, es[..|es| - 1])
      case Err(x) => Err(x)
      case Ok(d) => ElementStep(cat, d, es[|es| - 1])
  }

  /** An accepted element list yields a valid draft whose registrations all
      name existing tables. */
  lemma {:induction false} BuildDraftValid(cat: Catalog, es: seq<Element>)
    ensures BuildDraft(cat, es).Ok? ==>
      && TableValid(BuildDraft(cat, es).value.table)
      && (forall p :: p in BuildDraft(cat, es).value.pending ==> p.refTable in cat)
  {
    if es != [] {
      var n := |es| - 1;
      BuildDraftValid(cat, es[..n]);
      if BuildDraft(cat, es).Ok? {
        var d := BuildDraft(cat, es[..n]).value;
        ElementStepValid(cat, d, es[n]);
        ElementStepQueues(cat, d, es[n]);
      }
    }
  }

  /** Each FOREIGN KEY element of an accepted list queues its registration. */
  lemma {:induction false} BuildDraftQueues(cat: Catalog, es: seq<Element>, j: nat)
    requires BuildDraft(cat, es).Ok? && j < |es| && es[j].ForeignKey?
    ensures PendingRef(es[j].refTable, es[j].refCols, es[j].localCols) in BuildDraft(cat, es).value.pending
  {
    var n := |es| - 1;
    var d := BuildDraft(cat, es[..n]).value;
    ElementStepQueues(cat, d, es[n]);
    assert BuildDraft(cat, es).value.pending == d.pending + Queued(es[n]);
    if j < n {
      assert es[..n][j] == es[j];
      BuildDraftQueues(cat, es[..n], j);
    }
  }

  // ---------------------------------------------------------------------
  // create_table_query: storing the table and registering inverse references
  // ---------------------------------------------------------------------

  /** Records one referencer under a referenced column (intended version:
      the referencer is the new table). */
  function AddReferencer(m: map<string, seq<Ref>>, newName: string, rc: string, fc: string): map<string, seq<Ref>>
  {
    if rc !in m then m[rc := [Ref(newName, fc)]]
    else m[rc := m[rc] + [Ref(newName, fc)]]
  }

  /** The pairs `zip(ref_cols, from_cols)`. */
  function Zip(a: seq<string>, b: seq<string>): (z: seq<(string, string)>)
    ensures |z| == if |a| <= |b| then |a| else |b|
    ensures forall i :: 0 <= i < |z| ==> z[i] == (a[i], b[i])
  {
    if a == [] || b == [] then [] else [(a[0], b[0])] + Zip(a[1..], b[1..])
  }

  /** The inner loop of the registration, over the pairs of one pending entry. */
  function AddReferencers(m: map<string, seq<Ref>>, newName: string, ps: seq<(string, string)>): (m': map<string, seq<Ref>>)
    ensures m'.Keys == m.Keys + set p | p in ps :: p.0
  {
    if ps == [] then m
    else
      var n := |ps| - 1;
      var prev := AddReferencers(m, newName, ps[..n]);
      assert forall p :: p in ps <==> p in ps[..n] || p == ps[n];
      AddReferencer(prev, newName, ps[n].0, ps[n].1)
  }

  /** `m'` only appends to `m` referencers of the table `newName`: every list
      of `m` is a prefix of its list in `m'`, and every appended entry, like
      every entry of a new list, names `newName`. */
  predicate AppendsOnly(m: map<string, seq<Ref>>, m': map<string, seq<Ref>>, newName: string)
  {
    && (forall k :: k in m ==> k in m' && m[k] <= m'[k])
    && (forall k :: k in m ==> forall x: Ref :: x in m'[k][|m[k]|..] ==> x.table == newName)
    && (forall k :: k in m' && k !in m ==> |m'[k]| > 0 && forall x: Ref :: x in m'[k] ==> x.table == newName)
  }

  /** Recording one referencer of `newName` keeps `AppendsOnly`. */
  lemma AddReferencerAppends(m: map<string, seq<Ref>>, prev: map<string, seq<Ref>>, newName: string, rc: string, fc: string)
    requires AppendsOnly(m, prev, newName)
    ensures AppendsOnly(m, AddReferencer(prev, newName, rc, fc), newName)
  {
    var m', r := AddReferencer(prev, newName, rc, fc), Ref(newName, fc);
    forall k | k in m
      ensures k in m' && m[k] <= m'[k]
      ensures forall x: Ref :: x in m'[k][|m[k]|..] ==> x.table == newName
    {
      if k == rc {
        assert m'[k] == prev[k] + [r];
        assert m'[k][|m[k]|..] == prev[k][|m[k]|..] + [r];
      }
    }
    forall k | k in m' && k !in m
      ensures |m'[k]| > 0 && forall x: Ref :: x in m'[k] ==> x.table == newName
    {
      if k == rc && k in prev {
        assert m'[k] == prev[k] + [r];
      }
    }
  }

  /** The registration only appends referencers of the new table. */
  lemma {:induction false} AddReferencersAppends(m: map<string, seq<Ref>>, newName: string, ps: seq<(string, string)>)
    ensures AppendsOnly(m, AddReferencers(m, newName, ps), newName)
  {
    if ps == [] {
      forall k | k in m ensures m[k][|m[k]|..] == [] {}
    } else {
      var n := |ps| - 1;
      AddReferencersAppends(m, newName, ps[..n]);
      AddReferencerAppends(m, AddReferencers(m, newName, ps[..n]), newName, ps[n].0, ps[n].1);
    }
  }

  /** Every pair ends up recorded as a referencer of the new table. */
  lemma {:induction false} AddReferencersRecords(m: map<string, seq<Ref>>, newName: string, ps: seq<(string, string)>)
    ensures forall p :: p in ps ==> p.0 in AddReferencers(m, newName, ps) && Ref(newName, p.1) in AddReferencers(m, newName, ps)[p.0]
  {
    if ps != [] {
      var n := |ps| - 1;
      AddReferencersRecords(m, newName, ps[..n]);
      var prev := AddReferencers(m, newName, ps[..n]);
      var m' := AddReferencers(m, newName, ps);
      assert m' == AddReferencer(prev, newName, ps[n].0, ps[n].1);
      forall p | p in ps ensures Ref(newName, p.1) in m'[p.0] {
        if p != ps[n] {
          assert p in ps[..n];
          if p.0 == ps[n].0 {
            assert m'[p.0] == prev[p.0] + [Ref(newName, ps[n].1)];
          }
        }
      }
    }
  }

  /** One entry of `add_invs` applied to its referenced table. */
  function RegisterOne(cat: Catalog, newName: string, p: PendingRef): Catalog
    requires p.refTable in cat
  {
    var t := cat[p.refTable];
    cat[p.refTable := t.(invrefs := AddReferencers(t.invrefs, newName, Zip(p.refCols, p.localCols)))]
  }

  /** The outer loop of the registration, in `add_invs` order. */
  function Register(cat: Catalog, newName: string, ps: seq<PendingRef>): (cat': Catalog)
    requires forall p :: p in ps ==> p.refTable in cat
    ensures cat'.Keys == cat.Keys
    ensures forall n :: n in cat ==> cat'[n] == cat[n].(invrefs := cat'[n].invrefs)
  {
    if ps == [] then cat
    else
      var n := |ps| - 1;
      assert forall p :: p in ps <==> p in ps[..n] || p == ps[n];
      RegisterOne(Register(cat, newName, ps[..n]), newName, ps[n])
  }

  /** A table that no queued entry references is left exactly as it was. */
  lemma {:induction false} RegisterUntouched(cat: Catalog, newName: string, ps: seq<PendingRef>, name: string)
    requires forall p :: p in ps ==> p.refTable in cat
    requires name in cat && forall p :: p in ps ==> p.refTable != name
    ensures Register(cat, newName, ps)[name] == cat[name]
  {
    if ps != [] {
      var n := |ps| - 1;
      assert forall p :: p in ps[..n] ==> p in ps;
      RegisterUntouched(cat, newName, ps[..n], name);
      assert ps[n] in ps;
    }
  }

  /** No inverse reference is lost by the registration. */
  lemma {:induction false} RegisterAppends(cat: Catalog, newName: string, ps: seq<PendingRef>)
    requires forall p :: p in ps ==> p.refTable in cat
    ensures forall n, k :: n in cat && k in cat[n].invrefs ==>
      k in Register(cat, newName, ps)[n].invrefs && cat[n].invrefs[k] <= Register(cat, newName, ps)[n].invrefs[k]
  {
    if ps != [] {
      var n := |ps| - 1;
      assert forall p :: p in ps[..n] ==> p in ps;
      RegisterAppends(cat, newName, ps[..n]);
      var prev := Register(cat, newName, ps[..n]);
      var p := ps[n];
      AddReferencersAppends(prev[p.refTable].invrefs, newName, Zip(p.refCols, p.localCols));
    }
  }

  /** Every (referenced column, local column) pair of the entry `p` is
      recorded on its referenced table as a referencer of `newName`. */
  predicate Recorded(cat: Catalog, newName: string, p: PendingRef)
  {
    && p.refTable in cat
    && forall i :: 0 <= i < |p.refCols| && i < |p.localCols| ==>
         p.refCols[i] in cat[p.refTable].invrefs &&
         Ref(newName, p.localCols[i]) in cat[p.refTable].invrefs[p.refCols[i]]
  }

  /** Appending to inverse-reference lists keeps every recorded entry. */
  lemma RecordedKept(cat: Catalog, cat': Catalog, newName: string, p: PendingRef)
    requires Recorded(cat, newName, p) && p.refTable in cat'
    requires forall k :: k in cat[p.refTable].invrefs ==>
      k in cat'[p.refTable].invrefs && cat[p.refTable].invrefs[k] <= cat'[p.refTable].invrefs[k]
    ensures Recorded(cat', newName, p)
  {
    forall i | 0 <= i < |p.refCols| && i < |p.localCols|
      ensures Ref(newName, p.localCols[i]) in cat'[p.refTable].invrefs[p.refCols[i]]
    {
      var k := p.refCols[i];
      assert cat[p.refTable].invrefs[k] <= cat'[p.refTable].invrefs[k];
    }
  }

  /** Registering `p` records all of its pairs. */
  lemma RegisterOneRecords(cat: Catalog, newName: string, p: PendingRef)
    requires p.refTable in cat
    ensures Recorded(RegisterOne(cat, newName, p), newName, p)
  {
    var z := Zip(p.refCols, p.localCols);
    var m := cat[p.refTable].invrefs;
    AddReferencersRecords(m, newName, z);
    forall i | 0 <= i < |p.refCols| && i < |p.localCols|
      ensures p.refCols[i] in AddReferencers(m, newName, z)
      ensures Ref(newName, p.localCols[i]) in AddReferencers(m, newName, z)[p.refCols[i]]
    {
      assert z[i] in z;
    }
  }

  /** Registering one entry keeps what earlier entries recorded. */
  lemma RegisterOneKeeps(cat: Catalog, newName: string, p: PendingRef, q: PendingRef)
    requires p.refTable in cat && Recorded(cat, newName, q)
    ensures Recorded(RegisterOne(cat, newName, p), newName, q)
  {
    var cat' := RegisterOne(cat, newName, p);
    if q.refTable == p.refTable {
      AddReferencersAppends(cat[p.refTable].invrefs, newName, Zip(p.refCols, p.localCols));
      RecordedKept(cat, cat', newName, q);
    } else {
      assert cat'[q.refTable] == cat[q.refTable];
    }
  }

  /** Every queued entry ends up recorded on its referenced table. */
  lemma {:induction false} RegisterRecords(cat: Catalog, newName: string, ps: seq<PendingRef>)
    requires forall p :: p in ps ==> p.refTable in cat
    ensures forall j :: 0 <= j < |ps| ==> Recorded(Register(cat, newName, ps), newName, ps[j])
  {
    if ps != [] {
      var n := |ps| - 1;
      assert forall p :: p in ps[..n] ==> p in ps;
      RegisterRecords(cat, newName, ps[..n]);
      var prev := Register(cat, newName, ps[..n]);
      assert ps[n] in ps;
      assert Register(cat, newName, ps) == RegisterOne(prev, newName, ps[n]);
      forall j | 0 <= j < |ps| ensures Recorded(RegisterOne(prev, newName, ps[n]), newName, ps[j]) {
        if j == n {
          RegisterOneRecords(prev, newName, ps[n]);
        } else {
          assert ps[..n][j] == ps[j];
          RegisterOneKeeps(prev, newName, ps[n], ps[j]);
        }
      }
    }
  }

  /** `create_table_query` after its elements: refused if the name is taken,
      otherwise the draft is stored under the name and the inverse
      references are registered on the referenced tables. */
  function CreateTable(cat: Catalog, name: string, d: Draft): Result<Catalog>
    requires forall p :: p in d.pending ==> p.refTable in cat
  {
    if name in cat then Err(TableExistenceError)
    else Ok(Register(cat[name := d.table], name, d.pending))
  }

  /** A whole CREATE TABLE statement: the elements are checked first (the
      front end transforms them before the statement), then the name. */
  function CreateStatement(cat: Catalog, name: string, es: seq<Element>): Result<Catalog>
  {
    match BuildDraft(cat, es)
    case Err(x) => Err(x)
    case Ok(d) =>
      BuildDraftValid(cat, es);
      CreateTable(cat, name, d)
  }

  // ---------------------------------------------------------------------
  // drop_table_query
  // ---------------------------------------------------------------------

  /** `drop_table_query`: an absent table is `NoSuchTable`, a table with any
      inverse reference is `DropReferencedTableError`, otherwise only that
      table is removed. */
  function DropTable(cat: Catalog, name: string): Result<Catalog>
  {
    if name !in cat then Err(NoSuchTable)
    else if |cat[name].invrefs| != 0 then Err(DropReferencedTableError)
    else Ok(cat - {name})
  }

  lemma DropTableSpec(cat: Catalog, name: string)
    ensures DropTable(cat, name).Ok? <==> name in cat && cat[name].invrefs == map[]
    ensures name in cat && cat[name].invrefs != map[] ==> DropTable(cat, name) == Err(DropReferencedTableError)
    ensures DropTable(cat, name).Ok? ==>
      var cat' := DropTable(cat, name).value;
      cat'.Keys == cat.Keys - {name} && forall n :: n in cat' ==> cat'[n] == cat[n]
  {
    if name in cat && |cat[name].invrefs| == 0 {
      assert cat[name].invrefs == map[];
    }
  }

  /** After a CREATE whose FOREIGN KEY references table `rt` through at
      least one column, `rt` holds an inverse reference to the new table, so
      dropping `rt` is refused. */
  lemma CreateWithForeignKeyBlocksDrop(cat: Catalog, name: string, es: seq<Element>, e: Element)
    requires CreateStatement(cat, name, es).Ok?
    requires e in es && e.ForeignKey? && |e.localCols| > 0 && |e.refCols| > 0
    ensures var cat' := CreateStatement(cat, name, es).value;
      && e.refTable in cat'
      && e.refCols[0] in cat'[e.refTable].invrefs
      && Ref(name, e.localCols[0]) in cat'[e.refTable].invrefs[e.refCols[0]]
      && DropTable(cat', e.refTable) == Err(DropReferencedTableError)
  {
    BuildDraftValid(cat, es);
    var d := BuildDraft(cat, es).value;
    var p := PendingRef(e.refTable, e.refCols, e.localCols);
    var k :| 0 <= k < |es| && es[k] == e;
    BuildDraftQueues(cat, es, k);
    var j :| 0 <= j < |d.pending| && d.pending[j] == p;
    RegisterRecords(cat[name := d.table], name, d.pending);
    assert p.refTable != name;
    assert Recorded(CreateStatement(cat, name, es).value, name, p);
  }

  /** A successful CREATE stores the new table with its draft contents and
      changes nothing in the other tables but their inverse references. */
  lemma CreateStatementStores(cat: Catalog, name: string, es: seq<Element>)
    requires CreateStatement(cat, name, es).Ok?
    ensures var cat' := CreateStatement(cat, name, es).value;
      && name !in cat && cat'.Keys == cat.Keys + {name}
      && cat'[name] == BuildDraft(cat, es).value.table
      && WellFormed(cat'[name]) && KeyFlagsAgree(cat'[name]) && cat'[name].data == []
      && (forall n :: n in cat ==>
            cat'[n].names == cat[n].names && cat'[n].cols == cat[n].cols && cat'[n].pks == cat[n].pks &&
            cat'[n].fors == cat[n].fors && cat'[n].data == cat[n].data)
  {
    BuildDraftValid(cat, es);
    var d := BuildDraft(cat, es).value;
    RegisterUntouched(cat[name := d.table], name, d.pending, name);
  }

  // ---------------------------------------------------------------------
  // The registration as written
  // ---------------------------------------------------------------------

  /** Line 102 as written: a second or later referencer of a column is
      recorded under the referenced table's own name. */
  function AddReferencerAsWritten(m: map<string, seq<Ref>>, newName: string, refTable: string, rc: string, fc: string): (m': map<string, seq<Ref>>)
    ensures rc !in m ==> m' == AddReferencer(m, newName, rc, fc)
  {
    if rc !in m then m[rc := [Ref(newName, fc)]]
    else m[rc := m[rc] + [Ref(refTable, fc)]]
  }

  /** With `emp` already referencing `dept.id`, creating `emp2` with a foreign
      key on `d` records `dept.d` instead of `emp2.d` as written. */
  lemma SecondReferencerMisrecordedAsWritten()
    ensures var m := map["id" := [Ref("emp", "d")]];
      && AddReferencerAsWritten(m, "emp2", "dept", "id", "d")["id"] == [Ref("emp", "d"), Ref("dept", "d")]
      && AddReferencer(m, "emp2", "id", "d")["id"] == [Ref("emp", "d"), Ref("emp2", "d")]
  {
  }
}
