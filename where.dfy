/**
 * WHERE clauses: the predicate tree, column resolution against the column
 * dictionary of the queried tables (`get_val`) and three-valued evaluation
 * of a predicate on one candidate row (`check`).
 */
module Where {
  import opened Types
  import opened ThreeValued

  /** A column operand, `table.column` or a bare `column`. */
  datatype ColRef = ColRef(table: Option<string>, column: string)

  /** A literal on one side of a comparison, carrying its token text
      (a STR token still has its quotes). */
  datatype CompLit = IntLit(text: string) | StrLit(text: string) | DateLit(text: string)

  datatype Operand = ColOperand(ref: ColRef) | LitOperand(lit: CompLit)

  datatype CompOp = Lt | Gt | Eq | Ge | Le | Ne

  /** `boolean_expr` (OR of terms), `boolean_term` (AND of factors), a
      negated factor, `parenthesized_boolean_expr`, `comparison_predicate`
      and `null_predicate` (IS NULL, or IS NOT NULL when `negated`). */
  datatype Cond =
    | Or(terms: seq<Cond>)
    | And(factors: seq<Cond>)
    | Not(operand: Cond)
    | Paren(inner: Cond)
    | Compare(left: Operand, op: CompOp, right: Operand)
    | IsNull(ref: ColRef, negated: bool)

  /** One key of the column dictionary `tbl_cols` with the column's type. */
  datatype Entry = Entry(ref: Ref, ctype: ColType)

  /** What `check` reads: the queried tables and the column dictionary, in
      dictionary order, which is the order of the cells of a candidate row. */
  datatype Scope = Scope(tables: seq<string>, entries: seq<Entry>)

  /** A non-null operand with its comparability tag. */
  datatype Typed = Typed(tag: ColType, text: string)

  /** The keys a table contributes to the column dictionary, in column
      order, each qualified by the table's name; no key occurs twice. */
  function TableEntries(name: string, t: Table): (es: seq<Entry>)
    requires WellFormed(t)
    ensures |es| == |t.names|
    ensures forall i, j :: 0 <= i < j < |es| ==> es[i].ref != es[j].ref
    ensures forall i :: 0 <= i < |t.names| ==> es[i] == Entry(Ref(name, t.names[i]), t.cols[t.names[i]].ctype)
  {
    seq(|t.names|, i requires 0 <= i < |t.names| => Entry(Ref(name, t.names[i]), t.cols[t.names[i]].ctype))
  }

  function FromBool(b: bool): TV
  {
    if b then True else False
  }

  // ---------------------------------------------------------------------
  // Column resolution
  // ---------------------------------------------------------------------

  /** The number of dictionary keys whose column part is `c`. */
  function CountColumn(es: seq<Entry>, c: string): nat
  {
    if es == [] then 0
    else (if es[0].ref.column == c then 1 else 0) + CountColumn(es[1..], c)
  }

  /** The first key equal to `key`, if any (`list(tbl_cols).index(key)`). */
  function FindKey(es: seq<Entry>, key: Ref): (r: Option<nat>)
    ensures r.Some? ==> r.value < |es| && es[r.value].ref == key
    ensures r.Some? ==> forall j :: 0 <= j < r.value ==> es[j].ref != key
    ensures r.None? ==> forall j :: 0 <= j < |es| ==> es[j].ref != key
  {
    if es == [] then None
    else if es[0].ref == key then Some(0)
    else match FindKey(es[1..], key)
      case None => None
      case Some(i) => Some(i + 1)
  }

  /** The first key whose column part is `c`, if any. */
  function FindColumn(es: seq<Entry>, c: string): (r: Option<nat>)
    ensures r.Some? ==> r.value < |es| && es[r.value].ref.column == c
    ensures r.Some? ==> forall j :: 0 <= j < r.value ==> es[j].ref.column != c
    ensures r.None? ==> forall j :: 0 <= j < |es| ==> es[j].ref.column != c
  {
    if es == [] then None
    else if es[0].ref.column == c then Some(0)
    else match FindColumn(es[1..], c)
      case None => None
      case Some(i) => Some(i + 1)
  }

  lemma {:induction false} CountColumnZero(es: seq<Entry>, c: string)
    ensures CountColumn(es, c) == 0 <==> forall j :: 0 <= j < |es| ==> es[j].ref.column != c
  {
    if es != [] {
      CountColumnZero(es[1..], c);
      assert forall j :: 1 <= j < |es| ==> es[j] == es[1..][j - 1];
    }
  }

  /** Exactly one key has column part `c` iff the count is one. */
  lemma {:induction false} CountColumnOne(es: seq<Entry>, c: string, i: nat)
    requires i < |es| && es[i].ref.column == c
    ensures CountColumn(es, c) == 1 <==> forall j :: 0 <= j < |es| && j != i ==> es[j].ref.column != c
  {
    assert forall j :: 1 <= j < |es| ==> es[j] == es[1..][j - 1];
    CountColumnZero(es[1..], c);
    if i > 0 {
      CountColumnOne(es[1..], c, i - 1);
    }
  }

  /** `get_val`'s lookup: the position in the dictionary of the key a column
      operand denotes, or the error it raises. This is the intended version,
      which checks a qualifier against the queried tables. */
  function Resolve(scope: Scope, r: ColRef): (res: Result<nat>)
    ensures res.Ok? ==> res.value < |scope.entries| && scope.entries[res.value].ref.column == r.column
    ensures res.Err? ==> res.error in {WhereTableNotSpecified, WhereColumnNotExist, WhereAmbiguousReference}
  {
    match r.table
    case Some(t) =>
      if t !in scope.tables then Err(WhereTableNotSpecified)
      else
        (match FindKey(scope.entries, Ref(t, r.column))
         case None => Err(WhereColumnNotExist)
         case Some(i) => Ok(i))
    case None =>
      if CountColumn(scope.entries, r.column) > 1 then Err(WhereAmbiguousReference)
      else
        (match FindColumn(scope.entries, r.column)
         case None => Err(WhereColumnNotExist)
         case Some(i) => Ok(i))
  }

  /** A qualified operand must name a queried table and one of its columns,
      and then denotes exactly that key. */
  lemma ResolveQualified(scope: Scope, t: string, c: string)
    ensures Resolve(scope, ColRef(Some(t), c)) == Err(WhereTableNotSpecified) <==> t !in scope.tables
    ensures t in scope.tables ==>
      (Resolve(scope, ColRef(Some(t), c)) == Err(WhereColumnNotExist) <==>
       forall j :: 0 <= j < |scope.entries| ==> scope.entries[j].ref != Ref(t, c))
    ensures Resolve(scope, ColRef(Some(t), c)).Ok? ==>
      scope.entries[Resolve(scope, ColRef(Some(t), c)).value].ref == Ref(t, c)
    ensures Resolve(scope, ColRef(Some(t), c)).Ok? ==>
      forall j :: 0 <= j < Resolve(scope, ColRef(Some(t), c)).value ==> scope.entries[j].ref != Ref(t, c)
  {
  }

  /** A bare operand resolves iff exactly one key has that column name; no
      match is `WhereColumnNotExist` and several are `WhereAmbiguousReference`. */
  lemma ResolveUnqualified(scope: Scope, c: string)
    ensures forall i :: Resolve(scope, ColRef(None, c)) == Ok(i) <==>
      (0 <= i < |scope.entries| && scope.entries[i].ref.column == c &&
       forall j :: 0 <= j < |scope.entries| && j != i ==> scope.entries[j].ref.column != c)
    ensures Resolve(scope, ColRef(None, c)) == Err(WhereColumnNotExist) <==>
      forall j :: 0 <= j < |scope.entries| ==> scope.entries[j].ref.column != c
    ensures Resolve(scope, ColRef(None, c)) == Err(WhereAmbiguousReference) <==>
      exists i, j :: 0 <= i < j < |scope.entries| &&
        scope.entries[i].ref.column == c && scope.entries[j].ref.column == c
  {
    var es := scope.entries;
    CountColumnZero(es, c);
    match FindColumn(es, c)
    case None =>
    case Some(k) =>
      CountColumnOne(es, c, k);
      forall i ensures Resolve(scope, ColRef(None, c)) == Ok(i) <==>
        (0 <= i < |es| && es[i].ref.column == c &&
         forall j :: 0 <= j < |es| && j != i ==> es[j].ref.column != c)
      {
        if 0 <= i < |es| && es[i].ref.column == c && i != k {
          assert es[k].ref.column == c;
        }
      }
      if CountColumn(es, c) != 1 {
        var j :| 0 <= j < |es| && j != k && es[j].ref.column == c;
        assert k < j;
        assert es[k].ref.column == c && es[j].ref.column == c;
      }
  }

  /** `get_val`: the cell a column operand denotes, `None` for a Null cell and
      otherwise the text tagged with the column's declared type. */
  function GetVal(record: Row, scope: Scope, r: ColRef): (res: Result<Option<Typed>>)
    requires |scope.entries| <= |record|
    ensures res.Ok? <==> Resolve(scope, r).Ok?
    ensures res.Ok? ==> (res.value.None? <==> record[Resolve(scope, r).value] == Null)
    ensures res.Ok? && res.value.Some? ==>
      res.value.value == Typed(scope.entries[Resolve(scope, r).value].ctype, record[Resolve(scope, r).value].text)
  {
    match Resolve(scope, r)
    case Err(e) => Err(e)
    case Ok(i) =>
      if record[i] == Null then Ok(None)
      else Ok(Some(Typed(scope.entries[i].ctype, record[i].text)))
  }

  // ---------------------------------------------------------------------
  // Comparisons
  // ---------------------------------------------------------------------

  /** Python's `<` on strings: lexicographic by code point. */
  predicate LexLess(a: string, b: string)
  {
    if a == [] then b != []
    else if b == [] then false
    else if a[0] != b[0] then a[0] < b[0]
    else LexLess(a[1..], b[1..])
  }

  lemma {:induction false} LexLessIrreflexive(a: string)
    ensures !LexLess(a, a)
  {
    if a != [] { LexLessIrreflexive(a[1..]); }
  }

  /** Exactly one of `a < b`, `a == b`, `b < a` holds. */
  lemma {:induction false} LexTrichotomy(a: string, b: string)
    ensures LexLess(a, b) || a == b || LexLess(b, a)
    ensures !(LexLess(a, b) && LexLess(b, a))
    ensures a == b ==> !LexLess(a, b)
  {
    if a != [] && b != [] && a[0] == b[0] {
      LexTrichotomy(a[1..], b[1..]);
      if a[1..] == b[1..] { assert a == [a[0]] + a[1..] && b == [b[0]] + b[1..]; }
    }
    if a == b { LexLessIrreflexive(a); }
  }

  lemma {:induction false} LexLessTransitive(a: string, b: string, c: string)
    requires LexLess(a, b) && LexLess(b, c)
    ensures LexLess(a, c)
  {
    if a != [] && b != [] && c != [] && a[0] == b[0] && b[0] == c[0] {
      LexLessTransitive(a[1..], b[1..], c[1..]);
    }
  }

  /** The comparison operators on string operands, as Python applies them. */
  function ApplyOp(op: CompOp, a: string, b: string): bool
  {
    match op
    case Lt => LexLess(a, b)
    case Gt => LexLess(b, a)
    case Eq => a == b
    case Ge => LexLess(b, a) || a == b
    case Le => LexLess(a, b) || a == b
    case Ne => a != b
  }

  /** Each operator agrees with its complement: `>=` is `not <`, `<=` is
      `not >`, `<>` is `not =`. */
  lemma ApplyOpComplements(a: string, b: string)
    ensures ApplyOp(Ge, a, b) == !ApplyOp(Lt, a, b)
    ensures ApplyOp(Le, a, b) == !ApplyOp(Gt, a, b)
    ensures ApplyOp(Ne, a, b) == !ApplyOp(Eq, a, b)
    ensures ApplyOp(Lt, a, b) == ApplyOp(Gt, b, a)
  {
    LexTrichotomy(a, b);
  }

  /** A literal operand: its token class lower-cased is its tag, and STR
      becomes `char` with its quotes stripped. */
  function LitValue(l: CompLit): (v: Typed)
    ensures l.StrLit? ==> v == Typed(CharType, Unquote(l.text))
    ensures l.IntLit? ==> v == Typed(IntType, l.text)
    ensures l.DateLit? ==> v == Typed(DateType, l.text)
  {
    match l
    case IntLit(s) => Typed(IntType, s)
    case StrLit(s) => Typed(CharType, Unquote(s))
    case DateLit(s) => Typed(DateType, s)
  }

  /** An operand: `Ok(None)` when a column operand's cell is Null. */
  function OperandValue(record: Row, scope: Scope, o: Operand): Result<Option<Typed>>
    requires |scope.entries| <= |record|
  {
    match o
    case ColOperand(r) => GetVal(record, scope, r)
    case LitOperand(l) => Ok(Some(LitValue(l)))
  }

  /** Two non-null operands: incomparable tags raise, otherwise the operator
      decides. */
  function CompareValues(lv: Typed, op: CompOp, rv: Typed): Result<TV>
  {
    if lv.tag != rv.tag then Err(WhereIncomparableError)
    else Ok(FromBool(ApplyOp(op, lv.text, rv.text)))
  }

  /** `comparison_predicate`, intended version: a Null operand on either side
      makes the comparison Unknown. The left operand is resolved first, so a
      Null left cell leaves the right operand unresolved. */
  function CompareOperands(record: Row, scope: Scope, lo: Operand, op: CompOp, ro: Operand): Result<TV>
    requires |scope.entries| <= |record|
  {
    match OperandValue(record, scope, lo)
    case Err(e) => Err(e)
    case Ok(None) => Ok(Unknown)
    case Ok(Some(lv)) =>
      match OperandValue(record, scope, ro)
      case Err(e) => Err(e)
      case Ok(None) => Ok(Unknown)
      case Ok(Some(rv)) => CompareValues(lv, op, rv)
  }

  // ---------------------------------------------------------------------
  // Evaluation
  // ---------------------------------------------------------------------

  /** `check`: evaluates a predicate on one row. */
  function Eval(record: Row, scope: Scope, c: Cond): Result<TV>
    requires |scope.entries| <= |record|
    decreases c
  {
    match c
    case Or(ts) => EvalOr(record, scope, ts)
    case And(fs) => EvalAnd(record, scope, fs)
    case Not(x) =>
      (match Eval(record, scope, x)
       case Err(e) => Err(e)
       case Ok(v) => Ok(Not3(v)))
    case Paren(x) => Eval(record, scope, x)
    case Compare(lo, op, ro) => CompareOperands(record, scope, lo, op, ro)
    case IsNull(r, neg) =>
      (match GetVal(record, scope, r)
       case Err(e) => Err(e)
       case Ok(v) => Ok(FromBool(v.None? != neg)))
  }

  /** The loop of `boolean_expr`: returns True at the first True term; an
      error raised by a term before that aborts. */
  function EvalOr(record: Row, scope: Scope, ts: seq<Cond>): Result<TV>
    requires |scope.entries| <= |record|
    decreases ts
  {
    if ts == [] then Ok(False)
    else
      match Eval(record, scope, ts[0])
      case Err(e) => Err(e)
      case Ok(True) => Ok(True)
      case Ok(v) =>
        match EvalOr(record, scope, ts[1..])
        case Err(e) => Err(e)
        case Ok(w) => Ok(if w == True then True else if v == Unknown then Unknown else w)
  }

  /** The loop of `boolean_term`: returns False at the first False factor. */
  function EvalAnd(record: Row, scope: Scope, fs: seq<Cond>): Result<TV>
    requires |scope.entries| <= |record|
    decreases fs
  {
    if fs == [] then Ok(True)
    else
      match Eval(record, scope, fs[0])
      case Err(e) => Err(e)
      case Ok(False) => Ok(False)
      case Ok(v) =>
        match EvalAnd(record, scope, fs[1..])
        case Err(e) => Err(e)
        case Ok(w) => Ok(if w == False then False else if v == Unknown then Unknown else w)
  }

  /** When every term evaluates, OR is the three-valued disjunction of their values. */
  lemma {:induction false} EvalOrIsOr3(record: Row, scope: Scope, ts: seq<Cond>, vs: seq<TV>)
    requires |scope.entries| <= |record|
    requires |vs| == |ts|
    requires forall i :: 0 <= i < |ts| ==> Eval(record, scope, ts[i]) == Ok(vs[i])
    ensures EvalOr(record, scope, ts) == Ok(Or3(vs))
  {
    if ts != [] {
      EvalOrIsOr3(record, scope, ts[1..], vs[1..]);
      assert forall i :: 1 <= i < |vs| ==> vs[i] == vs[1..][i - 1];
    }
  }

  /** When every factor evaluates, AND is the three-valued conjunction of their values. */
  lemma {:induction false} EvalAndIsAnd3(record: Row, scope: Scope, fs: seq<Cond>, vs: seq<TV>)
    requires |scope.entries| <= |record|
    requires |vs| == |fs|
    requires forall i :: 0 <= i < |fs| ==> Eval(record, scope, fs[i]) == Ok(vs[i])
    ensures EvalAnd(record, scope, fs) == Ok(And3(vs))
  {
    if fs != [] {
      EvalAndIsAnd3(record, scope, fs[1..], vs[1..]);
      assert forall i :: 1 <= i < |vs| ==> vs[i] == vs[1..][i - 1];
    }
  }

  /** OR stops at the first True term: later terms are not evaluated, so
      whatever they would raise is never raised. */
  lemma {:induction false} EvalOrShortCircuit(record: Row, scope: Scope, ts: seq<Cond>, k: nat)
    requires |scope.entries| <= |record|
    requires k < |ts| && Eval(record, scope, ts[k]) == Ok(True)
    requires forall i :: 0 <= i < k ==> Eval(record, scope, ts[i]).Ok?
    ensures EvalOr(record, scope, ts) == Ok(True)
  {
    if k > 0 {
      EvalOrShortCircuit(record, scope, ts[1..], k - 1);
    }
  }

  /** AND stops at the first False factor. */
  lemma {:induction false} EvalAndShortCircuit(record: Row, scope: Scope, fs: seq<Cond>, k: nat)
    requires |scope.entries| <= |record|
    requires k < |fs| && Eval(record, scope, fs[k]) == Ok(False)
    requires forall i :: 0 <= i < k ==> Eval(record, scope, fs[i]).Ok?
    ensures EvalAnd(record, scope, fs) == Ok(False)
  {
    if k > 0 {
      EvalAndShortCircuit(record, scope, fs[1..], k - 1);
    }
  }

  /** NOT keeps Unknown and flips a definite value; a parenthesised
      predicate is its inner predicate. */
  lemma NotAndParen(record: Row, scope: Scope, c: Cond)
    requires |scope.entries| <= |record|
    ensures Eval(record, scope, Not(c)).Ok? <==> Eval(record, scope, c).Ok?
    ensures Eval(record, scope, c) == Ok(Unknown) ==> Eval(record, scope, Not(c)) == Ok(Unknown)
    ensures Eval(record, scope, c) == Ok(True) ==> Eval(record, scope, Not(c)) == Ok(False)
    ensures Eval(record, scope, c) == Ok(False) ==> Eval(record, scope, Not(c)) == Ok(True)
    ensures Eval(record, scope, Paren(c)) == Eval(record, scope, c)
  {
  }

  /** A comparison whose left column operand is a Null cell is Unknown,
      whatever the right operand is. */
  lemma {:induction false} NullLeftIsUnknown(record: Row, scope: Scope, r: ColRef, op: CompOp, ro: Operand)
    requires |scope.entries| <= |record|
    requires Resolve(scope, r).Ok? && record[Resolve(scope, r).value] == Null
    ensures Eval(record, scope, Compare(ColOperand(r), op, ro)) == Ok(Unknown)
  {
  }

  /** In the intended version, a Null right column operand also gives Unknown. */
  lemma {:induction false} NullRightIsUnknown(record: Row, scope: Scope, lo: Operand, op: CompOp, r: ColRef)
    requires |scope.entries| <= |record|
    requires OperandValue(record, scope, lo).Ok? && OperandValue(record, scope, lo).value.Some?
    requires Resolve(scope, r).Ok? && record[Resolve(scope, r).value] == Null
    ensures Eval(record, scope, Compare(lo, op, ColOperand(r))) == Ok(Unknown)
  {
  }

  /** Non-null operands with different tags (STR counting as `char`) raise
      `WhereIncomparableError`; with equal tags the result is definite and
      is the operator applied to the two texts. */
  lemma ComparisonTags(record: Row, scope: Scope, lo: Operand, op: CompOp, ro: Operand)
    requires |scope.entries| <= |record|
    requires OperandValue(record, scope, lo).Ok? && OperandValue(record, scope, lo).value.Some?
    requires OperandValue(record, scope, ro).Ok? && OperandValue(record, scope, ro).value.Some?
    ensures var lv := OperandValue(record, scope, lo).value.value;
            var rv := OperandValue(record, scope, ro).value.value;
            && (lv.tag != rv.tag ==> Eval(record, scope, Compare(lo, op, ro)) == Err(WhereIncomparableError))
            && (lv.tag == rv.tag ==> Eval(record, scope, Compare(lo, op, ro)) == Ok(FromBool(ApplyOp(op, lv.text, rv.text))))
  {
  }

  /** IS [NOT] NULL never gives Unknown: it tells whether the cell is Null,
      negated by NOT. */
  lemma NullTestIsDefinite(record: Row, scope: Scope, r: ColRef, neg: bool)
    requires |scope.entries| <= |record|
    ensures Eval(record, scope, IsNull(r, neg)).Ok? <==> Resolve(scope, r).Ok?
    ensures Eval(record, scope, IsNull(r, neg)).Ok? ==>
      Eval(record, scope, IsNull(r, neg)) ==
        Ok(FromBool((record[Resolve(scope, r).value] == Null) != neg))
    ensures Eval(record, scope, IsNull(r, neg)) != Ok(Unknown)
  {
  }

  // ---------------------------------------------------------------------
  // The code as written
  // ---------------------------------------------------------------------

  /** `get_val`'s lookup as written. Line 350 tests `len(tbl_col) == 2`,
      which is also true of a bare column name of two characters, and line
      351 then reads `self.tbl_names`, an attribute nothing assigns (the
      queried tables are kept in `queried_tbls`): both raise before any
      lookup. */
  function ResolveAsWritten(scope: Scope, r: ColRef): (res: Result<nat>)
    ensures r.table.None? && |r.column| != 2 ==> res == Resolve(scope, r)
  {
    if r.table.Some? || |r.column| == 2 then Err(RuntimeFault)
    else Resolve(scope, r)
  }

  /** Every qualified operand faults as written, even one that names a
      queried table and one of its columns. */
  lemma QualifiedOperandFaultsAsWritten()
    ensures var scope := Scope(["emp"], [Entry(Ref("emp", "dept"), IntType)]);
            && ResolveAsWritten(scope, ColRef(Some("emp"), "dept")) == Err(RuntimeFault)
            && Resolve(scope, ColRef(Some("emp"), "dept")) == Ok(0)
  {
    var scope := Scope(["emp"], [Entry(Ref("emp", "dept"), IntType)]);
    assert FindKey(scope.entries, Ref("emp", "dept")) == Some(0);
  }

  /** A bare two-letter column name such as `id` faults as written although
      it names exactly one column. */
  lemma TwoLetterColumnFaultsAsWritten()
    ensures var scope := Scope(["dept"], [Entry(Ref("dept", "id"), IntType)]);
            && ResolveAsWritten(scope, ColRef(None, "id")) == Err(RuntimeFault)
            && Resolve(scope, ColRef(None, "id")) == Ok(0)
  {
    var scope := Scope(["dept"], [Entry(Ref("dept", "id"), IntType)]);
    assert CountColumn(scope.entries[1..], "id") == 0;
    assert CountColumn(scope.entries, "id") == 1;
  }

  /** `comparison_predicate` as written: line 422 tests `lo is None` where
      `ro` is meant, so a Null right column cell is then subscripted and
      raises instead of giving Unknown. */
  function CompareAsWritten(record: Row, scope: Scope, lo: Operand, op: CompOp, ro: Operand): (res: Result<TV>)
    requires |scope.entries| <= |record|
    ensures OperandValue(record, scope, ro).Ok? && OperandValue(record, scope, ro).value.Some? ==>
      res == CompareOperands(record, scope, lo, op, ro)
  {
    match OperandValue(record, scope, lo)
    case Err(e) => Err(e)
    case Ok(None) => Ok(Unknown)
    case Ok(Some(lv)) =>
      match OperandValue(record, scope, ro)
      case Err(e) => Err(e)
      case Ok(None) => Err(RuntimeFault)
      case Ok(Some(rv)) => CompareValues(lv, op, rv)
  }

  /** `1 < num` on a row whose `num` cell is Null faults as written and is
      Unknown in the intended version. */
  lemma NullRightOperandFaultsAsWritten()
    ensures var scope := Scope(["t"], [Entry(Ref("t", "num"), IntType)]);
            var lo := LitOperand(IntLit("1"));
            var ro := ColOperand(ColRef(None, "num"));
            && CompareAsWritten([Null], scope, lo, Lt, ro) == Err(RuntimeFault)
            && CompareOperands([Null], scope, lo, Lt, ro) == Ok(Unknown)
  {
    var scope := Scope(["t"], [Entry(Ref("t", "num"), IntType)]);
    assert CountColumn(scope.entries[1..], "num") == 0;
    assert CountColumn(scope.entries, "num") == 1;
  }
}
