/**
 * The data model of the relational engine: errors, column descriptors, stored
 * values, rows, tables and the catalog that maps table names to tables.
 */
module Types {

  /** The exceptions the engine raises. `RuntimeFault` stands for a Python
      runtime exception (KeyError, IndexError, TypeError, ValueError,
      AttributeError) that aborts a statement without a diagnostic of its own. */
  datatype Error =
    | TableExistenceError
    | DuplicateColumnDefError
    | CharLengthError
    | DuplicatePrimaryKeyDefError
    | NonExistingColumnDefError
    | ReferenceTableExistenceError
    | ReferenceColumnExistenceError
    | ReferenceNonPrimaryKeyError
    | ReferenceTypeError
    | NoSuchTable
    | DropReferencedTableError
    | SelectTableExistenceError
    | InsertTypeMismatchError
    | InsertColumnNonNullableError
    | InsertColumnExistenceError
    | InsertDuplicatePrimaryKeyError
    | WhereIncomparableError
    | WhereTableNotSpecified
    | WhereColumnNotExist
    | InsertReferentialIntegrityError
    | SelectColumnResolveError
    | WhereAmbiguousReference
    | RuntimeFault

  datatype Option<T> = None | Some(value: T)

  datatype Result<T> = Ok(value: T) | Err(error: Error)

  /** The declared type of a column: `int`, `char` or `date`. */
  datatype ColType = IntType | CharType | DateType

  /** The stored column descriptor `[type, size, notNull, isPK, isFK]`;
      `size` is the CHAR length and 0 for the other types. */
  datatype Column = Column(ctype: ColType, size: int, notNull: bool, isPK: bool, isFK: bool)

  /** A stored cell: Python's `None`, or the text of the value. INT and DATE
      cells hold the literal's token text; CHAR cells hold the unquoted,
      truncated string. */
  datatype Value = Null | Val(text: string)

  type Row = seq<Value>

  /** A (table, column) pair: a foreign-key target, an inverse-reference entry
      or a key of the column dictionary that WHERE and SELECT resolve against. */
  datatype Ref = Ref(table: string, column: string)

  /** A stored table document. `names` is the key order of the `cols`
      dictionary; the primary-key columns are a set because the source builds
      them in a Python set and stores `list(set)`, whose order is arbitrary. */
  datatype Table = Table(
    names: seq<string>,
    cols: map<string, Column>,
    pks: set<string>,
    fors: map<string, Ref>,
    invrefs: map<string, seq<Ref>>,
    data: seq<Row>)

  type Catalog = map<string, Table>

  /** The empty table the session starts every CREATE with. */
  const EmptyTable: Table := Table([], map[], {}, map[], map[], [])

  predicate Distinct<T(==)>(s: seq<T>)
  {
    forall i, j :: 0 <= i < j < |s| ==> s[i] != s[j]
  }

  /** The position of `x` in `s` (Python's `list.index`). */
  function IndexOf<T(==)>(s: seq<T>, x: T): (i: nat)
    requires x in s
    ensures i < |s| && s[i] == x
    ensures forall j :: 0 <= j < i ==> s[j] != x
  {
    if s[0] == x then 0 else 1 + IndexOf(s[1..], x)
  }

  lemma IndexOfDistinct<T>(s: seq<T>, i: nat)
    requires Distinct(s) && i < |s|
    ensures IndexOf(s, s[i]) == i
  {
  }

  /** A table is well formed when its column order lists each column of the
      dictionary once and every row is as wide as the column list. */
  predicate WellFormed(t: Table)
  {
    && Distinct(t.names)
    && (forall n :: n in t.names ==> n in t.cols)
    && (forall n :: n in t.cols ==> n in t.names)
    && (forall r :: r in t.data ==> |r| == |t.names|)
  }

  predicate CatalogWF(cat: Catalog)
  {
    forall n :: n in cat ==> WellFormed(cat[n])
  }

  /** Does some row of `data` hold `v` at position `i`? */
  predicate Occurs(data: seq<Row>, i: nat, v: Value)
  {
    exists r :: r in data && i < |r| && r[i] == v
  }

  /** Does some row of `rt` hold `v` at column `c`? */
  predicate Holds(rt: Table, c: string, v: Value)
    requires c in rt.names
  {
    Occurs(rt.data, IndexOf(rt.names, c), v)
  }

  /** `s[1:-1]` in Python: strips the first and the last character. Putting
      them back gives `s` again; a text shorter than two characters becomes
      empty. */
  function Unquote(s: string): (r: string)
    ensures |s| >= 2 ==> |r| == |s| - 2 && [s[0]] + r + [s[|s| - 1]] == s
    ensures |s| < 2 ==> r == []
  {
    if |s| < 2 then [] else s[1..|s| - 1]
  }

  /** `s[:n]` in Python for `n >= 0`: truncates, never pads. */
  function Truncate(s: string, n: int): (r: string)
    ensures n >= 0 ==> |r| <= n
    ensures r <= s
    ensures |s| <= n ==> r == s
  {
    if n < 0 then s[..if |s| + n < 0 then 0 else |s| + n]
    else if |s| <= n then s else s[..n]
  }
}
