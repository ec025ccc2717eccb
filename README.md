# A verified model of the relational engine of `parser.py`

`parser.py` is a small relational database. A lark grammar turns each SQL
statement into a tree. A lark `Transformer` then executes the statement
against a Berkeley DB hash file, where every table is stored as a JSON
document.

This project models the part of that transformer that does the work:
- CREATE TABLE with its column, PRIMARY KEY and FOREIGN KEY elements;
- DROP TABLE;
- INSERT with its type, NOT NULL, primary-key and foreign-key checks;
- the three-valued WHERE evaluator (`get_val`, `check`);
- the inverse-reference test `inv_ref`;
- DELETE, with and without a predicate;
- SELECT through the Cartesian product (`add_recs`), the WHERE filter and the
  projection, up to where the result is printed.

The modules are:

- `Types` (types.dfy): the stored data.
  - A `Table` holds the column order `names`, the column descriptors
    `cols`, the primary-key set `pks`, the foreign keys `fors`, the inverse
    references `invrefs` and the rows `data`.
  - A `Catalog` maps table names to tables and stands for the DB file.
  - A cell is `Null` or `Val(text)`. INT and DATE cells keep their token
    text, as the source stores them.
  - `Error` has one case per exception class, plus `RuntimeFault` for a
    Python runtime exception.
- `ThreeValued` (logic.dfy): `True`/`False`/`Unknown` with NOT, OR and AND.
- `Where` (where.dfy): WHERE predicates, the column dictionary (`Scope`),
  the resolution of column operands, and the evaluator `Eval`.
- `Schema` (schema.dfy): CREATE elements on a draft table, the
  inverse-reference registration, CREATE and DROP as functions.
- `Insert` (insert.dfy): the INSERT statement as a function.
- `Delete` (delete.dfy): `inv_ref` and DELETE as functions, with the
  reference definition `Referenced`.
- `Select` (select.dfy): the product, the filter, the item resolution and the
  projection as functions, with `Product` as the reference for `add_recs`.
- `Engine` (engine.dfy): the imperative code.
  - The loops of the source are methods with invariants, each proved equal
    to the specification function above (`ensures r == InsertStatement(...)`).
  - The class `Session` holds the database (`store`) and the state of the
    CREATE being parsed (`newTable`, `add_invs`). It has one method per
    statement and per CREATE element.
  - Each `Session` method states its new state by the statement functions.
    It keeps `Valid()`: every stored table is well formed and the draft is a
    valid table.

In these places the model follows the code as written:
- A NULL value into a foreign-key column is rejected. The referential scan
  at parser.py:322-334 compares the Null value too, and a primary-key column
  never holds Null.
- INT and DATE values are compared as strings, lexicographically by code
  point. `comparison_predicate` compares the token texts.
- In `referential_constraint` the column-count check (parser.py:162) comes
  before the referenced-table check (parser.py:166).

Four places in the code are evidently not what its authors intended; they
are listed under Findings below. For each, one member models the code as
written and shows the discrepancy on a concrete input. Every statement-level
member (`Where.Eval`, `Schema.CreateTable`, `Delete.DeleteStatement`,
`Select.SelectStatement` and the `Session` methods) models the program with
those four places corrected. So on the inputs the Findings name, the model
answers where the program raises:
- `DELETE FROM emp WHERE emp.dept = 1` evaluates its predicate in the model; the program
  faults at parser.py:351.
- `DELETE FROM dept WHERE id = 1` evaluates its predicate in the model; the program faults at
  parser.py:350-351.
- `1 < num` on a Null `num` is Unknown in the model; the program faults at
  parser.py:422-428.
- After a second foreign key to the same column, the model records the new
  table as the referencer. The program records the referenced table by
  mistake (parser.py:102); a later DELETE on the referenced table can then
  raise ValueError at parser.py:454.

## Model

| member | source | states |
|---|---|---|
| ThreeValued.Not3 | parser.py:398-402 | NOT maps Unknown to Unknown and swaps True and False, both directions |
| ThreeValued.Or3 | parser.py:376-383 | OR is True iff some operand is True, False iff all are False, Unknown otherwise |
| ThreeValued.And3 | parser.py:385-392 | AND is False iff some operand is False, True iff all are True, Unknown otherwise |
| ThreeValued.DeMorgan | parser.py:376-402 | NOT of an OR equals the AND of the NOTs, in three-valued logic |
| ThreeValued.UnknownLaws | parser.py:376-402 | NOT Unknown is Unknown; Unknown AND True is Unknown; Unknown OR True is True; Unknown OR False is Unknown |
| Types.IndexOf | parser.py:326 | `list.index`: the first position that holds the value |
| Types.Unquote | parser.py:316 | `s[1:-1]` is two characters shorter, and putting the first and the last character back gives `s`; shorter text becomes empty |
| Types.Truncate | parser.py:316 | `s[:n]` is a prefix of `s`, at most `n` long, and all of `s` when `s` is short enough |
| Where.TableEntries | parser.py:476 | one dictionary key per column of the table, in column order, with the column type; no key occurs twice |
| Where.FindKey | parser.py:371 | `list(tbl_cols).index(key)`: the first position of the key, or none when it is absent |
| Where.FindColumn | parser.py:361-363 | the first key with that column name, or none when no key has it |
| Where.CountColumnZero | parser.py:360-369 | the count of keys with a column name is zero iff no key has that name |
| Where.CountColumnOne | parser.py:360-369 | the count is one iff the key at `i` is the only one with that name |
| Where.Resolve | parser.py:349-371 | a resolved operand names a dictionary position holding its column; a failure is one of the three WHERE resolution errors |
| Where.ResolveQualified | parser.py:351-358 | `t.c` fails with `WhereTableNotSpecified` iff `t` is not queried; a queried `t` fails with `WhereColumnNotExist` iff the key is absent; a success is the key's first position |
| Where.ResolveUnqualified | parser.py:359-371 | a bare `c` resolves to `i` iff exactly one key has column `c` and it sits at `i`; no key gives `WhereColumnNotExist`; two or more give `WhereAmbiguousReference` |
| Where.GetVal | parser.py:349-373 | `get_val` succeeds iff the operand resolves, gives None exactly when the cell is Null, and otherwise the column's declared type with the cell text |
| Where.LexLessIrreflexive | parser.py:434-439 | no string is below itself under Python's string order |
| Where.LexTrichotomy | parser.py:434-439 | exactly one of `a < b`, `a == b`, `b < a` holds |
| Where.LexLessTransitive | parser.py:434-439 | the string order is transitive |
| Where.ApplyOpComplements | parser.py:434-439 | `>=` is not `<`, `<=` is not `>`, `<>` is not `=`, and `a < b` is `b > a` |
| Where.LitValue | parser.py:419-428 | a STR literal becomes `char` with its quotes removed; INT and DATE keep their text and tags |
| Where.EvalOrIsOr3 | parser.py:376-383 | when every term evaluates, `boolean_expr` is the three-valued OR of the term values |
| Where.EvalAndIsAnd3 | parser.py:385-392 | when every factor evaluates, `boolean_term` is the three-valued AND of the factor values |
| Where.EvalOrShortCircuit | parser.py:378-380 | after a True term the OR is True, even when a later term would raise |
| Where.EvalAndShortCircuit | parser.py:387-389 | after a False factor the AND is False, even when a later factor would raise |
| Where.NotAndParen | parser.py:394-405 | NOT keeps Unknown and errors and flips definite values; parentheses change nothing |
| Where.NullLeftIsUnknown | parser.py:414-417 | a comparison whose left column cell is Null is Unknown |
| Where.NullRightIsUnknown | parser.py:420-423 | with the intended test, a comparison whose right column cell is Null is Unknown |
| Where.ComparisonTags | parser.py:427-439 | two non-null operands raise `WhereIncomparableError` iff their tags differ (STR counting as `char`); otherwise the result is the operator applied to the texts |
| Where.NullTestIsDefinite | parser.py:441-446 | IS [NOT] NULL evaluates iff the column resolves, tells whether the cell is Null (negated for IS NOT NULL), and is never Unknown |
| Where.ResolveAsWritten | parser.py:349-351 | the lookup as written agrees with `Resolve` on bare names whose length is not 2 |
| Where.QualifiedOperandFaultsAsWritten | parser.py:351 | as written, `emp.dept` faults although `emp` is queried and has column `dept` |
| Where.TwoLetterColumnFaultsAsWritten | parser.py:350-351 | as written, the bare two-letter column `id` faults although exactly one queried table has it |
| Where.CompareAsWritten | parser.py:410-439 | the comparison as written agrees with the intended one whenever the right operand is not a Null cell |
| Where.NullRightOperandFaultsAsWritten | parser.py:420-429 | as written, `1 < num` on a row whose `num` is Null faults; the intended version gives Unknown |
| Schema.AddColumnErrors | parser.py:112-131 | a repeated column name is `DuplicateColumnDefError`; a CHAR length below 1 is `CharLengthError`; the column is accepted iff neither holds |
| Schema.AddColumnSpec | parser.py:127-131 | an accepted column is appended to the column order with descriptor `[type, size, notNull, False, False]`; nothing else changes |
| Schema.AddColumnValid | parser.py:112-131 | an accepted column keeps a valid draft valid |
| Schema.MarkPrimary | parser.py:142-149 | the listed columns become NOT NULL and PK and join `pks`; the other columns and the rest of the table are unchanged |
| Schema.MarkPrimaryStep | parser.py:142-149 | marking one more listed key marks it on top of the marks of the keys before it |
| Schema.AddPrimaryKeySpec | parser.py:135-149 | a second PK constraint is `DuplicatePrimaryKeyDefError`; an undefined column is `NonExistingColumnDefError`; otherwise the keys are marked |
| Schema.PairsErrorNone | parser.py:174-189 | no pair fails iff every pair passes the column, type and primary-key checks |
| Schema.MarkForeign | parser.py:188-189 | flagging FK columns changes only the FK flags and `fors` |
| Schema.MarkForeignCols | parser.py:189 | exactly the local columns become FK; nothing else in any column changes |
| Schema.MarkForeignFors | parser.py:188 | the local columns, and only they, gain `fors` entries naming the referenced table |
| Schema.MarkForeignForsLast | parser.py:188 | each local column maps to the referenced column of its last pair |
| Schema.AddForeignKeyAccepted | parser.py:151-196 | a foreign key is accepted iff its local columns exist, the lists are equally long, the referenced table exists, every pair passes, and the referenced columns cover the referenced primary key |
| Schema.AddForeignKeyMarks | parser.py:172-196 | an accepted key flags its local columns FK with targets in the referenced table and queues `[ref_tbl_name, ref_cols, here_cols]` |
| Schema.MarkPrimaryValid | parser.py:142-149 | marking primary keys keeps a draft valid |
| Schema.MarkPrimaryFlags | parser.py:147-149 | after marking, the PK flags agree with `pks` |
| Schema.MarkForeignValid | parser.py:188-189 | flagging foreign keys keeps a draft valid |
| Schema.ElementStepQueues | parser.py:108-198 | an element step appends to `add_invs` exactly the element's registration, if it has one |
| Schema.ElementStepValid | parser.py:108-198 | an element step keeps the draft valid, and its queued registration names an existing table |
| Schema.BuildDraftValid | parser.py:108-198 | an accepted element list yields a valid draft whose registrations name existing tables |
| Schema.BuildDraftQueues | parser.py:196 | each FOREIGN KEY element of an accepted list has its registration queued |
| Schema.Zip | parser.py:98 | `zip` pairs the lists position by position and stops at the shorter one |
| Schema.AddReferencers | parser.py:98-102 | the registration adds exactly the referenced columns as keys |
| Schema.AddReferencerAppends | parser.py:99-102 | recording one referencer only appends a referencer of the new table |
| Schema.AddReferencersAppends | parser.py:98-102 | the inner loop keeps every existing list as a prefix and appends only referencers of the new table |
| Schema.AddReferencersRecords | parser.py:98-102 | every (referenced, local) pair ends up recorded as a referencer of the new table |
| Schema.Register | parser.py:95-103 | the registration keeps the table names and changes only inverse references |
| Schema.RegisterUntouched | parser.py:95-103 | a table that no queued entry references is left exactly as it was |
| Schema.RegisterAppends | parser.py:95-103 | no inverse reference is lost |
| Schema.RecordedKept | parser.py:95-103 | appending to inverse-reference lists keeps every recorded pair |
| Schema.RegisterOneRecords | parser.py:96-103 | registering an entry records all of its pairs |
| Schema.RegisterOneKeeps | parser.py:96-103 | registering an entry keeps what earlier entries recorded |
| Schema.RegisterRecords | parser.py:95-103 | every queued entry ends up recorded on its referenced table |
| Schema.DropTableSpec | parser.py:200-214 | DROP succeeds iff the table exists and has no inverse references; a referenced table is `DropReferencedTableError`; success removes exactly that table |
| Schema.CreateWithForeignKeyBlocksDrop | parser.py:95-103 | after a CREATE with a foreign key to `rt`, dropping `rt` is `DropReferencedTableError` |
| Schema.CreateStatementStores | parser.py:85-103 | a successful CREATE stores the draft, with no rows, under a name that was free; the other tables keep everything but their inverse references |
| Schema.AddReferencerAsWritten | parser.py:99-102 | line 102 as written agrees with the intended registration for a column with no referencer yet |
| Schema.SecondReferencerMisrecordedAsWritten | parser.py:102 | as written, a second referencer of `dept.id` from table `emp2` is recorded as `(dept, d)` |
| Insert.Scatter | parser.py:290-294 | `values_ordered` is exactly as wide as the table |
| Insert.AssignedUnmentioned | parser.py:291-293 | a column missing from the explicit list is Null |
| Insert.AssignedLastMention | parser.py:292-293 | a column listed more than once gets the value of its last mention |
| Insert.Convert | parser.py:302-335 | the converted row of `k` columns has `k` cells |
| Insert.ConvertSpec | parser.py:302-335 | the column loop succeeds iff every column passes, and each cell is its column's converted value |
| Insert.ConvertFirstError | parser.py:302-335 | a failing column loop fails with the error of the first failing column |
| Insert.LiteralRow | parser.py:280-299 | the literal row is exactly as wide as the table |
| Insert.InsertAppendsOneRow | parser.py:337-339 | a successful INSERT appends exactly one full-width row to the named table and changes nothing else |
| Insert.InsertKeepsWellFormed | parser.py:337-339 | a successful INSERT keeps every table well formed |
| Insert.AppendKeepsWellFormed | parser.py:337 | appending a full-width row keeps the catalog well formed |
| Insert.InsertErrors | parser.py:275-299 | no table is `NoSuchTable`; an unknown listed column is `InsertColumnExistenceError`; a length mismatch is `InsertTypeMismatchError`, in the source's order |
| Insert.ExplicitListScatter | parser.py:290-294 | an unmentioned column is checked as Null; a mentioned column gets its last value |
| Insert.CheckLiteralSpec | parser.py:303-316 | Null is refused iff the column is NOT NULL; a class mismatch is refused iff the literal is not Null; a CHAR value is unquoted and truncated; other values keep their text |
| Insert.DuplicatePrimaryKeyRejected | parser.py:317-321 | a PK value some row already holds in that column is `InsertDuplicatePrimaryKeyError` |
| Insert.ForeignKeyChecked | parser.py:322-334 | an FK value absent from the referenced column is `InsertReferentialIntegrityError` |
| Insert.NullForeignKeyRejected | parser.py:304-334 | a Null in a nullable FK column is `InsertReferentialIntegrityError` when no referenced row holds Null |
| Insert.PrimaryKeyCheckedPerColumn | parser.py:317-321 | with a two-column key, a row sharing only one key column with an existing row is refused |
| Delete.HitInSpec | parser.py:452-457 | the referencer scan of one cell answers whether some referencing table holds the value in the referencing column |
| Delete.InvRefFromSpec | parser.py:448-458 | `inv_ref` from position `k` on answers exactly the reference definition `Referenced` |
| Delete.InvRefSpec | parser.py:448-458 | `inv_ref` is True iff some cell of the row is held by some referencing column |
| Delete.TableScope | parser.py:475-476 | a DELETE's predicate sees only its table, one key per column |
| Delete.Fates | parser.py:482-488 | the row loop gives one fate per row |
| Delete.SurvivorsSnoc | parser.py:482-488 | one more row is appended to `new_data` unless it is removed |
| Delete.CountFateSnoc | parser.py:485-487 | one more fate adds one to its own counter only |
| Delete.ClassifySpec | parser.py:483-488 | a row is kept when its predicate is not True, blocked when True and referenced, removed when True and not referenced; an error of either aborts |
| Delete.FatesLast | parser.py:482-488 | the loop over all rows is the loop over the prefix followed by the last row |
| Delete.FatesOk | parser.py:482-488 | the row loop succeeds iff every row classifies |
| Delete.FatesValues | parser.py:482-488 | each row's fate is its classification |
| Delete.FatesFirstError | parser.py:482-488 | a failing loop fails with the error of the first failing row |
| Delete.CountFatesPartition | parser.py:482-488 | kept, removed and blocked rows add up to all rows |
| Delete.SurvivorsLength | parser.py:488-490 | `new_data` has one row fewer per removed row |
| Delete.SurvivorsSubset | parser.py:488-490 | `new_data` holds only rows of the table, each at most as often |
| Delete.SurvivorsKeep | parser.py:488 | every row not removed survives |
| Delete.SurvivorsOrdered | parser.py:488 | survivors keep their relative order |
| Delete.SurvivorsFrom | parser.py:483-488 | every survivor is a row of the table whose fate is not removal |
| Delete.DeletedPlusBlockedIsMatched | parser.py:482-487 | `count + inv_refs` is the number of rows whose predicate is True |
| Delete.BulkDeleteClears | parser.py:468-472 | DELETE without WHERE empties the table, reports every row, blocks nothing and changes no other table |
| Delete.PredicatedDeleteSpec | parser.py:474-496 | a predicated DELETE changes only its table's rows, keeps the other tables and reports removed and blocked rows |
| Delete.PredicatedDeleteWellFormed | parser.py:490-492 | a predicated DELETE keeps the catalog well formed |
| Delete.FateOfRow | parser.py:483-488 | a row's fate is Keep, Block or Remove exactly as its predicate and `inv_ref` decide |
| Delete.PredicatedDeleteKeeps | parser.py:483-488 | a row that does not match, or matches but is referenced, is still in the table |
| Delete.PredicatedDeleteRemoves | parser.py:483-487 | a row that matches and is not referenced is removed: no row equal to it is left in the stored table |
| Select.Extend | parser.py:522 | `curr + record` in front of each row, in order |
| Select.ExtendAppend | parser.py:521-522 | prefixing distributes over concatenation |
| Select.ExtendExtend | parser.py:522 | prefixing twice prefixes by the joined prefix |
| Select.ExtendEmpty | parser.py:541 | the empty starting prefix changes nothing |
| Select.RecsIsProduct | parser.py:517-522 | the depth-first recursion of `add_recs` yields the product rows behind `curr`, in order |
| Select.RecsOverIsProduct | parser.py:521-522 | the row loop of `add_recs` yields the product of the first table with the rest |
| Select.ProductOverSize | parser.py:521-522 | one product level has `|first| * |rest|` rows |
| Select.ProductSize | parser.py:517-522 | `add_recs` yields the product of the tables' row counts |
| Select.ProductOverComplete | parser.py:521-522 | every row of the first table joined to every rest row is a product row |
| Select.ProductOverSound | parser.py:521-522 | every product row is a row of the first table joined to a rest row |
| Select.ProductComplete | parser.py:517-522 | every choice of one row per table, joined in FROM order, is a product row |
| Select.ProductSound | parser.py:517-522 | every product row is a choice of one row per table joined in FROM order |
| Select.PickWidth | parser.py:522 | a chosen combination is as wide as the tables together |
| Select.ProductWidth | parser.py:517-522 | every product row is as wide as the tables together |
| Select.AddEntries | parser.py:537-538 | dictionary insertion keeps the existing keys as a prefix |
| Select.AddEntriesKeys | parser.py:537-538 | after insertion a key is present iff it was present or was inserted |
| Select.HasKeySnoc | parser.py:537-538 | a key is in a list iff it is in the front or is the last key |
| Select.AddEntryKeys | parser.py:538 | one insertion adds exactly the inserted key and keeps an existing key's place |
| Select.Widths | parser.py:531-536 | one width per FROM table |
| Select.WidthsAt | parser.py:531-536 | the width of FROM table `i` is its column count |
| Select.SumSnoc | parser.py:531-536 | the sum of widths grows by the last width |
| Select.FromValidPrefix | parser.py:531-536 | a prefix of a valid FROM list is valid |
| Select.FromValidSnoc | parser.py:531-536 | one more existing, well-formed FROM table keeps the list valid |
| Select.DictionarySnoc | parser.py:531-538 | the dictionary of one more table adds that table's keys |
| Select.TableEntriesKeys | parser.py:537-538 | one table gives `(t, c)` iff `t` is its name and `c` one of its columns |
| Select.DictionaryKeys | parser.py:529-538 | the dictionary has `(t, c)` iff `t` is a FROM table and `c` one of its columns |
| Select.DictionarySize | parser.py:529-538 | the dictionary is never longer than the tables' widths together |
| Select.DatasSnoc | parser.py:536 | one more FROM table appends its rows |
| Select.ProductCoversDictionary | parser.py:541-549 | every product row is at least as wide as the dictionary, so WHERE never reads past a row |
| Select.Filter | parser.py:547-552 | the filter keeps only rows of the input whose predicate is True |
| Select.FilterComplete | parser.py:547-552 | every row whose predicate is True survives the filter |
| Select.ResolveItem | parser.py:557-584 | a resolved item is a dictionary position; a failure is `SelectColumnResolveError` |
| Select.ResolveItems | parser.py:555-584 | `sel_order` has one position per item, each inside the dictionary |
| Select.ResolveItemSpec | parser.py:569-584 | `t.c` resolves iff `t` is a FROM table with column `c`, to the key's position; a bare `c` resolves iff exactly one key has column `c`, to that key's position |
| Select.ResolveItemsSpec | parser.py:555-584 | the item loop succeeds iff every item resolves, with each position the item's own |
| Select.ResolveItemsError | parser.py:570-582 | a failing item loop fails with `SelectColumnResolveError` |
| Select.Candidates | parser.py:540-552 | every candidate row is a product row at least as wide as the dictionary |
| Select.SelectMissingTable | parser.py:531-534 | a missing FROM table is `SelectTableExistenceError`, whatever follows |
| Select.SelectWithoutWhere | parser.py:540-554 | without WHERE, the answer has one row per combination of rows of the FROM tables, and `SELECT *` returns exactly the product rows |
| Select.ProjectionSpec | parser.py:586-593 | each header is the item's key renamed by its alias, and each output row is the projected input row |
| Select.SelectProjects | parser.py:554-593 | an unresolvable item list is `SelectColumnResolveError`; otherwise the answer is the projection of the candidates |
| Select.SelectWhere | parser.py:543-552 | with WHERE, a product row is a candidate iff its predicate is True |
| Engine.ScanColumn | parser.py:318-331 | the row scan finds `v` iff some row holds it at position `i` |
| Engine.ConvertErrorKept | parser.py:302-335 | once a column fails, the loop's result stays that failure |
| Engine.PairsErrorFirst | parser.py:174-189 | the error of the first failing pair is the result of the pair scan |
| Engine.RegisterKeepsWellFormed | parser.py:95-103 | the registration keeps every table well formed |
| Engine.ScatterValues | parser.py:290-294 | the `values_ordered` loop builds `Scatter` |
| Engine.CheckPair | parser.py:175-186 | the checks on one pair give `PairError` |
| Engine.MarkForeignSnoc | parser.py:174-189 | flagging one more pair extends the flagged prefix by that pair |
| Engine.MarkKeys | parser.py:142-149 | the key loop fails with `NonExistingColumnDefError` iff a listed column is undefined, and otherwise marks the keys |
| Engine.MarkPairs | parser.py:174-189 | the pair loop gives the first pair error, or the flagged table and the set of referenced columns it covered |
| Engine.AddPairs | parser.py:98-102 | the inner registration loop builds `AddReferencers` |
| Engine.RegisterPending | parser.py:95-103 | the outer registration loop builds `Register` |
| Engine.ColumnsExist | parser.py:281-284 | the check passes iff every listed column exists |
| Engine.LiteralValues | parser.py:280-299 | the explicit-list checks and the scatter build `LiteralRow` |
| Engine.FatesErrorKept | parser.py:482-488 | once a row fails, the row loop's result stays that failure |
| Engine.FatesStepError | parser.py:482-488 | a row that fails to classify aborts the row loop with its error |
| Engine.FatesSnoc | parser.py:482-488 | one more classified row extends the fates |
| Engine.AddColumns | parser.py:537-538 | the column loop of one FROM table builds `AddEntries` |
| Engine.GatherStep | parser.py:531-538 | one more FROM table extends the dictionary and the row lists |
| Engine.GatherTables | parser.py:528-538 | the table loop fails iff some FROM table is missing, and otherwise builds the dictionary and the row lists |
| Engine.CandidateRows | parser.py:540-552 | the product and the filter build `Candidates` |
| Engine.ProjectCandidates | parser.py:554-593 | the item loop and the projection build the answer of `SelectStatement` |
| Engine.RunSelect | parser.py:527-593 | `select_query` up to the rendering equals `SelectStatement` |
| Engine.AddRecs | parser.py:517-522 | `add_recs` appends `Recs` to the accumulator |
| Engine.FilterErrorKept | parser.py:547-552 | once a row fails, the filter's result stays that failure |
| Engine.FilterRows | parser.py:547-552 | the WHERE loop equals `Filter` |
| Engine.CountMatches | parser.py:575-579 | the count loop counts the keys with that column and remembers a table that has it |
| Engine.ResolveOne | parser.py:557-584 | one item resolves as `ResolveItem` says |
| Engine.ResolveItemsErrorKept | parser.py:555-584 | once an item fails, the item loop's result stays that failure |
| Engine.ResolveSelection | parser.py:555-584 | the item loop equals `ResolveItems` |
| Engine.ProjectRows | parser.py:586-593 | the rename and projection loops build `Projection` |
| Engine.CheckValue | parser.py:303-335 | the checks on one value equal `CheckColumn` |
| Engine.ConvertValues | parser.py:302-335 | the column loop equals `Convert` |
| Engine.RunInsert | parser.py:266-339 | `insert_query` equals `InsertStatement` |
| Engine.ReferencedBy | parser.py:452-457 | the referencer loop equals `HitIn` |
| Engine.InvRefQuery | parser.py:448-458 | `inv_ref` equals `InvRef` |
| Engine.ClassifyRow | parser.py:483-488 | one row's verdict equals `Classify` |
| Engine.RowsDoneStep | parser.py:482-488 | one more classified row advances the row loop's state |
| Engine.DeleteRows | parser.py:478-488 | the row loop builds the survivors and the two counters of `Fates`, or fails with its error |
| Engine.Session.constructor | parser.py:57-62 | the session starts valid with the given database and an empty draft |
| Engine.Session.Clean | parser.py:64-68 | `clean` resets the draft and the queue and keeps the database |
| Engine.Session.TableElement | parser.py:108-198 | an element updates the draft and the queue as `ElementStep` says, or reports its error |
| Engine.Session.AddColumnDef | parser.py:112-131 | a column definition updates the draft as `AddColumn` says |
| Engine.Session.AddPrimary | parser.py:135-149 | a PK constraint updates the draft as `AddPrimaryKey` says |
| Engine.Session.AddForeign | parser.py:151-196 | an FK constraint updates the draft and the queue as `AddForeignKey` says |
| Engine.Session.CreateTableQuery | parser.py:85-106 | CREATE updates the database as `CreateTable` says and keeps it valid |
| Engine.Session.DropTableQuery | parser.py:200-214 | DROP updates the database as `DropTable` says |
| Engine.Session.InsertQuery | parser.py:266-342 | INSERT updates the database as `InsertStatement` says and keeps it valid |
| Engine.Session.DeleteQuery | parser.py:460-498 | DELETE updates the database as `DeleteStatement` says and reports the removed and blocked counts |
| Engine.Session.SelectQuery | parser.py:527-593 | SELECT answers as `SelectStatement` says |

## Left out

- The grammar, the lark plumbing (`command`, `query_list`, the pass-through
  rules) and the REPL loop. Statements enter the model as already parsed
  values: `Element`, `Literal`, `Cond`, `SelItem`.
- Lower-casing of table and column names by the `table_name` and
  `column_name` rules. Names are taken as the parser hands them over.
- Berkeley DB and JSON. The database is a `Catalog` value. Serialising a
  table is the identity, apart from the PK set, which is stored as a list in
  arbitrary order and is modelled as a set.
- Writes across tables are not atomic. The model treats each statement as
  one step, because the partial writes (CREATE stores the new table before
  registering it, as parser.py:93-103 do) cannot fail halfway in the model.
- All printing: messages, `desc_query`, `show_tables_query`, and the result
  table after parser.py:593.
- `DeleteReferentialIntegrityPassed` is raised after the table is stored. It
  is modelled as the `blocked` count of a successful DELETE, not as an error.
- `queried_tbls` and `tbl_cols`, which `delete_query` and `select_query`
  set as transformer fields before calling `check`. They are passed to `Eval`
  as its `Scope` parameter.
- `sel_recs`, which `add_recs` mutates. It is modelled as the accumulator
  that `Engine.AddRecs` returns.
- The faults of the four Findings: every statement-level member models the
  program with them corrected. Only the `...AsWritten` members model the code
  as written, so the statement functions and the `Session` methods do not
  raise where the program does on the inputs the Findings name.
- Python runtime exceptions are one error, `RuntimeFault`. This covers
  an FK target missing from its table and the faults in the Findings below.
- INT and DATE values are compared as strings, as the source does; no
  numeric or calendar ordering is modelled.
- The type check of a foreign-key pair compares `[type, size]`; the model
  compares the column type and the size fields, which is the same thing.
- Engine.MarkPairs: reads the local column types from the draft as it was
  before the loop. The loop only changes FK flags, so the checks see the same
  types.
- When a CREATE element fails, the source leaves `new_table` partly changed.
  The `Session` methods leave the draft unchanged on failure. The difference
  cannot be seen, because `clean` resets the draft before the next statement.
- The module-level methods of `Engine` read the database through a `cat`
  parameter; only `Session` holds it as a field.

## Findings

| source | as written | input that shows it | evidently intended | confidence | as-written member | corrected member |
|---|---|---|---|---|---|---|
| parser.py:351 | `get_val` tests a qualified table against `self.tbl_names`, a field nothing sets, so every qualified WHERE operand raises AttributeError | `SELECT * FROM emp WHERE emp.dept = 1`, with `emp` having column `dept` | test against the queried tables (`self.queried_tbls`) | high; not executed | Where.QualifiedOperandFaultsAsWritten, Where.ResolveAsWritten | Where.Resolve, Where.ResolveQualified |
| parser.py:350 | a bare column name is a string, so `len(tbl_col) == 2` takes a two-letter name such as `id` for a (table, column) pair | `SELECT * FROM dept WHERE id = 1` | treat a bare name as unqualified whatever its length | medium, depends on how the grammar builds a bare operand; not executed | Where.TwoLetterColumnFaultsAsWritten, Where.ResolveAsWritten | Where.Resolve, Where.ResolveUnqualified |
| parser.py:422 | after resolving the right operand the code tests `lo is None` instead of `ro is None`, so a Null right cell reaches `ro[0]` and raises TypeError | `SELECT * FROM t WHERE 1 < num` on a row whose `num` is Null | a Null right operand gives Unknown, like a Null left one | high; not executed | Where.NullRightOperandFaultsAsWritten, Where.CompareAsWritten | Where.CompareOperands, Where.NullRightIsUnknown |
| parser.py:102 | a referenced column that already has a referencer gets `[ref_tbl_name, from_col]` appended, naming the referenced table instead of the new one | `emp` and then `emp2`, each with `FOREIGN KEY (d) REFERENCES dept (id)` | append `[new_table_name, from_col]`, as line 100 does | high; not executed | Schema.SecondReferencerMisrecordedAsWritten, Schema.AddReferencerAsWritten | Schema.AddReferencer, Schema.AddReferencersRecords |
