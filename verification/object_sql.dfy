/**
 * The generic SQL builders of the legacy configuration object
 * (`Models\Configuration\Object`): `insert`, `update`, `getList`,
 * `getIdByParameter` and the magic `__call`. Each builder is modelled as a pure
 * function from its arguments to the prepared statement it would hand to the
 * database handle, together with the values bound to its `?` placeholders.
 * Executing the statement is not modelled.
 */
module ObjectSql {
  import opened Base
  import opened PhpStrings

  /** A value in a parameter array: PHP `null` or a string. */
  datatype Value = Null | Text(s: string)

  /** A PHP associative array of column name to value, in insertion order. */
  type Row = seq<(string, Value)>

  /** A value bound to a `?` placeholder: a string, an integer or SQL NULL. */
  datatype Param = Str(s: string) | Int(n: int) | NullParam

  /** A prepared statement and the values bound to its placeholders, in order. */
  datatype Statement = Statement(sql: string, params: seq<Param>)

  /** What a concrete configuration class sets: its table, primary key and unique label column. */
  datatype ConfigObject = ConfigObject(table: string, primaryKey: string, uniqueLabelField: string)

  /** The exceptions the builders throw. */
  datatype ObjectError = UnknownFilterType | UnknownMethod

  /** The column names of a row, in order. */
  function Keys(row: Row): (ks: seq<string>)
    ensures |ks| == |row| && forall i :: 0 <= i < |row| ==> ks[i] == row[i].0
  {
    seq(|row|, i requires 0 <= i < |row| => row[i].0)
  }

  // ===========================================================================
  // insert

  /** The entries `insert` writes: all but the primary key and the null values, in order. */
  function InsertedEntries(pk: string, row: Row): (r: Row)
    ensures |r| <= |row|
    ensures forall e {:trigger e in r} :: e in r <==> e in row && e.0 != pk && e.1.Text?
    ensures (forall i :: 0 <= i < |row| ==> Truthy(row[i].0)) ==> forall i :: 0 <= i < |r| ==> Truthy(r[i].0)
    decreases |row|
  {
    if |row| == 0 then []
    else
      var e := row[|row| - 1];
      assert row == row[..|row| - 1] + [e];
      InsertedEntries(pk, row[..|row| - 1]) + (if e.0 == pk || e.1.Null? then [] else [e])
  }

  /** Extending a row by one entry extends the entries kept from it by that entry when it qualifies. */
  lemma InsertedEntriesSnoc(pk: string, row: Row, e: (string, Value))
    ensures InsertedEntries(pk, row + [e]) == InsertedEntries(pk, row) + (if e.0 == pk || e.1.Null? then [] else [e])
  {
    assert (row + [e])[..|row + [e]| - 1] == row;
  }

  /** The entries kept from a row are those kept from its first part followed by those kept from the rest, so order is preserved. */
  lemma {:induction false} InsertedEntriesSplit(pk: string, a: Row, b: Row)
    ensures InsertedEntries(pk, a + b) == InsertedEntries(pk, a) + InsertedEntries(pk, b)
    decreases |b|
  {
    if |b| == 0 {
      assert a + b == a;
    } else {
      var e := b[|b| - 1];
      var b' := b[..|b| - 1];
      assert b == b' + [e];
      assert a + b == (a + b') + [e];
      InsertedEntriesSnoc(pk, a + b', e);
      InsertedEntriesSnoc(pk, b', e);
      InsertedEntriesSplit(pk, a, b');
      var kept: Row := if e.0 == pk || e.1.Null? then [] else [e];
      assert InsertedEntries(pk, a) + (InsertedEntries(pk, b') + kept) == (InsertedEntries(pk, a) + InsertedEntries(pk, b')) + kept;
    }
  }


  /** The trimmed string of each entry, as bound by `insert`. */
  function TrimmedParams(row: Row): (ps: seq<Param>)
    ensures |ps| == |row|
  {
    seq(|row|, i requires 0 <= i < |row| => Str(Trim(if row[i].1.Text? then row[i].1.s else "")))
  }

  /** The three strings the loop of `insert` accumulates. */
  datatype InsertAcc = InsertAcc(fields: string, values: string, params: seq<Param>)

  /** One iteration of the loop of `insert`. */
  function InsertStep(pk: string, acc: InsertAcc, e: (string, Value)): InsertAcc {
    if e.0 == pk || e.1.Null? then acc
    else InsertAcc(
      (if acc.fields != "" then acc.fields + "," else acc.fields) + e.0,
      (if acc.values != "" then acc.values + "," else acc.values) + "?",
      acc.params + [Str(Trim(e.1.s))])
  }

  /** The state of the loop of `insert` after it has visited `row`. */
  function InsertLoop(pk: string, row: Row): InsertAcc
    decreases |row|
  {
    if |row| == 0 then InsertAcc("", "", [])
    else InsertStep(pk, InsertLoop(pk, row[..|row| - 1]), row[|row| - 1])
  }

  /** The loop of `insert` binds the trimmed value of each inserted entry, in order. */
  lemma {:induction false} InsertLoopParams(pk: string, row: Row)
    ensures InsertLoop(pk, row).params == TrimmedParams(InsertedEntries(pk, row))
    decreases |row|
  {
    if |row| > 0 {
      var pre := row[..|row| - 1];
      var e := row[|row| - 1];
      InsertLoopParams(pk, pre);
      if !(e.0 == pk || e.1.Null?) {
        var insPre := InsertedEntries(pk, pre);
        assert InsertedEntries(pk, row) == insPre + [e];
        assert InsertLoop(pk, row).params == InsertLoop(pk, pre).params + [Str(Trim(e.1.s))];
        TrimmedParamsSnoc(insPre, e);
      } else {
        assert InsertedEntries(pk, row) == InsertedEntries(pk, pre) + [];
        assert InsertLoop(pk, row) == InsertLoop(pk, pre);
      }
    }
  }

  /** The trimmed strings of a row extended by one entry. */
  lemma TrimmedParamsSnoc(row: Row, e: (string, Value))
    ensures TrimmedParams(row + [e]) == TrimmedParams(row) + [Str(Trim(if e.1.Text? then e.1.s else ""))]
  {
    var a := TrimmedParams(row + [e]);
    var b := TrimmedParams(row) + [Str(Trim(if e.1.Text? then e.1.s else ""))];
    forall i | 0 <= i < |a| ensures a[i] == b[i] {
      if i < |row| {
        assert (row + [e])[i] == row[i];
      }
    }
  }

  /** The loop of `insert` writes one `?` per inserted entry, separated by commas. */
  lemma {:induction false} InsertLoopValues(pk: string, row: Row)
    ensures InsertLoop(pk, row).values == Join(",", Repeat("?", |InsertedEntries(pk, row)|))
    decreases |row|
  {
    if |row| > 0 {
      var pre := row[..|row| - 1];
      var e := row[|row| - 1];
      var insPre := InsertedEntries(pk, pre);
      if !(e.0 == pk || e.1.Null?) {
        assert InsertedEntries(pk, row) == insPre + [e];
        var n := |insPre|;
        InsertLoopValues(pk, pre);
        assert Repeat("?", n + 1) == Repeat("?", n) + ["?"];
        if n > 0 {
          JoinSnoc(",", Repeat("?", n), "?");
        }
      } else {
        assert InsertedEntries(pk, row) == insPre + [];
        assert InsertLoop(pk, row) == InsertLoop(pk, pre);
        InsertLoopValues(pk, pre);
      }
    }
  }

  /** When every column name is truthy, the field list of `insert` names the inserted entries in order. */
  lemma {:induction false} InsertLoopFields(pk: string, row: Row)
    requires forall i :: 0 <= i < |row| ==> Truthy(row[i].0)
    ensures InsertLoop(pk, row).fields == Join(",", Keys(InsertedEntries(pk, row)))
    decreases |row|
  {
    if |row| > 0 {
      var pre := row[..|row| - 1];
      var e := row[|row| - 1];
      InsertLoopFields(pk, pre);
      if !(e.0 == pk || e.1.Null?) {
        var insPre := InsertedEntries(pk, pre);
        assert InsertedEntries(pk, row) == insPre + [e];
        assert Keys(insPre + [e]) == Keys(insPre) + [e.0];
        JoinExtend(",", Keys(insPre), e.0);
      } else {
        assert InsertedEntries(pk, row) == InsertedEntries(pk, pre) + [];
        assert InsertedEntries(pk, row) == InsertedEntries(pk, pre);
        assert InsertLoop(pk, row) == InsertLoop(pk, pre);
      }
    }
  }

  /**
   * The loop of `insert` leaves a non-empty value list exactly when some entry is
   * inserted and, when every column name is truthy, a field list that is truthy
   * exactly then.
   */
  lemma InsertLoopNonEmpty(pk: string, row: Row)
    ensures Truthy(InsertLoop(pk, row).values) <==> InsertedEntries(pk, row) != []
    ensures (forall i :: 0 <= i < |row| ==> Truthy(row[i].0)) ==>
              && InsertLoop(pk, row).fields == Join(",", Keys(InsertedEntries(pk, row)))
              && (Truthy(InsertLoop(pk, row).fields) <==> InsertedEntries(pk, row) != [])
  {
    var ins := InsertedEntries(pk, row);
    InsertLoopValues(pk, row);
    if ins != [] {
      JoinTruthy(",", Repeat("?", |ins|));
    }
    if forall i :: 0 <= i < |row| ==> Truthy(row[i].0) {
      InsertLoopFields(pk, row);
      if ins != [] {
        JoinTruthy(",", Keys(ins));
      }
    }
  }

  /**
   * `insert`: skips the primary key and every null value, binds one trimmed value
   * per remaining column and issues no statement when nothing remains.
   */
  function Insert(obj: ConfigObject, row: Row): (r: Option<Statement>)
    ensures InsertedEntries(obj.primaryKey, row) == [] ==> r.None?
    ensures r.Some? ==> r.value.params == TrimmedParams(InsertedEntries(obj.primaryKey, row))
    ensures (forall i :: 0 <= i < |row| ==> Truthy(row[i].0)) ==>
              var ins := InsertedEntries(obj.primaryKey, row);
              && (r.Some? <==> ins != [])
              && (r.Some? ==> r.value.sql == "INSERT INTO " + obj.table + " (" + Join(",", Keys(ins))
                                             + ") VALUES (" + Join(",", Repeat("?", |ins|)) + ")")
  {
    var acc := InsertLoop(obj.primaryKey, row);
    InsertLoopParams(obj.primaryKey, row);
    InsertLoopValues(obj.primaryKey, row);
    InsertLoopNonEmpty(obj.primaryKey, row);
    if Truthy(acc.fields) && Truthy(acc.values) then
      Some(Statement("INSERT INTO " + obj.table + " (" + acc.fields + ") VALUES (" + acc.values + ")", acc.params))
    else None
  }

  // ===========================================================================
  // update

  /** The entries `update` assigns: all but the primary key, in order. */
  function AssignedEntries(pk: string, row: Row): (r: Row)
    ensures |r| <= |row|
    ensures forall e {:trigger e in r} :: e in r <==> e in row && e.0 != pk
    decreases |row|
  {
    if |row| == 0 then []
    else
      var e := row[|row| - 1];
      assert row == row[..|row| - 1] + [e];
      AssignedEntries(pk, row[..|row| - 1]) + (if e.0 == pk then [] else [e])
  }

  /** Extending a row by one entry extends the entries assigned from it by that entry when it qualifies. */
  lemma AssignedEntriesSnoc(pk: string, row: Row, e: (string, Value))
    ensures AssignedEntries(pk, row + [e]) == AssignedEntries(pk, row) + (if e.0 == pk then [] else [e])
  {
    assert (row + [e])[..|row + [e]| - 1] == row;
  }

  /** The entries assigned from a row are those assigned from its first part followed by those from the rest, so order is preserved. */
  lemma {:induction false} AssignedEntriesSplit(pk: string, a: Row, b: Row)
    ensures AssignedEntries(pk, a + b) == AssignedEntries(pk, a) + AssignedEntries(pk, b)
    decreases |b|
  {
    if |b| == 0 {
      assert a + b == a;
    } else {
      var e := b[|b| - 1];
      var b' := b[..|b| - 1];
      assert b == b' + [e];
      assert a + b == (a + b') + [e];
      AssignedEntriesSnoc(pk, a + b', e);
      AssignedEntriesSnoc(pk, b', e);
      AssignedEntriesSplit(pk, a, b');
      var kept: Row := if e.0 == pk then [] else [e];
      assert AssignedEntries(pk, a) + (AssignedEntries(pk, b') + kept) == (AssignedEntries(pk, a) + AssignedEntries(pk, b')) + kept;
    }
  }


  /** PHP's `$value == ""` for a null or string value. */
  predicate LooselyEmpty(v: Value) {
    v.Null? || v.s == ""
  }

  /** The empty-to-null step of `update`: an empty value of a nullable column becomes null. */
  function NullIfEmpty(key: string, v: Value, notNull: set<string>): Value {
    if LooselyEmpty(v) && key !in notNull then Null else v
  }

  /** `str_replace("<br/>", "\n", $value)`, which turns a null subject into "". */
  function ReplaceBreaksIn(v: Value): string {
    match v
    case Null => ""
    case Text(s) => ReplaceBreaks(s)
  }

  /** The values `update` binds for the assigned entries, before the object id. */
  function UpdateParams(row: Row): (ps: seq<Param>)
    ensures |ps| == |row|
  {
    seq(|row|, i requires 0 <= i < |row| => Str(ReplaceBreaksIn(row[i].1)))
  }

  /** The `key = ? ` fragment of each assigned column. */
  function Assignments(keys: seq<string>): (fs: seq<string>)
    ensures |fs| == |keys| && forall i :: 0 <= i < |keys| ==> fs[i] == keys[i] + " = ? "
  {
    seq(|keys|, i requires 0 <= i < |keys| => keys[i] + " = ? ")
  }

  /** The two strings the loop of `update` accumulates. */
  datatype UpdateAcc = UpdateAcc(assignments: string, params: seq<Param>)

  /** One iteration of the loop of `update`. */
  function UpdateStep(pk: string, notNull: set<string>, acc: UpdateAcc, e: (string, Value)): UpdateAcc {
    if e.0 == pk then acc
    else UpdateAcc(
      (if acc.assignments != "" then acc.assignments + "," else acc.assignments) + (e.0 + " = ? "),
      acc.params + [Str(ReplaceBreaksIn(NullIfEmpty(e.0, e.1, notNull)))])
  }

  /** The state of the loop of `update` after it has visited `row`. */
  function UpdateLoop(pk: string, notNull: set<string>, row: Row): UpdateAcc
    decreases |row|
  {
    if |row| == 0 then UpdateAcc("", [])
    else UpdateStep(pk, notNull, UpdateLoop(pk, notNull, row[..|row| - 1]), row[|row| - 1])
  }

  /**
   * The empty-to-null step never shows in the bound value: the null it produces is
   * turned back into "" by `str_replace`, the same string an empty value gives.
   */
  lemma NullIfEmptyInvisible(key: string, v: Value, notNull: set<string>)
    ensures ReplaceBreaksIn(NullIfEmpty(key, v, notNull)) == ReplaceBreaksIn(v)
  {
    if LooselyEmpty(v) && v.Text? {
      assert v.s == "";
    }
  }

  /** The loop of `update` binds the value of each assigned entry, line breaks replaced, in order. */
  lemma {:induction false} UpdateLoopParams(pk: string, notNull: set<string>, row: Row)
    ensures UpdateLoop(pk, notNull, row).params == UpdateParams(AssignedEntries(pk, row))
    decreases |row|
  {
    if |row| > 0 {
      var pre := row[..|row| - 1];
      var e := row[|row| - 1];
      UpdateLoopParams(pk, notNull, pre);
      if e.0 != pk {
        var asgPre := AssignedEntries(pk, pre);
        assert AssignedEntries(pk, row) == asgPre + [e];
        NullIfEmptyInvisible(e.0, e.1, notNull);
        assert UpdateParams(asgPre + [e]) == UpdateParams(asgPre) + [Str(ReplaceBreaksIn(e.1))];
      }
    }
  }

  /** The loop of `update` writes one `key = ? ` per assigned column, joined by commas. */
  lemma {:induction false} UpdateLoopAssignments(pk: string, notNull: set<string>, row: Row)
    ensures UpdateLoop(pk, notNull, row).assignments == Join(",", Assignments(Keys(AssignedEntries(pk, row))))
    decreases |row|
  {
    if |row| > 0 {
      var pre := row[..|row| - 1];
      var e := row[|row| - 1];
      UpdateLoopAssignments(pk, notNull, pre);
      if e.0 != pk {
        var asgPre := AssignedEntries(pk, pre);
        assert AssignedEntries(pk, row) == asgPre + [e];
        assert Assignments(Keys(asgPre + [e])) == Assignments(Keys(asgPre)) + [e.0 + " = ? "];
        JoinExtend(",", Assignments(Keys(asgPre)), e.0 + " = ? ");
      } else {
        assert AssignedEntries(pk, row) == AssignedEntries(pk, pre) + [];
        assert AssignedEntries(pk, row) == AssignedEntries(pk, pre);
        assert UpdateLoop(pk, notNull, row) == UpdateLoop(pk, notNull, pre);
      }
    }
  }

  /** `array_search("", $params)` in a condition: the first loosely empty value sits under a truthy key. */
  function FindsEmptyValue(row: Row): bool
    decreases |row|
  {
    if |row| == 0 then false
    else if LooselyEmpty(row[0].1) then Truthy(row[0].0)
    else FindsEmptyValue(row[1..])
  }

  /**
   * `update`: assigns every column but the primary key, binds each value with
   * "<br/>" turned into a newline, binds the object id last, and issues no
   * statement when there is nothing to assign. `notNullColumns` stands for the
   * answer of the `SHOW FIELDS` query.
   */
  function Update(obj: ConfigObject, objectId: int, row: Row, notNullColumns: set<string>): (r: Option<Statement>)
    ensures r.None? <==> AssignedEntries(obj.primaryKey, row) == []
    ensures r.Some? ==>
              var asg := AssignedEntries(obj.primaryKey, row);
              && r.value.sql == "UPDATE " + obj.table + " SET " + Join(",", Assignments(Keys(asg)))
                                + " WHERE " + obj.primaryKey + " = ?"
              && r.value.params == UpdateParams(asg) + [Int(objectId)]
  {
    var notNull := if FindsEmptyValue(row) then notNullColumns else {};
    var acc := UpdateLoop(obj.primaryKey, notNull, row);
    UpdateLoopParams(obj.primaryKey, notNull, row);
    UpdateLoopAssignments(obj.primaryKey, notNull, row);
    var asg := AssignedEntries(obj.primaryKey, row);
    assert asg != [] ==> Truthy(acc.assignments) by {
      if asg != [] {
        JoinTruthy(",", Assignments(Keys(asg)));
      }
    }
    if Truthy(acc.assignments) then
      Some(Statement("UPDATE " + obj.table + " SET " + acc.assignments + " WHERE " + obj.primaryKey + " = ?",
                     acc.params + [Int(objectId)]))
    else None
  }

  /** The answer of the `SHOW FIELDS` query never changes the statement `update` issues. */
  lemma UpdateIgnoresNotNullColumns(obj: ConfigObject, objectId: int, row: Row, a: set<string>, b: set<string>)
    ensures Update(obj, objectId, row, a) == Update(obj, objectId, row, b)
  {
  }

  /** Every value `update` binds before the object id is a string with no "<br/>" left in it. */
  lemma UpdateLeavesNoBreaks(obj: ConfigObject, objectId: int, row: Row, notNullColumns: set<string>)
    ensures var r := Update(obj, objectId, row, notNullColumns);
            r.Some? ==> forall i :: 0 <= i < |r.value.params| - 1 ==>
                          r.value.params[i].Str? && !Occurs(r.value.params[i].s, "<br/>")
  {
    var r := Update(obj, objectId, row, notNullColumns);
    if r.Some? {
      var asg := AssignedEntries(obj.primaryKey, row);
      forall i | 0 <= i < |r.value.params| - 1
        ensures r.value.params[i].Str? && !Occurs(r.value.params[i].s, "<br/>")
      {
        assert r.value.params[i] == Str(ReplaceBreaksIn(asg[i].1));
        if asg[i].1.Text? {
          NoBreakRemains(asg[i].1.s);
        }
      }
    }
  }

  /**
   * The empty-to-null step is undone: a nullable column sent the empty string is
   * bound "" by `update`, not NULL, whatever the table.
   */
  lemma UpdateBindsEmptyForNullable(obj: ConfigObject, objectId: int, column: string, notNullColumns: set<string>)
    requires column != obj.primaryKey && column !in notNullColumns
    ensures var r := Update(obj, objectId, [(column, Text(""))], notNullColumns);
            r.Some? && r.value.params == [Str(""), Int(objectId)]
  {
    var row: Row := [(column, Text(""))];
    assert AssignedEntries(obj.primaryKey, row) == row by {
      assert row[..0] == [];
    }
    assert UpdateParams(row) == [Str("")] by {
      assert ReplaceAll("", "<br/>", "\n") == "";
    }
  }

  /** The same update as intended binds NULL. */
  lemma IntendedBindsNullForNullable(obj: ConfigObject, objectId: int, column: string, notNullColumns: set<string>)
    requires column != obj.primaryKey && column !in notNullColumns
    ensures var r := UpdateAsIntended(obj, objectId, [(column, Text(""))], notNullColumns);
            r.Some? && r.value.params == [NullParam, Int(objectId)]
  {
    var row: Row := [(column, Text(""))];
    assert AssignedEntries(obj.primaryKey, row) == row by {
      assert row[..0] == [];
    }
    var r := UpdateAsIntended(obj, objectId, row, notNullColumns);
    assert r.value.params[0] == NullParam;
  }

  /** The columns whose empty value `update` sets to null: the nullable ones, once the `SHOW FIELDS` query ran. */
  function NotNullConsulted(row: Row, notNullColumns: set<string>): set<string> {
    if FindsEmptyValue(row) then notNullColumns else {}
  }

  /** The value `update` evidently means to bind: NULL for a null value and for an empty value of a nullable column. */
  function IntendedParam(key: string, v: Value, notNull: set<string>): (p: Param)
    ensures p == NullParam <==> v.Null? || (v.s == "" && key !in notNull)
    ensures p != NullParam ==> v.Text? && p == Str(ReplaceBreaks(v.s))
  {
    match NullIfEmpty(key, v, notNull)
    case Null => NullParam
    case Text(s) => Str(ReplaceBreaks(s))
  }

  /**
   * `update` as evidently intended: the same statement, but a null value and an
   * empty value of a nullable column are bound as NULL; a NOT NULL column keeps its "".
   */
  function UpdateAsIntended(obj: ConfigObject, objectId: int, row: Row, notNullColumns: set<string>): (r: Option<Statement>)
    ensures r.None? <==> AssignedEntries(obj.primaryKey, row) == []
    ensures r.Some? ==>
              var asg := AssignedEntries(obj.primaryKey, row);
              var notNull := NotNullConsulted(row, notNullColumns);
              && r.value.sql == Update(obj, objectId, row, notNullColumns).value.sql
              && |r.value.params| == |asg| + 1 && r.value.params[|asg|] == Int(objectId)
              && forall i :: 0 <= i < |asg| ==>
                   && (r.value.params[i] == NullParam <==> asg[i].1.Null? || (asg[i].1.s == "" && asg[i].0 !in notNull))
                   && (r.value.params[i] != NullParam ==> r.value.params[i] == Str(ReplaceBreaksIn(asg[i].1)))
  {
    var asg := AssignedEntries(obj.primaryKey, row);
    var notNull := NotNullConsulted(row, notNullColumns);
    match Update(obj, objectId, row, notNullColumns)
    case None => None
    case Some(st) =>
      var ps := seq(|asg|, i requires 0 <= i < |asg| => IntendedParam(asg[i].0, asg[i].1, notNull));
      Some(Statement(st.sql, ps + [Int(objectId)]))
  }

  /** Once the `SHOW FIELDS` query ran, the intended `update` binds NULL to a NOT NULL column only when sent null. */
  lemma IntendedKeepsNotNull(obj: ConfigObject, objectId: int, row: Row, notNullColumns: set<string>)
    requires FindsEmptyValue(row)
    ensures var r := UpdateAsIntended(obj, objectId, row, notNullColumns);
            var asg := AssignedEntries(obj.primaryKey, row);
            r.Some? ==> forall i :: 0 <= i < |asg| && asg[i].0 in notNullColumns && asg[i].1.Text? ==>
                          r.value.params[i] == Str(ReplaceBreaks(asg[i].1.s))
  {
  }

  // ===========================================================================
  // getList

  /** The `$parameterNames` argument of `getList`: a raw column expression or a list of names. */
  datatype Columns = Expression(text: string) | Names(names: seq<string>)

  function ColumnList(c: Columns): string {
    match c
    case Expression(t) => t
    case Names(ns) => Join(",", ns)
  }

  /** The `count`/`offset` pair handed to the driver's `limit`. */
  datatype Limit = Limit(count: int, offset: int)

  /** The listing query: its SQL before the driver applies the limit, the LIKE values, and the limit. */
  datatype ListQuery = ListQuery(sql: string, params: seq<Param>, limit: Option<Limit>)

  /** The LIKE escaping of a filter value: trim, double `\`, then escape `_` and space. */
  function EscapeLike(raw: string): string {
    var v := Trim(raw);
    var v := ReplaceAll(v, "\\", "\\\\");
    var v := ReplaceAll(v, "_", "\\_");
    ReplaceAll(v, " ", "\\ ")
  }

  /** The escape of a single character. */
  function EscapeLikeChar(c: char): string {
    if c == '\\' || c == '_' || c == ' ' then ['\\', c] else [c]
  }

  /** Escaping character by character. */
  function EscapeEach(t: string): string
    decreases |t|
  {
    if |t| == 0 then "" else EscapeLikeChar(t[0]) + EscapeEach(t[1..])
  }

  /** How a LIKE pattern with `\` as escape character reads back: `\x` stands for `x`. */
  function UnescapeLike(e: string): string
    decreases |e|
  {
    if |e| == 0 then ""
    else if e[0] == '\\' && |e| >= 2 then [e[1]] + UnescapeLike(e[2..])
    else [e[0]] + UnescapeLike(e[1..])
  }

  /** The three replacements applied one after the other escape each character once. */
  lemma {:induction false} ReplacementsEscapeEach(t: string)
    ensures ReplaceAll(ReplaceAll(ReplaceAll(t, "\\", "\\\\"), "_", "\\_"), " ", "\\ ") == EscapeEach(t)
    decreases |t|
  {
    if |t| > 0 {
      var c := t[0];
      assert t == [c] + t[1..];
      ReplaceCharConcat([c], t[1..], '\\', "\\\\");
      var a := ReplaceAll([c], "\\", "\\\\");
      var b := ReplaceAll(t[1..], "\\", "\\\\");
      ReplaceCharConcat(a, b, '_', "\\_");
      var a2 := ReplaceAll(a, "_", "\\_");
      var b2 := ReplaceAll(b, "_", "\\_");
      ReplaceCharConcat(a2, b2, ' ', "\\ ");
      ReplacementsEscapeEach(t[1..]);
      EscapeOneChar(c);
    }
  }

  /** The three replacements on a single character. */
  lemma EscapeOneChar(c: char)
    ensures ReplaceAll(ReplaceAll(ReplaceAll([c], "\\", "\\\\"), "_", "\\_"), " ", "\\ ") == EscapeLikeChar(c)
  {
    ReplaceSingle(c, "\\", "\\\\");
    if c == '\\' {
      ReplaceCharConcat("\\", "\\", '_', "\\_");
      ReplaceSingle('\\', "_", "\\_");
      ReplaceCharConcat("\\", "\\", ' ', "\\ ");
      ReplaceSingle('\\', " ", "\\ ");
      assert "\\" + "\\" == "\\\\";
    } else {
      ReplaceSingle(c, "_", "\\_");
      if c == '_' {
        ReplaceCharConcat("\\", "_", ' ', "\\ ");
        ReplaceSingle('\\', " ", "\\ ");
        ReplaceSingle('_', " ", "\\ ");
        assert "\\" + "_" == "\\_";
      } else {
        ReplaceSingle(c, " ", "\\ ");
      }
    }
  }

  /**
   * The escaping is unambiguous: reading the LIKE pattern back gives the trimmed
   * filter value, so the `\` added before `_` and space is never itself doubled.
   */
  lemma {:induction false} EscapeLikeRoundTrip(raw: string)
    ensures UnescapeLike(EscapeLike(raw)) == Trim(raw)
  {
    ReplacementsEscapeEach(Trim(raw));
    UnescapeEscapeEach(Trim(raw));
  }

  lemma {:induction false} UnescapeEscapeEach(t: string)
    ensures UnescapeLike(EscapeEach(t)) == t
    decreases |t|
  {
    if |t| > 0 {
      UnescapeEscapeEach(t[1..]);
      var e := EscapeEach(t);
      assert e == EscapeLikeChar(t[0]) + EscapeEach(t[1..]);
      if t[0] == '\\' || t[0] == '_' || t[0] == ' ' {
        assert e[2..] == EscapeEach(t[1..]);
      } else {
        assert e[1..] == EscapeEach(t[1..]);
      }
    }
  }

  /** The `key LIKE ? ` condition of each filter. */
  function LikeConditions(filters: seq<(string, string)>): (cs: seq<string>)
    ensures |cs| == |filters| && forall i :: 0 <= i < |filters| ==> cs[i] == filters[i].0 + " LIKE ? "
  {
    seq(|filters|, i requires 0 <= i < |filters| => filters[i].0 + " LIKE ? ")
  }

  /** The WHERE clause of the listing: empty without filters, else the conditions joined by the filter type. */
  function WhereClause(filterType: string, filters: seq<(string, string)>): string {
    if |filters| == 0 then "" else " WHERE " + Join(" " + filterType + " ", LikeConditions(filters))
  }

  /** The two things the filter loop of `getList` accumulates. */
  datatype FilterAcc = FilterAcc(sql: string, params: seq<Param>)

  /** The state of the filter loop of `getList` after it has visited `filters`. */
  function FilterLoop(filterType: string, filters: seq<(string, string)>): FilterAcc
    decreases |filters|
  {
    if |filters| == 0 then FilterAcc("", [])
    else
      var acc := FilterLoop(filterType, filters[..|filters| - 1]);
      var f := filters[|filters| - 1];
      var clause := if |acc.params| == 0 then " WHERE " + (f.0 + " LIKE ? ")
                    else (" " + filterType + " ") + (f.0 + " LIKE ? ");
      FilterAcc(acc.sql + clause, acc.params + [Str(EscapeLike(f.1))])
  }

  /** The filter loop builds the WHERE clause. */
  lemma {:induction false} FilterLoopWhere(filterType: string, filters: seq<(string, string)>)
    ensures FilterLoop(filterType, filters).sql == WhereClause(filterType, filters)
    decreases |filters|
  {
    if |filters| > 0 {
      var pre := filters[..|filters| - 1];
      var f := filters[|filters| - 1];
      assert filters == pre + [f];
      FilterLoopWhere(filterType, pre);
      FilterLoopCount(filterType, pre);
      var cond := f.0 + " LIKE ? ";
      var sep := " " + filterType + " ";
      LikeConditionsSnoc(pre, f);
      if |pre| > 0 {
        assert FilterLoop(filterType, filters).sql == FilterLoop(filterType, pre).sql + (sep + cond);
        JoinSnoc(sep, LikeConditions(pre), cond);
        Regroup(" WHERE ", Join(sep, LikeConditions(pre)), sep, cond);
      } else {
        assert LikeConditions(filters) == [cond];
      }
    }
  }

  /** The conditions of a filter list extended by one filter. */
  lemma LikeConditionsSnoc(filters: seq<(string, string)>, f: (string, string))
    ensures LikeConditions(filters + [f]) == LikeConditions(filters) + [f.0 + " LIKE ? "]
  {
  }

  /** `(a + b) + (c + d)` and `a + ((b + c) + d)` are the same string. */
  lemma Regroup(a: string, b: string, c: string, d: string)
    ensures (a + b) + (c + d) == a + ((b + c) + d)
  {
  }

  /** The filter loop binds one value per filter. */
  lemma {:induction false} FilterLoopCount(filterType: string, filters: seq<(string, string)>)
    ensures |FilterLoop(filterType, filters).params| == |filters|
    decreases |filters|
  {
    if |filters| > 0 {
      FilterLoopCount(filterType, filters[..|filters| - 1]);
    }
  }

  /** The filter loop binds the escaped value of each filter, in order. */
  lemma {:induction false} FilterLoopParams(filterType: string, filters: seq<(string, string)>)
    ensures |FilterLoop(filterType, filters).params| == |filters|
    ensures forall i :: 0 <= i < |filters| ==> FilterLoop(filterType, filters).params[i] == Str(EscapeLike(filters[i].1))
    decreases |filters|
  {
    if |filters| > 0 {
      var pre := filters[..|filters| - 1];
      FilterLoopParams(filterType, pre);
      var ps := FilterLoop(filterType, filters).params;
      assert ps == FilterLoop(filterType, pre).params + [Str(EscapeLike(filters[|filters| - 1].1))];
      forall i | 0 <= i < |filters| ensures ps[i] == Str(EscapeLike(filters[i].1)) {
        if i < |pre| {
          assert filters[i] == pre[i];
        }
      }
    }
  }

  /** The ORDER BY clause: present only with an order column and a sort that upper-cases to ASC or DESC. */
  function OrderClause(order: Option<string>, sort: Option<string>): (r: string)
    ensures r != "" <==> order.Some? && sort.Some? && (SpelledInAnyCase(sort.value, "ASC") || SpelledInAnyCase(sort.value, "DESC"))
    ensures r != "" ==> r == " ORDER BY " + order.value + " " + sort.value + " "
  {
    var direction := if sort.Some? then sort.value else "";
    UpperEqualsWord(direction, "ASC");
    UpperEqualsWord(direction, "DESC");
    if order.Some? && sort.Some? && (Upper(sort.value) == "ASC" || Upper(sort.value) == "DESC") then
      " ORDER BY " + order.value + " " + sort.value + " "
    else ""
  }

  /**
   * `getList`: rejects a filter type other than OR and AND before building
   * anything; otherwise selects the columns, adds one escaped LIKE condition per
   * filter, the ORDER BY clause, and a limit unless `count` is -1.
   */
  function GetList(obj: ConfigObject, columns: Columns, count: int, offset: int, order: Option<string>,
                   sort: Option<string>, filters: seq<(string, string)>, filterType: string): (r: Result<ListQuery, ObjectError>)
    ensures r.Failure? <==> filterType != "OR" && filterType != "AND"
    ensures r.Failure? ==> r.error == UnknownFilterType
    ensures r.Success? ==>
              && r.value.sql == "SELECT " + ColumnList(columns) + " FROM " + obj.table + " "
                                + WhereClause(filterType, filters) + OrderClause(order, sort)
              && |r.value.params| == |filters|
              && (forall i :: 0 <= i < |filters| ==> r.value.params[i] == Str(EscapeLike(filters[i].1)))
              && (r.value.limit.Some? <==> count != -1)
              && (r.value.limit.Some? ==> r.value.limit.value == Limit(count, offset))
  {
    if filterType != "OR" && filterType != "AND" then Failure(UnknownFilterType)
    else
      var acc := FilterLoop(filterType, filters);
      FilterLoopWhere(filterType, filters);
      FilterLoopParams(filterType, filters);
      var sql := "SELECT " + ColumnList(columns) + " FROM " + obj.table + " " + acc.sql + OrderClause(order, sort);
      Success(ListQuery(sql, acc.params, if count != -1 then Some(Limit(count, offset)) else None))
  }

  // ===========================================================================
  // getIdByParameter and __call

  /** The `$paramValues` argument: a single scalar or a list. */
  datatype ParamValues = One(value: Param) | Many(values: seq<Param>)

  /** A scalar is wrapped into a one-element list. */
  function ValueList(vs: ParamValues): seq<Param> {
    match vs
    case One(v) => [v]
    case Many(l) => l
  }

  /** The condition the loop of `getIdByParameter` builds after visiting `values`. */
  function ConditionLoop(name: string, values: seq<Param>): string
    decreases |values|
  {
    if |values| == 0 then ""
    else
      var prev := ConditionLoop(name, values[..|values| - 1]);
      (if prev != "" then prev + " OR " else prev) + name + " = ? "
  }

  /** The loop builds one `name = ? ` per value, joined by ` OR `. */
  lemma {:induction false} ConditionLoopMeaning(name: string, values: seq<Param>)
    ensures ConditionLoop(name, values) == Join(" OR ", Repeat(name + " = ? ", |values|))
    decreases |values|
  {
    if |values| > 0 {
      var n := |values| - 1;
      ConditionLoopMeaning(name, values[..n]);
      assert Repeat(name + " = ? ", n + 1) == Repeat(name + " = ? ", n) + [name + " = ? "];
      if n > 0 {
        JoinSnoc(" OR ", Repeat(name + " = ? ", n), name + " = ? ");
      }
    }
  }

  /**
   * `getIdByParameter`: one `name = ? ` condition per value, joined by ` OR `,
   * the values bound in order; no query at all for an empty list.
   */
  function GetIdByParameter(obj: ConfigObject, name: string, values: ParamValues): (r: Option<Statement>)
    ensures r.None? <==> values == Many([])
    ensures r.Some? ==>
              && r.value.params == ValueList(values)
              && r.value.sql == "SELECT " + obj.primaryKey + " FROM " + obj.table + " WHERE "
                                + Join(" OR ", Repeat(name + " = ? ", |ValueList(values)|))
  {
    var vs := ValueList(values);
    var condition := ConditionLoop(name, vs);
    ConditionLoopMeaning(name, vs);
    assert vs != [] ==> Truthy(condition) by {
      if vs != [] {
        JoinTruthy(" OR ", Repeat(name + " = ? ", |vs|));
      }
    }
    if Truthy(condition) then
      Some(Statement("SELECT " + obj.primaryKey + " FROM " + obj.table + " WHERE " + condition, vs))
    else None
  }

  /** `c` is what `/^getIdBy([a-zA-Z0-9_]+)/` captures from `name`: the longest run of word characters after the prefix. */
  predicate IsGetIdByCapture(name: string, c: string) {
    && |c| > 0 && 7 + |c| <= |name|
    && name[..7] == "getIdBy" && name[7..7 + |c|] == c
    && (forall i :: 0 <= i < |c| ==> IsWordChar(c[i]))
    && (7 + |c| == |name| || !IsWordChar(name[7 + |c|]))
  }

  /**
   * The magic `__call`: a method name that starts with `getIdBy` and at least one
   * word character becomes `getIdByParameter(<captured name>, <arguments>)`;
   * any other name throws.
   */
  function MagicCall(obj: ConfigObject, name: string, args: seq<Param>): (r: Result<Option<Statement>, ObjectError>)
    ensures r.Success? <==> |name| > 7 && name[..7] == "getIdBy" && IsWordChar(name[7])
    ensures r.Success? ==> exists c :: IsGetIdByCapture(name, c) && r.value == GetIdByParameter(obj, c, Many(args))
    ensures r.Failure? ==> r.error == UnknownMethod
  {
    if |name| > 7 && name[..7] == "getIdBy" && IsWordChar(name[7]) then
      var c := WordPrefix(name[7..]);
      assert |c| > 0;
      assert name[7..7 + |c|] == c;
      assert IsGetIdByCapture(name, c);
      Success(GetIdByParameter(obj, c, Many(args)))
    else Failure(UnknownMethod)
  }
}
