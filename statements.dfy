/** The statement builders of epsql.py's connection extensions: insert,
    insert_unless_conflict and upsert, which put a record's values into the
    driver's parameter channel behind "%s" placeholders, and
    execute_returning_value, which insists on a one-row, one-column result. */
module Statements {
  import opened Common
  import opened Text

  /** One entry of a record_dict: a column name and the value stored there. */
  datatype Field<V> = Field(column: string, value: V)

  /** A parameterized statement: SQL text with "%s" placeholders and the tuple
      of values the driver substitutes for them, in order. */
  datatype Statement<V> = Statement(text: string, params: seq<V>)

  datatype ExecError =
    | AssertionError   // a failed assert of execute_returning_value
    | IndexError       // [0] of an empty list of returned rows

  /** The dict's keys, in insertion order. */
  function Columns<V>(record: seq<Field<V>>): (cs: seq<string>)
    ensures |cs| == |record|
    ensures forall k :: 0 <= k < |record| ==> cs[k] == record[k].column
  {
    seq(|record|, k requires 0 <= k < |record| => record[k].column)
  }

  /** The dict's values, in the same order as its keys. */
  function Values<V>(record: seq<Field<V>>): (vs: seq<V>)
    ensures |vs| == |record|
    ensures forall k :: 0 <= k < |record| ==> vs[k] == record[k].value
  {
    seq(|record|, k requires 0 <= k < |record| => record[k].value)
  }

  function Repeat(s: string, n: nat): (r: seq<string>)
    ensures |r| == n && forall k :: 0 <= k < n ==> r[k] == s
  {
    seq(n, _ => s)
  }

  /** ','.join(['%s'] * n). */
  function Placeholders(n: nat): string
  {
    Join(Repeat("%s", n), ",")
  }

  /** ','.join(record_dict.keys()). */
  function ColumnList<V>(record: seq<Field<V>>): string
  {
    Join(Columns(record), ",")
  }

  /** The statement insert() executes: an INSERT into the table that returns
      the new row, with one parameter per field, in field order. */
  function Insert<V>(table: string, record: seq<Field<V>>): (st: Statement<V>)
    ensures st.text == "INSERT INTO " + table + " (" + ColumnList(record) + ") VALUES (" + Placeholders(|record|) + ") RETURNING *"
    ensures StartsWith(st.text, "INSERT INTO " + table + " (") && EndsWith(st.text, ") RETURNING *")
    ensures |st.params| == |record| && forall k :: 0 <= k < |record| ==> st.params[k] == record[k].value
  {
    var text := "INSERT INTO " + table + " (" + ColumnList(record) + ") VALUES ("
                + Placeholders(|record|) + ") RETURNING *";
    assert text == ("INSERT INTO " + table + " (") + (ColumnList(record) + ") VALUES (" + Placeholders(|record|)) + ") RETURNING *";
    Statement(text, Values(record))
  }

  /** The statement insert_unless_conflict() executes: the same INSERT, doing
      nothing on a conflict. */
  function InsertUnlessConflict<V>(table: string, record: seq<Field<V>>): (st: Statement<V>)
    ensures st.text == "INSERT INTO " + table + " (" + ColumnList(record) + ") VALUES (" + Placeholders(|record|) + ") ON CONFLICT DO NOTHING"
    ensures StartsWith(st.text, "INSERT INTO " + table + " (") && EndsWith(st.text, ") ON CONFLICT DO NOTHING")
    ensures |st.params| == |record| && forall k :: 0 <= k < |record| ==> st.params[k] == record[k].value
  {
    var text := "INSERT INTO " + table + " (" + ColumnList(record) + ") VALUES ("
                + Placeholders(|record|) + ") ON CONFLICT DO NOTHING";
    assert text == ("INSERT INTO " + table + " (") + (ColumnList(record) + ") VALUES (" + Placeholders(|record|)) + ") ON CONFLICT DO NOTHING";
    Statement(text, Values(record))
  }

  lemma Framed(head: string, middle: string, tail: string)
    ensures StartsWith(head + middle + tail, head) && EndsWith(head + middle + tail, tail)
  {
    assert (head + middle + tail)[..|head|] == head;
    assert (head + middle + tail)[|head + middle|..] == tail;
  }

  /** The upsert text read as a head, a middle and the closing ");". */
  lemma UpsertFramed(table: string, keys: string, values: string, index: string)
    ensures var text := "\n            INSERT INTO " + table + " (" + keys + ") VALUES (" + values + ")"
                        + "\n            ON CONFLICT (" + index + ") DO UPDATE SET ("
                        + keys + ") = (" + values + ");";
      StartsWith(text, "\n            INSERT INTO " + table + " (") && EndsWith(text, ");")
  {
    var head := "\n            INSERT INTO " + table + " (";
    var middle := keys + ") VALUES (" + values + ")" + "\n            ON CONFLICT (" + index
                  + ") DO UPDATE SET (" + keys + ") = (" + values;
    Framed(head, middle, ");");
    assert "\n            INSERT INTO " + table + " (" + keys + ") VALUES (" + values + ")"
           + "\n            ON CONFLICT (" + index + ") DO UPDATE SET ("
           + keys + ") = (" + values + ");" == head + middle + ");";
  }

  /** The statement upsert() executes: the placeholders appear twice, once for
      the insert and once for the update, and so do the values. */
  function Upsert<V>(table: string, indexFields: seq<string>, record: seq<Field<V>>): (st: Statement<V>)
    ensures st.text == "\n            INSERT INTO " + table + " (" + ColumnList(record) + ") VALUES (" + Placeholders(|record|) + ")"
                       + "\n            ON CONFLICT (" + Join(indexFields, ",") + ") DO UPDATE SET ("
                       + ColumnList(record) + ") = (" + Placeholders(|record|) + ");"
    ensures StartsWith(st.text, "\n            INSERT INTO " + table + " (") && EndsWith(st.text, ");")
    ensures |st.params| == 2 * |record| && st.params[..|record|] == st.params[|record|..] == Values(record)
  {
    var keys := ColumnList(record);
    var values := Placeholders(|record|);
    var text := "\n            INSERT INTO " + table + " (" + keys + ") VALUES (" + values + ")"
                + "\n            ON CONFLICT (" + Join(indexFields, ",") + ") DO UPDATE SET ("
                + keys + ") = (" + values + ");";
    UpsertFramed(table, keys, values, Join(indexFields, ","));
    var ps := Values(record) + Values(record);
    assert ps[..|record|] == Values(record) && ps[|record|..] == Values(record);
    Statement(text, ps)
  }

  /** execute_returning_value over the rows a statement returned, each row
      given by its values in column order: it asserts exactly one row, then
      exactly one value in it. */
  function ExecuteReturningValue<V>(rows: seq<seq<V>>): (r: Result<V, ExecError>)
    ensures r.Ok? <==> |rows| == 1 && |rows[0]| == 1
    ensures r.Ok? ==> r.value == rows[0][0]
  {
    if |rows| != 1 then Err(AssertionError)
    else
      var values := rows[0];
      if |values| != 1 then Err(AssertionError) else Ok(values[0])
  }

  /** insert() returns the first row the statement returned (RETURNING *);
      `run` stands for the database executing a statement. */
  function InsertReturning<V, R>(table: string, record: seq<Field<V>>, run: Statement<V> -> seq<R>): (r: Result<R, ExecError>)
    ensures r.Ok? <==> run(Insert(table, record)) != []
    ensures r.Err? ==> r.error == IndexError
    ensures r.Ok? ==> r.value == run(Insert(table, record))[0]
  {
    var rows := run(Insert(table, record));
    if |rows| == 0 then Err(IndexError) else Ok(rows[0])
  }

  // ---------------------------------------------------------------------------
  // Placeholders match parameters

  predicate NoPercent<V>(table: string, record: seq<Field<V>>)
  {
    '%' !in table && forall k :: 0 <= k < |record| ==> '%' !in record[k].column
  }

  lemma {:induction false} PlaceholdersCount(n: nat)
    ensures Count(Placeholders(n), '%') == n
    decreases n
  {
    if n == 1 {
      assert Placeholders(1) == "%s";
    } else if n > 1 {
      PlaceholdersCount(n - 1);
      assert Repeat("%s", n)[1..] == Repeat("%s", n - 1);
      assert Placeholders(n) == "%s" + "," + Placeholders(n - 1);
    }
  }

  lemma {:induction false} JoinFree(parts: seq<string>, sep: string, c: char)
    requires c !in sep
    requires forall k :: 0 <= k < |parts| ==> c !in parts[k]
    ensures c !in Join(parts, sep)
    decreases |parts|
  {
    if |parts| > 1 {
      JoinFree(parts[1..], sep, c);
    }
  }

  lemma ColumnListFree<V>(record: seq<Field<V>>)
    requires forall k :: 0 <= k < |record| ==> '%' !in record[k].column
    ensures '%' !in ColumnList(record)
  {
    JoinFree(Columns(record), ",", '%');
  }

  lemma CountNone(s: string)
    requires '%' !in s
    ensures Count(s, '%') == 0
  {
    CountAbsent(s, '%');
  }

  /** The '%' count of a statement that interpolates one list of placeholders
      between '%'-free pieces. */
  lemma CountInsertShape(p1: string, table: string, p2: string, keys: string, p3: string, values: string, p4: string)
    requires '%' !in p1 && '%' !in table && '%' !in p2 && '%' !in keys && '%' !in p3 && '%' !in p4
    ensures Count(p1 + table + p2 + keys + p3 + values + p4, '%') == Count(values, '%')
  {
  }

  /** insert(): when neither the table name nor a column name holds a '%',
      the statement has exactly one placeholder per value it passes. */
  lemma InsertPlaceholdersMatch<V>(table: string, record: seq<Field<V>>)
    requires NoPercent(table, record)
    ensures Count(Insert(table, record).text, '%') == |Insert(table, record).params| == |record|
  {
    ColumnListFree(record);
    PlaceholdersCount(|record|);
    CountInsertShape("INSERT INTO ", table, " (", ColumnList(record), ") VALUES (",
                     Placeholders(|record|), ") RETURNING *");
  }

  /** insert_unless_conflict(): one placeholder per value it passes. */
  lemma InsertUnlessConflictPlaceholdersMatch<V>(table: string, record: seq<Field<V>>)
    requires NoPercent(table, record)
    ensures Count(InsertUnlessConflict(table, record).text, '%') == |InsertUnlessConflict(table, record).params| == |record|
  {
    ColumnListFree(record);
    PlaceholdersCount(|record|);
    CountInsertShape("INSERT INTO ", table, " (", ColumnList(record), ") VALUES (",
                     Placeholders(|record|), ") ON CONFLICT DO NOTHING");
  }

  /** The '%' count of upsert's shape: two copies of the placeholder list. */
  lemma CountUpsertShape(p1: string, table: string, p2: string, keys: string, p3: string, values: string,
                         p4: string, p5: string, idx: string, p6: string, p7: string, p8: string)
    requires '%' !in p1 && '%' !in table && '%' !in p2 && '%' !in keys && '%' !in p3
    requires '%' !in p4 && '%' !in p5 && '%' !in idx && '%' !in p6 && '%' !in p7 && '%' !in p8
    ensures Count(p1 + table + p2 + keys + p3 + values + p4 + p5 + idx + p6 + keys + p7 + values + p8, '%')
         == 2 * Count(values, '%')
  {
  }

  /** upsert(): 2 * len(record) placeholders against the values passed twice. */
  lemma UpsertPlaceholdersMatch<V>(table: string, indexFields: seq<string>, record: seq<Field<V>>)
    requires NoPercent(table, record)
    requires forall k :: 0 <= k < |indexFields| ==> '%' !in indexFields[k]
    ensures Count(Upsert(table, indexFields, record).text, '%') == |Upsert(table, indexFields, record).params| == 2 * |record|
  {
    ColumnListFree(record);
    PlaceholdersCount(|record|);
    JoinFree(indexFields, ",", '%');
    CountUpsertShape("\n            INSERT INTO ", table, " (", ColumnList(record), ") VALUES (",
                     Placeholders(|record|), ")", "\n            ON CONFLICT (", Join(indexFields, ","),
                     ") DO UPDATE SET (", ") = (", ");");
  }

  /** upsert(): the k-th value of each half of the parameters is the record's
      k-th value, matching the k-th placeholder of the insert list and of the
      update list. */
  lemma UpsertParamsTwice<V>(table: string, indexFields: seq<string>, record: seq<Field<V>>)
    ensures var ps := Upsert(table, indexFields, record).params;
      |ps| == 2 * |record| &&
      forall k :: 0 <= k < |record| ==> ps[k] == record[k].value && ps[|record| + k] == record[k].value
  {
    var ps := Upsert(table, indexFields, record).params;
    assert ps == Values(record) + Values(record);
  }

  /** insert(), insert_unless_conflict() and upsert() name the columns in the
      order they pass the values: when no column name holds a ',', the k-th
      name of the column list their text holds, the k-th placeholder and the
      k-th parameter (of each half, for upsert) belong to the k-th field. */
  lemma ColumnsMatchValues<V>(table: string, indexFields: seq<string>, record: seq<Field<V>>)
    requires |record| >= 1
    requires forall k :: 0 <= k < |record| ==> ',' !in record[k].column
    ensures |Split(ColumnList(record), ',')| == |Split(Placeholders(|record|), ',')| == |Insert(table, record).params|
    ensures |InsertUnlessConflict(table, record).params| == |record|
    ensures |Upsert(table, indexFields, record).params| == 2 * |record|
    ensures forall k :: 0 <= k < |record| ==>
      && Split(ColumnList(record), ',')[k] == record[k].column
      && Split(Placeholders(|record|), ',')[k] == "%s"
      && Insert(table, record).params[k] == record[k].value
      && InsertUnlessConflict(table, record).params[k] == record[k].value
      && Upsert(table, indexFields, record).params[k] == record[k].value
      && Upsert(table, indexFields, record).params[|record| + k] == record[k].value
  {
    SplitJoin(Columns(record), ',');
    SplitJoin(Repeat("%s", |record|), ',');
    UpsertParamsTwice(table, indexFields, record);
  }
}
