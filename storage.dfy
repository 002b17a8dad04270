/** The Database object: a case-insensitive dictionary of tables that its
    methods update in place. Each method is proved to leave the dictionary as
    the matching function of module TableStore says, and to report the same
    failure that function reports (a thrown exception in MyOwnDatabase). */
module Storage {
  import opened Errors
  import opened Text
  import opened Values
  import opened Where
  import opened TableStore

  /** A state-changing method behaved as the store function r says: on
      success it reports Pass and leaves after as r's catalogue; on failure it
      reports r's error and leaves the catalogue as it was. */
  predicate Agrees(r: Result<Catalog>, before: Catalog, outcome: Outcome, after: Catalog) {
    match r
    case Ok(c) => outcome == Pass && after == c
    case Err(e) => outcome == Fail(e) && after == before
  }

  /** The projection of one row for Select, built column by column. */
  method ProjectRow(row: Row, columns: seq<string>) returns (entry: Row)
    ensures entry == Project(row, columns)
  {
    if "*" in columns || |columns| == 0 {
      return row;
    }
    entry := map[];
    for i := 0 to |columns|
      invariant entry.Keys == set c | c in columns[..i]
      invariant forall c :: c in entry ==> entry[c] == if c in row then row[c] else Null
    {
      var col := columns[i];
      assert columns[..i + 1] == columns[..i] + [col];
      if col in row {
        entry := entry[col := row[col]];
      } else {
        entry := entry[col := Null];
      }
    }
    assert columns[..|columns|] == columns;
  }

  /** Writes every given key into the row, one key at a time. */
  method MergeValues(row: Row, values: Row) returns (merged: Row)
    ensures merged == row + values
    ensures merged.Keys == row.Keys + values.Keys
    ensures forall c :: c in values ==> merged[c] == values[c]
    ensures forall c :: c in row && c !in values ==> merged[c] == row[c]
  {
    merged := row;
    var pending := values.Keys;
    while pending != {}
      invariant pending <= values.Keys
      invariant merged.Keys == row.Keys + (values.Keys - pending)
      invariant forall c :: c in values && c !in pending ==> merged[c] == values[c]
      invariant forall c :: c in row && c !in values ==> merged[c] == row[c]
      invariant forall c :: c in row && c in pending ==> merged[c] == row[c]
      decreases pending
    {
      var k :| k in pending;
      merged := merged[k := values[k]];
      pending := pending - {k};
    }
    MergedIsUnion(merged, row, values);
  }

  /** A map with the keys of row and values, the entries of values, and the
      other entries of row, is the right-biased union row + values. */
  lemma MergedIsUnion(m: Row, row: Row, values: Row)
    requires m.Keys == row.Keys + values.Keys
    requires forall c :: c in values ==> m[c] == values[c]
    requires forall c :: c in row && c !in values ==> m[c] == row[c]
    ensures m == row + values
  {
    var u := row + values;
    assert m.Keys == u.Keys;
    forall c | c in m
      ensures m[c] == u[c]
    {
    }
  }

  /** One join result, built by copying the first row's entries under "t1_"
      and then the second row's under "t2_". */
  method JoinPair(r1: Row, r2: Row) returns (joined: Row)
    ensures joined == JoinedRow(r1, r2)
  {
    joined := map[];
    var pending := r1.Keys;
    while pending != {}
      invariant pending <= r1.Keys
      invariant forall c :: c in r1 && c !in pending ==> "t1_" + c in joined && joined["t1_" + c] == r1[c]
      invariant forall k :: k in joined ==>
        && |k| >= 3 && k[..3] == "t1_" && k[3..] in r1 && k[3..] !in pending && joined[k] == r1[k[3..]]
      decreases pending
    {
      var c :| c in pending;
      assert ("t1_" + c)[..3] == "t1_" && ("t1_" + c)[3..] == c;
      joined := joined["t1_" + c := r1[c]];
      pending := pending - {c};
    }
    pending := r2.Keys;
    while pending != {}
      invariant pending <= r2.Keys
      invariant forall c :: c in r1 ==> "t1_" + c in joined && joined["t1_" + c] == r1[c]
      invariant forall c :: c in r2 && c !in pending ==> "t2_" + c in joined && joined["t2_" + c] == r2[c]
      invariant forall k :: k in joined ==>
        && |k| >= 3
        && ((k[..3] == "t1_" && k[3..] in r1 && joined[k] == r1[k[3..]])
         || (k[..3] == "t2_" && k[3..] in r2 && k[3..] !in pending && joined[k] == r2[k[3..]]))
      decreases pending
    {
      var c :| c in pending;
      assert ("t2_" + c)[..3] == "t2_" && ("t2_" + c)[3..] == c;
      joined := joined["t2_" + c := r2[c]];
      pending := pending - {c};
    }
    JoinedRowUnique(joined, r1, r2);
  }

  /** A row holding exactly the prefixed entries of r1 and r2 is their join
      result. */
  lemma JoinedRowUnique(m: Row, r1: Row, r2: Row)
    requires forall c :: c in r1 ==> "t1_" + c in m && m["t1_" + c] == r1[c]
    requires forall c :: c in r2 ==> "t2_" + c in m && m["t2_" + c] == r2[c]
    requires forall k :: k in m ==>
      && |k| >= 3
      && ((k[..3] == "t1_" && k[3..] in r1 && m[k] == r1[k[3..]])
       || (k[..3] == "t2_" && k[3..] in r2 && m[k] == r2[k[3..]]))
    ensures m == JoinedRow(r1, r2)
  {
    var j := JoinedRow(r1, r2);
    JoinedRowEntries(r1, r2);
    JoinedKeysWithin(m, r1, r2);
    JoinedKeysCovered(m, r1, r2);
    forall k | k in m
      ensures j[k] == m[k]
    {
      var c := k[3..];
      if k[..3] == "t1_" && c in r1 && m[k] == r1[c] {
        assert k == "t1_" + c;
      } else {
        assert k == "t2_" + c;
      }
    }
  }

  lemma JoinedKeysWithin(m: Row, r1: Row, r2: Row)
    requires forall k :: k in m ==>
      |k| >= 3 && ((k[..3] == "t1_" && k[3..] in r1) || (k[..3] == "t2_" && k[3..] in r2))
    ensures m.Keys <= JoinedRow(r1, r2).Keys
  {
    forall k | k in m
      ensures k in JoinedRow(r1, r2)
    {
      JoinedKeyIn(k, r1, r2);
    }
  }

  lemma JoinedKeyIn(k: string, r1: Row, r2: Row)
    requires |k| >= 3 && ((k[..3] == "t1_" && k[3..] in r1) || (k[..3] == "t2_" && k[3..] in r2))
    ensures k in JoinedRow(r1, r2)
  {
    var c := k[3..];
    if k[..3] == "t1_" && c in r1 {
      JoinedRowLeft(r1, r2);
      assert k == "t1_" + c;
    } else {
      JoinedRowRight(r1, r2);
      assert k == "t2_" + c;
    }
  }

  lemma JoinedKeysCovered(m: Row, r1: Row, r2: Row)
    requires forall c :: c in r1 ==> "t1_" + c in m
    requires forall c :: c in r2 ==> "t2_" + c in m
    ensures JoinedRow(r1, r2).Keys <= m.Keys
  {
    var j := JoinedRow(r1, r2);
    JoinedRowKeys(r1, r2);
    forall k | k in j
      ensures k in m
    {
      var c := k[3..];
      if k[..3] == "t1_" && c in r1 {
        assert k == "t1_" + c;
      } else {
        assert k == "t2_" + c;
      }
    }
  }

  /** The rows while Update is part-way: the first i updated, the rest as
      they were. */
  ghost predicate PartlyUpdated(rows: seq<Row>, orig: seq<Row>, values: Row, f: Filter, i: nat) {
    && |rows| == |orig| && i <= |orig|
    && (forall k :: 0 <= k < i ==> rows[k] == UpdatedRow(orig[k], values, f))
    && (forall k :: i <= k < |orig| ==> rows[k] == orig[k])
  }

  lemma PartlyUpdatedStep(rows: seq<Row>, orig: seq<Row>, values: Row, f: Filter, i: nat, next: Row)
    requires PartlyUpdated(rows, orig, values, f, i) && i < |orig|
    requires next == UpdatedRow(orig[i], values, f)
    ensures PartlyUpdated(rows[i := next], orig, values, f, i + 1)
  {
  }

  lemma PartlyUpdatedAll(rows: seq<Row>, orig: seq<Row>, values: Row, f: Filter)
    requires PartlyUpdated(rows, orig, values, f, |orig|)
    ensures rows == UpdateRows(orig, values, f)
  {
  }

  /** The loop of Update: visits the rows in order and overwrites the given
      keys of each row passing the WHERE; a bad WHERE fails on the first row,
      before any change. */
  method UpdateTableRows(t: Table, values: Row, where: string) returns (r: Result<Table>)
    ensures r == UpdateIn(t, values, where)
  {
    ghost var parsed := ParseWhere(where);
    ghost var f := if parsed.Ok? then parsed.value else MatchAll;
    var rows := t.rows;
    for i := 0 to |rows|
      invariant PartlyUpdated(rows, t.rows, values, f, i)
      invariant parsed.Err? ==> i == 0
    {
      var row := rows[i];
      var pass := true;
      if where != "" {
        var m := MatchesWhere(row, where);
        if m.Err? {
          return Err(m.error);
        }
        pass := m.value;
      }
      assert pass == Holds(f, row);
      if pass {
        var merged := MergeValues(row, values);
        PartlyUpdatedStep(rows, t.rows, values, f, i, merged);
        rows := rows[i := merged];
      } else {
        PartlyUpdatedStep(rows, t.rows, values, f, i, row);
        assert rows[i := row] == rows;
      }
    }
    PartlyUpdatedAll(rows, t.rows, values, f);
    return Ok(t.(rows := rows));
  }

  /** The nested loops of Join: the first table's rows outside, the
      second's inside, a result row for every pair meeting the condition. */
  method JoinRows(rows1: seq<Row>, rows2: seq<Row>, cond: JoinOn) returns (results: seq<Row>)
    ensures results == JoinAll(rows1, rows2, cond)
  {
    results := [];
    for i := 0 to |rows1|
      invariant results == JoinAll(rows1[..i], rows2, cond)
    {
      var r1 := rows1[i];
      ghost var outer := results;
      for j := 0 to |rows2|
        invariant results == outer + JoinInner(r1, rows2[..j], cond)
      {
        var r2 := rows2[j];
        ghost var before := results;
        if cond.left in r1 && cond.right in r2 && r1[cond.left] == r2[cond.right] {
          var joined := JoinPair(r1, r2);
          results := results + [joined];
        }
        JoinInnerStep(r1, rows2, j, cond, outer, before, results);
      }
      assert rows2[..|rows2|] == rows2;
      JoinAllStep(rows1, i, rows2, cond);
    }
    assert rows1[..|rows1|] == rows1;
  }

  /** One step of the inner loop of JoinRows. */
  lemma JoinInnerStep(r1: Row, rows2: seq<Row>, j: nat, cond: JoinOn, prefix: seq<Row>, before: seq<Row>, after: seq<Row>)
    requires j < |rows2|
    requires before == prefix + JoinInner(r1, rows2[..j], cond)
    requires after == before + if Pairs(cond, r1, rows2[j]) then [JoinedRow(r1, rows2[j])] else []
    ensures after == prefix + JoinInner(r1, rows2[..j + 1], cond)
  {
    assert rows2[..j + 1][..j] == rows2[..j];
  }

  /** One step of the outer loop of JoinRows. */
  lemma JoinAllStep(rows1: seq<Row>, i: nat, rows2: seq<Row>, cond: JoinOn)
    requires i < |rows1|
    ensures JoinAll(rows1[..i + 1], rows2, cond) == JoinAll(rows1[..i], rows2, cond) + JoinInner(rows1[i], rows2, cond)
  {
    assert rows1[..i + 1][..i] == rows1[..i];
  }

  class Database {
    /** The tables, filed under their upper-cased names. */
    var tables: Catalog

    /** Every table is filed under its upper-cased name: established by
        the constructor and kept by every method that changes the tables. */
    predicate Valid()
      reads this
    {
      WellKeyed(tables)
    }

    constructor ()
      ensures tables == map[] && Valid()
    {
      tables := map[];
    }

    method CreateTable(name: string, columns: seq<string>) returns (outcome: Outcome)
      requires Valid()
      modifies this
      ensures Agrees(TableStore.CreateTable(old(tables), name, columns), old(tables), outcome, tables)
      ensures Valid()
    {
      if Upper(name) in tables {
        return Fail(TableAlreadyExists);
      }
      tables := tables[Upper(name) := Table(name, columns, [])];
      return Pass;
    }

    method InsertRow(name: string, values: Row) returns (outcome: Outcome)
      requires Valid()
      modifies this
      ensures Agrees(TableStore.InsertRow(old(tables), name, values), old(tables), outcome, tables)
      ensures Valid()
    {
      if Upper(name) !in tables {
        return Fail(TableNotFound);
      }
      var t := tables[Upper(name)];
      tables := tables[Upper(name) := t.(rows := t.rows + [values])];
      return Pass;
    }

    /** Scans the rows in order, checking the WHERE on each (so a bad WHERE
        fails on the first row) and projecting each row that passes. */
    method Select(name: string, columns: seq<string>, where: string) returns (result: Result<seq<Row>>)
      ensures result == TableStore.Select(tables, name, columns, where)
    {
      if Upper(name) !in tables {
        return Err(TableNotFound);
      }
      var rows := tables[Upper(name)].rows;
      ghost var parsed := ParseWhere(where);
      var results: seq<Row> := [];
      for i := 0 to |rows|
        invariant parsed.Err? ==> i == 0 && results == []
        invariant parsed.Ok? ==> results == ProjectRows(FilterRows(rows[..i], parsed.value, true), columns)
      {
        var row := rows[i];
        var pass := true;
        if where != "" {
          var m := MatchesWhere(row, where);
          if m.Err? {
            return Err(m.error);
          }
          pass := m.value;
        }
        SelectStep(rows, i, parsed.value, columns);
        if pass {
          var entry := ProjectRow(row, columns);
          results := results + [entry];
        }
      }
      assert rows[..|rows|] == rows;
      return Ok(results);
    }

    /** Update: a missing table fails; otherwise the table's rows are
        rewritten by UpdateTableRows and stored back. */
    method Update(name: string, values: Row, where: string) returns (outcome: Outcome)
      requires Valid()
      modifies this
      ensures Agrees(TableStore.Update(old(tables), name, values, where), old(tables), outcome, tables)
      ensures Valid()
    {
      var key := Upper(name);
      if key !in tables {
        return Fail(TableNotFound);
      }
      var r := UpdateTableRows(tables[key], values, where);
      match r
      case Err(e) =>
        return Fail(e);
      case Ok(t) =>
        tables := Put(tables, name, t);
        return Pass;
    }

    /** Removes every row passing the WHERE (List.RemoveAll). */
    method Delete(name: string, where: string) returns (outcome: Outcome)
      requires Valid()
      modifies this
      ensures Agrees(TableStore.Delete(old(tables), name, where), old(tables), outcome, tables)
      ensures Valid()
    {
      var key := Upper(name);
      if key !in tables {
        return Fail(TableNotFound);
      }
      match DeleteIn(tables[key], where)
      case Err(e) =>
        return Fail(e);
      case Ok(t) =>
        tables := tables[key := t];
        return Pass;
    }

    /** Looks up both tables, parses the condition, then joins with the first
        table's rows in the outer loop and the second's in the inner loop. */
    method Join(table1: string, table2: string, on: string) returns (result: Result<seq<Row>>)
      ensures result == TableStore.Join(tables, table1, table2, on)
    {
      if Upper(table1) !in tables || Upper(table2) !in tables {
        return Err(TableNotFound);
      }
      var t1, t2 := tables[Upper(table1)], tables[Upper(table2)];
      var parts := Split(on, '=');
      if |parts| != 2 {
        JoinOfBadCondition(tables, table1, table2, on);
        return Err(InvalidJoinCondition);
      }
      var left := Trim(parts[0], IsWhiteSpace);
      var right := Trim(parts[1], IsWhiteSpace);
      var cond := JoinOn(Erase(left, "t1."), Erase(right, "t2."));
      assert ParseJoinCondition(on) == Ok(cond);
      var results := JoinRows(t1.rows, t2.rows, cond);
      JoinOfFound(tables, table1, table2, on, t1, t2, cond);
      return Ok(results);
    }
  }
}
