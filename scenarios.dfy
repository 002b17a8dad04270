/** The unit tests of the store, restated as lemmas about the catalogue
    functions: each builds the catalogue the test builds, step by step from
    the empty one, and states what the test asserts about it. */
module Scenarios {
  import opened Errors
  import opened Text
  import opened Values
  import opened Where
  import opened TableStore

  /** The WHERE text every test uses. */
  lemma WhereIdEqualsOne()
    ensures ParseWhere("Id = 1") == Ok(ColumnEquals("Id", "1"))
  {
    ParseWhereOf("Id = 1", "Id", " ", " ", "", "1", "");
  }

  // ---------------------------------------------------------------------
  // CanCreateTableAndInsertRow

  function TestRow(): Row {
    map["Id" := Int(1), "Name" := Str("TestUser")]
  }

  /** Creating Test and inserting one row leaves Test present with a single
      row. */
  lemma CanCreateTableAndInsertRow()
    ensures CreateTable(map[], "Test", ["Id", "Name"]).Ok?
    ensures InsertRow(CreateTable(map[], "Test", ["Id", "Name"]).value, "Test", TestRow()).Ok?
    ensures var c := InsertRow(CreateTable(map[], "Test", ["Id", "Name"]).value, "Test", TestRow()).value;
      Lookup(c, "Test").Some? && |Lookup(c, "Test").value.rows| == 1
  {
  }

  // ---------------------------------------------------------------------
  // CanSelectWithWhere

  function UserOne(): Row {
    map["Id" := Int(1), "Name" := Str("Kwanele")]
  }

  function UserTwo(): Row {
    map["Id" := Int(2), "Name" := Str("John")]
  }

  /** InsertRow into a table found in the catalogue appends the row. */
  lemma InsertOfFound(cat: Catalog, name: string, t: Table, row: Row)
    requires Lookup(cat, name) == Some(t)
    ensures InsertRow(cat, name, row).Ok?
    ensures Lookup(InsertRow(cat, name, row).value, name) == Some(t.(rows := t.rows + [row]))
  {
    var t' := Lookup(InsertRow(cat, name, row).value, name).value;
    assert t'.rows == t.rows + [row];
  }

  /** The Users table after its two inserts. */
  lemma UsersBuilt()
    ensures CreateTable(map[], "Users", ["Id", "Name"]).Ok?
    ensures var c0 := CreateTable(map[], "Users", ["Id", "Name"]).value;
      && InsertRow(c0, "Users", UserOne()).Ok?
      && InsertRow(InsertRow(c0, "Users", UserOne()).value, "Users", UserTwo()).Ok?
      && Lookup(InsertRow(InsertRow(c0, "Users", UserOne()).value, "Users", UserTwo()).value, "Users")
         == Some(Table("Users", ["Id", "Name"], [UserOne(), UserTwo()]))
  {
    var name, columns := "Users", ["Id", "Name"];
    var c0 := CreateTable(map[], name, columns).value;
    var t0 := Table(name, columns, []);
    InsertOfFound(c0, name, t0, UserOne());
    var c1 := InsertRow(c0, name, UserOne()).value;
    var t1 := Table(name, columns, [UserOne()]);
    assert t0.(rows := t0.rows + [UserOne()]) == t1;
    InsertOfFound(c1, name, t1, UserTwo());
    assert t1.(rows := t1.rows + [UserTwo()]) == Table(name, columns, [UserOne(), UserTwo()]);
  }

  lemma FilterIdOne()
    ensures FilterRows([UserOne(), UserTwo()], ColumnEquals("Id", "1"), true) == [UserOne()]
  {
    assert Render(Int(1)) == Some("1");
    assert Render(Int(2)) == Some("2");
    assert [UserOne(), UserTwo()][..1] == [UserOne()];
  }

  /** Select "*" under a WHERE returns the passing rows whole. */
  lemma SelectWhole(rows: seq<Row>, where: string, f: Filter)
    requires ParseWhere(where) == Ok(f)
    ensures SelectRows(rows, ["*"], where) == Ok(FilterRows(rows, f, true))
  {
  }

  /** Of the two users only the one with Id 1 is selected, and its Name is
      Kwanele. */
  lemma CanSelectWithWhere()
    ensures CreateTable(map[], "Users", ["Id", "Name"]).Ok?
    ensures var c0 := CreateTable(map[], "Users", ["Id", "Name"]).value;
      && InsertRow(c0, "Users", UserOne()).Ok?
      && InsertRow(InsertRow(c0, "Users", UserOne()).value, "Users", UserTwo()).Ok?
      && var c2 := InsertRow(InsertRow(c0, "Users", UserOne()).value, "Users", UserTwo()).value;
         && Select(c2, "Users", ["*"], "Id = 1") == Ok([UserOne()])
         && UserOne()["Name"] == Str("Kwanele")
  {
    UsersBuilt();
    WhereIdEqualsOne();
    FilterIdOne();
    SelectWhole([UserOne(), UserTwo()], "Id = 1", ColumnEquals("Id", "1"));
  }

  // ---------------------------------------------------------------------
  // CanJoinTables

  function OrderOne(): Row {
    map["OrderId" := Int(101), "UserId" := Int(1)]
  }

  lemma JoinConditionOfTest()
    ensures ParseJoinCondition("t1.Id = t2.UserId") == Ok(JoinOn("Id", "UserId"))
  {
    ParseJoinConditionOf("t1.Id = t2.UserId", "Id", " ", " ", "UserId");
  }

  /** Users with one user and Orders with one order of that user. */
  lemma UsersAndOrdersBuilt()
    ensures CreateTable(map[], "Users", ["Id", "Name"]).Ok?
    ensures var c0 := CreateTable(map[], "Users", ["Id", "Name"]).value;
      && InsertRow(c0, "Users", UserOne()).Ok?
      && var c1 := InsertRow(c0, "Users", UserOne()).value;
      && CreateTable(c1, "Orders", ["OrderId", "UserId"]).Ok?
      && var c2 := CreateTable(c1, "Orders", ["OrderId", "UserId"]).value;
      && InsertRow(c2, "Orders", OrderOne()).Ok?
      && var c3 := InsertRow(c2, "Orders", OrderOne()).value;
      && Lookup(c3, "Users") == Some(Table("Users", ["Id", "Name"], [UserOne()]))
      && Lookup(c3, "Orders") == Some(Table("Orders", ["OrderId", "UserId"], [OrderOne()]))
  {
    var c0 := CreateTable(map[], "Users", ["Id", "Name"]).value;
    var c1 := InsertRow(c0, "Users", UserOne()).value;
    assert Lookup(c1, "Users").value.rows == [UserOne()];
    assert Upper("Orders") != Upper("Users") by {
      assert Upper("Orders")[0] == 'O';
    }
    var c2 := CreateTable(c1, "Orders", ["OrderId", "UserId"]).value;
    var c3 := InsertRow(c2, "Orders", OrderOne()).value;
    assert Lookup(c3, "Orders").value.rows == [OrderOne()];
  }

  lemma JoinOneUserOneOrder()
    ensures JoinAll([UserOne()], [OrderOne()], JoinOn("Id", "UserId")) == [JoinedRow(UserOne(), OrderOne())]
  {
    var on := JoinOn("Id", "UserId");
    assert Pairs(on, UserOne(), OrderOne());
    assert JoinInner(UserOne(), [OrderOne()], on) == [JoinedRow(UserOne(), OrderOne())];
  }

  /** The single user pairs with the single order, giving one joined row;
      JoinedTestRow states its cells. */
  lemma CanJoinTables()
    ensures CreateTable(map[], "Users", ["Id", "Name"]).Ok?
    ensures var c0 := CreateTable(map[], "Users", ["Id", "Name"]).value;
      && InsertRow(c0, "Users", UserOne()).Ok?
      && var c1 := InsertRow(c0, "Users", UserOne()).value;
      && CreateTable(c1, "Orders", ["OrderId", "UserId"]).Ok?
      && var c2 := CreateTable(c1, "Orders", ["OrderId", "UserId"]).value;
      && InsertRow(c2, "Orders", OrderOne()).Ok?
      && var c3 := InsertRow(c2, "Orders", OrderOne()).value;
      && Join(c3, "Users", "Orders", "t1.Id = t2.UserId") == Ok([JoinedRow(UserOne(), OrderOne())])
  {
    UsersAndOrdersBuilt();
    JoinConditionOfTest();
    JoinOneUserOneOrder();
    var c0 := CreateTable(map[], "Users", ["Id", "Name"]).value;
    var c1 := InsertRow(c0, "Users", UserOne()).value;
    var c2 := CreateTable(c1, "Orders", ["OrderId", "UserId"]).value;
    var c3 := InsertRow(c2, "Orders", OrderOne()).value;
    JoinOfFound(c3, "Users", "Orders", "t1.Id = t2.UserId",
      Table("Users", ["Id", "Name"], [UserOne()]), Table("Orders", ["OrderId", "UserId"], [OrderOne()]), JoinOn("Id", "UserId"));
  }

  /** The joined row of the test: t1_Name is the user's Name (Kwanele) and
      t2_OrderId the order's OrderId (101). */
  lemma JoinedTestRow(u: Row, o: Row)
    requires u == UserOne() && o == OrderOne()
    ensures "t1_Name" in JoinedRow(u, o) && JoinedRow(u, o)["t1_Name"] == Str("Kwanele")
    ensures "t2_OrderId" in JoinedRow(u, o) && JoinedRow(u, o)["t2_OrderId"] == Int(101)
  {
    var name, order := "Name", "OrderId";
    PrefixedNames(name, order);
    JoinedCells(u, o, name, order);
  }

  lemma PrefixedNames(name: string, order: string)
    requires name == "Name" && order == "OrderId"
    ensures "t1_" + name == "t1_Name" && "t2_" + order == "t2_OrderId"
  {
  }

  lemma JoinedCells(r1: Row, r2: Row, c1: string, c2: string)
    requires c1 in r1 && c2 in r2
    ensures "t1_" + c1 in JoinedRow(r1, r2) && JoinedRow(r1, r2)["t1_" + c1] == r1[c1]
    ensures "t2_" + c2 in JoinedRow(r1, r2) && JoinedRow(r1, r2)["t2_" + c2] == r2[c2]
  {
    JoinedRowEntries(r1, r2);
  }

  // ---------------------------------------------------------------------
  // CanUpdateAndDelete

  function OldRow(): Row {
    map["Id" := Int(1), "Value" := Str("Old")]
  }

  function NewValues(): Row {
    map["Value" := Str("New")]
  }

  function NewRow(): Row {
    map["Id" := Int(1), "Value" := Str("New")]
  }

  lemma TestTableBuilt()
    ensures CreateTable(map[], "Test", ["Id", "Value"]).Ok?
    ensures var c0 := CreateTable(map[], "Test", ["Id", "Value"]).value;
      && InsertRow(c0, "Test", OldRow()).Ok?
      && Lookup(InsertRow(c0, "Test", OldRow()).value, "Test") == Some(Table("Test", ["Id", "Value"], [OldRow()]))
  {
    var c0 := CreateTable(map[], "Test", ["Id", "Value"]).value;
    var c1 := InsertRow(c0, "Test", OldRow()).value;
    assert Lookup(c1, "Test").value.rows == [OldRow()];
  }

  lemma UpdateOldRow()
    ensures UpdateRows([OldRow()], NewValues(), ColumnEquals("Id", "1")) == [NewRow()]
  {
    assert Render(Int(1)) == Some("1");
    assert OldRow() + NewValues() == NewRow();
  }

  lemma DeleteNewRow()
    ensures FilterRows([NewRow()], ColumnEquals("Id", "1"), false) == []
  {
    assert Render(Int(1)) == Some("1");
  }

  /** Update of a table found in the catalogue under a well-formed WHERE. */
  lemma UpdateOfFound(cat: Catalog, name: string, values: Row, where: string, t: Table, f: Filter)
    requires Lookup(cat, name) == Some(t) && ParseWhere(where) == Ok(f)
    ensures Update(cat, name, values, where).Ok?
    ensures Lookup(Update(cat, name, values, where).value, name) == Some(t.(rows := UpdateRows(t.rows, values, f)))
  {
  }

  /** Delete from a table found in the catalogue under a well-formed WHERE. */
  lemma DeleteOfFound(cat: Catalog, name: string, where: string, t: Table, f: Filter)
    requires Lookup(cat, name) == Some(t) && ParseWhere(where) == Ok(f)
    ensures Delete(cat, name, where).Ok?
    ensures Lookup(Delete(cat, name, where).value, name) == Some(t.(rows := FilterRows(t.rows, f, false)))
  {
  }

  /** Select "*" without WHERE returns the table's rows. */
  lemma SelectAllOf(cat: Catalog, name: string, t: Table)
    requires Lookup(cat, name) == Some(t)
    ensures Select(cat, name, ["*"], "") == Ok(t.rows)
  {
  }

  /** Updating Value where Id = 1 turns the row's Value into New, and
      deleting where Id = 1 then empties the table. */
  lemma CanUpdateAndDelete()
    ensures CreateTable(map[], "Test", ["Id", "Value"]).Ok?
    ensures var c0 := CreateTable(map[], "Test", ["Id", "Value"]).value;
      && InsertRow(c0, "Test", OldRow()).Ok?
      && var c1 := InsertRow(c0, "Test", OldRow()).value;
      && Update(c1, "Test", NewValues(), "Id = 1").Ok?
      && var c2 := Update(c1, "Test", NewValues(), "Id = 1").value;
      && Select(c2, "Test", ["*"], "") == Ok([NewRow()])
      && NewRow()["Value"] == Str("New")
      && Delete(c2, "Test", "Id = 1").Ok?
      && Select(Delete(c2, "Test", "Id = 1").value, "Test", ["*"], "") == Ok([])
  {
    TestTableBuilt();
    WhereIdEqualsOne();
    var name, where, f := "Test", "Id = 1", ColumnEquals("Id", "1");
    var c0 := CreateTable(map[], name, ["Id", "Value"]).value;
    var c1 := InsertRow(c0, name, OldRow()).value;
    var t1 := Table(name, ["Id", "Value"], [OldRow()]);
    UpdateOfFound(c1, name, NewValues(), where, t1, f);
    UpdateOldRow();
    var c2 := Update(c1, name, NewValues(), where).value;
    var t2 := t1.(rows := [NewRow()]);
    SelectAllOf(c2, name, t2);
    DeleteOfFound(c2, name, where, t2, f);
    DeleteNewRow();
    SelectAllOf(Delete(c2, name, where).value, name, t2.(rows := []));
  }

  // ---------------------------------------------------------------------
  // How cells compare

  /** WHERE compares rendered text: the integer 1 and the string "1" both
      match `Id = 1`, a null never does. */
  lemma WhereComparesText(where: string)
    requires where == "Id = 1"
    ensures MatchesWhere(map["Id" := Int(1)], where) == Ok(true)
    ensures MatchesWhere(map["Id" := Str("1")], where) == Ok(true)
    ensures MatchesWhere(map["Id" := Null], where) == Ok(false)
  {
    WhereIdEqualsOne();
    var f := ColumnEquals("Id", "1");
    MatchesParsed(map["Id" := Int(1)], where, f);
    var text := map["Id" := Str("1")];
    assert Render(text["Id"]) == Some("1");
    MatchesParsed(text, where, f);
    MatchesParsed(map["Id" := Null], where, f);
    assert Render(Int(1)) == Some("1");
  }

  /** Column names in a row are compared exactly: `id = 1` does not match a
      row whose column is spelt Id. */
  lemma ColumnNamesExact(where: string)
    requires where == "id = 1"
    ensures MatchesWhere(map["Id" := Int(1)], where) == Ok(false)
  {
    WhereLowerIdEqualsOne();
    SpelledApart("id", "Id", Int(1));
    MissingColumnFails(map["Id" := Int(1)], where, "id", "1");
  }

  /** The lower-case WHERE text parses to the lower-case column. */
  lemma WhereLowerIdEqualsOne()
    ensures ParseWhere("id = 1") == Ok(ColumnEquals("id", "1"))
  {
    ParseWhereOf("id = 1", "id", " ", " ", "", "1", "");
  }

  /** A one-column row lacks every name that differs from its column in the
      first letter. */
  lemma SpelledApart(a: string, b: string, cell: Value)
    requires a != [] && b != [] && a[0] != b[0]
    ensures a !in map[b := cell]
  {
  }

  /** A row without the filter's column does not match. */
  lemma MissingColumnFails(row: Row, where: string, column: string, literal: string)
    requires ParseWhere(where) == Ok(ColumnEquals(column, literal))
    requires column !in row
    ensures MatchesWhere(row, where) == Ok(false)
  {
  }

  lemma MatchesParsed(row: Row, where: string, f: Filter)
    requires ParseWhere(where) == Ok(f)
    ensures MatchesWhere(row, where) == Ok(Holds(f, row))
  {
  }

  /** Join compares cells as values: the integer 1 does not pair with the
      string "1", while two nulls do pair. */
  lemma JoinComparesValues()
    ensures !Pairs(JoinOn("Id", "UserId"), map["Id" := Int(1)], map["UserId" := Str("1")])
    ensures Pairs(JoinOn("Id", "UserId"), map["Id" := Null], map["UserId" := Null])
  {
  }
}
