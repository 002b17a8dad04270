/** The table store as values: tables, the case-insensitive catalogue of
    tables, and every operation of the store as a function of the catalogue
    before the call. The Database class in module Storage runs these
    operations step by step and is proved to agree with them. */
module TableStore {
  import opened Errors
  import opened Text
  import opened Values
  import opened Where

  /** A table: its name as first spelled, its declared (advisory) columns and
      its rows in insertion order. */
  datatype Table = Table(name: string, columns: seq<string>, rows: seq<Row>)

  /** The tables, filed under the upper-cased table name: the
      case-insensitive dictionary of the store. */
  type Catalog = map<string, Table>

  /** Every table is filed under the upper-cased form of its own name. */
  predicate WellKeyed(cat: Catalog) {
    forall key | key in cat :: Upper(cat[key].name) == key
  }

  /** Dictionary.TryGetValue under StringComparer.OrdinalIgnoreCase. */
  function Lookup(cat: Catalog, name: string): (r: Option<Table>)
    ensures r.Some? <==> Upper(name) in cat
    ensures r.Some? && WellKeyed(cat) ==> Upper(r.value.name) == Upper(name)
  {
    if Upper(name) in cat then Some(cat[Upper(name)]) else None
  }

  /** Every table other than the one called name is found the same in a and b. */
  ghost predicate SameExcept(a: Catalog, b: Catalog, name: string) {
    forall other :: Upper(other) != Upper(name) ==> Lookup(a, other) == Lookup(b, other)
  }

  /** Files t under name, in place of whatever was filed there. */
  function Put(cat: Catalog, name: string, t: Table): (r: Catalog)
    ensures Lookup(r, name) == Some(t)
    ensures r.Keys == cat.Keys + {Upper(name)}
    ensures SameExcept(cat, r, name)
    ensures WellKeyed(cat) && Upper(t.name) == Upper(name) ==> WellKeyed(r)
  {
    cat[Upper(name) := t]
  }

  // ---------------------------------------------------------------------
  // CreateTable and InsertRow

  /** CreateTable: fails if a table of that name exists in any letter case;
      otherwise adds exactly one table, with the given spelling and columns
      and no rows, and leaves every other table as it was. */
  function CreateTable(cat: Catalog, name: string, columns: seq<string>): (r: Result<Catalog>)
    ensures r.Err? <==> Lookup(cat, name).Some?
    ensures r.Err? ==> r.error == TableAlreadyExists
    ensures r.Ok? ==> Lookup(r.value, name) == Some(Table(name, columns, []))
    ensures r.Ok? ==> r.value.Keys == cat.Keys + {Upper(name)} && |r.value| == |cat| + 1
    ensures r.Ok? ==> SameExcept(cat, r.value, name)
    ensures r.Ok? && WellKeyed(cat) ==> WellKeyed(r.value)
  {
    if Upper(name) in cat then Err(TableAlreadyExists)
    else Ok(Put(cat, name, Table(name, columns, [])))
  }

  /** Creating a table twice fails the second time, whatever the case of the
      second spelling. */
  lemma CreateTwiceFails(cat: Catalog, name: string, again: string, columns: seq<string>, columns': seq<string>)
    requires Upper(again) == Upper(name)
    requires CreateTable(cat, name, columns).Ok?
    ensures CreateTable(CreateTable(cat, name, columns).value, again, columns') == Err(TableAlreadyExists)
  {
  }

  /** InsertRow: fails on a missing table; otherwise appends exactly the given
      row after the existing ones, without checking it against the declared
      columns, and changes nothing else. */
  function InsertRow(cat: Catalog, name: string, values: Row): (r: Result<Catalog>)
    ensures r.Err? <==> Lookup(cat, name).None?
    ensures r.Err? ==> r.error == TableNotFound
    ensures r.Ok? ==> Lookup(r.value, name).Some?
    ensures r.Ok? ==>
      var t, t' := Lookup(cat, name).value, Lookup(r.value, name).value;
      && t'.name == t.name && t'.columns == t.columns
      && |t'.rows| == |t.rows| + 1 && t'.rows[..|t.rows|] == t.rows && t'.rows[|t.rows|] == values
    ensures r.Ok? ==> r.value.Keys == cat.Keys && SameExcept(cat, r.value, name)
    ensures r.Ok? && WellKeyed(cat) ==> WellKeyed(r.value)
  {
    match Lookup(cat, name)
    case None => Err(TableNotFound)
    case Some(t) =>
      var t' := t.(rows := t.rows + [values]);
      assert t'.rows[..|t.rows|] == t.rows;
      Ok(Put(cat, name, t'))
  }

  // ---------------------------------------------------------------------
  // Filtering rows

  /** The rows whose verdict under f equals keep, in their stored order. */
  function FilterRows(rows: seq<Row>, f: Filter, keep: bool): (r: seq<Row>)
    ensures |r| <= |rows|
    ensures forall x :: x in r <==> x in rows && Holds(f, x) == keep
    decreases |rows|
  {
    if rows == [] then []
    else
      var init, last := rows[..|rows| - 1], rows[|rows| - 1];
      assert rows == init + [last];
      if Holds(f, last) == keep then FilterRows(init, f, keep) + [last] else FilterRows(init, f, keep)
  }

  /** Filtering distributes over concatenation: relative order is kept. */
  lemma {:induction false} FilterAppend(a: seq<Row>, b: seq<Row>, f: Filter, keep: bool)
    ensures FilterRows(a + b, f, keep) == FilterRows(a, f, keep) + FilterRows(b, f, keep)
    decreases |b|
  {
    if b == [] {
      assert a + b == a;
    } else {
      var b0 := b[..|b| - 1];
      assert (a + b)[..|a + b| - 1] == a + b0;
      assert (a + b)[|a + b| - 1] == b[|b| - 1];
      FilterAppend(a, b0, f, keep);
    }
  }

  /** A filter every row passes keeps the rows exactly. */
  lemma {:induction false} FilterKeepsAll(rows: seq<Row>, f: Filter, keep: bool)
    requires forall x :: x in rows ==> Holds(f, x) == keep
    ensures FilterRows(rows, f, keep) == rows
    decreases |rows|
  {
    if rows != [] {
      var init, last := rows[..|rows| - 1], rows[|rows| - 1];
      assert rows == init + [last];
      forall x | x in init
        ensures Holds(f, x) == keep
      {
        assert x in rows;
      }
      FilterKeepsAll(init, f, keep);
      assert Holds(f, last) == keep;
    }
  }

  /** No row fails the empty filter, so dropping the rows that fail it
      leaves none. */
  lemma FilterDropsAll(rows: seq<Row>)
    ensures FilterRows(rows, MatchAll, false) == []
  {
  }

  /** The rows a filter keeps and the rows it drops make up the table. */
  lemma {:induction false} FilterPartition(rows: seq<Row>, f: Filter)
    ensures multiset(FilterRows(rows, f, true)) + multiset(FilterRows(rows, f, false)) == multiset(rows)
    decreases |rows|
  {
    if rows != [] {
      var init := rows[..|rows| - 1];
      FilterPartition(init, f);
      assert rows == init + [rows[|rows| - 1]];
    }
  }

  /** Filtering twice with the same filter is filtering once. */
  lemma FilterIdempotent(rows: seq<Row>, f: Filter, keep: bool)
    ensures FilterRows(FilterRows(rows, f, keep), f, keep) == FilterRows(rows, f, keep)
  {
    FilterKeepsAll(FilterRows(rows, f, keep), f, keep);
  }

  // ---------------------------------------------------------------------
  // Select

  /** One Select entry: the whole row when "*" is requested or no column is,
      otherwise exactly the requested columns, null for one the row lacks. */
  function Project(row: Row, columns: seq<string>): (r: Row)
    ensures "*" in columns || columns == [] ==> r == row
    ensures !("*" in columns || columns == []) ==>
      && (forall c :: c in r <==> c in columns)
      && (forall c :: c in r ==> r[c] == if c in row then row[c] else Null)
  {
    if "*" in columns || columns == [] then row
    else map c | c in columns :: if c in row then row[c] else Null
  }

  /** The projection of each row, in order. */
  function ProjectRows(rows: seq<Row>, columns: seq<string>): (r: seq<Row>)
    ensures |r| == |rows|
    ensures forall k :: 0 <= k < |rows| ==> r[k] == Project(rows[k], columns)
    ensures "*" in columns || columns == [] ==> r == rows
  {
    seq(|rows|, k requires 0 <= k < |rows| => Project(rows[k], columns))
  }

  /** Extending the scanned prefix by one row adds that row's projection
      exactly when it passes the filter. */
  lemma SelectStep(rows: seq<Row>, i: nat, f: Filter, columns: seq<string>)
    requires i < |rows|
    ensures ProjectRows(FilterRows(rows[..i + 1], f, true), columns)
         == ProjectRows(FilterRows(rows[..i], f, true), columns)
            + if Holds(f, rows[i]) then [Project(rows[i], columns)] else []
  {
    assert rows[..i + 1][..i] == rows[..i];
    var kept := FilterRows(rows[..i], f, true);
    if Holds(f, rows[i]) {
      assert ProjectRows(kept + [rows[i]], columns) == ProjectRows(kept, columns) + [Project(rows[i], columns)];
    }
  }

  /** Select on the rows of one table. The WHERE text is checked row by row,
      so a bad one fails only when there is a row to check. */
  function SelectRows(rows: seq<Row>, columns: seq<string>, where: string): (r: Result<seq<Row>>)
    ensures r.Err? <==> rows != [] && BadWhere(where)
    ensures r.Err? ==> r.error == InvalidWhereClause
    ensures r.Ok? ==> |r.value| <= |rows|
    ensures where == "" ==> r == Ok(ProjectRows(rows, columns))
  {
    match ParseWhere(where)
    case Err(e) => if rows == [] then Ok([]) else Err(e)
    case Ok(f) =>
      if f == MatchAll then FilterKeepsAll(rows, f, true); Ok(ProjectRows(FilterRows(rows, f, true), columns))
      else Ok(ProjectRows(FilterRows(rows, f, true), columns))
  }

  /** Select: fails on a missing table; otherwise it is the selection on that
      table's rows. */
  function Select(cat: Catalog, name: string, columns: seq<string>, where: string): (r: Result<seq<Row>>)
    ensures Lookup(cat, name).None? ==> r == Err(TableNotFound)
    ensures Lookup(cat, name).Some? ==> r == SelectRows(Lookup(cat, name).value.rows, columns, where)
  {
    match Lookup(cat, name)
    case None => Err(TableNotFound)
    case Some(t) => SelectRows(t.rows, columns, where)
  }

  /** Select returns the projection of every row passing the filter, and
      nothing else. */
  lemma SelectEntries(rows: seq<Row>, columns: seq<string>, where: string, f: Filter)
    requires ParseWhere(where) == Ok(f)
    ensures SelectRows(rows, columns, where).Ok?
    ensures var out := SelectRows(rows, columns, where).value;
      && (forall row :: row in rows && Holds(f, row) ==> Project(row, columns) in out)
      && (forall x :: x in out ==> exists row :: row in rows && Holds(f, row) && x == Project(row, columns))
  {
    var kept := FilterRows(rows, f, true);
    var out := ProjectRows(kept, columns);
    assert SelectRows(rows, columns, where).value == out;
    forall row | row in rows && Holds(f, row)
      ensures Project(row, columns) in out
    {
      var k :| 0 <= k < |kept| && kept[k] == row;
      assert out[k] == Project(row, columns);
    }
    forall x | x in out
      ensures exists row :: row in rows && Holds(f, row) && x == Project(row, columns)
    {
      var k :| 0 <= k < |out| && out[k] == x;
      assert kept[k] in kept;
    }
  }

  /** Select keeps stored order: the entries for a + b are those for a
      followed by those for b. */
  lemma SelectAppend(a: seq<Row>, b: seq<Row>, columns: seq<string>, where: string)
    requires ParseWhere(where).Ok?
    ensures SelectRows(a + b, columns, where).Ok?
    ensures SelectRows(a + b, columns, where).value
         == SelectRows(a, columns, where).value + SelectRows(b, columns, where).value
  {
    var f := ParseWhere(where).value;
    FilterAppend(a, b, f, true);
    var fa, fb := FilterRows(a, f, true), FilterRows(b, f, true);
    ProjectAppend(fa, fb, columns);
    SelectRowsOf(a + b, columns, where, f);
    SelectRowsOf(a, columns, where, f);
    SelectRowsOf(b, columns, where, f);
  }

  lemma ProjectAppend(a: seq<Row>, b: seq<Row>, columns: seq<string>)
    ensures ProjectRows(a + b, columns) == ProjectRows(a, columns) + ProjectRows(b, columns)
  {
    assert |ProjectRows(a + b, columns)| == |a| + |b|;
  }

  lemma SelectRowsOf(rows: seq<Row>, columns: seq<string>, where: string, f: Filter)
    requires ParseWhere(where) == Ok(f)
    ensures SelectRows(rows, columns, where) == Ok(ProjectRows(FilterRows(rows, f, true), columns))
  {
  }

  // ---------------------------------------------------------------------
  // Update

  /** One row under Update: if it passes f, every given key is overwritten
      or added and its other keys are kept; otherwise it stays as it was. */
  function UpdatedRow(row: Row, values: Row, f: Filter): (r: Row)
    ensures !Holds(f, row) ==> r == row
    ensures Holds(f, row) ==>
      && r.Keys == row.Keys + values.Keys
      && (forall c :: c in values ==> r[c] == values[c])
      && (forall c :: c in row && c !in values ==> r[c] == row[c])
  {
    if Holds(f, row) then row + values else row
  }

  /** Update's rows: each row updated in place, so count and order are kept. */
  function UpdateRows(rows: seq<Row>, values: Row, f: Filter): (r: seq<Row>)
    ensures |r| == |rows|
    ensures forall k :: 0 <= k < |rows| ==> r[k] == UpdatedRow(rows[k], values, f)
  {
    seq(|rows|, k requires 0 <= k < |rows| => UpdatedRow(rows[k], values, f))
  }

  /** Update on one table: a bad WHERE fails only when there is a row to
      check (before any row is written); otherwise the table keeps its name,
      columns, row count and row order, and its rows are updated as
      UpdateRows says. */
  function UpdateIn(t: Table, values: Row, where: string): (r: Result<Table>)
    ensures r.Err? <==> t.rows != [] && BadWhere(where)
    ensures r.Err? ==> r.error == InvalidWhereClause
    ensures r.Ok? ==> r.value.name == t.name && r.value.columns == t.columns && |r.value.rows| == |t.rows|
    ensures ParseWhere(where).Ok? ==> r == Ok(t.(rows := UpdateRows(t.rows, values, ParseWhere(where).value)))
  {
    match ParseWhere(where)
    case Err(e) => if t.rows == [] then Ok(t) else Err(e)
    case Ok(f) => Ok(t.(rows := UpdateRows(t.rows, values, f)))
  }

  /** Update: fails on a missing table; otherwise the named table is updated
      as UpdateIn says and no other table changes. */
  function Update(cat: Catalog, name: string, values: Row, where: string): (r: Result<Catalog>)
    ensures Lookup(cat, name).None? ==> r == Err(TableNotFound)
    ensures Lookup(cat, name).Some? ==>
      var u := UpdateIn(Lookup(cat, name).value, values, where);
      && (r.Err? <==> u.Err?)
      && (r.Err? ==> r.error == u.error)
      && (r.Ok? ==> Lookup(r.value, name) == Some(u.value))
    ensures r.Ok? ==> r.value.Keys == cat.Keys && SameExcept(cat, r.value, name)
    ensures r.Ok? && WellKeyed(cat) ==> WellKeyed(r.value)
  {
    match Lookup(cat, name)
    case None => Err(TableNotFound)
    case Some(t) =>
      match UpdateIn(t, values, where)
      case Err(e) => Err(e)
      case Ok(t') => Ok(Put(cat, name, t'))
  }

  /** Updating a row twice with the same values and filter is updating it
      once. */
  lemma UpdatedRowIdempotent(row: Row, values: Row, f: Filter)
    ensures UpdatedRow(UpdatedRow(row, values, f), values, f) == UpdatedRow(row, values, f)
  {
    if Holds(f, row) {
      var once := row + values;
      assert once + values == once;
    }
  }

  /** Updating the rows twice with the same values and filter is updating
      them once. */
  lemma UpdateRowsIdempotent(rows: seq<Row>, values: Row, f: Filter)
    ensures UpdateRows(UpdateRows(rows, values, f), values, f) == UpdateRows(rows, values, f)
  {
    var once := UpdateRows(rows, values, f);
    var twice := UpdateRows(once, values, f);
    forall k | 0 <= k < |once|
      ensures twice[k] == once[k]
    {
      UpdatedRowIdempotent(rows[k], values, f);
    }
  }

  /** Applying the same update twice gives the state of applying it once. */
  lemma UpdateIdempotent(cat: Catalog, name: string, values: Row, where: string)
    requires Update(cat, name, values, where).Ok?
    ensures Update(Update(cat, name, values, where).value, name, values, where)
         == Update(cat, name, values, where)
  {
    var t := Lookup(cat, name).value;
    var t' := UpdateIn(t, values, where).value;
    if ParseWhere(where).Ok? {
      UpdateRowsIdempotent(t.rows, values, ParseWhere(where).value);
    }
    assert UpdateIn(t', values, where) == Ok(t');
    assert Put(Put(cat, name, t'), name, t') == Put(cat, name, t');
  }

  // ---------------------------------------------------------------------
  // Delete

  /** Delete on one table: a bad WHERE fails only when there is a row to
      check; otherwise exactly the rows failing the WHERE remain, in the
      relative order they had, and an empty WHERE empties the table. */
  function DeleteIn(t: Table, where: string): (r: Result<Table>)
    ensures r.Err? <==> t.rows != [] && BadWhere(where)
    ensures r.Err? ==> r.error == InvalidWhereClause
    ensures r.Ok? ==> r.value.name == t.name && r.value.columns == t.columns && |r.value.rows| <= |t.rows|
    ensures r.Ok? && where == "" ==> r.value.rows == []
    ensures ParseWhere(where).Ok? ==> r == Ok(t.(rows := FilterRows(t.rows, ParseWhere(where).value, false)))
  {
    match ParseWhere(where)
    case Err(e) => if t.rows == [] then Ok(t) else Err(e)
    case Ok(f) =>
      if f == MatchAll then FilterDropsAll(t.rows); Ok(t.(rows := FilterRows(t.rows, f, false)))
      else Ok(t.(rows := FilterRows(t.rows, f, false)))
  }

  /** Delete: fails on a missing table; otherwise the named table loses rows
      as DeleteIn says and no other table changes. */
  function Delete(cat: Catalog, name: string, where: string): (r: Result<Catalog>)
    ensures Lookup(cat, name).None? ==> r == Err(TableNotFound)
    ensures Lookup(cat, name).Some? ==>
      var d := DeleteIn(Lookup(cat, name).value, where);
      && (r.Err? <==> d.Err?)
      && (r.Err? ==> r.error == d.error)
      && (r.Ok? ==> Lookup(r.value, name) == Some(d.value))
    ensures r.Ok? ==> r.value.Keys == cat.Keys && SameExcept(cat, r.value, name)
    ensures r.Ok? && WellKeyed(cat) ==> WellKeyed(r.value)
  {
    match Lookup(cat, name)
    case None => Err(TableNotFound)
    case Some(t) =>
      match DeleteIn(t, where)
      case Err(e) => Err(e)
      case Ok(t') => Ok(Put(cat, name, t'))
  }

  /** Repeating a delete changes nothing more. */
  lemma DeleteIdempotent(cat: Catalog, name: string, where: string)
    requires Delete(cat, name, where).Ok?
    ensures Delete(Delete(cat, name, where).value, name, where) == Delete(cat, name, where)
  {
    var t := Lookup(cat, name).value;
    var t' := DeleteIn(t, where).value;
    if ParseWhere(where).Ok? {
      FilterIdempotent(t.rows, ParseWhere(where).value, false);
    }
    assert DeleteIn(t', where) == Ok(t');
    assert Put(Put(cat, name, t'), name, t') == Put(cat, name, t');
  }

  /** The rows Delete keeps and the rows Select returns under "*" together are
      the table's rows, each as often as before. */
  lemma DeleteSelectPartition(t: Table, where: string)
    requires ParseWhere(where).Ok?
    ensures DeleteIn(t, where).Ok? && SelectRows(t.rows, ["*"], where).Ok?
    ensures multiset(DeleteIn(t, where).value.rows) + multiset(SelectRows(t.rows, ["*"], where).value)
         == multiset(t.rows)
  {
    var f := ParseWhere(where).value;
    assert DeleteIn(t, where).value.rows == FilterRows(t.rows, f, false);
    assert SelectRows(t.rows, ["*"], where).value == FilterRows(t.rows, f, true);
    FilterPartition(t.rows, f);
  }

  // ---------------------------------------------------------------------
  // Join

  /** The two column names of a join condition. */
  datatype JoinOn = JoinOn(left: string, right: string)

  /** Parses `t1.Column = t2.Column`: the text must hold exactly one '='; the
      left column is the trimmed left part with every "t1." deleted, the
      right one the trimmed right part with every "t2." deleted. */
  function ParseJoinCondition(on: string): (r: Result<JoinOn>)
    ensures r.Ok? <==> Count(on, '=') == 1
    ensures r.Err? ==> r.error == InvalidJoinCondition
    ensures r.Ok? ==>
      var k := IndexOf(on, '=');
      r.value == JoinOn(Erase(Trim(on[..k], IsWhiteSpace), "t1."), Erase(Trim(on[k + 1..], IsWhiteSpace), "t2."))
  {
    var parts := Split(on, '=');
    if |parts| != 2 then Err(InvalidJoinCondition)
    else
      SplitOnce(on, '=');
      Ok(JoinOn(Erase(Trim(parts[0], IsWhiteSpace), "t1."), Erase(Trim(parts[1], IsWhiteSpace), "t2.")))
  }

  /** A condition written `t1.<left> = t2.<right>`, with any white space
      around the '=', names the columns left and right, provided they hold
      no '=' and no '.' and do not end in white space. */
  lemma ParseJoinConditionOf(on: string, left: string, pre: string, post: string, right: string)
    requires on == "t1." + left + pre + "=" + post + "t2." + right
    requires left != [] && '=' !in left && '.' !in left && !IsWhiteSpace(left[|left| - 1])
    requires right != [] && '=' !in right && '.' !in right && !IsWhiteSpace(right[|right| - 1])
    requires forall i :: 0 <= i < |pre| ==> IsWhiteSpace(pre[i])
    requires forall i :: 0 <= i < |post| ==> IsWhiteSpace(post[i])
    ensures ParseJoinCondition(on) == Ok(JoinOn(left, right))
  {
    var a, b := "t1." + left + pre, post + "t2." + right;
    assert on == a + "=" + b;
    NoEqualsInSpace(pre);
    NoEqualsInSpace(post);
    CutOnce(on, a, b);
    JoinSideLeft(a, "t1.", left, pre);
    JoinSideRight(b, "t2.", right, post);
    ParseJoinParts(on, a, b);
  }

  lemma ParseJoinParts(on: string, a: string, b: string)
    requires Split(on, '=') == [a, b]
    ensures ParseJoinCondition(on) == Ok(JoinOn(Erase(Trim(a, IsWhiteSpace), "t1."), Erase(Trim(b, IsWhiteSpace), "t2.")))
  {
  }

  lemma NoEqualsInSpace(s: string)
    requires forall i :: 0 <= i < |s| ==> IsWhiteSpace(s[i])
    ensures '=' !in s
  {
    forall i | 0 <= i < |s|
      ensures s[i] != '='
    {
      assert IsWhiteSpace(s[i]);
    }
  }

  /** Split at the only '=' of a + "=" + b gives a and b. */
  lemma CutOnce(on: string, a: string, b: string)
    requires on == a + "=" + b && '=' !in a && '=' !in b
    ensures Split(on, '=') == [a, b]
  {
    assert on == a + ("=" + b);
    IndexOfPast(a, "=" + b, '=');
    assert on[..|a|] == a && on[|a| + 1..] == b;
    assert Split(b, '=') == [b];
  }

  /** The left side of a join condition: trailing white space trimmed, then
      the table prefix p erased. */
  lemma JoinSideLeft(s: string, p: string, column: string, pad: string)
    requires s == p + column + pad
    requires |p| == 3 && p[2] == '.' && '=' !in p && !IsWhiteSpace(p[0])
    requires column != [] && '=' !in column && '.' !in column && !IsWhiteSpace(column[|column| - 1])
    requires forall i :: 0 <= i < |pad| ==> IsWhiteSpace(pad[i])
    ensures '=' !in s
    ensures Erase(Trim(s, IsWhiteSpace), p) == column
  {
    NoEqualsInSpace(pad);
    var core := p + column;
    assert s == core + pad;
    NoEqualsEither(core, pad);
    assert core[0] == p[0] && core[|core| - 1] == column[|column| - 1];
    TrimTrailing(s, core, pad);
    PrefixErased(core, p, column);
  }

  lemma NoEqualsEither(x: string, y: string)
    requires '=' !in x && '=' !in y
    ensures '=' !in x + y
  {
  }

  lemma PrefixErased(core: string, p: string, column: string)
    requires core == p + column && |p| == 3 && p[2] == '.' && '.' !in column
    ensures Erase(core, p) == column
  {
    assert core[..3] == p && core[3..] == column;
    EraseAbsent(column, p, '.');
  }

  /** The right side of a join condition: leading white space trimmed, then
      the table prefix p erased. */
  lemma JoinSideRight(s: string, p: string, column: string, pad: string)
    requires s == pad + p + column
    requires |p| == 3 && p[2] == '.' && '=' !in p && !IsWhiteSpace(p[0])
    requires column != [] && '=' !in column && '.' !in column && !IsWhiteSpace(column[|column| - 1])
    requires forall i :: 0 <= i < |pad| ==> IsWhiteSpace(pad[i])
    ensures '=' !in s
    ensures Erase(Trim(s, IsWhiteSpace), p) == column
  {
    NoEqualsInSpace(pad);
    var core := p + column;
    assert s == pad + core;
    NoEqualsEither(pad, core);
    assert core[0] == p[0] && core[|core| - 1] == column[|column| - 1];
    TrimLeading(s, pad, core);
    PrefixErased(core, p, column);
  }

  /** A pair of rows joins when both columns are present and their cells are
      equal as values (null equals null; an int never equals a string). */
  predicate Pairs(on: JoinOn, r1: Row, r2: Row) {
    on.left in r1 && on.right in r2 && r1[on.left] == r2[on.right]
  }

  /** The row with every key of row renamed to p followed by that key. */
  function Prefixed(p: string, row: Row): (r: Row)
    ensures forall c :: c in row ==> p + c in r && r[p + c] == row[c]
    ensures forall k :: k in r ==> |p| <= |k| && k[..|p|] == p && k[|p|..] in row && r[k] == row[k[|p|..]]
  {
    assert forall c :: (p + c)[|p|..] == c && (p + c)[..|p|] == p;
    map k | k in (set c | c in row :: p + c) && |p| <= |k| && k[|p|..] in row :: row[k[|p|..]]
  }

  /** One join result: "t1_" before every key of the first row, "t2_" before
      every key of the second. JoinedRowEntries states its entries. */
  function JoinedRow(r1: Row, r2: Row): Row {
    Prefixed("t1_", r1) + Prefixed("t2_", r2)
  }

  /** The joined row holds each cell of r1 under "t1_" and its key, and each
      cell of r2 under "t2_" and its key. */
  lemma JoinedRowEntries(r1: Row, r2: Row)
    ensures var r := JoinedRow(r1, r2);
      && (forall c :: c in r1 ==> "t1_" + c in r && r["t1_" + c] == r1[c])
      && (forall c :: c in r2 ==> "t2_" + c in r && r["t2_" + c] == r2[c])
  {
    JoinedRowLeft(r1, r2);
  }

  lemma JoinedRowLeft(r1: Row, r2: Row)
    ensures forall c :: c in r1 ==> "t1_" + c in JoinedRow(r1, r2) && JoinedRow(r1, r2)["t1_" + c] == r1[c]
  {
    var b := Prefixed("t2_", r2);
    assert forall c :: ("t1_" + c)[..3] == "t1_";
    assert forall c :: c in r1 ==> "t1_" + c !in b;
  }

  lemma JoinedRowRight(r1: Row, r2: Row)
    ensures forall c :: c in r2 ==> "t2_" + c in JoinedRow(r1, r2) && JoinedRow(r1, r2)["t2_" + c] == r2[c]
  {
  }

  /** Every key of the joined row is "t1_" before a key of r1 or "t2_" before
      a key of r2. */
  lemma JoinedRowKeys(r1: Row, r2: Row)
    ensures forall k :: k in JoinedRow(r1, r2) ==>
      && |k| >= 3
      && ((k[..3] == "t1_" && k[3..] in r1) || (k[..3] == "t2_" && k[3..] in r2))
  {
  }

  /** The results one row of the first table yields, in the order of the
      second table's rows. */
  function JoinInner(r1: Row, rows2: seq<Row>, on: JoinOn): seq<Row>
    decreases |rows2|
  {
    if rows2 == [] then []
    else
      var last := rows2[|rows2| - 1];
      JoinInner(r1, rows2[..|rows2| - 1], on) + if Pairs(on, r1, last) then [JoinedRow(r1, last)] else []
  }

  /** The nested-loop join: the first table's rows outside, the second's
      inside. */
  function JoinAll(rows1: seq<Row>, rows2: seq<Row>, on: JoinOn): seq<Row>
    decreases |rows1|
  {
    if rows1 == [] then []
    else JoinAll(rows1[..|rows1| - 1], rows2, on) + JoinInner(rows1[|rows1| - 1], rows2, on)
  }

  lemma {:induction false} JoinInnerBound(r1: Row, rows2: seq<Row>, on: JoinOn)
    ensures |JoinInner(r1, rows2, on)| <= |rows2|
    decreases |rows2|
  {
    if rows2 != [] {
      JoinInnerBound(r1, rows2[..|rows2| - 1], on);
    }
  }

  /** At most one result per pair of rows. */
  lemma {:induction false} JoinBound(rows1: seq<Row>, rows2: seq<Row>, on: JoinOn)
    ensures |JoinAll(rows1, rows2, on)| <= |rows1| * |rows2|
    decreases |rows1|
  {
    if rows1 != [] {
      JoinBound(rows1[..|rows1| - 1], rows2, on);
      JoinInnerBound(rows1[|rows1| - 1], rows2, on);
      assert (|rows1| - 1) * |rows2| + |rows2| == |rows1| * |rows2|;
    }
  }

  /** The inner loop yields the joined row of every matching row of the second
      table, and nothing else. */
  lemma {:induction false} JoinInnerMembers(r1: Row, rows2: seq<Row>, on: JoinOn)
    ensures forall j :: 0 <= j < |rows2| && Pairs(on, r1, rows2[j]) ==> JoinedRow(r1, rows2[j]) in JoinInner(r1, rows2, on)
    ensures forall x :: x in JoinInner(r1, rows2, on) ==> exists r2 :: r2 in rows2 && Pairs(on, r1, r2) && x == JoinedRow(r1, r2)
    decreases |rows2|
  {
    if rows2 != [] {
      var init := rows2[..|rows2| - 1];
      JoinInnerMembers(r1, init, on);
      forall j | 0 <= j < |rows2| - 1
        ensures rows2[j] == init[j]
      {
      }
    }
  }

  /** The join yields the joined row of every matching pair, and nothing
      else. */
  lemma {:induction false} JoinMembers(rows1: seq<Row>, rows2: seq<Row>, on: JoinOn)
    ensures forall i, j :: 0 <= i < |rows1| && 0 <= j < |rows2| && Pairs(on, rows1[i], rows2[j]) ==>
      JoinedRow(rows1[i], rows2[j]) in JoinAll(rows1, rows2, on)
    ensures forall x :: x in JoinAll(rows1, rows2, on) ==>
      exists r1, r2 :: r1 in rows1 && r2 in rows2 && Pairs(on, r1, r2) && x == JoinedRow(r1, r2)
    decreases |rows1|
  {
    if rows1 != [] {
      var init, last := rows1[..|rows1| - 1], rows1[|rows1| - 1];
      JoinMembers(init, rows2, on);
      JoinInnerMembers(last, rows2, on);
      forall i | 0 <= i < |rows1| - 1
        ensures rows1[i] == init[i]
      {
      }
    }
  }

  /** Output order, outer loop: the results for a + b are those for a
      followed by those for b. */
  lemma {:induction false} JoinAppend(a: seq<Row>, b: seq<Row>, rows2: seq<Row>, on: JoinOn)
    ensures JoinAll(a + b, rows2, on) == JoinAll(a, rows2, on) + JoinAll(b, rows2, on)
    decreases |b|
  {
    if b == [] {
      assert a + b == a;
    } else {
      var b0 := b[..|b| - 1];
      assert (a + b)[..|a + b| - 1] == a + b0;
      assert (a + b)[|a + b| - 1] == b[|b| - 1];
      JoinAppend(a, b0, rows2, on);
    }
  }


  /** Output order, inner loop: for one row of the first table the results
      for a + b are those for a followed by those for b. */
  lemma {:induction false} JoinInnerAppend(r1: Row, a: seq<Row>, b: seq<Row>, on: JoinOn)
    ensures JoinInner(r1, a + b, on) == JoinInner(r1, a, on) + JoinInner(r1, b, on)
    decreases |b|
  {
    if b == [] {
      assert a + b == a;
    } else {
      var b0 := b[..|b| - 1];
      assert (a + b)[..|a + b| - 1] == a + b0;
      assert (a + b)[|a + b| - 1] == b[|b| - 1];
      JoinInnerAppend(r1, a, b0, on);
    }
  }

  /** Join: both tables are looked up before the condition is examined; a
      condition without exactly one '=' fails; otherwise the nested-loop
      join, never more results than pairs of rows. */
  function Join(cat: Catalog, table1: string, table2: string, on: string): (r: Result<seq<Row>>)
    ensures Lookup(cat, table1).None? || Lookup(cat, table2).None? ==> r == Err(TableNotFound)
    ensures Lookup(cat, table1).Some? && Lookup(cat, table2).Some? ==>
      && (r.Ok? <==> Count(on, '=') == 1)
      && (r.Err? ==> r.error == InvalidJoinCondition)
      && (r.Ok? ==> |r.value| <= |Lookup(cat, table1).value.rows| * |Lookup(cat, table2).value.rows|)
  {
    match (Lookup(cat, table1), Lookup(cat, table2))
    case (Some(t1), Some(t2)) =>
      (match ParseJoinCondition(on)
       case Err(e) => Err(e)
       case Ok(c) => JoinBound(t1.rows, t2.rows, c); Ok(JoinAll(t1.rows, t2.rows, c)))
    case _ => Err(TableNotFound)
  }

  /** Join on two tables found in the catalogue under a well-formed
      condition is the nested-loop join of their rows. */
  lemma JoinOfFound(cat: Catalog, table1: string, table2: string, on: string, t1: Table, t2: Table, c: JoinOn)
    requires Lookup(cat, table1) == Some(t1) && Lookup(cat, table2) == Some(t2)
    requires ParseJoinCondition(on) == Ok(c)
    ensures Join(cat, table1, table2, on) == Ok(JoinAll(t1.rows, t2.rows, c))
  {
  }

  /** Join on two tables found in the catalogue under a condition without
      exactly one '=' fails with InvalidJoinCondition. */
  lemma JoinOfBadCondition(cat: Catalog, table1: string, table2: string, on: string)
    requires Lookup(cat, table1).Some? && Lookup(cat, table2).Some?
    requires |Split(on, '=')| != 2
    ensures Join(cat, table1, table2, on) == Err(InvalidJoinCondition)
  {
  }
}
