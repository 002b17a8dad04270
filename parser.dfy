/** The SQL front end: the query a statement parses to, the column list of a
    SELECT, the key/value pairs of an INSERT, and Parse itself, which
    upper-cases the statement, tokenizes it and dispatches on the first
    token. */
module Parser {
  import opened Errors
  import opened Text
  import opened Lexer

  /** A parsed statement. Columns are filled for SELECT, values for INSERT;
      the WHERE text is never filled by the parser. */
  datatype Query = Query(
    command: string,
    table: string,
    columns: seq<string>,
    values: map<string, string>,
    whereCondition: string)

  /** List.FindIndex on token texts: the first index whose text is v, or -1. */
  function FindIndex(tokens: seq<Token>, v: string): (r: int)
    ensures -1 <= r < |tokens|
    ensures r == -1 <==> forall k :: 0 <= k < |tokens| ==> tokens[k].value != v
    ensures 0 <= r ==> tokens[r].value == v && forall k :: 0 <= k < r ==> tokens[k].value != v
    decreases |tokens|
  {
    if tokens == [] then -1
    else if tokens[0].value == v then 0
    else
      var r := FindIndex(tokens[1..], v);
      if r == -1 then -1 else r + 1
  }

  /** The first occurrence of v is found at its own index. */
  lemma FindIndexAt(tokens: seq<Token>, v: string, k: nat)
    requires k < |tokens| && tokens[k].value == v
    requires forall j :: 0 <= j < k ==> tokens[j].value != v
    ensures FindIndex(tokens, v) == k
  {
  }

  // ---------------------------------------------------------------------
  // SELECT columns

  /** The texts of the leading run of tokens that are not keywords
      (TakeWhile followed by Select). */
  function ColumnRun(ts: seq<Token>): (r: seq<string>)
    ensures |r| <= |ts|
    ensures forall k :: 0 <= k < |r| ==> r[k] == ts[k].value && ts[k].kind != Keyword
    ensures |r| < |ts| ==> ts[|r|].kind == Keyword
    decreases |ts|
  {
    if ts == [] || ts[0].kind == Keyword then []
    else [ts[0].value] + ColumnRun(ts[1..])
  }

  /** The column list of a SELECT. The token before the first "FROM" is read:
      when there is none (no "FROM", or "FROM" first) the index is out of
      range; when it is "*" the list is ["*"]; otherwise the list is the
      texts of the tokens after the first, up to the next keyword. As only
      SELECT and INSERT are keywords, that run does not stop at FROM. */
  function ParseSelectColumns(tokens: seq<Token>): (r: Result<seq<string>>)
    ensures r.Err? <==> FindIndex(tokens, "FROM") < 1
    ensures r.Err? ==> r.error == IndexOutOfRange
    ensures r.Ok? && tokens[FindIndex(tokens, "FROM") - 1].value == "*" ==> r.value == ["*"]
    ensures r.Ok? && tokens[FindIndex(tokens, "FROM") - 1].value != "*" ==>
      && |r.value| < |tokens|
      && (forall k :: 0 <= k < |r.value| ==> r.value[k] == tokens[k + 1].value && tokens[k + 1].kind != Keyword)
      && (|r.value| + 1 == |tokens| || tokens[|r.value| + 1].kind == Keyword)
  {
    var i := FindIndex(tokens, "FROM") - 1;
    if i < 0 then Err(IndexOutOfRange)
    else if tokens[i].value == "*" then Ok(["*"])
    else
      var cols := ColumnRun(tokens[1..]);
      assert forall k :: 0 <= k < |cols| ==> tokens[1..][k] == tokens[k + 1];
      Ok(cols)
  }

  /** When no token after the first is a keyword, the run takes every one of
      them. */
  lemma {:induction false} ColumnRunToEnd(ts: seq<Token>)
    requires forall k :: 0 <= k < |ts| ==> ts[k].kind != Keyword
    ensures |ColumnRun(ts)| == |ts|
    ensures forall k :: 0 <= k < |ts| ==> ColumnRun(ts)[k] == ts[k].value
    decreases |ts|
  {
    if ts != [] {
      ColumnRunToEnd(ts[1..]);
    }
  }

  // ---------------------------------------------------------------------
  // INSERT values

  /** An Identifier token followed by a Literal token at j. */
  predicate PairAt(tokens: seq<Token>, j: int) {
    0 <= j && j + 1 < |tokens| && tokens[j].kind == Identifier && tokens[j + 1].kind == Literal
  }

  /** The pairs read at j, j + 2, j + 4, ...; a later pair overwrites an
      earlier one with the same key. */
  function InsertPairs(tokens: seq<Token>, j: nat): map<string, string>
    decreases |tokens| - j
  {
    if j >= |tokens| then map[]
    else (if PairAt(tokens, j) then map[tokens[j].value := tokens[j + 1].value] else map[]) + InsertPairs(tokens, j + 2)
  }

  /** p is one of the positions j, j + 2, j + 4, ... */
  predicate OnStride(j: int, p: int) {
    j <= p && (p - j) % 2 == 0
  }

  lemma StrideStep(j: int, p: int)
    ensures OnStride(j, p) <==> p == j || OnStride(j + 2, p)
  {
  }

  /** A key is read from j on exactly when some pair at one of the positions
      j, j + 2, ... has it as identifier. */
  lemma {:induction false} InsertPairsKeys(tokens: seq<Token>, j: nat)
    ensures forall key :: key in InsertPairs(tokens, j) <==>
      exists p :: OnStride(j, p) && PairAt(tokens, p) && tokens[p].value == key
    decreases |tokens| - j
  {
    if j < |tokens| {
      InsertPairsKeys(tokens, j + 2);
      forall key
        ensures key in InsertPairs(tokens, j) <==>
          exists p :: OnStride(j, p) && PairAt(tokens, p) && tokens[p].value == key
      {
        if key in InsertPairs(tokens, j + 2) {
          var p :| OnStride(j + 2, p) && PairAt(tokens, p) && tokens[p].value == key;
          StrideStep(j, p);
        } else if key in InsertPairs(tokens, j) {
          assert OnStride(j, j) && PairAt(tokens, j) && tokens[j].value == key;
        } else {
          forall p | OnStride(j, p) && PairAt(tokens, p)
            ensures tokens[p].value != key
          {
            StrideStep(j, p);
          }
        }
      }
    } else {
      forall p | OnStride(j, p)
        ensures !PairAt(tokens, p)
      {
      }
    }
  }

  /** The pair at p is the last pair from j on whose identifier is key. */
  ghost predicate LastPairFor(tokens: seq<Token>, j: int, p: int, key: string) {
    OnStride(j, p) && PairAt(tokens, p) && tokens[p].value == key &&
    forall q :: p < q && OnStride(j, q) && PairAt(tokens, q) ==> tokens[q].value != key
  }

  /** Every key read from j on is bound to the literal of the last of those
      pairs that has it as identifier. */
  lemma {:induction false} InsertPairsValues(tokens: seq<Token>, j: nat)
    ensures forall key :: key in InsertPairs(tokens, j) ==>
      exists p :: LastPairFor(tokens, j, p, key) && InsertPairs(tokens, j)[key] == tokens[p + 1].value
    decreases |tokens| - j
  {
    if j < |tokens| {
      InsertPairsValues(tokens, j + 2);
      InsertPairsKeys(tokens, j + 2);
      var m, rest := InsertPairs(tokens, j), InsertPairs(tokens, j + 2);
      forall key | key in m
        ensures exists p :: LastPairFor(tokens, j, p, key) && m[key] == tokens[p + 1].value
      {
        if key in rest {
          var p :| LastPairFor(tokens, j + 2, p, key) && rest[key] == tokens[p + 1].value;
          StrideStep(j, p);
          forall q | p < q && OnStride(j, q) && PairAt(tokens, q)
            ensures tokens[q].value != key
          {
            StrideStep(j, q);
          }
          assert LastPairFor(tokens, j, p, key);
        } else {
          forall q | j < q && OnStride(j, q) && PairAt(tokens, q)
            ensures tokens[q].value != key
          {
            StrideStep(j, q);
          }
          assert LastPairFor(tokens, j, j, key);
        }
      }
    }
  }

  /** Without Literal tokens there are no pairs. */
  lemma {:induction false} NoLiteralNoPairs(tokens: seq<Token>, j: nat)
    requires forall k :: 0 <= k < |tokens| ==> tokens[k].kind != Literal
    ensures InsertPairs(tokens, j) == map[]
    decreases |tokens| - j
  {
    if j < |tokens| {
      NoLiteralNoPairs(tokens, j + 2);
    }
  }

  /** The scanner never produces a Literal token, so a tokenized INSERT never
      yields a value. */
  lemma LexedInsertHasNoPairs(s: string, j: nat)
    ensures InsertPairs(Lex(s), j) == map[]
  {
    var tokens := Lex(s);
    LexWellFormed(s);
    forall k | 0 <= k < |tokens|
      ensures tokens[k].kind != Literal
    {
      assert tokens[k] in tokens;
    }
    NoLiteralNoPairs(tokens, j);
  }

  /** ParseInsertValues: from just after the first "VALUES" token (from the
      start when there is none), every second position holding an Identifier
      followed by a Literal binds the identifier to the literal. */
  method ParseInsertValues(tokens: seq<Token>) returns (values: map<string, string>)
    ensures values == InsertPairs(tokens, FindIndex(tokens, "VALUES") + 1)
  {
    var i: nat := FindIndex(tokens, "VALUES") + 1;
    values := map[];
    var j: nat := i;
    assert values + InsertPairs(tokens, j) == InsertPairs(tokens, i);
    while j < |tokens|
      invariant values + InsertPairs(tokens, j) == InsertPairs(tokens, i)
      decreases |tokens| - j
    {
      ghost var before := values;
      if j + 1 < |tokens| && tokens[j].kind == Identifier && tokens[j + 1].kind == Literal {
        values := values[tokens[j].value := tokens[j + 1].value];
      }
      InsertStep(tokens, j, before, InsertPairs(tokens, i), values);
      j := j + 2;
    }
    assert InsertPairs(tokens, j) == map[];
    assert values + map[] == values;
  }

  /** One step of the loop of ParseInsertValues. */
  lemma InsertStep(tokens: seq<Token>, j: nat, acc: map<string, string>, total: map<string, string>, next: map<string, string>)
    requires j < |tokens|
    requires acc + InsertPairs(tokens, j) == total
    requires next == if PairAt(tokens, j) then acc[tokens[j].value := tokens[j + 1].value] else acc
    ensures next + InsertPairs(tokens, j + 2) == total
  {
    var step := if PairAt(tokens, j) then map[tokens[j].value := tokens[j + 1].value] else map[];
    MergeStep(acc, step, InsertPairs(tokens, j + 2));
    assert next == acc + step;
  }

  /** Map union is associative. */
  lemma MergeStep(a: map<string, string>, b: map<string, string>, c: map<string, string>)
    ensures a + (b + c) == (a + b) + c
  {
  }

  // ---------------------------------------------------------------------
  // Parse

  /** The query a token list stands for. */
  function Interpret(tokens: seq<Token>): (r: Result<Query>)
    ensures r == Err(InvalidSql) <==> |tokens| < 3
    ensures r == Err(UnsupportedCommand) <==> |tokens| >= 3 && !IsKeyword(tokens[0].value)
    ensures r.Err? && r.error == IndexOutOfRange <==>
      |tokens| >= 3 && tokens[0].value == "SELECT" && forall k :: 0 <= k < |tokens| ==> tokens[k].value != "FROM"
    ensures r.Err? ==> r.error in {InvalidSql, UnsupportedCommand, IndexOutOfRange}
    ensures r.Ok? ==>
      && IsKeyword(r.value.command)
      && r.value.command == tokens[0].value
      && r.value.table == tokens[2].value
      && r.value.whereCondition == ""
    ensures r.Ok? && r.value.command == "SELECT" ==>
      r.value.values == map[] && ParseSelectColumns(tokens) == Ok(r.value.columns)
    ensures r.Ok? && r.value.command == "INSERT" ==>
      r.value.columns == [] && r.value.values == InsertPairs(tokens, FindIndex(tokens, "VALUES") + 1)
  {
    if |tokens| < 3 then Err(InvalidSql)
    else
      var command, table := tokens[0].value, tokens[2].value;
      if command == "SELECT" then
        match ParseSelectColumns(tokens)
        case Err(e) => Err(e)
        case Ok(columns) => Ok(Query(command, table, columns, map[], ""))
      else if command == "INSERT" then
        Ok(Query(command, table, [], InsertPairs(tokens, FindIndex(tokens, "VALUES") + 1), ""))
      else Err(UnsupportedCommand)
  }

  /** Parse: upper-case the statement, tokenize it, then read the command from
      the first token and the table from the third. */
  method Parse(sql: string) returns (r: Result<Query>)
    ensures r == Interpret(Lex(Upper(sql)))
  {
    var tokens := Tokenize(Upper(sql));
    if |tokens| < 3 {
      return Err(InvalidSql);
    }
    var command, table := tokens[0].value, tokens[2].value;
    if command == "SELECT" {
      var columns := ParseSelectColumns(tokens);
      if columns.Err? {
        return Err(columns.error);
      }
      r := Ok(Query(command, table, columns.value, map[], ""));
    } else if command == "INSERT" {
      var values := ParseInsertValues(tokens);
      r := Ok(Query(command, table, [], values, ""));
    } else {
      r := Err(UnsupportedCommand);
    }
  }

  /** Upper-casing first makes parsing case-insensitive: parsing the
      upper-cased statement gives the same result. */
  lemma ParseIgnoresCase(sql: string)
    ensures Interpret(Lex(Upper(Upper(sql)))) == Interpret(Lex(Upper(sql)))
  {
    UpperIdempotent(sql);
  }

  /** Every text a parsed query carries is upper case. */
  lemma ParseYieldsUpperCase(sql: string)
    requires Interpret(Lex(Upper(sql))).Ok?
    ensures var q := Interpret(Lex(Upper(sql))).value;
      && NoLower(q.command) && NoLower(q.table)
      && (forall c :: c in q.columns ==> NoLower(c))
  {
    var tokens := Lex(Upper(sql));
    LexNoLower(Upper(sql));
    assert tokens[0] in tokens && tokens[2] in tokens;
    var q := Interpret(tokens).value;
    if q.command == "SELECT" && tokens[FindIndex(tokens, "FROM") - 1].value != "*" {
      forall c | c in q.columns
        ensures NoLower(c)
      {
        var k :| 0 <= k < |q.columns| && q.columns[k] == c;
        assert tokens[k + 1] in tokens;
      }
    }
  }

  /** A parsed INSERT never carries values: the scanner yields no Literal
      token for ParseInsertValues to pair with. */
  lemma ParsedInsertIsEmpty(sql: string)
    requires Interpret(Lex(Upper(sql))).Ok?
    requires Interpret(Lex(Upper(sql))).value.command == "INSERT"
    ensures Interpret(Lex(Upper(sql))).value.values == map[]
  {
    var tokens := Lex(Upper(sql));
    LexedInsertHasNoPairs(Upper(sql), FindIndex(tokens, "VALUES") + 1);
  }
}
