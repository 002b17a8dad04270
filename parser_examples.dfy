/** Worked examples of Parse: the statement the console application uses,
    derived step by step from the lexical grammar, and a statement with a
    column list. */
module ParserExamples {
  import opened Errors
  import opened Text
  import opened Lexer
  import opened Parser

  lemma UpperOfSelectStar(sql: string)
    requires sql == "SELECT * FROM Users"
    ensures Upper(sql) == "SELECT * FROM USERS"
  {
  }

  lemma LexWordThen(s: string, w: string, c: char, rest: string)
    requires s == w + [c] + rest && w != [] && IsWord(w) && IsWhiteSpace(c)
    ensures Lex(s) == [Token(w, WordKind(w))] + Lex(rest)
  {
    assert s == w + ([c] + rest);
    LexAtDelimiter(w, c, rest);
  }

  lemma LexStarThen(s: string, rest: string)
    requires s == ['*'] + rest
    ensures Lex(s) == [Token("*", Star)] + Lex(rest)
  {
  }

  lemma LexSpaceThen(s: string, rest: string)
    requires s == [' '] + rest
    ensures Lex(s) == Lex(rest)
  {
  }

  lemma LexLastWord(s: string)
    requires s != [] && IsWord(s)
    ensures Lex(s) == [Token(s, WordKind(s))]
  {
    LexWord(s, []);
    assert s + [] == s;
  }

  lemma SelectStarFirstWord(u: string, r1: string)
    requires u == "SELECT * FROM USERS" && r1 == "* FROM USERS"
    ensures Lex(u) == [Token("SELECT", Keyword)] + Lex(r1)
  {
    LexWordThen(u, "SELECT", ' ', r1);
  }

  lemma SelectStarStar(r1: string, r2: string)
    requires r1 == "* FROM USERS" && r2 == "FROM USERS"
    ensures Lex(r1) == [Token("*", Star)] + Lex(r2)
  {
    LexStarThen(r1, [' '] + r2);
    LexSpaceThen([' '] + r2, r2);
  }

  lemma FromUsersFirstWord(r2: string, r3: string)
    requires r2 == "FROM USERS" && r3 == "USERS"
    ensures Lex(r2) == [Token("FROM", Identifier)] + Lex(r3)
  {
    LexWordThen(r2, "FROM", ' ', r3);
  }

  lemma UsersLastWord(r3: string)
    requires r3 == "USERS"
    ensures Lex(r3) == [Token("USERS", Identifier)]
  {
    LexLastWord(r3);
  }

  lemma LexSelectStar(u: string)
    requires u == "SELECT * FROM USERS"
    ensures Lex(u) == [Token("SELECT", Keyword), Token("*", Star), Token("FROM", Identifier), Token("USERS", Identifier)]
  {
    SelectStarFirstWord(u, "* FROM USERS");
    SelectStarStar("* FROM USERS", "FROM USERS");
    FromUsersFirstWord("FROM USERS", "USERS");
    UsersLastWord("USERS");
  }

  lemma InterpretSelectStar(tokens: seq<Token>)
    requires tokens == [Token("SELECT", Keyword), Token("*", Star), Token("FROM", Identifier), Token("USERS", Identifier)]
    ensures Interpret(tokens) == Ok(Query("SELECT", "FROM", ["*"], map[], ""))
  {
    var from := "FROM";
    assert tokens[0].value != from && tokens[1].value != from && tokens[2].value == from;
    FindIndexAt(tokens, from, 2);
  }

  /** SELECT * FROM Users: the columns are ["*"], and the table is read from
      the third token, which is FROM. */
  lemma ParseSelectStar(sql: string)
    requires sql == "SELECT * FROM Users"
    ensures Interpret(Lex(Upper(sql))) == Ok(Query("SELECT", "FROM", ["*"], map[], ""))
  {
    UpperOfSelectStar(sql);
    LexSelectStar(Upper(sql));
    InterpretSelectStar(Lex(Upper(sql)));
  }

  /** The tokens of SELECT Id, Name FROM Users: the column list runs on past
      FROM to the end (commas included), and the table is read from the
      third token, which is the comma. */
  lemma InterpretSelectList(tokens: seq<Token>)
    requires tokens == [Token("SELECT", Keyword), Token("ID", Identifier), Token(",", Star), Token("NAME", Identifier),
                        Token("FROM", Identifier), Token("USERS", Identifier)]
    ensures Interpret(tokens) == Ok(Query("SELECT", ",", ["ID", ",", "NAME", "FROM", "USERS"], map[], ""))
  {
    var from := "FROM";
    assert forall j :: 0 <= j < 4 ==> tokens[j].value != from;
    assert tokens[4].value == from;
    FindIndexAt(tokens, from, 4);
    ColumnRunToEnd(tokens[1..]);
    var cols := ColumnRun(tokens[1..]);
    assert |cols| == 5;
    assert cols == ["ID", ",", "NAME", "FROM", "USERS"];
  }
}
