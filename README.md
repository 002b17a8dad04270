# MyOwnDatabase in Dafny

A Dafny model of the core of MyOwnDatabase, a small in-memory table store with
a toy SQL front end. The model covers two parts.

- **The table store (`Database`).** It is a case-insensitive dictionary of
  tables. Each table holds a name, its declared columns and its rows in
  insertion order. A row maps column names to cells. The store offers
  CreateTable, InsertRow, Select, Update, Delete and Join. Select, Update and
  Delete take an optional single-equality WHERE text (`Column = literal`).
  Join takes a condition of the form `t1.Column = t2.Column`.
- **The SQL front end (`Parser`).** It upper-cases a statement, cuts it into
  tokens, and reads a SELECT column list or the key/value pairs of an INSERT
  from the tokens.

The project is organised as follows.

| file | module | contents |
|---|---|---|
| `errors.dfy` | `Errors` | the failure kinds, plus `Option`, `Result` and `Outcome`. These replace the exceptions MyOwnDatabase throws. |
| `text.dfy` | `Text` | the string primitives the code relies on: .NET white space, upper-casing, `IndexOf`, `Split` with and without a count, `Trim`, `Replace(pat, "")` |
| `values.dfy` | `Values` | cells (`Int`, `Str`, `Bool`, `Null`), rows, and the text a cell renders to (`ToString()`) |
| `where.dfy` | `Where` | the WHERE parser and `MatchesWhere` |
| `tablestore.dfy` | `TableStore` | tables, the catalogue of tables, and every store operation as a function of the catalogue before the call. The algebraic properties are proved about these functions. |
| `storage.dfy` | `Storage` | the `Database` class. Its methods update its `tables` field in place with loops shaped like those of the C# code, and each is proved equal to its `TableStore` function. |
| `lexer.dfy` | `Lexer` | tokens, `AddToken`, a recursive reference grammar `Lex`, and the character-by-character `Tokenize` loop proved equal to it |
| `parser.dfy` | `Parser` | `Query`, `FindIndex`, `ParseSelectColumns`, `ParseInsertValues` (a loop proved against `InsertPairs`), and `Parse` |
| `parser_examples.dfy` | `ParserExamples` | `Parse("SELECT * FROM Users")` as the console application calls it, derived from the grammar |
| `scenarios.dfy` | `Scenarios` | the four unit tests restated as lemmas about the catalogue functions |

Exceptions become error values. An operation that produces a value returns
`Result<T>`. A `Database` method that only changes state returns an
`Outcome`. On failure the method leaves the dictionary as it was, just as the
C# code throws before it writes anything.

The model follows what the code does. In five places this differs from the
documented intent, and each difference is proved as behaviour of the model.

- **WHERE strips every quote at the edges.** The literal is trimmed of white
  space and then of every leading and trailing `'`, not of a single pair
  (`Database.cs:113`; `Where.ParseWhereCuts`, `Where.ParseWhereOf`).
- **WHERE cuts at the first `=`.** A WHERE text with more than one `=` is
  accepted; everything after the first `=` belongs to the literal
  (`Database.cs:109`). Join, by contrast, demands exactly one `=`
  (`Database.cs:125-127`; `TableStore.ParseJoinCondition`).
- **Row lookups are exact.** `Row.Values` defaults to a case-insensitive
  dictionary, but `InsertRow` replaces it with the caller's dictionary
  (`Database.cs:38`), and callers pass default (ordinal) dictionaries. Only
  table names are compared case-insensitively (`Scenarios.ColumnNamesExact`).
- **The table of `SELECT * FROM Users` is `FROM`.** Parse reads the table from
  the third token. In that statement the third token is `FROM`, because `*` is
  a token of its own (`ParserExamples.ParseSelectStar`). Unless the token just
  before the first FROM is `*`, the columns are every token after SELECT up to
  the next SELECT or INSERT, FROM included, because only SELECT and INSERT are
  keywords (`Parser.ParseSelectColumns`, `ParserExamples.InterpretSelectList`).
- **INSERT never yields values.** `ParseInsertValues` pairs an Identifier
  with a following Literal token. The scanner never produces a Literal token,
  so a parsed INSERT carries no values (`Parser.ParsedInsertIsEmpty`).

WHERE and Join compare cells differently. WHERE compares the rendered text,
so the integer 1 matches `Id = 1` and so does the string "1"
(`Scenarios.WhereComparesText`). Join compares values, so the integer 1 does
not pair with the string "1" (`Scenarios.JoinComparesValues`).

## Model

| member | source | states |
|---|---|---|
| Text.IsWhiteSpace | MyOwnDatabase/MyOwnDatabase/Parser.cs:62 | `char.IsWhiteSpace`, the set `Trim()` drops (Database.cs:112-113, 129-130): U+0009 to U+000D, U+0020, U+0085, U+00A0, U+1680, U+2000 to U+200A, U+2028, U+2029, U+202F, U+205F and U+3000. |
| Text.Upper | MyOwnDatabase/MyOwnDatabase/Parser.cs:28 | Upper-casing keeps the length, upper-cases every character in place, and leaves no lower-case letter. |
| Text.UpperIdempotent | MyOwnDatabase/MyOwnDatabase/Database.cs:21 | Upper-casing twice is upper-casing once, so the upper-cased name is a canonical key for the case-insensitive dictionary. |
| Text.IndexOf | MyOwnDatabase/MyOwnDatabase/Database.cs:109 | The result is -1 exactly when the character is absent. Otherwise it is an index holding the character with no earlier occurrence. |
| Text.Split | MyOwnDatabase/MyOwnDatabase/Database.cs:125 | `Split('=')` yields one piece more than there are separators, no piece contains the separator, and joining the pieces with it gives back the text. |
| Text.SplitFirst | MyOwnDatabase/MyOwnDatabase/Database.cs:109 | `Split(new[]{'='}, 2)` yields two pieces exactly when the separator occurs, the first piece lacks it, and joining the pieces with it gives back the text. |
| Text.SplitOnce | MyOwnDatabase/MyOwnDatabase/Database.cs:125-126 | With exactly one separator, the unbounded and the two-piece split agree. |
| Text.SplitWithout | MyOwnDatabase/MyOwnDatabase/Database.cs:125 | A text without the separator splits into itself alone. |
| Text.OnlyOccurrence | MyOwnDatabase/MyOwnDatabase/Database.cs:125-126 | When the separator occurs once, none follows its first occurrence. |
| Text.TrimStart | MyOwnDatabase/MyOwnDatabase/Database.cs:112 | The result is a suffix of the text. It does not start with a dropped character, and everything before it is dropped. |
| Text.TrimEnd | MyOwnDatabase/MyOwnDatabase/Database.cs:112 | The result is a prefix of the text. It does not end with a dropped character, and everything after it is dropped. |
| Text.Trim | MyOwnDatabase/MyOwnDatabase/Database.cs:112-113 | `Trim` drops the leading and then the trailing run of dropped characters. Its partners TrimEdges, TrimUnpadded, TrimWithin and TrimPadded state what it leaves. |
| Text.TrimEdges | MyOwnDatabase/MyOwnDatabase/Database.cs:112-113 | What `Trim` leaves neither starts nor ends with a dropped character. |
| Text.TrimUnpadded | MyOwnDatabase/MyOwnDatabase/Database.cs:112-113 | `Trim` leaves text without dropped characters at its edges unchanged. |
| Text.TrimWithin | MyOwnDatabase/MyOwnDatabase/Database.cs:112-113 | What `Trim` leaves is no longer than the text and uses only its characters. |
| Text.TrimPadded | MyOwnDatabase/MyOwnDatabase/Database.cs:112-113 | `Trim` removes exactly a padding of dropped characters around a core that has none at its edges. |
| Text.Erase | MyOwnDatabase/MyOwnDatabase/Database.cs:132-133 | `Replace(pat, "")` never lengthens the text and adds no character. |
| Text.EraseNoOccurrence | MyOwnDatabase/MyOwnDatabase/Database.cs:132-133 | A text in which the pattern occurs nowhere is returned unchanged. |
| Text.EraseFirst | MyOwnDatabase/MyOwnDatabase/Database.cs:132-133 | The first occurrence of the pattern is deleted, the text before it is kept, and erasing resumes right after it. |
| Text.EraseAtFront | MyOwnDatabase/MyOwnDatabase/Database.cs:132-133 | An occurrence at the front is deleted and erasing goes on after it. |
| Text.EraseSkip | MyOwnDatabase/MyOwnDatabase/Database.cs:132-133 | Where the pattern does not start at the front, the first character is kept and erasing goes on from the next one. |
| Text.EraseAbsent | MyOwnDatabase/MyOwnDatabase/Database.cs:132-133 | Nothing is erased from a text that lacks one of the pattern's characters. |
| Values.NatToDecimal | MyOwnDatabase/MyOwnDatabase/Database.cs:115 | The rendering of a natural number is a non-empty run of digits without a leading zero. |
| Values.DecimalRoundTrip | MyOwnDatabase/MyOwnDatabase/Database.cs:115 | Reading back the rendered digits gives the number. |
| Values.IntToDecimal | MyOwnDatabase/MyOwnDatabase/Database.cs:115 | An integer renders with a leading '-' exactly when it is negative. A non-negative integer renders as digits that denote it, and a negative one as '-' followed by digits that denote its magnitude. |
| Values.IntToDecimalInjective | MyOwnDatabase/MyOwnDatabase/Database.cs:115 | Distinct integers render to distinct texts. |
| Values.Render | MyOwnDatabase/MyOwnDatabase/Database.cs:115 | `cell?.ToString()` yields no text exactly for a null cell. |
| Values.RenderIntegers | MyOwnDatabase/MyOwnDatabase/Database.cs:115 | Two integer cells render alike exactly when they are equal. An integer cell and the string cell holding its digits render alike although the cells differ. |
| Where.ParseWhere | MyOwnDatabase/MyOwnDatabase/Database.cs:106-113 | An empty text is no filter. A text fails with InvalidWhereClause exactly when it is non-empty and has no '='. Otherwise the column has neither '=' nor white space at its edges, and the literal has no quote at its edges; it may keep white space that was inside the quotes (`Where.QuotedSpaceKept`). |
| Where.ParseWhereCuts | MyOwnDatabase/MyOwnDatabase/Database.cs:109-113 | The text is cut at its first '='. The column is the left part trimmed of white space. The literal is the right part trimmed of white space and then of every edge quote. |
| Where.ParseWhereOf | MyOwnDatabase/MyOwnDatabase/Database.cs:108-113 | `column = literal`, with any white space around the '=' and any run of quotes on each side of the literal, the two runs chosen independently, parses to that column and literal. |
| Where.LiteralUnwrapped | MyOwnDatabase/MyOwnDatabase/Database.cs:113 | The literal is recovered from its white-space padding and from the runs of quotes before and after it. |
| Where.Holds | MyOwnDatabase/MyOwnDatabase/Database.cs:115 | A filter holds of a row when there is none, or when the column is present with a non-null cell whose text is the literal. MatchesWhereMeaning and NullNeverMatches state it for a WHERE text. |
| Where.QuotedSpaceKept | MyOwnDatabase/MyOwnDatabase/Database.cs:113 | Inside quotes the literal keeps its own white space: `Trim()` removes only the white space outside the quotes, and `Trim('\'')` then strips the quotes. |
| Where.MatchesWhere | MyOwnDatabase/MyOwnDatabase/Database.cs:104-116 | An empty WHERE matches every row. A bad WHERE is an error whatever the row. Otherwise the verdict is that of the parsed filter. |
| Where.MatchesWhereMeaning | MyOwnDatabase/MyOwnDatabase/Database.cs:109-115 | A row matches if and only if the trimmed column is present with a non-null cell whose text equals the trimmed, unquoted literal. |
| Where.NullNeverMatches | MyOwnDatabase/MyOwnDatabase/Database.cs:115 | A null cell never satisfies a WHERE. |
| Where.WhereErrorIndependentOfRow | MyOwnDatabase/MyOwnDatabase/Database.cs:109-110 | Whether a WHERE is an error does not depend on the row. |
| TableStore.Lookup | MyOwnDatabase/MyOwnDatabase/Database.cs:35 | A table is found exactly when its upper-cased name is filed. In a well-keyed catalogue, the table found has the same name up to case. |
| TableStore.Put | MyOwnDatabase/MyOwnDatabase/Database.cs:29 | After filing, the table is found under its name. The keys gain only that name, every other table is found as before, and well-keyedness is kept. |
| TableStore.CreateTable | MyOwnDatabase/MyOwnDatabase/Database.cs:24-30 | Fails with TableAlreadyExists exactly when the name exists in any letter case. Otherwise it adds one table with that spelling, those columns and no rows, changes no other table and keeps well-keyedness. |
| TableStore.CreateTwiceFails | MyOwnDatabase/MyOwnDatabase/Database.cs:26-27 | A second CreateTable under the same name in any case fails. |
| TableStore.InsertRow | MyOwnDatabase/MyOwnDatabase/Database.cs:33-40 | Fails with TableNotFound exactly when the table is missing. Otherwise it appends exactly the given row after the old ones, whatever the declared columns, keeps name and columns, and changes no other table. |
| TableStore.FilterRows | MyOwnDatabase/MyOwnDatabase/Database.cs:50-52 | A row is in the result exactly when it is in the input and its verdict is the one asked for. |
| TableStore.FilterAppend | MyOwnDatabase/MyOwnDatabase/Database.cs:50-52 | Filtering distributes over concatenation, so relative order is kept. |
| TableStore.FilterKeepsAll | MyOwnDatabase/MyOwnDatabase/Database.cs:52 | A filter every row passes keeps the rows exactly. |
| TableStore.FilterDropsAll | MyOwnDatabase/MyOwnDatabase/Database.cs:100 | An empty WHERE removes every row. |
| TableStore.FilterPartition | MyOwnDatabase/MyOwnDatabase/Database.cs:100 | The kept rows and the dropped rows together are the rows, counted with multiplicity. |
| TableStore.FilterIdempotent | MyOwnDatabase/MyOwnDatabase/Database.cs:100 | Filtering twice is filtering once. |
| TableStore.Project | MyOwnDatabase/MyOwnDatabase/Database.cs:54-67 | With "*" or no columns the entry is the whole row. Otherwise it has exactly the requested columns, each holding the row's cell or null when the row lacks it. |
| TableStore.ProjectRows | MyOwnDatabase/MyOwnDatabase/Database.cs:50-69 | There is one projected entry per row, in order, and with "*" the rows come back unchanged. |
| TableStore.SelectStep | MyOwnDatabase/MyOwnDatabase/Database.cs:50-70 | Scanning one more row adds its projection exactly when it passes the filter. |
| TableStore.SelectRows | MyOwnDatabase/MyOwnDatabase/Database.cs:48-73 | A bad WHERE fails exactly when there is a row to check it on. There are never more entries than rows, and an empty WHERE projects every row. |
| TableStore.Select | MyOwnDatabase/MyOwnDatabase/Database.cs:43-46 | A missing table fails with TableNotFound. Otherwise the result is the selection on that table's rows. |
| TableStore.SelectEntries | MyOwnDatabase/MyOwnDatabase/Database.cs:50-70 | Every passing row's projection is returned, and every entry returned is the projection of a passing row. |
| TableStore.SelectAppend | MyOwnDatabase/MyOwnDatabase/Database.cs:50-71 | Entries come in stored order: the selection on a + b is that on a followed by that on b. |
| TableStore.UpdatedRow | MyOwnDatabase/MyOwnDatabase/Database.cs:84-89 | A passing row gets every given key written and keeps its other keys. A failing row is unchanged. |
| TableStore.UpdateRows | MyOwnDatabase/MyOwnDatabase/Database.cs:82-91 | Update rewrites each row in place, keeping row count and order. |
| TableStore.UpdateIn | MyOwnDatabase/MyOwnDatabase/Database.cs:79-91 | A bad WHERE fails exactly when there is a row to check. Otherwise name, columns and row count are kept and the rows are updated. |
| TableStore.Update | MyOwnDatabase/MyOwnDatabase/Database.cs:77-92 | A missing table fails with TableNotFound. Otherwise the named table is updated, with UpdateIn's error when it fails, and no other table changes. |
| TableStore.UpdatedRowIdempotent | MyOwnDatabase/MyOwnDatabase/Database.cs:86-89 | Updating a row twice is updating it once. |
| TableStore.UpdateRowsIdempotent | MyOwnDatabase/MyOwnDatabase/Database.cs:82-91 | Updating the rows twice is updating them once. |
| TableStore.UpdateIdempotent | MyOwnDatabase/MyOwnDatabase/Database.cs:77-92 | Repeating a successful Update leaves the catalogue as after the first. |
| TableStore.DeleteIn | MyOwnDatabase/MyOwnDatabase/Database.cs:100 | A bad WHERE fails exactly when there is a row to check. Otherwise exactly the failing rows remain, in order, and an empty WHERE empties the table. |
| TableStore.Delete | MyOwnDatabase/MyOwnDatabase/Database.cs:95-101 | A missing table fails with TableNotFound. Otherwise the named table loses rows as DeleteIn says and no other table changes. |
| TableStore.DeleteIdempotent | MyOwnDatabase/MyOwnDatabase/Database.cs:95-101 | Repeating a successful Delete changes nothing more. |
| TableStore.DeleteSelectPartition | MyOwnDatabase/MyOwnDatabase/Database.cs:100 | The rows Delete keeps plus the rows Select "*" returns under the same WHERE are the table's rows. |
| TableStore.ParseJoinCondition | MyOwnDatabase/MyOwnDatabase/Database.cs:125-133 | The condition parses exactly when it has one '='. The columns are the trimmed sides with every "t1." or "t2." deleted. |
| TableStore.ParseJoinConditionOf | MyOwnDatabase/MyOwnDatabase/Database.cs:124-133 | `t1.L = t2.R`, with any white space around the '=', names the columns L and R. |
| TableStore.JoinSideLeft | MyOwnDatabase/MyOwnDatabase/Database.cs:129-132 | The left side is trimmed of its trailing white space and loses the "t1." prefix. |
| TableStore.JoinSideRight | MyOwnDatabase/MyOwnDatabase/Database.cs:130-133 | The right side is trimmed of its leading white space and loses the "t2." prefix. |
| TableStore.Prefixed | MyOwnDatabase/MyOwnDatabase/Database.cs:144-149 | Each cell appears under the prefix followed by its key, and every key is such a prefixed key. |
| TableStore.Pairs | MyOwnDatabase/MyOwnDatabase/Database.cs:138-140 | Two rows pair when both have their join column and the cells are equal. Scenarios.JoinComparesValues shows that equality is on values. |
| TableStore.JoinedRow | MyOwnDatabase/MyOwnDatabase/Database.cs:142-149 | One join result: the first row under "t1_" and the second under "t2_". JoinedRowEntries, JoinedRowKeys and Storage.JoinedRowUnique state its entries. |
| TableStore.JoinedRowEntries | MyOwnDatabase/MyOwnDatabase/Database.cs:142-149 | The joined row holds each cell of the first row under "t1_" plus its key, and each cell of the second under "t2_" plus its key. |
| TableStore.JoinedRowKeys | MyOwnDatabase/MyOwnDatabase/Database.cs:142-149 | Every key of the joined row is "t1_" before a key of the first row or "t2_" before a key of the second. |
| TableStore.JoinInner | MyOwnDatabase/MyOwnDatabase/Database.cs:136-152 | The inner loop for one row of the first table, over the second table's rows in order. JoinInnerMembers and JoinInnerAppend state what it yields and in which order. |
| TableStore.JoinAll | MyOwnDatabase/MyOwnDatabase/Database.cs:135-153 | The nested-loop join, first table outside. JoinMembers, JoinAppend and JoinBound state its members, order and size, and Storage.JoinRows is proved equal to it. |
| TableStore.JoinBound | MyOwnDatabase/MyOwnDatabase/Database.cs:135-153 | There is at most one result per pair of rows. |
| TableStore.JoinInnerMembers | MyOwnDatabase/MyOwnDatabase/Database.cs:136-152 | For one row of the first table, the inner loop yields the joined row of every matching row of the second table, and nothing else. |
| TableStore.JoinMembers | MyOwnDatabase/MyOwnDatabase/Database.cs:135-153 | The join yields the joined row of every matching pair, and nothing else. |
| TableStore.JoinAppend | MyOwnDatabase/MyOwnDatabase/Database.cs:135 | Output order follows the outer loop over the first table. |
| TableStore.JoinInnerAppend | MyOwnDatabase/MyOwnDatabase/Database.cs:136 | Output order within one row of the first table follows the second table. |
| TableStore.Join | MyOwnDatabase/MyOwnDatabase/Database.cs:117-156 | A missing table fails with TableNotFound before the condition is read. Otherwise the join succeeds exactly when the condition has one '=', with InvalidJoinCondition otherwise. The result is never longer than the product of the row counts. |
| TableStore.JoinOfFound | MyOwnDatabase/MyOwnDatabase/Database.cs:135-155 | With both tables present and a well-formed condition, Join is the nested-loop join of their rows. |
| TableStore.JoinOfBadCondition | MyOwnDatabase/MyOwnDatabase/Database.cs:125-127 | With both tables present, a condition that does not split into two parts fails with InvalidJoinCondition. |
| Storage.ProjectRow | MyOwnDatabase/MyOwnDatabase/Database.cs:54-67 | The column-by-column loop builds exactly the projection. |
| Storage.MergeValues | MyOwnDatabase/MyOwnDatabase/Database.cs:86-89 | Writing the given keys one by one yields the right-biased union. The keys are the union, given keys take the given cells, and the others are kept. |
| Storage.JoinPair | MyOwnDatabase/MyOwnDatabase/Database.cs:142-149 | Copying the first row under "t1_" and then the second under "t2_" yields exactly the joined row. |
| Storage.JoinedRowUnique | MyOwnDatabase/MyOwnDatabase/Database.cs:142-149 | A row holding exactly the prefixed entries of the two rows is their joined row. |
| Storage.UpdateTableRows | MyOwnDatabase/MyOwnDatabase/Database.cs:82-91 | The row loop of Update, failing on the first row for a bad WHERE, gives exactly UpdateIn's result. |
| Storage.JoinRows | MyOwnDatabase/MyOwnDatabase/Database.cs:135-153 | The nested loops yield exactly the nested-loop join of the two row lists. |
| Storage.Database.constructor | MyOwnDatabase/MyOwnDatabase/Database.cs:21 | A new database has no tables and is Valid. |
| Storage.Database.CreateTable | MyOwnDatabase/MyOwnDatabase/Database.cs:24-30 | The dictionary and the reported outcome are those of TableStore.CreateTable. A failure leaves the dictionary unchanged. Valid (every table filed under its upper-cased name) is required and kept. |
| Storage.Database.InsertRow | MyOwnDatabase/MyOwnDatabase/Database.cs:33-40 | The dictionary and outcome are those of TableStore.InsertRow. Valid is required and kept. |
| Storage.Database.Select | MyOwnDatabase/MyOwnDatabase/Database.cs:43-74 | The scan returns exactly TableStore.Select, including the failure on a bad WHERE at the first row. |
| Storage.Database.Update | MyOwnDatabase/MyOwnDatabase/Database.cs:77-92 | The dictionary and outcome are those of TableStore.Update. Valid is required and kept. |
| Storage.Database.Delete | MyOwnDatabase/MyOwnDatabase/Database.cs:95-101 | The dictionary and outcome are those of TableStore.Delete. Valid is required and kept. |
| Storage.Database.Join | MyOwnDatabase/MyOwnDatabase/Database.cs:117-156 | The method returns exactly TableStore.Join. |
| Lexer.WordKind | MyOwnDatabase/MyOwnDatabase/Parser.cs:97-99 | A word is typed Star exactly when it is "*" and Keyword exactly when it is SELECT or INSERT, and otherwise Identifier. |
| Lexer.AddToken | MyOwnDatabase/MyOwnDatabase/Parser.cs:95-100 | Exactly one token is appended, carrying the word and its kind. |
| Lexer.WordLength | MyOwnDatabase/MyOwnDatabase/Parser.cs:82-85 | The word read at the front contains no delimiter and stops at a delimiter or at the end. |
| Lexer.Lex | MyOwnDatabase/MyOwnDatabase/Parser.cs:58-90 | The lexical grammar read from the front. LexWellFormed, LexKeepsText, LexFromInput, LexWord and LexAtDelimiter state what it yields, and Tokenize is proved equal to it. |
| Lexer.LexWellFormed | MyOwnDatabase/MyOwnDatabase/Parser.cs:58-90 | Every token is a punctuation Star, the '=' Operator, a SELECT/INSERT Keyword, or a non-empty delimiter-free Identifier. No Literal, Comma or Semicolon token is ever produced. |
| Lexer.LexWord | MyOwnDatabase/MyOwnDatabase/Parser.cs:82-85 | A word followed by a delimiter or by the end becomes one token. |
| Lexer.LexAtDelimiter | MyOwnDatabase/MyOwnDatabase/Parser.cs:62-81 | At a delimiter, the pending word is flushed, then the delimiter's own token if any, and scanning resumes after it. |
| Lexer.Tokenize | MyOwnDatabase/MyOwnDatabase/Parser.cs:52-93 | The character loop yields exactly the tokens of the lexical grammar. |
| Lexer.Squeeze | MyOwnDatabase/MyOwnDatabase/Parser.cs:62-66 | The text with its white space dropped is no longer than the input. |
| Lexer.SqueezeChars | MyOwnDatabase/MyOwnDatabase/Parser.cs:62-66 | The characters of the squeezed text are exactly the input's characters that are not white space. |
| Lexer.LexKeepsText | MyOwnDatabase/MyOwnDatabase/Parser.cs:58-90 | The token texts laid end to end give the input without its white space. |
| Lexer.LexFromInput | MyOwnDatabase/MyOwnDatabase/Parser.cs:58-90 | Every character of a token occurs in the input. |
| Lexer.LexNoLower | MyOwnDatabase/MyOwnDatabase/Parser.cs:28 | Tokens of upper-cased text are upper case. |
| Parser.FindIndex | MyOwnDatabase/MyOwnDatabase/Parser.cs:105 | `FindIndex` returns -1 exactly when no token has the text. Otherwise it returns the first index holding it. |
| Parser.ColumnRun | MyOwnDatabase/MyOwnDatabase/Parser.cs:111-112 | `TakeWhile`/`Select` gives the texts of the leading non-keyword tokens and stops at the first keyword. |
| Parser.ColumnRunToEnd | MyOwnDatabase/MyOwnDatabase/Parser.cs:111-112 | Without a keyword the run takes every token. |
| Parser.ParseSelectColumns | MyOwnDatabase/MyOwnDatabase/Parser.cs:102-115 | It fails with IndexOutOfRange exactly when no token precedes the first FROM. A "*" before FROM gives ["*"]. Otherwise the result is the texts after the first token up to the next keyword. |
| Parser.InsertPairs | MyOwnDatabase/MyOwnDatabase/Parser.cs:123-127 | The pairs read at every second token from a start, a later pair overriding an earlier one. InsertPairsKeys and InsertPairsValues state its keys and values. |
| Parser.InsertPairsKeys | MyOwnDatabase/MyOwnDatabase/Parser.cs:123-127 | A key is read exactly when an Identifier-then-Literal pair at one of the stepped positions has it. |
| Parser.InsertPairsValues | MyOwnDatabase/MyOwnDatabase/Parser.cs:123-127 | Every key read is bound to the literal of the last pair at the stepped positions that has it as identifier, so a later pair wins. |
| Parser.NoLiteralNoPairs | MyOwnDatabase/MyOwnDatabase/Parser.cs:125 | Without Literal tokens there are no pairs. |
| Parser.LexedInsertHasNoPairs | MyOwnDatabase/MyOwnDatabase/Parser.cs:125-126 | A tokenized statement never yields a pair. |
| Parser.ParseInsertValues | MyOwnDatabase/MyOwnDatabase/Parser.cs:117-130 | The stepping loop from just after VALUES yields exactly the pairs read from there. |
| Parser.Interpret | MyOwnDatabase/MyOwnDatabase/Parser.cs:29-49 | The result is InvalidSql exactly when there are fewer than three tokens, UnsupportedCommand exactly when the first of at least three tokens is neither SELECT nor INSERT, and IndexOutOfRange exactly for a SELECT of at least three tokens without FROM. No other error occurs, so every other token list parses. Then the command is token 0, the table token 2, and the columns or values are read as above. |
| Parser.Parse | MyOwnDatabase/MyOwnDatabase/Parser.cs:26-50 | Parse is the interpretation of the tokens of the upper-cased statement. |
| Parser.ParseIgnoresCase | MyOwnDatabase/MyOwnDatabase/Parser.cs:28 | Parsing is insensitive to the letter case of the statement. |
| Parser.ParseYieldsUpperCase | MyOwnDatabase/MyOwnDatabase/Parser.cs:28-39 | The command, table and columns of a parsed query are upper case. |
| Parser.ParsedInsertIsEmpty | MyOwnDatabase/MyOwnDatabase/Parser.cs:41-42 | A parsed INSERT carries no values. |
| ParserExamples.LexSelectStar | MyOwnDatabase/MyOwnDatabaseApp/Program.cs:13 | The upper-cased `SELECT * FROM Users` is lexed to SELECT, *, FROM, USERS. |
| ParserExamples.InterpretSelectStar | MyOwnDatabase/MyOwnDatabase/Parser.cs:105-108 | Those tokens give columns ["*"] and table FROM. |
| ParserExamples.ParseSelectStar | MyOwnDatabase/MyOwnDatabaseApp/Program.cs:13-14 | Parsing `SELECT * FROM Users` gives command SELECT, table FROM and columns ["*"]. |
| ParserExamples.InterpretSelectList | MyOwnDatabase/MyOwnDatabase/Parser.cs:105-112 | The tokens of `SELECT Id, Name FROM Users` give the columns ID, ",", NAME, FROM, USERS and the table ",". |
| Scenarios.WhereIdEqualsOne | MyOwnDatabase/MyOwnDatabase.Tests/UnitTest1.cs:27 | `Id = 1` parses to column Id and literal 1. |
| Scenarios.WhereLowerIdEqualsOne | MyOwnDatabase/MyOwnDatabase/Database.cs:109-113 | `id = 1` parses to column id and literal 1. |
| Scenarios.CanCreateTableAndInsertRow | MyOwnDatabase/MyOwnDatabase.Tests/UnitTest1.cs:9-17 | After creating Test and inserting one row, Test exists with a single row. |
| Scenarios.UsersBuilt | MyOwnDatabase/MyOwnDatabase.Tests/UnitTest1.cs:22-25 | The Users table holds its two rows in insertion order. |
| Scenarios.SelectWhole | MyOwnDatabase/MyOwnDatabase/Database.cs:55-57 | Select "*" under a WHERE returns the passing rows whole. |
| Scenarios.CanSelectWithWhere | MyOwnDatabase/MyOwnDatabase.Tests/UnitTest1.cs:20-30 | Select "*" where `Id = 1` returns exactly the Kwanele row. |
| Scenarios.JoinConditionOfTest | MyOwnDatabase/MyOwnDatabase.Tests/UnitTest1.cs:42 | `t1.Id = t2.UserId` names columns Id and UserId. |
| Scenarios.UsersAndOrdersBuilt | MyOwnDatabase/MyOwnDatabase.Tests/UnitTest1.cs:35-40 | The two tables of the join test hold one row each. |
| Scenarios.JoinOneUserOneOrder | MyOwnDatabase/MyOwnDatabase.Tests/UnitTest1.cs:42-43 | The user and the order pair into one joined row. |
| Scenarios.CanJoinTables | MyOwnDatabase/MyOwnDatabase.Tests/UnitTest1.cs:33-46 | The join of the test returns exactly one row, the joined user and order. |
| Scenarios.JoinedTestRow | MyOwnDatabase/MyOwnDatabase.Tests/UnitTest1.cs:44-45 | That row's t1_Name is Kwanele and its t2_OrderId is 101. |
| Scenarios.CanUpdateAndDelete | MyOwnDatabase/MyOwnDatabase.Tests/UnitTest1.cs:49-62 | After the update, Select "*" returns the row with Value New. After the delete, Select "*" returns nothing. |
| Scenarios.WhereComparesText | MyOwnDatabase/MyOwnDatabase/Database.cs:115 | The integer 1 and the string "1" both match `Id = 1`, and a null cell does not. |
| Scenarios.ColumnNamesExact | MyOwnDatabase/MyOwnDatabase/Database.cs:38 | `id = 1` does not match a row whose column is spelt Id, because rows are looked up exactly. |
| Scenarios.MissingColumnFails | MyOwnDatabase/MyOwnDatabase/Database.cs:115 | A row that lacks the filter's column does not match. |
| Scenarios.JoinComparesValues | MyOwnDatabase/MyOwnDatabase/Database.cs:138-140 | Join does not pair the integer 1 with the string "1", but it does pair two nulls. |

## Left out

- Transactions (`Database.cs:158-160`) are empty placeholders with nothing to model.
- The HTTP controller, its start-up code and the console application are left out. They do I/O around the core. Only the console's parse of `SELECT * FROM Users` is restated, as `ParserExamples.ParseSelectStar`.
- Exceptions are not thrown. Every failure is a `Result`/`Outcome` value, and the exception messages are not modelled.
- `ToUpper()` is culture-sensitive. The model upper-cases ASCII letters only, and uses the same ASCII folding for the `OrdinalIgnoreCase` comparison of table names.
- Values.IntToDecimal: negative integers are rendered with '-', as `Int32.ToString()` does in the invariant culture. A current culture whose `NumberFormatInfo.NegativeSign` is another character (U+2212 under ICU for sv-SE, for instance) is not modelled; there `Id = -1` would not match the cell -1, while the model matches it.
- Cells are limited to integers, strings, booleans and null. Other CLR types and their `ToString()` are left out. Integers are unbounded rather than 32-bit; no operation of the core does arithmetic on them.
- Aliasing is not modelled. Rows are values, so `Select` with "*" returns copies rather than the stored dictionaries (`Database.cs:57`), and `CreateTable` does not share the caller's column list. A later change through such a reference is therefore not modelled.
- Join builds its result rows with a case-insensitive dictionary (`Database.cs:142`). Two keys of one row that differ only in case would collapse there, but the model keeps them apart.
- The public `Tables` setter, which replaces the whole dictionary, is left out. So are null arguments (a null WHERE is modelled as the empty text).
- Query values are kept as token texts (`map<string, string>`), which is all the parser ever stores.
- ParserExamples.InterpretSelectList: it starts from the tokens of `SELECT Id, Name FROM Users`. Lexing that statement into those tokens is not proved; `ParserExamples.LexSelectStar` proves the corresponding step for `SELECT * FROM Users`.
