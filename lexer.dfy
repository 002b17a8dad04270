/** The tokenizer of the SQL front end: tokens, their kinds, the reference
    lexical grammar, and the character-by-character scanner proved to agree
    with it. */
module Lexer {
  import opened Text

  /** The seven token kinds. The scanner only ever produces Keyword,
      Identifier, Operator and Star; Literal, Comma and Semicolon are never
      assigned (a ',' or ';' is typed Star). */
  datatype TokenKind = Keyword | Identifier | Operator | Literal | Comma | Semicolon | Star

  datatype Token = Token(value: string, kind: TokenKind)

  /** The single characters that stand as a token of their own, typed Star. */
  predicate IsPunctuation(c: char) {
    c == '*' || c == ';' || c == ','
  }

  /** The characters that end a word. */
  predicate IsDelimiter(c: char) {
    IsWhiteSpace(c) || IsPunctuation(c) || c == '='
  }

  /** A word is a run of characters none of which ends a word. */
  predicate IsWord(w: string) {
    forall i :: 0 <= i < |w| ==> !IsDelimiter(w[i])
  }

  predicate IsKeyword(w: string) {
    w == "SELECT" || w == "INSERT"
  }

  /** The kind AddToken gives a finished word. */
  function WordKind(w: string): (k: TokenKind)
    ensures k == Star <==> w == "*"
    ensures k == Keyword <==> IsKeyword(w)
    ensures k == Keyword || k == Identifier || k == Star
  {
    if w == "*" then Star else if IsKeyword(w) then Keyword else Identifier
  }

  /** AddToken: appends the word, typed Star if it is "*", Keyword if it is
      SELECT or INSERT (case-sensitively), and Identifier otherwise. */
  function AddToken(tokens: seq<Token>, value: string): (r: seq<Token>)
    ensures |r| == |tokens| + 1 && r[..|tokens|] == tokens
    ensures r[|tokens|].value == value
    ensures r[|tokens|].kind == Keyword <==> IsKeyword(value)
    ensures r[|tokens|].kind == Star <==> value == "*"
    ensures r[|tokens|].kind in {Keyword, Identifier, Star}
  {
    tokens + [Token(value, WordKind(value))]
  }

  /** The length of the word s starts with. */
  function WordLength(s: string): (n: nat)
    ensures n <= |s| && IsWord(s[..n])
    ensures n < |s| ==> IsDelimiter(s[n])
  {
    if s == [] || IsDelimiter(s[0]) then 0
    else
      var n := 1 + WordLength(s[1..]);
      assert s[..n] == [s[0]] + s[1..][..n - 1];
      n
  }

  /** The shape every token of the scanner has. */
  predicate WellFormed(t: Token) {
    match t.kind
    case Star => t.value == "*" || t.value == ";" || t.value == ","
    case Operator => t.value == "="
    case Keyword => IsKeyword(t.value)
    case Identifier => t.value != [] && IsWord(t.value) && !IsKeyword(t.value)
    case _ => false
  }

  /** The lexical grammar, read from the front: white space separates tokens
      and is dropped; '*', ';' and ',' are one-character Star tokens; '=' is
      the Operator token; every maximal run of other characters is a word
      typed by WordKind. */
  function Lex(s: string): seq<Token>
    decreases |s|
  {
    if s == [] then []
    else if IsWhiteSpace(s[0]) then Lex(s[1..])
    else if IsPunctuation(s[0]) then [Token([s[0]], Star)] + Lex(s[1..])
    else if s[0] == '=' then [Token("=", Operator)] + Lex(s[1..])
    else
      var n := WordLength(s);
      var w := s[..n];
      assert w[0] == s[0];
      [Token(w, WordKind(w))] + Lex(s[n..])
  }

  /** Every token of the lexical grammar has one of the scanner's shapes. */
  lemma {:induction false} LexWellFormed(s: string)
    ensures forall t :: t in Lex(s) ==> WellFormed(t)
    decreases |s|
  {
    if s == [] {
    } else if IsWhiteSpace(s[0]) || IsPunctuation(s[0]) || s[0] == '=' {
      LexWellFormed(s[1..]);
    } else {
      var n := WordLength(s);
      var w := s[..n];
      assert w[0] == s[0];
      LexWellFormed(s[n..]);
    }
  }

  /** A word followed by a delimiter or by nothing is lexed as one token. */
  lemma LexWord(w: string, rest: string)
    requires w != [] && IsWord(w)
    requires rest == [] || IsDelimiter(rest[0])
    ensures Lex(w + rest) == [Token(w, WordKind(w))] + Lex(rest)
  {
    var s := w + rest;
    WordLengthOfWord(w, rest);
    assert s[..|w|] == w && s[|w|..] == rest;
  }

  lemma {:induction false} WordLengthOfWord(w: string, rest: string)
    requires IsWord(w)
    requires rest == [] || IsDelimiter(rest[0])
    ensures WordLength(w + rest) == |w|
    decreases |w|
  {
    if w == [] {
      assert w + rest == rest;
    } else {
      assert (w + rest)[1..] == w[1..] + rest;
      WordLengthOfWord(w[1..], rest);
    }
  }

  /** The scanner of Parser.Tokenize: a pending word is flushed with AddToken
      at white space, at '*', ';' or ',' (which then becomes a Star token) and
      at '=' (which then becomes the Operator token), and at the end. */
  method Tokenize(sql: string) returns (tokens: seq<Token>)
    ensures tokens == Lex(sql)
  {
    tokens := [];
    var current := "";
    var i := 0;
    ScanStart(sql);
    while i < |sql|
      invariant 0 <= i <= |sql|
      invariant IsWord(current)
      invariant Scanned(tokens, current, sql[i..], Lex(sql))
    {
      var ch := sql[i];
      if IsWhiteSpace(ch) || IsPunctuation(ch) || ch == '=' {
        ghost var before := tokens;
        if current != "" {
          tokens := AddToken(tokens, current);
        }
        if IsPunctuation(ch) {
          tokens := tokens + [Token([ch], Star)];
        } else if ch == '=' {
          tokens := tokens + [Token("=", Operator)];
        }
        assert tokens == before + Flushed(current, ch);
        DelimiterStep(before, current, sql, i, Lex(sql));
        current := "";
      } else {
        WordStep(tokens, current, sql, i, Lex(sql));
        current := current + [ch];
      }
      i := i + 1;
    }
    assert sql[i..] == [];
    ghost var before := tokens;
    if current != "" {
      tokens := AddToken(tokens, current);
    }
    ScanEnd(before, current, Lex(sql));
  }

  /** Scanning state: the tokens emitted so far, followed by the tokens of the
      pending word and the unread input, are the tokens of the whole input. */
  ghost predicate Scanned(tokens: seq<Token>, current: string, rest: string, total: seq<Token>) {
    tokens + Lex(current + rest) == total
  }

  /** The tokens the pending word and the delimiter after it stand for. */
  function Flushed(current: string, ch: char): seq<Token> {
    (if current != "" then [Token(current, WordKind(current))] else [])
    + (if IsPunctuation(ch) then [Token([ch], Star)] else if ch == '=' then [Token("=", Operator)] else [])
  }

  /** At a delimiter the pending word and the delimiter are lexed on their
      own, and lexing resumes after the delimiter. */
  lemma LexAtDelimiter(current: string, ch: char, rest: string)
    requires IsWord(current) && IsDelimiter(ch)
    ensures Lex(current + ([ch] + rest)) == Flushed(current, ch) + Lex(rest)
  {
    if current != "" {
      LexWord(current, [ch] + rest);
    } else {
      assert current + ([ch] + rest) == [ch] + rest;
    }
    assert ([ch] + rest)[1..] == rest;
  }

  /** On entry to the loop of Tokenize nothing is scanned and nothing is
      pending, so the whole input is still to be lexed. */
  lemma ScanStart(sql: string)
    ensures Scanned([], "", sql, Lex(sql))
  {
    assert "" + sql == sql;
  }

  /** The loop step of Tokenize at a delimiter. */
  lemma DelimiterStep(tokens: seq<Token>, current: string, sql: string, i: nat, total: seq<Token>)
    requires i < |sql| && IsWord(current) && IsDelimiter(sql[i])
    requires Scanned(tokens, current, sql[i..], total)
    ensures Scanned(tokens + Flushed(current, sql[i]), "", sql[i + 1..], total)
  {
    var ch, rest := sql[i], sql[i + 1..];
    assert sql[i..] == [ch] + rest;
    LexAtDelimiter(current, ch, rest);
    assert "" + rest == rest;
  }

  /** The loop step of Tokenize inside a word. */
  lemma WordStep(tokens: seq<Token>, current: string, sql: string, i: nat, total: seq<Token>)
    requires i < |sql|
    requires Scanned(tokens, current, sql[i..], total)
    ensures Scanned(tokens, current + [sql[i]], sql[i + 1..], total)
  {
    var ch, rest := sql[i], sql[i + 1..];
    assert sql[i..] == [ch] + rest;
    assert (current + [ch]) + rest == current + ([ch] + rest);
  }

  /** At the end of the input the pending word, if any, is the last token. */
  lemma ScanEnd(tokens: seq<Token>, current: string, total: seq<Token>)
    requires IsWord(current)
    requires Scanned(tokens, current, [], total)
    ensures total == if current == "" then tokens else AddToken(tokens, current)
  {
    assert current + [] == current;
    if current != "" {
      LexWord(current, []);
    }
  }

  // ---------------------------------------------------------------------
  // What the scanner keeps

  /** s without its white-space characters. */
  function Squeeze(s: string): (r: string)
    ensures |r| <= |s|
  {
    if s == [] then [] else (if IsWhiteSpace(s[0]) then [] else [s[0]]) + Squeeze(s[1..])
  }

  /** Squeeze keeps exactly the characters of s that are not white space. */
  lemma {:induction false} SqueezeChars(s: string)
    ensures forall c :: c in Squeeze(s) <==> c in s && !IsWhiteSpace(c)
    decreases |s|
  {
    if s != [] {
      SqueezeChars(s[1..]);
      assert s == [s[0]] + s[1..];
    }
  }

  /** The token texts laid end to end. */
  function Concat(tokens: seq<Token>): string {
    if tokens == [] then [] else tokens[0].value + Concat(tokens[1..])
  }

  lemma {:induction false} SqueezeAppend(a: string, b: string)
    ensures Squeeze(a + b) == Squeeze(a) + Squeeze(b)
    decreases |a|
  {
    if a == [] {
      assert a + b == b;
    } else {
      assert (a + b)[1..] == a[1..] + b;
      SqueezeAppend(a[1..], b);
    }
  }

  lemma {:induction false} SqueezeWord(w: string)
    requires IsWord(w)
    ensures Squeeze(w) == w
    decreases |w|
  {
    if w != [] {
      SqueezeWord(w[1..]);
    }
  }

  /** Lexing loses exactly the white space: the token texts laid end to end
      give back the input without its white space. */
  lemma {:induction false} LexKeepsText(s: string)
    ensures Concat(Lex(s)) == Squeeze(s)
    decreases |s|
  {
    if s == [] {
    } else if IsWhiteSpace(s[0]) {
      LexKeepsText(s[1..]);
    } else if IsPunctuation(s[0]) || s[0] == '=' {
      LexKeepsText(s[1..]);
      var t := Lex(s);
      assert t[1..] == Lex(s[1..]);
    } else {
      var n := WordLength(s);
      var w := s[..n];
      LexKeepsText(s[n..]);
      assert s == w + s[n..];
      SqueezeAppend(w, s[n..]);
      SqueezeWord(w);
      var t := Lex(s);
      assert t[1..] == Lex(s[n..]);
    }
  }

  /** Every character of a token text occurs in the input. */
  lemma {:induction false} LexFromInput(s: string)
    ensures forall t, c :: t in Lex(s) && c in t.value ==> c in s
    decreases |s|
  {
    if s != [] {
      assert forall c :: c in s[1..] ==> c in s;
      if IsWhiteSpace(s[0]) || IsPunctuation(s[0]) || s[0] == '=' {
        LexFromInput(s[1..]);
      } else {
        var n := WordLength(s);
        LexFromInput(s[n..]);
        assert forall c :: c in s[..n] ==> c in s;
        assert forall c :: c in s[n..] ==> c in s;
      }
    }
  }

  /** Lexing upper-cased text yields upper-cased token texts. */
  lemma LexNoLower(s: string)
    requires NoLower(s)
    ensures forall t :: t in Lex(s) ==> NoLower(t.value)
  {
    LexFromInput(s);
    forall t | t in Lex(s)
      ensures NoLower(t.value)
    {
      forall i | 0 <= i < |t.value|
        ensures !IsLower(t.value[i])
      {
        assert t.value[i] in t.value;
        assert t.value[i] in s;
        var j :| 0 <= j < |s| && s[j] == t.value[i];
      }
    }
  }
}
