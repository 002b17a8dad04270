/** The single-equality WHERE predicate of Select, Update and Delete. */
module Where {
  import opened Errors
  import opened Text
  import opened Values

  /** A parsed WHERE text: no filter at all, or one column compared with a
      literal. */
  datatype Filter = MatchAll | ColumnEquals(column: string, literal: string)

  predicate IsQuote(c: char) {
    c == '\''
  }

  /** Whether a WHERE text is rejected: it is non-empty and has no '='. */
  predicate BadWhere(where: string) {
    where != "" && '=' !in where
  }

  /** Parses `column = literal`. An empty text is no filter, a bad text is an
      error, and otherwise the column has neither '=' nor white space at its
      edges, and the literal has no quote at its edges (it may keep white
      space that was inside the quotes). */
  function ParseWhere(where: string): (r: Result<Filter>)
    ensures where == "" ==> r == Ok(MatchAll)
    ensures r.Err? <==> BadWhere(where)
    ensures r.Err? ==> r.error == InvalidWhereClause
    ensures r.Ok? && r.value.ColumnEquals? ==>
      && '=' !in r.value.column && NoEdge(r.value.column, IsWhiteSpace) && NoEdge(r.value.literal, IsQuote)
  {
    if where == "" then Ok(MatchAll)
    else
      var parts := SplitFirst(where, '=');
      if |parts| != 2 then Err(InvalidWhereClause)
      else
        TrimEdges(parts[0], IsWhiteSpace);
        TrimWithin(parts[0], IsWhiteSpace);
        TrimEdges(Trim(parts[1], IsWhiteSpace), IsQuote);
        Ok(ColumnEquals(Trim(parts[0], IsWhiteSpace), Trim(Trim(parts[1], IsWhiteSpace), IsQuote)))
  }

  /** A non-empty text is cut at its FIRST '=' (a later '=' belongs to the
      literal); the column is the left part trimmed of white space, and the
      literal is the right part trimmed of white space and then of every
      leading and trailing single quote. */
  lemma ParseWhereCuts(where: string)
    requires where != "" && '=' in where
    ensures var k := IndexOf(where, '=');
      ParseWhere(where) == Ok(ColumnEquals(Trim(where[..k], IsWhiteSpace), Trim(Trim(where[k + 1..], IsWhiteSpace), IsQuote)))
  {
  }

  /** White space around the '=' and runs of quotes on either side of the
      literal are ignored: `column = literal`, `column='literal'`,
      `column = ''literal'` and the like all parse to the same filter. */
  lemma ParseWhereOf(where: string, column: string, pre: string, post: string, open: string, literal: string, close: string)
    requires where == column + pre + "=" + post + open + literal + close
    requires column != [] && '=' !in column && NoEdge(column, IsWhiteSpace)
    requires forall i :: 0 <= i < |pre| ==> IsWhiteSpace(pre[i])
    requires forall i :: 0 <= i < |post| ==> IsWhiteSpace(post[i])
    requires forall i :: 0 <= i < |open| ==> IsQuote(open[i])
    requires forall i :: 0 <= i < |close| ==> IsQuote(close[i])
    requires literal != [] && NoEdge(literal, IsWhiteSpace) && NoEdge(literal, IsQuote)
    ensures ParseWhere(where) == Ok(ColumnEquals(column, literal))
  {
    var right := post + open + literal + close;
    assert where == column + pre + "=" + right;
    WhereCutsAfterColumn(column, pre, right);
    TrimTrailing(column + pre, column, pre);
    LiteralUnwrapped(post, open, literal, close);
    ParseWhereParts(where, column + pre, right);
  }

  lemma ParseWhereParts(where: string, left: string, right: string)
    requires SplitFirst(where, '=') == [left, right]
    ensures ParseWhere(where) == Ok(ColumnEquals(Trim(left, IsWhiteSpace), Trim(Trim(right, IsWhiteSpace), IsQuote)))
  {
  }

  /** The first '=' follows the column and its padding. */
  lemma WhereCutsAfterColumn(column: string, pre: string, right: string)
    requires '=' !in column
    requires forall i :: 0 <= i < |pre| ==> IsWhiteSpace(pre[i])
    ensures SplitFirst(column + pre + "=" + right, '=') == [column + pre, right]
  {
    var where := column + pre + "=" + right;
    assert where == (column + pre) + ("=" + right);
    assert '=' !in pre by {
      forall i | 0 <= i < |pre|
        ensures pre[i] != '='
      {
        assert IsWhiteSpace(pre[i]);
      }
    }
    IndexOfPast(column + pre, "=" + right, '=');
    var k := |column| + |pre|;
    assert where[..k] == column + pre && where[k + 1..] == right;
  }

  /** The literal is recovered from its white-space padding and the quotes
      on either side of it. */
  lemma LiteralUnwrapped(post: string, open: string, literal: string, close: string)
    requires forall i :: 0 <= i < |post| ==> IsWhiteSpace(post[i])
    requires forall i :: 0 <= i < |open| ==> IsQuote(open[i])
    requires forall i :: 0 <= i < |close| ==> IsQuote(close[i])
    requires literal != [] && NoEdge(literal, IsWhiteSpace) && NoEdge(literal, IsQuote)
    ensures Trim(Trim(post + open + literal + close, IsWhiteSpace), IsQuote) == literal
  {
    var core := open + literal + close;
    assert post + open + literal + close == post + core + [];
    assert !IsWhiteSpace(core[0]) by {
      if open != [] {
        assert core[0] == open[0] && IsQuote(open[0]);
      } else {
        assert core[0] == literal[0];
      }
    }
    assert !IsWhiteSpace(core[|core| - 1]) by {
      if close != [] {
        assert core[|core| - 1] == close[|close| - 1] && IsQuote(close[|close| - 1]);
      } else {
        assert core[|core| - 1] == literal[|literal| - 1];
      }
    }
    TrimPadded(post, core, [], IsWhiteSpace);
    TrimPadded(open, literal, close, IsQuote);
  }

  /** Between quotes the literal keeps its own white space: only the white
      space outside the quotes is trimmed before the quotes are stripped. */
  lemma QuotedSpaceKept(post: string, open: string, literal: string, close: string)
    requires forall i :: 0 <= i < |post| ==> IsWhiteSpace(post[i])
    requires open != [] && forall i :: 0 <= i < |open| ==> IsQuote(open[i])
    requires close != [] && forall i :: 0 <= i < |close| ==> IsQuote(close[i])
    requires literal != [] && NoEdge(literal, IsQuote)
    ensures Trim(Trim(post + open + literal + close, IsWhiteSpace), IsQuote) == literal
  {
    var core := open + literal + close;
    assert post + open + literal + close == post + core + [];
    assert core[0] == open[0] && IsQuote(open[0]);
    assert core[|core| - 1] == close[|close| - 1] && IsQuote(close[|close| - 1]);
    TrimPadded(post, core, [], IsWhiteSpace);
    TrimPadded(open, literal, close, IsQuote);
  }

  /** s neither starts nor ends with a character for which drop holds. */
  predicate NoEdge(s: string, drop: char -> bool) {
    s == [] || (!drop(s[0]) && !drop(s[|s| - 1]))
  }

  /** Whether a row passes a parsed filter: the column is present, its cell is
      not null, and the cell renders to exactly the literal. */
  predicate Holds(f: Filter, row: Row)
  {
    match f
    case MatchAll => true
    case ColumnEquals(column, literal) => column in row && Render(row[column]) == Some(literal)
  }

  /** MatchesWhere: an empty WHERE lets every row through, a bad WHERE is an
      error whatever the row, and otherwise the verdict is that of the parsed
      filter. */
  function MatchesWhere(row: Row, where: string): (r: Result<bool>)
    ensures where == "" ==> r == Ok(true)
    ensures r.Err? <==> BadWhere(where)
    ensures r.Err? ==> r.error == InvalidWhereClause
    ensures r.Ok? ==> ParseWhere(where).Ok? && r.value == Holds(ParseWhere(where).value, row)
  {
    match ParseWhere(where)
    case Err(e) => Err(e)
    case Ok(f) => Ok(Holds(f, row))
  }

  /** With an '=' in the text, a row matches exactly when the trimmed column
      is present with a non-null cell rendering to the trimmed, unquoted
      literal. */
  lemma MatchesWhereMeaning(row: Row, where: string)
    requires where != "" && '=' in where
    ensures var k := IndexOf(where, '=');
      var column := Trim(where[..k], IsWhiteSpace);
      var literal := Trim(Trim(where[k + 1..], IsWhiteSpace), IsQuote);
      MatchesWhere(row, where).Ok? &&
      (MatchesWhere(row, where).value <==> column in row && !row[column].Null? && Render(row[column]).value == literal)
  {
    ParseWhereCuts(where);
  }

  /** A null cell never satisfies a WHERE, whatever its literal. */
  lemma NullNeverMatches(row: Row, where: string)
    requires where != "" && '=' in where
    requires var k := IndexOf(where, '='); var column := Trim(where[..k], IsWhiteSpace);
      column in row && row[column] == Null
    ensures MatchesWhere(row, where) == Ok(false)
  {
    MatchesWhereMeaning(row, where);
  }

  /** Whether a WHERE text is an error does not depend on the row. */
  lemma WhereErrorIndependentOfRow(a: Row, b: Row, where: string)
    ensures MatchesWhere(a, where).Err? <==> MatchesWhere(b, where).Err?
  {
  }
}
