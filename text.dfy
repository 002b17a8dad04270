/** The string primitives the store and the parser are built on: the .NET
    white-space class, ASCII upper-casing, searching, splitting, trimming and
    erasing a substring. */
module Text {

  /** .NET's char.IsWhiteSpace: the Unicode space, line and paragraph
      separators, plus U+0009..U+000D and U+0085. */
  predicate IsWhiteSpace(c: char) {
    || c == ' ' || '\t' <= c <= '\r' || c == '\U{0085}' || c == '\U{00A0}' || c == '\U{1680}'
    || '\U{2000}' <= c <= '\U{200A}' || c == '\U{2028}' || c == '\U{2029}' || c == '\U{202F}'
    || c == '\U{205F}' || c == '\U{3000}'
  }

  predicate IsLower(c: char) {
    'a' <= c <= 'z'
  }

  /** No ASCII lower-case letter occurs in s. */
  predicate NoLower(s: string) {
    forall i :: 0 <= i < |s| ==> !IsLower(s[i])
  }

  /** Upper-casing of one character, restricted to ASCII letters. */
  function UpperChar(c: char): (u: char)
    ensures !IsLower(u)
    ensures !IsLower(c) ==> u == c
    ensures IsLower(c) ==> u as int + 32 == c as int
  {
    if IsLower(c) then (c as int - 32) as char else c
  }

  /** ASCII upper-casing of a string; it stands both for ToUpper() and for the
      folding that OrdinalIgnoreCase applies when it compares keys. */
  function Upper(s: string): (r: string)
    ensures |r| == |s| && NoLower(r)
    ensures forall i :: 0 <= i < |s| ==> r[i] == UpperChar(s[i])
  {
    seq(|s|, i requires 0 <= i < |s| => UpperChar(s[i]))
  }

  /** Upper-casing changes nothing in a string that is already upper case. */
  lemma UpperFixesNoLower(s: string)
    requires NoLower(s)
    ensures Upper(s) == s
  {
  }

  /** Upper-casing is idempotent, so Upper(a) == Upper(b) is an equivalence
      whose classes Upper picks a representative of. */
  lemma UpperIdempotent(s: string)
    ensures Upper(Upper(s)) == Upper(s)
  {
    UpperFixesNoLower(Upper(s));
  }

  /** The first index of c in s, or -1 (String.IndexOf). */
  function IndexOf(s: string, c: char): (r: int)
    ensures -1 <= r < |s|
    ensures r == -1 <==> c !in s
    ensures 0 <= r ==> s[r] == c && c !in s[..r]
  {
    if s == [] then -1
    else if s[0] == c then 0
    else
      var k := IndexOf(s[1..], c);
      if k == -1 then -1
      else
        assert s[..k + 1] == [s[0]] + s[1..][..k];
        k + 1
  }

  /** The number of occurrences of c in s. */
  function Count(s: string, c: char): (n: nat)
    ensures n <= |s|
    ensures n == 0 <==> c !in s
  {
    if s == [] then 0
    else (if s[0] == c then 1 else 0) + Count(s[1..], c)
  }

  lemma {:induction false} CountAppend(a: string, b: string, c: char)
    ensures Count(a + b, c) == Count(a, c) + Count(b, c)
  {
    if a == [] {
      assert a + b == b;
    } else {
      assert (a + b)[1..] == a[1..] + b;
      CountAppend(a[1..], b, c);
    }
  }

  /** Joins parts with c between neighbours (String.Join). */
  function JoinWith(parts: seq<string>, c: char): string
    requires |parts| >= 1
  {
    if |parts| == 1 then parts[0] else parts[0] + [c] + JoinWith(parts[1..], c)
  }

  /** String.Split(c): the pieces between the occurrences of c. */
  function Split(s: string, c: char): (parts: seq<string>)
    ensures |parts| == Count(s, c) + 1
    ensures forall i :: 0 <= i < |parts| ==> c !in parts[i]
    ensures JoinWith(parts, c) == s
    decreases |s|
  {
    var k := IndexOf(s, c);
    if k == -1 then [s]
    else
      assert s == s[..k] + [c] + s[k + 1..];
      CountAppend(s[..k] + [c], s[k + 1..], c);
      CountAppend(s[..k], [c], c);
      var rest := Split(s[k + 1..], c);
      assert ([s[..k]] + rest)[1..] == rest;
      [s[..k]] + rest
  }

  /** String.Split(new[] { c }, 2): at most two pieces, cut at the first c;
      the second piece keeps any further occurrence of c. */
  function SplitFirst(s: string, c: char): (parts: seq<string>)
    ensures |parts| == if c in s then 2 else 1
    ensures c !in parts[0]
    ensures JoinWith(parts, c) == s
  {
    var k := IndexOf(s, c);
    if k == -1 then [s]
    else
      assert s == s[..k] + [c] + s[k + 1..];
      [s[..k], s[k + 1..]]
  }

  /** With exactly one c in s, Split and SplitFirst cut s at the same place. */
  lemma SplitOnce(s: string, c: char)
    requires Count(s, c) == 1
    ensures Split(s, c) == SplitFirst(s, c)
  {
    var k := IndexOf(s, c);
    OnlyOccurrence(s, c);
    SplitWithout(s[k + 1..], c);
    assert Split(s, c) == [s[..k]] + [s[k + 1..]];
  }

  /** The only c in s is the first one: none follows it. */
  lemma OnlyOccurrence(s: string, c: char)
    requires Count(s, c) == 1
    ensures IndexOf(s, c) >= 0 && c !in s[IndexOf(s, c) + 1..]
  {
    var k := IndexOf(s, c);
    var before, after := s[..k], s[k + 1..];
    assert s == before + [c] + after;
    CountAppend(before + [c], after, c);
    CountAppend(before, [c], c);
    assert Count([c], c) == 1;
  }

  lemma SplitWithout(s: string, c: char)
    requires c !in s
    ensures Split(s, c) == [s]
  {
  }

  /** The number of leading characters for which drop holds. */
  function Leading(s: string, drop: char -> bool): (k: nat)
    ensures k <= |s|
    ensures forall i :: 0 <= i < k ==> drop(s[i])
    ensures k == |s| || !drop(s[k])
  {
    if s != [] && drop(s[0]) then 1 + Leading(s[1..], drop) else 0
  }

  /** The number of trailing characters for which drop holds. */
  function Trailing(s: string, drop: char -> bool): (k: nat)
    ensures k <= |s|
    ensures forall i :: |s| - k <= i < |s| ==> drop(s[i])
    ensures k == |s| || !drop(s[|s| - k - 1])
  {
    if s != [] && drop(s[|s| - 1]) then 1 + Trailing(s[..|s| - 1], drop) else 0
  }

  /** Drops the leading characters for which drop holds. */
  function TrimStart(s: string, drop: char -> bool): (r: string)
    ensures |r| <= |s|
    ensures forall i :: 0 <= i < |r| ==> r[i] == s[|s| - |r| + i]
    ensures r == [] || !drop(r[0])
    ensures forall i :: 0 <= i < |s| - |r| ==> drop(s[i])
  {
    s[Leading(s, drop)..]
  }

  /** Drops the trailing characters for which drop holds. */
  function TrimEnd(s: string, drop: char -> bool): (r: string)
    ensures |r| <= |s|
    ensures forall i :: 0 <= i < |r| ==> r[i] == s[i]
    ensures r == [] || !drop(r[|r| - 1])
    ensures forall i :: |r| <= i < |s| ==> drop(s[i])
  {
    s[..|s| - Trailing(s, drop)]
  }

  /** String.Trim() (drop = IsWhiteSpace) and String.Trim(ch) (drop = equality
      with ch): the leading, then the trailing characters for which drop holds
      are removed. TrimEdges, TrimUnpadded and TrimWithin state what is left. */
  function Trim(s: string, drop: char -> bool): string {
    TrimEnd(TrimStart(s, drop), drop)
  }

  /** What Trim leaves neither starts nor ends with a dropped character. */
  lemma TrimEdges(s: string, drop: char -> bool)
    ensures var r := Trim(s, drop); r == [] || (!drop(r[0]) && !drop(r[|r| - 1]))
  {
    var t := TrimStart(s, drop);
    var r := TrimEnd(t, drop);
    if r != [] {
      assert r[0] == t[0];
    }
  }

  /** Text that neither starts nor ends with a dropped character is left as
      it is. */
  lemma TrimUnpadded(s: string, drop: char -> bool)
    requires s == [] || (!drop(s[0]) && !drop(s[|s| - 1]))
    ensures Trim(s, drop) == s
  {
    assert Leading(s, drop) == 0;
    assert s[0..] == s;
    assert Trailing(s, drop) == 0;
    assert s[..|s|] == s;
  }

  /** What Trim leaves is a run of s: its characters all occur in s, and its
      length is at most that of s. */
  lemma TrimWithin(s: string, drop: char -> bool)
    ensures |Trim(s, drop)| <= |s|
    ensures forall x :: x in Trim(s, drop) ==> x in s
  {
    var t := TrimStart(s, drop);
    var r := TrimEnd(t, drop);
    forall x | x in r
      ensures x in s
    {
      var i :| 0 <= i < |r| && r[i] == x;
      assert t[i] == s[|s| - |t| + i];
    }
  }

  /** String.Replace(pat, ""): deletes the occurrences of pat found scanning
      left to right without overlap; text freed by a deletion is not
      rescanned as part of an earlier occurrence. */
  function Erase(s: string, pat: string): (r: string)
    requires pat != []
    ensures |r| <= |s|
    ensures forall x :: x in r ==> x in s
    decreases |s|
  {
    if |s| < |pat| then s
    else if s[..|pat|] == pat then Erase(s[|pat|..], pat)
    else [s[0]] + Erase(s[1..], pat)
  }

  /** Nothing is erased from a string lacking one of pat's characters. */
  lemma {:induction false} EraseAbsent(s: string, pat: string, x: char)
    requires pat != [] && x in pat && x !in s
    ensures Erase(s, pat) == s
    decreases |s|
  {
    if |s| >= |pat| {
      assert s[..|pat|] != pat by {
        var j :| 0 <= j < |pat| && pat[j] == x;
        assert s[..|pat|][j] == s[j];
      }
      EraseAbsent(s[1..], pat, x);
      assert s == [s[0]] + s[1..];
    }
  }

  /** pat occurs in s starting at index i. */
  predicate OccursAt(s: string, pat: string, i: int) {
    0 <= i && i + |pat| <= |s| && s[i..i + |pat|] == pat
  }

  /** A text in which pat occurs nowhere is left as it is. */
  lemma {:induction false} EraseNoOccurrence(s: string, pat: string)
    requires pat != []
    requires forall i :: !OccursAt(s, pat, i)
    ensures Erase(s, pat) == s
    decreases |s|
  {
    if |s| >= |pat| {
      assert !OccursAt(s, pat, 0);
      assert s[..|pat|] != pat;
      forall i
        ensures !OccursAt(s[1..], pat, i)
      {
        assert !OccursAt(s, pat, i + 1);
        if 0 <= i && i + |pat| <= |s[1..]| {
          var inner, outer := s[1..][i..i + |pat|], s[i + 1..i + 1 + |pat|];
          assert forall k :: 0 <= k < |pat| ==> inner[k] == outer[k];
          assert inner == outer;
        }
      }
      EraseNoOccurrence(s[1..], pat);
      assert s == [s[0]] + s[1..];
    }
  }

  /** The first occurrence of pat is deleted, the text before it is kept,
      and erasing resumes after it. */
  lemma {:induction false} EraseFirst(x: string, pat: string, y: string)
    requires pat != []
    requires forall i :: 0 <= i < |x| ==> !OccursAt(x + pat + y, pat, i)
    ensures Erase(x + pat + y, pat) == x + Erase(y, pat)
    decreases |x|
  {
    if x == [] {
      EraseAtFront(pat, y);
      assert x + pat + y == pat + y;
    } else {
      var s, t := x + pat + y, x[1..] + pat + y;
      assert !OccursAt(s, pat, 0);
      EraseSkip(s, pat);
      ShiftNoOccurrence(x, pat, y);
      EraseFirst(x[1..], pat, y);
      assert Erase(s, pat) == [x[0]] + (x[1..] + Erase(y, pat));
      assert x == [x[0]] + x[1..];
    }
  }

  /** An occurrence at the front is deleted. */
  lemma EraseAtFront(pat: string, y: string)
    requires pat != []
    ensures Erase(pat + y, pat) == Erase(y, pat)
  {
    assert (pat + y)[..|pat|] == pat && (pat + y)[|pat|..] == y;
  }

  /** Where pat does not start at the front, the first character is kept. */
  lemma EraseSkip(s: string, pat: string)
    requires pat != [] && |s| >= |pat| && !OccursAt(s, pat, 0)
    ensures Erase(s, pat) == [s[0]] + Erase(s[1..], pat)
  {
    assert s[..|pat|] != pat;
  }

  lemma ShiftNoOccurrence(x: string, pat: string, y: string)
    requires x != []
    requires forall i :: 0 <= i < |x| ==> !OccursAt(x + pat + y, pat, i)
    ensures (x + pat + y)[1..] == x[1..] + pat + y
    ensures forall i :: 0 <= i < |x[1..]| ==> !OccursAt(x[1..] + pat + y, pat, i)
  {
    var s, t := x + pat + y, x[1..] + pat + y;
    assert s[1..] == t;
    forall i | 0 <= i < |x[1..]|
      ensures !OccursAt(t, pat, i)
    {
      assert !OccursAt(s, pat, i + 1);
      if i + |pat| <= |t| {
        assert s[i + 1..i + 1 + |pat|] == t[i..i + |pat|];
      }
    }
  }

  /** Padding made of dropped characters around a core that neither starts
      nor ends with one is exactly what Trim removes. */
  lemma TrimPadded(pre: string, core: string, post: string, drop: char -> bool)
    requires core != [] && !drop(core[0]) && !drop(core[|core| - 1])
    requires forall i :: 0 <= i < |pre| ==> drop(pre[i])
    requires forall i :: 0 <= i < |post| ==> drop(post[i])
    ensures Trim(pre + core + post, drop) == core
  {
    assert pre + core + post == pre + (core + post);
    TrimStartPadded(pre, core + post, drop);
    TrimEndPadded(core, post, drop);
  }

  lemma TrimStartPadded(pre: string, rest: string, drop: char -> bool)
    requires rest != [] && !drop(rest[0])
    requires forall i :: 0 <= i < |pre| ==> drop(pre[i])
    ensures TrimStart(pre + rest, drop) == rest
  {
    var s := pre + rest;
    var r := TrimStart(s, drop);
    assert s[|pre|] == rest[0];
    assert |r| == |rest|;
    forall i | 0 <= i < |r|
      ensures r[i] == rest[i]
    {
      assert r[i] == s[|pre| + i];
    }
  }

  lemma TrimEndPadded(rest: string, post: string, drop: char -> bool)
    requires rest != [] && !drop(rest[|rest| - 1])
    requires forall i :: 0 <= i < |post| ==> drop(post[i])
    ensures TrimEnd(rest + post, drop) == rest
  {
    var s := rest + post;
    var r := TrimEnd(s, drop);
    assert s[|rest| - 1] == rest[|rest| - 1];
    assert |r| == |rest|;
    forall i | 0 <= i < |r|
      ensures r[i] == rest[i]
    {
      assert r[i] == s[i];
    }
  }

  /** Trim of a core followed by white space. */
  lemma TrimTrailing(s: string, core: string, pad: string)
    requires s == core + pad && core != [] && !IsWhiteSpace(core[0]) && !IsWhiteSpace(core[|core| - 1])
    requires forall i :: 0 <= i < |pad| ==> IsWhiteSpace(pad[i])
    ensures Trim(s, IsWhiteSpace) == core
  {
    TrimEndPadded(core, pad, IsWhiteSpace);
    assert TrimStart(s, IsWhiteSpace) == s;
  }

  /** Trim of white space followed by a core. */
  lemma TrimLeading(s: string, pad: string, core: string)
    requires s == pad + core && core != [] && !IsWhiteSpace(core[0]) && !IsWhiteSpace(core[|core| - 1])
    requires forall i :: 0 <= i < |pad| ==> IsWhiteSpace(pad[i])
    ensures Trim(s, IsWhiteSpace) == core
  {
    TrimStartPadded(pad, core, IsWhiteSpace);
    assert TrimEnd(core, IsWhiteSpace) == core;
  }

  /** The first c lies past a prefix that lacks c. */
  lemma {:induction false} IndexOfPast(a: string, b: string, c: char)
    requires c !in a && c in b
    ensures IndexOf(a + b, c) == |a| + IndexOf(b, c)
    decreases |a|
  {
    if a == [] {
      assert a + b == b;
    } else {
      assert (a + b)[1..] == a[1..] + b;
      IndexOfPast(a[1..], b, c);
    }
  }
}
