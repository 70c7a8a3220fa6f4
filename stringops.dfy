/**
 * The java.lang.String operations the core relies on, as functions on
 * sequences of characters: trim, ASCII lower-casing, startsWith,
 * compareTo order, String.join, split and replaceAll with a literal
 * pattern, and lastIndexOf.
 */
module StringOps {

  // ---------------------------------------------------------------------
  // trim
  // ---------------------------------------------------------------------

  /** String.trim removes every character whose code is at most U+0020. */
  predicate IsTrimmable(c: char) {
    c <= ' '
  }

  /** A string that String.trim turns into the empty string. */
  predicate IsBlank(s: string) {
    forall i :: 0 <= i < |s| ==> IsTrimmable(s[i])
  }

  function TrimStart(s: string): (r: string)
    ensures |r| <= |s| && r == s[|s| - |r|..]
    ensures forall i :: 0 <= i < |s| - |r| ==> IsTrimmable(s[i])
    ensures r != "" ==> !IsTrimmable(r[0])
    decreases |s|
  {
    if |s| > 0 && IsTrimmable(s[0]) then TrimStart(s[1..]) else s
  }

  function TrimEnd(s: string): (r: string)
    ensures |r| <= |s| && r == s[..|r|]
    ensures forall i :: |r| <= i < |s| ==> IsTrimmable(s[i])
    ensures r != "" ==> !IsTrimmable(r[|r| - 1])
    decreases |s|
  {
    if |s| > 0 && IsTrimmable(s[|s| - 1]) then TrimEnd(s[..|s| - 1]) else s
  }

  /** String.trim: the string without its leading and trailing characters up to U+0020. */
  function Trim(s: string): string {
    TrimEnd(TrimStart(s))
  }

  /** Trimming gives the empty string exactly for blank strings. */
  lemma TrimEmptyIffBlank(s: string)
    ensures Trim(s) == "" <==> IsBlank(s)
  {
    var t := TrimStart(s);
    if Trim(s) == "" {
      assert |t| == 0;
    } else {
      var r := Trim(s);
      assert r[0] == t[0];
      assert s[|s| - |t|] == t[0];
    }
  }

  /** Blank text in front of a string is trimmed away with the string's own leading blanks. */
  lemma {:induction false} TrimStartSkipsBlank(pad: string, s: string)
    requires IsBlank(pad)
    ensures TrimStart(pad + s) == TrimStart(s)
    decreases |pad|
  {
    if |pad| > 0 {
      assert (pad + s)[1..] == pad[1..] + s;
      TrimStartSkipsBlank(pad[1..], s);
    } else {
      assert pad + s == s;
    }
  }

  // ---------------------------------------------------------------------
  // toLowerCase and startsWith
  // ---------------------------------------------------------------------

  /** Character.toLowerCase restricted to ASCII: 'A'..'Z' become 'a'..'z'. */
  function LowerChar(c: char): char {
    if 'A' <= c <= 'Z' then (c as int + 32) as char else c
  }

  /** String.toLowerCase restricted to ASCII. */
  function ToLower(s: string): (r: string)
    ensures |r| == |s|
    ensures forall i :: 0 <= i < |s| ==> r[i] == LowerChar(s[i])
  {
    seq(|s|, i requires 0 <= i < |s| => LowerChar(s[i]))
  }

  /** Lower-casing twice is lower-casing once. */
  lemma ToLowerIdempotent(s: string)
    ensures ToLower(ToLower(s)) == ToLower(s)
  {
  }

  predicate StartsWith(s: string, prefix: string) {
    |prefix| <= |s| && s[..|prefix|] == prefix
  }

  // ---------------------------------------------------------------------
  // compareTo and sorted key lists
  // ---------------------------------------------------------------------

  /** s.compareTo(t) <= 0: lexicographic by character, a proper prefix first. */
  predicate LexLe(a: string, b: string)
    decreases |a|
  {
    if |a| == 0 then true
    else if |b| == 0 then false
    else if a[0] != b[0] then a[0] < b[0]
    else LexLe(a[1..], b[1..])
  }

  lemma {:induction false} LexLeAntisymmetric(a: string, b: string)
    ensures LexLe(a, b) && LexLe(b, a) ==> a == b
    decreases |a|
  {
    if |a| > 0 && |b| > 0 && a[0] == b[0] {
      LexLeAntisymmetric(a[1..], b[1..]);
      assert a == [a[0]] + a[1..];
      assert b == [b[0]] + b[1..];
    }
  }

  lemma {:induction false} LexLeTotal(a: string, b: string)
    ensures LexLe(a, b) || LexLe(b, a)
    decreases |a|
  {
    if |a| > 0 && |b| > 0 && a[0] == b[0] {
      LexLeTotal(a[1..], b[1..]);
    }
  }

  lemma {:induction false} LexLeTransitive(a: string, b: string, c: string)
    ensures LexLe(a, b) && LexLe(b, c) ==> LexLe(a, c)
    decreases |a|
  {
    if |a| > 0 && |b| > 0 && |c| > 0 && a[0] == b[0] && b[0] == c[0] {
      LexLeTransitive(a[1..], b[1..], c[1..]);
    }
  }

  lemma LexLeAntisymmetricAll()
    ensures forall a, b :: LexLe(a, b) && LexLe(b, a) ==> a == b
  {
    forall a, b ensures LexLe(a, b) && LexLe(b, a) ==> a == b {
      LexLeAntisymmetric(a, b);
    }
  }

  predicate IsLeast(m: string, s: set<string>) {
    m in s && forall x :: x in s ==> LexLe(m, x)
  }

  /** Every finite non-empty set of strings has a least element. */
  lemma {:induction false} LeastExists(s: set<string>)
    requires s != {}
    ensures exists m :: IsLeast(m, s)
    decreases s
  {
    var x :| x in s;
    if s == {x} {
      LexLeTotal(x, x);
      assert IsLeast(x, s);
    } else {
      LeastExists(s - {x});
      var m :| IsLeast(m, s - {x});
      LexLeTotal(m, x);
      if LexLe(m, x) {
        assert IsLeast(m, s);
      } else {
        forall y | y in s ensures LexLe(x, y) {
          if y != x { LexLeTransitive(x, m, y); } else { LexLeTotal(x, x); }
        }
        assert IsLeast(x, s);
      }
    }
  }

  /** Strictly ascending in compareTo order, hence without duplicates. */
  predicate StrictlySorted(r: seq<string>) {
    forall i, j :: 0 <= i < j < |r| ==> LexLe(r[i], r[j]) && r[i] != r[j]
  }

  /** keySet().stream().sorted(): the elements of a set in ascending order. */
  function SortedKeys(s: set<string>): (r: seq<string>)
    ensures |r| == |s|
    ensures forall x :: x in r <==> x in s
    ensures StrictlySorted(r)
    decreases s
  {
    if s == {} then []
    else
      LeastExists(s);
      LexLeAntisymmetricAll();
      var m :| IsLeast(m, s);
      [m] + SortedKeys(s - {m})
  }

  // ---------------------------------------------------------------------
  // String.join, split and replaceAll with a literal pattern
  // ---------------------------------------------------------------------

  /** String.join(sep, pieces). */
  function Join(pieces: seq<string>, sep: string): string
    decreases |pieces|
  {
    if |pieces| == 0 then ""
    else if |pieces| == 1 then pieces[0]
    else pieces[0] + sep + Join(pieces[1..], sep)
  }

  lemma JoinPrependToHead(c: char, pieces: seq<string>, sep: string)
    requires |pieces| >= 1
    ensures Join([[c] + pieces[0]] + pieces[1..], sep) == [c] + Join(pieces, sep)
  {
    var ps := [[c] + pieces[0]] + pieces[1..];
    if |pieces| > 1 {
      assert ps[1..] == pieces[1..];
    }
  }

  lemma {:induction false} JoinAppend(pieces: seq<string>, last: string, sep: string)
    requires |pieces| >= 1
    ensures Join(pieces + [last], sep) == Join(pieces, sep) + sep + last
    decreases |pieces|
  {
    if |pieces| > 1 {
      assert (pieces + [last])[1..] == pieces[1..] + [last];
      JoinAppend(pieces[1..], last, sep);
    }
  }

  /**
   * The pieces between the non-overlapping occurrences of a non-empty
   * literal delimiter, found left to right, all of them kept: the split
   * before Java drops the trailing empty pieces.
   */
  function SplitAll(s: string, d: string): (r: seq<string>)
    requires |d| > 0
    ensures |r| >= 1
    ensures Join(r, d) == s
    decreases |s|
  {
    if |s| < |d| then [s]
    else if s[..|d|] == d then
      var rest := SplitAll(s[|d|..], d);
      assert s == d + s[|d|..];
      [""] + rest
    else
      var rest := SplitAll(s[1..], d);
      JoinPrependToHead(s[0], rest, d);
      assert s == [s[0]] + s[1..];
      [[s[0]] + rest[0]] + rest[1..]
  }

  /** A string ending in a one-character delimiter splits into the pieces of the rest and one empty piece. */
  lemma {:induction false} SplitAllTrailingDelimiter(s: string, c: char)
    ensures SplitAll(s + [c], [c]) == SplitAll(s, [c]) + [""]
    decreases |s|
  {
    var d := [c];
    if |s| == 0 {
      assert (s + d)[..1] == d;
      assert (s + d)[1..] == "";
    } else if s[..1] == d {
      assert (s + d)[..1] == d;
      assert (s + d)[1..] == s[1..] + d;
      SplitAllTrailingDelimiter(s[1..], c);
    } else {
      assert (s + d)[..1] == s[..1];
      assert (s + d)[1..] == s[1..] + d;
      SplitAllTrailingDelimiter(s[1..], c);
    }
  }

  /** No piece of a split on a one-character delimiter contains the delimiter. */
  lemma {:induction false} SplitAllPiecesExclude(s: string, c: char)
    ensures forall i :: 0 <= i < |SplitAll(s, [c])| ==> c !in SplitAll(s, [c])[i]
    decreases |s|
  {
    if |s| >= 1 {
      SplitAllPiecesExclude(s[1..], c);
    }
  }

  /** A piece without the delimiter, then the delimiter: the piece comes first, then the pieces of the rest. */
  lemma {:induction false} SplitAllAfterPiece(a: string, t: string, c: char)
    requires c !in a
    ensures SplitAll(a + [c] + t, [c]) == [a] + SplitAll(t, [c])
    decreases |a|
  {
    var s := a + [c] + t;
    if |a| == 0 {
      assert s[..1] == [c] && s[1..] == t;
    } else {
      assert a[0] in a && s[..1][0] == a[0];
      assert s[1..] == a[1..] + [c] + t;
      SplitAllAfterPiece(a[1..], t, c);
      assert [s[0]] + a[1..] == a;
    }
  }

  /** A string without the delimiter is a single piece. */
  lemma {:induction false} SplitAllWithoutDelimiter(a: string, c: char)
    requires c !in a
    ensures SplitAll(a, [c]) == [a]
    decreases |a|
  {
    if |a| >= 1 {
      assert a[0] in a && a[..1][0] == a[0];
      SplitAllWithoutDelimiter(a[1..], c);
      assert [a[0]] + a[1..] == a;
    }
  }

  /** Splitting what was joined with a one-character delimiter found in no piece gives the pieces back. */
  lemma {:induction false} SplitAllJoin(pieces: seq<string>, c: char)
    requires |pieces| >= 1
    requires forall i :: 0 <= i < |pieces| ==> c !in pieces[i]
    ensures SplitAll(Join(pieces, [c]), [c]) == pieces
    decreases |pieces|
  {
    if |pieces| == 1 {
      SplitAllWithoutDelimiter(pieces[0], c);
    } else {
      SplitAllJoin(pieces[1..], c);
      SplitAllAfterPiece(pieces[0], Join(pieces[1..], [c]), c);
      assert [pieces[0]] + pieces[1..] == pieces;
    }
  }

  /** A list of pieces without its trailing empty strings. */
  function DropTrailingEmpty(pieces: seq<string>): (r: seq<string>)
    ensures |r| <= |pieces| && r == pieces[..|r|]
    ensures forall i :: |r| <= i < |pieces| ==> pieces[i] == ""
    ensures r == [] || r[|r| - 1] != ""
    decreases |pieces|
  {
    if |pieces| > 0 && pieces[|pieces| - 1] == "" then DropTrailingEmpty(pieces[..|pieces| - 1])
    else pieces
  }

  /** One more trailing empty piece is dropped like the others. */
  lemma DropTrailingEmptyAppend(pieces: seq<string>)
    ensures DropTrailingEmpty(pieces + [""]) == DropTrailingEmpty(pieces)
  {
    assert (pieces + [""])[..|pieces|] == pieces;
  }

  /**
   * String.split(regex) with a regex that matches only the literal
   * delimiter `d`: the empty string gives one empty piece; the empty
   * delimiter gives the characters one by one; otherwise the pieces
   * between the delimiters with the trailing empty pieces dropped.
   */
  function Split(s: string, d: string): seq<string> {
    if |s| == 0 then [""]
    else if |d| == 0 then seq(|s|, i requires 0 <= i < |s| => [s[i]])
    else DropTrailingEmpty(SplitAll(s, d))
  }

  /**
   * String.replaceAll(pattern, replacement) where the pattern matches only
   * itself and the replacement is quoted: every non-overlapping occurrence,
   * found left to right, is replaced by the literal replacement text. The
   * empty pattern matches before every character and at the end.
   */
  function ReplaceAll(s: string, pattern: string, replacement: string): string
    decreases |s|
  {
    if |pattern| == 0 then
      if |s| == 0 then replacement
      else replacement + [s[0]] + ReplaceAll(s[1..], pattern, replacement)
    else if |s| < |pattern| then s
    else if s[..|pattern|] == pattern then
      replacement + ReplaceAll(s[|pattern|..], pattern, replacement)
    else [s[0]] + ReplaceAll(s[1..], pattern, replacement)
  }

  /** Replacing a non-empty pattern is splitting on it and joining with the replacement. */
  lemma {:induction false} ReplaceAllIsSplitJoin(s: string, pattern: string, replacement: string)
    requires |pattern| > 0
    ensures ReplaceAll(s, pattern, replacement) == Join(SplitAll(s, pattern), replacement)
    decreases |s|
  {
    if |s| < |pattern| {
    } else if s[..|pattern|] == pattern {
      ReplaceAllIsSplitJoin(s[|pattern|..], pattern, replacement);
    } else {
      ReplaceAllIsSplitJoin(s[1..], pattern, replacement);
      JoinPrependToHead(s[0], SplitAll(s[1..], pattern), replacement);
    }
  }

  /** Text before which no occurrence of the pattern can start is copied unchanged. */
  lemma {:induction false} ReplaceAllSkip(a: string, b: string, pattern: string, replacement: string)
    requires |pattern| > 0 && pattern[0] !in a
    ensures ReplaceAll(a + b, pattern, replacement) == a + ReplaceAll(b, pattern, replacement)
    decreases |a|
  {
    if |a| > 0 {
      var s := a + b;
      assert s[0] == a[0] && s[1..] == a[1..] + b;
      if |s| < |pattern| {
        ReplaceAllShort(b, pattern, replacement);
      } else {
        assert s[..|pattern|][0] == a[0] != pattern[0];
        ReplaceAllSkip(a[1..], b, pattern, replacement);
      }
    } else {
      assert a + b == b;
    }
  }

  /** Text shorter than the pattern is left as it is. */
  lemma ReplaceAllShort(s: string, pattern: string, replacement: string)
    requires 0 < |pattern| && |s| < |pattern|
    ensures ReplaceAll(s, pattern, replacement) == s
  {
  }

  /** An occurrence of the pattern at the start is replaced, and the search goes on after it. */
  lemma ReplaceAllAtStart(b: string, pattern: string, replacement: string)
    requires |pattern| > 0
    ensures ReplaceAll(pattern + b, pattern, replacement) == replacement + ReplaceAll(b, pattern, replacement)
  {
    var s := pattern + b;
    assert s[..|pattern|] == pattern && s[|pattern|..] == b;
  }

  /** Text without the pattern's first character holds no occurrence and is unchanged. */
  lemma ReplaceAllAbsent(s: string, pattern: string, replacement: string)
    requires |pattern| > 0 && pattern[0] !in s
    ensures ReplaceAll(s, pattern, replacement) == s
  {
    ReplaceAllSkip(s, "", pattern, replacement);
    assert s + "" == s;
  }

  /** Replacing a one-character pattern by one character maps each character on its own. */
  lemma {:induction false} ReplaceAllChar(s: string, c: char, d: char)
    ensures |ReplaceAll(s, [c], [d])| == |s|
    ensures forall i :: 0 <= i < |s| ==> ReplaceAll(s, [c], [d])[i] == if s[i] == c then d else s[i]
    decreases |s|
  {
    if |s| > 0 {
      ReplaceAllChar(s[1..], c, d);
      assert s[..1] == [s[0]];
    }
  }

  // ---------------------------------------------------------------------
  // lastIndexOf
  // ---------------------------------------------------------------------

  /** String.lastIndexOf(c): the greatest index holding `c`, or -1. */
  function LastIndexOf(s: string, c: char): (r: int)
    ensures -1 <= r < |s|
    ensures r == -1 <==> c !in s
    ensures r >= 0 ==> s[r] == c && forall k :: r < k < |s| ==> s[k] != c
    decreases |s|
  {
    if |s| == 0 then -1
    else if s[|s| - 1] == c then |s| - 1
    else
      assert s == s[..|s| - 1] + [s[|s| - 1]];
      LastIndexOf(s[..|s| - 1], c)
  }

  /** Join of empty pieces is made of separators only. */
  lemma {:induction false} JoinOfEmptyPieces(pieces: seq<string>, c: char)
    requires forall i :: 0 <= i < |pieces| ==> pieces[i] == ""
    ensures forall j :: 0 <= j < |Join(pieces, [c])| ==> Join(pieces, [c])[j] == c
    decreases |pieces|
  {
    if |pieces| > 1 {
      JoinOfEmptyPieces(pieces[1..], c);
    }
  }

  /** A string made of the delimiter only splits into empty pieces. */
  lemma {:induction false} SplitAllOfDelimiters(s: string, c: char)
    requires forall i :: 0 <= i < |s| ==> s[i] == c
    ensures forall i :: 0 <= i < |SplitAll(s, [c])| ==> SplitAll(s, [c])[i] == ""
    decreases |s|
  {
    if |s| > 0 {
      assert s[..1] == [c];
      SplitAllOfDelimiters(s[1..], c);
    }
  }

  /** Split with a one-character delimiter gives no pieces exactly for a non-empty run of the delimiter. */
  lemma SplitEmptyIffOnlyDelimiter(s: string, c: char)
    ensures Split(s, [c]) == [] <==> s != "" && forall i :: 0 <= i < |s| ==> s[i] == c
  {
    if s != "" {
      var pieces := SplitAll(s, [c]);
      if Split(s, [c]) == [] {
        JoinOfEmptyPieces(pieces, c);
      }
      if forall i :: 0 <= i < |s| ==> s[i] == c {
        SplitAllOfDelimiters(s, c);
      }
    }
  }
}
