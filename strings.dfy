/** Strings: delimited lists and the longest length among strings. */
module Strings {
  import opened Wrappers
  import opened StringOps

  /**
   * Strings.asList(value, delimiter): no text, or only blanks, is the empty
   * list; any other value is split on the delimiter.
   */
  function AsListDelimited(value: Option<string>, delimiter: string): (r: seq<string>)
    ensures value.None? || IsBlank(value.value) ==> r == []
    ensures value.Some? && !IsBlank(value.value) ==> r == Split(value.value, delimiter)
  {
    match value
    case None => []
    case Some(v) =>
      TrimEmptyIffBlank(v);
      if Trim(v) != "" then Split(v, delimiter) else []
  }

  /** Strings.asList(value): the list delimited by commas. */
  function AsList(value: Option<string>): (r: seq<string>)
    ensures r == AsListDelimited(value, ",")
  {
    AsListDelimited(value, ",")
  }

  /** `n` empty pieces. */
  function Empties(n: nat): (r: seq<string>)
    ensures |r| == n && forall i :: 0 <= i < n ==> r[i] == ""
  {
    seq(n, _ => "")
  }

  /**
   * For a value that is not blank the list is the pieces between the
   * delimiters, in order: joined again after the trailing empty pieces it
   * dropped, it gives the value back; and its own last piece is not empty.
   */
  lemma AsListRejoins(value: string, delimiter: string)
    requires |delimiter| > 0 && !IsBlank(value)
    ensures var r := AsListDelimited(Some(value), delimiter);
            (r == [] || r[|r| - 1] != "") &&
            exists n: nat :: Join(r + Empties(n), delimiter) == value
  {
    var all := SplitAll(value, delimiter);
    var r := AsListDelimited(Some(value), delimiter);
    TrimEmptyIffBlank(value);
    assert value != "";
    var n := |all| - |r|;
    assert r + Empties(n) == all;
  }

  /** A list joined with a one-character delimiter it does not contain comes back from asList unchanged. */
  lemma AsListOfJoined(pieces: seq<string>, c: char)
    requires |pieces| >= 1 && pieces[|pieces| - 1] != ""
    requires forall i :: 0 <= i < |pieces| ==> c !in pieces[i]
    requires !IsBlank(Join(pieces, [c]))
    ensures AsListDelimited(Some(Join(pieces, [c])), [c]) == pieces
  {
    SplitAllJoin(pieces, c);
    assert Join(pieces, [c]) != "";
  }

  /** No item of a comma-separated list holds a comma. */
  lemma AsListItemsHoldNoComma(value: Option<string>)
    ensures forall i :: 0 <= i < |AsList(value)| ==> ',' !in AsList(value)[i]
  {
    if value.Some? {
      SplitAllPiecesExclude(value.value, ',');
    }
  }

  /** Strings.maxLength: the largest length among the strings, 0 for none. */
  method MaxLength(strings: array<string>) returns (length: int)
    ensures length >= 0
    ensures forall i :: 0 <= i < strings.Length ==> |strings[i]| <= length
    ensures strings.Length == 0 ==> length == 0
    ensures strings.Length > 0 ==> exists i :: 0 <= i < strings.Length && |strings[i]| == length
  {
    length := 0;
    var n := 0;
    while n < strings.Length
      invariant 0 <= n <= strings.Length
      invariant length >= 0
      invariant forall i :: 0 <= i < n ==> |strings[i]| <= length
      invariant n > 0 ==> exists i :: 0 <= i < n && |strings[i]| == length
      invariant n == 0 ==> length == 0
    {
      var current := |strings[n]|;
      if current > length {
        length := current;
      }
      n := n + 1;
    }
  }
}
