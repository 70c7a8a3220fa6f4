/**
 * Manifests: the text of a JAR manifest handled as a list of lines. A
 * manifest is applied by splitting it into lines, passing the lines through
 * a transformation (the identity unless an implementation supplies its
 * own) and joining them again with a newline before the end.
 */
module Manifests {
  import opened StringOps

  /** Manifests.MANIFEST_VERSION. */
  const MANIFEST_VERSION: string := "Manifest-Version"

  /** Manifests.SIGNATURE_VERSION. */
  const SIGNATURE_VERSION: string := "Signature-Version"

  /**
   * Manifests.split: the lines of the content. No line holds a newline;
   * trailing empty lines are dropped, except that empty content is one empty line.
   */
  function SplitLines(content: string): (r: seq<string>)
    ensures forall i :: 0 <= i < |r| ==> '\n' !in r[i]
    ensures content == "" ==> r == [""]
    ensures content != "" ==> r == [] || r[|r| - 1] != ""
  {
    SplitAllPiecesExclude(content, '\n');
    Split(content, "\n")
  }

  /** Manifests.rejoin: the lines joined with newlines, with a newline before the end. */
  function Rejoin(lines: seq<string>): (r: string)
    ensures |r| > 0 && r[|r| - 1] == '\n'
    ensures |lines| == 0 ==> r == "\n"
  {
    Join(lines, "\n") + "\n"
  }

  /** Manifests.apply(List): the default transformation hands the lines back unchanged. */
  function DefaultLines(lines: seq<string>): (r: seq<string>)
    ensures |r| == |lines| && forall i :: 0 <= i < |lines| ==> r[i] == lines[i]
  {
    lines
  }

  /** Manifests.apply(String) with a transformation of the lines. */
  function ApplyContent(content: string, transform: seq<string> -> seq<string>): (r: string)
    ensures |r| > 0 && r[|r| - 1] == '\n'
    ensures transform(SplitLines(content)) == [] ==> r == "\n"
  {
    Rejoin(transform(SplitLines(content)))
  }

  /** What applying gives: "\n", or text ending in a single newline after a character that is not one. */
  predicate EndsInOneNewline(s: string) {
    s == "\n" || (|s| >= 2 && s[|s| - 1] == '\n' && s[|s| - 2] != '\n')
  }

  /**
   * Manifests.apply(String) with the default transformation: the manifest
   * always ends in exactly one newline.
   */
  function Apply(content: string): (r: string)
    ensures EndsInOneNewline(r)
  {
    RejoinEndsInOneNewline(SplitLines(content));
    ApplyContent(content, DefaultLines)
  }

  /** Lines without newlines whose last line is not empty survive a rejoin and a split. */
  lemma RejoinSplitRoundTrip(lines: seq<string>)
    requires |lines| >= 1 && lines[|lines| - 1] != ""
    requires forall i :: 0 <= i < |lines| ==> '\n' !in lines[i]
    ensures SplitLines(Rejoin(lines)) == lines
  {
    var body := Join(lines, "\n");
    SplitAllJoin(lines, '\n');
    SplitAllTrailingDelimiter(body, '\n');
    DropTrailingEmptyAppend(lines);
  }

  /** The last character of joined pieces is the last character of the last piece. */
  lemma {:induction false} JoinLastChar(pieces: seq<string>, sep: string)
    requires |pieces| >= 1 && pieces[|pieces| - 1] != ""
    ensures |Join(pieces, sep)| > 0
    ensures Join(pieces, sep)[|Join(pieces, sep)| - 1] == pieces[|pieces| - 1][|pieces[|pieces| - 1]| - 1]
    decreases |pieces|
  {
    if |pieces| > 1 {
      JoinLastChar(pieces[1..], sep);
    }
  }

  /** Lines as split gives them, the empty line alone or a last line that is not empty, rejoin into text ending in one newline. */
  lemma RejoinEndsInOneNewline(lines: seq<string>)
    requires lines == [] || lines == [""] || lines[|lines| - 1] != ""
    requires forall i :: 0 <= i < |lines| ==> '\n' !in lines[i]
    ensures EndsInOneNewline(Rejoin(lines))
  {
    if lines != [] && lines != [""] {
      JoinLastChar(lines, "\n");
      var last := lines[|lines| - 1];
      assert last[|last| - 1] in last;
    }
  }

  /** Pieces ending in an empty piece join into text that ends with the separator. */
  lemma LastEmptyPieceEndsJoin(pieces: seq<string>, sep: string)
    requires |pieces| >= 2 && pieces[|pieces| - 1] == ""
    ensures |sep| <= |Join(pieces, sep)| && Join(pieces, sep)[|Join(pieces, sep)| - |sep|..] == sep
  {
    assert pieces == pieces[..|pieces| - 1] + [""];
    JoinAppend(pieces[..|pieces| - 1], "", sep);
  }

  /** Content that already ends in exactly one newline is left as it is. */
  lemma ApplyKeepsNormalContent(content: string)
    requires EndsInOneNewline(content)
    ensures Apply(content) == content
  {
    if content == "\n" {
      SplitAllTrailingDelimiter("", '\n');
      assert "" + ['\n'] == "\n";
    } else {
      var body := content[..|content| - 1];
      assert content == body + ['\n'];
      SplitAllTrailingDelimiter(body, '\n');
      var r := SplitAll(body, "\n");
      DropTrailingEmptyAppend(r);
      if |r| >= 2 && r[|r| - 1] == "" {
        LastEmptyPieceEndsJoin(r, "\n");
        assert false;
      }
      assert Apply(content) == Join(r, "\n") + "\n";
    }
  }

  /** The default apply leaves content unchanged exactly when it ends in a single newline. */
  lemma ApplyFixedPointIff(content: string)
    ensures Apply(content) == content <==> EndsInOneNewline(content)
  {
    if EndsInOneNewline(content) {
      ApplyKeepsNormalContent(content);
    }
  }

  /** Applying the default transformation twice is applying it once. */
  lemma ApplyIdempotent(content: string)
    ensures Apply(Apply(content)) == Apply(content)
  {
    ApplyKeepsNormalContent(Apply(content));
  }

  /** Manifests.isLineAttribute: the trimmed line starts with the name, ignoring case. */
  function IsLineAttribute(line: string, attributeName: string): (r: bool)
    ensures r ==> |attributeName| <= |Trim(line)|
    ensures attributeName == "" ==> r
  {
    StartsWith(ToLower(Trim(line)), ToLower(attributeName))
  }

  /** Manifests.isManifestVersion. */
  function IsManifestVersion(line: string): (r: bool)
    ensures r ==> |Trim(line)| >= 16 && LowerChar(Trim(line)[0]) == 'm'
  {
    IsLineAttribute(line, MANIFEST_VERSION)
  }

  /** Manifests.isSignatureVersion. */
  function IsSignatureVersion(line: string): (r: bool)
    ensures r ==> |Trim(line)| >= 17 && LowerChar(Trim(line)[0]) == 's'
  {
    IsLineAttribute(line, SIGNATURE_VERSION)
  }

  /** A line names an attribute when, character by character, its trimmed text begins with the name's letters in either case. */
  lemma LineAttributeByCharacters(line: string, attributeName: string)
    ensures IsLineAttribute(line, attributeName) <==>
      |attributeName| <= |Trim(line)| &&
      forall i :: 0 <= i < |attributeName| ==> LowerChar(Trim(line)[i]) == LowerChar(attributeName[i])
  {
    var t := ToLower(Trim(line));
    var n := ToLower(attributeName);
    if |n| <= |t| && forall i :: 0 <= i < |n| ==> t[i] == n[i] {
      assert t[..|n|] == n;
    }
  }

  /** Blanks in front of a line do not change which attribute it names. */
  lemma LineAttributeIgnoresIndent(pad: string, line: string, attributeName: string)
    requires IsBlank(pad)
    ensures IsLineAttribute(pad + line, attributeName) <==> IsLineAttribute(line, attributeName)
  {
    TrimStartSkipsBlank(pad, line);
  }

  /** No line is both a manifest-version line and a signature-version line. */
  lemma NotBothVersions(line: string)
    ensures !(IsManifestVersion(line) && IsSignatureVersion(line))
  {
    assert ToLower(MANIFEST_VERSION)[0] == 'm' && ToLower(SIGNATURE_VERSION)[0] == 's';
  }

  /**
   * A line made of the attribute name, in its own case or in lower case,
   * and a value ending in a visible character names that attribute.
   */
  lemma LineAttributeOfName(name: string, rest: string)
    requires name != "" && !IsTrimmable(name[0])
    requires rest != "" && !IsTrimmable(rest[|rest| - 1])
    ensures IsLineAttribute(name + rest, name)
    ensures IsLineAttribute(ToLower(name) + rest, name)
  {
    var lower := ToLower(name);
    ToLowerIdempotent(name);
    assert ToLower(name + rest)[..|name|] == lower;
    assert ToLower(lower + rest)[..|name|] == ToLower(lower);
  }

  /** The manifest-version line as written in a manifest. */
  lemma ManifestVersionLine()
    ensures IsManifestVersion("Manifest-Version: 1.0")
  {
    LineAttributeOfName(MANIFEST_VERSION, ": 1.0");
  }

  /** The manifest-version attribute name in lower case. */
  lemma ManifestVersionLowerCase()
    ensures ToLower(MANIFEST_VERSION) == "manifest-version"
  {
    var r := ToLower(MANIFEST_VERSION);
    assert r[0] == 'm' && r[9] == 'v';
    assert forall i :: 0 <= i < 16 && i != 0 && i != 9 ==> r[i] == MANIFEST_VERSION[i];
  }

  /** A lower-case manifest-version line, however far it is indented. */
  lemma IndentedLowerCaseVersionLine(pad: string)
    requires IsBlank(pad)
    ensures IsManifestVersion(pad + "manifest-version: 1.0")
  {
    ManifestVersionLowerCase();
    var line := "manifest-version: 1.0";
    assert line == ToLower(MANIFEST_VERSION) + ": 1.0";
    LineAttributeOfName(MANIFEST_VERSION, ": 1.0");
    LineAttributeIgnoresIndent(pad, line, MANIFEST_VERSION);
  }

  /** Manifests.hasAttribute(lines, name): some line names the attribute. */
  function HasAttribute(lines: seq<string>, attributeName: string): (r: bool)
    ensures r <==> exists i :: 0 <= i < |lines| && IsLineAttribute(lines[i], attributeName)
    decreases |lines|
  {
    if |lines| == 0 then false
    else IsLineAttribute(lines[0], attributeName) || HasAttribute(lines[1..], attributeName)
  }
}
