/** FileNames: a file name taken apart at its last dot. */
module FileNames {
  import StringOps

  /** FileNames.Split: the part of a name before its last dot, and the rest. */
  datatype Split = Split(prefix: string, suffix: string) {

    /** Split.apply(String): cut the name at its last '.', the dot going to the suffix. */
    static function Apply(fileName: string): (r: Split)
      ensures r.prefix + r.suffix == fileName
      ensures '.' !in fileName ==> r == Split(fileName, "")
      ensures '.' in fileName ==> |r.suffix| > 0 && r.suffix[0] == '.' && '.' !in r.suffix[1..]
    {
      var offset := StringOps.LastIndexOf(fileName, '.');
      if -1 < offset then
        assert forall k :: 0 <= k < |fileName[offset..]| - 1 ==> fileName[offset..][1..][k] == fileName[offset + 1 + k];
        Split(fileName[..offset], fileName[offset..])
      else
        Split(fileName, "")
    }
  }

  /** The suffix is the extension: what follows the last dot, dot included. */
  lemma SuffixIsLastDotOnward(fileName: string, i: int)
    requires 0 <= i < |fileName| && fileName[i] == '.'
    requires forall k :: i < k < |fileName| ==> fileName[k] != '.'
    ensures Split.Apply(fileName) == Split(fileName[..i], fileName[i..])
  {
    var r := Split.Apply(fileName);
    assert fileName[i] in fileName;
    var j := |r.prefix|;
    assert fileName[j..] == r.suffix;
  }

  /** A name whose only dot is its first character has an empty prefix and is all suffix. */
  lemma HiddenFileName(fileName: string)
    requires |fileName| > 0 && fileName[0] == '.' && '.' !in fileName[1..]
    ensures Split.Apply(fileName) == Split("", fileName)
  {
    assert forall k :: 0 < k < |fileName| ==> fileName[k] == fileName[1..][k - 1];
    SuffixIsLastDotOnward(fileName, 0);
  }

  /** The prefix keeps every dot but the last. */
  lemma PrefixKeepsEarlierDots(fileName: string)
    ensures var r := Split.Apply(fileName);
            r.prefix == fileName[..|r.prefix|] && (r.suffix == "" <==> '.' !in fileName)
  {
    var r := Split.Apply(fileName);
    assert fileName == r.prefix + r.suffix;
    assert fileName[..|r.prefix|] == r.prefix;
  }

  /** A conventional name: "archive.tar.gz" keeps ".gz" as its extension. */
  lemma DoubleExtension()
    ensures Split.Apply("archive.tar.gz") == Split("archive.tar", ".gz")
  {
    var name := "archive.tar.gz";
    SuffixIsLastDotOnward(name, 11);
    assert name[..11] == "archive.tar" && name[11..] == ".gz";
  }
}
