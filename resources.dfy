/** Resources: class-path resource paths for Java packages. */
module Resources {
  import opened StringOps

  /**
   * Resources.getResourcePathForPackage: every '.' of the package name
   * becomes '/'; nothing else changes and no slash is added in front.
   */
  function GetResourcePathForPackage(packageName: string): (r: string)
    ensures |r| == |packageName|
    ensures forall i :: 0 <= i < |r| ==> r[i] == if packageName[i] == '.' then '/' else packageName[i]
    ensures '.' !in r
  {
    ReplaceAllChar(packageName, '.', '/');
    ReplaceAll(packageName, ".", "/")
  }

  /** Resources.getPackagePath(String): the resource path of the package. */
  function GetPackagePath(packageName: string): (r: string)
    ensures r == GetResourcePathForPackage(packageName)
  {
    GetResourcePathForPackage(packageName)
  }

  /** A resource path has no dot left to replace: converting it again changes nothing. */
  lemma ResourcePathIdempotent(packageName: string)
    ensures GetResourcePathForPackage(GetResourcePathForPackage(packageName)) == GetResourcePathForPackage(packageName)
  {
    var r := GetResourcePathForPackage(packageName);
    var rr := GetResourcePathForPackage(r);
    assert forall i :: 0 <= i < |r| ==> r[i] != '.';
    assert forall i :: 0 <= i < |r| ==> rr[i] == r[i];
  }

  /** Converting is a join of the dot-separated names with '/'. */
  lemma ResourcePathJoinsNames(packageName: string)
    ensures GetResourcePathForPackage(packageName) == Join(SplitAll(packageName, "."), "/")
  {
    ReplaceAllIsSplitJoin(packageName, ".", "/");
  }

  /** Package names without a slash are told apart by their resource paths. */
  lemma ResourcePathInjective(a: string, b: string)
    requires '/' !in a && '/' !in b
    requires GetResourcePathForPackage(a) == GetResourcePathForPackage(b)
    ensures a == b
  {
    var ra := GetResourcePathForPackage(a);
    assert forall i :: 0 <= i < |a| ==> a[i] == b[i] by {
      forall i | 0 <= i < |a|
        ensures a[i] == b[i]
      {
        assert a[i] in a && b[i] in b;
        assert ra[i] == if a[i] == '.' then '/' else a[i];
      }
    }
  }

  /** The package of this library: "com.brambolt.util" lives under "com/brambolt/util". */
  lemma LibraryPackagePath(name: string)
    requires name == "com.brambolt.util"
    ensures GetPackagePath(name) == "com/brambolt/util"
  {
    var r := GetPackagePath(name);
    assert r[3] == '/' && r[12] == '/';
    assert forall i :: 0 <= i < 17 && i != 3 && i != 12 ==> r[i] == name[i];
  }
}
