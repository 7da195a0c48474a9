/** The one function of Go's `path/filepath` package the catalog builder
    uses, on a Unix system where `/` is the only path separator. */
module FilePath {
  import opened Strings

  /** filepath.Ext: the suffix of `path` from the last `.` of its final
      element, or the empty string when that element has no `.`.
      The result is a suffix of `path`; when it is not empty it starts with
      `.` and holds no other `.` and no `/`; when it is empty, no `.` follows
      the last `/`. */
  function Ext(path: seq<byte>): (r: seq<byte>)
    ensures |r| <= |path| && r == path[|path| - |r|..]
    ensures r != [] ==> r[0] == DOT && SLASH !in r && DOT !in r[1..]
    ensures r == [] ==> forall i :: 0 <= i < |path| && SLASH !in path[i..] ==> path[i] != DOT
  {
    if path == [] || path[|path| - 1] == SLASH then []
    else if path[|path| - 1] == DOT then [DOT]
    else
      var e := Ext(path[..|path| - 1]);
      if e == [] then [] else e + [path[|path| - 1]]
  }

  /** What Ext can return when not empty: `.` followed by bytes that are
      neither `.` nor `/`. */
  predicate IsExtension(x: seq<byte>)
  {
    x != [] && x[0] == DOT && SLASH !in x && DOT !in x[1..]
  }

  /** A name that ends in an extension `x` has extension exactly `x`,
      whatever comes before. */
  lemma ExtOfSuffix(stem: seq<byte>, x: seq<byte>)
    requires IsExtension(x)
    ensures Ext(stem + x) == x
  {
    var p := stem + x;
    var r := Ext(p);
    assert x == p[|stem|..];
    assert forall j :: 0 < j < |x| ==> x[j] != DOT by {
      forall j | 0 < j < |x| ensures x[j] != DOT { assert x[j] == x[1..][j - 1]; }
    }
    assert forall j :: 0 < j < |r| ==> r[j] != DOT by {
      forall j | 0 < j < |r| ensures r[j] != DOT { assert r[j] == r[1..][j - 1]; }
    }
    assert r != [] by {
      assert p[|stem|] == DOT && SLASH !in p[|stem|..];
    }
    assert |r| == |x|;
  }
}
