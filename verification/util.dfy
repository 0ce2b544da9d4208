/** Source-path shortening used when a call site is rendered (util.go).
    GOROOT and GOPATH come from the build environment; here they are a
    parameter. The path separator is '/'. */
module Util {
  import opened Text

  /** The two source roots Go's build package reports. */
  datatype BuildEnv = BuildEnv(goroot: string, gopath: string)

  /** trimSrcPath: strips "<GOROOT>/src/", or failing that "<GOPATH>/src/". */
  function TrimSrcPath(s: string, env: BuildEnv): (r: string)
    ensures IsSuffix(r, s)
    ensures IsPrefix(env.goroot + "/src/", s) ==> env.goroot + "/src/" + r == s
    ensures !IsPrefix(env.goroot + "/src/", s) && IsPrefix(env.gopath + "/src/", s) ==>
              env.gopath + "/src/" + r == s
    ensures !IsPrefix(env.goroot + "/src/", s) && !IsPrefix(env.gopath + "/src/", s) ==> r == s
  {
    var r1 := TrimPrefix(s, env.goroot + "/src/");
    if r1 != s then r1
    else
      var r2 := TrimPrefix(s, env.gopath + "/src/");
      if r2 != s then r2 else s
  }

  /** No separator at an index of `s` in [lo, hi]. */
  predicate NoSeparatorIn(s: string, lo: int, hi: int) {
    forall j :: lo <= j <= hi && 0 <= j < |s| ==> s[j] != '/'
  }

  /** `r` is the text of `s` after a separator at an index in [1, i], and no
      separator follows it up to index `i`. */
  predicate CutAfterLastSeparator(s: string, r: string, i: int) {
    && |r| < |s|
    && 1 <= |s| - |r| - 1 <= i
    && s[|s| - |r| - 1] == '/'
    && r == s[|s| - |r|..]
    && NoSeparatorIn(s, |s| - |r|, i)
  }

  /** The loop of trimDirs, scanning down from index `i`: the text after the
      highest separator at an index in [1, i], or `s` when there is none. */
  function TrimDirsFrom(s: string, i: int): (r: string)
    requires i < |s|
    ensures NoSeparatorIn(s, 1, i) ==> r == s
    ensures !NoSeparatorIn(s, 1, i) ==> CutAfterLastSeparator(s, r, i)
    decreases i
  {
    if i <= 0 then s
    else if s[i] == '/' then s[i + 1..]
    else TrimDirsFrom(s, i - 1)
  }

  /** trimDirs: the text after the last separator, ignoring a separator at index 0. */
  function TrimDirs(s: string): (r: string)
    ensures IsSuffix(r, s)
    ensures (forall j :: 1 <= j < |s| ==> s[j] != '/') ==> r == s
    ensures r != s ==> '/' !in r
    ensures r != s ==> |r| < |s| && s[|s| - |r| - 1] == '/' && |s| - |r| - 1 >= 1
    ensures !NoSeparatorIn(s, 1, |s| - 1) ==> CutAfterLastSeparator(s, r, |s| - 1)
  {
    TrimDirsShape(s);
    TrimDirsFrom(s, |s| - 1)
  }

  lemma TrimDirsShape(s: string)
    ensures var r := TrimDirsFrom(s, |s| - 1);
      && IsSuffix(r, s)
      && ((forall j :: 1 <= j < |s| ==> s[j] != '/') ==> r == s)
      && (r != s ==> '/' !in r)
      && (r != s ==> |r| < |s| && s[|s| - |r| - 1] == '/' && |s| - |r| - 1 >= 1)
  {
    var r := TrimDirsFrom(s, |s| - 1);
    if NoSeparatorIn(s, 1, |s| - 1) {
      assert s[|s| - |r|..] == r;
    } else {
      assert CutAfterLastSeparator(s, r, |s| - 1);
      assert forall j :: 0 <= j < |r| ==> r[j] == s[|s| - |r| + j];
    }
  }

  /** Trimming directories twice is trimming them once. */
  lemma TrimDirsIdempotent(s: string)
    ensures TrimDirs(TrimDirs(s)) == TrimDirs(s)
  {
    var r := TrimDirs(s);
    if r != s {
      assert forall j :: 1 <= j < |r| ==> r[j] != '/';
    }
  }

  /** A leading separator alone is kept: "/foo" stays "/foo". */
  lemma TrimDirsKeepsRootSeparator()
    ensures TrimDirs("/foo") == "/foo"
    ensures TrimDirs("a/b/c.go") == "c.go"
  {
    assert "a/b/c.go"[3] == '/';
  }

  /** The GOROOT root wins over the GOPATH root when both match. */
  lemma TrimSrcPathPrefersGoroot(s: string, env: BuildEnv)
    requires IsPrefix(env.goroot + "/src/", s) && IsPrefix(env.gopath + "/src/", s)
    requires |env.goroot| != |env.gopath|
    ensures TrimSrcPath(s, env) == s[|env.goroot| + 5..]
    ensures TrimSrcPath(s, env) != s[|env.gopath| + 5..]
  {
    var r := TrimSrcPath(s, env);
    assert env.goroot + "/src/" + r == s;
    assert r == s[|env.goroot + "/src/"|..];
  }
}
