/**
 * The two functions of Node's POSIX `path` module that the server uses on
 * upload names: `path.basename(p)`, `path.basename(p, ext)` and `path.extname(p)`.
 */
module NodePath {
  import opened JsText

  /** path.basename(p): the text after the last '/'. */
  function BaseName(p: string): (b: string)
    ensures '/' !in b
    ensures |b| <= |p| && b == p[|p| - |b|..]
    ensures |b| < |p| ==> p[|p| - |b| - 1] == '/'
  {
    LastPart(p, '/')
  }

  /**
   * path.extname(p): from the last '.' of the base name to its end; empty when
   * the base name has no '.', when its last dot is its first character, or
   * when the base name is "..".
   */
  function ExtName(p: string): string
  {
    ExtOfBase(BaseName(p))
  }

  /** The extension of a base name (text without '/'). */
  function ExtOfBase(b: string): (e: string)
    ensures e == [] || (e[0] == '.' && '.' !in e[1..] && |e| < |b|)
    ensures |e| <= |b| && e == b[|b| - |e|..]
  {
    var d := LastIndexOf(b, '.');
    if d <= 0 || b == ".." then "" else
      var e := b[d..];
      assert e[0] == b[d] && e[1..] == b[d + 1..];
      e
  }

  /** path.basename(p, path.extname(p)): the base name with its extension removed. */
  function StemName(p: string): (r: string)
    ensures r + ExtName(p) == BaseName(p)
    ensures ExtName(p) != [] ==> r != []
  {
    var b := BaseName(p);
    var e := ExtOfBase(b);
    var r := b[..|b| - |e|];
    assert r + e == b;
    r
  }

  /**
   * The extension of "dir/stem.ext" is ".ext" whenever the stem's base name is
   * not empty (a leading dot does not start an extension).
   */
  lemma ExtNameOf(stem: string, ext: string)
    requires '/' !in ext && '.' !in ext && ext != []
    requires stem != [] && stem[|stem| - 1] != '/'
    ensures ExtName(stem + "." + ext) == "." + ext
    ensures StemName(stem + "." + ext) == BaseName(stem)
  {
    var p := stem + "." + ext;
    var bs := BaseName(stem);
    BaseNameDotted(stem, ext);
    ExtOfBaseOf(bs, ext);
    StemOf(p, bs, "." + ext);
  }

  /** The stem is what precedes the extension in the base name. */
  lemma StemOf(p: string, bs: string, e: string)
    requires BaseName(p) == bs + e && ExtName(p) == e
    ensures StemName(p) == bs
  {
    CancelSuffix(StemName(p), bs, e);
  }

  /** The base name of "dir/stem.ext" is the base name of "dir/stem" with ".ext", and is not empty. */
  lemma BaseNameDotted(stem: string, ext: string)
    requires '/' !in ext && ext != []
    requires stem != [] && stem[|stem| - 1] != '/'
    ensures BaseName(stem) != []
    ensures BaseName(stem + "." + ext) == BaseName(stem) + "." + ext
  {
    var tail := "." + ext;
    assert stem + "." + ext == stem + tail;
    BaseNameAppend(stem, tail);
    var bs := BaseName(stem);
    assert bs != [] by {
      assert |bs| < |stem| ==> stem[|stem| - |bs| - 1] == '/';
    }
    assert bs + tail == bs + "." + ext;
  }

  lemma CancelSuffix(a: string, b: string, t: string)
    requires a + t == b + t
    ensures a == b
  {
    assert a == (a + t)[..|a|];
    assert b == (b + t)[..|b|];
  }

  lemma ExtOfBaseOf(bs: string, ext: string)
    requires '.' !in ext && ext != [] && bs != []
    ensures ExtOfBase(bs + "." + ext) == "." + ext
  {
    var b := bs + "." + ext;
    assert b[|bs|] == '.';
    LastIndexOfAtLeast(b, '.', |bs|);
    var d := LastIndexOf(b, '.');
    assert d == |bs| by {
      assert b[|bs| + 1..] == ext;
    }
    assert b[d..] == "." + ext;
  }

  lemma {:induction false} LastIndexOfAtLeast(s: string, c: char, k: nat)
    requires k < |s| && s[k] == c
    ensures LastIndexOf(s, c) >= k
    decreases |s|
  {
    if s[|s| - 1] != c {
      LastIndexOfAtLeast(s[..|s| - 1], c, k);
    }
  }

  /** Appending text with no '/' extends the base name. */
  lemma BaseNameAppend(p: string, tail: string)
    requires '/' !in tail
    ensures BaseName(p + tail) == BaseName(p) + tail
  {
    JoinSplit(p, '/');
    var parts := Split(p, '/');
    var n := |parts|;
    var q := parts[..n - 1] + [parts[n - 1] + tail];
    forall i | 0 <= i < |q| ensures '/' !in q[i] {
      if i < n - 1 { assert q[i] == parts[i]; }
    }
    JoinAppendLast(parts, tail, '/');
    SplitJoin(q, '/');
  }

  lemma {:induction false} JoinAppendLast(parts: seq<string>, tail: string, sep: char)
    requires |parts| >= 1
    ensures Join(parts[..|parts| - 1] + [parts[|parts| - 1] + tail], sep) == Join(parts, sep) + tail
    decreases |parts|
  {
    var n := |parts|;
    var q := parts[..n - 1] + [parts[n - 1] + tail];
    if n > 1 {
      JoinAppendLast(parts[1..], tail, sep);
      assert q[1..] == parts[1..][..n - 2] + [parts[1..][n - 2] + tail];
    }
  }
}
