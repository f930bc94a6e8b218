/**
 * Paths as Rust's std::path sees them once parsed: a sequence of components.
 *
 * A request string is parsed by Path::new into components; empty pieces
 * (repeated or trailing '/') and "." pieces do not name anything, so they are
 * dropped, while ".." is kept as a segment of its own. Joining two paths is
 * concatenation of their segments.
 */
module Paths {
  import opened Wrappers

  type Segment = string
  type Path = seq<Segment>

  /** Splits a string at every '/', keeping the empty pieces. */
  function SplitSlash(s: string): (r: seq<string>)
    ensures |r| >= 1
    ensures forall i :: 0 <= i < |r| ==> '/' !in r[i]
  {
    if |s| == 0 then [""]
    else
      var rest := SplitSlash(s[1..]);
      if s[0] == '/' then [""] + rest
      else [[s[0]] + rest[0]] + rest[1..]
  }

  /** Puts pieces back together with '/' between them. */
  function JoinSlash(parts: seq<string>): string
    requires |parts| >= 1
  {
    if |parts| == 1 then parts[0] else parts[0] + "/" + JoinSlash(parts[1..])
  }

  /** Splitting at '/' loses nothing: the pieces joined by '/' are the string again. */
  lemma {:induction false} JoinSplit(s: string)
    ensures JoinSlash(SplitSlash(s)) == s
  {
    if |s| > 0 {
      var rest := SplitSlash(s[1..]);
      JoinSplit(s[1..]);
      if s[0] == '/' {
        assert SplitSlash(s) == [""] + rest;
        assert ([""] + rest)[1..] == rest;
        assert s == [s[0]] + s[1..];
      } else {
        var r := SplitSlash(s);
        assert r == [[s[0]] + rest[0]] + rest[1..];
        if |rest| == 1 {
          assert s == [s[0]] + rest[0];
        } else {
          assert r[1..] == rest[1..];
          assert JoinSlash(rest) == rest[0] + "/" + JoinSlash(rest[1..]);
          assert s == [s[0]] + s[1..];
        }
      }
    }
  }

  /** A piece that names a component: not empty, not the current directory. */
  predicate Names(piece: string) {
    piece != "" && piece != "."
  }

  /** The pieces that name a component, in order. */
  function KeepNames(parts: seq<string>): (r: seq<string>)
    ensures forall x :: x in r <==> x in parts && Names(x)
  {
    if |parts| == 0 then []
    else if Names(parts[0]) then [parts[0]] + KeepNames(parts[1..])
    else KeepNames(parts[1..])
  }

  /** A single piece is kept exactly when it names a component. */
  lemma KeepNamesSingle(x: string)
    ensures KeepNames([x]) == if Names(x) then [x] else []
  {
    assert [x][1..] == [];
  }

  /**
   * Filtering distributes over concatenation; with KeepNamesSingle this
   * makes KeepNames the order-preserving filter of the pieces that name
   * something, each kept as often as it occurs.
   */
  lemma {:induction false} KeepNamesAppend(a: seq<string>, b: seq<string>)
    ensures KeepNames(a + b) == KeepNames(a) + KeepNames(b)
  {
    if |a| > 0 {
      assert (a + b)[0] == a[0];
      assert (a + b)[1..] == a[1..] + b;
      KeepNamesAppend(a[1..], b);
    } else {
      assert a + b == b;
    }
  }

  /** Path::new(s), seen through its components. */
  function Components(s: string): (r: Path)
    ensures forall i :: 0 <= i < |r| ==> Names(r[i]) && '/' !in r[i]
    ensures forall x :: x in r <==> x in SplitSlash(s) && Names(x)
  {
    KeepNames(SplitSlash(s))
  }

  /** A string with no '/' that names a component parses to that single component. */
  lemma {:induction false} ComponentsOfName(s: string)
    requires '/' !in s && Names(s)
    ensures Components(s) == [s]
  {
    SplitNoSlash(s);
    assert KeepNames([s]) == [s] + KeepNames([s][1..]);
    assert [s][1..] == [];
  }

  lemma {:induction false} SplitNoSlash(s: string)
    requires '/' !in s
    ensures SplitSlash(s) == [s]
  {
    if |s| > 0 {
      SplitNoSlash(s[1..]);
      assert s == [s[0]] + s[1..];
    }
  }

  /** The piece before the first '/' is split off whole. */
  lemma {:induction false} SplitAfterPiece(a: string, b: string)
    requires '/' !in a
    ensures SplitSlash(a + "/" + b) == [a] + SplitSlash(b)
  {
    var s := a + "/" + b;
    if a == [] {
      assert s[1..] == b;
    } else {
      assert s[1..] == a[1..] + "/" + b;
      SplitAfterPiece(a[1..], b);
      assert a == [a[0]] + a[1..];
    }
  }

  /** "a/b" parses to the components a and b. */
  lemma ComponentsOfTwoNames(a: string, b: string)
    requires '/' !in a && Names(a) && '/' !in b && Names(b)
    ensures Components(a + "/" + b) == [a, b]
  {
    SplitAfterPiece(a, b);
    SplitNoSlash(b);
    assert SplitSlash(a + "/" + b) == [a, b];
    assert KeepNames([a, b]) == [a] + KeepNames([b]);
    assert KeepNames([b]) == [b] + KeepNames([]);
  }

  /** Path::file_name: the last component, unless there is none or it is "..". */
  function FileName(p: Path): (r: Option<string>)
    ensures r.None? <==> |p| == 0 || p[|p| - 1] == "" || p[|p| - 1] == "." || p[|p| - 1] == ".."
    ensures r.Some? ==> r.value == p[|p| - 1]
  {
    if |p| == 0 || !Names(p[|p| - 1]) || p[|p| - 1] == ".." then None
    else Some(p[|p| - 1])
  }

  /** The index of the last '.' in s, if any. */
  function LastDot(s: string): (r: Option<nat>)
    ensures r.Some? ==> r.value < |s| && s[r.value] == '.'
    ensures r.Some? ==> forall j :: r.value < j < |s| ==> s[j] != '.'
    ensures r.None? ==> forall j :: 0 <= j < |s| ==> s[j] != '.'
  {
    if |s| == 0 then None
    else if s[|s| - 1] == '.' then Some(|s| - 1)
    else LastDot(s[..|s| - 1])
  }

  /**
   * Path::extension: what follows the last '.' of the file name, unless that
   * '.' is the file name's first character (".profile" has no extension).
   */
  function Extension(p: Path): (r: Option<string>)
    ensures r.Some? ==> FileName(p).Some?
    ensures r.Some? ==>
      var n := FileName(p).value;
      '.' !in r.value && |r.value| + 1 < |n| &&
      n[|n| - |r.value| - 1] == '.' && r.value == n[|n| - |r.value|..]
    ensures r.None? && FileName(p).Some? ==>
      var n := FileName(p).value;
      forall k :: 0 < k < |n| ==> n[k] != '.'
  {
    match FileName(p)
    case None => None
    case Some(n) =>
      match LastDot(n)
      case None => None
      case Some(i) => if i == 0 then None else Some(n[i + 1..])
  }

  /** Path::file_stem: the file name without its extension. */
  function FileStem(p: Path): (r: Option<string>)
    ensures r.Some? <==> FileName(p).Some?
    ensures r.Some? ==> r.value != [] && r.value <= FileName(p).value
    ensures Extension(p).None? && FileName(p).Some? ==> r == FileName(p)
    ensures Extension(p).Some? ==> FileName(p).value == r.value + "." + Extension(p).value
  {
    match FileName(p)
    case None => None
    case Some(n) =>
      match LastDot(n)
      case None => Some(n)
      case Some(i) =>
        if i == 0 then Some(n)
        else
          assert n == n[..i] + "." + n[i + 1..];
          Some(n[..i])
  }

  /**
   * Path::with_extension: the same path with the file name cut after its stem
   * and ".ext" appended (nothing appended for an empty ext); a path with no
   * file name is returned unchanged.
   */
  function WithExtension(p: Path, ext: string): (r: Path)
    ensures FileName(p).None? ==> r == p
    ensures FileName(p).Some? ==> |r| == |p| && r[..|r| - 1] == p[..|p| - 1]
    ensures FileName(p).Some? && ext == "" ==> r[|r| - 1] == FileStem(p).value
  {
    match FileStem(p)
    case None => p
    case Some(stem) => p[..|p| - 1] + [stem + (if ext == "" then "" else "." + ext)]
  }

  /** Setting a dot-free, non-empty extension makes it the path's extension and keeps the stem. */
  lemma {:induction false} WithExtensionSets(p: Path, ext: string)
    requires FileName(p).Some? && ext != "" && '.' !in ext
    ensures Extension(WithExtension(p, ext)) == Some(ext)
    ensures FileStem(WithExtension(p, ext)) == FileStem(p)
    ensures |WithExtension(p, ext)| == |p| && WithExtension(p, ext)[..|p| - 1] == p[..|p| - 1]
  {
    var stem := FileStem(p).value;
    var q := WithExtension(p, ext);
    var n := stem + ("." + ext);
    assert q == p[..|p| - 1] + [n];
    assert q[|q| - 1] == n;
    assert |n| >= 3;
    assert FileName(q) == Some(n);
    assert LastDot(n) == Some(|stem|) by {
      LastDotAfter(stem, ext);
    }
    assert n[|stem| + 1..] == ext;
    assert n[..|stem|] == stem;
  }

  /** The last '.' of "stem.ext" is the one before ext when ext has none. */
  lemma {:induction false} LastDotAfter(stem: string, ext: string)
    requires '.' !in ext
    ensures LastDot(stem + ("." + ext)) == Some(|stem|)
  {
    var n := stem + ("." + ext);
    if ext != [] {
      var shorter := ext[..|ext| - 1];
      assert n[|n| - 1] == ext[|ext| - 1];
      assert n[..|n| - 1] == stem + ("." + shorter);
      LastDotAfter(stem, shorter);
    }
  }
}
