/**
 * Absolute POSIX paths as sequences of segments. The root `/` is the empty
 * sequence, `path.dirname` drops the last segment (and keeps the root as it
 * is), `path.basename` is the last segment (the empty string for the root),
 * and `path.join(dir, name)` appends one segment.
 */
module Paths {

  type Path = seq<string>

  const Root: Path := []

  /** A segment as `path` produces it: non-empty, with no separator in it. */
  predicate ValidSegment(s: string) {
    s != [] && '/' !in s
  }

  predicate ValidPath(p: Path) {
    forall i :: 0 <= i < |p| ==> ValidSegment(p[i])
  }

  function Dirname(p: Path): (d: Path)
    ensures p == Root ==> d == Root
    ensures p != Root ==> |d| == |p| - 1 && d <= p
  {
    if p == Root then Root else p[..|p| - 1]
  }

  function Basename(p: Path): (b: string)
    ensures p != Root ==> b == p[|p| - 1]
    ensures p == Root ==> b == ""
  {
    if p == Root then "" else p[|p| - 1]
  }

  function Join(dir: Path, name: string): (p: Path)
    ensures Dirname(p) == dir && Basename(p) == name
  {
    dir + [name]
  }

  /** The string form of a path: `/` for the root, `/a/b` otherwise. */
  function Format(p: Path): string {
    if p == Root then "/" else FormatSegments(p)
  }

  function FormatSegments(p: Path): string {
    if p == [] then "" else "/" + p[0] + FormatSegments(p[1..])
  }

  /**
   * Reads a path string: splits at every `/` and drops the empty pieces, so
   * `"/a//b/"` and `"/a/b"` are the same path. A string without a leading
   * `/` is read as if it had one.
   */
  function Parse(s: string): Path {
    Split(s, "")
  }

  /** Splits `s`, where `cur` holds the characters of the segment being read. */
  function Split(s: string, cur: string): Path
    decreases |s|
  {
    if s == [] then Flush(cur, [])
    else if s[0] == '/' then Flush(cur, Split(s[1..], ""))
    else Split(s[1..], cur + [s[0]])
  }

  function Flush(cur: string, rest: Path): Path {
    if cur == "" then rest else [cur] + rest
  }

  /**
   * The string form of a non-root path is that of its dirname, a `/`, and its
   * basename: `Dirname` and `Basename` split the string at its last `/`.
   */
  lemma {:induction false} FormatAtLastSlash(p: Path)
    requires p != Root
    ensures Format(p) == FormatSegments(Dirname(p)) + "/" + Basename(p)
    decreases |p|
  {
    if |p| == 1 {
      assert FormatSegments(p[1..]) == "";
      assert Dirname(p) == [];
    } else {
      FormatAtLastSlash(p[1..]);
      assert Dirname(p)[0] == p[0] && Dirname(p)[1..] == Dirname(p[1..]);
      assert Basename(p[1..]) == Basename(p);
      assert FormatSegments(Dirname(p)) == "/" + p[0] + FormatSegments(Dirname(p[1..]));
    }
  }

  /** Reading back a formatted path gives the path: no segment is lost, split or merged. */
  lemma {:induction false} ParseFormat(p: Path)
    requires ValidPath(p)
    ensures Parse(Format(p)) == p
  {
    if p == Root {
      assert Format(p) == "/";
      assert Split("/", "") == Flush("", Split("", ""));
    } else {
      SplitFormatSegments(p);
    }
  }

  lemma {:induction false} SplitFormatSegments(p: Path)
    requires ValidPath(p)
    ensures Split(FormatSegments(p), "") == p
  {
    if p != [] {
      var rest := FormatSegments(p[1..]);
      var s := "/" + p[0] + rest;
      assert FormatSegments(p) == s;
      assert s[0] == '/' && s[1..] == p[0] + rest;
      assert Split(s, "") == Split(p[0] + rest, "");
      SplitSegment(p[0], rest, "");
      assert "" + p[0] == p[0];
      assert Split(p[0] + rest, "") == Split(rest, p[0]);
      assert ValidPath(p[1..]) by {
        forall i | 0 <= i < |p[1..]| ensures ValidSegment(p[1..][i]) {
          assert p[1..][i] == p[i + 1];
        }
      }
      SplitFormatSegments(p[1..]);
      if p[1..] == [] {
        assert rest == "";
      } else {
        var t := FormatSegments(p[1..][1..]);
        assert rest == "/" + p[1..][0] + t;
        assert rest[0] == '/';
        assert Split(rest, p[0]) == [p[0]] + Split(rest[1..], "");
        assert Split(rest, "") == Split(rest[1..], "");
      }
    }
  }

  /** Reading a segment with no separator only extends the current segment. */
  lemma {:induction false} SplitSegment(seg: string, rest: string, cur: string)
    requires '/' !in seg
    ensures Split(seg + rest, cur) == Split(rest, cur + seg)
    decreases |seg|
  {
    if seg != [] {
      var s := seg + rest;
      assert s[0] == seg[0] && s[0] != '/';
      assert s[1..] == seg[1..] + rest;
      assert '/' !in seg[1..] by {
        forall i | 0 <= i < |seg[1..]| ensures seg[1..][i] != '/' {
          assert seg[1..][i] == seg[i + 1];
        }
      }
      SplitSegment(seg[1..], rest, cur + [seg[0]]);
      assert cur + [seg[0]] + seg[1..] == cur + seg;
    } else {
      assert seg + rest == rest;
      assert cur + seg == cur;
    }
  }
}
