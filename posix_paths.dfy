/**
 * The part of Python's `pathlib.PurePosixPath` that the copy action relies on:
 * parsing a string into a root and its parts, rendering it back with `as_posix()`,
 * the `/` operator that appends a relative string, and `parent`.
 * The semantics follow CPython 3.12 (`_parse_path`, `_format_parsed_parts`).
 */
module PosixPaths {

  /** A parsed path: its root ("", "/" or "//") and its non-empty parts. */
  datatype PosixPath = PosixPath(root: string, parts: seq<string>)

  /** A part that parsing can produce: not empty, not ".", no separator. */
  predicate IsPart(s: string) {
    s != "" && s != "." && '/' !in s
  }

  predicate AllParts(parts: seq<string>) {
    forall i :: 0 <= i < |parts| ==> IsPart(parts[i])
  }

  predicate WellFormed(p: PosixPath) {
    (p.root == "" || p.root == "/" || p.root == "//") && AllParts(p.parts)
  }

  /** `str.split("/")`: the pieces between separators; never empty, no piece contains "/". */
  function Split(s: string): (r: seq<string>)
    ensures |r| >= 1
    ensures forall i :: 0 <= i < |r| ==> '/' !in r[i]
    decreases |s|
  {
    if |s| == 0 then [""]
    else if s[0] == '/' then [""] + Split(s[1..])
    else
      var t := Split(s[1..]);
      [[s[0]] + t[0]] + t[1..]
  }

  /** Drops the pieces "" and "." as parsing does. */
  function DropEmpty(pieces: seq<string>): (r: seq<string>)
    requires forall i :: 0 <= i < |pieces| ==> '/' !in pieces[i]
    ensures AllParts(r)
    ensures |r| <= |pieces|
  {
    if |pieces| == 0 then []
    else if pieces[0] == "" || pieces[0] == "." then DropEmpty(pieces[1..])
    else [pieces[0]] + DropEmpty(pieces[1..])
  }

  /** `PurePosixPath(s)`: two leading slashes exactly give the root "//", one or three
      and more give "/"; the extra leading slashes only yield empty pieces, which are dropped. */
  function Parse(s: string): (p: PosixPath)
    ensures WellFormed(p)
    ensures p.root == "" <==> (|s| == 0 || s[0] != '/')
  {
    if |s| == 0 || s[0] != '/' then PosixPath("", DropEmpty(Split(s)))
    else if |s| == 1 || s[1] != '/' || (|s| >= 3 && s[2] == '/') then PosixPath("/", DropEmpty(Split(s[1..])))
    else PosixPath("//", DropEmpty(Split(s[2..])))
  }

  /** `"/".join(parts)`. */
  function JoinParts(parts: seq<string>): string {
    if |parts| == 0 then ""
    else if |parts| == 1 then parts[0]
    else parts[0] + "/" + JoinParts(parts[1..])
  }

  /** `as_posix()` (and `str()`): the empty relative path renders as ".". */
  function Format(p: PosixPath): string {
    if p.root == "" && |p.parts| == 0 then "." else p.root + JoinParts(p.parts)
  }

  /** `p / key` for a string key: an absolute key replaces the path, a relative one is appended. */
  function Div(p: PosixPath, key: string): (r: PosixPath)
    ensures Parse(key).root == "" ==> r == PosixPath(p.root, p.parts + Parse(key).parts)
    ensures Parse(key).root != "" ==> r == Parse(key)
  {
    var k := Parse(key);
    if k.root != "" then k else PosixPath(p.root, p.parts + k.parts)
  }

  /** `p.parent`: the path without its last part; a path without parts is its own parent. */
  function Parent(p: PosixPath): (r: PosixPath)
    ensures r.root == p.root
    ensures |p.parts| > 0 ==> r.parts + [p.parts[|p.parts| - 1]] == p.parts
    ensures |p.parts| == 0 ==> r == p
  {
    if |p.parts| == 0 then p else PosixPath(p.root, p.parts[..|p.parts| - 1])
  }

  /** The containment the remote store uses for a recursive delete: same root and a prefix of the parts. */
  predicate IsWithin(path: string, ancestor: string) {
    var p, a := Parse(path), Parse(ancestor);
    p.root == a.root && a.parts <= p.parts
  }

  // ---- the round trip Parse(Format(p)) == p ----

  lemma {:induction false} SplitWithoutSeparator(a: string)
    requires '/' !in a
    ensures Split(a) == [a]
    decreases |a|
  {
    if |a| > 0 {
      assert '/' !in a[1..] by {
        forall k | 0 <= k < |a[1..]| ensures a[1..][k] != '/' { assert a[1..][k] == a[k + 1]; }
      }
      SplitWithoutSeparator(a[1..]);
      assert [a[0]] + a[1..] == a;
    }
  }

  lemma {:induction false} SplitAfterPart(a: string, t: string)
    requires '/' !in a
    ensures Split(a + "/" + t) == [a] + Split(t)
    decreases |a|
  {
    if |a| == 0 {
      assert a + "/" + t == "/" + t;
      assert ("/" + t)[1..] == t;
    } else {
      assert '/' !in a[1..] by {
        forall k | 0 <= k < |a[1..]| ensures a[1..][k] != '/' { assert a[1..][k] == a[k + 1]; }
      }
      assert (a + "/" + t)[1..] == a[1..] + "/" + t;
      assert (a + "/" + t)[0] == a[0];
      SplitAfterPart(a[1..], t);
      assert [a[0]] + a[1..] == a;
    }
  }

  lemma {:induction false} SplitJoin(parts: seq<string>)
    requires |parts| > 0 && AllParts(parts)
    ensures Split(JoinParts(parts)) == parts
    decreases |parts|
  {
    if |parts| == 1 {
      SplitWithoutSeparator(parts[0]);
    } else {
      assert AllParts(parts[1..]) by {
        forall k | 0 <= k < |parts[1..]| ensures IsPart(parts[1..][k]) { assert parts[1..][k] == parts[k + 1]; }
      }
      SplitJoin(parts[1..]);
      assert IsPart(parts[0]);
      SplitAfterPart(parts[0], JoinParts(parts[1..]));
      assert [parts[0]] + parts[1..] == parts;
    }
  }

  lemma {:induction false} DropEmptyKeepsParts(parts: seq<string>)
    requires AllParts(parts)
    ensures DropEmpty(parts) == parts
    decreases |parts|
  {
    if |parts| > 0 {
      assert IsPart(parts[0]);
      assert AllParts(parts[1..]) by {
        forall k | 0 <= k < |parts[1..]| ensures IsPart(parts[1..][k]) { assert parts[1..][k] == parts[k + 1]; }
      }
      DropEmptyKeepsParts(parts[1..]);
      assert [parts[0]] + parts[1..] == parts;
    }
  }

  /** The rendering of parts starts with the first character of the first part (never a separator). */
  lemma {:induction false} JoinPartsStart(parts: seq<string>)
    requires |parts| > 0 && AllParts(parts)
    ensures |JoinParts(parts)| > 0 && JoinParts(parts)[0] == parts[0][0] && JoinParts(parts)[0] != '/'
  {
  }

  /** The pieces of the parts' rendering, with "" and "." dropped, are the parts again. */
  lemma PartsRoundTrip(parts: seq<string>)
    requires AllParts(parts)
    ensures DropEmpty(Split(JoinParts(parts))) == parts
  {
    if |parts| == 0 {
      assert Split("") == [""];
    } else {
      SplitJoin(parts);
      DropEmptyKeepsParts(parts);
    }
  }

  /** Parsing what `as_posix()` renders gives back the same path. */
  lemma ParseFormat(p: PosixPath)
    requires WellFormed(p)
    ensures Parse(Format(p)) == p
  {
    var j := JoinParts(p.parts);
    PartsRoundTrip(p.parts);
    if |p.parts| > 0 { JoinPartsStart(p.parts); }
    if p.root == "" {
      if |p.parts| == 0 {
        assert Format(p) == ".";
        SplitWithoutSeparator(".");
        assert DropEmpty(["."]) == [];
      } else {
        assert Format(p) == j;
      }
    } else if p.root == "/" {
      assert Format(p) == "/" + j;
      assert ("/" + j)[1..] == j;
    } else {
      assert Format(p) == "//" + j;
      assert ("//" + j)[2..] == j;
    }
  }

  /** `as_posix()` is injective on the paths that parsing produces. */
  lemma FormatInjective(p: PosixPath, q: PosixPath)
    requires WellFormed(p) && WellFormed(q)
    ensures Format(p) == Format(q) <==> p == q
  {
    ParseFormat(p);
    ParseFormat(q);
  }

  /** Appending a relative rendering of well-formed parts appends exactly those parts. */
  lemma DivRelative(p: PosixPath, rel: seq<string>)
    requires AllParts(rel)
    ensures Div(p, Format(PosixPath("", rel))) == PosixPath(p.root, p.parts + rel)
  {
    ParseFormat(PosixPath("", rel));
  }

  /** `p / "."` is `p`: the relative rendering of the empty path collapses. */
  lemma DivDot(p: PosixPath)
    ensures Div(p, ".") == p
  {
  }
}
