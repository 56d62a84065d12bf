/** The two path operations build_readme.py takes from the host's POSIX path
    library: `os.path.join` with two components and `os.path.splitext`. */
module PosixPath {

  /** Index of the last occurrence of `c` in `s`, or -1 when there is none
      (`str.rfind` with a one-character argument). */
  function RFind(s: string, c: char): (r: int)
    ensures -1 <= r < |s|
    ensures r >= 0 ==> s[r] == c
    ensures forall k :: r < k < |s| ==> s[k] != c
    ensures r == -1 <==> c !in s
  {
    if |s| == 0 then -1
    else if s[|s| - 1] == c then |s| - 1
    else RFind(s[..|s| - 1], c)
  }

  /** The last occurrence in a concatenation lies in the right part when the
      right part has one, otherwise in the left part. */
  lemma {:induction false} RFindAppend(a: string, b: string, c: char)
    ensures RFind(a + b, c) == if RFind(b, c) >= 0 then |a| + RFind(b, c) else RFind(a, c)
    decreases |b|
  {
    if |b| == 0 {
      assert a + b == a;
    } else {
      assert (a + b)[..|a + b| - 1] == a + b[..|b| - 1];
      RFindAppend(a, b[..|b| - 1], c);
    }
  }

  predicate AllDots(s: string)
  {
    forall k :: 0 <= k < |s| ==> s[k] == '.'
  }

  /** No dot and no separator anywhere in `s`. */
  predicate PlainText(s: string)
  {
    forall k :: 0 <= k < |s| ==> s[k] != '.' && s[k] != '/'
  }

  /** What follows the last dot, when it also follows the last separator,
      holds neither. */
  lemma AfterLastDotIsPlain(p: string, dotIndex: int)
    requires 0 <= dotIndex < |p| && p[dotIndex] == '.'
    requires dotIndex == RFind(p, '.') && dotIndex > RFind(p, '/')
    ensures p[dotIndex..][0] == '.' && PlainText(p[dotIndex..][1..])
  {
    var t := p[dotIndex..][1..];
    forall k | 0 <= k < |t| ensures t[k] != '.' && t[k] != '/' {
      assert t[k] == p[dotIndex + 1 + k];
    }
  }

  /** `os.path.splitext(p)` on POSIX: the extension is the text from the last
      dot of the last path component on, unless everything before that dot in
      the component is dots (a leading-dot name such as `.gpx` has no
      extension). Root and extension always concatenate back to `p`, and a
      non-empty extension is one dot followed by plain text. */
  function SplitExt(p: string): (r: (string, string))
    ensures r.0 + r.1 == p
    ensures r.1 == [] || (r.1[0] == '.' && PlainText(r.1[1..]))
  {
    var sepIndex := RFind(p, '/');
    var dotIndex := RFind(p, '.');
    if dotIndex > sepIndex && !AllDots(p[sepIndex + 1..dotIndex]) then
      AfterLastDotIsPlain(p, dotIndex);
      (p[..dotIndex], p[dotIndex..])
    else
      (p, [])
  }

  /** `os.path.join(a, b)` with two components. */
  function JoinPath(a: string, b: string): (r: string)
    ensures |b| > 0 && b[0] == '/' ==> r == b
    ensures (|b| == 0 || b[0] != '/') ==> |r| >= |a| + |b| && r[..|a|] == a && r[|r| - |b|..] == b
    ensures (|b| == 0 || b[0] != '/') ==>
              |r| == |a| + |b| + (if |a| > 0 && a[|a| - 1] != '/' then 1 else 0) &&
              (|r| > |a| + |b| ==> r[|a|] == '/')
  {
    if |b| > 0 && b[0] == '/' then b
    else if |a| == 0 || a[|a| - 1] == '/' then a + b
    else a + "/" + b
  }

  /** Splitting the extension off a file name commutes with placing the file
      in a directory: the directory prefix never changes where the extension
      starts. */
  lemma SplitExtInDirectory(dir: string, name: string)
    requires '/' !in name
    ensures SplitExt(dir + "/" + name).0 == dir + "/" + SplitExt(name).0
    ensures SplitExt(dir + "/" + name).1 == SplitExt(name).1
  {
    RFindAfterSeparator(dir, name);
    RFindAppend(dir + "/", name, '.');
    if RFind(name, '.') >= 0 {
      assert dir + "/" + name == (dir + "/") + name;
      InDirectoryWithDot(dir + "/", name);
    } else {
      assert (dir + "/")[|dir|] == '/';
    }
  }

  lemma InDirectoryWithDot(pre: string, name: string)
    requires |pre| > 0
    requires RFind(name, '/') == -1 && RFind(name, '.') >= 0
    requires RFind(pre + name, '/') == |pre| - 1
    requires RFind(pre + name, '.') == |pre| + RFind(name, '.')
    ensures SplitExt(pre + name).0 == pre + SplitExt(name).0
    ensures SplitExt(pre + name).1 == SplitExt(name).1
  {
    var p := pre + name;
    var d := RFind(name, '.');
    SliceOfConcat(pre, name, d);
    if AllDots(name[0..d]) {
      assert AllDots(p[|pre|..|pre| + d]);
      assert SplitExt(p) == (p, []);
    } else {
      assert !AllDots(p[|pre|..|pre| + d]);
      assert SplitExt(p) == (p[..|pre| + d], p[|pre| + d..]);
    }
  }

  /** Slicing a concatenation at a point inside its right part. */
  lemma SliceOfConcat(a: string, b: string, d: nat)
    requires d <= |b|
    ensures (a + b)[|a|..|a| + d] == b[0..d]
    ensures (a + b)[..|a| + d] == a + b[..d]
    ensures (a + b)[|a| + d..] == b[d..]
  {
  }

  /** In `dir/name` with no separator in `name`, the last separator is the
      one just before `name`. */
  lemma RFindAfterSeparator(dir: string, name: string)
    requires '/' !in name
    ensures RFind(dir + "/" + name, '/') == |dir|
  {
    var pre := dir + "/";
    assert RFind(pre, '/') == |dir| by {
      assert pre[|pre| - 1] == '/';
    }
    assert RFind(name, '/') == -1;
    RFindAppend(pre, name, '/');
  }

  /** A file name with a four-character extension and no separator: the
      extension is split off unless everything before it is dots, in which
      case the name is its own root. */
  lemma SplitExtOfFileName(stem: string, ext: string)
    requires '/' !in stem
    requires |ext| == 4 && ext[0] == '.' && PlainText(ext[1..])
    ensures SplitExt(stem + ext) == if AllDots(stem) then (stem + ext, []) else (stem, ext)
  {
    var p := stem + ext;
    RFindAppend(stem, ext, '/');
    RFindAppend(stem, ext, '.');
    RFindAppend(stem, ext[..1], '.');
    assert ext == ext[..1] + ext[1..];
    RFindAppend(stem + ext[..1], ext[1..], '.');
    assert p == (stem + ext[..1]) + ext[1..];
    assert '.' !in ext[1..] && '/' !in ext[1..] by {
      var t := ext[1..];
      forall k | 0 <= k < |t| ensures t[k] != '.' && t[k] != '/' { }
    }
    assert RFind(ext, '.') == 0;
    assert RFind(p, '.') == |stem|;
    assert RFind(p, '/') == -1;
    assert p[0..|stem|] == stem;
  }

  /** An ordinary name loses its extension. */
  lemma PlainNameLosesExtension()
    ensures SplitExt("a.gpx") == ("a", ".gpx")
  {
    assert PlainText(".gpx"[1..]);
    assert !AllDots("a") by { assert "a"[0] != '.'; }
    SplitExtOfFileName("a", ".gpx");
    assert "a" + ".gpx" == "a.gpx";
  }

  /** Only the last extension is split off. */
  lemma OnlyLastExtensionSplit()
    ensures SplitExt("a.b.GPX") == ("a.b", ".GPX")
  {
    assert PlainText(".GPX"[1..]);
    assert !AllDots("a.b") by { assert "a.b"[0] != '.'; }
    SplitExtOfFileName("a.b", ".GPX");
    assert "a.b" + ".GPX" == "a.b.GPX";
  }

  /** A leading-dot name has no extension and is its own root. */
  lemma LeadingDotNameHasNoExtension()
    ensures SplitExt(".gpx") == (".gpx", "")
  {
    assert PlainText(".gpx"[1..]);
    SplitExtOfFileName("", ".gpx");
    assert "" + ".gpx" == ".gpx";
  }
}
