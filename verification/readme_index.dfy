/** The top level of build_readme.py: every GPX file of the `gpx` folder is
    rendered to a PNG beside it, and `readme.md` lists the files, one section
    per file, in the order of the directory listing.

    The listing is a parameter (the result of `os.listdir`), the rendering is
    recorded as the (GPX path, PNG path) job it is given, and the document is
    returned as a string instead of written. */
module ReadmeIndex {
  import opened PosixPath

  const GpxFolder: string := "gpx"
  const Title: string := "# Motoriders\n\n"
  const Separator: string := "\n---\n"
  const RepoUrl: string := "https://github.com/joanboure/motoriders/gpx/"

  /** One call of `gpx_to_png(gpx_path, png_path)`. */
  datatype RenderJob = RenderJob(gpxPath: string, pngPath: string)

  function LowerChar(c: char): char
  {
    if 'A' <= c <= 'Z' then (c as int + 32) as char else c
  }

  /** `str.lower()` restricted to ASCII letters. */
  function Lower(s: string): (r: string)
    ensures |r| == |s|
    ensures forall k :: 0 <= k < |s| ==> r[k] == LowerChar(s[k])
  {
    if |s| == 0 then [] else [LowerChar(s[0])] + Lower(s[1..])
  }

  predicate EndsWith(s: string, suffix: string)
  {
    |suffix| <= |s| && s[|s| - |suffix|..] == suffix
  }

  /** `filename.lower().endswith('.gpx')`. */
  predicate IsGpxFile(name: string)
    ensures IsGpxFile(name) ==> |name| >= 4
  {
    EndsWith(Lower(name), ".gpx")
  }

  /** The filter is a case-insensitive test of the last four characters. */
  lemma IsGpxFileIffSuffix(name: string)
    ensures IsGpxFile(name) <==>
              |name| >= 4 && name[|name| - 4] == '.' &&
              (name[|name| - 3] == 'g' || name[|name| - 3] == 'G') &&
              (name[|name| - 2] == 'p' || name[|name| - 2] == 'P') &&
              (name[|name| - 1] == 'x' || name[|name| - 1] == 'X')
  {
    var n := |name|;
    if n >= 4 {
      var low := Lower(name);
      var tail := low[n - 4..];
      assert tail == [low[n - 4], low[n - 3], low[n - 2], low[n - 1]];
      assert ".gpx" == ['.', 'g', 'p', 'x'];
    }
  }

  /** `os.path.splitext(filename)[0]`: the name shown for a file. */
  function EntryName(filename: string): (name: string)
    ensures name <= filename
    ensures |name| < |filename| ==> filename[|name|] == '.'
  {
    SplitExt(filename).0
  }

  /** The markdown section for one file: a heading with its name, the PNG
      embedded from the repository, and a link to download the GPX. */
  function Entry(name: string): (e: string)
    ensures |e| == 4 * |name| + 2 * |RepoUrl| + 39
    ensures e[..4] == "### " && e[4..4 + |name|] == name
  {
    var githubPath := RepoUrl + name;
    "### " + name + "\n\n![" + name + "](" + githubPath + ".png)\n\n[Descargar GPX](" + githubPath + ".gpx)\n"
  }

  /** Every section closes with the download link to the file's GPX in the
      repository. */
  lemma EntryEndsWithDownloadLink(name: string)
    ensures EndsWith(Entry(name), "[Descargar GPX](" + (RepoUrl + name) + ".gpx)\n")
  {
    var githubPath := RepoUrl + name;
    var middle := ".png)\n\n[Descargar GPX](";
    var pre := "### " + name + "\n\n![" + name + "](" + githubPath;
    assert Entry(name) == pre + middle + githubPath + ".gpx)\n";
    TailOfConcat(pre, middle, |middle| - 16, githubPath, ".gpx)\n");
    assert middle[|middle| - 16..] == "[Descargar GPX](";
  }

  /** The end of a concatenation, starting inside its second piece. */
  lemma TailOfConcat(pre: string, d: string, k: nat, x: string, e: string)
    requires k <= |d|
    ensures EndsWith(pre + d + x + e, d[k..] + x + e)
  {
    var s := pre + d + x + e;
    assert s[|s| - |d[k..] + x + e|..] == d[k..] + x + e;
  }

  /** The listing items that pass the filter, in listing order. */
  function GpxFiles(listing: seq<string>): (r: seq<string>)
    ensures |r| <= |listing|
  {
    if |listing| == 0 then []
    else (if IsGpxFile(listing[0]) then [listing[0]] else []) + GpxFiles(listing[1..])
  }

  /** Filtering a listing piece by piece filters the whole listing: the
      selected files keep their listing order. */
  lemma {:induction false} GpxFilesAppend(a: seq<string>, b: seq<string>)
    ensures GpxFiles(a + b) == GpxFiles(a) + GpxFiles(b)
    decreases |a|
  {
    if |a| == 0 {
      assert a + b == b;
    } else {
      var head := if IsGpxFile(a[0]) then [a[0]] else [];
      assert (a + b)[0] == a[0];
      assert (a + b)[1..] == a[1..] + b;
      assert GpxFiles(a + b) == head + GpxFiles(a[1..] + b);
      GpxFilesAppend(a[1..], b);
      assert GpxFiles(a) == head + GpxFiles(a[1..]);
    }
  }

  /** A file is selected exactly when it is listed and passes the filter. */
  lemma {:induction false} GpxFilesMembers(listing: seq<string>, f: string)
    ensures f in GpxFiles(listing) <==> f in listing && IsGpxFile(f)
    decreases |listing|
  {
    if |listing| > 0 {
      GpxFilesMembers(listing[1..], f);
      assert listing == [listing[0]] + listing[1..];
    }
  }

  /** Each listing item contributes on its own: itself when it passes the
      filter, nothing otherwise, between what the items before and after it
      contribute. */
  lemma GpxFilesAroundItem(a: seq<string>, f: string, b: seq<string>)
    ensures GpxFiles(a + [f] + b) == GpxFiles(a) + (if IsGpxFile(f) then [f] else []) + GpxFiles(b)
  {
    GpxFilesAppend(a + [f], b);
    GpxFilesAppend(a, [f]);
    assert [f][1..] == [];
  }

  /** One more listing item selects what that item alone selects. */
  lemma GpxFilesStep(listing: seq<string>, i: nat)
    requires i < |listing|
    ensures GpxFiles(listing[..i + 1]) == GpxFiles(listing[..i]) + GpxFiles([listing[i]])
  {
    assert listing[..i + 1] == listing[..i] + [listing[i]];
    GpxFilesAppend(listing[..i], [listing[i]]);
  }

  /** The sections of the selected files, one per file, in order. */
  function Entries(files: seq<string>): (r: seq<string>)
    ensures |r| == |files|
  {
    if |files| == 0 then []
    else [Entry(EntryName(files[0]))] + Entries(files[1..])
  }

  /** `sep.join(xs)`. */
  function Join(xs: seq<string>, sep: string): (r: string)
    ensures |xs| == 0 ==> r == []
    ensures |xs| > 0 ==> |r| >= |xs[0]| && r[..|xs[0]|] == xs[0]
  {
    if |xs| == 0 then ""
    else if |xs| == 1 then xs[0]
    else xs[0] + sep + Join(xs[1..], sep)
  }

  function TotalLength(xs: seq<string>): nat
  {
    if |xs| == 0 then 0 else |xs[0]| + TotalLength(xs[1..])
  }

  /** Joining two non-empty runs puts exactly one separator between them. */
  lemma {:induction false} JoinAppend(xs: seq<string>, ys: seq<string>, sep: string)
    requires |xs| > 0 && |ys| > 0
    ensures Join(xs + ys, sep) == Join(xs, sep) + sep + Join(ys, sep)
    decreases |xs|
  {
    if |xs| == 1 {
      assert (xs + ys)[1..] == ys;
    } else {
      assert (xs + ys)[1..] == xs[1..] + ys;
      JoinAppend(xs[1..], ys, sep);
    }
  }

  /** A join of k pieces holds the pieces and k - 1 separators, no more. */
  lemma {:induction false} JoinLength(xs: seq<string>, sep: string)
    requires |xs| > 0
    ensures |Join(xs, sep)| == TotalLength(xs) + (|xs| - 1) * |sep|
    decreases |xs|
  {
    if |xs| > 1 {
      JoinLength(xs[1..], sep);
    }
  }

  /** The last piece closes the join: no separator follows it. */
  lemma {:induction false} LastPieceEndsJoin(xs: seq<string>, sep: string)
    requires |xs| > 0
    ensures EndsWith(Join(xs, sep), xs[|xs| - 1])
  {
    var n := |xs|;
    if n > 1 {
      assert xs == xs[..n - 1] + [xs[n - 1]];
      JoinAppend(xs[..n - 1], [xs[n - 1]], sep);
    }
  }

  /** The path handed to the renderer for one file, and the PNG path next
      to it. */
  function Job(filename: string): RenderJob
  {
    var gpxPath := JoinPath(GpxFolder, filename);
    RenderJob(gpxPath, SplitExt(gpxPath).0 + ".png")
  }

  /** Only the extension is swapped: the PNG path ends in `.png`, and
      without it is a prefix of the GPX path. */
  lemma JobSwapsExtension(filename: string)
    ensures var job := Job(filename);
            EndsWith(job.pngPath, ".png") && job.pngPath[..|job.pngPath| - 4] <= job.gpxPath
  {
    var root := SplitExt(JoinPath(GpxFolder, filename)).0;
    assert Job(filename).pngPath[..|root|] == root;
  }

  /** The image is written next to its GPX file, under the same name the
      section shows, so the section's picture is the rendered one. */
  lemma ImageNamedLikeEntry(filename: string)
    requires '/' !in filename
    ensures Job(filename).gpxPath == "gpx/" + filename
    ensures Job(filename).pngPath == "gpx/" + EntryName(filename) + ".png"
  {
    var path := GpxFolder + "/" + filename;
    assert GpxFolder + "/" == "gpx/";
    assert JoinPath(GpxFolder, filename) == path by {
      assert |filename| == 0 || filename[0] != '/';
    }
    SplitExtInDirectory(GpxFolder, filename);
    assert SplitExt(path).0 == "gpx/" + EntryName(filename);
  }

  /** `readme.md`: the title, then the sections separated by rules. */
  function Readme(listing: seq<string>): (doc: string)
    ensures |doc| >= |Title| && doc[..|Title|] == Title
    ensures |GpxFiles(listing)| == 0 ==> doc == Title
  {
    Title + Join(Entries(GpxFiles(listing)), Separator)
  }

  /** What one listing item adds: its job and section when it is selected. */
  lemma ItemSelection(filename: string)
    ensures Jobs(GpxFiles([filename])) == if IsGpxFile(filename) then [Job(filename)] else []
    ensures Entries(GpxFiles([filename])) == if IsGpxFile(filename) then [Entry(EntryName(filename))] else []
  {
    assert [filename][1..] == [];
  }

  /** The script's main loop: filter the listing, render each GPX file, build
      one section per file, then write the title and the joined sections. */
  method BuildReadme(listing: seq<string>) returns (jobs: seq<RenderJob>, readme: string)
    ensures |jobs| == |GpxFiles(listing)|
    ensures forall k :: 0 <= k < |jobs| ==> jobs[k] == Job(GpxFiles(listing)[k])
    ensures readme == Readme(listing)
  {
    var entries: seq<string> := [];
    jobs := [];
    ghost var files: seq<string> := [];
    var i := 0;
    while i < |listing|
      invariant 0 <= i <= |listing|
      invariant files == GpxFiles(listing[..i])
      invariant entries == Entries(files)
      invariant jobs == Jobs(files)
    {
      var filename := listing[i];
      ItemSelection(filename);
      ghost var selected := GpxFiles([filename]);
      GpxFilesStep(listing, i);
      EntriesAppend(files, selected);
      JobsAppend(files, selected);
      if IsGpxFile(filename) {
        var gpxPath := JoinPath(GpxFolder, filename);
        var pngPath := SplitExt(gpxPath).0 + ".png";
        jobs := jobs + [RenderJob(gpxPath, pngPath)];
        var name := SplitExt(filename).0;
        entries := entries + [Entry(name)];
      } else {
        assert Entries(selected) == [] && Jobs(selected) == [];
      }
      files := files + selected;
      i := i + 1;
    }
    assert listing[..i] == listing;
    readme := Title + Join(entries, Separator);
    forall k | 0 <= k < |jobs| ensures jobs[k] == Job(files[k]) {
      JobsAt(files, k);
    }
  }

  /** No item of the listing passes the filter exactly when nothing is
      selected. */
  lemma {:induction false} NoGpxFilesIffNoneSelected(listing: seq<string>)
    ensures |GpxFiles(listing)| == 0 <==> forall k :: 0 <= k < |listing| ==> !IsGpxFile(listing[k])
    decreases |listing|
  {
    if |listing| > 0 {
      NoGpxFilesIffNoneSelected(listing[1..]);
      assert forall k :: 0 < k < |listing| ==> listing[1..][k - 1] == listing[k];
    }
  }

  /** The document is the title alone exactly when no listing item is a GPX
      file. */
  lemma TitleOnlyIffNoGpxFiles(listing: seq<string>)
    ensures Readme(listing) == Title <==> forall k :: 0 <= k < |listing| ==> !IsGpxFile(listing[k])
  {
    NoGpxFilesIffNoneSelected(listing);
    var es := Entries(GpxFiles(listing));
    if |es| > 0 {
      EntriesAt(GpxFiles(listing), 0);
      assert |Readme(listing)| > |Title|;
    }
  }

  /** A document with k sections holds the title, the sections and exactly
      k - 1 rules. */
  lemma ReadmeLength(listing: seq<string>)
    requires |GpxFiles(listing)| > 0
    ensures |Readme(listing)| ==
              |Title| + TotalLength(Entries(GpxFiles(listing))) + (|GpxFiles(listing)| - 1) * |Separator|
  {
    JoinLength(Entries(GpxFiles(listing)), Separator);
  }

  /** Sections follow listing order: the files listed first come first, one
      rule between the two groups. */
  lemma ReadmeInListingOrder(a: seq<string>, b: seq<string>)
    requires |GpxFiles(a)| > 0 && |GpxFiles(b)| > 0
    ensures Readme(a + b) == Readme(a) + Separator + Join(Entries(GpxFiles(b)), Separator)
  {
    var fa, fb := GpxFiles(a), GpxFiles(b);
    GpxFilesAppend(a, b);
    EntriesAppend(fa, fb);
    var ea, eb := Entries(fa), Entries(fb);
    TitleJoinAppend(Title, ea, eb, Separator);
  }

  lemma TitleJoinAppend(title: string, xs: seq<string>, ys: seq<string>, sep: string)
    requires |xs| > 0 && |ys| > 0
    ensures title + Join(xs + ys, sep) == (title + Join(xs, sep)) + sep + Join(ys, sep)
  {
    JoinAppend(xs, ys, sep);
  }

  lemma {:induction false} EntriesAppend(x: seq<string>, y: seq<string>)
    ensures Entries(x + y) == Entries(x) + Entries(y)
    decreases |x|
  {
    if |x| == 0 {
      assert x + y == y;
    } else {
      assert (x + y)[1..] == x[1..] + y;
      EntriesAppend(x[1..], y);
    }
  }

  /** The k-th section belongs to the k-th selected file. */
  lemma {:induction false} EntriesAt(files: seq<string>, k: nat)
    requires k < |files|
    ensures Entries(files)[k] == Entry(EntryName(files[k]))
    decreases k
  {
    if k > 0 {
      EntriesAt(files[1..], k - 1);
    }
  }

  /** The render jobs of the selected files, in order. */
  function Jobs(files: seq<string>): (r: seq<RenderJob>)
    ensures |r| == |files|
  {
    if |files| == 0 then [] else [Job(files[0])] + Jobs(files[1..])
  }

  lemma {:induction false} JobsAppend(x: seq<string>, y: seq<string>)
    ensures Jobs(x + y) == Jobs(x) + Jobs(y)
    decreases |x|
  {
    if |x| == 0 {
      assert x + y == y;
    } else {
      assert (x + y)[1..] == x[1..] + y;
      JobsAppend(x[1..], y);
    }
  }

  lemma {:induction false} JobsAt(files: seq<string>, k: nat)
    requires k < |files|
    ensures Jobs(files)[k] == Job(files[k])
    decreases k
  {
    if k > 0 {
      JobsAt(files[1..], k - 1);
    }
  }

  /** The document ends with the last section, not with a rule. */
  lemma ReadmeEndsWithLastSection(listing: seq<string>)
    requires |GpxFiles(listing)| > 0
    ensures var files := GpxFiles(listing);
            EndsWith(Readme(listing), Entry(EntryName(files[|files| - 1])))
  {
    var files := GpxFiles(listing);
    var es := Entries(files);
    EntriesAt(files, |files| - 1);
    LastPieceEndsJoin(es, Separator);
    EndsWithExtend(Title, Join(es, Separator), es[|es| - 1]);
  }

  lemma EndsWithExtend(prefix: string, s: string, suffix: string)
    requires EndsWith(s, suffix)
    ensures EndsWith(prefix + s, suffix)
  {
    assert (prefix + s)[|prefix + s| - |suffix|..] == s[|s| - |suffix|..];
  }

  /** A folder holding `a.gpx`, a non-GPX file and `b.GPX` (for any plain
      stems `a` and `b`) yields two sections, `a` then `b`, with one rule
      between them. */
  lemma TwoFileFolder(a: string, other: string, b: string)
    requires '/' !in a && !AllDots(a) && '/' !in b && !AllDots(b)
    requires !IsGpxFile(other)
    ensures Readme([a + ".gpx", other, b + ".GPX"]) == Title + Entry(a) + Separator + Entry(b)
  {
    var fa, fb := a + ".gpx", b + ".GPX";
    GpxSuffixPasses(a, ".gpx");
    GpxSuffixPasses(b, ".GPX");
    TwoFileSelection(fa, other, fb);
    StemOfGpxName(a, ".gpx");
    StemOfGpxName(b, ".GPX");
    TwoSelectedFiles([fa, other, fb], fa, fb);
  }

  /** A listing that selects exactly two files yields their two sections. */
  lemma TwoSelectedFiles(listing: seq<string>, f1: string, f2: string)
    requires GpxFiles(listing) == [f1, f2]
    ensures Readme(listing) == Title + Entry(EntryName(f1)) + Separator + Entry(EntryName(f2))
  {
    var x, y := Entry(EntryName(f1)), Entry(EntryName(f2));
    assert Entries([f1, f2]) == [x, y] by {
      assert [f1, f2][1..] == [f2];
    }
    JoinTwo(Title, x, Separator, y);
  }

  lemma JoinTwo(title: string, x: string, sep: string, y: string)
    ensures title + Join([x, y], sep) == title + x + sep + y
  {
    assert [x, y][1..] == [y];
  }

  lemma GpxSuffixPasses(stem: string, ext: string)
    requires ext == ".gpx" || ext == ".GPX"
    ensures IsGpxFile(stem + ext)
  {
    var name := stem + ext;
    IsGpxFileIffSuffix(name);
    var n := |stem|;
    assert name[n] == ext[0] && name[n + 1] == ext[1] && name[n + 2] == ext[2] && name[n + 3] == ext[3];
  }

  lemma StemOfGpxName(stem: string, ext: string)
    requires '/' !in stem && !AllDots(stem)
    requires ext == ".gpx" || ext == ".GPX"
    ensures EntryName(stem + ext) == stem
  {
    assert PlainText(ext[1..]);
    SplitExtOfFileName(stem, ext);
  }

  lemma TwoFileSelection(fa: string, other: string, fb: string)
    requires IsGpxFile(fa) && !IsGpxFile(other) && IsGpxFile(fb)
    ensures GpxFiles([fa, other, fb]) == [fa, fb]
  {
    var listing := [fa, other, fb];
    assert listing[1..][1..] == [fb];
    assert GpxFiles([fb]) == [fb] by {
      assert [fb][1..] == [];
    }
  }

  /** A file called just `.gpx` passes the filter but has no extension to
      split off, so its section is named `.gpx`. */
  lemma LeadingDotFileKeepsFullName()
    ensures Readme([".gpx"]) == Title + Entry(".gpx")
  {
    IsGpxFileIffSuffix(".gpx");
    assert GpxFiles([".gpx"]) == [".gpx"];
    LeadingDotNameHasNoExtension();
    assert Entries([".gpx"]) == [Entry(".gpx")];
  }
}
