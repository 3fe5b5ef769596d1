/** The directory scan of `create_image_list`: a file is kept when its
    lower-cased name ends with one of a fixed tuple of suffixes, and is
    emitted as `join(root, file)` in the order the walk produced it.
    The walk itself (`os.walk`) is an input: the sequence of
    `(root, dirs, files)` triples it yielded. */
module Scanner {
  import opened Paths

  // The suffix tuple, one constant per source line, in the source's order.
  const SuffixesLine1: seq<string> := [".png", ".jpg", ".jpeg", ".gif", ".bmp", ".3fr", ".ari", ".arw", ".bay"]
  const SuffixesLine2: seq<string> := [".cap", ".cr2", ".cr3", ".crw", ".dcr", ".dcs", ".dng", ".drf", ".eip"]
  const SuffixesLine3: seq<string> := [".erf", ".fff", ".gpr", ".iiq", ".k25", ".kdc", ".mdc", ".mef", ".mos"]
  const SuffixesLine4: seq<string> := [".mrw", ".nef", ".nrw", ".orf", ".pef", ".ptx", ".pxn", ".r3d", ".raf"]
  const SuffixesLine5: seq<string> := [".raw", ".rwl", ".rw2", ".rwz", ".sr2", ".srf", ".srw", ".tif", ".x3f", ".HIF"]

  /** The whole tuple; its last entry is written in upper case. */
  const Suffixes: seq<string> := SuffixesLine1 + SuffixesLine2 + SuffixesLine3 + SuffixesLine4 + SuffixesLine5

  /** The entries a lower-cased name can actually end with: all but ".HIF". */
  const ReachableSuffixes: seq<string> := SuffixesLine1 + SuffixesLine2 + SuffixesLine3 + SuffixesLine4 + SuffixesLine5[..9]

  /** `s.endswith(sufs)` for a tuple: tries each entry in turn. */
  function EndsWithAny(s: string, sufs: seq<string>): (r: bool)
    ensures r <==> exists suf :: suf in sufs && EndsWith(s, suf)
  {
    if |sufs| == 0 then false
    else EndsWith(s, sufs[0]) || EndsWithAny(s, sufs[1..])
  }

  /** The filter applied to every file name the walk lists. */
  predicate IsImageFile(name: string) {
    EndsWithAny(Lower(name), Suffixes)
  }

  /** One triple yielded by `os.walk`. */
  datatype WalkEntry = WalkEntry(root: string, dirs: seq<string>, files: seq<string>)

  /** The paths kept from one directory's files, in listing order. */
  function KeptIn(root: string, files: seq<string>): seq<string> {
    if |files| == 0 then []
    else
      var name := files[|files| - 1];
      KeptIn(root, files[..|files| - 1]) + (if IsImageFile(name) then [Join(root, name)] else [])
  }

  /** The list `create_image_list` returns for a walk. */
  function ImageList(walk: seq<WalkEntry>): seq<string> {
    if |walk| == 0 then []
    else
      var last := walk[|walk| - 1];
      ImageList(walk[..|walk| - 1]) + KeptIn(last.root, last.files)
  }

  /** `create_image_list`: the nested loop over the walk and its files. */
  method CreateImageList(walk: seq<WalkEntry>) returns (images: seq<string>)
    ensures images == ImageList(walk)
  {
    images := [];
    var i := 0;
    while i < |walk|
      invariant 0 <= i <= |walk|
      invariant images == ImageList(walk[..i])
    {
      var entry := walk[i];
      var j := 0;
      while j < |entry.files|
        invariant 0 <= j <= |entry.files|
        invariant images == ImageList(walk[..i]) + KeptIn(entry.root, entry.files[..j])
      {
        var name := entry.files[j];
        if IsImageFile(name) {
          images := images + [Join(entry.root, name)];
        }
        assert entry.files[..j + 1][..j] == entry.files[..j];
        j := j + 1;
      }
      assert entry.files[..j] == entry.files;
      assert walk[..i + 1][..i] == walk[..i];
      i := i + 1;
    }
    assert walk[..i] == walk;
  }

  // ---------------------------------------------------------------------
  // The scan as one flat filter over the files of the walk

  /** A file the walk listed, with the directory it was listed under. */
  datatype FileEntry = FileEntry(root: string, name: string)

  function EntriesOf(root: string, files: seq<string>): (es: seq<FileEntry>)
    ensures |es| == |files|
    ensures forall j :: 0 <= j < |files| ==> es[j] == FileEntry(root, files[j])
  {
    seq(|files|, j requires 0 <= j < |files| => FileEntry(root, files[j]))
  }

  /** Every file of the walk, in walk order. */
  function Entries(walk: seq<WalkEntry>): seq<FileEntry> {
    if |walk| == 0 then []
    else
      var last := walk[|walk| - 1];
      Entries(walk[..|walk| - 1]) + EntriesOf(last.root, last.files)
  }

  /** The number of files the walk listed. */
  function TotalFiles(walk: seq<WalkEntry>): nat {
    if |walk| == 0 then 0 else TotalFiles(walk[..|walk| - 1]) + |walk[|walk| - 1].files|
  }

  /** Keep the entries whose name passes the filter, each as its joined path. */
  function KeptPaths(es: seq<FileEntry>): seq<string> {
    if |es| == 0 then []
    else
      var e := es[|es| - 1];
      KeptPaths(es[..|es| - 1]) + (if IsImageFile(e.name) then [Join(e.root, e.name)] else [])
  }

  lemma {:induction false} KeptPathsAppend(a: seq<FileEntry>, b: seq<FileEntry>)
    ensures KeptPaths(a + b) == KeptPaths(a) + KeptPaths(b)
  {
    if |b| == 0 {
      assert a + b == a;
    } else {
      var b' := b[..|b| - 1];
      assert (a + b)[..|a + b| - 1] == a + b';
      KeptPathsAppend(a, b');
    }
  }

  lemma {:induction false} KeptInIsKeptPaths(root: string, files: seq<string>)
    ensures KeptIn(root, files) == KeptPaths(EntriesOf(root, files))
  {
    if |files| > 0 {
      var init := files[..|files| - 1];
      assert EntriesOf(root, files)[..|files| - 1] == EntriesOf(root, init);
      KeptInIsKeptPaths(root, init);
    }
  }

  /** The nested loops of the scan amount to one filter over the files of the
      walk, in walk order: each kept file appears once, as `join(root, file)`,
      and nothing else appears. */
  lemma {:induction false} ImageListIsKeptEntries(walk: seq<WalkEntry>)
    ensures ImageList(walk) == KeptPaths(Entries(walk))
  {
    if |walk| > 0 {
      var init, last := walk[..|walk| - 1], walk[|walk| - 1];
      ImageListIsKeptEntries(init);
      KeptInIsKeptPaths(last.root, last.files);
      KeptPathsAppend(Entries(init), EntriesOf(last.root, last.files));
    }
  }

  lemma {:induction false} KeptPathsLength(es: seq<FileEntry>)
    ensures |KeptPaths(es)| <= |es|
  {
    if |es| > 0 {
      KeptPathsLength(es[..|es| - 1]);
    }
  }

  lemma {:induction false} EntriesLength(walk: seq<WalkEntry>)
    ensures |Entries(walk)| == TotalFiles(walk)
  {
    if |walk| > 0 {
      EntriesLength(walk[..|walk| - 1]);
    }
  }

  /** The scan returns at most as many paths as the walk listed files. */
  lemma ImageListLength(walk: seq<WalkEntry>)
    ensures |ImageList(walk)| <= TotalFiles(walk)
  {
    ImageListIsKeptEntries(walk);
    KeptPathsLength(Entries(walk));
    EntriesLength(walk);
  }

  lemma {:induction false} KeptPathsMembership(es: seq<FileEntry>, p: string)
    ensures p in KeptPaths(es) <==> exists e :: e in es && IsImageFile(e.name) && p == Join(e.root, e.name)
  {
    if |es| > 0 {
      var init, e := es[..|es| - 1], es[|es| - 1];
      assert es == init + [e];
      KeptPathsMembership(init, p);
    }
  }

  lemma {:induction false} EntriesMembership(walk: seq<WalkEntry>, e: FileEntry)
    ensures e in Entries(walk) <==>
      exists i, j :: 0 <= i < |walk| && 0 <= j < |walk[i].files| && e == FileEntry(walk[i].root, walk[i].files[j])
  {
    if |walk| > 0 {
      var init, last := walk[..|walk| - 1], walk[|walk| - 1];
      EntriesMembership(init, e);
      var tail := EntriesOf(last.root, last.files);
      if e in tail {
        var j :| 0 <= j < |tail| && tail[j] == e;
        assert e == FileEntry(walk[|walk| - 1].root, walk[|walk| - 1].files[j]);
      }
      if exists i, j :: 0 <= i < |walk| && 0 <= j < |walk[i].files| && e == FileEntry(walk[i].root, walk[i].files[j]) {
        var i, j :| 0 <= i < |walk| && 0 <= j < |walk[i].files| && e == FileEntry(walk[i].root, walk[i].files[j]);
        if i < |walk| - 1 {
          assert walk[i] == init[i];
        } else {
          assert tail[j] == e;
        }
      }
    }
  }

  /** A path is in the scan result exactly when it is `join(root, file)` for
      some file of the walk whose name passes the filter. */
  lemma ImageListMembership(walk: seq<WalkEntry>, p: string)
    ensures p in ImageList(walk) <==>
      exists i, j :: 0 <= i < |walk| && 0 <= j < |walk[i].files| &&
        IsImageFile(walk[i].files[j]) && p == Join(walk[i].root, walk[i].files[j])
  {
    ImageListIsKeptEntries(walk);
    KeptPathsMembership(Entries(walk), p);
    if p in ImageList(walk) {
      var e :| e in Entries(walk) && IsImageFile(e.name) && p == Join(e.root, e.name);
      EntriesMembership(walk, e);
    }
    if exists i, j :: 0 <= i < |walk| && 0 <= j < |walk[i].files| &&
        IsImageFile(walk[i].files[j]) && p == Join(walk[i].root, walk[i].files[j]) {
      var i, j :| 0 <= i < |walk| && 0 <= j < |walk[i].files| &&
        IsImageFile(walk[i].files[j]) && p == Join(walk[i].root, walk[i].files[j]);
      EntriesMembership(walk, FileEntry(walk[i].root, walk[i].files[j]));
    }
  }

  // ---------------------------------------------------------------------
  // The suffix filter

  /** Every entry of the tuple is a dot followed by three or four characters. */
  lemma SuffixShapes(suf: string)
    requires suf in Suffixes
    ensures |suf| == 4 || |suf| == 5
    ensures suf[0] == '.'
  {
    assert suf in SuffixesLine1 || suf in SuffixesLine2 || suf in SuffixesLine3
        || suf in SuffixesLine4 || suf in SuffixesLine5;
  }

  /** All 46 entries are four or five characters long. */
  lemma AllSuffixShapes()
    ensures forall suf :: suf in Suffixes ==> |suf| == 4 || |suf| == 5
  {
    forall suf | suf in Suffixes
      ensures |suf| == 4 || |suf| == 5
    {
      SuffixShapes(suf);
    }
  }

  /** Against a tuple of four- and five-character entries, `endswith`
      only has to look at the last four and the last five characters. */
  lemma {:induction false} EndsWithAnyByEnding(s: string, sufs: seq<string>)
    requires forall suf :: suf in sufs ==> |suf| == 4 || |suf| == 5
    ensures EndsWithAny(s, sufs) <==>
      (|s| >= 4 && s[|s| - 4..] in sufs) || (|s| >= 5 && s[|s| - 5..] in sufs)
  {
    if |sufs| > 0 {
      var head, tail := sufs[0], sufs[1..];
      assert forall x :: x in sufs <==> x == head || x in tail;
      EndsWithAnyByEnding(s, tail);
      EndsWithShort(s, head);
    }
  }

  /** `endswith` against one entry of four or five characters. */
  lemma EndsWithShort(s: string, suf: string)
    requires |suf| == 4 || |suf| == 5
    ensures EndsWith(s, suf) <==>
      (|s| >= 4 && s[|s| - 4..] == suf) || (|s| >= 5 && s[|s| - 5..] == suf)
  {
  }

  /** Because every entry is four or five characters long, a name is kept
      exactly when the last four or the last five characters of its
      lower-cased form are themselves an entry of the tuple. */
  lemma IsImageFileByEnding(name: string)
    ensures var s := Lower(name);
      IsImageFile(name) <==>
        (|s| >= 4 && s[|s| - 4..] in Suffixes) || (|s| >= 5 && s[|s| - 5..] in Suffixes)
  {
    AllSuffixShapes();
    EndsWithAnyByEnding(Lower(name), Suffixes);
  }

  /** The upper-case entry ".HIF" is compared against a lower-cased name,
      so it never matches. */
  lemma UpperHifNeverMatches(name: string)
    ensures !EndsWith(Lower(name), ".HIF")
  {
    var s := Lower(name);
    if |s| >= 4 {
      LowerHasNoUpper(name, |s| - 3);
      assert s[|s| - 4..][1] == s[|s| - 3] != 'H';
    }
  }

  /** Dropping ".HIF" from the tuple changes nothing: a name is kept exactly
      when its lower-cased form ends with one of the other 45 entries. */
  lemma HifEntryUnreachable(name: string)
    ensures IsImageFile(name) <==> EndsWithAny(Lower(name), ReachableSuffixes)
  {
    assert SuffixesLine5 == SuffixesLine5[..9] + [".HIF"];
    assert Suffixes == ReachableSuffixes + [".HIF"];
    UpperHifNeverMatches(name);
  }

  /** Whatever the case a name is written in, the decision is the same. */
  lemma {:induction false} MatchIgnoresCase(name: string)
    ensures IsImageFile(Upper(name)) == IsImageFile(name)
  {
    LowerOfUpper(name);
  }

  /** The tuple has 46 entries; the last is ".HIF", and the 45 before it
      are already in lower case. */
  lemma SuffixTuple()
    ensures |Suffixes| == 46 && Suffixes[45] == ".HIF"
    ensures forall k :: 0 <= k < 45 ==> Lower(Suffixes[k]) == Suffixes[k]
  {
    assert Suffixes == ReachableSuffixes + [".HIF"];
    forall k | 0 <= k < 45
      ensures Lower(Suffixes[k]) == Suffixes[k]
    {
      assert Suffixes[k] in ReachableSuffixes;
      ReachableHasNoUpper(Suffixes[k]);
    }
  }

  /** None of the 45 entries other than ".HIF" holds an upper-case letter. */
  lemma ReachableHasNoUpper(x: string)
    requires x in ReachableSuffixes
    ensures forall i :: 0 <= i < |x| ==> !IsUpperAscii(x[i])
  {
    if x in SuffixesLine1 {
    } else if x in SuffixesLine2 {
    } else if x in SuffixesLine3 {
    } else if x in SuffixesLine4 {
    } else {
      assert x in SuffixesLine5[..9];
    }
  }

  /** Membership in the tuple, line by line. */
  lemma InSuffixLines(x: string)
    ensures x in Suffixes <==>
      x in SuffixesLine1 || x in SuffixesLine2 || x in SuffixesLine3 || x in SuffixesLine4 || x in SuffixesLine5
  {
  }

  /** A string that does not start with a dot is not an entry. */
  lemma NotAnEntry(x: string)
    requires |x| > 0 && x[0] != '.'
    ensures x !in Suffixes
  {
    if x in Suffixes {
      SuffixShapes(x);
    }
  }

  // Examples. Each one fixes the lower-cased name and its last four and
  // five characters, then decides membership in the tuple.

  lemma JpgIsKept()
    ensures IsImageFile("a.jpg")
  {
    var s := Lower("a.jpg");
    assert s == "a.jpg";
    assert s[|s| - 4..] == ".jpg";
    assert ".jpg" in Suffixes by { InSuffixLines(".jpg"); }
    IsImageFileByEnding("a.jpg");
  }

  lemma UpperCaseJpgIsKept()
    ensures IsImageFile("IMG_0001.JPG")
  {
    var s := Lower("IMG_0001.JPG");
    assert s == "img_0001.jpg";
    assert s[|s| - 4..] == ".jpg";
    assert ".jpg" in Suffixes by { InSuffixLines(".jpg"); }
    IsImageFileByEnding("IMG_0001.JPG");
  }

  lemma PngIsKept()
    ensures IsImageFile("b.png")
  {
    var s := Lower("b.png");
    assert s == "b.png";
    assert s[|s| - 4..] == ".png";
    assert ".png" in Suffixes by { InSuffixLines(".png"); }
    IsImageFileByEnding("b.png");
  }

  lemma RawNefIsKept()
    ensures IsImageFile("DSC_0042.NEF")
  {
    var s := Lower("DSC_0042.NEF");
    assert s == "dsc_0042.nef";
    assert s[|s| - 4..] == ".nef";
    assert ".nef" in Suffixes by { InSuffixLines(".nef"); }
    IsImageFileByEnding("DSC_0042.NEF");
  }

  /** No name whose lower-cased form ends with ".hif" is kept, whatever
      case it is written in: the tuple's ".HIF" entry never matches. */
  lemma HifNeverKept(name: string)
    requires EndsWith(Lower(name), ".hif")
    ensures !IsImageFile(name)
  {
    var s := Lower(name);
    assert s[|s| - 4..] == ".hif";
    assert ".hif" !in Suffixes by { InSuffixLines(".hif"); }
    if |s| >= 5 {
      var x := s[|s| - 5..];
      assert x[1..] == ".hif";
      assert x !in Suffixes by { InSuffixLines(x); }
    }
    IsImageFileByEnding(name);
  }

  /** No name whose lower-cased form ends with ".tiff" is kept: only ".tif"
      is listed. */
  lemma TiffNeverKept(name: string)
    requires EndsWith(Lower(name), ".tiff")
    ensures !IsImageFile(name)
  {
    var s := Lower(name);
    assert s[|s| - 5..] == ".tiff" && s[|s| - 4..] == "tiff";
    assert ".tiff" !in Suffixes by { InSuffixLines(".tiff"); }
    NotAnEntry("tiff");
    IsImageFileByEnding(name);
  }

  /** No name whose lower-cased form ends with ".heic" is kept: no entry
      of the tuple is a HEIF extension that can match. */
  lemma HeicNeverKept(name: string)
    requires EndsWith(Lower(name), ".heic")
    ensures !IsImageFile(name)
  {
    var s := Lower(name);
    assert s[|s| - 5..] == ".heic" && s[|s| - 4..] == "heic";
    assert ".heic" !in Suffixes by { InSuffixLines(".heic"); }
    NotAnEntry("heic");
    IsImageFileByEnding(name);
  }

  /** The HEIF file a camera writes, with the upper-case extension the
      tuple lists, is dropped. */
  lemma UpperCaseHifIsDropped()
    ensures !IsImageFile("C.HIF")
  {
    var s := Lower("C.HIF");
    assert s == "c.hif";
    HifNeverKept("C.HIF");
  }

  lemma TextFileIsDropped()
    ensures !IsImageFile("c.txt")
  {
    var s := Lower("c.txt");
    assert s == "c.txt";
    assert s[|s| - 4..] == ".txt" && s[|s| - 5..] == "c.txt";
    assert ".txt" !in Suffixes by { InSuffixLines(".txt"); }
    NotAnEntry("c.txt");
    IsImageFileByEnding("c.txt");
  }
}
