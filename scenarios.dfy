/** A folder walked, scanned and filtered by date, end to end. */
module Scenarios {
  import opened Wrappers
  import opened Paths
  import opened Dates
  import opened Metadata
  import opened Scanner
  import opened DateFilter

  const CardWalk: seq<WalkEntry> := [WalkEntry("/card", [], ["a.jpg", "b.png", "c.txt"])]

  /** Listing one more file extends the kept paths by at most that file. */
  lemma KeptInSnoc(root: string, files: seq<string>, name: string)
    ensures KeptIn(root, files + [name]) ==
      KeptIn(root, files) + (if IsImageFile(name) then [Join(root, name)] else [])
  {
    assert (files + [name])[..|files|] == files;
  }

  /** The scan lists the two images and skips the text file. */
  lemma CardScan()
    ensures ImageList(CardWalk) == ["/card/a.jpg", "/card/b.png"]
  {
    CardFiles();
    assert CardWalk[..0] == [];
  }

  lemma CardFiles()
    ensures KeptIn("/card", ["a.jpg", "b.png", "c.txt"]) == ["/card/a.jpg", "/card/b.png"]
  {
    CardFirstTwo();
    KeptInSnoc("/card", ["a.jpg", "b.png"], "c.txt");
    TextFileIsDropped();
    assert ["a.jpg", "b.png"] + ["c.txt"] == ["a.jpg", "b.png", "c.txt"];
  }

  lemma CardFirstTwo()
    ensures KeptIn("/card", ["a.jpg", "b.png"]) == ["/card/a.jpg", "/card/b.png"]
  {
    CardFirst();
    KeptInSnoc("/card", ["a.jpg"], "b.png");
    PngIsKept();
    assert Join("/card", "b.png") == "/card/b.png";
    assert ["a.jpg"] + ["b.png"] == ["a.jpg", "b.png"];
  }

  lemma CardFirst()
    ensures KeptIn("/card", ["a.jpg"]) == ["/card/a.jpg"]
  {
    KeptInSnoc("/card", [], "a.jpg");
    JpgIsKept();
    assert Join("/card", "a.jpg") == "/card/a.jpg";
    assert [] + ["a.jpg"] == ["a.jpg"];
  }

  /** Whatever else the files carry: when a.jpg holds a camera-written
      `DateTime` of 1 May 2023 and b.png has no EXIF block and was modified
      on 10 June 2023, filtering May 2023 keeps a.jpg and drops b.png. */
  lemma CardFilterMay(meta: string -> FileMeta, taken: DateTime, others: seq<ExifEntry>, aModified: Option<Date>)
    requires ValidDateTime(taken) && taken.date == Date(2023, 5, 1)
    requires meta("/card/a.jpg") == FileMeta(Some([ExifEntry(DateTimeTag, FormatExifDateTime(taken))] + others), aModified)
    requires meta("/card/b.png") == FileMeta(None, Some(Date(2023, 6, 10)))
    ensures DateFiltered(ImageList(CardWalk), meta, Date(2023, 5, 1), Date(2023, 5, 31))
      == Some(["/card/a.jpg"])
  {
    CardScan();
    EffectiveDateOfCameraValue(taken, others, aModified);
    CardFilterByDates(meta);
  }

  /** The date filter on the two scanned paths, given their dates. */
  lemma CardFilterByDates(meta: string -> FileMeta)
    requires EffectiveDate(meta("/card/a.jpg")) == Some(Date(2023, 5, 1))
    requires EffectiveDate(meta("/card/b.png")) == Some(Date(2023, 6, 10))
    ensures DateFiltered(["/card/a.jpg", "/card/b.png"], meta, Date(2023, 5, 1), Date(2023, 5, 31))
      == Some(["/card/a.jpg"])
  {
    var start, end := Date(2023, 5, 1), Date(2023, 5, 31);
    FilterTwoPaths("/card/a.jpg", "/card/b.png", meta, start, end);
    assert InRange(Date(2023, 5, 1), start, end) && !InRange(Date(2023, 6, 10), start, end);
    assert ["/card/a.jpg"] + [] == ["/card/a.jpg"];
  }

  lemma FilterOnePath(b: string, meta: string -> FileMeta, start: Date, end: Date)
    requires EffectiveDate(meta(b)).Some?
    ensures DateFiltered([b], meta, start, end) ==
      Some(if InRange(EffectiveDate(meta(b)).value, start, end) then [b] else [])
  {
    assert [b][1..] == [] && [b][0] == b;
    assert DateFiltered([b][1..], meta, start, end) == Some([]);
    assert [b] + [] == [b];
  }

  lemma FilterTwoPaths(a: string, b: string, meta: string -> FileMeta, start: Date, end: Date)
    requires EffectiveDate(meta(a)).Some? && EffectiveDate(meta(b)).Some?
    ensures DateFiltered([a, b], meta, start, end) ==
      Some((if InRange(EffectiveDate(meta(a)).value, start, end) then [a] else []) +
           (if InRange(EffectiveDate(meta(b)).value, start, end) then [b] else []))
  {
    FilterOnePath(b, meta, start, end);
    var paths := [a, b];
    assert paths[0] == a && paths[1..] == [b];
    var rest := DateFiltered(paths[1..], meta, start, end).value;
    var da := EffectiveDate(meta(a)).value;
    assert DateFiltered(paths, meta, start, end) == Some(if InRange(da, start, end) then [a] + rest else rest);
    var keepA: seq<string> := if InRange(da, start, end) then [a] else [];
    assert keepA + rest == if InRange(da, start, end) then [a] + rest else rest;
  }
}
