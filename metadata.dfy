/** The effective date of `get_image_date`: the EXIF `DateTime` value when
    it parses, the file's modification date otherwise. Opening the image and
    decoding its EXIF block, and reading the modification time, happen
    outside the model: their outcomes are the fields of `FileMeta`. */
module Metadata {
  import opened Wrappers
  import opened Dates

  /** One item of the EXIF dictionary, its numeric tag already mapped to a
      name through the library's tag table ("" when the table has none). */
  datatype ExifEntry = ExifEntry(tag: string, value: string)

  /** What the image library and the filesystem report for one path:
      `exif` is None when the image cannot be opened or carries no EXIF
      block; `mtime` is the local date of the modification time, None when
      reading it raises (the file is gone). */
  datatype FileMeta = FileMeta(exif: Option<seq<ExifEntry>>, mtime: Option<Date>)

  const DateTimeTag: string := "DateTime"

  /** The value of the first entry carrying `tag`, scanning in dictionary
      order. */
  function FindTag(entries: seq<ExifEntry>, tag: string): (r: Option<string>)
    ensures r.None? <==> forall i :: 0 <= i < |entries| ==> entries[i].tag != tag
    ensures r.Some? ==> exists i :: 0 <= i < |entries| && entries[i] == ExifEntry(tag, r.value) &&
                          forall j :: 0 <= j < i ==> entries[j].tag != tag
  {
    if |entries| == 0 then None
    else if entries[0].tag == tag then Some(entries[0].value)
    else
      FindTag(entries[1..], tag)
  }

  /** The date the EXIF block supplies: the first `DateTime` entry, parsed.
      When that value does not parse the search stops there: the parse
      error is caught outside the loop. */
  function ExifDate(exif: Option<seq<ExifEntry>>): Option<Date> {
    match exif
    case None => None
    case Some(entries) =>
      match FindTag(entries, DateTimeTag)
      case None => None
      case Some(text) =>
        match ParseExifDateTime(text)
        case None => None
        case Some(dt) => Some(dt.date)
  }

  /** `get_image_date`; None stands for the exception that reading the
      modification time raises for a vanished file. */
  function EffectiveDate(m: FileMeta): (r: Option<Date>)
    ensures r == m.mtime || (r.Some? && r == ExifDate(m.exif))
    ensures r.None? ==> m.mtime.None?
  {
    match ExifDate(m.exif)
    case Some(d) => Some(d)
    case None => m.mtime
  }

  /** The first `DateTime` entry decides: when its value parses, the
      effective date is that value's date, whatever the modification time. */
  lemma EffectiveDateFromExif(m: FileMeta, i: int, dt: DateTime)
    requires m.exif.Some? && 0 <= i < |m.exif.value|
    requires m.exif.value[i].tag == DateTimeTag
    requires forall j :: 0 <= j < i ==> m.exif.value[j].tag != DateTimeTag
    requires ParseExifDateTime(m.exif.value[i].value) == Some(dt)
    ensures EffectiveDate(m) == Some(dt.date)
  {
    var es := m.exif.value;
    var r := FindTag(es, DateTimeTag);
    var k :| 0 <= k < |es| && es[k] == ExifEntry(DateTimeTag, r.value) &&
             forall j :: 0 <= j < k ==> es[j].tag != DateTimeTag;
    assert k == i;
  }

  /** No EXIF block, or no `DateTime` entry in it: the modification date. */
  lemma EffectiveDateWithoutTag(m: FileMeta)
    requires m.exif.None? || forall i :: 0 <= i < |m.exif.value| ==> m.exif.value[i].tag != DateTimeTag
    ensures EffectiveDate(m) == m.mtime
  {
  }

  /** A first `DateTime` entry that does not parse (wrong layout, or a date
      or time out of range) also gives the modification date, even when a
      later entry would parse. */
  lemma EffectiveDateOnBadValue(m: FileMeta, i: int)
    requires m.exif.Some? && 0 <= i < |m.exif.value|
    requires m.exif.value[i].tag == DateTimeTag
    requires forall j :: 0 <= j < i ==> m.exif.value[j].tag != DateTimeTag
    requires ParseExifDateTime(m.exif.value[i].value).None?
    ensures EffectiveDate(m) == m.mtime
  {
    var es := m.exif.value;
    var r := FindTag(es, DateTimeTag);
    var k :| 0 <= k < |es| && es[k] == ExifEntry(DateTimeTag, r.value) &&
             forall j :: 0 <= j < k ==> es[j].tag != DateTimeTag;
    assert k == i;
  }

  /** A camera-written `DateTime` gives back the date it was written from. */
  lemma EffectiveDateOfCameraValue(dt: DateTime, others: seq<ExifEntry>, mtime: Option<Date>)
    requires ValidDateTime(dt)
    ensures EffectiveDate(FileMeta(Some([ExifEntry(DateTimeTag, FormatExifDateTime(dt))] + others), mtime))
      == Some(dt.date)
  {
    ParseFormatRoundTrip(dt);
    var es := [ExifEntry(DateTimeTag, FormatExifDateTime(dt))] + others;
    EffectiveDateFromExif(FileMeta(Some(es), mtime), 0, dt);
  }
}
