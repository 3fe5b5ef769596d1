/** The date filter of `apply_date_filter`: a fresh scan, kept in order,
    restricted to the paths whose effective date lies in the inclusive range
    chosen in the two date pickers. */
module DateFilter {
  import opened Wrappers
  import opened Dates
  import opened Metadata
  import opened Sequences

  /** `start_date <= date <= end_date` */
  predicate InRange(d: Date, start: Date, end: Date) {
    DateLe(start, d) && DateLe(d, end)
  }

  /** The comprehension over the scanned paths. The effective date of each
      path is read in order; if one of them raises, the whole filter raises
      (None) and no list is produced. */
  function DateFiltered(paths: seq<string>, meta: string -> FileMeta, start: Date, end: Date)
    : Option<seq<string>>
  {
    if |paths| == 0 then Some([])
    else
      match EffectiveDate(meta(paths[0]))
      case None => None
      case Some(d) =>
        match DateFiltered(paths[1..], meta, start, end)
        case None => None
        case Some(rest) => Some(if InRange(d, start, end) then [paths[0]] + rest else rest)
  }

  /** The filter produces a list exactly when every path has an effective
      date. */
  lemma {:induction false} DateFilteredDefined(paths: seq<string>, meta: string -> FileMeta, start: Date, end: Date)
    ensures DateFiltered(paths, meta, start, end).Some? <==>
      forall i :: 0 <= i < |paths| ==> EffectiveDate(meta(paths[i])).Some?
  {
    if |paths| > 0 {
      DateFilteredDefined(paths[1..], meta, start, end);
      assert forall i :: 1 <= i < |paths| ==> paths[i] == paths[1..][i - 1];
    }
  }

  /** A path is kept exactly when it was scanned and its effective date lies
      between the two bounds, both included. */
  lemma DateFilteredMembership(paths: seq<string>, meta: string -> FileMeta, start: Date, end: Date, p: string)
    requires DateFiltered(paths, meta, start, end).Some?
    ensures EffectiveDate(meta(p)).Some? || p !in paths
    ensures p in DateFiltered(paths, meta, start, end).value <==>
      p in paths && InRange(EffectiveDate(meta(p)).value, start, end)
  {
    DateFilteredDefined(paths, meta, start, end);
    if p in paths {
      var i :| 0 <= i < |paths| && paths[i] == p;
    }
    KeptIffInRange(paths, meta, start, end, p);
  }

  lemma {:induction false} KeptIffInRange(paths: seq<string>, meta: string -> FileMeta, start: Date, end: Date, p: string)
    requires DateFiltered(paths, meta, start, end).Some?
    requires p in paths ==> EffectiveDate(meta(p)).Some?
    ensures p in DateFiltered(paths, meta, start, end).value <==>
      p in paths && InRange(EffectiveDate(meta(p)).value, start, end)
  {
    if |paths| > 0 {
      assert paths == [paths[0]] + paths[1..];
      KeptIffInRange(paths[1..], meta, start, end, p);
    }
  }

  /** The kept paths appear in the order the scan produced them. */
  lemma {:induction false} DateFilteredIsSubsequence(paths: seq<string>, meta: string -> FileMeta, start: Date, end: Date)
    requires DateFiltered(paths, meta, start, end).Some?
    ensures IsSubsequence(DateFiltered(paths, meta, start, end).value, paths)
  {
    if |paths| > 0 {
      DateFilteredIsSubsequence(paths[1..], meta, start, end);
      var out := DateFiltered(paths, meta, start, end).value;
      var rest := DateFiltered(paths[1..], meta, start, end).value;
      if out != rest {
        assert out == [paths[0]] + rest;
        assert out[1..] == rest;
      }
    }
  }

  /** Filtering a filtered list again with the same range changes nothing. */
  lemma {:induction false} DateFilteredIdempotent(paths: seq<string>, meta: string -> FileMeta, start: Date, end: Date)
    requires DateFiltered(paths, meta, start, end).Some?
    ensures DateFiltered(DateFiltered(paths, meta, start, end).value, meta, start, end)
      == DateFiltered(paths, meta, start, end)
  {
    if |paths| > 0 {
      DateFilteredIdempotent(paths[1..], meta, start, end);
      var out := DateFiltered(paths, meta, start, end).value;
      var rest := DateFiltered(paths[1..], meta, start, end).value;
      if out != rest {
        assert out[1..] == rest;
      }
    }
  }

  lemma DateLeTransitive(a: Date, b: Date, c: Date)
    requires DateLe(a, b) && DateLe(b, c)
    ensures DateLe(a, c)
  {
  }

  /** A range whose start lies after its end keeps nothing. */
  lemma EmptyRangeKeepsNothing(paths: seq<string>, meta: string -> FileMeta, start: Date, end: Date)
    requires !DateLe(start, end)
    requires DateFiltered(paths, meta, start, end).Some?
    ensures DateFiltered(paths, meta, start, end).value == []
  {
    var out := DateFiltered(paths, meta, start, end).value;
    if out != [] {
      DateFilteredMembership(paths, meta, start, end, out[0]);
      var d := EffectiveDate(meta(out[0])).value;
      DateLeTransitive(start, d, end);
    }
  }
}
