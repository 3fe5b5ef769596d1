/** The viewer window's state: the scanned paths (`images`) and the entries
    of the thumbnail list (`items`), with the handlers that change them.
    Widgets, dialogs and thumbnails are not modelled; the answers of the
    confirmation dialog and of the filesystem are parameters. */
module Viewer {
  import opened Wrappers
  import opened Paths
  import opened Dates
  import opened Metadata
  import opened Scanner
  import opened DateFilter
  import opened Items

  /** What the delete handler did: nothing was selected (an information box
      is shown), the user declined, or the selected files were removed, with
      the paths whose removal succeeded and those whose removal raised (an
      error box is shown for each). */
  datatype DeleteOutcome =
    | NothingSelected
    | Declined
    | Deleted(removed: seq<string>, failed: seq<string>)

  /** The paths of `chosen` whose removal flag equals `outcome`, in order. */
  function PathsWhere(chosen: seq<Item>, ok: seq<bool>, outcome: bool): seq<string>
    requires |ok| == |chosen|
  {
    if |chosen| == 0 then []
    else
      var n := |chosen| - 1;
      PathsWhere(chosen[..n], ok[..n], outcome) + (if ok[n] == outcome then [chosen[n].path] else [])
  }

  /** Every selected file ends up reported once, as removed or as failed. */
  lemma {:induction false} RemovalReportCovers(chosen: seq<Item>, ok: seq<bool>)
    requires |ok| == |chosen|
    ensures |PathsWhere(chosen, ok, true)| + |PathsWhere(chosen, ok, false)| == |chosen|
    ensures forall k :: 0 <= k < |chosen| ==> chosen[k].path in PathsWhere(chosen, ok, ok[k])
  {
    if |chosen| > 0 {
      var n := |chosen| - 1;
      RemovalReportCovers(chosen[..n], ok[..n]);
      forall k | 0 <= k < n ensures chosen[k].path in PathsWhere(chosen, ok, ok[k]) {
        assert chosen[..n][k] == chosen[k] && ok[..n][k] == ok[k];
      }
    }
  }

  /** The report after one more selected entry. */
  lemma PathsWhereStep(chosen: seq<Item>, ok: seq<bool>, k: int, outcome: bool)
    requires |ok| == |chosen| && 0 <= k < |chosen|
    ensures PathsWhere(chosen[..k + 1], ok[..k + 1], outcome) ==
      PathsWhere(chosen[..k], ok[..k], outcome) + (if ok[k] == outcome then [chosen[k].path] else [])
  {
    assert chosen[..k + 1][..k] == chosen[..k] && ok[..k + 1][..k] == ok[..k];
  }

  class App {
    var images: seq<string>
    var items: seq<Item>

    /** The entries are distinct objects. */
    ghost predicate Valid()
      reads this
    {
      IdsIncreasing(items)
    }

    /** The window starts on a scan of its folder and lists it. */
    constructor (walk: seq<WalkEntry>)
      ensures Valid()
      ensures images == ImageList(walk)
      ensures items == ItemsFor(images)
    {
      var scanned := CreateImageList(walk);
      images := scanned;
      items := [];
      new;
      LoadImages();
    }

    /** `load_images`: clear the list, then add one unchecked entry per path. */
    method LoadImages()
      modifies this
      ensures images == old(images)
      ensures items == ItemsFor(images)
      ensures Valid()
    {
      items := [];
      var i := 0;
      while i < |images|
        invariant 0 <= i <= |images| && images == old(images)
        invariant items == ItemsFor(images)[..i]
      {
        items := items + [Item(i, Basename(images[i]), images[i], false, false)];
        assert ItemsFor(images)[..i + 1] == ItemsFor(images)[..i] + [ItemsFor(images)[i]];
        i := i + 1;
      }
      assert ItemsFor(images)[..i] == ItemsFor(images);
      assert IdsIncreasing(items) by {
        LoadedItems(images);
      }
    }

    /** `on_item_changed`: the entry's selection follows its check box. */
    method OnItemChanged(row: int)
      requires Valid() && 0 <= row < |items|
      modifies this
      ensures images == old(images) && Valid()
      ensures items == old(items)[row := old(items)[row].(selected := old(items)[row].checked)]
    {
      items := items[row := items[row].(selected := items[row].checked)];
    }

    /** The user ticks or clears the check box of an entry. The list emits
        `itemChanged` only when the state really changes, and the handler
        then makes the selection follow. */
    method SetCheckState(row: int, checked: bool)
      requires Valid() && 0 <= row < |items|
      modifies this
      ensures images == old(images) && Valid()
      ensures old(items)[row].checked != checked ==>
        items == old(items)[row := old(items)[row].(checked := checked, selected := checked)]
      ensures old(items)[row].checked == checked ==> items == old(items)
    {
      if items[row].checked != checked {
        items := items[row := items[row].(checked := checked)];
        OnItemChanged(row);
      }
    }

    /** `select_all_images` */
    method SelectAll()
      requires Valid()
      modifies this
      ensures images == old(images) && Valid()
      ensures items == WithSelection(old(items), true)
    {
      var index := 0;
      while index < |items|
        invariant 0 <= index <= |items| && |items| == |old(items)| && images == old(images)
        invariant forall i :: 0 <= i < index ==> items[i] == old(items)[i].(selected := true)
        invariant forall i :: index <= i < |items| ==> items[i] == old(items)[i]
      {
        items := items[index := items[index].(selected := true)];
        index := index + 1;
      }
    }

    /** `deselect_all_images` */
    method DeselectAll()
      requires Valid()
      modifies this
      ensures images == old(images) && Valid()
      ensures items == WithSelection(old(items), false)
    {
      var index := 0;
      while index < |items|
        invariant 0 <= index <= |items| && |items| == |old(items)| && images == old(images)
        invariant forall i :: 0 <= i < index ==> items[i] == old(items)[i].(selected := false)
        invariant forall i :: index <= i < |items| ==> items[i] == old(items)[i]
      {
        items := items[index := items[index].(selected := false)];
        index := index + 1;
      }
    }

    /** `apply_date_filter`: scan the folder again and keep the paths whose
        effective date lies in the range, then reload the list. What the
        list held before plays no part. If reading a date raises, the
        exception leaves before either field is assigned. */
    method ApplyDateFilter(walk: seq<WalkEntry>, meta: string -> FileMeta, start: Date, end: Date)
      requires Valid()
      modifies this
      ensures Valid()
      ensures match DateFiltered(ImageList(walk), meta, start, end)
        case Some(kept) => images == kept && items == ItemsFor(kept)
        case None => images == old(images) && items == old(items)
    {
      var scanned := CreateImageList(walk);
      var filtered := DateFiltered(scanned, meta, start, end);
      if filtered.Some? {
        images := filtered.value;
        LoadImages();
      }
    }

    /** The loop of `delete_images` over the selected entries: remove each
        file, record whether that worked, and either way take the entry out
        of the list at the row `row(item)` finds. The list is updated in a
        local copy that is stored back when the loop ends. */
    method RemoveSelected(removalOk: seq<bool>) returns (removed: seq<string>, failed: seq<string>)
      requires Valid()
      requires |removalOk| == |Selected(items)|
      modifies this
      ensures images == old(images) && Valid()
      ensures items == Unselected(old(items))
      ensures removed == PathsWhere(Selected(old(items)), removalOk, true)
      ensures failed == PathsWhere(Selected(old(items)), removalOk, false)
    {
      var chosen := Selected(items);
      ghost var orig := items;
      var list := items;
      removed := [];
      failed := [];
      var k := 0;
      assert IdSet(chosen[..0]) == {};
      WithoutNothing(orig);
      while k < |chosen|
        invariant 0 <= k <= |chosen| && images == old(images) && items == old(items)
        invariant list == Without(orig, IdSet(chosen[..k]))
        invariant IdsIncreasing(list)
        invariant removed == PathsWhere(chosen[..k], removalOk[..k], true)
        invariant failed == PathsWhere(chosen[..k], removalOk[..k], false)
      {
        var item := chosen[k];
        if removalOk[k] {
          removed := removed + [item.path];
        } else {
          failed := failed + [item.path];
        }
        PathsWhereStep(chosen, removalOk, k, true);
        PathsWhereStep(chosen, removalOk, k, false);
        NextSelectedStillListed(orig, k);
        var row := RowOf(list, item.id);
        assert 0 <= row by {
          var i :| 0 <= i < |list| && list[i] == item;
        }
        DeleteStep(orig, k, list, row);
        list := list[..row] + list[row + 1..];
        k := k + 1;
      }
      assert chosen[..k] == chosen && removalOk[..k] == removalOk;
      WithoutSelected(orig);
      items := list;
    }

    /** `delete_images`. `confirmed` is the answer to the confirmation
        question; `removalOk[k]` says whether removing the file of the k-th
        selected entry succeeded. Every selected entry leaves the list once
        the user confirms, whether or not its file could be removed. */
    method DeleteImages(confirmed: bool, removalOk: seq<bool>) returns (outcome: DeleteOutcome)
      requires Valid()
      requires |removalOk| == |Selected(items)|
      modifies this
      ensures images == old(images) && Valid()
      ensures Selected(old(items)) == [] ==> outcome == NothingSelected && items == old(items)
      ensures Selected(old(items)) != [] && !confirmed ==> outcome == Declined && items == old(items)
      ensures Selected(old(items)) != [] && confirmed ==>
        && items == Unselected(old(items))
        && outcome == Deleted(PathsWhere(Selected(old(items)), removalOk, true),
                              PathsWhere(Selected(old(items)), removalOk, false))
    {
      var chosen := Selected(items);
      if |chosen| == 0 {
        return NothingSelected;
      }
      if !confirmed {
        return Declined;
      }
      var removed, failed := RemoveSelected(removalOk);
      outcome := Deleted(removed, failed);
    }
  }
}
