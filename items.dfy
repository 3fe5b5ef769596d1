/** The entries of the thumbnail list: what `load_images` puts in it, the
    selection helpers, and the row lookup and removal the delete step uses. */
module Items {
  import opened Paths
  import opened Sequences

  /** One list entry. `id` stands for the identity of the widget item
      object (what `row(item)` looks up), `name` is its text (the file's
      base name), `path` the full path stored with it. */
  datatype Item = Item(id: nat, name: string, path: string, selected: bool, checked: bool)

  /** Distinct item objects: their ids increase down the list. */
  predicate IdsIncreasing(items: seq<Item>) {
    forall i, j :: 0 <= i < j < |items| ==> items[i].id < items[j].id
  }

  /** The entries `load_images` creates, one per path, unchecked and not
      selected. */
  function ItemsFor(images: seq<string>): (items: seq<Item>)
    ensures |items| == |images|
    ensures forall i :: 0 <= i < |images| ==> items[i] == Item(i, Basename(images[i]), images[i], false, false)
  {
    seq(|images|, i requires 0 <= i < |images| => Item(i, Basename(images[i]), images[i], false, false))
  }

  /** The selected entries, top to bottom (the comprehension of the delete step). */
  function Selected(items: seq<Item>): seq<Item> {
    if |items| == 0 then []
    else (if items[0].selected then [items[0]] else []) + Selected(items[1..])
  }

  /** The entries that are not selected, top to bottom. */
  function Unselected(items: seq<Item>): seq<Item> {
    if |items| == 0 then []
    else (if items[0].selected then [] else [items[0]]) + Unselected(items[1..])
  }

  /** Every entry with its selection flag set to `b`. */
  function WithSelection(items: seq<Item>, b: bool): seq<Item> {
    seq(|items|, i requires 0 <= i < |items| => items[i].(selected := b))
  }

  /** The entries whose id is not in `gone`. */
  function Without(items: seq<Item>, gone: set<nat>): seq<Item> {
    if |items| == 0 then []
    else (if items[0].id in gone then [] else [items[0]]) + Without(items[1..], gone)
  }

  function IdSet(items: seq<Item>): set<nat> {
    set x | x in items :: x.id
  }

  /** `row(item)`: the position of the entry with the given id, or -1. */
  method RowOf(items: seq<Item>, id: nat) returns (row: int)
    ensures -1 <= row < |items|
    ensures 0 <= row ==> items[row].id == id
    ensures row == -1 <==> forall i :: 0 <= i < |items| ==> items[i].id != id
  {
    row := 0;
    while row < |items|
      invariant 0 <= row <= |items|
      invariant forall i :: 0 <= i < row ==> items[i].id != id
    {
      if items[row].id == id {
        return;
      }
      row := row + 1;
    }
    row := -1;
  }

  // ---------------------------------------------------------------------
  // Selection

  lemma {:induction false} SelectedMembership(items: seq<Item>, x: Item)
    ensures x in Selected(items) <==> x in items && x.selected
    ensures x in Unselected(items) <==> x in items && !x.selected
  {
    if |items| > 0 {
      SelectedMembership(items[1..], x);
      assert items == [items[0]] + items[1..];
    }
  }

  /** Every entry is either selected or not: the two lists split the list. */
  lemma {:induction false} SelectionPartition(items: seq<Item>)
    ensures |Selected(items)| + |Unselected(items)| == |items|
  {
    if |items| > 0 {
      SelectionPartition(items[1..]);
    }
  }

  /** The entries that stay keep their relative order. */
  lemma {:induction false} UnselectedIsSubsequence(items: seq<Item>)
    ensures IsSubsequence(Unselected(items), items)
  {
    if |items| > 0 {
      UnselectedIsSubsequence(items[1..]);
      if !items[0].selected {
        assert Unselected(items)[1..] == Unselected(items[1..]);
      } else {
        assert Unselected(items) == Unselected(items[1..]);
      }
    }
  }

  /** With nothing selected, nothing is dropped. */
  lemma {:induction false} NothingSelectedKeepsAll(items: seq<Item>)
    requires Selected(items) == []
    ensures Unselected(items) == items
  {
    if |items| > 0 {
      assert !items[0].selected;
      NothingSelectedKeepsAll(items[1..]);
    }
  }

  /** After select-all every entry is selected, so deleting would empty the list. */
  lemma {:induction false} AllSelected(items: seq<Item>)
    ensures Selected(WithSelection(items, true)) == WithSelection(items, true)
    ensures Unselected(WithSelection(items, true)) == []
  {
    if |items| > 0 {
      AllSelected(items[1..]);
      assert WithSelection(items, true)[1..] == WithSelection(items[1..], true);
    }
  }

  /** Nothing is selected exactly when no entry carries the flag. */
  lemma {:induction false} SelectedEmpty(items: seq<Item>)
    ensures Selected(items) == [] <==> forall i :: 0 <= i < |items| ==> !items[i].selected
  {
    if |items| > 0 {
      SelectedEmpty(items[1..]);
      assert forall i :: 1 <= i < |items| ==> items[i] == items[1..][i - 1];
    }
  }

  /** After deselect-all no entry is selected. */
  lemma NoneSelected(items: seq<Item>)
    ensures Selected(WithSelection(items, false)) == []
  {
    SelectedEmpty(WithSelection(items, false));
  }

  /** Freshly loaded entries are distinct and none is selected. */
  lemma LoadedItems(images: seq<string>)
    ensures IdsIncreasing(ItemsFor(images))
    ensures Selected(ItemsFor(images)) == []
  {
    SelectedEmpty(ItemsFor(images));
  }

  lemma {:induction false} SelectedIncreasing(items: seq<Item>)
    requires IdsIncreasing(items)
    ensures IdsIncreasing(Selected(items))
  {
    if |items| > 0 {
      SelectedIncreasing(items[1..]);
      var rest := Selected(items[1..]);
      forall j | 0 <= j < |rest| ensures items[0].id < rest[j].id {
        SelectedMembership(items[1..], rest[j]);
      }
    }
  }

  // ---------------------------------------------------------------------
  // Removing entries by identity

  lemma {:induction false} WithoutMembership(items: seq<Item>, gone: set<nat>, x: Item)
    ensures x in Without(items, gone) <==> x in items && x.id !in gone
  {
    if |items| > 0 {
      WithoutMembership(items[1..], gone, x);
      assert items == [items[0]] + items[1..];
    }
  }

  lemma {:induction false} WithoutNothing(items: seq<Item>)
    ensures Without(items, {}) == items
  {
    if |items| > 0 {
      WithoutNothing(items[1..]);
    }
  }

  lemma {:induction false} WithoutIncreasing(items: seq<Item>, gone: set<nat>)
    requires IdsIncreasing(items)
    ensures IdsIncreasing(Without(items, gone))
  {
    if |items| > 0 {
      WithoutIncreasing(items[1..], gone);
      var rest := Without(items[1..], gone);
      forall j | 0 <= j < |rest| ensures items[0].id < rest[j].id {
        WithoutMembership(items[1..], gone, rest[j]);
      }
    }
  }

  lemma {:induction false} WithoutAbsentId(items: seq<Item>, gone: set<nat>, id: nat)
    requires forall i :: 0 <= i < |items| ==> items[i].id != id
    ensures Without(items, gone + {id}) == Without(items, gone)
  {
    if |items| > 0 {
      WithoutAbsentId(items[1..], gone, id);
    }
  }

  /** Taking out the entry at `row` of the remaining list is the same as
      adding its id to the removed ones. */
  lemma {:induction false} TakeRow(items: seq<Item>, gone: set<nat>, row: int)
    requires IdsIncreasing(items)
    requires 0 <= row < |Without(items, gone)|
    ensures var w := Without(items, gone);
      w[..row] + w[row + 1..] == Without(items, gone + {w[row].id})
  {
    if items[0].id in gone {
      TakeRow(items[1..], gone, row);
      assert Without(items, gone) == Without(items[1..], gone);
      assert Without(items, gone + {Without(items, gone)[row].id})
          == Without(items[1..], gone + {Without(items, gone)[row].id});
    } else if row == 0 {
      var id := items[0].id;
      WithoutAbsentId(items[1..], gone, id);
      assert Without(items, gone) == [items[0]] + Without(items[1..], gone);
      assert Without(items, gone + {id}) == Without(items[1..], gone + {id});
    } else {
      TakeRow(items[1..], gone, row - 1);
      TakeLaterRow(items, gone, row);
    }
  }

  /** The step of `TakeRow` for a row below a kept first entry. */
  lemma TakeLaterRow(items: seq<Item>, gone: set<nat>, row: int)
    requires IdsIncreasing(items)
    requires |items| > 0 && items[0].id !in gone
    requires 1 <= row < |Without(items, gone)|
    requires var r := Without(items[1..], gone);
      r[..row - 1] + r[row..] == Without(items[1..], gone + {r[row - 1].id})
    ensures var w := Without(items, gone);
      w[..row] + w[row + 1..] == Without(items, gone + {w[row].id})
  {
    var w := Without(items, gone);
    var rest := Without(items[1..], gone);
    assert w == [items[0]] + rest;
    var id := rest[row - 1].id;
    assert w[row].id == id;
    assert id != items[0].id by {
      WithoutMembership(items[1..], gone, rest[row - 1]);
    }
    calc {
      w[..row] + w[row + 1..];
      { assert w[..row] == [items[0]] + rest[..row - 1];
        assert w[row + 1..] == rest[row..]; }
      [items[0]] + (rest[..row - 1] + rest[row..]);
      [items[0]] + Without(items[1..], gone + {id});
      Without(items, gone + {id});
    }
  }

  lemma {:induction false} WithoutByFlag(items: seq<Item>, gone: set<nat>)
    requires forall i :: 0 <= i < |items| ==> (items[i].id in gone <==> items[i].selected)
    ensures Without(items, gone) == Unselected(items)
  {
    if |items| > 0 {
      WithoutByFlag(items[1..], gone);
    }
  }

  /** While the delete step works through the selected entries in order,
      the next one has not been taken out yet. */
  lemma NextSelectedStillListed(items: seq<Item>, k: int)
    requires IdsIncreasing(items)
    requires 0 <= k < |Selected(items)|
    ensures Selected(items)[k] in Without(items, IdSet(Selected(items)[..k]))
  {
    var chosen := Selected(items);
    var item := chosen[k];
    SelectedMembership(items, item);
    SelectedIncreasing(items);
    forall x | x in chosen[..k] ensures x.id != item.id {
      var j :| 0 <= j < k && chosen[..k][j] == x;
    }
    WithoutMembership(items, IdSet(chosen[..k]), item);
  }

  /** One step of the delete loop: taking out the row of the k-th selected
      entry removes exactly that entry's identity, and the ids stay
      increasing. */
  lemma DeleteStep(items: seq<Item>, k: int, before: seq<Item>, row: int)
    requires IdsIncreasing(items)
    requires 0 <= k < |Selected(items)|
    requires before == Without(items, IdSet(Selected(items)[..k]))
    requires 0 <= row < |before| && before[row].id == Selected(items)[k].id
    ensures before[..row] + before[row + 1..] == Without(items, IdSet(Selected(items)[..k + 1]))
    ensures IdsIncreasing(before[..row] + before[row + 1..])
  {
    var chosen := Selected(items);
    TakeRow(items, IdSet(chosen[..k]), row);
    IdSetExtend(chosen, k);
    WithoutIncreasing(items, IdSet(chosen[..k + 1]));
  }

  lemma IdSetExtend(xs: seq<Item>, k: int)
    requires 0 <= k < |xs|
    ensures IdSet(xs[..k + 1]) == IdSet(xs[..k]) + {xs[k].id}
  {
    assert xs[..k + 1] == xs[..k] + [xs[k]];
  }

  /** Removing the ids of all selected entries leaves exactly the unselected
      ones, in order. */
  lemma WithoutSelected(items: seq<Item>)
    requires IdsIncreasing(items)
    ensures Without(items, IdSet(Selected(items))) == Unselected(items)
  {
    var gone := IdSet(Selected(items));
    forall i | 0 <= i < |items| ensures items[i].id in gone <==> items[i].selected {
      SelectedMembership(items, items[i]);
      if items[i].id in gone {
        var x :| x in Selected(items) && x.id == items[i].id;
        SelectedMembership(items, x);
        var j :| 0 <= j < |items| && items[j] == x;
        assert j == i;
      }
    }
    WithoutByFlag(items, gone);
  }
}
