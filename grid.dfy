/**
 * Geometry of the inventory grid: item footprints, the half-open rectangle test,
 * the overlap query over an entry list, entry lookup and removal, and the layout
 * invariant (every entry inside the grid, no two entries overlapping, no item twice).
 */
module Grid {
  import opened Wrappers
  import opened Items
  import Lib = InventoryFunctionLibrary

  datatype Size = Size(width: int, height: int)

  /** The cells [x, x + width) × [y, y + height). */
  datatype Rect = Rect(x: int, y: int, width: int, height: int)

  /** One placed item: its top-left cell and whether it is turned a quarter. */
  datatype Entry = Entry(item: ItemInstance?, x: int, y: int, rotated: bool)

  /** Size of an item of definition `def`: its first dimensions fragment, otherwise 1×1. */
  function DefinitionSize(def: ItemDefinition?): (s: Size)
    ensures s.width >= 1 && s.height >= 1
  {
    match Lib.FindItemDefinitionFragment(def, Some(DimensionsClass))
    case Some(f) => Size(f.width, f.height)
    case None => Size(1, 1)
  }

  /** Width and height `item` occupies; a rotated item has them swapped; no item is 1×1. */
  function GetItemDimensions(item: ItemInstance?, rotated: bool): (s: Size)
    ensures s.width >= 1 && s.height >= 1
  {
    var base := if item == null then Size(1, 1) else DefinitionSize(item.def);
    if rotated then Size(base.height, base.width) else base
  }

  /** The cells an entry occupies. */
  function Footprint(e: Entry): Rect {
    var s := GetItemDimensions(e.item, e.rotated);
    Rect(e.x, e.y, s.width, s.height)
  }

  /** Half-open overlap of the query rectangle `target` with `other`, on both axes. */
  predicate Overlaps(target: Rect, other: Rect) {
    target.x < other.x + other.width && target.x + target.width > other.x &&
    target.y < other.y + other.height && target.y + target.height > other.y
  }

  /** Whether cell (cx, cy) lies in `r`. */
  predicate Covers(r: Rect, cx: int, cy: int) {
    r.x <= cx < r.x + r.width && r.y <= cy < r.y + r.height
  }

  /** A rectangle lies inside a grid of `columns` × `rows` cells. */
  predicate InBounds(r: Rect, columns: int, rows: int) {
    0 <= r.x && 0 <= r.y && r.x + r.width <= columns && r.y + r.height <= rows
  }

  const Int32Min: int := -0x8000_0000
  const Int32Max: int := 0x7fff_ffff

  /** A sum computed in 32-bit two's complement: the integer wrapped into the int32 range. */
  function Wrap32(n: int): (r: int)
    ensures Int32Min <= r <= Int32Max
    ensures (r - n) % 0x1_0000_0000 == 0
    ensures Int32Min <= n <= Int32Max ==> r == n
  {
    (n - Int32Min) % 0x1_0000_0000 + Int32Min
  }

  /**
   * The drop-target bounds test as the code writes it for client coordinates: the far
   * edges `x + width` and `y + height` are int32 sums, which wrap on overflow.
   */
  predicate InBoundsAsWritten(x: int, y: int, size: Size, columns: int, rows: int) {
    !(x < 0 || y < 0 || Wrap32(x + size.width) > columns || Wrap32(y + size.height) > rows)
  }

  /** Whether an entry counts as an overlap of `r`: it holds an item, not the excluded one, and meets `r`. */
  predicate Hits(e: Entry, r: Rect, exclude: ItemInstance?) {
    e.item != null && e.item != exclude && Overlaps(r, Footprint(e))
  }

  /**
   * The items of the entries that overlap `r`, in entry-list order, skipping empty
   * entries and the excluded item.
   */
  function GetItemsInRect(entries: seq<Entry>, r: Rect, exclude: ItemInstance?): (overlaps: seq<ItemInstance>)
    ensures |overlaps| <= |entries|
  {
    if |entries| == 0 then []
    else
      var rest := GetItemsInRect(entries[1..], r, exclude);
      if Hits(entries[0], r, exclude) then [entries[0].item] + rest else rest
  }

  /** The non-null items of an entry list. */
  function ItemsOf(entries: seq<Entry>): set<ItemInstance> {
    set i | 0 <= i < |entries| && entries[i].item != null :: entries[i].item
  }

  /** Index of the first entry holding `item`. */
  function IndexOf(entries: seq<Entry>, item: ItemInstance?): (r: Option<nat>)
    ensures r.Some? ==> r.value < |entries| && entries[r.value].item == item
    ensures r.Some? ==> forall j :: 0 <= j < r.value ==> entries[j].item != item
    ensures r.None? ==> forall j :: 0 <= j < |entries| ==> entries[j].item != item
  {
    if |entries| == 0 then None
    else if entries[0].item == item then Some(0)
    else
      match IndexOf(entries[1..], item)
      case None => None
      case Some(i) => Some(i + 1)
  }

  /** The entry of `item`: none for no item or an item with no entry, otherwise the first one. */
  function GetEntry(entries: seq<Entry>, item: ItemInstance?): (r: Option<Entry>)
    ensures r.None? <==> item == null || item !in ItemsOf(entries)
    ensures r.Some? ==> r.value.item == item && r.value in entries
    ensures r.Some? ==>
      exists i :: 0 <= i < |entries| && entries[i] == r.value &&
        forall j :: 0 <= j < i ==> entries[j].item != item
  {
    if item == null then None
    else
      match IndexOf(entries, item)
      case None => None
      case Some(i) => Some(entries[i])
  }

  /** The list without the first entry holding `item`; unchanged when there is none. */
  function RemoveEntry(entries: seq<Entry>, item: ItemInstance?): (r: seq<Entry>)
    ensures IndexOf(entries, item).None? ==> r == entries
    ensures IndexOf(entries, item).Some? ==>
      var i := IndexOf(entries, item).value;
      |r| == |entries| - 1 && r == entries[..i] + entries[i + 1..]
  {
    match IndexOf(entries, item)
    case None => entries
    case Some(i) => entries[..i] + entries[i + 1..]
  }

  /**
   * An entry is placed when it holds an item and lies inside the grid.
   */
  predicate Placed(e: Entry, columns: int, rows: int) {
    e.item != null && InBounds(Footprint(e), columns, rows)
  }

  /** Two entries are apart when they hold different items and do not overlap. */
  predicate Apart(a: Entry, b: Entry) {
    a.item != b.item && !Overlaps(Footprint(a), Footprint(b))
  }

  /**
   * The layout invariant: every entry is placed and any two entries are apart.
   */
  predicate WellPlaced(entries: seq<Entry>, columns: int, rows: int) {
    (forall i {:trigger Placed(entries[i], columns, rows)} :: 0 <= i < |entries| ==> Placed(entries[i], columns, rows)) &&
    (forall i, j {:trigger Apart(entries[i], entries[j])} :: 0 <= i < j < |entries| ==> Apart(entries[i], entries[j]))
  }

  /** Nothing overlaps the w×h rectangle at (x, y). */
  predicate IsFree(entries: seq<Entry>, x: int, y: int, size: Size) {
    |GetItemsInRect(entries, Rect(x, y, size.width, size.height), null)| == 0
  }

  /** (x, y) is a top-left position that keeps a `size` rectangle inside the grid. */
  predicate IsSlot(columns: int, rows: int, size: Size, x: int, y: int) {
    0 <= y <= rows - size.height && 0 <= x <= columns - size.width
  }

  /** (x, y) is the first free slot scanning rows top to bottom and, within a row, left to right. */
  ghost predicate IsFirstFreeSlot(entries: seq<Entry>, columns: int, rows: int, size: Size, x: int, y: int) {
    IsSlot(columns, rows, size, x, y) && IsFree(entries, x, y, size) &&
    forall yy, xx :: IsSlot(columns, rows, size, xx, yy) && (yy < y || (yy == y && xx < x)) ==>
      !IsFree(entries, xx, yy, size)
  }

  /** No slot of the grid is free for a `size` rectangle. */
  ghost predicate NoFreeSlot(entries: seq<Entry>, columns: int, rows: int, size: Size) {
    forall yy, xx :: IsSlot(columns, rows, size, xx, yy) ==> !IsFree(entries, xx, yy, size)
  }

  /**
   * Entries `added`, appended one by one after `base`, each went to the first free slot
   * of a `size` rectangle in the list as it stood when it was appended.
   */
  ghost predicate EachAtFirstFreeSlot(base: seq<Entry>, added: seq<Entry>, columns: int, rows: int, size: Size)
    decreases |added|
  {
    |added| == 0 ||
    (var n := |added| - 1;
     EachAtFirstFreeSlot(base, added[..n], columns, rows, size) &&
     IsFirstFreeSlot(base + added[..n], columns, rows, size, added[n].x, added[n].y))
  }

  /** One more entry at the first free slot of the list so far extends EachAtFirstFreeSlot. */
  lemma EachAtFirstFreeSlotExtend(base: seq<Entry>, added: seq<Entry>, e: Entry, columns: int, rows: int, size: Size)
    requires EachAtFirstFreeSlot(base, added, columns, rows, size)
    requires IsFirstFreeSlot(base + added, columns, rows, size, e.x, e.y)
    ensures EachAtFirstFreeSlot(base, added + [e], columns, rows, size)
  {
    assert (added + [e])[..|added|] == added;
  }

  /** Under EachAtFirstFreeSlot, entry `k` went to the first free slot of the list before it. */
  lemma {:induction false} EachAtFirstFreeSlotAt(base: seq<Entry>, added: seq<Entry>, columns: int, rows: int, size: Size, k: nat)
    requires EachAtFirstFreeSlot(base, added, columns, rows, size) && k < |added|
    ensures IsFirstFreeSlot(base + added[..k], columns, rows, size, added[k].x, added[k].y)
    decreases |added|
  {
    var n := |added| - 1;
    if k < n {
      EachAtFirstFreeSlotAt(base, added[..n], columns, rows, size, k);
      assert added[..n][..k] == added[..k] && added[..n][k] == added[k];
    }
  }

  // ---------------------------------------------------------------------------
  // Lemmas
  // ---------------------------------------------------------------------------

  /**
   * The bounds test the model uses is the intended one: a rectangle of positive size
   * passes it exactly when every cell it covers is a cell of the grid.
   */
  lemma InBoundsIffCellsInside(r: Rect, columns: int, rows: int)
    requires r.width >= 1 && r.height >= 1
    ensures InBounds(r, columns, rows) <==>
      forall cx, cy :: Covers(r, cx, cy) ==> 0 <= cx < columns && 0 <= cy < rows
  {
    if forall cx, cy :: Covers(r, cx, cy) ==> 0 <= cx < columns && 0 <= cy < rows {
      assert Covers(r, r.x, r.y);
      assert Covers(r, r.x + r.width - 1, r.y + r.height - 1);
    }
  }

  /** Without overflow the test as written agrees with the intended one. */
  lemma InBoundsAsWrittenAgrees(x: int, y: int, size: Size, columns: int, rows: int)
    requires Int32Min <= x + size.width <= Int32Max && Int32Min <= y + size.height <= Int32Max
    ensures InBoundsAsWritten(x, y, size, columns, rows) <==> InBounds(Rect(x, y, size.width, size.height), columns, rows)
  {
  }

  /**
   * With overflow it does not: a 2×1 item dropped at x = 2147483647 on a 10×10 grid
   * passes the test as written, since the far edge wraps to a negative number, yet it
   * lies outside the grid.
   */
  lemma InBoundsAsWrittenAdmitsOutside()
    ensures InBoundsAsWritten(Int32Max, 0, Size(2, 1), 10, 10)
    ensures !InBounds(Rect(Int32Max, 0, 2, 1), 10, 10)
    ensures exists cx, cy :: Covers(Rect(Int32Max, 0, 2, 1), cx, cy) && !(0 <= cx < 10)
  {
    assert Wrap32(Int32Max + 2) == Int32Min + 1;
    assert Covers(Rect(Int32Max, 0, 2, 1), Int32Max, 0);
  }

  /**
   * An item's footprint: 1×1 for no item or a definition without a dimensions
   * fragment, otherwise the first dimensions fragment's Width × Height, with the two
   * swapped when rotated. Rotation transposes the footprint, so a square one is the
   * same either way.
   */
  lemma GetItemDimensionsSpec(item: ItemInstance?, rotated: bool)
    ensures var s := GetItemDimensions(item, rotated);
      var frag := if item == null then None else Lib.FindItemDefinitionFragment(item.def, Some(DimensionsClass));
      var base := if frag.Some? then Size(frag.value.width, frag.value.height) else Size(1, 1);
      s == if rotated then Size(base.height, base.width) else base
    ensures var upright := GetItemDimensions(item, false);
      GetItemDimensions(item, true) == Size(upright.height, upright.width)
    ensures var upright := GetItemDimensions(item, false);
      upright.width == upright.height ==> GetItemDimensions(item, true) == upright
  {
    if item != null {
      var frag := Lib.FindItemDefinitionFragment(item.def, Some(DimensionsClass));
      if frag.Some? {
        assert frag.value.DimensionsFragment?;
      }
    }
  }

  /**
   * The overlap query is exact: an item is in the result iff some entry holding it is
   * a hit, i.e. non-empty, not the excluded item and overlapping `r`.
   */
  lemma {:induction false} GetItemsInRectExact(entries: seq<Entry>, r: Rect, exclude: ItemInstance?)
    ensures forall i :: 0 <= i < |entries| && Hits(entries[i], r, exclude) ==> entries[i].item in GetItemsInRect(entries, r, exclude)
    ensures forall it :: it in GetItemsInRect(entries, r, exclude) ==>
      exists i :: 0 <= i < |entries| && Hits(entries[i], r, exclude) && entries[i].item == it
  {
    if |entries| > 0 {
      var rest := entries[1..];
      GetItemsInRectExact(rest, r, exclude);
      assert forall i :: 1 <= i < |entries| ==> entries[i] == rest[i - 1];
      forall it | it in GetItemsInRect(entries, r, exclude)
        ensures exists i :: 0 <= i < |entries| && Hits(entries[i], r, exclude) && entries[i].item == it
      {
        if it in GetItemsInRect(rest, r, exclude) {
          var k :| 0 <= k < |rest| && Hits(rest[k], r, exclude) && rest[k].item == it;
          assert entries[k + 1] == rest[k];
        }
      }
    }
  }

  /** The half-open test agrees with cells: two non-empty rectangles overlap iff they share a cell. */
  lemma OverlapsIffSharedCell(a: Rect, b: Rect)
    requires a.width >= 1 && a.height >= 1 && b.width >= 1 && b.height >= 1
    ensures Overlaps(a, b) <==> exists cx, cy :: Covers(a, cx, cy) && Covers(b, cx, cy)
  {
    if Overlaps(a, b) {
      var cx := if a.x < b.x then b.x else a.x;
      var cy := if a.y < b.y then b.y else a.y;
      assert Covers(a, cx, cy) && Covers(b, cx, cy);
    }
  }

  /** The overlap query distributes over concatenation, so its result follows entry-list order. */
  lemma {:induction false} GetItemsInRectAppend(a: seq<Entry>, b: seq<Entry>, r: Rect, exclude: ItemInstance?)
    ensures GetItemsInRect(a + b, r, exclude) == GetItemsInRect(a, r, exclude) + GetItemsInRect(b, r, exclude)
  {
    if |a| > 0 {
      assert (a + b)[1..] == a[1..] + b;
      GetItemsInRectAppend(a[1..], b, r, exclude);
    } else {
      assert a + b == b;
    }
  }

  /** On a list with no item twice, the overlap query reports each item once. */
  lemma {:induction false} GetItemsInRectDistinct(entries: seq<Entry>, r: Rect, exclude: ItemInstance?)
    requires forall i, j :: 0 <= i < j < |entries| ==> entries[i].item != entries[j].item
    ensures forall p, q :: 0 <= p < q < |GetItemsInRect(entries, r, exclude)| ==>
      GetItemsInRect(entries, r, exclude)[p] != GetItemsInRect(entries, r, exclude)[q]
  {
    if |entries| > 0 {
      var tail := entries[1..];
      assert forall i :: 0 <= i < |tail| ==> tail[i] == entries[i + 1];
      GetItemsInRectDistinct(tail, r, exclude);
      var rest := GetItemsInRect(tail, r, exclude);
      if Hits(entries[0], r, exclude) {
        GetItemsInRectExact(tail, r, exclude);
        assert entries[0].item !in rest;
      }
    }
  }

  /** An item is held by a list exactly when IndexOf finds an entry holding it. */
  lemma ItemsOfIndexOf(entries: seq<Entry>, item: ItemInstance?)
    requires item != null
    ensures item in ItemsOf(entries) <==> IndexOf(entries, item).Some?
  {
    if item in ItemsOf(entries) {
      var i :| 0 <= i < |entries| && entries[i].item == item;
    }
  }

  /** In a well-placed list every entry holds an item, inside the grid, and no item is held twice. */
  lemma WellPlacedItems(entries: seq<Entry>, columns: int, rows: int)
    requires WellPlaced(entries, columns, rows)
    ensures forall k :: 0 <= k < |entries| ==> entries[k].item != null && InBounds(Footprint(entries[k]), columns, rows)
    ensures forall j, k :: 0 <= j < |entries| && 0 <= k < |entries| && j != k ==> entries[j].item != entries[k].item
  {
    forall k | 0 <= k < |entries|
      ensures entries[k].item != null && InBounds(Footprint(entries[k]), columns, rows)
    {
      assert Placed(entries[k], columns, rows);
    }
    forall j, k | 0 <= j < |entries| && 0 <= k < |entries| && j != k
      ensures entries[j].item != entries[k].item
    {
      if j < k { assert Apart(entries[j], entries[k]); } else { assert Apart(entries[k], entries[j]); }
    }
  }

  /** Entry `k` of the list without entry `i` is entry `k` or `k + 1` of the original. */
  lemma RemoveAtIndex(entries: seq<Entry>, i: nat)
    requires i < |entries|
    ensures var r := entries[..i] + entries[i + 1..];
      |r| == |entries| - 1 && forall k :: 0 <= k < |r| ==> r[k] == entries[if k < i then k else k + 1]
  {
  }

  /** Removing the entry at `i` keeps the layout. */
  lemma RemoveAtKeepsLayout(entries: seq<Entry>, i: nat, columns: int, rows: int)
    requires WellPlaced(entries, columns, rows) && i < |entries|
    ensures WellPlaced(entries[..i] + entries[i + 1..], columns, rows)
  {
    var r := entries[..i] + entries[i + 1..];
    RemoveAtIndex(entries, i);
    forall a | 0 <= a < |r|
      ensures Placed(r[a], columns, rows)
    {
      var a' := if a < i then a else a + 1;
      assert r[a] == entries[a'] && Placed(entries[a'], columns, rows);
    }
    forall a, b | 0 <= a < b < |r|
      ensures Apart(r[a], r[b])
    {
      var a', b' := if a < i then a else a + 1, if b < i then b else b + 1;
      assert r[a] == entries[a'] && r[b] == entries[b'] && a' < b';
      assert Apart(entries[a'], entries[b']);
    }
  }

  /** Removing the entry at `i` leaves only entries of the original list. */
  lemma RemoveAtSubset(entries: seq<Entry>, i: nat)
    requires i < |entries|
    ensures forall e :: e in entries[..i] + entries[i + 1..] ==> e in entries
  {
    var r := entries[..i] + entries[i + 1..];
    RemoveAtIndex(entries, i);
    forall e | e in r
      ensures e in entries
    {
      var k :| 0 <= k < |r| && r[k] == e;
      assert entries[if k < i then k else k + 1] == e;
    }
  }

  /** Removing the entry at `i` takes exactly its item out of a list with no item twice. */
  lemma RemoveAtItems(entries: seq<Entry>, i: nat)
    requires i < |entries|
    requires forall p, q :: 0 <= p < q < |entries| ==> entries[p].item != entries[q].item
    ensures ItemsOf(entries[..i] + entries[i + 1..]) == ItemsOf(entries) - {entries[i].item}
  {
    var r := entries[..i] + entries[i + 1..];
    RemoveAtIndex(entries, i);
    forall x | x in ItemsOf(r)
      ensures x in ItemsOf(entries) - {entries[i].item}
    {
      var k :| 0 <= k < |r| && r[k].item == x;
      var k' := if k < i then k else k + 1;
      assert entries[k'].item == x && k' != i;
    }
    forall x | x in ItemsOf(entries) - {entries[i].item}
      ensures x in ItemsOf(r)
    {
      var k :| 0 <= k < |entries| && entries[k].item == x;
      var m := if k < i then k else k - 1;
      assert r[m].item == x;
    }
  }

  /** Removing an entry keeps the layout and takes exactly that item out of the list's items. */
  lemma RemoveEntryKeepsLayout(entries: seq<Entry>, item: ItemInstance?, columns: int, rows: int)
    requires WellPlaced(entries, columns, rows)
    ensures WellPlaced(RemoveEntry(entries, item), columns, rows)
    ensures ItemsOf(RemoveEntry(entries, item)) == ItemsOf(entries) - {item}
    ensures forall e :: e in RemoveEntry(entries, item) ==> e in entries
  {
    match IndexOf(entries, item)
    case None =>
      assert item !in ItemsOf(entries);
    case Some(i) =>
      RemoveAtKeepsLayout(entries, i, columns, rows);
      forall p, q | 0 <= p < q < |entries|
        ensures entries[p].item != entries[q].item
      {
        assert Apart(entries[p], entries[q]);
      }
      RemoveAtItems(entries, i);
      RemoveAtSubset(entries, i);
  }

  /**
   * Taking out the entry of `leaving` and appending `e` keeps the layout when `e` lies
   * inside the grid, holds an item not yet in the list, and meets no entry but the
   * leaving item's.
   */
  lemma ReplaceKeepsLayout(entries: seq<Entry>, leaving: ItemInstance?, e: Entry, columns: int, rows: int)
    requires WellPlaced(entries, columns, rows)
    requires e.item != null && e.item !in ItemsOf(entries)
    requires InBounds(Footprint(e), columns, rows)
    requires |GetItemsInRect(entries, Footprint(e), leaving)| == 0
    ensures WellPlaced(RemoveEntry(entries, leaving) + [e], columns, rows)
    ensures ItemsOf(RemoveEntry(entries, leaving) + [e]) == ItemsOf(entries) - {leaving} + {e.item}
  {
    RemoveEntryKeepsLayout(entries, leaving, columns, rows);
    GetItemsInRectExact(entries, Footprint(e), leaving);
    var rest := RemoveEntry(entries, leaving);
    forall k | 0 <= k < |rest|
      ensures rest[k].item != e.item && !Overlaps(Footprint(rest[k]), Footprint(e))
    {
      assert rest[k] in entries;
      var m :| 0 <= m < |entries| && entries[m] == rest[k];
      assert Placed(rest[k], columns, rows);
      assert rest[k].item in ItemsOf(rest);
      assert !Hits(entries[m], Footprint(e), leaving);
    }
    WellPlacedAppend(rest, e, columns, rows);
    ItemsOfAppend(rest, e);
  }

  /** An entry that lies inside the grid and meets no entry and no item of the list can be appended. */
  lemma WellPlacedAppend(rest: seq<Entry>, e: Entry, columns: int, rows: int)
    requires WellPlaced(rest, columns, rows)
    requires e.item != null && InBounds(Footprint(e), columns, rows)
    requires forall k :: 0 <= k < |rest| ==> rest[k].item != e.item && !Overlaps(Footprint(rest[k]), Footprint(e))
    ensures WellPlaced(rest + [e], columns, rows)
  {
    var r := rest + [e];
    assert forall k :: 0 <= k < |rest| ==> r[k] == rest[k];
  }

  /** Appending an entry adds its item to the list's items. */
  lemma ItemsOfAppend(rest: seq<Entry>, e: Entry)
    requires e.item != null
    ensures ItemsOf(rest + [e]) == ItemsOf(rest) + {e.item}
  {
    var r := rest + [e];
    forall x | x in ItemsOf(r) ensures x in ItemsOf(rest) + {e.item} {
      var k :| 0 <= k < |r| && r[k].item == x;
      if k < |rest| { assert rest[k].item == x; }
    }
    forall x | x in ItemsOf(rest) + {e.item} ensures x in ItemsOf(r) {
      if x == e.item {
        assert r[|rest|].item == x;
      } else {
        var k :| 0 <= k < |rest| && rest[k].item == x;
        assert r[k].item == x;
      }
    }
  }

  /**
   * Appending `e` keeps the layout when `e` lies inside the grid, holds an item not
   * yet in the list, and meets no entry.
   */
  lemma AppendKeepsLayout(entries: seq<Entry>, e: Entry, columns: int, rows: int)
    requires WellPlaced(entries, columns, rows)
    requires e.item != null && e.item !in ItemsOf(entries)
    requires InBounds(Footprint(e), columns, rows)
    requires GetItemsInRect(entries, Footprint(e), null) == []
    ensures WellPlaced(entries + [e], columns, rows)
    ensures ItemsOf(entries + [e]) == ItemsOf(entries) + {e.item}
  {
    RemoveNullIsIdentity(entries, columns, rows);
    ReplaceKeepsLayout(entries, null, e, columns, rows);
  }

  /** With no entry hitting `r`, the overlap query is empty. */
  lemma {:induction false} NoHitsNoOverlaps(entries: seq<Entry>, r: Rect, exclude: ItemInstance?)
    requires forall i :: 0 <= i < |entries| ==> !Hits(entries[i], r, exclude)
    ensures GetItemsInRect(entries, r, exclude) == []
  {
    if |entries| > 0 {
      assert forall i :: 0 <= i < |entries[1..]| ==> entries[1..][i] == entries[i + 1];
      NoHitsNoOverlaps(entries[1..], r, exclude);
    }
  }

  /** When `only` is the sole overlap of `r`, nothing else is under `r`. */
  lemma SoleOverlapExcluded(entries: seq<Entry>, r: Rect, only: ItemInstance)
    requires GetItemsInRect(entries, r, null) == [only]
    ensures GetItemsInRect(entries, r, only) == []
  {
    GetItemsInRectExact(entries, r, null);
    forall i | 0 <= i < |entries|
      ensures !Hits(entries[i], r, only)
    {
      assert Hits(entries[i], r, only) ==> Hits(entries[i], r, null);
    }
    NoHitsNoOverlaps(entries, r, only);
  }

  /** A well-placed list holds no empty entry, so removing "no item" changes nothing. */
  lemma RemoveNullIsIdentity(entries: seq<Entry>, columns: int, rows: int)
    requires WellPlaced(entries, columns, rows)
    ensures RemoveEntry(entries, null) == entries
  {
    forall j | 0 <= j < |entries|
      ensures entries[j].item != null
    {
      assert Placed(entries[j], columns, rows);
    }
    assert IndexOf(entries, null) == None;
  }

  /** Putting an item not yet in the list at the end and removing it again gives back the list. */
  lemma {:induction false} AppendThenRemove(entries: seq<Entry>, e: Entry)
    requires e.item !in ItemsOf(entries) && e.item != null
    ensures RemoveEntry(entries + [e], e.item) == entries
  {
    var all := entries + [e];
    forall j | 0 <= j < |entries|
      ensures all[j].item != e.item
    {
      assert all[j] == entries[j];
    }
    assert all[|entries|].item == e.item;
    assert IndexOf(all, e.item) == Some(|entries|);
    assert all[..|entries|] + all[|entries| + 1..] == entries;
  }

  /** Taking an entry out and putting the same entry back at the end gives the same multiset of entries. */
  lemma RemoveThenAppendSameEntries(entries: seq<Entry>, i: nat)
    requires i < |entries|
    requires forall j :: 0 <= j < i ==> entries[j].item != entries[i].item
    ensures multiset(RemoveEntry(entries, entries[i].item) + [entries[i]]) == multiset(entries)
  {
    assert IndexOf(entries, entries[i].item) == Some(i);
    assert entries == entries[..i] + [entries[i]] + entries[i + 1..];
  }

  /** The rectangle an entry leaves behind is inside the grid and free of every other entry. */
  lemma VacatedRectIsFree(entries: seq<Entry>, i: nat, columns: int, rows: int)
    requires WellPlaced(entries, columns, rows) && i < |entries|
    ensures InBounds(Footprint(entries[i]), columns, rows)
    ensures |GetItemsInRect(RemoveEntry(entries, entries[i].item), Footprint(entries[i]), null)| == 0
  {
    var it := entries[i].item;
    assert Placed(entries[i], columns, rows);
    RemoveEntryKeepsLayout(entries, it, columns, rows);
    var rest := RemoveEntry(entries, it);
    forall j | 0 <= j < i
      ensures entries[j].item != it
    {
      assert Apart(entries[j], entries[i]);
    }
    assert IndexOf(entries, it) == Some(i);
    forall k | 0 <= k < |rest|
      ensures !Hits(rest[k], Footprint(entries[i]), null)
    {
      var m := if k < i then k else k + 1;
      assert rest[k] == entries[m];
      if m < i { assert Apart(entries[m], entries[i]); } else { assert Apart(entries[i], entries[m]); }
    }
    NoHitsNoOverlaps(rest, Footprint(entries[i]), null);
  }
}
