/**
 * The server-side grid inventory: a list of placed entries and one item held on the
 * cursor, with auto-loot, cross-container transfer and the cursor actions.
 *
 * The component keeps four facts about its state (`Valid`): every entry holds an item
 * and lies inside the Columns × Rows grid, no two entries overlap or hold the same
 * item, the cursor item is never also an entry, and every stack count is between 1
 * and its definition's MaxStack. Items sent out of the inventory into the world are
 * recorded in `spawned` as (definition, count).
 */
module InventoryManager {
  import opened Wrappers
  import opened Items
  import opened Grid
  import Lib = InventoryFunctionLibrary
  import Stacking

  /** One request to the world sink: `count` of definition `def` spawned as a pickup. */
  datatype Spawn = Spawn(def: ItemDefinition, count: int)

  /** Total quantity sent to the world. */
  function SpawnedCount(log: seq<Spawn>): int
    decreases |log|
  {
    if |log| == 0 then 0 else SpawnedCount(log[..|log| - 1]) + log[|log| - 1].count
  }

  /** Stack count of an instance; no instance holds nothing. */
  function Count(item: ItemInstance?): int
    reads item
  {
    if item == null then 0 else item.count
  }

  /** Whether an instance's count is a legal stack for its definition. */
  predicate InStackRange(item: ItemInstance?)
    reads item
  {
    item != null ==> 1 <= item.count <= Lib.DefinitionMaxStack(item.def)
  }

  /** The invariant for the entry list `es` and the cursor item `cur` of a `columns` × `rows` grid. */
  ghost predicate ValidState(es: seq<Entry>, cur: ItemInstance?, columns: int, rows: int)
    reads ItemsOf(es), cur
  {
    WellPlaced(es, columns, rows) && (cur != null ==> cur !in ItemsOf(es)) &&
    (forall i :: 0 <= i < |es| ==> InStackRange(es[i].item)) && InStackRange(cur)
  }

  /** Quantity held in the entry list `es` and on the cursor item `cur`. */
  ghost function TotalOf(es: seq<Entry>, cur: ItemInstance?): int
    reads ItemsOf(es), cur
  {
    Stacking.Sum(CountsOf(es)) + Count(cur)
  }

  /** Removing an entry keeps the invariant and takes that entry's stack off the total. */
  lemma RemovalKeeps(es: seq<Entry>, cur: ItemInstance?, item: ItemInstance?, columns: int, rows: int)
    requires ValidState(es, cur, columns, rows)
    ensures ValidState(RemoveEntry(es, item), cur, columns, rows)
    ensures TotalOf(RemoveEntry(es, item), cur) == TotalOf(es, cur) - (if IndexOf(es, item).Some? then Count(item) else 0)
  {
    RemoveEntryKeepsLayout(es, item, columns, rows);
    SumCountsRemove(es, item);
    var r := RemoveEntry(es, item);
    forall i | 0 <= i < |r|
      ensures InStackRange(r[i].item)
    {
      assert r[i] in es;
    }
  }

  /**
   * The list and cursor are valid, and `e` can take the place of the entry of `leaving`:
   * its item is held nowhere yet and has a legal stack, and `e` lies inside the grid
   * meeting no entry but the leaving one's.
   */
  ghost predicate ReplaceFits(es: seq<Entry>, cur: ItemInstance?, leaving: ItemInstance?, e: Entry, columns: int, rows: int)
    reads ItemsOf(es), cur, e.item
  {
    ValidState(es, cur, columns, rows) &&
    e.item != null && e.item != cur && e.item !in ItemsOf(es) && InStackRange(e.item) &&
    InBounds(Footprint(e), columns, rows) && GetItemsInRect(es, Footprint(e), leaving) == []
  }

  /**
   * Taking out the entry of `leaving` and appending `e`, whose item is held nowhere
   * yet, lies inside the grid and meets no entry but the leaving one's, keeps the
   * invariant; the total loses the leaving stack and gains the new one.
   */
  lemma ReplaceKeeps(es: seq<Entry>, cur: ItemInstance?, leaving: ItemInstance?, e: Entry, columns: int, rows: int)
    requires ReplaceFits(es, cur, leaving, e, columns, rows)
    ensures ValidState(RemoveEntry(es, leaving) + [e], cur, columns, rows)
    ensures ItemsOf(RemoveEntry(es, leaving) + [e]) == ItemsOf(es) - {leaving} + {e.item}
    ensures TotalOf(RemoveEntry(es, leaving) + [e], cur) ==
      TotalOf(es, cur) - (if IndexOf(es, leaving).Some? then Count(leaving) else 0) + Count(e.item)
  {
    RemovalKeeps(es, cur, leaving, columns, rows);
    var r := RemoveEntry(es, leaving);
    ReplaceKeepsLayout(es, leaving, e, columns, rows);
    SumCountsAppend(r, e);
    var n := r + [e];
    forall i | 0 <= i < |n|
      ensures InStackRange(n[i].item)
    {
      if i < |r| {
        assert n[i] == r[i];
      }
    }
  }

  /** Taking a held item onto the empty cursor keeps the invariant and the total. */
  lemma PickupKeeps(es: seq<Entry>, item: ItemInstance, columns: int, rows: int)
    requires ValidState(es, null, columns, rows)
    ensures IndexOf(es, item).Some? ==>
      ValidState(RemoveEntry(es, item), item, columns, rows) && TotalOf(RemoveEntry(es, item), item) == TotalOf(es, null)
  {
    if IndexOf(es, item).Some? {
      RemovalKeeps(es, null, item, columns, rows);
      RemoveEntryKeepsLayout(es, item, columns, rows);
      var i := IndexOf(es, item).value;
      assert InStackRange(es[i].item);
    }
  }

  /** Putting the cursor item on free cells inside the grid keeps the invariant and the total. */
  lemma PlaceKeeps(es: seq<Entry>, e: Entry, columns: int, rows: int)
    requires ValidState(es, e.item, columns, rows) && e.item != null
    requires InBounds(Footprint(e), columns, rows) && GetItemsInRect(es, Footprint(e), null) == []
    ensures ValidState(es + [e], null, columns, rows) && TotalOf(es + [e], null) == TotalOf(es, e.item)
  {
    RemoveNullIsIdentity(es, columns, rows);
    ReplaceKeeps(es, null, null, e, columns, rows);
    assert IndexOf(es, null).None?;
  }

  /**
   * Putting the cursor item where it meets only the entry of `other`, which goes onto
   * the cursor, keeps the invariant and the total.
   */
  lemma ExchangeKeeps(es: seq<Entry>, e: Entry, other: ItemInstance, columns: int, rows: int)
    requires ValidState(es, e.item, columns, rows) && e.item != null
    requires InBounds(Footprint(e), columns, rows) && GetItemsInRect(es, Footprint(e), null) == [other]
    ensures IndexOf(es, other).Some?
    ensures ValidState(RemoveEntry(es, other) + [e], other, columns, rows)
    ensures TotalOf(RemoveEntry(es, other) + [e], other) == TotalOf(es, e.item)
  {
    GetItemsInRectExact(es, Footprint(e), null);
    assert other in GetItemsInRect(es, Footprint(e), null);
    ItemsOfIndexOf(es, other);
    var i := IndexOf(es, other).value;
    assert InStackRange(es[i].item);
    SoleOverlapExcluded(es, Footprint(e), other);
    ReplaceKeeps(es, null, other, e, columns, rows);
  }

  /** The stack counts of an entry list, in list order. */
  ghost function CountsOf(es: seq<Entry>): (r: seq<int>)
    reads ItemsOf(es)
    ensures |r| == |es|
    ensures forall k :: 0 <= k < |es| ==> r[k] == Count(es[k].item)
  {
    seq(|es|, k requires 0 <= k < |es| reads ItemsOf(es) => Count(es[k].item))
  }

  /** For each entry, whether it holds an instance of `def`. */
  function MatchesOf(es: seq<Entry>, def: ItemDefinition): (r: seq<bool>)
    ensures |r| == |es|
    ensures forall k :: 0 <= k < |es| ==> (r[k] <==> es[k].item != null && es[k].item.def == def)
  {
    seq(|es|, k requires 0 <= k < |es| => es[k].item != null && es[k].item.def == def)
  }

  lemma SpawnedCountAppend(log: seq<Spawn>, s: Spawn)
    ensures SpawnedCount(log + [s]) == SpawnedCount(log) + s.count
  {
    assert (log + [s])[..|log|] == log;
  }

  /** Appending an entry adds its count to the total of the list. */
  lemma SumCountsAppend(es: seq<Entry>, e: Entry)
    ensures Stacking.Sum(CountsOf(es + [e])) == Stacking.Sum(CountsOf(es)) + Count(e.item)
  {
    assert CountsOf(es + [e]) == CountsOf(es) + [Count(e.item)];
    Stacking.SumConcat(CountsOf(es), [Count(e.item)]);
    Stacking.SumSingleton(Count(e.item));
  }

  /** Removing the entry of `item` takes its count off the total of the list. */
  lemma SumCountsRemove(es: seq<Entry>, item: ItemInstance?)
    ensures Stacking.Sum(CountsOf(RemoveEntry(es, item))) ==
      Stacking.Sum(CountsOf(es)) - (if IndexOf(es, item).Some? then Count(item) else 0)
  {
    match IndexOf(es, item)
    case None =>
    case Some(i) =>
      var c := CountsOf(es);
      assert CountsOf(RemoveEntry(es, item)) == c[..i] + c[i + 1..];
      Stacking.SumRemove(c, i);
  }

  /** After the first pass every stack is still between 1 and its MaxStack. */
  lemma TopUpKeepsStackRange(es: seq<Entry>, def: ItemDefinition, amount: int, before: seq<int>)
    requires amount >= 0 && |before| == |es|
    requires forall k :: 0 <= k < |es| ==> es[k].item != null
    requires forall k :: 0 <= k < |es| ==> 1 <= before[k] <= Lib.DefinitionMaxStack(es[k].item.def)
    requires forall k :: 0 <= k < |es| ==>
      es[k].item.count == Stacking.TopUp(before, MatchesOf(es, def), Lib.DefinitionMaxStack(def), amount).counts[k]
    ensures forall k :: 0 <= k < |es| ==> InStackRange(es[k].item)
  {
    var matches := MatchesOf(es, def);
    Stacking.TopUpBounds(before, matches, Lib.DefinitionMaxStack(def), amount);
    forall k | 0 <= k < |es|
      ensures InStackRange(es[k].item)
    {
      if matches[k] {
        assert es[k].item.def == def;
      }
    }
  }

  /** The counts of a list of entries, given stack by stack. */
  lemma CountsAre(es: seq<Entry>, c: seq<int>)
    requires |c| == |es|
    requires forall k :: 0 <= k < |es| ==> es[k].item != null && es[k].item.count == c[k]
    ensures CountsOf(es) == c
  {
  }

  /**
   * The entries and the cursor item after the cursor item `item` is dropped at (x, y),
   * turned or not: placed on free cells inside the grid, the cursor empties; placed over
   * exactly one entry, that entry's item takes its place on the cursor. Otherwise
   * nothing changes.
   */
  function MoveOutcome(es: seq<Entry>, cur: ItemInstance?, columns: int, rows: int,
                       item: ItemInstance?, x: int, y: int, rotated: bool): (seq<Entry>, ItemInstance?)
  {
    var e := Entry(item, x, y, rotated);
    var overlaps := GetItemsInRect(es, Footprint(e), null);
    if item == null || cur != item || !InBounds(Footprint(e), columns, rows) then (es, cur)
    else if |overlaps| == 0 then (es + [e], null)
    else if |overlaps| == 1 then (RemoveEntry(es, overlaps[0]) + [e], overlaps[0])
    else (es, cur)
  }

  /** Dropping the cursor item keeps the invariant and the quantity held. */
  lemma MoveOutcomeKeeps(es: seq<Entry>, cur: ItemInstance?, columns: int, rows: int,
                         item: ItemInstance?, x: int, y: int, rotated: bool)
    requires ValidState(es, cur, columns, rows)
    ensures var (es', cur') := MoveOutcome(es, cur, columns, rows, item, x, y, rotated);
      ValidState(es', cur', columns, rows) && TotalOf(es', cur') == TotalOf(es, cur)
  {
    var e := Entry(item, x, y, rotated);
    var overlaps := GetItemsInRect(es, Footprint(e), null);
    if item != null && cur == item && InBounds(Footprint(e), columns, rows) {
      if |overlaps| == 0 {
        PlaceKeeps(es, e, columns, rows);
      } else if |overlaps| == 1 {
        assert overlaps == [overlaps[0]];
        ExchangeKeeps(es, e, overlaps[0], columns, rows);
      }
    }
  }

  /**
   * The entries and the cursor item after `item` is picked up: with an empty cursor and
   * an entry holding `item`, that entry leaves and `item` goes onto the cursor.
   * Otherwise nothing changes.
   */
  function PickupOutcome(es: seq<Entry>, cur: ItemInstance?, item: ItemInstance?): (seq<Entry>, ItemInstance?)
  {
    if item == null || cur != null || IndexOf(es, item).None? then (es, cur)
    else (RemoveEntry(es, item), item)
  }

  /**
   * Placing the cursor item on free cells and picking it up again gives back the
   * entry list and the cursor as they were.
   */
  lemma PlaceThenPickupRestores(es: seq<Entry>, columns: int, rows: int, item: ItemInstance, x: int, y: int, rotated: bool)
    requires ValidState(es, item, columns, rows)
    requires InBounds(Footprint(Entry(item, x, y, rotated)), columns, rows)
    requires GetItemsInRect(es, Footprint(Entry(item, x, y, rotated)), null) == []
    ensures MoveOutcome(es, item, columns, rows, item, x, y, rotated) == (es + [Entry(item, x, y, rotated)], null)
    ensures PickupOutcome(es + [Entry(item, x, y, rotated)], null, item) == (es, item)
  {
    var e := Entry(item, x, y, rotated);
    AppendThenRemove(es, e);
    assert (es + [e])[|es|].item == item;
  }

  /**
   * Picking up the entry at `i` and dropping it back at its own cell and orientation
   * always succeeds, and the list ends with the same entries, the picked one last.
   */
  lemma PickupThenPlaceRestores(es: seq<Entry>, columns: int, rows: int, i: nat)
    requires ValidState(es, null, columns, rows) && i < |es|
    ensures var item := es[i].item;
      var (picked, held) := PickupOutcome(es, null, item);
      held == item && held != null &&
      MoveOutcome(picked, held, columns, rows, item, es[i].x, es[i].y, es[i].rotated) == (picked + [es[i]], null) &&
      multiset(picked + [es[i]]) == multiset(es)
  {
    var item := es[i].item;
    WellPlacedItems(es, columns, rows);
    assert item != null;
    assert forall j :: 0 <= j < i ==> es[j].item != item;
    assert IndexOf(es, item) == Some(i);
    VacatedRectIsFree(es, i, columns, rows);
    assert Entry(item, es[i].x, es[i].y, es[i].rotated) == es[i];
    RemoveThenAppendSameEntries(es, i);
  }

  /** The instances held by an entry list and a cursor item. */
  function Held(es: seq<Entry>, cur: ItemInstance?): set<ItemInstance> {
    ItemsOf(es) + (if cur == null then {} else {cur})
  }

  /**
   * A swap between two holders with no instance in common: `e` puts the item of one of
   * the second holder's entries where it meets only the entry of `back.item` in the first,
   * and `back` is where that item goes in the second. Each replacement meets the
   * conditions of ReplaceKeeps, and the two holders still share no instance after it.
   */
  lemma SwapStaysApart(es: seq<Entry>, cur: ItemInstance?, srcEs: seq<Entry>, srcCur: ItemInstance?,
                       e: Entry, back: Entry, columns: int, rows: int, srcColumns: int, srcRows: int)
    requires ValidState(es, cur, columns, rows) && ValidState(srcEs, srcCur, srcColumns, srcRows)
    requires Held(es, cur) !! Held(srcEs, srcCur) && e.item in ItemsOf(srcEs)
    requires InBounds(Footprint(e), columns, rows) && GetItemsInRect(es, Footprint(e), null) == [back.item]
    requires InBounds(Footprint(back), srcColumns, srcRows) && GetItemsInRect(srcEs, Footprint(back), e.item) == []
    ensures back.item in ItemsOf(es)
    ensures ReplaceFits(es, cur, back.item, e, columns, rows)
    ensures ReplaceFits(srcEs, srcCur, e.item, back, srcColumns, srcRows)
    ensures Held(RemoveEntry(es, back.item) + [e], cur) !! Held(RemoveEntry(srcEs, e.item) + [back], srcCur)
  {
    GetItemsInRectExact(es, Footprint(e), null);
    assert back.item in GetItemsInRect(es, Footprint(e), null);
    ItemsOfIndexOf(es, back.item);
    assert InStackRange(es[IndexOf(es, back.item).value].item);
    ItemsOfIndexOf(srcEs, e.item);
    assert InStackRange(srcEs[IndexOf(srcEs, e.item).value].item);
    SoleOverlapExcluded(es, Footprint(e), back.item);
    RemoveEntryKeepsLayout(es, back.item, columns, rows);
    RemoveEntryKeepsLayout(srcEs, e.item, srcColumns, srcRows);
    ItemsOfAppend(RemoveEntry(es, back.item), e);
    ItemsOfAppend(RemoveEntry(srcEs, e.item), back);
  }

  /**
   * A move between two holders with no instance in common: `e` puts the item of one of
   * the second holder's entries on free cells of the first. The placement meets the
   * conditions of ReplaceKeeps, and the two holders still share no instance after it.
   */
  lemma MoveOverFits(es: seq<Entry>, cur: ItemInstance?, srcEs: seq<Entry>, srcCur: ItemInstance?,
                     e: Entry, columns: int, rows: int, srcColumns: int, srcRows: int)
    requires ValidState(es, cur, columns, rows) && ValidState(srcEs, srcCur, srcColumns, srcRows)
    requires Held(es, cur) !! Held(srcEs, srcCur) && e.item in ItemsOf(srcEs)
    requires InBounds(Footprint(e), columns, rows) && GetItemsInRect(es, Footprint(e), null) == []
    ensures RemoveEntry(es, null) == es
    ensures ReplaceFits(es, cur, null, e, columns, rows)
    ensures Held(es + [e], cur) !! Held(RemoveEntry(srcEs, e.item), srcCur)
  {
    ItemsOfIndexOf(srcEs, e.item);
    assert InStackRange(srcEs[IndexOf(srcEs, e.item).value].item);
    RemoveEntryKeepsLayout(srcEs, e.item, srcColumns, srcRows);
    ItemsOfAppend(es, e);
    RemoveNullIsIdentity(es, columns, rows);
  }

  /** What moving a stack out of another component's grid to a spot in this grid does. */
  datatype Transfer =
    | NoTransfer                             // no entry there, out of bounds, crowded, or no room to swap
    | PlaceHere                              // the spot is free: the entry moves here
    | Merge(dest: ItemInstance)              // one entry of the same definition: units move onto it
    | Swap(dest: ItemInstance, back: Entry)  // one entry of another definition: it goes to the vacated spot

  /**
   * How the stack `item`, held in the grid `srcEntries` of `srcColumns` × `srcRows`, is
   * moved to (x, y), turned or not, in the grid `es` of `columns` × `rows`.
   */
  function TransferOf(srcEntries: seq<Entry>, srcColumns: int, srcRows: int, es: seq<Entry>, columns: int, rows: int,
                      item: ItemInstance, x: int, y: int, rotated: bool): (t: Transfer)
    ensures t != NoTransfer ==> item in ItemsOf(srcEntries) && InBounds(Footprint(Entry(item, x, y, rotated)), columns, rows)
    ensures t.PlaceHere? ==> GetItemsInRect(es, Footprint(Entry(item, x, y, rotated)), null) == []
    ensures t.Merge? ==> GetItemsInRect(es, Footprint(Entry(item, x, y, rotated)), null) == [t.dest] && t.dest.def == item.def
    ensures t.Swap? ==>
      GetItemsInRect(es, Footprint(Entry(item, x, y, rotated)), null) == [t.dest] && t.dest.def != item.def &&
      t.back.item == t.dest && InBounds(Footprint(t.back), srcColumns, srcRows) &&
      GetItemsInRect(srcEntries, Footprint(t.back), item) == []
    ensures t.Swap? ==> var origin := GetEntry(srcEntries, item).value;
      t.back == Entry(t.dest, origin.x, origin.y, origin.rotated)
  {
    match GetEntry(srcEntries, item)
    case None => NoTransfer
    case Some(origin) =>
      var r := Footprint(Entry(item, x, y, rotated));
      var overlaps := GetItemsInRect(es, r, null);
      if !InBounds(r, columns, rows) || |overlaps| > 1 then NoTransfer
      else if |overlaps| == 0 then PlaceHere
      else if overlaps[0].def == item.def then Merge(overlaps[0])
      else
        var back := Entry(overlaps[0], origin.x, origin.y, origin.rotated);
        if InBounds(Footprint(back), srcColumns, srcRows) && GetItemsInRect(srcEntries, Footprint(back), item) == []
        then Swap(overlaps[0], back)
        else NoTransfer
  }

  /** The stacks whose counts a transfer of `item` with outcome `t` may change: both stacks of a merge, no other. */
  function Touched(t: Transfer, item: ItemInstance): set<ItemInstance> {
    if t.Merge? then {item, t.dest} else {}
  }

  /** The converse of TransferOf's contract: each situation gets its outcome. */
  lemma TransferOfComplete(srcEntries: seq<Entry>, srcColumns: int, srcRows: int, es: seq<Entry>, columns: int, rows: int,
                           item: ItemInstance, x: int, y: int, rotated: bool)
    ensures var t := TransferOf(srcEntries, srcColumns, srcRows, es, columns, rows, item, x, y, rotated);
      var r := Footprint(Entry(item, x, y, rotated));
      var overlaps := GetItemsInRect(es, r, null);
      ((item !in ItemsOf(srcEntries) || !InBounds(r, columns, rows) || |overlaps| > 1) ==> t == NoTransfer) &&
      (item in ItemsOf(srcEntries) && InBounds(r, columns, rows) ==>
        var origin := GetEntry(srcEntries, item).value;
        (|overlaps| == 0 ==> t == PlaceHere) &&
        (|overlaps| == 1 && overlaps[0].def == item.def ==> t == Merge(overlaps[0])) &&
        (|overlaps| == 1 && overlaps[0].def != item.def ==>
          var back := Entry(overlaps[0], origin.x, origin.y, origin.rotated);
          t == if InBounds(Footprint(back), srcColumns, srcRows) && GetItemsInRect(srcEntries, Footprint(back), item) == []
               then Swap(overlaps[0], back) else NoTransfer))
  {
    ItemsOfIndexOf(srcEntries, item);
  }

  class InventoryManagerComponent {
    const columns: int
    const rows: int
    var entries: seq<Entry>
    var cursor: ItemInstance?
    var spawned: seq<Spawn>

    /** Every instance the component holds: its entries' items and the cursor item. */
    ghost function Items(): set<ItemInstance>
      reads this
    {
      Held(entries, cursor)
    }

    /**
     * The layout half of the invariant, which depends on this component's fields only:
     * the entries are well placed and the cursor item is not one of them.
     */
    ghost predicate Layout()
      reads this
    {
      WellPlaced(entries, columns, rows) && (cursor != null ==> cursor !in ItemsOf(entries))
    }

    /** The stack half of the invariant: every held stack is between 1 and its MaxStack. */
    ghost predicate StacksInRange()
      reads this, Items()
    {
      (forall i :: 0 <= i < |entries| ==> InStackRange(entries[i].item)) && InStackRange(cursor)
    }

    ghost predicate Valid()
      reads this, Items()
    {
      ValidState(entries, cursor, columns, rows)
    }


    /** Quantity held: the entries' stack counts plus the cursor's. */
    ghost function Total(): int
      reads this, Items()
    {
      TotalOf(entries, cursor)
    }

    /** No instance is held by both this component and `other`. */
    ghost predicate Disjoint(other: InventoryManagerComponent)
      reads this, other
    {
      Held(entries, cursor) !! Held(other.entries, other.cursor)
    }

    /** An empty grid of `columns` × `rows` cells with nothing on the cursor. */
    constructor (columns: int, rows: int)
      ensures Valid()
      ensures this.columns == columns && this.rows == rows
      ensures entries == [] && cursor == null && spawned == []
    {
      this.columns := columns;
      this.rows := rows;
      entries := [];
      cursor := null;
      spawned := [];
    }

    /** Removes the first entry holding `item`; reports whether there was one. */
    method InternalRemoveItem(item: ItemInstance?) returns (removed: bool)
      modifies this
      ensures removed <==> IndexOf(old(entries), item).Some?
      ensures entries == RemoveEntry(old(entries), item)
      ensures cursor == old(cursor) && spawned == old(spawned)
    {
      match IndexOf(entries, item)
      case Some(i) =>
        entries := entries[..i] + entries[i + 1..];
        removed := true;
      case None =>
        removed := false;
    }

    /** Appends an entry for `item` at (x, y); no item adds nothing. */
    method InternalAddItemInstance(item: ItemInstance?, x: int, y: int, rotated: bool) returns (added: bool)
      modifies this
      ensures added <==> item != null
      ensures entries == if item == null then old(entries) else old(entries) + [Entry(item, x, y, rotated)]
      ensures cursor == old(cursor) && spawned == old(spawned)
    {
      if item == null {
        return false;
      }
      entries := entries + [Entry(item, x, y, rotated)];
      added := true;
    }

    /**
     * Replaces the entry of `leaving` by `e`, whose item is held nowhere here yet and
     * which lies inside the grid meeting no other entry: Internal_RemoveItem followed by
     * Internal_AddItemInstance. The invariant holds throughout.
     */
    method ReplaceEntry(leaving: ItemInstance?, e: Entry)
      requires ReplaceFits(entries, cursor, leaving, e, columns, rows)
      modifies this
      ensures entries == RemoveEntry(old(entries), leaving) + [e] && cursor == old(cursor) && spawned == old(spawned)
      ensures Valid()
      ensures Total() == old(Total() - (if IndexOf(entries, leaving).Some? then Count(leaving) else 0) + e.item.count)
    {
      ReplaceKeeps(entries, cursor, leaving, e, columns, rows);
      ghost var replaced := RemoveEntry(entries, leaving) + [e];
      ghost var counts := CountsOf(replaced);
      var _ := InternalRemoveItem(leaving);
      assert CountsOf(replaced) == counts;
      var _ := InternalAddItemInstance(e.item, e.x, e.y, e.rotated);
      assert CountsOf(entries) == counts;
    }

    /**
     * Gives up `amount` units of the held stack `item`, 0 < `amount` <= its count: the
     * entry goes when that is the whole stack, otherwise the stack shrinks.
     */
    method TakeUnits(item: ItemInstance, amount: int)
      requires Valid() && item in ItemsOf(entries) && 0 < amount <= item.count
      modifies this, item
      ensures amount < old(item.count) ==> entries == old(entries) && item.count == old(item.count) - amount
      ensures amount == old(item.count) ==> entries == RemoveEntry(old(entries), item) && item.count == old(item.count)
      ensures cursor == old(cursor) && spawned == old(spawned) && ItemsOf(entries) <= ItemsOf(old(entries))
      ensures Valid() && Total() == old(Total()) - amount
    {
      if amount >= item.count {
        ItemsOfIndexOf(entries, item);
        RemovalKeeps(entries, cursor, item, columns, rows);
        RemoveEntryKeepsLayout(entries, item, columns, rows);
        ghost var counts := CountsOf(RemoveEntry(entries, item));
        var _ := InternalRemoveItem(item);
        assert CountsOf(entries) == counts;
      } else {
        ShrinkStack(item, amount, entries, cursor, columns, rows);
      }
    }

    /**
     * The first position, scanning rows from the top and each row from the left, where
     * `item` fits unrotated inside the grid without meeting any entry.
     */
    method FindFreeSlot(item: ItemInstance?) returns (found: bool, x: int, y: int)
      ensures found ==> item != null && IsFirstFreeSlot(entries, columns, rows, GetItemDimensions(item, false), x, y)
      ensures !found ==> item == null || NoFreeSlot(entries, columns, rows, GetItemDimensions(item, false))
    {
      if item == null {
        return false, 0, 0;
      }
      var size := GetItemDimensions(item, false);
      var yy := 0;
      while yy <= rows - size.height
        invariant 0 <= yy
        invariant forall y', x' :: IsSlot(columns, rows, size, x', y') && y' < yy ==> !IsFree(entries, x', y', size)
        decreases rows - size.height + 1 - yy
      {
        var xx := 0;
        while xx <= columns - size.width
          invariant 0 <= xx
          invariant forall x' :: IsSlot(columns, rows, size, x', yy) && x' < xx ==> !IsFree(entries, x', yy, size)
          decreases columns - size.width + 1 - xx
        {
          if IsFree(entries, xx, yy, size) {
            return true, xx, yy;
          }
          xx := xx + 1;
        }
        yy := yy + 1;
      }
      return false, 0, 0;
    }

    /** Hands `count` of `item`'s definition to the world sink. */
    method SpawnItemInWorld(item: ItemInstance, count: int)
      modifies this
      ensures spawned == old(spawned) + [Spawn(item.def, count)]
      ensures entries == old(entries) && cursor == old(cursor)
    {
      spawned := spawned + [Spawn(item.def, count)];
    }

    /**
     * One step of the first pass: `item`, when it is of `def` and below `maxStack`, takes
     * what it can of `remaining`. Seen from the pass, `item` is stack `k` of `counts`.
     */
    static method TopUpItem(item: ItemInstance, def: ItemDefinition, maxStack: int, remaining: int,
                            ghost counts: seq<int>, ghost matches: seq<bool>, ghost k: nat) returns (add: int)
      requires remaining > 0
      requires k < |counts| == |matches| && counts[k] == item.count && (matches[k] <==> item.def == def)
      modifies item
      ensures add == if item.def == def then Stacking.StackMove(maxStack, old(item.count), remaining) else 0
      ensures add == Stacking.Take(counts, matches, maxStack, k, remaining)
      ensures item.count == old(item.count) + add
    {
      add := 0;
      if item.def == def {
        var current := item.count;
        if current < maxStack {
          add := Stacking.Min(remaining, maxStack - current);
          item.AddStatTagStack(add);
        }
      }
    }

    /**
     * First auto-loot pass over the entry list `es`: walks it in order and tops up each
     * stack of `def` below MaxStack until nothing is left to place. `before` and
     * `matches` name the counts on entry and which entries hold `def`; the walk stops
     * at `stop`, the end of the list or the first stack reached with nothing left.
     */
    static method TopUpPass(es: seq<Entry>, def: ItemDefinition, maxStack: int, amount: int, ghost before: seq<int>, ghost matches: seq<bool>)
      returns (remaining: int, ghost stop: nat)
      requires forall k :: 0 <= k < |es| ==> es[k].item != null
      requires forall j, k :: 0 <= j < |es| && 0 <= k < |es| && j != k ==> es[j].item != es[k].item
      requires amount > 0 && |before| == |es| && |matches| == |es|
      requires forall k :: 0 <= k < |es| ==> (matches[k] <==> es[k].item.def == def)
      requires forall k :: 0 <= k < |es| ==> before[k] == es[k].item.count
      modifies ItemsOf(es)
      ensures stop <= |es| && (stop == |es| || remaining <= 0)
      ensures remaining == Stacking.Left(before, matches, maxStack, amount, stop)
      ensures forall k :: 0 <= k < |es| ==> es[k].item.count == (Stacking.Walked(before, matches, maxStack, amount, stop) + before[stop..])[k]
    {
      remaining := amount;
      ghost var done: seq<int> := [];
      var i := 0;
      while i < |es|
        invariant 0 <= i <= |es|
        invariant remaining == Stacking.Left(before, matches, maxStack, amount, i)
        invariant done == Stacking.Walked(before, matches, maxStack, amount, i)
        invariant forall k :: 0 <= k < |es| ==> es[k].item.count == (if k < i then done[k] else before[k])
      {
        if remaining <= 0 {
          break;
        }
        var add := TopUpItem(es[i].item, def, maxStack, remaining, before, matches, i);
        Stacking.WalkStep(before, matches, maxStack, amount, i, add);
        done := done + [before[i] + add];
        remaining := remaining - add;
        i := i + 1;
      }
      stop := i;
    }

    /**
     * Pass 1 of AddItemDefinition on this inventory's entries: every stack ends with
     * its count after the first pass and `remaining` is what that pass could not place;
     * the state stays valid.
     */
    method TopUpStacks(def: ItemDefinition, amount: int) returns (remaining: int)
      requires Valid() && amount > 0
      modifies ItemsOf(entries)
      ensures Valid()
      ensures var pass := Stacking.TopUp(old(CountsOf(entries)), MatchesOf(entries, def), Lib.DefinitionMaxStack(def), amount);
        remaining == pass.remaining && forall k :: 0 <= k < |entries| ==> Count(entries[k].item) == pass.counts[k]
      ensures Stacking.Sum(CountsOf(entries)) + remaining == Stacking.Sum(old(CountsOf(entries))) + amount
      ensures 0 <= remaining <= amount
    {
      ghost var before := CountsOf(entries);
      ghost var matches := MatchesOf(entries, def);
      var maxStack := Lib.DefinitionMaxStack(def);
      ghost var stop;
      WellPlacedItems(entries, columns, rows);
      remaining, stop := TopUpPass(entries, def, maxStack, amount, before, matches);
      Stacking.WalkStops(before, matches, maxStack, amount, stop);
      TopUpKeepsStackRange(entries, def, amount, before);
      ghost var pass := Stacking.TopUp(before, matches, maxStack, amount);
      CountsAre(entries, pass.counts);
      Stacking.TopUpConserves(before, matches, maxStack, amount);
      Stacking.LeftDecreases(before, matches, maxStack, amount, 0, |before|);
    }

    /** A fresh instance of `def` holding a stack of `share`. */
    static method NewStack(def: ItemDefinition, share: int) returns (item: ItemInstance)
      requires share > 0
      ensures fresh(item) && item.def == def && item.count == share
    {
      item := new ItemInstance(def);
      item.AddStatTagStack(share);
    }

    /**
     * One stack of the second pass: a fresh instance of `def` holding `share` goes
     * unrotated to the first free slot, if there is one.
     */
    method PlaceNewStack(def: ItemDefinition, share: int, ghost base: seq<Entry>, ghost made: seq<Entry>)
      returns (found: bool, item: ItemInstance, x: int, y: int)
      requires Layout() && 1 <= share
      requires entries == base + made && EachAtFirstFreeSlot(base, made, columns, rows, DefinitionSize(def))
      modifies this
      ensures Layout()
      ensures cursor == old(cursor) && spawned == old(spawned)
      ensures fresh(item) && item.def == def && item.count == share
      ensures found ==>
        entries == old(entries) + [Entry(item, x, y, false)] &&
        IsFirstFreeSlot(old(entries), columns, rows, DefinitionSize(def), x, y)
      ensures !found ==> entries == old(entries) && NoFreeSlot(entries, columns, rows, DefinitionSize(def))
      ensures Stacking.Sum(CountsOf(entries)) == old(Stacking.Sum(CountsOf(entries))) + (if found then share else 0)
      ensures found ==> EachAtFirstFreeSlot(base, made + [Entry(item, x, y, false)], columns, rows, DefinitionSize(def))
    {
      ghost var counts := CountsOf(entries);
      item := NewStack(def, share);
      found, x, y := FindFreeSlot(item);
      assert CountsOf(entries) == counts;
      if found {
        EachAtFirstFreeSlotExtend(base, made, Entry(item, x, y, false), columns, rows, DefinitionSize(def));
        AppendStack(item, x, y);
      }
    }

    /** Puts `item`, held nowhere yet, unrotated at the free slot (x, y). */
    method AppendStack(item: ItemInstance, x: int, y: int)
      requires Layout() && item !in Items()
      requires IsSlot(columns, rows, DefinitionSize(item.def), x, y) && IsFree(entries, x, y, DefinitionSize(item.def))
      modifies this
      ensures Layout()
      ensures entries == old(entries) + [Entry(item, x, y, false)]
      ensures cursor == old(cursor) && spawned == old(spawned)
      ensures Stacking.Sum(CountsOf(entries)) == old(Stacking.Sum(CountsOf(entries))) + item.count
    {
      AppendKeepsLayout(entries, Entry(item, x, y, false), columns, rows);
      SumCountsAppend(entries, Entry(item, x, y, false));
      ghost var sum := Stacking.Sum(CountsOf(entries + [Entry(item, x, y, false)]));
      var _ := InternalAddItemInstance(item, x, y, false);
      assert Stacking.Sum(CountsOf(entries)) == sum;
    }

    /**
     * The placing loop of pass 2: while some of `amount` is left, a fresh instance of
     * `def` holding the smaller of what is left and `maxStack` goes unrotated to the
     * first free slot. It stops when nothing is left or when no slot is free; then
     * `overflow` is the instance that found no slot and `left` what is still to place.
     * The new stacks are `made`, every one full but possibly the last.
     */
    method PlaceStacks(def: ItemDefinition, maxStack: Positive, amount: int)
      returns (addedAny: bool, left: int, overflow: ItemInstance?, ghost made: seq<Entry>)
      requires Layout() && amount > 0
      modifies this
      ensures Layout()
      ensures cursor == old(cursor) && spawned == old(spawned)
      ensures entries == old(entries) + made
      ensures forall k :: 0 <= k < |made| ==>
        fresh(made[k].item) && made[k].item.def == def && !made[k].rotated && 1 <= made[k].item.count <= maxStack &&
        (made[k].item.count == maxStack || (k == |made| - 1 && left == 0))
      ensures 0 <= left <= amount && (addedAny <==> |made| > 0)
      ensures Stacking.Sum(CountsOf(entries)) == old(Stacking.Sum(CountsOf(entries))) + amount - left
      ensures left == 0 ==> overflow == null && addedAny
      ensures left > 0 ==> overflow != null && overflow.def == def && NoFreeSlot(entries, columns, rows, DefinitionSize(def))
      ensures EachAtFirstFreeSlot(old(entries), made, columns, rows, DefinitionSize(def))
    {
      ghost var sum := Stacking.Sum(CountsOf(entries));
      left := amount;
      addedAny, overflow, made := false, null, [];
      while left > 0
        invariant Layout()
        invariant 0 < left <= amount || (left == 0 && |made| > 0)
        invariant cursor == old(cursor) && spawned == old(spawned)
        invariant entries == old(entries) + made
        invariant forall k :: 0 <= k < |made| ==>
          fresh(made[k].item) && made[k].item.def == def && !made[k].rotated && 1 <= made[k].item.count <= maxStack &&
          (made[k].item.count == maxStack || (k == |made| - 1 && left == 0))
        invariant Stacking.Sum(CountsOf(entries)) == sum + amount - left
        invariant addedAny <==> |made| > 0
        invariant EachAtFirstFreeSlot(old(entries), made, columns, rows, DefinitionSize(def))
        decreases left
      {
        var share := Stacking.Min(left, maxStack);
        var found, item, x, y := PlaceNewStack(def, share, old(entries), made);
        if !found {
          overflow := item;
          return;
        }
        made := made + [Entry(item, x, y, false)];
        left := left - share;
        addedAny := true;
      }
    }

    /**
     * Pass 2 of AddItemDefinition: the placing loop, then, when no slot was left for
     * the rest (`spilled`), that rest goes to the world sink. The result is false only
     * when something spilled before any new stack was placed.
     */
    method CreateStacks(def: ItemDefinition, maxStack: Positive, amount: int)
      returns (addedAny: bool, ghost made: seq<Entry>, ghost spilled: int)
      requires Layout() && amount > 0
      modifies this
      ensures Layout()
      ensures cursor == old(cursor)
      ensures entries == old(entries) + made
      ensures forall k :: 0 <= k < |made| ==>
        fresh(made[k].item) && made[k].item.def == def && !made[k].rotated && 1 <= made[k].item.count <= maxStack &&
        (made[k].item.count == maxStack || (k == |made| - 1 && spilled == 0))
      ensures 0 <= spilled <= amount
      ensures Stacking.Sum(CountsOf(entries)) == old(Stacking.Sum(CountsOf(entries))) + amount - spilled
      ensures spilled == 0 ==> spawned == old(spawned) && addedAny
      ensures spilled > 0 ==>
        spawned == old(spawned) + [Spawn(def, spilled)] &&
        (addedAny <==> |made| > 0) &&
        NoFreeSlot(entries, columns, rows, DefinitionSize(def))
      ensures EachAtFirstFreeSlot(old(entries), made, columns, rows, DefinitionSize(def))
    {
      var left, overflow;
      addedAny, left, overflow, made := PlaceStacks(def, maxStack, amount);
      spilled := left;
      if overflow != null {
        ghost var counts := CountsOf(entries);
        SpawnItemInWorld(overflow, left);
        assert CountsOf(entries) == counts;
      }
    }

    /** Stacks of `def` appended within its MaxStack keep every held stack in range. */
    lemma AppendedStacksInRange(before: seq<Entry>, made: seq<Entry>, def: ItemDefinition)
      requires entries == before + made
      requires forall i :: 0 <= i < |before| ==> InStackRange(before[i].item)
      requires InStackRange(cursor)
      requires forall k :: 0 <= k < |made| ==>
        made[k].item != null && made[k].item.def == def && 1 <= made[k].item.count <= Lib.DefinitionMaxStack(def)
      ensures StacksInRange()
    {
      forall i | 0 <= i < |entries|
        ensures InStackRange(entries[i].item)
      {
        if i >= |before| {
          assert entries[i] == made[i - |before|];
        }
      }
    }
    /**
     * Pass 2 of AddItemDefinition on a valid inventory with its MaxStack looked up:
     * the state stays valid and every unit of `amount` is held or spawned.
     */
    method AddNewStacks(def: ItemDefinition, amount: int) returns (addedAny: bool, ghost made: seq<Entry>, ghost spilled: int)
      requires Valid() && amount > 0
      modifies this
      ensures Valid()
      ensures cursor == old(cursor)
      ensures entries == old(entries) + made
      ensures forall k :: 0 <= k < |made| ==>
        fresh(made[k].item) && made[k].item.def == def && !made[k].rotated &&
        (made[k].item.count == Lib.DefinitionMaxStack(def) || (k == |made| - 1 && spilled == 0))
      ensures Total() + SpawnedCount(spawned) == old(Total() + SpawnedCount(spawned)) + amount
      ensures 0 <= spilled <= amount
      ensures spilled == 0 ==> spawned == old(spawned) && addedAny
      ensures spilled > 0 ==>
        spawned == old(spawned) + [Spawn(def, spilled)] &&
        (addedAny <==> |made| > 0) &&
        NoFreeSlot(entries, columns, rows, DefinitionSize(def))
      ensures EachAtFirstFreeSlot(old(entries), made, columns, rows, DefinitionSize(def))
    {
      ghost var before := entries;
      ghost var cursorCount := Count(cursor);
      addedAny, made, spilled := CreateStacks(def, Lib.DefinitionMaxStack(def), amount);
      assert Count(cursor) == cursorCount;
      AppendedStacksInRange(before, made, def);
      if spilled > 0 {
        SpawnedCountAppend(old(spawned), Spawn(def, spilled));
      }
    }

    /**
     * Both passes of AddItemDefinition once its guard has passed: pass 1 tops up the
     * existing stacks of `def` in list order and, when that does not place everything,
     * pass 2 appends new stacks and sends what finds no slot (`spilled`) to the world
     * sink. The result is false only when pass 2 ran and placed no new stack.
     */
    method AddStacks(def: ItemDefinition, stackCount: int) returns (ok: bool, ghost made: seq<Entry>, ghost spilled: int)
      requires Valid() && stackCount > 0
      modifies this, ItemsOf(entries)
      ensures Valid()
      ensures cursor == old(cursor)
      ensures Total() + SpawnedCount(spawned) == old(Total() + SpawnedCount(spawned)) + stackCount
      ensures entries == old(entries) + made
      ensures var pass := Stacking.TopUp(old(CountsOf(entries)), MatchesOf(old(entries), def), Lib.DefinitionMaxStack(def), stackCount);
        (forall k :: 0 <= k < |old(entries)| ==> Count(old(entries)[k].item) == pass.counts[k]) &&
        (pass.remaining == 0 ==> made == [] && spilled == 0)
      ensures forall k :: 0 <= k < |made| ==>
        fresh(made[k].item) && made[k].item.def == def && !made[k].rotated &&
        (made[k].item.count == Lib.DefinitionMaxStack(def) || (k == |made| - 1 && spilled == 0))
      ensures EachAtFirstFreeSlot(old(entries), made, columns, rows, DefinitionSize(def))
      ensures 0 <= spilled
      ensures spilled == 0 ==> spawned == old(spawned) && ok
      ensures spilled > 0 ==>
        spawned == old(spawned) + [Spawn(def, spilled)] &&
        NoFreeSlot(entries, columns, rows, DefinitionSize(def)) &&
        (ok <==> |made| > 0)
    {
      ghost var cursorCount := Count(cursor);
      var remaining := TopUpStacks(def, stackCount);
      assert Count(cursor) == cursorCount;
      if remaining == 0 {
        assert entries + [] == entries;
        return true, [], 0;
      }
      ghost var placedCounts := CountsOf(entries);
      ok, made, spilled := AddNewStacks(def, remaining);
      assert CountsOf(old(entries)) == placedCounts;
    }

    /**
     * Auto-loot of `stackCount` of `def`: refused (false, nothing changes) without
     * authority, without a definition or for a count that is not positive; otherwise
     * AddStacks.
     */
    method AddItemDefinition(hasAuthority: bool, def: ItemDefinition?, stackCount: int)
      returns (ok: bool, ghost made: seq<Entry>, ghost spilled: int)
      requires Valid()
      modifies this, ItemsOf(entries)
      ensures Valid()
      ensures !hasAuthority || def == null || stackCount <= 0 ==>
        !ok && made == [] && spilled == 0 && unchanged(this) && unchanged(ItemsOf(entries))
      ensures hasAuthority && def != null && stackCount > 0 ==>
        cursor == old(cursor) &&
        Total() + SpawnedCount(spawned) == old(Total() + SpawnedCount(spawned)) + stackCount &&
        entries == old(entries) + made &&
        (var pass := Stacking.TopUp(old(CountsOf(entries)), MatchesOf(old(entries), def), Lib.DefinitionMaxStack(def), stackCount);
         (forall k :: 0 <= k < |old(entries)| ==> Count(old(entries)[k].item) == pass.counts[k]) &&
         (pass.remaining == 0 ==> made == [] && spilled == 0)) &&
        (forall k :: 0 <= k < |made| ==>
          fresh(made[k].item) && made[k].item.def == def && !made[k].rotated &&
          (made[k].item.count == Lib.DefinitionMaxStack(def) || (k == |made| - 1 && spilled == 0))) &&
        EachAtFirstFreeSlot(old(entries), made, columns, rows, DefinitionSize(def)) &&
        0 <= spilled &&
        (spilled == 0 ==> spawned == old(spawned) && ok) &&
        (spilled > 0 ==>
          spawned == old(spawned) + [Spawn(def, spilled)] &&
          NoFreeSlot(entries, columns, rows, DefinitionSize(def)) &&
          (ok <==> |made| > 0))
    {
      if !hasAuthority || def == null || stackCount <= 0 {
        return false, [], 0;
      }
      ok, made, spilled := AddStacks(def, stackCount);
    }

    /**
     * Moves the stack `item` out of `source`'s grid to (x, y) here, turned or not. A
     * transfer within one component is a cursor move; one between two components is
     * TransferAcross. Nothing happens without a source or an item.
     */
    method ServerTransferFrom(source: InventoryManagerComponent?, item: ItemInstance?, x: int, y: int, rotated: bool)
      requires Valid()
      requires source != null ==> source.Valid()
      requires source != null && source != this ==> Disjoint(source)
      modifies this, source,
        if source != null && source != this && item != null
        then Touched(TransferOf(source.entries, source.columns, source.rows, entries, columns, rows, item, x, y, rotated), item)
        else {}
      ensures Valid() && spawned == old(spawned)
      ensures source == null || item == null ==> entries == old(entries) && cursor == old(cursor)
      ensures source == this && item != null ==>
        (entries, cursor) == MoveOutcome(old(entries), old(cursor), columns, rows, item, x, y, rotated) &&
        Total() == old(Total())
      ensures source != null && source != this ==>
        source.Valid() && Disjoint(source) && cursor == old(cursor) &&
        source.cursor == old(source.cursor) && source.spawned == old(source.spawned) &&
        Total() + source.Total() == old(Total() + source.Total())
      ensures source != null && source != this && item != null ==>
        var t := TransferOf(old(source.entries), source.columns, source.rows, old(entries), columns, rows, item, x, y, rotated);
        (t.NoTransfer? ==> entries == old(entries) && source.entries == old(source.entries) && item.count == old(item.count)) &&
        (t.PlaceHere? ==>
          entries == old(entries) + [Entry(item, x, y, rotated)] && source.entries == RemoveEntry(old(source.entries), item) &&
          item.count == old(item.count)) &&
        (t.Merge? ==>
          var move := Stacking.StackMove(Lib.DefinitionMaxStack(item.def), old(t.dest.count), old(item.count));
          entries == old(entries) && t.dest.count == old(t.dest.count) + move &&
          (move < old(item.count) ==> source.entries == old(source.entries) && item.count == old(item.count) - move) &&
          (move >= old(item.count) ==> source.entries == RemoveEntry(old(source.entries), item) && item.count == old(item.count))) &&
        (t.Swap? ==>
          entries == RemoveEntry(old(entries), t.dest) + [Entry(item, x, y, rotated)] &&
          source.entries == RemoveEntry(old(source.entries), item) + [t.back] &&
          item.count == old(item.count))
      // Within one component no stack count changes, the cursor's included.
      ensures source == this ==> CountsOf(old(entries)) == old(CountsOf(entries)) && Count(old(cursor)) == old(Count(cursor))
    {
      if source == null || item == null {
        return;
      }
      if source == this {
        ServerAttemptMove(item, x, y, rotated);
        return;
      }
      TransferAcross(source, item, x, y, rotated);
    }

    /**
     * Moves the stack `item` out of `source`'s grid, another component's, to (x, y)
     * here, turned or not, as TransferOf classifies it: onto free cells it moves over;
     * onto one stack of the same definition as many units as fit move onto it, and the
     * source entry goes once it is emptied; onto one stack of another definition the two
     * swap places, the other stack taking the source spot in the source orientation.
     * No stack count changes here but that of a merge's destination.
     */
    method TransferAcross(source: InventoryManagerComponent, item: ItemInstance, x: int, y: int, rotated: bool)
      requires Valid() && source.Valid() && source != this && Disjoint(source)
      modifies this, source,
        Touched(TransferOf(source.entries, source.columns, source.rows, entries, columns, rows, item, x, y, rotated), item)
      ensures Valid() && source.Valid() && Disjoint(source)
      ensures cursor == old(cursor) && spawned == old(spawned)
      ensures source.cursor == old(source.cursor) && source.spawned == old(source.spawned)
      ensures Total() + source.Total() == old(Total() + source.Total())
      ensures
        var t := TransferOf(old(source.entries), source.columns, source.rows, old(entries), columns, rows, item, x, y, rotated);
        (t.NoTransfer? ==> entries == old(entries) && source.entries == old(source.entries) && item.count == old(item.count)) &&
        (t.PlaceHere? ==>
          entries == old(entries) + [Entry(item, x, y, rotated)] && source.entries == RemoveEntry(old(source.entries), item) &&
          item.count == old(item.count)) &&
        (t.Merge? ==>
          var move := Stacking.StackMove(Lib.DefinitionMaxStack(item.def), old(t.dest.count), old(item.count));
          entries == old(entries) && t.dest.count == old(t.dest.count) + move &&
          (move < old(item.count) ==> source.entries == old(source.entries) && item.count == old(item.count) - move) &&
          (move >= old(item.count) ==> source.entries == RemoveEntry(old(source.entries), item) && item.count == old(item.count))) &&
        (t.Swap? ==>
          entries == RemoveEntry(old(entries), t.dest) + [Entry(item, x, y, rotated)] &&
          source.entries == RemoveEntry(old(source.entries), item) + [t.back] &&
          item.count == old(item.count))
    {
      ghost var t := TransferOf(source.entries, source.columns, source.rows, entries, columns, rows, item, x, y, rotated);
      var origin := GetEntry(source.entries, item);
      if origin.None? {
        assert t == NoTransfer;
        return;
      }
      var size := GetItemDimensions(item, rotated);
      if x < 0 || y < 0 || x + size.width > columns || y + size.height > rows {
        assert t == NoTransfer;
        return;
      }
      var overlaps := GetItemsInRect(entries, Rect(x, y, size.width, size.height), null);
      if |overlaps| == 0 {
        assert t == PlaceHere;
        TransferPlace(source, item, x, y, rotated);
      } else if |overlaps| == 1 {
        var dest := overlaps[0];
        GetItemsInRectExact(entries, Rect(x, y, size.width, size.height), null);
        assert dest in GetItemsInRect(entries, Rect(x, y, size.width, size.height), null);
        if dest.def == item.def {
          assert t == Merge(dest);
          TransferMerge(source, item, dest);
        } else {
          var back := Entry(dest, origin.value.x, origin.value.y, origin.value.rotated);
          var b := GetItemDimensions(dest, origin.value.rotated);
          if back.x < 0 || back.y < 0 || back.x + b.width > source.columns || back.y + b.height > source.rows {
            assert t == NoTransfer;
            return;
          }
          var sourceOverlaps := GetItemsInRect(source.entries, Rect(back.x, back.y, b.width, b.height), item);
          if |sourceOverlaps| == 0 {
            assert t == Swap(dest, back);
            TransferSwap(source, item, back, x, y, rotated);
          } else {
            assert t == NoTransfer;
          }
        }
      } else {
        assert t == NoTransfer;
      }
    }

    /**
     * The free-cells branch of TransferAcross: the entry of `item` moves from `source`
     * to (x, y) here. The source takes the entry out before it is added here; as
     * nothing observes the state in between, the model adds it here first.
     */
    method TransferPlace(source: InventoryManagerComponent, item: ItemInstance, x: int, y: int, rotated: bool)
      requires Valid() && source.Valid() && source != this && Disjoint(source)
      requires item in ItemsOf(source.entries)
      requires InBounds(Footprint(Entry(item, x, y, rotated)), columns, rows)
      requires GetItemsInRect(entries, Footprint(Entry(item, x, y, rotated)), null) == []
      modifies this, source
      ensures entries == old(entries) + [Entry(item, x, y, rotated)]
      ensures source.entries == RemoveEntry(old(source.entries), item)
      ensures cursor == old(cursor) && spawned == old(spawned)
      ensures source.cursor == old(source.cursor) && source.spawned == old(source.spawned)
      ensures Valid() && source.Valid() && Disjoint(source)
      ensures Total() == old(Total() + item.count) && source.Total() == old(source.Total() - item.count)
    {
      MoveOverFits(entries, cursor, source.entries, source.cursor, Entry(item, x, y, rotated),
        columns, rows, source.columns, source.rows);
      ghost var sourceCounts := CountsOf(source.entries);
      ReplaceEntry(null, Entry(item, x, y, rotated));
      assert CountsOf(source.entries) == sourceCounts;
      var _ := RemoveFrom(source, item);
    }

    /**
     * The second half of TransferPlace: `source` lets go of the entry of `item`, while
     * this component keeps its state.
     */
    method RemoveFrom(source: InventoryManagerComponent, item: ItemInstance) returns (removed: bool)
      requires source.Valid() && source != this && Valid()
      modifies source
      ensures removed <==> IndexOf(old(source.entries), item).Some?
      ensures source.entries == RemoveEntry(old(source.entries), item)
      ensures source.cursor == old(source.cursor) && source.spawned == old(source.spawned)
      ensures source.Valid() && Valid() && Total() == old(Total())
      ensures source.Total() == old(source.Total() - (if IndexOf(source.entries, item).Some? then item.count else 0))
    {
      RemovalKeeps(source.entries, source.cursor, item, source.columns, source.rows);
      ghost var sourceCounts := CountsOf(RemoveEntry(source.entries, item));
      ghost var counts := CountsOf(entries);
      removed := source.InternalRemoveItem(item);
      assert CountsOf(source.entries) == sourceCounts;
      assert CountsOf(entries) == counts;
    }

    /**
     * The same-definition branch of TransferAcross: as many units of `item` as fit
     * move onto `dest`, the stack here that the drop meets; `item`'s entry leaves
     * `source` when all of it moved.
     */
    method TransferMerge(source: InventoryManagerComponent, item: ItemInstance, dest: ItemInstance)
      requires Valid() && source.Valid() && source != this && Disjoint(source)
      requires item in ItemsOf(source.entries) && dest in ItemsOf(entries) && dest.def == item.def
      modifies source, item, dest
      ensures var move := Stacking.StackMove(Lib.DefinitionMaxStack(item.def), old(dest.count), old(item.count));
        dest.count == old(dest.count) + move &&
        (move < old(item.count) ==> source.entries == old(source.entries) && item.count == old(item.count) - move) &&
        (move >= old(item.count) ==> source.entries == RemoveEntry(old(source.entries), item) && item.count == old(item.count)) &&
        Total() == old(Total()) + move && source.Total() == old(source.Total()) - move
      ensures source.cursor == old(source.cursor) && source.spawned == old(source.spawned)
      ensures Valid() && source.Valid() && Disjoint(source)
    {
      assert item !in Held(entries, cursor);
      ItemsOfIndexOf(source.entries, item);
      assert InStackRange(source.entries[IndexOf(source.entries, item).value].item);
      var maxStack := Lib.DefinitionMaxStack(dest.def);
      var sourceStack := item.count;
      var destStack := dest.count;
      if destStack < maxStack {
        var move := Stacking.Min(sourceStack, maxStack - destStack);
        if move > 0 {
          MoveUnits(source, item, dest, move);
        }
      }
    }

    /** `amount` units, which fit, go from the stack `item` of `source` onto the stack `dest` here. */
    method MoveUnits(source: InventoryManagerComponent, item: ItemInstance, dest: ItemInstance, amount: int)
      requires Valid() && source.Valid() && source != this && Disjoint(source)
      requires item in ItemsOf(source.entries) && dest in ItemsOf(entries)
      requires 0 < amount <= item.count && dest.count + amount <= Lib.DefinitionMaxStack(dest.def)
      modifies source, item, dest
      ensures dest.count == old(dest.count) + amount
      ensures amount < old(item.count) ==> source.entries == old(source.entries) && item.count == old(item.count) - amount
      ensures amount == old(item.count) ==> source.entries == RemoveEntry(old(source.entries), item) && item.count == old(item.count)
      ensures source.cursor == old(source.cursor) && source.spawned == old(source.spawned)
      ensures ItemsOf(source.entries) <= ItemsOf(old(source.entries))
      ensures Valid() && Total() == old(Total()) + amount
      ensures source.Valid() && source.Total() == old(source.Total()) - amount
    {
      ghost var sourceCounts := CountsOf(source.entries);
      GrowStack(dest, amount, entries, cursor, columns, rows);
      assert CountsOf(source.entries) == sourceCounts;
      TakeFrom(source, item, amount);
    }

    /**
     * The second half of TransferMerge: `source` gives up `amount` units of its stack
     * `item`, while this component keeps its state.
     */
    method TakeFrom(source: InventoryManagerComponent, item: ItemInstance, amount: int)
      requires source.Valid() && source != this && Valid()
      requires item in ItemsOf(source.entries) && item !in Held(entries, cursor) && 0 < amount <= item.count
      modifies source, item
      ensures amount < old(item.count) ==> source.entries == old(source.entries) && item.count == old(item.count) - amount
      ensures amount == old(item.count) ==> source.entries == RemoveEntry(old(source.entries), item) && item.count == old(item.count)
      ensures source.cursor == old(source.cursor) && source.spawned == old(source.spawned)
      ensures ItemsOf(source.entries) <= ItemsOf(old(source.entries))
      ensures source.Valid() && source.Total() == old(source.Total()) - amount
      ensures Valid() && Total() == old(Total())
    {
      ghost var counts := CountsOf(entries);
      source.TakeUnits(item, amount);
      assert CountsOf(entries) == counts;
    }

    /**
     * The other-definition branch of TransferAcross: `item` goes to (x, y) here in
     * place of `back.item`, the one stack the drop meets, and that stack goes to
     * `back`, the spot `item` leaves in `source`. The four list edits (out of the source,
     * out of here, into here, into the source) are grouped per component, which ends in
     * the same state.
     */
    method TransferSwap(source: InventoryManagerComponent, item: ItemInstance, back: Entry, x: int, y: int, rotated: bool)
      requires Valid() && source.Valid() && source != this && Disjoint(source)
      requires item in ItemsOf(source.entries) && back.item != null
      requires InBounds(Footprint(Entry(item, x, y, rotated)), columns, rows)
      requires GetItemsInRect(entries, Footprint(Entry(item, x, y, rotated)), null) == [back.item]
      requires InBounds(Footprint(back), source.columns, source.rows)
      requires GetItemsInRect(source.entries, Footprint(back), item) == []
      modifies this, source
      ensures entries == RemoveEntry(old(entries), back.item) + [Entry(item, x, y, rotated)]
      ensures source.entries == RemoveEntry(old(source.entries), item) + [back]
      ensures cursor == old(cursor) && spawned == old(spawned)
      ensures source.cursor == old(source.cursor) && source.spawned == old(source.spawned)
      ensures Valid() && source.Valid() && Disjoint(source)
      ensures Total() == old(Total() - back.item.count + item.count)
      ensures source.Total() == old(source.Total() - item.count + back.item.count)
    {
      var e := Entry(item, x, y, rotated);
      var dest := back.item;
      SwapStaysApart(entries, cursor, source.entries, source.cursor, e, back, columns, rows, source.columns, source.rows);
      ghost var sourceCounts := CountsOf(source.entries);
      ReplaceEntry(dest, e);
      assert CountsOf(source.entries) == sourceCounts;
      ReturnEntry(source, item, back);
    }

    /**
     * The second half of TransferSwap: in `source`, the entry of `item` gives way to
     * `back`, while this component keeps its state.
     */
    method ReturnEntry(source: InventoryManagerComponent, item: ItemInstance, back: Entry)
      requires ReplaceFits(source.entries, source.cursor, item, back, source.columns, source.rows)
      requires source != this && Valid()
      modifies source
      ensures source.entries == RemoveEntry(old(source.entries), item) + [back]
      ensures source.cursor == old(source.cursor) && source.spawned == old(source.spawned)
      ensures source.Valid() && Valid() && Total() == old(Total())
      ensures source.Total() == old(source.Total() - (if IndexOf(source.entries, item).Some? then Count(item) else 0) + back.item.count)
    {
      ghost var counts := CountsOf(entries);
      source.ReplaceEntry(item, back);
      assert CountsOf(entries) == counts;
    }

    /** Debug entry point: adds `stackCount` of `def` as AddItemDefinition does. */
    method DebugAddItem(hasAuthority: bool, def: ItemDefinition?, stackCount: int)
      returns (ghost made: seq<Entry>, ghost spilled: int)
      requires Valid()
      modifies this, ItemsOf(entries)
      ensures Valid()
      ensures !hasAuthority || def == null || stackCount <= 0 ==>
        made == [] && spilled == 0 && unchanged(this) && unchanged(ItemsOf(entries))
      ensures hasAuthority && def != null && stackCount > 0 ==>
        cursor == old(cursor) &&
        Total() + SpawnedCount(spawned) == old(Total() + SpawnedCount(spawned)) + stackCount &&
        entries == old(entries) + made &&
        (var pass := Stacking.TopUp(old(CountsOf(entries)), MatchesOf(old(entries), def), Lib.DefinitionMaxStack(def), stackCount);
         (forall k :: 0 <= k < |old(entries)| ==> Count(old(entries)[k].item) == pass.counts[k]) &&
         (pass.remaining == 0 ==> made == [] && spilled == 0)) &&
        (forall k :: 0 <= k < |made| ==>
          fresh(made[k].item) && made[k].item.def == def && !made[k].rotated &&
          (made[k].item.count == Lib.DefinitionMaxStack(def) || (k == |made| - 1 && spilled == 0))) &&
        EachAtFirstFreeSlot(old(entries), made, columns, rows, DefinitionSize(def)) &&
        0 <= spilled &&
        (spilled == 0 ==> spawned == old(spawned)) &&
        (spilled > 0 ==>
          spawned == old(spawned) + [Spawn(def, spilled)] &&
          NoFreeSlot(entries, columns, rows, DefinitionSize(def)))
    {
      var ok;
      ok, made, spilled := AddItemDefinition(hasAuthority, def, stackCount);
    }

    /**
     * Takes `item` off the grid onto the empty cursor. Nothing happens for no item,
     * an occupied cursor or an item with no entry here.
     */
    method ServerPickupItem(item: ItemInstance?)
      requires Valid()
      modifies this
      ensures Valid()
      ensures spawned == old(spawned) && Total() == old(Total())
      ensures (entries, cursor) == PickupOutcome(old(entries), old(cursor), item)
      ensures item != null && old(cursor) == null && item in old(ItemsOf(entries)) ==>
        cursor == item && entries == RemoveEntry(old(entries), item)
      ensures !(item != null && old(cursor) == null && item in old(ItemsOf(entries))) ==>
        cursor == old(cursor) && entries == old(entries)
    {
      if item == null || cursor != null {
        return;
      }
      ItemsOfIndexOf(entries, item);
      PickupKeeps(entries, item, columns, rows);
      ghost var counts := CountsOf(RemoveEntry(entries, item));
      var removed := InternalRemoveItem(item);
      assert CountsOf(entries) == counts;
      if removed {
        cursor := item;
      }
    }

    /**
     * Drops the cursor item `item` at (x, y), turned or not, when it fits inside the
     * grid there: onto free cells it is placed and the cursor empties; onto exactly
     * one entry it is placed and that entry's item goes onto the cursor. Nothing
     * happens when `item` is not the cursor item, when it does not fit or when it
     * meets two or more entries.
     */
    method ServerAttemptMove(item: ItemInstance?, x: int, y: int, rotated: bool)
      requires Valid()
      modifies this
      ensures Valid()
      ensures spawned == old(spawned) && Total() == old(Total())
      ensures (entries, cursor) == MoveOutcome(old(entries), old(cursor), columns, rows, item, x, y, rotated)
    {
      if cursor == null || cursor != item {
        return;
      }
      var size := GetItemDimensions(cursor, rotated);
      if x < 0 || y < 0 || x + size.width > columns || y + size.height > rows {
        return;
      }
      var overlaps := GetItemsInRect(entries, Rect(x, y, size.width, size.height), null);
      if |overlaps| == 0 {
        PlaceCursor(x, y, rotated);
      } else if |overlaps| == 1 {
        ExchangeCursor(overlaps[0], x, y, rotated);
      }
    }

    /**
     * The free-cells branch of ServerAttemptMove: the cursor item goes, turned or not,
     * to (x, y), inside the grid and meeting no entry, and the cursor empties.
     */
    method PlaceCursor(x: int, y: int, rotated: bool)
      requires Valid() && cursor != null
      requires InBounds(Footprint(Entry(cursor, x, y, rotated)), columns, rows)
      requires GetItemsInRect(entries, Footprint(Entry(cursor, x, y, rotated)), null) == []
      modifies this
      ensures Valid()
      ensures entries == old(entries) + [Entry(old(cursor), x, y, rotated)] && cursor == null
      ensures spawned == old(spawned) && Total() == old(Total())
    {
      var e := Entry(cursor, x, y, rotated);
      PlaceKeeps(entries, e, columns, rows);
      ghost var counts := CountsOf(entries + [e]);
      var _ := InternalAddItemInstance(cursor, x, y, rotated);
      cursor := null;
      assert CountsOf(entries) == counts;
    }

    /**
     * The one-entry branch of ServerAttemptMove: the cursor item goes, turned or not,
     * to (x, y), inside the grid and meeting only the entry of `other`; `other` leaves
     * the grid and becomes the cursor item.
     */
    method ExchangeCursor(other: ItemInstance, x: int, y: int, rotated: bool)
      requires Valid() && cursor != null
      requires InBounds(Footprint(Entry(cursor, x, y, rotated)), columns, rows)
      requires GetItemsInRect(entries, Footprint(Entry(cursor, x, y, rotated)), null) == [other]
      modifies this
      ensures Valid()
      ensures entries == RemoveEntry(old(entries), other) + [Entry(old(cursor), x, y, rotated)] && cursor == other
      ensures spawned == old(spawned) && Total() == old(Total())
    {
      var e := Entry(cursor, x, y, rotated);
      ExchangeKeeps(entries, e, other, columns, rows);
      ghost var exchanged := RemoveEntry(entries, other) + [e];
      ghost var counts := CountsOf(exchanged);
      var removed := InternalRemoveItem(other);
      assert CountsOf(exchanged) == counts;
      if removed {
        var _ := InternalAddItemInstance(cursor, x, y, rotated);
        cursor := other;
        assert CountsOf(entries) == counts;
      }
    }

    /** Sends the cursor item's whole stack to the world sink and empties the cursor. */
    method ServerDropFromCursor()
      requires Valid()
      modifies this
      ensures Valid()
      ensures entries == old(entries) && cursor == null
      ensures old(cursor) == null ==> spawned == old(spawned)
      ensures old(cursor) != null ==> spawned == old(spawned) + [Spawn(old(cursor).def, old(cursor).count)]
      ensures Total() + SpawnedCount(spawned) == old(Total() + SpawnedCount(spawned))
    {
      if cursor != null {
        ghost var counts := CountsOf(entries);
        SpawnedCountAppend(spawned, Spawn(cursor.def, cursor.count));
        SpawnItemInWorld(cursor, cursor.count);
        assert CountsOf(entries) == counts;
        cursor := null;
      }
    }

    /**
     * Sends the whole stack of `item` to the world sink and removes its entry; nothing
     * happens when `item` has no entry here.
     */
    method ServerDropFromGrid(item: ItemInstance?)
      requires Valid()
      modifies this
      ensures Valid()
      ensures entries == RemoveEntry(old(entries), item) && cursor == old(cursor)
      ensures IndexOf(old(entries), item).None? ==> spawned == old(spawned)
      ensures IndexOf(old(entries), item).Some? ==> item != null && spawned == old(spawned) + [Spawn(item.def, item.count)]
      ensures Total() + SpawnedCount(spawned) == old(Total() + SpawnedCount(spawned))
    {
      RemovalKeeps(entries, cursor, item, columns, rows);
      ghost var counts := CountsOf(RemoveEntry(entries, item));
      match IndexOf(entries, item)
      case None =>
      case Some(idx) =>
        var found := entries[idx].item;
        assert found == item && Placed(entries[idx], columns, rows);
        var stack := found.count;
        SpawnedCountAppend(spawned, Spawn(found.def, stack));
        SpawnItemInWorld(found, stack);
        entries := entries[..idx] + entries[idx + 1..];
      assert CountsOf(entries) == counts;
    }

    /**
     * `amount`, less than the stack, comes off `item`. A list whose cursor item is not
     * `item` keeps its invariant and loses `amount` from its total when it holds `item`.
     */
    static method ShrinkStack(item: ItemInstance, amount: int, ghost es: seq<Entry>, ghost cur: ItemInstance?, ghost columns: int, ghost rows: int)
      requires ValidState(es, cur, columns, rows) && cur != item && 0 < amount < item.count
      modifies item
      ensures item.count == old(item.count) - amount
      ensures ValidState(es, cur, columns, rows)
      ensures TotalOf(es, cur) == old(TotalOf(es, cur)) - (if item in ItemsOf(es) then amount else 0)
    {
      ghost var before := CountsOf(es);
      item.RemoveStatTagStack(amount);
      ghost var after := CountsOf(es);
      assert forall k :: 0 <= k < |es| ==> old(InStackRange(es[k].item));
      forall k | 0 <= k < |es| && es[k].item != item
        ensures InStackRange(es[k].item) && after[k] == before[k]
      {
      }
      if item in ItemsOf(es) {
        WellPlacedItems(es, columns, rows);
        var i :| 0 <= i < |es| && es[i].item == item;
        assert after == before[i := item.count];
        Stacking.SumUpdate(before, i, item.count);
      } else {
        assert after == before;
      }
    }

    /**
     * `amount` more units go onto the held stack `item`, which has room for them. The
     * list keeps its invariant and gains `amount`.
     */
    static method GrowStack(item: ItemInstance, amount: int, ghost es: seq<Entry>, ghost cur: ItemInstance?, ghost columns: int, ghost rows: int)
      requires ValidState(es, cur, columns, rows) && item in ItemsOf(es)
      requires 0 < amount && item.count + amount <= Lib.DefinitionMaxStack(item.def)
      modifies item
      ensures item.count == old(item.count) + amount
      ensures ValidState(es, cur, columns, rows)
      ensures TotalOf(es, cur) == old(TotalOf(es, cur)) + amount
    {
      ghost var before := CountsOf(es);
      item.AddStatTagStack(amount);
      ghost var after := CountsOf(es);
      assert forall k :: 0 <= k < |es| ==> old(InStackRange(es[k].item));
      forall k | 0 <= k < |es| && es[k].item != item
        ensures InStackRange(es[k].item) && after[k] == before[k]
      {
      }
      WellPlacedItems(es, columns, rows);
      ghost var i :| 0 <= i < |es| && es[i].item == item;
      assert after == before[i := item.count];
      Stacking.SumUpdate(before, i, item.count);
    }

    /**
     * Splits `amount` off the stack of `item` onto the empty cursor as a fresh
     * instance of the same definition. Nothing happens for no item, an occupied
     * cursor, an amount that is not positive or a stack no larger than `amount`.
     * Whether `item` is held here is not checked: when it is, the quantity held is
     * unchanged; when it is not, the cursor's units come out of that other stack.
     */
    method ServerSplitStack(item: ItemInstance?, amount: int)
      requires Valid()
      modifies this, item
      ensures Layout() && entries == old(entries) && spawned == old(spawned)
      ensures old(InStackRange(item)) ==> Valid()
      ensures item != null && old(cursor) == null && amount > 0 && old(item.count) > amount ==>
        fresh(cursor) && cursor.def == item.def && cursor.count == amount && item.count == old(item.count) - amount
      ensures !(item != null && old(cursor) == null && amount > 0 && old(item.count) > amount) ==>
        cursor == old(cursor) && (item != null ==> item.count == old(item.count))
      ensures item != null && item in ItemsOf(entries) ==> Total() == old(Total())
      ensures item != null && item !in ItemsOf(entries) ==> Total() + item.count == old(Total() + item.count)
    {
      if item == null || cursor != null || amount <= 0 {
        return;
      }
      var current := item.count;
      if current <= amount {
        return;
      }
      ShrinkStack(item, amount, entries, null, columns, rows);
      var split := NewStack(item.def, amount);
      cursor := split;
    }

    /** Takes `item`'s entry off the grid, handing the item to the equipment side. */
    method ServerEquipItem(item: ItemInstance?)
      requires Valid()
      modifies this
      ensures Valid()
      ensures entries == RemoveEntry(old(entries), item) && cursor == old(cursor) && spawned == old(spawned)
      ensures Total() == old(Total()) - (if IndexOf(old(entries), item).Some? then Count(item) else 0)
    {
      RemovalKeeps(entries, cursor, item, columns, rows);
      ghost var counts := CountsOf(RemoveEntry(entries, item));
      var _ := InternalRemoveItem(item);
      assert CountsOf(entries) == counts;
    }
  }
}
