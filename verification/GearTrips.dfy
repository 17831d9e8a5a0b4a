/**
 Trips as they are counted and shown (site/src/data/gear-trips.js): the rows of a stretch
 turned into swaps, setups, and a kit with what was worn the longest.
 */
module GearTrips {
  import opened GearStretches

  // ----- What was worn -----

  datatype Key = Key(slot: nat, id: int)
  datatype Use = Use(item: Item, ms: nat)
  datatype Entry = Entry(quantity: int, ms: nat, order: nat)
  type Worn = map<Key, Entry>

  function KeyOf(item: Item): Key {
    Key(item.slot, item.id)
  }

  function UsesOf(items: Outfit, ms: nat): seq<Use> {
    seq(|items|, i requires 0 <= i < |items| => Use(items[i], ms))
  }

  function AllUses(wearings: seq<Wearing>): seq<Use> {
    if wearings == [] then []
    else AllUses(wearings[..|wearings| - 1]) + UsesOf(wearings[|wearings| - 1].items, wearings[|wearings| - 1].ms)
  }

  function WithUse(worn: Worn, use: Use): Worn {
    var key := KeyOf(use.item);
    if key in worn then worn[key := worn[key].(ms := worn[key].ms + use.ms)]
    else worn[key := Entry(use.item.quantity, use.ms, |worn|)]
  }

  function WornOf(uses: seq<Use>): Worn {
    if uses == [] then map[] else WithUse(WornOf(uses[..|uses| - 1]), uses[|uses| - 1])
  }

  ghost predicate Listed(items: seq<Item>, key: Key) {
    exists i | 0 <= i < |items| :: KeyOf(items[i]) == key
  }

  /** The items used, each as it was first. */
  ghost function FirstUsed(uses: seq<Use>): seq<Item> {
    if uses == [] then []
    else
      var first := FirstUsed(uses[..|uses| - 1]);
      var item := uses[|uses| - 1].item;
      if Listed(first, KeyOf(item)) then first else first + [item]
  }

  /** How long an item was worn in all. */
  ghost function TotalMs(uses: seq<Use>, key: Key): nat {
    if uses == [] then 0
    else TotalMs(uses[..|uses| - 1], key) + if KeyOf(uses[|uses| - 1].item) == key then uses[|uses| - 1].ms else 0
  }

  ghost predicate Distinct(items: seq<Item>) {
    forall i, j | 0 <= i < j < |items| :: KeyOf(items[i]) != KeyOf(items[j])
  }

  /** Whether there is an entry for each item, and no other. */
  ghost predicate KeysOf(worn: Worn, first: seq<Item>) {
    |worn| == |first| && forall key :: key in worn <==> Listed(first, key)
  }

  /** Whether the items' entries say what was used, and for how long in all, in the order of first use. */
  ghost predicate TimesOf(worn: Worn, first: seq<Item>, uses: seq<Use>) {
    forall i | 0 <= i < |first| ::
      KeyOf(first[i]) in worn && worn[KeyOf(first[i])] == Entry(first[i].quantity, TotalMs(uses, KeyOf(first[i])), i)
  }

  /** Whether the entries are those of the items used. */
  ghost predicate EntriesOf(worn: Worn, first: seq<Item>, uses: seq<Use>) {
    Distinct(first) && KeysOf(worn, first) && TimesOf(worn, first, uses)
  }

  lemma {:induction false} NeverUsed(uses: seq<Use>, key: Key)
    requires !Listed(FirstUsed(uses), key)
    ensures TotalMs(uses, key) == 0
    decreases |uses|
  {
    if uses != [] {
      var n := |uses| - 1;
      UsedGrows(FirstUsed(uses[..n]), uses[n].item, key);
      NeverUsed(uses[..n], key);
    }
  }

  lemma UsedGrows(first: seq<Item>, item: Item, key: Key)
    ensures Listed(first + [item], key) <==> Listed(first, key) || KeyOf(item) == key
  {
    var all := first + [item];
    assert all[|first|] == item && forall i | 0 <= i < |first| :: all[i] == first[i];
    if i :| 0 <= i < |first| && KeyOf(first[i]) == key {
      assert KeyOf(all[i]) == key;
    }
  }

  lemma {:induction false} WornIsRight(uses: seq<Use>)
    ensures EntriesOf(WornOf(uses), FirstUsed(uses), uses)
    decreases |uses|
  {
    if uses != [] {
      var n := |uses| - 1;
      WornIsRight(uses[..n]);
      UseKeepsEntries(WornOf(uses[..n]), FirstUsed(uses[..n]), uses);
    }
  }

  lemma UseKeepsEntries(worn: Worn, first: seq<Item>, uses: seq<Use>)
    requires uses != [] && first == FirstUsed(uses[..|uses| - 1]) && EntriesOf(worn, first, uses[..|uses| - 1])
    ensures EntriesOf(WithUse(worn, uses[|uses| - 1]), FirstUsed(uses), uses)
  {
    var n := |uses| - 1;
    var key := KeyOf(uses[n].item);
    if Listed(first, key) {
      UsedAgain(worn, first, uses);
    } else {
      NeverUsed(uses[..n], key);
      UsedFirst(worn, first, uses);
    }
  }

  lemma UsedAgain(worn: Worn, first: seq<Item>, uses: seq<Use>)
    requires uses != [] && EntriesOf(worn, first, uses[..|uses| - 1]) && Listed(first, KeyOf(uses[|uses| - 1].item))
    ensures EntriesOf(WithUse(worn, uses[|uses| - 1]), first, uses)
  {
    var after := WithUse(worn, uses[|uses| - 1]);
    assert after.Keys == worn.Keys;
    assert |after| == |after.Keys| && |worn| == |worn.Keys|;
  }

  lemma DistinctGrows(first: seq<Item>, item: Item)
    ensures Distinct(first + [item]) <==> Distinct(first) && !Listed(first, KeyOf(item))
  {
    var more := first + [item];
    assert more[|first|] == item && forall i | 0 <= i < |first| :: more[i] == first[i];
    if Listed(first, KeyOf(item)) {
      var i :| 0 <= i < |first| && KeyOf(first[i]) == KeyOf(item);
      assert KeyOf(more[i]) == KeyOf(more[|first|]);
    }
  }

  lemma UsedFirst(worn: Worn, first: seq<Item>, uses: seq<Use>)
    requires uses != [] && EntriesOf(worn, first, uses[..|uses| - 1]) && !Listed(first, KeyOf(uses[|uses| - 1].item))
    requires TotalMs(uses[..|uses| - 1], KeyOf(uses[|uses| - 1].item)) == 0
    ensures EntriesOf(WithUse(worn, uses[|uses| - 1]), first + [uses[|uses| - 1].item], uses)
  {
    DistinctGrows(first, uses[|uses| - 1].item);
    NewKey(worn, first, uses[|uses| - 1]);
    NewEntry(worn, first, uses);
  }

  lemma NewKey(worn: Worn, first: seq<Item>, use: Use)
    requires KeysOf(worn, first) && KeyOf(use.item) !in worn
    ensures KeysOf(WithUse(worn, use), first + [use.item])
  {
    var after := WithUse(worn, use);
    assert after.Keys == worn.Keys + {KeyOf(use.item)};
    assert |after| == |after.Keys| && |worn| == |worn.Keys|;
    forall key
      ensures key in after <==> Listed(first + [use.item], key)
    {
      UsedGrows(first, use.item, key);
    }
  }

  lemma {:induction false} NewEntry(worn: Worn, first: seq<Item>, uses: seq<Use>)
    requires uses != [] && |worn| == |first| && KeyOf(uses[|uses| - 1].item) !in worn
    requires TotalMs(uses[..|uses| - 1], KeyOf(uses[|uses| - 1].item)) == 0 && TimesOf(worn, first, uses[..|uses| - 1])
    ensures TimesOf(WithUse(worn, uses[|uses| - 1]), first + [uses[|uses| - 1].item], uses)
  {
    var (after, more) := (WithUse(worn, uses[|uses| - 1]), first + [uses[|uses| - 1].item]);
    forall i | 0 <= i < |more|
      ensures KeyOf(more[i]) in after && after[KeyOf(more[i])] == Entry(more[i].quantity, TotalMs(uses, KeyOf(more[i])), i)
    {
      if i < |first| {
        assert more[i] == first[i] && KeyOf(first[i]) in worn;
      }
    }
  }

  // ----- How long things were worn -----

  ghost predicate OnePerSlot(items: Outfit) {
    forall i, j | 0 <= i < j < |items| :: items[i].slot != items[j].slot
  }

  ghost predicate Wears(items: Outfit, slot: nat) {
    exists i | 0 <= i < |items| :: items[i].slot == slot
  }

  /** How long the items of a slot were worn, by their entries. */
  ghost function EntriesMs(first: seq<Item>, uses: seq<Use>, slot: nat): nat {
    if first == [] then 0
    else
      var item := first[|first| - 1];
      EntriesMs(first[..|first| - 1], uses, slot) + if item.slot == slot then TotalMs(uses, KeyOf(item)) else 0
  }

  ghost function SlotMs(uses: seq<Use>, slot: nat): nat {
    if uses == [] then 0
    else SlotMs(uses[..|uses| - 1], slot) + if uses[|uses| - 1].item.slot == slot then uses[|uses| - 1].ms else 0
  }

  /** How long rows wear something in a slot. */
  ghost function RowsMs(rows: seq<Row>, indexes: seq<nat>, slot: nat, now: int): nat
    requires IndexesOf(indexes, rows)
  {
    if indexes == [] then 0
    else
      var i := indexes[|indexes| - 1];
      RowsMs(rows, indexes[..|indexes| - 1], slot, now) + if Wears(rows[i].items, slot) then WornMs(rows, i, now) else 0
  }

  /** A use more adds its time to its own entry. */
  lemma {:induction false} UseAddsMs(first: seq<Item>, uses: seq<Use>, slot: nat)
    requires uses != [] && Distinct(first)
    ensures var use := uses[|uses| - 1];
            EntriesMs(first, uses, slot) == EntriesMs(first, uses[..|uses| - 1], slot)
              + if use.item.slot == slot && Listed(first, KeyOf(use.item)) then use.ms else 0
    decreases |first|
  {
    if first != [] {
      var n := |first| - 1;
      var key := KeyOf(uses[|uses| - 1].item);
      assert first == first[..n] + [first[n]];
      DistinctGrows(first[..n], first[n]);
      UseAddsMs(first[..n], uses, slot);
      UsedGrows(first[..n], first[n], key);
    }
  }

  /** The entries of a slot share the time in which anything was worn there. */
  lemma {:induction false} EntriesShareTime(uses: seq<Use>, slot: nat)
    ensures EntriesMs(FirstUsed(uses), uses, slot) == SlotMs(uses, slot)
    decreases |uses|
  {
    if uses != [] {
      var n := |uses| - 1;
      var (first, item) := (FirstUsed(uses[..n]), uses[n].item);
      EntriesShareTime(uses[..n], slot);
      WornIsRight(uses[..n]);
      UseAddsMs(first, uses, slot);
      if !Listed(first, KeyOf(item)) {
        NeverUsed(uses[..n], KeyOf(item));
        assert FirstUsed(uses) == first + [item] && (first + [item])[..|first|] == first;
      }
    }
  }

  lemma {:induction false} SlotMsConcat(a: seq<Use>, b: seq<Use>, slot: nat)
    ensures SlotMs(a + b, slot) == SlotMs(a, slot) + SlotMs(b, slot)
    decreases |b|
  {
    if b == [] {
      assert a + b == a;
    } else {
      assert (a + b)[..|a + b| - 1] == a + b[..|b| - 1];
      SlotMsConcat(a, b[..|b| - 1], slot);
    }
  }

  lemma {:induction false} OutfitMs(items: Outfit, ms: nat, slot: nat)
    requires OnePerSlot(items)
    ensures SlotMs(UsesOf(items, ms), slot) == if Wears(items, slot) then ms else 0
    decreases |items|
  {
    if items != [] {
      var n := |items| - 1;
      assert UsesOf(items, ms)[..n] == UsesOf(items[..n], ms);
      OutfitMs(items[..n], ms, slot);
      if Wears(items[..n], slot) {
        var i :| 0 <= i < n && items[..n][i].slot == slot;
        assert items[i].slot == slot;
      }
      if i :| 0 <= i < n && items[i].slot == slot {
        assert items[..n][i].slot == slot;
      }
    }
  }

  lemma {:induction false} RowsShareTime(rows: seq<Row>, stretch: Stretch, now: int, slot: nat)
    requires IndexesOf(stretch.rows, rows) && OnePerSlot(stretch.carried)
    requires forall i | 0 <= i < |rows| :: OnePerSlot(rows[i].items)
    ensures SlotMs(AllUses(WornOn(rows, stretch, now)), slot) == RowsMs(rows, stretch.rows, slot, now)
    decreases |stretch.rows|
  {
    var wearings := WornOn(rows, stretch, now);
    if stretch.rows == [] {
      if stretch.carried != [] {
        OutfitMs(stretch.carried, 0, slot);
        assert wearings[..0] == [] && AllUses(wearings) == UsesOf(stretch.carried, 0);
      }
    } else {
      var n := |stretch.rows| - 1;
      var i := stretch.rows[n];
      var before := stretch.(rows := stretch.rows[..n]);
      RowsShareTime(rows, before, now, slot);
      assert wearings[..|wearings| - 1] == WornOn(rows, before, now);
      OutfitMs(rows[i].items, WornMs(rows, i, now), slot);
      SlotMsConcat(AllUses(WornOn(rows, before, now)), UsesOf(rows[i].items, WornMs(rows, i, now)), slot);
    }
  }

  /** Every row that is read wears one item a slot. */
  lemma RowsWearOnePerSlot(rows: seq<Row>, changes: seq<Change>)
    requires SortedFrom(rows, UsableRows(changes))
    ensures forall i | 0 <= i < |rows| :: OnePerSlot(rows[i].items)
  {
    forall i | 0 <= i < |rows|
      ensures OnePerSlot(rows[i].items)
    {
      RowIsAtItsTime(rows, i);
      RowsAtAreRows(UsableRows(changes), rows[i].at, rows[i]);
      UsableWearOnePerSlot(changes, rows[i]);
    }
  }

  lemma {:induction false} RowIsAtItsTime(rows: seq<Row>, i: nat)
    requires i < |rows|
    ensures rows[i] in RowsAt(rows, rows[i].at)
    decreases |rows|
  {
    if i < |rows| - 1 {
      RowIsAtItsTime(rows[..|rows| - 1], i);
    }
  }

  lemma {:induction false} RowsAtAreRows(rows: seq<Row>, at: int, row: Row)
    requires row in RowsAt(rows, at)
    ensures row in rows
    decreases |rows|
  {
    if row != rows[|rows| - 1] {
      RowsAtAreRows(rows[..|rows| - 1], at, row);
    }
  }

  lemma {:induction false} UsableWearOnePerSlot(changes: seq<Change>, row: Row)
    requires row in UsableRows(changes)
    ensures OnePerSlot(row.items)
    decreases |changes|
  {
    var n := |changes| - 1;
    if row in UsableRows(changes[..n]) {
      UsableWearOnePerSlot(changes[..n], row);
    }
  }

  /** On each trip of some changes, the times of what was worn in a slot add up to those of the rows that wear something there. */
  lemma WornTimeAddsUp(changes: seq<Change>, rows: seq<Row>, now: int, k: nat, slot: nat)
    requires SortedFrom(rows, UsableRows(changes)) && k < |Stretches(rows, |rows|, now)|
    ensures var stretch := Stretches(rows, |rows|, now)[k];
            var uses := AllUses(WornOn(rows, stretch, now));
            EntriesMs(FirstUsed(uses), uses, slot) == RowsMs(rows, stretch.rows, slot, now)
  {
    var stretch := Stretches(rows, |rows|, now)[k];
    StretchesAreTrips(rows, |rows|, now);
    RowsWearOnePerSlot(rows, changes);
    assert OneTrip(rows, stretch, now);
    EntriesShareTime(AllUses(WornOn(rows, stretch, now)), slot);
    RowsShareTime(rows, stretch, now, slot);
  }

  // ----- A trip as it is shown -----

  datatype KitSlot = KitSlot(slot: nat, items: seq<Item>)
  datatype Trip = Trip(startedAt: int, endedAt: int, swaps: nat, setups: nat, kit: seq<KitSlot>)

  /** Where a slot is in SLOT_ORDER, from `from` on; slots that are not in it come after those that are. */
  function RankFrom(slot: nat, from: nat): (r: nat)
    ensures r < |SLOT_ORDER| ==> SLOT_ORDER[r] == slot
    ensures r >= |SLOT_ORDER| ==> r == |SLOT_ORDER| + slot && forall i | from <= i < |SLOT_ORDER| :: SLOT_ORDER[i] != slot
    decreases |SLOT_ORDER| - from
  {
    if from >= |SLOT_ORDER| then |SLOT_ORDER| + slot
    else if SLOT_ORDER[from] == slot then from
    else RankFrom(slot, from + 1)
  }

  function SlotRank(slot: nat): nat {
    RankFrom(slot, 0)
  }

  /** Slots are in the order of SLOT_ORDER, and those it does not have come after them, by their numbers. */
  lemma SlotsInOrder(a: nat, b: nat)
    ensures SlotRank(a) < SlotRank(b) <==>
            || (exists i, j :: 0 <= i < j < |SLOT_ORDER| && SLOT_ORDER[i] == a && SLOT_ORDER[j] == b)
            || (a in SLOT_ORDER && b !in SLOT_ORDER)
            || (a !in SLOT_ORDER && b !in SLOT_ORDER && a < b)
  {
    var (m, n) := (SlotRank(a), SlotRank(b));
    if a in SLOT_ORDER && b in SLOT_ORDER {
      assert SLOT_ORDER[m] == a && SLOT_ORDER[n] == b;
      assert forall i, j | 0 <= i < j < |SLOT_ORDER| :: SLOT_ORDER[i] != SLOT_ORDER[j];
    }
  }

  lemma RanksDiffer(a: nat, b: nat)
    requires a != b
    ensures SlotRank(a) != SlotRank(b)
  {
  }

  /** Whether an entry comes before another of its slot: worn longer, or as long and put on first. */
  predicate ComesFirst(a: Entry, b: Entry) {
    a.ms > b.ms || (a.ms == b.ms && a.order < b.order)
  }

  /** Whether the items of a kit's slot are the entries of that slot, in their order. */
  ghost predicate SlotOf(kit: KitSlot, worn: Worn) {
    && kit.items != []
    && (forall i | 0 <= i < |kit.items| :: EntryOf(kit.items[i], kit.slot, worn))
    && (forall i, j | 0 <= i < j < |kit.items| :: EntryBefore(worn, kit.items[i], kit.items[j]))
    && (forall key | key in worn && key.slot == kit.slot :: Listed(kit.items, key))
  }

  ghost predicate EntryOf(item: Item, slot: nat, worn: Worn) {
    item.slot == slot && KeyOf(item) in worn && worn[KeyOf(item)].quantity == item.quantity
  }

  ghost predicate EntryBefore(worn: Worn, a: Item, b: Item) {
    KeyOf(a) in worn && KeyOf(b) in worn && ComesFirst(worn[KeyOf(a)], worn[KeyOf(b)])
  }

  /** Whether a kit is what was worn, the slots in the game's order. */
  ghost predicate KitOf(kit: seq<KitSlot>, worn: Worn) {
    && (forall i | 0 <= i < |kit| :: SlotOf(kit[i], worn))
    && (forall i, j | 0 <= i < j < |kit| :: SlotRank(kit[i].slot) < SlotRank(kit[j].slot))
    && (forall key | key in worn :: HasSlot(kit, key.slot))
  }

  /** No two entries were put on first at once. */
  ghost predicate OrdersDiffer(worn: Worn) {
    forall a, b | a in worn && b in worn && a != b :: worn[a].order != worn[b].order
  }

  lemma EntriesDiffer(uses: seq<Use>)
    ensures OrdersDiffer(WornOf(uses))
  {
    WornIsRight(uses);
  }

  lemma {:induction false} FirstEntry(worn: Worn, keys: set<Key>, some: Key) returns (first: Key)
    requires some in keys && keys <= worn.Keys && OrdersDiffer(worn)
    ensures first in keys && forall key | key in keys && key != first :: ComesFirst(worn[first], worn[key])
    decreases |keys|
  {
    if keys == {some} {
      first := some;
    } else {
      var rest := keys - {some};
      assert rest != {};
      var other :| other in rest;
      first := FirstEntry(worn, rest, other);
      if ComesFirst(worn[some], worn[first]) {
        first := some;
      }
    }
  }

  lemma {:induction false} FirstSlot(slots: set<nat>, some: nat) returns (first: nat)
    requires some in slots
    ensures first in slots && forall slot | slot in slots && slot != first :: SlotRank(first) < SlotRank(slot)
    decreases |slots|
  {
    if slots == {some} {
      first := some;
    } else {
      var rest := slots - {some};
      assert rest != {};
      var other :| other in rest;
      first := FirstSlot(rest, other);
      RanksDiffer(first, some);
      if SlotRank(some) < SlotRank(first) {
        first := some;
      }
    }
  }

  ghost predicate SlotWorn(worn: Worn, slot: nat) {
    exists key :: key in worn && key.slot == slot
  }

  /** Whether some items are the entries of a slot but for some, all of which come later. */
  ghost predicate PartOfSlot(items: seq<Item>, left: set<Key>, slot: nat, worn: Worn) {
    && left <= worn.Keys && (forall key | key in left :: key.slot == slot)
    && (forall key | key in worn && key.slot == slot :: key in left || Listed(items, key))
    && (forall i | 0 <= i < |items| :: EntryOf(items[i], slot, worn))
    && (forall i, key | 0 <= i < |items| && key in left :: ComesFirst(worn[KeyOf(items[i])], worn[key]))
    && (forall i, j | 0 <= i < j < |items| :: EntryBefore(worn, items[i], items[j]))
  }

  lemma SlotGrows(items: seq<Item>, left: set<Key>, slot: nat, worn: Worn, key: Key)
    requires PartOfSlot(items, left, slot, worn) && key in left
    requires forall other | other in left && other != key :: ComesFirst(worn[key], worn[other])
    ensures PartOfSlot(items + [Item(slot, key.id, worn[key].quantity)], left - {key}, slot, worn)
  {
    var item := Item(slot, key.id, worn[key].quantity);
    var more := items + [item];
    assert KeyOf(item) == key;
    assert more[|items|] == item && forall i | 0 <= i < |items| :: more[i] == items[i];
    forall k | k in worn && k.slot == slot
      ensures k in left - {key} || Listed(more, k)
    {
      UsedGrows(items, item, k);
    }
  }

  /** The items of a slot, the longest worn first. */
  method ItemsOfSlot(worn: Worn, slot: nat) returns (items: seq<Item>)
    requires OrdersDiffer(worn) && SlotWorn(worn, slot)
    ensures SlotOf(KitSlot(slot, items), worn)
  {
    items := [];
    var left := set key | key in worn && key.slot == slot;
    ghost var any :| any in worn && any.slot == slot;
    assert any in left;
    while left != {}
      invariant PartOfSlot(items, left, slot, worn) && (items == [] ==> left != {})
    {
      ghost var some :| some in left;
      ghost var first := FirstEntry(worn, left, some);
      var key :| key in left && forall other | other in left && other != key :: ComesFirst(worn[key], worn[other]);
      SlotGrows(items, left, slot, worn, key);
      items := items + [Item(slot, key.id, worn[key].quantity)];
      left := left - {key};
    }
  }

  ghost predicate HasSlot(kit: seq<KitSlot>, slot: nat) {
    exists i | 0 <= i < |kit| :: kit[i].slot == slot
  }

  /** Whether a kit is what was worn but for some slots, all of which come later. */
  ghost predicate PartOfKit(kit: seq<KitSlot>, left: set<nat>, worn: Worn) {
    && (forall i | 0 <= i < |kit| :: SlotOf(kit[i], worn))
    && (forall i, j | 0 <= i < j < |kit| :: SlotRank(kit[i].slot) < SlotRank(kit[j].slot))
    && (forall slot | slot in left :: SlotWorn(worn, slot))
    && (forall i, slot | 0 <= i < |kit| && slot in left :: SlotRank(kit[i].slot) < SlotRank(slot))
    && (forall key | key in worn :: key.slot in left || HasSlot(kit, key.slot))
  }

  lemma KitGrows(kit: seq<KitSlot>, left: set<nat>, worn: Worn, next: KitSlot)
    requires PartOfKit(kit, left, worn) && SlotOf(next, worn) && next.slot in left
    requires forall slot | slot in left && slot != next.slot :: SlotRank(next.slot) < SlotRank(slot)
    ensures PartOfKit(kit + [next], left - {next.slot}, worn)
  {
    var more := kit + [next];
    assert more[|kit|] == next && forall i | 0 <= i < |kit| :: more[i] == kit[i];
    forall key | key in worn
      ensures key.slot in left - {next.slot} || HasSlot(more, key.slot)
    {
      if key.slot == next.slot {
        assert more[|kit|].slot == key.slot;
      } else if HasSlot(kit, key.slot) {
        var i :| 0 <= i < |kit| && kit[i].slot == key.slot;
        assert more[i].slot == key.slot;
      }
    }
  }

  method KitFrom(worn: Worn) returns (kit: seq<KitSlot>)
    requires OrdersDiffer(worn)
    ensures KitOf(kit, worn)
  {
    kit := [];
    var left := set key | key in worn :: key.slot;
    while left != {}
      invariant PartOfKit(kit, left, worn)
    {
      ghost var some :| some in left;
      ghost var first := FirstSlot(left, some);
      var slot :| slot in left && forall other | other in left && other != slot :: SlotRank(slot) < SlotRank(other);
      assert SlotWorn(worn, slot);
      var items := ItemsOfSlot(worn, slot);
      KitGrows(kit, left, worn, KitSlot(slot, items));
      kit := kit + [KitSlot(slot, items)];
      left := left - {slot};
    }
  }

  // ----- A trip that is going on -----

  /** What tells an outfit from others: what is worn where. */
  function SetKey(items: Outfit): set<Key> {
    set item | item in items :: KeyOf(item)
  }

  /** The outfits worn, without those that have nothing on. */
  function SetupsOf(wearings: seq<Wearing>): set<set<Key>> {
    if wearings == [] then {}
    else
      var items := wearings[|wearings| - 1].items;
      SetupsOf(wearings[..|wearings| - 1]) + if items == [] then {} else {SetKey(items)}
  }

  predicate WornThere(items: Outfit, slot: nat, id: int) {
    exists i :: 0 <= i < |items| && items[i].slot == slot && items[i].id == id
  }

  ghost predicate WornAlike(a: Outfit, b: Outfit) {
    forall slot: nat, id :: WornThere(a, slot, id) <==> WornThere(b, slot, id)
  }

  lemma KeyIsWornThere(items: Outfit, slot: nat, id: int)
    ensures Key(slot, id) in SetKey(items) <==> WornThere(items, slot, id)
  {
    if i :| 0 <= i < |items| && items[i].slot == slot && items[i].id == id {
      assert items[i] in items && KeyOf(items[i]) == Key(slot, id);
    }
  }

  /** Outfits count as one setup exactly if they have the same on in the same slots, however many and in whatever order. */
  lemma SetupsAreAlike(a: Outfit, b: Outfit)
    ensures SetKey(a) == SetKey(b) <==> WornAlike(a, b)
  {
    forall slot: nat, id
      ensures Key(slot, id) in SetKey(a) <==> WornThere(a, slot, id)
      ensures Key(slot, id) in SetKey(b) <==> WornThere(b, slot, id)
    {
      KeyIsWornThere(a, slot, id);
      KeyIsWornThere(b, slot, id);
    }
    if WornAlike(a, b) {
      forall key: Key
        ensures key in SetKey(a) <==> key in SetKey(b)
      {
        assert key == Key(key.slot, key.id);
        assert WornThere(a, key.slot, key.id) <==> WornThere(b, key.slot, key.id);
      }
    }
  }

  /** The setups are those of the outfits with anything on. */
  lemma {:induction false} SetupsAreWorn(wearings: seq<Wearing>, setup: set<Key>)
    ensures setup in SetupsOf(wearings) <==> exists w :: w in wearings && w.items != [] && SetKey(w.items) == setup
    decreases |wearings|
  {
    if wearings != [] {
      var n := |wearings| - 1;
      SetupsAreWorn(wearings[..n], setup);
      assert wearings == wearings[..n] + [wearings[n]];
    }
  }

  lemma {:induction false} FewSetups(wearings: seq<Wearing>)
    ensures |SetupsOf(wearings)| <= |wearings|
    decreases |wearings|
  {
    if wearings != [] {
      FewSetups(wearings[..|wearings| - 1]);
    }
  }

  lemma WearingMore(wearings: seq<Wearing>, wearing: Wearing)
    ensures var more := wearings + [wearing];
            && AllUses(more) == AllUses(wearings) + UsesOf(wearing.items, wearing.ms)
            && IdsIn(more) == IdsIn(wearings) + IdsOf(wearing.items)
            && SetupsOf(more) == SetupsOf(wearings) + if wearing.items == [] then {} else {SetKey(wearing.items)}
  {
    assert (wearings + [wearing])[..|wearings|] == wearings;
  }

  lemma WornMore(uses: seq<Use>, items: Outfit, n: nat, ms: nat)
    requires n < |items|
    ensures WornOf(uses + UsesOf(items[..n + 1], ms)) == WithUse(WornOf(uses + UsesOf(items[..n], ms)), Use(items[n], ms))
  {
    var (less, more) := (uses + UsesOf(items[..n], ms), uses + UsesOf(items[..n + 1], ms));
    assert more == less + [Use(items[n], ms)];
    assert more[..|more| - 1] == less;
  }

  class OpenTrip {
    const startedAt: int
    var endedAt: int
    var swaps: nat
    var ids: set<int>
    var setups: set<set<Key>>
    var worn: Worn
    var seen: nat
    ghost var wearings: seq<Wearing>

    ghost predicate Valid()
      reads this
    {
      && ids == IdsIn(wearings) && setups == SetupsOf(wearings)
      && worn == WornOf(AllUses(wearings)) && seen == |worn|
    }

    constructor (changedAt: int)
      ensures Valid() && wearings == [] && startedAt == endedAt == changedAt && swaps == 0
    {
      startedAt, endedAt, swaps := changedAt, changedAt, 0;
      ids, setups, worn, seen := {}, {}, map[], 0;
      wearings := [];
    }

    method WearItem(item: Item, ms: nat)
      requires seen == |worn|
      modifies this`ids, this`worn, this`seen
      ensures ids == old(ids) + {item.id} && worn == WithUse(old(worn), Use(item, ms)) && seen == |worn|
    {
      ids := ids + {item.id};
      var key := KeyOf(item);
      ghost var before := worn;
      if key in worn {
        worn := worn[key := worn[key].(ms := worn[key].ms + ms)];
        assert worn.Keys == before.Keys;
      } else {
        worn := worn[key := Entry(item.quantity, ms, seen)];
        seen := seen + 1;
        assert worn.Keys == before.Keys + {key};
      }
      assert |worn| == |worn.Keys| && |before| == |before.Keys|;
    }

    method WearItems(items: Outfit, ms: nat, ghost uses: seq<Use>)
      requires worn == WornOf(uses) && seen == |worn|
      modifies this`ids, this`worn, this`seen
      ensures ids == old(ids) + IdsOf(items) && worn == WornOf(uses + UsesOf(items, ms)) && seen == |worn|
    {
      assert uses + UsesOf(items[..0], ms) == uses;
      for n := 0 to |items|
        invariant ids == old(ids) + IdsOf(items[..n])
        invariant worn == WornOf(uses + UsesOf(items[..n], ms)) && seen == |worn|
      {
        WornMore(uses, items, n, ms);
        assert items[..n + 1] == items[..n] + [items[n]];
        WearItem(items[n], ms);
      }
      assert items[..|items|] == items;
    }

    /** Counts an outfit as worn on this trip. */
    method Wear(items: Outfit, ms: nat)
      requires Valid()
      modifies this
      ensures Valid() && wearings == old(wearings) + [Wearing(items, ms)]
      ensures swaps == old(swaps) && endedAt == old(endedAt)
    {
      ghost var uses := AllUses(wearings);
      WearingMore(wearings, Wearing(items, ms));
      wearings := wearings + [Wearing(items, ms)];
      if items == [] {
        assert uses + UsesOf([], ms) == uses;
        return;
      }
      setups := setups + {SetKey(items)};
      WearItems(items, ms, uses);
    }

    /** The trip as it is shown. */
    method Close() returns (trip: Trip)
      requires Valid()
      ensures trip.startedAt == startedAt && trip.endedAt == endedAt && trip.swaps == swaps
      ensures trip.setups == |SetupsOf(wearings)| && KitOf(trip.kit, WornOf(AllUses(wearings)))
    {
      EntriesDiffer(AllUses(wearings));
      var kit := KitFrom(worn);
      trip := Trip(startedAt, endedAt, swaps, |setups|, kit);
    }
  }

  // ----- All trips -----

  /** Whether a trip is a stretch of rows as it is shown. */
  ghost predicate Shows(trip: Trip, rows: seq<Row>, stretch: Stretch, now: int) {
    && stretch.rows != [] && IndexesOf(stretch.rows, rows)
    && trip.startedAt == rows[stretch.rows[0]].at && trip.endedAt == rows[stretch.rows[|stretch.rows| - 1]].at
    && trip.swaps + 1 == |stretch.rows| + (if stretch.carried != [] then 1 else 0)
    && trip.setups == |SetupsOf(WornOn(rows, stretch, now))|
    && KitOf(trip.kit, WornOf(AllUses(WornOn(rows, stretch, now))))
  }

  /** A trip has no more setups than it has outfits, which are one more than its swaps. */
  lemma SetupsAreFew(trip: Trip, rows: seq<Row>, stretch: Stretch, now: int)
    requires Shows(trip, rows, stretch, now)
    ensures trip.setups <= trip.swaps + 1
  {
    FewSetups(WornOn(rows, stretch, now));
  }

  /** Whether an open trip has what a stretch has. */
  ghost predicate Follows(trip: OpenTrip, rows: seq<Row>, stretch: Stretch, now: int)
    reads trip
  {
    && trip.Valid() && stretch.rows != [] && IndexesOf(stretch.rows, rows)
    && trip.startedAt == rows[stretch.rows[0]].at && trip.endedAt == rows[stretch.rows[|stretch.rows| - 1]].at
    && trip.wearings == WornOn(rows, stretch, now) && trip.swaps + 1 == |trip.wearings|
  }

  /** How many of an outfit's items are among some. */
  method CountShared(items: Outfit, ids: set<int>) returns (n: nat)
    ensures n == SharedCount(items, ids)
  {
    n := 0;
    for i := 0 to |items|
      invariant n == SharedCount(items[..i], ids)
    {
      assert items[..i + 1][..i] == items[..i];
      if items[i].id in ids {
        n := n + 1;
      }
    }
    assert items[..|items|] == items;
  }

  /** Opens a trip with a row, and what came along. */
  method Open(rows: seq<Row>, i: nat, now: int) returns (trip: OpenTrip)
    requires i < |rows|
    ensures fresh(trip) && Follows(trip, rows, Stretch(Carried(rows, i), [i]), now)
  {
    trip := new OpenTrip(rows[i].at);
    ghost var carried := Carried(rows, i);
    assert [i][..0] == [];
    ghost var none: seq<Wearing> := if carried != [] then [Wearing(carried, 0)] else [];
    assert WornOn(rows, Stretch(carried, [i]), now) == none + [Wearing(rows[i].items, WornMs(rows, i, now))];
    if i > 0 {
      var shared := CountShared(rows[i].items, IdsOf(rows[i - 1].items));
      if shared >= TRIP_MIN_SHARED {
        assert rows[i - 1].items != [] by {
          NothingShared(rows[i].items);
        }
        trip.Wear(rows[i - 1].items, 0);
        trip.swaps := 1;
      }
    }
    trip.Wear(rows[i].items, WornMs(rows, i, now));
  }

  lemma {:induction false} NothingShared(items: Outfit)
    ensures SharedCount(items, IdsOf([])) == 0
    decreases |items|
  {
    if items != [] {
      NothingShared(items[..|items| - 1]);
    }
  }

  /** The next row of a trip. */
  method GoOn(trip: OpenTrip, rows: seq<Row>, i: nat, now: int, ghost stretch: Stretch)
    requires i < |rows| && Follows(trip, rows, stretch, now)
    modifies trip
    ensures Follows(trip, rows, stretch.(rows := stretch.rows + [i]), now)
  {
    ghost var longer := stretch.(rows := stretch.rows + [i]);
    assert longer.(rows := longer.rows[..|stretch.rows|]) == stretch;
    trip.swaps := trip.swaps + 1;
    trip.endedAt := rows[i].at;
    trip.Wear(rows[i].items, WornMs(rows, i, now));
  }

  /** Whether all stretches but the last have been closed as trips, and the last is the open one. */
  ghost predicate SoFar(closed: seq<Trip>, trip: OpenTrip?, rows: seq<Row>, stretches: seq<Stretch>, now: int)
    reads trip
  {
    && (trip == null <==> stretches == [])
    && |closed| == (if stretches == [] then 0 else |stretches| - 1)
    && (forall k | 0 <= k < |closed| :: Shows(closed[k], rows, stretches[k], now))
    && (trip != null ==> Follows(trip, rows, stretches[|stretches| - 1], now))
  }

  lemma {:induction false} ClosedMore(closed: seq<Trip>, trip: Trip, rows: seq<Row>, stretches: seq<Stretch>, now: int)
    requires |stretches| == |closed| + 1 && Shows(trip, rows, stretches[|closed|], now)
    requires forall k | 0 <= k < |closed| :: Shows(closed[k], rows, stretches[k], now)
    ensures forall k | 0 <= k < |closed + [trip]| :: Shows((closed + [trip])[k], rows, stretches[k], now)
  {
  }

  /** Closes a trip, if there is one. */
  method CloseLast(closed: seq<Trip>, trip: OpenTrip?, rows: seq<Row>, now: int, ghost stretches: seq<Stretch>) returns (r: seq<Trip>)
    requires SoFar(closed, trip, rows, stretches, now)
    ensures |r| == |stretches| && forall k | 0 <= k < |r| :: Shows(r[k], rows, stretches[k], now)
  {
    if trip == null {
      return closed;
    }
    var last := trip.Close();
    assert Shows(last, rows, stretches[|closed|], now);
    ClosedMore(closed, last, rows, stretches, now);
    r := closed + [last];
  }

  /** Whether a row begins a trip. */
  method Begin(trip: OpenTrip?, rows: seq<Row>, i: nat, now: int, ghost stretches: seq<Stretch>) returns (begins: bool)
    requires i < |rows| && (forall k | 0 <= k < |stretches| :: IndexesOf(stretches[k].rows, rows))
    requires trip == null <==> stretches == []
    requires trip != null ==> Follows(trip, rows, stretches[|stretches| - 1], now)
    ensures begins == Begins(rows, stretches, i, now)
  {
    if trip == null || AfterGap(rows, i) {
      return true;
    }
    if trip.ids == {} || |rows[i].items| <= TRIP_MIN_SHARED {
      return false;
    }
    var shared := CountShared(rows[i].items, trip.ids);
    return shared < TRIP_MIN_SHARED;
  }

  lemma {:induction false} ClosedStay(closed: seq<Trip>, rows: seq<Row>, before: seq<Stretch>, longer: Stretch, now: int)
    requires |closed| + 1 == |before| && forall k | 0 <= k < |closed| :: Shows(closed[k], rows, before[k], now)
    ensures forall k | 0 <= k < |closed| :: Shows(closed[k], rows, before[|closed| := longer][k], now)
  {
  }

  lemma {:induction false} ClosedRemain(closed: seq<Trip>, rows: seq<Row>, before: seq<Stretch>, next: Stretch, now: int)
    requires |closed| == |before| && forall k | 0 <= k < |closed| :: Shows(closed[k], rows, before[k], now)
    ensures forall k | 0 <= k < |closed| :: Shows(closed[k], rows, (before + [next])[k], now)
  {
  }

  method StayOn(closed: seq<Trip>, trip: OpenTrip, rows: seq<Row>, i: nat, now: int, ghost before: seq<Stretch>)
    requires i < |rows| && SoFar(closed, trip, rows, before, now)
    requires forall k | 0 <= k < |before| :: IndexesOf(before[k].rows, rows)
    requires !Skipped(rows, i) && !Begins(rows, before, i, now)
    modifies trip
    ensures SoFar(closed, trip, rows, WithRow(rows, before, i, now), now)
  {
    ghost var last := before[|before| - 1];
    ghost var longer := last.(rows := last.rows + [i]);
    ClosedStay(closed, rows, before, longer, now);
    GoOn(trip, rows, i, now, last);
    assert WithRow(rows, before, i, now) == before[|before| - 1 := longer];
  }

  method StartNew(closed: seq<Trip>, trip: OpenTrip?, rows: seq<Row>, i: nat, now: int, ghost before: seq<Stretch>)
    returns (closed': seq<Trip>, trip': OpenTrip)
    requires i < |rows| && SoFar(closed, trip, rows, before, now)
    requires forall k | 0 <= k < |before| :: IndexesOf(before[k].rows, rows)
    requires !Skipped(rows, i) && Begins(rows, before, i, now)
    ensures fresh(trip') && SoFar(closed', trip', rows, WithRow(rows, before, i, now), now)
  {
    ghost var next := Stretch(Carried(rows, i), [i]);
    closed' := CloseLast(closed, trip, rows, now, before);
    ClosedRemain(closed', rows, before, next, now);
    trip' := Open(rows, i, now);
    assert WithRow(rows, before, i, now) == before + [next];
  }

  /** Deals with one row. */
  method NextRow(closed: seq<Trip>, trip: OpenTrip?, rows: seq<Row>, i: nat, now: int) returns (closed': seq<Trip>, trip': OpenTrip?)
    requires i < |rows| && SoFar(closed, trip, rows, Stretches(rows, i, now), now)
    modifies trip
    ensures trip' == trip || fresh(trip')
    ensures SoFar(closed', trip', rows, Stretches(rows, i + 1, now), now)
  {
    closed', trip' := closed, trip;
    ghost var before := Stretches(rows, i, now);
    if AfterGap(rows, i) && rows[i].items == [] {
      return;
    }
    var begins := Begin(trip, rows, i, now, before);
    if begins {
      closed', trip' := StartNew(closed, trip, rows, i, now, before);
    } else {
      StayOn(closed, trip, rows, i, now, before);
    }
  }

  /** Whether some trips are the stretches of the rows, the newest first. */
  ghost predicate ShowAll(trips: seq<Trip>, rows: seq<Row>, now: int) {
    var stretches := Stretches(rows, |rows|, now);
    |trips| == |stretches| && forall k | 0 <= k < |trips| :: Shows(trips[|trips| - 1 - k], rows, stretches[k], now)
  }

  function Reversed(trips: seq<Trip>): (r: seq<Trip>)
    ensures |r| == |trips| && forall k | 0 <= k < |r| :: r[|r| - 1 - k] == trips[k]
  {
    seq(|trips|, k requires 0 <= k < |trips| => trips[|trips| - 1 - k])
  }

  /** The trips of some rows, the newest first. */
  method TripsOf(rows: seq<Row>, now: int) returns (trips: seq<Trip>)
    ensures ShowAll(trips, rows, now)
  {
    var closed: seq<Trip> := [];
    var trip: OpenTrip? := null;
    for i := 0 to |rows|
      invariant trip != null ==> fresh(trip)
      invariant SoFar(closed, trip, rows, Stretches(rows, i, now), now)
    {
      closed, trip := NextRow(closed, trip, rows, i, now);
    }
    closed := CloseLast(closed, trip, rows, now, Stretches(rows, |rows|, now));
    trips := Reversed(closed);
  }

  /** The trips of some changes, the newest first. */
  method GearTrips(changes: seq<Change>, now: int) returns (trips: seq<Trip>)
    ensures exists rows :: SortedFrom(rows, UsableRows(changes)) && ShowAll(trips, rows, now)
  {
    var rows := SortedRows(changes);
    trips := TripsOf(rows, now);
  }

  ghost predicate After(later: Trip, earlier: Trip) {
    earlier.startedAt <= earlier.endedAt <= later.startedAt
  }

  lemma LaterStretchIsAfter(trips: seq<Trip>, rows: seq<Row>, now: int, a: nat, b: nat)
    requires InTime(rows) && ShowAll(trips, rows, now) && a < b < |trips|
    ensures After(trips[|trips| - 1 - b], trips[|trips| - 1 - a])
  {
    var stretches := Stretches(rows, |rows|, now);
    StretchesAreTrips(rows, |rows|, now);
    TripsDoNotOverlap(rows, stretches, now, a, b);
    TripTakesTime(rows, stretches, now, a);
    assert Shows(trips[|trips| - 1 - a], rows, stretches[a], now);
    assert Shows(trips[|trips| - 1 - b], rows, stretches[b], now);
  }

  /** Trips come the newest first and do not overlap. */
  lemma NewestComeFirst(trips: seq<Trip>, rows: seq<Row>, now: int)
    requires InTime(rows) && ShowAll(trips, rows, now)
    ensures forall j, k | 0 <= j < k < |trips| :: After(trips[j], trips[k])
  {
    forall j, k | 0 <= j < k < |trips|
      ensures After(trips[j], trips[k])
    {
      LaterStretchIsAfter(trips, rows, now, |trips| - 1 - k, |trips| - 1 - j);
    }
  }

  lemma TripTakesTime(rows: seq<Row>, stretches: seq<Stretch>, now: int, k: nat)
    requires InTime(rows) && Trips(rows, |rows|, stretches, now) && k < |stretches|
    ensures var indexes := stretches[k].rows;
            indexes != [] && IndexesOf(indexes, rows) && rows[indexes[0]].at <= rows[indexes[|indexes| - 1]].at
  {
    var indexes := stretches[k].rows;
    assert OneTrip(rows, stretches[k], now);
    if |indexes| > 1 {
      RowsAtOffset(stretches, k);
      var o := Offset(stretches, k);
      assert Flat(stretches)[o + 0] == indexes[0] && Flat(stretches)[o + (|indexes| - 1)] == indexes[|indexes| - 1];
      FlatAscends(rows, stretches, now, o, o + (|indexes| - 1));
    }
  }
}
