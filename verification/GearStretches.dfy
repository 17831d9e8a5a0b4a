/**
 Which changes of what a player wears make one trip, a stretch of play with one kit
 (site/src/data/gear-trips.js).
 */
module GearStretches {
  import opened Options

  const TRIP_GAP_MS := 20 * 60_000
  const TRIP_MIN_SHARED: nat := 2
  const SLOT_ORDER: seq<nat> := [0, 1, 2, 13, 3, 4, 5, 7, 9, 10, 12]

  datatype Item = Item(slot: nat, id: int, quantity: int)
  type Outfit = seq<Item>

  /** A change as it is read: when, if that can be told, and the equipment, two numbers a slot. */
  datatype Change = Change(at: Option<int>, equipment: seq<int>)

  datatype Row = Row(at: int, items: Outfit)

  // ----- Rows -----

  /** What is worn in a slot, if anything. */
  function ItemAt(equipment: seq<int>, slot: nat): Option<Item> {
    if 2 * slot + 1 < |equipment| && equipment[2 * slot] > 0
    then Some(Item(slot, equipment[2 * slot], equipment[2 * slot + 1]))
    else None
  }

  /** What is worn in the first `slots` slots. */
  function ItemsOf(equipment: seq<int>, slots: nat): (r: Outfit)
    ensures forall i | 0 <= i < |r| :: r[i].slot < slots && ItemAt(equipment, r[i].slot) == Some(r[i])
    ensures forall i, j | 0 <= i < j < |r| :: r[i].slot < r[j].slot
    ensures forall slot | 0 <= slot < slots && ItemAt(equipment, slot).Some? :: ItemAt(equipment, slot).value in r
  {
    if slots == 0 then []
    else
      var item := ItemAt(equipment, slots - 1);
      ItemsOf(equipment, slots - 1) + if item.Some? then [item.value] else []
  }

  method SlotMap(equipment: seq<int>) returns (items: Outfit)
    ensures items == ItemsOf(equipment, |equipment| / 2)
  {
    items := [];
    var slot := 0;
    while 2 * slot + 1 < |equipment|
      invariant slot <= |equipment| / 2
      invariant items == ItemsOf(equipment, slot)
    {
      var id := equipment[2 * slot];
      if id > 0 {
        items := items + [Item(slot, id, equipment[2 * slot + 1])];
      }
      slot := slot + 1;
    }
  }

  /** The changes that have a time. */
  function UsableRows(changes: seq<Change>): seq<Row> {
    if changes == [] then []
    else
      var n := |changes| - 1;
      UsableRows(changes[..n])
      + if changes[n].at.Some? then [Row(changes[n].at.value, ItemsOf(changes[n].equipment, |changes[n].equipment| / 2))] else []
  }

  /** The rows of one time, in their order. */
  function RowsAt(rows: seq<Row>, at: int): seq<Row> {
    if rows == [] then []
    else RowsAt(rows[..|rows| - 1], at) + if rows[|rows| - 1].at == at then [rows[|rows| - 1]] else []
  }

  ghost predicate InTime(rows: seq<Row>) {
    forall i, j | 0 <= i < j < |rows| :: rows[i].at <= rows[j].at
  }

  /** Whether some rows are others put in the order of time, those of one time left in theirs. */
  ghost predicate SortedFrom(sorted: seq<Row>, rows: seq<Row>) {
    InTime(sorted) && forall at :: RowsAt(sorted, at) == RowsAt(rows, at)
  }

  lemma {:induction false} RowsAtConcat(a: seq<Row>, b: seq<Row>, at: int)
    ensures RowsAt(a + b, at) == RowsAt(a, at) + RowsAt(b, at)
    decreases |b|
  {
    if b == [] {
      assert a + b == a;
    } else {
      assert (a + b)[..|a + b| - 1] == a + b[..|b| - 1];
      RowsAtConcat(a, b[..|b| - 1], at);
    }
  }

  lemma {:induction false} NoneAfter(rows: seq<Row>, at: int)
    requires forall i | 0 <= i < |rows| :: rows[i].at > at
    ensures RowsAt(rows, at) == []
    decreases |rows|
  {
    if rows != [] {
      NoneAfter(rows[..|rows| - 1], at);
    }
  }

  lemma UsableGrows(changes: seq<Change>, n: nat)
    requires n < |changes|
    ensures UsableRows(changes[..n + 1]) == UsableRows(changes[..n])
      + match changes[n].at
        case None => []
        case Some(at) => [Row(at, ItemsOf(changes[n].equipment, |changes[n].equipment| / 2))]
  {
    assert changes[..n + 1][..n] == changes[..n];
  }

  lemma InsertedInTime(left: seq<Row>, right: seq<Row>, row: Row)
    requires InTime(left + right)
    requires forall i | 0 <= i < |left| :: left[i].at <= row.at
    requires forall i | 0 <= i < |right| :: right[i].at > row.at
    ensures InTime(left + [row] + right)
  {
    var (whole, more) := (left + right, left + [row] + right);
    forall i, j | 0 <= i < j < |more|
      ensures more[i].at <= more[j].at
    {
      var (p, q) := (if i <= |left| then i else i - 1, if j <= |left| then j else j - 1);
      if i != |left| && j != |left| {
        assert more[i] == whole[p] && more[j] == whole[q];
      }
    }
  }

  lemma InsertedIsSorted(left: seq<Row>, right: seq<Row>, row: Row, rows: seq<Row>)
    requires SortedFrom(left + right, rows)
    requires forall i | 0 <= i < |left| :: left[i].at <= row.at
    requires forall i | 0 <= i < |right| :: right[i].at > row.at
    ensures SortedFrom(left + [row] + right, rows + [row])
  {
    InsertedInTime(left, right, row);
    forall at
      ensures RowsAt(left + [row] + right, at) == RowsAt(rows + [row], at)
    {
      InsertedAt(left, right, row, at);
      RowsAtConcat(rows, [row], at);
      assert RowsAt(left + right, at) == RowsAt(rows, at);
    }
  }

  lemma RowsAtOne(row: Row, at: int)
    ensures RowsAt([row], at) == if row.at == at then [row] else []
  {
    assert [row][..0] == [];
  }

  lemma InsertedAt(left: seq<Row>, right: seq<Row>, row: Row, at: int)
    requires forall i | 0 <= i < |right| :: right[i].at > row.at
    ensures RowsAt(left + [row] + right, at) == RowsAt(left + right, at) + RowsAt([row], at)
  {
    RowsAtOne(row, at);
    RowsAtConcat(left, right, at);
    RowsAtThree(left, [row], right, at);
    if at == row.at {
      NoneAfter(right, at);
    }
    Swapped(RowsAt(left, at), RowsAt([row], at), RowsAt(right, at));
  }

  lemma RowsAtThree(a: seq<Row>, b: seq<Row>, c: seq<Row>, at: int)
    ensures RowsAt(a + b + c, at) == RowsAt(a, at) + RowsAt(b, at) + RowsAt(c, at)
  {
    RowsAtConcat(a, b, at);
    RowsAtConcat(a + b, c, at);
  }

  lemma Swapped(a: seq<Row>, b: seq<Row>, c: seq<Row>)
    requires b == [] || c == []
    ensures a + b + c == a + c + b
  {
  }

  /** Puts a row in its place, after those of its time. */
  method InsertRow(sorted: seq<Row>, row: Row, ghost rows: seq<Row>) returns (r: seq<Row>)
    requires SortedFrom(sorted, rows)
    ensures SortedFrom(r, rows + [row])
  {
    var n := |sorted|;
    while n > 0 && sorted[n - 1].at > row.at
      invariant 0 <= n <= |sorted| && forall i | n <= i < |sorted| :: sorted[i].at > row.at
    {
      n := n - 1;
    }
    var (left, right) := (sorted[..n], sorted[n..]);
    assert sorted == left + right;
    assert InTime(sorted);
    InsertedIsSorted(left, right, row, rows);
    r := left + [row] + right;
  }

  /** The usable changes in the order of time. */
  method SortedRows(changes: seq<Change>) returns (rows: seq<Row>)
    ensures SortedFrom(rows, UsableRows(changes))
  {
    rows := [];
    for n := 0 to |changes|
      invariant SortedFrom(rows, UsableRows(changes[..n]))
    {
      UsableGrows(changes, n);
      var change := changes[n];
      if change.at.Some? {
        var items := SlotMap(change.equipment);
        rows := InsertRow(rows, Row(change.at.value, items), UsableRows(changes[..n]));
      } else {
        assert UsableRows(changes[..n + 1]) == UsableRows(changes[..n]);
      }
    }
    assert changes[..|changes|] == changes;
  }

  // ----- Which rows make a trip -----

  function IdsOf(items: Outfit): set<int> {
    set item | item in items :: item.id
  }

  function SharedCount(items: Outfit, ids: set<int>): nat {
    if items == [] then 0
    else SharedCount(items[..|items| - 1], ids) + if items[|items| - 1].id in ids then 1 else 0
  }

  predicate AfterGap(rows: seq<Row>, i: nat)
    requires i < |rows|
  {
    i > 0 && rows[i].at - rows[i - 1].at >= TRIP_GAP_MS
  }

  /** A row with nothing on, a gap after the one before it, belongs to no trip. */
  predicate Skipped(rows: seq<Row>, i: nat)
    requires i < |rows|
  {
    AfterGap(rows, i) && rows[i].items == []
  }

  /** How long a row's outfit was worn, the gap at most. */
  function WornMs(rows: seq<Row>, i: nat, now: int): (ms: nat)
    requires i < |rows|
  {
    var next := if i + 1 < |rows| then rows[i + 1].at else now;
    var ms := if next - rows[i].at < TRIP_GAP_MS then next - rows[i].at else TRIP_GAP_MS;
    if ms > 0 then ms else 0
  }

  predicate NewOutfit(ids: set<int>, items: Outfit) {
    ids != {} && |items| > TRIP_MIN_SHARED && SharedCount(items, ids) < TRIP_MIN_SHARED
  }

  /** The outfit that a trip beginning at a row brought along, if any. */
  function Carried(rows: seq<Row>, i: nat): Outfit
    requires i < |rows|
  {
    if i > 0 && SharedCount(rows[i].items, IdsOf(rows[i - 1].items)) >= TRIP_MIN_SHARED then rows[i - 1].items else []
  }

  /** An outfit and how long it was worn. */
  datatype Wearing = Wearing(items: Outfit, ms: nat)

  function IdsIn(wearings: seq<Wearing>): set<int> {
    if wearings == [] then {} else IdsIn(wearings[..|wearings| - 1]) + IdsOf(wearings[|wearings| - 1].items)
  }

  /** The rows of one trip, by their indexes, and what it brought along. */
  datatype Stretch = Stretch(carried: Outfit, rows: seq<nat>)

  ghost predicate IndexesOf(indexes: seq<nat>, rows: seq<Row>) {
    forall k | 0 <= k < |indexes| :: indexes[k] < |rows|
  }

  /** What is worn on a trip: the outfit it brought along, which counts no time, and those of its rows. */
  function WornOn(rows: seq<Row>, stretch: Stretch, now: int): (r: seq<Wearing>)
    requires IndexesOf(stretch.rows, rows)
    ensures |r| == |stretch.rows| + if stretch.carried != [] then 1 else 0
    decreases |stretch.rows|
  {
    if stretch.rows == [] then (if stretch.carried != [] then [Wearing(stretch.carried, 0)] else [])
    else
      var n := |stretch.rows| - 1;
      var i := stretch.rows[n];
      WornOn(rows, stretch.(rows := stretch.rows[..n]), now) + [Wearing(rows[i].items, WornMs(rows, i, now))]
  }

  /** Whether a row begins a trip, after the stretches before it. */
  predicate Begins(rows: seq<Row>, before: seq<Stretch>, i: nat, now: int)
    requires i < |rows| && forall k | 0 <= k < |before| :: IndexesOf(before[k].rows, rows)
  {
    before == [] || AfterGap(rows, i) || NewOutfit(IdsIn(WornOn(rows, before[|before| - 1], now)), rows[i].items)
  }

  function WithRow(rows: seq<Row>, before: seq<Stretch>, i: nat, now: int): (r: seq<Stretch>)
    requires i < |rows| && forall k | 0 <= k < |before| :: IndexesOf(before[k].rows, rows)
    ensures forall k | 0 <= k < |r| :: IndexesOf(r[k].rows, rows)
  {
    if Skipped(rows, i) then before
    else if Begins(rows, before, i, now) then before + [Stretch(Carried(rows, i), [i])]
    else
      var last := before[|before| - 1];
      before[|before| - 1 := last.(rows := last.rows + [i])]
  }

  /** The stretches of the first `n` rows. */
  function Stretches(rows: seq<Row>, n: nat, now: int): (r: seq<Stretch>)
    requires n <= |rows|
    ensures forall k | 0 <= k < |r| :: IndexesOf(r[k].rows, rows)
  {
    if n == 0 then [] else WithRow(rows, Stretches(rows, n - 1, now), n - 1, now)
  }

  // ----- The stretches are the trips -----

  /** The rows of the first `n` that are not skipped. */
  ghost function Kept(rows: seq<Row>, n: nat): seq<nat>
    requires n <= |rows|
  {
    if n == 0 then []
    else if Skipped(rows, n - 1) then Kept(rows, n - 1)
    else Kept(rows, n - 1) + [n - 1]
  }

  ghost function Flat(stretches: seq<Stretch>): seq<nat> {
    if stretches == [] then [] else Flat(stretches[..|stretches| - 1]) + stretches[|stretches| - 1].rows
  }

  /** Whether a row goes on with a trip that has a row before it. */
  ghost predicate GoesOn(rows: seq<Row>, stretch: Stretch, k: nat, now: int)
    requires IndexesOf(stretch.rows, rows) && 0 < k < |stretch.rows|
  {
    var before := stretch.(rows := stretch.rows[..k]);
    assert IndexesOf(before.rows, rows);
    !AfterGap(rows, stretch.rows[k]) && !NewOutfit(IdsIn(WornOn(rows, before, now)), rows[stretch.rows[k]].items)
  }

  /** Whether a stretch is one trip: each row goes on with it, and it has what it should have brought along. */
  ghost predicate OneTrip(rows: seq<Row>, stretch: Stretch, now: int) {
    && stretch.rows != [] && IndexesOf(stretch.rows, rows)
    && stretch.carried == Carried(rows, stretch.rows[0])
    && forall k | 0 < k < |stretch.rows| :: GoesOn(rows, stretch, k, now)
  }

  /** Whether each stretch is one trip, that had to end where the next begins. */
  ghost predicate Linked(rows: seq<Row>, stretches: seq<Stretch>, now: int) {
    && (forall k | 0 <= k < |stretches| :: OneTrip(rows, stretches[k], now))
    && (forall k | 0 < k < |stretches| :: BeginsAfter(rows, stretches, k, now))
  }

  /** Whether a stretch had to begin with its first row. */
  ghost predicate BeginsAfter(rows: seq<Row>, stretches: seq<Stretch>, k: nat, now: int) {
    && k < |stretches| && stretches[k].rows != []
    && (forall j | 0 <= j <= k :: IndexesOf(stretches[j].rows, rows))
    && Begins(rows, stretches[..k], stretches[k].rows[0], now)
  }

  /**
   Whether some stretches are the first `n` rows, but the skipped ones, as trips: each row
   in exactly one, in order; each one trip; and each had to end where the next begins.
   */
  ghost predicate Trips(rows: seq<Row>, n: nat, stretches: seq<Stretch>, now: int)
    requires n <= |rows|
  {
    Flat(stretches) == Kept(rows, n) && Linked(rows, stretches, now)
  }

  /** A longer stretch is one trip exactly when its last row goes on with it. */
  lemma OneTripGrows(rows: seq<Row>, stretch: Stretch, i: nat, now: int)
    requires i < |rows| && stretch.rows != [] && IndexesOf(stretch.rows, rows)
    ensures OneTrip(rows, stretch.(rows := stretch.rows + [i]), now) <==>
            OneTrip(rows, stretch, now) && !AfterGap(rows, i) && !NewOutfit(IdsIn(WornOn(rows, stretch, now)), rows[i].items)
  {
    var longer := stretch.(rows := stretch.rows + [i]);
    var n := |stretch.rows|;
    assert longer.(rows := longer.rows[..n]) == stretch;
    forall k | 0 < k < n
      ensures GoesOn(rows, longer, k, now) <==> GoesOn(rows, stretch, k, now)
    {
      assert longer.rows[..k] == stretch.rows[..k];
    }
    if OneTrip(rows, longer, now) {
      assert GoesOn(rows, longer, n, now);
      forall k | 0 < k < n
        ensures GoesOn(rows, stretch, k, now)
      {
        assert GoesOn(rows, longer, k, now);
      }
    }
  }

  lemma FlatGrows(before: seq<Stretch>, stretch: Stretch)
    ensures Flat(before + [stretch]) == Flat(before) + stretch.rows
  {
    assert (before + [stretch])[..|before|] == before;
  }

  lemma LinkedGrows(rows: seq<Row>, before: seq<Stretch>, stretch: Stretch, now: int)
    requires stretch.rows != [] && IndexesOf(stretch.rows, rows)
    ensures Linked(rows, before + [stretch], now) <==>
            Linked(rows, before, now) && OneTrip(rows, stretch, now) && Begins(rows, before, stretch.rows[0], now)
  {
    var after := before + [stretch];
    var n := |before|;
    assert after[..n] == before && after[n] == stretch;
    forall k | 0 < k < n
      ensures BeginsAfter(rows, after, k, now) <==> BeginsAfter(rows, before, k, now)
    {
      assert after[..k] == before[..k];
      assert forall j | 0 <= j <= k :: after[j] == before[j];
    }
    if Linked(rows, after, now) {
      LinkedShrinks(rows, before, stretch, now);
    }
    if Linked(rows, before, now) && OneTrip(rows, stretch, now) && Begins(rows, before, stretch.rows[0], now) {
      LinkedAreIndexes(rows, before, now);
      assert before != [] ==> BeginsAfter(rows, after, n, now);
    }
  }

  lemma LinkedShrinks(rows: seq<Row>, before: seq<Stretch>, stretch: Stretch, now: int)
    requires Linked(rows, before + [stretch], now)
    ensures OneTrip(rows, stretch, now)
    ensures forall k | 0 <= k < |before| :: OneTrip(rows, before[k], now)
    ensures before != [] ==> BeginsAfter(rows, before + [stretch], |before|, now)
  {
    var after := before + [stretch];
    assert OneTrip(rows, after[|before|], now);
    forall k | 0 <= k < |before|
      ensures OneTrip(rows, before[k], now)
    {
      assert OneTrip(rows, after[k], now);
    }
  }

  lemma LinkedAreIndexes(rows: seq<Row>, stretches: seq<Stretch>, now: int)
    requires Linked(rows, stretches, now)
    ensures forall k | 0 <= k < |stretches| :: IndexesOf(stretches[k].rows, rows)
  {
    forall k | 0 <= k < |stretches|
      ensures IndexesOf(stretches[k].rows, rows)
    {
      assert OneTrip(rows, stretches[k], now);
    }
  }

  lemma NoRowsNoTrips(rows: seq<Row>, stretches: seq<Stretch>, now: int)
    ensures Trips(rows, 0, stretches, now) <==> stretches == []
  {
    assert stretches != [] ==> Linked(rows, stretches, now) ==> OneTrip(rows, stretches[|stretches| - 1], now);
  }

  /** One more row in the last of some stretches. */
  lemma LastGrows(rows: seq<Row>, before: seq<Stretch>, last: Stretch, i: nat, now: int)
    requires i < |rows| && last.rows != [] && IndexesOf(last.rows, rows)
    ensures var longer := last.(rows := last.rows + [i]);
            && Flat(before + [longer]) == Flat(before + [last]) + [i]
            && (Linked(rows, before + [longer], now) <==>
                Linked(rows, before + [last], now)
                && !AfterGap(rows, i) && !NewOutfit(IdsIn(WornOn(rows, last, now)), rows[i].items))
  {
    var longer := last.(rows := last.rows + [i]);
    FlatGrows(before, last);
    FlatGrows(before, longer);
    LinkedGrows(rows, before, last, now);
    LinkedGrows(rows, before, longer, now);
    OneTripGrows(rows, last, i, now);
  }

  lemma {:induction false} StretchesAreTrips(rows: seq<Row>, n: nat, now: int)
    requires n <= |rows|
    ensures Trips(rows, n, Stretches(rows, n, now), now)
    decreases n
  {
    if n > 0 {
      StretchesAreTrips(rows, n - 1, now);
      if !Skipped(rows, n - 1) {
        RowKeepsTrips(rows, n - 1, Stretches(rows, n - 1, now), now);
      }
    }
  }

  lemma RowKeepsTrips(rows: seq<Row>, i: nat, before: seq<Stretch>, now: int)
    requires i < |rows| && !Skipped(rows, i) && Trips(rows, i, before, now)
    requires forall k | 0 <= k < |before| :: IndexesOf(before[k].rows, rows)
    ensures Trips(rows, i + 1, WithRow(rows, before, i, now), now)
  {
    if Begins(rows, before, i, now) {
      var stretch := Stretch(Carried(rows, i), [i]);
      FlatGrows(before, stretch);
      LinkedGrows(rows, before, stretch, now);
    } else {
      RowGoesOn(rows, i, before, now);
    }
  }

  lemma RowGoesOn(rows: seq<Row>, i: nat, before: seq<Stretch>, now: int)
    requires i < |rows| && !Skipped(rows, i) && Trips(rows, i, before, now)
    requires forall k | 0 <= k < |before| :: IndexesOf(before[k].rows, rows)
    requires !Begins(rows, before, i, now)
    ensures Trips(rows, i + 1, WithRow(rows, before, i, now), now)
  {
    var m := |before| - 1;
    var (others, last) := (before[..m], before[m]);
    assert before == others + [last];
    assert OneTrip(rows, last, now);
    LastGrows(rows, others, last, i, now);
    assert WithRow(rows, before, i, now) == others + [last.(rows := last.rows + [i])];
  }

  /** The last row is the last one of the last trip. */
  lemma LastRowIsInLast(rows: seq<Row>, i: nat, others: seq<Stretch>, last: Stretch, now: int)
    requires i < |rows| && !Skipped(rows, i) && Trips(rows, i + 1, others + [last], now)
    ensures OneTrip(rows, last, now)
    ensures last.rows[|last.rows| - 1] == i && Flat(others) + last.rows[..|last.rows| - 1] == Kept(rows, i)
  {
    var whole := others + [last];
    FlatGrows(others, last);
    assert whole[|others|] == last && OneTrip(rows, last, now);
    var k := |last.rows| - 1;
    assert last.rows == last.rows[..k] + [last.rows[k]];
    assert Flat(others) + last.rows == (Flat(others) + last.rows[..k]) + [last.rows[k]];
    AppendedSame(Flat(others) + last.rows[..k], last.rows[k], Kept(rows, i), i);
  }

  lemma AppendedSame(a: seq<nat>, x: nat, b: seq<nat>, y: nat)
    requires a + [x] == b + [y]
    ensures a == b && x == y
  {
    assert |a| == |b| && (a + [x])[|a|] == x;
    assert a == (a + [x])[..|a|] && b == (b + [y])[..|b|];
  }

  lemma LastRowBegins(rows: seq<Row>, i: nat, others: seq<Stretch>, last: Stretch, now: int)
    requires i < |rows| && !Skipped(rows, i) && Linked(rows, others + [last], now) && last.rows == [i]
    ensures Linked(rows, others, now)
    ensures forall k | 0 <= k < |others| :: IndexesOf(others[k].rows, rows)
    ensures others + [last] == WithRow(rows, others, i, now)
  {
    LinkedGrows(rows, others, last, now);
    LinkedAreIndexes(rows, others, now);
    assert last == Stretch(Carried(rows, i), [i]);
  }

  lemma LastRowGoesOn(rows: seq<Row>, i: nat, others: seq<Stretch>, shorter: Stretch, now: int)
    requires i < |rows| && !Skipped(rows, i) && shorter.rows != [] && IndexesOf(shorter.rows, rows)
    requires Linked(rows, others + [shorter.(rows := shorter.rows + [i])], now)
    ensures Linked(rows, others + [shorter], now)
    ensures forall k | 0 <= k < |others + [shorter]| :: IndexesOf((others + [shorter])[k].rows, rows)
    ensures others + [shorter.(rows := shorter.rows + [i])] == WithRow(rows, others + [shorter], i, now)
  {
    LastGrows(rows, others, shorter, i, now);
    LinkedAreIndexes(rows, others + [shorter], now);
  }

  /** What trips of some rows are without the last row. */
  lemma LastRow(rows: seq<Row>, i: nat, others: seq<Stretch>, last: Stretch, now: int) returns (before: seq<Stretch>)
    requires i < |rows| && !Skipped(rows, i) && Trips(rows, i + 1, others + [last], now)
    ensures Trips(rows, i, before, now)
    ensures forall k | 0 <= k < |before| :: IndexesOf(before[k].rows, rows)
    ensures others + [last] == WithRow(rows, before, i, now)
  {
    LastRowIsInLast(rows, i, others, last, now);
    var k := |last.rows| - 1;
    var shorter := last.(rows := last.rows[..k]);
    assert last == shorter.(rows := shorter.rows + [i]);
    if k == 0 {
      before := others;
      LastRowBegins(rows, i, others, last, now);
    } else {
      before := others + [shorter];
      FlatGrows(others, shorter);
      LastRowGoesOn(rows, i, others, shorter, now);
    }
  }

  lemma {:induction false} TripsAreFound(rows: seq<Row>, n: nat, stretches: seq<Stretch>, now: int)
    requires n <= |rows| && Trips(rows, n, stretches, now)
    ensures stretches == Stretches(rows, n, now)
    decreases n
  {
    if n == 0 {
      NoRowsNoTrips(rows, stretches, now);
    } else if Skipped(rows, n - 1) {
      TripsAreFound(rows, n - 1, stretches, now);
    } else {
      assert stretches != [];
      var m := |stretches| - 1;
      assert stretches == stretches[..m] + [stretches[m]];
      var before := LastRow(rows, n - 1, stretches[..m], stretches[m], now);
      TripsAreFound(rows, n - 1, before, now);
    }
  }

  /**
   The stretches found row by row are the one way to make trips of the rows: every row but
   the skipped ones is in exactly one, in order; each row goes on with what its trip has
   used so far; and each trip but the first begins after a gap or with a new outfit.
   */
  lemma TripsAreStretches(rows: seq<Row>, stretches: seq<Stretch>, now: int)
    ensures Trips(rows, |rows|, stretches, now) <==> stretches == Stretches(rows, |rows|, now)
  {
    StretchesAreTrips(rows, |rows|, now);
    if Trips(rows, |rows|, stretches, now) {
      TripsAreFound(rows, |rows|, stretches, now);
    }
  }

  // ----- When trips are -----

  /** Where the rows of a trip are among those of all. */
  ghost function Offset(stretches: seq<Stretch>, k: nat): nat
    requires k <= |stretches|
  {
    |Flat(stretches[..k])|
  }

  lemma {:induction false} RowsAtOffset(stretches: seq<Stretch>, k: nat)
    requires k < |stretches|
    ensures Offset(stretches, k + 1) == Offset(stretches, k) + |stretches[k].rows| <= |Flat(stretches)|
    ensures forall p | 0 <= p < |stretches[k].rows| :: Flat(stretches)[Offset(stretches, k) + p] == stretches[k].rows[p]
    decreases |stretches|
  {
    var n := |stretches| - 1;
    assert stretches[..k + 1][..k] == stretches[..k];
    if k < n {
      RowsAtOffset(stretches[..n], k);
      assert stretches[..n][..k] == stretches[..k] && stretches[..n][..k + 1] == stretches[..k + 1];
    } else {
      assert stretches[..k + 1] == stretches;
    }
  }

  lemma {:induction false} OffsetsAscend(stretches: seq<Stretch>, j: nat, k: nat)
    requires j <= k <= |stretches|
    ensures Offset(stretches, j) <= Offset(stretches, k)
    decreases k
  {
    if j < k {
      OffsetsAscend(stretches, j, k - 1);
      RowsAtOffset(stretches, k - 1);
    }
  }

  /** Whether all rows between two are skipped. */
  ghost predicate AllSkipped(rows: seq<Row>, from: nat, to: nat) {
    forall i | from < i < to && i < |rows| :: Skipped(rows, i)
  }

  /** Whether a kept row comes after the one before it, and all between them are skipped. */
  ghost predicate FollowsLast(rows: seq<Row>, kept: seq<nat>, p: nat)
    requires 0 < p < |kept|
  {
    kept[p - 1] < kept[p] && AllSkipped(rows, kept[p - 1], kept[p])
  }

  /** Kept rows are in order, and between two that are next to each other all are skipped. */
  ghost predicate KeptInOrder(rows: seq<Row>, n: nat, kept: seq<nat>) {
    && (forall p | 0 < p < |kept| :: FollowsLast(rows, kept, p))
    && (kept != [] ==> kept[|kept| - 1] < n && AllSkipped(rows, kept[|kept| - 1], n))
  }

  lemma KeptGrows(rows: seq<Row>, n: nat, kept: seq<nat>)
    requires n < |rows| && KeptInOrder(rows, n, kept)
    ensures KeptInOrder(rows, n + 1, if Skipped(rows, n) then kept else kept + [n])
  {
    var more := kept + [n];
    forall p | 0 < p < |more|
      ensures FollowsLast(rows, more, p)
    {
      if p < |kept| {
        assert FollowsLast(rows, kept, p);
      }
    }
  }

  lemma {:induction false} KeptIsInOrder(rows: seq<Row>, n: nat)
    requires n <= |rows|
    ensures KeptInOrder(rows, n, Kept(rows, n))
    decreases n
  {
    if n > 0 {
      KeptIsInOrder(rows, n - 1);
      KeptGrows(rows, n - 1, Kept(rows, n - 1));
    }
  }

  lemma {:induction false} KeptAscends(rows: seq<Row>, n: nat, kept: seq<nat>, p: nat, q: nat)
    requires KeptInOrder(rows, n, kept) && p < q < |kept|
    ensures kept[p] < kept[q]
    decreases q
  {
    assert FollowsLast(rows, kept, q);
    if p < q - 1 {
      KeptAscends(rows, n, kept, p, q - 1);
    }
  }

  lemma FlatAscends(rows: seq<Row>, stretches: seq<Stretch>, now: int, p: nat, q: nat)
    requires Trips(rows, |rows|, stretches, now) && p < q < |Flat(stretches)|
    ensures Flat(stretches)[p] < Flat(stretches)[q]
  {
    KeptIsInOrder(rows, |rows|);
    KeptAscends(rows, |rows|, Flat(stretches), p, q);
  }

  lemma EndIsBeforeBegin(stretches: seq<Stretch>, j: nat, k: nat) returns (p: nat, q: nat)
    requires j < k < |stretches| && stretches[j].rows != [] && stretches[k].rows != []
    ensures p < q < |Flat(stretches)|
    ensures Flat(stretches)[p] == stretches[j].rows[|stretches[j].rows| - 1] && Flat(stretches)[q] == stretches[k].rows[0]
  {
    RowsAtOffset(stretches, j);
    RowsAtOffset(stretches, k);
    OffsetsAscend(stretches, j + 1, k);
    p, q := Offset(stretches, j) + (|stretches[j].rows| - 1), Offset(stretches, k);
    assert Flat(stretches)[q + 0] == stretches[k].rows[0];
  }

  lemma TripRowsAscend(rows: seq<Row>, stretches: seq<Stretch>, now: int, j: nat, k: nat)
    requires Trips(rows, |rows|, stretches, now) && j < k < |stretches|
    ensures var (earlier, later) := (stretches[j].rows, stretches[k].rows);
            && earlier != [] && later != [] && IndexesOf(earlier, rows) && IndexesOf(later, rows)
            && earlier[|earlier| - 1] < later[0]
  {
    assert OneTrip(rows, stretches[j], now) && OneTrip(rows, stretches[k], now);
    var p, q := EndIsBeforeBegin(stretches, j, k);
    FlatAscends(rows, stretches, now, p, q);
  }

  /** Every trip begins when the one before it has ended, or later. */
  lemma TripsDoNotOverlap(rows: seq<Row>, stretches: seq<Stretch>, now: int, j: nat, k: nat)
    requires InTime(rows) && Trips(rows, |rows|, stretches, now) && j < k < |stretches|
    ensures var (earlier, later) := (stretches[j].rows, stretches[k].rows);
            && earlier != [] && later != [] && IndexesOf(earlier, rows) && IndexesOf(later, rows)
            && earlier[|earlier| - 1] < later[0]
            && rows[earlier[|earlier| - 1]].at <= rows[later[0]].at
  {
    TripRowsAscend(rows, stretches, now, j, k);
  }

  /**
   Two rows next to each other in one trip are a gap or more apart exactly when rows between
   them were skipped: an outfit put on soon after everything was taken off goes on with the
   trip that had ended.
   */
  lemma GapsAreSkips(rows: seq<Row>, stretches: seq<Stretch>, now: int, k: nat, p: nat)
    requires InTime(rows) && Trips(rows, |rows|, stretches, now) && k < |stretches| && p + 1 < |stretches[k].rows|
    ensures IndexesOf(stretches[k].rows, rows)
    ensures var (x, y) := (stretches[k].rows[p], stretches[k].rows[p + 1]);
            && x < y && AllSkipped(rows, x, y)
            && (rows[y].at - rows[x].at >= TRIP_GAP_MS <==> y != x + 1)
  {
    NextInTrip(rows, stretches, now, k, p);
    var (x, y) := (stretches[k].rows[p], stretches[k].rows[p + 1]);
    if y != x + 1 {
      assert Skipped(rows, x + 1) && rows[x + 1].at <= rows[y].at;
    }
  }

  lemma NextInTrip(rows: seq<Row>, stretches: seq<Stretch>, now: int, k: nat, p: nat)
    requires Trips(rows, |rows|, stretches, now) && k < |stretches| && p + 1 < |stretches[k].rows|
    ensures IndexesOf(stretches[k].rows, rows)
    ensures var (x, y) := (stretches[k].rows[p], stretches[k].rows[p + 1]);
            x < y && AllSkipped(rows, x, y) && !AfterGap(rows, y)
  {
    assert OneTrip(rows, stretches[k], now) && GoesOn(rows, stretches[k], p + 1, now);
    var q := NextInFlat(stretches, k, p);
    FlatFollows(rows, stretches, now, q);
  }

  lemma NextInFlat(stretches: seq<Stretch>, k: nat, p: nat) returns (q: nat)
    requires k < |stretches| && p + 1 < |stretches[k].rows|
    ensures 0 < q < |Flat(stretches)|
    ensures Flat(stretches)[q - 1] == stretches[k].rows[p] && Flat(stretches)[q] == stretches[k].rows[p + 1]
  {
    RowsAtOffset(stretches, k);
    q := Offset(stretches, k) + (p + 1);
    assert Flat(stretches)[Offset(stretches, k) + p] == stretches[k].rows[p];
  }

  lemma FlatFollows(rows: seq<Row>, stretches: seq<Stretch>, now: int, q: nat)
    requires Trips(rows, |rows|, stretches, now) && 0 < q < |Flat(stretches)|
    ensures FollowsLast(rows, Flat(stretches), q)
  {
    KeptIsInOrder(rows, |rows|);
  }

  // ----- The rule as it is written -----

  /**
   Whether the trips up to a row of some were those before its own, and its own up to then;
   and the row had begun a trip exactly if it is the first of one.
   */
  ghost predicate WasUpTo(rows: seq<Row>, stretches: seq<Stretch>, now: int, k: nat, q: nat)
    requires k < |stretches| && q < |stretches[k].rows| && IndexesOf(stretches[k].rows, rows)
  {
    var y := stretches[k].rows[q];
    && !Skipped(rows, y)
    && Stretches(rows, y, now) == stretches[..k] + (if q == 0 then [] else [stretches[k].(rows := stretches[k].rows[..q])])
    && (Begins(rows, Stretches(rows, y, now), y, now) <==> q == 0)
  }

  /** Trips that are the same up to a row. */
  lemma {:induction false} SameUpTo(rows: seq<Row>, a: seq<Stretch>, b: seq<Stretch>, now: int, k: nat, q: nat)
    requires k < |a| && q < |a[k].rows| && IndexesOf(a[k].rows, rows) && WasUpTo(rows, a, now, k, q)
    requires k < |b| && q < |b[k].rows| && IndexesOf(b[k].rows, rows)
    requires a[..k] == b[..k] && a[k].carried == b[k].carried && a[k].rows[..q + 1] == b[k].rows[..q + 1]
    ensures WasUpTo(rows, b, now, k, q)
  {
    assert a[k].rows[q] == a[k].rows[..q + 1][q] && b[k].rows[q] == b[k].rows[..q + 1][q];
    assert a[k].rows[..q] == a[k].rows[..q + 1][..q] && b[k].rows[..q] == b[k].rows[..q + 1][..q];
  }

  /** A row that was just put in. */
  lemma {:induction false} NewUpTo(rows: seq<Row>, i: nat, now: int)
    requires i < |rows| && !Skipped(rows, i)
    ensures var (before, stretches) := (Stretches(rows, i, now), Stretches(rows, i + 1, now));
            var k := |stretches| - 1;
            && k >= 0 && k == (if Begins(rows, before, i, now) then |before| else |before| - 1)
            && WasUpTo(rows, stretches, now, k, |stretches[k].rows| - 1)
  {
    var before := Stretches(rows, i, now);
    LastIsWhole(rows, i, now);
    if !Begins(rows, before, i, now) {
      var last := before[|before| - 1];
      assert before == before[..|before| - 1] + [last];
      assert (last.rows + [i])[..|last.rows|] == last.rows;
    }
  }

  lemma {:induction false} StretchesUpTo(rows: seq<Row>, n: nat, now: int, k: nat, q: nat)
    requires n <= |rows| && k < |Stretches(rows, n, now)| && q < |Stretches(rows, n, now)[k].rows|
    ensures Stretches(rows, n, now)[k].rows[q] < n && WasUpTo(rows, Stretches(rows, n, now), now, k, q)
    decreases n
  {
    var i := n - 1;
    var (before, stretches) := (Stretches(rows, i, now), Stretches(rows, n, now));
    if Skipped(rows, i) {
      StretchesUpTo(rows, i, now, k, q);
    } else if k < |before| && q < |before[k].rows| {
      StretchesUpTo(rows, i, now, k, q);
      StretchesGrow(rows, i, now, k, q);
      SameUpTo(rows, before, stretches, now, k, q);
    } else {
      NewUpTo(rows, i, now);
    }
  }

  lemma {:induction false} StretchesGrow(rows: seq<Row>, i: nat, now: int, k: nat, q: nat)
    requires i < |rows| && !Skipped(rows, i) && k < |Stretches(rows, i, now)| && q < |Stretches(rows, i, now)[k].rows|
    ensures var (before, after) := (Stretches(rows, i, now), Stretches(rows, i + 1, now));
            && k < |after| && after[..k] == before[..k] && after[k].carried == before[k].carried
            && q < |after[k].rows| && after[k].rows[..q + 1] == before[k].rows[..q + 1]
  {
  }

  lemma LastIsWhole(rows: seq<Row>, n: nat, now: int)
    requires n <= |rows|
    ensures forall k | 0 <= k < |Stretches(rows, n, now)| :: Stretches(rows, n, now)[k].rows != []
  {
    StretchesAreTrips(rows, n, now);
    forall k | 0 <= k < |Stretches(rows, n, now)|
      ensures Stretches(rows, n, now)[k].rows != []
    {
      assert OneTrip(rows, Stretches(rows, n, now)[k], now);
    }
  }

  /** Rows that are in a trip stay where they are in it. */
  lemma {:induction false} RowsStay(rows: seq<Row>, m: nat, n: nat, now: int, k: nat)
    requires m <= n <= |rows| && k < |Stretches(rows, m, now)|
    ensures var (earlier, later) := (Stretches(rows, m, now), Stretches(rows, n, now));
            && k < |later| && |earlier[k].rows| <= |later[k].rows|
            && forall p | 0 <= p < |earlier[k].rows| :: later[k].rows[p] == earlier[k].rows[p]
    decreases n
  {
    if m < n {
      RowsStay(rows, m, n - 1, now, k);
    }
  }

  /** Whether the changes of each trip come less than a gap apart. */
  ghost predicate LessThanGapApart(rows: seq<Row>, stretches: seq<Stretch>)
    requires forall k | 0 <= k < |stretches| :: IndexesOf(stretches[k].rows, rows)
  {
    forall k, p: nat | 0 <= k < |stretches| && p + 1 < |stretches[k].rows| :: NextIsClose(rows, stretches[k], p)
  }

  ghost predicate NextIsClose(rows: seq<Row>, stretch: Stretch, p: nat)
    requires IndexesOf(stretch.rows, rows) && p + 1 < |stretch.rows|
  {
    rows[stretch.rows[p + 1]].at - rows[stretch.rows[p]].at < TRIP_GAP_MS
  }

  /** A row that belongs to a trip, right after one that does not. */
  predicate ComesAfterSkipped(rows: seq<Row>, i: nat) {
    0 < i < |rows| && Skipped(rows, i - 1) && !Skipped(rows, i)
  }

  /** A row after a skipped one that goes on with a trip is more than a gap after the row before it in that trip. */
  lemma GoesOnAfterGap(rows: seq<Row>, now: int, i: nat)
    requires InTime(rows) && ComesAfterSkipped(rows, i) && !Begins(rows, Stretches(rows, i, now), i, now)
    ensures !LessThanGapApart(rows, Stretches(rows, |rows|, now))
  {
    var (before, stretches) := (Stretches(rows, i, now), Stretches(rows, |rows|, now));
    var k := |before| - 1;
    LastIsWhole(rows, i, now);
    var p := |before[k].rows| - 1;
    StretchesUpTo(rows, i, now, k, p);
    var after := Stretches(rows, i + 1, now);
    assert after[k].rows == before[k].rows + [i];
    RowsStay(rows, i + 1, |rows|, now, k);
    assert stretches[k].rows[p] == before[k].rows[p] && stretches[k].rows[p + 1] == i;
    assert before[k].rows[p] != i - 1;
    StretchesAreTrips(rows, |rows|, now);
    GapsAreSkips(rows, stretches, now, k, p);
    assert !NextIsClose(rows, stretches[k], p);
  }

  /** A row a gap after the one before it in its trip comes after a skipped one, and did not begin a trip. */
  lemma GapComesFromSkipped(rows: seq<Row>, now: int, k: nat, p: nat) returns (i: nat)
    requires InTime(rows) && k < |Stretches(rows, |rows|, now)| && p + 1 < |Stretches(rows, |rows|, now)[k].rows|
    requires !NextIsClose(rows, Stretches(rows, |rows|, now)[k], p)
    ensures ComesAfterSkipped(rows, i) && !Begins(rows, Stretches(rows, i, now), i, now)
  {
    var stretches := Stretches(rows, |rows|, now);
    StretchesAreTrips(rows, |rows|, now);
    GapsAreSkips(rows, stretches, now, k, p);
    i := stretches[k].rows[p + 1];
    StretchesUpTo(rows, |rows|, now, k, p + 1);
  }

  /**
   The first half of the rule, that each change of a trip comes less than a gap after the one
   before it, holds exactly when every row that belongs to a trip begins one if the row right
   before it was skipped.
   */
  lemma ChangesAreCloseUnlessSkipped(rows: seq<Row>, now: int)
    requires InTime(rows)
    ensures LessThanGapApart(rows, Stretches(rows, |rows|, now)) <==>
            forall i: nat | ComesAfterSkipped(rows, i) :: Begins(rows, Stretches(rows, i, now), i, now)
  {
    var stretches := Stretches(rows, |rows|, now);
    if i: nat :| ComesAfterSkipped(rows, i) && !Begins(rows, Stretches(rows, i, now), i, now) {
      GoesOnAfterGap(rows, now, i);
    }
    if !LessThanGapApart(rows, stretches) {
      var k, p: nat :| 0 <= k < |stretches| && p + 1 < |stretches[k].rows| && !NextIsClose(rows, stretches[k], p);
      var i := GapComesFromSkipped(rows, now, k, p);
    }
  }

  /** What a trip has used before one of its rows. */
  function UsedBefore(rows: seq<Row>, stretch: Stretch, q: nat, now: int): set<int>
    requires IndexesOf(stretch.rows, rows) && q <= |stretch.rows|
  {
    assert IndexesOf(stretch.rows[..q], rows);
    IdsIn(WornOn(rows, stretch.(rows := stretch.rows[..q]), now))
  }

  /** Whether each outfit of a trip but the first shares enough items with what the trip has used before. */
  ghost predicate OutfitsShare(rows: seq<Row>, stretches: seq<Stretch>, now: int)
    requires forall k | 0 <= k < |stretches| :: IndexesOf(stretches[k].rows, rows)
  {
    forall k, q | 0 <= k < |stretches| && 0 < q < |stretches[k].rows| :: OutfitShares(rows, stretches[k], q, now)
  }

  ghost predicate OutfitShares(rows: seq<Row>, stretch: Stretch, q: nat, now: int)
    requires IndexesOf(stretch.rows, rows) && q < |stretch.rows|
  {
    var items := rows[stretch.rows[q]].items;
    items != [] ==> SharedCount(items, UsedBefore(rows, stretch, q, now)) >= TRIP_MIN_SHARED
  }

  /**
   An outfit that goes on with any trip, though it shares too little with the one there is: a
   small one, or one of any size when nothing was worn on that trip.
   */
  ghost predicate GoesOnAnyway(rows: seq<Row>, i: nat, now: int)
    requires i < |rows|
  {
    var before := Stretches(rows, i, now);
    && before != [] && !AfterGap(rows, i)
    && var (items, used) := (rows[i].items, IdsIn(WornOn(rows, before[|before| - 1], now)));
       items != [] && SharedCount(items, used) < TRIP_MIN_SHARED && (|items| <= TRIP_MIN_SHARED || used == {})
  }

  /** That is, one that shares too little but does not begin a trip. */
  lemma AnywayIsNotBegun(rows: seq<Row>, i: nat, now: int)
    requires i < |rows|
    ensures GoesOnAnyway(rows, i, now) <==>
            var before := Stretches(rows, i, now);
            && !Begins(rows, before, i, now) && rows[i].items != []
            && SharedCount(rows[i].items, IdsIn(WornOn(rows, before[|before| - 1], now))) < TRIP_MIN_SHARED
  {
  }

  lemma SharesUnlessAnyway(rows: seq<Row>, now: int, k: nat, q: nat)
    requires k < |Stretches(rows, |rows|, now)| && 0 < q < |Stretches(rows, |rows|, now)[k].rows|
    ensures var stretch := Stretches(rows, |rows|, now)[k];
            OutfitShares(rows, stretch, q, now) <==> !GoesOnAnyway(rows, stretch.rows[q], now)
  {
    var stretches := Stretches(rows, |rows|, now);
    var stretch := stretches[k];
    StretchesUpTo(rows, |rows|, now, k, q);
    var before := Stretches(rows, stretch.rows[q], now);
    assert before[|before| - 1] == stretch.(rows := stretch.rows[..q]);
    AnywayIsNotBegun(rows, stretch.rows[q], now);
  }

  /** Where a row that goes on with a trip is in the end. */
  lemma GoesOnSomewhere(rows: seq<Row>, now: int, i: nat) returns (k: nat, q: nat)
    requires i < |rows| && !Skipped(rows, i) && !Begins(rows, Stretches(rows, i, now), i, now)
    ensures k < |Stretches(rows, |rows|, now)| && 0 < q < |Stretches(rows, |rows|, now)[k].rows|
    ensures Stretches(rows, |rows|, now)[k].rows[q] == i
  {
    var before := Stretches(rows, i, now);
    LastIsWhole(rows, i, now);
    k := |before| - 1;
    q := |before[k].rows|;
    assert Stretches(rows, i + 1, now)[k].rows == before[k].rows + [i];
    RowsStay(rows, i + 1, |rows|, now, k);
  }

  /**
   The second half of the rule, that each outfit of a trip shares enough with the ones before it,
   holds exactly when there is none that goes on anyway.
   */
  lemma OutfitsShareUnlessSmall(rows: seq<Row>, now: int)
    ensures OutfitsShare(rows, Stretches(rows, |rows|, now), now) <==> forall i: nat | i < |rows| :: !GoesOnAnyway(rows, i, now)
  {
    var stretches := Stretches(rows, |rows|, now);
    if i: nat :| i < |rows| && GoesOnAnyway(rows, i, now) {
      AnywayIsNotBegun(rows, i, now);
      var k, q := GoesOnSomewhere(rows, now, i);
      SharesUnlessAnyway(rows, now, k, q);
    }
    forall k, q | 0 <= k < |stretches| && 0 < q < |stretches[k].rows|
      ensures OutfitShares(rows, stretches[k], q, now) <==> !GoesOnAnyway(rows, stretches[k].rows[q], now)
    {
      SharesUnlessAnyway(rows, now, k, q);
    }
  }

  /** One item, and another instead of it a minute later. */
  const ONE_FOR_ANOTHER: seq<Row> := [Row(0, [Item(0, 1, 1)]), Row(60_000, [Item(0, 2, 1)])]

  /** Such a change goes on with the trip, though nothing is shared. */
  lemma SmallOutfitGoesOn(now: int)
    ensures Stretches(ONE_FOR_ANOTHER, 2, now) == [Stretch([], [0, 1])]
    ensures GoesOnAnyway(ONE_FOR_ANOTHER, 1, now) && !OutfitsShare(ONE_FOR_ANOTHER, Stretches(ONE_FOR_ANOTHER, 2, now), now)
  {
    var rows := ONE_FOR_ANOTHER;
    OneItemTrip(rows, now);
    OneItemWorn(rows, now);
    assert rows[1].items == [Item(0, 2, 1)] && !AfterGap(rows, 1);
    OneMore(rows, 1, now);
    LastGoesOn(rows, [Stretch([], [0])], 1, now);
    TwoRows();
    assert Stretches(rows, 1, now)[0] == Stretch([], [0]);
    assert GoesOnAnyway(rows, 1, now);
    OutfitsShareUnlessSmall(rows, now);
  }

  lemma TwoRows()
    ensures var first := Stretch([], [0]); [first][0 := first.(rows := first.rows + [1])] == [Stretch([], [0, 1])]
  {
    var both: seq<nat> := [0] + [1];
    assert both == [0, 1];
  }

  lemma OneItemTrip(rows: seq<Row>, now: int)
    requires |rows| > 0 && rows[0].items != []
    ensures Stretches(rows, 1, now) == [Stretch([], [0])]
  {
    OneMore(rows, 0, now);
    assert Stretches(rows, 0, now) == [];
  }

  lemma OneItemWorn(rows: seq<Row>, now: int)
    requires |rows| > 0 && rows[0].items == [Item(0, 1, 1)]
    ensures IdsIn(WornOn(rows, Stretch([], [0]), now)) == {1} && SharedCount([Item(0, 2, 1)], {1}) == 0
  {
    var worn := WornOn(rows, Stretch([], [0]), now);
    var none: seq<nat> := [];
    assert [0][..0] == none && WornOn(rows, Stretch([], none), now) == [];
    assert worn == [Wearing(rows[0].items, WornMs(rows, 0, now))];
    assert worn[..0] == [] && IdsOf(rows[0].items) == {1};
    assert [Item(0, 2, 1)][..0] == [];
  }

  /** An item put on, all taken off half an hour later, and put on again the next minute. */
  const PUT_ON_AGAIN: seq<Row> :=
    [Row(0, [Item(0, 1, 1)]), Row(30 * 60_000, []), Row(31 * 60_000, [Item(0, 1, 1)])]

  /** One trip can go on after more than a gap. */
  lemma TripGoesOnAfterGap(now: int)
    ensures Stretches(PUT_ON_AGAIN, 3, now) == [Stretch([], [0, 2])]
    ensures PUT_ON_AGAIN[2].at - PUT_ON_AGAIN[0].at > TRIP_GAP_MS
  {
    var rows := PUT_ON_AGAIN;
    var first := [Stretch([], [0])];
    assert Stretches(rows, 0, now) == [];
    OneMore(rows, 0, now);
    assert WithRow(rows, [], 0, now) == first;
    OneMore(rows, 1, now);
    assert Skipped(rows, 1);
    OneMore(rows, 2, now);
    LastGoesOn(rows, first, 2, now);
    var both: seq<nat> := [0] + [2];
    assert both == [0, 2];
    assert first[0].rows + [2] == both && first[0 := Stretch([], both)] == [Stretch([], both)];
  }

  lemma OneMore(rows: seq<Row>, n: nat, now: int)
    requires n < |rows|
    ensures Stretches(rows, n + 1, now) == WithRow(rows, Stretches(rows, n, now), n, now)
  {
  }

  lemma LastGoesOn(rows: seq<Row>, before: seq<Stretch>, i: nat, now: int)
    requires i < |rows| && before != [] && forall k | 0 <= k < |before| :: IndexesOf(before[k].rows, rows)
    requires !AfterGap(rows, i) && |rows[i].items| <= TRIP_MIN_SHARED
    ensures !Skipped(rows, i)
    ensures var last := before[|before| - 1];
            WithRow(rows, before, i, now) == before[|before| - 1 := last.(rows := last.rows + [i])]
  {
  }

  // ----- Times worn -----

  /** How long the outfits of the rows from i up to j were worn in all. */
  function WornFrom(rows: seq<Row>, i: nat, j: nat, now: int): (ms: nat)
    requires i <= j <= |rows|
    decreases j - i
  {
    if i == j then 0 else WornFrom(rows, i, j - 1, now) + WornMs(rows, j - 1, now)
  }

  /** By how much the times between those rows, and from the last row to now, were longer than a gap. */
  function OverGap(rows: seq<Row>, i: nat, j: nat, now: int): (ms: nat)
    requires i <= j <= |rows|
    decreases j - i
  {
    if i == j then 0
    else
      var until := if j < |rows| then rows[j].at else now;
      OverGap(rows, i, j - 1, now) + if until - rows[j - 1].at > 1_200_000 then until - rows[j - 1].at - 1_200_000 else 0
  }

  /** What rows were worn adds up to all the time there was, but for what is more than twenty minutes at a stretch. */
  lemma {:induction false} WornTimeIsElapsed(rows: seq<Row>, i: nat, j: nat, now: int)
    requires InTime(rows) && i < j <= |rows| && (j == |rows| ==> now >= rows[j - 1].at)
    ensures WornFrom(rows, i, j, now) + OverGap(rows, i, j, now) == (if j < |rows| then rows[j].at else now) - rows[i].at
    decreases j - i
  {
    if i + 1 < j {
      WornTimeIsElapsed(rows, i, j - 1, now);
    }
  }

  /** Where the items that are among some ids are in an outfit. */
  ghost function SharedAt(items: Outfit, ids: set<int>): set<nat> {
    set i: nat | i < |items| && items[i].id in ids
  }

  lemma {:induction false} SharedAreCounted(items: Outfit, ids: set<int>)
    ensures SharedCount(items, ids) == |SharedAt(items, ids)|
    decreases |items|
  {
    if items != [] {
      var n := |items| - 1;
      SharedAreCounted(items[..n], ids);
      assert SharedAt(items, ids) == SharedAt(items[..n], ids) + if items[n].id in ids then {n} else {};
    } else {
      assert SharedAt(items, ids) == {};
    }
  }

  /** Whether the outfit before a row has enough in common with it to have come along on a trip that begins there. */
  ghost predicate CameAlong(rows: seq<Row>, i: nat)
    requires i < |rows|
  {
    i > 0 && |SharedAt(rows[i].items, IdsOf(rows[i - 1].items))| >= 2
  }

  lemma {:induction false} FirstWorn(rows: seq<Row>, stretch: Stretch, now: int)
    requires IndexesOf(stretch.rows, rows) && stretch.carried != []
    ensures WornOn(rows, stretch, now)[0] == Wearing(stretch.carried, 0)
    decreases |stretch.rows|
  {
    if stretch.rows != [] {
      FirstWorn(rows, stretch.(rows := stretch.rows[..|stretch.rows| - 1]), now);
    }
  }

  /** What is worn on a trip are its rows, and first, for no time, the outfit before it exactly if that came along. */
  lemma {:induction false} TripBringsOutfit(rows: seq<Row>, n: nat, now: int, k: nat)
    requires n <= |rows| && k < |Stretches(rows, n, now)|
    ensures var stretch := Stretches(rows, n, now)[k];
            && stretch.rows != [] && IndexesOf(stretch.rows, rows)
            && |WornOn(rows, stretch, now)| == |stretch.rows| + (if CameAlong(rows, stretch.rows[0]) then 1 else 0)
            && (CameAlong(rows, stretch.rows[0]) ==> WornOn(rows, stretch, now)[0] == Wearing(rows[stretch.rows[0] - 1].items, 0))
  {
    var stretch := Stretches(rows, n, now)[k];
    StretchesAreTrips(rows, n, now);
    assert OneTrip(rows, stretch, now);
    var i := stretch.rows[0];
    if i > 0 {
      SharedAreCounted(rows[i].items, IdsOf(rows[i - 1].items));
      if rows[i - 1].items == [] {
        assert SharedAt(rows[i].items, IdsOf(rows[i - 1].items)) == {};
      }
    }
    if stretch.carried != [] {
      FirstWorn(rows, stretch, now);
    }
  }

  /** Of items with different ids, as many are shared as ids are in both sets. */
  lemma {:induction false} SharedAreCommon(items: Outfit, ids: set<int>)
    requires forall i, j | 0 <= i < j < |items| :: items[i].id != items[j].id
    ensures SharedCount(items, ids) == |IdsOf(items) * ids|
    decreases |items|
  {
    if items == [] {
      assert IdsOf(items) * ids == {};
    } else {
      var n := |items| - 1;
      SharedAreCommon(items[..n], ids);
      OneMoreId(items);
      OneMoreCommon(IdsOf(items[..n]), items[n].id, ids);
    }
  }

  lemma OneMoreCommon(some: set<int>, id: int, ids: set<int>)
    requires id !in some
    ensures |(some + {id}) * ids| == |some * ids| + if id in ids then 1 else 0
  {
    assert (some + {id}) * ids == if id in ids then some * ids + {id} else some * ids;
  }

  lemma OneMoreId(items: Outfit)
    requires items != [] && forall i, j | 0 <= i < j < |items| :: items[i].id != items[j].id
    ensures var n := |items| - 1; IdsOf(items) == IdsOf(items[..n]) + {items[n].id} && items[n].id !in IdsOf(items[..n])
  {
    var n := |items| - 1;
    assert forall item | item in items :: item in items[..n] || item == items[n];
    assert forall item | item in items[..n] :: item in items;
  }
}
