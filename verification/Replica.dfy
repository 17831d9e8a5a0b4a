/**
 The members on the site as a replica of the members table: any writes, any changes of
 who is visible, and polls.

 A poll is one step: what is written while its answer is on the way counts as written
 after it, and polls don't overlap.
 */
module Replica {
  import opened Convert
  import opened UpdateBatcher
  import opened MemberPolls

  /**
   The table and its clock, who is visible, and the site: its members and when it asks
   from next. `arrived` counts the members that were new to the site, `asked` how often it
   asked for everything because of them.
   */
  datatype World = World(now: int, table: Table, visible: set<string>, members: Members, from: int, arrived: nat, asked: nat)

  datatype Event =
    | Pass(micros: nat)
    | Commit(name: string, section: Section, stored: Stored)  // a write that becomes visible now, stamped earlier
    | Show(visible: set<string>)
    | Poll(names: seq<string>, later: int)                    // names in the order of the answer

  predicate Distinct(names: seq<string>) {
    forall i, j | 0 <= i < j < |names| :: names[i] != names[j]
  }

  /** What can happen: a write commits no later than the cursor lags behind, and an answer names each visible member once. */
  predicate Possible(w: World, event: Event) {
    match event
    case Pass(_) => true
    case Commit(name, _, stored) => name in w.table && 0 <= stored.at <= w.now <= stored.at + CURSOR_OVERLAP
    case Show(visible) => visible <= w.table.Keys
    case Poll(names, later) => Distinct(names) && (set n | n in names) == w.visible && later >= w.now
  }

  ghost predicate Sensible(w: World) {
    && w.visible <= w.table.Keys
    && forall name, section | name in w.table && section in w.table[name] :: 0 <= w.table[name][section].at
  }

  function Answer(w: World, names: seq<string>, later: int): Response
    requires forall name | name in names :: name in w.table
  {
    Response((if names == [] then later else w.now) - CURSOR_OVERLAP, names, MembersSince(w.table, names, w.from))
  }

  ghost function After(w: World, event: Event): World
    requires Sensible(w) && Possible(w, event)
  {
    match event
    case Pass(micros) => w.(now := w.now + micros)
    case Commit(name, section, stored) => w.(table := w.table[name := w.table[name][section := stored]])
    case Show(visible) => w.(visible := visible)
    case Poll(names, later) =>
      var r := Answer(w, names, later);
      var (members, from) := Updated(w.members, r);
      w.(now := if names == [] then later else w.now, members := members, from := from,
         arrived := w.arrived + |w.visible - w.members.Keys|,
         asked := w.asked + if Reloads(w.members, r) then 1 else 0)
  }

  // ----- What the site has of a member -----

  /** Whether the site shows of a section what the row has. */
  predicate Agrees(sections: Cells, row: Row, section: Section) {
    if section in row && !NotShared(section, row[section].cell)
    then section in sections && sections[section] == row[section].cell
    else section !in sections
  }

  ghost predicate InSync(sections: Cells, row: Row) {
    forall section :: Agrees(sections, row, section)
  }

  /** Whether what the site has wrong of a member will come with the next poll. */
  ghost predicate Tracked(sections: Cells, row: Row, from: int) {
    forall section :: Agrees(sections, row, section) || (section in row && row[section].at >= from)
  }

  // ----- One poll, member by member -----

  ghost predicate DistinctRows(rows: seq<MemberRow>) {
    forall i, j | 0 <= i < j < |rows| :: rows[i].name != rows[j].name
  }

  /** The answer has a row for each of its members that changed, and no other. */
  ghost predicate RowsOf(table: Table, names: seq<string>, since: int, rows: seq<MemberRow>)
    requires forall name | name in names :: name in table
  {
    && DistinctRows(rows)
    && (forall row | row in rows :: row.name in names && UpdatedSince(table[row.name], since)
                                    && row.cells == ChangedSince(table[row.name], since))
    && (forall name | name in names && UpdatedSince(table[name], since) ::
          MemberRow(name, ChangedSince(table[name], since)) in rows)
  }

  lemma {:induction false} MembersSinceHasEach(table: Table, names: seq<string>, since: int)
    requires Distinct(names) && forall name | name in names :: name in table
    ensures RowsOf(table, names, since, MembersSince(table, names, since))
    decreases |names|
  {
    if names != [] {
      var n := |names| - 1;
      MembersSinceHasEach(table, names[..n], since);
      assert names[n] !in names[..n];
      assert forall name | name in names :: name in names[..n] || name == names[n];
      OneMoreRow(table, names[..n], since, MembersSince(table, names[..n], since), names[n]);
      assert names == names[..n] + [names[n]];
    }
  }

  lemma OneMoreRow(table: Table, names: seq<string>, since: int, rows: seq<MemberRow>, name: string)
    requires (forall n | n in names :: n in table) && name in table && name !in names
    requires RowsOf(table, names, since, rows)
    ensures RowsOf(table, names + [name], since,
              rows + if UpdatedSince(table[name], since) then [MemberRow(name, ChangedSince(table[name], since))] else [])
  {
    assert forall i | 0 <= i < |rows| :: rows[i] in rows;
  }

  /** Rows of different members fill each its own. */
  lemma {:induction false} RowsFillTheirOwn(members: Members, rows: seq<MemberRow>, name: string)
    requires DistinctRows(rows)
    ensures WithRows(members, rows).Keys == members.Keys
    ensures name in members && (forall row | row in rows :: row.name != name) ==>
              WithRows(members, rows)[name] == members[name]
    ensures forall row | row in rows && row.name == name && name in members ::
              WithRows(members, rows)[name] == Member(Applied(members[name].sections, row.cells), true, members[name].reloadRequested)
    decreases |rows|
  {
    if rows != [] {
      var n := |rows| - 1;
      RowsFillTheirOwn(members, rows[..n], name);
      assert forall row | row in rows :: row in rows[..n] || row == rows[n];
    }
  }

  /** A member before the answer's rows are applied: the one the site has, or a new one. */
  function Met(members: Members, name: string): Member {
    if name in members then members[name] else NEW_MEMBER
  }

  /** What one poll does to one visible member. */
  ghost function Filled(w: World, name: string): Member
    requires name in w.table
  {
    var member := Met(w.members, name);
    if UpdatedSince(w.table[name], w.from)
    then Member(Applied(member.sections, ChangedSince(w.table[name], w.from)), true, member.reloadRequested)
    else member
  }

  lemma AnswerFills(w: World, names: seq<string>, name: string)
    requires Sensible(w) && Distinct(names) && (forall n | n in names :: n in w.table) && name in names
    ensures var filled := WithRows(WithNew(w.members, names), MembersSince(w.table, names, w.from));
            name in filled && filled[name] == Filled(w, name)
  {
    var rows := MembersSince(w.table, names, w.from);
    MembersSinceHasEach(w.table, names, w.from);
    RowsFillTheirOwn(WithNew(w.members, names), rows, name);
    if UpdatedSince(w.table[name], w.from) {
      assert MemberRow(name, ChangedSince(w.table[name], w.from)) in rows;
    }
  }

  lemma PollFills(w: World, names: seq<string>, later: int, name: string)
    requires Sensible(w) && Possible(w, Poll(names, later)) && name in names
    ensures var after := After(w, Poll(names, later));
            name in after.members && after.members[name].sections == Filled(w, name).sections
            && after.members[name].hasData == Filled(w, name).hasData
  {
    AnswerFills(w, names, name);
  }

  /** What was tracked of a member is in sync after a poll, and nothing else is. */
  lemma FillingSyncs(sections: Cells, row: Row, from: int)
    ensures InSync(Applied(sections, ChangedSince(row, from)), row) <==> Tracked(sections, row, from)
    ensures !UpdatedSince(row, from) ==> (InSync(sections, row) <==> Tracked(sections, row, from))
  {
    var applied := Applied(sections, ChangedSince(row, from));
    forall section
      ensures Agrees(applied, row, section) <==> Agrees(sections, row, section) || (section in row && row[section].at >= from)
      ensures !UpdatedSince(row, from) ==> !(section in row && row[section].at >= from)
    {
    }
  }

  /** Whether the next poll brings a member to the site whole: what the site has wrong of it, or lacks, comes with it. */
  ghost predicate Comes(w: World, name: string)
    requires name in w.table
  {
    Tracked(Met(w.members, name).sections, w.table[name], w.from)
  }

  /** For a member that is new to the site: nothing that it should show is older than the site asks from. */
  lemma NewComes(w: World, name: string)
    requires name in w.table && name !in w.members
    ensures Comes(w, name) <==>
            forall section | section in w.table[name] && w.table[name][section].at < w.from :: NotShared(section, w.table[name][section].cell)
  {
    if Comes(w, name) {
      forall section | section in w.table[name] && w.table[name][section].at < w.from
        ensures NotShared(section, w.table[name][section].cell)
      {
        assert Agrees(map[], w.table[name], section);
      }
    }
  }

  /** A visible member is on the site after a poll, and in sync exactly when it came whole. */
  lemma MemberAfterPoll(w: World, names: seq<string>, later: int, name: string)
    requires Sensible(w) && Possible(w, Poll(names, later)) && name in w.visible
    ensures var after := After(w, Poll(names, later));
            name in after.members && (InSync(after.members[name].sections, w.table[name]) <==> Comes(w, name))
  {
    assert name in names;
    PollFills(w, names, later, name);
    FillingSyncs(Met(w.members, name).sections, w.table[name], w.from);
  }

  // ----- Every poll -----

  /** The site shows nothing of a member that its row has not. */
  ghost predicate ShowsNoMore(w: World) {
    forall name, section | name in w.members && name in w.table && section in w.members[name].sections :: section in w.table[name]
  }

  /** Every member on the site has data, or has asked for it. */
  ghost predicate Settled(members: Members) {
    forall name | name in members :: !AsksForReload(members[name])
  }

  /** What holds of the table and the site whatever happens. */
  ghost predicate Going(w: World) {
    && Sensible(w) && ShowsNoMore(w) && Settled(w.members)
    && (w.from <= 0 || w.from + CURSOR_OVERLAP <= w.now)
  }

  /** Every visible member is on the site, and in sync. */
  ghost predicate AllInSync(w: World) {
    forall name | name in w.visible && name in w.table :: name in w.members && InSync(w.members[name].sections, w.table[name])
  }

  /** After a poll the site has exactly the visible members, all of them in sync exactly when each came whole. */
  lemma PollSyncsWhatComes(w: World, names: seq<string>, later: int)
    requires Sensible(w) && Possible(w, Poll(names, later))
    ensures var after := After(w, Poll(names, later));
            && after.members.Keys == w.visible
            && (AllInSync(after) <==> forall name | name in w.visible :: Comes(w, name))
  {
    var after := After(w, Poll(names, later));
    assert forall name :: name in names <==> name in w.visible;
    forall name | name in w.visible
      ensures name in after.members && (InSync(after.members[name].sections, w.table[name]) <==> Comes(w, name))
    {
      MemberAfterPoll(w, names, later, name);
    }
    EachInSync(w, after);
  }

  lemma EachInSync(w: World, after: World)
    requires Sensible(w) && after.table == w.table && after.visible == w.visible
    requires forall name | name in w.visible ::
               name in after.members && (InSync(after.members[name].sections, w.table[name]) <==> Comes(w, name))
    ensures AllInSync(after) <==> forall name | name in w.visible :: Comes(w, name)
  {
  }

  /** When the members the site has are tracked: all are in sync after a poll exactly when no new one lacks a section older than the site asks from. */
  lemma PollSyncsUnlessInPart(w: World, names: seq<string>, later: int)
    requires Sensible(w) && Possible(w, Poll(names, later))
    requires forall name | name in w.visible && name in w.members :: Comes(w, name)
    ensures AllInSync(After(w, Poll(names, later))) <==>
            forall name, section | name in w.visible && name !in w.members && section in w.table[name] && w.table[name][section].at < w.from ::
              NotShared(section, w.table[name][section].cell)
  {
    PollSyncsWhatComes(w, names, later);
    forall name | name in w.visible && name !in w.members
      ensures Comes(w, name) <==>
              forall section | section in w.table[name] && w.table[name][section].at < w.from :: NotShared(section, w.table[name][section].cell)
    {
      NewComes(w, name);
    }
  }

  /** A poll that does not end so asks from the whole millisecond next that the answer's cursor is in. */
  lemma CursorInWholeMs(members: Members, r: Response)
    requires !Reloads(members, r)
    ensures exists ms :: Updated(members, r).1 == ms * MICROS_PER_MS && ms * MICROS_PER_MS <= r.cursor < (ms + 1) * MICROS_PER_MS
  {
    var ms := r.cursor / MICROS_PER_MS;
    assert ms * MICROS_PER_MS <= r.cursor < (ms + 1) * MICROS_PER_MS;
  }

  /** A poll ends with asking for everything exactly when someone visible is new to the site and nothing of them came. */
  lemma PollReloads(w: World, names: seq<string>, later: int)
    requires Sensible(w) && Settled(w.members) && Possible(w, Poll(names, later))
    ensures Reloads(w.members, Answer(w, names, later)) <==>
            exists name :: name in w.visible && name !in w.members && !UpdatedSince(w.table[name], w.from)
    ensures Reloads(w.members, Answer(w, names, later)) ==> After(w, Poll(names, later)).from == 0
  {
    var r := Answer(w, names, later);
    var filled := WithRows(WithNew(w.members, names), r.members);
    MembersSinceHasEach(w.table, names, w.from);
    RowsFillTheirOwn(WithNew(w.members, names), r.members, "");
    if name :| name in w.visible && name !in w.members && !UpdatedSince(w.table[name], w.from) {
      assert name in names;
      AnswerFills(w, names, name);
      assert AsksForReload(filled[name]);
    }
    if name :| name in filled && AsksForReload(filled[name]) {
      RowsFillTheirOwn(WithNew(w.members, names), r.members, name);
      if name in names {
        AnswerFills(w, names, name);
      }
    }
  }

  /** A full load brings everyone whole. */
  lemma FullLoadBringsAll(w: World, name: string)
    requires Going(w) && w.from <= 0 && name in w.table
    ensures Comes(w, name)
  {
    forall section
      ensures Agrees(Met(w.members, name).sections, w.table[name], section) ||
              (section in w.table[name] && w.table[name][section].at >= w.from)
    {
    }
  }

  // ----- Every run -----

  lemma SettledAfterPoll(w: World, names: seq<string>, later: int)
    requires Sensible(w) && Settled(w.members) && Possible(w, Poll(names, later))
    ensures Settled(After(w, Poll(names, later)).members)
  {
    var filled := WithRows(WithNew(w.members, names), MembersSince(w.table, names, w.from));
    if !HasNew(w.members, names) {
      forall name | name in names && name in filled
        ensures !AsksForReload(filled[name])
      {
        AnswerFills(w, names, name);
      }
    }
  }

  lemma NoMoreAfterPoll(w: World, names: seq<string>, later: int, name: string)
    requires Sensible(w) && ShowsNoMore(w) && Possible(w, Poll(names, later)) && name in names
    ensures var after := After(w, Poll(names, later));
            name in after.members && forall section | section in after.members[name].sections :: section in w.table[name]
  {
    PollFills(w, names, later, name);
  }

  lemma PollKeepsGoing(w: World, names: seq<string>, later: int)
    requires Going(w) && Possible(w, Poll(names, later))
    ensures Going(After(w, Poll(names, later)))
  {
    var after := After(w, Poll(names, later));
    SettledAfterPoll(w, names, later);
    forall name, section | name in after.members && section in after.members[name].sections
      ensures section in w.table[name]
    {
      NoMoreAfterPoll(w, names, later, name);
    }
  }

  lemma EventKeepsGoing(w: World, event: Event)
    requires Going(w) && Possible(w, event)
    ensures Going(After(w, event))
  {
    match event
    case Poll(names, later) => PollKeepsGoing(w, names, later);
    case _ =>
  }

  /** Whether some events can happen one after the other. */
  ghost predicate CanHappen(w: World, events: seq<Event>)
    requires Going(w)
    decreases |events|
  {
    events == [] ||
    (Possible(w, events[0]) && (EventKeepsGoing(w, events[0]); CanHappen(After(w, events[0]), events[1..])))
  }

  ghost function Happened(w: World, events: seq<Event>): (r: World)
    requires Going(w) && CanHappen(w, events)
    ensures Going(r)
    decreases |events|
  {
    if events == [] then w
    else
      EventKeepsGoing(w, events[0]);
      Happened(After(w, events[0]), events[1..])
  }

  /** Whether a member is visible at each poll of some events. */
  ghost predicate SeenAtPolls(w: World, events: seq<Event>, name: string)
    requires Going(w) && CanHappen(w, events)
    decreases |events|
  {
    events == [] ||
    ((events[0].Poll? ==> name in w.visible) &&
      (EventKeepsGoing(w, events[0]); SeenAtPolls(After(w, events[0]), events[1..], name)))
  }

  /** What the site has of a member is right, or what is wrong comes with the next poll. */
  ghost predicate Followed(w: World, name: string) {
    name in w.members && name in w.table && Comes(w, name)
  }

  /** Whatever happens, a member that is followed stays so, as long as it is visible at polls. */
  lemma EventKeepsFollowed(w: World, event: Event, name: string)
    requires Going(w) && Possible(w, event) && Followed(w, name)
    requires event.Poll? ==> name in w.visible
    ensures Followed(After(w, event), name)
  {
    match event
    case Poll(names, later) =>
      MemberAfterPoll(w, names, later, name);
    case Commit(other, section, stored) =>
      var (sections, before) := (w.members[name].sections, w.table[name]);
      var row := After(w, event).table[name];
      forall s
        ensures Agrees(sections, row, s) || (s in row && row[s].at >= w.from)
      {
        assert Agrees(sections, before, s) || (s in before && before[s].at >= w.from);
      }
    case _ =>
  }

  lemma {:induction false} RunKeepsFollowed(w: World, events: seq<Event>, name: string)
    requires Going(w) && CanHappen(w, events) && SeenAtPolls(w, events, name) && Followed(w, name)
    ensures Followed(Happened(w, events), name)
    decreases |events|
  {
    if events != [] {
      EventKeepsGoing(w, events[0]);
      EventKeepsFollowed(w, events[0], name);
      RunKeepsFollowed(After(w, events[0]), events[1..], name);
    }
  }

  /** A site that was just opened, on any table. */
  ghost predicate Opened(w: World) {
    Sensible(w) && w.members == map[] && w.from == 0 && w.now >= 0 && w.arrived == w.asked == 0
  }

  /**
   Over any run that begins with opening the site: a member that once came whole, as all do
   with a full load, and was visible at every poll since, has, section by section, the latest
   written value after every poll. What became of other members makes no difference.
   */
  lemma SiteIsReplica(w: World, before: seq<Event>, first: Event, between: seq<Event>, last: Event, name: string)
    requires Opened(w) && CanHappen(w, before)
    requires var loading := Happened(w, before);
             first.Poll? && Possible(loading, first) && name in loading.visible && (loading.from <= 0 || Comes(loading, name))
    requires var loaded := After(Happened(w, before), first);
             Going(loaded) && CanHappen(loaded, between) && SeenAtPolls(loaded, between, name)
    requires var now := Happened(After(Happened(w, before), first), between);
             last.Poll? && Possible(now, last) && name in now.visible
    ensures var after := After(Happened(After(Happened(w, before), first), between), last);
            && after.members.Keys == after.visible
            && InSync(after.members[name].sections, after.table[name])
  {
    var loading := Happened(w, before);
    if loading.from <= 0 {
      FullLoadBringsAll(loading, name);
    }
    var loaded := After(loading, first);
    MemberAfterPoll(loading, first.names, first.later, name);
    RunKeepsFollowed(loaded, between, name);
    var now := Happened(loaded, between);
    MemberAfterPoll(now, last.names, last.later, name);
    PollSyncsWhatComes(now, last.names, last.later);
  }

  /** And whatever happened before, a full load leaves everyone visible in sync. */
  lemma FullLoadSyncsAll(w: World, events: seq<Event>, names: seq<string>, later: int)
    requires Opened(w) && CanHappen(w, events)
    requires Possible(Happened(w, events), Poll(names, later)) && Happened(w, events).from <= 0
    ensures AllInSync(After(Happened(w, events), Poll(names, later)))
  {
    var now := Happened(w, events);
    forall name | name in now.visible
      ensures Comes(now, name)
    {
      FullLoadBringsAll(now, name);
    }
    PollSyncsWhatComes(now, names, later);
  }

  const STATS_CELL := Array([99])
  const PLACE_CELL := Array([3200, 3200, 0])

  /** A site opened while b, whose stats were stored long ago, is hidden. */
  const HIDDEN_B := World(10_000_000, map["b" := map[Stats := Stored(STATS_CELL, 0)]], {}, map[], 0, 0, 0)

  /** A poll, a new position of b's, and b is shown again. */
  const B_IS_SHOWN: seq<Event> := [Poll([], 10_000_000), Commit("b", Coordinates, Stored(PLACE_CELL, 10_000_000)), Show({"b"})]

  /**
   A member does come in part, with events that can happen: the site takes what comes of b
   for all there is, shows no stats, and does not ask for everything.
   */
  lemma ShownAgainInPart()
    ensures Opened(HIDDEN_B) && CanHappen(HIDDEN_B, B_IS_SHOWN)
    ensures var now := Happened(HIDDEN_B, B_IS_SHOWN);
            && Possible(now, Poll(["b"], now.now))
            && "b" in now.visible && "b" !in now.members && UpdatedSince(now.table["b"], now.from) && !Comes(now, "b")
            && !AllInSync(After(now, Poll(["b"], now.now))) && After(now, Poll(["b"], now.now)).from > 0
  {
    var (w0, row) := (HIDDEN_B, map[Stats := Stored(STATS_CELL, 0), Coordinates := Stored(PLACE_CELL, 10_000_000)]);
    var w1 := World(10_000_000, w0.table, {}, map[], 8_000_000, 0, 0);
    var w2 := World(10_000_000, map["b" := row], {}, map[], 8_000_000, 0, 0);
    var w3 := World(10_000_000, map["b" := row], {"b"}, map[], 8_000_000, 0, 0);
    EmptyPoll(w0);
    assert After(w1, B_IS_SHOWN[1]) == w2 && After(w2, B_IS_SHOWN[2]) == w3;
    HappensFirst(w2, B_IS_SHOWN[2..]);
    HappensFirst(w1, B_IS_SHOWN[1..]);
    HappensFirst(w0, B_IS_SHOWN);
    BComesInPart(w3, row);
  }

  /** A poll of a site with no members, when nobody is visible. */
  lemma EmptyPoll(w: World)
    requires Going(w) && w.members == map[] && w.visible == {} && w.now % MICROS_PER_MS == 0
    ensures Possible(w, Poll([], w.now)) && After(w, Poll([], w.now)) == w.(from := w.now - CURSOR_OVERLAP)
  {
    var r := Answer(w, [], w.now);
    assert r == Response(w.now - CURSOR_OVERLAP, [], []);
    assert WithRows(WithNew(w.members, []), []) == map[];
    assert OnRoster(map[], []) == map[];
  }

  lemma HappensFirst(w: World, events: seq<Event>)
    requires Going(w) && events != [] && Possible(w, events[0])
    requires Going(After(w, events[0])) ==> CanHappen(After(w, events[0]), events[1..])
    ensures CanHappen(w, events) && Going(After(w, events[0])) && CanHappen(After(w, events[0]), events[1..])
    ensures Happened(w, events) == Happened(After(w, events[0]), events[1..])
  {
    EventKeepsGoing(w, events[0]);
  }

  lemma BComesInPart(w: World, row: Row)
    requires Going(w) && w.table == map["b" := row] && w.visible == {"b"} && w.members == map[] && w.now == 10_000_000 && w.from == 8_000_000
    requires row == map[Stats := Stored(STATS_CELL, 0), Coordinates := Stored(PLACE_CELL, 10_000_000)]
    ensures Possible(w, Poll(["b"], w.now)) && UpdatedSince(row, w.from) && !Comes(w, "b")
    ensures var after := After(w, Poll(["b"], w.now)); !AllInSync(after) && after.from > 0
  {
    var names := ["b"];
    assert names[0] == "b";
    assert row[Coordinates].at >= w.from && row[Stats].at < w.from;
    NewComes(w, "b");
    PollSyncsWhatComes(w, names, w.now);
    PollReloads(w, names, w.now);
  }

  // ----- Asking for everything -----

  /** The members that could still ask for everything. */
  ghost function Unasked(members: Members): set<string> {
    set name | name in members && !members[name].reloadRequested
  }

  /** The names of a roster that are new to the site. */
  ghost function NewTo(members: Members, roster: seq<string>): set<string> {
    set name | name in roster && name !in members
  }

  lemma {:induction false} RowsKeepUnasked(members: Members, rows: seq<MemberRow>)
    ensures Unasked(WithRows(members, rows)) == Unasked(members)
    decreases |rows|
  {
    if rows != [] {
      RowsKeepUnasked(members, rows[..|rows| - 1]);
    }
  }

  lemma FewerWhenLess(less: set<string>, more: set<string>)
    requires less <= more
    ensures |less| <= |more|
    ensures less != more ==> |less| < |more|
  {
    assert more == less + (more - less);
    if less != more {
      assert more - less != {};
    }
  }

  lemma NewAreUnasked(members: Members, roster: seq<string>)
    ensures Unasked(WithNew(members, roster)) == Unasked(members) + NewTo(members, roster)
  {
  }

  lemma RequestsUseUpAsking(members: Members)
    ensures Unasked(WithRequests(members)) <= Unasked(members)
    ensures AnyAsks(members) ==> Unasked(WithRequests(members)) != Unasked(members)
  {
    if name :| name in members && AsksForReload(members[name]) {
      assert name in Unasked(members) && name !in Unasked(WithRequests(members));
    }
  }

  /** A poll that asks for everything uses up one member's one time of asking. */
  lemma PollUsesUpAsking(members: Members, r: Response)
    ensures var used := if Reloads(members, r) then 1 else 0;
            |Unasked(Updated(members, r).0)| + used <= |Unasked(members)| + |NewTo(members, r.roster)|
  {
    var filled := WithRows(WithNew(members, r.roster), r.members);
    RowsKeepUnasked(WithNew(members, r.roster), r.members);
    NewAreUnasked(members, r.roster);
    RequestsUseUpAsking(filled);
    var asked := if HasNew(members, r.roster) then WithRequests(filled) else filled;
    FewerWhenLess(Unasked(asked), Unasked(filled));
    FewerWhenLess(Unasked(OnRoster(asked, r.roster)), Unasked(asked));
  }

  lemma EventKeepsAskingRare(w: World, event: Event)
    requires Sensible(w) && Possible(w, event) && w.asked + |Unasked(w.members)| <= w.arrived
    ensures var after := After(w, event); after.asked + |Unasked(after.members)| <= after.arrived
  {
    if event.Poll? {
      PollKeepsAskingRare(w, event.names, event.later);
    }
  }

  lemma PollKeepsAskingRare(w: World, names: seq<string>, later: int)
    requires Sensible(w) && Possible(w, Poll(names, later)) && w.asked + |Unasked(w.members)| <= w.arrived
    ensures var after := After(w, Poll(names, later)); after.asked + |Unasked(after.members)| <= after.arrived
  {
    PollUsesUpAsking(w.members, Answer(w, names, later));
    assert NewTo(w.members, names) == w.visible - w.members.Keys;
  }

  /** However often members come and go, the site asks for everything at most once for each time one is new to it. */
  lemma {:induction false} AsksOncePerArrival(w: World, events: seq<Event>)
    requires Going(w) && CanHappen(w, events) && w.asked + |Unasked(w.members)| <= w.arrived
    ensures Happened(w, events).asked <= Happened(w, events).arrived
    decreases |events|
  {
    if events != [] {
      EventKeepsAskingRare(w, events[0]);
      EventKeepsGoing(w, events[0]);
      AsksOncePerArrival(After(w, events[0]), events[1..]);
    }
  }
}
