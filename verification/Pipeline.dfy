/**
 The whole way of a player's data: polled from the hub, diffed, batched, written to the table
 and polled from there by the page (server/src/hub/sync.rs, server/src/update_batcher.rs,
 server/src/db/members.rs, site/src/data/guild-data.js).
 */
module Pipeline {
  import opened Convert
  import opened UpdateBatcher
  import opened MemberPolls
  import HubSync
  import Replica

  /** A statement of the batcher, or something that happens to the page or to who is visible. */
  datatype Step = Write(statement: Statement) | Happen(event: Replica.Event)

  /** A statement is seen no later than the cursor lags behind its stamps. */
  ghost predicate Possible(w: Replica.World, step: Step) {
    match step
    case Write(Statement(_, now)) => 0 <= now <= w.now <= now + CURSOR_OVERLAP
    case Happen(event) => !event.Commit? && Replica.Possible(w, event)
  }

  ghost function After(w: Replica.World, step: Step): Replica.World
    requires Replica.Sensible(w) && Possible(w, step)
  {
    match step
    case Write(Statement(chunk, now)) => w.(table := WrittenChunk(w.table, chunk, now))
    case Happen(event) => Replica.After(w, event)
  }

  // ----- A statement is some commits -----

  /** Whether an update changes a section of a row. */
  predicate Changes(row: Row, sections: Sections, section: Section) {
    sections.Get(section).Some? && (section !in row || row[section].cell != sections.Get(section).value)
  }

  /** A row after an update of some sections only. */
  function WrittenOf(row: Row, sections: Sections, now: int, which: set<Section>): Row {
    map section | section in which + row.Keys && (section in row || Changes(row, sections, section)) ::
      if section in which && Changes(row, sections, section) then Stored(sections.Get(section).value, now) else row[section]
  }

  lemma WrittenIsOfAll(row: Row, sections: Sections, now: int)
    ensures WrittenOf(row, sections, now, SECTIONS) == WrittenRow(row, sections, now)
  {
    EverySection();
  }

  /** Whether some commits, one after the other, make one world of another. */
  ghost predicate AreCommits(w: Replica.World, events: seq<Replica.Event>, after: Replica.World) {
    && Replica.Going(w) && Replica.CanHappen(w, events) && Replica.Happened(w, events) == after
    && AllCommits(events)
  }

  ghost predicate AllCommits(events: seq<Replica.Event>) {
    forall i | 0 <= i < |events| :: events[i].Commit?
  }

  lemma CommitFirst(w: Replica.World, events: seq<Replica.Event>, after: Replica.World)
    requires Replica.Going(w) && events != [] && events[0].Commit? && Replica.Possible(w, events[0])
    requires AreCommits(Replica.After(w, events[0]), events[1..], after)
    ensures AreCommits(w, events, after)
  {
    Replica.HappensFirst(w, events);
    assert forall i | 0 < i < |events| :: events[i] == events[1..][i - 1];
  }

  lemma CommitsRest(w: Replica.World, events: seq<Replica.Event>, after: Replica.World)
    requires AreCommits(w, events, after) && events != []
    ensures events[0].Commit? && Replica.Possible(w, events[0]) && AreCommits(Replica.After(w, events[0]), events[1..], after)
  {
    Replica.EventKeepsGoing(w, events[0]);
  }

  lemma {:induction false} CommitsThen(w: Replica.World, a: seq<Replica.Event>, middle: Replica.World, b: seq<Replica.Event>, after: Replica.World)
    requires AreCommits(w, a, middle) && AreCommits(middle, b, after)
    ensures AreCommits(w, a + b, after)
    decreases |a|
  {
    if a == [] {
      assert a + b == b;
    } else {
      var events := a + b;
      assert events[0] == a[0] && events[1..] == a[1..] + b;
      CommitsRest(w, a, middle);
      CommitsThen(Replica.After(w, a[0]), a[1..], middle, b, after);
      CommitFirst(w, events, after);
    }
  }

  ghost predicate InTime(w: Replica.World, now: int) {
    0 <= now <= w.now <= now + CURSOR_OVERLAP
  }

  /** A row with one of the sections to be written, if the update changes it. */
  function WithSection(row: Row, sections: Sections, now: int, section: Section): Row {
    if Changes(row, sections, section) then row[section := Stored(sections.Get(section).value, now)] else row
  }

  lemma OneSectionFirst(row: Row, sections: Sections, now: int, which: set<Section>, section: Section)
    requires section in which
    ensures WrittenOf(WithSection(row, sections, now, section), sections, now, which - {section}) == WrittenOf(row, sections, now, which)
  {
  }

  /** What writing some sections of a row is, section by section. */
  lemma {:induction false} SectionsAreCommits(w: Replica.World, name: string, sections: Sections, now: int, which: set<Section>)
    returns (events: seq<Replica.Event>)
    requires Replica.Going(w) && name in w.table && InTime(w, now)
    ensures AreCommits(w, events, w.(table := w.table[name := WrittenOf(w.table[name], sections, now, which)]))
    decreases |which|, 1
  {
    var row := w.table[name];
    if which == {} {
      events := [];
      assert WrittenOf(row, sections, now, which) == row && w.table[name := row] == w.table;
    } else {
      var section :| section in which;
      OneSectionFirst(row, sections, now, which, section);
      if Changes(row, sections, section) {
        events := CommitAndRest(w, name, sections, now, which, section);
      } else {
        events := SectionsAreCommits(w, name, sections, now, which - {section});
      }
    }
  }

  lemma {:induction false} CommitAndRest(w: Replica.World, name: string, sections: Sections, now: int, which: set<Section>, section: Section)
    returns (events: seq<Replica.Event>)
    requires Replica.Going(w) && name in w.table && InTime(w, now)
    requires section in which && Changes(w.table[name], sections, section)
    ensures AreCommits(w, events, w.(table := w.table[name := WrittenOf(w.table[name], sections, now, which)]))
    decreases |which|, 0
  {
    var row := WithSection(w.table[name], sections, now, section);
    var written := WrittenOf(w.table[name], sections, now, which);
    var v := w.(table := w.table[name := row]);
    OneSectionFirst(w.table[name], sections, now, which, section);
    var commit := CommitOf(w, name, sections, now, section);
    var rest := SectionsAreCommits(v, name, sections, now, which - {section});
    UpdatedTwice(w.table, name, row, written);
    events := [commit] + rest;
    assert events[1..] == rest;
    CommitFirst(w, events, w.(table := w.table[name := written]));
  }

  lemma CommitOf(w: Replica.World, name: string, sections: Sections, now: int, section: Section) returns (commit: Replica.Event)
    requires Replica.Going(w) && name in w.table && InTime(w, now) && Changes(w.table[name], sections, section)
    ensures commit.Commit? && Replica.Possible(w, commit)
    ensures var v := w.(table := w.table[name := WithSection(w.table[name], sections, now, section)]);
            Replica.After(w, commit) == v && Replica.Going(v)
  {
    commit := Replica.Commit(name, section, Stored(sections.Get(section).value, now));
    Replica.EventKeepsGoing(w, commit);
  }

  lemma UpdatedTwice(table: Table, name: string, row: Row, after: Row)
    ensures table[name := row][name := after] == table[name := after]
  {
  }

  /** A statement is commits of the sections it changes, all at its time. */
  lemma {:induction false} ChunkIsCommits(w: Replica.World, chunk: seq<Update>, now: int) returns (events: seq<Replica.Event>)
    requires Replica.Going(w) && InTime(w, now)
    ensures AreCommits(w, events, w.(table := WrittenChunk(w.table, chunk, now)))
    decreases |chunk|
  {
    if chunk == [] {
      events := [];
    } else {
      var (before, update) := (chunk[..|chunk| - 1], chunk[|chunk| - 1]);
      events := ChunkIsCommits(w, before, now);
      var middle := w.(table := WrittenChunk(w.table, before, now));
      GoingAfter(w, events, middle);
      if update.name in middle.table {
        WrittenIsOfAll(middle.table[update.name], update.sections, now);
        var more := SectionsAreCommits(middle, update.name, update.sections, now, SECTIONS);
        CommitsThen(w, events, middle, more, w.(table := WrittenChunk(w.table, chunk, now)));
        events := events + more;
      }
    }
  }

  lemma GoingAfter(w: Replica.World, events: seq<Replica.Event>, after: Replica.World)
    requires AreCommits(w, events, after)
    ensures Replica.Going(after)
  {
  }

  lemma {:induction false} CommitsAreNoPolls(w: Replica.World, events: seq<Replica.Event>, after: Replica.World, name: string)
    requires AreCommits(w, events, after)
    ensures Replica.SeenAtPolls(w, events, name)
    decreases |events|
  {
    if events != [] {
      Replica.EventKeepsGoing(w, events[0]);
      CommitsAreNoPolls(Replica.After(w, events[0]), events[1..], after, name);
    }
  }

  // ----- Runs -----

  lemma StepKeepsGoing(w: Replica.World, step: Step)
    requires Replica.Going(w) && Possible(w, step)
    ensures Replica.Going(After(w, step))
  {
    match step
    case Write(Statement(chunk, now)) =>
      var events := ChunkIsCommits(w, chunk, now);
      GoingAfter(w, events, After(w, step));
    case Happen(event) => Replica.EventKeepsGoing(w, event);
  }

  lemma StepKeepsFollowed(w: Replica.World, step: Step, name: string)
    requires Replica.Going(w) && Possible(w, step) && Replica.Followed(w, name)
    requires step.Happen? && step.event.Poll? ==> name in w.visible
    ensures Replica.Followed(After(w, step), name)
  {
    match step
    case Write(Statement(chunk, now)) =>
      var events := ChunkIsCommits(w, chunk, now);
      CommitsAreNoPolls(w, events, After(w, step), name);
      Replica.RunKeepsFollowed(w, events, name);
    case Happen(event) => Replica.EventKeepsFollowed(w, event, name);
  }

  ghost predicate CanRun(w: Replica.World, steps: seq<Step>)
    requires Replica.Going(w)
    decreases |steps|
  {
    steps == [] || (Possible(w, steps[0]) && (StepKeepsGoing(w, steps[0]); CanRun(After(w, steps[0]), steps[1..])))
  }

  ghost function Ran(w: Replica.World, steps: seq<Step>): (r: Replica.World)
    requires Replica.Going(w) && CanRun(w, steps)
    ensures Replica.Going(r)
    decreases |steps|
  {
    if steps == [] then w
    else
      StepKeepsGoing(w, steps[0]);
      Ran(After(w, steps[0]), steps[1..])
  }

  /** Whether a member is visible at each poll of some steps. */
  ghost predicate SeenAtPolls(w: Replica.World, steps: seq<Step>, name: string)
    requires Replica.Going(w) && CanRun(w, steps)
    decreases |steps|
  {
    steps == [] ||
    ((steps[0].Happen? && steps[0].event.Poll? ==> name in w.visible) &&
      (StepKeepsGoing(w, steps[0]); SeenAtPolls(After(w, steps[0]), steps[1..], name)))
  }

  lemma {:induction false} RunKeepsFollowed(w: Replica.World, steps: seq<Step>, name: string)
    requires Replica.Going(w) && CanRun(w, steps) && SeenAtPolls(w, steps, name) && Replica.Followed(w, name)
    ensures Replica.Followed(Ran(w, steps), name)
    decreases |steps|
  {
    if steps != [] {
      StepKeepsGoing(w, steps[0]);
      StepKeepsFollowed(w, steps[0], name);
      RunKeepsFollowed(After(w, steps[0]), steps[1..], name);
    }
  }

  // ----- What was written -----

  /** The statements of some steps. */
  function Statements(steps: seq<Step>): seq<Statement> {
    if steps == [] then []
    else (if steps[0].Write? then [steps[0].statement] else []) + Statements(steps[1..])
  }

  lemma {:induction false} WrittenInParts(table: Table, a: seq<Statement>, b: seq<Statement>)
    ensures WrittenAll(table, a + b) == WrittenAll(WrittenAll(table, a), b)
    decreases |b|
  {
    if b == [] {
      assert a + b == a;
    } else {
      assert (a + b)[..|a + b| - 1] == a + b[..|b| - 1];
      WrittenInParts(table, a, b[..|b| - 1]);
    }
  }

  lemma WrittenOne(table: Table, statement: Statement)
    ensures WrittenAll(table, [statement]) == WrittenChunk(table, statement.chunk, statement.now)
  {
    assert [statement][..0] == [];
  }

  lemma {:induction false} RunWrites(w: Replica.World, steps: seq<Step>)
    requires Replica.Going(w) && CanRun(w, steps)
    ensures Ran(w, steps).table == WrittenAll(w.table, Statements(steps))
    decreases |steps|
  {
    if steps != [] {
      StepKeepsGoing(w, steps[0]);
      RunWrites(After(w, steps[0]), steps[1..]);
      var first := if steps[0].Write? then [steps[0].statement] else [];
      WrittenInParts(w.table, first, Statements(steps[1..]));
      if steps[0].Write? {
        WrittenOne(w.table, steps[0].statement);
      }
    }
  }

  /** All statements of some batches. */
  function AllStatements(batches: seq<HubSync.Batch>): seq<Statement> {
    if batches == [] then []
    else AllStatements(batches[..|batches| - 1]) + batches[|batches| - 1].statements
  }

  lemma {:induction false} BatchesWrite(table: Table, batches: seq<HubSync.Batch>)
    ensures HubSync.TableAfter(table, batches) == WrittenAll(table, AllStatements(batches))
    decreases |batches|
  {
    if batches != [] {
      var n := |batches| - 1;
      BatchesWrite(table, batches[..n]);
      WrittenInParts(table, AllStatements(batches[..n]), batches[n].statements);
    }
  }

  // ----- From the hub to the page -----

  /** Whether the page shows of a member what some cells have, but for what is not shared. */
  ghost predicate Shows(sections: Cells, cells: Cells) {
    forall section ::
      if section in cells && !NotShared(section, cells[section])
      then section in sections && sections[section] == cells[section]
      else section !in sections
  }

  lemma InSyncShows(sections: Cells, row: Row)
    requires Replica.InSync(sections, row)
    ensures Shows(sections, CellsOf(row))
  {
    forall section
      ensures if section in CellsOf(row) && !NotShared(section, CellsOf(row)[section])
              then section in sections && sections[section] == CellsOf(row)[section] else section !in sections
    {
      assert Replica.Agrees(sections, row, section);
    }
  }

  /**
   Whether polls of the hub, the batches of what they sent, and some steps of the page from
   its opening on belong together: the steps have just the batches' statements, and in a poll
   of the page among them, from which on the member is visible at each, the member came whole.
   */
  ghost predicate Arrives(
      polls: seq<HubSync.Event>, batches: seq<HubSync.Batch>,
      w: Replica.World, before: seq<Step>, first: Replica.Event, between: seq<Step>, last: Replica.Event, name: string)
  {
    && HubSync.OneAccountPerMember(HubSync.START, polls)
    && HubSync.Delivered(batches) && HubSync.Taken(batches) == HubSync.Run(polls).sent
    && AllStatements(batches) == Statements(before) + Statements(between)
    && Replica.Opened(w) && name in w.table && CanRun(w, before)
    && ComesWhole(Ran(w, before), first, name)
    && StaysOn(Replica.After(Ran(w, before), first), between, last, name)
  }

  /** Whether the page's poll loads everything, or brings a member it did not have. */
  ghost predicate ComesWhole(w: Replica.World, poll: Replica.Event, name: string) {
    poll.Poll? && Replica.Possible(w, poll) && name in w.visible && name in w.table && (w.from <= 0 || Replica.Comes(w, name))
  }

  ghost predicate StaysOn(w: Replica.World, steps: seq<Step>, last: Replica.Event, name: string) {
    && Replica.Going(w) && CanRun(w, steps) && SeenAtPolls(w, steps, name)
    && last.Poll? && Replica.Possible(Ran(w, steps), last) && name in Ran(w, steps).visible
  }

  /** What the page has of a member in the end. */
  ghost function Shown(
      polls: seq<HubSync.Event>, batches: seq<HubSync.Batch>,
      w: Replica.World, before: seq<Step>, first: Replica.Event, between: seq<Step>, last: Replica.Event, name: string): Cells
    requires Arrives(polls, batches, w, before, first, between, last, name)
  {
    var now := Ran(Replica.After(Ran(w, before), first), between);
    Replica.MemberAfterPoll(now, last.names, last.later, name);
    Replica.After(now, last).members[name].sections
  }

  /**
   From the hub to the page: with any polls of the hub, any batches and statements of what
   they sent, among any polls of the page and any changes of who is visible, the page shows of
   a member that once came whole, and was visible at every poll since, what copying every
   section of every poll of the hub would have stored.
   */
  lemma PageShowsTheCopy(
      polls: seq<HubSync.Event>, batches: seq<HubSync.Batch>,
      w: Replica.World, before: seq<Step>, first: Replica.Event, between: seq<Step>, last: Replica.Event, name: string)
    requires Arrives(polls, batches, w, before, first, between, last, name)
    ensures Shows(Shown(polls, batches, w, before, first, between, last, name),
                  CellsAfter(CellsOf(w.table[name]), HubSync.Run(polls).everything, name))
  {
    var loading := Ran(w, before);
    if loading.from <= 0 {
      Replica.FullLoadBringsAll(loading, name);
    }
    var loaded := Replica.After(loading, first);
    Replica.MemberAfterPoll(loading, first.names, first.later, name);
    RunKeepsFollowed(loaded, between, name);
    var now := Ran(loaded, between);
    Replica.MemberAfterPoll(now, last.names, last.later, name);
    RunWrites(w, before);
    RunWrites(loaded, between);
    WrittenInParts(w.table, Statements(before), Statements(between));
    BatchesWrite(w.table, batches);
    HubSync.DiffSyncIsFullCopy(polls, w.table, batches, name);
    InSyncShows(Replica.After(now, last).members[name].sections, now.table[name]);
  }

  /**
   In the account's own fields: the page shows of a section the numbers that the last poll of
   the hub which says anything of it says, and nothing where that says it is not shared.
   */
  lemma PageShowsTheAccount(
      polls: seq<HubSync.Event>, batches: seq<HubSync.Batch>,
      w: Replica.World, before: seq<Step>, first: Replica.Event, between: seq<Step>, last: Replica.Event, name: string,
      i: nat, section: Section, values: seq<int>)
    requires Arrives(polls, batches, w, before, first, between, last, name)
    requires section != Meta && HubSync.LastToSay(polls, i, name, section, values)
    ensures var shown := Shown(polls, batches, w, before, first, between, last, name);
            if values == [] then section !in shown else section in shown && shown[section] == Array(values)
  {
    PageShowsTheCopy(polls, batches, w, before, first, between, last, name);
    HubSync.CopyIsWhatPollsSay(polls, i, CellsOf(w.table[name]), name, section, values);
  }

  /** And of the details, those of the last poll that was written to the member. */
  lemma PageShowsTheDetails(
      polls: seq<HubSync.Event>, batches: seq<HubSync.Batch>,
      w: Replica.World, before: seq<Step>, first: Replica.Event, between: seq<Step>, last: Replica.Event, name: string, i: nat)
    requires Arrives(polls, batches, w, before, first, between, last, name)
    requires HubSync.WritesAt(polls, i, name) && forall j: nat | i < j < |polls| :: !HubSync.WritesAt(polls, j, name)
    ensures var details := HubSync.DetailsOf(Shown(polls, batches, w, before, first, between, last, name));
            details.Some? && SaysDetails(polls[i].p.account, details.value)
  {
    PageShowsTheCopy(polls, batches, w, before, first, between, last, name);
    HubSync.CopyHasTheDetails(polls, i, CellsOf(w.table[name]), name);
  }
}
