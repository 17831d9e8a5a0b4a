/**
 What a poll of the members answers (server/src/db/members.rs) and what the site makes of
 it (site/src/data/guild-data.js, site/src/data/member-data.js).

 Times are in microseconds, as the database has them; the site reads the cursor to the
 millisecond. The rows are those of UpdateBatcher.
 */
module MemberPolls {
  import opened Options
  import opened Convert
  import opened UpdateBatcher

  const CURSOR_OVERLAP: int := 2_000_000
  const MICROS_PER_MS: int := 1000

  /** A member of an answer, with the sections it has. */
  datatype MemberRow = MemberRow(name: string, cells: Cells)

  datatype Response = Response(cursor: int, roster: seq<string>, members: seq<MemberRow>)

  // ----- The server -----

  /** The sections stored at or after a time. */
  function ChangedSince(row: Row, since: int): Cells {
    map section | section in row && row[section].at >= since :: row[section].cell
  }

  /** Whether the newest of a row's stamps, if it has any, is not before a time. */
  predicate UpdatedSince(row: Row, since: int) {
    exists section :: section in row && row[section].at >= since
  }

  /** The members of some names that changed since a time. */
  function MembersSince(table: Table, names: seq<string>, since: int): seq<MemberRow>
    requires forall name | name in names :: name in table
  {
    if names == [] then []
    else
      var name := names[|names| - 1];
      MembersSince(table, names[..|names| - 1], since)
      + if UpdatedSince(table[name], since) then [MemberRow(name, ChangedSince(table[name], since))] else []
  }

  /** `names` are the visible members; `now` is the time of the query, `later` that of a second one. */
  method GetMembers(table: Table, names: seq<string>, since: int, now: int, later: int) returns (r: Response)
    requires forall name | name in names :: name in table
    ensures r == Response((if names == [] then later else now) - CURSOR_OVERLAP, names, MembersSince(table, names, since))
  {
    var roster: seq<string>, members: seq<MemberRow> := [], [];
    var dbNow: Option<int> := None;
    for n := 0 to |names|
      invariant roster == names[..n]
      invariant members == MembersSince(table, names[..n], since)
      invariant dbNow == if n == 0 then None else Some(now)
    {
      assert names[..n + 1][..n] == names[..n];
      var name := names[n];
      dbNow := Some(now);
      roster := roster + [name];
      if UpdatedSince(table[name], since) {
        members := members + [MemberRow(name, ChangedSince(table[name], since))];
      }
    }
    assert names[..|names|] == names;
    return Response(dbNow.GetOr(later) - CURSOR_OVERLAP, roster, members);
  }

  // ----- The site -----

  /** A member on the site: the sections it shows, and whether it has or has asked for data. */
  datatype Member = Member(sections: Cells, hasData: bool, reloadRequested: bool)

  type Members = map<string, Member>

  const NEW_MEMBER := Member(map[], false, false)

  /** An empty array says that a section is not shared. */
  predicate NotShared(section: Section, cell: Cell) {
    section != Meta && cell == Array([])
  }

  /** The sections after those of a poll: one that is not shared any more is dropped. */
  function Applied(sections: Cells, cells: Cells): Cells {
    map section | section in sections.Keys + cells.Keys && (section in cells ==> !NotShared(section, cells[section])) ::
      if section in cells then cells[section] else sections[section]
  }

  function WithNew(members: Members, roster: seq<string>): Members {
    map name | name in members.Keys + (set n | n in roster) :: if name in members then members[name] else NEW_MEMBER
  }

  function WithRows(members: Members, rows: seq<MemberRow>): Members {
    if rows == [] then members
    else
      var before := WithRows(members, rows[..|rows| - 1]);
      var row := rows[|rows| - 1];
      if row.name in before
      then before[row.name := Member(Applied(before[row.name].sections, row.cells), true, before[row.name].reloadRequested)]
      else before
  }

  predicate AsksForReload(member: Member) {
    !member.hasData && !member.reloadRequested
  }

  /** Every member that has no data and never asked for it now has asked. */
  function WithRequests(members: Members): Members {
    map name | name in members :: members[name].(reloadRequested := members[name].reloadRequested || AsksForReload(members[name]))
  }

  function OnRoster(members: Members, roster: seq<string>): Members {
    map name | name in members && name in roster :: members[name]
  }

  predicate HasNew(members: Members, roster: seq<string>) {
    exists name | name in roster :: name !in members
  }

  predicate AnyAsks(members: Members) {
    exists name | name in members :: AsksForReload(members[name])
  }

  /** Whether a poll ends with asking for everything. */
  predicate Reloads(members: Members, r: Response) {
    HasNew(members, r.roster) && AnyAsks(WithRows(WithNew(members, r.roster), r.members))
  }

  /** The members after a poll, and the time the next one asks from. */
  function Updated(members: Members, r: Response): (Members, int) {
    var filled := WithRows(WithNew(members, r.roster), r.members);
    var asked := if HasNew(members, r.roster) then WithRequests(filled) else filled;
    (OnRoster(asked, r.roster), if Reloads(members, r) then 0 else r.cursor - r.cursor % MICROS_PER_MS)
  }

  class GuildData {
    var members: Members

    constructor ()
      ensures members == map[]
    {
      members := map[];
    }

    /** Applies one poll. Returns the time to ask from next, 0 for everything. */
    method Update(r: Response) returns (from: int)
      modifies this
      ensures (members, from) == Updated(old(members), r)
    {
      var needsFullReload := false;
      for n := 0 to |r.roster|
        invariant members == WithNew(old(members), r.roster[..n])
        invariant needsFullReload == HasNew(old(members), r.roster[..n])
      {
        var name := r.roster[n];
        assert r.roster[..n + 1] == r.roster[..n] + [name];
        if name !in members {
          members := members[name := NEW_MEMBER];
          needsFullReload := true;
        } else if name !in old(members) {
          assert name in r.roster[..n];
        }
      }
      assert r.roster[..|r.roster|] == r.roster;
      for n := 0 to |r.members|
        invariant members == WithRows(WithNew(old(members), r.roster), r.members[..n])
      {
        assert r.members[..n + 1][..n] == r.members[..n];
        var row := r.members[n];
        if row.name in members {
          var member := members[row.name];
          members := members[row.name := Member(Applied(member.sections, row.cells), true, member.reloadRequested)];
        }
      }
      assert r.members[..|r.members|] == r.members;
      if needsFullReload {
        needsFullReload := AnyAsks(members);
        members := WithRequests(members);
      }
      members := OnRoster(members, r.roster);
      from := if needsFullReload then 0 else r.cursor - r.cursor % MICROS_PER_MS;
    }
  }
}
