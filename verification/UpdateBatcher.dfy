/**
 Updates merged per member and written to the members table
 (server/src/update_batcher.rs).

 A row of the table has a cell per section, none for one that was never received, and
 when each was stored last.
 */
module UpdateBatcher {
  import opened Options
  import opened Convert

  const CHUNK_SIZE: nat := 50

  /** An update of a member's sections; None leaves a section as it is. */
  datatype Update = Update(name: string, sections: Sections)

  function Later<T>(earlier: Option<T>, later: Option<T>): Option<T> {
    if later.Some? then later else earlier
  }

  function MergedSections(earlier: Sections, later: Sections): Sections {
    Sections(
      Later(earlier.stats, later.stats),
      Later(earlier.coordinates, later.coordinates),
      Later(earlier.skills, later.skills),
      Later(earlier.inventory, later.inventory),
      Later(earlier.equipment, later.equipment),
      Later(earlier.meta, later.meta))
  }

  function Merged(earlier: Update, later: Update): Update {
    Update(earlier.name, MergedSections(earlier.sections, later.sections))
  }

  // ----- One update per member -----

  type Updates = m: map<string, Update> | forall name | name in m :: m[name].name == name

  function AddUpdate(byName: Updates, update: Update): Updates {
    byName[update.name := if update.name in byName then Merged(byName[update.name], update) else update]
  }

  /** The updates of a batch, merged per member. */
  function ByName(buffer: seq<Update>): Updates {
    if buffer == [] then map[]
    else AddUpdate(ByName(buffer[..|buffer| - 1]), buffer[|buffer| - 1])
  }

  /** Whether a string comes before another, by its characters. */
  predicate Before(a: string, b: string) {
    if b == [] then false
    else if a == [] then true
    else if a[0] != b[0] then a[0] < b[0]
    else Before(a[1..], b[1..])
  }

  lemma {:induction false} BeforeIsTotal(a: string, b: string)
    ensures a == b || Before(a, b) || Before(b, a)
    decreases |a|
  {
    if a != [] && b != [] && a[0] == b[0] {
      BeforeIsTotal(a[1..], b[1..]);
      assert a == [a[0]] + a[1..] && b == [b[0]] + b[1..];
    }
  }

  lemma {:induction false} BeforeIsTransitive(a: string, b: string, c: string)
    requires Before(a, b) && Before(b, c)
    ensures Before(a, c)
    decreases |a|
  {
    if a != [] && a[0] == b[0] && b[0] == c[0] {
      BeforeIsTransitive(a[1..], b[1..], c[1..]);
    }
  }

  ghost predicate SortedByName(updates: seq<Update>) {
    forall i, j | 0 <= i < j < |updates| :: Before(updates[i].name, updates[j].name)
  }

  /** Whether some updates are those of a map, each once. */
  ghost predicate UpdatesOf(updates: seq<Update>, byName: Updates) {
    && (forall i | 0 <= i < |updates| :: updates[i].name in byName && byName[updates[i].name] == updates[i])
    && (forall i, j | 0 <= i < j < |updates| :: updates[i].name != updates[j].name)
    && (forall name | name in byName :: byName[name] in updates)
  }

  /** Whether all of some updates come before a name, or after it. */
  ghost predicate AllBefore(updates: seq<Update>, name: string) {
    forall i | 0 <= i < |updates| :: Before(updates[i].name, name)
  }

  ghost predicate AllAfter(name: string, updates: seq<Update>) {
    forall i | 0 <= i < |updates| :: Before(name, updates[i].name)
  }

  lemma SortedInParts(left: seq<Update>, update: Update, right: seq<Update>)
    requires SortedByName(left) && AllBefore(left, update.name)
    requires SortedByName(right) && AllAfter(update.name, right)
    ensures SortedByName(left + [update] + right)
  {
    forall i, j | 0 <= i < |left| && 0 <= j < |right|
      ensures Before(left[i].name, right[j].name)
    {
      BeforeIsTransitive(left[i].name, update.name, right[j].name);
    }
  }

  lemma SortedAfterFirst(updates: seq<Update>, name: string)
    requires SortedByName(updates) && (updates != [] ==> Before(name, updates[0].name))
    ensures AllAfter(name, updates)
  {
    forall i | 0 < i < |updates|
      ensures Before(name, updates[i].name)
    {
      BeforeIsTransitive(name, updates[0].name, updates[i].name);
    }
  }

  /** Puts an update in its place among others. */
  method Insert(updates: seq<Update>, update: Update) returns (r: seq<Update>)
    requires SortedByName(updates) && forall u | u in updates :: u.name != update.name
    ensures SortedByName(r) && forall u :: u in r <==> u in updates || u == update
  {
    var n := 0;
    while n < |updates| && Before(updates[n].name, update.name)
      invariant n <= |updates| && AllBefore(updates[..n], update.name)
    {
      n := n + 1;
    }
    var (left, right) := (updates[..n], updates[n..]);
    assert updates == left + right;
    if right != [] {
      assert right[0] in updates;
      BeforeIsTotal(right[0].name, update.name);
    }
    SortedAfterFirst(right, update.name);
    SortedInParts(left, update, right);
    r := left + [update] + right;
  }

  lemma BeforeIsStrict(a: string)
    ensures !Before(a, a)
    decreases |a|
  {
  }

  lemma ByNameGrows(buffer: seq<Update>, n: nat)
    requires n < |buffer|
    ensures ByName(buffer[..n + 1]) == AddUpdate(ByName(buffer[..n]), buffer[n])
  {
    assert buffer[..n + 1][..n] == buffer[..n];
  }

  /** The updates of a batch by member, merged. */
  method Group(buffer: seq<Update>) returns (byName: Updates)
    ensures byName == ByName(buffer)
  {
    byName := map[];
    for n := 0 to |buffer|
      invariant byName == ByName(buffer[..n])
    {
      ByNameGrows(buffer, n);
      var update := buffer[n];
      if update.name in byName {
        byName := byName[update.name := Merged(byName[update.name], update)];
      } else {
        byName := byName[update.name := update];
      }
    }
    assert buffer[..|buffer|] == buffer;
  }

  lemma SortedAreDistinct(updates: seq<Update>)
    requires SortedByName(updates)
    ensures forall i, j | 0 <= i < j < |updates| :: updates[i].name != updates[j].name
  {
    forall i, j | 0 <= i < j < |updates|
      ensures updates[i].name != updates[j].name
    {
      BeforeIsStrict(updates[i].name);
    }
  }

  /** The updates of a batch merged by member and sorted by name. */
  method DeduplicateBatch(buffer: seq<Update>) returns (updates: seq<Update>)
    ensures UpdatesOf(updates, ByName(buffer)) && SortedByName(updates)
  {
    var byName := Group(buffer);
    updates := [];
    var left := byName.Keys;
    while left != {}
      invariant left <= byName.Keys && SortedByName(updates)
      invariant forall u | u in updates :: u.name in byName.Keys - left && byName[u.name] == u
      invariant forall name | name in byName.Keys - left :: byName[name] in updates
    {
      var name :| name in left;
      left := left - {name};
      updates := Insert(updates, byName[name]);
    }
    SortedAreDistinct(updates);
  }

  // ----- Writing -----

  /** A section as it is stored: its cell, and when it got that. */
  datatype Stored = Stored(cell: Cell, at: int)
  type Row = map<Section, Stored>
  type Table = map<string, Row>

  /** A row after an update at a time: what the update has, stamped when that is something else than before. */
  function WrittenRow(row: Row, sections: Sections, now: int): Row {
    map section | section in SECTIONS + row.Keys && (sections.Get(section).Some? || section in row) ::
      if sections.Get(section).Some? && (section !in row || row[section].cell != sections.Get(section).value)
      then Stored(sections.Get(section).value, now)
      else row[section]
  }

  /** The table after one statement that updates the rows of a chunk. */
  function WrittenChunk(table: Table, chunk: seq<Update>, now: int): Table {
    if chunk == [] then table
    else
      var before := WrittenChunk(table, chunk[..|chunk| - 1], now);
      var update := chunk[|chunk| - 1];
      if update.name in before then before[update.name := WrittenRow(before[update.name], update.sections, now)] else before
  }

  /** A chunk and when its statement ran. */
  datatype Statement = Statement(chunk: seq<Update>, now: int)

  function WrittenAll(table: Table, statements: seq<Statement>): Table {
    if statements == [] then table
    else
      var last := statements[|statements| - 1];
      WrittenChunk(WrittenAll(table, statements[..|statements| - 1]), last.chunk, last.now)
  }

  function Flat(chunks: seq<seq<Update>>): seq<Update> {
    if chunks == [] then [] else Flat(chunks[..|chunks| - 1]) + chunks[|chunks| - 1]
  }

  lemma FlatGrows(chunks: seq<seq<Update>>, chunk: seq<Update>)
    ensures Flat(chunks + [chunk]) == Flat(chunks) + chunk
  {
    assert (chunks + [chunk])[..|chunks|] == chunks;
  }

  /** The updates of a batch in chunks of at most CHUNK_SIZE. */
  method Chunks(updates: seq<Update>) returns (chunks: seq<seq<Update>>)
    ensures Flat(chunks) == updates
    ensures forall chunk | chunk in chunks :: 0 < |chunk| <= CHUNK_SIZE
  {
    chunks := [];
    var remaining := updates;
    while remaining != []
      invariant Flat(chunks) + remaining == updates
      invariant forall chunk | chunk in chunks :: 0 < |chunk| <= CHUNK_SIZE
      decreases |remaining|
    {
      var take := if |remaining| < CHUNK_SIZE then |remaining| else CHUNK_SIZE;
      FlatGrows(chunks, remaining[..take]);
      assert remaining[..take] + remaining[take..] == remaining;
      chunks := chunks + [remaining[..take]];
      remaining := remaining[take..];
    }
  }

  // ----- What writing does to the cells -----

  type Cells = map<Section, Cell>

  /** The cells of a row, without when they were stored. */
  function CellsOf(row: Row): Cells {
    map section | section in row :: row[section].cell
  }

  /** Putting what an update has over what there is. */
  function Coalesced(cells: Cells, sections: Sections): Cells {
    map section | section in SECTIONS + cells.Keys && (sections.Get(section).Some? || section in cells) ::
      if sections.Get(section).Some? then sections.Get(section).value else cells[section]
  }

  /** A write puts the update's sections over the row's, and stamps exactly those it changes. */
  lemma WriteCoalesces(row: Row, sections: Sections, now: int)
    ensures CellsOf(WrittenRow(row, sections, now)) == Coalesced(CellsOf(row), sections)
    ensures forall section | section in WrittenRow(row, sections, now) ::
              var after := WrittenRow(row, sections, now)[section];
              if section in row && row[section].cell == after.cell then after == row[section] else after.at == now
  {
  }

  lemma GetMerged(earlier: Sections, later: Sections, section: Section)
    ensures MergedSections(earlier, later).Get(section) == Later(earlier.Get(section), later.Get(section))
  {
  }

  /** Putting merged updates over something is putting one over it and then the other. */
  lemma MergeIsBoth(cells: Cells, earlier: Sections, later: Sections)
    ensures Coalesced(cells, MergedSections(earlier, later)) == Coalesced(Coalesced(cells, earlier), later)
  {
    forall section
      ensures MergedSections(earlier, later).Get(section) == Later(earlier.Get(section), later.Get(section))
    {
      GetMerged(earlier, later, section);
    }
  }

  /** A member's cells after some updates, one by one. */
  function CellsAfter(cells: Cells, updates: seq<Update>, name: string): Cells {
    if updates == [] then cells
    else
      var last := updates[|updates| - 1];
      var before := CellsAfter(cells, updates[..|updates| - 1], name);
      if last.name == name then Coalesced(before, last.sections) else before
  }

  lemma {:induction false} CellsAfterBoth(cells: Cells, a: seq<Update>, b: seq<Update>, name: string)
    ensures CellsAfter(cells, a + b, name) == CellsAfter(CellsAfter(cells, a, name), b, name)
    decreases |b|
  {
    if b == [] {
      assert a + b == a;
    } else {
      assert (a + b)[..|a + b| - 1] == a + b[..|b| - 1];
      CellsAfterBoth(cells, a, b[..|b| - 1], name);
    }
  }

  /** Merging a batch per member and then writing is writing its updates one by one. */
  lemma {:induction false} MergedBatchIsOneByOne(cells: Cells, buffer: seq<Update>, name: string)
    ensures CellsAfter(cells, buffer, name) ==
            if name in ByName(buffer) then Coalesced(cells, ByName(buffer)[name].sections) else cells
    decreases |buffer|
  {
    if buffer != [] {
      var n := |buffer| - 1;
      var byName := ByName(buffer[..n]);
      MergedBatchIsOneByOne(cells, buffer[..n], name);
      if buffer[n].name == name && name in byName {
        MergeIsBoth(cells, byName[name].sections, buffer[n].sections);
      }
    }
  }

  lemma {:induction false} ChunkWrites(table: Table, chunk: seq<Update>, now: int, name: string)
    requires name in table
    ensures var after := WrittenChunk(table, chunk, now);
            name in after && CellsOf(after[name]) == CellsAfter(CellsOf(table[name]), chunk, name)
    decreases |chunk|
  {
    if chunk != [] {
      var n := |chunk| - 1;
      ChunkWrites(table, chunk[..n], now, name);
      var before := WrittenChunk(table, chunk[..n], now);
      WriteCoalesces(before[name], chunk[n].sections, now);
    }
  }

  function ChunksOf(statements: seq<Statement>): seq<seq<Update>> {
    seq(|statements|, i requires 0 <= i < |statements| => statements[i].chunk)
  }

  lemma {:induction false} StatementsWrite(table: Table, statements: seq<Statement>, name: string)
    requires name in table
    ensures var after := WrittenAll(table, statements);
            name in after && CellsOf(after[name]) == CellsAfter(CellsOf(table[name]), Flat(ChunksOf(statements)), name)
    decreases |statements|
  {
    if statements != [] {
      var n := |statements| - 1;
      StatementsWrite(table, statements[..n], name);
      ChunkWrites(WrittenAll(table, statements[..n]), statements[n].chunk, statements[n].now, name);
      assert ChunksOf(statements)[..n] == ChunksOf(statements[..n]);
      CellsAfterBoth(CellsOf(table[name]), Flat(ChunksOf(statements[..n])), statements[n].chunk, name);
    }
  }

  /** Updates of different members can be written in any order: what a member gets is its own. */
  lemma {:induction false} OneOfEach(cells: Cells, updates: seq<Update>, name: string)
    requires forall i, j | 0 <= i < j < |updates| :: updates[i].name != updates[j].name
    ensures CellsAfter(cells, updates, name) ==
            if i :| 0 <= i < |updates| && updates[i].name == name then Coalesced(cells, updates[i].sections) else cells
    decreases |updates|
  {
    if updates != [] {
      OneOfEach(cells, updates[..|updates| - 1], name);
    }
  }

  /**
   Whatever chunks the updates of a batch are written in, in whatever order and at whatever
   times, every member's cells are as if each update had been written as it came.
   */
  lemma BatchIsOneByOne(table: Table, buffer: seq<Update>, statements: seq<Statement>, name: string)
    requires UpdatesOf(Flat(ChunksOf(statements)), ByName(buffer)) && name in table
    ensures var after := WrittenAll(table, statements);
            name in after && CellsOf(after[name]) == CellsAfter(CellsOf(table[name]), buffer, name)
  {
    var updates := Flat(ChunksOf(statements));
    var cells := CellsOf(table[name]);
    StatementsWrite(table, statements, name);
    OneOfEach(cells, updates, name);
    MergedBatchIsOneByOne(cells, buffer, name);
    if name in ByName(buffer) {
      var i :| 0 <= i < |updates| && updates[i] == ByName(buffer)[name];
      assert updates[i].name == name;
    }
  }
}
