/**
 The sync from the hub's snapshot to the batcher (server/src/hub/sync.rs): what it
 remembers of each account, and what it sends.

 What the database answers (the member an account is bound to, the name a rename leads
 to) are arguments. Times are in milliseconds.
 */
module HubSync {
  import opened Options
  import opened Convert
  import opened UpdateBatcher

  const PRESENCE_REFRESH: int := 60_000

  datatype Presence = Presence(online: bool, at: int)

  /** An account as it was left by the last poll that had it. */
  datatype Known = Known(memberName: string, hidden: bool, sent: Option<Sections>, presence: Option<Presence>)

  function LowerCase(name: string): string {
    seq(|name|, i requires 0 <= i < |name| => if 'A' <= name[i] <= 'Z' then (name[i] as int + 32) as char else name[i])
  }

  predicate IsOnline(account: Account) {
    match account.online
    case Some(online) => online
    case None => account.location.Some? && !account.location.value.stale
  }

  predicate WritesPresence(presence: Option<Presence>, online: bool, now: int) {
    match presence
    case None => true
    case Some(Presence(wasOnline, at)) => wasOnline != online || now - at >= PRESENCE_REFRESH
  }

  /** The sections that differ from what was sent last. */
  function Changed(sent: Option<Sections>, sections: Sections): set<Section> {
    set section | section in SECTIONS && SectionChanged(sent, sections, section)
  }

  /** The member a hub account has in the database. */
  datatype Bound = Bound(memberName: string, hidden: bool)

  /**
   An account of a poll, and how what it takes goes: the member it is found to have, the name
   it has after a rename (None when the database fails), whether the batcher still listens,
   and whether presence could be written.
   */
  datatype Polled = Polled(account: Account, validName: bool, bound: Option<Bound>, renamed: Option<string>,
                           listening: bool, presenceStored: bool, now: int)

  type KnownAccounts = map<string, Known>

  /** What is remembered of an account, if it can be told which member it has. */
  function KnownAs(known: KnownAccounts, p: Polled): Option<Known> {
    if p.account.id in known then Some(known[p.account.id])
    else match p.bound
      case None => None
      case Some(Bound(memberName, hidden)) => Some(Known(memberName, hidden, None, None))
  }

  /** What is remembered of an account once its name is followed: under a new name nothing was sent yet. */
  function Followed(known: Known, p: Polled): Option<Known> {
    if known.memberName == p.account.name then Some(known)
    else match p.renamed
      case None => None
      case Some(name) => Some(known.(memberName := name, sent := None))
  }

  /** What is sent of a poll's sections, nothing when none changed. */
  function ToSend(known: Known, sections: Sections): seq<Update> {
    var changed := Changed(known.sent, sections);
    if changed == {} then [] else [Update(known.memberName, sections.Only(changed))]
  }

  /** Whether the sections of an account get as far as the batcher, if any of them changed. */
  predicate GoesThrough(known: Known, p: Polled) {
    && !known.hidden && Followed(known, p).Some?
    && var followed := Followed(known, p).value;
       p.listening || ToSend(followed, FromAccount(p.account, followed.sent)) == []
  }

  /** What is remembered of a member's presence after a poll. */
  function PresenceAfter(presence: Option<Presence>, p: Polled): Option<Presence> {
    if WritesPresence(presence, IsOnline(p.account), p.now) && p.presenceStored then Some(Presence(IsOnline(p.account), p.now)) else presence
  }

  /** What is remembered and sent of one account of a poll. */
  function Processed(known: Known, p: Polled): (Known, seq<Update>) {
    if known.hidden || Followed(known, p).None? then (known, [])
    else
      var followed := Followed(known, p).value;
      var sections := FromAccount(p.account, followed.sent);
      var updates := ToSend(followed, sections);
      if !GoesThrough(known, p) then (followed, [])
      else (followed.(sent := if updates == [] then followed.sent else Some(sections),
                      presence := PresenceAfter(followed.presence, p)), updates)
  }

  /** The presence that is written, if the poll gets so far. */
  function PresenceOf(known: Known, p: Polled): seq<(string, bool)> {
    if GoesThrough(known, p) && WritesPresence(known.presence, IsOnline(p.account), p.now) && p.presenceStored
    then [(Followed(known, p).value.memberName, IsOnline(p.account))] else []
  }

  /** Whether all goes well with an account. */
  predicate Succeeds(known: Known, p: Polled) {
    known.hidden || (GoesThrough(known, p) && (WritesPresence(known.presence, IsOnline(p.account), p.now) ==> p.presenceStored))
  }

  class Sync {
    var known: KnownAccounts
    /** What was sent to the batcher. */
    var sent: seq<Update>
    /** The members whose presence was written. */
    var presences: seq<(string, bool)>
    /** When everything was last asked for. */
    var lastFull: Option<int>

    constructor ()
      ensures known == map[] && sent == [] && presences == [] && lastFull == None
    {
      known, sent, presences, lastFull := map[], [], [], None;
    }

    /** Whether the next poll asks for everything. */
    predicate AsksForAll(now: int, every: int)
      reads this`lastFull
    {
      lastFull.None? || now - lastFull.value >= every
    }

    /** Sends what changed of an account whose name was followed. */
    method SendChanged(p: Polled, k: Known) returns (ok: bool, after: Known)
      modifies this`sent
      ensures var (sections, updates) := (FromAccount(p.account, k.sent), ToSend(k, FromAccount(p.account, k.sent)));
              && ok == (p.listening || updates == [])
              && sent == old(sent) + (if ok then updates else [])
              && after == if ok && updates != [] then k.(sent := Some(sections)) else k
    {
      ok, after := true, k;
      var sections := FromAccount(p.account, k.sent);
      var changed := Changed(k.sent, sections);
      if changed != {} {
        if !p.listening {
          return false, k;
        }
        sent := sent + [Update(k.memberName, sections.Only(changed))];
        after := k.(sent := Some(sections));
      }
    }

    /** Writes an account's presence, where that is due. */
    method WritePresence(p: Polled, k: Known) returns (ok: bool, after: Known)
      modifies this`presences
      ensures var due := WritesPresence(k.presence, IsOnline(p.account), p.now);
              && (ok <==> (due ==> p.presenceStored))
              && after == k.(presence := PresenceAfter(k.presence, p))
              && presences == old(presences) + if due && p.presenceStored then [(k.memberName, IsOnline(p.account))] else []
    {
      ok, after := true, k;
      var online := IsOnline(p.account);
      if WritesPresence(k.presence, online, p.now) {
        if !p.presenceStored {
          return false, k;
        }
        presences := presences + [(k.memberName, online)];
        after := k.(presence := Some(Presence(online, p.now)));
      }
    }

    /** What is remembered of an account changes with a poll. Says whether all went well. */
    method ProcessKnown(p: Polled, known: Known) returns (ok: bool, after: Known)
      modifies this`sent, this`presences
      ensures after == Processed(known, p).0 && sent == old(sent) + Processed(known, p).1
      ensures presences == old(presences) + PresenceOf(known, p) && ok == Succeeds(known, p)
    {
      ok, after := true, known;
      if known.hidden {
        return;
      }
      if known.memberName != p.account.name {
        if p.renamed.None? {
          return false, known;
        }
        after := known.(memberName := p.renamed.value, sent := None);
      }
      ok, after := SendChanged(p, after);
      if ok {
        ok, after := WritePresence(p, after);
      }
    }

    method ProcessAccount(p: Polled) returns (ok: bool)
      modifies this`known, this`sent, this`presences
      ensures !p.validName || KnownAs(old(known), p).None? ==>
        known == old(known) && sent == old(sent) && presences == old(presences) && ok == !p.validName
      ensures p.validName && KnownAs(old(known), p).Some? ==>
        var before := KnownAs(old(known), p).value;
        && known == old(known)[p.account.id := Processed(before, p).0]
        && sent == old(sent) + Processed(before, p).1
        && presences == old(presences) + PresenceOf(before, p)
        && ok == Succeeds(before, p)
    {
      if !p.validName {
        return true;
      }
      var id := p.account.id;
      if id !in known {
        if p.bound.None? {
          return false;
        }
        known := known[id := Known(p.bound.value.memberName, p.bound.value.hidden, None, None)];
      }
      var after: Known;
      ok, after := ProcessKnown(p, known[id]);
      known := known[id := after];
    }

    /** Forgets the members an admin changed, whose names `forgotten` has in lower case, and has everything sent again. */
    method ApplyControl(forgotten: set<string>)
      modifies this`known, this`lastFull
      ensures known == Forgotten(old(known), forgotten)
      ensures lastFull == if forgotten == {} then old(lastFull) else None
      ensures forgotten != {} ==> forall now, every :: AsksForAll(now, every)
    {
      if forgotten == {} {
        assert known == Forgotten(known, forgotten);
        return;
      }
      known := map id | id in known && LowerCase(known[id].memberName) !in forgotten :: known[id];
      lastFull := None;
    }

    /** Drops the accounts a full snapshot no longer has. */
    method KeepVisible(visible: set<string>)
      modifies this`known
      ensures known == Visible(old(known), visible)
    {
      known := map id | id in known && id in visible :: known[id];
    }

    /** Notes that a snapshot was processed. */
    method PollDone(full: bool, now: int)
      modifies this`lastFull
      ensures lastFull == if full then Some(now) else old(lastFull)
    {
      if full {
        lastFull := Some(now);
      }
    }
  }

  function Forgotten(known: KnownAccounts, forgotten: set<string>): KnownAccounts {
    map id | id in known && LowerCase(known[id].memberName) !in forgotten :: known[id]
  }

  function Visible(known: KnownAccounts, visible: set<string>): KnownAccounts {
    map id | id in known && id in visible :: known[id]
  }

  // ----- Runs -----

  /** What the sync knows, what it has sent, and what it would have sent had it sent everything every time. */
  datatype World = World(known: KnownAccounts, sent: seq<Update>, everything: seq<Update>)

  const START := World(map[], [], [])

  datatype Event = Process(p: Polled) | Forget(names: set<string>) | Keep(visible: set<string>)

  /** All sections of an account as the poll has them, where it gets so far. */
  function Everything(known: Known, p: Polled): seq<Update> {
    if !GoesThrough(known, p) then []
    else
      var followed := Followed(known, p).value;
      [Update(followed.memberName, FromAccount(p.account, followed.sent))]
  }

  function After(w: World, event: Event): World {
    match event
    case Process(p) =>
      if !p.validName || KnownAs(w.known, p).None? then w
      else
        var known := KnownAs(w.known, p).value;
        var (after, updates) := Processed(known, p);
        World(w.known[p.account.id := after], w.sent + updates, w.everything + Everything(known, p))
    case Forget(names) => w.(known := Forgotten(w.known, names))
    case Keep(visible) => w.(known := Visible(w.known, visible))
  }

  function RunFrom(w: World, events: seq<Event>): World {
    if events == [] then w else After(RunFrom(w, events[..|events| - 1]), events[|events| - 1])
  }

  function Run(events: seq<Event>): World {
    RunFrom(START, events)
  }

  /** Whether an account has a member to which something was sent for it. */
  predicate SentAs(w: World, id: string, name: string) {
    id in w.known && w.known[id].sent.Some? && w.known[id].memberName == name
  }

  /** Whether no other account, of those for which something was sent, has the member that a poll's account is written to. */
  ghost predicate Alone(w: World, p: Polled) {
    p.validName && KnownAs(w.known, p).Some? && Followed(KnownAs(w.known, p).value, p).Some? ==>
      forall id | id in w.known && id != p.account.id :: !SentAs(w, id, Followed(KnownAs(w.known, p).value, p).value.memberName)
  }

  /** No two accounts have one member at the same time. They may be renamed, and take names others had before. */
  ghost predicate OneAccountPerMember(w: World, events: seq<Event>) {
    events != [] ==>
      var n := |events| - 1;
      OneAccountPerMember(w, events[..n]) && (events[n].Process? ==> Alone(RunFrom(w, events[..n]), events[n].p))
  }

  /** Whether the cells have all that the sections have. */
  ghost predicate Holds(cells: Cells, sections: Sections) {
    forall section :: sections.Get(section).Some? ==> section in cells && cells[section] == sections.Get(section).value
  }

  /** What was last sent of every account is what a copy of everything has for its member. */
  ghost predicate Copied(w: World, cells: Cells, name: string) {
    && (forall id | SentAs(w, id, name) :: Holds(CellsAfter(cells, w.everything, name), w.known[id].sent.value))
    && CellsAfter(cells, w.sent, name) == CellsAfter(cells, w.everything, name)
  }

  lemma OnlyGet(sections: Sections, wanted: set<Section>, section: Section)
    ensures sections.Only(wanted).Get(section) == if section in wanted then sections.Get(section) else None
  {
  }

  /** Sections that say the same, or nothing where the cells have it already, do the same. */
  lemma SameCoalesced(cells: Cells, less: Sections, more: Sections)
    requires forall section: Section :: less.Get(section) == more.Get(section) ||
               (less.Get(section).None? && more.Get(section).Some? && section in cells && cells[section] == more.Get(section).value)
    ensures Coalesced(cells, less) == Coalesced(cells, more)
  {
  }

  /** What did not change since it was sent need not be sent again. */
  lemma SendingChangedIsEnough(cells: Cells, sent: Option<Sections>, sections: Sections)
    requires sent.Some? ==> Holds(cells, sent.value)
    ensures Coalesced(cells, sections.Only(Changed(sent, sections))) == Coalesced(cells, sections)
  {
    var changed := Changed(sent, sections);
    EverySection();
    forall section: Section
      ensures sections.Only(changed).Get(section) == if section in changed then sections.Get(section) else None
      ensures section !in changed ==> sent.Some? && sent.value.Get(section) == sections.Get(section)
    {
      OnlyGet(sections, changed, section);
    }
    SameCoalesced(cells, sections.Only(changed), sections);
  }

  lemma CoalescedHolds(cells: Cells, sections: Sections)
    ensures Holds(Coalesced(cells, sections), sections)
  {
    EverySection();
  }

  lemma NothingChanged(sent: Option<Sections>, sections: Sections)
    requires Changed(sent, sections) == {}
    ensures sent.Some? && forall section: Section :: sections.Get(section) == sent.value.Get(section)
  {
    EverySection();
    forall section: Section
      ensures sent.Some? && sections.Get(section) == sent.value.Get(section)
    {
      assert section !in Changed(sent, sections);
    }
    assert Stats !in Changed(sent, sections);
  }

  lemma OneMore(cells: Cells, updates: seq<Update>, more: seq<Update>, name: string)
    requires |more| <= 1
    ensures CellsAfter(cells, updates + more, name) ==
            if more != [] && more[0].name == name
            then Coalesced(CellsAfter(cells, updates, name), more[0].sections) else CellsAfter(cells, updates, name)
  {
    if more == [] {
      assert updates + more == updates;
    } else {
      assert (updates + more)[..|updates|] == updates;
    }
  }

  /** A poll's sections, sent where they changed, and copied whole. */
  lemma SendingKeepsCells(cells: Cells, sent: seq<Update>, everything: seq<Update>, known: Known, sections: Sections, name: string)
    requires CellsAfter(cells, sent, name) == CellsAfter(cells, everything, name)
    requires known.memberName == name && known.sent.Some? ==> Holds(CellsAfter(cells, everything, name), known.sent.value)
    ensures var copy := CellsAfter(cells, everything + [Update(known.memberName, sections)], name);
            && CellsAfter(cells, sent + ToSend(known, sections), name) == copy
            && (known.memberName == name ==> Holds(copy, sections))
            && (known.memberName != name ==> copy == CellsAfter(cells, everything, name))
            && (ToSend(known, sections) == [] && known.memberName == name ==> known.sent.Some? && Holds(copy, known.sent.value))
  {
    OneMore(cells, sent, ToSend(known, sections), name);
    OneMore(cells, everything, [Update(known.memberName, sections)], name);
    var before := CellsAfter(cells, everything, name);
    CoalescedHolds(before, sections);
    if known.memberName == name {
      SendingChangedIsEnough(before, known.sent, sections);
    }
    if ToSend(known, sections) == [] {
      NothingChanged(known.sent, sections);
    }
  }

  lemma ProcessKeepsCopied(w: World, p: Polled, cells: Cells, name: string)
    requires Copied(w, cells, name) && Alone(w, p) && p.validName && KnownAs(w.known, p).Some?
    ensures Copied(After(w, Process(p)), cells, name)
  {
    var known := KnownAs(w.known, p).value;
    if GoesThrough(known, p) {
      var followed := Followed(known, p).value;
      SendingKeepsCells(cells, w.sent, w.everything, followed, FromAccount(p.account, followed.sent), name);
    } else {
      assert w.sent + [] == w.sent && w.everything + [] == w.everything;
    }
  }

  /**
   From any moment at which nothing was sent yet for an account that has the name, as when a
   row comes by it: whatever cells the row has then, what is sent for the name from then on
   makes of them what everything would.
   */
  lemma {:induction false} RunIsCopied(w: World, events: seq<Event>, cells: Cells, name: string)
    requires w.sent == w.everything == [] && forall id | id in w.known :: !SentAs(w, id, name)
    requires OneAccountPerMember(w, events)
    ensures Copied(RunFrom(w, events), cells, name)
    decreases |events|
  {
    if events != [] {
      var n := |events| - 1;
      RunIsCopied(w, events[..n], cells, name);
      match events[n]
      case Process(p) =>
        var before := RunFrom(w, events[..n]);
        if p.validName && KnownAs(before.known, p).Some? {
          ProcessKeepsCopied(before, p, cells, name);
        }
      case _ =>
    }
  }

  /** What is sent from a moment on does not depend on what was sent before. */
  lemma {:induction false} RunGoesOn(w: World, events: seq<Event>)
    ensures var (whole, rest) := (RunFrom(w, events), RunFrom(World(w.known, [], []), events));
            whole == World(rest.known, w.sent + rest.sent, w.everything + rest.everything)
    decreases |events|
  {
    if events != [] {
      RunGoesOn(w, events[..|events| - 1]);
    }
  }

  /** What becomes of a row that comes by its name in the middle of a run, with whatever cells. */
  lemma CopiedFromThenOn(before: seq<Event>, after: seq<Event>, cells: Cells, name: string)
    requires var w := Run(before);
             (forall id | id in w.known :: !SentAs(w, id, name)) && OneAccountPerMember(World(w.known, [], []), after)
    ensures var (w, more) := (Run(before), RunFrom(World(Run(before).known, [], []), after));
            && RunFrom(w, after).sent == w.sent + more.sent && RunFrom(w, after).everything == w.everything + more.everything
            && CellsAfter(cells, more.sent, name) == CellsAfter(cells, more.everything, name)
  {
    RunGoesOn(Run(before), after);
    RunIsCopied(World(Run(before).known, [], []), after, cells, name);
  }

  // ----- Totals on a special world -----

  /** What is remembered as sent always has the details. */
  ghost predicate DetailsSent(known: KnownAccounts) {
    forall id | id in known && known[id].sent.Some? :: known[id].sent.value.meta.Some?
  }

  lemma {:induction false} RunKeepsDetails(w: World, events: seq<Event>)
    requires DetailsSent(w.known)
    ensures DetailsSent(RunFrom(w, events).known)
    decreases |events|
  {
    if events != [] {
      RunKeepsDetails(w, events[..|events| - 1]);
    }
  }

  /** The details a member's row has. */
  function DetailsOf(cells: Cells): Option<HubMeta> {
    if Meta in cells && cells[Meta].Details? then Some(cells[Meta].meta) else None
  }

  /** Whether the totals of a special world's categories are some, or none without any. */
  predicate TotalsAre(account: Account, meta: HubMeta, before: Option<HubMeta>) {
    && (KeepsTotal(account, STATS) ==>
          && meta.totalLevel == (if before.Some? then before.value.totalLevel else None)
          && meta.overallXp == if before.Some? then before.value.overallXp else None)
    && (KeepsTotal(account, INVENTORY) ==> meta.inventoryValue == if before.Some? then before.value.inventoryValue else None)
    && (KeepsTotal(account, EQUIPMENT) ==> meta.equipmentValue == if before.Some? then before.value.equipmentValue else None)
  }

  /** What a poll that gets through leaves in the row it is written to. */
  lemma ProcessedCells(w: World, p: Polled, cells: Cells)
    requires p.validName && KnownAs(w.known, p).Some? && GoesThrough(KnownAs(w.known, p).value, p)
    requires var followed := Followed(KnownAs(w.known, p).value, p).value;
             followed.sent.Some? ==> Holds(CellsAfter(cells, w.sent, followed.memberName), followed.sent.value)
    ensures var followed := Followed(KnownAs(w.known, p).value, p).value;
            CellsAfter(cells, After(w, Process(p)).sent, followed.memberName) ==
            Coalesced(CellsAfter(cells, w.sent, followed.memberName), FromAccount(p.account, followed.sent))
  {
    var followed := Followed(KnownAs(w.known, p).value, p).value;
    var sections := FromAccount(p.account, followed.sent);
    OneMore(cells, w.sent, ToSend(followed, sections), followed.memberName);
    SendingChangedIsEnough(CellsAfter(cells, w.sent, followed.memberName), followed.sent, sections);
    if ToSend(followed, sections) == [] {
      NothingChanged(followed.sent, sections);
    }
  }

  /**
   On a special world the totals of a member's row stay what they were exactly as long as
   something is remembered as sent for the member: after a rename, after an admin's change or
   with a sync that just started they are gone, if there were any.
   */
  lemma TotalsSurvive(events: seq<Event>, p: Polled, cells: Cells)
    requires OneAccountPerMember(START, events)
    requires p.validName && KnownAs(Run(events).known, p).Some? && GoesThrough(KnownAs(Run(events).known, p).value, p)
    ensures var followed := Followed(KnownAs(Run(events).known, p).value, p).value;
            var before := DetailsOf(CellsAfter(cells, Run(events).sent, followed.memberName));
            var after := DetailsOf(CellsAfter(cells, Run(events + [Process(p)]).sent, followed.memberName));
            && after.Some?
            && (followed.sent.Some? ==> before.Some? && TotalsAre(p.account, after.value, before))
            && (followed.sent.None? ==> TotalsAre(p.account, after.value, None))
  {
    var w := Run(events);
    var followed := Followed(KnownAs(w.known, p).value, p).value;
    var name := followed.memberName;
    assert (events + [Process(p)])[..|events|] == events;
    RunIsCopied(START, events, cells, name);
    RunKeepsDetails(START, events);
    if followed.sent.Some? {
      assert SentAs(w, p.account.id, name);
      var sent := followed.sent.value;
      assert sent.Get(Meta).Some?;
    }
    ProcessedCells(w, p, cells);
    CoalescedHolds(CellsAfter(cells, w.sent, name), FromAccount(p.account, followed.sent));
    assert FromAccount(p.account, followed.sent).Get(Meta).Some?;
  }

  /** A player with a total level of 1000, on a main-game world or a special one. */
  function Ranked(specialWorld: bool): Polled {
    Polled(Account("a", "m", [STATS], None, None, None, None, Some(Skills(if specialWorld then Some(30) else Some(1000), None, [])),
                   None, None, Some(specialWorld), None, ""),
           true, Some(Bound("m", false)), None, true, true, 0)
  }

  lemma FirstTotal(cells: Cells)
    ensures var details := DetailsOf(CellsAfter(cells, After(START, Process(Ranked(false))).sent, "m"));
            details.Some? && details.value.totalLevel == Some(1000)
  {
    var sections := FromAccount(Ranked(false).account, None);
    ProcessedCells(START, Ranked(false), cells);
    CoalescedHolds(CellsAfter(cells, [], "m"), sections);
    assert sections.Get(Meta).Some?;
  }

  lemma AdminForgets()
    ensures After(After(START, Process(Ranked(false))), Forget({"m"})) == After(START, Process(Ranked(false))).(known := map[])
  {
    assert LowerCase("m") == "m";
  }

  /** An admin's change between a poll on a main-game world and one on a special world: the total is lost, though it is still shared. */
  lemma TotalsLost(cells: Cells)
    ensures var events := [Process(Ranked(false)), Forget({"m"})];
            var (before, after) := (DetailsOf(CellsAfter(cells, Run(events).sent, "m")),
                                    DetailsOf(CellsAfter(cells, Run(events + [Process(Ranked(true))]).sent, "m")));
            before.Some? && before.value.totalLevel == Some(1000) && after.Some? && after.value.totalLevel == None
  {
    var (first, forget) := (Process(Ranked(false)), Forget({"m"}));
    ThreeEvents(START, first, forget, forget);
    FirstTotal(cells);
    AdminForgets();
    var known := KnownAs(Run([first, forget]).known, Ranked(true));
    assert known == Some(Known("m", false, None, None));
    TotalsSurvive([first, forget], Ranked(true), cells);
  }

  /** An account that shares nothing but what it is called. */
  function Bare(id: string, details: string): Account {
    Account(id, "m", [], None, None, None, None, None, None, None, None, None, details)
  }

  function BarePoll(id: string, details: string): Polled {
    Polled(Bare(id, details), true, Some(Bound("m", false)), None, true, true, 0)
  }

  function BareSections(details: string): Sections {
    Sections(Some([]), Some([]), Some([]), Some([]), Some([]),
             Some(HubMeta(details, [], None, None, None, None, false, false)))
  }

  /** What a poll of such an account does when it is the first, and when nothing changed. */
  lemma BareStep(w: World, id: string, details: string, cells: Cells)
    requires id in w.known ==> w.known[id].memberName == "m" && !w.known[id].hidden && w.known[id].sent == Some(BareSections(details))
    ensures var (after, sections) := (After(w, Process(BarePoll(id, details))), BareSections(details));
            && after.known.Keys == w.known.Keys + {id}
            && (forall other | other in w.known && other != id :: after.known[other] == w.known[other])
            && after.known[id].memberName == "m" && !after.known[id].hidden && after.known[id].sent == Some(sections)
            && CellsAfter(cells, after.everything, "m") == Coalesced(CellsAfter(cells, w.everything, "m"), sections)
            && CellsAfter(cells, after.sent, "m") ==
                 if id in w.known then CellsAfter(cells, w.sent, "m") else Coalesced(CellsAfter(cells, w.sent, "m"), sections)
  {
    var p := BarePoll(id, details);
    var known := KnownAs(w.known, p).value;
    var sections := BareSections(details);
    assert FromAccount(p.account, known.sent) == sections;
    assert Everything(known, p) == [Update("m", sections)];
    RemembersTheLast(known, p);
    OneMore(cells, w.everything, [Update("m", sections)], "m");
    SendsAllOrNothing(cells, w.sent, known, sections);
  }

  /** What has never been sent is sent whole, and what was just sent not at all. */
  lemma SendsAllOrNothing(cells: Cells, sent: seq<Update>, known: Known, sections: Sections)
    requires known.memberName == "m" && (known.sent.Some? ==> known.sent.value == sections)
    ensures CellsAfter(cells, sent + ToSend(known, sections), "m") ==
            if known.sent.Some? then CellsAfter(cells, sent, "m") else Coalesced(CellsAfter(cells, sent, "m"), sections)
  {
    OneMore(cells, sent, ToSend(known, sections), "m");
    if known.sent.Some? {
      assert Changed(known.sent, sections) == {};
    } else {
      assert Stats in Changed(None, sections);
      SendingChangedIsEnough(CellsAfter(cells, sent, "m"), None, sections);
    }
  }

  lemma MetaIsLast(cells: Cells, details: string)
    ensures var after := Coalesced(cells, BareSections(details));
            Meta in after && after[Meta] == Details(BareSections(details).meta.value)
  {
    EverySection();
  }

  lemma ThirdPollIsNotSent(cells: Cells)
    ensures var w := After(START, Process(BarePoll("a", "x")));
            var v := After(w, Process(BarePoll("b", "y")));
            var u := After(v, Process(BarePoll("a", "x")));
            && !Alone(w, BarePoll("b", "y"))
            && CellsAfter(cells, u.sent, "m") != CellsAfter(cells, u.everything, "m")
  {
    var w := After(START, Process(BarePoll("a", "x")));
    var v := After(w, Process(BarePoll("b", "y")));
    BareStep(START, "a", "x", cells);
    BareStep(w, "b", "y", cells);
    BareStep(v, "a", "x", cells);
    MetaIsLast(CellsAfter(cells, w.sent, "m"), "y");
    MetaIsLast(CellsAfter(cells, v.everything, "m"), "x");
  }

  /** Two accounts written to one member: what the first has not changed is not sent again over what the second sent. */
  lemma TwoAccountsOneMember(cells: Cells) returns (events: seq<Event>)
    ensures !OneAccountPerMember(START, events)
    ensures CellsAfter(cells, Run(events).sent, "m") != CellsAfter(cells, Run(events).everything, "m")
  {
    var (first, second) := (Process(BarePoll("a", "x")), Process(BarePoll("b", "y")));
    events := [first, second, first];
    ThirdPollIsNotSent(cells);
    ThreeEvents(START, first, second, first);
    assert !OneAccountPerMember(START, [first, second]);
  }

  lemma ThreeEvents(w: World, a: Event, b: Event, c: Event)
    ensures [a, b, c][..2] == [a, b] && [a, b][..1] == [a]
    ensures RunFrom(w, [a]) == After(w, a) && RunFrom(w, [a, b]) == After(After(w, a), b)
    ensures RunFrom(w, [a, b, c]) == After(After(After(w, a), b), c)
  {
    assert [a][..0] == [] && [a, b][..1] == [a] && [a, b, c][..2] == [a, b];
  }

  /** The polls of one account, never hidden or renamed. */
  ghost predicate PollsOf(polls: seq<Polled>, id: string, name: string) {
    forall p | p in polls ::
      p.validName && p.account.id == id && p.account.name == name && p.bound == Some(Bound(name, false)) && p.listening
  }

  function Events(polls: seq<Polled>): seq<Event> {
    seq(|polls|, i requires 0 <= i < |polls| => Process(polls[i]))
  }

  function Accounts(polls: seq<Polled>): seq<Account> {
    seq(|polls|, i requires 0 <= i < |polls| => polls[i].account)
  }

  lemma SameSections(a: Sections, b: Sections)
    requires forall section: Section :: a.Get(section) == b.Get(section)
    ensures a == b
  {
    assert a.Get(Stats) == b.Get(Stats) && a.Get(Coordinates) == b.Get(Coordinates) && a.Get(SkillXp) == b.Get(SkillXp);
    assert a.Get(Inventory) == b.Get(Inventory) && a.Get(Equipment) == b.Get(Equipment) && a.Get(Meta) == b.Get(Meta);
  }

  /** What is remembered as sent is all of the last poll's sections, whether or not any of them had to be sent. */
  lemma RemembersTheLast(known: Known, p: Polled)
    requires GoesThrough(known, p)
    ensures Processed(known, p).0.sent == Some(FromAccount(p.account, Followed(known, p).value.sent))
  {
    var followed := Followed(known, p).value;
    var sections := FromAccount(p.account, followed.sent);
    if Changed(followed.sent, sections) == {} {
      NothingChanged(followed.sent, sections);
      SameSections(followed.sent.value, sections);
    }
  }

  /** For one account, everything is the sections of its polls, each made with those of the poll before. */
  lemma {:induction false} EverythingIsEveryPoll(polls: seq<Polled>, id: string, name: string)
    requires PollsOf(polls, id, name)
    ensures var w := Run(Events(polls));
            var all := SectionsOf(Accounts(polls));
            && |w.everything| == |polls|
            && (forall i | 0 <= i < |polls| :: w.everything[i] == Update(name, all[i]))
            && (id in w.known <==> polls != [])
            && (polls != [] ==> w.known[id].memberName == name && !w.known[id].hidden
                                && w.known[id].sent == Some(all[|polls| - 1]))
    decreases |polls|
  {
    if polls != [] {
      var n := |polls| - 1;
      var p := polls[n];
      assert p in polls;
      assert Events(polls)[..n] == Events(polls[..n]) && Accounts(polls)[..n] == Accounts(polls[..n]);
      EverythingIsEveryPoll(polls[..n], id, name);
      RemembersTheLast(KnownAs(Run(Events(polls[..n])).known, p).value, p);
    }
  }

  // ----- Accounts that were gone, or are hidden -----

  /** Of a member that is hidden nothing is sent or written, and nothing changes. */
  lemma HiddenIsLeftAlone(known: Known, p: Polled)
    requires known.hidden
    ensures Processed(known, p) == (known, []) && PresenceOf(known, p) == [] && Succeeds(known, p)
  {
  }

  /** An account that a full snapshot did not have is looked up again when it is back, and all its sections are sent; the others stay known. */
  lemma GoneIsSentAgain(known: KnownAccounts, visible: set<string>, p: Polled)
    requires p.account.id !in visible && p.bound.Some? && !p.bound.value.hidden
    requires p.bound.value.memberName == p.account.name && p.listening
    ensures var k := KnownAs(Visible(known, visible), p);
            k.Some? && Processed(k.value, p).1 == [Update(p.account.name, FromAccount(p.account, None))]
    ensures forall id | id in visible :: id in Visible(known, visible) <==> id in known
    ensures forall id | id in visible && id in known :: Visible(known, visible)[id] == known[id]
  {
    var sections := FromAccount(p.account, None);
    assert Meta in SECTIONS && SectionChanged(None, sections, Meta);
    assert Changed(None, sections) == SECTIONS;
    EverySection();
    assert sections.Only(SECTIONS) == sections;
  }

  // ----- Presence -----

  /** Whether the hub says the player is online, or says where they are now. */
  ghost predicate SaysOnline(account: Account) {
    account.online == Some(true) || (account.online == None && account.location.Some? && account.location.value.stale == false)
  }

  /** After a poll that went well the presence last written is the hub's, and not a minute old. */
  lemma PresenceIsRight(known: Known, p: Polled)
    requires !known.hidden && Succeeds(known, p)
    ensures var presence := Processed(known, p).0.presence;
            presence.Some? && (presence.value.online <==> SaysOnline(p.account)) && p.now - presence.value.at < 60_000
  {
  }

  /** Presence is written at most once a poll, under the account's member, and only when it changed or is a minute old. */
  lemma PresenceIsNotRepeated(known: Known, p: Polled)
    ensures var written := PresenceOf(known, p);
            written != [] && known.presence != None ==>
              known.presence.value.online != SaysOnline(p.account) || p.now - known.presence.value.at >= 60_000
    ensures var written := PresenceOf(known, p);
            written != [] ==>
              written == [(Processed(known, p).0.memberName, SaysOnline(p.account))]
              && Processed(known, p).0.presence == Some(Presence(SaysOnline(p.account), p.now))
  {
  }

  // ----- What the copy holds -----

  /** Whether a poll gets as far as the batcher, for a member of that name. */
  predicate WritesTo(w: World, p: Polled, name: string) {
    && p.validName && KnownAs(w.known, p).Some? && GoesThrough(KnownAs(w.known, p).value, p)
    && Followed(KnownAs(w.known, p).value, p).value.memberName == name
  }

  /** Whether one of some events is a poll that is written to a member. */
  predicate WritesAt(events: seq<Event>, i: nat, name: string) {
    i < |events| && events[i].Process? && WritesTo(Run(events[..i]), events[i].p, name)
  }

  /** What one event adds to a copy of everything. */
  lemma {:induction false} CopyGrows(events: seq<Event>, cells: Cells, name: string)
    requires events != []
    ensures var n := |events| - 1;
            var (before, after) := (CellsAfter(cells, Run(events[..n]).everything, name), CellsAfter(cells, Run(events).everything, name));
            if WritesAt(events, n, name) then
              after == Coalesced(before, FromAccount(events[n].p.account,
                                                     Followed(KnownAs(Run(events[..n]).known, events[n].p).value, events[n].p).value.sent))
            else after == before
  {
    var n := |events| - 1;
    var w := Run(events[..n]);
    assert Run(events) == After(w, events[n]);
    if events[n].Process? && events[n].p.validName && KnownAs(w.known, events[n].p).Some? {
      OneMore(cells, w.everything, Everything(KnownAs(w.known, events[n].p).value, events[n].p), name);
    }
  }

  lemma WritesBefore(events: seq<Event>, i: nat, name: string)
    requires events != [] && i < |events| - 1
    ensures WritesAt(events[..|events| - 1], i, name) == WritesAt(events, i, name)
  {
    assert events[..|events| - 1][..i] == events[..i];
  }

  /** A section that an update has, or has not, once it is put over some cells. */
  lemma CoalescedSection(cells: Cells, account: Account, previous: Option<Sections>, section: Section)
    requires section != Meta
    ensures var after := Coalesced(cells, FromAccount(account, previous));
            && (forall values | Says(account, section, values) :: section in after && after[section] == Array(values))
            && (Silent(account, section) ==> SameSection(cells, after, section))
  {
    EverySection();
    SectionsSay(account, previous, section);
  }

  ghost predicate SameSection(a: Cells, b: Cells, section: Section) {
    (section in a <==> section in b) && (section in a ==> a[section] == b[section])
  }

  /** What one event does to a section of a copy of everything. */
  lemma SectionGrows(events: seq<Event>, cells: Cells, name: string, section: Section)
    requires events != [] && section != Meta
    ensures var n := |events| - 1;
            var (before, after) := (CellsAfter(cells, Run(events[..n]).everything, name), CellsAfter(cells, Run(events).everything, name));
            && (WritesAt(events, n, name) ==>
                  forall values | Says(events[n].p.account, section, values) :: section in after && after[section] == Array(values))
            && (!WritesAt(events, n, name) || Silent(events[n].p.account, section) ==> SameSection(before, after, section))
  {
    var n := |events| - 1;
    CopyGrows(events, cells, name);
    if WritesAt(events, n, name) {
      var p := events[n].p;
      CoalescedSection(CellsAfter(cells, Run(events[..n]).everything, name), p.account,
                       Followed(KnownAs(Run(events[..n]).known, p).value, p).value.sent, section);
    }
  }

  /** Whether the i-th event is the last that says anything of a member's section. */
  ghost predicate LastToSay(events: seq<Event>, i: nat, name: string, section: Section, values: seq<int>) {
    WritesAt(events, i, name) && Says(events[i].p.account, section, values) && SilentFrom(events, i + 1, name, section)
  }

  /** Whether no event from some on says anything of a member's section. */
  ghost predicate SilentFrom(events: seq<Event>, from: nat, name: string, section: Section) {
    forall j: nat | from <= j < |events| && WritesAt(events, j, name) :: Silent(events[j].p.account, section)
  }

  lemma SilentBefore(events: seq<Event>, from: nat, name: string, section: Section)
    requires events != [] && SilentFrom(events, from, name, section)
    ensures SilentFrom(events[..|events| - 1], from, name, section)
    ensures from < |events| && WritesAt(events, |events| - 1, name) ==> Silent(events[|events| - 1].p.account, section)
  {
    var n := |events| - 1;
    forall j: nat | from <= j < n && WritesAt(events[..n], j, name)
      ensures Silent(events[..n][j].p.account, section)
    {
      WritesBefore(events, j, name);
    }
  }

  /** A member's section is what the last poll of the hub that says anything of it says. */
  lemma {:induction false} CopyIsWhatPollsSay(events: seq<Event>, i: nat, cells: Cells, name: string, section: Section, values: seq<int>)
    requires section != Meta && LastToSay(events, i, name, section, values)
    ensures var after := CellsAfter(cells, Run(events).everything, name); section in after && after[section] == Array(values)
    decreases |events|
  {
    var n := |events| - 1;
    SectionGrows(events, cells, name, section);
    if i < n {
      SilentBefore(events, i + 1, name, section);
      WritesBefore(events, i, name);
      CopyIsWhatPollsSay(events[..n], i, cells, name, section, values);
    }
  }

  /** Without one it is what it was. */
  lemma {:induction false} CopyIsLeftAlone(events: seq<Event>, cells: Cells, name: string, section: Section)
    requires section != Meta && SilentFrom(events, 0, name, section)
    ensures SameSection(cells, CellsAfter(cells, Run(events).everything, name), section)
    decreases |events|
  {
    if events != [] {
      SectionGrows(events, cells, name, section);
      SilentBefore(events, 0, name, section);
      CopyIsLeftAlone(events[..|events| - 1], cells, name, section);
    }
  }

  /** A member's details are those of the last poll that was written to the member. */
  lemma {:induction false} CopyHasTheDetails(events: seq<Event>, i: nat, cells: Cells, name: string)
    requires WritesAt(events, i, name) && forall j: nat | i < j < |events| :: !WritesAt(events, j, name)
    ensures var details := DetailsOf(CellsAfter(cells, Run(events).everything, name));
            details.Some? && SaysDetails(events[i].p.account, details.value)
    decreases |events|
  {
    var n := |events| - 1;
    CopyGrows(events, cells, name);
    if i == n {
      var p := events[n].p;
      var previous := Followed(KnownAs(Run(events[..n]).known, p).value, p).value.sent;
      DetailsSay(p.account, previous);
      CoalescedHolds(CellsAfter(cells, Run(events[..n]).everything, name), FromAccount(p.account, previous));
      assert FromAccount(p.account, previous).Get(Meta).Some?;
    } else {
      forall j: nat | i <= j < n
        ensures WritesAt(events[..n], j, name) == WritesAt(events, j, name)
      {
        WritesBefore(events, j, name);
      }
      CopyHasTheDetails(events[..n], i, cells, name);
    }
  }

  // ----- Sent in batches -----

  /** A batch of the batcher: what it took from the channel, and the statements it wrote that in. */
  datatype Batch = Batch(buffer: seq<Update>, statements: seq<Statement>)

  ghost predicate Delivered(batches: seq<Batch>) {
    forall b | b in batches :: UpdatesOf(Flat(ChunksOf(b.statements)), ByName(b.buffer))
  }

  function Taken(batches: seq<Batch>): seq<Update> {
    if batches == [] then [] else Taken(batches[..|batches| - 1]) + batches[|batches| - 1].buffer
  }

  function TableAfter(table: Table, batches: seq<Batch>): Table {
    if batches == [] then table
    else WrittenAll(TableAfter(table, batches[..|batches| - 1]), batches[|batches| - 1].statements)
  }

  lemma {:induction false} BatchesAreOneByOne(table: Table, batches: seq<Batch>, name: string)
    requires Delivered(batches) && name in table
    ensures var after := TableAfter(table, batches);
            name in after && CellsOf(after[name]) == CellsAfter(CellsOf(table[name]), Taken(batches), name)
    decreases |batches|
  {
    if batches != [] {
      var n := |batches| - 1;
      BatchesAreOneByOne(table, batches[..n], name);
      assert batches[n] in batches;
      BatchIsOneByOne(TableAfter(table, batches[..n]), batches[n].buffer, batches[n].statements, name);
      CellsAfterBoth(CellsOf(table[name]), Taken(batches[..n]), batches[n].buffer, name);
    }
  }

  /**
   Over any polls of any accounts, renamed or not, with admins making the sync forget members at any time:
   once what was sent has been written, in whatever batches and chunks, every member's row
   has the cells it would have had if every section of every poll had been written.
   */
  lemma DiffSyncIsFullCopy(events: seq<Event>, table: Table, batches: seq<Batch>, name: string)
    requires OneAccountPerMember(START, events)
    requires Delivered(batches) && Taken(batches) == Run(events).sent && name in table
    ensures var after := TableAfter(table, batches);
            name in after && CellsOf(after[name]) == CellsAfter(CellsOf(table[name]), Run(events).everything, name)
  {
    BatchesAreOneByOne(table, batches, name);
    RunIsCopied(START, events, CellsOf(table[name]), name);
  }

  predicate HasFor(update: Update, name: string, section: Section) {
    update.name == name && update.sections.Get(section).Some?
  }

  /** Whether update i is the last that has something for a member's section. */
  ghost predicate LastFor(updates: seq<Update>, i: nat, name: string, section: Section) {
    && i < |updates| && HasFor(updates[i], name, section)
    && forall j | i < j < |updates| :: !HasFor(updates[j], name, section)
  }

  /** The last update that has something for a member's section says what a copy of everything has there. */
  lemma {:induction false} CopyHasTheLast(cells: Cells, updates: seq<Update>, name: string, section: Section, i: nat)
    requires LastFor(updates, i, name, section)
    ensures var after := CellsAfter(cells, updates, name);
            section in after && Some(after[section]) == updates[i].sections.Get(section)
    decreases |updates|
  {
    EverySection();
    var n := |updates| - 1;
    if i < n {
      CopyHasTheLast(cells, updates[..n], name, section, i);
      assert !HasFor(updates[n], name, section);
    }
  }

  /** Without any such update the section is what it was. */
  lemma {:induction false} CopyLeavesTheRest(cells: Cells, updates: seq<Update>, name: string, section: Section)
    requires forall i | 0 <= i < |updates| :: !HasFor(updates[i], name, section)
    ensures var after := CellsAfter(cells, updates, name);
            (section in after <==> section in cells) && (section in cells ==> after[section] == cells[section])
    decreases |updates|
  {
    EverySection();
    if updates != [] {
      CopyLeavesTheRest(cells, updates[..|updates| - 1], name, section);
      assert !HasFor(updates[|updates| - 1], name, section);
    }
  }
}
