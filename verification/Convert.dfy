/**
 What the sync makes of a hub account: the sections of a member
 (server/src/hub/convert.rs).

 An account carries its skills and items as the flat arrays they become; the details
 that are only passed on are one text.
 */
module Convert {
  import opened Options

  datatype Meter = Meter(current: int, max: int)
  datatype Location = Location(x: int, y: int, plane: int, stale: bool, onBoat: Option<bool>)
  datatype Skills = Skills(totalLevel: Option<int>, overallXp: Option<int>, xp: seq<int>)
  datatype Items = Items(worth: Option<int>, slots: seq<int>)

  /** An account of the hub's snapshot; what the key may not read, or the plugin never sent, is None. */
  datatype Account = Account(
    id: string, name: string, categories: seq<string>,
    hp: Option<Meter>, prayer: Option<Meter>, world: Option<int>, location: Option<Location>,
    skills: Option<Skills>, inventory: Option<Items>, equipment: Option<Items>,
    specialWorld: Option<bool>, online: Option<bool>, details: string)

  /** What a member's page shows as it comes. */
  datatype HubMeta = HubMeta(
    details: string, categories: seq<string>,
    totalLevel: Option<int>, overallXp: Option<int>, inventoryValue: Option<int>, equipmentValue: Option<int>,
    onBoat: bool, specialWorld: bool)

  datatype Section = Stats | Coordinates | SkillXp | Inventory | Equipment | Meta

  const SECTIONS: set<Section> := {Stats, Coordinates, SkillXp, Inventory, Equipment, Meta}

  lemma EverySection()
    ensures forall section: Section :: section in SECTIONS
  {
    forall section: Section
      ensures section in SECTIONS
    {
      match section
      case Stats =>
      case Coordinates =>
      case SkillXp =>
      case Inventory =>
      case Equipment =>
      case Meta =>
    }
  }

  /** What a section holds: an array, or the details. */
  datatype Cell = Array(values: seq<int>) | Details(meta: HubMeta)

  /** A member's sections. None: nothing new. An empty array: not shared. */
  datatype Sections = Sections(
    stats: Option<seq<int>>, coordinates: Option<seq<int>>, skills: Option<seq<int>>,
    inventory: Option<seq<int>>, equipment: Option<seq<int>>, meta: Option<HubMeta>)
  {
    function Get(section: Section): Option<Cell> {
      match section
      case Stats => ArrayCell(stats)
      case Coordinates => ArrayCell(coordinates)
      case SkillXp => ArrayCell(skills)
      case Inventory => ArrayCell(inventory)
      case Equipment => ArrayCell(equipment)
      case Meta => if meta.Some? then Some(Details(meta.value)) else None
    }

    /** The sections asked for. */
    function Only(wanted: set<Section>): Sections {
      Sections(
        if Stats in wanted then stats else None,
        if Coordinates in wanted then coordinates else None,
        if SkillXp in wanted then skills else None,
        if Inventory in wanted then inventory else None,
        if Equipment in wanted then equipment else None,
        if Meta in wanted then meta else None)
    }
  }

  function ArrayCell(section: Option<seq<int>>): Option<Cell> {
    if section.Some? then Some(Array(section.value)) else None
  }

  const ACTIVITY := "activity"
  const LOCATION_LIVE := "location_live"
  const STATS := "stats"
  const INVENTORY := "inventory"
  const EQUIPMENT := "equipment"

  predicate Shares(account: Account, category: string) {
    category in account.categories
  }

  predicate OnSpecialWorld(account: Account) {
    account.specialWorld.GetOr(false)
  }

  /** Whether a total is kept from before: a special world has its own, for as long as the category is shared. */
  predicate KeepsTotal(account: Account, category: string) {
    OnSpecialWorld(account) && Shares(account, category)
  }

  function MainGameTotal(account: Account, category: string, current: Option<int>, previous: Option<int>): Option<int> {
    if KeepsTotal(account, category) then previous else current
  }

  function MetaOf(account: Account, previous: Option<HubMeta>): HubMeta {
    HubMeta(account.details, account.categories,
      MainGameTotal(account, STATS, TotalLevelOf(account), if previous.Some? then previous.value.totalLevel else None),
      MainGameTotal(account, STATS, OverallXpOf(account), if previous.Some? then previous.value.overallXp else None),
      MainGameTotal(account, INVENTORY, InventoryWorthOf(account), if previous.Some? then previous.value.inventoryValue else None),
      MainGameTotal(account, EQUIPMENT, EquipmentWorthOf(account), if previous.Some? then previous.value.equipmentValue else None),
      account.location.Some? && account.location.value.onBoat.GetOr(false),
      OnSpecialWorld(account))
  }

  function TotalLevelOf(account: Account): Option<int> {
    if account.skills.Some? then account.skills.value.totalLevel else None
  }

  function OverallXpOf(account: Account): Option<int> {
    if account.skills.Some? then account.skills.value.overallXp else None
  }

  function InventoryWorthOf(account: Account): Option<int> {
    if account.inventory.Some? then account.inventory.value.worth else None
  }

  function EquipmentWorthOf(account: Account): Option<int> {
    if account.equipment.Some? then account.equipment.value.worth else None
  }

  function StatsOf(account: Account): Option<seq<int>> {
    if account.hp.None? && account.prayer.None? && account.world.None? then None
    else
      var hp := account.hp.GetOr(Meter(0, 0));
      var prayer := account.prayer.GetOr(Meter(0, 0));
      Some([hp.current, hp.max, prayer.current, prayer.max, 0, 0, account.world.GetOr(0)])
  }

  function CoordinatesOf(account: Account): Option<seq<int>> {
    match account.location
    case Some(Location(x, y, plane, stale, _)) => if stale then None else Some([x, y, plane])
    case None => None
  }

  /** A section of a category: not shared is an empty one. */
  function Shared(account: Account, category: string, section: Option<seq<int>>): Option<seq<int>> {
    if Shares(account, category) then section else Some([])
  }

  /** A section that a special world has its own of is left as it is there. */
  function MainGame(account: Account, section: Option<seq<int>>): Option<seq<int>> {
    if OnSpecialWorld(account) then None else section
  }

  function SlotsOf(items: Option<Items>): Option<seq<int>> {
    if items.Some? then Some(items.value.slots) else None
  }

  /** The sections of an account; `previous` is what was sent for it before. */
  function FromAccount(account: Account, previous: Option<Sections>): Sections {
    Sections(
      Shared(account, ACTIVITY, StatsOf(account)),
      Shared(account, LOCATION_LIVE, CoordinatesOf(account)),
      Shared(account, STATS, MainGame(account, if account.skills.Some? then Some(account.skills.value.xp) else None)),
      Shared(account, INVENTORY, MainGame(account, SlotsOf(account.inventory))),
      Shared(account, EQUIPMENT, MainGame(account, SlotsOf(account.equipment))),
      Some(MetaOf(account, if previous.Some? then previous.value.meta else None)))
  }

  predicate SectionChanged(previous: Option<Sections>, current: Sections, section: Section) {
    previous.None? || previous.value.Get(section) != current.Get(section)
  }

  // ----- What a poll says -----

  /** Whether a poll says that a section is some numbers: none where the key may not read it, or else those of the account's own field. */
  ghost predicate Says(account: Account, section: Section, values: seq<int>) {
    var shared := account.categories;
    var mainGame := account.specialWorld != Some(true);
    match section
    case Stats =>
      if "activity" !in shared then values == []
      else
        && (account.hp.Some? || account.prayer.Some? || account.world.Some?)
        && |values| == 7 && values[4] == values[5] == 0
        && (values[0], values[1]) == (if account.hp.Some? then (account.hp.value.current, account.hp.value.max) else (0, 0))
        && (values[2], values[3]) == (if account.prayer.Some? then (account.prayer.value.current, account.prayer.value.max) else (0, 0))
        && values[6] == if account.world.Some? then account.world.value else 0
    case Coordinates =>
      if "location_live" !in shared then values == []
      else
        && account.location.Some? && !account.location.value.stale
        && values == [account.location.value.x, account.location.value.y, account.location.value.plane]
    case SkillXp =>
      if "stats" !in shared then values == [] else mainGame && account.skills.Some? && values == account.skills.value.xp
    case Inventory =>
      if "inventory" !in shared then values == [] else mainGame && account.inventory.Some? && values == account.inventory.value.slots
    case Equipment =>
      if "equipment" !in shared then values == [] else mainGame && account.equipment.Some? && values == account.equipment.value.slots
    case Meta => false
  }

  /** Whether a poll leaves a section as it was: one that is shared, but stale, another world's, or not there. */
  ghost predicate Silent(account: Account, section: Section) {
    forall values :: !Says(account, section, values)
  }

  /** The sections of an account are what the poll says. */
  lemma SectionsSay(account: Account, previous: Option<Sections>, section: Section)
    requires section != Meta
    ensures forall values :: Says(account, section, values) <==> FromAccount(account, previous).Get(section) == Some(Array(values))
    ensures Silent(account, section) <==> FromAccount(account, previous).Get(section) == None
  {
    var cell := FromAccount(account, previous).Get(section);
    if section == Stats && "activity" in account.categories {
      StatsSay(account);
    }
    forall values
      ensures Says(account, section, values) <==> cell == Some(Array(values))
    {
    }
    assert cell.Some? ==> Says(account, section, cell.value.values);
  }

  lemma StatsSay(account: Account)
    requires "activity" in account.categories
    ensures forall values :: Says(account, Stats, values) <==> StatsOf(account) == Some(values)
  {
    forall values
      ensures Says(account, Stats, values) <==> StatsOf(account) == Some(values)
    {
      if |values| == 7 {
        assert values == [values[0], values[1], values[2], values[3], values[4], values[5], values[6]];
      }
    }
  }

  /** Whether details are an account's own, the totals aside. */
  predicate SaysDetails(account: Account, meta: HubMeta) {
    && meta.details == account.details && meta.categories == account.categories
    && (meta.specialWorld <==> account.specialWorld == Some(true))
    && (meta.onBoat <==> account.location.Some? && account.location.value.onBoat == Some(true))
  }

  lemma DetailsSay(account: Account, previous: Option<Sections>)
    ensures var meta := FromAccount(account, previous).meta; meta.Some? && SaysDetails(account, meta.value)
  {
  }

  // ----- The sections of one poll after another -----

  /** The sections of each of some polls of an account, each made with those of the one before. */
  function SectionsOf(polls: seq<Account>): (r: seq<Sections>)
    ensures |r| == |polls|
  {
    if polls == [] then []
    else
      var before := SectionsOf(polls[..|polls| - 1]);
      before + [FromAccount(polls[|polls| - 1], if before == [] then None else Some(before[|before| - 1]))]
  }

  /** The total of a poll: its own, or the one of the last poll that had its own. */
  ghost predicate TotalFrom(polls: seq<Account>, category: string, own: Account -> Option<int>, total: Option<int>) {
    || ((forall i | 0 <= i < |polls| :: KeepsTotal(polls[i], category)) && total == None)
    || exists i :: 0 <= i < |polls| && !KeepsTotal(polls[i], category) && total == own(polls[i])
                   && forall j | i < j < |polls| :: KeepsTotal(polls[j], category)
  }

  lemma TotalOfOneMore(polls: seq<Account>, account: Account, category: string, own: Account -> Option<int>, total: Option<int>)
    requires TotalFrom(polls, category, own, total)
    ensures TotalFrom(polls + [account], category, own, MainGameTotal(account, category, own(account), total))
  {
    var more := polls + [account];
    if KeepsTotal(account, category) {
      if i :| 0 <= i < |polls| && !KeepsTotal(polls[i], category) && total == own(polls[i])
              && forall j | i < j < |polls| :: KeepsTotal(polls[j], category) {
        assert more[i] == polls[i];
        assert forall j | i < j < |more| :: KeepsTotal(more[j], category);
      } else {
        assert forall j | 0 <= j < |more| :: KeepsTotal(more[j], category);
      }
    } else {
      assert more[|polls|] == account;
    }
  }

  /**
   However often a player hops between worlds, the totals shown are those of the last poll
   on a main-game world (or of the last in which the category was not shared), and none
   before there was one.
   */
  lemma {:induction false} TotalsAreMainGame(polls: seq<Account>)
    requires polls != []
    ensures var last := SectionsOf(polls)[|polls| - 1];
            && last.meta.Some?
            && TotalFrom(polls, STATS, TotalLevelOf, last.meta.value.totalLevel)
            && TotalFrom(polls, STATS, OverallXpOf, last.meta.value.overallXp)
            && TotalFrom(polls, INVENTORY, InventoryWorthOf, last.meta.value.inventoryValue)
            && TotalFrom(polls, EQUIPMENT, EquipmentWorthOf, last.meta.value.equipmentValue)
    decreases |polls|
  {
    var n := |polls| - 1;
    var (before, account) := (polls[..n], polls[n]);
    var meta := if n == 0 then HubMeta("", [], None, None, None, None, false, false)
                else SectionsOf(before)[n - 1].meta.GetOr(HubMeta("", [], None, None, None, None, false, false));
    if n > 0 {
      TotalsAreMainGame(before);
    }
    assert polls == before + [account];
    TotalOfOneMore(before, account, STATS, TotalLevelOf, meta.totalLevel);
    TotalOfOneMore(before, account, STATS, OverallXpOf, meta.overallXp);
    TotalOfOneMore(before, account, INVENTORY, InventoryWorthOf, meta.inventoryValue);
    TotalOfOneMore(before, account, EQUIPMENT, EquipmentWorthOf, meta.equipmentValue);
  }
}
