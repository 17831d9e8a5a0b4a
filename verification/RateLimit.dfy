/**
 The client's own budget of requests to the hub: a sliding window of a minute, with a
 share of it kept free for the sync (server/src/hub/client.rs). Times are in milliseconds.
 */
module RateLimit {
  import opened Options

  const BUDGET_WINDOW: nat := 60_000

  datatype Priority = Sync | Interactive

  function Min(m: nat, n: nat): nat {
    if m <= n then m else n
  }

  function Max(m: nat, n: nat): nat {
    if m <= n then n else m
  }

  /** How much of a minute's budget only the sync may use. */
  function InteractiveReserve(perMin: nat): nat {
    Min(Max(perMin / 4, 10), perMin / 2)
  }

  /** How many requests a minute may have had before one of this priority, plus that one. */
  function Limit(perMin: nat, priority: Priority): nat {
    if priority.Sync? then perMin
    else
      assert InteractiveReserve(perMin) <= perMin;  // the subtraction never underflows
      perMin - InteractiveReserve(perMin)
  }

  /** Interactive requests may use at least half of any budget there is, and never more than the sync may. */
  lemma EveryoneGetsAShare(perMin: nat)
    requires perMin > 0
    ensures 0 < Limit(perMin, Interactive) <= Limit(perMin, Sync)
    ensures Limit(perMin, Interactive) >= Limit(perMin, Sync) - Limit(perMin, Interactive)
    ensures perMin >= 40 ==> Limit(perMin, Sync) - Limit(perMin, Interactive) == perMin / 4
    ensures 20 <= perMin < 40 ==> Limit(perMin, Sync) - Limit(perMin, Interactive) == 10
    ensures perMin < 20 ==> Limit(perMin, Sync) - Limit(perMin, Interactive) == perMin / 2
  {
  }

  /** How long ago something was, nothing when it is yet to come. */
  function Since(now: nat, at: nat): nat {
    if now < at then 0 else now - at
  }

  /** What is left of the requests sent once those from a minute ago and before are forgotten. */
  function Recent(sent: seq<nat>, now: nat): seq<nat> {
    if sent != [] && Since(now, sent[0]) >= BUDGET_WINDOW then Recent(sent[1..], now) else sent
  }

  /** What a client knows of its requests: when they were sent, until when the hub wants none, and how many it may send. */
  datatype Budget = Budget(sent: seq<nat>, blockedUntil: Option<nat>, perMin: nat)

  /** Granted, or how long to wait. */
  datatype Verdict = Granted | RetryAfter(wait: nat)

  function Acquired(b: Budget, priority: Priority, now: nat): (Budget, Verdict) {
    if b.blockedUntil.Some? && b.blockedUntil.value > now then (b, RetryAfter(b.blockedUntil.value - now))
    else
      var sent := Recent(b.sent, now);
      var waiting := b.(blockedUntil := None, sent := sent);
      if |sent| >= Limit(b.perMin, priority) then
        (waiting, RetryAfter(if sent == [] then BUDGET_WINDOW else Since(BUDGET_WINDOW, Since(now, sent[0]))))
      else
        (waiting.(sent := sent + [now]), Granted)
  }

  function BlockedFor(b: Budget, duration: nat, now: nat): Budget {
    if b.blockedUntil.None? || b.blockedUntil.value < now + duration then b.(blockedUntil := Some(now + duration)) else b
  }

  class HubClient {
    var sent: seq<nat>
    var blockedUntil: Option<nat>
    var budgetPerMin: nat

    function Contents(): Budget
      reads this
    {
      Budget(sent, blockedUntil, budgetPerMin)
    }

    constructor (perMin: nat)
      ensures Contents() == Budget([], None, perMin)
    {
      sent, blockedUntil, budgetPerMin := [], None, perMin;
    }

    method SetBudgetPerMin(perMin: nat)
      modifies this`budgetPerMin
      ensures Contents() == old(Contents()).(perMin := Max(perMin, 1))
    {
      budgetPerMin := Max(perMin, 1);
    }

    /** Grants a request, or tells after which time to ask again. */
    method Acquire(priority: Priority, now: nat) returns (verdict: Verdict)
      modifies this`sent, this`blockedUntil
      ensures (Contents(), verdict) == Acquired(old(Contents()), priority, now)
    {
      if blockedUntil.Some? {
        if blockedUntil.value > now {
          return RetryAfter(blockedUntil.value - now);
        }
        blockedUntil := None;
      }
      while sent != [] && Since(now, sent[0]) >= BUDGET_WINDOW
        invariant Recent(sent, now) == Recent(old(sent), now)
        invariant blockedUntil == None
        decreases |sent|
      {
        sent := sent[1..];
      }
      var limit := Limit(budgetPerMin, priority);
      if |sent| >= limit {
        var wait := if sent == [] then BUDGET_WINDOW else Since(BUDGET_WINDOW, Since(now, sent[0]));
        return RetryAfter(wait);
      }
      sent := sent + [now];
      return Granted;
    }

    method BlockFor(duration: nat, now: nat)
      modifies this`blockedUntil
      ensures Contents() == BlockedFor(old(Contents()), duration, now)
    {
      if blockedUntil.None? || blockedUntil.value < now + duration {
        blockedUntil := Some(now + duration);
      }
    }
  }

  // ----- Runs -----

  /** A request that was granted, and the budget there was then. */
  datatype Grant = Grant(at: nat, priority: Priority, perMin: nat)

  /** That the hub wanted no requests until some time, from the grant on that would have been number `from`. */
  datatype Block = Block(until: nat, from: nat)

  /** A client with a clock and all that ever happened; `forgotten` of the grants are no longer counted. */
  datatype World = World(now: nat, budget: Budget, grants: seq<Grant>, forgotten: nat, blocks: seq<Block>)

  datatype Event = Pass(ms: nat) | Ask(priority: Priority) | SetBudget(perMin: nat) | Blocking(duration: nat)

  function Started(perMin: nat): World {
    World(0, Budget([], None, perMin), [], 0, [])
  }

  function After(w: World, event: Event): World {
    match event
    case Pass(ms) => w.(now := w.now + ms)
    case SetBudget(perMin) => w.(budget := w.budget.(perMin := Max(perMin, 1)))
    case Blocking(duration) =>
      w.(budget := BlockedFor(w.budget, duration, w.now), blocks := w.blocks + [Block(w.now + duration, |w.grants|)])
    case Ask(priority) =>
      var (budget, verdict) := Acquired(w.budget, priority, w.now);
      var grants := if verdict.Granted? then w.grants + [Grant(w.now, priority, w.budget.perMin)] else w.grants;
      w.(budget := budget, grants := grants,
         forgotten := if |budget.sent| <= |grants| then |grants| - |budget.sent| else 0)
  }

  function Happened(w: World, events: seq<Event>): World {
    if events == [] then w else After(Happened(w, events[..|events| - 1]), events[|events| - 1])
  }

  // ----- What every event keeps -----

  /** The budget counts the grants from `forgotten` on, in order; those before were a minute ago or more. */
  ghost predicate Counted(w: World) {
    && |w.budget.sent| + w.forgotten == |w.grants|
    && (forall i | w.forgotten <= i < |w.grants| :: w.budget.sent[i - w.forgotten] == w.grants[i].at)
    && (forall i | 0 <= i < w.forgotten :: w.grants[i].at + BUDGET_WINDOW <= w.now)
    && (forall i | 0 <= i < |w.grants| :: w.grants[i].at <= w.now)
    && (forall i, j | 0 <= i <= j < |w.grants| :: w.grants[i].at <= w.grants[j].at)
  }

  /** No window shorter than a minute has had more grants than its last one was allowed to see. */
  ghost predicate WithinLimits(grants: seq<Grant>) {
    forall i, j | 0 <= i <= j < |grants| && grants[j].at < grants[i].at + BUDGET_WINDOW ::
      j - i + 1 <= Limit(grants[j].perMin, grants[j].priority)
  }

  /** Nothing was granted while the hub wanted nothing, and what it still doesn't want is known. */
  ghost predicate BlocksKept(w: World) {
    && (forall b | b in w.blocks :: b.from <= |w.grants|)
    && (forall b, i | b in w.blocks && b.from <= i < |w.grants| :: w.grants[i].at >= b.until)
    && (forall b | b in w.blocks :: b.until <= w.now || (w.budget.blockedUntil.Some? && b.until <= w.budget.blockedUntil.value))
  }

  ghost predicate Kept(w: World) {
    Counted(w) && WithinLimits(w.grants) && BlocksKept(w)
  }

  lemma {:induction false} RecentForgets(sent: seq<nat>, now: nat)
    ensures var r := Recent(sent, now);
            && |r| <= |sent| && r == sent[|sent| - |r|..]
            && (forall i | 0 <= i < |sent| - |r| :: sent[i] + BUDGET_WINDOW <= now)
            && (r != [] ==> now < r[0] + BUDGET_WINDOW)
    decreases |sent|
  {
    if sent != [] && Since(now, sent[0]) >= BUDGET_WINDOW {
      RecentForgets(sent[1..], now);
    }
  }

  /** The world once the requests of a minute ago are forgotten. */
  lemma ForgettingKeepsCount(w: World, forgotten: nat)
    requires Counted(w)
    requires forgotten == |w.grants| - |Recent(w.budget.sent, w.now)|
    ensures Counted(w.(budget := w.budget.(sent := Recent(w.budget.sent, w.now), blockedUntil := None), forgotten := forgotten))
    ensures forall i | 0 <= i < |w.grants| && w.now < w.grants[i].at + BUDGET_WINDOW :: forgotten <= i
  {
    RecentForgets(w.budget.sent, w.now);
    var r := Recent(w.budget.sent, w.now);
    forall i | 0 <= i < forgotten
      ensures w.grants[i].at + BUDGET_WINDOW <= w.now
    {
      if i >= w.forgotten {
        assert w.budget.sent[i - w.forgotten] == w.grants[i].at;
      }
    }
    forall i | forgotten <= i < |w.grants|
      ensures r[i - forgotten] == w.grants[i].at
    {
      assert r[i - forgotten] == w.budget.sent[i - w.forgotten];
    }
  }

  /** The world when a request is not held up by a block: the slots of a minute ago are free again. */
  ghost function Cleared(w: World): (r: World)
    requires Counted(w)
  {
    var sent := Recent(w.budget.sent, w.now);
    RecentForgets(w.budget.sent, w.now);
    w.(budget := w.budget.(sent := sent, blockedUntil := None), forgotten := |w.grants| - |sent|)
  }

  lemma ClearingKeeps(w: World)
    requires Kept(w) && (w.budget.blockedUntil.Some? ==> w.budget.blockedUntil.value <= w.now)
    ensures Kept(Cleared(w))
    ensures forall i | 0 <= i < |w.grants| && w.now < w.grants[i].at + BUDGET_WINDOW :: Cleared(w).forgotten <= i
  {
    RecentForgets(w.budget.sent, w.now);
    ForgettingKeepsCount(w, |w.grants| - |Recent(w.budget.sent, w.now)|);
  }

  lemma AskKeeps(w: World, priority: Priority)
    requires Kept(w)
    ensures Kept(After(w, Ask(priority)))
  {
    if w.budget.blockedUntil.Some? && w.budget.blockedUntil.value > w.now {
      assert After(w, Ask(priority)) == w;
    } else {
      var cleared := Cleared(w);
      ClearingKeeps(w);
      if |cleared.budget.sent| < Limit(w.budget.perMin, priority) {
        GrantKeeps(cleared, priority);
        assert After(w, Ask(priority)) ==
          cleared.(budget := cleared.budget.(sent := cleared.budget.sent + [w.now]),
                   grants := w.grants + [Grant(w.now, priority, w.budget.perMin)]);
      } else {
        assert After(w, Ask(priority)) == cleared;
      }
    }
  }

  lemma GrantKeepsLimits(w: World, priority: Priority)
    requires Counted(w) && WithinLimits(w.grants) && |w.budget.sent| < Limit(w.budget.perMin, priority)
    requires forall i | 0 <= i < |w.grants| && w.now < w.grants[i].at + BUDGET_WINDOW :: w.forgotten <= i
    ensures WithinLimits(w.grants + [Grant(w.now, priority, w.budget.perMin)])
  {
  }

  lemma GrantKeepsCount(w: World, grant: Grant)
    requires Counted(w) && grant.at == w.now
    ensures Counted(w.(budget := w.budget.(sent := w.budget.sent + [w.now]), grants := w.grants + [grant]))
  {
  }

  lemma GrantKeepsBlocks(w: World, grant: Grant)
    requires BlocksKept(w) && w.budget.blockedUntil.None? && grant.at == w.now
    ensures BlocksKept(w.(budget := w.budget.(sent := w.budget.sent + [w.now]), grants := w.grants + [grant]))
  {
  }

  /** A grant when there is room in the last minute. */
  lemma GrantKeeps(w: World, priority: Priority)
    requires Kept(w) && w.budget.blockedUntil.None? && |w.budget.sent| < Limit(w.budget.perMin, priority)
    requires forall i | 0 <= i < |w.grants| && w.now < w.grants[i].at + BUDGET_WINDOW :: w.forgotten <= i
    ensures Kept(w.(budget := w.budget.(sent := w.budget.sent + [w.now]),
                    grants := w.grants + [Grant(w.now, priority, w.budget.perMin)]))
  {
    GrantKeepsLimits(w, priority);
    GrantKeepsCount(w, Grant(w.now, priority, w.budget.perMin));
    GrantKeepsBlocks(w, Grant(w.now, priority, w.budget.perMin));
  }

  lemma EventKeeps(w: World, event: Event)
    requires Kept(w)
    ensures Kept(After(w, event))
  {
    match event
    case Ask(priority) => AskKeeps(w, priority);
    case _ =>
  }

  lemma {:induction false} RunKeeps(perMin: nat, events: seq<Event>)
    ensures Kept(Happened(Started(perMin), events))
    decreases |events|
  {
    if events != [] {
      RunKeeps(perMin, events[..|events| - 1]);
      EventKeeps(Happened(Started(perMin), events[..|events| - 1]), events[|events| - 1]);
    }
  }

  /**
   Over any run: all grants in a window shorter than a minute, its last one included,
   number at most what that last one's priority is allowed of the budget there was then.
   */
  lemma WindowsStayWithinBudget(perMin: nat, events: seq<Event>, i: nat, j: nat)
    requires var grants := Happened(Started(perMin), events).grants;
             i <= j < |grants| && grants[j].at < grants[i].at + BUDGET_WINDOW
    ensures var grants := Happened(Started(perMin), events).grants;
            j - i + 1 <= Limit(grants[j].perMin, grants[j].priority)
  {
    RunKeeps(perMin, events);
  }

  /** Over any run: once the hub has asked for none, no request is granted until the time it named, whatever else it asks. */
  lemma NothingWhileBlocked(perMin: nat, before: seq<Event>, duration: nat, after: seq<Event>, i: nat)
    requires var w := Happened(Started(perMin), before);
             |w.grants| <= i < |Happened(Started(perMin), before + [Blocking(duration)] + after).grants|
    ensures var w := Happened(Started(perMin), before);
            Happened(Started(perMin), before + [Blocking(duration)] + after).grants[i].at >= w.now + duration
  {
    var events := before + [Blocking(duration)] + after;
    var w := Happened(Started(perMin), before);
    var block := Block(w.now + duration, |w.grants|);
    assert (before + [Blocking(duration)])[..|before|] == before;
    BlocksStay(perMin, before + [Blocking(duration)], after, block);
    RunKeeps(perMin, events);
  }

  lemma {:induction false} BlocksStay(perMin: nat, before: seq<Event>, after: seq<Event>, block: Block)
    requires block in Happened(Started(perMin), before).blocks
    ensures block in Happened(Started(perMin), before + after).blocks
    decreases |after|
  {
    if after == [] {
      assert before + after == before;
    } else {
      var n := |after| - 1;
      BlocksStay(perMin, before, after[..n], block);
      assert (before + after)[..|before| + n] == before + after[..n];
    }
  }

  /**
   A request is refused for the budget only when the last minute really had that many, and
   the wait it is told is when the oldest of those is a minute ago.
   */
  lemma RefusedWhenFull(perMin: nat, events: seq<Event>, priority: Priority)
    requires var w := Happened(Started(perMin), events);
             && !(w.budget.blockedUntil.Some? && w.budget.blockedUntil.value > w.now)
             && Acquired(w.budget, priority, w.now).1.RetryAfter?
    ensures var w := Happened(Started(perMin), events);
            var n := |Acquired(w.budget, priority, w.now).0.sent|;
            var wait := Acquired(w.budget, priority, w.now).1.wait;
            && Limit(w.budget.perMin, priority) <= n <= |w.grants|
            && (forall i | |w.grants| - n <= i < |w.grants| :: w.now < w.grants[i].at + BUDGET_WINDOW)
            && (n > 0 ==> w.now + wait == w.grants[|w.grants| - n].at + BUDGET_WINDOW)
  {
    var w := Happened(Started(perMin), events);
    RunKeeps(perMin, events);
    RecentForgets(w.budget.sent, w.now);
    var sent := Recent(w.budget.sent, w.now);
    ForgettingKeepsCount(w, |w.grants| - |sent|);
    if sent != [] {
      assert sent[0] == w.grants[|w.grants| - |sent|].at;
    }
  }

  // ----- What a block tells -----

  ghost predicate BlockIsNamed(w: World) {
    w.budget.blockedUntil.Some? ==> exists b :: b in w.blocks && b.until == w.budget.blockedUntil.value
  }

  lemma EventKeepsNamed(w: World, event: Event)
    requires BlockIsNamed(w)
    ensures BlockIsNamed(After(w, event))
  {
    var t := After(w, event);
    if event.Blocking? {
      var block := Block(w.now + event.duration, |w.grants|);
      assert t.blocks == w.blocks + [block] && block in t.blocks;
    }
    if w.budget.blockedUntil.Some? {
      var b :| b in w.blocks && b.until == w.budget.blockedUntil.value;
      assert b in t.blocks;
    }
  }

  lemma {:induction false} RunKeepsNamed(perMin: nat, events: seq<Event>)
    ensures BlockIsNamed(Happened(Started(perMin), events))
    decreases |events|
  {
    if events != [] {
      RunKeepsNamed(perMin, events[..|events| - 1]);
      EventKeepsNamed(Happened(Started(perMin), events[..|events| - 1]), events[|events| - 1]);
    }
  }

  /** Whether the hub still wants no requests for so long, and not for longer. */
  ghost predicate LastsFor(w: World, wait: nat) {
    && (exists b :: b in w.blocks && b.until == w.now + wait)
    && (forall b | b in w.blocks :: b.until <= w.now + wait)
  }

  /** Over any run: while the hub wants none, any request is told exactly how long that still lasts, and nothing changes. */
  lemma ToldWhenBlocked(perMin: nat, events: seq<Event>, priority: Priority, block: Block)
    requires var w := Happened(Started(perMin), events); block in w.blocks && block.until > w.now
    ensures var w := Happened(Started(perMin), events);
            var (after, verdict) := Acquired(w.budget, priority, w.now);
            after == w.budget && verdict.RetryAfter? && LastsFor(w, verdict.wait)
  {
    RunKeeps(perMin, events);
    RunKeepsNamed(perMin, events);
  }

  /** And once all of that is over, it is granted unless the last minute is full. */
  lemma GrantedWhenFree(perMin: nat, events: seq<Event>, priority: Priority)
    requires var w := Happened(Started(perMin), events);
             && (forall b | b in w.blocks :: b.until <= w.now)
             && |Recent(w.budget.sent, w.now)| < Limit(w.budget.perMin, priority)
    ensures var w := Happened(Started(perMin), events); Acquired(w.budget, priority, w.now).1.Granted?
  {
    RunKeepsNamed(perMin, events);
  }
}
