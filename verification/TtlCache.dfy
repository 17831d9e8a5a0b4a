/**
 The cache of hub answers (server/src/hub/cache.rs): its atomic sections.

 Times are in milliseconds. A lock is an identity: what tasks that share one have in
 common. How tasks interleave is in SingleFlight.
 */
module TtlCache {
  import opened Options

  const MAX_ENTRIES: nat := 2000
  const MAX_STALE: nat := 3_600_000

  /** What a fetch gave: which answer it is does not matter here. */
  type Value = int
  type LockId = nat

  datatype Entry = Entry(storedAt: nat, value: Value)
  datatype Found = Found(value: Value, age: nat)

  type Entries = map<string, Entry>

  /** How long ago an entry was stored; a clock that reads earlier than it counts as no time at all. */
  function Age(entry: Entry, now: nat): nat {
    if now < entry.storedAt then 0 else now - entry.storedAt
  }

  function Lookup(entries: Entries, key: string, maxAge: nat, now: nat): Option<Found> {
    if key in entries && Age(entries[key], now) < maxAge then Some(Found(entries[key].value, Age(entries[key], now)))
    else None
  }

  /** Unless it was stored later than that, an entry is found exactly until it is as old as asked, and it says when it was stored. */
  lemma FoundExactly(entries: Entries, key: string, maxAge: nat, now: nat)
    requires key in entries ==> entries[key].storedAt <= now
    ensures match Lookup(entries, key, maxAge, now)
      case None => key in entries ==> entries[key].storedAt + maxAge <= now
      case Some(found) =>
        key in entries && now < entries[key].storedAt + maxAge
        && found.value == entries[key].value && entries[key].storedAt + found.age == now
  {
  }

  /** The entries before a new one is stored: when there are too many, the stale ones go, and then all of them. */
  function MadeRoom(entries: Entries, now: nat): (r: Entries) {
    if |entries| < MAX_ENTRIES then entries
    else
      var retained := map key | key in entries && Age(entries[key], now) < MAX_STALE :: entries[key];
      if |retained| < MAX_ENTRIES then retained else map[]
  }

  function Stored(entries: Entries, key: string, value: Value, now: nat): Entries {
    MadeRoom(entries, now)[key := Entry(now, value)]
  }

  /** Storing never leaves more entries than there may be, keeps the new one, and changes no other. */
  lemma StoredFits(entries: Entries, key: string, value: Value, now: nat)
    ensures var r := Stored(entries, key, value, now);
            && |entries| <= MAX_ENTRIES ==> |r| <= MAX_ENTRIES
    ensures var r := Stored(entries, key, value, now);
            && r[key] == Entry(now, value)
            && forall k | k in r && k != key :: k in entries && r[k] == entries[k]
  {
    var before := MadeRoom(entries, now);
    var r := Stored(entries, key, value, now);
    assert r.Keys == before.Keys + {key};
    assert |r.Keys| <= |before.Keys| + 1;
  }

  /** The keys of the entries younger than an hour. */
  function Young(entries: Entries, now: nat): set<string> {
    set k | k in entries && Age(entries[k], now) < MAX_STALE
  }

  /** An entry stays unless there are too many, and it is stale or too many are not. */
  lemma StoredKeeps(entries: Entries, key: string, value: Value, now: nat, other: string)
    requires other != key
    ensures other in Stored(entries, key, value, now) <==>
            && other in entries
            && (|entries| < MAX_ENTRIES || (|Young(entries, now)| < MAX_ENTRIES && other in Young(entries, now)))
  {
    var retained := map k | k in entries && Age(entries[k], now) < MAX_STALE :: entries[k];
    assert retained.Keys == Young(entries, now);
    assert |retained| == |retained.Keys|;
  }

  // ----- The table of locks -----

  type InFlight = map<string, LockId>

  /** The lock a task gets, and the table with it. */
  datatype Taken = Taken(lock: LockId, inFlight: InFlight, nextLock: LockId)

  function TakenFrom(inFlight: InFlight, nextLock: LockId, key: string): Taken {
    if key in inFlight then Taken(inFlight[key], inFlight, nextLock)
    else Taken(nextLock, inFlight[key := nextLock], nextLock + 1)
  }

  /** The table once a task looked whether it may forget a key's lock, to which so many refer. */
  function Kept(inFlight: InFlight, key: string, strongCount: nat): InFlight {
    if strongCount <= 2 then inFlight - {key} else inFlight
  }

  /** Every key has a lock of its own, and the next lock is none of those. */
  ghost predicate OwnLocks(inFlight: InFlight, nextLock: LockId) {
    && (forall k | k in inFlight :: inFlight[k] < nextLock)
    && (forall k, l | k in inFlight && l in inFlight && inFlight[k] == inFlight[l] :: k == l)
  }

  class Cache {
    var entries: Entries
    var inFlight: InFlight
    var nextLock: LockId

    ghost predicate Valid()
      reads this
    {
      OwnLocks(inFlight, nextLock)
    }

    constructor ()
      ensures Valid() && entries == map[] && inFlight == map[] && nextLock == 0
    {
      entries, inFlight, nextLock := map[], map[], 0;
    }

    method LookUp(key: string, maxAge: nat, now: nat) returns (r: Option<Found>)
      ensures r == Lookup(entries, key, maxAge, now)
    {
      if key !in entries {
        return None;
      }
      var entry := entries[key];
      var age := Age(entry, now);
      if age < maxAge {
        return Some(Found(entry.value, age));
      }
      return None;
    }

    method Store(key: string, value: Value, now: nat)
      modifies this`entries
      ensures entries == Stored(old(entries), key, value, now)
    {
      if |entries| >= MAX_ENTRIES {
        entries := map k | k in entries && Age(entries[k], now) < MAX_STALE :: entries[k];
        if |entries| >= MAX_ENTRIES {
          entries := map[];
        }
      }
      entries := entries[key := Entry(now, value)];
    }

    /** The lock of a key, one that no other key has; a new one when there is none. */
    method TakeLock(key: string) returns (lock: LockId)
      requires Valid()
      modifies this`inFlight, this`nextLock
      ensures Valid() && TakenFrom(old(inFlight), old(nextLock), key) == Taken(lock, inFlight, nextLock)
      ensures key in inFlight && forall k | k in inFlight :: inFlight[k] == lock <==> k == key
      ensures key !in old(inFlight) ==> forall k | k in old(inFlight) :: old(inFlight[k]) != lock
    {
      if key in inFlight {
        lock := inFlight[key];
      } else {
        lock := nextLock;
        nextLock := nextLock + 1;
        inFlight := inFlight[key := lock];
      }
    }

    /**
     Lets the table forget the lock of a key when nobody refers to it but the table, if it has
     it, and the caller: it keeps the lock exactly when any of `others` refers to it.
     */
    method ReleaseLock(key: string, strongCount: nat, ghost others: nat)
      requires Valid() && strongCount == others + 1 + if key in inFlight then 1 else 0
      modifies this`inFlight
      ensures Valid() && inFlight == Kept(old(inFlight), key, strongCount)
      ensures key in inFlight <==> key in old(inFlight) && others > 0
      ensures forall k | k != key :: (k in inFlight <==> k in old(inFlight)) && (k in inFlight ==> inFlight[k] == old(inFlight[k]))
    {
      if strongCount <= 2 {
        inFlight := inFlight - {key};
      }
    }
  }
}
