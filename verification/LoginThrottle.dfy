/**
 The login throttle: a bounded table of failure counts for accounts and client addresses.
 Times are seconds as reals. The eviction order leaves ties open, so what is proved holds for
 every order of insertion.
 */
module LoginThrottle {
  import opened Wrappers
  import opened Decimal
  import opened FiniteSets

  /** The digests: the kind is part of what is hashed, so the two kinds never meet. */
  datatype Key = Account(name: string) | Client(address: string)

  datatype Entry = Entry(failures: nat, windowStarted: real, lockedUntil: real, lastSeen: real)

  type Table = map<Key, Entry>

  datatype Settings = Settings(accountLimit: nat, clientLimit: nat, window: real, lock: real, maxEntries: nat) {
    /** The bounds of the configuration. */
    predicate Valid() {
      3 <= accountLimit <= 20 && 5 <= clientLimit <= 200 && 60.0 <= window && 60.0 <= lock && 128 <= maxEntries
    }

    function Limit(key: Key): nat {
      if key.Account? then accountLimit else clientLimit
    }

    function Expiry(): real {
      2.0 * (if window > lock then window else lock)
    }
  }

  // ---------------------------------------------------------------- pruning

  predicate Locked(e: Entry, now: real) {
    e.lockedUntil > now
  }

  predicate Stale(cfg: Settings, e: Entry, now: real) {
    !Locked(e, now) && now - e.lastSeen > cfg.Expiry()
  }

  function Live(cfg: Settings, s: Table, now: real): Table {
    map key | key in s && !Stale(cfg, s[key], now) :: s[key]
  }

  /** The eviction order: unlocked first, then fewer failures, then longer ago. */
  predicate Before(a: Entry, b: Entry, now: real) {
    if Locked(a, now) != Locked(b, now) then Locked(b, now)
    else if a.failures != b.failures then a.failures < b.failures
    else a.lastSeen < b.lastSeen
  }

  /** `kept` is part of `s`, and nothing in it goes before what was evicted. */
  predicate Keeps(s: Table, now: real, kept: Table) {
    && kept.Keys <= s.Keys
    && (forall key :: key in kept ==> kept[key] == s[key])
    && (forall key, gone :: key in kept && gone in s && gone !in kept ==> !Before(s[key], s[gone], now))
  }

  /** `kept` is `s` without its n first entries in the eviction order. */
  predicate Evicts(s: Table, now: real, n: nat, kept: Table) {
    Keeps(s, now, kept) && |s| == |kept| + n
  }

  function Overflow(cfg: Settings, s: Table): nat {
    if |s| > cfg.maxEntries then |s| - cfg.maxEntries else 0
  }

  /** What `_prune` leaves: within the bound, and everything live unless the bound is reached. */
  predicate Pruned(cfg: Settings, s: Table, now: real, kept: Table) {
    var live := Live(cfg, s, now);
    Keeps(live, now, kept) && |kept| <= cfg.maxEntries && (|kept| < cfg.maxEntries ==> kept == live)
  }

  function LockedKeys(s: Table, now: real): set<Key> {
    set key | key in s && Locked(s[key], now)
  }

  /** A prune evicts exactly the overflow of the live entries, the first ones in the eviction order. */
  lemma PrunedIffEvicts(cfg: Settings, s: Table, now: real, kept: Table)
    ensures var live := Live(cfg, s, now);
      Pruned(cfg, s, now, kept) <==> Evicts(live, now, Overflow(cfg, live), kept)
  {
    var live := Live(cfg, s, now);
    assert |kept.Keys| == |kept| && |live.Keys| == |live|;
    if kept.Keys <= live.Keys {
      SubsetSize(kept.Keys, live.Keys);
      SubsetOfSameSize(kept.Keys, live.Keys);
    }
  }

  /** No locked entry is evicted while an unlocked one survives. */
  lemma EvictedOnlyAmongLocked(live: Table, now: real, kept: Table, gone: Key)
    requires Keeps(live, now, kept) && gone in live && gone !in kept && Locked(live[gone], now)
    ensures forall key :: key in kept ==> Locked(kept[key], now)
    ensures |LockedKeys(live, now)| > |kept|
  {
    forall key | key in kept ensures Locked(kept[key], now) {
      assert !Before(live[key], live[gone], now);
    }
    SubsetSize(kept.Keys + {gone}, LockedKeys(live, now));
    assert |kept.Keys| == |kept|;
  }

  // ---------------------------------------------------------------- who is evicted

  /** The entries that go before this one. */
  function Ahead(s: Table, now: real, key: Key): set<Key>
    requires key in s
  {
    set other | other in s && Before(s[other], s[key], now)
  }

  lemma EvictedCount(s: Table, kept: Table, n: nat)
    requires kept.Keys <= s.Keys && |s| == |kept| + n
    ensures |s.Keys - kept.Keys| == n
  {
    assert s.Keys == kept.Keys + (s.Keys - kept.Keys);
    assert |s.Keys| == |s| && |kept.Keys| == |kept|;
  }

  /** What goes before an evicted entry is evicted too. */
  lemma AheadIsGone(s: Table, now: real, kept: Table, key: Key)
    requires Keeps(s, now, kept) && key in s && key !in kept
    ensures Ahead(s, now, key) + {key} <= s.Keys - kept.Keys
  {
  }

  /** A set of entries that may all go before the rest. */
  predicate Leads(s: Table, now: real, first: set<Key>) {
    first <= s.Keys && forall a, b :: a in first && b in s.Keys - first ==> !Before(s[b], s[a], now)
  }

  /** What does not go before b, which does not go before c, does not go before c. */
  lemma NotBeforeEither(a: Entry, b: Entry, c: Entry, now: real)
    requires !Before(a, b, now) && !Before(b, c, now)
    ensures !Before(a, c, now)
  {
  }

  lemma {:induction false} First(s: Table, now: real, keys: set<Key>) returns (least: Key)
    requires keys != {} && keys <= s.Keys
    ensures least in keys && forall other :: other in keys ==> !Before(s[other], s[least], now)
  {
    var key :| key in keys;
    var rest := keys - {key};
    if rest == {} {
      least := key;
      assert keys == {key};
    } else {
      var second := First(s, now, rest);
      least := if Before(s[second], s[key], now) then second else key;
      forall other | other in keys ensures !Before(s[other], s[least], now) {
        if other in rest {
          NotBeforeEither(s[other], s[second], s[least], now);
        } else {
          assert other == key;
        }
      }
    }
  }

  lemma {:induction false} ExtendLead(s: Table, now: real, first: set<Key>, n: nat) returns (more: set<Key>)
    requires Leads(s, now, first) && |first| <= n <= |s|
    ensures Leads(s, now, more) && first <= more && |more| == n
    decreases n - |first|
  {
    if |first| == n {
      more := first;
    } else {
      assert |s.Keys| == |s|;
      var rest := s.Keys - first;
      if rest == {} {
        SubsetSize(s.Keys, first);
      }
      var least := First(s, now, rest);
      more := ExtendLead(s, now, first + {least}, n);
    }
  }

  lemma CanBeEvicted(s: Table, now: real, n: nat, key: Key) returns (kept: Table)
    requires key in s && |Ahead(s, now, key)| < n <= |s|
    ensures Evicts(s, now, n, kept) && key !in kept
  {
    var gone := ExtendLead(s, now, Ahead(s, now, key) + {key}, n);
    kept := map k | k in s && k !in gone :: s[k];
    assert kept.Keys == s.Keys - gone;
    assert s.Keys == kept.Keys + gone && |s.Keys| == |s| && |kept.Keys| == |kept|;
  }

  /** Whatever the order among ties, the entry is not among the n evicted. */
  ghost predicate AlwaysSurvives(s: Table, now: real, n: nat, key: Key) {
    forall kept :: Evicts(s, now, n, kept) ==> key in kept
  }

  /** An entry survives whatever the order among ties exactly when enough others strictly go before it. */
  lemma AlwaysSurvivesIff(s: Table, now: real, n: nat, key: Key)
    requires key in s && n <= |s|
    ensures AlwaysSurvives(s, now, n, key) <==> |Ahead(s, now, key)| >= n
  {
    if |Ahead(s, now, key)| >= n {
      forall kept | Evicts(s, now, n, kept) ensures key in kept {
        EvictedCount(s, kept, n);
        if key !in kept {
          AheadIsGone(s, now, kept, key);
          SubsetSize(Ahead(s, now, key) + {key}, s.Keys - kept.Keys);
        }
      }
    } else {
      var kept := CanBeEvicted(s, now, n, key);
    }
  }

  // ---------------------------------------------------------------- failures, locks and runs

  /** What one failure makes of one entry. */
  function Counted(cfg: Settings, s: Table, key: Key, now: real): Entry {
    var e := if key in s && now - s[key].windowStarted < cfg.window then s[key] else Entry(0, now, 0.0, now);
    var failures := e.failures + 1;
    var lockedUntil := if failures >= cfg.Limit(key) && now + cfg.lock > e.lockedUntil then now + cfg.lock
                       else e.lockedUntil;
    Entry(failures, e.windowStarted, lockedUntil, now)
  }

  function Failed(cfg: Settings, s: Table, name: string, address: string, now: real): Table {
    s[Account(name) := Counted(cfg, s, Account(name), now)][Client(address) := Counted(cfg, s, Client(address), now)]
  }

  function RemainingOf(s: Table, key: Key, now: real): real {
    if key in s && s[key].lockedUntil > now then s[key].lockedUntil - now else 0.0
  }

  function Remaining(s: Table, name: string, address: string, now: real): real {
    var a, c := RemainingOf(s, Account(name), now), RemainingOf(s, Client(address), now);
    if a > c then a else c
  }

  /**
   `int(remaining + 0.999)`: positive exactly when at least a millisecond remains, and then the
   seconds reported suffice up to that millisecond.
   */
  function WholeSeconds(remaining: real): (r: nat)
    requires remaining >= 0.0
    ensures r > 0 <==> remaining >= 0.001
    ensures remaining - 0.001 < r as real <= remaining + 0.999
  {
    (remaining + 0.999).Floor
  }

  /** The table's own steps; each operation is a sequence of them under one lock. */
  datatype Step = Prune(now: real) | Fail(name: string, address: string, now: real) | Succeed(name: string) | Reset

  predicate Next(cfg: Settings, s: Table, step: Step, s': Table) {
    match step
    case Prune(now) => Pruned(cfg, s, now, s')
    case Fail(name, address, now) => s' == Failed(cfg, s, name, address, now)
    case Succeed(name) => s' == s - {Account(name)}
    case Reset => s' == map[]
  }

  predicate IsRun(cfg: Settings, tables: seq<Table>, steps: seq<Step>) {
    |tables| == |steps| + 1 && forall i :: 0 <= i < |steps| ==> Next(cfg, tables[i], steps[i], tables[i + 1])
  }

  /** An entry is locked from its last failure on exactly when its failures reached the limit. */
  predicate EntryHolds(cfg: Settings, key: Key, e: Entry) {
    && (e.failures >= cfg.Limit(key) ==> e.lockedUntil >= e.lastSeen + cfg.lock)
    && (e.failures < cfg.Limit(key) ==> e.lockedUntil == 0.0)
    && e.failures > 0
  }

  predicate TableHolds(cfg: Settings, s: Table) {
    forall key :: key in s ==> EntryHolds(cfg, key, s[key])
  }

  lemma NextHolds(cfg: Settings, s: Table, step: Step, s': Table)
    requires TableHolds(cfg, s) && Next(cfg, s, step, s')
    ensures TableHolds(cfg, s')
  {
  }

  /** Over every run with fixed settings, in any order of times. */
  lemma {:induction false} TableAlwaysHolds(cfg: Settings, tables: seq<Table>, steps: seq<Step>)
    requires IsRun(cfg, tables, steps) && TableHolds(cfg, tables[0])
    ensures TableHolds(cfg, tables[|steps|])
  {
    if steps == [] {
    } else {
      var n := |steps| - 1;
      TableAlwaysHolds(cfg, tables[..n + 1], steps[..n]);
      NextHolds(cfg, tables[n], steps[n], tables[n + 1]);
    }
  }

  // ---------------------------------------------------------------- a lock lasts

  /** The step leaves a lock of this key alone, for a time that ends a millisecond before the lock does. */
  predicate Spares(cfg: Settings, s: Table, step: Step, key: Key, until: real) {
    match step
    case Prune(now) => now <= until - 0.001 && |LockedKeys(s, now)| <= cfg.maxEntries
    case Fail(name, address, now) => now <= until - 0.001 && WholeSeconds(Remaining(s, name, address, now)) == 0
    case Succeed(name) => key != Account(name)
    case Reset => false
  }

  predicate HasLock(s: Table, key: Key, until: real) {
    key in s && s[key].lockedUntil >= until
  }

  lemma LockStep(cfg: Settings, s: Table, step: Step, s': Table, key: Key, until: real)
    requires Next(cfg, s, step, s') && HasLock(s, key, until) && Spares(cfg, s, step, key, until)
    ensures HasLock(s', key, until)
  {
    match step {
      case Prune(now) =>
        if key !in s' {
          EvictedOnlyAmongLocked(Live(cfg, s, now), now, s', key);
          SubsetSize(LockedKeys(Live(cfg, s, now), now), LockedKeys(s, now));
        }
      case Fail(name, address, now) =>
        assert RemainingOf(s, key, now) >= 0.001;
      case _ =>
    }
  }

  /**
   When failures are recorded only for a pair that `retry_after` just let through, nobody clears
   the key, and no more entries than the bound are locked at once, a lock keeps `retry_after`
   positive, for every pair with that key, until a millisecond is left.
   */
  lemma {:induction false} LockLasts(cfg: Settings, tables: seq<Table>, steps: seq<Step>, key: Key, until: real)
    requires IsRun(cfg, tables, steps) && HasLock(tables[0], key, until)
    requires forall i :: 0 <= i < |steps| ==> Spares(cfg, tables[i], steps[i], key, until)
    ensures HasLock(tables[|steps|], key, until)
    ensures forall name, address, now :: (key == Account(name) || key == Client(address)) && now <= until - 0.001 ==>
      WholeSeconds(Remaining(tables[|steps|], name, address, now)) > 0
  {
    if steps == [] {
    } else {
      var n := |steps| - 1;
      LockLasts(cfg, tables[..n + 1], steps[..n], key, until);
      LockStep(cfg, tables[n], steps[n], tables[n + 1], key, until);
    }
  }

  /**
   Without the check a failure can shorten a lock: it does exactly when the window of the entry
   has passed and the count starts over. (With two requests in flight the check of one can come
   before the lock set by the other.)
   */
  lemma FailureKeepsLockIff(cfg: Settings, s: Table, key: Key, now: real, until: real)
    requires cfg.Valid() && key in s && s[key].lockedUntil == until && 0.0 <= now < until
    ensures Counted(cfg, s, key, now).lockedUntil >= until <==> now - s[key].windowStarted < cfg.window
  {
    if now - s[key].windowStarted >= cfg.window {
      assert Counted(cfg, s, key, now) == Entry(1, now, 0.0, now);
    }
  }

  // ---------------------------------------------------------------- reading back its own entries

  /** What `record_failure` needs in the end: both its entries survive its last prune. */
  predicate ReadsBack(s: Table, name: string, address: string) {
    Account(name) in s && Client(address) in s
  }

  /** The table as it is pruned for the last time: the two counted entries are the newest in it. */
  lemma JustCounted(cfg: Settings, s: Table, name: string, address: string, now: real)
    requires cfg.Valid()
    ensures var t := Failed(cfg, s, name, address, now); ReadsBack(Live(cfg, t, now), name, address)
  {
  }

  /**
   `record_failure` reads both entries back, whatever the order among ties, exactly when for each
   of them as many others go strictly before it as must be evicted.
   */
  lemma ReadsBackIff(cfg: Settings, s: Table, name: string, address: string, now: real)
    requires cfg.Valid()
    ensures var live := Live(cfg, Failed(cfg, s, name, address, now), now);
      && ReadsBack(live, name, address)
      && ((forall kept :: Pruned(cfg, Failed(cfg, s, name, address, now), now, kept) ==> ReadsBack(kept, name, address))
          <==> (|Ahead(live, now, Account(name))| >= Overflow(cfg, live)
                && |Ahead(live, now, Client(address))| >= Overflow(cfg, live)))
  {
    JustCounted(cfg, s, name, address, now);
    var live := Live(cfg, Failed(cfg, s, name, address, now), now);
    var n := Overflow(cfg, live);
    var t := Failed(cfg, s, name, address, now);
    if |Ahead(live, now, Account(name))| >= n && |Ahead(live, now, Client(address))| >= n {
      forall kept | Pruned(cfg, t, now, kept) ensures ReadsBack(kept, name, address) {
        PrunedIffEvicts(cfg, t, now, kept);
        AlwaysSurvivesIff(live, now, n, Account(name));
        AlwaysSurvivesIff(live, now, n, Client(address));
      }
    } else {
      var key := if |Ahead(live, now, Account(name))| < n then Account(name) else Client(address);
      var kept := CanBeEvicted(live, now, n, key);
      PrunedIffEvicts(cfg, t, now, kept);
    }
  }

  /** In particular it does when two entries fit in beside the live ones. */
  lemma RoomForTwo(cfg: Settings, s: Table, name: string, address: string, now: real, kept: Table)
    requires cfg.Valid() && |s| + 2 <= cfg.maxEntries
    requires Pruned(cfg, Failed(cfg, s, name, address, now), now, kept)
    ensures ReadsBack(kept, name, address)
  {
    var t := Failed(cfg, s, name, address, now);
    assert t.Keys == s.Keys + {Account(name)} + {Client(address)};
    assert |t.Keys| == |t| && |s.Keys| == |s|;
    assert |t| <= |s| + 2;
    assert Live(cfg, t, now).Keys <= t.Keys;
    SubsetSize(Live(cfg, t, now).Keys, t.Keys);
    assert |Live(cfg, t, now).Keys| == |Live(cfg, t, now)|;
    JustCounted(cfg, s, name, address, now);
    AllKept(cfg, t, now, kept);
  }

  lemma AllKept(cfg: Settings, s: Table, now: real, kept: Table)
    requires Pruned(cfg, s, now, kept) && |Live(cfg, s, now)| <= cfg.maxEntries
    ensures kept == Live(cfg, s, now)
  {
    PrunedIffEvicts(cfg, s, now, kept);
    assert |kept.Keys| == |kept| && |Live(cfg, s, now).Keys| == |Live(cfg, s, now)|;
    SubsetOfSameSize(kept.Keys, Live(cfg, s, now).Keys);
  }

  /**
   It does not when the table is full of entries that are locked or have failed twice: the new
   account entry, unlocked with one failure, goes at once.
   */
  lemma FullOfRepeats(cfg: Settings, s: Table, name: string, address: string, now: real, kept: Table)
    requires cfg.Valid() && 0.0 <= now && |s| == cfg.maxEntries
    requires forall key :: key in s ==> Locked(s[key], now) || (s[key].failures >= 2 && !Stale(cfg, s[key], now))
    requires Account(name) !in s && Client(address) !in s
    requires Pruned(cfg, Failed(cfg, s, name, address, now), now, kept)
    ensures !ReadsBack(kept, name, address)
  {
    if Account(name) in kept {
      var g := SomeoneLeft(s, kept, Account(name));
    }
  }

  /** In particular when the table is full of locks. */
  lemma FullOfLocks(cfg: Settings, s: Table, name: string, address: string, now: real, kept: Table)
    requires cfg.Valid() && 0.0 <= now && |s| == cfg.maxEntries && LockedKeys(s, now) == s.Keys
    requires Account(name) !in s && Client(address) !in s
    requires Pruned(cfg, Failed(cfg, s, name, address, now), now, kept)
    ensures !ReadsBack(kept, name, address)
  {
    forall key | key in s ensures Locked(s[key], now) {
      assert key in LockedKeys(s, now);
    }
    FullOfRepeats(cfg, s, name, address, now, kept);
  }

  lemma SomeoneLeft(s: Table, kept: Table, key: Key) returns (g: Key)
    requires |kept| <= |s| && key in kept && key !in s
    ensures g in s && g !in kept
  {
    assert |s.Keys| == |s| && |kept.Keys| == |kept|;
    if s.Keys <= kept.Keys {
      SubsetSize(s.Keys + {key}, kept.Keys);
    }
    g :| g in s && g !in kept;
  }

  /** `record_failure` up to reading its own entries back: `between` is the table after the first prune. */
  predicate Recorded(cfg: Settings, s: Table, between: Table, name: string, address: string, now: real, s': Table) {
    Pruned(cfg, s, now, between) && Pruned(cfg, Failed(cfg, between, name, address, now), now, s')
  }

  // ---------------------------------------------------------------- such a table is reached

  /** `retry_after` lets the pair through. */
  predicate LetThrough(s: Table, name: string, address: string, now: real) {
    WholeSeconds(Remaining(s, name, address, now)) == 0
  }

  /** The login route records failures only for pairs that it was told to let through. */
  predicate Guarded(s: Table, step: Step) {
    step.Fail? ==> LetThrough(s, step.name, step.address, step.now)
  }

  predicate IsGuardedRun(cfg: Settings, tables: seq<Table>, steps: seq<Step>) {
    IsRun(cfg, tables, steps) && forall i :: 0 <= i < |steps| ==> Guarded(tables[i], steps[i])
  }

  /** Some run of such failures leads from the empty table to this one. */
  ghost predicate Reached(cfg: Settings, s: Table) {
    exists tables, steps :: IsGuardedRun(cfg, tables, steps) && tables[0] == map[] && tables[|steps|] == s
  }

  lemma EmptyIsReached(cfg: Settings)
    ensures Reached(cfg, map[])
  {
    var tables: seq<Table>, steps: seq<Step> := [map[]], [];
    assert IsGuardedRun(cfg, tables, steps);
  }

  lemma RunMoreAt(cfg: Settings, tables: seq<Table>, steps: seq<Step>, step: Step, s': Table, i: nat)
    requires IsGuardedRun(cfg, tables, steps) && i <= |steps|
    requires Next(cfg, tables[|steps|], step, s') && Guarded(tables[|steps|], step)
    ensures Next(cfg, (tables + [s'])[i], (steps + [step])[i], (tables + [s'])[i + 1])
    ensures Guarded((tables + [s'])[i], (steps + [step])[i])
  {
    if i < |steps| {
      assert Next(cfg, tables[i], steps[i], tables[i + 1]) && Guarded(tables[i], steps[i]);
    }
  }

  lemma RunMore(cfg: Settings, tables: seq<Table>, steps: seq<Step>, step: Step, s': Table)
    requires IsGuardedRun(cfg, tables, steps)
    requires Next(cfg, tables[|steps|], step, s') && Guarded(tables[|steps|], step)
    ensures IsGuardedRun(cfg, tables + [s'], steps + [step])
  {
    forall i: nat | i <= |steps|
      ensures Next(cfg, (tables + [s'])[i], (steps + [step])[i], (tables + [s'])[i + 1])
      ensures Guarded((tables + [s'])[i], (steps + [step])[i])
    {
      RunMoreAt(cfg, tables, steps, step, s', i);
    }
  }

  lemma ReachedNext(cfg: Settings, s: Table, step: Step, s': Table)
    requires Reached(cfg, s) && Next(cfg, s, step, s') && Guarded(s, step)
    ensures Reached(cfg, s')
  {
    var tables, steps :| IsGuardedRun(cfg, tables, steps) && tables[0] == map[] && tables[|steps|] == s;
    RunMore(cfg, tables, steps, step, s');
    assert (tables + [s'])[0] == map[] && (tables + [s'])[|steps + [step]|] == s';
  }

  /** A few failures each, all seen just now, and none locked. */
  predicate Quiet(s: Table, now: real) {
    forall key :: key in s ==>
      s[key].windowStarted == now && s[key].lastSeen == now && s[key].lockedUntil == 0.0 && s[key].failures <= 4
  }

  lemma QuietIsKept(cfg: Settings, s: Table, now: real)
    requires cfg.Valid() && Quiet(s, now) && |s| <= cfg.maxEntries
    ensures Pruned(cfg, s, now, s)
  {
    assert Live(cfg, s, now) == s;
  }

  lemma QuietLetsThrough(s: Table, now: real, name: string, address: string)
    requires Quiet(s, now) && 0.0 <= now
    ensures LetThrough(s, name, address, now)
  {
  }

  /** So many failures, all just now. */
  function Few(failures: nat, now: real): Entry {
    Entry(failures, now, 0.0, now)
  }

  function FailuresOf(s: Table, key: Key): nat {
    if key in s then s[key].failures else 0
  }

  lemma QuietFailure(cfg: Settings, s: Table, key: Key, now: real)
    requires cfg.Valid() && Quiet(s, now)
    requires FailuresOf(s, key) + 1 < cfg.Limit(key)
    ensures Counted(cfg, s, key, now) == Few(FailuresOf(s, key) + 1, now)
  {
  }

  /** The table with so many failures of the pair. */
  function WithFailures(s: Table, name: string, address: string, a: nat, c: nat, now: real): Table {
    s[Account(name) := Few(a, now)][Client(address) := Few(c, now)]
  }

  lemma QuietWith(s: Table, name: string, address: string, a: nat, c: nat, now: real)
    requires Quiet(s, now) && a <= 4 && c <= 4
    ensures Quiet(WithFailures(s, name, address, a, c, now), now)
  {
  }

  lemma SizeWith(s: Table, name: string, address: string, a: nat, c: nat, now: real)
    ensures |WithFailures(s, name, address, a, c, now)|
         == |s| + (if Account(name) in s then 0 else 1) + (if Client(address) in s then 0 else 1)
  {
  }

  /** One failed login for which there is room: the route's check, then a prune, the failure and a prune. */
  lemma ReachedFailure(cfg: Settings, s: Table, name: string, address: string, a: nat, c: nat, now: real)
    requires cfg.Valid() && 0.0 <= now && Reached(cfg, s) && Quiet(s, now) && |s| <= cfg.maxEntries
    requires a == FailuresOf(s, Account(name)) <= 1 && c == FailuresOf(s, Client(address)) <= 3
    requires |WithFailures(s, name, address, a + 1, c + 1, now)| <= cfg.maxEntries
    ensures Reached(cfg, WithFailures(s, name, address, a + 1, c + 1, now))
  {
    var t := WithFailures(s, name, address, a + 1, c + 1, now);
    QuietFailure(cfg, s, Account(name), now);
    QuietFailure(cfg, s, Client(address), now);
    assert t == Failed(cfg, s, name, address, now);
    QuietWith(s, name, address, a + 1, c + 1, now);
    QuietIsKept(cfg, s, now);
    QuietLetsThrough(s, now, name, address);
    QuietIsKept(cfg, t, now);
    ReachedNext(cfg, s, Step.Prune(now), s);
    ReachedNext(cfg, s, Fail(name, address, now), t);
    ReachedNext(cfg, t, Step.Prune(now), t);
  }

  /** Counting over what was counted before. */
  lemma WithOver(s: Table, name: string, address: string, a: nat, c: nat, a': nat, c': nat, now: real)
    ensures var once := WithFailures(s, name, address, a, c, now);
      && FailuresOf(once, Account(name)) == a && FailuresOf(once, Client(address)) == c
      && WithFailures(once, name, address, a', c', now) == WithFailures(s, name, address, a', c', now)
  {
  }

  lemma FirstOfTwo(cfg: Settings, s: Table, name: string, address: string, c: nat, now: real)
    requires cfg.Valid() && 0.0 <= now && Reached(cfg, s) && Quiet(s, now) && |s| <= cfg.maxEntries
    requires Account(name) !in s && c == FailuresOf(s, Client(address)) <= 2
    requires |WithFailures(s, name, address, 2, c + 2, now)| <= cfg.maxEntries
    ensures var once := WithFailures(s, name, address, 1, c + 1, now);
      Reached(cfg, once) && Quiet(once, now) && |once| <= cfg.maxEntries
  {
    SizeWith(s, name, address, 1, c + 1, now);
    SizeWith(s, name, address, 2, c + 2, now);
    QuietWith(s, name, address, 1, c + 1, now);
    ReachedFailure(cfg, s, name, address, 0, c, now);
  }

  lemma SecondOfTwo(cfg: Settings, once: Table, twice: Table, name: string, address: string, c: nat, now: real)
    requires cfg.Valid() && 0.0 <= now && Reached(cfg, once) && Quiet(once, now) && |once| <= cfg.maxEntries
    requires FailuresOf(once, Account(name)) == 1 && FailuresOf(once, Client(address)) == c + 1 && c <= 2
    requires twice == WithFailures(once, name, address, 2, c + 2, now) && |twice| <= cfg.maxEntries
    ensures Reached(cfg, twice)
  {
    ReachedFailure(cfg, once, name, address, 1, c + 1, now);
  }

  lemma FailTwice(cfg: Settings, s: Table, name: string, address: string, c: nat, now: real)
    requires cfg.Valid() && 0.0 <= now && Reached(cfg, s) && Quiet(s, now) && |s| <= cfg.maxEntries
    requires Account(name) !in s && c == FailuresOf(s, Client(address)) <= 2
    requires |WithFailures(s, name, address, 2, c + 2, now)| <= cfg.maxEntries
    ensures Reached(cfg, WithFailures(s, name, address, 2, c + 2, now))
  {
    var once, twice := WithFailures(s, name, address, 1, c + 1, now), WithFailures(s, name, address, 2, c + 2, now);
    FirstOfTwo(cfg, s, name, address, c, now);
    WithOver(s, name, address, 1, c + 1, 2, c + 2, now);
    SecondOfTwo(cfg, once, twice, name, address, c, now);
  }

  /** Every entry has failed at least twice. */
  predicate Repeats(s: Table) {
    forall key :: key in s ==> s[key].failures >= 2
  }

  /** n pairs of an account and an address, each failed twice. */
  function Pairs(n: nat, now: real): Table {
    if n == 0 then map[]
    else WithFailures(Pairs(n - 1, now), Digits(n - 1), Digits(n - 1), 2, 2, now)
  }

  lemma {:induction false} PairsHave(n: nat, now: real, text: string)
    requires forall i: nat :: i < n ==> Digits(i) != text
    ensures Account(text) !in Pairs(n, now) && Client(text) !in Pairs(n, now)
  {
    if n == 0 {
    } else {
      PairsHave(n - 1, now, text);
      assert Digits(n - 1) != text;
    }
  }

  lemma NextPairIsNew(n: nat, now: real)
    ensures Account(Digits(n)) !in Pairs(n, now) && Client(Digits(n)) !in Pairs(n, now)
  {
    forall i: nat | i < n ensures Digits(i) != Digits(n) {
      if Digits(i) == Digits(n) {
        DigitsDiffer(i, n);
      }
    }
    PairsHave(n, now, Digits(n));
  }

  lemma NoNumeral(text: string, i: nat)
    requires 'n' in text
    ensures Digits(i) != text
  {
    DigitsAreDigits(i);
  }

  lemma StrangersAreNew(n: nat, now: real, text: string)
    requires 'n' in text
    ensures Account(text) !in Pairs(n, now) && Client(text) !in Pairs(n, now)
  {
    forall i: nat | i < n ensures Digits(i) != text {
      NoNumeral(text, i);
    }
    PairsHave(n, now, text);
  }

  lemma {:induction false} PairsSize(n: nat, now: real)
    ensures |Pairs(n, now)| == 2 * n && Quiet(Pairs(n, now), now)
    ensures forall key :: key in Pairs(n, now) ==> Pairs(n, now)[key].failures == 2
    ensures n > 0 ==> Client(Digits(0)) in Pairs(n, now)
  {
    if n == 0 {
    } else {
      PairsSize(n - 1, now);
      NextPairIsNew(n - 1, now);
      SizeWith(Pairs(n - 1, now), Digits(n - 1), Digits(n - 1), 2, 2, now);
      QuietWith(Pairs(n - 1, now), Digits(n - 1), Digits(n - 1), 2, 2, now);
    }
  }

  lemma {:induction false} PairsAreReached(cfg: Settings, n: nat, now: real)
    requires cfg.Valid() && 0.0 <= now && 2 * n <= cfg.maxEntries
    ensures Reached(cfg, Pairs(n, now))
  {
    if n == 0 {
      EmptyIsReached(cfg);
    } else {
      PairsAreReached(cfg, n - 1, now);
      PairsSize(n - 1, now);
      PairsSize(n, now);
      NextPairIsNew(n - 1, now);
      FailTwice(cfg, Pairs(n - 1, now), Digits(n - 1), Digits(n - 1), 0, now);
    }
  }

  /** As many pairs as fit, and one account more from the first address if a place is left. */
  function FullTable(cfg: Settings, now: real): Table {
    var n := cfg.maxEntries / 2;
    if cfg.maxEntries % 2 == 0 then Pairs(n, now)
    else WithFailures(Pairs(n, now), Digits(n), Digits(0), 2, 4, now)
  }

  lemma FullTableIsReached(cfg: Settings, now: real)
    requires cfg.Valid() && 0.0 <= now
    ensures var s := FullTable(cfg, now); Reached(cfg, s) && Quiet(s, now) && Repeats(s) && |s| == cfg.maxEntries
  {
    var n := cfg.maxEntries / 2;
    PairsAreReached(cfg, n, now);
    PairsSize(n, now);
    if cfg.maxEntries % 2 == 1 {
      NextPairIsNew(n, now);
      SizeWith(Pairs(n, now), Digits(n), Digits(0), 2, 4, now);
      QuietWith(Pairs(n, now), Digits(n), Digits(0), 2, 4, now);
      FailTwice(cfg, Pairs(n, now), Digits(n), Digits(0), 2, now);
    }
  }

  lemma StrangersAreNotIn(cfg: Settings, now: real, text: string)
    requires 'n' in text
    ensures Account(text) !in FullTable(cfg, now) && Client(text) !in FullTable(cfg, now)
  {
    var n := cfg.maxEntries / 2;
    StrangersAreNew(n, now, text);
    NoNumeral(text, n);
    NoNumeral(text, 0);
  }

  /**
   From there `record_failure` raises: a new account and address are let through, and whatever the
   order among ties, one of their entries is gone when it is read back.
   */
  lemma KeyErrorIsReached(cfg: Settings, now: real)
    requires cfg.Valid() && 0.0 <= now
    ensures var s := FullTable(cfg, now);
      && Reached(cfg, s) && |s| == cfg.maxEntries && LetThrough(s, "new", "unknown", now)
      && forall between, after :: Recorded(cfg, s, between, "new", "unknown", now, after) ==>
        !ReadsBack(after, "new", "unknown")
  {
    var s := FullTable(cfg, now);
    FullTableIsReached(cfg, now);
    QuietLetsThrough(s, now, "new", "unknown");
    StrangersAreNotIn(cfg, now, "new");
    StrangersAreNotIn(cfg, now, "unknown");
    forall between, after | Recorded(cfg, s, between, "new", "unknown", now, after)
      ensures !ReadsBack(after, "new", "unknown")
    {
      QuietReadsNothingBack(cfg, s, between, "new", "unknown", now, after);
    }
  }

  lemma QuietReadsNothingBack(cfg: Settings, s: Table, between: Table, name: string, address: string, now: real,
                              after: Table)
    requires cfg.Valid() && 0.0 <= now && Quiet(s, now) && Repeats(s) && |s| == cfg.maxEntries
    requires Account(name) !in s && Client(address) !in s && Recorded(cfg, s, between, name, address, now, after)
    ensures !ReadsBack(after, name, address)
  {
    assert Live(cfg, s, now) == s;
    AllKept(cfg, s, now, between);
    FullOfRepeats(cfg, s, name, address, now, after);
  }

  // ---------------------------------------------------------------- the class

  lemma CountedInTurn(cfg: Settings, s: Table, name: string, address: string, now: real)
    ensures var s1 := s[Account(name) := Counted(cfg, s, Account(name), now)];
            s1[Client(address) := Counted(cfg, s1, Client(address), now)] == Failed(cfg, s, name, address, now)
  {
  }

  // ---------------------------------------------------------------- in plain fields

  /** Still of use: locked, or seen within twice the window or twice the lock time. */
  predicate InUse(cfg: Settings, e: Entry, now: real) {
    e.lockedUntil > now || now - e.lastSeen <= 2.0 * cfg.window || now - e.lastSeen <= 2.0 * cfg.lock
  }

  /** The one may be given up before the other: unlocked first, then fewer failures, then longer ago. */
  predicate MayGoFirst(a: Entry, b: Entry, now: real) {
    || (a.lockedUntil <= now && b.lockedUntil > now)
    || ((a.lockedUntil > now <==> b.lockedUntil > now)
        && (a.failures < b.failures || (a.failures == b.failures && a.lastSeen <= b.lastSeen)))
  }

  /** What a prune leaves: entries in use, all of them when they fit, else as many as fit, the last to be given up. */
  lemma PrunedMeans(cfg: Settings, s: Table, now: real, kept: Table)
    ensures Pruned(cfg, s, now, kept)
       <==> (|kept| <= cfg.maxEntries
             && (forall key :: key in kept ==> key in s && kept[key] == s[key] && InUse(cfg, s[key], now))
             && (forall gone :: gone in s && gone !in kept && InUse(cfg, s[gone], now) ==>
                   |kept| == cfg.maxEntries && forall key :: key in kept ==> MayGoFirst(s[gone], s[key], now)))
  {
    var live := Live(cfg, s, now);
    forall e: Entry ensures InUse(cfg, e, now) <==> !Stale(cfg, e, now) {
    }
    assert forall a, b :: MayGoFirst(a, b, now) <==> !Before(b, a, now);
  }

  /** The entry after one failure: a new count when the window has passed, and a lock from the limit on. */
  predicate IsCounted(before: Option<Entry>, after: Entry, limit: nat, window: real, lock: real, now: real) {
    if before.None? || now - before.value.windowStarted >= window then
      && after.failures == 1 && after.windowStarted == now && after.lastSeen == now
      && (limit > 1 ==> after.lockedUntil == 0.0)
    else
      var e := before.value;
      && after.failures == e.failures + 1 && after.windowStarted == e.windowStarted && after.lastSeen == now
      && after.lockedUntil ==
        if e.failures + 1 >= limit && now + lock > e.lockedUntil then now + lock else e.lockedUntil
  }

  /** One failure of each of the two keys was counted, with its own limit; every other entry is as it was. */
  predicate Adds(cfg: Settings, s: Table, name: string, address: string, now: real, after: Table) {
    && (forall key :: key in after && key != Account(name) && key != Client(address) ==>
          key in s && after[key] == s[key])
    && (Account(name) in after ==>
          IsCounted(EntryOf(s, Account(name)), after[Account(name)], cfg.accountLimit, cfg.window, cfg.lock, now))
    && (Client(address) in after ==>
          IsCounted(EntryOf(s, Client(address)), after[Client(address)], cfg.clientLimit, cfg.window, cfg.lock, now))
  }

  lemma CountedMeans(cfg: Settings, s: Table, key: Key, now: real)
    requires cfg.Valid()
    ensures var limit := if key.Account? then cfg.accountLimit else cfg.clientLimit;
            IsCounted(EntryOf(s, key), Counted(cfg, s, key, now), limit, cfg.window, cfg.lock, now)
  {
  }

  lemma FailureAdds(cfg: Settings, s: Table, name: string, address: string, now: real, after: Table)
    requires cfg.Valid() && Pruned(cfg, Failed(cfg, s, name, address, now), now, after)
    ensures Adds(cfg, s, name, address, now, after)
  {
    CountedMeans(cfg, s, Account(name), now);
    CountedMeans(cfg, s, Client(address), now);
  }

  /** The seconds are those of the later of the two locks, rounded up but for a millisecond. */
  lemma SecondsMean(s: Table, name: string, address: string, now: real)
    ensures var seconds, keys := WholeSeconds(Remaining(s, name, address, now)), {Account(name), Client(address)};
      && (seconds > 0 <==> exists key :: key in keys && key in s && s[key].lockedUntil - now >= 0.001)
      && (forall key :: key in keys && key in s ==> s[key].lockedUntil - now < seconds as real + 0.001)
      && (seconds > 0 ==> exists key :: key in keys && key in s && seconds as real <= s[key].lockedUntil - now + 0.999)
  {
    var r := Remaining(s, name, address, now);
    assert RemainingOf(s, Account(name), now) <= r && RemainingOf(s, Client(address), now) <= r;
    if r > 0.0 {
      var key := if r == RemainingOf(s, Account(name), now) then Account(name) else Client(address);
      assert key in s && s[key].lockedUntil - now == r;
    }
  }

  function EntryOf(s: Table, key: Key): Option<Entry> {
    if key in s then Some(s[key]) else None
  }

  class Throttle {
    var states: Table

    constructor ()
      ensures states == map[]
    {
      states := map[];
    }

    method First(now: real) returns (least: Key)
      requires states != map[]
      ensures least in states && forall other :: other in states ==> !Before(states[other], states[least], now)
    {
      least :| least in states;
      var rest := states.Keys - {least};
      while rest != {}
        invariant rest <= states.Keys && least in states
        invariant forall other :: other in states && other !in rest ==> !Before(states[other], states[least], now)
        decreases rest
      {
        var key :| key in rest;
        if Before(states[key], states[least], now) {
          least := key;
        }
        rest := rest - {key};
      }
    }

    /** `_prune`. */
    method Prune(cfg: Settings, now: real)
      modifies this
      ensures Pruned(cfg, old(states), now, states)
      ensures forall key :: key in states ==> key in old(states) && InUse(cfg, states[key], now)
      ensures forall gone :: gone in old(states) && gone !in states && InUse(cfg, old(states)[gone], now) ==>
        |states| == cfg.maxEntries && forall key :: key in states ==> MayGoFirst(old(states)[gone], states[key], now)
    {
      states := map key | key in states && !Stale(cfg, states[key], now) :: states[key];
      ghost var live := states;
      assert live == Live(cfg, old(states), now);
      var overflow := if |states| > cfg.maxEntries then |states| - cfg.maxEntries else 0;
      for i := 0 to overflow
        invariant |live| == |states| + i
        invariant Evicts(live, now, i, states)
      {
        var least := First(now);
        states := states - {least};
      }
      PrunedIffEvicts(cfg, old(states), now, states);
      PrunedMeans(cfg, old(states), now, states);
    }

    /** `retry_after`. */
    method RetryAfter(cfg: Settings, name: string, address: string, now: real) returns (seconds: nat)
      modifies this
      ensures Pruned(cfg, old(states), now, states)
      ensures seconds == WholeSeconds(Remaining(states, name, address, now))
      ensures seconds > 0
         <==> exists key :: key in {Account(name), Client(address)} && key in states
                && states[key].lockedUntil - now >= 0.001
      ensures forall key :: key in {Account(name), Client(address)} && key in states ==>
        states[key].lockedUntil - now < seconds as real + 0.001
      ensures seconds > 0 ==>
        exists key :: key in {Account(name), Client(address)} && key in states
          && seconds as real <= states[key].lockedUntil - now + 0.999
    {
      Prune(cfg, now);
      SecondsMean(states, name, address, now);
      seconds := WholeSeconds(Remaining(states, name, address, now));
    }

    /** One turn of the loop over the two limits. */
    method Count(cfg: Settings, key: Key, now: real)
      modifies this
      ensures states == old(states)[key := Counted(cfg, old(states), key, now)]
    {
      var e := if key in states then states[key] else Entry(0, now, 0.0, now);
      if now - e.windowStarted >= cfg.window {
        e := Entry(0, now, 0.0, now);
      }
      e := e.(failures := e.failures + 1, lastSeen := now);
      if e.failures >= cfg.Limit(key) && now + cfg.lock > e.lockedUntil {
        e := e.(lockedUntil := now + cfg.lock);
      }
      states := states[key := e];
    }

    /** `record_failure`: no seconds are returned when one of its own entries was evicted. */
    method RecordFailure(cfg: Settings, name: string, address: string, now: real)
      returns (seconds: Option<nat>, ghost between: Table)
      requires cfg.Valid()
      modifies this
      ensures Recorded(cfg, old(states), between, name, address, now, states)
      ensures seconds.Some? <==> ReadsBack(states, name, address)
      ensures seconds.Some? ==> seconds.value == WholeSeconds(Remaining(states, name, address, now))
      ensures Adds(cfg, between, name, address, now, states)
    {
      Prune(cfg, now);
      between := states;
      Count(cfg, Account(name), now);
      Count(cfg, Client(address), now);
      CountedInTurn(cfg, between, name, address, now);
      Prune(cfg, now);
      FailureAdds(cfg, between, name, address, now, states);
      if Account(name) !in states || Client(address) !in states {
        return None, between;
      }
      seconds := Some(WholeSeconds(Remaining(states, name, address, now)));
    }

    /** `record_success`: the account's count goes, the client's stays. */
    method RecordSuccess(name: string)
      modifies this
      ensures states == old(states) - {Account(name)}
      ensures forall cfg :: Next(cfg, old(states), Succeed(name), states)
    {
      states := states - {Account(name)};
    }

    method Clear()
      modifies this
      ensures states == map[] && forall cfg :: Next(cfg, old(states), Reset, states)
    {
      states := map[];
    }
  }
}
