/** The retention policy `apply_retention`: daily and weekly keeps over automatic backups. */
module Retention {
  import opened Wrappers
  import opened FiniteSets

  type Week = (int, int)

  datatype Row = Row(
    id: nat, filename: string, kind: string, completed: bool,
    deleted: bool, purgeAfter: Option<int>, createdAt: int, week: Week)

  /** The rows of line 646: deleted, with a purge time that has passed. */
  predicate Expired(row: Row, now: int) {
    row.deleted && row.purgeAfter.Some? && row.purgeAfter.value <= now
  }

  /** The rows of line 656. */
  predicate Automatic(row: Row) {
    row.kind == "automatic" && row.completed && !row.deleted
  }

  /** How many elements `items[:daily]` has; a negative bound counts from the end. */
  function SliceLength(length: nat, daily: int): (n: nat)
    ensures n <= length
    ensures daily >= 0 ==> n <= daily
  {
    if daily >= 0 then (if daily < length then daily else length)
    else if length + daily >= 0 then length + daily else 0
  }

  function Weeks(items: seq<Row>): set<Week> {
    set i | 0 <= i < |items| :: items[i].week
  }

  /** The newest backup of its week, when fewer than `weekly` weeks are newer. */
  predicate WeeklyKeep(items: seq<Row>, i: nat, weekly: int)
    requires i < |items|
  {
    items[i].week !in Weeks(items[..i]) && |Weeks(items[..i])| < weekly
  }

  /** Item i of the newest-first list stays. */
  predicate Keep(items: seq<Row>, i: nat, daily: int, weekly: int)
    requires i < |items|
  {
    i < SliceLength(|items|, daily) || WeeklyKeep(items, i, weekly)
  }

  // ---------------------------------------------------------------- the loop of lines 665-672

  /** `weekly_seen` after a prefix: every week so far, until there are `weekly` of them. */
  predicate SeenMatches(seen: set<Week>, items: seq<Row>, weekly: int) {
    if |Weeks(items)| <= weekly then seen == Weeks(items)
    else seen <= Weeks(items) && |seen| == if weekly < 0 then 0 else weekly
  }

  lemma WeeksGrow(items: seq<Row>, n: nat)
    requires n < |items|
    ensures Weeks(items[..n + 1]) == Weeks(items[..n]) + {items[n].week}
    ensures |Weeks(items[..n + 1])|
         == |Weeks(items[..n])| + if items[n].week in Weeks(items[..n]) then 0 else 1
  {
    assert items[..n + 1] == items[..n] + [items[n]];
    assert items[..n + 1][n].week in Weeks(items[..n + 1]);
    forall w | w in Weeks(items[..n]) ensures w in Weeks(items[..n + 1]) {
      var i :| 0 <= i < n && items[..n][i].week == w;
      assert items[..n + 1][i].week == w;
    }
    if items[n].week in Weeks(items[..n]) {
      assert Weeks(items[..n + 1]) == Weeks(items[..n]);
    }
  }

  lemma WeeksStep(items: seq<Row>, n: nat)
    requires n < |items|
    ensures |Weeks(items[..n + 1])|
         == |Weeks(items[..n])| + if items[n].week in Weeks(items[..n]) then 0 else 1
  {
    WeeksGrow(items, n);
  }

  /** Some item with this id is kept by its place, or by its week among the first n. */
  predicate Chosen(items: seq<Row>, id: nat, n: nat, daily: int, weekly: int)
    requires n <= |items|
  {
    exists i :: 0 <= i < |items| && items[i].id == id
      && (i < SliceLength(|items|, daily) || (i < n && WeeklyKeep(items, i, weekly)))
  }

  lemma ChosenStep(items: seq<Row>, id: nat, n: nat, daily: int, weekly: int)
    requires n < |items|
    ensures Chosen(items, id, n + 1, daily, weekly)
       <==> Chosen(items, id, n, daily, weekly) || (items[n].id == id && WeeklyKeep(items, n, weekly))
  {
  }

  method KeepIds(items: seq<Row>, daily: int, weekly: int) returns (keep: set<nat>)
    ensures forall id ::
      id in keep <==> exists i :: 0 <= i < |items| && items[i].id == id && Keep(items, i, daily, weekly)
  {
    keep := set i | 0 <= i < SliceLength(|items|, daily) :: items[i].id;
    var seen: set<Week> := {};
    assert Weeks(items[..0]) == {};
    for n := 0 to |items|
      invariant SeenMatches(seen, items[..n], weekly)
      invariant forall id: nat :: id in keep <==> Chosen(items, id, n, daily, weekly)
    {
      var key := items[n].week;
      WeeksGrow(items, n);
      forall id: nat
        ensures Chosen(items, id, n + 1, daily, weekly)
           <==> Chosen(items, id, n, daily, weekly) || (items[n].id == id && WeeklyKeep(items, n, weekly))
      {
        ChosenStep(items, id, n, daily, weekly);
      }
      if key !in seen && |seen| < weekly {
        assert WeeklyKeep(items, n, weekly);
        keep := keep + {items[n].id};
        seen := seen + {key};
      } else {
        assert !WeeklyKeep(items, n, weekly);
      }
    }
  }

  // ---------------------------------------------------------------- what is kept

  /** What retention leaves of the newest-first list. */
  function Retained(items: seq<Row>, n: nat, daily: int, weekly: int): seq<Row>
    requires n <= |items|
  {
    if n == 0 then []
    else Retained(items, n - 1, daily, weekly)
         + if Keep(items, n - 1, daily, weekly) then [items[n - 1]] else []
  }

  function Apply(items: seq<Row>, daily: int, weekly: int): seq<Row> {
    Retained(items, |items|, daily, weekly)
  }

  function WeeklyKept(items: seq<Row>, n: nat, weekly: int): nat
    requires n <= |items|
  {
    if n == 0 then 0 else WeeklyKept(items, n - 1, weekly) + if WeeklyKeep(items, n - 1, weekly) then 1 else 0
  }

  lemma {:induction false} WeeklyKeptBound(items: seq<Row>, n: nat, weekly: int)
    requires n <= |items|
    ensures WeeklyKept(items, n, weekly) <= |Weeks(items[..n])|
    ensures WeeklyKept(items, n, weekly) <= if weekly < 0 then 0 else weekly
  {
    if n == 0 {
    } else {
      WeeklyKeptBound(items, n - 1, weekly);
      WeeksStep(items, n - 1);
    }
  }

  lemma {:induction false} RetainedSize(items: seq<Row>, n: nat, daily: int, weekly: int)
    requires n <= |items|
    ensures |Retained(items, n, daily, weekly)|
         <= WeeklyKept(items, n, weekly)
            + if n < SliceLength(|items|, daily) then n else SliceLength(|items|, daily)
  {
    if n == 0 {
    } else {
      RetainedSize(items, n - 1, daily, weekly);
    }
  }

  /** At most `daily` plus `weekly` automatic backups stay. */
  lemma AtMostDailyPlusWeekly(items: seq<Row>, daily: nat, weekly: nat)
    ensures |Apply(items, daily, weekly)| <= daily + weekly
  {
    RetainedSize(items, |items|, daily, weekly);
    WeeklyKeptBound(items, |items|, weekly);
  }

  /**
   A deleted backup is not among the newest `daily`, and either a newer kept one stands for
   its week or `weekly` other weeks are newer than the newest backup of its week.
   */
  lemma DeletedIsCovered(items: seq<Row>, i: nat, daily: int, weekly: int) returns (newest: nat)
    requires i < |items| && !Keep(items, i, daily, weekly)
    ensures i >= SliceLength(|items|, daily)
    ensures newest <= i && items[newest].week == items[i].week
    ensures items[newest].week !in Weeks(items[..newest])
    ensures (newest < i && Keep(items, newest, daily, weekly)) || |Weeks(items[..newest])| >= weekly
  {
    newest := FirstOfWeek(items, i);
  }

  lemma {:induction false} FirstOfWeek(items: seq<Row>, i: nat) returns (newest: nat)
    requires i < |items|
    ensures newest <= i && items[newest].week == items[i].week
    ensures items[newest].week !in Weeks(items[..newest])
  {
    newest := i;
    if items[i].week in Weeks(items[..i]) {
      var j :| 0 <= j < i && items[..i][j].week == items[i].week;
      newest := FirstOfWeek(items, j);
    }
  }

  /** Where a retained item came from, and that nothing newer was put before it. */
  ghost predicate ComesFrom(items: seq<Row>, kept: seq<Row>, k: nat, i: nat, daily: int, weekly: int)
    requires k < |kept|
  {
    && k <= i < |items| && kept[k] == items[i] && Keep(items, i, daily, weekly)
    && Weeks(kept[..k]) <= Weeks(items[..i])
  }

  /** The retained items are some of the first n, in their order. */
  lemma {:induction false} RetainedAt(items: seq<Row>, n: nat, daily: int, weekly: int, k: nat) returns (i: nat)
    requires n <= |items| && k < |Retained(items, n, daily, weekly)|
    ensures k <= i < n && Retained(items, n, daily, weekly)[k] == items[i]
  {
    var before := Retained(items, n - 1, daily, weekly);
    if k < |before| {
      i := RetainedAt(items, n - 1, daily, weekly, k);
    } else {
      if k > 0 {
        var earlier := RetainedAt(items, n - 1, daily, weekly, k - 1);
      }
      i := n - 1;
    }
  }

  lemma RetainedWeeks(items: seq<Row>, n: nat, daily: int, weekly: int)
    requires n <= |items|
    ensures var kept := Retained(items, n, daily, weekly); |kept| <= n && Weeks(kept) <= Weeks(items[..n])
  {
    var kept := Retained(items, n, daily, weekly);
    forall w | w in Weeks(kept) ensures w in Weeks(items[..n]) {
      var k :| 0 <= k < |kept| && kept[k].week == w;
      var i := RetainedAt(items, n, daily, weekly, k);
      assert items[..n][i].week == w;
    }
    if kept != [] {
      var last := RetainedAt(items, n, daily, weekly, |kept| - 1);
    }
  }

  /** Everything retained comes from an item that was kept, with no fewer weeks before it. */
  lemma {:induction false} RetainedComesFrom(items: seq<Row>, n: nat, kept: seq<Row>, daily: int, weekly: int, k: nat)
    returns (i: nat)
    requires n <= |items| && kept == Retained(items, n, daily, weekly) && k < |kept|
    ensures i < n && ComesFrom(items, kept, k, i, daily, weekly)
  {
    var before := Retained(items, n - 1, daily, weekly);
    RetainedWeeks(items, n - 1, daily, weekly);
    if k < |before| {
      i := RetainedComesFrom(items, n - 1, before, daily, weekly, k);
      assert kept[..k] == before[..k];
    } else {
      i := n - 1;
      assert kept[..k] == before;
    }
  }

  lemma {:induction false} AllKeptStays(items: seq<Row>, n: nat, daily: int, weekly: int)
    requires n <= |items|
    requires forall k :: 0 <= k < |items| ==> Keep(items, k, daily, weekly)
    ensures Retained(items, n, daily, weekly) == items[..n]
  {
    if n == 0 {
    } else {
      AllKeptStays(items, n - 1, daily, weekly);
      assert items[..n] == items[..n - 1] + [items[n - 1]];
    }
  }

  /** Applying retention twice is applying it once, for every list and every weekly setting. */
  lemma RetentionIdempotent(items: seq<Row>, daily: nat, weekly: int)
    ensures Apply(Apply(items, daily, weekly), daily, weekly) == Apply(items, daily, weekly)
  {
    var kept := Apply(items, daily, weekly);
    forall k: nat | k < |kept| ensures Keep(kept, k, daily, weekly) {
      var i := RetainedComesFrom(items, |items|, kept, daily, weekly, k);
      SubsetSize(Weeks(kept[..k]), Weeks(items[..i]));
    }
    AllKeptStays(kept, |kept|, daily, weekly);
    assert kept[..|kept|] == kept;
  }

  ghost predicate OneWeek(items: seq<Row>) {
    forall i, j :: 0 <= i < j < |items| ==> items[i].week == items[j].week
  }

  lemma {:induction false} OneWeekRetained(items: seq<Row>, n: nat, daily: int, weekly: int)
    requires OneWeek(items) && n <= |items|
    ensures var k := SliceLength(|items|, daily);
      var r := |Retained(items, n, daily, weekly)|;
      if n <= k then r == n else (r == k || (k == 0 && r == 1))
  {
    if n == 0 {
    } else {
      OneWeekRetained(items, n - 1, daily, weekly);
      if n > 1 {
        assert items[..n - 1][0].week == items[n - 1].week;
      }
    }
  }

  /**
   The setting has no lower bound, and a negative one is where the policy stops being stable:
   of a list of one week that is two longer than the bound, two backups stay the first time and
   one at most the second time.
   */
  lemma NegativeDailyIsNotIdempotent(items: seq<Row>, daily: int, weekly: int)
    requires daily < 0 && |items| == 2 - daily && OneWeek(items)
    ensures |Apply(items, daily, weekly)| == 2
    ensures |Apply(Apply(items, daily, weekly), daily, weekly)| <= 1
  {
    var kept := Apply(items, daily, weekly);
    OneWeekRetained(items, |items|, daily, weekly);
    forall i, j | 0 <= i < j < |kept| ensures kept[i].week == kept[j].week {
      var from := RetainedAt(items, |items|, daily, weekly, i);
      var to := RetainedAt(items, |items|, daily, weekly, j);
    }
    OneWeekRetained(kept, 2, daily, weekly);
  }

  function Automatics(n: nat): seq<Row> {
    seq(n, i requires 0 <= i < n => Row(i, "", "automatic", true, false, None, 0, (0, 0)))
  }

  /** Applying retention twice is applying it once exactly for the settings from zero on. */
  lemma IdempotentIff(daily: int, weekly: int)
    ensures (forall items :: Apply(Apply(items, daily, weekly), daily, weekly) == Apply(items, daily, weekly))
       <==> daily >= 0
  {
    if daily >= 0 {
      forall items ensures Apply(Apply(items, daily, weekly), daily, weekly) == Apply(items, daily, weekly) {
        RetentionIdempotent(items, daily, weekly);
      }
    } else {
      NegativeDailyIsNotIdempotent(Automatics(2 - daily), daily, weekly);
    }
  }

  // ---------------------------------------------------------------- in plain fields

  /** Position i of the list `items[:daily]` takes from: a negative bound leaves out the last ones. */
  predicate IsDaily(length: nat, i: nat, daily: int) {
    if daily >= 0 then i < daily else i < length + daily
  }

  function WeeksBefore(items: seq<Row>, i: nat): set<Week>
    requires i <= |items|
  {
    set j | 0 <= j < i :: items[j].week
  }

  /** An item stays as one of the newest, or as the newest of its week in one of the first weeks. */
  lemma KeepMeans(items: seq<Row>, i: nat, daily: int, weekly: int)
    requires i < |items|
    ensures Keep(items, i, daily, weekly)
       <==> (IsDaily(|items|, i, daily)
             || ((forall j :: 0 <= j < i ==> items[j].week != items[i].week) && |WeeksBefore(items, i)| < weekly))
  {
    assert Weeks(items[..i]) == WeeksBefore(items, i);
  }

  // ---------------------------------------------------------------- the catalog

  ghost predicate NewestFirst(items: seq<Row>) {
    && (forall i, j :: 0 <= i < j < |items| ==> items[i].createdAt >= items[j].createdAt)
    && (forall i, j :: 0 <= i < j < |items| ==> items[i].id != items[j].id)
  }

  /** The query results are the rows they select; the second one newest first. */
  ghost predicate Selects(rows: set<Row>, expired: seq<Row>, automatic: seq<Row>, now: int) {
    && (forall r :: r in expired <==> r in rows && Expired(r, now))
    && (forall r :: r in automatic <==> r in rows && Automatic(r))
    && NewestFirst(automatic)
  }

  lemma {:induction false} InRetained(items: seq<Row>, n: nat, daily: int, weekly: int, r: Row)
    requires n <= |items|
    ensures r in Retained(items, n, daily, weekly)
       <==> exists i :: 0 <= i < n && items[i] == r && Keep(items, i, daily, weekly)
  {
    if n == 0 {
    } else {
      InRetained(items, n - 1, daily, weekly, r);
    }
  }

  /** The rows one application leaves: those not expired, and of the automatic ones what `Apply` keeps. */
  function Left(rows: set<Row>, automatic: seq<Row>, now: int, daily: int, weekly: int): set<Row> {
    set r | r in rows && !Expired(r, now) && (Automatic(r) ==> r in Apply(automatic, daily, weekly))
  }

  function Elements<T>(items: seq<T>): set<T> {
    set x | x in items
  }

  lemma {:induction false} ElementsAtMost<T>(items: seq<T>)
    ensures |Elements(items)| <= |items|
  {
    if items == [] {
    } else {
      var n := |items| - 1;
      ElementsAtMost(items[..n]);
      assert Elements(items) == Elements(items[..n]) + {items[n]};
    }
  }

  lemma {:induction false} ElementsExactly<T>(items: seq<T>)
    requires forall i, j :: 0 <= i < j < |items| ==> items[i] != items[j]
    ensures |Elements(items)| == |items|
  {
    if items == [] {
    } else {
      var n := |items| - 1;
      ElementsExactly(items[..n]);
      assert Elements(items) == Elements(items[..n]) + {items[n]};
    }
  }

  /** However many rows the catalog has, at most `daily` plus `weekly` automatic ones are left. */
  lemma AtMostLeft(rows: set<Row>, automatic: seq<Row>, now: int, daily: nat, weekly: nat)
    ensures |set r | r in Left(rows, automatic, now, daily, weekly) && Automatic(r)| <= daily + weekly
  {
    var kept := Apply(automatic, daily, weekly);
    SubsetSize((set r | r in Left(rows, automatic, now, daily, weekly) && Automatic(r)), Elements(kept));
    ElementsAtMost(kept);
    AtMostDailyPlusWeekly(automatic, daily, weekly);
  }

  /** The week is the ISO week of the creation time. */
  ghost predicate WeekIsOfTime(items: seq<Row>) {
    forall i, j :: 0 <= i < |items| && 0 <= j < |items| && items[i].createdAt == items[j].createdAt ==>
      items[i].week == items[j].week
  }

  /** Some newest-first order of rows that were kept; it may order equal times in another way. */
  ghost predicate KeptOf(items: seq<Row>, again: seq<Row>, daily: int, weekly: int) {
    NewestFirst(again) && forall r :: r in again ==> r in Apply(items, daily, weekly)
  }

  lemma WasKept(items: seq<Row>, again: seq<Row>, daily: int, weekly: int, k: nat) returns (i: nat)
    requires KeptOf(items, again, daily, weekly) && k < |again|
    ensures i < |items| && items[i] == again[k] && Keep(items, i, daily, weekly)
  {
    assert again[k] in again;
    InRetained(items, |items|, daily, weekly, again[k]);
    var at :| 0 <= at < |items| && items[at] == again[k] && Keep(items, at, daily, weekly);
    i := at;
  }

  /** What comes no later than a kept item in the new order came before it, or both are among the newest. */
  lemma NotLater(items: seq<Row>, again: seq<Row>, daily: int, weekly: int, m: nat, k: nat, j: nat, i: nat)
    requires NewestFirst(items) && WeekIsOfTime(items) && NewestFirst(again) && m < k < |again|
    requires i < |items| && items[i] == again[k]
    requires j < |items| && items[j] == again[m] && Keep(items, j, daily, weekly)
    ensures j < i || j < SliceLength(|items|, daily)
  {
    if j > i {
      assert items[i].createdAt == items[j].createdAt;
      assert items[..j][i].week == items[j].week;
    }
  }

  lemma NewestStay(items: seq<Row>, again: seq<Row>, daily: nat, weekly: int, k: nat, i: nat)
    requires NewestFirst(items) && WeekIsOfTime(items) && KeptOf(items, again, daily, weekly) && k < |again|
    requires i < SliceLength(|items|, daily) && items[i] == again[k]
    ensures k < SliceLength(|again|, daily)
  {
    var n := SliceLength(|items|, daily);
    forall r | r in again[..k + 1] ensures r in items[..n] {
      var m :| 0 <= m <= k && again[m] == r;
      if m < k {
        var j := WasKept(items, again, daily, weekly, m);
        NotLater(items, again, daily, weekly, m, k, j, i);
        assert items[..n][j] == r;
      } else {
        assert items[..n][i] == r;
      }
    }
    ElementsExactly(again[..k + 1]);
    ElementsAtMost(items[..n]);
    SubsetSize(Elements(again[..k + 1]), Elements(items[..n]));
  }

  lemma WeekliesStay(items: seq<Row>, again: seq<Row>, daily: nat, weekly: int, k: nat, i: nat)
    requires NewestFirst(items) && WeekIsOfTime(items) && KeptOf(items, again, daily, weekly) && k < |again|
    requires SliceLength(|items|, daily) <= i < |items| && items[i] == again[k] && WeeklyKeep(items, i, weekly)
    ensures WeeklyKeep(again, k, weekly)
  {
    forall w | w in Weeks(again[..k]) ensures w in Weeks(items[..i]) {
      var m :| 0 <= m < k && again[..k][m].week == w;
      var j := WasKept(items, again, daily, weekly, m);
      NotLater(items, again, daily, weekly, m, k, j, i);
      assert items[..i][j].week == w;
    }
    SubsetSize(Weeks(again[..k]), Weeks(items[..i]));
  }

  /** Whatever was kept is kept again, in every order the next query can give it. */
  lemma KeptStays(items: seq<Row>, again: seq<Row>, daily: nat, weekly: int)
    requires NewestFirst(items) && WeekIsOfTime(items) && KeptOf(items, again, daily, weekly)
    ensures Apply(again, daily, weekly) == again
  {
    forall k: nat | k < |again| ensures Keep(again, k, daily, weekly) {
      var i := WasKept(items, again, daily, weekly, k);
      if i < SliceLength(|items|, daily) {
        NewestStay(items, again, daily, weekly, k, i);
      } else {
        WeekliesStay(items, again, daily, weekly, k, i);
      }
    }
    AllKeptStays(again, |again|, daily, weekly);
    assert again[..|again|] == again;
  }

  /**
   A second application removes nothing but the rows that expired in between, whatever order the
   query gives rows created at the same time: at the same time it leaves the rows of the first.
   */
  lemma SecondApplicationKeeps(rows: set<Row>, expired: seq<Row>, automatic: seq<Row>, now: int,
                               expired': seq<Row>, automatic': seq<Row>, later: int, daily: nat, weekly: int)
    requires Selects(rows, expired, automatic, now) && WeekIsOfTime(automatic)
    requires Selects(Left(rows, automatic, now, daily, weekly), expired', automatic', later)
    ensures var left := Left(rows, automatic, now, daily, weekly);
      && Left(left, automatic', later, daily, weekly) == (set r | r in left && !Expired(r, later))
      && Left(left, automatic', now, daily, weekly) == left
  {
    KeptStays(automatic, automatic', daily, weekly);
  }

  class Catalog {
    var rows: set<Row>
    var files: set<string>

    /**
     One application: the expired rows and the automatic rows that are not kept go, with their
     files; every other row and every other file stays.
     */
    method ApplyRetention(now: int, expired: seq<Row>, automatic: seq<Row>, daily: int, weekly: int)
      requires Selects(rows, expired, automatic, now)
      modifies this
      ensures rows == Left(old(rows), automatic, now, daily, weekly)
      ensures forall r :: r in rows <==>
        && r in old(rows) && !Expired(r, now)
        && (Automatic(r) ==>
              exists i :: 0 <= i < |automatic| && automatic[i] == r && Keep(automatic, i, daily, weekly))
      ensures forall f :: f in files <==>
        f in old(files) && forall r :: r in old(rows) && r !in rows ==> r.filename != f
      ensures forall r :: r in old(rows) && r.deleted ==>
        (r in rows <==> r.purgeAfter.None? || r.purgeAfter.value > now)
      ensures forall r :: r in old(rows) && !r.deleted && (r.kind != "automatic" || !r.completed) ==> r in rows
      ensures forall i :: 0 <= i < |automatic| ==>
        && automatic[i].kind == "automatic" && automatic[i].completed && !automatic[i].deleted
        && (automatic[i] in rows
            <==> IsDaily(|automatic|, i, daily)
                 || ((forall j :: 0 <= j < i ==> automatic[j].week != automatic[i].week)
                     && |WeeksBefore(automatic, i)| < weekly))
    {
      for n := 0 to |expired|
        invariant RowsWithout(rows, old(rows), expired[..n]) && FilesWithout(files, old(files), expired[..n])
      {
        files := files - {expired[n].filename};
        rows := rows - {expired[n]};
        assert expired[..n + 1] == expired[..n] + [expired[n]];
      }
      assert expired[..|expired|] == expired;
      var keep := KeepIds(automatic, daily, weekly);
      ghost var gone: seq<Row> := expired;
      for n := 0 to |automatic|
        invariant RowsWithout(rows, old(rows), gone) && FilesWithout(files, old(files), gone)
        invariant forall r :: r in gone <==> r in expired || (r in automatic[..n] && r.id !in keep)
      {
        assert automatic[..n + 1] == automatic[..n] + [automatic[n]];
        if automatic[n].id !in keep {
          files := files - {automatic[n].filename};
          rows := rows - {automatic[n]};
          gone := gone + [automatic[n]];
        }
      }
      assert automatic[..|automatic|] == automatic;
      GoneIsLeft(old(rows), expired, automatic, now, keep, gone, rows, daily, weekly);
      StaysIff(old(rows), automatic, now, rows, daily, weekly);
    }
  }

  /** Which of the listed automatic rows are left. */
  lemma StaysIff(before: set<Row>, automatic: seq<Row>, now: int, rows: set<Row>, daily: int, weekly: int)
    requires NewestFirst(automatic) && forall r :: r in automatic <==> r in before && Automatic(r)
    requires forall r :: r in rows <==>
      && r in before && !Expired(r, now)
      && (Automatic(r) ==> exists i :: 0 <= i < |automatic| && automatic[i] == r && Keep(automatic, i, daily, weekly))
    ensures forall i :: 0 <= i < |automatic| ==>
      (automatic[i] in rows
       <==> IsDaily(|automatic|, i, daily)
            || ((forall j :: 0 <= j < i ==> automatic[j].week != automatic[i].week)
                && |WeeksBefore(automatic, i)| < weekly))
  {
    forall i | 0 <= i < |automatic|
      ensures automatic[i] in rows <==> Keep(automatic, i, daily, weekly)
      ensures Keep(automatic, i, daily, weekly)
         <==> (IsDaily(|automatic|, i, daily)
               || ((forall j :: 0 <= j < i ==> automatic[j].week != automatic[i].week)
                   && |WeeksBefore(automatic, i)| < weekly))
    {
      KeepMeans(automatic, i, daily, weekly);
      assert automatic[i] in automatic && Automatic(automatic[i]);
    }
  }

  ghost predicate RowsWithout(rows: set<Row>, before: set<Row>, gone: seq<Row>) {
    forall r :: r in rows <==> r in before && r !in gone
  }

  ghost predicate FilesWithout(files: set<string>, before: set<string>, gone: seq<Row>) {
    forall f :: f in files <==> f in before && forall r :: r in gone ==> r.filename != f
  }

  /** The id of a row stands for it: the ids kept select the rows kept. */
  lemma KeptById(automatic: seq<Row>, keep: set<nat>, daily: int, weekly: int, r: Row)
    requires NewestFirst(automatic) && r in automatic
    requires r.id in keep
         <==> exists i :: 0 <= i < |automatic| && automatic[i].id == r.id && Keep(automatic, i, daily, weekly)
    ensures r.id in keep <==> exists i :: 0 <= i < |automatic| && automatic[i] == r && Keep(automatic, i, daily, weekly)
    ensures r.id in keep <==> r in Apply(automatic, daily, weekly)
  {
    var at :| 0 <= at < |automatic| && automatic[at] == r;
    InRetained(automatic, |automatic|, daily, weekly, r);
  }

  /** What the two loops delete is what the application does not leave. */
  lemma GoneIsLeft(before: set<Row>, expired: seq<Row>, automatic: seq<Row>, now: int, keep: set<nat>,
                   gone: seq<Row>, rows: set<Row>, daily: int, weekly: int)
    requires Selects(before, expired, automatic, now) && RowsWithout(rows, before, gone)
    requires forall r :: r in gone <==> r in expired || (r in automatic && r.id !in keep)
    requires forall id ::
      id in keep <==> exists i :: 0 <= i < |automatic| && automatic[i].id == id && Keep(automatic, i, daily, weekly)
    ensures rows == Left(before, automatic, now, daily, weekly)
    ensures forall r :: r in rows <==>
      && r in before && !Expired(r, now)
      && (Automatic(r) ==> exists i :: 0 <= i < |automatic| && automatic[i] == r && Keep(automatic, i, daily, weekly))
    ensures forall r :: r in before && r !in rows <==> r in gone
  {
    forall r | r in automatic
      ensures r.id in keep
         <==> exists i :: 0 <= i < |automatic| && automatic[i] == r && Keep(automatic, i, daily, weekly)
      ensures r.id in keep <==> r in Apply(automatic, daily, weekly)
    {
      KeptById(automatic, keep, daily, weekly, r);
    }
  }
}
