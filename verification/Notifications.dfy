/**
 Convergence of a task's deadline notices. The session does not flush before a query, so a query
 sees the flushed rows while the objects it returns carry the edits not yet flushed; the two are
 kept apart here.
 */
module Notifications {
  import opened Wrappers

  type Id = nat
  type UserId = string
  type TaskId = string

  datatype Kind = Deadline | Overdue | Other

  /** The dedupe keys; `History` is the name a read or revoked row is given to free its key. */
  datatype Key =
    | DeadlineKey(user: UserId, task: TaskId, remaining: int)
    | OverdueKey(user: UserId, task: TaskId)
    | OtherKey(name: string)
    | History(of: Key, id: Id)

  datatype Row = Row(
    user: UserId, task: TaskId, kind: Kind, key: Key, title: string, body: string, read: bool, revoked: bool)

  type Rows = map<Id, Row>

  /** The flushed rows, the edits pending in memory, and the next fresh id. */
  datatype Db = Db(flushed: Rows, pending: Rows, next: Id)

  /** The rows as the objects in memory show them. */
  function View(s: Db): Rows {
    s.flushed + s.pending
  }

  function Flushed(s: Db): Db {
    Db(View(s), map[], s.next)
  }

  /** What a notice for a task should say. */
  datatype Want = Want(key: Key, kind: Kind, title: string, body: string)

  // ---------------------------------------------------------------- the desired notice

  datatype Preference = Preference(enabled: bool, remindOverdue: bool, reminderDays: seq<int>, advanceDays: int)

  /** Days are local calendar days; the two texts are functions of the days left. */
  datatype Task = Task(
    id: TaskId, due: Option<int>, closed: bool,
    deadlineText: int -> (string, string), overdueText: int -> (string, string))

  datatype User = User(id: UserId, sees: bool, preference: Option<Preference>)

  function ReminderDays(p: Option<Preference>): seq<int> {
    if p.Some? && p.value.reminderDays != [] then p.value.reminderDays
    else [if p.Some? then p.value.advanceDays else 3, 0]
  }

  /** Lines 213-248: the notice this user should have today, if any. */
  function Desired(u: User, t: Task, today: int): (w: Option<Want>)
    ensures w.Some? ==> IsFor(w.value, u.id, t.id)
  {
    if t.due.None? || t.closed || (u.preference.Some? && !u.preference.value.enabled) then None
    else
      var remaining := t.due.value - today;
      if remaining in ReminderDays(u.preference) then
        var text := t.deadlineText(remaining);
        Some(Want(DeadlineKey(u.id, t.id, remaining), Deadline, text.0, text.1))
      else if remaining < 0 && (u.preference.None? || u.preference.value.remindOverdue) then
        Some(Want(OverdueKey(u.id, t.id), Overdue, t.overdueText(remaining).0, t.overdueText(remaining).1))
      else None
  }

  /** A wanted notice is named after its user and task. */
  predicate IsFor(w: Want, u: UserId, t: TaskId) {
    || (w.kind == Deadline && w.key.DeadlineKey? && w.key.user == u && w.key.task == t)
    || (w.kind == Overdue && w.key.OverdueKey? && w.key.user == u && w.key.task == t)
  }

  // ---------------------------------------------------------------- the operations

  predicate HasKey(rows: Rows, id: Id, key: Key) {
    id in rows && rows[id].key == key
  }

  /** `select ... where dedupe_key == key`, over the flushed rows. */
  ghost function Holder(rows: Rows, key: Key): (id: Option<Id>)
    ensures id.Some? ==> HasKey(rows, id.value, key)
    ensures id.None? ==> forall i :: !HasKey(rows, i, key)
  {
    if i: Id :| HasKey(rows, i, key) then Some(i) else None
  }

  /** `add_notification`: nothing when a flushed row has the key; else everything is flushed with the new row. */
  ghost function Added(s: Db, u: UserId, t: TaskId, w: Want): Db {
    if Holder(s.flushed, w.key).Some? then s
    else Db(View(s)[s.next := Row(u, t, w.kind, w.key, w.title, w.body, false, false)], map[], s.next + 1)
  }

  predicate Current(row: Row) {
    !row.read && !row.revoked
  }

  /** `_upsert_task_notice`. */
  ghost function Upserted(s: Db, u: UserId, t: TaskId, w: Want): Db {
    var holder := Holder(s.flushed, w.key);
    if holder.None? then Added(s, u, t, w)
    else
      var id, row := holder.value, View(s)[holder.value];
      if Current(row) then s.(pending := s.pending[id := row.(title := w.title, body := w.body)])
      else Added(s.(pending := s.pending[id := row.(revoked := true, key := History(w.key, id))]), u, t, w)
  }

  /** The change `_upsert_task_notice` reports. */
  ghost predicate UpsertChanges(s: Db, w: Want) {
    var holder := Holder(s.flushed, w.key);
    holder.None? || (Current(View(s)[holder.value])
                     && (View(s)[holder.value].title != w.title || View(s)[holder.value].body != w.body))
  }

  predicate About(row: Row, u: UserId, t: TaskId) {
    row.user == u && row.task == t && row.kind != Other
  }

  /** The rows `_revoke_stale_task_notices` selects, by their flushed columns, and keeps by their key in memory. */
  function Standing(s: Db, u: UserId, t: TaskId): set<Id> {
    set id | id in s.flushed && About(s.flushed[id], u, t) && !s.flushed[id].revoked
  }

  function Unwanted(s: Db, ids: set<Id>, desired: set<Key>): set<Id> {
    set id | id in ids && id in View(s) && View(s)[id].key !in desired
  }

  function StaleIds(s: Db, u: UserId, t: TaskId, desired: set<Key>): set<Id> {
    Unwanted(s, Standing(s, u, t), desired)
  }

  function WithRevoked(s: Db, ids: set<Id>): Rows {
    s.pending + map id | id in ids && id in View(s) :: View(s)[id].(revoked := true)
  }

  function Revoked(s: Db, u: UserId, t: TaskId, desired: set<Key>): Db {
    s.(pending := WithRevoked(s, StaleIds(s, u, t, desired)))
  }

  function KeysOf(w: Option<Want>): set<Key> {
    if w.Some? then {w.value.key} else {}
  }

  /** The loop body for one user. */
  ghost function Reconciled1(s: Db, u: User, t: Task, today: int): Db {
    if !u.sees then s
    else
      var w := Desired(u, t, today);
      var s1 := if w.Some? then Upserted(s, u.id, t.id, w.value) else s;
      Revoked(s1, u.id, t.id, KeysOf(w))
  }

  /** `reconcile_task_deadline_notifications`. */
  ghost function Reconciled(s: Db, users: seq<User>, t: Task, today: int): Db {
    if users == [] then s
    else Reconciled1(Reconciled(s, users[..|users| - 1], t, today), users[|users| - 1], t, today)
  }

  /** The changes one user's turn reports. */
  ghost function Changes1(s: Db, u: User, t: Task, today: int): nat {
    if !u.sees then 0
    else
      var w := Desired(u, t, today);
      var s1 := if w.Some? then Upserted(s, u.id, t.id, w.value) else s;
      (if w.Some? && UpsertChanges(s, w.value) then 1 else 0) + |StaleIds(s1, u.id, t.id, KeysOf(w))|
  }

  ghost function Changes(s: Db, users: seq<User>, t: Task, today: int): nat {
    if users == [] then 0
    else
      Changes(s, users[..|users| - 1], t, today)
      + Changes1(Reconciled(s, users[..|users| - 1], t, today), users[|users| - 1], t, today)
  }

  function MarkedRead(s: Db, id: Id): Db {
    if id in s.flushed then s.(pending := s.pending[id := View(s)[id].(read := true)]) else s
  }

  // ---------------------------------------------------------------- what every state keeps

  predicate UniqueKeys(rows: Rows) {
    forall i, j :: i in rows && j in rows && rows[i].key == rows[j].key ==> i == j
  }

  /** An edit keeps whose notice it is, never takes a revocation back, and renames only to its own history key. */
  predicate Edits(id: Id, before: Row, after: Row) {
    && after.user == before.user && after.task == before.task && after.kind == before.kind
    && (before.revoked ==> after.revoked)
    && (after.key == before.key || (after.key == History(before.key, id) && after.revoked))
  }

  predicate OwnHistory(rows: Rows) {
    forall id :: id in rows && rows[id].key.History? ==> rows[id].key.id == id && rows[id].revoked
  }

  /** A row is of the user, the task and the kind its key names. */
  predicate Owned(user: UserId, task: TaskId, kind: Kind, key: Key) {
    match key
    case DeadlineKey(u, t, _) => user == u && task == t && kind == Deadline
    case OverdueKey(u, t) => user == u && task == t && kind == Overdue
    case OtherKey(_) => kind == Other
    case History(of, _) => Owned(user, task, kind, of)
  }

  predicate AllOwned(rows: Rows) {
    forall id :: id in rows ==> Owned(rows[id].user, rows[id].task, rows[id].kind, rows[id].key)
  }

  predicate Inv(s: Db) {
    && s.pending.Keys <= s.flushed.Keys
    && (forall id :: id in s.flushed ==> id < s.next)
    && UniqueKeys(s.flushed) && OwnHistory(s.flushed) && AllOwned(s.flushed)
    && (forall id :: id in s.pending ==> Edits(id, s.flushed[id], s.pending[id]))
  }

  lemma ViewEdits(s: Db, id: Id)
    requires Inv(s) && id in s.flushed
    ensures id in View(s) && Edits(id, s.flushed[id], View(s)[id])
  {
  }

  /** Keys are unique in memory too, so a flush never violates the unique column. */
  lemma ViewIsUnique(s: Db)
    requires Inv(s)
    ensures UniqueKeys(View(s)) && OwnHistory(View(s)) && AllOwned(View(s))
  {
    var v := View(s);
    forall i | i in v ensures Owned(v[i].user, v[i].task, v[i].kind, v[i].key) {
      ViewEdits(s, i);
    }
    forall i, j | i in v && j in v && v[i].key == v[j].key ensures i == j {
      ViewEdits(s, i);
      ViewEdits(s, j);
    }
  }

  lemma FlushKeepsInv(s: Db)
    requires Inv(s)
    ensures Inv(Flushed(s)) && View(Flushed(s)) == View(s)
  {
    ViewIsUnique(s);
  }

  lemma MarkKeepsInv(s: Db, id: Id)
    requires Inv(s)
    ensures Inv(MarkedRead(s, id))
  {
  }

  lemma AddKeepsInv(s: Db, u: UserId, t: TaskId, w: Want)
    requires Inv(s) && Owned(u, t, w.kind, w.key) && !w.key.History?
    ensures Inv(Added(s, u, t, w))
  {
    ViewIsUnique(s);
    if Holder(s.flushed, w.key).None? {
      var v := View(s);
      forall id | id in v ensures v[id].key != w.key {
        assert !HasKey(s.flushed, id, w.key);
      }
    }
  }

  lemma UpsertKeepsInv(s: Db, u: UserId, t: TaskId, w: Want)
    requires Inv(s) && IsFor(w, u, t)
    ensures Inv(Upserted(s, u, t, w))
  {
    var holder := Holder(s.flushed, w.key);
    if holder.None? {
      AddKeepsInv(s, u, t, w);
    } else if !Current(View(s)[holder.value]) {
      var id := holder.value;
      var renamed := s.(pending := s.pending[id := View(s)[id].(revoked := true, key := History(w.key, id))]);
      assert Inv(renamed);
      AddKeepsInv(renamed, u, t, w);
    }
  }

  lemma Reconcile1KeepsInv(s: Db, u: User, t: Task, today: int)
    requires Inv(s)
    ensures Inv(Reconciled1(s, u, t, today))
  {
    var w := Desired(u, t, today);
    if w.Some? {
      UpsertKeepsInv(s, u.id, t.id, w.value);
    }
    var s1 := if w.Some? then Upserted(s, u.id, t.id, w.value) else s;
  }

  /** Every reconcile keeps the keys unique, whatever was read, rescheduled or left unflushed before. */
  lemma {:induction false} ReconcileKeepsInv(s: Db, users: seq<User>, t: Task, today: int)
    requires Inv(s)
    ensures Inv(Reconciled(s, users, t, today))
  {
    if users == [] {
    } else {
      ReconcileKeepsInv(s, users[..|users| - 1], t, today);
      Reconcile1KeepsInv(Reconciled(s, users[..|users| - 1], t, today), users[|users| - 1], t, today);
    }
  }

  // ---------------------------------------------------------------- after a reconcile

  /** Every standing notice of the user for the task has the wanted key; by unique keys there is at most one. */
  predicate OnlyWanted(s: Db, u: UserId, t: TaskId, w: Option<Want>) {
    forall id :: id in View(s) && About(View(s)[id], u, t) && !View(s)[id].revoked ==> View(s)[id].key in KeysOf(w)
  }

  /** No row that was read or revoked still goes by the wanted key. */
  predicate KeyIsCurrent(s: Db, w: Want) {
    forall id :: id in View(s) && View(s)[id].key == w.key ==> Current(View(s)[id])
  }

  predicate Shows(s: Db, u: UserId, t: TaskId, w: Want, id: Id) {
    id in View(s) && About(View(s)[id], u, t) && Current(View(s)[id])
    && View(s)[id].key == w.key && View(s)[id].title == w.title && View(s)[id].body == w.body
  }

  ghost predicate Stands(s: Db, u: UserId, t: TaskId, w: Want) {
    exists id :: Shows(s, u, t, w, id)
  }

  lemma RevokeLeavesWanted(s: Db, u: UserId, t: TaskId, w: Option<Want>)
    requires Inv(s)
    ensures OnlyWanted(Revoked(s, u, t, KeysOf(w)), u, t, w)
  {
    var s' := Revoked(s, u, t, KeysOf(w));
    forall id | id in View(s') && About(View(s')[id], u, t) && !View(s')[id].revoked
      ensures View(s')[id].key in KeysOf(w)
    {
      assert id in s.flushed && id !in StaleIds(s, u, t, KeysOf(w));
    }
  }

  /** No flushed row with the wanted key was read or revoked in memory: a query for the key finds none such. */
  predicate KeyIsFree(s: Db, w: Want) {
    forall id :: id in s.flushed && s.flushed[id].key == w.key ==> Current(View(s)[id])
  }

  /** No rename of the wanted key is waiting for a flush. */
  predicate NotRenamed(s: Db, w: Want) {
    forall id :: id in s.flushed && id in s.pending && s.flushed[id].key == w.key ==> s.pending[id].key == w.key
  }

  lemma UpsertNew(s: Db, u: UserId, t: TaskId, w: Want)
    requires Inv(s) && IsFor(w, u, t) && Holder(s.flushed, w.key).None?
    ensures Stands(Upserted(s, u, t, w), u, t, w) && KeyIsFree(s, w) && KeyIsCurrent(Upserted(s, u, t, w), w)
  {
    var s' := Upserted(s, u, t, w);
    assert Shows(s', u, t, w, s.next);
    forall id | id in View(s) ensures View(s)[id].key != w.key {
      ViewEdits(s, id);
      assert !HasKey(s.flushed, id, w.key);
    }
    forall id | id in s.flushed ensures s.flushed[id].key != w.key {
      assert !HasKey(s.flushed, id, w.key);
    }
  }

  lemma UpsertHeld(s: Db, u: UserId, t: TaskId, w: Want)
    requires Inv(s) && IsFor(w, u, t) && Holder(s.flushed, w.key).Some?
    ensures Stands(Upserted(s, u, t, w), u, t, w) <==> KeyIsFree(s, w)
  {
    var id, s' := Holder(s.flushed, w.key).value, Upserted(s, u, t, w);
    ViewIsUnique(s);
    ViewEdits(s, id);
    assert View(s)[id].user == u && forall i :: i in s.flushed && s.flushed[i].key == w.key ==> i == id;
    if Current(View(s)[id]) {
      assert Shows(s', u, t, w, id);
    } else {
      HeldIsRenamed(s, u, t, w);
    }
  }

  /** A read or revoked holder is renamed, and nothing new is added: the old key is still in the flushed row. */
  lemma HeldIsRenamed(s: Db, u: UserId, t: TaskId, w: Want)
    requires Inv(s) && IsFor(w, u, t) && Holder(s.flushed, w.key).Some?
    requires !Current(View(s)[Holder(s.flushed, w.key).value])
    ensures forall id :: id in View(Upserted(s, u, t, w)) ==> View(Upserted(s, u, t, w))[id].key != w.key
    ensures View(Upserted(s, u, t, w)).Keys == View(s).Keys
  {
    var holder, s' := Holder(s.flushed, w.key).value, Upserted(s, u, t, w);
    forall id | id in View(s') ensures View(s')[id].key != w.key {
      ViewEdits(s, id);
      if id != holder {
        assert s.flushed[id].key != w.key;
      }
    }
  }

  lemma UpsertKeyIsCurrent(s: Db, u: UserId, t: TaskId, w: Want)
    requires Inv(s) && IsFor(w, u, t) && Holder(s.flushed, w.key).Some?
    ensures KeyIsCurrent(Upserted(s, u, t, w), w)
  {
    var holder, s' := Holder(s.flushed, w.key).value, Upserted(s, u, t, w);
    if Current(View(s)[holder]) {
      ViewIsUnique(s);
      forall id | id in View(s') && View(s')[id].key == w.key ensures Current(View(s')[id]) {
        ViewEdits(s, id);
        ViewEdits(s, holder);
      }
    } else {
      HeldIsRenamed(s, u, t, w);
    }
  }

  /** The wanted notice stands after the upsert exactly when no flushed row with its key was read or revoked. */
  lemma UpsertStandsIff(s: Db, u: UserId, t: TaskId, w: Want)
    requires Inv(s) && IsFor(w, u, t)
    ensures Stands(Upserted(s, u, t, w), u, t, w) <==> KeyIsFree(s, w)
    ensures KeyIsCurrent(Upserted(s, u, t, w), w)
  {
    if Holder(s.flushed, w.key).None? {
      UpsertNew(s, u, t, w);
    } else {
      UpsertHeld(s, u, t, w);
      UpsertKeyIsCurrent(s, u, t, w);
    }
  }

  /** Without a pending rename, what a query finds and what memory shows agree on who has the key. */
  lemma FreeIffCurrent(s: Db, w: Want)
    requires Inv(s) && NotRenamed(s, w) && !w.key.History?
    ensures KeyIsFree(s, w) <==> KeyIsCurrent(s, w)
  {
    forall id | id in s.flushed ensures s.flushed[id].key == w.key <==> View(s)[id].key == w.key {
      ViewEdits(s, id);
    }
  }

  lemma RevokeAt(s: Db, u: UserId, t: TaskId, w: Want, id: Id)
    requires Inv(s) && id in View(s)
    ensures var s' := Revoked(s, u, t, {w.key});
      && id in View(s') && View(s')[id].key == View(s)[id].key
      && (View(s)[id].key == w.key ==> View(s')[id] == View(s)[id])
  {
  }

  /** Revoking what is stale touches nothing with the wanted key. */
  lemma RevokeSparesWanted(s: Db, u: UserId, t: TaskId, w: Want)
    requires Inv(s)
    ensures var s' := Revoked(s, u, t, {w.key});
      && (Stands(s', u, t, w) <==> Stands(s, u, t, w)) && (KeyIsCurrent(s', w) <==> KeyIsCurrent(s, w))
  {
    var s' := Revoked(s, u, t, {w.key});
    assert View(s').Keys == View(s).Keys;
    forall id | id in View(s)
      ensures View(s')[id].key == View(s)[id].key && (View(s)[id].key == w.key ==> View(s')[id] == View(s)[id])
    {
      RevokeAt(s, u, t, w, id);
    }
    SameShown(s, s', u, t, w);
  }

  lemma SameShown(s: Db, s': Db, u: UserId, t: TaskId, w: Want)
    requires View(s').Keys == View(s).Keys
    requires forall id :: id in View(s) ==>
      View(s')[id].key == View(s)[id].key && (View(s)[id].key == w.key ==> View(s')[id] == View(s)[id])
    ensures (Stands(s', u, t, w) <==> Stands(s, u, t, w)) && (KeyIsCurrent(s', w) <==> KeyIsCurrent(s, w))
  {
    forall id ensures Shows(s', u, t, w, id) <==> Shows(s, u, t, w, id) {
    }
  }

  /** One user's turn: only the wanted notice can stand, and it does exactly when its key was free. */
  lemma Reconcile1Settles(s: Db, u: User, t: Task, today: int)
    requires Inv(s) && u.sees
    ensures var s' := Reconciled1(s, u, t, today); OnlyWanted(s', u.id, t.id, Desired(u, t, today))
    ensures Desired(u, t, today).Some? ==>
      var w, s' := Desired(u, t, today).value, Reconciled1(s, u, t, today);
      KeyIsCurrent(s', w) && (Stands(s', u.id, t.id, w) <==> KeyIsFree(s, w))
  {
    var w := Desired(u, t, today);
    if w.Some? {
      var s1 := Upserted(s, u.id, t.id, w.value);
      UpsertKeepsInv(s, u.id, t.id, w.value);
      UpsertStandsIff(s, u.id, t.id, w.value);
      RevokeSparesWanted(s1, u.id, t.id, w.value);
      RevokeLeavesWanted(s1, u.id, t.id, w);
    } else {
      RevokeLeavesWanted(s, u.id, t.id, w);
    }
  }

  // ---------------------------------------------------------------- users do not disturb each other

  /** The row in memory, if it is this user's. */
  function RowOf(s: Db, u: UserId, id: Id): Option<Row> {
    if id in View(s) && View(s)[id].user == u then Some(View(s)[id]) else None
  }

  /** The flushed row and its pending edit, if it has one and is this user's. */
  function EditOf(s: Db, u: UserId, id: Id): Option<(Row, Row)> {
    if id in s.pending && id in s.flushed && s.pending[id].user == u then Some((s.flushed[id], s.pending[id])) else None
  }

  predicate SameAt(s: Db, s': Db, u: UserId, id: Id) {
    RowOf(s', u, id) == RowOf(s, u, id) && (EditOf(s', u, id).Some? ==> EditOf(s', u, id) == EditOf(s, u, id))
  }

  /** Nothing of this user's rows changed in memory, and nothing more of them is pending. */
  ghost predicate Untouched(s: Db, s': Db, u: UserId) {
    forall id :: SameAt(s, s', u, id)
  }

  lemma EditTouchesOwn(s: Db, id: Id, row: Row, other: UserId)
    requires Inv(s) && id in s.flushed && View(s)[id].user == row.user != other
    ensures Untouched(s, s.(pending := s.pending[id := row]), other)
  {
    var s' := s.(pending := s.pending[id := row]);
    forall i ensures SameAt(s, s', other, i) {
    }
  }

  lemma UpsertTouchesOwn(s: Db, u: UserId, t: TaskId, w: Want, other: UserId)
    requires Inv(s) && IsFor(w, u, t) && other != u
    ensures Untouched(s, Upserted(s, u, t, w), other)
  {
    var holder := Holder(s.flushed, w.key);
    if holder.Some? {
      var id := holder.value;
      var row := View(s)[id];
      ViewEdits(s, id);
      assert row.user == u;
      if Current(row) {
        EditTouchesOwn(s, id, row.(title := w.title, body := w.body), other);
      } else {
        var renamed := row.(revoked := true, key := History(w.key, id));
        EditTouchesOwn(s, id, renamed, other);
        assert HasKey(s.flushed, id, w.key);
      }
    }
  }

  lemma RevokeTouchesOwn(s: Db, u: UserId, t: TaskId, desired: set<Key>, other: UserId)
    requires Inv(s) && other != u
    ensures Untouched(s, Revoked(s, u, t, desired), other)
  {
    forall i ensures SameAt(s, Revoked(s, u, t, desired), other, i) {
      if i in s.flushed {
        ViewEdits(s, i);
      }
    }
  }

  lemma UntouchedTwice(s: Db, s1: Db, s2: Db, u: UserId)
    requires Untouched(s, s1, u) && Untouched(s1, s2, u)
    ensures Untouched(s, s2, u)
  {
    forall id ensures SameAt(s, s2, u, id) {
      assert SameAt(s, s1, u, id) && SameAt(s1, s2, u, id);
    }
  }

  lemma Reconcile1TouchesOwn(s: Db, u: User, t: Task, today: int, other: UserId)
    requires Inv(s) && other != u.id
    ensures Untouched(s, Reconciled1(s, u, t, today), other)
  {
    var w := Desired(u, t, today);
    if u.sees {
      if w.Some? {
        var s1 := Upserted(s, u.id, t.id, w.value);
        UpsertKeepsInv(s, u.id, t.id, w.value);
        UpsertTouchesOwn(s, u.id, t.id, w.value, other);
        RevokeTouchesOwn(s1, u.id, t.id, KeysOf(w), other);
        UntouchedTwice(s, s1, Reconciled1(s, u, t, today), other);
      } else {
        RevokeTouchesOwn(s, u.id, t.id, KeysOf(w), other);
      }
    }
  }

  /** What was settled for a user stays settled while others have their turn. */
  lemma UntouchedKeeps(s: Db, s': Db, u: UserId, t: TaskId, w: Option<Want>)
    requires Inv(s) && Inv(s') && Untouched(s, s', u) && (w.Some? ==> IsFor(w.value, u, t))
    ensures OnlyWanted(s, u, t, w) ==> OnlyWanted(s', u, t, w)
    ensures w.Some? ==> (Stands(s, u, t, w.value) <==> Stands(s', u, t, w.value))
    ensures w.Some? ==> (KeyIsCurrent(s, w.value) <==> KeyIsCurrent(s', w.value))
    ensures w.Some? && NotRenamed(s, w.value) ==> NotRenamed(s', w.value)
  {
    ViewIsUnique(s);
    ViewIsUnique(s');
    forall id | id in View(s') && About(View(s')[id], u, t) && OnlyWanted(s, u, t, w) && !View(s')[id].revoked
      ensures View(s')[id].key in KeysOf(w)
    {
      assert SameAt(s, s', u, id);
    }
    if w.Some? {
      KeyUntouched(s, s', u, t, w.value);
    }
  }

  lemma KeyUntouched(s: Db, s': Db, u: UserId, t: TaskId, w: Want)
    requires Inv(s) && Inv(s') && Untouched(s, s', u) && IsFor(w, u, t)
    ensures Stands(s, u, t, w) <==> Stands(s', u, t, w)
    ensures KeyIsCurrent(s, w) <==> KeyIsCurrent(s', w)
    ensures NotRenamed(s, w) ==> NotRenamed(s', w)
  {
    ViewIsUnique(s);
    ViewIsUnique(s');
    forall id ensures Shows(s, u, t, w, id) <==> Shows(s', u, t, w, id) {
      assert SameAt(s, s', u, id);
    }
    forall id
      ensures id in View(s) && View(s)[id].key == w.key ==> id in View(s') && View(s')[id] == View(s)[id]
      ensures id in View(s') && View(s')[id].key == w.key ==> id in View(s) && View(s')[id] == View(s)[id]
    {
      assert SameAt(s, s', u, id);
    }
    forall id | NotRenamed(s, w) && id in s'.flushed && id in s'.pending && s'.flushed[id].key == w.key
      ensures s'.pending[id].key == w.key
    {
      assert SameAt(s, s', u, id);
    }
  }

  // ---------------------------------------------------------------- the whole reconcile

  predicate DistinctUsers(users: seq<User>) {
    forall i, j :: 0 <= i < j < |users| ==> users[i].id != users[j].id
  }

  lemma {:induction false} ReconcileTouchesOwn(s: Db, users: seq<User>, t: Task, today: int, other: UserId)
    requires Inv(s) && forall i :: 0 <= i < |users| ==> users[i].id != other
    ensures Untouched(s, Reconciled(s, users, t, today), other)
  {
    if users == [] {
      forall id ensures SameAt(s, s, other, id) {
      }
    } else {
      var n := |users| - 1;
      var s1 := Reconciled(s, users[..n], t, today);
      ReconcileTouchesOwn(s, users[..n], t, today, other);
      ReconcileKeepsInv(s, users[..n], t, today);
      Reconcile1TouchesOwn(s1, users[n], t, today, other);
      UntouchedTwice(s, s1, Reconciled(s, users, t, today), other);
    }
  }

  /** What holds for a user after the reconcile, from the state s it started in. */
  ghost predicate SettledFor(s: Db, s': Db, u: User, t: Task, today: int) {
    var w := Desired(u, t, today);
    && OnlyWanted(s', u.id, t.id, w)
    && (w.Some? ==> KeyIsCurrent(s', w.value))
    && (w.Some? && NotRenamed(s, w.value) ==> (Stands(s', u.id, t.id, w.value) <==> KeyIsCurrent(s, w.value)))
  }

  lemma Reconcile1SettledFor(s: Db, u: User, t: Task, today: int)
    requires Inv(s) && u.sees
    ensures SettledFor(s, Reconciled1(s, u, t, today), u, t, today)
  {
    var w := Desired(u, t, today);
    Reconcile1Settles(s, u, t, today);
    if w.Some? && NotRenamed(s, w.value) {
      FreeIffCurrent(s, w.value);
    }
  }

  lemma SettledCarries(s: Db, s1: Db, s2: Db, s3: Db, u: User, t: Task, today: int)
    requires Inv(s) && Inv(s1) && Inv(s2) && Inv(s3) && Untouched(s, s1, u.id) && Untouched(s2, s3, u.id)
    requires SettledFor(s1, s2, u, t, today)
    ensures SettledFor(s, s3, u, t, today)
  {
    var w := Desired(u, t, today);
    UntouchedKeeps(s, s1, u.id, t.id, w);
    UntouchedKeeps(s2, s3, u.id, t.id, w);
  }

  lemma Unchanged(s: Db, u: UserId)
    ensures Untouched(s, s, u)
  {
    forall id ensures SameAt(s, s, u, id) {
    }
  }

  /**
   After a reconcile every user who sees the task has at most one standing notice for it, with the
   wanted key; if no rename of the key was pending it stands exactly when no row with that key had
   been read or revoked; and no such row goes by the key any more.
   */
  lemma {:induction false} ReconcileSettles(s: Db, users: seq<User>, t: Task, today: int, i: nat)
    requires Inv(s) && DistinctUsers(users) && i < |users| && users[i].sees
    ensures SettledFor(s, Reconciled(s, users, t, today), users[i], t, today)
  {
    var n := |users| - 1;
    var s1, s2 := Reconciled(s, users[..n], t, today), Reconciled(s, users, t, today);
    ReconcileKeepsInv(s, users[..n], t, today);
    ReconcileKeepsInv(s, users, t, today);
    Unchanged(s, users[i].id);
    Unchanged(s2, users[i].id);
    if i < n {
      ReconcileSettles(s, users[..n], t, today, i);
      Reconcile1TouchesOwn(s1, users[n], t, today, users[i].id);
      SettledCarries(s, s, s1, s2, users[i], t, today);
    } else {
      ReconcileTouchesOwn(s, users[..n], t, today, users[i].id);
      Reconcile1SettledFor(s1, users[n], t, today);
      SettledCarries(s, s1, s2, s2, users[i], t, today);
    }
  }

  // ---------------------------------------------------------------- with renames pending

  /** The user's turn would insert a notice, and so flush: no flushed row has the wanted key. */
  ghost predicate Inserts(flushed: Rows, u: User, t: Task, today: int) {
    u.sees && Desired(u, t, today).Some? && Holder(flushed, Desired(u, t, today).value.key).None?
  }

  /** The turn of one of these users inserts a notice. */
  ghost predicate SomeInserts(flushed: Rows, users: seq<User>, t: Task, today: int) {
    exists j :: 0 <= j < |users| && Inserts(flushed, users[j], t, today)
  }

  lemma NoInsertNoFlush(s: Db, u: User, t: Task, today: int)
    requires !Inserts(s.flushed, u, t, today)
    ensures Reconciled1(s, u, t, today).flushed == s.flushed
  {
  }

  ghost predicate NoEdits(s: Db, u: UserId) {
    forall id :: EditOf(s, u, id).None?
  }

  lemma InsertFlushes(s: Db, u: User, t: Task, today: int, other: UserId)
    requires Inserts(s.flushed, u, t, today) && other != u.id
    ensures NoEdits(Reconciled1(s, u, t, today), other)
  {
  }

  lemma UntouchedNoEdits(s: Db, s': Db, u: UserId)
    requires Untouched(s, s', u) && NoEdits(s, u)
    ensures NoEdits(s', u)
  {
    forall id ensures EditOf(s', u, id).None? {
      assert SameAt(s, s', u, id) && EditOf(s, u, id).None?;
    }
  }

  /** Turns of other users flush this user's edits if one of them inserts, and else leave the flushed rows alone. */
  lemma {:induction false} FlushedOrSame(s: Db, users: seq<User>, t: Task, today: int, other: UserId)
    requires Inv(s) && forall i :: 0 <= i < |users| ==> users[i].id != other
    ensures var s' := Reconciled(s, users, t, today);
      if SomeInserts(s.flushed, users, t, today) then NoEdits(s', other) else s'.flushed == s.flushed
  {
    if users == [] {
    } else {
      var n := |users| - 1;
      var s1 := Reconciled(s, users[..n], t, today);
      FlushedOrSame(s, users[..n], t, today, other);
      ReconcileKeepsInv(s, users[..n], t, today);
      LastInserts(s.flushed, users, t, today);
      if SomeInserts(s.flushed, users[..n], t, today) {
        Reconcile1TouchesOwn(s1, users[n], t, today, other);
        UntouchedNoEdits(s1, Reconciled1(s1, users[n], t, today), other);
      } else if Inserts(s.flushed, users[n], t, today) {
        InsertFlushes(s1, users[n], t, today, other);
      } else {
        NoInsertNoFlush(s1, users[n], t, today);
      }
    }
  }

  lemma LastInserts(flushed: Rows, users: seq<User>, t: Task, today: int)
    requires users != []
    ensures SomeInserts(flushed, users, t, today)
       <==> (SomeInserts(flushed, users[..|users| - 1], t, today) || Inserts(flushed, users[|users| - 1], t, today))
  {
    var n := |users| - 1;
    if SomeInserts(flushed, users[..n], t, today) {
      var j :| 0 <= j < n && Inserts(flushed, users[..n][j], t, today);
      assert Inserts(flushed, users[j], t, today);
    }
    if SomeInserts(flushed, users, t, today) && !Inserts(flushed, users[n], t, today) {
      var j :| 0 <= j < |users| && Inserts(flushed, users[j], t, today);
      assert users[..n][j] == users[j];
    }
  }

  lemma SameFlushedFree(s: Db, s': Db, u: UserId, t: TaskId, w: Want)
    requires Inv(s) && Inv(s') && Untouched(s, s', u) && IsFor(w, u, t) && s'.flushed == s.flushed
    ensures KeyIsFree(s', w) <==> KeyIsFree(s, w)
  {
    forall id | id in s.flushed && s.flushed[id].key == w.key ensures View(s')[id] == View(s)[id] {
      ViewEdits(s, id);
      ViewEdits(s', id);
      assert SameAt(s, s', u, id);
    }
  }

  lemma NoEditsFree(s: Db, s': Db, u: UserId, t: TaskId, w: Want)
    requires Inv(s) && Inv(s') && Untouched(s, s', u) && IsFor(w, u, t) && NoEdits(s', u)
    ensures KeyIsFree(s', w) <==> KeyIsCurrent(s, w)
  {
    forall id | id in s'.flushed && id in s'.pending && s'.flushed[id].key == w.key
      ensures s'.pending[id].key == w.key
    {
      ViewEdits(s', id);
      assert EditOf(s', u, id).None?;
    }
    FreeIffCurrent(s', w);
    KeyUntouched(s, s', u, t, w);
  }

  /** What the turns before the user's own make of the key. */
  lemma FreeAtTurn(s: Db, before: seq<User>, t: Task, today: int, u: UserId, w: Want)
    requires Inv(s) && IsFor(w, u, t.id) && forall i :: 0 <= i < |before| ==> before[i].id != u
    ensures KeyIsFree(Reconciled(s, before, t, today), w)
       <==> if SomeInserts(s.flushed, before, t, today) then KeyIsCurrent(s, w) else KeyIsFree(s, w)
  {
    var s1 := Reconciled(s, before, t, today);
    ReconcileKeepsInv(s, before, t, today);
    ReconcileTouchesOwn(s, before, t, today, u);
    FlushedOrSame(s, before, t, today, u);
    if SomeInserts(s.flushed, before, t, today) {
      NoEditsFree(s, s1, u, t.id, w);
    } else {
      SameFlushedFree(s, s1, u, t.id, w);
    }
  }

  lemma OwnTurnStands(s: Db, users: seq<User>, t: Task, today: int, i: nat)
    requires Inv(s) && i < |users| && users[i].sees && Desired(users[i], t, today).Some?
    ensures var w := Desired(users[i], t, today).value;
      Stands(Reconciled(s, users[..i + 1], t, today), users[i].id, t.id, w)
      <==> KeyIsFree(Reconciled(s, users[..i], t, today), w)
  {
    assert users[..i + 1][..i] == users[..i];
    ReconcileKeepsInv(s, users[..i], t, today);
    Reconcile1Settles(Reconciled(s, users[..i], t, today), users[i], t, today);
  }

  lemma OtherTurnKeeps(s: Db, v: User, t: Task, today: int, u: UserId, w: Want)
    requires Inv(s) && v.id != u && IsFor(w, u, t.id)
    ensures Stands(Reconciled1(s, v, t, today), u, t.id, w) <==> Stands(s, u, t.id, w)
  {
    Reconcile1KeepsInv(s, v, t, today);
    Reconcile1TouchesOwn(s, v, t, today, u);
    KeyUntouched(s, Reconciled1(s, v, t, today), u, t.id, w);
  }

  /** From the user's own turn on the notice stands or does not. */
  lemma {:induction false} LaterTurnsKeep(s: Db, users: seq<User>, t: Task, today: int, i: nat, n: nat, w: Want)
    requires Inv(s) && DistinctUsers(users) && i < n <= |users| && IsFor(w, users[i].id, t.id)
    ensures Stands(Reconciled(s, users[..n], t, today), users[i].id, t.id, w)
       <==> Stands(Reconciled(s, users[..i + 1], t, today), users[i].id, t.id, w)
    decreases n
  {
    if n == i + 1 {
    } else {
      LaterTurnsKeep(s, users, t, today, i, n - 1, w);
      ReconcileKeepsInv(s, users[..n - 1], t, today);
      assert users[..n][..n - 1] == users[..n - 1];
      OtherTurnKeeps(Reconciled(s, users[..n - 1], t, today), users[n - 1], t, today, users[i].id, w);
    }
  }

  /**
   Exactly when the wanted notice stands after a reconcile, whatever was pending before: no row the
   user's query finds by the key was read or revoked. The query finds the flushed rows as they were,
   unless an earlier user's turn inserts a notice; then it finds the rows as they were in memory.
   */
  lemma ReconcileStandsIff(s: Db, users: seq<User>, t: Task, today: int, i: nat)
    requires Inv(s) && DistinctUsers(users) && i < |users| && users[i].sees && Desired(users[i], t, today).Some?
    ensures var w := Desired(users[i], t, today).value;
      Stands(Reconciled(s, users, t, today), users[i].id, t.id, w)
      <==> if SomeInserts(s.flushed, users[..i], t, today) then KeyIsCurrent(s, w) else KeyIsFree(s, w)
  {
    var w := Desired(users[i], t, today).value;
    FreeAtTurn(s, users[..i], t, today, users[i].id, w);
    OwnTurnStands(s, users, t, today, i);
    assert users[..|users|] == users;
    LaterTurnsKeep(s, users, t, today, i, |users|, w);
  }

  /**
   Reconciling, flushing and reconciling again gives every such user exactly the wanted notice,
   unread, even if the former one had been read or revoked.
   */
  lemma SecondReconcileStands(s: Db, users: seq<User>, t: Task, today: int, i: nat)
    requires Inv(s) && DistinctUsers(users) && i < |users| && users[i].sees && Desired(users[i], t, today).Some?
    ensures var w := Desired(users[i], t, today).value;
            var s2 := Reconciled(Flushed(Reconciled(s, users, t, today)), users, t, today);
            Stands(s2, users[i].id, t.id, w) && OnlyWanted(s2, users[i].id, t.id, Some(w)) && UniqueKeys(View(s2))
  {
    var s1 := Reconciled(s, users, t, today);
    ReconcileKeepsInv(s, users, t, today);
    FlushKeepsInv(s1);
    ReconcileSettles(s, users, t, today, i);
    ReconcileSettles(Flushed(s1), users, t, today, i);
    ReconcileKeepsInv(Flushed(s1), users, t, today);
    ViewIsUnique(Reconciled(Flushed(s1), users, t, today));
  }

  // ---------------------------------------------------------------- what is reported

  /** Without a flushed row by the key the upsert adds a notice, and reports it. */
  lemma NewIsReported(s: Db, u: UserId, t: TaskId, w: Want)
    requires Inv(s) && Holder(s.flushed, w.key).None?
    ensures UpsertChanges(s, w) && s.next !in View(s)
    ensures View(Upserted(s, u, t, w)) == View(s)[s.next := Row(u, t, w.kind, w.key, w.title, w.body, false, false)]
  {
  }

  /** With a current one it sets the title and the text, and reports that exactly when it makes a difference. */
  lemma ChangedTextIsReported(s: Db, u: UserId, t: TaskId, w: Want, id: Id)
    requires Inv(s) && Holder(s.flushed, w.key) == Some(id) && Current(View(s)[id])
    ensures View(Upserted(s, u, t, w)) == View(s)[id := View(s)[id].(title := w.title, body := w.body)]
    ensures UpsertChanges(s, w) <==> View(Upserted(s, u, t, w))[id] != View(s)[id]
  {
  }

  /** A notice of another kind is added unless a flushed one has its key. */
  lemma OtherIsAdded(s: Db, u: UserId, t: TaskId, name: string, title: string, body: string)
    requires Inv(s)
    ensures (exists id :: id in s.flushed && s.flushed[id].key == OtherKey(name)) ==>
      Done(s, OtherOp(u, t, name, title, body)) == s
    ensures !(exists id :: id in s.flushed && s.flushed[id].key == OtherKey(name)) ==>
      View(Done(s, OtherOp(u, t, name, title, body)))
      == View(s)[s.next := Row(u, t, Other, OtherKey(name), title, body, false, false)]
  {
    forall id: Id ensures HasKey(s.flushed, id, OtherKey(name)) <==>
      id in s.flushed && s.flushed[id].key == OtherKey(name) {
    }
  }

  /** A notice marked as read shows so at once, and nothing else about any notice changes. */
  lemma MarkedReadShows(s: Db, id: Id)
    requires Inv(s) && id in s.flushed
    ensures View(MarkedRead(s, id)) == View(s)[id := View(s)[id].(read := true)]
    ensures MarkedRead(s, id).flushed == s.flushed
  {
  }

  // ---------------------------------------------------------------- in plain fields

  /** The user wants reminders of the task at all: it is due and not closed, and reminders are on. */
  predicate WantsAny(u: User, t: Task) {
    t.due.Some? && !t.closed && (u.preference.Some? ==> u.preference.value.enabled)
  }

  /** A day to remind: one of the user's own, or else so many days ahead (3 by default) and the last day. */
  predicate IsReminderDay(p: Option<Preference>, remaining: int) {
    if p.Some? && |p.value.reminderDays| > 0 then remaining in p.value.reminderDays
    else remaining == 0 || remaining == if p.Some? then p.value.advanceDays else 3
  }

  predicate WantsOverdue(p: Option<Preference>, remaining: int) {
    remaining < 0 && (p.Some? ==> p.value.remindOverdue)
  }

  /** A notice of the task that is in force for the user. */
  predicate InForce(s: Db, u: UserId, t: TaskId, id: Id) {
    id in View(s) && View(s)[id].user == u && View(s)[id].task == t
    && (View(s)[id].kind == Deadline || View(s)[id].kind == Overdue) && !View(s)[id].revoked
  }

  predicate Reads(row: Row, kind: Kind, key: Key, text: (string, string)) {
    row.kind == kind && row.key == key && row.title == text.0 && row.body == text.1
  }

  /** On a reminder day only the notice for that day, past the date only the overdue one, else none is in force. */
  ghost predicate OnlyDue(s: Db, u: User, t: Task, today: int) {
    forall id :: InForce(s, u.id, t.id, id) ==>
      WantsAny(u, t)
      && var remaining := t.due.value - today;
         if IsReminderDay(u.preference, remaining) then
           View(s)[id].kind == Deadline && View(s)[id].key == DeadlineKey(u.id, t.id, remaining)
         else
           WantsOverdue(u.preference, remaining)
           && View(s)[id].kind == Overdue && View(s)[id].key == OverdueKey(u.id, t.id)
  }

  /** And that one is there, unread, with its text. */
  ghost predicate DueStands(s: Db, u: User, t: Task, today: int) {
    WantsAny(u, t) ==>
      var remaining := t.due.value - today;
      if IsReminderDay(u.preference, remaining) then
        exists id :: InForce(s, u.id, t.id, id) && !View(s)[id].read
          && Reads(View(s)[id], Deadline, DeadlineKey(u.id, t.id, remaining), t.deadlineText(remaining))
      else WantsOverdue(u.preference, remaining) ==>
        exists id :: InForce(s, u.id, t.id, id) && !View(s)[id].read
          && Reads(View(s)[id], Overdue, OverdueKey(u.id, t.id), t.overdueText(remaining))
  }

  /** Which notice is wanted. */
  lemma DesiredMeans(u: User, t: Task, today: int)
    ensures var w := Desired(u, t, today);
            if !WantsAny(u, t) then w == None
            else
              var remaining := t.due.value - today;
              if IsReminderDay(u.preference, remaining) then
                w == Some(Want(DeadlineKey(u.id, t.id, remaining), Deadline,
                               t.deadlineText(remaining).0, t.deadlineText(remaining).1))
              else if WantsOverdue(u.preference, remaining) then
                w == Some(Want(OverdueKey(u.id, t.id), Overdue, t.overdueText(remaining).0, t.overdueText(remaining).1))
              else w == None
  {
  }

  lemma OnlyWantedIsOnlyDue(s: Db, u: User, t: Task, today: int)
    requires Inv(s) && OnlyWanted(s, u.id, t.id, Desired(u, t, today))
    ensures OnlyDue(s, u, t, today)
  {
    DesiredMeans(u, t, today);
    ViewIsUnique(s);
  }

  lemma StandsIsDueStands(s: Db, u: User, t: Task, today: int)
    requires Inv(s) && (Desired(u, t, today).Some? ==> Stands(s, u.id, t.id, Desired(u, t, today).value))
    ensures DueStands(s, u, t, today)
  {
    DesiredMeans(u, t, today);
    ViewIsUnique(s);
    var w := Desired(u, t, today);
    if w.Some? {
      var id :| Shows(s, u.id, t.id, w.value, id);
      assert InForce(s, u.id, t.id, id);
    }
  }

  /** After one reconcile every user who sees the task has no notice in force but the one due today. */
  lemma ReconcileLeavesDue(s: Db, users: seq<User>, t: Task, today: int, i: nat)
    requires Inv(s) && DistinctUsers(users) && i < |users| && users[i].sees
    ensures OnlyDue(Reconciled(s, users, t, today), users[i], t, today)
  {
    ReconcileKeepsInv(s, users, t, today);
    ReconcileSettles(s, users, t, today, i);
    OnlyWantedIsOnlyDue(Reconciled(s, users, t, today), users[i], t, today);
  }

  /** After reconcile, flush and reconcile, every such user has exactly the notice due today, unread. */
  lemma TwoReconcilesBringDue(s: Db, users: seq<User>, t: Task, today: int, i: nat)
    requires Inv(s) && DistinctUsers(users) && i < |users| && users[i].sees
    ensures var s2 := Reconciled(Flushed(Reconciled(s, users, t, today)), users, t, today);
            OnlyDue(s2, users[i], t, today) && DueStands(s2, users[i], t, today)
  {
    var s1 := Flushed(Reconciled(s, users, t, today));
    ReconcileKeepsInv(s, users, t, today);
    FlushKeepsInv(Reconciled(s, users, t, today));
    ReconcileKeepsInv(s1, users, t, today);
    ReconcileLeavesDue(s1, users, t, today, i);
    if Desired(users[i], t, today).Some? {
      SecondReconcileStands(s, users, t, today, i);
    }
    StandsIsDueStands(Reconciled(s1, users, t, today), users[i], t, today);
  }

  /** Flushed and memory agree: any pending edit changes nothing. */
  predicate AtRest(s: Db) {
    View(s) == s.flushed
  }

  /** The user's notices are as they should be. */
  ghost predicate Right(s: Db, u: User, t: Task, today: int) {
    var w := Desired(u, t, today);
    u.sees ==> OnlyWanted(s, u.id, t.id, w) && (w.Some? ==> Stands(s, u.id, t.id, w.value))
  }

  lemma UpsertAtRest(s: Db, u: UserId, t: TaskId, w: Want)
    requires Inv(s) && AtRest(s) && IsFor(w, u, t) && Stands(s, u, t, w)
    ensures Upserted(s, u, t, w).flushed == s.flushed && AtRest(Upserted(s, u, t, w)) && !UpsertChanges(s, w)
  {
    var id :| Shows(s, u, t, w, id);
    var holder := Holder(s.flushed, w.key);
    assert HasKey(s.flushed, id, w.key);
    assert holder == Some(id);
    var row := View(s)[id];
    assert row.(title := w.title, body := w.body) == row;
    assert View(Upserted(s, u, t, w)) == View(s);
  }

  lemma NothingStale(s: Db, u: UserId, t: TaskId, w: Option<Want>)
    requires AtRest(s) && OnlyWanted(s, u, t, w)
    ensures StaleIds(s, u, t, KeysOf(w)) == {} && Revoked(s, u, t, KeysOf(w)) == s
  {
    assert StaleIds(s, u, t, KeysOf(w)) == {};
    assert WithRevoked(s, {}) == s.pending;
  }

  lemma RestStep(s: Db, u: User, t: Task, today: int)
    requires Inv(s) && AtRest(s) && Right(s, u, t, today)
    ensures var s' := Reconciled1(s, u, t, today);
            s'.flushed == s.flushed && AtRest(s') && Inv(s') && Changes1(s, u, t, today) == 0
  {
    var w := Desired(u, t, today);
    Reconcile1KeepsInv(s, u, t, today);
    if u.sees {
      var s1 := if w.Some? then Upserted(s, u.id, t.id, w.value) else s;
      if w.Some? {
        UpsertAtRest(s, u.id, t.id, w.value);
      }
      NothingStale(s1, u.id, t.id, w);
    }
  }

  /** Reconciling what is right changes and reports nothing. */
  lemma {:induction false} RightStaysAtRest(s: Db, users: seq<User>, t: Task, today: int)
    requires Inv(s) && AtRest(s) && forall i :: 0 <= i < |users| ==> Right(s, users[i], t, today)
    ensures var s' := Reconciled(s, users, t, today);
            s'.flushed == s.flushed && AtRest(s') && Inv(s') && Changes(s, users, t, today) == 0
  {
    if users == [] {
    } else {
      var n := |users| - 1;
      RightStaysAtRest(s, users[..n], t, today);
      assert View(Reconciled(s, users[..n], t, today)) == View(s) && Right(s, users[n], t, today);
      RightCarries(s, Reconciled(s, users[..n], t, today), users[n], t, today);
      RestStep(Reconciled(s, users[..n], t, today), users[n], t, today);
    }
  }

  lemma RightCarries(s: Db, s': Db, u: User, t: Task, today: int)
    requires View(s) == View(s') && Right(s, u, t, today)
    ensures Right(s', u, t, today)
  {
    var w := Desired(u, t, today);
    if u.sees && w.Some? {
      var id :| Shows(s, u.id, t.id, w.value, id);
      assert Shows(s', u.id, t.id, w.value, id);
    }
  }

  /** Convergence: the third reconcile, with a flush before each, finds everything right from any state. */
  lemma ThirdReconcileIsIdle(s: Db, users: seq<User>, t: Task, today: int)
    requires Inv(s) && DistinctUsers(users)
    ensures var s2 := Flushed(Reconciled(Flushed(Reconciled(s, users, t, today)), users, t, today));
            var s3 := Reconciled(s2, users, t, today);
            Changes(s2, users, t, today) == 0 && s3.flushed == s2.flushed && View(s3) == View(s2)
  {
    var s1 := Flushed(Reconciled(s, users, t, today));
    var r2 := Reconciled(s1, users, t, today);
    ReconcileKeepsInv(s, users, t, today);
    FlushKeepsInv(Reconciled(s, users, t, today));
    ReconcileKeepsInv(s1, users, t, today);
    FlushKeepsInv(r2);
    forall i | 0 <= i < |users| ensures Right(Flushed(r2), users[i], t, today) {
      if users[i].sees {
        ReconcileSettles(s1, users, t, today, i);
        if Desired(users[i], t, today).Some? {
          SecondReconcileStands(s, users, t, today, i);
        }
      }
      RightCarries(r2, Flushed(r2), users[i], t, today);
    }
    RightStaysAtRest(Flushed(r2), users, t, today);
  }

  /**
   The first reconcile alone may leave a user with none: the row just renamed still has the key in
   the flushed table, so the new notice is taken for a duplicate.
   */
  lemma ReadNoticeIsNotReplacedAtOnce(u: User, t: Task, today: int, id: Id, title: string, body: string)
    requires u.sees && Desired(u, t, today).Some?
    ensures var w := Desired(u, t, today).value;
            var s := Db(map[id := Row(u.id, t.id, w.kind, w.key, title, body, true, false)], map[], id + 1);
            Inv(s) && !Stands(Reconciled(s, [u], t, today), u.id, t.id, w)
  {
    var w := Desired(u, t, today).value;
    var s := Db(map[id := Row(u.id, t.id, w.kind, w.key, title, body, true, false)], map[], id + 1);
    assert View(s)[id].key == w.key && !KeyIsCurrent(s, w);
    ReconcileSettles(s, [u], t, today, 0);
  }

  // ---------------------------------------------------------------- runs

  /** A reconcile, a mark as read, a flush (or commit), or a notice of another kind. */
  datatype Op =
    | ReconcileOp(users: seq<User>, task: Task, today: int)
    | ReadOp(id: Id)
    | FlushOp
    | OtherOp(user: UserId, taskId: TaskId, name: string, title: string, body: string)

  ghost function Done(s: Db, op: Op): Db {
    match op
    case ReconcileOp(users, t, today) => Reconciled(s, users, t, today)
    case ReadOp(id) => MarkedRead(s, id)
    case FlushOp => Flushed(s)
    case OtherOp(u, t, name, title, body) => Added(s, u, t, Want(OtherKey(name), Other, title, body))
  }

  ghost function AllDone(s: Db, ops: seq<Op>): Db {
    if ops == [] then s else Done(AllDone(s, ops[..|ops| - 1]), ops[|ops| - 1])
  }

  const EMPTY := Db(map[], map[], 0)

  /** In every run, with tasks and preferences changed at will in between, the dedupe keys stay unique. */
  lemma {:induction false} KeysStayUnique(ops: seq<Op>)
    ensures Inv(AllDone(EMPTY, ops))
    ensures UniqueKeys(AllDone(EMPTY, ops).flushed) && UniqueKeys(View(AllDone(EMPTY, ops)))
  {
    if ops != [] {
      var s := AllDone(EMPTY, ops[..|ops| - 1]);
      KeysStayUnique(ops[..|ops| - 1]);
      match ops[|ops| - 1] {
        case ReconcileOp(users, t, today) => ReconcileKeepsInv(s, users, t, today);
        case ReadOp(id) => MarkKeepsInv(s, id);
        case FlushOp => FlushKeepsInv(s);
        case OtherOp(u, t, name, title, body) => AddKeepsInv(s, u, t, Want(OtherKey(name), Other, title, body));
      }
    }
    ViewIsUnique(AllDone(EMPTY, ops));
  }

  // ---------------------------------------------------------------- the session

  class Session {
    var flushed: Rows
    var pending: Rows
    var next: Id

    constructor ()
      ensures Now() == EMPTY
    {
      flushed, pending, next := map[], map[], 0;
    }

    function Now(): Db
      reads this
    {
      Db(flushed, pending, next)
    }

    method Flush()
      modifies this
      ensures Now() == Flushed(old(Now()))
    {
      flushed := flushed + pending;
      pending := map[];
    }

    method Find(key: Key) returns (id: Option<Id>)
      requires Inv(Now())
      ensures id == Holder(flushed, key)
    {
      var rest := flushed.Keys;
      while rest != {}
        invariant rest <= flushed.Keys
        invariant forall i :: HasKey(flushed, i, key) ==> i in rest
        decreases rest
      {
        var i :| i in rest;
        if flushed[i].key == key {
          assert HasKey(flushed, i, key);
          return Some(i);
        }
        rest := rest - {i};
      }
      return None;
    }

    /** `add_notification`. */
    method Add(u: UserId, t: TaskId, w: Want) returns (added: bool)
      requires Inv(Now())
      modifies this
      ensures Now() == Added(old(Now()), u, t, w)
      ensures added <==> Holder(old(flushed), w.key).None?
    {
      var holder := Find(w.key);
      if holder.Some? {
        return false;
      }
      pending := pending[next := Row(u, t, w.kind, w.key, w.title, w.body, false, false)];
      next := next + 1;
      Flush();
      assert flushed == View(old(Now()))[old(next) := Row(u, t, w.kind, w.key, w.title, w.body, false, false)];
      return true;
    }

    /** `_upsert_task_notice`. */
    method Upsert(u: UserId, t: TaskId, w: Want) returns (changed: bool)
      requires Inv(Now()) && IsFor(w, u, t)
      modifies this
      ensures Now() == Upserted(old(Now()), u, t, w)
      ensures changed <==> UpsertChanges(old(Now()), w)
    {
      var holder := Find(w.key);
      if holder.Some? {
        var id := holder.value;
        var row := if id in pending then pending[id] else flushed[id];
        if !row.revoked && !row.read {
          pending := pending[id := row.(title := w.title, body := w.body)];
          return row.title != w.title || row.body != w.body;
        }
        pending := pending[id := row.(revoked := true, key := History(w.key, id))];
        RenameKeepsInv(old(Now()), u, t, w);
        assert HasKey(flushed, id, w.key);
      }
      changed := Add(u, t, w);
    }

    /** `_revoke_stale_task_notices`: the rows are selected before the first is changed. */
    method RevokeStale(u: UserId, t: TaskId, desired: set<Key>) returns (revoked: nat)
      modifies this
      ensures Now() == Revoked(old(Now()), u, t, desired)
      ensures revoked == |StaleIds(old(Now()), u, t, desired)|
    {
      ghost var before := Now();
      var selected := set id | id in flushed && About(flushed[id], u, t) && !flushed[id].revoked;
      assert selected == Standing(before, u, t);
      revoked := RevokeAll(selected, desired, before);
    }

    method RevokeAll(selected: set<Id>, desired: set<Key>, ghost before: Db) returns (revoked: nat)
      requires before == Now() && selected <= flushed.Keys
      modifies this`pending
      ensures RevokedSoFar(before, selected, desired, pending, revoked)
    {
      var rest := selected;
      ghost var seen: set<Id> := {};
      revoked := 0;
      NoneRevoked(before, desired);
      while rest != {}
        invariant seen + rest == selected && seen !! rest
        invariant RevokedSoFar(before, seen, desired, pending, revoked)
        decreases rest
      {
        var id :| id in rest;
        OneMoreRevoked(before, seen, desired, pending, revoked, id);
        var row := if id in pending then pending[id] else flushed[id];
        if row.key !in desired {
          pending := pending[id := row.(revoked := true)];
          revoked := revoked + 1;
        }
        rest, seen := rest - {id}, seen + {id};
      }
      assert seen == selected;
    }

    /** `reconcile_task_deadline_notifications`: the count of what was added, changed or revoked. */
    method Reconcile(users: seq<User>, t: Task, today: int) returns (changed: nat)
      requires Inv(Now())
      modifies this
      ensures Now() == Reconciled(old(Now()), users, t, today) && Inv(Now())
      ensures changed == Changes(old(Now()), users, t, today)
      ensures DistinctUsers(users) ==>
        forall i :: 0 <= i < |users| && users[i].sees ==> OnlyDue(Now(), users[i], t, today)
    {
      if DistinctUsers(users) {
        forall i | 0 <= i < |users| && users[i].sees
          ensures OnlyDue(Reconciled(Now(), users, t, today), users[i], t, today)
        {
          ReconcileLeavesDue(Now(), users, t, today, i);
        }
      }
      changed := 0;
      for i := 0 to |users|
        invariant Now() == Reconciled(old(Now()), users[..i], t, today) && Inv(Now())
        invariant changed == Changes(old(Now()), users[..i], t, today)
      {
        assert users[..i + 1][..i] == users[..i] && users[..i + 1][i] == users[i];
        var one := Reconcile1(users[i], t, today);
        changed := changed + one;
      }
      assert users[..|users|] == users;
    }

    method Reconcile1(u: User, t: Task, today: int) returns (changed: nat)
      requires Inv(Now())
      modifies this
      ensures Now() == Reconciled1(old(Now()), u, t, today) && Inv(Now())
      ensures changed == Changes1(old(Now()), u, t, today)
    {
      Reconcile1KeepsInv(Now(), u, t, today);
      if !u.sees {
        return 0;
      }
      var w := Desired(u, t, today);
      changed := 0;
      if w.Some? {
        UpsertKeepsInv(Now(), u.id, t.id, w.value);
        var upserted := Upsert(u.id, t.id, w.value);
        changed := if upserted then 1 else 0;
      }
      var revoked := RevokeStale(u.id, t.id, KeysOf(w));
      changed := changed + revoked;
    }
  }

  lemma UnwantedStep(s: Db, ids: set<Id>, desired: set<Key>, id: Id)
    requires id in s.flushed && id !in ids
    ensures Unwanted(s, ids + {id}, desired)
         == Unwanted(s, ids, desired) + (if View(s)[id].key in desired then {} else {id})
    ensures id !in Unwanted(s, ids, desired)
    ensures |Unwanted(s, ids + {id}, desired)|
         == |Unwanted(s, ids, desired)| + if View(s)[id].key in desired then 0 else 1
  {
    assert Unwanted(s, ids + {id}, desired)
        == Unwanted(s, ids, desired) + (if View(s)[id].key in desired then {} else {id});
  }

  /** The selected rows seen so far are revoked as they stand in memory, or left. */
  predicate RevokedSoFar(s: Db, seen: set<Id>, desired: set<Key>, pending: Rows, revoked: nat) {
    var done := Unwanted(s, seen, desired);
    revoked == |done| && pending == WithRevoked(s, done)
  }

  lemma NoneRevoked(s: Db, desired: set<Key>)
    ensures RevokedSoFar(s, {}, desired, s.pending, 0)
  {
    assert WithRevoked(s, {}) == s.pending;
  }

  lemma OneMoreRevoked(s: Db, seen: set<Id>, desired: set<Key>, pending: Rows, revoked: nat, id: Id)
    requires id in s.flushed && id !in seen && RevokedSoFar(s, seen, desired, pending, revoked)
    ensures var row := if id in pending then pending[id] else s.flushed[id];
      if row.key in desired then RevokedSoFar(s, seen + {id}, desired, pending, revoked)
      else RevokedSoFar(s, seen + {id}, desired, pending[id := row.(revoked := true)], revoked + 1)
  {
    var done := Unwanted(s, seen, desired);
    UnwantedStep(s, seen, desired, id);
    WithRevokedStep(s, done, id);
    if View(s)[id].key in desired {
      assert done + {} == done;
    }
  }

  lemma WithRevokedStep(s: Db, ids: set<Id>, id: Id)
    requires id in s.flushed && id !in ids
    ensures WithRevoked(s, ids)[id := View(s)[id].(revoked := true)] == WithRevoked(s, ids + {id})
    ensures (if id in WithRevoked(s, ids) then WithRevoked(s, ids)[id] else s.flushed[id]) == View(s)[id]
  {
  }

  lemma RenameKeepsInv(s: Db, u: UserId, t: TaskId, w: Want)
    requires Inv(s) && IsFor(w, u, t) && Holder(s.flushed, w.key).Some?
    ensures var id := Holder(s.flushed, w.key).value;
            Inv(s.(pending := s.pending[id := View(s)[id].(revoked := true, key := History(w.key, id))]))
  {
  }
}
