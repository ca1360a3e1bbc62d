/**
 The maintenance gate and the process-wide write lock of `DatabaseRuntime`.

 Every atomic section of the source (one critical section of the condition, one
 lock operation, one update of `session.info`) is one action of a thread. A run is
 any sequence of enabled actions, so it covers every interleaving. A session is in
 one thread's hands at a time, but not always in the same thread's: what one thread
 began another may end. The class `DatabaseRuntime` holds the mutable fields; each of
 its methods is one atomic section, proved to be exactly the action the proofs are about.
 */
module DatabaseGate {
  import opened Wrappers

  type Thread = nat

  type Session = nat

  /** The values of `session.info["partyops_activity_state"]`; the thread is recorded for the proofs only. */
  datatype Mark = Active | MaintenanceOwner(maintainer: Thread)

  /** Where a thread stands between two atomic sections. */
  datatype Pc =
    | Running                             // application code
    | Entering(s: Session, write: bool)   // unmarked, about to take the condition
    | WantLock(s: Session)                // about to call write_lock.acquire()
    | LockTaken(s: Session)               // acquired, flag not yet stored
    | MarkPopped(s: Session)              // "active" popped, decrement pending
    | Left(s: Session)                    // activity left, flag not yet looked at
    | FlagPopped(s: Session, acquirer: Thread) // flag popped, release pending
    | WantDirect                          // about to enter `with write_lock`
    | Draining                            // inside the wait loop

  /** The session a thread is just busy with. */
  function BusyWith(pc: Pc): Option<Session> {
    match pc
    case Entering(s, _) => Some(s)
    case WantLock(s) => Some(s)
    case LockTaken(s) => Some(s)
    case MarkPopped(s) => Some(s)
    case Left(s) => Some(s)
    case FlagPopped(s, _) => Some(s)
    case _ => None
  }

  /** `writeHeld` has the sessions with the flag, `lost` the refused releases, by the threads that had acquired. */
  datatype State = State(
    activeSessions: int,
    maintenanceActive: bool,
    maintenanceOwner: Option<Thread>,
    body: Option<Thread>,                 // the thread running the maintenance body
    lockOwner: Option<Thread>,
    lockDepth: int,
    marks: map<Session, Mark>,
    writeHeld: map<Session, Thread>,
    direct: map<Thread, nat>,             // nested `with write_lock` blocks
    lost: map<Thread, nat>,
    pcs: map<Thread, Pc>)
  {
    function PcOf(t: Thread): Pc {
      if t in pcs then pcs[t] else Running
    }

    function DirectOf(t: Thread): nat {
      if t in direct then direct[t] else 0
    }

    function LostOf(t: Thread): nat {
      if t in lost then lost[t] else 0
    }

    predicate LockFreeFor(t: Thread) {
      lockOwner == None || lockOwner == Some(t)
    }

    predicate InUse(s: Session) {
      exists t :: t in pcs && BusyWith(pcs[t]) == Some(s)
    }
  }

  const INITIAL := State(0, false, None, None, None, 0, map[], map[], map[], map[], map[])

  datatype Action =
    | BeginEnter(t: Thread, s: Session, write: bool)
    | EnterGate(t: Thread)
    | Acquire(t: Thread)
    | SetFlag(t: Thread)
    | EndOutermost(t: Thread, s: Session)
    | Decrement(t: Thread)
    | CheckFlag(t: Thread)
    | Release(t: Thread)
    | RequestDirect(t: Thread)
    | AcquireDirect(t: Thread)
    | ReleaseDirect(t: Thread)
    | StartMaintenance(t: Thread)
    | DrainDone(t: Thread)
    | DrainTimeout(t: Thread)
    | EndBody(t: Thread)

  predicate Enabled(st: State, a: Action) {
    var pc := st.PcOf(a.t);
    match a
    case BeginEnter(_, s, _) => pc == Running && !st.InUse(s)
    case EnterGate(_) => pc.Entering?
    case Acquire(t) => pc.WantLock? && st.LockFreeFor(t)
    case SetFlag(_) => pc.LockTaken?
    case EndOutermost(_, s) => pc == Running && !st.InUse(s)
    case Decrement(_) => pc.MarkPopped?
    case CheckFlag(_) => pc.Left?
    case Release(_) => pc.FlagPopped?
    case RequestDirect(_) => pc == Running
    case AcquireDirect(t) => pc.WantDirect? && st.LockFreeFor(t)
    case ReleaseDirect(t) => pc == Running && st.DirectOf(t) > 0
    case StartMaintenance(_) => pc == Running
    case DrainDone(_) => pc == Draining && st.activeSessions == 0
    case DrainTimeout(_) => pc == Draining && st.activeSessions != 0
    case EndBody(t) => pc == Running && st.body == Some(t)
  }

  function Goto(st: State, t: Thread, pc: Pc): State {
    st.(pcs := st.pcs[t := pc])
  }

  /** Where a thread goes once its session is marked. */
  function AfterMark(st: State, s: Session, write: bool): Pc {
    if write && s !in st.writeHeld then WantLock(s) else Running
  }

  function Max0(x: int): int {
    if x < 0 then 0 else x
  }

  function DropLock(st: State): State {
    st.(lockDepth := st.lockDepth - 1,
        lockOwner := if st.lockDepth - 1 == 0 then None else st.lockOwner)
  }

  function TakeLock(st: State, t: Thread): State {
    st.(lockOwner := Some(t), lockDepth := st.lockDepth + 1)
  }

  /** The actions that change marks and flags. */
  predicate OnSession(a: Action) {
    a.BeginEnter? || a.EnterGate? || a.SetFlag? || a.EndOutermost? || a.Decrement? || a.CheckFlag?
  }

  /** The actions of a drain and of a body. */
  predicate OnGate(a: Action) {
    a.StartMaintenance? || a.DrainDone? || a.DrainTimeout? || a.EndBody?
  }

  function ApplyOnSession(st: State, a: Action): State
    requires Enabled(st, a) && OnSession(a)
  {
    match a
    case BeginEnter(t, s, write) =>
      Goto(st, t, if s in st.marks then AfterMark(st, s, write) else Entering(s, write))
    case EnterGate(t) =>
      var pc := st.PcOf(t);
      if st.maintenanceActive then
        if st.maintenanceOwner == Some(t) then
          Goto(st.(marks := st.marks[pc.s := MaintenanceOwner(t)]), t, AfterMark(st, pc.s, pc.write))
        else
          Goto(st, t, Running)  // 503 DATABASE_MAINTENANCE
      else
        Goto(st.(activeSessions := st.activeSessions + 1, marks := st.marks[pc.s := Active]),
             t, AfterMark(st, pc.s, pc.write))
    case SetFlag(t) =>
      Goto(st.(writeHeld := st.writeHeld[st.PcOf(t).s := t]), t, Running)
    case EndOutermost(t, s) =>
      Goto(st.(marks := st.marks - {s}), t,
           if s in st.marks && st.marks[s] == Active then MarkPopped(s) else Left(s))
    case Decrement(t) =>
      Goto(st.(activeSessions := Max0(st.activeSessions - 1)), t, Left(st.PcOf(t).s))
    case CheckFlag(t) =>
      var s := st.PcOf(t).s;
      if s in st.writeHeld then
        Goto(st.(writeHeld := st.writeHeld - {s}), t, FlagPopped(s, st.writeHeld[s]))
      else
        Goto(st, t, Running)
  }

  function ApplyOnLock(st: State, a: Action): State
    requires Enabled(st, a) && !OnSession(a) && !OnGate(a)
  {
    match a
    case Acquire(t) =>
      Goto(TakeLock(st, t), t, LockTaken(st.PcOf(t).s))
    case Release(t) =>
      if st.lockOwner == Some(t) then
        Goto(DropLock(st), t, Running)
      else  // RuntimeError: the lock is another thread's
        var u := st.PcOf(t).acquirer;
        Goto(st.(lost := st.lost[u := st.LostOf(u) + 1]), t, Running)
    case RequestDirect(t) =>
      Goto(st, t, WantDirect)
    case AcquireDirect(t) =>
      Goto(TakeLock(st, t).(direct := st.direct[t := st.DirectOf(t) + 1]), t, Running)
    case ReleaseDirect(t) =>
      DropLock(st).(direct := st.direct[t := st.DirectOf(t) - 1])
  }

  function ApplyOnGate(st: State, a: Action): State
    requires Enabled(st, a) && OnGate(a)
  {
    match a
    case StartMaintenance(t) =>
      if st.maintenanceActive then
        st  // 409 DATABASE_MAINTENANCE_ACTIVE
      else
        var closed := st.(maintenanceActive := true, maintenanceOwner := Some(t));
        if st.activeSessions == 0 then closed.(body := Some(t)) else Goto(closed, t, Draining)
    case DrainDone(t) =>
      Goto(st.(body := Some(t)), t, Running)
    case DrainTimeout(t) =>
      Goto(st.(maintenanceActive := false, maintenanceOwner := None), t, Running)
    case EndBody(t) =>
      st.(maintenanceActive := false, maintenanceOwner := None, body := None)
  }

  function Apply(st: State, a: Action): State
    requires Enabled(st, a)
  {
    if OnSession(a) then ApplyOnSession(st, a) else if OnGate(a) then ApplyOnGate(st, a) else ApplyOnLock(st, a)
  }

  // ---------------------------------------------------------------- runs

  /** Every action of the sequence is enabled where it is taken. */
  predicate IsRun(st: State, acts: seq<Action>)
    decreases |acts|
  {
    acts == [] || (Enabled(st, acts[0]) && IsRun(Apply(st, acts[0]), acts[1..]))
  }

  function After(st: State, acts: seq<Action>): State
    requires IsRun(st, acts)
    decreases |acts|
  {
    if acts == [] then st else After(Apply(st, acts[0]), acts[1..])
  }

  // ---------------------------------------------------------------- the invariant

  function ActiveMarked(marks: map<Session, Mark>): set<Session> {
    set s | s in marks && marks[s] == Active
  }

  /** Threads that popped an "active" mark and have not decremented yet. */
  function Leaving(pcs: map<Thread, Pc>): set<Thread> {
    set t | t in pcs && pcs[t].MarkPopped?
  }

  /** The sessions whose flag stands for an acquisition by t. */
  function HeldBy(writeHeld: map<Session, Thread>, t: Thread): set<Session> {
    set s | s in writeHeld && writeHeld[s] == t
  }

  /** The threads about to release what t acquired. */
  function Releasing(pcs: map<Thread, Pc>, t: Thread): set<Thread> {
    set u | u in pcs && pcs[u].FlagPopped? && pcs[u].acquirer == t
  }

  /** How many acquisitions of the write lock by t have not been released. */
  function Holds(st: State, t: Thread): nat {
    |HeldBy(st.writeHeld, t)| + |Releasing(st.pcs, t)| + One(st.PcOf(t).LockTaken?) + st.DirectOf(t) + st.LostOf(t)
  }

  /** The counter is the marked sessions plus those between lines 77 and 81. */
  ghost predicate CountInv(st: State) {
    st.activeSessions == |ActiveMarked(st.marks)| + |Leaving(st.pcs)|
  }

  ghost predicate GateInv(st: State) {
    && (st.maintenanceActive <==> st.maintenanceOwner.Some?)
    && (st.maintenanceActive ==> st.body == st.maintenanceOwner
                                 || st.PcOf(st.maintenanceOwner.value) == Draining)
    && (forall t: Thread :: st.PcOf(t) == Draining ==> st.maintenanceOwner == Some(t) && st.body == None)
    && (st.body.Some? ==> st.maintenanceOwner == st.body && st.activeSessions == 0)
  }

  /** The depth is what the owner acquired and nobody released; no other thread has anything unreleased. */
  ghost predicate LockInv(st: State) {
    && (st.lockOwner == None ==> st.lockDepth == 0)
    && (st.lockOwner.Some? ==> st.lockDepth == Holds(st, st.lockOwner.value) > 0)
    && (forall t: Thread :: st.lockOwner != Some(t) ==> Holds(st, t) == 0)
  }

  /** What a thread's program counter says about the session it is busy with. */
  ghost predicate PcInv(st: State, t: Thread) {
    match st.PcOf(t)
    case Entering(s, _) => s !in st.marks && s !in st.writeHeld
    case WantLock(s) => s in st.marks && s !in st.writeHeld
    case LockTaken(s) => s in st.marks && s !in st.writeHeld
    case MarkPopped(s) => s !in st.marks
    case Left(s) => s !in st.marks
    case FlagPopped(s, _) => s !in st.marks && s !in st.writeHeld
    case _ => true
  }

  /** No two threads are busy with one session. */
  ghost predicate AloneInv(st: State) {
    forall t: Thread, u: Thread ::
      BusyWith(st.PcOf(t)).Some? && BusyWith(st.PcOf(t)) == BusyWith(st.PcOf(u)) ==> t == u
  }

  predicate Ending(pc: Pc, s: Session) {
    pc == MarkPopped(s) || pc == Left(s)
  }

  /** A write-lock flag belongs to a marked session, or to one on its way to the release. */
  ghost predicate FlagInv(st: State) {
    forall s :: s in st.writeHeld && s !in st.marks ==> exists t :: t in st.pcs && Ending(st.pcs[t], s)
  }

  ghost predicate Inv(st: State) {
    && CountInv(st)
    && GateInv(st)
    && LockInv(st)
    && (forall t: Thread :: PcInv(st, t))
    && AloneInv(st)
    && FlagInv(st)
  }

  // ---------------------------------------------------------------- preservation

  function One(b: bool): nat {
    if b then 1 else 0
  }

  lemma SplitOff<T>(xs: set<T>, x: T)
    ensures |xs| == |xs - {x}| + One(x in xs)
  {
    if x in xs {
      assert xs == (xs - {x}) + {x};
    } else {
      assert xs == xs - {x};
    }
  }

  lemma LeavingGoto(pcs: map<Thread, Pc>, t: Thread, pc: Pc)
    ensures |Leaving(pcs[t := pc])|
         == |Leaving(pcs)| + One(pc.MarkPopped?) - One(t in pcs && pcs[t].MarkPopped?)
  {
    var leaving := Leaving(pcs[t := pc]);
    assert leaving - {t} == Leaving(pcs) - {t};
    assert t in leaving <==> pc.MarkPopped?;
    assert t in Leaving(pcs) <==> t in pcs && pcs[t].MarkPopped?;
    SplitOff(leaving, t);
    SplitOff(Leaving(pcs), t);
  }

  lemma ActiveMarkedAdd(marks: map<Session, Mark>, s: Session, m: Mark)
    requires s !in marks
    ensures |ActiveMarked(marks[s := m])| == |ActiveMarked(marks)| + One(m == Active)
  {
    assert ActiveMarked(marks[s := m]) - {s} == ActiveMarked(marks);
    assert s in ActiveMarked(marks[s := m]) <==> m == Active;
  }

  lemma ActiveMarkedDrop(marks: map<Session, Mark>, s: Session)
    ensures |ActiveMarked(marks - {s})|
         == |ActiveMarked(marks)| - One(s in marks && marks[s] == Active)
  {
    assert ActiveMarked(marks - {s}) == ActiveMarked(marks) - {s};
    assert s in ActiveMarked(marks) <==> s in marks && marks[s] == Active;
  }

  lemma CountEnterGate(st: State, a: Action)
    requires Enabled(st, a) && CountInv(st) && PcInv(st, a.t) && a.EnterGate?
    ensures CountInv(Apply(st, a))
  {
    var pc := st.PcOf(a.t);
    LeavingGoto(st.pcs, a.t, Apply(st, a).PcOf(a.t));
    ActiveMarkedAdd(st.marks, pc.s, Active);
    ActiveMarkedAdd(st.marks, pc.s, MaintenanceOwner(a.t));
  }

  lemma CountEndOutermost(st: State, a: Action)
    requires Enabled(st, a) && CountInv(st) && a.EndOutermost?
    ensures CountInv(Apply(st, a))
  {
    LeavingGoto(st.pcs, a.t, Apply(st, a).PcOf(a.t));
    ActiveMarkedDrop(st.marks, a.s);
  }

  /** The clamp of line 81 never takes effect. */
  lemma CountDecrement(st: State, a: Action)
    requires Enabled(st, a) && CountInv(st) && a.Decrement?
    ensures CountInv(Apply(st, a))
    ensures st.activeSessions > 0
  {
    LeavingGoto(st.pcs, a.t, Apply(st, a).PcOf(a.t));
    assert a.t in Leaving(st.pcs);
  }

  lemma CountOther(st: State, a: Action)
    requires Enabled(st, a) && CountInv(st) && !a.EnterGate? && !a.EndOutermost? && !a.Decrement?
    ensures CountInv(Apply(st, a))
  {
    LeavingGoto(st.pcs, a.t, Apply(st, a).PcOf(a.t));
  }

  lemma CountStep(st: State, a: Action)
    requires Enabled(st, a) && CountInv(st) && PcInv(st, a.t)
    ensures CountInv(Apply(st, a))
  {
    match a
    case EnterGate(_) => CountEnterGate(st, a);
    case EndOutermost(_, _) => CountEndOutermost(st, a);
    case Decrement(_) => CountDecrement(st, a);
    case _ => CountOther(st, a);
  }

  /** The session an action is about. */
  function Subject(st: State, a: Action): Option<Session> {
    match a
    case BeginEnter(_, s, _) => Some(s)
    case EndOutermost(_, s) => Some(s)
    case _ => BusyWith(st.PcOf(a.t))
  }

  /** No other thread is busy with the session of the action. */
  lemma SubjectIsAlone(st: State, a: Action, u: Thread)
    requires Enabled(st, a) && AloneInv(st) && u != a.t && Subject(st, a).Some?
    ensures BusyWith(st.PcOf(u)) != Subject(st, a)
  {
  }

  /** At most the actor is somewhere else. */
  predicate Moved(st: State, a: Action, st': State) {
    st'.pcs == st.pcs || st'.pcs == st.pcs[a.t := st'.PcOf(a.t)]
  }

  predicate LockStands(st: State, st': State) {
    && st'.lockOwner == st.lockOwner && st'.lockDepth == st.lockDepth && st'.direct == st.direct && st'.lost == st.lost
  }

  predicate GateStands(st: State, st': State) {
    && st'.maintenanceActive == st.maintenanceActive && st'.maintenanceOwner == st.maintenanceOwner
    && st'.body == st.body
  }

  predicate SessionsStand(st: State, st': State) {
    && st'.activeSessions == st.activeSessions && st'.marks == st.marks && st'.writeHeld == st.writeHeld
  }

  /** What the three kinds of actions leave alone. */
  lemma SessionFrame(st: State, a: Action)
    requires Enabled(st, a) && OnSession(a)
    ensures LockStands(st, Apply(st, a)) && GateStands(st, Apply(st, a)) && Moved(st, a, Apply(st, a))
  {
  }

  lemma GateFrame(st: State, a: Action)
    requires Enabled(st, a) && OnGate(a)
    ensures LockStands(st, Apply(st, a)) && SessionsStand(st, Apply(st, a)) && Moved(st, a, Apply(st, a))
  {
  }

  lemma LockFrame(st: State, a: Action)
    requires Enabled(st, a) && !OnSession(a) && !OnGate(a)
    ensures GateStands(st, Apply(st, a)) && SessionsStand(st, Apply(st, a)) && Moved(st, a, Apply(st, a))
  {
  }

  lemma OnlyActorMoves(st: State, a: Action)
    requires Enabled(st, a)
    ensures Moved(st, a, Apply(st, a))
  {
    if OnSession(a) {
      SessionFrame(st, a);
    } else if OnGate(a) {
      GateFrame(st, a);
    } else {
      LockFrame(st, a);
    }
  }

  lemma OthersStand(st: State, a: Action, u: Thread)
    requires Enabled(st, a) && u != a.t
    ensures Apply(st, a).PcOf(u) == st.PcOf(u)
  {
    OnlyActorMoves(st, a);
  }

  lemma ActorIsBusyWithSubject(st: State, a: Action)
    requires Enabled(st, a)
    ensures BusyWith(Apply(st, a).PcOf(a.t)).Some? ==> BusyWith(Apply(st, a).PcOf(a.t)) == Subject(st, a)
  {
  }

  lemma SessionsStay(st: State, a: Action)
    requires Enabled(st, a) && !OnSession(a)
    ensures SessionsStand(st, Apply(st, a))
  {
    if OnGate(a) {
      GateFrame(st, a);
    } else {
      LockFrame(st, a);
    }
  }

  /** Only the session of the action changes. */
  lemma OnlySubjectChanges(st: State, a: Action, s: Session)
    requires Enabled(st, a) && Subject(st, a) != Some(s)
    ensures s in Apply(st, a).marks <==> s in st.marks
    ensures s in Apply(st, a).writeHeld <==> s in st.writeHeld
  {
    if !OnSession(a) {
      SessionsStay(st, a);
    }
  }

  lemma AloneStep(st: State, a: Action)
    requires Enabled(st, a) && AloneInv(st)
    ensures AloneInv(Apply(st, a))
  {
    var st' := Apply(st, a);
    ActorIsBusyWithSubject(st, a);
    forall u: Thread | u != a.t ensures st'.PcOf(u) == st.PcOf(u) {
      OthersStand(st, a, u);
    }
    forall u: Thread | u != a.t && BusyWith(st'.PcOf(a.t)).Some?
      ensures BusyWith(st'.PcOf(u)) != BusyWith(st'.PcOf(a.t))
    {
      SubjectIsAlone(st, a, u);
    }
  }

  /** A flagged session that nobody is busy with is marked. */
  lemma IdleFlagIsMarked(st: State, s: Session)
    requires FlagInv(st) && !st.InUse(s) && s in st.writeHeld
    ensures s in st.marks
  {
    assert forall t :: t in st.pcs && Ending(st.pcs[t], s) ==> BusyWith(st.pcs[t]) == Some(s);
  }

  /** The actor's own program counter keeps its meaning. */
  lemma PcOnSession(st: State, a: Action)
    requires Enabled(st, a) && PcInv(st, a.t) && FlagInv(st) && OnSession(a)
    ensures PcInv(Apply(st, a), a.t)
  {
    if a.BeginEnter? && a.s in st.writeHeld {
      IdleFlagIsMarked(st, a.s);
    }
  }

  lemma PcElsewhere(st: State, a: Action)
    requires Enabled(st, a) && PcInv(st, a.t) && !OnSession(a)
    ensures PcInv(Apply(st, a), a.t)
  {
    SessionsStay(st, a);
  }

  lemma PcOfActor(st: State, a: Action)
    requires Enabled(st, a) && PcInv(st, a.t) && FlagInv(st)
    ensures PcInv(Apply(st, a), a.t)
  {
    if OnSession(a) {
      PcOnSession(st, a);
    } else {
      PcElsewhere(st, a);
    }
  }

  lemma PcOfOther(st: State, a: Action, u: Thread)
    requires Enabled(st, a) && AloneInv(st) && PcInv(st, u) && u != a.t
    ensures PcInv(Apply(st, a), u)
  {
    OthersStand(st, a, u);
    if Subject(st, a).Some? {
      SubjectIsAlone(st, a, u);
    }
    if BusyWith(st.PcOf(u)).Some? {
      OnlySubjectChanges(st, a, BusyWith(st.PcOf(u)).value);
    }
  }

  lemma PcStep(st: State, a: Action)
    requires Enabled(st, a) && FlagInv(st) && AloneInv(st) && forall t: Thread :: PcInv(st, t)
    ensures forall t: Thread :: PcInv(Apply(st, a), t)
  {
    forall t: Thread ensures PcInv(Apply(st, a), t) {
      assert PcInv(st, t) && PcInv(st, a.t);
      if t == a.t {
        PcOfActor(st, a);
      } else {
        PcOfOther(st, a, t);
      }
    }
  }

  lemma FlagOfSubject(st: State, a: Action, s: Session)
    requires Enabled(st, a) && PcInv(st, a.t) && FlagInv(st) && Subject(st, a) == Some(s)
    requires s in Apply(st, a).writeHeld && s !in Apply(st, a).marks
    ensures Ending(Apply(st, a).PcOf(a.t), s)
  {
    if !OnSession(a) {
      SessionsStay(st, a);
    } else if a.BeginEnter? {
      IdleFlagIsMarked(st, s);
    }
  }

  lemma FlagOfOther(st: State, a: Action, s: Session)
    requires Enabled(st, a) && FlagInv(st) && AloneInv(st) && Subject(st, a) != Some(s)
    requires s in Apply(st, a).writeHeld && s !in Apply(st, a).marks
    ensures exists t :: t in Apply(st, a).pcs && Ending(Apply(st, a).pcs[t], s)
  {
    OnlySubjectChanges(st, a, s);
    var t :| t in st.pcs && Ending(st.pcs[t], s);
    assert st.PcOf(t) == st.pcs[t] && BusyWith(st.PcOf(t)) == Some(s);
    OnlyActorMoves(st, a);
    assert t != a.t;
    assert t in Apply(st, a).pcs && Ending(Apply(st, a).pcs[t], s);
  }

  lemma FlagStep(st: State, a: Action)
    requires Enabled(st, a) && PcInv(st, a.t) && FlagInv(st) && AloneInv(st)
    ensures FlagInv(Apply(st, a))
  {
    var st' := Apply(st, a);
    forall s | s in st'.writeHeld && s !in st'.marks ensures exists t :: t in st'.pcs && Ending(st'.pcs[t], s) {
      if Subject(st, a) == Some(s) {
        FlagOfSubject(st, a, s);
        assert a.t in st'.pcs && Ending(st'.pcs[a.t], s);
      } else {
        FlagOfOther(st, a, s);
      }
    }
  }

  /** The actions that do not open or close the gate. */
  lemma GateStaysOpenOrClosed(st: State, a: Action)
    requires Enabled(st, a) && !OnGate(a)
    ensures GateStands(st, Apply(st, a))
    ensures st.PcOf(a.t) != Draining && Apply(st, a).PcOf(a.t) != Draining
  {
    if OnSession(a) {
      SessionFrame(st, a);
    } else {
      LockFrame(st, a);
    }
  }

  /** Only a decrement changes the count while the gate is closed. */
  lemma ClosedGateCounts(st: State, a: Action)
    requires Enabled(st, a) && !OnGate(a) && st.maintenanceActive && !a.Decrement?
    ensures Apply(st, a).activeSessions == st.activeSessions
  {
    if !OnSession(a) {
      LockFrame(st, a);
    }
  }

  lemma OtherGateStep(st: State, a: Action)
    requires Enabled(st, a) && CountInv(st) && GateInv(st) && !OnGate(a)
    requires forall u: Thread :: u != a.t ==> Apply(st, a).PcOf(u) == st.PcOf(u)
    ensures GateInv(Apply(st, a))
  {
    GateStaysOpenOrClosed(st, a);
    if a.Decrement? {
      assert a.t in Leaving(st.pcs);
    } else if st.maintenanceActive {
      ClosedGateCounts(st, a);
    }
  }

  lemma GateStep(st: State, a: Action)
    requires Enabled(st, a) && CountInv(st) && GateInv(st)
    ensures GateInv(Apply(st, a))
  {
    forall u: Thread | u != a.t ensures Apply(st, a).PcOf(u) == st.PcOf(u) {
      OthersStand(st, a, u);
    }
    if !OnGate(a) {
      OtherGateStep(st, a);
    }
  }

  // ---------------------------------------------------------------- what the lock owner holds

  lemma HeldByAdd(held: map<Session, Thread>, s: Session, u: Thread, t: Thread)
    requires s !in held
    ensures |HeldBy(held[s := u], t)| == |HeldBy(held, t)| + One(u == t)
  {
    SplitOff(HeldBy(held[s := u], t), s);
    assert HeldBy(held[s := u], t) - {s} == HeldBy(held, t);
  }

  lemma HeldByDrop(held: map<Session, Thread>, s: Session, t: Thread)
    requires s in held
    ensures |HeldBy(held - {s}, t)| == |HeldBy(held, t)| - One(held[s] == t)
  {
    SplitOff(HeldBy(held, t), s);
    assert HeldBy(held, t) - {s} == HeldBy(held - {s}, t);
  }

  predicate ReleasesOf(pc: Pc, t: Thread) {
    pc.FlagPopped? && pc.acquirer == t
  }

  lemma ReleasingSame(pcs: map<Thread, Pc>, u: Thread, pc: Pc, t: Thread)
    ensures Releasing(pcs[u := pc], t) - {u} == Releasing(pcs, t) - {u}
  {
  }

  lemma ReleasingGoto(pcs: map<Thread, Pc>, u: Thread, pc: Pc, t: Thread)
    ensures |Releasing(pcs[u := pc], t)|
         == |Releasing(pcs, t)| + One(ReleasesOf(pc, t)) - One(u in pcs && ReleasesOf(pcs[u], t))
  {
    ReleasingSame(pcs, u, pc, t);
    SplitOff(Releasing(pcs[u := pc], t), u);
    SplitOff(Releasing(pcs, t), u);
  }

  /** What is about to be released was acquired by the lock owner. */
  lemma PoppedByOwner(st: State, t: Thread)
    requires LockInv(st) && st.PcOf(t).FlagPopped?
    ensures st.lockOwner == Some(st.PcOf(t).acquirer)
  {
    assert t in Releasing(st.pcs, st.PcOf(t).acquirer);
  }

  /** A release is refused exactly when another thread had acquired. */
  predicate Refused(st: State, a: Action) {
    a.Release? && st.lockOwner != Some(a.t)
  }

  function HoldsChange(st: State, a: Action, t: Thread): int {
    if t == a.t && (a.Acquire? || a.AcquireDirect?) then 1
    else if t == a.t && ((a.Release? && !Refused(st, a)) || a.ReleaseDirect?) then -1
    else 0
  }

  lemma HoldsSetFlag(st: State, a: Action, t: Thread)
    requires Enabled(st, a) && PcInv(st, a.t) && a.SetFlag?
    ensures Holds(Apply(st, a), t) == Holds(st, t)
  {
    HeldByAdd(st.writeHeld, st.PcOf(a.t).s, a.t, t);
    ReleasingGoto(st.pcs, a.t, Running, t);
  }

  lemma HoldsCheckFlag(st: State, a: Action, t: Thread)
    requires Enabled(st, a) && a.CheckFlag?
    ensures Holds(Apply(st, a), t) == Holds(st, t)
  {
    var s := st.PcOf(a.t).s;
    ReleasingGoto(st.pcs, a.t, Apply(st, a).PcOf(a.t), t);
    if s in st.writeHeld {
      HeldByDrop(st.writeHeld, s, t);
    }
  }

  lemma HoldsReleased(st: State, a: Action, t: Thread)
    requires Enabled(st, a) && a.Release? && LockInv(st) && !Refused(st, a)
    ensures Holds(Apply(st, a), t) == Holds(st, t) + HoldsChange(st, a, t)
  {
    PoppedByOwner(st, a.t);
    ReleasingGoto(st.pcs, a.t, Running, t);
  }

  lemma HoldsRefused(st: State, a: Action, t: Thread)
    requires Enabled(st, a) && a.Release? && Refused(st, a)
    ensures Holds(Apply(st, a), t) == Holds(st, t)
  {
    ReleasingGoto(st.pcs, a.t, Running, t);
  }

  lemma HoldsRelease(st: State, a: Action, t: Thread)
    requires Enabled(st, a) && a.Release? && LockInv(st)
    ensures Holds(Apply(st, a), t) == Holds(st, t) + HoldsChange(st, a, t)
  {
    if Refused(st, a) {
      HoldsRefused(st, a, t);
    } else {
      HoldsReleased(st, a, t);
    }
  }

  lemma HeldStays(st: State, a: Action)
    requires Enabled(st, a) && !a.SetFlag? && !a.CheckFlag?
    ensures Apply(st, a).writeHeld == st.writeHeld
  {
    if !OnSession(a) {
      SessionsStay(st, a);
    }
  }

  lemma LostStays(st: State, a: Action)
    requires Enabled(st, a) && !a.Release?
    ensures Apply(st, a).lost == st.lost
  {
    if OnSession(a) {
      SessionFrame(st, a);
    } else if OnGate(a) {
      GateFrame(st, a);
    }
  }

  lemma NothingPopped(st: State, a: Action)
    requires Enabled(st, a) && !a.CheckFlag? && !a.Release?
    ensures !st.PcOf(a.t).FlagPopped? && !Apply(st, a).PcOf(a.t).FlagPopped?
  {
  }

  /** The part of the holds that is neither flags nor pending releases. */
  function Else(st: State, t: Thread): nat {
    One(st.PcOf(t).LockTaken?) + st.DirectOf(t)
  }

  lemma ElseStep(st: State, a: Action)
    requires Enabled(st, a) && !a.SetFlag? && !a.CheckFlag? && !a.Release?
    ensures Else(Apply(st, a), a.t) == Else(st, a.t) + HoldsChange(st, a, a.t)
    ensures forall t: Thread :: t != a.t ==> Apply(st, a).DirectOf(t) == st.DirectOf(t)
  {
  }

  lemma HoldsOther(st: State, a: Action, t: Thread)
    requires Enabled(st, a) && !a.SetFlag? && !a.CheckFlag? && !a.Release?
    ensures Holds(Apply(st, a), t) == Holds(st, t) + HoldsChange(st, a, t)
  {
    var st' := Apply(st, a);
    HeldStays(st, a);
    LostStays(st, a);
    NothingPopped(st, a);
    OnlyActorMoves(st, a);
    ElseStep(st, a);
    ReleasingGoto(st.pcs, a.t, st'.PcOf(a.t), t);
    if t != a.t {
      OthersStand(st, a, t);
    }
  }

  lemma HoldsStep(st: State, a: Action, t: Thread)
    requires Enabled(st, a) && PcInv(st, a.t) && LockInv(st)
    ensures Holds(Apply(st, a), t) == Holds(st, t) + HoldsChange(st, a, t)
  {
    match a
    case SetFlag(_) => HoldsSetFlag(st, a, t);
    case CheckFlag(_) => HoldsCheckFlag(st, a, t);
    case Release(_) => HoldsRelease(st, a, t);
    case _ => HoldsOther(st, a, t);
  }

  /** What becomes of the lock itself. */
  ghost predicate LockMoves(st: State, a: Action, st': State) {
    if a.Acquire? || a.AcquireDirect? then
      st.LockFreeFor(a.t) && st'.lockOwner == Some(a.t) && st'.lockDepth == st.lockDepth + 1
    else if (a.Release? && !Refused(st, a)) || a.ReleaseDirect? then
      Holds(st, a.t) > 0 && st'.lockDepth == st.lockDepth - 1
      && st'.lockOwner == (if st'.lockDepth == 0 then None else st.lockOwner)
    else st'.lockOwner == st.lockOwner && st'.lockDepth == st.lockDepth
  }

  lemma LockStays(st: State, a: Action)
    requires Enabled(st, a) && !a.Acquire? && !a.AcquireDirect? && !a.Release? && !a.ReleaseDirect?
    ensures Apply(st, a).lockOwner == st.lockOwner && Apply(st, a).lockDepth == st.lockDepth
  {
    if OnSession(a) {
      SessionFrame(st, a);
    } else if OnGate(a) {
      GateFrame(st, a);
    }
  }

  lemma OwnerStep(st: State, a: Action)
    requires Enabled(st, a) && LockInv(st)
    ensures LockMoves(st, a, Apply(st, a))
  {
    if a.Release? {
      PoppedByOwner(st, a.t);
    } else if !a.Acquire? && !a.AcquireDirect? && !a.ReleaseDirect? {
      LockStays(st, a);
    }
  }

  lemma LockStep(st: State, a: Action)
    requires Enabled(st, a) && PcInv(st, a.t) && LockInv(st)
    ensures LockInv(Apply(st, a))
  {
    var st' := Apply(st, a);
    OwnerStep(st, a);
    forall t: Thread ensures Holds(st', t) == Holds(st, t) + HoldsChange(st, a, t) {
      HoldsStep(st, a, t);
    }
    LockCarries(st, st', a);
  }

  lemma LockCarries(st: State, st': State, a: Action)
    requires LockInv(st) && LockMoves(st, a, st')
    requires forall t: Thread :: Holds(st', t) == Holds(st, t) + HoldsChange(st, a, t)
    ensures LockInv(st')
  {
  }

  lemma InvStep(st: State, a: Action)
    requires Inv(st) && Enabled(st, a)
    ensures Inv(Apply(st, a))
  {
    assert PcInv(st, a.t);
    CountStep(st, a);
    PcStep(st, a);
    AloneStep(st, a);
    FlagStep(st, a);
    GateStep(st, a);
    LockStep(st, a);
  }

  /** Every reachable state satisfies the invariant. */
  lemma {:induction false} InvAlways(st: State, acts: seq<Action>)
    requires Inv(st) && IsRun(st, acts)
    ensures Inv(After(st, acts))
    decreases |acts|
  {
    if acts == [] {
    } else {
      InvStep(st, acts[0]);
      InvAlways(Apply(st, acts[0]), acts[1..]);
    }
  }

  lemma InitialInv()
    ensures Inv(INITIAL)
  {
    forall t: Thread ensures Holds(INITIAL, t) == 0 {
      assert HeldBy(map[], t) == {} && Releasing(map[], t) == {};
    }
    assert ActiveMarked(map[]) == {} && Leaving(map[]) == {};
  }

  // ---------------------------------------------------------------- the mutable runtime

  /**
   The fields of the source's `DatabaseRuntime`, `session.info` included; the thread a mark or a flag
   carries is read by no test. The ghost fields record where each thread stands. Each method is one
   atomic section of the thread t.
   */
  class DatabaseRuntime {
    var activeSessions: int
    var maintenanceActive: bool
    var maintenanceOwner: Option<Thread>
    var lockOwner: Option<Thread>
    var lockDepth: int
    var marks: map<Session, Mark>
    var writeHeld: map<Session, Thread>
    ghost var body: Option<Thread>
    ghost var direct: map<Thread, nat>
    ghost var lost: map<Thread, nat>
    ghost var pcs: map<Thread, Pc>

    ghost function View(): State
      reads this
    {
      State(activeSessions, maintenanceActive, maintenanceOwner, body,
            lockOwner, lockDepth, marks, writeHeld, direct, lost, pcs)
    }

    constructor ()
      ensures View() == INITIAL
    {
      activeSessions, maintenanceActive, maintenanceOwner := 0, false, None;
      lockOwner, lockDepth, marks, writeHeld := None, 0, map[], map[];
      body, direct, lost, pcs := None, map[], map[], map[];
    }

    /** Lines 56-57, and the flag test of 626-627 when the session is already marked. */
    method EnterFastPath(t: Thread, s: Session, write: bool) returns (marked: bool, needsLock: bool)
      requires View().PcOf(t) == Running && !View().InUse(s)
      modifies this
      ensures View() == Apply(old(View()), BeginEnter(t, s, write))
      ensures marked == (s in old(marks)) && needsLock == (marked && write && s !in old(writeHeld))
      ensures pcs[t] == if !marked then Entering(s, write) else if needsLock then WantLock(s) else Running
    {
      marked := s in marks;
      needsLock := marked && write && s !in writeHeld;
      pcs := pcs[t := if !marked then Entering(s, write) else if needsLock then WantLock(s) else Running];
    }

    /** The critical section 59-72. */
    method EnterGate(t: Thread, s: Session, write: bool) returns (refused: bool)
      requires View().PcOf(t) == Entering(s, write)
      modifies this
      ensures View() == Apply(old(View()), Action.EnterGate(t))
      ensures refused == (old(maintenanceActive) && old(maintenanceOwner) != Some(t))
      ensures refused ==> activeSessions == old(activeSessions) && marks == old(marks)
      ensures !old(maintenanceActive) ==>
        activeSessions == old(activeSessions) + 1 && marks == old(marks)[s := Active]
      ensures old(maintenanceActive) && old(maintenanceOwner) == Some(t) ==>
        activeSessions == old(activeSessions) && marks == old(marks)[s := MaintenanceOwner(t)]
      ensures pcs[t] == if !refused && write && s !in old(writeHeld) then WantLock(s) else Running
    {
      refused := false;
      if maintenanceActive {
        if maintenanceOwner == Some(t) {
          marks := marks[s := MaintenanceOwner(t)];
        } else {
          refused := true;
        }
      } else {
        activeSessions := activeSessions + 1;
        marks := marks[s := Active];
      }
      pcs := pcs[t := if !refused && write && s !in writeHeld then WantLock(s) else Running];
    }

    /** Lines 628-629, the acquisition and the store of the flag. */
    method AcquireWriteLock(t: Thread, s: Session)
      requires View().PcOf(t) == WantLock(s) && View().LockFreeFor(t)
      modifies this
      ensures IsRun(old(View()), [Acquire(t), SetFlag(t)])
      ensures View() == After(old(View()), [Acquire(t), SetFlag(t)])
      ensures lockOwner == Some(t) && lockDepth == old(lockDepth) + 1 && writeHeld == old(writeHeld)[s := t]
    {
      ghost var before := View();
      lockOwner, lockDepth := Some(t), lockDepth + 1;
      pcs := pcs[t := LockTaken(s)];
      ghost var taken := View();
      assert taken == Apply(before, Acquire(t));
      writeHeld := writeHeld[s := t];
      pcs := pcs[t := Running];
      ghost var acts := [Acquire(t), SetFlag(t)];
      assert acts[1..] == [SetFlag(t)] && acts[1..][1..] == [];
      assert View() == Apply(taken, SetFlag(t));
      assert After(taken, acts[1..]) == After(View(), []);
    }

    /** Line 77: pop the mark. */
    method PopMark(t: Thread, s: Session) returns (wasActive: bool)
      requires View().PcOf(t) == Running && !View().InUse(s)
      modifies this
      ensures View() == Apply(old(View()), EndOutermost(t, s))
      ensures wasActive == (s in old(marks) && old(marks)[s] == Active)
      ensures marks == old(marks) - {s}
    {
      wasActive := s in marks && marks[s] == Active;
      marks := marks - {s};
      pcs := pcs[t := if wasActive then MarkPopped(s) else Left(s)];
    }

    /** The critical section 80-82. */
    method DecrementActivity(t: Thread, s: Session)
      requires View().PcOf(t) == MarkPopped(s)
      modifies this
      ensures View() == Apply(old(View()), Decrement(t))
      ensures activeSessions == if old(activeSessions) > 0 then old(activeSessions) - 1 else 0
    {
      activeSessions := if activeSessions - 1 > 0 then activeSessions - 1 else 0;
      pcs := pcs[t := Left(s)];
    }

    /** Line 651: pop the write-lock flag. */
    method PopFlag(t: Thread, s: Session) returns (held: bool)
      requires View().PcOf(t) == Left(s)
      modifies this
      ensures View() == Apply(old(View()), CheckFlag(t))
      ensures held == (s in old(writeHeld)) && writeHeld == old(writeHeld) - {s}
    {
      held := s in writeHeld;
      pcs := pcs[t := if held then FlagPopped(s, writeHeld[s]) else Running];
      if held {
        writeHeld := writeHeld - {s};
      }
    }

    /** Line 652: release the lock, which the lock refuses to all but its owner. */
    method ReleaseWriteLock(t: Thread, s: Session) returns (refused: bool)
      requires View().PcOf(t).FlagPopped? && View().PcOf(t).s == s
      modifies this
      ensures View() == Apply(old(View()), Release(t))
      ensures refused == (old(lockOwner) != Some(t))
      ensures refused ==> lockOwner == old(lockOwner) && lockDepth == old(lockDepth)
      ensures !refused ==>
        lockDepth == old(lockDepth) - 1 && lockOwner == (if lockDepth == 0 then None else Some(t))
    {
      refused := lockOwner != Some(t);
      if !refused {
        lockDepth := lockDepth - 1;
        if lockDepth == 0 {
          lockOwner := None;
        }
      } else {
        lost := lost[View().PcOf(t).acquirer := View().LostOf(View().PcOf(t).acquirer) + 1];
      }
      pcs := pcs[t := Running];
    }

    /** Lines 90-100: the refusal, or closing the gate and the first test of the drain loop. */
    method CloseGate(t: Thread) returns (refused: bool, entered: bool)
      requires View().PcOf(t) == Running
      modifies this
      ensures View() == Apply(old(View()), StartMaintenance(t))
      ensures refused == old(maintenanceActive)
      ensures entered == (!refused && old(activeSessions) == 0)
      ensures maintenanceActive && maintenanceOwner == (if refused then old(maintenanceOwner) else Some(t))
      ensures entered ==> body == Some(t)
    {
      refused, entered := maintenanceActive, false;
      if !refused {
        maintenanceActive, maintenanceOwner := true, Some(t);
        entered := activeSessions == 0;
        if entered {
          body := Some(t);
        } else {
          pcs := pcs[t := Draining];
        }
      }
    }

    /** One wake-up of the drain loop, lines 100-112, with the time that remains. */
    method WakeDrain(t: Thread, remaining: real) returns (entered: bool, timedOut: bool)
      requires View().PcOf(t) == Draining
      modifies this
      ensures entered == (old(activeSessions) == 0)
      ensures timedOut == (!entered && remaining <= 0.0)
      ensures View() == if entered then Apply(old(View()), DrainDone(t))
                        else if timedOut then Apply(old(View()), DrainTimeout(t))
                        else old(View())
      ensures entered ==> body == Some(t)
      ensures timedOut ==> !maintenanceActive && maintenanceOwner == None
    {
      entered, timedOut := activeSessions == 0, false;
      if entered {
        body, pcs := Some(t), pcs[t := Running];
      } else if remaining <= 0.0 {
        timedOut := true;
        maintenanceActive, maintenanceOwner := false, None;
        pcs := pcs[t := Running];
      }
    }

    /** The `finally` block, lines 116-119. */
    method ReopenGate(t: Thread)
      requires View().PcOf(t) == Running && body == Some(t)
      modifies this
      ensures View() == Apply(old(View()), Action.EndBody(t))
      ensures !maintenanceActive && maintenanceOwner == None && body == None
    {
      maintenanceActive, maintenanceOwner, body := false, None, None;
    }
  }
}
