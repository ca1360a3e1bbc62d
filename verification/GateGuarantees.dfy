/**
 What the maintenance gate and the write lock guarantee over every run: exclusive bodies, no wait
 cycle, a gate that is put back, and a write lock that comes back exactly when the thread that
 acquired it for a session also ends the session's transaction.
 */
module GateGuarantees {
  import opened Wrappers
  import opened DatabaseGate

  // ---------------------------------------------------------------- exclusion

  /** While a body runs nothing is counted: no mark is "active", no decrement is pending. */
  lemma BodyRunsUncounted(st: State)
    requires Inv(st) && st.body.Some?
    ensures st.activeSessions == 0
    ensures forall s :: s in st.marks ==> st.marks[s].MaintenanceOwner?
    ensures forall t: Thread :: !st.PcOf(t).MarkPopped?
  {
    assert ActiveMarked(st.marks) == {} && Leaving(st.pcs) == {};
    forall s | s in st.marks ensures st.marks[s].MaintenanceOwner? {
      assert s !in ActiveMarked(st.marks);
    }
    forall t: Thread ensures !st.PcOf(t).MarkPopped? {
      assert t !in Leaving(st.pcs);
    }
  }

  lemma BodyStep(st: State, a: Action, t: Thread)
    requires GateInv(st) && Enabled(st, a) && st.body == Some(t) && a != EndBody(t)
    ensures Apply(st, a).body == Some(t)
  {
  }

  /** Nothing but the maintainer's own end of body ends the body. */
  lemma {:induction false} BodyEndsOnlyByItself(st: State, acts: seq<Action>, t: Thread)
    requires Inv(st) && IsRun(st, acts) && st.body == Some(t)
    requires EndBody(t) !in acts
    ensures After(st, acts).body == Some(t)
    decreases |acts|
  {
    if acts == [] {
    } else {
      InvStep(st, acts[0]);
      BodyStep(st, acts[0], t);
      BodyEndsOnlyByItself(Apply(st, acts[0]), acts[1..], t);
    }
  }

  /**
   Over every interleaving: from the moment a body runs until it ends, no session is
   marked active, and none can become so.
   */
  lemma ExclusiveMaintenance(before: seq<Action>, during: seq<Action>, t: Thread)
    requires IsRun(INITIAL, before) && After(INITIAL, before).body == Some(t)
    requires IsRun(After(INITIAL, before), during) && EndBody(t) !in during
    ensures var st := After(After(INITIAL, before), during);
            && st.body == Some(t) && st.activeSessions == 0
            && (forall s :: s in st.marks ==> st.marks[s].MaintenanceOwner?)
            && (forall u: Thread :: !st.PcOf(u).MarkPopped?)
  {
    InitialInv();
    InvAlways(INITIAL, before);
    BodyEndsOnlyByItself(After(INITIAL, before), during, t);
    InvAlways(After(INITIAL, before), during);
    BodyRunsUncounted(After(After(INITIAL, before), during));
  }

  // The gate does not count a session marked "maintenance_owner", so the stronger reading
  // of exclusive (no other thread has marked a session at all) needs a discipline: the sessions
  // a body's thread has marked end before the body ends.

  predicate OwnMarksOnly(st: State, t: Thread) {
    forall s :: s in st.marks ==> st.marks[s] == MaintenanceOwner(t)
  }

  predicate NoMarkOf(st: State, t: Thread) {
    forall s :: s in st.marks ==> st.marks[s] != MaintenanceOwner(t)
  }

  predicate IsTidyRun(st: State, acts: seq<Action>)
    decreases |acts|
  {
    acts == [] || (Enabled(st, acts[0])
                   && (acts[0].EndBody? ==> NoMarkOf(st, acts[0].t))
                   && IsTidyRun(Apply(st, acts[0]), acts[1..]))
  }

  ghost predicate MaintainersMarks(st: State) {
    forall s :: s in st.marks && st.marks[s].MaintenanceOwner? ==> st.body == Some(st.marks[s].maintainer)
  }

  lemma {:induction false} TidyRunKeepsMarks(st: State, acts: seq<Action>)
    requires Inv(st) && MaintainersMarks(st) && IsTidyRun(st, acts)
    ensures IsRun(st, acts) && Inv(After(st, acts)) && MaintainersMarks(After(st, acts))
    decreases |acts|
  {
    if acts == [] {
    } else {
      InvStep(st, acts[0]);
      MaintainersMarksStep(st, acts[0]);
      TidyRunKeepsMarks(Apply(st, acts[0]), acts[1..]);
    }
  }

  lemma MaintainersMarksStep(st: State, a: Action)
    requires GateInv(st) && MaintainersMarks(st) && Enabled(st, a) && PcInv(st, a.t)
    requires a.EndBody? ==> NoMarkOf(st, a.t)
    ensures MaintainersMarks(Apply(st, a))
  {
  }

  /** With tidy bodies only sessions its own thread has marked are open while a body runs. */
  lemma TidyBodiesAreAlone(acts: seq<Action>, t: Thread)
    requires IsTidyRun(INITIAL, acts)
    ensures IsRun(INITIAL, acts)
    ensures After(INITIAL, acts).body == Some(t) ==> OwnMarksOnly(After(INITIAL, acts), t)
  {
    InitialInv();
    TidyRunKeepsMarks(INITIAL, acts);
    if After(INITIAL, acts).body == Some(t) {
      BodyRunsUncounted(After(INITIAL, acts));
    }
  }

  /**
   The discipline cannot be dropped: whenever a body ends while a session its thread has marked is
   still open, any idle thread can enter a body at once beside that session.
   */
  lemma UntidyBodyBreaksExclusion(st: State, s: Session, t: Thread, u: Thread)
    requires Inv(st) && st.body == Some(t) && s in st.marks && st.marks[s] == MaintenanceOwner(t)
    requires st.PcOf(t) == Running && st.PcOf(u) == Running && u != t
    ensures var acts := [EndBody(t), StartMaintenance(u)];
            IsRun(st, acts) && After(st, acts).body == Some(u) && !OwnMarksOnly(After(st, acts), u)
  {
    var acts := [EndBody(t), StartMaintenance(u)];
    var ended := Apply(st, acts[0]);
    assert acts[1..] == [StartMaintenance(u)] && acts[1..][1..] == [];
    assert Enabled(ended, acts[1]);
    var st' := Apply(ended, acts[1]);
    assert After(ended, acts[1..]) == After(st', []) == st';
    assert s in st'.marks && st'.marks[s] == MaintenanceOwner(t);
  }

  lemma RunOn(st: State, a: Action, rest: seq<Action>)
    requires Enabled(st, a) && IsRun(Apply(st, a), rest)
    ensures IsRun(st, [a] + rest) && After(st, [a] + rest) == After(Apply(st, a), rest)
  {
    assert ([a] + rest)[1..] == rest;
  }

  /** Such a body is reached from the start: it only has to open a session and leave it open. */
  lemma UntidyBodyIsReached(t: Thread, u: Thread, s: Session)
    requires t != u
    ensures var acts := [StartMaintenance(t)] + ([BeginEnter(t, s, false)] + ([EnterGate(t)]
                        + [EndBody(t), StartMaintenance(u)]));
            IsRun(INITIAL, acts) && After(INITIAL, acts).body == Some(u) && !OwnMarksOnly(After(INITIAL, acts), u)
  {
    var last := [EndBody(t), StartMaintenance(u)];
    var st1 := Apply(INITIAL, StartMaintenance(t));
    var st2 := Apply(st1, BeginEnter(t, s, false));
    var st3 := Apply(st2, EnterGate(t));
    InitialInv();
    InvStep(INITIAL, StartMaintenance(t));
    InvStep(st1, BeginEnter(t, s, false));
    InvStep(st2, EnterGate(t));
    UntidyBodyBreaksExclusion(st3, s, t, u);
    RunOn(st2, EnterGate(t), last);
    RunOn(st1, BeginEnter(t, s, false), [EnterGate(t)] + last);
    RunOn(INITIAL, StartMaintenance(t), [BeginEnter(t, s, false)] + ([EnterGate(t)] + last));
  }

  // ---------------------------------------------------------------- waiting

  predicate BlockedOnLock(st: State, t: Thread) {
    (st.PcOf(t).WantLock? || st.PcOf(t).WantDirect?) && !st.LockFreeFor(t)
  }

  // Whom a drain waits for depends on who will end the counted sessions: `ender` says so, any way
  // the program may have it.

  type Ender = Session -> Thread

  /** The drain waits for thread u: u will end a counted session, or is about to uncount one. */
  predicate Counted(ender: Ender, st: State, u: Thread) {
    st.PcOf(u).MarkPopped? || OwnsActive(ender, st, u)
  }

  predicate OwnsActive(ender: Ender, st: State, u: Thread) {
    exists s :: s in st.marks && st.marks[s] == Active && ender(s) == u
  }

  predicate Waits(ender: Ender, st: State, t: Thread, u: Thread) {
    || (st.PcOf(t) == Draining && Counted(ender, st, u))
    || (BlockedOnLock(st, t) && st.lockOwner == Some(u))
  }

  predicate IsWaitCycle(ender: Ender, st: State, path: seq<Thread>) {
    && |path| >= 2 && path[0] == path[|path| - 1]
    && forall i :: 0 <= i < |path| - 1 ==> Waits(ender, st, path[i], path[i + 1])
  }

  /** The drain waits for itself, or for a thread that needs the lock the drainer holds. */
  ghost predicate DrainTrapped(ender: Ender, st: State, t: Thread) {
    && st.PcOf(t) == Draining
    && (OwnsActive(ender, st, t)
        || (st.lockOwner == Some(t) && exists u :: Counted(ender, st, u) && BlockedOnLock(st, u)))
  }

  /** Every wait goes to a smaller rank unless the drain is trapped. */
  function Rank(st: State, t: Thread): nat {
    if st.PcOf(t) == Draining then 2
    else if !BlockedOnLock(st, t) then 0
    else if st.PcOf(st.lockOwner.value) == Draining then 3
    else 1
  }

  lemma WaitsGoDown(ender: Ender, st: State, t: Thread, u: Thread)
    requires Inv(st) && Waits(ender, st, t, u) && !DrainTrapped(ender, st, t)
    ensures Rank(st, u) < Rank(st, t)
  {
  }

  lemma {:induction false} PathGoesDown(ender: Ender, st: State, path: seq<Thread>)
    requires Inv(st) && |path| >= 2 && forall t: Thread :: !DrainTrapped(ender, st, t)
    requires forall i :: 0 <= i < |path| - 1 ==> Waits(ender, st, path[i], path[i + 1])
    ensures Rank(st, path[|path| - 1]) < Rank(st, path[0])
  {
    WaitsGoDown(ender, st, path[0], path[1]);
    if |path| > 2 {
      var rest := path[1..];
      forall i | 0 <= i < |rest| - 1 ensures Waits(ender, st, rest[i], rest[i + 1]) {
        assert rest[i] == path[i + 1] && rest[i + 1] == path[i + 2];
      }
      PathGoesDown(ender, st, rest);
    }
  }

  /** Threads wait in a cycle exactly when the drain is trapped. */
  lemma WaitCycleIffTrapped(ender: Ender, st: State)
    requires Inv(st)
    ensures (exists path :: IsWaitCycle(ender, st, path)) <==> (exists t: Thread :: DrainTrapped(ender, st, t))
  {
    if path :| IsWaitCycle(ender, st, path) && forall t: Thread :: !DrainTrapped(ender, st, t) {
      PathGoesDown(ender, st, path);
    }
    if t: Thread :| DrainTrapped(ender, st, t) {
      if OwnsActive(ender, st, t) {
        assert IsWaitCycle(ender, st, [t, t]);
      } else {
        var u :| Counted(ender, st, u) && BlockedOnLock(st, u);
        assert IsWaitCycle(ender, st, [t, u, t]);
      }
    }
  }

  // A drain is not trapped when it starts quietly: the caller holds no write lock and has no
  // counted session, as in `restore_backup`, which takes the lock only inside the body.

  predicate QuietStart(ender: Ender, st: State, t: Thread) {
    st.lockOwner != Some(t) && !OwnsActive(ender, st, t)
  }

  predicate IsQuietRun(ender: Ender, st: State, acts: seq<Action>)
    decreases |acts|
  {
    acts == [] || (Enabled(st, acts[0])
                   && (acts[0].StartMaintenance? ==> QuietStart(ender, st, acts[0].t))
                   && IsQuietRun(ender, Apply(st, acts[0]), acts[1..]))
  }

  ghost predicate DrainsAreQuiet(ender: Ender, st: State) {
    forall t: Thread :: st.PcOf(t) == Draining ==> QuietStart(ender, st, t)
  }

  /** While the gate is closed no session gets counted. */
  lemma ClosedMarksNothing(st: State, a: Action, s: Session)
    requires Enabled(st, a) && st.maintenanceActive
    requires s in Apply(st, a).marks && Apply(st, a).marks[s] == Active
    ensures s in st.marks && st.marks[s] == Active
  {
    if !OnSession(a) {
      SessionsStay(st, a);
    }
  }

  lemma QuietStays(ender: Ender, st: State, a: Action, t: Thread)
    requires Enabled(st, a) && st.maintenanceActive && LockInv(st) && QuietStart(ender, st, t) && a.t != t
    ensures QuietStart(ender, Apply(st, a), t)
  {
    var st' := Apply(st, a);
    OwnerStep(st, a);
    if OwnsActive(ender, st', t) {
      var s :| s in st'.marks && st'.marks[s] == Active && ender(s) == t;
      ClosedMarksNothing(st, a, s);
    }
  }

  lemma QuietStarts(ender: Ender, st: State, a: Action)
    requires Enabled(st, a) && Apply(st, a).PcOf(a.t) == Draining
    ensures a.StartMaintenance? && Apply(st, a).marks == st.marks && Apply(st, a).lockOwner == st.lockOwner
  {
  }

  lemma DrainsAreQuietStep(ender: Ender, st: State, a: Action)
    requires Inv(st) && DrainsAreQuiet(ender, st) && Enabled(st, a)
    requires a.StartMaintenance? ==> QuietStart(ender, st, a.t)
    ensures DrainsAreQuiet(ender, Apply(st, a))
  {
    var st' := Apply(st, a);
    forall t: Thread | st'.PcOf(t) == Draining ensures QuietStart(ender, st', t) {
      if t == a.t {
        QuietStarts(ender, st, a);
      } else {
        OthersStand(st, a, t);
        assert QuietStart(ender, st, t);
        QuietStays(ender, st, a, t);
      }
    }
  }

  lemma {:induction false} QuietRunKeepsDrains(ender: Ender, st: State, acts: seq<Action>)
    requires Inv(st) && DrainsAreQuiet(ender, st) && IsQuietRun(ender, st, acts)
    ensures IsRun(st, acts) && Inv(After(st, acts)) && DrainsAreQuiet(ender, After(st, acts))
    decreases |acts|
  {
    if acts == [] {
    } else {
      InvStep(st, acts[0]);
      DrainsAreQuietStep(ender, st, acts[0]);
      QuietRunKeepsDrains(ender, Apply(st, acts[0]), acts[1..]);
    }
  }

  predicate CanMove(st: State, t: Thread) {
    st.PcOf(t) != Draining && !BlockedOnLock(st, t)
  }

  /**
   No reachable state of a quiet run has a wait cycle, and a drain that still waits always
   waits for a counted thread that can move, or whose lock owner can.
   */
  lemma NoWaitCycle(ender: Ender, acts: seq<Action>, t: Thread)
    requires IsQuietRun(ender, INITIAL, acts)
    ensures IsRun(INITIAL, acts)
    ensures forall path :: !IsWaitCycle(ender, After(INITIAL, acts), path)
    ensures var st := After(INITIAL, acts);
            st.PcOf(t) == Draining && st.activeSessions > 0 ==>
            exists u: Thread :: Counted(ender, st, u)
              && (CanMove(st, u)
                  || (BlockedOnLock(st, u) && CanMove(st, st.lockOwner.value)))
  {
    InitialInv();
    QuietRunKeepsDrains(ender, INITIAL, acts);
    var st := After(INITIAL, acts);
    forall path ensures !IsWaitCycle(ender, st, path) {
      WaitCycleIffTrapped(ender, st);
    }
    if st.PcOf(t) == Draining && st.activeSessions > 0 {
      CountedExists(ender, st);
      var u: Thread :| Counted(ender, st, u);
      assert QuietStart(ender, st, t);
    }
  }

  lemma CountedExists(ender: Ender, st: State)
    requires CountInv(st) && st.activeSessions > 0
    ensures exists u: Thread :: Counted(ender, st, u)
  {
    if ActiveMarked(st.marks) != {} {
      var s :| s in ActiveMarked(st.marks);
      assert Counted(ender, st, ender(s));
    } else {
      var u :| u in Leaving(st.pcs);
      assert Counted(ender, st, u);
    }
  }

  /** What can move has an action: nothing but the drain and the lock ever waits. */
  lemma CanMoveActs(st: State, t: Thread) returns (a: Action)
    requires Inv(st) && CanMove(st, t)
    ensures Enabled(st, a) && a.t == t
  {
    a := match st.PcOf(t)
      case Running => RequestDirect(t)
      case Entering(_, _) => EnterGate(t)
      case WantLock(_) => Acquire(t)
      case LockTaken(_) => SetFlag(t)
      case MarkPopped(_) => Decrement(t)
      case Left(_) => CheckFlag(t)
      case FlagPopped(_, _) => Release(t)
      case WantDirect => AcquireDirect(t)
      case Draining => RequestDirect(t);
  }

  // ---------------------------------------------------------------- the gate is put back

  lemma DrainStep(st: State, a: Action, t: Thread)
    requires Inv(st) && Enabled(st, a) && st.PcOf(t) == Draining && a.t != t
    ensures Inv(Apply(st, a)) && Apply(st, a).PcOf(t) == Draining
  {
    InvStep(st, a);
    OthersStand(st, a, t);
  }

  lemma {:induction false} DrainKeepsGate(st: State, acts: seq<Action>, t: Thread)
    requires Inv(st) && IsRun(st, acts) && st.PcOf(t) == Draining
    requires forall a :: a in acts ==> a.t != t
    ensures var st' := After(st, acts);
            st'.PcOf(t) == Draining && st'.maintenanceActive
            && st'.maintenanceOwner == Some(t) && st'.body == None
    decreases |acts|
  {
    if acts == [] {
    } else {
      assert acts[0] in acts;
      DrainStep(st, acts[0], t);
      DrainKeepsGate(Apply(st, acts[0]), acts[1..], t);
    }
  }

  /**
   A maintenance call that is refused changes nothing; one whose drain times out, after
   whatever the other threads did meanwhile, leaves the gate as it found it.
   */
  lemma FailedDrainRestoresGate(st: State, acts: seq<Action>, t: Thread)
    requires Inv(st) && Enabled(st, StartMaintenance(t))
    ensures st.maintenanceActive ==> Apply(st, StartMaintenance(t)) == st
    ensures var closed := Apply(st, StartMaintenance(t));
            !st.maintenanceActive && st.activeSessions > 0 && IsRun(closed, acts)
            && (forall a :: a in acts ==> a.t != t)
            && Enabled(After(closed, acts), DrainTimeout(t)) ==>
            var end := Apply(After(closed, acts), DrainTimeout(t));
            && After(closed, acts).activeSessions != 0
            && end.maintenanceActive == st.maintenanceActive
            && end.maintenanceOwner == st.maintenanceOwner
            && end.body == st.body == None
            && end.PcOf(t) == st.PcOf(t)
  {
    var closed := Apply(st, StartMaintenance(t));
    if !st.maintenanceActive && st.activeSessions > 0 && IsRun(closed, acts)
       && (forall a :: a in acts ==> a.t != t)
    {
      InvStep(st, StartMaintenance(t));
      DrainKeepsGate(closed, acts, t);
      TimeoutReopens(After(closed, acts), t);
    }
  }

  lemma TimeoutReopens(st: State, t: Thread)
    ensures Enabled(st, DrainTimeout(t)) ==>
      var end := Apply(st, DrainTimeout(t));
      st.activeSessions != 0 && !end.maintenanceActive && end.maintenanceOwner == None && end.body == st.body
      && end.PcOf(t) == Running
  {
  }

  /** While a gate is closed, sessions of other threads are refused and stay uncounted. */
  lemma ClosedGateRefuses(st: State, t: Thread)
    requires Inv(st) && Enabled(st, EnterGate(t)) && st.maintenanceActive
    ensures var st' := Apply(st, EnterGate(t));
            && st'.activeSessions == st.activeSessions
            && (st.maintenanceOwner != Some(t) ==>
                  st'.marks == st.marks && st'.PcOf(t) == Running)
            && (st.maintenanceOwner == Some(t) ==>
                  st'.marks == st.marks[st.PcOf(t).s := MaintenanceOwner(t)])
  {
  }

  // ---------------------------------------------------------------- the write lock

  /** A session with the flag: the thread that acquired for it owns the lock, and the session is open or just ended. */
  lemma FlagMeansOwner(acts: seq<Action>, s: Session)
    requires IsRun(INITIAL, acts) && s in After(INITIAL, acts).writeHeld
    ensures var st := After(INITIAL, acts);
            && st.lockOwner == Some(st.writeHeld[s])
            && (s in st.marks || exists t :: t in st.pcs && Ending(st.pcs[t], s))
  {
    InitialInv();
    InvAlways(INITIAL, acts);
    var st := After(INITIAL, acts);
    assert s in HeldBy(st.writeHeld, st.writeHeld[s]);
  }

  /**
   The release for a session succeeds exactly when the thread that ended the session's transaction
   is the one that had acquired; otherwise the lock stays as it is and the flag is gone.
   */
  lemma ReleaseSucceedsIff(acts: seq<Action>, t: Thread)
    requires IsRun(INITIAL, acts) && After(INITIAL, acts).PcOf(t).FlagPopped?
    ensures var st := After(INITIAL, acts); var st', pc := Apply(st, Release(t)), st.PcOf(t);
            && st.lockOwner == Some(pc.acquirer) && st.lockDepth > 0 && pc.s !in st'.writeHeld
            && (pc.acquirer == t ==>
                  st'.lockDepth == st.lockDepth - 1 && (st'.lockOwner == None <==> Holds(st, t) == 1))
            && (pc.acquirer != t ==>
                  st'.lockDepth == st.lockDepth && st'.lockOwner == st.lockOwner
                  && st'.LostOf(pc.acquirer) == st.LostOf(pc.acquirer) + 1)
  {
    InitialInv();
    InvAlways(INITIAL, acts);
    var st := After(INITIAL, acts);
    PoppedByOwner(st, t);
    assert PcInv(st, t);
  }

  /** The block form of the lock is left by the thread that entered it, which owns the lock. */
  lemma BlockReleaseIsTheOwners(acts: seq<Action>, t: Thread)
    requires IsRun(INITIAL, acts) && After(INITIAL, acts).PcOf(t) == Running && After(INITIAL, acts).DirectOf(t) > 0
    ensures var st := After(INITIAL, acts); var st' := Apply(st, ReleaseDirect(t));
            && st.lockOwner == Some(t) && st.lockDepth > 0
            && (st'.lockOwner == None <==> Holds(st, t) == 1)
  {
    InitialInv();
    InvAlways(INITIAL, acts);
  }

  predicate Acquires(a: Action) {
    a.Acquire? || a.AcquireDirect?
  }

  lemma LostIsHeld(st: State, t: Thread)
    requires LockInv(st) && st.LostOf(t) > 0
    ensures st.lockOwner == Some(t) && st.lockDepth > 0
  {
    assert Holds(st, t) > 0;
  }

  lemma LostStep(st: State, a: Action, t: Thread)
    requires Inv(st) && Enabled(st, a) && st.LostOf(t) > 0
    ensures Inv(Apply(st, a)) && Apply(st, a).LostOf(t) >= st.LostOf(t)
    ensures Acquires(a) ==> a.t == t
  {
    InvStep(st, a);
    LostOnlyAstray(st, a, t);
    LostIsHeld(st, t);
  }

  predicate OnlyAcquires(acts: seq<Action>, t: Thread) {
    forall i :: 0 <= i < |acts| && Acquires(acts[i]) ==> acts[i].t == t
  }

  /** After one refused release the lock is held for good: in no continuation does another thread acquire it. */
  lemma {:induction false} LostLockStays(st: State, acts: seq<Action>, t: Thread)
    requires Inv(st) && IsRun(st, acts) && st.LostOf(t) > 0
    ensures After(st, acts).lockOwner == Some(t) && After(st, acts).lockDepth > 0
    ensures OnlyAcquires(acts, t)
    decreases |acts|
  {
    if acts == [] {
      LostIsHeld(st, t);
    } else {
      LostStep(st, acts[0], t);
      LostLockStays(Apply(st, acts[0]), acts[1..], t);
      assert forall i :: 1 <= i < |acts| ==> acts[i] == acts[1..][i - 1];
    }
  }

  /** Flushed by t and closed by u: then t owns the lock, without a session or a block that would release it. */
  function CloseElsewhere(t: Thread, u: Thread, s: Session): seq<Action> {
    [BeginEnter(t, s, true)] + ([EnterGate(t)] + ([Acquire(t)] + ([SetFlag(t)] + ClosedBy(u, s))))
  }

  function ClosedBy(u: Thread, s: Session): seq<Action> {
    [EndOutermost(u, s)] + ([Decrement(u)] + ([CheckFlag(u)] + ([Release(u)] + [])))
  }

  /** A session of t with the flag and nothing else going on. */
  predicate Flushed(st: State, t: Thread, s: Session) {
    && st.marks == map[s := Active] && st.writeHeld == map[s := t] && st.lockOwner == Some(t) && st.lockDepth == 1
    && st.activeSessions == 1 && st.lost == map[] && st.pcs == map[t := Running] && st.direct == map[]
  }

  lemma FlushedIsClosedElsewhere(st: State, t: Thread, u: Thread, s: Session)
    requires t != u && Flushed(st, t, s)
    ensures IsRun(st, ClosedBy(u, s))
    ensures var st' := After(st, ClosedBy(u, s));
            && st'.LostOf(t) == 1 && st'.lockOwner == Some(t) && st'.writeHeld == map[] && st'.marks == map[]
            && st'.DirectOf(t) == 0 && st'.activeSessions == 0 && st'.PcOf(t) == st'.PcOf(u) == Running
  {
    var st1 := Apply(st, EndOutermost(u, s));
    var st2 := Apply(st1, Decrement(u));
    var st3 := Apply(st2, CheckFlag(u));
    RunOn(st3, Release(u), []);
    RunOn(st2, CheckFlag(u), [Release(u)] + []);
    RunOn(st1, Decrement(u), [CheckFlag(u)] + ([Release(u)] + []));
    RunOn(st, EndOutermost(u, s), [Decrement(u)] + ([CheckFlag(u)] + ([Release(u)] + [])));
  }

  /** Such a state is reached from the start, for any two threads. */
  lemma LostLockIsReached(t: Thread, u: Thread, s: Session)
    requires t != u
    ensures IsRun(INITIAL, CloseElsewhere(t, u, s))
    ensures var st := After(INITIAL, CloseElsewhere(t, u, s));
            && Inv(st) && st.LostOf(t) == 1 && st.lockOwner == Some(t) && st.writeHeld == map[] && st.marks == map[]
            && st.DirectOf(t) == 0 && st.activeSessions == 0 && st.PcOf(t) == st.PcOf(u) == Running
  {
    var last := ClosedBy(u, s);
    var st1 := Apply(INITIAL, BeginEnter(t, s, true));
    var st2 := Apply(st1, EnterGate(t));
    var st3 := Apply(st2, Acquire(t));
    var st4 := Apply(st3, SetFlag(t));
    FlushedIsClosedElsewhere(st4, t, u, s);
    RunOn(st3, SetFlag(t), last);
    RunOn(st2, Acquire(t), [SetFlag(t)] + last);
    RunOn(st1, EnterGate(t), [Acquire(t)] + ([SetFlag(t)] + last));
    RunOn(INITIAL, BeginEnter(t, s, true), [EnterGate(t)] + ([Acquire(t)] + ([SetFlag(t)] + last)));
    InitialInv();
    InvAlways(INITIAL, CloseElsewhere(t, u, s));
  }

  // ---------------------------------------------------------------- when nothing is lost

  /** The thread is ending a session for which another thread had acquired. */
  predicate Astray(st: State, t: Thread) {
    match st.PcOf(t)
    case MarkPopped(s) => s in st.writeHeld && st.writeHeld[s] != t
    case Left(s) => s in st.writeHeld && st.writeHeld[s] != t
    case FlagPopped(_, acquirer) => acquirer != t
    case _ => false
  }

  /** No release was refused, and none is about to be. */
  ghost predicate Clean(st: State) {
    forall t: Thread :: st.LostOf(t) == 0 && !Astray(st, t)
  }

  /** A session with the flag is ended by a thread that did not acquire for it. */
  predicate EndsElsewhere(st: State, a: Action) {
    a.EndOutermost? && a.s in st.writeHeld && st.writeHeld[a.s] != a.t
  }

  lemma AstrayOfOther(st: State, a: Action, u: Thread)
    requires Inv(st) && Enabled(st, a) && u != a.t
    ensures Astray(Apply(st, a), u) <==> Astray(st, u)
  {
    OthersStand(st, a, u);
    if Subject(st, a).Some? {
      SubjectIsAlone(st, a, u);
    }
    if BusyWith(st.PcOf(u)).Some? {
      SameFlag(st, a, BusyWith(st.PcOf(u)).value);
    }
  }

  /** A session the action is not about keeps its flag as it is. */
  lemma SameFlag(st: State, a: Action, s: Session)
    requires Enabled(st, a) && Subject(st, a) != Some(s)
    ensures s in Apply(st, a).writeHeld <==> s in st.writeHeld
    ensures s in st.writeHeld ==> Apply(st, a).writeHeld[s] == st.writeHeld[s]
  {
    OnlySubjectChanges(st, a, s);
    if !OnSession(a) {
      SessionsStay(st, a);
    }
  }

  lemma AstrayAtEnd(st: State, a: Action)
    requires Enabled(st, a) && (a.EndOutermost? || a.Decrement? || a.CheckFlag?)
    ensures Astray(Apply(st, a), a.t) <==> Astray(st, a.t) || EndsElsewhere(st, a)
  {
  }

  lemma AstrayElsewhere(st: State, a: Action)
    requires Enabled(st, a) && !a.EndOutermost? && !a.Decrement? && !a.CheckFlag?
    ensures !Astray(Apply(st, a), a.t) && (Astray(st, a.t) ==> a.Release?)
  {
  }

  lemma AstrayOfActor(st: State, a: Action)
    requires Enabled(st, a)
    ensures Astray(Apply(st, a), a.t) <==> ((Astray(st, a.t) && !a.Release?) || EndsElsewhere(st, a))
  {
    if a.EndOutermost? || a.Decrement? || a.CheckFlag? {
      AstrayAtEnd(st, a);
    } else {
      AstrayElsewhere(st, a);
    }
  }

  lemma LostOnlyAstray(st: State, a: Action, t: Thread)
    requires Inv(st) && Enabled(st, a)
    ensures Apply(st, a).LostOf(t) >= st.LostOf(t)
    ensures Apply(st, a).LostOf(t) != st.LostOf(t) ==> a.Release? && Astray(st, a.t)
  {
    if a.Release? {
      PoppedByOwner(st, a.t);
    } else {
      LostStays(st, a);
    }
  }

  lemma AstrayIsLost(st: State, a: Action)
    requires Inv(st) && Enabled(st, a) && a.Release? && Astray(st, a.t)
    ensures Apply(st, a).LostOf(st.PcOf(a.t).acquirer) > 0
  {
    PoppedByOwner(st, a.t);
  }

  lemma CleanStep(st: State, a: Action)
    requires Inv(st) && Enabled(st, a)
    ensures Clean(Apply(st, a)) <==> Clean(st) && !EndsElsewhere(st, a)
  {
    var st' := Apply(st, a);
    AstrayOfActor(st, a);
    forall t: Thread ensures st'.LostOf(t) >= st.LostOf(t)
      ensures st'.LostOf(t) != st.LostOf(t) ==> a.Release? && Astray(st, a.t)
      ensures t != a.t ==> (Astray(st', t) <==> Astray(st, t))
    {
      LostOnlyAstray(st, a, t);
      if t != a.t {
        AstrayOfOther(st, a, t);
      }
    }
    if a.Release? && Astray(st, a.t) {
      AstrayIsLost(st, a);
    }
  }

  /** Every session with the flag is ended by the thread that acquired for it. */
  predicate EndsAtHome(st: State, acts: seq<Action>)
    requires IsRun(st, acts)
    decreases |acts|
  {
    acts == [] || (!EndsElsewhere(st, acts[0]) && EndsAtHome(Apply(st, acts[0]), acts[1..]))
  }

  lemma {:induction false} CleanIff(st: State, acts: seq<Action>)
    requires Inv(st) && IsRun(st, acts)
    ensures Clean(After(st, acts)) <==> Clean(st) && EndsAtHome(st, acts)
    decreases |acts|
  {
    if acts == [] {
    } else {
      InvStep(st, acts[0]);
      CleanStep(st, acts[0]);
      CleanIff(Apply(st, acts[0]), acts[1..]);
    }
  }

  /**
   Over every run: no release is refused, nor about to be, exactly when every session that holds
   the write lock has its transaction ended by the thread that acquired.
   */
  lemma NothingLostIff(acts: seq<Action>)
    requires IsRun(INITIAL, acts)
    ensures Clean(After(INITIAL, acts)) <==> EndsAtHome(INITIAL, acts)
  {
    InitialInv();
    CleanIff(INITIAL, acts);
  }

  // ---------------------------------------------------------------- sessions confined to a thread

  /** Every session is handled by one thread only, its home. */
  predicate IsConfined(home: Ender, st: State, acts: seq<Action>)
    requires IsRun(st, acts)
    decreases |acts|
  {
    acts == [] || ((Subject(st, acts[0]).Some? ==> acts[0].t == home(Subject(st, acts[0]).value))
                   && IsConfined(home, Apply(st, acts[0]), acts[1..]))
  }

  ghost predicate AtHome(home: Ender, st: State) {
    && (forall s :: s in st.writeHeld ==> st.writeHeld[s] == home(s))
    && (forall t: Thread :: BusyWith(st.PcOf(t)).Some? ==> home(BusyWith(st.PcOf(t)).value) == t)
  }

  lemma AtHomeStep(home: Ender, st: State, a: Action)
    requires Inv(st) && Enabled(st, a) && AtHome(home, st)
    requires Subject(st, a).Some? ==> a.t == home(Subject(st, a).value)
    ensures AtHome(home, Apply(st, a)) && !EndsElsewhere(st, a)
  {
    var st' := Apply(st, a);
    ActorIsBusyWithSubject(st, a);
    forall t: Thread | t != a.t ensures st'.PcOf(t) == st.PcOf(t) {
      OthersStand(st, a, t);
    }
    forall s | s in st'.writeHeld ensures st'.writeHeld[s] == home(s) {
      if Subject(st, a) != Some(s) {
        SameFlag(st, a, s);
      } else {
        SubjectsFlag(st, a, s);
      }
    }
  }

  lemma SubjectsFlag(st: State, a: Action, s: Session)
    requires Enabled(st, a) && Subject(st, a) == Some(s) && s in Apply(st, a).writeHeld
    ensures Apply(st, a).writeHeld[s] == a.t || (s in st.writeHeld && Apply(st, a).writeHeld[s] == st.writeHeld[s])
  {
    if !OnSession(a) {
      SessionsStay(st, a);
    }
  }

  lemma {:induction false} ConfinedStaysHome(home: Ender, st: State, acts: seq<Action>)
    requires Inv(st) && AtHome(home, st) && IsRun(st, acts) && IsConfined(home, st, acts)
    ensures AtHome(home, After(st, acts)) && EndsAtHome(st, acts)
    decreases |acts|
  {
    if acts == [] {
    } else {
      InvStep(st, acts[0]);
      AtHomeStep(home, st, acts[0]);
      ConfinedStaysHome(home, Apply(st, acts[0]), acts[1..]);
    }
  }

  /**
   Where every session is confined to one thread nothing is lost, and a flag means that the session's
   own thread owns the lock.
   */
  lemma ConfinedFlags(home: Ender, acts: seq<Action>)
    requires IsRun(INITIAL, acts) && IsConfined(home, INITIAL, acts)
    ensures Clean(After(INITIAL, acts))
    ensures forall s :: s in After(INITIAL, acts).writeHeld ==> After(INITIAL, acts).lockOwner == Some(home(s))
  {
    InitialInv();
    ConfinedStaysHome(home, INITIAL, acts);
    NothingLostIff(acts);
    forall s | s in After(INITIAL, acts).writeHeld ensures After(INITIAL, acts).lockOwner == Some(home(s)) {
      FlagMeansOwner(acts, s);
    }
  }

  /** There every release is the owner's, and frees the lock with its last hold. */
  lemma ReleaseIsTheOwners(home: Ender, acts: seq<Action>, a: Action)
    requires IsRun(INITIAL, acts) && IsConfined(home, INITIAL, acts)
    requires Enabled(After(INITIAL, acts), a) && (a.Release? || a.ReleaseDirect?)
    ensures var st := After(INITIAL, acts);
            st.lockOwner == Some(a.t) && st.lockDepth > 0
            && (Holds(st, a.t) == 1 <==> Apply(st, a).lockOwner == None)
  {
    if a.Release? {
      ConfinedFlags(home, acts);
      assert !Astray(After(INITIAL, acts), a.t);
      ReleaseSucceedsIff(acts, a.t);
    } else {
      BlockReleaseIsTheOwners(acts, a.t);
    }
  }

  /**
   In a quiet run of confined sessions a thread that waits for the lock waits for one that will
   release it: its owner is not waiting itself and holds nothing but flags of its own sessions,
   blocks it is in, and releases that will succeed.
   */
  lemma ConfinedWaitsEnd(home: Ender, acts: seq<Action>, u: Thread)
    requires IsQuietRun(home, INITIAL, acts)
    ensures IsRun(INITIAL, acts)
    ensures IsConfined(home, INITIAL, acts) && BlockedOnLock(After(INITIAL, acts), u) ==>
            var st := After(INITIAL, acts);
            && CanMove(st, st.lockOwner.value) && st.LostOf(st.lockOwner.value) == 0
            && Holds(st, st.lockOwner.value) > 0
            && (forall s :: s in st.writeHeld ==> home(s) == st.lockOwner.value)
  {
    InitialInv();
    QuietRunKeepsDrains(home, INITIAL, acts);
    if IsConfined(home, INITIAL, acts) {
      ConfinedFlags(home, acts);
      var st := After(INITIAL, acts);
      assert st.lockOwner.Some? && st.PcOf(st.lockOwner.value) == Draining ==>
        QuietStart(home, st, st.lockOwner.value);
    }
  }
}
