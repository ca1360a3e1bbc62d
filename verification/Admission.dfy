/**
 Who is let in by the maintenance gate, told from the actions alone: what was asked, what the gate
 was at that moment, and what has ended since. The marks, the flags and the counter of the runtime
 are proved to say the same.
 */
module Admission {
  import opened Wrappers
  import opened DatabaseGate
  import opened GateGuarantees

  /** What a thread asked for when it last used a session. */
  datatype Request = Request(s: Session, write: bool)

  /** The gate is open, or closed by the thread itself. */
  predicate GateLets(st: State, t: Thread) {
    !st.maintenanceActive || st.maintenanceOwner == Some(t)
  }

  /** The request a thread is on, or has come back from, unless it was refused at the gate. */
  function Asked(acts: seq<Action>, t: Thread): Option<Request>
    requires IsRun(INITIAL, acts)
  {
    if acts == [] then None
    else
      var before, a := acts[..|acts| - 1], acts[|acts| - 1];
      FrontRuns(INITIAL, acts);
      if a.t != t then Asked(before, t)
      else match a
        case BeginEnter(_, s, write) => Some(Request(s, write))
        case EnterGate(_) => if GateLets(After(INITIAL, before), t) then Asked(before, t) else None
        case Acquire(_) => Asked(before, t)
        case SetFlag(_) => Asked(before, t)
        case _ => None
  }

  /** The front of a run is a run, and the last action is taken from where it leads. */
  lemma {:induction false} FrontRuns(st: State, acts: seq<Action>)
    requires IsRun(st, acts) && acts != []
    ensures var n := |acts| - 1;
            IsRun(st, acts[..n]) && Enabled(After(st, acts[..n]), acts[n])
            && After(st, acts) == Apply(After(st, acts[..n]), acts[n])
    decreases |acts|
  {
    var n := |acts| - 1;
    if n > 0 {
      FrontRuns(Apply(st, acts[0]), acts[1..]);
      assert acts[1..][..n - 1] == acts[..n][1..];
    } else {
      assert acts[1..] == [] && acts[..n] == [];
    }
  }

  /** How a session was let in, if it was and its outermost transaction has not ended since. */
  function LetIn(acts: seq<Action>, s: Session): Option<Mark>
    requires IsRun(INITIAL, acts)
  {
    if acts == [] then None
    else
      var before, a := acts[..|acts| - 1], acts[|acts| - 1];
      FrontRuns(INITIAL, acts);
      var st := After(INITIAL, before);
      if a.EndOutermost? && a.s == s then None
      else if a.EnterGate? && GateLets(st, a.t) && Asked(before, a.t).Some? && Asked(before, a.t).value.s == s then
        Some(if st.maintenanceActive then MaintenanceOwner(a.t) else Active)
      else LetIn(before, s)
  }

  /** A thread came back with the session, for writing if `write`, and it has not ended since. */
  predicate Working(acts: seq<Action>, s: Session, write: bool)
    requires IsRun(INITIAL, acts)
  {
    acts != [] &&
      var before, a := acts[..|acts| - 1], acts[|acts| - 1];
      FrontRuns(INITIAL, acts);
      if a.EndOutermost? && a.s == s then false
      else Working(before, s, write) || ComesBack(acts, a.t, s, write)
  }

  predicate ComesBack(acts: seq<Action>, t: Thread, s: Session, write: bool)
    requires IsRun(INITIAL, acts)
  {
    && After(INITIAL, acts).PcOf(t) == Running && Asked(acts, t).Some?
    && Asked(acts, t).value.s == s && (write ==> Asked(acts, t).value.write)
  }

  // ---------------------------------------------------------------- the requests

  /** A thread on its way in asked for the session it is busy with, for writing if it wants the lock. */
  predicate OnRequest(pc: Pc, asked: Option<Request>) {
    match pc
    case Entering(s, write) => asked == Some(Request(s, write))
    case WantLock(s) => asked == Some(Request(s, true))
    case LockTaken(s) => asked == Some(Request(s, true))
    case _ => true
  }

  lemma RequestOfActor(st: State, a: Action, before: Option<Request>, asked: Option<Request>)
    requires Enabled(st, a) && OnRequest(st.PcOf(a.t), before)
    requires asked == match a
      case BeginEnter(_, s, write) => Some(Request(s, write))
      case EnterGate(_) => if GateLets(st, a.t) then before else None
      case Acquire(_) => before
      case SetFlag(_) => before
      case _ => None
    ensures OnRequest(Apply(st, a).PcOf(a.t), asked)
  {
  }

  lemma {:induction false} RequestsStand(acts: seq<Action>, t: Thread)
    requires IsRun(INITIAL, acts)
    ensures OnRequest(After(INITIAL, acts).PcOf(t), Asked(acts, t))
  {
    if acts == [] {
    } else {
      var before, a := acts[..|acts| - 1], acts[|acts| - 1];
      FrontRuns(INITIAL, acts);
      RequestsStand(before, t);
      var st := After(INITIAL, before);
      if a.t == t {
        RequestOfActor(st, a, Asked(before, t), Asked(acts, t));
      } else {
        OthersStand(st, a, t);
      }
    }
  }

  // ---------------------------------------------------------------- the marks

  function MarkOf(st: State, s: Session): Option<Mark> {
    if s in st.marks then Some(st.marks[s]) else None
  }

  /** The marks change with an entry and with an end only. */
  lemma MarkStep(st: State, a: Action, s: Session)
    requires Enabled(st, a)
    ensures MarkOf(Apply(st, a), s) ==
      if a.EndOutermost? && a.s == s then None
      else if a.EnterGate? && GateLets(st, a.t) && st.PcOf(a.t).s == s then
        Some(if st.maintenanceActive then MaintenanceOwner(a.t) else Active)
      else MarkOf(st, s)
  {
    if !OnSession(a) {
      SessionsStay(st, a);
    }
  }

  /** Over every run the marks are exactly the sessions let in and not ended, each as it was let in. */
  lemma {:induction false} MarksAreLetIn(acts: seq<Action>, s: Session)
    requires IsRun(INITIAL, acts)
    ensures MarkOf(After(INITIAL, acts), s) == LetIn(acts, s)
  {
    if acts == [] {
    } else {
      var before, a := acts[..|acts| - 1], acts[|acts| - 1];
      FrontRuns(INITIAL, acts);
      MarksAreLetIn(before, s);
      RequestsStand(before, a.t);
      MarkStep(After(INITIAL, before), a, s);
    }
  }

  // ---------------------------------------------------------------- who works

  /** A marked session keeps its mark and its flag until its transaction ends. */
  lemma WorkStays(st: State, a: Action, s: Session)
    requires Enabled(st, a) && PcInv(st, a.t) && s in st.marks && !(a.EndOutermost? && a.s == s)
    ensures s in Apply(st, a).marks && (s in st.writeHeld ==> s in Apply(st, a).writeHeld)
  {
    if !OnSession(a) {
      SessionsStay(st, a);
    }
  }

  /** Whoever comes back from a request that was not refused has its session marked, and flagged for writing. */
  lemma BackIsMarked(st: State, a: Action, s: Session, write: bool)
    requires Enabled(st, a) && PcInv(st, a.t) && Apply(st, a).PcOf(a.t) == Running
    requires match a
      case BeginEnter(_, s', write') => s' == s && (write ==> write')
      case EnterGate(_) => GateLets(st, a.t) && st.PcOf(a.t).s == s && (write ==> st.PcOf(a.t).write)
      case Acquire(_) => true
      case SetFlag(_) => st.PcOf(a.t).s == s
      case _ => false
    ensures s in Apply(st, a).marks && (write ==> s in Apply(st, a).writeHeld)
  {
  }

  /** Over every run whoever works with a session was let in, and whoever writes has the write lock's flag. */
  lemma {:induction false} WorkingIsMarked(acts: seq<Action>, s: Session, write: bool)
    requires IsRun(INITIAL, acts) && Working(acts, s, write)
    ensures s in After(INITIAL, acts).marks && (write ==> s in After(INITIAL, acts).writeHeld)
  {
    var before, a := acts[..|acts| - 1], acts[|acts| - 1];
    FrontRuns(INITIAL, acts);
    InitialInv();
    InvAlways(INITIAL, before);
    var st := After(INITIAL, before);
    assert PcInv(st, a.t);
    if ComesBack(acts, a.t, s, write) {
      RequestsStand(before, a.t);
      BackIsMarked(st, a, s, write);
    } else {
      WorkingIsMarked(before, s, write);
      WorkStays(st, a, s);
    }
  }

  /** The same in one statement: working sessions were let in; writing ones have the lock with the acquirer. */
  lemma WorkingWasLetIn(acts: seq<Action>, s: Session)
    requires IsRun(INITIAL, acts)
    ensures Working(acts, s, false) ==> LetIn(acts, s).Some?
    ensures Working(acts, s, true) ==>
      s in After(INITIAL, acts).writeHeld
      && After(INITIAL, acts).lockOwner == Some(After(INITIAL, acts).writeHeld[s])
  {
    MarksAreLetIn(acts, s);
    if Working(acts, s, false) {
      WorkingIsMarked(acts, s, false);
    }
    if Working(acts, s, true) {
      WorkingIsMarked(acts, s, true);
      FlagMeansOwner(acts, s);
    }
  }

  // ---------------------------------------------------------------- beside a body

  /**
   While a body runs no session is at work but those a maintainer opened behind its own closed gate;
   where bodies are tidy, that is the thread of the body.
   */
  lemma NobodyBesideTheBody(acts: seq<Action>, t: Thread, s: Session)
    requires IsRun(INITIAL, acts) && After(INITIAL, acts).body == Some(t) && Working(acts, s, false)
    ensures LetIn(acts, s).Some? && LetIn(acts, s).value.MaintenanceOwner?
    ensures IsTidyRun(INITIAL, acts) ==> LetIn(acts, s) == Some(MaintenanceOwner(t))
  {
    WorkingWasLetIn(acts, s);
    MarksAreLetIn(acts, s);
    InitialInv();
    InvAlways(INITIAL, acts);
    BodyRunsUncounted(After(INITIAL, acts));
    if IsTidyRun(INITIAL, acts) {
      TidyBodiesAreAlone(acts, t);
    }
  }
}
