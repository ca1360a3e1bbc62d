/**
 The activation table of model packs and its agreement with the packs' status, and the staging of
 a pack's files while it is uninstalled.
 */
module PackActivation {
  import opened Wrappers

  type PackId = string

  datatype Capability = Embedding | Llm | IntentRouter

  datatype Status = Installed | Active | Corrupt

  datatype Version = Version(major: nat, minor: nat, patch: nat)

  datatype Pack = Pack(capabilities: set<Capability>, minVersion: Option<Version>, status: Status)

  datatype Db = Db(packs: map<PackId, Pack>, activations: map<Capability, PackId>)

  predicate Newer(a: Version, b: Version) {
    a.major > b.major || (a.major == b.major && (a.minor > b.minor || (a.minor == b.minor && a.patch > b.patch)))
  }

  /** Versions are compared number by number. */
  lemma NewerMeans(a: Version, b: Version)
    ensures Newer(a, b) <==> !(a == b || Newer(b, a))
    ensures a.major > b.major ==> Newer(a, b)
    ensures a.major == b.major && a.minor > b.minor ==> Newer(a, b)
    ensures a.major == b.major && a.minor == b.minor ==> (Newer(a, b) <==> a.patch > b.patch)
  {
  }

  datatype Outcome = Activated | NotFound | CapabilityMissing | VersionInvalid | RuntimeTooOld | PackCorrupt

  function WithStatus(s: Db, id: PackId, status: Status): Db
    requires id in s.packs
  {
    s.(packs := s.packs[id := s.packs[id].(status := status)])
  }

  predicate InUse(s: Db, id: PackId) {
    exists c :: c in s.activations && s.activations[c] == id
  }

  /** Some other capability still points at the pack. */
  predicate InUseBesides(s: Db, id: PackId, capability: Capability) {
    exists c :: c in s.activations && s.activations[c] == id && c != capability
  }

  /** `activate_model_pack`; `verified` is the verdict of the file check. */
  function Activate(s: Db, id: PackId, c: Capability, runtime: Version, verified: bool): (Db, Outcome) {
    if id !in s.packs then (s, NotFound)
    else if c !in s.packs[id].capabilities then (s, CapabilityMissing)
    else if s.packs[id].minVersion.None? then (s, VersionInvalid)
    else if Newer(s.packs[id].minVersion.value, runtime) then (s, RuntimeTooOld)
    else if !verified then (WithStatus(s, id, Corrupt), PackCorrupt)
    else
      var s1 := WithStatus(s, id, Active).(activations := s.activations[c := id]);
      if c in s.activations && s.activations[c] != id && s.activations[c] in s.packs
         && !InUseBesides(s, s.activations[c], c)
      then (WithStatus(s1, s.activations[c], Installed), Activated)
      else (s1, Activated)
  }

  /** `deactivate_model_capability`. */
  function Deactivate(s: Db, c: Capability): Db {
    if c !in s.activations then s
    else
      var id, s1 := s.activations[c], s.(activations := s.activations - {c});
      if id in s.packs && !InUse(s1, id) then WithStatus(s1, id, Installed) else s1
  }

  /** `install_model_pack`, as far as the table is concerned. */
  function Install(s: Db, id: PackId, capabilities: set<Capability>, minVersion: Option<Version>): Db {
    if id in s.packs then s else s.(packs := s.packs[id := Pack(capabilities, minVersion, Installed)])
  }

  /** `uninstall_local_model_pack`: refused while any capability points at the pack. */
  function Uninstall(s: Db, id: PackId): Db {
    if InUse(s, id) then s else s.(packs := s.packs - {id})
  }

  /** An import adds a pack that is not there, as merely installed; a removal takes out one that is not in use. */
  lemma InstallAndUninstall(s: Db, id: PackId, capabilities: set<Capability>, minVersion: Option<Version>)
    ensures var after := Install(s, id, capabilities, minVersion);
            after.activations == s.activations && after.packs - {id} == s.packs - {id} && id in after.packs
            && after.packs[id] == if id in s.packs then s.packs[id] else Pack(capabilities, minVersion, Installed)
    ensures var after := Uninstall(s, id);
            after.activations == s.activations && after.packs - {id} == s.packs - {id}
            && (id in after.packs <==> id in s.packs && exists c :: c in s.activations && s.activations[c] == id)
            && (id in after.packs ==> after.packs[id] == s.packs[id])
  {
  }

  datatype Op =
    | ActivateOp(id: PackId, capability: Capability, runtime: Version, verified: bool)
    | DeactivateOp(capability: Capability)
    | InstallOp(id: PackId, capabilities: set<Capability>, minVersion: Option<Version>)
    | UninstallOp(id: PackId)

  function Done(s: Db, op: Op): Db {
    match op
    case ActivateOp(id, c, runtime, verified) => Activate(s, id, c, runtime, verified).0
    case DeactivateOp(c) => Deactivate(s, c)
    case InstallOp(id, capabilities, minVersion) => Install(s, id, capabilities, minVersion)
    case UninstallOp(id) => Uninstall(s, id)
  }

  function AllDone(s: Db, ops: seq<Op>): Db {
    if ops == [] then s else Done(AllDone(s, ops[..|ops| - 1]), ops[|ops| - 1])
  }

  /** A pack is active only if in use; what is in use exists, has the capability and is active or found corrupt. */
  predicate Agrees(s: Db) {
    && (forall id :: id in s.packs && s.packs[id].status == Active ==> InUse(s, id))
    && (forall c :: c in s.activations ==>
      s.activations[c] in s.packs && c in s.packs[s.activations[c]].capabilities
      && s.packs[s.activations[c]].status != Installed)
  }

  /** The pack is still in use after c moved to `id`, if it was not reset. */
  lemma StillInUse(s: Db, id: PackId, c: Capability, p: PackId)
    requires InUse(s, p) && p != id && (c in s.activations && s.activations[c] == p ==> InUseBesides(s, p, c))
    ensures exists d :: d in s.activations && s.activations[d] == p && d != c
  {
    if c in s.activations && s.activations[c] == p {
      var d :| d in s.activations && s.activations[d] == p && d != c;
    } else {
      var d :| d in s.activations && s.activations[d] == p;
    }
  }

  /** What other capabilities point at does not depend on the row of c. */
  lemma SameBesides(s: Db, s': Db, id: PackId, c: Capability)
    requires forall d :: d != c ==> (d in s.activations <==> d in s'.activations)
    requires forall d :: d != c && d in s.activations && d in s'.activations ==> s.activations[d] == s'.activations[d]
    ensures InUseBesides(s, id, c) <==> InUseBesides(s', id, c)
  {
    if InUseBesides(s, id, c) {
      var d :| d in s.activations && s.activations[d] == id && d != c;
      assert s'.activations[d] == id;
    }
    if InUseBesides(s', id, c) {
      var d :| d in s'.activations && s'.activations[d] == id && d != c;
      assert s.activations[d] == id;
    }
  }

  /** The former pack is not active if nothing else uses it, and active or corrupt if something does. */
  predicate FormerRight(s: Db, id: PackId, c: Capability, s': Db) {
    c in s.activations && s.activations[c] != id && s.activations[c] in s'.packs ==>
      s'.packs[s.activations[c]].status != if InUseBesides(s, s.activations[c], c) then Installed else Active
  }

  /** When c moves to an active pack and only the former pack may get another status. */
  ghost predicate Moves(s: Db, id: PackId, c: Capability, s': Db) {
    && id in s.packs && c in s.packs[id].capabilities
    && s'.activations == s.activations[c := id] && s'.packs.Keys == s.packs.Keys
    && (forall p :: p in s.packs ==> s'.packs[p].capabilities == s.packs[p].capabilities)
    && s'.packs[id].status == Active
    && forall p :: p in s.packs && p != id && !(c in s.activations && s.activations[c] == p) ==>
      s'.packs[p].status == s.packs[p].status
  }

  lemma FormerRightAgrees(s: Db, id: PackId, c: Capability, s': Db)
    requires Agrees(s) && Moves(s, id, c, s') && FormerRight(s, id, c, s')
    ensures Agrees(s')
  {
    forall p | p in s'.packs && s'.packs[p].status == Active ensures InUse(s', p) {
      if p == id {
        assert s'.activations[c] == p;
      } else {
        assert c in s.activations && s.activations[c] == p ==> InUseBesides(s, p, c);
        StillInUse(s, id, c, p);
        var d :| d in s.activations && s.activations[d] == p && d != c;
        assert s'.activations[d] == p;
      }
    }
    forall d | d in s'.activations
      ensures s'.activations[d] in s'.packs && d in s'.packs[s'.activations[d]].capabilities
      ensures s'.packs[s'.activations[d]].status != Installed
    {
      if d != c {
        var p := s.activations[d];
        assert c in s.activations && s.activations[c] == p ==> InUseBesides(s, p, c);
      }
    }
  }

  lemma AgreesFormerRight(s: Db, id: PackId, c: Capability, s': Db)
    requires Moves(s, id, c, s') && Agrees(s')
    ensures FormerRight(s, id, c, s')
  {
    if c in s.activations && s.activations[c] != id && s.activations[c] in s'.packs {
      var p := s.activations[c];
      if InUseBesides(s, p, c) {
        var d :| d in s.activations && s.activations[d] == p && d != c;
        assert s'.activations[d] == p;
      } else {
        assert forall d :: d in s'.activations && s'.activations[d] == p ==> d != c && s.activations[d] == p;
        assert !InUse(s', p);
      }
    }
  }

  /** Moving a capability keeps the agreement exactly when the former pack's status follows its other uses. */
  lemma MovedAgreesIff(s: Db, id: PackId, c: Capability, s': Db)
    requires Agrees(s) && Moves(s, id, c, s')
    ensures Agrees(s') <==> FormerRight(s, id, c, s')
  {
    if Agrees(s') {
      AgreesFormerRight(s, id, c, s');
    } else if FormerRight(s, id, c, s') {
      FormerRightAgrees(s, id, c, s');
    }
  }

  lemma ActivateMoves(s: Db, id: PackId, c: Capability, runtime: Version, verified: bool)
    requires Agrees(s) && Activate(s, id, c, runtime, verified).1 == Activated
    ensures Moves(s, id, c, Activate(s, id, c, runtime, verified).0)
    ensures FormerRight(s, id, c, Activate(s, id, c, runtime, verified).0)
  {
  }

  lemma ActivateAgrees(s: Db, id: PackId, c: Capability, runtime: Version, verified: bool)
    requires Agrees(s)
    ensures Agrees(Activate(s, id, c, runtime, verified).0)
  {
    var (s', outcome) := Activate(s, id, c, runtime, verified);
    if outcome == Activated {
      ActivateMoves(s, id, c, runtime, verified);
      MovedAgreesIff(s, id, c, s');
    } else if outcome == PackCorrupt {
      forall p | p in s'.packs && s'.packs[p].status == Active ensures InUse(s', p) {
        assert InUse(s, p);
      }
    }
  }

  lemma DeactivateAgrees(s: Db, c: Capability)
    requires Agrees(s)
    ensures Agrees(Deactivate(s, c))
  {
    var s' := Deactivate(s, c);
    forall p | p in s'.packs && s'.packs[p].status == Active ensures InUse(s', p) {
      assert InUse(s, p);
      if c in s.activations && s.activations[c] == p {
        var d :| d in s'.activations && s'.activations[d] == p;
      } else {
        var d :| d in s.activations && s.activations[d] == p;
        assert d in s'.activations;
      }
    }
  }

  /** Over any run from a table that agrees, in particular the empty one. */
  lemma {:induction false} AlwaysAgrees(s: Db, ops: seq<Op>)
    requires Agrees(s)
    ensures Agrees(AllDone(s, ops))
  {
    if ops == [] {
    } else {
      var s1 := AllDone(s, ops[..|ops| - 1]);
      AlwaysAgrees(s, ops[..|ops| - 1]);
      match ops[|ops| - 1] {
        case ActivateOp(id, c, runtime, verified) => ActivateAgrees(s1, id, c, runtime, verified);
        case DeactivateOp(c) => DeactivateAgrees(s1, c);
        case InstallOp(id, capabilities, minVersion) => InstallAgrees(s1, id, capabilities, minVersion);
        case UninstallOp(id) => UninstallAgrees(s1, id);
      }
    }
  }

  lemma InstallAgrees(s: Db, id: PackId, capabilities: set<Capability>, minVersion: Option<Version>)
    requires Agrees(s)
    ensures Agrees(Install(s, id, capabilities, minVersion))
  {
    var s' := Install(s, id, capabilities, minVersion);
    forall p | p in s'.packs && s'.packs[p].status == Active ensures InUse(s', p) {
      assert InUse(s, p);
    }
  }

  lemma UninstallAgrees(s: Db, id: PackId)
    requires Agrees(s)
    ensures Agrees(Uninstall(s, id))
  {
    var s' := Uninstall(s, id);
    forall p | p in s'.packs && s'.packs[p].status == Active ensures InUse(s', p) {
      assert InUse(s, p);
    }
  }

  // ---------------------------------------------------------------- the tables

  class Tables {
    var packs: map<PackId, Pack>
    var activations: map<Capability, PackId>

    function Now(): Db
      reads this
    {
      Db(packs, activations)
    }

    method SetStatus(id: PackId, status: Status)
      requires id in packs
      modifies this`packs
      ensures Now() == WithStatus(old(Now()), id, status)
    {
      packs := packs[id := packs[id].(status := status)];
    }

    /** `activate_model_pack`: the row first moves to the new pack, then the former one is looked at. */
    method ActivatePack(id: PackId, c: Capability, runtime: Version, verified: bool) returns (outcome: Outcome)
      modifies this
      ensures (Now(), outcome) == Activate(old(Now()), id, c, runtime, verified)
      ensures Agrees(old(Now())) ==> Agrees(Now())
      ensures outcome == NotFound <==> id !in old(packs)
      ensures outcome == CapabilityMissing <==> id in old(packs) && c !in old(packs)[id].capabilities
      ensures outcome == Activated
         <==> (id in old(packs) && c in old(packs)[id].capabilities && old(packs)[id].minVersion.Some?
               && !Newer(old(packs)[id].minVersion.value, runtime) && verified)
      ensures outcome == Activated ==>
        activations == old(activations)[c := id] && id in packs && packs[id].status == Active
      ensures outcome == PackCorrupt ==>
        !verified && activations == old(activations)
        && packs == old(packs)[id := old(packs)[id].(status := Corrupt)]
      ensures outcome !in {Activated, PackCorrupt} ==> packs == old(packs) && activations == old(activations)
    {
      ghost var before := Now();
      if Agrees(before) {
        ActivateAgrees(before, id, c, runtime, verified);
      }
      if id !in packs {
        return NotFound;
      }
      if c !in packs[id].capabilities {
        return CapabilityMissing;
      }
      if packs[id].minVersion.None? {
        return VersionInvalid;
      }
      if Newer(packs[id].minVersion.value, runtime) {
        return RuntimeTooOld;
      }
      if !verified {
        SetStatus(id, Corrupt);
        return PackCorrupt;
      }
      var previous := if c in activations then Some(activations[c]) else None;
      activations := activations[c := id];
      SetStatus(id, Active);
      if previous.Some? && previous.value != id {
        var stillActive := InUseBesides(Now(), previous.value, c);
        SameBesides(before, Now(), previous.value, c);
        if previous.value in packs && !stillActive {
          SetStatus(previous.value, Installed);
        }
      }
      return Activated;
    }

    /** `deactivate_model_capability`: the pack the capability pointed at, if there was one. */
    method DeactivateCapability(c: Capability) returns (pack: Option<PackId>)
      modifies this
      ensures Now() == Deactivate(old(Now()), c)
      ensures activations == old(activations) - {c} && packs.Keys == old(packs).Keys
      ensures forall p :: p in packs ==>
        packs[p] ==
          if c in old(activations) && old(activations)[c] == p && (forall d :: d in activations ==> activations[d] != p)
          then old(packs)[p].(status := Installed) else old(packs)[p]
      ensures pack.Some? <==> c in old(activations) && old(activations)[c] in old(packs)
      ensures Agrees(old(Now())) ==> Agrees(Now())
    {
      if Agrees(Now()) {
        DeactivateAgrees(Now(), c);
      }
      if c !in activations {
        return None;
      }
      var id := activations[c];
      activations := activations - {c};
      if id in packs && !InUse(Now(), id) {
        SetStatus(id, Installed);
      }
      return if id in packs then Some(id) else None;
    }
  }

  // ---------------------------------------------------------------- staging the files of an uninstalled pack

  /** Where the files of one pack may be: in place, or in the freshly named staging directory. */
  datatype Place = Root | Package | StagedRoot | StagedPackage

  type Files = map<Place, Bytes>

  const MOVES: seq<(Place, Place)> := [(Root, StagedRoot), (Package, StagedPackage)]

  function Moved(files: Files, from: Place, to: Place): Files {
    if from in files then files[to := files[from]] - {from} else files
  }

  /** The first n moves made. */
  function Staged(files: Files, n: nat): Files
    requires n <= |MOVES|
  {
    if n == 0 then files else Moved(Staged(files, n - 1), MOVES[n - 1].0, MOVES[n - 1].1)
  }

  /** The moves recorded so far: those whose source was there. */
  function Recorded(files: Files, n: nat): seq<(Place, Place)>
    requires n <= |MOVES|
  {
    if n == 0 then []
    else Recorded(files, n - 1) + if MOVES[n - 1].0 in files then [MOVES[n - 1]] else []
  }

  function Back(files: Files, from: Place, to: Place): Files {
    if to in files && from !in files then files[from := files[to]] - {to} else files
  }

  /** The recorded moves taken back, the last one first. */
  function RolledBack(files: Files, moves: seq<(Place, Place)>): Files
    decreases |moves|
  {
    if moves == [] then files
    else
      var last := moves[|moves| - 1];
      RolledBack(Back(files, last.0, last.1), moves[..|moves| - 1])
  }

  predicate NothingStaged(files: Files) {
    StagedRoot !in files && StagedPackage !in files
  }

  lemma BackOfMoved(files: Files, from: Place, to: Place)
    requires from in files && to !in files
    ensures Back(Moved(files, from, to), from, to) == files
  {
    var moved := Moved(files, from, to);
    assert moved == files[to := files[from]] - {from};
    assert moved[from := moved[to]] - {to} == files;
  }

  /** One move more, recorded, is one move more to take back. */
  lemma UndoStep(files: Files, before: Files, moves: seq<(Place, Place)>, from: Place, to: Place)
    requires RolledBack(before, moves) == files && from in before && to !in before
    ensures RolledBack(Moved(before, from, to), moves + [(from, to)]) == files
  {
    var more := moves + [(from, to)];
    assert more[..|more| - 1] == moves;
    BackOfMoved(before, from, to);
  }

  /** One more step: a move if its source is there, which is then recorded. */
  lemma StageStep(files: Files, n: nat)
    requires n < |MOVES| && NothingStaged(files)
    ensures var (from, to) := MOVES[n];
      && (from in Staged(files, n) <==> from in files) && to !in Staged(files, n)
      && Staged(files, n + 1) == Moved(Staged(files, n), from, to)
      && Recorded(files, n + 1) == if from in files then Recorded(files, n) + [(from, to)] else Recorded(files, n)
  {
    assert Staged(files, 0) == files;
    if n == 1 {
      assert Staged(files, 1) == Moved(files, Root, StagedRoot);
    }
  }

  /** However many moves were made, taking the recorded ones back restores every file. */
  lemma {:induction false} RollBackUndoes(files: Files, n: nat)
    requires n <= |MOVES| && NothingStaged(files)
    ensures RolledBack(Staged(files, n), Recorded(files, n)) == files
  {
    if n == 0 {
    } else {
      var (from, to) := MOVES[n - 1];
      RollBackUndoes(files, n - 1);
      StageStep(files, n - 1);
      if from in files {
        UndoStep(files, Staged(files, n - 1), Recorded(files, n - 1), from, to);
      }
    }
  }

  class PackFiles {
    var files: Files

    /** `rollback_staged_model_pack_removal`; in the end the staging directory goes with what is left in it. */
    method RollBack(moves: seq<(Place, Place)>)
      modifies this
      ensures files == RolledBack(old(files), moves) - {StagedRoot, StagedPackage}
    {
      var i := |moves|;
      assert moves[..i] == moves;
      while i > 0
        invariant 0 <= i <= |moves|
        invariant RolledBack(files, moves[..i]) == RolledBack(old(files), moves)
      {
        i := i - 1;
        assert moves[..i + 1][..i] == moves[..i];
        var (from, to) := moves[i];
        if to in files && from !in files {
          files := files[from := files[to]] - {to};
        }
      }
      files := files - {StagedRoot, StagedPackage};
    }

    /**
     `stage_model_pack_removal`: `failure` is the step that fails (0 for making the directory).
     Then everything is where it was; otherwise what was there is staged.
     */
    method Stage(failure: Option<nat>) returns (moves: Option<seq<(Place, Place)>>)
      requires NothingStaged(files)
      modifies this
      ensures moves.None? ==> files == old(files)
      ensures moves.Some? ==> files == Staged(old(files), |MOVES|) && moves.value == Recorded(old(files), |MOVES|)
    {
      var done: seq<(Place, Place)> := [];
      if failure == Some(0) {
        RollBack(done);
        return None;
      }
      for i := 0 to |MOVES|
        invariant files == Staged(old(files), i) && done == Recorded(old(files), i)
      {
        var (from, to) := MOVES[i];
        StageStep(old(files), i);
        if from in files {
          if failure == Some(i + 1) {
            RollBackUndoes(old(files), i);
            RollBack(done);
            return None;
          }
          files := files[to := files[from]] - {from};
          done := done + [(from, to)];
        }
      }
      return Some(done);
    }

    /** When the commit fails after the staging, the rollback leaves every file as it was. */
    method StageAndRollBack()
      requires NothingStaged(files)
      modifies this
      ensures files == old(files)
    {
      var moves := Stage(None);
      RollBackUndoes(old(files), |MOVES|);
      if moves.Some? {
        RollBack(moves.value);
      }
    }
  }
}
