/**
 The three-slot swap of `restore_backup` and its rollback handler.

 A slot is a file or a directory tree that may be absent. The database slot, the
 attachments directory and the archives directory each have a live copy and a
 `restore-previous` copy. Any one step may fail, leaving what a partly done file
 operation can leave; the handler then runs to its end.
 */
module RestoreSwap {
  import opened Wrappers

  type Tree = map<string, Bytes>
  type FileSlot = Option<Bytes>
  type TreeSlot = Option<Tree>

  datatype Store = Store(db: FileSlot, attachments: TreeSlot, archives: TreeSlot)

  /** What the staging directory holds after extraction. */
  datatype Extracted = Extracted(db: Bytes, attachments: TreeSlot, archives: TreeSlot)

  /** The operations of lines 597-625, in order. */
  datatype Step =
    | DropOldDb            // 597-598
    | DropOldAttachments   // 599-600
    | DropOldArchives      // 601-602
    | MoveDb               // 603-604
    | MoveAttachments      // 605-606
    | MoveArchives         // 607-608
    | CopyDb               // 609
    | CopyAttachments      // 610-613
    | CopyArchives         // 614-617
    | Rebuild              // 618-620
    | DropPreviousDb       // 621
    | DropPreviousAttachments  // 622-623
    | DropPreviousArchives     // 624-625

  /**
   The environment of one restore: the step that raises (if any), what a failing copy
   leaves behind, the members a failing recursive delete did not reach, and what schema
   creation makes of the new database file.
   */
  datatype Faults = Faults(
    failing: Option<Step>,
    brokenFile: FileSlot,
    brokenTree: TreeSlot,
    undeleted: set<string>,
    migrate: Bytes -> Bytes)

  /** What a recursive delete that raised leaves: the directory with what it did not reach. */
  function Remnant(tree: Tree, undeleted: set<string>): (r: Tree)
    ensures r.Keys == tree.Keys * undeleted
    ensures forall k :: k in r ==> r[k] == tree[k]
  {
    map k | k in tree && k in undeleted :: tree[k]
  }

  function Made(tree: TreeSlot): Tree {
    if tree.Some? then tree.value else map[]
  }

  /** The steps after the three moves, up to the deletion of the previous database. */
  predicate InWindow(step: Step) {
    step.CopyDb? || step.CopyAttachments? || step.CopyArchives? || step.Rebuild? || step.DropPreviousDb?
  }

  predicate IsDropOld(step: Step) {
    step.DropOldDb? || step.DropOldAttachments? || step.DropOldArchives?
  }

  predicate IsMove(step: Step) {
    step.MoveDb? || step.MoveAttachments? || step.MoveArchives?
  }

  /** A step that has nothing to do cannot raise. */
  predicate CanFailOn(step: Step, live: Store, previous: Store) {
    match step
    case DropOldDb => previous.db.Some?
    case DropOldAttachments => previous.attachments.Some?
    case DropOldArchives => previous.archives.Some?
    case MoveDb => live.db.Some?
    case MoveAttachments => live.attachments.Some?
    case MoveArchives => live.archives.Some?
    case DropPreviousDb => live.db.Some?
    case DropPreviousAttachments => live.attachments.Some?
    case DropPreviousArchives => live.archives.Some?
    case _ => true
  }

  class DataDirectory {
    var db: FileSlot
    var attachments: TreeSlot
    var archives: TreeSlot
    var previousDb: FileSlot
    var previousAttachments: TreeSlot
    var previousArchives: TreeSlot

    ghost function Live(): Store
      reads this
    {
      Store(db, attachments, archives)
    }

    ghost function Previous(): Store
      reads this
    {
      Store(previousDb, previousAttachments, previousArchives)
    }

    /** Lines 597-602: delete what an earlier restore left in the previous slots. */
    method DropOld(faults: Faults) returns (failed: bool)
      modifies this`previousDb, this`previousAttachments, this`previousArchives
      ensures !failed ==> Previous() == Store(None, None, None)
      ensures failed <==> faults.failing.Some? && IsDropOld(faults.failing.value)
                          && CanFailOn(faults.failing.value, old(Live()), old(Previous()))
      ensures failed ==>
        match faults.failing.value
        case DropOldDb => Previous() == old(Previous())
        case DropOldAttachments => Previous() == Store(None,
            RemnantSlot(old(previousAttachments), faults.undeleted), old(previousArchives))
        case _ => Previous() == Store(None, None, RemnantSlot(old(previousArchives), faults.undeleted))
    {
      failed := true;
      if previousDb.Some? {
        if faults.failing == Some(DropOldDb) {
          return;
        }
        previousDb := None;
      }
      if previousAttachments.Some? {
        if faults.failing == Some(DropOldAttachments) {
          previousAttachments := Some(Remnant(previousAttachments.value, faults.undeleted));
          return;
        }
        previousAttachments := None;
      }
      if previousArchives.Some? {
        if faults.failing == Some(DropOldArchives) {
          previousArchives := Some(Remnant(previousArchives.value, faults.undeleted));
          return;
        }
        previousArchives := None;
      }
      failed := false;
    }

    /** Lines 603-608: move the live copies into the empty previous slots. */
    method MoveAside(faults: Faults) returns (failed: bool)
      requires Previous() == Store(None, None, None)
      modifies this
      ensures !failed ==> Live() == Store(None, None, None) && Previous() == old(Live())
      ensures failed <==> faults.failing.Some? && IsMove(faults.failing.value)
                          && CanFailOn(faults.failing.value, old(Live()), old(Previous()))
      ensures failed ==>
        match faults.failing.value
        case MoveDb => Live() == old(Live()) && Previous() == Store(None, None, None)
        case MoveAttachments => (&& Live() == Store(None, old(attachments), old(archives))
                                 && Previous() == Store(old(db), None, None))
        case _ => (&& Live() == Store(None, None, old(archives))
                   && Previous() == Store(old(db), old(attachments), None))
    {
      failed := true;
      if db.Some? {
        if faults.failing == Some(MoveDb) {
          return;
        }
        db, previousDb := None, db;
      }
      if attachments.Some? {
        if faults.failing == Some(MoveAttachments) {
          return;
        }
        attachments, previousAttachments := None, attachments;
      }
      if archives.Some? {
        if faults.failing == Some(MoveArchives) {
          return;
        }
        archives, previousArchives := None, archives;
      }
      failed := false;
    }

    /** Lines 609-620: copy the extracted files in, rebuild and validate. */
    method CopyIn(staged: Extracted, faults: Faults) returns (failed: bool)
      modifies this`db, this`attachments, this`archives
      ensures failed <==> faults.failing.Some? && InWindow(faults.failing.value)
                          && !faults.failing.value.DropPreviousDb?
      ensures !failed ==> Live() == Store(Some(faults.migrate(staged.db)), Some(Made(staged.attachments)),
                                          Some(Made(staged.archives)))
    {
      failed := true;
      if faults.failing == Some(CopyDb) {
        db := faults.brokenFile;
        return;
      }
      db := Some(staged.db);
      if faults.failing == Some(CopyAttachments) {
        attachments := faults.brokenTree;
        return;
      }
      attachments := Some(Made(staged.attachments));
      if faults.failing == Some(CopyArchives) {
        archives := faults.brokenTree;
        return;
      }
      archives := Some(Made(staged.archives));
      if faults.failing == Some(Rebuild) {
        db := faults.brokenFile;
        return;
      }
      db := Some(faults.migrate(staged.db));
      failed := false;
    }

    /** Lines 621-625: delete the previous copies. */
    method DropPrevious(faults: Faults) returns (failed: bool)
      modifies this`previousDb, this`previousAttachments, this`previousArchives
      ensures !failed ==> Previous() == Store(None, None, None)
      ensures failed <==>
        || (faults.failing == Some(DropPreviousDb) && old(previousDb).Some?)
        || (faults.failing == Some(DropPreviousAttachments) && old(previousAttachments).Some?)
        || (faults.failing == Some(DropPreviousArchives) && old(previousArchives).Some?)
      ensures failed ==>
        match faults.failing.value
        case DropPreviousDb => Previous() == old(Previous())
        case DropPreviousAttachments => Previous() == Store(None,
            Some(Remnant(old(previousAttachments).value, faults.undeleted)), old(previousArchives))
        case DropPreviousArchives => Previous() == Store(None, None,
            Some(Remnant(old(previousArchives).value, faults.undeleted)))
        case _ => true
    {
      failed := true;
      if previousDb.Some? {
        if faults.failing == Some(DropPreviousDb) {
          return;
        }
        previousDb := None;
      }
      if previousAttachments.Some? {
        if faults.failing == Some(DropPreviousAttachments) {
          previousAttachments := Some(Remnant(previousAttachments.value, faults.undeleted));
          return;
        }
        previousAttachments := None;
      }
      if previousArchives.Some? {
        if faults.failing == Some(DropPreviousArchives) {
          previousArchives := Some(Remnant(previousArchives.value, faults.undeleted));
          return;
        }
        previousArchives := None;
      }
      failed := false;
    }

    /** The handler, lines 627-639: delete what is live, move the previous copies back. */
    method RollBack()
      modifies this
      ensures Live() == old(Previous()) && Previous() == Store(None, None, None)
    {
      db, attachments, archives := None, None, None;
      if previousDb.Some? {
        db, previousDb := previousDb, None;
      }
      if previousAttachments.Some? {
        attachments, previousAttachments := previousAttachments, None;
      }
      if previousArchives.Some? {
        archives, previousArchives := previousArchives, None;
      }
    }

    /**
     The whole swap. Without a failure the live store is the extracted one (after schema
     creation) and no previous copy is left. With a failure the live store afterwards is the
     original one exactly when `Survives` says so.
     */
    method Swap(staged: Extracted, faults: Faults) returns (ok: bool)
      modifies this
      ensures ok <==> faults.failing == None || !CanFailOn(faults.failing.value, old(Live()), old(Previous()))
      ensures Previous() == Store(None, None, None)
      ensures ok ==> Live() == Store(Some(faults.migrate(staged.db)), Some(Made(staged.attachments)),
                                     Some(Made(staged.archives)))
      ensures !ok ==> (Live() == old(Live())
                       <==> Survives(faults.failing.value, old(Live()), old(Previous()), faults.undeleted))
    {
      var failed := DropOld(faults);
      if !failed {
        failed := MoveAside(faults);
      }
      if !failed {
        failed := CopyIn(staged, faults);
      }
      if !failed {
        failed := DropPrevious(faults);
      }
      ok := !failed;
      if failed {
        RollBack();
      }
    }
  }

  /**
   Exactly when a failure at `step` leaves the original live store, in terms of what was on
   disk before: always inside the window; never when a live copy that exists fails to move;
   outside it only when what was lost was not there.
   */
  predicate Survives(step: Step, live: Store, previous: Store, undeleted: set<string>) {
    match step
    case DropOldDb => previous == live
    case DropOldAttachments => live == Store(None, RemnantSlot(previous.attachments, undeleted), previous.archives)
    case DropOldArchives => live == Store(None, None, RemnantSlot(previous.archives, undeleted))
    case MoveDb => live == Store(None, None, None)
    case MoveAttachments => live == Store(live.db, None, None)
    case MoveArchives => live == Store(live.db, live.attachments, None)
    case DropPreviousAttachments => live == Store(None, RemnantSlot(live.attachments, undeleted), live.archives)
    case DropPreviousArchives => live == Store(None, None, RemnantSlot(live.archives, undeleted))
    case _ => true
  }

  function RemnantSlot(tree: TreeSlot, undeleted: set<string>): TreeSlot {
    if tree.Some? then Some(Remnant(tree.value, undeleted)) else None
  }

  /**
   The window, for a running installation (its database exists): a failing restore is a true
   rollback exactly from the copy of the database (line 609) to the deletion of its previous
   copy (line 621), or when it fails on deleting an old previous store that equals the live one.
   */
  lemma RollbackWindow(step: Step, live: Store, previous: Store, undeleted: set<string>)
    requires live.db.Some? && CanFailOn(step, live, previous)
    ensures Survives(step, live, previous, undeleted)
       <==> InWindow(step) || (step.DropOldDb? && previous == live)
  {
  }
}
