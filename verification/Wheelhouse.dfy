/**
 The offline dependency closure of `scripts/validate-uos-wheelhouse.py`: a worklist over package
 names whose requested extras grow while it runs.
 */
module Wheelhouse {
  import opened Wrappers

  type Name = string
  type Version = string

  /** The name is canonical; the marker is what it says for each value of `extra` on the target. */
  datatype Requirement = Requirement(
    name: Name, extras: set<string>, marker: Option<string -> bool>, specifier: Option<Version -> bool>)

  datatype Wheel = Wheel(version: Version, dependencies: seq<Requirement>)

  type Wheels = map<Name, Wheel>

  /** The extras a name was last processed with, and how many of its constraints were checked then. */
  datatype Visit = Visit(extras: set<string>, checked: nat)

  datatype State = State(
    queue: seq<Name>, queued: set<Name>, extras: map<Name, set<string>>, constraints: map<Name, seq<Requirement>>,
    visits: map<Name, Visit>, missing: seq<Name>, incompatible: seq<(Name, Requirement)>)

  const START := State([], {}, map[], map[], map[], [], [])

  // ---------------------------------------------------------------- the steps

  /** `extras or {""}`. */
  function Effective(extras: set<string>): set<string> {
    if extras == {} then {""} else extras
  }

  predicate Applies(r: Requirement, extras: set<string>) {
    r.marker.None? || exists e :: e in Effective(extras) && r.marker.value(e)
  }

  predicate Satisfied(r: Requirement, version: Version) {
    r.specifier.Some? ==> r.specifier.value(version)
  }

  function ExtrasOf(s: State, name: Name): set<string> {
    if name in s.extras then s.extras[name] else {}
  }

  function ConstraintsOf(s: State, name: Name): seq<Requirement> {
    if name in s.constraints then s.constraints[name] else []
  }

  /** `require`. */
  function Require(s: State, r: Requirement, parent: set<string>): State {
    if !Applies(r, parent) then s
    else
      var before := ExtrasOf(s, r.name);
      s.(constraints := s.constraints[r.name := ConstraintsOf(s, r.name) + [r]],
         extras := s.extras[r.name := before + r.extras],
         queue := if r.name !in s.queued || before + r.extras != before then s.queue + [r.name] else s.queue,
         queued := s.queued + {r.name})
  }

  function RequireAll(s: State, rs: seq<Requirement>, parent: set<string>): State {
    if rs == [] then s
    else Require(RequireAll(s, rs[..|rs| - 1], parent), rs[|rs| - 1], parent)
  }

  function Violations(name: Name, constraints: seq<Requirement>, version: Version): (v: seq<(Name, Requirement)>)
    ensures v == [] <==> forall i :: 0 <= i < |constraints| ==> Satisfied(constraints[i], version)
  {
    if constraints == [] then []
    else
      var rest := Violations(name, constraints[..|constraints| - 1], version);
      var last := constraints[|constraints| - 1];
      if Satisfied(last, version) then rest else rest + [(name, last)]
  }

  /** The next name is due unless it was processed with exactly its present extras. */
  predicate Due(s: State)
    requires s.queue != []
  {
    var name := s.queue[0];
    !(name in s.visits && s.visits[name].extras == ExtrasOf(s, name))
  }

  /** The first name taken off the queue and marked as processed. */
  function Visited(s: State): State
    requires s.queue != []
  {
    var name := s.queue[0];
    s.(queue := s.queue[1..],
       visits := s.visits[name := Visit(ExtrasOf(s, name), |ConstraintsOf(s, name)|)])
  }

  /** The state before the dependencies of a present, due package are taken up. */
  function Checked(wheels: Wheels, s: State): State
    requires s.queue != [] && s.queue[0] in wheels
  {
    var name := s.queue[0];
    Visited(s).(incompatible := s.incompatible + Violations(name, ConstraintsOf(s, name), wheels[name].version))
  }

  /** One round of the loop. */
  function Process(wheels: Wheels, s: State): State
    requires s.queue != []
  {
    var name := s.queue[0];
    if !Due(s) then s.(queue := s.queue[1..])
    else if name !in wheels then Visited(s).(missing := s.missing + [name])
    else RequireAll(Checked(wheels, s), wheels[name].dependencies, ExtrasOf(s, name))
  }

  // ---------------------------------------------------------------- termination

  /** Everything the worklist can ever learn: that a name is wanted, that an extra of it is wanted. */
  datatype Token = Wanted(name: Name) | Extra(name: Name, extra: string)

  function TokensOf(rs: seq<Requirement>): set<Token> {
    if rs == [] then {}
    else
      var r := rs[|rs| - 1];
      TokensOf(rs[..|rs| - 1]) + {Wanted(r.name)} + set e | e in r.extras :: Extra(r.name, e)
  }

  function Universe(wheels: Wheels, roots: seq<Requirement>): set<Token> {
    TokensOf(roots) + set n, t | n in wheels && t in TokensOf(wheels[n].dependencies) :: t
  }

  function Known(s: State): set<Token> {
    (set n | n in s.queued :: Wanted(n)) + (set n, e | n in s.extras && e in s.extras[n] :: Extra(n, e))
  }

  lemma RequireLearns(s: State, r: Requirement, parent: set<string>)
    ensures Known(s) <= Known(Require(s, r, parent)) <= Known(s) + TokensOf([r])
    ensures Known(Require(s, r, parent)) == Known(s) ==> Require(s, r, parent).queue == s.queue
  {
    var s' := Require(s, r, parent);
    assert TokensOf([r]) == {Wanted(r.name)} + set e | e in r.extras :: Extra(r.name, e) by {
      assert [r][..0] == [];
    }
    if Applies(r, parent) {
      assert Wanted(r.name) in Known(s');
      if s'.queue != s.queue && r.name in s.queued {
        var e :| e in r.extras && e !in ExtrasOf(s, r.name);
        assert Extra(r.name, e) in Known(s') && Extra(r.name, e) !in Known(s);
      }
    }
  }

  lemma {:induction false} RequireAllLearns(s: State, rs: seq<Requirement>, parent: set<string>)
    ensures Known(s) <= Known(RequireAll(s, rs, parent)) <= Known(s) + TokensOf(rs)
    ensures Known(RequireAll(s, rs, parent)) == Known(s) ==> RequireAll(s, rs, parent).queue == s.queue
  {
    if rs == [] {
    } else {
      var n := |rs| - 1;
      RequireAllLearns(s, rs[..n], parent);
      RequireLearns(RequireAll(s, rs[..n], parent), rs[n], parent);
      assert [rs[n]][..0] == [];
      assert TokensOf([rs[n]]) == {Wanted(rs[n].name)} + set e | e in rs[n].extras :: Extra(rs[n].name, e);
    }
  }

  /** Every round learns something new, or leaves a shorter queue. */
  lemma ProcessLearns(wheels: Wheels, roots: seq<Requirement>, s: State)
    requires s.queue != [] && Known(s) <= Universe(wheels, roots)
    ensures Known(s) <= Known(Process(wheels, s)) <= Universe(wheels, roots)
    ensures Known(Process(wheels, s)) == Known(s) ==> |Process(wheels, s).queue| < |s.queue|
  {
    var name := s.queue[0];
    assert forall v :: Known(s.(queue := s.queue[1..], visits := v)) == Known(s);
    if Due(s) && name in wheels {
      assert Known(Checked(wheels, s)) == Known(s);
      RequireAllLearns(Checked(wheels, s), wheels[name].dependencies, ExtrasOf(s, name));
    }
  }

  /** The loop from s on. */
  function Run(wheels: Wheels, roots: seq<Requirement>, s: State): State
    requires Known(s) <= Universe(wheels, roots)
    decreases Universe(wheels, roots) - Known(s), |s.queue|
  {
    if s.queue == [] then s
    else
      ProcessLearns(wheels, roots, s);
      Run(wheels, roots, Process(wheels, s))
  }

  // ---------------------------------------------------------------- what the loop keeps

  predicate Shape(s: State) {
    && s.extras.Keys == s.constraints.Keys == s.queued
    && s.visits.Keys <= s.queued
    && (forall n :: n in s.queue ==> n in s.queued)
    && (forall n :: n in s.visits ==> s.visits[n].extras <= s.extras[n] && s.visits[n].checked <= |s.constraints[n]|)
  }

  /** What is known and not waiting was processed with exactly its present extras. */
  predicate UpToDate(s: State) {
    forall n :: n in s.queued ==> n in s.queue || (n in s.visits && s.visits[n].extras == ExtrasOf(s, n))
  }

  /** The requirement was taken up: its name, all its extras and itself as a constraint. */
  ghost predicate TakenUp(s: State, r: Requirement) {
    r.name in s.queued && r.extras <= ExtrasOf(s, r.name) && r in ConstraintsOf(s, r.name)
  }

  ghost predicate RootsTakenUp(s: State, roots: seq<Requirement>) {
    forall r :: r in roots && Applies(r, {""}) ==> TakenUp(s, r)
  }

  /** The package n has its wheel, and under these extras the wheel needs d. */
  ghost predicate Needs(wheels: Wheels, n: Name, extras: set<string>, d: Requirement) {
    n in wheels && d in wheels[n].dependencies && Applies(d, extras)
  }

  /** What a processed, present package needs under the extras it was processed with was taken up. */
  ghost predicate NeedsTakenUp(wheels: Wheels, s: State) {
    forall n, d :: n in s.visits && Needs(wheels, n, s.visits[n].extras, d) ==> TakenUp(s, d)
  }

  predicate AbsenceNoted(wheels: Wheels, s: State) {
    s.missing == [] ==> forall n :: n in s.visits ==> n in wheels
  }

  predicate FirstHold(constraints: seq<Requirement>, checked: nat, version: Version) {
    checked <= |constraints| && forall i :: 0 <= i < checked ==> Satisfied(constraints[i], version)
  }

  /** The constraints recorded at the last visit hold, unless an incompatibility was noted. */
  predicate CheckedHold(wheels: Wheels, s: State) {
    s.incompatible == [] ==> forall n :: n in s.visits && n in wheels ==>
      FirstHold(ConstraintsOf(s, n), s.visits[n].checked, wheels[n].version)
  }

  ghost predicate AmongFirst(r: Requirement, constraints: seq<Requirement>, checked: nat) {
    checked <= |constraints| && r in constraints[..checked]
  }

  /** The roots are among the constraints checked at any visit. */
  ghost predicate RootsChecked(s: State, roots: seq<Requirement>) {
    forall r :: r in roots && Applies(r, {""}) && r.name in s.visits ==>
      AmongFirst(r, ConstraintsOf(s, r.name), s.visits[r.name].checked)
  }

  ghost predicate Inv(wheels: Wheels, roots: seq<Requirement>, s: State) {
    && Shape(s) && UpToDate(s) && RootsTakenUp(s, roots) && NeedsTakenUp(wheels, s)
    && AbsenceNoted(wheels, s) && CheckedHold(wheels, s) && RootsChecked(s, roots)
  }

  /** From s to s' names, extras and constraints only grow, and the visits stay. */
  ghost predicate Grows(s: State, s': State) {
    && s.queued <= s'.queued && s'.visits == s.visits && s'.missing == s.missing && s'.incompatible == s.incompatible
    && (forall n :: ExtrasOf(s, n) <= ExtrasOf(s', n))
    && (forall n :: ConstraintsOf(s, n) <= ConstraintsOf(s', n))
  }

  lemma RequireGrows(s: State, r: Requirement, parent: set<string>)
    requires Shape(s) && UpToDate(s)
    ensures var s' := Require(s, r, parent); Grows(s, s') && Shape(s') && UpToDate(s')
    ensures Applies(r, parent) ==> TakenUp(Require(s, r, parent), r)
  {
  }

  lemma {:induction false} RequireAllGrows(s: State, rs: seq<Requirement>, parent: set<string>)
    requires Shape(s) && UpToDate(s)
    ensures var s' := RequireAll(s, rs, parent); Grows(s, s') && Shape(s') && UpToDate(s')
    ensures forall r :: r in rs && Applies(r, parent) ==> TakenUp(RequireAll(s, rs, parent), r)
  {
    if rs == [] {
    } else {
      var n := |rs| - 1;
      var s1, s2 := RequireAll(s, rs[..n], parent), RequireAll(s, rs, parent);
      RequireAllGrows(s, rs[..n], parent);
      RequireGrows(s1, rs[n], parent);
      forall r | r in rs && Applies(r, parent) ensures TakenUp(s2, r) {
        assert r in rs[..n] || r == rs[n];
      }
    }
  }

  lemma GrowsKeeps(wheels: Wheels, roots: seq<Requirement>, s: State, s': State)
    requires Grows(s, s') && Shape(s)
    ensures RootsTakenUp(s, roots) ==> RootsTakenUp(s', roots)
    ensures AbsenceNoted(wheels, s) ==> AbsenceNoted(wheels, s')
    ensures CheckedHold(wheels, s) ==> CheckedHold(wheels, s')
    ensures RootsChecked(s, roots) ==> RootsChecked(s', roots)
  {
  }

  lemma SkipKeeps(wheels: Wheels, roots: seq<Requirement>, s: State)
    requires Inv(wheels, roots, s) && s.queue != [] && !Due(s)
    ensures Inv(wheels, roots, s.(queue := s.queue[1..]))
  {
    SameNeeds(wheels, s, s.(queue := s.queue[1..]));
  }

  /** Nothing but the queue and the notes changed: what was taken up still is. */
  lemma SameTakenUp(s: State, s': State, r: Requirement)
    requires s.queued == s'.queued && s.extras == s'.extras && s.constraints == s'.constraints
    ensures TakenUp(s, r) <==> TakenUp(s', r)
  {
  }

  lemma SameRoots(s: State, s': State, roots: seq<Requirement>)
    requires s.queued == s'.queued && s.extras == s'.extras && s.constraints == s'.constraints
    requires RootsTakenUp(s, roots)
    ensures RootsTakenUp(s', roots)
  {
    forall r | r in roots && Applies(r, {""}) ensures TakenUp(s', r) {
      SameTakenUp(s, s', r);
    }
  }

  lemma SameNeeds(wheels: Wheels, s: State, s': State)
    requires s.queued == s'.queued && s.extras == s'.extras && s.constraints == s'.constraints
    requires NeedsTakenUp(wheels, s)
    requires forall n :: n in s'.visits ==> n !in wheels || (n in s.visits && s.visits[n].extras == s'.visits[n].extras)
    ensures NeedsTakenUp(wheels, s')
  {
    forall n, d | n in s'.visits && Needs(wheels, n, s'.visits[n].extras, d) ensures TakenUp(s', d) {
      assert TakenUp(s, d);
      SameTakenUp(s, s', d);
    }
  }

  /** Marking the name as processed: everything but its own needs is settled. */
  lemma VisitKeepsShape(s: State)
    requires Shape(s) && UpToDate(s) && s.queue != []
    ensures Shape(Visited(s)) && UpToDate(Visited(s))
  {
  }

  lemma VisitKeepsRoots(s: State, roots: seq<Requirement>)
    requires Shape(s) && RootsTakenUp(s, roots) && RootsChecked(s, roots) && s.queue != []
    ensures RootsTakenUp(Visited(s), roots) && RootsChecked(Visited(s), roots)
  {
    var name, v := s.queue[0], Visited(s);
    SameRoots(s, v, roots);
    forall r | r in roots && Applies(r, {""}) && r.name in v.visits
      ensures AmongFirst(r, ConstraintsOf(v, r.name), v.visits[r.name].checked)
    {
      assert TakenUp(s, r);
      var constraints := ConstraintsOf(s, r.name);
      assert constraints[..|constraints|] == constraints;
      if r.name != name {
        assert v.visits[r.name] == s.visits[r.name];
      }
    }
  }

  lemma VisitKeepsChecks(wheels: Wheels, s: State)
    requires Shape(s) && CheckedHold(wheels, s) && AbsenceNoted(wheels, s) && s.queue != []
    ensures s.queue[0] in wheels ==>
      AbsenceNoted(wheels, Checked(wheels, s)) && CheckedHold(wheels, Checked(wheels, s))
    ensures s.queue[0] !in wheels ==> CheckedHold(wheels, Visited(s))
  {
    var name := s.queue[0];
    if name in wheels {
      var v := Checked(wheels, s);
      if v.incompatible == [] {
        assert Violations(name, ConstraintsOf(s, name), wheels[name].version) == [] && s.incompatible == [];
        assert FirstHold(ConstraintsOf(v, name), v.visits[name].checked, wheels[name].version);
      }
    }
  }

  lemma NeedsAfterCheck(wheels: Wheels, s: State)
    requires Shape(s) && UpToDate(s) && NeedsTakenUp(wheels, s) && s.queue != [] && s.queue[0] in wheels
    ensures NeedsTakenUp(
      wheels, RequireAll(Checked(wheels, s), wheels[s.queue[0]].dependencies, ExtrasOf(s, s.queue[0])))
  {
    var name, v := s.queue[0], Checked(wheels, s);
    var s' := RequireAll(v, wheels[name].dependencies, ExtrasOf(s, name));
    VisitKeepsShape(s);
    assert Shape(v) && UpToDate(v);
    RequireAllGrows(v, wheels[name].dependencies, ExtrasOf(s, name));
    forall n, d | n in s'.visits && Needs(wheels, n, s'.visits[n].extras, d) ensures TakenUp(s', d) {
      if n != name {
        assert n in s.visits && s.visits[n] == s'.visits[n] && TakenUp(s, d);
        SameTakenUp(s, v, d);
      }
    }
  }

  lemma PresentKeeps(wheels: Wheels, roots: seq<Requirement>, s: State)
    requires Inv(wheels, roots, s) && s.queue != [] && s.queue[0] in wheels
    ensures Inv(wheels, roots, RequireAll(Checked(wheels, s), wheels[s.queue[0]].dependencies, ExtrasOf(s, s.queue[0])))
  {
    var name, v := s.queue[0], Checked(wheels, s);
    VisitKeepsShape(s);
    VisitKeepsRoots(s, roots);
    VisitKeepsChecks(wheels, s);
    assert Shape(v) && UpToDate(v);
    SameRoots(s, v, roots);
    RequireAllGrows(v, wheels[name].dependencies, ExtrasOf(s, name));
    GrowsKeeps(wheels, roots, v, RequireAll(v, wheels[name].dependencies, ExtrasOf(s, name)));
    NeedsAfterCheck(wheels, s);
  }

  lemma AbsentKeeps(wheels: Wheels, roots: seq<Requirement>, s: State)
    requires Inv(wheels, roots, s) && s.queue != [] && s.queue[0] !in wheels
    ensures Inv(wheels, roots, Visited(s).(missing := s.missing + [s.queue[0]]))
  {
    var v := Visited(s).(missing := s.missing + [s.queue[0]]);
    VisitKeepsShape(s);
    VisitKeepsRoots(s, roots);
    VisitKeepsChecks(wheels, s);
    SameRoots(s, v, roots);
    SameNeeds(wheels, s, v);
  }

  /** One round keeps everything. */
  lemma ProcessKeeps(wheels: Wheels, roots: seq<Requirement>, s: State)
    requires Inv(wheels, roots, s) && s.queue != []
    ensures Inv(wheels, roots, Process(wheels, s))
  {
    if !Due(s) {
      SkipKeeps(wheels, roots, s);
    } else if s.queue[0] in wheels {
      PresentKeeps(wheels, roots, s);
    } else {
      AbsentKeeps(wheels, roots, s);
    }
  }

  lemma StartHolds(wheels: Wheels, roots: seq<Requirement>)
    ensures var s := RequireAll(START, roots, {""}); Inv(wheels, roots, s) && Known(s) <= Universe(wheels, roots)
  {
    RequireAllGrows(START, roots, {""});
    RequireAllLearns(START, roots, {""});
  }

  lemma {:induction false} RunKeeps(wheels: Wheels, roots: seq<Requirement>, s: State)
    requires Known(s) <= Universe(wheels, roots) && Inv(wheels, roots, s)
    ensures Inv(wheels, roots, Run(wheels, roots, s)) && Run(wheels, roots, s).queue == []
    decreases Universe(wheels, roots) - Known(s), |s.queue|
  {
    if s.queue == [] {
    } else {
      ProcessLearns(wheels, roots, s);
      ProcessKeeps(wheels, roots, s);
      RunKeeps(wheels, roots, Process(wheels, s));
    }
  }

  // ---------------------------------------------------------------- what a result of 0 means

  /** A finished worklist: the extras each wanted name ended with. */
  function Final(wheels: Wheels, roots: seq<Requirement>): State {
    StartHolds(wheels, roots);
    Run(wheels, roots, RequireAll(START, roots, {""}))
  }

  predicate Passes(wheels: Wheels, roots: seq<Requirement>) {
    Final(wheels, roots).missing == [] && Final(wheels, roots).incompatible == []
  }

  /** Every name has its wheel, and what that wheel needs under the name's extras is there with its extras. */
  ghost predicate Closed(wheels: Wheels, extras: map<Name, set<string>>) {
    && (forall n :: n in extras ==> n in wheels)
    && (forall n, d :: n in extras && Needs(wheels, n, extras[n], d) ==>
      d.name in extras && d.extras <= extras[d.name])
  }

  /** The root that applies has its wheel, of an allowed version, with the extras it asks for. */
  ghost predicate Provided(wheels: Wheels, extras: map<Name, set<string>>, r: Requirement) {
    && r.name in extras && r.extras <= extras[r.name]
    && r.name in wheels && Satisfied(r, wheels[r.name].version)
  }

  lemma FinishedRoot(wheels: Wheels, roots: seq<Requirement>, s: State, r: Requirement)
    requires Shape(s) && UpToDate(s) && RootsTakenUp(s, roots) && RootsChecked(s, roots)
    requires AbsenceNoted(wheels, s) && CheckedHold(wheels, s)
    requires s.queue == [] && s.missing == [] && s.incompatible == []
    requires r in roots && Applies(r, {""})
    ensures Provided(wheels, s.extras, r)
  {
    assert TakenUp(s, r);
    var n := r.name;
    assert n in s.visits && n in wheels;
    assert AmongFirst(r, ConstraintsOf(s, n), s.visits[n].checked);
    assert FirstHold(ConstraintsOf(s, n), s.visits[n].checked, wheels[n].version);
  }

  lemma FinishedIsClosed(wheels: Wheels, s: State)
    requires Shape(s) && UpToDate(s) && NeedsTakenUp(wheels, s) && AbsenceNoted(wheels, s)
    requires s.queue == [] && s.missing == []
    ensures Closed(wheels, s.extras)
  {
    forall n, d | n in s.extras && Needs(wheels, n, s.extras[n], d)
      ensures d.name in s.extras && d.extras <= s.extras[d.name]
    {
      assert n in s.visits && s.visits[n].extras == s.extras[n];
      assert TakenUp(s, d);
    }
  }

  /** A marker holds for one of the extras, or for "" where there are none; no marker always holds. */
  ghost predicate IsActive(marker: Option<string -> bool>, extras: set<string>) {
    marker.None? || (extras == {} && marker.value("")) || exists e :: e in extras && marker.value(e)
  }

  lemma ActiveMeans(r: Requirement, extras: set<string>)
    ensures Applies(r, extras) <==> IsActive(r.marker, extras)
  {
    if extras == {} {
      assert "" in {""};
    }
  }

  lemma RootIsActive(r: Requirement)
    ensures Applies(r, {""}) <==> r.marker.None? || r.marker.value("")
  {
    assert "" in {""};
  }

  /**
   When nothing is reported, every root that applies is there with its extras and a wheel of an
   allowed version, and the names form a closure under their final extras, however late the
   extras arrived.
   */
  lemma PassingIsClosed(wheels: Wheels, roots: seq<Requirement>)
    requires Passes(wheels, roots)
    ensures Closed(wheels, Final(wheels, roots).extras)
    ensures forall r :: r in roots && Applies(r, {""}) ==> Provided(wheels, Final(wheels, roots).extras, r)
    ensures var found := Final(wheels, roots).extras;
            && (forall n :: n in found ==> n in wheels)
            && (forall n, d :: n in found && d in wheels[n].dependencies && IsActive(d.marker, found[n]) ==>
                  d.name in found && d.extras <= found[d.name])
            && (forall r :: r in roots && (r.marker.None? || r.marker.value("")) ==>
                  r.name in found && r.extras <= found[r.name]
                  && (r.specifier.Some? ==> r.specifier.value(wheels[r.name].version)))
  {
    var s := Final(wheels, roots);
    FinalHolds(wheels, roots);
    FinishedIsClosed(wheels, s);
    forall n, d | n in s.extras && d in wheels[n].dependencies && IsActive(d.marker, s.extras[n])
      ensures d.name in s.extras && d.extras <= s.extras[d.name]
    {
      ActiveMeans(d, s.extras[n]);
      assert Needs(wheels, n, s.extras[n], d);
    }
    forall r | r in roots ensures Applies(r, {""}) <==> r.marker.None? || r.marker.value("") {
      RootIsActive(r);
    }
    forall r | r in roots && Applies(r, {""}) ensures Provided(wheels, s.extras, r) {
      FinishedRoot(wheels, roots, s, r);
    }
  }

  lemma FinalHolds(wheels: Wheels, roots: seq<Requirement>)
    ensures Inv(wheels, roots, Final(wheels, roots)) && Final(wheels, roots).queue == []
  {
    StartHolds(wheels, roots);
    RunKeeps(wheels, roots, RequireAll(START, roots, {""}));
  }

  // ---------------------------------------------------------------- no false alarm

  /** The requirement asks for nothing beyond `extras`, and a wheel of that name would satisfy it. */
  ghost predicate Admitted(wheels: Wheels, extras: map<Name, set<string>>, r: Requirement) {
    && r.name in extras && r.extras <= extras[r.name]
    && (r.name in wheels ==> Satisfied(r, wheels[r.name].version))
  }

  /**
   An independent description of a complete wheelhouse: a set of present names with extras that
   admits the roots and whatever its wheels need under any part of their extras.
   */
  ghost predicate Complete(wheels: Wheels, roots: seq<Requirement>, extras: map<Name, set<string>>) {
    && extras.Keys <= wheels.Keys
    && (forall r :: r in roots && Applies(r, {""}) ==> Admitted(wheels, extras, r))
    && (forall n, part, d :: n in extras && part <= extras[n] && Needs(wheels, n, part, d) ==>
          Admitted(wheels, extras, d))
  }

  /** The worklist stays inside the description and has nothing to report. */
  ghost predicate Inside(wheels: Wheels, extras: map<Name, set<string>>, s: State) {
    && Shape(s) && s.missing == [] && s.incompatible == []
    && (forall n :: n in s.queued ==> n in extras && s.extras[n] <= extras[n])
    && (forall n, r :: n in s.queued && r in s.constraints[n] ==> r.name == n && Admitted(wheels, extras, r))
  }

  lemma RequireInside(wheels: Wheels, extras: map<Name, set<string>>, s: State, r: Requirement, parent: set<string>)
    requires Inside(wheels, extras, s) && (Applies(r, parent) ==> Admitted(wheels, extras, r))
    ensures Inside(wheels, extras, Require(s, r, parent))
  {
  }

  lemma {:induction false} RequireAllInside(wheels: Wheels, extras: map<Name, set<string>>, s: State,
                                            rs: seq<Requirement>, parent: set<string>)
    requires Inside(wheels, extras, s)
    requires forall r :: r in rs && Applies(r, parent) ==> Admitted(wheels, extras, r)
    ensures Inside(wheels, extras, RequireAll(s, rs, parent))
  {
    if rs == [] {
    } else {
      var n := |rs| - 1;
      RequireAllInside(wheels, extras, s, rs[..n], parent);
      assert rs[n] in rs;
      RequireInside(wheels, extras, RequireAll(s, rs[..n], parent), rs[n], parent);
    }
  }

  lemma ProcessInside(wheels: Wheels, roots: seq<Requirement>, extras: map<Name, set<string>>, s: State)
    requires Complete(wheels, roots, extras) && Inside(wheels, extras, s) && s.queue != []
    ensures Inside(wheels, extras, Process(wheels, s))
  {
    var name := s.queue[0];
    if Due(s) {
      assert name in wheels.Keys;
      var constraints, version := ConstraintsOf(s, name), wheels[name].version;
      assert forall i :: 0 <= i < |constraints| ==>
        constraints[i] in constraints && Admitted(wheels, extras, constraints[i]);
      assert Violations(name, constraints, version) == [];
      forall d | d in wheels[name].dependencies && Applies(d, ExtrasOf(s, name)) ensures Admitted(wheels, extras, d) {
        assert Needs(wheels, name, ExtrasOf(s, name), d);
      }
      RequireAllInside(wheels, extras, Checked(wheels, s), wheels[name].dependencies, ExtrasOf(s, name));
    }
  }

  lemma {:induction false} RunInside(wheels: Wheels, roots: seq<Requirement>, extras: map<Name, set<string>>, s: State)
    requires Known(s) <= Universe(wheels, roots) && Complete(wheels, roots, extras) && Inside(wheels, extras, s)
    ensures Inside(wheels, extras, Run(wheels, roots, s))
    decreases Universe(wheels, roots) - Known(s), |s.queue|
  {
    if s.queue == [] {
    } else {
      ProcessLearns(wheels, roots, s);
      ProcessInside(wheels, roots, extras, s);
      RunInside(wheels, roots, extras, Process(wheels, s));
    }
  }

  /** Every constraint that was recorded holds. */
  ghost predicate AllHold(wheels: Wheels, s: State) {
    forall n, r :: n in wheels && r in ConstraintsOf(s, n) ==> Satisfied(r, wheels[n].version)
  }

  /** A complete wheelhouse passes, and the closure found is within any that describes it. */
  lemma CompletePasses(wheels: Wheels, roots: seq<Requirement>, extras: map<Name, set<string>>)
    requires Complete(wheels, roots, extras)
    ensures Passes(wheels, roots) && AllHold(wheels, Final(wheels, roots))
    ensures var found := Final(wheels, roots).extras; forall n :: n in found ==> n in extras && found[n] <= extras[n]
  {
    StartHolds(wheels, roots);
    RequireAllInside(wheels, extras, START, roots, {""});
    RunInside(wheels, roots, extras, RequireAll(START, roots, {""}));
    InsideHolds(wheels, extras, Final(wheels, roots));
  }

  lemma InsideHolds(wheels: Wheels, extras: map<Name, set<string>>, s: State)
    requires Inside(wheels, extras, s)
    ensures AllHold(wheels, s)
  {
    forall n, r | n in wheels && r in ConstraintsOf(s, n) ensures Satisfied(r, wheels[n].version) {
      assert n in s.queued && Admitted(wheels, extras, r);
    }
  }

  // ---------------------------------------------------------------- the constraints

  /** More extras never switch a dependency off: no marker tests for the absence of an extra. */
  ghost predicate Monotone(wheels: Wheels) {
    forall n, part, extras, d :: part <= extras && Needs(wheels, n, part, d) ==> Needs(wheels, n, extras, d)
  }

  lemma TakenUpIsAdmitted(wheels: Wheels, s: State, r: Requirement)
    requires Shape(s) && TakenUp(s, r) && AllHold(wheels, s)
    ensures Admitted(wheels, s.extras, r)
  {
  }

  lemma HoldingIsComplete(wheels: Wheels, roots: seq<Requirement>)
    requires Monotone(wheels) && Passes(wheels, roots) && AllHold(wheels, Final(wheels, roots))
    ensures Complete(wheels, roots, Final(wheels, roots).extras)
  {
    var s := Final(wheels, roots);
    FinalHolds(wheels, roots);
    forall r | r in roots && Applies(r, {""}) ensures Admitted(wheels, s.extras, r) {
      assert TakenUp(s, r);
      TakenUpIsAdmitted(wheels, s, r);
    }
    forall n, part, d | n in s.extras && part <= s.extras[n] && Needs(wheels, n, part, d)
      ensures Admitted(wheels, s.extras, d)
    {
      assert Needs(wheels, n, s.extras[n], d);
      assert n in s.visits && s.visits[n].extras == s.extras[n];
      assert TakenUp(s, d);
      TakenUpIsAdmitted(wheels, s, d);
    }
    FinishedIsClosed(wheels, s);
  }

  /**
   What a pass is worth: it means a complete wheelhouse exactly when also the constraints
   recorded after a package's last visit hold.
   */
  lemma CompleteIffPassesAndHolds(wheels: Wheels, roots: seq<Requirement>)
    requires Monotone(wheels)
    ensures (exists extras :: Complete(wheels, roots, extras))
       <==> Passes(wheels, roots) && AllHold(wheels, Final(wheels, roots))
  {
    if Passes(wheels, roots) && AllHold(wheels, Final(wheels, roots)) {
      HoldingIsComplete(wheels, roots);
    }
    if extras :| Complete(wheels, roots, extras) {
      CompletePasses(wheels, roots, extras);
    }
  }

  // ---------------------------------------------------------------- on the wheelhouse alone

  /** The present names take in what the roots ask for, and what their wheels need under any part of their extras. */
  ghost predicate TakesIn(wheels: Wheels, roots: seq<Requirement>, extras: map<Name, set<string>>) {
    && extras.Keys <= wheels.Keys
    && (forall r :: r in roots && Applies(r, {""}) ==> IsIn(extras, r))
    && (forall n, part, d :: n in extras && part <= extras[n] && Needs(wheels, n, part, d) ==> IsIn(extras, d))
  }

  predicate IsIn(extras: map<Name, set<string>>, r: Requirement) {
    r.name in extras && r.extras <= extras[r.name]
  }

  predicate Within(extras: map<Name, set<string>>, other: map<Name, set<string>>) {
    forall n :: n in extras ==> n in other && extras[n] <= other[n]
  }

  /** The least names and extras that do. */
  ghost predicate IsLeast(wheels: Wheels, roots: seq<Requirement>, extras: map<Name, set<string>>) {
    TakesIn(wheels, roots, extras) && forall other :: TakesIn(wheels, roots, other) ==> Within(extras, other)
  }

  /** The wheels satisfy the roots and every dependency of the names. */
  ghost predicate VersionsFit(wheels: Wheels, roots: seq<Requirement>, extras: map<Name, set<string>>) {
    && (forall r :: r in roots && Applies(r, {""}) && r.name in wheels ==> Satisfied(r, wheels[r.name].version))
    && (forall n, part, d :: n in extras && part <= extras[n] && Needs(wheels, n, part, d) && d.name in wheels ==>
          Satisfied(d, wheels[d.name].version))
  }

  /** The worklist's names and extras stay inside, whatever it reports. */
  ghost predicate NamesInside(extras: map<Name, set<string>>, s: State) {
    Shape(s) && forall n :: n in s.queued ==> n in extras && s.extras[n] <= extras[n]
  }

  lemma RequireNamesInside(extras: map<Name, set<string>>, s: State, r: Requirement, parent: set<string>)
    requires NamesInside(extras, s) && (Applies(r, parent) ==> IsIn(extras, r))
    ensures NamesInside(extras, Require(s, r, parent))
  {
  }

  lemma {:induction false} AllNamesInside(extras: map<Name, set<string>>, s: State, rs: seq<Requirement>,
                                          parent: set<string>)
    requires NamesInside(extras, s) && forall r :: r in rs && Applies(r, parent) ==> IsIn(extras, r)
    ensures NamesInside(extras, RequireAll(s, rs, parent))
  {
    if rs == [] {
    } else {
      var n := |rs| - 1;
      AllNamesInside(extras, s, rs[..n], parent);
      assert rs[n] in rs;
      RequireNamesInside(extras, RequireAll(s, rs[..n], parent), rs[n], parent);
    }
  }

  lemma ProcessNamesInside(wheels: Wheels, roots: seq<Requirement>, extras: map<Name, set<string>>, s: State)
    requires TakesIn(wheels, roots, extras) && NamesInside(extras, s) && s.queue != []
    ensures NamesInside(extras, Process(wheels, s))
  {
    var name := s.queue[0];
    if Due(s) {
      assert name in wheels.Keys;
      forall d | d in wheels[name].dependencies && Applies(d, ExtrasOf(s, name)) ensures IsIn(extras, d) {
        assert Needs(wheels, name, ExtrasOf(s, name), d);
      }
      AllNamesInside(extras, Checked(wheels, s), wheels[name].dependencies, ExtrasOf(s, name));
    }
  }

  lemma {:induction false} RunNamesInside(wheels: Wheels, roots: seq<Requirement>, extras: map<Name, set<string>>,
                                          s: State)
    requires Known(s) <= Universe(wheels, roots) && TakesIn(wheels, roots, extras) && NamesInside(extras, s)
    ensures NamesInside(extras, Run(wheels, roots, s))
    decreases Universe(wheels, roots) - Known(s), |s.queue|
  {
    if s.queue == [] {
    } else {
      ProcessLearns(wheels, roots, s);
      ProcessNamesInside(wheels, roots, extras, s);
      RunNamesInside(wheels, roots, extras, Process(wheels, s));
    }
  }

  lemma FinalIsWithin(wheels: Wheels, roots: seq<Requirement>, extras: map<Name, set<string>>)
    requires TakesIn(wheels, roots, extras)
    ensures Within(Final(wheels, roots).extras, extras)
  {
    StartHolds(wheels, roots);
    AllNamesInside(extras, START, roots, {""});
    RunNamesInside(wheels, roots, extras, RequireAll(START, roots, {""}));
  }

  lemma FinalTakesIn(wheels: Wheels, roots: seq<Requirement>)
    requires Monotone(wheels) && Passes(wheels, roots)
    ensures TakesIn(wheels, roots, Final(wheels, roots).extras)
  {
    var found := Final(wheels, roots).extras;
    PassingIsClosed(wheels, roots);
    forall r | r in roots && Applies(r, {""}) ensures IsIn(found, r) {
      assert Provided(wheels, found, r);
    }
    forall n, part, d | n in found && part <= found[n] && Needs(wheels, n, part, d) ensures IsIn(found, d) {
      assert Needs(wheels, n, found[n], d);
    }
  }

  /** A pass finds the least names and extras that take in the roots. */
  lemma PassFindsLeast(wheels: Wheels, roots: seq<Requirement>)
    requires Monotone(wheels) && Passes(wheels, roots)
    ensures IsLeast(wheels, roots, Final(wheels, roots).extras)
  {
    FinalTakesIn(wheels, roots);
    forall other | TakesIn(wheels, roots, other) ensures Within(Final(wheels, roots).extras, other) {
      FinalIsWithin(wheels, roots, other);
    }
  }

  lemma CompleteTakesIn(wheels: Wheels, roots: seq<Requirement>, extras: map<Name, set<string>>)
    ensures Complete(wheels, roots, extras) <==> TakesIn(wheels, roots, extras) && VersionsFit(wheels, roots, extras)
  {
  }

  lemma FitsWithin(wheels: Wheels, roots: seq<Requirement>, extras: map<Name, set<string>>,
                   other: map<Name, set<string>>)
    requires Within(extras, other) && VersionsFit(wheels, roots, other)
    ensures VersionsFit(wheels, roots, extras)
  {
  }

  /**
   What a pass is worth, said of the wheelhouse alone: a wheelhouse that passes is complete exactly
   when the wheels satisfy every dependency in the least closure of the roots.
   */
  lemma PassIsCompleteIff(wheels: Wheels, roots: seq<Requirement>)
    requires Monotone(wheels) && Passes(wheels, roots)
    ensures exists extras :: IsLeast(wheels, roots, extras)
    ensures (exists extras :: Complete(wheels, roots, extras))
       <==> (forall extras :: IsLeast(wheels, roots, extras) ==> VersionsFit(wheels, roots, extras))
  {
    var found := Final(wheels, roots).extras;
    PassFindsLeast(wheels, roots);
    if complete :| Complete(wheels, roots, complete) {
      CompleteTakesIn(wheels, roots, complete);
      forall extras | IsLeast(wheels, roots, extras) ensures VersionsFit(wheels, roots, extras) {
        FitsWithin(wheels, roots, extras, complete);
      }
    }
    if VersionsFit(wheels, roots, found) {
      CompleteTakesIn(wheels, roots, found);
    }
  }

  /** Package b, present in version 1, is wanted first; then a asks for another version of it. */
  function LateExample(): (Wheels, seq<Requirement>) {
    (map["a" := Wheel("1", [Requirement("b", {}, None, Some((v: Version) => v == "2"))]), "b" := Wheel("1", [])],
     [B_ANY, A_ANY])
  }

  const B_ANY := Requirement("b", {}, None, None)
  const A_ANY := Requirement("a", {}, None, None)

  lemma LateStart()
    ensures RequireAll(START, [B_ANY, A_ANY], {""})
         == State(["b", "a"], {"b", "a"}, map["b" := {}, "a" := {}], map["b" := [B_ANY], "a" := [A_ANY]], map[], [], [])
  {
    var roots := [B_ANY, A_ANY];
    assert roots[..1] == [B_ANY] && [B_ANY][..0] == [];
    var s := Require(START, B_ANY, {""});
    assert ExtrasOf(START, "b") + B_ANY.extras == {} && ConstraintsOf(START, "b") + [B_ANY] == [B_ANY];
    assert s.queued == {"b"} && s.extras == map["b" := {}] && s.constraints == map["b" := [B_ANY]] && s.queue == ["b"];
    var s' := Require(s, A_ANY, {""});
    assert RequireAll(START, [B_ANY], {""}) == s;
    assert ExtrasOf(s, "a") + A_ANY.extras == {} && ConstraintsOf(s, "a") + [A_ANY] == [A_ANY];
    assert s'.queued == {"b", "a"} && s'.queue == ["b", "a"];
    assert s'.extras == map["b" := {}, "a" := {}] && s'.constraints == map["b" := [B_ANY], "a" := [A_ANY]];
  }

  lemma LateSecond(wheels: Wheels, s: State, d: Requirement)
    requires "a" in wheels && wheels["a"] == Wheel("1", [d]) && d.name == "b" && d.extras == {} && d.marker.None?
    requires s == State(["a"], {"b", "a"}, map["b" := {}, "a" := {}], map["b" := [B_ANY], "a" := [A_ANY]],
                        map["b" := Visit({}, 1)], [], [])
    ensures var s' := Process(wheels, s);
      s'.queue == [] && s'.missing == [] && s'.incompatible == [] && ConstraintsOf(s', "b") == [B_ANY, d]
  {
    assert s.queue[1..] == [] && [d][..0] == [];
    assert Violations("a", [A_ANY], "1") == [];
    assert RequireAll(Checked(wheels, s), [d], {}) == Require(Checked(wheels, s), d, {});
    assert ExtrasOf(s, "b") + d.extras == ExtrasOf(s, "b");
  }

  lemma TwoRounds(wheels: Wheels, roots: seq<Requirement>, s: State)
    requires Known(s) <= Universe(wheels, roots) && s.queue != [] && Process(wheels, s).queue != []
    requires Process(wheels, Process(wheels, s)).queue == []
    ensures Run(wheels, roots, s) == Process(wheels, Process(wheels, s))
  {
    ProcessLearns(wheels, roots, s);
    ProcessLearns(wheels, roots, Process(wheels, s));
    assert Run(wheels, roots, Process(wheels, s)) == Process(wheels, Process(wheels, s));
  }

  lemma LateRun(wheels: Wheels, d: Requirement)
    requires d.name == "b" && d.extras == {} && d.marker.None?
    requires wheels == map["a" := Wheel("1", [d]), "b" := Wheel("1", [])]
    ensures Passes(wheels, [B_ANY, A_ANY]) && d in ConstraintsOf(Final(wheels, [B_ANY, A_ANY]), "b")
  {
    var roots := [B_ANY, A_ANY];
    StartHolds(wheels, roots);
    LateStart();
    var s := RequireAll(START, roots, {""});
    LateSecond(wheels, Process(wheels, s), d);
    TwoRounds(wheels, roots, s);
  }

  /** A constraint recorded after its package's last visit is not checked. */
  lemma LateConstraintIsNotChecked()
    ensures var (wheels, roots) := LateExample(); Passes(wheels, roots) && !AllHold(wheels, Final(wheels, roots))
  {
    var (wheels, roots) := LateExample();
    var d := wheels["a"].dependencies[0];
    LateRun(wheels, d);
    assert !Satisfied(d, wheels["b"].version);
  }

  // ---------------------------------------------------------------- the program

  const CRYPTOGRAPHY_VERSION: Version := "50.0.0"
  const SMART_RUNTIME: set<Name> := {"numpy", "onnxruntime", "tokenizers"}

  datatype Refusal = CryptographyNotPinned | SmartRuntimeIncomplete

  /** The worklist's variables, changed in place. */
  class Validator {
    var queue: seq<Name>
    var queued: set<Name>
    var extras: map<Name, set<string>>
    var constraints: map<Name, seq<Requirement>>
    var visits: map<Name, Visit>
    var missing: seq<Name>
    var incompatible: seq<(Name, Requirement)>

    constructor ()
      ensures Now() == START
    {
      queue, queued, extras, constraints := [], {}, map[], map[];
      visits, missing, incompatible := map[], [], [];
    }

    ghost function Now(): State
      reads this
    {
      State(queue, queued, extras, constraints, visits, missing, incompatible)
    }

    /** `marker_applies`: no marker, or one that is true for some extra, and for "" where there are none. */
    static method MarkerApplies(r: Requirement, extras: set<string>) returns (applies: bool)
      ensures applies
         <==> (r.marker.None? || (extras == {} && r.marker.value(""))
               || exists e :: e in extras && r.marker.value(e))
      ensures applies <==> Applies(r, extras)
    {
      ActiveMeans(r, extras);
      if r.marker.None? {
        return true;
      }
      var rest := Effective(extras);
      while rest != {}
        invariant rest <= Effective(extras)
        invariant forall e :: e in Effective(extras) && e !in rest ==> !r.marker.value(e)
        decreases rest
      {
        var e :| e in rest;
        if r.marker.value(e) {
          return true;
        }
        rest := rest - {e};
      }
      return false;
    }

    method Take(r: Requirement, parent: set<string>)
      modifies this
      ensures Now() == Require(old(Now()), r, parent)
    {
      var applies := MarkerApplies(r, parent);
      if !applies {
        return;
      }
      var before := if r.name in extras then extras[r.name] else {};
      constraints := constraints[r.name := (if r.name in constraints then constraints[r.name] else []) + [r]];
      extras := extras[r.name := before + r.extras];
      if r.name !in queued || extras[r.name] != before {
        queue := queue + [r.name];
      }
      queued := queued + {r.name};
    }

    method TakeAll(rs: seq<Requirement>, parent: set<string>)
      modifies this
      ensures Now() == RequireAll(old(Now()), rs, parent)
    {
      for i := 0 to |rs|
        invariant Now() == RequireAll(old(Now()), rs[..i], parent)
      {
        assert rs[..i + 1][..i] == rs[..i] && rs[..i + 1][i] == rs[i];
        Take(rs[i], parent);
      }
      assert rs[..|rs|] == rs;
    }

    method CheckConstraints(name: Name, all: seq<Requirement>, version: Version)
      modifies this`incompatible
      ensures incompatible == old(incompatible) + Violations(name, all, version)
    {
      for i := 0 to |all|
        invariant incompatible == old(incompatible) + Violations(name, all[..i], version)
      {
        assert all[..i + 1][..i] == all[..i];
        if all[i].specifier.Some? && !all[i].specifier.value(version) {
          incompatible := incompatible + [(name, all[i])];
        }
      }
      assert all[..|all|] == all;
    }

    /** One round of the loop. */
    method Round(wheels: Wheels)
      requires queue != []
      modifies this
      ensures Now() == Process(wheels, old(Now()))
    {
      var name := queue[0];
      queue := queue[1..];
      var known := if name in extras then extras[name] else {};
      var all := if name in constraints then constraints[name] else [];
      if name in visits && visits[name].extras == known {
        return;
      }
      visits := visits[name := Visit(known, |all|)];
      if name !in wheels {
        missing := missing + [name];
        return;
      }
      CheckConstraints(name, all, wheels[name].version);
      TakeAll(wheels[name].dependencies, known);
    }

    /**
     `validate`: the pinned packages are there, and then 0 exactly when the worklist has nothing
     to report: the closure is `PassingIsClosed`, its absence of false alarms `CompletePasses`.
     */
    method Validate(wheels: Wheels, roots: seq<Requirement>) returns (result: Result<int, Refusal>)
      requires Now() == START
      modifies this
      ensures result == Err(CryptographyNotPinned)
         <==> !("cryptography" in wheels && wheels["cryptography"].version == "50.0.0")
      ensures result == Err(SmartRuntimeIncomplete)
         <==> result != Err(CryptographyNotPinned)
              && !("numpy" in wheels && "onnxruntime" in wheels && "tokenizers" in wheels)
      ensures result.Ok? ==> Now() == Final(wheels, roots)
      ensures result.Ok? ==> result.value == (if Passes(wheels, roots) then 0 else 2)
      ensures result == Ok(0) ==> Closed(wheels, extras)
    {
      if !("cryptography" in wheels && wheels["cryptography"].version == CRYPTOGRAPHY_VERSION) {
        return Err(CryptographyNotPinned);
      }
      if !(SMART_RUNTIME <= wheels.Keys) {
        return Err(SmartRuntimeIncomplete);
      }
      Work(wheels, roots);
      if missing != [] || incompatible != [] {
        return Ok(2);
      }
      PassingIsClosed(wheels, roots);
      assert extras == Now().extras;
      return Ok(0);
    }

    /** The roots, and then round after round until the queue is empty. */
    method Work(wheels: Wheels, roots: seq<Requirement>)
      requires Now() == START
      modifies this
      ensures Now() == Final(wheels, roots)
    {
      TakeAll(roots, {""});
      StartHolds(wheels, roots);
      while queue != []
        invariant Known(Now()) <= Universe(wheels, roots)
        invariant Run(wheels, roots, Now()) == Final(wheels, roots)
        decreases Universe(wheels, roots) - Known(Now()), |queue|
      {
        ProcessLearns(wheels, roots, Now());
        Round(wheels);
      }
    }
  }
}
