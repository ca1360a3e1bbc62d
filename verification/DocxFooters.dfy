/**
 The page-number footers of the document formatter: usable footers are completed, missing ones
 are made with fresh relationships, and every section gets a reference of both kinds.
 */
module DocxFooters {
  import opened Wrappers
  import opened Decimal
  import opened DocxSections

  type Parts = map<string, Bytes>

  datatype Kind = Default | Even

  /** A relationship of the main document part; `footer` says whether it has the footer type. */
  datatype Rel = Rel(id: string, footer: bool, target: string, external: bool)

  /** The helpers that are not modelled: target paths and the XML of a footer part. */
  datatype Env = Env(
    part: string -> Option<string>,
    hasField: Bytes -> bool,
    hasPage: Bytes -> bool,
    withNumber: (Bytes, Kind) -> Bytes,
    written: Bytes -> Bytes,
    made: Kind -> Bytes)
  {
    /**
     What is assumed of them: an added number has its field, writing a part back keeps the field, and
     what the formatter itself has added or made shows the number when it is written.
     */
    ghost predicate Valid() {
      && part("") == None && (forall kind: Kind :: part(FileName(kind)) == Some(PartName(kind)))
      && (forall b, kind :: hasField(withNumber(b, kind)) && hasPage(written(withNumber(b, kind))))
      && (forall kind :: hasField(made(kind)) && hasPage(made(kind)) && hasPage(written(made(kind))))
      && (forall b :: hasField(written(b)) <==> hasField(b))
    }

    /** Writing back what was written back changes nothing. */
    ghost predicate WritesOnce() {
      forall b :: written(written(b)) == written(b)
    }
  }

  function KindName(kind: Kind): string {
    if kind == Default then "default" else "even"
  }

  function Stem(kind: Kind): string {
    if kind == Default then "-partyops-odd" else "-partyops-even"
  }

  function FileName(kind: Kind): string {
    "footer" + Stem(kind) + ".xml"
  }

  function PartName(kind: Kind): string {
    "word/footer" + Stem(kind) + ".xml"
  }

  // ---------------------------------------------------------------- fresh relationship ids

  function IdName(n: nat): string {
    "rIdPartyOpsFooter" + Digits(n)
  }

  lemma IdNamesDiffer(j: nat, k: nat)
    requires IdName(j) == IdName(k)
    ensures j == k
  {
    var prefix := "rIdPartyOpsFooter";
    assert IdName(j)[|prefix|..] == Digits(j) && IdName(k)[|prefix|..] == Digits(k);
    DigitsDiffer(j, k);
  }

  ghost predicate OnlyLeft(ids: set<string>, n: nat, left: set<string>) {
    forall j: nat :: j >= n && IdName(j) in ids ==> IdName(j) in left
  }

  /** The first index from n on whose id is not taken. */
  function FreshIndex(ids: set<string>, n: nat, ghost left: set<string>): (r: nat)
    requires OnlyLeft(ids, n, left)
    ensures r >= n && IdName(r) !in ids && forall j: nat :: n <= j < r ==> IdName(j) in ids
    decreases left
  {
    if IdName(n) !in ids then n
    else
      StillLeft(ids, n, left);
      FreshIndex(ids, n + 1, left - {IdName(n)})
  }

  lemma StillLeft(ids: set<string>, n: nat, left: set<string>)
    requires OnlyLeft(ids, n, left)
    ensures OnlyLeft(ids, n + 1, left - {IdName(n)})
  {
    forall j: nat | j >= n + 1 && IdName(j) in ids ensures IdName(j) in left - {IdName(n)} {
      if IdName(j) == IdName(n) {
        IdNamesDiffer(j, n);
      }
    }
  }

  // ---------------------------------------------------------------- the references of the sections

  function RefKind(e: Element): string {
    if "type" in e.attrs then e.attrs["type"] else "default"
  }

  function RefId(e: Element): string {
    if "id" in e.attrs then e.attrs["id"] else ""
  }

  predicate IsRef(e: Element, kind: Kind) {
    e.tag == FooterReference && RefKind(e) == KindName(kind)
  }

  function RefIds(s: Section, kind: Kind): seq<string> {
    if s == [] then []
    else (if IsRef(s[0], kind) then [RefId(s[0])] else []) + RefIds(s[1..], kind)
  }

  /** The ids of all references of the kind, in document order. */
  function AllRefIds(sections: seq<Section>, kind: Kind): seq<string> {
    if sections == [] then [] else AllRefIds(sections[..|sections| - 1], kind) + RefIds(sections[|sections| - 1], kind)
  }

  predicate HasKind(s: Section, kind: Kind) {
    exists e :: e in s && IsRef(e, kind)
  }

  // ---------------------------------------------------------------- which footers are usable

  predicate IsTarget(rel: Rel, id: string) {
    rel.id == id && rel.footer && !rel.external
  }

  /** The target of the last internal footer relationship with the id, or "". */
  function TargetOf(rels: seq<Rel>, id: string): string {
    if rels == [] then ""
    else if IsTarget(rels[|rels| - 1], id) then rels[|rels| - 1].target
    else TargetOf(rels[..|rels| - 1], id)
  }

  /** The part the id leads to, if it leads to one that is there. */
  function PartOf(env: Env, parts: Parts, rels: seq<Rel>, id: string): Option<string> {
    var part := env.part(TargetOf(rels, id));
    if part.Some? && part.value in parts then part else None
  }

  function UsableIds(env: Env, parts: Parts, rels: seq<Rel>, ids: seq<string>): (u: seq<string>)
    ensures forall id :: id in u ==> id in ids && PartOf(env, parts, rels, id).Some?
    ensures u == [] <==> forall id :: id in ids ==> PartOf(env, parts, rels, id).None?
  {
    if ids == [] then []
    else
      var rest := UsableIds(env, parts, rels, ids[..|ids| - 1]);
      var last := ids[|ids| - 1];
      assert ids == ids[..|ids| - 1] + [last];
      if PartOf(env, parts, rels, last).Some? then rest + [last] else rest
  }

  /** The part with its page number: written back if it has one, else with one added. */
  function Numbered(env: Env, b: Bytes, kind: Kind): Bytes {
    if env.hasField(b) then env.written(b) else env.written(env.withNumber(b, kind))
  }

  function Current(parts: Parts, outputs: Parts, name: string): Bytes
    requires name in parts
  {
    if name in outputs then outputs[name] else parts[name]
  }

  function Completed(env: Env, parts: Parts, rels: seq<Rel>, outputs: Parts, ids: seq<string>, kind: Kind): Parts {
    if ids == [] then outputs
    else
      var before := Completed(env, parts, rels, outputs, ids[..|ids| - 1], kind);
      var part := PartOf(env, parts, rels, ids[|ids| - 1]);
      if part.Some? then before[part.value := Numbered(env, Current(parts, before, part.value), kind)] else before
  }

  // ---------------------------------------------------------------- one kind, and both

  /** What the loop over the two kinds carries along. */
  datatype Footers = Footers(
    rels: seq<Rel>, ids: set<string>, next: nat, overrides: set<string>, outputs: Parts)

  /** The state after one kind, and the id its new references will carry. */
  function KindDone(env: Env, parts: Parts, rels0: seq<Rel>, sections: seq<Section>, f: Footers,
                    kind: Kind): (Footers, string) {
    var ids := AllRefIds(sections, kind);
    var usable := UsableIds(env, parts, rels0, ids);
    var outputs := Completed(env, parts, rels0, f.outputs, ids, kind);
    if usable != [] then (f.(outputs := outputs), usable[0])
    else
      var n := FreshIndex(f.ids, f.next, f.ids);
      (Footers(
         f.rels + [Rel(IdName(n), true, FileName(kind), false)], f.ids + {IdName(n)}, n + 1,
         f.overrides + {PartName(kind)}, outputs[PartName(kind) := env.made(kind)]),
       IdName(n))
  }

  function Reference(kind: Kind, id: string): Element {
    Element(FooterReference, map["type" := KindName(kind), "id" := id])
  }

  /** The references a section lacks, in front of its other children. */
  function Referenced(s: Section, odd: string, even: string): Section {
    (if HasKind(s, Default) then [] else [Reference(Default, odd)])
    + (if HasKind(s, Even) then [] else [Reference(Even, even)])
    + s
  }

  // ---------------------------------------------------------------- references resolve

  predicate LeadsTo(env: Env, parts: Parts, rel: Rel, id: string) {
    IsTarget(rel, id) && env.part(rel.target).Some? && env.part(rel.target).value in parts
    && env.hasField(parts[env.part(rel.target).value])
  }

  /** The id has an internal footer relationship to a part that is there and has a page number. */
  ghost predicate Resolves(env: Env, parts: Parts, rels: seq<Rel>, id: string) {
    exists rel :: rel in rels && LeadsTo(env, parts, rel, id)
  }

  lemma {:induction false} TargetIsThere(rels: seq<Rel>, id: string)
    ensures TargetOf(rels, id) == ""
         || exists rel :: rel in rels && IsTarget(rel, id) && rel.target == TargetOf(rels, id)
  {
    if rels == [] {
    } else {
      var last := rels[|rels| - 1];
      if IsTarget(last, id) {
        assert last in rels;
      } else {
        TargetIsThere(rels[..|rels| - 1], id);
      }
    }
  }

  predicate AllNumbered(env: Env, outputs: Parts) {
    forall name :: name in outputs ==> env.hasField(outputs[name])
  }

  lemma {:induction false} CompletedFacts(env: Env, parts: Parts, rels: seq<Rel>, outputs: Parts,
                              ids: seq<string>, kind: Kind)
    requires env.Valid() && AllNumbered(env, outputs)
    ensures AllNumbered(env, Completed(env, parts, rels, outputs, ids, kind))
    ensures outputs.Keys <= Completed(env, parts, rels, outputs, ids, kind).Keys <= outputs.Keys + parts.Keys
    ensures forall id :: id in ids && PartOf(env, parts, rels, id).Some? ==>
      PartOf(env, parts, rels, id).value in Completed(env, parts, rels, outputs, ids, kind)
  {
    if ids == [] {
    } else {
      var n := |ids| - 1;
      CompletedFacts(env, parts, rels, outputs, ids[..n], kind);
      assert ids == ids[..n] + [ids[n]];
    }
  }

  ghost predicate IdsKnown(f: Footers) {
    forall rel :: rel in f.rels ==> rel.id in f.ids
  }

  /** One kind: relationships are only added, under ids not yet taken; outputs are only added, each with a number. */
  lemma KindFacts(env: Env, parts: Parts, rels0: seq<Rel>, sections: seq<Section>, f: Footers, kind: Kind)
    requires env.Valid() && AllNumbered(env, f.outputs) && IdsKnown(f)
    ensures var (f', id) := KindDone(env, parts, rels0, sections, f, kind);
      && AllNumbered(env, f'.outputs) && IdsKnown(f') && f.outputs.Keys <= f'.outputs.Keys
      && (f'.rels == f.rels || (f'.rels == f.rels + [Rel(id, true, FileName(kind), false)] && id !in f.ids))
      && f.ids <= f'.ids
  {
    CompletedFacts(env, parts, rels0, f.outputs, AllRefIds(sections, kind), kind);
  }

  lemma KindResolves(env: Env, parts: Parts, rels0: seq<Rel>, sections: seq<Section>, f: Footers, kind: Kind)
    requires env.Valid() && AllNumbered(env, f.outputs) && IdsKnown(f) && rels0 <= f.rels
    ensures var (f', id) := KindDone(env, parts, rels0, sections, f, kind);
      Resolves(env, f'.outputs, f'.rels, id)
  {
    var ids := AllRefIds(sections, kind);
    var usable := UsableIds(env, parts, rels0, ids);
    var (f', id) := KindDone(env, parts, rels0, sections, f, kind);
    CompletedFacts(env, parts, rels0, f.outputs, ids, kind);
    if usable != [] {
      assert id in usable;
      TargetIsThere(rels0, id);
      var rel :| rel in rels0 && IsTarget(rel, id) && rel.target == TargetOf(rels0, id);
      assert rel in f'.rels && LeadsTo(env, f'.outputs, rel, id);
    } else {
      var rel := Rel(id, true, FileName(kind), false);
      assert rel in f'.rels && LeadsTo(env, f'.outputs, rel, id);
    }
  }

  // ---------------------------------------------------------------- the whole call

  datatype Docx = Docx(sections: seq<Section>, rels: seq<Rel>, overrides: set<string>, parts: Parts)

  function IdsOf(rels: seq<Rel>): set<string> {
    set rel | rel in rels :: rel.id
  }

  function Begun(d: Docx): Footers {
    Footers(d.rels, IdsOf(d.rels), 1, d.overrides, map[])
  }

  function Odd(env: Env, d: Docx): (Footers, string) {
    KindDone(env, d.parts, d.rels, d.sections, Begun(d), Default)
  }

  function Both(env: Env, d: Docx): (Footers, string) {
    KindDone(env, d.parts, d.rels, d.sections, Odd(env, d).0, Even)
  }

  function AllReferenced(sections: seq<Section>, odd: string, even: string): (r: seq<Section>)
    ensures |r| == |sections| && forall i :: 0 <= i < |r| ==> r[i] == Referenced(sections[i], odd, even)
  {
    seq(|sections|, i requires 0 <= i < |sections| => Referenced(sections[i], odd, even))
  }

  /** `_add_page_footers`, with what `format_docx` does with the result. */
  function WithFooters(env: Env, d: Docx): Docx {
    var f := Both(env, d).0;
    Docx(AllReferenced(d.sections, Odd(env, d).1, Both(env, d).1), f.rels, f.overrides, d.parts + f.outputs)
  }

  lemma BothFacts(env: Env, d: Docx)
    requires env.Valid()
    ensures var (f1, odd) := Odd(env, d); var (f2, even) := Both(env, d);
      && Resolves(env, f2.outputs, f2.rels, odd) && Resolves(env, f2.outputs, f2.rels, even)
      && AllNumbered(env, f2.outputs) && d.rels <= f1.rels <= f2.rels
  {
    var (f1, odd) := Odd(env, d);
    var (f2, even) := Both(env, d);
    KindFacts(env, d.parts, d.rels, d.sections, Begun(d), Default);
    KindResolves(env, d.parts, d.rels, d.sections, Begun(d), Default);
    KindFacts(env, d.parts, d.rels, d.sections, f1, Even);
    KindResolves(env, d.parts, d.rels, d.sections, f1, Even);
    var rel :| rel in f1.rels && LeadsTo(env, f1.outputs, rel, odd);
    assert rel in f2.rels && LeadsTo(env, f2.outputs, rel, odd);
  }

  lemma ResolvesInParts(env: Env, parts: Parts, outputs: Parts, rels: seq<Rel>, id: string)
    requires Resolves(env, outputs, rels, id)
    ensures Resolves(env, parts + outputs, rels, id)
  {
    var rel :| rel in rels && LeadsTo(env, outputs, rel, id);
    assert LeadsTo(env, parts + outputs, rel, id);
  }

  /**
   Every section has references of both kinds; those it had are kept with its other children; the
   ones added resolve to a numbered part of the output.
   */
  lemma SectionsGetBothKinds(env: Env, d: Docx, i: nat)
    requires env.Valid() && i < |d.sections|
    ensures var d', s' := WithFooters(env, d), WithFooters(env, d).sections[i];
      && HasKind(s', Default) && HasKind(s', Even)
      && |s'| >= |d.sections[i]| && s'[|s'| - |d.sections[i]|..] == d.sections[i]
      && forall k :: 0 <= k < |s'| - |d.sections[i]| ==>
        s'[k].tag == FooterReference && Resolves(env, d'.parts, d'.rels, RefId(s'[k]))
  {
    var s, odd, even := d.sections[i], Odd(env, d).1, Both(env, d).1;
    var f := Both(env, d).0;
    BothFacts(env, d);
    ResolvesInParts(env, d.parts, f.outputs, f.rels, odd);
    ResolvesInParts(env, d.parts, f.outputs, f.rels, even);
    ReferencedHasBoth(s, odd, even);
  }

  lemma ReferencedHasBoth(s: Section, odd: string, even: string)
    ensures var s' := Referenced(s, odd, even); var n := |s'| - |s|;
      && HasKind(s', Default) && HasKind(s', Even) && n >= 0 && s'[n..] == s
      && forall k :: 0 <= k < n ==> s'[k] == Reference(Default, odd) || s'[k] == Reference(Even, even)
  {
    var s' := Referenced(s, odd, even);
    forall kind: Kind ensures HasKind(s', kind) {
      var id := if kind == Default then odd else even;
      if HasKind(s, kind) {
        var e :| e in s && IsRef(e, kind);
        assert e in s';
      } else {
        assert Reference(kind, id) in s' && IsRef(Reference(kind, id), kind);
      }
    }
  }

  predicate DistinctIds(rels: seq<Rel>) {
    forall i, j :: 0 <= i < j < |rels| ==> rels[i].id != rels[j].id
  }

  /** One kind adds at most one relationship, under an id nothing else has. */
  lemma KindIsFresh(env: Env, parts: Parts, rels0: seq<Rel>, sections: seq<Section>, f: Footers, kind: Kind, old_: nat)
    requires env.Valid() && AllNumbered(env, f.outputs) && IdsKnown(f) && old_ <= |f.rels|
    ensures var f' := KindDone(env, parts, rels0, sections, f, kind).0;
      && f.rels <= f'.rels && |f'.rels| <= |f.rels| + 1 && (DistinctIds(f.rels) ==> DistinctIds(f'.rels))
      && forall i :: |f.rels| <= i < |f'.rels| ==> f'.rels[i].id !in IdsOf(f.rels[..old_])
  {
    KindFacts(env, parts, rels0, sections, f, kind);
  }

  /** Relationships are kept and at most one is added for each kind, under an id nothing else has. */
  lemma NewIdsAreFresh(env: Env, d: Docx)
    requires env.Valid()
    ensures var rels := WithFooters(env, d).rels;
      && d.rels <= rels && |rels| <= |d.rels| + 2
      && (forall i :: |d.rels| <= i < |rels| ==> rels[i].id !in IdsOf(d.rels))
      && (DistinctIds(d.rels) ==> DistinctIds(rels))
  {
    var f1, n := Odd(env, d).0, |d.rels|;
    KindFacts(env, d.parts, d.rels, d.sections, Begun(d), Default);
    KindIsFresh(env, d.parts, d.rels, d.sections, Begun(d), Default, n);
    KindIsFresh(env, d.parts, d.rels, d.sections, f1, Even, n);
    assert d.rels[..n] == d.rels && f1.rels[..n] == d.rels;
  }

  /** A reference of the kind leads to the part. */
  ghost predicate Reached(env: Env, d: Docx, kind: Kind, name: string) {
    exists id :: id in AllRefIds(d.sections, kind) && PartOf(env, d.parts, d.rels, id) == Some(name)
  }

  /** A reference of the kind leads to the part, or it has the name of a new part of the kind. */
  ghost predicate Concerns(env: Env, d: Docx, kind: Kind, name: string) {
    name == PartName(kind) || Reached(env, d, kind, name)
  }

  lemma {:induction false} CompletedOnly(env: Env, parts: Parts, rels: seq<Rel>, outputs: Parts,
                              ids: seq<string>, kind: Kind, name: string)
    requires forall id :: id in ids ==> PartOf(env, parts, rels, id) != Some(name)
    ensures name in Completed(env, parts, rels, outputs, ids, kind) ==> name in outputs
  {
    if ids == [] {
    } else {
      assert ids == ids[..|ids| - 1] + [ids[|ids| - 1]];
      CompletedOnly(env, parts, rels, outputs, ids[..|ids| - 1], kind, name);
    }
  }

  /** Every part that concerns neither kind is kept as it is; the others have a page number if they were written. */
  lemma OtherPartsStay(env: Env, d: Docx, name: string)
    requires env.Valid() && name in d.parts
    ensures name in WithFooters(env, d).parts
    ensures !Concerns(env, d, Default, name) && !Concerns(env, d, Even, name) ==>
      WithFooters(env, d).parts[name] == d.parts[name]
    ensures WithFooters(env, d).parts[name] != d.parts[name] ==> env.hasField(WithFooters(env, d).parts[name])
  {
    BothFacts(env, d);
    if !Concerns(env, d, Default, name) && !Concerns(env, d, Even, name) {
      CompletedOnly(env, d.parts, d.rels, map[], AllRefIds(d.sections, Default), Default, name);
      CompletedOnly(env, d.parts, d.rels, Odd(env, d).0.outputs, AllRefIds(d.sections, Even), Even, name);
    }
  }

  // ---------------------------------------------------------------- formatting again

  /** Some reference of the kind leads to a part that is there. */
  predicate Usable(env: Env, d: Docx, kind: Kind) {
    UsableIds(env, d.parts, d.rels, AllRefIds(d.sections, kind)) != []
  }

  /** The kind has a usable footer already, or a section that will get the new one. */
  ghost predicate Settles(env: Env, d: Docx, kind: Kind) {
    Usable(env, d, kind)
    || exists i :: 0 <= i < |d.sections| && !HasKind(d.sections[i], kind)
  }

  lemma {:induction false} RefIdsOf(s: Section, kind: Kind, e: Element)
    requires e in s && IsRef(e, kind)
    ensures RefId(e) in RefIds(s, kind)
  {
    if e != s[0] {
      assert e in s[1..];
      RefIdsOf(s[1..], kind, e);
    }
  }

  lemma {:induction false} AllRefIdsOf(sections: seq<Section>, kind: Kind, i: nat, e: Element)
    requires i < |sections| && e in sections[i] && IsRef(e, kind)
    ensures RefId(e) in AllRefIds(sections, kind)
  {
    var n := |sections| - 1;
    if i < n {
      AllRefIdsOf(sections[..n], kind, i, e);
    } else {
      RefIdsOf(sections[n], kind, e);
    }
  }

  lemma {:induction false} RefIdsCome(s: Section, kind: Kind, id: string) returns (e: Element)
    requires id in RefIds(s, kind)
    ensures e in s && IsRef(e, kind) && RefId(e) == id
  {
    if IsRef(s[0], kind) && RefId(s[0]) == id {
      e := s[0];
    } else {
      e := RefIdsCome(s[1..], kind, id);
    }
  }

  lemma {:induction false} AllRefIdsCome(sections: seq<Section>, kind: Kind, id: string) returns (i: nat, e: Element)
    requires id in AllRefIds(sections, kind)
    ensures i < |sections| && e in sections[i] && IsRef(e, kind) && RefId(e) == id
  {
    var n := |sections| - 1;
    if id in AllRefIds(sections[..n], kind) {
      i, e := AllRefIdsCome(sections[..n], kind, id);
    } else {
      i := n;
      e := RefIdsCome(sections[n], kind, id);
    }
  }

  /** With unique ids the relationship that carries an id is the one that is looked up. */
  lemma {:induction false} TargetOfUnique(rels: seq<Rel>, rel: Rel)
    requires DistinctIds(rels) && rel in rels && rel.footer && !rel.external
    ensures TargetOf(rels, rel.id) == rel.target
  {
    var last := rels[|rels| - 1];
    if last != rel {
      assert rel in rels[..|rels| - 1];
      TargetOfUnique(rels[..|rels| - 1], rel);
    }
  }

  /** The id the new references of a kind carry. */
  function NewRefId(env: Env, d: Docx, kind: Kind): string {
    if kind == Default then Odd(env, d).1 else Both(env, d).1
  }

  lemma NewRefIdIsReferenced(env: Env, d: Docx, kind: Kind)
    requires env.Valid() && Settles(env, d, kind)
    ensures NewRefId(env, d, kind) in AllRefIds(WithFooters(env, d).sections, kind)
  {
    var id, sections := NewRefId(env, d, kind), WithFooters(env, d).sections;
    var usable := UsableIds(env, d.parts, d.rels, AllRefIds(d.sections, kind));
    if usable != [] {
      assert id == usable[0] && id in usable;
      var i, e := AllRefIdsCome(d.sections, kind, id);
      assert e in sections[i];
      AllRefIdsOf(sections, kind, i, e);
    } else {
      var i :| 0 <= i < |d.sections| && !HasKind(d.sections[i], kind);
      assert Reference(kind, id) in sections[i];
      AllRefIdsOf(sections, kind, i, Reference(kind, id));
    }
  }

  lemma SettledIsUsable(env: Env, d: Docx, kind: Kind)
    requires env.Valid() && DistinctIds(d.rels) && Settles(env, d, kind)
    ensures var d' := WithFooters(env, d); UsableIds(env, d'.parts, d'.rels, AllRefIds(d'.sections, kind)) != []
  {
    var d', id := WithFooters(env, d), NewRefId(env, d, kind);
    NewRefIdIsReferenced(env, d, kind);
    NewIdsAreFresh(env, d);
    BothFacts(env, d);
    ResolvesInParts(env, d.parts, Both(env, d).0.outputs, d'.rels, id);
    var rel :| rel in d'.rels && LeadsTo(env, d'.parts, rel, id);
    TargetOfUnique(d'.rels, rel);
    assert PartOf(env, d'.parts, d'.rels, id).Some?;
  }

  lemma UsableAddsNothing(env: Env, parts: Parts, rels0: seq<Rel>, sections: seq<Section>, f: Footers, kind: Kind)
    requires env.Valid() && AllNumbered(env, f.outputs)
    requires UsableIds(env, parts, rels0, AllRefIds(sections, kind)) != []
    ensures var f' := KindDone(env, parts, rels0, sections, f, kind).0;
      f'.rels == f.rels && f'.overrides == f.overrides && f'.outputs.Keys <= f.outputs.Keys + parts.Keys
      && AllNumbered(env, f'.outputs)
  {
    CompletedFacts(env, parts, rels0, f.outputs, AllRefIds(sections, kind), kind);
  }

  lemma UsableBothAddsNothing(env: Env, d: Docx)
    requires env.Valid() && Usable(env, d, Default) && Usable(env, d, Even)
    ensures var d' := WithFooters(env, d);
      d'.rels == d.rels && d'.overrides == d.overrides && d'.parts.Keys == d.parts.Keys
  {
    UsableAddsNothing(env, d.parts, d.rels, d.sections, Begun(d), Default);
    UsableAddsNothing(env, d.parts, d.rels, d.sections, Odd(env, d).0, Even);
  }

  lemma CompleteSectionsStay(sections: seq<Section>, odd: string, even: string)
    requires forall i :: 0 <= i < |sections| ==> HasKind(sections[i], Default) && HasKind(sections[i], Even)
    ensures AllReferenced(sections, odd, even) == sections
  {
    forall i | 0 <= i < |sections| ensures AllReferenced(sections, odd, even)[i] == sections[i] {
    }
  }

  /** Formatting the result again adds no relationship, no reference and no part. */
  lemma SecondTimeAddsNothing(env: Env, d: Docx)
    requires env.Valid() && DistinctIds(d.rels) && Settles(env, d, Default) && Settles(env, d, Even)
    ensures var d1 := WithFooters(env, d); var d2 := WithFooters(env, d1);
      d2.sections == d1.sections && d2.rels == d1.rels && d2.overrides == d1.overrides && d2.parts.Keys == d1.parts.Keys
  {
    var d1 := WithFooters(env, d);
    SettledIsUsable(env, d, Default);
    SettledIsUsable(env, d, Even);
    UsableBothAddsNothing(env, d1);
    forall i | 0 <= i < |d1.sections| ensures HasKind(d1.sections[i], Default) && HasKind(d1.sections[i], Even) {
      SectionsGetBothKinds(env, d, i);
    }
    CompleteSectionsStay(d1.sections, Odd(env, d1).1, Both(env, d1).1);
  }

  lemma ReferencedKeepsIds(s: Section, odd: string, even: string, kind: Kind)
    requires HasKind(s, kind)
    ensures RefIds(Referenced(s, odd, even), kind) == RefIds(s, kind)
  {
    var other := if kind == Default then Even else Default;
    var front := Reference(other, if kind == Default then even else odd);
    if HasKind(s, other) {
      assert Referenced(s, odd, even) == s;
    } else {
      assert Referenced(s, odd, even) == [front] + s;
      assert !IsRef(front, kind) && ([front] + s)[1..] == s;
    }
  }

  // ---------------------------------------------------------------- references that lead nowhere

  lemma FreshIndexWith(ids: set<string>, n: nat)
    ensures var more := ids + {IdName(n)}; FreshIndex(more, n + 1, more) == FreshIndex(ids, n + 1, ids)
  {
    var more := ids + {IdName(n)};
    var a, b := FreshIndex(more, n + 1, more), FreshIndex(ids, n + 1, ids);
    if b < a {
      assert IdName(b) in more;
      IdNamesDiffer(b, n);
    }
  }

  /** The first index whose id no relationship has. */
  function First(d: Docx): (n: nat)
    ensures n >= 1 && IdName(n) !in IdsOf(d.rels) && forall j: nat :: 1 <= j < n ==> IdName(j) in IdsOf(d.rels)
  {
    FreshIndex(IdsOf(d.rels), 1, IdsOf(d.rels))
  }

  /** The number in the id that the kind's relationship gets: the first free one, or the next after that. */
  function NewIndex(env: Env, d: Docx, kind: Kind): nat {
    if kind == Even && !Usable(env, d, Default) then FreshIndex(IdsOf(d.rels), First(d) + 1, IdsOf(d.rels))
    else First(d)
  }

  /** The relationship the call makes for the kind if it has no usable footer. */
  function NewRel(env: Env, d: Docx, kind: Kind): Rel {
    Rel(IdName(NewIndex(env, d, kind)), true, FileName(kind), false)
  }

  predicate MakesRel(env: Env, d: Docx, kind: Kind, id: string) {
    !Usable(env, d, kind) && id == NewRel(env, d, kind).id
  }

  predicate MakesPart(env: Env, d: Docx, kind: Kind, name: string) {
    !Usable(env, d, kind) && name == PartName(kind)
  }

  function RelFor(env: Env, d: Docx, kind: Kind): seq<Rel> {
    if Usable(env, d, kind) then [] else [NewRel(env, d, kind)]
  }

  lemma RelsAdded(env: Env, d: Docx)
    ensures WithFooters(env, d).rels == d.rels + RelFor(env, d, Default) + RelFor(env, d, Even)
  {
    FreshIndexWith(IdsOf(d.rels), First(d));
  }

  // ---------------------------------------------------------------- in plain names

  /** What is added for a kind without a usable footer, by its names in the package. */
  lemma WhatIsAdded(env: Env, d: Docx)
    ensures WithFooters(env, d).rels == d.rels
      + (if Usable(env, d, Default) then [] else
           [Rel("rIdPartyOpsFooter" + Digits(NewIndex(env, d, Default)), true, "footer-partyops-odd.xml", false)])
      + (if Usable(env, d, Even) then [] else
           [Rel("rIdPartyOpsFooter" + Digits(NewIndex(env, d, Even)), true, "footer-partyops-even.xml", false)])
    ensures WithFooters(env, d).overrides == d.overrides
      + (if Usable(env, d, Default) then {} else {"word/footer-partyops-odd.xml"})
      + (if Usable(env, d, Even) then {} else {"word/footer-partyops-even.xml"})
  {
    RelsAdded(env, d);
    FileNames();
    PartNames();
  }

  /** The content of what is added. */
  lemma WhatIsMade(env: Env, d: Docx)
    ensures !Usable(env, d, Even) ==> IsPart(env, d, "word/footer-partyops-even.xml", env.made(Even))
    ensures !Usable(env, d, Default) && !Usable(env, d, Even) ==>
      IsPart(env, d, "word/footer-partyops-odd.xml", env.made(Default))
  {
    if !Usable(env, d, Even) {
      NothingCompleted(env, d.parts, d.rels, Odd(env, d).0.outputs, AllRefIds(d.sections, Even), Even);
    }
    PartNames();
  }

  /** A part of the result, by its name and content. */
  predicate IsPart(env: Env, d: Docx, name: string, content: Bytes) {
    var parts := WithFooters(env, d).parts;
    name in parts && parts[name] == content
  }

  /** Without a usable footer no part is completed. */
  lemma {:induction false} NothingCompleted(env: Env, parts: Parts, rels: seq<Rel>, outputs: Parts,
                                            ids: seq<string>, kind: Kind)
    requires UsableIds(env, parts, rels, ids) == []
    ensures Completed(env, parts, rels, outputs, ids, kind) == outputs
  {
    if ids != [] {
      assert ids == ids[..|ids| - 1] + [ids[|ids| - 1]];
      NothingCompleted(env, parts, rels, outputs, ids[..|ids| - 1], kind);
    }
  }

  /** The references are read in document order; one without an id leads nowhere. */
  lemma {:induction false} DocumentOrder(a: seq<Section>, b: seq<Section>, kind: Kind)
    ensures AllRefIds(a + b, kind) == AllRefIds(a, kind) + AllRefIds(b, kind)
    ensures |a| == 1 ==> AllRefIds(a, kind) == RefIds(a[0], kind)
  {
    assert |a| == 1 ==> a[..0] == [] && [] + RefIds(a[0], kind) == RefIds(a[0], kind);
    if b == [] {
      assert a + b == a;
    } else {
      DocumentOrder(a, b[..|b| - 1], kind);
      assert (a + b)[..|a + b| - 1] == a + b[..|b| - 1];
    }
  }

  lemma {:induction false} SectionOrder(s: Section, t: Section, kind: Kind)
    ensures RefIds(s + t, kind) == RefIds(s, kind) + RefIds(t, kind)
  {
    if s == [] {
      assert s + t == t;
    } else {
      SectionOrder(s[1..], t, kind);
      RefIdsStep(s, kind);
      RefIdsStep(s + t, kind);
      TailOfBoth(s, t);
      Regroup(RefIds(s[..1], kind), RefIds(s[1..], kind), RefIds(t, kind));
    }
  }

  lemma RefIdsStep(s: Section, kind: Kind)
    requires s != []
    ensures RefIds(s, kind) == RefIds(s[..1], kind) + RefIds(s[1..], kind)
  {
    OneReference(s[0], kind);
    assert s[..1] == [s[0]];
  }

  lemma TailOfBoth(s: Section, t: Section)
    requires s != []
    ensures (s + t)[..1] == s[..1] && (s + t)[1..] == s[1..] + t
  {
  }

  lemma Regroup(a: seq<string>, b: seq<string>, c: seq<string>)
    ensures a + (b + c) == a + b + c
  {
  }

  lemma OneReference(e: Element, kind: Kind)
    ensures RefIds([e], kind) == if !IsRef(e, kind) then [] else [if "id" in e.attrs then e.attrs["id"] else ""]
  {
    assert [e][1..] == [];
  }

  lemma FileNames()
    ensures FileName(Default) == "footer-partyops-odd.xml" && FileName(Even) == "footer-partyops-even.xml"
  {
  }

  lemma PartNames()
    ensures PartName(Default) == "word/footer-partyops-odd.xml" && PartName(Even) == "word/footer-partyops-even.xml"
  {
  }

  /** A section's reference of the kind: one without a type stands for the default. */
  ghost predicate HasReference(s: Section, name: string) {
    exists e :: e in s && e.tag == FooterReference
      && (if "type" in e.attrs then e.attrs["type"] == name else name == "default")
  }

  lemma HasKindMeans(s: Section)
    ensures HasKind(s, Default) <==> HasReference(s, "default")
    ensures HasKind(s, Even) <==> HasReference(s, "even")
  {
  }

  lemma KindParts(env: Env, parts: Parts, rels0: seq<Rel>, sections: seq<Section>, f: Footers, kind: Kind)
    requires env.Valid() && AllNumbered(env, f.outputs)
    ensures var f' := KindDone(env, parts, rels0, sections, f, kind).0;
      var made := if UsableIds(env, parts, rels0, AllRefIds(sections, kind)) != [] then {} else {PartName(kind)};
      parts.Keys + f'.outputs.Keys == parts.Keys + f.outputs.Keys + made && AllNumbered(env, f'.outputs)
  {
    CompletedFacts(env, parts, rels0, f.outputs, AllRefIds(sections, kind), kind);
  }

  lemma PartsAdded(env: Env, d: Docx, name: string)
    requires env.Valid()
    ensures name in WithFooters(env, d).parts
       <==> name in d.parts || MakesPart(env, d, Default, name) || MakesPart(env, d, Even, name)
  {
    KindParts(env, d.parts, d.rels, d.sections, Begun(d), Default);
    KindParts(env, d.parts, d.rels, d.sections, Odd(env, d).0, Even);
    assert (d.parts + Both(env, d).0.outputs).Keys == d.parts.Keys + Both(env, d).0.outputs.Keys;
  }

  lemma TargetOfLater(rels: seq<Rel>, more: seq<Rel>, id: string)
    requires |more| <= 1
    ensures TargetOf(rels + more, id)
         == if more != [] && IsTarget(more[0], id) then more[0].target else TargetOf(rels, id)
  {
    if more == [] {
      assert rels + more == rels;
    } else {
      assert (rels + more)[..|rels|] == rels;
    }
  }

  lemma TargetAfter(env: Env, d: Docx, id: string)
    ensures var target := TargetOf(WithFooters(env, d).rels, id);
      if MakesRel(env, d, Even, id) then target == FileName(Even)
      else if MakesRel(env, d, Default, id) then target == FileName(Default)
      else target == TargetOf(d.rels, id)
  {
    RelsAdded(env, d);
    TargetOfLater(d.rels + RelFor(env, d, Default), RelFor(env, d, Even), id);
    TargetOfLater(d.rels, RelFor(env, d, Default), id);
  }

  /** The id is that of a relationship the call makes for the kind, or leads to the part it makes. */
  predicate MendsFor(env: Env, d: Docx, kind: Kind, id: string) {
    !Usable(env, d, kind)
    && (id == NewRel(env, d, kind).id || env.part(TargetOf(d.rels, id)) == Some(PartName(kind)))
  }

  predicate Mends(env: Env, d: Docx, id: string) {
    MendsFor(env, d, Default, id) || MendsFor(env, d, Even, id)
  }

  /** An id that leads nowhere leads to a part after the call exactly when the call mends it. */
  lemma MendedIff(env: Env, d: Docx, id: string)
    requires env.Valid() && PartOf(env, d.parts, d.rels, id).None?
    ensures PartOf(env, WithFooters(env, d).parts, WithFooters(env, d).rels, id).Some? <==> Mends(env, d, id)
  {
    var d' := WithFooters(env, d);
    TargetAfter(env, d, id);
    var part := env.part(TargetOf(d'.rels, id));
    if part.Some? {
      PartsAdded(env, d, part.value);
    }
  }

  lemma {:induction false} ReferencedKeepsAllIds(sections: seq<Section>, odd: string, even: string, kind: Kind)
    requires forall i :: 0 <= i < |sections| ==> HasKind(sections[i], kind)
    ensures AllRefIds(AllReferenced(sections, odd, even), kind) == AllRefIds(sections, kind)
  {
    if sections == [] {
    } else {
      var n := |sections| - 1;
      ReferencedKeepsAllIds(sections[..n], odd, even, kind);
      ReferencedKeepsIds(sections[n], odd, even, kind);
      assert AllReferenced(sections, odd, even)[..n] == AllReferenced(sections[..n], odd, even);
    }
  }

  lemma KeptAll(sections: seq<Section>, odd: string, even: string, kind: Kind)
    requires forall i :: 0 <= i < |sections| ==> HasKind(sections[i], kind)
    ensures var after := AllReferenced(sections, odd, even);
      forall i :: 0 <= i < |sections| ==> HasKind(after[i], kind) && RefIds(after[i], kind) == RefIds(sections[i], kind)
  {
    forall i | 0 <= i < |sections|
      ensures HasKind(Referenced(sections[i], odd, even), kind)
      ensures RefIds(Referenced(sections[i], odd, even), kind) == RefIds(sections[i], kind)
    {
      ReferencedHasBoth(sections[i], odd, even);
      ReferencedKeepsIds(sections[i], odd, even, kind);
    }
  }

  lemma KeptIds(env: Env, d: Docx, kind: Kind)
    requires !Settles(env, d, kind)
    ensures AllRefIds(WithFooters(env, d).sections, kind) == AllRefIds(d.sections, kind)
    ensures forall i :: 0 <= i < |d.sections| ==>
      RefIds(WithFooters(env, d).sections[i], kind) == RefIds(d.sections[i], kind)
    ensures Settles(env, WithFooters(env, d), kind) <==> Usable(env, WithFooters(env, d), kind)
  {
    ReferencedKeepsAllIds(d.sections, Odd(env, d).1, Both(env, d).1, kind);
    KeptAll(d.sections, Odd(env, d).1, Both(env, d).1, kind);
  }

  ghost predicate MendsSome(env: Env, d: Docx, kind: Kind) {
    exists id :: id in AllRefIds(d.sections, kind) && Mends(env, d, id)
  }

  /**
   Where every section's reference of a kind leads nowhere the references stay, and the kind gets a
   usable footer exactly when one of them has the id of a relationship the call makes, or already
   leads to the missing part the call makes; a relationship is added either way.
   */
  lemma SettledIff(env: Env, d: Docx, kind: Kind)
    requires env.Valid() && !Settles(env, d, kind)
    ensures AllRefIds(WithFooters(env, d).sections, kind) == AllRefIds(d.sections, kind)
    ensures forall i :: 0 <= i < |d.sections| ==>
      RefIds(WithFooters(env, d).sections[i], kind) == RefIds(d.sections[i], kind)
    ensures |WithFooters(env, d).rels| > |d.rels|
    ensures Settles(env, WithFooters(env, d), kind) <==> MendsSome(env, d, kind)
  {
    var d', ids := WithFooters(env, d), AllRefIds(d.sections, kind);
    KeptIds(env, d, kind);
    RelsAdded(env, d);
    forall id | id in ids ensures PartOf(env, d'.parts, d'.rels, id).Some? <==> Mends(env, d, id) {
      MendedIff(env, d, id);
    }
  }

  lemma UsableResolves(env: Env, parts: Parts, rels: seq<Rel>, id: string)
    requires env.part("") == None && PartOf(env, parts, rels, id).Some?
    requires env.hasField(parts[PartOf(env, parts, rels, id).value])
    ensures Resolves(env, parts, rels, id)
  {
    TargetIsThere(rels, id);
    var rel :| rel in rels && IsTarget(rel, id) && rel.target == TargetOf(rels, id);
    assert LeadsTo(env, parts, rel, id);
  }

  lemma ResolvesUsable(env: Env, parts: Parts, rels: seq<Rel>, id: string)
    requires DistinctIds(rels) && Resolves(env, parts, rels, id)
    ensures PartOf(env, parts, rels, id).Some?
  {
    var rel :| rel in rels && LeadsTo(env, parts, rel, id);
    TargetOfUnique(rels, rel);
  }

  lemma MadeIsOutput(env: Env, d: Docx, kind: Kind)
    requires env.Valid() && !Usable(env, d, kind)
    ensures PartName(kind) in Both(env, d).0.outputs
  {
    if kind == Default {
      KindFacts(env, d.parts, d.rels, d.sections, Begun(d), Default);
      KindFacts(env, d.parts, d.rels, d.sections, Odd(env, d).0, Even);
    }
  }

  lemma MadePartIsNumbered(env: Env, d: Docx, kind: Kind)
    requires env.Valid() && !Usable(env, d, kind)
    ensures PartName(kind) in WithFooters(env, d).parts && env.hasField(WithFooters(env, d).parts[PartName(kind)])
  {
    BothFacts(env, d);
    MadeIsOutput(env, d, kind);
  }

  lemma MadeIsNumbered(env: Env, d: Docx, id: string)
    requires env.Valid() && Mends(env, d, id) && PartOf(env, d.parts, d.rels, id).None?
    requires PartOf(env, WithFooters(env, d).parts, WithFooters(env, d).rels, id).Some?
    ensures var d' := WithFooters(env, d); env.hasField(d'.parts[PartOf(env, d'.parts, d'.rels, id).value])
  {
    TargetAfter(env, d, id);
    if !Usable(env, d, Default) {
      MadePartIsNumbered(env, d, Default);
    }
    if !Usable(env, d, Even) {
      MadePartIsNumbered(env, d, Even);
    }
  }

  /** With unique ids, an id that leads nowhere resolves to a numbered part exactly when the call mends it. */
  lemma MendedResolves(env: Env, d: Docx, id: string)
    requires env.Valid() && DistinctIds(d.rels) && PartOf(env, d.parts, d.rels, id).None?
    ensures Resolves(env, WithFooters(env, d).parts, WithFooters(env, d).rels, id) <==> Mends(env, d, id)
  {
    var d' := WithFooters(env, d);
    MendedIff(env, d, id);
    if Mends(env, d, id) {
      MadeIsNumbered(env, d, id);
      UsableResolves(env, d'.parts, d'.rels, id);
    } else if Resolves(env, d'.parts, d'.rels, id) {
      NewIdsAreFresh(env, d);
      ResolvesUsable(env, d'.parts, d'.rels, id);
      assert false;
    }
  }

  // ---------------------------------------------------------------- formatting over and over

  function Again(env: Env, d: Docx, n: nat): Docx
    decreases n
  {
    if n == 0 then d else Again(env, WithFooters(env, d), n - 1)
  }

  predicate LeadsToMade(env: Env, d: Docx, kind: Kind, id: string) {
    !Usable(env, d, kind) && env.part(TargetOf(d.rels, id)) == Some(PartName(kind))
  }

  /** The id is one a later relationship can get, or leads to a missing part the first call makes. */
  ghost predicate CanBeMended(env: Env, d: Docx, id: string) {
    || (id !in IdsOf(d.rels) && exists j: nat :: j >= 1 && id == IdName(j))
    || LeadsToMade(env, d, Default, id) || LeadsToMade(env, d, Even, id)
  }

  ghost predicate NoneCanBe(env: Env, d: Docx, kind: Kind) {
    forall id :: id in AllRefIds(d.sections, kind) ==> !CanBeMended(env, d, id)
  }

  lemma NewRelIsFree(env: Env, d: Docx, kind: Kind)
    ensures NewRel(env, d, kind).id !in IdsOf(d.rels)
    ensures exists j: nat :: j >= 1 && NewRel(env, d, kind).id == IdName(j)
  {
    var n := if kind == Even && !Usable(env, d, Default) then FreshIndex(IdsOf(d.rels), First(d) + 1, IdsOf(d.rels))
             else First(d);
    assert n >= 1 && NewRel(env, d, kind).id == IdName(n);
  }

  lemma UsableStays(env: Env, d: Docx, kind: Kind)
    requires env.Valid() && Usable(env, d, kind)
    ensures Usable(env, WithFooters(env, d), kind)
  {
    var d', id := WithFooters(env, d), NewRefId(env, d, kind);
    assert id in UsableIds(env, d.parts, d.rels, AllRefIds(d.sections, kind));
    NewRefIdIsReferenced(env, d, kind);
    TargetIsThere(d.rels, id);
    assert id in IdsOf(d.rels);
    NewRelIsFree(env, d, Default);
    NewRelIsFree(env, d, Even);
    TargetAfter(env, d, id);
    assert PartOf(env, d'.parts, d'.rels, id).Some?;
  }

  /** The relationships beyond the first n have ids that are not among the given ones. */
  ghost predicate UnusedFrom(rels: seq<Rel>, n: nat, ids: seq<string>) {
    forall i: nat :: n <= i < |rels| ==> rels[i].id !in ids
  }

  lemma AddsUnused(env: Env, d: Docx, kind: Kind)
    requires NoneCanBe(env, d, kind)
    ensures d.rels <= WithFooters(env, d).rels
    ensures UnusedFrom(WithFooters(env, d).rels, |d.rels|, AllRefIds(d.sections, kind))
  {
    var odd, even := RelFor(env, d, Default), RelFor(env, d, Even);
    NewIsUnused(env, d, kind);
    RelsAdded(env, d);
    RegroupRels(d.rels, odd, even);
    UnusedRels(d.rels, odd + even, AllRefIds(d.sections, kind));
  }

  lemma RegroupRels(a: seq<Rel>, b: seq<Rel>, c: seq<Rel>)
    ensures a + b + c == a + (b + c)
  {
  }

  lemma NewIsUnused(env: Env, d: Docx, kind: Kind)
    requires NoneCanBe(env, d, kind)
    ensures forall rel :: rel in RelFor(env, d, Default) + RelFor(env, d, Even) ==>
      rel.id !in AllRefIds(d.sections, kind)
  {
    NewRelIsFree(env, d, Default);
    NewRelIsFree(env, d, Even);
  }

  lemma UnusedRels(rels: seq<Rel>, more: seq<Rel>, ids: seq<string>)
    requires forall rel :: rel in more ==> rel.id !in ids
    ensures UnusedFrom(rels + more, |rels|, ids)
  {
    forall i: nat | |rels| <= i < |rels + more| ensures (rels + more)[i].id !in ids {
      assert (rels + more)[i] == more[i - |rels|];
    }
  }

  lemma NoneIsMended(env: Env, d: Docx, kind: Kind)
    requires NoneCanBe(env, d, kind)
    ensures !MendsSome(env, d, kind)
  {
    NewRelIsFree(env, d, Default);
    NewRelIsFree(env, d, Even);
  }

  /** What no call can mend is not mended, and stays so; what the call adds is not used. */
  lemma StaysBroken(env: Env, d: Docx, kind: Kind)
    requires env.Valid() && !Settles(env, d, kind) && NoneCanBe(env, d, kind)
    ensures var d' := WithFooters(env, d);
      !Settles(env, d', kind) && NoneCanBe(env, d', kind) && |d'.rels| > |d.rels| && d.rels <= d'.rels
      && UnusedFrom(d'.rels, |d.rels|, AllRefIds(d.sections, kind))
      && AllRefIds(d'.sections, kind) == AllRefIds(d.sections, kind)
  {
    var d' := WithFooters(env, d);
    NoneIsMended(env, d, kind);
    SettledIff(env, d, kind);
    AddsUnused(env, d, kind);
    forall id | id in AllRefIds(d'.sections, kind) ensures !CanBeMended(env, d', id) {
      NotMendedLater(env, d, id);
    }
  }

  lemma NotMendedLater(env: Env, d: Docx, id: string)
    requires env.Valid() && !CanBeMended(env, d, id)
    ensures !CanBeMended(env, WithFooters(env, d), id)
  {
    NewRelIsFree(env, d, Default);
    NewRelIsFree(env, d, Even);
    TargetAfter(env, d, id);
    RelsAdded(env, d);
    forall kind | Usable(env, d, kind) ensures Usable(env, WithFooters(env, d), kind) {
      UsableStays(env, d, kind);
    }
  }

  lemma UnusedBeyond(rels: seq<Rel>, more: seq<Rel>, most: seq<Rel>, ids: seq<string>)
    requires rels <= more <= most && UnusedFrom(more, |rels|, ids) && UnusedFrom(most, |more|, ids)
    ensures rels <= most && UnusedFrom(most, |rels|, ids)
  {
    forall i: nat | |rels| <= i < |most| ensures most[i].id !in ids {
      if i < |more| {
        assert most[i] == more[i];
      }
    }
  }

  /** After n calls the kind has a usable footer, or a section that will get a new one. */
  ghost predicate SettledBy(env: Env, d: Docx, kind: Kind, n: nat) {
    Settles(env, Again(env, d, n), kind)
  }

  /** n calls add n relationships or more that no reference of the kind uses, and none of them leads anywhere yet. */
  lemma {:induction false} StaysBrokenAgain(env: Env, d: Docx, kind: Kind, n: nat) returns (d': Docx)
    requires env.Valid() && !Settles(env, d, kind) && NoneCanBe(env, d, kind)
    ensures d' == Again(env, d, n)
    ensures !Settles(env, d', kind) && !SettledBy(env, d, kind, n)
    ensures |d'.rels| >= |d.rels| + n && d.rels <= d'.rels
    ensures UnusedFrom(d'.rels, |d.rels|, AllRefIds(d.sections, kind))
    ensures AllRefIds(d'.sections, kind) == AllRefIds(d.sections, kind)
    decreases n
  {
    if n == 0 {
      d' := d;
    } else {
      StaysBroken(env, d, kind);
      var d1 := WithFooters(env, d);
      d' := StaysBrokenAgain(env, d1, kind, n - 1);
      UnusedBeyond(d.rels, d1.rels, d'.rels, AllRefIds(d.sections, kind));
    }
  }

  lemma FirstIsLater(d: Docx, d': Docx)
    requires d.rels <= d'.rels && IdName(First(d)) in IdsOf(d'.rels)
    ensures First(d') > First(d)
  {
    forall j: nat | 1 <= j < First(d) ensures IdName(j) in IdsOf(d'.rels) {
      assert IdName(j) in IdsOf(d.rels);
    }
  }

  lemma FirstGrows(env: Env, d: Docx, kind: Kind)
    requires !Usable(env, d, kind)
    ensures First(WithFooters(env, d)) > First(d)
  {
    var d', made := WithFooters(env, d), NewRel(env, d, if Usable(env, d, Default) then Even else Default);
    RelsAdded(env, d);
    assert made in d'.rels && made.id == IdName(First(d));
    FirstIsLater(d, d');
  }

  lemma NotTakenLater(env: Env, d: Docx, id: string)
    requires id !in IdsOf(d.rels) && !Mends(env, d, id)
    ensures id !in IdsOf(WithFooters(env, d).rels)
  {
    RelsAdded(env, d);
  }

  /** The calls take the free ids in order, so a dangling id that is one of them is reached. */
  lemma {:induction false} MendedInTime(env: Env, d: Docx, kind: Kind, id: string, j: nat) returns (n: nat)
    requires env.Valid() && !Settles(env, d, kind) && id in AllRefIds(d.sections, kind)
    requires j >= 1 && id == IdName(j) && id !in IdsOf(d.rels)
    ensures SettledBy(env, d, kind, n)
    decreases j - First(d)
  {
    var d' := WithFooters(env, d);
    SettledIff(env, d, kind);
    if Settles(env, d', kind) {
      n := 1;
      assert Again(env, d, n) == Again(env, d', 0);
    } else {
      FirstGrows(env, d, kind);
      NotTakenLater(env, d, id);
      n := MendedInTime(env, d', kind, id, j);
      n := n + 1;
      assert Again(env, d, n) == Again(env, d', n - 1);
    }
  }

  lemma SettlesInTime(env: Env, d: Docx, kind: Kind, id: string) returns (n: nat)
    requires env.Valid() && !Settles(env, d, kind)
    requires id in AllRefIds(d.sections, kind) && CanBeMended(env, d, id)
    ensures SettledBy(env, d, kind, n)
  {
    if LeadsToMade(env, d, Default, id) || LeadsToMade(env, d, Even, id) {
      assert Mends(env, d, id);
      SettledIff(env, d, kind);
      n := 1;
      assert Again(env, d, n) == Again(env, WithFooters(env, d), 0);
    } else {
      var j: nat :| j >= 1 && id == IdName(j);
      n := MendedInTime(env, d, kind, id, j);
    }
  }

  /**
   References of a kind that lead nowhere are never mended, however often the document is formatted,
   exactly when none of them has an id the formatter can come to use, or leads to a missing part of
   the name it uses.
   */
  lemma NeverMendedIff(env: Env, d: Docx, kind: Kind)
    requires env.Valid() && !Settles(env, d, kind)
    ensures (forall n: nat :: !SettledBy(env, d, kind, n)) <==> NoneCanBe(env, d, kind)
  {
    if NoneCanBe(env, d, kind) {
      forall n: nat ensures !SettledBy(env, d, kind, n) {
        var d' := StaysBrokenAgain(env, d, kind, n);
      }
    } else {
      var id :| id in AllRefIds(d.sections, kind) && CanBeMended(env, d, id);
      var n := SettlesInTime(env, d, kind, id);
    }
  }

  /** One section whose default reference has the id the first relationship will get. */
  function Unlucky(even: string): Docx {
    Docx([[Reference(Default, IdName(1)), Reference(Even, even)]], [], {}, map[])
  }

  lemma UnluckyIsUnsettled(env: Env, even: string)
    requires env.Valid()
    ensures !Settles(env, Unlucky(even), Default)
    ensures IdName(1) in AllRefIds(Unlucky(even).sections, Default)
  {
    var d := Unlucky(even);
    var s := d.sections[0];
    assert s[0] in s && IsRef(s[0], Default);
    AllRefIdsOf(d.sections, Default, 0, s[0]);
  }

  lemma NoRelsFirst(d: Docx)
    requires d.rels == []
    ensures First(d) == 1
  {
    assert IdName(1) !in IdsOf(d.rels);
  }

  /** A dangling reference that has the very id the next relationship gets is mended by it. */
  lemma NextIdMends(env: Env, d: Docx, kind: Kind)
    requires env.Valid() && !Settles(env, d, kind) && NewRel(env, d, kind).id in AllRefIds(d.sections, kind)
    ensures Settles(env, WithFooters(env, d), kind)
  {
    assert Mends(env, d, NewRel(env, d, kind).id);
    SettledIff(env, d, kind);
  }

  lemma MendedByChance(env: Env, even: string)
    requires env.Valid()
    ensures !Settles(env, Unlucky(even), Default) && Settles(env, WithFooters(env, Unlucky(even)), Default)
  {
    UnluckyIsUnsettled(env, even);
    NoRelsFirst(Unlucky(even));
    NextIdMends(env, Unlucky(even), Default);
  }

  // ---------------------------------------------------------------- the diagnosis of page numbers

  /** `word/footer[^/]*\.xml`. */
  predicate IsFooterName(name: string) {
    var head, tail := "word/footer", ".xml";
    && |name| >= |head| + |tail| && name[..|head|] == head && name[|name| - |tail|..] == tail
    && '/' !in name[|head|..|name| - |tail|]
  }

  predicate PageFound(env: Env, d: Docx) {
    && (exists i, e :: 0 <= i < |d.sections| && e in d.sections[i] && e.tag == FooterReference)
    && exists name :: name in d.parts && IsFooterName(name) && env.hasPage(d.parts[name])
  }

  lemma NamedFooter(middle: string)
    requires '/' !in middle
    ensures IsFooterName("word/footer" + middle + ".xml")
  {
    var head, tail := "word/footer", ".xml";
    var name := head + middle + tail;
    assert name[|head|..|name| - |tail|] == middle;
    assert name[..|head|] == head && name[|name| - |tail|..] == tail;
  }

  /** `word/footer[^/]*\.xml`. */
  lemma FooterNameMeans(name: string)
    ensures IsFooterName(name) <==> exists middle :: '/' !in middle && name == "word/footer" + middle + ".xml"
  {
    var head, tail := "word/footer", ".xml";
    if IsFooterName(name) {
      var middle := name[|head|..|name| - |tail|];
      assert name == name[..|head|] + middle + name[|name| - |tail|..];
    }
    if middle :| '/' !in middle && name == head + middle + tail {
      NamedFooter(middle);
    }
  }

  lemma NewNamesAreFooterNames(kind: Kind)
    ensures IsFooterName(PartName(kind))
  {
    NamedFooter(Stem(kind));
  }

  /** What the formatter made, perhaps completed since. */
  predicate IsMade(env: Env, kind: Kind, b: Bytes) {
    b == env.made(kind) || b == env.written(env.made(kind))
  }

  lemma CompletedKeepsMade(env: Env, parts: Parts, rels: seq<Rel>, outputs: Parts, ids: seq<string>,
                           kind: Kind, name: string, maker: Kind)
    requires env.Valid() && env.WritesOnce() && name in outputs && IsMade(env, maker, outputs[name])
    ensures var r := Completed(env, parts, rels, outputs, ids, kind); name in r && IsMade(env, maker, r[name])
  {
    if ids == [] {
    } else {
      CompletedKeepsMade(env, parts, rels, outputs, ids[..|ids| - 1], kind, name, maker);
    }
  }

  lemma MadeHasPage(env: Env, d: Docx, kind: Kind)
    requires env.Valid() && env.WritesOnce() && !Usable(env, d, kind)
    ensures PartName(kind) in Both(env, d).0.outputs && env.hasPage(Both(env, d).0.outputs[PartName(kind)])
  {
    if kind == Default {
      var outputs, name := Odd(env, d).0.outputs, PartName(Default);
      assert IsMade(env, Default, outputs[name]);
      CompletedKeepsMade(env, d.parts, d.rels, outputs, AllRefIds(d.sections, Even), Even, name, Default);
    }
  }

  lemma RefsAreFound(env: Env, d: Docx)
    requires env.Valid() && d.sections != []
    ensures exists i, e :: 0 <= i < |d.sections| && e in WithFooters(env, d).sections[i] && e.tag == FooterReference
  {
    SectionsGetBothKinds(env, d, 0);
    var e :| e in WithFooters(env, d).sections[0] && IsRef(e, Default);
  }

  /** The part as completed from b, once or more often. */
  predicate Done(env: Env, b: Bytes, done: Bytes) {
    env.hasField(done) && env.written(done) == done
    && (env.hasPage(done) <==> !env.hasField(b) || env.hasPage(env.written(b)))
  }

  predicate AllDone(env: Env, parts: Parts, outputs: Parts) {
    forall name :: name in outputs ==> name in parts && Done(env, parts[name], outputs[name])
  }

  lemma NumberedIsDone(env: Env, b: Bytes, kind: Kind)
    requires env.Valid() && env.WritesOnce()
    ensures Done(env, b, Numbered(env, b, kind))
  {
  }

  lemma DoneStays(env: Env, b: Bytes, done: Bytes, kind: Kind)
    requires Done(env, b, done)
    ensures Numbered(env, done, kind) == done
  {
  }

  lemma {:induction false} CompletedIsDone(env: Env, parts: Parts, rels: seq<Rel>, outputs: Parts,
                                           ids: seq<string>, kind: Kind)
    requires env.Valid() && env.WritesOnce() && AllDone(env, parts, outputs)
    ensures AllDone(env, parts, Completed(env, parts, rels, outputs, ids, kind))
  {
    if ids == [] {
    } else {
      var n := |ids| - 1;
      var before := Completed(env, parts, rels, outputs, ids[..n], kind);
      CompletedIsDone(env, parts, rels, outputs, ids[..n], kind);
      var part := PartOf(env, parts, rels, ids[n]);
      if part.Some? {
        NumberedIsDone(env, parts[part.value], kind);
        if part.value in before {
          DoneStays(env, parts[part.value], before[part.value], kind);
        }
      }
    }
  }

  /** The part will spell the field in capitals: a completed one if it lacked the field or is so written back. */
  ghost predicate ShowsPage(env: Env, d: Docx, name: string)
    requires name in d.parts
  {
    var b := d.parts[name];
    if Reached(env, d, Default, name) || Reached(env, d, Even, name)
    then !env.hasField(b) || env.hasPage(env.written(b))
    else env.hasPage(b)
  }

  lemma ReachedIsCompleted(env: Env, d: Docx, outputs: Parts, kind: Kind, name: string)
    requires env.Valid() && AllNumbered(env, outputs)
    ensures var r := Completed(env, d.parts, d.rels, outputs, AllRefIds(d.sections, kind), kind);
      name in r <==> name in outputs || Reached(env, d, kind, name)
  {
    var ids := AllRefIds(d.sections, kind);
    CompletedFacts(env, d.parts, d.rels, outputs, ids, kind);
    if !Reached(env, d, kind, name) {
      CompletedOnly(env, d.parts, d.rels, outputs, ids, kind, name);
    }
  }

  lemma PageAfter(env: Env, d: Docx, name: string)
    requires env.Valid() && env.WritesOnce() && Usable(env, d, Default) && Usable(env, d, Even) && name in d.parts
    ensures var after := WithFooters(env, d).parts;
      && name in after && (env.hasPage(after[name]) <==> ShowsPage(env, d, name))
      && (Reached(env, d, Default, name) ==> env.hasField(after[name]))
  {
    var odd, both := Odd(env, d).0.outputs, Both(env, d).0.outputs;
    CompletedIsDone(env, d.parts, d.rels, map[], AllRefIds(d.sections, Default), Default);
    CompletedIsDone(env, d.parts, d.rels, odd, AllRefIds(d.sections, Even), Even);
    ReachedIsCompleted(env, d, map[], Default, name);
    ReachedIsCompleted(env, d, odd, Even, name);
  }

  lemma {:induction false} CompletedContent(env: Env, parts: Parts, rels: seq<Rel>, outputs: Parts,
                                            ids: seq<string>, kind: Kind, name: string)
    requires env.Valid() && env.WritesOnce() && name in parts && name in Completed(env, parts, rels, outputs, ids, kind)
    requires AllNumbered(env, outputs) && (name in outputs ==> env.written(outputs[name]) == outputs[name])
    ensures Completed(env, parts, rels, outputs, ids, kind)[name]
         == if name in outputs then outputs[name] else Numbered(env, parts[name], kind)
  {
    if ids != [] {
      var n := |ids| - 1;
      var before := Completed(env, parts, rels, outputs, ids[..n], kind);
      CompletedFacts(env, parts, rels, outputs, ids[..n], kind);
      if name in before {
        CompletedContent(env, parts, rels, outputs, ids[..n], kind, name);
      }
    }
  }

  /**
   A footer in use gets its number on the side of the kind that leads to it, the default kind first; one
   that has a number is only written back.
   */
  lemma NumberedOnItsSide(env: Env, d: Docx, name: string)
    requires env.Valid() && env.WritesOnce() && Usable(env, d, Default) && Usable(env, d, Even) && name in d.parts
    requires Reached(env, d, Default, name) || Reached(env, d, Even, name)
    ensures var b := d.parts[name];
            WithFooters(env, d).parts[name]
            == if env.hasField(b) then env.written(b)
               else if Reached(env, d, Default, name) then env.written(env.withNumber(b, Default))
               else env.written(env.withNumber(b, Even))
  {
    var odd := Odd(env, d).0.outputs;
    CompletedIsDone(env, d.parts, d.rels, map[], AllRefIds(d.sections, Default), Default);
    CompletedIsDone(env, d.parts, d.rels, odd, AllRefIds(d.sections, Even), Even);
    ReachedIsCompleted(env, d, map[], Default, name);
    ReachedIsCompleted(env, d, odd, Even, name);
    if name in odd {
      CompletedContent(env, d.parts, d.rels, map[], AllRefIds(d.sections, Default), Default, name);
    }
    CompletedContent(env, d.parts, d.rels, odd, AllRefIds(d.sections, Even), Even, name);
  }

  /**
   The formatter's own diagnosis finds the page numbers exactly when it had to make one of the two
   footers, or some part with a footer's usual name shows the field in capitals: as it stands if no
   reference leads to it, else because it had no field yet or is written back with the capitals.
   */
  lemma PageFoundIff(env: Env, d: Docx)
    requires env.Valid() && env.WritesOnce()
    ensures PageFound(env, WithFooters(env, d))
       <==> (d.sections != []
             && (!Usable(env, d, Default) || !Usable(env, d, Even)
                 || exists name :: name in d.parts && IsFooterName(name) && ShowsPage(env, d, name)))
  {
    var d' := WithFooters(env, d);
    if d.sections != [] {
      RefsAreFound(env, d);
      if Usable(env, d, Default) && Usable(env, d, Even) {
        UsableBothAddsNothing(env, d);
        forall name | name in d.parts ensures env.hasPage(d'.parts[name]) <==> ShowsPage(env, d, name) {
          PageAfter(env, d, name);
        }
      } else {
        var kind := if Usable(env, d, Default) then Even else Default;
        MadeHasPage(env, d, kind);
        NewNamesAreFooterNames(kind);
      }
    }
  }

  /** One section whose two references lead to one part. */
  function OneFooter(target: string, name: string, b: Bytes): Docx {
    var s := [Reference(Default, "rId1"), Reference(Even, "rId1")];
    Docx([s], [Rel("rId1", true, target, false)], {}, map[name := b])
  }

  lemma OneFooterIsUsable(env: Env, target: string, name: string, b: Bytes)
    requires env.part(target) == Some(name)
    ensures var d := OneFooter(target, name, b);
      Usable(env, d, Default) && Usable(env, d, Even) && Reached(env, d, Default, name)
  {
    var d := OneFooter(target, name, b);
    var s := d.sections[0];
    AllRefIdsOf(d.sections, Default, 0, s[0]);
    AllRefIdsOf(d.sections, Even, 0, s[1]);
    assert PartOf(env, d.parts, d.rels, "rId1") == Some(name) by {
      assert IsTarget(d.rels[0], "rId1");
    }
  }

  /** The only footer has an unusual name, or the field in small letters: it is kept, and reported as missing. */
  lemma KeptButNotFound(env: Env, target: string, name: string, b: Bytes)
    requires env.Valid() && env.WritesOnce() && env.part(target) == Some(name)
    requires !IsFooterName(name) || (env.hasField(b) && !env.hasPage(env.written(b)))
    ensures var d' := WithFooters(env, OneFooter(target, name, b));
      name in d'.parts && env.hasField(d'.parts[name]) && !PageFound(env, d')
  {
    var d := OneFooter(target, name, b);
    OneFooterIsUsable(env, target, name, b);
    PageFoundIff(env, d);
    PageAfter(env, d, name);
  }

  lemma MyFooterIsNotFound(env: Env, b: Bytes)
    requires env.Valid() && env.WritesOnce() && env.part("myfooter.xml") == Some("word/myfooter.xml")
    ensures !PageFound(env, WithFooters(env, OneFooter("myfooter.xml", "word/myfooter.xml", b)))
  {
    assert "word/myfooter.xml"[5] != "word/footer"[5];
    KeptButNotFound(env, "myfooter.xml", "word/myfooter.xml", b);
  }

  // ---------------------------------------------------------------- the formatter

  lemma ReferencedKeepsSetup(s: Section, odd: string, even: string)
    requires GeometryRight(s) && GridRight(s)
    ensures GeometryRight(Referenced(s, odd, even)) && GridRight(Referenced(s, odd, even))
  {
    AttrsBehindRef(s, Reference(Even, even));
    AttrsBehindRef(s, Reference(Default, odd));
    AttrsBehindRef([Reference(Even, even)] + s, Reference(Default, odd));
    var r := Referenced(s, odd, even);
    assert r == s || r == [Reference(Even, even)] + s || r == [Reference(Default, odd)] + s
        || r == [Reference(Default, odd)] + ([Reference(Even, even)] + s);
  }

  lemma AttrsBehindRef(s: Section, e: Element)
    requires e.tag == FooterReference
    ensures forall tag :: tag != FooterReference ==> AttrsOf([e] + s, tag) == AttrsOf(s, tag)
  {
    assert ([e] + s)[1..] == s;
  }

  function AllConfigured(sections: seq<Section>): (r: seq<Section>)
    ensures |r| == |sections| && forall i :: 0 <= i < |r| ==> r[i] == Configured(sections[i])
  {
    seq(|sections|, i requires 0 <= i < |sections| => Configured(sections[i]))
  }

  /** One more reference. */
  lemma FooterStep(env: Env, parts: Parts, rels: seq<Rel>, outputs: Parts, ids: seq<string>, kind: Kind, i: nat)
    requires i < |ids|
    ensures var part := PartOf(env, parts, rels, ids[i]);
      var before := Completed(env, parts, rels, outputs, ids[..i], kind);
      var usable := UsableIds(env, parts, rels, ids[..i]);
      && UsableIds(env, parts, rels, ids[..i + 1]) == (if part.Some? then usable + [ids[i]] else usable)
      && Completed(env, parts, rels, outputs, ids[..i + 1], kind)
         == (if part.Some? then before[part.value := Numbered(env, Current(parts, before, part.value), kind)]
             else before)
  {
    assert ids[..i + 1][..i] == ids[..i];
  }

  /** The parts of a package that the formatter changes in place. */
  class Formatter {
    var doc: Docx

    constructor (doc: Docx)
      ensures this.doc == doc
    {
      this.doc := doc;
    }

    /** `_configure_sections`. */
    method ConfigureSections() returns (changed: nat)
      modifies this
      ensures doc == old(doc).(sections := AllConfigured(old(doc).sections)) && changed == |old(doc).sections|
    {
      var sections := doc.sections;
      changed := 0;
      for i := 0 to |sections|
        invariant changed == i && |sections| == |old(doc).sections| && doc == old(doc)
        invariant forall j :: 0 <= j < |sections| ==>
          sections[j] == if j < i then Configured(old(doc).sections[j]) else old(doc).sections[j]
      {
        var s := Put(sections[i], PgSz, SIZE, {"orient"});
        s := Put(s, PgMar, MARGINS, {});
        s := Put(s, DocGrid, GRID, {});
        sections := sections[i := s];
        changed := changed + 1;
      }
      doc := doc.(sections := sections);
    }

    /** The inner loop: the references that lead to a part, and the parts completed. */
    method CompleteParts(env: Env, outputs0: Parts, ids: seq<string>, kind: Kind)
      returns (usable: seq<string>, outputs: Parts)
      ensures usable == UsableIds(env, doc.parts, doc.rels, ids)
      ensures outputs == Completed(env, doc.parts, doc.rels, outputs0, ids, kind)
    {
      usable, outputs := [], outputs0;
      for i := 0 to |ids|
        invariant usable == UsableIds(env, doc.parts, doc.rels, ids[..i])
        invariant outputs == Completed(env, doc.parts, doc.rels, outputs0, ids[..i], kind)
      {
        FooterStep(env, doc.parts, doc.rels, outputs0, ids, kind, i);
        var part := PartOf(env, doc.parts, doc.rels, ids[i]);
        if part.Some? {
          var b := if part.value in outputs then outputs[part.value] else doc.parts[part.value];
          if !env.hasField(b) {
            b := env.withNumber(b, kind);
          }
          outputs := outputs[part.value := env.written(b)];
          usable := usable + [ids[i]];
        }
      }
      assert ids[..|ids|] == ids;
    }

    /** The loop body for one kind, over the references found in the sections. */
    method AddKind(env: Env, f: Footers, kind: Kind) returns (after: Footers, id: string)
      ensures (after, id) == KindDone(env, doc.parts, doc.rels, doc.sections, f, kind)
    {
      var usable, outputs := CompleteParts(env, f.outputs, AllRefIds(doc.sections, kind), kind);
      if usable != [] {
        return f.(outputs := outputs), usable[0];
      }
      var n := FreshIndex(f.ids, f.next, f.ids);
      id := IdName(n);
      after := Footers(
        f.rels + [Rel(id, true, FileName(kind), false)], f.ids + {id}, n + 1,
        f.overrides + {PartName(kind)}, outputs[PartName(kind) := env.made(kind)]);
    }

    /** `_add_page_footers`. */
    method AddPageFooters(env: Env)
      modifies this
      ensures doc == WithFooters(env, old(doc))
    {
      var f1, odd := AddKind(env, Begun(doc), Default);
      var f2, even := AddKind(env, f1, Even);
      var sections := doc.sections;
      for i := 0 to |sections|
        invariant |sections| == |doc.sections| && doc == old(doc)
        invariant forall j :: 0 <= j < |sections| ==>
          sections[j] == if j < i then Referenced(doc.sections[j], odd, even) else doc.sections[j]
      {
        sections := sections[i := Referenced(sections[i], odd, even)];
      }
      assert sections == AllReferenced(doc.sections, odd, even);
      doc := Docx(sections, f2.rels, f2.overrides, doc.parts + f2.outputs);
    }

    /**
     `format_docx`, for sections and footers: every section passes the geometry and grid checks of
     the diagnosis and has footer references of both kinds.
     */
    method Format(env: Env)
      requires env.Valid()
      modifies this
      ensures doc == WithFooters(env, old(doc).(sections := AllConfigured(old(doc).sections)))
      ensures |doc.sections| == |old(doc).sections|
      ensures forall i :: 0 <= i < |doc.sections| ==>
        GeometryRight(doc.sections[i]) && GridRight(doc.sections[i])
        && HasKind(doc.sections[i], Default) && HasKind(doc.sections[i], Even)
      ensures forall i :: 0 <= i < |doc.sections| ==>
        FirstHas(doc.sections[i], PgSz, "w", "11906") && FirstHas(doc.sections[i], PgSz, "h", "16838")
        && HasTypeArea(doc.sections[i]) && IsOnGrid(doc.sections[i])
        && HasReference(doc.sections[i], "default") && HasReference(doc.sections[i], "even")
    {
      var _ := ConfigureSections();
      ghost var configured := doc;
      AddPageFooters(env);
      forall i | 0 <= i < |doc.sections|
        ensures GeometryRight(doc.sections[i]) && GridRight(doc.sections[i])
        ensures HasKind(doc.sections[i], Default) && HasKind(doc.sections[i], Even)
        ensures IsA4(doc.sections[i]) && HasTypeArea(doc.sections[i]) && IsOnGrid(doc.sections[i])
        ensures HasReference(doc.sections[i], "default") && HasReference(doc.sections[i], "even")
      {
        RightMeans(doc.sections[i]);
        HasKindMeans(doc.sections[i]);
        ConfiguredIsRight(old(doc).sections[i]);
        ReferencedKeepsSetup(configured.sections[i], Odd(env, configured).1, Both(env, configured).1);
        SectionsGetBothKinds(env, configured, i);
      }
    }
  }
}
