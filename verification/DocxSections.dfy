/**
 The page setup and the page-number footers that the document formatter writes, and what its
 diagnosis looks for. A section is the list of its child elements; footer parts are opaque bytes.
 */
module DocxSections {
  import opened Wrappers

  type Attrs = map<string, string>

  datatype Tag = PgSz | PgMar | DocGrid | FooterReference | OtherTag(name: string)

  datatype Element = Element(tag: Tag, attrs: Attrs)

  type Section = seq<Element>

  // ---------------------------------------------------------------- page geometry and grid

  const SIZE: Attrs := map["w" := "11906", "h" := "16838"]
  const MARGINS: Attrs := map[
    "top" := "2098", "bottom" := "1984", "left" := "1587", "right" := "1474",
    "header" := "851", "footer" := "1417", "gutter" := "0"]
  const CHECKED_MARGINS: Attrs := map[
    "top" := "2098", "bottom" := "1984", "left" := "1587", "right" := "1474", "footer" := "1417"]
  const GRID: Attrs := map["type" := "linesAndChars", "linePitch" := "560", "charSpace" := "-848"]

  /** `find`: the attributes of the first child with the tag. */
  function AttrsOf(s: Section, tag: Tag): Option<Attrs> {
    if s == [] then None else if s[0].tag == tag then Some(s[0].attrs) else AttrsOf(s[1..], tag)
  }

  /** `_get_or_add` and the settings that follow it: the first child with the tag, or a new last one. */
  function Put(s: Section, tag: Tag, values: Attrs, dropped: set<string>): Section {
    if s == [] then [Element(tag, values - dropped)]
    else if s[0].tag == tag then [Element(tag, s[0].attrs + values - dropped)] + s[1..]
    else [s[0]] + Put(s[1..], tag, values, dropped)
  }

  function Configured(s: Section): Section {
    Put(Put(Put(s, PgSz, SIZE, {"orient"}), PgMar, MARGINS, {}), DocGrid, GRID, {})
  }

  predicate Has(attrs: Option<Attrs>, values: Attrs) {
    attrs.Some? && forall name :: name in values ==> name in attrs.value && attrs.value[name] == values[name]
  }

  lemma {:induction false} PutAttrs(s: Section, tag: Tag, values: Attrs, dropped: set<string>, other: Tag)
    requires forall name :: name in values ==> name !in dropped
    ensures Has(AttrsOf(Put(s, tag, values, dropped), tag), values)
    ensures other != tag ==> AttrsOf(Put(s, tag, values, dropped), other) == AttrsOf(s, other)
  {
    if s != [] && s[0].tag != tag {
      PutAttrs(s[1..], tag, values, dropped, other);
      assert Put(s, tag, values, dropped)[1..] == Put(s[1..], tag, values, dropped);
    } else if s != [] {
      assert Put(s, tag, values, dropped)[1..] == s[1..];
    }
  }

  /** Everything but the three elements stays as it is, in its order. */
  function Rest(s: Section): Section {
    if s == [] then []
    else if s[0].tag == PgSz || s[0].tag == PgMar || s[0].tag == DocGrid then Rest(s[1..])
    else [s[0]] + Rest(s[1..])
  }

  lemma {:induction false} PutKeepsRest(s: Section, tag: Tag, values: Attrs, dropped: set<string>)
    requires tag == PgSz || tag == PgMar || tag == DocGrid
    ensures Rest(Put(s, tag, values, dropped)) == Rest(s)
  {
    var p := Put(s, tag, values, dropped);
    if s == [] {
      assert p[1..] == [];
    } else if s[0].tag == tag {
      assert p[1..] == s[1..];
    } else {
      PutKeepsRest(s[1..], tag, values, dropped);
      assert p[1..] == Put(s[1..], tag, values, dropped);
    }
  }

  predicate GeometryRight(s: Section) {
    Has(AttrsOf(s, PgSz), SIZE) && Has(AttrsOf(s, PgMar), CHECKED_MARGINS)
  }

  predicate GridRight(s: Section) {
    Has(AttrsOf(s, DocGrid), GRID)
  }

  /** A configured section is what the diagnosis asks for, and otherwise the section it was. */
  lemma ConfiguredIsRight(s: Section)
    ensures GeometryRight(Configured(s)) && GridRight(Configured(s)) && Rest(Configured(s)) == Rest(s)
  {
    var s1 := Put(s, PgSz, SIZE, {"orient"});
    var s2 := Put(s1, PgMar, MARGINS, {});
    PutAttrs(s, PgSz, SIZE, {"orient"}, PgMar);
    PutAttrs(s1, PgMar, MARGINS, {}, PgSz);
    PutAttrs(s2, DocGrid, GRID, {}, PgSz);
    PutAttrs(s2, DocGrid, GRID, {}, PgMar);
    PutKeepsRest(s, PgSz, SIZE, {"orient"});
    PutKeepsRest(s1, PgMar, MARGINS, {});
    PutKeepsRest(s2, DocGrid, GRID, {});
    assert forall name :: name in CHECKED_MARGINS ==> name in MARGINS && MARGINS[name] == CHECKED_MARGINS[name];
  }

  // ---------------------------------------------------------------- in plain values

  /** The first child with the tag is there and has the attribute with that value. */
  ghost predicate FirstHas(s: Section, tag: Tag, name: string, value: string) {
    exists i :: IsFirst(s, tag, i) && name in s[i].attrs && s[i].attrs[name] == value
  }

  predicate IsFirst(s: Section, tag: Tag, i: int) {
    0 <= i < |s| && s[i].tag == tag && forall j :: 0 <= j < i ==> s[j].tag != tag
  }

  lemma {:induction false} AttrsAreTheFirsts(s: Section, tag: Tag)
    ensures AttrsOf(s, tag).None? ==> forall i :: 0 <= i < |s| ==> s[i].tag != tag
    ensures AttrsOf(s, tag).Some? ==> exists i :: IsFirst(s, tag, i) && AttrsOf(s, tag) == Some(s[i].attrs)
  {
    if s != [] && s[0].tag != tag {
      AttrsAreTheFirsts(s[1..], tag);
      assert forall j :: 0 <= j < |s| - 1 ==> s[1..][j] == s[j + 1];
      if AttrsOf(s, tag).Some? {
        var i :| IsFirst(s[1..], tag, i) && AttrsOf(s, tag) == Some(s[1..][i].attrs);
        assert IsFirst(s, tag, i + 1);
      }
    } else if s != [] {
      assert IsFirst(s, tag, 0);
    }
  }

  lemma FirstHasMeans(s: Section, tag: Tag, name: string, value: string)
    ensures FirstHas(s, tag, name, value) <==> Has(AttrsOf(s, tag), map[name := value])
  {
    AttrsAreTheFirsts(s, tag);
    assert forall i, k :: IsFirst(s, tag, i) && IsFirst(s, tag, k) ==> i == k;
  }

  /** A4, in twentieths of a point. */
  ghost predicate IsA4(s: Section) {
    FirstHas(s, PgSz, "w", "11906") && FirstHas(s, PgSz, "h", "16838")
  }

  ghost predicate HasTypeArea(s: Section) {
    && FirstHas(s, PgMar, "top", "2098") && FirstHas(s, PgMar, "bottom", "1984")
    && FirstHas(s, PgMar, "left", "1587") && FirstHas(s, PgMar, "right", "1474") && FirstHas(s, PgMar, "footer", "1417")
  }

  /** The grid of lines and characters. */
  ghost predicate IsOnGrid(s: Section) {
    && FirstHas(s, DocGrid, "type", "linesAndChars") && FirstHas(s, DocGrid, "linePitch", "560")
    && FirstHas(s, DocGrid, "charSpace", "-848")
  }

  lemma SizeMeans(s: Section)
    ensures Has(AttrsOf(s, PgSz), SIZE) <==> IsA4(s)
  {
    FirstHasMeans(s, PgSz, "w", "11906");
    FirstHasMeans(s, PgSz, "h", "16838");
  }

  lemma MarginsMean(s: Section)
    ensures Has(AttrsOf(s, PgMar), CHECKED_MARGINS) <==> HasTypeArea(s)
  {
    FirstHasMeans(s, PgMar, "top", "2098");
    FirstHasMeans(s, PgMar, "bottom", "1984");
    FirstHasMeans(s, PgMar, "left", "1587");
    FirstHasMeans(s, PgMar, "right", "1474");
    FirstHasMeans(s, PgMar, "footer", "1417");
  }

  lemma GridMeans(s: Section)
    ensures GridRight(s) <==> IsOnGrid(s)
  {
    FirstHasMeans(s, DocGrid, "type", "linesAndChars");
    FirstHasMeans(s, DocGrid, "linePitch", "560");
    FirstHasMeans(s, DocGrid, "charSpace", "-848");
  }

  /** What the diagnosis looks for in a section. */
  lemma RightMeans(s: Section)
    ensures GeometryRight(s) <==> IsA4(s) && HasTypeArea(s)
    ensures GridRight(s) <==> IsOnGrid(s)
  {
    SizeMeans(s);
    MarginsMean(s);
    GridMeans(s);
  }

  lemma ConfiguredMargin(s: Section, name: string, value: string)
    requires name in MARGINS && MARGINS[name] == value
    ensures FirstHas(Configured(s), PgMar, name, value)
  {
    var s1 := Put(s, PgSz, SIZE, {"orient"});
    PutAttrs(s1, PgMar, MARGINS, {}, PgMar);
    PutAttrs(Put(s1, PgMar, MARGINS, {}), DocGrid, GRID, {}, PgMar);
    FirstHasMeans(Configured(s), PgMar, name, value);
  }

  /** A configured section has the values the diagnosis looks for, and a header distance and no gutter. */
  lemma ConfiguredValues(s: Section)
    ensures IsA4(Configured(s)) && HasTypeArea(Configured(s)) && IsOnGrid(Configured(s))
    ensures FirstHas(Configured(s), PgMar, "header", "851") && FirstHas(Configured(s), PgMar, "gutter", "0")
  {
    ConfiguredIsRight(s);
    RightMeans(Configured(s));
    ConfiguredMargin(s, "header", "851");
    ConfiguredMargin(s, "gutter", "0");
  }

  /** Its orientation is gone. */
  lemma NoOrientation(s: Section, orient: string)
    ensures !FirstHas(Configured(s), PgSz, "orient", orient)
  {
    var s1 := Put(s, PgSz, SIZE, {"orient"});
    PutValues(s, PgSz, SIZE, {"orient"});
    PutAttrs(s1, PgMar, MARGINS, {}, PgSz);
    PutAttrs(Put(s1, PgMar, MARGINS, {}), DocGrid, GRID, {}, PgSz);
    FirstHasMeans(Configured(s), PgSz, "orient", orient);
  }

  /** Every other attribute is as it was. */
  lemma OtherAttributesStay(s: Section, tag: Tag, name: string, value: string)
    requires FirstHas(s, tag, name, value) && name !in SIZE && name !in MARGINS && name !in GRID && name != "orient"
    ensures FirstHas(Configured(s), tag, name, value)
  {
    var s1 := Put(s, PgSz, SIZE, {"orient"});
    PutKeeps(s, PgSz, SIZE, {"orient"}, tag, name, value);
    PutKeeps(s1, PgMar, MARGINS, {}, tag, name, value);
    PutKeeps(Put(s1, PgMar, MARGINS, {}), DocGrid, GRID, {}, tag, name, value);
  }

  lemma {:induction false} PutValues(s: Section, tag: Tag, values: Attrs, dropped: set<string>)
    ensures var before := AttrsOf(s, tag);
            AttrsOf(Put(s, tag, values, dropped), tag)
            == Some((if before.Some? then before.value else map[]) + values - dropped)
  {
    if s != [] && s[0].tag != tag {
      PutValues(s[1..], tag, values, dropped);
      assert Put(s, tag, values, dropped)[1..] == Put(s[1..], tag, values, dropped);
    } else if s == [] {
      assert map[] + values - dropped == values - dropped;
    }
  }

  /** Setting values keeps every other attribute of the first child of any tag. */
  lemma PutKeeps(s: Section, tag: Tag, values: Attrs, dropped: set<string>, other: Tag, name: string, value: string)
    requires FirstHas(s, other, name, value) && name !in values && name !in dropped
    requires forall n :: n in values ==> n !in dropped
    ensures FirstHas(Put(s, tag, values, dropped), other, name, value)
  {
    FirstHasMeans(s, other, name, value);
    PutAttrs(s, tag, values, dropped, other);
    PutValues(s, tag, values, dropped);
    FirstHasMeans(Put(s, tag, values, dropped), other, name, value);
  }

  datatype PageIssue = SectionMissing | GeometryInvalid | GridInvalid

  predicate FirstWrong(sections: seq<Section>, i: nat) {
    && i < |sections| && !(GeometryRight(sections[i]) && GridRight(sections[i]))
    && forall j :: 0 <= j < i ==> GeometryRight(sections[j]) && GridRight(sections[j])
  }

  /** The section checks of `diagnose_docx`, which stop at the first section that fails. */
  method DiagnoseSections(sections: seq<Section>) returns (issue: Option<PageIssue>)
    ensures issue.None? <==> sections != [] && forall i: nat :: !FirstWrong(sections, i)
    ensures issue.None? ==> forall i :: 0 <= i < |sections| ==> GeometryRight(sections[i]) && GridRight(sections[i])
    ensures issue.None?
       <==> sections != [] && forall s :: s in sections ==> IsA4(s) && HasTypeArea(s) && IsOnGrid(s)
    ensures issue == Some(SectionMissing) <==> sections == []
    ensures issue == Some(GeometryInvalid) ==> exists i: nat :: FirstWrong(sections, i) && !GeometryRight(sections[i])
    ensures issue == Some(GridInvalid) ==> exists i: nat :: FirstWrong(sections, i) && GeometryRight(sections[i])
  {
    forall s | s in sections
      ensures GeometryRight(s) && GridRight(s) <==> IsA4(s) && HasTypeArea(s) && IsOnGrid(s)
    {
      RightMeans(s);
    }
    if sections == [] {
      return Some(SectionMissing);
    }
    for i := 0 to |sections|
      invariant forall j :: 0 <= j < i ==> GeometryRight(sections[j]) && GridRight(sections[j])
    {
      assert !GeometryRight(sections[i]) || !GridRight(sections[i]) ==> FirstWrong(sections, i);
      if !GeometryRight(sections[i]) {
        return Some(GeometryInvalid);
      }
      if !GridRight(sections[i]) {
        return Some(GridInvalid);
      }
    }
    return None;
  }
}
