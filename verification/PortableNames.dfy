/** Member names of a backup archive: the portability test and the cross-platform collision key. */
module PortableNames {

  /**
   Case folding works character by character. Lower-case ASCII letters, the slash and the
   dot fold to themselves; nothing else is assumed of it.
   */
  datatype Folding = Folding(foldChar: char -> string) {
    ghost predicate Valid() {
      forall c :: ('a' <= c <= 'z' || c == '/' || c == '.') ==> foldChar(c) == [c]
    }

    function Fold(s: string): string {
      if s == [] then [] else foldChar(s[0]) + Fold(s[1..])
    }

    lemma {:induction false} FoldConcat(a: string, b: string)
      ensures Fold(a + b) == Fold(a) + Fold(b)
    {
      if a == [] {
        assert a + b == b;
      } else {
        assert (a + b)[1..] == a[1..] + b;
        FoldConcat(a[1..], b);
      }
    }

    /** Names whose characters fold alike, one by one, fold alike. */
    lemma {:induction false} FoldsAlike(a: string, b: string)
      requires |a| == |b| && forall i :: 0 <= i < |a| ==> foldChar(a[i]) == foldChar(b[i])
      ensures Fold(a) == Fold(b) && (|a| == 1 ==> Fold(a) == foldChar(a[0]))
    {
      if a != [] {
        FoldsAlike(a[1..], b[1..]);
      }
    }

    /** A name of lower-case letters, slashes and dots is its own collision key. */
    lemma {:induction false} FoldPlain(s: string)
      requires Valid()
      requires forall i :: 0 <= i < |s| ==> 'a' <= s[i] <= 'z' || s[i] == '/' || s[i] == '.'
      ensures Fold(s) == s
    {
      if s == [] {
      } else {
        FoldPlain(s[1..]);
        assert s == [s[0]] + s[1..];
      }
    }

    /** Names under one directory collide exactly when the paths below it do. */
    lemma FoldUnder(dir: string, a: string, b: string)
      ensures Fold(dir + a) == Fold(dir + b) <==> Fold(a) == Fold(b)
    {
      FoldConcat(dir, a);
      FoldConcat(dir, b);
      if Fold(dir + a) == Fold(dir + b) {
        assert Fold(a) == Fold(dir + a)[|Fold(dir)|..];
        assert Fold(b) == Fold(dir + b)[|Fold(dir)|..];
      }
    }
  }

  /** The Windows device names: con, prn, aux, nul, com1 to com9, lpt1 to lpt9. */
  predicate Reserved(name: string) {
    if |name| == 3 then name == "con" || name == "prn" || name == "aux" || name == "nul"
    else |name| == 4 && (name[..3] == "com" || name[..3] == "lpt") && '1' <= name[3] <= '9'
  }

  /** `raw.split("/")`. */
  function Segments(s: string): (r: seq<string>)
    ensures |r| > 0
  {
    if s == [] then [[]]
    else
      var rest := Segments(s[1..]);
      if s[0] == '/' then [[]] + rest else [[s[0]] + rest[0]] + rest[1..]
  }

  /** `"/".join(segments)`. */
  function Join(segments: seq<string>): string
    requires |segments| > 0
  {
    if |segments| == 1 then segments[0] else segments[0] + "/" + Join(segments[1..])
  }

  /** Splitting and joining give the name back, so the written path is the stored name. */
  lemma {:induction false} JoinSegments(s: string)
    ensures Join(Segments(s)) == s
  {
    if s == [] {
    } else {
      var rest := Segments(s[1..]);
      JoinSegments(s[1..]);
      if s[0] == '/' {
        assert ([[]] + rest)[1..] == rest;
        assert s == "" + "/" + s[1..];
      } else {
        var first := [s[0]] + rest[0];
        assert ([first] + rest[1..])[1..] == rest[1..];
        assert s == [s[0]] + s[1..];
      }
    }
  }

  // ---------------------------------------------------------------- components

  /** The part stands in the path between slashes, or between a slash and an end. */
  ghost predicate IsComponent(part: string, path: string) {
    '/' !in part && exists a, b :: StandsBetween(part, path, a, b)
  }

  predicate StandsBetween(part: string, path: string, a: string, b: string) {
    path == a + part + b && (a == "" || a[|a| - 1] == '/') && (b == "" || b[0] == '/')
  }

  lemma {:induction false} NoSlash(s: string)
    requires '/' !in s
    ensures Segments(s) == [s]
  {
    if s == [] {
    } else {
      NoSlash(s[1..]);
      assert s == [s[0]] + s[1..];
    }
  }

  lemma {:induction false} SegmentsUnder(dir: string, path: string)
    requires '/' !in dir
    ensures Segments(dir + "/" + path) == [dir] + Segments(path)
  {
    var s := dir + "/" + path;
    if dir == "" {
      assert s[1..] == path;
    } else {
      assert s[1..] == dir[1..] + "/" + path;
      SegmentsUnder(dir[1..], path);
      assert dir == [dir[0]] + dir[1..];
    }
  }

  lemma {:induction false} FirstSlash(s: string) returns (dir: string, rest: string)
    requires '/' in s
    ensures '/' !in dir && s == dir + "/" + rest
  {
    if s[0] == '/' {
      dir, rest := "", s[1..];
      assert s == "" + "/" + rest;
    } else {
      assert s == [s[0]] + s[1..];
      dir, rest := FirstSlash(s[1..]);
      dir := [s[0]] + dir;
    }
  }

  lemma StandsBelow(part: string, dir: string, rest: string, a: string, b: string)
    requires StandsBetween(part, rest, a, b)
    ensures StandsBetween(part, dir + "/" + rest, dir + "/" + a, b)
  {
  }

  lemma {:induction false} SegmentIsComponent(part: string, path: string)
    requires part in Segments(path)
    ensures IsComponent(part, path)
    decreases |path|
  {
    if '/' !in path {
      NoSlash(path);
      assert StandsBetween(part, path, "", "");
    } else {
      var dir, rest := FirstSlash(path);
      SegmentsUnder(dir, rest);
      if part == dir {
        assert StandsBetween(part, path, "", "/" + rest);
      } else {
        SegmentIsComponent(part, rest);
        var a, b :| StandsBetween(part, rest, a, b);
        StandsBelow(part, dir, rest, a, b);
      }
    }
  }

  lemma {:induction false} ComponentIsSegment(part: string, path: string, a: string, b: string)
    requires '/' !in part && StandsBetween(part, path, a, b)
    ensures part in Segments(path)
    decreases |a|
  {
    if a == "" {
      if b == "" {
        assert path == part;
        NoSlash(part);
      } else {
        assert path == part + "/" + b[1..];
        SegmentsUnder(part, b[1..]);
      }
    } else {
      var dir, rest := FirstSlash(a);
      assert path == dir + "/" + (rest + part + b);
      assert rest != "" ==> rest[|rest| - 1] == a[|a| - 1];
      SegmentsUnder(dir, rest + part + b);
      ComponentIsSegment(part, rest + part + b, rest, b);
    }
  }

  /** The segments are the components. */
  lemma SegmentsAreComponents(part: string, path: string)
    ensures part in Segments(path) <==> IsComponent(part, path)
  {
    if part in Segments(path) {
      SegmentIsComponent(part, path);
    }
    if IsComponent(part, path) {
      var a, b :| StandsBetween(part, path, a, b);
      ComponentIsSegment(part, path, a, b);
    }
  }

  // ---------------------------------------------------------------- portable names

  /** `segment.rstrip(" .")`. */
  function StripEnd(s: string): string {
    if s != [] && (s[|s| - 1] == ' ' || s[|s| - 1] == '.') then StripEnd(s[..|s| - 1]) else s
  }

  /** `segment.split(".", 1)[0]`. */
  function BeforeDot(s: string): string {
    if s == [] || s[0] == '.' then [] else [s[0]] + BeforeDot(s[1..])
  }

  predicate ValidSegment(segment: string, folding: Folding) {
    && segment != "" && segment != "." && segment != ".."
    && segment[|segment| - 1] != ' ' && segment[|segment| - 1] != '.'
    && ':' !in segment
    && (forall i :: 0 <= i < |segment| ==> segment[i] as int >= 32)
    && !Reserved(folding.Fold(BeforeDot(StripEnd(segment))))
  }

  predicate IsDirectory(raw: string) {
    raw != "" && raw[|raw| - 1] == '/'
  }

  /** The member name without the slash that marks a directory. */
  function Candidate(raw: string): string {
    if IsDirectory(raw) then raw[..|raw| - 1] else raw
  }

  predicate Portable(raw: string, folding: Folding) {
    && Candidate(raw) != "" && '\\' !in raw && raw[0] != '/'
    && forall segment :: segment in Segments(Candidate(raw)) ==> ValidSegment(segment, folding)
  }

  /** con, prn, aux, nul, com1 to com9, lpt1 to lpt9. */
  predicate IsDevice(name: string) {
    || name in {"con", "prn", "aux", "nul"}
    || exists n :: n in "123456789" && (name == "com" + [n] || name == "lpt" + [n])
  }

  lemma ReservedAreDevices(name: string)
    ensures Reserved(name) <==> IsDevice(name)
  {
    var numbers := "123456789";
    forall n: char ensures n in numbers <==> '1' <= n <= '9' {
      if '1' <= n <= '9' {
        assert numbers[n as int - '1' as int] == n;
      }
    }
    if |name| == 4 {
      assert name == name[..3] + [name[3]];
    }
  }

  /** What stands in front of the first dot, or everything. */
  predicate IsStem(stem: string, part: string) {
    '.' !in stem && stem <= part && (stem == part || part[|stem|] == '.')
  }

  lemma {:induction false} StemIsBeforeDot(stem: string, part: string)
    ensures IsStem(stem, part) <==> stem == BeforeDot(part)
  {
    if part != [] && part[0] != '.' {
      assert part == [part[0]] + part[1..];
      if stem != [] {
        StemIsBeforeDot(stem[1..], part[1..]);
        assert stem == [stem[0]] + stem[1..];
        assert stem <= part <==> stem[0] == part[0] && stem[1..] <= part[1..];
        assert stem <= part && |stem| < |part| ==> part[|stem|] == part[1..][|stem[1..]|];
      }
    }
  }

  /** A component a name may have on every platform. */
  ghost predicate IsPortablePart(part: string, folding: Folding) {
    && part !in {"", ".", ".."} && part[|part| - 1] !in {' ', '.'} && ':' !in part
    && (forall i :: 0 <= i < |part| ==> part[i] as int >= 32)
    && (forall stem :: IsStem(stem, part) ==> !IsDevice(folding.Fold(stem)))
  }

  lemma ValidSegmentMeans(part: string, folding: Folding)
    ensures ValidSegment(part, folding) <==> IsPortablePart(part, folding)
  {
    StemIsBeforeDot(BeforeDot(part), part);
    ReservedAreDevices(folding.Fold(BeforeDot(part)));
    forall stem | IsStem(stem, part) ensures stem == BeforeDot(part) {
      StemIsBeforeDot(stem, part);
    }
  }

  /**
   What the test accepts, component by component: a name without a backslash and without a slash in
   front, all of whose components may stand in a file name on every platform.
   */
  lemma PortableMeans(raw: string, folding: Folding)
    ensures var name := if raw != "" && raw[|raw| - 1] == '/' then raw[..|raw| - 1] else raw;
            Portable(raw, folding)
            <==> (name != "" && '\\' !in raw && raw[0] != '/'
                  && forall part :: IsComponent(part, name) ==> IsPortablePart(part, folding))
  {
    var name := Candidate(raw);
    forall part
      ensures part in Segments(name) <==> IsComponent(part, name)
      ensures ValidSegment(part, folding) <==> IsPortablePart(part, folding)
    {
      SegmentsAreComponents(part, name);
      ValidSegmentMeans(part, folding);
    }
  }

  function CollisionKey(raw: string, folding: Folding): string {
    folding.Fold(Candidate(raw))
  }

  /** What the file system makes of a relative path below a root. */
  function Resolve(at: seq<string>, segments: seq<string>): seq<string>
    decreases |segments|
  {
    if segments == [] then at
    else if segments[0] == "" || segments[0] == "." then Resolve(at, segments[1..])
    else if segments[0] == ".." then Resolve(if at == [] then [] else at[..|at| - 1], segments[1..])
    else Resolve(at + [segments[0]], segments[1..])
  }

  /** Names that differ only in characters that fold alike are taken for one. */
  lemma CaseIsIgnored(a: string, b: string, folding: Folding)
    requires |a| == |b| && forall i :: 0 <= i < |a| ==> folding.foldChar(a[i]) == folding.foldChar(b[i])
    requires IsDirectory(a) <==> IsDirectory(b)
    ensures CollisionKey(a, folding) == CollisionKey(b, folding)
  {
    folding.FoldsAlike(Candidate(a), Candidate(b));
  }

  /** A file system follows ".." out of the root, which is what the test is for. */
  lemma DotsLeaveTheRoot(root: seq<string>, name: string)
    requires root != [] && name !in {"", ".", ".."}
    ensures Resolve(root, ["..", name]) == root[..|root| - 1] + [name]
  {
    assert ["..", name][1..] == [name] && [name][1..] == [];
    assert Resolve(root[..|root| - 1], [name]) == Resolve(root[..|root| - 1] + [name], []);
  }

  /** A portable name resolves strictly below the root, segment for segment. */
  lemma PortableStaysBelow(root: seq<string>, raw: string, folding: Folding)
    requires Portable(raw, folding)
    ensures Resolve(root, Segments(Candidate(raw))) == root + Segments(Candidate(raw))
    ensures root < Resolve(root, Segments(Candidate(raw)))
  {
    ResolveValid(root, Segments(Candidate(raw)), folding);
  }

  lemma {:induction false} ResolveValid(at: seq<string>, segments: seq<string>, folding: Folding)
    requires forall segment :: segment in segments ==> ValidSegment(segment, folding)
    ensures Resolve(at, segments) == at + segments
    decreases |segments|
  {
    if segments == [] {
    } else {
      assert ValidSegment(segments[0], folding);
      ResolveValid(at + [segments[0]], segments[1..], folding);
      assert at + segments == at + [segments[0]] + segments[1..];
    }
  }

  // ---------------------------------------------------------------- names under a directory

  /** A path is portable below a directory exactly when it is portable itself. */
  lemma PortableUnder(dir: string, path: string, folding: Folding)
    requires '/' !in dir && '\\' !in dir && ValidSegment(dir, folding)
    requires path != "" && path[0] != '/'
    ensures Portable(dir + "/" + path, folding) <==> Portable(path, folding)
  {
    var raw := dir + "/" + path;
    assert IsDirectory(raw) <==> IsDirectory(path);
    assert Candidate(raw) == dir + "/" + Candidate(path);
    SegmentsUnder(dir, Candidate(path));
    assert forall c :: c in raw <==> c in dir || c == '/' || c in path;
    if Portable(raw, folding) {
      forall segment | segment in Segments(Candidate(path)) ensures ValidSegment(segment, folding) {
        assert segment in Segments(Candidate(raw));
      }
    }
  }
}
