/** The extractor `_safe_zip_members`, over a staging directory that starts empty. */
module BackupExtract {
  import opened Wrappers
  import opened PortableNames
  import opened BackupArchive

  datatype Node = Directory | File(data: Bytes)

  /**
   The staging directory. A file system knows a path by its own key: the path itself where
   case matters, a folded path where it does not. `Place` is that key.
   */
  type Place = string -> string
  type Staging = map<string, Node>

  /** Paths the file system does not tell apart have the same collision key. */
  ghost predicate TellsApart(place: Place, names: Names) {
    forall a: string, b: string :: place(Candidate(a)) == place(Candidate(b)) ==> names.key(a) == names.key(b)
  }

  /** The directories above a path. */
  function Above(path: string): set<string> {
    set i | 0 <= i < |path| && path[i] == '/' :: path[..i]
  }

  function DirectoriesOf(place: Place, m: Member): set<string> {
    (set a | a in Above(Candidate(m.name)) :: place(a))
    + (if IsDirectory(m.name) then {place(Candidate(m.name))} else {})
  }

  function FilesOf(place: Place, m: Member): set<string> {
    if IsDirectory(m.name) then {} else {place(m.name)}
  }

  function AllDirectories(place: Place, infos: Archive): set<string> {
    if infos == [] then {}
    else AllDirectories(place, infos[..|infos| - 1]) + DirectoriesOf(place, infos[|infos| - 1])
  }

  function AllFiles(place: Place, infos: Archive): set<string> {
    if infos == [] then {}
    else AllFiles(place, infos[..|infos| - 1]) + FilesOf(place, infos[|infos| - 1])
  }

  lemma {:induction false} AllGrow(place: Place, infos: Archive, n: nat)
    requires n <= |infos|
    ensures AllDirectories(place, infos[..n]) <= AllDirectories(place, infos)
    ensures AllFiles(place, infos[..n]) <= AllFiles(place, infos)
  {
    if n < |infos| {
      var front := infos[..|infos| - 1];
      AllGrow(place, front, n);
      assert front[..n] == infos[..n];
    } else {
      assert infos[..n] == infos;
    }
  }

  lemma {:induction false} FileIsSomeMembers(place: Place, infos: Archive, key: string) returns (i: int)
    requires key in AllFiles(place, infos)
    ensures 0 <= i < |infos| && !IsDirectory(infos[i].name) && place(infos[i].name) == key
  {
    i := |infos| - 1;
    if key !in FilesOf(place, infos[i]) {
      i := FileIsSomeMembers(place, infos[..|infos| - 1], key);
    }
  }

  predicate Readable(infos: Archive) {
    forall i :: 0 <= i < |infos| && !IsDirectory(infos[i].name) ==> infos[i].data.Some?
  }

  /** No path is needed both as a file and as a directory. */
  predicate Extractable(place: Place, infos: Archive) {
    Readable(infos) && AllFiles(place, infos) !! AllDirectories(place, infos)
  }

  /**
   The staging directory holds each file member with its content, nothing but directories
   besides, and no path is both.
   */
  predicate IsExtraction(place: Place, infos: Archive, staging: Staging) {
    && AllFiles(place, infos) !! AllDirectories(place, infos)
    && staging.Keys == AllFiles(place, infos) + AllDirectories(place, infos)
    && (forall key :: key in AllDirectories(place, infos) ==> staging[key] == Directory)
    && (forall m :: m in infos && !IsDirectory(m.name) ==> HasFile(place, m, staging))
  }

  predicate HasFile(place: Place, m: Member, staging: Staging) {
    && m.data.Some? && place(m.name) in staging
    && staging[place(m.name)] == File(m.data.value)
  }

  /** `mkdir(parents=True, exist_ok=True)` or the opening of the target raises. */
  predicate Blocked(place: Place, m: Member, staging: Staging) {
    || (exists p :: p in DirectoriesOf(place, m) && p in staging && staging[p] != Directory)
    || (!IsDirectory(m.name)
        && (m.data == None || place(m.name) in DirectoriesOf(place, m)
            || (place(m.name) in staging && staging[place(m.name)] == Directory)))
  }

  function Written(place: Place, m: Member, staging: Staging): Staging
    requires !Blocked(place, m, staging)
  {
    staging + (map p | p in DirectoriesOf(place, m) :: Directory)
    + (if IsDirectory(m.name) then map[] else map[place(m.name) := File(m.data.value)])
  }

  predicate DistinctPlaces(place: Place, infos: Archive) {
    forall i, j :: 0 <= i < j < |infos| ==> place(Candidate(infos[i].name)) != place(Candidate(infos[j].name))
  }

  lemma ValidatedPlacesDiffer(env: Env, place: Place, infos: Archive)
    requires InfosOk(env, infos) && TellsApart(place, env.names)
    ensures DistinctPlaces(place, infos)
  {
    forall i, j | 0 <= i < j < |infos|
      ensures place(Candidate(infos[i].name)) != place(Candidate(infos[j].name))
    {
      KeysDiffer(env, infos, i, j);
    }
  }

  lemma NextPlaceIsFree(place: Place, infos: Archive, n: nat)
    requires n < |infos| && DistinctPlaces(place, infos) && !IsDirectory(infos[n].name)
    ensures place(infos[n].name) !in AllFiles(place, infos[..n])
  {
    if place(infos[n].name) in AllFiles(place, infos[..n]) {
      var i := FileIsSomeMembers(place, infos[..n], place(infos[n].name));
    }
  }

  lemma {:induction false} FileOfMember(place: Place, infos: Archive, m: Member)
    requires m in infos && !IsDirectory(m.name)
    ensures place(m.name) in AllFiles(place, infos)
  {
    if m != infos[|infos| - 1] {
      var front := infos[..|infos| - 1];
      assert infos == front + [infos[|infos| - 1]];
      FileOfMember(place, front, m);
    }
  }

  /** Directories are never made over a file that was extracted. */
  lemma DirectoriesMissFiles(place: Place, infos: Archive, m: Member, staging: Staging)
    requires IsExtraction(place, infos, staging) && !Blocked(place, m, staging)
    ensures AllFiles(place, infos) !! DirectoriesOf(place, m)
  {
    forall key | key in AllFiles(place, infos) ensures key !in DirectoriesOf(place, m) {
      var i := FileIsSomeMembers(place, infos, key);
      assert HasFile(place, infos[i], staging);
    }
  }

  /** Where a member is not blocked it lands on its own place and nothing else changes. */
  lemma ExtendExtraction(place: Place, infos: Archive, m: Member, staging: Staging)
    requires IsExtraction(place, infos, staging) && !Blocked(place, m, staging)
    requires !IsDirectory(m.name) ==> place(m.name) !in AllFiles(place, infos)
    ensures IsExtraction(place, infos + [m], Written(place, m, staging))
  {
    var longer, after := infos + [m], Written(place, m, staging);
    assert longer[..|infos|] == infos;
    DirectoriesMissFiles(place, infos, m, staging);
    forall other | other in longer && !IsDirectory(other.name) ensures HasFile(place, other, after) {
      if other in infos {
        StaysWritten(place, infos, m, staging, other);
      }
    }
  }

  lemma StaysWritten(place: Place, infos: Archive, m: Member, staging: Staging, other: Member)
    requires IsExtraction(place, infos, staging) && !Blocked(place, m, staging)
    requires !IsDirectory(m.name) ==> place(m.name) !in AllFiles(place, infos)
    requires AllFiles(place, infos) !! DirectoriesOf(place, m)
    requires other in infos && !IsDirectory(other.name)
    ensures HasFile(place, other, Written(place, m, staging))
  {
    FileOfMember(place, infos, other);
    assert HasFile(place, other, staging);
  }

  lemma MemberPlaces(place: Place, infos: Archive, n: nat)
    requires n < |infos|
    ensures AllFiles(place, infos[..n]) + FilesOf(place, infos[n]) <= AllFiles(place, infos)
    ensures DirectoriesOf(place, infos[n]) <= AllDirectories(place, infos)
    ensures AllDirectories(place, infos[..n]) <= AllDirectories(place, infos)
  {
    var longer := infos[..n + 1];
    assert longer[..n] == infos[..n] && longer[n] == infos[n];
    AllGrow(place, infos, n + 1);
  }

  /** What stands in a member's way is a file where it needs a directory, or the other way round. */
  lemma BlockedIsNotExtractable(place: Place, infos: Archive, n: nat, staging: Staging)
    requires n < |infos| && IsExtraction(place, infos[..n], staging) && Blocked(place, infos[n], staging)
    ensures !Extractable(place, infos)
  {
    var m := infos[n];
    MemberPlaces(place, infos, n);
    if p :| p in DirectoriesOf(place, m) && p in staging && staging[p] != Directory {
      assert p in AllFiles(place, infos[..n]);
    } else if m.data.Some? {
      var p := place(m.name);
      assert p in AllFiles(place, infos);
      if p !in DirectoriesOf(place, m) {
        DirectoryStands(place, infos[..n], staging, p);
      }
    }
  }

  lemma FileStands(place: Place, infos: Archive, staging: Staging, p: string)
    requires IsExtraction(place, infos, staging) && p in AllFiles(place, infos)
    ensures p in staging && staging[p].File?
  {
    var i := FileIsSomeMembers(place, infos, p);
    assert HasFile(place, infos[i], staging);
  }

  lemma DirectoryStands(place: Place, infos: Archive, staging: Staging, p: string)
    requires IsExtraction(place, infos, staging) && p in staging && staging[p] == Directory
    ensures p in AllDirectories(place, infos)
  {
    if p in AllFiles(place, infos) {
      FileStands(place, infos, staging, p);
    }
  }

  lemma ExtractionIsExtractable(place: Place, infos: Archive, staging: Staging)
    requires IsExtraction(place, infos, staging)
    ensures Extractable(place, infos)
  {
    forall i | 0 <= i < |infos| && !IsDirectory(infos[i].name) ensures infos[i].data.Some? {
      assert HasFile(place, infos[i], staging);
    }
  }

  /** The loop of `_safe_zip_members`: it succeeds exactly when no path is both a file and a directory. */
  method WriteMembers(place: Place, infos: Archive) returns (r: Option<Staging>)
    requires DistinctPlaces(place, infos)
    ensures r.Some? <==> Extractable(place, infos)
    ensures r.Some? ==> IsExtraction(place, infos, r.value)
  {
    var staging: Staging := map[];
    for n := 0 to |infos|
      invariant IsExtraction(place, infos[..n], staging)
    {
      if Blocked(place, infos[n], staging) {
        BlockedIsNotExtractable(place, infos, n, staging);
        return None;
      }
      if !IsDirectory(infos[n].name) {
        NextPlaceIsFree(place, infos, n);
      }
      ExtendExtraction(place, infos[..n], infos[n], staging);
      assert infos[..n + 1] == infos[..n] + [infos[n]];
      staging := Written(place, infos[n], staging);
    }
    assert infos[..|infos|] == infos;
    ExtractionIsExtractable(place, infos, staging);
    r := Some(staging);
  }

  predicate EndsInSlash(name: string) {
    |name| > 0 && name[|name| - 1] == '/'
  }

  /** The path is a member, or stands in front of a slash of a member's name. */
  predicate IsNeeded(place: Place, infos: Archive, key: string) {
    || (exists m :: m in infos && !EndsInSlash(m.name) && place(m.name) == key)
    || (exists m :: m in infos && exists i :: 0 <= i < |m.name| && m.name[i] == '/' && place(m.name[..i]) == key)
  }

  lemma DirectoriesMean(place: Place, m: Member, key: string)
    ensures key in DirectoriesOf(place, m)
       <==> exists i :: 0 <= i < |m.name| && m.name[i] == '/' && place(m.name[..i]) == key
  {
    var name := Candidate(m.name);
    if i :| 0 <= i < |m.name| && m.name[i] == '/' && place(m.name[..i]) == key {
      if i < |name| {
        assert name[i] == '/' && name[..i] == m.name[..i] && name[..i] in Above(name);
      }
    }
    if key in DirectoriesOf(place, m) {
      if a :| a in Above(name) && place(a) == key {
        var i :| 0 <= i < |name| && name[i] == '/' && name[..i] == a;
        assert m.name[i] == '/' && m.name[..i] == a;
      } else {
        assert m.name[|name|] == '/' && m.name[..|name|] == name;
      }
    }
  }

  lemma {:induction false} AllDirectoriesAre(place: Place, infos: Archive, key: string)
    ensures key in AllDirectories(place, infos)
       <==> exists m :: m in infos && key in DirectoriesOf(place, m)
    ensures key in AllFiles(place, infos) <==> exists m :: m in infos && key in FilesOf(place, m)
  {
    if infos != [] {
      var front, last := infos[..|infos| - 1], infos[|infos| - 1];
      AllDirectoriesAre(place, front, key);
      assert infos == front + [last];
    }
  }

  lemma NeededMeans(place: Place, infos: Archive)
    ensures forall key :: key in AllFiles(place, infos) + AllDirectories(place, infos) <==> IsNeeded(place, infos, key)
    ensures forall m, i :: m in infos && 0 <= i < |m.name| && m.name[i] == '/' ==>
      place(m.name[..i]) in AllDirectories(place, infos)
  {
    forall key
      ensures key in AllFiles(place, infos) + AllDirectories(place, infos) <==> IsNeeded(place, infos, key)
    {
      AllDirectoriesAre(place, infos, key);
      forall m | m in infos
        ensures key in DirectoriesOf(place, m)
           <==> exists i :: 0 <= i < |m.name| && m.name[i] == '/' && place(m.name[..i]) == key
      {
        DirectoriesMean(place, m, key);
      }
    }
    forall m, i | m in infos && 0 <= i < |m.name| && m.name[i] == '/'
      ensures place(m.name[..i]) in AllDirectories(place, infos)
    {
      DirectoriesMean(place, m, place(m.name[..i]));
      AllDirectoriesAre(place, infos, place(m.name[..i]));
    }
  }

  /**
   `_safe_zip_members`: only a validated archive without such a path is extracted, and then
   every file member is at its own place with its own content. No member is ever written over
   another.
   */
  method SafeExtract(env: Env, place: Place, infos: Archive) returns (r: Option<Staging>)
    requires TellsApart(place, env.names)
    ensures r.Some? <==> InfosOk(env, infos) && Extractable(place, infos)
    ensures r.Some? ==> IsExtraction(place, infos, r.value)
    ensures r.Some? ==>
      && (forall m :: m in infos && !EndsInSlash(m.name) ==>
            m.data.Some? && place(m.name) in r.value && r.value[place(m.name)] == File(m.data.value))
      && (forall m, i :: m in infos && 0 <= i < |m.name| && m.name[i] == '/' ==>
            place(m.name[..i]) in r.value && r.value[place(m.name[..i])] == Directory)
      && (forall key :: key in r.value ==> IsNeeded(place, infos, key))
  {
    if Extractable(place, infos) {
      NeededMeans(place, infos);
    }
    var problem := ValidatedInfos(env, infos);
    if problem.Some? {
      return None;
    }
    ValidatedPlacesDiffer(env, place, infos);
    r := WriteMembers(place, infos);
  }
}
