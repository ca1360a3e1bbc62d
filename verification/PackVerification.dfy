/**
 `verify_installed_pack` and its cache: the cache remembers paths, sizes and modification times
 of the last full hashing and skips the hashing while they are the same.
 */
module PackVerification {
  import opened Wrappers

  type Path = string
  type PackId = string

  /** What reading a file gives; a file may be there and still not be readable. */
  datatype Content = Readable(data: Bytes) | Unreadable

  datatype File = File(size: nat, mtime: int, content: Content)

  type Disk = map<Path, File>

  /** One manifest line; the size is absent when it is not a number. */
  datatype Line = Line(name: string, size: Option<int>, sha256: string)

  /** `files` is absent when the manifest has no proper table; `root` is absent when its path is refused. */
  datatype Pack = Pack(id: PackId, root: Option<Path>, files: Option<seq<Line>>)

  datatype Stamp = Stamp(relative: string, size: nat, mtime: int)

  type CacheKey = multiset<Stamp>

  /** The helpers that are not modelled: the member check, the joining of paths and the hash. */
  datatype Env = Env(safe: string -> Option<string>, join: (Path, string) -> Path, hash: Bytes -> string)

  // ---------------------------------------------------------------- the verdict without a cache

  predicate LineHolds(env: Env, disk: Disk, root: Path, line: Line) {
    var relative := env.safe(line.name);
    && relative.Some? && env.join(root, relative.value) in disk
    && var file := disk[env.join(root, relative.value)];
       line.size == Some(file.size) && file.content.Readable? && env.hash(file.content.data) == line.sha256
  }

  /** Hashing every file afresh. */
  predicate Intact(env: Env, disk: Disk, dirs: set<Path>, pack: Pack) {
    && pack.root.Some? && pack.files.Some? && pack.root.value in dirs
    && forall i :: 0 <= i < |pack.files.value| ==> LineHolds(env, disk, pack.root.value, pack.files.value[i])
  }

  /** The first loop: the file is there and has the listed size. */
  predicate LineMatches(env: Env, disk: Disk, root: Path, line: Line) {
    var relative := env.safe(line.name);
    && relative.Some? && env.join(root, relative.value) in disk
    && line.size == Some(disk[env.join(root, relative.value)].size)
  }

  function StampOf(env: Env, disk: Disk, root: Path, line: Line): Stamp
    requires LineMatches(env, disk, root, line)
  {
    var relative := env.safe(line.name).value;
    var file := disk[env.join(root, relative)];
    Stamp(relative, file.size, file.mtime)
  }

  predicate AllMatch(env: Env, disk: Disk, dirs: set<Path>, pack: Pack) {
    && pack.root.Some? && pack.files.Some? && pack.root.value in dirs
    && forall i :: 0 <= i < |pack.files.value| ==> LineMatches(env, disk, pack.root.value, pack.files.value[i])
  }

  function Stamps(env: Env, disk: Disk, dirs: set<Path>, pack: Pack): seq<Stamp>
    requires AllMatch(env, disk, dirs, pack)
  {
    var lines := pack.files.value;
    seq(|lines|, i requires 0 <= i < |lines| => StampOf(env, disk, pack.root.value, lines[i]))
  }

  /** The verdict with a cache entry, and the entry it leaves. */
  function Cached(env: Env, disk: Disk, dirs: set<Path>, pack: Pack, entry: Option<CacheKey>)
    : (bool, Option<CacheKey>)
  {
    if !AllMatch(env, disk, dirs, pack) then (false, None)
    else
      var key := multiset(Stamps(env, disk, dirs, pack));
      if entry == Some(key) then (true, entry)
      else if Intact(env, disk, dirs, pack) then (true, Some(key))
      else (false, None)
  }

  // ---------------------------------------------------------------- what the cache attests

  /** The assumption on the host: a path that shows a size and time it has shown before has the same content. */
  type History = (Path, nat, int) -> Content

  predicate Truthful(disk: Disk, history: History) {
    forall path :: path in disk ==> disk[path].content == history(path, disk[path].size, disk[path].mtime)
  }

  /** The stamps of one state of the disk, for each line. */
  predicate StampsFor(env: Env, lines: seq<Line>, stamps: seq<Stamp>) {
    && |stamps| == |lines|
    && (forall i :: 0 <= i < |lines| ==> env.safe(lines[i].name) == Some(stamps[i].relative))
    && (forall i, j :: 0 <= i < |lines| && 0 <= j < |lines| && stamps[i].relative == stamps[j].relative ==>
      stamps[i] == stamps[j])
  }

  predicate StampHolds(env: Env, history: History, root: Path, line: Line, stamp: Stamp) {
    var content := history(env.join(root, stamp.relative), stamp.size, stamp.mtime);
    line.size == Some(stamp.size) && content.Readable? && env.hash(content.data) == line.sha256
  }

  /** The key is the fingerprint of a state in which every file had the listed size and hash. */
  ghost predicate Attested(env: Env, history: History, pack: Pack, key: CacheKey) {
    && pack.root.Some? && pack.files.Some?
    && exists stamps: seq<Stamp> :: IsProof(env, history, pack.root.value, pack.files.value, stamps, key)
  }

  predicate IsProof(env: Env, history: History, root: Path, lines: seq<Line>, stamps: seq<Stamp>, key: CacheKey) {
    && StampsFor(env, lines, stamps) && key == multiset(stamps)
    && forall i :: 0 <= i < |lines| ==> StampHolds(env, history, root, lines[i], stamps[i])
  }

  /** Equal fingerprints of one manifest are equal line by line, whatever order they were sorted into. */
  lemma SameFingerprint(env: Env, lines: seq<Line>, a: seq<Stamp>, b: seq<Stamp>, i: nat)
    requires StampsFor(env, lines, a) && StampsFor(env, lines, b) && multiset(a) == multiset(b) && i < |lines|
    ensures a[i] == b[i]
  {
    assert a[i] in multiset(a);
    assert a[i] in multiset(b);
    var j :| 0 <= j < |b| && b[j] == a[i];
    assert b[j].relative == a[i].relative == b[i].relative;
  }

  /** A hit in the cache means that hashing afresh would succeed. */
  lemma HitIsIntact(env: Env, history: History, disk: Disk, dirs: set<Path>, pack: Pack)
    requires AllMatch(env, disk, dirs, pack) && Truthful(disk, history)
    requires Attested(env, history, pack, multiset(Stamps(env, disk, dirs, pack)))
    ensures Intact(env, disk, dirs, pack)
  {
    var root, lines, stamps := pack.root.value, pack.files.value, Stamps(env, disk, dirs, pack);
    var proof :| IsProof(env, history, root, lines, proof, multiset(stamps));
    forall i | 0 <= i < |lines| ensures LineHolds(env, disk, root, lines[i]) {
      SameFingerprint(env, lines, proof, stamps, i);
      assert StampHolds(env, history, root, lines[i], stamps[i]);
    }
  }

  lemma IntactIsAttested(env: Env, history: History, disk: Disk, dirs: set<Path>, pack: Pack)
    requires Intact(env, disk, dirs, pack) && AllMatch(env, disk, dirs, pack) && Truthful(disk, history)
    ensures Attested(env, history, pack, multiset(Stamps(env, disk, dirs, pack)))
  {
    var root, lines, stamps := pack.root.value, pack.files.value, Stamps(env, disk, dirs, pack);
    forall i | 0 <= i < |lines| ensures StampHolds(env, history, root, lines[i], stamps[i]) {
      assert LineHolds(env, disk, root, lines[i]);
    }
    assert IsProof(env, history, root, lines, stamps, multiset(stamps));
  }

  /**
   With an attested entry, or none, the verdict is that of hashing every file afresh, and the
   entry left is attested again.
   */
  lemma CachedIsIntact(env: Env, history: History, disk: Disk, dirs: set<Path>, pack: Pack, entry: Option<CacheKey>)
    requires Truthful(disk, history) && (entry.Some? ==> Attested(env, history, pack, entry.value))
    ensures var (verdict, left) := Cached(env, disk, dirs, pack, entry);
      && (verdict <==> Intact(env, disk, dirs, pack)) && (verdict <==> left.Some?)
      && (left.Some? ==> Attested(env, history, pack, left.value))
  {
    if AllMatch(env, disk, dirs, pack) {
      if entry == Some(multiset(Stamps(env, disk, dirs, pack))) {
        HitIsIntact(env, history, disk, dirs, pack);
      } else if Intact(env, disk, dirs, pack) {
        IntactIsAttested(env, history, disk, dirs, pack);
      }
    }
  }

  /** The listed member is a file below the root with exactly the listed size and hash. */
  predicate IsThere(env: Env, disk: Disk, root: Path, line: Line) {
    && env.safe(line.name).Some?
    && var path := env.join(root, env.safe(line.name).value);
       path in disk && line.size == Some(disk[path].size)
       && disk[path].content.Readable? && env.hash(disk[path].content.data) == line.sha256
  }

  lemma IntactMeans(env: Env, disk: Disk, dirs: set<Path>, pack: Pack)
    ensures Intact(env, disk, dirs, pack)
       <==> (pack.root.Some? && pack.files.Some? && pack.root.value in dirs
             && forall line :: line in pack.files.value ==> IsThere(env, disk, pack.root.value, line))
  {
    if pack.root.Some? && pack.files.Some? {
      var lines := pack.files.value;
      assert forall i :: 0 <= i < |lines| ==>
        (LineHolds(env, disk, pack.root.value, lines[i]) <==> IsThere(env, disk, pack.root.value, lines[i]));
    }
  }

  // ---------------------------------------------------------------- the cache

  class Verifier {
    var disk: Disk
    var dirs: set<Path>
    var cache: map<PackId, CacheKey>
    ghost const env: Env
    ghost const history: History
    ghost const packs: PackId -> Pack

    constructor (env: Env, ghost history: History, ghost packs: PackId -> Pack)
      ensures this.env == env && this.history == history && this.packs == packs
      ensures Valid() && disk == map[] && cache == map[]
    {
      this.env, this.history, this.packs := env, history, packs;
      disk, dirs, cache := map[], {}, map[];
    }

    /** The disk keeps to its history, and every entry of the cache is attested for its pack. */
    ghost predicate Valid()
      reads this
    {
      Truthful(disk, history) && forall id :: id in cache ==> Attested(env, history, packs(id), cache[id])
    }

    /** Lines 537-551. */
    method Fingerprint(env: Env, pack: Pack) returns (stamps: Option<seq<Stamp>>)
      requires pack.root.Some? && pack.files.Some? && pack.root.value in dirs
      ensures stamps.Some? <==> AllMatch(env, disk, dirs, pack)
      ensures stamps.Some? ==> stamps.value == Stamps(env, disk, dirs, pack)
    {
      var root, lines := pack.root.value, pack.files.value;
      var found: seq<Stamp> := [];
      for i := 0 to |lines|
        invariant |found| == i
        invariant forall j :: 0 <= j < i ==>
          LineMatches(env, disk, root, lines[j]) && found[j] == StampOf(env, disk, root, lines[j])
      {
        var relative := env.safe(lines[i].name);
        if relative.None? || env.join(root, relative.value) !in disk {
          assert !LineMatches(env, disk, root, lines[i]);
          return None;
        }
        var file := disk[env.join(root, relative.value)];
        if lines[i].size != Some(file.size) {
          assert !LineMatches(env, disk, root, lines[i]);
          return None;
        }
        found := found + [Stamp(relative.value, file.size, file.mtime)];
      }
      return Some(found);
    }

    /** Lines 556-562. */
    method HashAll(env: Env, pack: Pack) returns (good: bool)
      requires AllMatch(env, disk, dirs, pack)
      ensures good <==> Intact(env, disk, dirs, pack)
    {
      var root, lines := pack.root.value, pack.files.value;
      for i := 0 to |lines|
        invariant forall j :: 0 <= j < i ==> LineHolds(env, disk, root, lines[j])
      {
        var content := disk[env.join(root, env.safe(lines[i].name).value)].content;
        if content.Unreadable? || env.hash(content.data) != lines[i].sha256 {
          assert !LineHolds(env, disk, root, lines[i]);
          return false;
        }
      }
      return true;
    }

    function EntryOf(id: PackId): Option<CacheKey>
      reads this
    {
      if id in cache then Some(cache[id]) else None
    }

    /** The checks, with what the cache has for the pack; nothing is left in the cache on failure. */
    method Decide(env: Env, pack: Pack, entry: Option<CacheKey>) returns (verdict: bool, left: Option<CacheKey>)
      ensures (verdict, left) == Cached(env, disk, dirs, pack, entry)
    {
      if pack.root.None? || pack.files.None? || pack.root.value !in dirs {
        return false, None;
      }
      var stamps := Fingerprint(env, pack);
      if stamps.None? {
        return false, None;
      }
      var key := multiset(stamps.value);
      if entry == Some(key) {
        return true, entry;
      }
      verdict := HashAll(env, pack);
      left := if verdict then Some(key) else None;
    }

    /** `verify_installed_pack`: with the cache, the verdict of hashing everything afresh. */
    method Verify(env: Env, pack: Pack) returns (verdict: bool)
      requires Valid() && env == this.env && packs(pack.id) == pack
      modifies this`cache
      ensures (verdict, EntryOf(pack.id)) == Cached(env, disk, dirs, pack, old(EntryOf(pack.id)))
      ensures cache - {pack.id} == old(cache) - {pack.id}
      ensures Valid() && (verdict <==> Intact(env, disk, dirs, pack))
      ensures verdict
         <==> (pack.root.Some? && pack.files.Some? && pack.root.value in dirs
               && forall line :: line in pack.files.value ==> IsThere(env, disk, pack.root.value, line))
    {
      CachedIsIntact(env, history, disk, dirs, pack, EntryOf(pack.id));
      IntactMeans(env, disk, dirs, pack);
      var left;
      verdict, left := Decide(env, pack, EntryOf(pack.id));
      Remember(pack.id, left);
    }

    method Remember(id: PackId, left: Option<CacheKey>)
      modifies this`cache
      ensures EntryOf(id) == left && cache - {id} == old(cache) - {id}
      ensures forall other :: other != id && other in cache ==> other in old(cache) && cache[other] == old(cache)[other]
    {
      cache := if left.Some? then cache[id := left.value] else cache - {id};
    }

    /** Anything that happens to the files between calls, as far as the assumption allows. */
    method Change(disk: Disk, dirs: set<Path>)
      requires Valid() && Truthful(disk, history)
      modifies this`disk, this`dirs
      ensures Valid() && this.disk == disk && this.dirs == dirs
    {
      this.disk, this.dirs := disk, dirs;
    }

    /** The removal of a pack forgets its entry. */
    method Forget(id: PackId)
      requires Valid()
      modifies this`cache
      ensures Valid() && cache == old(cache) - {id}
    {
      cache := cache - {id};
    }
  }

  // ---------------------------------------------------------------- the assumption

  /** No path shows the same size and time with two contents over a run of disk states. */
  predicate NeverReused(disks: seq<Disk>) {
    forall i, j, path :: 0 <= i < |disks| && 0 <= j < |disks| && path in disks[i] && path in disks[j]
      && disks[i][path].size == disks[j][path].size && disks[i][path].mtime == disks[j][path].mtime
      ==> disks[i][path].content == disks[j][path].content
  }

  /** The run has a disk on which the path shows this size and time. */
  predicate Shown(disks: seq<Disk>, i: nat, path: Path, size: nat, mtime: int) {
    i < |disks| && path in disks[i] && disks[i][path].size == size && disks[i][path].mtime == mtime
  }

  /** Such a run has a history, so that `Verify` is right in each of its states. */
  lemma RunHasHistory(disks: seq<Disk>) returns (history: History)
    requires NeverReused(disks)
    ensures forall i :: 0 <= i < |disks| ==> Truthful(disks[i], history)
  {
    history := (path: Path, size: nat, mtime: int) =>
      if i: nat :| Shown(disks, i, path, size, mtime) then disks[i][path].content else Unreadable;
    forall i, path | 0 <= i < |disks| && path in disks[i]
      ensures disks[i][path].content == history(path, disks[i][path].size, disks[i][path].mtime)
    {
      assert Shown(disks, i, path, disks[i][path].size, disks[i][path].mtime);
    }
  }

  /**
   The assumption is needed: content that changes, or can no longer be read, under the same size
   and time goes unnoticed once the pack was verified.
   */
  lemma UnnoticedChange(env: Env, disk: Disk, dirs: set<Path>, pack: Pack, i: nat, bad: Content)
    requires Intact(env, disk, dirs, pack) && i < |pack.files.value|
    requires bad.Readable? ==> env.hash(bad.data) != pack.files.value[i].sha256
    ensures env.safe(pack.files.value[i].name).Some?
    ensures var path := env.join(pack.root.value, env.safe(pack.files.value[i].name).value);
      && path in disk
      && var changed := disk[path := disk[path].(content := bad)];
         !Intact(env, changed, dirs, pack)
         && Cached(env, changed, dirs, pack, Cached(env, disk, dirs, pack, None).1).0
  {
    assert LineHolds(env, disk, pack.root.value, pack.files.value[i]);
    var path := env.join(pack.root.value, env.safe(pack.files.value[i].name).value);
    var changed := disk[path := disk[path].(content := bad)];
    assert !LineHolds(env, changed, pack.root.value, pack.files.value[i]);
    assert AllMatch(env, changed, dirs, pack) by {
      forall j | 0 <= j < |pack.files.value| ensures LineMatches(env, changed, pack.root.value, pack.files.value[j]) {
        assert LineMatches(env, disk, pack.root.value, pack.files.value[j]);
      }
    }
    assert Stamps(env, changed, dirs, pack) == Stamps(env, disk, dirs, pack);
  }
}
