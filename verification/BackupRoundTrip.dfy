/**
 The archive writer `create_backup_archive`, and the round trip: what is written is accepted,
 and extracting and installing it gives the stored data back.
 */
module BackupRoundTrip {
  import opened Wrappers
  import opened PortableNames
  import opened BackupArchive
  import opened BackupExtract
  import RestoreSwap

  /** One entry below the attachments or archives directory. */
  datatype Entry = Entry(path: string, regular: bool, symlink: bool, data: Bytes)

  datatype Source = Source(
    snapshot: Bytes, attachments: seq<Entry>, archives: seq<Entry>, schema: string, config: Bytes)

  const ATTACHMENTS := "attachments"
  const ARCHIVES := "archives"

  predicate KeptArchive(e: Entry) {
    e.regular && !e.symlink
  }

  predicate KeptAttachment(e: Entry) {
    e.regular && !e.symlink && ".incoming" !in Segments(e.path)
  }

  function Kept(entries: seq<Entry>, keep: Entry -> bool): seq<Entry> {
    if entries == [] then []
    else (if keep(entries[0]) then [entries[0]] else []) + Kept(entries[1..], keep)
  }

  type Payload = seq<(string, Bytes)>

  function Named(dir: string, entries: seq<Entry>): (r: Payload)
    ensures |r| == |entries|
    ensures forall i :: 0 <= i < |r| ==> r[i] == (dir + "/" + entries[i].path, entries[i].data)
  {
    if entries == [] then []
    else [(dir + "/" + entries[0].path, entries[0].data)] + Named(dir, entries[1..])
  }

  function Files(source: Source): Payload {
    [(DATABASE, source.snapshot)]
    + Named(ATTACHMENTS, Kept(source.attachments, KeptAttachment))
    + Named(ARCHIVES, Kept(source.archives, KeptArchive))
  }

  /** What the ZIP writer records for one file. */
  function Stored(env: Env, mode: int, file: (string, Bytes)): Member {
    Member(file.0, mode, false, DEFLATED, |file.1|, env.deflated(file.1), Some(file.1))
  }

  function ItemFor(env: Env, file: (string, Bytes)): Item {
    Item(file.0, Some(|file.1|), Some(env.hash(file.1)))
  }

  function Members(env: Env, files: Payload): (r: Archive)
    ensures |r| == |files|
    ensures forall i :: 0 <= i < |r| ==> r[i] == Stored(env, REGULAR, files[i])
  {
    seq(|files|, i requires 0 <= i < |files| => Stored(env, REGULAR, files[i]))
  }

  function Items(env: Env, files: Payload): (r: seq<Item>)
    ensures |r| == |files|
    ensures forall i :: 0 <= i < |r| ==> r[i] == ItemFor(env, files[i])
  {
    seq(|files|, i requires 0 <= i < |files| => ItemFor(env, files[i]))
  }

  function ManifestFor(env: Env, source: Source): Manifest {
    Manifest("partyops-backup", Some(FORMAT_VERSION), source.schema, Some(Items(env, Files(source))))
  }

  /** The archive, member by member: the files, the configuration, the manifest. */
  function Built(env: Env, source: Source): Archive {
    Members(env, Files(source))
    + [Stored(env, 0, (CONFIG, source.config))]
    + [Stored(env, 0, (MANIFEST, env.dump(ManifestFor(env, source))))]
  }

  /** Lines 265-282 and 295-300 for one directory: list every kept file and write it. */
  method AppendFiles(env: Env, dir: string, entries: seq<Entry>, ghost before: Payload,
                     items: seq<Item>, archive: Archive)
    returns (items': seq<Item>, archive': Archive)
    requires items == Items(env, before) && archive == Members(env, before)
    ensures items' == Items(env, before + Named(dir, entries))
    ensures archive' == Members(env, before + Named(dir, entries))
  {
    items', archive' := items, archive;
    ghost var files := before;
    for n := 0 to |entries|
      invariant files == before + Named(dir, entries[..n])
      invariant items' == Items(env, files) && archive' == Members(env, files)
    {
      var file := (dir + "/" + entries[n].path, entries[n].data);
      assert Named(dir, entries[..n + 1]) == Named(dir, entries[..n]) + [file];
      files := files + [file];
      items', archive' := items' + [ItemFor(env, file)], archive' + [Stored(env, REGULAR, file)];
    }
    assert entries[..|entries|] == entries;
  }

  method Select(entries: seq<Entry>, keep: Entry -> bool) returns (kept: seq<Entry>)
    ensures kept == Kept(entries, keep)
  {
    kept := [];
    for n := 0 to |entries|
      invariant kept + Kept(entries[n..], keep) == Kept(entries, keep)
    {
      assert entries[n..][0] == entries[n] && entries[n..][1..] == entries[n + 1..];
      if keep(entries[n]) {
        kept := kept + [entries[n]];
      }
    }
  }

  // ---------------------------------------------------------------- which stores round-trip

  /** The kept paths of one directory: portable files, distinct when case is ignored. */
  predicate PortableTree(folding: Folding, entries: seq<Entry>) {
    && (forall e :: e in entries ==> Portable(e.path, folding) && !IsDirectory(e.path))
    && (forall i, j :: 0 <= i < j < |entries| ==> folding.Fold(entries[i].path) != folding.Fold(entries[j].path))
  }

  predicate WithinLimits(env: Env, archive: Archive) {
    && |archive| <= env.limits.maxMembers
    && TotalSize(archive) <= env.limits.expanded
    && (forall m :: m in archive ==> !Bomb(m))
    && |archive| > 0 && archive[|archive| - 1].fileSize <= MAX_MANIFEST_BYTES
  }

  /** What is assumed of the environment: hashes have 64 digits, and a written manifest reads back. */
  ghost predicate Sound(env: Env, folding: Folding) {
    && folding.Valid() && env.names == NamesOf(folding)
    && (forall data :: |env.hash(data)| == 64)
    && (forall manifest :: env.parse(env.dump(manifest)) == Some(manifest))
  }

  ghost predicate Ready(env: Env, folding: Folding, source: Source) {
    && Sound(env, folding)
    && env.intact(source.snapshot)
    && !After(source.schema, SCHEMA_VERSION)
    && PortableTree(folding, Kept(source.attachments, KeptAttachment))
    && PortableTree(folding, Kept(source.archives, KeptArchive))
    && WithinLimits(env, Built(env, source))
  }

  // ---------------------------------------------------------------- names and keys

  predicate Plain(s: string) {
    forall i :: 0 <= i < |s| ==> 'a' <= s[i] <= 'z' || s[i] == '/' || s[i] == '.'
  }

  predicate NoEarlyDot(s: string) {
    forall i :: 0 <= i < 5 && i < |s| ==> s[i] != '.'
  }

  lemma {:induction false} BeforeDotPlain(s: string)
    ensures BeforeDot(s) <= s
    ensures BeforeDot(s) != s ==> s[|BeforeDot(s)|] == '.'
  {
    if s != [] && s[0] != '.' {
      BeforeDotPlain(s[1..]);
      assert s == [s[0]] + s[1..];
    }
  }

  /** A stem of five or more plain characters is no device name. */
  lemma LongStem(s: string, folding: Folding)
    requires folding.Valid() && Plain(s) && |s| >= 5 && NoEarlyDot(s)
    ensures !Reserved(folding.Fold(BeforeDot(s)))
  {
    BeforeDotPlain(s);
    var stem := BeforeDot(s);
    folding.FoldPlain(stem);
  }

  lemma PlainSegment(s: string, folding: Folding)
    requires folding.Valid() && Plain(s) && |s| >= 5 && s[|s| - 1] != '.' && NoEarlyDot(s)
    ensures ValidSegment(s, folding)
  {
    LongStem(s, folding);
    assert StripEnd(s) == s;
  }

  predicate FixedPart(s: string) {
    Plain(s) && '/' !in s && |s| >= 5 && s[|s| - 1] != '.' && NoEarlyDot(s)
  }

  lemma FixedFile(base: string, folding: Folding)
    requires folding.Valid() && FixedPart(base)
    ensures Portable(base, folding)
  {
    PlainSegment(base, folding);
    NoSlash(base);
    assert '\\' !in base;
  }

  lemma FixedBelow(dir: string, base: string, folding: Folding)
    requires folding.Valid() && FixedPart(dir) && FixedPart(base)
    ensures Portable(dir + "/" + base, folding)
  {
    FixedFile(base, folding);
    PlainSegment(dir, folding);
    assert '\\' !in dir;
    PortableUnder(dir, base, folding);
  }

  lemma DatabaseParts()
    ensures FixedPart("database") && FixedPart("partyops.db") && Plain(DATABASE)
    ensures DATABASE == "database" + "/" + "partyops.db"
  {
  }

  lemma DatabaseName(folding: Folding)
    requires folding.Valid()
    ensures Portable(DATABASE, folding) && folding.Fold(DATABASE) == DATABASE
  {
    DatabaseParts();
    FixedBelow("database", "partyops.db", folding);
    folding.FoldPlain(DATABASE);
  }

  lemma ConfigParts()
    ensures FixedPart("config") && FixedPart("config.json") && Plain(CONFIG)
    ensures CONFIG == "config" + "/" + "config.json"
  {
  }

  lemma ConfigName(folding: Folding)
    requires folding.Valid()
    ensures Portable(CONFIG, folding) && folding.Fold(CONFIG) == CONFIG
  {
    ConfigParts();
    FixedBelow("config", "config.json", folding);
    folding.FoldPlain(CONFIG);
  }

  lemma ManifestName(folding: Folding)
    requires folding.Valid()
    ensures Portable(MANIFEST, folding) && folding.Fold(MANIFEST) == MANIFEST
  {
    FixedFile(MANIFEST, folding);
    folding.FoldPlain(MANIFEST);
  }

  // ---------------------------------------------------------------- the built archive

  datatype Kind = Database | Attachment | ArchiveFile | Config | TheManifest

  function KeptAttachments(source: Source): seq<Entry> {
    Kept(source.attachments, KeptAttachment)
  }

  function KeptArchives(source: Source): seq<Entry> {
    Kept(source.archives, KeptArchive)
  }

  function KindAt(source: Source, i: nat): Kind {
    var a, r := |KeptAttachments(source)|, |KeptArchives(source)|;
    if i == 0 then Database
    else if i <= a then Attachment
    else if i <= a + r then ArchiveFile
    else if i == a + r + 1 then Config
    else TheManifest
  }

  function NameAt(source: Source, i: nat): string {
    match KindAt(source, i)
    case Database => DATABASE
    case Attachment => ATTACHMENTS + "/" + KeptAttachments(source)[i - 1].path
    case ArchiveFile => ARCHIVES + "/" + KeptArchives(source)[i - 1 - |KeptAttachments(source)|].path
    case Config => CONFIG
    case TheManifest => MANIFEST
  }

  lemma BuiltAt(env: Env, source: Source, i: nat)
    requires i < |Built(env, source)|
    ensures |Built(env, source)| == |Files(source)| + 2
    ensures Built(env, source)[i].name == NameAt(source, i)
    ensures i < |Files(source)| ==>
      Files(source)[i].0 == NameAt(source, i) && Built(env, source)[i] == Stored(env, REGULAR, Files(source)[i])
    ensures Built(env, source)[i].mode in {0, REGULAR} && !Built(env, source)[i].encrypted
    ensures Built(env, source)[i].compression == DEFLATED
  {
  }

  /** The kind of a member can be read off its collision key. */
  predicate KeyFits(kind: Kind, key: string) {
    |key| >= 2 && match kind
      case Database => key[0] == 'd'
      case Attachment => key[0] == 'a' && key[1] == 't'
      case ArchiveFile => key[0] == 'a' && key[1] == 'r'
      case Config => key[0] == 'c'
      case TheManifest => key[0] == 'm'
  }

  lemma UnderDirectory(dir: string, e: Entry, folding: Folding)
    requires folding.Valid() && FixedPart(dir)
    requires Portable(e.path, folding) && !IsDirectory(e.path)
    ensures Portable(dir + "/" + e.path, folding) && !IsDirectory(dir + "/" + e.path)
  {
    PlainSegment(dir, folding);
    assert '\\' !in dir;
    PortableUnder(dir, e.path, folding);
  }

  lemma KeyStart(dir: string, path: string, folding: Folding)
    requires folding.Valid() && FixedPart(dir)
    ensures dir <= folding.Fold(dir + "/" + path)
  {
    Regrouped(dir, "/", path);
    folding.FoldConcat(dir, "/" + path);
    folding.FoldPlain(dir);
  }

  lemma Regrouped(a: string, b: string, c: string)
    ensures a + b + c == a + (b + c)
  {
  }

  lemma AttachmentName(e: Entry, folding: Folding)
    requires folding.Valid() && Portable(e.path, folding) && !IsDirectory(e.path)
    ensures Portable(ATTACHMENTS + "/" + e.path, folding) && !IsDirectory(ATTACHMENTS + "/" + e.path)
    ensures KeyFits(Attachment, folding.Fold(ATTACHMENTS + "/" + e.path))
  {
    UnderDirectory(ATTACHMENTS, e, folding);
    KeyStart(ATTACHMENTS, e.path, folding);
  }

  lemma ArchiveName(e: Entry, folding: Folding)
    requires folding.Valid() && Portable(e.path, folding) && !IsDirectory(e.path)
    ensures Portable(ARCHIVES + "/" + e.path, folding) && !IsDirectory(ARCHIVES + "/" + e.path)
    ensures KeyFits(ArchiveFile, folding.Fold(ARCHIVES + "/" + e.path))
  {
    UnderDirectory(ARCHIVES, e, folding);
    KeyStart(ARCHIVES, e.path, folding);
  }

  predicate Fits(folding: Folding, kind: Kind, name: string) {
    Portable(name, folding) && !IsDirectory(name) && KeyFits(kind, folding.Fold(name))
  }

  lemma AttachmentEntry(source: Source, i: nat) returns (e: Entry)
    requires KindAt(source, i) == Attachment
    ensures e in KeptAttachments(source) && NameAt(source, i) == ATTACHMENTS + "/" + e.path
  {
    e := KeptAttachments(source)[i - 1];
  }

  lemma ArchiveEntry(source: Source, i: nat) returns (e: Entry)
    requires KindAt(source, i) == ArchiveFile
    ensures e in KeptArchives(source) && NameAt(source, i) == ARCHIVES + "/" + e.path
  {
    e := KeptArchives(source)[i - 1 - |KeptAttachments(source)|];
  }

  lemma AttachmentFits(folding: Folding, e: Entry, name: string)
    requires folding.Valid() && Portable(e.path, folding) && !IsDirectory(e.path)
    requires name == ATTACHMENTS + "/" + e.path
    ensures Fits(folding, Attachment, name)
  {
    AttachmentName(e, folding);
  }

  lemma ArchiveFits(folding: Folding, e: Entry, name: string)
    requires folding.Valid() && Portable(e.path, folding) && !IsDirectory(e.path)
    requires name == ARCHIVES + "/" + e.path
    ensures Fits(folding, ArchiveFile, name)
  {
    ArchiveName(e, folding);
  }

  lemma NameFits(env: Env, folding: Folding, source: Source, i: nat)
    requires Ready(env, folding, source) && i < |Built(env, source)|
    ensures Portable(NameAt(source, i), folding) && !IsDirectory(NameAt(source, i))
    ensures KeyFits(KindAt(source, i), folding.Fold(NameAt(source, i)))
  {
    match KindAt(source, i)
    case Database => DatabaseName(folding);
    case Attachment =>
      var e := AttachmentEntry(source, i);
      AttachmentFits(folding, e, NameAt(source, i));
    case ArchiveFile =>
      var e := ArchiveEntry(source, i);
      ArchiveFits(folding, e, NameAt(source, i));
    case Config => ConfigName(folding);
    case TheManifest => ManifestName(folding);
  }

  lemma AttachmentsDiffer(folding: Folding, source: Source, i: nat, j: nat)
    requires PortableTree(folding, KeptAttachments(source)) && i < j
    requires KindAt(source, i) == Attachment && KindAt(source, j) == Attachment
    ensures folding.Fold(NameAt(source, i)) != folding.Fold(NameAt(source, j))
  {
    TreeDiffers(ATTACHMENTS, KeptAttachments(source), folding, i - 1, j - 1);
  }

  lemma ArchivesDiffer(folding: Folding, source: Source, i: nat, j: nat)
    requires PortableTree(folding, KeptArchives(source)) && i < j
    requires KindAt(source, i) == ArchiveFile && KindAt(source, j) == ArchiveFile
    ensures folding.Fold(NameAt(source, i)) != folding.Fold(NameAt(source, j))
  {
    var a := |KeptAttachments(source)|;
    TreeDiffers(ARCHIVES, KeptArchives(source), folding, i - 1 - a, j - 1 - a);
  }

  /** There is one database, one configuration and one manifest. */
  lemma OneOfItsKind(env: Env, source: Source, i: nat, j: nat)
    requires i < |Built(env, source)| && j < |Built(env, source)|
    requires KindAt(source, i) == KindAt(source, j) && KindAt(source, i) in {Database, Config, TheManifest}
    ensures i == j
  {
    BuiltAt(env, source, i);
    BuiltAt(env, source, j);
  }

  /** Members of one kind differ below their directory. */
  lemma SameKindDiffers(env: Env, folding: Folding, source: Source, i: nat, j: nat)
    requires Ready(env, folding, source) && i < j < |Built(env, source)|
    requires KindAt(source, i) == KindAt(source, j)
    ensures folding.Fold(NameAt(source, i)) != folding.Fold(NameAt(source, j))
  {
    if KindAt(source, i) == Attachment {
      AttachmentsDiffer(folding, source, i, j);
    } else if KindAt(source, i) == ArchiveFile {
      ArchivesDiffer(folding, source, i, j);
    } else {
      OneOfItsKind(env, source, i, j);
    }
  }

  lemma TreeDiffers(dir: string, entries: seq<Entry>, folding: Folding, i: nat, j: nat)
    requires PortableTree(folding, entries) && i < j < |entries|
    ensures folding.Fold(dir + "/" + entries[i].path) != folding.Fold(dir + "/" + entries[j].path)
  {
    folding.FoldUnder(dir + "/", entries[i].path, entries[j].path);
  }

  /** No two members of a built archive collide when case is ignored. */
  lemma NamesCollideNowhere(env: Env, folding: Folding, source: Source, i: nat, j: nat)
    requires Ready(env, folding, source) && i < j < |Built(env, source)|
    ensures folding.Fold(NameAt(source, i)) != folding.Fold(NameAt(source, j))
  {
    if KindAt(source, i) == KindAt(source, j) {
      SameKindDiffers(env, folding, source, i, j);
    } else {
      NameFits(env, folding, source, i);
      NameFits(env, folding, source, j);
    }
  }

  // ---------------------------------------------------------------- what is written is accepted

  lemma BuiltInfosOk(env: Env, folding: Folding, source: Source)
    requires Ready(env, folding, source)
    ensures InfosOk(env, Built(env, source))
  {
    var infos := Built(env, source);
    var keys := Keys(env, infos);
    forall i | 0 <= i < |infos| ensures PathOk(env, infos[i]) && keys[i] == folding.Fold(NameAt(source, i)) {
      BuiltAt(env, source, i);
      NameFits(env, folding, source, i);
    }
    forall i, j | 0 <= i < j < |infos| ensures keys[i] != keys[j] {
      NamesCollideNowhere(env, folding, source, i, j);
    }
  }

  lemma OpenBuilt(env: Env, folding: Folding, source: Source, i: nat)
    requires Ready(env, folding, source) && i < |Built(env, source)|
    ensures HasName(Built(env, source), NameAt(source, i))
    ensures Open(Built(env, source), NameAt(source, i)) == Built(env, source)[i]
  {
    var infos := Built(env, source);
    BuiltAt(env, source, i);
    BuiltInfosOk(env, folding, source);
    assert infos[i] in infos;
    SameNameSameMember(env, infos, infos[i], Open(infos, NameAt(source, i)));
  }

  lemma BuiltManifest(env: Env, folding: Folding, source: Source)
    requires Ready(env, folding, source)
    ensures ManifestReadable(env, Built(env, source))
    ensures ManifestOf(env, Built(env, source)) == ManifestFor(env, source)
  {
    var last := |Built(env, source)| - 1;
    BuiltAt(env, source, last);
    assert NameAt(source, last) == MANIFEST;
    OpenBuilt(env, folding, source, last);
  }

  lemma BuiltItems(env: Env, folding: Folding, source: Source)
    requires Ready(env, folding, source)
    ensures var items := Items(env, Files(source));
            DistinctPaths(items)
            && forall i :: 0 <= i < |items| ==> ItemOk(env, Built(env, source), items[i])
  {
    var infos, items := Built(env, source), Items(env, Files(source));
    BuiltInfosOk(env, folding, source);
    forall i | 0 <= i < |items| ensures items[i].path == infos[i].name && ItemOk(env, infos, items[i]) {
      BuiltAt(env, source, i);
      OpenBuilt(env, folding, source, i);
      NameFits(env, folding, source, i);
    }
    forall i, j | 0 <= i < j < |items| ensures items[i].path != items[j].path {
      KeysDiffer(env, infos, i, j);
    }
  }

  lemma BuiltIsListed(env: Env, source: Source, i: nat)
    requires i < |Built(env, source)|
    ensures var name := Built(env, source)[i].name;
            name in ListedPaths(Items(env, Files(source))) || name == MANIFEST || name == CONFIG
  {
    BuiltAt(env, source, i);
    if i < |Files(source)| {
      assert Items(env, Files(source))[i].path == NameAt(source, i);
    }
  }

  lemma BuiltDatabase(env: Env, folding: Folding, source: Source)
    requires Ready(env, folding, source)
    ensures HasName(Built(env, source), DATABASE)
    ensures Open(Built(env, source), DATABASE).data == Some(source.snapshot)
    ensures DATABASE in ListedPaths(Items(env, Files(source)))
  {
    OpenBuilt(env, folding, source, 0);
    BuiltAt(env, source, 0);
    assert Items(env, Files(source))[0].path == DATABASE;
  }

  lemma BuiltContents(env: Env, folding: Folding, source: Source)
    requires Ready(env, folding, source)
    ensures FilesOk(env, Built(env, source), Items(env, Files(source)))
  {
    BuiltItems(env, folding, source);
    BuiltDatabase(env, folding, source);
    var infos := Built(env, source);
    forall m | m in infos
      ensures m.name in ListedPaths(Items(env, Files(source))) || m.name == MANIFEST || m.name == CONFIG
    {
      var i :| 0 <= i < |infos| && infos[i] == m;
      BuiltIsListed(env, source, i);
    }
  }

  /** `verify_backup` accepts every archive the writer makes of a portable store within the limits. */
  lemma BuiltIsAcceptable(env: Env, folding: Folding, source: Source)
    requires Ready(env, folding, source)
    ensures Acceptable(env, Built(env, source))
    ensures ManifestOf(env, Built(env, source)) == ManifestFor(env, source)
  {
    BuiltInfosOk(env, folding, source);
    BuiltManifest(env, folding, source);
    BuiltContents(env, folding, source);
  }

  // ---------------------------------------------------------------- and nothing else is

  /** A directory listing gives the paths of files, which are not empty and end in a name. */
  predicate FilePaths(source: Source) {
    && (forall e :: e in KeptAttachments(source) ==> e.path != "" && !IsDirectory(e.path))
    && (forall e :: e in KeptArchives(source) ==> e.path != "" && !IsDirectory(e.path))
  }

  lemma OpenAt(env: Env, source: Source, i: nat)
    requires InfosOk(env, Built(env, source)) && i < |Built(env, source)|
    ensures HasName(Built(env, source), NameAt(source, i))
    ensures Open(Built(env, source), NameAt(source, i)) == Built(env, source)[i]
  {
    var infos := Built(env, source);
    BuiltAt(env, source, i);
    assert infos[i] in infos;
    SameNameSameMember(env, infos, infos[i], Open(infos, NameAt(source, i)));
  }

  lemma NotDirectory(dir: string, path: string)
    requires path != "" && !IsDirectory(path)
    ensures Candidate(dir + "/" + path) == dir + "/" + path
  {
    var name := dir + "/" + path;
    assert name[|name| - 1] == path[|path| - 1];
  }

  lemma PortableBelow(dir: string, path: string, folding: Folding)
    requires folding.Valid() && FixedPart(dir) && path != "" && !IsDirectory(path)
    requires Portable(dir + "/" + path, folding)
    ensures Portable(path, folding)
  {
    PlainSegment(dir, folding);
    assert '\\' !in dir;
    SegmentsUnder(dir, path);
    NotDirectory(dir, path);
    assert ValidSegment(Segments(path)[0], folding);
    PortableUnder(dir, path, folding);
  }

  /** The entries of one directory stand in the archive from `from` on. */
  predicate StandsAt(infos: Archive, dir: string, entries: seq<Entry>, from: nat) {
    && from + |entries| <= |infos|
    && forall n :: 0 <= n < |entries| ==> infos[from + n].name == dir + "/" + entries[n].path
  }

  lemma AcceptedTree(env: Env, folding: Folding, infos: Archive, dir: string, entries: seq<Entry>, from: nat)
    requires Sound(env, folding) && InfosOk(env, infos) && FixedPart(dir) && StandsAt(infos, dir, entries, from)
    requires forall e :: e in entries ==> e.path != "" && !IsDirectory(e.path)
    ensures PortableTree(folding, entries)
  {
    forall i | 0 <= i < |entries| ensures Portable(entries[i].path, folding) && !IsDirectory(entries[i].path) {
      assert PathOk(env, infos[from + i]) && entries[i] in entries;
      PortableBelow(dir, entries[i].path, folding);
    }
    forall i, j | 0 <= i < j < |entries| ensures folding.Fold(entries[i].path) != folding.Fold(entries[j].path) {
      assert entries[i] in entries && entries[j] in entries;
      KeysDiffer(env, infos, from + i, from + j);
      NotDirectory(dir, entries[i].path);
      NotDirectory(dir, entries[j].path);
      folding.FoldUnder(dir + "/", entries[i].path, entries[j].path);
    }
  }

  lemma AttachmentAt(env: Env, source: Source, n: nat)
    requires n < |KeptAttachments(source)|
    ensures var e, i := KeptAttachments(source)[n], n + 1;
            i < |Built(env, source)| && NameAt(source, i) == ATTACHMENTS + "/" + e.path
            && Built(env, source)[i].data == Some(e.data)
  {
    BuiltAt(env, source, n + 1);
  }

  lemma ArchiveAt(env: Env, source: Source, n: nat)
    requires n < |KeptArchives(source)|
    ensures var e, i := KeptArchives(source)[n], |KeptAttachments(source)| + n + 1;
            i < |Built(env, source)| && NameAt(source, i) == ARCHIVES + "/" + e.path
            && Built(env, source)[i].data == Some(e.data)
  {
    BuiltAt(env, source, |KeptAttachments(source)| + n + 1);
  }

  lemma DirectoryIsFixed(dir: string)
    requires dir == ATTACHMENTS || dir == ARCHIVES
    ensures FixedPart(dir)
  {
  }

  lemma AttachmentStands(env: Env, source: Source, dir: string, n: nat)
    requires dir == ATTACHMENTS && n < |KeptAttachments(source)|
    ensures 1 + n < |Built(env, source)|
    ensures Built(env, source)[1 + n].name == dir + "/" + KeptAttachments(source)[n].path
  {
    AttachmentAt(env, source, n);
    BuiltAt(env, source, 1 + n);
  }

  lemma ArchiveStands(env: Env, source: Source, dir: string, n: nat)
    requires dir == ARCHIVES && n < |KeptArchives(source)|
    ensures 1 + |KeptAttachments(source)| + n < |Built(env, source)|
    ensures Built(env, source)[1 + |KeptAttachments(source)| + n].name == dir + "/" + KeptArchives(source)[n].path
  {
    ArchiveAt(env, source, n);
    BuiltAt(env, source, 1 + |KeptAttachments(source)| + n);
  }

  lemma BuiltSize(env: Env, source: Source)
    ensures |Built(env, source)| == |KeptAttachments(source)| + |KeptArchives(source)| + 3
  {
  }

  lemma DirectoriesStand(env: Env, source: Source, attachments: string, archives: string)
    requires attachments == ATTACHMENTS && archives == ARCHIVES
    ensures StandsAt(Built(env, source), attachments, KeptAttachments(source), 1)
    ensures StandsAt(Built(env, source), archives, KeptArchives(source), 1 + |KeptAttachments(source)|)
  {
    BuiltSize(env, source);
    forall n: nat | n < |KeptAttachments(source)|
      ensures Built(env, source)[1 + n].name == attachments + "/" + KeptAttachments(source)[n].path
    {
      AttachmentStands(env, source, attachments, n);
    }
    forall n: nat | n < |KeptArchives(source)|
      ensures Built(env, source)[1 + |KeptAttachments(source)| + n].name
           == archives + "/" + KeptArchives(source)[n].path
    {
      ArchiveStands(env, source, archives, n);
    }
  }

  lemma AcceptedTrees(env: Env, folding: Folding, source: Source, attachments: string, archives: string)
    requires Sound(env, folding) && FilePaths(source) && InfosOk(env, Built(env, source))
    requires FixedPart(attachments) && StandsAt(Built(env, source), attachments, KeptAttachments(source), 1)
    requires FixedPart(archives)
    requires StandsAt(Built(env, source), archives, KeptArchives(source), 1 + |KeptAttachments(source)|)
    ensures PortableTree(folding, KeptAttachments(source)) && PortableTree(folding, KeptArchives(source))
  {
    AcceptedTree(env, folding, Built(env, source), attachments, KeptAttachments(source), 1);
    AcceptedTree(env, folding, Built(env, source), archives, KeptArchives(source), 1 + |KeptAttachments(source)|);
  }

  lemma AcceptedManifest(env: Env, folding: Folding, source: Source)
    requires Sound(env, folding) && Acceptable(env, Built(env, source))
    ensures !After(source.schema, SCHEMA_VERSION)
  {
    var infos := Built(env, source);
    BuiltAt(env, source, |infos| - 1);
    OpenAt(env, source, |infos| - 1);
  }

  lemma AcceptedSnapshot(env: Env, source: Source)
    requires InfosOk(env, Built(env, source)) && DatabaseIntact(env, Built(env, source))
    ensures env.intact(source.snapshot)
  {
    BuiltAt(env, source, 0);
    OpenAt(env, source, 0);
  }

  lemma AcceptedLimits(env: Env, source: Source)
    requires InfosOk(env, Built(env, source)) && ManifestReadable(env, Built(env, source))
    ensures WithinLimits(env, Built(env, source))
  {
    var infos := Built(env, source);
    BuiltAt(env, source, |infos| - 1);
    OpenAt(env, source, |infos| - 1);
    forall m | m in infos ensures !Bomb(m) {
      var i :| 0 <= i < |infos| && infos[i] == m;
    }
  }

  /**
   Of the archives the writer can make, the verifier accepts exactly those of stores whose paths are
   portable and distinct when case is ignored, with an intact snapshot of a known schema, within the limits.
   */
  lemma BuiltIsAcceptableIff(env: Env, folding: Folding, source: Source)
    requires Sound(env, folding) && FilePaths(source)
    ensures Acceptable(env, Built(env, source)) <==> Ready(env, folding, source)
  {
    if Acceptable(env, Built(env, source)) {
      DirectoryIsFixed(ATTACHMENTS);
      DirectoryIsFixed(ARCHIVES);
      DirectoriesStand(env, source, ATTACHMENTS, ARCHIVES);
      AcceptedTrees(env, folding, source, ATTACHMENTS, ARCHIVES);
      AcceptedManifest(env, folding, source);
      AcceptedSnapshot(env, source);
      AcceptedLimits(env, source);
    } else if Ready(env, folding, source) {
      BuiltIsAcceptable(env, folding, source);
    }
  }

  // ---------------------------------------------------------------- which files are in the archive

  lemma {:induction false} InKept(entries: seq<Entry>, keep: Entry -> bool, e: Entry)
    ensures e in Kept(entries, keep) <==> e in entries && keep(e)
  {
    if entries == [] {
    } else {
      InKept(entries[1..], keep, e);
      assert e in entries <==> e == entries[0] || e in entries[1..];
    }
  }

  /** An attachment is kept when it is a regular file, no link, and not below `.incoming`. */
  lemma KeptAttachmentsAre(source: Source, e: Entry)
    ensures e in KeptAttachments(source)
       <==> e in source.attachments && e.regular && !e.symlink && !IsComponent(".incoming", e.path)
  {
    InKept(source.attachments, KeptAttachment, e);
    SegmentsAreComponents(".incoming", e.path);
  }

  lemma KeptArchivesAre(source: Source, e: Entry)
    ensures e in KeptArchives(source) <==> e in source.archives && e.regular && !e.symlink
  {
    InKept(source.archives, KeptArchive, e);
  }

  lemma BuiltHasFixed(env: Env, source: Source)
    ensures HasMember(Built(env, source), "database/partyops.db", source.snapshot)
    ensures HasMember(Built(env, source), "config/config.json", source.config)
  {
    var infos := Built(env, source);
    assert infos[0] in infos && infos[0] == Stored(env, REGULAR, (DATABASE, source.snapshot));
    var config := Stored(env, 0, (CONFIG, source.config));
    assert infos[|infos| - 2] == config && config in infos;
  }

  lemma AttachmentIsMember(env: Env, source: Source, n: nat)
    requires n < |KeptAttachments(source)|
    ensures var e := KeptAttachments(source)[n]; HasMember(Built(env, source), "attachments/" + e.path, e.data)
  {
    AttachmentAt(env, source, n);
    BuiltAt(env, source, n + 1);
    var infos, e := Built(env, source), KeptAttachments(source)[n];
    assert "attachments/" == ATTACHMENTS + "/" && infos[n + 1] in infos;
    Regrouped(ATTACHMENTS, "/", e.path);
  }

  lemma ArchiveIsMember(env: Env, source: Source, n: nat)
    requires n < |KeptArchives(source)|
    ensures var e := KeptArchives(source)[n]; HasMember(Built(env, source), "archives/" + e.path, e.data)
  {
    ArchiveAt(env, source, n);
    BuiltAt(env, source, |KeptAttachments(source)| + n + 1);
    var infos, e := Built(env, source), KeptArchives(source)[n];
    assert "archives/" == ARCHIVES + "/" && infos[|KeptAttachments(source)| + n + 1] in infos;
    Regrouped(ARCHIVES, "/", e.path);
  }

  /** Only members of its own kind have a name that starts with the directory. */
  lemma KindByName(source: Source, i: nat)
    ensures "attachments/" <= NameAt(source, i) ==> KindAt(source, i) == Attachment
    ensures "archives/" <= NameAt(source, i) ==> KindAt(source, i) == ArchiveFile
  {
    var name := NameAt(source, i);
    assert |name| >= 2;
    assert "attachments/" <= name ==> name[0] == 'a' && name[1] == 't';
    assert "archives/" <= name ==> name[0] == 'a' && name[1] == 'r';
  }

  lemma BuiltHasAttachments(env: Env, source: Source)
    ensures forall e :: e in source.attachments && e.regular && !e.symlink && !IsComponent(".incoming", e.path) ==>
      HasMember(Built(env, source), "attachments/" + e.path, e.data)
    ensures forall m :: m in Built(env, source) && "attachments/" <= m.name ==>
      exists e :: e in source.attachments && e.regular && !e.symlink && !IsComponent(".incoming", e.path)
        && m.name == "attachments/" + e.path && m.data == Some(e.data)
  {
    var infos, kept := Built(env, source), KeptAttachments(source);
    forall e | e in source.attachments && e.regular && !e.symlink && !IsComponent(".incoming", e.path)
      ensures HasMember(infos, "attachments/" + e.path, e.data)
    {
      KeptAttachmentsAre(source, e);
      var n :| 0 <= n < |kept| && kept[n] == e;
      AttachmentIsMember(env, source, n);
    }
    forall m | m in infos && "attachments/" <= m.name
      ensures exists e ::
        e in source.attachments && e.regular && !e.symlink && !IsComponent(".incoming", e.path)
        && m.name == "attachments/" + e.path && m.data == Some(e.data)
    {
      var i :| 0 <= i < |infos| && infos[i] == m;
      var e := AttachmentOf(env, source, i);
      KeptAttachmentsAre(source, e);
    }
  }

  lemma AttachmentOf(env: Env, source: Source, i: nat) returns (e: Entry)
    requires i < |Built(env, source)| && "attachments/" <= Built(env, source)[i].name
    ensures e in KeptAttachments(source) && Built(env, source)[i].name == "attachments/" + e.path
    ensures Built(env, source)[i].data == Some(e.data)
  {
    BuiltAt(env, source, i);
    KindByName(source, i);
    e := KeptAttachments(source)[i - 1];
    AttachmentAt(env, source, i - 1);
    Regrouped(ATTACHMENTS, "/", e.path);
    assert "attachments/" == ATTACHMENTS + "/";
  }

  lemma ArchiveOf(env: Env, source: Source, i: nat) returns (e: Entry)
    requires i < |Built(env, source)| && "archives/" <= Built(env, source)[i].name
    ensures e in KeptArchives(source) && Built(env, source)[i].name == "archives/" + e.path
    ensures Built(env, source)[i].data == Some(e.data)
  {
    BuiltAt(env, source, i);
    KindByName(source, i);
    var n := i - 1 - |KeptAttachments(source)|;
    e := KeptArchives(source)[n];
    ArchiveAt(env, source, n);
    Regrouped(ARCHIVES, "/", e.path);
    assert "archives/" == ARCHIVES + "/";
  }

  lemma BuiltHasArchives(env: Env, source: Source)
    ensures forall e :: e in source.archives && e.regular && !e.symlink ==>
      HasMember(Built(env, source), "archives/" + e.path, e.data)
    ensures forall m :: m in Built(env, source) && "archives/" <= m.name ==>
      exists e :: e in source.archives && e.regular && !e.symlink
        && m.name == "archives/" + e.path && m.data == Some(e.data)
  {
    var infos, kept := Built(env, source), KeptArchives(source);
    forall e | e in source.archives && e.regular && !e.symlink ensures HasMember(infos, "archives/" + e.path, e.data) {
      KeptArchivesAre(source, e);
      var n :| 0 <= n < |kept| && kept[n] == e;
      ArchiveIsMember(env, source, n);
    }
    forall m | m in infos && "archives/" <= m.name
      ensures exists e ::
        e in source.archives && e.regular && !e.symlink
        && m.name == "archives/" + e.path && m.data == Some(e.data)
    {
      var i :| 0 <= i < |infos| && infos[i] == m;
      var e := ArchiveOf(env, source, i);
      KeptArchivesAre(source, e);
    }
  }

  /** Lines 245-311: select the files, list them, write them. */
  method CreateArchive(env: Env, source: Source) returns (archive: Archive)
    ensures archive == Built(env, source)
    ensures HasMember(archive, "database/partyops.db", source.snapshot)
    ensures HasMember(archive, "config/config.json", source.config)
    ensures forall e :: e in source.attachments && e.regular && !e.symlink && !IsComponent(".incoming", e.path) ==>
      HasMember(archive, "attachments/" + e.path, e.data)
    ensures forall m :: m in archive && "attachments/" <= m.name ==>
      exists e :: e in source.attachments && e.regular && !e.symlink && !IsComponent(".incoming", e.path)
        && m.name == "attachments/" + e.path && m.data == Some(e.data)
    ensures forall e :: e in source.archives && e.regular && !e.symlink ==>
      HasMember(archive, "archives/" + e.path, e.data)
    ensures forall m :: m in archive && "archives/" <= m.name ==>
      exists e :: e in source.archives && e.regular && !e.symlink
        && m.name == "archives/" + e.path && m.data == Some(e.data)
  {
    BuiltHasFixed(env, source);
    BuiltHasAttachments(env, source);
    BuiltHasArchives(env, source);
    ghost var database := [(DATABASE, source.snapshot)];
    var attachments := Select(source.attachments, KeptAttachment);
    var archives := Select(source.archives, KeptArchive);
    var items := [ItemFor(env, (DATABASE, source.snapshot))];
    archive := [Stored(env, REGULAR, (DATABASE, source.snapshot))];
    items, archive := AppendFiles(env, ATTACHMENTS, attachments, database, items, archive);
    items, archive := AppendFiles(env, ARCHIVES, archives, database + Named(ATTACHMENTS, attachments), items, archive);
    var manifest := Manifest("partyops-backup", Some(FORMAT_VERSION), source.schema, Some(items));
    archive := archive + [Stored(env, 0, (CONFIG, source.config))];
    archive := archive + [Stored(env, 0, (MANIFEST, env.dump(manifest)))];
  }

  /** The archive has a member of that name with that content. */
  predicate HasMember(archive: Archive, name: string, data: Bytes) {
    exists m :: m in archive && m.name == name && m.data == Some(data)
  }

  // ---------------------------------------------------------------- the file system

  /** The file system that takes two paths for one when they fold alike: its key is the folded path. */
  function PlaceOf(fs: Folding): Place {
    (path: string) => fs.Fold(path)
  }

  /** A file system where case matters. */
  const EXACT: Folding := Folding((c: char) => [c])

  lemma {:induction false} ExactFold(s: string)
    ensures EXACT.Fold(s) == s
  {
    if s == [] {
    } else {
      ExactFold(s[1..]);
      assert s == [s[0]] + s[1..];
    }
  }

  /** As in any file tree, no file lies below another file, whatever the file system takes for one path. */
  predicate IsTree(fs: Folding, entries: seq<Entry>) {
    forall e, b, above :: e in entries && b in entries && above in Above(b.path) ==> fs.Fold(e.path) != fs.Fold(above)
  }

  /** The store is one of files and directories for the file system it is restored to. */
  ghost predicate Suits(fs: Folding, folding: Folding, source: Source) {
    && fs.Valid() && TellsApart(PlaceOf(fs), NamesOf(folding))
    && IsTree(fs, KeptAttachments(source)) && IsTree(fs, KeptArchives(source))
  }

  /** Where case matters a store that is a tree suits. */
  lemma ExactSuits(folding: Folding, source: Source)
    requires forall a, b :: a in KeptAttachments(source) && b in KeptAttachments(source) ==> a.path !in Above(b.path)
    requires forall a, b :: a in KeptArchives(source) && b in KeptArchives(source) ==> a.path !in Above(b.path)
    ensures Suits(EXACT, folding, source)
  {
    forall s: string ensures EXACT.Fold(s) == s {
      ExactFold(s);
    }
  }

  /** A file system that folds paths as the collision keys do tells enough apart. */
  lemma FoldingSuits(folding: Folding, source: Source)
    requires folding.Valid() && IsTree(folding, KeptAttachments(source)) && IsTree(folding, KeptArchives(source))
    ensures Suits(folding, folding, source)
  {
  }

  lemma FoldBelow(fs: Folding, dir: string, path: string)
    requires fs.Valid() && Plain(dir)
    ensures fs.Fold(dir) == dir && fs.Fold(dir + "/" + path) == dir + "/" + fs.Fold(path)
  {
    fs.FoldPlain(dir);
    fs.FoldPlain("/");
    fs.FoldConcat(dir + "/", path);
    fs.FoldConcat(dir, "/");
  }

  lemma AttachmentStart(fs: Folding, source: Source, i: nat)
    requires fs.Valid() && KindAt(source, i) == Attachment
    ensures KeyFits(Attachment, fs.Fold(NameAt(source, i)))
  {
    var e := AttachmentEntry(source, i);
    KeyStart(ATTACHMENTS, e.path, fs);
  }

  lemma ArchiveStart(fs: Folding, source: Source, i: nat)
    requires fs.Valid() && KindAt(source, i) == ArchiveFile
    ensures KeyFits(ArchiveFile, fs.Fold(NameAt(source, i)))
  {
    var e := ArchiveEntry(source, i);
    KeyStart(ARCHIVES, e.path, fs);
  }

  lemma PlaceFits(fs: Folding, source: Source, i: nat)
    requires fs.Valid()
    ensures KeyFits(KindAt(source, i), fs.Fold(NameAt(source, i)))
  {
    match KindAt(source, i)
    case Database => DatabaseName(fs);
    case Attachment => AttachmentStart(fs, source, i);
    case ArchiveFile => ArchiveStart(fs, source, i);
    case Config => ConfigName(fs);
    case TheManifest => ManifestName(fs);
  }

  // ---------------------------------------------------------------- no file above another

  lemma AboveIsFront(a: string, b: string)
    requires a in Above(b)
    ensures |a| < |b| && b[..|a|] == a && b[|a|] == '/'
  {
    var i :| 0 <= i < |b| && b[i] == '/' && b[..i] == a;
  }

  /** A name above another folds to a part of what the other folds to. */
  lemma AboveFolds(fs: Folding, a: string, b: string)
    requires fs.Valid() && a in Above(b)
    ensures fs.Fold(a) < fs.Fold(b)
  {
    AboveIsFront(a, b);
    fs.FoldConcat(a, b[|a|..]);
    assert b == a + b[|a|..];
  }

  lemma AboveBelow(dir: string, a: string, b: string)
    requires dir + "/" + a in Above(dir + "/" + b)
    ensures a in Above(b)
  {
    var x, y := dir + "/" + a, dir + "/" + b;
    AboveIsFront(x, y);
    assert b[..|a|] == y[..|x|][|dir| + 1..];
    assert b[|a|] == y[|x|];
  }

  /** Above a path in a directory are the directory and what is above the path in it. */
  lemma AboveInDirectory(dir: string, path: string, above: string)
    requires '/' !in dir && above in Above(dir + "/" + path)
    ensures above == dir || (|above| > |dir| && above == dir + "/" + above[|dir| + 1..])
  {
    var name := dir + "/" + path;
    AboveIsFront(above, name);
    assert forall n :: 0 <= n < |dir| ==> name[n] == dir[n];
    assert above[..|dir|] == name[..|dir|] == dir;
    if |above| > |dir| {
      assert above[|dir|] == name[|dir|] == '/';
    }
  }

  lemma TreeNotAbove(fs: Folding, dir: string, entries: seq<Entry>, i: nat, j: nat, above: string)
    requires fs.Valid() && IsTree(fs, entries) && i < |entries| && j < |entries| && Plain(dir) && '/' !in dir
    requires above in Above(dir + "/" + entries[j].path)
    ensures fs.Fold(dir + "/" + entries[i].path) != fs.Fold(above)
  {
    AboveInDirectory(dir, entries[j].path, above);
    FoldBelow(fs, dir, entries[i].path);
    if above != dir {
      var rest := above[|dir| + 1..];
      AboveBelow(dir, rest, entries[j].path);
      FoldBelow(fs, dir, rest);
      PathsDiffer(fs, dir, entries, i, j, rest);
    }
  }

  lemma PathsDiffer(fs: Folding, dir: string, entries: seq<Entry>, i: nat, j: nat, rest: string)
    requires IsTree(fs, entries) && i < |entries| && j < |entries| && rest in Above(entries[j].path)
    ensures dir + "/" + fs.Fold(entries[i].path) != dir + "/" + fs.Fold(rest)
  {
    assert entries[i] in entries && entries[j] in entries;
    if dir + "/" + fs.Fold(entries[i].path) == dir + "/" + fs.Fold(rest) {
      SameBelow(dir, fs.Fold(entries[i].path), fs.Fold(rest));
    }
  }

  lemma SameBelow(dir: string, a: string, b: string)
    requires dir + "/" + a == dir + "/" + b
    ensures a == b
  {
    assert a == (dir + "/" + a)[|dir| + 1..];
  }

  lemma AttachmentsNotAbove(fs: Folding, source: Source, i: nat, j: nat, above: string)
    requires fs.Valid() && IsTree(fs, KeptAttachments(source)) && above in Above(NameAt(source, j))
    requires KindAt(source, i) == Attachment && KindAt(source, j) == Attachment
    ensures fs.Fold(NameAt(source, i)) != fs.Fold(above)
  {
    TreeNotAbove(fs, ATTACHMENTS, KeptAttachments(source), i - 1, j - 1, above);
  }

  lemma ArchivesNotAbove(fs: Folding, source: Source, i: nat, j: nat, above: string)
    requires fs.Valid() && IsTree(fs, KeptArchives(source)) && above in Above(NameAt(source, j))
    requires KindAt(source, i) == ArchiveFile && KindAt(source, j) == ArchiveFile
    ensures fs.Fold(NameAt(source, i)) != fs.Fold(above)
  {
    var a := |KeptAttachments(source)|;
    TreeNotAbove(fs, ARCHIVES, KeptArchives(source), i - 1 - a, j - 1 - a, above);
  }

  /** What folds like a name above another is of the same kind: the kind shows in the first two characters. */
  lemma AboveIsOfOneKind(fs: Folding, source: Source, i: nat, j: nat, above: string)
    requires fs.Valid() && above in Above(NameAt(source, j)) && fs.Fold(NameAt(source, i)) == fs.Fold(above)
    ensures KindAt(source, i) == KindAt(source, j) && i != j
  {
    PlaceFits(fs, source, i);
    PlaceFits(fs, source, j);
    AboveFolds(fs, above, NameAt(source, j));
  }

  lemma NoFileAboveAnother(env: Env, folding: Folding, fs: Folding, source: Source, i: nat, j: nat, above: string)
    requires Suits(fs, folding, source) && i < |Built(env, source)| && j < |Built(env, source)|
    requires above in Above(NameAt(source, j))
    ensures fs.Fold(NameAt(source, i)) != fs.Fold(above)
  {
    if fs.Fold(NameAt(source, i)) == fs.Fold(above) {
      AboveIsOfOneKind(fs, source, i, j, above);
      if KindAt(source, i) == Attachment {
        AttachmentsNotAbove(fs, source, i, j, above);
      } else if KindAt(source, i) == ArchiveFile {
        ArchivesNotAbove(fs, source, i, j, above);
      } else {
        OneOfItsKind(env, source, i, j);
      }
    }
  }

  lemma {:induction false} DirectoryIsSomeMembers(place: Place, infos: Archive, key: string) returns (j: int)
    requires key in AllDirectories(place, infos)
    ensures 0 <= j < |infos| && key in DirectoriesOf(place, infos[j])
  {
    j := |infos| - 1;
    if key !in DirectoriesOf(place, infos[j]) {
      j := DirectoryIsSomeMembers(place, infos[..|infos| - 1], key);
    }
  }

  lemma BuiltIsReadable(env: Env, folding: Folding, source: Source, i: nat)
    requires Ready(env, folding, source) && i < |Built(env, source)|
    ensures var m := Built(env, source)[i]; m.data.Some? && !IsDirectory(m.name) && m.name == NameAt(source, i)
  {
    BuiltAt(env, source, i);
    NameFits(env, folding, source, i);
  }

  lemma BuiltFileIsNoDirectory(env: Env, folding: Folding, fs: Folding, source: Source, key: string)
    requires Ready(env, folding, source) && Suits(fs, folding, source)
    requires key in AllFiles(PlaceOf(fs), Built(env, source))
    ensures key !in AllDirectories(PlaceOf(fs), Built(env, source))
  {
    var infos, place := Built(env, source), PlaceOf(fs);
    if key in AllDirectories(place, infos) {
      var i := FileIsSomeMembers(place, infos, key);
      var j := DirectoryIsSomeMembers(place, infos, key);
      BuiltIsReadable(env, folding, source, i);
      BuiltIsReadable(env, folding, source, j);
      var above :| above in Above(Candidate(infos[j].name)) && place(above) == key;
      NoFileAboveAnother(env, folding, fs, source, i, j, above);
    }
  }

  lemma BuiltIsExtractable(env: Env, folding: Folding, fs: Folding, source: Source)
    requires Ready(env, folding, source) && Suits(fs, folding, source)
    ensures Extractable(PlaceOf(fs), Built(env, source))
  {
    var infos, place := Built(env, source), PlaceOf(fs);
    forall i | 0 <= i < |infos| ensures infos[i].data.Some? {
      BuiltIsReadable(env, folding, source, i);
    }
    forall key | key in AllFiles(place, infos) ensures key !in AllDirectories(place, infos) {
      BuiltFileIsNoDirectory(env, folding, fs, source, key);
    }
  }

  // ---------------------------------------------------------------- what is extracted

  predicate IsUnder(dir: string, path: string) {
    |path| > |dir| && path[..|dir| + 1] == dir + "/"
  }

  /** The files of the staging directory below one directory, by their keys in the file system. */
  function Below(staging: Staging, dir: string): RestoreSwap.Tree {
    map p | p in (set k | k in staging && IsUnder(dir, k) :: k[|dir| + 1..])
            && dir + "/" + p in staging && staging[dir + "/" + p].File?
      :: staging[dir + "/" + p].data
  }

  /** The tree holds each entry, where the file system finds its path, with its content, and nothing else. */
  predicate Holds(fs: Folding, tree: RestoreSwap.Tree, entries: seq<Entry>) {
    && (forall e :: e in entries ==> fs.Fold(e.path) in tree && tree[fs.Fold(e.path)] == e.data)
    && (forall p :: p in tree ==> exists e :: e in entries && fs.Fold(e.path) == p)
  }

  /** Where case matters that is at its own path. */
  lemma HoldsExactly(tree: RestoreSwap.Tree, entries: seq<Entry>)
    ensures Holds(EXACT, tree, entries)
       <==> ((forall e :: e in entries ==> e.path in tree && tree[e.path] == e.data)
             && (forall p :: p in tree ==> exists e :: e in entries && e.path == p))
  {
    forall e | e in entries ensures EXACT.Fold(e.path) == e.path {
      ExactFold(e.path);
    }
  }

  lemma BelowHas(staging: Staging, dir: string, path: string, data: Bytes)
    requires dir + "/" + path in staging && staging[dir + "/" + path] == File(data)
    ensures path in Below(staging, dir) && Below(staging, dir)[path] == data
  {
    var k := dir + "/" + path;
    assert IsUnder(dir, k) && k[|dir| + 1..] == path;
  }

  /** What the extraction of the written archive leaves. */
  predicate Extracted(env: Env, fs: Folding, source: Source, staging: Staging) {
    IsExtraction(PlaceOf(fs), Built(env, source), staging)
  }

  lemma ExtractedFile(env: Env, folding: Folding, fs: Folding, source: Source, staging: Staging, i: nat)
    requires Ready(env, folding, source) && Extracted(env, fs, source, staging) && i < |Built(env, source)|
    ensures fs.Fold(NameAt(source, i)) in staging
    ensures Built(env, source)[i].data.Some?
    ensures staging[fs.Fold(NameAt(source, i))] == File(Built(env, source)[i].data.value)
  {
    BuiltIsReadable(env, folding, source, i);
    assert HasFile(PlaceOf(fs), Built(env, source)[i], staging);
  }

  lemma ExtractedName(env: Env, fs: Folding, source: Source, staging: Staging, key: string) returns (i: nat)
    requires Extracted(env, fs, source, staging) && key in staging && staging[key].File?
    ensures i < |Built(env, source)| && fs.Fold(NameAt(source, i)) == key
  {
    i := FileIsSomeMembers(PlaceOf(fs), Built(env, source), key);
    BuiltAt(env, source, i);
  }

  lemma DirectoryIsPlain(dir: string)
    requires dir == ATTACHMENTS || dir == ARCHIVES
    ensures Plain(dir) && '/' !in dir
  {
  }

  lemma FoundBelow(fs: Folding, staging: Staging, dir: string, path: string, data: Bytes)
    requires fs.Valid() && Plain(dir) && fs.Fold(dir + "/" + path) in staging
    requires staging[fs.Fold(dir + "/" + path)] == File(data)
    ensures fs.Fold(path) in Below(staging, dir) && Below(staging, dir)[fs.Fold(path)] == data
  {
    FoldBelow(fs, dir, path);
    BelowHas(staging, dir, fs.Fold(path), data);
  }

  lemma AttachmentExtracted(env: Env, folding: Folding, fs: Folding, source: Source, staging: Staging, n: nat)
    requires Ready(env, folding, source) && fs.Valid() && Extracted(env, fs, source, staging)
    requires n < |KeptAttachments(source)|
    ensures var e, tree := KeptAttachments(source)[n], Below(staging, ATTACHMENTS);
            fs.Fold(e.path) in tree && tree[fs.Fold(e.path)] == e.data
  {
    var e := KeptAttachments(source)[n];
    AttachmentAt(env, source, n);
    ExtractedFile(env, folding, fs, source, staging, n + 1);
    DirectoryIsPlain(ATTACHMENTS);
    FoundBelow(fs, staging, ATTACHMENTS, e.path, e.data);
  }

  lemma ArchiveExtracted(env: Env, folding: Folding, fs: Folding, source: Source, staging: Staging, n: nat)
    requires Ready(env, folding, source) && fs.Valid() && Extracted(env, fs, source, staging)
    requires n < |KeptArchives(source)|
    ensures var e, tree := KeptArchives(source)[n], Below(staging, ARCHIVES);
            fs.Fold(e.path) in tree && tree[fs.Fold(e.path)] == e.data
  {
    var e := KeptArchives(source)[n];
    ArchiveAt(env, source, n);
    ExtractedFile(env, folding, fs, source, staging, |KeptAttachments(source)| + n + 1);
    DirectoryIsPlain(ARCHIVES);
    FoundBelow(fs, staging, ARCHIVES, e.path, e.data);
  }

  lemma StartsWith(dir: string, rest: string)
    requires |dir| >= 2
    ensures (dir + "/" + rest)[0] == dir[0] && (dir + "/" + rest)[1] == dir[1]
  {
  }

  lemma OtherKindElsewhere(fs: Folding, source: Source, dir: string, i: nat, p: string)
    requires fs.Valid() && (dir == ATTACHMENTS || dir == ARCHIVES)
    requires KindAt(source, i) != if dir == ATTACHMENTS then Attachment else ArchiveFile
    ensures fs.Fold(NameAt(source, i)) != dir + "/" + p
  {
    PlaceFits(fs, source, i);
    StartsWith(dir, p);
  }

  lemma PathFrom(fs: Folding, dir: string, path: string, p: string)
    requires fs.Valid() && Plain(dir) && fs.Fold(dir + "/" + path) == dir + "/" + p
    ensures fs.Fold(path) == p
  {
    FoldBelow(fs, dir, path);
    SameBelow(dir, fs.Fold(path), p);
  }

  /** What is found below one of the two directories comes from an entry of its kind. */
  lemma KindBelow(env: Env, fs: Folding, source: Source, staging: Staging, dir: string, p: string) returns (i: nat)
    requires fs.Valid() && Extracted(env, fs, source, staging) && p in Below(staging, dir)
    requires dir == ATTACHMENTS || dir == ARCHIVES
    ensures i < |Built(env, source)| && fs.Fold(NameAt(source, i)) == dir + "/" + p
    ensures KindAt(source, i) == if dir == ATTACHMENTS then Attachment else ArchiveFile
  {
    i := ExtractedName(env, fs, source, staging, dir + "/" + p);
    if KindAt(source, i) != if dir == ATTACHMENTS then Attachment else ArchiveFile {
      OtherKindElsewhere(fs, source, dir, i, p);
      assert false;
    }
  }

  lemma OnlyAttachmentExtracted(env: Env, fs: Folding, source: Source, staging: Staging, p: string)
    requires fs.Valid() && Extracted(env, fs, source, staging) && p in Below(staging, ATTACHMENTS)
    ensures exists e :: e in KeptAttachments(source) && fs.Fold(e.path) == p
  {
    var i := KindBelow(env, fs, source, staging, ATTACHMENTS, p);
    var e := AttachmentEntry(source, i);
    DirectoryIsPlain(ATTACHMENTS);
    PathFrom(fs, ATTACHMENTS, e.path, p);
  }

  lemma OnlyArchiveExtracted(env: Env, fs: Folding, source: Source, staging: Staging, p: string)
    requires fs.Valid() && Extracted(env, fs, source, staging) && p in Below(staging, ARCHIVES)
    ensures exists e :: e in KeptArchives(source) && fs.Fold(e.path) == p
  {
    var i := KindBelow(env, fs, source, staging, ARCHIVES, p);
    var e := ArchiveEntry(source, i);
    DirectoryIsPlain(ARCHIVES);
    PathFrom(fs, ARCHIVES, e.path, p);
  }

  lemma ExtractedAttachments(env: Env, folding: Folding, fs: Folding, source: Source, staging: Staging)
    requires Ready(env, folding, source) && fs.Valid() && Extracted(env, fs, source, staging)
    ensures Holds(fs, Below(staging, ATTACHMENTS), KeptAttachments(source))
  {
    var tree, entries := Below(staging, ATTACHMENTS), KeptAttachments(source);
    forall e | e in entries ensures fs.Fold(e.path) in tree && tree[fs.Fold(e.path)] == e.data {
      var n :| 0 <= n < |entries| && entries[n] == e;
      AttachmentExtracted(env, folding, fs, source, staging, n);
    }
    forall p | p in tree ensures exists e :: e in entries && fs.Fold(e.path) == p {
      OnlyAttachmentExtracted(env, fs, source, staging, p);
    }
  }

  lemma ExtractedArchives(env: Env, folding: Folding, fs: Folding, source: Source, staging: Staging)
    requires Ready(env, folding, source) && fs.Valid() && Extracted(env, fs, source, staging)
    ensures Holds(fs, Below(staging, ARCHIVES), KeptArchives(source))
  {
    var tree, entries := Below(staging, ARCHIVES), KeptArchives(source);
    forall e | e in entries ensures fs.Fold(e.path) in tree && tree[fs.Fold(e.path)] == e.data {
      var n :| 0 <= n < |entries| && entries[n] == e;
      ArchiveExtracted(env, folding, fs, source, staging, n);
    }
    forall p | p in tree ensures exists e :: e in entries && fs.Fold(e.path) == p {
      OnlyArchiveExtracted(env, fs, source, staging, p);
    }
  }

  // ---------------------------------------------------------------- backup, then restore

  /** What lines 578-580 find in the staging directory. */
  function Staged(staging: Staging): RestoreSwap.Extracted
    requires DATABASE in staging && staging[DATABASE].File?
  {
    RestoreSwap.Extracted(
      staging[DATABASE].data,
      StagedTree(staging, ATTACHMENTS),
      StagedTree(staging, ARCHIVES))
  }

  function StagedTree(staging: Staging, dir: string): RestoreSwap.TreeSlot {
    if dir in staging then Some(Below(staging, dir)) else None
  }

  lemma {:induction false} DirectoryOfMember(place: Place, infos: Archive, i: nat, key: string)
    requires i < |infos| && key in DirectoriesOf(place, infos[i])
    ensures key in AllDirectories(place, infos)
  {
    if i < |infos| - 1 {
      DirectoryOfMember(place, infos[..|infos| - 1], i, key);
    }
  }

  lemma DirectoryIsAbove(dir: string, path: string)
    ensures dir in Above(dir + "/" + path)
  {
    var name := dir + "/" + path;
    assert name[|dir|] == '/' && name[..|dir|] == dir;
  }

  /** The extraction makes the directories above every file. */
  lemma DirectoryIsMade(place: Place, infos: Archive, staging: Staging, i: nat, dir: string)
    requires IsExtraction(place, infos, staging) && i < |infos| && !IsDirectory(infos[i].name)
    requires dir in Above(infos[i].name)
    ensures place(dir) in staging
  {
    assert place(dir) in DirectoriesOf(place, infos[i]);
    DirectoryOfMember(place, infos, i, place(dir));
  }

  lemma DirectoryIsStaged(env: Env, folding: Folding, fs: Folding, source: Source, staging: Staging,
                          dir: string, p: string)
    requires Ready(env, folding, source) && fs.Valid() && Extracted(env, fs, source, staging)
    requires p in Below(staging, dir) && (dir == ATTACHMENTS || dir == ARCHIVES)
    ensures dir in staging
  {
    var i := KindBelow(env, fs, source, staging, dir, p);
    var e: Entry;
    if dir == ATTACHMENTS {
      e := AttachmentEntry(source, i);
    } else {
      e := ArchiveEntry(source, i);
    }
    DirectoryIsAbove(dir, e.path);
    BuiltIsReadable(env, folding, source, i);
    DirectoryIsMade(PlaceOf(fs), Built(env, source), staging, i, dir);
    DirectoryIsPlain(dir);
    fs.FoldPlain(dir);
  }

  /** A tree that was not staged has no files, so making the empty directory installs it. */
  lemma MadeIsBelow(env: Env, folding: Folding, fs: Folding, source: Source, staging: Staging, dir: string)
    requires Ready(env, folding, source) && fs.Valid() && Extracted(env, fs, source, staging)
    requires dir == ATTACHMENTS || dir == ARCHIVES
    ensures RestoreSwap.Made(StagedTree(staging, dir)) == Below(staging, dir)
  {
    if dir !in staging {
      forall p ensures p !in Below(staging, dir) {
        if p in Below(staging, dir) {
          DirectoryIsStaged(env, folding, fs, source, staging, dir, p);
        }
      }
      assert Below(staging, dir) == map[];
    }
  }

  lemma StagedDatabase(env: Env, folding: Folding, fs: Folding, source: Source, staging: Staging)
    requires Ready(env, folding, source) && fs.Valid() && Extracted(env, fs, source, staging)
    ensures DATABASE in staging && staging[DATABASE] == File(source.snapshot)
  {
    ExtractedFile(env, folding, fs, source, staging, 0);
    BuiltAt(env, source, 0);
    DatabaseName(fs);
  }

  lemma StagedIsSource(env: Env, folding: Folding, fs: Folding, source: Source, staging: Staging)
    requires Ready(env, folding, source) && fs.Valid() && Extracted(env, fs, source, staging)
    ensures DATABASE in staging && staging[DATABASE].File? && Staged(staging).db == source.snapshot
    ensures Holds(fs, RestoreSwap.Made(Staged(staging).attachments), KeptAttachments(source))
    ensures Holds(fs, RestoreSwap.Made(Staged(staging).archives), KeptArchives(source))
  {
    StagedDatabase(env, folding, fs, source, staging);
    ExtractedAttachments(env, folding, fs, source, staging);
    ExtractedArchives(env, folding, fs, source, staging);
    MadeIsBelow(env, folding, fs, source, staging, ATTACHMENTS);
    MadeIsBelow(env, folding, fs, source, staging, ARCHIVES);
  }

  /** Write, verify and extract: every stage accepts what the one before made. */
  method BackupAndExtract(env: Env, folding: Folding, fs: Folding, source: Source) returns (staging: Staging)
    requires Ready(env, folding, source) && Suits(fs, folding, source)
    ensures Extracted(env, fs, source, staging)
  {
    BuiltIsAcceptable(env, folding, source);
    BuiltIsExtractable(env, folding, fs, source);
    var archive := CreateArchive(env, source);
    var verified := VerifyBackup(env, archive);
    assert verified.Ok?;
    var extracted := SafeExtract(env, PlaceOf(fs), archive);
    staging := extracted.value;
  }

  lemma HeldAttachments(fs: Folding, source: Source, tree: RestoreSwap.Tree)
    requires Holds(fs, tree, KeptAttachments(source))
    ensures forall e :: e in source.attachments && e.regular && !e.symlink && !IsComponent(".incoming", e.path) ==>
      fs.Fold(e.path) in tree && tree[fs.Fold(e.path)] == e.data
    ensures forall p :: p in tree ==>
      exists e :: e in source.attachments && e.regular && !e.symlink && !IsComponent(".incoming", e.path)
        && fs.Fold(e.path) == p
  {
    forall e: Entry
      ensures e in KeptAttachments(source)
         <==> e in source.attachments && e.regular && !e.symlink && !IsComponent(".incoming", e.path)
    {
      KeptAttachmentsAre(source, e);
    }
  }

  lemma HeldArchives(fs: Folding, source: Source, tree: RestoreSwap.Tree)
    requires Holds(fs, tree, KeptArchives(source))
    ensures forall e :: e in source.archives && e.regular && !e.symlink ==>
      fs.Fold(e.path) in tree && tree[fs.Fold(e.path)] == e.data
    ensures forall p :: p in tree ==>
      exists e :: e in source.archives && e.regular && !e.symlink && fs.Fold(e.path) == p
  {
    forall e: Entry ensures e in KeptArchives(source) <==> e in source.archives && e.regular && !e.symlink {
      KeptArchivesAre(source, e);
    }
  }

  /**
   The round trip: create an archive of a store, verify it, extract it and swap it in, on a file
   system that minds case or folds it. Every stage succeeds, the live database is the snapshot
   (after schema creation), and the live attachments and archives are exactly the kept files.
   */
  method BackupThenRestore(env: Env, folding: Folding, fs: Folding, source: Source,
                           data: RestoreSwap.DataDirectory, faults: RestoreSwap.Faults)
    requires Ready(env, folding, source) && Suits(fs, folding, source) && faults.failing == None
    modifies data
    ensures data.db == Some(faults.migrate(source.snapshot))
    ensures data.attachments.Some? && Holds(fs, data.attachments.value, KeptAttachments(source))
    ensures data.archives.Some? && Holds(fs, data.archives.value, KeptArchives(source))
    ensures forall e :: e in source.attachments && e.regular && !e.symlink && !IsComponent(".incoming", e.path) ==>
      fs.Fold(e.path) in data.attachments.value && data.attachments.value[fs.Fold(e.path)] == e.data
    ensures forall p :: p in data.attachments.value ==>
      exists e :: e in source.attachments && e.regular && !e.symlink && !IsComponent(".incoming", e.path)
        && fs.Fold(e.path) == p
    ensures forall e :: e in source.archives && e.regular && !e.symlink ==>
      fs.Fold(e.path) in data.archives.value && data.archives.value[fs.Fold(e.path)] == e.data
    ensures forall p :: p in data.archives.value ==>
      exists e :: e in source.archives && e.regular && !e.symlink && fs.Fold(e.path) == p
    ensures data.Previous() == RestoreSwap.Store(None, None, None)
  {
    var staging := BackupAndExtract(env, folding, fs, source);
    StagedIsSource(env, folding, fs, source, staging);
    var ok := data.Swap(Staged(staging), faults);
    HeldAttachments(fs, source, data.attachments.value);
    HeldArchives(fs, source, data.archives.value);
  }
}
