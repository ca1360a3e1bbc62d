/**
 The backup archive and its strict acceptor (`_validated_zip_infos`, `verify_backup`).

 A ZIP is the sequence of its members. The hash, the JSON codec, the deflate size and the
 SQLite integrity check are parameters of the environment.
 */
module BackupArchive {
  import opened Wrappers
  import opened PortableNames

  const REGULAR := 0x8000   // stat.S_IFREG
  const DIRECTORY := 0x4000 // stat.S_IFDIR
  const STORED := 0         // zipfile.ZIP_STORED
  const DEFLATED := 8       // zipfile.ZIP_DEFLATED
  const MIB := 1024 * 1024
  const MAX_MANIFEST_BYTES := MIB
  const FORMAT_VERSION := 1
  const SCHEMA_VERSION := "0024"

  const MANIFEST := "manifest.json"
  const CONFIG := "config/config.json"
  const DATABASE := "database/partyops.db"

  /** `data` is what reading the member yields, `None` when its check sum is wrong. */
  datatype Member = Member(
    name: string, mode: int, encrypted: bool, compression: int,
    fileSize: nat, compressSize: nat, data: Option<Bytes>)

  type Archive = seq<Member>

  datatype Limits = Limits(maxMembers: nat, expanded: nat)

  /** One item of the manifest's `files`; a field is `None` when its conversion raises. */
  datatype Item =
    | NotAnObject
    | Item(path: string, size: Option<int>, sha256: Option<string>)

  /** The manifest as read from JSON; `sha256` fields are already in lower case. */
  datatype Manifest = Manifest(
    format: string, formatVersion: Option<int>, schema: string, files: Option<seq<Item>>)

  /** The portability test of `_portable_zip_name` and its collision key. */
  datatype Names = Names(portable: string -> bool, key: string -> string)

  function NamesOf(folding: Folding): Names {
    Names((raw: string) => Portable(raw, folding), (raw: string) => CollisionKey(raw, folding))
  }

  datatype Env = Env(
    names: Names,
    limits: Limits,
    hash: Bytes -> string,
    parse: Bytes -> Option<Manifest>,
    dump: Manifest -> Bytes,
    deflated: Bytes -> nat,
    intact: Bytes -> bool)

  datatype Problem =
    | MemberLimit | PathInvalid | ExpandedLimit | CompressionInvalid
    | ManifestInvalid | FormatInvalid | TooNew | SchemaTooNew
    | HashMismatch | DatabaseMissing | ExtraFiles | DatabaseCorrupt

  // ---------------------------------------------------------------- member validation

  function Key(env: Env, m: Member): string {
    env.names.key(m.name)
  }

  predicate PathOk(env: Env, m: Member) {
    && env.names.portable(m.name)
    && (m.mode == 0 || m.mode == REGULAR || m.mode == DIRECTORY)
    && !m.encrypted
    && (m.compression == STORED || m.compression == DEFLATED)
  }

  /** A small compressed size that declares a huge output. */
  predicate Bomb(m: Member) {
    m.fileSize > 100 * MIB && m.fileSize > (if m.compressSize < 1 then 1 else m.compressSize) * 1000
  }

  function TotalSize(infos: Archive): nat {
    if infos == [] then 0 else TotalSize(infos[..|infos| - 1]) + infos[|infos| - 1].fileSize
  }

  function Keys(env: Env, infos: Archive): (r: seq<string>)
    ensures |r| == |infos|
    ensures forall i :: 0 <= i < |r| ==> r[i] == Key(env, infos[i])
  {
    if infos == [] then [] else [Key(env, infos[0])] + Keys(env, infos[1..])
  }

  predicate Distinct(keys: seq<string>) {
    forall i, j :: 0 <= i < j < |keys| ==> keys[i] != keys[j]
  }

  lemma KeysDiffer(env: Env, infos: Archive, i: int, j: int)
    requires DistinctKeys(env, infos) && 0 <= i < |infos| && 0 <= j < |infos| && i != j
    ensures infos[i].name != infos[j].name && Key(env, infos[i]) != Key(env, infos[j])
  {
    var keys := Keys(env, infos);
    assert keys[i] != keys[j];
  }

  predicate DistinctKeys(env: Env, infos: Archive) {
    Distinct(Keys(env, infos))
  }

  /** What the acceptor demands of the members, without its loop. */
  predicate InfosOk(env: Env, infos: Archive) {
    && |infos| <= env.limits.maxMembers
    && (forall i :: 0 <= i < |infos| ==> PathOk(env, infos[i]) && !Bomb(infos[i]))
    && DistinctKeys(env, infos)
    && TotalSize(infos) <= env.limits.expanded
  }

  lemma {:induction false} TotalSizeGrows(infos: Archive, n: nat)
    requires n <= |infos|
    ensures TotalSize(infos[..n]) <= TotalSize(infos)
  {
    if n < |infos| {
      var front := infos[..|infos| - 1];
      TotalSizeGrows(front, n);
      assert front[..n] == infos[..n];
    } else {
      assert infos[..n] == infos;
    }
  }

  /** One more key keeps a distinct prefix distinct exactly when it is new. */
  lemma DistinctPrefix(keys: seq<string>, n: nat)
    requires n < |keys| && Distinct(keys[..n])
    ensures keys[..n + 1] == keys[..n] + [keys[n]]
    ensures Distinct(keys[..n + 1]) <==> keys[n] !in keys[..n]
    ensures keys[n] in keys[..n] ==> !Distinct(keys)
  {
    var longer := keys[..n + 1];
    if keys[n] in keys[..n] {
      var i :| 0 <= i < n && keys[..n][i] == keys[n];
      assert longer[i] == longer[n] && keys[i] == keys[n];
    } else {
      forall i, j | 0 <= i < j < |longer| ensures longer[i] != longer[j] {
        assert longer[i] == keys[..n][i];
        if j < n {
          assert longer[j] == keys[..n][j];
        }
      }
    }
  }

  /** The first n members pass the loop of `_validated_zip_infos`. */
  predicate Passes(env: Env, infos: Archive, n: nat)
    requires n <= |infos|
  {
    n == 0 || (&& Passes(env, infos, n - 1)
               && PathOk(env, infos[n - 1])
               && Key(env, infos[n - 1]) !in Keys(env, infos)[..n - 1]
               && TotalSize(infos[..n]) <= env.limits.expanded
               && !Bomb(infos[n - 1]))
  }

  lemma {:induction false} PassesEarlier(env: Env, infos: Archive, n: nat, m: nat)
    requires n <= m <= |infos| && Passes(env, infos, m)
    ensures Passes(env, infos, n)
  {
    if n < m {
      PassesEarlier(env, infos, n, m - 1);
    }
  }

  predicate FirstOk(env: Env, infos: Archive, n: nat)
    requires n <= |infos|
  {
    forall i :: 0 <= i < n ==> PathOk(env, infos[i]) && !Bomb(infos[i])
  }

  lemma FirstStep(env: Env, infos: Archive, n: nat)
    requires n < |infos|
    ensures FirstOk(env, infos, n + 1) <==> FirstOk(env, infos, n) && PathOk(env, infos[n]) && !Bomb(infos[n])
  {
  }

  lemma DistinctStep(keys: seq<string>, n: nat)
    requires n < |keys|
    ensures Distinct(keys[..n + 1]) <==> Distinct(keys[..n]) && keys[n] !in keys[..n]
  {
    if Distinct(keys[..n + 1]) {
      assert keys[..n + 1][..n] == keys[..n];
    }
    if Distinct(keys[..n]) {
      DistinctPrefix(keys, n);
    }
  }

  lemma {:induction false} PassesMeans(env: Env, infos: Archive, n: nat)
    requires n <= |infos|
    ensures Passes(env, infos, n)
       <==> FirstOk(env, infos, n) && Distinct(Keys(env, infos)[..n]) && TotalSize(infos[..n]) <= env.limits.expanded
  {
    if n == 0 {
    } else {
      PassesMeans(env, infos, n - 1);
      PassingMore(env, infos, n - 1);
    }
  }

  lemma PassingMore(env: Env, infos: Archive, n: nat)
    requires n < |infos|
    ensures var keys, limit := Keys(env, infos), env.limits.expanded;
      FirstOk(env, infos, n + 1) && Distinct(keys[..n + 1]) && TotalSize(infos[..n + 1]) <= limit
      <==> (&& FirstOk(env, infos, n) && Distinct(keys[..n]) && TotalSize(infos[..n]) <= limit
            && PathOk(env, infos[n]) && Key(env, infos[n]) !in keys[..n]
            && TotalSize(infos[..n + 1]) <= limit && !Bomb(infos[n]))
  {
    FirstStep(env, infos, n);
    TotalStep(infos, n);
    DistinctStep(Keys(env, infos), n);
  }

  lemma TotalStep(infos: Archive, n: nat)
    requires n < |infos|
    ensures TotalSize(infos[..n]) <= TotalSize(infos[..n + 1])
  {
    TotalSizeGrows(infos[..n + 1], n);
    assert infos[..n + 1][..n] == infos[..n];
  }

  lemma PassesAllIsInfosOk(env: Env, infos: Archive)
    ensures InfosOk(env, infos)
       <==> |infos| <= env.limits.maxMembers && Passes(env, infos, |infos|)
  {
    PassesMeans(env, infos, |infos|);
    assert infos[..|infos|] == infos && Keys(env, infos)[..|infos|] == Keys(env, infos);
  }

  /** The declared sizes add up. */
  lemma {:induction false} TotalSizeAdds(a: Archive, b: Archive)
    ensures TotalSize(a + b) == TotalSize(a) + TotalSize(b)
    ensures |a| == 1 ==> TotalSize(a) == a[0].fileSize
  {
    assert |a| == 1 ==> a[..0] == [];
    if b == [] {
      assert a + b == a;
    } else {
      TotalSizeAdds(a, b[..|b| - 1]);
      assert (a + b)[..|a + b| - 1] == a + b[..|b| - 1];
    }
  }

  /** What is demanded of each member: no more than 100 MiB, or no more than a thousandfold of what is stored. */
  predicate IsPlainMember(env: Env, m: Member) {
    && env.names.portable(m.name) && m.mode in {0, 0x8000, 0x4000} && !m.encrypted && m.compression in {0, 8}
    && (m.fileSize <= 104857600 || m.fileSize <= 1000 * m.compressSize || m.fileSize <= 1000)
  }

  lemma PlainMeans(env: Env, m: Member)
    ensures PathOk(env, m) && !Bomb(m) <==> IsPlainMember(env, m)
  {
  }

  lemma InfosMean(env: Env, infos: Archive)
    ensures InfosOk(env, infos)
       <==> (|infos| <= env.limits.maxMembers && TotalSize(infos) <= env.limits.expanded
             && (forall i :: 0 <= i < |infos| ==> IsPlainMember(env, infos[i]))
             && (forall i, j :: 0 <= i < j < |infos| ==> env.names.key(infos[i].name) != env.names.key(infos[j].name)))
  {
    forall i | 0 <= i < |infos|
      ensures PathOk(env, infos[i]) && !Bomb(infos[i]) <==> IsPlainMember(env, infos[i])
    {
      PlainMeans(env, infos[i]);
    }
    KeysMean(env, infos);
  }

  lemma KeysMean(env: Env, infos: Archive)
    ensures DistinctKeys(env, infos)
       <==> forall i, j :: 0 <= i < j < |infos| ==> env.names.key(infos[i].name) != env.names.key(infos[j].name)
  {
    var keys := Keys(env, infos);
    assert forall i :: 0 <= i < |infos| ==> keys[i] == env.names.key(infos[i].name);
  }

  /** The keys seen are those of the first n members. */
  ghost predicate SeenIs(seen: set<string>, keys: seq<string>, n: nat)
    requires n <= |keys|
  {
    forall key :: key in seen <==> key in keys[..n]
  }

  lemma SeenStep(seen: set<string>, keys: seq<string>, n: nat)
    requires n < |keys| && SeenIs(seen, keys, n)
    ensures SeenIs(seen + {keys[n]}, keys, n + 1)
  {
    assert keys[..n + 1] == keys[..n] + [keys[n]];
  }

  lemma SumStep(infos: Archive, n: nat)
    requires n < |infos|
    ensures TotalSize(infos[..n + 1]) == TotalSize(infos[..n]) + infos[n].fileSize
    ensures TotalSize(infos[..n + 1]) <= TotalSize(infos)
  {
    assert infos[..n + 1][..n] == infos[..n];
    TotalSizeGrows(infos, n + 1);
  }

  /** What one round of the loop decides. */
  lemma PassesStep(env: Env, infos: Archive, n: nat, seen: set<string>)
    requires n < |infos| && Passes(env, infos, n) && SeenIs(seen, Keys(env, infos), n)
    ensures Passes(env, infos, n + 1)
       <==> (PathOk(env, infos[n]) && Key(env, infos[n]) !in seen
             && TotalSize(infos[..n + 1]) <= env.limits.expanded && !Bomb(infos[n]))
  {
  }

  lemma PassesAll(env: Env, infos: Archive, n: nat)
    requires n < |infos|
    ensures Passes(env, infos, |infos|) ==> Passes(env, infos, n + 1)
  {
    if Passes(env, infos, |infos|) {
      PassesEarlier(env, infos, n + 1, |infos|);
    }
  }

  /** The loop of `_validated_zip_infos`. */
  method ScanMembers(env: Env, infos: Archive) returns (problem: Option<Problem>)
    ensures problem == None <==> Passes(env, infos, |infos|)
    ensures problem.Some? ==> problem.value in {PathInvalid, ExpandedLimit, CompressionInvalid}
    ensures problem == Some(ExpandedLimit) ==> TotalSize(infos) > env.limits.expanded
    ensures problem == Some(CompressionInvalid) ==> exists m :: m in infos && Bomb(m)
  {
    var seen: set<string> := {};
    var expanded := 0;
    for n := 0 to |infos|
      invariant Passes(env, infos, n)
      invariant SeenIs(seen, Keys(env, infos), n)
      invariant expanded == TotalSize(infos[..n])
    {
      var member := infos[n];
      SumStep(infos, n);
      PassesStep(env, infos, n, seen);
      PassesAll(env, infos, n);
      if !PathOk(env, member) || Key(env, member) in seen {
        return Some(PathInvalid);
      }
      SeenStep(seen, Keys(env, infos), n);
      seen := seen + {Key(env, member)};
      expanded := expanded + member.fileSize;
      if expanded > env.limits.expanded {
        return Some(ExpandedLimit);
      }
      if Bomb(member) {
        return Some(CompressionInvalid);
      }
    }
    problem := None;
  }

  /** `_validated_zip_infos` accepts exactly the archives that are `InfosOk`. */
  method ValidatedInfos(env: Env, infos: Archive) returns (problem: Option<Problem>)
    ensures problem == None <==> InfosOk(env, infos)
    ensures problem == None ==> forall m :: m in infos ==> IsPlainMember(env, m)
    ensures problem == Some(MemberLimit) <==> |infos| > env.limits.maxMembers
    ensures problem.Some? ==> problem.value in {MemberLimit, PathInvalid, ExpandedLimit, CompressionInvalid}
    ensures problem == Some(ExpandedLimit) ==> TotalSize(infos) > env.limits.expanded
    ensures problem == Some(CompressionInvalid) ==> exists m :: m in infos && Bomb(m)
  {
    PassesAllIsInfosOk(env, infos);
    InfosMean(env, infos);
    if |infos| > env.limits.maxMembers {
      return Some(MemberLimit);
    }
    problem := ScanMembers(env, infos);
  }

  // ---------------------------------------------------------------- verification

  predicate HasName(infos: Archive, name: string) {
    exists m :: m in infos && m.name == name
  }

  /** The member an archive opens for a name. */
  function Open(infos: Archive, name: string): (m: Member)
    requires HasName(infos, name)
    ensures m in infos && m.name == name
  {
    if infos[|infos| - 1].name == name then infos[|infos| - 1] else Open(infos[..|infos| - 1], name)
  }

  /** Python compares strings by code point. */
  predicate After(a: string, b: string) {
    if b == "" then a != ""
    else if a == "" then false
    else if a[0] != b[0] then a[0] > b[0]
    else After(a[1..], b[1..])
  }

  /** The two agree up to k, where b ends or has the smaller character. */
  predicate PartsAt(a: string, b: string, k: nat) {
    k < |a| && k <= |b| && a[..k] == b[..k] && (k == |b| || a[k] > b[k])
  }

  lemma PartsDeeper(a: string, b: string, k: nat)
    requires a != "" && b != "" && a[0] == b[0]
    ensures PartsAt(a, b, k + 1) <==> PartsAt(a[1..], b[1..], k)
  {
    if k + 1 <= |a| && k + 1 <= |b| {
      assert a[..k + 1] == [a[0]] + a[1..][..k] && b[..k + 1] == [b[0]] + b[1..][..k];
      assert a[1..][..k] == a[..k + 1][1..] && b[1..][..k] == b[..k + 1][1..];
    }
  }

  /** One string is after another exactly when it is greater where they part, or goes on where the other ends. */
  lemma {:induction false} AfterIff(a: string, b: string)
    ensures After(a, b) <==> exists k: nat :: PartsAt(a, b, k)
  {
    if b == "" {
      assert a != "" ==> PartsAt(a, b, 0);
    } else if a == "" {
    } else if a[0] != b[0] {
      assert a[0] > b[0] ==> PartsAt(a, b, 0);
      forall k: nat | PartsAt(a, b, k) ensures a[0] > b[0] {
        if k > 0 {
          assert a[..k][0] == b[..k][0];
        }
      }
    } else {
      AfterIff(a[1..], b[1..]);
      if k: nat :| PartsAt(a, b, k) {
        assert k > 0;
        PartsDeeper(a, b, k - 1);
      }
      if k: nat :| PartsAt(a[1..], b[1..], k) {
        PartsDeeper(a, b, k);
      }
    }
  }

  predicate FourDigits(s: string) {
    |s| == 4 && forall i :: 0 <= i < 4 ==> '0' <= s[i] <= '9'
  }

  function Number(s: string): nat
    requires FourDigits(s)
  {
    1000 * (s[0] as int - '0' as int) + 100 * (s[1] as int - '0' as int)
    + 10 * (s[2] as int - '0' as int) + (s[3] as int - '0' as int)
  }

  /** Schema versions of four digits are compared as numbers. */
  lemma SchemaIsNewer(schema: string)
    requires FourDigits(schema)
    ensures After(schema, SCHEMA_VERSION) <==> Number(schema) > 24
  {
    var s, v := schema, SCHEMA_VERSION;
    assert After(s, v) <==>
      s[0] > '0' || (s[0] == '0' && (s[1] > '0' || (s[1] == '0' && (s[2] > '2' || (s[2] == '2' && s[3] > '4'))))) by {
      assert After(s, v) <==> s[0] > '0' || (s[0] == '0' && After(s[1..], v[1..]));
      assert After(s[1..], v[1..]) <==> s[1] > '0' || (s[1] == '0' && After(s[1..][1..], v[1..][1..]));
      assert s[1..][1..] == s[2..] && v[1..][1..] == v[2..] == "24";
      assert After(s[2..], v[2..]) <==> s[2] > '2' || (s[2] == '2' && After(s[2..][1..], v[2..][1..]));
      assert s[2..][1..] == s[3..] && v[2..][1..] == "4";
      assert After(s[3..], "4") <==> s[3] > '4' || (s[3] == '4' && After(s[3..][1..], "4"[1..]));
      assert s[3..][1..] == "";
    }
  }

  /** A listed file is present with exactly the listed size and hash. */
  predicate ItemOk(env: Env, infos: Archive, item: Item) {
    && item.Item? && item.path != "" && HasName(infos, item.path)
    && var data := Open(infos, item.path).data;
       data.Some? && item.size == Some(|data.value|)
       && item.sha256 == Some(env.hash(data.value)) && |env.hash(data.value)| == 64
  }

  function ListedPaths(items: seq<Item>): set<string> {
    set i | 0 <= i < |items| && items[i].Item? :: items[i].path
  }

  predicate DistinctPaths(items: seq<Item>) {
    forall i, j :: 0 <= i < j < |items| && items[i].Item? && items[j].Item? ==> items[i].path != items[j].path
  }

  predicate ManifestReadable(env: Env, infos: Archive) {
    && HasName(infos, MANIFEST) && Open(infos, MANIFEST).fileSize <= MAX_MANIFEST_BYTES
    && Open(infos, MANIFEST).data.Some? && env.parse(Open(infos, MANIFEST).data.value).Some?
  }

  function ManifestOf(env: Env, infos: Archive): Manifest
    requires ManifestReadable(env, infos)
  {
    env.parse(Open(infos, MANIFEST).data.value).value
  }

  predicate FormatTooNew(manifest: Manifest) {
    && manifest.format == "partyops-backup"
    && manifest.formatVersion.Some? && manifest.formatVersion.value > FORMAT_VERSION
  }

  predicate NewerSchema(manifest: Manifest) {
    && manifest.format == "partyops-backup"
    && manifest.formatVersion.Some? && 1 <= manifest.formatVersion.value <= FORMAT_VERSION
    && After(manifest.schema, SCHEMA_VERSION)
  }

  predicate HeaderOk(manifest: Manifest) {
    && manifest.format == "partyops-backup"
    && manifest.formatVersion.Some? && 1 <= manifest.formatVersion.value <= FORMAT_VERSION
    && !After(manifest.schema, SCHEMA_VERSION)
    && manifest.files.Some?
  }

  predicate ItemsOk(env: Env, infos: Archive, items: seq<Item>) {
    DistinctPaths(items) && forall i :: 0 <= i < |items| ==> ItemOk(env, infos, items[i])
  }

  predicate AllListed(infos: Archive, items: seq<Item>) {
    forall m :: m in infos && !IsDirectory(m.name) ==>
      m.name in ListedPaths(items) || m.name == MANIFEST || m.name == CONFIG
  }

  predicate DatabaseIntact(env: Env, infos: Archive) {
    && HasName(infos, DATABASE) && Open(infos, DATABASE).data.Some?
    && env.intact(Open(infos, DATABASE).data.value)
  }

  predicate FilesOk(env: Env, infos: Archive, items: seq<Item>) {
    && ItemsOk(env, infos, items)
    && DATABASE in ListedPaths(items)
    && AllListed(infos, items)
    && DatabaseIntact(env, infos)
  }

  /** What an accepted backup is, as one statement about its members. */
  predicate Acceptable(env: Env, infos: Archive) {
    && InfosOk(env, infos)
    && ManifestReadable(env, infos)
    && HeaderOk(ManifestOf(env, infos))
    && FilesOk(env, infos, ManifestOf(env, infos).files.value)
  }

  /** Two members of a validated archive never carry the same name. */
  lemma SameNameSameMember(env: Env, infos: Archive, a: Member, b: Member)
    requires DistinctKeys(env, infos) && a in infos && b in infos && a.name == b.name
    ensures a == b
  {
    var i :| 0 <= i < |infos| && infos[i] == a;
    var j :| 0 <= j < |infos| && infos[j] == b;
    assert Keys(env, infos)[i] == Keys(env, infos)[j];
  }

  /** The members called manifest.json: line 422. */
  method ManifestMembers(env: Env, infos: Archive) returns (found: seq<Member>)
    requires DistinctKeys(env, infos)
    ensures |found| <= 1
    ensures forall m :: m in found <==> m in infos && m.name == MANIFEST
  {
    found := [];
    ghost var at := -1;
    for n := 0 to |infos|
      invariant forall m :: m in found <==> m in infos[..n] && m.name == MANIFEST
      invariant found == [] ==> at == -1
      invariant found != [] ==> 0 <= at < n && infos[at].name == MANIFEST
      invariant |found| <= 1
    {
      if infos[n].name == MANIFEST {
        if found != [] {
          KeysDiffer(env, infos, at, n);
          assert false;
        }
        found := found + [infos[n]];
        at := n;
      }
      assert infos[..n + 1] == infos[..n] + [infos[n]];
    }
    assert infos[..|infos|] == infos;
  }

  /** One item more, of a path not listed before. */
  lemma ListedStep(items: seq<Item>, n: nat)
    requires n < |items| && items[n].Item?
    ensures ListedPaths(items[..n + 1]) == ListedPaths(items[..n]) + {items[n].path}
    ensures DistinctPaths(items[..n]) && items[n].path !in ListedPaths(items[..n]) ==> DistinctPaths(items[..n + 1])
  {
    var before, after := items[..n], items[..n + 1];
    assert forall i :: 0 <= i < n ==> after[i] == before[i];
    assert after[n] == items[n];
    forall p | p in ListedPaths(before) ensures p in ListedPaths(after) {
      var i :| 0 <= i < n && before[i].Item? && before[i].path == p;
      assert after[i].path == p;
    }
    forall i | 0 <= i < n && after[i].Item? ensures after[i].path in ListedPaths(before) {
      assert before[i] == after[i];
    }
  }

  /** The loop over the declared files, lines 462-501. */
  method CheckFiles(env: Env, infos: Archive, items: seq<Item>) returns (problem: Option<Problem>, seen: set<string>)
    ensures problem == None <==> ItemsOk(env, infos, items)
    ensures problem.Some? ==> problem.value == ManifestInvalid || problem.value == HashMismatch
    ensures problem == None ==> seen == ListedPaths(items)
  {
    seen := {};
    for n := 0 to |items|
      invariant seen == ListedPaths(items[..n])
      invariant DistinctPaths(items[..n])
      invariant forall i :: 0 <= i < n ==> ItemOk(env, infos, items[i])
    {
      var item := items[n];
      if item.NotAnObject? {
        return Some(ManifestInvalid), seen;
      }
      if item.path in seen {
        var i :| 0 <= i < n && items[..n][i].Item? && items[..n][i].path == item.path;
        assert items[i].path == items[n].path;
        return Some(ManifestInvalid), seen;
      }
      if item.path == "" || !HasName(infos, item.path) {
        return Some(ManifestInvalid), seen;
      }
      var data := Open(infos, item.path).data;
      if data == None {
        return Some(HashMismatch), seen;
      }
      if item.size == None || item.sha256 == None {
        return Some(ManifestInvalid), seen;
      }
      if item.size.value < 0 || |item.sha256.value| != 64
         || env.hash(data.value) != item.sha256.value || |data.value| != item.size.value {
        return Some(HashMismatch), seen;
      }
      seen := seen + {item.path};
      ListedStep(items, n);
    }
    assert items[..|items|] == items;
    problem := None;
  }

  /** Lines 421-435: the only manifest, small enough and readable. */
  method ReadManifest(env: Env, infos: Archive) returns (manifest: Option<Manifest>)
    requires DistinctKeys(env, infos)
    ensures manifest.Some? <==> ManifestReadable(env, infos)
    ensures manifest.Some? ==> manifest.value == ManifestOf(env, infos)
    ensures manifest.Some?
       <==> exists m :: m in infos && m.name == "manifest.json" && m.fileSize <= 1048576
              && m.data.Some? && env.parse(m.data.value).Some?
  {
    var manifests := ManifestMembers(env, infos);
    if |manifests| != 1 {
      assert forall m :: m !in manifests;
      return None;
    }
    assert forall m :: m in infos && m.name == MANIFEST ==> m in manifests && m == manifests[0];
    assert manifests[0] in manifests && HasName(infos, MANIFEST);
    SameNameSameMember(env, infos, manifests[0], Open(infos, MANIFEST));
    if manifests[0].fileSize > MAX_MANIFEST_BYTES || manifests[0].data == None {
      return None;
    }
    manifest := env.parse(manifests[0].data.value);
  }

  /** Lines 436-461, in the order of the source's tests. */
  method CheckHeader(manifest: Manifest) returns (problem: Option<Problem>)
    ensures problem == None <==> HeaderOk(manifest)
    ensures problem == Some(FormatInvalid) <==> manifest.format != "partyops-backup"
    ensures problem == Some(TooNew) <==> FormatTooNew(manifest)
    ensures problem == Some(TooNew)
       <==> manifest.format == "partyops-backup" && manifest.formatVersion.Some? && manifest.formatVersion.value >= 2
    ensures problem == Some(SchemaTooNew) <==> NewerSchema(manifest)
    ensures problem.Some? ==> problem.value in {FormatInvalid, ManifestInvalid, TooNew, SchemaTooNew}
  {
    if manifest.format != "partyops-backup" {
      return Some(FormatInvalid);
    }
    if manifest.formatVersion == None || manifest.formatVersion.value < 1 {
      return Some(ManifestInvalid);
    }
    if manifest.formatVersion.value > FORMAT_VERSION {
      return Some(TooNew);
    }
    if After(manifest.schema, SCHEMA_VERSION) {
      return Some(SchemaTooNew);
    }
    problem := if manifest.files == None then Some(ManifestInvalid) else None;
  }

  /** Lines 462-547: the files, the database, and nothing unlisted. */
  method CheckContents(env: Env, infos: Archive, items: seq<Item>) returns (problem: Option<Problem>)
    ensures problem == None <==> FilesOk(env, infos, items)
    ensures problem == Some(DatabaseMissing) <==> ItemsOk(env, infos, items) && DATABASE !in ListedPaths(items)
    ensures problem == Some(ExtraFiles)
       <==> ItemsOk(env, infos, items) && DATABASE in ListedPaths(items) && !AllListed(infos, items)
    ensures problem == Some(ExtraFiles) ==>
      exists m :: m in infos && (m.name == "" || m.name[|m.name| - 1] != '/')
        && m.name != "manifest.json" && m.name != "config/config.json"
        && forall item :: item in items && item.Item? ==> item.path != m.name
    ensures problem == Some(DatabaseCorrupt)
       <==> ItemsOk(env, infos, items) && DATABASE in ListedPaths(items) && AllListed(infos, items)
            && !DatabaseIntact(env, infos)
    ensures problem.Some? ==>
      problem.value in {ManifestInvalid, HashMismatch, DatabaseMissing, ExtraFiles, DatabaseCorrupt}
  {
    var seen;
    problem, seen := CheckFiles(env, infos, items);
    if problem.Some? {
      return;
    }
    if DATABASE !in seen {
      return Some(DatabaseMissing);
    }
    if m :| m in infos && !IsDirectory(m.name) && m.name !in seen && m.name != MANIFEST && m.name != CONFIG {
      return Some(ExtraFiles);
    }
    ghost var i :| 0 <= i < |items| && items[i].Item? && items[i].path == DATABASE;
    assert ItemOk(env, infos, items[i]);
    problem := if env.intact(Open(infos, DATABASE).data.value) then None else Some(DatabaseCorrupt);
  }

  /** The members are fine and the manifest says the archive can be read here. */
  predicate Readable(env: Env, infos: Archive) {
    InfosOk(env, infos) && ManifestReadable(env, infos) && HeaderOk(ManifestOf(env, infos))
  }

  /** Every other check passes, and the schema version is one of four digits. */
  predicate OkButForSchema(env: Env, infos: Archive) {
    && InfosOk(env, infos) && ManifestReadable(env, infos)
    && var m := ManifestOf(env, infos);
       m.format == "partyops-backup" && m.formatVersion == Some(1) && FourDigits(m.schema)
       && m.files.Some? && FilesOk(env, infos, m.files.value)
  }

  lemma OnlySchemaDecides(env: Env, infos: Archive)
    requires OkButForSchema(env, infos)
    ensures var m := ManifestOf(env, infos);
            && (Acceptable(env, infos) <==> Number(m.schema) <= 24)
            && (NewerSchema(m) <==> Number(m.schema) > 24)
  {
    SchemaIsNewer(ManifestOf(env, infos).schema);
  }

  /** `verify_backup` returns the manifest of exactly the acceptable archives; else it reports the first failure. */
  method VerifyBackup(env: Env, infos: Archive) returns (r: Result<Manifest, Problem>)
    ensures r.Ok? <==> Acceptable(env, infos)
    ensures r.Ok? ==> r.value == ManifestOf(env, infos)
    ensures r == Err(MemberLimit) <==> |infos| > env.limits.maxMembers
    ensures r.Err? && r.error in {MemberLimit, PathInvalid, ExpandedLimit, CompressionInvalid} <==> !InfosOk(env, infos)
    ensures r == Err(FormatInvalid)
       <==> InfosOk(env, infos) && ManifestReadable(env, infos) && ManifestOf(env, infos).format != "partyops-backup"
    ensures r == Err(TooNew)
       <==> InfosOk(env, infos) && ManifestReadable(env, infos) && FormatTooNew(ManifestOf(env, infos))
    ensures r == Err(SchemaTooNew)
       <==> InfosOk(env, infos) && ManifestReadable(env, infos) && NewerSchema(ManifestOf(env, infos))
    ensures OkButForSchema(env, infos) ==>
      if Number(ManifestOf(env, infos).schema) > 24 then r == Err(SchemaTooNew) else r == Ok(ManifestOf(env, infos))
    ensures r == Err(HashMismatch) ==>
      Readable(env, infos) && !ItemsOk(env, infos, ManifestOf(env, infos).files.value)
    ensures r == Err(ManifestInvalid) ==>
      && InfosOk(env, infos)
      && (Readable(env, infos) ==> !ItemsOk(env, infos, ManifestOf(env, infos).files.value))
    ensures r == Err(DatabaseMissing)
       <==> (Readable(env, infos) && ItemsOk(env, infos, ManifestOf(env, infos).files.value)
             && DATABASE !in ListedPaths(ManifestOf(env, infos).files.value))
    ensures r == Err(ExtraFiles)
       <==> (Readable(env, infos) && ItemsOk(env, infos, ManifestOf(env, infos).files.value)
             && DATABASE in ListedPaths(ManifestOf(env, infos).files.value)
             && !AllListed(infos, ManifestOf(env, infos).files.value))
    ensures r == Err(DatabaseCorrupt)
       <==> (Readable(env, infos) && ItemsOk(env, infos, ManifestOf(env, infos).files.value)
             && DATABASE in ListedPaths(ManifestOf(env, infos).files.value)
             && AllListed(infos, ManifestOf(env, infos).files.value) && !DatabaseIntact(env, infos))
  {
    if OkButForSchema(env, infos) {
      OnlySchemaDecides(env, infos);
    }
    var problem := ValidatedInfos(env, infos);
    if problem.Some? {
      return Err(problem.value);
    }
    var manifest := ReadManifest(env, infos);
    if manifest == None {
      return Err(ManifestInvalid);
    }
    problem := CheckHeader(manifest.value);
    if problem.Some? {
      return Err(problem.value);
    }
    problem := CheckContents(env, infos, manifest.value.files.value);
    r := if problem.Some? then Err(problem.value) else Ok(manifest.value);
  }

  /** No two members of an accepted archive coincide when case is ignored. */
  lemma AcceptedIsCollisionFree(env: Env, infos: Archive, i: int, j: int)
    requires Acceptable(env, infos) && 0 <= i < |infos| && 0 <= j < |infos|
    ensures Key(env, infos[i]) == Key(env, infos[j]) ==> i == j
  {
    if i != j {
      KeysDiffer(env, infos, i, j);
    }
  }

  /**
   Every file member of an accepted archive is the manifest, the configuration, or a listed
   path with exactly the listed size and hash.
   */
  lemma AcceptedIsListed(env: Env, infos: Archive, m: Member)
    requires Acceptable(env, infos) && m in infos && !IsDirectory(m.name)
    requires m.name != MANIFEST && m.name != CONFIG
    ensures exists item :: item in ManifestOf(env, infos).files.value && item.Item? && item.path == m.name
              && m.data.Some? && item.size == Some(|m.data.value|)
              && item.sha256 == Some(env.hash(m.data.value)) && |item.sha256.value| == 64
  {
    var items := ManifestOf(env, infos).files.value;
    assert m.name in ListedPaths(items);
    var i :| 0 <= i < |items| && items[i].Item? && items[i].path == m.name;
    assert ItemOk(env, infos, items[i]);
    SameNameSameMember(env, infos, m, Open(infos, m.name));
    assert items[i] in items;
  }

  /** No path is listed twice. */
  lemma AcceptedListsOnce(env: Env, infos: Archive, i: nat, j: nat)
    requires Acceptable(env, infos) && i < j < |ManifestOf(env, infos).files.value|
    ensures var items := ManifestOf(env, infos).files.value;
            items[i].Item? && items[j].Item? && items[i].path != items[j].path
  {
    var items := ManifestOf(env, infos).files.value;
    assert ItemOk(env, infos, items[i]) && ItemOk(env, infos, items[j]);
  }

  /** The tests of listed paths for a leading slash and for ".." (lines 472-473) never decide. */
  lemma AcceptedStaysBelow(env: Env, folding: Folding, infos: Archive, m: Member, root: seq<string>)
    requires Acceptable(env, infos) && m in infos && env.names == NamesOf(folding)
    ensures m.name[0] != '/' && ".." !in Segments(Candidate(m.name))
    ensures Resolve(root, Segments(Candidate(m.name))) == root + Segments(Candidate(m.name))
    ensures Join(Segments(Candidate(m.name))) == Candidate(m.name)
  {
    assert PathOk(env, m);
    assert Portable(m.name, folding);
    assert !ValidSegment("..", folding);
    PortableStaysBelow(root, m.name, folding);
    JoinSegments(Candidate(m.name));
  }
}
