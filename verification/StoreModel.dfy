/**
 * The content-addressed store as a value, and what each operation of
 * crates/elu-store/src/fs_store.rs does to it.
 */
module StoreModel {
  import opened Wrappers
  import opened Magic
  import opened Types

  /**
   * Content of a file in diffs/ or refs/. A diff file is created empty and written
   * afterwards, so a reader can meet one whose text is not (yet) a hash.
   */
  datatype HashFile = Unparsed(writer: nat) | Points(target: Hash)

  datatype RefKey = RefKey(namespace: string, name: string, version: string)

  /** Components below refs/, without the "." that name no step. */
  type RefPath = seq<string>

  /** What lies under refs/ and is no listed ref: files at another depth, and directories. */
  datatype RefTree = RefTree(files: map<RefPath, HashFile>, dirs: set<RefPath>)

  const BARE := RefTree(map[], {})

  /** refs holds the files three levels down, which is where a listing looks. */
  datatype State = State(
    objects: map<BlobId, Bytes>,
    diffs: map<DiffId, HashFile>,
    refs: map<RefKey, HashFile>,
    index: set<ManifestHash>,
    beside: RefTree)

  const EMPTY := State(map[], map[], map[], {}, BARE)

  datatype StoreError =
    | UnknownEncoding
    | Corrupt
    | ManifestNotUtf8
    | InvalidRefComponent(component: string)
    | RefConflict(existing: HashFile, incoming: ManifestHash)
    | RefNotFound(key: RefKey)
    | HashParse
    | Io
    | FsckUnrepairable(count: nat)

  datatype PutBlob = PutBlob(diffId: DiffId, blobId: BlobId, storedBytes: nat, diffBytes: nat)

  // ---- writing ----

  function Store(f: Foreign, s: State, bytes: Bytes): State {
    var id := f.hash(bytes);
    if id in s.objects then s else s.(objects := s.objects[id := bytes])
  }

  /** First writer wins: an existing index entry is never replaced. */
  function Index(s: State, d: DiffId, b: BlobId): State {
    if d in s.diffs then s else s.(diffs := s.diffs[d := Points(b)])
  }

  function AfterPutBlob(f: Foreign, s: State, bytes: Bytes): State {
    match DiffIdOf(f, bytes)
    case None => s
    case Some(d) => Index(Store(f, s, bytes), d, f.hash(bytes))
  }

  function AfterPutManifest(f: Foreign, s: State, bytes: Bytes): State {
    if !f.utf8(bytes) then s
    else
      var t := Store(f, s, bytes);
      t.(index := t.index + {f.hash(bytes)})
  }

  predicate ControlChar(c: char) {
    c as int < 0x20 || 0x7f <= c as int < 0xa0
  }

  predicate ValidRefComponent(s: string) {
    && s != ""
    && '/' !in s
    && '\\' !in s
    && (forall i | 0 < i < |s| && s[i] == '.' :: s[i - 1] != '.')
    && (forall c | c in s :: !ControlChar(c))
  }

  function RefKeyError(key: RefKey): Option<StoreError> {
    if !ValidRefComponent(key.namespace) then Some(InvalidRefComponent(key.namespace))
    else if !ValidRefComponent(key.name) then Some(InvalidRefComponent(key.name))
    else if !ValidRefComponent(key.version) then Some(InvalidRefComponent(key.version))
    else None
  }

  /** Empty, with a slash or backslash, with two dots in a row, or with a control character. */
  ghost predicate BadComponent(s: string) {
    || s == ""
    || (exists i :: 0 <= i < |s| && s[i] in "/\\")
    || (exists i :: 0 <= i < |s| - 1 && s[i] == '.' == s[i + 1])
    || (exists i :: 0 <= i < |s| && (s[i] as int <= 0x1f || 0x7f <= s[i] as int <= 0x9f))
  }

  lemma RefKeyErrorIff(key: RefKey)
    ensures RefKeyError(key) ==
            if BadComponent(key.namespace) then Some(InvalidRefComponent(key.namespace))
            else if BadComponent(key.name) then Some(InvalidRefComponent(key.name))
            else if BadComponent(key.version) then Some(InvalidRefComponent(key.version))
            else None
  {
    forall s | s in [key.namespace, key.name, key.version] ensures ValidRefComponent(s) <==> !BadComponent(s) {
      ValidIffNotBad(s);
    }
    assert [key.namespace, key.name, key.version][0] == key.namespace;
    assert [key.namespace, key.name, key.version][1] == key.name;
    assert [key.namespace, key.name, key.version][2] == key.version;
  }

  lemma ValidIffNotBad(s: string)
    ensures ValidRefComponent(s) <==> !BadComponent(s)
  {
    if BadComponent(s) && s != "" {
      if i :| 0 <= i < |s| && s[i] in "/\\" {
        assert s[i] == '/' || s[i] == '\\';
      } else if i :| 0 <= i < |s| - 1 && s[i] == '.' == s[i + 1] {
        assert s[i + 1 - 1] == '.';
      } else {
        var i :| 0 <= i < |s| && (s[i] as int <= 0x1f || 0x7f <= s[i] as int <= 0x9f);
        assert ControlChar(s[i]) && s[i] in s;
      }
    }
    if i :| 0 < i < |s| && s[i] == '.' && s[i - 1] == '.' {
      assert s[i - 1] == '.' == s[i - 1 + 1];
    }
  }

  // ---- ref files ----

  /** No component is ".", so the file lies where a listing looks. */
  predicate PlainKey(key: RefKey) {
    key.namespace != "." && key.name != "." && key.version != "."
  }

  function Steps(component: string): RefPath {
    if component == "." then [] else [component]
  }

  function PathOf(key: RefKey): RefPath {
    Steps(key.namespace) + Steps(key.name) + Steps(key.version)
  }

  /** The text of the ref's file, if there is such a file. A path that ends in "." names none. */
  function ReadRef(s: State, key: RefKey): Option<HashFile> {
    if PlainKey(key) then (if key in s.refs then Some(s.refs[key]) else None)
    else if key.version != "." && PathOf(key) in s.beside.files then Some(s.beside.files[PathOf(key)])
    else None
  }

  /** A file stands where one of the ref's directories should be. */
  predicate RefBlocked(s: State, key: RefKey) {
    exists n :: 1 <= n < |PathOf(key)| && PathOf(key)[..n] in s.beside.files
  }

  /** create_dir_all on the directory of the ref. */
  function WithRefDirs(s: State, key: RefKey): State {
    s.(beside := s.beside.(dirs := s.beside.dirs + (set n | 1 <= n < |PathOf(key)| :: PathOf(key)[..n])))
  }

  /** No file can be put at the path: it is, or by its last "." names, a directory. */
  predicate NoFilePath(s: State, key: RefKey) {
    !PlainKey(key) && (key.version == "." || PathOf(key) in s.beside.dirs)
  }

  /** The final rename; it fails on a directory. */
  function WriteRef(s: State, key: RefKey, hash: ManifestHash): State {
    if NoFilePath(s, key) then s
    else if PlainKey(key) then s.(refs := s.refs[key := Points(hash)])
    else s.(beside := s.beside.(files := s.beside.files[PathOf(key) := Points(hash)]))
  }

  function PutRefError(s: State, key: RefKey, hash: ManifestHash): Option<StoreError> {
    if RefKeyError(key).Some? then RefKeyError(key)
    else
      match ReadRef(s, key)
      case Some(text) => if text == Points(hash) then None else Some(RefConflict(text, hash))
      case None => if RefBlocked(s, key) || NoFilePath(s, key) then Some(Io) else None
  }

  /** A refused rename leaves the directories that were made for it. */
  function AfterPutRef(s: State, key: RefKey, hash: ManifestHash): State {
    if RefKeyError(key).Some? || ReadRef(s, key).Some? || RefBlocked(s, key) then s
    else WriteRef(WithRefDirs(s, key), key, hash)
  }

  /** The path names a directory that is there, or runs through a file. */
  predicate NotAFile(s: State, key: RefKey) {
    || RefBlocked(s, key)
    || (!PlainKey(key) && (PathOf(key) == [] || PathOf(key) in s.beside.dirs))
    || (key.version == "." && PathOf(key) in s.beside.files)
  }

  function RemoveRefError(s: State, key: RefKey): Option<StoreError> {
    if RefKeyError(key).Some? then RefKeyError(key)
    else if ReadRef(s, key).Some? then None
    else if NotAFile(s, key) then Some(Io)
    else Some(RefNotFound(key))
  }

  /**
   * Removing a key that has no ref fails for the file system exactly when its path runs through a
   * file or leads to something that is none: a directory, or by its last "." a file.
   */
  lemma RemoveFailsIff(s: State, key: RefKey)
    requires RefKeyError(key).None? && ReadRef(s, key).None?
    ensures var path := PathOf(key);
            var through := exists n :: 1 <= n < |path| && path[..n] in s.beside.files;
            var dir := |path| < 3 && (path == [] || path in s.beside.dirs);
            var file := |path| < 3 && path in s.beside.files;
            RemoveRefError(s, key) == Some(if through || dir || file then Io else RefNotFound(key))
  {
    PathLength(key);
  }

  /** The unlink; without a file at the path it changes nothing. */
  function DropRef(s: State, key: RefKey): State {
    if PlainKey(key) then s.(refs := s.refs - {key})
    else if key.version == "." then s
    else s.(beside := s.beside.(files := s.beside.files - {PathOf(key)}))
  }

  function AfterRemoveRef(s: State, key: RefKey): State {
    if RemoveRefError(s, key).Some? then s else DropRef(s, key)
  }

  /** Two keys that name one file. */
  predicate SameFile(k: RefKey, j: RefKey) {
    PathOf(k) == PathOf(j) && k.version != "." && j.version != "."
  }

  lemma PathLength(k: RefKey)
    ensures |PathOf(k)| == 3 <==> PlainKey(k)
    ensures PlainKey(k) ==> PathOf(k) == [k.namespace, k.name, k.version]
  {
  }

  /** Only keys with a "." can name the file of another key. */
  lemma SameFileIsSameKey(k: RefKey, j: RefKey)
    requires SameFile(k, j)
    ensures PlainKey(k) == PlainKey(j)
    ensures PlainKey(k) ==> k == j
  {
    PathLength(k);
    PathLength(j);
  }

  lemma WriteThenRead(s: State, key: RefKey, hash: ManifestHash, other: RefKey)
    requires !NoFilePath(s, key)
    ensures ReadRef(WriteRef(s, key, hash), other) ==
        if SameFile(key, other) then Some(Points(hash)) else ReadRef(s, other)
  {
    PathLength(key);
    PathLength(other);
  }

  lemma DropThenRead(s: State, key: RefKey, other: RefKey)
    ensures ReadRef(DropRef(s, key), other) == if SameFile(key, other) then None else ReadRef(s, other)
  {
    PathLength(key);
    PathLength(other);
  }

  // ---- what the collector follows ----

  function ManifestAt(f: Foreign, objects: map<BlobId, Bytes>, m: ManifestHash): Option<Manifest> {
    if m in objects then f.Parse(objects[m]) else None
  }

  function PinnedDeps(f: Foreign, objects: map<BlobId, Bytes>, m: ManifestHash): seq<ManifestHash> {
    match ManifestAt(f, objects, m)
    case None => []
    case Some(manifest) => DependencyHashes(manifest.dependencies)
  }

  function LayersOf(f: Foreign, objects: map<BlobId, Bytes>, m: ManifestHash): seq<DiffId> {
    match ManifestAt(f, objects, m)
    case None => []
    case Some(manifest) => LayerDiffIds(manifest.layers)
  }

  /** What the store reads as a manifest: JSON, and text that is no such JSON as TOML. */
  ghost predicate ReadsAs(f: Foreign, bytes: Bytes, m: Manifest) {
    f.json(bytes) == Some(m) || (f.json(bytes) == None && f.utf8(bytes) && f.toml(bytes) == Some(m))
  }

  /** m is stored as a manifest that names d among its pinned dependencies. */
  ghost predicate Pins(f: Foreign, objects: map<BlobId, Bytes>, m: ManifestHash, d: ManifestHash) {
    && m in objects
    && exists manifest, dep ::
         ReadsAs(f, objects[m], manifest) && dep in manifest.dependencies && dep.version == Pinned(d)
  }

  /** m is stored as a manifest with a layer of this diff id. */
  ghost predicate HasLayer(f: Foreign, objects: map<BlobId, Bytes>, m: ManifestHash, d: DiffId) {
    && m in objects
    && exists manifest, l :: ReadsAs(f, objects[m], manifest) && l in manifest.layers && l.diffId == Some(d)
  }

  lemma FollowedIff(f: Foreign, objects: map<BlobId, Bytes>, m: ManifestHash, d: Hash)
    ensures d in PinnedDeps(f, objects, m) <==> Pins(f, objects, m, d)
    ensures d in LayersOf(f, objects, m) <==> HasLayer(f, objects, m, d)
  {
    if m in objects {
      assert forall manifest :: ReadsAs(f, objects[m], manifest) <==> f.Parse(objects[m]) == Some(manifest);
      if f.Parse(objects[m]).Some? {
        var manifest := f.Parse(objects[m]).value;
        DependencyHashesMembers(manifest.dependencies, d);
        LayerDiffIdsMembers(manifest.layers, d);
        assert HasLayer(f, objects, m, d) <==> Layer(Some(d)) in manifest.layers;
      }
    }
  }

  function RefTargets(refs: map<RefKey, HashFile>): set<ManifestHash> {
    set k | k in refs && refs[k].Points? :: refs[k].target
  }

  /** V holds every ref target and every pinned dependency of what it holds. */
  ghost predicate Closed(f: Foreign, s: State, V: set<ManifestHash>) {
    && RefTargets(s.refs) <= V
    && forall m, d | m in V && d in PinnedDeps(f, s.objects, m) :: d in V
  }

  ghost predicate LeastClosed(f: Foreign, s: State, V: set<ManifestHash>) {
    && Closed(f, s, V)
    && forall W: set<ManifestHash> | Closed(f, s, W) :: V <= W
  }

  ghost function Universe(f: Foreign, s: State): set<ManifestHash> {
    RefTargets(s.refs) + (set m, d | m in s.objects && d in PinnedDeps(f, s.objects, m) :: d)
  }

  /** The manifests reachable from refs through pinned dependencies: the least closed set. */
  ghost function LiveManifests(f: Foreign, s: State): set<ManifestHash> {
    set h | h in Universe(f, s) && InEveryClosed(f, s, h)
  }

  ghost predicate InEveryClosed(f: Foreign, s: State, h: ManifestHash) {
    forall W: set<ManifestHash> | Closed(f, s, W) :: h in W
  }

  lemma LiveIsLeastClosed(f: Foreign, s: State)
    ensures LeastClosed(f, s, LiveManifests(f, s))
  {
    assert Closed(f, s, Universe(f, s));
  }

  function DiffsOf(f: Foreign, objects: map<BlobId, Bytes>, V: set<ManifestHash>): set<DiffId> {
    set m, d | m in V && d in LayersOf(f, objects, m) :: d
  }

  function TargetsOf(diffs: map<DiffId, HashFile>, D: set<DiffId>): set<BlobId> {
    set d | d in D && d in diffs && diffs[d].Points? :: diffs[d].target
  }

  ghost function LiveDiffs(f: Foreign, s: State): set<DiffId> {
    DiffsOf(f, s.objects, LiveManifests(f, s))
  }

  ghost function LiveBlobs(f: Foreign, s: State): set<BlobId> {
    LiveManifests(f, s) + TargetsOf(s.diffs, LiveDiffs(f, s))
  }

  function Sweep(s: State, deadBlobs: set<BlobId>, deadDiffs: set<DiffId>): State {
    s.(objects := s.objects - deadBlobs, diffs := s.diffs - deadDiffs)
  }

  ghost function DeadBlobs(f: Foreign, s: State): set<BlobId> {
    s.objects.Keys - LiveBlobs(f, s)
  }

  ghost function DeadDiffs(f: Foreign, s: State): set<DiffId> {
    s.diffs.Keys - LiveDiffs(f, s)
  }

  ghost function AfterGc(f: Foreign, s: State): State {
    Sweep(s, DeadBlobs(f, s), DeadDiffs(f, s))
  }

  // ---- sizes ----

  ghost function TotalBytes(objects: map<BlobId, Bytes>): nat
    decreases |objects|
  {
    if objects == map[] then 0
    else
      var k :| k in objects;
      |objects[k]| + TotalBytes(objects - {k})
  }

  /** The total does not depend on the order in which objects are counted. */
  lemma {:induction false} TotalBytesSplit(objects: map<BlobId, Bytes>, k: BlobId)
    requires k in objects
    ensures TotalBytes(objects) == |objects[k]| + TotalBytes(objects - {k})
    decreases |objects|
  {
    var j :| j in objects && TotalBytes(objects) == |objects[j]| + TotalBytes(objects - {j});
    if j != k {
      TotalBytesSplit(objects - {j}, k);
      TotalBytesSplit(objects - {k}, j);
      assert objects - {j} - {k} == objects - {k} - {j};
    }
  }

  // ---- fsck ----

  datatype FsckError =
    | HashMismatch(blobId: BlobId, actual: BlobId)
    | OrphanedDiff(diffId: DiffId, blobId: BlobId)
    | BrokenRef(key: RefKey, target: ManifestHash)

  predicate Corrupted(f: Foreign, s: State, b: BlobId) {
    b in s.objects && f.hash(s.objects[b]) != b
  }

  /** A parsable index entry whose blob is missing, undecodable, or decodes to something else. */
  ghost predicate Orphaned(f: Foreign, s: State, d: DiffId) {
    && d in s.diffs
    && s.diffs[d].Points?
    && (s.diffs[d].target !in s.objects || !Holds(f, s.objects[s.diffs[d].target], d))
  }

  predicate Broken(s: State, key: RefKey) {
    key in s.refs && s.refs[key].Points? && s.refs[key].target !in s.objects
  }

  ghost function Mismatches(f: Foreign, s: State): set<FsckError> {
    set b | b in s.objects && Corrupted(f, s, b) :: HashMismatch(b, f.hash(s.objects[b]))
  }

  ghost function Orphans(f: Foreign, s: State): set<FsckError> {
    set d | d in s.diffs && Orphaned(f, s, d) :: OrphanedDiff(d, s.diffs[d].target)
  }

  ghost function BrokenRefs(s: State): set<FsckError> {
    set k | k in s.refs && Broken(s, k) :: BrokenRef(k, s.refs[k].target)
  }

  ghost function FsckErrors(f: Foreign, s: State): set<FsckError> {
    Mismatches(f, s) + Orphans(f, s) + BrokenRefs(s)
  }

  ghost function AfterRepair(f: Foreign, s: State): State {
    s.(diffs := s.diffs - (set d | d in s.diffs && Orphaned(f, s, d)),
       refs := s.refs - (set k | k in s.refs && Broken(s, k)))
  }
}
