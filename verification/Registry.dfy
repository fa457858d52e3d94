/**
 * The registry's tables and blob backend, and the publish requests on them
 * (crates/elu-registry/src/db/sqlite.rs, src/blob_store.rs, src/server/publish.rs).
 */
module Registry {
  import opened Wrappers
  import opened Magic
  import opened Types
  import opened Texts

  datatype Key = Key(namespace: string, name: string, version: string)

  datatype Visibility = Public | Private

  type Url = string

  type U64 = x: nat | x < 0x1_0000_0000_0000_0000

  datatype Sizes = Sizes(compressed: U64, uncompressed: U64)

  /** The database's integers are signed: a size of 2^63 or more cannot be bound to an insert. */
  const TOO_BIG := 0x8000_0000_0000_0000

  predicate Fits(z: Sizes)
    ensures Fits(z) <==> z.compressed < 0x8000_0000_0000_0000 && z.uncompressed < 0x8000_0000_0000_0000
  {
    z.compressed < TOO_BIG && z.uncompressed < TOO_BIG
  }

  datatype PublishLayer = PublishLayer(diffId: DiffId, blobId: BlobId, sizes: Sizes)

  datatype Session = Session(key: Key, manifestId: ManifestHash, manifestBytes: Bytes, layers: seq<PublishLayer>,
                             publisher: string, visibility: Visibility, createdAt: string)

  /** What a record may say about its package; publishing says nothing. */
  datatype About = About(kind: Option<string>, description: Option<string>, tags: seq<string>,
      signature: Option<string>)

  const NOTHING_SAID := About(None, None, [], None)

  datatype VersionRow = VersionRow(manifestId: ManifestHash, manifestUrl: Url, publisher: string, publishedAt: string,
                                   visibility: Visibility, about: About)

  datatype LayerRow = LayerRow(key: Key, diffId: DiffId, blobId: BlobId, url: Url, sizes: Sizes)

  datatype PackageRecord = PackageRecord(row: VersionRow, layers: seq<LayerRow>)

  /** Three tables; layer rows stay in insertion order. */
  datatype Tables = Tables(versions: map<Key, VersionRow>, layers: seq<LayerRow>, sessions: map<string, Session>)

  datatype Blobs = Blobs(stored: map<BlobId, Bytes>, marked: set<BlobId>)

  datatype RegistryError =
    | VersionExists(key: Key)
    | VersionNotFound(key: Key)
    | SessionNotFound(id: string)
    | MissingBlobs(ids: seq<BlobId>)
    | ReservedNamespace(namespace: string)
    | InvalidManifest
    | PublicDependsOnPrivate(dep: PackageRef)
    | Database
    | HashMismatch

  // ---- reading ----

  function RowsFor(rows: seq<LayerRow>, key: Key): seq<LayerRow> {
    if rows == [] then []
    else RowsFor(rows[..|rows| - 1], key) + if rows[|rows| - 1].key == key then [rows[|rows| - 1]] else []
  }

  function GetVersion(t: Tables, key: Key): Result<PackageRecord, RegistryError> {
    if key in t.versions then Success(PackageRecord(t.versions[key], RowsFor(t.layers, key)))
        else Failure(VersionNotFound(key))
  }

  predicate HasBlob(b: Blobs, id: BlobId) {
    id in b.stored || id in b.marked
  }

  // ---- sessions and commits ----

  function AfterPutSession(t: Tables, id: string, s: Session): Result<Tables, RegistryError> {
    if s.key in t.versions then Failure(VersionExists(s.key))
    else if id in t.sessions then Failure(Database)
    else Success(t.(sessions := t.sessions[id := s]))
  }

  predicate Insertable(l: PublishLayer, urls: map<BlobId, Url>) {
    l.blobId in urls && Fits(l.sizes)
  }

  function RowOf(key: Key, l: PublishLayer, urls: map<BlobId, Url>): LayerRow
    requires Insertable(l, urls)
  {
    LayerRow(key, l.diffId, l.blobId, urls[l.blobId], l.sizes)
  }

  /** Layers are inserted one by one until one has no url or a size that does not fit. */
  function InsertableRows(key: Key, layers: seq<PublishLayer>, urls: map<BlobId, Url>): seq<LayerRow> {
    if layers == [] || !Insertable(layers[0], urls) then []
    else [RowOf(key, layers[0], urls)] + InsertableRows(key, layers[1..], urls)
  }

  function SessionRow(s: Session, manifestUrl: Url): VersionRow {
    VersionRow(s.manifestId, manifestUrl, s.publisher, s.createdAt, s.visibility, NOTHING_SAID)
  }

  /** The row says of the version what its session said, and nothing about the package. */
  predicate TellsSession(row: VersionRow, s: Session, manifestUrl: Url) {
    && row.manifestId == s.manifestId && row.manifestUrl == manifestUrl
    && row.publisher == s.publisher && row.publishedAt == s.createdAt && row.visibility == s.visibility
    && row.about.kind == None && row.about.description == None && row.about.tags == [] && row.about.signature == None
  }

  /** The row lists the layer of this version with the url of its blob. */
  predicate TellsLayer(row: LayerRow, key: Key, l: PublishLayer, url: Url) {
    && row.key == key && row.diffId == l.diffId && row.blobId == l.blobId && row.url == url
    && row.sizes.compressed == l.sizes.compressed && row.sizes.uncompressed == l.sizes.uncompressed
  }

  /** Layer by layer, up to the first with a size of 2^63 or more. */
  predicate TellsLayers(rows: seq<LayerRow>, s: Session, urlOf: BlobId -> Url) {
    && |rows| <= |s.layers|
    && (forall i | 0 <= i < |rows| ::
          Fits(s.layers[i].sizes) && TellsLayer(rows[i], s.key, s.layers[i], urlOf(s.layers[i].blobId)))
    && (|rows| < |s.layers| ==> !Fits(s.layers[|rows|].sizes))
  }

  datatype Commit = Commit(tables: Tables, result: Result<PackageRecord, RegistryError>)

  function InsertError(l: PublishLayer, urls: map<BlobId, Url>): RegistryError {
    if l.blobId !in urls then MissingBlobs([l.blobId]) else Database
  }

  /** There is no transaction: a layer that cannot be inserted stops the commit after the version row is in. */
  function AfterCommit(t: Tables, id: string, manifestUrl: Url, urls: map<BlobId, Url>): Commit {
    if id !in t.sessions then Commit(t, Failure(SessionNotFound(id)))
    else
      var s := t.sessions[id];
      if s.key in t.versions then Commit(t, Failure(VersionExists(s.key)))
      else
        var row, rows := SessionRow(s, manifestUrl), InsertableRows(s.key, s.layers, urls);
        var inserted := t.(versions := t.versions[s.key := row], layers := t.layers + rows);
        if |rows| < |s.layers| then Commit(inserted, Failure(InsertError(s.layers[|rows|], urls)))
        else Commit(inserted.(sessions := t.sessions - {id}), Success(PackageRecord(row, rows)))
  }

  lemma {:induction false} InsertableLength(key: Key, layers: seq<PublishLayer>, urls: map<BlobId, Url>)
    ensures |InsertableRows(key, layers, urls)| <= |layers|
    ensures |InsertableRows(key, layers, urls)| == |layers| <==> forall l | l in layers :: Insertable(l, urls)
    ensures var n := |InsertableRows(key, layers, urls)|; n < |layers| ==> !Insertable(layers[n], urls)
    ensures forall i | 0 <= i < |InsertableRows(key, layers, urls)| ::
              Insertable(layers[i], urls) && InsertableRows(key, layers, urls)[i] == RowOf(key, layers[i], urls)
  {
    if layers != [] && Insertable(layers[0], urls) {
      InsertableLength(key, layers[1..], urls);
      assert layers == [layers[0]] + layers[1..];
    }
  }

  lemma {:induction false} InsertableStops(key: Key, layers: seq<PublishLayer>, urls: map<BlobId, Url>, n: nat)
    requires n <= |layers| && forall i | 0 <= i < n :: Insertable(layers[i], urls)
    requires n == |layers| || !Insertable(layers[n], urls)
    ensures InsertableRows(key, layers, urls) == seq(n, i requires 0 <= i < n => RowOf(key, layers[i], urls))
  {
    if n > 0 {
      InsertableStops(key, layers[1..], urls, n - 1);
    }
  }

  /** The rows before the first whose sizes do not fit. */
  function Fitting(rows: seq<LayerRow>): seq<LayerRow> {
    if rows == [] || !Fits(rows[0].sizes) then [] else [rows[0]] + Fitting(rows[1..])
  }

  lemma {:induction false} FittingIsPrefix(rows: seq<LayerRow>)
    ensures Fitting(rows) <= rows
    ensures Fitting(rows) == rows <==> forall r | r in rows :: Fits(r.sizes)
    ensures Fitting(rows) != rows ==> |Fitting(rows)| < |rows| && !Fits(rows[|Fitting(rows)|].sizes)
  {
    if rows != [] && Fits(rows[0].sizes) {
      FittingIsPrefix(rows[1..]);
      assert rows == [rows[0]] + rows[1..];
    }
  }

  lemma {:induction false} FittingFits(rows: seq<LayerRow>)
    ensures forall r | r in Fitting(rows) :: Fits(r.sizes)
  {
    if rows != [] {
      FittingFits(rows[1..]);
    }
  }

  lemma {:induction false} FittingStops(rows: seq<LayerRow>, n: nat)
    requires n <= |rows| && forall i | 0 <= i < n :: Fits(rows[i].sizes)
    requires n == |rows| || !Fits(rows[n].sizes)
    ensures Fitting(rows) == rows[..n]
  {
    if n > 0 {
      FittingStops(rows[1..], n - 1);
      assert rows[..n] == [rows[0]] + rows[1..][..n - 1];
    }
  }

  /** What is in the tables after a direct insertion, whether or not it stops on the way. */
  function AfterPutVersion(t: Tables, key: Key, record: PackageRecord): Tables {
    t.(versions := t.versions[key := record.row], layers := t.layers + Fitting(Keyed(key, record.layers)))
  }

  class RegistryDb {
    var versions: map<Key, VersionRow>
    var layers: seq<LayerRow>
    var sessions: map<string, Session>

    function Snapshot(): Tables
      reads this
    {
      Tables(versions, layers, sessions)
    }

    constructor ()
      ensures Snapshot() == Tables(map[], [], map[])
    {
      versions, layers, sessions := map[], [], map[];
    }

    method PutPublishSession(id: string, s: Session) returns (error: Option<RegistryError>)
      modifies `sessions
      ensures match AfterPutSession(old(Snapshot()), id, s)
              case Failure(e) => error == Some(e) && Snapshot() == old(Snapshot())
              case Success(t) => error == None && Snapshot() == t
      ensures error.None? <==> s.key !in versions && id !in old(sessions)
      ensures sessions == if error.None? then old(sessions)[id := s] else old(sessions)
    {
      if s.key in versions {
        return Some(VersionExists(s.key));
      }
      if id in sessions {
        return Some(Database);
      }
      sessions := sessions[id := s];
      error := None;
    }

    /** Any session of the package, in no particular order. */
    method FindSessionByPackage(key: Key) returns (r: Result<string, RegistryError>)
      ensures r.Success? ==> r.value in sessions && sessions[r.value].key == key
      ensures r.Failure? <==> forall id | id in sessions :: sessions[id].key != key
      ensures r.Failure? ==> r.error.SessionNotFound?
    {
      var found := set id | id in sessions && sessions[id].key == key;
      if found == {} {
        forall id | id in sessions ensures sessions[id].key != key {
          assert id !in found;
        }
        return Failure(SessionNotFound(""));
      }
      var id :| id in found;
      r := Success(id);
    }

    method CommitVersion(id: string, manifestUrl: Url, urls: map<BlobId, Url>)
        returns (r: Result<PackageRecord, RegistryError>)
      modifies this
      ensures Commit(Snapshot(), r) == AfterCommit(old(Snapshot()), id, manifestUrl, urls)
      ensures r.Success? ==>
        var s := old(sessions)[id];
        && TellsSession(r.value.row, s, manifestUrl) && |r.value.layers| == |s.layers|
        && forall i | 0 <= i < |s.layers| ::
             s.layers[i].blobId in urls && TellsLayer(r.value.layers[i], s.key, s.layers[i], urls[s.layers[i].blobId])
    {
      if id !in sessions {
        return Failure(SessionNotFound(id));
      }
      var s := sessions[id];
      if s.key in versions {
        return Failure(VersionExists(s.key));
      }
      var row := SessionRow(s, manifestUrl);
      versions := versions[s.key := row];
      var rows: seq<LayerRow> := [];
      for i := 0 to |s.layers|
        invariant versions == old(versions)[s.key := row] && sessions == old(sessions)
        invariant forall j | 0 <= j < i :: Insertable(s.layers[j], urls)
        invariant rows == seq(i, j requires 0 <= j < i => RowOf(s.key, s.layers[j], urls))
        invariant layers == old(layers) + rows
      {
        if s.layers[i].blobId !in urls {
          InsertableStops(s.key, s.layers, urls, i);
          return Failure(MissingBlobs([s.layers[i].blobId]));
        }
        if !Fits(s.layers[i].sizes) {
          InsertableStops(s.key, s.layers, urls, i);
          return Failure(Database);
        }
        layers := layers + [RowOf(s.key, s.layers[i], urls)];
        rows := rows + [RowOf(s.key, s.layers[i], urls)];
      }
      InsertableStops(s.key, s.layers, urls, |s.layers|);
      sessions := sessions - {id};
      r := Success(PackageRecord(row, rows));
    }

    /** Direct insertion of a record, without a session. */
    method PutVersion(key: Key, record: PackageRecord) returns (error: Option<RegistryError>)
      modifies `versions, `layers
      ensures error == if key in old(versions) then Some(VersionExists(key))
                       else if forall r | r in record.layers :: Fits(r.sizes) then None else Some(Database)
      ensures Snapshot() == if key in old(versions) then old(Snapshot())
                            else AfterPutVersion(old(Snapshot()), key, record)
    {
      if key in versions {
        return Some(VersionExists(key));
      }
      versions := versions[key := record.row];
      ghost var rows := Keyed(key, record.layers);
      for i := 0 to |record.layers|
        invariant versions == old(versions)[key := record.row]
        invariant layers == old(layers) + rows[..i]
        invariant forall j | 0 <= j < i :: Fits(rows[j].sizes)
      {
        if !Fits(record.layers[i].sizes) {
          FittingStops(rows, i);
          assert record.layers[i] in record.layers;
          return Some(Database);
        }
        layers := layers + [record.layers[i].(key := key)];
        assert rows[..i + 1] == rows[..i] + [rows[i]];
      }
      FittingStops(rows, |rows|);
      forall r | r in record.layers ensures Fits(r.sizes) {
        var i :| 0 <= i < |record.layers| && record.layers[i] == r;
        assert Fits(rows[i].sizes);
      }
      error := None;
    }

    method Get(key: Key) returns (r: Result<PackageRecord, RegistryError>)
      ensures r == GetVersion(Snapshot(), key)
    {
      if key !in versions {
        return Failure(VersionNotFound(key));
      }
      var found: seq<LayerRow> := [];
      for i := 0 to |layers|
        invariant found == RowsFor(layers[..i], key)
      {
        assert layers[..i + 1][..i] == layers[..i];
        if layers[i].key == key {
          found := found + [layers[i]];
        }
      }
      assert layers[..|layers|] == layers;
      r := Success(PackageRecord(versions[key], found));
    }
  }

  function Keyed(key: Key, rows: seq<LayerRow>): (r: seq<LayerRow>)
    ensures |r| == |rows| && forall i | 0 <= i < |rows| :: r[i] == rows[i].(key := key)
  {
    seq(|rows|, i requires 0 <= i < |rows| => rows[i].(key := key))
  }

  class LocalBlobBackend {
    const f: Foreign
    var stored: map<BlobId, Bytes>
    var marked: set<BlobId>

    ghost predicate Valid()
      reads this
    {
      forall id | id in stored :: f.hash(stored[id]) == id
    }

    function Snapshot(): Blobs
      reads this
    {
      Blobs(stored, marked)
    }

    constructor (f: Foreign)
      ensures this.f == f && Valid() && Snapshot() == Blobs(map[], {})
    {
      this.f := f;
      stored, marked := map[], {};
    }

    /** Bytes are kept only under the id they hash to. */
    method Put(id: BlobId, bytes: Bytes) returns (error: Option<RegistryError>)
      requires Valid()
      modifies this
      ensures Valid()
      ensures error == if f.hash(bytes) == id then None else Some(HashMismatch)
      ensures Snapshot() == AfterUpload(f, old(Snapshot()), id, bytes)
    {
      if f.hash(bytes) != id {
        return Some(HashMismatch);
      }
      stored := stored[id := bytes];
      marked := marked + {id};
      error := None;
    }

    method MarkUploaded(id: BlobId)
      modifies `marked
      ensures marked == old(marked) + {id}
    {
      marked := marked + {id};
    }

    method Has(id: BlobId) returns (r: bool)
      ensures r <==> HasBlob(Snapshot(), id)
    {
      if id in stored {
        return true;
      }
      r := id in marked;
    }
  }

  function AfterUpload(f: Foreign, b: Blobs, id: BlobId, bytes: Bytes): Blobs {
    if f.hash(bytes) != id then b else Blobs(b.stored[id := bytes], b.marked + {id})
  }

  // ---- the publish requests ----

  const RESERVED := {"debian", "npm", "pip"}

  /** The manifest parses and every diff id in it is among the declared layers. */
  predicate CoversManifest(f: Foreign, bytes: Bytes, layers: seq<PublishLayer>) {
    && f.json(bytes).Some?
    && forall d | d in LayerDiffIds(f.json(bytes).value.layers) :: exists l :: l in layers && l.diffId == d
  }

  function BeginError(f: Foreign, s: Session): Option<RegistryError> {
    if s.key.namespace in RESERVED then Some(ReservedNamespace(s.key.namespace))
    else if !CoversManifest(f, s.manifestBytes, s.layers) then Some(InvalidManifest)
    else None
  }

  /**
   * A reserved namespace is refused first; then a manifest that is no JSON, or that names a diff
   * id no declared layer has.
   */
  lemma BeginErrorIff(f: Foreign, s: Session)
    ensures var reserved := s.key.namespace == "debian" || s.key.namespace == "npm" || s.key.namespace == "pip";
            var bad := f.json(s.manifestBytes).None?
                || exists m :: m in f.json(s.manifestBytes).value.layers && m.diffId.Some?
                               && forall l | l in s.layers :: l.diffId != m.diffId.value;
            BeginError(f, s) == if reserved then Some(ReservedNamespace(s.key.namespace))
                                else if bad then Some(InvalidManifest)
                                else None
  {
    if f.json(s.manifestBytes).Some? {
      var layers := f.json(s.manifestBytes).value.layers;
      forall d ensures d in LayerDiffIds(layers) <==> Layer(Some(d)) in layers { LayerDiffIdsMembers(layers, d); }
      assert forall m | m in layers && m.diffId.Some? :: m == Layer(Some(m.diffId.value));
    }
  }

  /** The layer blobs the backend does not have. */
  method MissingLayers(backend: LocalBlobBackend, layers: seq<PublishLayer>) returns (missing: seq<BlobId>)
    ensures forall b :: b in missing <==> (exists l :: l in layers && l.blobId == b) && !HasBlob(backend.Snapshot(), b)
  {
    missing := [];
    for i := 0 to |layers|
      invariant forall b :: b in missing <==>
          (exists l :: l in layers[..i] && l.blobId == b) && !HasBlob(backend.Snapshot(), b)
    {
      assert layers[..i + 1] == layers[..i] + [layers[i]];
      var have := backend.Has(layers[i].blobId);
      if !have {
        missing := missing + [layers[i].blobId];
      }
    }
    assert layers[..|layers|] == layers;
  }

  // ---- public packages on private ones ----

  predicate Names(key: Key, p: PackageRef) {
    key.namespace == p.namespace && key.name == p.name
  }

  predicate IsPrivate(t: Tables, key: Key) {
    key in t.versions && t.versions[key].visibility.Private?
  }

  /** A version that may be listed first: none of the package was published later. */
  ghost predicate Newest(t: Tables, p: PackageRef, k: Key) {
    && k in t.versions && Names(k, p)
    && forall j | j in t.versions && Names(j, p) ::
        !Precedes(t.versions[k].publishedAt, t.versions[j].publishedAt)
  }

  function Latest(p: PackageRef): Key {
    Key(p.namespace, p.name, "latest")
  }

  ghost predicate Refused(t: Tables, p: PackageRef) {
    IsPrivate(t, Latest(p)) || exists k :: Newest(t, p, k) && IsPrivate(t, k)
  }

  ghost predicate Passed(t: Tables, p: PackageRef) {
    && !IsPrivate(t, Latest(p))
    && ((forall k | k in t.versions :: !Names(k, p)) || exists k :: Newest(t, p, k) && !IsPrivate(t, k))
  }

  /** The first entry of list_versions, if the package has any version. */
  method NewestVersion(db: RegistryDb, p: PackageRef) returns (r: Option<Key>)
    ensures r.None? ==> forall k | k in db.versions :: !Names(k, p)
    ensures r.Some? ==> Newest(db.Snapshot(), p, r.value)
  {
    r := None;
    var todo := db.versions.Keys;
    while todo != {}
      invariant todo <= db.versions.Keys
      invariant r.None? ==> forall k | k in db.versions.Keys - todo :: !Names(k, p)
      invariant r.Some? ==> r.value in db.versions && Names(r.value, p)
      invariant r.Some? ==> forall k | k in db.versions.Keys - todo && Names(k, p) ::
        !Precedes(db.versions[r.value].publishedAt, db.versions[k].publishedAt)
      decreases todo
    {
      var k :| k in todo;
      todo := todo - {k};
      if Names(k, p) {
        if r.None? {
          r := Some(k);
        } else if StrLess(db.versions[r.value].publishedAt, db.versions[k].publishedAt) {
          LaterThanAll(db.versions, db.versions.Keys - todo, r.value, k, p);
          r := Some(k);
        }
      }
    }
  }

  lemma LaterThanAll(versions: map<Key, VersionRow>, seen: set<Key>, best: Key, k: Key, p: PackageRef)
    requires seen <= versions.Keys && best in versions && k in seen
    requires forall j | j in seen - {k} && Names(j, p) ::
        !Precedes(versions[best].publishedAt, versions[j].publishedAt)
    requires Precedes(versions[best].publishedAt, versions[k].publishedAt)
    ensures forall j | j in seen && Names(j, p) :: !Precedes(versions[k].publishedAt, versions[j].publishedAt)
  {
    forall j | j in seen && Names(j, p) ensures !Precedes(versions[k].publishedAt, versions[j].publishedAt) {
      if Precedes(versions[k].publishedAt, versions[j].publishedAt) {
        PrecedesStrict(versions[k].publishedAt, versions[j].publishedAt);
        PrecedesTrans(versions[best].publishedAt, versions[k].publishedAt, versions[j].publishedAt);
      }
    }
  }

  /** The first dependency on a package that looks private. */
  method PrivateDep(db: RegistryDb, deps: seq<Dependency>) returns (r: Option<PackageRef>)
    ensures r.Some? ==> (exists d :: d in deps && d.reference == r.value) && Refused(db.Snapshot(), r.value)
    ensures r.None? ==> forall d | d in deps :: Passed(db.Snapshot(), d.reference)
  {
    for i := 0 to |deps|
      invariant forall j | 0 <= j < i :: Passed(db.Snapshot(), deps[j].reference)
    {
      var p := deps[i].reference;
      assert deps[i] in deps;
      if IsPrivate(db.Snapshot(), Latest(p)) {
        return Some(p);
      }
      var newest := NewestVersion(db, p);
      if newest.Some? && IsPrivate(db.Snapshot(), newest.value) {
        return Some(p);
      }
      assert Passed(db.Snapshot(), p);
    }
    r := None;
  }

  /** What begin_publish answers, up to which of several equally new versions is listed first. */
  ghost predicate BeginAnswers(f: Foreign, t: Tables, id: string, s: Session, error: Option<RegistryError>) {
    if BeginError(f, s).Some? then error == BeginError(f, s)
    else
      var deps := f.json(s.manifestBytes).value.dependencies;
      match error
      case Some(PublicDependsOnPrivate(p)) => s.visibility.Public? && Refused(t, p)
          && exists d :: d in deps && d.reference == p
      case _ =>
        && (s.visibility.Public? ==> forall d | d in deps :: Passed(t, d.reference))
        && error == (match AfterPutSession(t, id, s) case Failure(e) => Some(e) case Success(_) => None)
  }

  /** On success, the blobs the client still has to upload, the manifest's included. */
  method BeginPublish(db: RegistryDb, backend: LocalBlobBackend, id: string, s: Session)
      returns (r: Result<seq<BlobId>, RegistryError>)
    modifies db`sessions
    ensures BeginAnswers(backend.f, old(db.Snapshot()), id, s, if r.Success? then None else Some(r.error))
    ensures r.Success? ==> AfterPutSession(old(db.Snapshot()), id, s) == Success(db.Snapshot())
    ensures r.Success? ==> s.key !in db.versions && id !in old(db.sessions) && db.sessions == old(db.sessions)[id := s]
    ensures r.Success? ==> forall b :: b in r.value <==>
              ((exists l :: l in s.layers && l.blobId == b) || b == s.manifestId) && !HasBlob(backend.Snapshot(), b)
    ensures r.Failure? ==> db.Snapshot() == old(db.Snapshot())
  {
    var early := BeginError(backend.f, s);
    if early.Some? {
      return Failure(early.value);
    }
    if s.visibility.Public? {
      var refused := PrivateDep(db, backend.f.json(s.manifestBytes).value.dependencies);
      if refused.Some? {
        return Failure(PublicDependsOnPrivate(refused.value));
      }
    }
    var error := db.PutPublishSession(id, s);
    if error.Some? {
      return Failure(error.value);
    }
    var needed := MissingLayers(backend, s.layers);
    var have := backend.Has(s.manifestId);
    if !have {
      needed := needed + [s.manifestId];
    }
    r := Success(needed);
  }

  /** The urls commit_publish hands to the database: one for each layer blob. */
  function LayerUrls(layers: seq<PublishLayer>, download: BlobId -> Url): (urls: map<BlobId, Url>)
    ensures forall b :: b in urls <==> exists l :: l in layers && l.blobId == b
    ensures forall b | b in urls :: urls[b] == download(b)
  {
    map l | l in layers :: l.blobId := download(l.blobId)
  }

  predicate AllFit(layers: seq<PublishLayer>) {
    forall l | l in layers :: Fits(l.sizes)
  }

  predicate AllUploaded(b: Blobs, layers: seq<PublishLayer>) {
    forall l | l in layers :: HasBlob(b, l.blobId)
  }

  /** No layer row belongs to a package version that is not there. */
  ghost predicate NoStrayRows(t: Tables) {
    forall r | r in t.layers :: r.key in t.versions
  }

  /** A session of this package whose layer blobs are all there. */
  predicate Commits(t: Tables, b: Blobs, id: string, key: Key) {
    id in t.sessions && t.sessions[id].key == key && AllUploaded(b, t.sessions[id].layers)
  }

  function CommitOf(t: Tables, id: string, download: BlobId -> Url): Commit
    requires id in t.sessions
  {
    AfterCommit(t, id, download(t.sessions[id].manifestId), LayerUrls(t.sessions[id].layers, download))
  }

  ghost predicate CommittedSome(t: Tables, b: Blobs, key: Key, download: BlobId -> Url, c: Commit) {
    exists id :: Commits(t, b, id, key) && c == CommitOf(t, id, download)
  }

  /** Why a commit may be refused: no session, a published version, or blobs of a session not uploaded. */
  ghost predicate Blocked(t: Tables, b: Blobs, key: Key, error: RegistryError) {
    match error
    case SessionNotFound(_) => forall id | id in t.sessions :: t.sessions[id].key != key
    case VersionExists(k) => k == key && key in t.versions
    case MissingBlobs(ids) =>
      exists id ::
          id in t.sessions && t.sessions[id].key == key && !Commits(t, b, id, key) && LackedBy(b, t.sessions[id], ids)
    case _ => false
  }

  /** Exactly the layer blobs of the session that the backend lacks. */
  ghost predicate LackedBy(b: Blobs, s: Session, ids: seq<BlobId>) {
    forall x :: x in ids <==> (exists l :: l in s.layers && l.blobId == x) && !HasBlob(b, x)
  }

  /** A commit that got past its checks: it succeeded, or the database refused a layer on the way. */
  predicate WritesVersion(r: Result<PackageRecord, RegistryError>) {
    r.Success? || r.error.Database?
  }

  /** A whole commit request with nobody in between; the manifest blob itself is not asked for. */
  method CommitPublish(db: RegistryDb, backend: LocalBlobBackend, key: Key, download: BlobId -> Url)
      returns (r: Result<PackageRecord, RegistryError>)
    requires NoStrayRows(db.Snapshot())
    modifies db
    ensures NoStrayRows(db.Snapshot())
    ensures WritesVersion(r) ==>
        key !in old(db.versions)
        && CommittedSome(old(db.Snapshot()), backend.Snapshot(), key, download, Commit(db.Snapshot(), r))
    ensures r.Success? ==> r == GetVersion(db.Snapshot(), key)
    ensures !WritesVersion(r) ==> db.Snapshot() == old(db.Snapshot())
    ensures !WritesVersion(r) ==> Blocked(old(db.Snapshot()), backend.Snapshot(), key, r.error)
  {
    var found := db.FindSessionByPackage(key);
    if found.Failure? {
      return Failure(found.error);
    }
    var s := db.sessions[found.value];
    var missing := MissingLayers(backend, s.layers);
    if missing != [] {
      assert missing[0] in missing && LackedBy(backend.Snapshot(), db.sessions[found.value], missing);
      assert !Commits(db.Snapshot(), backend.Snapshot(), found.value, key);
      return Failure(MissingBlobs(missing));
    }
    var urls := LayerUrls(s.layers, download);
    InsertableLength(s.key, s.layers, urls);
    ghost var before := db.Snapshot();
    forall l | l in s.layers ensures HasBlob(backend.Snapshot(), l.blobId) {
      assert l.blobId !in missing;
    }
    assert Commits(before, backend.Snapshot(), found.value, key);
    r := db.CommitVersion(found.value, download(s.manifestId), urls);
    CommitKeepsRows(before, found.value, download(s.manifestId), urls);
    if r.Success? {
      CommitRecord(before, found.value, download(s.manifestId), urls);
    }
  }

  lemma CommitKeepsRows(t: Tables, id: string, manifestUrl: Url, urls: map<BlobId, Url>)
    requires NoStrayRows(t)
    ensures NoStrayRows(AfterCommit(t, id, manifestUrl, urls).tables)
  {
    if id in t.sessions {
      var s := t.sessions[id];
      InsertableLength(s.key, s.layers, urls);
    }
  }

  lemma {:induction false} RowsForAppend(a: seq<LayerRow>, b: seq<LayerRow>, key: Key)
    ensures RowsFor(a + b, key) == RowsFor(a, key) + RowsFor(b, key)
  {
    if b == [] {
      assert a + b == a;
    } else {
      assert (a + b)[..|a + b| - 1] == a + b[..|b| - 1];
      RowsForAppend(a, b[..|b| - 1], key);
    }
  }

  lemma {:induction false} RowsForAll(rows: seq<LayerRow>, key: Key)
    requires forall r | r in rows :: r.key == key
    ensures RowsFor(rows, key) == rows
  {
    if rows != [] {
      assert rows == rows[..|rows| - 1] + [rows[|rows| - 1]];
      RowsForAll(rows[..|rows| - 1], key);
    }
  }

  lemma {:induction false} RowsForNone(rows: seq<LayerRow>, key: Key)
    requires forall r | r in rows :: r.key != key
    ensures RowsFor(rows, key) == []
  {
    if rows != [] {
      assert rows[|rows| - 1] in rows;
      RowsForNone(rows[..|rows| - 1], key);
    }
  }

  /** Reading the version after a commit that got past its checks gives the rows it inserted. */
  lemma CommitReads(t: Tables, id: string, manifestUrl: Url, urls: map<BlobId, Url>)
    requires NoStrayRows(t) && id in t.sessions && t.sessions[id].key !in t.versions
    ensures var s := t.sessions[id];
            GetVersion(AfterCommit(t, id, manifestUrl, urls).tables, s.key) ==
            Success(PackageRecord(SessionRow(s, manifestUrl), InsertableRows(s.key, s.layers, urls)))
  {
    var s := t.sessions[id];
    var rows := InsertableRows(s.key, s.layers, urls);
    InsertableLength(s.key, s.layers, urls);
    RowsForAppend(t.layers, rows, s.key);
    RowsForAll(rows, s.key);
    RowsForNone(t.layers, s.key);
    assert [] + rows == rows;
  }

  /** What a commit returns, and what reading the version then gives, is what the session said. */
  lemma CommitRecord(t: Tables, id: string, manifestUrl: Url, urls: map<BlobId, Url>)
    requires NoStrayRows(t) && AfterCommit(t, id, manifestUrl, urls).result.Success?
    ensures var c, s := AfterCommit(t, id, manifestUrl, urls), t.sessions[id];
            && GetVersion(c.tables, s.key) == c.result
            && TellsSession(c.result.value.row, s, manifestUrl) && |c.result.value.layers| == |s.layers|
            && forall i | 0 <= i < |s.layers| ::
                 && s.layers[i].blobId in urls
                 && TellsLayer(c.result.value.layers[i], s.key, s.layers[i], urls[s.layers[i].blobId])
  {
    var s := t.sessions[id];
    CommitReads(t, id, manifestUrl, urls);
    InsertableLength(s.key, s.layers, urls);
  }

  /** The version of the session is visible while the session and some of its layers are still out. */
  predicate StuckHalfWay(t: Tables, id: string, rowsBefore: nat) {
    && id in t.sessions && t.sessions[id].key in t.versions
    && |t.layers| < rowsBefore + |t.sessions[id].layers|
  }

  /**
   * commit_version on its own stops half-way exactly when some layer has no url or a size that
   * does not fit. Then the version is visible with the layers before that one, its session is
   * still there, and no later commit of the session can complete it.
   */
  lemma CommitStopsHalfWay(t: Tables, id: string, manifestUrl: Url, urls: map<BlobId, Url>, retry: map<BlobId, Url>)
    requires id in t.sessions && t.sessions[id].key !in t.versions
    ensures var c, s := AfterCommit(t, id, manifestUrl, urls), t.sessions[id];
            && (c.result.Failure? <==> exists l :: l in s.layers && !Insertable(l, urls))
            && (c.result.Failure? ==> StuckHalfWay(c.tables, id, |t.layers|)
                                      && AfterCommit(c.tables, id, manifestUrl, retry) ==
                                          Commit(c.tables, Failure(VersionExists(s.key))))
  {
    InsertableLength(t.sessions[id].key, t.sessions[id].layers, urls);
  }

  /**
   * Reached through commit_publish every layer has its url, so it stops exactly when some size
   * does not fit; then fewer layers are visible than the session declared.
   */
  lemma CommitWholeIff(t: Tables, b: Blobs, id: string, key: Key, download: BlobId -> Url)
    requires NoStrayRows(t) && Commits(t, b, id, key) && key !in t.versions
    ensures var c, layers := CommitOf(t, id, download), t.sessions[id].layers;
            && WritesVersion(c.result) && GetVersion(c.tables, key).Success?
            && (c.result.Success? <==> AllFit(layers))
            && (|GetVersion(c.tables, key).value.layers| == |layers| <==> AllFit(layers))
  {
    var s := t.sessions[id];
    var urls := LayerUrls(s.layers, download);
    CommitReads(t, id, download(s.manifestId), urls);
    InsertableLength(key, s.layers, urls);
    assert AllFit(s.layers) <==> forall l | l in s.layers :: Insertable(l, urls);
  }

  /** A record put in directly is read back up to the first layer that does not fit, so whole iff all do. */
  lemma PutThenGet(t: Tables, key: Key, record: PackageRecord)
    requires NoStrayRows(t) && key !in t.versions && forall r | r in record.layers :: r.key == key
    ensures var got := GetVersion(AfterPutVersion(t, key, record), key);
            && got.Success? && got.value.row == record.row && got.value.layers <= record.layers
            && (forall r | r in got.value.layers :: Fits(r.sizes))
            && (got.value.layers == record.layers || !Fits(record.layers[|got.value.layers|].sizes))
            && (got == Success(record) <==> forall r | r in record.layers :: Fits(r.sizes))
  {
    assert Keyed(key, record.layers) == record.layers by {
      forall i | 0 <= i < |record.layers| ensures Keyed(key, record.layers)[i] == record.layers[i] {
        assert record.layers[i] in record.layers;
      }
    }
    var rows := Fitting(record.layers);
    FittingIsPrefix(record.layers);
    FittingFits(record.layers);
    RowsForAppend(t.layers, rows, key);
    RowsForNone(t.layers, key);
    RowsForAll(rows, key);
    assert [] + rows == rows;
  }
}
