/** The data every part of elu shares: hashes, package names and manifests. */
module Types {
  import opened Wrappers
  import opened Magic

  datatype Hash = Sha256(digest: Bytes)

  // Three roles of one hash: stored bytes, manifest bytes, uncompressed tar bytes.
  type BlobId = Hash
  type ManifestHash = Hash
  type DiffId = Hash

  datatype PackageRef = PackageRef(namespace: string, name: string)

  datatype Version = Version(text: string)

  datatype VersionReq = VersionReq(text: string)

  const STAR := VersionReq("*")

  datatype VersionSpec = Range(req: VersionReq) | Pinned(hash: ManifestHash) | Any

  datatype Dependency = Dependency(reference: PackageRef, version: VersionSpec)

  datatype Layer = Layer(diffId: Option<DiffId>)

  /** The fields of a manifest that the store, the resolver and the stacker read. */
  datatype Manifest = Manifest(
    package: PackageRef,
    version: Version,
    layers: seq<Layer>,
    dependencies: seq<Dependency>,
    hookOps: seq<string>)

  /**
   * Code that elu calls but does not define: SHA-256, the two decompressors, UTF-8
   * validation and the two manifest readers. Nothing is assumed about them beyond being
   * functions.
   */
  datatype Foreign = Foreign(
    hash: Bytes -> Hash,
    gunzip: Bytes -> Option<Bytes>,
    unzstd: Bytes -> Option<Bytes>,
    utf8: Bytes -> bool,
    json: Bytes -> Option<Manifest>,
    toml: Bytes -> Option<Manifest>)
  {
    /** Stored manifests are read as JSON first and as TOML text second. */
    function Parse(bytes: Bytes): Option<Manifest> {
      match json(bytes)
      case Some(m) => Some(m)
      case None => if utf8(bytes) then toml(bytes) else None
    }
  }

  /** The one assumption about the hash: different contents never collide. */
  ghost predicate CollisionFree(f: Foreign) {
    forall x: Bytes, y: Bytes :: f.hash(x) == f.hash(y) ==> x == y
  }

  lemma NoCollision(f: Foreign, x: Bytes, y: Bytes)
    requires CollisionFree(f) && f.hash(x) == f.hash(y)
    ensures x == y
  {
  }

  // ---- what a blob holds ----

  /** The blob begins as gzip or zstd does, or else has a tar header; then it unpacks to the content. */
  ghost predicate Unpacks(f: Foreign, bytes: Bytes, content: Bytes) {
    if [0x1f, 0x8b] <= bytes then f.gunzip(bytes) == Some(content)
    else if [0x28, 0xb5, 0x2f, 0xfd] <= bytes then f.unzstd(bytes) == Some(content)
    else HasTarHeader(bytes) && content == bytes
  }

  /** "ustar" at offset 257. */
  predicate HasTarHeader(bytes: Bytes) {
    |bytes| >= 262 && bytes[257] == 0x75 && bytes[258] == 0x73 && bytes[259] == 0x74 && bytes[260] == 0x61
    && bytes[261] == 0x72
  }

  predicate Recognised(bytes: Bytes) {
    [0x1f, 0x8b] <= bytes || [0x28, 0xb5, 0x2f, 0xfd] <= bytes || HasTarHeader(bytes)
  }

  /** The blob unpacks to content with this hash. */
  ghost predicate Holds(f: Foreign, bytes: Bytes, d: DiffId) {
    exists content :: Unpacks(f, bytes, content) && f.hash(content) == d
  }

  function Decode(f: Foreign, encoding: BlobEncoding, bytes: Bytes): Option<Bytes> {
    match encoding
    case PlainTar => Some(bytes)
    case Gzip => f.gunzip(bytes)
    case Zstd => f.unzstd(bytes)
  }

  lemma DecodeUnpacks(f: Foreign, bytes: Bytes)
    ensures SniffEncoding(bytes).Some? <==> Recognised(bytes)
    ensures forall c :: Unpacks(f, bytes, c) <==>
                Recognised(bytes) && Decode(f, SniffEncoding(bytes).value, bytes) == Some(c)
  {
    assert [0x1f, 0x8b] <= bytes <==> |bytes| >= 2 && bytes[..2] == [0x1f, 0x8b];
    assert [0x28, 0xb5, 0x2f, 0xfd] <= bytes <==> |bytes| >= 4 && bytes[..4] == [0x28, 0xb5, 0x2f, 0xfd];
    assert HasTarHeader(bytes) <==> |bytes| >= 262 && bytes[257..262] == [0x75, 0x73, 0x74, 0x61, 0x72] by {
      if |bytes| >= 262 {
        var h := bytes[257..262];
        assert h[0] == bytes[257] && h[1] == bytes[258] && h[2] == bytes[259];
        assert h[3] == bytes[260] && h[4] == bytes[261];
      }
    }
  }

  /** Hash of a blob's decompressed content, when the blob can be decompressed at all. */
  function DiffIdOf(f: Foreign, bytes: Bytes): (r: Option<DiffId>)
    ensures forall d :: r == Some(d) <==> Holds(f, bytes, d)
  {
    DecodeUnpacks(f, bytes);
    match SniffEncoding(bytes)
    case None => None
    case Some(encoding) =>
      match Decode(f, encoding, bytes)
      case None => None
      case Some(tar) => Some(f.hash(tar))
  }

  function LayerDiffIds(layers: seq<Layer>): (ds: seq<DiffId>) {
    if layers == [] then []
    else
      var rest := LayerDiffIds(layers[1..]);
      match layers[0].diffId
      case None => rest
      case Some(d) => [d] + rest
  }

  /** Only pinned dependencies name a manifest by hash; ranges are invisible to the collector. */
  function DependencyHashes(deps: seq<Dependency>): (hs: seq<ManifestHash>) {
    if deps == [] then []
    else
      var rest := DependencyHashes(deps[1..]);
      match deps[0].version
      case Pinned(h) => [h] + rest
      case _ => rest
  }

  lemma {:induction false} LayerDiffIdsMembers(layers: seq<Layer>, d: DiffId)
    ensures d in LayerDiffIds(layers) <==> Layer(Some(d)) in layers
  {
    if layers != [] {
      LayerDiffIdsMembers(layers[1..], d);
      assert layers == [layers[0]] + layers[1..];
    }
  }

  lemma {:induction false} DependencyHashesMembers(deps: seq<Dependency>, h: ManifestHash)
    ensures h in DependencyHashes(deps) <==> exists d :: d in deps && d.version == Pinned(h)
  {
    if deps != [] {
      DependencyHashesMembers(deps[1..], h);
      assert deps == [deps[0]] + deps[1..];
    }
  }
}
