/**
 * Where versions and manifests come from: the local store alone, or the local store first and
 * a registry behind it (crates/elu-resolver/src/source.rs, crates/elu-cli/src/source.rs).
 */
module Sources {
  import opened Wrappers
  import opened Types
  import opened Versions
  import opened StoreModel
  import opened Resolver
  import opened ResolverProofs
  import FsStore

  datatype Offline = Offline(manifests: map<ManifestHash, Manifest>, refs: map<(PackageRef, Version), ManifestHash>)

  function Named(m: Manifest): (PackageRef, Version) {
    (m.package, m.version)
  }

  function InsertVersion(sv: Semver, v: Version, vs: seq<Version>): seq<Version> {
    if vs == [] || sv.leq(v, vs[0]) then [v] + vs else [vs[0]] + InsertVersion(sv, v, vs[1..])
  }

  function SortVersions(sv: Semver, vs: seq<Version>): seq<Version> {
    if vs == [] then [] else InsertVersion(sv, vs[0], SortVersions(sv, vs[1..]))
  }

  lemma {:induction false} InsertVersionMembers(sv: Semver, v: Version, vs: seq<Version>, w: Version)
    ensures w in InsertVersion(sv, v, vs) <==> w == v || w in vs
  {
    if vs != [] && !sv.leq(v, vs[0]) {
      InsertVersionMembers(sv, v, vs[1..], w);
    }
  }

  lemma {:induction false} SortVersionsMembers(sv: Semver, vs: seq<Version>, w: Version)
    ensures w in SortVersions(sv, vs) <==> w in vs
  {
    if vs != [] {
      SortVersionsMembers(sv, vs[1..], w);
      InsertVersionMembers(sv, vs[0], SortVersions(sv, vs[1..]), w);
    }
  }

  ghost predicate Ascending(sv: Semver, vs: seq<Version>) {
    forall i, j | 0 <= i < j < |vs| :: sv.leq(vs[i], vs[j])
  }

  lemma {:induction false} InsertVersionKeeps(sv: Semver, v: Version, vs: seq<Version>)
    ensures multiset(InsertVersion(sv, v, vs)) == multiset(vs) + multiset{v}
  {
    if vs != [] {
      assert vs == [vs[0]] + vs[1..];
      if !sv.leq(v, vs[0]) {
        InsertVersionKeeps(sv, v, vs[1..]);
      }
    }
  }

  lemma {:induction false} InsertVersionSorts(sv: Semver, v: Version, vs: seq<Version>)
    requires TotalOrder(sv) && Ascending(sv, vs)
    ensures Ascending(sv, InsertVersion(sv, v, vs))
  {
    if vs == [] {
    } else if sv.leq(v, vs[0]) {
      forall j | 0 <= j < |vs| ensures sv.leq(v, vs[j]) {
        if j > 0 { assert sv.leq(vs[0], vs[j]); }
      }
    } else {
      var rest := InsertVersion(sv, v, vs[1..]);
      InsertVersionSorts(sv, v, vs[1..]);
      forall j | 0 <= j < |rest| ensures sv.leq(vs[0], rest[j]) {
        InsertVersionMembers(sv, v, vs[1..], rest[j]);
        if rest[j] != v {
          var i :| 0 <= i < |vs[1..]| && vs[1..][i] == rest[j];
          assert sv.leq(vs[0], vs[i + 1]);
        }
      }
    }
  }

  lemma {:induction false} SortVersionsKeeps(sv: Semver, vs: seq<Version>)
    ensures multiset(SortVersions(sv, vs)) == multiset(vs)
  {
    if vs != [] {
      assert vs == [vs[0]] + vs[1..];
      SortVersionsKeeps(sv, vs[1..]);
      InsertVersionKeeps(sv, vs[0], SortVersions(sv, vs[1..]));
    }
  }

  lemma {:induction false} SortVersionsSorts(sv: Semver, vs: seq<Version>)
    requires TotalOrder(sv)
    ensures Ascending(sv, SortVersions(sv, vs))
  {
    if vs != [] {
      SortVersionsSorts(sv, vs[1..]);
      InsertVersionSorts(sv, vs[0], SortVersions(sv, vs[1..]));
    }
  }

  /** The versions filed under p. */
  function VersionsOf(keys: set<(PackageRef, Version)>, p: PackageRef): set<Version> {
    set k | k in keys && k.0 == p :: k.1
  }

  lemma OneMoreKey(all: set<(PackageRef, Version)>, todo: set<(PackageRef, Version)>, k: (PackageRef, Version),
                   p: PackageRef)
    requires k in todo && todo <= all
    ensures k.0 == p ==> k.1 !in VersionsOf(all - todo, p)
    ensures VersionsOf(all - (todo - {k}), p) == VersionsOf(all - todo, p) + if k.0 == p then {k.1} else {}
  {
    forall v ensures v in VersionsOf(all - (todo - {k}), p) <==>
        v in VersionsOf(all - todo, p) || (k.0 == p && v == k.1) {
      assert v in VersionsOf(all - todo, p) <==> (p, v) in all - todo;
      assert v in VersionsOf(all - (todo - {k}), p) <==> (p, v) in all - (todo - {k});
    }
  }

  class OfflineSource {
    const sv: Semver
    var manifests: map<ManifestHash, Manifest>
    var refs: map<(PackageRef, Version), ManifestHash>

    function Snapshot(): Offline
      reads this
    {
      Offline(manifests, refs)
    }

    constructor (sv: Semver)
      ensures this.sv == sv && Snapshot() == Offline(map[], map[])
    {
      this.sv := sv;
      manifests, refs := map[], map[];
    }

    /** Filed under the manifest's own name and version, whatever the ref that led to it says. */
    method Insert(manifest: Manifest, hash: ManifestHash)
      modifies this
      ensures manifests == old(manifests)[hash := manifest] && refs == old(refs)[Named(manifest) := hash]
    {
      refs := refs[Named(manifest) := hash];
      manifests := manifests[hash := manifest];
    }

    /** Each version filed under the name once, lowest first. */
    method ListVersions(p: PackageRef) returns (out: seq<Version>)
      ensures forall v :: v in out <==> (p, v) in refs
      ensures FsStore.Lists(out, VersionsOf(refs.Keys, p))
      ensures TotalOrder(sv) ==> Ascending(sv, out)
    {
      out := [];
      var todo := refs.Keys;
      while todo != {}
        invariant todo <= refs.Keys
        invariant FsStore.Lists(out, VersionsOf(refs.Keys - todo, p))
        decreases todo
      {
        var k :| k in todo;
        OneMoreKey(refs.Keys, todo, k, p);
        if k.0 == p {
          FsStore.ListsOneMore(out, VersionsOf(refs.Keys - todo, p), k.1);
          out := out + [k.1];
        }
        todo := todo - {k};
      }
      assert refs.Keys - todo == refs.Keys;
      SortVersionsKeeps(sv, out);
      if TotalOrder(sv) { SortVersionsSorts(sv, out); }
      out := SortVersions(sv, out);
      FsStore.ListsMembers(out, VersionsOf(refs.Keys, p));
    }

    method FetchManifest(p: PackageRef, v: Version) returns (r: Result<Fetched, ResolverError>)
      ensures r == OfflineFetch(Snapshot(), p, v)
    {
      if (p, v) !in refs {
        return Failure(NotInLocalStore(p, v));
      }
      var hash := refs[(p, v)];
      if hash !in manifests {
        return Failure(NotInLocalStore(p, v));
      }
      r := Success(Fetched(hash, manifests[hash]));
    }

    method FetchByHash(h: ManifestHash) returns (r: Result<Fetched, ResolverError>)
      ensures r == OfflineByHash(Snapshot(), h)
    {
      r := if h in manifests then Success(Fetched(h, manifests[h])) else Failure(Source("not in offline store"));
    }
  }

  function OfflineFetch(o: Offline, p: PackageRef, v: Version): Result<Fetched, ResolverError> {
    if (p, v) in o.refs && o.refs[(p, v)] in o.manifests
    then Success(Fetched(o.refs[(p, v)], o.manifests[o.refs[(p, v)]]))
    else Failure(NotInLocalStore(p, v))
  }

  function OfflineByHash(o: Offline, h: ManifestHash): Result<Fetched, ResolverError> {
    if h in o.manifests then Success(Fetched(h, o.manifests[h])) else Failure(Source("not in offline store"))
  }

  /** src answers as an OfflineSource with this content does. */
  ghost predicate ServesOffline(src: VersionSource, o: Offline) {
    && (forall p :: src.list(p).Success? && forall v :: v in src.list(p).value <==> (p, v) in o.refs)
    && (forall p, v :: src.fetch(p, v) == OfflineFetch(o, p, v))
    && (forall h :: src.byHash(h) == OfflineByHash(o, h))
  }

  // ---- local first, registry behind ----

  function LocalFirst(local: Result<Fetched, ResolverError>,
                      remote: Option<Result<Fetched, ResolverError>>): Result<Fetched, ResolverError> {
    if local.Success? then local
    else match remote case None => Failure(Source("registry source is disabled")) case Some(r) => r
  }

  /** Registry errors while listing are ignored. */
  method UnionVersions(sv: Semver, local: seq<Version>, remote: Option<Result<seq<Version>, ResolverError>>)
      returns (out: seq<Version>)
    ensures forall v :: v in out <==> v in local || (remote.Some? && remote.value.Success? && v in remote.value.value)
    ensures TotalOrder(sv) ==> Ascending(sv, out)
  {
    out := local;
    if remote.Some? && remote.value.Success? {
      var more := remote.value.value;
      for i := 0 to |more|
        invariant forall v :: v in out <==> v in local || v in more[..i]
      {
        assert more[..i + 1] == more[..i] + [more[i]];
        if more[i] !in out {
          out := out + [more[i]];
        }
      }
      assert more[..|more|] == more;
    }
    forall v ensures v in SortVersions(sv, out) <==> v in out {
      SortVersionsMembers(sv, out, v);
    }
    if TotalOrder(sv) { SortVersionsSorts(sv, out); }
    out := SortVersions(sv, out);
  }

  /** src answers as a HybridSource over these two does. */
  ghost predicate ServesHybrid(src: VersionSource, offline: VersionSource, registry: Option<VersionSource>) {
    && (forall p :: src.list(p).Success? && offline.list(p).Success? && forall v :: v in src.list(p).value <==>
          v in offline.list(p).value || (registry.Some? && registry.value.list(p).Success?
              && v in registry.value.list(p).value))
    && (forall p, v :: src.fetch(p, v) ==
          LocalFirst(offline.fetch(p, v), match registry case None => None case Some(r) => Some(r.fetch(p, v))))
    && (forall h :: src.byHash(h) ==
          LocalFirst(offline.byHash(h), match registry case None => None case Some(r) => Some(r.byHash(h))))
  }

  /** Honesty composes: an honest local source before an honest registry is honest. */
  lemma HybridIsHonest(src: VersionSource, offline: VersionSource, registry: Option<VersionSource>, content: Content)
    requires ServesHybrid(src, offline, registry) && Honest(offline, content)
    requires registry.Some? ==> Honest(registry.value, content)
    ensures Honest(src, content)
  {
    forall p, v | src.fetch(p, v).Success?
      ensures var f := src.fetch(p, v).value;
              f.manifest == content(f.hash) && f.manifest.package == p && f.manifest.version == v
                  && src.byHash(f.hash).Success?
    {
      if offline.fetch(p, v).Success? {
        assert offline.byHash(offline.fetch(p, v).value.hash).Success?;
      } else {
        assert registry.value.byHash(registry.value.fetch(p, v).value.hash).Success?;
      }
    }
  }

  // ---- the local source of a store ----

  /** Hashes stand for what parsing the bytes behind them gives. */
  ghost predicate ContentOf(f: Foreign, content: Content) {
    forall bytes :: f.Parse(bytes).Some? ==> content(f.hash(bytes)) == f.Parse(bytes).value
  }

  ghost predicate Readable(f: Foreign, s: State, h: ManifestHash) {
    h in s.objects && f.Parse(s.objects[h]).Some?
  }

  /** What build_offline_source makes of the refs: their targets, filed under their own names. */
  ghost predicate OfflineOf(f: Foreign, s: State, o: Offline) {
    && o.manifests.Keys == RefTargets(s.refs)
    && (forall h | h in o.manifests :: Readable(f, s, h) && o.manifests[h] == f.Parse(s.objects[h]).value)
    && (forall k | k in o.refs :: o.refs[k] in o.manifests && Named(o.manifests[o.refs[k]]) == k)
    && (forall h | h in o.manifests :: Named(o.manifests[h]) in o.refs)
  }

  method BuildOfflineSource(store: FsStore.Store, sv: Semver) returns (r: Result<OfflineSource, ManifestHash>)
    ensures r.Success? ==> fresh(r.value) && OfflineOf(store.f, store.Snapshot(), r.value.Snapshot())
    ensures r.Failure? ==> r.error in RefTargets(store.refs) && !Readable(store.f, store.Snapshot(), r.error)
  {
    var source := new OfflineSource(sv);
    var entries := store.ListRefs();
    for i := 0 to |entries|
      invariant fresh(source)
      invariant source.manifests.Keys == set j | 0 <= j < i :: entries[j].1
      invariant forall h | h in source.manifests ::
        Readable(store.f, store.Snapshot(), h) && source.manifests[h] == store.f.Parse(store.objects[h]).value
      invariant forall k | k in source.refs ::
          source.refs[k] in source.manifests && Named(source.manifests[source.refs[k]]) == k
      invariant forall h | h in source.manifests :: Named(source.manifests[h]) in source.refs
    {
      var h := entries[i].1;
      assert entries[i] in entries;
      var bytes := store.Get(h);
      if bytes.None? || store.f.Parse(bytes.value).None? {
        return Failure(h);
      }
      source.Insert(store.f.Parse(bytes.value).value, h);
    }
    assert source.manifests.Keys == RefTargets(store.refs) by {
      forall h ensures h in source.manifests.Keys <==> h in RefTargets(store.refs) {
        if h in RefTargets(store.refs) {
          var e :| e in entries && e.1 == h;
          var j :| 0 <= j < |entries| && entries[j] == e;
        }
      }
    }
    r := Success(source);
  }

  lemma OfflineIsHonest(f: Foreign, s: State, o: Offline, src: VersionSource, content: Content)
    requires ContentOf(f, content) && ServesOffline(src, o) && OfflineOf(f, s, o)
    requires forall b | b in s.objects :: f.hash(s.objects[b]) == b
    ensures Honest(src, content)
    ensures forall h | h in o.manifests :: o.manifests[h] == content(h)
  {
    forall h | h in o.manifests ensures o.manifests[h] == content(h) {
      assert content(f.hash(s.objects[h])) == f.Parse(s.objects[h]).value;
    }
  }
}
