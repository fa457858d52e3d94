/**
 * Dependency resolution: one depth-first walk over manifests, post-order, without
 * backtracking (crates/elu-resolver/src/resolve.rs).
 */
module Resolver {
  import opened Wrappers
  import opened Types
  import opened Versions
  import opened Texts

  datatype ResolverError =
    | NoMatch(package: PackageRef)
    | LockMismatch(package: PackageRef, pinned: Version)
    | Conflict
    | NotInLocalStore(package: PackageRef, version: Version)
    | UnknownUpdateTarget(name: string)
    | Source(reason: string)

  datatype Fetched = Fetched(hash: ManifestHash, manifest: Manifest)

  /** The outside world of the resolver, as a deterministic oracle. */
  datatype VersionSource = VersionSource(
    list: PackageRef -> Result<seq<Version>, ResolverError>,
    fetch: (PackageRef, Version) -> Result<Fetched, ResolverError>,
    byHash: ManifestHash -> Result<Fetched, ResolverError>)

  datatype LockEntry = LockEntry(package: PackageRef, version: Version, hash: ManifestHash)

  datatype Lockfile = Lockfile(schema: nat, packages: seq<LockEntry>)

  const NO_PINS := Lockfile(0, [])

  function Lookup(packages: seq<LockEntry>, p: PackageRef): (r: Option<LockEntry>)
    ensures r.Some? ==> r.value in packages && r.value.package == p
    ensures r.None? <==> forall e | e in packages :: e.package != p
  {
    if packages == [] then None
    else if packages[0].package == p then Some(packages[0])
    else Lookup(packages[1..], p)
  }

  datatype Env = Env(sv: Semver, src: VersionSource, lock: Option<Lockfile>)

  datatype RootRef = RootRef(package: PackageRef, version: VersionSpec)

  datatype ChainStep = ChainStep(package: PackageRef, spec: VersionSpec)

  type Chain = seq<ChainStep>

  datatype Arrival = Arrival(chain: Chain, hash: ManifestHash)

  datatype ResolvedManifest = ResolvedManifest(package: PackageRef, hash: ManifestHash, manifest: Manifest)

  datatype Resolution = Resolution(manifests: seq<ResolvedManifest>, layers: seq<DiffId>)

  datatype Walk = Walk(
    ordered: seq<ResolvedManifest>,
    visited: set<ManifestHash>,
    byName: map<PackageRef, seq<Arrival>>)

  const START := Walk([], {}, map[])

  // ---- one edge ----

  function Requirement(spec: VersionSpec): VersionReq
    requires !spec.Pinned?
  {
    if spec.Range? then spec.req else STAR
  }

  function Pin(env: Env, p: PackageRef): Option<LockEntry> {
    match env.lock case None => None case Some(l) => Lookup(l.packages, p)
  }

  function ResolveOne(env: Env, p: PackageRef, spec: VersionSpec): Result<Fetched, ResolverError> {
    if spec.Pinned? then env.src.byHash(spec.hash)
    else
      var req := Requirement(spec);
      match Pin(env, p)
      case Some(entry) =>
        if env.sv.matches(req, entry.version) then env.src.byHash(entry.hash)
        else Failure(LockMismatch(p, entry.version))
      case None =>
        match env.src.list(p)
        case Failure(e) => Failure(e)
        case Success(candidates) =>
          match HighestMatch(env.sv, req, candidates)
          case None => Failure(NoMatch(p))
          case Some(v) => env.src.fetch(p, v)
  }

  // ---- dependency order ----

  function AsStr(p: PackageRef): string {
    p.namespace + "/" + p.name
  }

  function Insert(d: Dependency, deps: seq<Dependency>): seq<Dependency> {
    if deps == [] || StrLeq(AsStr(d.reference), AsStr(deps[0].reference)) then [d] + deps
    else [deps[0]] + Insert(d, deps[1..])
  }

  /** Stable sort by package name. */
  function SortDeps(deps: seq<Dependency>): (r: seq<Dependency>) {
    if deps == [] then [] else Insert(deps[0], SortDeps(deps[1..]))
  }

  // ---- the walk ----

  function Record(w: Walk, p: PackageRef, a: Arrival): Walk {
    w.(byName := w.byName[p := (if p in w.byName then w.byName[p] else []) + [a]])
  }

  /** The source can produce only finitely many manifests; cycles among them are allowed. */
  ghost predicate Finite(env: Env, U: set<ManifestHash>) {
    forall p, spec :: ResolveOne(env, p, spec).Success? ==> ResolveOne(env, p, spec).value.hash in U
  }

  function Visit(env: Env, ghost U: set<ManifestHash>, w: Walk, p: PackageRef, spec: VersionSpec, chain: Chain):
      (r: Result<Walk, ResolverError>)
    requires Finite(env, U)
    ensures r.Success? ==> w.visited <= r.value.visited
    decreases U - w.visited, 0
  {
    match ResolveOne(env, p, spec)
    case Failure(e) => Failure(e)
    case Success(f) =>
      var a := Record(w, p, Arrival(chain, f.hash));
      if f.hash in w.visited then Success(a)
      else
        assert ResolveOne(env, p, spec).value.hash in U;
        match VisitDeps(env, U, a.(visited := w.visited + {f.hash}), SortDeps(f.manifest.dependencies), chain)
        case Failure(e) => Failure(e)
        case Success(b) => Success(b.(ordered := b.ordered + [ResolvedManifest(p, f.hash, f.manifest)]))
  }

  function VisitDeps(env: Env, ghost U: set<ManifestHash>, w: Walk, deps: seq<Dependency>, chain: Chain):
      (r: Result<Walk, ResolverError>)
    requires Finite(env, U)
    ensures r.Success? ==> w.visited <= r.value.visited
    decreases U - w.visited, 1 + |deps|
  {
    if deps == [] then Success(w)
    else
      match Visit(env, U, w, deps[0].reference, deps[0].version,
          chain + [ChainStep(deps[0].reference, deps[0].version)])
      case Failure(e) => Failure(e)
      case Success(next) =>
        assert U - next.visited == U - w.visited || U - next.visited < U - w.visited;
        VisitDeps(env, U, next, deps[1..], chain)
  }

  function VisitRoots(env: Env, ghost U: set<ManifestHash>, w: Walk, roots: seq<RootRef>): Result<Walk, ResolverError>
    requires Finite(env, U)
    decreases |roots|
  {
    if roots == [] then Success(w)
    else
      match Visit(env, U, w, roots[0].package, roots[0].version, [ChainStep(roots[0].package, roots[0].version)])
      case Failure(e) => Failure(e)
      case Success(next) => VisitRoots(env, U, next, roots[1..])
  }

  /** Two chains reached one package name at different manifests. */
  predicate Conflicting(arrivals: seq<Arrival>) {
    exists i, j :: 0 <= i < j < |arrivals| && arrivals[i].hash != arrivals[j].hash
  }

  predicate HasConflict(w: Walk) {
    exists p :: p in w.byName && Conflicting(w.byName[p])
  }

  // ---- layers ----

  function Extend(seen: seq<DiffId>, ds: seq<DiffId>): seq<DiffId>
    decreases |ds|
  {
    if ds == [] then seen
    else Extend(if ds[0] in seen then seen else seen + [ds[0]], ds[1..])
  }

  /** Layer ids in first-seen order. */
  function FlattenLayers(manifests: seq<ResolvedManifest>): (r: seq<DiffId>) {
    if manifests == [] then []
    else Extend(FlattenLayers(manifests[..|manifests| - 1]), LayerDiffIds(manifests[|manifests| - 1].manifest.layers))
  }

  function Resolve(env: Env, ghost U: set<ManifestHash>, roots: seq<RootRef>): Result<Resolution, ResolverError>
    requires Finite(env, U)
  {
    match VisitRoots(env, U, START, roots)
    case Failure(e) => Failure(e)
    case Success(w) =>
      if HasConflict(w) then Failure(Conflict) else Success(Resolution(w.ordered, FlattenLayers(w.ordered)))
  }
}
