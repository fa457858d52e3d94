/** After an install, the local store alone resolves the same roots to the same result. */
module OfflineStability {
  import opened Wrappers
  import opened Types
  import opened Versions
  import opened StoreModel
  import opened StoreProofs
  import opened Resolver
  import opened ResolverProofs
  import opened LockfileProofs
  import opened Sources
  import opened Install

  /** No two refs lead to different manifests that call themselves the same name and version. */
  ghost predicate RefsDistinct(content: Content, s: State) {
    forall h, g | h in RefTargets(s.refs) && g in RefTargets(s.refs) && Named(content(h)) == Named(content(g)) :: h == g
  }

  /** A store before and after installing the resolved manifests ms, and what is local in each. */
  datatype Site = Site(f: Foreign, content: Content, s: State, t: State, before: Offline, after: Offline,
      ms: seq<ResolvedManifest>)

  ghost predicate Reinstalled(site: Site) {
    && ContentOf(site.f, site.content)
    && ObjectsSound(site.f, site.s) && ObjectsSound(site.f, site.t)
    && OfflineOf(site.f, site.s, site.before) && OfflineOf(site.f, site.t, site.after)
    && (forall k | k in site.s.refs :: k in site.t.refs && site.t.refs[k] == site.s.refs[k])
    && (forall k | k in site.t.refs && k !in site.s.refs :: exists m :: m in site.ms && RefOf(m) == k)
    && (forall m | m in site.ms :: RefOf(m) in site.t.refs && site.t.refs[RefOf(m)] == Points(m.hash))
  }

  lemma AfterContent(site: Site, h: ManifestHash)
    requires Reinstalled(site) && h in site.after.manifests
    ensures site.after.manifests[h] == site.content(h)
  {
    assert Readable(site.f, site.t, h);
    assert site.content(site.f.hash(site.t.objects[h])) == site.f.Parse(site.t.objects[h]).value;
  }

  lemma ResolvedIsLocal(site: Site, m: ResolvedManifest)
    requires Reinstalled(site) && m in site.ms
    ensures OfflineByHash(site.after, m.hash) == Success(Fetched(m.hash, site.content(m.hash)))
    ensures Named(site.content(m.hash)) in site.after.refs
  {
    assert site.t.refs[RefOf(m)] == Points(m.hash);
    assert m.hash in RefTargets(site.t.refs);
    AfterContent(site, m.hash);
  }

  /** A local manifest was local before the install or belongs to the resolution. */
  lemma LocalOrigin(site: Site, h: ManifestHash)
    requires Reinstalled(site) && h in site.after.manifests
    ensures h in RefTargets(site.s.refs) || exists m :: m in site.ms && m.hash == h
  {
    var k :| k in site.t.refs && site.t.refs[k] == Points(h);
    if k !in site.s.refs {
      var m :| m in site.ms && RefOf(m) == k;
    }
  }

  lemma BeforeContent(site: Site, h: ManifestHash)
    requires Reinstalled(site)
    requires h in RefTargets(site.s.refs)
    ensures h in site.before.manifests && site.before.manifests[h] == site.content(h)
    ensures Named(site.content(h)) in site.before.refs
  {
    assert Readable(site.f, site.s, h);
    assert site.content(site.f.hash(site.s.objects[h])) == site.f.Parse(site.s.objects[h]).value;
  }

  ghost predicate CarriesContent(site: Site) {
    forall m | m in site.ms :: m.manifest == site.content(m.hash)
  }

  /** Neither the refs nor the resolution hold two manifests that call themselves the same. */
  ghost predicate Unambiguous(site: Site) {
    CarriesContent(site) && LockedOnce(site.ms) && RefsDistinct(site.content, site.s)
  }

  /** The local versions of a name some resolved manifest carries: those that were local, and its own. */
  lemma LocalVersions(site: Site, m: ResolvedManifest, w: Version)
    requires Reinstalled(site) && Unambiguous(site) && m in site.ms
    requires (m.manifest.package, w) in site.after.refs
    ensures (m.manifest.package, w) in site.before.refs || w == m.manifest.version
  {
    var h := site.after.refs[(m.manifest.package, w)];
    AfterContent(site, h);
    LocalOrigin(site, h);
    if h in RefTargets(site.s.refs) {
      BeforeContent(site, h);
    } else {
      var x :| x in site.ms && x.hash == h;
    }
  }

  /** The manifest filed locally under the name and version of a resolved one is that one. */
  lemma LocalTarget(site: Site, m: ResolvedManifest)
    requires Reinstalled(site) && Unambiguous(site) && m in site.ms
    requires Named(m.manifest) in site.before.refs ==> site.before.refs[Named(m.manifest)] == m.hash
    ensures OfflineFetch(site.after, m.manifest.package, m.manifest.version) ==
        Success(Fetched(m.hash, site.content(m.hash)))
  {
    ResolvedIsLocal(site, m);
    var key := Named(m.manifest);
    assert key in site.after.refs;
    var h := site.after.refs[key];
    AfterContent(site, h);
    LocalOrigin(site, h);
    if h in RefTargets(site.s.refs) {
      BeforeContent(site, h);
      FiledBefore(site, h);
    } else {
      var x :| x in site.ms && x.hash == h;
    }
  }

  lemma FiledBefore(site: Site, h: ManifestHash)
    requires Reinstalled(site) && RefsDistinct(site.content, site.s) && h in RefTargets(site.s.refs)
    ensures Named(site.content(h)) in site.before.refs && site.before.refs[Named(site.content(h))] == h
  {
    BeforeContent(site, h);
    var g := site.before.refs[Named(site.content(h))];
    BeforeContent(site, g);
  }

  /** The version picked from the union is still the highest once it is local. */
  lemma PickStaysLocal(site: Site, sv: Semver, req: VersionReq, union: seq<Version>, local: seq<Version>,
                       m: ResolvedManifest)
    requires Reinstalled(site) && Unambiguous(site) && m in site.ms && TotalOrder(sv)
    requires forall v :: v in local <==> (m.manifest.package, v) in site.after.refs
    requires forall v | (m.manifest.package, v) in site.before.refs :: v in union
    requires HighestMatch(sv, req, union) == Some(m.manifest.version)
    ensures HighestMatch(sv, req, local) == Some(m.manifest.version)
  {
    var v := m.manifest.version;
    HighestMatchIsHighest(sv, req, union);
    ResolvedIsLocal(site, m);
    forall w | w in local && Eligible(sv, req, w) ensures sv.leq(w, v) {
      LocalVersions(site, m, w);
    }
    assert IsHighest(sv, req, local, v);
    HighestIsUnique(sv, req, local, union, v);
  }

  lemma HashAnswersAgree(a: Env, b: Env, content: Content, p: PackageRef, spec: VersionSpec, h: ManifestHash)
    requires b.sv == a.sv && b.lock == a.lock && (spec.Pinned? || Pin(a, p).Some?)
    requires Honest(a.src, content) && Edge(a, p, spec, h) && b.src.byHash(h) == Success(Fetched(h, content(h)))
    ensures Agree(a, b, p, spec)
  {
  }

  lemma ListAnswersAgree(a: Env, b: Env, content: Content, p: PackageRef, spec: VersionSpec, m: ResolvedManifest)
    requires b.sv == a.sv && b.lock == a.lock && !spec.Pinned? && Pin(a, p).None?
    requires Honest(a.src, content) && Edge(a, p, spec, m.hash) && b.src.list(p).Success?
    requires HighestMatch(b.sv, Requirement(spec), b.src.list(p).value) == Some(m.manifest.version)
    requires m.manifest == content(m.hash)
    requires b.src.fetch(p, m.manifest.version) == Success(Fetched(m.hash, content(m.hash)))
    ensures Agree(a, b, p, spec)
  {
  }

  lemma PickedVersion(env: Env, content: Content, p: PackageRef, spec: VersionSpec, m: ResolvedManifest)
    requires Honest(env.src, content) && Edge(env, p, spec, m.hash) && !spec.Pinned? && Pin(env, p).None?
    requires m.manifest == content(m.hash)
    ensures HighestMatch(env.sv, Requirement(spec), env.src.list(p).value) == Some(m.manifest.version)
  {
  }

  /**
   * a resolves against the local store with a registry behind it; b resolves with the same
   * lockfile against what is local after the install.
   */
  datatype Rerun = Rerun(site: Site, a: Env, b: Env, offline: VersionSource, registry: Option<VersionSource>)

  ghost predicate SourcesServe(r: Rerun) {
    && r.b.sv == r.a.sv && r.b.lock == r.a.lock && TotalOrder(r.a.sv)
    && ServesOffline(r.offline, r.site.before) && ServesHybrid(r.a.src, r.offline, r.registry)
    && ServesOffline(r.b.src, r.site.after)
  }

  lemma EdgeStaysLocal(r: Rerun, p: PackageRef, spec: VersionSpec, m: ResolvedManifest)
    requires Reinstalled(r.site) && Unambiguous(r.site) && m in r.site.ms
    requires SourcesServe(r) && Honest(r.a.src, r.site.content)
    requires Edge(r.a, p, spec, m.hash) && (!spec.Pinned? ==> m.manifest.package == p)
    ensures Agree(r.a, r.b, p, spec)
  {
    var site, a, b := r.site, r.a, r.b;
    if spec.Pinned? || Pin(a, p).Some? {
      ResolvedIsLocal(site, m);
      HashAnswersAgree(a, b, site.content, p, spec, m.hash);
    } else {
      var union, local := a.src.list(p).value, b.src.list(p).value;
      UnionCoversLocal(r, p);
      PickedVersion(a, site.content, p, spec, m);
      PickStaysLocal(site, a.sv, Requirement(spec), union, local, m);
      LocalFirstAnswer(r, p, spec, m);
      LocalTarget(site, m);
      ListAnswersAgree(a, b, site.content, p, spec, m);
    }
  }

  /** A version that was already local was answered locally. */
  lemma LocalFirstAnswer(r: Rerun, p: PackageRef, spec: VersionSpec, m: ResolvedManifest)
    requires SourcesServe(r) && forall k | k in r.site.before.refs :: r.site.before.refs[k] in r.site.before.manifests
    requires !spec.Pinned? && Pin(r.a, p).None? && Edge(r.a, p, spec, m.hash) && m.manifest.package == p
    requires HighestMatch(r.a.sv, Requirement(spec), r.a.src.list(p).value) == Some(m.manifest.version)
    ensures Named(m.manifest) in r.site.before.refs ==> r.site.before.refs[Named(m.manifest)] == m.hash
  {
    var v := m.manifest.version;
    if (p, v) in r.site.before.refs {
      assert r.offline.fetch(p, v) == OfflineFetch(r.site.before, p, v);
      assert r.a.src.fetch(p, v) == r.offline.fetch(p, v);
    }
  }

  lemma UnionCoversLocal(r: Rerun, p: PackageRef)
    requires SourcesServe(r)
    ensures r.a.src.list(p).Success? && forall v | (p, v) in r.site.before.refs :: v in r.a.src.list(p).value
  {
    assert forall v | (p, v) in r.site.before.refs :: v in r.offline.list(p).value;
  }

  /** The resolution in the setting is what a gave, and the store after is the store before with it installed. */
  ghost predicate InstallAndRepeat(r: Rerun, U: set<ManifestHash>, roots: seq<RootRef>) {
    && Finite(r.a, U) && Finite(r.b, U) && SourcesServe(r) && LockHonest(r.a.lock, r.site.content)
    && (r.registry.Some? ==> Honest(r.registry.value, r.site.content))
    && ContentOf(r.site.f, r.site.content) && ObjectsSound(r.site.f, r.site.s)
    && OfflineOf(r.site.f, r.site.s, r.site.before) && OfflineOf(r.site.f, r.site.t, r.site.after)
    && Resolve(r.a, U, roots).Success? && r.site.ms == Resolve(r.a, U, roots).value.manifests
    && Installed(r.site.f, r.site.s, r.site.t, Resolve(r.a, U, roots).value)
  }

  /** The highest version filed locally under the name that meets the requirement. */
  ghost predicate BestLocal(o: Offline, sv: Semver, p: PackageRef, req: VersionReq, v: Version) {
    && (p, v) in o.refs && Eligible(sv, req, v)
    && forall w | (p, w) in o.refs && Eligible(sv, req, w) :: sv.leq(w, v)
  }

  /** What is filed under it after the install is h. */
  ghost predicate PicksLocally(r: Rerun, p: PackageRef, spec: VersionSpec, h: ManifestHash)
    requires !spec.Pinned?
  {
    exists v :: BestLocal(r.site.after, r.a.sv, p, Requirement(spec), v) && r.site.after.refs[(p, v)] == h
  }

  /** So it is for every requirement that neither carries a pin nor finds a lockfile entry. */
  ghost predicate FoundAgain(r: Rerun, roots: seq<RootRef>) {
    forall p, spec | IsEdge(roots, r.site.ms, p, spec) && !spec.Pinned? && Pin(r.a, p).None? ::
      ResolveOne(r.a, p, spec).Success? && PicksLocally(r, p, spec, ResolveOne(r.a, p, spec).value.hash)
  }

  lemma SettingHolds(r: Rerun, U: set<ManifestHash>, roots: seq<RootRef>) returns (w: Walk)
    requires InstallAndRepeat(r, U, roots)
    ensures Honest(r.a.src, r.site.content) && Honest(r.b.src, r.site.content)
    ensures VisitRoots(r.a, U, START, roots) == Success(w) && w.ordered == r.site.ms
    ensures WalkInv(r.a, r.site.content, RootSet(roots), w, {}) && RootsServed(w, roots)
    ensures Reinstalled(r.site) && CarriesContent(r.site)
  {
    var site := r.site;
    OfflineIsHonest(site.f, site.s, site.before, r.offline, site.content);
    HybridIsHonest(r.a.src, r.offline, r.registry, site.content);
    InstalledGivesSetting(site, Resolve(r.a, U, roots).value);
    OfflineIsHonest(site.f, site.t, site.after, r.b.src, site.content);
    WalkSound(r.a, site.content, U, roots);
    w := VisitRoots(r.a, U, START, roots).value;
  }

  lemma BestIsPicked(r: Rerun, p: PackageRef, req: VersionReq, v: Version)
    requires SourcesServe(r) && BestLocal(r.site.after, r.a.sv, p, req, v)
    ensures HighestMatch(r.a.sv, req, r.b.src.list(p).value) == Some(v)
  {
    var local := r.b.src.list(p).value;
    HighestIsUnique(r.a.sv, req, local, local, v);
  }

  lemma FiledFetch(site: Site, p: PackageRef, v: Version)
    requires Reinstalled(site) && (p, v) in site.after.refs
    ensures var h := site.after.refs[(p, v)];
            OfflineFetch(site.after, p, v) == Success(Fetched(h, site.content(h))) && site.content(h).version == v
  {
    AfterContent(site, site.after.refs[(p, v)]);
  }

  lemma LocalPickAgrees(r: Rerun, p: PackageRef, spec: VersionSpec, m: ResolvedManifest)
    requires Reinstalled(r.site) && CarriesContent(r.site) && m in r.site.ms && SourcesServe(r)
    requires Honest(r.a.src, r.site.content) && Honest(r.b.src, r.site.content)
    requires !spec.Pinned? && Pin(r.a, p).None? && Edge(r.a, p, spec, m.hash)
    requires PicksLocally(r, p, spec, m.hash)
    ensures Agree(r.a, r.b, p, spec)
  {
    var v :| BestLocal(r.site.after, r.a.sv, p, Requirement(spec), v) && r.site.after.refs[(p, v)] == m.hash;
    BestIsPicked(r, p, Requirement(spec), v);
    FiledFetch(r.site, p, v);
    assert r.b.src.fetch(p, v) == OfflineFetch(r.site.after, p, v);
    ListAnswersAgree(r.a, r.b, r.site.content, p, spec, m);
  }

  /** Without an entry and a pin, the local store answers with what it filed under its pick. */
  lemma LocalAnswerIsPick(r: Rerun, p: PackageRef, spec: VersionSpec, h: ManifestHash)
    requires SourcesServe(r) && !spec.Pinned? && Pin(r.a, p).None? && Edge(r.b, p, spec, h)
    ensures PicksLocally(r, p, spec, h)
  {
    var local := r.b.src.list(p).value;
    HighestMatchIsHighest(r.a.sv, Requirement(spec), local);
    assert BestLocal(r.site.after, r.a.sv, p, Requirement(spec), HighestMatch(r.a.sv, Requirement(spec), local).value);
  }

  /** If every requirement finds its manifest again, the second resolution is the first. */
  lemma FoundAgainIsStable(r: Rerun, U: set<ManifestHash>, roots: seq<RootRef>)
    requires InstallAndRepeat(r, U, roots) && FoundAgain(r, roots)
    ensures Resolve(r.b, U, roots) == Resolve(r.a, U, roots)
  {
    var w := SettingHolds(r, U, roots);
    forall p, spec | Served(w, p, spec) ensures Agree(r.a, r.b, p, spec) {
      ServedIsEdge(r.a, r.site.content, roots, w, p, spec);
      var m := EdgeTarget(r.a, r.site.content, roots, w, p, spec);
      if spec.Pinned? || Pin(r.a, p).Some? {
        ResolvedIsLocal(r.site, m);
        HashAnswersAgree(r.a, r.b, r.site.content, p, spec, m.hash);
      } else {
        LocalPickAgrees(r, p, spec, m);
      }
    }
    SameAnswersSameResolution(r.a, r.b, U, roots);
  }

  /**
   * Resolve against the local store with a registry behind it, install, and resolve again with
   * the same lockfile against the local store alone: the result is the same manifests in the
   * same order and the same layers, unless the refs or the resolution hold two manifests that
   * call themselves the same.
   */
  lemma InstallMakesOfflineStable(r: Rerun, U: set<ManifestHash>, roots: seq<RootRef>)
    requires InstallAndRepeat(r, U, roots) && LockedOnce(r.site.ms) && RefsDistinct(r.site.content, r.site.s)
    ensures FoundAgain(r, roots) && Resolve(r.b, U, roots) == Resolve(r.a, U, roots)
  {
    var w := SettingHolds(r, U, roots);
    forall p, spec | IsEdge(roots, r.site.ms, p, spec) && !spec.Pinned? && Pin(r.a, p).None?
      ensures ResolveOne(r.a, p, spec).Success? && PicksLocally(r, p, spec, ResolveOne(r.a, p, spec).value.hash)
    {
      var m := EdgeTarget(r.a, r.site.content, roots, w, p, spec);
      EdgeStaysLocal(r, p, spec, m);
      LocalAnswerIsPick(r, p, spec, m.hash);
    }
    FoundAgainIsStable(r, U, roots);
  }

  /**
   * With two manifests of one name and version about, the second resolution is the first
   * exactly when every requirement finds its manifest again, where manifests are listed
   * under the names they were required by.
   */
  lemma OfflineStableIff(r: Rerun, U: set<ManifestHash>, roots: seq<RootRef>)
    requires InstallAndRepeat(r, U, roots) && ListedByName(r.a, roots, r.site.ms)
    ensures Resolve(r.b, U, roots) == Resolve(r.a, U, roots) <==> FoundAgain(r, roots)
  {
    var w := SettingHolds(r, U, roots);
    if FoundAgain(r, roots) {
      FoundAgainIsStable(r, U, roots);
    }
    if Resolve(r.b, U, roots) == Resolve(r.a, U, roots) {
      WalkSound(r.b, r.site.content, U, roots);
      var v := VisitRoots(r.b, U, START, roots).value;
      forall p, spec | IsEdge(roots, r.site.ms, p, spec) && !spec.Pinned? && Pin(r.a, p).None?
        ensures ResolveOne(r.a, p, spec).Success? && PicksLocally(r, p, spec, ResolveOne(r.a, p, spec).value.hash)
      {
        assert Listed(r.a, r.site.ms, p, spec);
        var m :| m in r.site.ms && m.package == p && Edge(r.a, p, spec, m.hash);
        ListedEdgeStays(r.b, r.site.content, roots, v, m, spec);
        LocalAnswerIsPick(r, p, spec, m.hash);
      }
    }
  }

  lemma InstalledGivesSetting(site: Site, r: Resolution)
    requires ContentOf(site.f, site.content) && ObjectsSound(site.f, site.s)
    requires OfflineOf(site.f, site.s, site.before) && OfflineOf(site.f, site.t, site.after)
    requires Installed(site.f, site.s, site.t, r) && site.ms == r.manifests
    ensures Reinstalled(site) && ObjectsSound(site.f, site.t)
  {
    var mid: State :| Complete(site.s, mid, r) && GainedSound(site.f, site.s, mid)
                      && RefsWritten(mid, site.t, r.manifests);
  }

  // ---- a package locked twice ----

  const ONE := Sha256([1])
  const TWO := Sha256([2])

  function Bare(v: Version): Manifest {
    Manifest(BY, v, [], [], [])
  }

  /** Content 1 is the higher version of b/y, content 2 the lower one. */
  function TwoForeign(lower: Version, higher: Version): Foreign {
    Foreign(bytes => Sha256(bytes), _ => None, _ => None, _ => true,
            bytes => if bytes == [1] then Some(Bare(higher)) else if bytes == [2] then Some(Bare(lower)) else None,
            _ => None)
  }

  function TwoContent(lower: Version, higher: Version): Content {
    h => if h == ONE then Bare(higher) else Bare(lower)
  }

  const NOTHING_LOCAL := Offline(map[], map[])

  function NoLocal(): VersionSource {
    VersionSource(_ => Success([]), (p, v) => OfflineFetch(NOTHING_LOCAL, p, v), h => OfflineByHash(NOTHING_LOCAL, h))
  }

  /** A registry that serves both by hash but lists only the lower version. */
  function TwoRegistry(lower: Version, higher: Version): VersionSource {
    VersionSource(
      p => Success(if p == BY then [lower] else []),
      (p, v) => if p == BY && v == lower then Success(Fetched(TWO, Bare(lower))) else Failure(ResolverError.Source("")),
      h => if h == ONE then Success(Fetched(ONE, Bare(higher)))
           else if h == TWO then Success(Fetched(TWO, Bare(lower)))
           else Failure(ResolverError.Source("")))
  }

  function TwoAfter(lower: Version, higher: Version): Offline {
    Offline(map[ONE := Bare(higher), TWO := Bare(lower)], map[(BY, higher) := ONE, (BY, lower) := TWO])
  }

  function TwoLocal(lower: Version, higher: Version): VersionSource {
    var after := TwoAfter(lower, higher);
    VersionSource(p => Success(if p == BY then [lower, higher] else []),
                  (p, v) => OfflineFetch(after, p, v), h => OfflineByHash(after, h))
  }

  function TwoResolved(lower: Version, higher: Version): seq<ResolvedManifest> {
    [ResolvedManifest(AX, ONE, Bare(higher)), ResolvedManifest(BY, TWO, Bare(lower))]
  }

  function TwoFetched(): State {
    State(map[ONE := [1], TWO := [2]], map[], map[], {}, BARE)
  }

  function TwoInstalled(lower: Version, higher: Version): State {
    TwoFetched().(refs :=
        map[RefKey("a", "x", higher.text) := Points(ONE), RefKey("b", "y", lower.text) := Points(TWO)])
  }

  const TWO_ROOTS := [RootRef(AX, Pinned(ONE)), RootRef(BY, Any)]

  lemma TwoSources(lower: Version, higher: Version)
    requires lower != higher
    ensures Honest(TwoRegistry(lower, higher), TwoContent(lower, higher))
    ensures ServesOffline(NoLocal(), NOTHING_LOCAL) && ServesOffline(TwoLocal(lower, higher), TwoAfter(lower, higher))
    ensures ServesHybrid(TwoRegistry(lower, higher), NoLocal(), Some(TwoRegistry(lower, higher)))
  {
  }

  lemma TwoStores(lower: Version, higher: Version)
    ensures var f := TwoForeign(lower, higher);
            && ContentOf(f, TwoContent(lower, higher)) && Sound(f, EMPTY)
            && RefsDistinct(TwoContent(lower, higher), EMPTY)
            && OfflineOf(f, EMPTY, NOTHING_LOCAL)
  {
  }

  lemma TwoAreLocal(lower: Version, higher: Version)
    requires lower != higher
    ensures OfflineOf(TwoForeign(lower, higher), TwoInstalled(lower, higher), TwoAfter(lower, higher))
  {
    var refs := TwoInstalled(lower, higher).refs;
    assert refs[RefKey("a", "x", higher.text)] == Points(ONE) && refs[RefKey("b", "y", lower.text)] == Points(TWO);
    assert RefTargets(refs) == {ONE, TWO};
  }

  lemma TwoInstall(lower: Version, higher: Version)
    requires lower.text != "." && higher.text != "."
    ensures Installed(TwoForeign(lower, higher), EMPTY, TwoInstalled(lower, higher),
        Resolution(TwoResolved(lower, higher), []))
  {
    var mid, ms := TwoFetched(), TwoResolved(lower, higher);
    assert Gained(EMPTY, mid) && Sound(TwoForeign(lower, higher), mid);
    assert ms[0] in ms && ms[1] in ms;
    assert RefsWritten(mid, TwoInstalled(lower, higher), ms);
  }

  lemma TwoResolutions(sv: Semver, src: VersionSource, one: Fetched, two: Fetched, first: seq<ResolvedManifest>)
    requires Finite(Env(sv, src, None), {ONE, TWO})
    requires ResolveOne(Env(sv, src, None), AX, Pinned(ONE)) == Success(one)
    requires ResolveOne(Env(sv, src, None), BY, Any) == Success(two)
    requires one.manifest.dependencies == two.manifest.dependencies == []
    requires one.manifest.layers == two.manifest.layers == []
    requires first == [ResolvedManifest(AX, one.hash, one.manifest)]
                      + if one.hash == two.hash then [] else [ResolvedManifest(BY, two.hash, two.manifest)]
    ensures Resolve(Env(sv, src, None), {ONE, TWO}, TWO_ROOTS) == Success(Resolution(first, []))
  {
    assert TWO_ROOTS == [TWO_ROOTS[0], TWO_ROOTS[1]];
    LeafRoots(Env(sv, src, None), {ONE, TWO}, TWO_ROOTS[0], TWO_ROOTS[1], one, two);
    NoLayers(first);
  }

  lemma TwoFinite(sv: Semver, lower: Version, higher: Version)
    ensures Finite(Env(sv, TwoRegistry(lower, higher), None), {ONE, TWO})
    ensures Finite(Env(sv, TwoLocal(lower, higher), None), {ONE, TWO})
  {
  }

  /** Two plain releases, one above the other, that "*" matches. */
  ghost predicate TwoReleases(sv: Semver, lower: Version, higher: Version) {
    && TotalOrder(sv) && lower != higher && sv.leq(lower, higher)
    && lower.text != "." && higher.text != "."
    && sv.matches(STAR, lower) && !sv.isPre(lower)
    && sv.matches(STAR, higher) && !sv.isPre(higher)
  }

  lemma TwoPicks(sv: Semver, lower: Version, higher: Version)
    requires TwoReleases(sv, lower, higher)
    ensures ResolveOne(Env(sv, TwoRegistry(lower, higher), None), BY, Any) == Success(Fetched(TWO, Bare(lower)))
    ensures ResolveOne(Env(sv, TwoLocal(lower, higher), None), BY, Any) == Success(Fetched(ONE, Bare(higher)))
  {
    HighestMatchIsHighest(sv, STAR, [lower]);
    HighestMatchIsHighest(sv, STAR, [lower, higher]);
  }

  lemma {:induction false} NoLayers(ms: seq<ResolvedManifest>)
    requires forall m | m in ms :: m.manifest.layers == []
    ensures FlattenLayers(ms) == []
  {
    if ms != [] {
      NoLayers(ms[..|ms| - 1]);
    }
  }

  lemma TwoOutcomes(sv: Semver, lower: Version, higher: Version)
    requires TwoReleases(sv, lower, higher)
    ensures var a, b := Env(sv, TwoRegistry(lower, higher), None), Env(sv, TwoLocal(lower, higher), None);
            && Finite(a, {ONE, TWO}) && Finite(b, {ONE, TWO})
            && Resolve(a, {ONE, TWO}, TWO_ROOTS) == Success(Resolution(TwoResolved(lower, higher), []))
            && Resolve(b, {ONE, TWO}, TWO_ROOTS) == Success(Resolution(TwoResolved(lower, higher)[..1], []))
  {
    TwoFinite(sv, lower, higher);
    TwoPicks(sv, lower, higher);
    var one, two := Fetched(ONE, Bare(higher)), Fetched(TWO, Bare(lower));
    TwoResolutions(sv, TwoRegistry(lower, higher), one, two, TwoResolved(lower, higher));
    TwoResolutions(sv, TwoLocal(lower, higher), one, one, TwoResolved(lower, higher)[..1]);
  }

  /** The install, repeated against the local store, resolves to `all` first and to `some` then. */
  ghost predicate Differs(r: Rerun, U: set<ManifestHash>, roots: seq<RootRef>, some: seq<ResolvedManifest>) {
    && InstallAndRepeat(r, U, roots) && RefsDistinct(r.site.content, r.site.s)
    && Resolve(r.a, U, roots) == Success(Resolution(r.site.ms, []))
    && Resolve(r.b, U, roots) == Success(Resolution(some, []))
  }

  function TwoRerun(sv: Semver, lower: Version, higher: Version): Rerun {
    Rerun(Site(TwoForeign(lower, higher), TwoContent(lower, higher), EMPTY, TwoInstalled(lower, higher),
               NOTHING_LOCAL, TwoAfter(lower, higher), TwoResolved(lower, higher)),
          Env(sv, TwoRegistry(lower, higher), None), Env(sv, TwoLocal(lower, higher), None),
          NoLocal(), Some(TwoRegistry(lower, higher)))
  }

  /** The pieces of the setting, without a lockfile and from an empty store. */
  lemma SettingFromPieces(r: Rerun, U: set<ManifestHash>, roots: seq<RootRef>, some: seq<ResolvedManifest>)
    requires r.a.lock.None? && r.site.s == EMPTY && r.registry.Some? && Honest(r.registry.value, r.site.content)
    requires Finite(r.a, U) && Finite(r.b, U) && SourcesServe(r)
    requires ContentOf(r.site.f, r.site.content) && Sound(r.site.f, EMPTY) && RefsDistinct(r.site.content, EMPTY)
    requires OfflineOf(r.site.f, EMPTY, r.site.before) && OfflineOf(r.site.f, r.site.t, r.site.after)
    requires Resolve(r.a, U, roots) == Success(Resolution(r.site.ms, []))
    requires Installed(r.site.f, EMPTY, r.site.t, Resolution(r.site.ms, []))
    requires Resolve(r.b, U, roots) == Success(Resolution(some, []))
    ensures Differs(r, U, roots, some)
  {
  }

  /**
   * Roots "a/x", pinned to a manifest that calls itself b/y in a higher version than the
   * registry lists, and any "b/y". Installing makes that version local, so the second
   * resolution picks it for b/y and finds one manifest instead of two.
   */
  lemma DuplicateNameBreaksOffline(sv: Semver, lower: Version, higher: Version)
    requires TwoReleases(sv, lower, higher)
    ensures Differs(TwoRerun(sv, lower, higher), {ONE, TWO}, TWO_ROOTS, TwoResolved(lower, higher)[..1])
  {
    TwoSources(lower, higher);
    TwoStores(lower, higher);
    TwoAreLocal(lower, higher);
    TwoInstall(lower, higher);
    TwoOutcomes(sv, lower, higher);
    SettingFromPieces(TwoRerun(sv, lower, higher), {ONE, TWO}, TWO_ROOTS, TwoResolved(lower, higher)[..1]);
  }

  // ---- installs keep the condition ----

  /** Every ref is filed under the name and version of the manifest it points to. */
  ghost predicate RefsNamed(content: Content, s: State) {
    forall k | k in s.refs && s.refs[k].Points? ::
      var m := content(s.refs[k].target);
      k == RefKey(m.package.namespace, m.package.name, m.version.text)
  }

  /** A store filled by installs whose pins carry the right names never holds such a pair. */
  lemma InstallsKeepRefsNamed(f: Foreign, content: Content, U: set<ManifestHash>, roots: seq<RootRef>, s: State,
                              t: State, a: Env)
    requires Finite(a, U) && TotalOrder(a.sv) && LockHonest(a.lock, content) && Honest(a.src, content)
    requires RefsNamed(content, s)
    requires Resolve(a, U, roots).Success? && PinsNamed(content, roots, Resolve(a, U, roots).value.manifests)
    requires Installed(f, s, t, Resolve(a, U, roots).value)
    ensures RefsNamed(content, t) && RefsDistinct(content, t)
    ensures LockedOnce(Resolve(a, U, roots).value.manifests)
  {
    NamedPinsLockOnce(a, content, U, roots);
    var ms := Resolve(a, U, roots).value.manifests;
    var mid: State :| Complete(s, mid, Resolve(a, U, roots).value) && GainedSound(f, s, mid)
                      && RefsWritten(mid, t, ms);
    forall k | k in t.refs && k !in s.refs
      ensures k == RefKey(content(t.refs[k].target).package.namespace, content(t.refs[k].target).package.name,
          content(t.refs[k].target).version.text)
    {
      var m :| m in ms && RefOf(m) == k;
      assert t.refs[k] == Points(m.hash);
    }
    NamedRefsDistinct(content, t);
  }

  lemma NamedRefsDistinct(content: Content, s: State)
    requires RefsNamed(content, s)
    ensures RefsDistinct(content, s)
  {
    forall h, g | h in RefTargets(s.refs) && g in RefTargets(s.refs) && Named(content(h)) == Named(content(g))
        ensures h == g {
      var k :| k in s.refs && s.refs[k].Points? && s.refs[k].target == h;
      var j :| j in s.refs && s.refs[j].Points? && s.refs[j].target == g;
      assert k == j;
    }
  }
}
