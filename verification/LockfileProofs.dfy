/** How lock, verify, update and resolution with a lockfile fit together. */
module LockfileProofs {
  import opened Wrappers
  import opened Types
  import opened Versions
  import opened Resolver
  import opened ResolverProofs
  import opened LockfileOps

  // ---- two environments that answer alike walk alike ----

  ghost predicate Agree(a: Env, b: Env, p: PackageRef, spec: VersionSpec) {
    ResolveOne(a, p, spec) == ResolveOne(b, p, spec)
  }

  /** Either a and b answer every question alike, or those that the finished walk asked. */
  ghost predicate AgreeOn(a: Env, b: Env, finished: Option<Walk>) {
    forall p, spec | finished.None? || Served(finished.value, p, spec) :: Agree(a, b, p, spec)
  }

  ghost predicate Within(r: Result<Walk, ResolverError>, finished: Option<Walk>) {
    finished.Some? ==> r.Success? && Grows(r.value, finished.value)
  }

  lemma {:induction false} VisitGrows(env: Env, U: set<ManifestHash>, w: Walk, p: PackageRef, spec: VersionSpec,
                                      chain: Chain)
    requires Finite(env, U) && Visit(env, U, w, p, spec, chain).Success?
    requires chain != [] && Last(chain) == ChainStep(p, spec)
    ensures Grows(w, Visit(env, U, w, p, spec, chain).value)
    ensures Served(Visit(env, U, w, p, spec, chain).value, p, spec)
    decreases U - w.visited, 0
  {
    var f := ResolveOne(env, p, spec).value;
    var a := Record(w, p, Arrival(chain, f.hash));
    assert Recorded(a, p, Arrival(chain, f.hash));
    assert Grows(w, a);
    if f.hash !in w.visited {
      var b := a.(visited := w.visited + {f.hash});
      VisitDepsGrows(env, U, b, SortDeps(f.manifest.dependencies), chain);
      var c := VisitDeps(env, U, b, SortDeps(f.manifest.dependencies), chain).value;
      var r := Visit(env, U, w, p, spec, chain).value;
      assert Grows(a, b) && Grows(c, r);
      GrowsTrans(a, b, c);
      GrowsTrans(a, c, r);
      GrowsTrans(w, a, r);
      ServedGrows(a, r, p, spec);
    }
  }

  lemma {:induction false} VisitDepsGrows(env: Env, U: set<ManifestHash>, w: Walk, deps: seq<Dependency>, chain: Chain)
    requires Finite(env, U) && VisitDeps(env, U, w, deps, chain).Success?
    ensures Grows(w, VisitDeps(env, U, w, deps, chain).value)
    decreases U - w.visited, 1 + |deps|
  {
    if deps != [] {
      var longer := chain + [ChainStep(deps[0].reference, deps[0].version)];
      VisitGrows(env, U, w, deps[0].reference, deps[0].version, longer);
      var next := Visit(env, U, w, deps[0].reference, deps[0].version, longer).value;
      assert U - next.visited == U - w.visited || U - next.visited < U - w.visited;
      VisitDepsGrows(env, U, next, deps[1..], chain);
      GrowsTrans(w, next, VisitDeps(env, U, w, deps, chain).value);
    }
  }

  lemma {:induction false} VisitRootsGrows(env: Env, U: set<ManifestHash>, w: Walk, roots: seq<RootRef>)
    requires Finite(env, U) && VisitRoots(env, U, w, roots).Success?
    ensures Grows(w, VisitRoots(env, U, w, roots).value)
    decreases |roots|
  {
    if roots != [] {
      var chain := [ChainStep(roots[0].package, roots[0].version)];
      VisitGrows(env, U, w, roots[0].package, roots[0].version, chain);
      var next := Visit(env, U, w, roots[0].package, roots[0].version, chain).value;
      VisitRootsGrows(env, U, next, roots[1..]);
      GrowsTrans(w, next, VisitRoots(env, U, w, roots).value);
    }
  }

  lemma {:induction false} VisitAgrees(a: Env, b: Env, U: set<ManifestHash>, w: Walk, p: PackageRef, spec: VersionSpec,
                                       chain: Chain,
                                       finished: Option<Walk>)
    requires Finite(a, U) && Finite(b, U) && AgreeOn(a, b, finished)
    requires chain != [] && Last(chain) == ChainStep(p, spec) && Within(Visit(a, U, w, p, spec, chain), finished)
    ensures Visit(a, U, w, p, spec, chain) == Visit(b, U, w, p, spec, chain)
    decreases U - w.visited, 0
  {
    if finished.Some? {
      VisitGrows(a, U, w, p, spec, chain);
      ServedGrows(Visit(a, U, w, p, spec, chain).value, finished.value, p, spec);
    }
    assert Agree(a, b, p, spec);
    var r := ResolveOne(a, p, spec);
    if r.Success? && r.value.hash !in w.visited {
      var start := Record(w, p, Arrival(chain, r.value.hash)).(visited := w.visited + {r.value.hash});
      var deps := SortDeps(r.value.manifest.dependencies);
      var c := VisitDeps(a, U, start, deps, chain);
      if finished.Some? {
        GrowsTrans(c.value, Visit(a, U, w, p, spec, chain).value, finished.value);
      }
      VisitDepsAgrees(a, b, U, start, deps, chain, finished);
    }
  }

  lemma {:induction false} VisitDepsAgrees(a: Env, b: Env, U: set<ManifestHash>, w: Walk, deps: seq<Dependency>,
                                           chain: Chain,
                                           finished: Option<Walk>)
    requires Finite(a, U) && Finite(b, U) && AgreeOn(a, b, finished)
    requires Within(VisitDeps(a, U, w, deps, chain), finished)
    ensures VisitDeps(a, U, w, deps, chain) == VisitDeps(b, U, w, deps, chain)
    decreases U - w.visited, 1 + |deps|
  {
    if deps != [] {
      var d := deps[0];
      var longer := chain + [ChainStep(d.reference, d.version)];
      var first := Visit(a, U, w, d.reference, d.version, longer);
      if finished.Some? {
        VisitDepsGrows(a, U, first.value, deps[1..], chain);
        GrowsTrans(first.value, VisitDeps(a, U, w, deps, chain).value, finished.value);
      }
      VisitAgrees(a, b, U, w, d.reference, d.version, longer, finished);
      if first.Success? {
        assert U - first.value.visited == U - w.visited || U - first.value.visited < U - w.visited;
        VisitDepsAgrees(a, b, U, first.value, deps[1..], chain, finished);
      }
    }
  }

  lemma {:induction false} VisitRootsAgrees(a: Env, b: Env, U: set<ManifestHash>, w: Walk, roots: seq<RootRef>,
                                            finished: Option<Walk>)
    requires Finite(a, U) && Finite(b, U) && AgreeOn(a, b, finished)
    requires Within(VisitRoots(a, U, w, roots), finished)
    ensures VisitRoots(a, U, w, roots) == VisitRoots(b, U, w, roots)
    decreases |roots|
  {
    if roots != [] {
      var x := roots[0];
      var chain := [ChainStep(x.package, x.version)];
      var first := Visit(a, U, w, x.package, x.version, chain);
      if finished.Some? {
        VisitRootsGrows(a, U, first.value, roots[1..]);
        GrowsTrans(first.value, VisitRoots(a, U, w, roots).value, finished.value);
      }
      VisitAgrees(a, b, U, w, x.package, x.version, chain, finished);
      if first.Success? {
        VisitRootsAgrees(a, b, U, first.value, roots[1..], finished);
      }
    }
  }

  /** If the answers to the questions a successful resolution asked are the same, so is the result. */
  lemma SameAnswersSameResolution(a: Env, b: Env, U: set<ManifestHash>, roots: seq<RootRef>)
    requires Finite(a, U) && Finite(b, U) && Resolve(a, U, roots).Success?
    requires AgreeOn(a, b, Some(VisitRoots(a, U, START, roots).value))
    ensures Resolve(b, U, roots) == Resolve(a, U, roots)
  {
    VisitRootsAgrees(a, b, U, START, roots, Some(VisitRoots(a, U, START, roots).value));
  }

  /** `update` without names is `lock`, errors included. */
  lemma UpdateAllIsLock(sv: Semver, src: VersionSource, U: set<ManifestHash>, manifest: Manifest, lock: Lockfile)
    requires Finite(Env(sv, src, None), U) && Finite(Env(sv, src, Some(NO_PINS)), U)
    ensures Update(sv, src, U, manifest, lock, None) == Lock(sv, src, U, manifest)
  {
    var a, b := Env(sv, src, None), Env(sv, src, Some(NO_PINS));
    forall p, spec ensures Agree(a, b, p, spec) {
    }
    VisitRootsAgrees(a, b, U, START, RootsOf(manifest.dependencies), None);
  }

  // ---- replaying a lockfile ----

  /** No two resolved manifests call themselves the same: no package is locked twice. */
  ghost predicate LockedOnce(ms: seq<ResolvedManifest>) {
    forall x, y | x in ms && y in ms && x.manifest.package == y.manifest.package :: x.hash == y.hash
  }

  /** For every unpinned requirement, the lockfile entry found for its name is what it resolved to. */
  ghost predicate LooksUpResolved(env: Env, roots: seq<RootRef>, ms: seq<ResolvedManifest>) {
    forall p, spec | IsEdge(roots, ms, p, spec) && !spec.Pinned? :: EntryLeads(env, ms, p, spec)
  }

  ghost predicate EntryLeads(env: Env, ms: seq<ResolvedManifest>, p: PackageRef, spec: VersionSpec) {
    var entry := Lookup(ToLockfile(ms).packages, p);
    entry.Some? && Edge(env, p, spec, entry.value.hash)
  }

  /** Every unpinned requirement's manifest was first reached under the name it was required by. */
  ghost predicate ListedByName(env: Env, roots: seq<RootRef>, ms: seq<ResolvedManifest>) {
    forall p, spec | IsEdge(roots, ms, p, spec) && !spec.Pinned? :: Listed(env, ms, p, spec)
  }

  ghost predicate Listed(env: Env, ms: seq<ResolvedManifest>, p: PackageRef, spec: VersionSpec) {
    exists m :: m in ms && m.package == p && Edge(env, p, spec, m.hash)
  }

  lemma ArrivalOf(env: Env, content: Content, roots: seq<RootRef>, w: Walk, m: ResolvedManifest) returns (a: Arrival)
    requires WalkInv(env, content, RootSet(roots), w, {}) && m in w.ordered
    ensures Recorded(w, m.package, a) && a.hash == m.hash && a.chain != [] && Last(a.chain).package == m.package
    ensures Edge(env, m.package, Last(a.chain).spec, m.hash) && Served(w, m.package, Last(a.chain).spec)
  {
    assert Reached(w, m.package, m.hash);
    a :| Recorded(w, m.package, a) && a.hash == m.hash;
    assert ArrivalSound(env, RootSet(roots), w, m.package, a);
    assert Last(a.chain) == ChainStep(m.package, Last(a.chain).spec);
  }

  /** Without a pin, resolving a name gives a manifest of that name. */
  lemma OwnName(env: Env, content: Content, p: PackageRef, spec: VersionSpec)
    requires Honest(env.src, content) && LockHonest(env.lock, content)
    requires ResolveOne(env, p, spec).Success? && !spec.Pinned?
    ensures content(ResolveOne(env, p, spec).value.hash).package == p
  {
  }

  lemma EdgeTarget(env: Env, content: Content, roots: seq<RootRef>, w: Walk, p: PackageRef, spec: VersionSpec)
      returns (m: ResolvedManifest)
    requires Honest(env.src, content) && LockHonest(env.lock, content)
    requires WalkInv(env, content, RootSet(roots), w, {}) && RootsServed(w, roots) && IsEdge(roots, w.ordered, p, spec)
    ensures m in w.ordered && m.manifest == content(m.hash) && Edge(env, p, spec, m.hash)
    ensures !spec.Pinned? ==> m.manifest.package == p
  {
    var a := EdgeArrives(env, content, roots, w, p, spec);
    m :| m in w.ordered && m.hash == a.hash;
    if !spec.Pinned? {
      OwnName(env, content, p, spec);
    }
  }

  /** The entry found for a name some resolved manifest carries comes from such a manifest. */
  lemma EntryOrigin(ms: seq<ResolvedManifest>, m: ResolvedManifest) returns (x: ResolvedManifest)
    requires m in ms
    ensures Lookup(ToLockfile(ms).packages, m.manifest.package) == Some(EntryOf(x))
    ensures x in ms && x.manifest.package == m.manifest.package
  {
    var packages := ToLockfile(ms).packages;
    var i :| 0 <= i < |ms| && ms[i] == m;
    assert packages[i] in packages;
    var entry := Lookup(packages, m.manifest.package).value;
    var j :| 0 <= j < |packages| && packages[j] == entry;
    x := ms[j];
  }

  lemma LockedOnceLeads(env: Env, content: Content, roots: seq<RootRef>, w: Walk, p: PackageRef, spec: VersionSpec)
    requires Honest(env.src, content) && LockHonest(env.lock, content) && LockedOnce(w.ordered)
    requires WalkInv(env, content, RootSet(roots), w, {}) && RootsServed(w, roots)
    requires IsEdge(roots, w.ordered, p, spec) && !spec.Pinned?
    ensures EntryLeads(env, w.ordered, p, spec)
  {
    var m := EdgeTarget(env, content, roots, w, p, spec);
    var x := EntryOrigin(w.ordered, m);
    assert x.hash == m.hash;
  }

  lemma EntriesAreHonest(content: Content, ms: seq<ResolvedManifest>)
    requires forall m | m in ms :: m.manifest == content(m.hash)
    ensures LockHonest(Some(ToLockfile(ms)), content)
  {
    forall e | e in ToLockfile(ms).packages
      ensures content(e.hash).package == e.package && content(e.hash).version == e.version
    {
      var i :| 0 <= i < |ms| && ToLockfile(ms).packages[i] == e;
      assert ms[i] in ms;
    }
  }

  /** A matching entry for the hash an unpinned requirement resolved to gives the same answer. */
  lemma EntryAgrees(a: Env, b: Env, content: Content, p: PackageRef, spec: VersionSpec, entry: LockEntry)
    requires a.lock.None? && b.sv == a.sv && b.src == a.src && Pin(b, p) == Some(entry)
    requires Honest(a.src, content) && TotalOrder(a.sv)
    requires Edge(a, p, spec, entry.hash) && entry.version == content(entry.hash).version
    ensures Agree(a, b, p, spec)
  {
    EdgeSatisfies(a, content, p, spec);
  }

  lemma LeadingEntryAgrees(a: Env, content: Content, ms: seq<ResolvedManifest>, p: PackageRef, spec: VersionSpec)
    requires a.lock.None? && Honest(a.src, content) && TotalOrder(a.sv)
    requires forall m | m in ms :: m.manifest == content(m.hash)
    requires !spec.Pinned? ==> EntryLeads(a, ms, p, spec)
    ensures Agree(a, a.(lock := Some(ToLockfile(ms))), p, spec)
  {
    if !spec.Pinned? {
      EntriesAreHonest(content, ms);
      EntryAgrees(a, a.(lock := Some(ToLockfile(ms))), content, p, spec, Lookup(ToLockfile(ms).packages, p).value);
    }
  }

  /** A lockfile made from a resolution adds nothing to what the source can produce. */
  lemma ReplayIsFinite(a: Env, content: Content, U: set<ManifestHash>, roots: seq<RootRef>, w: Walk)
    requires Finite(a, U) && a.lock.None? && Honest(a.src, content) && WalkInv(a, content, RootSet(roots), w, {})
    ensures Finite(a.(lock := Some(ToLockfile(w.ordered))), U)
  {
    var b := a.(lock := Some(ToLockfile(w.ordered)));
    forall p, spec | ResolveOne(b, p, spec).Success? ensures ResolveOne(b, p, spec).value.hash in U {
      if !spec.Pinned? && Pin(b, p).Some? {
        var entry := Pin(b, p).value;
        var i :| 0 <= i < |w.ordered| && ToLockfile(w.ordered).packages[i] == entry;
        assert w.ordered[i] in w.ordered;
        var x := ArrivalOf(a, content, roots, w, w.ordered[i]);
      } else {
        assert ResolveOne(a, p, spec) == ResolveOne(b, p, spec);
      }
    }
  }

  ghost predicate Replays(a: Env, U: set<ManifestHash>, roots: seq<RootRef>)
    requires Finite(a, U) && Resolve(a, U, roots).Success?
  {
    var b := a.(lock := Some(ToLockfile(Resolve(a, U, roots).value.manifests)));
    Finite(b, U) && Resolve(b, U, roots) == Resolve(a, U, roots)
  }

  /**
   * Resolving the same roots with the lockfile that `lock` produced succeeds with the same
   * manifests in the same order and the same layers, if the entry found for every unpinned
   * requirement is what it resolved to; so in particular if no package is locked twice.
   */
  lemma LockReplays(a: Env, content: Content, U: set<ManifestHash>, roots: seq<RootRef>)
    requires a.lock.None? && Honest(a.src, content) && TotalOrder(a.sv) && Finite(a, U)
    requires Resolve(a, U, roots).Success?
    ensures var ms := Resolve(a, U, roots).value.manifests;
            && (LooksUpResolved(a, roots, ms) ==> Replays(a, U, roots))
            && (LockedOnce(ms) ==> LooksUpResolved(a, roots, ms))
  {
    WalkSound(a, content, U, roots);
    var w := VisitRoots(a, U, START, roots).value;
    if LockedOnce(w.ordered) {
      forall p, spec | IsEdge(roots, w.ordered, p, spec) && !spec.Pinned? ensures EntryLeads(a, w.ordered, p, spec) {
        LockedOnceLeads(a, content, roots, w, p, spec);
      }
    }
    if LooksUpResolved(a, roots, w.ordered) {
      var b := a.(lock := Some(ToLockfile(w.ordered)));
      ReplayIsFinite(a, content, U, roots, w);
      forall p, spec | Served(w, p, spec) ensures Agree(a, b, p, spec) {
        ServedIsEdge(a, content, roots, w, p, spec);
        LeadingEntryAgrees(a, content, w.ordered, p, spec);
      }
      SameAnswersSameResolution(a, b, U, roots);
    }
  }

  /**
   * Where two environments give the same manifests, a requirement whose manifest was first
   * reached under its name in one is answered with that manifest in the other.
   */
  lemma ListedEdgeStays(b: Env, content: Content, roots: seq<RootRef>, v: Walk, m: ResolvedManifest, spec: VersionSpec)
    requires WalkInv(b, content, RootSet(roots), v, {}) && RootsServed(v, roots) && !HasConflict(v)
    requires m in v.ordered && IsEdge(roots, v.ordered, m.package, spec)
    ensures Edge(b, m.package, spec, m.hash)
  {
    var arrived := EdgeArrives(b, content, roots, v, m.package, spec);
    var first := ArrivalOf(b, content, roots, v, m);
    NoConflictMeansOneHash(v, m.package, arrived, first);
  }

  lemma ReplayedEntryLeads(a: Env, b: Env, content: Content, roots: seq<RootRef>, w: Walk, v: Walk, p: PackageRef,
                           spec: VersionSpec)
    requires Honest(a.src, content) && a.lock.None? && b == a.(lock := Some(ToLockfile(w.ordered)))
    requires WalkInv(a, content, RootSet(roots), w, {}) && RootsServed(w, roots)
    requires WalkInv(b, content, RootSet(roots), v, {}) && RootsServed(v, roots) && !HasConflict(v)
    requires v.ordered == w.ordered
    requires IsEdge(roots, w.ordered, p, spec) && !spec.Pinned? && Listed(a, w.ordered, p, spec)
    ensures EntryLeads(a, w.ordered, p, spec)
  {
    var m :| m in w.ordered && m.package == p && Edge(a, p, spec, m.hash);
    OwnName(a, content, p, spec);
    var x := EntryOrigin(w.ordered, m);
    ListedEdgeStays(b, content, roots, v, m, spec);
    PinDecides(b, content, p, spec, m.hash);
  }

  /** Exactly then, when every unpinned requirement's manifest was first reached under its name. */
  lemma LockReplaysIff(a: Env, content: Content, U: set<ManifestHash>, roots: seq<RootRef>)
    requires a.lock.None? && Honest(a.src, content) && TotalOrder(a.sv) && Finite(a, U)
    requires Resolve(a, U, roots).Success? && ListedByName(a, roots, Resolve(a, U, roots).value.manifests)
    ensures Replays(a, U, roots) <==> LooksUpResolved(a, roots, Resolve(a, U, roots).value.manifests)
  {
    LockReplays(a, content, U, roots);
    if Replays(a, U, roots) {
      WalkSound(a, content, U, roots);
      var w := VisitRoots(a, U, START, roots).value;
      var b := a.(lock := Some(ToLockfile(w.ordered)));
      EntriesAreHonest(content, w.ordered);
      WalkSound(b, content, U, roots);
      var v := VisitRoots(b, U, START, roots).value;
      forall p, spec | IsEdge(roots, w.ordered, p, spec) && !spec.Pinned? ensures EntryLeads(a, w.ordered, p, spec) {
        assert Listed(a, w.ordered, p, spec);
        ReplayedEntryLeads(a, b, content, roots, w, v, p, spec);
      }
    }
  }

  // ---- when no package is locked twice ----

  /** Every hash that a root or a resolved manifest pins is a manifest of the name it is pinned under. */
  ghost predicate PinsNamed(content: Content, roots: seq<RootRef>, ms: seq<ResolvedManifest>) {
    forall p, h | IsEdge(roots, ms, p, Pinned(h)) :: content(h).package == p
  }

  /** With named pins every resolved manifest carries the name it was asked for under. */
  lemma NamedByEdge(env: Env, content: Content, roots: seq<RootRef>, w: Walk, m: ResolvedManifest)
    requires Honest(env.src, content) && LockHonest(env.lock, content) && TotalOrder(env.sv)
    requires WalkInv(env, content, RootSet(roots), w, {}) && PinsNamed(content, roots, w.ordered) && m in w.ordered
    ensures m.manifest.package == m.package
  {
    var a := ArrivalOf(env, content, roots, w, m);
    var spec := Last(a.chain).spec;
    ServedIsEdge(env, content, roots, w, m.package, spec);
    if spec.Pinned? {
      assert IsEdge(roots, w.ordered, m.package, Pinned(spec.hash));
    } else {
      OwnName(env, content, m.package, spec);
    }
  }

  /** Pins that carry the right names never lock a package twice. */
  lemma NamedPinsLockOnce(env: Env, content: Content, U: set<ManifestHash>, roots: seq<RootRef>)
    requires Honest(env.src, content) && LockHonest(env.lock, content) && TotalOrder(env.sv) && Finite(env, U)
    requires Resolve(env, U, roots).Success? && PinsNamed(content, roots, Resolve(env, U, roots).value.manifests)
    ensures LockedOnce(Resolve(env, U, roots).value.manifests)
    ensures forall m | m in Resolve(env, U, roots).value.manifests ::
        m.manifest.package == m.package && m.manifest == content(m.hash)
  {
    WalkSound(env, content, U, roots);
    var w := VisitRoots(env, U, START, roots).value;
    forall m | m in w.ordered ensures m.manifest.package == m.package {
      NamedByEdge(env, content, roots, w, m);
    }
    forall x, y | x in w.ordered && y in w.ordered && x.manifest.package == y.manifest.package
        ensures x.hash == y.hash {
      var a := ArrivalOf(env, content, roots, w, x);
      var b := ArrivalOf(env, content, roots, w, y);
      NoConflictMeansOneHash(w, x.package, a, b);
    }
  }

  // ---- verifying a lockfile ----

  /** Some resolved manifest calls itself p. */
  ghost predicate SelfNamed(ms: seq<ResolvedManifest>, p: PackageRef) {
    exists m :: m in ms && m.manifest.package == p
  }

  lemma UnpinnedPasses(env: Env, content: Content, roots: seq<RootRef>, w: Walk, d: Dependency)
    requires Honest(env.src, content) && env.lock.None? && TotalOrder(env.sv) && LockedOnce(w.ordered)
    requires WalkInv(env, content, RootSet(roots), w, {}) && RootsServed(w, roots)
    requires RootRef(d.reference, d.version) in roots
    requires !d.version.Pinned?
    ensures DepError(env.sv, ToLockfile(w.ordered), d).None?
  {
    assert IsEdge(roots, w.ordered, d.reference, d.version);
    var m := EdgeTarget(env, content, roots, w, d.reference, d.version);
    var x := EntryOrigin(w.ordered, m);
    EdgeSatisfies(env, content, d.reference, d.version);
    assert x.hash == m.hash && x.manifest == content(x.hash);
  }

  lemma PinnedPassesIff(sv: Semver, ms: seq<ResolvedManifest>, d: Dependency)
    requires d.version.Pinned?
    ensures DepError(sv, ToLockfile(ms), d).None? <==> SelfNamed(ms, d.reference)
  {
    if SelfNamed(ms, d.reference) {
      var m :| m in ms && m.manifest.package == d.reference;
      var x := EntryOrigin(ms, m);
    }
    if Lookup(ToLockfile(ms).packages, d.reference).Some? {
      var entry := Lookup(ToLockfile(ms).packages, d.reference).value;
      var i :| 0 <= i < |ms| && ToLockfile(ms).packages[i] == entry;
      assert ms[i] in ms;
    }
  }

  lemma DepsPassIff(env: Env, content: Content, deps: seq<Dependency>, w: Walk)
    requires Honest(env.src, content) && env.lock.None? && TotalOrder(env.sv) && LockedOnce(w.ordered)
    requires WalkInv(env, content, RootSet(RootsOf(deps)), w, {}) && RootsServed(w, RootsOf(deps))
    ensures VerifyErrors(env.sv, ToLockfile(w.ordered), deps) == [] <==>
            forall d | d in deps && d.version.Pinned? :: SelfNamed(w.ordered, d.reference)
  {
    forall d | d in deps
      ensures DepError(env.sv, ToLockfile(w.ordered), d).None? <==>
          !d.version.Pinned? || SelfNamed(w.ordered, d.reference)
    {
      var i :| 0 <= i < |deps| && deps[i] == d;
      assert RootsOf(deps)[i] in RootsOf(deps);
      if d.version.Pinned? {
        PinnedPassesIff(env.sv, w.ordered, d);
      } else {
        UnpinnedPasses(env, content, RootsOf(deps), w, d);
      }
    }
    VerifyErrorsEmpty(env.sv, ToLockfile(w.ordered), deps);
  }

  /**
   * If no package is locked twice, what `lock` writes passes `verify` for the manifest it was
   * made from exactly when every name that manifest pins is some resolved manifest's own name.
   */
  lemma LockVerifiesIff(sv: Semver, src: VersionSource, content: Content, U: set<ManifestHash>, manifest: Manifest)
    requires Honest(src, content) && TotalOrder(sv) && Finite(Env(sv, src, None), U)
    requires Lock(sv, src, U, manifest).Success?
    requires LockedOnce(Resolve(Env(sv, src, None), U, RootsOf(manifest.dependencies)).value.manifests)
    ensures var ms := Resolve(Env(sv, src, None), U, RootsOf(manifest.dependencies)).value.manifests;
            VerifyErrors(sv, Lock(sv, src, U, manifest).value, manifest.dependencies) == [] <==>
            forall d | d in manifest.dependencies && d.version.Pinned? :: SelfNamed(ms, d.reference)
  {
    var a := Env(sv, src, None);
    WalkSound(a, content, U, RootsOf(manifest.dependencies));
    DepsPassIff(a, content, manifest.dependencies, VisitRoots(a, U, START, RootsOf(manifest.dependencies)).value);
  }

  // ---- named update ----

  lemma PinDecides(env: Env, content: Content, p: PackageRef, spec: VersionSpec, h: ManifestHash)
    requires Honest(env.src, content) && Pin(env, p).Some? && !spec.Pinned? && Edge(env, p, spec, h)
    ensures h == Pin(env, p).value.hash
  {
  }

  lemma ResolvedIsLocked(ms: seq<ResolvedManifest>, h: ManifestHash)
    requires h in Hashes(ms)
    ensures exists e :: e in ToLockfile(ms).packages && e.hash == h
  {
    var i :| 0 <= i < |ms| && ms[i].hash == h;
    assert ToLockfile(ms).packages[i].hash == h;
  }

  /**
   * A named update that succeeds leaves every locked package whose bare name is not listed at
   * its old hash, wherever an unpinned requirement on it stands, so also when only a listed
   * package needs it.
   */
  lemma UpdateKeepsUnlisted(sv: Semver, src: VersionSource, content: Content, U: set<ManifestHash>, manifest: Manifest,
                            lock: Lockfile, names: seq<string>, p: PackageRef, spec: VersionSpec)
    requires Honest(src, content) && LockHonest(Some(lock), content) && TotalOrder(sv)
    requires Finite(Env(sv, src, Some(PinFilter(lock, Some(names)))), U)
    requires Update(sv, src, U, manifest, lock, Some(names)).Success?
    requires Lookup(lock.packages, p).Some? && p.name !in names && !spec.Pinned?
    requires var roots := RootsOf(manifest.dependencies);
             IsEdge(roots, Resolve(Env(sv, src, Some(PinFilter(lock, Some(names)))), U, roots).value.manifests, p, spec)
    ensures exists e ::
        e in Update(sv, src, U, manifest, lock, Some(names)).value.packages
        && e.hash == Lookup(lock.packages, p).value.hash
  {
    var env, roots := Env(sv, src, Some(PinFilter(lock, Some(names)))), RootsOf(manifest.dependencies);
    UnlistedLookup(lock.packages, names, p);
    WalkSound(env, content, U, roots);
    var w := VisitRoots(env, U, START, roots).value;
    var a := EdgeArrives(env, content, roots, w, p, spec);
    PinDecides(env, content, p, spec, a.hash);
    ResolvedIsLocked(w.ordered, a.hash);
  }

  /**
   * In a named update an unpinned requirement is answered as without a lockfile exactly when
   * its bare name is listed, or nothing was locked for it, or what was locked is the fresh
   * answer. So a dependency of a listed package stays where it was locked.
   */
  lemma UpdateAnswersFreshIff(sv: Semver, src: VersionSource, content: Content, lock: Lockfile, names: seq<string>,
                              p: PackageRef, spec: VersionSpec)
    requires Honest(src, content) && LockHonest(Some(lock), content) && TotalOrder(sv)
    requires !spec.Pinned? && ResolveOne(Env(sv, src, None), p, spec).Success?
    ensures Agree(Env(sv, src, None), Env(sv, src, Some(PinFilter(lock, Some(names)))), p, spec) <==>
            p.name in names || Lookup(lock.packages, p).None?
                || Edge(Env(sv, src, None), p, spec, Lookup(lock.packages, p).value.hash)
  {
    var free, pinned := Env(sv, src, None), Env(sv, src, Some(PinFilter(lock, Some(names))));
    if p.name in names {
      UnlistedLookup(lock.packages, names, p);
    } else {
      UnlistedLookup(lock.packages, names, p);
      if Lookup(lock.packages, p).Some? && Edge(free, p, spec, Lookup(lock.packages, p).value.hash) {
        EntryAgrees(free, pinned, content, p, spec, Lookup(lock.packages, p).value);
      }
    }
  }

  // ---- an update that leaves a dependency behind ----

  /** Versions 1 and 2, in that order, match any requirement and are no pre-releases. */
  ghost predicate OneAndTwo(sv: Semver) {
    && TotalOrder(sv) && sv.leq(Version("1"), Version("2"))
    && forall v | v in {Version("1"), Version("2")} :: sv.matches(STAR, v) && !sv.isPre(v)
  }

  const AX := PackageRef("a", "x")
  const BY := PackageRef("b", "y")

  /** Content `top` is a/x 1, which needs any b/y; `old` and `later` are b/y 1 and 2. */
  datatype Trio = Trio(top: ManifestHash, earlier: ManifestHash, later: ManifestHash)

  function TrioContent(t: Trio): Content {
    h => if h == t.top then Manifest(AX, Version("1"), [], [Dependency(BY, Any)], [])
         else Manifest(BY, if h == t.earlier then Version("1") else Version("2"), [], [], [])
  }

  function TrioSource(t: Trio): VersionSource {
    var c := TrioContent(t);
    VersionSource(
      p => Success(if p == AX then [Version("1")] else if p == BY then [Version("1"), Version("2")] else []),
      (p, v) => if p == AX && v == Version("1") then Success(Fetched(t.top, c(t.top)))
                else if p == BY && v == Version("1") then Success(Fetched(t.earlier, c(t.earlier)))
                else if p == BY && v == Version("2") then Success(Fetched(t.later, c(t.later)))
                else Failure(ResolverError.Source("")),
      h => if h in {t.top, t.earlier, t.later} then Success(Fetched(h, c(h))) else Failure(ResolverError.Source("")))
  }

  lemma TrioPicks(sv: Semver, t: Trio)
    requires OneAndTwo(sv)
    ensures HighestMatch(sv, STAR, [Version("1")]) == Some(Version("1"))
    ensures HighestMatch(sv, STAR, [Version("1"), Version("2")]) == Some(Version("2"))
  {
    assert [Version("1")][..0] == [] && [Version("1"), Version("2")][..1] == [Version("1")];
  }

  lemma TrioHonest(t: Trio)
    requires t.top != t.earlier && t.top != t.later && t.earlier != t.later
    ensures Honest(TrioSource(t), TrioContent(t))
  {
  }

  lemma TrioFinite(sv: Semver, t: Trio, lock: Option<Lockfile>)
    requires forall e | lock.Some? && e in lock.value.packages :: e.hash in {t.top, t.earlier, t.later}
    ensures Finite(Env(sv, TrioSource(t), lock), {t.top, t.earlier, t.later})
  {
  }

  const PROJECT := Manifest(PackageRef("a", "project"), Version("1"), [], [Dependency(AX, Any)], [])

  function TopEntry(t: Trio): LockEntry {
    LockEntry(AX, Version("1"), t.top)
  }

  function OldEntry(t: Trio): LockEntry {
    LockEntry(BY, Version("1"), t.earlier)
  }

  function OldLock(t: Trio): Lockfile {
    Lockfile(1, [OldEntry(t), TopEntry(t)])
  }

  lemma OldPinsLeft(t: Trio)
    ensures PinFilter(OldLock(t), Some(["x"])) == Lockfile(1, [OldEntry(t)])
    ensures FirstUnknown(PROJECT, ["x"]).None?
  {
    var ps := OldLock(t).packages;
    assert ps[0] == OldEntry(t) && ps[1..] == [TopEntry(t)] && [TopEntry(t)][1..] == [];
    assert Unlisted([TopEntry(t)], ["x"]) == [];
    assert PROJECT.dependencies == [Dependency(AX, Any)] && ["x"][1..] == [];
  }

  lemma TrioResolves(sv: Semver, t: Trio, lock: Option<Lockfile>, g: ManifestHash)
    requires OneAndTwo(sv) && t.top != t.earlier && t.top != t.later && t.earlier != t.later
    requires (lock == None && g == t.later) || (lock == Some(Lockfile(1, [OldEntry(t)])) && g == t.earlier)
    ensures var env, U := Env(sv, TrioSource(t), lock), {t.top, t.earlier, t.later};
            && Finite(env, U) && Resolve(env, U, RootsOf(PROJECT.dependencies)).Success?
            && ToLockfile(Resolve(env, U, RootsOf(PROJECT.dependencies)).value.manifests) ==
               Lockfile(1, [LockEntry(BY, TrioContent(t)(g).version, g), TopEntry(t)])
  {
    var env, U, c := Env(sv, TrioSource(t), lock), {t.top, t.earlier, t.later}, TrioContent(t);
    assert RootsOf(PROJECT.dependencies) == [RootRef(AX, Any)];
    TrioPicks(sv, t);
    TrioFinite(sv, t, lock);
    ChainOfTwo(env, U, RootRef(AX, Any), Dependency(BY, Any), Fetched(t.top, c(t.top)), Fetched(g, c(g)));
    TwoEntries(ResolvedManifest(BY, g, c(g)), ResolvedManifest(AX, t.top, c(t.top)));
  }

  lemma TwoEntries(x: ResolvedManifest, y: ResolvedManifest)
    ensures ToLockfile([x, y]) == Lockfile(1, [EntryOf(x), EntryOf(y)])
  {
    assert ToLockfile([x, y]).packages == [EntryOf(x), EntryOf(y)];
  }

  /**
   * a/x 1 needs any b/y, of which 1 is locked and 2 has been published since. Updating "x"
   * succeeds and keeps b/y 1, where re-resolving the named package with its transitive
   * dependencies, as locking afresh does, takes b/y 2.
   */
  lemma UpdateLeavesDependencyBehind(sv: Semver, t: Trio)
    requires OneAndTwo(sv) && t.top != t.earlier && t.top != t.later && t.earlier != t.later
    ensures var src, U := TrioSource(t), {t.top, t.earlier, t.later};
            && Honest(src, TrioContent(t))
            && Finite(Env(sv, src, None), U) && Finite(Env(sv, src, Some(PinFilter(OldLock(t), Some(["x"])))), U)
            && Update(sv, src, U, PROJECT, OldLock(t), Some(["x"])) == Success(OldLock(t))
            && Lock(sv, src, U, PROJECT) ==
               Success(Lockfile(1, [LockEntry(BY, Version("2"), t.later), TopEntry(t)]))
  {
    TrioHonest(t);
    OldPinsLeft(t);
    TrioResolves(sv, t, None, t.later);
    TrioResolves(sv, t, Some(Lockfile(1, [OldEntry(t)])), t.earlier);
  }

  // ---- a pin under a foreign name ----

  /** Two roots without dependencies and with different names resolve to one or two manifests. */
  lemma LeafRoots(env: Env, U: set<ManifestHash>, x: RootRef, y: RootRef, f: Fetched, g: Fetched)
    requires Finite(env, U) && x.package != y.package && f.manifest.dependencies == g.manifest.dependencies == []
    requires ResolveOne(env, x.package, x.version) == Success(f) && ResolveOne(env, y.package, y.version) == Success(g)
    ensures Resolve(env, U, [x, y]).Success?
    ensures Resolve(env, U, [x, y]).value.manifests ==
            [ResolvedManifest(x.package, f.hash, f.manifest)] + if f.hash == g.hash then []
                else [ResolvedManifest(y.package, g.hash, g.manifest)]
  {
    var c, d := [ChainStep(x.package, x.version)], [ChainStep(y.package, y.version)];
    LeafVisit(env, U, START, x.package, x.version, c);
    var w := Visit(env, U, START, x.package, x.version, c).value;
    LeafVisit(env, U, w, y.package, y.version, d);
    var r := Visit(env, U, w, y.package, y.version, d).value;
    assert VisitRoots(env, U, r, []) == Success(r);
    assert [y][1..] == [] && [x, y][1..] == [y];
    assert VisitRoots(env, U, w, [y]) == Success(r);
    assert VisitRoots(env, U, START, [x, y]) == Success(r);
  }

  /**
   * A package locked twice. Two roots: "a/x" pinned to a manifest that calls itself b/y 1, and
   * any "b/y", which resolves to b/y 2. Both get lockfile entries named b/y; replaying finds
   * the wrong one first and resolves to one manifest instead of two. `verify` finds no entry
   * for "a/x" at all.
   */
  lemma MisnamedPinBreaksReplay(sv: Semver, one: ManifestHash, two: ManifestHash)
      returns (src: VersionSource, content: Content, roots: seq<RootRef>, ms: seq<ResolvedManifest>)
    requires one != two && TotalOrder(sv)
    requires forall v | v in {Version("1"), Version("2")} :: sv.matches(STAR, v) && !sv.isPre(v)
    ensures Honest(src, content) && |ms| == 2
    ensures Finite(Env(sv, src, None), {one, two}) && Finite(Env(sv, src, Some(ToLockfile(ms))), {one, two})
    ensures Resolve(Env(sv, src, None), {one, two}, roots).Success?
    ensures Resolve(Env(sv, src, None), {one, two}, roots).value.manifests == ms
    ensures Resolve(Env(sv, src, Some(ToLockfile(ms))), {one, two}, roots).Success?
    ensures Resolve(Env(sv, src, Some(ToLockfile(ms))), {one, two}, roots).value.manifests == ms[..1]
    ensures |roots| == 2 && VerifyErrors(sv, ToLockfile(ms),
        [Dependency(roots[0].package, roots[0].version)]) == [NoMatch(roots[0].package)]
  {
    var ax, target := AX, BY;
    var v1, v2 := Version("1"), Version("2");
    var m1, m2 := Manifest(target, v1, [], [], []), Manifest(target, v2, [], [], []);
    content := h => if h == one then m1 else m2;
    src := VersionSource(
      p => Success(if p == target then [v2] else []),
      (p, v) => if p == target && v == v2 then Success(Fetched(two, m2)) else Failure(ResolverError.Source("")),
      h => if h == one then Success(Fetched(one, m1)) else if h == two then Success(Fetched(two, m2))
          else Failure(ResolverError.Source("")));
    var x, y := RootRef(ax, Pinned(one)), RootRef(target, Any);
    roots := [x, y];
    ms := [ResolvedManifest(ax, one, m1), ResolvedManifest(target, two, m2)];
    var a, b := Env(sv, src, None), Env(sv, src, Some(ToLockfile(ms)));
    assert HighestMatch(sv, STAR, [v2]) == Some(v2) by {
      assert [v2][..0] == [];
    }
    LeafRoots(a, {one, two}, x, y, Fetched(one, m1), Fetched(two, m2));
    assert Lookup(ToLockfile(ms).packages, target) == Some(LockEntry(target, v1, one));
    LeafRoots(b, {one, two}, x, y, Fetched(one, m1), Fetched(one, m1));
    var d := Dependency(ax, Pinned(one));
    assert DepError(sv, ToLockfile(ms), d) == Some(NoMatch(ax));
    assert [d][..0] == [] && VerifyErrors(sv, ToLockfile(ms), []) == [];
  }
}
