/** What a successful resolution guarantees, for any roots, lockfile and honest source. */
module ResolverProofs {
  import opened Wrappers
  import opened Types
  import opened Versions
  import opened Texts
  import opened Resolver

  type Content = ManifestHash -> Manifest

  // ---- what is expected of the source ----

  /**
   * A manifest hash stands for one manifest; looking it up by hash gives that hash; looking up
   * a package version gives a manifest of that name and version, which can be had by hash too.
   */
  ghost predicate Honest(src: VersionSource, content: Content) {
    && (forall h :: src.byHash(h).Success? ==> src.byHash(h).value == Fetched(h, content(h)))
    && (forall p, v :: src.fetch(p, v).Success? ==>
          var f := src.fetch(p, v).value;
          f.manifest == content(f.hash) && f.manifest.package == p && f.manifest.version == v
          && src.byHash(f.hash).Success?)
  }

  /** Every lockfile entry carries the name and version of the manifest it pins. */
  ghost predicate LockHonest(lock: Option<Lockfile>, content: Content) {
    lock.Some? ==> forall e | e in lock.value.packages ::
        content(e.hash).package == e.package && content(e.hash).version == e.version
  }

  /** A pin asks for its hash, a range for a version that matches it, and no version for one that matches "*". */
  predicate Satisfies(sv: Semver, spec: VersionSpec, h: ManifestHash, m: Manifest) {
    match spec
    case Pinned(hash) => h == hash
    case Range(req) => sv.matches(req, m.version)
    case Any => sv.matches(VersionReq("*"), m.version)
  }

  /** The spec allows the version: its range matches, and it mentions a pre-release if the version is one. */
  predicate Allowed(sv: Semver, spec: VersionSpec, v: Version) {
    match spec
    case Pinned(_) => true
    case Range(req) => sv.matches(req, v) && (sv.isPre(v) ==> sv.optsIn(req))
    case Any => sv.matches(VersionReq("*"), v) && (sv.isPre(v) ==> sv.optsIn(VersionReq("*")))
  }

  /** The candidate that is allowed and above every other that is. */
  ghost predicate BestAllowed(sv: Semver, spec: VersionSpec, candidates: seq<Version>, v: Version) {
    v in candidates && Allowed(sv, spec, v) && forall w | w in candidates && Allowed(sv, spec, w) :: sv.leq(w, v)
  }

  /** The entry found for a name is the first that carries it. */
  ghost predicate FirstNamed(packages: seq<LockEntry>, p: PackageRef, i: int) {
    0 <= i < |packages| && packages[i].package == p && forall j | 0 <= j < i :: packages[j].package != p
  }

  ghost predicate Unlocked(env: Env, p: PackageRef) {
    env.lock.Some? ==> forall e | e in env.lock.value.packages :: e.package != p
  }

  lemma {:induction false} LookupFindsFirst(packages: seq<LockEntry>, p: PackageRef, i: int)
    requires FirstNamed(packages, p, i)
    ensures Lookup(packages, p) == Some(packages[i])
  {
    if i > 0 {
      assert packages[0].package != p;
      LookupFindsFirst(packages[1..], p, i - 1);
    }
  }

  /** A pin resolves to its manifest, whatever is locked or listed. */
  lemma PinnedAnswer(env: Env, p: PackageRef, spec: VersionSpec)
    requires spec.Pinned?
    ensures ResolveOne(env, p, spec) == env.src.byHash(spec.hash)
  {
  }

  /** Without a pin, the first lockfile entry of the name decides: its manifest if it matches, else an error. */
  lemma LockedAnswer(env: Env, p: PackageRef, spec: VersionSpec, i: int)
    requires !spec.Pinned? && env.lock.Some? && FirstNamed(env.lock.value.packages, p, i)
    ensures var entry := env.lock.value.packages[i];
            var req := if spec.Range? then spec.req else VersionReq("*");
            ResolveOne(env, p, spec) ==
              if env.sv.matches(req, entry.version) then env.src.byHash(entry.hash)
              else Failure(LockMismatch(p, entry.version))
  {
    LookupFindsFirst(env.lock.value.packages, p, i);
  }

  /**
   * Without pin and entry, the best allowed version of those listed is fetched, and the package
   * has no match exactly when none is allowed.
   */
  lemma ListedAnswer(env: Env, p: PackageRef, spec: VersionSpec)
    requires TotalOrder(env.sv) && !spec.Pinned? && Unlocked(env, p)
    ensures match env.src.list(p)
            case Failure(e) => ResolveOne(env, p, spec) == Failure(e)
            case Success(candidates) =>
              if forall v | v in candidates :: !Allowed(env.sv, spec, v)
              then ResolveOne(env, p, spec) == Failure(NoMatch(p))
              else exists v :: BestAllowed(env.sv, spec, candidates, v)
                               && ResolveOne(env, p, spec) == env.src.fetch(p, v)
  {
    if env.src.list(p).Success? {
      var candidates, req := env.src.list(p).value, Requirement(spec);
      HighestMatchIsHighest(env.sv, req, candidates);
      assert forall v :: Eligible(env.sv, req, v) <==> Allowed(env.sv, spec, v);
      match HighestMatch(env.sv, req, candidates)
      case Some(v) => assert BestAllowed(env.sv, spec, candidates, v);
      case None =>
    }
  }

  /** Everything the walk relies on: finitely many manifests, an honest source and lockfile, ordered versions. */
  ghost predicate Trusted(env: Env, content: Content, U: set<ManifestHash>) {
    Finite(env, U) && Honest(env.src, content) && LockHonest(env.lock, content) && TotalOrder(env.sv)
  }

  ghost predicate Edge(env: Env, p: PackageRef, spec: VersionSpec, h: ManifestHash) {
    ResolveOne(env, p, spec).Success? && ResolveOne(env, p, spec).value.hash == h
  }

  lemma EdgeSatisfies(env: Env, content: Content, p: PackageRef, spec: VersionSpec)
    requires Honest(env.src, content) && LockHonest(env.lock, content) && TotalOrder(env.sv)
    requires ResolveOne(env, p, spec).Success?
    ensures var f := ResolveOne(env, p, spec).value;
            f.manifest == content(f.hash) && Satisfies(env.sv, spec, f.hash, f.manifest)
  {
    if !spec.Pinned? && Pin(env, p).None? {
      HighestMatchIsHighest(env.sv, Requirement(spec), env.src.list(p).value);
    }
  }

  // ---- sorting keeps the dependencies ----

  lemma {:induction false} InsertKeeps(d: Dependency, deps: seq<Dependency>)
    ensures multiset(Insert(d, deps)) == multiset(deps) + multiset{d}
  {
    if deps != [] && !StrLeq(AsStr(d.reference), AsStr(deps[0].reference)) {
      InsertKeeps(d, deps[1..]);
      assert deps == [deps[0]] + deps[1..];
    }
  }

  lemma {:induction false} SortKeeps(deps: seq<Dependency>)
    ensures multiset(SortDeps(deps)) == multiset(deps)
  {
    if deps != [] {
      SortKeeps(deps[1..]);
      InsertKeeps(deps[0], SortDeps(deps[1..]));
      assert deps == [deps[0]] + deps[1..];
    }
  }

  lemma SortMembers(deps: seq<Dependency>)
    ensures forall d :: d in SortDeps(deps) <==> d in deps
  {
    SortKeeps(deps);
    assert forall d :: d in deps <==> d in multiset(deps);
    assert forall d :: d in SortDeps(deps) <==> d in multiset(SortDeps(deps));
  }

  ghost predicate Alphabetical(deps: seq<Dependency>) {
    forall i, j | 0 <= i < j < |deps| :: InOrder(deps[i].reference, deps[j].reference)
  }

  /** The order of the names as written, namespace and name with a slash between. */
  ghost predicate InOrder(p: PackageRef, q: PackageRef) {
    var a, b := p.namespace + "/" + p.name, q.namespace + "/" + q.name;
    a == b || Precedes(a, b)
  }

  lemma InOrderTrans(p: PackageRef, q: PackageRef, r: PackageRef)
    requires InOrder(p, q) && InOrder(q, r)
    ensures InOrder(p, r)
  {
    if AsStr(p) != AsStr(q) && AsStr(q) != AsStr(r) {
      PrecedesTrans(AsStr(p), AsStr(q), AsStr(r));
    }
  }

  lemma {:induction false} InsertSorts(d: Dependency, deps: seq<Dependency>)
    requires Alphabetical(deps)
    ensures Alphabetical(Insert(d, deps))
  {
    if deps == [] {
    } else if StrLeq(AsStr(d.reference), AsStr(deps[0].reference)) {
      forall j | 0 <= j < |deps| ensures InOrder(d.reference, deps[j].reference) {
        if j > 0 {
          InOrderTrans(d.reference, deps[0].reference, deps[j].reference);
        }
      }
    } else {
      PrecedesTotal(AsStr(d.reference), AsStr(deps[0].reference));
      InsertSorts(d, deps[1..]);
      InsertKeeps(d, deps[1..]);
      var rest := Insert(d, deps[1..]);
      forall j | 0 <= j < |rest| ensures InOrder(deps[0].reference, rest[j].reference) {
        assert rest[j] in multiset(rest);
        assert rest[j] == d || rest[j] in deps[1..];
      }
    }
  }

  lemma {:induction false} SortSorts(deps: seq<Dependency>)
    ensures Alphabetical(SortDeps(deps))
  {
    if deps != [] {
      SortSorts(deps[1..]);
      InsertSorts(deps[0], SortDeps(deps[1..]));
    }
  }

  /** The dependencies whose names read alike, in the order given. */
  function NamedAlike(deps: seq<Dependency>, text: string): seq<Dependency> {
    if deps == [] then []
    else
      (if deps[0].reference.namespace + "/" + deps[0].reference.name == text then [deps[0]] else [])
        + NamedAlike(deps[1..], text)
  }

  lemma {:induction false} InsertIsStable(d: Dependency, deps: seq<Dependency>, text: string)
    ensures NamedAlike(Insert(d, deps), text) == NamedAlike([d] + deps, text)
  {
    assert ([d] + deps)[1..] == deps;
    if deps != [] && !StrLeq(AsStr(d.reference), AsStr(deps[0].reference)) {
      InsertIsStable(d, deps[1..], text);
      assert ([d] + deps[1..])[1..] == deps[1..];
      assert Insert(d, deps)[1..] == Insert(d, deps[1..]);
    }
  }

  /** Dependencies on one name keep the order in which they are declared. */
  lemma {:induction false} SortIsStable(deps: seq<Dependency>, text: string)
    ensures NamedAlike(SortDeps(deps), text) == NamedAlike(deps, text)
  {
    if deps != [] {
      SortIsStable(deps[1..], text);
      InsertIsStable(deps[0], SortDeps(deps[1..]), text);
      assert deps == [deps[0]] + deps[1..];
    }
  }

  // ---- the walk ----

  ghost function Hashes(ms: seq<ResolvedManifest>): set<ManifestHash> {
    set m | m in ms :: m.hash
  }

  ghost predicate DistinctHashes(ms: seq<ResolvedManifest>) {
    forall i, j | 0 <= i < j < |ms| :: ms[i].hash != ms[j].hash
  }

  function Last(chain: Chain): ChainStep
    requires chain != []
  {
    chain[|chain| - 1]
  }

  /** The chain starts at a root and follows dependencies of the manifests it resolves to. */
  ghost predicate RealChain(env: Env, roots: set<RootRef>, chain: Chain) {
    && chain != []
    && RootRef(chain[0].package, chain[0].spec) in roots
    && (forall i, j | 0 <= i < j < |chain| && j == i + 1 :: Requires(env, chain[i], chain[j]))
  }

  ghost predicate Requires(env: Env, a: ChainStep, b: ChainStep) {
    && ResolveOne(env, a.package, a.spec).Success?
    && Dependency(b.package, b.spec) in ResolveOne(env, a.package, a.spec).value.manifest.dependencies
  }

  ghost predicate AllServed(w: Walk, deps: seq<Dependency>) {
    forall d | d in deps :: Served(w, d.reference, d.version)
  }

  ghost predicate RootsServed(w: Walk, roots: seq<RootRef>) {
    forall r | r in roots :: Served(w, r.package, r.version)
  }

  ghost predicate Recorded(w: Walk, p: PackageRef, a: Arrival) {
    p in w.byName && a in w.byName[p]
  }

  /** Some chain that ends in this edge has been followed. */
  ghost predicate Served(w: Walk, p: PackageRef, spec: VersionSpec) {
    exists a: Arrival :: Recorded(w, p, a) && a.chain != [] && Last(a.chain) == ChainStep(p, spec)
  }

  ghost predicate Reached(w: Walk, p: PackageRef, h: ManifestHash) {
    exists a: Arrival :: Recorded(w, p, a) && a.hash == h
  }

  ghost predicate ArrivalSound(env: Env, roots: set<RootRef>, w: Walk, p: PackageRef, a: Arrival) {
    && RealChain(env, roots, a.chain)
    && Last(a.chain).package == p
    && Edge(env, p, Last(a.chain).spec, a.hash)
    && a.hash in w.visited
    && Walked(env, w, a.chain)
  }

  /** Every step of the chain but the last resolves to a visited manifest. */
  ghost predicate Walked(env: Env, w: Walk, chain: Chain) {
    forall i | 0 <= i < |chain| - 1 :: VisitedStep(env, w, chain[i])
  }

  ghost predicate VisitedStep(env: Env, w: Walk, step: ChainStep) {
    ResolveOne(env, step.package, step.spec).Success?
        && ResolveOne(env, step.package, step.spec).value.hash in w.visited
  }

  ghost predicate Grows(a: Walk, b: Walk) {
    && a.visited <= b.visited
    && a.ordered <= b.ordered
    && (forall p, x | Recorded(a, p, x) :: Recorded(b, p, x))
  }

  /** What holds between any two visits; `open` are the manifests whose visit has not finished. */
  ghost predicate WalkInv(env: Env, content: Content, roots: set<RootRef>, w: Walk, open: set<ManifestHash>) {
    && DistinctHashes(w.ordered)
    && w.visited == Hashes(w.ordered) + open
    && Hashes(w.ordered) !! open
    && (forall m | m in w.ordered :: m.manifest == content(m.hash) && Reached(w, m.package, m.hash))
    && (forall m | m in w.ordered :: AllServed(w, m.manifest.dependencies))
    && (forall p, a | Recorded(w, p, a) :: ArrivalSound(env, roots, w, p, a))
  }

  lemma GrowsTrans(a: Walk, b: Walk, c: Walk)
    requires Grows(a, b) && Grows(b, c)
    ensures Grows(a, c)
  {
  }

  lemma ServedGrows(a: Walk, b: Walk, p: PackageRef, spec: VersionSpec)
    requires Grows(a, b) && Served(a, p, spec)
    ensures Served(b, p, spec)
  {
    var x :| Recorded(a, p, x) && x.chain != [] && Last(x.chain) == ChainStep(p, spec);
    assert Recorded(b, p, x);
  }

  lemma ArrivalGrows(env: Env, roots: set<RootRef>, a: Walk, b: Walk, p: PackageRef, x: Arrival)
    requires Grows(a, b) && ArrivalSound(env, roots, a, p, x)
    ensures ArrivalSound(env, roots, b, p, x)
  {
    assert forall i | 0 <= i < |x.chain| - 1 :: VisitedStep(env, a, x.chain[i]) ==> VisitedStep(env, b, x.chain[i]);
  }

  lemma ReachedGrows(a: Walk, b: Walk, p: PackageRef, h: ManifestHash)
    requires Grows(a, b) && Reached(a, p, h)
    ensures Reached(b, p, h)
  {
    var x :| Recorded(a, p, x) && x.hash == h;
    assert Recorded(b, p, x);
  }

  lemma AllServedGrows(a: Walk, b: Walk, deps: seq<Dependency>)
    requires Grows(a, b) && AllServed(a, deps)
    ensures AllServed(b, deps)
  {
    forall d | d in deps ensures Served(b, d.reference, d.version) {
      ServedGrows(a, b, d.reference, d.version);
    }
  }

  lemma RecordKeeps(env: Env, content: Content, roots: set<RootRef>, w: Walk, open: set<ManifestHash>,
                    p: PackageRef, spec: VersionSpec, chain: Chain, h: ManifestHash)
    requires WalkInv(env, content, roots, w, open)
    requires RealChain(env, roots, chain) && Last(chain) == ChainStep(p, spec) && Edge(env, p, spec, h)
    requires Walked(env, w, chain)
    ensures var r := Record(w, p, Arrival(chain, h)).(visited := w.visited + {h});
            && Grows(w, r) && Served(r, p, spec) && Reached(r, p, h)
            && (h in w.visited ==> WalkInv(env, content, roots, r, open))
            && (h !in w.visited ==> WalkInv(env, content, roots, r, open + {h}))
  {
    var r := Record(w, p, Arrival(chain, h)).(visited := w.visited + {h});
    assert Recorded(r, p, Arrival(chain, h));
    forall q, a | Recorded(r, q, a) ensures ArrivalSound(env, roots, r, q, a) {
      if !(q == p && a == Arrival(chain, h)) {
        assert Recorded(w, q, a);
        ArrivalGrows(env, roots, w, r, q, a);
      }
    }
    forall m | m in r.ordered ensures Reached(r, m.package, m.hash) && AllServed(r, m.manifest.dependencies) {
      AllServedGrows(w, r, m.manifest.dependencies);
      ReachedGrows(w, r, m.package, m.hash);
    }
  }

  lemma AppendDistinct(ms: seq<ResolvedManifest>, m: ResolvedManifest)
    requires DistinctHashes(ms) && m.hash !in Hashes(ms)
    ensures DistinctHashes(ms + [m]) && Hashes(ms + [m]) == Hashes(ms) + {m.hash}
  {
    assert forall i | 0 <= i < |ms| :: ms[i] in ms;
    assert forall x :: x in ms + [m] <==> x in ms || x == m;
  }

  lemma AppendKeeps(env: Env, content: Content, roots: set<RootRef>, w: Walk, open: set<ManifestHash>,
                    m: ResolvedManifest)
    requires m.hash !in open && WalkInv(env, content, roots, w, open + {m.hash})
    requires m.manifest == content(m.hash) && Reached(w, m.package, m.hash)
    requires AllServed(w, m.manifest.dependencies)
    ensures var r := w.(ordered := w.ordered + [m]);
            WalkInv(env, content, roots, r, open) && Grows(w, r)
  {
    var r := w.(ordered := w.ordered + [m]);
    AppendDistinct(w.ordered, m);
    assert Grows(w, r);
    forall p, a | Recorded(r, p, a) ensures ArrivalSound(env, roots, r, p, a) {
      assert Recorded(w, p, a);
      ArrivalGrows(env, roots, w, r, p, a);
    }
    forall x | x in r.ordered ensures Reached(r, x.package, x.hash) && AllServed(r, x.manifest.dependencies) {
      assert x in w.ordered || x == m;
      assert Reached(w, x.package, x.hash);
      assert AllServed(w, x.manifest.dependencies);
      AllServedGrows(w, r, x.manifest.dependencies);
      ReachedGrows(w, r, x.package, x.hash);
    }
  }

  lemma AllServedCons(w: Walk, deps: seq<Dependency>)
    requires deps != [] && Served(w, deps[0].reference, deps[0].version) && AllServed(w, deps[1..])
    ensures AllServed(w, deps)
  {
    assert deps == [deps[0]] + deps[1..];
  }

  lemma ChainGrows(env: Env, roots: set<RootRef>, chain: Chain, d: Dependency)
    requires RealChain(env, roots, chain) && ResolveOne(env, Last(chain).package, Last(chain).spec).Success?
    requires d in ResolveOne(env, Last(chain).package, Last(chain).spec).value.manifest.dependencies
    ensures RealChain(env, roots, chain + [ChainStep(d.reference, d.version)])
  {
    var longer := chain + [ChainStep(d.reference, d.version)];
    forall i, j | 0 <= i < j < |longer| && j == i + 1 ensures Requires(env, longer[i], longer[j]) {
      if j < |chain| {
        assert Requires(env, chain[i], chain[j]);
      }
    }
  }

  lemma WalkedLonger(env: Env, w: Walk, chain: Chain, step: ChainStep)
    requires chain != [] && Walked(env, w, chain) && VisitedStep(env, w, Last(chain))
    ensures Walked(env, w, chain + [step])
  {
  }

  lemma WalkedGrows(env: Env, a: Walk, b: Walk, chain: Chain)
    requires a.visited <= b.visited
    ensures Walked(env, a, chain) ==> Walked(env, b, chain)
    ensures chain != [] && VisitedStep(env, a, Last(chain)) ==> VisitedStep(env, b, Last(chain))
  {
    assert forall i | 0 <= i < |chain| - 1 :: VisitedStep(env, a, chain[i]) ==> VisitedStep(env, b, chain[i]);
  }

  lemma {:induction false} VisitSound(env: Env, content: Content, U: set<ManifestHash>, roots: set<RootRef>,
                                      w: Walk, open: set<ManifestHash>, p: PackageRef, spec: VersionSpec, chain: Chain)
    requires Trusted(env, content, U)
    requires WalkInv(env, content, roots, w, open)
    requires RealChain(env, roots, chain) && Last(chain) == ChainStep(p, spec) && Walked(env, w, chain)
    requires Visit(env, U, w, p, spec, chain).Success?
    ensures var r := Visit(env, U, w, p, spec, chain).value;
            WalkInv(env, content, roots, r, open) && Grows(w, r) && Served(r, p, spec)
    decreases U - w.visited, 0
  {
    var f := ResolveOne(env, p, spec).value;
    EdgeSatisfies(env, content, p, spec);
    RecordKeeps(env, content, roots, w, open, p, spec, chain, f.hash);
    var a := Record(w, p, Arrival(chain, f.hash));
    var b := a.(visited := w.visited + {f.hash});
    if f.hash in w.visited {
      assert a == b;
    } else {
      var deps := SortDeps(f.manifest.dependencies);
      SortMembers(f.manifest.dependencies);
      VisitDepsSound(env, content, U, roots, b, open + {f.hash}, deps, chain);
      var c := VisitDeps(env, U, b, deps, chain).value;
      ReachedGrows(b, c, p, f.hash);
      AppendKeeps(env, content, roots, c, open, ResolvedManifest(p, f.hash, f.manifest));
      var r := Visit(env, U, w, p, spec, chain).value;
      GrowsTrans(w, b, c);
      GrowsTrans(w, c, r);
      ServedGrows(b, c, p, spec);
      ServedGrows(c, r, p, spec);
    }
  }

  lemma {:induction false} VisitDepsSound(env: Env, content: Content, U: set<ManifestHash>, roots: set<RootRef>,
                                          w: Walk, open: set<ManifestHash>, deps: seq<Dependency>, chain: Chain)
    requires Trusted(env, content, U)
    requires WalkInv(env, content, roots, w, open)
    requires RealChain(env, roots, chain) && Walked(env, w, chain) && VisitedStep(env, w, Last(chain))
    requires forall d | d in deps ::
        d in ResolveOne(env, Last(chain).package, Last(chain).spec).value.manifest.dependencies
    requires VisitDeps(env, U, w, deps, chain).Success?
    ensures var r := VisitDeps(env, U, w, deps, chain).value;
            WalkInv(env, content, roots, r, open) && Grows(w, r) && AllServed(r, deps)
    decreases U - w.visited, 1 + |deps|
  {
    if deps != [] {
      var d := deps[0];
      var longer := chain + [ChainStep(d.reference, d.version)];
      ChainGrows(env, roots, chain, d);
      WalkedLonger(env, w, chain, longer[|chain|]);
      VisitSound(env, content, U, roots, w, open, d.reference, d.version, longer);
      var next := Visit(env, U, w, d.reference, d.version, longer).value;
      WalkedGrows(env, w, next, chain);
      assert U - next.visited == U - w.visited || U - next.visited < U - w.visited;
      assert forall x | x in deps[1..] :: x in deps;
      VisitDepsSound(env, content, U, roots, next, open, deps[1..], chain);
      var r := VisitDeps(env, U, w, deps, chain).value;
      GrowsTrans(w, next, r);
      ServedGrows(next, r, d.reference, d.version);
      AllServedCons(r, deps);
    }
  }

  lemma RootSound(env: Env, content: Content, U: set<ManifestHash>, all: set<RootRef>, w: Walk, x: RootRef)
    requires Trusted(env, content, U)
    requires WalkInv(env, content, all, w, {}) && x in all
    requires Visit(env, U, w, x.package, x.version, [ChainStep(x.package, x.version)]).Success?
    ensures var r := Visit(env, U, w, x.package, x.version, [ChainStep(x.package, x.version)]).value;
            WalkInv(env, content, all, r, {}) && Grows(w, r) && Served(r, x.package, x.version)
  {
    var chain := [ChainStep(x.package, x.version)];
    assert RealChain(env, all, chain);
    VisitSound(env, content, U, all, w, {}, x.package, x.version, chain);
  }

  lemma RootsServedCons(w: Walk, roots: seq<RootRef>)
    requires roots != [] && Served(w, roots[0].package, roots[0].version) && RootsServed(w, roots[1..])
    ensures RootsServed(w, roots)
  {
    assert roots == [roots[0]] + roots[1..];
  }

  lemma {:induction false} VisitRootsSound(env: Env, content: Content, U: set<ManifestHash>, all: set<RootRef>,
                                           w: Walk, roots: seq<RootRef>)
    requires Trusted(env, content, U)
    requires WalkInv(env, content, all, w, {}) && forall r | r in roots :: r in all
    requires VisitRoots(env, U, w, roots).Success?
    ensures var r := VisitRoots(env, U, w, roots).value;
            WalkInv(env, content, all, r, {}) && Grows(w, r) && RootsServed(r, roots)
    decreases |roots|
  {
    if roots != [] {
      var x := roots[0];
      assert x in roots;
      RootSound(env, content, U, all, w, x);
      var next := Visit(env, U, w, x.package, x.version, [ChainStep(x.package, x.version)]).value;
      assert forall y | y in roots[1..] :: y in roots;
      VisitRootsSound(env, content, U, all, next, roots[1..]);
      var r := VisitRoots(env, U, w, roots).value;
      GrowsTrans(w, next, r);
      ServedGrows(next, r, x.package, x.version);
      RootsServedCons(r, roots);
    }
  }

  // ---- the resolution ----

  /** A requirement placed somewhere in the resolution: by a root or by a resolved manifest. */
  ghost predicate IsEdge(roots: seq<RootRef>, ms: seq<ResolvedManifest>, p: PackageRef, spec: VersionSpec) {
    RootRef(p, spec) in roots || exists m :: m in ms && Dependency(p, spec) in m.manifest.dependencies
  }

  function RootSet(roots: seq<RootRef>): set<RootRef> {
    set r | r in roots
  }

  lemma WalkSound(env: Env, content: Content, U: set<ManifestHash>, roots: seq<RootRef>)
    requires Trusted(env, content, U)
    requires VisitRoots(env, U, START, roots).Success?
    ensures var w := VisitRoots(env, U, START, roots).value;
            WalkInv(env, content, RootSet(roots), w, {}) && RootsServed(w, roots)
  {
    VisitRootsSound(env, content, U, RootSet(roots), START, roots);
  }

  lemma NoConflictMeansOneHash(w: Walk, p: PackageRef, a: Arrival, b: Arrival)
    requires !HasConflict(w) && Recorded(w, p, a) && Recorded(w, p, b)
    ensures a.hash == b.hash
  {
    var i :| 0 <= i < |w.byName[p]| && w.byName[p][i] == a;
    var j :| 0 <= j < |w.byName[p]| && w.byName[p][j] == b;
    assert !Conflicting(w.byName[p]);
  }

  lemma EdgeArrives(env: Env, content: Content, roots: seq<RootRef>, w: Walk, p: PackageRef, spec: VersionSpec)
      returns (a: Arrival)
    requires WalkInv(env, content, RootSet(roots), w, {}) && RootsServed(w, roots) && IsEdge(roots, w.ordered, p, spec)
    ensures Recorded(w, p, a) && Edge(env, p, spec, a.hash) && a.hash in Hashes(w.ordered)
  {
    assert Served(w, p, spec) by {
      if RootRef(p, spec) !in roots {
        var m :| m in w.ordered && Dependency(p, spec) in m.manifest.dependencies;
        assert Served(w, Dependency(p, spec).reference, Dependency(p, spec).version);
      }
    }
    a :| Recorded(w, p, a) && a.chain != [] && Last(a.chain) == ChainStep(p, spec);
    assert ArrivalSound(env, RootSet(roots), w, p, a);
  }

  /** A resolved manifest satisfies the requirement; unless pinned or locked, in the best allowed version. */
  ghost predicate Chosen(env: Env, ms: seq<ResolvedManifest>, p: PackageRef, spec: VersionSpec) {
    exists m :: m in ms && Edge(env, p, spec, m.hash) && Satisfies(env.sv, spec, m.hash, m.manifest)
                && (!spec.Pinned? && Unlocked(env, p) ==> IsBest(env, p, spec, m.manifest.version))
  }

  ghost predicate IsBest(env: Env, p: PackageRef, spec: VersionSpec, v: Version) {
    env.src.list(p).Success? && BestAllowed(env.sv, spec, env.src.list(p).value, v)
  }

  ghost predicate Grounded(env: Env, roots: set<RootRef>, m: ResolvedManifest) {
    exists chain :: RealChain(env, roots, chain) && Last(chain).package == m.package
        && Edge(env, m.package, Last(chain).spec, m.hash)
  }

  /**
   * On success: no manifest appears twice; every requirement placed by a root or by a resolved
   * manifest is met by a resolved manifest; requirements on one name, wherever placed, are all
   * met by the same one; and every resolved manifest hangs on a real chain from a root.
   */
  lemma ResolutionSound(env: Env, content: Content, U: set<ManifestHash>, roots: seq<RootRef>)
    requires Trusted(env, content, U)
    requires Resolve(env, U, roots).Success?
    ensures var ms := Resolve(env, U, roots).value.manifests;
            && DistinctHashes(ms)
            && (forall p, spec | IsEdge(roots, ms, p, spec) :: Chosen(env, ms, p, spec))
            && (forall p, s1, s2, h1, h2 | IsEdge(roots, ms, p, s1) && IsEdge(roots, ms, p, s2)
                  && Edge(env, p, s1, h1) && Edge(env, p, s2, h2) :: h1 == h2)
            && (forall m | m in ms :: Grounded(env, RootSet(roots), m))
  {
    WalkSound(env, content, U, roots);
    var w := VisitRoots(env, U, START, roots).value;
    var ms := w.ordered;
    forall p, spec | IsEdge(roots, ms, p, spec) ensures Chosen(env, ms, p, spec) {
      var a := EdgeArrives(env, content, roots, w, p, spec);
      EdgeSatisfies(env, content, p, spec);
      var m :| m in ms && m.hash == a.hash;
      assert m.manifest == content(m.hash);
      if !spec.Pinned? && Unlocked(env, p) {
        ListedAnswer(env, p, spec);
      }
    }
    forall p, s1, s2, h1, h2 | IsEdge(roots, ms, p, s1) && IsEdge(roots, ms, p, s2) && Edge(env, p, s1, h1)
        && Edge(env, p, s2, h2)
      ensures h1 == h2
    {
      var a := EdgeArrives(env, content, roots, w, p, s1);
      var b := EdgeArrives(env, content, roots, w, p, s2);
      NoConflictMeansOneHash(w, p, a, b);
    }
    forall m | m in ms ensures Grounded(env, RootSet(roots), m) {
      assert Reached(w, m.package, m.hash);
      var a :| Recorded(w, m.package, a) && a.hash == m.hash;
      assert ArrivalSound(env, RootSet(roots), w, m.package, a);
    }
  }

  /** Whatever the walk asked was asked by a root or by a resolved manifest. */
  lemma ServedIsEdge(env: Env, content: Content, roots: seq<RootRef>, w: Walk, p: PackageRef, spec: VersionSpec)
    requires Honest(env.src, content) && LockHonest(env.lock, content) && TotalOrder(env.sv)
    requires WalkInv(env, content, RootSet(roots), w, {}) && Served(w, p, spec)
    ensures IsEdge(roots, w.ordered, p, spec)
  {
    var a :| Recorded(w, p, a) && a.chain != [] && Last(a.chain) == ChainStep(p, spec);
    assert ArrivalSound(env, RootSet(roots), w, p, a);
    var n := |a.chain| - 1;
    if n > 0 {
      assert Requires(env, a.chain[n - 1], a.chain[n]);
      assert VisitedStep(env, w, a.chain[n - 1]);
      var f := ResolveOne(env, a.chain[n - 1].package, a.chain[n - 1].spec).value;
      EdgeSatisfies(env, content, a.chain[n - 1].package, a.chain[n - 1].spec);
      var m :| m in w.ordered && m.hash == f.hash;
      assert Dependency(p, spec) in m.manifest.dependencies;
    }
  }

  /** Two requirements on one name, placed by roots or placed manifests, resolve to different manifests. */
  ghost predicate Disagree(env: Env, roots: seq<RootRef>, ms: seq<ResolvedManifest>, p: PackageRef) {
    exists s, t, h, g ::
        IsEdge(roots, ms, p, s) && IsEdge(roots, ms, p, t) && Edge(env, p, s, h) && Edge(env, p, t, g) && h != g
  }

  lemma ConflictingDisagree(env: Env, content: Content, roots: seq<RootRef>, w: Walk, p: PackageRef)
    requires Honest(env.src, content) && LockHonest(env.lock, content) && TotalOrder(env.sv)
    requires WalkInv(env, content, RootSet(roots), w, {}) && p in w.byName && Conflicting(w.byName[p])
    ensures Disagree(env, roots, w.ordered, p)
  {
    var i, j :| 0 <= i < j < |w.byName[p]| && w.byName[p][i].hash != w.byName[p][j].hash;
    var a, b := w.byName[p][i], w.byName[p][j];
    assert Recorded(w, p, a) && Recorded(w, p, b);
    assert ArrivalSound(env, RootSet(roots), w, p, a) && ArrivalSound(env, RootSet(roots), w, p, b);
    assert Last(a.chain) == ChainStep(p, Last(a.chain).spec) && Last(b.chain) == ChainStep(p, Last(b.chain).spec);
    ServedIsEdge(env, content, roots, w, p, Last(a.chain).spec);
    ServedIsEdge(env, content, roots, w, p, Last(b.chain).spec);
  }

  /** A walk that succeeds ends in a conflict exactly when two requirements on one name disagree. */
  lemma ConflictIff(env: Env, content: Content, U: set<ManifestHash>, roots: seq<RootRef>)
    requires Trusted(env, content, U) && VisitRoots(env, U, START, roots).Success?
    ensures var ms := VisitRoots(env, U, START, roots).value.ordered;
            && (Resolve(env, U, roots) == Failure(Conflict) <==> exists p :: Disagree(env, roots, ms, p))
            && (Resolve(env, U, roots).Failure? ==> Resolve(env, U, roots).error == Conflict)
  {
    WalkSound(env, content, U, roots);
    var w := VisitRoots(env, U, START, roots).value;
    if HasConflict(w) {
      var p :| p in w.byName && Conflicting(w.byName[p]);
      ConflictingDisagree(env, content, roots, w, p);
    } else {
      forall p, s, t, h, g | IsEdge(roots, w.ordered, p, s) && IsEdge(roots, w.ordered, p, t)
          && Edge(env, p, s, h) && Edge(env, p, t, g)
        ensures h == g
      {
        var a := EdgeArrives(env, content, roots, w, p, s);
        var b := EdgeArrives(env, content, roots, w, p, t);
        NoConflictMeansOneHash(w, p, a, b);
      }
    }
  }

  // ---- order ----

  /** Among these manifests, what a dependency resolves to ranks below the manifest that declares it. */
  ghost predicate Ranked(env: Env, content: Content, among: set<ManifestHash>, rank: ManifestHash -> nat) {
    forall h, d | h in among && d in content(h).dependencies && ResolveOne(env, d.reference, d.version).Success? ::
      rank(ResolveOne(env, d.reference, d.version).value.hash) < rank(h)
  }

  /** No chain of dependencies among them leads back to where it started. */
  ghost predicate Acyclic(env: Env, content: Content, among: set<ManifestHash>) {
    exists rank: ManifestHash -> nat :: Ranked(env, content, among, rank)
  }

  /** Every dependency stands before the manifest that declares it. */
  ghost predicate DepsFirst(env: Env, ms: seq<ResolvedManifest>) {
    forall i, d | 0 <= i < |ms| && d in ms[i].manifest.dependencies :: StandsBefore(env, ms, i, d)
  }

  ghost predicate StandsBefore(env: Env, ms: seq<ResolvedManifest>, i: int, d: Dependency) {
    exists j :: 0 <= j < i && j < |ms| && Edge(env, d.reference, d.version, ms[j].hash)
  }

  lemma AppendOrders(env: Env, ms: seq<ResolvedManifest>, m: ResolvedManifest)
    requires DepsFirst(env, ms)
    requires forall d | d in m.manifest.dependencies :: exists x :: x in ms && Edge(env, d.reference, d.version, x.hash)
    ensures DepsFirst(env, ms + [m])
  {
    var all := ms + [m];
    forall i, d | 0 <= i < |all| && d in all[i].manifest.dependencies ensures StandsBefore(env, all, i, d) {
      if i < |ms| {
        assert StandsBefore(env, ms, i, d);
        var j :| 0 <= j < i && j < |ms| && Edge(env, d.reference, d.version, ms[j].hash);
        assert all[j] == ms[j];
      } else {
        var x :| x in ms && Edge(env, d.reference, d.version, x.hash);
        var j :| 0 <= j < |ms| && ms[j] == x;
        assert all[j] == x;
      }
    }
  }

  /** A served dependency whose manifest is not open has been placed already. */
  lemma ServedIsPlaced(env: Env, content: Content, roots: set<RootRef>, w: Walk, open: set<ManifestHash>, d: Dependency)
    requires WalkInv(env, content, roots, w, open) && Served(w, d.reference, d.version)
    requires ResolveOne(env, d.reference, d.version).Success? ==>
        ResolveOne(env, d.reference, d.version).value.hash !in open
    ensures exists x :: x in w.ordered && Edge(env, d.reference, d.version, x.hash)
  {
    var a :| Recorded(w, d.reference, a) && a.chain != [] && Last(a.chain) == ChainStep(d.reference, d.version);
    assert ArrivalSound(env, roots, w, d.reference, a);
  }

  lemma {:induction false} VisitOrders(env: Env, content: Content, U: set<ManifestHash>,
                                       among: set<ManifestHash>, rank: ManifestHash -> nat, roots: set<RootRef>,
                                       w: Walk, open: set<ManifestHash>, p: PackageRef, spec: VersionSpec, chain: Chain)
    requires Trusted(env, content, U) && Ranked(env, content, among, rank)
    requires WalkInv(env, content, roots, w, open) && DepsFirst(env, w.ordered)
    requires RealChain(env, roots, chain) && Last(chain) == ChainStep(p, spec) && Walked(env, w, chain)
    requires Visit(env, U, w, p, spec, chain).Success? && Visit(env, U, w, p, spec, chain).value.visited <= among
    requires forall g | g in open :: rank(ResolveOne(env, p, spec).value.hash) < rank(g)
    ensures DepsFirst(env, Visit(env, U, w, p, spec, chain).value.ordered)
    decreases U - w.visited, 0
  {
    var f := ResolveOne(env, p, spec).value;
    EdgeSatisfies(env, content, p, spec);
    RecordKeeps(env, content, roots, w, open, p, spec, chain, f.hash);
    if f.hash !in w.visited {
      var b := Record(w, p, Arrival(chain, f.hash)).(visited := w.visited + {f.hash});
      var deps := SortDeps(f.manifest.dependencies);
      SortMembers(f.manifest.dependencies);
      VisitDepsSound(env, content, U, roots, b, open + {f.hash}, deps, chain);
      VisitDepsOrders(env, content, U, among, rank, roots, b, open + {f.hash}, deps, chain);
      var c := VisitDeps(env, U, b, deps, chain).value;
      forall d | d in f.manifest.dependencies
          ensures exists x :: x in c.ordered && Edge(env, d.reference, d.version, x.hash) {
        assert d in deps && d in content(f.hash).dependencies;
        ServedIsPlaced(env, content, roots, c, open + {f.hash}, d);
      }
      AppendOrders(env, c.ordered, ResolvedManifest(p, f.hash, f.manifest));
    }
  }

  /** What the first of several dependencies leaves behind for the others. */
  lemma FirstDepVisited(env: Env, content: Content, U: set<ManifestHash>, roots: set<RootRef>, w: Walk,
                        open: set<ManifestHash>, deps: seq<Dependency>, chain: Chain)
      returns (longer: Chain, next: Walk)
    requires Trusted(env, content, U) && WalkInv(env, content, roots, w, open) && deps != []
    requires RealChain(env, roots, chain) && Walked(env, w, chain) && VisitedStep(env, w, Last(chain))
    requires forall d | d in deps ::
        d in ResolveOne(env, Last(chain).package, Last(chain).spec).value.manifest.dependencies
    requires VisitDeps(env, U, w, deps, chain).Success?
    ensures longer == chain + [ChainStep(deps[0].reference, deps[0].version)]
    ensures RealChain(env, roots, longer) && Walked(env, w, longer)
    ensures Visit(env, U, w, deps[0].reference, deps[0].version, longer) == Success(next)
    ensures VisitDeps(env, U, w, deps, chain) == VisitDeps(env, U, next, deps[1..], chain)
    ensures WalkInv(env, content, roots, next, open) && Grows(w, next)
    ensures Grows(next, VisitDeps(env, U, w, deps, chain).value)
    ensures VisitedStep(env, next, Last(chain)) && Walked(env, next, chain)
    ensures U - next.visited == U - w.visited || U - next.visited < U - w.visited
    ensures deps[0] in content(ResolveOne(env, Last(chain).package, Last(chain).spec).value.hash).dependencies
  {
    var d := deps[0];
    longer := chain + [ChainStep(d.reference, d.version)];
    ChainGrows(env, roots, chain, d);
    WalkedLonger(env, w, chain, longer[|chain|]);
    EdgeSatisfies(env, content, Last(chain).package, Last(chain).spec);
    VisitSound(env, content, U, roots, w, open, d.reference, d.version, longer);
    next := Visit(env, U, w, d.reference, d.version, longer).value;
    WalkedGrows(env, w, next, chain);
    assert forall x | x in deps[1..] :: x in deps;
    VisitDepsSound(env, content, U, roots, next, open, deps[1..], chain);
  }

  lemma {:induction false} VisitDepsOrders(env: Env, content: Content, U: set<ManifestHash>,
                                           among: set<ManifestHash>, rank: ManifestHash -> nat, roots: set<RootRef>,
                                           w: Walk, open: set<ManifestHash>, deps: seq<Dependency>, chain: Chain)
    requires Trusted(env, content, U) && Ranked(env, content, among, rank)
    requires WalkInv(env, content, roots, w, open) && DepsFirst(env, w.ordered)
    requires RealChain(env, roots, chain) && Walked(env, w, chain) && VisitedStep(env, w, Last(chain))
    requires forall d | d in deps ::
        d in ResolveOne(env, Last(chain).package, Last(chain).spec).value.manifest.dependencies
    requires forall g | g in open :: rank(ResolveOne(env, Last(chain).package, Last(chain).spec).value.hash) <= rank(g)
    requires VisitDeps(env, U, w, deps, chain).Success? && VisitDeps(env, U, w, deps, chain).value.visited <= among
    ensures DepsFirst(env, VisitDeps(env, U, w, deps, chain).value.ordered)
    decreases U - w.visited, 1 + |deps|
  {
    if deps != [] {
      var longer, next := FirstDepVisited(env, content, U, roots, w, open, deps, chain);
      assert forall x | x in deps[1..] :: x in deps;
      VisitOrders(env, content, U, among, rank, roots, w, open, deps[0].reference, deps[0].version, longer);
      VisitDepsOrders(env, content, U, among, rank, roots, next, open, deps[1..], chain);
    }
  }

  lemma {:induction false} VisitRootsOrders(env: Env, content: Content, U: set<ManifestHash>,
                                            among: set<ManifestHash>, rank: ManifestHash -> nat,
                                            all: set<RootRef>, w: Walk, roots: seq<RootRef>)
    requires Trusted(env, content, U) && Ranked(env, content, among, rank)
    requires WalkInv(env, content, all, w, {}) && DepsFirst(env, w.ordered) && forall r | r in roots :: r in all
    requires VisitRoots(env, U, w, roots).Success? && VisitRoots(env, U, w, roots).value.visited <= among
    ensures DepsFirst(env, VisitRoots(env, U, w, roots).value.ordered)
    decreases |roots|
  {
    if roots != [] {
      var x := roots[0];
      var chain := [ChainStep(x.package, x.version)];
      assert x in roots && RealChain(env, all, chain);
      RootSound(env, content, U, all, w, x);
      var next := Visit(env, U, w, x.package, x.version, chain).value;
      assert forall y | y in roots[1..] :: y in roots;
      VisitRootsSound(env, content, U, all, next, roots[1..]);
      VisitOrders(env, content, U, among, rank, all, w, {}, x.package, x.version, chain);
      VisitRootsOrders(env, content, U, among, rank, all, next, roots[1..]);
    }
  }

  /** The place of a manifest in the resolution ranks it. */
  function PlaceOf(ms: seq<ResolvedManifest>, h: ManifestHash): (n: nat)
    ensures h in Hashes(ms) ==> n < |ms| && ms[n].hash == h
  {
    if ms == [] then 0
    else if ms[|ms| - 1].hash == h then |ms| - 1
    else PlaceOf(ms[..|ms| - 1], h)
  }

  lemma PlacesRank(env: Env, content: Content, ms: seq<ResolvedManifest>)
    requires DepsFirst(env, ms) && DistinctHashes(ms) && forall m | m in ms :: m.manifest == content(m.hash)
    ensures Ranked(env, content, Hashes(ms), h => PlaceOf(ms, h))
  {
    forall h, d | h in Hashes(ms) && d in content(h).dependencies && ResolveOne(env, d.reference, d.version).Success?
      ensures PlaceOf(ms, ResolveOne(env, d.reference, d.version).value.hash) < PlaceOf(ms, h)
    {
      var i := PlaceOf(ms, h);
      assert ms[i] in ms && StandsBefore(env, ms, i, d);
      var j :| 0 <= j < i && j < |ms| && Edge(env, d.reference, d.version, ms[j].hash);
      assert ms[j].hash in Hashes(ms);
    }
  }

  /** Every dependency precedes its dependents exactly when the resolved manifests have no cycle. */
  lemma DependenciesComeFirstIff(env: Env, content: Content, U: set<ManifestHash>, roots: seq<RootRef>)
    requires Trusted(env, content, U)
    requires Resolve(env, U, roots).Success?
    ensures var ms := Resolve(env, U, roots).value.manifests;
            DepsFirst(env, ms) <==> Acyclic(env, content, Hashes(ms))
  {
    WalkSound(env, content, U, roots);
    var ms := VisitRoots(env, U, START, roots).value.ordered;
    if Acyclic(env, content, Hashes(ms)) {
      var rank: ManifestHash -> nat :| Ranked(env, content, Hashes(ms), rank);
      VisitRootsOrders(env, content, U, Hashes(ms), rank, RootSet(roots), START, roots);
    }
    if DepsFirst(env, ms) {
      PlacesRank(env, content, ms);
    }
  }

  /**
   * With one root, its manifest comes last, cycles or not. The stacker takes its hooks from the
   * first manifest, which is the root exactly when nothing else was resolved.
   */
  lemma RootComesLast(env: Env, content: Content, U: set<ManifestHash>, root: RootRef)
    requires Trusted(env, content, U)
    requires Resolve(env, U, [root]).Success?
    ensures var ms := Resolve(env, U, [root]).value.manifests;
            && ms != [] && Edge(env, root.package, root.version, ms[|ms| - 1].hash)
            && (Edge(env, root.package, root.version, ms[0].hash) <==> |ms| == 1)
  {
    WalkSound(env, content, U, [root]);
    var chain := [ChainStep(root.package, root.version)];
    var w := Visit(env, U, START, root.package, root.version, chain).value;
    assert [root][1..] == [];
    assert VisitRoots(env, U, START, [root]) == Success(w);
    assert w.ordered != [] && Edge(env, root.package, root.version, w.ordered[|w.ordered| - 1].hash);
  }

  /** One root with one dependency: the dependency comes first. */
  lemma ChainOfTwo(env: Env, U: set<ManifestHash>, root: RootRef, d: Dependency, f: Fetched, g: Fetched)
    requires Finite(env, U) && root.package != d.reference && f.hash != g.hash
    requires f.manifest.dependencies == [d] && g.manifest.dependencies == []
    requires ResolveOne(env, root.package, root.version) == Success(f)
    requires ResolveOne(env, d.reference, d.version) == Success(g)
    ensures Resolve(env, U, [root]).Success?
    ensures Resolve(env, U, [root]).value.manifests ==
            [ResolvedManifest(d.reference, g.hash, g.manifest), ResolvedManifest(root.package, f.hash, f.manifest)]
  {
    var chain := [ChainStep(root.package, root.version)];
    var longer := chain + [ChainStep(d.reference, d.version)];
    var b := Record(START, root.package, Arrival(chain, f.hash)).(visited := {f.hash});
    assert START.visited + {f.hash} == {f.hash};
    assert SortDeps([d]) == [d] && [d][1..] == [] && [root][1..] == [];
    LeafVisit(env, U, b, d.reference, d.version, longer);
    var c := Visit(env, U, b, d.reference, d.version, longer).value;
    assert VisitDeps(env, U, b, [d], chain) == Success(c);
    var r := Visit(env, U, START, root.package, root.version, chain).value;
    assert r == c.(ordered := c.ordered + [ResolvedManifest(root.package, f.hash, f.manifest)]);
    assert VisitRoots(env, U, START, [root]) == Success(r);
  }

  /** The fields of a walk that ends after one manifest without dependencies. */
  lemma LeafVisit(env: Env, U: set<ManifestHash>, w: Walk, p: PackageRef, spec: VersionSpec, chain: Chain)
    requires Finite(env, U) && ResolveOne(env, p, spec).Success?
    requires ResolveOne(env, p, spec).value.manifest.dependencies == []
    ensures var f := ResolveOne(env, p, spec).value;
            Visit(env, U, w, p, spec, chain) ==
            Success(Walk(w.ordered + if f.hash in w.visited then [] else [ResolvedManifest(p, f.hash, f.manifest)],
                         w.visited + {f.hash}, Record(w, p, Arrival(chain, f.hash)).byName))
  {
    var f := ResolveOne(env, p, spec).value;
    if f.hash in w.visited {
      assert w.visited + {f.hash} == w.visited;
      assert w.ordered + [] == w.ordered;
      assert Visit(env, U, w, p, spec, chain) == Success(Record(w, p, Arrival(chain, f.hash)));
    }
  }

  // ---- layers ----

  ghost predicate NoDuplicates(ds: seq<DiffId>) {
    forall i, j | 0 <= i < j < |ds| :: ds[i] != ds[j]
  }

  lemma {:induction false} ExtendOnce(seen: seq<DiffId>, ds: seq<DiffId>)
    requires NoDuplicates(seen)
    ensures NoDuplicates(Extend(seen, ds)) && seen <= Extend(seen, ds)
    ensures forall d :: d in Extend(seen, ds) <==> d in seen || d in ds
    decreases |ds|
  {
    if ds != [] {
      var more := if ds[0] in seen then seen else seen + [ds[0]];
      ExtendOnce(more, ds[1..]);
      assert forall d :: d in ds <==> d == ds[0] || d in ds[1..] by {
        assert ds == [ds[0]] + ds[1..];
      }
    }
  }

  /** Each layer of each manifest once, and the layers of earlier manifests first. */
  lemma {:induction false} FlattenOnce(ms: seq<ResolvedManifest>, n: nat)
    requires n <= |ms|
    ensures NoDuplicates(FlattenLayers(ms))
    ensures forall d :: d in FlattenLayers(ms) <==> exists m :: m in ms && Layer(Some(d)) in m.manifest.layers
    ensures FlattenLayers(ms[..n]) <= FlattenLayers(ms)
  {
    if ms == [] {
      assert ms[..n] == [];
    } else {
      var front, last := ms[..|ms| - 1], ms[|ms| - 1];
      FlattenOnce(front, if n < |ms| then n else |front|);
      ExtendOnce(FlattenLayers(front), LayerDiffIds(last.manifest.layers));
      assert n < |ms| ==> front[..n] == ms[..n];
      assert n == |ms| ==> ms[..n] == ms;
      forall d ensures d in FlattenLayers(ms) <==> exists m :: m in ms && Layer(Some(d)) in m.manifest.layers {
        LayerDiffIdsMembers(last.manifest.layers, d);
        assert forall m :: m in ms <==> m in front || m == last by {
          assert ms == front + [last];
        }
      }
    }
  }

  /** Layer k of manifest i carries d. */
  ghost predicate Carries(ms: seq<ResolvedManifest>, i: int, k: int, d: DiffId) {
    0 <= i < |ms| && 0 <= k < |ms[i].manifest.layers| && ms[i].manifest.layers[k].diffId == Some(d)
  }

  ghost predicate StandsBehind(ds: seq<DiffId>, d: DiffId, e: DiffId) {
    exists a, b :: 0 <= a < b < |ds| && ds[a] == d && ds[b] == e
  }

  lemma {:induction false} ExtendOrders(seen: seq<DiffId>, ds: seq<DiffId>, x: nat, d: DiffId, e: DiffId)
    requires NoDuplicates(seen) && e !in seen && e in ds && d != e
    requires d in seen || (x < |ds| && ds[x] == d && e !in ds[..x])
    ensures StandsBehind(Extend(seen, ds), d, e)
    decreases |ds|
  {
    assert 0 < x <= |ds| ==> ds[..x][0] == ds[0];
    if ds[0] == e {
      StandsAfterSeen(seen, ds, d);
    } else {
      var more := if ds[0] in seen then seen else seen + [ds[0]];
      assert ds == [ds[0]] + ds[1..];
      if d !in more {
        assert ds[..x] == [ds[0]] + ds[1..][..x - 1];
      }
      ExtendOrders(more, ds[1..], if x > 0 then x - 1 else 0, d, e);
    }
  }

  lemma StandsAfterSeen(seen: seq<DiffId>, ds: seq<DiffId>, d: DiffId)
    requires NoDuplicates(seen) && d in seen && ds != [] && ds[0] !in seen
    ensures StandsBehind(Extend(seen, ds), d, ds[0])
  {
    var a :| 0 <= a < |seen| && seen[a] == d;
    var more := seen + [ds[0]];
    ExtendOnce(more, ds[1..]);
    assert more <= Extend(more, ds[1..]) == Extend(seen, ds);
    assert Extend(seen, ds)[a] == more[a] && Extend(seen, ds)[|seen|] == more[|seen|];
  }

  lemma {:induction false} IdsInOrder(layers: seq<Layer>, k: nat, d: DiffId, e: DiffId) returns (x: nat)
    requires k < |layers| && layers[k].diffId == Some(d)
    requires forall l | 0 <= l <= k :: layers[l].diffId != Some(e)
    ensures x < |LayerDiffIds(layers)| && LayerDiffIds(layers)[x] == d && e !in LayerDiffIds(layers)[..x]
  {
    if k == 0 {
      x := 0;
    } else {
      assert forall l | 0 <= l <= k - 1 :: layers[1..][l] == layers[l + 1];
      var y := IdsInOrder(layers[1..], k - 1, d, e);
      var rest := LayerDiffIds(layers[1..]);
      if layers[0].diffId.None? {
        x := y;
      } else {
        x := y + 1;
        assert ([layers[0].diffId.value] + rest)[..y + 1] == [layers[0].diffId.value] + rest[..y];
      }
    }
  }

  /** Layers come in the order in which the manifests, one after the other, first name them. */
  lemma {:induction false} LayersInOrder(ms: seq<ResolvedManifest>, i: nat, k: nat, d: DiffId, e: DiffId)
    requires Carries(ms, i, k, d) && (exists j, l :: Carries(ms, j, l, e)) && d != e
    requires forall j, l | Carries(ms, j, l, e) :: i < j || (i == j && k < l)
    ensures StandsBehind(FlattenLayers(ms), d, e)
  {
    var n := |ms| - 1;
    var front, last := ms[..n], ms[n];
    FlattenOnce(front, 0);
    ExtendOnce(FlattenLayers(front), LayerDiffIds(last.manifest.layers));
    assert forall j, l, x | Carries(front, j, l, x) :: Carries(ms, j, l, x);
    if j, l :| Carries(front, j, l, e) {
      assert Carries(ms, j, l, e) && i < n;
      assert Carries(front, i, k, d);
      LayersInOrder(front, i, k, d, e);
      var a, b :| 0 <= a < b < |FlattenLayers(front)| && FlattenLayers(front)[a] == d && FlattenLayers(front)[b] == e;
      assert FlattenLayers(ms)[a] == d && FlattenLayers(ms)[b] == e;
    } else {
      assert ms == front + [last];
      OnlyInLast(front, last, i, k, d, e);
    }
  }

  lemma OnlyInLast(front: seq<ResolvedManifest>, last: ResolvedManifest, i: nat, k: nat, d: DiffId, e: DiffId)
    requires var ms := front + [last];
             && Carries(ms, i, k, d) && (exists j, l :: Carries(ms, j, l, e)) && d != e
             && forall j, l | Carries(ms, j, l, e) :: i < j || (i == j && k < l)
    requires forall j, l :: !Carries(front, j, l, e)
    ensures StandsBehind(FlattenLayers(front + [last]), d, e)
  {
    var ms, n, layers := front + [last], |front|, last.manifest.layers;
    assert ms[..n] == front;
    FlattenOnce(front, 0);
    NotCarried(front, e);
    var j, l :| Carries(ms, j, l, e);
    assert !Carries(front, j, l, e);
    LayerDiffIdsMembers(layers, e);
    assert layers[l] == Layer(Some(e));
    if i < n {
      assert front[i] == ms[i] && Layer(Some(d)) == front[i].manifest.layers[k];
      ExtendOrders(FlattenLayers(front), LayerDiffIds(layers), 0, d, e);
    } else {
      forall m | 0 <= m <= k ensures layers[m].diffId != Some(e) {
        assert !Carries(ms, n, m, e);
      }
      var x := IdsInOrder(layers, k, d, e);
      ExtendOrders(FlattenLayers(front), LayerDiffIds(layers), x, d, e);
    }
  }

  lemma NotCarried(ms: seq<ResolvedManifest>, e: DiffId)
    requires forall j, l :: !Carries(ms, j, l, e)
    ensures e !in FlattenLayers(ms)
  {
    FlattenOnce(ms, 0);
    forall m | m in ms ensures Layer(Some(e)) !in m.manifest.layers {
      var j :| 0 <= j < |ms| && ms[j] == m;
      forall l | 0 <= l < |m.manifest.layers| ensures m.manifest.layers[l] != Layer(Some(e)) {
        assert !Carries(ms, j, l, e);
      }
    }
  }
}
