/** lock, verify and update (crates/elu-resolver/src/lockfile.rs). */
module LockfileOps {
  import opened Wrappers
  import opened Types
  import opened Versions
  import opened Resolver
  import opened ResolverProofs

  function RootsOf(deps: seq<Dependency>): (r: seq<RootRef>)
    ensures |r| == |deps| && forall i | 0 <= i < |deps| :: r[i] == RootRef(deps[i].reference, deps[i].version)
  {
    seq(|deps|, i requires 0 <= i < |deps| => RootRef(deps[i].reference, deps[i].version))
  }

  /** Entries are named after the manifest itself, not after the edge that reached it. */
  function EntryOf(m: ResolvedManifest): LockEntry {
    LockEntry(m.manifest.package, m.manifest.version, m.hash)
  }

  function ToLockfile(ms: seq<ResolvedManifest>): (l: Lockfile)
    ensures |l.packages| == |ms| && forall i | 0 <= i < |ms| :: l.packages[i] == EntryOf(ms[i])
  {
    Lockfile(1, seq(|ms|, i requires 0 <= i < |ms| => EntryOf(ms[i])))
  }

  function Lock(sv: Semver, src: VersionSource, ghost U: set<ManifestHash>,
                manifest: Manifest): Result<Lockfile, ResolverError>
    requires Finite(Env(sv, src, None), U)
  {
    match Resolve(Env(sv, src, None), U, RootsOf(manifest.dependencies))
    case Failure(e) => Failure(e)
    case Success(r) => Success(ToLockfile(r.manifests))
  }

  // ---- verify ----

  function DepError(sv: Semver, lock: Lockfile, d: Dependency): Option<ResolverError> {
    match Lookup(lock.packages, d.reference)
    case None => Some(NoMatch(d.reference))
    case Some(entry) =>
      if d.version.Pinned? || sv.matches(Requirement(d.version), entry.version) then None
      else Some(LockMismatch(d.reference, entry.version))
  }

  /** The version is one the spec asks for; a pin takes any. */
  predicate Suits(sv: Semver, spec: VersionSpec, v: Version) {
    match spec
    case Pinned(_) => true
    case Range(req) => sv.matches(req, v)
    case Any => sv.matches(VersionReq("*"), v)
  }

  /** The first entry of the dependency's name decides: a version that suits, a mismatch, or no entry at all. */
  lemma DepErrorIff(sv: Semver, lock: Lockfile, d: Dependency)
    ensures forall i | FirstNamed(lock.packages, d.reference, i) ::
              DepError(sv, lock, d) == if Suits(sv, d.version, lock.packages[i].version) then None
                                       else Some(LockMismatch(d.reference, lock.packages[i].version))
    ensures (forall e | e in lock.packages :: e.package != d.reference) ==>
              DepError(sv, lock, d) == Some(NoMatch(d.reference))
    ensures DepError(sv, lock, d).None? <==>
              exists i :: FirstNamed(lock.packages, d.reference, i) && Suits(sv, d.version, lock.packages[i].version)
  {
    forall i | FirstNamed(lock.packages, d.reference, i)
      ensures Lookup(lock.packages, d.reference) == Some(lock.packages[i])
    {
      LookupFindsFirst(lock.packages, d.reference, i);
    }
    if Lookup(lock.packages, d.reference).Some? {
      var i := SomeFirst(lock.packages, d.reference);
    }
  }

  lemma {:induction false} SomeFirst(packages: seq<LockEntry>, p: PackageRef) returns (i: nat)
    requires Lookup(packages, p).Some?
    ensures FirstNamed(packages, p, i)
  {
    if packages[0].package == p {
      i := 0;
    } else {
      var k := SomeFirst(packages[1..], p);
      i := k + 1;
    }
  }

  function VerifyErrors(sv: Semver, lock: Lockfile, deps: seq<Dependency>): seq<ResolverError> {
    if deps == [] then []
    else
      var last := DepError(sv, lock, deps[|deps| - 1]);
      VerifyErrors(sv, lock, deps[..|deps| - 1]) + if last.Some? then [last.value] else []
  }

  method Verify(sv: Semver, manifest: Manifest, lock: Lockfile) returns (r: Result<(), seq<ResolverError>>)
    ensures r.Success? <==> forall d | d in manifest.dependencies ::
              exists i :: FirstNamed(lock.packages, d.reference, i) && Suits(sv, d.version, lock.packages[i].version)
    ensures r.Failure? ==> r.error == VerifyErrors(sv, lock, manifest.dependencies)
    ensures r.Failure? ==> forall e ::
              e in r.error <==> exists d :: d in manifest.dependencies && DepError(sv, lock, d) == Some(e)
  {
    var deps, errors := manifest.dependencies, [];
    for i := 0 to |deps|
      invariant errors == VerifyErrors(sv, lock, deps[..i])
    {
      assert deps[..i + 1][..i] == deps[..i];
      var entry := Lookup(lock.packages, deps[i].reference);
      if entry.None? {
        errors := errors + [NoMatch(deps[i].reference)];
      } else if !deps[i].version.Pinned? && !sv.matches(Requirement(deps[i].version), entry.value.version) {
        errors := errors + [LockMismatch(deps[i].reference, entry.value.version)];
      }
    }
    assert deps[..|deps|] == deps;
    VerifyErrorsEmpty(sv, lock, deps);
    forall d ensures DepError(sv, lock, d).None? <==>
        exists i :: FirstNamed(lock.packages, d.reference, i) && Suits(sv, d.version, lock.packages[i].version) {
      DepErrorIff(sv, lock, d);
    }
    forall e ensures e in errors <==> exists d :: d in deps && DepError(sv, lock, d) == Some(e) {
      ErrorsSpelled(sv, lock, deps, e);
    }
    r := if errors == [] then Success(()) else Failure(errors);
  }

  lemma {:induction false} VerifyErrorsEmpty(sv: Semver, lock: Lockfile, deps: seq<Dependency>)
    ensures VerifyErrors(sv, lock, deps) == [] <==> forall d | d in deps :: DepError(sv, lock, d).None?
  {
    if deps != [] {
      var front, last := deps[..|deps| - 1], deps[|deps| - 1];
      VerifyErrorsEmpty(sv, lock, front);
      assert forall d :: d in deps <==> d in front || d == last by {
        assert deps == front + [last];
      }
    }
  }

  /** The list has the error of every dependency that has one, and no other. */
  lemma {:induction false} ErrorsSpelled(sv: Semver, lock: Lockfile, deps: seq<Dependency>, e: ResolverError)
    ensures e in VerifyErrors(sv, lock, deps) <==> exists d :: d in deps && DepError(sv, lock, d) == Some(e)
  {
    if deps != [] {
      var front, last := deps[..|deps| - 1], deps[|deps| - 1];
      ErrorsSpelled(sv, lock, front, e);
      assert forall d :: d in deps <==> d in front || d == last by {
        assert deps == front + [last];
      }
    }
  }

  // ---- update ----

  predicate Known(manifest: Manifest, name: string) {
    exists d :: d in manifest.dependencies && d.reference.name == name
  }

  function FirstUnknown(manifest: Manifest, names: seq<string>): Option<string> {
    if names == [] then None
    else if !Known(manifest, names[0]) then Some(names[0])
    else FirstUnknown(manifest, names[1..])
  }

  /** Names are compared without their namespace. */
  function Unlisted(packages: seq<LockEntry>, names: seq<string>): (r: seq<LockEntry>)
    ensures forall e :: e in r <==> e in packages && e.package.name !in names
  {
    if packages == [] then []
    else if packages[0].package.name in names then Unlisted(packages[1..], names)
    else [packages[0]] + Unlisted(packages[1..], names)
  }

  function PinFilter(lock: Lockfile, names: Option<seq<string>>): Lockfile {
    match names
    case None => NO_PINS
    case Some(ns) => Lockfile(lock.schema, Unlisted(lock.packages, ns))
  }

  function Update(sv: Semver, src: VersionSource, ghost U: set<ManifestHash>, manifest: Manifest, lock: Lockfile,
                  names: Option<seq<string>>): Result<Lockfile, ResolverError>
    requires Finite(Env(sv, src, Some(PinFilter(lock, names))), U)
  {
    if names.Some? && FirstUnknown(manifest, names.value).Some?
    then Failure(UnknownUpdateTarget(FirstUnknown(manifest, names.value).value))
    else
      match Resolve(Env(sv, src, Some(PinFilter(lock, names))), U, RootsOf(manifest.dependencies))
      case Failure(e) => Failure(e)
      case Success(r) => Success(ToLockfile(r.manifests))
  }

  /** The first name that is no dependency's ends the update before anything is resolved. */
  lemma UpdateRefuses(sv: Semver, src: VersionSource, U: set<ManifestHash>, manifest: Manifest, lock: Lockfile,
                      names: seq<string>, n: nat, deps: seq<Dependency>)
    requires Finite(Env(sv, src, Some(PinFilter(lock, Some(names)))), U)
    requires n < |names| && forall d | d in manifest.dependencies :: d.reference.name != names[n]
    requires NamedBy(manifest, names[..n], deps)
    ensures Update(sv, src, U, manifest, lock, Some(names)) == Failure(UnknownUpdateTarget(names[n]))
  {
    FirstIsFound(manifest, names, n, deps);
  }

  /** Each name is that of a direct dependency, without its namespace. */
  predicate NamedBy(manifest: Manifest, names: seq<string>, deps: seq<Dependency>) {
    && |deps| == |names|
    && forall k | 0 <= k < |names| :: deps[k] in manifest.dependencies && deps[k].reference.name == names[k]
  }

  lemma {:induction false} FirstIsFound(manifest: Manifest, names: seq<string>, n: nat, deps: seq<Dependency>)
    requires n <= |names| && NamedBy(manifest, names[..n], deps)
    requires n < |names| ==> forall d | d in manifest.dependencies :: d.reference.name != names[n]
    ensures FirstUnknown(manifest, names) == if n < |names| then Some(names[n]) else None
  {
    if n > 0 {
      assert names[..n][0] == names[0] && names[1..][..n - 1] == names[..n][1..];
      assert Known(manifest, names[0]);
      FirstIsFound(manifest, names[1..], n - 1, deps[1..]);
    }
  }

  /** With known names only, the answer is what resolving against the entries of all other names gives. */
  lemma UpdateResolves(sv: Semver, src: VersionSource, U: set<ManifestHash>, manifest: Manifest, lock: Lockfile,
                       names: seq<string>, deps: seq<Dependency>)
    requires Finite(Env(sv, src, Some(PinFilter(lock, Some(names)))), U)
    requires NamedBy(manifest, names, deps)
    ensures var kept := PinFilter(lock, Some(names));
            var r := Resolve(Env(sv, src, Some(kept)), U, RootsOf(manifest.dependencies));
            && (forall p: PackageRef ::
                  Lookup(kept.packages, p) == if p.name in names then None else Lookup(lock.packages, p))
            && (r.Failure? ==> Update(sv, src, U, manifest, lock, Some(names)) == Failure(r.error))
            && (r.Success? ==> Update(sv, src, U, manifest, lock, Some(names)).Success?)
  {
    assert names[..|names|] == names;
    FirstIsFound(manifest, names, |names|, deps);
    forall p: PackageRef ensures Lookup(Unlisted(lock.packages, names), p) ==
        if p.name in names then None else Lookup(lock.packages, p) {
      UnlistedLookup(lock.packages, names, p);
    }
  }

  lemma {:induction false} UnlistedLookup(packages: seq<LockEntry>, names: seq<string>, p: PackageRef)
    ensures Lookup(Unlisted(packages, names), p) == if p.name in names then None else Lookup(packages, p)
  {
    if packages != [] {
      UnlistedLookup(packages[1..], names, p);
    }
  }
}
