/** The walker as the program runs it, changing its tables in place. */
module ResolverWalk {
  import opened Wrappers
  import opened Types
  import opened Resolver

  class Walker {
    const env: Env
    var ordered: seq<ResolvedManifest>
    var visited: set<ManifestHash>
    var byName: map<PackageRef, seq<Arrival>>

    function Snapshot(): Walk
      reads this
    {
      Walk(ordered, visited, byName)
    }

    /** The outcome of a step: its error, or the tables it should leave. */
    ghost predicate Became(error: Option<ResolverError>, r: Result<Walk, ResolverError>)
      reads this
    {
      match r
      case Failure(e) => error == Some(e)
      case Success(w) => error == None && Snapshot() == w
    }

    constructor (env: Env)
      ensures this.env == env && Snapshot() == START
    {
      this.env := env;
      ordered, visited, byName := [], {}, map[];
    }

    method Visit(ghost U: set<ManifestHash>, p: PackageRef, spec: VersionSpec, chain: Chain)
        returns (error: Option<ResolverError>)
      requires Finite(env, U)
      modifies this
      ensures Became(error, Resolver.Visit(env, U, old(Snapshot()), p, spec, chain))
      decreases U - visited
    {
      var r := ResolveOne(env, p, spec);
      if r.Failure? {
        return Some(r.error);
      }
      var f := r.value;
      byName := byName[p := (if p in byName then byName[p] else []) + [Arrival(chain, f.hash)]];
      if f.hash in visited {
        return None;
      }
      assert ResolveOne(env, p, spec).value.hash in U;
      ghost var before := visited;
      visited := visited + {f.hash};
      var deps := SortDeps(f.manifest.dependencies);
      ghost var start := Snapshot();
      ghost var whole := VisitDeps(env, U, start, deps, chain);
      var i := 0;
      while i < |deps|
        invariant 0 <= i <= |deps|
        invariant start.visited <= visited
        invariant VisitDeps(env, U, Snapshot(), deps[i..], chain) == whole
      {
        var d := deps[i];
        ghost var here := Snapshot();
        assert U - visited < U - before;
        error := Visit(U, d.reference, d.version, chain + [ChainStep(d.reference, d.version)]);
        assert deps[i..][1..] == deps[i + 1..];
        if error.Some? {
          return;
        }
        i := i + 1;
      }
      assert deps[i..] == [];
      ordered := ordered + [ResolvedManifest(p, f.hash, f.manifest)];
      error := None;
    }

    /** The names reached at two different manifests, in no particular order. */
    method CheckConflicts() returns (conflict: Option<PackageRef>)
      ensures conflict.Some? <==> HasConflict(Snapshot())
      ensures conflict.Some? ==> conflict.value in byName && Conflicting(byName[conflict.value])
    {
      var todo := byName.Keys;
      while todo != {}
        invariant todo <= byName.Keys
        invariant forall p | p in byName.Keys - todo :: !Conflicting(byName[p])
        decreases todo
      {
        var p :| p in todo;
        if Conflicting(byName[p]) {
          return Some(p);
        }
        todo := todo - {p};
      }
      conflict := None;
    }

    method Flatten() returns (out: seq<DiffId>)
      ensures out == FlattenLayers(ordered)
    {
      out := [];
      for i := 0 to |ordered|
        invariant out == FlattenLayers(ordered[..i])
      {
        assert ordered[..i + 1][..i] == ordered[..i];
        var ds := LayerDiffIds(ordered[i].manifest.layers);
        ghost var done := Extend(out, ds);
        for j := 0 to |ds|
          invariant Extend(out, ds[j..]) == done
        {
          assert ds[j..][1..] == ds[j + 1..];
          if ds[j] !in out {
            out := out + [ds[j]];
          }
        }
      }
      assert ordered[..|ordered|] == ordered;
    }

    method Resolve(ghost U: set<ManifestHash>, roots: seq<RootRef>) returns (r: Result<Resolution, ResolverError>)
      requires Finite(env, U) && Snapshot() == START
      modifies this
      ensures r == Resolver.Resolve(env, U, roots)
    {
      ghost var whole := VisitRoots(env, U, START, roots);
      var i := 0;
      while i < |roots|
        invariant 0 <= i <= |roots|
        invariant VisitRoots(env, U, Snapshot(), roots[i..]) == whole
      {
        var x := roots[i];
        var error := Visit(U, x.package, x.version, [ChainStep(x.package, x.version)]);
        assert roots[i..][1..] == roots[i + 1..];
        if error.Some? {
          return Failure(error.value);
        }
        i := i + 1;
      }
      var conflict := CheckConflicts();
      if conflict.Some? {
        return Failure(Conflict);
      }
      var layers := Flatten();
      r := Success(Resolution(ordered, layers));
    }
  }
}
