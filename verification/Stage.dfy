/** Building a file tree from a resolution and putting it in place (crates/elu-stacker/src/stage.rs). */
module Stage {
  import opened Wrappers
  import opened Magic
  import opened Types
  import opened StoreModel
  import opened Resolver
  import opened LayerTree
  import opened LayerOverlay
  import opened LayerEntries
  import LayerApply
  import ResolverProofs

  datatype StackError =
    | DiffNotFound(diffId: DiffId)
    | BadIndexEntry
    | BlobEncodingUnknown
    | Unreadable
    | LayerFailed(error: LayerError)
    | HookFailed
    | TargetExists
    | RenameFailed

  /** Reading tar streams and running hook operations are foreign to this model. */
  datatype Tools = Tools(f: Foreign, untar: Bytes -> Option<seq<Entry>>, hook: (seq<string>, Tree) -> Option<Tree>)

  datatype StackStats = StackStats(layers: nat, applied: nat, whiteouts: nat)

  datatype Staged = Staged(tree: Tree, stats: StackStats)

  /** From a diff id through the index to the entries of the archive. */
  function OpenLayer(tools: Tools, s: State, d: DiffId): Result<seq<Entry>, StackError> {
    if d !in s.diffs then Failure(DiffNotFound(d))
    else if s.diffs[d].Unparsed? then Failure(BadIndexEntry)
    else if s.diffs[d].target !in s.objects then Failure(DiffNotFound(d))
    else
      var bytes := s.objects[s.diffs[d].target];
      match SniffEncoding(bytes)
      case None => Failure(BlobEncodingUnknown)
      case Some(encoding) =>
        match Decode(tools.f, encoding, bytes)
        case None => Failure(Unreadable)
        case Some(tar) =>
          match tools.untar(tar)
          case None => Failure(Unreadable)
          case Some(entries) => Success(entries)
  }

  /** The index entry leads to a stored blob that unpacks to a tar stream of these entries. */
  ghost predicate LeadsTo(tools: Tools, s: State, d: DiffId, archive: seq<Entry>) {
    && d in s.diffs && s.diffs[d].Points? && s.diffs[d].target in s.objects
    && exists tar :: Unpacks(tools.f, s.objects[s.diffs[d].target], tar) && tools.untar(tar) == Some(archive)
  }

  lemma OpenLayerIff(tools: Tools, s: State, d: DiffId)
    ensures forall archive :: OpenLayer(tools, s, d) == Success(archive) <==> LeadsTo(tools, s, d, archive)
    ensures OpenLayer(tools, s, d) == Failure(DiffNotFound(d)) <==>
            d !in s.diffs || (s.diffs[d].Points? && s.diffs[d].target !in s.objects)
    ensures OpenLayer(tools, s, d) == Failure(BadIndexEntry) <==> d in s.diffs && s.diffs[d].Unparsed?
    ensures OpenLayer(tools, s, d) == Failure(BlobEncodingUnknown) <==>
            d in s.diffs && s.diffs[d].Points? && s.diffs[d].target in s.objects
            && !Recognised(s.objects[s.diffs[d].target])
  {
    if d in s.diffs && s.diffs[d].Points? && s.diffs[d].target in s.objects {
      DecodeUnpacks(tools.f, s.objects[s.diffs[d].target]);
    }
  }

  function ApplyLayer(tools: Tools, s: State, at: Staged, d: DiffId): Result<Staged, StackError> {
    match OpenLayer(tools, s, d)
    case Failure(e) => Failure(e)
    case Success(entries) =>
      match ApplyArchive(at.tree, entries)
      case Failure(e) => Failure(LayerFailed(e))
      case Success(p) =>
        Success(Staged(p.tree,
            StackStats(at.stats.layers + 1, at.stats.applied + p.applied, at.stats.whiteouts + p.whiteouts)))
  }

  const FRESH := Staged(map[[] := Dir(None)], StackStats(0, 0, 0))

  function ApplyLayers(tools: Tools, s: State, layers: seq<DiffId>): Result<Staged, StackError> {
    if layers == [] then Success(FRESH)
    else
      match ApplyLayers(tools, s, layers[..|layers| - 1])
      case Failure(e) => Failure(e)
      case Success(at) => ApplyLayer(tools, s, at, layers[|layers| - 1])
  }

  /** Hook operations are those of the first manifest of the resolution. */
  function HookOps(r: Resolution): seq<string> {
    if r.manifests == [] then [] else r.manifests[0].manifest.hookOps
  }

  /**
   * A single root with one dependency. The resolution starts with the dependency, so the hook
   * operations that run are the dependency's, whatever the root's are.
   */
  lemma DependencyHooksRun(env: Env, U: set<ManifestHash>, root: RootRef, d: Dependency, f: Fetched, g: Fetched)
    requires Finite(env, U) && root.package != d.reference && f.hash != g.hash
    requires f.manifest.dependencies == [d] && g.manifest.dependencies == []
    requires ResolveOne(env, root.package, root.version) == Success(f)
    requires ResolveOne(env, d.reference, d.version) == Success(g)
    requires f.manifest.hookOps != g.manifest.hookOps
    ensures Resolve(env, U, [root]).Success?
    ensures HookOps(Resolve(env, U, [root]).value) == g.manifest.hookOps != f.manifest.hookOps
  {
    ResolverProofs.ChainOfTwo(env, U, root, d, f, g);
  }

  function StagedTree(tools: Tools, s: State, r: Resolution): Result<Staged, StackError> {
    match ApplyLayers(tools, s, r.layers)
    case Failure(e) => Failure(e)
    case Success(at) =>
      if HookOps(r) == [] then Success(at)
      else
        match tools.hook(HookOps(r), at.tree)
        case None => Failure(HookFailed)
        case Some(t) => Success(at.(tree := t))
  }

  /** Named trees on disk: the target, staging directories, and whatever else is there. */
  class Disk {
    var trees: map<string, Tree>

    constructor (trees: map<string, Tree>)
      ensures this.trees == trees
    {
      this.trees := trees;
    }
  }

  /** A staging directory that is removed when dropped, unless it has been put in place. */
  class Staging {
    const disk: Disk
    const path: string
    var armed: bool

    constructor (disk: Disk, path: string)
      requires path !in disk.trees
      modifies disk
      ensures this.disk == disk && this.path == path && armed
      ensures disk.trees == old(disk.trees)[path := FRESH.tree]
    {
      this.disk, this.path, armed := disk, path, true;
      new;
      disk.trees := disk.trees[path := FRESH.tree];
    }

    /** The rename can fail; then nothing has changed and the guard stays armed. */
    method Finalize(target: string, renameWorks: bool) returns (ok: bool)
      requires path in disk.trees && path != target
      modifies this, disk
      ensures ok == renameWorks && armed == (old(armed) && !ok)
      ensures disk.trees == if ok then (old(disk.trees) - {path})[target := old(disk.trees)[path]] else old(disk.trees)
    {
      if renameWorks {
        disk.trees := (disk.trees - {path})[target := disk.trees[path]];
        armed := false;
      }
      ok := renameWorks;
    }

    method Drop()
      modifies disk
      ensures disk.trees == if armed then old(disk.trees) - {path} else old(disk.trees)
    {
      if armed {
        disk.trees := disk.trees - {path};
      }
    }
  }

  /** One layer into the staging tree; a failure may leave it half applied. */
  method ApplyInto(tools: Tools, s: State, staging: Staging, stats: StackStats, d: DiffId)
      returns (r: Result<StackStats, StackError>)
    requires staging.path in staging.disk.trees && PrefixClosed(staging.disk.trees[staging.path])
    modifies staging.disk
    ensures staging.path in staging.disk.trees
    ensures staging.disk.trees == old(staging.disk.trees)[staging.path := staging.disk.trees[staging.path]]
    ensures match ApplyLayer(tools, s, Staged(old(staging.disk.trees[staging.path]), stats), d)
            case Failure(e) => r == Failure(e)
            case Success(at) =>
              r == Success(at.stats) && staging.disk.trees[staging.path] == at.tree && PrefixClosed(at.tree)
  {
    var disk, path := staging.disk, staging.path;
    var archive := OpenLayer(tools, s, d);
    if archive.Failure? {
      assert disk.trees == disk.trees[path := disk.trees[path]];
      return Failure(archive.error);
    }
    var target := new LayerApply.Target(disk.trees[path]);
    var error := target.Apply(archive.value);
    disk.trees := disk.trees[path := target.tree];
    if error.Some? {
      return Failure(LayerFailed(error.value));
    }
    r := Success(StackStats(stats.layers + 1, stats.applied + target.applied, stats.whiteouts + target.whiteouts));
  }

  lemma LayersStep(tools: Tools, s: State, layers: seq<DiffId>, i: nat)
    requires i < |layers| && ApplyLayers(tools, s, layers[..i]).Success?
    ensures ApplyLayers(tools, s, layers[..i + 1]) ==
        ApplyLayer(tools, s, ApplyLayers(tools, s, layers[..i]).value, layers[i])
  {
    assert layers[..i + 1][..i] == layers[..i];
  }

  lemma PutTwice(a: map<string, Tree>, b: map<string, Tree>, c: map<string, Tree>, path: string)
    requires path in b && b == a[path := b[path]]
    requires path in c && c == b[path := c[path]]
    ensures c == a[path := c[path]]
  {
  }

  /** Every layer into the staging tree, in order, up to the first that fails. */
  method ApplyEach(tools: Tools, s: State, layers: seq<DiffId>, staging: Staging)
      returns (result: Result<StackStats, StackError>)
    requires staging.path in staging.disk.trees && staging.disk.trees[staging.path] == FRESH.tree
    modifies staging.disk
    ensures staging.path in staging.disk.trees
    ensures staging.disk.trees == old(staging.disk.trees)[staging.path := staging.disk.trees[staging.path]]
    ensures match ApplyLayers(tools, s, layers)
            case Failure(e) => result == Failure(e)
            case Success(at) => result == Success(at.stats) && staging.disk.trees[staging.path] == at.tree
  {
    var disk, path := staging.disk, staging.path;
    var stats := StackStats(0, 0, 0);
    FreshIsClosed();
    assert disk.trees == disk.trees[path := FRESH.tree];
    for i := 0 to |layers|
      invariant path in disk.trees && disk.trees == old(disk.trees)[path := disk.trees[path]]
      invariant PrefixClosed(disk.trees[path])
      invariant ApplyLayers(tools, s, layers[..i]) == Success(Staged(disk.trees[path], stats))
    {
      LayersStep(tools, s, layers, i);
      ghost var before := disk.trees;
      var applied := ApplyInto(tools, s, staging, stats, layers[i]);
      PutTwice(old(disk.trees), before, disk.trees, path);
      if applied.Failure? {
        LayersFailureSticks(tools, s, layers, i + 1);
        return Failure(applied.error);
      }
      stats := applied.value;
    }
    assert layers[..|layers|] == layers;
    result := Success(stats);
  }

  /** Applies every layer to the staging tree and runs the hook; the caller owns the cleanup. */
  method StageInto(tools: Tools, s: State, r: Resolution, staging: Staging)
      returns (result: Result<StackStats, StackError>)
    requires staging.path in staging.disk.trees && staging.disk.trees[staging.path] == FRESH.tree
    modifies staging.disk
    ensures staging.path in staging.disk.trees
    ensures staging.disk.trees == old(staging.disk.trees)[staging.path := staging.disk.trees[staging.path]]
    ensures match StagedTree(tools, s, r)
            case Failure(e) => result == Failure(e)
            case Success(at) => result == Success(at.stats) && staging.disk.trees[staging.path] == at.tree
  {
    result := ApplyEach(tools, s, r.layers, staging);
    if result.Success? && HookOps(r) != [] {
      var disk, path := staging.disk, staging.path;
      var hooked := tools.hook(HookOps(r), disk.trees[path]);
      if hooked.None? {
        return Failure(HookFailed);
      }
      disk.trees := disk.trees[path := hooked.value];
    }
  }

  /** Stage, then rename onto an absent target. The staging directory is gone either way. */
  method StageAndPlace(tools: Tools, s: State, r: Resolution, disk: Disk, target: string, temp: string,
                       renameWorks: bool)
      returns (result: Result<StackStats, StackError>)
    requires temp !in disk.trees && temp != target && target !in disk.trees
    modifies disk
    ensures result.Success? <==> StagedTree(tools, s, r).Success? && renameWorks
    ensures result.Success? ==> disk.trees == old(disk.trees)[target := StagedTree(tools, s, r).value.tree]
                                && result.value == StagedTree(tools, s, r).value.stats
    ensures result.Failure? ==> disk.trees == old(disk.trees)
    ensures result.Failure? ==>
        result.error == if StagedTree(tools, s, r).Failure? then StagedTree(tools, s, r).error else RenameFailed
  {
    var staging := new Staging(disk, temp);
    result := StageInto(tools, s, r, staging);
    if result.Success? {
      var ok := staging.Finalize(target, renameWorks);
      if !ok {
        result := Failure(RenameFailed);
      }
    }
    staging.Drop();
  }

  /**
   * All or nothing, except that `force` removes an existing target before anything is staged:
   * then a failure leaves no target at all.
   */
  method Stack(tools: Tools, s: State, r: Resolution, disk: Disk, target: string, temp: string, force: bool,
               renameWorks: bool)
      returns (result: Result<StackStats, StackError>)
    requires temp !in disk.trees && temp != target
    modifies disk
    ensures result.Success? <==>
        (force || target !in old(disk.trees)) && StagedTree(tools, s, r).Success? && renameWorks
    ensures result.Success? ==> disk.trees == old(disk.trees)[target := StagedTree(tools, s, r).value.tree]
                                && result.value == StagedTree(tools, s, r).value.stats
    ensures result.Success? <==>
        (force || target !in old(disk.trees)) && renameWorks && exists t :: Builds(tools, s, r, t)
    ensures result.Success? ==> target in disk.trees && Builds(tools, s, r, disk.trees[target])
    ensures result.Failure? ==> disk.trees == if force then old(disk.trees) - {target} else old(disk.trees)
    ensures target in old(disk.trees) && !force ==> result == Failure(TargetExists)
  {
    if target in disk.trees {
      if !force {
        return Failure(TargetExists);
      }
      disk.trees := disk.trees - {target};
    }
    result := StageAndPlace(tools, s, r, disk, target, temp, renameWorks);
    forall t ensures (StagedTree(tools, s, r).Success? && StagedTree(tools, s, r).value.tree == t)
                     <==> Builds(tools, s, r, t) {
      StagedTreeIff(tools, s, r, t);
    }
    assert StagedTree(tools, s, r).Success? ==> Builds(tools, s, r, StagedTree(tools, s, r).value.tree);
  }

  lemma FreshIsClosed()
    ensures PrefixClosed(FRESH.tree)
  {
  }

  lemma {:induction false} LayersFailureSticks(tools: Tools, s: State, layers: seq<DiffId>, n: nat)
    requires n <= |layers| && ApplyLayers(tools, s, layers[..n]).Failure?
    ensures ApplyLayers(tools, s, layers) == Failure(ApplyLayers(tools, s, layers[..n]).error)
  {
    if n == |layers| {
      assert layers[..n] == layers;
    } else {
      assert layers[..|layers| - 1][..n] == layers[..n];
      LayersFailureSticks(tools, s, layers[..|layers| - 1], n);
    }
  }

  // ---- the layers one by one ----

  /** The archive behind the layer turns tree a into tree b. */
  ghost predicate TurnsInto(tools: Tools, s: State, d: DiffId, archive: seq<Entry>, a: Tree, b: Tree) {
    LeadsTo(tools, s, d, archive) && ApplyArchive(a, archive).Success? && ApplyArchive(a, archive).value.tree == b
  }

  /** From an empty directory, through one tree after each layer. */
  ghost predicate Stacks(tools: Tools, s: State, layers: seq<DiffId>, archives: seq<seq<Entry>>, trees: seq<Tree>) {
    && |archives| == |layers| && |trees| == |layers| + 1 && trees[0] == map[[] := Dir(None)]
    && forall i | 0 <= i < |layers| :: TurnsInto(tools, s, layers[i], archives[i], trees[i], trees[i + 1])
  }

  lemma DropLast(tools: Tools, s: State, layers: seq<DiffId>, archives: seq<seq<Entry>>, trees: seq<Tree>)
    requires Stacks(tools, s, layers, archives, trees) && layers != []
    ensures var n := |layers| - 1;
            && Stacks(tools, s, layers[..n], archives[..n], trees[..n + 1])
            && TurnsInto(tools, s, layers[n], archives[n], trees[n], trees[n + 1])
  {
    var n := |layers| - 1;
    var fewer := trees[..n + 1];
    assert forall i | 0 <= i < n :: TurnsInto(tools, s, layers[i], archives[i], fewer[i], fewer[i + 1]);
  }

  /** Applying the layers gives the last tree, and counts every layer and every entry. */
  lemma {:induction false} StackedTree(tools: Tools, s: State, layers: seq<DiffId>, archives: seq<seq<Entry>>,
                                       trees: seq<Tree>)
    requires Stacks(tools, s, layers, archives, trees)
    ensures ApplyLayers(tools, s, layers).Success?
    ensures var at := ApplyLayers(tools, s, layers).value;
            && at.tree == trees[|layers|] && PrefixClosed(at.tree) && at.stats.layers == |layers|
            && at.stats.applied + at.stats.whiteouts == TotalEntries(archives)
  {
    if layers != [] {
      var n := |layers| - 1;
      DropLast(tools, s, layers, archives, trees);
      StackedTree(tools, s, layers[..n], archives[..n], trees[..n + 1]);
      OpenLayerIff(tools, s, layers[n]);
      ArchiveKeepsTree(trees[n], archives[n]);
    }
  }

  function TotalEntries(archives: seq<seq<Entry>>): nat {
    if archives == [] then 0 else TotalEntries(archives[..|archives| - 1]) + |archives[|archives| - 1]|
  }

  /** If the layers can be applied, there are such archives and trees. */
  lemma {:induction false} StackedBy(tools: Tools, s: State, layers: seq<DiffId>)
      returns (archives: seq<seq<Entry>>, trees: seq<Tree>)
    requires ApplyLayers(tools, s, layers).Success?
    ensures Stacks(tools, s, layers, archives, trees)
  {
    if layers == [] {
      archives, trees := [], [map[[] := Dir(None)]];
    } else {
      var n := |layers| - 1;
      var before, last := StackedBy(tools, s, layers[..n]);
      StackedTree(tools, s, layers[..n], before, last);
      OpenLayerIff(tools, s, layers[n]);
      archives := before + [OpenLayer(tools, s, layers[n]).value];
      trees := last + [ApplyLayers(tools, s, layers).value.tree];
      assert TurnsInto(tools, s, layers[n], archives[n], trees[n], trees[n + 1]);
      forall i | 0 <= i < n ensures TurnsInto(tools, s, layers[i], archives[i], trees[i], trees[i + 1]) {
        assert TurnsInto(tools, s, layers[..n][i], before[i], last[i], last[i + 1]);
      }
    }
  }

  /** The layers one over the other, and then what the operations of the first manifest's hook make of it. */
  ghost predicate Builds(tools: Tools, s: State, r: Resolution, t: Tree) {
    exists archives, trees ::
      && Stacks(tools, s, r.layers, archives, trees)
      && if r.manifests == [] || r.manifests[0].manifest.hookOps == [] then t == trees[|r.layers|]
         else tools.hook(r.manifests[0].manifest.hookOps, trees[|r.layers|]) == Some(t)
  }

  lemma StagedTreeIff(tools: Tools, s: State, r: Resolution, t: Tree)
    ensures (StagedTree(tools, s, r).Success? && StagedTree(tools, s, r).value.tree == t) <==> Builds(tools, s, r, t)
  {
    if ApplyLayers(tools, s, r.layers).Success? {
      var archives, trees := StackedBy(tools, s, r.layers);
      StackedTree(tools, s, r.layers, archives, trees);
    }
    if Builds(tools, s, r, t) {
      var archives, trees :|
        && Stacks(tools, s, r.layers, archives, trees)
        && if r.manifests == [] || r.manifests[0].manifest.hookOps == [] then t == trees[|r.layers|]
           else tools.hook(r.manifests[0].manifest.hookOps, trees[|r.layers|]) == Some(t);
      StackedTree(tools, s, r.layers, archives, trees);
    }
  }

  // ---- the last layer wins ----

  ghost predicate LastSupplied(archives: seq<seq<Entry>>, q: Path, node: Node, i: int) {
    && 0 <= i < |archives| && Supplies(archives[i], q, node)
    && forall j | i < j < |archives| :: LeftAlone(archives[j], 0, |archives[j]|, q)
  }

  /**
   * A file or link stands in the stacked tree exactly when some layer supplies it and no later
   * layer sets, whites out, clears or overwrites the path or a directory above it.
   */
  lemma {:induction false} LastLayerWins(tools: Tools, s: State, layers: seq<DiffId>, archives: seq<seq<Entry>>,
                                         trees: seq<Tree>, q: Path, node: Node)
    requires Stacks(tools, s, layers, archives, trees) && !node.Dir?
    ensures NodeAt(trees[|layers|], q) == Some(node) <==> exists i :: LastSupplied(archives, q, node, i)
  {
    if layers != [] {
      var n := |layers| - 1;
      DropLast(tools, s, layers, archives, trees);
      LastLayerWins(tools, s, layers[..n], archives[..n], trees[..n + 1], q, node);
      StackedTree(tools, s, layers[..n], archives[..n], trees[..n + 1]);
      OneArchiveOver(trees[n], archives[n], q, node);
      LastSuppliedStep(archives, q, node);
    }
  }

  lemma LastSuppliedStep(archives: seq<seq<Entry>>, q: Path, node: Node)
    requires archives != []
    ensures var n := |archives| - 1;
            (exists i :: LastSupplied(archives, q, node, i)) <==>
            Supplies(archives[n], q, node) ||
                (LeftAlone(archives[n], 0, |archives[n]|, q) && exists i :: LastSupplied(archives[..n], q, node, i))
  {
    var n := |archives| - 1;
    if i :| LastSupplied(archives, q, node, i) {
      assert i < n ==> LastSupplied(archives[..n], q, node, i);
    }
    if Supplies(archives[n], q, node) {
      assert LastSupplied(archives, q, node, n);
    }
    if i :| LastSupplied(archives[..n], q, node, i) && LeftAlone(archives[n], 0, |archives[n]|, q) {
      forall j | i < j < |archives| ensures LeftAlone(archives[j], 0, |archives[j]|, q) {
        if j < n {
          assert LeftAlone(archives[..n][j], 0, |archives[..n][j]|, q);
        }
      }
      assert LastSupplied(archives, q, node, i);
    }
  }
}
