/**
 * The store as the program runs it: one object whose methods change the object, diff
 * and ref tables in place (crates/elu-store/src/fs_store.rs). Every method is tied to
 * the function of StoreModel that says what it does.
 */
module FsStore {
  import opened Wrappers
  import opened Magic
  import opened Types
  import opened StoreModel

  datatype GcPlan = GcPlan(objects: seq<BlobId>, diffs: seq<DiffId>, bytesToFree: nat)

  datatype GcStats = GcStats(objectsRemoved: nat, diffsRemoved: nat, bytesFreed: nat)

  datatype RepairReport = RepairReport(orphanedDiffsRemoved: nat, brokenRefsRemoved: nat)

  /** A listing: every member of the set once, in whatever order the directory gives. */
  ghost predicate Lists<T>(xs: seq<T>, s: set<T>) {
    multiset(xs) == multiset(s)
  }

  lemma ListsMembers<T>(xs: seq<T>, s: set<T>)
    requires Lists(xs, s)
    ensures forall x :: x in xs <==> x in s
    ensures |xs| == |s|
  {
    forall x ensures x in xs <==> x in s {
      assert x in xs <==> x in multiset(xs);
    }
    assert |multiset(xs)| == |xs|;
  }

  lemma ListsOneMore<T>(xs: seq<T>, s: set<T>, x: T)
    requires Lists(xs, s) && x !in s
    ensures Lists(xs + [x], s + {x})
  {
  }

  lemma ListsDropLast<T>(xs: seq<T>, s: set<T>)
    requires Lists(xs, s) && xs != []
    ensures xs[|xs| - 1] in s && Lists(xs[..|xs| - 1], s - {xs[|xs| - 1]})
  {
    var front, x := xs[..|xs| - 1], xs[|xs| - 1];
    assert xs == front + [x];
    assert multiset(xs) == multiset(front) + multiset{x};
    assert x in multiset(s);
    assert multiset(s - {x}) == multiset(s) - multiset{x};
  }

  lemma ElementsOfListing<T>(xs: seq<T>, s: set<T>)
    requires Lists(xs, s)
    ensures Elements(xs) == s && |xs| == |s|
  {
    ListsMembers(xs, s);
  }

  method Listing<T(==)>(s: set<T>) returns (xs: seq<T>)
    ensures Lists(xs, s)
  {
    xs := [];
    var todo := s;
    while todo != {}
      invariant todo <= s
      invariant Lists(xs, s - todo)
      decreases todo
    {
      var x :| x in todo;
      assert s - (todo - {x}) == (s - todo) + {x};
      xs, todo := xs + [x], todo - {x};
    }
    assert s - todo == s;
  }

  class Store {
    const f: Foreign
    var objects: map<BlobId, Bytes>
    var diffs: map<DiffId, HashFile>
    var refs: map<RefKey, HashFile>
    var index: set<ManifestHash>
    var beside: RefTree

    function Snapshot(): State
      reads this
    {
      State(objects, diffs, refs, index, beside)
    }

    constructor (f: Foreign)
      ensures this.f == f
      ensures Snapshot() == EMPTY
    {
      this.f := f;
      objects, diffs, refs, index, beside := map[], map[], map[], {}, BARE;
    }

    method Get(id: BlobId) returns (r: Option<Bytes>)
      ensures r == if id in objects then Some(objects[id]) else None
    {
      r := if id in objects then Some(objects[id]) else None;
    }

    method ResolveDiff(d: DiffId) returns (r: Result<Option<BlobId>, StoreError>)
      ensures r == if d !in diffs then Success(None)
                   else if diffs[d].Points? then Success(Some(diffs[d].target))
                   else Failure(HashParse)
    {
      if d !in diffs {
        return Success(None);
      }
      match diffs[d] {
        case Points(b) => r := Success(Some(b));
        case Unparsed(_) => r := Failure(HashParse);
      }
    }

    method HasDiff(d: DiffId) returns (r: bool)
      ensures r <==> d in diffs
    {
      r := d in diffs;
    }

    method PutManifest(bytes: Bytes) returns (r: Result<ManifestHash, StoreError>)
      modifies this
      ensures Snapshot() == AfterPutManifest(f, old(Snapshot()), bytes)
      ensures r == if f.utf8(bytes) then Success(f.hash(bytes)) else Failure(ManifestNotUtf8)
    {
      if !f.utf8(bytes) {
        return Failure(ManifestNotUtf8);
      }
      var id := f.hash(bytes);
      if id !in objects {
        objects := objects[id := bytes];
      }
      if id !in index {
        index := index + {id};
      }
      r := Success(id);
    }

    /** The encoding is chosen from a 512-byte prefix; the diff id is that of the whole blob. */
    method PutBlob(bytes: Bytes) returns (r: Result<PutBlob, StoreError>)
      modifies this
      ensures Snapshot() == AfterPutBlob(f, old(Snapshot()), bytes)
      ensures forall c | Unpacks(f, bytes, c) ::
                r == Success(StoreModel.PutBlob(f.hash(c), f.hash(bytes), |bytes|, |c|))
      ensures (forall c :: !Unpacks(f, bytes, c)) ==>
                && r == Failure(if Recognised(bytes) then Corrupt else UnknownEncoding)
                && Snapshot() == old(Snapshot())
    {
      PeekSniffsAlike(bytes);
      DecodeUnpacks(f, bytes);
      var encoding := SniffEncoding(Peek(bytes));
      if encoding.None? {
        return Failure(UnknownEncoding);
      }
      var tar := Decode(f, encoding.value, bytes);
      if tar.None? {
        return Failure(Corrupt);
      }
      var d, b := f.hash(tar.value), f.hash(bytes);
      if b !in objects {
        objects := objects[b := bytes];
      }
      if d !in diffs {
        diffs := diffs[d := Points(b)];
      }
      r := Success(StoreModel.PutBlob(d, b, |bytes|, |tar.value|));
    }

    method GetRef(key: RefKey) returns (r: Option<HashFile>)
      ensures r == ReadRef(Snapshot(), key)
    {
      r := None;
      if PlainKey(key) {
        if key in refs {
          r := Some(refs[key]);
        }
      } else if key.version != "." && PathOf(key) in beside.files {
        r := Some(beside.files[PathOf(key)]);
      }
    }

    /** The directories are made one level at a time, from the top. */
    method MakeDirs(key: RefKey)
      modifies `beside
      ensures Snapshot() == WithRefDirs(old(Snapshot()), key)
    {
      var path := PathOf(key);
      var n := 1;
      while n < |path|
        invariant 1 <= n && (n <= |path| || path == [])
        invariant beside.files == old(beside.files)
        invariant beside.dirs == old(beside.dirs) + set i | 1 <= i < n && i < |path| :: path[..i]
      {
        beside := beside.(dirs := beside.dirs + {path[..n]});
        n := n + 1;
      }
      assert (set i | 1 <= i < n && i < |path| :: path[..i]) == (set i | 1 <= i < |path| :: path[..i]);
    }

    method PutRef(key: RefKey, hash: ManifestHash) returns (r: Option<StoreError>)
      modifies `refs, `beside
      ensures Snapshot() == AfterPutRef(old(Snapshot()), key, hash)
      ensures r == PutRefError(old(Snapshot()), key, hash)
    {
      r := RefKeyError(key);
      if r.Some? {
        return;
      }
      var existing := GetRef(key);
      if existing.Some? {
        return if existing.value == Points(hash) then None else Some(RefConflict(existing.value, hash));
      }
      if RefBlocked(Snapshot(), key) {
        return Some(Io);
      }
      NoNewDirAtPath(Snapshot(), key);
      MakeDirs(key);
      if NoFilePath(Snapshot(), key) {
        return Some(Io);
      }
      if PlainKey(key) {
        refs := refs[key := Points(hash)];
      } else {
        beside := beside.(files := beside.files[PathOf(key) := Points(hash)]);
      }
    }

    method RemoveRef(key: RefKey) returns (r: Option<StoreError>)
      modifies `refs, `beside
      ensures Snapshot() == AfterRemoveRef(old(Snapshot()), key)
      ensures r == RemoveRefError(old(Snapshot()), key)
    {
      r := RefKeyError(key);
      if r.Some? {
        return;
      }
      var existing := GetRef(key);
      if existing.None? {
        return if NotAFile(Snapshot(), key) then Some(Io) else Some(RefNotFound(key));
      }
      if PlainKey(key) {
        refs := refs - {key};
      } else {
        beside := beside.(files := beside.files - {PathOf(key)});
      }
    }

    /** Targets of the refs that parse; the order is the directory's. */
    method ListRefs() returns (entries: seq<(RefKey, ManifestHash)>)
      ensures Lists(entries, set k | k in refs && refs[k].Points? :: (k, refs[k].target))
      ensures forall h :: h in RefTargets(refs) <==> exists e :: e in entries && e.1 == h
    {
      var all := set k | k in refs && refs[k].Points? :: (k, refs[k].target);
      entries := Listing(all);
      ListsMembers(entries, all);
      forall h ensures h in RefTargets(refs) <==> exists e :: e in entries && e.1 == h {
        if h in RefTargets(refs) {
          var k :| k in refs && refs[k].Points? && refs[k].target == h;
          assert (k, h) in all;
        }
      }
    }

    /**
     * The mark phase: a work list of manifest hashes, last in first out. A manifest that is
     * not stored contributes nothing, so each round either shrinks the set of stored
     * manifests not yet visited or shortens the list.
     */
    method Mark() returns (visited: set<ManifestHash>, liveBlobs: set<BlobId>, liveDiffs: set<DiffId>)
      ensures visited == LiveManifests(f, Snapshot())
      ensures liveBlobs == LiveBlobs(f, Snapshot())
      ensures liveDiffs == LiveDiffs(f, Snapshot())
    {
      ghost var s := Snapshot();
      var entries := ListRefs();
      var queue := seq(|entries|, i requires 0 <= i < |entries| => entries[i].1);
      visited, liveBlobs, liveDiffs := {}, {}, {};
      QueueHoldsTargets(entries, queue);
      StartsWithRefs(f, s, Elements(queue));
      ghost var known := Elements(queue);
      while queue != []
        invariant known == visited + Elements(queue) && Marking(f, s, visited, known)
        invariant liveDiffs == DiffsOf(f, objects, visited)
        invariant liveBlobs == visited + TargetsOf(diffs, liveDiffs)
        decreases objects.Keys - visited, |queue|
      {
        var last := |queue| - 1;
        var m := queue[last];
        assert Elements(queue) == Elements(queue[..last]) + {m} by {
          assert queue == queue[..last] + [m];
        }
        queue := queue[..last];
        if m in visited {
          continue;
        }
        VisitOne(f, s, visited, known, m);
        known := known + Elements(PinnedDeps(f, objects, m));
        queue, liveBlobs, liveDiffs := MarkManifest(m, queue, visited, liveBlobs, liveDiffs);
        assert objects.Keys - (visited + {m}) <= objects.Keys - visited;
        assert m in objects ==> m in objects.Keys - visited;
        visited := visited + {m};
      }
      assert known == visited;
      MarkedIsLive(f, s, visited);
    }

    /** One manifest taken from the list: what it needs is marked and its pins are queued. */
    method MarkManifest(m: ManifestHash, queue: seq<ManifestHash>, ghost visited: set<ManifestHash>,
                        blobs: set<BlobId>, marked: set<DiffId>)
        returns (next: seq<ManifestHash>, liveBlobs: set<BlobId>, liveDiffs: set<DiffId>)
      requires marked == DiffsOf(f, objects, visited) && blobs == visited + TargetsOf(diffs, marked)
      ensures next == queue + PinnedDeps(f, objects, m)
      ensures Elements(next) == Elements(queue) + Elements(PinnedDeps(f, objects, m))
      ensures liveDiffs == DiffsOf(f, objects, visited + {m})
      ensures liveBlobs == visited + {m} + TargetsOf(diffs, liveDiffs)
    {
      next, liveBlobs, liveDiffs := queue, blobs + {m}, marked;
      DiffsOfOneMore(f, objects, visited, m);
      ElementsAppend(queue, PinnedDeps(f, objects, m));
      if m in objects {
        var manifest := f.Parse(objects[m]);
        if manifest.Some? {
          liveBlobs, liveDiffs := MarkLayers(LayerDiffIds(manifest.value.layers), liveBlobs, liveDiffs, visited + {m});
          next := queue + DependencyHashes(manifest.value.dependencies);
        }
      }
    }

    method MarkLayers(ds: seq<DiffId>, blobs: set<BlobId>, marked: set<DiffId>, ghost visited: set<ManifestHash>)
        returns (liveBlobs: set<BlobId>, liveDiffs: set<DiffId>)
      requires blobs == visited + TargetsOf(diffs, marked)
      ensures liveDiffs == marked + Elements(ds)
      ensures liveBlobs == visited + TargetsOf(diffs, liveDiffs)
    {
      liveBlobs, liveDiffs := blobs, marked;
      for i := 0 to |ds|
        invariant liveDiffs == marked + Elements(ds[..i])
        invariant liveBlobs == visited + TargetsOf(diffs, liveDiffs)
      {
        ghost var before := liveDiffs;
        liveDiffs := liveDiffs + {ds[i]};
        assert ds[..i + 1] == ds[..i] + [ds[i]];
        assert TargetsOf(diffs, liveDiffs) == TargetsOf(diffs, before) + TargetsOf(diffs, {ds[i]});
        var target := ResolveDiff(ds[i]);
        if target.Success? && target.value.Some? {
          assert TargetsOf(diffs, {ds[i]}) == {target.value.value};
          liveBlobs := liveBlobs + {target.value.value};
        } else {
          assert TargetsOf(diffs, {ds[i]}) == {};
        }
      }
      assert ds[..|ds|] == ds;
    }

    /** Stored objects outside `live`, each once, with the bytes they occupy. */
    method FindDead(live: set<BlobId>) returns (dead: seq<BlobId>, bytes: nat)
      ensures Lists(dead, objects.Keys - live)
      ensures TotalBytes(objects) == TotalBytes(objects - (objects.Keys - live)) + bytes
    {
      dead, bytes := [], 0;
      var todo := objects.Keys;
      ghost var found := {};
      assert objects - found == objects;
      while todo != {}
        invariant todo <= objects.Keys && found == (objects.Keys - todo) - live
        invariant Lists(dead, found)
        invariant TotalBytes(objects) == TotalBytes(objects - found) + bytes
        decreases todo
      {
        var b :| b in todo;
        todo := todo - {b};
        if b !in live {
          FreeOneMore(objects, found, b);
          ListsOneMore(dead, found, b);
          bytes := bytes + |objects[b]|;
          dead, found := dead + [b], found + {b};
        }
      }
    }

    /** plan_gc: what gc would remove, each file once, and the bytes that would be freed. */
    method ComputeGcPlan() returns (plan: GcPlan)
      ensures Elements(plan.objects) == DeadBlobs(f, Snapshot())
      ensures |plan.objects| == |DeadBlobs(f, Snapshot())|
      ensures Elements(plan.diffs) == DeadDiffs(f, Snapshot())
      ensures |plan.diffs| == |DeadDiffs(f, Snapshot())|
      ensures TotalBytes(objects) == TotalBytes(objects - DeadBlobs(f, Snapshot())) + plan.bytesToFree
    {
      var visited, liveBlobs, liveDiffs := Mark();
      var dead, bytes := FindDead(liveBlobs);
      var deadDiffs := Listing(diffs.Keys - liveDiffs);
      ElementsOfListing(dead, objects.Keys - liveBlobs);
      ElementsOfListing(deadDiffs, diffs.Keys - liveDiffs);
      plan := GcPlan(dead, deadDiffs, bytes);
    }

    method ApplyGcPlan(plan: GcPlan) returns (stats: GcStats)
      modifies `objects, `diffs
      ensures objects == old(objects) - Elements(plan.objects)
      ensures diffs == old(diffs) - Elements(plan.diffs)
      ensures stats == GcStats(|plan.objects|, |plan.diffs|, plan.bytesToFree)
    {
      for i := 0 to |plan.objects|
        invariant objects == old(objects) - Elements(plan.objects[..i])
        invariant diffs == old(diffs)
      {
        assert plan.objects[..i + 1] == plan.objects[..i] + [plan.objects[i]];
        objects := objects - {plan.objects[i]};
      }
      assert plan.objects[..|plan.objects|] == plan.objects;
      for i := 0 to |plan.diffs|
        invariant objects == old(objects) - Elements(plan.objects)
        invariant diffs == old(diffs) - Elements(plan.diffs[..i])
      {
        assert plan.diffs[..i + 1] == plan.diffs[..i] + [plan.diffs[i]];
        diffs := diffs - {plan.diffs[i]};
      }
      assert plan.diffs[..|plan.diffs|] == plan.diffs;
      stats := GcStats(|plan.objects|, |plan.diffs|, plan.bytesToFree);
    }

    method Gc() returns (stats: GcStats)
      modifies `objects, `diffs
      ensures Snapshot() == AfterGc(f, old(Snapshot()))
      ensures stats.objectsRemoved == |DeadBlobs(f, old(Snapshot()))|
      ensures stats.diffsRemoved == |DeadDiffs(f, old(Snapshot()))|
      ensures TotalBytes(old(objects)) == TotalBytes(objects) + stats.bytesFreed
    {
      var plan := ComputeGcPlan();
      stats := ApplyGcPlan(plan);
    }

    method CheckObjects() returns (errors: seq<FsckError>)
      ensures Lists(errors, Mismatches(f, Snapshot()))
    {
      errors := [];
      var todo := objects.Keys;
      while todo != {}
        invariant todo <= objects.Keys
        invariant Lists(errors, MismatchesAmong(f, Snapshot(), objects.Keys - todo))
        decreases todo
      {
        var b :| b in todo;
        ghost var before := objects.Keys - todo;
        OneMoreObject(f, Snapshot(), objects.Keys, todo, b);
        todo := todo - {b};
        var actual := f.hash(objects[b]);
        if actual != b {
          ListsOneMore(errors, MismatchesAmong(f, Snapshot(), before), HashMismatch(b, actual));
          errors := errors + [HashMismatch(b, actual)];
        }
      }
      assert MismatchesAmong(f, Snapshot(), objects.Keys - todo) == Mismatches(f, Snapshot());
    }

    method CheckDiffs() returns (errors: seq<FsckError>)
      ensures Lists(errors, Orphans(f, Snapshot()))
    {
      errors := [];
      var todo := diffs.Keys;
      while todo != {}
        invariant todo <= diffs.Keys
        invariant Lists(errors, OrphansAmong(f, Snapshot(), diffs.Keys - todo))
        decreases todo
      {
        var d :| d in todo;
        ghost var before := diffs.Keys - todo;
        OneMoreDiff(f, Snapshot(), diffs.Keys, todo, d);
        todo := todo - {d};
        var entry := diffs[d];
        if entry.Points? {
          var blob := Get(entry.target);
          var computed := if blob.None? then None else DiffIdOf(f, blob.value);
          if computed != Some(d) {
            ListsOneMore(errors, OrphansAmong(f, Snapshot(), before), OrphanedDiff(d, entry.target));
            errors := errors + [OrphanedDiff(d, entry.target)];
          }
        }
      }
      assert OrphansAmong(f, Snapshot(), diffs.Keys - todo) == Orphans(f, Snapshot());
    }

    method CheckRefs() returns (errors: seq<FsckError>)
      ensures Lists(errors, BrokenRefs(Snapshot()))
    {
      errors := [];
      var todo := refs.Keys;
      while todo != {}
        invariant todo <= refs.Keys
        invariant Lists(errors, BrokenAmong(Snapshot(), refs.Keys - todo))
        decreases todo
      {
        var k :| k in todo;
        ghost var before := refs.Keys - todo;
        OneMoreRef(Snapshot(), refs.Keys, todo, k);
        todo := todo - {k};
        if refs[k].Points? && refs[k].target !in objects {
          ListsOneMore(errors, BrokenAmong(Snapshot(), before), BrokenRef(k, refs[k].target));
          errors := errors + [BrokenRef(k, refs[k].target)];
        }
      }
      assert BrokenAmong(Snapshot(), refs.Keys - todo) == BrokenRefs(Snapshot());
    }

    method Fsck() returns (errors: seq<FsckError>)
      ensures Lists(errors, FsckErrors(f, Snapshot()))
    {
      var mismatches := CheckObjects();
      var orphans := CheckDiffs();
      var broken := CheckRefs();
      errors := mismatches + orphans + broken;
    }

    method Repair(errors: seq<FsckError>) returns (unrepairable: nat, orphans: nat, broken: nat)
      modifies `diffs, `refs
      ensures diffs == old(diffs) - DiffsNamed(errors)
      ensures refs == old(refs) - RefsNamed(errors)
      ensures unrepairable == CountMismatches(errors)
      ensures orphans == CountOrphans(errors)
      ensures broken == CountBroken(errors)
    {
      unrepairable, orphans, broken := 0, 0, 0;
      for i := 0 to |errors|
        invariant diffs == old(diffs) - DiffsNamed(errors[..i])
        invariant refs == old(refs) - RefsNamed(errors[..i])
        invariant unrepairable == CountMismatches(errors[..i])
        invariant orphans == CountOrphans(errors[..i])
        invariant broken == CountBroken(errors[..i])
      {
        assert errors[..i + 1] == errors[..i] + [errors[i]];
        NamedOneMore(errors[..i], errors[i]);
        CountOneMore(errors[..i], errors[i]);
        match errors[i] {
          case HashMismatch(_, _) =>
            unrepairable := unrepairable + 1;
          case OrphanedDiff(d, _) =>
            diffs := diffs - {d};
            orphans := orphans + 1;
          case BrokenRef(k, _) =>
            refs := refs - {k};
            broken := broken + 1;
        }
      }
      assert errors[..|errors|] == errors;
    }

    method FsckRepair() returns (r: Result<RepairReport, StoreError>)
      modifies `diffs, `refs
      ensures Snapshot() == AfterRepair(f, old(Snapshot()))
      ensures r == if Mismatches(f, old(Snapshot())) == {}
                   then Success(RepairReport(|Orphans(f, old(Snapshot()))|, |BrokenRefs(old(Snapshot()))|))
                   else Failure(FsckUnrepairable(|Mismatches(f, old(Snapshot()))|))
    {
      ghost var s := Snapshot();
      var errors := Fsck();
      ListsMembers(errors, FsckErrors(f, s));
      OrphansNamed(f, s, errors);
      BrokenNamed(f, s, errors);
      CountsAreSizes(errors, Mismatches(f, s), Orphans(f, s), BrokenRefs(s));
      var unrepairable, orphans, broken := Repair(errors);
      if unrepairable > 0 {
        return Failure(FsckUnrepairable(unrepairable));
      }
      r := Success(RepairReport(orphans, broken));
    }
  }

  // ---- lemmas the methods use ----

  /** The directories made for a ref are above its path. */
  lemma NoNewDirAtPath(s: State, key: RefKey)
    ensures NoFilePath(WithRefDirs(s, key), key) == NoFilePath(s, key)
  {
    assert forall n | 1 <= n < |PathOf(key)| :: |PathOf(key)[..n]| < |PathOf(key)|;
  }

  function Elements<T>(xs: seq<T>): set<T> {
    set x | x in xs
  }

  lemma ElementsAppend<T>(xs: seq<T>, ys: seq<T>)
    ensures Elements(xs + ys) == Elements(xs) + Elements(ys)
  {
  }

  lemma QueueHoldsTargets(entries: seq<(RefKey, ManifestHash)>, queue: seq<ManifestHash>)
    requires |queue| == |entries|
    requires forall i | 0 <= i < |queue| :: queue[i] == entries[i].1
    ensures forall h :: h in Elements(queue) <==> exists e :: e in entries && e.1 == h
  {
    forall h ensures h in Elements(queue) <==> exists e :: e in entries && e.1 == h {
      if h in queue {
        var i :| 0 <= i < |queue| && queue[i] == h;
        assert entries[i] in entries;
      }
      if e :| e in entries && e.1 == h {
        var i :| 0 <= i < |entries| && entries[i] == e;
        assert queue[i] == h;
      }
    }
  }

  lemma DiffsOfOneMore(f: Foreign, objects: map<BlobId, Bytes>, V: set<ManifestHash>, m: ManifestHash)
    ensures DiffsOf(f, objects, V + {m}) == DiffsOf(f, objects, V) + Elements(LayersOf(f, objects, m))
  {
  }

  /** What is visited has its pins visited or queued, and no closed set does without any of it. */
  ghost predicate Marking(f: Foreign, s: State, visited: set<ManifestHash>, known: set<ManifestHash>) {
    && RefTargets(s.refs) <= known
    && (forall m | m in visited :: Elements(PinnedDeps(f, s.objects, m)) <= known)
    && (forall W: set<ManifestHash> | Closed(f, s, W) :: known <= W)
  }

  lemma StartsWithRefs(f: Foreign, s: State, targets: set<ManifestHash>)
    requires forall h :: h in targets <==> h in RefTargets(s.refs)
    ensures Marking(f, s, {}, targets)
  {
  }

  lemma VisitOne(f: Foreign, s: State, visited: set<ManifestHash>, known: set<ManifestHash>, m: ManifestHash)
    requires Marking(f, s, visited, known) && m in known
    ensures Marking(f, s, visited + {m}, known + Elements(PinnedDeps(f, s.objects, m)))
  {
    var pins := Elements(PinnedDeps(f, s.objects, m));
    forall W: set<ManifestHash> | Closed(f, s, W) ensures known + pins <= W {
      assert m in W;
    }
  }

  lemma MarkedIsLive(f: Foreign, s: State, visited: set<ManifestHash>)
    requires Marking(f, s, visited, visited)
    ensures visited == LiveManifests(f, s)
  {
    forall m, d | m in visited && d in PinnedDeps(f, s.objects, m) ensures d in visited {
      assert d in Elements(PinnedDeps(f, s.objects, m));
    }
    LiveIsLeastClosed(f, s);
    LeastClosedUnique(f, s, visited, LiveManifests(f, s));
  }

  lemma LeastClosedUnique(f: Foreign, s: State, V: set<ManifestHash>, W: set<ManifestHash>)
    requires LeastClosed(f, s, V) && LeastClosed(f, s, W)
    ensures V == W
  {
  }

  lemma FreeOneMore(objects: map<BlobId, Bytes>, found: set<BlobId>, b: BlobId)
    requires b in objects && b !in found
    ensures TotalBytes(objects - found) == |objects[b]| + TotalBytes(objects - (found + {b}))
  {
    TotalBytesSplit(objects - found, b);
    assert objects - found - {b} == objects - (found + {b});
  }

  function MismatchesAmong(f: Foreign, s: State, bs: set<BlobId>): set<FsckError> {
    set b | b in bs && Corrupted(f, s, b) :: HashMismatch(b, f.hash(s.objects[b]))
  }

  lemma OneMoreObject(f: Foreign, s: State, all: set<BlobId>, todo: set<BlobId>, b: BlobId)
    requires b in todo && todo <= all
    ensures var e := if Corrupted(f, s, b) then {HashMismatch(b, f.hash(s.objects[b]))} else {};
      && e !! MismatchesAmong(f, s, all - todo)
      && MismatchesAmong(f, s, all - (todo - {b})) == MismatchesAmong(f, s, all - todo) + e
  {
  }

  ghost function OrphansAmong(f: Foreign, s: State, ds: set<DiffId>): set<FsckError> {
    set d | d in ds && Orphaned(f, s, d) :: OrphanedDiff(d, s.diffs[d].target)
  }

  lemma OneMoreDiff(f: Foreign, s: State, all: set<DiffId>, todo: set<DiffId>, d: DiffId)
    requires d in todo && todo <= all
    ensures var e := if Orphaned(f, s, d) then {OrphanedDiff(d, s.diffs[d].target)} else {};
      && e !! OrphansAmong(f, s, all - todo)
      && OrphansAmong(f, s, all - (todo - {d})) == OrphansAmong(f, s, all - todo) + e
  {
  }

  function BrokenAmong(s: State, ks: set<RefKey>): set<FsckError> {
    set k | k in ks && Broken(s, k) :: BrokenRef(k, s.refs[k].target)
  }

  lemma OneMoreRef(s: State, all: set<RefKey>, todo: set<RefKey>, k: RefKey)
    requires k in todo && todo <= all
    ensures var e := if Broken(s, k) then {BrokenRef(k, s.refs[k].target)} else {};
      && e !! BrokenAmong(s, all - todo)
      && BrokenAmong(s, all - (todo - {k})) == BrokenAmong(s, all - todo) + e
  {
  }

  ghost function DiffsNamed(errors: seq<FsckError>): set<DiffId> {
    set e | e in errors && e.OrphanedDiff? :: e.diffId
  }

  ghost function RefsNamed(errors: seq<FsckError>): set<RefKey> {
    set e | e in errors && e.BrokenRef? :: e.key
  }

  lemma NamedOneMore(errors: seq<FsckError>, e: FsckError)
    ensures DiffsNamed(errors + [e]) == DiffsNamed(errors) + if e.OrphanedDiff? then {e.diffId} else {}
    ensures RefsNamed(errors + [e]) == RefsNamed(errors) + if e.BrokenRef? then {e.key} else {}
  {
    forall d ensures d in DiffsNamed(errors + [e]) <==> d in DiffsNamed(errors) || (e.OrphanedDiff? && d == e.diffId) {
      assert (errors + [e])[|errors|] == e;
    }
    forall k ensures k in RefsNamed(errors + [e]) <==> k in RefsNamed(errors) || (e.BrokenRef? && k == e.key) {
      assert (errors + [e])[|errors|] == e;
    }
  }

  function CountMismatches(errors: seq<FsckError>): nat {
    if errors == [] then 0
    else CountMismatches(errors[..|errors| - 1]) + if errors[|errors| - 1].HashMismatch? then 1 else 0
  }

  function CountOrphans(errors: seq<FsckError>): nat {
    if errors == [] then 0
    else CountOrphans(errors[..|errors| - 1]) + if errors[|errors| - 1].OrphanedDiff? then 1 else 0
  }

  function CountBroken(errors: seq<FsckError>): nat {
    if errors == [] then 0
    else CountBroken(errors[..|errors| - 1]) + if errors[|errors| - 1].BrokenRef? then 1 else 0
  }

  lemma CountOneMore(errors: seq<FsckError>, e: FsckError)
    ensures CountMismatches(errors + [e]) == CountMismatches(errors) + if e.HashMismatch? then 1 else 0
    ensures CountOrphans(errors + [e]) == CountOrphans(errors) + if e.OrphanedDiff? then 1 else 0
    ensures CountBroken(errors + [e]) == CountBroken(errors) + if e.BrokenRef? then 1 else 0
  {
    assert (errors + [e])[..|errors|] == errors;
  }

  /** Counting list entries by kind counts the members of each kind: the list has no duplicates. */
  lemma {:induction false} CountsAreSizes(errors: seq<FsckError>, ms: set<FsckError>, os: set<FsckError>,
                                          bs: set<FsckError>)
    requires Lists(errors, ms + os + bs)
    requires (forall e | e in ms :: e.HashMismatch?) && (forall e | e in os :: e.OrphanedDiff?)
    requires forall e | e in bs :: e.BrokenRef?
    ensures CountMismatches(errors) == |ms| && CountOrphans(errors) == |os| && CountBroken(errors) == |bs|
  {
    if errors == [] {
      ListsMembers(errors, ms + os + bs);
      assert ms + os + bs == {};
    } else {
      var e, front := errors[|errors| - 1], errors[..|errors| - 1];
      ListsDropLast(errors, ms + os + bs);
      assert (ms - {e}) + (os - {e}) + (bs - {e}) == (ms + os + bs) - {e};
      CountsAreSizes(front, ms - {e}, os - {e}, bs - {e});
    }
  }

  lemma OrphansNamed(f: Foreign, s: State, errors: seq<FsckError>)
    requires forall e :: e in errors <==> e in FsckErrors(f, s)
    ensures DiffsNamed(errors) == (set d | d in s.diffs && Orphaned(f, s, d))
  {
    forall d ensures d in DiffsNamed(errors) <==> Orphaned(f, s, d) {
      if d in DiffsNamed(errors) {
        var e :| e in errors && e.OrphanedDiff? && e.diffId == d;
        assert e in Orphans(f, s);
      }
      if Orphaned(f, s, d) {
        var e := OrphanedDiff(d, s.diffs[d].target);
        assert e in Orphans(f, s);
        assert e in errors;
      }
    }
  }

  lemma BrokenNamed(f: Foreign, s: State, errors: seq<FsckError>)
    requires forall e :: e in errors <==> e in FsckErrors(f, s)
    ensures RefsNamed(errors) == (set k | k in s.refs && Broken(s, k))
  {
    forall k ensures k in RefsNamed(errors) <==> Broken(s, k) {
      if k in RefsNamed(errors) {
        var e :| e in errors && e.BrokenRef? && e.key == k;
        assert e in BrokenRefs(s);
      }
      if Broken(s, k) {
        var e := BrokenRef(k, s.refs[k].target);
        assert e in BrokenRefs(s);
        assert e in errors;
      }
    }
  }
}
