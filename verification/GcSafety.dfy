/** A collection never takes away what the refs reached when it took the lock. */
module GcSafety {
  import opened Wrappers
  import opened Magic
  import opened Types
  import opened StoreModel
  import opened StoreConcurrent

  ghost predicate ObjectsSound(f: Foreign, s: State) {
    forall b | b in s.objects :: f.hash(s.objects[b]) == b
  }

  lemma ContinueKeepsObjectsSound(f: Foreign, sys: Sys, t: Tid, pick: Hash, listed: set<Hash>)
    requires ObjectsSound(f, sys.store)
    ensures ObjectsSound(f, Continue(f, sys, t, pick, listed).store)
  {
    var p, s, next := At(sys, t), sys.store, Continue(f, sys, t, pick, listed).store;
    assert next.objects == s.objects || next.objects == s.objects - {pick}
        || ((p.BlobRename? || p.ManifestRename?) && next.objects == s.objects[f.hash(p.bytes) := p.bytes]);
  }

  lemma StepKeepsObjectsSound(f: Foreign, sys: Sys, t: Tid, act: Action)
    requires ObjectsSound(f, sys.store)
    ensures ObjectsSound(f, Step(f, sys, t, act).store)
  {
    if act.Advance? {
      ContinueKeepsObjectsSound(f, sys, t, act.pick, act.listed);
    } else {
      CallsStartEmptyHanded(f, sys, t, act);
    }
  }

  /** b still has every object and every written index entry of a, unchanged. */
  ghost predicate Extends(a: State, b: State) {
    && (forall x | x in a.objects :: x in b.objects && b.objects[x] == a.objects[x])
    && (forall d | d in a.diffs && a.diffs[d].Points? :: d in b.diffs && b.diffs[d] == a.diffs[d])
  }

  /** The same, for what the refs of a reach. */
  ghost predicate KeepsLive(f: Foreign, a: State, b: State) {
    && (forall x | x in LiveBlobs(f, a) && x in a.objects :: x in b.objects && b.objects[x] == a.objects[x])
    && (forall d | d in LiveDiffs(f, a) && d in a.diffs && a.diffs[d].Points? ::
        d in b.diffs && b.diffs[d] == a.diffs[d])
  }

  lemma RenameKeeps(f: Foreign, s: State, bytes: Bytes)
    requires CollisionFree(f) && ObjectsSound(f, s)
    ensures Extends(s, s.(objects := s.objects[f.hash(bytes) := bytes]))
  {
    if f.hash(bytes) in s.objects {
      NoCollision(f, s.objects[f.hash(bytes)], bytes);
    }
  }

  lemma UnlockedContinueAdds(f: Foreign, sys: Sys, t: Tid, pick: Hash, listed: set<Hash>)
    requires CollisionFree(f) && ObjectsSound(f, sys.store)
    requires !InGc(At(sys, t)) && !HoldsShared(At(sys, t)) && sys.exclusive.Some?
    ensures var next := Continue(f, sys, t, pick, listed);
            Extends(sys.store, next.store) && next.store.refs == sys.store.refs && next.exclusive == sys.exclusive
  {
    ContinueObjects(f, sys, t, pick, listed);
    ContinueIndex(f, sys, t, pick, listed);
    if At(sys, t).BlobRename? || At(sys, t).ManifestRename? {
      RenameKeeps(f, sys.store, At(sys, t).bytes);
    }
  }

  /** Without the lock, and without it held shared, a process can only add to the store. */
  lemma UnlockedOnlyAdds(f: Foreign, sys: Sys, t: Tid, act: Action)
    requires CollisionFree(f) && ObjectsSound(f, sys.store)
    requires !InGc(At(sys, t)) && !HoldsShared(At(sys, t)) && sys.exclusive.Some? && sys.exclusive != Some(t)
    ensures Extends(sys.store, Step(f, sys, t, act).store)
    ensures Step(f, sys, t, act).store.refs == sys.store.refs
    ensures Step(f, sys, t, act).exclusive == sys.exclusive
  {
    if act.Advance? {
      UnlockedContinueAdds(f, sys, t, act.pick, act.listed);
    } else {
      CallsStartEmptyHanded(f, sys, t, act);
    }
  }

  /**
   * What marking has established about the store as it was at the lock: whatever is visited
   * has its pins visited or queued, its layers marked or about to be, and its blobs marked.
   */
  ghost predicate Marking(f: Foreign, snap: State, visited: set<ManifestHash>, queue: set<ManifestHash>,
                          blobs: set<BlobId>, diffs: set<DiffId>, todo: seq<DiffId>)
  {
    && RefTargets(snap.refs) <= visited + queue
    && (forall m, d | m in visited && d in PinnedDeps(f, snap.objects, m) :: d in visited || d in queue)
    && (forall m, d | m in visited && d in LayersOf(f, snap.objects, m) :: d in diffs || d in todo)
    && visited <= blobs
    && TargetsOf(snap.diffs, diffs) <= blobs
  }

  ghost predicate Phase(f: Foreign, snap: State, s: State, p: Proc) {
    match p
    case GcList => Extends(snap, s)
    case GcPop(queue, visited, blobs, diffs) => Extends(snap, s) && Marking(f, snap, visited, queue, blobs, diffs, [])
    case GcLayers(queue, visited, blobs, diffs, todo, deps) =>
      Extends(snap, s) && Marking(f, snap, visited, queue + deps, blobs, diffs, todo)
    case GcListObjects(blobs, diffs, _) =>
      Extends(snap, s) && LiveBlobs(f, snap) <= blobs && LiveDiffs(f, snap) <= diffs
    case GcListDiffs(dead, diffs, _) => Extends(snap, s) && LiveBlobs(f, snap) !! dead && LiveDiffs(f, snap) <= diffs
    case GcSweep(deadBlobs, deadDiffs) =>
      KeepsLive(f, snap, s) && LiveBlobs(f, snap) !! deadBlobs && LiveDiffs(f, snap) !! deadDiffs
    case _ => false
  }

  lemma PhaseSurvivesOthers(f: Foreign, snap: State, a: State, b: State, p: Proc)
    requires Phase(f, snap, a, p) && Extends(a, b)
    ensures Phase(f, snap, b, p)
  {
  }

  lemma MarkedCoversLive(f: Foreign, snap: State, visited: set<ManifestHash>, blobs: set<BlobId>, diffs: set<DiffId>)
    requires Marking(f, snap, visited, {}, blobs, diffs, [])
    ensures LiveBlobs(f, snap) <= blobs && LiveDiffs(f, snap) <= diffs
  {
    LiveIsLeastClosed(f, snap);
    assert Closed(f, snap, visited);
  }

  lemma PopAdvances(f: Foreign, snap: State, sys: Sys, t: Tid, pick: Hash, listed: set<Hash>)
    requires At(sys, t).GcPop? && Phase(f, snap, sys.store, At(sys, t))
    ensures Phase(f, snap, sys.store, At(Continue(f, sys, t, pick, listed), t))
  {
    var p := At(sys, t);
    if p.queue == {} {
      MarkedCoversLive(f, snap, p.visited, p.blobs, p.diffs);
    } else if pick in p.queue && pick !in p.visited {
      var q := At(Continue(f, sys, t, pick, listed), t);
      assert pick in snap.objects ==> snap.objects[pick] == sys.store.objects[pick];
      assert Marking(f, snap, q.visited, q.queue + q.deps, q.blobs, q.diffs, q.todo);
    }
  }

  lemma LayersAdvance(f: Foreign, snap: State, sys: Sys, t: Tid, pick: Hash, listed: set<Hash>)
    requires At(sys, t).GcLayers? && Phase(f, snap, sys.store, At(sys, t))
    ensures Phase(f, snap, sys.store, At(Continue(f, sys, t, pick, listed), t))
  {
    var p := At(sys, t);
    if p.todo != [] {
      var q := At(Continue(f, sys, t, pick, listed), t);
      var d := p.todo[0];
      assert p.todo == [d] + q.todo;
      assert TargetsOf(snap.diffs, q.diffs) <= TargetsOf(snap.diffs, p.diffs) + TargetsOf(sys.store.diffs, {d});
      assert Marking(f, snap, q.visited, q.queue + q.deps, q.blobs, q.diffs, q.todo);
    }
  }

  lemma ListingAdvances(f: Foreign, snap: State, sys: Sys, t: Tid, pick: Hash, listed: set<Hash>)
    requires At(sys, t).GcList? || At(sys, t).GcListObjects? || At(sys, t).GcListDiffs?
    requires sys.store.refs == snap.refs && Phase(f, snap, sys.store, At(sys, t))
    ensures Phase(f, snap, sys.store, At(Continue(f, sys, t, pick, listed), t))
  {
  }

  lemma DeadBlobGoes(f: Foreign, snap: State, s: State, b: BlobId)
    requires KeepsLive(f, snap, s) && b !in LiveBlobs(f, snap)
    ensures KeepsLive(f, snap, s.(objects := s.objects - {b}))
  {
  }

  lemma DeadEntryGoes(f: Foreign, snap: State, s: State, d: DiffId)
    requires KeepsLive(f, snap, s) && d !in LiveDiffs(f, snap)
    ensures KeepsLive(f, snap, s.(diffs := s.diffs - {d}))
  {
  }

  lemma SweepAdvances(f: Foreign, snap: State, sys: Sys, t: Tid, pick: Hash, listed: set<Hash>)
    requires At(sys, t).GcSweep? && Phase(f, snap, sys.store, At(sys, t))
    ensures var next := Continue(f, sys, t, pick, listed);
            && next.store.refs == sys.store.refs
            && KeepsLive(f, snap, next.store)
            && (InGc(At(next, t)) ==> Phase(f, snap, next.store, At(next, t)))
  {
    var p := At(sys, t);
    if pick in p.deadBlobs {
      DeadBlobGoes(f, snap, sys.store, pick);
    } else if p.deadBlobs == {} && pick in p.deadDiffs {
      DeadEntryGoes(f, snap, sys.store, pick);
    }
  }

  /** Listing and marking leave the store alone, so what it still has of the locked store stays. */
  lemma MarkingOnlyReads(f: Foreign, sys: Sys, t: Tid, pick: Hash, listed: set<Hash>)
    requires InGc(At(sys, t)) && !At(sys, t).GcSweep?
    ensures Continue(f, sys, t, pick, listed).store == sys.store
  {
  }

  lemma PhaseKeepsLive(f: Foreign, snap: State, s: State, p: Proc)
    requires Phase(f, snap, s, p)
    ensures KeepsLive(f, snap, s)
  {
  }

  lemma HolderContinues(f: Foreign, snap: State, sys: Sys, t: Tid, pick: Hash, listed: set<Hash>)
    requires InGc(At(sys, t)) && sys.store.refs == snap.refs && Phase(f, snap, sys.store, At(sys, t))
    ensures var next := Continue(f, sys, t, pick, listed);
            && next.store.refs == snap.refs
            && KeepsLive(f, snap, next.store)
            && (InGc(At(next, t)) ==> Phase(f, snap, next.store, At(next, t)))
  {
    if At(sys, t).GcSweep? {
      SweepAdvances(f, snap, sys, t, pick, listed);
    } else {
      MarkingOnlyReads(f, sys, t, pick, listed);
      PhaseKeepsLive(f, snap, sys.store, At(sys, t));
      if At(sys, t).GcPop? {
        PopAdvances(f, snap, sys, t, pick, listed);
      } else if At(sys, t).GcLayers? {
        LayersAdvance(f, snap, sys, t, pick, listed);
      } else {
        ListingAdvances(f, snap, sys, t, pick, listed);
      }
    }
  }

  /** The holder's own steps keep what it has established, or end the collection. */
  lemma HolderAdvances(f: Foreign, snap: State, sys: Sys, t: Tid, act: Action)
    requires InGc(At(sys, t)) && sys.store.refs == snap.refs && Phase(f, snap, sys.store, At(sys, t))
    ensures var next := Step(f, sys, t, act);
            && next.store.refs == snap.refs
            && KeepsLive(f, snap, next.store)
            && (InGc(At(next, t)) ==> Phase(f, snap, next.store, At(next, t)))
  {
    if act.Advance? {
      HolderContinues(f, snap, sys, t, act.pick, act.listed);
    } else {
      PhaseKeepsLive(f, snap, sys.store, At(sys, t));
    }
  }

  /** Everything known while process t collects, relative to the store it locked. */
  ghost predicate Collecting(f: Foreign, snap: State, sys: Sys, t: Tid) {
    && LockSafe(sys) && ObjectsSound(f, sys.store)
    && sys.exclusive == Some(t)
    && sys.store.refs == snap.refs
    && Phase(f, snap, sys.store, At(sys, t))
  }

  lemma StepCollecting(f: Foreign, snap: State, sys: Sys, t: Tid, u: Tid, act: Action)
    requires CollisionFree(f) && Collecting(f, snap, sys, t)
    ensures var next := Step(f, sys, u, act);
            && next.store.refs == snap.refs
            && KeepsLive(f, snap, next.store)
            && (next.exclusive == Some(t) ==> Collecting(f, snap, next, t))
  {
    var next := Step(f, sys, u, act);
    StepKeepsLockSafe(f, sys, u, act);
    StepKeepsObjectsSound(f, sys, u, act);
    if u == t {
      HolderAdvances(f, snap, sys, t, act);
    } else {
      UnlockedOnlyAdds(f, sys, u, act);
      PhaseSurvivesOthers(f, snap, sys.store, next.store, At(sys, t));
    }
  }

  /** Process t holds the lock after every proper prefix of the schedule. */
  ghost predicate HeldThroughout(f: Foreign, sys: Sys, t: Tid, sched: Schedule) {
    forall i | 0 <= i < |sched| :: Run(f, sys, sched[..i]).exclusive == Some(t)
  }

  lemma {:induction false} HeldCollects(f: Foreign, snap: State, sys: Sys, t: Tid, sched: Schedule)
    requires CollisionFree(f) && Collecting(f, snap, sys, t)
    requires HeldThroughout(f, sys, t, sched)
    ensures var last := Run(f, sys, sched);
            && last.store.refs == snap.refs
            && KeepsLive(f, snap, last.store)
            && (last.exclusive == Some(t) ==> Collecting(f, snap, last, t))
  {
    if sched != [] {
      var front := sched[..|sched| - 1];
      forall i | 0 <= i < |front| ensures Run(f, sys, front[..i]).exclusive == Some(t) {
        assert front[..i] == sched[..i];
      }
      HeldCollects(f, snap, sys, t, front);
      assert Run(f, sys, front).exclusive == Some(t);
      StepCollecting(f, snap, Run(f, sys, front), t, sched[|sched| - 1].0, sched[|sched| - 1].1);
    }
  }

  /**
   * From the step that takes the lock up to and including the one that releases it, in any
   * interleaving with any number of other calls: the refs do not change, and every manifest,
   * index entry and blob reachable from them at the start is still there, unchanged.
   */
  lemma GcNeverTakesReachable(f: Foreign, sys: Sys, t: Tid, sched: Schedule)
    requires CollisionFree(f) && LockSafe(sys) && ObjectsSound(f, sys.store)
    requires (At(sys, t).Idle? || At(sys, t).BlobDone?) && sys.exclusive == None && sys.shared == {}
    requires HeldThroughout(f, Step(f, sys, t, StartGc), t, sched)
    ensures Run(f, Step(f, sys, t, StartGc), sched).store.refs == sys.store.refs
    ensures KeepsLive(f, sys.store, Run(f, Step(f, sys, t, StartGc), sched).store)
  {
    var locked := Step(f, sys, t, StartGc);
    StepKeepsLockSafe(f, sys, t, StartGc);
    assert Collecting(f, sys.store, locked, t);
    HeldCollects(f, sys.store, locked, t, sched);
  }
}
