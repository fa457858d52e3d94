/**
 * Puts and collections in one schedule. Index entries keep resolving as long as no put relies
 * on its blob while a collection runs and no collector dies. And what a dying process leaves.
 */
module PutsAndGc {
  import opened Wrappers
  import opened Types
  import opened StoreModel
  import opened StoreConcurrent
  import opened PutConvergence
  import GcSafety
  import StoreProofs

  // ---- the two conditions ----

  /** put_blob has found or stored its blob and not yet written its index entry. */
  predicate ReliesOnBlob(p: Proc) {
    p.DiffCheck? || p.DiffCreate? || p.DiffWrite?
  }

  /** While a collection holds the lock, no process stands at that point. */
  ghost predicate Apart(sys: Sys) {
    sys.exclusive.Some? ==> forall t: Tid :: !ReliesOnBlob(At(sys, t))
  }

  /** A collector does not die. */
  predicate Careful(sys: Sys, t: Tid, act: Action) {
    Dies(act) ==> !InGc(At(sys, t))
  }

  ghost predicate GuardedAt(f: Foreign, sys: Sys, sched: Schedule, i: nat)
    requires i <= |sched|
  {
    && Apart(Run(f, sys, sched[..i]))
    && (i < |sched| ==> Careful(Run(f, sys, sched[..i]), sched[i].0, sched[i].1))
  }

  ghost predicate Guarded(f: Foreign, sys: Sys, sched: Schedule) {
    forall i | 0 <= i <= |sched| :: GuardedAt(f, sys, sched, i)
  }

  // ---- what they keep ----

  /** The entries a sweep under way has still to delete. */
  function Doomed(sys: Sys): set<DiffId> {
    if sys.exclusive.Some? && At(sys, sys.exclusive.value).GcSweep? then At(sys, sys.exclusive.value).deadDiffs else {}
  }

  ghost predicate Resolves(f: Foreign, s: State, d: DiffId)
    requires d in s.diffs
  {
    s.diffs[d].Points? ==> Provides(f, s, s.diffs[d].target, d)
  }

  ghost predicate PutFine(f: Foreign, s: State, p: Proc) {
    match p
    case BlobCheck(bytes, d) => Holds(f, bytes, d)
    case BlobRename(bytes, d) => Holds(f, bytes, d)
    case DiffCheck(b, d) => Provides(f, s, b, d)
    case DiffCreate(b, d) => Provides(f, s, b, d)
    case DiffWrite(b, d) => Provides(f, s, b, d)
    case _ => true
  }

  /** No entry the collector has marked or will leave points to a blob it will delete. */
  ghost predicate GcFine(s: State, p: Proc) {
    match p
    case GcPop(_, _, blobs, marked) => TargetsOf(s.diffs, marked) <= blobs
    case GcLayers(_, _, blobs, marked, _, _) => TargetsOf(s.diffs, marked) <= blobs
    case GcListObjects(blobs, marked, _) => TargetsOf(s.diffs, marked) <= blobs
    case GcListDiffs(dead, marked, present) => TargetsOf(s.diffs, marked) !! dead && s.diffs.Keys <= present
    case GcSweep(deadBlobs, deadDiffs) => TargetsOf(s.diffs, s.diffs.Keys - deadDiffs) !! deadBlobs
    case _ => true
  }

  ghost predicate EntriesFine(f: Foreign, sys: Sys) {
    forall d | d in sys.store.diffs && d !in Doomed(sys) :: Resolves(f, sys.store, d)
  }

  ghost predicate Resolving(f: Foreign, sys: Sys) {
    && LockSafe(sys) && GcSafety.ObjectsSound(f, sys.store)
    && EntriesFine(f, sys)
    && (forall t: Tid :: PutFine(f, sys.store, At(sys, t)) && GcFine(sys.store, At(sys, t)))
  }

  // ---- steps of the collector ----

  lemma GcStepFine(f: Foreign, sys: Sys, t: Tid, pick: Hash, listed: set<Hash>)
    requires InGc(At(sys, t)) && GcFine(sys.store, At(sys, t)) && Careful(sys, t, Advance(pick, listed))
    ensures var next := Continue(f, sys, t, pick, listed); GcFine(next.store, At(next, t))
  {
    var p, next := At(sys, t), Continue(f, sys, t, pick, listed);
    match p
    case GcLayers(_, _, blobs, marked, todo, _) =>
      if todo != [] {
        assert TargetsOf(sys.store.diffs, marked + {todo[0]})
            == TargetsOf(sys.store.diffs, marked) + TargetsOf(sys.store.diffs, {todo[0]});
      }
    case GcListDiffs(_, marked, present) =>
      assert sys.store.diffs.Keys - ((present + listed) * sys.store.diffs.Keys - marked) <= marked;
    case _ =>
  }

  lemma SweepLeavesFine(f: Foreign, sys: Sys, t: Tid, pick: Hash, listed: set<Hash>)
    requires sys.exclusive == Some(t) && At(sys, t).GcSweep? && GcFine(sys.store, At(sys, t)) && EntriesFine(f, sys)
    ensures EntriesFine(f, Continue(f, sys, t, pick, listed))
  {
    var next := Continue(f, sys, t, pick, listed);
    forall d | d in next.store.diffs && d !in Doomed(next) ensures Resolves(f, next.store, d) {
      assert Resolves(f, sys.store, d);
      if next.store.diffs[d].Points? {
        assert next.store.diffs[d].target in TargetsOf(sys.store.diffs, sys.store.diffs.Keys - At(sys, t).deadDiffs);
      }
    }
  }

  lemma GcStepEntries(f: Foreign, sys: Sys, t: Tid, pick: Hash, listed: set<Hash>)
    requires sys.exclusive == Some(t) && InGc(At(sys, t)) && GcFine(sys.store, At(sys, t)) && EntriesFine(f, sys)
    ensures EntriesFine(f, Continue(f, sys, t, pick, listed))
  {
    if At(sys, t).GcSweep? {
      SweepLeavesFine(f, sys, t, pick, listed);
    } else {
      GcSafety.MarkingOnlyReads(f, sys, t, pick, listed);
      assert Doomed(sys) == {};
    }
  }

  // ---- steps of everyone else ----

  /** b has everything of a and points every entry where a did, or to content with its diff id. */
  ghost predicate Adds(f: Foreign, a: State, b: State) {
    && (forall x | x in a.objects :: x in b.objects && b.objects[x] == a.objects[x])
    && (forall d | d in b.diffs && b.diffs[d].Points? ::
          (d in a.diffs && b.diffs[d] == a.diffs[d]) || Provides(f, b, b.diffs[d].target, d))
  }

  lemma PutStepAdds(f: Foreign, sys: Sys, t: Tid, pick: Hash, listed: set<Hash>)
    requires CollisionFree(f) && GcSafety.ObjectsSound(f, sys.store) && !InGc(At(sys, t))
    requires PutFine(f, sys.store, At(sys, t))
    ensures Adds(f, sys.store, Continue(f, sys, t, pick, listed).store)
  {
    ContinueObjects(f, sys, t, pick, listed);
    ContinueIndex(f, sys, t, pick, listed);
    var p := At(sys, t);
    if p.BlobRename? || p.ManifestRename? {
      GcSafety.RenameKeeps(f, sys.store, p.bytes);
    }
  }

  lemma StepAdds(f: Foreign, sys: Sys, t: Tid, act: Action)
    requires CollisionFree(f) && GcSafety.ObjectsSound(f, sys.store) && !InGc(At(sys, t))
    requires PutFine(f, sys.store, At(sys, t))
    ensures Adds(f, sys.store, Step(f, sys, t, act).store)
  {
    if act.Advance? {
      PutStepAdds(f, sys, t, act.pick, act.listed);
    }
  }

  lemma PutStepFine(f: Foreign, sys: Sys, t: Tid, act: Action)
    requires CollisionFree(f) && GcSafety.ObjectsSound(f, sys.store) && !InGc(At(sys, t))
    requires PutFine(f, sys.store, At(sys, t))
    ensures PutFine(f, Step(f, sys, t, act).store, At(Step(f, sys, t, act), t))
  {
    var p := At(sys, t);
    if act.Advance? && p.BlobCheck? && f.hash(p.bytes) in sys.store.objects {
      NoCollision(f, sys.store.objects[f.hash(p.bytes)], p.bytes);
    }
  }

  lemma AddsKeepsPut(f: Foreign, a: State, b: State, p: Proc)
    requires Adds(f, a, b) && PutFine(f, a, p)
    ensures PutFine(f, b, p)
  {
  }

  lemma AddsKeepsEntries(f: Foreign, a: Sys, b: Sys)
    requires Adds(f, a.store, b.store) && EntriesFine(f, a) && Doomed(a) <= Doomed(b)
    ensures EntriesFine(f, b)
  {
    forall d | d in b.store.diffs && d !in Doomed(b) ensures Resolves(f, b.store, d) {
      if d in a.store.diffs { assert Resolves(f, a.store, d); }
    }
  }

  /** Without a blob to rely on, a process leaves the index alone. */
  lemma IndexStandsStill(f: Foreign, sys: Sys, t: Tid, act: Action)
    requires !InGc(At(sys, t)) && !ReliesOnBlob(At(sys, t))
    ensures Step(f, sys, t, act).store.diffs == sys.store.diffs
  {
  }

  // ---- all steps ----

  lemma CollectorStep(f: Foreign, sys: Sys, t: Tid, act: Action)
    requires CollisionFree(f) && Resolving(f, sys) && InGc(At(sys, t))
    requires Careful(sys, t, act) && Apart(sys)
    ensures Resolving(f, Step(f, sys, t, act))
  {
    var next := Step(f, sys, t, act);
    StepKeepsLockSafe(f, sys, t, act);
    GcSafety.StepKeepsObjectsSound(f, sys, t, act);
    if act.Advance? {
      GcStepEntries(f, sys, t, act.pick, act.listed);
      GcStepFine(f, sys, t, act.pick, act.listed);
    }
    forall u: Tid ensures PutFine(f, next.store, At(next, u)) && GcFine(next.store, At(next, u)) {
      assert !ReliesOnBlob(At(sys, u));
      if u != t {
        assert At(next, u) == At(sys, u) && !InGc(At(sys, u));
      }
    }
  }

  lemma OtherStep(f: Foreign, sys: Sys, t: Tid, act: Action)
    requires CollisionFree(f) && Resolving(f, sys) && !InGc(At(sys, t))
    requires Apart(sys) && Apart(Step(f, sys, t, act))
    ensures Resolving(f, Step(f, sys, t, act))
  {
    var next := Step(f, sys, t, act);
    StepKeepsLockSafe(f, sys, t, act);
    GcSafety.StepKeepsObjectsSound(f, sys, t, act);
    StepAdds(f, sys, t, act);
    PutStepFine(f, sys, t, act);
    DoomedStays(f, sys, t, act);
    AddsKeepsEntries(f, sys, next);
    forall u: Tid ensures PutFine(f, next.store, At(next, u)) && GcFine(next.store, At(next, u)) {
      if u != t {
        AddsKeepsPut(f, sys.store, next.store, At(sys, u));
        if InGc(At(sys, u)) {
          IndexStandsStill(f, sys, t, act);
        }
      } else {
        NotYetMarking(f, sys, t, act);
      }
    }
  }

  lemma DoomedStays(f: Foreign, sys: Sys, t: Tid, act: Action)
    requires LockSafe(sys) && !InGc(At(sys, t))
    ensures Doomed(Step(f, sys, t, act)) == Doomed(sys)
  {
    StepKeepsLockSafe(f, sys, t, act);
  }

  lemma NotYetMarking(f: Foreign, sys: Sys, t: Tid, act: Action)
    requires !InGc(At(sys, t))
    ensures InGc(At(Step(f, sys, t, act), t)) ==> At(Step(f, sys, t, act), t).GcList?
  {
  }

  lemma {:induction false} GuardedRunResolving(f: Foreign, sys: Sys, sched: Schedule)
    requires CollisionFree(f) && Resolving(f, sys) && Guarded(f, sys, sched)
    ensures Resolving(f, Run(f, sys, sched))
  {
    if sched != [] {
      var front, last := sched[..|sched| - 1], sched[|sched| - 1];
      GuardedFront(f, sys, sched);
      GuardedRunResolving(f, sys, front);
      assert sched[..|sched|] == sched;
      if InGc(At(Run(f, sys, front), last.0)) {
        CollectorStep(f, Run(f, sys, front), last.0, last.1);
      } else {
        OtherStep(f, Run(f, sys, front), last.0, last.1);
      }
    }
  }

  lemma GuardedFront(f: Foreign, sys: Sys, sched: Schedule)
    requires Guarded(f, sys, sched) && sched != []
    ensures Guarded(f, sys, sched[..|sched| - 1])
    ensures var front := Run(f, sys, sched[..|sched| - 1]);
            Apart(front) && Careful(front, sched[|sched| - 1].0, sched[|sched| - 1].1)
    ensures Apart(Run(f, sys, sched))
  {
    var front := sched[..|sched| - 1];
    forall i | 0 <= i <= |front| ensures GuardedAt(f, sys, front, i) {
      GuardedPrefix(f, sys, sched, i);
    }
    assert GuardedAt(f, sys, sched, |front|) && GuardedAt(f, sys, sched, |sched|);
    assert sched[..|sched|] == sched;
  }

  lemma GuardedPrefix(f: Foreign, sys: Sys, sched: Schedule, i: nat)
    requires i < |sched| && GuardedAt(f, sys, sched, i)
    ensures GuardedAt(f, sys, sched[..|sched| - 1], i)
  {
    assert sched[..|sched| - 1][..i] == sched[..i];
  }

  lemma SoundStoresResolve(f: Foreign, s: State)
    requires StoreProofs.Sound(f, s)
    ensures Resolving(f, Sys(s, {}, None, map[]))
  {
    forall d | d in s.diffs ensures Resolves(f, s, d) {
      assert StoreProofs.DiffSound(f, s, d);
    }
  }

  /**
   * From a store without errors, over any schedule of any calls, collections and crashes that
   * meets the two conditions: whenever no collection is running, every index entry that has
   * been written leads to a stored blob whose content has that diff id.
   */
  lemma EntriesResolve(f: Foreign, s: State, sched: Schedule)
    requires CollisionFree(f) && StoreProofs.Sound(f, s)
    requires Guarded(f, Sys(s, {}, None, map[]), sched)
    ensures var last := Run(f, Sys(s, {}, None, map[]), sched);
            last.exclusive == None ==> forall d | d in last.store.diffs :: Resolves(f, last.store, d)
  {
    SoundStoresResolve(f, s);
    GuardedRunResolving(f, Sys(s, {}, None, map[]), sched);
  }

  ghost predicate Stranded(f: Foreign, sys: Sys, d: DiffId) {
    sys.exclusive == None && d in sys.store.diffs && !Resolves(f, sys.store, d)
  }

  // ---- an entry torn by a crash ----

  /** The index file exists, nobody will fill it, and no collection runs. */
  ghost predicate Torn(sys: Sys, d: DiffId) {
    && d in sys.store.diffs && sys.store.diffs[d].Unparsed?
    && (forall t: Tid :: !(At(sys, t).DiffWrite? && At(sys, t).diffId == d) && !InGc(At(sys, t)))
  }

  /** A process that dies between creating an index file and writing it leaves the file torn. */
  lemma CrashTears(f: Foreign, sys: Sys, t: Tid, go: Action)
    requires At(sys, t).DiffCreate? && At(sys, t).diffId !in sys.store.diffs && go.Advance?
    requires forall u: Tid | u != t ::
        !(At(sys, u).DiffWrite? && At(sys, u).diffId == At(sys, t).diffId) && !InGc(At(sys, u))
    ensures Torn(Run(f, sys, [(t, go), (t, Crash)]), At(sys, t).diffId)
  {
    var d, created := At(sys, t).diffId, Step(f, sys, t, go);
    RunTwo(f, sys, t, go, Crash);
    forall u: Tid ensures var p := At(Step(f, created, t, Crash), u); !(p.DiffWrite? && p.diffId == d) && !InGc(p) {
      if u != t {
        OthersStandStill(f, sys, t, go, u);
        OthersStandStill(f, created, t, Crash, u);
      }
    }
  }

  lemma StepKeepsTorn(f: Foreign, sys: Sys, t: Tid, act: Action, d: DiffId)
    requires Torn(sys, d) && act != StartGc
    ensures Torn(Step(f, sys, t, act), d)
  {
    var next := Step(f, sys, t, act);
    forall u: Tid ensures !(At(next, u).DiffWrite? && At(next, u).diffId == d) && !InGc(At(next, u)) {
      if u != t { OthersStandStill(f, sys, t, act, u); }
    }
  }

  /**
   * No later call but a collection mends a torn entry: put_blob of the same tar finds the file
   * there, returns its ids, and the diff id still does not resolve.
   */
  lemma {:induction false} TornStaysTorn(f: Foreign, sys: Sys, sched: Schedule, d: DiffId)
    requires Torn(sys, d) && forall e | e in sched :: e.1 != StartGc
    ensures Torn(Run(f, sys, sched), d)
  {
    if sched != [] {
      var front, last := sched[..|sched| - 1], sched[|sched| - 1];
      assert forall e | e in front :: e in sched;
      TornStaysTorn(f, sys, front, d);
      assert last in sched;
      StepKeepsTorn(f, Run(f, sys, front), last.0, last.1, d);
    }
  }

  /** Among sequential operations only a collection takes a torn entry away, and only a dead one. */
  lemma OnlyGcMends(f: Foreign, s: State, op: StoreProofs.Op, d: DiffId)
    requires d in s.diffs && s.diffs[d].Unparsed?
    ensures var t := StoreProofs.Step(f, s, op);
            if op.DoGc? && d !in LiveDiffs(f, s) then d !in t.diffs else d in t.diffs && t.diffs[d] == s.diffs[d]
  {
  }
}
