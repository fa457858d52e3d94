/**
 * Any number of processes storing blobs, manifests and refs at once, without a collection:
 * they converge.
 */
module PutConvergence {
  import opened Wrappers
  import opened Magic
  import opened Types
  import opened StoreModel
  import opened StoreConcurrent
  import GcSafety
  import StoreProofs

  /** A stored blob that decompresses to content with this diff id. */
  ghost predicate Provides(f: Foreign, s: State, b: BlobId, d: DiffId) {
    b in s.objects && Holds(f, s.objects[b], d)
  }

  ghost predicate EntrySound(f: Foreign, sys: Sys, d: DiffId)
    requires d in sys.store.diffs
  {
    match sys.store.diffs[d]
    case Points(b) => Provides(f, sys.store, b, d)
    case Unparsed(w) => At(sys, w).DiffWrite? && At(sys, w).diffId == d
  }

  ghost predicate ProcSound(f: Foreign, sys: Sys, t: Tid) {
    match At(sys, t)
    case BlobCheck(bytes, d) => Holds(f, bytes, d)
    case BlobRename(bytes, d) => Holds(f, bytes, d)
    case DiffCheck(b, d) => Provides(f, sys.store, b, d)
    case DiffCreate(b, d) => Provides(f, sys.store, b, d)
    case DiffWrite(b, d) => Provides(f, sys.store, b, d) && d in sys.store.diffs && sys.store.diffs[d] == Unparsed(t)
    case BlobDone(b, d) => Provides(f, sys.store, b, d) && d in sys.store.diffs
    case p => !InGc(p)
  }

  ghost predicate Converging(f: Foreign, sys: Sys) {
    && (forall b | b in sys.store.objects :: f.hash(sys.store.objects[b]) == b)
    && (forall d | d in sys.store.diffs :: EntrySound(f, sys, d))
    && (forall t: Tid :: ProcSound(f, sys, t))
  }

  /** No collection starts and no process dies in the middle of a call. */
  predicate Quiet(act: Action) {
    !act.StartGc? && !Dies(act)
  }

  /** What one step does to the tables, seen from the other processes. */
  ghost predicate Grows(a: State, b: State, t: Tid) {
    && (forall x | x in a.objects :: x in b.objects && b.objects[x] == a.objects[x])
    && (forall d | d in a.diffs :: d in b.diffs && (b.diffs[d] == a.diffs[d] || a.diffs[d] == Unparsed(t)))
  }

  lemma RenameGrows(f: Foreign, s: State, bytes: Bytes, t: Tid)
    requires CollisionFree(f) && forall b | b in s.objects :: f.hash(s.objects[b]) == b
    ensures Grows(s, s.(objects := s.objects[f.hash(bytes) := bytes]), t)
  {
    if f.hash(bytes) in s.objects { NoCollision(f, s.objects[f.hash(bytes)], bytes); }
  }

  lemma ContinueGrows(f: Foreign, sys: Sys, t: Tid, pick: Hash, listed: set<Hash>)
    requires CollisionFree(f) && !InGc(At(sys, t))
    requires forall b | b in sys.store.objects :: f.hash(sys.store.objects[b]) == b
    ensures Grows(sys.store, Continue(f, sys, t, pick, listed).store, t)
  {
    ContinueObjects(f, sys, t, pick, listed);
    ContinueIndex(f, sys, t, pick, listed);
    var p := At(sys, t);
    if p.BlobRename? || p.ManifestRename? {
      RenameGrows(f, sys.store, p.bytes, t);
    }
  }

  lemma QuietStepGrows(f: Foreign, sys: Sys, t: Tid, act: Action)
    requires CollisionFree(f) && Converging(f, sys) && Quiet(act)
    ensures Grows(sys.store, Step(f, sys, t, act).store, t)
  {
    if act.Advance? {
      assert ProcSound(f, sys, t);
      ContinueGrows(f, sys, t, act.pick, act.listed);
    } else {
      CallsStartEmptyHanded(f, sys, t, act);
    }
  }

  lemma ContinueOwn(f: Foreign, sys: Sys, t: Tid, pick: Hash, listed: set<Hash>)
    requires CollisionFree(f) && ProcSound(f, sys, t)
    requires forall b | b in sys.store.objects :: f.hash(sys.store.objects[b]) == b
    ensures ProcSound(f, Continue(f, sys, t, pick, listed), t)
  {
    var p := At(sys, t);
    if p.BlobCheck? && f.hash(p.bytes) in sys.store.objects {
      NoCollision(f, sys.store.objects[f.hash(p.bytes)], p.bytes);
    }
  }

  lemma QuietStepOwn(f: Foreign, sys: Sys, t: Tid, act: Action)
    requires CollisionFree(f) && Converging(f, sys) && Quiet(act)
    ensures ProcSound(f, Step(f, sys, t, act), t)
    ensures forall b | b in Step(f, sys, t, act).store.objects :: f.hash(Step(f, sys, t, act).store.objects[b]) == b
  {
    assert ProcSound(f, sys, t);
    GcSafety.StepKeepsObjectsSound(f, sys, t, act);
    if act.Advance? {
      ContinueOwn(f, sys, t, act.pick, act.listed);
    } else {
      StartOwn(f, sys, t, act);
    }
  }

  lemma StartOwn(f: Foreign, sys: Sys, t: Tid, act: Action)
    requires ProcSound(f, sys, t) && !act.Advance? && Quiet(act)
    ensures ProcSound(f, Step(f, sys, t, act), t)
  {
    CallsStartEmptyHanded(f, sys, t, act);
  }

  /** A process that stands still stays sound while the tables grow. */
  lemma StandsSound(f: Foreign, a: Sys, b: Sys, t: Tid, u: Tid)
    requires ProcSound(f, a, u) && u != t && At(b, u) == At(a, u) && Grows(a.store, b.store, t)
    ensures ProcSound(f, b, u)
  {
  }

  lemma QuietStepOthers(f: Foreign, sys: Sys, t: Tid, act: Action, u: Tid)
    requires CollisionFree(f) && Converging(f, sys) && Quiet(act) && u != t
    ensures ProcSound(f, Step(f, sys, t, act), u)
  {
    QuietStepGrows(f, sys, t, act);
    OthersStandStill(f, sys, t, act, u);
    StandsSound(f, sys, Step(f, sys, t, act), t, u);
  }

  lemma OwnEntry(f: Foreign, sys: Sys, t: Tid, act: Action, d: DiffId)
    requires Converging(f, sys) && Quiet(act)
    requires d !in sys.store.diffs || sys.store.diffs[d] == Unparsed(t)
    requires d in Step(f, sys, t, act).store.diffs
    ensures EntrySound(f, Step(f, sys, t, act), d)
  {
    assert ProcSound(f, sys, t);
    assert d in sys.store.diffs ==> EntrySound(f, sys, d);
  }

  lemma QuietStepEntries(f: Foreign, sys: Sys, t: Tid, act: Action, d: DiffId)
    requires CollisionFree(f) && Converging(f, sys) && Quiet(act)
    requires d in Step(f, sys, t, act).store.diffs
    ensures EntrySound(f, Step(f, sys, t, act), d)
  {
    var next := Step(f, sys, t, act);
    QuietStepGrows(f, sys, t, act);
    if d in sys.store.diffs && sys.store.diffs[d] != Unparsed(t) {
      assert EntrySound(f, sys, d);
      if sys.store.diffs[d].Unparsed? {
        OthersStandStill(f, sys, t, act, sys.store.diffs[d].writer);
      }
    } else {
      OwnEntry(f, sys, t, act, d);
    }
  }

  lemma QuietStepConverging(f: Foreign, sys: Sys, t: Tid, act: Action)
    requires CollisionFree(f) && Converging(f, sys) && Quiet(act)
    ensures Converging(f, Step(f, sys, t, act))
  {
    var next := Step(f, sys, t, act);
    QuietStepOwn(f, sys, t, act);
    forall u: Tid ensures ProcSound(f, next, u) {
      if u != t {
        QuietStepOthers(f, sys, t, act, u);
      }
    }
    forall d | d in next.store.diffs ensures EntrySound(f, next, d) {
      QuietStepEntries(f, sys, t, act, d);
    }
  }

  lemma {:induction false} QuietRunConverging(f: Foreign, sys: Sys, sched: Schedule)
    requires CollisionFree(f) && Converging(f, sys)
    requires forall e | e in sched :: Quiet(e.1)
    ensures Converging(f, Run(f, sys, sched))
    ensures forall d | d in sys.store.diffs && sys.store.diffs[d].Points? ::
              d in Run(f, sys, sched).store.diffs && Run(f, sys, sched).store.diffs[d] == sys.store.diffs[d]
  {
    if sched != [] {
      var front, last := sched[..|sched| - 1], sched[|sched| - 1];
      assert forall e | e in front :: e in sched;
      QuietRunConverging(f, sys, front);
      assert last in sched;
      QuietStepConverging(f, Run(f, sys, front), last.0, last.1);
      QuietStepGrows(f, Run(f, sys, front), last.0, last.1);
    }
  }

  /** Where PutsConverge may start: any store that sequential runs produce, with nobody busy. */
  lemma SoundStoresConverge(f: Foreign, s: State)
    requires StoreProofs.Sound(f, s)
    ensures Converging(f, Sys(s, {}, None, map[]))
  {
    var sys := Sys(s, {}, None, map[]);
    forall d | d in s.diffs ensures EntrySound(f, sys, d) {
      assert StoreProofs.DiffSound(f, s, d);
    }
  }

  ghost predicate Returned(sys: Sys) {
    forall t: Tid :: At(sys, t).Idle? || At(sys, t).BlobDone?
  }

  /** What a prefix of the schedule has stored or indexed is still there at the end. */
  lemma {:induction false} PrefixStays(f: Foreign, sys: Sys, sched: Schedule, n: nat)
    requires CollisionFree(f) && Converging(f, sys) && n <= |sched|
    requires forall e | e in sched :: Quiet(e.1)
    ensures var before, last := Run(f, sys, sched[..n]).store, Run(f, sys, sched).store;
            && before.objects.Items <= last.objects.Items
            && before.diffs.Keys <= last.diffs.Keys
  {
    if n == |sched| {
      assert sched[..n] == sched;
    } else {
      var front, last := sched[..|sched| - 1], sched[|sched| - 1];
      assert front[..n] == sched[..n] && forall e | e in front :: e in sched;
      PrefixStays(f, sys, front, n);
      QuietRunConverging(f, sys, front);
      assert last in sched;
      QuietStepGrows(f, Run(f, sys, front), last.0, last.1);
    }
  }

  /** What put_blob hands out: both ids lead to content with that diff id. */
  ghost predicate Honoured(f: Foreign, s: State, b: BlobId, d: DiffId) {
    && Provides(f, s, b, d)
    && d in s.diffs && s.diffs[d].Points? && Provides(f, s, s.diffs[d].target, d)
  }

  /**
   * From a store without errors, whatever the interleaving: an index entry once written never
   * changes, and when all calls have returned, every pair of ids that any call handed out on
   * the way is honoured, even if another encoding of the same tar won the index entry.
   */
  lemma PutsConverge(f: Foreign, sys: Sys, sched: Schedule)
    requires CollisionFree(f) && Converging(f, sys)
    requires forall e | e in sched :: Quiet(e.1)
    requires Returned(Run(f, sys, sched))
    ensures var last := Run(f, sys, sched);
            && (forall d | d in sys.store.diffs && sys.store.diffs[d].Points? ::
                  d in last.store.diffs && last.store.diffs[d] == sys.store.diffs[d])
            && (forall d | d in last.store.diffs ::
                  last.store.diffs[d].Points? && Provides(f, last.store, last.store.diffs[d].target, d))
            && (forall n, t: Tid | 0 <= n <= |sched| && At(Run(f, sys, sched[..n]), t).BlobDone? ::
                  Honoured(f, last.store, At(Run(f, sys, sched[..n]), t).blobId, At(Run(f, sys, sched[..n]), t).diffId))
  {
    QuietRunConverging(f, sys, sched);
    var last := Run(f, sys, sched);
    forall d | d in last.store.diffs
      ensures last.store.diffs[d].Points? && Provides(f, last.store, last.store.diffs[d].target, d)
    {
      assert EntrySound(f, last, d);
    }
    forall n, t: Tid | 0 <= n <= |sched| && At(Run(f, sys, sched[..n]), t).BlobDone?
      ensures Honoured(f, last.store, At(Run(f, sys, sched[..n]), t).blobId, At(Run(f, sys, sched[..n]), t).diffId)
    {
      HandedOutStays(f, sys, sched, n, t);
    }
  }

  lemma HandedOutStays(f: Foreign, sys: Sys, sched: Schedule, n: nat, t: Tid)
    requires CollisionFree(f) && Converging(f, sys) && n <= |sched|
    requires forall e | e in sched :: Quiet(e.1)
    requires At(Run(f, sys, sched[..n]), t).BlobDone?
    ensures var p, last := At(Run(f, sys, sched[..n]), t), Run(f, sys, sched).store;
            Provides(f, last, p.blobId, p.diffId) && p.diffId in last.diffs
  {
    var before := Run(f, sys, sched[..n]);
    forall e | e in sched[..n] ensures Quiet(e.1) {
      assert e in sched;
    }
    QuietRunConverging(f, sys, sched[..n]);
    assert ProcSound(f, before, t);
    PrefixStays(f, sys, sched, n);
    var b := At(before, t).blobId;
    assert (b, before.store.objects[b]) in before.store.objects.Items;
  }
}
