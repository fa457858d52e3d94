/**
 * Many processes on one store. Each call is cut where another process can get in between:
 * a test for a file and the rename that follows it, the creation of an index file and the
 * write that fills it, taking the gc lock, one round of marking, one deletion. Puts take no
 * lock, ref writes hold the lock shared, gc holds it exclusively.
 */
module StoreConcurrent {
  import opened Wrappers
  import opened Magic
  import opened Types
  import opened StoreModel

  type Tid = nat

  /** Where a process stands inside the call it is making. */
  datatype Proc =
    | Idle
    | BlobCheck(bytes: Bytes, diffId: DiffId)
    | BlobRename(bytes: Bytes, diffId: DiffId)
    | DiffCheck(blobId: BlobId, diffId: DiffId)
    | DiffCreate(blobId: BlobId, diffId: DiffId)
    | DiffWrite(blobId: BlobId, diffId: DiffId)
    | BlobDone(blobId: BlobId, diffId: DiffId)
    | ManifestCheck(bytes: Bytes)
    | ManifestRename(bytes: Bytes)
    | ManifestIndex(hash: ManifestHash)
    | RefWait(key: RefKey, hash: ManifestHash)
    | RefWrite(key: RefKey, hash: ManifestHash)
    | UnrefWait(key: RefKey)
    | UnrefRemove(key: RefKey)
    | RefUnlock
    | GcList
    | GcPop(queue: set<ManifestHash>, visited: set<ManifestHash>, blobs: set<BlobId>, diffs: set<DiffId>)
    | GcLayers(queue: set<ManifestHash>, visited: set<ManifestHash>, blobs: set<BlobId>, diffs: set<DiffId>,
               todo: seq<DiffId>, deps: set<ManifestHash>)
    | GcListObjects(blobs: set<BlobId>, diffs: set<DiffId>, present: set<BlobId>)
    | GcListDiffs(deadBlobs: set<BlobId>, diffs: set<DiffId>, present: set<DiffId>)
    | GcSweep(deadBlobs: set<BlobId>, deadDiffs: set<DiffId>)

  datatype Sys = Sys(store: State, shared: set<Tid>, exclusive: Option<Tid>, procs: map<Tid, Proc>)

  /**
   * What the scheduler lets a process do next. `pick` settles which queued manifest or which
   * file comes next, `listed` which files a directory listing shows of those that appeared
   * while it ran; those that were there from its start (`present`) it always shows.
   */
  datatype Action =
    | StartPutBlob(bytes: Bytes)
    | StartPutManifest(bytes: Bytes)
    | StartPutRef(key: RefKey, hash: ManifestHash)
    | StartRemoveRef(key: RefKey)
    | StartGc
    | Advance(pick: Hash, listed: set<Hash>)
    | Crash
    | CrashLeaving(temp: string)

  predicate Dies(act: Action) {
    act.Crash? || act.CrashLeaving?
  }

  function At(sys: Sys, t: Tid): Proc {
    if t in sys.procs then sys.procs[t] else Idle
  }

  function Goto(sys: Sys, t: Tid, p: Proc): Sys {
    sys.(procs := sys.procs[t := p])
  }

  predicate InGc(p: Proc) {
    p.GcList? || p.GcPop? || p.GcLayers? || p.GcListObjects? || p.GcListDiffs? || p.GcSweep?
  }

  predicate HoldsShared(p: Proc) {
    p.RefWrite? || p.UnrefRemove? || p.RefUnlock?
  }

  function Start(f: Foreign, sys: Sys, t: Tid, act: Action): Sys
    requires !act.Advance? && !Dies(act)
  {
    match act
    case StartPutBlob(bytes) =>
      (match DiffIdOf(f, bytes)
       case None => Goto(sys, t, Idle)
       case Some(d) => Goto(sys, t, BlobCheck(bytes, d)))
    case StartPutManifest(bytes) => if f.utf8(bytes) then Goto(sys, t, ManifestCheck(bytes)) else Goto(sys, t, Idle)
    case StartPutRef(key, hash) =>
      // The conflict check reads the ref, and the directories are made, before any lock is taken.
      if RefKeyError(key).Some? || ReadRef(sys.store, key).Some? || RefBlocked(sys.store, key) then Goto(sys, t, Idle)
      else Goto(sys, t, RefWait(key, hash)).(store := WithRefDirs(sys.store, key))
    case StartRemoveRef(key) => if RefKeyError(key).Some? then Goto(sys, t, Idle) else Goto(sys, t, UnrefWait(key))
    case StartGc =>
      if sys.exclusive == None && sys.shared == {} then Goto(sys, t, GcList).(exclusive := Some(t))
      else Goto(sys, t, Idle)
  }

  function Marked(sys: Sys, t: Tid, p: Proc): Sys
    requires p.GcLayers? && p.todo != []
  {
    var d := p.todo[0];
    Goto(sys, t, p.(todo := p.todo[1..], diffs := p.diffs + {d}, blobs := p.blobs + TargetsOf(sys.store.diffs, {d})))
  }

  function Continue(f: Foreign, sys: Sys, t: Tid, pick: Hash, listed: set<Hash>): Sys {
    var s := sys.store;
    match At(sys, t)
    case Idle => sys
    case BlobDone(_, _) => sys
    case BlobCheck(bytes, d) =>
      Goto(sys, t, if f.hash(bytes) in s.objects then DiffCheck(f.hash(bytes), d) else BlobRename(bytes, d))
    case BlobRename(bytes, d) =>
      Goto(sys, t, DiffCheck(f.hash(bytes), d)).(store := s.(objects := s.objects[f.hash(bytes) := bytes]))
    case DiffCheck(b, d) => Goto(sys, t, if d in s.diffs then BlobDone(b, d) else DiffCreate(b, d))
    case DiffCreate(b, d) =>
      if d in s.diffs then Goto(sys, t, BlobDone(b, d))
      else Goto(sys, t, DiffWrite(b, d)).(store := s.(diffs := s.diffs[d := Unparsed(t)]))
    case DiffWrite(b, d) =>
      // The write lands only in the file this process created.
      if d in s.diffs && s.diffs[d] == Unparsed(t)
      then Goto(sys, t, BlobDone(b, d)).(store := s.(diffs := s.diffs[d := Points(b)]))
      else Goto(sys, t, BlobDone(b, d))
    case ManifestCheck(bytes) =>
      Goto(sys, t, if f.hash(bytes) in s.objects then ManifestIndex(f.hash(bytes)) else ManifestRename(bytes))
    case ManifestRename(bytes) =>
      Goto(sys, t, ManifestIndex(f.hash(bytes))).(store := s.(objects := s.objects[f.hash(bytes) := bytes]))
    case ManifestIndex(m) => Goto(sys, t, Idle).(store := s.(index := s.index + {m}))
    case RefWait(key, h) =>
      if sys.exclusive.Some? then sys else Goto(sys, t, RefWrite(key, h)).(shared := sys.shared + {t})
    case RefWrite(key, h) => Goto(sys, t, RefUnlock).(store := WriteRef(s, key, h))
    case UnrefWait(key) =>
      if sys.exclusive.Some? then sys else Goto(sys, t, UnrefRemove(key)).(shared := sys.shared + {t})
    case UnrefRemove(key) => Goto(sys, t, RefUnlock).(store := DropRef(s, key))
    case RefUnlock => Goto(sys, t, Idle).(shared := sys.shared - {t})
    case GcList => Goto(sys, t, GcPop(RefTargets(s.refs), {}, {}, {}))
    case GcPop(queue, visited, blobs, diffs) =>
      if queue == {} then Goto(sys, t, GcListObjects(blobs, diffs, s.objects.Keys))
      else if pick !in queue then sys
      else if pick in visited then Goto(sys, t, GcPop(queue - {pick}, visited, blobs, diffs))
      else
        Goto(sys, t, GcLayers(queue - {pick}, visited + {pick}, blobs + {pick}, diffs,
                              LayersOf(f, s.objects, pick), set d | d in PinnedDeps(f, s.objects, pick)))
    case GcLayers(queue, visited, blobs, diffs, todo, deps) =>
      if todo == [] then Goto(sys, t, GcPop(queue + deps, visited, blobs, diffs))
      else Marked(sys, t, At(sys, t))
    case GcListObjects(blobs, diffs, present) =>
      Goto(sys, t, GcListDiffs((present + listed) * s.objects.Keys - blobs, diffs, s.diffs.Keys))
    case GcListDiffs(dead, diffs, present) => Goto(sys, t, GcSweep(dead, (present + listed) * s.diffs.Keys - diffs))
    case GcSweep(deadBlobs, deadDiffs) =>
      if pick in deadBlobs then
        Goto(sys, t, GcSweep(deadBlobs - {pick}, deadDiffs)).(store := s.(objects := s.objects - {pick}))
      else if deadBlobs != {} then sys
      else if pick in deadDiffs then
        Goto(sys, t, GcSweep({}, deadDiffs - {pick})).(store := s.(diffs := s.diffs - {pick}))
      else if deadDiffs != {} then sys
      else Goto(sys, t, Idle).(exclusive := None)
  }

  /** A process dies where it stands; the operating system drops its locks. */
  function Die(sys: Sys, t: Tid): Sys {
    Goto(sys, t, Idle).(
      shared := sys.shared - {t}, exclusive := if sys.exclusive == Some(t) then None else sys.exclusive)
  }

  /**
   * A ref is written to a temporary file in the directory it goes to and renamed from there.
   * Until then only the process knows the file; a process that dies in between leaves it.
   */
  function LeaveTemp(s: State, key: RefKey, hash: ManifestHash, temp: string): State {
    if PathOf(key) == [] || !TempName(temp) then s
    else if PlainKey(key) then
      if TempKey(key, temp) in s.refs then s else s.(refs := s.refs[TempKey(key, temp) := Points(hash)])
    else
      var path := PathOf(key)[..|PathOf(key)| - 1] + [temp];
      if path in s.beside.files || path in s.beside.dirs then s
      else s.(beside := s.beside.(files := s.beside.files[path := Points(hash)]))
  }

  /** Six random letters or digits behind a fixed prefix; a name that is taken is not used. */
  predicate TempName(temp: string) {
    && |temp| == 10 && temp[..4] == ".tmp"
    && forall c | c in temp[4..] :: 'a' <= c <= 'z' || 'A' <= c <= 'Z' || '0' <= c <= '9'
  }

  function TempKey(key: RefKey, temp: string): RefKey {
    RefKey(key.namespace, key.name, temp)
  }

  function Abandon(sys: Sys, t: Tid, temp: string): Sys {
    match At(sys, t)
    case RefWrite(key, h) => sys.(store := LeaveTemp(sys.store, key, h, temp))
    case _ => sys
  }

  /** One step of process t; a call can start only when the previous one has returned. */
  function Step(f: Foreign, sys: Sys, t: Tid, act: Action): Sys {
    match act
    case Advance(pick, listed) => Continue(f, sys, t, pick, listed)
    case Crash => Die(sys, t)
    case CrashLeaving(temp) => Die(Abandon(sys, t, temp), t)
    case _ => if At(sys, t).Idle? || At(sys, t).BlobDone? then Start(f, sys, t, act) else sys
  }

  type Schedule = seq<(Tid, Action)>

  function Run(f: Foreign, sys: Sys, sched: Schedule): Sys {
    if sched == [] then sys
    else
      var last := sched[|sched| - 1];
      Step(f, Run(f, sys, sched[..|sched| - 1]), last.0, last.1)
  }

  lemma {:induction false} RunAppend(f: Foreign, sys: Sys, a: Schedule, b: Schedule)
    ensures Run(f, sys, a + b) == Run(f, Run(f, sys, a), b)
  {
    if b == [] {
      assert a + b == a;
    } else {
      assert (a + b)[..|a + b| - 1] == a + b[..|b| - 1];
      RunAppend(f, sys, a, b[..|b| - 1]);
    }
  }

  lemma RunThreeParts(f: Foreign, sys: Sys, a: Schedule, b: Schedule, c: Schedule)
    ensures Run(f, sys, a + b + c) == Run(f, Run(f, Run(f, sys, a), b), c)
  {
    RunAppend(f, sys, a + b, c);
    RunAppend(f, sys, a, b);
  }

  lemma RunOne(f: Foreign, sys: Sys, t: Tid, a: Action)
    ensures Run(f, sys, [(t, a)]) == Step(f, sys, t, a)
  {
    var sched: Schedule := [(t, a)];
    assert sched[..0] == [];
  }

  lemma RunTwo(f: Foreign, sys: Sys, t: Tid, a: Action, b: Action)
    ensures Run(f, sys, [(t, a), (t, b)]) == Step(f, Step(f, sys, t, a), t, b)
  {
    var sched := [(t, a), (t, b)];
    RunOne(f, sys, t, a);
    assert sched[..1] == [(t, a)];
  }

  lemma OthersStandStill(f: Foreign, sys: Sys, t: Tid, act: Action, u: Tid)
    requires u != t
    ensures At(Step(f, sys, t, act), u) == At(sys, u)
  {
  }

  /** Starting a call, or dying, stores and indexes nothing. */
  lemma CallsStartEmptyHanded(f: Foreign, sys: Sys, t: Tid, act: Action)
    requires !act.Advance?
    ensures var next := Step(f, sys, t, act).store; next.objects == sys.store.objects && next.diffs == sys.store.diffs
  {
  }

  lemma ContinueObjects(f: Foreign, sys: Sys, t: Tid, pick: Hash, listed: set<Hash>)
    requires !InGc(At(sys, t))
    ensures var p, s, next := At(sys, t), sys.store, Continue(f, sys, t, pick, listed).store;
            next.objects == if p.BlobRename? || p.ManifestRename?
                then s.objects[f.hash(p.bytes) := p.bytes] else s.objects
  {
  }

  /** Outside a collection only two steps touch the index: creating a file and writing it. */
  lemma ContinueIndex(f: Foreign, sys: Sys, t: Tid, pick: Hash, listed: set<Hash>)
    requires !InGc(At(sys, t))
    ensures var p, s, next := At(sys, t), sys.store, Continue(f, sys, t, pick, listed).store;
            next.diffs == if p.DiffCreate? && p.diffId !in s.diffs then s.diffs[p.diffId := Unparsed(t)]
                          else if p.DiffWrite? && p.diffId in s.diffs && s.diffs[p.diffId] == Unparsed(t)
                               then s.diffs[p.diffId := Points(p.blobId)]
                          else s.diffs
  {
  }

  // ---- the lock ----

  ghost predicate LockSafe(sys: Sys) {
    && (forall t: Tid :: InGc(At(sys, t)) <==> sys.exclusive == Some(t))
    && (forall t: Tid :: HoldsShared(At(sys, t)) <==> t in sys.shared)
    && (sys.exclusive.Some? ==> sys.shared == {})
  }

  lemma ContinueKeepsLock(f: Foreign, sys: Sys, t: Tid, pick: Hash, listed: set<Hash>)
    requires LockSafe(sys)
    ensures LockSafe(Continue(f, sys, t, pick, listed))
    ensures forall u: Tid | u != t :: At(Continue(f, sys, t, pick, listed), u) == At(sys, u)
  {
    var next := Continue(f, sys, t, pick, listed);
    assert forall u: Tid | u != t :: At(next, u) == At(sys, u);
    assert InGc(At(next, t)) <==> next.exclusive == Some(t);
    assert HoldsShared(At(next, t)) <==> t in next.shared;
  }

  lemma StepKeepsLockSafe(f: Foreign, sys: Sys, t: Tid, act: Action)
    requires LockSafe(sys)
    ensures LockSafe(Step(f, sys, t, act))
    ensures forall u: Tid | u != t :: At(Step(f, sys, t, act), u) == At(sys, u)
  {
    if act.Advance? {
      ContinueKeepsLock(f, sys, t, act.pick, act.listed);
    } else {
      var next := Step(f, sys, t, act);
      assert forall u: Tid | u != t :: At(next, u) == At(sys, u);
      assert InGc(At(next, t)) <==> next.exclusive == Some(t);
      assert HoldsShared(At(next, t)) <==> t in next.shared;
    }
  }
}
