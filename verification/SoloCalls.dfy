/** A call whose steps no other process interrupts does to the store what the operation says. */
module SoloCalls {
  import opened Wrappers
  import opened Magic
  import opened Types
  import opened StoreModel
  import opened StoreConcurrent

  /** n steps of process t, whatever the scheduler picks. */
  function Steps(f: Foreign, sys: Sys, t: Tid, pick: Hash, n: nat): Sys
    decreases n
  {
    if n == 0 then sys else Steps(f, Step(f, sys, t, Advance(pick, {})), t, pick, n - 1)
  }

  function Schedules(t: Tid, act: Action, pick: Hash, n: nat): Schedule {
    [(t, act)] + seq(n, _ => (t, Advance(pick, {})))
  }

  lemma {:induction false} StepsAreRuns(f: Foreign, sys: Sys, t: Tid, pick: Hash, n: nat)
    ensures Run(f, sys, seq(n, _ => (t, Advance(pick, {})))) == Steps(f, sys, t, pick, n)
    decreases n
  {
    if n > 0 {
      var first: Schedule := [(t, Advance(pick, {}))];
      var rest: Schedule := seq(n - 1, _ => (t, Advance(pick, {})));
      StepsAreRuns(f, Step(f, sys, t, Advance(pick, {})), t, pick, n - 1);
      assert seq(n, _ => (t, Advance(pick, {}))) == first + rest;
      RunAppend(f, sys, first, rest);
      RunOne(f, sys, t, Advance(pick, {}));
    }
  }

  lemma CallIsRun(f: Foreign, sys: Sys, t: Tid, act: Action, pick: Hash, n: nat)
    ensures Run(f, sys, Schedules(t, act, pick, n)) == Steps(f, Step(f, sys, t, act), t, pick, n)
  {
    var rest: Schedule := seq(n, _ => (t, Advance(pick, {})));
    RunAppend(f, sys, [(t, act)], rest);
    RunOne(f, sys, t, act);
    StepsAreRuns(f, Step(f, sys, t, act), t, pick, n);
  }

  predicate Free(p: Proc) {
    p.Idle? || p.BlobDone?
  }

  lemma {:induction false} FreeStays(f: Foreign, sys: Sys, t: Tid, pick: Hash, n: nat)
    requires Free(At(sys, t))
    ensures Steps(f, sys, t, pick, n) == sys
  {
    if n > 0 {
      FreeStays(f, sys, t, pick, n - 1);
    }
  }

  lemma {:induction false} FromDiffCheck(f: Foreign, sys: Sys, t: Tid, b: BlobId, d: DiffId, pick: Hash, n: nat)
    requires At(sys, t) == DiffCheck(b, d) && n >= 3
    ensures Steps(f, sys, t, pick, n) == Goto(sys, t, BlobDone(b, d)).(store := Index(sys.store, d, b))
  {
    var one := Step(f, sys, t, Advance(pick, {}));
    if d in sys.store.diffs {
      FreeStays(f, one, t, pick, n - 1);
    } else {
      var two := Step(f, one, t, Advance(pick, {}));
      var three := Step(f, two, t, Advance(pick, {}));
      FreeStays(f, three, t, pick, n - 3);
      assert sys.store.diffs[d := Unparsed(t)][d := Points(b)] == sys.store.diffs[d := Points(b)];
      assert three == Goto(sys, t, BlobDone(b, d)).(store := Index(sys.store, d, b));
      assert Steps(f, one, t, pick, n - 1) == Steps(f, two, t, pick, n - 2) == Steps(f, three, t, pick, n - 3);
    }
  }

  lemma {:induction false} FromBlobCheck(f: Foreign, sys: Sys, t: Tid, bytes: Bytes, d: DiffId, pick: Hash)
    requires At(sys, t) == BlobCheck(bytes, d)
    ensures Steps(f, sys, t, pick, 5) ==
            Goto(sys, t, BlobDone(f.hash(bytes), d)).(store := Index(Store(f, sys.store, bytes), d, f.hash(bytes)))
  {
    var one := Step(f, sys, t, Advance(pick, {}));
    if f.hash(bytes) in sys.store.objects {
      FromDiffCheck(f, one, t, f.hash(bytes), d, pick, 4);
    } else {
      var two := Step(f, one, t, Advance(pick, {}));
      FromDiffCheck(f, two, t, f.hash(bytes), d, pick, 3);
      assert Steps(f, one, t, pick, 4) == Steps(f, two, t, pick, 3);
    }
    assert Steps(f, sys, t, pick, 5) == Steps(f, one, t, pick, 4);
  }

  lemma {:induction false} PutBlobSteps(f: Foreign, sys: Sys, t: Tid, bytes: Bytes, pick: Hash)
    requires Free(At(sys, t))
    ensures Steps(f, Step(f, sys, t, StartPutBlob(bytes)), t, pick, 5) ==
            Goto(sys, t, match DiffIdOf(f, bytes) case None => Idle case Some(d) => BlobDone(f.hash(bytes), d)).(
              store := AfterPutBlob(f, sys.store, bytes))
  {
    var begun := Step(f, sys, t, StartPutBlob(bytes));
    match DiffIdOf(f, bytes)
    case None => FreeStays(f, begun, t, pick, 5);
    case Some(d) => FromBlobCheck(f, begun, t, bytes, d, pick);
  }

  /** put_blob stores and indexes as the sequential operation does, and answers with both ids. */
  lemma {:induction false} SoloPutBlob(f: Foreign, sys: Sys, t: Tid, bytes: Bytes, pick: Hash)
    requires Free(At(sys, t))
    ensures var next := Run(f, sys, Schedules(t, StartPutBlob(bytes), pick, 5));
            && next == Goto(sys, t, At(next, t)).(store := AfterPutBlob(f, sys.store, bytes))
            && (forall c | Unpacks(f, bytes, c) :: At(next, t) == BlobDone(f.hash(bytes), f.hash(c)))
            && ((forall c :: !Unpacks(f, bytes, c)) ==> At(next, t) == Idle)
  {
    CallIsRun(f, sys, t, StartPutBlob(bytes), pick, 5);
    PutBlobSteps(f, sys, t, bytes, pick);
  }

  lemma {:induction false} FromManifestIndex(f: Foreign, sys: Sys, t: Tid, m: ManifestHash, pick: Hash, n: nat)
    requires At(sys, t) == ManifestIndex(m) && n >= 1
    ensures Steps(f, sys, t, pick, n) == Goto(sys, t, Idle).(store := sys.store.(index := sys.store.index + {m}))
  {
    FreeStays(f, Step(f, sys, t, Advance(pick, {})), t, pick, n - 1);
  }

  lemma {:induction false} FromManifestCheck(f: Foreign, sys: Sys, t: Tid, bytes: Bytes, pick: Hash)
    requires At(sys, t) == ManifestCheck(bytes) && f.utf8(bytes)
    ensures Steps(f, sys, t, pick, 3) == Goto(sys, t, Idle).(store := AfterPutManifest(f, sys.store, bytes))
  {
    var one := Step(f, sys, t, Advance(pick, {}));
    if f.hash(bytes) in sys.store.objects {
      FromManifestIndex(f, one, t, f.hash(bytes), pick, 2);
    } else {
      var two := Step(f, one, t, Advance(pick, {}));
      FromManifestIndex(f, two, t, f.hash(bytes), pick, 1);
      assert Steps(f, one, t, pick, 2) == Steps(f, two, t, pick, 1);
    }
    assert Steps(f, sys, t, pick, 3) == Steps(f, one, t, pick, 2);
  }

  lemma {:induction false} SoloPutManifest(f: Foreign, sys: Sys, t: Tid, bytes: Bytes, pick: Hash)
    requires Free(At(sys, t))
    ensures Run(f, sys, Schedules(t, StartPutManifest(bytes), pick, 3)) ==
            Goto(sys, t, Idle).(store := AfterPutManifest(f, sys.store, bytes))
  {
    CallIsRun(f, sys, t, StartPutManifest(bytes), pick, 3);
    var begun := Step(f, sys, t, StartPutManifest(bytes));
    if f.utf8(bytes) {
      FromManifestCheck(f, begun, t, bytes, pick);
    } else {
      FreeStays(f, begun, t, pick, 3);
    }
  }

  lemma {:induction false} FromRefUnlock(f: Foreign, sys: Sys, t: Tid, pick: Hash, n: nat)
    requires At(sys, t) == RefUnlock && n >= 1
    ensures Steps(f, sys, t, pick, n) == Goto(sys, t, Idle).(shared := sys.shared - {t})
  {
    FreeStays(f, Step(f, sys, t, Advance(pick, {})), t, pick, n - 1);
  }

  /** A ref writer that waits with the lock free gets it, does its work and gives it back. */
  lemma {:induction false} FromRefWait(f: Foreign, sys: Sys, t: Tid, pick: Hash)
    requires (At(sys, t).RefWait? || At(sys, t).UnrefWait?) && sys.exclusive == None && t !in sys.shared
    ensures Steps(f, sys, t, pick, 3) == Goto(sys, t, Idle).(
              store := if At(sys, t).RefWait? then WriteRef(sys.store, At(sys, t).key, At(sys, t).hash)
                       else DropRef(sys.store, At(sys, t).key))
  {
    var one := Step(f, sys, t, Advance(pick, {}));
    var two := Step(f, one, t, Advance(pick, {}));
    FromRefUnlock(f, two, t, pick, 1);
    assert Steps(f, sys, t, pick, 3) == Steps(f, one, t, pick, 2) == Steps(f, two, t, pick, 1);
    assert sys.shared + {t} - {t} == sys.shared;
  }

  /** Ref writers do as the sequential operation does, once the lock is free. */
  lemma {:induction false} SoloPutRef(f: Foreign, sys: Sys, t: Tid, key: RefKey, hash: ManifestHash, pick: Hash)
    requires Free(At(sys, t)) && sys.exclusive == None && t !in sys.shared
    ensures Run(f, sys, Schedules(t, StartPutRef(key, hash), pick, 3)) ==
            Goto(sys, t, Idle).(store := AfterPutRef(sys.store, key, hash))
  {
    CallIsRun(f, sys, t, StartPutRef(key, hash), pick, 3);
    var begun := Step(f, sys, t, StartPutRef(key, hash));
    if At(begun, t).Idle? {
      FreeStays(f, begun, t, pick, 3);
    } else {
      FromRefWait(f, begun, t, pick);
    }
  }

  lemma {:induction false} SoloRemoveRef(f: Foreign, sys: Sys, t: Tid, key: RefKey, pick: Hash)
    requires Free(At(sys, t)) && sys.exclusive == None && t !in sys.shared
    ensures Run(f, sys, Schedules(t, StartRemoveRef(key), pick, 3)) ==
            Goto(sys, t, Idle).(store := AfterRemoveRef(sys.store, key))
  {
    CallIsRun(f, sys, t, StartRemoveRef(key), pick, 3);
    var begun := Step(f, sys, t, StartRemoveRef(key));
    if RefKeyError(key).Some? {
      FreeStays(f, begun, t, pick, 3);
    } else {
      FromRefWait(f, begun, t, pick);
      DropsNothing(sys.store, key);
    }
  }

  /** Removing a ref that is not there changes nothing. */
  lemma DropsNothing(s: State, key: RefKey)
    ensures ReadRef(s, key).None? ==> DropRef(s, key) == s
  {
    if ReadRef(s, key).None? {
      if PlainKey(key) {
        assert s.refs - {key} == s.refs;
      } else if key.version != "." {
        assert s.beside.files - {PathOf(key)} == s.beside.files;
      }
    }
  }
}
