/**
 * Publishing with any number of clients at once. A commit request is cut where another request
 * can get in between: finding the session, checking the blobs, writing the version. Each cut
 * is one turn under the database lock or the backend lock.
 */
module RegistryProtocol {
  import opened Wrappers
  import opened Magic
  import opened Types
  import opened Registry
  import opened Texts

  type Request = nat

  datatype Phase = Waiting | Found(id: string, session: Session) | Checked(id: string, session: Session)

  /**
   * `used` and `published` record the past and steer nothing: every session id ever handed out
   * (they are random and never repeat), and the session behind each version that became visible.
   */
  datatype Sys = Sys(tables: Tables, blobs: Blobs, requests: map<Request, Phase>, used: set<string>,
      published: map<Key, Session>)

  const EMPTY := Sys(Tables(map[], [], map[]), Blobs(map[], {}), map[], {}, map[])

  /** One step of the world: a request's turn, or bytes arriving at the backend. */
  datatype Action =
    | Begin(id: string, session: Session)
    | Upload(blob: BlobId, bytes: Bytes)
    | MarkUploaded(blob: BlobId)
    | Find(request: Request, id: string)
    | Check(request: Request)
    | Write(request: Request)

  datatype World = World(f: Foreign, download: BlobId -> Url)

  function PhaseOf(sys: Sys, r: Request): Phase {
    if r in sys.requests then sys.requests[r] else Waiting
  }

  function Step(w: World, sys: Sys, act: Action): Sys {
    match act
    case Begin(id, s) =>
      if id in sys.used || BeginError(w.f, s).Some? || AfterPutSession(sys.tables, id, s).Failure? then sys
      else sys.(tables := AfterPutSession(sys.tables, id, s).value, used := sys.used + {id})
    case Upload(id, bytes) => sys.(blobs := AfterUpload(w.f, sys.blobs, id, bytes))
    case MarkUploaded(id) => sys.(blobs := sys.blobs.(marked := sys.blobs.marked + {id}))
    case Find(r, id) =>
      if id in sys.tables.sessions then sys.(requests := sys.requests[r := Found(id, sys.tables.sessions[id])]) else sys
    case Check(r) =>
      (match PhaseOf(sys, r)
       case Found(id, s) =>
         sys.(requests := sys.requests[r := if AllUploaded(sys.blobs, s.layers) then Checked(id, s) else Waiting])
       case _ => sys)
    case Write(r) =>
      (match PhaseOf(sys, r)
       case Checked(id, s) =>
         var c := Written(w, sys, id, s);
         sys.(tables := c.tables, requests := sys.requests[r := Waiting],
              published := if WritesVersion(c.result) then sys.published[s.key := s] else sys.published)
       case _ => sys)
  }

  /** commit_version with the urls made from the session copy read at the start of the request. */
  function Written(w: World, sys: Sys, id: string, s: Session): Commit {
    AfterCommit(sys.tables, id, w.download(s.manifestId), LayerUrls(s.layers, w.download))
  }

  function Run(w: World, sys: Sys, acts: seq<Action>): Sys {
    if acts == [] then sys else Step(w, Run(w, sys, acts[..|acts| - 1]), acts[|acts| - 1])
  }

  // ---- invariants ----

  ghost predicate SessionSound(w: World, s: Session) {
    BeginError(w.f, s).None?
  }

  /** The copy a request carries is the row, as long as the row is there. */
  ghost predicate CopySound(w: World, sys: Sys, id: string, s: Session) {
    && id in sys.used && SessionSound(w, s)
    && (id in sys.tables.sessions ==> sys.tables.sessions[id] == s)
  }

  ghost predicate RequestSound(w: World, sys: Sys, r: Request) {
    match PhaseOf(sys, r)
    case Waiting => true
    case Found(id, s) => CopySound(w, sys, id, s)
    case Checked(id, s) => CopySound(w, sys, id, s) && AllUploaded(sys.blobs, s.layers)
  }

  /** The rows of a session when all its layers are inserted. */
  function FullRows(w: World, s: Session): (rows: seq<LayerRow>)
    ensures |rows| == |s.layers|
    ensures forall i | 0 <= i < |rows| :: rows[i] == FullRow(w, s.key, s.layers[i])
  {
    seq(|s.layers|, i requires 0 <= i < |s.layers| => FullRow(w, s.key, s.layers[i]))
  }

  function FullRow(w: World, key: Key, l: PublishLayer): LayerRow {
    LayerRow(key, l.diffId, l.blobId, w.download(l.blobId), l.sizes)
  }

  /** A commit inserts them up to the first whose sizes do not fit. */
  function SessionRecord(w: World, s: Session): PackageRecord {
    PackageRecord(SessionRow(s, w.download(s.manifestId)), Fitting(FullRows(w, s)))
  }

  lemma RecordWholeIff(w: World, s: Session)
    ensures SessionRecord(w, s).layers <= FullRows(w, s)
    ensures SessionRecord(w, s).layers == FullRows(w, s) <==> AllFit(s.layers)
  {
    var rows := FullRows(w, s);
    FittingIsPrefix(rows);
    if forall r | r in rows :: Fits(r.sizes) {
      forall l | l in s.layers ensures Fits(l.sizes) {
        var i :| 0 <= i < |s.layers| && s.layers[i] == l;
        assert rows[i] in rows;
      }
    }
  }

  /** A visible version is the record of one begun session, with all layer blobs there. */
  ghost predicate VersionSound(w: World, sys: Sys, key: Key) {
    && key in sys.published
    && var s := sys.published[key];
       s.key == key && SessionSound(w, s) && AllUploaded(sys.blobs, s.layers)
       && GetVersion(sys.tables, key) == Success(SessionRecord(w, s))
  }

  ghost predicate Consistent(w: World, sys: Sys) {
    && NoStrayRows(sys.tables)
    && (forall id | id in sys.tables.sessions :: id in sys.used && SessionSound(w, sys.tables.sessions[id]))
    && (forall r :: RequestSound(w, sys, r))
    && (forall key | key in sys.tables.versions :: VersionSound(w, sys, key))
  }

  ghost predicate BlobsGrow(a: Blobs, b: Blobs) {
    forall id | HasBlob(a, id) :: HasBlob(b, id)
  }

  lemma BlobsNeverVanish(w: World, sys: Sys, act: Action)
    ensures BlobsGrow(sys.blobs, Step(w, sys, act).blobs)
  {
  }

  lemma WrittenRows(w: World, s: Session)
    ensures InsertableRows(s.key, s.layers, LayerUrls(s.layers, w.download)) == Fitting(FullRows(w, s))
  {
    var urls, rows := LayerUrls(s.layers, w.download), FullRows(w, s);
    var inserted := InsertableRows(s.key, s.layers, urls);
    InsertableLength(s.key, s.layers, urls);
    FittingStops(rows, |inserted|);
    assert inserted == rows[..|inserted|];
  }

  /**
   * A request that has passed its checks either finds the session or the version gone and
   * changes nothing, or makes the version visible: whole exactly when every declared size fits.
   */
  lemma WriteIsWholeIff(w: World, sys: Sys, id: string, s: Session)
    requires CopySound(w, sys, id, s)
    ensures var c, t := Written(w, sys, id, s), sys.tables;
            && (!WritesVersion(c.result) ==> c.tables == t && !c.result.error.MissingBlobs?)
            && (WritesVersion(c.result) ==>
                && s.key !in t.versions
                && c.tables == Tables(t.versions[s.key := SessionRecord(w, s).row],
                                      t.layers + SessionRecord(w, s).layers,
                                      if AllFit(s.layers) then t.sessions - {id} else t.sessions)
                && c.result == if AllFit(s.layers) then Success(SessionRecord(w, s)) else Failure(Database))
  {
    var urls := LayerUrls(s.layers, w.download);
    InsertableLength(s.key, s.layers, urls);
    WrittenRows(w, s);
    assert AllFit(s.layers) <==> forall l | l in s.layers :: Insertable(l, urls);
  }

  lemma WriteShows(w: World, sys: Sys, id: string, s: Session)
    requires CopySound(w, sys, id, s)
    ensures var c, t := Written(w, sys, id, s), sys.tables;
            if WritesVersion(c.result) then
              s.key !in t.versions && c.tables.versions.Keys == t.versions.Keys + {s.key}
              && (c.result.Success? <==> AllFit(s.layers))
            else c.tables.versions == t.versions
  {
    WriteIsWholeIff(w, sys, id, s);
  }

  lemma {:induction false} WriteKeepsVersions(w: World, sys: Sys, id: string, s: Session, key: Key)
    requires Consistent(w, sys) && CopySound(w, sys, id, s) && AllUploaded(sys.blobs, s.layers)
    requires WritesVersion(Written(w, sys, id, s).result)
    ensures var t := Written(w, sys, id, s).tables;
            if key == s.key then GetVersion(t, key) == Success(SessionRecord(w, s))
                else GetVersion(t, key) == GetVersion(sys.tables, key)
  {
    WriteIsWholeIff(w, sys, id, s);
    RecordWholeIff(w, s);
    RowsBehind(sys.tables, SessionRecord(w, s).layers, s.key, key);
  }

  lemma RowsBehind(t: Tables, rows: seq<LayerRow>, own: Key, key: Key)
    requires NoStrayRows(t) && own !in t.versions && forall r | r in rows :: r.key == own
    ensures RowsFor(t.layers + rows, key) == if key == own then rows else RowsFor(t.layers, key)
  {
    RowsForAppend(t.layers, rows, key);
    if key == own {
      RowsForAll(rows, key);
      RowsForNone(t.layers, key);
    } else {
      RowsForNone(rows, key);
    }
  }

  /** The step is a write that gets to the tables. */
  predicate Writes(sys: Sys, act: Action) {
    act.Write? && PhaseOf(sys, act.request).Checked?
  }

  lemma OnlyWritesPublish(w: World, sys: Sys, act: Action)
    requires !Writes(sys, act)
    ensures var next := Step(w, sys, act);
            && next.tables.versions == sys.tables.versions && next.tables.layers == sys.tables.layers
            && next.published == sys.published
  {
  }

  /** Session ids are never handed out again, so the row of a used one is what it was, or gone. */
  lemma SessionsStay(w: World, sys: Sys, act: Action)
    requires Consistent(w, sys)
    ensures var next := Step(w, sys, act);
            && sys.used <= next.used
            && forall id | id in sys.used && id in next.tables.sessions ::
                 id in sys.tables.sessions && next.tables.sessions[id] == sys.tables.sessions[id]
  {
    if Writes(sys, act) {
      var p := PhaseOf(sys, act.request);
      assert RequestSound(w, sys, act.request);
      WriteIsWholeIff(w, sys, p.id, p.session);
    }
  }

  lemma StepRequests(w: World, sys: Sys, act: Action, r: Request)
    requires Consistent(w, sys)
    ensures RequestSound(w, Step(w, sys, act), r)
  {
    assert RequestSound(w, sys, r);
    BlobsNeverVanish(w, sys, act);
    SessionsStay(w, sys, act);
    PhasesStay(w, sys, act, r);
  }

  /** A request stands where it stood, has found a session, has passed the check, or is done. */
  lemma PhasesStay(w: World, sys: Sys, act: Action, r: Request)
    ensures var p, next := PhaseOf(sys, r), PhaseOf(Step(w, sys, act), r);
            || next == p || next.Waiting?
            || (next.Found? && next.id in sys.tables.sessions && next.session == sys.tables.sessions[next.id]
                && Step(w, sys, act).tables == sys.tables && Step(w, sys, act).used == sys.used)
            || (p.Found? && next == Checked(p.id, p.session) && AllUploaded(sys.blobs, p.session.layers))
  {
  }

  lemma WriteVersions(w: World, sys: Sys, act: Action, key: Key)
    requires Consistent(w, sys) && Writes(sys, act) && key in Step(w, sys, act).tables.versions
    ensures VersionSound(w, Step(w, sys, act), key)
    ensures key in sys.tables.versions ==> GetVersion(Step(w, sys, act).tables, key) == GetVersion(sys.tables, key)
                                           && Step(w, sys, act).published[key] == sys.published[key]
  {
    var p := PhaseOf(sys, act.request);
    assert RequestSound(w, sys, act.request);
    if key in sys.tables.versions {
      assert VersionSound(w, sys, key);
    }
    WriteIsWholeIff(w, sys, p.id, p.session);
    if WritesVersion(Written(w, sys, p.id, p.session).result) {
      WriteKeepsVersions(w, sys, p.id, p.session, key);
    }
  }

  lemma StepVersions(w: World, sys: Sys, act: Action, key: Key)
    requires Consistent(w, sys) && key in Step(w, sys, act).tables.versions
    ensures VersionSound(w, Step(w, sys, act), key)
    ensures key in sys.tables.versions ==> GetVersion(Step(w, sys, act).tables, key) == GetVersion(sys.tables, key)
                                           && Step(w, sys, act).published[key] == sys.published[key]
  {
    if Writes(sys, act) {
      WriteVersions(w, sys, act, key);
    } else {
      OnlyWritesPublish(w, sys, act);
      BlobsNeverVanish(w, sys, act);
      assert VersionSound(w, sys, key);
    }
  }

  lemma StepConsistent(w: World, sys: Sys, act: Action)
    requires Consistent(w, sys)
    ensures Consistent(w, Step(w, sys, act))
  {
    var next := Step(w, sys, act);
    forall r ensures RequestSound(w, next, r) {
      StepRequests(w, sys, act, r);
    }
    forall key | key in next.tables.versions ensures VersionSound(w, next, key) {
      StepVersions(w, sys, act, key);
    }
    if Writes(sys, act) {
      var p := PhaseOf(sys, act.request);
      assert RequestSound(w, sys, act.request);
      CommitKeepsRows(sys.tables, p.id, w.download(p.session.manifestId), LayerUrls(p.session.layers, w.download));
      WriteIsWholeIff(w, sys, p.id, p.session);
    }
  }

  lemma {:induction false} RunConsistent(w: World, sys: Sys, acts: seq<Action>)
    requires Consistent(w, sys)
    ensures Consistent(w, Run(w, sys, acts))
  {
    if acts != [] {
      RunConsistent(w, sys, acts[..|acts| - 1]);
      StepConsistent(w, Run(w, sys, acts[..|acts| - 1]), acts[|acts| - 1]);
    }
  }

  /** The record's layers cover every diff id of the manifest. */
  ghost predicate Covers(record: PackageRecord, manifest: Manifest) {
    forall l | l in manifest.layers && l.diffId.Some? ::
      exists row :: row in record.layers && row.diffId == l.diffId.value
  }

  /**
   * After any run from an empty registry, whatever is visible is what one session said: its
   * manifest id, publisher, time and visibility, and its layers up to the first with a size of
   * 2^63 or more, under the urls of their blobs, all of which some step uploaded. If every size
   * is smaller, the layers cover every diff id of the manifest that session was begun with.
   */
  lemma VisibleIsCompleteIff(w: World, acts: seq<Action>, key: Key)
    requires GetVersion(Run(w, EMPTY, acts).tables, key).Success?
    ensures var sys := Run(w, EMPTY, acts);
            var record := GetVersion(sys.tables, key).value;
            && key in sys.published
            && var s := sys.published[key];
            && s.key == key && key.namespace !in ["debian", "npm", "pip"]
            && TellsSession(record.row, s, w.download(s.manifestId))
            && TellsLayers(record.layers, s, w.download)
            && (|record.layers| == |s.layers| <==> AllFit(s.layers))
            && (forall l | l in s.layers :: exists i :: 0 <= i < |acts| && Uploads(w, acts[i], l.blobId))
            && w.f.json(s.manifestBytes).Some?
            && (AllFit(s.layers) ==> Covers(record, w.f.json(s.manifestBytes).value))
  {
    RunConsistent(w, EMPTY, acts);
    var sys := Run(w, EMPTY, acts);
    assert VersionSound(w, sys, key);
    var s := sys.published[key];
    BeginErrorIff(w.f, s);
    RecordTells(w, s);
    forall l | l in s.layers ensures exists i :: 0 <= i < |acts| && Uploads(w, acts[i], l.blobId) {
      BlobThereIff(w, acts, l.blobId);
    }
    FullRowsCover(w, s);
  }

  lemma RecordTells(w: World, s: Session)
    ensures var record := SessionRecord(w, s);
            && TellsSession(record.row, s, w.download(s.manifestId)) && TellsLayers(record.layers, s, w.download)
            && (|record.layers| == |s.layers| <==> AllFit(s.layers))
  {
    var rows := FullRows(w, s);
    RecordWholeIff(w, s);
    FittingIsPrefix(rows);
    FittingFits(rows);
  }

  lemma FullRowsCover(w: World, s: Session)
    requires SessionSound(w, s)
    ensures Covers(PackageRecord(SessionRow(s, w.download(s.manifestId)), FullRows(w, s)),
                   w.f.json(s.manifestBytes).value)
  {
    BeginErrorIff(w.f, s);
    forall m | m in w.f.json(s.manifestBytes).value.layers && m.diffId.Some?
        ensures exists row :: row in FullRows(w, s) && row.diffId == m.diffId.value {
      var l :| l in s.layers && l.diffId == m.diffId.value;
      var i :| 0 <= i < |s.layers| && s.layers[i] == l;
      assert FullRows(w, s)[i] in FullRows(w, s);
    }
  }

  // ---- public packages on private ones ----

  /** Every other visible version of this package was published before. */
  ghost predicate LastOfPackage(sys: Sys, key: Key) {
    forall j | j in sys.tables.versions && j != key && j.namespace == key.namespace && j.name == key.name ::
      j in sys.published && key in sys.published
      && Precedes(sys.published[j].createdAt, sys.published[key].createdAt)
  }

  ghost predicate DependsOn(w: World, s: Session, key: Key) {
    && w.f.json(s.manifestBytes).Some?
    && exists d :: d in w.f.json(s.manifestBytes).value.dependencies
                   && d.reference.namespace == key.namespace && d.reference.name == key.name
  }

  ghost predicate RefusedForPrivate(error: Option<RegistryError>, w: World, s: Session) {
    && error.Some? && error.value.PublicDependsOnPrivate? && w.f.json(s.manifestBytes).Some?
    && exists d :: d in w.f.json(s.manifestBytes).value.dependencies && d.reference == error.value.dep
  }

  /**
   * Once a private session is visible, as version "latest" or as the last published version of
   * its package, no public session that depends on the package is accepted any more.
   */
  lemma PrivateIsShielded(w: World, acts: seq<Action>, key: Key, id: string, s: Session, error: Option<RegistryError>)
    requires var sys := Run(w, EMPTY, acts);
             && GetVersion(sys.tables, key).Success? && key in sys.published && sys.published[key].visibility == Private
             && (key.version == "latest" || LastOfPackage(sys, key))
             && BeginAnswers(w.f, sys.tables, id, s, error)
    requires s.visibility == Public && DependsOn(w, s, key) && BeginError(w.f, s).None?
    ensures RefusedForPrivate(error, w, s)
  {
    var sys := Run(w, EMPTY, acts);
    VisibleIsCompleteIff(w, acts, key);
    var d :| d in w.f.json(s.manifestBytes).value.dependencies
             && d.reference.namespace == key.namespace && d.reference.name == key.name;
    assert !Passed(sys.tables, d.reference) by {
      if key.version == "latest" {
        assert Latest(d.reference) == key;
      } else {
        OnlyNewest(w, acts, key, d.reference);
      }
    }
  }

  lemma OnlyNewest(w: World, acts: seq<Action>, key: Key, p: PackageRef)
    requires GetVersion(Run(w, EMPTY, acts).tables, key).Success? && LastOfPackage(Run(w, EMPTY, acts), key)
    requires p.namespace == key.namespace && p.name == key.name
    ensures forall k | Newest(Run(w, EMPTY, acts).tables, p, k) :: k == key
  {
    var sys := Run(w, EMPTY, acts);
    VisibleIsCompleteIff(w, acts, key);
    forall k | Newest(sys.tables, p, k) ensures k == key {
      VisibleIsCompleteIff(w, acts, k);
    }
  }

  /** A private version that begin asks for: "latest", or the last published one. */
  ghost predicate Shields(sys: Sys, key: Key) {
    && key in sys.tables.versions && key in sys.published && sys.published[key].visibility == Private
    && (key.version == "latest" || LastOfPackage(sys, key))
  }

  ghost predicate LastIs(sys: Sys, p: PackageRef, key: Key) {
    && key in sys.tables.versions && key.namespace == p.namespace && key.name == p.name
    && LastOfPackage(sys, key)
  }

  /** No two of the package's newest versions carry the same time. */
  ghost predicate HasLast(sys: Sys, p: PackageRef) {
    || (forall k | k in sys.tables.versions :: k.namespace != p.namespace || k.name != p.name)
    || exists key :: LastIs(sys, p, key)
  }

  /** Exactly then is a public session refused for a dependency: older private versions do not count. */
  lemma PrivateRefusedIff(w: World, acts: seq<Action>, id: string, s: Session, error: Option<RegistryError>)
    requires BeginAnswers(w.f, Run(w, EMPTY, acts).tables, id, s, error)
    requires s.visibility == Public && BeginError(w.f, s).None?
    requires forall d | d in w.f.json(s.manifestBytes).value.dependencies :: HasLast(Run(w, EMPTY, acts), d.reference)
    ensures RefusedForPrivate(error, w, s) <==>
            exists key :: DependsOn(w, s, key) && Shields(Run(w, EMPTY, acts), key)
  {
    var sys := Run(w, EMPTY, acts);
    if key :| DependsOn(w, s, key) && Shields(sys, key) {
      PrivateIsShielded(w, acts, key, id, s, error);
    }
    if error.Some? && error.value.PublicDependsOnPrivate? {
      var p := error.value.dep;
      var d :| d in w.f.json(s.manifestBytes).value.dependencies && d.reference == p;
      var key := WhyRefused(w, acts, p);
      assert DependsOn(w, s, key) && Shields(sys, key);
    }
  }

  lemma WhyRefused(w: World, acts: seq<Action>, p: PackageRef) returns (key: Key)
    requires Refused(Run(w, EMPTY, acts).tables, p) && HasLast(Run(w, EMPTY, acts), p)
    ensures key.namespace == p.namespace && key.name == p.name && Shields(Run(w, EMPTY, acts), key)
  {
    var sys := Run(w, EMPTY, acts);
    if IsPrivate(sys.tables, Latest(p)) {
      key := Latest(p);
    } else {
      key :| Newest(sys.tables, p, key) && IsPrivate(sys.tables, key);
      var last :| LastIs(sys, p, last);
      OnlyNewest(w, acts, last, p);
    }
    VisibleIsCompleteIff(w, acts, key);
  }

  /** Once visible, a record and the session behind it never change, whatever runs afterwards. */
  lemma {:induction false} RecordsAreImmutable(w: World, sys: Sys, acts: seq<Action>, key: Key)
    requires Consistent(w, sys) && GetVersion(sys.tables, key).Success?
    ensures GetVersion(Run(w, sys, acts).tables, key) == GetVersion(sys.tables, key)
    ensures key in Run(w, sys, acts).published && Run(w, sys, acts).published[key] == sys.published[key]
  {
    assert VersionSound(w, sys, key);
    if acts != [] {
      var front := acts[..|acts| - 1];
      RecordsAreImmutable(w, sys, front, key);
      RunConsistent(w, sys, front);
      assert GetVersion(Run(w, sys, front).tables, key).Success?;
      StepMonotone(w, Run(w, sys, front), acts[|acts| - 1], key);
      StepVersions(w, Run(w, sys, front), acts[|acts| - 1], key);
    }
  }

  lemma StepMonotone(w: World, sys: Sys, act: Action, key: Key)
    requires Consistent(w, sys) && key in sys.tables.versions
    ensures key in Step(w, sys, act).tables.versions
  {
    if Writes(sys, act) {
      var p := PhaseOf(sys, act.request);
      assert RequestSound(w, sys, act.request);
      WriteShows(w, sys, p.id, p.session);
      assert key in sys.tables.versions.Keys;
    } else {
      OnlyWritesPublish(w, sys, act);
    }
  }

  /** The step makes the version visible; with `whole`, by a commit that answers its client with success. */
  predicate Publishes(w: World, sys: Sys, act: Action, key: Key, whole: bool) {
    && Writes(sys, act) && PhaseOf(sys, act.request).session.key == key
    && var result := Written(w, sys, PhaseOf(sys, act.request).id, PhaseOf(sys, act.request).session).result;
       WritesVersion(result) && (whole ==> result.Success?)
  }

  function Publications(w: World, sys: Sys, acts: seq<Action>, key: Key, whole: bool): nat {
    if acts == [] then 0
    else
      var front := acts[..|acts| - 1];
      Publications(w, sys, front, key, whole)
        + if Publishes(w, Run(w, sys, front), acts[|acts| - 1], key, whole) then 1 else 0
  }

  // ---- blobs behind a visible version ----

  /** The step that puts blob b into the backend, or says that it is there. */
  predicate Uploads(w: World, act: Action, b: BlobId) {
    match act
    case Upload(id, bytes) => id == b && w.f.hash(bytes) == b
    case MarkUploaded(id) => id == b
    case _ => false
  }

  /** A blob is there exactly when some step of the run uploaded it: nothing else adds or removes one. */
  lemma {:induction false} BlobThereIff(w: World, acts: seq<Action>, b: BlobId)
    ensures HasBlob(Run(w, EMPTY, acts).blobs, b) <==> exists i :: 0 <= i < |acts| && Uploads(w, acts[i], b)
  {
    if acts != [] {
      var front, last := acts[..|acts| - 1], acts[|acts| - 1];
      BlobThereIff(w, front, b);
      assert forall i | 0 <= i < |front| :: front[i] == acts[i];
      BlobStep(w, Run(w, EMPTY, front), last, b);
    }
  }

  lemma BlobStep(w: World, sys: Sys, act: Action, b: BlobId)
    ensures HasBlob(Step(w, sys, act).blobs, b) <==> HasBlob(sys.blobs, b) || Uploads(w, act, b)
  {
  }

  /** So of a visible version: commit never asks for the manifest blob, only an upload puts it there. */
  lemma ManifestBlobThereIff(w: World, acts: seq<Action>, key: Key)
    requires GetVersion(Run(w, EMPTY, acts).tables, key).Success?
    ensures var sys := Run(w, EMPTY, acts);
            && key in sys.published && GetVersion(sys.tables, key).value.row.manifestId == sys.published[key].manifestId
            && (HasBlob(sys.blobs, sys.published[key].manifestId) <==>
                exists i :: 0 <= i < |acts| && Uploads(w, acts[i], sys.published[key].manifestId))
  {
    RunConsistent(w, EMPTY, acts);
    var sys := Run(w, EMPTY, acts);
    assert VersionSound(w, sys, key);
    BlobThereIff(w, acts, sys.published[key].manifestId);
  }

  lemma {:induction false} RunAppend(w: World, sys: Sys, a: seq<Action>, b: seq<Action>)
    ensures Run(w, sys, a + b) == Run(w, Run(w, sys, a), b)
  {
    if b == [] {
      assert a + b == a;
    } else {
      assert (a + b)[..|a + b| - 1] == a + b[..|b| - 1];
      RunAppend(w, sys, a, b[..|b| - 1]);
    }
  }

  predicate OnlyUploads(acts: seq<Action>) {
    forall i | 0 <= i < |acts| :: acts[i].Upload? || acts[i].MarkUploaded?
  }

  lemma {:induction false} UploadsTouchBlobs(w: World, sys: Sys, other: Sys, acts: seq<Action>)
    requires OnlyUploads(acts) && sys.blobs == other.blobs
    ensures Run(w, sys, acts) == sys.(blobs := Run(w, other, acts).blobs)
  {
    if acts != [] {
      var front := acts[..|acts| - 1];
      assert forall i | 0 <= i < |front| :: front[i] == acts[i];
      UploadsTouchBlobs(w, sys, other, front);
      assert acts[|acts| - 1].Upload? || acts[|acts| - 1].MarkUploaded?;
    }
  }

  function PublishRun(id: string, s: Session, uploads: seq<Action>, r: Request): seq<Action> {
    [Begin(id, s)] + uploads + [Find(r, id), Check(r), Write(r)]
  }

  /** s is visible, and it is the session behind its version. */
  ghost predicate PublishedAs(sys: Sys, s: Session) {
    GetVersion(sys.tables, s.key).Success? && s.key in sys.published && sys.published[s.key] == s
  }

  lemma RunThree(w: World, sys: Sys, a: Action, b: Action, c: Action)
    ensures Run(w, sys, [a, b, c]) == Step(w, Step(w, Step(w, sys, a), b), c)
  {
    var one, two, three := [a], [a, b], [a, b, c];
    assert three[..2] == two && two[..1] == one && one[..0] == [];
    assert Run(w, sys, one) == Step(w, sys, a);
    assert Run(w, sys, two) == Step(w, Run(w, sys, one), b);
  }

  lemma WriteSucceeds(w: World, sys: Sys, id: string, s: Session)
    requires id in sys.tables.sessions && sys.tables.sessions[id] == s && s.key !in sys.tables.versions
    ensures WritesVersion(Written(w, sys, id, s).result)
    ensures Written(w, sys, id, s).tables.versions.Keys == sys.tables.versions.Keys + {s.key}
  {
    InsertableLength(s.key, s.layers, LayerUrls(s.layers, w.download));
  }

  lemma CommitSteps(w: World, sys: Sys, id: string, s: Session, r: Request)
    requires id in sys.tables.sessions && sys.tables.sessions[id] == s && s.key !in sys.tables.versions
    requires AllUploaded(sys.blobs, s.layers)
    ensures PublishedAs(Run(w, sys, [Find(r, id), Check(r), Write(r)]), s)
    ensures var next := Run(w, sys, [Find(r, id), Check(r), Write(r)]);
            && next.blobs == sys.blobs && next.used == sys.used
            && next.tables.versions.Keys == sys.tables.versions.Keys + {s.key}
            && next.tables.sessions.Keys <= sys.tables.sessions.Keys
  {
    RunThree(w, sys, Find(r, id), Check(r), Write(r));
    var checked := Step(w, Step(w, sys, Find(r, id)), Check(r));
    assert PhaseOf(checked, r) == Checked(id, s) && checked.tables == sys.tables && checked.blobs == sys.blobs;
    WriteSucceeds(w, checked, id, s);
  }

  /**
   * Any acceptable session whose layer blobs have been uploaded becomes visible when it is
   * committed, whatever else was uploaded; it is whole exactly when every declared size fits.
   */
  lemma AcceptableSessionPublishes(w: World, id: string, s: Session, uploads: seq<Action>, r: Request)
    requires BeginError(w.f, s).None? && OnlyUploads(uploads) && AllUploaded(Run(w, EMPTY, uploads).blobs, s.layers)
    ensures var sys := Run(w, EMPTY, PublishRun(id, s, uploads, r));
            && PublishedAs(sys, s) && sys.blobs == Run(w, EMPTY, uploads).blobs
            && (GetVersion(sys.tables, s.key).value.layers == FullRows(w, s) <==> AllFit(s.layers))
  {
    var commits := [Find(r, id), Check(r), Write(r)];
    RunAppend(w, EMPTY, [Begin(id, s)] + uploads, commits);
    RunAppend(w, EMPTY, [Begin(id, s)], uploads);
    assert [Begin(id, s)][..0] == [];
    var begun := Run(w, EMPTY, [Begin(id, s)]);
    assert begun == Step(w, EMPTY, Begin(id, s));
    UploadsTouchBlobs(w, begun, EMPTY, uploads);
    CommitSteps(w, Run(w, begun, uploads), id, s, r);
    VisibleIsCompleteIff(w, PublishRun(id, s, uploads, r), s.key);
  }

  /** Publishing a session without layers in a registry that has neither its version nor its id. */
  lemma PublishesNext(w: World, sys: Sys, id: string, s: Session, r: Request)
    requires BeginError(w.f, s).None? && s.layers == []
    requires id !in sys.used && id !in sys.tables.sessions && s.key !in sys.tables.versions
    ensures var next := Run(w, sys, PublishRun(id, s, [], r));
            && PublishedAs(next, s) && next.used == sys.used + {id}
            && next.tables.versions.Keys == sys.tables.versions.Keys + {s.key}
            && next.tables.sessions.Keys <= sys.tables.sessions.Keys + {id}
  {
    var begin := [Begin(id, s)];
    var commits := [Find(r, id), Check(r), Write(r)];
    assert PublishRun(id, s, [], r) == begin + commits;
    RunAppend(w, sys, begin, commits);
    assert begin[..0] == [];
    assert Run(w, sys, begin) == Step(w, sys, Begin(id, s));
    CommitSteps(w, Run(w, sys, begin), id, s, r);
  }

  lemma {:induction false} BothPublished(w: World, hidden: Session, later: Session, r: Request)
    requires BeginError(w.f, hidden).None? && BeginError(w.f, later).None?
    requires hidden.layers == [] && later.layers == [] && hidden.key != later.key
    ensures var sys := Run(w, EMPTY, PublishRun("1", hidden, [], r) + PublishRun("2", later, [], r));
            && PublishedAs(sys, hidden) && PublishedAs(sys, later)
            && sys.tables.versions.Keys == {hidden.key, later.key} && sys.tables.sessions.Keys <= {"1", "2"}
  {
    var one, two := PublishRun("1", hidden, [], r), PublishRun("2", later, [], r);
    PublishesNext(w, EMPTY, "1", hidden, r);
    var first := Run(w, EMPTY, one);
    PublishesNext(w, first, "2", later, r);
    RunAppend(w, EMPTY, one, two);
    RunConsistent(w, EMPTY, one);
    RecordsAreImmutable(w, first, two, hidden.key);
  }

  lemma {:induction false} LaterPasses(w: World, acts: seq<Action>, hidden: Session, later: Session, p: PackageRef)
    requires var sys := Run(w, EMPTY, acts);
             PublishedAs(sys, hidden) && PublishedAs(sys, later) && sys.tables.versions.Keys == {hidden.key, later.key}
    requires Precedes(hidden.createdAt, later.createdAt) && later.visibility == Public
    requires later.key.namespace == p.namespace && later.key.name == p.name
    requires hidden.key.version != "latest" && later.key.version != "latest"
    ensures Passed(Run(w, EMPTY, acts).tables, p)
  {
    var t := Run(w, EMPTY, acts).tables;
    VisibleIsCompleteIff(w, acts, later.key);
    VisibleIsCompleteIff(w, acts, hidden.key);
    PrecedesStrict(hidden.createdAt, later.createdAt);
    StrictlyLater(later.createdAt);
    forall j | j in t.versions ensures !Precedes(t.versions[later.key].publishedAt, t.versions[j].publishedAt) {
      assert j in t.versions.Keys;
    }
    assert Latest(p) !in t.versions.Keys;
    assert Newest(t, p, later.key) && !IsPrivate(t, later.key);
  }

  /**
   * A private version that is neither "latest" nor the last published one is missed: once a later
   * public version is there, a public session that depends on the package is accepted.
   */
  lemma {:induction false} OlderPrivateIsMissed(w: World, hidden: Session, later: Session, s: Session, d: Dependency,
                                                r: Request)
    requires BeginError(w.f, hidden).None? && BeginError(w.f, later).None? && BeginError(w.f, s).None?
    requires hidden.layers == [] && later.layers == [] && hidden.visibility == Private && later.visibility == Public
    requires later.key == hidden.key.(version := later.key.version)
    requires hidden.key != later.key && s.key != hidden.key && s.key != later.key
    requires hidden.key.version != "latest" && later.key.version != "latest"
    requires Precedes(hidden.createdAt, later.createdAt)
    requires w.f.json(later.manifestBytes).Some? && w.f.json(later.manifestBytes).value.dependencies == []
    requires w.f.json(s.manifestBytes).Some? && w.f.json(s.manifestBytes).value.dependencies == [d]
    requires d.reference == PackageRef(hidden.key.namespace, hidden.key.name)
    ensures var sys := Run(w, EMPTY, PublishRun("1", hidden, [], r) + PublishRun("2", later, [], r));
            PublishedAs(sys, hidden) && PublishedAs(sys, later) && BeginAnswers(w.f, sys.tables, "3", s, None)
  {
    BothPublished(w, hidden, later, r);
    LaterPasses(w, PublishRun("1", hidden, [], r) + PublishRun("2", later, [], r), hidden, later, d.reference);
    var t := Run(w, EMPTY, PublishRun("1", hidden, [], r) + PublishRun("2", later, [], r)).tables;
    assert s.key !in t.versions.Keys && "3" !in t.sessions.Keys;
  }

  lemma StrictlyLater(a: string)
    ensures !Precedes(a, a)
  {
    if Precedes(a, a) {
      PrecedesStrict(a, a);
    }
  }

  /**
   * begin takes any layer sizes. With one of 2^63 or more the version becomes visible without
   * that layer and those after it, and nothing that runs afterwards completes it.
   */
  lemma OversizedLayerIsNeverListed(w: World, id: string, s: Session, uploads: seq<Action>, r: Request,
                                    more: seq<Action>)
    requires BeginError(w.f, s).None? && OnlyUploads(uploads) && AllUploaded(Run(w, EMPTY, uploads).blobs, s.layers)
    requires !AllFit(s.layers)
    ensures var sys := Run(w, EMPTY, PublishRun(id, s, uploads, r) + more);
            GetVersion(sys.tables, s.key).Success? && |GetVersion(sys.tables, s.key).value.layers| < |s.layers|
  {
    var published := PublishRun(id, s, uploads, r);
    AcceptableSessionPublishes(w, id, s, uploads, r);
    RunConsistent(w, EMPTY, published);
    RecordsAreImmutable(w, Run(w, EMPTY, published), more, s.key);
    RunAppend(w, EMPTY, published, more);
    VisibleIsCompleteIff(w, published, s.key);
  }

  /** The uploads of these contents, each under the blob id of its layer. */
  function LayerUploads(layers: seq<PublishLayer>, contents: seq<Bytes>): (acts: seq<Action>)
    requires |contents| == |layers|
    ensures |acts| == |layers| && forall i | 0 <= i < |acts| :: acts[i] == Upload(layers[i].blobId, contents[i])
  {
    seq(|layers|, i requires 0 <= i < |layers| => Upload(layers[i].blobId, contents[i]))
  }

  /** With nothing but its layers uploaded, a session becomes visible without its manifest blob. */
  lemma PublishedWithoutManifestBlob(w: World, id: string, s: Session, contents: seq<Bytes>, r: Request)
    requires BeginError(w.f, s).None? && forall l | l in s.layers :: l.blobId != s.manifestId
    requires |contents| == |s.layers| && forall i | 0 <= i < |contents| :: w.f.hash(contents[i]) == s.layers[i].blobId
    ensures var sys := Run(w, EMPTY, PublishRun(id, s, LayerUploads(s.layers, contents), r));
            PublishedAs(sys, s) && !HasBlob(sys.blobs, s.manifestId)
  {
    var uploads := LayerUploads(s.layers, contents);
    forall l | l in s.layers ensures HasBlob(Run(w, EMPTY, uploads).blobs, l.blobId) {
      BlobThereIff(w, uploads, l.blobId);
      var i :| 0 <= i < |s.layers| && s.layers[i] == l;
      assert Uploads(w, uploads[i], l.blobId);
    }
    AcceptableSessionPublishes(w, id, s, uploads, r);
    BlobThereIff(w, uploads, s.manifestId);
    assert forall i | 0 <= i < |uploads| :: s.layers[i] in s.layers;
  }

  // ---- the manifest a consumer downloads ----

  ghost predicate StoredSound(w: World, b: Blobs) {
    forall id | id in b.stored :: w.f.hash(b.stored[id]) == id
  }

  lemma {:induction false} StoredUnderHash(w: World, acts: seq<Action>)
    ensures StoredSound(w, Run(w, EMPTY, acts).blobs)
  {
    if acts != [] {
      var front := acts[..|acts| - 1];
      StoredUnderHash(w, front);
      StepStored(w, Run(w, EMPTY, front), acts[|acts| - 1]);
    }
  }

  lemma StepStored(w: World, sys: Sys, act: Action)
    requires StoredSound(w, sys.blobs)
    ensures StoredSound(w, Step(w, sys, act).blobs)
  {
  }

  /**
   * begin never compares the manifest it is sent with the id it is to be stored under. What a
   * consumer downloads is the accepted manifest exactly when they match; if the sizes fit too,
   * the record then covers every layer the consumer reads in it.
   */
  lemma DownloadedManifestIff(w: World, acts: seq<Action>, key: Key)
    requires CollisionFree(w.f) && GetVersion(Run(w, EMPTY, acts).tables, key).Success?
    requires var sys := Run(w, EMPTY, acts); key in sys.published && sys.published[key].manifestId in sys.blobs.stored
    ensures var sys := Run(w, EMPTY, acts);
            var s, bytes := sys.published[key], sys.blobs.stored[sys.published[key].manifestId];
            && (bytes == s.manifestBytes <==> w.f.hash(s.manifestBytes) == s.manifestId)
            && (bytes == s.manifestBytes && AllFit(s.layers) ==>
                w.f.Parse(bytes).Some? && Covers(GetVersion(sys.tables, key).value, w.f.Parse(bytes).value))
  {
    StoredUnderHash(w, acts);
    VisibleIsCompleteIff(w, acts, key);
    var sys := Run(w, EMPTY, acts);
    var s := sys.published[key];
    if w.f.hash(s.manifestBytes) == s.manifestId {
      NoCollision(w.f, sys.blobs.stored[s.manifestId], s.manifestBytes);
    }
  }

  /** And they need not: any content can end up under the id of a session that declared it. */
  lemma OtherManifestPublished(w: World, id: string, s: Session, other: Bytes, r: Request)
    requires BeginError(w.f, s).None? && s.layers == [] && w.f.hash(other) == s.manifestId
    ensures var sys := Run(w, EMPTY, PublishRun(id, s, [Upload(s.manifestId, other)], r));
            && PublishedAs(sys, s)
            && s.manifestId in sys.blobs.stored && sys.blobs.stored[s.manifestId] == other
  {
    var uploads := [Upload(s.manifestId, other)];
    assert uploads[..0] == [];
    AcceptableSessionPublishes(w, id, s, uploads, r);
  }

  // ---- once only ----

  /** The step that publishes a version is the one that makes it visible. */
  lemma StepPublishes(w: World, sys: Sys, act: Action, key: Key)
    requires Consistent(w, sys)
    ensures var next := Step(w, sys, act);
            && (Publishes(w, sys, act, key, false) <==> key !in sys.tables.versions && key in next.tables.versions)
            && (Publishes(w, sys, act, key, true) <==>
                key !in sys.tables.versions && key in next.tables.versions && key in next.published
                && AllFit(next.published[key].layers))
  {
    if Writes(sys, act) {
      var p := PhaseOf(sys, act.request);
      assert RequestSound(w, sys, act.request);
      WriteShows(w, sys, p.id, p.session);
    } else {
      OnlyWritesPublish(w, sys, act);
    }
  }

  /** Visible, and whole. */
  ghost predicate VisibleWhole(sys: Sys, key: Key) {
    key in sys.tables.versions && key in sys.published && AllFit(sys.published[key].layers)
  }

  lemma WholeStays(w: World, sys: Sys, act: Action, key: Key)
    requires Consistent(w, sys) && key in sys.tables.versions
    ensures key in Step(w, sys, act).tables.versions
    ensures VisibleWhole(Step(w, sys, act), key) <==> VisibleWhole(sys, key)
  {
    StepMonotone(w, sys, act, key);
    StepVersions(w, sys, act, key);
    assert VersionSound(w, sys, key) && VersionSound(w, Step(w, sys, act), key);
  }

  /**
   * In every run a version becomes visible at most once, and it is visible exactly when it did;
   * the client was answered with success exactly when, besides, every declared size fits.
   */
  lemma {:induction false} PublishedOnce(w: World, acts: seq<Action>, key: Key)
    ensures var sys := Run(w, EMPTY, acts);
            && Publications(w, EMPTY, acts, key, false) == (if key in sys.tables.versions then 1 else 0)
            && Publications(w, EMPTY, acts, key, true) == (if VisibleWhole(sys, key) then 1 else 0)
  {
    if acts != [] {
      var front, last := acts[..|acts| - 1], acts[|acts| - 1];
      PublishedOnce(w, front, key);
      RunConsistent(w, EMPTY, front);
      var sys := Run(w, EMPTY, front);
      StepPublishes(w, sys, last, key);
      if key in sys.tables.versions {
        WholeStays(w, sys, last, key);
      }
    }
  }
}
