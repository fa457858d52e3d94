/** What one archive entry does to the tree, told from its path, kind and mode. */
module LayerEntries {
  import opened Wrappers
  import opened LayerTree
  import opened LayerOverlay
  import opened LayerRefinement

  // ---- reading an entry ----

  /** The path the pieces name: all of them in order, but for empty ones and ".". */
  function Named(pieces: seq<string>): Path {
    if pieces == [] then []
    else
      var last := pieces[|pieces| - 1];
      Named(pieces[..|pieces| - 1]) + if last == "" || last == "." then [] else [last]
  }

  lemma {:induction false} NamedIsClean(pieces: seq<string>)
    ensures Named(pieces) == Clean(pieces)
  {
    if pieces != [] {
      var front, last := pieces[..|pieces| - 1], pieces[|pieces| - 1];
      assert pieces == front + [last];
      CleanAppend(front, [last]);
      NamedIsClean(front);
    }
  }

  /** An absolute path, or one with a ".." in it. */
  predicate Unsafe(e: Entry) {
    e.path.Some? && ((|e.path.value| >= 2 && e.path.value[0] == "") || ".." in e.path.value)
  }

  /** The path of the entry below the target. */
  function Place(e: Entry): Option<Path> {
    if e.path.None? || Unsafe(e) then None else Some(Named(e.path.value))
  }

  predicate IsWhiteoutName(name: string) {
    |name| >= 4 && name[..4] == ".wh."
  }

  predicate IsWhiteout(e: Entry) {
    match Place(e) case None => false case Some(p) => p != [] && IsWhiteoutName(p[|p| - 1])
  }

  /** The node the entry puts at its place. */
  function Written(e: Entry): Option<Node> {
    if Place(e).None? || IsWhiteout(e) then None
    else
      var leaf := Place(e).value != [];
      match e.kind
      case Regular(content) =>
        if leaf then Some(File(content, (if e.mode.Some? then e.mode.value else 0x1a4) % 0x1000)) else None
      case Directory => Some(Dir(Some((if e.mode.Some? then e.mode.value else 0x1ed) % 0x1000)))
      case Symlink(to) => if leaf && to.Some? then Some(Link(to.value)) else None
      case Other => None
  }

  /** What the whiteout ".wh.x" takes away: x in the same directory. */
  function Victim(e: Entry): Option<Path> {
    if !IsWhiteout(e) then None
    else
      var p := Place(e).value;
      var last := p[|p| - 1];
      if last == ".wh..wh..opq" || last[4..] in ["", ".", ".."] then None else Some(p[..|p| - 1] + [last[4..]])
  }

  /** The directory whose opaque marker the entry is, or in which it is something else than a whiteout. */
  function Met(e: Entry): Option<Path> {
    if Place(e).None? then None
    else
      var p := Place(e).value;
      if p == [] then Some([])
      else if IsWhiteout(e) && p[|p| - 1] != ".wh..wh..opq" then None
      else Some(p[..|p| - 1])
  }

  /** The first pass takes the entry for the marker of d: the text before the last name, as written. */
  ghost predicate MarkerOf(e: Entry, d: Path) {
    e.path.Some? && exists n :: MarkerAt(e.path.value, n, d)
  }

  /** Piece n is the marker, with only slashes behind it; a leading "." or root before it stays. */
  predicate MarkerAt(pieces: seq<string>, n: int, d: Path) {
    && 0 <= n < |pieces| && pieces[n] == ".wh..wh..opq" && (forall m | n < m < |pieces| :: pieces[m] == "")
    && d == (if n >= 2 && pieces[0] == "" then ["/"] else if n >= 1 && pieces[0] == "." then ["."] else [])
            + Named(pieces[..n])
  }

  // ---- what the program makes of an entry ----

  lemma EffectSpelled(e: Entry)
    ensures Place(e).None? ==> EffectOf(e) == Reject(if e.path.None? then NonUtf8Path else UnsafePath)
    ensures Place(e).Some? ==>
        (EffectOf(e) == if Written(e).Some? then Put(Place(e).value, Written(e).value)
                        else if Victim(e).Some? then Erase(Victim(e).value)
                        else if !IsWhiteout(e) then if e.kind.Other? then Ignore(Met(e).value) else Reject(Io)
                        else if Met(e).Some? then ClearDir(Met(e).value)
                        else Reject(OutsideModel))
  {
    if Place(e).Some? {
      NamedIsClean(e.path.value);
      if IsWhiteout(e) {
        WhiteoutSpelled(e);
      } else {
        PutSpelled(e);
      }
    }
  }

  lemma NamesClassified(name: string)
    ensures Classify(name) == if !IsWhiteoutName(name) then NoWhiteout
                              else if name == ".wh..wh..opq" then Opaque
                              else Remove(name[4..])
  {
    WhiteoutNames(name, if IsWhiteoutName(name) then name[4..] else "");
  }

  lemma WhiteoutSpelled(e: Entry)
    requires IsWhiteout(e) && Place(e).value == Clean(e.path.value)
    ensures EffectOf(e) == if Victim(e).Some? then Erase(Victim(e).value)
                           else if Met(e).Some? then ClearDir(Met(e).value)
                           else Reject(OutsideModel)
  {
    var p := Place(e).value;
    NamesClassified(p[|p| - 1]);
  }

  lemma PutSpelled(e: Entry)
    requires Place(e).Some? && !IsWhiteout(e) && Place(e).value == Clean(e.path.value)
    ensures EffectOf(e) == if Written(e).Some? then Put(Place(e).value, Written(e).value)
                           else if e.kind.Other? then Ignore(Met(e).value)
                           else Reject(Io)
  {
    var p := Place(e).value;
    assert EffectOf(e) == PutEffect(p, e) by {
      if p != [] {
        NamesClassified(p[|p| - 1]);
      }
    }
    NodeSpelled(e, p);
  }

  lemma NodeSpelled(e: Entry, p: Path)
    requires Place(e) == Some(p) && !IsWhiteout(e)
    ensures PutEffect(p, e) == if Written(e).Some? then Put(p, Written(e).value)
                               else if e.kind.Other? then Ignore(Met(e).value)
                               else Reject(Io)
  {
  }

  lemma TriggerSpelled(e: Entry)
    requires !EffectOf(e).Reject?
    ensures Trigger(EffectOf(e)) == Met(e)
  {
    EffectSpelled(e);
  }

  lemma {:induction false} TrimSpelled(pieces: seq<string>)
    ensures var trimmed := TrimEnd(pieces);
            && trimmed <= pieces && (forall m | |trimmed| <= m < |pieces| :: pieces[m] == "")
            && (trimmed != [] ==> trimmed[|trimmed| - 1] != "")
  {
    if pieces != [] && pieces[|pieces| - 1] == "" {
      TrimSpelled(pieces[..|pieces| - 1]);
    }
  }

  lemma MarkerSpelled(e: Entry, d: Path)
    ensures OpaqueKey(e) == Some(d) <==> MarkerOf(e, d)
  {
    if e.path.Some? {
      var pieces := e.path.value;
      var trimmed := TrimEnd(pieces);
      TrimSpelled(pieces);
      var n := |trimmed| - 1;
      assert forall m | MarkerAt(pieces, m, d) :: m == n;
      if n >= 0 && trimmed[n] == OPAQUE_NAME {
        assert trimmed[..n] == pieces[..n];
        NamedIsClean(pieces[..n]);
        assert [] + Named(pieces[..n]) == Named(pieces[..n]);
        assert OpaqueKey(e) == Some(d) <==> MarkerAt(pieces, n, d);
      }
    }
  }

  lemma {:induction false} MarkersSpelled(entries: seq<Entry>, d: Path)
    ensures d in CollectedOpaques(entries) <==> exists m :: m in entries && MarkerOf(m, d)
  {
    CollectedMembers(entries, d);
    forall m | m in entries ensures OpaqueKey(m) == Some(d) <==> MarkerOf(m, d) { MarkerSpelled(m, d); }
  }

  // ---- a run, effect by effect ----

  /** What effect k makes of the node at q. */
  ghost predicate EffectMoves(opaques: set<Path>, es: seq<Effect>, q: Path, nodes: seq<Option<Node>>, k: int) {
    && 0 <= k < |es| && k + 1 < |nodes|
    && nodes[k + 1] == if es[k].Put? && es[k].path == q then Some(es[k].node)
                       else if Wipes(opaques, Triggered(es[..k]), es[k], q) then None
                       else if nodes[k].Some? then nodes[k]
                       else if es[k].Put? && AtOrBelow(es[k].path, q) then Some(Dir(None))
                       else None
  }

  lemma EffectAtPath(opaques: set<Path>, s: Progress, e: Effect, q: Path)
    requires PrefixClosed(s.tree) && WellFormed(e) && ApplyEffect(opaques, s, e).Success?
    ensures NodeAt(ApplyEffect(opaques, s, e).value.tree, q) ==
            if e.Put? && e.path == q then Some(e.node)
            else if Wipes(opaques, s.cleared, e, q) then None
            else if q in s.tree then Some(s.tree[q])
            else if e.Put? && AtOrBelow(e.path, q) then Some(Dir(None))
            else None
  {
    match e
    case Erase(v) => EraseRemoves(s.tree, v);
    case ClearDir(d) =>
    case Ignore(d) =>
    case Put(p, node) =>
      RemoveChildrenClosed(s.tree, Parent(p));
      MakeDirsAt(ClearOnce(opaques, s, Parent(p)).value.tree, if node.Dir? then p else Parent(p), q);
      assert AtOrBelow(q, p) <==> q == p || Below(q, p);
      assert Below(q, Parent(p)) && AtOrBelow(p, q) ==> q == p;
  }

  lemma {:induction false} EffectHistory(opaques: set<Path>, s: Progress, es: seq<Effect>, q: Path)
      returns (nodes: seq<Option<Node>>)
    requires PrefixClosed(s.tree) && s.cleared == {} && ApplyEffects(opaques, s, es).Success?
    requires forall e | e in es :: WellFormed(e)
    ensures |nodes| == |es| + 1 && forall k | 0 <= k < |es| :: EffectMoves(opaques, es, q, nodes, k)
    ensures nodes[0] == NodeAt(s.tree, q) && nodes[|es|] == NodeAt(ApplyEffects(opaques, s, es).value.tree, q)
  {
    if es == [] {
      nodes := [NodeAt(s.tree, q)];
    } else {
      var n := |es| - 1;
      assert forall e | e in es[..n] :: e in es;
      RunClosed(opaques, s, es[..n]);
      EffectAtPath(opaques, ApplyEffects(opaques, s, es[..n]).value, es[n], q);
      var before := EffectHistory(opaques, s, es[..n], q);
      nodes := before + [NodeAt(ApplyEffects(opaques, s, es).value.tree, q)];
      forall k | 0 <= k < n ensures EffectMoves(opaques, es, q, nodes, k) {
        assert EffectMoves(opaques, es[..n], q, before, k) && es[..n][..k] == es[..k];
      }
      assert EffectMoves(opaques, es, q, nodes, n);
    }
  }

  lemma {:induction false} NoneRejected(opaques: set<Path>, s: Progress, es: seq<Effect>)
    requires ApplyEffects(opaques, s, es).Success?
    ensures forall e | e in es :: !e.Reject?
  {
    if es != [] {
      NoneRejected(opaques, s, es[..|es| - 1]);
      assert es == es[..|es| - 1] + [es[|es| - 1]];
    }
  }

  // ---- a run, entry by entry ----

  predicate Meets(entries: seq<Entry>, i: int, d: Path)
    requires 0 <= i < |entries|
  {
    Met(entries[i]) == Some(d)
  }

  /** Some marker names the directory entry j meets, and no earlier entry meets it: what is in it goes now. */
  ghost predicate Clears(entries: seq<Entry>, j: int)
    requires 0 <= j < |entries|
  {
    && Met(entries[j]).Some?
    && (forall i | 0 <= i < j :: !Meets(entries, i, Met(entries[j]).value))
    && exists m :: m in entries && MarkerOf(m, Met(entries[j]).value)
  }

  lemma TriggeredSpelled(entries: seq<Entry>, n: nat, d: Path)
    requires n <= |entries| && forall i | 0 <= i < n :: !EffectOf(entries[i]).Reject?
    ensures d in Triggered(Effects(entries)[..n]) <==> exists i :: 0 <= i < n && Meets(entries, i, d)
  {
    var es := Effects(entries)[..n];
    forall i | 0 <= i < n ensures Trigger(es[i]) == Met(entries[i]) {
      TriggerSpelled(entries[i]);
    }
    if d in Triggered(es) {
      var e :| e in es && Trigger(e) == Some(d);
      var i :| 0 <= i < n && es[i] == e;
      assert Meets(entries, i, d);
    }
    if i :| 0 <= i < n && Meets(entries, i, d) {
      assert es[i] in es && Trigger(es[i]) == Some(d);
    }
  }

  lemma ClearsSpelled(entries: seq<Entry>, n: nat)
    requires n < |entries| && forall i | 0 <= i <= n :: !EffectOf(entries[i]).Reject?
    ensures var trigger := Trigger(EffectOf(entries[n]));
            && trigger == Met(entries[n])
            && (Clears(entries, n) <==>
                trigger.Some? && trigger.value in CollectedOpaques(entries) - Triggered(Effects(entries)[..n]))
  {
    TriggerSpelled(entries[n]);
    if Met(entries[n]).Some? {
      TriggeredSpelled(entries, n, Met(entries[n]).value);
      MarkersSpelled(entries, Met(entries[n]).value);
    }
  }

  // ---- one entry ----

  predicate Sets(e: Entry, q: Path) {
    Place(e) == Some(q) && Written(e).Some?
  }

  /** The entry takes away what stands at q: a whiteout, a file or link above it, or a clearing above it. */
  ghost predicate Covers(entries: seq<Entry>, j: int, q: Path)
    requires 0 <= j < |entries|
  {
    var e := entries[j];
    || (Victim(e).Some? && AtOrBelow(q, Victim(e).value))
    || (Written(e).Some? && !Written(e).value.Dir? && Below(q, Place(e).value))
    || (Clears(entries, j) && Below(q, Met(e).value))
  }

  ghost predicate Touched(entries: seq<Entry>, j: int, q: Path)
    requires 0 <= j < |entries|
  {
    Sets(entries[j], q) || Covers(entries, j, q)
  }

  /** The entry writes at q or below it. */
  predicate Needed(entries: seq<Entry>, j: int, q: Path)
    requires 0 <= j < |entries|
  {
    Written(entries[j]).Some? && AtOrBelow(Place(entries[j]).value, q)
  }

  /** What entry k makes of the node at q. */
  ghost predicate Moves(entries: seq<Entry>, q: Path, nodes: seq<Option<Node>>, k: int) {
    && 0 <= k < |entries| && k + 1 < |nodes|
    && nodes[k + 1] == if Sets(entries[k], q) then Written(entries[k])
                       else if Covers(entries, k, q) then None
                       else if nodes[k].Some? then nodes[k]
                       else if Needed(entries, k, q) then Some(Dir(None))
                       else None
  }

  /** The nodes at q before the first entry and after each. */
  ghost predicate History(entries: seq<Entry>, q: Path, nodes: seq<Option<Node>>) {
    |nodes| == |entries| + 1 && forall k | 0 <= k < |entries| :: Moves(entries, q, nodes, k)
  }

  lemma MoveSpelled(entries: seq<Entry>, q: Path, nodes: seq<Option<Node>>, k: nat)
    requires k < |entries| && forall i | 0 <= i <= k :: !EffectOf(entries[i]).Reject?
    requires EffectMoves(CollectedOpaques(entries), Effects(entries), q, nodes, k)
    ensures Moves(entries, q, nodes, k)
  {
    EffectSpelled(entries[k]);
    ClearsSpelled(entries, k);
  }

  lemma {:induction false} HistoryOf(t: Tree, entries: seq<Entry>, q: Path) returns (nodes: seq<Option<Node>>)
    requires PrefixClosed(t) && ApplyArchive(t, entries).Success?
    ensures History(entries, q, nodes)
    ensures nodes[0] == if q in t then Some(t[q]) else if q == [] then Some(Dir(None)) else None
    ensures nodes[|entries|] == NodeAt(ApplyArchive(t, entries).value.tree, q)
  {
    var opaques, start, es := CollectedOpaques(entries), Progress(MakeDirs(t, []), {}, 0, 0), Effects(entries);
    MakeDirsClosed(t, []);
    MakeDirsAt(t, [], q);
    EffectsWellFormed(entries);
    NoneRejected(opaques, start, es);
    nodes := EffectHistory(opaques, start, es, q);
    forall k | 0 <= k < |entries| ensures Moves(entries, q, nodes, k) {
      forall i | 0 <= i <= k ensures !EffectOf(entries[i]).Reject? { assert es[i] in es; }
      assert EffectMoves(opaques, es, q, nodes, k);
      MoveSpelled(entries, q, nodes, k);
    }
  }

  // ---- the whole archive ----

  /** From entry i to entry m none sets or covers q. */
  ghost predicate LeftAlone(entries: seq<Entry>, i: int, m: int, q: Path)
    requires 0 <= i && m <= |entries|
  {
    forall j | i <= j < m :: !Touched(entries, j, q)
  }

  predicate NeededBetween(entries: seq<Entry>, i: int, m: int, q: Path)
    requires 0 <= i && m <= |entries|
  {
    exists j :: i <= j < m && Needed(entries, j, q)
  }

  lemma {:induction false} AloneFrom(entries: seq<Entry>, q: Path, nodes: seq<Option<Node>>, i: nat, m: nat)
    requires i <= m <= |entries| && History(entries, q, nodes) && LeftAlone(entries, i, m, q)
    ensures nodes[m] ==
            if nodes[i].Some? then nodes[i] else if NeededBetween(entries, i, m, q) then Some(Dir(None)) else None
    decreases m
  {
    if i < m {
      AloneFrom(entries, q, nodes, i, m - 1);
      assert !Touched(entries, m - 1, q) && Moves(entries, q, nodes, m - 1);
    }
  }

  /** A node stays as its entry wrote it when no later entry sets or covers the path. */
  lemma {:induction false} WrittenStays(t: Tree, entries: seq<Entry>, j: nat, q: Path)
    requires PrefixClosed(t) && ApplyArchive(t, entries).Success?
    requires j < |entries| && Sets(entries[j], q) && LeftAlone(entries, j + 1, |entries|, q)
    ensures NodeAt(ApplyArchive(t, entries).value.tree, q) == Written(entries[j])
  {
    var nodes := HistoryOf(t, entries, q);
    assert Moves(entries, q, nodes, j);
    AloneFrom(entries, q, nodes, j + 1, |entries|);
  }

  /** Where the last entry to touch a path covers it, at most a directory is left, for a later entry's sake. */
  lemma {:induction false} CoveredGoes(t: Tree, entries: seq<Entry>, j: nat, q: Path)
    requires PrefixClosed(t) && ApplyArchive(t, entries).Success?
    requires j < |entries| && Covers(entries, j, q) && !Sets(entries[j], q) && LeftAlone(entries, j + 1, |entries|, q)
    ensures NodeAt(ApplyArchive(t, entries).value.tree, q) ==
            if NeededBetween(entries, j + 1, |entries|, q) then Some(Dir(None)) else None
  {
    var nodes := HistoryOf(t, entries, q);
    assert Moves(entries, q, nodes, j);
    AloneFrom(entries, q, nodes, j + 1, |entries|);
  }

  /** Where no entry sets or covers a path, the tree keeps what it had, or gets a directory for what is below. */
  lemma {:induction false} UntouchedStays(t: Tree, entries: seq<Entry>, q: Path)
    requires PrefixClosed(t) && ApplyArchive(t, entries).Success? && LeftAlone(entries, 0, |entries|, q)
    ensures NodeAt(ApplyArchive(t, entries).value.tree, q) ==
            if q in t then Some(t[q])
            else if q == [] || NeededBetween(entries, 0, |entries|, q) then Some(Dir(None))
            else None
  {
    var nodes := HistoryOf(t, entries, q);
    AloneFrom(entries, q, nodes, 0, |entries|);
  }

  lemma {:induction false} LastTrue(bs: seq<bool>) returns (j: nat)
    requires true in bs
    ensures j < |bs| && bs[j] && true !in bs[j + 1..]
  {
    var n := |bs| - 1;
    if bs[n] {
      j := n;
    } else {
      assert bs == bs[..n] + [bs[n]];
      j := LastTrue(bs[..n]);
      assert bs[j + 1..] == bs[..n][j + 1..] + [bs[n]];
    }
  }

  lemma {:induction false} LastToTouch(entries: seq<Entry>, q: Path) returns (j: nat)
    requires !LeftAlone(entries, 0, |entries|, q)
    ensures j < |entries| && Touched(entries, j, q) && LeftAlone(entries, j + 1, |entries|, q)
  {
    var bs := seq(|entries|, i requires 0 <= i < |entries| => Touched(entries, i, q));
    var i :| 0 <= i < |entries| && Touched(entries, i, q);
    assert bs[i];
    j := LastTrue(bs);
    forall k | j < k < |entries| ensures !Touched(entries, k, q) {
      assert bs[k] == bs[j + 1..][k - j - 1];
    }
  }

  /** Some entry writes the node at q, and none after it sets or covers q. */
  ghost predicate Supplies(entries: seq<Entry>, q: Path, node: Node) {
    exists j :: 0 <= j < |entries| && Sets(entries[j], q) && Written(entries[j]) == Some(node)
                && LeftAlone(entries, j + 1, |entries|, q)
  }

  /** A file or link is there afterwards when the archive supplies it, or was there and is left alone. */
  lemma {:induction false} OneArchiveOver(t: Tree, entries: seq<Entry>, q: Path, node: Node)
    requires PrefixClosed(t) && ApplyArchive(t, entries).Success? && !node.Dir?
    ensures NodeAt(ApplyArchive(t, entries).value.tree, q) == Some(node) <==>
            Supplies(entries, q, node) || (LeftAlone(entries, 0, |entries|, q) && NodeAt(t, q) == Some(node))
  {
    if Supplies(entries, q, node) {
      var j :| 0 <= j < |entries| && Sets(entries[j], q) && Written(entries[j]) == Some(node)
               && LeftAlone(entries, j + 1, |entries|, q);
      WrittenStays(t, entries, j, q);
    } else if LeftAlone(entries, 0, |entries|, q) {
      UntouchedStays(t, entries, q);
    } else {
      var j := LastToTouch(entries, q);
      if Sets(entries[j], q) {
        WrittenStays(t, entries, j, q);
      } else {
        CoveredGoes(t, entries, j, q);
      }
    }
  }

  // ---- whiteouts ----

  lemma SettingNeeds(entries: seq<Entry>, j: nat, q: Path)
    requires j < |entries| && Sets(entries[j], q)
    ensures Needed(entries, j, q)
  {
    assert AtOrBelow(q, q);
  }

  lemma {:induction false} GoneStays(entries: seq<Entry>, q: Path, nodes: seq<Option<Node>>, i: nat, m: nat)
    requires i <= m <= |entries| && History(entries, q, nodes)
    requires nodes[i] == None && !NeededBetween(entries, i, m, q)
    ensures nodes[m] == None
    decreases m
  {
    if i < m {
      GoneStays(entries, q, nodes, i, m - 1);
      assert !Needed(entries, m - 1, q) && Moves(entries, q, nodes, m - 1);
      if Sets(entries[m - 1], q) {
        SettingNeeds(entries, m - 1, q);
      }
    }
  }

  lemma VictimSpelled(e: Entry, dir: Path, x: string)
    requires Place(e) == Some(dir + [".wh." + x]) && x != ".wh..opq" && !EffectOf(e).Reject?
    ensures Victim(e) == Some(dir + [x]) && Written(e) == None
  {
    var p := dir + [".wh." + x];
    EffectSpelled(e);
    assert p[..|p| - 1] == dir && p[|p| - 1] == ".wh." + x;
    assert (".wh." + x)[..4] == ".wh." && (".wh." + x)[4..] == x;
    assert ".wh..wh..opq"[4..] == ".wh..opq";
  }

  /** An entry dir/.wh.x that is no marker leaves nothing at or below dir/x, unless a later entry writes there. */
  lemma {:induction false} WhiteoutErases(t: Tree, entries: seq<Entry>, i: nat, dir: Path, x: string, q: Path)
    requires PrefixClosed(t) && ApplyArchive(t, entries).Success?
    requires i < |entries| && Place(entries[i]) == Some(dir + [".wh." + x]) && x != ".wh..opq"
    requires AtOrBelow(q, dir + [x]) && !NeededBetween(entries, i + 1, |entries|, q)
    ensures q !in ApplyArchive(t, entries).value.tree
  {
    NoneRejected(CollectedOpaques(entries), Progress(MakeDirs(t, []), {}, 0, 0), Effects(entries));
    assert Effects(entries)[i] in Effects(entries);
    VictimSpelled(entries[i], dir, x);
    var nodes := HistoryOf(t, entries, q);
    assert Moves(entries, q, nodes, i);
    GoneStays(entries, q, nodes, i + 1, |entries|);
  }

  // ---- the layer of an archive ----

  lemma EffectFrom(entries: seq<Entry>, e: Effect)
    ensures e in Effects(entries) <==> exists x :: x in entries && EffectOf(x) == e
  {
    if e in Effects(entries) {
      var i :| 0 <= i < |entries| && Effects(entries)[i] == e;
      assert entries[i] in entries;
    }
    if x :| x in entries && EffectOf(x) == e {
      var i :| 0 <= i < |entries| && entries[i] == x;
      assert Effects(entries)[i] == e;
    }
  }

  lemma MarkerPath(e: Entry, d: Path)
    ensures EffectOf(e) == ClearDir(d) <==> Place(e) == Some(d + [".wh..wh..opq"])
  {
    EffectSpelled(e);
    if Place(e).Some? && Place(e).value != [] {
      IsMarkerPath(Place(e).value, d);
    }
  }

  lemma IsMarkerPath(p: Path, d: Path)
    requires p != []
    ensures p == d + [".wh..wh..opq"] <==> p[..|p| - 1] == d && p[|p| - 1] == ".wh..wh..opq"
    ensures IsWhiteoutName(".wh..wh..opq")
  {
    assert p == p[..|p| - 1] + [p[|p| - 1]];
    assert (d + [".wh..wh..opq"])[..|d|] == d;
    assert ".wh..wh..opq"[..4] == ".wh.";
  }

  /** The layer the overlay is made from: what the entries write, white out and mark. */
  lemma LayerSpelled(entries: seq<Entry>, p: Path, node: Node)
    requires Distinct(Effects(entries))
    ensures var l := LayerOf(Effects(entries));
            && ((p in l.puts && l.puts[p] == node) <==>
                exists e :: e in entries && Place(e) == Some(p) && Written(e) == Some(node))
            && (p in l.erased <==> exists e :: e in entries && Victim(e) == Some(p))
            && (p in OpaqueDirs(Effects(entries)) <==>
                exists e :: e in entries && Place(e) == Some(p + [".wh..wh..opq"]))
  {
    PutMembers(Effects(entries), p, node);
    ErasedMembers(Effects(entries), p);
    EffectFrom(entries, Put(p, node));
    EffectFrom(entries, Erase(p));
    EffectFrom(entries, ClearDir(p));
    forall e ensures EffectOf(e) == Put(p, node) <==> Place(e) == Some(p) && Written(e) == Some(node) {
      EffectSpelled(e);
    }
    forall e ensures EffectOf(e) == Erase(p) <==> Victim(e) == Some(p) { EffectSpelled(e); }
    forall e ensures EffectOf(e) == ClearDir(p) <==> Place(e) == Some(p + [".wh..wh..opq"]) { MarkerPath(e, p); }
    assert p in OpaqueDirs(Effects(entries)) <==> ClearDir(p) in Effects(entries);
  }

  // ---- counting ----

  /** How many entries count as whiteouts: those whose name is one. */
  function Whiteouts(entries: seq<Entry>): nat {
    if entries == [] then 0
    else Whiteouts(entries[..|entries| - 1]) + if IsWhiteout(entries[|entries| - 1]) then 1 else 0
  }

  lemma CountsOf(opaques: set<Path>, s: Progress, e: Effect)
    requires ApplyEffect(opaques, s, e).Success?
    ensures var b := ApplyEffect(opaques, s, e).value;
            if e.ClearDir? || e.Erase? then b.whiteouts == s.whiteouts + 1 && b.applied == s.applied
            else b.applied == s.applied + 1 && b.whiteouts == s.whiteouts
  {
  }

  lemma {:induction false} CountUpTo(opaques: set<Path>, s: Progress, entries: seq<Entry>)
    requires ApplyEffects(opaques, s, Effects(entries)).Success?
    ensures var b := ApplyEffects(opaques, s, Effects(entries)).value;
            && b.whiteouts == s.whiteouts + Whiteouts(entries)
            && b.applied + b.whiteouts == s.applied + s.whiteouts + |entries|
  {
    if entries != [] {
      var front, last := entries[..|entries| - 1], entries[|entries| - 1];
      assert Effects(entries)[..|entries| - 1] == Effects(front);
      CountUpTo(opaques, s, front);
      EffectSpelled(last);
      CountsOf(opaques, ApplyEffects(opaques, s, Effects(front)).value, EffectOf(last));
    }
  }

  /** The result is a tree, and each entry is counted once, as a whiteout if its name is one. */
  lemma ArchiveKeepsTree(t: Tree, entries: seq<Entry>)
    requires PrefixClosed(t) && ApplyArchive(t, entries).Success?
    ensures var p := ApplyArchive(t, entries).value;
            PrefixClosed(p.tree) && p.whiteouts == Whiteouts(entries) && p.applied == |entries| - Whiteouts(entries)
  {
    var opaques, start := CollectedOpaques(entries), Progress(MakeDirs(t, []), {}, 0, 0);
    MakeDirsClosed(t, []);
    EffectsWellFormed(entries);
    RunClosed(opaques, start, Effects(entries));
    CountUpTo(opaques, start, entries);
  }

  // ---- which entries can be applied ----

  /** On the way to the directory, or in its place, is something else. */
  ghost predicate Blocked(t: Tree, dir: Path) {
    exists q :: q in t && AtOrBelow(dir, q) && !t[q].Dir?
  }

  ghost predicate LeadsThroughLink(t: Tree, dir: Path) {
    exists q :: q in t && AtOrBelow(dir, q) && t[q].Link?
  }

  lemma {:induction false} StatusSpelled(t: Tree, dir: Path)
    requires PrefixClosed(t)
    ensures StatusError(DirStatus(t, dir)).Some? <==> Blocked(t, dir)
    ensures DirStatus(t, dir).ThroughLink? <==> LeadsThroughLink(t, dir)
    decreases |dir|
  {
    if dir != [] {
      var up := Parent(dir);
      StatusSpelled(t, up);
      assert forall q :: AtOrBelow(dir, q) <==> q == dir || AtOrBelow(up, q);
      if dir in t {
        DirsAreDirs(t, up);
      }
    }
  }

  /** The state after the first n entries. */
  function After(t: Tree, entries: seq<Entry>, n: nat): Result<Progress, LayerError>
    requires n <= |entries|
  {
    match StatusError(DirStatus(t, []))
    case Some(error) => Failure(error)
    case None =>
      ApplyEffects(CollectedOpaques(entries), Progress(MakeDirs(t, []), {}, 0, 0), Effects(entries)[..n])
  }

  lemma {:induction false} AfterAll(t: Tree, entries: seq<Entry>)
    ensures After(t, entries, |entries|) == ApplyArchive(t, entries)
  {
    assert Effects(entries)[..|entries|] == Effects(entries);
  }

  lemma {:induction false} AfterStep(t: Tree, entries: seq<Entry>, n: nat)
    requires n < |entries|
    ensures After(t, entries, n).Success? ==>
            After(t, entries, n + 1) ==
              ApplyEffect(CollectedOpaques(entries), After(t, entries, n).value, EffectOf(entries[n]))
    ensures After(t, entries, n).Failure? ==> After(t, entries, n + 1) == After(t, entries, n)
  {
    PrefixStep(CollectedOpaques(entries), Progress(MakeDirs(t, []), {}, 0, 0), Effects(entries), n);
  }

  lemma {:induction false} PrefixStep(opaques: set<Path>, s: Progress, es: seq<Effect>, n: nat)
    requires n < |es|
    ensures ApplyEffects(opaques, s, es[..n + 1]) ==
              match ApplyEffects(opaques, s, es[..n])
              case Failure(error) => Failure(error)
              case Success(before) => ApplyEffect(opaques, before, es[n])
  {
    var more := es[..n + 1];
    assert more[..|more| - 1] == es[..n];
  }

  lemma {:induction false} AfterPrefix(t: Tree, entries: seq<Entry>, n: nat, m: nat)
    requires n <= m <= |entries|
    ensures After(t, entries, n).Failure? ==> After(t, entries, m) == After(t, entries, n)
    decreases m
  {
    if n < m {
      AfterPrefix(t, entries, n, m - 1);
      AfterStep(t, entries, m - 1);
    }
  }

  /** On this tree nothing but directories stands in the way of entry n. */
  ghost predicate Applies(entries: seq<Entry>, n: int, a: Tree)
    requires 0 <= n < |entries|
  {
    var e := entries[n];
    && Place(e).Some?
    && (Clears(entries, n) ==> !Blocked(a, Met(e).value))
    && if IsWhiteout(e) then
         Met(e).Some? || (Victim(e).Some? && !LeadsThroughLink(a, Parent(Victim(e).value)))
       else
         || e.kind.Other?
         || (Written(e).Some? && !Blocked(a, Met(e).value)
             && (e.kind.Directory? && Place(e).value in a && !a[Place(e).value].Dir? ==> Clears(entries, n)))
  }

  lemma {:induction false} ClearsNow(t: Tree, entries: seq<Entry>, n: nat)
    requires PrefixClosed(t) && n < |entries| && After(t, entries, n).Success?
    ensures var s, e := After(t, entries, n).value, EffectOf(entries[n]);
            && PrefixClosed(s.tree)
            && (!e.Reject? ==>
                && Trigger(e) == Met(entries[n])
                && (Clears(entries, n) <==>
                    Trigger(e).Some? && Trigger(e).value in CollectedOpaques(entries) - s.cleared))
  {
    var opaques, start, es := CollectedOpaques(entries), Progress(MakeDirs(t, []), {}, 0, 0), Effects(entries)[..n];
    MakeDirsClosed(t, []);
    EffectsWellFormed(entries);
    RunClosed(opaques, start, es);
    NoneRejected(opaques, start, es);
    if !EffectOf(entries[n]).Reject? {
      forall i | 0 <= i <= n ensures !EffectOf(entries[i]).Reject? {
        assert i < n ==> es[i] in es;
      }
      ClearsSpelled(entries, n);
    }
  }

  lemma {:induction false} UnsafeEnds(t: Tree, entries: seq<Entry>, n: nat)
    requires n < |entries| && After(t, entries, n).Success? && Place(entries[n]).None?
    ensures ApplyArchive(t, entries) == Failure(if entries[n].path.None? then NonUtf8Path else UnsafePath)
  {
    EffectSpelled(entries[n]);
    AfterStep(t, entries, n);
    AfterPrefix(t, entries, n + 1, |entries|);
    AfterAll(t, entries);
  }

  /**
   * The next entry is applied exactly when its path is safe and nothing but directories stands in
   * its way; an absolute path or a ".." ends the whole archive with UnsafePath.
   */
  lemma {:induction false} EntryAppliesIff(t: Tree, entries: seq<Entry>, n: nat)
    requires PrefixClosed(t) && n < |entries| && After(t, entries, n).Success?
    ensures After(t, entries, n + 1).Success? <==> Applies(entries, n, After(t, entries, n).value.tree)
    ensures Unsafe(entries[n]) ==> ApplyArchive(t, entries) == Failure(UnsafePath)
    ensures entries[n].path.None? ==> ApplyArchive(t, entries) == Failure(NonUtf8Path)
  {
    if Place(entries[n]).None? {
      UnsafeEnds(t, entries, n);
    }
    ClearsNow(t, entries, n);
    AppliesOn(entries, n, CollectedOpaques(entries), After(t, entries, n).value);
    AfterStep(t, entries, n);
  }

  lemma {:induction false} AppliesOn(entries: seq<Entry>, n: nat, opaques: set<Path>, s: Progress)
    requires n < |entries| && PrefixClosed(s.tree)
    requires var e := EffectOf(entries[n]);
             !e.Reject? ==> Trigger(e) == Met(entries[n])
                            && (Clears(entries, n) <==> Trigger(e).Some? && Trigger(e).value in opaques - s.cleared)
    ensures ApplyEffect(opaques, s, EffectOf(entries[n])).Success? <==> Applies(entries, n, s.tree)
  {
    UnhinderedSpelled(entries, n, opaques, s);
    EffectApplies(opaques, s, EffectOf(entries[n]));
  }

  /** The same for the effect. */
  ghost predicate Unhindered(opaques: set<Path>, s: Progress, e: Effect) {
    && (Trigger(e).Some? && Trigger(e).value in opaques - s.cleared ==> !Blocked(s.tree, Trigger(e).value))
    && match e
       case Reject(_) => false
       case ClearDir(_) => true
       case Ignore(_) => true
       case Erase(v) => !LeadsThroughLink(s.tree, Parent(v))
       case Put(p, node) =>
         && !Blocked(s.tree, Parent(p))
         && (node.Dir? && p in s.tree && !s.tree[p].Dir? ==> p != [] && Parent(p) in opaques - s.cleared)
  }

  lemma UnhinderedSpelled(entries: seq<Entry>, n: nat, opaques: set<Path>, s: Progress)
    requires n < |entries|
    requires var e := EffectOf(entries[n]);
             !e.Reject? ==> Trigger(e) == Met(entries[n])
                            && (Clears(entries, n) <==> Trigger(e).Some? && Trigger(e).value in opaques - s.cleared)
    ensures Unhindered(opaques, s, EffectOf(entries[n])) <==> Applies(entries, n, s.tree)
  {
    EffectSpelled(entries[n]);
  }

  lemma EffectApplies(opaques: set<Path>, s: Progress, e: Effect)
    requires PrefixClosed(s.tree)
    ensures ApplyEffect(opaques, s, e).Success? <==> Unhindered(opaques, s, e)
  {
    match e
    case Reject(_) =>
    case ClearDir(d) => StatusSpelled(s.tree, d);
    case Ignore(d) => StatusSpelled(s.tree, d);
    case Erase(v) => StatusSpelled(s.tree, Parent(v));
    case Put(p, node) =>
      var c := RemoveChildren(s.tree, Parent(p));
      RemoveChildrenClosed(s.tree, Parent(p));
      StatusSpelled(s.tree, Parent(p));
      StatusSpelled(c, Parent(p));
      StatusSpelled(s.tree, p);
      StatusSpelled(c, p);
      BlockedAt(s.tree, p);
      BlockedAt(c, p);
  }

  lemma BlockedAt(t: Tree, p: Path)
    ensures Blocked(t, p) <==> Blocked(t, Parent(p)) || (p in t && !t[p].Dir?)
  {
    assert forall q :: AtOrBelow(p, q) <==> q == p || AtOrBelow(Parent(p), q);
  }
}
