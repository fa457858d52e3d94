/** The two passes over an archive as the program runs them, changing the target in place. */
module LayerApply {
  import opened Wrappers
  import opened LayerTree
  import opened LayerOverlay
  import opened LayerRefinement

  method CollectOpaques(entries: seq<Entry>) returns (out: set<Path>)
    ensures out == CollectedOpaques(entries)
  {
    out := {};
    for i := 0 to |entries|
      invariant out == CollectedOpaques(entries[..i])
    {
      assert entries[..i + 1][..i] == entries[..i];
      var key := OpaqueKey(entries[i]);
      if key.Some? {
        out := out + {key.value};
      }
    }
    assert entries[..|entries|] == entries;
  }

  /** The tree without these paths and everything below them. */
  ghost function Without(t: Tree, cs: set<Path>): Tree {
    map q | q in t && !(exists c :: c in cs && AtOrBelow(q, c)) :: t[q]
  }

  /** Without its children nothing is left below a directory. */
  lemma ChildrenGone(t: Tree, dir: Path, listed: set<Path>)
    requires PrefixClosed(t) && listed == set q | q in t && q != [] && Parent(q) == dir
    ensures Without(t, listed) == RemoveChildren(t, dir)
  {
    forall q | q in t ensures q in Without(t, listed) <==> !Below(q, dir) {
      ListedCovers(t, dir, q);
    }
  }

  lemma OneSubtreeFewer(t: Tree, listed: set<Path>, todo: set<Path>, c: Path)
    requires PrefixClosed(Without(t, listed - todo)) && c in todo && todo <= listed
    ensures RemoveSubtree(Without(t, listed - todo), c) == Without(t, listed - (todo - {c}))
    ensures PrefixClosed(Without(t, listed - (todo - {c})))
  {
    RemoveSubtreeClosed(Without(t, listed - todo), c);
    assert listed - (todo - {c}) == listed - todo + {c};
  }

  class Target {
    var tree: Tree
    var cleared: set<Path>
    var applied: nat
    var whiteouts: nat

    ghost predicate Valid()
      reads this
    {
      PrefixClosed(tree)
    }

    function Snapshot(): Progress
      reads this
    {
      Progress(tree, cleared, applied, whiteouts)
    }

    /** The outcome of a step: its error, or the state it should leave. */
    ghost predicate Reached(error: Option<LayerError>, r: Result<Progress, LayerError>)
      reads this
    {
      match r
      case Failure(e) => error == Some(e)
      case Success(s) => error == None && Snapshot() == s
    }

    constructor (tree: Tree)
      requires PrefixClosed(tree)
      ensures Valid() && Snapshot() == Progress(tree, {}, 0, 0)
    {
      this.tree, cleared, applied, whiteouts := tree, {}, 0, 0;
    }

    /** Deletes what the directory lists, one child and its subtree at a time. */
    method EmptyDir(dir: Path)
      requires Valid()
      modifies `tree
      ensures Valid() && tree == RemoveChildren(old(tree), dir)
    {
      ghost var start := tree;
      var listed := set q | q in tree && q != [] && Parent(q) == dir;
      var todo := listed;
      assert listed - todo == {} && Without(start, {}) == start;
      while todo != {}
        invariant todo <= listed
        invariant tree == Without(start, listed - todo) && PrefixClosed(tree)
        decreases todo
      {
        var c :| c in todo;
        OneSubtreeFewer(start, listed, todo, c);
        tree, todo := RemoveSubtree(tree, c), todo - {c};
      }
      assert listed - {} == listed;
      ChildrenGone(start, dir, listed);
    }

    method ClearDirOnce(dir: Path, opaques: set<Path>) returns (error: Option<LayerError>)
      requires Valid()
      modifies `tree, `cleared
      ensures Reached(error, ClearOnce(opaques, old(Snapshot()), dir))
      ensures error.None? ==> Valid()
    {
      if dir !in opaques || dir in cleared {
        return None;
      }
      cleared := cleared + {dir};
      error := StatusError(DirStatus(tree, dir));
      if error.None? {
        EmptyDir(dir);
      }
    }

    method Erase(victim: Path) returns (error: Option<LayerError>)
      requires Valid()
      modifies `tree, `whiteouts
      ensures Reached(error, ApplyEffect({}, old(Snapshot()), Effect.Erase(victim)))
      ensures error.None? ==> Valid()
    {
      match DirStatus(tree, Parent(victim)) {
        case ThroughLink => return Some(OutsideModel);
        case IsDir =>
          RemoveSubtreeClosed(tree, victim);
          tree := RemoveSubtree(tree, victim);
        case _ =>
      }
      whiteouts := whiteouts + 1;
      error := None;
    }

    method Write(path: Path, node: Node) returns (error: Option<LayerError>)
      requires Valid() && (path == [] ==> node.Dir?)
      modifies `tree
      ensures match PutNode(old(tree), path, node)
              case Failure(e) => error == Some(e)
              case Success(t) => error == None && tree == t
      ensures error.None? ==> Valid()
    {
      var dir := if node.Dir? then path else Parent(path);
      error := StatusError(DirStatus(tree, dir));
      if error.Some? {
        return;
      }
      PutNodeClosed(tree, path, node);
      tree := MakeDirs(tree, dir);
      if !node.Dir? {
        tree := RemoveSubtree(tree, path);
      }
      tree := tree[path := node];
    }

    method ApplyEntry(e: Entry, opaques: set<Path>) returns (error: Option<LayerError>)
      requires Valid()
      modifies this
      ensures Reached(error, ApplyEffect(opaques, old(Snapshot()), EffectOf(e)))
      ensures error.None? ==> Valid()
    {
      EntriesAreWellFormed(e);
      match EffectOf(e) {
        case Reject(err) =>
          return Some(err);
        case ClearDir(dir) =>
          error := ClearDirOnce(dir, opaques);
          if error.None? {
            whiteouts := whiteouts + 1;
          }
        case Erase(victim) =>
          error := Erase(victim);
        case Ignore(dir) =>
          error := ClearDirOnce(dir, opaques);
          if error.None? {
            applied := applied + 1;
          }
        case Put(path, node) =>
          error := ClearDirOnce(Parent(path), opaques);
          if error.None? {
            error := Write(path, node);
            if error.None? {
              applied := applied + 1;
            }
          }
      }
    }

    /** Both passes. On success the target holds what LayerTree.ApplyArchive says. */
    method Apply(entries: seq<Entry>) returns (error: Option<LayerError>)
      requires Valid() && cleared == {} && applied == 0 && whiteouts == 0
      modifies this
      ensures Reached(error, ApplyArchive(old(tree), entries))
      ensures error.None? ==> Valid()
    {
      var opaques := CollectOpaques(entries);
      error := StatusError(DirStatus(tree, []));
      if error.Some? {
        return;
      }
      MakeDirsClosed(tree, []);
      tree := MakeDirs(tree, []);
      ghost var start := Snapshot();
      for i := 0 to |entries|
        invariant Valid()
        invariant ApplyEffects(opaques, start, Effects(entries)[..i]) == Success(Snapshot())
      {
        assert Effects(entries)[..i + 1][..i] == Effects(entries)[..i];
        error := ApplyEntry(entries[i], opaques);
        if error.Some? {
          FailureSticks(opaques, start, Effects(entries), i + 1);
          return;
        }
      }
      assert Effects(entries)[..|entries|] == Effects(entries);
      error := None;
    }
  }

  lemma ListedCovers(t: Tree, dir: Path, q: Path)
    requires PrefixClosed(t) && q in t
    ensures (exists c :: c in t && c != [] && Parent(c) == dir && AtOrBelow(q, c)) <==> Below(q, dir)
  {
    if Below(q, dir) {
      var c := q[..|dir| + 1];
      if c != q {
        assert q[..|c|] == c;
        AncestorsAreDirs(t, q, c);
      }
      assert c in t && c != [] && Parent(c) == dir && AtOrBelow(q, c);
    }
  }

  lemma {:induction false} FailureSticks(opaques: set<Path>, s: Progress, es: seq<Effect>, n: nat)
    requires n <= |es| && ApplyEffects(opaques, s, es[..n]).Failure?
    ensures ApplyEffects(opaques, s, es) == ApplyEffects(opaques, s, es[..n])
  {
    if n == |es| {
      assert es[..n] == es;
    } else {
      var front := es[..|es| - 1];
      assert front[..n] == es[..n];
      FailureSticks(opaques, s, front, n);
    }
  }
}
