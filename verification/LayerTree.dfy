/**
 * File trees, archive entries and what applying one entry does
 * (crates/elu-layers/src/apply.rs and whiteout.rs).
 */
module LayerTree {
  import opened Wrappers
  import opened Magic

  /** Path components below the target directory; [] is the target itself. */
  type Path = seq<string>

  /** A directory made only because something below it was written has no mode of its own. */
  datatype Node = Dir(dirMode: Option<nat>) | File(content: Bytes, mode: nat) | Link(to: string)

  type Tree = map<Path, Node>

  function Parent(p: Path): Path {
    if p == [] then [] else p[..|p| - 1]
  }

  predicate AtOrBelow(q: Path, p: Path) {
    |p| <= |q| && q[..|p|] == p
  }

  predicate Below(q: Path, p: Path) {
    |p| < |q| && q[..|p|] == p
  }

  /** Every node but the target itself lies in a directory of the tree. */
  ghost predicate PrefixClosed(t: Tree) {
    forall q | q in t && q != [] :: Parent(q) in t && t[Parent(q)].Dir?
  }

  // ---- archive entries ----

  datatype EntryKind = Regular(content: Bytes) | Directory | Symlink(to: Option<string>) | Other

  /** `path` holds the pieces between slashes as written; None when it is not UTF-8. */
  datatype Entry = Entry(path: Option<seq<string>>, kind: EntryKind, mode: Option<nat>)

  datatype LayerError = NonUtf8Path | UnsafePath | Io | OutsideModel

  const OPAQUE_NAME := ".wh..wh..opq"
  const WHITEOUT_PREFIX := ".wh."

  datatype Whiteout = Opaque | Remove(name: string) | NoWhiteout

  function Classify(basename: string): Whiteout {
    if basename == OPAQUE_NAME then Opaque
    else if WHITEOUT_PREFIX <= basename then Remove(basename[|WHITEOUT_PREFIX|..])
    else NoWhiteout
  }

  function Clean(pieces: seq<string>): (p: Path)
    ensures forall s | s in p :: s != "" && s != "." && s in pieces
  {
    if pieces == [] then []
    else if pieces[0] == "" || pieces[0] == "." then Clean(pieces[1..])
    else [pieces[0]] + Clean(pieces[1..])
  }

  predicate IsAbsolute(pieces: seq<string>) {
    |pieces| >= 2 && pieces[0] == ""
  }

  function SanitizeRel(pieces: seq<string>): Result<Path, LayerError> {
    if IsAbsolute(pieces) || ".." in pieces then Failure(UnsafePath) else Success(Clean(pieces))
  }

  function TrimEnd(pieces: seq<string>): seq<string> {
    if pieces != [] && pieces[|pieces| - 1] == "" then TrimEnd(pieces[..|pieces| - 1]) else pieces
  }

  /**
   * How the first pass names a directory: by the components of the text before the last
   * slash. Inner "." and empty pieces vanish, but a leading "." or root stays a component.
   */
  function RawKey(pieces: seq<string>): Path {
    if IsAbsolute(pieces) then ["/"] + Clean(pieces)
    else if pieces != [] && pieces[0] == "." then ["."] + Clean(pieces)
    else Clean(pieces)
  }

  /** First pass: the directory an opaque marker names, as written. */
  function OpaqueKey(e: Entry): Option<Path> {
    match e.path
    case None => None
    case Some(pieces) =>
      var trimmed := TrimEnd(pieces);
      if trimmed != [] && trimmed[|trimmed| - 1] == OPAQUE_NAME
      then Some(RawKey(trimmed[..|trimmed| - 1])) else None
  }

  function CollectedOpaques(entries: seq<Entry>): set<Path> {
    if entries == [] then {}
    else
      var last := entries[|entries| - 1];
      CollectedOpaques(entries[..|entries| - 1]) + match OpaqueKey(last) case None => {} case Some(d) => {d}
  }

  function Mode(mode: Option<nat>, default: nat): nat {
    (match mode case None => default case Some(m) => m) % 0x1000
  }

  /** What an entry asks for, once its path is sanitised and its name classified. */
  datatype Effect =
    | ClearDir(dir: Path)
    | Erase(victim: Path)
    | Put(path: Path, node: Node)
    | Ignore(dir: Path)
    | Reject(error: LayerError)

  function PutEffect(rel: Path, e: Entry): Effect {
    match e.kind
    case Regular(content) => if rel == [] then Reject(Io) else Put(rel, File(content, Mode(e.mode, 0x1a4)))
    case Directory => Put(rel, Dir(Some(Mode(e.mode, 0x1ed))))
    case Symlink(to) => if rel == [] || to.None? then Reject(Io) else Put(rel, Link(to.value))
    case Other => Ignore(Parent(rel))
  }

  function EffectOf(e: Entry): Effect {
    match e.path
    case None => Reject(NonUtf8Path)
    case Some(pieces) =>
      match SanitizeRel(pieces)
      case Failure(error) => Reject(error)
      case Success(rel) =>
        if rel == [] then PutEffect(rel, e)
        else
          match Classify(rel[|rel| - 1])
          case Opaque => ClearDir(Parent(rel))
          case Remove(name) =>
            if name == "" || name == "." || name == ".." then Reject(OutsideModel) else Erase(Parent(rel) + [name])
          case NoWhiteout => PutEffect(rel, e)
  }

  // ---- the file system operations behind an entry ----

  datatype Status = Missing | IsDir | NotDir | ThroughLink

  /** What the path names as a directory. Following a symbolic link leaves this model. */
  function DirStatus(t: Tree, p: Path): Status
    decreases |p|
  {
    var up := if p == [] then IsDir else DirStatus(t, Parent(p));
    if up != IsDir then up
    else if p !in t then Missing
    else match t[p] case Dir(_) => IsDir case File(_, _) => NotDir case Link(_) => ThroughLink
  }

  function StatusError(s: Status): Option<LayerError> {
    match s
    case Missing => None
    case IsDir => None
    case NotDir => Some(Io)
    case ThroughLink => Some(OutsideModel)
  }

  /** create_dir_all: missing ancestors first, then the directory. */
  function MakeDirs(t: Tree, p: Path): (r: Tree)
    decreases |p|
  {
    if p in t then t
    else if p == [] then t[p := Dir(None)]
    else MakeDirs(t, Parent(p))[p := Dir(None)]
  }

  function RemoveSubtree(t: Tree, p: Path): Tree {
    map q | q in t && !AtOrBelow(q, p) :: t[q]
  }

  function RemoveChildren(t: Tree, p: Path): Tree {
    map q | q in t && !Below(q, p) :: t[q]
  }

  datatype Progress = Progress(tree: Tree, cleared: set<Path>, applied: nat, whiteouts: nat)

  /** clear_dir_once: empties an opaque directory the first time anything in it is met. */
  function ClearOnce(opaques: set<Path>, s: Progress, dir: Path): Result<Progress, LayerError> {
    if dir !in opaques || dir in s.cleared then Success(s)
    else
      match StatusError(DirStatus(s.tree, dir))
      case Some(error) => Failure(error)
      case None => Success(s.(cleared := s.cleared + {dir}, tree := RemoveChildren(s.tree, dir)))
  }

  function EraseVictim(t: Tree, victim: Path): Result<Tree, LayerError> {
    match DirStatus(t, Parent(victim))
    case ThroughLink => Failure(OutsideModel)
    case IsDir => Success(RemoveSubtree(t, victim))
    // The error of removing under a missing or plain-file parent is discarded.
    case Missing => Success(t)
    case NotDir => Success(t)
  }

  /** Directories are created or kept; files and links replace whatever was there. */
  function PutNode(t: Tree, p: Path, node: Node): Result<Tree, LayerError> {
    var dir := if node.Dir? then p else Parent(p);
    match StatusError(DirStatus(t, dir))
    case Some(error) => Failure(error)
    case None =>
      var made := MakeDirs(t, dir);
      Success(if node.Dir? then made[p := node] else RemoveSubtree(made, p)[p := node])
  }

  function ApplyEffect(opaques: set<Path>, s: Progress, e: Effect): Result<Progress, LayerError> {
    match e
    case Reject(error) => Failure(error)
    case ClearDir(dir) =>
      (match ClearOnce(opaques, s, dir)
       case Failure(error) => Failure(error)
       case Success(c) => Success(c.(whiteouts := c.whiteouts + 1)))
    case Erase(victim) =>
      (match EraseVictim(s.tree, victim)
       case Failure(error) => Failure(error)
       case Success(t) => Success(s.(tree := t, whiteouts := s.whiteouts + 1)))
    case Ignore(dir) =>
      (match ClearOnce(opaques, s, dir)
       case Failure(error) => Failure(error)
       case Success(c) => Success(c.(applied := c.applied + 1)))
    case Put(path, node) =>
      (match ClearOnce(opaques, s, Parent(path))
       case Failure(error) => Failure(error)
       case Success(c) =>
         match PutNode(c.tree, path, node)
         case Failure(error) => Failure(error)
         case Success(t) => Success(c.(tree := t, applied := c.applied + 1)))
  }

  function Effects(entries: seq<Entry>): (es: seq<Effect>)
    ensures |es| == |entries| && forall i | 0 <= i < |es| :: es[i] == EffectOf(entries[i])
  {
    seq(|entries|, i requires 0 <= i < |entries| => EffectOf(entries[i]))
  }

  function ApplyEffects(opaques: set<Path>, s: Progress, es: seq<Effect>): Result<Progress, LayerError> {
    if es == [] then Success(s)
    else
      match ApplyEffects(opaques, s, es[..|es| - 1])
      case Failure(error) => Failure(error)
      case Success(before) => ApplyEffect(opaques, before, es[|es| - 1])
  }

  /** Both passes over one archive. */
  function ApplyArchive(t: Tree, entries: seq<Entry>): Result<Progress, LayerError> {
    match StatusError(DirStatus(t, []))
    case Some(error) => Failure(error)
    case None => ApplyEffects(CollectedOpaques(entries), Progress(MakeDirs(t, []), {}, 0, 0), Effects(entries))
  }
}
