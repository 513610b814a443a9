/** A file system without symbolic links or I/O faults: which paths exist, which are
    directories, and the bytes of the files. */
module FileTree {
  import opened Common
  import opened Utf8
  import opened Paths

  datatype Node = File(content: Text) | Dir

  type Tree = map<Path, Node>

  datatype FsError = NotExist | NotDirectory | IsDirectory | Exists | NotEmpty | Busy | Invalid

  /** A tree after a system call, and the error it reported if any. */
  datatype Effect<E> = Effect(tree: Tree, error: Option<E>)

  function Parent(p: Path): Path { if p == [] then [] else p[..|p| - 1] }

  predicate IsDir(t: Tree, p: Path) { p in t && t[p].Dir? }

  /** Every entry sits in a directory. */
  ghost predicate ValidTree(t: Tree) {
    IsDir(t, []) && forall p {:trigger Parent(p)} :: p in t ==> IsDir(t, Parent(p))
  }

  /** Some proper ancestor is a file. */
  predicate Blocked(t: Tree, p: Path) {
    exists k :: 0 <= k < |p| && p[..k] in t && t[p[..k]].File?
  }

  datatype Stat = Found(node: Node) | Missing | BelowFile

  function StatOf(t: Tree, p: Path): Stat {
    if p in t then Found(t[p]) else if Blocked(t, p) then BelowFile else Missing
  }

  function ReadFile(t: Tree, p: Path): Result<Text, FsError> {
    match StatOf(t, p)
    case Found(File(content)) => Success(content)
    case Found(Dir) => Failure(IsDirectory)
    case Missing => Failure(NotExist)
    case BelowFile => Failure(NotDirectory)
  }

  /** `p` and its ancestors. */
  function Upwards(p: Path): (up: set<Path>)
    ensures forall q :: q in up <==> q <= p
  {
    assert forall q :: q <= p ==> q == p[..|q|];
    set k | 0 <= k <= |p| :: p[..k]
  }

  /** `p` and everything below it. */
  function Subtree(t: Tree, p: Path): set<Path> {
    set q | q in t && p <= q
  }

  function WithDirs(t: Tree, p: Path): Tree {
    t + map q | q in Upwards(p) && q !in t :: Dir
  }

  function MkdirAll(t: Tree, p: Path): Effect<FsError> {
    match StatOf(t, p)
    case Found(Dir) => Effect(t, None)
    case Found(File(_)) => Effect(t, Some(NotDirectory))
    case BelowFile => Effect(t, Some(NotDirectory))
    case Missing => Effect(WithDirs(t, p), None)
  }

  /** `writeTextFileAtomic` as one step: make the directory, then put a new file over
      whatever file was there.  A directory in the way makes the last rename fail. */
  function WriteFile(t: Tree, p: Path, content: Text): Effect<FsError> {
    var made := MkdirAll(t, Parent(p));
    if made.error.Some? then made
    else if IsDir(made.tree, p) then Effect(made.tree, Some(Exists))
    else Effect(made.tree[p := File(content)], None)
  }

  function Remove(t: Tree, p: Path): Effect<FsError> {
    if p !in t then Effect(t, Some(if Blocked(t, p) then NotDirectory else NotExist))
    else if p == [] then Effect(t, Some(Busy))
    else if Subtree(t, p) != {p} then Effect(t, Some(NotEmpty))
    else Effect(t - {p}, None)
  }

  /** The root directory itself cannot go, but everything in it does. */
  function RemoveAll(t: Tree, p: Path): Effect<FsError> {
    if p == [] then Effect(map[[] := Dir], Some(Busy)) else Effect(t - Subtree(t, p), None)
  }

  function Relocated(t: Tree, src: Path, dst: Path): set<Path> {
    set q | q in t && src <= q :: dst + q[|src|..]
  }

  function Origin(src: Path, dst: Path, q: Path): Path
    requires dst <= q
  {
    src + q[|dst|..]
  }

  lemma RelocatedOrigin(t: Tree, src: Path, dst: Path, q: Path)
    ensures q in Relocated(t, src, dst) <==> dst <= q && Origin(src, dst, q) in t
  {
    if q in Relocated(t, src, dst) {
      var r :| r in t && src <= r && q == dst + r[|src|..];
      assert Origin(src, dst, q) == r;
    }
    if dst <= q && Origin(src, dst, q) in t {
      var r := Origin(src, dst, q);
      assert q == dst + r[|src|..];
    }
  }

  function Moved(t: Tree, src: Path, dst: Path): (m: Tree)
  {
    assert forall q <- Relocated(t, src, dst) :: dst <= q && Origin(src, dst, q) in t by {
      forall q | q in Relocated(t, src, dst) ensures dst <= q && Origin(src, dst, q) in t {
        RelocatedOrigin(t, src, dst, q);
      }
    }
    (t - Subtree(t, src)) + map q | q in Relocated(t, src, dst) :: t[Origin(src, dst, q)]
  }

  /** `os.Rename`: never onto a directory, never into itself. */
  function Rename(t: Tree, src: Path, dst: Path): Effect<FsError> {
    if src !in t then Effect(t, Some(NotExist))
    else if IsDir(t, dst) then Effect(t, Some(Exists))
    else if !IsDir(t, Parent(dst)) then Effect(t, Some(NotExist))
    else if src < dst then Effect(t, Some(Invalid))
    else if src == dst then Effect(t, None)
    else if dst in t && t[src].Dir? then Effect(t, Some(NotDirectory))
    else Effect(Moved(t, src, dst), None)
  }

  // ----- every call keeps the tree valid

  lemma {:induction false} AncestorsAreDirs(t: Tree, p: Path, q: Path)
    requires ValidTree(t) && p in t && q < p
    ensures IsDir(t, q)
    decreases |p|
  {
    assert IsDir(t, Parent(p));
    if q != Parent(p) {
      AncestorsAreDirs(t, Parent(p), q);
    }
  }

  /** In a valid tree a path with a file above it does not exist. */
  lemma BlockedIsAbsent(t: Tree, p: Path)
    requires ValidTree(t) && p in t
    ensures !Blocked(t, p)
  {
    if Blocked(t, p) {
      var k :| 0 <= k < |p| && p[..k] in t && t[p[..k]].File?;
      AncestorsAreDirs(t, p, p[..k]);
    }
  }

  lemma MkdirAllKeeps(t: Tree, p: Path)
    requires ValidTree(t)
    ensures ValidTree(MkdirAll(t, p).tree)
    ensures MkdirAll(t, p).error.None? ==> IsDir(MkdirAll(t, p).tree, p)
    ensures MkdirAll(t, p).error.Some? ==> MkdirAll(t, p).tree == t
  {
    if StatOf(t, p).Missing? { WithDirsKeeps(t, p); }
  }

  lemma WithDirsAt(t: Tree, p: Path, q: Path)
    ensures q in WithDirs(t, p) <==> q in t || q <= p
    ensures q in t ==> WithDirs(t, p)[q] == t[q]
    ensures q !in t && q <= p ==> WithDirs(t, p)[q] == Dir
  {
  }

  /** Nothing above an unblocked path is a file. */
  lemma UnblockedAbove(t: Tree, p: Path, q: Path)
    requires !Blocked(t, p) && q in t && q < p
    ensures IsDir(t, q)
  {
    assert q == p[..|q|];
  }

  lemma WithDirsKeeps(t: Tree, p: Path)
    requires ValidTree(t) && p !in t && !Blocked(t, p)
    ensures ValidTree(WithDirs(t, p)) && IsDir(WithDirs(t, p), p)
  {
    hide WithDirs, Blocked;
    var m := WithDirs(t, p);
    WithDirsAt(t, p, p);
    WithDirsAt(t, p, []);
    forall q | q in m ensures IsDir(m, Parent(q)) {
      WithDirsAt(t, p, q);
      WithDirsAt(t, p, Parent(q));
      if q !in t && Parent(q) in t { UnblockedAbove(t, p, Parent(q)); }
    }
  }

  lemma WriteFileKeeps(t: Tree, p: Path, content: Text)
    requires ValidTree(t)
    ensures ValidTree(WriteFile(t, p, content).tree)
    ensures WriteFile(t, p, content).error.Some? ==> WriteFile(t, p, content).tree == t
  {
    MkdirAllKeeps(t, Parent(p));
    var made := MkdirAll(t, Parent(p));
    if made.error.None? {
      if IsDir(made.tree, p) {
        WithDirsAt(t, Parent(p), p);
        assert p in t && IsDir(t, Parent(p));
      } else {
        PutFileKeeps(made.tree, p, content);
      }
    }
  }

  lemma PutFileKeeps(t: Tree, p: Path, content: Text)
    requires ValidTree(t) && IsDir(t, Parent(p)) && !IsDir(t, p)
    ensures ValidTree(t[p := File(content)])
  {
    var w := t[p := File(content)];
    forall q | q in w ensures IsDir(w, Parent(q)) {
      if q in t { assert IsDir(t, Parent(q)); }
    }
  }

  lemma RemoveAllKeeps(t: Tree, p: Path)
    requires ValidTree(t)
    ensures ValidTree(RemoveAll(t, p).tree) && ValidTree(Remove(t, p).tree)
  {
    if p != [] {
      WithoutSubtree(t, p);
      if Remove(t, p).error.None? { assert Remove(t, p).tree == t - Subtree(t, p); }
    }
  }

  lemma WithoutSubtree(t: Tree, p: Path)
    requires ValidTree(t) && p != []
    ensures ValidTree(t - Subtree(t, p))
  {
    var r := t - Subtree(t, p);
    assert [] in r;
    forall q | q in r ensures IsDir(r, Parent(q)) {
      assert IsDir(t, Parent(q));
    }
  }

  /** Where everything is after a move. */
  lemma MovedAt(t: Tree, src: Path, dst: Path, q: Path)
    ensures q in Moved(t, src, dst)
       <==> (q in t && !(src <= q)) || (dst <= q && Origin(src, dst, q) in t)
    ensures dst <= q && Origin(src, dst, q) in t ==>
              Moved(t, src, dst)[q] == t[Origin(src, dst, q)]
    ensures q in t && !(src <= q) && !(dst <= q && Origin(src, dst, q) in t) ==>
              Moved(t, src, dst)[q] == t[q]
  {
    RelocatedOrigin(t, src, dst, q);
  }

  lemma RenameKeeps(t: Tree, src: Path, dst: Path)
    requires ValidTree(t)
    ensures ValidTree(Rename(t, src, dst).tree)
    ensures Rename(t, src, dst).error.Some? ==> Rename(t, src, dst).tree == t
  {
    hide Moved;
    if Rename(t, src, dst).error.None? && src != dst {
      assert dst != [] && src != [] && !(src <= Parent(dst));
      var m := Moved(t, src, dst);
      MovedAt(t, src, dst, []);
      forall q | q in m ensures IsDir(m, Parent(q)) {
        if q == [] {
          assert Parent(q) == [];
        } else {
          MovedParent(t, src, dst, q);
        }
      }
    }
  }

  lemma MovedParent(t: Tree, src: Path, dst: Path, q: Path)
    requires ValidTree(t) && !IsDir(t, dst) && IsDir(t, Parent(dst)) && dst != []
    requires !(src <= Parent(dst)) && q in Moved(t, src, dst) && q != []
    ensures IsDir(Moved(t, src, dst), Parent(q))
  {
    hide Moved, Relocated;
    var up := Parent(q);
    MovedAt(t, src, dst, q);
    MovedAt(t, src, dst, up);
    if dst <= q && Origin(src, dst, q) in t {
      if q == dst {
        assert !(dst <= up);
      } else {
        assert Parent(Origin(src, dst, q)) == Origin(src, dst, up);
        assert IsDir(t, Origin(src, dst, up));
      }
    } else {
      assert IsDir(t, up);
      if dst <= up { AncestorsAreDirs(t, q, dst); }
    }
  }

  /** Renaming back restores the tree. */
  lemma RenameUndone(t: Tree, src: Path, dst: Path)
    requires ValidTree(t) && dst !in t && Rename(t, src, dst).error.None?
    ensures Rename(Rename(t, src, dst).tree, dst, src) == Effect(t, None)
  {
    hide Moved;
    var m := Moved(t, src, dst);
    assert IsDir(t, Parent(src));
    AbsentBelow(t, dst, src);
    assert Origin(src, dst, dst) == src;
    MovedAt(t, src, dst, dst);
    MovedAt(t, src, dst, src);
    MovedAt(t, src, dst, Parent(src));
    assert !(src <= Parent(src)) && !(dst <= Parent(src));
    forall q ensures q in Moved(m, dst, src) <==> q in t
             ensures q in t ==> Moved(m, dst, src)[q] == t[q]
    {
      MovedBackAt(t, src, dst, q);
    }
    assert Moved(m, dst, src) == t;
  }

  /** Nothing exists below a missing path. */
  lemma AbsentBelow(t: Tree, p: Path, q: Path)
    requires ValidTree(t) && p !in t
    ensures p <= q ==> q !in t
  {
    assert p <= q ==> p == q[..|p|];
    assert q[..|q|] == q;
    if p <= q && |p| < |q| && q in t { AncestorsAreDirs(t, q, p); }
  }

  lemma MovedBackAt(t: Tree, src: Path, dst: Path, q: Path)
    requires ValidTree(t) && dst !in t && !(src <= dst) && !(dst <= src)
    ensures q in Moved(Moved(t, src, dst), dst, src) <==> q in t
    ensures q in t ==> Moved(Moved(t, src, dst), dst, src)[q] == t[q]
  {
    hide Moved;
    var m := Moved(t, src, dst);
    MovedAt(m, dst, src, q);
    MovedAt(t, src, dst, q);
    if src <= q {
      var there := Origin(dst, src, q);
      MovedAt(t, src, dst, there);
      assert Origin(src, dst, there) == q;
      AbsentBelow(t, dst, there);
    } else {
      AbsentBelow(t, dst, q);
    }
  }
}
