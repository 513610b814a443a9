/** What every run of a workspace edit keeps. */
module ApplyTheorems {
  import opened Common
  import opened Utf8
  import opened TextEdits
  import opened Paths
  import opened FileTree
  import opened WorkspaceEdits

  ghost predicate ValidSite(site: Site) { Clean(site.cwd) && Clean(site.root) }

  lemma TargetUnderRoot(site: Site, uri: string)
    requires ValidSite(site) && Target(site, uri).Success?
    ensures site.root <= Target(site, uri).value
  {
    hide Abs, Rel;
    match site.parse(uri) {
      case FileUri(_, raw) => UnderRootExactly(site.root, site.cwd, raw);
    }
  }

  // ----- the tree stays valid

  lemma StepKeepsValid(t: Tree, site: Site, step: Step, opts: Options)
    requires ValidSite(site) && ValidTree(t)
    ensures ValidTree(ApplyStep(t, site, step, opts).tree)
  {
    hide Target, PatchText, WriteFile, RemoveAll, Remove, Rename, MkdirAll, ValidTree, StatOf;
    forall p, c ensures ValidTree(WriteFile(t, p, c).tree) { WriteFileKeeps(t, p, c); }
    forall p ensures ValidTree(RemoveAll(t, p).tree) && ValidTree(Remove(t, p).tree) { RemoveAllKeeps(t, p); }
    match step {
      case Text(_, _) =>
      case Document(change) =>
        if change.rename.Some? { RenameKeepsValid(t, site, change.rename.value); }
    }
  }

  lemma RenameKeepsValid(t: Tree, site: Site, op: RenameFile)
    requires ValidSite(site) && ValidTree(t)
    ensures ValidTree(ApplyRename(t, site, op).tree)
  {
    hide Target, RemoveAll, Remove, Rename, MkdirAll, ValidTree, StatOf;
    forall p, u: Tree | ValidTree(u) ensures ValidTree(MkdirAll(u, p).tree) { MkdirAllKeeps(u, p); }
    forall p, q, u: Tree | ValidTree(u) ensures ValidTree(Rename(u, p, q).tree) { RenameKeeps(u, p, q); }
    forall p ensures ValidTree(RemoveAll(t, p).tree) { RemoveAllKeeps(t, p); }
  }

  /** Every run, whether it fails or not, leaves each entry inside a directory. */
  lemma {:induction false} RunKeepsValid(t: Tree, site: Site, program: seq<Step>, opts: Options)
    requires ValidSite(site) && ValidTree(t)
    ensures ValidTree(Run(t, site, program, opts).tree)
  {
    hide ApplyStep, ValidTree;
    if program != [] {
      var n := |program| - 1;
      RunKeepsValid(t, site, program[..n], opts);
      StepKeepsValid(Run(t, site, program[..n], opts).tree, site, program[n], opts);
    }
  }

  // ----- failure positions

  /** A reported failure is the first failing step, run on what the steps before it left. */
  lemma {:induction false} FailureIsFirst(t: Tree, site: Site, program: seq<Step>, opts: Options)
    requires ValidSite(site) && Run(t, site, program, opts).failed.Some?
    ensures var r := Run(t, site, program, opts); var k := r.failed.value.0;
            k < |program| && Run(t, site, program[..k], opts).failed.None?
            && ApplyStep(Run(t, site, program[..k], opts).tree, site, program[k], opts)
               == Effect(r.tree, Some(r.failed.value.1))
  {
    hide ApplyStep;
    var n := |program| - 1;
    if Run(t, site, program[..n], opts).failed.Some? {
      FailureIsFirst(t, site, program[..n], opts);
      var k := Run(t, site, program, opts).failed.value.0;
      assert program[..n][..k] == program[..k];
    }
  }

  /** When a failing step has already changed the tree: a rename between nested paths
      that cleared its destination or made directories for it, or the removal of
      everything under the file-system root. */
  predicate Tears(t: Tree, site: Site, step: Step, opts: Options)
    requires ValidSite(site)
  {
    step.Document? && step.change.textEdit.None? && step.change.create.None? &&
    if step.change.rename.Some? then
      opts.allowRename && RenameTears(t, site, step.change.rename.value)
    else
      step.change.delete.Some? && opts.allowDelete
      && Holds(step.change.delete.value.recursive)
      && Target(site, step.change.delete.value.uri) == Success([]) && t != map[[] := Dir]
  }

  predicate RenameTears(t: Tree, site: Site, op: RenameFile)
    requires ValidSite(site)
  {
    var src, dst := Target(site, op.oldUri), Target(site, op.newUri);
    src.Success? && dst.Success? && src.value in t
    && (if dst.value in t
        then Holds(op.overwrite) && (dst.value <= src.value || src.value <= dst.value) && t != map[[] := Dir]
        else src.value < dst.value && Parent(dst.value) !in t && !Blocked(t, dst.value))
  }

  /** A failing step leaves the tree exactly as it was, unless it tears. */
  lemma FailureTearsExactly(t: Tree, site: Site, step: Step, opts: Options)
    requires ValidSite(site) && ValidTree(t) && ApplyStep(t, site, step, opts).error.Some?
    ensures ApplyStep(t, site, step, opts).tree != t <==> Tears(t, site, step, opts)
  {
    hide Target, PatchText, WriteFile, ValidTree, VersionCheck;
    forall p, c ensures WriteFile(t, p, c).error.Some? ==> WriteFile(t, p, c).tree == t { WriteFileKeeps(t, p, c); }
    match step {
      case Text(_, _) =>
      case Document(change) =>
        if change.textEdit.None? && change.create.None? {
          if change.rename.Some? {
            if opts.allowRename { RenameTearsExactly(t, site, change.rename.value); }
          } else if change.delete.Some? && opts.allowDelete {
            DeleteTearsExactly(t, site, change.delete.value);
          }
        }
    }
  }

  lemma DeleteTearsExactly(t: Tree, site: Site, op: DeleteFile)
    requires ValidSite(site) && ValidTree(t) && ApplyDelete(t, site, op).error.Some?
    ensures ApplyDelete(t, site, op).tree != t
       <==> Holds(op.recursive) && Target(site, op.uri) == Success([]) && t != map[[] := Dir]
  {
    hide Target;
  }

  /** A move to a free place fails exactly when its source is missing or above it. */
  lemma PlaceExactly(t: Tree, src: Path, dst: Path)
    requires ValidTree(t) && dst !in t && !Blocked(t, dst)
    ensures Place(t, src, dst).error.Some? <==> src !in t || src < dst
    ensures Place(t, src, dst).error.Some? ==> (Place(t, src, dst).tree != t <==> Parent(dst) !in t)
    ensures src < dst ==> Place(t, src, dst).error == Some(Io(Invalid))
    ensures src !in t && !(src < dst) ==> Place(t, src, dst).error == Some(Io(NotExist))
  {
    var up := Parent(dst);
    assert dst != [];
    assert !Blocked(t, up) by {
      forall k | 0 <= k < |up| && up[..k] in t ensures t[up[..k]].Dir? { assert up[..k] == dst[..k]; }
    }
    if up in t { assert up == dst[..|up|]; }
    if src < dst {
      assert src == up[..|src|] && up[..|up|] == up;
      if up in t && src != up { AncestorsAreDirs(t, up, src); }
    }
    WithDirsAt(t, up, dst);
    WithDirsAt(t, up, src);
    WithDirsAt(t, up, up);
  }

  lemma ClearedIsFree(t: Tree, dst: Path)
    requires ValidTree(t) && dst in t && dst != []
    ensures var r := RemoveAll(t, dst).tree;
            ValidTree(r) && dst !in r && !Blocked(r, dst) && Parent(dst) in r && r != t
            && forall q :: q in t ==> (q in r <==> !(dst <= q))
  {
    RemoveAllKeeps(t, dst);
    BlockedIsAbsent(t, dst);
    assert IsDir(t, Parent(dst));
  }

  lemma RenameTearsExactly(t: Tree, site: Site, op: RenameFile)
    requires ValidSite(site) && ValidTree(t) && ApplyRename(t, site, op).error.Some?
    ensures ApplyRename(t, site, op).tree != t <==> RenameTears(t, site, op)
  {
    hide Target, ValidTree, Place, Blocked;
    var src, dst := Target(site, op.oldUri), Target(site, op.newUri);
    if src.Success? && dst.Success? && src.value in t {
      BlockedIsAbsent(t, src.value);
      if dst.value in t {
        if Holds(op.overwrite) && dst.value != [] {
          var r := RemoveAll(t, dst.value).tree;
          ClearedIsFree(t, dst.value);
          PlaceExactly(r, src.value, dst.value);
        }
      } else if !Blocked(t, dst.value) {
        PlaceExactly(t, src.value, dst.value);
      }
    }
  }

  /** Prefix semantics: a failed edit leaves exactly what the steps before the failing
      one made, unless that step tears. */
  lemma {:induction false} FailedRunIsPrefix(t: Tree, site: Site, program: seq<Step>, opts: Options)
    requires ValidSite(site) && ValidTree(t) && Run(t, site, program, opts).failed.Some?
    ensures var k := Run(t, site, program, opts).failed.value.0;
            k < |program| &&
            var before := Run(t, site, program[..k], opts);
            before.failed.None? &&
            (Run(t, site, program, opts).tree == before.tree <==> !Tears(before.tree, site, program[k], opts))
  {
    hide ApplyStep, Tears, ValidTree, Run;
    FailureIsFirst(t, site, program, opts);
    var k := Run(t, site, program, opts).failed.value.0;
    RunKeepsValid(t, site, program[..k], opts);
    FailureTearsExactly(Run(t, site, program[..k], opts).tree, site, program[k], opts);
  }

  // ----- what the resource operations come to

  /** Creating: an existing file is emptied only on `overwrite` and left alone only on
      `ignoreIfExists`; a missing one appears empty, in directories made for it. */
  lemma CreateOutcome(t: Tree, site: Site, op: CreateFile, path: Path)
    requires ValidSite(site) && ValidTree(t) && Target(site, op.uri) == Success(path)
    ensures var r := ApplyCreate(t, site, op);
            (r.error.None? <==>
               if path in t then (if Holds(op.overwrite) then t[path].File? else Holds(op.ignoreIfExists))
               else !Blocked(t, path))
            && (r.error.None? && path in t && !Holds(op.overwrite) ==> r.tree == t)
            && (r.error.None? && (path !in t || Holds(op.overwrite)) ==>
                  path in r.tree && r.tree[path] == File([])
                  && (forall q :: q != path && q in t ==> q in r.tree && r.tree[q] == t[q])
                  && (forall q :: q != path && q in r.tree && q !in t ==> q < path && r.tree[q] == Dir))
  {
    hide Target;
    var up := Parent(path);
    if path in t {
      assert IsDir(t, up);
    } else if !Blocked(t, path) {
      assert path != [];
      assert !Blocked(t, up) by {
        forall k | 0 <= k < |up| && up[..k] in t ensures t[up[..k]].Dir? { assert up[..k] == path[..k]; }
      }
      if up in t { UnblockedAbove(t, path, up); }
      WithDirsAt(t, up, path);
      forall q ensures q in WithDirs(t, up) <==> q in t || q <= up
               ensures q in t ==> WithDirs(t, up)[q] == t[q]
               ensures q !in t && q <= up ==> WithDirs(t, up)[q] == Dir
      {
        WithDirsAt(t, up, q);
      }
      hide WithDirs;
    } else {
      BlockedParent(t, path);
    }
  }

  lemma BlockedParent(t: Tree, path: Path)
    requires Blocked(t, path)
    ensures path != []
  {
  }

  /** Deleting: what goes is exactly the path and everything below it, and a directory
      with entries goes only on `recursive`. */
  lemma DeleteOutcome(t: Tree, site: Site, op: DeleteFile, path: Path)
    requires ValidSite(site) && ValidTree(t) && Target(site, op.uri) == Success(path)
    ensures var r := ApplyDelete(t, site, op);
            (r.error.None? <==>
               if path in t then path != [] && (Subtree(t, path) == {path} || Holds(op.recursive))
               else !Blocked(t, path) && Holds(op.ignoreIfNotExists))
            && (r.error.None? ==> r.tree == t - Subtree(t, path))
  {
    hide Target;
    if path in t {
      if t[path].File? { NothingBelowFile(t, path); }
    } else {
      forall q | q in t ensures !(path <= q) { AbsentBelow(t, path, q); }
      assert Subtree(t, path) == {};
    }
  }

  lemma NothingBelowFile(t: Tree, path: Path)
    requires ValidTree(t) && path in t && t[path].File?
    ensures Subtree(t, path) == {path}
  {
    forall q | q in t && path <= q ensures q == path {
      if |q| > |path| { AncestorsAreDirs(t, q, path); }
    }
  }

  /** Everything at or below `src` is found at or below `dst` and nowhere else; what was
      neither stays; the rest of the tree gains at most directories above `dst`. */
  ghost predicate Relocates(t: Tree, r: Tree, src: Path, dst: Path) {
    (forall q :: q in t && src <= q ==> dst + q[|src|..] in r && r[dst + q[|src|..]] == t[q])
    && (forall q :: q in r ==> !(src <= q))
    && (forall q :: q in t && !(src <= q) && !(dst <= q) ==> q in r && r[q] == t[q])
    && (forall q :: q in r && dst <= q ==> Origin(src, dst, q) in t)
    && (forall q :: q in r && q !in t && !(dst <= q) ==> q < dst && r[q] == Dir)
  }

  lemma PlaceRelocates(t: Tree, src: Path, dst: Path)
    requires ValidTree(t) && dst !in t && !Blocked(t, dst) && src in t && !(src < dst)
    ensures Place(t, src, dst).error.None? && Relocates(t, Place(t, src, dst).tree, src, dst)
  {
    PlaceExactly(t, src, dst);
    var m := MkdirAll(t, Parent(dst)).tree;
    MkdirAllAbove(t, dst);
    hide MkdirAll, Blocked, ValidTree, MadeAbove;
    assert Place(t, src, dst).tree == Moved(m, src, dst);
    MovedRelocates(t, m, src, dst);
  }

  lemma MkdirAllAbove(t: Tree, dst: Path)
    requires ValidTree(t) && dst !in t && !Blocked(t, dst)
    ensures MadeAbove(t, MkdirAll(t, Parent(dst)).tree, dst)
  {
    var up := Parent(dst);
    assert !Blocked(t, up) by {
      forall k | 0 <= k < |up| && up[..k] in t ensures t[up[..k]].Dir? { assert up[..k] == dst[..k]; }
    }
    if up in t && up != dst { UnblockedAbove(t, dst, up); }
    forall q ensures q in WithDirs(t, up) <==> q in t || q <= up
             ensures q in t ==> WithDirs(t, up)[q] == t[q]
             ensures q !in t && q <= up ==> WithDirs(t, up)[q] == Dir
    {
      WithDirsAt(t, up, q);
    }
    hide WithDirs;
    forall q | q <= up && up in t && q != up ensures q in t { AncestorsAreDirs(t, up, q); }
  }

  /** `m` is `t` with directories made above `dst`. */
  ghost predicate MadeAbove(t: Tree, m: Tree, dst: Path) {
    forall q :: (q in m <==> q in t || q <= Parent(dst)) && (q in t ==> m[q] == t[q])
                && (q !in t && q in m ==> m[q] == Dir)
  }

  lemma MovedRelocates(t: Tree, m: Tree, src: Path, dst: Path)
    requires ValidTree(t) && dst !in t && src in t && !(src < dst) && dst != [] && MadeAbove(t, m, dst)
    ensures Relocates(t, Moved(m, src, dst), src, dst)
  {
    hide Moved, ValidTree, MadeAbove;
    var r := Moved(m, src, dst);
    AbsentBelow(t, dst, src);
    forall q | q in t && src <= q
      ensures dst + q[|src|..] in r && r[dst + q[|src|..]] == t[q]
    {
      assert Origin(src, dst, dst + q[|src|..]) == q;
      MadeAboveAt(t, m, dst, q);
      MovedAt(m, src, dst, dst + q[|src|..]);
    }
    forall q
      ensures q in r ==> !(src <= q)
      ensures q in t && !(src <= q) && !(dst <= q) ==> q in r && r[q] == t[q]
      ensures q in r && dst <= q ==> Origin(src, dst, q) in t
      ensures q in r && q !in t && !(dst <= q) ==> q < dst && r[q] == Dir
    {
      MovedAt(m, src, dst, q);
      MadeAboveAt(t, m, dst, q);
      Incomparable(src, dst, q);
      if dst <= q {
        MadeAboveAt(t, m, dst, Origin(src, dst, q));
        OriginNotMade(src, dst, q);
        AbsentBelow(t, dst, q);
      }
    }
  }

  lemma MadeAboveAt(t: Tree, m: Tree, dst: Path, q: Path)
    requires MadeAbove(t, m, dst)
    ensures (q in m <==> q in t || q <= Parent(dst)) && (q in t ==> m[q] == t[q])
            && (q !in t && q in m ==> m[q] == Dir)
  {
  }

  /** Nothing lies below both of two incomparable paths. */
  lemma Incomparable(a: Path, b: Path, q: Path)
    requires !(a < b) && !(b <= a)
    ensures !(a <= q && b <= q)
  {
  }

  lemma OriginNotMade(src: Path, dst: Path, q: Path)
    requires !(src < dst) && dst != [] && dst <= q
    ensures !(Origin(src, dst, q) <= Parent(dst))
  {
    assert src <= Origin(src, dst, q);
  }

  /** Renaming: the source must exist; an existing destination is replaced only on
      `overwrite`, and never by or over one of its own ancestors; what moves is the whole
      subtree. */
  lemma RenameOutcome(t: Tree, site: Site, op: RenameFile, src: Path, dst: Path)
    requires ValidSite(site) && ValidTree(t)
    requires Target(site, op.oldUri) == Success(src) && Target(site, op.newUri) == Success(dst)
    ensures var r := ApplyRename(t, site, op);
            (r.error.None? <==>
               src in t
               && (if dst in t
                   then (if Holds(op.overwrite) then !(dst <= src) && !(src <= dst) else Holds(op.ignoreIfExists))
                   else !Blocked(t, dst) && !(src < dst)))
            && (r.error.None? && dst in t && !Holds(op.overwrite) ==> r.tree == t)
            && (r.error.None? && dst in t && Holds(op.overwrite) ==>
                  Relocates(t - Subtree(t, dst), r.tree, src, dst))
            && (r.error.None? && dst !in t ==> Relocates(t, r.tree, src, dst))
  {
    hide Target, Place, ValidTree, Relocates;
    if src in t {
      if dst in t {
        if Holds(op.overwrite) && dst != [] {
          var cleared := RemoveAll(t, dst).tree;
          ClearedIsFree(t, dst);
          PlaceExactly(cleared, src, dst);
          if src in cleared && !(src < dst) { PlaceRelocates(cleared, src, dst); }
        }
      } else if !Blocked(t, dst) {
        PlaceExactly(t, src, dst);
        if !(src < dst) { PlaceRelocates(t, src, dst); }
      }
    }
  }

  /** Tearing: an `overwrite` rename of a path to itself or to one of its ancestors first
      removes everything there, the path to move included, and then fails. */
  lemma RenameUpwardsDeletes(t: Tree, site: Site, op: RenameFile, src: Path, dst: Path)
    requires ValidSite(site) && ValidTree(t) && src in t && dst <= src && dst != [] && Holds(op.overwrite)
    requires Target(site, op.oldUri) == Success(src) && Target(site, op.newUri) == Success(dst)
    ensures var r := ApplyRename(t, site, op);
            r.error == Some(Io(NotExist)) && r.tree == t - Subtree(t, dst)
            && src !in r.tree && dst !in r.tree && r.tree != t
  {
    hide Target, ValidTree, Place;
    if dst != src { AncestorsAreDirs(t, src, dst); }
    ClearedIsFree(t, dst);
    PlaceExactly(t - Subtree(t, dst), src, dst);
  }

  /** And a rename of a path to a place below itself first makes the directories for it. */
  lemma RenameDownwardsMakesDirs(t: Tree, site: Site, op: RenameFile, src: Path, dst: Path)
    requires ValidSite(site) && ValidTree(t) && src in t && src < dst && Parent(dst) !in t && !Blocked(t, dst)
    requires Target(site, op.oldUri) == Success(src) && Target(site, op.newUri) == Success(dst)
    ensures var r := ApplyRename(t, site, op);
            r.error == Some(Io(Invalid)) && r.tree == WithDirs(t, Parent(dst)) && Parent(dst) in r.tree
  {
    hide Target, ValidTree, WithDirs, Blocked;
    AbsentBelow(t, Parent(dst), dst);
    BlockedIsAbsent(t, src);
    PlaceExactly(t, src, dst);
    WithDirsAt(t, Parent(dst), src);
    WithDirsAt(t, Parent(dst), Parent(dst));
    assert !Blocked(t, Parent(dst)) by { UnblockedParent(t, dst); }
  }

  lemma UnblockedParent(t: Tree, p: Path)
    requires !Blocked(t, p)
    ensures !Blocked(t, Parent(p))
  {
    var up := Parent(p);
    forall k | 0 <= k < |up| && up[..k] in t ensures t[up[..k]].Dir? { assert up[..k] == p[..k]; }
  }

  // ----- versions

  /** A map of known versions that is present but empty refuses every versioned text
      change that has edits, and lets every unversioned one through to the file. */
  lemma EmptyVersionsRefuse(t: Tree, site: Site, uri: string, edits: seq<TextEdit>, expected: Option<nat>)
    requires ValidSite(site) && edits != [] && Target(site, uri).Success?
    ensures ApplyText(t, site, uri, edits, Some(map[]), expected) == Fail(t, MissingVersion) <==> expected.Some?
    ensures expected.None? ==>
              ApplyText(t, site, uri, edits, Some(map[]), expected) == ApplyText(t, site, uri, edits, None, expected)
  {
    hide Target, PatchText, WriteFile;
  }

  // ----- nothing outside the root

  /** Entries outside `root` are untouched, except that missing ancestors of the root
      may have come to exist as directories. */
  ghost predicate Confined(before: Tree, after: Tree, root: Path) {
    forall q :: !(root <= q) ==>
      (q in before ==> q in after && after[q] == before[q])
      && (q in after && q !in before ==> q < root && after[q] == Dir)
  }

  lemma ConfinedTrans(a: Tree, b: Tree, c: Tree, root: Path)
    requires Confined(a, b, root) && Confined(b, c, root)
    ensures Confined(a, c, root)
  {
  }

  lemma WithDirsConfined(t: Tree, p: Path, root: Path)
    requires root <= p || p == Parent(root) || p < root
    ensures Confined(t, WithDirs(t, p), root)
  {
    forall q | !(root <= q) ensures q in t ==> q in WithDirs(t, p) && WithDirs(t, p)[q] == t[q]
                            ensures q in WithDirs(t, p) && q !in t ==> q < root && WithDirs(t, p)[q] == Dir
    {
      WithDirsAt(t, p, q);
      if q <= p && !(root <= q) { assert q < root; }
    }
  }

  lemma WriteConfined(t: Tree, p: Path, content: Utf8.Text, root: Path)
    requires root <= p
    ensures Confined(t, WriteFile(t, p, content).tree, root)
    ensures Confined(t, MkdirAll(t, Parent(p)).tree, root)
  {
    assert root <= Parent(p) || Parent(p) < root || p == [];
    WithDirsConfined(t, Parent(p), root);
  }

  lemma RemoveConfined(t: Tree, p: Path, root: Path)
    requires root <= p && (p == [] ==> root == [])
    ensures Confined(t, RemoveAll(t, p).tree, root) && Confined(t, Remove(t, p).tree, root)
  {
  }

  lemma RenameConfined(t: Tree, src: Path, dst: Path, root: Path)
    requires root <= src && root <= dst
    ensures Confined(t, Rename(t, src, dst).tree, root)
  {
    hide Moved;
    if Rename(t, src, dst).error.None? && src != dst {
      var m := Moved(t, src, dst);
      forall q | !(root <= q) ensures q in t <==> q in m
                              ensures q in t ==> m[q] == t[q]
      {
        MovedAt(t, src, dst, q);
      }
    }
  }

  lemma StepConfined(t: Tree, site: Site, step: Step, opts: Options)
    requires ValidSite(site)
    ensures Confined(t, ApplyStep(t, site, step, opts).tree, site.root)
  {
    hide Target, PatchText, WriteFile, RemoveAll, Remove, ApplyRename, StatOf, VersionCheck, Confined;
    Unchanged(t, site.root);
    forall uri | Target(site, uri).Success?
      ensures forall c :: Confined(t, WriteFile(t, Target(site, uri).value, c).tree, site.root)
      ensures Confined(t, RemoveAll(t, Target(site, uri).value).tree, site.root)
      ensures Confined(t, Remove(t, Target(site, uri).value).tree, site.root)
    {
      TargetUnderRoot(site, uri);
      RemoveConfined(t, Target(site, uri).value, site.root);
      forall c ensures Confined(t, WriteFile(t, Target(site, uri).value, c).tree, site.root) {
        WriteConfined(t, Target(site, uri).value, c, site.root);
      }
    }
    match step {
      case Text(_, _) =>
      case Document(change) =>
        if change.rename.Some? { ApplyRenameConfined(t, site, change.rename.value); }
    }
  }

  lemma Unchanged(t: Tree, root: Path)
    ensures Confined(t, t, root)
  {
  }

  lemma ApplyRenameConfined(t: Tree, site: Site, op: RenameFile)
    requires ValidSite(site)
    ensures Confined(t, ApplyRename(t, site, op).tree, site.root)
  {
    hide Target, Place, RemoveAll, Confined, StatOf;
    Unchanged(t, site.root);
    var src, dst := Target(site, op.oldUri), Target(site, op.newUri);
    if src.Success? && dst.Success? {
      TargetUnderRoot(site, op.oldUri);
      TargetUnderRoot(site, op.newUri);
      var cleared := RemoveAll(t, dst.value).tree;
      RemoveConfined(t, dst.value, site.root);
      PlaceConfined(t, src.value, dst.value, site.root);
      PlaceConfined(cleared, src.value, dst.value, site.root);
      ConfinedTrans(t, cleared, Place(cleared, src.value, dst.value).tree, site.root);
    }
  }

  lemma PlaceConfined(t: Tree, src: Path, dst: Path, root: Path)
    requires root <= src && root <= dst
    ensures Confined(t, Place(t, src, dst).tree, root)
  {
    hide MkdirAll, Rename, Confined;
    var made := MkdirAll(t, Parent(dst)).tree;
    WriteConfined(t, dst, [], root);
    RenameConfined(made, src, dst, root);
    ConfinedTrans(t, made, Rename(made, src, dst).tree, root);
  }

  /** Every run on every edit is confined to the root. */
  lemma {:induction false} RunConfined(t: Tree, site: Site, program: seq<Step>, opts: Options)
    requires ValidSite(site)
    ensures Confined(t, Run(t, site, program, opts).tree, site.root)
  {
    hide ApplyStep, Confined;
    if program == [] {
      Unchanged(t, site.root);
    } else {
      var n := |program| - 1;
      RunConfined(t, site, program[..n], opts);
      var before := Run(t, site, program[..n], opts).tree;
      StepConfined(before, site, program[n], opts);
      ConfinedTrans(t, before, ApplyStep(before, site, program[n], opts).tree, site.root);
    }
  }

  /** With the root's parent in place, nothing outside the root changes at all. */
  lemma {:induction false} OutsideUnchanged(t: Tree, site: Site, program: seq<Step>, opts: Options, q: Path)
    requires ValidSite(site) && ValidTree(t) && Parent(site.root) in t && !(site.root <= q)
    ensures q in t <==> q in Run(t, site, program, opts).tree
    ensures q in t ==> Run(t, site, program, opts).tree[q] == t[q]
  {
    hide Run, ValidTree;
    RunConfined(t, site, program, opts);
    if q < site.root && q !in t {
      if q != Parent(site.root) { AncestorsAreDirs(t, Parent(site.root), q); }
    }
  }

  // ----- without resource operations

  /** The same paths, the same directories; only file contents may differ. */
  ghost predicate SameShape(a: Tree, b: Tree) {
    a.Keys == b.Keys && forall q :: q in a && q in b ==> (a[q].Dir? <==> b[q].Dir?)
  }

  predicate TextOnly(opts: Options) { !opts.allowCreate && !opts.allowRename && !opts.allowDelete }

  lemma TextKeepsShape(t: Tree, site: Site, uri: string, edits: seq<TextEdit>,
                       versions: Option<map<string, nat>>, expected: Option<nat>)
    requires ValidSite(site) && ValidTree(t)
    ensures SameShape(t, ApplyText(t, site, uri, edits, versions, expected).tree)
  {
    hide PatchText, ValidTree, VersionCheck;
    if Target(site, uri).Success? {
      var path := Target(site, uri).value;
      if path in t && t[path].File? {
        ParentIsDir(t, path);
      }
    }
  }

  lemma ParentIsDir(t: Tree, p: Path)
    requires ValidTree(t) && p in t
    ensures IsDir(t, Parent(p))
  {
  }

  /** A text change that succeeds rewrites the one file it names, and nothing else. */
  lemma TextWritesOneFile(t: Tree, site: Site, uri: string, edits: seq<TextEdit>,
                          versions: Option<map<string, nat>>, expected: Option<nat>)
    requires ValidSite(site) && ValidTree(t) && edits != []
    requires ApplyText(t, site, uri, edits, versions, expected).error.None?
    ensures Target(site, uri).Success?
    ensures var path := Target(site, uri).value;
            path in t && t[path].File? && PatchText(t[path].content, edits).Success?
            && ApplyText(t, site, uri, edits, versions, expected).tree
               == t[path := File(PatchText(t[path].content, edits).value)]
  {
    hide PatchText, ValidTree, Target, VersionCheck;
    ParentIsDir(t, Target(site, uri).value);
  }

  /** Under a policy that allows no resource operation an edit changes contents only. */
  lemma {:induction false} TextOnlyKeepsShape(t: Tree, site: Site, program: seq<Step>, opts: Options)
    requires ValidSite(site) && ValidTree(t) && TextOnly(opts)
    ensures SameShape(t, Run(t, site, program, opts).tree)
  {
    hide ApplyText, ValidTree;
    if program != [] {
      var n := |program| - 1;
      TextOnlyKeepsShape(t, site, program[..n], opts);
      var before := Run(t, site, program[..n], opts).tree;
      RunKeepsValid(t, site, program[..n], opts);
      match program[n] {
        case Text(uri, edits) =>
          TextKeepsShape(before, site, uri, edits, opts.currentVersions, None);
        case Document(change) =>
          if change.textEdit.Some? {
            var e := change.textEdit.value;
            TextKeepsShape(before, site, e.document.uri, e.edits, opts.currentVersions, e.document.version);
          }
      }
    }
  }
}
