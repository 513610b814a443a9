/** When a workspace edit changes something outside its root, and when it cannot. */
module OutsideRoot {
  import opened Common
  import opened TextEdits
  import opened Paths
  import opened FileTree
  import opened WorkspaceEdits
  import opened ApplyTheorems

  /** The trees agree on everything that is not at or below `root`. */
  ghost predicate SameOutside(a: Tree, b: Tree, root: Path) {
    forall q :: !(root <= q) ==> (q in a <==> q in b) && (q in a && q in b ==> a[q] == b[q])
  }

  /** The step is a create that policy and path test let through. */
  predicate Creates(site: Site, step: Step, opts: Options)
    requires ValidSite(site)
  {
    step.Document? && step.change.textEdit.None? && step.change.create.Some?
    && opts.allowCreate && Target(site, step.change.create.value.uri).Success?
  }

  /** The step is reached and is such a create. */
  predicate CreatesAt(t: Tree, site: Site, program: seq<Step>, opts: Options, k: nat)
    requires ValidSite(site) && k < |program|
  {
    Run(t, site, program[..k], opts).failed.None? && Creates(site, program[k], opts)
  }

  // ----- while the directory the root belongs in is missing

  /** Below a missing directory nothing exists, and what blocks one path blocks all. */
  lemma NothingUnderMissing(t: Tree, root: Path, p: Path)
    requires ValidTree(t) && Parent(root) !in t && root <= p
    ensures root != [] && p !in t && (Blocked(t, p) <==> Blocked(t, root))
  {
    AbsentBelow(t, Parent(root), p);
    forall k | 0 <= k < |p| && p[..k] in t ensures k < |root| && p[..k] == root[..k] {
      AbsentBelow(t, Parent(root), p[..k]);
    }
    assert forall k :: 0 <= k < |root| ==> p[..k] == root[..k];
  }

  /** Only a create gets anywhere then, and only if no file is in the way; it makes the
      missing directory. */
  lemma StepWithoutParent(t: Tree, site: Site, step: Step, opts: Options)
    requires ValidSite(site) && ValidTree(t) && Parent(site.root) !in t
    ensures var r := ApplyStep(t, site, step, opts);
            if Creates(site, step, opts) && !Blocked(t, site.root)
            then r.error.None? && Parent(site.root) in r.tree
            else r.tree == t
  {
    hide Target, PatchText, ValidTree, Blocked, MkdirAll, WriteFile, VersionCheck;
    forall uri | Target(site, uri).Success?
      ensures Target(site, uri).value !in t && (Blocked(t, Target(site, uri).value) <==> Blocked(t, site.root))
    {
      TargetUnderRoot(site, uri);
      NothingUnderMissing(t, site.root, Target(site, uri).value);
    }
    if Creates(site, step, opts) && !Blocked(t, site.root) {
      CreateMakesParent(t, site, step.change.create.value);
    }
  }

  lemma CreateMakesParent(t: Tree, site: Site, op: CreateFile)
    requires ValidSite(site) && ValidTree(t) && Parent(site.root) !in t && !Blocked(t, site.root)
    requires Target(site, op.uri).Success?
    ensures var r := ApplyCreate(t, site, op); r.error.None? && Parent(site.root) in r.tree
  {
    hide Target, Blocked, ApplyCreate;
    var path := Target(site, op.uri).value;
    TargetUnderRoot(site, op.uri);
    NothingUnderMissing(t, site.root, path);
    CreateOutcome(t, site, op, path);
    var r := ApplyCreate(t, site, op).tree;
    StepKeepsValid(t, site, Document(DocumentChange(None, Some(op), None, None)), Options(true, true, true, None));
    assert ValidTree(r) by {
      assert ApplyStep(t, site, Document(DocumentChange(None, Some(op), None, None)),
                       Options(true, true, true, None)) == ApplyCreate(t, site, op);
    }
    assert path in r && Parent(site.root) < path;
    AncestorsAreDirs(r, path, Parent(site.root));
  }

  /** Over a run: the missing directory appears exactly when a create is reached and no
      file is in the way; otherwise the tree stays as it was. */
  lemma {:induction false} RunWithoutParent(t: Tree, site: Site, program: seq<Step>, opts: Options)
    requires ValidSite(site) && ValidTree(t) && Parent(site.root) !in t
    ensures var r := Run(t, site, program, opts);
            if !Blocked(t, site.root) && exists k :: 0 <= k < |program| && CreatesAt(t, site, program, opts, k)
            then Parent(site.root) in r.tree
            else r.tree == t
  {
    hide ApplyStep, ValidTree, Blocked, Creates;
    NothingUnderMissing(t, site.root, site.root);
    if program != [] {
      var n := |program| - 1;
      var init := program[..n];
      RunWithoutParent(t, site, init, opts);
      forall k | 0 <= k < n ensures CreatesAt(t, site, init, opts, k) <==> CreatesAt(t, site, program, opts, k) {
        assert init[..k] == program[..k] && init[k] == program[k];
      }
      var before := Run(t, site, init, opts);
      if Parent(site.root) in before.tree {
        StaysIn(before.tree, site, program[n], opts);
      } else if before.failed.None? {
        StepWithoutParent(t, site, program[n], opts);
        assert CreatesAt(t, site, program, opts, n) <==> Creates(site, program[n], opts);
      }
    }
  }

  lemma StaysIn(t: Tree, site: Site, step: Step, opts: Options)
    requires ValidSite(site) && Parent(site.root) in t && site.root != []
    ensures Parent(site.root) in ApplyStep(t, site, step, opts).tree
  {
    hide ApplyStep;
    StepConfined(t, site, step, opts);
    assert !(site.root <= Parent(site.root));
  }

  // ----- exactly when

  /** A run changes something outside the root exactly when the directory the root belongs
      in is missing, no file is in the way of making it, and the run gets to a create. */
  lemma OutsideChangesExactly(t: Tree, site: Site, program: seq<Step>, opts: Options)
    requires ValidSite(site) && ValidTree(t)
    ensures !SameOutside(t, Run(t, site, program, opts).tree, site.root)
       <==> Parent(site.root) !in t && !Blocked(t, site.root)
            && exists k :: 0 <= k < |program| && CreatesAt(t, site, program, opts, k)
  {
    hide Run, ValidTree, Blocked, CreatesAt;
    if Parent(site.root) in t {
      forall q | !(site.root <= q)
        ensures q in t <==> q in Run(t, site, program, opts).tree
        ensures q in t ==> Run(t, site, program, opts).tree[q] == t[q]
      {
        OutsideUnchanged(t, site, program, opts, q);
      }
    } else {
      RunWithoutParent(t, site, program, opts);
      NothingUnderMissing(t, site.root, site.root);
      assert !(site.root <= Parent(site.root));
    }
  }

  /** What a caller can check beforehand: no edit under any policy changes anything outside
      the root iff the root's parent exists or a file stands above the root. */
  lemma OutsideIsSafeExactly(t: Tree, site: Site, uri: string)
    requires ValidSite(site) && ValidTree(t) && Target(site, uri).Success?
    ensures (forall program: seq<Step>, opts: Options ::
               SameOutside(t, Run(t, site, program, opts).tree, site.root))
       <==> Parent(site.root) in t || Blocked(t, site.root)
  {
    hide Run, ValidTree, Blocked, SameOutside;
    forall program: seq<Step>, opts: Options
      ensures Parent(site.root) in t || Blocked(t, site.root) ==>
                SameOutside(t, Run(t, site, program, opts).tree, site.root)
    {
      OutsideChangesExactly(t, site, program, opts);
    }
    var step := Document(DocumentChange(None, Some(CreateFile(uri, None, None)), None, None));
    var opts := Options(true, false, false, None);
    OutsideChangesExactly(t, site, [step], opts);
    assert CreatesAt(t, site, [step], opts, 0) by { NothingRun(t, site, [step], opts); }
  }

  lemma NothingRun(t: Tree, site: Site, program: seq<Step>, opts: Options)
    requires ValidSite(site)
    ensures Run(t, site, program[..0], opts) == Outcome(t, None)
  {
    assert program[..0] == [];
  }

  lemma NewFileInRoot()
    ensures EnsureUnderRoot(["w", "p"], [], "/w/p/x") == Success(["w", "p", "x"])
  {
    assert "/w/p/x" == "/" + Join(["w", "p", "x"]) by {
      assert ["w", "p", "x"][1..] == ["p", "x"] && ["p", "x"][1..] == ["x"];
    }
    AbsOfRooted([], ["w", "p", "x"]);
    UnderRootExactly(["w", "p"], [], "/w/p/x");
  }

  lemma NothingBlocked(p: Path)
    ensures !Blocked(map[[] := Dir], p)
  {
  }

  /** An input that does it: in an otherwise empty file system, creating the file "x" in
      the root "/w/p" makes the directory "/w". */
  lemma CreateReachesOutside()
    ensures var site := Site(["w", "p"], [], _ => FileUri("file:///w/p/x", "/w/p/x"));
            var t: Tree := map[[] := Dir];
            var edit := [Document(DocumentChange(None, Some(CreateFile("file:///w/p/x", None, None)), None, None))];
            ValidSite(site) && ValidTree(t)
            && !SameOutside(t, Run(t, site, edit, Options(true, false, false, None)).tree, site.root)
  {
    var site := Site(["w", "p"], [], _ => FileUri("file:///w/p/x", "/w/p/x"));
    var t: Tree := map[[] := Dir];
    var op := CreateFile("file:///w/p/x", None, None);
    var step, opts := Document(DocumentChange(None, Some(op), None, None)), Options(true, false, false, None);
    hide Run, Abs, EnsureUnderRoot, Blocked;
    NewFileInRoot();
    assert Target(site, op.uri) == Success(["w", "p", "x"]);
    assert !Blocked(t, site.root) by { NothingBlocked(site.root); }
    NothingRun(t, site, [step], opts);
    assert CreatesAt(t, site, [step], opts, 0);
    OutsideChangesExactly(t, site, [step], opts);
  }
}
