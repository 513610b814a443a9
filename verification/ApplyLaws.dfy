/** What applying one change, or a whole edit, gives its caller. */
module ApplyLaws {
  import opened Common
  import opened Sorting
  import opened Strings
  import opened Utf8
  import opened TextEdits
  import opened Paths
  import opened FileTree
  import opened WorkspaceEdits
  import opened ApplyTheorems
  import opened Applier

  // ----- the file a URI names

  lemma TargetExactly(site: Site, uri: string)
    requires ValidSite(site)
    ensures match site.parse(uri)
            case BadUri => Target(site, uri) == Failure(InvalidUri)
            case OtherScheme => Target(site, uri) == Failure(NotFileUri)
            case FileUri(_, raw) =>
              if raw == "" then Target(site, uri) == Failure(BadPath(EmptyPath))
              else if site.root <= Abs(site.cwd, raw) then Target(site, uri) == Success(Abs(site.cwd, raw))
              else Target(site, uri) == Failure(BadPath(OutsideWorkspace))
  {
    hide Abs, EnsureUnderRoot;
    match site.parse(uri) {
      case FileUri(_, raw) => UnderRootExactly(site.root, site.cwd, raw);
      case _ =>
    }
  }

  // ----- text changes

  /** The version an edit expects of the document is the one known, or none is known or
      expected at all. */
  predicate VersionsAgree(site: Site, uri: string, versions: Option<map<string, nat>>, expected: Option<nat>)
    requires site.parse(uri).FileUri?
  {
    var c := site.parse(uri).canonical;
    versions.None? || expected.None? || (c in versions.value && versions.value[c] == expected.value)
  }

  /** A text change whose version agrees does what the unversioned one does; any other is
      refused, for a missing version or for a different one. */
  lemma VersionsDecide(t: Tree, site: Site, uri: string, edits: seq<TextEdit>,
                       versions: Option<map<string, nat>>, expected: Option<nat>)
    requires ValidSite(site) && edits != [] && Target(site, uri).Success?
    ensures site.parse(uri).FileUri?
    ensures var c := site.parse(uri).canonical;
            var r := ApplyText(t, site, uri, edits, versions, expected);
            (VersionsAgree(site, uri, versions, expected) ==>
               r == ApplyText(t, site, uri, edits, None, None))
            && (r == Fail(t, MissingVersion) <==> versions.Some? && expected.Some? && c !in versions.value)
            && (r == Fail(t, VersionMismatch)
                <==> versions.Some? && expected.Some? && c in versions.value && versions.value[c] != expected.value)
  {
    hide EnsureUnderRoot, PatchText, WriteFile;
  }

  /** What an unversioned text change comes to, by what stands at its target. */
  lemma TextOutcome(t: Tree, site: Site, uri: string, edits: seq<TextEdit>, path: Path)
    requires ValidSite(site) && ValidTree(t) && edits != [] && Target(site, uri) == Success(path)
    ensures var r := ApplyText(t, site, uri, edits, None, None);
            if path !in t then r == Fail(t, Io(if Blocked(t, path) then NotDirectory else NotExist))
            else if t[path].Dir? then r == Fail(t, Io(IsDirectory))
            else match PatchText(t[path].content, edits)
                 case Failure(e) => r == Fail(t, BadTextEdit(e))
                 case Success(patched) => r == Effect(t[path := File(patched)], None)
  {
    hide Target, PatchText, ValidTree;
    if path in t { ParentIsDir(t, path); }
  }

  /** A change without edits is done before anything about it is looked at. */
  lemma NoEditsNoChange(t: Tree, site: Site, uri: string, versions: Option<map<string, nat>>, expected: Option<nat>)
    requires ValidSite(site)
    ensures ApplyText(t, site, uri, [], versions, expected) == Effect(t, None)
  {
  }

  /** Every operation on a URI that names no file under the root is refused for just that. */
  lemma BadTargetsRefused(t: Tree, site: Site, uri: string, e: ApplyError)
    requires ValidSite(site) && Target(site, uri) == Failure(e)
    ensures forall edits, versions, expected :: edits != [] ==>
              ApplyText(t, site, uri, edits, versions, expected) == Fail(t, e)
    ensures forall a, b :: ApplyCreate(t, site, CreateFile(uri, a, b)) == Fail(t, e)
    ensures forall a, b :: ApplyDelete(t, site, DeleteFile(uri, a, b)) == Fail(t, e)
    ensures forall dst, a, b :: ApplyRename(t, site, RenameFile(uri, dst, a, b)) == Fail(t, e)
    ensures forall src, p, a, b :: Target(site, src) == Success(p) && p in t ==>
              ApplyRename(t, site, RenameFile(src, uri, a, b)) == Fail(t, e)
  {
    hide Target;
  }

  // ----- refusals of the resource operations

  lemma CreateRefusals(t: Tree, site: Site, op: CreateFile, path: Path)
    requires ValidSite(site) && ValidTree(t) && Target(site, op.uri) == Success(path)
    ensures path in t && !Holds(op.overwrite) && !Holds(op.ignoreIfExists) ==>
              ApplyCreate(t, site, op) == Fail(t, AlreadyExists)
    ensures path in t && t[path].Dir? && Holds(op.overwrite) ==> ApplyCreate(t, site, op) == Fail(t, Io(Exists))
    ensures path !in t && Blocked(t, path) ==> ApplyCreate(t, site, op) == Fail(t, Io(NotDirectory))
  {
    hide Target, ValidTree;
    if path in t { ParentIsDir(t, path); }
  }

  lemma DeleteRefusals(t: Tree, site: Site, op: DeleteFile, path: Path)
    requires ValidSite(site) && ValidTree(t) && Target(site, op.uri) == Success(path)
    ensures path !in t && Blocked(t, path) ==> ApplyDelete(t, site, op) == Fail(t, Io(NotDirectory))
    ensures path !in t && !Blocked(t, path) && !Holds(op.ignoreIfNotExists) ==>
              ApplyDelete(t, site, op) == Fail(t, DoesNotExist)
    ensures path in t && path != [] && Subtree(t, path) != {path} && !Holds(op.recursive) ==>
              ApplyDelete(t, site, op) == Fail(t, Io(NotEmpty))
    ensures path == [] && !Holds(op.recursive) ==> ApplyDelete(t, site, op) == Fail(t, Io(Busy))
  {
    hide Target;
    if path in t && t[path].File? { NothingBelowFile(t, path); }
  }

  lemma RenameRefusals(t: Tree, site: Site, op: RenameFile, src: Path)
    requires ValidSite(site) && ValidTree(t) && Target(site, op.oldUri) == Success(src)
    ensures src !in t ==>
              ApplyRename(t, site, op) == Fail(t, if Blocked(t, src) then Io(NotDirectory) else DoesNotExist)
    ensures src in t && Target(site, op.newUri).Success? ==>
              var dst := Target(site, op.newUri).value;
              (dst in t && !Holds(op.overwrite) && !Holds(op.ignoreIfExists) ==>
                 ApplyRename(t, site, op) == Fail(t, AlreadyExists))
              && (dst !in t && Blocked(t, dst) ==> ApplyRename(t, site, op) == Fail(t, Io(NotDirectory)))
  {
    hide Target;
  }

  // ----- one document change

  /** The first arm present decides what a change is, and the policy whether it is done:
      a resource operation it does not allow is refused and changes nothing. */
  lemma PolicyDecides(t: Tree, site: Site, c: DocumentChange, opts: Options)
    requires ValidSite(site)
    ensures c.textEdit.Some? ==>
              ApplyStep(t, site, Document(c), opts)
              == ApplyText(t, site, c.textEdit.value.document.uri, c.textEdit.value.edits,
                           opts.currentVersions, c.textEdit.value.document.version)
    ensures c.textEdit.None? && c.create.Some? ==>
              ApplyStep(t, site, Document(c), opts)
              == if opts.allowCreate then ApplyCreate(t, site, c.create.value) else Fail(t, DisabledByPolicy)
    ensures c.textEdit.None? && c.create.None? && c.rename.Some? ==>
              ApplyStep(t, site, Document(c), opts)
              == if opts.allowRename then ApplyRename(t, site, c.rename.value) else Fail(t, DisabledByPolicy)
    ensures c.textEdit.None? && c.create.None? && c.rename.None? && c.delete.Some? ==>
              ApplyStep(t, site, Document(c), opts)
              == if opts.allowDelete then ApplyDelete(t, site, c.delete.value) else Fail(t, DisabledByPolicy)
    ensures c == DocumentChange(None, None, None, None) ==>
              ApplyStep(t, site, Document(c), opts) == Fail(t, UnsupportedChange)
  {
    hide ApplyText, ApplyCreate, ApplyRename, ApplyDelete;
  }

  /** A change under `Changes` expects no version. */
  lemma PlainTextStep(t: Tree, site: Site, uri: string, edits: seq<TextEdit>, opts: Options)
    requires ValidSite(site)
    ensures ApplyStep(t, site, Text(uri, edits), opts) == ApplyText(t, site, uri, edits, None, None)
  {
    hide Target, PatchText, WriteFile;
  }

  // ----- whole edits

  /** The trees a run goes through when every step succeeds. */
  ghost predicate GoesThrough(site: Site, program: seq<Step>, opts: Options, trees: seq<Tree>)
    requires ValidSite(site)
  {
    |trees| == |program| + 1
    && forall i :: 0 <= i < |program| ==>
         ApplyStep(trees[i], site, program[i], opts) == Effect(trees[i + 1], None)
  }

  /** A run succeeds exactly when each step does on what the step before it left. */
  lemma RunSucceedsExactly(t: Tree, site: Site, program: seq<Step>, opts: Options, r: Tree)
    requires ValidSite(site)
    ensures Run(t, site, program, opts) == Outcome(r, None)
       <==> exists trees :: GoesThrough(site, program, opts, trees) && trees[0] == t && trees[|program|] == r
  {
    if Run(t, site, program, opts) == Outcome(r, None) {
      var trees := TreesOf(t, site, program, opts);
    }
    forall trees | GoesThrough(site, program, opts, trees) && trees[0] == t && trees[|program|] == r
      ensures Run(t, site, program, opts) == Outcome(r, None)
    {
      RunFollows(site, program, opts, trees);
    }
  }

  lemma {:induction false} TreesOf(t: Tree, site: Site, program: seq<Step>, opts: Options) returns (trees: seq<Tree>)
    requires ValidSite(site) && Run(t, site, program, opts).failed.None?
    ensures GoesThrough(site, program, opts, trees)
    ensures trees[0] == t && trees[|program|] == Run(t, site, program, opts).tree
  {
    hide ApplyStep;
    if program == [] {
      trees := [t];
    } else {
      var n := |program| - 1;
      var init := TreesOf(t, site, program[..n], opts);
      trees := init + [Run(t, site, program, opts).tree];
    }
  }

  lemma {:induction false} RunFollows(site: Site, program: seq<Step>, opts: Options, trees: seq<Tree>)
    requires ValidSite(site) && GoesThrough(site, program, opts, trees)
    ensures Run(trees[0], site, program, opts) == Outcome(trees[|program|], None)
    decreases |program|
  {
    hide ApplyStep;
    if program != [] {
      var n := |program| - 1;
      RunFollows(site, program[..n], opts, trees[..n + 1]);
    }
  }

  /** The first step that fails ends the run, with its error and its place in the program. */
  lemma RunFailsAt(t: Tree, site: Site, program: seq<Step>, opts: Options, k: nat)
    requires ValidSite(site) && k < |program| && Run(t, site, program[..k], opts).failed.None?
    requires ApplyStep(Run(t, site, program[..k], opts).tree, site, program[k], opts).error.Some?
    ensures var e := ApplyStep(Run(t, site, program[..k], opts).tree, site, program[k], opts);
            Run(t, site, program, opts) == Outcome(e.tree, Some((k, e.error.value)))
  {
    hide ApplyStep, Run;
    RunPrefixStep(t, site, program, opts, k);
    RunStopped(t, site, program, opts, k + 1);
  }

  /** The program of an edit: first one text change for each URI, with that URI's own
      edits; then the document changes in their own order; nothing else. */
  lemma ProgramExactly(e: WorkspaceEdit)
    ensures |ProgramOf(e)| == |e.changes| + |e.documentChanges|
    ensures forall i :: 0 <= i < |e.changes| ==>
              ProgramOf(e)[i].Text? && ProgramOf(e)[i].uri in e.changes
              && ProgramOf(e)[i].edits == e.changes[ProgramOf(e)[i].uri]
    ensures forall j :: 0 <= j < |e.documentChanges| ==>
              ProgramOf(e)[|e.changes| + j] == Document(e.documentChanges[j])
  {
    DistinctCount(Sorted(e.changes.Keys), e.changes.Keys);
    assert |e.changes| == |e.changes.Keys|;
    ProgramSteps(e);
    hide ProgramOf;
  }

  /** Each URI comes up once, in the order of its bytes. */
  lemma ProgramOrder(e: WorkspaceEdit)
    ensures |e.changes| <= |ProgramOf(e)|
    ensures forall i, j :: 0 <= i < j < |e.changes| ==>
              ProgramOf(e)[i].Text? && ProgramOf(e)[j].Text? && ProgramOf(e)[i].uri != ProgramOf(e)[j].uri
              && BytesLeq(Bytes(ProgramOf(e)[i].uri), Bytes(ProgramOf(e)[j].uri))
    ensures forall u <- e.changes :: Text(u, e.changes[u]) in ProgramOf(e)[..|e.changes|]
  {
    var uris := Sorted(e.changes.Keys);
    DistinctCount(uris, e.changes.Keys);
    assert |e.changes| == |e.changes.Keys|;
    ProgramSteps(e);
    SortedBytes(e.changes.Keys);
    assert forall u :: u in e.changes ==> u in uris;
    hide Sorted, ProgramOf, BytesLeq, Bytes;
    TextPartOrder(ProgramOf(e), uris, e.changes);
  }

  lemma TextPartOrder(program: seq<Step>, uris: seq<string>, changes: map<string, seq<TextEdit>>)
    requires |uris| <= |program| && forall u <- changes :: u in uris
    requires forall i :: 0 <= i < |uris| ==> uris[i] in changes && program[i] == Text(uris[i], changes[uris[i]])
    requires forall i, j :: 0 <= i < j < |uris| ==>
               uris[i] != uris[j] && BytesLeq(Bytes(uris[i]), Bytes(uris[j]))
    ensures forall i, j :: 0 <= i < j < |uris| ==>
              program[i].Text? && program[j].Text? && program[i].uri != program[j].uri
              && BytesLeq(Bytes(program[i].uri), Bytes(program[j].uri))
    ensures forall u <- changes :: Text(u, changes[u]) in program[..|uris|]
  {
    hide BytesLeq, Bytes;
    forall u | u in changes ensures Text(u, changes[u]) in program[..|uris|] {
      var i :| 0 <= i < |uris| && uris[i] == u;
      assert program[..|uris|][i] == Text(u, changes[u]);
    }
  }

  lemma ProgramSteps(e: WorkspaceEdit)
    ensures var uris := Sorted(e.changes.Keys);
            |ProgramOf(e)| == |uris| + |e.documentChanges|
            && (forall i :: 0 <= i < |uris| ==>
                  uris[i] in e.changes && ProgramOf(e)[i] == Text(uris[i], e.changes[uris[i]]))
            && forall j :: 0 <= j < |e.documentChanges| ==>
                 ProgramOf(e)[|uris| + j] == Document(e.documentChanges[j])
  {
    var uris := Sorted(e.changes.Keys);
    hide Sorted;
    forall i | 0 <= i < |uris| ensures uris[i] in e.changes { assert uris[i] in uris; }
  }

  lemma SortedBytes(members: set<string>)
    ensures forall i, j :: 0 <= i < j < |Sorted(members)| ==>
              Sorted(members)[i] != Sorted(members)[j]
              && BytesLeq(Bytes(Sorted(members)[i]), Bytes(Sorted(members)[j]))
  {
    var s := Sorted(members);
    hide Sorted, Leq, BytesLeq, Bytes;
    forall i, j | 0 <= i < j < |s| ensures s[i] != s[j] && BytesLeq(Bytes(s[i]), Bytes(s[j])) {
      LeqIsByteOrder(s[i], s[j]);
    }
  }

  /** A sorted listing is as long as its set is large. */
  lemma {:induction false} DistinctCount<T>(s: seq<T>, members: set<T>)
    requires forall i, j :: 0 <= i < j < |s| ==> s[i] != s[j]
    requires forall x :: x in s <==> x in members
    ensures |s| == |members|
    decreases |s|
  {
    if s == [] {
      assert members == {};
    } else {
      var n := |s| - 1;
      assert s == s[..n] + [s[n]];
      DistinctCount(s[..n], members - {s[n]});
    }
  }

  /** The answer to a run: done, or the place and error of the failing change; the place is
      exact below 2^32 and wraps there. */
  lemma AnswerTells(k: nat, e: ApplyError)
    ensures ResultOf(None) == AllApplied
    ensures k < 0x1_0000_0000 ==> ResultOf(Some((k, e))) == Failed(k, e)
    ensures ResultOf(Some((k + 0x1_0000_0000, e))) == ResultOf(Some((k, e)))
  {
  }

  lemma OneStepProgram(c: DocumentChange)
    ensures ProgramOf(WorkspaceEdit(map[], [c], map[])) == [Document(c)]
  {
    var e := WorkspaceEdit(map[], [c], map[]);
    ProgramExactly(e);
    hide ProgramOf;
    assert |ProgramOf(e)| == 1 && e.documentChanges[0] == c;
    assert ProgramOf(e)[|e.changes| + 0] == Document(c);
  }

  /** One change in an otherwise empty edit, as the answer and the files show it. */
  lemma OneChangeRuns(t: Tree, site: Site, c: DocumentChange, opts: Options)
    requires ValidSite(site)
    ensures var e := WorkspaceEdit(map[], [c], map[]);
            var done := ApplyStep(t, site, Document(c), opts);
            var r := Run(t, site, ProgramOf(e), opts);
            r.tree == done.tree
            && ResultOf(r.failed) == match done.error case None => AllApplied case Some(x) => Failed(0, x)
  {
    var e := WorkspaceEdit(map[], [c], map[]);
    hide ApplyStep, ProgramOf, Run;
    OneStepProgram(c);
    EmptyRun(t, site, [Document(c)], opts);
    RunPrefixStep(t, site, [Document(c)], opts, 0);
    assert [Document(c)][..1] == [Document(c)];
  }
}
