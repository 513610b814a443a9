/** The interpreter as it runs: a file system changed step by step. */
module Applier {
  import opened Common
  import opened Utf8
  import opened TextEdits
  import opened EditEngine
  import opened Paths
  import FileTree
  import opened WorkspaceEdits
  import opened Strings

  /** The operating system's files, changed only through its calls. */
  class FileSystem {
    var tree: FileTree.Tree

    constructor (tree: FileTree.Tree)
      ensures this.tree == tree
    {
      this.tree := tree;
    }

    method MkdirAll(p: Path) returns (error: Option<FileTree.FsError>)
      modifies this
      ensures FileTree.Effect(tree, error) == FileTree.MkdirAll(old(tree), p)
    {
      var e := FileTree.MkdirAll(tree, p);
      tree, error := e.tree, e.error;
    }

    method WriteTextFile(p: Path, content: Utf8.Text) returns (error: Option<FileTree.FsError>)
      modifies this
      ensures FileTree.Effect(tree, error) == FileTree.WriteFile(old(tree), p, content)
    {
      error := MkdirAll(FileTree.Parent(p));
      if error.Some? { return; }
      if FileTree.IsDir(tree, p) {
        return Some(FileTree.Exists);
      }
      tree := tree[p := FileTree.File(content)];
    }

    method Remove(p: Path) returns (error: Option<FileTree.FsError>)
      modifies this
      ensures FileTree.Effect(tree, error) == FileTree.Remove(old(tree), p)
    {
      var e := FileTree.Remove(tree, p);
      tree, error := e.tree, e.error;
    }

    method RemoveAll(p: Path) returns (error: Option<FileTree.FsError>)
      modifies this
      ensures FileTree.Effect(tree, error) == FileTree.RemoveAll(old(tree), p)
    {
      var e := FileTree.RemoveAll(tree, p);
      tree, error := e.tree, e.error;
    }

    method Rename(oldPath: Path, newPath: Path) returns (error: Option<FileTree.FsError>)
      modifies this
      ensures FileTree.Effect(tree, error) == FileTree.Rename(old(tree), oldPath, newPath)
    {
      var e := FileTree.Rename(tree, oldPath, newPath);
      tree, error := e.tree, e.error;
    }
  }

  function WrapIo(e: Option<FileTree.FsError>): Option<ApplyError> {
    match e case None => None case Some(x) => Some(Io(x))
  }

  method ApplyTextDocumentChanges(fs: FileSystem, site: Site, uri: string, edits: seq<TextEdit>,
                                  versions: Option<map<string, nat>>, expected: Option<nat>)
    returns (error: Option<ApplyError>)
    requires Clean(site.cwd)
    modifies fs
    ensures FileTree.Effect(fs.tree, error)
         == ApplyText(old(fs.tree), site, uri, edits, versions, expected)
  {
    hide PatchText, FileTree.WriteFile, EnsureUnderRoot;
    if |edits| == 0 { return None; }
    var target := Target(site, uri);
    if target.Failure? { return Some(target.error); }
    if versions.Some? && expected.Some? {
      var parsed := site.parse(uri);
      if parsed.canonical !in versions.value { return Some(MissingVersion); }
      if versions.value[parsed.canonical] != expected.value { return Some(VersionMismatch); }
    }
    var content := FileTree.ReadFile(fs.tree, target.value);
    if content.Failure? { return Some(Io(content.error)); }
    var patched := ApplyTextEdits(content.value, edits);
    if patched.Failure? { return Some(BadTextEdit(patched.error)); }
    var io := fs.WriteTextFile(target.value, patched.value);
    error := WrapIo(io);
  }

  method ApplyResourceCreate(fs: FileSystem, site: Site, op: CreateFile) returns (error: Option<ApplyError>)
    requires Clean(site.cwd)
    modifies fs
    ensures FileTree.Effect(fs.tree, error) == ApplyCreate(old(fs.tree), site, op)
  {
    hide Target, FileTree.WriteFile;
    var target := Target(site, op.uri);
    if target.Failure? { return Some(target.error); }
    var stat := FileTree.StatOf(fs.tree, target.value);
    if stat.Found? {
      if op.overwrite.Some? && op.overwrite.value {
        var io := fs.WriteTextFile(target.value, []);
        return WrapIo(io);
      }
      if op.ignoreIfExists.Some? && op.ignoreIfExists.value { return None; }
      return Some(AlreadyExists);
    }
    if !stat.Missing? { return Some(Io(FileTree.NotDirectory)); }
    var io := fs.WriteTextFile(target.value, []);
    error := WrapIo(io);
  }

  method PrepareRenameDestination(fs: FileSystem, path: Path, op: RenameFile)
    returns (skip: bool, error: Option<ApplyError>)
    modifies fs
    ensures (FileTree.Effect(fs.tree, error), skip) == PrepareDestination(old(fs.tree), path, op)
  {
    match FileTree.StatOf(fs.tree, path) {
      case Found(_) =>
        if op.overwrite.Some? && op.overwrite.value {
          var io := fs.RemoveAll(path);
          skip, error := false, WrapIo(io);
        } else if op.ignoreIfExists.Some? && op.ignoreIfExists.value {
          skip, error := true, None;
        } else {
          skip, error := false, Some(AlreadyExists);
        }
      case Missing => skip, error := false, None;
      case BelowFile => skip, error := false, Some(Io(FileTree.NotDirectory));
    }
  }

  method ApplyResourceRename(fs: FileSystem, site: Site, op: RenameFile) returns (error: Option<ApplyError>)
    requires Clean(site.cwd)
    modifies fs
    ensures FileTree.Effect(fs.tree, error) == ApplyRename(old(fs.tree), site, op)
  {
    hide Target, PrepareDestination, FileTree.MkdirAll, FileTree.Rename;
    var source := Target(site, op.oldUri);
    if source.Failure? { return Some(source.error); }
    match FileTree.StatOf(fs.tree, source.value) {
      case Missing => return Some(DoesNotExist);
      case BelowFile => return Some(Io(FileTree.NotDirectory));
      case Found(_) =>
    }
    var destination := Target(site, op.newUri);
    if destination.Failure? { return Some(destination.error); }
    var skip: bool;
    skip, error := PrepareRenameDestination(fs, destination.value, op);
    if error.Some? || skip { return; }
    var made := fs.MkdirAll(FileTree.Parent(destination.value));
    if made.Some? { return WrapIo(made); }
    var moved := fs.Rename(source.value, destination.value);
    error := WrapIo(moved);
  }

  method ApplyResourceDelete(fs: FileSystem, site: Site, op: DeleteFile) returns (error: Option<ApplyError>)
    requires Clean(site.cwd)
    modifies fs
    ensures FileTree.Effect(fs.tree, error) == ApplyDelete(old(fs.tree), site, op)
  {
    hide Target, FileTree.RemoveAll, FileTree.Remove;
    var target := Target(site, op.uri);
    if target.Failure? { return Some(target.error); }
    var io: Option<FileTree.FsError>;
    match FileTree.StatOf(fs.tree, target.value) {
      case Missing =>
        return if op.ignoreIfNotExists.Some? && op.ignoreIfNotExists.value then None else Some(DoesNotExist);
      case BelowFile => return Some(Io(FileTree.NotDirectory));
      case Found(node) =>
        if node.Dir? && op.recursive.Some? && op.recursive.value {
          io := fs.RemoveAll(target.value);
        } else {
          io := fs.Remove(target.value);
        }
    }
    error := WrapIo(io);
  }

  method ApplyDocumentChange(fs: FileSystem, site: Site, change: DocumentChange, opts: Options)
    returns (error: Option<ApplyError>)
    requires Clean(site.cwd)
    modifies fs
    ensures FileTree.Effect(fs.tree, error) == ApplyChange(old(fs.tree), site, change, opts)
  {
    hide ApplyText, ApplyCreate, ApplyRename, ApplyDelete;
    if change.textEdit.Some? {
      var e := change.textEdit.value;
      error := ApplyTextDocumentChanges(fs, site, e.document.uri, e.edits, opts.currentVersions, e.document.version);
    } else if change.create.Some? {
      if !opts.allowCreate { return Some(DisabledByPolicy); }
      error := ApplyResourceCreate(fs, site, change.create.value);
    } else if change.rename.Some? {
      if !opts.allowRename { return Some(DisabledByPolicy); }
      error := ApplyResourceRename(fs, site, change.rename.value);
    } else if change.delete.Some? {
      if !opts.allowDelete { return Some(DisabledByPolicy); }
      error := ApplyResourceDelete(fs, site, change.delete.value);
    } else {
      error := Some(UnsupportedChange);
    }
  }

  // ----- whole edits

  const UINT32: nat := 0x1_0000_0000

  /** The result sent back: the failing change is counted in 32 bits. */
  datatype ApplyResult = RootRequired | AllApplied | Failed(index: nat, reason: ApplyError)

  ghost function TextSteps(uris: seq<string>, changes: map<string, seq<TextEdit>>): seq<Step>
    requires forall u <- uris :: u in changes
  {
    seq(|uris|, i requires 0 <= i < |uris| => assert uris[i] in uris; Text(uris[i], changes[uris[i]]))
  }

  ghost function DocumentSteps(changes: seq<DocumentChange>): seq<Step> {
    seq(|changes|, i requires 0 <= i < |changes| => Document(changes[i]))
  }

  /** The program an edit stands for: `Changes` by sorted URI, then `DocumentChanges`. */
  ghost function ProgramOf(edit: WorkspaceEdit): seq<Step> {
    TextSteps(Sorted(edit.changes.Keys), edit.changes) + DocumentSteps(edit.documentChanges)
  }

  /** A count held in a `uint32`. */
  function Wrapped(n: nat): nat { n % UINT32 }

  function ResultOf(failed: Option<(nat, ApplyError)>): ApplyResult {
    match failed
    case None => AllApplied
    case Some((k, e)) => Failed(Wrapped(k), e)
  }

  lemma RunPrefixStep(t: FileTree.Tree, site: Site, program: seq<Step>, opts: Options, i: nat)
    requires Clean(site.cwd) && i < |program| && Run(t, site, program[..i], opts).failed.None?
    ensures var now := ApplyStep(Run(t, site, program[..i], opts).tree, site, program[i], opts);
            Run(t, site, program[..i + 1], opts)
            == Outcome(now.tree, match now.error case None => None case Some(e) => Some((i, e)))
  {
    hide ApplyStep;
    assert program[..i + 1][..i] == program[..i];
  }

  lemma {:induction false} RunStopped(t: FileTree.Tree, site: Site, program: seq<Step>, opts: Options, i: nat)
    requires Clean(site.cwd) && i <= |program| && Run(t, site, program[..i], opts).failed.Some?
    ensures Run(t, site, program, opts) == Run(t, site, program[..i], opts)
  {
    hide ApplyStep;
    if i < |program| {
      var n := |program| - 1;
      assert program[..n][..i] == program[..i];
      RunStopped(t, site, program[..n], opts, i);
    } else {
      assert program[..i] == program;
    }
  }

  /** Running two programs in a row; a failure in the second is counted from its start. */
  lemma {:induction false} RunConcat(t: FileTree.Tree, site: Site, a: seq<Step>, b: seq<Step>, opts: Options)
    requires Clean(site.cwd)
    ensures var first := Run(t, site, a, opts);
            Run(t, site, a + b, opts) ==
            if first.failed.Some? then first
            else var second := Run(first.tree, site, b, opts);
                 Outcome(second.tree, match second.failed case None => None case Some((k, e)) => Some((|a| + k, e)))
    decreases |b|
  {
    hide ApplyStep;
    if b == [] {
      assert a + b == a;
    } else {
      var n := |b| - 1;
      RunConcat(t, site, a, b[..n], opts);
      assert (a + b)[..|a + b| - 1] == a + b[..n] && (a + b)[|a + b| - 1] == b[n];
    }
  }

  /** The loop over `Changes`. */
  method ApplyChanges(fs: FileSystem, site: Site, uris: seq<string>, changes: map<string, seq<TextEdit>>, opts: Options)
    returns (failed: Option<(nat, ApplyError)>)
    requires Clean(site.cwd) && forall u <- uris :: u in changes
    modifies fs
    ensures Outcome(fs.tree, failed) == Run(old(fs.tree), site, TextSteps(uris, changes), opts)
  {
    ghost var program, start := TextSteps(uris, changes), fs.tree;
    hide Run, ApplyStep, ApplyText;
    EmptyRun(start, site, program, opts);
    for i := 0 to |uris|
      invariant Run(start, site, program[..i], opts) == Outcome(fs.tree, None)
    {
      assert uris[i] in uris;
      TextStepIs(fs.tree, site, uris[i], changes[uris[i]], opts);
      RunPrefixStep(start, site, program, opts, i);
      var error := ApplyTextDocumentChanges(fs, site, uris[i], changes[uris[i]], opts.currentVersions, None);
      if error.Some? {
        RunStopped(start, site, program, opts, i + 1);
        return Some((i, error.value));
      }
    }
    assert program[..|uris|] == program;
    failed := None;
  }

  /** The loop over `DocumentChanges`. */
  method ApplyDocumentChanges(fs: FileSystem, site: Site, changes: seq<DocumentChange>, opts: Options)
    returns (failed: Option<(nat, ApplyError)>)
    requires Clean(site.cwd)
    modifies fs
    ensures Outcome(fs.tree, failed) == Run(old(fs.tree), site, DocumentSteps(changes), opts)
  {
    ghost var program, start := DocumentSteps(changes), fs.tree;
    hide Run, ApplyStep, ApplyChange;
    EmptyRun(start, site, program, opts);
    for j := 0 to |changes|
      invariant Run(start, site, program[..j], opts) == Outcome(fs.tree, None)
    {
      DocumentStepIs(fs.tree, site, changes[j], opts);
      RunPrefixStep(start, site, program, opts, j);
      var error := ApplyDocumentChange(fs, site, changes[j], opts);
      if error.Some? {
        RunStopped(start, site, program, opts, j + 1);
        return Some((j, error.value));
      }
    }
    assert program[..|changes|] == program;
    failed := None;
  }

  method ApplyWorkspaceEdit(fs: FileSystem, rawRoot: string, cwd: Path, parse: UriParser,
                            edit: WorkspaceEdit, opts: Options) returns (result: ApplyResult)
    requires Clean(cwd)
    modifies fs
    ensures TrimSpace(rawRoot) == "" ==> result == RootRequired && fs.tree == old(fs.tree)
    ensures TrimSpace(rawRoot) != "" ==>
              var r := Run(old(fs.tree), Site(Abs(cwd, rawRoot), cwd, parse), ProgramOf(edit), opts);
              result == ResultOf(r.failed) && fs.tree == r.tree
  {
    hide Run, TrimSpace, Abs, Sorted;
    if TrimSpace(rawRoot) == "" { return RootRequired; }
    var site := Site(Abs(cwd, rawRoot), cwd, parse);
    var uriSet := Sort(edit.changes.Keys);
    RunConcat(fs.tree, site, TextSteps(uriSet, edit.changes), DocumentSteps(edit.documentChanges), opts);
    var failed := ApplyChanges(fs, site, uriSet, edit.changes, opts);
    if failed.Some? { return Failed(Wrapped(failed.value.0), failed.value.1); }
    failed := ApplyDocumentChanges(fs, site, edit.documentChanges, opts);
    if failed.Some? { return Failed(Wrapped(|uriSet| + failed.value.0), failed.value.1); }
    result := AllApplied;
  }

  lemma EmptyRun(t: FileTree.Tree, site: Site, program: seq<Step>, opts: Options)
    requires Clean(site.cwd)
    ensures Run(t, site, program[..0], opts) == Outcome(t, None)
  {
    assert program[..0] == [];
  }

  lemma TextStepIs(t: FileTree.Tree, site: Site, uri: string, edits: seq<TextEdit>, opts: Options)
    requires Clean(site.cwd)
    ensures ApplyStep(t, site, Text(uri, edits), opts) == ApplyText(t, site, uri, edits, opts.currentVersions, None)
  {
  }

  lemma DocumentStepIs(t: FileTree.Tree, site: Site, change: DocumentChange, opts: Options)
    requires Clean(site.cwd)
    ensures ApplyStep(t, site, Document(change), opts) == ApplyChange(t, site, change, opts)
  {
  }
}
