/** Workspace edits and what applying one does to a file tree. */
module WorkspaceEdits {
  import opened Common
  import opened TextEdits
  import opened Paths
  import opened FileTree

  // ----- edits

  datatype VersionedDocument = VersionedDocument(uri: string, version: Option<nat>)

  datatype TextDocumentEdit = TextDocumentEdit(document: VersionedDocument, edits: seq<TextEdit>)

  datatype CreateFile = CreateFile(uri: string, overwrite: Option<bool>, ignoreIfExists: Option<bool>)

  datatype RenameFile =
    RenameFile(oldUri: string, newUri: string, overwrite: Option<bool>, ignoreIfExists: Option<bool>)

  datatype DeleteFile = DeleteFile(uri: string, recursive: Option<bool>, ignoreIfNotExists: Option<bool>)

  /** One document change: four optional arms, of which the first present one counts. */
  datatype DocumentChange = DocumentChange(
    textEdit: Option<TextDocumentEdit>,
    create: Option<CreateFile>,
    rename: Option<RenameFile>,
    delete: Option<DeleteFile>)

  datatype Annotation =
    Annotation(caption: string, needsConfirmation: Option<bool>, description: Option<string>)

  datatype WorkspaceEdit = WorkspaceEdit(
    changes: map<string, seq<TextEdit>>,
    documentChanges: seq<DocumentChange>,
    annotations: map<string, Annotation>)

  // ----- applying them

  /** What parsing a URI gives; `canonical` is the parsed URI as a string. */
  datatype ParsedUri = BadUri | OtherScheme | FileUri(canonical: string, path: string)

  type UriParser = string -> ParsedUri

  /** Where an edit is applied: the cleaned root, the working directory, the parser. */
  datatype Site = Site(root: Path, cwd: Path, parse: UriParser)

  datatype Options = Options(
    allowCreate: bool,
    allowRename: bool,
    allowDelete: bool,
    currentVersions: Option<map<string, nat>>)

  datatype ApplyError =
    | InvalidUri
    | NotFileUri
    | BadPath(path: PathError)
    | MissingVersion
    | VersionMismatch
    | Io(fs: FsError)
    | BadTextEdit(edit: EditError)
    | DisabledByPolicy
    | AlreadyExists
    | DoesNotExist
    | UnsupportedChange

  type Applied = Effect<ApplyError>

  function Fail(t: Tree, e: ApplyError): Applied { Effect(t, Some(e)) }

  function Lifted(e: Effect<FsError>): Applied {
    Effect(e.tree, match e.error case None => None case Some(x) => Some(Io(x)))
  }

  predicate Holds(flag: Option<bool>) { flag == Some(true) }

  /** The path a file URI under the root names. */
  function Target(site: Site, uri: string): Result<Path, ApplyError>
    requires Clean(site.cwd)
  {
    match site.parse(uri)
    case BadUri => Failure(InvalidUri)
    case OtherScheme => Failure(NotFileUri)
    case FileUri(_, raw) =>
      match EnsureUnderRoot(site.root, site.cwd, raw)
      case Failure(e) => Failure(BadPath(e))
      case Success(path) => Success(path)
  }

  /** A versioned edit against the known versions, when there are any. */
  function VersionCheck(site: Site, uri: string, versions: Option<map<string, nat>>, expected: Option<nat>)
    : Option<ApplyError>
  {
    if versions.None? || expected.None? then None
    else
      var key := match site.parse(uri) case FileUri(c, _) => c case _ => uri;
      if key !in versions.value then Some(MissingVersion)
      else if versions.value[key] != expected.value then Some(VersionMismatch)
      else None
  }

  function ApplyText(t: Tree, site: Site, uri: string, edits: seq<TextEdit>,
                     versions: Option<map<string, nat>>, expected: Option<nat>): Applied
    requires Clean(site.cwd)
  {
    if edits == [] then Effect(t, None) else
      match Target(site, uri)
      case Failure(e) => Fail(t, e)
      case Success(path) =>
        match VersionCheck(site, uri, versions, expected)
        case Some(e) => Fail(t, e)
        case None =>
          match ReadFile(t, path)
          case Failure(e) => Fail(t, Io(e))
          case Success(content) =>
            match PatchText(content, edits)
            case Failure(e) => Fail(t, BadTextEdit(e))
            case Success(patched) => Lifted(WriteFile(t, path, patched))
  }

  function ApplyCreate(t: Tree, site: Site, op: CreateFile): Applied
    requires Clean(site.cwd)
  {
    match Target(site, op.uri)
    case Failure(e) => Fail(t, e)
    case Success(path) =>
      match StatOf(t, path)
      case Found(_) =>
        if Holds(op.overwrite) then Lifted(WriteFile(t, path, []))
        else if Holds(op.ignoreIfExists) then Effect(t, None)
        else Fail(t, AlreadyExists)
      case BelowFile => Fail(t, Io(NotDirectory))
      case Missing => Lifted(WriteFile(t, path, []))
  }

  /** Clearing the way for a rename: the tree, whether to skip it, the error. */
  function PrepareDestination(t: Tree, path: Path, op: RenameFile): (Applied, bool) {
    match StatOf(t, path)
    case Found(_) =>
      if Holds(op.overwrite) then (Lifted(RemoveAll(t, path)), false)
      else if Holds(op.ignoreIfExists) then (Effect(t, None), true)
      else (Fail(t, AlreadyExists), false)
    case Missing => (Effect(t, None), false)
    case BelowFile => (Fail(t, Io(NotDirectory)), false)
  }

  /** The move itself, into a directory made for it. */
  function Place(t: Tree, oldPath: Path, newPath: Path): Applied {
    var made := MkdirAll(t, Parent(newPath));
    if made.error.Some? then Lifted(made) else Lifted(Rename(made.tree, oldPath, newPath))
  }

  function ApplyRename(t: Tree, site: Site, op: RenameFile): Applied
    requires Clean(site.cwd)
  {
    match Target(site, op.oldUri)
    case Failure(e) => Fail(t, e)
    case Success(oldPath) =>
      match StatOf(t, oldPath)
      case Missing => Fail(t, DoesNotExist)
      case BelowFile => Fail(t, Io(NotDirectory))
      case Found(_) =>
        match Target(site, op.newUri)
        case Failure(e) => Fail(t, e)
        case Success(newPath) =>
          var (ready, skip) := PrepareDestination(t, newPath, op);
          if ready.error.Some? || skip then ready
          else Place(ready.tree, oldPath, newPath)
  }

  function ApplyDelete(t: Tree, site: Site, op: DeleteFile): Applied
    requires Clean(site.cwd)
  {
    match Target(site, op.uri)
    case Failure(e) => Fail(t, e)
    case Success(path) =>
      match StatOf(t, path)
      case Missing => if Holds(op.ignoreIfNotExists) then Effect(t, None) else Fail(t, DoesNotExist)
      case BelowFile => Fail(t, Io(NotDirectory))
      case Found(node) =>
        if node.Dir? && Holds(op.recursive) then Lifted(RemoveAll(t, path)) else Lifted(Remove(t, path))
  }

  function ApplyChange(t: Tree, site: Site, change: DocumentChange, opts: Options): Applied
    requires Clean(site.cwd)
  {
    if change.textEdit.Some? then
      var e := change.textEdit.value;
      ApplyText(t, site, e.document.uri, e.edits, opts.currentVersions, e.document.version)
    else if change.create.Some? then
      if opts.allowCreate then ApplyCreate(t, site, change.create.value) else Fail(t, DisabledByPolicy)
    else if change.rename.Some? then
      if opts.allowRename then ApplyRename(t, site, change.rename.value) else Fail(t, DisabledByPolicy)
    else if change.delete.Some? then
      if opts.allowDelete then ApplyDelete(t, site, change.delete.value) else Fail(t, DisabledByPolicy)
    else Fail(t, UnsupportedChange)
  }

  // ----- programs

  /** An edit as a program: unversioned text changes, then document changes. */
  datatype Step = Text(uri: string, edits: seq<TextEdit>) | Document(change: DocumentChange)

  function ApplyStep(t: Tree, site: Site, step: Step, opts: Options): Applied
    requires Clean(site.cwd)
  {
    match step
    case Text(uri, edits) => ApplyText(t, site, uri, edits, opts.currentVersions, None)
    case Document(change) => ApplyChange(t, site, change, opts)
  }

  datatype Outcome = Outcome(tree: Tree, failed: Option<(nat, ApplyError)>)

  /** Steps in order until one fails. */
  function Run(t: Tree, site: Site, program: seq<Step>, opts: Options): Outcome
    requires Clean(site.cwd)
  {
    if program == [] then Outcome(t, None) else
      var n := |program| - 1;
      var before := Run(t, site, program[..n], opts);
      if before.failed.Some? then before else
        var last := ApplyStep(before.tree, site, program[n], opts);
        Outcome(last.tree, match last.error case None => None case Some(e) => Some((n, e)))
  }
}
