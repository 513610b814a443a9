/** Workspace edits on the wire, and the conversions both ways. */
module Wire {
  import opened Common
  import opened Utf8
  import opened TextEdits
  import opened WorkspaceEdits

  type uint32 = n: int | 0 <= n < 0x1_0000_0000
  type int32 = n: int | -0x8000_0000 <= n < 0x8000_0000

  datatype WirePosition = WirePosition(line: uint32, character: uint32)
  datatype WireRange = WireRange(start: WirePosition, end: WirePosition)
  datatype WireTextEdit = WireTextEdit(range: WireRange, newText: Text)

  datatype WireElement =
    | Plain(edit: WireTextEdit)
    | Annotated(edit: WireTextEdit, annotationId: string)
    | Snippet
    | NilElement

  datatype WireDocument = WireDocument(uri: string, version: Option<int32>)

  /** Two flags of a resource operation, absent together when neither is set. */
  datatype WireFlags = WireFlags(first: Option<bool>, second: Option<bool>)

  datatype WireChange =
    | TextDocument(document: WireDocument, edits: seq<WireElement>)
    | Create(uri: string, flags: Option<WireFlags>)
    | Rename(oldUri: string, newUri: string, flags: Option<WireFlags>)
    | Delete(uri: string, flags: Option<WireFlags>)
    | NilChange

  datatype WireEdit = WireEdit(
    changes: map<string, seq<WireTextEdit>>,
    documentChanges: seq<WireChange>,
    annotations: map<string, Annotation>)

  /** What the URI library decides: strict parsing and the file-scheme test. */
  datatype UriRules = UriRules(strict: string -> Option<string>, isFile: string -> bool)

  function RequiredFile(rules: UriRules, raw: string): Option<string> {
    match rules.strict(raw)
    case None => None
    case Some(u) => if rules.isFile(u) then Some(u) else None
  }

  // ----- to the wire

  function PositionTo(line: int, character: int): Option<WirePosition> {
    if 0 <= line < 0x1_0000_0000 && 0 <= character < 0x1_0000_0000
    then Some(WirePosition(line, character)) else None
  }

  function EditTo(e: TextEdit): Option<WireTextEdit> {
    match PositionTo(e.range.startLine, e.range.startColumn)
    case None => None
    case Some(start) =>
      match PositionTo(e.range.endLine, e.range.endColumn)
      case None => None
      case Some(end) => Some(WireTextEdit(WireRange(start, end), e.newText))
  }

  function ElementTo(e: TextEdit): Option<WireElement> {
    match EditTo(e)
    case None => None
    case Some(w) => Some(if e.annotation.None? then Plain(w) else Annotated(w, e.annotation.value))
  }

  function FlagsTo(first: Option<bool>, second: Option<bool>): Option<WireFlags> {
    if first.None? && second.None? then None else Some(WireFlags(first, second))
  }

  function VersionTo(v: Option<nat>): Option<Option<int32>> {
    match v
    case None => Some(None)
    case Some(n) => if n > 0x7FFF_FFFF then None else Some(Some(n))
  }

  function TextDocumentTo(rules: UriRules, e: TextDocumentEdit): Option<WireChange> {
    if e.document.uri == "" then None else
      match RequiredFile(rules, e.document.uri)
      case None => None
      case Some(u) =>
        match MapAll(ElementTo, e.edits)
        case None => None
        case Some(edits) =>
          match VersionTo(e.document.version)
          case None => None
          case Some(version) => Some(TextDocument(WireDocument(u, version), edits))
  }

  function CreateTo(rules: UriRules, c: CreateFile): Option<WireChange> {
    if c.uri == "" then None else
      match RequiredFile(rules, c.uri)
      case None => None
      case Some(u) => Some(Create(u, FlagsTo(c.overwrite, c.ignoreIfExists)))
  }

  function RenameTo(rules: UriRules, r: RenameFile): Option<WireChange> {
    if r.oldUri == "" || r.newUri == "" then None else
      match RequiredFile(rules, r.oldUri)
      case None => None
      case Some(o) =>
        match RequiredFile(rules, r.newUri)
        case None => None
        case Some(n) => Some(Rename(o, n, FlagsTo(r.overwrite, r.ignoreIfExists)))
  }

  function DeleteTo(rules: UriRules, d: DeleteFile): Option<WireChange> {
    if d.uri == "" then None else
      match RequiredFile(rules, d.uri)
      case None => None
      case Some(u) => Some(Delete(u, FlagsTo(d.recursive, d.ignoreIfNotExists)))
  }

  function ChangeTo(rules: UriRules, c: DocumentChange): Option<WireChange> {
    if c.textEdit.Some? then TextDocumentTo(rules, c.textEdit.value)
    else if c.create.Some? then CreateTo(rules, c.create.value)
    else if c.rename.Some? then RenameTo(rules, c.rename.value)
    else if c.delete.Some? then DeleteTo(rules, c.delete.value)
    else None
  }

  // ----- from the wire

  function EditFrom(w: WireTextEdit): TextEdit {
    TextEdit(Range(w.range.start.line, w.range.start.character, w.range.end.line, w.range.end.character),
             w.newText, None)
  }

  function ElementFrom(w: WireElement): Option<TextEdit> {
    match w
    case Plain(e) => Some(EditFrom(e))
    case Annotated(e, id) => Some(EditFrom(e).(annotation := Some(id)))
    case Snippet => None
    case NilElement => None
  }

  function VersionFrom(v: Option<int32>): Option<Option<nat>> {
    match v
    case None => Some(None)
    case Some(n) => if n < 0 then None else Some(Some(n))
  }

  function FlagsFrom(flags: Option<WireFlags>): WireFlags {
    match flags case None => WireFlags(None, None) case Some(f) => f
  }

  const NO_ARM := DocumentChange(None, None, None, None)

  function ChangeFrom(rules: UriRules, w: WireChange): Option<DocumentChange> {
    match w
    case TextDocument(document, edits) =>
      (match MapAll(ElementFrom, edits)
       case None => None
       case Some(converted) =>
         if !rules.isFile(document.uri) then None else
           match VersionFrom(document.version)
           case None => None
           case Some(version) =>
             Some(NO_ARM.(textEdit := Some(TextDocumentEdit(VersionedDocument(document.uri, version), converted)))))
    case Create(uri, flags) =>
      if RequiredFile(rules, uri).None? then None else
        var f := FlagsFrom(flags);
        Some(NO_ARM.(create := Some(CreateFile(uri, f.first, f.second))))
    case Rename(oldUri, newUri, flags) =>
      if RequiredFile(rules, oldUri).None? || RequiredFile(rules, newUri).None? then None else
        var f := FlagsFrom(flags);
        Some(NO_ARM.(rename := Some(RenameFile(oldUri, newUri, f.first, f.second))))
    case Delete(uri, flags) =>
      if RequiredFile(rules, uri).None? then None else
        var f := FlagsFrom(flags);
        Some(NO_ARM.(delete := Some(DeleteFile(uri, f.first, f.second))))
    case NilChange => None
  }

  // ----- whole edits

  /** `Changes` convert, each under its parsed URI; when two raw URIs parse alike one
      of them survives. */
  ghost predicate ChangesSent(rules: UriRules, changes: map<string, seq<TextEdit>>,
                              wire: map<string, seq<WireTextEdit>>)
  {
    (forall raw <- changes :: RequiredFile(rules, raw).Some? && RequiredFile(rules, raw).value in wire)
    && forall u <- wire :: exists raw <- changes ::
         RequiredFile(rules, raw) == Some(u) && MapAll(EditTo, changes[raw]) == Some(wire[u])
  }

  predicate Convertible(rules: UriRules, changes: map<string, seq<TextEdit>>, raw: string)
    requires raw in changes
  {
    RequiredFile(rules, raw).Some? && MapAll(EditTo, changes[raw]).Some?
  }

  function Sender(rules: UriRules): DocumentChange -> Option<WireChange> { c => ChangeTo(rules, c) }

  function Receiver(rules: UriRules): WireChange -> Option<DocumentChange> { w => ChangeFrom(rules, w) }

  predicate Sendable(rules: UriRules, e: WorkspaceEdit) {
    (forall raw <- e.changes :: Convertible(rules, e.changes, raw))
    && MapAll(Sender(rules), e.documentChanges).Some?
  }

  /** `w` is what sending `e` may produce. */
  ghost predicate Sent(rules: UriRules, e: WorkspaceEdit, w: WireEdit) {
    ChangesSent(rules, e.changes, w.changes)
    && MapAll(Sender(rules), e.documentChanges) == Some(w.documentChanges)
    && w.annotations == e.annotations
  }

  predicate Receivable(rules: UriRules, w: WireEdit) {
    (forall u <- w.changes :: rules.isFile(u))
    && MapAll(Receiver(rules), w.documentChanges).Some?
  }

  function EditsFrom(s: seq<WireTextEdit>): (r: seq<TextEdit>)
    ensures |r| == |s| && forall i :: 0 <= i < |s| ==> r[i] == EditFrom(s[i])
  {
    if s == [] then [] else EditsFrom(s[..|s| - 1]) + [EditFrom(s[|s| - 1])]
  }

  function ChangesFrom(wire: map<string, seq<WireTextEdit>>): map<string, seq<TextEdit>> {
    map u | u in wire :: EditsFrom(wire[u])
  }

  function FromWire(rules: UriRules, w: WireEdit): WorkspaceEdit
    requires Receivable(rules, w)
  {
    WorkspaceEdit(
      ChangesFrom(w.changes),
      MapAll(Receiver(rules), w.documentChanges).value,
      w.annotations)
  }

  // ----- the loops

  method SendEdits(edits: seq<TextEdit>) returns (r: Option<seq<WireTextEdit>>)
    ensures r == MapAll(EditTo, edits)
  {
    MapAllAt(EditTo, edits);
    var converted: seq<WireTextEdit> := [];
    for i := 0 to |edits|
      invariant MapAll(EditTo, edits[..i]) == Some(converted)
    {
      assert edits[..i + 1][..i] == edits[..i];
      var w := EditTo(edits[i]);
      if w.None? { return None; }
      converted := converted + [w.value];
    }
    assert edits[..|edits|] == edits;
    r := Some(converted);
  }

  method SendChanges(rules: UriRules, changes: map<string, seq<TextEdit>>)
    returns (r: Option<map<string, seq<WireTextEdit>>>)
    ensures r.Some? <==> forall raw <- changes :: Convertible(rules, changes, raw)
    ensures r.Some? ==> ChangesSent(rules, changes, r.value)
  {
    var todo, out: map<string, seq<WireTextEdit>> := changes.Keys, map[];
    while todo != {}
      invariant todo <= changes.Keys
      invariant forall raw <- changes :: raw !in todo ==>
                  Convertible(rules, changes, raw) && RequiredFile(rules, raw).value in out
      invariant forall u <- out :: exists raw <- changes ::
                  RequiredFile(rules, raw) == Some(u) && MapAll(EditTo, changes[raw]) == Some(out[u])
      decreases todo
    {
      var raw :| raw in todo;
      var u := RequiredFile(rules, raw);
      if u.None? {
        assert !Convertible(rules, changes, raw);
        return None;
      }
      var converted := SendEdits(changes[raw]);
      if converted.None? {
        assert !Convertible(rules, changes, raw);
        return None;
      }
      todo, out := todo - {raw}, out[u.value := converted.value];
    }
    r := Some(out);
  }

  method ToProtocol(rules: UriRules, e: WorkspaceEdit) returns (r: Option<WireEdit>)
    ensures r.Some? <==> Sendable(rules, e)
    ensures r.Some? ==> Sent(rules, e, r.value)
  {
    hide ChangesSent, Convertible, ChangeTo;
    var changes := SendChanges(rules, e.changes);
    if changes.None? { return None; }
    MapAllAt(Sender(rules), e.documentChanges);
    var documents: seq<WireChange> := [];
    for i := 0 to |e.documentChanges|
      invariant MapAll(Sender(rules), e.documentChanges[..i]) == Some(documents)
    {
      assert e.documentChanges[..i + 1][..i] == e.documentChanges[..i];
      var w := ChangeTo(rules, e.documentChanges[i]);
      if w.None? { return None; }
      documents := documents + [w.value];
    }
    assert e.documentChanges[..|e.documentChanges|] == e.documentChanges;
    r := Some(WireEdit(changes.value, documents, e.annotations));
  }

  method ReceiveChanges(rules: UriRules, wire: map<string, seq<WireTextEdit>>)
    returns (r: Option<map<string, seq<TextEdit>>>)
    ensures r == if forall u <- wire :: rules.isFile(u) then Some(ChangesFrom(wire)) else None
  {
    var todo, out: map<string, seq<TextEdit>> := wire.Keys, map[];
    while todo != {}
      invariant todo <= wire.Keys && out.Keys == wire.Keys - todo
      invariant forall u <- out :: rules.isFile(u) && out[u] == EditsFrom(wire[u])
      decreases todo
    {
      var u :| u in todo;
      if !rules.isFile(u) { return None; }
      var converted: seq<TextEdit> := [];
      for i := 0 to |wire[u]|
        invariant converted == EditsFrom(wire[u][..i])
      {
        assert wire[u][..i + 1][..i] == wire[u][..i];
        converted := converted + [EditFrom(wire[u][i])];
      }
      assert wire[u][..|wire[u]|] == wire[u];
      todo, out := todo - {u}, out[u := converted];
    }
    assert out == ChangesFrom(wire);
    r := Some(out);
  }

  method FromProtocol(rules: UriRules, w: WireEdit) returns (r: Option<WorkspaceEdit>)
    ensures r == if Receivable(rules, w) then Some(FromWire(rules, w)) else None
  {
    hide ChangeFrom, EditsFrom;
    var changes := ReceiveChanges(rules, w.changes);
    if changes.None? { return None; }
    MapAllAt(Receiver(rules), w.documentChanges);
    var documents: seq<DocumentChange> := [];
    for i := 0 to |w.documentChanges|
      invariant MapAll(Receiver(rules), w.documentChanges[..i]) == Some(documents)
    {
      assert w.documentChanges[..i + 1][..i] == w.documentChanges[..i];
      var c := ChangeFrom(rules, w.documentChanges[i]);
      if c.None? { return None; }
      documents := documents + [c.value];
    }
    assert w.documentChanges[..|w.documentChanges|] == w.documentChanges;
    r := Some(WorkspaceEdit(changes.value, documents, w.annotations));
  }
}
