/** What each field of an edit becomes on the wire, and what is refused either way. */
module WireLaws {
  import opened Common
  import opened TextEdits
  import opened WorkspaceEdits
  import opened Wire

  /** A text edit goes out exactly when its coordinates fit, each in its own place. */
  lemma EditSentExactly(e: TextEdit, w: WireTextEdit)
    ensures EditTo(e) == Some(w)
       <==> w.range.start.line == e.range.startLine && w.range.start.character == e.range.startColumn
            && w.range.end.line == e.range.endLine && w.range.end.character == e.range.endColumn
            && w.newText == e.newText
  {
  }

  /** Receiving a text edit loses nothing: sent again it is the same. */
  lemma ReceivedEditReturns(w: WireTextEdit)
    ensures EditTo(EditFrom(w)) == Some(w) && EditFrom(w).annotation == None
  {
  }

  /** In a document change an annotation ID makes the element an annotated one. */
  lemma ElementSentExactly(e: TextEdit, w: WireElement)
    ensures ElementTo(e) == Some(w)
       <==> match e.annotation
            case None => w.Plain? && EditTo(e) == Some(w.edit)
            case Some(id) => w.Annotated? && w.annotationId == id && EditTo(e) == Some(w.edit)
  {
    hide EditTo;
  }

  /** Snippets and absent elements are refused; annotation IDs come back. */
  lemma ElementReceived(w: WireElement)
    ensures match w
            case Plain(e) => ElementFrom(w) == Some(EditFrom(e))
            case Annotated(e, id) =>
              ElementFrom(w).Some? && ElementFrom(w).value.annotation == Some(id)
              && EditTo(ElementFrom(w).value) == Some(e)
            case _ => ElementFrom(w) == None
  {
  }

  /** Where a raw URI goes on the wire: parsed, if it is a file's. */
  lemma FileUriExactly(rules: UriRules, raw: string, u: string)
    ensures RequiredFile(rules, raw) == Some(u) <==> rules.strict(raw) == Some(u) && rules.isFile(u)
  {
  }

  /** Two flags travel together, absent when neither is set. */
  predicate Carries(w: Option<WireFlags>, first: Option<bool>, second: Option<bool>) {
    if first.None? && second.None? then w.None? else w.Some? && w.value.first == first && w.value.second == second
  }

  /** A resource operation goes out exactly with a file URI in each place, and carries its
      flags in their places. */
  lemma ResourcesSentExactly(rules: UriRules, c: DocumentChange, w: WireChange)
    requires c.textEdit.None?
    ensures ChangeTo(rules, c) == Some(w)
       <==> if c.create.Some? then
              var op := c.create.value;
              w.Create? && op.uri != "" && RequiredFile(rules, op.uri) == Some(w.uri)
              && Carries(w.flags, op.overwrite, op.ignoreIfExists)
            else if c.rename.Some? then
              var op := c.rename.value;
              w.Rename? && op.oldUri != "" && op.newUri != ""
              && RequiredFile(rules, op.oldUri) == Some(w.oldUri) && RequiredFile(rules, op.newUri) == Some(w.newUri)
              && Carries(w.flags, op.overwrite, op.ignoreIfExists)
            else
              c.delete.Some?
              && var op := c.delete.value;
                 w.Delete? && op.uri != "" && RequiredFile(rules, op.uri) == Some(w.uri)
                 && Carries(w.flags, op.recursive, op.ignoreIfNotExists)
  {
    hide RequiredFile;
  }

  predicate CarriesText(rules: UriRules, e: TextDocumentEdit, w: WireChange)
    requires w.TextDocument?
  {
    e.document.uri != "" && RequiredFile(rules, e.document.uri) == Some(w.document.uri)
    && (match e.document.version
        case None => w.document.version == None
        case Some(v) => w.document.version.Some? && w.document.version.value == v)
    && |w.edits| == |e.edits| && forall i :: 0 <= i < |e.edits| ==> ElementTo(e.edits[i]) == Some(w.edits[i])
  }

  /** So does a text change, with its version and each of its edits. */
  lemma TextSentExactly(rules: UriRules, c: DocumentChange, w: WireChange)
    requires c.textEdit.Some?
    ensures ChangeTo(rules, c) == Some(w) <==> w.TextDocument? && CarriesText(rules, c.textEdit.value, w)
  {
    hide RequiredFile, ElementTo, MapAll;
    var e := c.textEdit.value;
    MapAllAt(ElementTo, e.edits);
    if w.TextDocument? && |w.edits| == |e.edits|
       && forall i :: 0 <= i < |e.edits| ==> ElementTo(e.edits[i]) == Some(w.edits[i]) {
      assert MapAll(ElementTo, e.edits).value == w.edits;
    }
  }

  /** What a received document change is refused for. */
  lemma ChangeReceivedExactly(rules: UriRules, w: WireChange)
    ensures ChangeFrom(rules, w).Some?
       <==> match w
            case TextDocument(document, edits) =>
              rules.isFile(document.uri) && (document.version.Some? ==> document.version.value >= 0)
              && forall i :: 0 <= i < |edits| ==> edits[i].Plain? || edits[i].Annotated?
            case Create(uri, _) => RequiredFile(rules, uri).Some?
            case Rename(oldUri, newUri, _) => RequiredFile(rules, oldUri).Some? && RequiredFile(rules, newUri).Some?
            case Delete(uri, _) => RequiredFile(rules, uri).Some?
            case NilChange => false
  {
    hide RequiredFile, EditFrom, MapAll;
    if w.TextDocument? { MapAllAt(ElementFrom, w.edits); }
  }

  /** What an accepted one becomes: the raw URI as it came, flags, version and edits. */
  lemma ChangeReceivedAs(rules: UriRules, w: WireChange)
    requires ChangeFrom(rules, w).Some?
    ensures var c := ChangeFrom(rules, w).value;
            match w
            case TextDocument(document, edits) =>
              c.textEdit.Some? && c.textEdit.value.document.uri == document.uri
              && c.textEdit.value.document.version.Some? == document.version.Some?
              && (document.version.Some? ==> c.textEdit.value.document.version.value == document.version.value)
              && |c.textEdit.value.edits| == |edits|
              && forall i :: 0 <= i < |edits| ==> ElementFrom(edits[i]) == Some(c.textEdit.value.edits[i])
            case Create(uri, flags) =>
              c.textEdit.None? && c.create.Some? && c.create.value.uri == uri
              && c.create.value.overwrite == (if flags.Some? then flags.value.first else None)
              && c.create.value.ignoreIfExists == (if flags.Some? then flags.value.second else None)
            case Rename(oldUri, newUri, flags) =>
              c.textEdit.None? && c.create.None? && c.rename.Some?
              && c.rename.value.oldUri == oldUri && c.rename.value.newUri == newUri
              && c.rename.value.overwrite == (if flags.Some? then flags.value.first else None)
              && c.rename.value.ignoreIfExists == (if flags.Some? then flags.value.second else None)
            case Delete(uri, flags) =>
              c.textEdit.None? && c.create.None? && c.rename.None? && c.delete.Some? && c.delete.value.uri == uri
              && c.delete.value.recursive == (if flags.Some? then flags.value.first else None)
              && c.delete.value.ignoreIfNotExists == (if flags.Some? then flags.value.second else None)
            case NilChange => true
  {
    hide RequiredFile, ElementFrom, MapAll;
    if w.TextDocument? { MapAllAt(ElementFrom, w.edits); }
  }

  /** What a whole received edit is: every document's edits under its URI, every document
      change in its place, and the annotations. */
  lemma EditReceivedAs(rules: UriRules, w: WireEdit)
    requires Receivable(rules, w)
    ensures var e := FromWire(rules, w);
            e.changes.Keys == w.changes.Keys && e.annotations == w.annotations
            && (forall u <- w.changes :: |e.changes[u]| == |w.changes[u]|
                  && forall i :: 0 <= i < |w.changes[u]| ==> e.changes[u][i] == EditFrom(w.changes[u][i]))
            && |e.documentChanges| == |w.documentChanges|
            && forall i :: 0 <= i < |w.documentChanges| ==>
                 ChangeFrom(rules, w.documentChanges[i]) == Some(e.documentChanges[i])
  {
    hide EditFrom, ChangeFrom, MapAll;
    MapAllAt(Receiver(rules), w.documentChanges);
  }
}
