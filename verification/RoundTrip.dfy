/** Sending an edit and receiving it back. */
module RoundTrip {
  import opened Common
  import opened Utf8
  import Positions
  import opened TextEdits
  import opened Paths
  import FileTree
  import opened WorkspaceEdits
  import opened Applier
  import opened Strings
  import opened Wire

  /** `raw` is a file URI that strict parsing returns unchanged. */
  predicate Stable(rules: UriRules, raw: string) { raw != "" && RequiredFile(rules, raw) == Some(raw) }

  predicate StableChange(rules: UriRules, c: DocumentChange) {
    if c.textEdit.Some? then Stable(rules, c.textEdit.value.document.uri)
    else if c.create.Some? then Stable(rules, c.create.value.uri)
    else if c.rename.Some? then Stable(rules, c.rename.value.oldUri) && Stable(rules, c.rename.value.newUri)
    else c.delete.Some? ==> Stable(rules, c.delete.value.uri)
  }

  predicate StableUris(rules: UriRules, e: WorkspaceEdit) {
    (forall raw <- e.changes :: Stable(rules, raw))
    && forall i :: 0 <= i < |e.documentChanges| ==> StableChange(rules, e.documentChanges[i])
  }

  // ----- what survives

  /** The one arm the engine looks at. */
  function FirstArm(c: DocumentChange): DocumentChange {
    if c.textEdit.Some? then NO_ARM.(textEdit := c.textEdit)
    else if c.create.Some? then NO_ARM.(create := c.create)
    else if c.rename.Some? then NO_ARM.(rename := c.rename)
    else NO_ARM.(delete := c.delete)
  }

  function Bare(e: TextEdit): TextEdit { e.(annotation := None) }

  function BareEdits(s: seq<TextEdit>): (r: seq<TextEdit>)
    ensures |r| == |s| && forall i :: 0 <= i < |s| ==> r[i] == Bare(s[i])
  {
    if s == [] then [] else BareEdits(s[..|s| - 1]) + [Bare(s[|s| - 1])]
  }

  /** The edit without annotation IDs under `Changes` and with first arms only. */
  function Canonical(e: WorkspaceEdit): WorkspaceEdit {
    WorkspaceEdit(
      map raw | raw in e.changes :: BareEdits(e.changes[raw]),
      seq(|e.documentChanges|, i requires 0 <= i < |e.documentChanges| => FirstArm(e.documentChanges[i])),
      e.annotations)
  }

  // ----- the round trip

  /** Which edits can be sent: coordinates in 32 bits, versions in 31, some arm. */
  predicate InRange(r: Range) {
    0 <= r.startLine < 0x1_0000_0000 && 0 <= r.startColumn < 0x1_0000_0000
    && 0 <= r.endLine < 0x1_0000_0000 && 0 <= r.endColumn < 0x1_0000_0000
  }

  predicate ChangeInRange(c: DocumentChange) {
    if c.textEdit.Some? then
      (forall i :: 0 <= i < |c.textEdit.value.edits| ==> InRange(c.textEdit.value.edits[i].range))
      && (c.textEdit.value.document.version.Some? ==> c.textEdit.value.document.version.value <= 0x7FFF_FFFF)
    else c.create.Some? || c.rename.Some? || c.delete.Some?
  }

  lemma SendsExactly(rules: UriRules, c: DocumentChange)
    requires StableChange(rules, c)
    ensures ChangeTo(rules, c).Some? <==> ChangeInRange(c)
  {
    hide MapAll;
    if c.textEdit.Some? { MapAllAt(ElementTo, c.textEdit.value.edits); }
  }

  /** With stable URIs sending succeeds exactly on in-range edits. */
  lemma SendableExactly(rules: UriRules, e: WorkspaceEdit)
    requires StableUris(rules, e)
    ensures Sendable(rules, e)
       <==> (forall raw <- e.changes :: forall i :: 0 <= i < |e.changes[raw]| ==> InRange(e.changes[raw][i].range))
            && (forall i :: 0 <= i < |e.documentChanges| ==> ChangeInRange(e.documentChanges[i]))
  {
    hide MapAll, ChangeTo, ChangeInRange, StableChange;
    forall raw | raw in e.changes
      ensures Convertible(rules, e.changes, raw)
         <==> forall i :: 0 <= i < |e.changes[raw]| ==> InRange(e.changes[raw][i].range)
    {
      MapAllAt(EditTo, e.changes[raw]);
    }
    MapAllAt(Sender(rules), e.documentChanges);
    forall i | 0 <= i < |e.documentChanges|
      ensures ChangeTo(rules, e.documentChanges[i]).Some? <==> ChangeInRange(e.documentChanges[i])
    {
      SendsExactly(rules, e.documentChanges[i]);
    }
  }

  lemma ElementsReturn(edits: seq<TextEdit>)
    requires MapAll(ElementTo, edits).Some?
    ensures MapAll(ElementFrom, MapAll(ElementTo, edits).value) == Some(edits)
  {
    hide MapAll;
    var wire := MapAll(ElementTo, edits).value;
    MapAllAt(ElementTo, edits);
    forall i | 0 <= i < |wire| ensures ElementFrom(wire[i]) == Some(edits[i]) {
      assert ElementTo(edits[i]) == Some(wire[i]);
    }
    MapAllAt(ElementFrom, wire);
    assert MapAll(ElementFrom, wire).value == edits;
  }

  lemma ChangeReturns(rules: UriRules, c: DocumentChange)
    requires StableChange(rules, c) && ChangeTo(rules, c).Some?
    ensures ChangeFrom(rules, ChangeTo(rules, c).value) == Some(FirstArm(c))
  {
    hide MapAll;
    if c.textEdit.Some? { ElementsReturn(c.textEdit.value.edits); }
  }

  lemma EditsReturn(edits: seq<TextEdit>)
    requires MapAll(EditTo, edits).Some?
    ensures EditsFrom(MapAll(EditTo, edits).value) == BareEdits(edits)
  {
    hide MapAll;
    MapAllAt(EditTo, edits);
    var wire := MapAll(EditTo, edits).value;
    forall i | 0 <= i < |wire| ensures EditFrom(wire[i]) == Bare(edits[i]) {
      assert EditTo(edits[i]) == Some(wire[i]);
    }
  }

  lemma DocumentsReturn(rules: UriRules, e: WorkspaceEdit, w: WireEdit)
    requires StableUris(rules, e) && MapAll(Sender(rules), e.documentChanges) == Some(w.documentChanges)
    ensures MapAll(Receiver(rules), w.documentChanges) == Some(Canonical(e).documentChanges)
  {
    hide MapAll, StableChange, ChangeTo, ChangeFrom, FirstArm;
    MapAllAt(Sender(rules), e.documentChanges);
    forall i | 0 <= i < |w.documentChanges|
      ensures Receiver(rules)(w.documentChanges[i]) == Some(Canonical(e).documentChanges[i])
    {
      assert Sender(rules)(e.documentChanges[i]) == Some(w.documentChanges[i]);
      ChangeReturns(rules, e.documentChanges[i]);
    }
    MapAllAt(Receiver(rules), w.documentChanges);
    assert MapAll(Receiver(rules), w.documentChanges).value == Canonical(e).documentChanges;
  }

  lemma ChangesReturn(rules: UriRules, e: WorkspaceEdit, w: WireEdit)
    requires StableUris(rules, e) && ChangesSent(rules, e.changes, w.changes)
    ensures w.changes.Keys == e.changes.Keys && forall u <- w.changes :: rules.isFile(u)
    ensures forall u <- w.changes :: EditsFrom(w.changes[u]) == BareEdits(e.changes[u])
  {
    hide MapAll, EditsFrom, BareEdits;
    forall u | u in w.changes
      ensures u in e.changes && rules.isFile(u) && EditsFrom(w.changes[u]) == BareEdits(e.changes[u])
    {
      var raw :| raw in e.changes && RequiredFile(rules, raw) == Some(u)
                 && MapAll(EditTo, e.changes[raw]) == Some(w.changes[u]);
      assert Stable(rules, raw);
      EditsReturn(e.changes[u]);
    }
    forall raw | raw in e.changes ensures raw in w.changes { assert Stable(rules, raw); }
  }

  /** Whatever sending an edit with stable URIs produced, receiving it gives the edit
      back, up to the annotation IDs and spare arms the wire does not carry. */
  lemma ReceivedIsCanonical(rules: UriRules, e: WorkspaceEdit, w: WireEdit)
    requires StableUris(rules, e) && Sent(rules, e, w)
    ensures Receivable(rules, w) && FromWire(rules, w) == Canonical(e)
  {
    hide MapAll, StableUris, EditsFrom, BareEdits, ChangesSent;
    ChangesReturn(rules, e, w);
    DocumentsReturn(rules, e, w);
  }

  // ----- and its effect

  lemma BareResolvesOne(text: Text, e: TextEdit)
    ensures Resolve(text, Bare(e)) == Resolve(text, e)
  {
    hide Positions.PositionToOffset;
  }

  lemma {:induction false} BareResolves(text: Text, edits: seq<TextEdit>)
    ensures ResolveAll(text, BareEdits(edits)) == ResolveAll(text, edits)
  {
    hide Resolve;
    if edits != [] {
      var n := |edits| - 1;
      BareResolves(text, edits[..n]);
      BareResolvesOne(text, edits[n]);
      assert BareEdits(edits)[..n] == BareEdits(edits[..n]);
    }
  }

  lemma BareApplies(t: FileTree.Tree, site: Site, uri: string, edits: seq<TextEdit>,
                    versions: Option<map<string, nat>>, expected: Option<nat>)
    requires Clean(site.cwd)
    ensures ApplyText(t, site, uri, BareEdits(edits), versions, expected)
         == ApplyText(t, site, uri, edits, versions, expected)
  {
    hide Target, VersionCheck, FileTree.WriteFile, BareEdits, ResolveAll, Substitute, PairwiseDisjoint;
    assert BareEdits(edits) == [] <==> edits == [];
    forall text ensures PatchText(text, BareEdits(edits)) == PatchText(text, edits) { BareResolves(text, edits); }
    hide PatchText;
  }

  lemma FirstArmApplies(t: FileTree.Tree, site: Site, c: DocumentChange, opts: Options)
    requires Clean(site.cwd)
    ensures ApplyChange(t, site, FirstArm(c), opts) == ApplyChange(t, site, c, opts)
  {
    hide ApplyText, ApplyCreate, ApplyRename, ApplyDelete;
  }

  /** The received edit does to every tree what the sent one does. */
  lemma ReceivedAppliesAlike(rules: UriRules, e: WorkspaceEdit, w: WireEdit,
                             t: FileTree.Tree, site: Site, opts: Options)
    requires StableUris(rules, e) && Sent(rules, e, w) && Clean(site.cwd)
    ensures Receivable(rules, w)
    ensures Run(t, site, ProgramOf(FromWire(rules, w)), opts) == Run(t, site, ProgramOf(e), opts)
  {
    hide Run, ApplyStep, BareEdits, FirstArm, Sorted, StableUris, Sent;
    ReceivedIsCanonical(rules, e, w);
    var a, b := ProgramOf(Canonical(e)), ProgramOf(e);
    CanonicalProgram(e);
    forall u: FileTree.Tree, i | 0 <= i < |b| ensures ApplyStep(u, site, a[i], opts) == ApplyStep(u, site, b[i], opts) {
      CanonicalStep(u, site, e, opts, i);
    }
    SameRuns(t, site, a, b, opts);
  }

  lemma CanonicalProgram(e: WorkspaceEdit)
    ensures |ProgramOf(Canonical(e))| == |ProgramOf(e)|
    ensures forall i :: 0 <= i < |ProgramOf(e)| ==>
              match ProgramOf(e)[i]
              case Text(uri, edits) => ProgramOf(Canonical(e))[i] == Text(uri, BareEdits(edits))
              case Document(c) => ProgramOf(Canonical(e))[i] == Document(FirstArm(c))
  {
    hide BareEdits, FirstArm, Sorted;
    assert Canonical(e).changes.Keys == e.changes.Keys;
    var uris := Sorted(e.changes.Keys);
    forall i | 0 <= i < |uris| ensures uris[i] in e.changes { assert uris[i] in uris; }
  }

  lemma CanonicalStep(t: FileTree.Tree, site: Site, e: WorkspaceEdit, opts: Options, i: nat)
    requires Clean(site.cwd) && |ProgramOf(Canonical(e))| == |ProgramOf(e)| && i < |ProgramOf(e)|
    ensures ApplyStep(t, site, ProgramOf(Canonical(e))[i], opts) == ApplyStep(t, site, ProgramOf(e)[i], opts)
  {
    hide BareEdits, FirstArm, Sorted, ApplyText, ApplyChange;
    CanonicalProgram(e);
    hide ProgramOf;
    match ProgramOf(e)[i] {
      case Text(uri, edits) => BareApplies(t, site, uri, edits, opts.currentVersions, None);
      case Document(c) => FirstArmApplies(t, site, c, opts);
    }
  }

  lemma {:induction false} SameRuns(t: FileTree.Tree, site: Site, a: seq<Step>, b: seq<Step>, opts: Options)
    requires Clean(site.cwd) && |a| == |b|
    requires forall u: FileTree.Tree, i :: 0 <= i < |b| ==>
               ApplyStep(u, site, a[i], opts) == ApplyStep(u, site, b[i], opts)
    ensures Run(t, site, a, opts) == Run(t, site, b, opts)
  {
    hide ApplyStep;
    if a != [] {
      var n := |a| - 1;
      SameRuns(t, site, a[..n], b[..n], opts);
    }
  }
}
