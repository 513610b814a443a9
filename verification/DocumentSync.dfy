/** Open documents of a session, and the language server's view of them. */
module DocumentSync {
  import opened Common

  const MAX_VERSION: int := 0x7FFF_FFFF

  /** `version + 1` in 32 bits. */
  function NextVersion(v: int): int { if v == MAX_VERSION then -0x8000_0000 else v + 1 }

  datatype OpenDoc = OpenDoc(version: int, text: string)

  type Docs = map<string, OpenDoc>

  datatype Notification =
    | DidOpen(uri: string, languageId: string, version: int, text: string)
    | DidChange(uri: string, version: int, text: string)
    | DidClose(uri: string)

  // ----- the server's side: section "Text Document Synchronization" of LSP 3.17

  /** The documents a server has open after one more notification; none if the protocol
      forbids it: opening what is open, changing or closing what is not, or a version
      that does not increase. */
  function Receive(server: Docs, n: Notification): Option<Docs> {
    match n
    case DidOpen(u, _, v, text) => if u in server then None else Some(server[u := OpenDoc(v, text)])
    case DidChange(u, v, text) =>
      if u !in server || v <= server[u].version then None else Some(server[u := OpenDoc(v, text)])
    case DidClose(u) => if u !in server then None else Some(server - {u})
  }

  function Replay(log: seq<Notification>): Option<Docs> {
    if log == [] then Some(map[]) else
      match Replay(log[..|log| - 1])
      case None => None
      case Some(server) => Receive(server, log[|log| - 1])
  }

  lemma ReplaySnoc(log: seq<Notification>, n: Notification)
    ensures Replay(log + [n]) == (match Replay(log) case None => None case Some(server) => Receive(server, n))
  {
    assert (log + [n])[..|log|] == log;
  }

  lemma {:induction false} ReplayFailsForGood(log: seq<Notification>, more: seq<Notification>)
    requires Replay(log).None?
    ensures Replay(log + more).None?
  {
    if more == [] {
      assert log + more == log;
    } else {
      var n := |more| - 1;
      ReplayFailsForGood(log, more[..n]);
      ReplaySnoc(log + more[..n], more[n]);
      assert log + more == log + more[..n] + [more[n]];
    }
  }

  // ----- the session's side

  /** What a synchronisation sends: nothing for an unchanged text. */
  function SyncSends(docs: Docs, uri: string, languageId: string, text: string): Option<Notification> {
    if uri !in docs then Some(DidOpen(uri, languageId, 1, text))
    else if docs[uri].text == text then None
    else Some(DidChange(uri, NextVersion(docs[uri].version), text))
  }

  /** Open documents after a synchronisation whose notification did or did not get out. */
  function SyncedDocs(docs: Docs, uri: string, text: string, delivered: bool): Docs {
    if uri in docs && docs[uri].text == text then docs
    else if !delivered then docs
    else docs[uri := OpenDoc(if uri in docs then NextVersion(docs[uri].version) else 1, text)]
  }

  function Closes(uris: seq<string>): seq<Notification> {
    if uris == [] then [] else Closes(uris[..|uris| - 1]) + [DidClose(uris[|uris| - 1])]
  }

  lemma ClosesSnoc(uris: seq<string>, u: string, log: seq<Notification>)
    ensures log + Closes(uris + [u]) == log + Closes(uris) + [DidClose(u)]
  {
    assert (uris + [u])[..|uris|] == uris;
  }

  /** A session's documents (absent after shutdown) and what reached the server. */
  class Session {
    var openDocs: Option<Docs>
    var delivered: seq<Notification>

    constructor ()
      ensures openDocs == None && delivered == []
    {
      openDocs, delivered := None, [];
    }

    function Docs(): Docs
      reads this
    {
      match openDocs case None => map[] case Some(d) => d
    }

    method SyncTextDocument(uri: string, languageId: string, text: string, deliver: bool) returns (ok: bool)
      modifies this
      ensures Docs() == SyncedDocs(old(Docs()), uri, text, deliver)
      ensures delivered == match SyncSends(old(Docs()), uri, languageId, text)
                           case None => old(delivered)
                           case Some(n) => if deliver then old(delivered) + [n] else old(delivered)
      ensures ok <==> deliver || SyncSends(old(Docs()), uri, languageId, text).None?
    {
      if openDocs.None? { openDocs := Some(map[]); }
      var docs := openDocs.value;
      if uri !in docs {
        if !deliver { return false; }
        delivered := delivered + [DidOpen(uri, languageId, 1, text)];
        openDocs := Some(docs[uri := OpenDoc(1, text)]);
        return true;
      }
      var doc := docs[uri];
      if doc.text == text { return true; }
      var nextVersion := NextVersion(doc.version);
      if !deliver { return false; }
      delivered := delivered + [DidChange(uri, nextVersion, text)];
      openDocs := Some(docs[uri := OpenDoc(nextVersion, text)]);
      ok := true;
    }

    /** Forgets every document, then closes each; `reached` are the closes that get out. */
    method CloseOpenDocuments(reached: set<string>) returns (closed: seq<string>)
      modifies this
      ensures openDocs == None
      ensures forall u :: u in closed <==> u in old(Docs()) && u in reached
      ensures forall i, j :: 0 <= i < j < |closed| ==> closed[i] != closed[j]
      ensures delivered == old(delivered) + Closes(closed)
    {
      var todo := Docs().Keys;
      openDocs := None;
      closed := [];
      assert delivered + Closes(closed) == delivered;
      hide Closes;
      while todo != {}
        invariant openDocs == None && todo <= old(Docs()).Keys
        invariant forall u :: u in closed <==> u in old(Docs()) && u in reached && u !in todo
        invariant forall i, j :: 0 <= i < j < |closed| ==> closed[i] != closed[j]
        invariant delivered == old(delivered) + Closes(closed)
        decreases todo
      {
        var u :| u in todo;
        todo := todo - {u};
        if u in reached {
          ClosesSnoc(closed, u, old(delivered));
          delivered := delivered + [DidClose(u)];
          closed := closed + [u];
        }
      }
    }
  }

  // ----- runs

  datatype Op =
    | Sync(uri: string, languageId: string, text: string, deliver: bool)
    | CloseAll(closed: seq<string>)

  /** `stranded` are documents whose close never reached the server. */
  datatype State = State(docs: Docs, stranded: Docs, log: seq<Notification>)

  const START := State(map[], map[], [])

  predicate Possible(s: State, op: Op) {
    op.CloseAll? ==>
      (forall u <- op.closed :: u in s.docs)
      && (forall i, j :: 0 <= i < j < |op.closed| ==> op.closed[i] != op.closed[j])
  }

  function Step(s: State, op: Op): State {
    match op
    case Sync(uri, languageId, text, deliver) =>
      State(SyncedDocs(s.docs, uri, text, deliver), s.stranded,
            match SyncSends(s.docs, uri, languageId, text)
            case None => s.log
            case Some(n) => if deliver then s.log + [n] else s.log)
    case CloseAll(closed) =>
      State(map[], s.stranded + (s.docs - set u | u in closed), s.log + Closes(closed))
  }

  /** The synchronisations no server can accept: re-opening a stranded document, and the
      change after version 2^31 - 1. */
  predicate Breaks(s: State, op: Op) {
    op.Sync? && op.deliver
    && if op.uri in s.docs
       then s.docs[op.uri].text != op.text && s.docs[op.uri].version == MAX_VERSION
       else op.uri in s.stranded
  }

  function RunOps(ops: seq<Op>): State {
    if ops == [] then START else Step(RunOps(ops[..|ops| - 1]), ops[|ops| - 1])
  }

  ghost predicate PossibleRun(ops: seq<Op>) {
    forall i :: 0 <= i < |ops| ==> Possible(RunOps(ops[..i]), ops[i])
  }

  ghost predicate NeverBreaks(ops: seq<Op>) {
    forall i :: 0 <= i < |ops| ==> !Breaks(RunOps(ops[..i]), ops[i])
  }

  /** The server holds exactly the session's documents, with their versions and texts,
      besides the stranded ones. */
  ghost predicate Mirrors(s: State) {
    Replay(s.log) == Some(s.stranded + s.docs)
    && s.docs.Keys !! s.stranded.Keys
    && forall u <- s.docs :: s.docs[u].version <= MAX_VERSION
  }

  lemma {:induction false} ReplayCloses(log: seq<Notification>, server: Docs, closed: seq<string>)
    requires Replay(log) == Some(server) && forall u <- closed :: u in server
    requires forall i, j :: 0 <= i < j < |closed| ==> closed[i] != closed[j]
    ensures Replay(log + Closes(closed)) == Some(server - set u | u in closed)
  {
    if closed == [] {
      assert log + [] == log && (server - set u | u in closed) == server;
    } else {
      var n := |closed| - 1;
      var init, last := closed[..n], closed[n];
      assert closed == init + [last];
      ReplayCloses(log, server, init);
      ReplaySnoc(log + Closes(init), DidClose(last));
      assert log + Closes(closed) == log + Closes(init) + [DidClose(last)];
      assert last !in init;
      assert (server - set u | u in init) - {last} == server - set u | u in closed;
    }
  }

  /** One operation keeps the mirror exactly when it does not break the protocol. */
  lemma StepMirrorsExactly(s: State, op: Op)
    requires Mirrors(s) && Possible(s, op)
    ensures Replay(Step(s, op).log).Some? <==> !Breaks(s, op)
    ensures !Breaks(s, op) ==> Mirrors(Step(s, op))
  {
    if op.Sync? {
      SyncMirrorsExactly(s, op);
    } else {
      hide Replay;
      ReplayCloses(s.log, s.stranded + s.docs, op.closed);
      assert Step(s, op).stranded + map[] == (s.stranded + s.docs) - set u | u in op.closed;
    }
  }

  lemma SyncMirrorsExactly(s: State, op: Op)
    requires Mirrors(s) && op.Sync?
    ensures Replay(Step(s, op).log).Some? <==> !Breaks(s, op)
    ensures !Breaks(s, op) ==> Mirrors(Step(s, op))
  {
    hide Replay;
    var sends := SyncSends(s.docs, op.uri, op.languageId, op.text);
    if sends.Some? { ReplaySnoc(s.log, sends.value); }
    if !Breaks(s, op) && op.deliver && sends.Some? {
      assert Step(s, op).stranded + Step(s, op).docs
          == (s.stranded + s.docs)[op.uri := Step(s, op).docs[op.uri]];
    }
  }

  /** Over whole runs: the server accepts every notification iff no operation broke the
      protocol, and then it mirrors the session after every one. */
  lemma {:induction false} RunMirrorsExactly(ops: seq<Op>)
    requires PossibleRun(ops)
    ensures Replay(RunOps(ops).log).Some? <==> NeverBreaks(ops)
    ensures NeverBreaks(ops) ==> Mirrors(RunOps(ops))
  {
    hide Mirrors, Breaks, Step;
    if ops == [] {
      StartMirrors();
    } else {
      var n := |ops| - 1;
      var init := ops[..n];
      RunSnoc(ops);
      hide PossibleRun, NeverBreaks;
      RunMirrorsExactly(init);
      if NeverBreaks(init) {
        StepMirrorsExactly(RunOps(init), ops[n]);
      } else {
        StepExtendsLog(RunOps(init), ops[n]);
      }
    }
  }

  /** A run no server can follow: a document whose close did not get out is opened again. */
  lemma ReopenBreaks(u: string, languageId: string, a: string, b: string)
    ensures var ops := [Sync(u, languageId, a, true), CloseAll([]), Sync(u, languageId, b, true)];
            PossibleRun(ops) && Replay(RunOps(ops).log).None?
  {
    var ops := [Sync(u, languageId, a, true), CloseAll([]), Sync(u, languageId, b, true)];
    assert ops[..0] == [] && ops[..1] == [ops[0]] && ops[..2] == [ops[0], ops[1]] && ops[..3] == ops;
    assert ops[..2][..1] == ops[..1] && ops[..1][..0] == [];
    assert RunOps(ops[..1]).docs == map[u := OpenDoc(1, a)];
    assert RunOps(ops[..2]).docs == map[] && u in RunOps(ops[..2]).stranded;
    assert Breaks(RunOps(ops[..2]), ops[2]);
    RunMirrorsExactly(ops);
  }

  /** A text for each version, different from the one before. */
  function Draft(n: nat): string { if n % 2 == 0 then "a" else "b" }

  /** `n` synchronisations of one document, its text different every time. */
  function Typing(u: string, languageId: string, n: nat): seq<Op> {
    if n == 0 then [] else Typing(u, languageId, n - 1) + [Sync(u, languageId, Draft(n), true)]
  }

  /** Another such run: a server follows a document through 2^31 - 1 versions and no more. */
  lemma TypingBreaks(u: string, languageId: string, n: nat)
    ensures PossibleRun(Typing(u, languageId, n))
    ensures Replay(RunOps(Typing(u, languageId, n)).log).Some? <==> n <= MAX_VERSION
  {
    TypingCounts(u, languageId, n);
    RunMirrorsExactly(Typing(u, languageId, n));
  }

  /** The session has the one document, at version `n`. */
  predicate AtDraft(s: State, u: string, n: nat) {
    s.docs == (if n == 0 then map[] else map[u := OpenDoc(n, Draft(n))]) && s.stranded == map[]
  }

  lemma NextDraft(s: State, u: string, languageId: string, n: nat)
    requires AtDraft(s, u, n) && n <= MAX_VERSION
    ensures var op := Sync(u, languageId, Draft(n + 1), true);
            (Breaks(s, op) <==> n == MAX_VERSION) && (n < MAX_VERSION ==> AtDraft(Step(s, op), u, n + 1))
  {
    assert Draft(n) != Draft(n + 1) by { assert "a"[0] != "b"[0]; }
  }

  lemma {:induction false} TypingCounts(u: string, languageId: string, n: nat)
    ensures PossibleRun(Typing(u, languageId, n)) && (NeverBreaks(Typing(u, languageId, n)) <==> n <= MAX_VERSION)
    ensures n <= MAX_VERSION ==> AtDraft(RunOps(Typing(u, languageId, n)), u, n)
  {
    hide PossibleRun, NeverBreaks, AtDraft, Draft, Step, Breaks, RunOps;
    if n == 0 {
      NothingTyped(u);
    } else {
      var init, last := Typing(u, languageId, n - 1), Sync(u, languageId, Draft(n), true);
      TypingCounts(u, languageId, n - 1);
      OneMore(init, last);
      if n - 1 <= MAX_VERSION { NextDraft(RunOps(init), u, languageId, n - 1); }
    }
  }

  lemma NothingTyped(u: string)
    ensures PossibleRun([]) && NeverBreaks([]) && AtDraft(RunOps([]), u, 0)
  {
  }

  lemma {:induction false} OneMore(init: seq<Op>, last: Op)
    ensures RunOps(init + [last]) == Step(RunOps(init), last)
    ensures PossibleRun(init + [last]) <==> PossibleRun(init) && Possible(RunOps(init), last)
    ensures NeverBreaks(init + [last]) <==> NeverBreaks(init) && !Breaks(RunOps(init), last)
  {
    hide Possible, Breaks, Step, PossibleRun, NeverBreaks;
    assert (init + [last])[..|init|] == init;
    RunSnoc(init + [last]);
  }

  lemma {:induction false} RunSnoc(ops: seq<Op>)
    requires ops != []
    ensures var n := |ops| - 1;
            (PossibleRun(ops) <==> PossibleRun(ops[..n]) && Possible(RunOps(ops[..n]), ops[n]))
            && (NeverBreaks(ops) <==> NeverBreaks(ops[..n]) && !Breaks(RunOps(ops[..n]), ops[n]))
  {
    hide Possible, Breaks, RunOps;
    var init := ops[..|ops| - 1];
    assert forall i :: 0 <= i < |init| ==> init[..i] == ops[..i] && init[i] == ops[i];
  }

  lemma StartMirrors()
    ensures Mirrors(START)
  {
    assert START.stranded + START.docs == map[];
  }

  lemma StepExtendsLog(s: State, op: Op)
    requires Replay(s.log).None?
    ensures Replay(Step(s, op).log).None?
  {
    match op {
      case Sync(uri, languageId, text, deliver) =>
        var sends := SyncSends(s.docs, uri, languageId, text);
        if sends.Some? { ReplaySnoc(s.log, sends.value); }
      case CloseAll(closed) => ReplayFailsForGood(s.log, Closes(closed));
    }
  }

  // ----- version numbers

  /** Changes of `uri` delivered since it was last opened. */
  function EpochChanges(log: seq<Notification>, uri: string): nat {
    if log == [] then 0 else
      var last, init := log[|log| - 1], log[..|log| - 1];
      if last.uri != uri then EpochChanges(init, uri)
      else if last.DidChange? then EpochChanges(init, uri) + 1
      else 0
  }

  lemma EpochSnoc(log: seq<Notification>, n: Notification, uri: string)
    ensures EpochChanges(log + [n], uri)
         == if n.uri != uri then EpochChanges(log, uri)
            else if n.DidChange? then EpochChanges(log, uri) + 1 else 0
  {
    assert (log + [n])[..|log|] == log;
  }

  /** Every version sent counts the changes of its epoch: 1, 2, 3, ... */
  ghost predicate NumberedFromOne(log: seq<Notification>) {
    forall i :: 0 <= i < |log| && !log[i].DidClose? ==>
      log[i].version == 1 + EpochChanges(log[..i + 1], log[i].uri)
  }

  ghost predicate Numbered(s: State) {
    NumberedFromOne(s.log) && forall u <- s.docs :: s.docs[u].version == 1 + EpochChanges(s.log, u)
  }

  lemma NumberedSnoc(log: seq<Notification>, n: Notification)
    requires NumberedFromOne(log) && (!n.DidClose? ==> n.version == 1 + EpochChanges(log + [n], n.uri))
    ensures NumberedFromOne(log + [n])
  {
    var l := log + [n];
    assert l[..|l|] == l;
    forall i | 0 <= i < |l| && !l[i].DidClose? ensures l[i].version == 1 + EpochChanges(l[..i + 1], l[i].uri) {
      if i < |log| { assert l[..i + 1] == log[..i + 1]; }
    }
  }

  lemma {:induction false} NumberedCloses(log: seq<Notification>, closed: seq<string>)
    requires NumberedFromOne(log)
    ensures NumberedFromOne(log + Closes(closed))
  {
    if closed == [] {
      assert log + [] == log;
    } else {
      var n := |closed| - 1;
      NumberedCloses(log, closed[..n]);
      NumberedSnoc(log + Closes(closed[..n]), DidClose(closed[n]));
      assert log + Closes(closed) == log + Closes(closed[..n]) + [DidClose(closed[n])];
    }
  }

  lemma StepNumbered(s: State, op: Op)
    requires Numbered(s) && !Breaks(s, op)
    ensures Numbered(Step(s, op))
  {
    hide NumberedFromOne;
    match op {
      case Sync(uri, languageId, text, deliver) =>
        var sends := SyncSends(s.docs, uri, languageId, text);
        if sends.Some? && deliver {
          forall u ensures EpochChanges(s.log + [sends.value], u)
                        == if sends.value.uri != u then EpochChanges(s.log, u)
                           else if sends.value.DidChange? then EpochChanges(s.log, u) + 1 else 0
          {
            EpochSnoc(s.log, sends.value, u);
          }
          NumberedSnoc(s.log, sends.value);
        }
      case CloseAll(closed) => NumberedCloses(s.log, closed);
    }
  }

  /** In every run that does not break the protocol, each epoch's versions are 1, 2, 3, ... */
  lemma {:induction false} RunNumbered(ops: seq<Op>)
    requires NeverBreaks(ops)
    ensures Numbered(RunOps(ops))
  {
    hide Numbered, Breaks, Step;
    if ops == [] {
      StartNumbered();
    } else {
      var n := |ops| - 1;
      RunSnoc(ops);
      RunNumbered(ops[..n]);
      StepNumbered(RunOps(ops[..n]), ops[n]);
    }
  }

  lemma StartNumbered()
    ensures Numbered(START)
  {
  }

  /** When every close gets out, no document is left behind on the server. */
  lemma {:induction false} NothingStranded(ops: seq<Op>)
    requires forall i :: 0 <= i < |ops| && ops[i].CloseAll? ==>
               forall u <- RunOps(ops[..i]).docs :: u in ops[i].closed
    ensures RunOps(ops).stranded == map[]
  {
    if ops != [] {
      var n := |ops| - 1;
      assert forall i :: 0 <= i < n ==> ops[..n][..i] == ops[..i] && ops[..n][i] == ops[i];
      NothingStranded(ops[..n]);
      if ops[n].CloseAll? {
        var docs := RunOps(ops[..n]).docs;
        assert docs - (set u | u in ops[n].closed) == map[];
      }
    }
  }

  /** What a caller can arrange: every close gets out and no document has used up its
      versions. */
  ghost predicate Diligent(ops: seq<Op>) {
    forall i :: 0 <= i < |ops| ==>
      var docs := RunOps(ops[..i]).docs;
      (ops[i].CloseAll? ==> forall u <- docs :: u in ops[i].closed)
      && forall u <- docs :: docs[u].version < MAX_VERSION
  }

  lemma DiligentNeverBreaks(ops: seq<Op>)
    requires Diligent(ops)
    ensures NeverBreaks(ops)
  {
    hide Step;
    forall i | 0 <= i < |ops| ensures !Breaks(RunOps(ops[..i]), ops[i]) {
      assert forall k :: 0 <= k < i ==> ops[..i][..k] == ops[..k] && ops[..i][k] == ops[k];
      NothingStranded(ops[..i]);
    }
  }

  /** Then the server's documents are the session's, texts and versions. */
  lemma {:induction false} DiligentRunsMirror(ops: seq<Op>)
    requires PossibleRun(ops) && Diligent(ops)
    ensures Replay(RunOps(ops).log) == Some(RunOps(ops).docs)
  {
    hide Replay, RunOps;
    DiligentNeverBreaks(ops);
    NothingStranded(ops);
    RunMirrorsExactly(ops);
    assert map[] + RunOps(ops).docs == RunOps(ops).docs;
  }
}
