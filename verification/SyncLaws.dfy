/** Which notifications a session sends for a call, and what the server has after it. */
module SyncLaws {
  import opened Common
  import opened DocumentSync

  /** A synchronisation sends one notification, with the caller's text, unless the text is
      the open one already; the first for a document opens it, with the caller's language
      and version 1, and later ones change it. */
  lemma SyncSendsExactly(s: State, op: Op)
    requires op.Sync? && op.deliver
    ensures (op.uri in s.docs && s.docs[op.uri].text == op.text) ==> Step(s, op).log == s.log
    ensures op.uri !in s.docs ==> Step(s, op).log == s.log + [DidOpen(op.uri, op.languageId, 1, op.text)]
    ensures op.uri in s.docs && s.docs[op.uri].text != op.text ==>
              |Step(s, op).log| == |s.log| + 1 && s.log <= Step(s, op).log
              && var n := Step(s, op).log[|s.log|];
                 n.DidChange? && n.uri == op.uri && n.text == op.text
                 && (s.docs[op.uri].version < MAX_VERSION ==> n.version == s.docs[op.uri].version + 1)
                 && (s.docs[op.uri].version == MAX_VERSION ==> n.version == -MAX_VERSION - 1)
  {
  }

  /** The session then has the text itself, and nothing else has changed; a notification
      that does not get out changes nothing at all. */
  lemma SyncKeepsExactly(s: State, op: Op)
    requires op.Sync?
    ensures op.deliver ==>
              Step(s, op).docs.Keys == s.docs.Keys + {op.uri} && Step(s, op).docs[op.uri].text == op.text
              && forall u <- s.docs :: u != op.uri ==> Step(s, op).docs[u] == s.docs[u]
    ensures !op.deliver ==> Step(s, op) == s
    ensures Step(s, op).stranded == s.stranded
  {
  }

  /** And so does the server, for every synchronisation that breaks nothing. */
  lemma ServerHasText(s: State, op: Op)
    requires Mirrors(s) && op.Sync? && op.deliver && !Breaks(s, op)
    ensures Replay(Step(s, op).log).Some?
    ensures op.uri in Replay(Step(s, op).log).value && Replay(Step(s, op).log).value[op.uri].text == op.text
  {
    StepMirrorsExactly(s, op);
    SyncKeepsExactly(s, op);
    hide Replay, Step;
  }

  lemma {:induction false} ClosesExactly(uris: seq<string>)
    ensures |Closes(uris)| == |uris| && forall i :: 0 <= i < |uris| ==> Closes(uris)[i] == DidClose(uris[i])
  {
    if uris != [] { ClosesExactly(uris[..|uris| - 1]); }
  }

  /** Closing forgets every document and tells the server of each close that gets out. */
  lemma CloseAllExactly(s: State, closed: seq<string>)
    requires Possible(s, CloseAll(closed))
    ensures Step(s, CloseAll(closed)).docs == map[] && Step(s, CloseAll(closed)).log == s.log + Closes(closed)
    ensures forall u :: u in Step(s, CloseAll(closed)).stranded
                   <==> u in s.stranded || (u in s.docs && u !in closed)
    ensures forall u <- s.docs :: u !in closed ==> Step(s, CloseAll(closed)).stranded[u] == s.docs[u]
  {
    hide Closes;
  }

  /** Some call asked for this notification. */
  ghost predicate AskedFor(ops: seq<Op>, n: Notification) {
    match n
    case DidOpen(u, l, _, text) => Sync(u, l, text, true) in ops
    case DidChange(u, _, text) => exists l :: Sync(u, l, text, true) in ops
    case DidClose(u) => exists closed :: CloseAll(closed) in ops && u in closed
  }

  /** Every notification on the wire is one some call asked for, with its own language and
      text. */
  lemma {:induction false} OnlyAskedFor(ops: seq<Op>)
    ensures forall n <- RunOps(ops).log :: AskedFor(ops, n)
  {
    if ops != [] {
      var k := |ops| - 1;
      var init, op := ops[..k], ops[k];
      assert ops == init + [op];
      OnlyAskedFor(init);
      forall n | n in RunOps(ops).log ensures AskedFor(ops, n) {
        assert op in ops && forall o :: o in init ==> o in ops;
        NewOrOld(RunOps(init), op, n);
        if n in RunOps(init).log { assert AskedFor(init, n); }
      }
    }
  }

  lemma NewOrOld(s: State, op: Op, n: Notification)
    requires n in Step(s, op).log
    ensures n in s.log
         || (op.Sync? && op.deliver
             && (n == DidOpen(op.uri, op.languageId, 1, op.text)
                 || (n.DidChange? && n.uri == op.uri && n.text == op.text)))
         || (op.CloseAll? && n.DidClose? && n.uri in op.closed)
  {
    if op.CloseAll? {
      ClosesExactly(op.closed);
      if n !in s.log { assert n in Closes(op.closed); }
    }
  }
}
