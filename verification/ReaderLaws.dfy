/** How a reader's outcome is tied to the call it made and to what happened to it. */
module ReaderLaws {
  import opened Common
  import opened DiagnosticsStore
  import opened Settle

  /** The one report kept for a document is the last, with its version and time, numbered
      one past the one before; no other document is touched. */
  lemma PublishedExactly(docs: Docs, uri: string, diags: seq<Diagnostic>, version: int, now: int)
    ensures var after := Published(docs, uri, diags, version, now);
            after.Keys == docs.Keys + {uri}
            && after[uri].diags == diags && after[uri].version == version && after[uri].lastPub == now
            && PublishSeqOf(after, uri) == PublishSeqOf(docs, uri) + 1
            && forall u <- docs :: u != uri ==> after[u] == docs[u]
  {
  }

  /** What a reader asks for is what it joined with; its context is done only if somebody
      cancelled it, and only then can it end without a report. */
  ghost predicate Story(s: State, moves: seq<Move>, w: nat)
    requires w in s.waiters
  {
    var me := s.waiters[w];
    Join(w, me.uri, me.settle, me.baseline) in moves
    && (me.done ==> Cancel(w) in moves)
    && (me.pc.Cancelled? ==> me.done)
  }

  lemma WhatReadersDo(s: State, m: Move, w: nat)
    requires Enabled(s, m) && w in Next(s, m).waiters
    ensures var now := Next(s, m).waiters[w];
            if w in s.waiters then
              var me := s.waiters[w];
              now.uri == me.uri && now.settle == me.settle && now.baseline == me.baseline
              && (now.done ==> me.done || m == Cancel(w)) && (me.done ==> now.done)
              && (now.pc.Cancelled? ==> me.pc.Cancelled? || me.done)
            else m == Join(w, now.uri, now.settle, now.baseline) && !now.done && now.pc.Wants?
  {
  }

  lemma {:induction false} ReaderStory(run: seq<State>, moves: seq<Move>, i: nat, w: nat)
    requires Behaviour(run, moves) && Initial(run[0]) && i < |run| && w in run[i].waiters
    ensures Story(run[i], moves[..i], w)
    decreases i
  {
    assert i > 0;
    var s, m := run[i - 1], moves[i - 1];
    assert Enabled(s, m) && run[i] == Next(s, m);
    hide Next, Enabled, Initial;
    assert moves[..i] == moves[..i - 1] + [m];
    WhatReadersDo(s, m, w);
    if w in s.waiters { ReaderStory(run, moves, i - 1, w); }
  }

  /** A reader joins once. */
  lemma JoinsOnce(run: seq<State>, moves: seq<Move>, i: nat, j: nat)
    requires Behaviour(run, moves) && i <= j < |moves| && moves[i].Join? && moves[j].Join? && moves[i].w == moves[j].w
    ensures i == j
  {
    assert Enabled(run[i], moves[i]) && Enabled(run[j], moves[j]) && run[i + 1] == Next(run[i], moves[i]);
    if i < j { WaitersStay(run, moves, moves[i].w, i + 1, j); }
  }

  lemma {:induction false} WaitersStay(run: seq<State>, moves: seq<Move>, w: nat, i: nat, j: nat)
    requires Behaviour(run, moves) && i <= j < |run| && w in run[i].waiters
    ensures w in run[j].waiters
    decreases j
  {
    if i < j {
      WaitersStay(run, moves, w, i, j - 1);
      assert Enabled(run[j - 1], moves[j - 1]);
    }
  }

  /** Whatever happens, a reader's outcome answers its own call: the document, interval and
      baseline are those it joined with, and it ends without a report only if it was
      cancelled. */
  lemma OutcomeIsOwn(run: seq<State>, moves: seq<Move>, i: nat, j: nat)
    requires Behaviour(run, moves) && Initial(run[0]) && j < i < |run| && moves[j].Join?
    ensures moves[j].w in run[i].waiters
    ensures var m, me := moves[j], run[i].waiters[moves[j].w];
            me.uri == m.uri && me.settle == m.settle && me.baseline == m.baseline
            && (me.pc.Cancelled? ==> Cancel(m.w) in moves[..i])
  {
    var w := moves[j].w;
    assert Enabled(run[j], moves[j]) && run[j + 1] == Next(run[j], moves[j]);
    WaitersStay(run, moves, w, j + 1, i);
    hide Next, Enabled, Initial;
    ReaderStory(run, moves, i, w);
    var me := run[i].waiters[w];
    var k :| 0 <= k < i && moves[k] == Join(w, me.uri, me.settle, me.baseline);
    if k <= j { JoinsOnce(run, moves, k, j); } else { JoinsOnce(run, moves, j, k); }
  }

  /** The moment a return speaks of is the moment it is made. */
  lemma ReturnsNow(s: State, m: Move, w: nat)
    requires Enabled(s, m) && w in s.waiters && !s.waiters[w].pc.Returned?
    requires w in Next(s, m).waiters && Next(s, m).waiters[w].pc.Returned?
    ensures m == CheckQuiet(w)
    ensures Next(s, m).waiters[w].pc.upTo == |s.history| && Next(s, m).waiters[w].pc.at == s.now
  {
  }
}
