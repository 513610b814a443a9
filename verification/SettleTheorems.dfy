/** What the settle protocol guarantees its readers. */
module SettleTheorems {
  import opened Common
  import opened DiagnosticsStore
  import opened Settle

  // ----- safety over all interleavings

  /** Whatever a reader returns is the latest publication for its document at that
      moment, numbered past its baseline, and older than the settle window. */
  lemma ReturnsSettledLatest(run: seq<State>, moves: seq<Move>, i: nat, w: nat)
    requires Behaviour(run, moves) && Initial(run[0]) && i < |run|
    requires w in run[i].waiters && run[i].waiters[w].pc.Returned?
    ensures run[i].waiters[w].pc.upTo <= |run[i].history|
    ensures var me := run[i].waiters[w]; var seen := run[i].history[..me.pc.upTo];
            Count(seen, me.uri) > me.baseline
            && me.pc.diags == seen[LastFor(seen, me.uri)].diags
            && (forall k :: 0 <= k < |seen| && seen[k].uri == me.uri ==> seen[k].at + me.settle <= me.pc.at)
  {
    hide Next, Initial, Enabled, CacheFollowsHistory, WakeupPending, HistoryOrdered;
    InitialInv(run[0]);
    BehaviourInv(run, moves, i);
    var me := run[i].waiters[w];
    assert ReturnSound(run[i], w);
    var seen := run[i].history[..me.pc.upTo];
    assert forall k :: 0 <= k < |seen| ==> seen[k] == run[i].history[k];
  }

  /** A parked reader is never forgotten: with news, its timer is set for no earlier than
      the end of the quiet period and no further ahead than one settle interval. */
  lemma NoLostWakeup(run: seq<State>, moves: seq<Move>, i: nat, w: nat)
    requires Behaviour(run, moves) && Initial(run[0]) && i < |run|
    requires At(run[i], w, Parked)
    ensures var s, me := run[i], run[i].waiters[w];
            (me.done ==> s.casts > 0)
            && (Ready(s, w) ==>
                  (me.uri in s.docs
                   && ((me.timer.Armed?
                        && s.docs[me.uri].lastPub + me.settle <= me.timer.due <= s.now + me.settle)
                       || s.casts > 0)))
  {
    hide Next, Initial, Enabled, CacheFollowsHistory, ReturnSound, HistoryOrdered;
    InitialInv(run[0]);
    BehaviourInv(run, moves, i);
    assert WakeupPending(run[i], w);
  }

  /** A reader that took its baseline from the store sees only what came after. */
  lemma LookupIsFresh(before: seq<Publication>, seen: seq<Publication>, uri: string)
    requires before <= seen && Count(seen, uri) > Count(before, uri)
    ensures LastFor(seen, uri) >= |before|
  {
    if LastFor(seen, uri) < |before| { NoneAfter(before, seen, uri); }
  }

  lemma {:induction false} NoneAfter(before: seq<Publication>, seen: seq<Publication>, uri: string)
    requires before <= seen && forall k :: |before| <= k < |seen| ==> seen[k].uri != uri
    ensures Count(seen, uri) == Count(before, uri)
    decreases |seen|
  {
    if |seen| > |before| {
      NoneAfter(before, seen[..|seen| - 1], uri);
    } else {
      assert seen == before;
    }
  }

  lemma {:induction false} CountGrows(a: seq<Publication>, b: seq<Publication>, uri: string)
    requires a <= b
    ensures Count(a, uri) <= Count(b, uri)
    decreases |b|
  {
    if |a| < |b| {
      CountGrows(a, b[..|b| - 1], uri);
    } else {
      assert a == b;
    }
  }

  lemma {:induction false} HistoryGrows(run: seq<State>, moves: seq<Move>, i: nat, j: nat)
    requires Behaviour(run, moves) && i <= j < |run|
    ensures run[i].history <= run[j].history
    decreases j
  {
    hide Enabled, Next;
    if i < j {
      HistoryGrows(run, moves, i, j - 1);
      assert Enabled(run[j - 1], moves[j - 1]);
      OneMoveGrows(run[j - 1], moves[j - 1]);
    }
  }

  lemma OneMoveGrows(s: State, m: Move)
    requires Enabled(s, m)
    ensures s.history <= Next(s, m).history
  {
  }

  /** A look-up that reads its baseline first is never answered with diagnostics published
      before it read it. */
  lemma LookupReturnsFresh(run: seq<State>, moves: seq<Move>, i: nat, j: nat, w: nat)
    requires Behaviour(run, moves) && Initial(run[0]) && i <= j < |run|
    requires w in run[j].waiters && run[j].waiters[w].pc.Returned?
    requires run[j].waiters[w].baseline == PublishSeqOf(run[i].docs, run[j].waiters[w].uri)
    ensures run[j].waiters[w].pc.upTo <= |run[j].history|
    ensures var me := run[j].waiters[w]; var seen := run[j].history[..me.pc.upTo];
            Count(seen, me.uri) > 0 && LastFor(seen, me.uri) >= |run[i].history|
            && me.pc.diags == seen[LastFor(seen, me.uri)].diags
  {
    hide Next, Initial, Enabled, WakeupPending, HistoryOrdered, ReturnSound, LockHeldByOwner;
    ReturnsSettledLatest(run, moves, j, w);
    InitialInv(run[0]);
    BehaviourInv(run, moves, i);
    HistoryGrows(run, moves, i, j);
    var me, before := run[j].waiters[w], run[i].history;
    var seen := run[j].history[..me.pc.upTo];
    assert CacheFollowsHistory(run[i]);
    if |seen| < |before| {
      CountGrows(seen, before, me.uri);
    } else {
      LookupIsFresh(before, seen, me.uri);
    }
  }

  // ----- progress

  /** The reader's fate is settled: its context is done, or its news has been quiet long
      enough. */
  predicate Deciding(s: State, w: nat) {
    w in s.waiters && (s.waiters[w].done || Quiet(s, w))
  }

  predicate Quiet(s: State, w: nat)
    requires w in s.waiters
  {
    var me := s.waiters[w];
    Ready(s, w) && me.uri in s.docs && s.now >= s.docs[me.uri].lastPub + me.settle
  }

  /** How many helpful moves a deciding reader is from finishing, at most. */
  function Rank(s: State, w: nat): (r: nat)
    requires w in s.waiters
    ensures r <= 7 && (r == 0 <==> Finished(s.waiters[w].pc))
  {
    var me := s.waiters[w];
    match me.pc
    case Returned(_, _, _) => 0
    case Cancelled => 0
    case Measured(e) => if e >= me.settle then 1 else if me.done then 6 else 7
    case AtDoc => if Quiet(s, w) then 2 else 7
    case AtTop => 3
    case Wants => 4
    case Parked => if s.casts > 0 then 5 else 6
  }

  /** The moves that bring reader `w` forward. */
  predicate Helpful(s: State, m: Move, w: nat) {
    match m
    case Acquire(x) => x == w
    case CheckContext(x) => x == w
    case CheckDoc(x) => x == w
    case CheckQuiet(x) => x == w
    case Fire(x) => x == w && At(s, w, Parked) && s.casts == 0
    case Deliver => At(s, w, Parked)
    case _ => false
  }

  /** Short of a new publication for its document, no move sets a deciding reader back
      and every helpful one brings it closer. */
  lemma RankStep(s: State, m: Move, w: nat)
    requires Inv(s) && Enabled(s, m) && Deciding(s, w)
    requires m.Publish? ==> m.uri != s.waiters[w].uri
    ensures Deciding(Next(s, m), w) && Next(s, m).waiters[w].uri == s.waiters[w].uri
    ensures Rank(Next(s, m), w) + (if Helpful(s, m, w) then 1 else 0) <= Rank(s, w)
  {
    assert WakeupPending(s, w);
    assert LockHeldByOwner(s);
    hide Inv, CacheFollowsHistory, HistoryOrdered, ReturnSound;
    if m in {Acquire(w), CheckContext(w), CheckDoc(w), CheckQuiet(w)} {
      OwnMove(s, m, w);
    } else if m == Cancel(w) || m == Fire(w) || m.Tick? || m.ServerDeath? || m.Publish? || m.Deliver? {
      SharedMove(s, m, w);
    } else {
      ForeignMove(s, m, w);
    }
  }

  lemma OwnMove(s: State, m: Move, w: nat)
    requires Enabled(s, m) && Deciding(s, w) && WakeupPending(s, w)
    requires m in {Acquire(w), CheckContext(w), CheckDoc(w), CheckQuiet(w)}
    ensures Deciding(Next(s, m), w) && Next(s, m).waiters[w].uri == s.waiters[w].uri
    ensures Rank(Next(s, m), w) + 1 <= Rank(s, w)
  {
  }

  lemma SharedMove(s: State, m: Move, w: nat)
    requires Enabled(s, m) && Deciding(s, w) && WakeupPending(s, w) && LockHeldByOwner(s)
    requires m.Publish? ==> m.uri != s.waiters[w].uri
    requires m == Cancel(w) || m == Fire(w) || m.Tick? || m.ServerDeath? || m.Publish? || m.Deliver?
    ensures Deciding(Next(s, m), w) && Next(s, m).waiters[w].uri == s.waiters[w].uri
    ensures Rank(Next(s, m), w) + (if Helpful(s, m, w) then 1 else 0) <= Rank(s, w)
  {
    assert Holding(s.waiters[w].pc) <==> s.owner == Some(w);
    hide LockHeldByOwner;
  }

  lemma ForeignMove(s: State, m: Move, w: nat)
    requires Enabled(s, m) && Deciding(s, w)
    requires m.Join? || m.Cancel? || m.Fire? || m.Acquire? || m.CheckContext? || m.CheckDoc? || m.CheckQuiet?
    requires m.w != w
    ensures Deciding(Next(s, m), w) && Next(s, m).waiters[w].uri == s.waiters[w].uri
    ensures Rank(Next(s, m), w) <= Rank(s, w) && !Helpful(s, m, w)
  {
  }

  predicate PublishesFor(m: Move, uri: string) { m.Publish? && m.uri == uri }

  function Helps(run: seq<State>, moves: seq<Move>, w: nat): nat
    requires |run| == |moves| + 1
  {
    if moves == [] then 0 else
      var n := |moves| - 1;
      (if Helpful(run[n], moves[n], w) then 1 else 0) + Helps(run[..n + 1], moves[..n], w)
  }

  /** Over any stretch without a publication for its document a deciding reader gets at
      least as much closer to finishing as it is helped, so it is never helped more than
      seven times. */
  lemma {:induction false} RankOverRun(run: seq<State>, moves: seq<Move>, w: nat)
    requires Behaviour(run, moves) && Inv(run[0]) && Deciding(run[0], w)
    requires forall m <- moves :: !PublishesFor(m, run[0].waiters[w].uri)
    ensures w in run[0].waiters && w in run[|moves|].waiters
    ensures var last := run[|moves|];
            Inv(last) && Deciding(last, w) && last.waiters[w].uri == run[0].waiters[w].uri
            && Rank(last, w) + Helps(run, moves, w) <= Rank(run[0], w)
    ensures Helps(run, moves, w) <= Rank(run[0], w) <= 7
    decreases |moves|
  {
    hide Inv, Next, Enabled, Quiet, Rank, Helpful;
    if moves != [] {
      var n := |moves| - 1;
      assert moves[n] in moves;
      assert forall m <- moves[..n] :: m in moves;
      RankOverRun(run[..n + 1], moves[..n], w);
      assert Enabled(run[n], moves[n]) && run[n + 1] == Next(run[n], moves[n]);
      NotForReader(run, moves, w, n);
      RankStep(run[n], moves[n], w);
      StepInv(run[n], moves[n]);
    }
  }

  lemma NotForReader(run: seq<State>, moves: seq<Move>, w: nat, n: nat)
    requires n < |moves| && |run| == |moves| + 1 && w in run[0].waiters && w in run[n].waiters
    requires forall m <- moves :: !PublishesFor(m, run[0].waiters[w].uri)
    requires run[n].waiters[w].uri == run[0].waiters[w].uri
    ensures moves[n].Publish? ==> moves[n].uri != run[n].waiters[w].uri
  {
    assert moves[n] in moves;
  }

  lemma {:induction false} HelpedOnce(run: seq<State>, moves: seq<Move>, w: nat, i: nat)
    requires |run| == |moves| + 1 && i < |moves| && Helpful(run[i], moves[i], w)
    ensures Helps(run, moves, w) > 0
    decreases |moves|
  {
    if i < |moves| - 1 { HelpedOnce(run[..|moves|], moves[..|moves| - 1], w, i); }
  }

  /** Between states `a` and `b` the reader has no need of help or gets some. */
  ghost predicate Served(run: seq<State>, moves: seq<Move>, w: nat, a: nat, b: nat)
    requires |run| == |moves| + 1 && a <= b <= |moves|
  {
    (w in run[a].waiters && Finished(run[a].waiters[w].pc))
    || exists i :: a <= i < b && Helpful(run[i], moves[i], w)
  }

  /** The reader is deciding in state `a`, and nothing is published for it from there on. */
  ghost predicate Undisturbed(run: seq<State>, moves: seq<Move>, w: nat, a: nat)
    requires |run| == |moves| + 1 && a <= |moves|
  {
    Inv(run[a]) && Deciding(run[a], w)
    && forall i :: a <= i < |moves| ==> !PublishesFor(moves[i], run[a].waiters[w].uri)
  }

  lemma {:induction false} RoundServes(run: seq<State>, moves: seq<Move>, w: nat, a: nat, b: nat)
    requires Behaviour(run, moves) && a <= b <= |moves| && Undisturbed(run, moves, w, a) && Served(run, moves, w, a, b)
    ensures Undisturbed(run, moves, w, b)
    ensures Rank(run[b], w) < Rank(run[a], w) || Rank(run[b], w) == 0
  {
    hide Inv, Next, Enabled, Rank, Helpful, Deciding;
    InWaiting(run[a], w);
    var part, steps := run[a..b + 1], moves[a..b];
    PartBehaves(run, moves, a, b);
    assert forall m <- steps :: !PublishesFor(m, run[a].waiters[w].uri);
    hide Behaviour;
    RankOverRun(part, steps, w);
    if !Finished(run[a].waiters[w].pc) {
      var i :| a <= i < b && Helpful(run[i], moves[i], w);
      HelpedOnce(part, steps, w, i - a);
    }
  }

  lemma PartBehaves(run: seq<State>, moves: seq<Move>, a: nat, b: nat)
    requires Behaviour(run, moves) && a <= b <= |moves|
    ensures Behaviour(run[a..b + 1], moves[a..b])
  {
    hide Enabled, Next;
    var part, steps := run[a..b + 1], moves[a..b];
    forall i | 0 <= i < |steps|
      ensures Enabled(part[i], steps[i]) && part[i + 1] == Next(part[i], steps[i])
    {
      assert part[i] == run[a + i] && part[i + 1] == run[a + i + 1] && steps[i] == moves[a + i];
    }
  }

  lemma InWaiting(s: State, w: nat)
    requires Deciding(s, w)
    ensures w in s.waiters
  {
  }

  /** Consecutive stretches of a run, in each of which the reader is served. */
  ghost predicate Rounds(run: seq<State>, moves: seq<Move>, w: nat, cuts: seq<nat>)
    requires |run| == |moves| + 1
  {
    (forall i :: 0 <= i < |cuts| ==> cuts[i] <= |moves|)
    && forall i :: 0 <= i < |cuts| - 1 ==> cuts[i] <= cuts[i + 1] && Served(run, moves, w, cuts[i], cuts[i + 1])
  }

  lemma {:induction false} RoundsServe(run: seq<State>, moves: seq<Move>, w: nat, cuts: seq<nat>, k: nat)
    requires Behaviour(run, moves) && k < |cuts| && Rounds(run, moves, w, cuts)
    requires Undisturbed(run, moves, w, cuts[0])
    ensures Undisturbed(run, moves, w, cuts[k])
    ensures Rank(run[cuts[k]], w) + k <= Rank(run[cuts[0]], w) || Rank(run[cuts[k]], w) == 0
    decreases k
  {
    hide Behaviour, Undisturbed, Served, Rank;
    if k > 0 {
      RoundsServe(run, moves, w, cuts, k - 1);
      RoundServes(run, moves, w, cuts[k - 1], cuts[k]);
    }
  }

  /** Once publications for its document stop and the quiet period is over (or its context
      is done), a reader finishes however others interleave: seven rounds, in each of which
      it gets some helpful move, are always enough. */
  lemma {:induction false} ReaderFinishes(run: seq<State>, moves: seq<Move>, w: nat, cuts: seq<nat>)
    requires Behaviour(run, moves) && Initial(run[0])
    requires |cuts| == 8 && Rounds(run, moves, w, cuts)
    requires Deciding(run[cuts[0]], w)
    requires forall i :: cuts[0] <= i < |moves| ==> !PublishesFor(moves[i], run[cuts[0]].waiters[w].uri)
    ensures w in run[cuts[7]].waiters && Finished(run[cuts[7]].waiters[w].pc)
  {
    hide Served, Inv, Next, Enabled, Initial;
    InitialInv(run[0]);
    BehaviourInv(run, moves, cuts[0]);
    hide Behaviour;
    RoundsServe(run, moves, w, cuts, 7);
  }

  /** A helpful move is there to take unless somebody else holds the lock or the reader's
      own timer has yet to come due, which it does within one settle interval. */
  lemma HelpIsAtHand(s: State, w: nat)
    requires Inv(s) && Deciding(s, w) && !Finished(s.waiters[w].pc)
    ensures (exists m :: Enabled(s, m) && Helpful(s, m, w))
         || (s.owner.Some? && s.owner.value != w)
         || (s.waiters[w].timer.Armed? && s.now < s.waiters[w].timer.due <= s.now + s.waiters[w].settle)
  {
    assert WakeupPending(s, w) && LockHeldByOwner(s);
    hide Inv, CacheFollowsHistory, HistoryOrdered, ReturnSound;
    var m := match s.waiters[w].pc
      case Wants => Acquire(w)
      case AtTop => CheckContext(w)
      case AtDoc => CheckDoc(w)
      case Measured(_) => CheckQuiet(w)
      case _ => if s.casts > 0 then Deliver else Fire(w);
    assert Enabled(s, m) ==> Helpful(s, m, w);
  }

  /** Moves a lock holder is from letting go. */
  function HoldRank(pc: Pc): nat {
    match pc case AtTop => 3 case AtDoc => 2 case Measured(_) => 1 case _ => 0
  }

  /** The move releases the lock or brings its holder closer to releasing it. */
  predicate LetsGo(s: State, m: Move, x: nat)
    requires Enabled(s, m) && x in s.waiters
  {
    Next(s, m).owner.None? || HoldRank(Next(s, m).waiters[x].pc) < HoldRank(s.waiters[x].pc)
  }

  /** Whoever holds the lock can always move on, and lets go within three moves. */
  lemma HolderMovesOn(s: State)
    requires Inv(s) && s.owner.Some?
    ensures var x := s.owner.value;
            x in s.waiters
            && (exists m :: Enabled(s, m) && m in {CheckContext(x), CheckDoc(x), CheckQuiet(x)}
                            && LetsGo(s, m, x))
  {
    assert LockHeldByOwner(s);
    hide Inv, CacheFollowsHistory, HistoryOrdered, ReturnSound, WakeupPending;
    var x := s.owner.value;
    var m := match s.waiters[x].pc
      case AtTop => CheckContext(x)
      case AtDoc => CheckDoc(x)
      case _ => CheckQuiet(x);
    assert Enabled(s, m);
  }

  // ----- no deadlock

  /** The moves that bring a deciding reader to its end. */
  ghost predicate Leads(s: State, run: seq<State>, moves: seq<Move>, w: nat) {
    Behaviour(run, moves) && run[0] == s && (forall m <- moves :: !m.Publish? && !m.Cancel? && !m.ServerDeath?)
    && w in run[|moves|].waiters && Finished(run[|moves|].waiters[w].pc)
  }

  /** What the move of `MoveTowards` brings closer. */
  ghost predicate Towards(s: State, m: Move, w: nat)
    requires Enabled(s, m) && w in s.waiters
  {
    Helpful(s, m, w)
    || (s.owner.Some? && s.owner.value != w && s.owner.value in s.waiters
        && m in {CheckContext(s.owner.value), CheckDoc(s.owner.value), CheckQuiet(s.owner.value)}
        && LetsGo(s, m, s.owner.value))
    || (m.Tick? && (s.owner.Some? ==> s.owner.value == w)
        && s.waiters[w].timer.Armed? && s.now < s.waiters[w].timer.due == Next(s, m).now)
  }

  lemma TickPasses(s: State, amount: nat)
    ensures Enabled(s, Tick(amount)) && Next(s, Tick(amount)) == s.(now := s.now + amount)
  {
  }

  /** One move towards it: a helpful one, the lock holder's, or time passing until the
      reader's timer is due. */
  lemma MoveTowards(s: State, w: nat) returns (m: Move)
    requires Inv(s) && Deciding(s, w) && !Finished(s.waiters[w].pc)
    ensures Enabled(s, m) && !m.Publish? && !m.Cancel? && !m.ServerDeath?
    ensures Towards(s, m, w)
  {
    hide Inv, Quiet, LetsGo, Next;
    if s.owner.Some? && s.owner.value != w {
      HolderMovesOn(s);
      m :| Enabled(s, m) && m in {CheckContext(s.owner.value), CheckDoc(s.owner.value), CheckQuiet(s.owner.value)}
           && LetsGo(s, m, s.owner.value);
    } else {
      HelpIsAtHand(s, w);
      if h :| Enabled(s, h) && Helpful(s, h, w) {
        m := h;
      } else {
        m := Tick(s.waiters[w].timer.due - s.now);
        TickPasses(s, m.amount);
      }
    }
  }

  /** Moves the lock's holder, if any, is from letting go. */
  function Held(s: State): nat {
    if s.owner.Some? && s.owner.value in s.waiters then HoldRank(s.waiters[s.owner.value].pc) else 0
  }

  /** 1 while the reader's timer is set but not due. */
  function Ahead(s: State, w: nat): nat
    requires w in s.waiters
  {
    if s.waiters[w].timer.Armed? && s.now < s.waiters[w].timer.due then 1 else 0
  }

  lemma HolderStep(s: State, m: Move, x: nat)
    requires Enabled(s, m) && LockHeldByOwner(s) && s.owner == Some(x) && x in s.waiters
    requires m in {CheckContext(x), CheckDoc(x), CheckQuiet(x)} && LetsGo(s, m, x)
    ensures Held(Next(s, m)) < Held(s)
  {
  }

  lemma MeasureFalls(s: State, m: Move, w: nat)
    requires Inv(s) && Enabled(s, m) && Deciding(s, w) && Towards(s, m, w) && w in Next(s, m).waiters
    requires Rank(Next(s, m), w) + (if Helpful(s, m, w) then 1 else 0) <= Rank(s, w)
    ensures Rank(Next(s, m), w) < Rank(s, w) || Held(Next(s, m)) < Held(s)
         || (Held(Next(s, m)) == Held(s) && Ahead(Next(s, m), w) < Ahead(s, w))
  {
    hide Rank, Helpful, CacheFollowsHistory, HistoryOrdered, WakeupPending, ReturnSound;
    if !Helpful(s, m, w) && !m.Tick? {
      HolderStep(s, m, s.owner.value);
    }
  }

  lemma NoMoves(s: State)
    ensures Behaviour([s], [])
  {
  }

  lemma {:induction false} PrependMove(s: State, m: Move, run: seq<State>, moves: seq<Move>)
    requires Enabled(s, m) && Behaviour(run, moves) && run[0] == Next(s, m)
    ensures Behaviour([s] + run, [m] + moves)
  {
    hide Enabled, Next;
    var whole, all := [s] + run, [m] + moves;
    forall i | 0 <= i < |all| ensures Enabled(whole[i], all[i]) && whole[i + 1] == Next(whole[i], all[i]) {
      if i > 0 { assert whole[i] == run[i - 1] && whole[i + 1] == run[i] && all[i] == moves[i - 1]; }
    }
  }

  /** From every reachable state, with whatever other readers, timers and broadcasts under
      way, a deciding reader can be brought to its end without any further publication,
      cancellation or server death: the protocol never deadlocks on it. */
  lemma {:induction false} NeverStuck(s: State, w: nat) returns (run: seq<State>, moves: seq<Move>)
    requires Inv(s) && Deciding(s, w)
    ensures Leads(s, run, moves, w)
    decreases Rank(s, w), Held(s), Ahead(s, w)
  {
    hide Inv, Quiet, LetsGo, Behaviour, Helpful;
    if Finished(s.waiters[w].pc) {
      run, moves := [s], [];
      assert Behaviour(run, moves) by { NoMoves(s); }
    } else {
      var m := MoveTowards(s, w);
      var after := Next(s, m);
      RankStep(s, m, w);
      StepInv(s, m);
      MeasureFalls(s, m, w);
      hide Next, Enabled, Rank, Held, Ahead, Deciding;
      var rest, steps := NeverStuck(after, w);
      run, moves := [s] + rest, [m] + steps;
      PrependMove(s, m, rest, steps);
    }
  }

  /** The same for any reader that has news or whose context is done: letting time pass is
      all that may have to come first. */
  lemma {:induction false} NewsReachesReader(s: State, w: nat) returns (run: seq<State>, moves: seq<Move>)
    requires Inv(s) && w in s.waiters && (s.waiters[w].done || Ready(s, w))
    ensures Leads(s, run, moves, w)
  {
    var me := s.waiters[w];
    var due := if me.uri in s.docs then s.docs[me.uri].lastPub + me.settle else s.now;
    var wait: nat := if s.now < due then due - s.now else 0;
    TickPasses(s, wait);
    StepInv(s, Tick(wait));
    var after := Next(s, Tick(wait));
    assert Deciding(after, w);
    hide Inv, Next, Enabled, Behaviour, Deciding;
    var rest, steps := NeverStuck(after, w);
    run, moves := [s] + rest, [Tick(wait)] + steps;
    PrependMove(s, Tick(wait), rest, steps);
  }

  // ----- broadcasts alone release nobody

  predicate StillWaiting(s: State, w: nat) {
    w in s.waiters && !s.waiters[w].done && !Ready(s, w)
    && (s.waiters[w].pc.Wants? || s.waiters[w].pc.AtTop? || s.waiters[w].pc.AtDoc? || s.waiters[w].pc.Parked?)
  }

  /** Without a publication for its document and without cancellation a reader keeps
      waiting whatever else happens, the server's death included: the loop re-checks and
      parks again. */
  lemma {:induction false} BroadcastsReleaseNobody(run: seq<State>, moves: seq<Move>, w: nat)
    requires Behaviour(run, moves) && LockHeldByOwner(run[0]) && StillWaiting(run[0], w)
    requires forall m <- moves :: !PublishesFor(m, run[0].waiters[w].uri) && m != Cancel(w)
    ensures var last := run[|moves|];
            LockHeldByOwner(last) && StillWaiting(last, w) && last.waiters[w].uri == run[0].waiters[w].uri
    decreases |moves|
  {
    hide Next, Enabled, StillWaiting, LockHeldByOwner;
    if moves != [] {
      var n := |moves| - 1;
      assert moves[n] in moves;
      assert forall m <- moves[..n] :: m in moves;
      assert StillWaiting(run[0], w) ==> w in run[0].waiters by { InWaiters(run[0], w); }
      BroadcastsReleaseNobody(run[..n + 1], moves[..n], w);
      assert Enabled(run[n], moves[n]) && run[n + 1] == Next(run[n], moves[n]);
      LockStep(run[n], moves[n]);
      WaitingStep(run[n], moves[n], w);
    }
  }

  lemma InWaiters(s: State, w: nat)
    ensures StillWaiting(s, w) ==> w in s.waiters
  {
  }

  lemma WaitingStep(s: State, m: Move, w: nat)
    requires Enabled(s, m) && StillWaiting(s, w) && m != Cancel(w)
    requires !PublishesFor(m, s.waiters[w].uri)
    ensures StillWaiting(Next(s, m), w) && Next(s, m).waiters[w].uri == s.waiters[w].uri
  {
  }

  // ----- one pass of the loop

  /** Run without interruption, the three checks are the store's own wait pass. */
  lemma PassIsVerdict(s: State, w: nat)
    requires Inv(s) && At(s, w, AtTop) && s.owner == Some(w)
    ensures var me := s.waiters[w];
            var s1 := Next(s, CheckContext(w));
            match VerdictOf(s.docs, me.uri, me.settle, me.baseline, me.done, s.now)
            case GiveUp => At(s1, w, Cancelled)
            case Park => Enabled(s1, CheckDoc(w)) && At(Next(s1, CheckDoc(w)), w, Parked)
            case Settled(diags) =>
              Enabled(s1, CheckDoc(w)) && var s2 := Next(s1, CheckDoc(w));
              Enabled(s2, CheckQuiet(w)) && At(Next(s2, CheckQuiet(w)), w, Returned(diags, |s.history|, s.now))
            case ParkFor(delay) =>
              Enabled(s1, CheckDoc(w)) && var s2 := Next(s1, CheckDoc(w));
              Enabled(s2, CheckQuiet(w)) && At(Next(s2, CheckQuiet(w)), w, Parked)
              && Next(s2, CheckQuiet(w)).waiters[w].timer == Armed(s.now + delay)
  {
    hide Inv;
  }
}
