/** The settle protocol as a step relation: publishers, timers, cancelled contexts and
    readers parked on one condition variable, with the mutex explicit. */
module Settle {
  import opened Common
  import opened DiagnosticsStore

  // ----- states

  /** Where a reader stands in `waitSettledAfter`. */
  datatype Pc =
    | Wants                       // about to take the lock: on entry, or woken
    | AtTop                       // holds the lock, has not looked at its context
    | AtDoc                       // holds the lock, context was live
    | Measured(elapsed: int)      // holds the lock, has read the clock
    | Parked                      // on the condition variable
    | Returned(diags: seq<Diagnostic>, upTo: nat, at: int)
    | Cancelled

  datatype Timer = NoTimer | Armed(due: int) | Fired

  datatype Waiter = Waiter(uri: string, settle: int, baseline: nat, done: bool, timer: Timer, pc: Pc)

  datatype Publication = Publication(uri: string, diags: seq<Diagnostic>, at: int)

  /** `casts` counts broadcasts spawned by timers, contexts and the crash watchdog that
      have not yet run; `history` is every publication so far. */
  datatype State = State(
    now: int,
    docs: Docs,
    waiters: map<nat, Waiter>,
    owner: Option<nat>,
    casts: nat,
    history: seq<Publication>)

  datatype Move =
    | Join(w: nat, uri: string, settle: int, baseline: nat)
    | Publish(uri: string, diags: seq<Diagnostic>, version: int)
    | Tick(amount: nat)
    | Cancel(w: nat)
    | Fire(w: nat)
    | ServerDeath
    | Deliver
    | Acquire(w: nat)
    | CheckContext(w: nat)
    | CheckDoc(w: nat)
    | CheckQuiet(w: nat)

  predicate Holding(pc: Pc) { pc.AtTop? || pc.AtDoc? || pc.Measured? }

  predicate Finished(pc: Pc) { pc.Returned? || pc.Cancelled? }

  function Woken(ws: map<nat, Waiter>): map<nat, Waiter> {
    map w | w in ws :: if ws[w].pc.Parked? then ws[w].(pc := Wants) else ws[w]
  }

  function WithPc(s: State, w: nat, pc: Pc): State
    requires w in s.waiters
  {
    s.(waiters := s.waiters[w := s.waiters[w].(pc := pc)])
  }

  function Release(s: State): State { s.(owner := None) }

  /** A publication past the reader's baseline is in the cache. */
  predicate Ready(s: State, w: nat)
    requires w in s.waiters
  {
    PublishSeqOf(s.docs, s.waiters[w].uri) > s.waiters[w].baseline
  }

  predicate At(s: State, w: nat, pc: Pc) { w in s.waiters && s.waiters[w].pc == pc }

  predicate Enabled(s: State, m: Move) {
    match m
    case Join(w, _, _, _) => w !in s.waiters
    case Publish(_, _, _) => s.owner.None?
    case Tick(_) => true
    case Cancel(w) => w in s.waiters && !s.waiters[w].done
    case Fire(w) => w in s.waiters && s.waiters[w].timer.Armed? && s.now >= s.waiters[w].timer.due
    case ServerDeath => true
    case Deliver => s.owner.None? && s.casts > 0
    case Acquire(w) => At(s, w, Wants) && s.owner.None?
    case CheckContext(w) => At(s, w, AtTop) && s.owner == Some(w)
    case CheckDoc(w) => At(s, w, AtDoc) && s.owner == Some(w)
    case CheckQuiet(w) => w in s.waiters && s.waiters[w].pc.Measured? && s.owner == Some(w)
  }

  function Next(s: State, m: Move): State
    requires Enabled(s, m)
  {
    match m
    case Join(w, uri, settle, baseline) =>
      s.(waiters := s.waiters[w := Waiter(uri, settle, baseline, false, NoTimer, Wants)])
    case Publish(uri, diags, version) =>
      s.(docs := Published(s.docs, uri, diags, version, s.now),
         waiters := Woken(s.waiters),
         history := s.history + [Publication(uri, diags, s.now)])
    case Tick(n) => s.(now := s.now + n)
    case Cancel(w) =>
      s.(waiters := s.waiters[w := s.waiters[w].(done := true)],
         casts := if Finished(s.waiters[w].pc) then s.casts else s.casts + 1)
    case Fire(w) =>
      s.(waiters := s.waiters[w := s.waiters[w].(timer := Fired)], casts := s.casts + 1)
    case ServerDeath => s.(casts := s.casts + 1)
    case Deliver => s.(waiters := Woken(s.waiters), casts := s.casts - 1)
    case Acquire(w) =>
      s.(waiters := s.waiters[w := s.waiters[w].(timer := NoTimer, pc := AtTop)], owner := Some(w))
    case CheckContext(w) =>
      if s.waiters[w].done then Release(WithPc(s, w, Cancelled)) else WithPc(s, w, AtDoc)
    case CheckDoc(w) =>
      if Ready(s, w) then WithPc(s, w, Measured(s.now - s.docs[s.waiters[w].uri].lastPub))
      else Release(WithPc(s, w, Parked))
    case CheckQuiet(w) =>
      var me := s.waiters[w];
      if me.pc.elapsed >= me.settle then
        var diags := if me.uri in s.docs then s.docs[me.uri].diags else [];
        Release(WithPc(s, w, Returned(diags, |s.history|, s.now)))
      else
        Release(s.(waiters := s.waiters[w :=
                     me.(timer := Armed(s.now + (me.settle - me.pc.elapsed)), pc := Parked)]))
  }

  /** A fresh store and nobody waiting. */
  predicate Initial(s: State) {
    s.docs == map[] && s.waiters == map[] && s.owner.None? && s.history == []
  }

  ghost predicate Behaviour(run: seq<State>, moves: seq<Move>) {
    |run| == |moves| + 1
    && forall i :: 0 <= i < |moves| ==> Enabled(run[i], moves[i]) && run[i + 1] == Next(run[i], moves[i])
  }

  // ----- the history of a document

  function Count(h: seq<Publication>, uri: string): nat {
    if h == [] then 0 else (if h[|h| - 1].uri == uri then 1 else 0) + Count(h[..|h| - 1], uri)
  }

  /** Position of the last publication for `uri`. */
  function LastFor(h: seq<Publication>, uri: string): (i: nat)
    requires Count(h, uri) > 0
    ensures i < |h| && h[i].uri == uri && forall k :: i < k < |h| ==> h[k].uri != uri
  {
    if h[|h| - 1].uri == uri then |h| - 1 else LastFor(h[..|h| - 1], uri)
  }

  lemma CountSnoc(h: seq<Publication>, p: Publication, uri: string)
    ensures Count(h + [p], uri) == Count(h, uri) + if p.uri == uri then 1 else 0
    ensures Count(h + [p], uri) > 0 ==>
              LastFor(h + [p], uri) == if p.uri == uri then |h| else LastFor(h, uri)
  {
    assert (h + [p])[..|h|] == h;
  }

  // ----- invariants

  /** The cache is what the history says. */
  ghost predicate CacheFollowsHistory(s: State) {
    forall uri: string ::
      PublishSeqOf(s.docs, uri) == Count(s.history, uri)
      && (uri in s.docs <==> Count(s.history, uri) > 0)
      && (Count(s.history, uri) > 0 ==>
            var p := s.history[LastFor(s.history, uri)];
            s.docs[uri].diags == p.diags && s.docs[uri].lastPub == p.at)
  }

  ghost predicate HistoryOrdered(s: State) {
    (forall i, j :: 0 <= i < j < |s.history| ==> s.history[i].at <= s.history[j].at)
    && forall i :: 0 <= i < |s.history| ==> s.history[i].at <= s.now
  }

  ghost predicate LockHeldByOwner(s: State) {
    (forall w <- s.waiters :: Holding(s.waiters[w].pc) <==> s.owner == Some(w))
    && (s.owner.Some? ==> s.owner.value in s.waiters)
  }

  /** Nobody sleeps through what should wake them: a parked reader whose context is done
      has a broadcast coming; one with news has a timer set no earlier than the end of
      the quiet period, or its broadcast coming; and one without news has no timer.  No
      timer is set further ahead than the settle interval. */
  ghost predicate WakeupPending(s: State, w: nat)
    requires w in s.waiters
  {
    Awaited(s, w) && TimerInReach(s, w)
  }

  ghost predicate Awaited(s: State, w: nat)
    requires w in s.waiters
  {
    var me := s.waiters[w];
    (me.pc.Parked? ==>
       (me.done ==> s.casts > 0)
       && (if Ready(s, w) then
             (me.timer.Armed? && me.uri in s.docs && me.timer.due >= s.docs[me.uri].lastPub + me.settle)
             || (me.timer.Fired? && s.casts > 0)
           else me.timer.NoTimer?))
    && (Holding(me.pc) ==> me.timer.NoTimer?)
    && (me.pc.AtDoc? && me.done ==> s.casts > 0)
    && (me.pc.Measured? ==>
          Ready(s, w) && me.uri in s.docs
          && me.pc.elapsed <= s.now - s.docs[me.uri].lastPub
          && (me.done ==> s.casts > 0))
  }

  ghost predicate TimerInReach(s: State, w: nat)
    requires w in s.waiters
  {
    var me := s.waiters[w];
    (me.pc.Measured? ==> me.pc.elapsed >= 0) && (me.timer.Armed? ==> me.timer.due <= s.now + me.settle)
  }

  /** What a returned reader was given: the latest publication for its document when it
      returned, past its baseline, after a quiet period of at least `settle`. */
  ghost predicate ReturnSound(s: State, w: nat)
    requires w in s.waiters
  {
    var me := s.waiters[w];
    me.pc.Returned? ==>
      var upTo, at := me.pc.upTo, me.pc.at;
      upTo <= |s.history| && at <= s.now
      && Count(s.history[..upTo], me.uri) > me.baseline
      && me.pc.diags == s.history[LastFor(s.history[..upTo], me.uri)].diags
      && (forall i :: 0 <= i < upTo && s.history[i].uri == me.uri ==> s.history[i].at + me.settle <= at)
      && (forall i :: upTo <= i < |s.history| ==> s.history[i].at >= at)
  }

  ghost predicate Inv(s: State) {
    CacheFollowsHistory(s) && HistoryOrdered(s) && LockHeldByOwner(s)
    && (forall w <- s.waiters :: WakeupPending(s, w))
    && (forall w <- s.waiters :: ReturnSound(s, w))
  }

  lemma InitialInv(s: State)
    requires Initial(s)
    ensures Inv(s)
  {
  }

  lemma CacheStep(s: State, m: Move)
    requires Enabled(s, m) && CacheFollowsHistory(s)
    ensures CacheFollowsHistory(Next(s, m))
  {
    if m.Publish? {
      var p := Publication(m.uri, m.diags, s.now);
      var s' := Next(s, m);
      forall uri: string ensures
          PublishSeqOf(s'.docs, uri) == Count(s'.history, uri)
          && (uri in s'.docs <==> Count(s'.history, uri) > 0)
          && (Count(s'.history, uri) > 0 ==>
                var q := s'.history[LastFor(s'.history, uri)];
                s'.docs[uri].diags == q.diags && s'.docs[uri].lastPub == q.at)
      {
        CountSnoc(s.history, p, uri);
      }
    }
  }

  lemma OrderStep(s: State, m: Move)
    requires Enabled(s, m) && HistoryOrdered(s)
    ensures HistoryOrdered(Next(s, m))
  {
  }

  lemma LockStep(s: State, m: Move)
    requires Enabled(s, m) && LockHeldByOwner(s)
    ensures LockHeldByOwner(Next(s, m))
  {
    hide Ready;
  }

  lemma WakeupStep(s: State, m: Move, w: nat)
    requires Enabled(s, m) && LockHeldByOwner(s) && HistoryOrdered(s) && CacheFollowsHistory(s)
    requires w in Next(s, m).waiters && (w in s.waiters ==> WakeupPending(s, w))
    ensures WakeupPending(Next(s, m), w)
  {
    hide CacheFollowsHistory, HistoryOrdered, LockHeldByOwner, TimerInReach, Awaited, Next;
    AwaitedStep(s, m, w);
    TimerStep(s, m, w);
  }

  lemma AwaitedStep(s: State, m: Move, w: nat)
    requires Enabled(s, m) && LockHeldByOwner(s)
    requires w in Next(s, m).waiters && (w in s.waiters ==> Awaited(s, w))
    ensures Awaited(Next(s, m), w)
  {
  }

  lemma TimerStep(s: State, m: Move, w: nat)
    requires Enabled(s, m) && HistoryOrdered(s) && CacheFollowsHistory(s)
    requires w in Next(s, m).waiters && (w in s.waiters ==> TimerInReach(s, w))
    ensures TimerInReach(Next(s, m), w)
  {
    if m == CheckDoc(w) { PublishedInThePast(s, s.waiters[w].uri); }
    hide CacheFollowsHistory, HistoryOrdered;
  }

  lemma PublishedInThePast(s: State, uri: string)
    requires CacheFollowsHistory(s) && HistoryOrdered(s)
    ensures uri in s.docs ==> s.docs[uri].lastPub <= s.now
  {
    assert uri in s.docs <==> Count(s.history, uri) > 0;
  }

  /** A return is sound when it is made ... */
  lemma ReturnStep(s: State, w: nat)
    requires Inv(s) && Enabled(s, CheckQuiet(w)) && s.waiters[w].pc.elapsed >= s.waiters[w].settle
    ensures ReturnSound(Next(s, CheckQuiet(w)), w)
  {
    assert WakeupPending(s, w);
    var me, h := s.waiters[w], s.history;
    assert h[..|h|] == h;
    assert PublishSeqOf(s.docs, me.uri) == Count(h, me.uri);
    var last := LastFor(h, me.uri);
    forall i | 0 <= i < |h| && h[i].uri == me.uri ensures h[i].at + me.settle <= s.now {
      assert i <= last;
    }
  }

  /** ... and stays so. */
  lemma {:induction false} ReturnStays(s: State, m: Move, w: nat)
    requires Enabled(s, m) && HistoryOrdered(s)
    requires w in s.waiters && ReturnSound(s, w) && !(m == CheckQuiet(w))
    ensures ReturnSound(Next(s, m), w)
  {
    var s' := Next(s, m);
    WaiterStep(s, m, w);
    LogStep(s, m);
    hide Next, Enabled, HistoryOrdered;
    if s'.waiters[w].pc.Returned? {
      assert s'.history[..s.waiters[w].pc.upTo] == s.history[..s.waiters[w].pc.upTo];
    }
  }

  /** A reader keeps what it asked for, and returns only by checking for quiet. */
  lemma WaiterStep(s: State, m: Move, w: nat)
    requires Enabled(s, m) && w in s.waiters && m != CheckQuiet(w)
    ensures w in Next(s, m).waiters
    ensures var me, after := s.waiters[w], Next(s, m).waiters[w];
            after.uri == me.uri && after.settle == me.settle && after.baseline == me.baseline
            && (after.pc.Returned? ==> me.pc == after.pc)
  {
  }

  lemma LogStep(s: State, m: Move)
    requires Enabled(s, m)
    ensures s.history <= Next(s, m).history && s.now <= Next(s, m).now
    ensures forall i :: |s.history| <= i < |Next(s, m).history| ==> Next(s, m).history[i].at >= s.now
  {
  }

  lemma StepInv(s: State, m: Move)
    requires Inv(s) && Enabled(s, m)
    ensures Inv(Next(s, m))
  {
    hide CacheFollowsHistory, HistoryOrdered, WakeupPending, ReturnSound;
    var s' := Next(s, m);
    CacheStep(s, m);
    OrderStep(s, m);
    LockStep(s, m);
    forall w | w in s'.waiters ensures WakeupPending(s', w) && ReturnSound(s', w) {
      WakeupStep(s, m, w);
      ReturnInv(s, m, w);
    }
  }

  lemma ReturnInv(s: State, m: Move, w: nat)
    requires Inv(s) && Enabled(s, m) && w in Next(s, m).waiters
    ensures ReturnSound(Next(s, m), w)
  {
    hide CacheFollowsHistory, HistoryOrdered, WakeupPending;
    if m == CheckQuiet(w) && s.waiters[w].pc.elapsed >= s.waiters[w].settle {
      ReturnStep(s, w);
    } else if w in s.waiters && m != CheckQuiet(w) {
      ReturnStays(s, m, w);
    }
  }

  /** Every state of every interleaving keeps the invariant: no wakeup is lost and every
      return is sound. */
  lemma {:induction false} BehaviourInv(run: seq<State>, moves: seq<Move>, i: nat)
    requires Behaviour(run, moves) && Inv(run[0]) && i < |run|
    ensures Inv(run[i])
  {
    hide Inv, Next, Enabled;
    if i > 0 {
      BehaviourInv(run, moves, i - 1);
      assert Enabled(run[i - 1], moves[i - 1]);
      StepInv(run[i - 1], moves[i - 1]);
    }
  }
}
