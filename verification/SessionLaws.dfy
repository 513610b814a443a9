/** What a caller of the manager gets: a session of its own language, or a refusal with a
    reason. */
module SessionLaws {
  import opened Lifecycle

  // ----- looking up

  /** A look-up gives the language's live session if there is one, and otherwise a new one
      with the store of the language's sessions so far. */
  lemma LookupGives(s: State, c: nat, lang: string)
    requires Inv(s) && Enabled(s, Lookup(c)) && s.callers[c] == Entering(lang)
    ensures var after := Next(s, Lookup(c));
            after.callers[c].AtOnce?
            && var x := after.callers[c].session;
               x < |after.table| && after.table[x].lang == lang && !after.table[x].dead
               && (forall y :: 0 <= y < |s.table| && s.table[y].lang == lang && !s.table[y].dead ==>
                     x == y && after.table == s.table)
               && (forall y :: 0 <= y < |s.table| && s.table[y].lang == lang ==>
                     after.table[x].store == s.table[y].store)
               && ((forall y :: 0 <= y < |s.table| ==> s.table[y].lang != lang || s.table[y].dead) ==>
                     x == |s.table| && after.table[x].phase.Idle?)
  {
    assert OneLive(s) && OneStorePerLanguage(s);
    hide Inv, CallersConsistent, NumbersCount, SessionConsistent;
    assert lang in s.current ==> s.table[s.current[lang]].lang == lang;
  }

  // ----- who gets what

  /** How a caller and a session came to be where they are. */
  ghost predicate CallerStory(s: State, moves: seq<Move>, c: nat)
    requires c in s.callers
  {
    match s.callers[c]
    case Entering(lang) => Enter(c, lang) in moves
    case AtOnce(x) => x < |s.table| && Enter(c, s.table[x].lang) in moves
    case InStart(x) => x < |s.table| && Enter(c, s.table[x].lang) in moves
    case Waiting(x) => x < |s.table| && Enter(c, s.table[x].lang) in moves
    case Got(x) => x < |s.table| && Enter(c, s.table[x].lang) in moves
    case Refused =>
      GiveUp(c) in moves || exists x :: 0 <= x < |s.table| && s.table[x].failed && Enter(c, s.table[x].lang) in moves
  }

  ghost predicate SessionStory(s: State, moves: seq<Move>, x: nat)
    requires x < |s.table|
  {
    (s.table[x].phase.Running? ==> Enter(s.table[x].phase.starter, s.table[x].lang) in moves)
    && (s.table[x].watching ==> InitOk(x) in moves)
    && (s.table[x].failed ==> InitFail(x) in moves)
  }

  ghost predicate Story(s: State, moves: seq<Move>) {
    (forall c <- s.callers :: CallerStory(s, moves, c))
    && forall x :: 0 <= x < |s.table| ==> SessionStory(s, moves, x)
  }

  lemma FailedStays(s: State, m: Move)
    requires Enabled(s, m)
    ensures forall x :: 0 <= x < |s.table| ==>
              x < |Next(s, m).table| && Next(s, m).table[x].lang == s.table[x].lang
              && (s.table[x].failed ==> Next(s, m).table[x].failed)
  {
    TableStep(s, m);
    forall x | 0 <= x < |s.table| && s.table[x].failed ensures Next(s, m).table[x].failed {
      if m.Lookup? { assert Next(s, m).table[x] == s.table[x]; }
    }
  }

  lemma SessionStoryStep(s: State, moves: seq<Move>, m: Move, x: nat)
    requires Enabled(s, m) && Story(s, moves) && x < |Next(s, m).table|
    ensures SessionStory(Next(s, m), moves + [m], x)
  {
    MoreMoves(moves, m);
    WhatSessionsDo(s, m, x);
    var me := Next(s, m).table[x];
    if x < |s.table| {
      assert SessionStory(s, moves, x);
      if me.phase.Running? {
        if me.phase != s.table[x].phase { BeginnersEntered(s, moves, me.phase.starter); }
        assert Enter(me.phase.starter, me.lang) in moves;
      }
      assert me.watching ==> InitOk(x) in moves + [m];
      assert me.failed ==> InitFail(x) in moves + [m];
    } else {
      assert !me.watching && !me.failed && me.phase.Idle?;
    }
  }

  lemma BeginnersEntered(s: State, moves: seq<Move>, c: nat)
    requires Enabled(s, Begin(c)) && Story(s, moves)
    ensures Enter(c, s.table[s.callers[c].session].lang) in moves
  {
    assert CallerStory(s, moves, c);
  }

  lemma MoreMoves(moves: seq<Move>, m: Move)
    ensures m in moves + [m] && forall k: Move :: k in moves ==> k in moves + [m]
  {
  }

  /** The moves that start a session, and tell how its start ended. */
  lemma WhatSessionsDo(s: State, m: Move, x: nat)
    requires Enabled(s, m) && x < |Next(s, m).table|
    ensures var me := Next(s, m).table[x];
            if x >= |s.table| then !me.watching && !me.failed && me.phase.Idle?
            else me.lang == s.table[x].lang
                 && (me.watching ==> s.table[x].watching || m == InitOk(x))
                 && (me.failed ==> s.table[x].failed || m == InitFail(x))
                 && (me.phase.Running? ==>
                       me.phase == s.table[x].phase
                       || (m == Begin(me.phase.starter) && s.callers[me.phase.starter].session == x))
  {
  }

  /** Where a move leaves a caller. */
  ghost predicate Goes(s: State, m: Move, c: nat, now: Caller) {
    (c in s.callers && now == s.callers[c])
    || (exists lang :: m == Enter(c, lang) && now == Entering(lang))
    || (m == Lookup(c) && now.AtOnce?)
    || (c in s.callers && (s.callers[c].AtOnce? || s.callers[c].Waiting?)
        && ((now.InStart? && now.session == s.callers[c].session)
            || (now.Waiting? && now.session == s.callers[c].session)
            || (now.Got? && now.session == s.callers[c].session)
            || (now.Refused? && m == GiveUp(c))
            || (now.Refused? && s.callers[c].session < |s.table| && s.table[s.callers[c].session].failed)))
    || (m.Finish? && m.s < |s.table| && s.table[m.s].phase == Running(c) && now == Waiting(m.s))
  }

  lemma WhatCallersDo(s: State, m: Move, c: nat)
    requires Enabled(s, m) && c in Next(s, m).callers
    ensures Goes(s, m, c, Next(s, m).callers[c])
  {
    if m.Enter? && m.c == c { assert m == Enter(c, m.lang); }
  }

  lemma CallerStoryStep(s: State, moves: seq<Move>, m: Move, c: nat)
    requires Inv(s) && Enabled(s, m) && Story(s, moves) && c in Next(s, m).callers
    ensures CallerStory(Next(s, m), moves + [m], c)
  {
    FailedStays(s, m);
    WhatCallersDo(s, m, c);
    if m.Finish? && m.s < |s.table| { assert SessionStory(s, moves, m.s); }
    if c in s.callers { assert CallerStory(s, moves, c); }
    if m == Lookup(c) { LookupGives(s, c, s.callers[c].lang); }
    hide Story, Inv, Next, Enabled, CallerStory, SessionStory, Goes;
    if c in s.callers && Next(s, m).callers[c] == s.callers[c] {
      StoryGrows(s, Next(s, m), moves, m, c);
    } else {
      StoryTurns(s, Next(s, m), moves, m, c);
    }
  }

  /** A caller that moves takes its language with it. */
  lemma StoryTurns(s: State, after: State, moves: seq<Move>, m: Move, c: nat)
    requires c in after.callers && Goes(s, m, c, after.callers[c])
    requires c in s.callers ==> after.callers[c] != s.callers[c] && CallerStory(s, moves, c)
    requires m.Finish? && m.s < |s.table| ==> SessionStory(s, moves, m.s)
    requires m == Lookup(c) ==>
               c in s.callers && s.callers[c].Entering? && after.callers[c].AtOnce?
               && after.callers[c].session < |after.table|
               && after.table[after.callers[c].session].lang == s.callers[c].lang
    requires forall x :: 0 <= x < |s.table| ==>
               x < |after.table| && after.table[x].lang == s.table[x].lang
               && (s.table[x].failed ==> after.table[x].failed)
    ensures CallerStory(after, moves + [m], c)
  {
    MoreMoves(moves, m);
    hide Enabled, Next;
  }

  lemma StoryGrows(s: State, after: State, moves: seq<Move>, m: Move, c: nat)
    requires c in s.callers && c in after.callers && after.callers[c] == s.callers[c] && CallerStory(s, moves, c)
    requires forall x :: 0 <= x < |s.table| ==>
               x < |after.table| && after.table[x].lang == s.table[x].lang
               && (s.table[x].failed ==> after.table[x].failed)
    ensures CallerStory(after, moves + [m], c)
  {
    MoreMoves(moves, m);
    if s.callers[c].Refused? && GiveUp(c) !in moves {
      var x :| 0 <= x < |s.table| && s.table[x].failed && Enter(c, s.table[x].lang) in moves;
      assert after.table[x].failed;
    }
  }

  lemma {:induction false} StoryOverRun(run: seq<State>, moves: seq<Move>, i: nat)
    requires Behaviour(run, moves) && Initial(run[0]) && i < |run|
    ensures Story(run[i], moves[..i])
  {
    hide Inv, Next, Enabled, CallerStory, SessionStory;
    if i > 0 {
      StoryOverRun(run, moves, i - 1);
      BehaviourInv(run, moves, i - 1);
      var s, m := run[i - 1], moves[i - 1];
      assert Enabled(s, m) && run[i] == Next(s, m);
      assert moves[..i] == moves[..i - 1] + [m];
      forall c | c in run[i].callers ensures CallerStory(run[i], moves[..i], c) {
        CallerStoryStep(s, moves[..i - 1], m, c);
      }
      forall x | 0 <= x < |run[i].table| ensures SessionStory(run[i], moves[..i], x) {
        SessionStoryStep(s, moves[..i - 1], m, x);
      }
    }
  }

  lemma {:induction false} CallersStay(run: seq<State>, moves: seq<Move>, c: nat, i: nat, j: nat)
    requires Behaviour(run, moves) && i <= j < |run| && c in run[i].callers
    ensures c in run[j].callers
    decreases j
  {
    hide Enabled;
    if i < j {
      CallersStay(run, moves, c, i, j - 1);
      assert Enabled(run[j - 1], moves[j - 1]);
    }
  }

  /** A caller enters once. */
  lemma EntersOnce(run: seq<State>, moves: seq<Move>, c: nat, a: string, b: string, i: nat, j: nat)
    requires Behaviour(run, moves) && i < |moves| && j < |moves|
    requires moves[i] == Enter(c, a) && moves[j] == Enter(c, b)
    ensures i == j
  {
    assert Enabled(run[i], moves[i]) && Enabled(run[j], moves[j]);
    if i < j { CallersStay(run, moves, c, i + 1, j); }
    if j < i { CallersStay(run, moves, c, j + 1, i); }
  }

  /** Whatever others do, a caller that got a session got one of the language it asked for,
      and somebody started that session successfully; a caller that was refused gave up
      waiting, or a session of its language failed to start. */
  lemma CallerGetsOwn(run: seq<State>, moves: seq<Move>, i: nat, j: nat, c: nat, lang: string)
    requires Behaviour(run, moves) && Initial(run[0]) && j < i < |run| && moves[j] == Enter(c, lang)
    ensures c in run[i].callers
    ensures match run[i].callers[c]
            case Got(x) => x < |run[i].table| && run[i].table[x].lang == lang && InitOk(x) in moves[..i]
            case Refused =>
              GiveUp(c) in moves[..i]
              || exists x :: 0 <= x < |run[i].table| && run[i].table[x].lang == lang && InitFail(x) in moves[..i]
            case _ => true
  {
    assert Enabled(run[j], moves[j]) && run[j + 1] == Next(run[j], moves[j]);
    CallersStay(run, moves, c, j + 1, i);
    StoryOverRun(run, moves, i);
    hide Next, Enabled, Initial;
    assert CallerStory(run[i], moves[..i], c);
    forall l | Enter(c, l) in moves[..i] ensures l == lang {
      var k :| 0 <= k < i && moves[k] == Enter(c, l);
      EntersOnce(run, moves, c, l, lang, k, j);
    }
    hide Behaviour;
    match run[i].callers[c] {
      case Got(x) =>
        GotStartedHere(run, moves, i, c);
        assert SessionStory(run[i], moves[..i], x);
      case Refused =>
        if GiveUp(c) !in moves[..i] {
          var x :| 0 <= x < |run[i].table| && run[i].table[x].failed && Enter(c, run[i].table[x].lang) in moves[..i];
          assert SessionStory(run[i], moves[..i], x);
        }
      case _ =>
    }
  }

  lemma GotStartedHere(run: seq<State>, moves: seq<Move>, i: nat, c: nat)
    requires Behaviour(run, moves) && Initial(run[0]) && i < |run|
    requires c in run[i].callers && run[i].callers[c].Got?
    ensures run[i].callers[c].session < |run[i].table| && run[i].table[run[i].callers[c].session].watching
  {
    hide Next, Initial, Enabled, Behaviour;
    GotStarted(run, moves, i, c);
  }

  /** Nobody is refused a session that started: returning from the wait gives the session
      exactly when its start succeeded. */
  lemma ReturnGives(run: seq<State>, moves: seq<Move>, i: nat, c: nat)
    requires Behaviour(run, moves) && Initial(run[0]) && i < |moves| && moves[i] == Return(c)
    ensures c in run[i].callers && run[i].callers[c].Waiting? && c in run[i + 1].callers
    ensures var x := run[i].callers[c].session;
            x < |run[i].table|
            && (InitOk(x) in moves[..i] && InitFail(x) !in moves[..i] ==> run[i + 1].callers[c] == Got(x))
            && (InitFail(x) in moves[..i] && InitOk(x) !in moves[..i] ==> run[i + 1].callers[c] == Refused)
            && (InitOk(x) in moves[..i] || InitFail(x) in moves[..i])
  {
    assert Enabled(run[i], moves[i]) && run[i + 1] == Next(run[i], moves[i]);
    var x := run[i].callers[c].session;
    BehaviourInv(run, moves, i);
    StoryOverRun(run, moves, i);
    assert SessionConsistent(run[i].table[x]) && SessionStory(run[i], moves[..i], x);
  }

  // ----- nobody is stuck

  /** A caller inside a start is the one that runs it; one that waits, waits on a session
      whose start is over. */
  ghost predicate Placed(s: State) {
    forall c <- s.callers :: Knows(s, c)
      && (s.callers[c].InStart? ==> s.table[s.callers[c].session].phase == Running(c))
      && (s.callers[c].Waiting? ==> s.table[s.callers[c].session].phase.Over?)
  }

  lemma PlacedStep(s: State, m: Move)
    requires Inv(s) && Placed(s) && Enabled(s, m)
    ensures Placed(Next(s, m))
  {
    TableStep(s, m);
    PhaseStep(s, m);
    assert CallersConsistent(s) && OneLive(s);
    var s' := Next(s, m);
    forall c | c in s'.callers
      ensures Knows(s', c)
      ensures s'.callers[c].InStart? ==> s'.table[s'.callers[c].session].phase == Running(c)
      ensures s'.callers[c].Waiting? ==> s'.table[s'.callers[c].session].phase.Over?
    {
      if c in s.callers { assert Knows(s, c); }
    }
  }

  /** A start that is over stays over, and one that runs ends only by finishing. */
  lemma PhaseStep(s: State, m: Move)
    requires Enabled(s, m)
    ensures forall x :: 0 <= x < |s.table| && x < |Next(s, m).table| ==>
              (s.table[x].phase.Over? ==> Next(s, m).table[x].phase.Over?)
              && (s.table[x].phase.Running? && m != Finish(x) ==> Next(s, m).table[x].phase == s.table[x].phase)
  {
  }

  lemma {:induction false} PlacedOverRun(run: seq<State>, moves: seq<Move>, i: nat)
    requires Behaviour(run, moves) && Initial(run[0]) && i < |run|
    ensures Inv(run[i]) && Placed(run[i])
  {
    BehaviourInv(run, moves, i);
    hide Inv, Next, Enabled;
    if i > 0 {
      PlacedOverRun(run, moves, i - 1);
      assert Enabled(run[i - 1], moves[i - 1]);
      PlacedStep(run[i - 1], moves[i - 1]);
    }
  }

  predicate Answered(c: Caller) { c.Got? || c.Refused? }

  /** Moves a caller is from its answer, at most. */
  function Distance(s: State, c: nat): (d: nat)
    requires c in s.callers && Knows(s, c)
    ensures d == 0 <==> Answered(s.callers[c])
  {
    match s.callers[c]
    case Entering(_) => 6
    case AtOnce(x) =>
      (match s.table[x].phase
       case Idle => 5
       case Running(_) => if s.table[x].watching || s.table[x].failed then 3 else 4
       case Over => 2)
    case InStart(x) => if s.table[x].watching || s.table[x].failed then 3 else 4
    case Waiting(_) => 1
    case _ => 0
  }

  /** The move that brings a caller on; an undecided start is taken to succeed. */
  function MoveOn(s: State, c: nat): Move
    requires c in s.callers && Knows(s, c)
  {
    match s.callers[c]
    case Entering(_) => Lookup(c)
    case AtOnce(x) =>
      (match s.table[x].phase
       case Idle => Begin(c)
       case Running(_) => if s.table[x].watching || s.table[x].failed then Finish(x) else InitOk(x)
       case Over => PassOnce(c))
    case InStart(x) => if s.table[x].watching || s.table[x].failed then Finish(x) else InitOk(x)
    case _ => Return(c)
  }

  lemma MovesOn(s: State, c: nat)
    requires Inv(s) && Placed(s) && c in s.callers && Knows(s, c) && !Answered(s.callers[c])
    ensures Enabled(s, MoveOn(s, c))
    ensures var after := Next(s, MoveOn(s, c));
            c in after.callers && Knows(after, c) && Distance(after, c) < Distance(s, c)
  {
    assert forall x :: 0 <= x < |s.table| ==> SessionConsistent(s.table[x]);
    if s.callers[c].Entering? {
      LookupGives(s, c, s.callers[c].lang);
      hide Inv;
    } else {
      assert Placed(s);
      StartMovesOn(s, c);
      hide Inv, Placed;
    }
  }

  lemma StartMovesOn(s: State, c: nat)
    requires forall x :: 0 <= x < |s.table| ==> SessionConsistent(s.table[x])
    requires c in s.callers && Knows(s, c) && !Answered(s.callers[c]) && !s.callers[c].Entering?
    requires s.callers[c].InStart? ==> s.table[s.callers[c].session].phase == Running(c)
    requires s.callers[c].Waiting? ==> s.table[s.callers[c].session].phase.Over?
    ensures Enabled(s, MoveOn(s, c))
    ensures var after := Next(s, MoveOn(s, c));
            c in after.callers && Knows(after, c) && Distance(after, c) < Distance(s, c)
  {
    assert SessionConsistent(s.table[s.callers[c].session]);
  }

  /** What a run that gives caller `c` its answer looks like. */
  ghost predicate Serves(s: State, run: seq<State>, moves: seq<Move>, c: nat) {
    Behaviour(run, moves) && run[0] == s
    && (forall m <- moves :: !m.GiveUp? && !m.InitFail? && !m.Die?)
    && c in run[|moves|].callers && Answered(run[|moves|].callers[c])
  }

  /** From every reachable state each caller can still get its answer, without giving up and
      without any session failing or dying on the way. */
  lemma {:induction false} CallerNeverStuck(s: State, c: nat) returns (run: seq<State>, moves: seq<Move>)
    requires Inv(s) && Placed(s) && c in s.callers && Knows(s, c)
    ensures Serves(s, run, moves, c)
    decreases Distance(s, c)
  {
    hide Inv, Placed, Serves;
    if Answered(s.callers[c]) {
      run, moves := [s], [];
      assert Serves(s, run, moves, c) by { ServedAlready(s, c); }
    } else {
      var m := MoveOn(s, c);
      MovesOn(s, c);
      StepInv(s, m);
      PlacedStep(s, m);
      assert !m.GiveUp? && !m.InitFail? && !m.Die?;
      hide Next, Enabled, Distance, Answered, MoveOn;
      var rest, steps := CallerNeverStuck(Next(s, m), c);
      run, moves := [s] + rest, [m] + steps;
      ServedAfter(s, m, rest, steps, c);
    }
  }

  lemma ServedAlready(s: State, c: nat)
    requires c in s.callers && Answered(s.callers[c])
    ensures Serves(s, [s], [], c)
  {
  }

  lemma ServedAfter(s: State, m: Move, run: seq<State>, moves: seq<Move>, c: nat)
    requires Enabled(s, m) && !m.GiveUp? && !m.InitFail? && !m.Die? && Serves(Next(s, m), run, moves, c)
    ensures Serves(s, [s] + run, [m] + moves, c)
  {
    hide Enabled, Next, Answered;
    Prepended(s, m, run, moves);
    hide Behaviour;
  }

  lemma {:induction false} Prepended(s: State, m: Move, run: seq<State>, moves: seq<Move>)
    requires Enabled(s, m) && Behaviour(run, moves) && run[0] == Next(s, m)
    ensures Behaviour([s] + run, [m] + moves)
  {
    hide Enabled, Next;
    var whole, all := [s] + run, [m] + moves;
    forall i | 0 <= i < |all| ensures Enabled(whole[i], all[i]) && whole[i + 1] == Next(whole[i], all[i]) {
      if i > 0 { assert whole[i] == run[i - 1] && whole[i + 1] == run[i] && all[i] == moves[i - 1]; }
    }
  }

  /** Giving up ends the wait of the one caller, and changes no session. */
  lemma GivingUpEnds(s: State, c: nat)
    requires Enabled(s, GiveUp(c))
    ensures var after := Next(s, GiveUp(c));
            after.callers[c] == Refused && after.table == s.table && after.current == s.current
            && after.callers.Keys == s.callers.Keys
            && forall d <- s.callers :: d != c ==> after.callers[d] == s.callers[d]
  {
  }

  /** A session is dead from the moment it dies or fails to start, and from no other. */
  lemma DiesExactly(s: State, m: Move, x: nat)
    requires Enabled(s, m) && x < |s.table| && x < |Next(s, m).table| && !s.table[x].dead
    ensures Next(s, m).table[x].dead <==> m == Die(x) || m == InitFail(x)
  {
  }
}
