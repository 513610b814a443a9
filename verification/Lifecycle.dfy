/** Sessions of a manager under every interleaving of callers, starts and deaths. */
module Lifecycle {

  /** The session's `sync.Once` around its start. */
  datatype Phase = Idle | Running(starter: nat) | Over

  /** One session: `watching` once its start has succeeded, `failed` once it has not,
      `ready` once the start has returned, `dead` once its connection is gone. */
  datatype Session = Session(
    lang: string,
    store: nat,
    phase: Phase,
    watching: bool,
    failed: bool,
    ready: bool,
    dead: bool)

  /** A caller of `Manager.session`. */
  datatype Caller =
    | Entering(lang: string)
    | AtOnce(session: nat)
    | InStart(session: nat)
    | Waiting(session: nat)
    | Got(session: nat)
    | Refused

  datatype Publication = Publication(session: nat, uri: string)

  /** `current` is the manager's session map, `table` every session ever made,
      `numbers` the per-document publish numbers of each diagnostics store. */
  datatype State = State(
    current: map<string, nat>,
    table: seq<Session>,
    callers: map<nat, Caller>,
    stores: nat,
    numbers: map<(nat, string), nat>,
    history: seq<Publication>)

  datatype Move =
    | Enter(c: nat, lang: string)
    | Lookup(c: nat)
    | Begin(c: nat)
    | InitOk(s: nat)
    | InitFail(s: nat)
    | Finish(s: nat)
    | PassOnce(c: nat)
    | Return(c: nat)
    | GiveUp(c: nat)
    | Die(s: nat)
    | Publish(s: nat, uri: string)

  function NumberOf(s: State, store: nat, uri: string): nat {
    if (store, uri) in s.numbers then s.numbers[(store, uri)] else 0
  }

  predicate Started(p: Phase) { !p.Idle? }

  predicate Knows(s: State, c: nat) {
    c in s.callers &&
    match s.callers[c]
    case AtOnce(x) => x < |s.table|
    case InStart(x) => x < |s.table|
    case Waiting(x) => x < |s.table|
    case _ => true
  }

  predicate Enabled(s: State, m: Move) {
    match m
    case Enter(c, _) => c !in s.callers
    case Lookup(c) => c in s.callers && s.callers[c].Entering?
    case Begin(c) => Knows(s, c) && s.callers[c].AtOnce? && s.table[s.callers[c].session].phase.Idle?
    case InitOk(x) => x < |s.table| && s.table[x].phase.Running? && !s.table[x].watching && !s.table[x].failed
    case InitFail(x) => x < |s.table| && s.table[x].phase.Running? && !s.table[x].watching && !s.table[x].failed
    case Finish(x) => x < |s.table| && s.table[x].phase.Running? && (s.table[x].watching || s.table[x].failed)
    case PassOnce(c) => Knows(s, c) && s.callers[c].AtOnce? && s.table[s.callers[c].session].phase.Over?
    case Return(c) => Knows(s, c) && s.callers[c].Waiting? && s.table[s.callers[c].session].ready
    case GiveUp(c) => c in s.callers && s.callers[c].Waiting?
    case Die(x) => x < |s.table| && s.table[x].watching && !s.table[x].dead
    case Publish(x, _) => x < |s.table| && Started(s.table[x].phase)
  }

  /** The manager's current session for a language, if it is alive. */
  predicate Alive(current: map<string, nat>, table: seq<Session>, lang: string) {
    lang in current && current[lang] < |table| && !table[current[lang]].dead
  }

  /** A replacement keeps the diagnostics store of the session it replaces. */
  function StoreFor(current: map<string, nat>, table: seq<Session>, stores: nat, lang: string): nat {
    if lang in current && current[lang] < |table| then table[current[lang]].store else stores
  }

  /** The critical section of `Manager.session`: the current session if it is alive, else a
      new one in its place; the new map, table and store counter, and the session. */
  function Looked(current: map<string, nat>, table: seq<Session>, stores: nat, lang: string)
    : (map<string, nat>, seq<Session>, nat, nat)
  {
    if Alive(current, table, lang) then (current, table, stores, current[lang])
    else
      var store := StoreFor(current, table, stores, lang);
      (current[lang := |table|], table + [Session(lang, store, Idle, false, false, false, false)],
       if lang in current && current[lang] < |table| then stores else stores + 1, |table|)
  }

  function Update(s: State, x: nat, session: Session): State
    requires x < |s.table|
  {
    s.(table := s.table[x := session])
  }

  function WithCaller(s: State, c: nat, caller: Caller): State { s.(callers := s.callers[c := caller]) }

  function Next(s: State, m: Move): State
    requires Enabled(s, m)
  {
    match m
    case Enter(c, lang) => WithCaller(s, c, Entering(lang))
    case Lookup(c) =>
      var (current, table, stores, x) := Looked(s.current, s.table, s.stores, s.callers[c].lang);
      WithCaller(s.(current := current, table := table, stores := stores), c, AtOnce(x))
    case Begin(c) =>
      var x := s.callers[c].session;
      WithCaller(Update(s, x, s.table[x].(phase := Running(c))), c, InStart(x))
    case InitOk(x) => Update(s, x, s.table[x].(watching := true))
    case InitFail(x) => Update(s, x, s.table[x].(failed := true, dead := true))
    case Finish(x) =>
      var me := s.table[x];
      WithCaller(Update(s, x, me.(phase := Over, ready := true)), me.phase.starter, Waiting(x))
    case PassOnce(c) => WithCaller(s, c, Waiting(s.callers[c].session))
    case Return(c) =>
      var x := s.callers[c].session;
      WithCaller(s, c, if s.table[x].failed then Refused else Got(x))
    case GiveUp(c) => WithCaller(s, c, Refused)
    case Die(x) => Update(s, x, s.table[x].(dead := true))
    case Publish(x, uri) =>
      var store := s.table[x].store;
      s.(numbers := s.numbers[(store, uri) := NumberOf(s, store, uri) + 1],
         history := s.history + [Publication(x, uri)])
  }

  predicate Initial(s: State) {
    s.current == map[] && s.table == [] && s.callers == map[] && s.numbers == map[] && s.history == []
  }

  ghost predicate Behaviour(run: seq<State>, moves: seq<Move>) {
    |run| == |moves| + 1
    && forall i :: 0 <= i < |moves| ==> Enabled(run[i], moves[i]) && run[i + 1] == Next(run[i], moves[i])
  }

  // ----- invariants

  /** A session that is not dead is the manager's current one for its language. */
  ghost predicate OneLive(s: State) {
    (forall x :: 0 <= x < |s.table| && !s.table[x].dead ==>
       s.table[x].lang in s.current && s.current[s.table[x].lang] == x)
    && (forall lang <- s.current :: s.current[lang] < |s.table| && s.table[s.current[lang]].lang == lang)
    && (forall x :: 0 <= x < |s.table| ==> s.table[x].lang in s.current)
  }

  /** Sessions share a store exactly when they serve the same language. */
  ghost predicate OneStorePerLanguage(s: State) {
    (forall x :: 0 <= x < |s.table| ==> s.table[x].store < s.stores)
    && forall x, y :: 0 <= x < |s.table| && 0 <= y < |s.table| ==>
         (s.table[x].store == s.table[y].store <==> s.table[x].lang == s.table[y].lang)
  }

  predicate SessionConsistent(x: Session) {
    (x.ready <==> x.phase.Over?)
    && (x.failed ==> x.dead && !x.watching)
    && (x.ready ==> x.watching || x.failed)
    && (x.phase.Idle? ==> !x.watching && !x.failed && !x.dead)
    && (x.dead ==> x.watching || x.failed)
  }

  ghost predicate CallersConsistent(s: State) {
    forall c <- s.callers :: Knows(s, c)
      && (s.callers[c].Got? ==>
            var x := s.callers[c].session;
            x < |s.table| && s.table[x].ready && s.table[x].watching && !s.table[x].failed)
  }

  /** Publish numbers count the publications of all sessions of the store. */
  ghost predicate NumbersCount(s: State) {
    (forall i :: 0 <= i < |s.history| ==> s.history[i].session < |s.table|)
    && forall store, uri :: NumberOf(s, store, uri) == CountIn(s.table, s.history, store, uri)
  }

  function CountIn(table: seq<Session>, h: seq<Publication>, store: nat, uri: string): nat {
    if h == [] then 0 else
      var last := h[|h| - 1];
      (if last.session < |table| && table[last.session].store == store && last.uri == uri then 1 else 0)
      + CountIn(table, h[..|h| - 1], store, uri)
  }

  ghost predicate Inv(s: State) {
    OneLive(s) && OneStorePerLanguage(s) && CallersConsistent(s) && NumbersCount(s)
    && forall x :: 0 <= x < |s.table| ==> SessionConsistent(s.table[x])
  }

  /** Every move but a lookup keeps each session's language and store and revives none. */
  lemma TableStep(s: State, m: Move)
    requires Enabled(s, m)
    ensures |s.table| <= |Next(s, m).table|
    ensures forall x :: 0 <= x < |s.table| ==>
              Next(s, m).table[x].lang == s.table[x].lang && Next(s, m).table[x].store == s.table[x].store
              && (s.table[x].dead ==> Next(s, m).table[x].dead)
              && (Started(s.table[x].phase) ==> Started(Next(s, m).table[x].phase))
    ensures !m.Lookup? ==> |Next(s, m).table| == |s.table| && Next(s, m).current == s.current
                           && Next(s, m).stores == s.stores
  {
  }

  lemma OneLiveStep(s: State, m: Move)
    requires Enabled(s, m) && OneLive(s)
    ensures OneLive(Next(s, m))
  {
    TableStep(s, m);
    var s' := Next(s, m);
    if m.Lookup? {
      var lang := s.callers[m.c].lang;
      forall x | 0 <= x < |s'.table| && !s'.table[x].dead
        ensures s'.table[x].lang in s'.current && s'.current[s'.table[x].lang] == x
      {
        if x < |s.table| { assert s'.table[x] == s.table[x]; }
      }
    } else {
      hide Next;
    }
  }

  lemma StoresStep(s: State, m: Move)
    requires Enabled(s, m) && OneLive(s) && OneStorePerLanguage(s)
    ensures OneStorePerLanguage(Next(s, m))
  {
    TableStep(s, m);
    var s' := Next(s, m);
    if m.Lookup? {
      var n := |s.table|;
      if |s'.table| > n {
        forall y | 0 <= y < n
          ensures s'.table[y] == s.table[y]
          ensures s'.table[y].store == s'.table[n].store <==> s'.table[y].lang == s'.table[n].lang
        {
          assert s.table[y].lang in s.current;
        }
      }
    } else {
      hide Next;
    }
  }

  lemma ConsistentStep(s: State, m: Move, x: nat)
    requires Enabled(s, m) && (x < |s.table| ==> SessionConsistent(s.table[x])) && x < |Next(s, m).table|
    ensures SessionConsistent(Next(s, m).table[x])
  {
  }

  lemma CallersStep(s: State, m: Move)
    requires Enabled(s, m) && OneLive(s) && CallersConsistent(s)
    requires forall x :: 0 <= x < |s.table| ==> SessionConsistent(s.table[x])
    ensures CallersConsistent(Next(s, m))
  {
  }

  lemma {:induction false} CountKeeps(a: seq<Session>, b: seq<Session>, h: seq<Publication>, store: nat, uri: string)
    requires |a| <= |b| && forall x :: 0 <= x < |a| ==> b[x].store == a[x].store
    requires forall i :: 0 <= i < |h| ==> h[i].session < |a|
    ensures CountIn(b, h, store, uri) == CountIn(a, h, store, uri)
  {
    if h != [] { CountKeeps(a, b, h[..|h| - 1], store, uri); }
  }

  lemma {:induction false} NumbersStep(s: State, m: Move)
    requires Enabled(s, m) && NumbersCount(s)
    ensures NumbersCount(Next(s, m))
  {
    TableStep(s, m);
    var s' := Next(s, m);
    PublishStep(s, m);
    hide Next, Enabled, Started;
    forall store, uri ensures NumberOf(s', store, uri) == CountIn(s'.table, s'.history, store, uri) {
      CountKeeps(s.table, s'.table, s.history, store, uri);
      if m.Publish? { CountSnoc(s'.table, s.history, Publication(m.s, m.uri), store, uri); }
    }
  }

  /** Only a publication adds to the history, and it alone counts. */
  lemma PublishStep(s: State, m: Move)
    requires Enabled(s, m)
    ensures !m.Publish? ==> Next(s, m).history == s.history && Next(s, m).numbers == s.numbers
    ensures m.Publish? ==>
              m.s < |s.table| && Next(s, m).table == s.table
              && Next(s, m).history == s.history + [Publication(m.s, m.uri)]
              && forall store, uri :: NumberOf(Next(s, m), store, uri)
                   == NumberOf(s, store, uri) + if s.table[m.s].store == store && m.uri == uri then 1 else 0
  {
  }

  lemma CountSnoc(table: seq<Session>, h: seq<Publication>, p: Publication, store: nat, uri: string)
    ensures CountIn(table, h + [p], store, uri)
         == CountIn(table, h, store, uri)
            + if p.session < |table| && table[p.session].store == store && p.uri == uri then 1 else 0
  {
    assert (h + [p])[..|h|] == h;
  }

  lemma StepInv(s: State, m: Move)
    requires Inv(s) && Enabled(s, m)
    ensures Inv(Next(s, m))
  {
    OneLiveStep(s, m);
    StoresStep(s, m);
    CallersStep(s, m);
    NumbersStep(s, m);
    forall x | 0 <= x < |Next(s, m).table| ensures SessionConsistent(Next(s, m).table[x]) {
      ConsistentStep(s, m, x);
    }
    hide Next, Enabled, OneLive, OneStorePerLanguage, CallersConsistent, NumbersCount;
  }

  lemma InitialInv(s: State)
    requires Initial(s)
    ensures Inv(s)
  {
  }

  lemma {:induction false} BehaviourInv(run: seq<State>, moves: seq<Move>, i: nat)
    requires Behaviour(run, moves) && Initial(run[0]) && i < |run|
    ensures Inv(run[i])
  {
    hide Inv, Next, Initial, Enabled;
    if i == 0 {
      InitialInv(run[0]);
    } else {
      BehaviourInv(run, moves, i - 1);
      assert Enabled(run[i - 1], moves[i - 1]);
      StepInv(run[i - 1], moves[i - 1]);
    }
  }

  // ----- what callers and the system can rely on

  /** At most one session per language is not dead, in every reachable state. */
  lemma AtMostOneLive(run: seq<State>, moves: seq<Move>, i: nat, x: nat, y: nat)
    requires Behaviour(run, moves) && Initial(run[0]) && i < |run|
    requires x < |run[i].table| && y < |run[i].table| && run[i].table[x].lang == run[i].table[y].lang
    requires !run[i].table[x].dead && !run[i].table[y].dead
    ensures x == y
  {
    hide Next, Initial, Enabled;
    BehaviourInv(run, moves, i);
    assert OneLive(run[i]);
  }

  /** A caller that returns without error holds a session whose start succeeded. */
  lemma GotStarted(run: seq<State>, moves: seq<Move>, i: nat, c: nat)
    requires Behaviour(run, moves) && Initial(run[0]) && i < |run|
    requires c in run[i].callers && run[i].callers[c].Got?
    ensures var x := run[i].callers[c].session;
            x < |run[i].table| && run[i].table[x].ready && run[i].table[x].watching && !run[i].table[x].failed
  {
    hide Next, Initial, Enabled;
    BehaviourInv(run, moves, i);
    assert CallersConsistent(run[i]);
  }

  /** Starts of sessions for a language. */
  function Starts(run: seq<State>, moves: seq<Move>, lang: string): nat
    requires |run| == |moves| + 1
  {
    if moves == [] then 0 else
      var n := |moves| - 1;
      (if Begins(run[n], moves[n], lang) then 1 else 0) + Starts(run[..n + 1], moves[..n], lang)
  }

  predicate Begins(s: State, m: Move, lang: string) {
    m.Begin? && Enabled(s, m) && s.table[s.callers[m.c].session].lang == lang
  }

  /** Sessions for a language that died, by failing to start or afterwards. */
  function Deaths(run: seq<State>, moves: seq<Move>, lang: string): nat
    requires |run| == |moves| + 1
  {
    if moves == [] then 0 else
      var n := |moves| - 1;
      (if Kills(run[n], moves[n], lang) then 1 else 0) + Deaths(run[..n + 1], moves[..n], lang)
  }

  predicate Kills(s: State, m: Move, lang: string) {
    (m.Die? || m.InitFail?) && Enabled(s, m) && s.table[m.s].lang == lang
  }

  function CountBegun(table: seq<Session>, lang: string): nat {
    if table == [] then 0 else
      var last := table[|table| - 1];
      (if last.lang == lang && Started(last.phase) then 1 else 0) + CountBegun(table[..|table| - 1], lang)
  }

  function CountDead(table: seq<Session>, lang: string): nat {
    if table == [] then 0 else
      var last := table[|table| - 1];
      (if last.lang == lang && last.dead then 1 else 0) + CountDead(table[..|table| - 1], lang)
  }

  lemma {:induction false} CountsAfterUpdate(table: seq<Session>, x: nat, now: Session, lang: string)
    requires x < |table| && now.lang == table[x].lang
    ensures CountBegun(table[x := now], lang) == CountBegun(table, lang)
              + (if now.lang == lang && Started(now.phase) then 1 else 0)
              - (if now.lang == lang && Started(table[x].phase) then 1 else 0)
    ensures CountDead(table[x := now], lang) == CountDead(table, lang)
              + (if now.lang == lang && now.dead then 1 else 0)
              - (if now.lang == lang && table[x].dead then 1 else 0)
  {
    var n := |table| - 1;
    if x == n {
      assert table[x := now][..n] == table[..n];
    } else {
      CountsAfterUpdate(table[..n], x, now, lang);
      assert table[x := now][..n] == table[..n][x := now];
    }
  }

  lemma CountsAfterAppend(table: seq<Session>, added: Session, lang: string)
    requires added.phase.Idle? && !added.dead
    ensures CountBegun(table + [added], lang) == CountBegun(table, lang)
    ensures CountDead(table + [added], lang) == CountDead(table, lang)
  {
    assert (table + [added])[..|table|] == table;
  }

  lemma CountsStep(s: State, m: Move, lang: string)
    requires Inv(s) && Enabled(s, m)
    ensures CountBegun(Next(s, m).table, lang) == CountBegun(s.table, lang) + if Begins(s, m, lang) then 1 else 0
    ensures CountDead(Next(s, m).table, lang) == CountDead(s.table, lang) + if Kills(s, m, lang) then 1 else 0
  {
    assert forall x :: 0 <= x < |s.table| ==> SessionConsistent(s.table[x]);
    hide Inv, OneLive, OneStorePerLanguage, CallersConsistent, NumbersCount, CountBegun, CountDead;
    var t := s.table;
    if m.Lookup? {
      CountsLookup(s, m, lang);
    } else if m.Begin? {
      var x := s.callers[m.c].session;
      CountsAfterUpdate(t, x, t[x].(phase := Running(m.c)), lang);
    } else {
      CountsQuietStep(s, m, lang);
    }
  }

  lemma CountsLookup(s: State, m: Move, lang: string)
    requires Enabled(s, m) && m.Lookup?
    ensures CountBegun(Next(s, m).table, lang) == CountBegun(s.table, lang)
    ensures CountDead(Next(s, m).table, lang) == CountDead(s.table, lang)
  {
    hide CountBegun, CountDead;
    var t, t' := s.table, Next(s, m).table;
    if |t'| > |t| { CountsAfterAppend(t, t'[|t|], lang); }
  }

  lemma CountsQuietStep(s: State, m: Move, lang: string)
    requires Enabled(s, m) && !m.Lookup? && !m.Begin?
    requires forall x :: 0 <= x < |s.table| ==> SessionConsistent(s.table[x])
    ensures CountBegun(Next(s, m).table, lang) == CountBegun(s.table, lang)
    ensures CountDead(Next(s, m).table, lang) == CountDead(s.table, lang) + if Kills(s, m, lang) then 1 else 0
  {
    hide CountBegun, CountDead, Knows;
    var t := s.table;
    match m {
      case InitOk(x) => CountsAfterUpdate(t, x, t[x].(watching := true), lang);
      case InitFail(x) => CountsAfterUpdate(t, x, t[x].(failed := true, dead := true), lang);
      case Finish(x) => CountsAfterUpdate(t, x, t[x].(phase := Over, ready := true), lang);
      case Die(x) => CountsAfterUpdate(t, x, t[x].(dead := true), lang);
      case _ =>
    }
  }

  lemma {:induction false} CountsMatch(run: seq<State>, moves: seq<Move>, lang: string)
    requires Behaviour(run, moves) && Initial(run[0])
    ensures Starts(run, moves, lang) == CountBegun(run[|moves|].table, lang)
    ensures Deaths(run, moves, lang) == CountDead(run[|moves|].table, lang)
    decreases |moves|
  {
    hide Inv, Next, Enabled, Begins, Kills;
    if moves != [] {
      var n := |moves| - 1;
      CountsMatch(run[..n + 1], moves[..n], lang);
      BehaviourInv(run, moves, n);
      assert Enabled(run[n], moves[n]) && run[n + 1] == Next(run[n], moves[n]);
      CountsStep(run[n], moves[n], lang);
    }
  }

  /** Only the last session for a language can be alive, so at most one began undead. */
  lemma {:induction false} BegunBounded(s: State, k: nat, lang: string)
    requires Inv(s) && k <= |s.table|
    ensures CountBegun(s.table[..k], lang)
         <= CountDead(s.table[..k], lang) + if lang in s.current && s.current[lang] < k then 1 else 0
  {
    assert OneLive(s);
    hide OneStorePerLanguage, CallersConsistent, NumbersCount;
    if k > 0 {
      BegunBounded(s, k - 1, lang);
      assert s.table[..k][..k - 1] == s.table[..k - 1];
    }
  }

  /** However callers and deaths interleave, the starts for a language number at most one
      more than the deaths. */
  lemma StartsBounded(run: seq<State>, moves: seq<Move>, lang: string)
    requires Behaviour(run, moves) && Initial(run[0])
    ensures Starts(run, moves, lang) <= 1 + Deaths(run, moves, lang)
  {
    hide Next, Enabled, Initial, Inv;
    CountsMatch(run, moves, lang);
    BehaviourInv(run, moves, |moves|);
    var last := run[|moves|];
    BegunBounded(last, |last.table|, lang);
    assert last.table[..|last.table|] == last.table;
  }

  /** No session is started twice: once begun, it can never begin again. */
  lemma {:induction false} StartedOnce(run: seq<State>, moves: seq<Move>, i: nat, j: nat, x: nat)
    requires Behaviour(run, moves) && i <= j < |run| && x < |run[i].table| && Started(run[i].table[x].phase)
    ensures x < |run[j].table| && Started(run[j].table[x].phase)
    ensures j < |moves| ==> !(moves[j].Begin? && run[j].callers[moves[j].c] == AtOnce(x))
    decreases j - i
  {
    hide Next;
    if i < j {
      StartedOnce(run, moves, i, j - 1, x);
      assert Enabled(run[j - 1], moves[j - 1]);
      TableStep(run[j - 1], moves[j - 1]);
    }
    if j < |moves| { assert Enabled(run[j], moves[j]); }
  }

  // ----- publish numbers across sessions

  lemma {:induction false} TableOverRun(run: seq<State>, moves: seq<Move>, i: nat, j: nat)
    requires Behaviour(run, moves) && i <= j < |run|
    ensures |run[i].table| <= |run[j].table|
    ensures forall x :: 0 <= x < |run[i].table| ==>
              run[j].table[x].lang == run[i].table[x].lang && run[j].table[x].store == run[i].table[x].store
    ensures run[i].history <= run[j].history
    decreases j - i
  {
    hide Next, Enabled;
    if i < j {
      TableOverRun(run, moves, i, j - 1);
      assert Enabled(run[j - 1], moves[j - 1]);
      TableStep(run[j - 1], moves[j - 1]);
      HistoryStep(run[j - 1], moves[j - 1]);
    }
  }

  lemma HistoryStep(s: State, m: Move)
    requires Enabled(s, m)
    ensures s.history <= Next(s, m).history
  {
  }

  lemma {:induction false} CountPrefix(table: seq<Session>, a: seq<Publication>, b: seq<Publication>,
                                       store: nat, uri: string)
    requires a <= b
    ensures CountIn(table, a, store, uri) <= CountIn(table, b, store, uri)
    decreases |b|
  {
    if |a| < |b| {
      CountPrefix(table, a, b[..|b| - 1], store, uri);
    } else {
      assert a == b;
    }
  }

  /** Publish numbers survive respawns: seen through any session of a language, now or
      later, dead or replaced, a document's number counts all publications made so far by
      any session of that language, and never goes down. */
  lemma NumbersSurviveRespawn(run: seq<State>, moves: seq<Move>, i: nat, j: nat, x: nat, y: nat, uri: string)
    requires Behaviour(run, moves) && Initial(run[0]) && i <= j < |run|
    requires x < |run[i].table| && y < |run[j].table| && run[i].table[x].lang == run[j].table[y].lang
    ensures NumberOf(run[i], run[i].table[x].store, uri) <= NumberOf(run[j], run[j].table[y].store, uri)
    ensures NumberOf(run[j], run[j].table[y].store, uri)
         == CountIn(run[j].table, run[j].history, run[j].table[y].store, uri)
    ensures x < |run[j].table| && run[i].table[x].store == run[j].table[y].store
  {
    hide Next, Enabled, Initial, NumberOf, CountIn;
    BehaviourInv(run, moves, i);
    BehaviourInv(run, moves, j);
    TableOverRun(run, moves, i, j);
    assert OneStorePerLanguage(run[j]) && NumbersCount(run[i]) && NumbersCount(run[j]);
    var store := run[j].table[y].store;
    assert run[j].table[x].lang == run[j].table[y].lang;
    CountKeeps(run[i].table, run[j].table, run[i].history, store, uri);
    CountPrefix(run[j].table, run[i].history, run[j].history, store, uri);
  }
}
