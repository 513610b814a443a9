/** Server-initiated edits and the policy window they are allowed in. */
module ApplyPolicy {
  import opened Common
  import opened Paths
  import opened FileTree
  import opened WorkspaceEdits
  import opened ApplyTheorems
  import opened Applier
  import opened Strings
  import Wire

  /** What a window allows: where, and which operations. */
  datatype Grant = Grant(root: string, opts: Options)

  /** `cloneCurrentVersionsMap`: an empty map becomes an absent one. */
  function Cloned(g: Grant): Grant {
    if g.opts.currentVersions == Some(map[]) then g.(opts := g.opts.(currentVersions := None)) else g
  }

  // ----- the client

  datatype Reply = NoParams | Undecodable | Disabled | Answered(result: ApplyResult)

  class Client {
    var policy: Option<Grant>

    constructor ()
      ensures policy == None
    {
      policy := None;
    }

    method SetApplyPolicy(enabled: bool, grant: Grant)
      modifies this
      ensures policy == if enabled then Some(Cloned(grant)) else None
    {
      if !enabled {
        policy := None;
        return;
      }
      policy := Some(grant);
      if grant.opts.currentVersions.Some? && |grant.opts.currentVersions.value| == 0 {
        policy := Some(grant.(opts := grant.opts.(currentVersions := None)));
      }
    }

    /** One `workspace/applyEdit` request, from the wire to the files. */
    method ApplyEdit(fs: FileSystem, cwd: Path, parse: UriParser, rules: Wire.UriRules, edit: Option<Wire.WireEdit>)
      returns (reply: Reply)
      requires Clean(cwd)
      modifies fs
      ensures policy == old(policy)
      ensures edit.None? <==> reply == NoParams
      ensures edit.Some? && !Wire.Receivable(rules, edit.value) <==> reply == Undecodable
      ensures edit.Some? && Wire.Receivable(rules, edit.value) && policy.None? <==> reply == Disabled
      ensures !reply.Answered? ==> fs.tree == old(fs.tree)
      ensures reply.Answered? && TrimSpace(policy.value.root) != "" ==>
                var r := Run(old(fs.tree), Site(Abs(cwd, policy.value.root), cwd, parse),
                             ProgramOf(Wire.FromWire(rules, edit.value)), policy.value.opts);
                fs.tree == r.tree && reply.result == ResultOf(r.failed)
      ensures reply.Answered? && TrimSpace(policy.value.root) == "" ==>
                fs.tree == old(fs.tree) && reply.result == RootRequired
    {
      hide Run, ProgramOf, Wire.Receivable, TrimSpace;
      if edit.None? { return NoParams; }
      var decoded := Wire.FromProtocol(rules, edit.value);
      if decoded.None? { return Undecodable; }
      if policy.None? { return Disabled; }
      var result := ApplyWorkspaceEdit(fs, policy.value.root, cwd, parse, decoded.value, policy.value.opts);
      reply := Answered(result);
    }
  }

  // ----- overlapping windows

  /** A request under way: not yet at the policy, or allowed, with `next` steps of its edit
      made, or answered. */
  datatype Request = Pending(program: seq<Step>) | Granted(program: seq<Step>, next: nat, grant: Grant) | Over

  /** The policy field, the windows open, the edit requests under way, the files. */
  datatype State = State(
    policy: Option<Grant>,
    windows: map<nat, Grant>,
    requests: map<nat, Request>,
    tree: Tree)

  datatype Move =
    | Open(w: nat, grant: Grant)
    | Close(w: nat)
    | Arrive(r: nat, program: seq<Step>)
    | Read(r: nat)
    | Apply(r: nat)

  predicate Enabled(s: State, m: Move) {
    match m
    case Open(w, _) => w !in s.windows
    case Close(w) => w in s.windows
    case Arrive(r, _) => r !in s.requests
    case Read(r) => r in s.requests && s.requests[r].Pending?
    case Apply(r) => r in s.requests && s.requests[r].Granted?
  }

  /** What a whole edit makes of the files under a grant. */
  function Applied(t: Tree, cwd: Path, parse: UriParser, program: seq<Step>, grant: Grant): Tree
    requires Clean(cwd)
  {
    if TrimSpace(grant.root) == "" then t
    else Run(t, Site(Abs(cwd, grant.root), cwd, parse), program, grant.opts).tree
  }

  /** A granted request has another step to make. */
  predicate Going(me: Request) {
    me.Granted? && TrimSpace(me.grant.root) != "" && me.next < |me.program|
  }

  /** That step, on the files as they are now. */
  function StepOf(t: Tree, cwd: Path, parse: UriParser, me: Request): WorkspaceEdits.Applied
    requires Clean(cwd) && Going(me)
  {
    ApplyStep(t, Site(Abs(cwd, me.grant.root), cwd, parse), me.program[me.next], me.grant.opts)
  }

  function Next(cwd: Path, parse: UriParser, s: State, m: Move): State
    requires Clean(cwd) && Enabled(s, m)
  {
    match m
    case Open(w, grant) => s.(policy := Some(Cloned(grant)), windows := s.windows[w := grant])
    case Close(w) => s.(policy := None, windows := s.windows - {w})
    case Arrive(r, program) => s.(requests := s.requests[r := Pending(program)])
    case Read(r) =>
      s.(requests := s.requests[r := match s.policy
                                     case None => Over
                                     case Some(g) => Granted(s.requests[r].program, 0, g)])
    case Apply(r) =>
      var me := s.requests[r];
      if Going(me) then
        var e := StepOf(s.tree, cwd, parse, me);
        s.(tree := e.tree, requests := s.requests[r := if e.error.Some? then Over else me.(next := me.next + 1)])
      else s.(requests := s.requests[r := Over])
  }

  ghost predicate Behaviour(cwd: Path, parse: UriParser, run: seq<State>, moves: seq<Move>)
    requires Clean(cwd)
  {
    |run| == |moves| + 1
    && forall i :: 0 <= i < |moves| ==> Enabled(run[i], moves[i]) && run[i + 1] == Next(cwd, parse, run[i], moves[i])
  }

  predicate Initial(s: State) { s.policy.None? && s.windows == map[] && s.requests == map[] }

  /** The last window to open or close decides the policy; nothing else does. */
  function LastWindowMove(moves: seq<Move>): Option<Move> {
    if moves == [] then None
    else if moves[|moves| - 1].Open? || moves[|moves| - 1].Close? then Some(moves[|moves| - 1])
    else LastWindowMove(moves[..|moves| - 1])
  }

  /** The policy in force is the one of the last window move, if that was an opening; and
      then its window is still open. */
  lemma {:induction false} PolicyIsLastOpened(cwd: Path, parse: UriParser, run: seq<State>, moves: seq<Move>)
    requires Clean(cwd) && Behaviour(cwd, parse, run, moves) && Initial(run[0])
    ensures match LastWindowMove(moves)
            case Some(Open(w, grant)) =>
              w in run[|moves|].windows && run[|moves|].windows[w] == grant
              && run[|moves|].policy == Some(Cloned(grant))
            case _ => run[|moves|].policy == None
    decreases |moves|
  {
    hide StepOf, Going;
    if moves != [] {
      var n := |moves| - 1;
      PolicyIsLastOpened(cwd, parse, run[..n + 1], moves[..n]);
      assert Enabled(run[n], moves[n]) && run[n + 1] == Next(cwd, parse, run[n], moves[n]);
    }
  }

  /** The policy is enabled only while some window is open. */
  lemma EnabledOnlyInside(cwd: Path, parse: UriParser, run: seq<State>, moves: seq<Move>, i: nat)
    requires Clean(cwd) && Behaviour(cwd, parse, run, moves) && Initial(run[0]) && i < |run|
    requires run[i].policy.Some?
    ensures exists w <- run[i].windows :: run[i].policy == Some(Cloned(run[i].windows[w]))
  {
    PolicyIsLastOpened(cwd, parse, run[..i + 1], moves[..i]);
  }

  /** What a window keeps of the options it was opened with: everything, but for a map of
      versions that is empty, which counts as none. */
  lemma WindowKeepsOptions(g: Grant)
    ensures Cloned(g).root == g.root
    ensures Cloned(g).opts.allowCreate == g.opts.allowCreate && Cloned(g).opts.allowRename == g.opts.allowRename
            && Cloned(g).opts.allowDelete == g.opts.allowDelete
    ensures g.opts.currentVersions.Some? && |g.opts.currentVersions.value| == 0 ==>
              Cloned(g).opts.currentVersions == None
    ensures g.opts.currentVersions.None? || |g.opts.currentVersions.value| > 0 ==>
              Cloned(g).opts.currentVersions == g.opts.currentVersions
  {
  }

  /** A request that reads the policy while the window last opened or closed is one still
      open is granted that window's policy, for the edit it arrived with. */
  lemma ReadInsideIsGranted(cwd: Path, parse: UriParser, run: seq<State>, moves: seq<Move>,
                            i: nat, r: nat, w: nat, grant: Grant)
    requires Clean(cwd) && Behaviour(cwd, parse, run, moves) && Initial(run[0]) && i < |moves|
    requires moves[i] == Read(r) && LastWindowMove(moves[..i]) == Some(Open(w, grant))
    ensures r in run[i + 1].requests && run[i + 1].requests[r].Granted?
    ensures var me := run[i + 1].requests[r];
            me.next == 0 && me.grant == Cloned(grant) && Arrive(r, me.program) in moves[..i]
  {
    hide StepOf, Going;
    assert Enabled(run[i], moves[i]) && run[i + 1] == Next(cwd, parse, run[i], moves[i]);
    PolicyIsLastOpened(cwd, parse, run[..i + 1], moves[..i]);
    ArrivedWith(cwd, parse, run, moves, i, r);
  }

  /** A pending request carries the edit it arrived with. */
  lemma {:induction false} ArrivedWith(cwd: Path, parse: UriParser, run: seq<State>, moves: seq<Move>, i: nat, r: nat)
    requires Clean(cwd) && Behaviour(cwd, parse, run, moves) && Initial(run[0]) && i < |run|
    requires r in run[i].requests && run[i].requests[r].Pending?
    ensures Arrive(r, run[i].requests[r].program) in moves[..i]
    decreases i
  {
    hide StepOf, Going;
    assert i > 0;
    var s, m := run[i - 1], moves[i - 1];
    assert Enabled(s, m) && run[i] == Next(cwd, parse, s, m);
    assert moves[..i] == moves[..i - 1] + [m];
    if m != Arrive(r, run[i].requests[r].program) { ArrivedWith(cwd, parse, run, moves, i - 1, r); }
  }

  /** The converse fails: closing one of two overlapping windows disables the other. */
  lemma OverlapDisables(cwd: Path, parse: UriParser, s: State, a: nat, b: nat, ga: Grant, gb: Grant)
    requires Clean(cwd) && a != b && a !in s.windows && b !in s.windows
    ensures var s1 := Next(cwd, parse, s, Open(a, ga));
            Enabled(s1, Open(b, gb)) && var s2 := Next(cwd, parse, s1, Open(b, gb));
            Enabled(s2, Close(a)) && var s3 := Next(cwd, parse, s2, Close(a));
            b in s3.windows && s3.policy == None
  {
  }

  // ----- what requests can change

  /** A request that reads the policy outside every window is over at once, whatever other
      requests and windows do: it never gets to apply its edit. */
  lemma {:induction false} OutsideReadIsOver(cwd: Path, parse: UriParser, run: seq<State>, moves: seq<Move>,
                                             i: nat, j: nat, r: nat)
    requires Clean(cwd) && Behaviour(cwd, parse, run, moves) && Initial(run[0]) && i < j < |run|
    requires moves[i] == Read(r) && run[i].windows == map[]
    ensures r in run[j].requests && run[j].requests[r].Over?
    ensures j < |moves| ==> moves[j] != Apply(r)
    decreases j
  {
    hide StepOf, Going;
    assert Enabled(run[j - 1], moves[j - 1]) && run[j] == Next(cwd, parse, run[j - 1], moves[j - 1]);
    if i < j - 1 {
      OutsideReadIsOver(cwd, parse, run, moves, i, j - 1, r);
    } else if run[i].policy.Some? {
      EnabledOnlyInside(cwd, parse, run, moves, i);
    }
    assert j < |moves| ==> Enabled(run[j], moves[j]);
  }

  /** Request `r` read the policy at move `i`, with `grant` then in force and some window
      of that grant open. */
  ghost predicate ReadInside(s: State, m: Move, r: nat, program: seq<Step>, grant: Grant) {
    m == Read(r) && r in s.requests && s.requests[r] == Pending(program) && s.policy == Some(grant)
    && exists w <- s.windows :: grant == Cloned(s.windows[w])
  }

  /** Whoever holds a grant read it inside a window. */
  lemma {:induction false} GrantWasReadInside(cwd: Path, parse: UriParser, run: seq<State>, moves: seq<Move>,
                                              j: nat, r: nat) returns (i: nat)
    requires Clean(cwd) && Behaviour(cwd, parse, run, moves) && Initial(run[0]) && j < |run|
    requires r in run[j].requests && run[j].requests[r].Granted?
    ensures i < j
    ensures ReadInside(run[i], moves[i], r, run[j].requests[r].program, run[j].requests[r].grant)
    decreases j
  {
    hide StepOf, Going;
    var k := j - 1;
    assert Enabled(run[k], moves[k]) && run[j] == Next(cwd, parse, run[k], moves[k]);
    if r in run[k].requests && run[k].requests[r].Granted? {
      i := GrantWasReadInside(cwd, parse, run, moves, k, r);
    } else {
      i := k;
      EnabledOnlyInside(cwd, parse, run, moves, k);
    }
  }

  /** Every change of the files is one step of one request's own edit, made under the grant
      that the same request read inside an open window. */
  lemma ChangeWasReadInside(cwd: Path, parse: UriParser, run: seq<State>, moves: seq<Move>, j: nat) returns (i: nat)
    requires Clean(cwd) && Behaviour(cwd, parse, run, moves) && Initial(run[0]) && j < |moves|
    requires run[j + 1].tree != run[j].tree
    ensures i < j && moves[j].Apply? && moves[j].r in run[j].requests
    ensures var r := moves[j].r; var me := run[j].requests[r];
            Going(me) && ReadInside(run[i], moves[i], r, me.program, me.grant)
            && run[j + 1].tree
               == ApplyStep(run[j].tree, Site(Abs(cwd, me.grant.root), cwd, parse),
                            me.program[me.next], me.grant.opts).tree
  {
    hide ApplyStep, TrimSpace;
    assert Enabled(run[j], moves[j]) && run[j + 1] == Next(cwd, parse, run[j], moves[j]);
    i := GrantWasReadInside(cwd, parse, run, moves, j, moves[j].r);
  }

  /** How far a request has got since its grant: its steps so far made `tree` of `before`,
      or it is over and the whole edit did. */
  ghost predicate Progress(cwd: Path, parse: UriParser, before: Tree, program: seq<Step>, grant: Grant,
                           me: Request, tree: Tree)
    requires Clean(cwd)
  {
    match me
    case Pending(_) => false
    case Over => tree == Applied(before, cwd, parse, program, grant)
    case Granted(p, k, g) =>
      p == program && g == grant && k <= |program|
      && if TrimSpace(grant.root) == "" then tree == before
         else Run(before, Site(Abs(cwd, grant.root), cwd, parse), program[..k], grant.opts) == Outcome(tree, None)
  }

  lemma ProgressStep(cwd: Path, parse: UriParser, before: Tree, program: seq<Step>, grant: Grant,
                     s: State, r: nat)
    requires Clean(cwd) && Enabled(s, Apply(r)) && Progress(cwd, parse, before, program, grant, s.requests[r], s.tree)
    ensures var after := Next(cwd, parse, s, Apply(r));
            r in after.requests && Progress(cwd, parse, before, program, grant, after.requests[r], after.tree)
  {
    hide ApplyStep, TrimSpace, Run;
    var me, k := s.requests[r], s.requests[r].next;
    var site := Site(Abs(cwd, grant.root), cwd, parse);
    if Going(me) {
      RunPrefixStep(before, site, program, grant.opts, k);
      if StepOf(s.tree, cwd, parse, me).error.Some? { RunStopped(before, site, program, grant.opts, k + 1); }
    } else {
      assert program[..|program|] == program;
    }
  }

  /** A request whose edit no other request's steps come between does exactly what the
      interpreter does with that edit, however windows open and close meanwhile. */
  lemma {:induction false} AloneAppliesWhole(cwd: Path, parse: UriParser, run: seq<State>, moves: seq<Move>,
                                             r: nat, program: seq<Step>, grant: Grant)
    requires Clean(cwd) && Behaviour(cwd, parse, run, moves)
    requires r in run[0].requests && run[0].requests[r] == Granted(program, 0, grant)
    requires forall m <- moves :: m.Apply? ==> m.r == r
    ensures r in run[|moves|].requests
    ensures Progress(cwd, parse, run[0].tree, program, grant, run[|moves|].requests[r], run[|moves|].tree)
    decreases |moves|
  {
    hide ApplyStep, TrimSpace, Progress;
    if moves == [] {
      NothingDone(cwd, parse, run[0].tree, program, grant);
    } else {
      var n := |moves| - 1;
      assert moves[n] in moves;
      assert forall m <- moves[..n] :: m in moves;
      AloneAppliesWhole(cwd, parse, run[..n + 1], moves[..n], r, program, grant);
      assert Enabled(run[n], moves[n]) && run[n + 1] == Next(cwd, parse, run[n], moves[n]);
      if moves[n] == Apply(r) {
        ProgressStep(cwd, parse, run[0].tree, program, grant, run[n], r);
      } else {
        NotPending(cwd, parse, run[0].tree, program, grant, run[n].requests[r], run[n].tree);
        OthersLeaveIt(cwd, parse, run[n], moves[n], r);
      }
    }
  }

  function CountApplies(moves: seq<Move>, r: nat): nat {
    if moves == [] then 0 else
      (if moves[|moves| - 1] == Apply(r) then 1 else 0) + CountApplies(moves[..|moves| - 1], r)
  }

  /** Each of a request's moves makes one step: while it goes on it has made as many steps as
      moves, so it is over after at most one move more than its edit has steps. */
  lemma {:induction false} OneStepAtATime(cwd: Path, parse: UriParser, run: seq<State>, moves: seq<Move>, r: nat)
    requires Clean(cwd) && Behaviour(cwd, parse, run, moves)
    requires r in run[0].requests && run[0].requests[r].Granted? && run[0].requests[r].next == 0
    ensures r in run[|moves|].requests && !run[|moves|].requests[r].Pending?
    ensures var me := run[|moves|].requests[r];
            me.Granted? ==> me.program == run[0].requests[r].program
                            && me.next == CountApplies(moves, r) <= |me.program|
    decreases |moves|
  {
    hide StepOf;
    if moves != [] {
      var n := |moves| - 1;
      OneStepAtATime(cwd, parse, run[..n + 1], moves[..n], r);
      assert Enabled(run[n], moves[n]) && run[n + 1] == Next(cwd, parse, run[n], moves[n]);
    }
  }

  lemma NotPending(cwd: Path, parse: UriParser, before: Tree, program: seq<Step>, grant: Grant, me: Request, tree: Tree)
    requires Clean(cwd) && Progress(cwd, parse, before, program, grant, me, tree)
    ensures !me.Pending?
  {
  }

  lemma NothingDone(cwd: Path, parse: UriParser, t: Tree, program: seq<Step>, grant: Grant)
    requires Clean(cwd)
    ensures Progress(cwd, parse, t, program, grant, Granted(program, 0, grant), t)
  {
    assert program[..0] == [];
  }

  lemma OthersLeaveIt(cwd: Path, parse: UriParser, s: State, m: Move, r: nat)
    requires Clean(cwd) && Enabled(s, m) && r in s.requests && !s.requests[r].Pending? && !m.Apply?
    ensures var after := Next(cwd, parse, s, m);
            r in after.requests && after.requests[r] == s.requests[r] && after.tree == s.tree
  {
  }

  /** So if every read finds no window open, the files never change. */
  lemma {:induction false} OutsideNothingChanges(cwd: Path, parse: UriParser, run: seq<State>, moves: seq<Move>)
    requires Clean(cwd) && Behaviour(cwd, parse, run, moves) && Initial(run[0])
    requires forall i :: 0 <= i < |moves| && moves[i].Read? ==> run[i].windows == map[]
    ensures run[|moves|].tree == run[0].tree
    ensures forall r <- run[|moves|].requests :: !run[|moves|].requests[r].Granted?
    decreases |moves|
  {
    hide Initial;
    if moves != [] {
      var n := |moves| - 1;
      OutsideNothingChanges(cwd, parse, run[..n + 1], moves[..n]);
      if run[n + 1].tree != run[n].tree {
        var i := ChangeWasReadInside(cwd, parse, run, moves, n);
      }
    }
    forall r | r in run[|moves|].requests ensures !run[|moves|].requests[r].Granted? {
      if run[|moves|].requests[r].Granted? {
        var i := GrantWasReadInside(cwd, parse, run, moves, |moves|, r);
      }
    }
  }

  ghost predicate TextOnlyState(s: State) {
    ValidTree(s.tree)
    && (s.policy.Some? ==> TextOnly(s.policy.value.opts))
    && forall r <- s.requests :: s.requests[r].Granted? ==> TextOnly(s.requests[r].grant.opts)
  }

  lemma StepKeepsShape(t: Tree, cwd: Path, parse: UriParser, me: Request)
    requires Clean(cwd) && ValidTree(t) && Going(me) && TextOnly(me.grant.opts)
    ensures SameShape(t, StepOf(t, cwd, parse, me).tree) && ValidTree(StepOf(t, cwd, parse, me).tree)
  {
    hide ApplyStep, TrimSpace, ValidTree;
    var site, step := Site(Abs(cwd, me.grant.root), cwd, parse), me.program[me.next];
    StepKeepsValid(t, site, step, me.grant.opts);
    TextOnlyKeepsShape(t, site, [step], me.grant.opts);
    assert [step][..0] == [];
    assert Run(t, site, [step][..0], me.grant.opts) == Outcome(t, None);
    assert Run(t, site, [step], me.grant.opts).tree == ApplyStep(t, site, step, me.grant.opts).tree;
  }

  /** When every window allows text edits only, as those of `Execute` do, no interleaving
      of windows and requests creates, moves or deletes anything. */
  lemma {:induction false} TextWindowsKeepShape(cwd: Path, parse: UriParser, run: seq<State>, moves: seq<Move>)
    requires Clean(cwd) && Behaviour(cwd, parse, run, moves) && Initial(run[0]) && ValidTree(run[0].tree)
    requires forall i :: 0 <= i < |moves| && moves[i].Open? ==> TextOnly(moves[i].grant.opts)
    ensures SameShape(run[0].tree, run[|moves|].tree) && TextOnlyState(run[|moves|])
    decreases |moves|
  {
    hide StepOf, Going, ValidTree;
    if moves != [] {
      var n := |moves| - 1;
      TextWindowsKeepShape(cwd, parse, run[..n + 1], moves[..n]);
      assert Enabled(run[n], moves[n]) && run[n + 1] == Next(cwd, parse, run[n], moves[n]);
      if moves[n].Apply? && Going(run[n].requests[moves[n].r]) {
        StepKeepsShape(run[n].tree, cwd, parse, run[n].requests[moves[n].r]);
      }
    }
  }
}
