/** The store: one root, a mutex for writers, and a shared mutex around the root itself. Any
    number of threads run `write`, `transact` and `read`, in any interleaving of their steps. */
module Store {
  import opened Tree
  import opened Wrappers

  datatype Condition = Condition(path: Path, holds: Option<Node> -> bool)

  datatype Call = Write(ops: seq<Action>) | Transact(pre: seq<Condition>, ops: seq<Action>) | Read

  /** Where a thread is inside its call. `since` is the version that was the newest when the call
      began, `version` the one at which the call took effect; both are kept for the statements only. */
  datatype Local =
    | Idle
    | Called(call: Call, since: nat)
    | Locked(call: Call, since: nat)
    | Prepared(call: Call, since: nat, next: Node)
    | Swapping(call: Call, since: nat, next: Node)
    | Torn(call: Call, since: nat, next: Node)
    | Swapped(call: Call, since: nat, version: nat, next: Node)
    | Unlocking(call: Call, since: nat, version: nat, result: Option<Node>)
    | Reading(since: nat)
    | Loaded(since: nat, version: nat, value: Node)

  /** A call that has returned, with what it returned. */
  datatype Return = Return(call: Call, since: nat, version: nat, result: Option<Node>)

  /** A root that was committed, by which call. */
  datatype Commit = Commit(call: Call, root: Node)

  /** `root` is missing while a writer overwrites it. The history and the calls that have returned
      to each thread are kept for the statements only. */
  datatype State = State(
    root: Option<Node>,
    modifyMutex: Option<nat>,
    rootMutex: Option<nat>,
    readers: set<nat>,
    threads: seq<Local>,
    history: seq<Commit>,
    finished: seq<seq<Return>>)

  datatype Kind =
    | Begin(call: Call) | LockModify | Decide | LockRoot | BeginAssign | EndAssign | UnlockRoot | UnlockModify
    | LockShared | Load | UnlockShared

  datatype Step = Step(thread: nat, kind: Kind)

  // ---------------------------------------------------------------- calls

  /** fold of the preconditions with logical_and. */
  function Fold(root: Node, pre: seq<Condition>, i: bool): bool
    decreases |pre|
  {
    if pre == [] then i else Fold(root, pre[1..], i && pre[0].holds(Get(Some(root), pre[0].path)))
  }

  /** The fold is true exactly if every precondition holds of what the tree has at its path. */
  lemma {:induction false} FoldIsAll(root: Node, pre: seq<Condition>, i: bool)
    ensures Fold(root, pre, i) <==> i && forall k :: 0 <= k < |pre| ==> pre[k].holds(Get(Some(root), pre[k].path))
    decreases |pre|
  {
    hide Get;
    if pre != [] {
      FoldIsAll(root, pre[1..], i && pre[0].holds(Get(Some(root), pre[0].path)));
      assert forall k :: 0 <= k < |pre| ==> pre[k] == if k == 0 then pre[0] else pre[1..][k - 1];
      assert forall k :: 0 <= k < |pre| - 1 ==> pre[1..][k] == pre[k + 1];
    }
  }

  function Allowed(call: Call, root: Node): bool {
    call.Transact? ==> Fold(root, call.pre, true)
  }

  /** What a writing call makes of the root. */
  function Outcome(call: Call, root: Node): Node
    requires !call.Read?
  {
    ApplyAll(root, Updates(root, call.ops))
  }

  // ---------------------------------------------------------------- steps

  predicate Enabled(s: State, step: Step) {
    && step.thread < |s.threads| == |s.finished|
    && var l := s.threads[step.thread];
       match step.kind
       case Begin(_) => l.Idle?
       case LockModify => l.Called? && !l.call.Read? && s.modifyMutex == None
       case Decide => l.Locked? && !l.call.Read? && s.root.Some?
       case LockRoot => l.Prepared? && s.rootMutex == None && s.readers == {}
       case BeginAssign => l.Swapping?
       case EndAssign => l.Torn?
       case UnlockRoot => l.Swapped?
       case UnlockModify => l.Unlocking?
       case LockShared => l.Called? && l.call.Read? && s.rootMutex == None
       case Load => l.Reading? && s.root.Some?
       case UnlockShared => l.Loaded?
  }

  function Newest(s: State): nat {
    if s.history == [] then 0 else |s.history| - 1
  }

  /** The call of thread `t` returns. */
  function Finish(s: State, t: nat, r: Return): State
    requires t < |s.threads| == |s.finished|
  {
    s.(threads := s.threads[t := Idle], finished := s.finished[t := s.finished[t] + [r]])
  }

  function After(s: State, step: Step): (r: State)
    requires Enabled(s, step)
    ensures |r.threads| == |s.threads| && |r.finished| == |s.finished|
  {
    var t, l := step.thread, s.threads[step.thread];
    match step.kind
    case Begin(call) => s.(threads := s.threads[t := Called(call, Newest(s))])
    case LockModify => s.(modifyMutex := Some(t), threads := s.threads[t := Locked(l.call, l.since)])
    case Decide =>
      if Allowed(l.call, s.root.value)
      then s.(threads := s.threads[t := Prepared(l.call, l.since, Outcome(l.call, s.root.value))])
      else s.(threads := s.threads[t := Unlocking(l.call, l.since, Newest(s), None)])
    case LockRoot => s.(rootMutex := Some(t), threads := s.threads[t := Swapping(l.call, l.since, l.next)])
    case BeginAssign => s.(root := None, threads := s.threads[t := Torn(l.call, l.since, l.next)])
    case EndAssign =>
      s.(root := Some(l.next), history := s.history + [Commit(l.call, l.next)],
         threads := s.threads[t := Swapped(l.call, l.since, |s.history|, l.next)])
    case UnlockRoot => s.(rootMutex := None,
        threads := s.threads[t := Unlocking(l.call, l.since, l.version, Some(l.next))])
    case UnlockModify => Finish(s.(modifyMutex := None), t, Return(l.call, l.since, l.version, l.result))
    case LockShared => s.(readers := s.readers + {t}, threads := s.threads[t := Reading(l.since)])
    case Load => s.(threads := s.threads[t := Loaded(l.since, Newest(s), s.root.value)])
    case UnlockShared => Finish(s.(readers := s.readers - {t}), t, Return(Read, l.since, l.version, Some(l.value)))
  }

  function Initial(root: Node, n: nat): State {
    State(Some(root), None, None, {}, seq(n, i => Idle), [Commit(Write([]), root)], seq(n, i => []))
  }

  predicate Possible(s: State, run: seq<Step>)
    decreases |run|
  {
    run == [] || (Enabled(s, run[0]) && Possible(After(s, run[0]), run[1..]))
  }

  function Run(s: State, run: seq<Step>): State
    requires Possible(s, run)
    decreases |run|
  {
    if run == [] then s else Run(After(s, run[0]), run[1..])
  }

  // ---------------------------------------------------------------- the invariant

  predicate HoldsModify(l: Local) {
    l.Locked? || l.Prepared? || l.Swapping? || l.Torn? || l.Swapped? || l.Unlocking?
  }

  predicate HoldsRoot(l: Local) {
    l.Swapping? || l.Torn? || l.Swapped?
  }

  predicate HoldsShared(l: Local) {
    l.Reading? || l.Loaded?
  }

  /** Each lock is held by exactly the threads that are between locking and unlocking it. */
  ghost predicate Locks(s: State) {
    && |s.threads| == |s.finished|
    && (forall t: nat :: t < |s.threads| ==> (HoldsModify(s.threads[t]) <==> s.modifyMutex == Some(t)))
    && (forall t: nat :: t < |s.threads| ==> (HoldsRoot(s.threads[t]) <==> s.rootMutex == Some(t)))
    && (forall t: nat :: t < |s.threads| ==> (HoldsShared(s.threads[t]) <==> t in s.readers))
    && (s.rootMutex.Some? ==> s.readers == {} && s.rootMutex.value < |s.threads|)
    && (s.modifyMutex.Some? ==> s.modifyMutex.value < |s.threads|)
    && (forall t :: t in s.readers ==> t < |s.threads|)
  }

  function Last(s: State): Node
    requires s.history != []
  {
    s.history[|s.history| - 1].root
  }

  /** What a writer holds ready was made from the root it will replace. */
  ghost predicate Fresh(s: State, l: Local)
    requires s.history != []
  {
    && ((l.Locked? || l.Prepared? || l.Swapping? || l.Torn?) ==> !l.call.Read?)
    && ((l.Prepared? || l.Swapping? || l.Torn?) ==> Allowed(l.call, Last(s)) && l.next == Outcome(l.call, Last(s)))
    && (l.Swapped? ==> l.next == Last(s))
  }

  ghost predicate Roots(s: State) {
    && s.history != []
    && (forall t: nat :: t < |s.threads| ==> Fresh(s, s.threads[t]))
    && (s.root == None <==> s.rootMutex.Some? && s.rootMutex.value < |s.threads| && s.threads[s.rootMutex.value].Torn?)
    && (s.root.Some? ==> s.root.value == Last(s))
  }

  /** No update is lost: every root is its immediate predecessor transformed, and a transaction
      had its preconditions there. */
  ghost predicate Chain(h: seq<Commit>) {
    forall i :: 0 < i < |h| ==>
      && !h[i].call.Read?
      && Allowed(h[i].call, h[i - 1].root)
      && h[i].root == Outcome(h[i].call, h[i - 1].root)
  }

  /** What a call returned fits the chain: a read the root of its version, a write or a transaction
      the root it committed there, and a refused transaction nothing, because a precondition was
      false in the root of its version. The call took effect no earlier than it began. */
  ghost predicate Explained(h: seq<Commit>, r: Return) {
    && r.since <= r.version < |h|
    && (if r.call.Read? then r.result == Some(h[r.version].root)
        else if r.result.Some? then r.since < r.version && h[r.version] == Commit(r.call, r.result.value)
        else r.call.Transact? && !Allowed(r.call, h[r.version].root))
  }

  /** The call under way took effect, if it did, as `Explained` has it. */
  ghost predicate UnderWay(h: seq<Commit>, l: Local) {
    && (!l.Idle? ==> l.since < |h|)
    && (l.Swapped? ==> l.since < l.version < |h| && h[l.version] == Commit(l.call, l.next))
    && (l.Unlocking? ==> Explained(h, Return(l.call, l.since, l.version, l.result)))
    && (l.Loaded? ==> Explained(h, Return(Read, l.since, l.version, Some(l.value))))
    && ((l.Locked? || l.Prepared? || l.Swapping? || l.Torn? || l.Swapped? || l.Unlocking?) ==> !l.call.Read?)
  }

  /** Each call of a thread begins at or behind the version at which the one before took effect. */
  ghost predicate InOrder(rs: seq<Return>, l: Local) {
    && (forall i: nat, j: nat :: i < j < |rs| ==> rs[i].version <= rs[j].since)
    && (!l.Idle? ==> forall i: nat :: i < |rs| ==> rs[i].version <= l.since)
  }

  ghost predicate Accounted(h: seq<Commit>, rs: seq<Return>, l: Local) {
    && (forall i: nat :: i < |rs| ==> Explained(h, rs[i]))
    && UnderWay(h, l) && InOrder(rs, l)
  }

  ghost predicate AllAccounted(s: State) {
    && |s.finished| == |s.threads| && s.history != []
    && forall t: nat :: t < |s.threads| ==> Accounted(s.history, s.finished[t], s.threads[t])
  }

  ghost predicate Inv(s: State) {
    Locks(s) && Roots(s) && Chain(s.history) && AllAccounted(s)
  }

  lemma InitialInv(root: Node, n: nat)
    ensures Inv(Initial(root, n))
  {
  }

  lemma LocksKept(s: State, step: Step)
    requires Locks(s) && Enabled(s, step)
    ensures Locks(After(s, step))
  {
    hide Allowed, Outcome;
    var r, t := After(s, step), step.thread;
    var before, after := s.threads[t], r.threads[t];
    assert r.threads == s.threads[t := after];
    assert HoldsModify(before) <==> s.modifyMutex == Some(t);
    assert HoldsRoot(before) <==> s.rootMutex == Some(t);
    assert HoldsShared(before) <==> t in s.readers;
  }

  /** Only the holder of the writers' mutex can be about to change the root. */
  lemma OneWriter(s: State, t: nat, u: nat)
    requires Locks(s) && t < |s.threads| && u < |s.threads| && HoldsModify(s.threads[t]) && HoldsModify(s.threads[u])
    ensures t == u
  {
  }

  lemma RootsKept(s: State, step: Step)
    requires Locks(s) && Roots(s) && Enabled(s, step)
    ensures Roots(After(s, step))
  {
    hide Allowed, Outcome;
    var r := After(s, step);
    forall t: nat | t < |r.threads| ensures Fresh(r, r.threads[t]) {
      assert Fresh(s, s.threads[t]);
      if HoldsModify(s.threads[t]) && HoldsModify(s.threads[step.thread]) { OneWriter(s, t, step.thread); }
    }
  }

  lemma ChainKept(s: State, step: Step)
    requires Roots(s) && Chain(s.history) && Enabled(s, step)
    ensures Chain(After(s, step).history)
  {
    hide Allowed, Outcome;
    assert Fresh(s, s.threads[step.thread]);
  }

  lemma ReturnsKept(s: State, step: Step)
    requires Locks(s) && Roots(s) && AllAccounted(s) && Enabled(s, step)
    ensures AllAccounted(After(s, step))
  {
    hide Allowed, Outcome, Accounted, Fresh;
    var r := After(s, step);
    forall t: nat | t < |r.threads| ensures Accounted(r.history, r.finished[t], r.threads[t]) {
      assert Accounted(s.history, s.finished[t], s.threads[t]);
      if t == step.thread {
        OwnStep(s, step);
      } else if step.kind.EndAssign? {
        HistoryLonger(s.history, r.history[|r.history| - 1], s.finished[t], s.threads[t]);
      }
    }
  }

  lemma HistoryLonger(h: seq<Commit>, c: Commit, rs: seq<Return>, l: Local)
    requires Accounted(h, rs, l)
    ensures Accounted(h + [c], rs, l)
  {
    hide Allowed;
    forall i: nat | i < |rs| ensures Explained(h + [c], rs[i]) {
      assert Explained(h, rs[i]);
    }
  }

  lemma OnlyTransactions(call: Call, root: Node)
    ensures Allowed(call, root) || call.Transact?
  {
    hide Fold;
  }

  lemma OwnOrder(s: State, step: Step)
    requires Enabled(s, step) && s.history != []
    requires Accounted(s.history, s.finished[step.thread], s.threads[step.thread])
    ensures var r := After(s, step); InOrder(r.finished[step.thread], r.threads[step.thread])
  {
    hide Allowed, Outcome;
  }

  lemma OwnReturns(s: State, step: Step)
    requires Enabled(s, step) && s.history != []
    requires Accounted(s.history, s.finished[step.thread], s.threads[step.thread])
    ensures var r := After(s, step);
      forall i: nat :: i < |r.finished[step.thread]| ==> Explained(r.history, r.finished[step.thread][i])
  {
    hide Allowed, Outcome, InOrder;
    if step.kind.EndAssign? {
      var t, l := step.thread, s.threads[step.thread];
      forall i: nat | i < |s.finished[t]| ensures Explained(s.history + [Commit(l.call, l.next)], s.finished[t][i]) {
        assert Explained(s.history, s.finished[t][i]);
      }
    }
  }

  lemma OwnStep(s: State, step: Step)
    requires Roots(s) && Enabled(s, step) && s.history != []
    requires Accounted(s.history, s.finished[step.thread], s.threads[step.thread])
    ensures var r := After(s, step); Accounted(r.history, r.finished[step.thread], r.threads[step.thread])
  {
    hide Allowed, Outcome, InOrder;
    var t, l := step.thread, s.threads[step.thread];
    assert Fresh(s, l);
    if step.kind.Decide? { OnlyTransactions(l.call, s.root.value); }
    OwnOrder(s, step);
    OwnReturns(s, step);
  }

  lemma InvKept(s: State, step: Step)
    requires Inv(s) && Enabled(s, step)
    ensures Inv(After(s, step))
  {
    hide Locks, Roots, Chain, AllAccounted, After, Enabled;
    LocksKept(s, step);
    RootsKept(s, step);
    ChainKept(s, step);
    ReturnsKept(s, step);
  }

  /** Every state any interleaving can reach keeps the invariant. */
  lemma {:induction false} RunInv(s: State, run: seq<Step>)
    requires Inv(s) && Possible(s, run)
    ensures Inv(Run(s, run))
    decreases |run|
  {
    hide Inv, After, Enabled;
    if run != [] {
      InvKept(s, run[0]);
      RunInv(After(s, run[0]), run[1..]);
    }
  }

  // ---------------------------------------------------------------- what runs guarantee

  lemma {:induction false} HistoryGrows(s: State, run: seq<Step>)
    requires Possible(s, run)
    ensures |s.history| <= |Run(s, run).history| && Run(s, run).history[..|s.history|] == s.history
    ensures |Run(s, run).finished| == |s.finished|
    ensures forall t: nat :: t < |s.finished| ==>
      |s.finished[t]| <= |Run(s, run).finished[t]| && Run(s, run).finished[t][..|s.finished[t]|] == s.finished[t]
    decreases |run|
  {
    hide Enabled, Allowed, Outcome;
    if run != [] {
      var m := After(s, run[0]);
      StepGrows(s, run[0]);
      HistoryGrows(m, run[1..]);
      var r := Run(m, run[1..]);
      assert r.history[..|s.history|] == r.history[..|m.history|][..|s.history|];
      forall t: nat | t < |s.finished|
        ensures |s.finished[t]| <= |r.finished[t]| && r.finished[t][..|s.finished[t]|] == s.finished[t]
      {
        assert r.finished[t][..|s.finished[t]|] == r.finished[t][..|m.finished[t]|][..|s.finished[t]|];
      }
    }
  }

  lemma StepGrows(s: State, step: Step)
    requires Enabled(s, step)
    ensures var r := After(s, step);
      && |s.history| <= |r.history| && r.history[..|s.history|] == s.history
      && forall t: nat :: t < |s.finished| ==>
        |s.finished[t]| <= |r.finished[t]| && r.finished[t][..|s.finished[t]|] == s.finished[t]
  {
    hide Allowed, Outcome;
  }

  /** Main theorem: for any number of threads and any interleaving, the committed roots form one
      chain from the initial root in which every root is its immediate predecessor transformed
      and every transaction had its preconditions there; every call that returned is explained
      by the chain; and the calls of a thread, its reads among them, never go back in it. */
  lemma EveryInterleaving(root: Node, n: nat, run: seq<Step>)
    requires Possible(Initial(root, n), run)
    ensures var s := Run(Initial(root, n), run);
      && Chain(s.history) && s.history != [] && s.history[0].root == root && |s.finished| == n
      && (s.root.Some? ==> s.root.value == Last(s))
      && (forall t: nat, i: nat :: t < n && i < |s.finished[t]| ==> Explained(s.history, s.finished[t][i]))
      && (forall t: nat, i: nat, j: nat :: t < n && i < j < |s.finished[t]| ==>
        s.finished[t][i].version <= s.finished[t][j].since)
  {
    hide Possible, Run, Chain, Explained, Locks;
    InitialInv(root, n);
    RunInv(Initial(root, n), run);
    HistoryGrows(Initial(root, n), run);
    var s := Run(Initial(root, n), run);
    assert s.history[0] == s.history[..1][0];
    assert forall t: nat :: t < n ==> Accounted(s.history, s.finished[t], s.threads[t]);
  }

  /** A committed transaction had each of its preconditions in the root before, a refused one
      lacked one of them in the root at which it was decided. */
  lemma PreconditionsDecide(root: Node, n: nat, run: seq<Step>, t: nat, i: nat)
    requires Possible(Initial(root, n), run) && t < n
    requires |Run(Initial(root, n), run).finished| == n && i < |Run(Initial(root, n), run).finished[t]|
    requires Run(Initial(root, n), run).finished[t][i].call.Transact?
    ensures var s := Run(Initial(root, n), run);
      var r := s.finished[t][i];
      && r.version < |s.history| && (r.result.Some? ==> r.version > 0)
      && var before := s.history[if r.result.Some? then r.version - 1 else r.version].root;
         r.result.Some? <==> forall k :: 0 <= k < |r.call.pre| ==>
           r.call.pre[k].holds(Get(Some(before), r.call.pre[k].path))
  {
    hide Possible, Run, Get;
    EveryInterleaving(root, n, run);
    var s := Run(Initial(root, n), run);
    var r := s.finished[t][i];
    assert Explained(s.history, r);
    FoldIsAll(s.history[if r.result.Some? then r.version - 1 else r.version].root, r.call.pre, true);
  }

  /** Of a committed call whose paths do not meet: in the root it committed, each path has what its
      operation made of what the root before had there, and along every other path the two agree. */
  lemma WritesTakeEffect(root: Node, n: nat, run: seq<Step>, i: nat, q: Path)
    requires Possible(Initial(root, n), run)
    requires 0 < i < |Run(Initial(root, n), run).history| && !Run(Initial(root, n), run).history[i].call.Read?
    requires var h := Run(Initial(root, n), run).history; ActionsApart(h[i - 1].root, h[i].call.ops)
    ensures var h := Run(Initial(root, n), run).history;
      var before, ops := h[i - 1].root, h[i].call.ops;
      && (forall k :: 0 <= k < |ops| ==> Get(Some(h[i].root), ops[k].path) == Some(ops[k].op(Get(Some(before),
            ops[k].path))))
      && ((forall k :: 0 <= k < |ops| ==> Apart(Some(before), ops[k].path, q)) ==>
        Get(Some(h[i].root), q) == Get(Some(before), q))
  {
    hide Possible, Run, Get, Apart, ActionsApart, ApplyAll, Updates;
    EveryInterleaving(root, n, run);
    var h := Run(Initial(root, n), run).history;
    TransformLaws(h[i - 1].root, h[i].call.ops, h[i].call.ops, q);
  }

  /** A call that begins after another has returned, on whatever thread, takes effect at or behind
      the version of the other. */
  lemma LaterCallsFollow(s: State, step: Step, t: nat, i: nat)
    requires Inv(s) && Enabled(s, step) && step.kind.Begin? && t < |s.finished| && i < |s.finished[t]|
    ensures After(s, step).threads[step.thread].since >= s.finished[t][i].version
  {
    hide Allowed, Outcome;
    assert Accounted(s.history, s.finished[t], s.threads[t]);
  }

  /** Nobody waits forever: while a call is under way, some thread can take its next step. */
  lemma NoDeadlock(s: State, t: nat) returns (step: Step)
    requires Inv(s) && t < |s.threads| && !s.threads[t].Idle?
    ensures Enabled(s, step) && !step.kind.Begin?
  {
    hide Allowed, Outcome, Chain, AllAccounted;
    assert Fresh(s, s.threads[t]);
    if s.rootMutex.Some? {
      step := NextOf(s, s.rootMutex.value);
    } else if s.readers != {} {
      var u :| u in s.readers;
      step := NextOf(s, u);
    } else if s.modifyMutex.Some? {
      step := NextOf(s, s.modifyMutex.value);
    } else {
      step := NextOf(s, t);
    }
  }

  /** The next step of a thread that is not waiting for a lock. */
  lemma NextOf(s: State, t: nat) returns (step: Step)
    requires Inv(s) && t < |s.threads| && !s.threads[t].Idle?
    requires s.threads[t].Called? ==> s.modifyMutex == None && s.rootMutex == None
    requires s.threads[t].Prepared? ==> s.rootMutex == None && s.readers == {}
    requires s.threads[t].Locked? || s.threads[t].Reading? ==> s.rootMutex == None
    ensures Enabled(s, step) && !step.kind.Begin?
  {
    hide Allowed, Outcome, Chain, AllAccounted;
    assert Fresh(s, s.threads[t]);
    var kind := match s.threads[t]
      case Called(call, _) => if call.Read? then LockShared else LockModify
      case Locked(_, _) => Decide
      case Prepared(_, _, _) => LockRoot
      case Swapping(_, _, _) => BeginAssign
      case Torn(_, _, _) => EndAssign
      case Swapped(_, _, _, _) => UnlockRoot
      case Unlocking(_, _, _, _) => UnlockModify
      case Reading(_) => Load
      case _ => UnlockShared;
    step := Step(t, kind);
  }
}
