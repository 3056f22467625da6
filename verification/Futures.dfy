/** The compare-and-swap handshake behind futures, for a chain of continuations attached with
    `then` while values arrive from other threads. */
module Futures {
  import opened Wrappers

  /** The four states of a shared state. */
  datatype Mark = EMPTY | CALLBACK | VALUE | DONE

  /** How far a call of setValue or setCallback has come; `seen` is what the first
      compare-and-swap found. A failed assertion ends in `Broken`. */
  datatype Phase = Waiting | Entered | Stored | Failed(seen: Mark) | Calling | Finished | Broken

  datatype Side = Setter | Attacher

  /** One shared state, with the one call that sets its value and the one that attaches its
      continuation. `runs` and `got` record how often, and with what, the continuation ran. */
  datatype Cell = Cell(mark: Mark, value: Option<int>, callback: bool, arg: int, setter: Phase, attacher: Phase,
      runs: nat, got: Option<int>)

  /** A function given to `then`: it returns a value, or a future whose value comes later. */
  datatype Continuation = Plain(f: int -> int) | Returning(f: int -> int)

  const Fresh := Cell(EMPTY, None, false, 0, Waiting, Waiting, 0, None)

  // ---------------------------------------------------------------- one shared state

  function PhaseOf(c: Cell, side: Side): Phase {
    if side == Setter then c.setter else c.attacher
  }

  function WithPhase(c: Cell, side: Side, p: Phase): Cell {
    if side == Setter then c.(setter := p) else c.(attacher := p)
  }

  function Own(side: Side): Mark {
    if side == Setter then VALUE else CALLBACK
  }

  function Other(side: Side): Mark {
    if side == Setter then CALLBACK else VALUE
  }

  predicate Active(p: Phase) {
    p.Entered? || p.Stored? || p.Failed? || p.Calling?
  }

  /** One atomic step of setValue or setCallback: the store, either compare-and-swap, the call. */
  function Advance(c: Cell, side: Side): Cell
    requires Active(PhaseOf(c, side))
  {
    match PhaseOf(c, side)
    case Entered => if side == Setter then c.(value := Some(c.arg), setter := Stored)
      else c.(callback := true, attacher := Stored)
    case Stored =>
      if c.mark == EMPTY then WithPhase(c.(mark := Own(side)), side, Finished) else WithPhase(c, side, Failed(c.mark))
    case Failed(seen) =>
      if seen != Other(side) then WithPhase(c, side, Broken)
      else if c.mark == seen then WithPhase(c.(mark := DONE), side, Calling)
      else WithPhase(c, side, Broken)
    case _ => WithPhase(c.(runs := c.runs + 1, got := c.value), side, Finished)
  }

  predicate Early(p: Phase) {
    p.Waiting? || p.Entered? || p.Stored?
  }

  /** What the mark says about the two calls, and that the continuation runs once, with the
      stored value, after both the value and the continuation are there. */
  predicate Sound(c: Cell) {
    && (c.value == (if c.setter.Waiting? || c.setter.Entered? then None else Some(c.arg)))
    && (c.callback <==> !(c.attacher.Waiting? || c.attacher.Entered?))
    && (match c.mark
        case EMPTY => Early(c.setter) && Early(c.attacher) && c.runs == 0
        case VALUE => c.setter.Finished? && (Early(c.attacher) || c.attacher == Failed(VALUE)) && c.runs == 0
        case CALLBACK => c.attacher.Finished? && (Early(c.setter) || c.setter == Failed(CALLBACK)) && c.runs == 0
        case DONE =>
          || (c.setter.Finished? && c.attacher.Finished? && c.runs == 1)
          || (c.setter.Finished? && c.attacher.Calling? && c.runs == 0)
          || (c.setter.Calling? && c.attacher.Finished? && c.runs == 0))
    && c.got == (if c.runs == 0 then None else Some(c.arg))
  }

  /** No step breaks a shared state, whatever the other call is doing. */
  lemma AdvanceSound(c: Cell, side: Side)
    requires Sound(c) && Active(PhaseOf(c, side))
    ensures Sound(Advance(c, side)) && !PhaseOf(Advance(c, side), side).Broken?
    ensures PhaseOf(c, side).Calling? ==> c.value == Some(c.arg) && c.callback && c.runs == 0
  {
  }

  /** A call begins; a value comes with it. */
  function Enter(c: Cell, side: Side, v: int): Cell {
    WithPhase(if side == Setter then c.(arg := v) else c, side, Entered)
  }

  lemma EnterSound(c: Cell, side: Side, v: int)
    requires Sound(c) && PhaseOf(c, side).Waiting?
    ensures Sound(Enter(c, side, v))
  {
  }

  /** Before a value was given, the value to come may be settled. */
  lemma ArgSound(c: Cell, v: int)
    requires Sound(c) && c.setter.Waiting?
    ensures Sound(c.(arg := v))
  {
  }

  lemma AdvanceKeeps(c: Cell, side: Side)
    requires Active(PhaseOf(c, side))
    ensures var d := Advance(c, side);
      && (d.setter.Waiting? <==> c.setter.Waiting?) && (d.attacher.Waiting? <==> c.attacher.Waiting?)
      && d.arg == c.arg && d.runs == c.runs + if PhaseOf(c, side).Calling? then 1 else 0
  {
  }

  // ---------------------------------------------------------------- the chain

  /** Shared states 0, 2, 4, … are the futures of the chain; state 2i + 1 is the future that a
      returning function i hands back. */
  datatype Chain = Chain(funs: seq<Continuation>, first: int, cells: seq<Cell>)

  function Start(funs: seq<Continuation>, first: int): Chain {
    Chain(funs, first, seq(2 * |funs| + 1, k => Fresh))
  }

  predicate Shape(s: Chain) {
    |s.cells| == 2 * |s.funs| + 1
  }

  /** The composed value of the first `i` functions. */
  function Composed(funs: seq<Continuation>, first: int, i: nat): int
    requires i <= |funs|
  {
    if i == 0 then first else funs[i - 1].f(Composed(funs, first, i - 1))
  }

  /** What state `k` is to hold. */
  function Due(s: Chain, k: nat): int
    requires k < 2 * |s.funs| + 1
  {
    Composed(s.funs, s.first, (k + 1) / 2)
  }

  datatype Step = Begin(cell: nat, side: Side) | Move(cell: nat, side: Side)

  /** Calls that other threads begin: the first value, the value of a returned future once the
      function was called, and the next `then` once the one before has returned. */
  predicate Free(s: Chain, k: nat, side: Side)
    requires Shape(s) && k < |s.cells|
  {
    if side == Setter then k == 0 || (k % 2 == 1 && !s.cells[k].attacher.Waiting?)
    else k % 2 == 0 && k + 1 < |s.cells| && (k == 0 || s.cells[k - 2].attacher.Finished?)
  }

  predicate Enabled(s: Chain, step: Step) {
    && Shape(s) && step.cell < |s.cells|
    && match step
       case Begin(k, side) => PhaseOf(s.cells[k], side).Waiting? && Free(s, k, side)
       case Move(k, side) =>
         && Active(PhaseOf(s.cells[k], side))
         && (PhaseOf(s.cells[k], side).Calling? ==> k + 1 < |s.cells|)
  }

  /** Running the continuation of state `k` on `v` calls the function, and begins the next call:
      the value of the next future, or attaching to the future handed back, whose value is
      settled by the function but may come at any time. */
  function Continue(s: Chain, k: nat, v: int): (r: Chain)
    requires Shape(s) && k + 1 < |s.cells|
    ensures Shape(r)
  {
    if k % 2 == 1 then s.(cells := s.cells[k + 1 := Enter(s.cells[k + 1], Setter, v)])
    else match s.funs[k / 2]
      case Plain(f) => s.(cells := s.cells[k + 2 := Enter(s.cells[k + 2], Setter, f(v))])
      case Returning(f) => s.(cells := s.cells[k + 1 := Enter(s.cells[k + 1].(arg := f(v)), Attacher, 0)])
  }

  function After(s: Chain, step: Step): (r: Chain)
    requires Enabled(s, step)
    ensures Shape(r) && r.funs == s.funs && r.first == s.first
  {
    match step
    case Begin(k, side) =>
      s.(cells := s.cells[k := Enter(s.cells[k], side, if k == 0 then s.first else s.cells[k].arg)])
    case Move(k, side) =>
      var c := s.cells[k];
      var t := s.(cells := s.cells[k := Advance(c, side)]);
      if PhaseOf(c, side).Calling? then Continue(t, k, if c.value.Some? then c.value.value else 0) else t
  }

  predicate Possible(s: Chain, run: seq<Step>)
    decreases |run|
  {
    run == [] || (Enabled(s, run[0]) && Possible(After(s, run[0]), run[1..]))
  }

  function Run(s: Chain, run: seq<Step>): Chain
    requires Possible(s, run)
    decreases |run|
  {
    if run == [] then s else Run(After(s, run[0]), run[1..])
  }

  // ---------------------------------------------------------------- the invariant

  /** The call that another continuation has to begin has begun exactly if that continuation ran. */
  predicate Linked(s: Chain, k: nat)
    requires Shape(s) && k < |s.cells|
  {
    if k % 2 == 1 then
      s.cells[k].attacher.Waiting? <==> !(s.funs[k / 2].Returning? && s.cells[k - 1].runs == 1)
    else if k == 0 then true
    else if s.funs[k / 2 - 1].Plain? then s.cells[k].setter.Waiting? <==> s.cells[k - 2].runs == 0
    else s.cells[k].setter.Waiting? <==> s.cells[k - 1].runs == 0
  }

  /** Values are the composed ones; nothing attaches to the last future; a future not handed
      back is not touched. */
  predicate Placed(s: Chain, k: nat)
    requires Shape(s) && k < |s.cells|
  {
    && (!s.cells[k].setter.Waiting? || (k % 2 == 1 && !s.cells[k].attacher.Waiting?) ==> s.cells[k].arg == Due(s, k))
    && (k + 1 == |s.cells| ==> s.cells[k].attacher.Waiting?)
    && (k % 2 == 1 && s.cells[k].attacher.Waiting? ==> s.cells[k].setter.Waiting?)
  }

  ghost predicate Inv(s: Chain) {
    Shape(s) && forall k: nat :: k < |s.cells| ==> Good(s, k)
  }

  ghost predicate Good(s: Chain, k: nat)
    requires Shape(s) && k < |s.cells|
  {
    Sound(s.cells[k]) && Linked(s, k) && Placed(s, k)
  }

  lemma StartInv(funs: seq<Continuation>, first: int)
    ensures Inv(Start(funs, first))
  {
  }

  /** What links and places depend on. */
  ghost predicate Alike(c: Cell, d: Cell) {
    (c.setter.Waiting? <==> d.setter.Waiting?) && (c.attacher.Waiting? <==> d.attacher.Waiting?) && c.arg == d.arg &&
      c.runs == d.runs
  }

  lemma AlikeKept(s: Chain, r: Chain)
    requires Inv(s) && Shape(r) && r.funs == s.funs && r.first == s.first
    requires forall k: nat :: k < |s.cells| ==> Alike(s.cells[k], r.cells[k]) && Sound(r.cells[k])
    ensures Inv(r)
  {
    hide Composed, Sound;
    forall k: nat | k < |r.cells| ensures Good(r, k) {
      assert Good(s, k);
      assert Alike(s.cells[k], r.cells[k]);
      if k >= 1 { assert Alike(s.cells[k - 1], r.cells[k - 1]); }
      if k >= 2 { assert Alike(s.cells[k - 2], r.cells[k - 2]); }
    }
  }

  lemma BeginKept(s: Chain, k: nat, side: Side)
    requires Inv(s) && Enabled(s, Begin(k, side))
    ensures Inv(After(s, Begin(k, side)))
  {
    hide Composed, Sound;
    var r := After(s, Begin(k, side));
    First(s);
    assert Good(s, k);
    EnterSound(s.cells[k], side, if k == 0 then s.first else s.cells[k].arg);
    forall j: nat | j < |r.cells| ensures Good(r, j) {
      assert Good(s, j);
    }
  }

  lemma First(s: Chain)
    requires Shape(s)
    ensures Due(s, 0) == s.first
  {
  }

  /** The values fit together along the chain. */
  lemma DueNext(s: Chain, k: nat)
    requires Shape(s) && k + 1 < |s.cells|
    ensures k % 2 == 1 ==> Due(s, k + 1) == Due(s, k)
    ensures k % 2 == 0 ==> Due(s, k + 1) == Due(s, k + 2) == s.funs[k / 2].f(Due(s, k))
  {
  }

  /** State `k` after its continuation ran. */
  ghost predicate Ran(c: Cell, d: Cell) {
    && Sound(d) && d.runs == 1 && c.runs == 0 && d.arg == c.arg
    && !c.setter.Waiting? && !c.attacher.Waiting? && !d.setter.Waiting? && !d.attacher.Waiting?
  }

  lemma RanNow(c: Cell, side: Side)
    requires Sound(c) && PhaseOf(c, side).Calling?
    ensures Ran(c, Advance(c, side))
  {
    AdvanceSound(c, side);
    AdvanceKeeps(c, side);
    CallingNow(c, side);
  }

  lemma ValueLinks(s: Chain, k: nat, t: nat, d: Cell, e: Cell, j: nat)
    requires Inv(s) && k < t < |s.cells| && Ran(s.cells[k], d) && j < |s.cells|
    requires if k % 2 == 1 then t == k + 1 else t == k + 2 && s.funs[k / 2].Plain?
    requires !e.setter.Waiting? && e.attacher == s.cells[t].attacher && e.runs == s.cells[t].runs
    ensures Linked(s.(cells := s.cells[k := d][t := e]), j)
  {
    hide Sound, Placed;
    assert Good(s, j) && Good(s, k);
  }

  lemma ValuePlaces(s: Chain, k: nat, t: nat, d: Cell, e: Cell, j: nat)
    requires Inv(s) && k < t < |s.cells| && Ran(s.cells[k], d) && j < |s.cells| && t % 2 == 0
    requires !e.setter.Waiting? && e.attacher == s.cells[t].attacher && e.arg == Due(s, t)
    ensures Placed(s.(cells := s.cells[k := d][t := e]), j)
  {
    hide Sound, Linked, Composed;
    assert Good(s, j);
    SameDue(s, s.(cells := s.cells[k := d][t := e]));
  }

  /** A continuation ran in state `k`, and the value of state `t` is on its way. */
  lemma ValuePassed(s: Chain, k: nat, side: Side, t: nat, v: int)
    requires Inv(s) && k < t < |s.cells| && PhaseOf(s.cells[k], side).Calling?
    requires if k % 2 == 1 then t == k + 1 else t == k + 2 && s.funs[k / 2].Plain?
    requires v == Due(s, t)
    ensures s.cells[t].setter.Waiting?
    ensures Inv(s.(cells := s.cells[k := Advance(s.cells[k], side)][t := Enter(s.cells[t], Setter, v)]))
  {
    hide Linked, Placed, Due, Advance, Sound;
    var d, e := Advance(s.cells[k], side), Enter(s.cells[t], Setter, v);
    assert Good(s, k);
    RanNow(s.cells[k], side);
    Unlinked(s, k, t);
    EnterSound(s.cells[t], Setter, v);
    var r := s.(cells := s.cells[k := d][t := e]);
    forall j: nat | j < |r.cells| ensures Good(r, j) {
      assert Good(s, j);
      ValueLinks(s, k, t, d, e, j);
      ValuePlaces(s, k, t, d, e, j);
    }
  }

  /** The value of state `t` has not been given before. */
  lemma Unlinked(s: Chain, k: nat, t: nat)
    requires Inv(s) && k < t < |s.cells| && s.cells[k].runs == 0
    requires if k % 2 == 1 then t == k + 1 && !s.cells[k].attacher.Waiting? else t == k + 2 && s.funs[k / 2].Plain?
    ensures s.cells[t].setter.Waiting? && Sound(s.cells[t])
  {
    hide Sound, Placed;
    assert Good(s, t) && Good(s, k);
  }

  lemma FutureLinks(s: Chain, k: nat, d: Cell, e: Cell, j: nat)
    requires Inv(s) && k % 2 == 0 && k + 1 < |s.cells| && Ran(s.cells[k], d) && j < |s.cells| &&
      s.funs[k / 2].Returning?
    requires !e.attacher.Waiting? && e.setter == s.cells[k + 1].setter && e.runs == s.cells[k + 1].runs
    ensures Linked(s.(cells := s.cells[k := d][k + 1 := e]), j)
  {
    hide Sound, Placed;
    assert Good(s, j);
  }

  lemma FuturePlaces(s: Chain, k: nat, d: Cell, e: Cell, j: nat)
    requires Inv(s) && k % 2 == 0 && k + 1 < |s.cells| && Ran(s.cells[k], d) && j < |s.cells|
    requires !e.attacher.Waiting? && e.arg == Due(s, k + 1)
    ensures Placed(s.(cells := s.cells[k := d][k + 1 := e]), j)
  {
    hide Sound, Linked, Composed;
    assert Good(s, j);
    SameDue(s, s.(cells := s.cells[k := d][k + 1 := e]));
  }

  /** A returning function was called in state `k`, and its future is being attached to. */
  lemma FutureReturned(s: Chain, k: nat, side: Side, v: int)
    requires Inv(s) && k % 2 == 0 && k + 1 < |s.cells| && PhaseOf(s.cells[k], side).Calling? && s.funs[k / 2].Returning?
    requires v == Due(s, k + 1)
    ensures var next := Enter(s.cells[k + 1].(arg := v), Attacher, 0);
      Inv(s.(cells := s.cells[k := Advance(s.cells[k], side)][k + 1 := next]))
  {
    hide Linked, Placed, Due, Advance, Sound;
    var d, e := Advance(s.cells[k], side), Enter(s.cells[k + 1].(arg := v), Attacher, 0);
    assert Good(s, k) && Good(s, k + 1);
    RanNow(s.cells[k], side);
    NotReturned(s, k);
    ArgSound(s.cells[k + 1], v);
    EnterSound(s.cells[k + 1].(arg := v), Attacher, 0);
    var r := s.(cells := s.cells[k := d][k + 1 := e]);
    forall j: nat | j < |r.cells| ensures Good(r, j) {
      assert Good(s, j);
      FutureLinks(s, k, d, e, j);
      FuturePlaces(s, k, d, e, j);
    }
  }

  lemma NotReturned(s: Chain, k: nat)
    requires Inv(s) && k % 2 == 0 && k + 1 < |s.cells| && s.cells[k].runs == 0
    ensures s.cells[k + 1].attacher.Waiting? && s.cells[k + 1].setter.Waiting?
  {
    hide Sound;
    assert Good(s, k + 1);
  }

  lemma CallKept(s: Chain, k: nat, side: Side)
    requires Inv(s) && Enabled(s, Move(k, side)) && PhaseOf(s.cells[k], side).Calling?
    ensures Inv(After(s, Move(k, side)))
  {
    hide Composed, Sound, Due, Advance, Linked, Enter;
    assert Good(s, k);
    CallingNow(s.cells[k], side);
    DueNext(s, k);
    if k % 2 == 1 {
      ValuePassed(s, k, side, k + 1, Due(s, k));
    } else if s.funs[k / 2].Plain? {
      ValuePassed(s, k, side, k + 2, Due(s, k + 2));
    } else {
      FutureReturned(s, k, side, Due(s, k + 1));
    }
  }

  lemma SameDue(s: Chain, r: Chain)
    requires s.funs == r.funs && s.first == r.first
    ensures forall k: nat :: k < 2 * |s.funs| + 1 ==> Due(s, k) == Due(r, k)
  {
  }

  lemma CallingNow(c: Cell, side: Side)
    requires Sound(c) && PhaseOf(c, side).Calling?
    ensures c.value == Some(c.arg) && c.runs == 0 && !c.setter.Waiting? && !c.attacher.Waiting?
  {
  }

  lemma MoveAlike(s: Chain, k: nat, side: Side)
    requires Inv(s) && Enabled(s, Move(k, side)) && !PhaseOf(s.cells[k], side).Calling?
    ensures var r := After(s, Move(k, side));
      forall j: nat :: j < |s.cells| ==> Alike(s.cells[j], r.cells[j]) && Sound(r.cells[j])
  {
    hide Sound, Linked, Placed, Advance;
    assert Good(s, k);
    AdvanceSound(s.cells[k], side);
    AdvanceKeeps(s.cells[k], side);
    var r := After(s, Move(k, side));
    forall j: nat | j < |s.cells| ensures Alike(s.cells[j], r.cells[j]) && Sound(r.cells[j]) {
      assert Good(s, j);
    }
  }

  lemma InvKept(s: Chain, step: Step)
    requires Inv(s) && Enabled(s, step)
    ensures Inv(After(s, step))
  {
    hide Sound, Linked, Placed, Advance;
    match step
    case Begin(k, side) => BeginKept(s, k, side);
    case Move(k, side) =>
      if PhaseOf(s.cells[k], side).Calling? {
        CallKept(s, k, side);
      } else {
        MoveAlike(s, k, side);
        AlikeKept(s, After(s, step));
      }
  }

  // ---------------------------------------------------------------- every run

  lemma {:induction false} RunInv(s: Chain, run: seq<Step>)
    requires Inv(s) && Possible(s, run)
    ensures Inv(Run(s, run)) && Run(s, run).funs == s.funs && Run(s, run).first == s.first
    decreases |run|
  {
    if run != [] {
      InvKept(s, run[0]);
      RunInv(After(s, run[0]), run[1..]);
    }
  }

  /** In every interleaving no assertion of `transit` fails, each continuation runs at most once,
      with the composed value, and only when both the value and the continuation are stored. */
  lemma EveryInterleaving(funs: seq<Continuation>, first: int, run: seq<Step>, k: nat)
    requires Possible(Start(funs, first), run) && k < 2 * |funs| + 1
    ensures var s := Run(Start(funs, first), run);
      && Shape(s) && s.funs == funs
      && !s.cells[k].setter.Broken? && !s.cells[k].attacher.Broken?
      && s.cells[k].runs <= 1
      && (s.cells[k].runs == 1 ==> s.cells[k].got == Some(Composed(funs, first, (k + 1) / 2)))
      && (s.cells[k].setter.Calling? || s.cells[k].attacher.Calling? || s.cells[k].runs == 1 ==>
        s.cells[k].value.Some? && s.cells[k].callback)
  {
    StartInv(funs, first);
    RunInv(Start(funs, first), run);
    assert Good(Run(Start(funs, first), run), k);
  }

  /** At any time: a future behind function `i` holds a value only if the continuation with that
      function has run, and then it is what the function makes of what the continuation got; the
      first continuation gets the first value. */
  lemma ResultsPassed(funs: seq<Continuation>, first: int, run: seq<Step>, i: nat)
    requires Possible(Start(funs, first), run) && i < |funs|
    ensures var s := Run(Start(funs, first), run);
      && Shape(s) && s.funs == funs
      && (s.cells[2 * i + 2].value.Some? ==>
        && s.cells[2 * i].runs == 1 && s.cells[2 * i].got.Some?
        && s.cells[2 * i + 2].value == Some(funs[i].f(s.cells[2 * i].got.value)))
      && (s.cells[0].runs == 1 ==> s.cells[0].got == Some(first))
  {
    hide Run, Possible;
    EveryInterleaving(funs, first, run, 0);
    StartInv(funs, first);
    RunInv(Start(funs, first), run);
    var s := Run(Start(funs, first), run);
    if s.cells[2 * i + 2].value.Some? { PassedOn(s, i); }
  }

  lemma PassedOn(s: Chain, i: nat)
    requires Inv(s) && i < |s.funs| && s.cells[2 * i + 2].value.Some?
    ensures s.cells[2 * i].runs == 1 && s.cells[2 * i].got.Some?
    ensures s.cells[2 * i + 2].value == Some(s.funs[i].f(s.cells[2 * i].got.value))
  {
    assert Good(s, 2 * i + 2) && Good(s, 2 * i + 1) && Good(s, 2 * i);
    assert (2 * i + 3) / 2 == i + 1 && (2 * i + 1) / 2 == i;
  }

  // ---------------------------------------------------------------- how every run ends

  function Rank(p: Phase): nat {
    match p
    case Waiting => 5
    case Entered => 4
    case Stored => 3
    case Failed(_) => 2
    case Calling => 1
    case _ => 0
  }

  /** Steps that the calls on the states may still take. */
  function Weight(cells: seq<Cell>): nat {
    if cells == [] then 0
    else
      var last := cells[|cells| - 1];
      Weight(cells[..|cells| - 1]) + Rank(last.setter) + Rank(last.attacher)
  }

  lemma {:induction false} WeightOfUpdate(cells: seq<Cell>, k: nat, c: Cell)
    requires k < |cells|
    ensures Weight(cells[k := c])
      == Weight(cells) - Rank(cells[k].setter) - Rank(cells[k].attacher) + Rank(c.setter) + Rank(c.attacher)
    decreases |cells|
  {
    var rest := cells[..|cells| - 1];
    if k == |cells| - 1 {
      assert cells[k := c][..k] == rest;
    } else {
      assert cells[k := c][..|cells| - 1] == rest[k := c];
      WeightOfUpdate(rest, k, c);
    }
  }

  lemma {:induction false} WeightOfStart(n: nat)
    ensures Weight(seq(n, k => Fresh)) == 10 * n
  {
    if n > 0 {
      assert seq(n, k => Fresh)[..n - 1] == seq(n - 1, k => Fresh);
      WeightOfStart(n - 1);
    }
  }

  /** Each step uses up weight: a call moves on, and what a continuation begins had not begun. */
  lemma StepWeighs(s: Chain, step: Step)
    requires Inv(s) && Enabled(s, step)
    ensures Weight(After(s, step).cells) < Weight(s.cells)
  {
    hide Weight, Linked, Placed, Composed, Sound, Free;
    match step
    case Begin(k, side) =>
      WeightOfUpdate(s.cells, k, Enter(s.cells[k], side, if k == 0 then s.first else s.cells[k].arg));
    case Move(k, side) =>
      var d := Advance(s.cells[k], side);
      WeightOfUpdate(s.cells, k, d);
      if PhaseOf(s.cells[k], side).Calling? {
        CallWeighs(s, k, side);
      }
  }

  lemma CallWeighs(s: Chain, k: nat, side: Side)
    requires Inv(s) && Enabled(s, Move(k, side)) && PhaseOf(s.cells[k], side).Calling?
    ensures Weight(After(s, Move(k, side)).cells) < Weight(s.cells)
  {
    hide Weight, Linked, Placed, Composed, Sound, Free;
    var c := s.cells[k];
    var cells := s.cells[k := Advance(c, side)];
    assert Good(s, k);
    CallingNow(c, side);
    WeightOfUpdate(s.cells, k, Advance(c, side));
    if k % 2 == 1 {
      Unlinked(s, k, k + 1);
      WeightOfUpdate(cells, k + 1, Enter(cells[k + 1], Setter, c.arg));
    } else if s.funs[k / 2].Plain? {
      Unlinked(s, k, k + 2);
      WeightOfUpdate(cells, k + 2, Enter(cells[k + 2], Setter, s.funs[k / 2].f(c.arg)));
    } else {
      NotReturned(s, k);
      WeightOfUpdate(cells, k + 1, Enter(cells[k + 1].(arg := s.funs[k / 2].f(c.arg)), Attacher, 0));
    }
  }

  lemma {:induction false} RunWeighs(s: Chain, run: seq<Step>)
    requires Inv(s) && Possible(s, run)
    ensures |run| <= Weight(s.cells)
    decreases |run|
  {
    if run != [] {
      InvKept(s, run[0]);
      StepWeighs(s, run[0]);
      RunWeighs(After(s, run[0]), run[1..]);
    }
  }

  /** No interleaving goes on for ever. */
  lemma EveryRunEnds(funs: seq<Continuation>, first: int, run: seq<Step>)
    requires Possible(Start(funs, first), run)
    ensures |run| <= 10 * (2 * |funs| + 1)
  {
    StartInv(funs, first);
    RunWeighs(Start(funs, first), run);
    WeightOfStart(2 * |funs| + 1);
  }

  /** No thread can take a step. */
  ghost predicate Quiet(s: Chain) {
    forall step: Step :: !Enabled(s, step)
  }

  lemma QuietCell(s: Chain, k: nat, side: Side)
    requires Inv(s) && Quiet(s) && k < |s.cells|
    requires Free(s, k, side) || !PhaseOf(s.cells[k], side).Waiting?
    ensures PhaseOf(s.cells[k], side).Finished?
  {
    hide Linked, Free;
    assert Good(s, k);
    assert !Enabled(s, Begin(k, side)) && !Enabled(s, Move(k, side));
  }

  lemma BothFinished(s: Chain, k: nat)
    requires Inv(s) && k < |s.cells| && s.cells[k].setter.Finished? && s.cells[k].attacher.Finished?
    ensures s.cells[k].mark == DONE && s.cells[k].runs == 1 && s.cells[k].got == Some(s.cells[k].arg)
  {
    assert Good(s, k);
  }

  /** Once nothing moves, the value has arrived at the future of the first `i` functions. */
  lemma {:induction false} QuietUpTo(s: Chain, i: nat)
    requires Inv(s) && Quiet(s) && i <= |s.funs|
    ensures s.cells[2 * i].setter.Finished?
    ensures i < |s.funs| ==> s.cells[2 * i].attacher.Finished? && s.cells[2 * i].runs == 1
  {
    hide Sound, Composed;
    var k := 2 * i;
    if i > 0 {
      QuietUpTo(s, i - 1);
      assert Good(s, k) && Good(s, k - 1);
      if s.funs[i - 1].Returning? {
        QuietCell(s, k - 1, Attacher);
        QuietCell(s, k - 1, Setter);
        BothFinished(s, k - 1);
      }
    }
    QuietCell(s, k, Setter);
    if i < |s.funs| {
      QuietCell(s, k, Attacher);
      BothFinished(s, k);
    }
  }

  /** Every interleaving that can go no further has run each continuation exactly once, on the
      value composed so far, and has left the whole composition in the last future. */
  lemma EveryEnd(funs: seq<Continuation>, first: int, run: seq<Step>)
    requires Possible(Start(funs, first), run) && Quiet(Run(Start(funs, first), run))
    ensures var s := Run(Start(funs, first), run);
      && Shape(s) && s.funs == funs
      && (forall i: nat :: i < |funs| ==>
        s.cells[2 * i].runs == 1 && s.cells[2 * i].got == Some(Composed(funs, first, i)))
      && s.cells[2 * |funs|].mark == VALUE && s.cells[2 * |funs|].value == Some(Composed(funs, first, |funs|))
  {
    var s := Run(Start(funs, first), run);
    StartInv(funs, first);
    RunInv(Start(funs, first), run);
    forall i: nat | i < |funs| ensures s.cells[2 * i].runs == 1 &&
      s.cells[2 * i].got == Some(Composed(funs, first, i)) {
      QuietUpTo(s, i);
      EveryInterleaving(funs, first, run, 2 * i);
    }
    QuietUpTo(s, |funs|);
    LastHolds(s);
  }

  lemma LastHolds(s: Chain)
    requires Inv(s) && s.cells[2 * |s.funs|].setter.Finished?
    ensures s.cells[2 * |s.funs|].mark == VALUE &&
      s.cells[2 * |s.funs|].value == Some(Composed(s.funs, s.first, |s.funs|))
  {
    hide Composed, Linked;
    assert Good(s, 2 * |s.funs|);
  }
}
