/** Whole runs of the builder: every legal sequence of calls, and what its bytes read back as. */
module Runs {
  import opened Bytes
  import opened Format
  import opened Layout
  import opened Slice
  import opened RoundTrip
  import opened Frames
  import opened Builder
  import opened Wrappers

  datatype Call = Add(value: Value) | Open(isArray: bool, compact: bool) | Close

  /** What has been built: finished values and open compounds. */
  datatype State = State(roots: seq<Value>, open: seq<Frame>)

  const Initial := State([], [])

  /** Between calls a member is under way only if its key has been written. */
  predicate Resting(open: seq<Frame>) {
    && (forall d :: 0 <= d < |open| - 1 ==> Awaiting(open[d]))
    && (open != [] ==> (open[|open| - 1].pending <==> open[|open| - 1].ObjFrame? && open[|open| - 1].key.Some?))
  }

  ghost predicate Legal(s: State, call: Call) {
    match call
    case Add(v) => !v.Arr? && !v.Obj? && (v.Str? ==> |v.text| < Limit) && AddOutcome(s.open, v) == None
    case Open(_, _) => OpenOutcome(s.open) == None
    case Close => s.open != [] && Closable(s.open[|s.open| - 1])
  }

  ghost function After(s: State, call: Call): State
    requires Legal(s, call) && Resting(s.open)
  {
    match call
    case Add(v) => State(AddRoot(s.roots, s.open, v), Added(s.open, v))
    case Open(isArray, compact) => State(s.roots, Opened(s.open, isArray, compact))
    case Close =>
      var front, v := s.open[..|s.open| - 1], FrameValue(s.open[|s.open| - 1]);
      State(AddRoot(s.roots, front, v), AddOpen(front, v))
  }

  lemma AfterRests(s: State, call: Call)
    requires Legal(s, call) && Resting(s.open)
    ensures Resting(After(s, call).open)
  {
  }

  ghost predicate LegalRun(s: State, calls: seq<Call>)
    requires Resting(s.open)
    decreases |calls|
  {
    calls == [] || (Legal(s, calls[0]) && (AfterRests(s, calls[0]); LegalRun(After(s, calls[0]), calls[1..])))
  }

  ghost function Run(s: State, calls: seq<Call>): (r: State)
    requires Resting(s.open) && LegalRun(s, calls)
    ensures Resting(r.open)
    decreases |calls|
  {
    if calls == [] then s else (AfterRests(s, calls[0]); Run(After(s, calls[0]), calls[1..]))
  }

  /** The builder carries out any legal sequence of calls: it never refuses one, and its
      buffer is the encoding of what the calls describe. */
  method Execute(b: Builder, calls: seq<Call>)
    requires b.Valid() && b.Flagged() && Resting(b.open) && LegalRun(State(b.roots, b.open), calls)
    modifies b
    ensures b.Valid() && b.Flagged()
    ensures State(b.roots, b.open) == old(Run(State(b.roots, b.open), calls))
  {
    hide After, Legal, Added, Opened, AddOpen;
    var i := 0;
    while i < |calls|
      invariant i <= |calls| && b.Valid() && b.Flagged() && Resting(b.open)
      invariant LegalRun(State(b.roots, b.open), calls[i..])
      invariant Run(State(b.roots, b.open), calls[i..]) == old(Run(State(b.roots, b.open), calls))
    {
      ghost var s := State(b.roots, b.open);
      assert calls[i..][0] == calls[i] && calls[i..][1..] == calls[i + 1..];
      AfterRests(s, calls[i]);
      Perform(b, calls[i]);
      i := i + 1;
    }
  }

  method Perform(b: Builder, call: Call)
    requires b.Valid() && b.Flagged() && Resting(b.open) && Legal(State(b.roots, b.open), call)
    modifies b
    ensures b.Valid() && b.Flagged()
    ensures State(b.roots, b.open) == old(After(State(b.roots, b.open), call))
  {
    match call
    case Add(v) => var e := b.Add(v);
    case Open(isArray, compact) => var e := b.Open(isArray, compact);
    case Close => var e := b.Close();
  }

  // ---------------------------------------------------------------- runs keep keys unique

  ghost predicate UniqueFrame(f: Frame) {
    match f
    case ArrFrame(_, elems, _) => forall i :: 0 <= i < |elems| ==> UniqueKeys(elems[i])
    case ObjFrame(_, members, _, _) => forall i :: 0 <= i < |members| ==> UniqueKeys(members[i].value)
  }

  ghost predicate UniqueState(s: State) {
    && (forall i :: 0 <= i < |s.roots| ==> UniqueKeys(s.roots[i]))
    && (forall d :: 0 <= d < |s.open| ==> UniqueFrame(s.open[d]))
  }

  lemma AfterUnique(s: State, call: Call)
    requires Legal(s, call) && Resting(s.open) && UniqueState(s)
    ensures UniqueState(After(s, call))
  {
    match call
    case Close =>
      var f := s.open[|s.open| - 1];
      assert UniqueKeys(FrameValue(f));
    case _ =>
  }

  lemma {:induction false} RunUnique(s: State, calls: seq<Call>)
    requires Resting(s.open) && LegalRun(s, calls) && UniqueState(s)
    ensures UniqueState(Run(s, calls))
    decreases |calls|
  {
    if calls != [] {
      AfterRests(s, calls[0]);
      AfterUnique(s, calls[0]);
      RunUnique(After(s, calls[0]), calls[1..]);
    }
  }

  /** Round trip over runs: whatever legal calls lead from the empty builder to one finished
      value, the bytes they leave are its encoding, and read back as that value if every length
      fits the width chosen for it. */
  lemma EveryRunReadsBack(o: Options, calls: seq<Call>, v: Value)
    requires LegalRun(Initial, calls) && Run(Initial, calls) == State([v], [])
    requires |Encode(o, v)| < Limit
    ensures Expected(o, [v], []) == Encode(o, v)
    ensures Roomy(o, v) ==>
      Reads(Expected(o, [v], []), 0, v) && ByteSize(Expected(o, [v], []), 0) == |Expected(o, [v], [])|
  {
    hide Encode, Reads, ByteSize, Roomy;
    RunUnique(Initial, calls);
    assert Run(Initial, calls).roots[0] == v;
    SingleRoot(o, v);
    if Roomy(o, v) { EncodingReadsBack(Encode(o, v), 0, o, v); }
  }

  lemma SingleRoot(o: Options, v: Value)
    ensures Expected(o, [v], []) == Encode(o, v)
  {
    hide Encode;
    assert EncodeAll(o, [v]) == [Encode(o, v)];
    assert Flatten([Encode(o, v)]) == Flatten([]) + Encode(o, v);
  }

  // ---------------------------------------------------------------- every value can be built

  /** The calls that build `v`. */
  function Calls(v: Value): seq<Call>
    decreases v, 1
  {
    match v
    case Arr(compact, elems) => [Open(true, compact)] + ElementCalls(elems) + [Close]
    case Obj(compact, members) => [Open(false, compact)] + MemberCalls(members) + [Close]
    case _ => [Add(v)]
  }

  function ElementCalls(elems: seq<Value>): seq<Call>
    decreases elems, 0
  {
    if elems == [] then [] else Calls(elems[0]) + ElementCalls(elems[1..])
  }

  function MemberCalls(members: seq<Member>): seq<Call>
    decreases members, 0
  {
    if members == [] then []
    else [Add(Str(members[0].key))] + Calls(members[0].value) + MemberCalls(members[1..])
  }

  /** Strings and keys have 64-bit lengths. */
  ghost predicate Storable(v: Value) {
    match v
    case Str(s) => |s| < Limit
    case Arr(_, elems) => forall i :: 0 <= i < |elems| ==> Storable(elems[i])
    case Obj(_, members) => forall i :: 0 <= i < |members| ==> |members[i].key| < Limit && Storable(members[i].value)
    case _ => true
  }

  /** A value may come next: at top level, in an array, or behind a key. */
  predicate Accepting(open: seq<Frame>) {
    Resting(open) && OpenOutcome(open) == None
  }

  ghost function Given(s: State, v: Value): State
    requires Accepting(s.open)
  {
    State(AddRoot(s.roots, s.open, v), if s.open == [] then [] else AddOpen(Marked(s.open), v))
  }

  lemma RunCons(s: State, call: Call, rest: seq<Call>)
    requires Resting(s.open) && Legal(s, call) && Resting(After(s, call).open) && LegalRun(After(s, call), rest)
    ensures LegalRun(s, [call] + rest) && Run(s, [call] + rest) == Run(After(s, call), rest)
  {
    hide Legal, After, Resting;
    assert ([call] + rest)[0] == call && ([call] + rest)[1..] == rest;
  }

  lemma RunNone(s: State)
    requires Resting(s.open)
    ensures LegalRun(s, []) && Run(s, []) == s
  {
  }

  lemma RunHead(s: State, calls: seq<Call>)
    requires Resting(s.open) && calls != [] && LegalRun(s, calls)
    ensures Legal(s, calls[0]) && Resting(After(s, calls[0]).open) && LegalRun(After(s, calls[0]), calls[1..])
    ensures Run(s, calls) == Run(After(s, calls[0]), calls[1..])
  {
    hide Legal, After, Resting;
    AfterRests(s, calls[0]);
  }

  lemma {:induction false} RunConcat(s: State, a: seq<Call>, b: seq<Call>)
    requires Resting(s.open) && LegalRun(s, a) && LegalRun(Run(s, a), b)
    ensures LegalRun(s, a + b) && Run(s, a + b) == Run(Run(s, a), b)
    decreases |a|
  {
    hide Legal, After, LegalRun, Run, Resting;
    if a == [] {
      RunNone(s);
      assert a + b == b;
    } else {
      RunHead(s, a);
      RunConcat(After(s, a[0]), a[1..], b);
      RunCons(s, a[0], a[1..] + b);
      assert a + b == [a[0]] + (a[1..] + b);
    }
  }

  lemma RunOne(s: State, call: Call)
    requires Resting(s.open) && Legal(s, call)
    ensures LegalRun(s, [call]) && Run(s, [call]) == After(s, call)
  {
    AfterRests(s, call);
    assert [call][1..] == [];
  }

  /** A compound: opened, filled, closed. */
  lemma RunWrapped(s: State, call: Call, middle: seq<Call>)
    requires Resting(s.open) && Legal(s, call) && Resting(After(s, call).open) && LegalRun(After(s, call), middle)
    requires Legal(Run(After(s, call), middle), Close)
    ensures LegalRun(s, [call] + middle + [Close])
    ensures Run(s, [call] + middle + [Close]) == After(Run(After(s, call), middle), Close)
  {
    hide Legal, After;
    RunOne(s, call);
    RunConcat(s, [call], middle);
    RunOne(Run(After(s, call), middle), Close);
    RunConcat(s, [call] + middle, [Close]);
  }

  /** Closing a compound that was opened where a value may come next gives that value. */
  lemma ClosedIsGiven(s: State, filled: State, f: Frame)
    requires Accepting(s.open) && Closable(f) && Resting(filled.open)
    requires filled == State(s.roots, (if s.open == [] then [] else Marked(s.open)) + [f])
    ensures Legal(filled, Close) && After(filled, Close) == Given(s, FrameValue(f))
  {
    var front := if s.open == [] then [] else Marked(s.open);
    assert filled.open[..|filled.open| - 1] == front;
  }

  /** Opening a compound where a value may come next. */
  lemma OpensCompound(s: State, list: bool, compact: bool)
    requires Accepting(s.open)
    ensures var front := if s.open == [] then [] else Marked(s.open);
      var f := if list then ArrFrame(compact, [], false) else ObjFrame(compact, [], false, None);
      && Legal(s, Open(list, compact)) && After(s, Open(list, compact)) == State(s.roots, front + [f])
      && Resting(front + [f])
  {
    AfterRests(s, Open(list, compact));
  }

  /** For every value there is a legal run that builds it, from any state that takes a value. */
  lemma {:induction false} CallsBuild(s: State, v: Value)
    requires Accepting(s.open) && UniqueKeys(v) && Storable(v)
    ensures LegalRun(s, Calls(v)) && Run(s, Calls(v)) == Given(s, v)
    decreases v, 1
  {
    match v
    case Arr(compact, elems) => ArrayBuilds(s, compact, elems);
    case Obj(compact, members) => ObjectBuilds(s, compact, members);
    case _ => RunOne(s, Add(v));
  }

  lemma {:induction false} ArrayBuilds(s: State, compact: bool, elems: seq<Value>)
    requires Accepting(s.open) && UniqueKeys(Arr(compact, elems)) && Storable(Arr(compact, elems))
    ensures LegalRun(s, Calls(Arr(compact, elems))) &&
      Run(s, Calls(Arr(compact, elems))) == Given(s, Arr(compact, elems))
    decreases elems, 1
  {
    hide Run, LegalRun, Given, After, Legal, Marked, OpenOutcome, ElementCalls;
    var call := Open(true, compact);
    var front := if s.open == [] then [] else Marked(s.open);
    OpensCompound(s, true, compact);
    ElementsBuild(After(s, call), compact, elems, []);
    assert [] + elems == elems && (front + [ArrFrame(compact, [], false)])[..|front|] == front;
    ClosedIsGiven(s, Run(After(s, call), ElementCalls(elems)), ArrFrame(compact, elems, false));
    RunWrapped(s, call, ElementCalls(elems));
  }

  lemma {:induction false} ObjectBuilds(s: State, compact: bool, members: seq<Member>)
    requires Accepting(s.open) && UniqueKeys(Obj(compact, members)) && Storable(Obj(compact, members))
    ensures LegalRun(s, Calls(Obj(compact, members))) &&
      Run(s, Calls(Obj(compact, members))) == Given(s, Obj(compact, members))
    decreases members, 1
  {
    hide Run, LegalRun, Given, AddOutcome, After, Legal, Marked;
    var call := Open(false, compact);
    var front := if s.open == [] then [] else Marked(s.open);
    OpensCompound(s, false, compact);
    MembersBuild(After(s, call), compact, members, []);
    assert [] + members == members && (front + [ObjFrame(compact, [], false, None)])[..|front|] == front;
    ClosedIsGiven(s, Run(After(s, call), MemberCalls(members)), ObjFrame(compact, members, false, None));
    RunWrapped(s, call, MemberCalls(members));
  }

  lemma ElementGiven(s: State, compact: bool, done: seq<Value>, v: Value)
    requires Resting(s.open) && s.open != [] && s.open[|s.open| - 1] == ArrFrame(compact, done, false)
    ensures Accepting(s.open)
    ensures Given(s, v) == State(s.roots, s.open[..|s.open| - 1] + [ArrFrame(compact, done + [v], false)])
  {
    var m := Marked(s.open);
    assert m[..|m| - 1] == s.open[..|s.open| - 1];
  }

  lemma {:induction false} ElementsBuild(s: State, compact: bool, elems: seq<Value>, done: seq<Value>)
    requires Resting(s.open) && s.open != [] && s.open[|s.open| - 1] == ArrFrame(compact, done, false)
    requires forall i :: 0 <= i < |elems| ==> UniqueKeys(elems[i]) && Storable(elems[i])
    ensures LegalRun(s, ElementCalls(elems))
    ensures Run(s, ElementCalls(elems))
      == State(s.roots, s.open[..|s.open| - 1] + [ArrFrame(compact, done + elems, false)])
    decreases elems, 0
  {
    hide Given, Accepting, Calls, UniqueKeys, Storable, After, Legal;
    if elems == [] {
      assert done + elems == done;
      TopSplit(s.open);
    } else {
      hide Run, LegalRun;
      ElementGiven(s, compact, done, elems[0]);
      CallsBuild(s, elems[0]);
      var next := Run(s, Calls(elems[0]));
      ElementsBuild(next, compact, elems[1..], done + [elems[0]]);
      RunConcat(s, Calls(elems[0]), ElementCalls(elems[1..]));
      assert done + [elems[0]] + elems[1..] == done + elems;
      assert next.open[..|next.open| - 1] == s.open[..|s.open| - 1];
    }
  }

  /** A key and a value make a member. */
  lemma MemberGiven(s: State, compact: bool, done: seq<Member>, m: Member)
    requires Resting(s.open) && s.open != [] && s.open[|s.open| - 1] == ObjFrame(compact, done, false, None) &&
      |m.key| < Limit
    ensures Legal(s, Add(Str(m.key))) && Accepting(After(s, Add(Str(m.key))).open)
    ensures Given(After(s, Add(Str(m.key))), m.value)
      == State(s.roots, s.open[..|s.open| - 1] + [ObjFrame(compact, done + [m], false, None)])
  {
    AfterRests(s, Add(Str(m.key)));
    var keyed := After(s, Add(Str(m.key))).open;
    assert keyed[|keyed| - 1] == ObjFrame(compact, done, true, Some(m.key));
    assert Marked(keyed)[..|keyed| - 1] == s.open[..|s.open| - 1];
  }

  /** One member written, then the rest. */
  lemma MemberStep(s: State, compact: bool, done: seq<Member>, m: Member, rest: seq<Call>)
    requires Resting(s.open) && s.open != [] && s.open[|s.open| - 1] == ObjFrame(compact, done, false, None) &&
      |m.key| < Limit
    requires Legal(s, Add(Str(m.key))) && Accepting(After(s, Add(Str(m.key))).open)
    requires var keyed := After(s, Add(Str(m.key)));
      LegalRun(keyed, Calls(m.value)) && Run(keyed, Calls(m.value)) == Given(keyed, m.value)
    requires var next := State(s.roots, s.open[..|s.open| - 1] + [ObjFrame(compact, done + [m], false, None)]);
      Resting(next.open) && LegalRun(next, rest)
    ensures var next := State(s.roots, s.open[..|s.open| - 1] + [ObjFrame(compact, done + [m], false, None)]);
      LegalRun(s, [Add(Str(m.key))] + Calls(m.value) + rest)
      && Run(s, [Add(Str(m.key))] + Calls(m.value) + rest) == Run(next, rest)
  {
    hide Run, LegalRun, Legal, After, Given, Accepting, Calls, Resting;
    MemberGiven(s, compact, done, m);
    RunOne(s, Add(Str(m.key)));
    RunConcat(s, [Add(Str(m.key))], Calls(m.value));
    RunConcat(s, [Add(Str(m.key))] + Calls(m.value), rest);
  }

  lemma {:induction false} MembersBuild(s: State, compact: bool, members: seq<Member>, done: seq<Member>)
    requires Resting(s.open) && s.open != [] && s.open[|s.open| - 1] == ObjFrame(compact, done, false, None)
    requires forall i :: 0 <= i < |members| ==>
      UniqueKeys(members[i].value) && |members[i].key| < Limit && Storable(members[i].value)
    ensures LegalRun(s, MemberCalls(members))
    ensures Run(s, MemberCalls(members))
      == State(s.roots, s.open[..|s.open| - 1] + [ObjFrame(compact, done + members, false, None)])
    decreases members, 0
  {
    hide Given, Accepting, Calls, UniqueKeys, Storable, After, Legal;
    if members == [] {
      assert done + members == done;
      TopSplit(s.open);
    } else {
      hide Run, LegalRun;
      var m := members[0];
      MemberGiven(s, compact, done, m);
      CallsBuild(After(s, Add(Str(m.key))), m.value);
      var next := State(s.roots, s.open[..|s.open| - 1] + [ObjFrame(compact, done + [m], false, None)]);
      MembersBuild(next, compact, members[1..], done + [m]);
      MemberStep(s, compact, done, m, MemberCalls(members[1..]));
      assert done + [m] + members[1..] == done + members;
      assert next.open[..|next.open| - 1] == s.open[..|s.open| - 1];
    }
  }

  /** Building any value on an empty builder leaves exactly its encoding, which reads back as it if
      every length fits the width chosen for it. */
  method Build(o: Options, v: Value) returns (b: Builder)
    requires UniqueKeys(v) && Storable(v) && |Encode(o, v)| < Limit
    ensures fresh(b) && b.Valid() && b.open == [] && b.roots == [v]
    ensures b.Content() == Encode(o, v) && (Roomy(o, v) ==> Reads(b.Content(), 0, v))
  {
    hide Encode, Reads, Calls, Roomy;
    b := new Builder(o);
    CallsBuild(Initial, v);
    Execute(b, Calls(v));
    EveryRunReadsBack(o, Calls(v), v);
  }
}
