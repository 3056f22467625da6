/** What the builder's buffer holds while compounds are open. */
module Frames {
  import opened Bytes
  import opened Format
  import opened Slice
  import opened Layout
  import opened Wrappers

  /** An open compound. `pending`: the start of the next member has been recorded, but the
      member is not complete; for an object its key may already be written. */
  datatype Frame =
    | ArrFrame(compact: bool, elems: seq<Value>, pending: bool)
    | ObjFrame(compact: bool, members: seq<Member>, pending: bool, key: Option<seq<Byte>>)

  function FrameHead(f: Frame): Byte {
    match f
    case ArrFrame(compact, _, _) => if compact then 0x13 else 0x06
    case ObjFrame(compact, _, _, _) => if compact then 0x14 else 0x0b
  }

  function FrameParts(o: Options, f: Frame): (r: seq<seq<Byte>>)
    ensures forall i :: 0 <= i < |r| ==> |r[i]| >= 1
  {
    match f
    case ArrFrame(_, elems, _) => EncodeAll(o, elems)
    case ObjFrame(_, members, _, _) => EncodeMembers(o, members)
  }

  function FrameTail(f: Frame): seq<Byte> {
    if f.ObjFrame? && f.key.Some? then EncodeString(f.key.value) else []
  }

  /** Type byte, eight reserved bytes, the complete members, the key being worked on. */
  function FrameBytes(o: Options, f: Frame): seq<Byte> {
    [FrameHead(f)] + Zeros(8) + Flatten(FrameParts(o, f)) + FrameTail(f)
  }

  function FramesBytes(o: Options, fs: seq<Frame>): seq<Byte> {
    if fs == [] then [] else FramesBytes(o, fs[..|fs| - 1]) + FrameBytes(o, fs[|fs| - 1])
  }

  function RootBytes(o: Options, roots: seq<Value>): seq<Byte> {
    Flatten(EncodeAll(o, roots))
  }

  /** The offset list of an open compound: one entry per member, relative to the compound. */
  function Reported(o: Options, f: Frame): (r: seq<nat>) {
    Recorded(FrameParts(o, f), f.pending)
  }

  /** A value may be written here: at top level, as the next element, or behind its key. */
  predicate Ready(open: seq<Frame>) {
    open == [] || Awaiting(open[|open| - 1])
  }

  predicate Awaiting(f: Frame) {
    f.pending && (f.ObjFrame? ==> f.key.Some?)
  }

  predicate WellFormed(f: Frame) {
    f.ObjFrame? ==>
      && (f.key.Some? ==> f.pending && |f.key.value| < Limit)
      && forall i :: 0 <= i < |f.members| ==> |f.members[i].key| < Limit
  }

  function Complete(f: Frame, v: Value): Frame
    requires Awaiting(f)
  {
    match f
    case ArrFrame(compact, elems, _) => ArrFrame(compact, elems + [v], false)
    case ObjFrame(compact, members, _, key) => ObjFrame(compact, members + [Member(key.value, v)], false, None)
  }

  function FrameValue(f: Frame): Value {
    match f
    case ArrFrame(compact, elems, _) => Arr(compact, elems)
    case ObjFrame(compact, members, _, _) => Obj(compact, members)
  }

  function AddRoot(roots: seq<Value>, open: seq<Frame>, v: Value): seq<Value> {
    if open == [] then roots + [v] else roots
  }

  function AddOpen(open: seq<Frame>, v: Value): (r: seq<Frame>)
    requires Ready(open)
    ensures |r| == |open|
  {
    if open == [] then [] else open[..|open| - 1] + [Complete(open[|open| - 1], v)]
  }

  // ---------------------------------------------------------------- growth

  lemma EncodeAllSnoc(o: Options, vs: seq<Value>, v: Value)
    ensures EncodeAll(o, vs + [v]) == EncodeAll(o, vs) + [Encode(o, v)]
  {
  }

  lemma EncodeMembersSnoc(o: Options, ms: seq<Member>, m: Member)
    ensures EncodeMembers(o, ms + [m]) == EncodeMembers(o, ms) + [EncodeString(m.key) + Encode(o, m.value)]
  {
  }

  /** The offset list recorded for `parts` members, of which one may be incomplete. */
  function Recorded(parts: seq<seq<Byte>>, pending: bool): (r: seq<nat>) {
    seq(|parts| + (if pending then 1 else 0),
        i requires 0 <= i < |parts| + (if pending then 1 else 0) => 9 + Start(parts, i))
  }

  lemma RecordedSnoc(parts: seq<seq<Byte>>, part: seq<Byte>)
    ensures Recorded(parts + [part], false) == Recorded(parts, true)
  {
    hide Start;
    forall i | 0 <= i <= |parts| ensures Start(parts + [part], i) == Start(parts, i) {
      StartOfPrefix(parts + [part], |parts|, i);
      assert (parts + [part])[..|parts|] == parts;
    }
  }

  function HeadBytes(f: Frame): seq<Byte> {
    [FrameHead(f)] + Zeros(8)
  }

  lemma CompleteParts(o: Options, f: Frame, v: Value)
    requires Awaiting(f)
    ensures FrameParts(o, Complete(f, v)) == FrameParts(o, f) + [FrameTail(f) + Encode(o, v)]
  {
    hide Encode, EncodeString;
    match f
    case ArrFrame(_, elems, _) =>
      EncodeAllSnoc(o, elems, v);
      assert [] + Encode(o, v) == Encode(o, v);
    case ObjFrame(_, members, _, key) =>
      EncodeMembersSnoc(o, members, Member(key.value, v));
  }

  lemma Concat4(a: seq<Byte>, b: seq<Byte>, c: seq<Byte>, d: seq<Byte>)
    ensures a + (b + (c + d)) == a + b + c + d
  {
  }

  /** Completing a member appends exactly its encoding. */
  lemma CompleteBytes(o: Options, f: Frame, v: Value)
    requires Awaiting(f)
    ensures FrameBytes(o, Complete(f, v)) == FrameBytes(o, f) + Encode(o, v)
    ensures Reported(o, Complete(f, v)) == Reported(o, f)
    ensures FrameHead(Complete(f, v)) == FrameHead(f)
  {
    hide Encode, EncodeString, Flatten, FrameParts, Start, FrameTail;
    var parts, g := FrameParts(o, f), Complete(f, v);
    CompleteParts(o, f, v);
    FlattenSnoc(parts, FrameTail(f) + Encode(o, v));
    RecordedSnoc(parts, FrameTail(f) + Encode(o, v));
    assert FrameTail(g) == [] by { EmptyTail(g); }
    assert FrameBytes(o, g) == HeadBytes(f) + (Flatten(parts) + (FrameTail(f) + Encode(o, v)));
    Concat4(HeadBytes(f), Flatten(parts), FrameTail(f), Encode(o, v));
  }

  lemma EmptyTail(f: Frame)
    requires f.ObjFrame? ==> f.key == None
    ensures FrameTail(f) == []
  {
  }

  lemma FramesSnoc(o: Options, fs: seq<Frame>, f: Frame)
    ensures FramesBytes(o, fs + [f]) == FramesBytes(o, fs) + FrameBytes(o, f)
  {
    assert (fs + [f])[..|fs|] == fs;
  }

  function Expected(o: Options, roots: seq<Value>, open: seq<Frame>): seq<Byte> {
    RootBytes(o, roots) + FramesBytes(o, open)
  }

  /** Where the open compound `d` begins in the buffer. */
  function Base(o: Options, roots: seq<Value>, open: seq<Frame>, d: nat): nat
    requires d <= |open|
  {
    |RootBytes(o, roots)| + |FramesBytes(o, open[..d])|
  }

  /** Finishing a value appends its encoding, at top level or inside the innermost compound. */
  lemma AddBytes(o: Options, roots: seq<Value>, open: seq<Frame>, v: Value)
    requires Ready(open)
    ensures Expected(o, AddRoot(roots, open, v), AddOpen(open, v)) == Expected(o, roots, open) + Encode(o, v)
  {
    hide Encode, FrameBytes, Complete;
    if open == [] {
      EncodeAllSnoc(o, roots, v);
      FlattenSnoc(EncodeAll(o, roots), Encode(o, v));
    } else {
      var front, f := open[..|open| - 1], open[|open| - 1];
      assert open == front + [f];
      CompleteBytes(o, f, v);
      FramesSnoc(o, front, f);
      FramesSnoc(o, front, Complete(f, v));
    }
  }
}
