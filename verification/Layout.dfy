/** Facts about the compound layouts that readers, builder and validator share. */
module Layout {
  import opened Bytes
  import opened Format

  lemma {:induction false} TableHas(offs: seq<nat>, base: nat, w: nat, i: nat)
    requires i < |offs|
    ensures Has(Table(offs, base, w), i * w, LE(base + offs[i], w))
  {
    var front := offs[..|offs| - 1];
    var t := Table(offs, base, w);
    assert Has(t, 0, t);
    HasConcat(t, 0, Table(front, base, w), LE(base + offs[|offs| - 1], w));
    if i < |front| {
      TableHas(front, base, w, i);
      HasSlice(t, 0, Table(front, base, w), i * w, LE(base + offs[i], w));
    }
  }

  /** With padding in any case, the width of a compound with a table is chosen as if the members
      were moved down, which they are not: a length from 256 to 261 bytes does not fit the one
      byte it gets. */
  predicate Room(o: Options, body: nat, n: nat) {
    o.padding == UsePadding ==> !(0x100 <= 9 + body + n <= 0x105)
  }

  predicate ArrayRoom(o: Options, compact: bool, ms: seq<seq<Byte>>) {
    || ms == [] || SameSize(ms) || ((compact || o.unindexedArrays) && CompactFits(|Flatten(ms)|, |ms|))
    || Room(o, |Flatten(ms)|, |ms|)
  }

  predicate ObjectRoom(o: Options, compact: bool, ms: seq<seq<Byte>>) {
    || ms == [] || ((compact || o.unindexedObjects || |ms| == 1) && CompactFits(|Flatten(ms)|, |ms|))
    || Room(o, |Flatten(ms)|, |ms|)
  }

  /** No compound in `v` has a length that does not fit the width chosen for it. */
  ghost predicate Roomy(o: Options, v: Value) {
    match v
    case Arr(compact, elems) =>
      ArrayRoom(o, compact, EncodeAll(o, elems)) && forall i :: 0 <= i < |elems| ==> Roomy(o, elems[i])
    case Obj(compact, members) =>
      ObjectRoom(o, compact, EncodeMembers(o, members)) && forall i :: 0 <= i < |members| ==>
        Roomy(o, members[i].value)
    case _ => true
  }

  /** In the other two padding modes every value is such. */
  lemma {:induction false} RoomyUnlessPadded(o: Options, v: Value)
    requires o.padding != UsePadding
    ensures Roomy(o, v)
    decreases v
  {
    match v
    case Arr(compact, elems) =>
      forall i | 0 <= i < |elems| ensures Roomy(o, elems[i]) { RoomyUnlessPadded(o, elems[i]); }
    case Obj(compact, members) =>
      forall i | 0 <= i < |members| ensures Roomy(o, members[i].value) { RoomyUnlessPadded(o, members[i].value); }
    case _ =>
  }

  predicate IndexedShape(w: nat, data: nat, body: nat, table: bool, n: nat, offs: seq<nat>) {
    && w in {1, 2, 4, 8}
    && 1 + (if table && w < 8 then 2 * w else w) <= data <= 9
    && IndexedLength(data, w, body, table, n) < Pow256(w)
    && n <= body
    && (table ==> |offs| == n && forall i :: 0 <= i < n ==> offs[i] <= body)
  }

  function Tail(data: nat, w: nat, table: bool, n: nat, offs: seq<nat>): seq<Byte> {
    if table then Table(offs, data, w) + (if w == 8 then LE(n, 8) else []) else []
  }

  lemma IndexedParts(b: seq<Byte>, p: nat, head: Byte, w: nat, data: nat, body: seq<Byte>, table: bool, n: nat,
      offs: seq<nat>)
    requires IndexedShape(w, data, |body|, table, n, offs)
    requires Has(b, p, IndexedBytes(head, w, data, body, table, n, offs))
    ensures var header := IndexedHeader(head, w, IndexedLength(data, w, |body|, table, n), table, n);
      && |header| <= data
      && Has(b, p, header)
      && Has(b, p + |header|, Zeros(data - |header|))
      && Has(b, p + data, body)
      && Has(b, p + data + |body|, Tail(data, w, table, n, offs))
  {
    var header := IndexedHeader(head, w, IndexedLength(data, w, |body|, table, n), table, n);
    var pad := Zeros(data - |header|);
    var tail := Tail(data, w, table, n, offs);
    assert IndexedBytes(head, w, data, body, table, n, offs) == header + pad + body + tail;
    HasConcat(b, p, header + pad + body, tail);
    HasConcat(b, p, header + pad, body);
    HasConcat(b, p, header, pad);
  }

  lemma HeaderLength(head: Byte, w: nat, total: nat, table: bool, n: nat)
    ensures |IndexedHeader(head, w, total, table, n)| == 1 + (if table && w < 8 then 2 * w else w)
  {
  }

  lemma HeaderReads(b: seq<Byte>, p: nat, head: Byte, w: nat, total: nat, table: bool, n: nat)
    requires w in {1, 2, 4, 8} && total < Pow256(w) && n < Pow256(w)
    requires Has(b, p, IndexedHeader(head, w, total, table, n))
    ensures At(b, p) == head && ReadLE(b, p + 1, w) == total
    ensures table && w < 8 ==> ReadLE(b, p + 1 + w, w) == n
  {
    HasConcat(b, p, [head] + LE(total, w), if table && w < 8 then LE(n, w) else []);
    HasConcat(b, p, [head], LE(total, w));
    HeadAt(b, p, head);
    ReadLEOfLE(b, p + 1, total, w);
    if table && w < 8 { ReadLEOfLE(b, p + 1 + w, n, w); }
  }

  lemma TailReads(b: seq<Byte>, p: nat, data: nat, w: nat, n: nat, offs: seq<nat>)
    requires |offs| == n && n < Pow256(8)
    requires Has(b, p, Tail(data, w, true, n, offs))
    ensures Has(b, p, Table(offs, data, w))
    ensures w == 8 ==> ReadLE(b, p + n * w, 8) == n
  {
    HasConcat(b, p, Table(offs, data, w), if w == 8 then LE(n, 8) else []);
    if w == 8 { ReadLEOfLE(b, p + n * w, n, 8); }
  }

  lemma ZerosRead(b: seq<Byte>, p: nat, k: nat)
    requires Has(b, p, Zeros(k))
    ensures forall q :: p <= q < p + k ==> At(b, q) == 0
  {
    HasBytes(b, p, Zeros(k));
    forall q | p <= q < p + k ensures At(b, q) == 0 {
      assert At(b, p + (q - p)) == Zeros(k)[q - p];
    }
  }

  /** Everything a reader needs to find its way in a compound with fixed-width header. */
  lemma IndexedReads(b: seq<Byte>, p: nat, head: Byte, w: nat, data: nat, body: seq<Byte>, table: bool, n: nat,
      offs: seq<nat>)
    requires IndexedShape(w, data, |body|, table, n, offs)
    requires Has(b, p, IndexedBytes(head, w, data, body, table, n, offs))
    ensures var total := IndexedLength(data, w, |body|, table, n);
      && At(b, p) == head
      && ReadLE(b, p + 1, w) == total
      && Has(b, p + data, body)
      && (table && w < 8 ==> ReadLE(b, p + 1 + w, w) == n)
      && (table && w == 8 ==> ReadLE(b, p + total - 8, 8) == n)
      && (forall q :: p + 1 + (if table && w < 8 then 2 * w else w) <= q < p + data ==> At(b, q) == 0)
      && (table ==> Has(b, p + data + |body|, Table(offs, data, w)))
  {
    hide IndexedBytes, Has, LE, Table, Zeros, IndexedHeader, Tail, ReadLE;
    var total := IndexedLength(data, w, |body|, table, n);
    var header := IndexedHeader(head, w, total, table, n);
    IndexedParts(b, p, head, w, data, body, table, n, offs);
    HeaderReads(b, p, head, w, total, table, n);
    HeaderLength(head, w, total, table, n);
    ZerosRead(b, p + |header|, data - |header|);
    if table {
      Pow256Monotone(w, 8);
      TailReads(b, p + data + |body|, data, w, n, offs);
    }
  }

  /** Entry `i` of the index table is the position of its member. */
  lemma TableReads(b: seq<Byte>, p: nat, offs: seq<nat>, data: nat, w: nat, i: nat)
    requires i < |offs| && data + offs[i] < Pow256(w)
    requires Has(b, p, Table(offs, data, w))
    ensures ReadLE(b, p + i * w, w) == data + offs[i]
  {
    TableHas(offs, data, w, i);
    HasSlice(b, p, Table(offs, data, w), i * w, LE(data + offs[i], w));
    ReadLEOfLE(b, p + i * w, data + offs[i], w);
  }

  lemma CompactReads(b: seq<Byte>, p: nat, head: Byte, body: seq<Byte>, n: nat)
    requires Has(b, p, CompactBytes(head, body, n))
    ensures var size := CompactLength(|body|, n);
      && |CompactBytes(head, body, n)| == size
      && At(b, p) == head
      && ReadVar(b, p + 1) == size
      && Has(b, p + 1 + VarLen(size), body)
      && Has(b, p + 1 + VarLen(size) + |body|, VarRev(n))
      && ReadVarRev(b, p + size - 1) == n
  {
    hide CompactLength, Var, VarRev, VarLen, Has;
    var size := CompactLength(|body|, n);
    CompactLengthIsExact(|body|, n);
    HasConcat(b, p, [head] + Var(size) + body, VarRev(n));
    HasConcat(b, p, [head] + Var(size), body);
    HasConcat(b, p, [head], Var(size));
    HeadAt(b, p, head);
    ReadVarOfVar(b, p + 1, size);
    ReadVarRevOfVarRev(b, p + 1 + VarLen(size) + |body|, n);
  }

  /** The space left for the byte length is exactly the space its LEB128 form takes. */
  lemma CompactLengthIsExact(body: nat, n: nat)
    ensures CompactLength(body, n) == 1 + body + VarLen(n) + VarLen(CompactLength(body, n))
    ensures var size := 1 + body + VarLen(n); VarLen(size) <= VarLen(CompactLength(body, n)) <= VarLen(size) + 1
  {
    var size := 1 + body + VarLen(n);
    VarLenSmall(size);
    VarLenSmall(size + VarLen(size));
    VarLenMonotone(size, size + VarLen(size));
    VarLenMonotone(size, CompactLength(body, n));
    VarLenMonotone(CompactLength(body, n) / 0x80, size);
    VarLenMonotone(size + VarLen(size), CompactLength(body, n));
  }
}
