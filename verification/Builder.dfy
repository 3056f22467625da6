/** The builder: one growing buffer, a stack of open compounds and an offset list for each. */
module Builder {
  import opened Bytes
  import opened Format
  import opened Layout
  import opened Slice
  import opened Sorting
  import opened Frames
  import opened SortIndex
  import opened RoundTrip
  import opened Wrappers

  datatype BuilderError = NeedOpenCompound | NeedOpenObject | NeedOpenArray | KeyAlreadyWritten | KeyMustBeString

  class Builder {
    const options: Options
    var start: seq<Byte>        // reserved memory
    var pos: nat                // append position
    var stack: seq<nat>         // where the open compounds begin
    var index: seq<seq<nat>>    // member starts of the open compounds, relative to them
    var keyWritten: bool
    ghost var roots: seq<Value> // values finished at top level
    ghost var open: seq<Frame>  // compounds not yet closed

    ghost function Content(): seq<Byte>
      reads this
      requires pos <= |start|
    {
      start[..pos]
    }

    /** Stack and offset lists mirror the open compounds. */
    ghost predicate Shape()
      reads this
    {
      && pos <= |start|
      && |stack| == |open| <= |index|
      && (forall d :: 0 <= d < |open| ==> stack[d] == Base(options, roots, open, d))
      && (forall d :: 0 <= d < |open| ==> index[d] == Reported(options, open[d]))
      && (forall d :: 0 <= d < |open| ==> WellFormed(open[d]))
      && (forall d :: 0 <= d < |open| - 1 ==> Awaiting(open[d]))
    }

    /** In every reachable state the buffer is the finished values followed by the open compounds. */
    ghost predicate Valid()
      reads this
    {
      Shape() && Content() == Expected(options, roots, open)
    }

    /** The key flag is raised exactly while the innermost object waits for a value. */
    ghost predicate Flagged()
      reads this
    {
      keyWritten <==> open != [] && open[|open| - 1].ObjFrame? && open[|open| - 1].key.Some?
    }

    constructor (options: Options)
      ensures Valid() && Flagged() && roots == [] && open == [] && this.options == options
    {
      this.options := options;
      start, pos, stack, index, keyWritten := [], 0, [], [], false;
      roots, open := [], [];
    }

    // -------------------------------------------------------------- raw appending

    method Reserve(n: nat)
      requires pos <= |start|
      modifies this`start
      ensures |start| >= pos + n && start[..pos] == old(start[..pos])
    {
      if pos + n > |start| {
        start := start + Zeros(pos + n - |start|);
      }
    }

    method AppendByte(x: Byte)
      requires pos <= |start|
      modifies this`start, this`pos
      ensures pos <= |start| && Content() == old(Content()) + [x]
    {
      Reserve(1);
      start := Put(start, pos, [x]);
      pos := pos + 1;
    }

    /** memcpy to the append position. */
    method AppendBytes(t: seq<Byte>)
      requires pos <= |start|
      modifies this`start, this`pos
      ensures pos <= |start| && Content() == old(Content()) + t
    {
      Reserve(|t|);
      start := Put(start, pos, t);
      pos := pos + |t|;
    }

    method AppendLength(v: nat, n: nat)
      requires pos <= |start|
      modifies this`start, this`pos
      ensures pos <= |start| && Content() == old(Content()) + LE(v, n)
    {
      var x, i := v, 0;
      while i < n
        invariant i <= n && pos <= |start|
        invariant Content() == old(Content()) + LE(v, i)
        invariant BytesFrom(v, x, i)
      {
        LESnoc(v, i);
        Shifted(v, x, i);
        AppendByte(x % 256);
        x := x / 256;
        i := i + 1;
      }
    }

    /** Unsigned integer: the byte count is patched into the type byte after the digits. */
    method AppendUInt(v: UInt64, base: nat)
      requires pos <= |start| && base + 8 < 256
      modifies this`start, this`pos
      ensures pos <= |start| && Content() == old(Content()) + [base + UIntWidth(v)] + LE(v, UIntWidth(v))
    {
      Reserve(9);
      var save := pos;
      ghost var before := Content();
      pos := pos + 1;
      ghost var type0 := start[save];
      assert Content() == before + [type0];
      var x, vSize := v, 1;
      AppendByte(x % 256);
      x := x / 256;
      LECons(v, 1);
      Shifted(v, v, 0);
      hide LE, BytesFrom;
      while x != 0
        invariant pos <= |start| && vSize >= 1 && x >= 0
        invariant Content() == before + [type0] + LE(v, vSize)
        invariant BytesFrom(v, x, vSize)
        invariant UIntWidth(v) == vSize + (if x == 0 then 0 else UIntWidth(x))
        decreases x
      {
        LESnoc(v, vSize);
        Shifted(v, x, vSize);
        AppendByte(x % 256);
        x := x / 256;
        vSize := vSize + 1;
      }
      WidthAtMost8(v);
      TypePatched(start, pos, before, type0, LE(v, vSize), base + vSize);
      start := Put(start, save, [base + vSize]);
    }

    /** Signed integer in the fewest bytes, two's complement. */
    method AppendInt(v: Int64, base: nat)
      requires pos <= |start| && base + 8 < 256
      modifies this`start, this`pos
      ensures pos <= |start| && Content() == old(Content()) + [base + IntWidth(v)] + LE(v, IntWidth(v))
    {
      var vSize := IntLength(v);
      assert vSize <= 8 by { Pow256Values(); IntWidthLeast(v, 8); }
      IntWidthFits(v);
      var x := if v >= 0 then v else v + Pow256(vSize);
      LEWraps(v, vSize);
      AppendByte(base + vSize);
      AppendLength(x, vSize);
    }

    method AddInt(v: Int64)
      requires pos <= |start|
      modifies this`start, this`pos
      ensures pos <= |start| && Content() == old(Content()) + EncodeInt(v)
    {
      if 0 <= v <= 9 {
        AppendByte(0x30 + v);
      } else if -6 <= v < 0 {
        AppendByte(0x40 + v);
      } else {
        ghost var before := Content();
        AppendInt(v, 0x1f);
        assert Content() == before + ([0x1f + IntWidth(v)] + LE(v, IntWidth(v)));
      }
    }

    method AddUInt(v: UInt64)
      requires pos <= |start|
      modifies this`start, this`pos
      ensures pos <= |start| && Content() == old(Content()) + EncodeUInt(v)
    {
      if v <= 9 {
        AppendByte(0x30 + v);
      } else {
        ghost var before := Content();
        AppendUInt(v, 0x27);
        assert Content() == before + ([0x27 + UIntWidth(v)] + LE(v, UIntWidth(v)));
      }
    }

    method AddString(s: seq<Byte>)
      requires pos <= |start|
      modifies this`start, this`pos
      ensures pos <= |start| && Content() == old(Content()) + EncodeString(s)
    {
      ghost var before := Content();
      if |s| <= 126 {
        AppendByte(0x40 + |s|);
        AppendBytes(s);
        assert Content() == before + ([0x40 + |s|] + s);
      } else {
        AppendByte(0xbf);
        AppendLength(|s|, 8);
        AppendBytes(s);
        assert Content() == before + ([0xbf] + LE(|s|, 8) + s);
      }
    }

    /** Builder::set for everything but arrays and objects. */
    method SetScalar(v: Value)
      requires pos <= |start| && !v.Arr? && !v.Obj?
      modifies this`start, this`pos
      ensures pos <= |start| && Content() == old(Content()) + Encode(options, v)
    {
      ghost var before := Content();
      match v
      case Null => AppendByte(0x18);
      case Bool(f) => if f { AppendByte(0x1a); } else { AppendByte(0x19); }
      case Double(bits) =>
        AppendByte(0x1b);
        AppendLength(bits, 8);
        assert Content() == before + ([0x1b] + LE(bits, 8));
      case Int(i) => AddInt(i);
      case UInt(u) => AddUInt(u);
      case Str(s) => AddString(s);
    }

    // -------------------------------------------------------------- patching

    /** storeVariableValueLength<false>. */
    method StoreVar(at: nat, value: nat)
      requires at + VarLen(value) <= |start|
      modifies this`start
      ensures start == Put(old(start), at, Var(value))
    {
      hide Put, Has;
      var x: nat, dst := value, at;
      ghost var done: seq<Byte> := [];
      NothingWritten(start, at);
      while x >= 0x80
        invariant dst == at + |done|
        invariant done + Var(x) == Var(value)
        invariant Written(old(start), start, at, done)
        decreases x
      {
        WrittenSnoc(old(start), start, at, done, 0x80 + x % 0x80);
        start := Put(start, dst, [0x80 + x % 0x80]);
        assert done + Var(x) == (done + [0x80 + x % 0x80]) + Var(x / 0x80);
        done := done + [0x80 + x % 0x80];
        x := x / 0x80;
        dst := dst + 1;
      }
      WrittenSnoc(old(start), start, at, done, x);
      start := Put(start, dst, [x]);
      WrittenIsPut(old(start), start, at, Var(value));
    }

    /** storeVariableValueLength<true>: `at` is the last byte. */
    method StoreVarRev(at: nat, value: nat)
      requires at < |start| && VarLen(value) <= at + 1
      modifies this`start
      ensures start == Put(old(start), at + 1 - VarLen(value), VarRev(value))
    {
      hide Put, Has;
      var x: nat, dst := value, at;
      ghost var done: seq<Byte> := [];
      NothingWritten(start, at + 1);
      while x >= 0x80
        invariant dst + |done| == at
        invariant VarRev(x) + done == VarRev(value)
        invariant Written(old(start), start, dst + 1, done)
        decreases x
      {
        WrittenCons(old(start), start, dst, done, 0x80 + x % 0x80);
        start := Put(start, dst, [0x80 + x % 0x80]);
        assert VarRev(x) + done == VarRev(x / 0x80) + ([0x80 + x % 0x80] + done);
        done := [0x80 + x % 0x80] + done;
        x := x / 0x80;
        dst := dst - 1;
      }
      WrittenCons(old(start), start, dst, done, x);
      start := Put(start, dst, [x]);
      WrittenIsPut(old(start), start, dst, VarRev(value));
    }

    /** The loop that writes `w` bytes of a number at a fixed place. */
    method StoreLE(at: nat, value: nat, w: nat)
      requires at + w <= |start|
      modifies this`start
      ensures start == Put(old(start), at, LE(value, w))
    {
      hide Put, Has;
      var x: nat, i := value, 0;
      NothingWritten(start, at);
      assert LE(value, 0) == [];
      while i < w
        invariant i <= w
        invariant Written(old(start), start, at, LE(value, i))
        invariant BytesFrom(value, x, i)
      {
        LESnoc(value, i);
        Shifted(value, x, i);
        WrittenSnoc(old(start), start, at, LE(value, i), x % 256);
        start := Put(start, at + i, [x % 256]);
        x := x / 256;
        i := i + 1;
      }
      WrittenIsPut(old(start), start, at, LE(value, w));
    }

    // -------------------------------------------------------------- closing

    /** memmove of the member bytes down to `target`, keeping what stands before. */
    method MoveDown(tos: nat, target: nat, ghost pre: seq<Byte>, head: Byte, ghost body: seq<Byte>)
      requires |pre| == tos < target <= tos + 9 && tos + 9 + |body| == pos <= |start|
      requires Has(start, 0, pre) && Has(start, tos, [head]) && Has(start, tos + 9, body)
      modifies this`start
      ensures |start| == |old(start)|
      ensures Has(start, 0, pre) && Has(start, tos, [head]) && Has(start, target, body)
    {
      hide Put, Has;
      if pos > tos + 9 {
        ghost var s := start;
        HasSlices(start, tos + 9, body);
        start := Put(start, target, start[tos + 9..pos]);
        Wrote(s, target, body, 0, pre, tos, [head]);
      } else {
        HasNothing(start, target, body);
      }
    }

    method CompactFront(tos: nat, head: Byte, byteSize: nat, ghost pre: seq<Byte>, ghost body: seq<Byte>)
      requires |pre| == tos && tos + 9 + |body| == pos <= |start| && VarLen(byteSize) < 9
      requires Has(start, 0, pre) && Has(start, tos + 9, body)
      modifies this`start
      ensures |start| == |old(start)|
      ensures Has(start, 0, pre) && Has(start, tos, [head]) && Has(start, tos + 1, Var(byteSize))
      ensures Has(start, tos + 1 + VarLen(byteSize), body)
    {
      hide Put, Has, Var, VarLen;
      ghost var s := start;
      start := Put(start, tos, [head]);
      Wrote(s, tos, [head], 0, pre, tos + 9, body);
      var target := tos + 1 + VarLen(byteSize);
      MoveDown(tos, target, pre, head, body);
      s := start;
      StoreVar(tos + 1, byteSize);
      Wrote(s, tos + 1, Var(byteSize), 0, pre, tos, [head]);
      PutKeeps(s, tos + 1, Var(byteSize), target, body);
    }

    method CompactBack(tos: nat, n: nat, byteSize: nat, bLen: nat, ghost front: seq<Byte>)
      requires |front| <= pos <= |start| && Has(start, 0, front) && bLen <= 8
      requires tos + byteSize == |front| + VarLen(n) && tos + byteSize + 8 == pos + VarLen(n) + bLen
      modifies this`start
      ensures tos + byteSize <= |start| && pos <= |start| && Has(start, 0, front + VarRev(n))
    {
      hide Put, Has, VarRev, VarLen;
      var nLen := VarLen(n);
      if nLen > 8 - bLen {
        Reserve(nLen);
      }
      HasBelow(old(start), start, pos, 0, front);
      ghost var s := start;
      StoreVarRev(tos + byteSize - 1, n);
      Wrote(s, |front|, VarRev(n), 0, front, 0, front);
      HasConcat(start, 0, front, VarRev(n));
    }

    /** Builder::closeCompactArrayOrObject; gives up when the byte length needs more than 8 bytes. */
    method CloseCompact(tos: nat, isArray: bool, idx: seq<nat>, ghost pre: seq<Byte>, ghost body: seq<Byte>)
      returns (ok: bool)
      requires |pre| == tos && tos + 9 + |body| == pos <= |start| && idx != []
      requires Has(start, 0, pre) && Has(start, tos + 9, body)
      modifies this`start, this`pos
      ensures pos <= |start| && ok == CompactFits(|body|, |idx|)
      ensures ok ==> Content() == pre + CompactBytes(if isArray then 0x13 else 0x14, body, |idx|)
      ensures !ok ==> start == old(start) && pos == old(pos)
    {
      hide Put, Has, Var, VarRev, VarLen, CompactLength, CompactBytes;
      var nLen := VarLen(|idx|);
      var byteSize := pos - (tos + 8) + nLen;
      var bLen := VarLen(byteSize);
      byteSize := byteSize + bLen;
      if VarLen(byteSize) != bLen {
        byteSize := byteSize + 1;
        bLen := bLen + 1;
      }
      CompactSteps(|body|, |idx|, byteSize, bLen);
      if bLen >= 9 {
        return false;
      }
      var head: Byte := if isArray then 0x13 else 0x14;
      CompactFront(tos, head, byteSize, pre, body);
      ghost var front := pre + [head] + Var(byteSize) + body;
      Joined4(start, pre, [head], Var(byteSize), body);
      CompactBack(tos, |idx|, byteSize, bLen, front);
      pos := pos - 8;
      pos := pos + nLen + bLen;
      HasSlices(start, 0, front + VarRev(|idx|));
      CompactJoin(pre, head, body, |idx|);
      return true;
    }

    /** Whether the members of an array have different sizes, from their recorded starts alone. */
    method NeedsIndexTable(tos: nat, idx: seq<nat>, ghost ms: seq<seq<Byte>>) returns (table: bool)
      requires ms != [] && idx == Recorded(ms, false) && pos == tos + 9 + |Flatten(ms)|
      ensures table == !SameSize(ms)
    {
      hide Flatten, Start;
      var n := |idx|;
      PartSizes(ms);
      if n == 1 {
        return false;
      }
      if (pos - tos) - idx[0] != n * (idx[1] - idx[0]) {
        if SameSize(ms) { SameSizeLength(ms); }
        return true;
      }
      var subLen := idx[1] - idx[0];
      assert subLen == |ms[0]|;
      if (pos - tos) - idx[n - 1] != subLen {
        assert |ms[n - 1]| != |ms[0]|;
        return true;
      }
      var i := 1;
      while i < n - 1
        invariant 1 <= i <= n - 1
        invariant forall k :: 0 <= k < i ==> |ms[k]| == |ms[0]|
      {
        if idx[i + 1] - idx[i] != subLen {
          assert |ms[i]| != |ms[0]|;
          return true;
        }
        i := i + 1;
      }
      assert |ms[n - 1]| == subLen;
      return false;
    }

    /** The loop that writes the index table behind the members. */
    method WriteTable(idx: seq<nat>, w: nat, data: nat, ghost offs: seq<nat>)
      requires pos <= |start| && |offs| == |idx| && forall i :: 0 <= i < |idx| ==> idx[i] == data + offs[i]
      modifies this`start, this`pos
      ensures pos <= |start| && Content() == old(Content()) + Table(offs, data, w)
    {
      ghost var before := Content();
      var i := 0;
      assert offs[..0] == [];
      while i < |idx|
        invariant i <= |idx| && pos <= |start|
        invariant Content() == before + Table(offs[..i], data, w)
      {
        TableSnoc(offs, i, data, w);
        AppendLength(idx[i], w);
        i := i + 1;
      }
      assert offs[..|idx|] == offs;
    }

    /** Type byte, byte length and member count, patched in at the end. */
    method FixHeader(tos: nat, head: Byte, w: nat, n: nat, table: bool)
      requires w in {1, 2, 4, 8} && tos <= pos <= |start|
      requires tos + 1 + (if table && w < 8 then 2 * w else w) <= |start|
      modifies this`start
      ensures start == Put(old(start), tos, IndexedHeader(head, w, pos - tos, table, n))
    {
      hide Put, LE;
      start := Put(start, tos, [head]);
      StoreLE(tos + 1, pos - tos, w);
      PutPut(old(start), tos, [head], LE(pos - tos, w));
      if table && w < 8 {
        StoreLE(tos + 1 + w, n, w);
        PutPut(old(start), tos, [head] + LE(pos - tos, w), LE(n, w));
      } else {
        assert [head] + LE(pos - tos, w) + [] == [head] + LE(pos - tos, w);
      }
    }

    /** Index table, and for 8-byte numbers the member count behind it. */
    method WriteTail(idx: seq<nat>, w: nat, data: nat, table: bool, ghost offs: seq<nat>)
      requires pos <= |start| && |offs| == |idx| && (table ==> forall i :: 0 <= i < |idx| ==> idx[i] == data + offs[i])
      modifies this`start, this`pos
      ensures pos <= |start|
      ensures Content() == old(Content()) + Tail(data, w, table, |idx|, offs)
      ensures pos == old(pos) + |Tail(data, w, table, |idx|, offs)|
      ensures Has(start, old(pos), Tail(data, w, table, |idx|, offs)) && start[..old(pos)] == old(start[..pos])
    {
      hide LE, Table, Has;
      if table {
        WriteTable(idx, w, data, offs);
        if w == 8 {
          AppendLength(|idx|, 8);
        }
      }
      Extended(old(start), old(pos), start, pos, Tail(data, w, table, |idx|, offs));
    }

    /** What closeArray and close share: write the table, patch the header. */
    method CloseIndexed(tos: nat, base: Byte, idx: seq<nat>, w: nat, data: nat, table: bool,
                        ghost pre: seq<Byte>, ghost body: seq<Byte>, ghost offs: seq<nat>)
      requires |pre| == tos && tos + data + |body| == pos <= |start| && w in {1, 2, 4, 8} && base <= 0x0b
      requires 1 + (if table && w < 8 then 2 * w else w) <= data <= 9
      requires Has(start, 0, pre) && Has(start, tos + data, body)
      requires Has(start, tos + 1 + (if table && w < 8 then 2 * w else w),
          Zeros(data - 1 - (if table && w < 8 then 2 * w else w)))
      requires |offs| == |idx| && (table ==> forall i :: 0 <= i < |idx| ==> idx[i] == data + offs[i])
      modifies this`start, this`pos
      ensures pos <= |start|
      ensures Content() == pre + IndexedBytes(base + WidthCode(w), w, data, body, table, |idx|, offs)
    {
      hide Put, Has, LE, Table, Zeros, IndexedHeader, IndexedBytes, Tail;
      var k := 1 + (if table && w < 8 then 2 * w else w);
      ghost var pad, below, before := Zeros(data - k), pos, start;
      WriteTail(idx, w, data, table, offs);
      ghost var rest := body + Tail(data, w, table, |idx|, offs);
      HasBelow(before, start, below, 0, pre);
      HasBelow(before, start, below, tos + data, body);
      HasBelow(before, start, below, tos + k, pad);
      HasConcat(start, tos + data, body, Tail(data, w, table, |idx|, offs));
      ghost var s := start;
      var head: Byte := base + WidthCode(w);
      ghost var header := IndexedHeader(head, w, pos - tos, table, |idx|);
      HeaderLength(head, w, pos - tos, table, |idx|);
      FixHeader(tos, head, w, |idx|, table);
      Patched(s, start, pre, header, pad, rest);
      IndexedJoin(head, w, data, body, table, |idx|, offs);
    }

    /** Moves the members down to `data` if that is before byte 9, and adjusts the offset list. */
    method ShiftDown(tos: nat, idx: seq<nat>, w: nat, data: nat, table: bool, ghost pre: seq<Byte>, head: Byte,
                     ghost body: seq<Byte>, ghost starts: seq<nat>) returns (r: seq<nat>)
      requires |pre| == tos && tos + 9 + |body| == pos <= |start| && 1 <= data <= 9
      requires data < 9 ==> data == 1 + (if table && w < 8 then 2 * w else w)
      requires 1 + (if table && w < 8 then 2 * w else w) <= 9
      requires Has(start, 0, pre) && Has(start, tos, [head]) && Has(start, tos + 1, Zeros(8)) &&
        Has(start, tos + 9, body)
      requires |starts| == |idx| && forall i :: 0 <= i < |idx| ==> idx[i] == 9 + starts[i]
      modifies this`start, this`pos
      ensures tos + data + |body| == pos <= |start|
      ensures Has(start, 0, pre) && Has(start, tos + data, body)
      ensures Has(start, tos + 1 + (if table && w < 8 then 2 * w else w),
          Zeros(data - 1 - (if table && w < 8 then 2 * w else w)))
      ensures |r| == |starts| && forall i :: 0 <= i < |r| ==> r[i] == data + starts[i]
    {
      hide Put, Has;
      var k := 1 + (if table && w < 8 then 2 * w else w);
      r := idx;
      if data < 9 {
        MoveDown(tos, tos + data, pre, head, body);
        HasSlices(start, tos + data, body);
        HasNothing(start, tos + k, Zeros(data - k));
        var diff := 9 - data;
        pos := pos - diff;
        r := seq(|idx|, i requires 0 <= i < |idx| => idx[i] - diff);
      } else {
        ZerosSuffix(start, tos + 1, 8, k - 1);
      }
    }

    /** Whether one of the first members of an array is a None byte, which forbids moving down. */
    method HasLeadingNone(tos: nat, idx: seq<nat>, w: nat, ghost ms: seq<seq<Byte>>) returns (none: bool)
      requires w in {1, 2} && ms != [] && idx == Recorded(ms, false) && Has(start, tos + 9, Flatten(ms))
      requires forall i :: 0 <= i < |ms| ==> |ms[i]| >= 1 && ms[i][0] != 0
      ensures !none
    {
      hide Has, Flatten;
      var n := Min(8 - 2 * w, |idx|);
      var i := 0;
      while i < n
        invariant i <= n
      {
        FlattenHas(ms, i);
        HasSlice(start, tos + 9, Flatten(ms), Start(ms, i), ms[i]);
        FirstByte(start, tos + 9 + Start(ms, i), ms[i]);
        if start[tos + idx[i]] == 0x00 {
          return true;
        }
        i := i + 1;
      }
      return false;
    }

    /** Builder::closeArray. */
    method CloseArray(tos: nat, idx: seq<nat>, head: Byte, ghost pre: seq<Byte>, ghost ms: seq<seq<Byte>>)
      requires |pre| == tos && tos + 9 + |Flatten(ms)| == pos <= |start| && ms != [] && idx == Recorded(ms, false)
      requires forall i :: 0 <= i < |ms| ==> |ms[i]| >= 1 && ms[i][0] != 0
      requires Has(start, 0, pre) && Has(start, tos, [head]) && Has(start, tos + 1, Zeros(8)) &&
        Has(start, tos + 9, Flatten(ms))
      modifies this`start, this`pos
      ensures pos <= |start|
      ensures var table := !SameSize(ms);
        var w := Width(options, |Flatten(ms)|, |ms|, table);
        Content() == pre + IndexedBytes((if table then 0x06 else 0x02) + WidthCode(w), w, DataStart(options, w, table),
            Flatten(ms), table, |ms|, Starts(ms))
    {
      hide Put, Has, Flatten, IndexedBytes, Start;
      var table := NeedsIndexTable(tos, idx, ms);
      var used, n := pos - tos, |idx|;
      var w;
      if used + (if table then n else 0) - (if table then 6 else 7) <= 0xff {
        w := 1;
      } else if used + (if table then 2 * n else 0) <= 0xffff {
        w := 2;
      } else if used + (if table then 4 * n else 0) <= 0xffff_ffff {
        w := 4;
      } else {
        w := 8;
      }
      if w < 8 && !table && options.padding == UsePadding {
        w := 8;
      }
      var data := 9;
      if w == 1 || w == 2 {
        var allowMemMove := options.padding == NoPadding || (w == 1 && options.padding == Flexible);
        if allowMemMove {
          var none := HasLeadingNone(tos, idx, w, ms);
          if !none {
            data := 1 + 2 * w;
            if !table {
              data := data - w;
            }
          }
        }
      }
      var shifted := ShiftDown(tos, idx, w, data, table, pre, head, Flatten(ms), Starts(ms));
      CloseIndexed(tos, if table then 0x06 else 0x02, shifted, w, data, table, pre, Flatten(ms), Starts(ms));
    }

    method SortTable(tos: nat, idx: seq<nat>) returns (r: seq<nat>)
      ensures IsSorting(start, tos, idx, r) || |idx| < 2
      ensures |idx| < 2 ==> r == idx
    {
      r := idx;
      if |idx| >= 2 {
        if |idx| > 32 {
          r := SortObjectIndexLong(start, tos, idx);
        } else {
          r := SortObjectIndexShort(start, tos, idx);
        }
      }
    }

    /** Builder::close for objects with an index table. */
    method CloseObject(tos: nat, idx: seq<nat>, head: Byte, ghost pre: seq<Byte>, ghost keys: seq<seq<Byte>>,
        ghost ms: seq<seq<Byte>>)
      requires |pre| == tos && tos + 9 + |Flatten(ms)| == pos <= |start| && ms != [] && idx == Recorded(ms, false)
      requires |keys| == |ms| && Distinct(keys)
      requires forall i :: 0 <= i < |ms| ==> KeyFirst(ms[i], keys[i])
      requires Has(start, 0, pre) && Has(start, tos, [head]) && Has(start, tos + 1, Zeros(8)) &&
        Has(start, tos + 9, Flatten(ms))
      modifies this`start, this`pos
      ensures pos <= |start|
      ensures var w := Width(options, |Flatten(ms)|, |ms|, true);
        Content() == pre + IndexedBytes(0x0b + WidthCode(w), w, DataStart(options, w, true), Flatten(ms), true, |ms|,
            SortedStarts(keys, Starts(ms)))
    {
      hide Put, Has, Flatten, IndexedBytes, Start, EncodeString, SortedStarts, GetString;
      var used, n := pos - tos, |idx|;
      var w := 8;
      if used + n - 6 <= 0xff {
        w := 1;
      } else if used + 2 * n <= 0xffff {
        w := 2;
      } else if used + 4 * n <= 0xffff_ffff {
        w := 4;
      }
      var data := 9;
      if w < 4 && (options.padding == NoPadding || (w == 1 && options.padding == Flexible)) {
        data := 1 + 2 * w;
      }
      var shifted := ShiftDown(tos, idx, w, data, true, pre, head, Flatten(ms), Starts(ms));
      KeysInPlace(start, tos, data, keys, ms, shifted);
      var sorted := SortTable(tos, shifted);
      if |idx| >= 2 {
        SortingIsSortedStarts(start, tos, data, keys, Starts(ms), shifted, sorted);
      } else {
        SortedSingle(keys, Starts(ms));
      }
      CloseIndexed(tos, 0x0b, sorted, w, data, true, pre, Flatten(ms), SortedStarts(keys, Starts(ms)));
    }

    // -------------------------------------------------------------- building blocks

    /** Records that a member begins here. */
    method ReportAdd()
      requires Valid() && open != [] && !open[|open| - 1].pending
      modifies this`index, this`open
      ensures Valid() && open == old(Marked(open)) && (old(Flagged()) ==> Flagged())
    {
      hide FrameBytes, FramesBytes, RootBytes, Recorded, FrameParts, Mark, Reported;
      var depth := |stack| - 1;
      TopBytes(options, roots, open);
      ReportedMarked(options, open[depth]);
      MarkKeepsKey(open);
      index := index[depth := index[depth] + [pos - stack[depth]]];
      MarkedBytes(options, roots, open);
      open := Marked(open);
    }

    /** A key behind a recorded start. */
    method WriteKey(key: seq<Byte>)
      requires Valid() && open != [] && |key| < Limit
      requires open[|open| - 1].ObjFrame? && open[|open| - 1].pending && open[|open| - 1].key == None
      modifies this`start, this`pos, this`open
      ensures Valid() && open == old(Keyed(open, key))
    {
      hide FrameBytes, FramesBytes, EncodeString, FrameParts, Recorded, RootBytes;
      AddString(key);
      FinishKey(key);
    }

    /** Ghost bookkeeping once the bytes of a key have been appended. */
    ghost method FinishKey(key: seq<Byte>)
      requires Shape() && open != [] && |key| < Limit && Content() == Expected(options, roots, open) + EncodeString(key)
      requires open[|open| - 1].ObjFrame? && open[|open| - 1].pending && open[|open| - 1].key == None
      modifies this`open
      ensures Valid() && open == old(Keyed(open, key))
    {
      hide FrameBytes, FramesBytes, EncodeString, FrameParts, Recorded, RootBytes;
      KeyedBytes(options, roots, open, key);
      assert forall d :: 0 <= d < |open| - 1 ==> Keyed(open, key)[d] == open[d];
      open := Keyed(open, key);
    }

    /** A value that is not a compound, wherever a value may be written. */
    method WriteScalar(v: Value)
      requires Valid() && Ready(open) && !v.Arr? && !v.Obj?
      modifies this`start, this`pos, this`roots, this`open
      ensures Valid() && roots == old(AddRoot(roots, open, v)) && open == old(AddOpen(open, v))
    {
      hide FrameBytes, FramesBytes, Encode, RootBytes;
      SetScalar(v);
      Finish(v);
    }

    /** Ghost bookkeeping once the bytes of `v` have been appended. */
    ghost method Finish(v: Value)
      requires Shape() && Ready(open) && Content() == Expected(options, roots, open) + Encode(options, v)
      modifies this`roots, this`open
      ensures Valid() && roots == old(AddRoot(roots, open, v)) && open == old(AddOpen(open, v))
    {
      hide FrameBytes, FramesBytes, Encode, RootBytes, Complete, FrameParts;
      AddBytes(options, roots, open, v);
      AddKeepsShape(options, roots, open, v);
      roots, open := AddRoot(roots, open, v), AddOpen(open, v);
    }

    /** addCompoundValue: type byte, eight reserved bytes, an empty offset list. */
    method AddCompoundValue(isArray: bool, compact: bool)
      requires Valid() && Ready(open)
      modifies this`start, this`pos, this`stack, this`index, this`open
      ensures Valid() && open == old(open) + [NewFrame(isArray, compact)]
    {
      hide FramesBytes, Flatten, RootBytes, FrameBytes, Zeros, Recorded, FrameParts, Base, Reported, WellFormed;
      var f := NewFrame(isArray, compact);
      assert WellFormed(f) by { NewFrameWellFormed(isArray, compact); }
      Reserve(9);
      stack := stack + [pos];
      if |stack| > |index| {
        index := index + [[]];
      }
      index := index[|stack| - 1 := []];
      AppendByte(FrameHead(f));
      AppendBytes(Zeros(8));
      NewFrameBytes(options, isArray, compact);
      FramesSnoc(options, open, f);
      PushKeepsBases(options, roots, open, f);
      assert Content() == Expected(options, roots, open) + ([FrameHead(f)] + Zeros(8));
      open := open + [f];
    }

    // -------------------------------------------------------------- public operations

    /** add(Value) for scalars: an element, a key, or the value behind a key. */
    method Add(v: Value) returns (e: Option<BuilderError>)
      requires Valid() && Flagged() && !v.Arr? && !v.Obj? && (v.Str? ==> |v.text| < Limit)
      requires open != [] && !keyWritten ==> !open[|open| - 1].pending
      modifies this`start, this`pos, this`index, this`keyWritten, this`roots, this`open
      ensures Valid() && Flagged()
      ensures e == old(AddOutcome(open, v))
      ensures e.Some? ==> roots == old(roots) && open == old(open) && pos == old(pos)
      ensures e == None ==> roots == old(AddRoot(roots, open, v)) && open == old(Added(open, v))
    {
      hide FrameBytes, FramesBytes, Encode, RootBytes, EncodeString, Recorded, FrameParts, Expected, Base, Reported;
      TopHead();
      if stack == [] {
        WriteScalar(v);
        return None;
      }
      var tos := stack[|stack| - 1];
      var isObject := start[tos] == 0x0b || start[tos] == 0x14;
      if isObject && !keyWritten && !v.Str? {
        // the start recorded by reportAdd is taken back by cleanupAdd
        return Some(KeyMustBeString);
      }
      AddInside(v, isObject);
      return None;
    }

    /** A member of the innermost compound: recorded, written, and the key flag toggled. */
    method AddInside(v: Value, isObject: bool)
      requires Valid() && Flagged() && !v.Arr? && !v.Obj? && (v.Str? ==> |v.text| < Limit)
      requires open != [] && isObject == open[|open| - 1].ObjFrame? && AddOutcome(open, v) == None
      requires !keyWritten ==> !open[|open| - 1].pending
      modifies this`start, this`pos, this`index, this`keyWritten, this`roots, this`open
      ensures Valid() && Flagged() && roots == old(roots) && open == old(Added(open, v))
    {
      hide FrameBytes, FramesBytes, Encode, RootBytes, EncodeString, Recorded, FrameParts, Expected, Base, Reported;
      if !keyWritten {
        ReportAdd();
      } else {
        MarkedTwice(open);
      }
      if isObject && !keyWritten {
        WriteKey(v.text);
      } else {
        WriteScalar(v);
      }
      if isObject {
        keyWritten := !keyWritten;
      }
    }

    /** openArray and openObject. */
    method Open(isArray: bool, compact: bool) returns (e: Option<BuilderError>)
      requires Valid() && Flagged()
      requires open != [] && !keyWritten ==> !open[|open| - 1].pending
      modifies this`start, this`pos, this`stack, this`index, this`keyWritten, this`open
      ensures Valid() && Flagged()
      ensures e == old(OpenOutcome(open))
      ensures e.Some? ==> open == old(open) && pos == old(pos)
      ensures e == None ==> open == old(Opened(open, isArray, compact))
    {
      hide FrameBytes, FramesBytes, Encode, RootBytes, EncodeString, Recorded, FrameParts;
      TopHead();
      if stack != [] {
        var to := stack[|stack| - 1];
        if !keyWritten {
          if start[to] != 0x06 && start[to] != 0x13 {
            return Some(NeedOpenArray);
          }
          ReportAdd();
        } else {
          keyWritten := false;
        }
      }
      AddCompoundValue(isArray, compact);
      return None;
    }

    /** The type byte of the innermost compound tells what it is. */
    lemma TopHead()
      requires Valid()
      ensures open != [] ==> stack[|stack| - 1] + 9 <= pos
      ensures open != [] ==> start[stack[|stack| - 1]] == FrameHead(open[|open| - 1])
    {
      if open != [] {
        var pre := Expected(options, roots, open[..|open| - 1]);
        TopBytes(options, roots, open);
        var f := open[|open| - 1];
        assert start[..pos][|pre|] == FrameBytes(options, f)[0];
      }
    }

    /** The bytes of the innermost compound become the encoding of its value. */
    method SealBytes(tos: nat, head: Byte, idx: seq<nat>, ghost pre: seq<Byte>, ghost f: Frame)
      requires pos <= |start| && Content() == pre + FrameBytes(options, f) && |pre| == tos
      requires head == FrameHead(f) && idx == Reported(options, f) && !f.pending && WellFormed(f)
      requires f.ObjFrame? ==> Distinct(Keys(f.members))
      modifies this`start, this`pos
      ensures pos <= |start| && Content() == pre + Encode(options, FrameValue(f))
    {
      hide FrameBytes, Encode, Flatten, IndexedBytes, Has, CompactBytes, EncodeString, FrameParts, Recorded, Reported,
        Width, DataStart, SortedStarts, CompactFits, KeyFirst, Starts, FrameTail;
      ghost var ms := FrameParts(options, f);
      ghost var body := Flatten(ms);
      OpenPieces(options, start, pos, pre, f);
      SealedBytes(options, f);
      var isArray := head == 0x06 || head == 0x13;
      if idx == [] {
        SealEmpty(tos, isArray, pre, head);
        return;
      }
      if head == 0x13 || head == 0x14 ||
         (head == 0x06 && options.unindexedArrays) ||
         (head == 0x0b && (options.unindexedObjects || |idx| == 1)) {
        var ok := CloseCompact(tos, isArray, idx, pre, body);
        if ok {
          return;
        }
      }
      if isArray {
        CloseArray(tos, idx, head, pre, ms);
      } else {
        CloseObject(tos, idx, head, pre, Keys(f.members), ms);
      }
    }

    /** Builder::closeEmptyArrayOrObject. */
    method SealEmpty(tos: nat, isArray: bool, ghost pre: seq<Byte>, ghost head: Byte)
      requires |pre| == tos && pos == tos + 9 <= |start| && Has(start, 0, pre)
      modifies this`start, this`pos
      ensures pos <= |start| && Content() == pre + [if isArray then 0x01 else 0x0a]
    {
      hide Put, Has;
      var mark: seq<Byte> := [if isArray then 0x01 else 0x0a];
      ghost var s := start;
      start := Put(start, tos, mark);
      Wrote(s, tos, mark, 0, pre, 0, pre);
      HasConcat(start, 0, pre, mark);
      HasSlices(start, 0, pre + mark);
      pos := pos - 8;
    }

    /** Builder::close: the innermost compound becomes a finished value of its parent. */
    method Close() returns (e: Option<BuilderError>)
      requires Valid()
      requires open != [] ==> Closable(open[|open| - 1])
      modifies this`start, this`pos, this`stack, this`roots, this`open
      ensures Valid() && (old(Flagged()) ==> Flagged())
      ensures e == if old(open) == [] then Some(NeedOpenCompound) else None
      ensures old(open) == [] ==> pos == old(pos) && roots == old(roots) && open == []
      ensures old(open) != [] ==>
        var front, v := old(open)[..|old(open)| - 1], FrameValue(old(open)[|old(open)| - 1]);
        Ready(front) && roots == old(AddRoot(roots, front, v)) && open == AddOpen(front, v)
    {
      hide FrameBytes, FramesBytes, Encode, RootBytes, Recorded, FrameParts;
      if stack == [] {
        return Some(NeedOpenCompound);
      }
      TopHead();
      TopBytes(options, roots, open);
      var tos := stack[|stack| - 1];
      var head := start[tos];
      ghost var f, front := open[|open| - 1], open[..|open| - 1];
      SealBytes(tos, head, index[|stack| - 1], Expected(options, roots, front), f);
      stack := stack[..|stack| - 1];
      PrefixBases(options, roots, open);
      open := front;
      Finish(FrameValue(f));
      return None;
    }
  }

  // ---------------------------------------------------------------- open compounds

  /** Before a member is recorded an array, or an object without a key, takes the next one. */
  function AddOutcome(open: seq<Frame>, v: Value): Option<BuilderError> {
    if open != [] && open[|open| - 1].ObjFrame? && open[|open| - 1].key == None && !v.Str?
    then Some(KeyMustBeString) else None
  }

  function Added(open: seq<Frame>, v: Value): seq<Frame>
    requires AddOutcome(open, v) == None
  {
    if open == [] then []
    else if open[|open| - 1].ObjFrame? && open[|open| - 1].key == None then Keyed(open, v.text)
    else AddOpen(Marked(open), v)
  }

  function OpenOutcome(open: seq<Frame>): Option<BuilderError> {
    if open != [] && open[|open| - 1].ObjFrame? && open[|open| - 1].key == None then Some(NeedOpenArray) else None
  }

  function Opened(open: seq<Frame>, isArray: bool, compact: bool): seq<Frame>
    requires OpenOutcome(open) == None
  {
    (if open == [] then [] else Marked(open)) + [NewFrame(isArray, compact)]
  }

  /** Nothing is dangling, and keys are unique. */
  ghost predicate Closable(f: Frame) {
    !f.pending && (f.ObjFrame? ==> Distinct(Keys(f.members)))
  }

  /** Where the pieces of the innermost compound stand. */
  lemma OpenPieces(o: Options, start: seq<Byte>, pos: nat, pre: seq<Byte>, f: Frame)
    requires pos <= |start| && start[..pos] == pre + FrameBytes(o, f) && !f.pending && WellFormed(f)
    ensures var body := Flatten(FrameParts(o, f));
      && pos == |pre| + 9 + |body|
      && Has(start, 0, pre) && Has(start, |pre|, [FrameHead(f)]) && Has(start, |pre| + 1, Zeros(8)) &&
        Has(start, |pre| + 9, body)
  {
    hide Flatten, FrameParts, Zeros;
    var body := Flatten(FrameParts(o, f));
    EmptyTail(f);
    assert pre + FrameBytes(o, f) == pre + [FrameHead(f)] + Zeros(8) + body;
    assert Has(start, 0, pre + [FrameHead(f)] + Zeros(8) + body);
    HasConcat(start, 0, pre + [FrameHead(f)] + Zeros(8), body);
    HasConcat(start, 0, pre + [FrameHead(f)], Zeros(8));
    HasConcat(start, 0, pre, [FrameHead(f)]);
  }

  lemma EncodingHeadNotNone(o: Options, v: Value)
    ensures Encode(o, v)[0] != 0
  {
    hide Flatten, Table, SortedStarts, Width, DataStart, LE, Var, VarRev;
    match v
    case Int(i) => Pow256Values(); IntWidthLeast(i, 8);
    case UInt(u) => WidthAtMost8(u);
    case _ =>
  }

  /** The part begins with its key. */
  predicate KeyFirst(part: seq<Byte>, key: seq<Byte>) {
    |key| < Limit && |EncodeString(key)| <= |part| && part[..|EncodeString(key)|] == EncodeString(key)
  }

  /** What closing needs to know about the members, and what it has to produce. */
  lemma SealedBytes(o: Options, f: Frame)
    requires !f.pending && WellFormed(f)
    ensures Reported(o, f) == Recorded(FrameParts(o, f), false) && |Reported(o, f)| == |FrameParts(o, f)|
    ensures FrameParts(o, f) == [] ==> Flatten(FrameParts(o, f)) == []
    ensures f.ArrFrame? ==> Encode(o, FrameValue(f)) == ArrayBytes(o, f.compact, FrameParts(o, f))
    ensures f.ArrFrame? ==> forall i :: 0 <= i < |FrameParts(o, f)| ==> FrameParts(o, f)[i][0] != 0
    ensures f.ObjFrame? ==> |FrameParts(o, f)| == |f.members|
    ensures f.ObjFrame? ==> Encode(o, FrameValue(f)) == ObjectBytes(o, f.compact, Keys(f.members), FrameParts(o, f))
    ensures f.ObjFrame? ==> forall i :: 0 <= i < |f.members| ==> KeyFirst(FrameParts(o, f)[i], f.members[i].key)
  {
    hide ArrayBytes, ObjectBytes, EncodeString, Start;
    if f.ArrFrame? {
      forall i | 0 <= i < |f.elems| ensures Encode(o, f.elems[i])[0] != 0 { EncodingHeadNotNone(o, f.elems[i]); }
    }
  }

  lemma PrefixBases(o: Options, roots: seq<Value>, open: seq<Frame>)
    requires open != []
    ensures forall d :: 0 <= d < |open| - 1 ==> Base(o, roots, open[..|open| - 1], d) == Base(o, roots, open, d)
  {
    hide RootBytes, FramesBytes;
    forall d | 0 <= d < |open| - 1 ensures Base(o, roots, open[..|open| - 1], d) == Base(o, roots, open, d) {
      assert open[..|open| - 1][..d] == open[..d];
    }
  }

  function NewFrame(isArray: bool, compact: bool): Frame {
    if isArray then ArrFrame(compact, [], false) else ObjFrame(compact, [], false, None)
  }

  /** The innermost compound with the start of a member recorded. */
  function Mark(f: Frame): Frame {
    match f
    case ArrFrame(compact, elems, _) => ArrFrame(compact, elems, true)
    case ObjFrame(compact, members, _, key) => ObjFrame(compact, members, true, key)
  }

  lemma MarkKeepsKey(open: seq<Frame>)
    requires open != []
    ensures var f, g := open[|open| - 1], Marked(open)[|open| - 1];
            f.ObjFrame? == g.ObjFrame? && (f.ObjFrame? ==> f.key == g.key)
    ensures forall d :: 0 <= d < |open| - 1 ==> Marked(open)[d] == open[d]
  {
  }

  function Marked(open: seq<Frame>): (r: seq<Frame>)
    requires open != []
    ensures |r| == |open|
  {
    open[..|open| - 1] + [Mark(open[|open| - 1])]
  }

  lemma MarkedTwice(open: seq<Frame>)
    requires open != [] && open[|open| - 1].pending
    ensures Marked(open) == open
  {
  }

  function Keyed(open: seq<Frame>, key: seq<Byte>): (r: seq<Frame>)
    requires open != [] && open[|open| - 1].ObjFrame?
    ensures |r| == |open|
  {
    var f := open[|open| - 1];
    open[..|open| - 1] + [ObjFrame(f.compact, f.members, true, Some(key))]
  }

  lemma NewFrameBytes(o: Options, isArray: bool, compact: bool)
    ensures FrameBytes(o, NewFrame(isArray, compact)) == [FrameHead(NewFrame(isArray, compact))] + Zeros(8)
    ensures Reported(o, NewFrame(isArray, compact)) == []
  {
    var f := NewFrame(isArray, compact);
    assert FrameParts(o, f) == [] && FrameTail(f) == [];
    assert [FrameHead(f)] + Zeros(8) + [] + [] == [FrameHead(f)] + Zeros(8);
  }

  lemma NewFrameWellFormed(isArray: bool, compact: bool)
    ensures WellFormed(NewFrame(isArray, compact))
  {
  }

  lemma TopSplit(open: seq<Frame>)
    requires open != []
    ensures open == open[..|open| - 1] + [open[|open| - 1]]
  {
  }

  lemma TopBytes(o: Options, roots: seq<Value>, open: seq<Frame>)
    requires open != []
    ensures Expected(o, roots, open) == Expected(o, roots, open[..|open| - 1]) + FrameBytes(o, open[|open| - 1])
    ensures |Expected(o, roots, open[..|open| - 1])| == Base(o, roots, open, |open| - 1)
  {
    hide FrameBytes, RootBytes;
    FramesSnoc(o, open[..|open| - 1], open[|open| - 1]);
    TopSplit(open);
  }

  lemma ReportedMarked(o: Options, f: Frame)
    requires !f.pending && WellFormed(f)
    ensures Reported(o, Mark(f)) == Reported(o, f) + [|FrameBytes(o, f)|]
    ensures FrameBytes(o, Mark(f)) == FrameBytes(o, f) && WellFormed(Mark(f))
  {
    hide EncodeString, Encode;
    FlattenLength(FrameParts(o, f));
    assert FrameParts(o, Mark(f)) == FrameParts(o, f);
    EmptyTail(f);
  }

  lemma SamePrefixes(open: seq<Frame>, f: Frame, d: nat)
    requires open != [] && d < |open|
    ensures (open[..|open| - 1] + [f])[..d] == open[..d]
  {
  }

  lemma MarkedBytes(o: Options, roots: seq<Value>, open: seq<Frame>)
    requires open != [] && !open[|open| - 1].pending && WellFormed(open[|open| - 1])
    ensures Expected(o, roots, Marked(open)) == Expected(o, roots, open)
    ensures forall d :: 0 <= d < |open| ==> Base(o, roots, Marked(open), d) == Base(o, roots, open, d)
  {
    hide FrameBytes, RootBytes, Mark;
    var f := open[|open| - 1];
    ReportedMarked(o, f);
    FramesSnoc(o, open[..|open| - 1], Mark(f));
    forall d | 0 <= d < |open| ensures Base(o, roots, Marked(open), d) == Base(o, roots, open, d) {
      SamePrefixes(open, Mark(f), d);
    }
  }

  lemma KeyedFrame(o: Options, f: Frame, key: seq<Byte>)
    requires f.ObjFrame? && f.pending && f.key == None
    ensures var g := ObjFrame(f.compact, f.members, true, Some(key));
      FrameBytes(o, g) == FrameBytes(o, f) + EncodeString(key) && Reported(o, g) == Reported(o, f)
  {
    hide EncodeString, EncodeMembers, Flatten, Zeros, Start;
    var g := ObjFrame(f.compact, f.members, true, Some(key));
    assert FrameTail(f) == [] && FrameTail(g) == EncodeString(key);
    var front := [FrameHead(f)] + Zeros(8) + Flatten(FrameParts(o, f));
    assert front + [] == front;
  }

  lemma KeyedBytes(o: Options, roots: seq<Value>, open: seq<Frame>, key: seq<Byte>)
    requires open != [] && open[|open| - 1].ObjFrame? && open[|open| - 1].pending && open[|open| - 1].key == None
    ensures Expected(o, roots, Keyed(open, key)) == Expected(o, roots, open) + EncodeString(key)
    ensures Reported(o, Keyed(open, key)[|open| - 1]) == Reported(o, open[|open| - 1])
    ensures forall d :: 0 <= d < |open| ==> Base(o, roots, Keyed(open, key), d) == Base(o, roots, open, d)
  {
    hide RootBytes, EncodeString, FrameParts, FrameBytes;
    var f := open[|open| - 1];
    var g := ObjFrame(f.compact, f.members, true, Some(key));
    KeyedFrame(o, f, key);
    FramesSnoc(o, open[..|open| - 1], g);
    forall d | 0 <= d < |open| ensures Base(o, roots, Keyed(open, key), d) == Base(o, roots, open, d) {
      SamePrefixes(open, g, d);
    }
  }

  lemma PushKeepsBases(o: Options, roots: seq<Value>, open: seq<Frame>, f: Frame)
    ensures forall d :: 0 <= d <= |open| ==> (open + [f])[..d] == open[..d]
    ensures forall d :: 0 <= d < |open| ==> Base(o, roots, open + [f], d) == Base(o, roots, open, d)
    ensures Base(o, roots, open + [f], |open|) == |Expected(o, roots, open)|
  {
    hide RootBytes, FramesBytes;
    assert open[..|open|] == open;
  }

  /** Completing a member moves nothing and changes no recorded start. */
  lemma AddKeepsShape(o: Options, roots: seq<Value>, open: seq<Frame>, v: Value)
    requires Ready(open)
    ensures forall d :: 0 <= d < |open| ==>
      Base(o, AddRoot(roots, open, v), AddOpen(open, v), d) == Base(o, roots, open, d)
    ensures forall d :: 0 <= d < |open| ==> Reported(o, AddOpen(open, v)[d]) == Reported(o, open[d])
    ensures forall d :: 0 <= d < |open| && WellFormed(open[d]) ==> WellFormed(AddOpen(open, v)[d])
    ensures forall d :: 0 <= d < |open| - 1 ==> AddOpen(open, v)[d] == open[d]
  {
    hide RootBytes, FramesBytes, Encode, FrameParts, Recorded, Reported, Complete, WellFormed, FrameBytes;
    if open != [] {
      CompleteBytes(o, open[|open| - 1], v);
      CompleteWellFormed(open[|open| - 1], v);
      forall d | 0 <= d < |open| ensures Base(o, AddRoot(roots, open, v), AddOpen(open, v), d)
        == Base(o, roots, open, d) {
        SamePrefixes(open, Complete(open[|open| - 1], v), d);
      }
    }
  }

  lemma CompleteWellFormed(f: Frame, v: Value)
    requires Awaiting(f)
    ensures WellFormed(f) ==> WellFormed(Complete(f, v))
  {
  }

  lemma ZerosSuffix(s: seq<Byte>, p: nat, n: nat, k: nat)
    requires k <= n && Has(s, p, Zeros(n))
    ensures Has(s, p + k, Zeros(n - k))
  {
    assert Zeros(n) == Zeros(k) + Zeros(n - k);
    HasConcat(s, p, Zeros(k), Zeros(n - k));
  }

  lemma TypePatched(s: seq<Byte>, n: nat, before: seq<Byte>, was: Byte, digits: seq<Byte>, h: Byte)
    requires n <= |s| && s[..n] == before + [was] + digits
    ensures |before| < n && Put(s, |before|, [h])[..n] == before + [h] + digits
  {
    hide Put;
    var b, r := |before|, Put(s, |before|, [h]);
    assert |before + [was] + digits| == n;
    assert s[..b] == s[..n][..b] == before;
    assert s[b + 1..n] == s[..n][b + 1..] == digits;
    assert r[..b] == s[..b] && r[b..b + 1] == [h] && r[b + 1..] == s[b + 1..];
    assert r[b + 1..n] == r[b + 1..][..n - b - 1] == s[b + 1..][..n - b - 1] == s[b + 1..n];
    assert r[..n] == r[..b] + r[b..b + 1] + r[b + 1..n];
  }

  lemma FirstByte(s: seq<Byte>, p: nat, u: seq<Byte>)
    requires Has(s, p, u) && u != []
    ensures p < |s| && s[p] == u[0]
  {
    assert s[p..p + |u|][0] == s[p];
  }

  /** Behind the shifted starts stand the keys. */
  lemma KeysInPlace(s: seq<Byte>, tos: nat, data: nat, keys: seq<seq<Byte>>, ms: seq<seq<Byte>>, idx: seq<nat>)
    requires |keys| == |ms| == |idx| && Has(s, tos + data, Flatten(ms))
    requires forall i :: 0 <= i < |ms| ==> KeyFirst(ms[i], keys[i])
    requires forall i :: 0 <= i < |idx| ==> idx[i] == data + Starts(ms)[i]
    ensures forall i :: 0 <= i < |idx| ==> KeyOf(s, tos, idx[i]) == keys[i]
  {
    hide Has, Flatten, EncodeString, GetString, Start;
    forall i | 0 <= i < |idx| ensures KeyOf(s, tos, idx[i]) == keys[i] {
      FlattenHas(ms, i);
      HasSlice(s, tos + data, Flatten(ms), Start(ms, i), ms[i]);
      var k := |EncodeString(keys[i])|;
      assert ms[i] == ms[i][..k] + ms[i][k..];
      HasConcat(s, tos + data + Start(ms, i), ms[i][..k], ms[i][k..]);
      StringReads(s, tos + data + Start(ms, i), keys[i]);
    }
  }

  lemma SortedSingle(keys: seq<seq<Byte>>, starts: seq<nat>)
    requires |keys| == |starts| == 1
    ensures SortedStarts(keys, starts) == starts
  {
    var es := Entries(keys, starts);
    assert es[1..] == [];
    assert SortEntries(es) == Insert(es[0], []);
  }

  lemma Patched(s: seq<Byte>, r: seq<Byte>, pre: seq<Byte>, header: seq<Byte>, pad: seq<Byte>, rest: seq<Byte>)
    requires |pre| + |header| <= |s| && r == Put(s, |pre|, header)
    requires Has(s, 0, pre) && Has(s, |pre| + |header|, pad) && Has(s, |pre| + |header| + |pad|, rest)
    ensures var n := |pre| + |header| + |pad| + |rest|; n <= |r| && r[..n] == pre + (header + pad + rest)
  {
    hide Put, Has;
    Wrote(s, |pre|, header, 0, pre, |pre| + |header| + |pad|, rest);
    PutKeeps(s, |pre|, header, |pre| + |header|, pad);
    Joined4(r, pre, header, pad, rest);
    HasSlices(r, 0, pre + header + pad + rest);
    assert pre + header + pad + rest == pre + (header + pad + rest);
  }

  /** What was appended stands behind what was there. */
  lemma Extended(s: seq<Byte>, n: nat, r: seq<Byte>, m: nat, t: seq<Byte>)
    requires n <= |s| && m <= |r| && r[..m] == s[..n] + t
    ensures m == n + |t| && Has(r, n, t) && r[..n] == s[..n]
  {
    assert r[n..m] == r[..m][n..];
    assert r[..n] == r[..m][..n];
  }

  lemma PutPut(s: seq<Byte>, at: nat, t: seq<Byte>, u: seq<Byte>)
    requires at + |t| + |u| <= |s|
    ensures Put(Put(s, at, t), at + |t|, u) == Put(s, at, t + u)
  {
    var r := Put(s, at, t);
    assert r[..at + |t|] == s[..at] + t;
    assert r[at + |t| + |u|..] == r[at + |t|..][|u|..] && s[at + |t| + |u|..] == s[at + |t|..][|u|..];
    assert Put(r, at + |t|, u) == s[..at] + t + u + s[at + |t| + |u|..];
    assert s[..at] + (t + u) + s[at + |t| + |u|..] == s[..at] + t + u + s[at + |t| + |u|..];
  }

  lemma PartSizes(ms: seq<seq<Byte>>)
    requires ms != []
    ensures Recorded(ms, false)[0] == 9
    ensures forall i :: 0 <= i < |ms| - 1 ==> Recorded(ms, false)[i + 1] == Recorded(ms, false)[i] + |ms[i]|
    ensures 9 + |Flatten(ms)| == Recorded(ms, false)[|ms| - 1] + |ms[|ms| - 1]|
  {
    hide Start, Flatten;
    FlattenLength(ms);
    assert Recorded(ms, false)[0] == 9 + Start(ms, 0);
    StartStep(ms, 0);
    forall i | 0 <= i < |ms| - 1 ensures Recorded(ms, false)[i + 1] == Recorded(ms, false)[i] + |ms[i]| {
      StartStep(ms, i);
    }
    StartStep(ms, |ms| - 1);
  }

  lemma StartStep(ms: seq<seq<Byte>>, i: nat)
    requires i < |ms|
    ensures Start(ms, 0) == 0 && Start(ms, i + 1) == Start(ms, i) + |ms[i]|
  {
  }

  lemma SameSizeLength(ms: seq<seq<Byte>>)
    requires ms != [] && SameSize(ms)
    ensures |Flatten(ms)| == |ms| * |ms[0]|
  {
    FlattenLength(ms);
    StartOfEqualParts(ms, |ms|, |ms[0]|);
  }

  lemma IndexedJoin(head: Byte, w: nat, data: nat, body: seq<Byte>, table: bool, n: nat, offs: seq<nat>)
    requires |offs| == n && 1 + (if table && w < 8 then 2 * w else w) <= data
    ensures var header := IndexedHeader(head, w, data + |body| + |Tail(data, w, table, n, offs)|, table, n);
            IndexedBytes(head, w, data, body, table, n, offs)
            == header + Zeros(data - |header|) + (body + Tail(data, w, table, n, offs))
  {
    hide LE, Table, Zeros;
    var header := IndexedHeader(head, w, data + |body| + |Tail(data, w, table, n, offs)|, table, n);
    var pad := Zeros(data - |header|);
    assert header + pad + body + Tail(data, w, table, n, offs) == header + pad + (body + Tail(data, w, table, n, offs));
  }

  lemma TableSnoc(offs: seq<nat>, i: nat, base: nat, w: nat)
    requires i < |offs|
    ensures Table(offs[..i + 1], base, w) == Table(offs[..i], base, w) + LE(base + offs[i], w)
  {
    assert offs[..i + 1][..i] == offs[..i];
  }

  /** Writing `t` keeps two pieces that lie elsewhere. */
  lemma Wrote(s: seq<Byte>, at: nat, t: seq<Byte>, p: nat, u: seq<Byte>, q: nat, v: seq<Byte>)
    requires at + |t| <= |s| && Has(s, p, u) && Has(s, q, v)
    requires (p + |u| <= at || at + |t| <= p) && (q + |v| <= at || at + |t| <= q)
    ensures Has(Put(s, at, t), at, t) && Has(Put(s, at, t), p, u) && Has(Put(s, at, t), q, v)
  {
    PutHas(s, at, t);
    PutKeeps(s, at, t, p, u);
    PutKeeps(s, at, t, q, v);
  }

  lemma HasSlices(s: seq<Byte>, p: nat, u: seq<Byte>)
    requires Has(s, p, u)
    ensures p + |u| <= |s| && s[p..p + |u|] == u
  {
  }

  lemma CompactJoin(pre: seq<Byte>, head: Byte, body: seq<Byte>, n: nat)
    ensures pre + [head] + Var(CompactLength(|body|, n)) + body + VarRev(n) == pre + CompactBytes(head, body, n)
  {
  }

  lemma HasNothing(s: seq<Byte>, p: nat, u: seq<Byte>)
    requires u == [] && p <= |s|
    ensures Has(s, p, u)
  {
  }

  lemma Joined4(s: seq<Byte>, a: seq<Byte>, b: seq<Byte>, c: seq<Byte>, d: seq<Byte>)
    requires Has(s, 0, a) && Has(s, |a|, b) && Has(s, |a| + |b|, c) && Has(s, |a| + |b| + |c|, d)
    ensures Has(s, 0, a + b + c + d)
  {
    HasConcat(s, 0, a, b);
    HasConcat(s, 0, a + b, c);
    HasConcat(s, 0, a + b + c, d);
  }

  /** The size computed in steps is the size of the layout. */
  lemma CompactSteps(body: nat, n: nat, byteSize: nat, bLen: nat)
    requires var size := 1 + body + VarLen(n); var l := VarLen(size);
      if VarLen(size + l) == l then byteSize == size + l && bLen == l
      else byteSize == size + l + 1 && bLen == l + 1
    ensures byteSize == CompactLength(body, n) && bLen == VarLen(byteSize)
    ensures byteSize == 1 + bLen + body + VarLen(n)
  {
    CompactLengthIsExact(body, n);
    var size := 1 + body + VarLen(n);
    VarLenMonotone(size, size + VarLen(size));
  }

  /** `s` is `orig` with `done` written over it at `at`. */
  ghost predicate Written(orig: seq<Byte>, s: seq<Byte>, at: nat, done: seq<Byte>) {
    && |s| == |orig| && Has(s, at, done)
    && s[..at] == orig[..at] && s[at + |done|..] == orig[at + |done|..]
  }

  lemma NothingWritten(s: seq<Byte>, at: nat)
    requires at <= |s|
    ensures Written(s, s, at, [])
  {
  }

  lemma WrittenSnoc(orig: seq<Byte>, s: seq<Byte>, at: nat, done: seq<Byte>, c: Byte)
    requires Written(orig, s, at, done) && at + |done| < |s|
    ensures Written(orig, Put(s, at + |done|, [c]), at, done + [c])
  {
    var p := at + |done|;
    var r := Put(s, p, [c]);
    PutKeeps(s, p, [c], at, done);
    HasConcat(r, at, done, [c]);
    assert r[..at] == r[..p][..at] && s[..at] == s[..p][..at];
    assert s[p + 1..] == s[p..][1..] && orig[p + 1..] == orig[p..][1..];
  }

  lemma WrittenCons(orig: seq<Byte>, s: seq<Byte>, at: nat, done: seq<Byte>, c: Byte)
    requires Written(orig, s, at + 1, done)
    ensures Written(orig, Put(s, at, [c]), at, [c] + done)
  {
    var r := Put(s, at, [c]);
    PutKeeps(s, at, [c], at + 1, done);
    HasConcat(r, at, [c], done);
    assert s[..at] == s[..at + 1][..at] && orig[..at] == orig[..at + 1][..at];
    assert r[at + 1 + |done|..] == r[at + 1..][|done|..] && s[at + 1 + |done|..] == s[at + 1..][|done|..];
  }

  lemma WrittenIsPut(orig: seq<Byte>, s: seq<Byte>, at: nat, done: seq<Byte>)
    requires Written(orig, s, at, done)
    ensures s == Put(orig, at, done)
  {
    assert s == s[..at] + s[at..at + |done|] + s[at + |done|..];
  }

  /** `x` holds the bytes of `v` from byte `n` on. */
  ghost predicate BytesFrom(v: int, x: int, n: nat) {
    forall k: nat :: ByteOf(x, k) == ByteOf(v, n + k)
  }

  lemma Shifted(v: int, x: int, n: nat)
    requires BytesFrom(v, x, n)
    ensures BytesFrom(v, x / 256, n + 1) && x % 256 == ByteOf(v, n)
  {
    assert ByteOf(x, 0) == ByteOf(v, n + 0);
    forall k: nat ensures ByteOf(x / 256, k) == ByteOf(v, n + 1 + k) {
      assert ByteOf(x, k + 1) == ByteOf(v, n + (k + 1));
    }
  }

  lemma LESnoc(x: int, i: nat)
    ensures LE(x, i + 1) == LE(x, i) + [ByteOf(x, i)]
  {
  }

  lemma WidthAtMost8(v: UInt64)
    ensures UIntWidth(v) <= 8
  {
    Pow256Values();
    UIntWidthLeast(v, 8);
  }

  /** Builder::intLength. */
  method IntLength(value: Int64) returns (r: nat)
    ensures r == IntWidth(value)
  {
    if -0x80 <= value <= 0x7f {
      return 1;
    }
    var x: int := if value >= 0 then value else -(value + 1);
    var xSize := 0;
    ghost var y: int := value;
    while true
      invariant x == (if y >= 0 then y else -(y + 1)) && x >= 0x80
      invariant IntWidth(value) == xSize + IntWidth(y)
      decreases x
    {
      xSize := xSize + 1;
      x := x / 256;
      y := y / 256;
      if x < 0x80 { break; }
    }
    return xSize + 1;
  }
}
