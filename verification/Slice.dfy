/** Reading a VelocyPack value from its bytes alone. A slice is a buffer and a position. */
module Slice {
  import opened Bytes
  import opened Format
  import opened Wrappers

  datatype Error = IndexOutOfBounds | InvalidValueType | NumberOutOfRange | InternalError | NeedAttributeTranslator

  datatype Result<+T> = Ok(value: T) | Err(error: Error)

  datatype ValueType = TNone | TNull | TBool | TArray | TObject | TDouble | TUTCDate | TExternal
    | TMinKey | TMaxKey | TInt | TUInt | TSmallInt | TString | TBinary | TBCD | TCustom | TIllegal

  // ---------------------------------------------------------------- type byte

  function TypeOf(h: Byte): ValueType {
    if 0x01 <= h <= 0x09 || h == 0x13 then TArray
    else if 0x0a <= h <= 0x12 || h == 0x14 then TObject
    else if h == 0x17 then TIllegal
    else if h == 0x18 then TNull
    else if h == 0x19 || h == 0x1a then TBool
    else if h == 0x1b then TDouble
    else if h == 0x1c then TUTCDate
    else if h == 0x1d then TExternal
    else if h == 0x1e then TMinKey
    else if h == 0x1f then TMaxKey
    else if 0x20 <= h <= 0x27 then TInt
    else if 0x28 <= h <= 0x2f then TUInt
    else if 0x30 <= h <= 0x3f then TSmallInt
    else if 0x40 <= h <= 0xbf then TString
    else if 0xc0 <= h <= 0xc7 then TBinary
    else if 0xc8 <= h <= 0xd7 then TBCD
    else if 0xf0 <= h then TCustom
    else TNone
  }

  /** Width of byte length, member count and offsets; 0 where the table of widths has no entry. */
  function EntrySize(h: Byte): nat {
    if h in {0x01, 0x02, 0x06, 0x0a, 0x0b, 0x0f} then 1
    else if h in {0x03, 0x07, 0x0c, 0x10} then 2
    else if h in {0x04, 0x08, 0x0d, 0x11} then 4
    else if h in {0x05, 0x09, 0x0e, 0x12} then 8
    else 0
  }

  function FirstSub(h: Byte): nat {
    if h == 0x01 || h == 0x0a then 1
    else if h == 0x02 then 2
    else if h in {0x03, 0x06, 0x0b, 0x0f} then 3
    else if h in {0x04, 0x07, 0x0c, 0x10} then 5
    else if h in {0x05, 0x08, 0x09, 0x0d, 0x0e, 0x11, 0x12} then 9
    else 0
  }

  /** Header and announced payload together; 0 where the source throws for lack of a size. */
  function FullSize(b: seq<Byte>, p: nat): nat {
    var h := At(b, p);
    match TypeOf(h)
    case TArray =>
      if h == 0x01 then 1 else if h == 0x13 then ReadVar(b, p + 1) else ReadLE(b, p + 1, EntrySize(h))
    case TObject =>
      if h == 0x0a then 1 else if h == 0x14 then ReadVar(b, p + 1) else ReadLE(b, p + 1, EntrySize(h))
    case TNone => if h == 0 then 1 else 0
    case TDouble => 9
    case TUTCDate => 9
    case TExternal => 9
    case TInt => 1 + (h - 0x1f)
    case TUInt => 1 + (h - 0x27)
    case TString => if h == 0xbf then 9 + ReadLE(b, p + 1, 8) else 1 + (h - 0x40)
    case TBinary => 1 + (h - 0xbf) + ReadLE(b, p + 1, h - 0xbf)
    case TBCD => if h <= 0xcf then 1 + (h - 0xc7) + ReadLE(b, p + 1, h - 0xc7)
      else 1 + (h - 0xcf) + ReadLE(b, p + 1, h - 0xcf)
    case TCustom =>
      if h == 0xf0 then 2 else if h == 0xf1 then 3 else if h == 0xf2 then 5 else if h == 0xf3 then 9
      else if h <= 0xf6 then 2 + ReadLE(b, p + 1, 1)
      else if h <= 0xf9 then 3 + ReadLE(b, p + 1, 2)
      else if h <= 0xfc then 5 + ReadLE(b, p + 1, 4)
      else 9 + ReadLE(b, p + 1, 8)
    case _ => 1
  }

  /** Size including the type byte, as 64-bit arithmetic computes it. */
  function ByteSize(b: seq<Byte>, p: nat): nat {
    FullSize(b, p) % Limit
  }

  /** Where the first member of a non-empty compound begins, looking past zero padding. */
  function FindDataOffset(b: seq<Byte>, p: nat): nat {
    var fsm := FirstSub(At(b, p));
    if fsm == 0 then 1 + VarLen(ReadVar(b, p + 1))
    else if fsm <= 2 && At(b, p + 2) != 0 then 2
    else if fsm <= 3 && At(b, p + 3) != 0 then 3
    else if fsm <= 5 && At(b, p + 5) != 0 then 5
    else 9
  }

  // ---------------------------------------------------------------- scalars

  function SmallInt(h: Byte): int {
    if h <= 0x39 then h - 0x30 else h - 0x3a - 6
  }

  /** Sign extension of a `w`-byte number. */
  function Signed(v: nat, w: nat): int {
    if 2 * v < Pow256(w) then v else v - Pow256(w)
  }

  function GetInt(b: seq<Byte>, p: nat): Result<int> {
    var h := At(b, p);
    match TypeOf(h)
    case TInt => Ok(Signed(ReadLE(b, p + 1, h - 0x1f), h - 0x1f))
    case TUInt =>
      var v := ReadLE(b, p + 1, h - 0x27);
      if v > 0x7fff_ffff_ffff_ffff then Err(NumberOutOfRange) else Ok(v)
    case TSmallInt => Ok(SmallInt(h))
    case _ => Err(InvalidValueType)
  }

  function GetUInt(b: seq<Byte>, p: nat): Result<int> {
    var h := At(b, p);
    match TypeOf(h)
    case TUInt => Ok(ReadLE(b, p + 1, h - 0x27))
    case TInt =>
      var v := Signed(ReadLE(b, p + 1, h - 0x1f), h - 0x1f);
      if v < 0 then Err(NumberOutOfRange) else Ok(v)
    case TSmallInt => if h <= 0x39 then Ok(h - 0x30) else Err(NumberOutOfRange)
    case _ => Err(InvalidValueType)
  }

  function StringLength(b: seq<Byte>, p: nat): nat {
    var h := At(b, p);
    if 0x40 <= h <= 0xbe then h - 0x40 else ReadLE(b, p + 1, 8)
  }

  function GetString(b: seq<Byte>, p: nat): seq<Byte> {
    Read(b, p + (if 0x40 <= At(b, p) <= 0xbe then 1 else 9), StringLength(b, p))
  }

  // ---------------------------------------------------------------- compounds

  /** How many members of `size` bytes lie between `first` and `end`. */
  function Quotient(end: nat, first: nat, size: nat): nat
    requires size > 0
  {
    if end < first then 0 else (end - first) / size
  }

  function MemberCount(b: seq<Byte>, p: nat): Result<nat> {
    var h := At(b, p);
    if TypeOf(h) != TArray && TypeOf(h) != TObject then Err(InvalidValueType)
    else if h == 0x01 || h == 0x0a then Ok(0)
    else if h == 0x13 || h == 0x14 then Ok(ReadVarRev(b, p + ReadVar(b, p + 1) - 1))
    else
      var w := EntrySize(h);
      var end := ReadLE(b, p + 1, w);
      if h <= 0x05 then
        var first := FindDataOffset(b, p);
        var s := ByteSize(b, p + first);
        if s == 0 then Err(InternalError) else Ok(Quotient(end, first, s))
      else if w < 8 then Ok(ReadLE(b, p + 1 + w, w))
      else Ok(ReadLE(b, p + end - w, w))
  }

  /** The position behind member `k` of a compact compound whose current member stands at `off`. */
  function Walk(b: seq<Byte>, p: nat, off: nat, pairs: bool, k: nat): nat
    decreases k
  {
    if k == 0 then off else Walk(b, p, Next(b, p, off, pairs), pairs, k - 1)
  }

  function Next(b: seq<Byte>, p: nat, off: nat, pairs: bool): nat {
    var value := off + ByteSize(b, p + off);
    if pairs then value + ByteSize(b, p + value) else value
  }

  function TableBase(b: seq<Byte>, p: nat): int {
    var w := EntrySize(At(b, p));
    var n := MemberCount(b, p);
    ReadLE(b, p + 1, w) - (if n.Ok? then n.value else 0) * w - (if w == 8 then 8 else 0)
  }

  /** Offset of member `index`, relative to the compound: by index table, by equal sizes or by walking. */
  function NthOffset(b: seq<Byte>, p: nat, index: nat): Result<nat> {
    var h := At(b, p);
    var n := MemberCount(b, p);
    if n.Err? then n
    else if index >= n.value then Err(IndexOutOfBounds)
    else if h == 0x13 || h == 0x14 then Ok(Walk(b, p, 1 + VarLen(ReadVar(b, p + 1)), h == 0x14, index))
    else if h <= 0x05 || n.value == 1 then
      var data := FindDataOffset(b, p);
      Ok(data + index * ByteSize(b, p + data))
    else
      var w := EntrySize(h);
      var q := p + TableBase(b, p) + index * w;
      Ok(ReadLE(b, q, w))
  }

  /** The first member, in the order of `NthOffset`, whose key is `attribute`. */
  function Scan(b: seq<Byte>, p: nat, attribute: seq<Byte>, i: nat, n: nat): Option<nat>
    decreases n - i
  {
    if i >= n then None
    else
      var r := NthOffset(b, p, i);
      if r.Ok? && GetString(b, p + r.value) == attribute then Some(r.value + ByteSize(b, p + r.value))
      else Scan(b, p, attribute, i + 1, n)
  }

  /** What looking up `attribute` means: position of its value, relative to the object. */
  function Get(b: seq<Byte>, p: nat, attribute: seq<Byte>): Result<Option<nat>> {
    if TypeOf(At(b, p)) != TObject then Err(InvalidValueType)
    else
      var n := MemberCount(b, p);
      if n.Err? then Err(n.error) else Ok(Scan(b, p, attribute, 0, n.value))
  }

  // ---------------------------------------------------------------- reading back

  /** The bytes at `p` read back as `v`: same scalar, same number of members, same
      i-th member, same value for every key and nothing for any other key. */
  ghost predicate Reads(b: seq<Byte>, p: nat, v: Value)
    decreases v
  {
    match v
    case Null => TypeOf(At(b, p)) == TNull
    case Bool(f) => TypeOf(At(b, p)) == TBool && (At(b, p) == 0x1a <==> f)
    case Double(bits) => TypeOf(At(b, p)) == TDouble && ReadLE(b, p + 1, 8) == bits
    case Int(i) => GetInt(b, p) == Ok(i)
    case UInt(u) => GetUInt(b, p) == Ok(u)
    case Str(s) => TypeOf(At(b, p)) == TString && GetString(b, p) == s
    case Arr(_, elems) =>
      && TypeOf(At(b, p)) == TArray
      && MemberCount(b, p) == Ok(|elems|)
      && forall i :: 0 <= i < |elems| ==>
           NthOffset(b, p, i).Ok? && Reads(b, p + NthOffset(b, p, i).value, elems[i])
    case Obj(_, members) =>
      && TypeOf(At(b, p)) == TObject
      && MemberCount(b, p) == Ok(|members|)
      && (forall i :: 0 <= i < |members| ==>
           && Get(b, p, members[i].key).Ok?
           && Get(b, p, members[i].key).value.Some?
           && Reads(b, p + Get(b, p, members[i].key).value.value, members[i].value))
      && (forall key :: key !in Keys(members) ==> Get(b, p, key) == Ok(None))
  }

  /** Keys are unique in every object. */
  ghost predicate UniqueKeys(v: Value) {
    match v
    case Arr(_, elems) => forall i :: 0 <= i < |elems| ==> UniqueKeys(elems[i])
    case Obj(_, members) => Distinct(Keys(members)) && forall i :: 0 <= i < |members| ==> UniqueKeys(members[i].value)
    case _ => true
  }
}
