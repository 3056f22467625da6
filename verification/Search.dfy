/** The loops of slice access: walking compact compounds and searching object keys. */
module Search {
  import opened Bytes
  import opened Format
  import opened Layout
  import opened Slice
  import opened Sorting
  import opened RoundTrip
  import opened Wrappers

  const TwoTo31 := 0x8000_0000
  const TwoTo32 := 0x1_0000_0000

  // ---------------------------------------------------------------- key comparison

  /** The source narrows the difference of two 64-bit lengths to a 32-bit signed number. */
  function Int32(x: int): (r: int)
    ensures -TwoTo31 <= r < TwoTo31
  {
    var y := x % TwoTo32;
    if y >= TwoTo31 then y - TwoTo32 else y
  }

  function CompareString(key: seq<Byte>, attribute: seq<Byte>): int {
    var c := Memcmp(key, attribute, Min(|key|, |attribute|));
    if c == 0 then Int32(|key| - |attribute|) else c
  }

  /** The comparison says what the order of keys says. */
  predicate Agrees(key: seq<Byte>, attribute: seq<Byte>) {
    var c := CompareString(key, attribute);
    (c < 0 <==> Less(key, attribute)) && (c == 0 <==> key == attribute)
  }

  /** Narrowing keeps the sign of this difference. */
  predicate SignKept(d: int) {
    if d == 0 then true
    else if d > 0 then 0 < d % TwoTo32 < TwoTo31
    else d % TwoTo32 >= TwoTo31
  }

  /** Exactly when comparing agrees with the key order: the keys differ within their common
      length, or narrowing the length difference keeps its sign. */
  lemma CompareStringExact(key: seq<Byte>, attribute: seq<Byte>)
    ensures Agrees(key, attribute) <==>
              Memcmp(key, attribute, Min(|key|, |attribute|)) != 0 || SignKept(|key| - |attribute|)
  {
    MemcmpLess(key, attribute);
  }

  lemma ShortKeysAgree(key: seq<Byte>, attribute: seq<Byte>)
    requires |key| < TwoTo31 && |attribute| < TwoTo31
    ensures Agrees(key, attribute)
  {
    CompareStringExact(key, attribute);
  }

  /** A key of 4 GiB compares equal to the empty attribute. */
  lemma CompareStringCanFail()
    ensures var key: seq<Byte> := Zeros(TwoTo32); !Agrees(key, []) && CompareString(key, []) == 0
  {
    var key: seq<Byte> := Zeros(TwoTo32);
    CompareStringExact(key, []);
  }

  // ---------------------------------------------------------------- searching by halving

  ghost predicate Ascending(keys: seq<seq<Byte>>) {
    forall i, j :: 0 <= i < j < |keys| ==> Less(keys[i], keys[j])
  }

  /** The index at which halving the range from `l` to `r` stops, comparing as the source does. */
  function Find(keys: seq<seq<Byte>>, attribute: seq<Byte>, l: nat, r: int): Option<nat>
    requires r < |keys|
    decreases r - l + 1
  {
    if l > r then None
    else
      var i := l + (r - l) / 2;
      var c := CompareString(keys[i], attribute);
      if c == 0 then Some(i) else if c > 0 then Find(keys, attribute, l, i - 1) else Find(keys, attribute, i + 1, r)
  }

  /** Every key that the halving looks at is compared as the order of keys has it. */
  predicate Trusted(keys: seq<seq<Byte>>, attribute: seq<Byte>, l: nat, r: int)
    requires r < |keys|
    decreases r - l + 1
  {
    l <= r ==>
      var i := l + (r - l) / 2;
      var c := CompareString(keys[i], attribute);
      && Agrees(keys[i], attribute)
      && (c > 0 ==> Trusted(keys, attribute, l, i - 1)) && (c < 0 ==> Trusted(keys, attribute, i + 1, r))
  }

  /** Different, but one begins with the other and their lengths differ by a multiple of 2^32. */
  predicate Confused(key: seq<Byte>, attribute: seq<Byte>) {
    key != attribute && Memcmp(key, attribute, Min(|key|, |attribute|)) == 0 && (|key| - |attribute|) % TwoTo32 == 0
  }

  /** The halving looks at no key that is taken for the attribute without being it. */
  predicate NoneConfused(keys: seq<seq<Byte>>, attribute: seq<Byte>, l: nat, r: int)
    requires r < |keys|
    decreases r - l + 1
  {
    l <= r ==>
      var i := l + (r - l) / 2;
      var c := CompareString(keys[i], attribute);
      && !Confused(keys[i], attribute)
      && (c > 0 ==> NoneConfused(keys, attribute, l, i - 1)) && (c < 0 ==> NoneConfused(keys, attribute, i + 1, r))
  }

  /** What the search has to be able to rely on: when the attribute is there, all comparisons it
      makes; when it is not, only that nothing is taken for it. */
  predicate Faithful(keys: seq<seq<Byte>>, attribute: seq<Byte>) {
    if attribute in keys then Trusted(keys, attribute, 0, |keys| - 1) else NoneConfused(keys, attribute, 0, |keys| - 1)
  }

  /** Where the attribute stands among the keys. */
  function IndexIn(keys: seq<seq<Byte>>, attribute: seq<Byte>): Option<nat> {
    if keys == [] then None
    else if keys[0] == attribute then Some(0)
    else
      var i := IndexIn(keys[1..], attribute);
      if i == None then None else Some(i.value + 1)
  }

  lemma {:induction false} IndexInAt(keys: seq<seq<Byte>>, attribute: seq<Byte>)
    ensures attribute !in keys ==> IndexIn(keys, attribute) == None
    ensures attribute in keys ==> IndexIn(keys, attribute).Some?
    ensures var i := IndexIn(keys, attribute);
      i.Some? ==> i.value < |keys| && keys[i.value] == attribute && forall j :: 0 <= j < i.value ==>
        keys[j] != attribute
  {
    if keys != [] { IndexInAt(keys[1..], attribute); }
  }

  lemma ComparesEqual(key: seq<Byte>, attribute: seq<Byte>)
    ensures CompareString(key, attribute) == 0 <==> key == attribute || Confused(key, attribute)
  {
    MemcmpLess(key, attribute);
  }

  lemma {:induction false} FindInRange(keys: seq<seq<Byte>>, attribute: seq<Byte>, l: nat, r: int)
    requires r < |keys|
    ensures var i := Find(keys, attribute, l, r); i.Some? ==> l <= i.value <= r
    decreases r - l + 1
  {
    hide CompareString;
    if l <= r {
      var i := l + (r - l) / 2;
      FindInRange(keys, attribute, l, i - 1);
      FindInRange(keys, attribute, i + 1, r);
    }
  }

  lemma FindStep(keys: seq<seq<Byte>>, attribute: seq<Byte>, l: nat, r: int)
    requires r < |keys|
    ensures l > r ==> Find(keys, attribute, l, r) == None
    ensures l <= r ==>
      var i := l + (r - l) / 2;
      var c := CompareString(keys[i], attribute);
      Find(keys, attribute, l, r) == if c == 0 then Some(i) else if c > 0 then Find(keys, attribute, l, i - 1)
        else Find(keys, attribute, i + 1, r)
  {
    hide CompareString;
  }

  lemma TrustedStep(keys: seq<seq<Byte>>, attribute: seq<Byte>, l: nat, r: int)
    requires l <= r < |keys|
    ensures var i := l + (r - l) / 2;
      var c := CompareString(keys[i], attribute);
      Trusted(keys, attribute, l, r) <==>
        && Agrees(keys[i], attribute)
        && (c > 0 ==> Trusted(keys, attribute, l, i - 1)) && (c < 0 ==> Trusted(keys, attribute, i + 1, r))
  {
    hide CompareString, Agrees;
  }

  lemma {:induction false} FindPresent(keys: seq<seq<Byte>>, attribute: seq<Byte>, l: nat, r: int, k: nat)
    requires Ascending(keys) && l <= k <= r < |keys| && keys[k] == attribute
    ensures Find(keys, attribute, l, r) == Some(k) <==> Trusted(keys, attribute, l, r)
    decreases r - l + 1
  {
    hide CompareString, Less, Find, Trusted;
    var i := l + (r - l) / 2;
    FindStep(keys, attribute, l, r);
    TrustedStep(keys, attribute, l, r);
    LessIrreflexive(attribute);
    ComparesEqual(attribute, attribute);
    FindInRange(keys, attribute, l, i - 1);
    FindInRange(keys, attribute, i + 1, r);
    if i < k {
      assert Less(keys[i], attribute);
      FindPresent(keys, attribute, i + 1, r, k);
    } else if i > k {
      assert Less(attribute, keys[i]);
      if Less(keys[i], attribute) { LessTransitive(attribute, keys[i], attribute); }
      FindPresent(keys, attribute, l, i - 1, k);
    }
  }

  lemma {:induction false} FindAbsent(keys: seq<seq<Byte>>, attribute: seq<Byte>, l: nat, r: int)
    requires r < |keys| && attribute !in keys
    ensures Find(keys, attribute, l, r) == None <==> NoneConfused(keys, attribute, l, r)
    decreases r - l + 1
  {
    hide CompareString, Confused;
    if l <= r {
      var i := l + (r - l) / 2;
      ComparesEqual(keys[i], attribute);
      FindAbsent(keys, attribute, l, i - 1);
      FindAbsent(keys, attribute, i + 1, r);
    }
  }

  /** Halving ascending keys finds the attribute where it stands, and nothing if it is not there,
      exactly if the comparisons it makes can be relied on. */
  lemma FindExact(keys: seq<seq<Byte>>, attribute: seq<Byte>)
    requires Ascending(keys)
    ensures Find(keys, attribute, 0, |keys| - 1) == IndexIn(keys, attribute) <==> Faithful(keys, attribute)
  {
    hide Find, Trusted, NoneConfused, Less;
    IndexInAt(keys, attribute);
    if attribute in keys {
      FindPresent(keys, attribute, 0, |keys| - 1, IndexIn(keys, attribute).value);
    } else {
      FindAbsent(keys, attribute, 0, |keys| - 1);
    }
  }

  lemma {:induction false} AgreesTrusted(keys: seq<seq<Byte>>, attribute: seq<Byte>, l: nat, r: int)
    requires r < |keys| && forall i :: 0 <= i < |keys| ==> Agrees(keys[i], attribute)
    ensures Trusted(keys, attribute, l, r) && NoneConfused(keys, attribute, l, r)
    decreases r - l + 1
  {
    hide CompareString;
    if l <= r {
      var i := l + (r - l) / 2;
      ComparesEqual(keys[i], attribute);
      assert Agrees(keys[i], attribute);
      AgreesTrusted(keys, attribute, l, i - 1);
      AgreesTrusted(keys, attribute, i + 1, r);
    }
  }

  /** It is enough that every key compares with the attribute as the order of keys has it. */
  lemma AgreeingKeys(keys: seq<seq<Byte>>, attribute: seq<Byte>)
    requires forall i :: 0 <= i < |keys| ==> Agrees(keys[i], attribute)
    ensures Faithful(keys, attribute)
  {
    AgreesTrusted(keys, attribute, 0, |keys| - 1);
  }

  /** Four keys among which the empty one is not found: another is taken for it. */
  function ConfusingKeys(): seq<seq<Byte>> {
    [[], Zeros(TwoTo32), [1], [2]]
  }

  lemma SearchCanFail()
    ensures Ascending(ConfusingKeys()) && IndexIn(ConfusingKeys(), []) == Some(0)
    ensures Find(ConfusingKeys(), [], 0, 3) == Some(1) && !Faithful(ConfusingKeys(), [])
  {
    var keys := ConfusingKeys();
    assert keys[1][0] == 0;
    CompareStringCanFail();
    hide CompareString, Zeros;
    assert Find(keys, [], 0, 3) == Some(1);
    FindExact(keys, []);
  }

  // ---------------------------------------------------------------- walking

  lemma PastTheEnd(b: seq<Byte>, p: nat, index: nat)
    requires MemberCount(b, p).Ok? && MemberCount(b, p).value <= index
    ensures NthOffset(b, p, index) == Err(IndexOutOfBounds)
  {
    hide MemberCount, ByteSize, ReadLE, TableBase, FindDataOffset, Walk;
  }

  /** Slice::getNthOffsetFromCompact. */
  method GetNthOffsetFromCompact(b: seq<Byte>, p: nat, index: nat) returns (r: Result<nat>)
    requires At(b, p) == 0x13 || At(b, p) == 0x14
    ensures r == NthOffset(b, p, index)
  {
    hide NthOffset, ByteSize, ReadVar, ReadVarRev, VarLen, MemberCount;
    var h := At(b, p);
    var end := ReadVar(b, p + 1);
    var n := ReadVarRev(b, p + end - 1);
    CompactSize(b, p);
    if index >= n {
      PastTheEnd(b, p, index);
      return Err(IndexOutOfBounds);
    }
    CompactNth(b, p, index);
    var offset: nat := 1 + VarLen(end);
    var current: nat := 0;
    while current != index
      invariant current <= index
      invariant Walk(b, p, offset, h == 0x14, index - current) == Walk(b, p, 1 + VarLen(end), h == 0x14, index)
    {
      var member := p + offset;
      offset := offset + ByteSize(b, member);
      if h == 0x14 {
        offset := offset + ByteSize(b, p + offset);
      }
      current := current + 1;
    }
    return Ok(offset);
  }

  // ---------------------------------------------------------------- searching

  function KeyAt(b: seq<Byte>, p: nat, i: nat): seq<Byte> {
    GetString(b, p + (if NthOffset(b, p, i).Ok? then NthOffset(b, p, i).value else 0))
  }

  /** Every member is found and has a string key. */
  ghost predicate StringKeys(b: seq<Byte>, p: nat, n: nat) {
    forall i :: 0 <= i < n ==>
      NthOffset(b, p, i).Ok? && TypeOf(At(b, p + NthOffset(b, p, i).value)) == TString
  }

  /** The keys in the order of the table. */
  function TableKeys(b: seq<Byte>, p: nat, n: nat): (r: seq<seq<Byte>>)
    ensures |r| == n
  {
    seq(n, i requires 0 <= i < n => KeyAt(b, p, i))
  }

  /** The position behind the key at `index`, where its value stands. */
  function Located(b: seq<Byte>, p: nat, index: Option<nat>): Option<nat> {
    if index == None then None
    else
      var r := NthOffset(b, p, index.value);
      if r.Err? then None else Some(r.value + ByteSize(b, p + r.value))
  }

  /** Scanning the table locates the attribute where it stands among the keys. */
  lemma ScanIsIndexIn(b: seq<Byte>, p: nat, attribute: seq<Byte>, n: nat)
    requires StringKeys(b, p, n)
    ensures Scan(b, p, attribute, 0, n) == Located(b, p, IndexIn(TableKeys(b, p, n), attribute))
  {
    hide NthOffset, GetString, ByteSize, IndexIn;
    var keys := TableKeys(b, p, n);
    IndexInAt(keys, attribute);
    forall i | 0 <= i < n ensures NthOffset(b, p, i).Ok? && GetString(b, p + NthOffset(b, p, i).value) == keys[i] {
    }
    if attribute in keys {
      ScanStops(b, p, attribute, 0, IndexIn(keys, attribute).value, n);
    } else {
      ScanMisses(b, p, attribute, 0, n);
    }
  }

  /** Entry `i` of the table is what indexing by position uses. */
  ghost predicate TableAt(b: seq<Byte>, p: nat, base: int, w: nat, n: nat) {
    forall i :: 0 <= i < n ==> NthOffset(b, p, i) == Ok(ReadLE(b, p + base + i * w, w))
  }

  lemma {:induction false} ScanSplit(b: seq<Byte>, p: nat, key: seq<Byte>, i: nat, k: nat, n: nat)
    requires i <= k <= n
    requires forall j :: i <= j < k ==> NthOffset(b, p, j).Ok? && KeyAt(b, p, j) != key
    ensures Scan(b, p, key, i, n) == Scan(b, p, key, k, n)
    decreases k - i
  {
    hide NthOffset, GetString, ByteSize;
    if i < k { ScanSplit(b, p, key, i + 1, k, n); }
  }

  /** Slice::searchObjectKeyLinear, without an attribute translator. */
  method SearchObjectKeyLinear(b: seq<Byte>, p: nat, attribute: seq<Byte>, ieBase: int, offsetSize: nat, n: nat)
    returns (r: Result<Option<nat>>)
    ensures TableAt(b, p, ieBase, offsetSize, n) && StringKeys(b, p, n) ==> r == Ok(Scan(b, p, attribute, 0, n))
  {
    hide NthOffset, GetString, ByteSize, ReadLE;
    var index := 0;
    while index < n
      invariant index <= n
      invariant TableAt(b, p, ieBase, offsetSize, n) && StringKeys(b, p, n) ==>
                  Scan(b, p, attribute, 0, n) == Scan(b, p, attribute, index, n)
      decreases n - index
    {
      var key := p + ReadLE(b, p + ieBase + index * offsetSize, offsetSize);
      ghost var known := TableAt(b, p, ieBase, offsetSize, n) && StringKeys(b, p, n);
      assert known ==> NthOffset(b, p, index) == Ok(key - p) && TypeOf(At(b, key)) == TString;
      match TypeOf(At(b, key)) {
        case TString =>
          if GetString(b, key) == attribute {
            return Ok(Some(key - p + ByteSize(b, key)));
          }
        case TSmallInt => return Err(NeedAttributeTranslator);
        case TUInt => return Err(NeedAttributeTranslator);
        case _ => return Ok(None);
      }
      index := index + 1;
    }
    return Ok(None);
  }

  /** Division by two as the source does it, towards zero. */
  function Half(x: int): int {
    if x >= 0 then x / 2 else -((-x) / 2)
  }

  lemma HalvingScans(b: seq<Byte>, p: nat, attribute: seq<Byte>, n: nat)
    requires StringKeys(b, p, n)
    ensures var keys := TableKeys(b, p, n);
      Ascending(keys) && Faithful(keys, attribute) ==>
        Scan(b, p, attribute, 0, n) == Located(b, p, Find(keys, attribute, 0, n - 1))
  {
    hide NthOffset, GetString, ByteSize, Faithful, Ascending, Scan, IndexIn, Find, StringKeys, Located;
    ScanIsIndexIn(b, p, attribute, n);
    if Ascending(TableKeys(b, p, n)) { FindExact(TableKeys(b, p, n), attribute); }
  }

  /** Slice::searchObjectKeyBinary, without an attribute translator. */
  method SearchObjectKeyBinary(b: seq<Byte>, p: nat, attribute: seq<Byte>, ieBase: int, offsetSize: nat, n: nat)
    returns (res: Result<Option<nat>>)
    requires n > 0
    ensures TableAt(b, p, ieBase, offsetSize, n) && StringKeys(b, p, n) ==>
      res == Ok(Located(b, p, Find(TableKeys(b, p, n), attribute, 0, n - 1)))
    ensures TableAt(b, p, ieBase, offsetSize, n) && StringKeys(b, p, n) && Ascending(TableKeys(b, p, n)) &&
      Faithful(TableKeys(b, p, n), attribute)
      ==> res == Ok(Scan(b, p, attribute, 0, n))
  {
    hide NthOffset, GetString, ByteSize, ReadLE, CompareString, Faithful, Ascending, Scan, Find, TableKeys, Located,
      TableAt, StringKeys;
    if StringKeys(b, p, n) { HalvingScans(b, p, attribute, n); }
    ghost var known, keys := TableAt(b, p, ieBase, offsetSize, n) && StringKeys(b, p, n), TableKeys(b, p, n);
    var l, r := 0, n - 1;
    var index := r / 2;
    while true
      invariant 0 <= l <= index <= r < n && index == l + (r - l) / 2
      invariant known ==> Find(keys, attribute, l, r) == Find(keys, attribute, 0, n - 1)
      decreases r - l
    {
      var key := p + ReadLE(b, p + ieBase + index * offsetSize, offsetSize);
      if known { EntryHere(b, p, ieBase, offsetSize, n, index, key); }
      FindStep(keys, attribute, l, r);
      if TypeOf(At(b, key)) != TString {
        return Err(NeedAttributeTranslator);
      }
      var c := CompareString(GetString(b, key), attribute);
      if c > 0 {
        r := index - 1;
      } else if c == 0 {
        return Ok(Some(key - p + ByteSize(b, key)));
      } else {
        l := index + 1;
      }
      index := l + Half(r - l);
      if r < l { break; }
    }
    FindStep(keys, attribute, l, r);
    NothingLocated(b, p);
    return Ok(None);
  }

  lemma NothingLocated(b: seq<Byte>, p: nat)
    ensures Located(b, p, None) == None
  {
  }

  lemma EntryHere(b: seq<Byte>, p: nat, base: int, w: nat, n: nat, i: nat, key: nat)
    requires TableAt(b, p, base, w, n) && StringKeys(b, p, n) && i < n && key == p + ReadLE(b, p + base + i * w, w)
    ensures TypeOf(At(b, key)) == TString && TableKeys(b, p, n)[i] == GetString(b, key)
    ensures Located(b, p, Some(i)) == Some(key - p + ByteSize(b, key))
  {
    hide NthOffset, GetString, ByteSize, ReadLE, TypeOf;
    assert NthOffset(b, p, i) == Ok(key - p);
  }

  // ---------------------------------------------------------------- objects

  /** Slice::getFromCompactObject, iterating as the object iterator does. */
  method GetFromCompactObject(b: seq<Byte>, p: nat, attribute: seq<Byte>) returns (r: Result<Option<nat>>)
    requires At(b, p) == 0x14
    ensures MemberCount(b, p).Ok? && StringKeys(b, p, MemberCount(b, p).value) ==> r == Slice.Get(b, p, attribute)
  {
    hide NthOffset, GetString, ByteSize, ReadVar, ReadVarRev, VarLen, MemberCount;
    var size := ReadVarRev(b, p + ReadVar(b, p + 1) - 1);
    CompactSize(b, p);
    ghost var known := StringKeys(b, p, size);
    assert TypeOf(At(b, p)) == TObject;
    var position: nat := 0;
    var current: nat := 1 + VarLen(ReadVar(b, p + 1));
    ghost var first := current;
    while position < size
      invariant position <= size
      invariant current == Walk(b, p, first, true, position)
      invariant known ==> Scan(b, p, attribute, 0, size) == Scan(b, p, attribute, position, size)
      decreases size - position
    {
      CompactNth(b, p, position);
      var key := p + current;
      assert known ==> NthOffset(b, p, position) == Ok(current) && TypeOf(At(b, key)) == TString;
      match TypeOf(At(b, key)) {
        case TString =>
          if GetString(b, key) == attribute {
            return Ok(Some(current + ByteSize(b, key)));
          }
        case TSmallInt => return Err(NeedAttributeTranslator);
        case TUInt => return Err(NeedAttributeTranslator);
        case _ => return Err(InvalidValueType);
      }
      WalkSnoc(b, p, first, true, position);
      current := Next(b, p, current, true);
      position := position + 1;
    }
    return Ok(None);
  }

  /** A well-formed object: every pair is reachable, its key is a string, and a table that
      claims to be sorted is. */
  ghost predicate Searchable(b: seq<Byte>, p: nat) {
    var h := At(b, p);
    && TypeOf(h) == TObject
    && MemberCount(b, p).Ok?
    && var n := MemberCount(b, p).value;
       && StringKeys(b, p, n)
       && (0x0b <= h <= 0x0e ==> Ascending(TableKeys(b, p, n)))
  }

  function Count(b: seq<Byte>, p: nat): nat {
    if MemberCount(b, p).Ok? then MemberCount(b, p).value else 0
  }

  /** The object is one that is searched by halving. */
  predicate Halved(b: seq<Byte>, p: nat) {
    0x0b <= At(b, p) <= 0x0e && Count(b, p) >= 4
  }

  /** If the search goes by halving, its comparisons can be relied on. */
  predicate Decided(b: seq<Byte>, p: nat, attribute: seq<Byte>) {
    Halved(b, p) ==> Faithful(TableKeys(b, p, Count(b, p)), attribute)
  }

  /** Behind different keys of the table stand values at different positions. */
  ghost predicate ValuesApart(b: seq<Byte>, p: nat, n: nat) {
    forall i, j :: 0 <= i < j < n ==> Located(b, p, Some(i)) != Located(b, p, Some(j))
  }

  /** What halving locates is what scanning finds, if its comparisons can be relied on, and
      only then unless two keys lead to one value. */
  lemma HalvingExact(b: seq<Byte>, p: nat, attribute: seq<Byte>)
    requires Searchable(b, p) && Halved(b, p)
    ensures var found := Located(b, p, Find(TableKeys(b, p, Count(b, p)), attribute, 0, Count(b, p) - 1));
      && (Decided(b, p, attribute) ==> Slice.Get(b, p, attribute) == Ok(found))
      && (ValuesApart(b, p, Count(b, p)) && Slice.Get(b, p, attribute) == Ok(found) ==> Decided(b, p, attribute))
  {
    hide NthOffset, GetString, ByteSize, MemberCount, Find, IndexIn, Faithful, Ascending, TypeOf, KeyAt, TableKeys,
      Located;
    var n, keys := Count(b, p), TableKeys(b, p, Count(b, p));
    ScanIsIndexIn(b, p, attribute, n);
    FindExact(keys, attribute);
    IndexInAt(keys, attribute);
    FindInRange(keys, attribute, 0, n - 1);
    SameLocated(b, p, n, Find(keys, attribute, 0, n - 1), IndexIn(keys, attribute));
  }

  lemma SameLocated(b: seq<Byte>, p: nat, n: nat, x: Option<nat>, y: Option<nat>)
    requires StringKeys(b, p, n) && (x.Some? ==> x.value < n) && (y.Some? ==> y.value < n)
    ensures ValuesApart(b, p, n) && Located(b, p, x) == Located(b, p, y) ==> x == y
  {
    hide Located;
    NothingLocated(b, p);
    if x.Some? { SomethingLocated(b, p, n, x.value); }
    if y.Some? { SomethingLocated(b, p, n, y.value); }
    if x.Some? && y.Some? && ValuesApart(b, p, n) {
      assert x.value < y.value ==> Located(b, p, Some(x.value)) != Located(b, p, Some(y.value));
      assert y.value < x.value ==> Located(b, p, Some(y.value)) != Located(b, p, Some(x.value));
    }
  }

  lemma SomethingLocated(b: seq<Byte>, p: nat, n: nat, i: nat)
    requires StringKeys(b, p, n) && i < n
    ensures Located(b, p, Some(i)).Some?
  {
    hide NthOffset, ByteSize;
  }

  /** Slice::get: one of four ways to look up a key. */
  method Get(b: seq<Byte>, p: nat, attribute: seq<Byte>) returns (r: Result<Option<nat>>)
    ensures TypeOf(At(b, p)) != TObject ==> r == Err(InvalidValueType)
    ensures Searchable(b, p) && Decided(b, p, attribute) ==> r == Slice.Get(b, p, attribute)
    ensures Searchable(b, p) && Halved(b, p) ==>
      r == Ok(Located(b, p, Find(TableKeys(b, p, Count(b, p)), attribute, 0, Count(b, p) - 1)))
  {
    hide NthOffset, GetString, ByteSize, MemberCount, ReadLE, TableBase, EntrySize, FindDataOffset, Slice.Get, Scan,
      Find, TableKeys, Located, StringKeys, TableAt, Searchable, Decided, Halved, Count;
    if Searchable(b, p) { GetScans(b, p, attribute); }
    var h := At(b, p);
    if TypeOf(h) != TObject {
      return Err(InvalidValueType);
    }
    if h == 0x0a {
      EmptyCount(b, p);
      ScanMisses(b, p, attribute, 0, 0);
      return Ok(None);
    }
    if h == 0x14 {
      r := GetFromCompactObject(b, p, attribute);
      return;
    }
    IndexedCount(b, p);
    var offsetSize := EntrySize(h);
    var end := ReadLE(b, p + 1, offsetSize);
    var n: nat;
    var ieBase: int;
    if offsetSize < 8 {
      n := ReadLE(b, p + 1 + offsetSize, offsetSize);
      ieBase := end - n * offsetSize;
    } else {
      n := ReadLE(b, p + end - offsetSize, offsetSize);
      ieBase := end - n * offsetSize - offsetSize;
    }
    if n == 1 {
      if Searchable(b, p) { SingleGet(b, p, attribute); }
      var key := p + FindDataOffset(b, p);
      match TypeOf(At(b, key)) {
        case TString =>
          if GetString(b, key) == attribute {
            return Ok(Some(key - p + ByteSize(b, key)));
          }
        case TSmallInt => return Err(NeedAttributeTranslator);
        case TUInt => return Err(NeedAttributeTranslator);
        case _ =>
      }
      return Ok(None);
    }
    IndexedTable(b, p, n);
    if n >= 4 && 0x0b <= h <= 0x0e {
      r := SearchObjectKeyBinary(b, p, attribute, ieBase, offsetSize, n);
      if Searchable(b, p) { HalvingExact(b, p, attribute); }
    } else {
      r := SearchObjectKeyLinear(b, p, attribute, ieBase, offsetSize, n);
    }
  }

  lemma SingleGet(b: seq<Byte>, p: nat, attribute: seq<Byte>)
    requires Searchable(b, p) && 0x0b <= At(b, p) <= 0x12 && MemberCount(b, p) == Ok(1)
    ensures var key := p + FindDataOffset(b, p);
      && TypeOf(At(b, key)) == TString
      && Slice.Get(b, p, attribute) ==
           Ok(if GetString(b, key) == attribute then Some(key - p + ByteSize(b, key)) else None)
  {
    hide MemberCount, GetString, ByteSize, FindDataOffset, Ascending, TableKeys, NthOffset;
    SingleNth(b, p);
  }

  lemma GetScans(b: seq<Byte>, p: nat, attribute: seq<Byte>)
    requires Searchable(b, p)
    ensures TypeOf(At(b, p)) == TObject && MemberCount(b, p).Ok? && StringKeys(b, p, MemberCount(b, p).value)
    ensures Slice.Get(b, p, attribute) == Ok(Scan(b, p, attribute, 0, MemberCount(b, p).value))
    ensures Halved(b, p) <==> 0x0b <= At(b, p) <= 0x0e && MemberCount(b, p).value >= 4
    ensures Count(b, p) == MemberCount(b, p).value
  {
    hide MemberCount, Ascending, StringKeys, Scan, TableKeys;
  }

  lemma IndexedCount(b: seq<Byte>, p: nat)
    requires 0x0b <= At(b, p) <= 0x12
    ensures var w := EntrySize(At(b, p)); var end := ReadLE(b, p + 1, w);
      && w in {1, 2, 4, 8}
      && MemberCount(b, p) == Ok(if w < 8 then ReadLE(b, p + 1 + w, w) else ReadLE(b, p + end - w, w))
      && TableBase(b, p) == end - MemberCount(b, p).value * w - (if w == 8 then w else 0)
  {
    hide ReadLE;
  }

  lemma IndexedTable(b: seq<Byte>, p: nat, n: nat)
    requires 0x0b <= At(b, p) <= 0x12 && MemberCount(b, p) == Ok(n) && n != 1
    ensures TableAt(b, p, TableBase(b, p), EntrySize(At(b, p)), n)
  {
    hide ReadLE, MemberCount, TableBase, EntrySize;
  }

  lemma SingleNth(b: seq<Byte>, p: nat)
    requires 0x0b <= At(b, p) <= 0x12 && MemberCount(b, p) == Ok(1)
    ensures NthOffset(b, p, 0) == Ok(FindDataOffset(b, p))
  {
    hide ReadLE, MemberCount, TableBase, EntrySize, FindDataOffset, ByteSize;
  }

  // ---------------------------------------------------------------- built objects

  lemma ValuesSized(b: seq<Byte>, o: Options, compact: bool, members: seq<Member>)
    requires |Encode(o, Obj(compact, members))| < Limit && UniqueKeys(Obj(compact, members))
    requires Roomy(o, Obj(compact, members))
    ensures forall i :: 0 <= i < |members| ==> Sized(b, EncodeValues(o, members)[i])
  {
    hide ObjectBytes, Encode, EncodeMembers, Has, ByteSize;
    forall i | 0 <= i < |members| ensures Sized(b, EncodeValues(o, members)[i]) {
      PairFits(o, compact, members, i);
      forall q: nat | Has(b, q, Encode(o, members[i].value))
        ensures ByteSize(b, q) == |Encode(o, members[i].value)| && At(b, q) != 0
      {
        EncodingReadsBack(b, q, o, members[i].value);
      }
    }
  }

  lemma PairsSearchable(b: seq<Byte>, p: nat, o: Options, compact: bool, keys: seq<seq<Byte>>, vs: seq<seq<Byte>>,
      ms: seq<seq<Byte>>)
    returns (perm: seq<nat>)
    requires Pairs(b, keys, vs, ms) && Distinct(keys) && ObjectRoom(o, compact, ms)
    requires |ObjectBytes(o, compact, keys, ms)| < Limit && Has(b, p, ObjectBytes(o, compact, keys, ms))
    ensures Searchable(b, p) && Count(b, p) == |ms| && ValuesApart(b, p, |ms|)
    ensures |perm| == |ms| && (forall i :: 0 <= i < |perm| ==> perm[i] < |ms|) &&
      (forall j :: 0 <= j < |ms| ==> j in perm)
    ensures forall i :: 0 <= i < |ms| ==> TableKeys(b, p, |ms|)[i] == keys[perm[i]]
  {
    hide ObjectBytes, NthOffset, GetString, ByteSize, MemberCount, Less, Has, EncodeString, TypeOf, Start;
    var data;
    perm, data := ObjectReads(b, p, o, compact, keys, vs, ms);
    forall i | 0 <= i < |ms|
      ensures TypeOf(At(b, p + NthOffset(b, p, i).value)) == TString && KeyAt(b, p, i) == keys[perm[i]]
      ensures Located(b, p, Some(i)) == Some(data + Start(ms, perm[i]) + |EncodeString(keys[perm[i]])|)
    {
      PairReads(b, p + NthOffset(b, p, i).value, keys[perm[i]], vs[perm[i]]);
    }
    forall i, j | 0 <= i < j < |ms| ensures Located(b, p, Some(i)) != Located(b, p, Some(j)) {
      KeysApart(keys, vs, ms, perm[i], perm[j]);
      assert Located(b, p, Some(i)) == Some(data + Start(ms, perm[i]) + |EncodeString(keys[perm[i]])|);
      assert Located(b, p, Some(j)) == Some(data + Start(ms, perm[j]) + |EncodeString(keys[perm[j]])|);
    }
  }

  /** Behind the keys of different pairs are different positions. */
  lemma KeysApart(keys: seq<seq<Byte>>, vs: seq<seq<Byte>>, ms: seq<seq<Byte>>, i: nat, j: nat)
    requires |keys| == |vs| == |ms| && i < |ms| && j < |ms| && i != j
    requires forall k :: 0 <= k < |ms| ==> ms[k] == EncodeString(keys[k]) + vs[k] && |vs[k]| >= 1
    ensures Start(ms, i) + |EncodeString(keys[i])| != Start(ms, j) + |EncodeString(keys[j])|
  {
    hide EncodeString;
    if i < j { StartMonotone(ms, i + 1, j); } else { StartMonotone(ms, j + 1, i); }
  }

  lemma SameKeys(keys: seq<seq<Byte>>, table: seq<seq<Byte>>, perm: seq<nat>)
    requires |keys| == |table| == |perm| &&
      (forall i :: 0 <= i < |perm| ==> perm[i] < |keys| && table[i] == keys[perm[i]])
    requires forall j :: 0 <= j < |keys| ==> j in perm
    ensures forall key :: key in table <==> key in keys
  {
    forall key | key in keys ensures key in table {
      var j :| 0 <= j < |keys| && keys[j] == key;
      assert j in perm;
      var i :| 0 <= i < |perm| && perm[i] == j;
      assert table[i] == key;
    }
  }

  lemma EmptySearchable(b: seq<Byte>, p: nat)
    requires TypeOf(At(b, p)) == TObject && MemberCount(b, p) == Ok(0)
    ensures Searchable(b, p) && Count(b, p) == 0 && TableKeys(b, p, 0) == []
  {
    hide MemberCount, NthOffset;
  }

  /** Every object the builder leaves is searchable, by the keys of its members. */
  lemma BuiltObjectSearchable(b: seq<Byte>, p: nat, o: Options, compact: bool, members: seq<Member>)
    requires Has(b, p, Encode(o, Obj(compact, members))) && |Encode(o, Obj(compact, members))| < Limit
    requires UniqueKeys(Obj(compact, members)) && Roomy(o, Obj(compact, members))
    ensures Searchable(b, p) && Count(b, p) == |members| && ValuesApart(b, p, |members|)
    ensures forall key :: key in TableKeys(b, p, |members|) <==> key in Keys(members)
  {
    hide ObjectBytes, NthOffset, ByteSize, MemberCount, Has, EncodeMembers, TypeOf, EncodeValues, Searchable,
      TableKeys, Located, Count;
    if members != [] {
      ValuesSized(b, o, compact, members);
      MembersArePairs(b, o, compact, members);
      var perm := PairsSearchable(b, p, o, compact, Keys(members), EncodeValues(o, members), EncodeMembers(o, members));
      SameKeys(Keys(members), TableKeys(b, p, |members|), perm);
    } else {
      EmptyObjectReads(b, p, o, Obj(compact, members));
      EmptySearchable(b, p);
    }
  }

  lemma AgreeingMembers(b: seq<Byte>, p: nat, members: seq<Member>, attribute: seq<Byte>)
    requires Count(b, p) == |members| && forall key :: key in TableKeys(b, p, |members|) <==> key in Keys(members)
    requires forall i :: 0 <= i < |members| ==> Agrees(members[i].key, attribute)
    ensures Decided(b, p, attribute)
  {
    hide Agrees, MemberCount, NthOffset, Faithful, TableKeys, Count;
    var keys := TableKeys(b, p, |members|);
    forall i | 0 <= i < |keys| ensures Agrees(keys[i], attribute) {
      assert keys[i] in Keys(members);
    }
    AgreeingKeys(keys, attribute);
  }

  /** The source's lookup in a built object is right exactly if it goes another way than halving
      or the comparisons of the halving can be relied on. Then it gives a position that reads
      back as the value stored under the key, and nothing for any other key. */
  method BuiltObjectGet(b: seq<Byte>, p: nat, ghost o: Options, ghost compact: bool, ghost members: seq<Member>,
      attribute: seq<Byte>)
    returns (r: Result<Option<nat>>)
    requires Has(b, p, Encode(o, Obj(compact, members))) && |Encode(o, Obj(compact, members))| < Limit
    requires UniqueKeys(Obj(compact, members)) && Roomy(o, Obj(compact, members))
    ensures r == Slice.Get(b, p, attribute) <==> Decided(b, p, attribute)
    ensures Decided(b, p, attribute) && attribute !in Keys(members) ==> r == Ok(None)
    ensures Decided(b, p, attribute) ==> forall i :: 0 <= i < |members| && members[i].key == attribute ==>
      r.Ok? && r.value.Some? && Reads(b, p + r.value.value, members[i].value)
    ensures (forall i :: 0 <= i < |members| ==> Agrees(members[i].key, attribute)) ==> Decided(b, p, attribute)
  {
    hide Encode, ByteSize, MemberCount, Has, TypeOf, Searchable, Slice.Get, Faithful, Located, Find, TableKeys,
      UniqueKeys, Agrees, Count;
    BuiltObjectSearchable(b, p, o, compact, members);
    EncodingReadsBack(b, p, o, Obj(compact, members));
    r := Get(b, p, attribute);
    if Halved(b, p) { HalvingExact(b, p, attribute); }
    if forall i :: 0 <= i < |members| ==> Agrees(members[i].key, attribute) {
      AgreeingMembers(b, p, members, attribute);
    }
  }

  // ---------------------------------------------------------------- a lookup that goes wrong

  /** An object with the four confusing keys. */
  function Confusing(): Value {
    var keys := ConfusingKeys();
    Obj(false, [Member(keys[0], Null), Member(keys[1], Bool(true)), Member(keys[2], Null), Member(keys[3], Null)])
  }

  lemma ConfusingUnique()
    ensures UniqueKeys(Confusing()) && Keys(Confusing().members) == ConfusingKeys() && Distinct(ConfusingKeys())
  {
    hide Zeros;
    var members, keys := Confusing().members, ConfusingKeys();
    assert Keys(members) == keys;
    assert |keys[1]| == TwoTo32;
    assert keys[2] != keys[3] by { assert keys[2][0] != keys[3][0]; }
    assert Distinct(keys);
  }

  lemma ConfusingSize(o: Options)
    requires !o.unindexedObjects
    ensures |Encode(o, Confusing())| < Limit && 0x0b <= Encode(o, Confusing())[0] <= 0x0e
    ensures Roomy(o, Confusing())
  {
    hide Zeros, LE, IndexedBytes, SortedStarts, Flatten;
    var members := Confusing().members;
    var ms, keys := EncodeMembers(o, members), Keys(members);
    var w := Width(o, |Flatten(ms)|, 4, true);
    FlattenLength(ms);
    assert |ms[0]| == 2 && |ms[1]| == TwoTo32 + 10 && |ms[2]| == 3 && |ms[3]| == 3;
    assert Start(ms, 4) == Start(ms, 3) + 3 && Start(ms, 3) == Start(ms, 2) + 3 &&
      Start(ms, 2) == Start(ms, 1) + TwoTo32 + 10 && Start(ms, 1) == 2;
    IndexedTotal(o, 0x0b + WidthCode(w), ms, true, SortedStarts(keys, Starts(ms)));
    IndexedHead(0x0b + WidthCode(w), w, DataStart(o, w, true), Flatten(ms), true, 4, SortedStarts(keys, Starts(ms)));
  }

  lemma {:induction false} RisingIsIdentity(perm: seq<nat>, n: nat, i: nat)
    requires |perm| == n && i < n && (forall j :: 0 <= j < n ==> perm[j] < n) && forall j, k :: 0 <= j < k < n ==>
      perm[j] < perm[k]
    ensures perm[i] == i
  {
    RisingAtLeast(perm, n, i);
    RisingAtMost(perm, n, i);
  }

  lemma {:induction false} RisingAtLeast(perm: seq<nat>, n: nat, i: nat)
    requires |perm| == n && i < n && forall j, k :: 0 <= j < k < n ==> perm[j] < perm[k]
    ensures perm[i] >= i
  {
    if i > 0 { RisingAtLeast(perm, n, i - 1); }
  }

  lemma {:induction false} RisingAtMost(perm: seq<nat>, n: nat, i: nat)
    requires |perm| == n && i < n && (forall j :: 0 <= j < n ==> perm[j] < n) && forall j, k :: 0 <= j < k < n ==>
      perm[j] < perm[k]
    ensures perm[i] <= i
    decreases n - i
  {
    if i + 1 < n { RisingAtMost(perm, n, i + 1); }
  }

  /** A table that lists ascending keys in ascending order lists them as they stand. */
  lemma SameOrder(keys: seq<seq<Byte>>, table: seq<seq<Byte>>, perm: seq<nat>)
    requires Ascending(keys) && Ascending(table) && |keys| == |table| == |perm|
    requires forall i :: 0 <= i < |perm| ==> perm[i] < |keys| && table[i] == keys[perm[i]]
    ensures table == keys
  {
    hide Less, Ascending;
    forall i, j | 0 <= i < j < |perm| ensures perm[i] < perm[j] {
      KeepsOrder(keys, table, perm[i], perm[j], i, j);
    }
    forall i | 0 <= i < |perm| ensures table[i] == keys[i] { RisingIsIdentity(perm, |perm|, i); }
  }

  lemma KeepsOrder(keys: seq<seq<Byte>>, table: seq<seq<Byte>>, a: nat, c: nat, i: nat, j: nat)
    requires Ascending(keys) && Ascending(table) && a < |keys| && c < |keys| && i < j < |table|
    requires table[i] == keys[a] && table[j] == keys[c]
    ensures a < c
  {
    hide Less;
    assert Less(table[i], table[j]);
    LessIrreflexive(table[i]);
    if c < a {
      assert Less(keys[c], keys[a]);
      LessTransitive(table[i], table[j], table[i]);
    }
  }

  /** The built object has the four keys in its table, and is searched by halving. */
  lemma ConfusingTable(o: Options)
    requires !o.unindexedObjects
    ensures var b := Encode(o, Confusing());
      |b| < Limit && Searchable(b, 0) && Halved(b, 0) && Count(b, 0) == 4 && TableKeys(b, 0, 4) == ConfusingKeys()
  {
    hide Encode, Zeros, ConfusingKeys, UniqueKeys, Less, MemberCount, NthOffset, Located, TableKeys, Ascending,
      ObjectBytes, EncodeString;
    var b, members := Encode(o, Confusing()), Confusing().members;
    ConfusingUnique();
    ConfusingSize(o);
    SearchCanFail();
    ValuesSized(b, o, false, members);
    MembersArePairs(b, o, false, members);
    ObjectIs(o, members);
    var perm := PairsSearchable(b, 0, o, false, Keys(members), EncodeValues(o, members), EncodeMembers(o, members));
    SameOrder(ConfusingKeys(), TableKeys(b, 0, 4), perm);
  }

  lemma ObjectIs(o: Options, members: seq<Member>)
    ensures Encode(o, Obj(false, members)) == ObjectBytes(o, false, Keys(members), EncodeMembers(o, members))
  {
    hide ObjectBytes, Keys, EncodeMembers;
  }

  /** Looking up the empty key in this object gives what is stored under another key. */
  method ConfusingLookup(o: Options, b: seq<Byte>) returns (r: Result<Option<nat>>)
    requires !o.unindexedObjects && b == Encode(o, Confusing())
    ensures Slice.Get(b, 0, []).Ok? && Slice.Get(b, 0, []).value.Some? &&
      Reads(b, Slice.Get(b, 0, []).value.value, Null)
    ensures r.Ok? && r.value.Some? && Reads(b, r.value.value, Bool(true)) && !Decided(b, 0, [])
  {
    hide Encode, Zeros, ConfusingKeys, Faithful, Find, MemberCount, NthOffset, Located, TableKeys, Ascending, Scan,
      IndexIn, Reads;
    ConfusingTable(o);
    SearchCanFail();
    ConfusingReads(o, b);
    r := Get(b, 0, []);
  }

  lemma ConfusingReads(o: Options, b: seq<Byte>)
    requires !o.unindexedObjects && b == Encode(o, Confusing())
    ensures Slice.Get(b, 0, []).Ok? && Slice.Get(b, 0, []).value.Some? &&
      Reads(b, Slice.Get(b, 0, []).value.value, Null)
    ensures Located(b, 0, Some(1)).Some? && Reads(b, Located(b, 0, Some(1)).value, Bool(true))
  {
    hide Encode, Zeros, MemberCount, NthOffset, Located, TableKeys, Ascending, Scan, IndexIn, UniqueKeys, StringKeys;
    ConfusingTable(o);
    ConfusingUnique();
    EncodingReadsBack(b, 0, o, Confusing());
    var members, keys := Confusing().members, ConfusingKeys();
    assert members[0].key == [] && members[1].key == keys[1];
    ScanIsIndexIn(b, 0, keys[1], 4);
    IndexInAt(keys, keys[1]);
    assert keys[0] != keys[1] && keys[2] != keys[1] && keys[3] != keys[1];
    assert IndexIn(keys, keys[1]) == Some(1);
  }
}
