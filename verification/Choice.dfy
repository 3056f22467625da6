/** Which layout and which width a finished array or object gets, read off its bytes. */
module Choice {
  import opened Bytes
  import opened Format
  import opened Layout
  import opened Slice

  /** The members of an array or object, each in its own bytes. */
  function Parts(o: Options, v: Value): seq<seq<Byte>>
    requires v.Arr? || v.Obj?
  {
    if v.Arr? then EncodeAll(o, v.elems) else EncodeMembers(o, v.members)
  }

  /** The compact layout is asked for by the caller or by an option; an object with one member
      needs no table. */
  predicate CompactWanted(o: Options, v: Value)
    requires v.Arr? || v.Obj?
  {
    v.compact || (if v.Arr? then o.unindexedArrays else o.unindexedObjects || |v.members| == 1)
  }

  /** Neither empty nor compact. */
  predicate Indexed(head: Byte) {
    0x02 <= head <= 0x09 || 0x0b <= head <= 0x12
  }

  predicate HasTable(head: Byte) {
    head >= 0x06
  }

  /** The bytes to be counted for fields of `w` bytes: one-byte fields make a short header, with
      wider ones the header that was reserved counts in full; then the members and the table. */
  function Needed(w: nat, body: nat, n: nat, table: bool): nat {
    (if w > 1 then 9 else if table then 3 else 2) + body + (if table then w * n else 0)
  }

  // ---------------------------------------------------------------- the layout

  /** Empty, compact, plain or with a table: each in exactly one case. */
  lemma LayoutChosen(o: Options, v: Value)
    requires v.Arr? || v.Obj?
    ensures var head, ms := Encode(o, v)[0], Parts(o, v);
      var fits := CompactWanted(o, v) && CompactFits(|Flatten(ms)|, |ms|);
      && (ms == [] <==> head == if v.Arr? then 0x01 else 0x0a)
      && (ms != [] && fits <==> head == if v.Arr? then 0x13 else 0x14)
      && (ms != [] && !fits <==> Indexed(head))
      && (Indexed(head) ==> (head <= 0x09 <==> v.Arr?) && (HasTable(head) <==> v.Obj? || !SameSize(ms)))
  {
    hide IndexedBytes, CompactBytes, CompactFits, DataStart, Width, SortedStarts, Starts, SameSize, Flatten;
    var ms := Parts(o, v);
    if v.Arr? {
      if !SameSize(ms) {
        HeadOf(0x06, o, ms, true, Starts(ms));
      } else {
        HeadOf(0x02, o, ms, false, Starts(ms));
      }
    } else {
      HeadOf(0x0b, o, ms, true, SortedStarts(Keys(v.members), Starts(ms)));
    }
    CompactHead(0x13, Flatten(ms), |ms|);
    CompactHead(0x14, Flatten(ms), |ms|);
  }

  lemma CompactHead(head: Byte, body: seq<Byte>, n: nat)
    ensures CompactBytes(head, body, n) != [] && CompactBytes(head, body, n)[0] == head
  {
  }

  function IndexedAs(base: Byte, o: Options, ms: seq<seq<Byte>>, table: bool, offs: seq<nat>): seq<Byte>
    requires base <= 0x0b
  {
    var w := Width(o, |Flatten(ms)|, |ms|, table);
    IndexedBytes(base + WidthCode(w), w, DataStart(o, w, table), Flatten(ms), table, |ms|, offs)
  }

  lemma HeadOf(base: Byte, o: Options, ms: seq<seq<Byte>>, table: bool, offs: seq<nat>)
    requires base <= 0x0b
    ensures var w := Width(o, |Flatten(ms)|, |ms|, table);
      IndexedAs(base, o, ms, table, offs) != [] && IndexedAs(base, o, ms, table, offs)[0] == base + WidthCode(w)
  {
  }

  /** The bytes of a compound that is neither empty nor compact. */
  lemma IndexedForm(o: Options, v: Value) returns (base: Byte, table: bool, offs: seq<nat>)
    requires (v.Arr? || v.Obj?) && Indexed(Encode(o, v)[0])
    ensures base in {0x02, 0x06, 0x0b} && (table <==> base != 0x02) && |offs| == |Parts(o, v)|
    ensures Encode(o, v) == IndexedAs(base, o, Parts(o, v), table, offs)
    ensures var w := Width(o, |Flatten(Parts(o, v))|, |Parts(o, v)|, table);
      Encode(o, v)[0] == base + WidthCode(w) && EntrySize(Encode(o, v)[0]) == w &&
      (table <==> HasTable(Encode(o, v)[0]))
  {
    LayoutChosen(o, v);
    hide IndexedAs, CompactFits, Width, SortedStarts, Starts, SameSize, Flatten, EncodeAll, EncodeMembers, EntrySize,
      WidthCode, HasTable, Encode, Indexed;
    var ms := Parts(o, v);
    base := if v.Obj? then 0x0b else if SameSize(ms) then 0x02 else 0x06;
    table := base != 0x02;
    if v.Arr? {
      offs := Starts(ms);
      ArrayForm(o, v, ms);
    } else {
      offs := SortedStarts(Keys(v.members), Starts(ms));
      ObjectForm(o, v, ms);
    }
    HeadOf(base, o, ms, table, offs);
    HeadWidth(base, Width(o, |Flatten(ms)|, |ms|, table));
  }

  lemma HeadWidth(base: Byte, w: nat)
    requires base in {0x02, 0x06, 0x0b} && w in {1, 2, 4, 8}
    ensures EntrySize(base + WidthCode(w)) == w && (HasTable(base + WidthCode(w)) <==> base != 0x02)
  {
  }

  lemma ArrayForm(o: Options, v: Value, ms: seq<seq<Byte>>)
    requires v.Arr? && ms == Parts(o, v) != [] && !(CompactWanted(o, v) && CompactFits(|Flatten(ms)|, |ms|))
    ensures Encode(o, v) == IndexedAs(if SameSize(ms) then 0x02 else 0x06, o, ms, !SameSize(ms), Starts(ms))
  {
    hide IndexedBytes, CompactFits, DataStart, Width, Starts, SameSize, Flatten, EncodeAll;
  }

  lemma ObjectForm(o: Options, v: Value, ms: seq<seq<Byte>>)
    requires v.Obj? && ms == Parts(o, v) != [] && !(CompactWanted(o, v) && CompactFits(|Flatten(ms)|, |ms|))
    ensures Encode(o, v) == IndexedAs(0x0b, o, ms, true, SortedStarts(Keys(v.members), Starts(ms)))
  {
    hide IndexedBytes, CompactFits, DataStart, Width, SortedStarts, Starts, Flatten, EncodeMembers, Keys;
  }

  // ---------------------------------------------------------------- the width

  /** The fields are as narrow as they can be: the least of 1, 2 and 4 bytes that hold what is
      needed, 8 bytes if none does. Only an array without table may get 8 bytes for the sake of
      padding, and then it does. */
  lemma WidthIsLeast(o: Options, v: Value, less: nat)
    requires (v.Arr? || v.Obj?) && Indexed(Encode(o, v)[0])
    ensures var head, ms := Encode(o, v)[0], Parts(o, v);
      var w, n, body, table := EntrySize(head), |ms|, |Flatten(ms)|, HasTable(head);
      && w in {1, 2, 4, 8}
      && (if o.padding == UsePadding && !table then w == 8
          else
            && (w < 8 ==> Needed(w, body, n, table) <= Pow256(w) - 1)
            && (less in {1, 2, 4} && less < w ==> Needed(less, body, n, table) > Pow256(less) - 1))
  {
    hide Flatten, IndexedAs, Encode, EncodeAll, EncodeMembers;
    var base, table, offs := IndexedForm(o, v);
    Pow256Values();
  }

  // ---------------------------------------------------------------- where the members stand

  /** Where the members begin: behind the header, or at the tenth byte if the header was not
      moved down. Fields of one byte are moved down to unless padding is forced, fields of two
      bytes only if there is to be no padding at all. */
  lemma MembersPlaced(o: Options, v: Value)
    requires (v.Arr? || v.Obj?) && Indexed(Encode(o, v)[0])
    ensures var b, ms := Encode(o, v), Parts(o, v);
      var w, n, body, table := EntrySize(b[0]), |ms|, |Flatten(ms)|, HasTable(b[0]);
      var header, moved := 1 + (if table && w < 8 then 2 * w else w),
        (w == 1 && o.padding != UsePadding) || (w == 2 && o.padding == NoPadding);
      var data := if moved then header else 9;
      && |b| == data + body + (if table then n * w else 0) + (if table && w == 8 then 8 else 0)
      && Has(b, data, Flatten(ms))
      && (forall q :: header <= q < data ==> At(b, q) == 0)
  {
    hide Flatten, Encode, EncodeAll, EncodeMembers, Width, IndexedHeader, Table, Zeros, LE;
    var base, table, offs := IndexedForm(o, v);
    var ms := Parts(o, v);
    var w := Width(o, |Flatten(ms)|, |ms|, table);
    Placed(base + WidthCode(w), w, DataStart(o, w, table), Flatten(ms), table, |ms|, offs);
  }

  lemma Placed(head: Byte, w: nat, data: nat, body: seq<Byte>, table: bool, n: nat, offs: seq<nat>)
    requires w in {1, 2, 4, 8} && 1 + (if table && w < 8 then 2 * w else w) <= data <= 9 && |offs| == n
    ensures var b, header := IndexedBytes(head, w, data, body, table, n, offs),
      1 + (if table && w < 8 then 2 * w else w);
      && |b| == data + |body| + (if table then n * w else 0) + (if table && w == 8 then 8 else 0)
      && Has(b, data, body)
      && (forall q :: header <= q < data ==> At(b, q) == 0)
  {
    hide LE, Table, IndexedHeader;
    var total := IndexedLength(data, w, |body|, table, n);
    HeaderLength(head, w, total, table, n);
  }
}
