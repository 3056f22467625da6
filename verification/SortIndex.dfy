/** Sorting the index table of an object: the two comparators and what they agree on. */
module SortIndex {
  import opened Bytes
  import opened Format
  import opened Slice
  import opened Sorting

  /** std::sort with a comparator that orders elements by key. */
  method StdSort<T(==)>(xs: seq<T>, less: (T, T) -> bool, ghost key: T -> seq<Byte>) returns (r: seq<T>)
    requires forall x, y :: x in xs && y in xs ==> (less(x, y) <==> Less(key(x), key(y)))
    ensures multiset(r) == multiset(xs)
    ensures Ordered(r, key)
  {
    hide Less, Ordered;
    r := [];
    NothingOrdered(key);
    var i := 0;
    while i < |xs|
      invariant i <= |xs| && multiset(r) == multiset(xs[..i])
      invariant Ordered(r, key)
      invariant forall x :: x in r ==> x in xs
    {
      var x := xs[i];
      var k := Place(r, x, less, key);
      InsertedOrdered(r, x, key, k);
      assert xs[..i + 1] == xs[..i] + [x];
      r := r[..k] + [x] + r[k..];
      i := i + 1;
    }
    assert xs[..|xs|] == xs;
  }

  method Place<T>(r: seq<T>, x: T, less: (T, T) -> bool, ghost key: T -> seq<Byte>) returns (k: nat)
    requires Ordered(r, key) && forall y :: y in r ==> (less(x, y) <==> Less(key(x), key(y)))
    ensures k <= |r|
    ensures forall a :: 0 <= a < k ==> !Less(key(x), key(r[a]))
    ensures forall c :: k <= c < |r| ==> !Less(key(r[c]), key(x))
  {
    hide Less, Ordered;
    k := 0;
    while k < |r| && !less(x, r[k])
      invariant k <= |r| && forall a :: 0 <= a < k ==> !Less(key(x), key(r[a]))
    {
      k := k + 1;
    }
    if k < |r| { NotLessAfter(r, x, key, k); }
  }

  ghost predicate Ordered<T>(r: seq<T>, key: T -> seq<Byte>) {
    forall a, c :: 0 <= a < c < |r| ==> !Less(key(r[c]), key(r[a]))
  }

  lemma NothingOrdered<T>(key: T -> seq<Byte>)
    ensures Ordered([], key)
  {
  }

  lemma InsertedOrdered<T>(r: seq<T>, x: T, key: T -> seq<Byte>, k: nat)
    requires k <= |r| && Ordered(r, key)
    requires forall a :: 0 <= a < k ==> !Less(key(x), key(r[a]))
    requires forall c :: k <= c < |r| ==> !Less(key(r[c]), key(x))
    ensures Ordered(r[..k] + [x] + r[k..], key)
    ensures multiset(r[..k] + [x] + r[k..]) == multiset(r) + multiset{x}
    ensures forall y :: y in r[..k] + [x] + r[k..] <==> y in r || y == x
  {
    hide Less;
    assert r == r[..k] + r[k..];
  }

  lemma NotLessAfter<T>(r: seq<T>, x: T, key: T -> seq<Byte>, k: nat)
    requires k < |r| && Less(key(x), key(r[k]))
    requires Ordered(r, key)
    ensures forall c :: k <= c < |r| ==> !Less(key(r[c]), key(x))
  {
    hide Less;
    forall c | k <= c < |r| ensures !Less(key(r[c]), key(x)) {
      if Less(key(r[c]), key(x)) {
        LessTransitive(key(r[c]), key(x), key(r[k]));
        if c == k { LessIrreflexive(key(r[k])); }
      }
    }
  }

  // ---------------------------------------------------------------- comparators

  /** findAttrName: where the bytes of a string key begin and how many there are. */
  function FindAttrName(b: seq<Byte>, base: nat): (r: (nat, nat)) {
    if 0x40 <= At(b, base) <= 0xbe then (base + 1, At(b, base) - 0x40) else (base + 9, ReadLE(b, base + 1, 8))
  }

  /** The comparator for small tables, with its path for two short strings. */
  predicate ShortTableLess(b: seq<Byte>, objBase: nat, x: nat, y: nat) {
    var aa, bb := objBase + x, objBase + y;
    if 0x40 <= At(b, aa) <= 0xbe && 0x40 <= At(b, bb) <= 0xbe then
      var m := Min(At(b, aa) - 0x40, At(b, bb) - 0x40);
      var c := Memcmp(Read(b, aa + 1, m), Read(b, bb + 1, m), m);
      c < 0 || (c == 0 && At(b, aa) < At(b, bb))
    else
      var (na, lena) := FindAttrName(b, aa);
      var (nb, lenb) := FindAttrName(b, bb);
      var m := Min(lena, lenb);
      var c := Memcmp(Read(b, na, m), Read(b, nb, m), m);
      c < 0 || (c == 0 && lena < lenb)
  }

  datatype SortEntry = SortEntry(nameStart: nat, nameSize: nat, offset: nat)

  /** The comparator for large tables, on names looked up beforehand. */
  predicate LongTableLess(b: seq<Byte>, x: SortEntry, y: SortEntry) {
    var m := Min(x.nameSize, y.nameSize);
    var c := Memcmp(Read(b, x.nameStart, m), Read(b, y.nameStart, m), m);
    c < 0 || (c == 0 && x.nameSize < y.nameSize)
  }

  lemma {:induction false} MemcmpPrefix(a: seq<Byte>, b: seq<Byte>, m: nat)
    requires m <= |a| && m <= |b|
    ensures Memcmp(a[..m], b[..m], m) == Memcmp(a, b, m)
    decreases m
  {
    if m > 0 {
      assert a[..m][1..] == a[1..][..m - 1] && b[..m][1..] == b[1..][..m - 1];
      MemcmpPrefix(a[1..], b[1..], m - 1);
    }
  }

  lemma ReadPrefix(b: seq<Byte>, p: nat, n: nat, m: nat)
    requires m <= n
    ensures Read(b, p, m) == Read(b, p, n)[..m]
  {
  }

  lemma NamesCompare(b: seq<Byte>, p: nat, n: nat, q: nat, k: nat)
    ensures var m := Min(n, k); var c := Memcmp(Read(b, p, m), Read(b, q, m), m);
            (c < 0 || (c == 0 && n < k)) <==> Less(Read(b, p, n), Read(b, q, k))
  {
    var m := Min(n, k);
    ReadPrefix(b, p, n, m);
    ReadPrefix(b, q, k, m);
    MemcmpPrefix(Read(b, p, n), Read(b, q, k), m);
    MemcmpLess(Read(b, p, n), Read(b, q, k));
  }

  /** Both comparators order entries by their key bytes. */
  lemma ShortTableLessIsLess(b: seq<Byte>, objBase: nat, x: nat, y: nat)
    ensures ShortTableLess(b, objBase, x, y) <==> Less(GetString(b, objBase + x), GetString(b, objBase + y))
  {
    hide Less, Memcmp, ReadLE;
    var (na, lena) := FindAttrName(b, objBase + x);
    var (nb, lenb) := FindAttrName(b, objBase + y);
    NamesCompare(b, na, lena, nb, lenb);
  }

  lemma LongTableLessIsLess(b: seq<Byte>, x: SortEntry, y: SortEntry)
    ensures LongTableLess(b, x, y) <==> Less(Read(b, x.nameStart, x.nameSize), Read(b, y.nameStart, y.nameSize))
  {
    NamesCompare(b, x.nameStart, x.nameSize, y.nameStart, y.nameSize);
  }

  // ---------------------------------------------------------------- the table

  function KeyOf(b: seq<Byte>, objBase: nat, x: nat): seq<Byte> {
    GetString(b, objBase + x)
  }

  /** Sorted by key, with the same offsets. */
  ghost predicate IsSorting(b: seq<Byte>, objBase: nat, xs: seq<nat>, r: seq<nat>) {
    && multiset(r) == multiset(xs)
    && forall i, j :: 0 <= i < j < |r| ==> !Less(KeyOf(b, objBase, r[j]), KeyOf(b, objBase, r[i]))
  }

  method SortObjectIndexShort(b: seq<Byte>, objBase: nat, offsets: seq<nat>) returns (r: seq<nat>)
    ensures IsSorting(b, objBase, offsets, r)
  {
    hide Less, ShortTableLess, GetString;
    forall x, y ensures ShortTableLess(b, objBase, x, y) <==> Less(KeyOf(b, objBase, x), KeyOf(b, objBase, y)) {
      ShortTableLessIsLess(b, objBase, x, y);
    }
    ghost var key := (x: nat) => KeyOf(b, objBase, x);
    r := StdSort(offsets, (x: nat, y: nat) => ShortTableLess(b, objBase, x, y), key);
    assert forall x :: key(x) == KeyOf(b, objBase, x);
  }

  method SortObjectIndexLong(b: seq<Byte>, objBase: nat, offsets: seq<nat>) returns (r: seq<nat>)
    ensures IsSorting(b, objBase, offsets, r)
  {
    hide Less, LongTableLess, GetString, ReadLE;
    var sortEntries: seq<SortEntry> := [];
    var i := 0;
    while i < |offsets|
      invariant i <= |offsets| && |sortEntries| == i
      invariant forall k :: 0 <= k < i ==> sortEntries[k] == EntryFor(b, objBase, offsets[k])
    {
      var (nameStart, nameSize) := FindAttrName(b, objBase + offsets[i]);
      sortEntries := sortEntries + [SortEntry(nameStart, nameSize, offsets[i])];
      i := i + 1;
    }
    forall x, y ensures LongTableLess(b, x, y) <==>
      Less(Read(b, x.nameStart, x.nameSize), Read(b, y.nameStart, y.nameSize)) {
      LongTableLessIsLess(b, x, y);
    }
    ghost var before := sortEntries;
    ghost var key := (x: SortEntry) => Read(b, x.nameStart, x.nameSize);
    sortEntries := StdSort(sortEntries, (x: SortEntry, y: SortEntry) => LongTableLess(b, x, y), key);
    r := seq(|sortEntries|, k requires 0 <= k < |sortEntries| => sortEntries[k].offset);
    forall k | 0 <= k < |r| ensures KeyOf(b, objBase, r[k]) == key(sortEntries[k]) {
      assert sortEntries[k] in multiset(before);
      assert sortEntries[k] in before;
      var j :| 0 <= j < |before| && before[j] == sortEntries[k];
      EntryKey(b, objBase, offsets[j]);
    }
    ghost var off := (x: SortEntry) => x.offset;
    MapMultiset(before, sortEntries, off);
    assert Map(before, off) == offsets && Map(sortEntries, off) == r;
  }

  function EntryFor(b: seq<Byte>, objBase: nat, x: nat): SortEntry {
    SortEntry(FindAttrName(b, objBase + x).0, FindAttrName(b, objBase + x).1, x)
  }

  lemma EntryKey(b: seq<Byte>, objBase: nat, x: nat)
    ensures var e := EntryFor(b, objBase, x); Read(b, e.nameStart, e.nameSize) == KeyOf(b, objBase, x)
  {
    hide ReadLE;
  }

  ghost function Map<T, U>(xs: seq<T>, f: T -> U): (r: seq<U>) {
    seq(|xs|, i requires 0 <= i < |xs| => f(xs[i]))
  }

  function Without<T>(xs: seq<T>, j: nat): seq<T>
    requires j < |xs|
  {
    xs[..j] + xs[j + 1..]
  }

  lemma WithoutMultiset<T>(xs: seq<T>, j: nat)
    requires j < |xs|
    ensures multiset(xs) == multiset(Without(xs, j)) + multiset{xs[j]}
  {
    assert xs == xs[..j] + [xs[j]] + xs[j + 1..];
  }

  lemma {:induction false} MapMultiset<T, U>(xs: seq<T>, ys: seq<T>, f: T -> U)
    requires multiset(xs) == multiset(ys)
    ensures multiset(Map(xs, f)) == multiset(Map(ys, f))
    decreases |xs|
  {
    assert |multiset(xs)| == |xs| && |multiset(ys)| == |ys|;
    if xs != [] {
      assert xs[0] in multiset(ys);
      var j :| 0 <= j < |ys| && ys[j] == xs[0];
      WithoutMultiset(xs, 0);
      WithoutMultiset(ys, j);
      assert multiset(Without(xs, 0)) == multiset(xs) - multiset{xs[0]};
      assert multiset(Without(ys, j)) == multiset(ys) - multiset{xs[0]};
      MapMultiset(Without(xs, 0), Without(ys, j), f);
      MapWithout(xs, 0, f);
      MapWithout(ys, j, f);
      WithoutMultiset(Map(xs, f), 0);
      WithoutMultiset(Map(ys, f), j);
    }
  }

  lemma MapWithout<T, U>(xs: seq<T>, j: nat, f: T -> U)
    requires j < |xs|
    ensures Map(Without(xs, j), f) == Without(Map(xs, f), j)
  {
  }

  /** With unique keys the sorted table is the one the format prescribes, whatever algorithm sorted it. */
  lemma SortingIsSortedStarts(b: seq<Byte>, objBase: nat, data: nat, keys: seq<seq<Byte>>, starts: seq<nat>,
      xs: seq<nat>, r: seq<nat>)
    requires |keys| == |starts| == |xs| && Distinct(keys) && IsSorting(b, objBase, xs, r)
    requires forall i :: 0 <= i < |xs| ==> xs[i] == data + starts[i] && KeyOf(b, objBase, xs[i]) == keys[i]
    ensures |r| == |xs| && forall i :: 0 <= i < |r| ==> r[i] == data + SortedStarts(keys, starts)[i]
  {
    hide Less, GetString, SortEntries;
    var f := (x: nat) => Entry(KeyOf(b, objBase, x), if x >= data then x - data else 0);
    var es := Entries(keys, starts);
    assert Map(xs, f) == es;
    MapMultiset(xs, r, f);
    assert |r| == |multiset(r)| == |multiset(xs)| == |xs|;
    var sorted := Map(r, f);
    forall i | 0 <= i < |r| ensures r[i] >= data && sorted[i] in es {
      assert r[i] in multiset(xs);
      assert sorted[i] in multiset(sorted);
    }
    DistinctSorting(es, sorted);
    SortEntriesSorted(es);
    SortedIsUnique(sorted, SortEntries(es));
  }

  lemma DistinctSorting(es: seq<Entry>, sorted: seq<Entry>)
    requires DistinctKeys(es) && multiset(es) == multiset(sorted)
    requires forall i, j :: 0 <= i < j < |sorted| ==> !Less(sorted[j].key, sorted[i].key)
    ensures Sorted(sorted)
  {
    hide Less;
    forall i, j | 0 <= i < j < |sorted| ensures Less(sorted[i].key, sorted[j].key) {
      if sorted[i].key == sorted[j].key {
        Duplicate(es, sorted, i, j);
      }
      LessTotal(sorted[i].key, sorted[j].key);
    }
  }

  lemma Duplicate(es: seq<Entry>, sorted: seq<Entry>, i: nat, j: nat)
    requires DistinctKeys(es) && multiset(es) == multiset(sorted) && i < j < |sorted|
    ensures sorted[i].key != sorted[j].key
  {
    assert sorted[i] in multiset(es) && sorted[j] in multiset(es);
    var a :| 0 <= a < |es| && es[a] == sorted[i];
    var c :| 0 <= c < |es| && es[c] == sorted[j];
    WithoutMultiset(es, a);
    assert es[a] !in Without(es, a);
    assert multiset(es)[es[a]] == 1;
    WithoutMultiset(sorted, j);
    assert Without(sorted, j)[i] == sorted[i];
    assert sorted[i] in multiset(Without(sorted, j));
  }
}
