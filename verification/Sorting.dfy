/** The order of an object's index table. */
module Sorting {
  import opened Bytes
  import opened Format

  ghost predicate DistinctKeys(es: seq<Entry>) {
    forall i, j :: 0 <= i < j < |es| ==> es[i].key != es[j].key
  }

  lemma {:induction false} InsertKeepsSorted(e: Entry, es: seq<Entry>)
    requires Sorted(es) && forall i :: 0 <= i < |es| ==> es[i].key != e.key
    ensures Sorted(Insert(e, es))
  {
    if es != [] {
      var rest := es[1..];
      LessTotal(e.key, es[0].key);
      if Less(e.key, es[0].key) {
        forall j | 0 <= j < |es| ensures Less(e.key, es[j].key) {
          if j > 0 { LessTransitive(e.key, es[0].key, es[j].key); }
        }
      } else {
        InsertKeepsSorted(e, rest);
        var r := Insert(e, rest);
        forall j | 0 <= j < |r| ensures Less(es[0].key, r[j].key) {
          assert r[j] in multiset(r);
          assert r[j] == e || r[j] in rest;
        }
      }
    }
  }

  lemma {:induction false} SortEntriesSorted(es: seq<Entry>)
    requires DistinctKeys(es)
    ensures Sorted(SortEntries(es))
  {
    if es != [] {
      var r := SortEntries(es[1..]);
      SortEntriesSorted(es[1..]);
      forall i | 0 <= i < |r| ensures r[i].key != es[0].key {
        assert r[i] in multiset(r);
        assert r[i] in es[1..];
      }
      InsertKeepsSorted(es[0], r);
    }
  }

  lemma SameFirst(xs: seq<Entry>, ys: seq<Entry>)
    requires xs != [] && ys != [] && Sorted(xs) && Sorted(ys)
    requires xs[0] in ys && ys[0] in xs
    ensures xs[0] == ys[0]
  {
    hide Less;
    var j :| 0 <= j < |ys| && ys[j] == xs[0];
    var i :| 0 <= i < |xs| && xs[i] == ys[0];
    if j > 0 && i > 0 {
      assert Less(ys[0].key, ys[j].key) && Less(xs[0].key, xs[i].key);
      LessTransitive(xs[0].key, ys[0].key, xs[0].key);
      LessIrreflexive(xs[0].key);
    }
  }

  /** Sorting leaves no choice: entries sorted by key are determined by their multiset. */
  lemma {:induction false} SortedIsUnique(xs: seq<Entry>, ys: seq<Entry>)
    requires Sorted(xs) && Sorted(ys) && multiset(xs) == multiset(ys)
    ensures xs == ys
  {
    hide Sorted;
    assert |xs| == |multiset(xs)| == |multiset(ys)| == |ys|;
    if xs != [] {
      assert xs[0] in multiset(ys) && ys[0] in multiset(xs);
      SameFirst(xs, ys);
      SameTails(xs, ys);
      SortedTail(xs);
      SortedTail(ys);
      SortedIsUnique(xs[1..], ys[1..]);
      assert xs == [xs[0]] + xs[1..] && ys == [ys[0]] + ys[1..];
    }
  }

  lemma SameTails(xs: seq<Entry>, ys: seq<Entry>)
    requires xs != [] && ys != [] && xs[0] == ys[0] && multiset(xs) == multiset(ys)
    ensures multiset(xs[1..]) == multiset(ys[1..])
  {
    assert xs == [xs[0]] + xs[1..] && ys == [ys[0]] + ys[1..];
    assert multiset(xs[1..]) == multiset(xs) - multiset{xs[0]};
    assert multiset(ys[1..]) == multiset(ys) - multiset{ys[0]};
  }

  lemma SortedTail(xs: seq<Entry>)
    requires xs != [] && Sorted(xs)
    ensures Sorted(xs[1..])
  {
    hide Less;
  }

  function IndexOf(es: seq<Entry>, e: Entry): (i: nat)
    requires e in es
    ensures i < |es| && es[i] == e
  {
    if es[0] == e then 0 else 1 + IndexOf(es[1..], e)
  }

  /** The table order is a permutation of the members, ordered by key. */
  lemma TableOrder(keys: seq<seq<Byte>>, offs: seq<nat>) returns (perm: seq<nat>)
    requires |keys| == |offs| && Distinct(keys)
    ensures |perm| == |keys| && forall i :: 0 <= i < |perm| ==> perm[i] < |keys|
    ensures forall i :: 0 <= i < |perm| ==> SortedStarts(keys, offs)[i] == offs[perm[i]]
    ensures forall j :: 0 <= j < |keys| ==> j in perm
    ensures forall i, j :: 0 <= i < j < |perm| ==> Less(keys[perm[i]], keys[perm[j]])
  {
    var es := Entries(keys, offs);
    var sorted := SortEntries(es);
    SortEntriesSorted(es);
    forall i | 0 <= i < |sorted| ensures sorted[i] in es {
      assert sorted[i] in multiset(sorted);
    }
    perm := seq(|sorted|, i requires 0 <= i < |sorted| => IndexOf(es, sorted[i]));
    forall i | 0 <= i < |perm|
      ensures perm[i] < |keys| && keys[perm[i]] == sorted[i].key && SortedStarts(keys, offs)[i] == offs[perm[i]]
    {
      assert es[perm[i]] == sorted[i];
    }
    forall j | 0 <= j < |keys| ensures j in perm {
      assert es[j] in multiset(es);
      assert es[j] in sorted;
      var i :| 0 <= i < |sorted| && sorted[i] == es[j];
      assert perm[i] == j;
    }
  }
}
