/** The agency's persistent tree: reading and writing along paths, and transforming many at once. */
module Tree {
  import opened Wrappers

  datatype Node =
    | Text(text: string)
    | Number(num: real)
    | Flag(flag: bool)
    | Null
    | List(items: seq<Node>)
    | Table(members: map<string, Node>)

  type Path = seq<string>

  predicate Container(n: Option<Node>) {
    n.Some? && (n.value.List? || n.value.Table?)
  }

  // ---------------------------------------------------------------- numerals

  /** string_to_number<size_t>: digits only, modulo 2^64; the empty string counts as 0. */
  function Index(key: string): Option<nat> {
    if key == [] then Some(0)
    else
      var front, c := Index(key[..|key| - 1]), key[|key| - 1];
      if front.None? || !('0' <= c <= '9') then None
      else Some((10 * front.value + (c as int - '0' as int)) % 0x1_0000_0000_0000_0000)
  }

  /** std::to_string of an index. */
  function Numeral(i: nat): (r: string) {
    if i < 10 then [DigitChar(i)] else Numeral(i / 10) + [DigitChar(i % 10)]
  }

  function DigitChar(d: nat): char
    requires d < 10
  {
    ('0' as int + d) as char
  }

  predicate AllDigits(key: string) {
    forall i :: 0 <= i < |key| ==> '0' <= key[i] <= '9'
  }

  /** The number that decimal digits stand for, however large. */
  function DigitsValue(key: string): nat
    requires AllDigits(key)
  {
    if key == [] then 0 else 10 * DigitsValue(key[..|key| - 1]) + (key[|key| - 1] as int - '0' as int)
  }

  /** A key is an index exactly if it has nothing but digits; its number is taken modulo 2^64, so it
      is the right one if and only if it is below that. */
  lemma {:induction false} IndexExact(key: string)
    ensures Index(key).Some? <==> AllDigits(key)
    ensures AllDigits(key) ==> Index(key).value == DigitsValue(key) % 0x1_0000_0000_0000_0000
    ensures AllDigits(key) ==> (Index(key) == Some(DigitsValue(key)) <==> DigitsValue(key) < 0x1_0000_0000_0000_0000)
  {
    if key != [] {
      var front := key[..|key| - 1];
      IndexExact(front);
      assert AllDigits(key) ==> AllDigits(front);
      assert forall i :: 0 <= i < |front| ==> front[i] == key[i];
      if AllDigits(key) { Shifted(DigitsValue(front), key[|key| - 1] as int - '0' as int); }
    }
  }

  lemma Shifted(x: nat, d: nat)
    ensures (10 * (x % 0x1_0000_0000_0000_0000) + d) % 0x1_0000_0000_0000_0000
      == (10 * x + d) % 0x1_0000_0000_0000_0000
  {
  }

  /** The loop of string_to_number. */
  method StringToNumber(str: string) returns (r: Option<nat>)
    ensures r == Index(str)
  {
    var a, i := 0, 0;
    while i < |str|
      invariant i <= |str| && Index(str[..i]) == Some(a)
    {
      IndexExact(str);
      if '0' <= str[i] <= '9' {
        assert str[..i + 1][..i] == str[..i];
        a := (10 * a + (str[i] as int - '0' as int)) % 0x1_0000_0000_0000_0000;
      } else {
        return None;
      }
      i := i + 1;
    }
    assert str[..i] == str;
    return Some(a);
  }

  /** A numeral has the digits of its number. */
  lemma {:induction false} NumeralDigits(i: nat)
    ensures Numeral(i) != [] && AllDigits(Numeral(i)) && DigitsValue(Numeral(i)) == i
  {
    if i >= 10 {
      NumeralDigits(i / 10);
      assert Numeral(i)[..|Numeral(i)| - 1] == Numeral(i / 10);
    } else {
      assert Numeral(i)[..0] == [];
    }
  }

  lemma NumeralNames(i: nat)
    requires i < 0x1_0000_0000_0000_0000
    ensures Index(Numeral(i)) == Some(i)
  {
    NumeralDigits(i);
    IndexExact(Numeral(i));
  }

  /** The numeral of 2^64 is taken for the index 0. */
  lemma IndexWraps()
    ensures Index(Numeral(0x1_0000_0000_0000_0000)) == Some(0)
  {
    NumeralDigits(0x1_0000_0000_0000_0000);
    IndexExact(Numeral(0x1_0000_0000_0000_0000));
  }

  // ---------------------------------------------------------------- one step

  /** get_impl of arrays and objects; scalars have no children. */
  function Child(n: Option<Node>, key: string): Option<Node> {
    if n.None? then None
    else match n.value
      case List(items) =>
        var i := Index(key);
        if i.Some? && i.value < |items| then Some(items[i.value]) else None
      case Table(members) => if key in members then Some(members[key]) else None
      case _ => None
  }

  function Nulls(k: nat): (r: seq<Node>)
    ensures |r| == k
  {
    seq(k, i => Null)
  }

  /** The elements of an array under their numerals. */
  function Numbered(items: seq<Node>): map<string, Node> {
    if items == [] then map[] else Numbered(items[..|items| - 1])[Numeral(|items| - 1) := items[|items| - 1]]
  }

  /** node_array::set_impl: padding with nulls, or becoming an object. */
  function ListSet(items: seq<Node>, key: string, v: Node): Node {
    var i := Index(key);
    if i.None? then Table(Numbered(items)[key := v])
    else
      var padded := if i.value < |items| then items else items + Nulls(i.value + 1 - |items|);
      List(padded[i.value := v])
  }

  /** set_impl of a container; a missing node or a scalar becomes an object. */
  function SetChild(n: Option<Node>, key: string, v: Node): Node {
    if n.Some? && n.value.List? then ListSet(n.value.items, key, v)
    else if n.Some? && n.value.Table? then Table(n.value.members[key := v])
    else Table(map[key := v])
  }

  /** The loops of node_array::set_impl. */
  method ListSetImpl(items: seq<Node>, key: string, v: Node) returns (r: Node)
    ensures r == ListSet(items, key, v)
  {
    var parsed := StringToNumber(key);
    if parsed.Some? {
      var index, result := parsed.value, items;
      while index >= |result|
        invariant |result| >= |items| && (|result| == |items| || |result| <= index + 1)
        invariant result == items + Nulls(|result| - |items|)
      {
        assert Nulls(|result| + 1 - |items|) == Nulls(|result| - |items|) + [Null];
        result := result + [Null];
      }
      assert |items| > index ==> result == items;
      r := List(result[index := v]);
    } else {
      var result: map<string, Node>, i := map[], 0;
      while i < |items|
        invariant i <= |items| && result == Numbered(items[..i])
      {
        assert items[..i + 1][..i] == items[..i];
        result := result[Numeral(i) := items[i]];
        i := i + 1;
      }
      assert items[..i] == items;
      r := Table(result[key := v]);
    }
  }

  // ---------------------------------------------------------------- paths

  /** node::get. */
  function Get(n: Option<Node>, path: Path): Option<Node>
    decreases |path|
  {
    if path == [] || n.None? then n else Get(Child(n, path[0]), path[1..])
  }

  /** node::node_at_path. */
  function NodeAtPath(path: Path, v: Node): Node {
    if path == [] then v else Table(map[path[0] := NodeAtPath(path[1..], v)])
  }

  /** node::set. */
  function Set(n: Node, path: Path, v: Node): Node
    decreases |path|
  {
    if path == [] then v
    else if n.List? || n.Table? then
      var child := Child(Some(n), path[0]);
      SetChild(Some(n), path[0], if child.Some? then Set(child.value, path[1..], v) else NodeAtPath(path[1..], v))
    else NodeAtPath(path, v)
  }

  /** The same for a node that may be missing. */
  function Put(n: Option<Node>, path: Path, v: Node): Node
    decreases |path|
  {
    if path == [] then v else SetChild(n, path[0], Put(Child(n, path[0]), path[1..], v))
  }

  lemma {:induction false} PutMissing(n: Option<Node>, path: Path, v: Node)
    requires !Container(n)
    ensures path != [] || n.None? ==> Put(n, path, v) == NodeAtPath(path, v)
    decreases |path|
  {
    if path != [] { PutMissing(None, path[1..], v); }
  }

  lemma {:induction false} SetIsPut(n: Node, path: Path, v: Node)
    ensures Set(n, path, v) == Put(Some(n), path, v)
    decreases |path|
  {
    if path != [] {
      var child := Child(Some(n), path[0]);
      if n.List? || n.Table? {
        if child.Some? { SetIsPut(child.value, path[1..], v); } else { PutMissing(None, path[1..], v); }
      } else {
        PutMissing(Some(n), path, v);
      }
    }
  }

  // ---------------------------------------------------------------- laws of one path

  lemma ChildOfSet(n: Option<Node>, key: string, v: Node)
    ensures Child(Some(SetChild(n, key, v)), key) == Some(v)
  {
  }

  /** What was set is found. */
  lemma {:induction false} GetPut(n: Option<Node>, path: Path, v: Node)
    ensures Get(Some(Put(n, path, v)), path) == Some(v)
    decreases |path|
  {
    hide SetChild, Child;
    if path != [] {
      ChildOfSet(n, path[0], Put(Child(n, path[0]), path[1..], v));
      GetPut(Child(n, path[0]), path[1..], v);
    }
  }

  lemma SetChildTwice(n: Option<Node>, key: string, v: Node, w: Node)
    ensures SetChild(Some(SetChild(n, key, v)), key, w) == SetChild(n, key, w)
  {
  }

  /** The second of two writes to a path overwrites the first. */
  lemma {:induction false} PutPut(n: Option<Node>, path: Path, v: Node, w: Node)
    ensures Put(Some(Put(n, path, v)), path, w) == Put(n, path, w)
    decreases |path|
  {
    hide SetChild, Child;
    if path != [] {
      var c := Put(Child(n, path[0]), path[1..], v);
      ChildOfSet(n, path[0], c);
      PutPut(Child(n, path[0]), path[1..], v, w);
      SetChildTwice(n, path[0], c, Put(Child(n, path[0]), path[1..], w));
    }
  }

  lemma SetChildSame(n: Option<Node>, key: string)
    requires Child(n, key).Some?
    ensures n.Some? && SetChild(n, key, Child(n, key).value) == n.value
  {
  }

  /** Writing what is there changes nothing. */
  lemma {:induction false} PutGet(n: Option<Node>, path: Path)
    requires Get(n, path).Some?
    ensures n.Some? && Put(n, path, Get(n, path).value) == n.value
    decreases |path|
  {
    hide SetChild, Child;
    if path != [] {
      PutGet(Child(n, path[0]), path[1..]);
      SetChildSame(n, path[0]);
    }
  }

  /** Path laws: get after set, set after set, set to the present value, for every tree and
      every path, through padding, conversion to an object and replaced scalars. */
  lemma PathLaws(n: Node, path: Path, v: Node, w: Node)
    ensures Get(Some(Set(n, path, v)), path) == Some(v)
    ensures Set(Set(n, path, v), path, w) == Set(n, path, w)
    ensures Get(Some(n), path).Some? ==> Set(n, path, Get(Some(n), path).value) == n
  {
    SetIsPut(n, path, v);
    SetIsPut(n, path, w);
    SetIsPut(Set(n, path, v), path, w);
    GetPut(Some(n), path, v);
    PutPut(Some(n), path, v, w);
    if Get(Some(n), path).Some? {
      PutGet(Some(n), path);
      SetIsPut(n, path, Get(Some(n), path).value);
    }
  }

  /** Writing under an index of an array: the other elements stay, what was missing in front of it is
      null, and nothing comes behind it. */
  lemma ListElsewhere(items: seq<Node>, p: Path, v: Node, q: Path)
    requires p != [] && q != [] && Index(p[0]).Some? && Index(q[0]).Some? && Index(p[0]) != Index(q[0])
    ensures var i, j := Index(p[0]).value, Index(q[0]).value;
      Get(Some(Set(List(items), p, v)), q) ==
        if j < |items| then Get(Some(items[j]), q[1..]) else if j < i then Get(Some(Null), q[1..]) else None
  {
    hide Index;
    SetIsPut(List(items), p, v);
    var w := Put(Child(Some(List(items)), p[0]), p[1..], v);
    var r := ListSet(items, p[0], w);
    hide Put, Set;
    assert Put(Some(List(items)), p, v) == r by { PutStep(items, p, v); }
  }

  lemma PutStep(items: seq<Node>, p: Path, v: Node)
    requires p != []
    ensures Put(Some(List(items)), p, v) == ListSet(items, p[0], Put(Child(Some(List(items)), p[0]), p[1..], v))
  {
  }

  /** An array that becomes an object keeps its elements under their numerals. */
  lemma {:induction false} NumberedHas(items: seq<Node>, i: nat)
    requires i < |items| <= 0x1_0000_0000_0000_0000
    ensures Numeral(i) in Numbered(items) && Numbered(items)[Numeral(i)] == items[i]
  {
    var last := |items| - 1;
    if i < last {
      NumberedHas(items[..last], i);
      NumeralNames(i);
      NumeralNames(last);
    }
  }

  lemma ConversionKeeps(items: seq<Node>, key: string, v: Node, i: nat)
    requires Index(key).None? && i < |items| <= 0x1_0000_0000_0000_0000
    ensures Get(Some(Set(List(items), [key], v)), [Numeral(i)]) == Get(Some(List(items)), [Numeral(i)])
      == Some(items[i])
  {
    NumeralNames(i);
    NumberedHas(items, i);
  }

  // ---------------------------------------------------------------- paths that do not meet

  /** Neither path is a prefix of the other, and where they part there is no array. */
  predicate Apart(n: Option<Node>, p: Path, q: Path)
    decreases |p|
  {
    p != [] && q != [] &&
    if p[0] == q[0] then Apart(Child(n, p[0]), p[1..], q[1..]) else !(n.Some? && n.value.List?)
  }

  lemma {:induction false} ApartSymmetric(n: Option<Node>, p: Path, q: Path)
    ensures Apart(n, p, q) == Apart(n, q, p)
    decreases |p|
  {
    if p != [] && q != [] && p[0] == q[0] { ApartSymmetric(Child(n, p[0]), p[1..], q[1..]); }
  }

  lemma OtherChild(n: Option<Node>, key: string, v: Node, other: string)
    requires key != other && !(n.Some? && n.value.List?)
    ensures Child(Some(SetChild(n, key, v)), other) == Child(n, other)
    ensures !SetChild(n, key, v).List?
  {
  }

  lemma SetChildrenCommute(n: Option<Node>, key: string, v: Node, other: string, w: Node)
    requires key != other && !(n.Some? && n.value.List?)
    ensures SetChild(Some(SetChild(n, key, v)), other, w) == SetChild(Some(SetChild(n, other, w)), key, v)
  {
    if n.Some? && n.value.Table? {
      assert n.value.members[key := v][other := w] == n.value.members[other := w][key := v];
    } else {
      assert map[key := v][other := w] == map[other := w][key := v];
    }
  }

  /** A write is not seen along a path apart from it. */
  lemma {:induction false} GetElsewhere(n: Option<Node>, p: Path, v: Node, q: Path)
    requires Apart(n, p, q)
    ensures Get(Some(Put(n, p, v)), q) == Get(n, q)
    decreases |p|
  {
    hide SetChild, Child;
    var c := Put(Child(n, p[0]), p[1..], v);
    ChildOfSet(n, p[0], c);
    MissingHasNoChild(q[0]);
    if p[0] == q[0] {
      GetElsewhere(Child(n, p[0]), p[1..], v, q[1..]);
    } else {
      OtherChild(n, p[0], c, q[0]);
    }
  }

  lemma MissingHasNoChild(key: string)
    ensures Child(None, key) == None
  {
  }

  /** Writes along paths apart commute. */
  lemma {:induction false} PutsCommute(n: Option<Node>, p: Path, v: Node, q: Path, w: Node)
    requires Apart(n, p, q)
    ensures Put(Some(Put(n, p, v)), q, w) == Put(Some(Put(n, q, w)), p, v)
    decreases |p|
  {
    hide SetChild, Child;
    var c, d := Put(Child(n, p[0]), p[1..], v), Put(Child(n, q[0]), q[1..], w);
    ChildOfSet(n, p[0], c);
    ChildOfSet(n, q[0], d);
    if p[0] == q[0] {
      PutsCommute(Child(n, p[0]), p[1..], v, q[1..], w);
      SetChildTwice(n, p[0], c, Put(Some(c), q[1..], w));
      SetChildTwice(n, q[0], d, Put(Some(d), p[1..], v));
    } else {
      OtherChild(n, p[0], c, q[0]);
      OtherChild(n, q[0], d, p[0]);
      SetChildrenCommute(n, p[0], c, q[0], d);
    }
  }

  /** A write leaves two other paths apart. */
  lemma {:induction false} StayApart(n: Option<Node>, r: Path, v: Node, p: Path, q: Path)
    requires Apart(n, r, p) && Apart(n, r, q) && Apart(n, p, q)
    ensures Apart(Some(Put(n, r, v)), p, q)
    decreases |r|
  {
    hide SetChild, Child;
    var c := Put(Child(n, r[0]), r[1..], v);
    ChildOfSet(n, r[0], c);
    if p[0] == q[0] {
      if r[0] == p[0] {
        StayApart(Child(n, r[0]), r[1..], v, p[1..], q[1..]);
      } else {
        OtherChild(n, r[0], c, p[0]);
      }
    } else {
      NotAList(n, r[0], c);
    }
  }

  lemma NotAList(n: Option<Node>, key: string, v: Node)
    requires !(n.Some? && n.value.List?)
    ensures !SetChild(n, key, v).List?
  {
  }

  // ---------------------------------------------------------------- transforming many paths

  /** A path and the node to be written there. */
  datatype Update = Update(path: Path, node: Node)

  datatype Action = Action(path: Path, op: Option<Node> -> Node)

  function ApplyAll(n: Node, us: seq<Update>): Node
    decreases |us|
  {
    if us == [] then n else ApplyAll(Put(Some(n), us[0].path, us[0].node), us[1..])
  }

  /** Every operation reads the tree as it was before. */
  function Updates(n: Node, actions: seq<Action>): (r: seq<Update>)
    ensures |r| == |actions|
  {
    seq(|actions|, i requires 0 <= i < |actions| => Update(actions[i].path,
        actions[i].op(Get(Some(n), actions[i].path))))
  }

  /** What reading each input from the tree as it evolves would give. */
  function Evolving(n: Node, actions: seq<Action>): Node
    decreases |actions|
  {
    if actions == [] then n
    else Evolving(Put(Some(n), actions[0].path, actions[0].op(Get(Some(n), actions[0].path))), actions[1..])
  }

  ghost predicate AllApart(n: Node, us: seq<Update>) {
    forall i, j :: 0 <= i < j < |us| ==> Apart(Some(n), us[i].path, us[j].path)
  }

  ghost predicate ActionsApart(n: Node, actions: seq<Action>) {
    forall i, j :: 0 <= i < j < |actions| ==> Apart(Some(n), actions[i].path, actions[j].path)
  }

  /** node::transform. */
  method Transform(n: Node, actions: seq<Action>) returns (cur: Node)
    ensures cur == ApplyAll(n, Updates(n, actions))
  {
    cur := n;
    var i := 0;
    ghost var us := Updates(n, actions);
    assert us[0..] == us;
    while i < |actions|
      invariant i <= |actions| && ApplyAll(cur, us[i..]) == ApplyAll(n, us)
    {
      var path, node := actions[i].path, actions[i].op(Get(Some(n), actions[i].path));
      assert us[i..][0] == Update(path, node) && us[i..][1..] == us[i + 1..];
      SetIsPut(cur, path, node);
      cur := Set(cur, path, node);
      i := i + 1;
    }
    assert us[i..] == [];
  }

  /** One write leaves the other paths apart. */
  lemma RestApart(n: Node, us: seq<Update>)
    requires us != [] && AllApart(n, us)
    ensures AllApart(Put(Some(n), us[0].path, us[0].node), us[1..])
  {
    hide Apart, Put;
    var rest := us[1..];
    forall i, j | 0 <= i < j < |rest| ensures Apart(Some(Put(Some(n), us[0].path, us[0].node)), rest[i].path,
        rest[j].path) {
      assert rest[i] == us[i + 1] && rest[j] == us[j + 1];
      StayApart(Some(n), us[0].path, us[0].node, rest[i].path, rest[j].path);
    }
  }

  /** A path apart from all writes sees none of them. */
  lemma {:induction false} Untouched(n: Node, us: seq<Update>, q: Path)
    requires AllApart(n, us) && forall i :: 0 <= i < |us| ==> Apart(Some(n), us[i].path, q)
    ensures Get(Some(ApplyAll(n, us)), q) == Get(Some(n), q)
    decreases |us|
  {
    hide Apart, Put, Get;
    if us != [] {
      var m := Put(Some(n), us[0].path, us[0].node);
      GetElsewhere(Some(n), us[0].path, us[0].node, q);
      RestApart(n, us);
      forall i | 0 <= i < |us[1..]| ensures Apart(Some(m), us[1..][i].path, q) {
        StayApart(Some(n), us[0].path, us[0].node, us[i + 1].path, q);
      }
      Untouched(m, us[1..], q);
    }
  }

  /** Every write is there in the end. */
  lemma {:induction false} AllWritten(n: Node, us: seq<Update>, k: nat)
    requires AllApart(n, us) && k < |us|
    ensures Get(Some(ApplyAll(n, us)), us[k].path) == Some(us[k].node)
    decreases |us|
  {
    hide Apart, Put, Get;
    var m := Put(Some(n), us[0].path, us[0].node);
    RestApart(n, us);
    if k > 0 {
      AllWritten(m, us[1..], k - 1);
    } else {
      GetPut(Some(n), us[0].path, us[0].node);
      forall i | 0 <= i < |us[1..]| ensures Apart(Some(m), us[1..][i].path, us[0].path) {
        KeepsApart(Some(n), us[0].path, us[0].node, us[i + 1].path);
      }
      Untouched(m, us[1..], us[0].path);
    }
  }

  /** A path stays apart from the one just written. */
  lemma {:induction false} KeepsApart(n: Option<Node>, p: Path, v: Node, q: Path)
    requires Apart(n, p, q)
    ensures Apart(Some(Put(n, p, v)), q, p)
    decreases |p|
  {
    hide SetChild, Child;
    var c := Put(Child(n, p[0]), p[1..], v);
    ChildOfSet(n, p[0], c);
    if p[0] == q[0] {
      KeepsApart(Child(n, p[0]), p[1..], v, q[1..]);
    } else {
      NotAList(n, p[0], c);
    }
  }

  // ---------------------------------------------------------------- the order does not matter

  lemma {:induction false} ToFront(n: Node, us: seq<Update>, k: nat)
    requires AllApart(n, us) && k < |us|
    ensures ApplyAll(n, us) == ApplyAll(n, [us[k]] + us[..k] + us[k + 1..])
    decreases |us|
  {
    hide Apart, Put, AllApart, ApplyAll;
    if k == 0 {
      assert [us[0]] + us[..0] + us[1..] == us;
    } else {
      var m := Put(Some(n), us[0].path, us[0].node);
      var rest := us[1..k] + us[k + 1..];
      RestApart(n, us);
      ToFront(m, us[1..], k - 1);
      assert [us[1..][k - 1]] + us[1..][..k - 1] + us[1..][k..] == [us[k]] + rest;
      assert us == [us[0]] + us[1..];
      FrontOne(n, us[0], us[1..]);
      FrontOne(m, us[k], rest);
      ApartAt(n, us, k);
      PutsCommute(Some(n), us[0].path, us[0].node, us[k].path, us[k].node);
      FrontTwo(n, us[k], us[0], rest);
      assert [us[k]] + us[..k] + us[k + 1..] == [us[k], us[0]] + rest;
    }
  }

  lemma ApartAt(n: Node, us: seq<Update>, k: nat)
    requires AllApart(n, us) && 0 < k < |us|
    ensures Apart(Some(n), us[0].path, us[k].path)
  {
  }

  lemma FrontOne(n: Node, a: Update, rest: seq<Update>)
    ensures ApplyAll(n, [a] + rest) == ApplyAll(Put(Some(n), a.path, a.node), rest)
  {
    assert ([a] + rest)[1..] == rest;
  }

  lemma FrontTwo(n: Node, a: Update, b: Update, rest: seq<Update>)
    ensures ApplyAll(n, [a, b] + rest) == ApplyAll(Put(Some(Put(Some(n), a.path, a.node)), b.path, b.node), rest)
  {
    assert ([a, b] + rest)[1..] == [b] + rest && ([b] + rest)[1..] == rest;
  }

  lemma SameRest<T>(us: seq<T>, vs: seq<T>, k: nat)
    requires vs != [] && k < |us| && us[k] == vs[0] && multiset(us) == multiset(vs)
    ensures multiset(us[..k] + us[k + 1..]) == multiset(vs[1..])
  {
    assert us == us[..k] + [us[k]] + us[k + 1..];
    assert vs == [vs[0]] + vs[1..];
    assert multiset(us[..k] + us[k + 1..]) == multiset(us) - multiset{us[k]};
    assert multiset(vs[1..]) == multiset(vs) - multiset{vs[0]};
  }

  /** Whatever the order of the writes, the tree that comes out is the same. */
  lemma {:induction false} OrderDoesNotMatter(n: Node, us: seq<Update>, vs: seq<Update>)
    requires AllApart(n, us) && multiset(us) == multiset(vs)
    ensures ApplyAll(n, us) == ApplyAll(n, vs)
    decreases |vs|
  {
    hide Apart, Put, AllApart;
    assert |us| == |multiset(us)| == |multiset(vs)| == |vs|;
    if vs != [] {
      assert vs[0] in multiset(us);
      var k :| 0 <= k < |us| && us[k] == vs[0];
      var ws := [us[k]] + us[..k] + us[k + 1..];
      ToFront(n, us, k);
      MovedApart(n, us, k);
      RestApart(n, ws);
      SameRest(us, vs, k);
      assert ws[1..] == us[..k] + us[k + 1..];
      OrderDoesNotMatter(Put(Some(n), ws[0].path, ws[0].node), ws[1..], vs[1..]);
    }
  }

  lemma MovedApart(n: Node, us: seq<Update>, k: nat)
    requires AllApart(n, us) && k < |us|
    ensures AllApart(n, [us[k]] + us[..k] + us[k + 1..])
  {
    hide Apart;
    var ws := [us[k]] + us[..k] + us[k + 1..];
    forall i, j | 0 <= i < j < |ws| ensures Apart(Some(n), ws[i].path, ws[j].path) {
      var a := if i == 0 then k else if i <= k then i - 1 else i;
      var b := if j <= k then j - 1 else j;
      assert ws[i] == us[a] && ws[j] == us[b];
      ApartSymmetric(Some(n), us[a].path, us[b].path);
    }
  }

  // ---------------------------------------------------------------- transform

  lemma UpdatesApart(n: Node, actions: seq<Action>)
    requires ActionsApart(n, actions)
    ensures AllApart(n, Updates(n, actions))
  {
    hide Apart, Get;
  }

  lemma {:induction false} UpdatesPermuted(n: Node, actions: seq<Action>, permuted: seq<Action>)
    requires multiset(actions) == multiset(permuted)
    ensures multiset(Updates(n, actions)) == multiset(Updates(n, permuted))
    decreases |actions|
  {
    hide Updates;
    assert |actions| == |multiset(actions)| == |multiset(permuted)| == |permuted|;
    if actions != [] {
      assert actions[0] in multiset(permuted);
      var k :| 0 <= k < |permuted| && permuted[k] == actions[0];
      SameRest(permuted, actions, k);
      UpdatesPermuted(n, actions[1..], permuted[..k] + permuted[k + 1..]);
      UpdatesWithout(n, permuted, k);
      UpdatesWithout(n, actions, 0);
      assert actions[..0] + actions[1..] == actions[1..];
    } else {
      assert permuted == actions;
    }
  }

  lemma UpdatesWithout(n: Node, actions: seq<Action>, k: nat)
    requires k < |actions|
    ensures var update := Update(actions[k].path, actions[k].op(Get(Some(n), actions[k].path)));
      multiset(Updates(n, actions)) == multiset(Updates(n, actions[..k] + actions[k + 1..])) + multiset{update}
  {
    hide Get;
    var us := Updates(n, actions);
    assert Updates(n, actions[..k] + actions[k + 1..]) == us[..k] + us[k + 1..];
    assert us == us[..k] + [us[k]] + us[k + 1..];
  }

  /** Reading the inputs from the evolving tree makes no difference. */
  lemma {:induction false} EvolvingIsSame(n: Node, m: Node, actions: seq<Action>)
    requires ActionsApart(m, actions)
    requires forall i :: 0 <= i < |actions| ==> Get(Some(m), actions[i].path) == Get(Some(n), actions[i].path)
    ensures Evolving(m, actions) == ApplyAll(m, Updates(n, actions))
    decreases |actions|
  {
    hide Apart, Put, Get;
    if actions != [] {
      var node := actions[0].op(Get(Some(n), actions[0].path));
      var k := Put(Some(m), actions[0].path, node);
      var us := Updates(n, actions);
      assert us[0] == Update(actions[0].path, node) && us[1..] == Updates(n, actions[1..]);
      forall i | 0 <= i < |actions[1..]| ensures Get(Some(k), actions[1..][i].path)
        == Get(Some(n), actions[1..][i].path) {
        GetElsewhere(Some(m), actions[0].path, node, actions[i + 1].path);
      }
      forall i, j | 0 <= i < j < |actions[1..]| ensures Apart(Some(k), actions[1..][i].path, actions[1..][j].path) {
        StayApart(Some(m), actions[0].path, node, actions[i + 1].path, actions[j + 1].path);
      }
      EvolvingIsSame(n, k, actions[1..]);
    }
  }

  /** Main theorem on `transform`: with paths that do not meet, the result does not depend on the
      order of the actions, is the same as reading from the evolving tree, has each operation's
      result at its path, and is unchanged along every other path. */
  lemma TransformLaws(n: Node, actions: seq<Action>, permuted: seq<Action>, q: Path)
    requires ActionsApart(n, actions)
    requires multiset(actions) == multiset(permuted)
    ensures ApplyAll(n, Updates(n, actions)) == ApplyAll(n, Updates(n, permuted))
    ensures ApplyAll(n, Updates(n, actions)) == Evolving(n, actions)
    ensures forall k :: 0 <= k < |actions| ==>
      Get(Some(ApplyAll(n, Updates(n, actions))), actions[k].path) == Some(actions[k].op(Get(Some(n), actions[k].path)))
    ensures (forall k :: 0 <= k < |actions| ==> Apart(Some(n), actions[k].path, q)) ==>
      Get(Some(ApplyAll(n, Updates(n, actions))), q) == Get(Some(n), q)
  {
    hide Apart, Get, ApplyAll;
    UpdatesApart(n, actions);
    var us := Updates(n, actions);
    UpdatesPermuted(n, actions, permuted);
    OrderDoesNotMatter(n, us, Updates(n, permuted));
    EvolvingIsSame(n, n, actions);
    forall k | 0 <= k < |actions|
      ensures Get(Some(ApplyAll(n, us)), actions[k].path) == Some(actions[k].op(Get(Some(n), actions[k].path)))
    {
      AllWritten(n, us, k);
    }
    if forall k :: 0 <= k < |actions| ==> Apart(Some(n), actions[k].path, q) {
      Untouched(n, us, q);
    }
  }
}
