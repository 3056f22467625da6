/** UTF-8 as section 4 of RFC 3629 defines it, and the table-driven automaton that checks it. */
module Utf8 {
  import opened Bytes

  // ---------------------------------------------------------------- RFC 3629, section 4

  predicate Tail(c: Byte) {
    0x80 <= c <= 0xbf
  }

  /** Length of the well-formed sequence `s` begins with; 0 if it begins with none. */
  function CharLen(s: seq<Byte>): (n: nat)
    ensures n <= 4 && n <= |s|
  {
    if |s| >= 1 && s[0] <= 0x7f then 1
    else if |s| >= 2 && 0xc2 <= s[0] <= 0xdf && Tail(s[1]) then 2
    else if |s| >= 3 && Tail(s[2]) && (
      || (s[0] == 0xe0 && 0xa0 <= s[1] <= 0xbf)
      || (0xe1 <= s[0] <= 0xec && Tail(s[1]))
      || (s[0] == 0xed && 0x80 <= s[1] <= 0x9f)
      || (0xee <= s[0] <= 0xef && Tail(s[1]))) then 3
    else if |s| >= 4 && Tail(s[2]) && Tail(s[3]) && (
      || (s[0] == 0xf0 && 0x90 <= s[1] <= 0xbf)
      || (0xf1 <= s[0] <= 0xf3 && Tail(s[1]))
      || (s[0] == 0xf4 && 0x80 <= s[1] <= 0x8f)) then 4
    else 0
  }

  /** A concatenation of well-formed sequences. */
  predicate WellFormed(s: seq<Byte>)
    decreases |s|
  {
    s == [] || (CharLen(s) > 0 && WellFormed(s[CharLen(s)..]))
  }

  // ---------------------------------------------------------------- scalar values

  predicate IsScalar(c: int) {
    0 <= c <= 0xd7ff || 0xe000 <= c <= 0x10ffff
  }

  /** The byte sequence of a scalar value. */
  function EncodeScalar(c: int): (r: seq<Byte>)
    requires IsScalar(c)
    ensures 1 <= |r| <= 4
  {
    if c < 0x80 then [c]
    else if c < 0x800 then [0xc0 + c / 0x40, 0x80 + c % 0x40]
    else if c < 0x1_0000 then [0xe0 + c / 0x1000, 0x80 + c / 0x40 % 0x40, 0x80 + c % 0x40]
    else [0xf0 + c / 0x4_0000, 0x80 + c / 0x1000 % 0x40, 0x80 + c / 0x40 % 0x40, 0x80 + c % 0x40]
  }

  /** The number in the payload bits of a sequence of `n` bytes. */
  function DecodeScalar(s: seq<Byte>, n: nat): int
    requires n <= |s|
  {
    if n == 1 then s[0]
    else if n == 2 then Digits(0, 0, s[0] % 0x20, s[1] % 0x40)
    else if n == 3 then Digits(0, s[0] % 0x10, s[1] % 0x40, s[2] % 0x40)
    else if n == 4 then Digits(s[0] % 0x8, s[1] % 0x40, s[2] % 0x40, s[3] % 0x40)
    else 0
  }

  /** Groups of six bits, most significant first. */
  function Digits(d3: int, d2: int, d1: int, d0: int): int {
    ((d3 * 0x40 + d2) * 0x40 + d1) * 0x40 + d0
  }

  lemma DigitsOf(d3: int, d2: int, d1: int, d0: int)
    requires 0 <= d2 < 0x40 && 0 <= d1 < 0x40 && 0 <= d0 < 0x40
    ensures var c := Digits(d3, d2, d1, d0);
      c % 0x40 == d0 && c / 0x40 == (d3 * 0x40 + d2) * 0x40 + d1 && c / 0x40 % 0x40 == d1
      && c / 0x1000 == d3 * 0x40 + d2 && c / 0x1000 % 0x40 == d2 && c / 0x4_0000 == d3
  {
    var c := Digits(d3, d2, d1, d0);
    var c1, c2 := c / 0x40, (d3 * 0x40 + d2) * 0x40 + d1;
    assert c1 == c2;
    assert c2 % 0x40 == d1 && c2 / 0x40 == d3 * 0x40 + d2;
    assert c / 0x1000 == d3 * 0x40 + d2;
  }

  lemma DigitsBack(c: nat)
    ensures c == Digits(c / 0x4_0000, c / 0x1000 % 0x40, c / 0x40 % 0x40, c % 0x40)
  {
    var c1 := c / 0x40;
    var c2 := c / 0x1000;
    assert c == c1 * 0x40 + c % 0x40;
    assert c1 == c2 * 0x40 + c1 % 0x40;
    assert c2 == c / 0x4_0000 * 0x40 + c2 % 0x40;
  }

  lemma PayloadBits(x: Byte)
    ensures 0x80 <= x <= 0xbf ==> x == 0x80 + x % 0x40
    ensures 0xc0 <= x <= 0xdf ==> x == 0xc0 + x % 0x20
    ensures 0xe0 <= x <= 0xef ==> x == 0xe0 + x % 0x10
    ensures 0xf0 <= x <= 0xf7 ==> x == 0xf0 + x % 0x8
  {
  }

  /** The ranges of the first two bytes are exactly the ranges of the scalar values. */
  lemma ScalarRange(s: seq<Byte>)
    requires CharLen(s) > 1
    ensures var n := CharLen(s); var c := DecodeScalar(s, n);
      && IsScalar(c)
      && (n == 2 ==> 0x80 <= c < 0x800) && (n == 3 ==> 0x800 <= c < 0x1_0000) && (n == 4 ==> 0x1_0000 <= c)
  {
    PayloadBits(s[0]);
    PayloadBits(s[1]);
  }

  /** A well-formed sequence is the encoding of one scalar value: no overlong forms, no
      surrogates, nothing above U+10FFFF. */
  lemma CharIsScalar(s: seq<Byte>)
    requires CharLen(s) > 0
    ensures IsScalar(DecodeScalar(s, CharLen(s)))
    ensures EncodeScalar(DecodeScalar(s, CharLen(s))) == s[..CharLen(s)]
  {
    hide Digits;
    var n := CharLen(s);
    PayloadBits(s[0]);
    if n > 1 {
      ScalarRange(s);
      PayloadBits(s[1]);
      if n == 2 {
        DigitsOf(0, 0, s[0] % 0x20, s[1] % 0x40);
      } else {
        PayloadBits(s[2]);
        if n == 3 {
          DigitsOf(0, s[0] % 0x10, s[1] % 0x40, s[2] % 0x40);
        } else {
          PayloadBits(s[3]);
          DigitsOf(s[0] % 0x8, s[1] % 0x40, s[2] % 0x40, s[3] % 0x40);
        }
      }
    }
  }

  /** And every scalar value has one. */
  lemma ScalarIsChar(c: int, rest: seq<Byte>)
    requires IsScalar(c)
    ensures CharLen(EncodeScalar(c) + rest) == |EncodeScalar(c)|
    ensures DecodeScalar(EncodeScalar(c) + rest, |EncodeScalar(c)|) == c
  {
    hide DecodeScalar, CharLen, EncodeScalar;
    ScalarBytes(c);
    DecodeOwn(c);
    CharLenAlike(EncodeScalar(c), rest);
    DecodesAlike(EncodeScalar(c) + rest, EncodeScalar(c));
  }

  lemma LeadBits(d: nat)
    ensures d < 0x40 ==> (0x80 + d) % 0x40 == d
    ensures d < 0x20 ==> (0xc0 + d) % 0x20 == d
    ensures d < 0x10 ==> (0xe0 + d) % 0x10 == d
    ensures d < 0x8 ==> (0xf0 + d) % 0x8 == d
  {
  }

  lemma Small(c: nat)
    ensures c < 0x800 ==> c / 0x40 < 0x20 && c / 0x1000 == 0 && c / 0x4_0000 == 0
    ensures c < 0x1_0000 ==> c / 0x1000 < 0x10 && c / 0x4_0000 == 0
    ensures c < 0x20_0000 ==> c / 0x4_0000 < 0x8
  {
  }

  lemma DecodeOwn(c: int)
    requires IsScalar(c)
    ensures DecodeScalar(EncodeScalar(c), |EncodeScalar(c)|) == c
  {
    DigitsBack(c);
    hide Digits;
    Small(c);
    LeadBits(c % 0x40);
    LeadBits(c / 0x40 % 0x40);
    LeadBits(c / 0x1000 % 0x40);
    if c < 0x80 {
    } else if c < 0x800 {
      LeadBits(c / 0x40);
    } else if c < 0x1_0000 {
      LeadBits(c / 0x1000);
    } else {
      LeadBits(c / 0x4_0000);
    }
  }

  lemma ScalarBytes(c: int)
    requires IsScalar(c)
    ensures CharLen(EncodeScalar(c)) == |EncodeScalar(c)|
  {
  }

  lemma CharLenAlike(e: seq<Byte>, rest: seq<Byte>)
    requires CharLen(e) == |e| > 0
    ensures CharLen(e + rest) == |e|
  {
  }

  lemma DecodesAlike(s: seq<Byte>, e: seq<Byte>)
    requires e <= s
    ensures DecodeScalar(s, |e|) == DecodeScalar(e, |e|)
  {
  }

  // ---------------------------------------------------------------- the automaton

  const ValidChar: Byte := 0
  const InvalidChar: Byte := 1

  /** The state table: byte classes in the first 256 entries, then 16 entries per state. */
  function States(i: nat): Byte {
    if i < 0x80 then 0
    else if i < 0x90 then 1
    else if i < 0xa0 then 9
    else if i < 0xc0 then 7
    else if i < 0xc2 then 8
    else if i < 0xe0 then 2
    else if i == 0xe0 then 0xa
    else if i == 0xed then 4
    else if i < 0xf0 then 3
    else if i == 0xf0 then 0xb
    else if i < 0xf4 then 6
    else if i == 0xf4 then 5
    else if i < 256 then 8
    else Row((i - 256) / 16, (i - 256) % 16)
  }

  function Row(state: nat, kind: nat): Byte {
    if state == 0 then
      if kind == 0 then 0 else if kind == 2 then 2 else if kind == 3 then 3 else if kind == 4 then 5
      else if kind == 5 then 8 else if kind == 6 then 7 else if kind == 0xa then 4 else if kind == 0xb then 6 else 1
    else if state == 2 then if kind in {1, 7, 9} then 0 else 1
    else if state == 3 then if kind in {1, 7, 9} then 2 else 1
    else if state == 4 then if kind == 7 then 2 else 1
    else if state == 5 then if kind in {1, 9} then 2 else 1
    else if state == 6 then if kind in {7, 9} then 3 else 1
    else if state == 7 then if kind in {1, 7, 9} then 3 else 1
    else if state == 8 then if kind == 1 then 3 else 1
    else 1
  }

  function Step(state: Byte, c: Byte): Byte {
    States(256 + state * 16 + States(c))
  }

  /** From `state` the rest `t` is read to an end between sequences. */
  predicate Completes(state: Byte, t: seq<Byte>)
    decreases |t|
  {
    if t == [] then state == ValidChar
    else Step(state, t[0]) != InvalidChar && Completes(Step(state, t[0]), t[1..])
  }

  lemma StepIsRow(state: Byte, c: Byte)
    requires state <= 8
    ensures Step(state, c) == Row(state, States(c)) && Step(state, c) <= 8
  {
  }

  /** From the start state exactly the well-formed strings are completed. */
  lemma {:induction false} CompletesIsWellFormed(t: seq<Byte>)
    ensures Completes(ValidChar, t) <==> WellFormed(t)
    decreases |t|
  {
    if t != [] {
      var n := CharLen(t);
      if n > 0 {
        CharAccepted(t);
        Unfolded(ValidChar, t, n);
        CompletesIsWellFormed(t[n..]);
      } else {
        CharRejected(t);
        Unfolded(ValidChar, t, Min(|t|, 4));
      }
    }
  }

  lemma Steps(t: seq<Byte>)
    ensures |t| >= 1 ==> StateAfter(0, t, 1) == Row(0, States(t[0])) <= 8
    ensures |t| >= 2 ==>
      StateAfter(0, t, 2)
      == (var s := StateAfter(0, t, 1); if s == 1 then 1 else Row(s, States(t[1]))) <= 8
    ensures |t| >= 3 ==>
      StateAfter(0, t, 3)
      == (var s := StateAfter(0, t, 2); if s == 1 then 1 else Row(s, States(t[2]))) <= 8
    ensures |t| >= 4 ==>
      StateAfter(0, t, 4)
      == (var s := StateAfter(0, t, 3); if s == 1 then 1 else Row(s, States(t[3]))) <= 8
  {
    hide Row, States, Step;
    if |t| >= 1 { AfterOne(0, t, 0); }
    if |t| >= 2 { AfterOne(0, t, 1); }
    if |t| >= 3 { AfterOne(0, t, 2); }
    if |t| >= 4 { AfterOne(0, t, 3); }
  }

  lemma {:induction false} AfterOne(state: Byte, t: seq<Byte>, n: nat)
    requires n < |t| && state <= 8
    ensures StateAfter(state, t, n) <= 8
    ensures StateAfter(state, t, n + 1) ==
      (var s := StateAfter(state, t, n); if n > 0 && s == 1 then 1 else Row(s, States(t[n]))) <= 8
    decreases n
  {
    StepIsRow(state, t[0]);
    hide Row, States, Step;
    if n > 0 && Step(state, t[0]) != InvalidChar {
      AfterOne(Step(state, t[0]), t[1..], n - 1);
    }
  }

  lemma CharAccepted(t: seq<Byte>)
    requires CharLen(t) > 0
    ensures StateAfter(0, t, CharLen(t)) == 0
  {
    hide StateAfter;
    Steps(t);
  }

  lemma CharRejected(t: seq<Byte>)
    requires t != [] && CharLen(t) == 0
    ensures StateAfter(0, t, Min(|t|, 4)) == 1 || (|t| < 4 && StateAfter(0, t, |t|) != 0)
  {
    hide StateAfter;
    Steps(t);
  }

  function StateAfter(state: Byte, t: seq<Byte>, n: nat): Byte
    requires n <= |t|
    decreases n
  {
    if n == 0 then state
    else if Step(state, t[0]) == InvalidChar then InvalidChar
    else StateAfter(Step(state, t[0]), t[1..], n - 1)
  }

  lemma {:induction false} Unfolded(state: Byte, t: seq<Byte>, n: nat)
    requires n <= |t|
    ensures Completes(state, t) <==>
              (n > 0 ==> StateAfter(state, t, n) != InvalidChar) && Completes(StateAfter(state, t, n), t[n..])
    decreases n
  {
    if n > 0 {
      Unfolded(Step(state, t[0]), t[1..], n - 1);
      assert t[1..][n - 1..] == t[n..];
    }
  }

  /** Utf8Helper::isValidUtf8. */
  method IsValidUtf8(s: seq<Byte>) returns (valid: bool)
    ensures valid == WellFormed(s)
  {
    hide Step, WellFormed;
    var p, state := 0, ValidChar;
    assert s[0..] == s;
    CompletesIsWellFormed(s);
    while p < |s|
      invariant p <= |s|
      invariant Completes(state, s[p..]) == WellFormed(s)
    {
      assert s[p..][0] == s[p] && s[p..][1..] == s[p + 1..];
      state := Step(state, s[p]);
      p := p + 1;
      if state == InvalidChar {
        return false;
      }
    }
    return state == ValidChar;
  }
}
