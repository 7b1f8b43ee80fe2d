/**
 Bytes, and the integer formats in which bfile.c reads and writes them.  A format is a signedness,
 a width and a byte order; together they name the integer accessors of bfile.c.
 */
module Bytes {

  type Byte = b: int | 0 <= b < 256

  datatype Width = W8 | W16 | W32 {
    function Size(): nat {
      match this
      case W8 => 1
      case W16 => 2
      case W32 => 4
    }

    function Modulus(): int {
      match this
      case W8 => 0x100
      case W16 => 0x1_0000
      case W32 => 0x1_0000_0000
    }
  }

  /** The residue of `v` modulo the range of the width: what a C cast to unsigned keeps. */
  function Wrap(w: Width, v: int): (u: nat)
    ensures u < w.Modulus()
  {
    match w
    case W8 => v % 0x100
    case W16 => v % 0x1_0000
    case W32 => v % 0x1_0000_0000
  }

  datatype Order = BigEndian | LittleEndian

  datatype Format = Format(signed: bool, width: Width, order: Order) {
    predicate Holds(v: int) {
      if signed then -width.Modulus() <= 2 * v < width.Modulus() else 0 <= v < width.Modulus()
    }
  }

  const U16Be := Format(false, W16, BigEndian)
  const U32Be := Format(false, W32, BigEndian)
  const S32Be := Format(true, W32, BigEndian)

  function Reverse<T>(s: seq<T>): (r: seq<T>)
    ensures |r| == |s|
    ensures forall i :: 0 <= i < |s| ==> r[i] == s[|s| - 1 - i]
  {
    if s == [] then [] else Reverse(s[1..]) + [s[0]]
  }

  /** A slice of a slice. */
  lemma SubSlice(b: seq<Byte>, from: nat, to: nat, x: nat, n: nat)
    requires from <= to <= |b| && from + x + n <= to
    ensures b[from..to][x..x + n] == b[from + x..from + x + n]
  {
    var s, t := b[from..to][x..x + n], b[from + x..from + x + n];
    assert |s| == |t|;
    assert forall i :: 0 <= i < n ==> s[i] == b[from..to][x + i] == b[from + (x + i)] == t[i];
  }

  lemma AppendTwice(a: seq<Byte>, b: seq<Byte>, c: seq<Byte>)
    ensures a + b + c == a + (b + c)
  {
  }

  /** The value of a byte string read with its most significant byte first. */
  function Value(bs: seq<Byte>): nat {
    if bs == [] then 0 else 256 * Value(bs[..|bs| - 1]) + bs[|bs| - 1]
  }

  /** The `n` least significant bytes of `u`, most significant byte first. */
  function Digits(n: nat, u: nat): (bs: seq<Byte>)
    ensures |bs| == n
  {
    if n == 0 then [] else Digits(n - 1, u / 256) + [u % 256]
  }

  function Decode(f: Format, bs: seq<Byte>): int
    requires |bs| == f.width.Size()
  {
    var u := Value(if f.order.BigEndian? then bs else Reverse(bs));
    if f.signed && 2 * u >= f.width.Modulus() then u - f.width.Modulus() else u
  }

  function Encode(f: Format, v: int): (bs: seq<Byte>)
    ensures |bs| == f.width.Size()
  {
    var bs := Digits(f.width.Size(), Wrap(f.width, v));
    if f.order.BigEndian? then bs else Reverse(bs)
  }

  lemma {:induction false} ReverseTwice<T>(s: seq<T>)
    ensures Reverse(Reverse(s)) == s
  {
    assert forall i :: 0 <= i < |s| ==> Reverse(Reverse(s))[i] == s[i];
  }

  function Pow256(n: nat): nat {
    if n == 0 then 1 else 256 * Pow256(n - 1)
  }

  lemma {:induction false} ValueOfDigits(n: nat, u: nat)
    requires u < Pow256(n)
    ensures Value(Digits(n, u)) == u
  {
    if n > 0 {
      ValueOfDigits(n - 1, u / 256);
      assert Digits(n, u)[..n - 1] == Digits(n - 1, u / 256);
    }
  }

  lemma {:induction false} DigitsOfValue(bs: seq<Byte>)
    ensures Value(bs) < Pow256(|bs|)
    ensures Digits(|bs|, Value(bs)) == bs
  {
    if bs != [] {
      DigitsOfValue(bs[..|bs| - 1]);
      assert bs == bs[..|bs| - 1] + [bs[|bs| - 1]];
    }
  }

  lemma WidthIsPow256(w: Width)
    ensures Pow256(w.Size()) == w.Modulus()
  {
    assert Pow256(1) == 256 && Pow256(2) == 0x1_0000;
    assert Pow256(3) == 0x100_0000;
  }

  lemma WrapSigned(f: Format, v: int)
    requires f.Holds(v)
    ensures Wrap(f.width, v) == if v < 0 then v + f.width.Modulus() else v
    ensures (f.signed && 2 * Wrap(f.width, v) >= f.width.Modulus()) <==> v < 0
  {
    match f.width
    case W8 =>
    case W16 =>
    case W32 =>
  }

  /** Reading back what was written with the same format gives the value written. */
  lemma DecodeEncode(f: Format, v: int)
    requires f.Holds(v)
    ensures Decode(f, Encode(f, v)) == v
  {
    var u := Wrap(f.width, v);
    WidthIsPow256(f.width);
    ValueOfDigits(f.width.Size(), u);
    ReverseTwice(Digits(f.width.Size(), u));
    WrapSigned(f, v);
  }

  lemma WrapUnsigned(f: Format, u: nat)
    requires u < f.width.Modulus()
    ensures Wrap(f.width, u) == u == Wrap(f.width, u - f.width.Modulus())
    ensures f.Holds(if f.signed && 2 * u >= f.width.Modulus() then u - f.width.Modulus() else u)
  {
    match f.width
    case W8 =>
    case W16 =>
    case W32 =>
  }

  /** Writing what was read with the same format gives the bytes read. */
  lemma EncodeDecode(f: Format, bs: seq<Byte>)
    requires |bs| == f.width.Size()
    ensures f.Holds(Decode(f, bs))
    ensures Encode(f, Decode(f, bs)) == bs
  {
    hide Reverse, Value, Digits, Pow256;
    var big := if f.order.BigEndian? then bs else Reverse(bs);
    WidthIsPow256(f.width);
    DigitsOfValue(big);
    WrapUnsigned(f, Value(big));
    ReverseTwice(bs);
  }

  /** The shift-and-or expressions of bfile.c, on disjoint bits. */
  function Word2(hi: int, lo: int): int {
    hi * 0x100 + lo
  }

  function Word4(b3: int, b2: int, b1: int, b0: int): int {
    b3 * 0x100_0000 + b2 * 0x1_0000 + b1 * 0x100 + b0
  }

  lemma ValueOfOne(a: Byte)
    ensures Value([a]) == a
  {
    assert [a][..0] == [];
  }

  lemma ValueOfTwo(a: Byte, b: Byte)
    ensures Value([a, b]) == Word2(a, b)
  {
    ValueOfOne(a);
    assert [a, b][..1] == [a];
  }

  lemma ValueOfFour(a: Byte, b: Byte, c: Byte, d: Byte)
    ensures Value([a, b, c, d]) == Word4(a, b, c, d)
  {
    ValueOfTwo(a, b);
    assert [a, b, c, d][..3] == [a, b, c] && [a, b, c][..2] == [a, b];
  }

  lemma DigitsOfTwo(u: nat)
    ensures Digits(1, u) == [u % 0x100]
    ensures Digits(2, u) == [u / 0x100 % 0x100, u % 0x100]
  {
    assert Digits(1, u / 0x100) == [] + [u / 0x100 % 0x100];
  }

  lemma DivTwice(u: nat)
    ensures u / 0x100 / 0x100 == u / 0x1_0000
    ensures u / 0x100 / 0x1_0000 == u / 0x100_0000
  {
  }

  lemma DigitsOfFour(u: nat)
    ensures Digits(4, u) == [u / 0x100_0000 % 0x100, u / 0x1_0000 % 0x100, u / 0x100 % 0x100, u % 0x100]
  {
    DivTwice(u);
    DigitsOfTwo(u / 0x1_0000);
    DivTwice(u / 0x100);
    assert Digits(3, u / 0x100) == Digits(2, u / 0x100 / 0x100) + [u / 0x100 % 0x100];
    assert Digits(4, u) == Digits(3, u / 0x100) + [u % 0x100];
  }

  /** Values with their formats, and the bytes and values of a whole run of them. */
  datatype Item = Item(format: Format, value: int)

  predicate AllHold(items: seq<Item>) {
    forall i :: 0 <= i < |items| ==> items[i].format.Holds(items[i].value)
  }

  /** The bytes of the first `n` items. */
  function EncodeAll(items: seq<Item>, n: nat): seq<Byte>
    requires n <= |items|
  {
    if n == 0 then [] else EncodeAll(items, n - 1) + Encode(items[n - 1].format, items[n - 1].value)
  }

  lemma {:induction false} EncodeAllPrefix(items: seq<Item>, m: nat, n: nat)
    requires m <= n <= |items|
    ensures EncodeAll(items, m) <= EncodeAll(items, n)
  {
    hide Encode;
    if m < n {
      EncodeAllPrefix(items, m, n - 1);
    }
  }
}
