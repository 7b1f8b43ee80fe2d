/**
 Vertices, and the records they are kept as in a vertex palette in memory: opcode and length in the
 byte order of the host, which is little-endian here, then a C struct.  Numbers are kept as the bytes
 they consist of; nothing is calculated with them.
 */
module Vertices {
  import opened Bytes
  import opened Codecs
  import opened Wrappers

  const U16Le := Format(false, W16, LittleEndian)
  const U32Le := Format(false, W32, LittleEndian)

  datatype Vertex = Vertex(
    x: seq<Byte>, y: seq<Byte>, z: seq<Byte>, colorNameIndex: seq<Byte>, flags: seq<Byte>,
    normal: seq<Byte>, texture: seq<Byte>, packedColor: seq<Byte>, colorIndex: seq<Byte>,
    hasNormal: bool, hasTexture: bool)
  {
    /** The fields have the sizes of the C types. */
    predicate Proper() {
      && |x| == |y| == |z| == 8 && |colorNameIndex| == |flags| == 2
      && |normal| == 12 && |texture| == 8 && |packedColor| == |colorIndex| == 4
    }

    /** What a record keeps of a vertex: absent normals and texture coordinates are zero. */
    function Stored(): Vertex {
      this.(normal := if hasNormal then normal else Zeros(12), texture := if hasTexture then texture else Zeros(8))
    }
  }

  function Zeros(n: nat): (zs: seq<Byte>)
    ensures |zs| == n && forall i :: 0 <= i < n ==> zs[i] == 0
  {
    seq(n, _ => 0)
  }

  /* From a vertex to a record. */

  function OpcodeOf(v: Vertex): nat {
    if v.hasNormal then if v.hasTexture then 70 else 69 else if v.hasTexture then 71 else 68
  }

  function LengthOf(v: Vertex): nat {
    if v.hasNormal
    then if v.hasTexture then 4 + 3 * 8 + 4 + 5 * 4 + 4 + 4 else 4 + 3 * 8 + 4 + 3 * 4 + 4 + 4
    else if v.hasTexture then 4 + 3 * 8 + 4 + 2 * 4 + 4 + 4 else 4 + 3 * 8 + 4 + 4 + 4
  }

  /** The struct behind the header of a record. */
  function StructOf(v: Vertex): seq<Byte> {
    v.x + v.y + v.z + v.colorNameIndex + v.flags
    + (if v.hasNormal then v.normal else []) + (if v.hasTexture then v.texture else [])
    + v.packedColor + v.colorIndex
  }

  function RecordOf(v: Vertex): (r: seq<Byte>)
    ensures |r| >= 4
  {
    Encode(U16Le, OpcodeOf(v)) + Encode(U16Le, LengthOf(v)) + StructOf(v)
  }

  /* From a record to a vertex. */

  const Cleared := Vertex(Zeros(8), Zeros(8), Zeros(8), Zeros(2), Zeros(2), Zeros(12), Zeros(8), Zeros(4), Zeros(4),
                          false, false)

  /** Four-byte field `j` after the flags, zero if the record is too short to have it. */
  function Quad(data: seq<Byte>, j: nat): (q: seq<Byte>)
    ensures |q| == 4
  {
    if 32 + 4 * j <= |data| then data[28 + 4 * j..32 + 4 * j] else Zeros(4)
  }

  predicate HasQuad(data: seq<Byte>, j: nat) {
    32 + 4 * j <= |data|
  }

  const IMPLICIT := 0x10_0000_0000_0000

  /**
   A number shifted until its first bit is the one that a double does not store, with the exponent that goes
   down along.
   */
  function Normal(n: nat, exponent: int): (r: (nat, int))
    requires 0 < n < 2 * IMPLICIT
    ensures IMPLICIT <= r.0 < 2 * IMPLICIT
    decreases 2 * IMPLICIT - n
  {
    if n >= IMPLICIT then (n, exponent) else Normal(2 * n, exponent - 1)
  }

  /** An unsigned 32-bit integer converted to a double, in the byte order of the host. */
  function Double(v: nat): (bs: seq<Byte>)
    requires U32Le.Holds(v)
    ensures |bs| == 8
  {
    if v == 0 then Zeros(8)
    else
      var (significand, exponent) := Normal(v, 1023 + 52);
      Reverse(Digits(8, exponent % 2048 * IMPLICIT + (significand - IMPLICIT)))
  }

  function Power(n: nat): nat {
    if n == 0 then 1 else 2 * Power(n - 1)
  }

  lemma {:induction false} NormalExact(n: nat, exponent: int)
    requires 0 < n < 2 * IMPLICIT
    ensures var (s, e) := Normal(n, exponent); e <= exponent && s == n * Power(exponent - e)
    decreases 2 * IMPLICIT - n
  {
    if n < IMPLICIT {
      NormalExact(2 * n, exponent - 1);
      var (s, e) := Normal(n, exponent);
      DoubledPower(n, exponent - 1 - e);
    }
  }

  lemma DoubledPower(n: nat, k: nat)
    ensures 2 * n * Power(k) == n * Power(k + 1)
  {
    assert Power(k + 1) == 2 * Power(k);
  }

  lemma {:induction false} PowerGrows(j: nat, k: nat)
    requires j <= k
    ensures Power(j) <= Power(k)
  {
    if j < k {
      PowerGrows(j, k - 1);
    }
  }

  /** No bit of an integer is lost: exponent `e` and fraction `m` of the double stand for just that number. */
  lemma DoubleExact(v: nat) returns (e: nat, m: nat)
    requires 0 < v && U32Le.Holds(v)
    ensures Double(v) == Reverse(Digits(8, e * IMPLICIT + m))
    ensures m < IMPLICIT && 1023 <= e < 1023 + 32 && IMPLICIT + m == v * Power(1023 + 52 - e)
  {
    hide Digits, Reverse;
    NormalExact(v, 1023 + 52);
    var (s, x) := Normal(v, 1023 + 52);
    var k := 1023 + 52 - x;
    PowerBounds(v, k);
    e, m := x, s - IMPLICIT;
  }

  /** A number of at most 32 bits is shifted by at least 21 places, and by no more than 52. */
  lemma PowerBounds(v: nat, k: nat)
    requires 0 < v < 0x1_0000_0000
    ensures k < 21 ==> v * Power(k) < IMPLICIT
    ensures k > 52 ==> v * Power(k) >= 2 * IMPLICIT
  {
    hide Power;
    SomePowers();
    if k < 21 {
      PowerGrows(k, 20);
      Products(v, Power(k), 0xFFFF_FFFF, Power(20));
    } else if k > 52 {
      PowerGrows(53, k);
      Products(1, Power(53), v, Power(k));
    }
  }

  lemma Products(a: nat, b: nat, c: nat, d: nat)
    requires a <= c && b <= d
    ensures a * b <= c * d
  {
    calc {
      a * b;
    <=
      c * b;
    <=
      c * d;
    }
  }

  lemma SomePowers()
    ensures Power(20) == 0x10_0000 && Power(53) == 2 * IMPLICIT
  {
    assert Power(10) == 1024;
    assert Power(20) == 0x10_0000;
    assert Power(30) == 0x4000_0000;
    assert Power(40) == 0x100_0000_0000;
    assert Power(50) == 0x4_0000_0000_0000;
  }

  /** The coordinates of an old vertex record, which are unsigned integers. */
  function OldCoordinate(data: seq<Byte>, j: nat): (bs: seq<Byte>)
    requires 4 * j + 4 <= |data|
    ensures |bs| == 8
  {
    EncodeDecode(U32Le, data[4 * j..4 * j + 4]);
    Double(Decode(U32Le, data[4 * j..4 * j + 4]))
  }

  /**
   What the fill functions read is in the record.  Old coordinates are read whatever the length.  The others
   test lengths in the order of the file, colour name and flags first, which the struct has behind the
   coordinates; so they read beyond any record that has room for a colour name but not for coordinates and flags.
   */
  predicate Fillable(opcode: int, n: nat) {
    (IsVertex(opcode) ==> n < 2 || n >= 28) && (IsOldVertex(opcode) ==> n >= 12)
  }

  /** The fill functions of the six kinds of vertex records; the four of today stop at the end of a short record. */
  function Fill(opcode: nat, data: seq<Byte>): Option<Vertex>
    requires Fillable(opcode, |data|)
  {
    if IsOldVertex(opcode) then
      Some(Cleared.(x := OldCoordinate(data, 0), y := OldCoordinate(data, 1), z := OldCoordinate(data, 2)))
    else if IsVertex(opcode) then Some(FillNew(opcode, data))
    else None
  }

  function FillNew(opcode: nat, data: seq<Byte>): Vertex
    requires IsVertex(opcode) && (|data| < 2 || |data| >= 28)
  {
    if |data| < 2 then Cleared
    else
      var v := Cleared.(x := data[..8], y := data[8..16], z := data[16..24],
                        colorNameIndex := data[24..26], flags := data[26..28]);
      match opcode
      case 68 => v.(packedColor := Quad(data, 0), colorIndex := Quad(data, 1))
      case 69 => v.(normal := Quad(data, 0) + Quad(data, 1) + Quad(data, 2), hasNormal := HasQuad(data, 2),
                         packedColor := Quad(data, 3), colorIndex := Quad(data, 4))
      case 70 => v.(normal := Quad(data, 0) + Quad(data, 1) + Quad(data, 2), hasNormal := HasQuad(data, 2),
                         texture := Quad(data, 3) + Quad(data, 4), hasTexture := HasQuad(data, 4),
                         packedColor := Quad(data, 5), colorIndex := Quad(data, 6))
      case _ => v.(texture := Quad(data, 0) + Quad(data, 1), hasTexture := HasQuad(data, 1),
                         packedColor := Quad(data, 2), colorIndex := Quad(data, 3))
  }

  lemma StructLength(v: Vertex)
    requires v.Proper()
    ensures |StructOf(v)| == LengthOf(v) - 4 && |RecordOf(v)| == LengthOf(v)
  {
  }

  /** The struct holds the fields where the fill functions look for them. */
  lemma StructFields(v: Vertex)
    requires v.Proper()
    ensures var data := StructOf(v);
      && |data| >= 36 && data[..8] == v.x && data[8..16] == v.y && data[16..24] == v.z
      && data[24..26] == v.colorNameIndex && data[26..28] == v.flags
      && data[28..] == (if v.hasNormal then v.normal else []) + (if v.hasTexture then v.texture else []) +
         v.packedColor + v.colorIndex
  {
    var rest := (if v.hasNormal then v.normal else []) + (if v.hasTexture then v.texture else []) + v.packedColor +
      v.colorIndex;
    var front := v.x + v.y + v.z + v.colorNameIndex + v.flags;
    StructLength(v);
    assert StructOf(v) == front + rest;
    FrontFields(v, front + rest, rest);
  }

  lemma FrontFields(v: Vertex, data: seq<Byte>, rest: seq<Byte>)
    requires v.Proper() && data == v.x + v.y + v.z + v.colorNameIndex + v.flags + rest
    ensures |data| == 28 + |rest| && data[..8] == v.x && data[8..16] == v.y && data[16..24] == v.z
    ensures data[24..26] == v.colorNameIndex && data[26..28] == v.flags && data[28..] == rest
  {
  }

  lemma QuadOf(data: seq<Byte>, j: nat)
    requires 32 + 4 * j <= |data|
    ensures Quad(data, j) == data[28..][4 * j..4 * j + 4]
  {
  }

  /** What is written as a record is read back from it. */
  lemma FillOfStruct(v: Vertex)
    requires v.Proper()
    ensures |StructOf(v)| >= 28 && Fill(OpcodeOf(v), StructOf(v)) == Some(v.Stored())
  {
    hide StructOf, Quad;
    var data := StructOf(v);
    StructFields(v);
    StructLength(v);
    var n, t, p, c := v.normal, v.texture, v.packedColor, v.colorIndex;
    QuadOf(data, 0);
    QuadOf(data, 1);
    if v.hasNormal || v.hasTexture {
      QuadOf(data, 2);
      QuadOf(data, 3);
    }
    if v.hasNormal {
      QuadOf(data, 4);
      assert n[0..4] + n[4..8] + n[8..12] == n;
      if v.hasTexture {
        QuadOf(data, 5);
        QuadOf(data, 6);
      }
    }
    assert t[0..4] + t[4..8] == t;
    QuadsOfRest(v);
  }

  lemma QuadsOfRest(v: Vertex)
    requires v.Proper()
    ensures var n, t, p, c := v.normal, v.texture, v.packedColor, v.colorIndex;
      var rest := (if v.hasNormal then n else []) + (if v.hasTexture then t else []) + p + c;
      var at := (if v.hasNormal then 12 else 0) + (if v.hasTexture then 8 else 0);
      && |rest| == at + 8
      && (v.hasNormal ==> rest[0..4] == n[0..4] && rest[4..8] == n[4..8] && rest[8..12] == n[8..12])
      && (v.hasTexture ==> rest[at - 8..at - 4] == t[0..4] && rest[at - 4..at] == t[4..8])
      && rest[at..at + 4] == p && rest[at + 4..at + 8] == c
  {
  }
}
