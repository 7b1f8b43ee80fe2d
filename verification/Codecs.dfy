/**
 The kinds of records with load and save functions of their own: which records these functions refuse,
 how many bytes they consume, and when the same bytes are written again.  Records of the other kinds are
 copied as they are.
 */
module Codecs {
  import opened Bytes

  const VERTEX_PALETTE := 67

  /** The vertex records of today, and those of before. */
  predicate IsVertex(opcode: int) {
    68 <= opcode <= 71
  }

  predicate IsOldVertex(opcode: int) {
    8 <= opcode <= 9
  }

  predicate IsVertexKind(opcode: int) {
    IsVertex(opcode) || IsOldVertex(opcode)
  }

  predicate HasCodec(opcode: int) {
    || opcode in {1, 2, 4, 5, 32, 49, 61, 62, 63, 64, 66, VERTEX_PALETTE, 72, 73, 89, 113}
    || IsVertexKind(opcode)
  }

  /** The length from which on a record has all the fields that are read or written whatever its length. */
  function Least(opcode: int): nat {
    match opcode
    case 2 => 28
    case 4 => 28
    case 5 => 44
    case 8 => 16
    case 9 => 16
    case 49 => 68
    case 61 => 8
    case 62 => 8
    case 63 => 212
    case 68 => 32
    case 69 => 32
    case 70 => 32
    case 71 => 32
    case 73 => 72
    case _ => 0
  }

  /** Too short a record, which the load function refuses. */
  predicate Refused(opcode: int, length: nat) {
    opcode in {2, 4, 5, 49, 63, 68, 70, 71, 73} && length < Least(opcode)
  }

  /**
   How much follows the header of a record, given all that follows it.  Lists of vertices are read in whole
   words, the shortest external references are read too far, and a vertex palette is as long as a word of its
   own says, which counts eight bytes besides the records.
   */
  function Extent(opcode: int, length: nat, after: seq<Byte>): (n: nat) {
    if opcode == VERTEX_PALETTE then
      if |after| < 4 then 4
      else
        var total := Decode(S32Be, after[..4]);
        if total > 8 then total - 4 else 4
    else if opcode in {72, 89} then if length > 4 then (length - 4) / 4 * 4 else 0
    else if opcode == 63 && 212 <= length < 214 then 210
    else if length > 4 then length - 4
    else 0
  }

  const COLORS := 4228

  /** Names of colours: `n` runs of bytes from offset `at` on, each starting with its length. */
  predicate NamesFit(payload: seq<Byte>, at: nat, n: nat)
    decreases n
  {
    n == 0 ||
    (at + 8 <= |payload| &&
     var length := Decode(U16Be, payload[at..at + 2]);
     8 <= length <= |payload| - at && NamesFit(payload, at + length, n - 1))
  }

  /** A colour palette cut short before the names, or with all its names inside. */
  predicate ColorsFit(length: nat, payload: seq<Byte>) {
    length > 4 &&
    (|payload| >= COLORS ==>
       var n := Decode(U32Be, payload[COLORS - 4..COLORS]);
       n >= 0 && NamesFit(payload, COLORS, n))
  }

  /** The load function reads the record as `Extent` says; records that are refused are another matter. */
  predicate Taken(opcode: int, length: nat, payload: seq<Byte>) {
    && (opcode in {61, 62, 69} ==> length >= Least(opcode))
    && (opcode == 32 ==> ColorsFit(length, payload))
  }

  /** The save function writes what the load function has read, also when the last name of a material is cut short. */
  predicate Preserved(opcode: int, length: nat) {
    length >= Least(opcode) && (opcode == 66 ==> !(64 <= (length - 4) % 184 < 72))
  }

  /** Which records these are, in numbers; of the kinds that are not listed, all. */
  lemma LengthsInNumbers(opcode: int, length: nat, payload: seq<Byte>)
    ensures Preserved(opcode, length) <==>
              && (opcode == 2 || opcode == 4 ==> 28 <= length) && (opcode == 5 ==> 44 <= length)
              && (opcode == 8 || opcode == 9 ==> 16 <= length) && (opcode == 49 ==> 68 <= length)
              && (opcode == 61 || opcode == 62 ==> 8 <= length) && (opcode == 63 ==> 212 <= length)
              && (opcode == 66 ==> (length - 4) % 184 < 64 || (length - 4) % 184 >= 72)
              && (68 <= opcode <= 71 ==> 32 <= length) && (opcode == 73 ==> 72 <= length)
    ensures opcode != 32 ==>
              (Taken(opcode, length, payload) <==>
                 (opcode == 61 || opcode == 62 ==> 8 <= length) && (opcode == 69 ==> 32 <= length))
  {
  }
}
