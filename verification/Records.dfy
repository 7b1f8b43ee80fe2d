/**
 A model file as a sequence of records: two bytes opcode, two bytes length, and a payload.  Payloads are
 those of the file; how much of it belongs to a record is for the load function of its kind to say.
 */
module Records {
  import opened Bytes
  import opened BFile
  import opened Codecs
  import opened Hierarchy
  import opened Wrappers

  ghost predicate WellFormed(r: Record) {
    U16Be.Holds(r.opcode) && U16Be.Holds(r.length) && |r.data| == Extent(r.opcode, r.length, r.data)
  }

  /** A record as it is written. */
  function RecordBytes(r: Record): seq<Byte> {
    Encode(U16Be, r.opcode) + Encode(U16Be, r.length) + r.data
  }

  function AllBytes(rs: seq<Record>): seq<Byte> {
    if rs == [] then [] else RecordBytes(rs[0]) + AllBytes(rs[1..])
  }

  /** The record at offset `pos`, if the file has all of it. */
  function RecordAt(file: seq<Byte>, pos: nat): (o: Option<Record>)
    requires pos <= |file|
    ensures o.Some? ==> pos + 4 + |o.value.data| <= |file|
  {
    if |file| - pos < 4 then None
    else
      var opcode := Decode(U16Be, file[pos..pos + 2]);
      var length := Decode(U16Be, file[pos + 2..pos + 4]);
      DecodeIsNat(file[pos..pos + 2]);
      DecodeIsNat(file[pos + 2..pos + 4]);
      var n := Extent(opcode, length, file[pos + 4..]);
      if n > |file| - pos - 4 then None
      else Some(Record(opcode, length, file[pos + 4..pos + 4 + n]))
  }

  lemma DecodeIsNat(bs: seq<Byte>)
    requires |bs| == 2
    ensures Decode(U16Be, bs) >= 0
  {
  }

  /** How deep in open pushes the stream is after `n` records. */
  ghost function Depth(rs: seq<Record>, n: nat): int
    requires n <= |rs|
  {
    if n == 0 then 0 else Depth(rs, n - 1) + DepthStep(rs[n - 1].opcode)
  }

  function DepthStep(opcode: nat): int {
    match KindOf(opcode)
    case PushNode => 1
    case PopNode => -1
    case _ => 0
  }

  /** Outside of all pushes these opcodes are taken for the start of trailing garbage. */
  predicate IsGarbage(file: seq<Byte>, pos: nat, depth: int)
    requires pos <= |file|
  {
    |file| - pos >= 4 && depth == 0 && Peeked(file, pos) in {0, 0xa000, 0x3230, 11}
  }

  /** The record at offset `pos` is too short for the load function of its kind. */
  predicate IsRefused(file: seq<Byte>, pos: nat)
    requires pos <= |file|
  {
    && |file| - pos >= 4
    && Decode(U16Be, file[pos + 2..pos + 4]) >= 0
    && Refused(Decode(U16Be, file[pos..pos + 2]), Decode(U16Be, file[pos + 2..pos + 4]))
  }

  /**
   How a stream ends: with the file, with a record that the file does not have all of or one that is refused,
   or with garbage.
   */
  datatype End = Whole | CutShort | Refusal | Garbage {
    predicate Failed() {
      CutShort? || Refusal?
    }
  }

  /** All records from offset `pos` on, where `depth` pushes are open. */
  function Parse(file: seq<Byte>, pos: nat, depth: int): (seq<Record>, End)
    requires pos <= |file|
    decreases |file| - pos
  {
    if pos == |file| then ([], Whole)
    else if IsGarbage(file, pos, depth) then ([], Garbage)
    else if IsRefused(file, pos) then ([], Refusal)
    else
      match RecordAt(file, pos)
      case None => ([], CutShort)
      case Some(r) =>
        var (rest, end) := Parse(file, pos + 4 + |r.data|, depth + DepthStep(r.opcode));
        ([r] + rest, end)
  }

  /** Where record `n` starts in a file of these records. */
  function Offset(rs: seq<Record>, n: nat): nat
    requires n <= |rs|
  {
    if n == 0 then 0 else Offset(rs, n - 1) + 4 + |rs[n - 1].data|
  }

  /** The opcode of record `n` does not straddle two blocks, so that a peek sees it. */
  predicate Unbroken(rs: seq<Record>, n: nat)
    requires n <= |rs|
  {
    Offset(rs, n) % BLOCK != BLOCK - 1
  }

  /**
   What stands at `pos` is not one of the opcodes that are repaired, or that stop the program inside of
   pushes, and not of a kind that is read in pieces and cut short.
   */
  predicate Recognized(file: seq<Byte>, pos: nat, depth: int)
    requires pos <= |file|
  {
    |file| - pos >= 4 ==>
      && Peeked(file, pos) != 0x0b00 && (depth > 0 ==> Peeked(file, pos) !in {0, 0xa000, 0x3230})
      && (!IsGarbage(file, pos, depth) && !IsRefused(file, pos) && HasCodec(Decode(U16Be, file[pos..pos + 2])) ==>
            RecordAt(file, pos).Some?)
  }

  ghost predicate EndRecognized(file: seq<Byte>) {
    var rs := Parse(file, 0, 0).0;
    Offset(rs, |rs|) <= |file| ==> Recognized(file, Offset(rs, |rs|), Depth(rs, |rs|))
  }

  /** What belongs to a record does not depend on what comes after it. */
  lemma ExtentOfPrefix(opcode: int, length: nat, data: seq<Byte>, after: seq<Byte>)
    requires data <= after && (|data| == Extent(opcode, length, data) || |data| == Extent(opcode, length, after))
    ensures Extent(opcode, length, data) == Extent(opcode, length, after)
  {
    hide Decode;
    if opcode == VERTEX_PALETTE && |after| >= 4 {
      assert |data| >= 4;
      assert data[..4] == after[..4];
    }
  }

  lemma RecordAtBytes(file: seq<Byte>, pos: nat)
    requires pos <= |file| && RecordAt(file, pos).Some?
    ensures var r := RecordAt(file, pos).value;
      WellFormed(r) && RecordBytes(r) == file[pos..pos + 4 + |r.data|]
  {
    var r := RecordAt(file, pos).value;
    EncodeDecode(U16Be, file[pos..pos + 2]);
    EncodeDecode(U16Be, file[pos + 2..pos + 4]);
    hide Decode, Encode, Extent;
    ExtentOfPrefix(r.opcode, r.length, r.data, file[pos + 4..]);
  }

  ghost predicate AllWellFormed(rs: seq<Record>) {
    forall k :: 0 <= k < |rs| ==> WellFormed(rs[k])
  }

  /** The records say all there is to the part of the file they were read from. */
  lemma {:induction false} ParseBytes(file: seq<Byte>, pos: nat, depth: int)
    requires pos <= |file|
    ensures var (rs, end) := Parse(file, pos, depth);
      && AllBytes(rs) <= file[pos..] && AllWellFormed(rs)
      && (end.Whole? <==> AllBytes(rs) == file[pos..])
    decreases |file| - pos
  {
    hide RecordAt, RecordBytes, WellFormed, AllBytes, IsGarbage, IsRefused, DepthStep;
    if pos < |file| && !IsGarbage(file, pos, depth) && !IsRefused(file, pos) && RecordAt(file, pos).Some? {
      RecordAtBytes(file, pos);
      var r := RecordAt(file, pos).value;
      var next := pos + 4 + |r.data|;
      ParseBytes(file, next, depth + DepthStep(r.opcode));
      AllBytesOne(r, Parse(file, next, depth + DepthStep(r.opcode)).0);
      assert file[pos..] == file[pos..next] + file[next..];
    } else {
      NoBytes();
    }
  }

  lemma AllBytesOne(r: Record, rest: seq<Record>)
    ensures AllBytes([r] + rest) == RecordBytes(r) + AllBytes(rest)
  {
    assert ([r] + rest)[1..] == rest;
  }

  lemma NoBytes()
    ensures AllBytes([]) == []
  {
  }

  lemma RecordAtOf(pre: seq<Byte>, r: Record, post: seq<Byte>)
    requires WellFormed(r)
    ensures RecordAt(pre + RecordBytes(r) + post, |pre|) == Some(r)
  {
    var file := pre + RecordBytes(r) + post;
    var pos := |pre|;
    assert file[pos..pos + 2] == Encode(U16Be, r.opcode);
    assert file[pos + 2..pos + 4] == Encode(U16Be, r.length);
    assert file[pos + 4..] == r.data + post && file[pos + 4..pos + 4 + |r.data|] == r.data;
    DecodeEncode(U16Be, r.opcode);
    DecodeEncode(U16Be, r.length);
    hide Decode, Encode, Extent;
    ExtentOfPrefix(r.opcode, r.length, r.data, file[pos + 4..]);
  }

  /* Sizes and ends in numbers. */

  /** Two and four bytes of a file as a number; the four are signed. */
  function Two(bs: seq<Byte>, i: nat): int
    requires i + 2 <= |bs|
  {
    var d: seq<int> := bs[i..i + 2];
    0x100 * d[0] + d[1]
  }

  function SignedFour(bs: seq<Byte>): int
    requires |bs| >= 4
  {
    var d: seq<int> := bs[..4];
    0x100_0000 * (if d[0] >= 0x80 then d[0] - 0x100 else d[0]) + 0x1_0000 * d[1] + 0x100 * d[2] + d[3]
  }

  lemma TwoIs(bs: seq<Byte>, i: nat)
    requires i + 2 <= |bs|
    ensures Decode(U16Be, bs[i..i + 2]) == Two(bs, i)
  {
    hide Decode;
    DecodeWindow(U16Be, bs[i..i + 2]);
  }

  lemma FourIs(bs: seq<Byte>)
    requires |bs| >= 4
    ensures Decode(S32Be, bs[..4]) == SignedFour(bs)
  {
    hide Decode;
    DecodeWindow(S32Be, bs[..4]);
  }

  /**
   A record has as many bytes behind its header as its length says, which counts the header.  Lists of vertices
   leave what is no whole word; the two shortest external references are read too far; a vertex palette has a
   length of its own.
   */
  ghost predicate StatedSize(r: Record) {
    if r.opcode == 67 then
      |r.data| >= 4 && |r.data| == if SignedFour(r.data) > 8 then SignedFour(r.data) - 4 else 4
    else if r.length <= 4 then r.data == []
    else if r.opcode == 72 || r.opcode == 89 then
      |r.data| % 4 == 0 && |r.data| <= r.length - 4 < |r.data| + 4
    else if r.opcode == 63 && (r.length == 212 || r.length == 213) then |r.data| == 210
    else |r.data| == r.length - 4
  }

  lemma WellFormedSize(r: Record)
    requires WellFormed(r)
    ensures StatedSize(r)
  {
    hide Decode;
    if r.opcode == 67 && |r.data| >= 4 {
      FourIs(r.data);
    }
  }

  /** Records that the load functions refuse. */
  predicate TooShort(opcode: int, length: int) {
    || ((opcode == 2 || opcode == 4) && length < 28) || (opcode == 5 && length < 44) || (opcode == 49 && length < 68)
    || (opcode == 63 && length < 212) || ((opcode == 68 || opcode == 70 || opcode == 71) && length < 32)
    || (opcode == 73 && length < 72)
  }

  /**
   What a file is split into, in numbers: each record is at the sum of the sizes before it, with its opcode,
   length and stated size, and not too short; and so is why splitting ends.
   */
  ghost predicate InNumbers(file: seq<Byte>, pos: nat, rs: seq<Record>, end: End) {
    && (forall k :: 0 <= k < |rs| ==>
          StatedSize(rs[k]) && !TooShort(rs[k].opcode, rs[k].length) && Placed(file, pos + Offset(rs, k), rs[k]))
    && pos + Offset(rs, |rs|) <= |file| && EndsFor(file, pos + Offset(rs, |rs|), end)
  }

  lemma {:induction false} ParseInNumbers(file: seq<Byte>, pos: nat, depth: int)
    requires pos <= |file|
    ensures InNumbers(file, pos, Parse(file, pos, depth).0, Parse(file, pos, depth).1)
    decreases |file| - pos
  {
    hide RecordAt, IsGarbage, IsRefused, DepthStep, StatedSize, TooShort, WellFormed, Placed, InNumbers, EndsFor;
    EndHere(file, pos, depth);
    if pos < |file| && !IsGarbage(file, pos, depth) && !IsRefused(file, pos) && RecordAt(file, pos).Some? {
      var r := RecordAt(file, pos).value;
      var next := pos + 4 + |r.data|;
      RecordAtBytes(file, pos);
      WellFormedSize(r);
      PlacedHere(file, pos);
      ParseInNumbers(file, next, depth + DepthStep(r.opcode));
      var (rest, end) := Parse(file, next, depth + DepthStep(r.opcode));
      FirstInNumbers(file, pos, r, rest, end);
    } else {
      NoneInNumbers(file, pos, Parse(file, pos, depth).1);
    }
  }

  lemma NoneInNumbers(file: seq<Byte>, pos: nat, end: End)
    requires pos <= |file| && EndsFor(file, pos, end)
    ensures InNumbers(file, pos, [], end)
  {
  }

  lemma FirstInNumbers(file: seq<Byte>, pos: nat, r: Record, rest: seq<Record>, end: End)
    requires StatedSize(r) && !TooShort(r.opcode, r.length) && Placed(file, pos, r)
    requires InNumbers(file, pos + 4 + |r.data|, rest, end)
    ensures InNumbers(file, pos, [r] + rest, end)
  {
    hide StatedSize, TooShort, Placed, EndsFor, Offset;
    var rs := [r] + rest;
    NoOffset(rs);
    forall k | 0 <= k <= |rest|
      ensures Offset(rs, k + 1) == 4 + |r.data| + Offset(rest, k)
    {
      OffsetShift(r, rest, k);
    }
    forall k | 0 <= k < |rs|
      ensures StatedSize(rs[k]) && !TooShort(rs[k].opcode, rs[k].length) && Placed(file, pos + Offset(rs, k), rs[k])
    {
      if k > 0 {
        assert rs[k] == rest[k - 1] && Offset(rs, (k - 1) + 1) == 4 + |r.data| + Offset(rest, k - 1);
      }
    }
  }

  lemma NoOffset(rs: seq<Record>)
    ensures Offset(rs, 0) == 0
  {
  }

  lemma {:induction false} OffsetShift(r: Record, rest: seq<Record>, k: nat)
    requires k <= |rest|
    ensures Offset([r] + rest, k + 1) == 4 + |r.data| + Offset(rest, k)
  {
    if k > 0 {
      OffsetShift(r, rest, k - 1);
    }
  }

  /** A record stands at an offset: two bytes of opcode, two of length, and what belongs to it. */
  ghost predicate Placed(file: seq<Byte>, at: nat, r: Record) {
    && at + 4 + |r.data| <= |file| && Two(file, at) == r.opcode && Two(file, at + 2) == r.length
    && file[at + 4..at + 4 + |r.data|] == r.data
  }

  lemma PlacedHere(file: seq<Byte>, pos: nat)
    requires pos <= |file| && RecordAt(file, pos).Some? && !IsRefused(file, pos)
    ensures var r := RecordAt(file, pos).value; Placed(file, pos, r) && !TooShort(r.opcode, r.length)
  {
    hide Decode, Extent;
    TwoIs(file, pos);
    TwoIs(file, pos + 2);
  }

  /** The end of the file, two bytes that are no opcode, a record that is too short, or one that is not all there. */
  ghost predicate EndsFor(file: seq<Byte>, at: nat, end: End)
    requires at <= |file|
  {
    match end
    case Whole => at == |file|
    case Garbage =>
      at + 4 <= |file| && (at % 4096 == 4095 || Two(file, at) in {0, 11, 0x3230, 0xa000})
    case Refusal => at + 4 <= |file| && TooShort(Two(file, at), Two(file, at + 2))
    case CutShort =>
      at + 4 > |file| || Two(file, at) == 67 || at + Two(file, at + 2) > |file| ||
      (Two(file, at) == 63 && at + 214 > |file|)
  }

  lemma EndHere(file: seq<Byte>, pos: nat, depth: int)
    requires pos <= |file|
    ensures pos == |file| ==> EndsFor(file, pos, Whole)
    ensures IsGarbage(file, pos, depth) ==> EndsFor(file, pos, Garbage)
    ensures IsRefused(file, pos) ==> EndsFor(file, pos, Refusal)
    ensures pos < |file| && RecordAt(file, pos).None? ==> EndsFor(file, pos, CutShort)
  {
    hide Decode;
    if |file| - pos >= 4 {
      TwoIs(file, pos);
      TwoIs(file, pos + 2);
      assert Window(file, pos, 2) == file[pos..pos + 2];
    }
  }

  /** Outside of all pushes these two bytes, or any at the last byte of a block, end loading. */
  lemma GarbageInNumbers(file: seq<Byte>, pos: nat, depth: int)
    requires pos <= |file|
    ensures IsGarbage(file, pos, depth) <==>
            depth == 0 && pos + 4 <= |file| && (pos % 4096 == 4095 || Two(file, pos) in {0, 11, 0x3230, 0xa000})
  {
    hide Decode;
    if |file| - pos >= 4 {
      TwoIs(file, pos);
      assert Window(file, pos, 2) == file[pos..pos + 2];
    }
  }

  lemma {:induction false} AllBytesGrow(rs: seq<Record>, r: Record)
    ensures AllBytes(rs + [r]) == AllBytes(rs) + RecordBytes(r)
  {
    hide RecordBytes;
    if rs == [] {
      assert [r][1..] == [];
    } else {
      AllBytesGrow(rs[1..], r);
      assert (rs + [r])[1..] == rs[1..] + [r];
    }
  }

  lemma {:induction false} OffsetIsLength(rs: seq<Record>, n: nat)
    requires n <= |rs|
    ensures Offset(rs, n) == |AllBytes(rs[..n])|
  {
    hide AllBytes;
    if n == 0 {
      NoBytes();
      assert rs[..0] == [];
    } else {
      OffsetIsLength(rs, n - 1);
      AllBytesGrow(rs[..n - 1], rs[n - 1]);
      RecordBytesLength(rs[n - 1]);
      assert rs[..n] == rs[..n - 1] + [rs[n - 1]];
    }
  }

  lemma {:induction false} AllBytesSum(a: seq<Record>, b: seq<Record>)
    ensures AllBytes(a + b) == AllBytes(a) + AllBytes(b)
  {
    hide RecordBytes, AllBytes;
    if a == [] {
      NoBytes();
      assert a + b == b;
    } else {
      AllBytesSum(a[1..], b);
      assert a == [a[0]] + a[1..] && a + b == [a[0]] + (a[1..] + b);
      AllBytesOne(a[0], a[1..]);
      AllBytesOne(a[0], a[1..] + b);
      AppendTwice(RecordBytes(a[0]), AllBytes(a[1..]), AllBytes(b));
    }
  }

  /** Where a record is in the file of all of them. */
  lemma RecordInFile(rs: seq<Record>, n: nat)
    requires AllWellFormed(rs) && n < |rs|
    ensures var file := AllBytes(rs);
      && Offset(rs, n) + 4 <= |file| && Offset(rs, n + 1) <= |file|
      && RecordAt(file, Offset(rs, n)) == Some(rs[n])
      && (IsRefused(file, Offset(rs, n)) <==> Refused(rs[n].opcode, rs[n].length))
  {
    hide RecordAt, RecordBytes, WellFormed, AllBytes, Offset, Refused, IsRefused;
    var a, b := rs[..n], rs[n + 1..];
    assert rs == a + ([rs[n]] + b);
    AllBytesSum(a, [rs[n]] + b);
    AllBytesOne(rs[n], b);
    OffsetIsLength(rs, n);
    OffsetNext(rs, n);
    RecordBytesLength(rs[n]);
    AppendTwice(AllBytes(a), RecordBytes(rs[n]), AllBytes(b));
    RecordAtOf(AllBytes(a), rs[n], AllBytes(b));
    RefusedAt(AllBytes(rs), Offset(rs, n));
  }

  lemma RefusedAt(file: seq<Byte>, pos: nat)
    requires pos <= |file| && RecordAt(file, pos).Some?
    ensures var r := RecordAt(file, pos).value; IsRefused(file, pos) <==> Refused(r.opcode, r.length)
  {
    hide Decode, Extent, Refused;
  }

  lemma OffsetNext(rs: seq<Record>, n: nat)
    requires n < |rs|
    ensures Offset(rs, n + 1) == Offset(rs, n) + 4 + |rs[n].data|
    ensures Depth(rs, n + 1) == Depth(rs, n) + DepthStep(rs[n].opcode)
  {
    hide DepthStep;
  }

  /** Where all records have even lengths none is broken. */
  lemma {:induction false} EvenUnbroken(rs: seq<Record>, n: nat)
    requires n <= |rs| && forall k :: 0 <= k < |rs| ==> |rs[k].data| % 2 == 0
    ensures Offset(rs, n) % 2 == 0 && Unbroken(rs, n)
  {
    if n > 0 {
      EvenUnbroken(rs, n - 1);
    }
  }

  /** A peek sees the opcode of a record that is not broken. */
  lemma OpcodeSeen(rs: seq<Record>, n: nat)
    requires AllWellFormed(rs) && n < |rs| && Unbroken(rs, n)
    ensures Offset(rs, n) + 4 <= |AllBytes(rs)| && Peeked(AllBytes(rs), Offset(rs, n)) == rs[n].opcode
  {
    hide AllBytes, Decode, Offset;
    RecordInFile(rs, n);
  }

  /** Writing records and splitting the file again gives the records back. */
  lemma {:induction false} ParseAllBytes(rs: seq<Record>, n: nat)
    requires AllWellFormed(rs) && n <= |rs|
    requires forall k :: n <= k < |rs| ==>
             Offset(rs, k) <= |AllBytes(rs)| && !IsGarbage(AllBytes(rs), Offset(rs, k), Depth(rs, k))
    requires forall k :: n <= k < |rs| ==> !Refused(rs[k].opcode, rs[k].length)
    ensures Offset(rs, n) <= |AllBytes(rs)| && Parse(AllBytes(rs), Offset(rs, n), Depth(rs, n)) == (rs[n..], Whole)
    decreases |rs| - n
  {
    hide RecordAt, WellFormed, AllBytes, IsGarbage, IsRefused, Refused, Offset, Depth, DepthStep;
    if n == |rs| {
      OffsetIsLength(rs, n);
      assert rs[..n] == rs;
    } else {
      RecordInFile(rs, n);
      OffsetNext(rs, n);
      ParseAllBytes(rs, n + 1);
      assert rs[n..] == [rs[n]] + rs[n + 1..];
    }
  }

  lemma RecordBytesLength(r: Record)
    ensures |RecordBytes(r)| == 4 + |r.data|
  {
  }
}
