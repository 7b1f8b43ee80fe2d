/**
 The load and save functions of the six kinds of vertex records.  In a file the numbers are
 big-endian and the colour name index and flags come first; in memory they are in the byte order of
 the host and come after the coordinates.  Records may be cut short after the coordinates, and may
 have a tail that is copied as it is.
 */
module VertexCodec {
  import opened Bytes
  import opened BFile
  import opened Codecs

  /** How many four-byte fields a kind of record has after the flags. */
  function FieldCount(opcode: int): nat {
    match opcode
    case 68 => 2
    case 69 => 5
    case 70 => 7
    case 71 => 4
    case _ => 0
  }

  /** How many of `count` four-byte fields some bytes have room for. */
  function Words(count: nat, n: nat): (q: nat)
    ensures q <= count && 4 * q <= n
  {
    if n / 4 < count then n / 4 else count
  }

  /** How many of the four-byte fields a record of some length has room for. */
  function Quads(opcode: int, n: nat): (q: nat)
    requires n >= 28
    ensures 28 + 4 * q <= n
  {
    Words(FieldCount(opcode), n - 28)
  }

  lemma QuadsAreWords(opcode: int, n: nat)
    requires n >= 28
    ensures Quads(opcode, n) == Words(FieldCount(opcode), n - 28)
  {
  }

  /** The first `q` groups of four bytes turned around, the rest as it is. */
  function Swapped(s: seq<Byte>, q: nat): (t: seq<Byte>)
    requires 4 * q <= |s|
    ensures |t| == |s|
  {
    if q == 0 then s else Swapped(s[..4 * q - 4], q - 1) + Reverse(s[4 * q - 4..4 * q]) + s[4 * q..]
  }

  /** The payload in memory for a payload in a file. */
  function FromNew(opcode: int, p: seq<Byte>): (m: seq<Byte>)
    requires |p| >= 28
    ensures |m| == |p|
  {
    Reverse(p[4..12]) + Reverse(p[12..20]) + Reverse(p[20..28]) + Reverse(p[..2]) + Reverse(p[2..4])
    + Swapped(p[28..], Quads(opcode, |p|))
  }

  /** The payload in a file for a payload in memory. */
  function ToNew(opcode: int, m: seq<Byte>): (p: seq<Byte>)
    requires |m| >= 28
    ensures |p| == |m|
  {
    Reverse(m[24..26]) + Reverse(m[26..28]) + Reverse(m[..8]) + Reverse(m[8..16]) + Reverse(m[16..24])
    + Swapped(m[28..], Quads(opcode, |m|))
  }

  lemma {:induction false} SwappedTwice(s: seq<Byte>, q: nat)
    requires 4 * q <= |s|
    ensures Swapped(Swapped(s, q), q) == s
  {
    hide Reverse, Swapped;
    if q == 0 {
      SwappedNone(s);
    } else {
      var a, b, c := Swapped(s[..4 * q - 4], q - 1), Reverse(s[4 * q - 4..4 * q]), s[4 * q..];
      var t := a + b + c;
      SwappedSome(s, q);
      SwappedSome(t, q);
      assert t[..4 * q - 4] == a && t[4 * q - 4..4 * q] == b && t[4 * q..] == c;
      SwappedTwice(s[..4 * q - 4], q - 1);
      ReverseTwice(s[4 * q - 4..4 * q]);
      assert s == s[..4 * q - 4] + s[4 * q - 4..4 * q] + s[4 * q..];
    }
  }

  lemma SwappedNone(s: seq<Byte>)
    ensures Swapped(s, 0) == s
  {
  }

  lemma SwappedSome(s: seq<Byte>, q: nat)
    requires 0 < 4 * q <= |s|
    ensures Swapped(s, q) == Swapped(s[..4 * q - 4], q - 1) + Reverse(s[4 * q - 4..4 * q]) + s[4 * q..]
  {
  }

  lemma ToFromNew(opcode: int, p: seq<Byte>)
    requires |p| >= 28
    ensures ToNew(opcode, FromNew(opcode, p)) == p
  {
    hide Reverse, Swapped, Quads;
    var m := FromNew(opcode, p);
    var x, y, z := Reverse(p[4..12]), Reverse(p[12..20]), Reverse(p[20..28]);
    var c, f, s := Reverse(p[..2]), Reverse(p[2..4]), Swapped(p[28..], Quads(opcode, |p|));
    Six(x, y, z, c, f, s);
    SwappedTwice(p[28..], Quads(opcode, |p|));
    ReverseTwice(p[4..12]);
    ReverseTwice(p[12..20]);
    ReverseTwice(p[20..28]);
    ReverseTwice(p[..2]);
    ReverseTwice(p[2..4]);
    assert p == p[..2] + p[2..4] + p[4..12] + p[12..20] + p[20..28] + p[28..];
  }

  lemma Six(x: seq<Byte>, y: seq<Byte>, z: seq<Byte>, c: seq<Byte>, f: seq<Byte>, s: seq<Byte>)
    requires |x| == |y| == |z| == 8 && |c| == |f| == 2
    ensures var m := x + y + z + c + f + s;
      && |m| == 28 + |s| && m[..8] == x && m[8..16] == y && m[16..24] == z && m[24..26] == c && m[26..28] == f &&
         m[28..] == s
  {
  }

  lemma FromToNew(opcode: int, m: seq<Byte>)
    requires |m| >= 28
    ensures FromNew(opcode, ToNew(opcode, m)) == m
  {
    hide Reverse, Swapped, Quads;
    var p := ToNew(opcode, m);
    var c, f := Reverse(m[24..26]), Reverse(m[26..28]);
    var x, y, z, s := Reverse(m[..8]), Reverse(m[8..16]), Reverse(m[16..24]), Swapped(m[28..], Quads(opcode, |m|));
    SixInFile(c, f, x, y, z, s);
    SwappedTwice(m[28..], Quads(opcode, |m|));
    ReverseTwice(m[..8]);
    ReverseTwice(m[8..16]);
    ReverseTwice(m[16..24]);
    ReverseTwice(m[24..26]);
    ReverseTwice(m[26..28]);
    assert m == m[..8] + m[8..16] + m[16..24] + m[24..26] + m[26..28] + m[28..];
  }

  lemma SixInFile(c: seq<Byte>, f: seq<Byte>, x: seq<Byte>, y: seq<Byte>, z: seq<Byte>, s: seq<Byte>)
    requires |x| == |y| == |z| == 8 && |c| == |f| == 2
    ensures var p := c + f + x + y + z + s;
      && |p| == 28 + |s| && p[..2] == c && p[2..4] == f && p[4..12] == x && p[12..20] == y && p[20..28] == z &&
         p[28..] == s
  {
  }

  /** `d'` is `d` with `v` written at `at`. */
  ghost predicate Patched(d: seq<Byte>, d': seq<Byte>, at: nat, v: seq<Byte>) {
    && |d'| == |d| && at + |v| <= |d|
    && (forall k :: 0 <= k < |v| ==> d'[at + k] == v[k])
    && (forall k :: 0 <= k < |d| && !(at <= k < at + |v|) ==> d'[k] == d[k])
  }

  lemma PatchedTwice(d: seq<Byte>, d': seq<Byte>, d'': seq<Byte>, at: nat, v: seq<Byte>, w: seq<Byte>)
    requires Patched(d, d', at, v) && Patched(d', d'', at + |v|, w)
    ensures Patched(d, d'', at, v + w)
  {
  }

  /** One number, read big-endian and stored in the byte order of the host. */
  method GetField(r: Reader, data: array<Byte>, at: nat, n: nat)
    requires r.Valid() && data != r.buffer && at + n <= data.Length && r.pos + n <= |r.file|
    modifies r, r.buffer, data
    ensures r.Valid() && r.pos == old(r.pos) + n
    ensures Patched(old(data[..]), data[..], at, Reverse(r.file[old(r.pos)..r.pos]))
  {
    hide Reader.Valid;
    ghost var p := r.pos;
    ghost var rev := Reverse(r.file[p..p + n]);
    var i := n;
    while i > 0
      invariant 0 <= i <= n && r.Valid() && r.pos == p + (n - i) <= |r.file|
      invariant forall k :: i <= k < n ==> data[at + k] == rev[k]
      invariant forall k :: 0 <= k < data.Length && !(at <= k < at + n) ==> data[k] == old(data[k])
    {
      i := i - 1;
      data[at + i] := r.GetUint8();
      assert rev[i] == r.file[p..p + n][n - 1 - i] == r.file[p + (n - 1 - i)];
    }
  }

  /** One number in the byte order of the host, written big-endian. */
  method PutField(w: Writer, bytes: seq<Byte>)
    requires w.Valid()
    modifies w, w.buffer
    ensures w.Valid() && w.Contents() == old(w.Contents()) + Reverse(bytes)
  {
    hide Writer.Contents;
    var i := |bytes|;
    ghost var rev := Reverse(bytes);
    while i > 0
      invariant 0 <= i <= |bytes| && w.Valid()
      invariant w.Contents() == old(w.Contents()) + rev[..|bytes| - i]
    {
      i := i - 1;
      w.PutUint8(bytes[i]);
      assert rev[..|bytes| - i] == rev[..|bytes| - i - 1] + [bytes[i]];
    }
    assert rev[..|bytes|] == rev;
  }

  lemma {:induction false} SwappedNext(s: seq<Byte>, q: nat)
    requires 4 * q + 4 <= |s|
    ensures Swapped(s[..4 * q + 4], q + 1) == Swapped(s[..4 * q], q) + Reverse(s[4 * q..4 * q + 4])
  {
    hide Reverse, Swapped;
    var t := s[..4 * q + 4];
    SwappedSome(t, q + 1);
    assert t[..4 * q] == s[..4 * q] && t[4 * q..4 * q + 4] == s[4 * q..4 * q + 4] && t[4 * q + 4..] == [];
  }

  lemma SwappedTail(s: seq<Byte>, q: nat)
    requires 4 * q <= |s|
    ensures Swapped(s, q) == Swapped(s[..4 * q], q) + s[4 * q..]
  {
    hide Reverse, Swapped;
    if q == 0 {
      SwappedNone(s);
      SwappedNone(s[..0]);
    } else {
      SwappedTailSome(s, q);
    }
  }

  lemma SwappedTailSome(s: seq<Byte>, q: nat)
    requires 0 < 4 * q <= |s|
    ensures Swapped(s, q) == Swapped(s[..4 * q], q) + s[4 * q..]
  {
    hide Reverse, Swapped;
    var t := s[..4 * q];
    var a, b, c := Swapped(s[..4 * q - 4], q - 1), Reverse(s[4 * q - 4..4 * q]), s[4 * q..];
    TakeTake(s, 4 * q - 4, 4 * q);
    SwappedSome(t, q);
    SwappedSome(s, q);
    AppendNone(a, b, c);
  }

  lemma TakeTake(s: seq<Byte>, a: nat, b: nat)
    requires a <= b <= |s|
    ensures s[..b][..a] == s[..a] && s[..b][a..b] == s[a..b] && s[..b][b..] == []
  {
  }

  lemma AppendNone(a: seq<Byte>, b: seq<Byte>, c: seq<Byte>)
    ensures a + b + [] + c == a + b + c
  {
  }

  /** The fields every record has: first in the file the colour name index and the flags, then the coordinates. */
  method LoadFields(r: Reader, data: array<Byte>, at: nat)
    requires r.Valid() && data != r.buffer && at + 28 <= data.Length && r.pos + 28 <= |r.file|
    modifies r, r.buffer, data
    ensures r.Valid() && r.pos == old(r.pos) + 28
    ensures var p := r.file[old(r.pos)..r.pos];
      Patched(old(data[..]), data[..], at, Reverse(p[4..12]) + Reverse(p[12..20]) + Reverse(p[20..28]) +
              Reverse(p[..2]) + Reverse(p[2..4]))
  {
    hide Reader.Valid, Reverse, Patched;
    ghost var o, file := r.pos, r.file;
    ghost var d0 := data[..];
    GetField(r, data, at + 24, 2);
    ghost var d1 := data[..];
    GetField(r, data, at + 26, 2);
    ghost var d2 := data[..];
    GetField(r, data, at, 8);
    ghost var d3 := data[..];
    GetField(r, data, at + 8, 8);
    ghost var d4 := data[..];
    GetField(r, data, at + 16, 8);
    ghost var p := file[o..o + 28];
    FieldSlices(file, o);
    PatchedFive(d0, d1, d2, d3, d4, data[..], at,
                Reverse(p[..2]), Reverse(p[2..4]), Reverse(p[4..12]), Reverse(p[12..20]), Reverse(p[20..28]));
  }

  lemma FieldSlices(file: seq<Byte>, o: nat)
    requires o + 28 <= |file|
    ensures var p := file[o..o + 28];
      && p[..2] == file[o..o + 2] && p[2..4] == file[o + 2..o + 4] && p[4..12] == file[o + 4..o + 12]
      && p[12..20] == file[o + 12..o + 20] && p[20..28] == file[o + 20..o + 28]
  {
    SubSlice(file, o, o + 28, 0, 2);
    SubSlice(file, o, o + 28, 2, 2);
    SubSlice(file, o, o + 28, 4, 8);
    SubSlice(file, o, o + 28, 12, 8);
    SubSlice(file, o, o + 28, 20, 8);
  }

  lemma PatchedFive(d0: seq<Byte>, d1: seq<Byte>, d2: seq<Byte>, d3: seq<Byte>, d4: seq<Byte>, d5: seq<Byte>, at: nat,
                    c: seq<Byte>, f: seq<Byte>, x: seq<Byte>, y: seq<Byte>, z: seq<Byte>)
    requires |x| == |y| == |z| == 8 && |c| == |f| == 2
    requires Patched(d0, d1, at + 24, c) && Patched(d1, d2, at + 26, f) && Patched(d2, d3, at, x)
    requires Patched(d3, d4, at + 8, y) && Patched(d4, d5, at + 16, z)
    ensures Patched(d0, d5, at, x + y + z + c + f)
  {
  }

  /** Some four-byte fields from offset `start` of a record on, as many as it has room for. */
  method LoadWords(r: Reader, data: array<Byte>, at: nat, count: nat, start: nat, length: nat) returns (pos: nat)
    requires r.Valid() && data != r.buffer && length >= start
    requires at + length - start <= data.Length && r.pos + length - start <= |r.file|
    modifies r, r.buffer, data
    ensures var q := Words(count, length - start);
      && pos == start + 4 * q && r.Valid() && r.pos == old(r.pos) + 4 * q
      && Patched(old(data[..]), data[..], at, Swapped(r.file[old(r.pos)..r.pos], q))
  {
    hide Reader.Valid, Reverse, Swapped, Patched;
    pos := start;
    var j := 0;
    ghost var o, rest := r.pos, r.file[r.pos..r.pos + length - start];
    SwappedNone(rest[..0]);
    NotPatched(data[..], at);
    while j < count && length >= pos + 4
      invariant pos == start + 4 * j <= length && j <= count
      invariant r.Valid() && r.pos == o + 4 * j
      invariant Patched(old(data[..]), data[..], at, Swapped(rest[..4 * j], j))
    {
      ghost var was := data[..];
      GetField(r, data, at + 4 * j, 4);
      SwappedNext(rest, j);
      SubSlice(r.file, o, o + length - start, 4 * j, 4);
      PatchedTwice(old(data[..]), was, data[..], at, Swapped(rest[..4 * j], j), Reverse(rest[4 * j..4 * j + 4]));
      pos, j := pos + 4, j + 1;
    }
    assert rest[..4 * j] == r.file[o..o + 4 * j];
  }

  lemma NotPatched(d: seq<Byte>, at: nat)
    requires at <= |d|
    ensures Patched(d, d, at, [])
  {
  }

  /** The bytes of a file from some offset on. */
  ghost predicate Ahead(file: seq<Byte>, pos: nat, bytes: seq<Byte>) {
    pos + |bytes| <= |file| && file[pos..pos + |bytes|] == bytes
  }

  /**
   The load function of the kind of records `kind`, into a buffer that was allocated before.  Records of
   another kind and records that are too short are refused; but the function for opcode 69 goes on after
   it has put back the header of a short record, and takes it for the start of the payload.
   */
  method LoadVertex(r: Reader, kind: nat, data: array<Byte>, at: nat, ghost payload: seq<Byte>)
    returns (ok: bool, opcode: nat, length: nat)
    requires r.Valid() && data != r.buffer && IsVertex(kind) && r.pos + 4 <= |r.file|
    requires var n := Decode(U16Be, r.file[r.pos + 2..r.pos + 4]);
      && (n >= 32 ==> |payload| == n - 4 && at + |payload| <= data.Length && Ahead(r.file, r.pos + 4, payload))
      && (n < 32 && kind == 69 ==> |payload| == 28 && at + 28 <= data.Length && Ahead(r.file, r.pos, payload))
    modifies r, r.buffer, data
    ensures r.Valid()
    ensures var n := Decode(U16Be, r.file[old(r.pos) + 2..old(r.pos) + 4]);
      && (ok <==> Decode(U16Be, r.file[old(r.pos)..old(r.pos) + 2]) == kind && (n >= 32 || kind == 69))
      && (ok ==>
            && opcode == kind && length == n && |payload| >= 28 && r.pos == old(r.pos) + (if n >= 32 then n else 28)
            && Patched(old(data[..]), data[..], at, FromNew(kind, payload)))
    ensures !ok ==> data[..] == old(data[..]) && r.pos in {old(r.pos), old(r.pos) + 4}
  {
    hide Reader.Valid, Decode, Patched, Swapped, Reverse, FromNew, Quads, Ahead;
    ghost var o := r.pos;
    ok, opcode, length := LoadHeader(r, kind);
    if !ok {
      return;
    }
    AheadBounds(r.file, r.pos, payload);
    if length < 32 {
      ghost var d0 := data[..];
      LoadFields(r, data, at);
      ShortPayload(r.file, o, payload, kind, d0, data[..], at);
    } else {
      LoadPayload(r, kind, data, at, length, payload);
    }
  }

  /** What follows the header, of a record that is not too short. */
  method LoadPayload(r: Reader, kind: nat, data: array<Byte>, at: nat, length: nat, ghost payload: seq<Byte>)
    requires r.Valid() && data != r.buffer && length >= 32 && |payload| == length - 4 && at + |payload| <= data.Length
    requires Ahead(r.file, r.pos, payload) && r.pos + |payload| <= |r.file|
    modifies r, r.buffer, data
    ensures r.Valid() && r.pos == old(r.pos) + |payload| && Patched(old(data[..]), data[..], at, FromNew(kind, payload))
  {
    hide Reader.Valid, Patched, Swapped, Reverse, FromNew, Quads, Ahead;
    ghost var o, d0 := r.pos, data[..];
    LoadFields(r, data, at);
    ghost var d1 := data[..];
    var pos := LoadWords(r, data, at + 28, FieldCount(kind), 32, length);
    ghost var d2 := data[..];
    if length > pos {
      var got := r.Read(data, at + pos - 4, length - pos);
    }
    QuadsAreWords(kind, |payload|);
    PayloadPatched(r.file, o, payload, kind, d0, d1, d2, data[..], at);
  }

  lemma ShortPayload(file: seq<Byte>, pos: nat, payload: seq<Byte>, kind: nat, d0: seq<Byte>, d1: seq<Byte>, at: nat)
    requires |payload| == 28 && Ahead(file, pos, payload) && at + 28 <= |d0| && pos + 28 <= |file|
    requires var p := file[pos..pos + 28];
      Patched(d0, d1, at, Reverse(p[4..12]) + Reverse(p[12..20]) + Reverse(p[20..28]) + Reverse(p[..2]) +
              Reverse(p[2..4]))
    ensures Patched(d0, d1, at, FromNew(kind, payload))
  {
    hide Reverse, Patched, FromNew, Swapped;
    var p := file[pos..pos + 28];
    SameLength(d0, d1, at, Reverse(p[4..12]) + Reverse(p[12..20]) + Reverse(p[20..28]) + Reverse(p[..2]) +
               Reverse(p[2..4]));
    NotPatched(d1, at + 28);
    SwappedNone([]);
    assert Quads(kind, 28) == 0;
    PayloadPatched(file, pos, payload, kind, d0, d1, d1, d1, at);
  }

  lemma AheadBounds(file: seq<Byte>, pos: nat, bytes: seq<Byte>)
    requires Ahead(file, pos, bytes)
    ensures pos + |bytes| <= |file|
  {
  }

  method LoadHeader(r: Reader, kind: nat) returns (ok: bool, opcode: nat, length: nat)
    requires r.Valid() && r.pos + 4 <= |r.file|
    modifies r, r.buffer
    ensures r.Valid()
    ensures var n := Decode(U16Be, r.file[old(r.pos) + 2..old(r.pos) + 4]);
      && (ok <==> Decode(U16Be, r.file[old(r.pos)..old(r.pos) + 2]) == kind && (n >= 32 || kind == 69))
      && (ok ==> opcode == kind && length == n && r.pos == old(r.pos) + (if n >= 32 then 4 else 0))
    ensures !ok ==> r.pos in {old(r.pos), old(r.pos) + 4}
  {
    hide Reader.Valid, Decode;
    HeaderAt(r.file, r.pos);
    ok, opcode, length := false, 0, 0;
    opcode := r.GetWord(U16Be);
    if opcode != kind {
      var moved := r.Rewind(2);
      return;
    }
    length := r.GetWord(U16Be);
    if length < 32 {
      if kind == 68 || kind == 69 {
        var moved := r.Rewind(4);
      }
      if kind != 69 {
        return;
      }
    }
    ok := true;
  }

  lemma HeaderAt(file: seq<Byte>, pos: nat)
    requires pos + 4 <= |file|
    ensures Window(file, pos, 2) == file[pos..pos + 2] && Window(file, pos + 2, 2) == file[pos + 2..pos + 4]
    ensures Decode(U16Be, file[pos..pos + 2]) >= 0 && Decode(U16Be, file[pos + 2..pos + 4]) >= 0
  {
  }

  /** The three steps together are the whole payload. */
  lemma PayloadPatched(file: seq<Byte>, pos: nat, payload: seq<Byte>, kind: nat,
                       d0: seq<Byte>, d1: seq<Byte>, d2: seq<Byte>, d3: seq<Byte>, at: nat)
    requires |payload| >= 28 && Ahead(file, pos, payload) && at + |payload| <= |d0| && pos + |payload| <= |file|
    requires var q := Quads(kind, |payload|);
      var p := file[pos..pos + 28];
      && Patched(d0, d1, at, Reverse(p[4..12]) + Reverse(p[12..20]) + Reverse(p[20..28]) + Reverse(p[..2]) +
                 Reverse(p[2..4]))
      && Patched(d1, d2, at + 28, Swapped(file[pos + 28..pos + 28 + 4 * q], q))
      && d3 == if |payload| > 28 + 4 * q
               then d2[..at + 28 + 4 * q] + file[pos + 28 + 4 * q..pos + |payload|] + d2[at + |payload|..]
               else d2
    ensures Patched(d0, d3, at, FromNew(kind, payload))
  {
    hide Swapped, Reverse, Quads, Patched, Ahead, FromNew;
    var q := Quads(kind, |payload|);
    PayloadSlices(file, pos, payload, q);
    FromNewParts(kind, file, pos, payload);
    var p, rest := file[pos..pos + 28], payload[28..];
    var fields := Reverse(p[4..12]) + Reverse(p[12..20]) + Reverse(p[20..28]) + Reverse(p[..2]) + Reverse(p[2..4]);
    SameLength(d0, d1, at, fields);
    SameLength(d1, d2, at + 28, Swapped(rest[..4 * q], q));
    TailPatched(d2, d3, at + 28 + 4 * q, rest[4 * q..]);
    PatchedThrice(d0, d1, d2, d3, at, fields, Swapped(rest[..4 * q], q), rest[4 * q..]);
  }

  lemma FromNewParts(kind: nat, file: seq<Byte>, pos: nat, payload: seq<Byte>)
    requires |payload| >= 28 && Ahead(file, pos, payload) && pos + |payload| <= |file|
    ensures var q := Quads(kind, |payload|);
      var p, rest := file[pos..pos + 28], payload[28..];
      FromNew(kind, payload) ==
      (Reverse(p[4..12]) + Reverse(p[12..20]) + Reverse(p[20..28]) + Reverse(p[..2]) + Reverse(p[2..4]))
      + (Swapped(rest[..4 * q], q) + rest[4 * q..])
  {
    hide Swapped, Reverse, Quads, Ahead;
    PayloadSlices(file, pos, payload, Quads(kind, |payload|));
    SwappedTail(payload[28..], Quads(kind, |payload|));
  }

  lemma SameLength(d: seq<Byte>, d': seq<Byte>, at: nat, v: seq<Byte>)
    requires Patched(d, d', at, v)
    ensures |d'| == |d|
  {
  }

  lemma PatchedThrice(d0: seq<Byte>, d1: seq<Byte>, d2: seq<Byte>, d3: seq<Byte>, at: nat, u: seq<Byte>, v: seq<Byte>,
                      w: seq<Byte>)
    requires Patched(d0, d1, at, u) && Patched(d1, d2, at + |u|, v) && Patched(d2, d3, at + |u| + |v|, w)
    ensures Patched(d0, d3, at, u + (v + w))
  {
    hide Patched;
    PatchedTwice(d1, d2, d3, at + |u|, v, w);
    PatchedTwice(d0, d1, d3, at, u, v + w);
  }

  lemma PayloadSlices(file: seq<Byte>, pos: nat, payload: seq<Byte>, q: nat)
    requires 28 + 4 * q <= |payload| && Ahead(file, pos, payload)
    ensures pos + |payload| <= |file|
    ensures var p, rest := file[pos..pos + 28], payload[28..];
      && p[4..12] == payload[4..12] && p[12..20] == payload[12..20] && p[20..28] == payload[20..28]
      && p[..2] == payload[..2] && p[2..4] == payload[2..4]
      && rest[..4 * q] == file[pos + 28..pos + 28 + 4 * q] && rest[4 * q..] == file[pos + 28 + 4 * q..pos + |payload|]
  {
    var n := |payload|;
    assert payload == file[pos..pos + n];
    FieldSlices(file, pos);
    FieldSlices(payload, 0);
    SubSlice(file, pos, pos + n, 0, 28);
    SubSlice(file, pos, pos + n, 28, 4 * q);
    SubSlice(file, pos, pos + n, 28 + 4 * q, n - 28 - 4 * q);
    SubSlice(payload, 28, n, 0, 4 * q);
    SubSlice(payload, 28, n, 4 * q, n - 28 - 4 * q);
  }

  lemma TailPatched(d: seq<Byte>, d': seq<Byte>, at: nat, v: seq<Byte>)
    requires at + |v| <= |d| && d' == if |v| > 0 then d[..at] + v + d[at + |v|..] else d
    ensures Patched(d, d', at, v)
  {
  }

  /** The record in a file for a payload in memory. */
  function FileVertex(opcode: nat, m: seq<Byte>): seq<Byte>
    requires Roomy(opcode, |m|)
  {
    Encode(U16Be, opcode) + Encode(U16Be, |m| + 4) + ToFile(opcode, m)
  }

  /** Some four-byte fields from offset `start` of a record on, as many as it has room for. */
  method SaveWords(w: Writer, data: array<Byte>, at: nat, count: nat, start: nat, length: nat) returns (pos: nat)
    requires w.Valid() && data != w.buffer && length >= start && at + length - start <= data.Length
    modifies w, w.buffer
    ensures var q := Words(count, length - start);
      && pos == start + 4 * q && w.Valid()
      && w.Contents() == old(w.Contents()) + Swapped(data[at..at + 4 * q], q)
  {
    hide Writer.Contents, Reverse, Swapped;
    pos := start;
    var j := 0;
    ghost var rest := data[at..at + length - start];
    SwappedNone(rest[..0]);
    while j < count && length >= pos + 4
      invariant pos == start + 4 * j <= length && j <= count
      invariant w.Valid() && w.Contents() == old(w.Contents()) + Swapped(rest[..4 * j], j)
    {
      PutField(w, data[at + 4 * j..at + 4 * j + 4]);
      SwappedNext(rest, j);
      QuadOfArray(data, at, length - start, j);
      pos, j := pos + 4, j + 1;
    }
    assert rest[..4 * j] == data[at..at + 4 * j];
  }

  lemma QuadOfArray(data: array<Byte>, at: nat, n: nat, j: nat)
    requires 4 * j + 4 <= n && at + n <= data.Length
    ensures data[at..at + n][4 * j..4 * j + 4] == data[at + 4 * j..at + 4 * j + 4]
  {
    var d := data[..];
    SubSlice(d, at, at + n, 4 * j, 4);
    assert d[at..at + n] == data[at..at + n] && d[at + 4 * j..at + 4 * j + 4] == data[at + 4 * j..at + 4 * j + 4];
  }

  /** The fields every record has, in the order of the file. */
  method SaveFive(w: Writer, data: array<Byte>, at: nat)
    requires w.Valid() && data != w.buffer && at + 28 <= data.Length
    modifies w, w.buffer
    ensures w.Valid() && w.Contents() == old(w.Contents()) +
      (Reverse(data[at + 24..at + 26]) + Reverse(data[at + 26..at + 28]) + Reverse(data[at..at + 8])
       + Reverse(data[at + 8..at + 16]) + Reverse(data[at + 16..at + 24]))
  {
    hide Writer.Contents, Reverse;
    ghost var before := w.Contents();
    PutField(w, data[at + 24..at + 26]);
    PutField(w, data[at + 26..at + 28]);
    PutField(w, data[at..at + 8]);
    PutField(w, data[at + 8..at + 16]);
    PutField(w, data[at + 16..at + 24]);
    Appends(before, Reverse(data[at + 24..at + 26]), Reverse(data[at + 26..at + 28]), Reverse(data[at..at + 8]),
            Reverse(data[at + 8..at + 16]), Reverse(data[at + 16..at + 24]));
  }

  method SaveFields(w: Writer, kind: nat, data: array<Byte>, at: nat, length: nat)
    requires w.Valid() && data != w.buffer && length >= 32 && at + length - 4 <= data.Length
    modifies w, w.buffer
    ensures w.Valid() && w.Contents() == old(w.Contents()) + ToNew(kind, data[at..at + length - 4])
  {
    hide Writer.Contents, Reverse, Swapped, Quads, ToNew, Words, FieldCount;
    ghost var m, before := data[at..at + length - 4], w.Contents();
    SaveFive(w, data, at);
    var pos := SaveWords(w, data, at + 28, FieldCount(kind), 32, length);
    ghost var sofar := w.Contents();
    if pos < length {
      w.Write(data, at + pos - 4, length - pos);
    }
    ghost var q := Quads(kind, length - 4);
    QuadsAreWords(kind, length - 4);
    TailWritten(sofar, data[at + 28 + 4 * q..at + |m|], w.Contents());
    ArraySlices(data, at, q, |m|);
    AllFields(kind, data[..], at, m, before, sofar, w.Contents());
  }

  /** The fields of every record, the words there is room for, and the tail are what is written. */
  lemma AllFields(kind: int, d: seq<Byte>, at: nat, m: seq<Byte>, before: seq<Byte>, sofar: seq<Byte>, now: seq<Byte>)
    requires |m| >= 28 && at + |m| <= |d| && m == d[at..at + |m|]
    requires var q := Quads(kind, |m|);
      && sofar == before + (Reverse(d[at + 24..at + 26]) + Reverse(d[at + 26..at + 28]) + Reverse(d[at..at + 8])
                            + Reverse(d[at + 8..at + 16]) + Reverse(d[at + 16..at + 24]))
                  + Swapped(d[at + 28..at + 28 + 4 * q], q)
      && now == sofar + d[at + 28 + 4 * q..at + |m|]
    ensures now == before + ToNew(kind, m)
  {
    hide Reverse, Swapped, Quads, ToNew;
    ToNewParts(kind, d, at, m);
    var q := Quads(kind, |m|);
    var fields := Reverse(d[at + 24..at + 26]) + Reverse(d[at + 26..at + 28]) + Reverse(d[at..at + 8])
                  + Reverse(d[at + 8..at + 16]) + Reverse(d[at + 16..at + 24]);
    AppendTwice(before + fields, Swapped(d[at + 28..at + 28 + 4 * q], q), d[at + 28 + 4 * q..at + |m|]);
    AppendTwice(before, fields, Swapped(d[at + 28..at + 28 + 4 * q], q) + d[at + 28 + 4 * q..at + |m|]);
  }

  lemma ArraySlices(data: array<Byte>, at: nat, q: nat, n: nat)
    requires 28 + 4 * q <= n && at + n <= data.Length
    ensures data[..][at + 24..at + 26] == data[at + 24..at + 26] && data[..][at + 26..at + 28] == data[at + 26..at + 28]
    ensures data[..][at..at + 8] == data[at..at + 8] && data[..][at + 8..at + 16] == data[at + 8..at + 16]
    ensures data[..][at + 16..at + 24] == data[at + 16..at + 24]
    ensures data[..][at + 28..at + 28 + 4 * q] == data[at + 28..at + 28 + 4 * q]
    ensures data[..][at + 28 + 4 * q..at + n] == data[at + 28 + 4 * q..at + n]
    ensures data[..][at..at + n] == data[at..at + n]
  {
  }

  lemma ToNewParts(kind: int, data: seq<Byte>, at: nat, m: seq<Byte>)
    requires |m| >= 28 && at + |m| <= |data| && m == data[at..at + |m|]
    ensures var q := Quads(kind, |m|);
      ToNew(kind, m) ==
      (Reverse(data[at + 24..at + 26]) + Reverse(data[at + 26..at + 28]) + Reverse(data[at..at + 8])
       + Reverse(data[at + 8..at + 16]) + Reverse(data[at + 16..at + 24]))
      + (Swapped(data[at + 28..at + 28 + 4 * q], q) + data[at + 28 + 4 * q..at + |m|])
  {
    hide Reverse, Swapped, Quads;
    FieldsOfMemory(data, at, m, Quads(kind, |m|));
    SwappedTail(m[28..], Quads(kind, |m|));
  }

  lemma TailWritten(s: seq<Byte>, tail: seq<Byte>, s': seq<Byte>)
    requires s' == if |tail| > 0 then s + tail else s
    ensures s' == s + tail
  {
  }

  /** The save function of the kind of records `kind`. */
  method SaveVertex(w: Writer, kind: nat, opcode: nat, data: array<Byte>, at: nat, length: nat) returns (ok: bool)
    requires w.Valid() && data != w.buffer && IsVertex(kind) && length >= 32 && at + length - 4 <= data.Length
    requires U16Be.Holds(opcode) && U16Be.Holds(length)
    modifies w, w.buffer
    ensures w.Valid() && (ok <==> opcode == kind)
    ensures w.Contents() == old(w.Contents()) + if ok then FileVertex(kind, data[at..at + length - 4]) else []
  {
    hide Writer.Contents, ToNew, Encode;
    if opcode != kind {
      return false;
    }
    ghost var before := w.Contents();
    w.PutWord(U16Be, opcode);
    w.PutWord(U16Be, length);
    SaveFields(w, kind, data, at, length);
    ghost var a, b, c := Encode(U16Be, opcode), Encode(U16Be, length), ToNew(kind, data[at..at + length - 4]);
    AppendTwice(before, a, b);
    AppendTwice(before, a + b, c);
    return true;
  }

  lemma FieldsOfMemory(data: seq<Byte>, at: nat, m: seq<Byte>, q: nat)
    requires 28 + 4 * q <= |m| && at + |m| <= |data| && m == data[at..at + |m|]
    ensures m[24..26] == data[at + 24..at + 26] && m[26..28] == data[at + 26..at + 28]
    ensures m[..8] == data[at..at + 8] && m[8..16] == data[at + 8..at + 16] && m[16..24] == data[at + 16..at + 24]
    ensures m[28..][..4 * q] == data[at + 28..at + 28 + 4 * q] && m[28..][4 * q..] == data[at + 28 + 4 * q..at + |m|]
  {
    var n := |m|;
    SubSlice(data, at, at + n, 24, 2);
    SubSlice(data, at, at + n, 26, 2);
    SubSlice(data, at, at + n, 0, 8);
    SubSlice(data, at, at + n, 8, 8);
    SubSlice(data, at, at + n, 16, 8);
    SubSlice(data, at, at + n, 28, 4 * q);
    SubSlice(data, at, at + n, 28 + 4 * q, n - 28 - 4 * q);
    SubSlice(m, 28, n, 0, 4 * q);
    SubSlice(m, 28, n, 4 * q, n - 28 - 4 * q);
  }

  lemma Appends(t: seq<Byte>, c: seq<Byte>, d: seq<Byte>, e: seq<Byte>, f: seq<Byte>, g: seq<Byte>)
    ensures t + c + d + e + f + g == t + (c + d + e + f + g)
  {
    AppendTwice(t, c, d);
    AppendTwice(t, c + d, e);
    AppendTwice(t, c + d + e, f);
    AppendTwice(t, c + d + e + f, g);
  }

  /* The old kinds: three numbers and a tail. */

  /**
   The payload in memory for one in a file, and the other way round: three numbers, if there is room, are
   turned around.
   */
  function Turned(p: seq<Byte>): (m: seq<Byte>)
    ensures |m| == |p|
  {
    Swapped(p, Words(3, |p|))
  }

  /** The load function of an old kind. */
  method LoadOldVertex(r: Reader, kind: nat, data: array<Byte>, at: nat, ghost payload: seq<Byte>)
    returns (ok: bool, opcode: nat, length: nat)
    requires r.Valid() && data != r.buffer && IsOldVertex(kind) && r.pos + 4 <= |r.file| && at <= data.Length
    requires var n := Decode(U16Be, r.file[r.pos + 2..r.pos + 4]);
      |payload| == (if n > 4 then n - 4 else 0) && at + |payload| <= data.Length && Ahead(r.file, r.pos + 4, payload)
    modifies r, r.buffer, data
    ensures r.Valid() && (ok <==> Decode(U16Be, r.file[old(r.pos)..old(r.pos) + 2]) == kind)
    ensures ok ==>
      && opcode == kind && length == Decode(U16Be, r.file[old(r.pos) + 2..old(r.pos) + 4])
      && r.pos == old(r.pos) + 4 + |payload| && Patched(old(data[..]), data[..], at, Turned(payload))
    ensures !ok ==> data[..] == old(data[..]) && r.pos == old(r.pos)
  {
    hide Reader.Valid, Decode, Patched, Swapped, Ahead;
    HeaderAt(r.file, r.pos);
    ok, opcode, length := false, 0, 0;
    opcode := r.GetWord(U16Be);
    if opcode != kind {
      var moved := r.Rewind(2);
      return;
    }
    length := r.GetWord(U16Be);
    ok := true;
    if length <= 4 {
      TurnedShort(payload, data[..], at);
    } else {
      LoadOldPayload(r, data, at, length, payload);
    }
  }

  method LoadOldPayload(r: Reader, data: array<Byte>, at: nat, length: nat, ghost payload: seq<Byte>)
    requires r.Valid() && data != r.buffer && length > 4 && |payload| == length - 4 && at + |payload| <= data.Length
    requires Ahead(r.file, r.pos, payload)
    modifies r, r.buffer, data
    ensures r.Valid() && r.pos == old(r.pos) + |payload| && Patched(old(data[..]), data[..], at, Turned(payload))
  {
    hide Reader.Valid, Patched, Swapped, Ahead;
    AheadBounds(r.file, r.pos, payload);
    ghost var o, d0 := r.pos, data[..];
    var pos := LoadWords(r, data, at, 3, 4, length);
    ghost var d1 := data[..];
    if length > pos {
      var got := r.Read(data, at + pos - 4, length - pos);
    }
    OldPatched(r.file, o, payload, d0, d1, data[..], at);
  }

  lemma TurnedShort(payload: seq<Byte>, d: seq<Byte>, at: nat)
    requires payload == [] && at <= |d|
    ensures Patched(d, d, at, Turned(payload))
  {
    SwappedNone(payload);
  }

  lemma OldPatched(file: seq<Byte>, pos: nat, payload: seq<Byte>, d0: seq<Byte>, d1: seq<Byte>, d2: seq<Byte>, at: nat)
    requires Ahead(file, pos, payload) && pos + |payload| <= |file| && at + |payload| <= |d0|
    requires var q := Words(3, |payload|);
      && Patched(d0, d1, at, Swapped(file[pos..pos + 4 * q], q))
      && d2 == if |payload| > 4 * q
               then d1[..at + 4 * q] + file[pos + 4 * q..pos + |payload|] + d1[at + |payload|..]
               else d1
    ensures Patched(d0, d2, at, Turned(payload))
  {
    hide Swapped, Patched, Ahead, Words;
    var q := Words(3, |payload|);
    WordSlices(file, pos, payload, q);
    SwappedTail(payload, q);
    SameLength(d0, d1, at, Swapped(payload[..4 * q], q));
    TailPatched(d1, d2, at + 4 * q, payload[4 * q..]);
    PatchedTwice(d0, d1, d2, at, Swapped(payload[..4 * q], q), payload[4 * q..]);
  }

  lemma WordSlices(file: seq<Byte>, pos: nat, payload: seq<Byte>, q: nat)
    requires 4 * q <= |payload| && Ahead(file, pos, payload)
    ensures pos + |payload| <= |file|
    ensures payload[..4 * q] == file[pos..pos + 4 * q] && payload[4 * q..] == file[pos + 4 * q..pos + |payload|]
  {
    SubSlice(file, pos, pos + |payload|, 0, 4 * q);
    SubSlice(file, pos, pos + |payload|, 4 * q, |payload| - 4 * q);
  }

  /** The save function of an old kind, for records that have all three numbers. */
  method SaveOldVertex(w: Writer, kind: nat, opcode: nat, data: array<Byte>, at: nat, length: nat) returns (ok: bool)
    requires w.Valid() && data != w.buffer && IsOldVertex(kind) && length >= 16 && at + length - 4 <= data.Length
    requires U16Be.Holds(opcode) && U16Be.Holds(length)
    modifies w, w.buffer
    ensures w.Valid() && (ok <==> opcode == kind)
    ensures w.Contents() == old(w.Contents()) + if ok then FileVertex(kind, data[at..at + length - 4]) else []
  {
    hide Writer.Contents, Encode, Swapped;
    if opcode != kind {
      return false;
    }
    ghost var before, m := w.Contents(), data[at..at + length - 4];
    w.PutWord(U16Be, opcode);
    w.PutWord(U16Be, length);
    ghost var a, b := Encode(U16Be, opcode), Encode(U16Be, length);
    var pos := SaveWords(w, data, at, 3, 4, length);
    ghost var sofar := w.Contents();
    if length > pos {
      w.Write(data, at + pos - 4, length - pos);
    }
    WordsOfArray(data, at, m);
    TailWritten(sofar, m[12..], w.Contents());
    SwappedTail(m, 3);
    AppendTwice(before, a, b);
    AppendTwice(before + (a + b), Swapped(m[..12], 3), m[12..]);
    AppendTwice(before, a + b, Turned(m));
    return true;
  }

  lemma WordsOfArray(data: array<Byte>, at: nat, m: seq<Byte>)
    requires |m| >= 12 && at + |m| <= data.Length && m == data[at..at + |m|]
    ensures m[..12] == data[at..at + 12] && m[12..] == data[at + 12..at + |m|]
  {
  }

  /* All kinds. */

  /** The bytes of payload that are read and written whatever the length of the record. */
  predicate Roomy(opcode: int, n: nat) {
    IsOldVertex(opcode) || n >= 28
  }

  /** The payload in memory for a payload in a file. */
  function FromFile(opcode: int, p: seq<Byte>): (m: seq<Byte>)
    requires Roomy(opcode, |p|)
    ensures |m| == |p|
  {
    if IsOldVertex(opcode) then Turned(p) else FromNew(opcode, p)
  }

  /** The payload in a file for a payload in memory. */
  function ToFile(opcode: int, m: seq<Byte>): (p: seq<Byte>)
    requires Roomy(opcode, |m|)
    ensures |p| == |m|
  {
    if IsOldVertex(opcode) then Turned(m) else ToNew(opcode, m)
  }

  /** What is loaded is saved again as it was in the file, tail and all. */
  lemma ToFromFile(opcode: int, p: seq<Byte>)
    requires Roomy(opcode, |p|)
    ensures ToFile(opcode, FromFile(opcode, p)) == p
  {
    hide FromNew, ToNew, Swapped;
    if IsOldVertex(opcode) {
      SwappedTwice(p, Words(3, |p|));
    } else {
      ToFromNew(opcode, p);
    }
  }

  /** What is saved loads as it was in memory. */
  lemma FromToFile(opcode: int, m: seq<Byte>)
    requires Roomy(opcode, |m|)
    ensures FromFile(opcode, ToFile(opcode, m)) == m
  {
    hide FromNew, ToNew, Swapped;
    if IsOldVertex(opcode) {
      SwappedTwice(m, Words(3, |m|));
    } else {
      FromToNew(opcode, m);
    }
  }
}
