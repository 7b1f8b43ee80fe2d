/**
 The vertex palette in files and in clones: what is in the pools is merged into the one palette that
 is saved, loaded or cloned, and every offset goes on meaning the same record.
 */
module PaletteFile {
  import opened Bytes
  import opened BFile
  import opened Codecs
  import opened Wrappers
  import opened Vertices
  import opened VertexCodec
  import opened Palette

  const S16Be := Format(true, W16, BigEndian)

  function OpcodeIn(r: seq<Byte>): int
    requires |r| >= 4
  {
    Decode(U16Le, r[..2])
  }

  /**
   The records of a palette: vertex records with their coordinates, and records of kinds without functions of
   their own.
   */
  ghost predicate Storable(r: seq<Byte>) {
    IsRecord(r) && (HasCodec(OpcodeIn(r)) ==> IsVertexKind(OpcodeIn(r)) && |r| >= Least(OpcodeIn(r)))
  }

  ghost predicate AllStorable(rs: seq<seq<Byte>>) {
    forall k :: 0 <= k < |rs| ==> Storable(rs[k])
  }

  /** A record as it stands in a file. */
  function FileRecord(r: seq<Byte>): (f: seq<Byte>)
    requires |r| >= 4
    ensures |f| == |r|
  {
    if IsVertexKind(OpcodeIn(r)) && |r| >= Least(OpcodeIn(r)) then FileVertex(OpcodeIn(r), r[4..])
    else Encode(U16Be, OpcodeIn(r)) + Encode(U16Be, |r|) + r[4..]
  }

  function FileRecords(rs: seq<seq<Byte>>): (fs: seq<seq<Byte>>)
    requires forall k :: 0 <= k < |rs| ==> |rs[k]| >= 4
    ensures |fs| == |rs| && forall k :: 0 <= k < |rs| ==> fs[k] == FileRecord(rs[k])
  {
    seq(|rs|, k requires 0 <= k < |rs| => FileRecord(rs[k]))
  }

  /** What follows the header of a palette in a file. */
  function PaletteData(rs: seq<seq<Byte>>): seq<Byte>
    requires forall k :: 0 <= k < |rs| ==> |rs[k]| >= 4
  {
    Encode(S32Be, BASE + |Flat(rs)|) + Flat(FileRecords(rs))
  }

  /** The whole palette in a file; the length of its node is kept, but says nothing. */
  function PaletteBytes(nodelength: nat, rs: seq<seq<Byte>>): seq<Byte>
    requires forall k :: 0 <= k < |rs| ==> |rs[k]| >= 4
  {
    Encode(U16Be, VERTEX_PALETTE) + Encode(U16Be, nodelength) + PaletteData(rs)
  }

  /** A palette that fits into a file. */
  ghost predicate Sizable(rs: seq<seq<Byte>>) {
    AllStorable(rs) && (forall k :: 0 <= k < |rs| ==> |rs[k]| >= 4) && BASE + |Flat(rs)| < 0x8000_0000
  }

  ghost predicate PaletteOf(rs: seq<seq<Byte>>, data: seq<Byte>) {
    Sizable(rs) && data == PaletteData(rs)
  }

  /** The node's length is read and written as a signed number, but kept as an unsigned one. */
  lemma SignedLength(nodelength: nat)
    requires U16Be.Holds(nodelength)
    ensures var v := if nodelength >= 0x8000 then nodelength - 0x1_0000 else nodelength;
      S16Be.Holds(v) && Encode(S16Be, v) == Encode(U16Be, nodelength)
  {
  }

  lemma LengthSigned(w: seq<Byte>)
    requires |w| == 2
    ensures Wrap(W16, Decode(S16Be, w)) == Decode(U16Be, w)
  {
    hide Decode, Digits;
    var v := Decode(S16Be, w);
    EncodeDecode(S16Be, w);
    assert Encode(U16Be, Wrap(W16, v)) == Encode(S16Be, v);
    DecodeEncode(U16Be, Wrap(W16, v));
  }

  lemma StorableParts(rs: seq<seq<Byte>>)
    requires AllStorable(rs)
    ensures AllRecords(rs) && forall k :: 0 <= k < |rs| ==> |rs[k]| >= 4
  {
    hide Decode;
    forall k | 0 <= k < |rs|
      ensures IsRecord(rs[k]) && |rs[k]| >= 4
    {
      assert Storable(rs[k]);
    }
  }

  /** Records of the same lengths are at the same offsets. */
  lemma {:induction false} SameStarts(rs: seq<seq<Byte>>, ts: seq<seq<Byte>>, k: nat)
    requires |rs| == |ts| && k <= |rs| && forall j :: 0 <= j < |rs| ==> |rs[j]| == |ts[j]|
    ensures Start(rs, k) == Start(ts, k)
  {
    hide Start;
    if k == 0 {
      StartZero(rs);
      StartZero(ts);
    } else {
      SameStarts(rs, ts, k - 1);
      StartNext(rs, k - 1);
      StartNext(ts, k - 1);
    }
  }

  /** Offsets in the file run along with those in memory. */
  lemma FileStart(rs: seq<seq<Byte>>, k: nat)
    requires k <= |rs| && forall j :: 0 <= j < |rs| ==> |rs[j]| >= 4
    ensures Start(FileRecords(rs), k) == Start(rs, k)
  {
    hide FileRecord, Start;
    SameStarts(FileRecords(rs), rs, k);
  }

  lemma StartZero(rs: seq<seq<Byte>>)
    ensures Start(rs, 0) == 0
  {
    assert rs[..0] == [];
  }

  lemma {:induction false} FileFlatNext(rs: seq<seq<Byte>>, k: nat)
    requires k < |rs| && forall j :: 0 <= j < |rs| ==> |rs[j]| >= 4
    ensures Flat(FileRecords(rs)[..k + 1]) == Flat(FileRecords(rs)[..k]) + FileRecord(rs[k])
  {
    hide FileRecord;
    StartNext(FileRecords(rs), k);
  }

  /* Saving. */

  /** One record at offset `at` of a buffer. */
  method SaveRecord(w: Writer, bytes: array<Byte>, at: nat, ghost r: seq<Byte>) returns (size: nat)
    requires w.Valid() && bytes != w.buffer && Storable(r) && at + |r| <= bytes.Length && bytes[at..at + |r|] == r
    modifies w, w.buffer
    ensures w.Valid() && size == |r| && w.Contents() == old(w.Contents()) + FileRecord(r)
  {
    hide Writer.Contents, Decode, Encode, FileVertex;
    HeaderOf(bytes[..], at, r);
    ghost var before := w.Contents();
    var opcode := Decode(U16Le, bytes[at..at + 2]);
    size := Decode(U16Le, bytes[at + 2..at + 4]);
    if IsVertex(opcode) {
      var ok := SaveVertex(w, opcode, opcode, bytes, at + 4, size);
    } else if IsOldVertex(opcode) {
      var ok := SaveOldVertex(w, opcode, opcode, bytes, at + 4, size);
    } else {
      w.PutWord(U16Be, opcode);
      w.PutWord(U16Be, size);
      ghost var sofar := w.Contents();
      if size > 4 {
        w.Write(bytes, at + 4, size - 4);
      }
      TailWritten(sofar, r[4..], w.Contents());
      AppendTwice(before, Encode(U16Be, opcode), Encode(U16Be, size));
      AppendTwice(before, Encode(U16Be, opcode) + Encode(U16Be, size), r[4..]);
    }
  }

  lemma HeaderOf(bytes: seq<Byte>, at: nat, r: seq<Byte>)
    requires IsRecord(r) && at + |r| <= |bytes| && bytes[at..at + |r|] == r
    ensures |r| >= 4 && bytes[at..at + 2] == r[..2] && bytes[at + 2..at + 4] == r[2..4] &&
            bytes[at + 4..at + |r|] == r[4..]
    ensures Decode(U16Le, bytes[at + 2..at + 4]) == |r|
    ensures U16Be.Holds(OpcodeIn(r)) && U16Be.Holds(|r|) && OpcodeIn(r) >= 0
  {
    hide Decode, Encode;
    SubSlice(bytes, at, at + |r|, 0, 2);
    SubSlice(bytes, at, at + |r|, 2, 2);
    SubSlice(bytes, at, at + |r|, 4, |r| - 4);
    EncodeDecode(U16Le, r[..2]);
    EncodeDecode(U16Le, r[2..4]);
  }

  /** The records of one part, which reaches from `from` to `to` in its buffer. */
  method SavePart(w: Writer, bytes: array<Byte>, from: nat, to: nat, ghost part: seq<seq<Byte>>)
    requires w.Valid() && bytes != w.buffer && AllStorable(part) && forall k :: 0 <= k < |part| ==> |part[k]| >= 4
    requires from <= to <= bytes.Length && bytes[from..to] == Flat(part)
    modifies w, w.buffer
    ensures w.Valid() && w.Contents() == old(w.Contents()) + Flat(FileRecords(part))
  {
    hide Writer.Contents, Flat, Storable, FileRecord, Start;
    var curptr := from;
    ghost var k, before := 0, w.Contents();
    StorableParts(part);
    StartZero(part);
    NoRecords(part, before);
    while curptr < to
      invariant k <= |part| && from <= curptr == from + Start(part, k) <= to
      invariant w.Valid() && w.Contents() == before + Flat(FileRecords(part)[..k])
    {
      InPart(bytes[..], from, to, part, k);
      assert bytes[..][from..to] == bytes[from..to];
      assert bytes[curptr..curptr + |part[k]|] == bytes[..][curptr..curptr + |part[k]|];
      var size := SaveRecord(w, bytes, curptr, part[k]);
      FileFlatNext(part, k);
      AppendTwice(before, Flat(FileRecords(part)[..k]), FileRecord(part[k]));
      curptr, k := curptr + size, k + 1;
    }
    AtPartEnd(part, k);
    assert FileRecords(part)[..k] == FileRecords(part);
  }

  lemma NoRecords(part: seq<seq<Byte>>, before: seq<Byte>)
    requires forall k :: 0 <= k < |part| ==> |part[k]| >= 4
    ensures before == before + Flat(FileRecords(part)[..0])
  {
    assert FileRecords(part)[..0] == [];
  }

  lemma AtPartEnd(part: seq<seq<Byte>>, k: nat)
    requires AllRecords(part) && k <= |part| && Start(part, k) >= |Flat(part)|
    ensures k == |part|
  {
    hide Flat, Start, IsRecord;
    StartEnd(part);
    StartGrows(part, k, |part|);
  }

  /** Before the end of a part there is another record. */
  lemma InPart(bytes: seq<Byte>, from: nat, to: nat, part: seq<seq<Byte>>, k: nat)
    requires AllStorable(part) && AllRecords(part) && k <= |part| && from <= to <= |bytes| &&
             bytes[from..to] == Flat(part)
    requires from + Start(part, k) < to
    ensures k < |part| && |part[k]| >= 4 && Storable(part[k]) && from + Start(part, k) + |part[k]| <= to
    ensures bytes[from + Start(part, k)..from + Start(part, k) + |part[k]|] == part[k]
    ensures Start(part, k + 1) == Start(part, k) + |part[k]|
  {
    hide Flat, Start, IsRecord, Storable, RecordAt;
    StartEnd(part);
    if k < |part| {
      FlatAt(part, k);
      StartNext(part, k);
      AtLeastFour(part, k);
      SubSlice(bytes, from, to, Start(part, k), |part[k]|);
    }
  }

  /** The records of the palette, and then those of all pools. */
  method SaveParts(store: Store, w: Writer)
    requires store.Valid() && Sizable(store.Records())
    requires w.Valid() && w.buffer != store.data && forall p :: p in store.Pools() ==> p.data != w.buffer
    modifies w, w.buffer
    ensures w.Valid() && store.Valid() && store.Records() == old(store.Records())
    ensures w.Contents() == old(w.Contents()) + Flat(FileRecords(store.Records()))
  {
    hide Writer.Contents, Flat, Storable, FileRecord, AllParts, Store.Distinct, IsRecord;
    ghost var parts, sofar := store.parts, w.Contents();
    PartInWhole(parts, 0);
    SavePart(w, store.data, BASE, store.length, parts[0]);
    SavedFirst(parts, sofar);
    var i := 0;
    while i < |store.Pools()|
      invariant i <= |store.Pools()| && w.Valid() && store.Valid() && store.parts == parts
      invariant SavedParts(parts, i + 1, sofar, w.Contents())
    {
      assert store.PoolHolds(i);
      PartInWhole(parts, i + 1);
      ghost var was := w.Contents();
      SavePart(w, store.Pools()[i].data, 0, store.Pools()[i].position, parts[i + 1]);
      SavedNext(parts, i + 1, sofar, was, w.Contents());
      i := i + 1;
    }
    SavedAll(parts, sofar, w.Contents());
  }

  /** prf_vertex_palette_save_f: one palette with everything that is in the pools as well. */
  method SavePalette(store: Store, nodelength: nat, w: Writer)
    requires store.Valid() && Sizable(store.Records()) && U16Be.Holds(nodelength)
    requires w.Valid() && w.buffer != store.data && forall p :: p in store.Pools() ==> p.data != w.buffer
    modifies w, w.buffer
    ensures w.Valid() && store.Valid() && store.Records() == old(store.Records())
    ensures w.Contents() == old(w.Contents()) + PaletteBytes(nodelength, store.Records())
  {
    hide Writer.Contents, Flat, Storable, AllStorable, FileRecords, AllParts, Store.Distinct, Store.PoolHolds, Encode,
         IsRecord;
    ghost var before := w.Contents();
    var length := store.SumPositions();
    SignedLength(nodelength);
    w.PutWord(U16Be, VERTEX_PALETTE);
    w.PutWord(S16Be, if nodelength >= 0x8000 then nodelength - 0x1_0000 else nodelength);
    w.PutWord(S32Be, length);
    SaveParts(store, w);
    Appended(before, Encode(U16Be, VERTEX_PALETTE), Encode(U16Be, nodelength), Encode(S32Be, length),
             Flat(FileRecords(store.Records())));
  }

  lemma Appended(t: seq<Byte>, a: seq<Byte>, b: seq<Byte>, c: seq<Byte>, d: seq<Byte>)
    ensures t + a + b + c + d == t + (a + b + (c + d))
  {
    AppendTwice(t, a, b);
    AppendTwice(t + (a + b), c, d);
    AppendTwice(t, a + b, c + d);
  }

  /** The first `n` parts have been written after `start`. */
  ghost predicate SavedParts(parts: seq<seq<seq<Byte>>>, n: nat, start: seq<Byte>, now: seq<Byte>) {
    && n <= |parts| && (forall k :: 0 <= k < |AllParts(parts[..n])| ==> |AllParts(parts[..n])[k]| >= 4)
    && now == start + Flat(FileRecords(AllParts(parts[..n])))
  }

  lemma PartInWhole(parts: seq<seq<seq<Byte>>>, i: nat)
    requires i < |parts| && AllStorable(AllParts(parts))
    ensures AllStorable(parts[i]) && forall k :: 0 <= k < |parts[i]| ==> |parts[i][k]| >= 4
  {
    hide Storable, AllParts;
    assert parts == parts[..i] + parts[i..];
    PartsSum(parts[..i], parts[i..]);
    PartsFrom(parts, i);
    var at := |AllParts(parts[..i])|;
    forall k | 0 <= k < |parts[i]|
      ensures Storable(parts[i][k])
    {
      assert parts[i][k] == AllParts(parts)[at + k];
    }
    StorableParts(parts[i]);
  }

  lemma SavedFirst(parts: seq<seq<seq<Byte>>>, start: seq<Byte>)
    requires parts != [] && forall k :: 0 <= k < |parts[0]| ==> |parts[0][k]| >= 4
    ensures SavedParts(parts, 1, start, start + Flat(FileRecords(parts[0])))
  {
    hide Flat, FileRecord;
    assert parts[..1] == [parts[0]];
    OnePart(parts[0]);
  }

  lemma SavedNext(parts: seq<seq<seq<Byte>>>, n: nat, start: seq<Byte>, was: seq<Byte>, now: seq<Byte>)
    requires n < |parts| && SavedParts(parts, n, start, was) && forall k :: 0 <= k < |parts[n]| ==> |parts[n][k]| >= 4
    requires now == was + Flat(FileRecords(parts[n]))
    ensures SavedParts(parts, n + 1, start, now)
  {
    hide Flat, FileRecord, AllParts;
    PartsNext(parts, n);
    var a, b := AllParts(parts[..n]), parts[n];
    assert FileRecords(a + b) == FileRecords(a) + FileRecords(b);
    FlatSum(FileRecords(a), FileRecords(b));
    AppendTwice(start, Flat(FileRecords(a)), Flat(FileRecords(b)));
  }

  lemma SavedAll(parts: seq<seq<seq<Byte>>>, start: seq<Byte>, now: seq<Byte>)
    requires SavedParts(parts, |parts|, start, now) && forall k :: 0 <= k < |AllParts(parts)| ==>
             |AllParts(parts)[k]| >= 4
    ensures now == start + Flat(FileRecords(AllParts(parts)))
  {
    hide Flat, FileRecord, AllParts;
    assert parts[..|parts|] == parts;
  }

  /* Loading. */

  /** A record in memory is its header in the byte order of the host and its payload. */
  lemma RecordParts(r: seq<Byte>)
    requires Storable(r)
    ensures |r| >= 4 && OpcodeIn(r) >= 0 && U16Be.Holds(OpcodeIn(r)) && U16Be.Holds(|r|)
    ensures r == Encode(U16Le, OpcodeIn(r)) + Encode(U16Le, |r|) + r[4..]
    ensures r[..4] == Encode(U16Le, OpcodeIn(r)) + Encode(U16Le, |r|)
    ensures IsVertexKind(OpcodeIn(r)) ==> |r| >= Least(OpcodeIn(r)) && Roomy(OpcodeIn(r), |r| - 4)
  {
    hide Decode, Encode;
    HeaderOf(r, 0, r);
    assert r[0..|r|] == r;
    EncodeDecode(U16Le, r[..2]);
    EncodeDecode(U16Le, r[2..4]);
    assert r == r[..2] + r[2..4] + r[4..] && r[..4] == r[..2] + r[2..4];
  }

  /** What stands at the start of a record in a file. */
  lemma FileHeader(file: seq<Byte>, pos: nat, r: seq<Byte>)
    requires Storable(r) && |r| >= 4 && Ahead(file, pos, FileRecord(r))
    ensures pos + |r| <= |file|
    ensures Decode(U16Be, file[pos..pos + 2]) == OpcodeIn(r) && Decode(U16Be, file[pos + 2..pos + 4]) == |r|
    ensures IsVertexKind(OpcodeIn(r)) ==> Roomy(OpcodeIn(r), |r| - 4)
    ensures if IsVertexKind(OpcodeIn(r)) then Ahead(file, pos + 4, ToFile(OpcodeIn(r), r[4..]))
            else file[pos + 4..pos + |r|] == r[4..]
  {
    hide Decode, Encode, ToFile;
    RecordParts(r);
    var f := FileRecord(r);
    DecodeEncode(U16Be, OpcodeIn(r));
    DecodeEncode(U16Be, |r|);
    var tail := if IsVertexKind(OpcodeIn(r)) then ToFile(OpcodeIn(r), r[4..]) else r[4..];
    assert f == Encode(U16Be, OpcodeIn(r)) + Encode(U16Be, |r|) + tail;
    FileSlices(file, pos, f, Encode(U16Be, OpcodeIn(r)), Encode(U16Be, |r|), tail);
  }

  lemma FileSlices(file: seq<Byte>, pos: nat, f: seq<Byte>, a: seq<Byte>, b: seq<Byte>, c: seq<Byte>)
    requires |a| == |b| == 2 && f == a + b + c && Ahead(file, pos, f)
    ensures pos + |f| <= |file| && file[pos..pos + 2] == a && file[pos + 2..pos + 4] == b &&
            file[pos + 4..pos + |f|] == c
  {
    var n := |f|;
    SubSlice(file, pos, pos + n, 0, 2);
    SubSlice(file, pos, pos + n, 2, 2);
    SubSlice(file, pos, pos + n, 4, n - 4);
    assert f[0..2] == a && f[2..4] == b && f[4..4 + (n - 4)] == c;
  }

  /**
   What a record that starts at offset `at` of a file becomes.  The opcode is looked at with a peek, which
   answers zero at the last byte of a block; a vertex record there is taken for one of an unknown kind,
   and its numbers stay in the byte order of the file.
   */
  function LoadedAs(r: seq<Byte>, at: nat): (l: seq<Byte>)
    requires |r| >= 4
    ensures |l| == |r|
  {
    if IsVertexKind(OpcodeIn(r)) && |r| >= Least(OpcodeIn(r)) && at % BLOCK == BLOCK - 1
    then r[..4] + ToFile(OpcodeIn(r), r[4..])
    else r
  }

  /** One record, into offset `curptr` of the buffer. */
  method LoadRecord(r: Reader, data: array<Byte>, curptr: nat, ghost rec: seq<Byte>) returns (size: nat)
    requires r.Valid() && data != r.buffer && Storable(rec) && |rec| >= 4
    requires Ahead(r.file, r.pos, FileRecord(rec)) && curptr + |rec| <= data.Length
    modifies r, r.buffer, data
    ensures r.Valid() && r.pos == old(r.pos) + |rec| && size == |rec|
    ensures Patched(old(data[..]), data[..], curptr, LoadedAs(rec, old(r.pos)))
  {
    hide Reader.Valid, Decode, FileRecord, Ahead, Patched, ToFile;
    OpcodeAhead(r.file, r.pos, rec);
    var opcode := r.PeekUint16Be();
    if HasCodec(opcode) {
      size := LoadKnown(r, data, curptr, opcode, rec);
    } else {
      size := LoadOther(r, data, curptr, rec);
    }
  }

  /** The two bytes that are looked at are the opcode of the record, unless they straddle a block boundary. */
  lemma OpcodeAhead(file: seq<Byte>, pos: nat, rec: seq<Byte>)
    requires Storable(rec) && |rec| >= 4 && Ahead(file, pos, FileRecord(rec))
    ensures pos + |rec| <= |file| && Peeked(file, pos) == if pos % BLOCK == BLOCK - 1 then 0 else OpcodeIn(rec)
  {
    hide Decode, Encode, FileRecord, ToFile, Ahead, Storable;
    FileHeader(file, pos, rec);
    HeaderAt(file, pos);
  }

  /** A record of a kind that has a load function; the header goes in after the payload. */
  method LoadKnown(r: Reader, data: array<Byte>, curptr: nat, kind: nat, ghost rec: seq<Byte>) returns (size: nat)
    requires r.Valid() && data != r.buffer && Storable(rec) && |rec| >= 4 && IsVertexKind(kind) && kind == OpcodeIn(rec)
    requires Ahead(r.file, r.pos, FileRecord(rec)) && curptr + |rec| <= data.Length
    modifies r, r.buffer, data
    ensures r.Valid() && r.pos == old(r.pos) + |rec| && size == |rec|
    ensures Patched(old(data[..]), data[..], curptr, rec)
  {
    hide Reader.Valid, Decode, Encode, FileRecord, FromNew, Turned, ToFile, Ahead, Patched, Storable;
    ghost var d0 := data[..];
    RecordParts(rec);
    FileHeader(r.file, r.pos, rec);
    FromToFile(kind, rec[4..]);
    var ok, opcode, nodelength;
    if IsVertex(kind) {
      ok, opcode, nodelength := LoadVertex(r, kind, data, curptr + 4, ToFile(kind, rec[4..]));
    } else {
      ok, opcode, nodelength := LoadOldVertex(r, kind, data, curptr + 4, ToFile(kind, rec[4..]));
    }
    ghost var d1 := data[..];
    PatchHeader(data, curptr, opcode, nodelength);
    HeaderFirst(d0, d1, data[..], curptr, Encode(U16Le, kind) + Encode(U16Le, |rec|), rec[4..]);
    size := nodelength;
  }

  /** A record that is not known, or not recognized: what follows the header is copied. */
  method LoadOther(r: Reader, data: array<Byte>, curptr: nat, ghost rec: seq<Byte>) returns (size: nat)
    requires r.Valid() && data != r.buffer && Storable(rec) && |rec| >= 4
    requires Ahead(r.file, r.pos, FileRecord(rec)) && curptr + |rec| <= data.Length
    modifies r, r.buffer, data
    ensures r.Valid() && r.pos == old(r.pos) + |rec| && size == |rec|
    ensures IsVertexKind(OpcodeIn(rec)) ==> Roomy(OpcodeIn(rec), |rec| - 4)
    ensures Patched(old(data[..]), data[..], curptr,
                    if IsVertexKind(OpcodeIn(rec)) then rec[..4] + ToFile(OpcodeIn(rec), rec[4..]) else rec)
  {
    hide Reader.Valid, Decode, Encode, FileRecord, ToFile, Ahead, Patched, Storable;
    ghost var d0, header := data[..], rec[..4];
    RecordParts(rec);
    FileHeader(r.file, r.pos, rec);
    HeaderAt(r.file, r.pos);
    ghost var payload := if IsVertexKind(OpcodeIn(rec)) then ToFile(OpcodeIn(rec), rec[4..]) else rec[4..];
    FilePayload(r.file, r.pos, rec, payload);
    var opcode := r.GetWord(U16Be);
    var nodelength := r.GetWord(U16Be);
    PatchHeader(data, curptr, opcode, nodelength);
    ghost var d1 := data[..];
    SameLength(d0, d1, curptr, header);
    ReadTail(r, data, curptr + 4, if nodelength > 4 then nodelength - 4 else 0, payload);
    PatchedTwice(d0, d1, data[..], curptr, header, payload);
    assert rec == rec[..4] + rec[4..];
    size := nodelength;
  }

  method ReadTail(r: Reader, data: array<Byte>, at: nat, n: nat, ghost payload: seq<Byte>)
    requires r.Valid() && data != r.buffer && at + n <= data.Length
    requires |payload| == n && r.pos + n <= |r.file| && r.file[r.pos..r.pos + n] == payload
    modifies r, r.buffer, data
    ensures r.Valid() && r.pos == old(r.pos) + n && Patched(old(data[..]), data[..], at, payload)
  {
    hide Reader.Valid, Patched;
    ghost var was := data[..];
    if n > 0 {
      var got := r.Read(data, at, n);
    }
    TailPatched(was, data[..], at, payload);
  }

  lemma FilePayload(file: seq<Byte>, pos: nat, rec: seq<Byte>, payload: seq<Byte>)
    requires |rec| >= 4 && |payload| == |rec| - 4 && pos + |rec| <= |file|
    requires Ahead(file, pos + 4, payload) || file[pos + 4..pos + |rec|] == payload
    ensures file[pos + 4..pos + |rec|] == payload
  {
  }

  method PatchHeader(data: array<Byte>, at: nat, opcode: nat, length: nat)
    requires at + 4 <= data.Length
    modifies data
    ensures Patched(old(data[..]), data[..], at, Encode(U16Le, opcode) + Encode(U16Le, length))
  {
    hide Encode;
    WriteAt(data, at, Encode(U16Le, opcode) + Encode(U16Le, length));
  }

  /** The header may be written before or after the payload. */
  lemma HeaderFirst(d0: seq<Byte>, d1: seq<Byte>, d2: seq<Byte>, at: nat, header: seq<Byte>, payload: seq<Byte>)
    requires |header| == 4 && Patched(d0, d1, at + 4, payload) && Patched(d1, d2, at, header)
    ensures Patched(d0, d2, at, header + payload)
  {
  }

  /** The header of a palette, and where its records start. */
  lemma PaletteHeader(file: seq<Byte>, pos: nat, nodelength: nat, rs: seq<seq<Byte>>)
    requires Sizable(rs) && U16Be.Holds(nodelength) && Ahead(file, pos, PaletteBytes(nodelength, rs))
    ensures pos + 8 + |Flat(rs)| <= |file| && Ahead(file, pos + 8, Flat(FileRecords(rs)))
    ensures Decode(U16Be, Window(file, pos, 2)) == VERTEX_PALETTE
    ensures Wrap(W16, Decode(S16Be, Window(file, pos + 2, 2))) == nodelength
    ensures Decode(S32Be, Window(file, pos + 4, 4)) == BASE + |Flat(rs)|
  {
    hide Decode, Encode, Flat, FileRecord, Storable, Wrap;
    var a, b, c, d := Encode(U16Be, VERTEX_PALETTE), Encode(U16Be, nodelength), Encode(S32Be, BASE + |Flat(rs)|),
      Flat(FileRecords(rs));
    DecodeEncode(U16Be, VERTEX_PALETTE);
    DecodeEncode(U16Be, nodelength);
    DecodeEncode(S32Be, BASE + |Flat(rs)|);
    LengthSigned(b);
    FileStart(rs, |rs|);
    StartEnd(rs);
    StartEnd(FileRecords(rs));
    AppendTwice(a + b, c, d);
    HeaderSlices(file, pos, a, b, c, d);
  }

  lemma HeaderSlices(file: seq<Byte>, pos: nat, a: seq<Byte>, b: seq<Byte>, c: seq<Byte>, d: seq<Byte>)
    requires |a| == |b| == 2 && |c| == 4 && Ahead(file, pos, a + b + c + d)
    ensures pos + 8 + |d| <= |file| && Ahead(file, pos + 8, d)
    ensures file[pos..pos + 2] == a && file[pos + 2..pos + 4] == b && file[pos + 4..pos + 8] == c
  {
    var n, f := 8 + |d|, a + b + c + d;
    SubSlice(file, pos, pos + n, 0, 2);
    SubSlice(file, pos, pos + n, 2, 2);
    SubSlice(file, pos, pos + n, 4, 4);
    SubSlice(file, pos, pos + n, 8, |d|);
    assert f[0..2] == a && f[2..4] == b && f[4..8] == c && f[8..8 + |d|] == d;
  }

  /** Where record `k` is in the file. */
  lemma RecordAhead(file: seq<Byte>, pos: nat, rs: seq<seq<Byte>>, k: nat)
    requires AllStorable(rs) && (forall j :: 0 <= j < |rs| ==> |rs[j]| >= 4)
    requires Ahead(file, pos, Flat(FileRecords(rs))) && k < |rs|
    ensures Ahead(file, pos + Start(rs, k), FileRecord(rs[k])) && Start(rs, k) + |rs[k]| <= |Flat(rs)| &&
            Storable(rs[k])
  {
    hide Flat, FileRecord, Storable, Start;
    var fs := FileRecords(rs);
    FileStart(rs, k);
    FlatSlice(fs, k);
    FlatSlice(rs, k);
    SubSlice(file, pos, pos + |Flat(fs)|, Start(rs, k), |rs[k]|);
  }

  /** A record behind those that are there already. */
  lemma RecordAdded(d: seq<Byte>, d': seq<Byte>, from: nat, at: nat, flat: seq<Byte>, rec: seq<Byte>)
    requires Patched(d, d', at, rec) && from <= at && d[from..at] == flat
    ensures d'[from..at + |rec|] == flat + rec
  {
    assert forall k :: from <= k < at ==> d'[k] == d[k] == flat[k - from];
  }

  /** What the records become when the first of them starts at offset `at` of a file. */
  function LoadedRecords(rs: seq<seq<Byte>>, at: nat): (ls: seq<seq<Byte>>)
    requires forall k :: 0 <= k < |rs| ==> |rs[k]| >= 4
    ensures |ls| == |rs| && forall k :: 0 <= k < |rs| ==>
            |ls[k]| == |rs[k]| && ls[k] == LoadedAs(rs[k], at + Start(rs, k))
  {
    hide Start, LoadedAs;
    seq(|rs|, k requires 0 <= k < |rs| => LoadedAs(rs[k], at + Start(rs, k)))
  }

  lemma LoadedParts(rs: seq<seq<Byte>>, at: nat)
    requires AllStorable(rs) && forall k :: 0 <= k < |rs| ==> |rs[k]| >= 4
    ensures AllRecords(LoadedRecords(rs, at)) && |Flat(LoadedRecords(rs, at))| == |Flat(rs)|
  {
    hide Start, Flat, Decode;
    var ls := LoadedRecords(rs, at);
    forall k | 0 <= k < |rs|
      ensures IsRecord(ls[k])
    {
      assert Storable(rs[k]);
      assert ls[k][2..4] == rs[k][2..4];
    }
    SameStarts(ls, rs, |rs|);
    StartEnd(ls);
    StartEnd(rs);
  }

  /** Everything behind the header. */
  method LoadRecords(r: Reader, data: array<Byte>, length: nat, ghost rs: seq<seq<Byte>>)
    requires r.Valid() && data != r.buffer && AllStorable(rs) && forall k :: 0 <= k < |rs| ==> |rs[k]| >= 4
    requires Ahead(r.file, r.pos, Flat(FileRecords(rs))) && length == BASE + |Flat(rs)| == data.Length
    modifies r, r.buffer, data
    ensures r.Valid() && r.pos == old(r.pos) + |Flat(rs)| && data[BASE..length] == Flat(LoadedRecords(rs, old(r.pos)))
  {
    hide Reader.Valid, Storable, AllStorable, FileRecord, Flat, Start, Ahead, Patched, LoadedAs;
    var curptr := BASE;
    ghost var k, o := 0, r.pos;
    ghost var ls := LoadedRecords(rs, o);
    LoadedParts(rs, o);
    NoneLoaded(ls, data);
    while curptr < length
      invariant k <= |rs| && curptr == BASE + Start(ls, k) <= length
      invariant r.Valid() && r.pos == o + Start(ls, k) && data[BASE..curptr] == Flat(ls[..k])
    {
      MoreRecords(ls, k);
      RecordAhead(r.file, o, rs, k);
      SameStarts(ls, rs, k);
      ghost var was := data[..];
      var size := LoadRecord(r, data, curptr, rs[k]);
      assert was[BASE..curptr] == Flat(ls[..k]);
      RecordAdded(was, data[..], BASE, curptr, Flat(ls[..k]), ls[k]);
      StartNext(ls, k);
      curptr, k := curptr + size, k + 1;
    }
    AtPartEnd(ls, k);
    StartEnd(ls);
    assert ls[..k] == ls;
  }

  lemma NoneLoaded(rs: seq<seq<Byte>>, data: array<Byte>)
    requires data.Length >= BASE
    ensures Start(rs, 0) == 0 && data[BASE..BASE] == Flat(rs[..0])
  {
    assert rs[..0] == [];
  }

  lemma MoreRecords(rs: seq<seq<Byte>>, k: nat)
    requires k <= |rs| && Start(rs, k) < |Flat(rs)|
    ensures k < |rs|
  {
    StartEnd(rs);
  }

  /**
   prf_vertex_palette_load_f: a palette without pools and the length of its node, or nothing when another
   kind of node is ahead.
   */
  method LoadPalette(r: Reader, ghost length: nat, ghost rs: seq<seq<Byte>>)
    returns (store: Option<Store>, nodelength: nat)
    requires r.Valid() && r.pos + 2 <= |r.file| && Sizable(rs) && U16Be.Holds(length)
    requires Decode(U16Be, Window(r.file, r.pos, 2)) == VERTEX_PALETTE ==>
             Ahead(r.file, r.pos, PaletteBytes(length, rs))
    modifies r, r.buffer
    ensures r.Valid() && (store.Some? <==> Decode(U16Be, Window(r.file, old(r.pos), 2)) == VERTEX_PALETTE)
    ensures store.Some? ==>
      && fresh(store.value) && fresh(store.value.data) && store.value.Valid() && store.value.extras == None
      && store.value.Records() == LoadedRecords(rs, old(r.pos) + 8) && nodelength == length
      && r.pos == old(r.pos) + |PaletteBytes(length, rs)|
    ensures store.None? ==> r.pos == old(r.pos)
  {
    hide Reader.Valid, Storable, FileRecord, Flat, Ahead, Decode, Encode, IsRecord, Store.Valid, AllParts,
         PaletteBytes, LoadedRecords, AllStorable, AllRecords, Wrap;
    ghost var o := r.pos;
    nodelength := 0;
    var opcode := r.GetWord(U16Be);
    if opcode != VERTEX_PALETTE {
      var moved := r.Rewind(2);
      return None, 0;
    }
    PaletteHeader(r.file, o, length, rs);
    var signed := r.GetWord(S16Be);
    nodelength := Wrap(W16, signed);
    var total := r.GetWord(S32Be);
    var data := new Byte[total];
    LoadRecords(r, data, total, rs);
    PaletteLength(length, rs);
    LoadedParts(rs, o + 8);
    var palette := new Store(data, total, LoadedRecords(rs, o + 8));
    store := Some(palette);
  }

  lemma PaletteLength(nodelength: nat, rs: seq<seq<Byte>>)
    requires AllStorable(rs) && forall k :: 0 <= k < |rs| ==> |rs[k]| >= 4
    ensures |PaletteBytes(nodelength, rs)| == 8 + |Flat(rs)|
  {
    hide Storable, FileRecord, Flat, Encode;
    FileStart(rs, |rs|);
    StartEnd(rs);
    StartEnd(FileRecords(rs));
  }

  /** The same offsets mean the same records. */
  ghost predicate SameMeaning(a: Store, b: Store)
    reads a, b
  {
    && a.Total() == b.Total()
    && forall offset :: offset >= BASE ==>
       a.At(offset) == b.At(offset) && (a.CanLookUp(offset) <==> b.CanLookUp(offset))
  }

  /**
   No record is mistaken: a vertex record at the last byte of a block reads the same in both byte orders.
   */
  ghost predicate AllUnmistaken(rs: seq<seq<Byte>>, at: nat)
    requires forall k :: 0 <= k < |rs| ==> |rs[k]| >= 4
  {
    forall k :: 0 <= k < |rs| ==> Unmistaken(rs[k], at + Start(rs, k))
  }

  ghost predicate Unmistaken(r: seq<Byte>, at: nat)
    requires |r| >= 4
  {
    IsVertexKind(OpcodeIn(r)) && at % BLOCK == BLOCK - 1 ==>
      Roomy(OpcodeIn(r), |r| - 4) && ToFile(OpcodeIn(r), r[4..]) == r[4..]
  }

  /** Records come through a file as they were exactly when no record is mistaken. */
  lemma LoadedRight(rs: seq<seq<Byte>>, at: nat)
    requires AllStorable(rs) && forall k :: 0 <= k < |rs| ==> |rs[k]| >= 4
    ensures LoadedRecords(rs, at) == rs <==> AllUnmistaken(rs, at)
  {
    hide Start, ToFile, Decode, Storable, AllStorable;
    var ls := LoadedRecords(rs, at);
    forall k | 0 <= k < |rs|
      ensures ls[k] == rs[k] <==> Unmistaken(rs[k], at + Start(rs, k))
    {
      StorableIn(rs, k);
      LoadedSame(rs[k], at + Start(rs, k));
    }
    if AllUnmistaken(rs, at) {
      assert forall k :: 0 <= k < |rs| ==> ls[k] == rs[k];
      assert ls == rs;
    } else {
      var k :| 0 <= k < |rs| && !Unmistaken(rs[k], at + Start(rs, k));
      assert ls[k] != rs[k];
    }
  }

  lemma StorableIn(rs: seq<seq<Byte>>, k: nat)
    requires AllStorable(rs) && k < |rs|
    ensures Storable(rs[k])
  {
  }

  lemma LoadedSame(r: seq<Byte>, at: nat)
    requires Storable(r) && |r| >= 4
    ensures LoadedAs(r, at) == r <==> Unmistaken(r, at)
  {
    hide ToFile, Decode;
    var t := if IsVertexKind(OpcodeIn(r)) then ToFile(OpcodeIn(r), r[4..]) else r[4..];
    assert r == r[..4] + r[4..];
    assert (r[..4] + t)[4..] == t;
  }

  /** What was loaded can be saved again, and has its records at the same offsets. */
  lemma LoadedSizable(rs: seq<seq<Byte>>, at: nat)
    requires Sizable(rs)
    ensures Sizable(LoadedRecords(rs, at)) && |Flat(LoadedRecords(rs, at))| == |Flat(rs)|
  {
    hide Start, Flat, Decode, Least;
    var ls := LoadedRecords(rs, at);
    LoadedParts(rs, at);
    forall k | 0 <= k < |rs|
      ensures Storable(ls[k])
    {
      StorableIn(rs, k);
      assert IsRecord(ls[k]) && ls[k][..2] == rs[k][..2];
    }
  }

  /** Saving what was loaded writes the same palette exactly when no record is mistaken. */
  lemma SavedRight(rs: seq<seq<Byte>>, at: nat)
    requires Sizable(rs)
    ensures Sizable(LoadedRecords(rs, at))
    ensures PaletteData(LoadedRecords(rs, at)) == PaletteData(rs) <==> AllUnmistaken(rs, at)
  {
    hide AllStorable, FileRecords, LoadedRecords, Encode, Flat, Start, Unmistaken;
    var ls := LoadedRecords(rs, at);
    LoadedSizable(rs, at);
    LoadedRight(rs, at);
    if PaletteData(ls) == PaletteData(rs) {
      SameTail(Encode(S32Be, BASE + |Flat(rs)|), Flat(FileRecords(ls)), Flat(FileRecords(rs)));
      forall k | 0 <= k < |rs|
        ensures Unmistaken(rs[k], at + Start(rs, k))
      {
        SavedSameAt(rs, at, k);
      }
    }
  }

  lemma SavedSameAt(rs: seq<seq<Byte>>, at: nat, k: nat)
    requires Sizable(rs) && k < |rs| && Flat(FileRecords(LoadedRecords(rs, at))) == Flat(FileRecords(rs))
    ensures Unmistaken(rs[k], at + Start(rs, k))
  {
    hide Storable, AllStorable, FileRecord, LoadedAs, Flat, Start, Unmistaken;
    SameRecord(FileRecords(LoadedRecords(rs, at)), FileRecords(rs), k);
    StorableIn(rs, k);
    SavedSame(rs[k], at + Start(rs, k));
  }

  lemma SameTail(a: seq<Byte>, b: seq<Byte>, c: seq<Byte>)
    requires a + b == a + c
    ensures b == c
  {
    assert b == (a + b)[|a|..] && c == (a + c)[|a|..];
  }

  /** Runs of records of the same lengths with the same bytes have the same records. */
  lemma SameRecord(rs: seq<seq<Byte>>, ts: seq<seq<Byte>>, k: nat)
    requires Flat(rs) == Flat(ts) && |rs| == |ts| && k < |rs| && forall j :: 0 <= j < |rs| ==> |rs[j]| == |ts[j]|
    ensures rs[k] == ts[k]
  {
    hide Flat, Start;
    SameStarts(rs, ts, k);
    FlatSlice(rs, k);
    FlatSlice(ts, k);
  }

  lemma SavedSame(r: seq<Byte>, at: nat)
    requires Storable(r) && |r| >= 4 && FileRecord(LoadedAs(r, at)) == FileRecord(r)
    ensures Unmistaken(r, at)
  {
    hide ToFile, FromFile, Decode, Encode;
    var opcode := OpcodeIn(r);
    if IsVertexKind(opcode) && at % BLOCK == BLOCK - 1 {
      RecordParts(r);
      var m := r[4..];
      var l := LoadedAs(r, at);
      assert l[..2] == r[..2] && l[4..] == ToFile(opcode, m);
      var header := Encode(U16Be, opcode) + Encode(U16Be, |r|);
      SameTail(header, ToFile(opcode, ToFile(opcode, m)), ToFile(opcode, m));
      FromToFile(opcode, m);
      FromToFile(opcode, ToFile(opcode, m));
    }
  }

  /** Records of even length are all right. */
  lemma EvenUnmistaken(rs: seq<seq<Byte>>, at: nat)
    requires AllStorable(rs) && at % 2 == 0 && forall k :: 0 <= k < |rs| ==> |rs[k]| >= 4 && |rs[k]| % 2 == 0
    ensures AllUnmistaken(rs, at)
  {
    hide Start, ToFile, Decode, AllStorable;
    forall k | 0 <= k < |rs|
      ensures Unmistaken(rs[k], at + Start(rs, k))
    {
      EvenStart(rs, k);
    }
  }

  lemma {:induction false} EvenStart(rs: seq<seq<Byte>>, k: nat)
    requires k <= |rs| && forall j :: 0 <= j < |rs| ==> |rs[j]| % 2 == 0
    ensures Start(rs, k) % 2 == 0
  {
    hide Start;
    if k == 0 {
      StartZero(rs);
    } else {
      EvenStart(rs, k - 1);
      StartNext(rs, k - 1);
    }
  }

  /**
   A record of a kind without functions and of odd length, which puts the next one at the last byte of the
   first block.
   */
  const OddRecord: seq<Byte> := Encode(U16Le, 6) + Encode(U16Le, 4083) + Zeros(4079)

  const OddVertex := Cleared.(x := [1, 0, 0, 0, 0, 0, 0, 0])

  /** Of these two records the second is mistaken when the palette comes behind a header record of four bytes. */
  lemma Mistaken()
    ensures var rs := [OddRecord, RecordOf(OddVertex)];
      && AllStorable(rs) && (forall k :: 0 <= k < |rs| ==> |rs[k]| >= 4)
      && !AllUnmistaken(rs, 12) && LoadedRecords(rs, 12) != rs
  {
    hide Decode, Encode, Start, AllUnmistaken, LoadedRecords, AllStorable;
    var v, rs := OddVertex, [OddRecord, RecordOf(OddVertex)];
    OddStorable();
    StructLength(v);
    assert AllStorable(rs) by {
      TwoStorable(rs);
    }
    StartNext(rs, 0);
    StartZero(rs);
    assert Start(rs, 1) == 4083;
    OddFields();
    SomeMistaken(rs, 12, 1);
    LoadedRight(rs, 12);
  }

  lemma OddStorable()
    ensures Storable(OddRecord) && |OddRecord| == 4083
    ensures Storable(RecordOf(OddVertex)) && |RecordOf(OddVertex)| >= 32 && OpcodeIn(RecordOf(OddVertex)) == 68
  {
    hide Decode, Encode, StructOf;
    DecodeEncode(U16Le, 6);
    DecodeEncode(U16Le, 4083);
    assert OddRecord[..2] == Encode(U16Le, 6) && OddRecord[2..4] == Encode(U16Le, 4083);
    RecordIsRecord(OddVertex);
    StructLength(OddVertex);
  }

  lemma TwoStorable(rs: seq<seq<Byte>>)
    requires |rs| == 2 && Storable(rs[0]) && Storable(rs[1])
    ensures AllStorable(rs)
  {
  }

  lemma SomeMistaken(rs: seq<seq<Byte>>, at: nat, k: nat)
    requires k < |rs| && (forall j :: 0 <= j < |rs| ==> |rs[j]| >= 4) && !Unmistaken(rs[k], at + Start(rs, k))
    ensures !AllUnmistaken(rs, at)
  {
  }

  /** The vertex does not read the same in both byte orders. */
  lemma OddFields()
    ensures var r := RecordOf(OddVertex); |r| >= 32 && ToFile(68, r[4..]) != r[4..]
  {
    hide Swapped, Quads, Encode, Decode;
    StructLength(OddVertex);
    RecordIsRecord(OddVertex);
    StructFields(OddVertex);
    var m := StructOf(OddVertex);
    assert m[..8][0] == 1 && m[24..26][1] == 0;
    assert ToFile(68, m)[0] == Reverse(m[24..26])[0];
  }

  /**
   Saved and loaded again, a palette has no pools any more; what was in them is in the palette, and if no
   record was mistaken on the way an offset gives the vertex it gave before.
   */
  method SaveThenLoad(store: Store, nodelength: nat, offset: nat)
    returns (copy: Store, before: Option<Vertex>, after: Option<Vertex>)
    requires store.Valid() && Sizable(store.Records()) && U16Be.Holds(nodelength)
    requires offset >= store.Total() || store.CanLookUp(offset)
    requires AllUnmistaken(store.Records(), 8)
    ensures copy.Valid() && fresh(copy) && copy.extras == None && copy.Records() == store.Records()
    ensures SameMeaning(store, copy) && before == after
  {
    hide Storable, FileRecord, Flat, Decode, IsRecord, Store.Valid, AllParts, RecordAt, IsStart, Reader.Valid,
         Store.Distinct, VertexIn, PaletteBytes;
    ghost var rs := store.Records();
    before := store.Lookup(offset);
    var file := PaletteToFile(store, nodelength);
    var r := new Reader(file);
    WholeFile(r.file, nodelength, rs);
    var loaded, length := LoadPalette(r, nodelength, rs);
    LoadedRight(rs, 8);
    copy := loaded.value;
    after := copy.Lookup(offset);
  }

  /** A file with nothing but the palette. */
  method PaletteToFile(store: Store, nodelength: nat) returns (file: seq<Byte>)
    requires store.Valid() && Sizable(store.Records()) && U16Be.Holds(nodelength)
    ensures store.Valid() && store.Records() == old(store.Records()) &&
            file == PaletteBytes(nodelength, store.Records())
  {
    hide Storable, FileRecord, Flat, IsRecord, AllParts, Writer.Contents, Store.PoolHolds, PaletteBytes;
    var w := new Writer();
    SavePalette(store, nodelength, w);
    w.Destroy();
    file := w.disk;
    assert [] + file == file;
  }

  lemma WholeFile(file: seq<Byte>, nodelength: nat, rs: seq<seq<Byte>>)
    requires Sizable(rs) && U16Be.Holds(nodelength) && file == PaletteBytes(nodelength, rs)
    ensures |file| >= 8 && Ahead(file, 0, PaletteBytes(nodelength, rs)) &&
            Decode(U16Be, Window(file, 0, 2)) == VERTEX_PALETTE
  {
    hide PaletteBytes, Storable, Decode, Flat;
    PaletteLength(nodelength, rs);
    assert file[0..|file|] == PaletteBytes(nodelength, rs);
    PaletteHeader(file, 0, nodelength, rs);
  }

  /* Cloning. */

  /** memcpy. */
  method CopyBytes(from: array<Byte>, x: nat, n: nat, into: array<Byte>, at: nat)
    requires from != into && x + n <= from.Length && at + n <= into.Length
    modifies into
    ensures Patched(old(into[..]), into[..], at, from[x..x + n])
  {
    forall i | 0 <= i < n {
      into[at + i] := from[x + i];
    }
  }

  /** The records of the palette, and then those of all pools, from `BASE` on. */
  method CopyParts(store: Store, data: array<Byte>)
    requires store.Valid() && data != store.data && data.Length == store.Total()
    requires forall p :: p in store.Pools() ==> p.data != data
    modifies data
    ensures store.Valid() && data[BASE..] == Flat(store.Records())
  {
    hide Flat, IsRecord, Patched, AllParts, Store.Distinct;
    ghost var parts, blank := store.parts, data[..];
    var at := store.length;
    PartFits(parts, 0);
    CopyBytes(store.data, BASE, store.length - BASE, data, BASE);
    CopiedFirst(parts, blank, data[..], store.data[BASE..store.length]);
    var i := 0;
    while i < |store.Pools()|
      invariant i <= |store.Pools()| && store.Valid()
      invariant at == BASE + |Flat(AllParts(parts[..i + 1]))| <= data.Length &&
                data[BASE..at] == Flat(AllParts(parts[..i + 1]))
    {
      PartFits(parts, i + 1);
      assert store.PoolHolds(i);
      CopyPool(store.Pools()[i], parts[i + 1], data, at);
      at, i := at + store.Pools()[i].position, i + 1;
    }
    assert parts[..i + 1] == parts;
  }

  method CopyPool(pool: Pool, ghost part: seq<seq<Byte>>, data: array<Byte>, at: nat)
    requires pool.position <= pool.data.Length && pool.Bytes() == Flat(part)
    requires pool.data != data && BASE <= at && at + pool.position <= data.Length
    modifies data
    ensures data[BASE..at + pool.position] == old(data[BASE..at]) + Flat(part)
  {
    hide Flat, Patched;
    ghost var was := data[..];
    CopyBytes(pool.data, 0, pool.position, data, at);
    RecordAdded(was, data[..], BASE, at, was[BASE..at], Flat(part));
  }

  /** prf_vertex_palette_clone_f: the records of the palette and of the pools in one new palette. */
  method ClonePalette(store: Store) returns (clone: Store)
    requires store.Valid()
    ensures store.Valid() && clone.Valid() && fresh(clone) && fresh(clone.data)
    ensures clone.extras == None && clone.length == clone.data.Length && clone.Records() == store.Records()
    ensures SameMeaning(store, clone)
  {
    hide Flat, IsRecord, AllParts, RecordAt, IsStart, Decode, Store.Distinct, Store.PoolHolds;
    var length := store.SumPositions();
    var data := new Byte[length];
    CopyParts(store, data);
    assert data[BASE..length] == data[BASE..];
    clone := new Store(data, length, store.Records());
  }

  lemma PartFits(parts: seq<seq<seq<Byte>>>, i: nat)
    requires i < |parts|
    ensures Flat(AllParts(parts[..i + 1])) == Flat(AllParts(parts[..i])) + Flat(parts[i])
    ensures |Flat(AllParts(parts[..i + 1]))| <= |Flat(AllParts(parts))|
    ensures i == 0 ==> Flat(AllParts(parts[..1])) == Flat(parts[0])
  {
    hide Flat, AllParts;
    PartsNext(parts, i);
    FlatSum(AllParts(parts[..i]), parts[i]);
    assert parts == parts[..i + 1] + parts[i + 1..];
    PartsSum(parts[..i + 1], parts[i + 1..]);
    FlatSum(AllParts(parts[..i + 1]), AllParts(parts[i + 1..]));
    if i == 0 {
      assert parts[..1] == [parts[0]];
      OnePart(parts[0]);
    }
  }

  lemma CopiedFirst(parts: seq<seq<seq<Byte>>>, blank: seq<Byte>, data: seq<Byte>, flat: seq<Byte>)
    requires parts != [] && flat == Flat(parts[0]) && Patched(blank, data, BASE, flat)
    ensures BASE + |flat| <= |data| && data[BASE..BASE + |flat|] == Flat(AllParts(parts[..1]))
  {
    hide Flat, AllParts;
    PartFits(parts, 0);
  }
}
