/**
 What the bytes of vertex records in a file mean: each number of a record, read in the byte order of the
 file, is the number of the vertex that a lookup in the loaded palette gives.
 */
module VertexFile {
  import opened Bytes
  import opened BFile
  import opened Codecs
  import opened Wrappers
  import opened Vertices
  import opened VertexCodec
  import opened Palette
  import opened PaletteFile

  /* Word by word. */

  lemma {:induction false} SwappedWord(s: seq<Byte>, q: nat, j: nat)
    requires 4 * q <= |s| && 4 * j + 4 <= |s|
    ensures Swapped(s, q)[4 * j..4 * j + 4] == if j < q then Reverse(s[4 * j..4 * j + 4]) else s[4 * j..4 * j + 4]
  {
    hide Reverse, Swapped;
    if q == 0 {
      SwappedNone(s);
    } else {
      SwappedSome(s, q);
      var a, b, c := Swapped(s[..4 * q - 4], q - 1), Reverse(s[4 * q - 4..4 * q]), s[4 * q..];
      ThreeParts(a, b, c, s, q, j);
      if j < q - 1 {
        SwappedWord(s[..4 * q - 4], q - 1, j);
        assert s[..4 * q - 4][4 * j..4 * j + 4] == s[4 * j..4 * j + 4];
      }
    }
  }

  lemma ThreeParts(a: seq<Byte>, b: seq<Byte>, c: seq<Byte>, s: seq<Byte>, q: nat, j: nat)
    requires 0 < 4 * q <= |s| && 4 * j + 4 <= |s| && |a| == 4 * q - 4 && |b| == 4 && c == s[4 * q..]
    ensures (a + b + c)[4 * j..4 * j + 4] ==
            if j < q - 1 then a[4 * j..4 * j + 4] else if j == q - 1 then b else s[4 * j..4 * j + 4]
  {
  }

  /** Four-byte field `j` of a record in a file, zero if the record is too short to have it. */
  function FileQuad(p: seq<Byte>, j: nat): (q: seq<Byte>)
    ensures |q| == 4
  {
    if 32 + 4 * j <= |p| then Reverse(p[28 + 4 * j..32 + 4 * j]) else Zeros(4)
  }

  /** The vertex that the payload of a record in a file means, whatever its length. */
  function Meant(opcode: nat, p: seq<Byte>): Vertex
    requires 68 <= opcode <= 71 && |p| >= 28
  {
    var v := Cleared.(colorNameIndex := Reverse(p[..2]), flags := Reverse(p[2..4]),
                      x := Reverse(p[4..12]), y := Reverse(p[12..20]), z := Reverse(p[20..28]));
    var normal, texture := opcode == 69 || opcode == 70, opcode == 70 || opcode == 71;
    var after := if normal then 3 else 0;
    var colors := after + if texture then 2 else 0;
    v.(normal := if normal then FileQuad(p, 0) + FileQuad(p, 1) + FileQuad(p, 2) else Zeros(12),
       hasNormal := normal && |p| >= 28 + 12,
       texture := if texture then FileQuad(p, after) + FileQuad(p, after + 1) else Zeros(8),
       hasTexture := texture && |p| >= 28 + 4 * after + 8,
       packedColor := FileQuad(p, colors), colorIndex := FileQuad(p, colors + 1))
  }

  lemma LoadedQuad(opcode: nat, p: seq<Byte>, j: nat)
    requires 68 <= opcode <= 71 && |p| >= 28
    requires j < if opcode == 68 then 2 else if opcode == 69 then 5 else if opcode == 70 then 7 else 4
    ensures Quad(FromNew(opcode, p), j) == FileQuad(p, j)
  {
    hide Reverse, Swapped, FromNew;
    LoadedTail(opcode, p);
    if 32 + 4 * j <= |p| {
      var s, q := p[28..], Quads(opcode, |p|);
      SwappedWord(s, q, j);
      var m := FromNew(opcode, p);
      assert m[28 + 4 * j..32 + 4 * j] == m[28..][4 * j..4 * j + 4];
      assert p[28 + 4 * j..32 + 4 * j] == s[4 * j..4 * j + 4];
    }
  }

  lemma LoadedTail(opcode: nat, p: seq<Byte>)
    requires |p| >= 28
    ensures var m := FromNew(opcode, p);
      && m[..8] == Reverse(p[4..12]) && m[8..16] == Reverse(p[12..20]) && m[16..24] == Reverse(p[20..28])
      && m[24..26] == Reverse(p[..2]) && m[26..28] == Reverse(p[2..4])
      && m[28..] == Swapped(p[28..], Quads(opcode, |p|))
  {
    hide Reverse, Swapped, Quads;
    Six(Reverse(p[4..12]), Reverse(p[12..20]), Reverse(p[20..28]), Reverse(p[..2]), Reverse(p[2..4]),
        Swapped(p[28..], Quads(opcode, |p|)));
  }

  /** A record of any length is loaded as what its bytes mean. */
  lemma LoadedMeaning(opcode: nat, p: seq<Byte>)
    requires 68 <= opcode <= 71 && |p| >= 28
    ensures Fill(opcode, FromFile(opcode, p)) == Some(Meant(opcode, p))
  {
    hide Reverse, FromNew, Quad, FileQuad;
    LoadedTail(opcode, p);
    LoadedQuad(opcode, p, 0);
    LoadedQuad(opcode, p, 1);
    if opcode != 68 {
      LoadedQuad(opcode, p, 2);
      LoadedQuad(opcode, p, 3);
    }
    if opcode == 69 || opcode == 70 {
      LoadedQuad(opcode, p, 4);
    }
    if opcode == 70 {
      LoadedQuad(opcode, p, 5);
      LoadedQuad(opcode, p, 6);
    }
  }

  /** The integers of an old record are the coordinates of its vertex. */
  lemma OldMeaning(opcode: nat, x: nat, y: nat, z: nat, tail: seq<Byte>)
    requires 8 <= opcode <= 9 && x < 0x1_0000_0000 && y < 0x1_0000_0000 && z < 0x1_0000_0000
    ensures var p := Encode(U32Be, x) + Encode(U32Be, y) + Encode(U32Be, z) + tail;
      Fill(opcode, FromFile(opcode, p)) ==
      Some(Vertex(Double(x), Double(y), Double(z), [0, 0], [0, 0], Zeros(12), Zeros(8), [0, 0, 0, 0], [0, 0, 0, 0],
                  false, false))
  {
    hide Reverse, Swapped, Double, Decode, Digits;
    var p := Encode(U32Be, x) + Encode(U32Be, y) + Encode(U32Be, z) + tail;
    var m := FromFile(opcode, p);
    SwappedWord(p, 3, 0);
    SwappedWord(p, 3, 1);
    SwappedWord(p, 3, 2);
    assert p[0..4] == Encode(U32Be, x) && p[4..8] == Encode(U32Be, y) && p[8..12] == Encode(U32Be, z);
    Turning(x);
    Turning(y);
    Turning(z);
    assert m[0..4] == Encode(U32Le, x) && m[4..8] == Encode(U32Le, y) && m[8..12] == Encode(U32Le, z);
    DecodeEncode(U32Le, x);
    DecodeEncode(U32Le, y);
    DecodeEncode(U32Le, z);
    assert Zeros(2) == [0, 0] && Zeros(4) == [0, 0, 0, 0];
  }

  lemma Turning(v: nat)
    requires v < 0x1_0000_0000
    ensures Reverse(Encode(U32Be, v)) == Encode(U32Le, v)
  {
    hide Digits, Reverse;
    ReverseTwice(Digits(4, v));
  }

  /* Whole vertices. */

  /** A vertex as it is written to a file. */
  function PayloadOf(v: Vertex): seq<Byte>
    requires v.Proper()
  {
    Reverse(v.colorNameIndex) + Reverse(v.flags) + Reverse(v.x) + Reverse(v.y) + Reverse(v.z)
    + (if v.hasNormal
       then Reverse(v.normal[..4]) + Reverse(v.normal[4..8]) + Reverse(v.normal[8..]) else [])
    + (if v.hasTexture then Reverse(v.texture[..4]) + Reverse(v.texture[4..]) else [])
    + Reverse(v.packedColor) + Reverse(v.colorIndex)
  }

  function RecordInFile(v: Vertex): seq<Byte>
    requires v.Proper()
  {
    var opcode := if v.hasNormal && v.hasTexture then 70
                  else if v.hasNormal then 69 else if v.hasTexture then 71 else 68;
    Encode(U16Be, opcode) + Encode(U16Be, 4 + |PayloadOf(v)|) + PayloadOf(v)
  }

  function WordsInMemory(v: Vertex): seq<Byte>
    requires v.Proper()
  {
    (if v.hasNormal then v.normal else []) + (if v.hasTexture then v.texture else []) + v.packedColor + v.colorIndex
  }

  function WordsInFile(v: Vertex): seq<Byte>
    requires v.Proper()
  {
    (if v.hasNormal then Reverse(v.normal[..4]) + Reverse(v.normal[4..8]) + Reverse(v.normal[8..]) else [])
    + (if v.hasTexture then Reverse(v.texture[..4]) + Reverse(v.texture[4..]) else [])
    + Reverse(v.packedColor) + Reverse(v.colorIndex)
  }

  /** Words of four bytes, one after the other, and each of them turned around. */
  function Joined(ws: seq<seq<Byte>>): seq<Byte> {
    if ws == [] then [] else Joined(ws[..|ws| - 1]) + ws[|ws| - 1]
  }

  function EachTurned(ws: seq<seq<Byte>>): (ts: seq<seq<Byte>>)
    ensures |ts| == |ws| && forall j :: 0 <= j < |ws| ==> ts[j] == Reverse(ws[j])
  {
    seq(|ws|, j requires 0 <= j < |ws| => Reverse(ws[j]))
  }

  ghost predicate AllWords(ws: seq<seq<Byte>>) {
    forall j :: 0 <= j < |ws| ==> |ws[j]| == 4
  }

  lemma {:induction false} SwappedJoined(ws: seq<seq<Byte>>)
    requires AllWords(ws)
    ensures |Joined(ws)| == 4 * |ws| && Swapped(Joined(ws), |ws|) == Joined(EachTurned(ws))
  {
    hide Reverse, Swapped;
    var n := |ws|;
    if n == 0 {
      SwappedNone([]);
    } else {
      var front, last := ws[..n - 1], ws[n - 1];
      SwappedJoined(front);
      var s := Joined(front) + last;
      assert Joined(ws) == s;
      SwappedSome(s, n);
      assert s[..4 * n - 4] == Joined(front) && s[4 * n - 4..4 * n] == last && s[4 * n..] == [];
      assert EachTurned(ws)[..n - 1] == EachTurned(front);
      var t := Joined(EachTurned(front)) + Reverse(last);
      assert t + [] == t;
    }
  }

  lemma {:induction false} JoinedSum(a: seq<seq<Byte>>, b: seq<seq<Byte>>)
    ensures Joined(a + b) == Joined(a) + Joined(b)
  {
    if b == [] {
      assert a + b == a && Joined(a) + [] == Joined(a);
    } else {
      var n := |b| - 1;
      JoinedSum(a, b[..n]);
      assert (a + b)[..|a + b| - 1] == a + b[..n];
      AppendTwice(Joined(a), Joined(b[..n]), b[n]);
    }
  }

  lemma JoinedTwo(a: seq<Byte>, b: seq<Byte>)
    ensures Joined([a, b]) == a + b
  {
    assert [a, b][..1] == [a] && [a][..0] == [];
    assert Joined([a]) == [] + a == a;
  }

  lemma JoinedThree(a: seq<Byte>, b: seq<Byte>, c: seq<Byte>)
    ensures Joined([a, b, c]) == a + b + c
  {
    assert [a, b, c][..2] == [a, b];
    JoinedTwo(a, b);
  }

  function NormalWords(v: Vertex): seq<seq<Byte>>
    requires v.Proper()
  {
    if v.hasNormal then [v.normal[..4], v.normal[4..8], v.normal[8..]] else []
  }

  function TextureWords(v: Vertex): seq<seq<Byte>>
    requires v.Proper()
  {
    if v.hasTexture then [v.texture[..4], v.texture[4..]] else []
  }

  /** The words of a vertex in memory, and in a file, where they are turned around. */
  lemma WordsSwapped(v: Vertex)
    requires v.Proper()
    ensures var m := WordsInMemory(v);
      && |m| == 4 * FieldCount(OpcodeOf(v)) && Swapped(m, FieldCount(OpcodeOf(v))) == WordsInFile(v)
  {
    hide Reverse, Swapped, Joined;
    var ns, ts, cs := NormalWords(v), TextureWords(v), [v.packedColor, v.colorIndex];
    var ws := ns + ts + cs;
    WordsJoined(v);
    SwappedJoined(ws);
    assert EachTurned(ws) == EachTurned(ns) + EachTurned(ts) + EachTurned(cs);
    FileJoined(v);
  }

  lemma WordsJoined(v: Vertex)
    requires v.Proper()
    ensures WordsInMemory(v) == Joined(NormalWords(v) + TextureWords(v) + [v.packedColor, v.colorIndex])
  {
    hide Joined;
    var ns, ts, cs := NormalWords(v), TextureWords(v), [v.packedColor, v.colorIndex];
    JoinedSum(ns + ts, cs);
    JoinedSum(ns, ts);
    JoinedTwo(v.packedColor, v.colorIndex);
    JoinedThree(v.normal[..4], v.normal[4..8], v.normal[8..]);
    JoinedTwo(v.texture[..4], v.texture[4..]);
    JoinedNone();
    assert v.normal == v.normal[..4] + v.normal[4..8] + v.normal[8..] && v.texture == v.texture[..4] + v.texture[4..];
    AppendTwice(Joined(ns) + Joined(ts), v.packedColor, v.colorIndex);
  }

  lemma JoinedNone()
    ensures Joined([]) == []
  {
  }

  lemma FileJoined(v: Vertex)
    requires v.Proper()
    ensures WordsInFile(v) ==
            Joined(EachTurned(NormalWords(v)) + EachTurned(TextureWords(v)) + EachTurned([v.packedColor, v.colorIndex]))
  {
    hide Joined, Reverse;
    var ns, ts := EachTurned(NormalWords(v)), EachTurned(TextureWords(v));
    var cs := EachTurned([v.packedColor, v.colorIndex]);
    JoinedSum(ns + ts, cs);
    JoinedSum(ns, ts);
    assert cs == [Reverse(v.packedColor), Reverse(v.colorIndex)];
    assert v.hasNormal ==> ns == [Reverse(v.normal[..4]), Reverse(v.normal[4..8]), Reverse(v.normal[8..])];
    assert v.hasTexture ==> ts == [Reverse(v.texture[..4]), Reverse(v.texture[4..])];
    JoinedTwo(Reverse(v.packedColor), Reverse(v.colorIndex));
    JoinedThree(Reverse(v.normal[..4]), Reverse(v.normal[4..8]), Reverse(v.normal[8..]));
    JoinedTwo(Reverse(v.texture[..4]), Reverse(v.texture[4..]));
    JoinedNone();
    AppendTwice(Joined(ns) + Joined(ts), Reverse(v.packedColor), Reverse(v.colorIndex));
  }

  /** A vertex in a file has its opcode and length, and is loaded as its struct. */
  lemma VertexLoaded(v: Vertex)
    requires v.Proper()
    ensures |PayloadOf(v)| == LengthOf(v) - 4 && FromFile(OpcodeOf(v), PayloadOf(v)) == StructOf(v)
    ensures FileRecord(RecordOf(v)) == RecordInFile(v) && |RecordInFile(v)| == |RecordOf(v)|
  {
    hide Decode, Encode, StructOf, PayloadOf, ToFile, FromFile, RecordOf;
    StructLength(v);
    RecordIsRecord(v);
    StructSaved(v);
    FromToFile(OpcodeOf(v), StructOf(v));
  }

  lemma StructSaved(v: Vertex)
    requires v.Proper()
    ensures |StructOf(v)| == LengthOf(v) - 4 >= 28 && ToFile(OpcodeOf(v), StructOf(v)) == PayloadOf(v)
  {
    hide Reverse, Swapped, Words, StructOf, WordsInMemory, WordsInFile, PayloadOf;
    StructLength(v);
    StructFields(v);
    StructParts(v);
    WordsSwapped(v);
    AllRoom(FieldCount(OpcodeOf(v)));
  }

  lemma AllRoom(count: nat)
    ensures Words(count, 4 * count) == count
  {
  }

  lemma StructParts(v: Vertex)
    requires v.Proper()
    ensures |StructOf(v)| == 28 + |WordsInMemory(v)| && StructOf(v)[28..] == WordsInMemory(v)
    ensures PayloadOf(v) ==
            Reverse(v.colorNameIndex) + Reverse(v.flags) + Reverse(v.x) + Reverse(v.y) + Reverse(v.z) + WordsInFile(v)
  {
    hide Reverse;
    StructFields(v);
  }

  function RecordsInFile(vs: seq<Vertex>): (rs: seq<seq<Byte>>)
    requires forall k :: 0 <= k < |vs| ==> vs[k].Proper()
    ensures |rs| == |vs| && forall k :: 0 <= k < |vs| ==> rs[k] == RecordInFile(vs[k])
  {
    seq(|vs|, k requires 0 <= k < |vs| => RecordInFile(vs[k]))
  }

  /** A palette in a file: 67, the length of its header, the length of it all, and the records. */
  function FileOf(vs: seq<Vertex>): seq<Byte>
    requires forall k :: 0 <= k < |vs| ==> vs[k].Proper()
  {
    Encode(U16Be, 67) + Encode(U16Be, 8) + Encode(S32Be, 8 + |Flat(RecordsInFile(vs))|) + Flat(RecordsInFile(vs))
  }

  function RecordsOf(vs: seq<Vertex>): (rs: seq<seq<Byte>>)
    requires forall k :: 0 <= k < |vs| ==> vs[k].Proper()
    ensures |rs| == |vs| && forall k :: 0 <= k < |vs| ==> rs[k] == RecordOf(vs[k]) && |rs[k]| >= 4
  {
    seq(|vs|, k requires 0 <= k < |vs| => RecordOf(vs[k]))
  }

  lemma VerticesStorable(vs: seq<Vertex>)
    requires forall k :: 0 <= k < |vs| ==> vs[k].Proper()
    ensures AllStorable(RecordsOf(vs)) && FileRecords(RecordsOf(vs)) == RecordsInFile(vs)
    ensures forall k :: 0 <= k < |vs| ==> |RecordsOf(vs)[k]| >= 4 && |RecordsOf(vs)[k]| % 2 == 0
    ensures |Flat(RecordsInFile(vs))| == |Flat(RecordsOf(vs))|
  {
    hide Encode, Decode, StructOf, RecordOf, RecordInFile, FileRecord, Flat, Start, Storable;
    var rs := RecordsOf(vs);
    forall k | 0 <= k < |vs|
      ensures Storable(rs[k]) && |rs[k]| >= 4 && |rs[k]| % 2 == 0 && FileRecord(rs[k]) == RecordInFile(vs[k])
    {
      OneStorable(vs[k]);
      VertexLoaded(vs[k]);
    }
    assert FileRecords(rs) == RecordsInFile(vs);
    FileStart(rs, |rs|);
    StartEnd(rs);
    StartEnd(FileRecords(rs));
  }

  lemma OneStorable(v: Vertex)
    requires v.Proper()
    ensures Storable(RecordOf(v)) && |RecordOf(v)| >= 4 && |RecordOf(v)| % 2 == 0
  {
    hide Encode, Decode, StructOf, RecordOf;
    StructLength(v);
    RecordIsRecord(v);
  }

  lemma FileIsPalette(vs: seq<Vertex>)
    requires forall j :: 0 <= j < |vs| ==> vs[j].Proper()
    ensures PaletteBytes(8, RecordsOf(vs)) == FileOf(vs) && (|FileOf(vs)| < 0x8000_0000 ==> Sizable(RecordsOf(vs)))
  {
    hide Encode, RecordOf, RecordInFile, FileRecord, Flat, Storable;
    VerticesStorable(vs);
    AppendTwice(Encode(U16Be, 67) + Encode(U16Be, 8), Encode(S32Be, 8 + |Flat(RecordsInFile(vs))|),
                Flat(RecordsInFile(vs)));
  }

  /** Where vertex `k` is in memory. */
  lemma VertexAt(store: Store, vs: seq<Vertex>, k: nat)
    requires k < |vs| && forall j :: 0 <= j < |vs| ==> vs[j].Proper()
    requires store.Valid() && store.Records() == RecordsOf(vs)
    ensures var offset := 8 + Start(RecordsInFile(vs), k);
      && offset < store.Total() && store.CanLookUp(offset) && VertexIn(store.At(offset)) == Some(vs[k].Stored())
  {
    hide Encode, Decode, StructOf, RecordOf, RecordInFile, FileRecord, Flat, Start, Storable, Store.Valid, IsRecord,
         Fill, RecordAt;
    var rs := RecordsOf(vs);
    VerticesStorable(vs);
    FileStart(rs, k);
    store.ValidRecords();
    FlatAt(rs, k);
    VertexInRecord(vs[k]);
    FlatSlice(rs, k);
    KindLookedUp(vs[k]);
  }

  lemma KindLookedUp(v: Vertex)
    requires v.Proper()
    ensures |RecordOf(v)| >= 32 && Fillable(Decode(U16Le, RecordOf(v)[..2]), |RecordOf(v)| - 4)
  {
    hide Decode, Encode, StructOf;
    VertexInRecord(v);
    StructLength(v);
  }

  /** The palette in a file of vertices. */
  method LoadVertices(vs: seq<Vertex>) returns (store: Store)
    requires (forall j :: 0 <= j < |vs| ==> vs[j].Proper()) && |FileOf(vs)| < 0x8000_0000
    ensures fresh(store) && store.Valid() && store.Records() == RecordsOf(vs)
  {
    hide Encode, Decode, RecordOf, RecordInFile, Flat, Start, Reader.Valid, FileOf, PaletteBytes, AllStorable, Sizable,
         LoadedRecords, Store.Valid, FileRecords, AllUnmistaken;
    ghost var rs := RecordsOf(vs);
    FileIsPalette(vs);
    var file := FileOf(vs);
    var r := new Reader(file);
    WholeFile(file, 8, rs);
    var loaded, nodelength := LoadPalette(r, 8, rs);
    AsTheyWere(vs);
    store := loaded.value;
  }

  lemma AsTheyWere(vs: seq<Vertex>)
    requires forall j :: 0 <= j < |vs| ==> vs[j].Proper()
    ensures (forall k :: 0 <= k < |vs| ==> |RecordsOf(vs)[k]| >= 4) && LoadedRecords(RecordsOf(vs), 8) == RecordsOf(vs)
  {
    hide RecordOf, RecordInFile, AllStorable, LoadedRecords, RecordsOf, FileRecords, Flat;
    VerticesStorable(vs);
    EvenLoaded(RecordsOf(vs));
  }

  lemma EvenLoaded(rs: seq<seq<Byte>>)
    requires AllStorable(rs) && forall k :: 0 <= k < |rs| ==> |rs[k]| >= 4 && |rs[k]| % 2 == 0
    ensures LoadedRecords(rs, 8) == rs
  {
    hide AllStorable, LoadedRecords, AllUnmistaken;
    EvenUnmistaken(rs, 8);
    LoadedRight(rs, 8);
  }

  /**
   A file of vertices, loaded: looked up at its offset, which is where its record is in the file behind the
   header of the palette, each vertex has exactly its numbers.
   */
  method LoadThenLookUp(vs: seq<Vertex>, k: nat, offset: nat) returns (vertex: Option<Vertex>)
    requires k < |vs| && forall j :: 0 <= j < |vs| ==> vs[j].Proper()
    requires |FileOf(vs)| < 0x8000_0000 && offset == 8 + Start(RecordsInFile(vs), k)
    ensures vertex == Some(vs[k].Stored())
  {
    hide RecordOf, RecordInFile, Flat, Start, FileOf, VertexIn, Store.Valid, Decode, RecordAt;
    var store := LoadVertices(vs);
    VertexAt(store, vs, k);
    vertex := store.Lookup(offset);
  }
}
