/**
 The vertices of a model: a palette of records, and a chain of pools of 32 KiB that take the vertices
 added later.  Byte offsets run through the palette and then through the pools.
 */
module Palette {
  import opened Bytes
  import opened Wrappers
  import opened Vertices

  const POOL_BLOCK_SIZE := 32 * 1024

  /** Records of the palette start after the length field and four bytes more. */
  const BASE := 8

  /* Records in memory. */

  ghost predicate IsRecord(r: seq<Byte>) {
    |r| >= 4 && Decode(U16Le, r[2..4]) == |r|
  }

  ghost predicate AllRecords(rs: seq<seq<Byte>>) {
    forall k :: 0 <= k < |rs| ==> IsRecord(rs[k])
  }

  /** Records one after the other. */
  function Flat(rs: seq<seq<Byte>>): seq<Byte> {
    if rs == [] then [] else Flat(rs[..|rs| - 1]) + rs[|rs| - 1]
  }

  /** The offset of record `k` from the start of the first one. */
  function Start(rs: seq<seq<Byte>>, k: nat): nat
    requires k <= |rs|
  {
    |Flat(rs[..k])|
  }

  ghost predicate IsStart(rs: seq<seq<Byte>>, o: int) {
    exists k :: 0 <= k < |rs| && o == Start(rs, k)
  }

  /** The record at an offset. */
  function RecordAt(bytes: seq<Byte>, o: nat): (r: seq<Byte>)
  {
    if o + 4 > |bytes| then []
    else
      var length := Decode(U16Le, bytes[o + 2..o + 4]);
      if 4 <= length <= |bytes| - o then bytes[o..o + length] else []
  }

  lemma {:induction false} FlatSum(a: seq<seq<Byte>>, b: seq<seq<Byte>>)
    ensures Flat(a + b) == Flat(a) + Flat(b)
  {
    hide Flat;
    if b == [] {
      assert a + b == a;
      FlatNone();
    } else {
      var c := a + b;
      FlatSum(a, b[..|b| - 1]);
      FlatLast(b);
      FlatLast(c);
      assert c[..|c| - 1] == a + b[..|b| - 1];
    }
  }

  lemma FlatNone()
    ensures Flat([]) == []
  {
  }

  lemma FlatLast(rs: seq<seq<Byte>>)
    requires rs != []
    ensures Flat(rs) == Flat(rs[..|rs| - 1]) + rs[|rs| - 1]
  {
  }

  lemma FlatOne(r: seq<Byte>)
    ensures Flat([r]) == r
  {
    assert [r][..0] == [];
  }

  lemma StartNext(rs: seq<seq<Byte>>, k: nat)
    requires k < |rs|
    ensures Start(rs, k + 1) == Start(rs, k) + |rs[k]|
    ensures Flat(rs[..k + 1]) == Flat(rs[..k]) + rs[k]
  {
    assert rs[..k + 1][..k] == rs[..k];
  }

  lemma {:induction false} StartGrows(rs: seq<seq<Byte>>, j: nat, k: nat)
    requires j <= k <= |rs| && AllRecords(rs)
    ensures Start(rs, j) + 4 * (k - j) <= Start(rs, k)
  {
    hide Start, Flat, Decode;
    if j < k {
      StartGrows(rs, j, k - 1);
      StartNext(rs, k - 1);
      assert IsRecord(rs[k - 1]);
    }
  }

  lemma StartEnd(rs: seq<seq<Byte>>)
    ensures Start(rs, |rs|) == |Flat(rs)|
  {
    assert rs[..|rs|] == rs;
  }

  lemma FlatSlice(rs: seq<seq<Byte>>, k: nat)
    requires k < |rs|
    ensures Start(rs, k) + |rs[k]| <= |Flat(rs)|
    ensures Flat(rs)[Start(rs, k)..Start(rs, k) + |rs[k]|] == rs[k]
    ensures |rs[k]| >= 4 ==> Flat(rs)[Start(rs, k) + 2..Start(rs, k) + 4] == rs[k][2..4]
  {
    hide Flat;
    assert rs == rs[..k + 1] + rs[k + 1..];
    FlatSum(rs[..k + 1], rs[k + 1..]);
    StartNext(rs, k);
    SliceMiddle(Flat(rs[..k]), rs[k], Flat(rs[k + 1..]));
  }

  /** Each record is found at its offset. */
  lemma FlatAt(rs: seq<seq<Byte>>, k: nat)
    requires k < |rs| && AllRecords(rs)
    ensures Start(rs, k) + |rs[k]| <= |Flat(rs)|
    ensures Flat(rs)[Start(rs, k)..Start(rs, k) + |rs[k]|] == rs[k]
    ensures RecordAt(Flat(rs), Start(rs, k)) == rs[k]
  {
    hide Flat, Decode;
    FlatSlice(rs, k);
    assert IsRecord(rs[k]);
  }

  lemma SliceMiddle(a: seq<Byte>, r: seq<Byte>, b: seq<Byte>)
    ensures (a + r + b)[|a|..|a| + |r|] == r
    ensures |r| >= 4 ==> (a + r + b)[|a| + 2..|a| + 4] == r[2..4]
  {
  }

  /** An offset is that of one record only. */
  lemma StartUnique(rs: seq<seq<Byte>>, j: nat, k: nat)
    requires j <= |rs| && k <= |rs| && AllRecords(rs) && Start(rs, j) == Start(rs, k)
    ensures j == k
  {
    if j < k {
      StartGrows(rs, j, k);
    } else {
      StartGrows(rs, k, j);
    }
  }

  /** Where the offset of a record falls among the records of `a` and then `b`. */
  lemma StartOfSum(a: seq<seq<Byte>>, b: seq<seq<Byte>>, o: nat)
    requires AllRecords(a + b) && IsStart(a + b, o)
    ensures o < |Flat(a)| ==> IsStart(a, o) && RecordAt(Flat(a), o) == RecordAt(Flat(a + b), o)
    ensures o >= |Flat(a)| ==> IsStart(b, o - |Flat(a)|) && RecordAt(Flat(b), o - |Flat(a)|) == RecordAt(Flat(a + b), o)
  {
    hide Flat, IsRecord, RecordAt;
    var c := a + b;
    var k: nat :| k < |c| && o == Start(c, k);
    FlatAt(c, k);
    assert AllRecords(a) by {
      assert forall j :: 0 <= j < |a| ==> c[j] == a[j];
    }
    assert AllRecords(b) by {
      assert forall j :: 0 <= j < |b| ==> c[|a| + j] == b[j];
    }
    StartEnd(a);
    assert c[..|a|] == a;
    if k < |a| {
      assert c[..k] == a[..k];
      StartGrows(c, k, |a|);
      assert o == Start(a, k);
      FlatAt(a, k);
    } else {
      assert c[..k] == a + b[..k - |a|];
      FlatSum(a, b[..k - |a|]);
      assert o - |Flat(a)| == Start(b, k - |a|);
      FlatAt(b, k - |a|);
    }
  }

  /** A new record is found where the others end, and the others where they were. */
  lemma NewRecord(rs: seq<seq<Byte>>, r: seq<Byte>, o: nat)
    requires AllRecords(rs + [r]) && IsStart(rs, o)
    ensures IsStart(rs + [r], |Flat(rs)|) && RecordAt(Flat(rs + [r]), |Flat(rs)|) == r
    ensures IsStart(rs + [r], o) && RecordAt(Flat(rs + [r]), o) == RecordAt(Flat(rs), o)
    ensures o < |Flat(rs)| < |Flat(rs + [r])|
  {
    hide Flat, IsRecord, RecordAt;
    var more := rs + [r];
    StartEnd(rs);
    assert more[..|rs|] == rs;
    FlatAt(more, |rs|);
    var k: nat :| k < |rs| && o == Start(rs, k);
    assert more[..k] == rs[..k] && more[k] == rs[k];
    assert AllRecords(rs) by {
      assert forall j :: 0 <= j < |rs| ==> more[j] == rs[j];
    }
    FlatAt(more, k);
    FlatAt(rs, k);
    StartGrows(more, k, |rs|);
    FlatSum(rs, [r]);
    FlatOne(r);
    AtLeastFour(more, |rs|);
  }

  lemma AtLeastFour(rs: seq<seq<Byte>>, k: nat)
    requires AllRecords(rs) && k < |rs|
    ensures |rs[k]| >= 4
  {
    assert IsRecord(rs[k]);
  }

  lemma RecordIsRecord(v: Vertex)
    requires v.Proper()
    ensures IsRecord(RecordOf(v)) && Decode(U16Le, RecordOf(v)[..2]) == OpcodeOf(v) && RecordOf(v)[4..] == StructOf(v)
  {
    hide StructOf, Decode, Encode;
    StructLength(v);
    DecodeEncode(U16Le, OpcodeOf(v));
    DecodeEncode(U16Le, LengthOf(v));
    assert RecordOf(v)[..2] == Encode(U16Le, OpcodeOf(v));
    assert RecordOf(v)[2..4] == Encode(U16Le, LengthOf(v));
  }

  /** The vertex in a record, if it is of a kind that a lookup knows. */
  function VertexIn(r: seq<Byte>): Option<Vertex>
    requires |r| >= 4 && Fillable(Decode(U16Le, r[..2]), |r| - 4)
  {
    var opcode := Decode(U16Le, r[..2]);
    if opcode < 0 then None else Fill(opcode, r[4..])
  }

  /** What is put into a record is found in it again. */
  lemma VertexInRecord(v: Vertex)
    requires v.Proper()
    ensures |RecordOf(v)| >= 32 && Decode(U16Le, RecordOf(v)[..2]) == OpcodeOf(v) &&
            VertexIn(RecordOf(v)) == Some(v.Stored())
  {
    hide Fill, StructOf, Decode;
    RecordIsRecord(v);
    StructLength(v);
    FillOfStruct(v);
  }

  /* Pools. */

  class Pool {
    const data: array<Byte>
    var position: nat

    constructor ()
      ensures fresh(data) && data.Length == POOL_BLOCK_SIZE && position == 0
    {
      data := new Byte[POOL_BLOCK_SIZE](_ => 0);
      position := 0;
    }

    function Bytes(): seq<Byte>
      requires position <= data.Length
      reads this, data
    {
      data[..position]
    }
  }

  /** The records of all parts, one part after the other. */
  function AllParts(parts: seq<seq<seq<Byte>>>): seq<seq<Byte>> {
    if parts == [] then [] else AllParts(parts[..|parts| - 1]) + parts[|parts| - 1]
  }

  lemma PartsNext(parts: seq<seq<seq<Byte>>>, k: nat)
    requires k < |parts|
    ensures AllParts(parts[..k + 1]) == AllParts(parts[..k]) + parts[k]
  {
    assert parts[..k + 1][..k] == parts[..k];
  }

  lemma {:induction false} PartsSum(a: seq<seq<seq<Byte>>>, b: seq<seq<seq<Byte>>>)
    ensures AllParts(a + b) == AllParts(a) + AllParts(b)
  {
    if b == [] {
      assert a + b == a;
    } else {
      PartsSum(a, b[..|b| - 1]);
      assert (a + b)[..|a + b| - 1] == a + b[..|b| - 1];
    }
  }

  lemma OnePart(rs: seq<seq<Byte>>)
    ensures AllParts([rs]) == rs
  {
    assert AllParts([rs][..0]) == [];
    assert [] + rs == rs;
  }

  lemma LastPartGrows(parts: seq<seq<seq<Byte>>>, r: seq<Byte>)
    requires parts != []
    ensures AllParts(parts[|parts| - 1 := parts[|parts| - 1] + [r]]) == AllParts(parts) + [r]
  {
    hide AllParts;
    var n := |parts| - 1;
    var more := parts[n := parts[n] + [r]];
    PartsNext(parts, n);
    PartsNext(more, n);
    assert more[..n] == parts[..n] && more[..n + 1] == more && parts[..n + 1] == parts;
  }

  /** The records of all parts from `k` on are those of part `k`, and then the others. */
  lemma PartsFrom(parts: seq<seq<seq<Byte>>>, k: nat)
    requires k < |parts|
    ensures AllParts(parts[k..]) == parts[k] + AllParts(parts[k + 1..])
  {
    assert parts[k..] == [parts[k]] + parts[k + 1..];
    PartsSum([parts[k]], parts[k + 1..]);
    OnePart(parts[k]);
  }

  /** The vertex palette of a model with what was added to it. */
  class Store {
    var data: array<Byte>             // the palette node's buffer
    var length: nat                   // the length field at its start
    var extras: Option<seq<Pool>>
    ghost var parts: seq<seq<seq<Byte>>>   // the records of the palette, and of each pool

    /** A palette without pools. */
    constructor (data: array<Byte>, length: nat, ghost rs: seq<seq<Byte>>)
      requires BASE <= length <= data.Length && data[BASE..length] == Flat(rs) && AllRecords(rs)
      ensures Valid() && Records() == rs && extras == None && this.data == data && this.length == length
    {
      this.data, this.length, extras := data, length, None;
      parts := [rs];
      new;
      OnePart(rs);
    }

    function Pools(): seq<Pool>
      reads this
    {
      if extras.Some? then extras.value else []
    }

    ghost predicate Distinct()
      reads this
    {
      var ps := Pools();
      && (extras.Some? ==> ps != [])
      && (forall i :: 0 <= i < |ps| ==> ps[i].data != data)
      && (forall i, j :: 0 <= i < j < |ps| ==> ps[i] != ps[j] && ps[i].data != ps[j].data)
    }

    ghost predicate PoolHolds(i: nat)
      requires i < |Pools()| && |parts| == |Pools()| + 1
      reads this, Pools(), (set p | p in Pools() :: p.data)
    {
      var p := Pools()[i];
      p.data.Length == POOL_BLOCK_SIZE && p.position <= p.data.Length && p.Bytes() == Flat(parts[i + 1])
    }

    ghost function Repr(): set<object>
      reads this
    {
      {this, data} + (set p | p in Pools() :: p as object) + (set p | p in Pools() :: p.data as object)
    }

    ghost predicate Valid()
      reads this, data, Pools(), (set p | p in Pools() :: p.data)
    {
      && Distinct() && |parts| == |Pools()| + 1 && AllRecords(AllParts(parts))
      && BASE <= length <= data.Length && data[BASE..length] == Flat(parts[0])
      && forall i :: 0 <= i < |Pools()| ==> PoolHolds(i)
    }

    /** The records of the palette and the pools, in order. */
    ghost function Records(): seq<seq<Byte>>
      reads this
    {
      AllParts(parts)
    }

    /** The offset one past the last record. */
    ghost function Total(): nat
      reads this
    {
      BASE + |Flat(Records())|
    }

    /** Another empty pool at the end of the chain, or the first one. */
    method NewPool()
      requires Valid()
      modifies this`extras, this`parts
      ensures Valid() && Records() == old(Records()) && parts == old(parts) + [[]]
      ensures extras.Some? && Pools() == old(Pools()) + [Pools()[|old(Pools())|]]
      ensures forall o :: o in Repr() ==> o in old(Repr()) || fresh(o)
      ensures Pools()[|old(Pools())|].position == 0
    {
      hide IsRecord, Flat;
      var pool := new Pool();
      extras := Some(Pools() + [pool]);
      parts := parts + [[]];
      PartsNext(parts, |parts| - 1);
      assert parts[..|parts| - 1] == old(parts) && parts[..|parts|] == parts;
      assert AllParts(old(parts)) + [] == AllParts(old(parts));
      FlatNone();
      forall i | 0 <= i < |Pools()|
        ensures PoolHolds(i)
      {
        assert i < |Pools()| - 1 ==> old(PoolHolds(i));
      }
    }

    /** A record at the end of the last pool. */
    method Put(r: seq<Byte>)
      requires Valid() && Pools() != [] && IsRecord(r)
      requires var p := Pools()[|Pools()| - 1]; |r| <= p.data.Length - p.position
      modifies this`parts, Pools()[|Pools()| - 1], Pools()[|Pools()| - 1].data
      ensures Valid() && Records() == old(Records()) + [r] && extras == old(extras)
    {
      hide IsRecord, Flat, AllParts;
      var n := |Pools()| - 1;
      var pool := Pools()[n];
      assert PoolHolds(n);
      WriteAt(pool.data, pool.position, r);
      pool.position := pool.position + |r|;
      parts := parts[n + 1 := parts[n + 1] + [r]];
      FlatSum(old(parts)[n + 1], [r]);
      FlatOne(r);
      LastPartGrows(old(parts), r);
      forall i | 0 <= i < |Pools()|
        ensures PoolHolds(i)
      {
        assert old(PoolHolds(i));
      }
    }

    /** prf_model_add_vertex: the offset of the new record. */
    method AddVertex(v: Vertex) returns (offset: nat)
      requires Valid() && v.Proper() && Total() < 0x1_0000_0000
      modifies Repr()
      ensures Valid() && fresh(Repr() - old(Repr()))
      ensures Records() == old(Records()) + [RecordOf(v)]
      ensures offset == old(Total())
    {
      hide IsRecord, Flat, StructOf, Valid, Encode;
      var opcode, size;
      if v.hasNormal {
        if v.hasTexture { opcode, size := 70, 4 + 3 * 8 + 4 + 5 * 4 + 4 + 4; }
          else { opcode, size := 69, 4 + 3 * 8 + 4 + 3 * 4 + 4 + 4; }
      } else {
        if v.hasTexture { opcode, size := 71, 4 + 3 * 8 + 4 + 2 * 4 + 4 + 4; }
          else { opcode, size := 68, 4 + 3 * 8 + 4 + 4 + 4; }
      }
      offset := MakeRoom(size);
      RecordIsRecord(v);
      StructLength(v);
      ghost var pool := Pools()[|Pools()| - 1];
      assert pool in Pools();
      assert pool in Repr() && pool.data in Repr();
      Put(Encode(U16Le, opcode) + Encode(U16Le, size) + StructOf(v));
    }

    /** A last pool with room for a record, and the offset the record will have. */
    method MakeRoom(size: nat) returns (offset: nat)
      requires Valid() && size <= POOL_BLOCK_SIZE
      modifies this`extras, this`parts
      ensures Valid() && Records() == old(Records()) && offset == Total()
      ensures forall o :: o in Repr() ==> o in old(Repr()) || fresh(o)
      ensures Pools() != [] && size <= Pools()[|Pools()| - 1].data.Length - Pools()[|Pools()| - 1].position
    {
      hide IsRecord, Flat, Valid, Repr, AllParts, Records, Distinct, PoolHolds;
      if extras.None? {
        NewPool();
      }
      offset := SumPositions();
      LastPool();
      var pool := Pools()[|Pools()| - 1];
      if pool.data.Length - pool.position < size {
        NewPool();
        LastPool();
      }
    }

    lemma LastPool()
      requires Valid() && extras.Some?
      ensures Pools() != []
      ensures var p := Pools()[|Pools()| - 1]; p.data.Length == POOL_BLOCK_SIZE && p.position <= p.data.Length
    {
      assert PoolHolds(|Pools()| - 1);
    }

    /** The length of the palette and of everything in the pools. */
    method SumPositions() returns (offset: nat)
      requires Valid()
      ensures Valid() && offset == Total()
    {
      hide IsRecord, Flat;
      offset := length;
      var i := 0;
      PartsEnd(0);
      while i < |Pools()|
        invariant i <= |Pools()| && offset == BASE + |Flat(AllParts(parts[..i + 1]))|
      {
        assert PoolHolds(i);
        PartsEnd(i + 1);
        offset := offset + Pools()[i].position;
        i := i + 1;
      }
      assert parts[..i + 1] == parts;
    }

    lemma PartsEnd(i: nat)
      requires i < |parts|
      ensures i == 0 ==> AllParts(parts[..1]) == parts[0]
      ensures Flat(AllParts(parts[..i + 1])) == Flat(AllParts(parts[..i])) + Flat(parts[i])
    {
      PartsNext(parts, i);
      FlatSum(AllParts(parts[..i]), parts[i]);
      if i == 0 {
        assert parts[..0] == [];
        assert AllParts([]) + parts[0] == parts[0];
      }
    }

    /** The record at an offset. */
    ghost function At(offset: nat): seq<Byte>
      requires offset >= BASE
      reads this
    {
      RecordAt(Flat(Records()), offset - BASE)
    }

    /** An offset of a record, which if it is one of a vertex has the fields that are filled in whatever its length. */
    ghost predicate CanLookUp(offset: nat)
      reads this
    {
      && offset >= BASE && IsStart(Records(), offset - BASE)
      && |At(offset)| >= 4 && Fillable(Decode(U16Le, At(offset)[..2]), |At(offset)| - 4)
    }

    /** What is left to look through from part `i` on, with offset `o` relative to it. */
    ghost predicate Ahead(i: nat, o: nat, offset: nat)
      requires i <= |parts| && offset >= BASE
      reads this
    {
      if offset < Total() then IsStart(AllParts(parts[i..]), o) && RecordAt(Flat(AllParts(parts[i..])), o) == At(offset)
      else o >= |Flat(AllParts(parts[i..]))|
    }

    lemma AheadStart(offset: nat)
      requires Valid() && offset >= BASE && (offset >= Total() || IsStart(Records(), offset - BASE))
      ensures Ahead(0, offset - BASE, offset)
    {
      assert parts[0..] == parts;
    }

    lemma AheadStep(i: nat, o: nat, offset: nat)
      requires Valid() && i < |parts| && offset >= BASE && Ahead(i, o, offset)
      ensures o < |Flat(parts[i])| ==>
              offset < Total() && IsStart(parts[i], o) && RecordAt(Flat(parts[i]), o) == At(offset)
      ensures o >= |Flat(parts[i])| ==> Ahead(i + 1, o - |Flat(parts[i])|, offset)
    {
      hide Flat, IsRecord, AllParts, RecordAt, IsStart;
      PartsFrom(parts, i);
      FlatSum(parts[i], AllParts(parts[i + 1..]));
      if offset < Total() {
        RecordsFrom(i);
        StartOfSum(parts[i], AllParts(parts[i + 1..]), o);
      }
    }

    lemma RecordsFrom(i: nat)
      requires Valid() && i <= |parts|
      ensures AllRecords(AllParts(parts[i..]))
    {
      hide IsRecord;
      assert parts == parts[..i] + parts[i..];
      PartsSum(parts[..i], parts[i..]);
      var front := |AllParts(parts[..i])|;
      assert forall k :: 0 <= k < |AllParts(parts[i..])| ==> AllParts(parts[i..])[k] == AllParts(parts)[front + k];
    }

    lemma AheadEnd(o: nat, offset: nat)
      requires offset >= BASE && Ahead(|parts|, o, offset)
      ensures offset >= Total()
    {
      assert parts[|parts|..] == [];
    }

    /** prf_model_vertex_palette_lookup. */
    method Lookup(offset: nat) returns (vertex: Option<Vertex>)
      requires Valid() && (offset >= Total() || CanLookUp(offset))
      ensures Valid()
      ensures offset >= Total() ==> vertex == None
      ensures offset < Total() ==> vertex == VertexIn(At(offset))
    {
      hide Flat, IsRecord, AllParts, RecordAt, IsStart, Ahead, Fill, Decode;
      TotalAtLeastBase();
      AheadStart(offset);
      AheadStep(0, offset - BASE, offset);
      if offset < length {
        vertex := VertexOf(data, offset, length, parts[0], BASE);
        return;
      }
      if extras.None? {
        AheadEnd(offset - length, offset);
        return None;
      }
      var o: nat, i: nat := offset - length, 0;
      while i < |Pools()| && o >= Pools()[i].position
        invariant i <= |Pools()| && Ahead(i + 1, o, offset)
      {
        assert PoolHolds(i);
        AheadStep(i + 1, o, offset);
        o, i := o - Pools()[i].position, i + 1;
      }
      if i == |Pools()| {
        AheadEnd(o, offset);
        return None;
      }
      assert PoolHolds(i);
      AheadStep(i + 1, o, offset);
      vertex := VertexOf(Pools()[i].data, o, Pools()[i].position, parts[i + 1], 0);
    }

    lemma ValidRecords()
      requires Valid()
      ensures AllRecords(Records())
    {
    }

    lemma TotalAtLeastBase()
      ensures Total() >= BASE
    {
    }

    /** The vertex in the record at offset `at` of a buffer that holds `rs` from `from` to `to`. */
    method VertexOf(bytes: array<Byte>, at: nat, to: nat, ghost rs: seq<seq<Byte>>, ghost from: nat)
      returns (vertex: Option<Vertex>)
      requires from <= at < to <= bytes.Length && bytes[from..to] == Flat(rs)
      requires var r := RecordAt(Flat(rs), at - from); |r| >= 4 && Fillable(Decode(U16Le, r[..2]), |r| - 4)
      ensures vertex == VertexIn(RecordAt(Flat(rs), at - from))
    {
      hide Fill, Decode, Flat;
      ghost var flat := Flat(rs);
      ghost var x := at - from;
      ghost var r := RecordAt(flat, x);
      assert r == flat[x..x + |r|] && Decode(U16Le, flat[x + 2..x + 4]) == |r|;
      SubSlice(bytes[..], from, to, x, |r|);
      SubSlice(bytes[..], from, to, x + 2, 2);
      SubSlice(bytes[..], from, to, x, 2);
      SubSlice(bytes[..], from, to, x + 4, |r| - 4);
      assert bytes[from..to] == bytes[..][from..to] && bytes[at..at + 2] == bytes[..][at..at + 2];
      assert bytes[at + 2..at + 4] == bytes[..][at + 2..at + 4] == flat[x + 2..x + 4];
      var opcode := Decode(U16Le, bytes[at..at + 2]);
      var size := Decode(U16Le, bytes[at + 2..at + 4]);
      assert r[..2] == flat[x..x + 2] && r[4..] == flat[x + 4..x + |r|];
      assert bytes[at + 4..at + size] == bytes[..][at + 4..at + size] == r[4..];
      if opcode < 0 {
        return None;
      }
      vertex := Fill(opcode, bytes[at + 4..at + size]);
    }

    /**
     Append, then look up: the new offset gives the vertex back, and whatever an offset gave before it
     gives still, however many pools there are.
     */
    method AddThenLookup(v: Vertex, older: nat) returns (offset: nat, found: Option<Vertex>, again: Option<Vertex>)
      requires Valid() && v.Proper() && Total() < 0x1_0000_0000
      requires older < Total() && CanLookUp(older)
      modifies Repr()
      ensures Valid() && Records() == old(Records()) + [RecordOf(v)]
      ensures found == Some(v.Stored()) && again == old(VertexIn(At(older)))
    {
      hide Flat, IsRecord, AllParts, RecordAt, IsStart, Fill, Decode, StructOf, Valid, Repr;
      ghost var before := Records();
      offset := AddVertex(v);
      ValidRecords();
      NewRecord(before, RecordOf(v), older - BASE);
      VertexInRecord(v);
      RecordIsRecord(v);
      found := Lookup(offset);
      again := Lookup(older);
    }
  }

  method WriteAt(data: array<Byte>, at: nat, r: seq<Byte>)
    requires at + |r| <= data.Length
    modifies data
    ensures data[..] == old(data[..at]) + r + old(data[at + |r|..])
  {
    var i := 0;
    while i < |r|
      invariant i <= |r|
      invariant data[..at] == old(data[..at]) && data[at..at + i] == r[..i] && data[at + |r|..] == old(data[at + |r|..])
    {
      data[at + i] := r[i];
      i := i + 1;
    }
    assert data[..] == data[..at] + data[at..at + |r|] + data[at + |r|..];
  }
}
