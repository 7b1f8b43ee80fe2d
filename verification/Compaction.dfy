/**
 prf_model_vertex_palette_optimize: unreferenced vertex records are dropped from the palette and its
 pools, the others are moved together, and the vertex lists are made to refer to where they went.
 */
module Compaction {
  import opened Bytes
  import BFile
  import opened Wrappers
  import opened Hierarchy
  import opened InOrder
  import opened Listing
  import opened State
  import opened Vertices
  import opened Palette

  const U32Le := Format(false, W32, LittleEndian)

  /* Which records are kept, and where they go. */

  /** The used ones of the first `n` records. */
  function Kept(rs: seq<seq<Byte>>, used: seq<bool>, n: nat): seq<seq<Byte>>
    requires n <= |rs| == |used|
  {
    if n == 0 then [] else Kept(rs, used, n - 1) + if used[n - 1] then [rs[n - 1]] else []
  }

  /** How far into the kept records the ones before record `n` reach. */
  function NewStart(rs: seq<seq<Byte>>, used: seq<bool>, n: nat): nat
    requires n <= |rs| == |used|
  {
    |Flat(Kept(rs, used, n))|
  }

  lemma {:induction false} KeptAreRecords(rs: seq<seq<Byte>>, used: seq<bool>, n: nat)
    requires n <= |rs| == |used| && AllRecords(rs)
    ensures AllRecords(Kept(rs, used, n))
  {
    hide IsRecord;
    if n > 0 {
      KeptAreRecords(rs, used, n - 1);
    }
  }

  lemma KeptNext(rs: seq<seq<Byte>>, used: seq<bool>, n: nat)
    requires n < |rs| == |used|
    ensures Flat(Kept(rs, used, n + 1)) == Flat(Kept(rs, used, n)) + if used[n] then rs[n] else []
    ensures NewStart(rs, used, n + 1) == NewStart(rs, used, n) + if used[n] then |rs[n]| else 0
  {
    hide Flat;
    if used[n] {
      FlatSum(Kept(rs, used, n), [rs[n]]);
      FlatOne(rs[n]);
    } else {
      assert Kept(rs, used, n) + [] == Kept(rs, used, n);
      assert Flat(Kept(rs, used, n)) + [] == Flat(Kept(rs, used, n));
    }
  }

  /** Records only ever move towards the start. */
  lemma {:induction false} NewStartBefore(rs: seq<seq<Byte>>, used: seq<bool>, n: nat)
    requires n <= |rs| == |used|
    ensures NewStart(rs, used, n) <= Start(rs, n)
  {
    hide Flat;
    if n == 0 {
      FlatNone();
      assert rs[..0] == [];
    } else {
      NewStartBefore(rs, used, n - 1);
      KeptNext(rs, used, n - 1);
      StartNext(rs, n - 1);
    }
  }

  /** The kept records from `k` on follow those before. */
  lemma {:induction false} KeptSplit(rs: seq<seq<Byte>>, used: seq<bool>, k: nat, n: nat)
    requires k < n <= |rs| == |used| && used[k]
    ensures |Kept(rs, used, k)| < |Kept(rs, used, n)|
    ensures Kept(rs, used, n)[..|Kept(rs, used, k)|] == Kept(rs, used, k)
    ensures Kept(rs, used, n)[|Kept(rs, used, k)|] == rs[k]
  {
    if k < n - 1 {
      KeptSplit(rs, used, k, n - 1);
    }
  }

  /** A used record is found, unchanged, at its new place. */
  lemma KeptFound(rs: seq<seq<Byte>>, used: seq<bool>, k: nat)
    requires k < |rs| == |used| && used[k] && AllRecords(rs)
    ensures var kept := Kept(rs, used, |rs|);
      && AllRecords(kept) && IsStart(kept, NewStart(rs, used, k))
      && RecordAt(Flat(kept), NewStart(rs, used, k)) == RecordAt(Flat(rs), Start(rs, k))
  {
    hide Flat, IsRecord, RecordAt, Kept;
    var kept := Kept(rs, used, |rs|);
    KeptAreRecords(rs, used, |rs|);
    KeptSplit(rs, used, k, |rs|);
    FlatAt(kept, |Kept(rs, used, k)|);
    FlatAt(rs, k);
  }

  /** Only used records are kept, in their order: if all are used, nothing moves. */
  lemma {:induction false} AllKept(rs: seq<seq<Byte>>, used: seq<bool>, n: nat)
    requires n <= |rs| == |used| && forall k :: 0 <= k < n ==> used[k]
    ensures Kept(rs, used, n) == rs[..n]
  {
    if n > 0 {
      AllKept(rs, used, n - 1);
    }
  }

  lemma {:induction false} KeptOnlyUsed(rs: seq<seq<Byte>>, used: seq<bool>, n: nat, j: nat) returns (k: nat)
    requires n <= |rs| == |used| && j < |Kept(rs, used, n)|
    ensures k < n && used[k] && j == |Kept(rs, used, k)|
  {
    if used[n - 1] && j == |Kept(rs, used, n - 1)| {
      k := n - 1;
    } else {
      k := KeptOnlyUsed(rs, used, n - 1, j);
    }
  }

  /* References. */

  predicate IsVertexList(opcode: nat) {
    opcode in {72, 89}
  }

  function RefAt(data: seq<Byte>, i: nat): (r: nat)
    requires 4 * i + 4 <= |data|
  {
    DecodeNat(data[4 * i..4 * i + 4]);
    Decode(U32Le, data[4 * i..4 * i + 4])
  }

  lemma DecodeNat(bs: seq<Byte>)
    requires |bs| == 4
    ensures Decode(U32Le, bs) >= 0
  {
  }

  function Refs(data: seq<Byte>, n: nat): (rs: seq<nat>)
    requires 4 * n <= |data|
    ensures |rs| == n && forall i :: 0 <= i < n ==> rs[i] == RefAt(data, i)
  {
    seq(n, i requires 0 <= i < n => RefAt(data, i))
  }

  /** How many references a vertex list node has. */
  function RefCount(length: nat): nat {
    if length > 4 then (length - 4) / 4 else 0
  }

  /** The `i`-th four bytes, in the byte order of the host. */
  function WordAt(data: seq<Byte>, i: nat): (r: nat)
    requires 4 * i + 4 <= |data|
  {
    var d: seq<int> := data[4 * i..4 * i + 4];
    d[0] + 0x100 * d[1] + 0x1_0000 * d[2] + 0x100_0000 * d[3]
  }

  lemma RefIsWord(data: seq<Byte>, i: nat)
    requires 4 * i + 4 <= |data|
    ensures RefAt(data, i) == WordAt(data, i)
  {
    hide Decode;
    BFile.DecodeWindow(U32Le, data[4 * i..4 * i + 4]);
  }

  /** All of a vertex list are references: as many as it has room for, each of four bytes. */
  lemma AllWordsAreRefs(node: Node)
    requires node.opcode in {72, 89} && node.length >= 4 && |node.data| == node.length - 4
    ensures Readable(node) && 4 * |NodeRefs(node)| <= |node.data| < 4 * |NodeRefs(node)| + 4
    ensures forall i :: 0 <= i < |NodeRefs(node)| ==> NodeRefs(node)[i] == WordAt(node.data, i)
  {
    forall i | 0 <= i < |NodeRefs(node)|
      ensures NodeRefs(node)[i] == WordAt(node.data, i)
    {
      RefIsWord(node.data, i);
    }
  }

  ghost predicate Readable(node: Node)
    reads node
  {
    IsVertexList(node.opcode) ==> 4 * RefCount(node.length) <= |node.data|
  }

  ghost function NodeRefs(node: Node): seq<nat>
    requires Readable(node)
    reads node
  {
    if IsVertexList(node.opcode) then Refs(node.data, RefCount(node.length)) else []
  }

  ghost predicate AllReadable(nodes: seq<Node>)
    reads nodes
  {
    forall n :: 0 <= n < |nodes| ==> Readable(nodes[n])
  }

  ghost function AllRefs(nodes: seq<Node>, n: nat): seq<nat>
    requires n <= |nodes| && AllReadable(nodes)
    reads nodes
  {
    if n == 0 then [] else AllRefs(nodes, n - 1) + NodeRefs(nodes[n - 1])
  }

  /* Tagging. */

  /** The table counts, for each offset, how often it was referred to. */
  ghost predicate Tagged(rlt: array<nat>, seen: seq<nat>)
    reads rlt
  {
    forall o :: 0 <= o < rlt.Length ==> rlt[o] == multiset(seen)[o]
  }

  ghost predicate InTable(refs: seq<nat>, size: nat) {
    forall i :: 0 <= i < |refs| ==> refs[i] < size
  }

  method Bump(rlt: array<nat>, o: nat, ghost seen: seq<nat>)
    requires o < rlt.Length && Tagged(rlt, seen) && |seen| + 1 < 0x1_0000_0000
    modifies rlt
    ensures Tagged(rlt, seen + [o])
  {
    CountBound(seen, o);
    assert multiset(seen + [o]) == multiset(seen) + multiset{o};
    rlt[o] := (rlt[o] + 1) % 0x1_0000_0000;
  }

  /** vt_tag_cb.  The counters are 32 bits wide. */
  method TagNode(node: Node, rlt: array<nat>, ghost seen: seq<nat>)
    requires Readable(node) && Tagged(rlt, seen) && InTable(NodeRefs(node), rlt.Length)
    requires |seen| + |NodeRefs(node)| < 0x1_0000_0000
    modifies rlt
    ensures Tagged(rlt, seen + NodeRefs(node))
  {
    hide Tagged, RefAt;
    ghost var refs := NodeRefs(node);
    if !IsVertexList(node.opcode) {
      assert seen + refs == seen;
      return;
    }
    var num := RefCount(node.length);
    var i := 0;
    assert seen + refs[..0] == seen;
    while i < num
      invariant i <= num == |refs|
      invariant Tagged(rlt, seen + refs[..i])
    {
      var o := RefAt(node.data, i);
      assert o == refs[i] < rlt.Length;
      Bump(rlt, o, seen + refs[..i]);
      assert seen + refs[..i + 1] == seen + refs[..i] + [o];
      i := i + 1;
    }
    assert refs[..i] == refs;
  }

  lemma CountBound(s: seq<nat>, o: nat)
    ensures multiset(s)[o] <= |s|
  {
    assert |multiset(s)| == |s|;
    var m := multiset(s);
    assert m[o := 0] <= m;
    assert |m| == |m[o := 0]| + m[o];
  }

  /* Compaction. */

  /** The entry for record `j` once `k` records were looked at: a count before, the new offset after. */
  ghost predicate Entered(rs: seq<seq<Byte>>, used: seq<bool>, k: nat, rlt: seq<nat>, j: nat)
    requires j < |rs| == |used| && k <= |rs|
  {
    && BASE + Start(rs, j) < |rlt|
    && var entry := rlt[BASE + Start(rs, j)];
    if j >= k then entry != 0 <==> used[j]
    else entry == if used[j] then BASE + NewStart(rs, used, j) else 0
  }

  ghost predicate AllEntered(rs: seq<seq<Byte>>, used: seq<bool>, k: nat, rlt: seq<nat>)
    requires |rs| == |used| && k <= |rs|
  {
    forall j :: 0 <= j < |rs| ==> Entered(rs, used, k, rlt, j)
  }

  ghost predicate Progress(rs: seq<seq<Byte>>, used: seq<bool>, k: nat, buffer: seq<Byte>, rlt: seq<nat>, offset: nat)
  {
    && AllRecords(rs) && |rs| == |used| && k <= |rs|
    && |buffer| == |rlt| == BASE + |Flat(rs)|
    && offset + NewStart(rs, used, k) == Start(rs, k)
    && NewStart(rs, used, k) <= |Flat(rs)|
    && buffer[BASE..BASE + NewStart(rs, used, k)] == Flat(Kept(rs, used, k))
    && AllEntered(rs, used, k, rlt)
  }

  /** The entry of the record being looked at is the only one that changes. */
  lemma EnteredNext(rs: seq<seq<Byte>>, used: seq<bool>, k: nat, rlt: seq<nat>, rlt': seq<nat>)
    requires AllRecords(rs) && k < |rs| == |used| && |rlt| == |rlt'| == BASE + |Flat(rs)|
    requires AllEntered(rs, used, k, rlt)
    requires BASE + Start(rs, k) < |rlt|
    requires rlt' == if used[k] then rlt[BASE + Start(rs, k) := BASE + NewStart(rs, used, k)] else rlt
    ensures AllEntered(rs, used, k + 1, rlt')
  {
    hide IsRecord, Start, NewStart;
    var next := k + 1;
    forall j | 0 <= j < |rs|
      ensures Entered(rs, used, next, rlt', j)
    {
      assert Entered(rs, used, k, rlt, j) && Entered(rs, used, k, rlt, k);
      if Start(rs, j) == Start(rs, k) {
        StartUnique(rs, j, k);
      }
    }
  }

  /** One record: moved towards the start of the buffer if it is used, passed over if not. */
  method CompactOne(bytes: array<Byte>, pos: nat, at: nat, buffer: array<Byte>, rlt: array<nat>, offset: nat,
                    ghost rs: seq<seq<Byte>>, ghost used: seq<bool>, ghost k: nat)
    returns (size: nat, offset': nat)
    requires Progress(rs, used, k, buffer[..], rlt[..], offset) && k < |rs| && at == BASE + Start(rs, k)
    requires pos + |rs[k]| <= bytes.Length && bytes[pos..pos + |rs[k]|] == rs[k] && bytes != buffer
    modifies buffer, rlt
    ensures Progress(rs, used, k + 1, buffer[..], rlt[..], offset') && size == |rs[k]|
  {
    hide Flat, Kept, Decode, Entered, RecordAt, IsRecord, Start;
    ghost var was, old_rlt := buffer[..], rlt[..];
    ghost var r := rs[k];
    RecordHeader(rs, k, bytes[..], pos);
    size := Decode(U16Le, bytes[pos + 2..pos + 4]);
    offset' := offset;
    FlatAt(rs, k);
    KeptNext(rs, used, k);
    StartNext(rs, k);
    assert Entered(rs, used, k, rlt[..], k);
    UsedEntry(rs, used, k, rlt[..]);
    if rlt[at] != 0 {
      WriteAt(buffer, at - offset, bytes[pos..pos + size]);
      rlt[at] := at - offset;
      Appended(was, BASE, at - offset, r, buffer[..]);
    } else {
      offset' := offset + size;
    }
    EnteredNext(rs, used, k, old_rlt, rlt[..]);
  }

  lemma UsedEntry(rs: seq<seq<Byte>>, used: seq<bool>, k: nat, rlt: seq<nat>)
    requires k < |rs| == |used| && Entered(rs, used, k, rlt, k)
    ensures BASE + Start(rs, k) < |rlt| && (rlt[BASE + Start(rs, k)] != 0 <==> used[k])
  {
  }

  lemma RecordHeader(rs: seq<seq<Byte>>, k: nat, bytes: seq<Byte>, pos: nat)
    requires AllRecords(rs) && k < |rs| && pos + |rs[k]| <= |bytes| && bytes[pos..pos + |rs[k]|] == rs[k]
    ensures |rs[k]| >= 4 && Decode(U16Le, bytes[pos + 2..pos + 4]) == |rs[k]|
  {
    hide Decode;
    assert IsRecord(rs[k]);
    SubSlice(bytes, pos, pos + |rs[k]|, 2, 2);
  }

  lemma Appended(was: seq<Byte>, from: nat, at: nat, r: seq<Byte>, now: seq<Byte>)
    requires from <= at && at + |r| <= |was| && now == was[..at] + r + was[at + |r|..]
    ensures now[from..at + |r|] == was[from..at] + r
  {
  }

  /** The records of one part, which reaches from `from` to `to` in its own buffer. */
  method CompactPart(bytes: array<Byte>, from: nat, to: nat, shift: int, buffer: array<Byte>, rlt: array<nat>,
                     offset: nat,
                     ghost rs: seq<seq<Byte>>, ghost used: seq<bool>, ghost k: nat, ghost part: seq<seq<Byte>>)
    returns (offset': nat)
    requires Progress(rs, used, k, buffer[..], rlt[..], offset) && k + |part| <= |rs| && rs[k..k + |part|] == part
    requires from <= to <= bytes.Length && bytes[from..to] == Flat(part) && bytes != buffer
    requires from + shift == BASE + Start(rs, k)
    modifies buffer, rlt
    ensures Progress(rs, used, k + |part|, buffer[..], rlt[..], offset')
  {
    hide Flat, Progress, IsRecord;
    var pos := from;
    offset' := offset;
    ghost var j := 0;
    PartStart(rs, k, part);
    ProgressRecords(rs, used, k, buffer[..], rlt[..], offset);
    while pos < to
      invariant j <= |part| && from <= pos == from + Start(part, j) <= to
      invariant pos + shift == BASE + Start(rs, k + j) && bytes[from..to] == Flat(part)
      invariant Progress(rs, used, k + j, buffer[..], rlt[..], offset')
    {
      PartStep(rs, k, part, j);
      SubSlice(bytes[..], from, to, Start(part, j), |part[j]|);
      assert bytes[..][from..to] == bytes[from..to];
      assert bytes[pos..pos + |part[j]|] == bytes[..][pos..pos + |part[j]|] == part[j];
      var size;
      size, offset' := CompactOne(bytes, pos, pos + shift, buffer, rlt, offset', rs, used, k + j);
      pos, j := pos + size, j + 1;
    }
    PartEnd(rs, k, part, j);
  }

  lemma ProgressRecords(rs: seq<seq<Byte>>, used: seq<bool>, k: nat, buffer: seq<Byte>, rlt: seq<nat>, offset: nat)
    requires Progress(rs, used, k, buffer, rlt, offset)
    ensures AllRecords(rs)
  {
  }

  lemma PartStart(rs: seq<seq<Byte>>, k: nat, part: seq<seq<Byte>>)
    requires k + |part| <= |rs| && rs[k..k + |part|] == part
    ensures Start(part, 0) == 0
  {
    assert part[..0] == [];
  }

  /** Before the end of a part there is another record. */
  lemma PartStep(rs: seq<seq<Byte>>, k: nat, part: seq<seq<Byte>>, j: nat)
    requires AllRecords(rs) && k + |part| <= |rs| && rs[k..k + |part|] == part && j <= |part| &&
             Start(part, j) < |Flat(part)|
    ensures j < |part| && part[j] == rs[k + j] && |part[j]| >= 4
    ensures Start(part, j) + |part[j]| <= |Flat(part)| &&
            Flat(part)[Start(part, j)..Start(part, j) + |part[j]|] == part[j]
    ensures Start(part, j + 1) == Start(part, j) + |part[j]| && Start(rs, k + j + 1) == Start(rs, k + j) + |part[j]|
  {
    hide Flat, IsRecord, RecordAt;
    StartEnd(part);
    assert forall i :: 0 <= i < |part| ==> part[i] == rs[k + i];
    assert AllRecords(part);
    FlatAt(part, j);
    AtLeastFour(part, j);
    StartNext(part, j);
    StartNext(rs, k + j);
  }

  lemma PartEnd(rs: seq<seq<Byte>>, k: nat, part: seq<seq<Byte>>, j: nat)
    requires AllRecords(rs) && k + |part| <= |rs| && rs[k..k + |part|] == part && j <= |part| &&
             Start(part, j) >= |Flat(part)|
    ensures j == |part|
  {
    hide Flat, IsRecord;
    assert forall i :: 0 <= i < |part| ==> part[i] == rs[k + i];
    assert AllRecords(part);
    StartEnd(part);
    StartGrows(part, j, |part|);
  }

  /* The whole. */

  /** Which records some reference is to. */
  ghost function UsedBy(rs: seq<seq<Byte>>, refs: seq<nat>): (used: seq<bool>)
    ensures |used| == |rs|
  {
    seq(|rs|, k requires 0 <= k < |rs| => BASE + Start(rs, k) in refs)
  }

  lemma UsedAt(rs: seq<seq<Byte>>, refs: seq<nat>, k: nat)
    requires k < |rs|
    ensures UsedBy(rs, refs)[k] <==> BASE + Start(rs, k) in refs
  {
    hide Start;
  }

  lemma MovedFrom(rs: seq<seq<Byte>>, used: seq<bool>, r: nat, r': nat, k: nat)
    requires |rs| == |used| && AllRecords(rs) && MovesTo(rs, used, r, r') && k < |rs| && r == BASE + Start(rs, k)
    ensures used[k] && r' == BASE + NewStart(rs, used, k)
  {
    hide IsRecord, Flat, Start, NewStart;
    var l: nat :| l < |rs| && used[l] && r == BASE + Start(rs, l) && r' == BASE + NewStart(rs, used, l);
    StartUnique(rs, k, l);
  }

  /** Every reference is to the start of a record. */
  ghost predicate AllResolve(rs: seq<seq<Byte>>, refs: seq<nat>) {
    forall i :: 0 <= i < |refs| ==> refs[i] >= BASE && IsStart(rs, refs[i] - BASE)
  }

  /** What a reference becomes. */
  ghost predicate MovesTo(rs: seq<seq<Byte>>, used: seq<bool>, r: nat, r': nat)
    requires |rs| == |used|
  {
    exists k :: 0 <= k < |rs| && used[k] && r == BASE + Start(rs, k) && r' == BASE + NewStart(rs, used, k)
  }

  lemma TaggedProgress(rs: seq<seq<Byte>>, refs: seq<nat>, buffer: array<Byte>, rlt: array<nat>)
    requires AllRecords(rs) && Tagged(rlt, refs) && buffer.Length == rlt.Length == BASE + |Flat(rs)|
    ensures Progress(rs, UsedBy(rs, refs), 0, buffer[..], rlt[..], 0)
  {
    hide IsRecord, Flat;
    var used := UsedBy(rs, refs);
    FlatNone();
    assert rs[..0] == [];
    forall j | 0 <= j < |rs|
      ensures Entered(rs, used, 0, rlt[..], j)
    {
      UsedAt(rs, refs, j);
      FlatAt(rs, j);
      AtLeastFour(rs, j);
      assert rlt[BASE + Start(rs, j)] == multiset(refs)[BASE + Start(rs, j)];
    }
  }

  /** Everything up to part `i`, as far as `orig_length` in offsets. */
  ghost predicate PartsDone(store: Store, used: seq<bool>, i: nat, orig_length: nat, buffer: seq<Byte>, rlt: seq<nat>,
                            offset: nat)
    requires i <= |store.parts|
    reads store
  {
    var rs, k := store.Records(), |AllParts(store.parts[..i])|;
    && k <= |rs| && orig_length == BASE + Start(rs, k) && Progress(rs, used, k, buffer, rlt, offset)
  }

  method CompactPool(store: Store, i: nat, orig_length: nat, buffer: array<Byte>, rlt: array<nat>, offset: nat,
                     ghost used: seq<bool>)
    returns (offset': nat)
    requires store.Valid() && i < |store.Pools()| && PartsDone(store, used, i + 1, orig_length, buffer[..], rlt[..],
                                                               offset)
    requires buffer != store.data && forall p :: p in store.Pools() ==> p.data != buffer
    modifies buffer, rlt
    ensures store.Valid() && PartsDone(store, used, i + 2, orig_length + store.Pools()[i].position, buffer[..], rlt[..],
                                       offset')
  {
    hide Flat, Progress, IsRecord, AllParts, Start, Store.Distinct;
    assert store.PoolHolds(i);
    NextPart(store.parts, i + 1);
    var pool := store.Pools()[i];
    offset' := CompactPart(pool.data, 0, pool.position, orig_length, buffer, rlt, offset, store.Records(), used,
                           |AllParts(store.parts[..i + 1])|, store.parts[i + 1]);
  }

  /** Both loops over the palette and its pools: the kept records are in the buffer, the new offsets in the table. */
  method Compact(store: Store, buffer: array<Byte>, rlt: array<nat>, ghost used: seq<bool>)
    returns (orig_length: nat, offset: nat)
    requires store.Valid() && Progress(store.Records(), used, 0, buffer[..], rlt[..], 0)
    requires buffer != store.data && forall p :: p in store.Pools() ==> p.data != buffer
    modifies buffer, rlt
    ensures store.Valid() && orig_length == store.Total()
    ensures Progress(store.Records(), used, |store.Records()|, buffer[..], rlt[..], offset)
  {
    hide Flat, Progress, IsRecord, AllParts, Start, Store.Distinct, Store.PoolHolds;
    FirstPart(store.parts, used);
    offset := CompactPart(store.data, BASE, store.length, 0, buffer, rlt, 0, store.Records(), used, 0, store.parts[0]);
    orig_length := store.length;
    var i := 0;
    while i < |store.Pools()|
      invariant i <= |store.Pools()| && store.Valid()
      invariant PartsDone(store, used, i + 1, orig_length, buffer[..], rlt[..], offset)
    {
      offset := CompactPool(store, i, orig_length, buffer, rlt, offset, used);
      orig_length := orig_length + store.Pools()[i].position;
      i := i + 1;
    }
    assert store.parts[..i + 1] == store.parts;
    StartEnd(store.Records());
  }

  lemma FirstPart(parts: seq<seq<seq<Byte>>>, used: seq<bool>)
    requires parts != []
    ensures var rs := AllParts(parts);
      && Start(rs, 0) == 0 && |parts[0]| <= |rs| && rs[..|parts[0]|] == parts[0]
      && AllParts(parts[..1]) == parts[0] && BASE + |Flat(parts[0])| == BASE + Start(rs, |parts[0]|)
  {
    hide Flat;
    NextPart(parts, 0);
    assert parts[..0] == [];
    FlatNone();
  }

  /** The records of part `i` follow those of the parts before. */
  lemma NextPart(parts: seq<seq<seq<Byte>>>, i: nat)
    requires i < |parts|
    ensures var rs, k := AllParts(parts), |AllParts(parts[..i])|;
      && k + |parts[i]| <= |rs| && rs[k..k + |parts[i]|] == parts[i]
      && AllParts(parts[..i + 1]) == AllParts(parts[..i]) + parts[i]
      && rs[..k] == AllParts(parts[..i])
      && Start(rs, k + |parts[i]|) == Start(rs, k) + |Flat(parts[i])|
  {
    hide Flat;
    PartsNext(parts, i);
    assert parts == parts[..i + 1] + parts[i + 1..];
    PartsSum(parts[..i + 1], parts[i + 1..]);
    var rs, k := AllParts(parts), |AllParts(parts[..i])|;
    assert rs[..k + |parts[i]|] == AllParts(parts[..i + 1]);
    assert rs[..k] == AllParts(parts[..i]);
    FlatSum(AllParts(parts[..i]), parts[i]);
  }

  /** References that went where the records they are to went. */
  ghost predicate Translated(rs: seq<seq<Byte>>, used: seq<bool>, refs: seq<nat>, refs': seq<nat>)
    requires |rs| == |used|
  {
    |refs| == |refs'| && forall i :: 0 <= i < |refs| ==> MovesTo(rs, used, refs[i], refs'[i])
  }

  /** A translated reference is to the same record as before. */
  lemma MoveKeepsMeaning(rs: seq<seq<Byte>>, used: seq<bool>, r: nat, r': nat)
    requires |rs| == |used| && AllRecords(rs) && MovesTo(rs, used, r, r')
    ensures var kept := Kept(rs, used, |rs|);
      && r >= BASE && r' >= BASE && IsStart(kept, r' - BASE)
      && RecordAt(Flat(kept), r' - BASE) == RecordAt(Flat(rs), r - BASE)
  {
    hide IsRecord, Flat, RecordAt;
    var k: nat :| k < |rs| && used[k] && r == BASE + Start(rs, k) && r' == BASE + NewStart(rs, used, k);
    KeptFound(rs, used, k);
  }

  /** Both offsets have a record, and it is the same. */
  ghost predicate SameRecord(rs: seq<seq<Byte>>, rs': seq<seq<Byte>>, r: nat, r': nat) {
    && r >= BASE && r' >= BASE && IsStart(rs', r' - BASE)
    && RecordAt(Flat(rs'), r' - BASE) == RecordAt(Flat(rs), r - BASE)
  }

  /** Every four bytes of the one find the record that the same four bytes of the other find. */
  ghost predicate WordsKeepMeaning(rs: seq<seq<Byte>>, rs': seq<seq<Byte>>, d: seq<Byte>, d': seq<Byte>) {
    |d'| == |d| && forall i: nat :: 4 * i + 4 <= |d| ==> SameRecord(rs, rs', WordAt(d, i), WordAt(d', i))
  }

  lemma WordsMoved(rs: seq<seq<Byte>>, used: seq<bool>, length: nat, d: seq<Byte>, d': seq<Byte>)
    requires |rs| == |used| && AllRecords(rs) && length >= 4 && |d| == |d'| <= length - 4
    requires 4 * RefCount(length) <= |d|
    requires Translated(rs, used, Refs(d, RefCount(length)), Refs(d', RefCount(length)))
    ensures WordsKeepMeaning(rs, Kept(rs, used, |rs|), d, d')
  {
    hide IsRecord, Flat, RecordAt, IsStart, MovesTo, RefAt;
    var n := RefCount(length);
    forall i: nat | 4 * i + 4 <= |d|
      ensures SameRecord(rs, Kept(rs, used, |rs|), WordAt(d, i), WordAt(d', i))
    {
      assert i < n;
      RefIsWord(d, i);
      RefIsWord(d', i);
      assert MovesTo(rs, used, Refs(d, n)[i], Refs(d', n)[i]);
      MoveKeepsMeaning(rs, used, RefAt(d, i), RefAt(d', i));
    }
  }

  /** The table after compaction says where to. */
  lemma TableMoves(rs: seq<seq<Byte>>, used: seq<bool>, refs: seq<nat>, r: nat, buffer: seq<Byte>, rlt: seq<nat>,
                   offset: nat)
    requires used == UsedBy(rs, refs) && AllResolve(rs, refs) && r in refs
    requires Progress(rs, used, |rs|, buffer, rlt, offset)
    ensures r < |rlt| && MovesTo(rs, used, r, rlt[r]) && rlt[r] <= r
  {
    hide IsRecord, Flat, Kept;
    var i: nat :| i < |refs| && refs[i] == r;
    var k: nat :| k < |rs| && r - BASE == Start(rs, k);
    UsedAt(rs, refs, k);
    assert Entered(rs, used, |rs|, rlt, k);
    NewStartBefore(rs, used, k);
  }

  /** One reference rewritten in place. */
  lemma RefReplaced(data: seq<Byte>, i: nat, v: nat)
    requires 4 * i + 4 <= |data| && v < 0x1_0000_0000
    ensures var data' := data[..4 * i] + Encode(U32Le, v) + data[4 * i + 4..];
      && |data'| == |data| && RefAt(data', i) == v
      && forall j :: 0 <= j && j != i && 4 * j + 4 <= |data| ==> RefAt(data', j) == RefAt(data, j)
  {
    hide Decode, Encode;
    var data' := data[..4 * i] + Encode(U32Le, v) + data[4 * i + 4..];
    assert data'[4 * i..4 * i + 4] == Encode(U32Le, v);
    DecodeEncode(U32Le, v);
    forall j | 0 <= j && j != i && 4 * j + 4 <= |data|
      ensures RefAt(data', j) == RefAt(data, j)
    {
      assert data'[4 * j..4 * j + 4] == data[4 * j..4 * j + 4];
    }
  }

  /** What no pass changes of a node: all but the references of a vertex list. */
  twostate predicate SameNode(node: Node)
    reads node
  {
    && node.opcode == old(node.opcode) && node.length == old(node.length) && |node.data| == |old(node.data)|
    && node.children == old(node.children) && node.parent == old(node.parent) && node.deleted == old(node.deleted)
    && (node.opcode !in {72, 89} ==> node.data == old(node.data))
    && (4 * RefCount(node.length) <= |node.data| ==>
          node.data[4 * RefCount(node.length)..] == old(node.data)[4 * RefCount(node.length)..])
  }

  /** vt_fix_cb. */
  method FixNode(node: Node, rlt: array<nat>)
    requires Readable(node) && InTable(NodeRefs(node), rlt.Length)
    requires forall i :: 0 <= i < |NodeRefs(node)| ==> rlt[NodeRefs(node)[i]] < 0x1_0000_0000
    modifies node`data
    ensures Readable(node) && |NodeRefs(node)| == |old(NodeRefs(node))| && |node.data| == |old(node.data)|
    ensures forall i :: 0 <= i < |NodeRefs(node)| ==> NodeRefs(node)[i] == rlt[old(NodeRefs(node))[i]]
    ensures SameNode(node)
  {
    hide RefAt;
    if !IsVertexList(node.opcode) {
      return;
    }
    ghost var refs := NodeRefs(node);
    var num := RefCount(node.length);
    var i := 0;
    while i < num
      invariant i <= num == |refs| && |node.data| == |old(node.data)|
      invariant forall j :: 0 <= j < i ==> RefAt(node.data, j) == rlt[refs[j]]
      invariant forall j :: i <= j < num ==> RefAt(node.data, j) == refs[j]
      invariant node.data[4 * num..] == old(node.data[4 * num..])
    {
      var o := RefAt(node.data, i);
      assert o == refs[i];
      RefReplaced(node.data, i, rlt[o]);
      node.data := node.data[..4 * i] + Encode(U32Le, rlt[o]) + node.data[4 * i + 4..];
      i := i + 1;
    }
  }

  lemma {:induction false} RefsOfNode(nodes: seq<Node>, n: nat, m: nat)
    requires m < n <= |nodes| && AllReadable(nodes)
    ensures forall r :: r in NodeRefs(nodes[m]) ==> r in AllRefs(nodes, n)
  {
    hide NodeRefs;
    if m < n - 1 {
      RefsOfNode(nodes, n - 1, m);
    }
  }

  lemma {:induction false} RefsGrow(nodes: seq<Node>, m: nat, n: nat)
    requires m <= n <= |nodes| && AllReadable(nodes)
    ensures |AllRefs(nodes, m)| <= |AllRefs(nodes, n)|
  {
    hide NodeRefs;
    if m < n {
      RefsGrow(nodes, m, n - 1);
    }
  }

  lemma StartInside(rs: seq<seq<Byte>>, r: nat)
    requires AllRecords(rs) && r >= BASE && IsStart(rs, r - BASE)
    ensures r < BASE + |Flat(rs)|
  {
    hide Flat, IsRecord;
    var k: nat :| k < |rs| && r - BASE == Start(rs, k);
    FlatAt(rs, k);
    AtLeastFour(rs, k);
  }

  lemma RefsInTable(rs: seq<seq<Byte>>, all: seq<nat>, refs: seq<nat>)
    requires AllRecords(rs) && AllResolve(rs, all) && forall r :: r in refs ==> r in all
    ensures InTable(refs, BASE + |Flat(rs)|)
  {
    hide Flat, IsRecord;
    forall i | 0 <= i < |refs|
      ensures refs[i] < BASE + |Flat(rs)|
    {
      assert refs[i] in all;
      var j: nat :| j < |all| && all[j] == refs[i];
      StartInside(rs, refs[i]);
    }
  }

  /** The traversal that tags the records referred to. */
  method TagAll(nodes: seq<Node>, rlt: array<nat>, ghost rs: seq<seq<Byte>>)
    requires AllReadable(nodes) && AllRecords(rs) && AllResolve(rs, AllRefs(nodes, |nodes|))
    requires |AllRefs(nodes, |nodes|)| < 0x1_0000_0000 && rlt.Length == BASE + |Flat(rs)| && Tagged(rlt, [])
    modifies rlt
    ensures AllReadable(nodes) && Tagged(rlt, AllRefs(nodes, |nodes|))
  {
    hide Flat, IsRecord, Tagged, NodeRefs, AllResolve;
    var n := 0;
    while n < |nodes|
      invariant n <= |nodes| && Tagged(rlt, AllRefs(nodes, n))
    {
      RefsOfNode(nodes, |nodes|, n);
      RefsInTable(rs, AllRefs(nodes, |nodes|), NodeRefs(nodes[n]));
      RefsGrow(nodes, n + 1, |nodes|);
      TagNode(nodes[n], rlt, AllRefs(nodes, n));
      n := n + 1;
    }
  }

  /**
   The compacted buffer becomes the palette; with pooled memory the old buffer is used again if it is large
   enough.
   */
  method Replace(store: Store, buffer: array<Byte>, n: nat, pooled: bool, ghost kept: seq<seq<Byte>>)
    requires store.Valid() && BASE <= n <= buffer.Length && buffer[BASE..n] == Flat(kept) && AllRecords(kept)
    requires buffer != store.data
    modifies store, store.data
    ensures store.Valid() && store.extras == None && store.Records() == kept && store.length == n
    ensures store.data == old(store.data) || fresh(store.data)
  {
    hide Flat, IsRecord;
    if pooled && store.length >= n {
      WriteAt(store.data, 0, buffer[..n]);
    } else {
      var data := new Byte[n];
      WriteAt(data, 0, buffer[..n]);
      store.data := data;
    }
    assert store.data[..n] == buffer[..n];
    assert store.data[BASE..n] == store.data[..n][BASE..] == buffer[..n][BASE..] == buffer[BASE..n];
    store.extras := None;
    store.length := n;
    store.parts := [kept];
    OnePart(kept);
  }

  /** What the table says about every reference. */
  ghost predicate Table(rs: seq<seq<Byte>>, used: seq<bool>, all: seq<nat>, rlt: seq<nat>)
    requires |rs| == |used|
  {
    forall r :: r in all ==> r < |rlt| && MovesTo(rs, used, r, rlt[r]) && rlt[r] < 0x1_0000_0000
  }

  /** These are the references of a node that holds the record. */
  ghost predicate ListOf(r: Record, refs: seq<nat>) {
    r.opcode in {72, 89} ==> 4 * RefCount(r.length) <= |r.data| && refs == Refs(r.data, RefCount(r.length))
  }

  lemma ListsOf(nodes: seq<Node>)
    requires AllReadable(nodes)
    ensures forall n :: 0 <= n < |nodes| ==> ListOf(nodes[n].TheRecord(), NodeRefs(nodes[n]))
  {
    forall n | 0 <= n < |nodes|
      ensures ListOf(nodes[n].TheRecord(), NodeRefs(nodes[n]))
    {
      assert Readable(nodes[n]);
    }
  }

  /** The traversal that rewrites the vertex lists. */
  method FixAll(nodes: seq<Node>, rlt: array<nat>, ghost rs: seq<seq<Byte>>, ghost used: seq<bool>)
    requires AllReadable(nodes) && |rs| == |used| && Table(rs, used, AllRefs(nodes, |nodes|), rlt[..])
    requires forall m, n :: 0 <= m < n < |nodes| ==> nodes[m] != nodes[n]
    modifies set node | node in nodes :: node
    ensures AllReadable(nodes)
    ensures forall n :: 0 <= n < |nodes| ==>
      SameNode(nodes[n]) && Translated(rs, used, old(NodeRefs(nodes[n])), NodeRefs(nodes[n]))
  {
    hide NodeRefs, MovesTo;
    ghost var all := AllRefs(nodes, |nodes|);
    assert forall n :: 0 <= n < |nodes| ==> nodes[n] in nodes;
    forall m | 0 <= m < |nodes|
      ensures forall r :: r in NodeRefs(nodes[m]) ==> r in all
    {
      RefsOfNode(nodes, |nodes|, m);
    }
    var n := 0;
    while n < |nodes|
      invariant n <= |nodes| && AllReadable(nodes)
      invariant forall m :: 0 <= m < |nodes| ==> SameNode(nodes[m])
      invariant forall m :: 0 <= m < n ==> Translated(rs, used, old(NodeRefs(nodes[m])), NodeRefs(nodes[m]))
      invariant forall m :: n <= m < |nodes| ==> NodeRefs(nodes[m]) == old(NodeRefs(nodes[m]))
    {
      ghost var refs := NodeRefs(nodes[n]);
      assert forall i :: 0 <= i < |refs| ==> refs[i] in all;
      FixNode(nodes[n], rlt);
      n := n + 1;
    }
  }

  /** The references of each node, and of all of them. */
  function Concat(lists: seq<seq<nat>>): seq<nat> {
    if lists == [] then [] else Concat(lists[..|lists| - 1]) + lists[|lists| - 1]
  }

  ghost function RefLists(nodes: seq<Node>, n: nat): (lists: seq<seq<nat>>)
    requires n <= |nodes| && AllReadable(nodes)
    reads nodes
    ensures |lists| == n && forall m :: 0 <= m < n ==> lists[m] == NodeRefs(nodes[m])
  {
    if n == 0 then [] else RefLists(nodes, n - 1) + [NodeRefs(nodes[n - 1])]
  }

  lemma {:induction false} AllRefsAreLists(nodes: seq<Node>, n: nat)
    requires n <= |nodes| && AllReadable(nodes)
    ensures AllRefs(nodes, n) == Concat(RefLists(nodes, n))
  {
    hide NodeRefs;
    if n > 0 {
      AllRefsAreLists(nodes, n - 1);
      assert RefLists(nodes, n)[..n - 1] == RefLists(nodes, n - 1);
    }
  }

  lemma {:induction false} ConcatTranslated(rs: seq<seq<Byte>>, used: seq<bool>, a: seq<seq<nat>>, b: seq<seq<nat>>)
    requires |rs| == |used| && |a| == |b| && forall n :: 0 <= n < |a| ==> Translated(rs, used, a[n], b[n])
    ensures Translated(rs, used, Concat(a), Concat(b))
  {
    hide MovesTo;
    if a != [] {
      ConcatTranslated(rs, used, a[..|a| - 1], b[..|b| - 1]);
    }
  }

  /** All references keep their meaning. */
  ghost predicate SameMeaning(rs: seq<seq<Byte>>, rs': seq<seq<Byte>>, refs: seq<nat>, refs': seq<nat>) {
    && |refs| == |refs'|
    && forall i :: 0 <= i < |refs| ==>
      && refs[i] >= BASE && refs'[i] >= BASE && IsStart(rs', refs'[i] - BASE)
      && RecordAt(Flat(rs'), refs'[i] - BASE) == RecordAt(Flat(rs), refs[i] - BASE)
  }

  lemma TranslationKeepsMeaning(rs: seq<seq<Byte>>, used: seq<bool>, refs: seq<nat>, refs': seq<nat>)
    requires |rs| == |used| && AllRecords(rs) && Translated(rs, used, refs, refs')
    ensures SameMeaning(rs, Kept(rs, used, |rs|), refs, refs')
  {
    hide MovesTo, IsRecord, Flat, RecordAt, Kept, IsStart;
    forall i | 0 <= i < |refs|
      ensures refs[i] >= BASE && refs'[i] >= BASE && IsStart(Kept(rs, used, |rs|), refs'[i] - BASE)
      ensures RecordAt(Flat(Kept(rs, used, |rs|)), refs'[i] - BASE) == RecordAt(Flat(rs), refs[i] - BASE)
    {
      MoveKeepsMeaning(rs, used, refs[i], refs'[i]);
    }
  }

  /** After compaction every record is referred to: there is nothing left to drop, and nothing to move. */
  lemma NothingLeft(rs: seq<seq<Byte>>, refs: seq<nat>, refs': seq<nat>)
    requires AllRecords(rs) && Translated(rs, UsedBy(rs, refs), refs, refs')
    ensures var kept := Kept(rs, UsedBy(rs, refs), |rs|);
      && AllRecords(kept) && AllResolve(kept, refs')
      && Kept(kept, UsedBy(kept, refs'), |kept|) == kept
      && forall r, r' :: MovesTo(kept, UsedBy(kept, refs'), r, r') ==> r' == r
  {
    hide IsRecord, Flat, RecordAt, UsedBy, MovesTo, Kept, Start, IsStart, Translated;
    var used := UsedBy(rs, refs);
    var kept := Kept(rs, used, |rs|);
    var used' := UsedBy(kept, refs');
    KeptAreRecords(rs, used, |rs|);
    TranslationKeepsMeaning(rs, used, refs, refs');
    forall j | 0 <= j < |kept|
      ensures used'[j]
    {
      StillUsed(rs, refs, refs', j);
      UsedAt(kept, refs', j);
    }
    AllKept(kept, used', |kept|);
    assert kept[..|kept|] == kept;
    forall r, r' | MovesTo(kept, used', r, r')
      ensures r' == r
    {
      NoMove(kept, used', r, r');
    }
  }

  lemma NoMove(rs: seq<seq<Byte>>, used: seq<bool>, r: nat, r': nat)
    requires |rs| == |used| && (forall k :: 0 <= k < |rs| ==> used[k]) && MovesTo(rs, used, r, r')
    ensures r' == r
  {
    hide Flat;
    var k: nat :| k < |rs| && used[k] && r == BASE + Start(rs, k) && r' == BASE + NewStart(rs, used, k);
    AllKept(rs, used, k);
  }

  lemma StillUsed(rs: seq<seq<Byte>>, refs: seq<nat>, refs': seq<nat>, j: nat)
    requires AllRecords(rs) && Translated(rs, UsedBy(rs, refs), refs, refs')
    requires j < |Kept(rs, UsedBy(rs, refs), |rs|)|
    ensures BASE + Start(Kept(rs, UsedBy(rs, refs), |rs|), j) in refs'
  {
    hide IsRecord, Flat, UsedBy, MovesTo, Kept;
    var used := UsedBy(rs, refs);
    var kept := Kept(rs, used, |rs|);
    var k := KeptOnlyUsed(rs, used, |rs|, j);
    KeptSplit(rs, used, k, |rs|);
    UsedAt(rs, refs, k);
    var i: nat :| i < |refs| && refs[i] == BASE + Start(rs, k);
    MovedFrom(rs, used, refs[i], refs'[i], k);
    assert refs'[i] in refs';
  }

  /** Tagging, and compaction into a buffer: both the palette and the vertex lists are still as they were. */
  method CompactInto(store: Store, nodes: seq<Node>) returns (rlt: array<nat>, buffer: array<Byte>, n: nat)
    requires store.Valid() && store.Total() < 0x1_0000_0000 && AllReadable(nodes)
    requires AllResolve(store.Records(), AllRefs(nodes, |nodes|)) && |AllRefs(nodes, |nodes|)| < 0x1_0000_0000
    ensures store.Valid() && AllReadable(nodes) && fresh(rlt) && fresh(buffer)
    ensures var rs, refs := store.Records(), AllRefs(nodes, |nodes|);
      var kept := Kept(rs, UsedBy(rs, refs), |rs|);
      && BASE <= n <= buffer.Length && buffer[BASE..n] == Flat(kept) && AllRecords(kept)
      && AllRecords(rs) && Table(rs, UsedBy(rs, refs), refs, rlt[..])
  {
    hide Flat, IsRecord, Progress, RecordAt, NodeRefs, AllResolve, Tagged, Kept, UsedBy, Store.Distinct, AllParts,
         MovesTo, Table, AllReadable;
    ghost var rs, refs := store.Records(), AllRefs(nodes, |nodes|);
    store.ValidRecords();
    var length := store.SumPositions();
    rlt := new nat[length](_ => 0);
    NothingTagged(rlt);
    TagAll(nodes, rlt, rs);
    buffer := new Byte[length](_ => 0);
    TaggedProgress(rs, refs, buffer, rlt);
    var orig_length, offset := Compact(store, buffer, rlt, UsedBy(rs, refs));
    ProgressEnd(rs, UsedBy(rs, refs), buffer[..], rlt[..], offset);
    n := orig_length - offset;
    assert buffer[..][BASE..n] == buffer[BASE..n];
    WholeTable(rs, refs, buffer[..], rlt[..], offset);
  }

  /** Tagging and compaction: the vertex lists are still as they were. */
  method CompactStore(store: Store, nodes: seq<Node>, pooled: bool) returns (rlt: array<nat>)
    requires store.Valid() && store.Total() < 0x1_0000_0000 && AllReadable(nodes)
    requires AllResolve(store.Records(), AllRefs(nodes, |nodes|)) && |AllRefs(nodes, |nodes|)| < 0x1_0000_0000
    modifies store, store.data
    ensures store.Valid() && store.extras == None && AllReadable(nodes) && fresh(rlt)
    ensures store.data == old(store.data) || fresh(store.data)
    ensures var rs, refs := old(store.Records()), AllRefs(nodes, |nodes|);
      && AllRecords(rs) && store.Records() == Kept(rs, UsedBy(rs, refs), |rs|) &&
         Table(rs, UsedBy(rs, refs), refs, rlt[..])
  {
    hide Flat, IsRecord, Progress, RecordAt, NodeRefs, AllResolve, Tagged, Kept, UsedBy, Store.Distinct, AllParts,
         MovesTo, Table, AllReadable;
    ghost var rs, refs := store.Records(), AllRefs(nodes, |nodes|);
    var buffer, n;
    rlt, buffer, n := CompactInto(store, nodes);
    Replace(store, buffer, n, pooled, Kept(rs, UsedBy(rs, refs), |rs|));
  }

  /** What a vertex list is translated to, said of its bytes. */
  lemma ListMoved(node: Node, d: seq<Byte>, refs: seq<nat>, rs: seq<seq<Byte>>, used: seq<bool>)
    requires node.opcode in {72, 89} && node.length - 4 >= |node.data| == |d| && Readable(node)
    requires |used| == |rs| && AllRecords(rs) && 4 * RefCount(node.length) <= |d|
    requires refs == Refs(d, RefCount(node.length)) && Translated(rs, used, refs, NodeRefs(node))
    ensures WordsKeepMeaning(rs, Kept(rs, used, |rs|), d, node.data)
  {
    hide Flat, IsRecord, Kept, Translated, MovesTo, WordsKeepMeaning, Refs, RefAt;
    WordsMoved(rs, used, node.length, d, node.data);
  }

  ghost function HeldBy(nodes: seq<Node>): (rs: seq<Record>)
    reads nodes
    ensures |rs| == |nodes| && forall n :: 0 <= n < |nodes| ==> rs[n] == nodes[n].TheRecord()
  {
    seq(|nodes|, n requires 0 <= n < |nodes| reads nodes => nodes[n].TheRecord())
  }

  lemma AllListsMoved(nodes: seq<Node>, olds: seq<Record>, lists: seq<seq<nat>>, rs: seq<seq<Byte>>, used: seq<bool>)
    requires |olds| == |lists| == |nodes| && |used| == |rs| && AllRecords(rs) && AllReadable(nodes)
    requires forall n :: 0 <= n < |nodes| ==>
      && ListOf(olds[n], lists[n]) && nodes[n].opcode == olds[n].opcode && nodes[n].length == olds[n].length
      && |nodes[n].data| == |olds[n].data|
    requires forall n :: 0 <= n < |nodes| ==> Translated(rs, used, lists[n], NodeRefs(nodes[n]))
    ensures forall n :: 0 <= n < |nodes| && nodes[n].opcode in {72, 89} && nodes[n].length - 4 >= |nodes[n].data| ==>
      WordsKeepMeaning(rs, Kept(rs, used, |rs|), olds[n].data, nodes[n].data)
  {
    hide Flat, IsRecord, Kept, Translated, MovesTo, WordsKeepMeaning, Refs, NodeRefs;
    forall n | 0 <= n < |nodes| && nodes[n].opcode in {72, 89} && nodes[n].length - 4 >= |nodes[n].data|
      ensures WordsKeepMeaning(rs, Kept(rs, used, |rs|), olds[n].data, nodes[n].data)
    {
      assert Readable(nodes[n]) && ListOf(olds[n], lists[n]);
      ListMoved(nodes[n], olds[n].data, lists[n], rs, used);
    }
  }

  /** The traversal that rewrites, and what it does to all references. */
  method FixNodes(nodes: seq<Node>, ghost lists: seq<seq<nat>>, rlt: array<nat>, ghost rs: seq<seq<Byte>>,
                  ghost refs: seq<nat>, ghost used: seq<bool>)
    requires AllReadable(nodes) && forall m, n :: 0 <= m < n < |nodes| ==> nodes[m] != nodes[n]
    requires |rs| == |used| && AllRecords(rs) && refs == AllRefs(nodes, |nodes|) == Concat(lists)
    requires lists == RefLists(nodes, |nodes|) && Table(rs, used, refs, rlt[..])
    modifies set node | node in nodes :: node
    ensures AllReadable(nodes) && forall n :: 0 <= n < |nodes| ==> SameNode(nodes[n])
    ensures Translated(rs, used, refs, AllRefs(nodes, |nodes|))
    ensures SameMeaning(rs, Kept(rs, used, |rs|), refs, AllRefs(nodes, |nodes|))
    ensures forall n :: 0 <= n < |nodes| && nodes[n].opcode in {72, 89} && nodes[n].length - 4 >= |nodes[n].data| ==>
      WordsKeepMeaning(rs, Kept(rs, used, |rs|), old(nodes[n].data), nodes[n].data)
  {
    hide Flat, IsRecord, RecordAt, NodeRefs, Kept, Translated, SameMeaning, MovesTo, Table, AllRefs, Concat,
         AllReadable, RefLists, IsStart, WordsKeepMeaning, Refs, ListOf;
    ghost var olds := HeldBy(nodes);
    ListsOf(nodes);
    FixAll(nodes, rlt, rs, used);
    AllTranslated(nodes, lists, rs, refs, used);
    AllListsMoved(nodes, olds, lists, rs, used);
  }

  /** prf_model_vertex_palette_optimize, on the nodes that its traversals visit. */
  method Optimize(store: Store, nodes: seq<Node>, pooled: bool)
    requires store.Valid() && store.Total() < 0x1_0000_0000
    requires AllReadable(nodes) && forall m, n :: 0 <= m < n < |nodes| ==> nodes[m] != nodes[n]
    requires AllResolve(store.Records(), AllRefs(nodes, |nodes|)) && |AllRefs(nodes, |nodes|)| < 0x1_0000_0000
    modifies store, store.data, set node | node in nodes :: node
    ensures store.Valid() && store.extras == None && AllReadable(nodes)
    ensures store.data == old(store.data) || fresh(store.data)
    ensures forall n :: 0 <= n < |nodes| ==> SameNode(nodes[n])
    ensures var rs, refs := old(store.Records()), old(AllRefs(nodes, |nodes|));
      && store.Records() == Kept(rs, UsedBy(rs, refs), |rs|)
      && Translated(rs, UsedBy(rs, refs), refs, AllRefs(nodes, |nodes|))
      && SameMeaning(rs, store.Records(), refs, AllRefs(nodes, |nodes|))
    ensures forall n :: 0 <= n < |nodes| && nodes[n].opcode in {72, 89} && nodes[n].length - 4 >= |nodes[n].data| ==>
      WordsKeepMeaning(old(store.Records()), store.Records(), old(nodes[n].data), nodes[n].data)
  {
    hide Flat, IsRecord, RecordAt, NodeRefs, AllResolve, Kept, UsedBy, Store.Distinct, AllParts, Translated,
         SameMeaning, MovesTo, Table, AllRefs, Concat, AllReadable, RefLists, IsStart, WordsKeepMeaning, Refs;
    ghost var rs, refs, lists := store.Records(), AllRefs(nodes, |nodes|), RefLists(nodes, |nodes|);
    AllRefsAreLists(nodes, |nodes|);
    var rlt := CompactStore(store, nodes, pooled);
    FixNodes(nodes, lists, rlt, rs, refs, UsedBy(rs, refs));
  }

  lemma NothingTagged(rlt: array<nat>)
    requires forall o :: 0 <= o < rlt.Length ==> rlt[o] == 0
    ensures Tagged(rlt, [])
  {
  }

  lemma ProgressEnd(rs: seq<seq<Byte>>, used: seq<bool>, buffer: seq<Byte>, rlt: seq<nat>, offset: nat)
    requires Progress(rs, used, |rs|, buffer, rlt, offset)
    ensures |used| == |rs| && BASE <= BASE + |Flat(rs)| - offset <= |buffer|
    ensures buffer[BASE..BASE + |Flat(rs)| - offset] == Flat(Kept(rs, used, |rs|)) && AllRecords(Kept(rs, used, |rs|))
  {
    hide Flat, IsRecord;
    StartEnd(rs);
    KeptAreRecords(rs, used, |rs|);
  }

  lemma WholeTable(rs: seq<seq<Byte>>, refs: seq<nat>, buffer: seq<Byte>, rlt: seq<nat>, offset: nat)
    requires AllResolve(rs, refs) && Progress(rs, UsedBy(rs, refs), |rs|, buffer, rlt, offset) && |rlt| < 0x1_0000_0000
    ensures Table(rs, UsedBy(rs, refs), refs, rlt)
  {
    hide Progress, AllResolve, MovesTo, UsedBy;
    forall r | r in refs
      ensures r < |rlt| && MovesTo(rs, UsedBy(rs, refs), r, rlt[r]) && rlt[r] < 0x1_0000_0000
    {
      TableMoves(rs, UsedBy(rs, refs), refs, r, buffer, rlt, offset);
    }
  }

  /** What the traversals did to each node, said of all references together. */
  lemma AllTranslated(nodes: seq<Node>, lists: seq<seq<nat>>, rs: seq<seq<Byte>>, refs: seq<nat>, used: seq<bool>)
    requires AllReadable(nodes) && |lists| == |nodes| && |used| == |rs| && AllRecords(rs)
    requires refs == Concat(lists)
    requires forall n :: 0 <= n < |nodes| ==> Translated(rs, used, lists[n], NodeRefs(nodes[n]))
    ensures Translated(rs, used, refs, AllRefs(nodes, |nodes|))
    ensures SameMeaning(rs, Kept(rs, used, |rs|), refs, AllRefs(nodes, |nodes|))
  {
    hide Translated, SameMeaning, NodeRefs, IsRecord, Kept;
    AllRefsAreLists(nodes, |nodes|);
    ConcatTranslated(rs, used, lists, RefLists(nodes, |nodes|));
    TranslationKeepsMeaning(rs, used, refs, AllRefs(nodes, |nodes|));
  }

  /** A second run finds nothing to do: two runs leave what one leaves. */
  method OptimizeTwice(store: Store, nodes: seq<Node>, pooled: bool)
    requires store.Valid() && store.Total() < 0x1_0000_0000
    requires AllReadable(nodes) && forall m, n :: 0 <= m < n < |nodes| ==> nodes[m] != nodes[n]
    requires AllResolve(store.Records(), AllRefs(nodes, |nodes|)) && |AllRefs(nodes, |nodes|)| < 0x1_0000_0000
    modifies store, store.data, set node | node in nodes :: node
    ensures store.Valid() && AllReadable(nodes)
    ensures var rs, refs := old(store.Records()), old(AllRefs(nodes, |nodes|));
      && store.Records() == Kept(rs, UsedBy(rs, refs), |rs|)
      && Translated(rs, UsedBy(rs, refs), refs, AllRefs(nodes, |nodes|))
      && SameMeaning(rs, store.Records(), refs, AllRefs(nodes, |nodes|))
  {
    hide Flat, IsRecord, RecordAt, NodeRefs, Kept, UsedBy, Store.Distinct, AllParts, MovesTo, AllRefs, AllReadable,
         AllResolve, IsStart, Translated, SameMeaning, SameNode;
    ghost var rs, before := store.Records(), AllRefs(nodes, |nodes|);
    store.ValidRecords();
    Optimize(store, nodes, pooled);
    ghost var once, refs := store.Records(), AllRefs(nodes, |nodes|);
    NothingLeft(rs, before, refs);
    KeptShorter(rs, before);
    LikeLengths(rs, UsedBy(rs, before), before, refs);
    Optimize(store, nodes, pooled);
    Unmoved(once, refs, AllRefs(nodes, |nodes|));
  }

  lemma KeptShorter(rs: seq<seq<Byte>>, refs: seq<nat>)
    ensures |Flat(Kept(rs, UsedBy(rs, refs), |rs|))| <= |Flat(rs)|
  {
    hide Flat, UsedBy, Kept;
    NewStartBefore(rs, UsedBy(rs, refs), |rs|);
    StartEnd(rs);
  }

  lemma LikeLengths(rs: seq<seq<Byte>>, used: seq<bool>, refs: seq<nat>, refs': seq<nat>)
    requires |rs| == |used| && Translated(rs, used, refs, refs')
    ensures |refs| == |refs'|
  {
  }

  lemma Unmoved(rs: seq<seq<Byte>>, refs: seq<nat>, refs': seq<nat>)
    requires Translated(rs, UsedBy(rs, refs), refs, refs')
    requires forall r, r' :: MovesTo(rs, UsedBy(rs, refs), r, r') ==> r' == r
    ensures refs' == refs
  {
    hide MovesTo, UsedBy;
  }

  /** The nodes a traversal with a callback that always continues visits. */
  method Visited(root: Node, dec: Decoder, ghost t: Tree, ghost S: set<object>) returns (nodes: seq<Node>)
    requires t.node == root && Linked(t, S)
    ensures |nodes| == |List([t], 0, 0)| && forall k :: 0 <= k < |nodes| ==> nodes[k] == List([t], 0, 0)[k].node
  {
    hide Linked, List, Preorder, Walk, Enter;
    var state := new TraversalState();
    var cb: Callback := h => Continue;
    WalkAll([t], 0, state.Top(), 0, cb, dec, []);
    PreorderShowsList([t], 0, state.Top(), 0, dec);
    var trace, traverse := TraverseIo(root, state, cb, dec, t, S);
    nodes := seq(|trace|, k requires 0 <= k < |trace| => trace[k].node);
  }

  /**
   prf_model_vertex_palette_optimize: one traversal that tags, and one that rewrites.  What is compacted
   between them is no part of the hierarchy, so both visit the same nodes.
   */
  method OptimizeModel(root: Node, store: Store, pooled: bool, dec: Decoder, ghost t: Tree, ghost S: set<object>,
                       ghost ns: seq<Node>)
    requires t.node == root && Linked(t, S) && NodesApart([t]) && ns == ListNodes(List([t], 0, 0))
    requires store.Valid() && store.Total() < 0x1_0000_0000 && store !in S && store.data !in S
    requires AllReadable(ns) && AllResolve(store.Records(), AllRefs(ns, |ns|)) && |AllRefs(ns, |ns|)| < 0x1_0000_0000
    modifies store, store.data, set node | node in ns :: node
    ensures store.Valid() && store.extras == None && AllReadable(ns)
    ensures forall n :: 0 <= n < |ns| ==> SameNode(ns[n])
    ensures var rs, refs := old(store.Records()), old(AllRefs(ns, |ns|));
      && store.Records() == Kept(rs, UsedBy(rs, refs), |rs|)
      && Translated(rs, UsedBy(rs, refs), refs, AllRefs(ns, |ns|))
      && SameMeaning(rs, store.Records(), refs, AllRefs(ns, |ns|))
    ensures forall n :: 0 <= n < |ns| && ns[n].opcode in {72, 89} && ns[n].length - 4 >= |ns[n].data| ==>
      WordsKeepMeaning(old(store.Records()), store.Records(), old(ns[n].data), ns[n].data)
  {
    hide Linked, NodesApart, List, Flat, IsRecord, RecordAt, NodeRefs, Kept, UsedBy, AllParts, MovesTo, AllRefs,
         AllReadable, AllResolve, IsStart, Translated, SameMeaning, Store.Distinct, Table, Concat, RefLists,
         WordsKeepMeaning, Refs;
    ghost var rs, refs, lists := store.Records(), AllRefs(ns, |ns|), RefLists(ns, |ns|);
    AllRefsAreLists(ns, |ns|);
    NoneListedTwice(t, ns);
    var tagged := Visited(root, dec, t, S);
    assert tagged == ns;
    var rlt := CompactStore(store, tagged, pooled);
    var fixed := Visited(root, dec, t, S);
    assert fixed == ns;
    FixNodes(fixed, lists, rlt, rs, refs, UsedBy(rs, refs));
  }

  lemma NoneListedTwice(t: Tree, ns: seq<Node>)
    requires NodesApart([t]) && ns == ListNodes(List([t], 0, 0))
    ensures forall m, n :: 0 <= m < n < |ns| ==> ns[m] != ns[n]
  {
    hide NodesApart, List;
    forall m, n | 0 <= m < n < |ns|
      ensures ns[m] != ns[n]
    {
      ListApart([t], 0, 0, m, n);
    }
  }

  function ListNodes(es: seq<Entry>): (ns: seq<Node>)
    ensures |ns| == |es| && forall k :: 0 <= k < |es| ==> ns[k] == es[k].node
  {
    seq(|es|, k requires 0 <= k < |es| => es[k].node)
  }
}
