/**
 prf_model_save: an in-order traversal whose callback writes each node as a record.
 */
module Saver {
  import opened Bytes
  import opened BFile
  import opened Codecs
  import opened State
  import opened Hierarchy
  import opened InOrder
  import opened Listing
  import opened Palette
  import opened PaletteFile
  import opened Records
  import opened Wrappers

  function RecordsOf(es: seq<Entry>): (rs: seq<Record>)
    ensures |rs| == |es| && forall k :: 0 <= k < |es| ==> rs[k] == es[k].info.record
  {
    seq(|es|, k requires 0 <= k < |es| => es[k].info.record)
  }

  /** The nodes of a listing hold what it says. */
  ghost predicate Held(es: seq<Entry>, S: set<object>)
    reads S
  {
    forall k :: 0 <= k < |es| ==> es[k].node in S && es[k].node.TheInfo() == es[k].info
  }

  lemma HeldSum(a: seq<Entry>, b: seq<Entry>, S: set<object>)
    requires Held(a, S) && Held(b, S)
    ensures Held(a + b, S)
  {
  }

  lemma {:induction false} ListHeld(ts: seq<Tree>, i: nat, level: nat, S: set<object>)
    requires i <= |ts| && AllLinked(ts, S)
    ensures Held(List(ts, i, level), S)
    decreases ts, |ts| - i
  {
    if i < |ts| {
      assert Linked(ts[i], S);
      ListHeld(ts, i + 1, level, S);
      if !ts[i].info.deleted {
        ListHeld(ts[i].kids, 0, level + 1, S);
        HeldSum([Entry(ts[i].node, ts[i].info, level)], List(ts[i].kids, 0, level + 1), S);
        HeldSum([Entry(ts[i].node, ts[i].info, level)] + List(ts[i].kids, 0, level + 1), List(ts, i + 1, level), S);
      }
    }
  }

  /** The record of a node as it is saved: a vertex palette has the records of the model's palette and pools. */
  function Written(r: Record, palette: Option<seq<Byte>>): Record {
    if r.opcode == VERTEX_PALETTE && palette.Some? then r.(data := palette.value) else r
  }

  function AllWritten(rs: seq<Record>, palette: Option<seq<Byte>>): (ws: seq<Record>)
    ensures |ws| == |rs| && forall k :: 0 <= k < |rs| ==> ws[k] == Written(rs[k], palette)
  {
    seq(|rs|, k requires 0 <= k < |rs| => Written(rs[k], palette))
  }

  /** Records that the save functions write as they were loaded. */
  ghost predicate Saveable(r: Record) {
    WellFormed(r) && (r.opcode != VERTEX_PALETTE ==> Preserved(r.opcode, r.length))
  }

  ghost predicate AllSaveable(rs: seq<Record>) {
    forall k :: 0 <= k < |rs| ==> Saveable(rs[k])
  }

  /** A palette that a file can take, apart from the stream it is written to. */
  ghost predicate Ready(palette: Store?, w: Writer)
    reads palette, if palette == null then {} else {palette.data}
    reads if palette == null then [] else palette.Pools()
    reads set p | palette != null && p in palette.Pools() :: p.data
  {
    palette != null ==>
      && palette.Valid() && Sizable(palette.Records())
      && w.buffer != palette.data && forall p :: p in palette.Pools() ==> p.data != w.buffer
  }

  ghost function DataOf(palette: Store?): Option<seq<Byte>>
    reads palette
  {
    if palette == null || !Sizable(palette.Records()) then None else Some(PaletteData(palette.Records()))
  }

  /** save_cb.  Payloads are kept as they are in the file, except that of the model's palette. */
  method SaveNode(node: Node, palette: Store?, w: Writer)
    requires w.Valid() && Saveable(node.TheRecord()) && Ready(palette, w)
    modifies w, w.buffer
    ensures w.Valid() && Ready(palette, w) && DataOf(palette) == old(DataOf(palette))
    ensures w.Contents() == old(w.Contents()) + RecordBytes(Written(node.TheRecord(), DataOf(palette)))
  {
    hide Writer.Contents, Encode, Sizable, PaletteData, Store.PoolHolds, Store.Distinct, Extent, IsRecord, Flat,
         AllParts;
    ghost var before := w.Contents();
    if node.opcode == VERTEX_PALETTE && palette != null {
      SavePalette(palette, node.length, w);
    } else {
      w.PutWord(U16Be, node.opcode);
      w.PutWord(U16Be, node.length);
      ghost var sofar := w.Contents();
      var n := |node.data|;
      if n > 0 {
        var bytes := node.data;
        var data := new Byte[n](i requires 0 <= i < |bytes| => bytes[i]);
        assert data[0..n] == bytes;
        w.Write(data, 0, n);
      }
      assert w.Contents() == sofar + node.data;
      AppendTwice(before, Encode(U16Be, node.opcode), Encode(U16Be, node.length));
      AppendTwice(before, Encode(U16Be, node.opcode) + Encode(U16Be, node.length), node.data);
    }
  }

  /** The file gets the records of the undeleted nodes, parents before children. */
  method Save(root: Node, palette: Store?, w: Writer, dec: Decoder, ghost t: Tree, ghost S: set<object>)
    requires t.node == root && Linked(t, S) && AllSaveable(RecordsOf(List([t], 0, 0)))
    requires w.Valid() && w !in S && w.buffer !in S && Ready(palette, w)
    modifies w, w.buffer
    ensures w.Valid() && DataOf(palette) == old(DataOf(palette))
    ensures w.Contents() == old(w.Contents()) + AllBytes(AllWritten(RecordsOf(List([t], 0, 0)), DataOf(palette)))
  {
    hide Linked, List, Preorder, Saveable, AllBytes, Walk, RecordBytes, Writer.Contents, Sizable, PaletteData,
         Store.PoolHolds, Store.Distinct, IsRecord, Flat, AllParts;
    ghost var es := List([t], 0, 0);
    ghost var rs, data := AllWritten(RecordsOf(es), DataOf(palette)), DataOf(palette);
    var trace := Shown(root, dec, palette, w, t, S);
    var k := 0;
    NoBytes();
    while k < |trace|
      invariant k <= |trace| == |es|
      invariant Held(es, S) && w.Valid() && Ready(palette, w) && DataOf(palette) == data
      invariant w.Contents() == old(w.Contents()) + AllBytes(rs[..k])
    {
      SaveNode(trace[k], palette, w);
      AllBytesGrow(rs[..k], rs[k]);
      AppendTwice(old(w.Contents()), AllBytes(rs[..k]), RecordBytes(rs[k]));
      assert rs[..k + 1] == rs[..k] + [rs[k]];
      k := k + 1;
    }
    assert rs[..k] == rs;
  }

  /** The nodes that the in-order traversal shows. */
  method Shown(root: Node, dec: Decoder, palette: Store?, w: Writer, ghost t: Tree, ghost S: set<object>)
    returns (nodes: seq<Node>)
    requires t.node == root && Linked(t, S) && w.Valid() && Ready(palette, w)
    ensures w.Valid() && Ready(palette, w) && DataOf(palette) == old(DataOf(palette)) &&
            w.Contents() == old(w.Contents())
    ensures Held(List([t], 0, 0), S) && |nodes| == |List([t], 0, 0)|
    ensures forall k :: 0 <= k < |nodes| ==> nodes[k] == List([t], 0, 0)[k].node
  {
    hide Linked, List, Preorder, Walk, Sizable, PaletteData, Store.PoolHolds, Store.Distinct, IsRecord, Flat, AllParts;
    var state := new TraversalState();
    var cb: Callback := h => Continue;
    WalkAll([t], 0, state.Top(), 0, cb, dec, []);
    PreorderShowsList([t], 0, state.Top(), 0, dec);
    ListHeld([t], 0, 0, S);
    var trace, traverse := TraverseIo(root, state, cb, dec, t, S);
    nodes := seq(|trace|, k requires 0 <= k < |trace| => trace[k].node);
  }
}
