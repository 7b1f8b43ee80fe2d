/**
 prf_model_clone of a model with a vertex palette: hierarchy and palette are cloned, what is in the pools
 is merged into the clone's palette, and the vertex lists of the clone go on meaning what they meant.
 */
module ModelCloner {
  import opened Bytes
  import opened Hierarchy
  import opened InOrder
  import opened Listing
  import opened Cloner
  import C = Compaction
  import P = Palette
  import F = PaletteFile
  import Saver
  import opened Wrappers

  /** Nodes that hold the same records refer to the same offsets. */
  lemma {:induction false} SameRefs(ns: seq<Node>, ms: seq<Node>, n: nat)
    requires |ns| == |ms| && n <= |ns| && (forall k :: 0 <= k < |ns| ==> ms[k].TheRecord() == ns[k].TheRecord())
    requires C.AllReadable(ns)
    ensures C.AllReadable(ms) && C.AllRefs(ms, n) == C.AllRefs(ns, n)
  {
    forall k | 0 <= k < |ms|
      ensures C.Readable(ms[k])
    {
      assert C.Readable(ns[k]);
      assert ms[k].TheRecord() == ns[k].TheRecord();
    }
    if n > 0 {
      SameRefs(ns, ms, n - 1);
      assert ms[n - 1].TheRecord() == ns[n - 1].TheRecord();
    }
  }

  /** Hierarchies of the same shape list the same records. */
  lemma SameListed(t: Tree, us: seq<Tree>, S: set<object>, U: set<object>)
    requires Linked(t, S) && |us| == 1 && Linked(us[0], U) && ShapesOf(us, 0) == ShapesOf([t], 0)
    ensures var es, fs := List([t], 0, 0), List(us, 0, 0);
      |es| == |fs| && forall k :: 0 <= k < |es| ==> fs[k].node.TheRecord() == es[k].node.TheRecord()
  {
    hide List, Lines, ShapesOf, Linked;
    var es, fs := List([t], 0, 0), List(us, 0, 0);
    ListIsLines([t], 0, 0);
    ListIsLines(us, 0, 0);
    Saver.ListHeld([t], 0, 0, S);
    assert us == [us[0]];
    Saver.ListHeld(us, 0, 0, U);
    forall k | 0 <= k < |es|
      ensures fs[k].node.TheRecord() == es[k].node.TheRecord()
    {
      assert LinesOf(es)[k] == LinesOf(fs)[k];
    }
  }

  lemma StillResolve(rs: seq<seq<Byte>>, refs: seq<nat>)
    requires C.AllResolve(rs, refs)
    ensures C.SameMeaning(rs, rs, refs, refs)
  {
    hide P.IsStart, P.RecordAt, P.Flat;
  }

  /**
   The clone of a model has the shape of its undeleted part and a palette without pools, in which each
   reference of a vertex list finds the record it finds in the original, be it in a pool there.
   */
  method CloneModel(root: Node, palette: P.Store, dec: Decoder, ghost t: Tree, ghost S: set<object>,
                    ghost ns: seq<Node>)
    returns (header: Node?, copy: P.Store, ghost us: seq<Tree>, ghost U: set<object>, ghost ms: seq<Node>)
    requires t.node == root && Linked(t, S) && Clonable(List([t], 0, 0)) && !t.info.deleted
    requires palette.Valid() && ns == C.ListNodes(List([t], 0, 0)) && C.AllReadable(ns)
    requires C.AllResolve(palette.Records(), C.AllRefs(ns, |ns|))
    ensures header != null && |us| == 1 && header == us[0].node && fresh(U) && Linked(us[0], U) && Parented(us[0], U)
    ensures ShapesOf(us, 0) == ShapesOf([t], 0) && NodesApart(us)
    ensures copy.Valid() && fresh(copy) && fresh(copy.data) && copy.extras == None &&
            copy.Records() == palette.Records()
    ensures ms == C.ListNodes(List(us, 0, 0)) && C.AllReadable(ms) && C.AllReadable(ns)
    ensures C.AllRefs(ms, |ms|) == C.AllRefs(ns, |ns|)
    ensures C.SameMeaning(palette.Records(), copy.Records(), C.AllRefs(ns, |ns|), C.AllRefs(ms, |ms|))
  {
    hide Linked, Parented, List, ShapesOf, NodesApart, Clonable, C.AllRefs, C.AllReadable, C.AllResolve, C.SameMeaning,
         P.Store.PoolHolds, P.Store.Distinct, P.AllParts, P.Flat, P.IsRecord;
    ghost var refs := C.AllRefs(ns, |ns|);
    header, us, U := Clone(root, dec, t, S);
    SameListed(t, us, S, U);
    ms := C.ListNodes(List(us, 0, 0));
    SameRefs(ns, ms, |ns|);
    StillResolve(palette.Records(), refs);
    copy := F.ClonePalette(palette);
  }
}
