/**
 prf_model_destroy: a depth-first traversal whose callback frees the array of a node's children and the
 node.  Nothing is freed twice, and nothing before everything below it.
 */
module Destroyer {
  import opened BFile
  import opened Hierarchy
  import opened InOrder
  import opened DepthFirst
  import opened Matrix
  import opened Records
  import opened Grammar
  import opened Loader
  import opened Release
  import RoundTrip

  ghost predicate NoneTwice<T>(s: seq<T>) {
    forall k, l :: 0 <= k < l < |s| ==> s[k] != s[l]
  }

  lemma {:induction false} LinkedAt(ts: seq<Tree>, p: Path, S: set<object>)
    requires AllLinked(ts, S) && IsPath(ts, p)
    ensures Linked(TreeAt(ts, p), S)
    decreases |p|
  {
    assert Linked(ts[p[0]], S);
    if |p| > 1 {
      LinkedAt(ts[p[0]].kids, p[1..], S);
    }
  }

  lemma {:induction false} FirstKid(ts: seq<Tree>, p: Path)
    requires IsPath(ts, p) && TreeAt(ts, p).kids != []
    ensures IsPath(ts, p + [0]) && TreeAt(ts, p + [0]) == TreeAt(ts, p).kids[0]
    decreases |p|
  {
    if |p| == 1 {
      assert (p + [0])[1..] == [0];
    } else {
      FirstKid(ts[p[0]].kids, p[1..]);
      assert (p + [0])[1..] == p[1..] + [0];
    }
  }

  /** Where no node is at two positions no array is either. */
  lemma ArraysApart(ts: seq<Tree>, p: Path, q: Path, S: set<object>)
    requires AllLinked(ts, S) && NodesApart(ts) && IsPath(ts, p) && IsPath(ts, q)
    ensures TreeAt(ts, p).node in S && TreeAt(ts, q).node in S
    ensures TreeAt(ts, p).node.children == TreeAt(ts, q).node.children && TreeAt(ts, p).node.children != null ==> p == q
  {
    hide NodesApart;
    LinkedAt(ts, p, S);
    LinkedAt(ts, q, S);
    var t, u := TreeAt(ts, p), TreeAt(ts, q);
    if t.node.children == u.node.children && t.node.children != null {
      FirstKid(ts, p);
      FirstKid(ts, q);
      assert t.kids[0].node == Nodes(t.kids)[0] == Nodes(u.kids)[0] == u.kids[0].node;
      SamePosition(ts, p + [0], q + [0]);
      assert p == (p + [0])[..|p|] && q == (q + [0])[..|q|];
    }
  }

  /** The callbacks of a whole depth-first walk, position by position. */
  ghost predicate InPostorder(ts: seq<Tree>, nodes: seq<Node>) {
    && |nodes| == Size(ts, 0)
    && (forall p: Path :: IsPath(ts, p) ==>
        PostIndex(ts, 0, p) < |nodes| && nodes[PostIndex(ts, 0, p)] == TreeAt(ts, p).node)
    && (forall p: Path, q: Path :: IsPath(ts, p) && IsPath(ts, q) && p < q ==>
        PostIndex(ts, 0, q) < PostIndex(ts, 0, p))
  }

  lemma PostorderOfAll(ts: seq<Tree>, dec: Decoder)
    ensures InPostorder(ts, NodesOf(Postorder(ts, 0, Identity, 0, dec)))
  {
    hide Postorder, Size;
    var nodes := NodesOf(Postorder(ts, 0, Identity, 0, dec));
    PostorderLength(ts, 0, Identity, 0, dec);
    forall p: Path | IsPath(ts, p)
      ensures PostIndex(ts, 0, p) < |nodes| && nodes[PostIndex(ts, 0, p)] == TreeAt(ts, p).node
    {
      PostIndexShows(ts, 0, p, Identity, 0, dec);
    }
    forall p: Path, q: Path | IsPath(ts, p) && IsPath(ts, q) && p < q
      ensures PostIndex(ts, 0, q) < PostIndex(ts, 0, p)
    {
      PostIndexAfter(ts, 0, p, q);
    }
  }

  /** The position of a callback, of which there is no other. */
  lemma PositionOf(ts: seq<Tree>, nodes: seq<Node>, k: nat) returns (p: Path)
    requires InPostorder(ts, nodes) && k < |nodes|
    ensures IsPath(ts, p) && PostIndex(ts, 0, p) == k && nodes[k] == TreeAt(ts, p).node
  {
    hide Size, PostIndex;
    p := PostIndexOnto(ts, 0, k);
  }

  lemma NoNodeTwice(ts: seq<Tree>, nodes: seq<Node>)
    requires InPostorder(ts, nodes) && NodesApart(ts)
    ensures NoneTwice(nodes)
  {
    hide InPostorder, NodesApart;
    forall k, l | 0 <= k < l < |nodes|
      ensures nodes[k] != nodes[l]
    {
      var p := PositionOf(ts, nodes, k);
      var q := PositionOf(ts, nodes, l);
      if nodes[k] == nodes[l] {
        SamePosition(ts, p, q);
      }
    }
  }

  lemma NoArrayTwice(ts: seq<Tree>, nodes: seq<Node>, k: nat, l: nat, S: set<object>)
    requires InPostorder(ts, nodes) && NodesApart(ts) && AllLinked(ts, S) && k < l < |nodes|
    ensures nodes[k] in S && nodes[l] in S
    ensures nodes[l].children != null ==> nodes[k].children != nodes[l].children
  {
    hide InPostorder, NodesApart, AllLinked;
    var p := PositionOf(ts, nodes, k);
    var q := PositionOf(ts, nodes, l);
    ArraysApart(ts, p, q, S);
  }

  lemma SafeToFree(ts: seq<Tree>, nodes: seq<Node>, S: set<object>)
    requires InPostorder(ts, nodes) && NodesApart(ts) && AllLinked(ts, S)
    ensures Releasable(nodes, S)
  {
    hide InPostorder, NodesApart, AllLinked;
    NoNodeTwice(ts, nodes);
    forall k | 0 <= k < |nodes|
      ensures nodes[k] in S && (nodes[k].children != null ==> nodes[k].children in S)
    {
      var p := PositionOf(ts, nodes, k);
      LinkedAt(ts, p, S);
    }
    forall k, l | 0 <= k < l < |nodes|
      ensures nodes[k] in S && nodes[l] in S
      ensures nodes[l].children != null ==> nodes[k].children != nodes[l].children
    {
      NoArrayTwice(ts, nodes, k, l, S);
    }
  }

  /**
   prf_model_destroy: every node of the tree is freed once, with its array, after all nodes below it, while
   the traversal is going on; the traversal looks at nothing that has been freed.
   */
  method Destroy(root: Node, dec: Decoder, ghost t: Tree, ghost S: set<object>)
    returns (nodes: seq<Node>, freed: set<object>)
    requires t.node == root && Linked(t, S) && NodesApart([t]) && AllKnown([t]) && EndsInLeaf([t])
    ensures InPostorder([t], nodes) && NoneTwice(nodes) && freed == FreedOf(nodes, S)
  {
    hide Linked, NodesApart, AllKnown, EndsInLeaf, InPostorder, PostWalk, Postorder, FreedOf, NoneTwice, Releasable;
    var cb: Callback := h => Continue;
    PostWalkAll([t], 0, Identity, 0, cb, dec, []);
    PostorderOfAll([t], dec);
    ghost var all := Postorder([t], 0, Identity, 0, dec);
    assert [] + all == all;
    SafeToFree([t], NodesOf(all), S);
    var trace, traverse;
    trace, traverse, freed := TraverseDf(root, cb, dec, true, t, S);
    nodes := NodesOf(trace);
    NoNodeTwice([t], nodes);
  }

  /** A loaded model is destroyed without freeing anything twice or early. */
  method LoadThenDestroy(r: Reader, dec: Decoder)
    returns (header: Node?, nodes: seq<Node>, freed: set<object>, ghost ts: seq<Tree>, ghost S: set<object>)
    requires r.Valid() && r.pos == 0 && Loadable(Parse(r.file, 0, 0).0) && EndRecognized(r.file)
    requires Depth(Parse(r.file, 0, 0).0, |Parse(r.file, 0, 0).0|) == 0
    modifies r, r.buffer
    ensures header != null ==> |ts| == 1 && ts[0].node == header
    ensures header != null ==> InPostorder(ts, nodes) && NoneTwice(nodes) && freed == FreedOf(nodes, S) && fresh(S)
  {
    hide Loadable, Parse, EndRecognized, Depth, InPostorder, NodesApart, Linked, Parented, Grammatical, AllKnown,
         InNumbers;
    nodes, freed := [], {};
    var ok;
    ok, header, ts, S := Load(r);
    if ok {
      RoundTrip.GrammaticalEndsInLeaf([ts[0]]);
      nodes, freed := Destroy(header, dec, ts[0], S);
      assert ts == [ts[0]];
    }
  }
}
