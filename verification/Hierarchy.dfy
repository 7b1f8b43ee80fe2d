/**
 Nodes of a loaded model, the part of the opcode table that decides where a node goes in the
 hierarchy, and the mathematical trees that the linked nodes stand for.
 */
module Hierarchy {
  import opened Bytes

  /** What the flags of an opcode mean to the loader and to the traversals. */
  datatype Kind = PushNode | PopNode | Ancillary | Plain

  predicate Known(opcode: nat) {
    || 1 <= opcode <= 14
    || opcode in {16, 17, 55}
    || 19 <= opcode <= 23
    || 31 <= opcode <= 33
    || 40 <= opcode <= 53
    || 60 <= opcode <= 74
    || 76 <= opcode <= 98
    || 100 <= opcode <= 133
  }

  function KindOf(opcode: nat): Kind {
    if opcode in {10, 19, 21, 122} then PushNode
    else if opcode in {11, 20, 22, 123} then PopNode
    else if opcode in {12, 31, 32, 33} || 40 <= opcode <= 53 || opcode == 60 || 64 <= opcode <= 67
            || opcode == 74 || 76 <= opcode <= 83 || opcode in {88, 90, 93, 94, 97, 102, 105, 106}
            || 108 <= opcode <= 110 || 112 <= opcode <= 114 || opcode in {116, 128, 129, 132, 133}
    then Ancillary
    else Plain
  }

  const MATRIX := 49

  /** A record as it stands in a file: opcode, length including the four header bytes, payload. */
  datatype Record = Record(opcode: nat, length: nat, data: seq<Byte>)

  datatype Info = Info(record: Record, deleted: bool) {
    function Kind(): Kind {
      KindOf(record.opcode)
    }
  }

  class ChildArray {
    var elems: seq<Node>

    constructor (elems: seq<Node>)
      ensures this.elems == elems
    {
      this.elems := elems;
    }
  }

  class Node {
    var opcode: nat
    var length: nat
    var data: seq<Byte>
    var deleted: bool
    var children: ChildArray?
    var parent: Node?

    constructor (record: Record)
      ensures TheRecord() == record && !deleted && children == null && parent == null
    {
      opcode, length, data := record.opcode, record.length, record.data;
      deleted := false;
      children, parent := null, null;
    }

    function TheRecord(): Record
      reads this
    {
      Record(opcode, length, data)
    }

    function TheInfo(): Info
      reads this
    {
      Info(TheRecord(), deleted)
    }
  }

  /** A node with what it holds, and its children in order. */
  datatype Tree = Tree(node: Node, info: Info, kids: seq<Tree>)

  /** A position in a list of trees: sibling indices from the top down. */
  type Path = seq<nat>

  predicate IsPath(ts: seq<Tree>, p: Path) {
    p != [] && p[0] < |ts| && (|p| == 1 || IsPath(ts[p[0]].kids, p[1..]))
  }

  function TreeAt(ts: seq<Tree>, p: Path): Tree
    requires IsPath(ts, p)
  {
    if |p| == 1 then ts[p[0]] else TreeAt(ts[p[0]].kids, p[1..])
  }

  /** No node is at two positions. */
  ghost predicate NodesApart(ts: seq<Tree>) {
    forall p: Path, q: Path :: IsPath(ts, p) && IsPath(ts, q) && TreeAt(ts, p).node == TreeAt(ts, q).node ==> p == q
  }

  lemma SamePosition(ts: seq<Tree>, p: Path, q: Path)
    requires NodesApart(ts) && IsPath(ts, p) && IsPath(ts, q) && TreeAt(ts, p).node == TreeAt(ts, q).node
    ensures p == q
  {
  }

  lemma ApartBelow(ts: seq<Tree>, i: nat)
    requires NodesApart(ts) && i < |ts|
    ensures NodesApart(ts[i].kids)
  {
    var kids := ts[i].kids;
    forall p: Path, q: Path | IsPath(kids, p) && IsPath(kids, q) && TreeAt(kids, p).node == TreeAt(kids, q).node
      ensures p == q
    {
      var p', q' := [i] + p, [i] + q;
      assert p'[1..] == p && q'[1..] == q;
      SamePosition(ts, p', q');
    }
  }

  function Nodes(ts: seq<Tree>): (ns: seq<Node>)
    ensures |ns| == |ts| && forall i :: 0 <= i < |ts| ==> ns[i] == ts[i].node
  {
    seq(|ts|, i requires 0 <= i < |ts| => ts[i].node)
  }

  /**
   The nodes linked from `t.node` through child arrays are those of `t`, and all of them and their
   arrays are in `S`.  A node without children has no array; there are no empty arrays.
   */
  ghost predicate Linked(t: Tree, S: set<object>)
    reads S
  {
    && t.node in S && t.node.TheInfo() == t.info
    && if t.kids == [] then t.node.children == null else
         && t.node.children != null && t.node.children in S
         && t.node.children.elems == Nodes(t.kids)
         && forall i :: 0 <= i < |t.kids| ==> Linked(t.kids[i], S)
  }

  /** Every node but the root points back to the node whose array holds it. */
  ghost predicate Parented(t: Tree, S: set<object>)
    reads S
  {
    forall i :: 0 <= i < |t.kids| ==>
      t.kids[i].node in S && t.kids[i].node.parent == t.node && Parented(t.kids[i], S)
  }

  ghost predicate AllLinked(ts: seq<Tree>, S: set<object>)
    reads S
  {
    forall i :: 0 <= i < |ts| ==> Linked(ts[i], S)
  }

  ghost predicate AllKnown(ts: seq<Tree>) {
    forall i :: 0 <= i < |ts| ==> Known(ts[i].info.record.opcode) && AllKnown(ts[i].kids)
  }

  /** The number of nodes of the trees from index `i` on. */
  ghost function Size(ts: seq<Tree>, i: nat): nat
    requires i <= |ts|
    decreases ts, |ts| - i
  {
    if i == |ts| then 0 else 1 + Size(ts[i].kids, 0) + Size(ts, i + 1)
  }

  lemma {:induction false} SizeSkips(ts: seq<Tree>, i: nat, j: nat)
    requires i <= j <= |ts|
    ensures Size(ts, j) <= Size(ts, i)
    decreases j - i
  {
    if i < j {
      SizeSkips(ts, i + 1, j);
    }
  }
}
