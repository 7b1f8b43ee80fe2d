/**
 Callbacks that free what they are called for.  `free` is never called twice for the same object, and
 what a traversal looks at after such a callback has to be alive still.
 */
module Release {
  import opened Hierarchy
  import opened InOrder

  /** `free`, of what has not been freed before. */
  method Free(freed: set<object>, o: object) returns (freed': set<object>)
    requires o !in freed
    ensures freed' == freed + {o}
  {
    freed' := freed + {o};
  }

  /** What destroy_cb frees of a model without a memory pool: the array of children, and the node. */
  method ReleaseNode(node: Node, freed: set<object>) returns (freed': set<object>)
    requires node !in freed && (node.children != null ==> node.children !in freed)
    ensures freed' == freed + {node} + if node.children != null then {node.children} else {}
  {
    freed' := freed;
    if node.children != null {
      freed' := Free(freed', node.children);
    }
    freed' := Free(freed', node);
  }

  function NodesOf(vs: seq<Visit>): (ns: seq<Node>)
    ensures |ns| == |vs| && forall k :: 0 <= k < |vs| ==> ns[k] == vs[k].node
  {
    seq(|vs|, k requires 0 <= k < |vs| => vs[k].node)
  }

  /** These nodes and their arrays. */
  ghost function FreedOf(ns: seq<Node>, S: set<object>): set<object>
    reads S
  {
    (set x | x in ns :: x as object) + (set x | x in ns && x in S && x.children != null :: x.children as object)
  }

  /** What callbacks that free have freed so far; others free nothing. */
  ghost predicate FreedBy(trace: seq<Visit>, frees: bool, freed: set<object>, S: set<object>)
    reads S
  {
    freed == if frees then FreedOf(NodesOf(trace), S) else {}
  }

  /** No node is twice among these, and no array is that of two of them. */
  ghost predicate Releasable(ns: seq<Node>, S: set<object>)
    reads S
  {
    && (forall k :: 0 <= k < |ns| ==> ns[k] in S && (ns[k].children != null ==> ns[k].children in S))
    && (forall k, l :: 0 <= k < l < |ns| ==>
          && ns[k] != ns[l] && ns[k] in S && ns[l] in S
          && (ns[l].children != null ==> ns[k].children != ns[l].children))
  }

  lemma FreedNext(ns: seq<Node>, node: Node, S: set<object>)
    requires node in S
    ensures FreedOf(ns + [node], S) ==
            FreedOf(ns, S) + {node as object} + if node.children != null then {node.children as object} else {}
  {
    var all := ns + [node];
    assert forall x :: x in all <==> x in ns || x == node;
    var l, r := (set x: Node | x in all :: x as object), (set x | x in ns :: x as object) + {node as object};
    assert forall x :: x in ns ==> x in all && x as object in l;
    assert node in all && node as object in l;
    forall o | o in l
      ensures o in r
    {
      var x: Node :| x in all && x as object == o;
    }
    assert l == r;
    var m := (set x: Node | x in all && x in S && x.children != null :: x.children as object);
    var k := (set x: Node | x in ns && x in S && x.children != null :: x.children as object);
    assert forall x: Node :: x in ns && x in S && x.children != null ==> x in all && x.children as object in m;
    assert node.children != null ==> node in all && node.children as object in m;
    assert m == k + if node.children != null then {node.children as object} else {};
  }

  /** Whatever is visited later has not been freed yet. */
  lemma NotFreed(ns: seq<Node>, all: seq<Node>, k: nat, S: set<object>)
    requires ns <= all && |ns| <= k < |all| && Releasable(all, S)
    ensures all[k] in S && all[k] !in FreedOf(ns, S)
    ensures all[k].children != null ==> all[k].children !in FreedOf(ns, S)
  {
    var node := all[k];
    forall x | x in ns
      ensures x in S && x != node && (node.children != null ==> x.children != node.children)
    {
      var j :| 0 <= j < |ns| && ns[j] == x;
      assert all[j] == x;
    }
  }

  /** Nothing outside of the hierarchy is freed. */
  lemma FreedInside(ns: seq<Node>, all: seq<Node>, S: set<object>)
    requires ns <= all && Releasable(all, S)
    ensures FreedOf(ns, S) <= S
  {
    forall x | x in ns
      ensures x in S && (x.children != null ==> x.children in S)
    {
      var j :| 0 <= j < |ns| && ns[j] == x;
      assert all[j] == x;
    }
  }
}
