/**
 Depth-first traversal: the loop of prf_model_traverse_df visits parents after children.  It climbs
 only one level at a time, which is right as long as every child array ends in a node without
 children; then it refines a recursive post-order walk.
 */
module DepthFirst {
  import opened Matrix
  import opened State
  import opened Hierarchy
  import opened InOrder
  import opened Pruning
  import opened Ending
  import opened Release

  /** Post-order: the entry hook first, then the children, then the callback.  Deleted nodes are visited. */
  ghost function PostWalk(ts: seq<Tree>, i: nat, m: Matrix, level: nat, cb: Callback, dec: Decoder,
                          trace: seq<Visit>): Run
    requires i <= |ts|
    decreases ts, |ts| - i
  {
    if i == |ts| then Run(trace, Running, m)
    else
      var m' := Enter(m, ts[i].info, dec);
      var below := PostWalk(ts[i].kids, 0, m', level + 1, cb, dec, trace);
      if below.status != Running then below
      else
        var trace' := below.trace + [Visit(ts[i].node, m', level)];
        if cb(trace') == Exit then Run(trace', Exited, m') else PostWalk(ts, i + 1, m', level, cb, dec, trace')
  }

  /** Every nonempty list of children, at any depth, ends in a node without children. */
  ghost predicate EndsInLeaf(ts: seq<Tree>) {
    forall i :: 0 <= i < |ts| ==>
      (ts[i].kids != [] ==> ts[i].kids[|ts[i].kids| - 1].kids == []) && EndsInLeaf(ts[i].kids)
  }

  /**
   The rest of the walk: the top level from its position on, then on each level below the node whose
   children are done, and its siblings.
   */
  ghost function Climb(frames: seq<Frame>, g: Setting, trace: seq<Visit>): Run
    requires Positions(frames)
    decreases |frames|
  {
    var n := |frames| - 1;
    var r := PostWalk(frames[n].ts, frames[n].i, frames[n].matrix, g.level + n, g.cb, g.dec, trace);
    if n == 0 || r.status != Running then r
    else
      var trace' := r.trace + [VisitOf(frames[n - 1], g.level + n - 1)];
      if g.cb(trace') == Exit then Run(trace', Exited, frames[n - 1].matrix)
      else Climb(Back(frames), g, trace')
  }

  /** The visit of the node at the position of a frame. */
  function VisitOf(f: Frame, level: nat): Visit
    requires f.i < |f.ts|
  {
    Visit(f.ts[f.i].node, f.matrix, level)
  }

  /** The level below the node at the top position, before any of it was visited. */
  ghost function Opened(frames: seq<Frame>): (r: seq<Frame>)
    requires Positions(frames) && frames[|frames| - 1].i < |frames[|frames| - 1].ts|
    ensures Positions(r)
  {
    var f := frames[|frames| - 1];
    frames + [Frame(f.ts[f.i].kids, 0, f.matrix)]
  }

  /** The frames after the entry hook of the node at the top position. */
  ghost function EnteredTop(frames: seq<Frame>, dec: Decoder): (r: seq<Frame>)
    requires Positions(frames) && frames[|frames| - 1].i < |frames[|frames| - 1].ts|
    ensures Positions(r) && |r| == |frames|
  {
    var f := frames[|frames| - 1];
    WithTop(frames, f.(matrix := Enter(f.matrix, f.ts[f.i].info, dec)))
  }

  /** Entering a node and turning to its children does not change what is left to do. */
  lemma ClimbDown(frames: seq<Frame>, g: Setting, trace: seq<Visit>)
    requires Positions(frames) && frames[|frames| - 1].i < |frames[|frames| - 1].ts|
    ensures Climb(Opened(EnteredTop(frames, g.dec)), g, trace) == Climb(frames, g, trace)
    ensures Remaining(Opened(EnteredTop(frames, g.dec))) == Remaining(frames) - 1
  {
    hide Enter;
    var n := |frames| - 1;
    var down := Opened(EnteredTop(frames, g.dec));
    var f := down[n];
    assert Back(down) == WithTop(frames, Step(f));
    if n > 0 {
      assert Back(Back(down)) == Back(frames);
    }
  }

  /** A list of children that is done: next is the callback for the node above. */
  lemma ClimbUp(frames: seq<Frame>, g: Setting, trace: seq<Visit>)
    requires Positions(frames) && |frames| > 1 && frames[|frames| - 1].i == |frames[|frames| - 1].ts|
    ensures var n := |frames| - 1;
      var trace' := trace + [VisitOf(frames[n - 1], g.level + n - 1)];
      Climb(frames, g, trace) == if g.cb(trace') == Exit then Run(trace', Exited, frames[n - 1].matrix)
                                 else Climb(Back(frames), g, trace')
    ensures Remaining(frames) == Remaining(Back(frames))
  {
  }

  /** The level above a frame is that of the children of the node at its position, and ends in a leaf. */
  ghost predicate Under(f: Frame, above: Frame) {
    && f.i < |f.ts| && above.ts == f.ts[f.i].kids
    && above.ts != [] && above.ts[|above.ts| - 1].kids == []
  }

  ghost predicate FitsAt(frames: seq<Frame>, l: nat)
    requires l < |frames|
  {
    EndsInLeaf(frames[l].ts) && (l > 0 ==> Under(frames[l - 1], frames[l]))
  }

  /** What the loop relies on. */
  ghost predicate Fit(frames: seq<Frame>) {
    forall l :: 0 <= l < |frames| ==> FitsAt(frames, l)
  }

  /* Callbacks may free nodes that are done.  What the loop goes on to look at comes later in the walk. */

  ghost predicate ChainedAt(frames: seq<Frame>, c: Cursor, S: set<object>, l: nat)
    requires Positions(frames) && |c.stack| == |frames| && l + 1 < |frames|
    reads S
  {
    var node := frames[l].ts[frames[l].i].node;
    node in S && node.children == c.stack[l + 1]
  }

  /** The array of each level but the first is that of the node at the position of the level above. */
  ghost predicate Chained(frames: seq<Frame>, c: Cursor, S: set<object>)
    requires Positions(frames) && |c.stack| == |frames|
    reads S
  {
    c.stack[0] !in S && forall l :: 0 <= l < |frames| - 1 ==> ChainedAt(frames, c, S, l)
  }

  /** What the callbacks have freed, and the arrays the loop has on its stack. */
  ghost predicate Kept(frames: seq<Frame>, c: Cursor, g: Setting, trace: seq<Visit>, run: Run, frees: bool,
                       freed: set<object>)
    requires Positions(frames) && |c.stack| == |frames|
    reads g.S
  {
    Chained(frames, c, g.S) && (frees ==> Releasable(NodesOf(run.trace), g.S)) && FreedBy(trace, frees, freed, g.S)
  }

  /** The node at the top position, the array it is looked up in, and the array of its children have not been freed. */
  ghost predicate Alive(c: Cursor, freed: set<object>, S: set<object>)
    requires c.Shaped()
    reads S, c.stack
  {
    var siblings, j := c.stack[c.Level()], c.child[c.Level()];
    && siblings !in freed && j < |siblings.elems|
    && var node := siblings.elems[j];
       node in S && node !in freed && (node.children != null ==> node.children !in freed)
  }

  lemma ClimbGrows(frames: seq<Frame>, g: Setting, trace: seq<Visit>)
    requires Positions(frames) && Climb(frames, g, trace).status == Running
    ensures var n := |frames| - 1;
      trace + Postorder(frames[n].ts, frames[n].i, frames[n].matrix, g.level + n, g.dec) <= Climb(frames, g,
                                                                                                  trace).trace
    decreases |frames|
  {
    hide Postorder, PostWalk;
    var n := |frames| - 1;
    PostWalkShows(frames[n].ts, frames[n].i, frames[n].matrix, g.level + n, g.cb, g.dec, trace);
    if n > 0 {
      var r := PostWalk(frames[n].ts, frames[n].i, frames[n].matrix, g.level + n, g.cb, g.dec, trace);
      ClimbGrows(Back(frames), g, r.trace + [VisitOf(frames[n - 1], g.level + n - 1)]);
    }
  }

  /** The node at the position of a level is visited later. */
  lemma {:induction false} Future(frames: seq<Frame>, g: Setting, trace: seq<Visit>, l: nat) returns (k: nat)
    requires Positions(frames) && l < |frames| && frames[l].i < |frames[l].ts|
    requires Climb(frames, g, trace).status == Running
    ensures var all := Climb(frames, g, trace).trace;
      trace <= all && |trace| <= k < |all| && all[k].node == frames[l].ts[frames[l].i].node
    decreases |frames|
  {
    hide Postorder, PostWalk;
    var n := |frames| - 1;
    ClimbGrows(frames, g, trace);
    if l == n {
      var j := PostorderHas(frames[n].ts, frames[n].i, frames[n].matrix, g.level + n, g.dec);
      k := |trace| + j;
    } else {
      PostWalkShows(frames[n].ts, frames[n].i, frames[n].matrix, g.level + n, g.cb, g.dec, trace);
      var r := PostWalk(frames[n].ts, frames[n].i, frames[n].matrix, g.level + n, g.cb, g.dec, trace);
      var trace' := r.trace + [VisitOf(frames[n - 1], g.level + n - 1)];
      ClimbGrows(Back(frames), g, trace');
      if l == n - 1 {
        k := |r.trace|;
        assert trace'[k] == VisitOf(frames[l], g.level + l);
      } else {
        k := Future(Back(frames), g, trace', l);
      }
    }
  }

  lemma PostorderHas(ts: seq<Tree>, i: nat, m: Matrix, level: nat, dec: Decoder) returns (j: nat)
    requires i < |ts|
    ensures j < |Postorder(ts, i, m, level, dec)| && Postorder(ts, i, m, level, dec)[j].node == ts[i].node
  {
    j := |Postorder(ts[i].kids, 0, Enter(m, ts[i].info, dec), level + 1, dec)|;
  }

  /** Changing the state changes nothing of the hierarchy. */
  lemma StateOutside(frames: seq<Frame>, c: Cursor, state: TraversalState, g: Setting)
    requires Consistent(frames, c, state, g)
    ensures state !in g.S && c.stack != []
  {
  }

  /** While there is more to come on the top level, with `all` what is left to do, it is alive. */
  lemma StaysAlive(frames: seq<Frame>, c: Cursor, state: TraversalState, all: seq<Frame>,
                   g: Setting, trace: seq<Visit>, run: Run, frees: bool, freed: set<object>)
    requires Consistent(frames, c, state, g) && c.child[c.Level()] < c.limit[c.Level()]
    requires Kept(frames, c, g, trace, run, frees, freed)
    requires frames <= all && Positions(all) && Climb(all, g, trace) == run
    requires frees ==> run.status == Running
    ensures Alive(c, freed, g.S)
  {
    hide Linked, InStep, Climb, Releasable, FreedOf;
    var n := |frames| - 1;
    AtPosition(frames[n], c.stack[n], c.child[n], c.limit[n], g.S);
    if frees {
      var k := Future(all, g, trace, n);
      NotFreed(NodesOf(trace), NodesOf(run.trace), k, g.S);
      if n == 0 {
        FreedInside(NodesOf(trace), NodesOf(run.trace), g.S);
      } else {
        assert ChainedAt(frames, c, g.S, n - 1);
        var j := Future(all, g, trace, n - 1);
        NotFreed(NodesOf(trace), NodesOf(run.trace), j, g.S);
      }
    }
  }

  /** The entry hook of the node at the top position. */
  method EnterNode(c: Cursor, state: TraversalState, dec: Decoder, ghost frames: seq<Frame>, ghost g: Setting,
                   ghost freed: set<object>)
    requires Consistent(frames, c, state, g) && c.child[c.Level()] < c.limit[c.Level()] && dec == g.dec
    requires Alive(c, freed, g.S)
    modifies state`matrices, state`inverseDirty
    ensures Consistent(EnteredTop(frames, g.dec), c, state, g)
  {
    hide Linked, IsInverse;
    var level := c.Level();
    ghost var f := frames[level];
    AtPosition(f, c.stack[level], c.child[level], c.limit[level], g.S);
    StateTop(frames, state, g);
    var node := c.stack[level].elems[c.child[level]];
    if node.opcode == MATRIX {
      state.MultRight(dec(node.data));
    }
    ghost var m := Enter(f.matrix, f.ts[f.i].info, g.dec);
    assert Matrices(EnteredTop(frames, g.dec)) == Matrices(frames)[level := m];
  }

  /** One level down to the first child, whose entry hook is called. */
  method DescendOne(c: Cursor, state: TraversalState, dec: Decoder, ghost frames: seq<Frame>, ghost g: Setting,
                    ghost trace: seq<Visit>, ghost run: Run, ghost frees: bool, ghost freed: set<object>)
    returns (c': Cursor)
    requires Consistent(frames, c, state, g) && c.child[c.Level()] < c.limit[c.Level()] && dec == g.dec
    requires var f := frames[|frames| - 1]; f.ts[f.i].kids != []
    requires Alive(c, freed, g.S)
    requires Kept(frames, c, g, trace, run, frees, freed) && Climb(Opened(frames), g, trace) == run
    requires frees ==> run.status == Running
    modifies state`matrices, state`inverseDirty, state`pushLevel, state`physicalLevel
    ensures Consistent(EnteredTop(Opened(frames), g.dec), c', state, g) && c'.child[c'.Level()] < c'.limit[c'.Level()]
    ensures Kept(EnteredTop(Opened(frames), g.dec), c', g, trace, run, frees, freed)
  {
    hide Linked, InStep, Enter, Climb, Releasable, FreedBy;
    StateOutside(frames, c, state, g);
    AtPosition(frames[|frames| - 1], c.stack[c.Level()], c.child[c.Level()], c.limit[c.Level()], g.S);
    c' := EnterLevel(c, state, frames, g);
    assert Opened(frames)[|frames|].i < |Opened(frames)[|frames|].ts|;
    assert Agree(Opened(frames)[|frames|], c'.stack[|frames|], c'.child[|frames|], c'.limit[|frames|], g.S);
    ChainedDown(frames, c, c', g.S);
    StaysAlive(Opened(frames), c', state, Opened(frames), g, trace, run, frees, freed);
    EnterNode(c', state, dec, Opened(frames), g, freed);
    ChainedSame(Opened(frames), EnteredTop(Opened(frames), dec), c', c', g.S);
  }

  lemma ChainedDown(frames: seq<Frame>, c: Cursor, c': Cursor, S: set<object>)
    requires Positions(frames) && |c.stack| == |frames| && Chained(frames, c, S)
    requires frames[|frames| - 1].i < |frames[|frames| - 1].ts| && |c'.stack| == |frames| + 1 && c.stack <= c'.stack
    requires var f := frames[|frames| - 1]; f.ts[f.i].node in S && f.ts[f.i].node.children == c'.stack[|frames|]
    ensures Chained(Opened(frames), c', S)
  {
    forall l | 0 <= l < |frames|
      ensures ChainedAt(Opened(frames), c', S, l)
    {
      assert l < |frames| - 1 ==> ChainedAt(frames, c, S, l);
    }
  }

  /** What happens at the top position does not matter. */
  lemma ChainedSame(frames: seq<Frame>, frames': seq<Frame>, c: Cursor, c': Cursor, S: set<object>)
    requires Positions(frames) && Positions(frames') && |c.stack| == |frames| && Chained(frames, c, S)
    requires |c'.stack| == |frames'| <= |frames| && c'.stack == c.stack[..|frames'|]
    requires forall l :: 0 <= l < |frames'| - 1 ==> frames'[l] == frames[l]
    ensures Chained(frames', c', S)
  {
    forall l | 0 <= l < |frames'| - 1
      ensures ChainedAt(frames', c', S, l)
    {
      assert ChainedAt(frames, c, S, l);
    }
  }

  lemma ChildrenIffKids(frames: seq<Frame>, c: Cursor, state: TraversalState, g: Setting)
    requires Consistent(frames, c, state, g) && c.child[c.Level()] < c.limit[c.Level()]
    ensures var f := frames[|frames| - 1];
      f.ts[f.i].kids == [] <==> c.stack[c.Level()].elems[c.child[c.Level()]].children == null
  {
    AtPosition(frames[|frames| - 1], c.stack[c.Level()], c.child[c.Level()], c.limit[c.Level()], g.S);
  }

  /** Down to the first descendant without children, entering every node on the way. */
  method Descend(c: Cursor, state: TraversalState, dec: Decoder, ghost frames: seq<Frame>, ghost g: Setting,
                 ghost trace: seq<Visit>, ghost run: Run, ghost frees: bool, ghost freed: set<object>)
    returns (c': Cursor, ghost frames': seq<Frame>)
    requires Consistent(frames, c, state, g) && c.child[c.Level()] < c.limit[c.Level()] && dec == g.dec
    requires Fit(frames) && Kept(frames, c, g, trace, run, frees, freed) && Climb(Opened(frames), g, trace) == run
    requires frees ==> run.status == Running
    modifies state`matrices, state`inverseDirty, state`pushLevel, state`physicalLevel
    ensures Consistent(frames', c', state, g) && c'.child[c'.Level()] < c'.limit[c'.Level()]
    ensures Fit(frames') && frames'[0].ts == frames[0].ts
    ensures var f := frames'[|frames'| - 1]; f.ts[f.i].kids == []
    ensures Climb(Opened(frames'), g, trace) == run && Remaining(Opened(frames')) <= Remaining(Opened(frames))
    ensures Kept(frames', c', g, trace, run, frees, freed) && Alive(c', freed, g.S)
  {
    hide Linked, InStep, Climb, Enter, EndsInLeaf, Remaining, Fit, Kept, Alive;
    c', frames' := c, frames;
    ChildrenIffKids(frames', c', state, g);
    StaysAlive(frames', c', state, Opened(frames'), g, trace, run, frees, freed);
    while c'.stack[c'.Level()].elems[c'.child[c'.Level()]].children != null
      invariant Consistent(frames', c', state, g) && c'.child[c'.Level()] < c'.limit[c'.Level()]
      invariant Fit(frames') && frames'[0].ts == frames[0].ts
      invariant Climb(Opened(frames'), g, trace) == run && Remaining(Opened(frames')) <= Remaining(Opened(frames))
      invariant Kept(frames', c', g, trace, run, frees, freed) && Alive(c', freed, g.S)
      invariant var f := frames'[|frames'| - 1];
        f.ts[f.i].kids == [] <==> c'.stack[c'.Level()].elems[c'.child[c'.Level()]].children == null
      decreases Remaining(Opened(frames'))
    {
      OpenedFits(frames');
      ClimbDown(Opened(frames'), g, trace);
      c' := DescendOne(c', state, dec, frames', g, trace, run, frees, freed);
      EnteredFits(Opened(frames'), dec);
      frames' := EnteredTop(Opened(frames'), dec);
      ChildrenIffKids(frames', c', state, g);
      StaysAlive(frames', c', state, Opened(frames'), g, trace, run, frees, freed);
    }
  }

  lemma EnteredFits(frames: seq<Frame>, dec: Decoder)
    requires Positions(frames) && Fit(frames) && frames[|frames| - 1].i < |frames[|frames| - 1].ts|
    ensures Fit(EnteredTop(frames, dec)) && EnteredTop(frames, dec)[0].ts == frames[0].ts
  {
    hide Enter, EndsInLeaf;
    forall l | 0 <= l < |frames|
      ensures FitsAt(EnteredTop(frames, dec), l)
    {
      assert FitsAt(frames, l);
    }
  }

  lemma OpenedFits(frames: seq<Frame>)
    requires Positions(frames) && Fit(frames)
    requires var f := frames[|frames| - 1]; f.i < |f.ts| && f.ts[f.i].kids != []
    ensures Fit(Opened(frames)) && Opened(frames)[|frames|].ts != []
  {
    var f := frames[|frames| - 1];
    assert FitsAt(frames, |frames| - 1);
    assert Under(f, Frame(f.ts[f.i].kids, 0, f.matrix)) && EndsInLeaf(f.ts[f.i].kids);
    hide EndsInLeaf, Under;
    forall l | 0 <= l < |Opened(frames)|
      ensures FitsAt(Opened(frames), l)
    {
      assert l < |frames| ==> FitsAt(frames, l);
    }
  }

  /** After the children: back to the parent's level, still at the parent. */
  method Ascend(c: Cursor, state: TraversalState, ghost frames: seq<Frame>, ghost g: Setting) returns (c': Cursor)
    requires Consistent(frames, c, state, g) && |frames| > 1
    modifies state`inverseDirty, state`pushLevel, state`physicalLevel
    ensures Consistent(frames[..|frames| - 1], c', state, g) && c'.child[c'.Level()] < c'.limit[c'.Level()]
    ensures c'.stack == c.stack[..|frames| - 1]
  {
    hide Linked, IsInverse;
    var n := c.Level();
    c' := Cursor(c.stack[..n], c.child[..n], c.limit[..n]);
    state.Pop();
    state.physicalLevel := state.physicalLevel - 1;
    assert Matrices(frames[..n]) == Matrices(frames)[..n];
    assert Agree(frames[n - 1], c.stack[n - 1], c.child[n - 1], c.limit[n - 1], g.S);
  }

  /** The callback for the node at the top position, which may free it. */
  method CallBack(c: Cursor, state: TraversalState, cb: Callback, trace: seq<Visit>, frees: bool, freed: set<object>,
                  ghost frames: seq<Frame>, ghost g: Setting)
    returns (answer: Answer, trace': seq<Visit>, freed': set<object>)
    requires Consistent(frames, c, state, g) && c.child[c.Level()] < c.limit[c.Level()]
    requires Alive(c, freed, g.S) && FreedBy(trace, frees, freed, g.S)
    ensures trace' == trace + [VisitOf(frames[|frames| - 1], g.level + |frames| - 1)] && answer == cb(trace')
    ensures FreedBy(trace', frees, freed', g.S)
  {
    hide Linked, IsInverse, FreedOf;
    AtPosition(frames[|frames| - 1], c.stack[c.Level()], c.child[c.Level()], c.limit[c.Level()], g.S);
    StateTop(frames, state, g);
    var node := c.stack[c.Level()].elems[c.child[c.Level()]];
    trace' := trace + [Visit(node, state.matrices[state.pushLevel], state.physicalLevel)];
    answer := cb(trace');
    freed' := freed;
    if frees {
      freed' := ReleaseNode(node, freed);
      FreedNext(NodesOf(trace), node, g.S);
      assert NodesOf(trace') == NodesOf(trace) + [node];
    }
  }

  lemma Stepped(frames: seq<Frame>, c: Cursor, state: TraversalState, g: Setting)
    requires Consistent(frames, c, state, g) && c.child[c.Level()] < c.limit[c.Level()]
    ensures Consistent(WithTop(frames, Step(frames[|frames| - 1])),
                       c.(child := c.child[c.Level() := c.child[c.Level()] + 1]), state, g)
  {
    hide Linked, IsInverse;
    assert Matrices(WithTop(frames, Step(frames[|frames| - 1]))) == Matrices(frames);
  }

  /** Where the loop stands with the rest `run` of the walk to come. */
  ghost predicate Standing(frames: seq<Frame>, c: Cursor, state: TraversalState, g: Setting, trace: seq<Visit>,
                           run: Run)
    reads g.S, c.stack, state, state.inverse
  {
    Consistent(frames, c, state, g) && Fit(frames) && Climb(frames, g, trace) == run
  }

  /** Down from the node at the top position to a leaf, the callback for it, and one sibling on. */
  method VisitLeaf(c: Cursor, state: TraversalState, cb: Callback, dec: Decoder, trace: seq<Visit>, frees: bool,
                   freed: set<object>,
                   ghost frames: seq<Frame>, ghost g: Setting, ghost run: Run)
    returns (answer: Answer, trace': seq<Visit>, freed': set<object>, c': Cursor, ghost frames': seq<Frame>)
    requires Positions(frames) && |c.stack| == |frames| && Kept(frames, c, g, trace, run, frees, freed)
    requires frees ==> run.status == Running
    requires Standing(frames, c, state, g, trace, run) && c.child[c.Level()] < c.limit[c.Level()]
    requires cb == g.cb && dec == g.dec
    modifies state`matrices, state`inverseDirty, state`pushLevel, state`physicalLevel
    ensures answer == Exit ==> run.trace == trace' && run.status == Exited
    ensures FreedBy(trace', frees, freed', g.S)
    ensures answer != Exit ==>
              && Standing(frames', c', state, g, trace', run) && Kept(frames', c', g, trace', run, frees, freed')
              && Remaining(frames') < Remaining(frames)
  {
    hide Linked, InStep, Climb, Enter, EndsInLeaf, Remaining, Fit, Alive, Chained, Releasable, FreedBy;
    StateOutside(frames, c, state, g);
    ClimbDown(frames, g, trace);
    StaysAlive(frames, c, state, frames, g, trace, run, frees, freed);
    EnterNode(c, state, dec, frames, g, freed);
    EnteredFits(frames, dec);
    frames' := EnteredTop(frames, dec);
    ChainedSame(frames, frames', c, c, g.S);
    c', frames' := Descend(c, state, dec, frames', g, trace, run, frees, freed);
    answer, trace', freed', c', frames' := ShowLeaf(c', state, cb, trace, frees, freed, frames', g, run);
  }

  /** The callback for a node without children, and one sibling on. */
  method ShowLeaf(c: Cursor, state: TraversalState, cb: Callback, trace: seq<Visit>, frees: bool, freed: set<object>,
                  ghost frames: seq<Frame>, ghost g: Setting, ghost run: Run)
    returns (answer: Answer, trace': seq<Visit>, freed': set<object>, c': Cursor, ghost frames': seq<Frame>)
    requires Consistent(frames, c, state, g) && c.child[c.Level()] < c.limit[c.Level()] && cb == g.cb
    requires Fit(frames) && Alive(c, freed, g.S)
    requires Kept(frames, c, g, trace, run, frees, freed) && Climb(Opened(frames), g, trace) == run
    requires var f := frames[|frames| - 1]; f.ts[f.i].kids == []
    ensures answer == Exit ==> run.trace == trace' && run.status == Exited
    ensures FreedBy(trace', frees, freed', g.S)
    ensures answer != Exit ==>
              && Standing(frames', c', state, g, trace', run) && Kept(frames', c', g, trace', run, frees, freed')
              && Remaining(frames') <= Remaining(Opened(frames))
  {
    hide Linked, InStep, Climb, Enter, EndsInLeaf, Remaining, Fit, Alive, Chained, Releasable, FreedBy;
    ClimbUp(Opened(frames), g, trace);
    answer, trace', freed' := CallBack(c, state, cb, trace, frees, freed, frames, g);
    BackOfOpened(frames);
    Stepped(frames, c, state, g);
    c' := c.(child := c.child[c.Level() := c.child[c.Level()] + 1]);
    frames' := WithTop(frames, Step(frames[|frames| - 1]));
    ChainedSame(frames, frames', c, c', g.S);
  }

  /** The children are done: one step up, the callback for the parent, and one sibling on. */
  method VisitParent(c: Cursor, state: TraversalState, cb: Callback, dec: Decoder, trace: seq<Visit>, frees: bool,
                     freed: set<object>,
                     ghost frames: seq<Frame>, ghost g: Setting, ghost run: Run)
    returns (answer: Answer, trace': seq<Visit>, freed': set<object>, c': Cursor, ghost frames': seq<Frame>)
    requires Positions(frames) && |c.stack| == |frames| && Kept(frames, c, g, trace, run, frees, freed)
    requires frees ==> run.status == Running
    requires Standing(frames, c, state, g, trace, run) && c.Level() > 0 && c.child[c.Level()] >= c.limit[c.Level()]
    requires cb == g.cb && dec == g.dec
    modifies state`inverseDirty, state`pushLevel, state`physicalLevel
    ensures answer == Exit ==> run.trace == trace' && run.status == Exited
    ensures FreedBy(trace', frees, freed', g.S)
    ensures answer != Exit ==>
              && Standing(frames', c', state, g, trace', run) && Kept(frames', c', g, trace', run, frees, freed')
              && Remaining(frames') == Remaining(frames)
              && (c'.Level() > 0 ==> c'.child[c'.Level()] < c'.limit[c'.Level()])
  {
    hide Linked, InStep, Climb, Enter, EndsInLeaf, Remaining, Fit, Alive, Chained, Releasable, FreedBy;
    StateOutside(frames, c, state, g);
    ClimbUp(frames, g, trace);
    ParentHasNext(frames);
    c' := Ascend(c, state, frames, g);
    ghost var up := frames[..|frames| - 1];
    ChainedSame(frames, up, c, c', g.S);
    StaysAlive(up, c', state, frames, g, trace, run, frees, freed);
    answer, trace', freed' := CallBack(c', state, cb, trace, frees, freed, up, g);
    Stepped(up, c', state, g);
    c' := c'.(child := c'.child[c'.Level() := c'.child[c'.Level()] + 1]);
    frames' := Back(frames);
    ChainedSame(frames, frames', c, c', g.S);
  }

  /**
   prf_model_traverse_df, on trees whose lists of children all end in a node without children, with a
   callback that does not ask to skip to a pop node.  It shows what the post-order walk shows.  A callback
   that goes through the whole walk and is shown no node twice may free what it is called for: the loop does
   not look at it again, which its parts demand wherever they look at a node or an array (`Alive`).
   */
  method TraverseDf(root: Node, cb: Callback, dec: Decoder, frees: bool, ghost t: Tree, ghost S: set<object>)
    returns (trace: seq<Visit>, traverse: Answer, freed: set<object>)
    requires t.node == root && Linked(t, S) && AllKnown([t]) && EndsInLeaf([t])
    requires forall h: seq<Visit> :: cb(h) != Pop
    requires frees ==>
      var run := PostWalk([t], 0, Identity, 0, cb, dec, []); run.status == Running && Releasable(NodesOf(run.trace), S)
    ensures FreedBy(trace, frees, freed, S)
    ensures var run := PostWalk([t], 0, Identity, 0, cb, dec, []);
      trace == run.trace && (traverse == Exit <==> run.status == Exited)
  {
    hide Linked, InStep, Climb, Enter, EndsInLeaf, Remaining, Fit, PostWalk, Releasable;
    var state := new TraversalState();
    var roots := new ChildArray([root]);
    var c := Cursor([roots], [0], [1]);
    trace, traverse, freed := [], Continue, {};
    ghost var g := Setting(S, [], 0, cb, dec);
    ghost var frames := [Frame([t], 0, Identity)];
    ghost var run := PostWalk([t], 0, Identity, 0, cb, dec, []);
    AtRoot(frames, c, state, t, g);
    while c.child[0] < c.limit[0]
      invariant Standing(frames, c, state, g, trace, run) && Kept(frames, c, g, trace, run, frees, freed)
      invariant c.Level() > 0 ==> c.child[c.Level()] < c.limit[c.Level()]
      invariant traverse != Exit
      decreases Remaining(frames)
    {
      traverse, trace, freed, c, frames := VisitLeaf(c, state, cb, dec, trace, frees, freed, frames, g, run);
      if traverse == Exit {
        break;
      }
      if c.Level() > 0 && c.child[c.Level()] >= c.limit[c.Level()] {
        traverse, trace, freed, c, frames := VisitParent(c, state, cb, dec, trace, frees, freed, frames, g, run);
        if traverse == Exit {
          break;
        }
      }
    }
    if traverse != Exit {
      ClimbEnd(frames, g, trace);
    }
  }

  lemma AtRoot(frames: seq<Frame>, c: Cursor, state: TraversalState, t: Tree, g: Setting)
    requires frames == [Frame([t], 0, Identity)] && c.child == [0] && c.limit == [1]
    requires |c.stack| == 1 && c.stack[0].elems == [t.node]
    requires state.Valid() && state !in g.S && state.inverse !in g.S
    requires state.Stack() == [Identity] && g.below == [] && state.physicalLevel == g.level
    requires Linked(t, g.S) && EndsInLeaf([t])
    ensures Consistent(frames, c, state, g) && Fit(frames)
    ensures Climb(frames, g, []) == PostWalk([t], 0, Identity, g.level, g.cb, g.dec, [])
  {
    hide Linked, EndsInLeaf;
    assert Matrices(frames) == [Identity] && Nodes([t]) == [t.node];
    assert FitsAt(frames, 0);
  }

  lemma BackOfOpened(frames: seq<Frame>)
    requires Positions(frames) && Fit(frames)
    requires var f := frames[|frames| - 1]; f.i < |f.ts| && f.ts[f.i].kids == []
    ensures Back(Opened(frames)) == WithTop(frames, Step(frames[|frames| - 1]))
    ensures Fit(WithTop(frames, Step(frames[|frames| - 1])))
  {
    hide EndsInLeaf;
    var stepped := WithTop(frames, Step(frames[|frames| - 1]));
    forall l | 0 <= l < |stepped|
      ensures FitsAt(stepped, l)
    {
      assert FitsAt(frames, l);
    }
  }

  /** The single step up: the node whose children are done is not the last of its own list. */
  lemma ParentHasNext(frames: seq<Frame>)
    requires Positions(frames) && Fit(frames) && |frames| > 1
    requires var f := frames[|frames| - 1]; f.i == |f.ts|
    ensures Fit(Back(frames))
    ensures |frames| > 2 ==> frames[|frames| - 2].i + 1 < |frames[|frames| - 2].ts|
    ensures Back(frames) == WithTop(frames[..|frames| - 1], Step(frames[|frames| - 2]))
  {
    hide EndsInLeaf;
    var n := |frames| - 1;
    assert FitsAt(frames, n) && FitsAt(frames, n - 1);
    forall l | 0 <= l < n
      ensures FitsAt(Back(frames), l)
    {
      assert FitsAt(frames, l);
    }
  }

  lemma ClimbEnd(frames: seq<Frame>, g: Setting, trace: seq<Visit>)
    requires Positions(frames) && frames[0].i == |frames[0].ts|
    ensures Climb(frames, g, trace) == Run(trace, Running, frames[0].matrix)
  {
  }

  /* What a post-order walk shows, position by position. */

  function Postorder(ts: seq<Tree>, i: nat, m: Matrix, level: nat, dec: Decoder): seq<Visit>
    requires i <= |ts|
    decreases ts, |ts| - i
  {
    if i == |ts| then []
    else
      var m' := Enter(m, ts[i].info, dec);
      Postorder(ts[i].kids, 0, m', level + 1, dec) + [Visit(ts[i].node, m', level)] +
        Postorder(ts, i + 1, m', level, dec)
  }

  /** Post-order shows the same visits as a listing in order, with the same matrices and at the same depths. */
  lemma {:induction false} PostAgrees(ts: seq<Tree>, i: nat, m: Matrix, level: nat, dec: Decoder)
    requires i <= |ts|
    ensures multiset(Postorder(ts, i, m, level, dec)) == multiset(Pruned(ts, i, m, level, dec, Cut({}, {}, false)))
    decreases ts, |ts| - i
  {
    hide Enter;
    if i < |ts| {
      var m' := Enter(m, ts[i].info, dec);
      PostAgrees(ts[i].kids, 0, m', level + 1, dec);
      PostAgrees(ts, i + 1, m', level, dec);
      SumsAgree(Visit(ts[i].node, m', level),
                Postorder(ts[i].kids, 0, m', level + 1, dec),
                Pruned(ts[i].kids, 0, m', level + 1, dec, Cut({}, {}, false)),
                Postorder(ts, i + 1, m', level, dec), Pruned(ts, i + 1, m', level, dec, Cut({}, {}, false)));
    }
  }

  lemma SumsAgree(v: Visit, a: seq<Visit>, a': seq<Visit>, b: seq<Visit>, b': seq<Visit>)
    requires multiset(a) == multiset(a') && multiset(b) == multiset(b')
    ensures multiset(a + [v] + b) == multiset([v] + a' + b')
  {
  }

  /** A walk that is not ended shows the whole post-order. */
  lemma {:induction false} PostWalkShows(ts: seq<Tree>, i: nat, m: Matrix, level: nat, cb: Callback, dec: Decoder,
                                         trace: seq<Visit>)
    requires i <= |ts| && PostWalk(ts, i, m, level, cb, dec, trace).status == Running
    ensures PostWalk(ts, i, m, level, cb, dec, trace).trace == trace + Postorder(ts, i, m, level, dec)
    decreases ts, |ts| - i
  {
    hide Enter;
    if i < |ts| {
      var m' := Enter(m, ts[i].info, dec);
      PostWalkShows(ts[i].kids, 0, m', level + 1, cb, dec, trace);
      var here := trace + Postorder(ts[i].kids, 0, m', level + 1, dec) + [Visit(ts[i].node, m', level)];
      PostWalkShows(ts, i + 1, m', level, cb, dec, here);
      assert here + Postorder(ts, i + 1, m', level, dec) == trace + Postorder(ts, i, m, level, dec);
    }
  }

  /** A callback that always goes on does not end the walk. */
  lemma {:induction false} PostWalkAll(ts: seq<Tree>, i: nat, m: Matrix, level: nat, cb: Callback, dec: Decoder,
                                       trace: seq<Visit>)
    requires i <= |ts| && forall h: seq<Visit> :: cb(h) != Exit
    ensures var r := PostWalk(ts, i, m, level, cb, dec, trace);
      r.trace == trace + Postorder(ts, i, m, level, dec) && r.status == Running
    decreases ts, |ts| - i
  {
    hide Enter, Postorder;
    if i < |ts| {
      var m' := Enter(m, ts[i].info, dec);
      PostWalkAll(ts[i].kids, 0, m', level + 1, cb, dec, trace);
      var below := PostWalk(ts[i].kids, 0, m', level + 1, cb, dec, trace);
      PostWalkAll(ts, i + 1, m', level, cb, dec, below.trace + [Visit(ts[i].node, m', level)]);
    }
    PostWalkShows(ts, i, m, level, cb, dec, trace);
  }

  /** The first EXIT ends the walk at once; up to there the walk is the post-order. */
  lemma {:induction false} PostWalkExits(ts: seq<Tree>, i: nat, m: Matrix, level: nat, cb: Callback, dec: Decoder,
                                         trace: seq<Visit>)
    requires i <= |ts|
    ensures var run := PostWalk(ts, i, m, level, cb, dec, trace);
      && CutShort(cb, trace, run.trace, trace + Postorder(ts, i, m, level, dec), run.status == Exited)
      && run.status != Stuck
    decreases ts, |ts| - i
  {
    hide Enter, CutShort;
    if i == |ts| {
      NothingCut(cb, trace);
      assert trace + [] == trace;
    } else {
      var m' := Enter(m, ts[i].info, dec);
      var v := Visit(ts[i].node, m', level);
      var below, after := Postorder(ts[i].kids, 0, m', level + 1, dec), Postorder(ts, i + 1, m', level, dec);
      var run := PostWalk(ts[i].kids, 0, m', level + 1, cb, dec, trace);
      PostWalkExits(ts[i].kids, 0, m', level + 1, cb, dec, trace);
      assert trace + (below + [v] + after) == trace + below + ([v] + after);
      if run.status == Exited {
        CutShortLonger(cb, trace, run.trace, trace + below, trace + (below + [v] + after));
      } else {
        PostWalkShows(ts[i].kids, 0, m', level + 1, cb, dec, trace);
        var here := run.trace + [v];
        assert trace + (below + [v] + after) == here + after;
        OneVisit(cb, run.trace, v, if cb(here) == Exit then here + after else here);
        CutShortThen(cb, trace, run.trace, here, if cb(here) == Exit then here + after else here, cb(here) == Exit);
        if cb(here) != Exit {
          PostWalkExits(ts, i + 1, m', level, cb, dec, here);
          CutShortThen(cb, trace, here, PostWalk(ts, i + 1, m', level, cb, dec, here).trace, here + after,
                       PostWalk(ts, i + 1, m', level, cb, dec, here).status == Exited);
        }
      }
    }
  }

  /** When the node at `p` is called back: after the siblings before it, and its own descendants. */
  ghost function PostIndex(ts: seq<Tree>, i: nat, p: Path): nat
    requires IsPath(ts, p) && i <= p[0]
    decreases ts, p[0] - i
  {
    if p[0] > i then Size(ts[i].kids, 0) + 1 + PostIndex(ts, i + 1, p)
    else if |p| == 1 then Size(ts[i].kids, 0)
    else PostIndex(ts[i].kids, 0, p[1..])
  }

  lemma {:induction false} PostIndexShows(ts: seq<Tree>, i: nat, p: Path, m: Matrix, level: nat, dec: Decoder)
    requires IsPath(ts, p) && i <= p[0]
    ensures |Postorder(ts, i, m, level, dec)| == Size(ts, i)
    ensures PostIndex(ts, i, p) < Size(ts, i)
    ensures var v := Postorder(ts, i, m, level, dec)[PostIndex(ts, i, p)];
      v.node == TreeAt(ts, p).node && v.level == level + |p| - 1
    decreases ts, |ts| - i
  {
    hide Enter;
    var m' := Enter(m, ts[i].info, dec);
    PostorderLength(ts[i].kids, 0, m', level + 1, dec);
    PostorderLength(ts, i + 1, m', level, dec);
    if p[0] > i {
      PostIndexShows(ts, i + 1, p, m', level, dec);
    } else if |p| > 1 {
      PostIndexShows(ts[i].kids, 0, p[1..], m', level + 1, dec);
    }
  }

  lemma {:induction false} PostorderLength(ts: seq<Tree>, i: nat, m: Matrix, level: nat, dec: Decoder)
    requires i <= |ts|
    ensures |Postorder(ts, i, m, level, dec)| == Size(ts, i)
    decreases ts, |ts| - i
  {
    hide Enter;
    if i < |ts| {
      var m' := Enter(m, ts[i].info, dec);
      PostorderLength(ts[i].kids, 0, m', level + 1, dec);
      PostorderLength(ts, i + 1, m', level, dec);
    }
  }

  lemma {:induction false} PostIndexBound(ts: seq<Tree>, i: nat, p: Path)
    requires IsPath(ts, p) && i <= p[0]
    ensures PostIndex(ts, i, p) < Size(ts, i)
    decreases ts, |ts| - i
  {
    if p[0] > i {
      PostIndexBound(ts, i + 1, p);
    } else if |p| > 1 {
      PostIndexBound(ts[i].kids, 0, p[1..]);
    }
  }

  /** Every call of the walk is for the node at one position ... */
  lemma {:induction false} PostIndexOnto(ts: seq<Tree>, i: nat, k: nat) returns (p: Path)
    requires i <= |ts| && k < Size(ts, i)
    ensures IsPath(ts, p) && i <= p[0] && PostIndex(ts, i, p) == k
    decreases ts, |ts| - i
  {
    var below := Size(ts[i].kids, 0);
    if k < below {
      var q := PostIndexOnto(ts[i].kids, 0, k);
      p := [i] + q;
      assert p[1..] == q;
    } else if k == below {
      p := [i];
    } else {
      p := PostIndexOnto(ts, i + 1, k - below - 1);
    }
  }

  /** ... and only one, so each node is called back exactly once ... */
  lemma {:induction false} PostIndexOnce(ts: seq<Tree>, i: nat, p: Path, q: Path)
    requires IsPath(ts, p) && IsPath(ts, q) && i <= p[0] && i <= q[0]
    requires PostIndex(ts, i, p) == PostIndex(ts, i, q)
    ensures p == q
    decreases ts, |ts| - i
  {
    if p[0] > i && q[0] > i {
      PostIndexOnce(ts, i + 1, p, q);
    } else if p[0] == i && q[0] == i {
      if |p| > 1 {
        PostIndexBound(ts[i].kids, 0, p[1..]);
      }
      if |q| > 1 {
        PostIndexBound(ts[i].kids, 0, q[1..]);
      }
      if |p| > 1 && |q| > 1 {
        PostIndexOnce(ts[i].kids, 0, p[1..], q[1..]);
        assert p == [p[0]] + p[1..] && q == [q[0]] + q[1..];
      }
    } else {
      var r := if p[0] == i then p else q;
      if |r| > 1 {
        PostIndexBound(ts[i].kids, 0, r[1..]);
      }
    }
  }

  /** ... and after everything below it. */
  lemma {:induction false} PostIndexAfter(ts: seq<Tree>, i: nat, p: Path, q: Path)
    requires IsPath(ts, p) && IsPath(ts, q) && i <= p[0] && p < q
    ensures PostIndex(ts, i, q) < PostIndex(ts, i, p)
    decreases ts, |ts| - i
  {
    if p[0] > i {
      PostIndexAfter(ts, i + 1, p, q);
    } else if |p| == 1 {
      PostIndexBound(ts[i].kids, 0, q[1..]);
    } else {
      PostIndexAfter(ts[i].kids, 0, p[1..], q[1..]);
    }
  }
}
