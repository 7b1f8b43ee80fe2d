/**
 In-order traversal: the iterative loop of prf_model_traverse_io_, with its explicit stack of child
 arrays, positions and limits, refines a recursive walk.
 */
module InOrder {
  import opened Bytes
  import opened Matrix
  import opened State
  import opened Hierarchy

  /** Answers of a callback.  `Up` and `Traverse` have no case of their own in the loop. */
  datatype Answer = Exit | Continue | Sibling | Pop | Up | Traverse

  /** What a callback is shown: the node, the matrix on top of the stack, the physical level. */
  datatype Visit = Visit(node: Node, matrix: Matrix, level: nat)

  /**
   A callback may remember everything it has been shown, so its answer is a function of the visits
   so far, the current one last.
   */
  type Callback = seq<Visit> -> Answer

  /** How the payload of a matrix record is read as a matrix. */
  type Decoder = seq<Byte> -> Matrix

  /** The entry hook: a matrix node multiplies the current matrix from the right. */
  function Enter(m: Matrix, info: Info, dec: Decoder): Matrix {
    if info.record.opcode == MATRIX then Mul(m, dec(info.record.data)) else m
  }

  /** The first pop node from index `i` on, or the number of nodes if there is none. */
  function NextPop(ts: seq<Tree>, i: nat): (j: nat)
    requires i <= |ts|
    ensures i <= j <= |ts|
    ensures j < |ts| ==> ts[j].info.Kind().PopNode?
    ensures forall n :: i <= n < j ==> !ts[n].info.Kind().PopNode?
    decreases |ts| - i
  {
    if i == |ts| || ts[i].info.Kind().PopNode? then i else NextPop(ts, i + 1)
  }

  /** `Stuck`: the callback asked for the next pop node where none follows. */
  datatype Status = Running | Exited | Stuck

  /** Everything shown so far, how the walk stands, and the current matrix of the level it is on. */
  datatype Run = Run(trace: seq<Visit>, status: Status, matrix: Matrix)

  /**
   The recursive walk over the trees from index `i` on.  Deleted nodes are skipped with what is
   below them; a finished subtree leaves no trace on the matrix of the level above.
   */
  ghost function Walk(ts: seq<Tree>, i: nat, m: Matrix, level: nat, cb: Callback, dec: Decoder, trace: seq<Visit>): Run
    requires i <= |ts|
    decreases ts, |ts| - i
  {
    if i == |ts| then Run(trace, Running, m)
    else if ts[i].info.deleted then Walk(ts, i + 1, m, level, cb, dec, trace)
    else
      var m' := Enter(m, ts[i].info, dec);
      var trace' := trace + [Visit(ts[i].node, m', level)];
      match cb(trace')
      case Exit => Run(trace', Exited, m')
      case Continue =>
        var below := Walk(ts[i].kids, 0, m', level + 1, cb, dec, trace');
        if below.status != Running then below else Walk(ts, i + 1, m', level, cb, dec, below.trace)
      case Pop =>
        var j := NextPop(ts, i + 1);
        if j == |ts| then Run(trace', Stuck, m') else Walk(ts, j, m', level, cb, dec, trace')
      case _ => Walk(ts, i + 1, m', level, cb, dec, trace')
  }

  /** A level of the loop: its trees, the position in them, and the current matrix there. */
  datatype Frame = Frame(ts: seq<Tree>, i: nat, matrix: Matrix)

  ghost predicate Positions(frames: seq<Frame>) {
    && 0 < |frames|
    && (forall l :: 0 <= l < |frames| - 1 ==> frames[l].i < |frames[l].ts|)
    && frames[|frames| - 1].i <= |frames[|frames| - 1].ts|
  }

  /** The rest of the walk: the top level, and then the levels below, past the node being visited. */
  ghost function Resume(frames: seq<Frame>, level: nat, cb: Callback, dec: Decoder, trace: seq<Visit>): Run
    requires Positions(frames)
    decreases |frames|
  {
    var n := |frames| - 1;
    var r := Walk(frames[n].ts, frames[n].i, frames[n].matrix, level + n, cb, dec, trace);
    if n == 0 || r.status != Running then r else Resume(Back(frames), level, cb, dec, r.trace)
  }

  /** One level up, past the node whose children are done. */
  ghost function Back(frames: seq<Frame>): (r: seq<Frame>)
    requires Positions(frames) && |frames| > 1
    ensures Positions(r) && |r| == |frames| - 1
  {
    var n := |frames| - 1;
    frames[..n][n - 1 := Step(frames[n - 1])]
  }

  ghost function Step(f: Frame): Frame {
    f.(i := f.i + 1)
  }

  /** How many nodes the loop has yet to look at. */
  ghost function Remaining(frames: seq<Frame>): nat
    requires Positions(frames)
    decreases |frames|
  {
    var n := |frames| - 1;
    Size(frames[n].ts, frames[n].i) + if n == 0 then 0 else Remaining(Back(frames))
  }

  ghost function WithTop(frames: seq<Frame>, f: Frame): seq<Frame>
    requires |frames| > 0
  {
    frames[|frames| - 1 := f]
  }

  /** Passing over the node at the top position, or from a pop request on to node `j`. */
  lemma ResumePast(frames: seq<Frame>, f: Frame, level: nat, cb: Callback, dec: Decoder, trace: seq<Visit>,
                   trace': seq<Visit>)
    requires Positions(frames) && f.ts == frames[|frames| - 1].ts && f.i <= |f.ts|
    requires var n := |frames| - 1;
      Walk(frames[n].ts, frames[n].i, frames[n].matrix, level + n, cb, dec, trace) ==
      Walk(f.ts, f.i, f.matrix, level + n, cb, dec, trace')
    ensures Resume(frames, level, cb, dec, trace) == Resume(WithTop(frames, f), level, cb, dec, trace')
    ensures Remaining(WithTop(frames, f)) == Remaining(frames) - Size(f.ts, frames[|frames| - 1].i) + Size(f.ts, f.i)
  {
    if |frames| > 1 {
      assert Back(WithTop(frames, f)) == Back(frames);
    }
  }

  /** Going down into the children of the node at the top position. */
  lemma ResumeDown(frames: seq<Frame>, m: Matrix, level: nat, cb: Callback, dec: Decoder, trace: seq<Visit>,
                   trace': seq<Visit>)
    requires Positions(frames)
    requires var f := frames[|frames| - 1];
      && f.i < |f.ts| && !f.ts[f.i].info.deleted
      && m == Enter(f.matrix, f.ts[f.i].info, dec)
      && trace' == trace + [Visit(f.ts[f.i].node, m, level + |frames| - 1)]
      && cb(trace') == Continue
    ensures var f := frames[|frames| - 1];
      var down := WithTop(frames, f.(matrix := m)) + [Frame(f.ts[f.i].kids, 0, m)];
      && Positions(down)
      && Resume(frames, level, cb, dec, trace) == Resume(down, level, cb, dec, trace')
      && Remaining(down) == Remaining(frames) - 1
  {
    var n := |frames| - 1;
    var f := frames[n];
    var down := WithTop(frames, f.(matrix := m)) + [Frame(f.ts[f.i].kids, 0, m)];
    assert Back(down) == WithTop(frames, Step(f.(matrix := m)));
    var below := Walk(f.ts[f.i].kids, 0, m, level + n + 1, cb, dec, trace');
    if n > 0 {
      assert Back(Back(down)) == Back(frames);
    }
  }

  /** Coming back up from a finished list of children. */
  lemma ResumeUp(frames: seq<Frame>, level: nat, cb: Callback, dec: Decoder, trace: seq<Visit>)
    requires Positions(frames) && |frames| > 1
    requires frames[|frames| - 1].i == |frames[|frames| - 1].ts|
    ensures Resume(frames, level, cb, dec, trace) == Resume(Back(frames), level, cb, dec, trace)
    ensures Remaining(frames) == Remaining(Back(frames))
  {
  }

  /** The variables of the loop: the array of each level, the position in it, and its length. */
  datatype Cursor = Cursor(stack: seq<ChildArray>, child: seq<nat>, limit: seq<nat>) {
    predicate Shaped() {
      0 < |stack| == |child| == |limit|
    }

    function Level(): nat
      requires Shaped()
    {
      |stack| - 1
    }
  }

  /** What stays the same during one walk: the nodes, and the levels the state came with. */
  datatype Setting = Setting(S: set<object>, below: seq<Matrix>, level: nat, cb: Callback, dec: Decoder)

  ghost predicate Agree(f: Frame, siblings: ChildArray, child: nat, limit: nat, S: set<object>)
    reads S, siblings
  {
    siblings.elems == Nodes(f.ts) && child == f.i && limit == |f.ts| && AllLinked(f.ts, S)
  }

  ghost function Matrices(frames: seq<Frame>): (ms: seq<Matrix>)
    ensures |ms| == |frames| && forall l :: 0 <= l < |frames| ==> ms[l] == frames[l].matrix
  {
    seq(|frames|, l requires 0 <= l < |frames| => frames[l].matrix)
  }

  /** The state has one level for each frame above those it came with. */
  ghost predicate InStep(frames: seq<Frame>, state: TraversalState, g: Setting)
    reads state, state.inverse
  {
    && state.Valid() && state !in g.S && state.inverse !in g.S
    && state.Stack() == g.below + Matrices(frames)
    && state.physicalLevel + 1 == g.level + |frames|
  }

  /** The variables of the loop and the state are those of the frames. */
  ghost predicate Consistent(frames: seq<Frame>, c: Cursor, state: TraversalState, g: Setting)
    reads g.S, c.stack, state, state.inverse
  {
    && Positions(frames) && c.Shaped() && |c.stack| == |frames|
    && (forall l :: 0 <= l < |frames| ==> Agree(frames[l], c.stack[l], c.child[l], c.limit[l], g.S))
    && InStep(frames, state, g)
  }

  /** The rest of the walk from here. */
  ghost function Rest(frames: seq<Frame>, g: Setting, trace: seq<Visit>): Run
    requires Positions(frames)
  {
    Resume(frames, g.level, g.cb, g.dec, trace)
  }

  /** The entry hook of a node, and the callback. */
  method CallNode(node: Node, state: TraversalState, cb: Callback, dec: Decoder, trace: seq<Visit>)
    returns (answer: Answer, trace': seq<Visit>)
    requires state.Valid()
    modifies state`matrices, state`inverseDirty
    ensures state.Valid()
    ensures state.Stack() == old(state.Stack())[state.pushLevel := Enter(old(state.Top()), node.TheInfo(), dec)]
    ensures trace' == trace + [Visit(node, state.Top(), state.physicalLevel)]
    ensures answer == cb(trace')
  {
    hide IsInverse;
    if node.opcode == MATRIX {
      state.MultRight(dec(node.data));
    }
    trace' := trace + [Visit(node, state.matrices[state.pushLevel], state.physicalLevel)];
    answer := cb(trace');
  }

  method EnterLevel(c: Cursor, state: TraversalState, ghost frames: seq<Frame>, ghost g: Setting) returns (c': Cursor)
    requires Consistent(frames, c, state, g)
    requires c.child[c.Level()] < c.limit[c.Level()]
    requires c.stack[c.Level()].elems[c.child[c.Level()]].children != null
    modifies state`matrices, state`pushLevel, state`physicalLevel
    ensures var f := frames[|frames| - 1];
      Consistent(frames + [Frame(f.ts[f.i].kids, 0, f.matrix)], c', state, g)
    ensures c'.stack == c.stack + [c.stack[c.Level()].elems[c.child[c.Level()]].children]
  {
    var level := c.Level();
    ghost var f := frames[level];
    assert Agree(f, c.stack[level], c.child[level], c.limit[level], g.S) && Linked(f.ts[f.i], g.S);
    var children := c.stack[level].elems[c.child[level]].children;
    c' := Cursor(c.stack + [children], c.child + [0], c.limit + [|children.elems|]);
    state.Push();
    state.physicalLevel := state.physicalLevel + 1;
    ghost var frames' := frames + [Frame(f.ts[f.i].kids, 0, f.matrix)];
    assert Matrices(frames') == Matrices(frames) + [f.matrix];
  }

  method LeaveLevel(c: Cursor, state: TraversalState, ghost frames: seq<Frame>, ghost g: Setting) returns (c': Cursor)
    requires Consistent(frames, c, state, g) && |frames| > 1
    modifies state`inverseDirty, state`pushLevel, state`physicalLevel
    ensures Consistent(Back(frames), c', state, g)
  {
    var level := c.Level() - 1;
    c' := Cursor(c.stack[..level + 1], c.child[..level + 1], c.limit[..level + 1]);
    c' := c'.(child := c'.child[level := c'.child[level] + 1]);
    state.Pop();
    state.physicalLevel := state.physicalLevel - 1;
    assert Matrices(Back(frames)) == Matrices(frames)[..level + 1];
    assert Agree(frames[level], c.stack[level], c.child[level], c.limit[level], g.S);
  }

  /** `child[level]++` and the loop that leaves every level whose last child is done. */
  method NextChild(c: Cursor, state: TraversalState, ghost frames: seq<Frame>, ghost g: Setting,
                   ghost trace: seq<Visit>)
    returns (c': Cursor, ghost frames': seq<Frame>)
    requires Consistent(frames, c, state, g) && c.child[c.Level()] < c.limit[c.Level()]
    modifies state`inverseDirty, state`pushLevel, state`physicalLevel
    ensures Consistent(frames', c', state, g)
    ensures c'.Level() > 0 ==> c'.child[c'.Level()] < c'.limit[c'.Level()]
    ensures frames'[0].ts == frames[0].ts
    ensures var stepped := WithTop(frames, Step(frames[|frames| - 1]));
      Positions(stepped) && Rest(frames', g, trace) == Rest(stepped, g, trace) &&
        Remaining(frames') == Remaining(stepped)
  {
    hide Walk;
    c' := c.(child := c.child[c.Level() := c.child[c.Level()] + 1]);
    frames' := WithTop(frames, Step(frames[|frames| - 1]));
    assert Matrices(frames') == Matrices(frames);
    ghost var stepped := frames';
    while c'.Level() > 0 && c'.child[c'.Level()] >= c'.limit[c'.Level()]
      invariant Consistent(frames', c', state, g)
      invariant frames'[0].ts == frames[0].ts
      invariant Rest(frames', g, trace) == Rest(stepped, g, trace)
      invariant Remaining(frames') == Remaining(stepped)
      decreases |c'.stack|
    {
      ResumeUp(frames', g.level, g.cb, g.dec, trace);
      c' := LeaveLevel(c', state, frames', g);
      frames' := Back(frames');
    }
  }

  /** The loop that looks for the next pop node among the siblings. */
  method SkipToPop(c: Cursor, state: TraversalState, ghost frames: seq<Frame>, ghost g: Setting)
    returns (c': Cursor, ghost frames': seq<Frame>)
    requires Consistent(frames, c, state, g) && c.child[c.Level()] < c.limit[c.Level()]
    requires var f := frames[|frames| - 1]; NextPop(f.ts, f.i + 1) < |f.ts|
    ensures Consistent(frames', c', state, g)
    ensures var f := frames[|frames| - 1]; frames' == WithTop(frames, f.(i := NextPop(f.ts, f.i + 1)))
    ensures c'.Level() == c.Level() && c'.child[c'.Level()] < c'.limit[c'.Level()]
  {
    hide InStep, WithTop;
    var level := c.Level();
    ghost var f := frames[level];
    ghost var j := NextPop(f.ts, f.i + 1);
    assert Agree(f, c.stack[level], c.child[level], c.limit[level], g.S);
    var i := c.child[level] + 1;
    while KindOf(c.stack[level].elems[i].opcode) != PopNode
      invariant f.i < i <= j
      decreases j - i
    {
      assert Linked(f.ts[i], g.S);
      i := i + 1;
    }
    assert Linked(f.ts[i], g.S);
    c' := c.(child := c.child[level := i]);
    frames' := WithTop(frames, f.(i := j));
    MovedOn(c, state, frames, g, j);
  }

  /** A position further on in the same array is as consistent. */
  lemma MovedOn(c: Cursor, state: TraversalState, frames: seq<Frame>, g: Setting, j: nat)
    requires Consistent(frames, c, state, g)
    requires var f := frames[|frames| - 1]; j < |f.ts|
    ensures Consistent(WithTop(frames, frames[|frames| - 1].(i := j)), c.(child := c.child[c.Level() := j]), state, g)
  {
    hide Linked;
    assert Matrices(WithTop(frames, frames[|frames| - 1].(i := j))) == Matrices(frames);
  }

  /** What the loop looks at next: nothing is shown of a deleted node. */
  method VisitNode(c: Cursor, state: TraversalState, cb: Callback, dec: Decoder, trace: seq<Visit>,
                   ghost frames: seq<Frame>, ghost g: Setting)
    returns (answer: Answer, trace': seq<Visit>, ghost entered: Frame)
    requires Consistent(frames, c, state, g) && c.child[c.Level()] < c.limit[c.Level()]
    requires cb == g.cb && dec == g.dec
    modifies state`matrices, state`inverseDirty
    ensures Consistent(WithTop(frames, entered), c, state, g)
    ensures entered == Shown(frames, g).0 && trace' == trace + Shown(frames, g).1
    ensures answer == if trace' == trace then Sibling else cb(trace')
  {
    hide Linked, IsInverse, Enter;
    var level := c.Level();
    ghost var f := frames[level];
    AtPosition(f, c.stack[level], c.child[level], c.limit[level], g.S);
    var node := c.stack[level].elems[c.child[level]];
    entered := f;
    assert WithTop(frames, f) == frames;
    if node.deleted {
      return Sibling, trace, f;
    }
    StateTop(frames, state, g);
    answer, trace' := CallNode(node, state, cb, dec, trace);
    entered := f.(matrix := state.Top());
    assert Matrices(WithTop(frames, entered)) == Matrices(frames)[level := state.Top()];
  }

  lemma AtPosition(f: Frame, siblings: ChildArray, child: nat, limit: nat, S: set<object>)
    requires Agree(f, siblings, child, limit, S) && f.i < |f.ts|
    ensures var node := siblings.elems[child];
      && node == f.ts[f.i].node && node in S && node.TheInfo() == f.ts[f.i].info
      && if f.ts[f.i].kids == [] then node.children == null
         else node.children != null && node.children.elems == Nodes(f.ts[f.i].kids) && AllLinked(f.ts[f.i].kids, S)
  {
    assert Linked(f.ts[f.i], S);
  }

  lemma StateTop(frames: seq<Frame>, state: TraversalState, g: Setting)
    requires |frames| > 0 && InStep(frames, state, g)
    ensures state.Top() == frames[|frames| - 1].matrix && state.pushLevel == |g.below| + |frames| - 1
  {
    assert state.Stack()[state.pushLevel] == state.Top();
  }

  /** The frame after the node at the top position was entered, and what the callback was shown. */
  ghost function Shown(frames: seq<Frame>, g: Setting): (r: (Frame, seq<Visit>))
    requires Positions(frames) && frames[|frames| - 1].i < |frames[|frames| - 1].ts|
    ensures r.0.ts == frames[|frames| - 1].ts && r.0.i == frames[|frames| - 1].i
    ensures r.1 == [] <==> (var f := frames[|frames| - 1]; f.ts[f.i].info.deleted)
    ensures r.1 != [] ==> (var f := frames[|frames| - 1];
                           r == (f.(matrix := Enter(f.matrix, f.ts[f.i].info, g.dec)),
                                 [Visit(f.ts[f.i].node, r.0.matrix, g.level + |frames| - 1)]))
  {
    var f := frames[|frames| - 1];
    var info := f.ts[f.i].info;
    if info.deleted then (f, [])
    else
      var m := Enter(f.matrix, info, g.dec);
      (f.(matrix := m), [Visit(f.ts[f.i].node, m, g.level + |frames| - 1)])
  }

  /** Where the answer leads, once the node at the top position was entered: to the rest `run`. */
  ghost predicate Leads(frames: seq<Frame>, answer: Answer, g: Setting, trace: seq<Visit>, run: Run, bound: nat)
    requires Positions(frames) && frames[|frames| - 1].i < |frames[|frames| - 1].ts|
  {
    var f := frames[|frames| - 1];
    match answer
    case Exit => run == Run(trace, Exited, f.matrix)
    case Continue => GoesTo(frames + [Frame(f.ts[f.i].kids, 0, f.matrix)], g, trace, run, bound)
    case Pop =>
      var j := NextPop(f.ts, f.i + 1);
      if j == |f.ts| then run == Run(trace, Stuck, f.matrix)
      else GoesTo(WithTop(frames, f.(i := j)), g, trace, run, bound)
    case _ => GoesTo(WithTop(frames, Step(f)), g, trace, run, bound)
  }

  ghost predicate GoesTo(frames: seq<Frame>, g: Setting, trace: seq<Visit>, run: Run, bound: nat) {
    Positions(frames) && Rest(frames, g, trace) == run && Remaining(frames) < bound
  }

  /** The walk steps over a deleted node, and over one whose answer does not lead down or out. */
  lemma WalkOver(frames: seq<Frame>, g: Setting, trace: seq<Visit>, answer: Answer)
    requires Positions(frames) && frames[|frames| - 1].i < |frames[|frames| - 1].ts|
    requires var shown := Shown(frames, g).1; answer == if shown == [] then Sibling else g.cb(trace + shown)
    ensures var (f, shown) := Shown(frames, g);
      var level := g.level + |frames| - 1;
      var walk := Walk(f.ts, f.i, frames[|frames| - 1].matrix, level, g.cb, g.dec, trace);
      match answer
      case Exit => walk == Run(trace + shown, Exited, f.matrix)
      case Continue => true
      case Pop =>
        var j := NextPop(f.ts, f.i + 1);
        walk == if j == |f.ts| then Run(trace + shown, Stuck, f.matrix)
                else Walk(f.ts, j, f.matrix, level, g.cb, g.dec, trace + shown)
      case _ => walk == Walk(f.ts, f.i + 1, f.matrix, level, g.cb, g.dec, trace + shown)
  {
    assert trace + [] == trace;
  }

  /** Resuming from another position of the same level, when the walks from there are the same. */
  lemma GoesPast(frames: seq<Frame>, entered: Frame, i: nat, g: Setting, trace: seq<Visit>, trace': seq<Visit>)
    requires Positions(frames) && frames[|frames| - 1].i < i <= |entered.ts| && entered.ts == frames[|frames| - 1].ts
    requires var n := |frames| - 1;
      Walk(frames[n].ts, frames[n].i, frames[n].matrix, g.level + n, g.cb, g.dec, trace) ==
      Walk(entered.ts, i, entered.matrix, g.level + n, g.cb, g.dec, trace')
    ensures GoesTo(WithTop(WithTop(frames, entered), entered.(i := i)), g, trace', Rest(frames, g, trace),
                   Remaining(frames))
  {
    hide Walk;
    var f := frames[|frames| - 1];
    assert WithTop(WithTop(frames, entered), entered.(i := i)) == WithTop(frames, entered.(i := i));
    ResumePast(frames, entered.(i := i), g.level, g.cb, g.dec, trace, trace');
    SizeSkips(f.ts, f.i + 1, i);
  }

  /** What the answer of the callback does to the rest of the walk. */
  lemma AnswerEffect(frames: seq<Frame>, g: Setting, trace: seq<Visit>, answer: Answer)
    requires Positions(frames) && frames[|frames| - 1].i < |frames[|frames| - 1].ts|
    requires var shown := Shown(frames, g).1; answer == if shown == [] then Sibling else g.cb(trace + shown)
    ensures var (entered, shown) := Shown(frames, g);
      Leads(WithTop(frames, entered), answer, g, trace + shown, Rest(frames, g, trace), Remaining(frames))
  {
    hide Walk, Shown, NextPop, Resume, Remaining, GoesTo;
    match answer
    case Exit =>
      WalkOver(frames, g, trace, answer);
      ResumeExit(frames, g, trace);
    case Continue =>
      ContinueEffect(frames, g, trace);
    case Pop =>
      PopEffect(frames, g, trace);
    case _ =>
      var (f, shown) := Shown(frames, g);
      WalkOver(frames, g, trace, answer);
      GoesPast(frames, f, f.i + 1, g, trace, trace + shown);
  }

  lemma PopEffect(frames: seq<Frame>, g: Setting, trace: seq<Visit>)
    requires Positions(frames) && frames[|frames| - 1].i < |frames[|frames| - 1].ts|
    requires var shown := Shown(frames, g).1; shown != [] && g.cb(trace + shown) == Pop
    ensures var (f, shown) := Shown(frames, g);
      Leads(WithTop(frames, f), Pop, g, trace + shown, Rest(frames, g, trace), Remaining(frames))
  {
    hide Walk, Shown, NextPop, Resume, Remaining, GoesTo;
    var (f, shown) := Shown(frames, g);
    WalkOver(frames, g, trace, Pop);
    var j := NextPop(f.ts, f.i + 1);
    if j < |f.ts| {
      GoesPast(frames, f, j, g, trace, trace + shown);
    } else {
      ResumeExit(frames, g, trace);
    }
  }

  lemma ContinueEffect(frames: seq<Frame>, g: Setting, trace: seq<Visit>)
    requires Positions(frames) && frames[|frames| - 1].i < |frames[|frames| - 1].ts|
    requires var shown := Shown(frames, g).1; shown != [] && g.cb(trace + shown) == Continue
    ensures var (f, shown) := Shown(frames, g);
      GoesTo(WithTop(frames, f) + [Frame(f.ts[f.i].kids, 0, f.matrix)], g, trace + shown, Rest(frames, g, trace),
             Remaining(frames))
  {
    var (f, shown) := Shown(frames, g);
    ResumeDown(frames, f.matrix, g.level, g.cb, g.dec, trace, trace + shown);
  }

  /** A walk that stops on the top level stops altogether. */
  lemma ResumeExit(frames: seq<Frame>, g: Setting, trace: seq<Visit>)
    requires Positions(frames)
    ensures var n := |frames| - 1;
      var walk := Walk(frames[n].ts, frames[n].i, frames[n].matrix, g.level + n, g.cb, g.dec, trace);
      walk.status != Running ==> Rest(frames, g, trace) == walk
  {
  }

  /** After CONTINUE a node without children is stepped over. */
  lemma NoChildren(frames: seq<Frame>, g: Setting, trace: seq<Visit>)
    requires Positions(frames) && |frames| > 1 && frames[|frames| - 1].i == |frames[|frames| - 1].ts|
    ensures Rest(frames, g, trace) == Rest(Back(frames), g, trace) && Remaining(frames) == Remaining(Back(frames))
  {
    ResumeUp(frames, g.level, g.cb, g.dec, trace);
  }

  /** Traversal control: down into the children, on to the next pop node, or on to the next node. */
  method Advance(c: Cursor, state: TraversalState, answer: Answer, ghost frames: seq<Frame>, ghost g: Setting,
                 ghost trace: seq<Visit>, ghost run: Run, ghost bound: nat)
    returns (c': Cursor, ghost frames': seq<Frame>)
    requires Consistent(frames, c, state, g) && c.child[c.Level()] < c.limit[c.Level()]
    requires answer != Exit && Leads(frames, answer, g, trace, run, bound) && run.status != Stuck
    modifies state`matrices, state`inverseDirty, state`pushLevel, state`physicalLevel
    ensures Consistent(frames', c', state, g)
    ensures c'.Level() > 0 ==> c'.child[c'.Level()] < c'.limit[c'.Level()]
    ensures frames'[0].ts == frames[0].ts
    ensures GoesTo(frames', g, trace, run, bound)
  {
    hide Walk, Resume, InStep, Linked, Remaining;
    var level := c.Level();
    ghost var f := frames[level];
    assert Agree(f, c.stack[level], c.child[level], c.limit[level], g.S);
    AtPosition(f, c.stack[level], c.child[level], c.limit[level], g.S);
    if answer == Continue {
      ghost var down := frames + [Frame(f.ts[f.i].kids, 0, f.matrix)];
      if c.stack[level].elems[c.child[level]].children != null {
        c' := EnterLevel(c, state, frames, g);
        frames' := down;
        assert c'.Level() == level + 1;
        assert Agree(down[level + 1], c'.stack[level + 1], c'.child[level + 1], c'.limit[level + 1], g.S);
        return;
      }
      NoChildren(down, g, trace);
      assert Back(down) == WithTop(frames, Step(f));
    }
    if answer == Pop {
      c', frames' := SkipToPop(c, state, frames, g);
      return;
    }
    c', frames' := NextChild(c, state, frames, g, trace);
  }

  /**
   prf_model_traverse_io_, for any state it is called with.  The callback is shown what the recursive
   walk shows it; unless it exits, the state ends on the level it started on.
   */
  method TraverseIo(root: Node, state: TraversalState, cb: Callback, dec: Decoder, ghost t: Tree, ghost S: set<object>)
    returns (trace: seq<Visit>, traverse: Answer)
    requires t.node == root && Linked(t, S)
    requires state.Valid() && state !in S && state.inverse !in S
    requires Walk([t], 0, state.Top(), state.physicalLevel, cb, dec, []).status != Stuck
    modifies state`matrices, state`inverseDirty, state`pushLevel, state`physicalLevel
    ensures var run := old(Walk([t], 0, state.Top(), state.physicalLevel, cb, dec, []));
      && trace == run.trace
      && (traverse == Exit <==> run.status == Exited)
      && (traverse != Exit ==>
            && state.Valid()
            && state.physicalLevel == old(state.physicalLevel)
            && state.Stack() == old(state.Stack()[..state.pushLevel]) + [run.matrix])
  {
    hide Walk, Linked, Resume, Leads, Remaining, IsInverse;
    var roots := new ChildArray([root]);
    var c := Cursor([roots], [0], [1]);
    trace, traverse := [], Continue;
    ghost var g := Setting(S, state.Stack()[..state.pushLevel], state.physicalLevel, cb, dec);
    ghost var frames := [Frame([t], 0, state.Top())];
    ghost var run := Walk([t], 0, state.Top(), state.physicalLevel, cb, dec, []);
    assert state.Stack() == g.below + [state.Top()];
    assert Matrices(frames) == [state.Top()] && Nodes([t]) == [root];
    RestAtStart(frames[0], g);
    while c.child[0] < c.limit[0]
      invariant Consistent(frames, c, state, g)
      invariant c.Level() > 0 ==> c.child[c.Level()] < c.limit[c.Level()]
      invariant Rest(frames, g, trace) == run
      invariant frames[0].ts == [t]
      invariant traverse != Exit
      decreases Remaining(frames)
    {
      ghost var entered;
      ghost var trace0 := trace;
      traverse, trace, entered := VisitNode(c, state, cb, dec, trace, frames, g);
      AnswerEffect(frames, g, trace0, traverse);
      ghost var bound := Remaining(frames);
      if traverse == Exit {
        ExitEffect(WithTop(frames, entered), g, trace, run, bound);
        break;
      }
      c, frames := Advance(c, state, traverse, WithTop(frames, entered), g, trace, run, bound);
    }
    if traverse != Exit {
      RestAtEnd(frames, g, trace);
    }
  }

  lemma ExitEffect(frames: seq<Frame>, g: Setting, trace: seq<Visit>, run: Run, bound: nat)
    requires Positions(frames) && frames[|frames| - 1].i < |frames[|frames| - 1].ts|
    requires Leads(frames, Exit, g, trace, run, bound)
    ensures run.trace == trace && run.status == Exited
  {
  }

  lemma RestAtStart(f: Frame, g: Setting)
    requires f.i <= |f.ts|
    ensures Rest([f], g, []) == Walk(f.ts, f.i, f.matrix, g.level, g.cb, g.dec, [])
  {
  }

  lemma RestAtEnd(frames: seq<Frame>, g: Setting, trace: seq<Visit>)
    requires Positions(frames) && frames[0].i == |frames[0].ts|
    ensures |frames| == 1 && Rest(frames, g, trace) == Run(trace, Running, frames[0].matrix)
  {
  }
}
