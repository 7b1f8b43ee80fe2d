/**
 Breadth-first traversal: prf_model_traverse_bf keeps, next to each child array still to be visited,
 a snapshot of the traversal state.  It refines a scan level by level.
 */
module BreadthFirst {
  import opened Matrix
  import opened State
  import opened Hierarchy
  import opened InOrder
  import opened Listing
  import opened Pruning
  import opened Ending

  /** A child array to be visited: its trees, and the current matrix and the depth it is visited with. */
  datatype Group = Group(ts: seq<Tree>, matrix: Matrix, level: nat)

  /** What scanning a level leads to: everything shown so far, the groups of the next level, the end. */
  datatype Scan = Scan(trace: seq<Visit>, next: seq<Group>, exited: bool)

  /** One child array.  Deleted nodes are visited like any other. */
  ghost function ScanGroup(g: Group, j: nat, m: Matrix, cb: Callback, dec: Decoder, trace: seq<Visit>): Scan
    requires j <= |g.ts|
    decreases |g.ts| - j
  {
    if j == |g.ts| then Scan(trace, [], false)
    else
      var m' := Enter(m, g.ts[j].info, dec);
      var trace' := trace + [Visit(g.ts[j].node, m', g.level)];
      if cb(trace') == Exit then Scan(trace', [], true)
      else
        var rest := ScanGroup(g, j + 1, m', cb, dec, trace');
        rest.(next := Below(g, j, m', cb(trace')) + rest.next)
  }

  /** The children of node `j`, if there are any and they are wanted. */
  function Below(g: Group, j: nat, m: Matrix, answer: Answer): seq<Group>
    requires j < |g.ts|
  {
    if g.ts[j].kids != [] && answer != Sibling then [Group(g.ts[j].kids, m, g.level + 1)] else []
  }

  ghost function ScanLevel(gs: seq<Group>, i: nat, cb: Callback, dec: Decoder, trace: seq<Visit>): Scan
    requires i <= |gs|
    decreases |gs| - i
  {
    if i == |gs| then Scan(trace, [], false)
    else
      var here := ScanGroup(gs[i], 0, gs[i].matrix, cb, dec, trace);
      if here.exited then here
      else
        var rest := ScanLevel(gs, i + 1, cb, dec, here.trace);
        rest.(next := here.next + rest.next)
  }

  ghost function TotalSize(gs: seq<Group>, i: nat): nat
    requires i <= |gs|
    decreases |gs| - i
  {
    if i == |gs| then 0 else Size(gs[i].ts, 0) + TotalSize(gs, i + 1)
  }

  lemma {:induction false} TotalSizeOfSum(a: seq<Group>, b: seq<Group>, i: nat)
    requires i <= |a|
    ensures TotalSize(a + b, i) == TotalSize(a, i) + TotalSize(b, 0)
    decreases |a| - i
  {
    if i == |a| {
      TotalSizeShift(a, b, 0);
    } else {
      TotalSizeOfSum(a, b, i + 1);
    }
  }

  lemma {:induction false} TotalSizeShift(a: seq<Group>, b: seq<Group>, i: nat)
    requires i <= |b|
    ensures TotalSize(a + b, |a| + i) == TotalSize(b, i)
    decreases |b| - i
  {
    if i < |b| {
      TotalSizeShift(a, b, i + 1);
    }
  }

  lemma {:induction false} ScanGroupShrinks(g: Group, j: nat, m: Matrix, cb: Callback, dec: Decoder, trace: seq<Visit>)
    requires j <= |g.ts|
    ensures TotalSize(ScanGroup(g, j, m, cb, dec, trace).next, 0) + |g.ts| - j <= Size(g.ts, j)
    decreases |g.ts| - j
  {
    hide Enter;
    if j < |g.ts| {
      var m' := Enter(m, g.ts[j].info, dec);
      var trace' := trace + [Visit(g.ts[j].node, m', g.level)];
      ScanGroupShrinks(g, j + 1, m', cb, dec, trace');
      SizeAtLeast(g.ts, j);
      if cb(trace') != Exit {
        var b := Below(g, j, m', cb(trace'));
        TotalSizeOfSum(b, ScanGroup(g, j + 1, m', cb, dec, trace').next, 0);
        assert b != [] ==> TotalSize(b, 0) == Size(g.ts[j].kids, 0) + TotalSize(b, 1);
      }
    }
  }

  lemma {:induction false} SizeAtLeast(ts: seq<Tree>, i: nat)
    requires i <= |ts|
    ensures Size(ts, i) >= |ts| - i
    decreases |ts| - i
  {
    if i < |ts| {
      SizeAtLeast(ts, i + 1);
    }
  }

  ghost predicate NoneEmpty(gs: seq<Group>) {
    forall i :: 0 <= i < |gs| ==> gs[i].ts != []
  }

  lemma {:induction false} ScanLevelShrinks(gs: seq<Group>, i: nat, cb: Callback, dec: Decoder, trace: seq<Visit>)
    requires i <= |gs| && NoneEmpty(gs)
    ensures TotalSize(ScanLevel(gs, i, cb, dec, trace).next, 0) + |gs| - i <= TotalSize(gs, i)
    ensures NoneEmpty(ScanLevel(gs, i, cb, dec, trace).next)
    decreases |gs| - i
  {
    if i < |gs| {
      var here := ScanGroup(gs[i], 0, gs[i].matrix, cb, dec, trace);
      ScanGroupShrinks(gs[i], 0, gs[i].matrix, cb, dec, trace);
      ScanGroupNoneEmpty(gs[i], 0, gs[i].matrix, cb, dec, trace);
      ScanLevelShrinks(gs, i + 1, cb, dec, here.trace);
      TotalSizeOfSum(here.next, ScanLevel(gs, i + 1, cb, dec, here.trace).next, 0);
      TotalSizeAtLeast(gs, i);
    }
  }

  lemma {:induction false} TotalSizeAtLeast(gs: seq<Group>, i: nat)
    requires i <= |gs| && NoneEmpty(gs)
    ensures TotalSize(gs, i) >= |gs| - i
    decreases |gs| - i
  {
    if i < |gs| {
      SizeAtLeast(gs[i].ts, 0);
      TotalSizeAtLeast(gs, i + 1);
    }
  }

  lemma {:induction false} ScanGroupNoneEmpty(g: Group, j: nat, m: Matrix, cb: Callback, dec: Decoder,
                                              trace: seq<Visit>)
    requires j <= |g.ts|
    ensures NoneEmpty(ScanGroup(g, j, m, cb, dec, trace).next)
    decreases |g.ts| - j
  {
    hide Enter;
    if j < |g.ts| {
      var m' := Enter(m, g.ts[j].info, dec);
      ScanGroupNoneEmpty(g, j + 1, m', cb, dec, trace + [Visit(g.ts[j].node, m', g.level)]);
    }
  }

  /** The whole scan: everything shown, and whether the callback ended it. */
  ghost function Bfs(gs: seq<Group>, cb: Callback, dec: Decoder, trace: seq<Visit>): (seq<Visit>, bool)
    requires NoneEmpty(gs)
    decreases TotalSize(gs, 0)
  {
    if gs == [] then (trace, false)
    else
      var s := ScanLevel(gs, 0, cb, dec, trace);
      ScanLevelShrinks(gs, 0, cb, dec, trace);
      if s.exited then (s.trace, true) else Bfs(s.next, cb, dec, s.trace)
  }

  /* Agreement with listings in order. */

  ghost predicate NoDeleted(ts: seq<Tree>) {
    forall i :: 0 <= i < |ts| ==> !ts[i].info.deleted && NoDeleted(ts[i].kids)
  }

  /** The visits owed to a group: its listing, without what is below the nodes of `S`. */
  ghost function OwedTo(g: Group, dec: Decoder, S: set<Node>): multiset<Visit> {
    multiset(Pruned(g.ts, 0, g.matrix, g.level, dec, Cut(S, {}, false)))
  }

  /** The visits owed to the groups, each walked in order. */
  ghost function Owed(gs: seq<Group>, i: nat, dec: Decoder, S: set<Node>): multiset<Visit>
    requires i <= |gs|
    decreases |gs| - i
  {
    if i == |gs| then multiset{} else OwedTo(gs[i], dec, S) + Owed(gs, i + 1, dec, S)
  }

  lemma OwedNext(gs: seq<Group>, i: nat, dec: Decoder, S: set<Node>)
    requires i < |gs|
    ensures Owed(gs, i, dec, S) == OwedTo(gs[i], dec, S) + Owed(gs, i + 1, dec, S)
  {
    hide OwedTo;
  }

  lemma OwedEnd(gs: seq<Group>, dec: Decoder, S: set<Node>)
    ensures Owed(gs, |gs|, dec, S) == multiset{}
  {
  }

  lemma SumOfSums<T>(x: multiset<T>, y: multiset<T>, z: multiset<T>)
    ensures x + y + z == x + (y + z)
  {
  }

  lemma {:induction false} OwedOfSum(a: seq<Group>, b: seq<Group>, i: nat, dec: Decoder, S: set<Node>)
    requires i <= |a|
    ensures Owed(a + b, i, dec, S) == Owed(a, i, dec, S) + Owed(b, 0, dec, S)
    decreases |a| - i
  {
    hide OwedTo, Owed;
    if i == |a| {
      OwedShift(a, b, 0, dec, S);
      OwedEnd(a, dec, S);
    } else {
      OwedNext(a + b, i, dec, S);
      OwedNext(a, i, dec, S);
      OwedOfSum(a, b, i + 1, dec, S);
      SumOfSums(OwedTo(a[i], dec, S), Owed(a, i + 1, dec, S), Owed(b, 0, dec, S));
    }
  }

  lemma {:induction false} OwedShift(a: seq<Group>, b: seq<Group>, i: nat, dec: Decoder, S: set<Node>)
    requires i <= |b|
    ensures Owed(a + b, |a| + i, dec, S) == Owed(b, i, dec, S)
    decreases |b| - i
  {
    hide OwedTo;
    if i < |b| {
      OwedShift(a, b, i + 1, dec, S);
    }
  }

  lemma OwedOne(g: Group, dec: Decoder, S: set<Node>)
    ensures Owed([g], 0, dec, S) == OwedTo(g, dec, S)
  {
    hide OwedTo;
    OwedEnd([g], dec, S);
    OwedNext([g], 0, dec, S);
  }

  /**
   How what is shown compares with what is owed: it is the same if `S` has just the nodes that were answered
   with SIBLING, and at most that if nothing is left out.
   */
  ghost predicate Compares(exact: bool, shown: multiset<Visit>, owed: multiset<Visit>) {
    if exact then shown == owed else shown <= owed
  }

  ghost predicate Told(exact: bool, cb: Callback, shown: seq<Visit>, from: nat, S: set<Node>) {
    if exact then Fits(cb, shown, from, Cut(S, {}, false)) else S == {}
  }

  lemma ToldPart(exact: bool, cb: Callback, a: seq<Visit>, b: seq<Visit>, from: nat, from': nat, S: set<Node>)
    requires a <= b && from <= from' && Told(exact, cb, b, from, S)
    ensures Told(exact, cb, a, from', S)
  {
    if exact {
      forall k | from' <= k < |a|
        ensures a[k].node in S <==> Stops(AnswerAt(cb, a, k), false)
      {
        SameAnswer(cb, a, b, k);
      }
    }
  }

  /** The children taken along of a node, and those that are owed. */
  lemma OwedBelow(g: Group, j: nat, m: Matrix, cb: Callback, dec: Decoder, trace: seq<Visit>, all: seq<Visit>,
                  S: set<Node>, exact: bool)
    requires j < |g.ts|
    requires var m' := Enter(m, g.ts[j].info, dec);
      trace + [Visit(g.ts[j].node, m', g.level)] <= all && Told(exact, cb, all, |trace|, S)
    ensures var m' := Enter(m, g.ts[j].info, dec);
      var answer := cb(trace + [Visit(g.ts[j].node, m', g.level)]);
      Compares(exact, Owed(Below(g, j, m', answer), 0, dec, S),
               multiset(PrunedBelow(g.ts, j, m, g.level, dec, Cut(S, {}, false))))
  {
    hide Enter, Pruned, Owed;
    var m' := Enter(m, g.ts[j].info, dec);
    var trace' := trace + [Visit(g.ts[j].node, m', g.level)];
    SameAnswer(cb, trace', all, |trace|);
    assert trace'[..|trace| + 1] == trace' && all[|trace|] == trace'[|trace|];
    assert AnswerAt(cb, all, |trace|) == cb(trace');
    assert !exact ==> g.ts[j].node !in S;
    OwedEnd([], dec, S);
    OwedOne(Group(g.ts[j].kids, m', g.level + 1), dec, S);
    PrunedNone(g.ts[j].kids, m', g.level + 1, dec, Cut(S, {}, false));
  }

  lemma SumsOfGroup(exact: bool, t: multiset<Visit>, v: multiset<Visit>, k: multiset<Visit>, k': multiset<Visit>,
                    p: multiset<Visit>, s: multiset<Visit>, n: multiset<Visit>)
    requires Compares(exact, s + n, t + v + p) && Compares(exact, k, k')
    ensures Compares(exact, s + (k + n), t + (v + k' + p))
  {
    assert s + (k + n) == s + n + k;
  }

  lemma SumsOfLevel(exact: bool, t0: multiset<Visit>, t1: multiset<Visit>, t2: multiset<Visit>, n1: multiset<Visit>,
                    n2: multiset<Visit>, p: multiset<Visit>, q: multiset<Visit>)
    requires Compares(exact, t1 + n1, t0 + p) && Compares(exact, t2 + n2, t1 + q)
    ensures Compares(exact, t2 + (n1 + n2), t0 + (p + q))
  {
    assert t2 + (n1 + n2) == t2 + n2 + n1;
    assert t1 + q + n1 == t1 + n1 + q;
    assert t0 + (p + q) == t0 + p + q;
    if !exact {
      SumMonotonic(t2 + n2, t1 + q, n1);
      SumMonotonic(t1 + n1, t0 + p, q);
    }
  }

  lemma SumMonotonic(a: multiset<Visit>, b: multiset<Visit>, c: multiset<Visit>)
    requires a <= b
    ensures a + c <= b + c
  {
  }

  lemma {:induction false} ScanGroupGrows(g: Group, j: nat, m: Matrix, cb: Callback, dec: Decoder, trace: seq<Visit>)
    requires j <= |g.ts|
    ensures trace <= ScanGroup(g, j, m, cb, dec, trace).trace
    decreases |g.ts| - j
  {
    hide Enter;
    if j < |g.ts| {
      var m' := Enter(m, g.ts[j].info, dec);
      ScanGroupGrows(g, j + 1, m', cb, dec, trace + [Visit(g.ts[j].node, m', g.level)]);
    }
  }

  lemma {:induction false} ScanLevelGrows(gs: seq<Group>, i: nat, cb: Callback, dec: Decoder, trace: seq<Visit>)
    requires i <= |gs|
    ensures trace <= ScanLevel(gs, i, cb, dec, trace).trace
    decreases |gs| - i
  {
    hide ScanGroup;
    if i < |gs| {
      ScanGroupGrows(gs[i], 0, gs[i].matrix, cb, dec, trace);
      ScanLevelGrows(gs, i + 1, cb, dec, ScanGroup(gs[i], 0, gs[i].matrix, cb, dec, trace).trace);
    }
  }

  lemma {:induction false} BfsGrows(gs: seq<Group>, cb: Callback, dec: Decoder, trace: seq<Visit>)
    requires NoneEmpty(gs)
    ensures trace <= Bfs(gs, cb, dec, trace).0
    decreases TotalSize(gs, 0)
  {
    hide ScanLevel;
    if gs != [] {
      ScanLevelGrows(gs, 0, cb, dec, trace);
      ScanLevelShrinks(gs, 0, cb, dec, trace);
      var s := ScanLevel(gs, 0, cb, dec, trace);
      if !s.exited {
        BfsGrows(s.next, cb, dec, s.trace);
      }
    }
  }

  lemma {:induction false} ScanGroupAgrees(g: Group, j: nat, m: Matrix, cb: Callback, dec: Decoder, trace: seq<Visit>,
                                           S: set<Node>, exact: bool)
    requires j <= |g.ts|
    requires var s := ScanGroup(g, j, m, cb, dec, trace); !s.exited && Told(exact, cb, s.trace, |trace|, S)
    ensures var s := ScanGroup(g, j, m, cb, dec, trace);
      Compares(exact, multiset(s.trace) + Owed(s.next, 0, dec, S),
               multiset(trace) + multiset(Pruned(g.ts, j, m, g.level, dec, Cut(S, {}, false))))
    decreases |g.ts| - j
  {
    hide Enter, Pruned, PrunedBelow, Owed, Compares, Told, Below, ScanGroup;
    if j == |g.ts| {
      NothingOwed(g, m, cb, dec, trace, S, exact);
    } else {
      ScanGroupStep(g, j, m, cb, dec, trace);
      var m' := Enter(m, g.ts[j].info, dec);
      var v := Visit(g.ts[j].node, m', g.level);
      var s := ScanGroup(g, j, m, cb, dec, trace);
      var rest := ScanGroup(g, j + 1, m', cb, dec, trace + [v]);
      ScanGroupGrows(g, j + 1, m', cb, dec, trace + [v]);
      ToldPart(exact, cb, s.trace, s.trace, |trace|, |trace| + 1, S);
      ScanGroupAgrees(g, j + 1, m', cb, dec, trace + [v], S, exact);
      OwedBelow(g, j, m, cb, dec, trace, s.trace, S, exact);
      var b := Below(g, j, m', cb(trace + [v]));
      OwedOfSum(b, rest.next, 0, dec, S);
      PrunedUnfold(g.ts, j, m, g.level, dec, Cut(S, {}, false));
      var below, after := PrunedBelow(g.ts, j, m, g.level, dec, Cut(S, {}, false)),
        Pruned(g.ts, j + 1, m', g.level, dec, Cut(S, {}, false));
      assert multiset([v] + below + after) == multiset([v]) + multiset(below) + multiset(after);
      assert multiset(trace + [v]) == multiset(trace) + multiset([v]);
      SumsOfGroup(exact, multiset(trace), multiset([v]), Owed(b, 0, dec, S), multiset(below), multiset(after),
                  multiset(rest.trace), Owed(rest.next, 0, dec, S));
    }
  }

  lemma NothingOwed(g: Group, m: Matrix, cb: Callback, dec: Decoder, trace: seq<Visit>, S: set<Node>, exact: bool)
    ensures var s := ScanGroup(g, |g.ts|, m, cb, dec, trace);
      Compares(exact, multiset(s.trace) + Owed(s.next, 0, dec, S),
               multiset(trace) + multiset(Pruned(g.ts, |g.ts|, m, g.level, dec, Cut(S, {}, false))))
  {
    PrunedNone(g.ts, m, g.level, dec, Cut(S, {}, false));
    OwedEnd([], dec, S);
  }

  lemma {:induction false} ScanLevelAgrees(gs: seq<Group>, i: nat, cb: Callback, dec: Decoder, trace: seq<Visit>,
                                           S: set<Node>, exact: bool)
    requires i <= |gs|
    requires var s := ScanLevel(gs, i, cb, dec, trace); !s.exited && Told(exact, cb, s.trace, |trace|, S)
    ensures var s := ScanLevel(gs, i, cb, dec, trace);
      Compares(exact, multiset(s.trace) + Owed(s.next, 0, dec, S), multiset(trace) + Owed(gs, i, dec, S))
    decreases |gs| - i
  {
    hide Pruned, ScanGroup, Owed, Told, OwedTo;
    OwedEnd([], dec, S);
    OwedEnd(gs, dec, S);
    if i < |gs| {
      var s := ScanLevel(gs, i, cb, dec, trace);
      var here := ScanGroup(gs[i], 0, gs[i].matrix, cb, dec, trace);
      var rest := ScanLevel(gs, i + 1, cb, dec, here.trace);
      ScanGroupGrows(gs[i], 0, gs[i].matrix, cb, dec, trace);
      ScanLevelGrows(gs, i + 1, cb, dec, here.trace);
      ToldPart(exact, cb, here.trace, s.trace, |trace|, |trace|, S);
      ToldPart(exact, cb, s.trace, s.trace, |trace|, |here.trace|, S);
      GroupAgrees(gs[i], cb, dec, trace, S, exact);
      ScanLevelAgrees(gs, i + 1, cb, dec, here.trace, S, exact);
      OwedOfSum(here.next, rest.next, 0, dec, S);
      OwedNext(gs, i, dec, S);
      SumsOfLevel(exact, multiset(trace), multiset(here.trace), multiset(rest.trace), Owed(here.next, 0, dec, S),
                  Owed(rest.next, 0, dec, S), OwedTo(gs[i], dec, S), Owed(gs, i + 1, dec, S));
    }
  }

  lemma GroupAgrees(g: Group, cb: Callback, dec: Decoder, trace: seq<Visit>, S: set<Node>, exact: bool)
    requires var s := ScanGroup(g, 0, g.matrix, cb, dec, trace); !s.exited && Told(exact, cb, s.trace, |trace|, S)
    ensures var s := ScanGroup(g, 0, g.matrix, cb, dec, trace);
      Compares(exact, multiset(s.trace) + Owed(s.next, 0, dec, S), multiset(trace) + OwedTo(g, dec, S))
  {
    hide ScanGroup, Pruned, Told, Owed, Compares;
    ScanGroupAgrees(g, 0, g.matrix, cb, dec, trace, S, exact);
  }

  lemma {:induction false} BfsCompares(gs: seq<Group>, cb: Callback, dec: Decoder, trace: seq<Visit>,
                                       S: set<Node>, exact: bool)
    requires NoneEmpty(gs) && !Bfs(gs, cb, dec, trace).1 && Told(exact, cb, Bfs(gs, cb, dec, trace).0, |trace|, S)
    ensures Compares(exact, multiset(Bfs(gs, cb, dec, trace).0), multiset(trace) + Owed(gs, 0, dec, S))
    decreases TotalSize(gs, 0)
  {
    hide ScanLevel, Owed, Told;
    OwedEnd(gs, dec, S);
    if gs != [] {
      ScanLevelShrinks(gs, 0, cb, dec, trace);
      ScanLevelGrows(gs, 0, cb, dec, trace);
      var s := ScanLevel(gs, 0, cb, dec, trace);
      BfsGrows(s.next, cb, dec, s.trace);
      var shown := Bfs(gs, cb, dec, trace).0;
      ToldPart(exact, cb, s.trace, shown, |trace|, |trace|, S);
      ToldPart(exact, cb, shown, shown, |trace|, |s.trace|, S);
      ScanLevelAgrees(gs, 0, cb, dec, trace, S, exact);
      BfsCompares(s.next, cb, dec, s.trace, S, exact);
    }
  }

  /** All answers from visit `from` on are to continue. */
  ghost predicate Continues(cb: Callback, shown: seq<Visit>, from: nat) {
    forall k :: from <= k < |shown| ==> AnswerAt(cb, shown, k) == Continue
  }

  lemma ContinuesSum(cb: Callback, a: seq<Visit>, b: seq<Visit>, from: nat)
    requires a <= b && Continues(cb, a, from) && Continues(cb, b, |a|)
    ensures Continues(cb, b, from)
  {
    forall k | from <= k < |b|
      ensures AnswerAt(cb, b, k) == Continue
    {
      if k < |a| {
        SameAnswer(cb, a, b, k);
      }
    }
  }

  /** A callback that always continues does not end the scan. */
  lemma {:induction false} ScanGroupRuns(g: Group, j: nat, m: Matrix, cb: Callback, dec: Decoder, trace: seq<Visit>)
    requires j <= |g.ts| && forall h: seq<Visit> :: cb(h) == Continue
    ensures var s := ScanGroup(g, j, m, cb, dec, trace); !s.exited && Continues(cb, s.trace, |trace|)
    decreases |g.ts| - j
  {
    hide Enter;
    if j < |g.ts| {
      var m' := Enter(m, g.ts[j].info, dec);
      var trace' := trace + [Visit(g.ts[j].node, m', g.level)];
      ScanGroupRuns(g, j + 1, m', cb, dec, trace');
      ScanGroupGrows(g, j + 1, m', cb, dec, trace');
      assert trace'[..|trace| + 1] == trace' && AnswerAt(cb, trace', |trace|) == Continue;
      ContinuesSum(cb, trace', ScanGroup(g, j + 1, m', cb, dec, trace').trace, |trace|);
    }
  }

  lemma {:induction false} ScanLevelRuns(gs: seq<Group>, i: nat, cb: Callback, dec: Decoder, trace: seq<Visit>)
    requires i <= |gs| && forall h: seq<Visit> :: cb(h) == Continue
    ensures var s := ScanLevel(gs, i, cb, dec, trace); !s.exited && Continues(cb, s.trace, |trace|)
    decreases |gs| - i
  {
    hide ScanGroup, Continues;
    if i == |gs| {
      NoneContinues(cb, trace);
    } else {
      ScanGroupRuns(gs[i], 0, gs[i].matrix, cb, dec, trace);
      var here := ScanGroup(gs[i], 0, gs[i].matrix, cb, dec, trace);
      ScanLevelRuns(gs, i + 1, cb, dec, here.trace);
      ScanLevelGrows(gs, i + 1, cb, dec, here.trace);
      ContinuesSum(cb, here.trace, ScanLevel(gs, i + 1, cb, dec, here.trace).trace, |trace|);
    }
  }

  lemma NoneContinues(cb: Callback, trace: seq<Visit>)
    ensures Continues(cb, trace, |trace|)
  {
  }

  lemma {:induction false} BfsRuns(gs: seq<Group>, cb: Callback, dec: Decoder, trace: seq<Visit>)
    requires NoneEmpty(gs) && forall h: seq<Visit> :: cb(h) == Continue
    ensures var (shown, exited) := Bfs(gs, cb, dec, trace); !exited && Continues(cb, shown, |trace|)
    decreases TotalSize(gs, 0)
  {
    hide ScanLevel, Continues;
    if gs == [] {
      NoneContinues(cb, trace);
    } else {
      ScanLevelShrinks(gs, 0, cb, dec, trace);
      ScanLevelRuns(gs, 0, cb, dec, trace);
      var s := ScanLevel(gs, 0, cb, dec, trace);
      BfsRuns(s.next, cb, dec, s.trace);
      BfsGrows(s.next, cb, dec, s.trace);
      ContinuesSum(cb, s.trace, Bfs(s.next, cb, dec, s.trace).0, |trace|);
    }
  }

  /**
   With a callback that always continues, the breadth-first scan shows every node as often, at the same depth
   and with the same current matrix as listings of the groups in order, deleted nodes included.
   */
  lemma BfsAgrees(gs: seq<Group>, cb: Callback, dec: Decoder, trace: seq<Visit>)
    requires NoneEmpty(gs) && forall h: seq<Visit> :: cb(h) == Continue
    ensures var (shown, exited) := Bfs(gs, cb, dec, trace);
      !exited && multiset(shown) == multiset(trace) + Owed(gs, 0, dec, {})
  {
    hide Bfs, Owed;
    BfsRuns(gs, cb, dec, trace);
    var shown := Bfs(gs, cb, dec, trace).0;
    forall k | |trace| <= k < |shown|
      ensures shown[k].node in {} <==> Stops(AnswerAt(cb, shown, k), false)
    {
      assert AnswerAt(cb, shown, k) == Continue;
    }
    BfsCompares(gs, cb, dec, trace, {}, true);
  }

  /**
   Whatever the callback answers, as long as it does not exit: the scan of a hierarchy shows each node with no
   node above it that was answered with SIBLING, once, and nothing below one that was.
   */
  lemma BfsShows(t: Tree, cb: Callback, dec: Decoder)
    requires NodesApart([t]) && !Bfs([Group([t], Identity, 0)], cb, dec, []).1
    ensures var shown := Bfs([Group([t], Identity, 0)], cb, dec, []).0;
      && multiset(shown) == multiset(Pruned([t], 0, Identity, 0, dec, CutOf(cb, shown, false)))
      && ShowsAllBut([t], cb, shown, false)
  {
    hide Bfs, Pruned, Owed, NodesApart, ShowsAllBut, NoneTwice;
    var g := Group([t], Identity, 0);
    var shown := Bfs([g], cb, dec, []).0;
    BfsCompares([g], cb, dec, [], {}, false);
    OwedOne(g, dec, {});
    PartOnce([t], Identity, 0, dec, shown, Cut({}, {}, false));
    CutFits(cb, shown, false);
    var c := CutOf(cb, shown, false);
    BfsCompares([g], cb, dec, [], c.below, true);
    OwedOne(g, dec, c.below);
    PrunedShows([t], Identity, 0, dec, cb, shown, false);
  }

  /** Without deleted nodes, and with nothing left out, the listing is that of the in-order walk. */
  lemma {:induction false} PrunedIsPreorder(ts: seq<Tree>, i: nat, m: Matrix, level: nat, dec: Decoder)
    requires i <= |ts| && NoDeleted(ts)
    ensures Pruned(ts, i, m, level, dec, Cut({}, {}, false)) == Preorder(ts, i, m, level, dec)
    decreases ts, |ts| - i
  {
    hide Enter;
    if i < |ts| {
      var m' := Enter(m, ts[i].info, dec);
      PrunedIsPreorder(ts[i].kids, 0, m', level + 1, dec);
      PrunedIsPreorder(ts, i + 1, m', level, dec);
    }
  }

  /**
   The breadth-first and the in-order walk of a hierarchy make the same callbacks in different orders:
   each node is shown as often, at the same depth and with the same current matrix.
   */
  lemma WalksAgree(t: Tree, cb: Callback, dec: Decoder)
    requires NoDeleted([t]) && forall h: seq<Visit> :: cb(h) == Continue
    ensures multiset(Bfs([Group([t], Identity, 0)], cb, dec, []).0) ==
            multiset(Walk([t], 0, Identity, 0, cb, dec, []).trace)
    ensures |Bfs([Group([t], Identity, 0)], cb, dec, []).0| == |Walk([t], 0, Identity, 0, cb, dec, []).trace|
  {
    hide Bfs, Walk, Preorder, NoDeleted, Pruned, Owed;
    var g := Group([t], Identity, 0);
    BfsAgrees([g], cb, dec, []);
    OwedOne(g, dec, {});
    PrunedIsPreorder([t], 0, Identity, 0, dec);
    WalkAll([t], 0, Identity, 0, cb, dec, []);
    assert [] + Preorder([t], 0, Identity, 0, dec) == Preorder([t], 0, Identity, 0, dec);
    SameSize(Bfs([g], cb, dec, []).0, Walk([t], 0, Identity, 0, cb, dec, []).trace);
  }

  lemma SameSize(a: seq<Visit>, b: seq<Visit>)
    requires multiset(a) == multiset(b)
    ensures |a| == |b|
  {
    assert |multiset(a)| == |a| && |multiset(b)| == |b|;
  }

  /* Answers that end the scan. */

  lemma {:induction false} ScanGroupExits(g: Group, j: nat, m: Matrix, cb: Callback, dec: Decoder, trace: seq<Visit>)
    requires j <= |g.ts|
    ensures var s, all := ScanGroup(g, j, m, cb, dec, trace), ScanGroup(g, j, m, Onward(cb), dec, trace);
      CutShort(cb, trace, s.trace, all.trace, s.exited) && (!s.exited ==> s == all)
    decreases |g.ts| - j
  {
    hide Enter, CutShort, Below;
    if j == |g.ts| {
      NothingCut(cb, trace);
    } else {
      var m' := Enter(m, g.ts[j].info, dec);
      var v := Visit(g.ts[j].node, m', g.level);
      var trace' := trace + [v];
      var all := ScanGroup(g, j + 1, m', Onward(cb), dec, trace');
      ScanGroupGrows(g, j + 1, m', Onward(cb), dec, trace');
      OneVisit(cb, trace, v, if cb(trace') == Exit then all.trace else trace');
      if cb(trace') != Exit {
        ScanGroupExits(g, j + 1, m', cb, dec, trace');
        var rest := ScanGroup(g, j + 1, m', cb, dec, trace');
        CutShortThen(cb, trace, trace', rest.trace, all.trace, rest.exited);
      }
    }
  }

  lemma {:induction false} ScanLevelExits(gs: seq<Group>, i: nat, cb: Callback, dec: Decoder, trace: seq<Visit>)
    requires i <= |gs|
    ensures var s, all := ScanLevel(gs, i, cb, dec, trace), ScanLevel(gs, i, Onward(cb), dec, trace);
      CutShort(cb, trace, s.trace, all.trace, s.exited) && (!s.exited ==> s == all)
    decreases |gs| - i
  {
    hide ScanGroup, CutShort;
    if i == |gs| {
      NothingCut(cb, trace);
    } else {
      var here, allHere := ScanGroup(gs[i], 0, gs[i].matrix, cb, dec, trace),
        ScanGroup(gs[i], 0, gs[i].matrix, Onward(cb), dec, trace);
      ScanGroupExits(gs[i], 0, gs[i].matrix, cb, dec, trace);
      var all := ScanLevel(gs, i + 1, Onward(cb), dec, allHere.trace);
      ScanLevelGrows(gs, i + 1, Onward(cb), dec, allHere.trace);
      if here.exited {
        CutShortLonger(cb, trace, here.trace, allHere.trace, ScanLevel(gs, i, Onward(cb), dec, trace).trace);
      } else {
        ScanLevelExits(gs, i + 1, cb, dec, here.trace);
        var rest := ScanLevel(gs, i + 1, cb, dec, here.trace);
        CutShortThen(cb, trace, here.trace, rest.trace, all.trace, rest.exited);
      }
    }
  }

  /** The first EXIT ends the scan at once; up to there it is the scan that goes on. */
  lemma {:induction false} BfsExits(gs: seq<Group>, cb: Callback, dec: Decoder, trace: seq<Visit>)
    requires NoneEmpty(gs)
    ensures var (shown, exited) := Bfs(gs, cb, dec, trace);
      CutShort(cb, trace, shown, Bfs(gs, Onward(cb), dec, trace).0, exited)
    decreases TotalSize(gs, 0)
  {
    hide ScanLevel, CutShort;
    if gs == [] {
      NothingCut(cb, trace);
    } else {
      var s, all := ScanLevel(gs, 0, cb, dec, trace), ScanLevel(gs, 0, Onward(cb), dec, trace);
      ScanLevelExits(gs, 0, cb, dec, trace);
      ScanLevelShrinks(gs, 0, cb, dec, trace);
      ScanLevelShrinks(gs, 0, Onward(cb), dec, trace);
      if s.exited {
        if !all.exited {
          BfsGrows(all.next, Onward(cb), dec, all.trace);
        }
        CutShortLonger(cb, trace, s.trace, all.trace, Bfs(gs, Onward(cb), dec, trace).0);
      } else {
        BfsExits(s.next, cb, dec, s.trace);
        var (shown, exited) := Bfs(s.next, cb, dec, s.trace);
        CutShortThen(cb, trace, s.trace, shown, Bfs(s.next, Onward(cb), dec, s.trace).0, exited);
      }
    }
  }

  /* Level order. */

  ghost predicate OnLevel(gs: seq<Group>, level: nat) {
    forall i :: 0 <= i < |gs| ==> gs[i].level == level
  }

  /** What `after` has beyond `before` was all shown on one level. */
  ghost predicate ShownOn(before: seq<Visit>, after: seq<Visit>, level: nat) {
    before <= after && forall k :: |before| <= k < |after| ==> after[k].level == level
  }

  lemma {:induction false} ScanGroupLevel(g: Group, j: nat, m: Matrix, cb: Callback, dec: Decoder, trace: seq<Visit>)
    requires j <= |g.ts|
    ensures var s := ScanGroup(g, j, m, cb, dec, trace);
            ShownOn(trace, s.trace, g.level) && OnLevel(s.next, g.level + 1)
    decreases |g.ts| - j
  {
    hide Enter;
    if j < |g.ts| {
      var m' := Enter(m, g.ts[j].info, dec);
      ScanGroupLevel(g, j + 1, m', cb, dec, trace + [Visit(g.ts[j].node, m', g.level)]);
    }
  }

  lemma {:induction false} ScanLevelLevel(gs: seq<Group>, i: nat, level: nat, cb: Callback, dec: Decoder,
                                          trace: seq<Visit>)
    requires i <= |gs| && OnLevel(gs, level)
    ensures var s := ScanLevel(gs, i, cb, dec, trace); ShownOn(trace, s.trace, level) && OnLevel(s.next, level + 1)
    decreases |gs| - i
  {
    hide ScanGroup;
    if i < |gs| {
      ScanGroupLevel(gs[i], 0, gs[i].matrix, cb, dec, trace);
      ScanLevelLevel(gs, i + 1, level, cb, dec, ScanGroup(gs[i], 0, gs[i].matrix, cb, dec, trace).trace);
    }
  }

  ghost predicate InLevelOrder(vs: seq<Visit>, from: nat) {
    forall i, j :: from <= i <= j < |vs| ==> vs[i].level <= vs[j].level
  }

  /** Whatever the callback answers, no node is shown after a deeper one. */
  lemma {:induction false} BfsLevelOrder(gs: seq<Group>, level: nat, cb: Callback, dec: Decoder, trace: seq<Visit>)
    requires NoneEmpty(gs) && OnLevel(gs, level)
    ensures var shown := Bfs(gs, cb, dec, trace).0;
      && trace <= shown && InLevelOrder(shown, |trace|)
      && forall k :: |trace| <= k < |shown| ==> shown[k].level >= level
    decreases TotalSize(gs, 0)
  {
    hide ScanLevel;
    if gs != [] {
      ScanLevelLevel(gs, 0, level, cb, dec, trace);
      ScanLevelShrinks(gs, 0, cb, dec, trace);
      var s := ScanLevel(gs, 0, cb, dec, trace);
      if !s.exited {
        BfsLevelOrder(s.next, level + 1, cb, dec, s.trace);
        var shown := Bfs(s.next, cb, dec, s.trace).0;
        assert forall k :: |trace| <= k < |s.trace| ==> shown[k] == s.trace[k];
      }
    }
  }

  /* The loops. */

  ghost predicate GroupIs(g: Group, children: ChildArray, state: TraversalState, S: set<object>)
    reads S, children, state, state.inverse
  {
    && children.elems == Nodes(g.ts) && AllLinked(g.ts, S)
    && state.Valid() && state.Top() == g.matrix && state.physicalLevel == g.level
  }

  /** The arrays of a level and the states saved for them are those of the groups. */
  ghost predicate Saved(gs: seq<Group>, arrays: seq<ChildArray>, states: seq<TraversalState>, S: set<object>)
    reads S, arrays, states, set s | s in states :: s.inverse
  {
    && |arrays| == |states| == |gs|
    && forall i :: 0 <= i < |gs| ==> GroupIs(gs[i], arrays[i], states[i], S)
  }

  /** `state` can change without the saved states changing. */
  ghost predicate Apart(state: TraversalState, states: seq<TraversalState>, S: set<object>)
  {
    && state !in S && state.inverse !in S
    && forall i :: 0 <= i < |states| ==> states[i] != state && states[i].inverse != state.inverse
  }

  lemma ScanGroupStep(g: Group, j: nat, m: Matrix, cb: Callback, dec: Decoder, trace: seq<Visit>)
    requires j < |g.ts|
    ensures var m' := Enter(m, g.ts[j].info, dec);
      var trace' := trace + [Visit(g.ts[j].node, m', g.level)];
      var rest := ScanGroup(g, j + 1, m', cb, dec, trace');
      ScanGroup(g, j, m, cb, dec, trace) ==
      if cb(trace') == Exit then Scan(trace', [], true)
      else Scan(rest.trace, Below(g, j, m', cb(trace')) + rest.next, rest.exited)
  {
  }

  /** What is saved for the children of the node `state` is at. */
  method Snapshot(state: TraversalState) returns (clone: TraversalState)
    requires state.Valid()
    ensures fresh(clone) && fresh(clone.inverse) && clone.Valid()
    ensures clone.Top() == state.Top() && clone.physicalLevel == state.physicalLevel + 1
  {
    hide IsInverse;
    clone := state.Clone();
    assert clone.Stack()[clone.pushLevel] == state.Stack()[state.pushLevel];
    clone.Push();
    assert clone.Stack()[clone.pushLevel] == clone.Top();
    clone.physicalLevel := clone.physicalLevel + 1;
  }

  /** One more array with its state for the next level. */
  lemma SavedMore(gs: seq<Group>, arrays: seq<ChildArray>, states: seq<TraversalState>, S: set<object>,
                  g: Group, children: ChildArray, clone: TraversalState)
    requires Saved(gs, arrays, states, S) && GroupIs(g, children, clone, S)
    ensures Saved(gs + [g], arrays + [children], states + [clone], S)
  {
  }

  /** One node of a child array: the callback for it, and its children for the next level. */
  method ScanChild(children: ChildArray, j: nat, state: TraversalState, cb: Callback, dec: Decoder, trace: seq<Visit>,
                   arrays: seq<ChildArray>, states: seq<TraversalState>,
                   ghost g: Group, ghost gs: seq<Group>, ghost S: set<object>)
    returns (answer: Answer, trace': seq<Visit>, arrays': seq<ChildArray>, states': seq<TraversalState>,
             ghost gs': seq<Group>)
    requires GroupIs(g, children, state, S) && j < |children.elems| == |g.ts|
    requires Saved(gs, arrays, states, S) && Apart(state, states, S)
    modifies state`matrices, state`inverseDirty
    ensures var m' := Enter(g.matrix, g.ts[j].info, dec);
      && GroupIs(g.(matrix := m'), children, state, S) && trace' == trace + [Visit(g.ts[j].node, m', g.level)]
      && answer == cb(trace') && (answer != Exit ==> gs' == gs + Below(g, j, m', answer))
    ensures answer != Exit ==> Saved(gs', arrays', states', S) && Apart(state, states', S)
    ensures states <= states' && forall i :: |states| <= i < |states'| ==>
            fresh(states'[i]) && fresh(states'[i].inverse)
  {
    hide Linked, IsInverse, Saved, Enter;
    arrays', states', gs' := arrays, states, gs;
    AtPosition(Frame(g.ts, j, g.matrix), children, j, |g.ts|, S);
    var node := children.elems[j];
    answer, trace' := CallNode(node, state, cb, dec, trace);
    assert Saved(gs, arrays, states, S);
    ghost var below := Below(g, j, state.Top(), answer);
    if answer != Exit && node.children != null && answer != Sibling {
      var clone := Snapshot(state);
      SavedMore(gs, arrays, states, S, Group(g.ts[j].kids, state.Top(), g.level + 1), node.children, clone);
      arrays' := arrays + [node.children];
      states' := states + [clone];
    }
    gs' := gs + below;
    assert below == [] ==> gs' == gs;
  }

  /** The loop over one child array, with `state` a copy of the state saved for it. */
  method ScanArray(children: ChildArray, state: TraversalState, cb: Callback, dec: Decoder, trace: seq<Visit>,
                   arrays: seq<ChildArray>, states: seq<TraversalState>,
                   ghost g: Group, ghost gs: seq<Group>, ghost S: set<object>)
    returns (trace': seq<Visit>, exited: bool, arrays': seq<ChildArray>, states': seq<TraversalState>,
             ghost gs': seq<Group>)
    requires GroupIs(g, children, state, S)
    requires Saved(gs, arrays, states, S) && Apart(state, states, S)
    modifies state`matrices, state`inverseDirty
    ensures var scan := ScanGroup(g, 0, g.matrix, cb, dec, trace);
      && trace' == scan.trace && exited == scan.exited
      && (!exited ==> gs' == gs + scan.next)
    ensures !exited ==> Saved(gs', arrays', states', S)
    ensures state.Valid()
    ensures states <= states' && forall i :: |states| <= i < |states'| ==>
            fresh(states'[i]) && fresh(states'[i].inverse)
  {
    hide ScanGroup, Linked, IsInverse, Saved, Enter;
    trace', exited, arrays', states' := trace, false, arrays, states;
    gs' := gs;
    ghost var scan := ScanGroup(g, 0, g.matrix, cb, dec, trace);
    for j := 0 to |children.elems|
      invariant state.Valid() && GroupIs(g.(matrix := state.Top()), children, state, S)
      invariant Saved(gs', arrays', states', S) && Apart(state, states', S) && !exited
      invariant states <= states' && forall i :: |states| <= i < |states'| ==>
                fresh(states'[i]) && fresh(states'[i].inverse)
      invariant var rest := ScanGroup(g, j, state.Top(), cb, dec, trace');
        scan.trace == rest.trace && scan.exited == rest.exited && (!scan.exited ==> gs + scan.next == gs' + rest.next)
    {
      ghost var at := g.(matrix := state.Top());
      ScanGroupStep(g, j, state.Top(), cb, dec, trace');
      var answer;
      answer, trace', arrays', states', gs' := ScanChild(children, j, state, cb, dec, trace', arrays', states', at, gs',
                                                         S);
      if answer == Exit {
        exited := true;
        return;
      }
    }
    ScanGroupEnd(g, state.Top(), cb, dec, trace');
  }

  lemma ScanGroupEnd(g: Group, m: Matrix, cb: Callback, dec: Decoder, trace: seq<Visit>)
    ensures ScanGroup(g, |g.ts|, m, cb, dec, trace) == Scan(trace, [], false)
  {
  }

  /** The state saved for an array. */
  method TakeState(state: TraversalState, saved: TraversalState, children: ChildArray, ghost g: Group,
                   ghost S: set<object>)
    requires GroupIs(g, children, saved, S) && state.Valid()
    requires state !in S && state.inverse !in S && saved != state && saved.inverse != state.inverse
    modifies state, state.inverse
    ensures GroupIs(g, children, state, S)
  {
    hide AllLinked, IsInverse;
    state.CopyFrom(saved);
    assert state.Top() == state.Stack()[state.pushLevel] == saved.Stack()[saved.pushLevel] == g.matrix;
  }

  /** The loop over the arrays of one level. */
  method ScanArrays(arrays: seq<ChildArray>, states: seq<TraversalState>, state: TraversalState, cb: Callback,
                    dec: Decoder,
                    trace: seq<Visit>, ghost gs: seq<Group>, ghost S: set<object>)
    returns (trace': seq<Visit>, exited: bool, arrays': seq<ChildArray>, states': seq<TraversalState>,
             ghost gs': seq<Group>)
    requires Saved(gs, arrays, states, S) && state.Valid() && Apart(state, states, S)
    modifies state, state.inverse
    ensures var scan := ScanLevel(gs, 0, cb, dec, trace);
      trace' == scan.trace && exited == scan.exited && (!exited ==> gs' == scan.next)
    ensures !exited ==> Saved(gs', arrays', states', S) && Apart(state, states', S) && state.Valid()
    ensures forall i :: 0 <= i < |states'| ==> fresh(states'[i]) && fresh(states'[i].inverse)
  {
    hide ScanGroup, ScanLevel, AllLinked, IsInverse, TraversalState.Valid;
    trace', exited, arrays', states' := trace, false, [], [];
    gs' := [];
    ghost var scan := ScanLevel(gs, 0, cb, dec, trace);
    for i := 0 to |arrays|
      invariant Saved(gs, arrays, states, S) && state.Valid() && Apart(state, states, S)
      invariant Saved(gs', arrays', states', S) && Apart(state, states', S) && !exited
      invariant forall n :: 0 <= n < |states'| ==> fresh(states'[n]) && fresh(states'[n].inverse)
      invariant var rest := ScanLevel(gs, i, cb, dec, trace');
        scan.trace == rest.trace && scan.exited == rest.exited && (!scan.exited ==> scan.next == gs' + rest.next)
    {
      assert GroupIs(gs[i], arrays[i], states[i], S);
      TakeState(state, states[i], arrays[i], gs[i], S);
      ScanLevelStep(gs, i, cb, dec, trace');
      trace', exited, arrays', states', gs' := ScanArray(arrays[i], state, cb, dec, trace', arrays', states', gs[i],
                                                         gs', S);
      if exited {
        return;
      }
    }
    ScanLevelEnd(gs, cb, dec, trace');
  }

  lemma ScanLevelStep(gs: seq<Group>, i: nat, cb: Callback, dec: Decoder, trace: seq<Visit>)
    requires i < |gs|
    ensures var here := ScanGroup(gs[i], 0, gs[i].matrix, cb, dec, trace);
      var rest := ScanLevel(gs, i + 1, cb, dec, here.trace);
      ScanLevel(gs, i, cb, dec, trace) == if here.exited then here
        else Scan(rest.trace, here.next + rest.next, rest.exited)
  {
  }

  lemma ScanLevelEnd(gs: seq<Group>, cb: Callback, dec: Decoder, trace: seq<Visit>)
    ensures ScanLevel(gs, |gs|, cb, dec, trace) == Scan(trace, [], false)
  {
  }

  /** prf_model_traverse_bf: one level after the other, with the arrays and states of the next collected on the way. */
  method TraverseBf(root: Node, cb: Callback, dec: Decoder, ghost t: Tree, ghost S: set<object>)
    returns (trace: seq<Visit>, exited: bool)
    requires t.node == root && Linked(t, S) && AllKnown([t])
    ensures (trace, exited) == Bfs([Group([t], Identity, 0)], cb, dec, [])
  {
    hide ScanLevel, Linked, IsInverse, Bfs;
    var state := new TraversalState();
    var roots := new ChildArray([root]);
    var thisLevel := [roots];
    var saved := state.Clone();
    var thisStates := [saved];
    trace, exited := [], false;
    ghost var gs := [Group([t], Identity, 0)];
    ghost var result := Bfs(gs, cb, dec, []);
    assert Nodes([t]) == [root] && saved.Top() == saved.Stack()[saved.pushLevel] == Identity;
    assert GroupIs(gs[0], roots, saved, S);
    while |thisLevel| > 0
      invariant Saved(gs, thisLevel, thisStates, S) && state.Valid() && Apart(state, thisStates, S)
      invariant NoneEmpty(gs) && Bfs(gs, cb, dec, trace) == result && !exited
      decreases TotalSize(gs, 0)
    {
      BfsStep(gs, cb, dec, trace);
      trace, exited, thisLevel, thisStates, gs := ScanArrays(thisLevel, thisStates, state, cb, dec, trace, gs, S);
      if exited {
        return;
      }
    }
    BfsEnd(cb, dec, trace);
  }

  lemma BfsStep(gs: seq<Group>, cb: Callback, dec: Decoder, trace: seq<Visit>)
    requires gs != [] && NoneEmpty(gs)
    ensures var s := ScanLevel(gs, 0, cb, dec, trace);
      && NoneEmpty(s.next) && TotalSize(s.next, 0) < TotalSize(gs, 0)
      && Bfs(gs, cb, dec, trace) == if s.exited then (s.trace, true) else Bfs(s.next, cb, dec, s.trace)
  {
    ScanLevelShrinks(gs, 0, cb, dec, trace);
  }

  lemma BfsEnd(cb: Callback, dec: Decoder, trace: seq<Visit>)
    ensures Bfs([], cb, dec, trace) == (trace, false)
  {
  }
}
