/**
 What ends a traversal: the first answer EXIT, at once, and nothing else.
 */
module Ending {
  import opened Matrix
  import opened Hierarchy
  import opened InOrder
  import opened Pruning

  /** The callback that continues where `cb` would end the traversal. */
  function Onward(cb: Callback): Callback {
    h => if cb(h) == Exit then Continue else cb(h)
  }

  /** None of the visits from `from` on but the last was answered with EXIT, and that one if and only if `exited`. */
  ghost predicate Ended(cb: Callback, shown: seq<Visit>, from: nat, exited: bool) {
    && (forall k :: from <= k < |shown| - 1 ==> AnswerAt(cb, shown, k) != Exit)
    && (exited <==> from < |shown| && AnswerAt(cb, shown, |shown| - 1) == Exit)
  }

  /**
   Of the visits `all` behind `trace`, which a traversal makes that goes on after an EXIT, those up to the first
   EXIT are shown, or all of them if there is none.
   */
  ghost predicate CutShort(cb: Callback, trace: seq<Visit>, shown: seq<Visit>, all: seq<Visit>, exited: bool) {
    trace <= shown <= all && Ended(cb, shown, |trace|, exited) && (!exited ==> shown == all)
  }

  lemma NothingCut(cb: Callback, trace: seq<Visit>)
    ensures CutShort(cb, trace, trace, trace, false)
  {
  }

  lemma OneVisit(cb: Callback, trace: seq<Visit>, v: Visit, all: seq<Visit>)
    requires trace + [v] <= all && (cb(trace + [v]) != Exit ==> all == trace + [v])
    ensures CutShort(cb, trace, trace + [v], all, cb(trace + [v]) == Exit)
  {
    assert (trace + [v])[..|trace| + 1] == trace + [v];
  }

  /** First one part and then, if it was not cut short, the next. */
  lemma CutShortThen(cb: Callback, a: seq<Visit>, b: seq<Visit>, c: seq<Visit>, all: seq<Visit>, exited: bool)
    requires CutShort(cb, a, b, b, false) && CutShort(cb, b, c, all, exited)
    ensures CutShort(cb, a, c, all, exited)
  {
    forall k | |a| <= k < |c| - 1
      ensures AnswerAt(cb, c, k) != Exit
    {
      if k < |b| {
        SameAnswer(cb, b, c, k);
      }
    }
    if |c| == |b| {
      assert c == b;
    }
  }

  /** What was cut short remains so, however much longer the other is. */
  lemma CutShortLonger(cb: Callback, a: seq<Visit>, b: seq<Visit>, all: seq<Visit>, all': seq<Visit>)
    requires CutShort(cb, a, b, all, true) && all <= all'
    ensures CutShort(cb, a, b, all', true)
  {
  }

  /**
   The first EXIT ends an in-order walk at once; up to there it is the walk that goes on, and where there is none it is
   that walk.
   */
  lemma {:induction false} WalkExits(ts: seq<Tree>, i: nat, m: Matrix, level: nat, cb: Callback, dec: Decoder,
                                     trace: seq<Visit>)
    requires i <= |ts|
    ensures var run, all := Walk(ts, i, m, level, cb, dec, trace), Walk(ts, i, m, level, Onward(cb), dec, trace);
      && CutShort(cb, trace, run.trace, all.trace, run.status == Exited)
      && (run.status != Exited ==> run == all)
    decreases ts, |ts| - i
  {
    hide Enter, CutShort;
    if i == |ts| {
      NothingCut(cb, trace);
    } else if ts[i].info.deleted {
      WalkExits(ts, i + 1, m, level, cb, dec, trace);
    } else {
      var m' := Enter(m, ts[i].info, dec);
      var v := Visit(ts[i].node, m', level);
      var trace' := trace + [v];
      match cb(trace')
      case Exit =>
        FirstShown(ts, i, m, level, Onward(cb), dec, trace);
        OneVisit(cb, trace, v, Walk(ts, i, m, level, Onward(cb), dec, trace).trace);
      case Continue =>
        OneVisit(cb, trace, v, trace');
        ChildrenExit(ts, i, m', level, cb, dec, trace, trace');
      case Pop =>
        OneVisit(cb, trace, v, trace');
        var j := NextPop(ts, i + 1);
        if j < |ts| {
          WalkExits(ts, j, m', level, cb, dec, trace');
          CutShortThen(cb, trace, trace', Walk(ts, j, m', level, cb, dec, trace').trace,
                       Walk(ts, j, m', level, Onward(cb), dec, trace').trace,
                       Walk(ts, j, m', level, cb, dec, trace').status == Exited);
        }
      case _ =>
        OneVisit(cb, trace, v, trace');
        WalkExits(ts, i + 1, m', level, cb, dec, trace');
        CutShortThen(cb, trace, trace', Walk(ts, i + 1, m', level, cb, dec, trace').trace,
                     Walk(ts, i + 1, m', level, Onward(cb), dec, trace').trace,
                     Walk(ts, i + 1, m', level, cb, dec, trace').status == Exited);
    }
  }

  /** The children of node `i`, and then its siblings. */
  lemma {:induction false} ChildrenExit(ts: seq<Tree>, i: nat, m: Matrix, level: nat, cb: Callback, dec: Decoder,
                                        trace: seq<Visit>, trace': seq<Visit>)
    requires i < |ts| && CutShort(cb, trace, trace', trace', false)
    ensures var below, allBelow := Walk(ts[i].kids, 0, m, level + 1, cb, dec, trace'),
                Walk(ts[i].kids, 0, m, level + 1, Onward(cb), dec, trace');
      var run := if below.status != Running then below else Walk(ts, i + 1, m, level, cb, dec, below.trace);
      var all := if allBelow.status != Running then allBelow
                 else Walk(ts, i + 1, m, level, Onward(cb), dec, allBelow.trace);
      && CutShort(cb, trace, run.trace, all.trace, run.status == Exited)
      && (run.status != Exited ==> run == all)
    decreases ts, |ts| - i, 0
  {
    hide Walk, CutShort;
    var below, allBelow := Walk(ts[i].kids, 0, m, level + 1, cb, dec, trace'),
      Walk(ts[i].kids, 0, m, level + 1, Onward(cb), dec, trace');
    WalkExits(ts[i].kids, 0, m, level + 1, cb, dec, trace');
    CutShortThen(cb, trace, trace', below.trace, allBelow.trace, below.status == Exited);
    WalkGrows(ts, i + 1, m, level, Onward(cb), dec, allBelow.trace);
    if below.status == Exited {
      CutShortLonger(cb, trace, below.trace, allBelow.trace,
                     Walk(ts, i + 1, m, level, Onward(cb), dec, allBelow.trace).trace);
    } else if below.status == Running {
      WalkExits(ts, i + 1, m, level, cb, dec, below.trace);
      CutShortThen(cb, trace, below.trace, Walk(ts, i + 1, m, level, cb, dec, below.trace).trace,
                   Walk(ts, i + 1, m, level, Onward(cb), dec, below.trace).trace,
                   Walk(ts, i + 1, m, level, cb, dec, below.trace).status == Exited);
    }
  }
}
