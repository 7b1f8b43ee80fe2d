/**
 Loading and saving are inverse: a file that loads is saved with the same bytes, and a hierarchy that
 the grammar allows is loaded again from what is saved.
 */
module RoundTrip {
  import opened Bytes
  import opened BFile
  import opened Codecs
  import opened Wrappers
  import opened Hierarchy
  import opened InOrder
  import opened Listing
  import opened Records
  import opened Grammar
  import opened Loader
  import opened Saver
  import DepthFirst
  import P = Palette
  import F = PaletteFile
  import V = VertexCodec
  import opened Vertices

  /** Each list of children of a loaded hierarchy ends in a node without children, as depth-first traversal needs it. */
  lemma {:induction false} GrammaticalEndsInLeaf(ts: seq<Tree>)
    requires Grammatical(ts)
    ensures DepthFirst.EndsInLeaf(ts)
  {
    forall i | 0 <= i < |ts|
      ensures ts[i].kids != [] ==> ts[i].kids[|ts[i].kids| - 1].kids == []
      ensures DepthFirst.EndsInLeaf(ts[i].kids)
    {
      var kids := ts[i].kids;
      GrammaticalEndsInLeaf(kids);
      if kids != [] {
        var ks := Kinds(kids);
        assert PlaceAfter(ks) == Follow(PlaceAfter(ks[..|ks| - 1]), ks[|ks| - 1]) == Outside;
        assert kids[|kids| - 1].info.Kind() == ks[|ks| - 1];
      }
    }
  }

  ghost predicate NoneDeleted(ts: seq<Tree>) {
    forall i :: 0 <= i < |ts| ==> !ts[i].info.deleted && NoneDeleted(ts[i].kids)
  }

  /* The records of a grammatical hierarchy are a stream that loads as that hierarchy. */

  /** How deep in open pushes one is at a place of a list of children at depth `level`. */
  function DepthAt(p: Place, level: nat): int {
    if p == Outside then level - 1 else level
  }

  /** The place in a list before child `i`. */
  ghost function PlaceAt(ts: seq<Tree>, i: nat): Place
    requires i <= |ts|
  {
    PlaceAfter(Kinds(ts)[..i])
  }

  /** `rs` is in `all` from `at` on. */
  predicate Within(rs: seq<Record>, all: seq<Record>, at: nat) {
    at + |rs| <= |all| && rs == all[at..at + |rs|]
  }

  lemma WithinSum(a: seq<Record>, b: seq<Record>, all: seq<Record>, at: nat)
    requires Within(a + b, all, at)
    ensures Within(a, all, at) && Within(b, all, at + |a|)
  {
    assert a == (a + b)[..|a|] && b == (a + b)[|a|..];
  }

  ghost predicate AtLevels(es: seq<Entry>, all: seq<Record>, at: nat) {
    at + |es| <= |all| && forall k :: 0 <= k < |es| ==> es[k].level == LevelAt(all, at + k)
  }

  lemma LevelsSum(a: seq<Entry>, b: seq<Entry>, all: seq<Record>, at: nat)
    requires AtLevels(a, all, at) && AtLevels(b, all, at + |a|)
    ensures AtLevels(a + b, all, at)
  {
  }

  /** Before any child the grammar has not been left. */
  lemma {:induction false} NotNowhere(ts: seq<Tree>, i: nat)
    requires i <= |ts| && PlaceAt(ts, |ts|) != Nowhere
    ensures PlaceAt(ts, i) != Nowhere
    decreases |ts| - i
  {
    if i < |ts| {
      NotNowhere(ts, i + 1);
      PlaceNext(ts, i);
    } else {
      assert Kinds(ts)[..i] == Kinds(ts);
    }
  }

  lemma PlaceNext(ts: seq<Tree>, i: nat)
    requires i < |ts|
    ensures PlaceAt(ts, i + 1) == Follow(PlaceAt(ts, i), ts[i].info.Kind())
  {
    var ks := Kinds(ts)[..i + 1];
    assert ks[..|ks| - 1] == Kinds(ts)[..i];
  }

  /** What one node does to the depth, and the level it gets. */
  lemma NodeLevel(all: seq<Record>, at: nat, k: Kind, p: Place, level: nat)
    requires at < |all| && KindOf(all[at].opcode) == k
    requires Follow(p, k) != Nowhere && Depth(all, at) == DepthAt(p, level)
    ensures LevelAt(all, at) == level
    ensures Depth(all, at + 1) == DepthAt(Follow(p, k), level)
    ensures k in {PushNode, Plain} ==> Follow(p, k) == Inside
  {
    hide KindOf;
  }

  /** A listing takes the levels that the stream of its records tells. */
  lemma {:induction false} FlatFrom(ts: seq<Tree>, i: nat, level: nat, all: seq<Record>, at: nat)
    requires i <= |ts| && NoneDeleted(ts) && Grammatical(ts) && PlaceAt(ts, |ts|) != Nowhere
    requires Within(RecordsOf(List(ts, i, level)), all, at)
    requires Depth(all, at) == DepthAt(PlaceAt(ts, i), level)
    ensures var es := List(ts, i, level);
      && at + |es| <= |all| && AtLevels(es, all, at)
      && Depth(all, at + |es|) == DepthAt(PlaceAt(ts, |ts|), level)
    decreases ts, |ts| - i
  {
    hide Depth, LevelAt, PlaceAt, PlaceAfter, KindOf, List, NoneDeleted, Grammatical, Within;
    if i == |ts| {
      ListEnd(ts, level);
      WithinBounds(RecordsOf(List(ts, i, level)), all, at);
    } else {
      var head, below, rest := [Entry(ts[i].node, ts[i].info, level)], List(ts[i].kids, 0, level + 1),
        List(ts, i + 1, level);
      ChildParts(ts, i);
      ListSplits(ts, i, level, all, at);
      NotNowhere(ts, i + 1);
      PlaceNext(ts, i);
      NodeLevel(all, at, ts[i].info.Kind(), PlaceAt(ts, i), level);
      if ts[i].kids == [] {
        ListEnd(ts[i].kids, level + 1);
      } else {
        FlatFrom(ts[i].kids, 0, level + 1, all, at + 1);
      }
      FlatFrom(ts, i + 1, level, all, at + 1 + |below|);
      LevelsSum(head, below, all, at);
      LevelsSum(head + below, rest, all, at);
    }
  }

  lemma ListEnd(ts: seq<Tree>, level: nat)
    ensures List(ts, |ts|, level) == []
  {
  }

  lemma WithinBounds(rs: seq<Record>, all: seq<Record>, at: nat)
    requires Within(rs, all, at)
    ensures at + |rs| <= |all|
  {
  }

  lemma ChildParts(ts: seq<Tree>, i: nat)
    requires i < |ts| && NoneDeleted(ts) && Grammatical(ts)
    ensures !ts[i].info.deleted && NoneDeleted(ts[i].kids) && Grammatical(ts[i].kids)
    ensures PlaceAt(ts[i].kids, 0) == Outside == PlaceAt(ts[i].kids, |ts[i].kids|)
    ensures ts[i].kids != [] ==> ts[i].info.Kind() in {PushNode, Plain}
  {
    hide KindOf, PlaceAt;
    KidsPlace(ts, i);
  }

  lemma KidsPlace(ts: seq<Tree>, i: nat)
    requires i < |ts| && Grammatical(ts)
    ensures PlaceAt(ts[i].kids, 0) == Outside == PlaceAt(ts[i].kids, |ts[i].kids|)
    ensures ts[i].kids != [] ==> ts[i].info.Kind() in {PushNode, Plain}
  {
    assert Kinds(ts[i].kids)[..|ts[i].kids|] == Kinds(ts[i].kids);
  }

  lemma ListSplits(ts: seq<Tree>, i: nat, level: nat, all: seq<Record>, at: nat)
    requires i < |ts| && !ts[i].info.deleted && Within(RecordsOf(List(ts, i, level)), all, at)
    ensures var head, below, rest := [Entry(ts[i].node, ts[i].info, level)], List(ts[i].kids, 0, level + 1),
            List(ts, i + 1, level);
      && at < |all| && all[at] == ts[i].info.record
      && Within(RecordsOf(below), all, at + 1) && Within(RecordsOf(rest), all, at + 1 + |below|)
      && List(ts, i, level) == head + below + rest
  {
    hide List, Within;
    var head, below, rest := [Entry(ts[i].node, ts[i].info, level)], List(ts[i].kids, 0, level + 1),
      List(ts, i + 1, level);
    ListUnfold(ts, i, level);
    assert RecordsOf(List(ts, i, level)) == RecordsOf(head) + RecordsOf(below) + RecordsOf(rest);
    WithinSum(RecordsOf(head) + RecordsOf(below), RecordsOf(rest), all, at);
    WithinSum(RecordsOf(head), RecordsOf(below), all, at);
    WithinOne(RecordsOf(head), all, at);
  }

  lemma ListUnfold(ts: seq<Tree>, i: nat, level: nat)
    requires i < |ts| && !ts[i].info.deleted
    ensures List(ts, i, level) ==
            [Entry(ts[i].node, ts[i].info, level)] + List(ts[i].kids, 0, level + 1) + List(ts, i + 1, level)
  {
  }

  lemma WithinOne(rs: seq<Record>, all: seq<Record>, at: nat)
    requires |rs| == 1 && Within(rs, all, at)
    ensures at < |all| && all[at] == rs[0]
  {
    assert all[at..at + 1][0] == all[at];
  }

  /* What is saved. */

  /**
   A hierarchy as it is saved: without its deleted parts, and with the vertex palette that has everything
   in the pools.
   */
  function Saved(ts: seq<Tree>, i: nat, palette: Option<seq<Byte>>): seq<Tree>
    requires i <= |ts|
    decreases ts, |ts| - i
  {
    if i == |ts| then []
    else if ts[i].info.deleted then Saved(ts, i + 1, palette)
    else [SavedTree(ts[i], palette)] + Saved(ts, i + 1, palette)
  }

  function SavedTree(t: Tree, palette: Option<seq<Byte>>): Tree
    decreases t
  {
    Tree(t.node, Info(Written(t.info.record, palette), false), Saved(t.kids, 0, palette))
  }

  lemma {:induction false} SavedNoneDeleted(ts: seq<Tree>, i: nat, palette: Option<seq<Byte>>)
    requires i <= |ts|
    ensures NoneDeleted(Saved(ts, i, palette))
    decreases ts, |ts| - i
  {
    if i < |ts| {
      SavedNoneDeleted(ts, i + 1, palette);
      SavedNoneDeleted(ts[i].kids, 0, palette);
    }
  }

  /** Its listing has the records that are written. */
  lemma {:induction false} SavedRecords(ts: seq<Tree>, i: nat, level: nat, palette: Option<seq<Byte>>)
    requires i <= |ts|
    ensures RecordsOf(List(Saved(ts, i, palette), 0, level)) == AllWritten(RecordsOf(List(ts, i, level)), palette)
    decreases ts, |ts| - i
  {
    if i < |ts| {
      SavedRecords(ts, i + 1, level, palette);
      if !ts[i].info.deleted {
        SavedRecords(ts[i].kids, 0, level + 1, palette);
        var u := SavedTree(ts[i], palette);
        ListFirst(u, Saved(ts, i + 1, palette), level);
        WrittenFirst(Entry(u.node, u.info, level), List(u.kids, 0, level + 1),
                     List(Saved(ts, i + 1, palette), 0, level),
                     Entry(ts[i].node, ts[i].info, level), List(ts[i].kids, 0, level + 1), List(ts, i + 1, level),
                       palette);
      }
    }
  }

  lemma ListFirst(u: Tree, rest: seq<Tree>, level: nat)
    requires !u.info.deleted
    ensures List([u] + rest, 0, level) == [Entry(u.node, u.info, level)] + List(u.kids, 0, level + 1) +
            List(rest, 0, level)
  {
    ListSkips(u, rest, 0, level);
  }

  lemma {:induction false} ListSkips(u: Tree, rest: seq<Tree>, i: nat, level: nat)
    requires i <= |rest|
    ensures List([u] + rest, i + 1, level) == List(rest, i, level)
    decreases |rest| - i
  {
    if i < |rest| {
      ListSkips(u, rest, i + 1, level);
    }
  }

  lemma WrittenFirst(e: Entry, b: seq<Entry>, c: seq<Entry>, e': Entry, b': seq<Entry>, c': seq<Entry>,
                     palette: Option<seq<Byte>>)
    requires e.info.record == Written(e'.info.record, palette)
    requires RecordsOf(b) == AllWritten(RecordsOf(b'), palette) && RecordsOf(c) == AllWritten(RecordsOf(c'), palette)
    ensures RecordsOf([e] + b + c) == AllWritten(RecordsOf([e'] + b' + c'), palette)
  {
    hide Written;
    WrittenEach(b, b', palette);
    WrittenEach(c, c', palette);
  }

  lemma WrittenEach(b: seq<Entry>, b': seq<Entry>, palette: Option<seq<Byte>>)
    requires RecordsOf(b) == AllWritten(RecordsOf(b'), palette)
    ensures |b| == |b'| && forall k :: 0 <= k < |b| ==> b[k].info.record == Written(b'[k].info.record, palette)
  {
    hide Written;
    assert forall k :: 0 <= k < |b| ==> RecordsOf(b)[k] == b[k].info.record;
  }

  /** Without a palette of its own it has the shape of what is undeleted. */
  lemma {:induction false} SavedShapes(ts: seq<Tree>, i: nat)
    requires i <= |ts|
    ensures ShapesOf(Saved(ts, i, None), 0) == ShapesOf(ts, i)
    decreases ts, |ts| - i
  {
    if i < |ts| {
      SavedShapes(ts, i + 1);
      if !ts[i].info.deleted {
        SavedShapes(ts[i].kids, 0);
        ShapesFirst(SavedTree(ts[i], None), Saved(ts, i + 1, None));
      }
    }
  }

  lemma ShapesFirst(u: Tree, rest: seq<Tree>)
    requires !u.info.deleted
    ensures ShapesOf([u] + rest, 0) == [Shape(u.info.record, ShapesOf(u.kids, 0))] + ShapesOf(rest, 0)
  {
    ShapesSkip(u, rest, 0);
  }

  lemma {:induction false} ShapesSkip(u: Tree, rest: seq<Tree>, i: nat)
    requires i <= |rest|
    ensures ShapesOf([u] + rest, i + 1) == ShapesOf(rest, i)
    decreases |rest| - i
  {
    if i < |rest| {
      assert ([u] + rest)[i + 1] == rest[i];
      ShapesSkip(u, rest, i + 1);
    }
  }

  lemma SavedRoot(t: Tree, palette: Option<seq<Byte>>)
    requires !t.info.deleted
    ensures Saved([t], 0, palette) == [SavedTree(t, palette)]
  {
    assert Saved([t], 1, palette) == [];
  }

  /* The two directions. */

  /**
   A hierarchy that can be in a file: made by the grammar, of records that a file can hold and that the
   loader recognizes and takes.
   */
  ghost predicate Storable(t: Tree) {
    && Grammatical([t]) && AllKnown([t]) && NoneDeleted([t]) && t.info.Kind().Plain?
    && AllWellFormed(RecordsOf(List([t], 0, 0))) && AllLoadable(RecordsOf(List([t], 0, 0)))
  }

  ghost predicate AllLoadable(rs: seq<Record>) {
    forall n :: 0 <= n < |rs| ==> Unbroken(rs, n) && IsTaken(rs[n]) && !Refused(rs[n].opcode, rs[n].length)
  }

  /** A record at offset `at` of a file that is saved as it was loaded. */
  ghost predicate Keeps(r: Record, at: nat) {
    if r.opcode == VERTEX_PALETTE then exists prs :: F.PaletteOf(prs, r.data) && F.AllUnmistaken(prs, at + 8)
    else Preserved(r.opcode, r.length)
  }

  ghost predicate AllKeep(rs: seq<Record>) {
    forall n :: 0 <= n < |rs| ==> Keeps(rs[n], Offset(rs, n))
  }

  lemma {:induction false} ListKnown(ts: seq<Tree>, i: nat, level: nat)
    requires i <= |ts| && AllKnown(ts)
    ensures forall k :: 0 <= k < |List(ts, i, level)| ==> Known(List(ts, i, level)[k].info.record.opcode)
    decreases ts, |ts| - i
  {
    hide Known;
    if i < |ts| {
      ListKnown(ts[i].kids, 0, level + 1);
      ListKnown(ts, i + 1, level);
    }
  }

  /** The records of a storable hierarchy: a first one for the root, and a balanced stream below it. */
  lemma TreeIsFlat(t: Tree)
    requires Storable(t)
    ensures var es := List([t], 0, 0);
      var rs := RecordsOf(es);
      && |es| > 0 && es[0].level == 0 && es[0].info == t.info
      && AtLevels(es, rs, 0) && Depth(rs, |rs|) == 0
      && (forall k :: 1 <= k < |es| ==> es[k].level >= 1)
  {
    hide Depth, LevelAt, PlaceAt, PlaceAfter, KindOf, Known, WellFormed, List, NoneDeleted, Grammatical;
    StorableParts(t);
    var head, below := [Entry(t.node, t.info, 0)], List(t.kids, 0, 1);
    ListOne(t, 0);
    var rs := RecordsOf(List([t], 0, 0));
    RootLevel(rs);
    LevelsBelow(t.kids);
    assert rs[1..1 + |below|] == RecordsOf(below);
    FlatFrom(t.kids, 0, 1, rs, 1);
    LevelsSum(head, below, rs, 0);
  }

  lemma StorableParts(t: Tree)
    requires Storable(t)
    ensures !t.info.deleted && NoneDeleted(t.kids) && Grammatical(t.kids) && KindOf(t.info.record.opcode).Plain?
    ensures PlaceAt(t.kids, 0) == Outside == PlaceAt(t.kids, |t.kids|)
  {
    hide KindOf, Known, WellFormed, List, PlaceAt;
    assert [t][0] == t;
    KidsPlace([t], 0);
  }

  lemma LevelsBelow(ts: seq<Tree>)
    ensures forall k :: 0 <= k < |List(ts, 0, 1)| ==> List(ts, 0, 1)[k].level >= 1
  {
    hide List, Lines, ShapesOf;
    ListIsLines(ts, 0, 1);
    LinesAreDeep(ShapesOf(ts, 0), 1);
    var es := List(ts, 0, 1);
    forall k | 0 <= k < |es|
      ensures es[k].level >= 1
    {
      assert LinesOf(es)[k].level >= 1;
    }
  }

  lemma RootLevel(rs: seq<Record>)
    requires rs != [] && KindOf(rs[0].opcode).Plain?
    ensures LevelAt(rs, 0) == 0 && Depth(rs, 1) == 0 == DepthAt(Outside, 1)
  {
    assert Depth(rs, 0) == 0;
  }

  lemma {:induction false} OneRoot(rs: seq<Record>, n: nat)
    requires 1 <= n <= |rs| && KindOf(rs[0].opcode).Plain?
    requires forall k :: 1 <= k < n ==> LevelAt(rs, k) >= 1
    ensures Roots(rs, n) == 1
  {
    hide KindOf;
    if n == 1 {
      assert Roots(rs, 0) == 0 && Depth(rs, 0) == 0;
    } else {
      OneRoot(rs, n - 1);
      assert LevelAt(rs, n - 1) >= 1;
    }
  }

  /** The stream of a storable hierarchy is one that the loader accepts, with a single root. */
  lemma StorableLoads(t: Tree)
    requires Storable(t)
    ensures var rs := RecordsOf(List([t], 0, 0));
      && Loadable(rs) && Roots(rs, |rs|) == 1 && Depth(rs, |rs|) == 0
      && IsFlat(LinesOf(List([t], 0, 0)), rs)
  {
    hide Depth, LevelAt, KindOf, Known, WellFormed, List, Roots, IsTaken, Refused;
    TreeIsFlat(t);
    ListKnown([t], 0, 0);
    var es := List([t], 0, 0);
    var rs := RecordsOf(es);
    forall k | 0 <= k < |rs|
      ensures LevelAt(rs, k) == es[k].level && LoadableAt(rs, k)
    {
      assert es[k].level == LevelAt(rs, 0 + k);
      LoadableBelow(rs, k, es[k].level);
    }
    OneRoot(rs, |rs|);
  }

  lemma LoadableBelow(rs: seq<Record>, k: nat, level: nat)
    requires k < |rs| && Known(rs[k].opcode) && Unbroken(rs, k) && IsTaken(rs[k]) && LevelAt(rs, k) == level
    requires k == 0 ==> KindOf(rs[k].opcode).Plain?
    requires k > 0 ==> level >= 1
    ensures LoadableAt(rs, k)
  {
    hide KindOf, Known, Depth, IsTaken;
  }

  /** Two listings of the same stream are of the same hierarchy. */
  lemma FlatUnique(t: Tree, u: Tree, rs: seq<Record>)
    requires IsFlat(LinesOf(List([t], 0, 0)), rs) && IsFlat(LinesOf(List([u], 0, 0)), rs)
    ensures ShapesOf([t], 0) == ShapesOf([u], 0)
  {
    hide List, LevelAt, ShapesOf, Lines;
    var a, b := LinesOf(List([t], 0, 0)), LinesOf(List([u], 0, 0));
    assert a == b by {
      forall k | 0 <= k < |a|
        ensures a[k] == b[k]
      {
        assert a[k].record == b[k].record && a[k].level == b[k].level;
      }
    }
    ListIsLines([t], 0, 0);
    ListIsLines([u], 0, 0);
    LinesInjective(ShapesOf([t], 0), ShapesOf([u], 0), 0);
  }

  /**
   What is loaded and saved again is the file, byte for byte, up to trailing garbage: it is a bitwise
   copy exactly if there is none.
   */
  method LoadThenSave(file: seq<Byte>, dec: Decoder) returns (ok: bool, copy: seq<Byte>)
    requires Loadable(Parse(file, 0, 0).0) && EndRecognized(file) && AllKeep(Parse(file, 0, 0).0)
    requires Depth(Parse(file, 0, 0).0, |Parse(file, 0, 0).0|) == 0
    ensures var (rs, end) := Parse(file, 0, 0);
      && (ok <==> !end.Failed() && Roots(rs, |rs|) == 1)
      && (ok ==> copy == AllBytes(rs) && copy <= file && (copy == file <==> end.Whole?))
      && (ok && copy != file ==> IsGarbage(file, |copy|, 0))
  {
    hide Loadable, Depth, Parse, Roots, Linked, Parented, Grammatical, AllKnown, NodesApart, List, AllBytes,
         Writer.Contents, Reader.Loaded, WellFormed, LevelAt, EndRecognized, IsGarbage, AllKeep, AllSaveable,
         P.Store.Valid, InNumbers;
    var r := new Reader(file);
    ghost var ts, S;
    var header;
    ok, header, ts, S := Load(r);
    copy := [];
    if ok {
      ghost var rs := Parse(file, 0, 0).0;
      ParseBytes(file, 0, 0);
      assert file[0..] == file;
      RecordsOfFlat(ts[0], rs);
      KeptAreSaveable(rs);
      var w := new Writer();
      Save(header, null, w, dec, ts[0], S);
      NoneWritten(rs);
      w.Destroy();
      copy := w.disk;
      StoppedAt(file, rs);
    }
  }

  /** A header record, and four bytes of padding that a copy will not have. */
  const Padded: seq<Byte> := [0, 1, 0, 4, 0, 0, 0, 0]

  /** The file with padding is one that loads, and of which the header is all that is saved. */
  lemma PaddingDropped()
    ensures Parse(Padded, 0, 0) == ([Record(1, 4, [])], Garbage) && AllBytes([Record(1, 4, [])]) == Padded[..4]
    ensures Loadable([Record(1, 4, [])]) && EndRecognized(Padded) && AllKeep([Record(1, 4, [])])
    ensures Depth([Record(1, 4, [])], 1) == 0 && Roots([Record(1, 4, [])], 1) == 1
  {
    hide RecordAt, Parse, Peeked, AllBytes;
    var r := Record(1, 4, []);
    PaddedBytes();
    OneHeader(r);
    assert IsGarbage(Padded, 4, 0) && !IsGarbage(Padded, 0, 0) && !IsRefused(Padded, 0);
    ParseStop(Padded, 4);
    ParseStep(Padded, 0);
    assert Parse(Padded, 0, 0).0 == [r] + [] == [r];
  }

  lemma ParseStop(file: seq<Byte>, pos: nat)
    requires pos < |file| && IsGarbage(file, pos, 0)
    ensures Parse(file, pos, 0) == ([], Garbage)
  {
  }

  lemma ParseStep(file: seq<Byte>, pos: nat)
    requires pos < |file| && !IsGarbage(file, pos, 0) && !IsRefused(file, pos) && RecordAt(file, pos).Some?
    ensures var r := RecordAt(file, pos).value;
      var rest := Parse(file, pos + 4 + |r.data|, DepthStep(r.opcode));
      Parse(file, pos, 0) == ([r] + rest.0, rest.1)
  {
    hide RecordAt, IsGarbage, IsRefused;
  }

  lemma PaddedBytes()
    ensures Peeked(Padded, 0) == 1 && Peeked(Padded, 4) == 0 && RecordAt(Padded, 0) == Some(Record(1, 4, []))
    ensures AllBytes([Record(1, 4, [])]) == Padded[..4] && !IsRefused(Padded, 0)
  {
    hide Decode, RecordBytes, AllBytes, Parse, Refused, RecordAt;
    PaddedNumbers();
    assert Padded[0..2] == Window(Padded, 0, 2) && Padded[4..6] == Window(Padded, 4, 2);
    PaddedRecord();
    RecordAtBytes(Padded, 0);
    var r := Record(1, 4, []);
    NoBytes();
    AllBytesOne(r, []);
    assert [r] + [] == [r];
    assert RecordBytes(r) + [] == RecordBytes(r);
    assert Padded[0..4] == Padded[..4];
  }

  lemma PaddedNumbers()
    ensures Decode(U16Be, Padded[0..2]) == 1 && Decode(U16Be, Padded[2..4]) == 4 && Decode(U16Be, Padded[4..6]) == 0
  {
    hide Decode;
    TwoIs(Padded, 0);
    TwoIs(Padded, 2);
    TwoIs(Padded, 4);
  }

  lemma PaddedRecord()
    ensures RecordAt(Padded, 0) == Some(Record(1, 4, [])) && !Refused(1, 4)
  {
    hide Decode;
    PaddedNumbers();
    assert Padded[4..4] == [];
  }

  lemma OneHeader(r: Record)
    requires r == Record(1, 4, [])
    ensures Loadable([r]) && AllKeep([r]) && Roots([r], 1) == 1 && Depth([r], 1) == 0 && Offset([r], 1) == 4
  {
    assert Roots([r], 0) == 0 && Depth([r], 0) == 0 && Offset([r], 0) == 0;
  }

  /** So the copy of that file is shorter than the file. */
  method CopyPadded(dec: Decoder) returns (ok: bool, copy: seq<Byte>)
    ensures ok && copy == Padded[..4] && copy != Padded
  {
    hide Loadable, Parse, EndRecognized, AllKeep, AllBytes, Depth, Roots, IsGarbage, InNumbers;
    PaddingDropped();
    ok, copy := LoadThenSave(Padded, dec);
  }

  lemma KeptAreSaveable(rs: seq<Record>)
    requires AllKeep(rs) && AllWellFormed(rs)
    ensures AllSaveable(rs)
  {
    hide WellFormed, Preserved;
    forall n | 0 <= n < |rs|
      ensures Saveable(rs[n])
    {
      assert Keeps(rs[n], Offset(rs, n));
    }
  }

  lemma NoneWritten(rs: seq<Record>)
    ensures AllWritten(rs, None) == rs
  {
  }

  lemma StoppedAt(file: seq<Byte>, rs: seq<Record>)
    requires Parse(file, 0, 0).0 == rs && Depth(rs, |rs|) == 0
    ensures |AllBytes(rs)| <= |file| && (Parse(file, 0, 0).1.Garbage? ==> IsGarbage(file, |AllBytes(rs)|, 0))
  {
    hide AllBytes, Parse, IsGarbage, Depth;
    AtStart(rs);
    assert rs[0..] == rs;
    ParseStops(file, 0, 0, rs, 0);
    OffsetIsLength(rs, |rs|);
    assert rs[..|rs|] == rs;
  }

  lemma {:induction false} ParseStops(file: seq<Byte>, pos: nat, depth: int, rs: seq<Record>, n: nat)
    requires pos <= |file| && n <= |rs| && pos == Offset(rs, n) && depth == Depth(rs, n)
    requires Parse(file, pos, depth).0 == rs[n..]
    ensures Offset(rs, |rs|) <= |file|
    ensures Parse(file, pos, depth).1.Garbage? ==> IsGarbage(file, Offset(rs, |rs|), Depth(rs, |rs|))
    decreases |rs| - n
  {
    hide RecordAt, IsGarbage, Offset, Depth, DepthStep;
    if n < |rs| {
      var r := RecordAt(file, pos).value;
      var next := pos + 4 + |r.data|;
      var rest := Parse(file, next, depth + DepthStep(r.opcode)).0;
      assert rs[n..] == [r] + rest;
      assert rs[n..][0] == rs[n] && rs[n..][1..] == rs[n + 1..];
      OffsetNext(rs, n);
      ParseStops(file, next, depth + DepthStep(r.opcode), rs, n + 1);
    }
  }

  lemma RecordsOfFlat(t: Tree, rs: seq<Record>)
    requires IsFlat(LinesOf(List([t], 0, 0)), rs)
    ensures RecordsOf(List([t], 0, 0)) == rs
  {
    hide List, LevelAt;
    var es := List([t], 0, 0);
    forall k | 0 <= k < |es|
      ensures RecordsOf(es)[k] == rs[k]
    {
      assert LinesOf(es)[k].record == rs[k];
    }
  }

  /** In the file of a stream that loads nothing is taken for garbage. */
  lemma NoGarbage(rs: seq<Record>)
    requires Loadable(rs) && AllWellFormed(rs) && forall k :: 0 <= k < |rs| ==> !Refused(rs[k].opcode, rs[k].length)
    ensures Parse(AllBytes(rs), 0, 0) == (rs, Whole) && EndRecognized(AllBytes(rs))
  {
    hide AllBytes, IsGarbage, Offset, Depth, Known, Unbroken, Parse, WellFormed, IsTaken, Refused, IsRefused, RecordAt,
         HasCodec;
    forall k | 0 <= k < |rs|
      ensures Offset(rs, k) <= |AllBytes(rs)| && !IsGarbage(AllBytes(rs), Offset(rs, k), Depth(rs, k))
    {
      assert LoadableAt(rs, k);
      OpcodeSeen(rs, k);
      KnownNotGarbage(rs, k);
    }
    ParseAllBytes(rs, 0);
    AtStart(rs);
    assert rs[0..] == rs;
    OffsetIsLength(rs, |rs|);
    assert rs[..|rs|] == rs;
  }

  lemma AtStart(rs: seq<Record>)
    ensures Offset(rs, 0) == 0 && Depth(rs, 0) == 0
  {
  }

  lemma KnownNotGarbage(rs: seq<Record>, k: nat)
    requires k < |rs| && LoadableAt(rs, k)
    requires Offset(rs, k) <= |AllBytes(rs)| - 4 && Peeked(AllBytes(rs), Offset(rs, k)) == rs[k].opcode
    ensures !IsGarbage(AllBytes(rs), Offset(rs, k), Depth(rs, k))
  {
    hide AllBytes, Offset, Depth, Peeked, Unbroken, IsTaken;
  }

  /** What is saved loads as the same hierarchy, without deleted parts and with one palette. */
  method SaveThenLoad(root: Node, palette: P.Store?, dec: Decoder, ghost t: Tree, ghost S: set<object>)
    returns (ok: bool, header: Node?, ghost us: seq<Tree>, ghost U: set<object>)
    requires t.node == root && Linked(t, S) && !t.info.deleted && AllSaveable(RecordsOf(List([t], 0, 0)))
    requires palette != null ==> palette.Valid() && F.Sizable(palette.Records())
    requires Storable(SavedTree(t, DataOf(palette)))
    ensures ok && |us| == 1 && header == us[0].node && fresh(U)
    ensures Linked(us[0], U) && Parented(us[0], U) && NodesApart(us)
    ensures DataOf(palette) == old(DataOf(palette)) && ShapesOf(us, 0) == ShapesOf([SavedTree(t, DataOf(palette))], 0)
  {
    hide Loadable, Depth, Parse, Roots, Linked, Parented, Grammatical, AllKnown, NodesApart, List, AllBytes,
         Reader.Loaded, LevelAt, ShapesOf, NoneDeleted, EndRecognized, SavedTree, Storable, InNumbers;
    ghost var u := SavedTree(t, DataOf(palette));
    var file := ToFile(root, palette, dec, t, S, u);
    var r := new Reader(file);
    ok, header, us, U := Load(r);
    FlatUnique(us[0], u, RecordsOf(List([u], 0, 0)));
    assert us == [us[0]];
  }

  /** A file of a hierarchy, which the loader takes for that of `u`. */
  method ToFile(root: Node, palette: P.Store?, dec: Decoder, ghost t: Tree, ghost S: set<object>, ghost u: Tree)
    returns (file: seq<Byte>)
    requires t.node == root && Linked(t, S) && AllSaveable(RecordsOf(List([t], 0, 0)))
    requires palette != null ==> palette.Valid() && F.Sizable(palette.Records())
    requires !t.info.deleted && u == SavedTree(t, DataOf(palette)) && Storable(u)
    ensures DataOf(palette) == old(DataOf(palette))
    ensures var rs := RecordsOf(List([u], 0, 0));
      && file == AllBytes(rs) && Parse(file, 0, 0) == (rs, Whole) && EndRecognized(file)
      && Loadable(rs) && Roots(rs, |rs|) == 1 && Depth(rs, |rs|) == 0 && IsFlat(LinesOf(List([u], 0, 0)), rs)
  {
    hide Loadable, Depth, Parse, Roots, Linked, Grammatical, AllKnown, NodesApart, List, AllBytes, Writer.Contents,
         LevelAt, NoneDeleted, EndRecognized, Saved, SavedTree, P.Store.PoolHolds, P.Store.Distinct, F.Sizable,
         F.PaletteData, P.IsRecord, P.Flat, P.AllParts, AllSaveable, InNumbers;
    var w := new Writer();
    Save(root, palette, w, dec, t, S);
    w.Destroy();
    file := w.disk;
    SavedTreeRecords(t, DataOf(palette));
    StorableLoads(u);
    NoGarbage(RecordsOf(List([u], 0, 0)));
    assert file == [] + AllBytes(RecordsOf(List([u], 0, 0)));
  }

  /* Models with a vertex palette. */

  /** The palette of a model, looked at in a file of the model at offset `at`. */
  method PaletteAt(file: seq<Byte>, at: nat, ghost rs: seq<Record>, ghost n: nat, ghost prs: seq<seq<Byte>>)
    returns (palette: P.Store)
    requires AllWellFormed(rs) && AllBytes(rs) <= file && n < |rs| && at == Offset(rs, n) &&
             rs[n].opcode == VERTEX_PALETTE
    requires F.PaletteOf(prs, rs[n].data)
    ensures palette.Valid() && fresh(palette) && fresh(palette.data) && palette.extras == None
    ensures palette.Records() == F.LoadedRecords(prs, at + 8)
  {
    hide AllBytes, Offset, AllWellFormed, F.PaletteBytes, F.PaletteData, F.AllStorable, F.LoadedRecords, P.Store.Valid,
         P.AllParts, V.Ahead, Decode;
    PaletteAhead(file, at, rs, n, prs);
    palette := PaletteIn(file, at, rs[n].length, prs);
  }

  method PaletteIn(file: seq<Byte>, at: nat, ghost length: nat, ghost prs: seq<seq<Byte>>) returns (palette: P.Store)
    requires F.Sizable(prs) && U16Be.Holds(length) && at + 2 <= |file| &&
             Decode(U16Be, Window(file, at, 2)) == VERTEX_PALETTE
    requires V.Ahead(file, at, F.PaletteBytes(length, prs))
    ensures palette.Valid() && fresh(palette) && fresh(palette.data) && palette.extras == None
    ensures palette.Records() == F.LoadedRecords(prs, at + 8)
  {
    hide Reader.Valid, Decode, Window, V.Ahead, F.Sizable, F.PaletteBytes, F.LoadedRecords, P.Store.Valid,
         P.Store.Records;
    var r := new Reader(file);
    var before := ReadBytes(r, at);
    var loaded, nodelength := F.LoadPalette(r, length, prs);
    palette := loaded.value;
  }

  lemma SameRecords(prs: seq<seq<Byte>>, at: nat)
    requires F.Sizable(prs) && F.AllUnmistaken(prs, at)
    ensures F.LoadedRecords(prs, at) == prs
  {
    F.LoadedRight(prs, at);
  }

  lemma PaletteAhead(file: seq<Byte>, at: nat, rs: seq<Record>, n: nat, prs: seq<seq<Byte>>)
    requires AllWellFormed(rs) && AllBytes(rs) <= file && n < |rs| && at == Offset(rs, n) &&
             rs[n].opcode == VERTEX_PALETTE
    requires F.PaletteOf(prs, rs[n].data)
    ensures F.Sizable(prs) && U16Be.Holds(rs[n].length) && at + 2 <= |file|
    ensures V.Ahead(file, at, F.PaletteBytes(rs[n].length, prs)) && Decode(U16Be, Window(file, at, 2)) == VERTEX_PALETTE
  {
    hide AllBytes, Offset, F.PaletteData, F.AllStorable, Extent, Decode, Encode;
    var all := AllBytes(rs);
    assert WellFormed(rs[n]);
    RecordInFile(rs, n);
    RecordAtBytes(all, at);
    var b := RecordBytes(rs[n]);
    assert b == F.PaletteBytes(rs[n].length, prs) == file[at..at + |b|];
    F.PaletteHeader(file, at, rs[n].length, prs);
  }

  /** One of the records is a palette, and the others are saved as they were loaded. */
  ghost predicate OnePalette(rs: seq<Record>, n: nat) {
    && n < |rs| && rs[n].opcode == VERTEX_PALETTE
    && forall m :: 0 <= m < |rs| && m != n ==> rs[m].opcode != VERTEX_PALETTE && Preserved(rs[m].opcode, rs[m].length)
  }

  /** What is saved of records of which number `n` is a palette at offset `at`. */
  function Resaved(rs: seq<Record>, at: nat, prs: seq<seq<Byte>>): seq<Record>
    requires forall k :: 0 <= k < |prs| ==> |prs[k]| >= 4
  {
    AllWritten(rs, Some(F.PaletteData(F.LoadedRecords(prs, at + 8))))
  }

  /**
   Loading and saving a model whose palette is at offset `at` of its file: the copy is bitwise exactly if
   the file has no trailing garbage and no record of the palette is mistaken.
   */
  method LoadThenSaveModel(file: seq<Byte>, dec: Decoder, at: nat, ghost n: nat, ghost prs: seq<seq<Byte>>)
    returns (ok: bool, copy: seq<Byte>, palette: P.Store?)
    requires Loadable(Parse(file, 0, 0).0) && EndRecognized(file)
    requires Depth(Parse(file, 0, 0).0, |Parse(file, 0, 0).0|) == 0
    requires var rs := Parse(file, 0, 0).0; OnePalette(rs, n) && at == Offset(rs, n) && F.PaletteOf(prs, rs[n].data)
    ensures var (rs, end) := Parse(file, 0, 0);
      && (ok <==> !end.Failed() && Roots(rs, |rs|) == 1)
      && (ok ==>
          palette != null && palette.Records() == F.LoadedRecords(prs, at + 8) &&
          copy == AllBytes(Resaved(rs, at, prs)))
      && (ok ==> (copy == file <==> end.Whole? && F.AllUnmistaken(prs, at + 8)) && (|copy| == |file| <==> end.Whole?))
  {
    hide Loadable, Depth, Parse, Roots, Linked, Parented, Grammatical, AllKnown, NodesApart, List, AllBytes,
         Writer.Contents, Reader.Loaded, WellFormed, LevelAt, EndRecognized, AllSaveable, OnePalette, F.PaletteData,
         F.Sizable, F.AllUnmistaken, F.LoadedRecords, P.Store.PoolHolds, P.Store.Distinct, P.AllParts, P.IsRecord,
         P.Flat, Offset, AllWritten, InNumbers;
    var r := new Reader(file);
    ghost var ts, S;
    var header;
    ok, header, ts, S := Load(r);
    copy, palette := [], null;
    if ok {
      ghost var rs := Parse(file, 0, 0).0;
      ParseBytes(file, 0, 0);
      assert file[0..] == file;
      RecordsOfFlat(ts[0], rs);
      OneSaveable(rs, n);
      palette := PaletteAt(file, at, rs, n, prs);
      ResavedRight(rs, n, at, prs);
      copy := SavedFile(header, palette, dec, ts[0], S);
    }
  }

  lemma OneSaveable(rs: seq<Record>, n: nat)
    requires OnePalette(rs, n) && AllWellFormed(rs)
    ensures AllSaveable(rs) && n < |rs| && rs[n].opcode == VERTEX_PALETTE
  {
    hide WellFormed, Preserved;
  }

  /** What is saved has the length it had, and the bytes it had exactly when no record of the palette is mistaken. */
  lemma ResavedRight(rs: seq<Record>, n: nat, at: nat, prs: seq<seq<Byte>>)
    requires OnePalette(rs, n) && AllWellFormed(rs) && at == Offset(rs, n) && F.PaletteOf(prs, rs[n].data)
    ensures F.Sizable(F.LoadedRecords(prs, at + 8)) && |AllBytes(Resaved(rs, at, prs))| == |AllBytes(rs)|
    ensures AllBytes(Resaved(rs, at, prs)) == AllBytes(rs) <==> F.AllUnmistaken(prs, at + 8)
  {
    hide AllBytes, AllWellFormed, OnePalette, AllWritten, F.PaletteData, F.AllUnmistaken, F.LoadedRecords, F.Sizable,
         Offset, P.Flat;
    NoneShort(prs);
    F.SavedRight(prs, at + 8);
    F.LoadedSizable(prs, at + 8);
    OnlyPalette(rs, n);
    PaletteReplaced(rs, n, prs, F.LoadedRecords(prs, at + 8), Resaved(rs, at, prs));
  }

  lemma NoneShort(prs: seq<seq<Byte>>)
    requires F.Sizable(prs)
    ensures forall k :: 0 <= k < |prs| ==> |prs[k]| >= 4
  {
  }

  lemma OnlyPalette(rs: seq<Record>, n: nat)
    requires OnePalette(rs, n)
    ensures n < |rs| && forall m :: 0 <= m < |rs| ==> (rs[m].opcode == VERTEX_PALETTE <==> m == n)
  {
    hide Preserved;
  }

  lemma PaletteReplaced(rs: seq<Record>, n: nat, prs: seq<seq<Byte>>, ls: seq<seq<Byte>>, ws: seq<Record>)
    requires n < |rs| && AllWellFormed(rs) && F.PaletteOf(prs, rs[n].data)
    requires forall m :: 0 <= m < |rs| ==> (rs[m].opcode == VERTEX_PALETTE <==> m == n)
    requires F.Sizable(ls) && |P.Flat(ls)| == |P.Flat(prs)| && ws == AllWritten(rs, Some(F.PaletteData(ls)))
    ensures |AllBytes(ws)| == |AllBytes(rs)| && (AllBytes(ws) == AllBytes(rs) <==> F.PaletteData(ls) == rs[n].data)
  {
    hide AllBytes, WellFormed, F.PaletteData, F.Sizable, Offset, P.Flat;
    SameWidth(prs, ls);
    PaletteWellFormed(rs, n, ws, ls);
    SameSize(rs, ws, |rs|);
    OffsetIsLength(rs, |rs|);
    OffsetIsLength(ws, |rs|);
    assert rs[..|rs|] == rs && ws[..|rs|] == ws;
    SameSize(rs, ws, n);
    RecordInFile(rs, n);
    RecordInFile(ws, n);
    assert ws[n].data == rs[n].data ==> ws == rs;
  }

  lemma {:induction false} SameSize(rs: seq<Record>, ws: seq<Record>, k: nat)
    requires |ws| == |rs| && k <= |rs| && forall m :: 0 <= m < |rs| ==> |ws[m].data| == |rs[m].data|
    ensures Offset(ws, k) == Offset(rs, k)
  {
    if k > 0 {
      SameSize(rs, ws, k - 1);
    }
  }

  lemma PaletteWellFormed(rs: seq<Record>, n: nat, ws: seq<Record>, ls: seq<seq<Byte>>)
    requires AllWellFormed(rs) && n < |rs| == |ws| && F.Sizable(ls)
    requires ws[n] == rs[n].(data := F.PaletteData(ls)) && rs[n].opcode == VERTEX_PALETTE
    requires forall m :: 0 <= m < |rs| && m != n ==> ws[m] == rs[m]
    ensures AllWellFormed(ws)
  {
    hide P.Flat, F.FileRecords, F.AllStorable, Decode, Encode;
    var total := P.BASE + |P.Flat(ls)|;
    DecodeEncode(S32Be, total);
    var data := ws[n].data;
    assert data[..4] == Encode(S32Be, total);
    F.PaletteLength(0, ls);
    assert WellFormed(rs[n]);
    forall m | 0 <= m < |ws|
      ensures WellFormed(ws[m])
    {
      assert WellFormed(rs[m]);
    }
  }

  lemma SameWidth(prs: seq<seq<Byte>>, ls: seq<seq<Byte>>)
    requires F.Sizable(prs) && F.Sizable(ls) && |P.Flat(ls)| == |P.Flat(prs)|
    ensures |F.PaletteData(ls)| == |F.PaletteData(prs)| == 4 + |P.Flat(prs)|
  {
    F.PaletteLength(0, prs);
    F.PaletteLength(0, ls);
  }

  method SavedFile(root: Node, palette: P.Store, dec: Decoder, ghost t: Tree, ghost S: set<object>)
    returns (file: seq<Byte>)
    requires t.node == root && Linked(t, S) && AllSaveable(RecordsOf(List([t], 0, 0)))
    requires palette.Valid() && F.Sizable(palette.Records())
    ensures palette.Records() == old(palette.Records())
    ensures file == AllBytes(AllWritten(RecordsOf(List([t], 0, 0)), Some(F.PaletteData(palette.Records()))))
  {
    hide Linked, List, AllBytes, Writer.Contents, AllSaveable, F.Sizable, F.PaletteData, P.Store.PoolHolds,
         P.Store.Distinct, P.IsRecord, P.Flat, P.AllParts;
    var w := new Writer();
    Save(root, palette, w, dec, t, S);
    w.Destroy();
    file := w.disk;
    assert file == [] + file;
  }

  /**
   Saving and loading a model with a palette and any number of pools: the hierarchy is as it was, its lists
   of vertices with it, and each offset gives the vertex it gave before.
   */
  method SaveThenLoadModel(root: Node, palette: P.Store, dec: Decoder, at: nat, offset: nat, ghost n: nat,
                           ghost t: Tree, ghost S: set<object>)
    returns (header: Node?, copy: P.Store, before: Option<Vertex>, after: Option<Vertex>, ghost us: seq<Tree>,
             ghost U: set<object>)
    requires t.node == root && Linked(t, S) && !t.info.deleted && AllSaveable(RecordsOf(List([t], 0, 0)))
    requires palette.Valid() && F.Sizable(palette.Records()) && (offset >= palette.Total() || palette.CanLookUp(offset))
    requires var u := SavedTree(t, Some(F.PaletteData(palette.Records())));
      var rs := RecordsOf(List([u], 0, 0));
      && Storable(u) && n < |rs| && rs[n].opcode == VERTEX_PALETTE && at == Offset(rs, n) &&
         F.AllUnmistaken(palette.Records(), at + 8)
    ensures |us| == 1 && header == us[0].node && fresh(U) && Linked(us[0], U) && Parented(us[0], U) && NodesApart(us)
    ensures ShapesOf(us, 0) == ShapesOf([SavedTree(t, Some(F.PaletteData(palette.Records())))], 0)
    ensures copy.Valid() && copy.extras == None && F.SameMeaning(palette, copy) && before == after
  {
    hide Loadable, Depth, Parse, Roots, Linked, Parented, Grammatical, AllKnown, NodesApart, List, AllBytes,
         Reader.Loaded, LevelAt, ShapesOf, NoneDeleted, EndRecognized, SavedTree, Storable, F.PaletteData, F.Sizable,
         F.AllUnmistaken, P.Store.Valid, P.AllParts, P.Flat, P.IsRecord, P.RecordAt, P.IsStart, P.VertexIn, Decode,
         Offset, AllSaveable, InNumbers;
    ghost var prs, data := palette.Records(), DataOf(palette);
    ghost var u := SavedTree(t, data);
    ghost var rs := RecordsOf(List([u], 0, 0));
    before := palette.Lookup(offset);
    var file := ToFile(root, palette, dec, t, S, u);
    var r := new Reader(file);
    var ok;
    ok, header, us, U := Load(r);
    FlatUnique(us[0], u, rs);
    assert us == [us[0]];
    PaletteWritten(t, u, rs, n, prs);
    copy := PaletteAt(file, at, rs, n, prs);
    SameRecords(prs, at + 8);
    after := copy.Lookup(offset);
  }

  lemma PaletteWritten(t: Tree, u: Tree, rs: seq<Record>, n: nat, prs: seq<seq<Byte>>)
    requires F.Sizable(prs) && !t.info.deleted && u == SavedTree(t, Some(F.PaletteData(prs))) && Storable(u)
    requires rs == RecordsOf(List([u], 0, 0)) && n < |rs| && rs[n].opcode == VERTEX_PALETTE
    ensures F.PaletteOf(prs, rs[n].data) && AllWellFormed(rs)
  {
    hide List, SavedTree, F.PaletteData, F.AllStorable, Storable, AllWellFormed, Written;
    var data := F.PaletteData(prs);
    SavedTreeRecords(t, Some(data));
    StorableWellFormed(u);
    PaletteAmong(RecordsOf(List([t], 0, 0)), n, data);
  }

  lemma SavedTreeRecords(t: Tree, palette: Option<seq<Byte>>)
    requires !t.info.deleted
    ensures RecordsOf(List([SavedTree(t, palette)], 0, 0)) == AllWritten(RecordsOf(List([t], 0, 0)), palette)
  {
    hide List, SavedTree, Saved, Written;
    SavedRoot(t, palette);
    SavedRecords([t], 0, 0, palette);
  }

  lemma StorableWellFormed(u: Tree)
    requires Storable(u)
    ensures AllWellFormed(RecordsOf(List([u], 0, 0)))
  {
    hide List, Grammatical, AllKnown, NoneDeleted, AllWellFormed, AllLoadable;
  }

  lemma PaletteAmong(rs: seq<Record>, n: nat, data: seq<Byte>)
    requires n < |rs| && AllWritten(rs, Some(data))[n].opcode == VERTEX_PALETTE
    ensures AllWritten(rs, Some(data))[n].data == data
  {
    assert AllWritten(rs, Some(data))[n] == Written(rs[n], Some(data));
  }
}
