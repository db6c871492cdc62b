/** The stale `$newStartNode` (solution.js:251-266): H2.4 as written moves
    the first old child of the window to the back but does not advance
    `$newStartNode`, so a later H2.3 step inserts before a node that has
    left the front. Shuffling [a, b, c, d, e] to [c, x, d, a, e] (x a new
    key) exhibits it on the model of the code as written; the corrected
    model yields the new order. */
module StaleAnchor {
  import opened Wrappers
  import opened Descriptions
  import opened Physical
  import opened Scan
  import opened Reconcile
  import opened Arrangement
  import opened Replay
  import opened Correctness
  import opened Shapes
  import opened Findings

  // ---------------------------------------------------------------------
  // The script
  // ---------------------------------------------------------------------

  /** The keys of the shuffle [a, b, c, d, e] to [c, x, d, a, e]: five
      distinct old keys, a sixth new one. */
  predicate ShuffledKeys(ok: seq<Key>, nk: seq<Key>) {
    && |ok| == 5 && |nk| == 5
    && (forall i, j :: 0 <= i < j < 5 ==> ok[i] != ok[j])
    && (forall i :: 0 <= i < 5 ==> nk[1] != ok[i])
    && nk[0] == ok[2] && nk[2] == ok[3] && nk[3] == ok[0] && nk[4] == ok[4]
  }

  /** The script of the shuffle: H2.2 keeps e, H2.4 moves a to the back
      (before e), H2.2 keeps d, H2.3 moves c to the front, and the window
      left, b against x, is removed and inserted. */
  function ShuffleEdits(): seq<Edit> {
    [Suffix(4, 4), ToBack(0, 3), Suffix(3, 2), ToFront(2, 0), Remove(1), Insert(1)]
  }

  lemma ShuffleScript(ok: seq<Key>, nk: seq<Key>)
    requires ShuffledKeys(ok, nk)
    ensures Script(ok, nk) == ShuffleEdits()
  {
    var c2 := Cursors(1, 1, 1, 1);
    var scan := [Suffix(4, 4), ToBack(0, 3), Suffix(3, 2), ToFront(2, 0)];
    ShuffleOuter(ok, nk);
    ScriptScan(ok, nk, Phase(c2, scan));
    ShuffleTail(ok, nk);
    ShuffleJoin();
  }

  lemma ShuffleTail(ok: seq<Key>, nk: seq<Key>)
    requires |ok| == 5 && |nk| == 5
    ensures Tail(Cursors(1, 1, 1, 1), ok, nk) == [Remove(1), Insert(1)]
  {
    assert Removes(1, 2) == [Remove(1)];
    assert Inserts(1, 2) == [Insert(1)];
  }

  lemma ShuffleJoin()
    ensures [Suffix(4, 4), ToBack(0, 3), Suffix(3, 2), ToFront(2, 0)] + [Remove(1), Insert(1)] == ShuffleEdits()
  {
  }

  lemma Single(e: Edit)
    ensures [e] + [] == [e] && [] + [e] == [e]
  {
  }

  lemma Couple(x: seq<Edit>, y: seq<Edit>)
    requires |x| == 1 && |y| == 1
    ensures x + y == [x[0], y[0]]
  {
  }

  lemma ShuffleOuter(ok: seq<Key>, nk: seq<Key>)
    requires ShuffledKeys(ok, nk)
    ensures Outer(ok, nk, Initial(5, 5))
         == Phase(Cursors(1, 1, 1, 1), [Suffix(4, 4), ToBack(0, 3), Suffix(3, 2), ToFront(2, 0)])
  {
    var first := Phase(Cursors(1, 3, 0, 2), [Suffix(4, 4), ToBack(0, 3)]);
    var second := Phase(Cursors(1, 1, 1, 1), [Suffix(3, 2), ToFront(2, 0)]);
    ShuffleCycle1(ok, nk);
    ShuffleRest(ok, nk);
    OuterMore(ok, nk, Initial(5, 5), first, second);
    ScanJoin();
  }

  lemma ScanJoin()
    ensures [Suffix(4, 4), ToBack(0, 3)] + [Suffix(3, 2), ToFront(2, 0)] == [Suffix(4, 4), ToBack(0, 3), Suffix(3, 2), ToFront(2, 0)]
  {
  }

  lemma ShuffleRest(ok: seq<Key>, nk: seq<Key>)
    requires ShuffledKeys(ok, nk)
    ensures Outer(ok, nk, Cursors(1, 3, 0, 2)) == Phase(Cursors(1, 1, 1, 1), [Suffix(3, 2), ToFront(2, 0)])
  {
    var c2 := Cursors(1, 1, 1, 1);
    var second := Phase(c2, [Suffix(3, 2), ToFront(2, 0)]);
    ShuffleCycle2(ok, nk);
    ShuffleCycle3(ok, nk);
    OuterStop(ok, nk, c2, Phase(c2, []), false);
    OuterMore(ok, nk, Cursors(1, 3, 0, 2), second, Phase(c2, []));
    assert second.edits + [] == second.edits;
  }

  /** First cycle: H2.1 misses, H2.2 keeps e, H2.3 misses, H2.4 moves a. */
  lemma ShuffleCycle1(ok: seq<Key>, nk: seq<Key>)
    requires ShuffledKeys(ok, nk)
    ensures Cycle(ok, nk, Initial(5, 5)) == (Phase(Cursors(1, 3, 0, 2), [Suffix(4, 4), ToBack(0, 3)]), true)
  {
    var ends := Phase(Cursors(0, 3, 0, 3), [Suffix(4, 4)]);
    var turn := Phase(Cursors(1, 3, 0, 2), [ToBack(0, 3)]);
    ShuffleEnds1(ok, nk);
    ShuffleTurn1(ok, nk);
    CycleFull(ok, nk, Initial(5, 5), ends, turn, true);
    Couple(ends.edits, turn.edits);
  }

  lemma ShuffleEnds1(ok: seq<Key>, nk: seq<Key>)
    requires ShuffledKeys(ok, nk)
    ensures EndsPass(ok, nk, Initial(5, 5)) == Phase(Cursors(0, 3, 0, 3), [Suffix(4, 4)])
  {
    var c0, m1 := Initial(5, 5), Cursors(0, 3, 0, 3);
    RunMiss(CommonPrefix, ok, nk, c0);
    RunMiss(CommonSuffix, ok, nk, m1);
    RunHit(CommonSuffix, ok, nk, c0, Phase(m1, []));
    Single(Suffix(4, 4));
    EndsBoth(ok, nk, c0, Phase(c0, []), Phase(m1, [Suffix(4, 4)]));
  }

  lemma ShuffleTurn1(ok: seq<Key>, nk: seq<Key>)
    requires ShuffledKeys(ok, nk)
    ensures RotationPass(ok, nk, Cursors(0, 3, 0, 3)) == (Phase(Cursors(1, 3, 0, 2), [ToBack(0, 3)]), true)
  {
    var m1, c1 := Cursors(0, 3, 0, 3), Cursors(1, 3, 0, 2);
    RunMiss(EndToFront, ok, nk, m1);
    RunMiss(StartToBack, ok, nk, c1);
    RunHit(StartToBack, ok, nk, m1, Phase(c1, []));
    Single(ToBack(0, 3));
    RotationBoth(ok, nk, m1, Phase(m1, []), Phase(c1, [ToBack(0, 3)]));
  }

  /** Second cycle: H2.1 misses, H2.2 keeps d, H2.3 moves c, H2.4 misses. */
  lemma ShuffleCycle2(ok: seq<Key>, nk: seq<Key>)
    requires ShuffledKeys(ok, nk)
    ensures Cycle(ok, nk, Cursors(1, 3, 0, 2)) == (Phase(Cursors(1, 1, 1, 1), [Suffix(3, 2), ToFront(2, 0)]), true)
  {
    var ends := Phase(Cursors(1, 2, 0, 1), [Suffix(3, 2)]);
    var turn := Phase(Cursors(1, 1, 1, 1), [ToFront(2, 0)]);
    ShuffleEnds2(ok, nk);
    ShuffleTurn2(ok, nk);
    CycleFull(ok, nk, Cursors(1, 3, 0, 2), ends, turn, true);
    Couple(ends.edits, turn.edits);
  }

  lemma ShuffleEnds2(ok: seq<Key>, nk: seq<Key>)
    requires ShuffledKeys(ok, nk)
    ensures EndsPass(ok, nk, Cursors(1, 3, 0, 2)) == Phase(Cursors(1, 2, 0, 1), [Suffix(3, 2)])
  {
    var c1, m2 := Cursors(1, 3, 0, 2), Cursors(1, 2, 0, 1);
    RunMiss(CommonPrefix, ok, nk, c1);
    RunMiss(CommonSuffix, ok, nk, m2);
    RunHit(CommonSuffix, ok, nk, c1, Phase(m2, []));
    Single(Suffix(3, 2));
    EndsBoth(ok, nk, c1, Phase(c1, []), Phase(m2, [Suffix(3, 2)]));
  }

  lemma ShuffleTurn2(ok: seq<Key>, nk: seq<Key>)
    requires ShuffledKeys(ok, nk)
    ensures RotationPass(ok, nk, Cursors(1, 2, 0, 1)) == (Phase(Cursors(1, 1, 1, 1), [ToFront(2, 0)]), true)
  {
    var m2, c2 := Cursors(1, 2, 0, 1), Cursors(1, 1, 1, 1);
    RunMiss(EndToFront, ok, nk, c2);
    RunHit(EndToFront, ok, nk, m2, Phase(c2, []));
    RunMiss(StartToBack, ok, nk, c2);
    Single(ToFront(2, 0));
    RotationBoth(ok, nk, m2, Phase(c2, [ToFront(2, 0)]), Phase(c2, []));
  }

  /** Third cycle: b against x, nothing matches and the scan stops. */
  lemma ShuffleCycle3(ok: seq<Key>, nk: seq<Key>)
    requires ShuffledKeys(ok, nk)
    ensures Cycle(ok, nk, Cursors(1, 1, 1, 1)) == (Phase(Cursors(1, 1, 1, 1), []), false)
  {
    var c2 := Cursors(1, 1, 1, 1);
    var none := Phase(c2, []);
    RunMiss(CommonPrefix, ok, nk, c2);
    RunMiss(CommonSuffix, ok, nk, c2);
    RunMiss(EndToFront, ok, nk, c2);
    RunMiss(StartToBack, ok, nk, c2);
    EndsBoth(ok, nk, c2, none, none);
    RotationBoth(ok, nk, c2, none, none);
    CycleFull(ok, nk, c2, none, none, false);
  }

  // ---------------------------------------------------------------------
  // Carrying the script out on children rendered from the old list
  // ---------------------------------------------------------------------

  /** The shuffle on descriptions: old children [a, b, c, d, e] with
      distinct keys, new children [c, x, d, a, e] where x has a key of its
      own. */
  predicate Shuffled(oc: seq<Desc>, nc: seq<Desc>) {
    && |oc| == 5 && |nc| == 5
    && ShuffledKeys(KeysOf(oc), KeysOf(nc))
    && nc[0] == oc[2] && nc[2] == oc[3] && nc[3] == oc[0] && nc[4] == oc[4]
  }

  /** The cached old child i, untouched. */
  function O(kids: seq<PNode>, i: nat): Slot
    requires i < |kids|
  {
    Slot(Orig(i), kids[i])
  }

  /** Every slot of the list is an old child still holding its cached node. */
  predicate Pristine(list: seq<Slot>, kids: seq<PNode>) {
    forall k :: 0 <= k < |list| ==> list[k].h.Orig? && list[k].h.i < |kids| && list[k].node == kids[list[k].h.i]
  }

  lemma PristineKeeps(list: seq<Slot>, kids: seq<PNode>, i: nat)
    requires Pristine(list, kids) && i < |kids|
    ensures Substitute(list, Orig(i), O(kids, i)) == list
  {
  }

  /** Each pair of the shuffle diffs a child against its own description,
      so the cached node is kept and left as it is. */
  lemma SelfPair(kids: seq<PNode>, oc: seq<Desc>, nc: seq<Desc>, i: nat, j: nat)
    requires kids == RenderAll(oc) && i < |oc| && j < |nc| && nc[j] == oc[i]
    ensures DiffNode(AsWritten, kids[i], oc[i], nc[j]) == Success(Patched(kids[i], false))
  {
    DiffSelf(AsWritten, oc[i]);
  }

  lemma SuffixSelf(kids: seq<PNode>, oc: seq<Desc>, nc: seq<Desc>, i: nat, j: nat, st: Layout)
    requires kids == RenderAll(oc) && i < |oc| && j < |nc| && nc[j] == oc[i]
    requires Pristine(st.list, kids)
    ensures EditOk(Suffix(i, j), KeysOf(oc), KeysOf(nc))
    ensures Step(AsWritten, kids, oc, nc, Suffix(i, j), st) == Success(Layout(st.list, Some(Orig(i)), st.front))
  {
    SelfPair(kids, oc, nc, i, j);
    PristineKeeps(st.list, kids, i);
  }

  lemma ToBackSelf(kids: seq<PNode>, oc: seq<Desc>, nc: seq<Desc>, i: nat, j: nat, st: Layout, a: Handle)
    requires kids == RenderAll(oc) && i < |oc| && j < |nc| && nc[j] == oc[i]
    requires Pristine(st.list, kids) && st.after == Some(a)
    ensures EditOk(ToBack(i, j), KeysOf(oc), KeysOf(nc))
    ensures Step(AsWritten, kids, oc, nc, ToBack(i, j), st)
         == Success(Layout(MoveBefore(st.list, O(kids, i), a), Some(Orig(i)), st.front))
  {
    SelfPair(kids, oc, nc, i, j);
    PristineKeeps(st.list, kids, i);
  }

  lemma ToFrontSelf(kids: seq<PNode>, oc: seq<Desc>, nc: seq<Desc>, i: nat, j: nat, st: Layout)
    requires kids == RenderAll(oc) && i < |oc| && j < |nc| && nc[j] == oc[i]
    requires Pristine(st.list, kids)
    ensures EditOk(ToFront(i, j), KeysOf(oc), KeysOf(nc))
    ensures Step(AsWritten, kids, oc, nc, ToFront(i, j), st)
         == Success(st.(list := MoveBefore(st.list, O(kids, i), Orig(st.front))))
  {
    SelfPair(kids, oc, nc, i, j);
    PristineKeeps(st.list, kids, i);
  }

  /** Slots s0 to s4 standing for the old children 0 to 4. */
  predicate Numbered(s0: Slot, s1: Slot, s2: Slot, s3: Slot, s4: Slot) {
    s0.h == Orig(0) && s1.h == Orig(1) && s2.h == Orig(2) && s3.h == Orig(3) && s4.h == Orig(4)
  }

  /** H2.4 moves a before e: [a, b, c, d, e] becomes [b, c, d, a, e]. */
  lemma MoveFirstBack(s0: Slot, s1: Slot, s2: Slot, s3: Slot, s4: Slot)
    requires Numbered(s0, s1, s2, s3, s4)
    ensures MoveBefore([s0, s1, s2, s3, s4], s0, Orig(4)) == [s1, s2, s3, s0, s4]
  {
    var l := [s0, s1, s2, s3, s4];
    assert l[4].h == Orig(4);
    assert l == [] + [s0] + [s1, s2, s3, s4];
    WithoutSplit([], s0, [s1, s2, s3, s4]);
    assert [] + [s1, s2, s3, s4] == [s1, s2, s3] + [s4];
    InsertBeforeSplit([s1, s2, s3], [s4], s0, Orig(4));
    assert [s1, s2, s3] + [s0] + [s4] == [s1, s2, s3, s0, s4];
  }

  /** H2.3 moves c before the stale `$newStartNode` a:
      [b, c, d, a, e] becomes [b, d, c, a, e]. */
  lemma MoveThirdBeforeFirst(s0: Slot, s1: Slot, s2: Slot, s3: Slot, s4: Slot)
    requires Numbered(s0, s1, s2, s3, s4)
    ensures MoveBefore([s1, s2, s3, s0, s4], s2, Orig(0)) == [s1, s3, s2, s0, s4]
  {
    var l := [s1, s2, s3, s0, s4];
    assert l[3].h == Orig(0);
    assert l == [s1] + [s2] + [s3, s0, s4];
    WithoutSplit([s1], s2, [s3, s0, s4]);
    assert [s1] + [s3, s0, s4] == [s1, s3] + [s0, s4];
    InsertBeforeSplit([s1, s3], [s0, s4], s2, Orig(0));
    assert [s1, s3] + [s2] + [s0, s4] == [s1, s3, s2, s0, s4];
  }

  lemma DropSecond(s0: Slot, s1: Slot, s2: Slot, s3: Slot, s4: Slot)
    requires Numbered(s0, s1, s2, s3, s4)
    ensures Without([s1, s3, s2, s0, s4], Orig(1)) == [s3, s2, s0, s4]
  {
    assert [s1, s3, s2, s0, s4] == [] + [s1] + [s3, s2, s0, s4];
    WithoutSplit([], s1, [s3, s2, s0, s4]);
  }

  /** The new child x goes before `$afterNode`, which is d. */
  lemma PlaceNew(x: Slot, s0: Slot, s2: Slot, s3: Slot, s4: Slot)
    requires s3.h == Orig(3)
    ensures Place([s3, s2, s0, s4], x, Some(Orig(3))) == [x, s3, s2, s0, s4]
  {
    assert [s3, s2, s0, s4] == [] + [s3, s2, s0, s4];
    InsertBeforeSplit([], [s3, s2, s0, s4], x, Orig(3));
  }

  /** `es` is the shuffle script from its step k on. */
  predicate From(es: seq<Edit>, k: nat) {
    k <= 6 && |es| == 6 - k && forall m :: 0 <= m < |es| ==> es[m] == ShuffleEdits()[k + m]
  }

  lemma FromNext(es: seq<Edit>, k: nat)
    requires From(es, k) && k < 6
    ensures From(es[1..], k + 1) && es[0] == ShuffleEdits()[k]
  {
  }

  /** The rendering of the new child x. */
  function X(nc: seq<Desc>): Slot
    requires |nc| == 5
  {
    Slot(Fresh(1), Render(nc[1]))
  }

  /** The layout the script as written ends with. */
  function Final(kids: seq<PNode>, nc: seq<Desc>): Layout
    requires |kids| == 5 && |nc| == 5
  {
    Layout([X(nc), O(kids, 3), O(kids, 2), O(kids, 0), O(kids, 4)], Some(Orig(3)), 0)
  }

  /** The second step, H2.4 on a against d, moves a before e. */
  lemma StepToBack(kids: seq<PNode>, oc: seq<Desc>, nc: seq<Desc>)
    requires Shuffled(oc, nc) && kids == RenderAll(oc)
    ensures Step(AsWritten, kids, oc, nc, ToBack(0, 3), Layout([O(kids, 0), O(kids, 1), O(kids, 2), O(kids, 3), O(kids, 4)], Some(Orig(4)), 0))
         == Success(Layout([O(kids, 1), O(kids, 2), O(kids, 3), O(kids, 0), O(kids, 4)], Some(Orig(0)), 0))
  {
    var st := Layout([O(kids, 0), O(kids, 1), O(kids, 2), O(kids, 3), O(kids, 4)], Some(Orig(4)), 0);
    MoveFirstBack(O(kids, 0), O(kids, 1), O(kids, 2), O(kids, 3), O(kids, 4));
    ToBackSelf(kids, oc, nc, 0, 3, st, Orig(4));
  }

  /** The fourth step, H2.3 on d against c, moves c before the stale
      `$newStartNode` a. */
  lemma StepToFront(kids: seq<PNode>, oc: seq<Desc>, nc: seq<Desc>)
    requires Shuffled(oc, nc) && kids == RenderAll(oc)
    ensures Step(AsWritten, kids, oc, nc, ToFront(2, 0), Layout([O(kids, 1), O(kids, 2), O(kids, 3), O(kids, 0), O(kids, 4)], Some(Orig(3)), 0))
         == Success(Layout([O(kids, 1), O(kids, 3), O(kids, 2), O(kids, 0), O(kids, 4)], Some(Orig(3)), 0))
  {
    var st := Layout([O(kids, 1), O(kids, 2), O(kids, 3), O(kids, 0), O(kids, 4)], Some(Orig(3)), 0);
    MoveThirdBeforeFirst(O(kids, 0), O(kids, 1), O(kids, 2), O(kids, 3), O(kids, 4));
    ToFrontSelf(kids, oc, nc, 2, 0, st);
  }

  lemma Apply5(kids: seq<PNode>, oc: seq<Desc>, nc: seq<Desc>, es: seq<Edit>)
    requires Shuffled(oc, nc) && kids == RenderAll(oc) && From(es, 5)
    requires AllOk(es, KeysOf(oc), KeysOf(nc))
    ensures ApplyEdits(AsWritten, kids, oc, nc, es, Layout([O(kids, 3), O(kids, 2), O(kids, 0), O(kids, 4)], Some(Orig(3)), 0))
         == Success(Final(kids, nc))
  {
    var st := Layout([O(kids, 3), O(kids, 2), O(kids, 0), O(kids, 4)], Some(Orig(3)), 0);
    FromNext(es, 5);
    PlaceNew(X(nc), O(kids, 0), O(kids, 2), O(kids, 3), O(kids, 4));
    ApplyStep(AsWritten, kids, oc, nc, es, st);
    assert Step(AsWritten, kids, oc, nc, es[0], st) == Success(Final(kids, nc));
  }

  lemma Apply4(kids: seq<PNode>, oc: seq<Desc>, nc: seq<Desc>, es: seq<Edit>)
    requires Shuffled(oc, nc) && kids == RenderAll(oc) && From(es, 4)
    requires AllOk(es, KeysOf(oc), KeysOf(nc))
    ensures ApplyEdits(AsWritten, kids, oc, nc, es, Layout([O(kids, 1), O(kids, 3), O(kids, 2), O(kids, 0), O(kids, 4)], Some(Orig(3)), 0))
         == Success(Final(kids, nc))
  {
    var st := Layout([O(kids, 1), O(kids, 3), O(kids, 2), O(kids, 0), O(kids, 4)], Some(Orig(3)), 0);
    FromNext(es, 4);
    DropSecond(O(kids, 0), O(kids, 1), O(kids, 2), O(kids, 3), O(kids, 4));
    ApplyStep(AsWritten, kids, oc, nc, es, st);
    Apply5(kids, oc, nc, es[1..]);
  }

  lemma Apply3(kids: seq<PNode>, oc: seq<Desc>, nc: seq<Desc>, es: seq<Edit>)
    requires Shuffled(oc, nc) && kids == RenderAll(oc) && From(es, 3)
    requires AllOk(es, KeysOf(oc), KeysOf(nc))
    ensures ApplyEdits(AsWritten, kids, oc, nc, es, Layout([O(kids, 1), O(kids, 2), O(kids, 3), O(kids, 0), O(kids, 4)], Some(Orig(3)), 0))
         == Success(Final(kids, nc))
  {
    var st := Layout([O(kids, 1), O(kids, 2), O(kids, 3), O(kids, 0), O(kids, 4)], Some(Orig(3)), 0);
    FromNext(es, 3);
    StepToFront(kids, oc, nc);
    ApplyStep(AsWritten, kids, oc, nc, es, st);
    Apply4(kids, oc, nc, es[1..]);
  }

  lemma Apply2(kids: seq<PNode>, oc: seq<Desc>, nc: seq<Desc>, es: seq<Edit>)
    requires Shuffled(oc, nc) && kids == RenderAll(oc) && From(es, 2)
    requires AllOk(es, KeysOf(oc), KeysOf(nc))
    ensures ApplyEdits(AsWritten, kids, oc, nc, es, Layout([O(kids, 1), O(kids, 2), O(kids, 3), O(kids, 0), O(kids, 4)], Some(Orig(0)), 0))
         == Success(Final(kids, nc))
  {
    var st := Layout([O(kids, 1), O(kids, 2), O(kids, 3), O(kids, 0), O(kids, 4)], Some(Orig(0)), 0);
    FromNext(es, 2);
    SuffixSelf(kids, oc, nc, 3, 2, st);
    ApplyStep(AsWritten, kids, oc, nc, es, st);
    Apply3(kids, oc, nc, es[1..]);
  }

  lemma Apply1(kids: seq<PNode>, oc: seq<Desc>, nc: seq<Desc>, es: seq<Edit>)
    requires Shuffled(oc, nc) && kids == RenderAll(oc) && From(es, 1)
    requires AllOk(es, KeysOf(oc), KeysOf(nc))
    ensures ApplyEdits(AsWritten, kids, oc, nc, es, Layout([O(kids, 0), O(kids, 1), O(kids, 2), O(kids, 3), O(kids, 4)], Some(Orig(4)), 0))
         == Success(Final(kids, nc))
  {
    var st := Layout([O(kids, 0), O(kids, 1), O(kids, 2), O(kids, 3), O(kids, 4)], Some(Orig(4)), 0);
    var st' := Layout([O(kids, 1), O(kids, 2), O(kids, 3), O(kids, 0), O(kids, 4)], Some(Orig(0)), 0);
    FromNext(es, 1);
    AllOkTail(es, KeysOf(oc), KeysOf(nc));
    Apply2(kids, oc, nc, es[1..]);
    StepToBack(kids, oc, nc);
    Chain(AsWritten, kids, oc, nc, es, st, st', Success(Final(kids, nc)));
  }

  /** A script whose first step yields `st'` ends where the rest of it ends
      from `st'`. */
  lemma Chain(v: Variant, kids: seq<PNode>, oc: seq<Desc>, nc: seq<Desc>, es: seq<Edit>, st: Layout, st': Layout,
              r: Result<Layout, Fault>)
    requires MirrorsAll(kids, oc) && |es| > 0 && AllOk(es, KeysOf(oc), KeysOf(nc))
    requires Step(v, kids, oc, nc, es[0], st) == Success(st')
    requires AllOk(es[1..], KeysOf(oc), KeysOf(nc)) && ApplyEdits(v, kids, oc, nc, es[1..], st') == r
    ensures ApplyEdits(v, kids, oc, nc, es, st) == r
  {
    ApplyStep(v, kids, oc, nc, es, st);
  }

  lemma Apply0(kids: seq<PNode>, oc: seq<Desc>, nc: seq<Desc>, es: seq<Edit>)
    requires Shuffled(oc, nc) && kids == RenderAll(oc) && From(es, 0)
    requires AllOk(es, KeysOf(oc), KeysOf(nc))
    ensures ApplyEdits(AsWritten, kids, oc, nc, es, Start(kids)) == Success(Final(kids, nc))
  {
    var st := Start(kids);
    assert st.list == [O(kids, 0), O(kids, 1), O(kids, 2), O(kids, 3), O(kids, 4)];
    FromNext(es, 0);
    SuffixSelf(kids, oc, nc, 4, 4, st);
    ApplyStep(AsWritten, kids, oc, nc, es, st);
    Apply1(kids, oc, nc, es[1..]);
  }

  /** solution.js:251-266 as written: after H2.4 has moved a away from the
      front, `$newStartNode` still names a, so H2.3 puts c before a, in the
      middle of the list. The children come out as [x, d, c, a, e]
      instead of [c, x, d, a, e]. */
  lemma StaleAnchorAsWritten(oc: seq<Desc>, nc: seq<Desc>)
    requires Shuffled(oc, nc)
    ensures DiffChildren(AsWritten, RenderAll(oc), oc, nc)
         == Success([Render(nc[1]), Render(nc[2]), Render(nc[0]), Render(nc[3]), Render(nc[4])])
  {
    ShuffleApplied(oc, nc);
  }

  /** The script of the shuffle, carried out as written from the cached
      children, ends with the final layout. */
  lemma ShuffleApplied(oc: seq<Desc>, nc: seq<Desc>)
    requires Shuffled(oc, nc)
    ensures ApplyEdits(AsWritten, RenderAll(oc), oc, nc, Script(KeysOf(oc), KeysOf(nc)), Start(RenderAll(oc)))
         == Success(Final(RenderAll(oc), nc))
    ensures Nodes(Final(RenderAll(oc), nc).list)
         == [Render(nc[1]), Render(nc[2]), Render(nc[0]), Render(nc[3]), Render(nc[4])]
  {
    FinalNodes(RenderAll(oc), oc, nc);
    ShuffleScript(KeysOf(oc), KeysOf(nc));
    WholeScript();
    Apply0(RenderAll(oc), oc, nc, Script(KeysOf(oc), KeysOf(nc)));
  }

  lemma WholeScript()
    ensures From(ShuffleEdits(), 0)
  {
  }

  lemma FinalNodes(kids: seq<PNode>, oc: seq<Desc>, nc: seq<Desc>)
    requires Shuffled(oc, nc) && kids == RenderAll(oc)
    ensures Nodes(Final(kids, nc).list) == [Render(nc[1]), Render(nc[2]), Render(nc[0]), Render(nc[3]), Render(nc[4])]
  {
  }

  /** Corrected, the same shuffle yields the new children in their order. */
  lemma StaleAnchorCorrected(oc: seq<Desc>, nc: seq<Desc>)
    requires Shuffled(oc, nc)
    ensures DiffChildren(Corrected, RenderAll(oc), oc, nc)
         == Success([Render(nc[0]), Render(nc[1]), Render(nc[2]), Render(nc[3]), Render(nc[4])])
  {
    DiffChildrenRendersNew(oc, nc);
    RenderFive(nc);
  }

  lemma RenderFive(ds: seq<Desc>)
    requires |ds| == 5
    ensures RenderAll(ds) == [Render(ds[0]), Render(ds[1]), Render(ds[2]), Render(ds[3]), Render(ds[4])]
  {
  }

  /** The two disagree whenever c and x render differently. */
  lemma StaleAnchorMisorders(oc: seq<Desc>, nc: seq<Desc>)
    requires Shuffled(oc, nc) && Render(nc[0]) != Render(nc[1])
    ensures DiffChildren(AsWritten, RenderAll(oc), oc, nc) != DiffChildren(Corrected, RenderAll(oc), oc, nc)
  {
    StaleAnchorAsWritten(oc, nc);
    StaleAnchorCorrected(oc, nc);
    assert DiffChildren(AsWritten, RenderAll(oc), oc, nc).value[0] != DiffChildren(Corrected, RenderAll(oc), oc, nc).value[0];
  }
}
