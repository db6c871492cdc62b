/** Two inputs on which `diffChildren` as written goes wrong, each
    exhibited on the model of the code as written, next to the corrected
    model's result. The children are arbitrary descriptions with pairwise
    distinct keys. */
module Findings {
  import opened Wrappers
  import opened Descriptions
  import opened Physical
  import opened Scan
  import opened Reconcile
  import opened Correctness
  import opened Shapes

  // ---------------------------------------------------------------------
  // One unfolding of each scan function
  // ---------------------------------------------------------------------

  lemma RunMiss(h: Heuristic, ok: seq<Key>, nk: seq<Key>, c: Cursors)
    requires InRange(c, |ok|, |nk|) && Open(c)
    requires ok[OldCursor(h, c)] != nk[NewCursor(h, c)]
    ensures Run(h, ok, nk, c) == Phase(c, [])
  {
  }

  lemma RunLast(h: Heuristic, ok: seq<Key>, nk: seq<Key>, c: Cursors)
    requires InRange(c, |ok|, |nk|) && Open(c)
    requires ok[OldCursor(h, c)] == nk[NewCursor(h, c)] && !Open(Advance(h, c))
    ensures Run(h, ok, nk, c) == Phase(Advance(h, c), [EditAt(h, OldCursor(h, c), NewCursor(h, c))])
  {
  }

  lemma RunHit(h: Heuristic, ok: seq<Key>, nk: seq<Key>, c: Cursors, rest: Phase)
    requires InRange(c, |ok|, |nk|) && Open(c)
    requires ok[OldCursor(h, c)] == nk[NewCursor(h, c)] && Open(Advance(h, c))
    requires rest == Run(h, ok, nk, Advance(h, c))
    ensures Run(h, ok, nk, c) == Phase(rest.c, [EditAt(h, OldCursor(h, c), NewCursor(h, c))] + rest.edits)
  {
  }

  lemma EndsBoth(ok: seq<Key>, nk: seq<Key>, c: Cursors, p1: Phase, p2: Phase)
    requires InRange(c, |ok|, |nk|) && Open(c)
    requires Run(CommonPrefix, ok, nk, c) == p1 && Open(p1.c)
    requires Run(CommonSuffix, ok, nk, p1.c) == p2
    ensures EndsPass(ok, nk, c) == Phase(p2.c, p1.edits + p2.edits)
  {
  }

  lemma EndsCrossed(ok: seq<Key>, nk: seq<Key>, c: Cursors, p1: Phase)
    requires InRange(c, |ok|, |nk|) && Open(c)
    requires Run(CommonPrefix, ok, nk, c) == p1 && !Open(p1.c)
    ensures EndsPass(ok, nk, c) == p1
  {
  }

  lemma RotationBoth(ok: seq<Key>, nk: seq<Key>, c: Cursors, p3: Phase, p4: Phase)
    requires InRange(c, |ok|, |nk|) && Open(c)
    requires Run(EndToFront, ok, nk, c) == p3 && Open(p3.c)
    requires Run(StartToBack, ok, nk, p3.c) == p4
    ensures RotationPass(ok, nk, c) == (Phase(p4.c, p3.edits + p4.edits), |p3.edits| > 0 || |p4.edits| > 0)
  {
  }

  lemma CycleCrossed(ok: seq<Key>, nk: seq<Key>, c: Cursors, p: Phase)
    requires InRange(c, |ok|, |nk|) && Open(c)
    requires EndsPass(ok, nk, c) == p && !Open(p.c)
    ensures Cycle(ok, nk, c) == (p, false)
  {
  }

  lemma CycleFull(ok: seq<Key>, nk: seq<Key>, c: Cursors, p: Phase, q: Phase, progress: bool)
    requires InRange(c, |ok|, |nk|) && Open(c)
    requires EndsPass(ok, nk, c) == p && Open(p.c)
    requires RotationPass(ok, nk, p.c) == (q, progress)
    ensures Cycle(ok, nk, c) == (Phase(q.c, p.edits + q.edits), progress)
  {
  }

  lemma OuterStop(ok: seq<Key>, nk: seq<Key>, c: Cursors, p: Phase, progress: bool)
    requires InRange(c, |ok|, |nk|) && Open(c)
    requires Cycle(ok, nk, c) == (p, progress) && !(Open(p.c) && progress)
    ensures Outer(ok, nk, c) == p
  {
  }

  lemma OuterMore(ok: seq<Key>, nk: seq<Key>, c: Cursors, p: Phase, q: Phase)
    requires InRange(c, |ok|, |nk|) && Open(c)
    requires Cycle(ok, nk, c) == (p, true) && Open(p.c)
    requires Outer(ok, nk, p.c) == q
    ensures Outer(ok, nk, c) == Phase(q.c, p.edits + q.edits)
  {
  }

  lemma ScriptScan(ok: seq<Key>, nk: seq<Key>, p: Phase)
    requires |ok| > 0 && |nk| > 0
    requires Outer(ok, nk, Initial(|ok|, |nk|)) == p
    ensures Script(ok, nk) == p.edits + Tail(p.c, ok, nk)
  {
  }

  // ---------------------------------------------------------------------
  // Finding 1: the missing anchor in H2.4
  // ---------------------------------------------------------------------

  /** Three pairwise distinct keys. */
  predicate Distinct3(ka: Key, kb: Key, kc: Key) {
    ka != kb && kb != kc && ka != kc
  }

  /** Rotating [a, b, c] to [b, c, a]: no prefix, suffix or H2.3 pair
      matches, so H2.4 is the first heuristic to match, before any H2.2
      step has set `$afterNode`. */
  lemma RotationScript(ka: Key, kb: Key, kc: Key)
    requires Distinct3(ka, kb, kc)
    ensures Script([ka, kb, kc], [kb, kc, ka]) == [ToBack(0, 2), Prefix(1, 0), Prefix(2, 1)]
  {
    var ok, nk := [ka, kb, kc], [kb, kc, ka];
    RotationOuter(ok, nk);
    var c2 := Cursors(3, 2, 2, 1);
    ScriptScan(ok, nk, Phase(c2, [ToBack(0, 2), Prefix(1, 0), Prefix(2, 1)]));
    assert Tail(c2, ok, nk) == [];
  }

  lemma RotationOuter(ok: seq<Key>, nk: seq<Key>)
    requires Rotated(ok, nk)
    ensures Outer(ok, nk, Initial(3, 3)) == Phase(Cursors(3, 2, 2, 1), [ToBack(0, 2), Prefix(1, 0), Prefix(2, 1)])
  {
    var c0 := Initial(3, 3);
    var first := Phase(Cursors(1, 2, 0, 1), [ToBack(0, 2)]);
    var second := Phase(Cursors(3, 2, 2, 1), [Prefix(1, 0), Prefix(2, 1)]);
    RotationFirstCycle(ok, nk, c0, first);
    RotationSecondCycle(ok, nk, second);
    OuterMore(ok, nk, c0, first, second);
    RotationEdits();
  }

  lemma PrefixEdits()
    ensures [Prefix(1, 0)] + [Prefix(2, 1)] == [Prefix(1, 0), Prefix(2, 1)]
  {
  }

  lemma RotationEdits()
    ensures [ToBack(0, 2)] + [Prefix(1, 0), Prefix(2, 1)] == [ToBack(0, 2), Prefix(1, 0), Prefix(2, 1)]
  {
  }

  /** The keys of the rotation [a, b, c] to [b, c, a]. */
  predicate Rotated(ok: seq<Key>, nk: seq<Key>) {
    && |ok| == 3 && |nk| == 3 && Distinct3(ok[0], ok[1], ok[2])
    && nk[0] == ok[1] && nk[1] == ok[2] && nk[2] == ok[0]
  }

  lemma RotationFirstCycle(ok: seq<Key>, nk: seq<Key>, c0: Cursors, first: Phase)
    requires Rotated(ok, nk)
    requires c0 == Cursors(0, 2, 0, 2) && first == Phase(Cursors(1, 2, 0, 1), [ToBack(0, 2)])
    ensures Cycle(ok, nk, c0) == (first, true)
  {
    RotationEnds(ok, nk, c0);
    RotationTurn(ok, nk, c0, first);
    CycleFull(ok, nk, c0, Phase(c0, []), first, true);
    assert [] + first.edits == first.edits;
  }

  lemma RotationEnds(ok: seq<Key>, nk: seq<Key>, c0: Cursors)
    requires Rotated(ok, nk) && c0 == Cursors(0, 2, 0, 2)
    ensures EndsPass(ok, nk, c0) == Phase(c0, [])
  {
    var none := Phase(c0, []);
    RunMiss(CommonPrefix, ok, nk, c0);
    RunMiss(CommonSuffix, ok, nk, c0);
    EndsBoth(ok, nk, c0, none, none);
    assert none.edits + none.edits == [];
  }

  lemma RotationTurn(ok: seq<Key>, nk: seq<Key>, c0: Cursors, first: Phase)
    requires Rotated(ok, nk)
    requires c0 == Cursors(0, 2, 0, 2) && first == Phase(Cursors(1, 2, 0, 1), [ToBack(0, 2)])
    ensures RotationPass(ok, nk, c0) == (first, true)
  {
    var none := Phase(c0, []);
    RunMiss(EndToFront, ok, nk, c0);
    RunMiss(StartToBack, ok, nk, first.c);
    RunHit(StartToBack, ok, nk, c0, Phase(first.c, []));
    assert [ToBack(0, 2)] + [] == first.edits;
    RotationBoth(ok, nk, c0, none, first);
    assert none.edits + first.edits == first.edits;
  }

  lemma RotationSecondCycle(ok: seq<Key>, nk: seq<Key>, second: Phase)
    requires Rotated(ok, nk)
    requires second == Phase(Cursors(3, 2, 2, 1), [Prefix(1, 0), Prefix(2, 1)])
    ensures Outer(ok, nk, Cursors(1, 2, 0, 1)) == second
  {
    var c1 := Cursors(1, 2, 0, 1);
    var last := Phase(second.c, [Prefix(2, 1)]);
    RunLast(CommonPrefix, ok, nk, Cursors(2, 2, 1, 1));
    RunHit(CommonPrefix, ok, nk, c1, last);
    PrefixEdits();
    EndsCrossed(ok, nk, c1, second);
    CycleCrossed(ok, nk, c1, second);
    OuterStop(ok, nk, c1, second, false);
  }

  /** solution.js:256 as written: H2.4 calls `before` on an unset
      `$afterNode`, so rotating three children with distinct keys fails,
      whatever the children are. */
  lemma MissingAnchorAsWritten(kids: seq<PNode>, oc: seq<Desc>, nc: seq<Desc>)
    requires MirrorsAll(kids, oc) && |oc| == 3
    requires |nc| == 3 && nc[0] == oc[1] && nc[1] == oc[2] && nc[2] == oc[0]
    requires Distinct3(KeyOf(oc[0]), KeyOf(oc[1]), KeyOf(oc[2]))
    ensures DiffChildren(AsWritten, kids, oc, nc) == Failure(MissingAnchor)
  {
    RotationKeys(oc, nc);
    var ok := KeysOf(oc);
    RotationScript(ok[0], ok[1], ok[2]);
    ToBackFirstFails(kids, oc, nc);
  }

  lemma RotationKeys(oc: seq<Desc>, nc: seq<Desc>)
    requires |oc| == 3 && |nc| == 3 && nc[0] == oc[1] && nc[1] == oc[2] && nc[2] == oc[0]
    ensures KeysOf(oc) == [KeysOf(oc)[0], KeysOf(oc)[1], KeysOf(oc)[2]]
    ensures KeysOf(nc) == [KeysOf(oc)[1], KeysOf(oc)[2], KeysOf(oc)[0]]
  {
  }

  /** As written, a script that opens with an H2.4 step fails: nothing
      has set `$afterNode` yet. */
  lemma ToBackFirstFails(kids: seq<PNode>, oc: seq<Desc>, nc: seq<Desc>)
    requires MirrorsAll(kids, oc) && |nc| > 0
    requires |Script(KeysOf(oc), KeysOf(nc))| > 0 && Script(KeysOf(oc), KeysOf(nc))[0].ToBack?
    ensures DiffChildren(AsWritten, kids, oc, nc) == Failure(MissingAnchor)
  {
    var es := Script(KeysOf(oc), KeysOf(nc));
    ToBackAtStart(kids, oc, nc, es[0]);
    FirstStepFails(AsWritten, kids, oc, nc, es, Start(kids));
  }

  lemma ToBackAtStart(kids: seq<PNode>, oc: seq<Desc>, nc: seq<Desc>, e: Edit)
    requires MirrorsAll(kids, oc) && EditOk(e, KeysOf(oc), KeysOf(nc)) && e.ToBack?
    ensures Step(AsWritten, kids, oc, nc, e, Start(kids)).Failure?
  {
  }

  lemma FirstStepFails(v: Variant, kids: seq<PNode>, oc: seq<Desc>, nc: seq<Desc>, es: seq<Edit>, st: Layout)
    requires MirrorsAll(kids, oc) && AllOk(es, KeysOf(oc), KeysOf(nc)) && |es| > 0
    requires Step(v, kids, oc, nc, es[0], st).Failure?
    ensures ApplyEdits(v, kids, oc, nc, es, st) == Failure(MissingAnchor)
  {
    var r := Step(v, kids, oc, nc, es[0], st);
    assert r.error == MissingAnchor;
    assert ApplyEdits(v, kids, oc, nc, es, st) == r.PropagateFailure();
  }

  /** Corrected, the same rotation yields the renderings of the rotated
      list. */
  lemma MissingAnchorCorrected(oc: seq<Desc>, nc: seq<Desc>)
    requires |oc| == 3
    requires |nc| == 3 && nc[0] == oc[1] && nc[1] == oc[2] && nc[2] == oc[0]
    ensures DiffChildren(Corrected, RenderAll(oc), oc, nc) == Success([Render(oc[1]), Render(oc[2]), Render(oc[0])])
  {
    DiffChildrenRendersNew(oc, nc);
    RenderThree(nc, oc[1], oc[2], oc[0]);
  }

  lemma RenderThree(ds: seq<Desc>, x: Desc, y: Desc, z: Desc)
    requires |ds| == 3 && ds[0] == x && ds[1] == y && ds[2] == z
    ensures RenderAll(ds) == [Render(x), Render(y), Render(z)]
  {
  }
}
