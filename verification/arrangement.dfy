/** The layout invariant of `diffChildren`: between two steps, the parent's
    children are the already reconciled front of the new list, then the
    untouched old children of the window in their old order, then the
    already reconciled back of the new list. Every step the scan emits keeps
    it, provided `$newStartNode` is the first old child of the window and
    H2.4 has somewhere to put its node; these are exactly the two points the
    corrected variant repairs. */
module Arrangement {
  import opened Wrappers
  import opened Descriptions
  import opened Physical
  import opened Scan
  import opened Reconcile

  // ---------------------------------------------------------------------
  // List algebra of the DOM operations
  // ---------------------------------------------------------------------

  lemma AbsentAppend(a: seq<Slot>, b: seq<Slot>, h: Handle)
    ensures Absent(a + b, h) <==> Absent(a, h) && Absent(b, h)
  {
    if Absent(a, h) && Absent(b, h) {
      forall k | 0 <= k < |a + b|
        ensures (a + b)[k].h != h
      {
        if k >= |a| {
          assert (a + b)[k] == b[k - |a|];
        }
      }
    }
    if Absent(a + b, h) {
      forall k | 0 <= k < |a|
        ensures a[k].h != h
      {
        assert (a + b)[k] == a[k];
      }
      forall k | 0 <= k < |b|
        ensures b[k].h != h
      {
        assert (a + b)[|a| + k] == b[k];
      }
    }
  }

  lemma NodesAppend(a: seq<Slot>, b: seq<Slot>)
    ensures Nodes(a + b) == Nodes(a) + Nodes(b)
  {
  }

  /** The front grows by one reconciled node at its end. */
  lemma FrontGrows(f: seq<Slot>, s: Slot, want: seq<PNode>, e: nat)
    requires e < |want| && Nodes(f) == want[..e] && s.node == want[e]
    ensures Nodes(f + [s]) == want[..e + 1]
  {
    NodesAppend(f, [s]);
    assert want[..e + 1] == want[..e] + [want[e]];
  }

  /** The back grows by one reconciled node at its start. */
  lemma BackGrows(b: seq<Slot>, s: Slot, want: seq<PNode>, e: nat)
    requires e < |want| && Nodes(b) == want[e + 1..] && s.node == want[e]
    ensures Nodes([s] + b) == want[e..]
  {
    NodesAppend([s], b);
    assert want[e..] == [want[e]] + want[e + 1..];
  }

  /** Replacing a child whose handle occurs once changes that position only. */
  lemma SubstituteSplit(a: seq<Slot>, x: Slot, c: seq<Slot>, s: Slot)
    requires Absent(a, x.h) && Absent(c, x.h)
    ensures Substitute(a + [x] + c, x.h, s) == a + [s] + c
  {
    var l := a + [x] + c;
    var r := Substitute(l, x.h, s);
    forall k | 0 <= k < |r|
      ensures r[k] == (a + [s] + c)[k]
    {
      if k < |a| {
        assert l[k] == a[k];
      } else if k > |a| {
        assert l[k] == c[k - |a| - 1];
      }
    }
  }

  lemma {:induction false} WithoutAppend(a: seq<Slot>, b: seq<Slot>, h: Handle)
    ensures Without(a + b, h) == Without(a, h) + Without(b, h)
    decreases |a|
  {
    if |a| == 0 {
      assert a + b == b;
    } else {
      assert (a + b)[0] == a[0];
      assert (a + b)[1..] == a[1..] + b;
      WithoutAppend(a[1..], b, h);
    }
  }

  /** Detaching a child whose handle occurs once closes the gap it leaves. */
  lemma WithoutSplit(a: seq<Slot>, x: Slot, c: seq<Slot>)
    requires Absent(a, x.h) && Absent(c, x.h)
    ensures Without(a + [x] + c, x.h) == a + c
  {
    WithoutAppend(a + [x], c, x.h);
    WithoutAppend(a, [x], x.h);
    WithoutAbsent(a, x.h);
    WithoutAbsent(c, x.h);
    assert Without([x], x.h) == [] by {
      assert [x][1..] == [];
    }
    assert a + [] + c == a + c;
  }

  /** Inserting before the first child of `c` puts the node right after `a`. */
  lemma {:induction false} InsertBeforeSplit(a: seq<Slot>, c: seq<Slot>, s: Slot, h: Handle)
    requires Absent(a, h) && |c| > 0 && c[0].h == h
    ensures InsertBefore(a + c, s, h) == a + [s] + c
    decreases |a|
  {
    if |a| == 0 {
      assert a + c == c;
    } else {
      assert (a + c)[0] == a[0];
      assert (a + c)[1..] == a[1..] + c;
      InsertBeforeSplit(a[1..], c, s, h);
      assert [a[0]] + (a[1..] + [s] + c) == a + [s] + c;
    }
  }

  /** Placing a node with an anchor that is a child puts it immediately
      before the anchor's first occurrence; every other child keeps its
      position relative to the rest. */
  lemma PlaceBefore(list: seq<Slot>, s: Slot, a: Handle, k: nat)
    requires k < |list| && list[k].h == a && Absent(list[..k], a)
    ensures Place(list, s, Some(a)) == list[..k] + [s] + list[k..]
  {
    InsertBeforeSplit(list[..k], list[k..], s, a);
    assert list[..k] + list[k..] == list;
  }

  // ---------------------------------------------------------------------
  // Identities relative to the cursor window
  // ---------------------------------------------------------------------

  /** No handle occurs twice. */
  predicate Unique(list: seq<Slot>) {
    forall a, b :: 0 <= a < b < |list| ==> list[a].h != list[b].h
  }

  /** The node behind `h` has been consumed: its old position (for a cached
      child) or its new position (for a rendered one) has left the window. */
  predicate Outside(h: Handle, c: Cursors) {
    match h
    case Orig(i) => i < c.oldStart || c.oldEnd < i
    case Fresh(j) => j < c.newStart || c.newEnd < j
  }

  predicate AllOutside(list: seq<Slot>, c: Cursors) {
    forall k :: 0 <= k < |list| ==> Outside(list[k].h, c)
  }

  /** A handle still inside the window is not among consumed children. */
  lemma InsideAbsent(list: seq<Slot>, c: Cursors, h: Handle)
    requires AllOutside(list, c) && !Outside(h, c)
    ensures Absent(list, h)
  {
  }

  /** The untouched old children of the window, in their old order. */
  function Mid(kids: seq<PNode>, c: Cursors): (r: seq<Slot>)
    requires 0 <= c.oldStart <= c.oldEnd + 1 <= |kids|
    ensures |r| == c.oldEnd + 1 - c.oldStart
    ensures forall k :: 0 <= k < |r| ==> r[k] == Slot(Orig(c.oldStart + k), kids[c.oldStart + k])
  {
    Originals(kids)[c.oldStart .. c.oldEnd + 1]
  }

  /** The window holds only cached children of old positions inside it. */
  lemma MidAbsent(kids: seq<PNode>, c: Cursors, h: Handle)
    requires 0 <= c.oldStart <= c.oldEnd + 1 <= |kids|
    requires !(h.Orig? && c.oldStart <= h.i <= c.oldEnd)
    ensures Absent(Mid(kids, c), h)
  {
  }

  /** The window without its first old child. */
  lemma MidFirst(kids: seq<PNode>, c: Cursors, c': Cursors)
    requires 0 <= c.oldStart <= c.oldEnd < |kids|
    requires c'.oldStart == c.oldStart + 1 && c'.oldEnd == c.oldEnd
    ensures Mid(kids, c) == [Slot(Orig(c.oldStart), kids[c.oldStart])] + Mid(kids, c')
  {
    var o := Originals(kids);
    assert o[c.oldStart..c.oldEnd + 1] == [o[c.oldStart]] + o[c.oldStart + 1..c.oldEnd + 1];
  }

  /** The window without its last old child. */
  lemma MidLast(kids: seq<PNode>, c: Cursors, c': Cursors)
    requires 0 <= c.oldStart <= c.oldEnd < |kids|
    requires c'.oldStart == c.oldStart && c'.oldEnd == c.oldEnd - 1
    ensures Mid(kids, c) == Mid(kids, c') + [Slot(Orig(c.oldEnd), kids[c.oldEnd])]
  {
    var o := Originals(kids);
    assert o[c.oldStart..c.oldEnd + 1] == o[c.oldStart..c.oldEnd] + [o[c.oldEnd]];
  }

  /** A consumed child, once the window has narrowed further, is still
      outside it; the one just consumed joins the consumed ones. */
  lemma Consume(f: seq<Slot>, b: seq<Slot>, s: Slot, c: Cursors, c': Cursors)
    requires Unique(f + b) && AllOutside(f + b, c)
    requires !Outside(s.h, c) && Outside(s.h, c') && Narrower(c', c)
    ensures Unique(f + [s] + b) && AllOutside(f + [s] + b, c')
  {
    var l := f + [s] + b;
    forall k | 0 <= k < |l|
      ensures Outside(l[k].h, c')
    {
      if k < |f| {
        assert l[k] == (f + b)[k];
      } else if k > |f| {
        assert l[k] == (f + b)[k - 1];
      }
    }
    forall x, y | 0 <= x < y < |l|
      ensures l[x].h != l[y].h
    {
      if x == |f| {
        assert l[y] == (f + b)[y - 1];
        assert Outside(l[y].h, c);
      } else if y == |f| {
        assert l[x] == (f + b)[x];
        assert Outside(l[x].h, c);
      } else {
        var x' := if x < |f| then x else x - 1;
        var y' := if y < |f| then y else y - 1;
        assert l[x] == (f + b)[x'] && l[y] == (f + b)[y'];
      }
    }
  }

  // ---------------------------------------------------------------------
  // The invariant
  // ---------------------------------------------------------------------

  /** The list part of the invariant: `list` holds `f`, then the window's
      untouched old children, then `b`, and the consumed children are
      distinct and outside the window. */
  predicate Laid(list: seq<Slot>, f: seq<Slot>, b: seq<Slot>, kids: seq<PNode>, c: Cursors) {
    && 0 <= c.oldStart <= c.oldEnd + 1 <= |kids|
    && list == f + Mid(kids, c) + b
    && Unique(f + b) && AllOutside(f + b, c)
  }

  /** `st` is laid out as `f`, the window and `b`; `f` shows the new list's
      front up to the new-start cursor and `b` its back after the new-end
      cursor, as `want` prescribes; `$afterNode` is the first node of `b`
      and `$newStartNode` the first old child of the window. */
  ghost predicate Arranged(st: Layout, f: seq<Slot>, b: seq<Slot>, kids: seq<PNode>, want: seq<PNode>, c: Cursors) {
    && InRange(c, |kids|, |want|)
    && Laid(st.list, f, b, kids, c)
    && Nodes(f) == want[..c.newStart]
    && Nodes(b) == want[c.newEnd + 1..]
    && st.after == (if |b| == 0 then None else Some(b[0].h))
    && st.front == c.oldStart
  }

  /** Before the first step: every cached child is in the window and nothing
      is consumed. */
  lemma StartArranged(kids: seq<PNode>, want: seq<PNode>, c: Cursors)
    requires c.oldStart == 0 && c.oldEnd == |kids| - 1 && c.newStart == 0 && c.newEnd == |want| - 1
    ensures Arranged(Start(kids), [], [], kids, want, c)
  {
    StartLaid(kids, c);
    assert want[..0] == [] && want[|want|..] == [];
  }

  lemma StartLaid(kids: seq<PNode>, c: Cursors)
    requires c.oldStart == 0 && c.oldEnd == |kids| - 1
    ensures Laid(Originals(kids), [], [], kids, c)
  {
    var o := Originals(kids);
    assert o[0..|kids|] == o;
    assert [] + o + [] == o;
  }

  /** The node the diff of the pair leaves behind belongs to the pair: it
      is inside the window before the step and outside after it. */
  lemma PairHandle(h: Heuristic, c: Cursors, d: Patched)
    requires Open(c) && c.oldStart >= 0 && c.newStart >= 0
    ensures !Outside(HandleOf(d, OldCursor(h, c), NewCursor(h, c)), c)
    ensures Outside(HandleOf(d, OldCursor(h, c), NewCursor(h, c)), Advance(h, c))
  {
  }

  /** A step that puts its node `s` at the end of the front (H2.1, H2.3)
      keeps the invariant, whatever DOM operations got the children into
      that order. */
  lemma FrontKeeps(st: Layout, f: seq<Slot>, b: seq<Slot>, kids: seq<PNode>, want: seq<PNode>,
                   c: Cursors, c': Cursors, s: Slot, l: seq<Slot>)
    requires Arranged(st, f, b, kids, want, c) && Open(c)
    requires c' == Advance(CommonPrefix, c) || c' == Advance(EndToFront, c)
    requires s.node == want[c.newStart] && !Outside(s.h, c) && Outside(s.h, c')
    requires l == (f + [s]) + Mid(kids, c') + b
    ensures Arranged(Layout(l, st.after, c'.oldStart), f + [s], b, kids, want, c')
  {
    FrontGrows(f, s, want, c.newStart);
    Consume(f, b, s, c, c');
  }

  /** A step that puts its node `s` at the start of the back (H2.2, H2.4)
      keeps the invariant, with `s` the new `$afterNode`. */
  lemma BackKeeps(st: Layout, f: seq<Slot>, b: seq<Slot>, kids: seq<PNode>, want: seq<PNode>,
                  c: Cursors, c': Cursors, s: Slot, l: seq<Slot>)
    requires Arranged(st, f, b, kids, want, c) && Open(c)
    requires c' == Advance(CommonSuffix, c) || c' == Advance(StartToBack, c)
    requires s.node == want[c.newEnd] && !Outside(s.h, c) && Outside(s.h, c')
    requires l == f + Mid(kids, c') + ([s] + b)
    ensures Arranged(Layout(l, Some(s.h), c'.oldStart), f, [s] + b, kids, want, c')
  {
    assert c'.newStart == c.newStart && c'.newEnd == c.newEnd - 1;
    assert Narrower(c', c) && InRange(c', |kids|, |want|);
    BackGrows(b, s, want, c.newEnd);
    Consume(f, b, s, c, c');
    assert f + [s] + b == f + ([s] + b);
    assert Laid(l, f, [s] + b, kids, c');
  }

  // ---------------------------------------------------------------------
  // One step of each heuristic keeps the invariant
  // ---------------------------------------------------------------------

  /** The children after H2.1: the diffed node replaces the first old child
      of the window, which is the end of the front. */
  lemma PrefixShape(list: seq<Slot>, f: seq<Slot>, b: seq<Slot>, kids: seq<PNode>, c: Cursors, s: Slot)
    requires Laid(list, f, b, kids, c) && Open(c)
    ensures Substitute(list, Orig(c.oldStart), s) == (f + [s]) + Mid(kids, Advance(CommonPrefix, c)) + b
  {
    var c' := Advance(CommonPrefix, c);
    var x := Slot(Orig(c.oldStart), kids[c.oldStart]);
    var m' := Mid(kids, c');
    MidFirst(kids, c, c');
    assert list == f + [x] + (m' + b);
    SplitConsumed(f, b, c);
    InsideAbsent(f, c, x.h);
    InsideAbsent(b, c, x.h);
    MidAbsent(kids, c', x.h);
    AbsentAppend(m', b, x.h);
    SubstituteSplit(f, x, m' + b, s);
    assert f + [s] + (m' + b) == (f + [s]) + m' + b;
  }

  /** H2.1: the diffed node stays where the old child was, which is the
      end of the front. */
  lemma PrefixKeeps(st: Layout, f: seq<Slot>, b: seq<Slot>, kids: seq<PNode>, want: seq<PNode>, c: Cursors, s: Slot)
    requires Arranged(st, f, b, kids, want, c) && Open(c)
    requires s.node == want[c.newStart]
    requires !Outside(s.h, c) && Outside(s.h, Advance(CommonPrefix, c))
    ensures Arranged(Layout(Substitute(st.list, Orig(c.oldStart), s), st.after, c.oldStart + 1),
                     f + [s], b, kids, want, Advance(CommonPrefix, c))
  {
    PrefixShape(st.list, f, b, kids, c, s);
    FrontKeeps(st, f, b, kids, want, c, Advance(CommonPrefix, c), s, Substitute(st.list, Orig(c.oldStart), s));
  }

  /** The children after H2.2: the diffed node replaces the last old child
      of the window, which becomes the start of the back. */
  lemma SuffixShape(list: seq<Slot>, f: seq<Slot>, b: seq<Slot>, kids: seq<PNode>, c: Cursors, s: Slot)
    requires Laid(list, f, b, kids, c) && Open(c)
    ensures Substitute(list, Orig(c.oldEnd), s) == f + Mid(kids, Advance(CommonSuffix, c)) + ([s] + b)
  {
    var c' := Advance(CommonSuffix, c);
    var x := Slot(Orig(c.oldEnd), kids[c.oldEnd]);
    var m' := Mid(kids, c');
    MidLast(kids, c, c');
    assert list == (f + m') + [x] + b;
    SplitConsumed(f, b, c);
    InsideAbsent(f, c, x.h);
    InsideAbsent(b, c, x.h);
    MidAbsent(kids, c', x.h);
    AbsentAppend(f, m', x.h);
    SubstituteSplit(f + m', x, b, s);
    assert (f + m') + [s] + b == f + m' + ([s] + b);
  }

  /** H2.2: the diffed node stays where the old child was, which is the
      start of the back; it becomes `$afterNode`. */
  lemma SuffixKeeps(st: Layout, f: seq<Slot>, b: seq<Slot>, kids: seq<PNode>, want: seq<PNode>, c: Cursors, s: Slot)
    requires Arranged(st, f, b, kids, want, c) && Open(c)
    requires s.node == want[c.newEnd]
    requires !Outside(s.h, c) && Outside(s.h, Advance(CommonSuffix, c))
    ensures Arranged(Layout(Substitute(st.list, Orig(c.oldEnd), s), Some(s.h), st.front),
                     f, [s] + b, kids, want, Advance(CommonSuffix, c))
  {
    SuffixShape(st.list, f, b, kids, c, s);
    BackKeeps(st, f, b, kids, want, c, Advance(CommonSuffix, c), s, Substitute(st.list, Orig(c.oldEnd), s));
  }

  /** The consumed front and back are each outside the window, and the
      first node of the back is not in the front. */
  lemma SplitConsumed(f: seq<Slot>, b: seq<Slot>, c: Cursors)
    requires Unique(f + b) && AllOutside(f + b, c)
    ensures AllOutside(f, c) && AllOutside(b, c)
    ensures |b| > 0 ==> Absent(f, b[0].h)
  {
    assert forall k :: 0 <= k < |f| ==> f[k] == (f + b)[k];
    assert forall k :: 0 <= k < |b| ==> b[k] == (f + b)[|f| + k];
    if |b| > 0 {
      forall k | 0 <= k < |f|
        ensures f[k].h != b[0].h
      {
        assert (f + b)[k] == f[k] && (f + b)[|f|] == b[0];
      }
    }
  }

  /** The list effect of H2.3 with a fresh anchor: the node diffed at the end
      of the window moves to the window's start. */
  lemma ToFrontList(f: seq<Slot>, m: seq<Slot>, x: Slot, b: seq<Slot>, s: Slot, a: Handle)
    requires Absent(f, x.h) && Absent(m, x.h) && Absent(b, x.h)
    requires Absent(f, s.h) && Absent(m, s.h) && Absent(b, s.h)
    requires Absent(f, a)
    requires |m| == 0 ==> a == x.h && Absent(b, a)
    requires |m| > 0 ==> m[0].h == a && a != s.h
    ensures MoveBefore(Substitute(f + m + [x] + b, x.h, s), s, a) == f + [s] + m + b
  {
    AbsentAppend(f, m, x.h);
    AbsentAppend(f, m, s.h);
    SubstituteSplit(f + m, x, b, s);
    var l := (f + m) + [s] + b;
    if |m| == 0 {
      assert l == f + [s] + b;
      AbsentAppend(f + [s], b, a);
      AbsentAppend(f, [s], a);
      assert a == s.h || Absent(l, a);
    } else {
      assert l[|f|] == m[0];
      assert !Absent(l, a) by { assert l[|f|].h == a; }
      WithoutSplit(f + m, s, b);
      assert f + m + b == f + (m + b);
      InsertBeforeSplit(f, m + b, s, a);
      assert f + [s] + (m + b) == f + [s] + m + b;
    }
  }

  /** The list effect of corrected H2.4 with no `$afterNode`: the node
      diffed at the start of the window is appended at the very end. */
  lemma ToBackAppendList(f: seq<Slot>, x: Slot, m: seq<Slot>, s: Slot)
    requires Absent(f, x.h) && Absent(m, x.h)
    requires Absent(f, s.h) && Absent(m, s.h)
    ensures Without(Substitute(f + [x] + m, x.h, s), s.h) + [s] == f + m + [s]
  {
    SubstituteSplit(f, x, m, s);
    WithoutSplit(f, s, m);
  }

  /** The list effect of H2.4 with `$afterNode` the first node of the back:
      the node diffed at the start of the window moves to the window's end. */
  lemma ToBackMoveList(f: seq<Slot>, x: Slot, m: seq<Slot>, b: seq<Slot>, s: Slot)
    requires |b| > 0
    requires Absent(f, x.h) && Absent(m + b, x.h)
    requires Absent(f, s.h) && Absent(m + b, s.h)
    requires Absent(f + m, b[0].h) && b[0].h != s.h
    ensures MoveBefore(Substitute(f + [x] + (m + b), x.h, s), s, b[0].h) == (f + m) + [s] + b
  {
    SubstituteSplit(f, x, m + b, s);
    var l := f + [s] + (m + b);
    assert !Absent(l, b[0].h) by {
      assert l[|f| + 1 + |m|] == b[0];
    }
    WithoutSplit(f, s, m + b);
    assert f + (m + b) == (f + m) + b;
    InsertBeforeSplit(f + m, b, s, b[0].h);
  }

  /** The children after H2.3, in terms of the invariant's parts. */
  lemma ToFrontShape(list: seq<Slot>, f: seq<Slot>, b: seq<Slot>, kids: seq<PNode>, c: Cursors, s: Slot)
    requires Laid(list, f, b, kids, c) && Open(c)
    requires !Outside(s.h, c) && Outside(s.h, Advance(EndToFront, c))
    requires s.h == Orig(c.oldEnd) || s.h.Fresh?
    ensures MoveBefore(Substitute(list, Orig(c.oldEnd), s), s, Orig(c.oldStart))
            == (f + [s]) + Mid(kids, Advance(EndToFront, c)) + b
  {
    var c' := Advance(EndToFront, c);
    var x := Slot(Orig(c.oldEnd), kids[c.oldEnd]);
    var m' := Mid(kids, c');
    MidLast(kids, c, c');
    assert list == f + m' + [x] + b;
    SplitConsumed(f, b, c);
    InsideAbsent(f, c, x.h);
    InsideAbsent(b, c, x.h);
    InsideAbsent(f, c, s.h);
    InsideAbsent(b, c, s.h);
    InsideAbsent(f, c, Orig(c.oldStart));
    InsideAbsent(b, c, Orig(c.oldStart));
    MidAbsent(kids, c', x.h);
    MidAbsent(kids, c', s.h);
    if |m'| > 0 {
      assert m'[0].h == Orig(c.oldStart);
    }
    ToFrontList(f, m', x, b, s, Orig(c.oldStart));
  }

  /** The children after corrected H2.4 when the back is empty. */
  lemma ToBackAppendShape(list: seq<Slot>, f: seq<Slot>, kids: seq<PNode>, c: Cursors, s: Slot)
    requires Laid(list, f, [], kids, c) && Open(c)
    requires !Outside(s.h, c) && Outside(s.h, Advance(StartToBack, c))
    requires s.h == Orig(c.oldStart) || s.h.Fresh?
    ensures Without(Substitute(list, Orig(c.oldStart), s), s.h) + [s]
            == f + Mid(kids, Advance(StartToBack, c)) + [s]
  {
    var c' := Advance(StartToBack, c);
    var x := Slot(Orig(c.oldStart), kids[c.oldStart]);
    var m' := Mid(kids, c');
    MidFirst(kids, c, c');
    assert f + [] == f;
    assert list == f + [x] + m';
    SplitConsumed(f, [], c);
    InsideAbsent(f, c, x.h);
    InsideAbsent(f, c, s.h);
    MidAbsent(kids, c', x.h);
    MidAbsent(kids, c', s.h);
    ToBackAppendList(f, x, m', s);
  }

  /** The children after corrected H2.4, with `$afterNode` the first node
      of the back, if any. */
  lemma ToBackShape(list: seq<Slot>, after: Option<Handle>, f: seq<Slot>, b: seq<Slot>, kids: seq<PNode>, c: Cursors, s: Slot)
    requires Laid(list, f, b, kids, c) && Open(c)
    requires after == (if |b| == 0 then None else Some(b[0].h))
    requires !Outside(s.h, c) && Outside(s.h, Advance(StartToBack, c))
    requires s.h == Orig(c.oldStart) || s.h.Fresh?
    ensures MoveBack(Substitute(list, Orig(c.oldStart), s), s, after)
            == f + Mid(kids, Advance(StartToBack, c)) + ([s] + b)
  {
    if |b| == 0 {
      ToBackAppendShape(list, f, kids, c, s);
      assert [s] + b == [s];
    } else {
      ToBackMoveShape(list, f, b, kids, c, s);
    }
  }

  /** The children after H2.4 when the back is not empty. */
  lemma ToBackMoveShape(list: seq<Slot>, f: seq<Slot>, b: seq<Slot>, kids: seq<PNode>, c: Cursors, s: Slot)
    requires Laid(list, f, b, kids, c) && Open(c) && |b| > 0
    requires !Outside(s.h, c) && Outside(s.h, Advance(StartToBack, c))
    requires s.h == Orig(c.oldStart) || s.h.Fresh?
    ensures MoveBefore(Substitute(list, Orig(c.oldStart), s), s, b[0].h)
            == f + Mid(kids, Advance(StartToBack, c)) + ([s] + b)
  {
    var m' := Mid(kids, Advance(StartToBack, c));
    var x := Slot(Orig(c.oldStart), kids[c.oldStart]);
    ToBackPieces(list, f, b, kids, c, s);
    ToBackMoveList(f, x, m', b, s);
    assert (f + m') + [s] + b == f + m' + ([s] + b);
  }

  /** The layout H2.4 starts from, cut where the move happens: the front,
      the diffed child, the rest of the window and the back, with the
      handles involved occurring where the move needs them. */
  lemma ToBackPieces(list: seq<Slot>, f: seq<Slot>, b: seq<Slot>, kids: seq<PNode>, c: Cursors, s: Slot)
    requires Laid(list, f, b, kids, c) && Open(c) && |b| > 0
    requires !Outside(s.h, c) && Outside(s.h, Advance(StartToBack, c))
    requires s.h == Orig(c.oldStart) || s.h.Fresh?
    ensures list == f + [Slot(Orig(c.oldStart), kids[c.oldStart])] + (Mid(kids, Advance(StartToBack, c)) + b)
    ensures Absent(f, Orig(c.oldStart)) && Absent(Mid(kids, Advance(StartToBack, c)) + b, Orig(c.oldStart))
    ensures Absent(f, s.h) && Absent(Mid(kids, Advance(StartToBack, c)) + b, s.h)
    ensures Absent(f + Mid(kids, Advance(StartToBack, c)), b[0].h) && b[0].h != s.h
  {
    var c' := Advance(StartToBack, c);
    var x := Slot(Orig(c.oldStart), kids[c.oldStart]);
    var m' := Mid(kids, c');
    MidFirst(kids, c, c');
    SplitConsumed(f, b, c);
    InsideAbsent(f, c, x.h);
    InsideAbsent(b, c, x.h);
    InsideAbsent(f, c, s.h);
    InsideAbsent(b, c, s.h);
    MidAbsent(kids, c', x.h);
    MidAbsent(kids, c', s.h);
    AbsentAppend(m', b, x.h);
    AbsentAppend(m', b, s.h);
    assert b[0].h == (f + b)[|f|].h;
    MidAbsent(kids, c', b[0].h);
    AbsentAppend(f, m', b[0].h);
    assert list == f + [x] + (m' + b);
  }

  /** H2.3 with `$newStartNode` the first old child of the window: the
      diffed node moves from the end of the window to its start, which is
      the end of the front. */
  lemma ToFrontKeeps(st: Layout, f: seq<Slot>, b: seq<Slot>, kids: seq<PNode>, want: seq<PNode>, c: Cursors, s: Slot)
    requires Arranged(st, f, b, kids, want, c) && Open(c)
    requires s.node == want[c.newStart]
    requires !Outside(s.h, c) && Outside(s.h, Advance(EndToFront, c))
    requires s.h == Orig(c.oldEnd) || s.h.Fresh?
    ensures Arranged(st.(list := MoveBefore(Substitute(st.list, Orig(c.oldEnd), s), s, Orig(st.front))),
                     f + [s], b, kids, want, Advance(EndToFront, c))
  {
    ToFrontShape(st.list, f, b, kids, c, s);
    FrontKeeps(st, f, b, kids, want, c, Advance(EndToFront, c), s,
               MoveBefore(Substitute(st.list, Orig(c.oldEnd), s), s, Orig(st.front)));
  }

  /** H2.4, corrected: the diffed node moves from the start of the window to
      its end, before `$afterNode` or, with no back yet, to the very end; it
      becomes `$afterNode` and the next old child `$newStartNode`. */
  lemma ToBackKeeps(st: Layout, f: seq<Slot>, b: seq<Slot>, kids: seq<PNode>, want: seq<PNode>, c: Cursors, s: Slot)
    requires Arranged(st, f, b, kids, want, c) && Open(c)
    requires s.node == want[c.newEnd]
    requires !Outside(s.h, c) && Outside(s.h, Advance(StartToBack, c))
    requires s.h == Orig(c.oldStart) || s.h.Fresh?
    ensures Arranged(Layout(MoveBack(Substitute(st.list, Orig(c.oldStart), s), s, st.after), Some(s.h), c.oldStart + 1),
                     f, [s] + b, kids, want, Advance(StartToBack, c))
  {
    ToBackShape(st.list, st.after, f, b, kids, c, s);
    BackKeeps(st, f, b, kids, want, c, Advance(StartToBack, c), s,
              MoveBack(Substitute(st.list, Orig(c.oldStart), s), s, st.after));
  }
}
