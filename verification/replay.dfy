/** Carrying out a whole edit script on a layout that satisfies the
    invariant of `Arrangement`: the cursor scan's walk keeps it step by step
    and the tail handling turns it into the new list. The generic result,
    `ScriptDelivers`, is stated for any target list of nodes `want` that the
    individual pair diffs and insertions deliver. */
module Replay {
  import opened Wrappers
  import opened Descriptions
  import opened Physical
  import opened Scan
  import opened Reconcile
  import opened Arrangement

  /** The step `e` contributes the node `want` expects at its new position:
      a pair's diff succeeds with that node, an insertion renders it. */
  ghost predicate Delivers(v: Variant, kids: seq<PNode>, oc: seq<Desc>, nc: seq<Desc>, want: seq<PNode>, e: Edit)
    requires MirrorsAll(kids, oc)
  {
    match e
    case Prefix(i, j) => PairDelivers(v, kids, oc, nc, want, i, j)
    case Suffix(i, j) => PairDelivers(v, kids, oc, nc, want, i, j)
    case ToFront(i, j) => PairDelivers(v, kids, oc, nc, want, i, j)
    case ToBack(i, j) => PairDelivers(v, kids, oc, nc, want, i, j)
    case Insert(j) => j < |nc| && j < |want| && want[j] == Render(nc[j])
    case Remove(_) => true
    case Clear => true
  }

  ghost predicate PairDelivers(v: Variant, kids: seq<PNode>, oc: seq<Desc>, nc: seq<Desc>, want: seq<PNode>, i: nat, j: nat)
    requires MirrorsAll(kids, oc)
  {
    && i < |oc| && j < |nc| && j < |want|
    && DiffNode(v, kids[i], oc[i], nc[j]).Success?
    && DiffNode(v, kids[i], oc[i], nc[j]).value.node == want[j]
  }

  /** Every step of `es` delivers, and, as written, none of them is H2.4. */
  ghost predicate AllDeliver(v: Variant, kids: seq<PNode>, oc: seq<Desc>, nc: seq<Desc>, want: seq<PNode>, es: seq<Edit>)
    requires MirrorsAll(kids, oc)
  {
    && (forall k :: 0 <= k < |es| ==> Delivers(v, kids, oc, nc, want, es[k]))
    && (v == AsWritten ==> forall k :: 0 <= k < |es| ==> !es[k].ToBack?)
  }

  lemma AllDeliverTail(v: Variant, kids: seq<PNode>, oc: seq<Desc>, nc: seq<Desc>, want: seq<PNode>, es: seq<Edit>)
    requires MirrorsAll(kids, oc) && |es| > 0 && AllDeliver(v, kids, oc, nc, want, es)
    ensures AllDeliver(v, kids, oc, nc, want, es[1..])
    ensures Delivers(v, kids, oc, nc, want, es[0]) && (v == AsWritten ==> !es[0].ToBack?)
  {
    assert forall k :: 0 <= k < |es[1..]| ==> es[1..][k] == es[k + 1];
  }

  lemma AllOkTail(es: seq<Edit>, ok: seq<Key>, nk: seq<Key>)
    requires |es| > 0 && AllOk(es, ok, nk)
    ensures AllOk(es[1..], ok, nk) && EditOk(es[0], ok, nk)
  {
    assert forall k :: 0 <= k < |es[1..]| ==> es[1..][k] == es[k + 1];
  }

  /** One pair step of the walk keeps the invariant. */
  lemma StepKeeps(v: Variant, kids: seq<PNode>, oc: seq<Desc>, nc: seq<Desc>, want: seq<PNode>,
                  st: Layout, f: seq<Slot>, b: seq<Slot>, c: Cursors, h: Heuristic)
    returns (f': seq<Slot>, b': seq<Slot>)
    requires MirrorsAll(kids, oc) && |want| == |nc|
    requires Arranged(st, f, b, kids, want, c) && Open(c)
    requires EditOk(EditAt(h, OldCursor(h, c), NewCursor(h, c)), KeysOf(oc), KeysOf(nc))
    requires Delivers(v, kids, oc, nc, want, EditAt(h, OldCursor(h, c), NewCursor(h, c)))
    requires h == StartToBack ==> v == Corrected
    ensures Step(v, kids, oc, nc, EditAt(h, OldCursor(h, c), NewCursor(h, c)), st).Success?
    ensures Arranged(Step(v, kids, oc, nc, EditAt(h, OldCursor(h, c), NewCursor(h, c)), st).value, f', b', kids, want, Advance(h, c))
  {
    var i, j := OldCursor(h, c), NewCursor(h, c);
    var d := DiffNode(v, kids[i], oc[i], nc[j]).value;
    var s := Slot(HandleOf(d, i, j), d.node);
    PairHandle(h, c, d);
    match h
    case CommonPrefix =>
      PrefixKeeps(st, f, b, kids, want, c, s);
      f', b' := f + [s], b;
    case CommonSuffix =>
      SuffixKeeps(st, f, b, kids, want, c, s);
      f', b' := f, [s] + b;
    case EndToFront =>
      ToFrontKeeps(st, f, b, kids, want, c, s);
      f', b' := f + [s], b;
    case StartToBack =>
      ToBackKeeps(st, f, b, kids, want, c, s);
      f', b' := f, [s] + b;
  }

  /** A walk of the scan keeps the invariant from its first cursors to its
      last. */
  lemma {:induction false} ApplyWalk(v: Variant, kids: seq<PNode>, oc: seq<Desc>, nc: seq<Desc>, want: seq<PNode>,
                                     es: seq<Edit>, st: Layout, f: seq<Slot>, b: seq<Slot>, c: Cursors, c': Cursors)
    returns (f': seq<Slot>, b': seq<Slot>)
    requires MirrorsAll(kids, oc) && |want| == |nc|
    requires Arranged(st, f, b, kids, want, c)
    requires Walk(es, c, c', |oc|, |nc|) && AllOk(es, KeysOf(oc), KeysOf(nc))
    requires AllDeliver(v, kids, oc, nc, want, es)
    ensures ApplyEdits(v, kids, oc, nc, es, st).Success?
    ensures Arranged(ApplyEdits(v, kids, oc, nc, es, st).value, f', b', kids, want, c')
    decreases |es|
  {
    if |es| == 0 {
      f', b' := f, b;
    } else {
      var h := HeuristicOf(es[0]);
      AllOkTail(es, KeysOf(oc), KeysOf(nc));
      AllDeliverTail(v, kids, oc, nc, want, es);
      var f1, b1 := StepKeeps(v, kids, oc, nc, want, st, f, b, c, h);
      var st1 := Step(v, kids, oc, nc, es[0], st).value;
      f', b' := ApplyWalk(v, kids, oc, nc, want, es[1..], st1, f1, b1, Advance(h, c), c');
    }
  }

  /** Carrying out `a + b` is carrying out `a`, then `b`. */
  lemma {:induction false} ApplyAppend(v: Variant, kids: seq<PNode>, oc: seq<Desc>, nc: seq<Desc>, a: seq<Edit>, b: seq<Edit>, st: Layout)
    requires MirrorsAll(kids, oc) && AllOk(a, KeysOf(oc), KeysOf(nc)) && AllOk(b, KeysOf(oc), KeysOf(nc))
    requires AllOk(a + b, KeysOf(oc), KeysOf(nc))
    ensures ApplyEdits(v, kids, oc, nc, a, st).Success? ==>
      ApplyEdits(v, kids, oc, nc, a + b, st) == ApplyEdits(v, kids, oc, nc, b, ApplyEdits(v, kids, oc, nc, a, st).value)
    decreases |a|
  {
    if |a| == 0 {
      assert a + b == b;
    } else {
      AllOkTail(a, KeysOf(oc), KeysOf(nc));
      AllOkTail(a + b, KeysOf(oc), KeysOf(nc));
      assert (a + b)[0] == a[0];
      assert (a + b)[1..] == a[1..] + b;
      var r := Step(v, kids, oc, nc, a[0], st);
      if r.Success? {
        ApplyAppend(v, kids, oc, nc, a[1..], b, r.value);
      }
    }
  }

  /** The nodes H2.6 and the final branch render for the new positions
      `lo` to `hi - 1`, in order. */
  function Rendered(nc: seq<Desc>, lo: nat, hi: nat): (r: seq<Slot>)
    requires lo <= hi <= |nc|
    ensures |r| == hi - lo
    ensures forall k :: 0 <= k < |r| ==> r[k] == Slot(Fresh(lo + k), Render(nc[lo + k]))
  {
    seq(hi - lo, k requires 0 <= k < hi - lo => Slot(Fresh(lo + k), Render(nc[lo + k])))
  }

  lemma InsertsShape(lo: nat, hi: nat)
    requires lo <= hi
    ensures |Inserts(lo, hi)| == hi - lo
    ensures forall k :: 0 <= k < hi - lo ==> Inserts(lo, hi)[k] == Insert(lo + k)
    decreases hi - lo
  {
    if lo < hi {
      InsertsShape(lo + 1, hi);
    }
  }

  /** Carrying out a non-empty script whose first step succeeds is carrying
      out the rest from that step's result. */
  lemma ApplyStep(v: Variant, kids: seq<PNode>, oc: seq<Desc>, nc: seq<Desc>, es: seq<Edit>, st: Layout)
    requires MirrorsAll(kids, oc) && |es| > 0 && AllOk(es, KeysOf(oc), KeysOf(nc))
    ensures AllOk(es[1..], KeysOf(oc), KeysOf(nc)) && EditOk(es[0], KeysOf(oc), KeysOf(nc))
    ensures Step(v, kids, oc, nc, es[0], st).Success? ==>
      ApplyEdits(v, kids, oc, nc, es, st) == ApplyEdits(v, kids, oc, nc, es[1..], Step(v, kids, oc, nc, es[0], st).value)
  {
    AllOkTail(es, KeysOf(oc), KeysOf(nc));
  }

  /** A removal takes its old child out of the list and changes nothing
      else. */
  lemma ApplyRemove(v: Variant, kids: seq<PNode>, oc: seq<Desc>, nc: seq<Desc>, es: seq<Edit>, st: Layout, i: nat)
    requires MirrorsAll(kids, oc) && |es| > 0 && es[0] == Remove(i) && AllOk(es, KeysOf(oc), KeysOf(nc))
    ensures AllOk(es[1..], KeysOf(oc), KeysOf(nc))
    ensures ApplyEdits(v, kids, oc, nc, es, st) == ApplyEdits(v, kids, oc, nc, es[1..], st.(list := Without(st.list, Orig(i))))
  {
    ApplyStep(v, kids, oc, nc, es, st);
  }

  /** The list after removing the old children hi-1 down to lo, one at a
      time. */
  function DropDown(list: seq<Slot>, lo: nat, hi: nat): seq<Slot>
    decreases hi - lo
  {
    if hi <= lo then list else DropDown(Without(list, Orig(hi - 1)), lo, hi - 1)
  }

  /** The list after removing the old children lo up to hi-1, one at a
      time. */
  function DropUp(list: seq<Slot>, lo: nat, hi: nat): seq<Slot>
    decreases hi - lo
  {
    if hi <= lo then list else DropUp(Without(list, Orig(lo)), lo + 1, hi)
  }

  /** A run of removals only detaches nodes, each at its turn. */
  lemma {:induction false} RemovesDownSteps(v: Variant, kids: seq<PNode>, oc: seq<Desc>, nc: seq<Desc>,
                                            st: Layout, lo: nat, hi: nat)
    requires MirrorsAll(kids, oc) && hi <= |oc|
    ensures AllOk(RemovesDown(lo, hi), KeysOf(oc), KeysOf(nc))
    ensures ApplyEdits(v, kids, oc, nc, RemovesDown(lo, hi), st) == Success(st.(list := DropDown(st.list, lo, hi)))
    decreases hi - lo
  {
    RemovesDownOk(lo, hi, KeysOf(oc), KeysOf(nc));
    if lo < hi {
      var es := RemovesDown(lo, hi);
      var st' := st.(list := Without(st.list, Orig(hi - 1)));
      assert DropDown(st.list, lo, hi) == DropDown(st'.list, lo, hi - 1);
      assert es[0] == Remove(hi - 1) && es[1..] == RemovesDown(lo, hi - 1);
      ApplyRemove(v, kids, oc, nc, es, st, hi - 1);
      RemovesDownSteps(v, kids, oc, nc, st', lo, hi - 1);
      assert st'.(list := DropDown(st'.list, lo, hi - 1)) == st.(list := DropDown(st.list, lo, hi));
    } else {
      assert RemovesDown(lo, hi) == [] && st.(list := DropDown(st.list, lo, hi)) == st;
    }
  }

  lemma {:induction false} RemovesSteps(v: Variant, kids: seq<PNode>, oc: seq<Desc>, nc: seq<Desc>,
                                        st: Layout, lo: nat, hi: nat)
    requires MirrorsAll(kids, oc) && hi <= |oc|
    ensures AllOk(Removes(lo, hi), KeysOf(oc), KeysOf(nc))
    ensures ApplyEdits(v, kids, oc, nc, Removes(lo, hi), st) == Success(st.(list := DropUp(st.list, lo, hi)))
    decreases hi - lo
  {
    RemovesOk(lo, hi, KeysOf(oc), KeysOf(nc));
    if lo < hi {
      var es := Removes(lo, hi);
      var st' := st.(list := Without(st.list, Orig(lo)));
      assert DropUp(st.list, lo, hi) == DropUp(st'.list, lo + 1, hi);
      assert es[0] == Remove(lo) && es[1..] == Removes(lo + 1, hi);
      ApplyRemove(v, kids, oc, nc, es, st, lo);
      RemovesSteps(v, kids, oc, nc, st', lo + 1, hi);
      assert st'.(list := DropUp(st'.list, lo + 1, hi)) == st.(list := DropUp(st.list, lo, hi));
    } else {
      assert Removes(lo, hi) == [] && st.(list := DropUp(st.list, lo, hi)) == st;
    }
  }

  lemma {:induction false} RemovesDownOk(lo: nat, hi: int, ok: seq<Key>, nk: seq<Key>)
    requires hi <= |ok|
    ensures AllOk(RemovesDown(lo, hi), ok, nk)
    decreases hi - lo
  {
    if lo < hi {
      RemovesDownOk(lo, hi - 1, ok, nk);
      AllOkAppend([Remove(hi - 1)], RemovesDown(lo, hi - 1), ok, nk);
    }
  }

  lemma {:induction false} RemovesOk(lo: nat, hi: int, ok: seq<Key>, nk: seq<Key>)
    requires hi <= |ok|
    ensures AllOk(Removes(lo, hi), ok, nk)
    decreases hi - lo
  {
    if lo < hi {
      RemovesOk(lo + 1, hi, ok, nk);
      AllOkAppend([Remove(lo)], Removes(lo + 1, hi), ok, nk);
    }
  }

  /** No slot of the list is an old child from positions lo up to hi-1. */
  predicate NoneBetween(list: seq<Slot>, lo: int, hi: int) {
    forall k :: 0 <= k < |list| ==> !(list[k].h.Orig? && lo <= list[k].h.i < hi)
  }

  /** H2.5 removes the window's old children from its end: what is left
      is the front and the back. */
  lemma {:induction false} DropDownWindow(kids: seq<PNode>, f: seq<Slot>, b: seq<Slot>, lo: nat, hi: nat)
    requires lo <= hi <= |kids|
    requires NoneBetween(f, lo, hi) && NoneBetween(b, lo, hi)
    ensures DropDown(f + Originals(kids)[lo..hi] + b, lo, hi) == f + b
    decreases hi - lo
  {
    if lo == hi {
      assert f + Originals(kids)[lo..hi] + b == f + b;
    } else {
      var m := Originals(kids)[lo..hi - 1];
      LastSplit(kids, f, b, lo, hi);
      WithoutSplit(f + m, Slot(Orig(hi - 1), kids[hi - 1]), b);
      DropDownWindow(kids, f, b, lo, hi - 1);
    }
  }

  lemma LastSplit(kids: seq<PNode>, f: seq<Slot>, b: seq<Slot>, lo: nat, hi: nat)
    requires lo < hi <= |kids|
    requires NoneBetween(f, lo, hi) && NoneBetween(b, lo, hi)
    ensures f + Originals(kids)[lo..hi] + b == (f + Originals(kids)[lo..hi - 1]) + [Slot(Orig(hi - 1), kids[hi - 1])] + b
    ensures Absent(f + Originals(kids)[lo..hi - 1], Orig(hi - 1)) && Absent(b, Orig(hi - 1))
  {
    var m := Originals(kids)[lo..hi - 1];
    assert Originals(kids)[lo..hi] == m + [Slot(Orig(hi - 1), kids[hi - 1])];
    AbsentAppend(f, m, Orig(hi - 1));
  }

  /** The final branch removes the window's old children from its start:
      what is left is the front and the back. */
  lemma {:induction false} DropUpWindow(kids: seq<PNode>, f: seq<Slot>, b: seq<Slot>, lo: nat, hi: nat)
    requires lo <= hi <= |kids|
    requires NoneBetween(f, lo, hi) && NoneBetween(b, lo, hi)
    ensures DropUp(f + Originals(kids)[lo..hi] + b, lo, hi) == f + b
    decreases hi - lo
  {
    if lo == hi {
      assert f + Originals(kids)[lo..hi] + b == f + b;
    } else {
      var m := Originals(kids)[lo + 1..hi];
      FirstSplit(kids, f, b, lo, hi);
      WithoutSplit(f, Slot(Orig(lo), kids[lo]), m + b);
      DropUpWindow(kids, f, b, lo + 1, hi);
    }
  }

  lemma FirstSplit(kids: seq<PNode>, f: seq<Slot>, b: seq<Slot>, lo: nat, hi: nat)
    requires lo < hi <= |kids|
    requires NoneBetween(f, lo, hi) && NoneBetween(b, lo, hi)
    ensures f + Originals(kids)[lo..hi] + b == f + [Slot(Orig(lo), kids[lo])] + (Originals(kids)[lo + 1..hi] + b)
    ensures f + (Originals(kids)[lo + 1..hi] + b) == f + Originals(kids)[lo + 1..hi] + b
    ensures Absent(f, Orig(lo)) && Absent(Originals(kids)[lo + 1..hi] + b, Orig(lo))
  {
    var m := Originals(kids)[lo + 1..hi];
    assert Originals(kids)[lo..hi] == [Slot(Orig(lo), kids[lo])] + m;
    AbsentAppend(m, b, Orig(lo));
  }

  /** An inserted node lands between front and back when `$afterNode` is
      the first node of the back. */
  lemma PlaceBetween(f: seq<Slot>, b: seq<Slot>, s: Slot, after: Option<Handle>)
    requires after == (if |b| == 0 then None else Some(b[0].h))
    requires |b| > 0 ==> Absent(f, b[0].h)
    ensures Place(f + b, s, after) == f + [s] + b
  {
    if |b| == 0 {
      assert f + b == f;
    } else {
      InsertBeforeSplit(f, b, s, b[0].h);
    }
  }

  /** H2.6 and the final branch: each new node is placed before `$afterNode`
      (the first node of the back), or appended when there is none, so the
      rendered nodes end up in order between front and back. */
  lemma {:induction false} InsertsApply(v: Variant, kids: seq<PNode>, oc: seq<Desc>, nc: seq<Desc>,
                                        st: Layout, f: seq<Slot>, b: seq<Slot>, lo: nat, hi: nat)
    requires MirrorsAll(kids, oc) && lo <= hi <= |nc|
    requires st.list == f + b
    requires st.after == (if |b| == 0 then None else Some(b[0].h))
    requires |b| > 0 ==> Absent(f, b[0].h) && !(b[0].h.Fresh? && lo <= b[0].h.j < hi)
    requires AllOk(Inserts(lo, hi), KeysOf(oc), KeysOf(nc))
    ensures ApplyEdits(v, kids, oc, nc, Inserts(lo, hi), st) == Success(st.(list := f + Rendered(nc, lo, hi) + b))
    decreases hi - lo
  {
    if lo == hi {
      assert Rendered(nc, lo, hi) == [];
      assert f + [] + b == f + b;
    } else {
      var s := Slot(Fresh(lo), Render(nc[lo]));
      InsertFirst(v, kids, oc, nc, st, f, b, lo, hi);
      InsertsApply(v, kids, oc, nc, st.(list := f + [s] + b), f + [s], b, lo + 1, hi);
      RenderedCons(nc, f, b, lo, hi);
    }
  }

  /** The first insertion of H2.6 or the final branch. */
  lemma InsertFirst(v: Variant, kids: seq<PNode>, oc: seq<Desc>, nc: seq<Desc>,
                    st: Layout, f: seq<Slot>, b: seq<Slot>, lo: nat, hi: nat)
    requires MirrorsAll(kids, oc) && lo < hi <= |nc|
    requires st.list == f + b
    requires st.after == (if |b| == 0 then None else Some(b[0].h))
    requires |b| > 0 ==> Absent(f, b[0].h) && !(b[0].h.Fresh? && lo <= b[0].h.j < hi)
    requires AllOk(Inserts(lo, hi), KeysOf(oc), KeysOf(nc))
    ensures AllOk(Inserts(lo + 1, hi), KeysOf(oc), KeysOf(nc))
    ensures |b| > 0 ==> Absent(f + [Slot(Fresh(lo), Render(nc[lo]))], b[0].h)
    ensures ApplyEdits(v, kids, oc, nc, Inserts(lo, hi), st)
         == ApplyEdits(v, kids, oc, nc, Inserts(lo + 1, hi), st.(list := f + [Slot(Fresh(lo), Render(nc[lo]))] + b))
  {
    var es := Inserts(lo, hi);
    var s := Slot(Fresh(lo), Render(nc[lo]));
    PlaceBetween(f, b, s, st.after);
    ApplyStep(v, kids, oc, nc, es, st);
    assert es[1..] == Inserts(lo + 1, hi);
    if |b| > 0 { AbsentAppend(f, [s], b[0].h); }
  }

  lemma RenderedCons(nc: seq<Desc>, f: seq<Slot>, b: seq<Slot>, lo: nat, hi: nat)
    requires lo < hi <= |nc|
    ensures f + [Slot(Fresh(lo), Render(nc[lo]))] + Rendered(nc, lo + 1, hi) + b == f + Rendered(nc, lo, hi) + b
  {
    assert Rendered(nc, lo, hi) == [Slot(Fresh(lo), Render(nc[lo]))] + Rendered(nc, lo + 1, hi);
  }

  /** The rendered new nodes are the ones `want` expects, when every
      insertion delivers. */
  lemma RenderedNodes(nc: seq<Desc>, want: seq<PNode>, lo: nat, hi: nat)
    requires lo <= hi <= |nc| == |want|
    requires forall j :: lo <= j < hi ==> want[j] == Render(nc[j])
    ensures Nodes(Rendered(nc, lo, hi)) == want[lo..hi]
  {
  }

  /** What the tail handling needs of an arranged layout: the window's old
      children between front and back and nowhere else, and `$afterNode`
      the first node of the back, which the window no longer contains. */
  ghost predicate Framed(st: Layout, f: seq<Slot>, b: seq<Slot>, kids: seq<PNode>, want: seq<PNode>, c: Cursors) {
    && InRange(c, |kids|, |want|)
    && st.list == f + Mid(kids, c) + b
    && Nodes(f) == want[..c.newStart]
    && Nodes(b) == want[c.newEnd + 1..]
    && st.after == (if |b| == 0 then None else Some(b[0].h))
    && NoneBetween(f, c.oldStart, c.oldEnd + 1) && NoneBetween(b, c.oldStart, c.oldEnd + 1)
    && (|b| > 0 ==> Absent(f, b[0].h) && Outside(b[0].h, c))
  }

  lemma ArrangedFramed(st: Layout, f: seq<Slot>, b: seq<Slot>, kids: seq<PNode>, want: seq<PNode>, c: Cursors)
    requires Arranged(st, f, b, kids, want, c)
    ensures Framed(st, f, b, kids, want, c)
  {
    SplitConsumed(f, b, c);
    if |b| > 0 {
      assert b[0] == (f + b)[|f|];
    }
  }

  /** H2.5: the new window is exhausted; the old window's children go. */
  lemma TailRemovesDown(v: Variant, kids: seq<PNode>, oc: seq<Desc>, nc: seq<Desc>, want: seq<PNode>,
                        st: Layout, f: seq<Slot>, b: seq<Slot>, c: Cursors)
    requires MirrorsAll(kids, oc) && |want| == |nc|
    requires Framed(st, f, b, kids, want, c) && c.newEnd < c.newStart
    ensures AllOk(RemovesDown(c.oldStart, c.oldEnd + 1), KeysOf(oc), KeysOf(nc))
    ensures ApplyEdits(v, kids, oc, nc, RemovesDown(c.oldStart, c.oldEnd + 1), st) == Success(st.(list := f + b))
    ensures Nodes(f + b) == want
  {
    DroppedWindow(st, f, b, kids, want, c);
    RemovesDownSteps(v, kids, oc, nc, st, c.oldStart, c.oldEnd + 1);
  }

  /** With the new window exhausted, dropping the old window leaves exactly
      the front and the back, which together show all of `want`. */
  lemma DroppedWindow(st: Layout, f: seq<Slot>, b: seq<Slot>, kids: seq<PNode>, want: seq<PNode>, c: Cursors)
    requires Framed(st, f, b, kids, want, c) && c.newEnd < c.newStart
    ensures DropDown(st.list, c.oldStart, c.oldEnd + 1) == f + b
    ensures Nodes(f + b) == want
  {
    MidOriginals(kids, c);
    DropDownWindow(kids, f, b, c.oldStart, c.oldEnd + 1);
    NodesAppend(f, b);
    EmptyWindow(want, c.newStart, c.newEnd);
  }

  lemma MidOriginals(kids: seq<PNode>, c: Cursors)
    requires 0 <= c.oldStart <= c.oldEnd + 1 <= |kids|
    ensures Mid(kids, c) == Originals(kids)[c.oldStart..c.oldEnd + 1]
  {
  }

  lemma EmptyWindow(want: seq<PNode>, lo: int, hi: int)
    requires 0 <= lo <= hi + 1 <= |want| && hi < lo
    ensures want == want[..lo] + want[hi + 1..]
  {
  }

  /** The new nodes rendered between front and back complete `want`. */
  lemma FilledNodes(nc: seq<Desc>, want: seq<PNode>, f: seq<Slot>, b: seq<Slot>, lo: nat, hi: nat)
    requires lo <= hi <= |nc| == |want|
    requires Nodes(f) == want[..lo] && Nodes(b) == want[hi..]
    requires forall j :: lo <= j < hi ==> want[j] == Render(nc[j])
    ensures Nodes(f + Rendered(nc, lo, hi) + b) == want
  {
    RenderedNodes(nc, want, lo, hi);
    NodesAppend(f, Rendered(nc, lo, hi));
    NodesAppend(f + Rendered(nc, lo, hi), b);
    assert want == want[..lo] + want[lo..hi] + want[hi..];
  }

  /** H2.6: the old window is exhausted; the new window's nodes are
      rendered in before `$afterNode`. */
  lemma TailInserts(v: Variant, kids: seq<PNode>, oc: seq<Desc>, nc: seq<Desc>, want: seq<PNode>,
                    st: Layout, f: seq<Slot>, b: seq<Slot>, c: Cursors)
    requires MirrorsAll(kids, oc) && |want| == |nc|
    requires Framed(st, f, b, kids, want, c) && c.oldEnd < c.oldStart && c.newStart <= c.newEnd
    requires forall j :: c.newStart <= j <= c.newEnd ==> want[j] == Render(nc[j])
    ensures AllOk(Inserts(c.newStart, c.newEnd + 1), KeysOf(oc), KeysOf(nc))
    ensures ApplyEdits(v, kids, oc, nc, Inserts(c.newStart, c.newEnd + 1), st).Success?
    ensures Nodes(ApplyEdits(v, kids, oc, nc, Inserts(c.newStart, c.newEnd + 1), st).value.list) == want
  {
    var lo, hi := c.newStart, c.newEnd + 1;
    InsertsAccounts(lo, hi, KeysOf(oc), KeysOf(nc));
    assert st.list == f + b by {
      assert Mid(kids, c) == [];
    }
    FramedBack(st, f, b, kids, want, c);
    FillWindow(v, kids, oc, nc, want, st, f, b, lo, hi);
  }

  /** The back of a framed layout starts with `$afterNode`, which no
      insertion of the new window renders. */
  lemma FramedBack(st: Layout, f: seq<Slot>, b: seq<Slot>, kids: seq<PNode>, want: seq<PNode>, c: Cursors)
    requires Framed(st, f, b, kids, want, c)
    ensures st.after == (if |b| == 0 then None else Some(b[0].h))
    ensures |b| > 0 ==> Absent(f, b[0].h) && !(b[0].h.Fresh? && c.newStart <= b[0].h.j < c.newEnd + 1)
    ensures Nodes(f) == want[..c.newStart] && Nodes(b) == want[c.newEnd + 1..]
    ensures c.newStart <= c.newEnd + 1 <= |want|
  {
  }

  /** Rendering the new window between front and back completes `want`. */
  lemma FillWindow(v: Variant, kids: seq<PNode>, oc: seq<Desc>, nc: seq<Desc>, want: seq<PNode>,
                   st: Layout, f: seq<Slot>, b: seq<Slot>, lo: nat, hi: nat)
    requires MirrorsAll(kids, oc) && lo <= hi <= |nc| == |want|
    requires st.list == f + b
    requires st.after == (if |b| == 0 then None else Some(b[0].h))
    requires |b| > 0 ==> Absent(f, b[0].h) && !(b[0].h.Fresh? && lo <= b[0].h.j < hi)
    requires Nodes(f) == want[..lo] && Nodes(b) == want[hi..]
    requires forall j :: lo <= j < hi ==> want[j] == Render(nc[j])
    requires AllOk(Inserts(lo, hi), KeysOf(oc), KeysOf(nc))
    ensures ApplyEdits(v, kids, oc, nc, Inserts(lo, hi), st).Success?
    ensures Nodes(ApplyEdits(v, kids, oc, nc, Inserts(lo, hi), st).value.list) == want
  {
    InsertsApply(v, kids, oc, nc, st, f, b, lo, hi);
    FilledNodes(nc, want, f, b, lo, hi);
  }

  /** The final branch, first half: the old window's children go, and
      the front and the back are left. */
  lemma MiddleRemoves(v: Variant, kids: seq<PNode>, oc: seq<Desc>, nc: seq<Desc>,
                      st: Layout, f: seq<Slot>, b: seq<Slot>, c: Cursors)
    requires MirrorsAll(kids, oc) && InRange(c, |kids|, |nc|)
    requires c.oldStart <= c.oldEnd && c.newStart <= c.newEnd
    requires st.list == f + Mid(kids, c) + b
    requires NoneBetween(f, c.oldStart, c.oldEnd + 1) && NoneBetween(b, c.oldStart, c.oldEnd + 1)
    ensures AllOk(Inserts(c.newStart, c.newEnd + 1), KeysOf(oc), KeysOf(nc))
    ensures AllOk(Removes(c.oldStart, c.oldEnd + 1) + Inserts(c.newStart, c.newEnd + 1), KeysOf(oc), KeysOf(nc))
    ensures ApplyEdits(v, kids, oc, nc, Removes(c.oldStart, c.oldEnd + 1) + Inserts(c.newStart, c.newEnd + 1), st)
         == ApplyEdits(v, kids, oc, nc, Inserts(c.newStart, c.newEnd + 1), st.(list := f + b))
  {
    var lo, hi := c.oldStart, c.oldEnd + 1;
    MidOriginals(kids, c);
    RemovesThenInserts(v, kids, oc, nc, st, lo, hi, c.newStart, c.newEnd + 1);
    DropUpWindow(kids, f, b, lo, hi);
    assert st.(list := DropUp(st.list, lo, hi)) == st.(list := f + b);
  }

  /** The final branch's removals carried out first, then its inserts. */
  lemma RemovesThenInserts(v: Variant, kids: seq<PNode>, oc: seq<Desc>, nc: seq<Desc>, st: Layout,
                           lo: nat, hi: nat, nlo: nat, nhi: nat)
    requires MirrorsAll(kids, oc) && hi <= |oc| && nhi <= |nc|
    ensures AllOk(Inserts(nlo, nhi), KeysOf(oc), KeysOf(nc))
    ensures AllOk(Removes(lo, hi) + Inserts(nlo, nhi), KeysOf(oc), KeysOf(nc))
    ensures ApplyEdits(v, kids, oc, nc, Removes(lo, hi) + Inserts(nlo, nhi), st)
         == ApplyEdits(v, kids, oc, nc, Inserts(nlo, nhi), st.(list := DropUp(st.list, lo, hi)))
  {
    var ok, nk := KeysOf(oc), KeysOf(nc);
    RemovesSteps(v, kids, oc, nc, st, lo, hi);
    InsertsAccounts(nlo, nhi, ok, nk);
    AllOkAppend(Removes(lo, hi), Inserts(nlo, nhi), ok, nk);
    ApplyAppend(v, kids, oc, nc, Removes(lo, hi), Inserts(nlo, nhi), st);
  }

  /** The final branch: both windows are left; the old children go, then
      the new nodes are rendered in before `$afterNode`. */
  lemma TailMiddle(v: Variant, kids: seq<PNode>, oc: seq<Desc>, nc: seq<Desc>, want: seq<PNode>,
                   st: Layout, f: seq<Slot>, b: seq<Slot>, c: Cursors)
    requires MirrorsAll(kids, oc) && |want| == |nc|
    requires Framed(st, f, b, kids, want, c) && c.oldStart <= c.oldEnd && c.newStart <= c.newEnd
    requires forall j :: c.newStart <= j <= c.newEnd ==> want[j] == Render(nc[j])
    ensures AllOk(Removes(c.oldStart, c.oldEnd + 1) + Inserts(c.newStart, c.newEnd + 1), KeysOf(oc), KeysOf(nc))
    ensures ApplyEdits(v, kids, oc, nc, Removes(c.oldStart, c.oldEnd + 1) + Inserts(c.newStart, c.newEnd + 1), st).Success?
    ensures Nodes(ApplyEdits(v, kids, oc, nc, Removes(c.oldStart, c.oldEnd + 1) + Inserts(c.newStart, c.newEnd + 1), st).value.list) == want
  {
    FramedBack(st, f, b, kids, want, c);
    MiddleFill(v, kids, oc, nc, want, st, f, b, c);
  }

  lemma MiddleFill(v: Variant, kids: seq<PNode>, oc: seq<Desc>, nc: seq<Desc>, want: seq<PNode>,
                   st: Layout, f: seq<Slot>, b: seq<Slot>, c: Cursors)
    requires MirrorsAll(kids, oc) && |want| == |nc| && InRange(c, |kids|, |nc|)
    requires c.oldStart <= c.oldEnd && c.newStart <= c.newEnd
    requires st.list == f + Mid(kids, c) + b
    requires NoneBetween(f, c.oldStart, c.oldEnd + 1) && NoneBetween(b, c.oldStart, c.oldEnd + 1)
    requires st.after == (if |b| == 0 then None else Some(b[0].h))
    requires |b| > 0 ==> Absent(f, b[0].h) && !(b[0].h.Fresh? && c.newStart <= b[0].h.j < c.newEnd + 1)
    requires Nodes(f) == want[..c.newStart] && Nodes(b) == want[c.newEnd + 1..]
    requires forall j :: c.newStart <= j <= c.newEnd ==> want[j] == Render(nc[j])
    ensures AllOk(Removes(c.oldStart, c.oldEnd + 1) + Inserts(c.newStart, c.newEnd + 1), KeysOf(oc), KeysOf(nc))
    ensures ApplyEdits(v, kids, oc, nc, Removes(c.oldStart, c.oldEnd + 1) + Inserts(c.newStart, c.newEnd + 1), st).Success?
    ensures Nodes(ApplyEdits(v, kids, oc, nc, Removes(c.oldStart, c.oldEnd + 1) + Inserts(c.newStart, c.newEnd + 1), st).value.list) == want
  {
    InsertsAccounts(c.newStart, c.newEnd + 1, KeysOf(oc), KeysOf(nc));
    FillWindow(v, kids, oc, nc, want, st.(list := f + b), f, b, c.newStart, c.newEnd + 1);
    MiddleRemoves(v, kids, oc, nc, st, f, b, c);
  }

  /** The tail handling turns an arranged layout into exactly `want`. */
  lemma TailApply(v: Variant, kids: seq<PNode>, oc: seq<Desc>, nc: seq<Desc>, want: seq<PNode>,
                  st: Layout, f: seq<Slot>, b: seq<Slot>, c: Cursors)
    requires MirrorsAll(kids, oc) && |want| == |nc|
    requires Arranged(st, f, b, kids, want, c)
    requires forall j :: c.newStart <= j <= c.newEnd ==> want[j] == Render(nc[j])
    ensures ApplyEdits(v, kids, oc, nc, Tail(c, KeysOf(oc), KeysOf(nc)), st).Success?
    ensures Nodes(ApplyEdits(v, kids, oc, nc, Tail(c, KeysOf(oc), KeysOf(nc)), st).value.list) == want
  {
    var ok, nk := KeysOf(oc), KeysOf(nc);
    ArrangedFramed(st, f, b, kids, want, c);
    if c.newEnd < c.newStart {
      assert Tail(c, ok, nk) == RemovesDown(c.oldStart, c.oldEnd + 1);
      TailRemovesDown(v, kids, oc, nc, want, st, f, b, c);
    } else if c.oldEnd < c.oldStart {
      assert Tail(c, ok, nk) == Inserts(c.newStart, c.newEnd + 1);
      TailInserts(v, kids, oc, nc, want, st, f, b, c);
    } else {
      assert Tail(c, ok, nk) == Removes(c.oldStart, c.oldEnd + 1) + Inserts(c.newStart, c.newEnd + 1);
      TailMiddle(v, kids, oc, nc, want, st, f, b, c);
    }
  }

  /** Insertions at the end of a delivering script render what `want`
      expects. */
  lemma InsertsDeliver(v: Variant, kids: seq<PNode>, oc: seq<Desc>, nc: seq<Desc>, want: seq<PNode>,
                       es: seq<Edit>, pre: seq<Edit>, lo: nat, hi: nat)
    requires MirrorsAll(kids, oc) && lo <= hi <= |nc| == |want|
    requires AllDeliver(v, kids, oc, nc, want, es) && es == pre + Inserts(lo, hi)
    ensures forall j :: lo <= j < hi ==> want[j] == Render(nc[j])
  {
    InsertsShape(lo, hi);
    forall j | lo <= j < hi
      ensures want[j] == Render(nc[j])
    {
      assert es[|pre| + (j - lo)] == Insert(j);
    }
  }

  /** H1.2: with no old children, the script renders and appends every new
      child. */
  lemma ScriptFromEmpty(v: Variant, kids: seq<PNode>, oc: seq<Desc>, nc: seq<Desc>, want: seq<PNode>)
    requires MirrorsAll(kids, oc) && |oc| == 0 && |nc| > 0 && |want| == |nc|
    requires AllDeliver(v, kids, oc, nc, want, Script(KeysOf(oc), KeysOf(nc)))
    ensures DiffChildren(v, kids, oc, nc) == Success(want)
  {
    var ok, nk := KeysOf(oc), KeysOf(nc);
    var c := Cursors(0, -1, 0, |nc| - 1);
    assert Script(ok, nk) == [] + Inserts(0, |nc|);
    InsertsDeliver(v, kids, oc, nc, want, Script(ok, nk), [], 0, |nc|);
    StartArranged(kids, want, c);
    assert Script(ok, nk) == Tail(c, ok, nk);
    TailApply(v, kids, oc, nc, want, Start(kids), [], [], c);
  }

  /** The cursor scan's part of the script delivers when the whole does. */
  lemma ScanDelivers(v: Variant, kids: seq<PNode>, oc: seq<Desc>, nc: seq<Desc>, want: seq<PNode>, a: seq<Edit>, t: seq<Edit>)
    requires MirrorsAll(kids, oc) && AllDeliver(v, kids, oc, nc, want, a + t)
    ensures AllDeliver(v, kids, oc, nc, want, a)
  {
    assert forall k :: 0 <= k < |a| ==> a[k] == (a + t)[k];
  }

  /** The tail's insertions deliver when the whole script does. */
  lemma TailDelivers(v: Variant, kids: seq<PNode>, oc: seq<Desc>, nc: seq<Desc>, want: seq<PNode>, a: seq<Edit>, c: Cursors)
    requires MirrorsAll(kids, oc) && InRange(c, |oc|, |nc|) && |want| == |nc|
    requires AllDeliver(v, kids, oc, nc, want, a + Tail(c, KeysOf(oc), KeysOf(nc)))
    ensures forall j :: c.newStart <= j <= c.newEnd ==> want[j] == Render(nc[j])
  {
    var ok, nk := KeysOf(oc), KeysOf(nc);
    var es := a + Tail(c, ok, nk);
    if c.newEnd < c.newStart {
    } else if c.oldEnd < c.oldStart {
      InsertsDeliver(v, kids, oc, nc, want, es, a, c.newStart, c.newEnd + 1);
    } else {
      var rem := Removes(c.oldStart, c.oldEnd + 1);
      assert es == (a + rem) + Inserts(c.newStart, c.newEnd + 1);
      InsertsDeliver(v, kids, oc, nc, want, es, a + rem, c.newStart, c.newEnd + 1);
    }
  }

  /** With old children: the scan's walk keeps the layout arranged, and the
      tail completes it. */
  lemma ScriptFromScan(v: Variant, kids: seq<PNode>, oc: seq<Desc>, nc: seq<Desc>, want: seq<PNode>)
    requires MirrorsAll(kids, oc) && |oc| > 0 && |nc| > 0 && |want| == |nc|
    requires AllDeliver(v, kids, oc, nc, want, Script(KeysOf(oc), KeysOf(nc)))
    ensures DiffChildren(v, kids, oc, nc) == Success(want)
  {
    var ok, nk := KeysOf(oc), KeysOf(nc);
    var c0 := Initial(|oc|, |nc|);
    var p := Outer(ok, nk, c0);
    var t := Tail(p.c, ok, nk);
    assert Script(ok, nk) == p.edits + t;
    ScanDelivers(v, kids, oc, nc, want, p.edits, t);
    TailDelivers(v, kids, oc, nc, want, p.edits, p.c);
    var f, b := WalkArranged(v, kids, oc, nc, want, p.edits, c0, p.c);
    var st := ApplyEdits(v, kids, oc, nc, p.edits, Start(kids)).value;
    TailApply(v, kids, oc, nc, want, st, f, b, p.c);
    ApplyAppend(v, kids, oc, nc, p.edits, t, Start(kids));
  }

  /** The scan's walk from the initial cursors keeps the starting layout
      arranged. */
  lemma WalkArranged(v: Variant, kids: seq<PNode>, oc: seq<Desc>, nc: seq<Desc>, want: seq<PNode>,
                     es: seq<Edit>, c0: Cursors, c: Cursors)
    returns (f: seq<Slot>, b: seq<Slot>)
    requires MirrorsAll(kids, oc) && |oc| > 0 && |nc| > 0 && |want| == |nc|
    requires c0 == Initial(|oc|, |nc|)
    requires Walk(es, c0, c, |oc|, |nc|) && AllOk(es, KeysOf(oc), KeysOf(nc))
    requires AllDeliver(v, kids, oc, nc, want, es)
    ensures ApplyEdits(v, kids, oc, nc, es, Start(kids)).Success?
    ensures Arranged(ApplyEdits(v, kids, oc, nc, es, Start(kids)).value, f, b, kids, want, c)
  {
    StartArranged(kids, want, c0);
    f, b := ApplyWalk(v, kids, oc, nc, want, es, Start(kids), [], [], c0, c);
  }

  /** Carrying out the scan's whole script yields exactly `want`, when every
      step delivers its part of it and, as written, no H2.4 step occurs. */
  lemma ScriptDelivers(v: Variant, kids: seq<PNode>, oc: seq<Desc>, nc: seq<Desc>, want: seq<PNode>)
    requires MirrorsAll(kids, oc) && |nc| > 0 && |want| == |nc|
    requires AllDeliver(v, kids, oc, nc, want, Script(KeysOf(oc), KeysOf(nc)))
    ensures DiffChildren(v, kids, oc, nc) == Success(want)
  {
    if |oc| == 0 {
      ScriptFromEmpty(v, kids, oc, nc, want);
    } else {
      ScriptFromScan(v, kids, oc, nc, want);
    }
  }
}
