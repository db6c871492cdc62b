/** The node differ (`diff`) and the physical side of `diffChildren`: the
    edit script of the scan carried out on the parent's child list, with the
    anchors solution.js keeps (`$afterNode`, `$newStartNode`). Both the code
    as written and a corrected variant are modelled; they differ only in the
    two places the source gets wrong. */
module Reconcile {
  import opened Wrappers
  import opened Descriptions
  import opened Physical
  import opened Scan

  /** Identity of a physical child during one `diffChildren` call.
      `Orig(i)` is the cached `$children[i]`; `Fresh(j)` is a node rendered
      for the new position `j`, by an insertion or by a wholesale
      replacement inside the diff of the pair that consumed `j`. */
  datatype Handle = Orig(i: nat) | Fresh(j: nat)

  /** A physical child together with its identity. */
  datatype Slot = Slot(h: Handle, node: PNode)

  /** The reconciler as written in solution.js, or with its two anchor
      defects repaired (see `Step`). */
  datatype Variant = AsWritten | Corrected

  /** The only way the reconciler fails: H2.4 calls `before` on an
      `$afterNode` no step has set (a TypeError in the source). */
  datatype Fault = MissingAnchor

  /** What `diff` did to a node: the node now in its place, and whether it
      is a new node (`replaceWith`) or the input node patched in place. */
  datatype Patched = Patched(node: PNode, replaced: bool)

  /** The state `diffChildren` threads through the edit script: the parent's
      children, `$afterNode`, and the old position whose cached node is
      `$newStartNode`. */
  datatype Layout = Layout(list: seq<Slot>, after: Option<Handle>, front: nat)

  /** No child of `list` is the node `h`. */
  predicate Absent(list: seq<Slot>, h: Handle) {
    forall k :: 0 <= k < |list| ==> list[k].h != h
  }

  function Nodes(list: seq<Slot>): (ps: seq<PNode>)
    ensures |ps| == |list|
    ensures forall k :: 0 <= k < |list| ==> ps[k] == list[k].node
  {
    seq(|list|, k requires 0 <= k < |list| => list[k].node)
  }

  /** The cached children `$children`, in document order. */
  function Originals(kids: seq<PNode>): (r: seq<Slot>)
    ensures |r| == |kids|
    ensures forall i :: 0 <= i < |kids| ==> r[i] == Slot(Orig(i), kids[i])
  {
    seq(|kids|, i requires 0 <= i < |kids| => Slot(Orig(i), kids[i]))
  }

  /** `replaceWith`: the slot holding `h` now holds `s`; nothing else moves. */
  function Substitute(list: seq<Slot>, h: Handle, s: Slot): (r: seq<Slot>)
    ensures |r| == |list|
    ensures forall k :: 0 <= k < |list| ==> r[k] == if list[k].h == h then s else list[k]
  {
    seq(|list|, k requires 0 <= k < |list| => if list[k].h == h then s else list[k])
  }

  /** `remove`: detach the node `h`; the others keep their order. */
  function Without(list: seq<Slot>, h: Handle): (r: seq<Slot>)
    ensures |r| <= |list|
    decreases |list|
  {
    if |list| == 0 then []
    else
      if list[0].h == h then Without(list[1..], h)
      else
        assert [list[0]] + list[1..] == list;
        [list[0]] + Without(list[1..], h)
  }

  /** Detaching a node that is not a child changes nothing. */
  lemma {:induction false} WithoutAbsent(list: seq<Slot>, h: Handle)
    requires Absent(list, h)
    ensures Without(list, h) == list
    decreases |list|
  {
    if |list| > 0 {
      WithoutAbsent(list[1..], h);
      assert [list[0]] + list[1..] == list;
    }
  }

  /** `a.before(s)` for a node `s` that is not yet a child: it is inserted
      immediately before the child `a`; when `a` is not a child (detached),
      nothing happens. */
  function InsertBefore(list: seq<Slot>, s: Slot, a: Handle): (r: seq<Slot>)
    ensures Absent(list, a) ==> r == list
    decreases |list|
  {
    if |list| == 0 then []
    else
      if list[0].h == a then [s] + list
      else
        assert [list[0]] + list[1..] == list;
        [list[0]] + InsertBefore(list[1..], s, a)
  }

  /** `a.before(s)` for the child `s`: it moves to just before `a`. Moving a
      node before itself, or before a detached node, changes nothing (the
      DOM's `before` on a node without parent returns at once). */
  function MoveBefore(list: seq<Slot>, s: Slot, a: Handle): (r: seq<Slot>)
    ensures a == s.h || Absent(list, a) ==> r == list
  {
    if a == s.h || Absent(list, a) then list
    else InsertBefore(Without(list, s.h), s, a)
  }

  /** Where corrected H2.4 moves a child: before `$afterNode` when one is
      set, otherwise to the end (`appendChild` of a child moves it). */
  function MoveBack(list: seq<Slot>, s: Slot, anchor: Option<Handle>): seq<Slot> {
    match anchor
    case None => Without(list, s.h) + [s]
    case Some(a) => MoveBefore(list, s, a)
  }

  /** Where an inserted node goes: before `$afterNode` (`insertBefore` in
      H2.6, `before` in the final branch) when one is set, otherwise
      `appendChild`. */
  function Place(list: seq<Slot>, s: Slot, anchor: Option<Handle>): (r: seq<Slot>)
    ensures anchor.None? ==> r == list + [s]
  {
    match anchor
    case None => list + [s]
    case Some(a) => InsertBefore(list, s, a)
  }

  /** The identity of the node `diff` leaves for the pair (i, j). */
  function HandleOf(d: Patched, i: nat, j: nat): Handle {
    if d.replaced then Fresh(j) else Orig(i)
  }

  /** The layout `diffChildren` starts from: the cached children, no
      `$afterNode`, and `$newStartNode` = `$children[0]`. */
  function Start(kids: seq<PNode>): (st: Layout)
    ensures st.list == Originals(kids) && st.after.None? && st.front == 0
  {
    Layout(Originals(kids), None, 0)
  }

  /** `diff` (solution.js:99-115): a string on either side that differs from
      the other side, or elements with different tags, are replaced by the
      rendering of the new description; equal strings are left alone;
      elements with the same tag are patched in place, attributes first,
      then children. The physical node must mirror the old description,
      as it does when it was rendered from it. */
  function DiffNode(v: Variant, p: PNode, od: Desc, nd: Desc): (r: Result<Patched, Fault>)
    requires Mirrors(p, od)
    ensures r.Success? && r.value.replaced ==> r.value.node == Render(nd)
    ensures r.Success? && !r.value.replaced ==> r.value.node.PText? == p.PText?
    ensures r.Failure? ==> od.Elem? && nd.Elem? && od.tag == nd.tag
    ensures v == Corrected ==> r.Success?
    ensures (od.Text? || nd.Text?) && od != nd ==> r == Success(Patched(Render(nd), true))
    ensures od.Text? && od == nd ==> r == Success(Patched(p, false))
    ensures od.Elem? && nd.Elem? && od.tag != nd.tag ==> r == Success(Patched(Render(nd), true))
    ensures od.Elem? && nd.Elem? && od.tag == nd.tag && r.Success? ==>
      && !r.value.replaced && r.value.node.PElem? && r.value.node.tag == p.tag
      && r.value.node.attrs == DiffAttributes(p.attrs, od.attrs, nd.attrs)
    ensures od.Elem? && nd.Elem? && od.tag == nd.tag ==>
      (r.Success? <==> DiffChildren(v, p.children, od.children, nd.children).Success?)
    ensures od.Elem? && nd.Elem? && od.tag == nd.tag && r.Success? ==>
      && DiffChildren(v, p.children, od.children, nd.children).Success?
      && r.value.node.children == DiffChildren(v, p.children, od.children, nd.children).value
    decreases Size(od), 0
  {
    if od.Text? || nd.Text? then
      if od != nd then Success(Patched(Render(nd), true))
      else Success(Patched(p, false))
    else if od.tag != nd.tag then Success(Patched(Render(nd), true))
    else
      var attrs := DiffAttributes(p.attrs, od.attrs, nd.attrs);
      var children :- DiffChildren(v, p.children, od.children, nd.children);
      Success(Patched(PElem(p.tag, attrs, children), false))
  }

  /** `diffChildren` (solution.js:153-299): H1.1 empties the parent when the
      new list is empty; otherwise the scan's edit script is carried out on
      the cached children. (H1.2, an empty old list, is the script that
      inserts every new child with no anchor, that is, appends them.) */
  function DiffChildren(v: Variant, kids: seq<PNode>, oc: seq<Desc>, nc: seq<Desc>): (r: Result<seq<PNode>, Fault>)
    requires MirrorsAll(kids, oc)
    ensures |nc| == 0 ==> r == Success([])
    ensures v == Corrected ==> r.Success?
    decreases SizeAll(oc), 2
  {
    if |nc| == 0 then Success([])
    else
      var st :- ApplyEdits(v, kids, oc, nc, Script(KeysOf(oc), KeysOf(nc)), Start(kids));
      Success(Nodes(st.list))
  }

  /** Carries out an edit script, step by step, stopping at the first fault. */
  function ApplyEdits(v: Variant, kids: seq<PNode>, oc: seq<Desc>, nc: seq<Desc>, es: seq<Edit>, st: Layout): (r: Result<Layout, Fault>)
    requires MirrorsAll(kids, oc) && AllOk(es, KeysOf(oc), KeysOf(nc))
    ensures v == Corrected ==> r.Success?
    decreases SizeAll(oc), 1, |es|
  {
    if |es| == 0 then Success(st)
    else
      assert EditOk(es[0], KeysOf(oc), KeysOf(nc));
      var st' :- Step(v, kids, oc, nc, es[0], st);
      assert AllOk(es[1..], KeysOf(oc), KeysOf(nc)) by {
        forall k | 0 <= k < |es[1..]| ensures EditOk(es[1..][k], KeysOf(oc), KeysOf(nc)) {
          assert es[1..][k] == es[k + 1];
        }
      }
      ApplyEdits(v, kids, oc, nc, es[1..], st')
  }

  /** One step of the script, as the corresponding lines of solution.js
      perform it:
      - Prefix (H2.1): diff in place; `$newStartNode` becomes the next old
        child.
      - Suffix (H2.2): diff in place; the result becomes `$afterNode`.
      - ToFront (H2.3): diff, then move the result before `$newStartNode`.
      - ToBack (H2.4): diff, then move the result before `$afterNode`, which
        it replaces. As written, a missing `$afterNode` is a fault and
        `$newStartNode` is left alone; corrected, the node is appended and
        `$newStartNode` becomes the next old child, as H2.1 does.
      - Remove: detach the cached child.
      - Insert: render the new child and place it before `$afterNode`, or
        append it. */
  function Step(v: Variant, kids: seq<PNode>, oc: seq<Desc>, nc: seq<Desc>, e: Edit, st: Layout): (r: Result<Layout, Fault>)
    requires MirrorsAll(kids, oc) && EditOk(e, KeysOf(oc), KeysOf(nc))
    ensures r.Failure? ==> IsPair(e)
    ensures r.Failure? && !(e.ToBack? && v == AsWritten && st.after.None?) ==>
      (SizeAllBound(oc, e.oldIx);
       DiffNode(v, kids[e.oldIx], oc[e.oldIx], nc[e.newIx]).Failure?)
    ensures v == Corrected ==> r.Success?
    ensures e.Remove? ==> r == Success(st.(list := Without(st.list, Orig(e.oldIx))))
    ensures e.Insert? ==> r == Success(st.(list := Place(st.list, Slot(Fresh(e.newIx), Render(nc[e.newIx])), st.after)))
    decreases SizeAll(oc), 1, 0
  {
    match e
    case Remove(i) => Success(st.(list := Without(st.list, Orig(i))))
    case Insert(j) => Success(st.(list := Place(st.list, Slot(Fresh(j), Render(nc[j])), st.after)))
    case Prefix(i, j) =>
      SizeAllBound(oc, i);
      var d :- DiffNode(v, kids[i], oc[i], nc[j]);
      var s := Slot(HandleOf(d, i, j), d.node);
      Success(Layout(Substitute(st.list, Orig(i), s), st.after, i + 1))
    case Suffix(i, j) =>
      SizeAllBound(oc, i);
      var d :- DiffNode(v, kids[i], oc[i], nc[j]);
      var s := Slot(HandleOf(d, i, j), d.node);
      Success(Layout(Substitute(st.list, Orig(i), s), Some(s.h), st.front))
    case ToFront(i, j) =>
      SizeAllBound(oc, i);
      var d :- DiffNode(v, kids[i], oc[i], nc[j]);
      var s := Slot(HandleOf(d, i, j), d.node);
      var list := Substitute(st.list, Orig(i), s);
      Success(st.(list := MoveBefore(list, s, Orig(st.front))))
    case ToBack(i, j) =>
      SizeAllBound(oc, i);
      var d :- DiffNode(v, kids[i], oc[i], nc[j]);
      var s := Slot(HandleOf(d, i, j), d.node);
      var list := Substitute(st.list, Orig(i), s);
      var front := if v == Corrected then i + 1 else st.front;
      if v == AsWritten && st.after.None? then Failure(MissingAnchor)
      else Success(Layout(MoveBack(list, s, st.after), Some(s.h), front))
  }
}
