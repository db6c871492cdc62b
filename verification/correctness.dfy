/** The corrected reconciler is correct: diffing the rendering of an old
    description against a new one leaves exactly the rendering of the new
    one, for every pair of descriptions, whatever the keys. */
module Correctness {
  import opened Wrappers
  import opened Descriptions
  import opened Physical
  import opened Scan
  import opened Reconcile
  import opened Replay

  /** `diff` of a node rendered from `od` against `nd` succeeds and leaves a
      node equal to the rendering of `nd`. */
  lemma {:induction false} DiffNodeRendersNew(od: Desc, nd: Desc)
    ensures DiffNode(Corrected, Render(od), od, nd).Success?
    ensures DiffNode(Corrected, Render(od), od, nd).value.node == Render(nd)
    decreases Size(od), 0
  {
    if od.Text? || nd.Text? {
    } else if od.tag != nd.tag {
    } else {
      DiffAttributesRendersNew(od.attrs, nd.attrs);
      DiffChildrenRendersNew(od.children, nd.children);
    }
  }

  /** `diffChildren` on children rendered from `oc` leaves exactly the
      renderings of `nc`, in the order of `nc`. */
  lemma {:induction false} DiffChildrenRendersNew(oc: seq<Desc>, nc: seq<Desc>)
    ensures DiffChildren(Corrected, RenderAll(oc), oc, nc) == Success(RenderAll(nc))
    decreases SizeAll(oc), 1
  {
    if |nc| > 0 {
      var kids, want := RenderAll(oc), RenderAll(nc);
      var es := Script(KeysOf(oc), KeysOf(nc));
      forall k | 0 <= k < |es|
        ensures Delivers(Corrected, kids, oc, nc, want, es[k])
      {
        assert EditOk(es[k], KeysOf(oc), KeysOf(nc));
        if IsPair(es[k]) {
          SizeAllBound(oc, es[k].oldIx);
          DiffNodeRendersNew(oc[es[k].oldIx], nc[es[k].newIx]);
        }
      }
      ScriptDelivers(Corrected, kids, oc, nc, want);
    }
  }

  /** H1.2 (solution.js:160-165): with no old children, every new child is
      rendered and appended in order; both variants agree. */
  lemma FromEmpty(v: Variant, nc: seq<Desc>)
    ensures DiffChildren(v, [], [], nc) == Success(RenderAll(nc))
  {
    if |nc| > 0 {
      var es := Script([], KeysOf(nc));
      assert es == Inserts(0, |nc|);
      InsertsShape(0, |nc|);
      assert AllDeliver(v, [], [], nc, RenderAll(nc), es);
      ScriptDelivers(v, [], [], nc, RenderAll(nc));
    }
  }
}
