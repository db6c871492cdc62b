/** The snapshot store and the top-level `update` (solution.js:14-21):
    mount when nothing has been applied yet, diff against the snapshot
    otherwise, then keep a deep copy of the tree just applied. */
module Snapshots {
  import opened Wrappers
  import opened Descriptions
  import opened Physical
  import opened Reconcile
  import opened Correctness

  /** The session state: the last applied description, if any. */
  datatype Store = Store(snapshot: Option<Desc>)

  /** A fresh session has applied nothing. */
  const Empty := Store(None)

  /** The physical node in the render target agrees with the session: it
      is the rendering of the snapshot, or nothing was applied yet. */
  predicate InSync(s: Store, view: PNode) {
    s.snapshot.None? || view == Render(s.snapshot.value)
  }

  /** `update`: `view` is the node in the render target (the container
      before the first call). The result is the new store and the node now
      standing where `view` stood. A fault propagates before the snapshot
      is written, so a failed update leaves the store unchanged. */
  function Update(v: Variant, s: Store, view: PNode, root: Desc): (r: Result<(Store, PNode), Fault>)
    requires s.snapshot.Some? ==> Mirrors(view, s.snapshot.value)
    ensures r.Success? ==> r.value.0.snapshot == Some(root)
    ensures s.snapshot.None? ==> r == Success((Store(Some(root)), Render(root)))
    ensures r.Failure? ==> v == AsWritten
    ensures s.snapshot.Some? ==> (r.Success? <==> DiffNode(v, view, s.snapshot.value, root).Success?)
    ensures s.snapshot.Some? && r.Success? ==>
      r.value.1 == DiffNode(v, view, s.snapshot.value, root).value.node
  {
    CopyIsIdentity(root);
    if s.snapshot.None? then Success((Store(Some(Copy(root))), Render(root)))
    else
      var d :- DiffNode(v, view, s.snapshot.value, root);
      Success((Store(Some(Copy(root))), d.node))
  }

  /** Corrected, an update keeps the session in sync: it succeeds, and the
      target then shows the rendering of the tree just applied. */
  lemma UpdateKeepsInSync(s: Store, view: PNode, root: Desc)
    requires InSync(s, view)
    ensures Update(Corrected, s, view, root).Success?
    ensures Update(Corrected, s, view, root).value.1 == Render(root)
    ensures InSync(Update(Corrected, s, view, root).value.0, Update(Corrected, s, view, root).value.1)
  {
    if s.snapshot.Some? {
      DiffNodeRendersNew(s.snapshot.value, root);
    }
  }

  /** A sequence of corrected updates: afterwards the snapshot is the last
      tree applied and the target shows its rendering, whatever came
      before. */
  function UpdateAll(s: Store, view: PNode, roots: seq<Desc>): (r: (Store, PNode))
    requires InSync(s, view)
    ensures InSync(r.0, r.1)
    ensures |roots| > 0 ==> r.0.snapshot == Some(roots[|roots| - 1]) && r.1 == Render(roots[|roots| - 1])
    ensures |roots| == 0 ==> r == (s, view)
    decreases |roots|
  {
    if |roots| == 0 then (s, view)
    else
      UpdateKeepsInSync(s, view, roots[0]);
      var next := Update(Corrected, s, view, roots[0]).value;
      var r := UpdateAll(next.0, next.1, roots[1..]);
      assert |roots| > 1 ==> roots[1..][|roots[1..]| - 1] == roots[|roots| - 1];
      r
  }
}
