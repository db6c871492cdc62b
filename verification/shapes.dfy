/** The scripts of the common keyed-list cases: identical keys, keys
    extended at the end, keys truncated at the end. In all three only H2.1
    matches, so the cursor scan touches each kept child in place and the
    order of the result is right for the code as written too. */
module Shapes {
  import opened Wrappers
  import opened Descriptions
  import opened Physical
  import opened Scan
  import opened Reconcile
  import opened Replay

  /** H2.1 steps for the positions lo up to hi-1, each old position paired
      with the same new position. */
  function Prefixes(lo: nat, hi: nat): seq<Edit>
    decreases hi - lo
  {
    if hi <= lo then [] else [Prefix(lo, lo)] + Prefixes(lo + 1, hi)
  }

  lemma PrefixesShape(lo: nat, hi: nat)
    requires lo <= hi
    ensures |Prefixes(lo, hi)| == hi - lo
    ensures forall k :: 0 <= k < hi - lo ==> Prefixes(lo, hi)[k] == Prefix(lo + k, lo + k)
    decreases hi - lo
  {
    if lo < hi {
      PrefixesShape(lo + 1, hi);
    }
  }

  /** `ok` is `nk` cut after its first |ok| keys. */
  predicate KeyPrefix(ok: seq<Key>, nk: seq<Key>) {
    |ok| <= |nk| && nk[..|ok|] == ok
  }

  function Min(a: nat, b: nat): nat {
    if a <= b then a else b
  }

  /** H2.1's loop, on key lists one of which extends the other, consumes
      the whole shorter list from the current position on. */
  lemma {:induction false} RunPrefixes(ok: seq<Key>, nk: seq<Key>, c: Cursors)
    requires KeyPrefix(ok, nk) || KeyPrefix(nk, ok)
    requires InRange(c, |ok|, |nk|) && Open(c)
    requires c.oldStart == c.newStart && c.oldEnd == |ok| - 1 && c.newEnd == |nk| - 1
    ensures Run(CommonPrefix, ok, nk, c)
         == Phase(c.(oldStart := Min(|ok|, |nk|), newStart := Min(|ok|, |nk|)), Prefixes(c.oldStart, Min(|ok|, |nk|)))
    decreases |ok| - c.oldStart
  {
    var i := c.oldStart;
    var k := Min(|ok|, |nk|);
    assert ok[i] == nk[i] by {
      if KeyPrefix(ok, nk) {
        assert nk[..|ok|][i] == nk[i];
      } else {
        assert ok[..|nk|][i] == ok[i];
      }
    }
    var c' := Advance(CommonPrefix, c);
    if Open(c') {
      RunPrefixes(ok, nk, c');
    }
  }

  /** The scan's cursors after the common positions are consumed. */
  function PastPrefix(ok: seq<Key>, nk: seq<Key>): Cursors {
    Cursors(Min(|ok|, |nk|), |ok| - 1, Min(|ok|, |nk|), |nk| - 1)
  }

  /** The first H2.1 loop consumes the shorter list; the windows have then
      crossed, so the pass, the cycle and the outer loop all end with it. */
  lemma PrefixOuter(ok: seq<Key>, nk: seq<Key>)
    requires |ok| > 0 && |nk| > 0
    requires KeyPrefix(ok, nk) || KeyPrefix(nk, ok)
    ensures Outer(ok, nk, Initial(|ok|, |nk|)) == Phase(PastPrefix(ok, nk), Prefixes(0, Min(|ok|, |nk|)))
  {
    var c := Initial(|ok|, |nk|);
    var p := Phase(PastPrefix(ok, nk), Prefixes(0, Min(|ok|, |nk|)));
    RunPrefixes(ok, nk, c);
    assert !Open(p.c);
    assert EndsPass(ok, nk, c) == p;
    assert Cycle(ok, nk, c) == (p, false);
  }

  /** The script of the prefix cases: the common positions paired in
      place, then H2.6 inserts the extra new children or H2.5 removes the
      extra old ones from the end. */
  function PrefixCase(ok: seq<Key>, nk: seq<Key>): seq<Edit> {
    Prefixes(0, Min(|ok|, |nk|)) + (if |ok| <= |nk| then Inserts(|ok|, |nk|) else RemovesDown(|nk|, |ok|))
  }

  /** When one key list extends the other, the script is `PrefixCase`. */
  lemma PrefixScript(ok: seq<Key>, nk: seq<Key>)
    requires |nk| > 0
    requires KeyPrefix(ok, nk) || KeyPrefix(nk, ok)
    ensures Script(ok, nk) == PrefixCase(ok, nk)
  {
    if |ok| == 0 {
      assert Prefixes(0, 0) == [];
      assert Script(ok, nk) == Inserts(0, |nk|);
    } else {
      PrefixOuter(ok, nk);
      var c' := PastPrefix(ok, nk);
      assert Script(ok, nk) == Prefixes(0, Min(|ok|, |nk|)) + Tail(c', ok, nk);
      if |nk| < |ok| {
        assert Tail(c', ok, nk) == RemovesDown(|nk|, |ok|);
      } else if |nk| == |ok| {
        assert Tail(c', ok, nk) == RemovesDown(|ok|, |ok|) == [] == Inserts(|ok|, |nk|);
      } else {
        assert Tail(c', ok, nk) == Inserts(|ok|, |nk|);
      }
    }
  }

  /** Identical keys: every child is diffed in place, in order; nothing
      moves, nothing is removed or inserted. */
  lemma IdenticalScript(ks: seq<Key>)
    requires |ks| > 0
    ensures Script(ks, ks) == Prefixes(0, |ks|)
  {
    IdenticalPrefix(ks);
    PrefixScript(ks, ks);
    IdenticalCase(ks);
  }

  lemma IdenticalPrefix(ks: seq<Key>)
    ensures KeyPrefix(ks, ks)
  {
    assert ks[..|ks|] == ks;
  }

  lemma IdenticalCase(ks: seq<Key>)
    ensures PrefixCase(ks, ks) == Prefixes(0, |ks|)
  {
    assert Inserts(|ks|, |ks|) == [];
    assert Prefixes(0, |ks|) + [] == Prefixes(0, |ks|);
  }

  /** What the in-place diffs of the first k children leave. */
  function PatchedPrefix(v: Variant, kids: seq<PNode>, oc: seq<Desc>, nc: seq<Desc>, k: nat): (r: seq<PNode>)
    requires MirrorsAll(kids, oc) && k <= |oc| && k <= |nc|
    requires forall i {:trigger DiffNode(v, kids[i], oc[i], nc[i])} :: 0 <= i < k ==> DiffNode(v, kids[i], oc[i], nc[i]).Success?
    ensures |r| == k
    ensures forall i {:trigger r[i]} :: 0 <= i < k ==> r[i] == DiffNode(v, kids[i], oc[i], nc[i]).value.node
  {
    seq(k, i requires 0 <= i < k => DiffNode(v, kids[i], oc[i], nc[i]).value.node)
  }

  /** In the prefix cases the reconciled children are in the right order,
      for the code as written as well as corrected: the kept children,
      each diffed in place, followed by renderings of the added ones. */
  lemma PrefixOrder(v: Variant, kids: seq<PNode>, oc: seq<Desc>, nc: seq<Desc>)
    requires MirrorsAll(kids, oc) && |nc| > 0
    requires KeyPrefix(KeysOf(oc), KeysOf(nc)) || KeyPrefix(KeysOf(nc), KeysOf(oc))
    requires forall i {:trigger DiffNode(v, kids[i], oc[i], nc[i])} :: 0 <= i < Min(|oc|, |nc|) ==> DiffNode(v, kids[i], oc[i], nc[i]).Success?
    ensures DiffChildren(v, kids, oc, nc)
         == Success(PatchedPrefix(v, kids, oc, nc, Min(|oc|, |nc|)) + RenderAll(nc[Min(|oc|, |nc|)..]))
  {
    var k := Min(|oc|, |nc|);
    var p, r := PatchedPrefix(v, kids, oc, nc, k), RenderAll(nc[k..]);
    var want := p + r;
    forall i | 0 <= i < k
      ensures PairDelivers(v, kids, oc, nc, want, i, i)
    {
      PickLeft(p, r, i);
    }
    PrefixesDeliver(v, kids, oc, nc, want, 0, k);
    var tail := if |oc| <= |nc| then Inserts(|oc|, |nc|) else RemovesDown(|nc|, |oc|);
    if |oc| <= |nc| {
      forall j | k <= j < |nc|
        ensures want[j] == Render(nc[j])
      {
        PickRight(p, r, j);
      }
      InsertsDeliver(v, kids, oc, nc, want, k, |nc|);
    } else {
      RemovesDownDeliver(v, kids, oc, nc, want, k, |oc|);
    }
    DeliverAppend(v, kids, oc, nc, want, Prefixes(0, k), tail);
    PrefixScript(KeysOf(oc), KeysOf(nc));
    ScriptDelivers(v, kids, oc, nc, want);
  }

  lemma PickLeft(p: seq<PNode>, r: seq<PNode>, x: nat)
    requires x < |p|
    ensures x < |p + r| && (p + r)[x] == p[x]
  {
  }

  lemma PickRight(p: seq<PNode>, r: seq<PNode>, x: nat)
    requires |p| <= x < |p| + |r|
    ensures (p + r)[x] == r[x - |p|]
  {
  }

  /** Both halves of a script deliver, so the whole does. */
  lemma DeliverAppend(v: Variant, kids: seq<PNode>, oc: seq<Desc>, nc: seq<Desc>, want: seq<PNode>, a: seq<Edit>, b: seq<Edit>)
    requires MirrorsAll(kids, oc)
    requires AllDeliver(v, kids, oc, nc, want, a) && AllDeliver(v, kids, oc, nc, want, b)
    ensures AllDeliver(v, kids, oc, nc, want, a + b)
  {
    forall x | 0 <= x < |a + b|
      ensures Delivers(v, kids, oc, nc, want, (a + b)[x]) && (v == AsWritten ==> !(a + b)[x].ToBack?)
    {
      if x >= |a| {
        assert (a + b)[x] == b[x - |a|];
      }
    }
  }

  /** In-place pairs deliver when each diff lands at its own position. */
  lemma {:induction false} PrefixesDeliver(v: Variant, kids: seq<PNode>, oc: seq<Desc>, nc: seq<Desc>, want: seq<PNode>, lo: nat, hi: nat)
    requires MirrorsAll(kids, oc) && lo <= hi
    requires forall i :: lo <= i < hi ==> PairDelivers(v, kids, oc, nc, want, i, i)
    ensures AllDeliver(v, kids, oc, nc, want, Prefixes(lo, hi))
    decreases hi - lo
  {
    if lo < hi {
      PrefixesDeliver(v, kids, oc, nc, want, lo + 1, hi);
      assert PairDelivers(v, kids, oc, nc, want, lo, lo);
      assert AllDeliver(v, kids, oc, nc, want, [Prefix(lo, lo)]);
      DeliverAppend(v, kids, oc, nc, want, [Prefix(lo, lo)], Prefixes(lo + 1, hi));
    }
  }

  /** Inserts deliver when the expected children there are renderings. */
  lemma InsertsDeliver(v: Variant, kids: seq<PNode>, oc: seq<Desc>, nc: seq<Desc>, want: seq<PNode>, lo: nat, hi: nat)
    requires MirrorsAll(kids, oc) && lo <= hi <= |nc| && hi <= |want|
    requires forall j :: lo <= j < hi ==> want[j] == Render(nc[j])
    ensures AllDeliver(v, kids, oc, nc, want, Inserts(lo, hi))
  {
    InsertsShape(lo, hi);
  }

  /** Removals deliver trivially. */
  lemma RemovesDownDeliver(v: Variant, kids: seq<PNode>, oc: seq<Desc>, nc: seq<Desc>, want: seq<PNode>, lo: nat, hi: nat)
    requires MirrorsAll(kids, oc) && lo <= hi
    ensures AllDeliver(v, kids, oc, nc, want, RemovesDown(lo, hi))
  {
    RemovesDownLength(lo, hi);
    forall x | 0 <= x < hi - lo
      ensures RemovesDown(lo, hi)[x].Remove?
    {
      RemovesDownShape(lo, hi, x);
    }
  }

  lemma RemovesDownLength(lo: nat, hi: nat)
    requires lo <= hi
    ensures |RemovesDown(lo, hi)| == hi - lo
    decreases hi - lo
  {
    if lo < hi {
      RemovesDownLength(lo, hi - 1);
    }
  }

  lemma RemovesDownShape(lo: nat, hi: nat, k: nat)
    requires lo <= hi && k < hi - lo
    ensures |RemovesDown(lo, hi)| == hi - lo
    ensures RemovesDown(lo, hi)[k].Remove?
    decreases hi - lo
  {
    if k > 0 {
      RemovesDownShape(lo, hi - 1, k - 1);
    }
  }

  /** Diffing a rendered tree against the description it was rendered
      from changes nothing, as written as well as corrected: every node is
      patched in place (none is replaced) and ends up as it was. */
  lemma {:induction false} DiffSelf(v: Variant, d: Desc)
    ensures DiffNode(v, Render(d), d, d) == Success(Patched(Render(d), false))
    decreases Size(d), 0
  {
    match d
    case Text(_) =>
    case Elem(_, attrs, children, _) =>
      DiffAttributesIdempotent(attrs);
      DiffChildrenSelf(v, children);
  }

  lemma {:induction false} DiffChildrenSelf(v: Variant, ds: seq<Desc>)
    ensures DiffChildren(v, RenderAll(ds), ds, ds) == Success(RenderAll(ds))
    decreases SizeAll(ds), 1
  {
    if |ds| > 0 {
      var kids := RenderAll(ds);
      forall i | 0 <= i < |ds|
        ensures DiffNode(v, kids[i], ds[i], ds[i]) == Success(Patched(kids[i], false))
      {
        SizeAllBound(ds, i);
        DiffSelf(v, ds[i]);
      }
      SelfOrder(v, ds);
    }
  }

  lemma SelfOrder(v: Variant, ds: seq<Desc>)
    requires |ds| > 0
    requires forall i :: 0 <= i < |ds| ==> DiffNode(v, RenderAll(ds)[i], ds[i], ds[i]) == Success(Patched(RenderAll(ds)[i], false))
    ensures DiffChildren(v, RenderAll(ds), ds, ds) == Success(RenderAll(ds))
  {
    var kids := RenderAll(ds);
    IdenticalPrefix(KeysOf(ds));
    PrefixOrder(v, kids, ds, ds);
    assert PatchedPrefix(v, kids, ds, ds, |ds|) + RenderAll(ds[|ds|..]) == kids by {
      assert RenderAll(ds[|ds|..]) == [];
    }
  }
}
