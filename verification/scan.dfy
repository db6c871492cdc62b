/** The keyed children reconciler's cursor scan (`diffChildren` in
    solution.js), over the matching keys of the old and the new child list.
    The scan decides every match, move, removal and insertion; it is
    expressed as an edit script that the physical layer later carries out. */
module Scan {
  import opened Wrappers
  import opened Descriptions

  /** One step of the edit script. `oldIx` is a position in the old child
      list (and in the cached physical children), `newIx` one in the new list. */
  datatype Edit =
    | Prefix(oldIx: nat, newIx: nat)   // H2.1: diff in place
    | Suffix(oldIx: nat, newIx: nat)   // H2.2: diff in place, becomes the after-anchor
    | ToFront(oldIx: nat, newIx: nat)  // H2.3: diff, move before the new-start node
    | ToBack(oldIx: nat, newIx: nat)   // H2.4: diff, move before the after-anchor
    | Remove(oldIx: nat)               // drop an unmatched old child
    | Insert(newIx: nat)               // render an unmatched new child
    | Clear                            // H1.1: empty the parent

  /** A step that reconciles a matched old/new pair. */
  predicate IsPair(e: Edit) {
    e.Prefix? || e.Suffix? || e.ToFront? || e.ToBack?
  }

  /** A step reads only positions that exist, and a pair has equal keys. */
  predicate EditOk(e: Edit, ok: seq<Key>, nk: seq<Key>) {
    match e
    case Prefix(i, j) => i < |ok| && j < |nk| && ok[i] == nk[j]
    case Suffix(i, j) => i < |ok| && j < |nk| && ok[i] == nk[j]
    case ToFront(i, j) => i < |ok| && j < |nk| && ok[i] == nk[j]
    case ToBack(i, j) => i < |ok| && j < |nk| && ok[i] == nk[j]
    case Remove(i) => i < |ok|
    case Insert(j) => j < |nk|
    case Clear => false
  }

  predicate AllOk(es: seq<Edit>, ok: seq<Key>, nk: seq<Key>) {
    forall k :: 0 <= k < |es| ==> EditOk(es[k], ok, nk)
  }

  /** The old positions a step consumes. */
  function OldOf(e: Edit): seq<nat> {
    match e
    case Prefix(i, _) => [i]
    case Suffix(i, _) => [i]
    case ToFront(i, _) => [i]
    case ToBack(i, _) => [i]
    case Remove(i) => [i]
    case Insert(_) => []
    case Clear => []
  }

  /** The new positions a step consumes. */
  function NewOf(e: Edit): seq<nat> {
    match e
    case Prefix(_, j) => [j]
    case Suffix(_, j) => [j]
    case ToFront(_, j) => [j]
    case ToBack(_, j) => [j]
    case Remove(_) => []
    case Insert(j) => [j]
    case Clear => []
  }

  function OldIndices(es: seq<Edit>): seq<nat>
    decreases |es|
  {
    if |es| == 0 then [] else OldOf(es[0]) + OldIndices(es[1..])
  }

  function NewIndices(es: seq<Edit>): seq<nat>
    decreases |es|
  {
    if |es| == 0 then [] else NewOf(es[0]) + NewIndices(es[1..])
  }

  lemma {:induction false} IndicesAppend(a: seq<Edit>, b: seq<Edit>)
    ensures OldIndices(a + b) == OldIndices(a) + OldIndices(b)
    ensures NewIndices(a + b) == NewIndices(a) + NewIndices(b)
    decreases |a|
  {
    if |a| > 0 {
      assert (a + b)[1..] == a[1..] + b;
      IndicesAppend(a[1..], b);
    } else {
      assert a + b == b;
    }
  }

  /** No position occurs twice. */
  predicate Distinct(s: seq<nat>) {
    forall a, b :: 0 <= a < b < |s| ==> s[a] != s[b]
  }

  lemma DistinctAppend(a: seq<nat>, b: seq<nat>)
    requires Distinct(a) && Distinct(b)
    requires forall x :: x in a ==> x !in b
    ensures Distinct(a + b)
  {
    forall p, q | 0 <= p < q < |a + b|
      ensures (a + b)[p] != (a + b)[q]
    {
      if q < |a| {
      } else if p >= |a| {
        assert (a + b)[p] == b[p - |a|] && (a + b)[q] == b[q - |a|];
      } else {
        assert (a + b)[p] in a && (a + b)[q] == b[q - |a|];
      }
    }
  }

  /** The four cursors of the scan. `oldEnd` and `newEnd` may drop to -1. */
  datatype Cursors = Cursors(oldStart: int, oldEnd: int, newStart: int, newEnd: int)

  /** Neither range has been exhausted (the scan's `break outer` test fails). */
  predicate Open(c: Cursors) {
    c.oldStart <= c.oldEnd && c.newStart <= c.newEnd
  }

  /** The cursors delimit a possibly empty window of each list. */
  predicate InRange(c: Cursors, n: nat, m: nat) {
    && 0 <= c.oldStart <= c.oldEnd + 1 <= n
    && 0 <= c.newStart <= c.newEnd + 1 <= m
  }

  /** `(oldEnd - oldStart) + (newEnd - newStart)`, the scan's variant. */
  function Measure(c: Cursors): int {
    (c.oldEnd - c.oldStart) + (c.newEnd - c.newStart)
  }

  /** `c'` lies inside `c`: cursors only move inwards. */
  predicate Narrower(c': Cursors, c: Cursors) {
    && c.oldStart <= c'.oldStart && c'.oldEnd <= c.oldEnd
    && c.newStart <= c'.newStart && c'.newEnd <= c.newEnd
  }

  /** The script `es` consumed, each exactly once, the old and the new
      positions that left the window between cursors `c` and `c'`, and only
      those; every step in it is well formed. */
  ghost predicate Accounts(es: seq<Edit>, c: Cursors, c': Cursors, ok: seq<Key>, nk: seq<Key>) {
    && Distinct(OldIndices(es))
    && (forall x: nat :: x in OldIndices(es) <==> c.oldStart <= x < c'.oldStart || c'.oldEnd < x <= c.oldEnd)
    && Distinct(NewIndices(es))
    && (forall x: nat :: x in NewIndices(es) <==> c.newStart <= x < c'.newStart || c'.newEnd < x <= c.newEnd)
    && AllOk(es, ok, nk)
  }

  lemma AllOkAppend(a: seq<Edit>, b: seq<Edit>, ok: seq<Key>, nk: seq<Key>)
    requires AllOk(a, ok, nk) && AllOk(b, ok, nk)
    ensures AllOk(a + b, ok, nk)
  {
    forall k | 0 <= k < |a + b|
      ensures EditOk((a + b)[k], ok, nk)
    {
      if k >= |a| {
        assert (a + b)[k] == b[k - |a|];
      }
    }
  }

  /** Accounting composes along consecutive, inward-moving cursor windows. */
  lemma AccountsAppend(a: seq<Edit>, b: seq<Edit>, c: Cursors, c': Cursors, c'': Cursors, ok: seq<Key>, nk: seq<Key>)
    requires InRange(c, |ok|, |nk|) && InRange(c', |ok|, |nk|) && InRange(c'', |ok|, |nk|)
    requires Narrower(c', c) && Narrower(c'', c')
    requires Accounts(a, c, c', ok, nk) && Accounts(b, c', c'', ok, nk)
    ensures Accounts(a + b, c, c'', ok, nk)
  {
    IndicesAppend(a, b);
    DistinctAppend(OldIndices(a), OldIndices(b));
    DistinctAppend(NewIndices(a), NewIndices(b));
    AllOkAppend(a, b, ok, nk);
  }

  /** The four heuristics, in the order one cycle tries them. */
  datatype Heuristic = CommonPrefix | CommonSuffix | EndToFront | StartToBack

  /** The old position a heuristic compares. */
  function OldCursor(h: Heuristic, c: Cursors): int {
    match h
    case CommonPrefix => c.oldStart
    case CommonSuffix => c.oldEnd
    case EndToFront => c.oldEnd
    case StartToBack => c.oldStart
  }

  /** The new position a heuristic compares. */
  function NewCursor(h: Heuristic, c: Cursors): int {
    match h
    case CommonPrefix => c.newStart
    case CommonSuffix => c.newEnd
    case EndToFront => c.newStart
    case StartToBack => c.newEnd
  }

  /** The cursors after a heuristic consumed one matched pair. */
  function Advance(h: Heuristic, c: Cursors): Cursors {
    match h
    case CommonPrefix => c.(oldStart := c.oldStart + 1, newStart := c.newStart + 1)
    case CommonSuffix => c.(oldEnd := c.oldEnd - 1, newEnd := c.newEnd - 1)
    case EndToFront => c.(oldEnd := c.oldEnd - 1, newStart := c.newStart + 1)
    case StartToBack => c.(oldStart := c.oldStart + 1, newEnd := c.newEnd - 1)
  }

  /** The cursors after a heuristic consumed `k` matched pairs in a row. */
  function AdvanceBy(h: Heuristic, c: Cursors, k: int): Cursors {
    match h
    case CommonPrefix => c.(oldStart := c.oldStart + k, newStart := c.newStart + k)
    case CommonSuffix => c.(oldEnd := c.oldEnd - k, newEnd := c.newEnd - k)
    case EndToFront => c.(oldEnd := c.oldEnd - k, newStart := c.newStart + k)
    case StartToBack => c.(oldStart := c.oldStart + k, newEnd := c.newEnd - k)
  }

  /** The edit a heuristic emits for the pair it matched. */
  function EditAt(h: Heuristic, i: nat, j: nat): Edit {
    match h
    case CommonPrefix => Prefix(i, j)
    case CommonSuffix => Suffix(i, j)
    case EndToFront => ToFront(i, j)
    case StartToBack => ToBack(i, j)
  }

  /** One matched pair consumes exactly its own two positions. */
  lemma AdvanceAccounts(h: Heuristic, c: Cursors, ok: seq<Key>, nk: seq<Key>)
    requires InRange(c, |ok|, |nk|) && Open(c)
    requires ok[OldCursor(h, c)] == nk[NewCursor(h, c)]
    ensures InRange(Advance(h, c), |ok|, |nk|) && Narrower(Advance(h, c), c)
    ensures Measure(Advance(h, c)) == Measure(c) - 2
    ensures Accounts([EditAt(h, OldCursor(h, c), NewCursor(h, c))], c, Advance(h, c), ok, nk)
  {
    var e := EditAt(h, OldCursor(h, c), NewCursor(h, c));
    assert OldIndices([e]) == [OldCursor(h, c)];
    assert NewIndices([e]) == [NewCursor(h, c)];
  }

  /** The heuristic that emits a given pair step. */
  function HeuristicOf(e: Edit): Heuristic
    requires IsPair(e)
  {
    match e
    case Prefix(_, _) => CommonPrefix
    case Suffix(_, _) => CommonSuffix
    case ToFront(_, _) => EndToFront
    case ToBack(_, _) => StartToBack
  }

  /** `es` is the sequence of pair steps the cursors take from `c` to `c'`:
      each step is the pair its heuristic compares at the current cursors,
      taken while both windows are open. */
  predicate Walk(es: seq<Edit>, c: Cursors, c': Cursors, n: nat, m: nat)
    decreases |es|
  {
    if |es| == 0 then c == c'
    else
      && IsPair(es[0]) && InRange(c, n, m) && Open(c)
      && es[0] == EditAt(HeuristicOf(es[0]), OldCursor(HeuristicOf(es[0]), c), NewCursor(HeuristicOf(es[0]), c))
      && Walk(es[1..], Advance(HeuristicOf(es[0]), c), c', n, m)
  }

  lemma WalkCons(h: Heuristic, c: Cursors, rest: seq<Edit>, c': Cursors, n: nat, m: nat)
    requires InRange(c, n, m) && Open(c)
    requires Walk(rest, Advance(h, c), c', n, m)
    ensures Walk([EditAt(h, OldCursor(h, c), NewCursor(h, c))] + rest, c, c', n, m)
  {
    var es := [EditAt(h, OldCursor(h, c), NewCursor(h, c))] + rest;
    assert es[1..] == rest;
  }

  /** Walks compose along consecutive cursor positions. */
  lemma {:induction false} WalkAppend(a: seq<Edit>, b: seq<Edit>, c: Cursors, c': Cursors, c'': Cursors, n: nat, m: nat)
    requires Walk(a, c, c', n, m) && Walk(b, c', c'', n, m)
    ensures Walk(a + b, c, c'', n, m)
    decreases |a|
  {
    if |a| == 0 {
      assert a + b == b;
    } else {
      var h := HeuristicOf(a[0]);
      WalkAppend(a[1..], b, Advance(h, c), c', c'', n, m);
      assert (a + b)[1..] == a[1..] + b;
    }
  }

  /** Cursors and script after one inner loop, one cycle or the whole scan. */
  datatype Phase = Phase(c: Cursors, edits: seq<Edit>)

  /** One inner `while` loop of solution.js (H2.1 to H2.4): while the two
      compared children match, emit the pair and move the cursors; stop as
      soon as the windows cross (`break outer`) or the keys differ. */
  function Run(h: Heuristic, ok: seq<Key>, nk: seq<Key>, c: Cursors): (r: Phase)
    requires InRange(c, |ok|, |nk|) && Open(c)
    ensures InRange(r.c, |ok|, |nk|) && Narrower(r.c, c)
    ensures Open(r.c) ==> ok[OldCursor(h, r.c)] != nk[NewCursor(h, r.c)]
    ensures r.c == AdvanceBy(h, c, |r.edits|)
    ensures Measure(r.c) == Measure(c) - 2 * |r.edits|
    ensures Accounts(r.edits, c, r.c, ok, nk)
    decreases Measure(c)
  {
    var i, j := OldCursor(h, c), NewCursor(h, c);
    if ok[i] != nk[j] then Phase(c, [])
    else
      var c' := Advance(h, c);
      var e := EditAt(h, i, j);
      AdvanceAccounts(h, c, ok, nk);
      if !Open(c') then AdvanceByStep(h, c, 0); Phase(c', [e])
      else
        var rest := Run(h, ok, nk, c');
        AccountsAppend([e], rest.edits, c, c', rest.c, ok, nk);
        AdvanceByStep(h, c, |rest.edits|);
        Phase(rest.c, [e] + rest.edits)
  }

  lemma AdvanceByStep(h: Heuristic, c: Cursors, k: int)
    ensures AdvanceBy(h, Advance(h, c), k) == AdvanceBy(h, c, k + 1)
  {
  }

  /** An inner loop's script is the walk of its own cursors. */
  lemma {:induction false} RunWalk(h: Heuristic, ok: seq<Key>, nk: seq<Key>, c: Cursors)
    requires InRange(c, |ok|, |nk|) && Open(c)
    ensures Walk(Run(h, ok, nk, c).edits, c, Run(h, ok, nk, c).c, |ok|, |nk|)
    decreases Measure(c)
  {
    var i, j := OldCursor(h, c), NewCursor(h, c);
    if ok[i] == nk[j] {
      var c' := Advance(h, c);
      AdvanceAccounts(h, c, ok, nk);
      if !Open(c') {
        WalkCons(h, c, [], c', |ok|, |nk|);
        assert [EditAt(h, i, j)] + [] == [EditAt(h, i, j)];
      } else {
        RunWalk(h, ok, nk, c');
        WalkCons(h, c, Run(h, ok, nk, c').edits, Run(h, ok, nk, c').c, |ok|, |nk|);
      }
    }
  }

  /** Concatenating the scripts of two consecutive phases. */
  function Then(p: Phase, q: Phase): Phase {
    Phase(q.c, p.edits + q.edits)
  }

  /** H2.1 then H2.2 of one pass: strip the common prefix, then the common
      suffix. Unless the windows crossed, both end pairs now differ. */
  function EndsPass(ok: seq<Key>, nk: seq<Key>, c: Cursors): (r: Phase)
    requires InRange(c, |ok|, |nk|) && Open(c)
    ensures InRange(r.c, |ok|, |nk|) && Narrower(r.c, c)
    ensures Open(r.c) ==> ok[r.c.oldStart] != nk[r.c.newStart] && ok[r.c.oldEnd] != nk[r.c.newEnd]
    ensures Accounts(r.edits, c, r.c, ok, nk)
    ensures Walk(r.edits, c, r.c, |ok|, |nk|)
  {
    var p1 := Run(CommonPrefix, ok, nk, c);
    RunWalk(CommonPrefix, ok, nk, c);
    if !Open(p1.c) then p1
    else
      var p2 := Run(CommonSuffix, ok, nk, p1.c);
      RunWalk(CommonSuffix, ok, nk, p1.c);
      AccountsAppend(p1.edits, p2.edits, c, p1.c, p2.c, ok, nk);
      WalkAppend(p1.edits, p2.edits, c, p1.c, p2.c, |ok|, |nk|);
      Then(p1, p2)
  }

  /** H2.3 then H2.4 of one pass. The flag says whether either matched; if
      neither did, the cursors have not moved and both cross pairs differ. */
  function RotationPass(ok: seq<Key>, nk: seq<Key>, c: Cursors): (r: (Phase, bool))
    requires InRange(c, |ok|, |nk|) && Open(c)
    ensures InRange(r.0.c, |ok|, |nk|) && Narrower(r.0.c, c)
    ensures r.1 ==> Measure(r.0.c) < Measure(c)
    ensures !r.1 ==> r.0.c == c && ok[c.oldEnd] != nk[c.newStart] && ok[c.oldStart] != nk[c.newEnd]
    ensures Accounts(r.0.edits, c, r.0.c, ok, nk)
    ensures Walk(r.0.edits, c, r.0.c, |ok|, |nk|)
  {
    var p3 := Run(EndToFront, ok, nk, c);
    RunWalk(EndToFront, ok, nk, c);
    if !Open(p3.c) then (p3, true)
    else
      var p4 := Run(StartToBack, ok, nk, p3.c);
      RunWalk(StartToBack, ok, nk, p3.c);
      AccountsAppend(p3.edits, p4.edits, c, p3.c, p4.c, ok, nk);
      WalkAppend(p3.edits, p4.edits, c, p3.c, p4.c, |ok|, |nk|);
      (Then(p3, p4), |p3.edits| > 0 || |p4.edits| > 0)
  }

  /** One pass of the outer `while (loop)`: H2.1, H2.2, H2.3, H2.4 in this
      order, abandoning the pass as soon as the windows cross. The flag
      reports whether H2.3 or H2.4 matched, which is what makes the source
      run the pass again. A pass that stops with open windows and no
      rotation leaves all four compared pairs unmatched. */
  function Cycle(ok: seq<Key>, nk: seq<Key>, c: Cursors): (r: (Phase, bool))
    requires InRange(c, |ok|, |nk|) && Open(c)
    ensures InRange(r.0.c, |ok|, |nk|) && Narrower(r.0.c, c)
    ensures r.1 ==> Measure(r.0.c) < Measure(c)
    ensures Open(r.0.c) && !r.1 ==>
      && ok[r.0.c.oldStart] != nk[r.0.c.newStart]
      && ok[r.0.c.oldEnd] != nk[r.0.c.newEnd]
      && ok[r.0.c.oldEnd] != nk[r.0.c.newStart]
      && ok[r.0.c.oldStart] != nk[r.0.c.newEnd]
    ensures Accounts(r.0.edits, c, r.0.c, ok, nk)
    ensures Walk(r.0.edits, c, r.0.c, |ok|, |nk|)
  {
    var p := EndsPass(ok, nk, c);
    if !Open(p.c) then (p, false)
    else
      var (q, progress) := RotationPass(ok, nk, p.c);
      AccountsAppend(p.edits, q.edits, c, p.c, q.c, ok, nk);
      WalkAppend(p.edits, q.edits, c, p.c, q.c, |ok|, |nk|);
      (Then(p, q), progress)
  }

  /** The outer loop: repeat cycles while a rotation matched and the windows
      are still open. It stops with the windows crossed, or with none of the
      four heuristics applicable. */
  function Outer(ok: seq<Key>, nk: seq<Key>, c: Cursors): (r: Phase)
    requires InRange(c, |ok|, |nk|) && Open(c)
    ensures InRange(r.c, |ok|, |nk|) && Narrower(r.c, c)
    ensures Open(r.c) ==>
      && ok[r.c.oldStart] != nk[r.c.newStart]
      && ok[r.c.oldEnd] != nk[r.c.newEnd]
      && ok[r.c.oldEnd] != nk[r.c.newStart]
      && ok[r.c.oldStart] != nk[r.c.newEnd]
    ensures Accounts(r.edits, c, r.c, ok, nk)
    ensures Walk(r.edits, c, r.c, |ok|, |nk|)
    decreases Measure(c)
  {
    var (p, progress) := Cycle(ok, nk, c);
    if Open(p.c) && progress then
      var q := Outer(ok, nk, p.c);
      AccountsAppend(p.edits, q.edits, c, p.c, q.c, ok, nk);
      WalkAppend(p.edits, q.edits, c, p.c, q.c, |ok|, |nk|);
      Then(p, q)
    else p
  }

  /** Removal of the old positions hi-1 down to lo (H2.5 removes from the end). */
  function RemovesDown(lo: nat, hi: int): seq<Edit>
    decreases hi - lo
  {
    if hi <= lo then [] else [Remove(hi - 1)] + RemovesDown(lo, hi - 1)
  }

  /** Removal of the old positions lo up to hi-1. */
  function Removes(lo: nat, hi: int): seq<Edit>
    decreases hi - lo
  {
    if hi <= lo then [] else [Remove(lo)] + Removes(lo + 1, hi)
  }

  /** Insertion of the new positions lo up to hi-1, in order. */
  function Inserts(lo: nat, hi: int): seq<Edit>
    decreases hi - lo
  {
    if hi <= lo then [] else [Insert(lo)] + Inserts(lo + 1, hi)
  }

  /** The window an exhausted-or-stuck scan leaves to the tail handling:
      everything between the cursors, and nothing outside them. */
  ghost predicate AccountsWindow(es: seq<Edit>, c: Cursors, ok: seq<Key>, nk: seq<Key>) {
    && Distinct(OldIndices(es))
    && (forall x: nat :: x in OldIndices(es) <==> c.oldStart <= x <= c.oldEnd)
    && Distinct(NewIndices(es))
    && (forall x: nat :: x in NewIndices(es) <==> c.newStart <= x <= c.newEnd)
    && AllOk(es, ok, nk)
  }

  /** A window of positions grows by the one position `add` holds, at
      either end, or stays as it is when `add` is empty. */
  predicate Grows(add: seq<nat>, lo': int, hi': int, lo: int, hi: int) {
    || (|add| == 0 && lo' == lo && hi' == hi)
    || (|add| == 1 && lo <= hi && add[0] == lo && lo' == lo + 1 && hi' == hi)
    || (|add| == 1 && lo <= hi && add[0] == hi && hi' == hi - 1 && lo' == lo)
  }

  lemma Members(add: seq<nat>, s: seq<nat>, lo': int, hi': int, lo: int, hi: int)
    requires Distinct(s) && (forall y: nat :: y in s <==> lo' <= y <= hi')
    requires Grows(add, lo', hi', lo, hi)
    ensures Distinct(add + s) && (forall y: nat :: y in add + s <==> lo <= y <= hi)
  {
    if |add| == 1 {
      assert add[0] !in s;
      DistinctAppend(add, s);
      forall y: nat ensures y in add + s <==> lo <= y <= hi {
        assert y in add + s <==> y == add[0] || y in s;
      }
    } else {
      assert add + s == s;
    }
  }

  lemma OneIndices(e: Edit)
    ensures OldIndices([e]) == OldOf(e) && NewIndices([e]) == NewOf(e)
  {
    assert [e][1..] == [];
  }

  /** One step in front of a script that accounts for a window accounts for
      the window grown by the positions the step consumes. */
  lemma WindowCons(e: Edit, rest: seq<Edit>, c': Cursors, c: Cursors, ok: seq<Key>, nk: seq<Key>)
    requires AccountsWindow(rest, c', ok, nk) && EditOk(e, ok, nk)
    requires Grows(OldOf(e), c'.oldStart, c'.oldEnd, c.oldStart, c.oldEnd)
    requires Grows(NewOf(e), c'.newStart, c'.newEnd, c.newStart, c.newEnd)
    ensures AccountsWindow([e] + rest, c, ok, nk)
  {
    IndicesAppend([e], rest);
    OneIndices(e);
    Members(OldOf(e), OldIndices(rest), c'.oldStart, c'.oldEnd, c.oldStart, c.oldEnd);
    Members(NewOf(e), NewIndices(rest), c'.newStart, c'.newEnd, c.newStart, c.newEnd);
    AllOkAppend([e], rest, ok, nk);
  }

  lemma {:induction false} RemovesDownAccounts(lo: nat, hi: int, ok: seq<Key>, nk: seq<Key>)
    requires hi <= |ok|
    ensures AccountsWindow(RemovesDown(lo, hi), Cursors(lo, hi - 1, 0, -1), ok, nk)
    decreases hi - lo
  {
    if lo < hi {
      RemovesDownAccounts(lo, hi - 1, ok, nk);
      WindowCons(Remove(hi - 1), RemovesDown(lo, hi - 1), Cursors(lo, hi - 2, 0, -1), Cursors(lo, hi - 1, 0, -1), ok, nk);
    }
  }

  lemma {:induction false} RemovesAccounts(lo: nat, hi: int, ok: seq<Key>, nk: seq<Key>)
    requires hi <= |ok|
    ensures AccountsWindow(Removes(lo, hi), Cursors(lo, hi - 1, 0, -1), ok, nk)
    decreases hi - lo
  {
    if lo < hi {
      RemovesAccounts(lo + 1, hi, ok, nk);
      WindowCons(Remove(lo), Removes(lo + 1, hi), Cursors(lo + 1, hi - 1, 0, -1), Cursors(lo, hi - 1, 0, -1), ok, nk);
    }
  }

  lemma {:induction false} InsertsAccounts(lo: nat, hi: int, ok: seq<Key>, nk: seq<Key>)
    requires hi <= |nk|
    ensures AccountsWindow(Inserts(lo, hi), Cursors(0, -1, lo, hi - 1), ok, nk)
    decreases hi - lo
  {
    if lo < hi {
      InsertsAccounts(lo + 1, hi, ok, nk);
      WindowCons(Insert(lo), Inserts(lo + 1, hi), Cursors(0, -1, lo + 1, hi - 1), Cursors(0, -1, lo, hi - 1), ok, nk);
    }
  }

  /** Tail handling after the scan: H2.5 when the new window is exhausted,
      H2.6 when the old one is, and otherwise removal of the whole old window
      followed by insertion of the whole new window. */
  function Tail(c: Cursors, ok: seq<Key>, nk: seq<Key>): (r: seq<Edit>)
    requires InRange(c, |ok|, |nk|)
    ensures AccountsWindow(r, c, ok, nk)
  {
    if c.newEnd < c.newStart then
      RemovesDownAccounts(c.oldStart, c.oldEnd + 1, ok, nk);
      RemovesDown(c.oldStart, c.oldEnd + 1)
    else if c.oldEnd < c.oldStart then
      InsertsAccounts(c.newStart, c.newEnd + 1, ok, nk);
      Inserts(c.newStart, c.newEnd + 1)
    else
      MiddleAccounts(c, ok, nk);
      Removes(c.oldStart, c.oldEnd + 1) + Inserts(c.newStart, c.newEnd + 1)
  }

  lemma MiddleAccounts(c: Cursors, ok: seq<Key>, nk: seq<Key>)
    requires InRange(c, |ok|, |nk|)
    ensures AccountsWindow(Removes(c.oldStart, c.oldEnd + 1) + Inserts(c.newStart, c.newEnd + 1), c, ok, nk)
  {
    var removes := Removes(c.oldStart, c.oldEnd + 1);
    var inserts := Inserts(c.newStart, c.newEnd + 1);
    RemovesAccounts(c.oldStart, c.oldEnd + 1, ok, nk);
    InsertsAccounts(c.newStart, c.newEnd + 1, ok, nk);
    IndicesAppend(removes, inserts);
    DistinctAppend(OldIndices(removes), OldIndices(inserts));
    DistinctAppend(NewIndices(removes), NewIndices(inserts));
    AllOkAppend(removes, inserts, ok, nk);
  }

  /** The cursors the scan starts from: both whole lists. */
  function Initial(n: nat, m: nat): Cursors {
    Cursors(0, n - 1, 0, m - 1)
  }

  /** The whole children reconciler as an edit script: the two fast paths,
      then the cursor scan followed by the tail handling. Every position it
      reads exists and every pair it reconciles has equal keys; unless the
      new list is empty (which clears the parent), every old position is
      consumed exactly once (reconciled or removed) and every new position
      exactly once (reconciled or inserted). */
  function Script(ok: seq<Key>, nk: seq<Key>): (r: seq<Edit>)
    ensures |nk| == 0 ==> r == [Clear]
    ensures |nk| > 0 ==> AllOk(r, ok, nk)
    ensures |nk| > 0 ==> Distinct(OldIndices(r)) && forall x: nat :: x in OldIndices(r) <==> x < |ok|
    ensures |nk| > 0 ==> Distinct(NewIndices(r)) && forall x: nat :: x in NewIndices(r) <==> x < |nk|
  {
    if |nk| == 0 then [Clear]
    else if |ok| == 0 then
      InsertsAccounts(0, |nk|, ok, nk);
      Inserts(0, |nk|)
    else
      var p := Outer(ok, nk, Initial(|ok|, |nk|));
      var t := Tail(p.c, ok, nk);
      ScanThenTail(p.edits, t, p.c, ok, nk);
      p.edits + t
  }

  /** The scan's script followed by the tail's covers both whole lists. */
  lemma ScanThenTail(a: seq<Edit>, t: seq<Edit>, c: Cursors, ok: seq<Key>, nk: seq<Key>)
    requires |ok| > 0 && |nk| > 0 && InRange(c, |ok|, |nk|)
    requires Accounts(a, Initial(|ok|, |nk|), c, ok, nk) && AccountsWindow(t, c, ok, nk)
    ensures AllOk(a + t, ok, nk)
    ensures Distinct(OldIndices(a + t)) && forall x: nat :: x in OldIndices(a + t) <==> x < |ok|
    ensures Distinct(NewIndices(a + t)) && forall x: nat :: x in NewIndices(a + t) <==> x < |nk|
  {
    IndicesAppend(a, t);
    DistinctAppend(OldIndices(a), OldIndices(t));
    DistinctAppend(NewIndices(a), NewIndices(t));
    AllOkAppend(a, t, ok, nk);
  }
}
