# A verified model of a keyed virtual-DOM reconciler

`solution.js` is a small virtual-DOM library.

- A caller builds immutable *descriptions* of a tree with `create`.
- `update` brings a real DOM subtree in line with each new description. The first time, it mounts the rendering. After that, it diffs the new description against a deep copy of the previous one.
- The heart of the library is `diffChildren`, a keyed list reconciler:
  - two fast paths (an empty new list, an empty old list);
  - a two-ended cursor scan with four heuristics (common prefix, common suffix, old tail to new head, old head to new tail), restarted whenever a rotation matched;
  - tail handling that removes, inserts, or does both.

This project models that core in Dafny.

| file | module | what it models |
|---|---|---|
| `descriptions.dfy` | `Descriptions` | Descriptions (`Text` / `Elem` with the factory key), matching by key, `create` and its key counter, `copy` |
| `physical.dfy` | `Physical` | The physical tree (`PText` / `PElem`), the single-attribute rule, `render`/`renderElement`, `diffAttributes` as intended and as written |
| `scan.dfy` | `Scan` | The cursor scan of `diffChildren` as an *edit script* over old and new positions. Each inner `while` is an instance of one recursive `Run`; `Cycle` is one pass of the outer loop, `Outer` the `while (loop)`; `Tail` is the tail handling |
| `reconcile.dfy` | `Reconcile` | `diff` (`DiffNode`) and the physical side of `diffChildren`: the script carried out on the cached children with the anchors `$afterNode` and `$newStartNode` |
| `arrangement.dfy`, `replay.dfy` | `Arrangement`, `Replay` | The layout invariant the scan keeps, step by step, and the tail handling completing it |
| `correctness.dfy` | `Correctness` | With the two anchor defects repaired, diffing a rendering yields the rendering of the new description |
| `session.dfy` | `Snapshots` | `update` and the snapshot store |
| `shapes.dfy` | `Shapes` | Script shapes and child order in the prefix cases; idempotence |
| `findings.dfy`, `stale.dfy` | `Findings`, `StaleAnchor` | The two defects of the code as written, each with its repair |

The reconciler is modelled twice, as `Variant`s.

- `AsWritten` follows solution.js.
- `Corrected` differs only in the two anchor defects listed under Findings:
  - H2.4 appends its node when no `$afterNode` is set;
  - H2.4 refreshes `$newStartNode`.

Both variants patch attributes with the intended differ, `DiffAttributes`. The third finding, the removal test of `diffAttributes` as written, is modelled separately as `DiffAttributesAsWritten`.

Faults are explicit. H2.4 calling `before` on an unset `$afterNode` is a `TypeError` in the source, and the model returns `Failure(MissingAnchor)`.

Notes on reading the source:

- The comment at solution.js:227 labels the third heuristic (old tail to new head) "H2.4", the same label as the fourth. The model calls them H2.3 and H2.4.
- H2.4 (solution.js:251-266) places its node before `$afterNode`, which only H2.2 and H2.4 itself set. When neither has run, the call at solution.js:256 throws, and the model returns that fault.
- On every call after the first, `update` (solution.js:14-21) hands `diff` the `$container` its caller passes in. The model takes the node standing in the render target as a parameter and returns the node that stands there afterwards.

## Model

| member | source | states |
|---|---|---|
| Descriptions.MatchCases | solution.js:197 | Any two strings match each other, a string never matches an element, and two elements match exactly when their factory keys are equal |
| Descriptions.Create | solution.js:5-12 | The element carries the given tag and children. Its key is the current counter, which then advances by one. Absent attributes become the empty map; given ones are kept |
| Descriptions.CreateAll | solution.js:5-12 | Successive `create` calls hand out keys that are strictly increasing, hence pairwise distinct, and within the counter's range |
| Descriptions.CopyIsIdentity | solution.js:29-46 | The deep copy is structurally equal to the original at every depth |
| Descriptions.CopyAllIsIdentity | solution.js:32-37 | Copying a child list yields an equal list |
| Physical.ApplyRule | solution.js:128-137 | For every key in the new attributes: present exactly when truthy, `""` for `true`, the string itself for a non-empty string, the decimal text for a non-zero integer. Every other attribute is untouched |
| Physical.RenderAttrs | solution.js:74-83 | A rendered element has exactly the truthy attributes of its description, each with its rendered value: `""` for `true`, otherwise the value's text |
| Physical.Render | solution.js:54-88 | A string renders to a text node with that value. An element keeps its tag, gets its truthy attributes and has its children rendered in order with the same count. The rendering mirrors the description's shape |
| Physical.RenderAll | solution.js:84-86 | Children render position by position, with the same count |
| Physical.DiffAttributes | solution.js:125-143 | The intended differ. New keys follow the single-attribute rule. Old keys that are not own keys of the new map are removed. Keys in neither map are untouched |
| Physical.DiffAttributesRendersNew | solution.js:125-143 | With the intended removal test, patching the rendering of the old attributes yields exactly the rendering of the new ones |
| Physical.DiffAttributesIdempotent | solution.js:125-143 | With old equal to new, patching the rendered attributes changes nothing |
| Physical.DiffAttributesAsWritten | solution.js:125-143 | The differ as written. New keys follow the single-attribute rule. An old key missing from the new map is removed unless its name is inherited from `Object.prototype`, which `in` at :139 also finds; such a key, and any key in neither map, keeps its value |
| Physical.AsWrittenAgrees | solution.js:138-142 | The as-written and intended differs give the same attributes exactly when no old attribute with an inherited name, dropped from the new map, is present on the node |
| Physical.InheritedNameKept | solution.js:138-142 | Old `{"constructor": "x"}` and new `{}`: as written `constructor="x"` stays, while the intended differ removes it |
| Scan.AdvanceAccounts | solution.js:197-201 | A matching step of any heuristic stays in range, shrinks the cursor window by 2 and consumes exactly the two positions it pairs |
| Scan.Run | solution.js:195-266 | Each of the four inner loops (H2.1 to H2.4) keeps the cursors in range and shrinks the measure by 2 per match. It stops at a mismatch or when the cursors cross. Its steps consume exactly the positions it passes |
| Scan.RunWalk | solution.js:197-266 | The steps of an inner loop pair exactly the cursor positions the heuristic visits, one after another |
| Scan.EndsPass | solution.js:195-225 | After the prefix and suffix loops, both ends mismatch or the cursors have crossed, and every pair consumed is accounted for |
| Scan.RotationPass | solution.js:231-266 | The rotations report progress exactly when they strictly shrank the window. Without progress the cursors are unchanged and both cross-pairs mismatch |
| Scan.Cycle | solution.js:188-267 | One pass of the outer loop stays in range. It repeats only after a rotation strictly shrank the window, and otherwise no heuristic can match |
| Scan.Outer | solution.js:188-267 | The outer loop terminates. Afterwards the cursors have crossed or no heuristic matches, and its steps consume exactly the positions outside the final window |
| Scan.RemovesDownAccounts | solution.js:269-273 | H2.5 removes each remaining old position exactly once, from the end down |
| Scan.InsertsAccounts | solution.js:276-285 | H2.6 inserts each remaining new position exactly once, in order |
| Scan.MiddleAccounts | solution.js:289-298 | The final branch removes every remaining old position and then inserts every remaining new one, each exactly once |
| Scan.Tail | solution.js:268-298 | The tail handling consumes exactly the old and new positions left inside the window |
| Scan.ScanThenTail | solution.js:188-298 | The scan followed by the tail reads only existing positions and pairs only equal keys. It consumes every old and every new position exactly once |
| Scan.Script | solution.js:153-299 | An empty new list clears the parent. Otherwise every step reads existing positions, every pair has equal keys, and every old and new position is consumed exactly once (matched, removed or inserted) |
| Arrangement.PlaceBefore | solution.js:278-296 | With `$afterNode` a child of the parent, the inserted rendering lands immediately before it, and every other child keeps its order |
| Reconcile.DiffNode | solution.js:99-115 | The decision rule. A string on either side that differs from the other side is replaced by the rendering of the new description. Equal strings leave the node untouched. Elements with different tags are replaced by the rendering. Elements with the same tag are patched in place: same tag, attributes patched by `diffAttributes`, children exactly as `diffChildren` leaves them, and a fault exactly when the children's reconciliation faults. Corrected, it never faults |
| Reconcile.Step | solution.js:195-298 | Only a matched pair can fault, and only in two ways: by H2.4 without `$afterNode` as written, or by a fault in the nested diff. Corrected, no step faults |
| Reconcile.ApplyEdits | solution.js:188-298 | Corrected, carrying out any well-formed script never faults |
| Reconcile.DiffChildren | solution.js:153-299 | An empty new list leaves no children (H1.1). Corrected, reconciliation never faults |
| Arrangement.PrefixKeeps | solution.js:197-201 | An H2.1 step keeps the layout invariant: reconciled children at both ends, untouched cached children in the middle, anchors in place |
| Arrangement.SuffixKeeps | solution.js:215-219 | An H2.2 step keeps the layout invariant, and its result becomes `$afterNode` |
| Arrangement.ToFrontKeeps | solution.js:233-239 | An H2.3 step moved before `$newStartNode` keeps the layout invariant |
| Arrangement.ToBackKeeps | solution.js:253-260 | A (corrected) H2.4 step moved before `$afterNode`, or appended, keeps the layout invariant |
| Replay.StepKeeps | solution.js:195-266 | A scan step whose diff delivers the wanted node keeps the layout invariant while the cursors advance. This covers every H2.1, H2.2 and H2.3 step, but an H2.4 step only in the corrected variant |
| Replay.ApplyWalk | solution.js:188-267 | A whole walk of the scan whose steps deliver keeps the layout invariant from its first cursors to its last. As written, this is only for walks without H2.4 steps |
| Replay.TailRemovesDown | solution.js:269-274 | H2.5 on an arranged layout leaves exactly the wanted children |
| Replay.TailInserts | solution.js:276-286 | H2.6 inserts the renderings before `$afterNode` (or appends them) so that the children are exactly the wanted ones |
| Replay.TailMiddle | solution.js:289-298 | The final branch, removals then insertions, leaves exactly the wanted children |
| Replay.TailApply | solution.js:268-298 | Whichever tail branch runs, it succeeds and leaves exactly the wanted children |
| Replay.ScriptFromEmpty | solution.js:160-165 | With no old children the script appends the renderings in order |
| Replay.ScriptDelivers | solution.js:153-299 | The reconciler yields exactly `want`, provided every matched pair's diff delivers `want`'s node at its new position, every insertion renders it, and, as written, no H2.4 step occurs |
| Correctness.DiffNodeRendersNew | solution.js:99-115 | Corrected, diffing the rendering of an old description against a new one yields the rendering of the new one |
| Correctness.DiffChildrenRendersNew | solution.js:153-299 | Corrected, reconciling the rendered old children against any new list yields the new list's renderings, in order |
| Correctness.FromEmpty | solution.js:160-165 | H1.2: with no old children, both variants yield the renderings of the new children in order |
| Snapshots.Update | solution.js:14-21 | The first call mounts the rendering. Later calls diff the target against the snapshot: they succeed exactly when that diff does, and the target then holds the node the diff produced. Every successful call stores a copy of the new tree. Only the code as written can fault, and then nothing is stored |
| Snapshots.UpdateKeepsInSync | solution.js:14-21 | Corrected, an update of a target that shows the snapshot's rendering succeeds, shows the new tree's rendering, and remembers that tree |
| Snapshots.UpdateAll | solution.js:14-21 | After any sequence of corrected updates, the snapshot is the last tree and the target shows its rendering |
| Shapes.PrefixOuter | solution.js:195-207 | When one key list extends the other, the scan is the prefix loop over the common positions |
| Shapes.PrefixScript | solution.js:197-286 | Old keys a prefix of new: pairs in place, then appended insertions, with no moves or removals. New keys a prefix of old: pairs in place, then removals of the extra old children from the end |
| Shapes.IdenticalScript | solution.js:197-207 | Identical key lists give a script that pairs every position in place: no moves, removals or insertions |
| Shapes.PrefixOrder | solution.js:195-286 | In the prefix cases the children end in the right order for both variants: the kept children diffed in place, then the renderings of the added ones |
| Shapes.DiffSelf | solution.js:99-115 | Diffing the rendering of a description against the same description is an in-place no-op, for both variants |
| Shapes.DiffChildrenSelf | solution.js:153-299 | Reconciling rendered children against the same list changes nothing, for both variants |
| Findings.RotationScript | solution.js:188-267 | For old keys [a,b,c] and new [b,c,a], the scan first runs H2.4 with no suffix match, then pairs b and c in place |
| Findings.ToBackFirstFails | solution.js:251-256 | As written, a script whose first step is H2.4 faults |
| Findings.MissingAnchorAsWritten | solution.js:251-256 | As written, rotating three distinct-key children left by one faults |
| Findings.MissingAnchorCorrected | solution.js:251-266 | Corrected, the same rotation yields the renderings in the new order |
| StaleAnchor.ShuffleScript | solution.js:188-298 | For [a,b,c,d,e] to [c,x,d,a,e] the script is: suffix e, H2.4 a, suffix d, H2.3 c, remove b, insert x |
| StaleAnchor.StaleAnchorAsWritten | solution.js:231-266 | As written, that reconciliation leaves the children in the order [x,d,c,a,e] |
| StaleAnchor.StaleAnchorCorrected | solution.js:231-266 | Corrected, it leaves them in the order [c,x,d,a,e] |
| StaleAnchor.StaleAnchorMisorders | solution.js:236 | The two differ whenever c and x render differently |

## Left out

- DOM calls become operations on the `PNode` datatype and on a list of slots:
  - `createElement`, `createTextNode`, `setAttribute`, `removeAttribute`, `replaceWith`, `before`, `insertBefore`, `appendChild`, `remove`, `textContent`;
  - `before` on a detached node, or on the node itself, is a no-op, as in the DOM.
- The physical children are read back from the slot list. Node identity beyond the handles of one `diffChildren` call is not modelled.
- `update` passes a container that the first call detached and discards the handle `diff` returns (solution.js:16-18). The model takes the node standing in the target as a parameter and returns the new one.
- `copy` walks generic objects (solution.js:29-46). Its quirks are not modelled: `null` becoming `{}`, and strings walked per character. `copy` is modelled on the description datatype only.
- Attribute values are booleans, strings, integers and `null`. Other JavaScript numbers, `NaN` and exponent notation of large numbers are not modelled; integers are written in plain decimal.
- The key counter is an unbounded integer. Loss of precision beyond 2^53 is not modelled.
- A failing `update` has already applied some mutations to the DOM before the `TypeError`. The model reports the fault and drops the partial mutations.
- Reconcile.DiffNode: requires the physical node to mirror the old description's shape, which the source assumes without checking. This holds for a rendering and after any corrected update (`Snapshots.UpdateKeepsInSync`). It need not hold after an as-written reconciliation that misorders children (`StaleAnchor.StaleAnchorAsWritten`). There a text node can stand where the snapshot has an element, and the source's next `diff` would call `setAttribute` on it and throw. That behaviour is not modelled.
- Snapshots.Update: requires the target to mirror the snapshot, so updates that follow an as-written misorder are excluded. In the source, such an update may throw or patch the wrong node.
- Replay.StepKeeps, Replay.ApplyWalk: the as-written H2.4 is excluded. Its missing-anchor fault is stated by `Findings.MissingAnchorAsWritten`, and its stale `$newStartNode` by `StaleAnchor.StaleAnchorAsWritten`.
- Attribute names are exact strings. On HTML elements, `setAttribute` and `removeAttribute` lowercase the name, and they throw on names that are not valid. Take old `{"Class": "x"}` and new `{"class": "y"}`: the removal of `Class` at solution.js:140 also removes `class` in the DOM, but the model keeps `class="y"`. The order independence of the attribute loops holds only for names that stay distinct after lowercasing.
- `create` called without `children` leaves `children` undefined, and `render` then throws at solution.js:84. A description here always carries a child list, so that error path is not modelled.
- A detached anchor is treated as `before` treats it (nothing moves). `insertBefore` in H2.6 would throw instead. In the runs the layout invariant covers, the anchor is always a child the scan has placed.
- Reconcile.DiffChildren: general order correctness is not claimed as written, because it is false there (see Findings). It is proved for `Corrected` (`Correctness.DiffChildrenRendersNew`), for the fast paths and prefix cases of both variants, and for any as-written script without H2.4 steps (`Replay.ScriptDelivers`).
- Physical.DiffAttributesRendersNew: the source's removal test `key in vNewAttributes` (solution.js:139) also finds names inherited from `Object.prototype`, such as `constructor` or `toString`. So for old `{"constructor": "x"}` and new `{}` the source keeps `constructor="x"`. The lemma is about the intended differ, `Physical.DiffAttributes`, which tests own keys only. The as-written differ is `Physical.DiffAttributesAsWritten` (see Findings).
- Physical.DiffAttributes: tests membership among the new map's own keys, not `in` with inheritance; see the line above.
- Correctness.DiffNodeRendersNew, Correctness.DiffChildrenRendersNew, Snapshots.UpdateKeepsInSync, Snapshots.UpdateAll: these rest on the intended attribute differ. They inherit the gap above for old attributes with inherited names, which the source would keep.
- `copy` writes `out[key]` (solution.js:42). For the key `__proto__` this sets the prototype instead of creating an own key, so such an attribute is missing from the snapshot. Not modelled: the description datatype's copy is the identity.
- Reconcile.ApplyEdits: its own contract states only that the corrected variant never faults; what the steps produce is stated by `Replay.ApplyWalk` and `Replay.TailApply`.

## Findings

| source | as written | input that shows it | evidently intended | confidence | as-written member | corrected member |
|---|---|---|---|---|---|---|
| solution.js:256 | H2.4 calls `$afterNode.before(...)` even when no H2.2 match has set `$afterNode`, which throws a `TypeError` | old children [a,b,c], new [b,c,a], with distinct keys | append the node at the end when no anchor is set | high (proved; not executed) | Findings.MissingAnchorAsWritten | Findings.MissingAnchorCorrected |
| solution.js:236 | H2.3 moves nodes before `$newStartNode`, which H2.4 never refreshes after moving the old head away, so later H2.3 moves land in the middle | old [a,b,c,d,e], new [c,x,d,a,e] ends as [x,d,c,a,e] | H2.4 should advance `$newStartNode` to the next old child, as H2.1 does | high (proved; not executed) | StaleAnchor.StaleAnchorAsWritten | StaleAnchor.StaleAnchorCorrected |
| solution.js:139 | the removal test `key in vNewAttributes` also holds for names inherited from `Object.prototype`, so an old attribute with such a name is never removed | old attributes `{"constructor": "x"}`, new `{}`: `constructor="x"` stays | remove every old attribute the new map does not have as an own key | medium (proved on the model; not executed) | Physical.InheritedNameKept | Physical.DiffAttributesRendersNew |
