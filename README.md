# DOMUpdater, modelled in Dafny

DOMUpdater brings a live DOM element up to date with a piece of markup. It
does not replace the element. It walks the live tree and the parsed markup
side by side, pairing children by position, and issues writes only where the
two trees differ:

- `setAttribute` / `removeAttribute`
- `nodeValue` assignments
- `appendChild` / `insertBefore` / `removeChild` of deep clones

The walk makes no attempt at a minimal edit: a changed tag or a reordered
child becomes an insert followed by a removal.

Two selector lists narrow the walk inside the root:

- `ignore` is tested on the live node of a pair. An ignored live child is
  kept as it is, and an ignored live root keeps its attributes while its
  children are still reconciled. An ignored source child is skipped only
  when it does not pair with the live child at its position. When it does
  pair with a live node that is not ignored, its attributes and children are
  copied in like any other (`Scenarios.IgnoredSourceCopiedIn`).
- `cloneNode` does not consult `ignore`. An appended or inserted source node
  brings all its descendants along, ignored ones included; the selectors
  decide only whether the top node of the clone is copied at all.
- `update`, when non-empty, limits in-place updates of paired children to
  those whose live node matches. It does not apply to the root: when the
  markup collapses onto the root, the root's attributes are merged whatever
  the list holds (`Scenarios.RootMergedDespiteUpdate`).

This project models the whole `DOMUpdater` class of `domupdater.js`.

- **Nodes** are values (`Dom.Node`: element, text or comment). Attribute
  lists are ordered and hold each name once.
- **Results.** Every operation returns the node's new state, the list of
  writes it issued (`Dom.Mutation`), and a `Reconcile.Status`.
- **Failure.** Status `NotFoundError` stands for the DOMException that
  `removeChild` throws. A run that throws keeps the writes made before the
  throw, and the exception propagates out of every enclosing call.
- **Two layers.** The walk is written twice:
  - as pure functions (`Reconcile`, `AttributeMerge`);
  - as the imperative loops of the source (`DomUpdater`), each proved to
    compute exactly its function.
- **Removal inside `updateChildren`.** The live child list there is a list of
  references into the snapshot `oldChildren` (module `ChildWalk`). So
  `removeChild` can tell that an entry has already been detached.
- **Properties** are proved over the functions (`Properties`), and small
  concrete runs are worked out in `Scenarios`.

Behaviour of the code that the model reproduces, and that a reader of the
class might not expect:

- **Surplus live children.** When the source runs out first, the removal
  branch does not advance `oldIndex`. So the loop removes the same snapshot
  entry again on the next step, and `removeChild` throws NotFoundError.
  - Any surplus live child that is not ignored therefore ends the update with
    that exception (`Properties.SurplusFails`, `Properties.RemovalFails`),
    as long as the ignore selectors give the same answer for a node wherever
    it stands. A selector that depends on the node's parent or position can
    match the detached node on the second test, and the walk then goes on
    (see "## Left out").
  - Replacing `<span>` by `<b>` throws after both writes
    (`Scenarios.ReplaceDifferentTag`).
  - The final `preserveParentAttributes` is then skipped.
- **Comments are never written.** A comment's text keeps its old value.
- **`data-` attributes.** Live attributes named `data-…` survive even when
  the source lacks them.
- **`update` selectors** are matched against the live node only, and text
  nodes never match. With a non-empty `update` list, no text is ever
  rewritten.

## Model

| member | source | states |
|---|---|---|
| Dom.GetAttribute | domupdater.js:54 | getAttribute gives a value present in the list under that name, and gives none exactly when no entry has the name |
| Dom.Assign | domupdater.js:55 | setAttribute: the name then reads as the new value, every other name reads as before, and names stay unique |
| Dom.HasAttribute | domupdater.js:45 | hasAttribute holds exactly when some entry of the list carries the name |
| Dom.Erase | domupdater.js:48 | removeAttribute: on a list with unique names, the name is then absent and every other name reads as before |
| Dom.RemoveFrom | domupdater.js:80 | removeChild fails exactly when the node is not a child; otherwise it drops that one entry |
| Dom.InsertInto | domupdater.js:96 | insertBefore puts the new node directly before the reference child |
| Dom.RemoveDetached | domupdater.js:77-83 | once a snapshot entry has been removed, removing it again fails |
| Dom.RemoveAtSlot | domupdater.js:80 | the first removal of the current snapshot entry succeeds and leaves the other entries in order |
| Dom.InsertAtSlot | domupdater.js:96 | the current snapshot entry is always a child, so insertBefore never throws, and the clone lands right before it |
| Policy.IsSameNode | domupdater.js:103-107 | two nodes pair up exactly when both are elements with the same tag, both are text, or both are comments |
| Policy.ShouldIgnore | domupdater.js:138-144 | only elements can be ignored, and nothing is ignored without ignore selectors |
| Policy.ShouldUpdate | domupdater.js:146-153 | with no update selectors every node is updated; with some, text and comments never are |
| Policy.CloneNode | domupdater.js:155-164 | the deep clone is structurally equal to the source node |
| AttributeMerge.Pruned | domupdater.js:41-50 | every live attribute is either kept or removed with one removeAttribute, and the pass issues removals only; its lookup and writes are `PrunedLookup` and `PrunedLog` |
| AttributeMerge.Assigned | domupdater.js:52-57 | at most one setAttribute per source attribute; its lookup and writes are `AssignedLookup` and `AssignedLog` |
| AttributeMerge.Merged | domupdater.js:40-58 | at most one write per live or source attribute; its lookup and writes are `MergedLookup` and `MergedLog` |
| AttributeMerge.MissingOrDifferent | domupdater.js:129-132 | the test "missing, or present with another value" is the same as "the value read differs", so preserveParentAttributes writes exactly where the assignment pass does |
| AttributeMerge.PrunedLookup | domupdater.js:41-50 | after the removal pass a name reads as none if the source lacks it and it is not `data-`, else as before; uniqueness is kept |
| AttributeMerge.PrunedLog | domupdater.js:41-50 | the removal pass issues removeAttribute exactly for live names that the source lacks and that are not `data-` |
| AttributeMerge.AssignedLookup | domupdater.js:52-57 | after the assignment pass every source name reads as the source's value and every other name as before |
| AttributeMerge.AssignedLog | domupdater.js:52-57 | the assignment pass issues setAttribute exactly for source attributes whose current value differs or is missing |
| AttributeMerge.AssignedUnique | domupdater.js:52-57 | the assignment pass never creates a duplicate name |
| AttributeMerge.AssignedNoop | domupdater.js:52-57 | when every source attribute already has its value, nothing is written |
| AttributeMerge.AssignedSelf | domupdater.js:126-136 | setting a list's attributes onto itself writes nothing and changes nothing, so preserveParentAttributes(element, element) is a no-op |
| AttributeMerge.MergedLookup | domupdater.js:40-58 | after updateAttributes a name reads as the source's value if the source has it, as the old value if it is `data-`, else as none |
| AttributeMerge.MergedUnique | domupdater.js:40-58 | updateAttributes keeps attribute names unique whatever the source holds |
| AttributeMerge.MergedLog | domupdater.js:40-58 | updateAttributes writes exactly the stale removals and the differing sets, nothing else |
| AttributeMerge.MergedIdempotent | domupdater.js:40-58 | merging an attribute list with itself writes nothing |
| AttributeMerge.PrunedKeepsAll | domupdater.js:41-50 | when the source has every live name, the removal pass writes nothing |
| Reconcile.ReconciledChildren | domupdater.js:60-101 | the two-index walk: with no live children it always completes; without ignore selectors a completed walk leaves exactly one child per source child. Its branches are proved equal to the loop by `DomUpdater.UpdateChildren`, and its outcomes are stated by the `Properties` lemmas |
| Reconcile.ReconciledChild | domupdater.js:109-124 | updateChild updates in place: the node keeps its type and tag. `Properties.SameNodePairs` and `Properties.ChildConverges` state what changes |
| Reconcile.ReconciledChildList | domupdater.js:60-101 | updateChildren changes only the element's child list, never its tag or attributes |
| Reconcile.ReconciledElement | domupdater.js:33-38 | updateElementAndChildren keeps the element's tag |
| Reconcile.ElementChildren | domupdater.js:15-17 | the wrapper's `children` are exactly the element children of the parsed list: each result is an element of the list, and each element of the list is in the result |
| Reconcile.OneElementChild | domupdater.js:16-17 | `children.length === 1` holds exactly when the parsed list holds a single element, and `firstElementChild` is then that element |
| Reconcile.CollapsesRoot | domupdater.js:15-17 | the markup collapses onto the root exactly when it holds a single element and that element has the root's tag |
| Reconcile.Reconciled | domupdater.js:6-31 | update keeps the root's tag, and leaves its attributes alone unless the markup collapses onto the root |
| ChildWalk.RemoveStep | domupdater.js:77-83 | in the loop, removeChild of the current entry succeeds the first time and fails the second, leaving the state of the functional walk |
| ChildWalk.SameStep | domupdater.js:84-88 | after a completed child update the loop state agrees with the functional walk on the remaining children |
| ChildWalk.SameFailedStep | domupdater.js:84-88 | when a child's update fails, the live list is the functional walk's partial result |
| ChildWalk.InsertStep | domupdater.js:95-98 | an insertBefore step keeps the loop state in agreement with the functional walk |
| DomUpdater.UpdateAttributes | domupdater.js:40-58 | the two loops compute exactly the merged attribute list and write list of `Merged` |
| DomUpdater.RemoveStaleAttributes | domupdater.js:41-50 | the backward loop computes exactly the removal pass `Pruned` |
| DomUpdater.SetSourceAttributes | domupdater.js:52-57 | the forward loop computes exactly the assignment pass `Assigned` |
| DomUpdater.UpdateChildren | domupdater.js:60-101 | the two-index loop over the snapshot, including the repeated removeChild, ends in exactly the state, writes and status of `ReconciledChildList` |
| DomUpdater.UpdateChild | domupdater.js:109-124 | updateChild ends in exactly the state, writes and status of `ReconciledChild` |
| DomUpdater.UpdateElementAndChildren | domupdater.js:33-38 | updateElementAndChildren ends in exactly the state, writes and status of `ReconciledElement` |
| DomUpdater.PreserveParentAttributes | domupdater.js:126-136 | the loop computes exactly the assignment pass of the original's attributes onto the element |
| DomUpdater.Update | domupdater.js:6-31 | update picks the mode from the wrapper's element children, and ends in exactly the result of `Reconciled`; the closing preserve pass adds no write |
| Properties.ChildrenIdempotent | domupdater.js:60-101 | reconciling a child list against itself completes, changes nothing and writes nothing, under any options |
| Properties.ChildIdempotent | domupdater.js:109-124 | updating a node against itself completes and writes nothing |
| Properties.UpdateWithOwnMarkup | domupdater.js:6-31 | update with the element's own outer markup writes nothing |
| Properties.UpdateWithOwnChildren | domupdater.js:6-31 | update with the element's own inner markup writes nothing unless that markup collapses onto the root |
| Properties.ConvergedSelf | domupdater.js:155-164 | a clone agrees with its source |
| Properties.ChildrenConverge | domupdater.js:60-101 | without selectors, a completed walk leaves one child per source child. Each agrees with it: equal text, same tag, source attributes, comments left as they were, extra `data-` attributes kept |
| Properties.ChildConverges | domupdater.js:109-124 | without selectors, a completed update of a same-node pair makes the live node agree with the source |
| Properties.SurplusFails | domupdater.js:77-83 | without ignore selectors, more live children than source children always ends in NotFoundError |
| Properties.RemovalCompletes | domupdater.js:77-83 | with the source exhausted, the run completes exactly when every remaining live child is ignored, and then writes nothing |
| Properties.RemovalFails | domupdater.js:77-83 | otherwise exactly the first non-ignored live child is removed, then the run fails |
| Properties.AppendsRemainder | domupdater.js:71-76 | against an empty live list, every non-ignored source child is appended in order as an equal clone, and the run completes |
| Properties.Unignored | domupdater.js:73 | the non-ignored source children, all of them and nothing else |
| Properties.Ignored | domupdater.js:79-80 | the ignored live children, all of them and nothing else |
| Properties.IgnoredKept | domupdater.js:79-92 | every ignored live child is still a child afterwards, unchanged, as many times as it occurred (multiset inclusion), whether the run completes or fails |
| Properties.ChildrenWrites | domupdater.js:60-101 | every write of a walk is allowed: inserts and appends copy non-ignored source nodes (only the top node of a clone is tested; its descendants come along whatever `ignore` says), removals detach non-ignored live nodes, text is rewritten only without update selectors. Attribute and text writes name no target node, so for them this says only the latter |
| Properties.ChildWrites | domupdater.js:109-124 | the same for the writes of updateChild |
| Properties.MergedWritesAttributes | domupdater.js:40-58 | updateAttributes writes attributes only |
| Properties.SameNodePairs | domupdater.js:109-124 | ignored or unselected nodes are left alone; comments are never changed; text takes the source text, with one write exactly when it differs |
| Properties.RootModes | domupdater.js:15-28 | collapsing onto an ignored root only reconciles children; collapsing onto another root merges attributes by the merge rule; otherwise only children change |
| Scenarios.AppendOneItem | domupdater.js:71-76 | `<ul><li>x</li></ul>` against `<ul><li>x</li><li>y</li></ul>` appends one clone and writes nothing else |
| Scenarios.ChangeClass | domupdater.js:52-57 | `<p class="a">t</p>` against `<p class="b">t</p>` writes only `class="b"` |
| Scenarios.ReplaceDifferentTag | domupdater.js:77-98 | `<div><span>1</span></div>` against `<div><b>1</b></div>` inserts `<b>`, removes `<span>`, then fails with NotFoundError |
| Scenarios.IgnoredSourceCopiedIn | domupdater.js:84-86 | with ignore `.skip`, a plain live `<div>` paired with `<div class="skip">x</div>` receives `class="skip"` and the text `x` |
| Scenarios.RootMergedDespiteUpdate | domupdater.js:33-38 | with an update list no node matches, collapsing `<p class="b">` onto `<p class="a">` still writes `class="b"` |
| Scenarios.IgnoredChildKeepsText | domupdater.js:110-112 | with ignore `.skip`, `data-x` is updated and the ignored span keeps its text |

## Left out

- Parsing: `DOMParser`, the `parser` field and the `<div>` wrapper are not modelled. `update` receives the wrapper's child nodes as an already parsed list of nodes.
- `oldMarkup` (the unused `outerHTML` read in `update`) is not modelled.
- Properties.RemovalFails, Properties.RemovalCompletes: the model asks the ignore predicate once per node value, and its answer cannot change during the walk. The source tests the same live node again: after its own `removeChild` (the index does not advance, so the detached node is tested next) and after an `insertBefore` in front of it (it then stands one place further right). With selectors that depend on the parent or position, such as `:not(ul > li)`, the second answer can differ, and the run then goes on instead of throwing, or skips a node it would have inserted before. These two lemmas, `Properties.SurplusFails` and the walk itself hold only for selectors whose answer does not depend on where the node stands.
- Selector syntax and matching: `element.matches` is a predicate supplied with the options. It sees only the node's own value, not its position or ancestors. Selector syntax errors are not modelled.
- Object identity: nodes are values. A live node reached through another reference outside the walked child list is not modelled. Neither is the freshness of clones: a clone is a value equal to its source.
- `document.createTextNode` and the host's shallow `cloneNode(false)`: both are folded into `CloneNode`.
- Case folding and namespaces: tag names and attribute names are compared and written as given. The DOM lowercases attribute names in getAttribute, hasAttribute, setAttribute and removeAttribute on HTML elements, so a live attribute whose name has upper-case letters (set through `setAttributeNS`) behaves differently there than in the model.
- The default-exported singleton instance is not modelled.
- `updateChild`'s `parentElement` argument is not modelled; the source never reads it.
- Host invariant assumed: every live element's attribute names are unique (`Dom.WellFormed`). The methods require it of the live tree.
- `Dom.Mutation` records what each write does, but not which node it targets. An attribute or text write names no element, and a child-list write names no parent. So the write constraints in `Properties.ChildrenWrites` cannot say which nodes attribute writes touch. That is carried instead by the state results and `Properties.IgnoredKept`.
- Exceptions other than removeChild's NotFoundError are not modelled: insertBefore always finds its reference child, and appendChild only receives fresh clones.
