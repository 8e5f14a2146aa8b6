/**
  The DOMUpdater operations as imperative code. Each method takes the live
  node it works on and returns that node's new state together with the writes
  it issued, and each is proved equal to its specification in module
  Reconcile (or AttributeMerge).

  Inside UpdateChildren the live child list is a list of references: a
  snapshot entry (by its position in `oldChildren`, whose current state is
  kept in `nodes`) or a fresh clone. So removeChild and insertBefore can tell
  whether a snapshot entry is still a child.
*/
module DomUpdater {
  import opened Dom
  import opened Policy
  import opened AttributeMerge
  import opened Reconcile
  import opened ChildWalk

  /** updateAttributes: remove stale attributes walking the live list
      backwards, then set every source attribute whose value differs. */
  method UpdateAttributes(oldElement: Node, newElement: Node) returns (updated: Node, log: seq<Mutation>)
    requires oldElement.Element? && newElement.Element? && Unique(oldElement.attrs)
    ensures updated == oldElement.(attrs := Merged(oldElement.attrs, newElement.attrs).attrs)
    ensures log == Merged(oldElement.attrs, newElement.attrs).log
  {
    var pruned, removals := RemoveStaleAttributes(oldElement.attrs, newElement.attrs);
    var attrs, sets := SetSourceAttributes(pruned, newElement.attrs);
    updated := oldElement.(attrs := attrs);
    log := removals + sets;
  }

  /** The first loop of updateAttributes: from the last live attribute to the
      first, remove it when the source lacks it and it is not `data-`. */
  method RemoveStaleAttributes(live: seq<Attr>, src: seq<Attr>) returns (attrs: seq<Attr>, log: seq<Mutation>)
    requires Unique(live)
    ensures attrs == Pruned(live, src).attrs && log == Pruned(live, src).log
  {
    attrs := live;
    log := [];
    for i := |live| downto 0
      invariant attrs == live[..i] + Pruned(live[i..], src).attrs
      invariant log == Pruned(live[i..], src).log
    {
      PrunedStep(live, i, src);
      var rest := Pruned(live[i + 1..], src).attrs;
      assert live[..i + 1] == live[..i] + [live[i]];
      var attr := attrs[i];
      if !HasAttribute(src, attr.name) && !IsDataName(attr.name) {
        EraseAt(live[..i], attr, rest);
        attrs := Erase(attrs, attr.name);
        log := log + [RemoveAttribute(attr.name)];
      } else {
        assert attrs == live[..i] + ([live[i]] + rest);
      }
    }
    assert live[0..] == live;
  }

  /** The second loop of updateAttributes: in source order, set each source
      attribute whose current value differs. */
  method SetSourceAttributes(cur: seq<Attr>, src: seq<Attr>) returns (attrs: seq<Attr>, log: seq<Mutation>)
    ensures attrs == Assigned(cur, src).attrs && log == Assigned(cur, src).log
  {
    attrs := cur;
    log := [];
    assert src[0..] == src;
    for j := 0 to |src|
      invariant Assigned(cur, src).attrs == Assigned(attrs, src[j..]).attrs
      invariant Assigned(cur, src).log == log + Assigned(attrs, src[j..]).log
    {
      AssignedStep(attrs, src, j);
      var attr := src[j];
      if GetAttribute(attrs, attr.name) != Some(attr.value) {
        attrs := Assign(attrs, attr.name, attr.value);
        log := log + [SetAttribute(attr.name, attr.value)];
      }
    }
    assert src[|src|..] == [];
  }

  /** updateChildren: the two-index walk over a snapshot of the live
      children and the source children. */
  method UpdateChildren(oldElement: Node, newElement: Node, opts: Options) returns (r: Patched<Node>)
    requires oldElement.Element? && newElement.Element? && AllWellFormed(oldElement.children)
    ensures r == ReconciledChildList(oldElement, newElement.children, opts)
    decreases Size(newElement), 0
  {
    var oldChildren := oldElement.children;
    var newChildren := newElement.children;
    var n := |oldChildren|;
    var nodes := oldChildren;
    var kids := Snapshots(0, n);
    var log: seq<Mutation> := [];
    var oldIndex, newIndex := 0, 0;
    ghost var done: seq<ChildRef> := [];
    ghost var detached := false;
    ghost var whole := ReconciledChildren(oldChildren, newChildren, opts);
    WalkStart(oldChildren, newChildren, opts);
    while oldIndex < n || newIndex < |newChildren|
      invariant Walking(oldChildren, newChildren, opts, whole, nodes, kids, log, oldIndex, newIndex, done, detached)
      decreases n - oldIndex + |newChildren| - newIndex, if detached then 0 else 1
    {
      if oldIndex >= n {
        // Add new child
        AppendStep(oldChildren, newChildren, opts, whole, nodes, kids, log, oldIndex, newIndex, done, detached);
        var newChild := newChildren[newIndex];
        if !ShouldIgnore(newChild, opts) {
          var clone := CloneNode(newChild);
          kids := kids + [Fresh(clone)];
          log := log + [AppendChild(clone)];
          done := done + [Fresh(clone)];
        }
        newIndex := newIndex + 1;
      } else if newIndex >= |newChildren| {
        // Remove old child
        Current(oldChildren, newChildren, opts, whole, nodes, kids, log, oldIndex, newIndex, done, detached);
        var oldChild := nodes[oldIndex];
        if !ShouldIgnore(oldChild, opts) {
          RemoveStep(oldChildren, newChildren, opts, whole, nodes, kids, log, oldIndex, newIndex, done, detached);
          var removed := RemoveFrom(kids, Snapshot(oldIndex));
          if removed.None? {
            r := Patched(oldElement.(children := Resolve(kids, nodes)), log, NotFoundError);
            return;
          }
          kids := removed.value;
          log := log + [RemoveChild(oldChild)];
          detached := true;
        } else {
          KeepLastStep(oldChildren, newChildren, opts, whole, nodes, kids, log, oldIndex, newIndex, done, detached);
          done := done + [Snapshot(oldIndex)];
          oldIndex := oldIndex + 1;
        }
      } else if IsSameNode(nodes[oldIndex], newChildren[newIndex]) {
        // Update existing child
        Current(oldChildren, newChildren, opts, whole, nodes, kids, log, oldIndex, newIndex, done, detached);
        assert oldChildren[oldIndex] in oldElement.children;
        ChildSmaller(newChildren, newIndex);
        var u := UpdateChild(nodes[oldIndex], newChildren[newIndex], opts);
        if u.status != Completed {
          SameFailedStep(oldChildren, newChildren, opts, whole, nodes, kids, log, oldIndex, newIndex, done, detached, u);
          nodes := nodes[oldIndex := u.value];
          log := log + u.log;
          r := Patched(oldElement.(children := Resolve(kids, nodes)), log, u.status);
          return;
        }
        SameStep(oldChildren, newChildren, opts, whole, nodes, kids, log, oldIndex, newIndex, done, detached, u);
        nodes := nodes[oldIndex := u.value];
        log := log + u.log;
        done := done + [Snapshot(oldIndex)];
        oldIndex, newIndex := oldIndex + 1, newIndex + 1;
        detached := false;
      } else if ShouldIgnore(nodes[oldIndex], opts) {
        Current(oldChildren, newChildren, opts, whole, nodes, kids, log, oldIndex, newIndex, done, detached);
        KeepStep(oldChildren, newChildren, opts, whole, nodes, kids, log, oldIndex, newIndex, done, detached);
        done := done + [Snapshot(oldIndex)];
        oldIndex := oldIndex + 1;
      } else if ShouldIgnore(newChildren[newIndex], opts) {
        Current(oldChildren, newChildren, opts, whole, nodes, kids, log, oldIndex, newIndex, done, detached);
        SkipStep(oldChildren, newChildren, opts, whole, nodes, kids, log, oldIndex, newIndex, done, detached);
        newIndex := newIndex + 1;
      } else {
        // Nodes are different: insert a clone before the live child
        Current(oldChildren, newChildren, opts, whole, nodes, kids, log, oldIndex, newIndex, done, detached);
        InsertStep(oldChildren, newChildren, opts, whole, nodes, kids, log, oldIndex, newIndex, done, detached);
        var clone := CloneNode(newChildren[newIndex]);
        kids := InsertInto(kids, Fresh(clone), Snapshot(oldIndex));
        log := log + [InsertBefore(clone)];
        done := done + [Fresh(clone)];
        newIndex := newIndex + 1;
      }
    }
    WalkEnd(oldChildren, newChildren, opts, whole, nodes, kids, log, oldIndex, newIndex, done, detached);
    r := Patched(oldElement.(children := Resolve(kids, nodes)), log, Completed);
  }

  /** updateChild on a pair that isSameNode accepted. */
  method UpdateChild(oldChild: Node, newChild: Node, opts: Options) returns (r: Patched<Node>)
    requires IsSameNode(oldChild, newChild) && WellFormed(oldChild)
    ensures r == ReconciledChild(oldChild, newChild, opts)
    decreases Size(newChild), 1
  {
    r := Patched(oldChild, [], Completed);
    if ShouldIgnore(oldChild, opts) {
      return;
    }
    if ShouldUpdate(oldChild, opts) {
      if NodeType(oldChild) == TEXT_NODE {
        if oldChild.value != newChild.value {
          r := Patched(Text(newChild.value), [SetNodeValue(newChild.value)], Completed);
        }
      } else if NodeType(oldChild) == ELEMENT_NODE {
        var updated, attrLog := UpdateAttributes(oldChild, newChild);
        var w := UpdateChildren(updated, newChild, opts);
        r := Patched(w.value, attrLog + w.log, w.status);
      }
    }
  }

  /** updateElementAndChildren: merge the attributes unless the element is
      ignored, then reconcile the children. */
  method UpdateElementAndChildren(oldElement: Node, newElement: Node, opts: Options) returns (r: Patched<Node>)
    requires oldElement.Element? && newElement.Element? && WellFormed(oldElement)
    ensures r == ReconciledElement(oldElement, newElement, opts)
  {
    var current := oldElement;
    var attrLog: seq<Mutation> := [];
    if !ShouldIgnore(oldElement, opts) {
      current, attrLog := UpdateAttributes(oldElement, newElement);
    }
    var w := UpdateChildren(current, newElement, opts);
    r := Patched(w.value, attrLog + w.log, w.status);
  }

  /** preserveParentAttributes: set on `element` every attribute of
      `originalElement` whose value there differs or is missing. */
  method PreserveParentAttributes(element: Node, originalElement: Node) returns (updated: Node, log: seq<Mutation>)
    requires element.Element? && originalElement.Element?
    ensures updated == element.(attrs := Assigned(element.attrs, originalElement.attrs).attrs)
    ensures log == Assigned(element.attrs, originalElement.attrs).log
  {
    var original := originalElement.attrs;
    var attrs := element.attrs;
    log := [];
    assert original[0..] == original;
    for j := 0 to |original|
      invariant Assigned(element.attrs, original).attrs == Assigned(attrs, original[j..]).attrs
      invariant Assigned(element.attrs, original).log == log + Assigned(attrs, original[j..]).log
    {
      AssignedStep(attrs, original, j);
      var attr := original[j];
      MissingOrDifferent(attrs, attr.name, attr.value);
      if !HasAttribute(attrs, attr.name) || GetAttribute(attrs, attr.name) != Some(attr.value) {
        attrs := Assign(attrs, attr.name, attr.value);
        log := log + [SetAttribute(attr.name, attr.value)];
      }
    }
    assert original[|original|..] == [];
    updated := element.(attrs := attrs);
  }

  /** update: `parsed` is the child list of the `<div>` wrapper the markup
      was parsed into. */
  method Update(element: Node, parsed: seq<Node>, opts: Options) returns (r: Patched<Node>)
    requires element.Element? && WellFormed(element)
    ensures r == Reconciled(element, parsed, opts)
  {
    var newElement := Element("DIV", [], parsed);
    var elementChildren := ElementChildren(newElement.children);
    var isParentIncluded := |elementChildren| == 1 && elementChildren[0].tag == element.tag;
    if isParentIncluded {
      r := UpdateElementAndChildren(element, elementChildren[0], opts);
    } else {
      r := UpdateChildren(element, newElement, opts);
    }
    if r.status == Completed {
      if !ShouldIgnore(element, opts) && isParentIncluded {
        MergedUnique(element.attrs, elementChildren[0].attrs);
      }
      AssignedSelf(r.value.attrs);
      var kept, preserveLog := PreserveParentAttributes(r.value, r.value);
      r := Patched(kept, r.log + preserveLog, r.status);
    }
  }
}
