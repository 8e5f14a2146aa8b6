/**
  What one reconciliation does, as functions: the new state of the live
  nodes, the writes issued in order, and whether the run completed or was cut
  short by the host's NotFoundError. A run that fails leaves the live tree in
  the partial state reached at the failing write.
*/
module Reconcile {
  import opened Dom
  import opened Policy
  import opened AttributeMerge

  /** How a run ends: it completes, or removeChild rejects a node that is no
      longer a child and the DOMException propagates out of every call. */
  datatype Status = Completed | NotFoundError

  /** The state a run leaves, the writes it issued, and how it ended. */
  datatype Patched<T> = Patched(value: T, log: seq<Mutation>, status: Status)

  /** `pre` and `log` happened first, then the run `rest`. */
  function Prefixed(pre: seq<Node>, log: seq<Mutation>, rest: Patched<seq<Node>>): Patched<seq<Node>> {
    Patched(pre + rest.value, log + rest.log, rest.status)
  }

  /** updateChildren's two-index walk over the live children `olds` and the
      source children `news`, one step per call. */
  function ReconciledChildren(olds: seq<Node>, news: seq<Node>, opts: Options): (r: Patched<seq<Node>>)
    ensures olds == [] ==> r.status == Completed
    ensures opts.ignore == [] && r.status == Completed ==> |r.value| == |news|
    decreases Sizes(news), |olds|
  {
    if olds == [] && news == [] then Patched([], [], Completed)
    else if olds == [] then
      // live side exhausted: append a clone unless the source child is ignored
      var rest := ReconciledChildren([], news[1..], opts);
      if ShouldIgnore(news[0], opts) then rest
      else var c := CloneNode(news[0]); Prefixed([c], [AppendChild(c)], rest)
    else if news == [] then
      // source side exhausted: keep an ignored child and move on; remove any
      // other, after which the walk stays on the same snapshot entry and the
      // second removeChild of that node fails
      if ShouldIgnore(olds[0], opts) then Prefixed([olds[0]], [], ReconciledChildren(olds[1..], [], opts))
      else Patched(olds[1..], [RemoveChild(olds[0])], NotFoundError)
    else if IsSameNode(olds[0], news[0]) then
      var u := ReconciledChild(olds[0], news[0], opts);
      if u.status != Completed then Patched([u.value] + olds[1..], u.log, u.status)
      else Prefixed([u.value], u.log, ReconciledChildren(olds[1..], news[1..], opts))
    else if ShouldIgnore(olds[0], opts) then
      Prefixed([olds[0]], [], ReconciledChildren(olds[1..], news, opts))
    else if ShouldIgnore(news[0], opts) then
      ReconciledChildren(olds, news[1..], opts)
    else
      var c := CloneNode(news[0]);
      Prefixed([c], [InsertBefore(c)], ReconciledChildren(olds, news[1..], opts))
  }

  // ---------------------------------------------------------------------------
  // One step of the walk from positions `i` and `j`, one lemma per branch

  /** `pre` and `log` followed by two runs is the same as one longer prefix. */
  lemma PrefixedPrefixed(a: seq<Node>, l: seq<Mutation>, b: seq<Node>, m: seq<Mutation>, x: Patched<seq<Node>>)
    ensures Prefixed(a, l, Prefixed(b, m, x)) == Prefixed(a + b, l + m, x)
  {
    assert a + (b + x.value) == (a + b) + x.value;
    assert l + (m + x.log) == (l + m) + x.log;
  }

  lemma WalkAppend(olds: seq<Node>, news: seq<Node>, i: nat, j: nat, opts: Options)
    requires i == |olds| && j < |news|
    ensures ReconciledChildren(olds[i..], news[j..], opts) ==
              if ShouldIgnore(news[j], opts) then ReconciledChildren(olds[i..], news[j + 1..], opts)
              else Prefixed([news[j]], [AppendChild(news[j])], ReconciledChildren(olds[i..], news[j + 1..], opts))
  {
    assert olds[i..] == [] && news[j..][0] == news[j] && news[j..][1..] == news[j + 1..];
  }

  lemma WalkRemove(olds: seq<Node>, news: seq<Node>, i: nat, j: nat, opts: Options)
    requires i < |olds| && j == |news|
    ensures ReconciledChildren(olds[i..], news[j..], opts) ==
              if ShouldIgnore(olds[i], opts) then Prefixed([olds[i]], [], ReconciledChildren(olds[i + 1..], news[j..], opts))
              else Patched(olds[i + 1..], [RemoveChild(olds[i])], NotFoundError)
  {
    assert news[j..] == [] && olds[i..][0] == olds[i] && olds[i..][1..] == olds[i + 1..];
  }

  lemma WalkSame(olds: seq<Node>, news: seq<Node>, i: nat, j: nat, opts: Options)
    requires i < |olds| && j < |news| && IsSameNode(olds[i], news[j])
    ensures ReconciledChildren(olds[i..], news[j..], opts) ==
              var u := ReconciledChild(olds[i], news[j], opts);
              if u.status != Completed then Patched([u.value] + olds[i + 1..], u.log, u.status)
              else Prefixed([u.value], u.log, ReconciledChildren(olds[i + 1..], news[j + 1..], opts))
  {
    assert olds[i..][0] == olds[i] && olds[i..][1..] == olds[i + 1..];
    assert news[j..][0] == news[j] && news[j..][1..] == news[j + 1..];
  }

  lemma WalkKeep(olds: seq<Node>, news: seq<Node>, i: nat, j: nat, opts: Options)
    requires i < |olds| && j < |news| && !IsSameNode(olds[i], news[j]) && ShouldIgnore(olds[i], opts)
    ensures ReconciledChildren(olds[i..], news[j..], opts) ==
              Prefixed([olds[i]], [], ReconciledChildren(olds[i + 1..], news[j..], opts))
  {
    assert olds[i..][0] == olds[i] && olds[i..][1..] == olds[i + 1..];
    assert news[j..][0] == news[j];
  }

  lemma WalkSkip(olds: seq<Node>, news: seq<Node>, i: nat, j: nat, opts: Options)
    requires i < |olds| && j < |news| && !IsSameNode(olds[i], news[j])
    requires !ShouldIgnore(olds[i], opts) && ShouldIgnore(news[j], opts)
    ensures ReconciledChildren(olds[i..], news[j..], opts) == ReconciledChildren(olds[i..], news[j + 1..], opts)
  {
    assert olds[i..][0] == olds[i];
    assert news[j..][0] == news[j] && news[j..][1..] == news[j + 1..];
  }

  lemma WalkInsert(olds: seq<Node>, news: seq<Node>, i: nat, j: nat, opts: Options)
    requires i < |olds| && j < |news| && !IsSameNode(olds[i], news[j])
    requires !ShouldIgnore(olds[i], opts) && !ShouldIgnore(news[j], opts)
    ensures ReconciledChildren(olds[i..], news[j..], opts) ==
              Prefixed([news[j]], [InsertBefore(news[j])], ReconciledChildren(olds[i..], news[j + 1..], opts))
  {
    assert olds[i..][0] == olds[i];
    assert news[j..][0] == news[j] && news[j..][1..] == news[j + 1..];
  }

  /** updateChild on a pair that isSameNode accepted. */
  function ReconciledChild(live: Node, src: Node, opts: Options): (r: Patched<Node>)
    requires IsSameNode(live, src)
    ensures IsSameNode(live, r.value)
    decreases Size(src), 0
  {
    if ShouldIgnore(live, opts) || !ShouldUpdate(live, opts) then Patched(live, [], Completed)
    else match live
      case Text(v) =>
        if v != src.value then Patched(Text(src.value), [SetNodeValue(src.value)], Completed)
        else Patched(live, [], Completed)
      case Comment(_) => Patched(live, [], Completed)
      case Element(tag, attrs, kids) =>
        var a := Merged(attrs, src.attrs);
        var w := ReconciledChildren(kids, src.children, opts);
        Patched(Element(tag, a.attrs, w.value), a.log + w.log, w.status)
  }

  /** updateChildren on a live element: only its child list changes. */
  function ReconciledChildList(element: Node, news: seq<Node>, opts: Options): (r: Patched<Node>)
    requires element.Element?
    ensures r.value.Element? && r.value.tag == element.tag && r.value.attrs == element.attrs
  {
    var w := ReconciledChildren(element.children, news, opts);
    Patched(element.(children := w.value), w.log, w.status)
  }

  /** updateElementAndChildren: the attributes are merged unless the element
      itself is ignored; the children are reconciled in either case. */
  function ReconciledElement(element: Node, src: Node, opts: Options): (r: Patched<Node>)
    requires element.Element? && src.Element?
    ensures r.value.Element? && r.value.tag == element.tag
  {
    var a := if ShouldIgnore(element, opts) then AttrPatch(element.attrs, []) else Merged(element.attrs, src.attrs);
    var w := ReconciledChildren(element.children, src.children, opts);
    Patched(Element(element.tag, a.attrs, w.value), a.log + w.log, w.status)
  }

  /** The parsed wrapper's `children`: its element children, in order. */
  function ElementChildren(ns: seq<Node>): (r: seq<Node>)
    ensures forall i :: 0 <= i < |r| ==> r[i].Element? && r[i] in ns
    ensures forall i :: 0 <= i < |ns| && ns[i].Element? ==> ns[i] in r
    ensures |r| <= |ns|
  {
    if ns == [] then []
    else if ns[0].Element? then [ns[0]] + ElementChildren(ns[1..])
    else ElementChildren(ns[1..])
  }

  /** Exactly one of `ns` is an element, and it is at position `k`. */
  predicate OnlyElementAt(ns: seq<Node>, k: int) {
    0 <= k < |ns| && ns[k].Element? && forall i :: 0 <= i < |ns| && ns[i].Element? ==> i == k
  }

  /** The wrapper's `children` has length one exactly when the parsed list
      holds a single element, and then it is that element. */
  lemma {:induction false} OneElementChild(ns: seq<Node>)
    ensures |ElementChildren(ns)| == 1 <==> exists k :: OnlyElementAt(ns, k)
    ensures forall k :: OnlyElementAt(ns, k) ==> ElementChildren(ns) == [ns[k]]
  {
    if ns != [] {
      OneElementChild(ns[1..]);
      var tail := ns[1..];
      var rest := ElementChildren(tail);
      forall k | OnlyElementAt(ns, k) ensures ElementChildren(ns) == [ns[k]] {
        if k == 0 {
          forall i | 0 <= i < |tail| ensures !tail[i].Element? {
            assert tail[i] == ns[i + 1];
          }
          NoElementChildren(tail);
        } else {
          assert OnlyElementAt(tail, k - 1);
        }
      }
      if |ElementChildren(ns)| == 1 {
        if ns[0].Element? {
          assert rest == [];
          forall i | 0 < i < |ns| ensures !ns[i].Element? {
            assert ns[i] == tail[i - 1];
          }
          assert OnlyElementAt(ns, 0);
        } else {
          var k :| OnlyElementAt(tail, k);
          forall i | 0 < i < |ns| && ns[i].Element? ensures i == k + 1 {
            assert ns[i] == tail[i - 1];
          }
          assert OnlyElementAt(ns, k + 1);
        }
      }
    }
  }

  /** A list without elements has no element children. */
  lemma {:induction false} NoElementChildren(ns: seq<Node>)
    requires forall i :: 0 <= i < |ns| ==> !ns[i].Element?
    ensures ElementChildren(ns) == []
  {
    if ns != [] {
      NoElementChildren(ns[1..]);
    }
  }

  /** Root-collapsing mode: the wrapper holds exactly one element and it has
      the live root's tag name. */
  function CollapsesRoot(element: Node, parsed: seq<Node>): (r: bool)
    requires element.Element?
    ensures r <==> exists k :: OnlyElementAt(parsed, k) && parsed[k].tag == element.tag
  {
    OneElementChild(parsed);
    var els := ElementChildren(parsed);
    |els| == 1 && els[0].tag == element.tag
  }

  /** update: `parsed` is the child list of the wrapper the markup was parsed
      into. The final preserveParentAttributes(element, element) issues no
      write (see DomUpdater.PreserveParentAttributes), so it does not appear. */
  function Reconciled(element: Node, parsed: seq<Node>, opts: Options): (r: Patched<Node>)
    requires element.Element?
    ensures r.value.Element? && r.value.tag == element.tag
    ensures !CollapsesRoot(element, parsed) ==> r.value.attrs == element.attrs
  {
    if CollapsesRoot(element, parsed) then ReconciledElement(element, ElementChildren(parsed)[0], opts)
    else ReconciledChildList(element, parsed, opts)
  }
}
