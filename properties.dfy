/**
  What a reconciliation promises, stated over the functional walk: running it
  against an identical source writes nothing; without selector lists a
  completed run makes the live children agree with the source; surplus live
  children make the run fail; ignored children survive; and every write is
  of a kind the options allow, on a node the walk may touch.
*/
module Properties {
  import opened Dom
  import opened Policy
  import opened AttributeMerge
  import opened Reconcile

  // ---------------------------------------------------------------------------
  // Idempotence

  /** Reconciling children against themselves completes, keeps them and
      writes nothing, whatever the options. */
  lemma {:induction false} ChildrenIdempotent(ns: seq<Node>, opts: Options)
    requires AllWellFormed(ns)
    ensures ReconciledChildren(ns, ns, opts) == Patched(ns, [], Completed)
    decreases Sizes(ns), 1
  {
    if ns != [] {
      ChildIdempotent(ns[0], opts);
      assert AllWellFormed(ns[1..]) by {
        forall i | 0 <= i < |ns[1..]| ensures WellFormed(ns[1..][i]) {
          assert ns[1..][i] == ns[i + 1];
        }
      }
      ChildrenIdempotent(ns[1..], opts);
      assert [ns[0]] + ns[1..] == ns;
    }
  }

  lemma {:induction false} ChildIdempotent(n: Node, opts: Options)
    requires WellFormed(n)
    ensures IsSameNode(n, n) && ReconciledChild(n, n, opts) == Patched(n, [], Completed)
    decreases Size(n), 0
  {
    if n.Element? && !ShouldIgnore(n, opts) && ShouldUpdate(n, opts) {
      MergedIdempotent(n.attrs);
      ChildrenIdempotent(n.children, opts);
    }
  }

  /** update(element, element.outerHTML): the wrapper holds the element
      itself, so the root is collapsed onto itself and nothing is written. */
  lemma UpdateWithOwnMarkup(element: Node, opts: Options)
    requires element.Element? && WellFormed(element)
    ensures Reconciled(element, [element], opts) == Patched(element, [], Completed)
  {
    assert [element][1..] == [];
    assert ElementChildren([element]) == [element];
    ChildrenIdempotent(element.children, opts);
    if !ShouldIgnore(element, opts) {
      MergedIdempotent(element.attrs);
    }
  }

  /** update(element, element.innerHTML), when that markup does not look like
      the root itself: nothing is written. */
  lemma UpdateWithOwnChildren(element: Node, opts: Options)
    requires element.Element? && WellFormed(element) && !CollapsesRoot(element, element.children)
    ensures Reconciled(element, element.children, opts) == Patched(element, [], Completed)
  {
    ChildrenIdempotent(element.children, opts);
  }

  // ---------------------------------------------------------------------------
  // Convergence

  /** `live` agrees with the source `src`: texts are equal, a comment
      is any comment, elements have the same tag, every attribute the source
      has (and every attribute outside the `data-` prefix) has the source's
      value, and the children agree one to one. */
  ghost predicate Converged(live: Node, src: Node)
    decreases src
  {
    match src
    case Text(_) => live == src
    case Comment(_) => live.Comment?
    case Element(tag, attrs, kids) =>
      && live.Element? && live.tag == tag
      && (forall k: string :: HasAttribute(attrs, k) || !IsDataName(k) ==>
            GetAttribute(live.attrs, k) == GetAttribute(attrs, k))
      && |live.children| == |kids|
      && forall i :: 0 <= i < |kids| ==> Converged(live.children[i], kids[i])
  }

  lemma {:induction false} ConvergedSelf(n: Node)
    ensures Converged(n, n)
    decreases n
  {
    if n.Element? {
      forall i | 0 <= i < |n.children| ensures Converged(n.children[i], n.children[i]) {
        ConvergedSelf(n.children[i]);
      }
    }
  }

  /** Without `ignore` and `update` selectors, a run that completes leaves
      exactly one live child per source child, each agreeing with it. */
  lemma {:induction false} ChildrenConverge(olds: seq<Node>, news: seq<Node>, opts: Options)
    requires opts.ignore == [] && opts.update == [] && AllWellFormed(olds) && AllWellFormed(news)
    ensures var w := ReconciledChildren(olds, news, opts);
              w.status == Completed ==>
                |w.value| == |news| && forall i :: 0 <= i < |news| ==> Converged(w.value[i], news[i])
    decreases Sizes(news), |olds|
  {
    var w := ReconciledChildren(olds, news, opts);
    if olds == [] && news == [] {
    } else if olds == [] {
      AllWellFormedTail(news);
      ChildrenConverge([], news[1..], opts);
      ConvergedSelf(news[0]);
      var rest := ReconciledChildren([], news[1..], opts);
      if rest.status == Completed {
        ConsConverged(news[0], rest.value, news);
      }
    } else if news == [] {
    } else if IsSameNode(olds[0], news[0]) {
      ChildConverges(olds[0], news[0], opts);
      AllWellFormedTail(olds);
      AllWellFormedTail(news);
      ChildrenConverge(olds[1..], news[1..], opts);
      var u := ReconciledChild(olds[0], news[0], opts);
      var rest := ReconciledChildren(olds[1..], news[1..], opts);
      if u.status == Completed && rest.status == Completed {
        ConsConverged(u.value, rest.value, news);
      }
    } else {
      AllWellFormedTail(news);
      ChildrenConverge(olds, news[1..], opts);
      ConvergedSelf(news[0]);
      var rest := ReconciledChildren(olds, news[1..], opts);
      if rest.status == Completed {
        ConsConverged(news[0], rest.value, news);
      }
    }
  }

  lemma {:induction false} ChildConverges(live: Node, src: Node, opts: Options)
    requires IsSameNode(live, src) && WellFormed(live) && WellFormed(src)
    requires opts.ignore == [] && opts.update == []
    ensures var u := ReconciledChild(live, src, opts); u.status == Completed ==> Converged(u.value, src)
    decreases Size(src), 0
  {
    if src.Element? {
      MergedLookup(live.attrs, src.attrs);
      ChildrenConverge(live.children, src.children, opts);
    }
  }

  lemma AllWellFormedTail(ns: seq<Node>)
    requires AllWellFormed(ns) && ns != []
    ensures WellFormed(ns[0]) && AllWellFormed(ns[1..])
  {
    forall i | 0 <= i < |ns[1..]| ensures WellFormed(ns[1..][i]) {
      assert ns[1..][i] == ns[i + 1];
    }
  }

  lemma ConsConverged(x: Node, rest: seq<Node>, news: seq<Node>)
    requires news != [] && Converged(x, news[0]) && |rest| == |news| - 1
    requires forall i :: 0 <= i < |news[1..]| ==> Converged(rest[i], news[1..][i])
    ensures |[x] + rest| == |news| && forall i :: 0 <= i < |news| ==> Converged(([x] + rest)[i], news[i])
  {
    forall i | 0 < i < |news| ensures Converged(([x] + rest)[i], news[i]) {
      assert ([x] + rest)[i] == rest[i - 1] && news[i] == news[1..][i - 1];
    }
  }

  // ---------------------------------------------------------------------------
  // Surplus live children

  /** Without `ignore` selectors, more live children than source children
      always ends in NotFoundError. */
  lemma {:induction false} SurplusFails(olds: seq<Node>, news: seq<Node>, opts: Options)
    requires opts.ignore == [] && |olds| > |news|
    ensures ReconciledChildren(olds, news, opts).status == NotFoundError
    decreases Sizes(news), |olds|
  {
    if news != [] {
      if IsSameNode(olds[0], news[0]) {
        SurplusFails(olds[1..], news[1..], opts);
      } else {
        SurplusFails(olds, news[1..], opts);
      }
    }
  }

  /** Once the source side is exhausted, the run completes exactly when every
      remaining live child is ignored, and then changes nothing. */
  lemma {:induction false} RemovalCompletes(olds: seq<Node>, opts: Options)
    ensures var w := ReconciledChildren(olds, [], opts);
              && (w.status == Completed <==> forall i :: 0 <= i < |olds| ==> ShouldIgnore(olds[i], opts))
              && (w.status == Completed ==> w.value == olds && w.log == [])
    decreases |olds|
  {
    if olds != [] && ShouldIgnore(olds[0], opts) {
      RemovalCompletes(olds[1..], opts);
      assert [olds[0]] + olds[1..] == olds;
      forall i | 0 < i < |olds| ensures olds[i] == olds[1..][i - 1] {
      }
    }
  }

  /** `w` is the outcome of removing the first live child that is not
      ignored, `olds[k]`, and nothing else. */
  ghost predicate RemovesFirstUnignored(olds: seq<Node>, opts: Options, w: Patched<seq<Node>>, k: int) {
    && 0 <= k < |olds| && !ShouldIgnore(olds[k], opts)
    && (forall i :: 0 <= i < k ==> ShouldIgnore(olds[i], opts))
    && w.value == olds[..k] + olds[k + 1..]
    && w.log == [RemoveChild(olds[k])]
  }

  /** Otherwise the first live child that is not ignored is removed, and the
      run fails on the next step with everything else still in place. */
  lemma {:induction false} RemovalFails(olds: seq<Node>, opts: Options)
    ensures var w := ReconciledChildren(olds, [], opts);
              w.status == NotFoundError ==> exists k :: RemovesFirstUnignored(olds, opts, w, k)
    decreases |olds|
  {
    var w := ReconciledChildren(olds, [], opts);
    if olds == [] {
    } else if ShouldIgnore(olds[0], opts) {
      RemovalFails(olds[1..], opts);
      var rest := ReconciledChildren(olds[1..], [], opts);
      assert w == Prefixed([olds[0]], [], rest);
      if rest.status == NotFoundError {
        var k :| RemovesFirstUnignored(olds[1..], opts, rest, k);
        ShiftRemoved(olds, opts, rest, k);
      }
    } else {
      assert olds[..0] + olds[1..] == olds[1..];
      assert RemovesFirstUnignored(olds, opts, w, 0);
    }
  }

  /** Keeping an ignored head in front of a run that removed entry `k` of the
      tail is a run that removed entry `k + 1`. */
  lemma ShiftRemoved(olds: seq<Node>, opts: Options, rest: Patched<seq<Node>>, k: nat)
    requires olds != [] && ShouldIgnore(olds[0], opts)
    requires RemovesFirstUnignored(olds[1..], opts, rest, k)
    ensures RemovesFirstUnignored(olds, opts, Prefixed([olds[0]], [], rest), k + 1)
  {
    var tail := olds[1..];
    assert olds[k + 1] == tail[k];
    forall i | 0 < i < k + 1 ensures ShouldIgnore(olds[i], opts) {
      assert olds[i] == tail[i - 1];
    }
    assert [olds[0]] + (tail[..k] + tail[k + 1..]) == olds[..k + 1] + olds[k + 2..];
    assert [] + rest.log == rest.log;
  }

  /** Against an empty live list every source child that is not ignored is
      appended, in order, as a clone equal to it. */
  lemma {:induction false} AppendsRemainder(news: seq<Node>, opts: Options)
    ensures var w := ReconciledChildren([], news, opts);
              && w.status == Completed && w.value == Unignored(news, opts)
              && |w.log| == |w.value| && forall i :: 0 <= i < |w.log| ==> w.log[i] == AppendChild(w.value[i])
    decreases |news|
  {
    if news != [] {
      AppendsRemainder(news[1..], opts);
      var rest := ReconciledChildren([], news[1..], opts);
      var w := ReconciledChildren([], news, opts);
      if !ShouldIgnore(news[0], opts) {
        var c := news[0];
        assert w == Prefixed([c], [AppendChild(c)], rest);
        assert Unignored(news, opts) == [c] + Unignored(news[1..], opts);
        forall i | 0 < i < |w.log| ensures w.log[i] == AppendChild(w.value[i]) {
          assert w.log[i] == rest.log[i - 1] && w.value[i] == rest.value[i - 1];
        }
      }
    }
  }

  /** The source children an ignore selector does not exclude, in order. */
  function Unignored(ns: seq<Node>, opts: Options): (r: seq<Node>)
    ensures forall i :: 0 <= i < |r| ==> r[i] in ns && !ShouldIgnore(r[i], opts)
    ensures forall i :: 0 <= i < |ns| && !ShouldIgnore(ns[i], opts) ==> ns[i] in r
  {
    if ns == [] then []
    else if ShouldIgnore(ns[0], opts) then Unignored(ns[1..], opts)
    else [ns[0]] + Unignored(ns[1..], opts)
  }

  // ---------------------------------------------------------------------------
  // Ignored live children

  /** The live children an ignore selector matches, in order. */
  function Ignored(ns: seq<Node>, opts: Options): (r: seq<Node>)
    ensures forall i :: 0 <= i < |r| ==> r[i] in ns && ShouldIgnore(r[i], opts)
    ensures forall i :: 0 <= i < |ns| && ShouldIgnore(ns[i], opts) ==> ns[i] in r
  {
    if ns == [] then []
    else if ShouldIgnore(ns[0], opts) then [ns[0]] + Ignored(ns[1..], opts)
    else Ignored(ns[1..], opts)
  }

  lemma {:induction false} IgnoredWithin(ns: seq<Node>, opts: Options)
    ensures multiset(Ignored(ns, opts)) <= multiset(ns)
  {
    if ns != [] {
      IgnoredWithin(ns[1..], opts);
      assert ns == [ns[0]] + ns[1..];
    }
  }

  /** Every ignored live child is still a child afterwards, unchanged, as
      many times as it was there, whether the run completes or fails. */
  lemma {:induction false} IgnoredKept(olds: seq<Node>, news: seq<Node>, opts: Options)
    ensures multiset(Ignored(olds, opts)) <= multiset(ReconciledChildren(olds, news, opts).value)
    decreases Sizes(news), |olds|
  {
    var w := ReconciledChildren(olds, news, opts);
    if olds == [] {
    } else if news == [] {
      if ShouldIgnore(olds[0], opts) {
        IgnoredKept(olds[1..], [], opts);
      } else {
        IgnoredWithin(olds[1..], opts);
      }
    } else if IsSameNode(olds[0], news[0]) {
      var u := ReconciledChild(olds[0], news[0], opts);
      if u.status != Completed {
        IgnoredWithin(olds[1..], opts);
        assert w.value == [u.value] + olds[1..];
      } else {
        IgnoredKept(olds[1..], news[1..], opts);
        assert w.value == [u.value] + ReconciledChildren(olds[1..], news[1..], opts).value;
      }
    } else if ShouldIgnore(olds[0], opts) {
      IgnoredKept(olds[1..], news, opts);
    } else if ShouldIgnore(news[0], opts) {
      IgnoredKept(olds, news[1..], opts);
    } else {
      IgnoredKept(olds, news[1..], opts);
      assert w.value == [news[0]] + ReconciledChildren(olds, news[1..], opts).value;
    }
  }

  // ---------------------------------------------------------------------------
  // The writes a run issues

  /** `n` is the tree `t` or a node inside it. */
  ghost predicate Within(n: Node, t: Node)
    decreases t
  {
    n == t || (t.Element? && exists i :: 0 <= i < |t.children| && Within(n, t.children[i]))
  }

  ghost predicate InForest(n: Node, forest: seq<Node>) {
    exists i :: 0 <= i < |forest| && Within(n, forest[i])
  }

  /** A write the options allow: nodes are appended or inserted only as
      copies of source nodes, never of ignored ones; only live nodes that are
      not ignored are removed; text is rewritten only when there is no
      `update` list. */
  ghost predicate Allowed(m: Mutation, olds: seq<Node>, news: seq<Node>, opts: Options) {
    && ((m.AppendChild? || m.InsertBefore?) ==> !ShouldIgnore(m.node, opts) && InForest(m.node, news))
    && (m.RemoveChild? ==> !ShouldIgnore(m.node, opts) && InForest(m.node, olds))
    && (m.SetNodeValue? ==> opts.update == [])
  }

  lemma {:induction false} ChildrenWrites(olds: seq<Node>, news: seq<Node>, opts: Options)
    ensures forall m :: m in ReconciledChildren(olds, news, opts).log ==> Allowed(m, olds, news, opts)
    decreases Sizes(news), |olds|
  {
    var w := ReconciledChildren(olds, news, opts);
    if olds == [] && news == [] {
    } else if olds == [] {
      ChildrenWrites([], news[1..], opts);
      forall m | m in ReconciledChildren([], news[1..], opts).log ensures Allowed(m, olds, news, opts) {
        AllowedWiden(m, [], news[1..], olds, news, opts);
      }
      assert Within(news[0], news[0]);
    } else if news == [] {
      if ShouldIgnore(olds[0], opts) {
        ChildrenWrites(olds[1..], [], opts);
        forall m | m in ReconciledChildren(olds[1..], [], opts).log ensures Allowed(m, olds, news, opts) {
          AllowedWiden(m, olds[1..], [], olds, news, opts);
        }
      } else {
        assert Within(olds[0], olds[0]);
      }
    } else if IsSameNode(olds[0], news[0]) {
      ChildWrites(olds[0], news[0], opts);
      ChildrenWrites(olds[1..], news[1..], opts);
      forall m | m in ReconciledChild(olds[0], news[0], opts).log ensures Allowed(m, olds, news, opts) {
        AllowedWiden(m, [olds[0]], [news[0]], olds, news, opts);
      }
      forall m | m in ReconciledChildren(olds[1..], news[1..], opts).log ensures Allowed(m, olds, news, opts) {
        AllowedWiden(m, olds[1..], news[1..], olds, news, opts);
      }
    } else if ShouldIgnore(olds[0], opts) {
      ChildrenWrites(olds[1..], news, opts);
      forall m | m in ReconciledChildren(olds[1..], news, opts).log ensures Allowed(m, olds, news, opts) {
        AllowedWiden(m, olds[1..], news, olds, news, opts);
      }
    } else {
      ChildrenWrites(olds, news[1..], opts);
      forall m | m in ReconciledChildren(olds, news[1..], opts).log ensures Allowed(m, olds, news, opts) {
        AllowedWiden(m, olds, news[1..], olds, news, opts);
      }
      assert Within(news[0], news[0]);
    }
  }

  lemma {:induction false} ChildWrites(live: Node, src: Node, opts: Options)
    requires IsSameNode(live, src)
    ensures forall m :: m in ReconciledChild(live, src, opts).log ==> Allowed(m, [live], [src], opts)
    decreases Size(src), 0
  {
    if !ShouldIgnore(live, opts) && ShouldUpdate(live, opts) && live.Element? {
      var a := Merged(live.attrs, src.attrs);
      MergedWritesAttributes(live.attrs, src.attrs);
      ChildrenWrites(live.children, src.children, opts);
      forall m | m in ReconciledChildren(live.children, src.children, opts).log
        ensures Allowed(m, [live], [src], opts)
      {
        if m.AppendChild? || m.InsertBefore? || m.RemoveChild? {
          var forest := if m.RemoveChild? then live.children else src.children;
          var k :| 0 <= k < |forest| && Within(m.node, forest[k]);
          assert Within(m.node, [if m.RemoveChild? then live else src][0]);
        }
      }
    }
  }

  /** A write allowed for sub-lists of the live and source children is
      allowed for the whole lists. */
  lemma AllowedWiden(m: Mutation, olds: seq<Node>, news: seq<Node>, olds': seq<Node>, news': seq<Node>, opts: Options)
    requires Allowed(m, olds, news, opts)
    requires forall i :: 0 <= i < |olds| ==> olds[i] in olds'
    requires forall i :: 0 <= i < |news| ==> news[i] in news'
    ensures Allowed(m, olds', news', opts)
  {
    if m.AppendChild? || m.InsertBefore? {
      var k :| 0 <= k < |news| && Within(m.node, news[k]);
      var k' :| 0 <= k' < |news'| && news'[k'] == news[k];
    }
    if m.RemoveChild? {
      var k :| 0 <= k < |olds| && Within(m.node, olds[k]);
      var k' :| 0 <= k' < |olds'| && olds'[k'] == olds[k];
    }
  }

  /** The attribute merge writes attributes only. */
  lemma MergedWritesAttributes(live: seq<Attr>, src: seq<Attr>)
    ensures forall m :: m in Merged(live, src).log ==> m.SetAttribute? || m.RemoveAttribute?
  {
    PrunedLog(live, src);
    AssignedWritesAttributes(Pruned(live, src).attrs, src);
  }

  lemma {:induction false} AssignedWritesAttributes(cur: seq<Attr>, src: seq<Attr>)
    ensures forall m :: m in Assigned(cur, src).log ==> m.SetAttribute?
    decreases |src|
  {
    if src != [] {
      var a := src[0];
      var next := if GetAttribute(cur, a.name) != Some(a.value) then Assign(cur, a.name, a.value) else cur;
      AssignedWritesAttributes(next, src[1..]);
    }
  }

  // ---------------------------------------------------------------------------
  // Same-node pairs and the entry point

  /** What updateChild does to each kind of same-node pair: an ignored or
      unselected node is left alone; a comment is never changed; a text node
      takes the source's text, with one write exactly when the text differs. */
  lemma SameNodePairs(live: Node, src: Node, opts: Options)
    requires IsSameNode(live, src)
    ensures var u := ReconciledChild(live, src, opts);
              && (ShouldIgnore(live, opts) || !ShouldUpdate(live, opts) ==> u == Patched(live, [], Completed))
              && (live.Comment? ==> u == Patched(live, [], Completed))
              && (live.Text? && opts.update == [] ==>
                    && u.status == Completed && u.value == src
                    && (u.log == [] <==> live.value == src.value)
                    && (u.log != [] ==> u.log == [SetNodeValue(src.value)]))
              && (live.Text? && opts.update != [] ==> u == Patched(live, [], Completed))
  {
  }

  /** The two modes of update. Collapsing onto an ignored root reconciles
      the root's children only; collapsing onto any other root also merges
      the attributes of the parsed root into it. */
  lemma RootModes(element: Node, parsed: seq<Node>, opts: Options)
    requires element.Element? && Unique(element.attrs)
    ensures CollapsesRoot(element, parsed) && ShouldIgnore(element, opts) ==>
              Reconciled(element, parsed, opts) == ReconciledChildList(element, ElementChildren(parsed)[0].children, opts)
    ensures CollapsesRoot(element, parsed) && !ShouldIgnore(element, opts) && Unique(ElementChildren(parsed)[0].attrs) ==>
              forall k: string :: GetAttribute(Reconciled(element, parsed, opts).value.attrs, k) ==
                                  MergeRule(k, element.attrs, ElementChildren(parsed)[0].attrs)
    ensures !CollapsesRoot(element, parsed) ==> Reconciled(element, parsed, opts) == ReconciledChildList(element, parsed, opts)
  {
    if CollapsesRoot(element, parsed) && !ShouldIgnore(element, opts) && Unique(ElementChildren(parsed)[0].attrs) {
      MergedLookup(element.attrs, ElementChildren(parsed)[0].attrs);
    }
  }
}
