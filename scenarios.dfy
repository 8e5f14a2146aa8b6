/**
  Concrete runs of update on small trees. Each live root is given with the
  child list the markup parses into (the children of the `<div>` wrapper).
*/
module Scenarios {
  import opened Dom
  import opened Policy
  import opened Reconcile
  import opened Properties

  function NoSelectors(): Options {
    Options([], [], (n: Node, s: Selector) => false)
  }

  /** The matcher for the single class selector `.skip`. */
  function SkipClass(): Options {
    Options([], [".skip"], (n: Node, s: Selector) => s == ".skip" && n.Element? && Attr("class", "skip") in n.attrs)
  }

  /** `<ul><li>x</li></ul>` updated with `<ul><li>x</li><li>y</li></ul>`:
      one clone of the second item is appended and nothing else is written. */
  lemma AppendOneItem()
    ensures var x := Element("LI", [], [Text("x")]);
            var y := Element("LI", [], [Text("y")]);
            var live := Element("UL", [], [x]);
            var r := Reconciled(live, [Element("UL", [], [x, y])], NoSelectors());
            r == Patched(Element("UL", [], [x, y]), [AppendChild(y)], Completed)
  {
    var x := Element("LI", [], [Text("x")]);
    var y := Element("LI", [], [Text("y")]);
    var live := Element("UL", [], [x]);
    var src := Element("UL", [], [x, y]);
    assert ElementChildren([src]) == [src] by {
      assert [src][1..] == [];
    }
    ChildIdempotent(x, NoSelectors());
    assert [x, y][1..] == [y] && [y][1..] == [] && [x][1..] == [];
    assert ReconciledChildren([], [], NoSelectors()) == Patched([], [], Completed);
    assert [y] + [] == [y] && [AppendChild(y)] + [] == [AppendChild(y)];
    assert ReconciledChildren([], [y], NoSelectors()) == Patched([y], [AppendChild(y)], Completed);
    assert [x] + [y] == [x, y] && [] + [AppendChild(y)] == [AppendChild(y)];
    assert ReconciledChildren([x], [x, y], NoSelectors()) == Patched([x, y], [AppendChild(y)], Completed);
  }

  /** `<p class="a">t</p>` updated with `<p class="b">t</p>`: the class is
      set to `b`; the text node is kept as it is. */
  lemma ChangeClass()
    ensures var live := Element("P", [Attr("class", "a")], [Text("t")]);
            var r := Reconciled(live, [Element("P", [Attr("class", "b")], [Text("t")])], NoSelectors());
            r == Patched(Element("P", [Attr("class", "b")], [Text("t")]), [SetAttribute("class", "b")], Completed)
  {
    var src := Element("P", [Attr("class", "b")], [Text("t")]);
    assert ElementChildren([src]) == [src] by {
      assert [src][1..] == [];
    }
    ChildrenIdempotent([Text("t")], NoSelectors());
    assert [Attr("class", "a")][1..] == [];
    assert AttributeMerge.Pruned([Attr("class", "a")], [Attr("class", "b")]) ==
           AttributeMerge.AttrPatch([Attr("class", "a")], []);
    assert Assign([Attr("class", "a")], "class", "b") == [Attr("class", "b")];
  }

  /** `<div><span>1</span></div>` updated with `<div><b>1</b></div>`: the
      `<b>` clone goes in before the `<span>`, the `<span>` is removed, and the
      walk then removes the `<span>` a second time, which fails. The live
      children at that point are already the source's. */
  lemma ReplaceDifferentTag()
    ensures var span := Element("SPAN", [], [Text("1")]);
            var b := Element("B", [], [Text("1")]);
            var live := Element("DIV", [], [span]);
            var r := Reconciled(live, [Element("DIV", [], [b])], NoSelectors());
            r == Patched(Element("DIV", [], [b]), [InsertBefore(b), RemoveChild(span)], NotFoundError)
  {
    var span := Element("SPAN", [], [Text("1")]);
    var b := Element("B", [], [Text("1")]);
    var src := Element("DIV", [], [b]);
    assert ElementChildren([src]) == [src] by {
      assert [src][1..] == [];
    }
    assert [b][1..] == [] && [span][1..] == [];
    assert ReconciledChildren([span], [], NoSelectors()) == Patched([], [RemoveChild(span)], NotFoundError);
    assert !IsSameNode(span, b);
    assert [b] + [] == [b] && [InsertBefore(b)] + [RemoveChild(span)] == [InsertBefore(b), RemoveChild(span)];
    assert ReconciledChildren([span], [b], NoSelectors()) == Patched([b], [InsertBefore(b), RemoveChild(span)], NotFoundError);
  }

  /** `<div data-x="1"><span class="skip">old</span></div>` updated with
      `<div data-x="2"><span class="skip">new</span></div>` and ignore
      `.skip`: `data-x` becomes 2 and the ignored span keeps its text. */
  lemma IgnoredChildKeepsText()
    ensures var live := Element("DIV", [Attr("data-x", "1")], [Element("SPAN", [Attr("class", "skip")], [Text("old")])]);
            var src := Element("DIV", [Attr("data-x", "2")], [Element("SPAN", [Attr("class", "skip")], [Text("new")])]);
            var r := Reconciled(live, [src], SkipClass());
            r == Patched(Element("DIV", [Attr("data-x", "2")], live.children), [SetAttribute("data-x", "2")], Completed)
  {
    var oldSpan := Element("SPAN", [Attr("class", "skip")], [Text("old")]);
    var newSpan := Element("SPAN", [Attr("class", "skip")], [Text("new")]);
    var live := Element("DIV", [Attr("data-x", "1")], [oldSpan]);
    var src := Element("DIV", [Attr("data-x", "2")], [newSpan]);
    assert ElementChildren([src]) == [src] by {
      assert [src][1..] == [];
    }
    assert ShouldIgnore(oldSpan, SkipClass()) by {
      assert SkipClass().matches(oldSpan, SkipClass().ignore[0]);
    }
    assert !ShouldIgnore(live, SkipClass());
    assert [oldSpan][1..] == [] && [newSpan][1..] == [];
    assert ReconciledChild(oldSpan, newSpan, SkipClass()) == Patched(oldSpan, [], Completed);
    assert ReconciledChildren([], [], SkipClass()) == Patched([], [], Completed);
    assert [oldSpan] + [] == [oldSpan];
    assert ReconciledChildren([oldSpan], [newSpan], SkipClass()) == Patched([oldSpan], [], Completed);
    assert GetAttribute([Attr("data-x", "2")], "data-x") == Some("2");
    assert AttributeMerge.Pruned([Attr("data-x", "1")], [Attr("data-x", "2")]).attrs == [Attr("data-x", "1")];
    assert Assign([Attr("data-x", "1")], "data-x", "2") == [Attr("data-x", "2")];
  }

  /** Ignore selectors are tested on the live node only. The live child
      `<div>` is not ignored, so the source child `<div class="skip">x</div>`,
      which the selector matches, has its attribute and its text copied in. */
  lemma IgnoredSourceCopiedIn()
    ensures var live := Element("SECTION", [], [Element("DIV", [], [])]);
            var src := Element("DIV", [Attr("class", "skip")], [Text("x")]);
            var r := Reconciled(live, [src], SkipClass());
            r == Patched(Element("SECTION", [], [src]), [SetAttribute("class", "skip"), AppendChild(Text("x"))], Completed)
  {
    var plain := Element("DIV", [], []);
    var src := Element("DIV", [Attr("class", "skip")], [Text("x")]);
    var live := Element("SECTION", [], [plain]);
    assert ElementChildren([src]) == [src] by {
      assert [src][1..] == [];
    }
    assert !CollapsesRoot(live, [src]);
    assert !ShouldIgnore(plain, SkipClass());
    assert ShouldIgnore(src, SkipClass()) by {
      assert SkipClass().matches(src, SkipClass().ignore[0]);
    }
    assert [Attr("class", "skip")][1..] == [] && [Text("x")][1..] == [] && [src][1..] == [];
    assert AttributeMerge.Merged([], [Attr("class", "skip")]) ==
           AttributeMerge.AttrPatch([Attr("class", "skip")], [SetAttribute("class", "skip")]);
    assert ReconciledChildren([], [], SkipClass()) == Patched([], [], Completed);
    assert !ShouldIgnore(Text("x"), SkipClass());
    assert [Text("x")] + [] == [Text("x")] && [AppendChild(Text("x"))] + [] == [AppendChild(Text("x"))];
    assert ReconciledChildren([], [Text("x")], SkipClass()) == Patched([Text("x")], [AppendChild(Text("x"))], Completed);
    assert ReconciledChild(plain, src, SkipClass()) ==
           Patched(src, [SetAttribute("class", "skip"), AppendChild(Text("x"))], Completed);
    assert [src] + [] == [src];
    assert ReconciledChildren([plain], [src], SkipClass()) ==
           Patched([src], [SetAttribute("class", "skip"), AppendChild(Text("x"))], Completed);
  }

  /** Update selectors do not gate the root: in collapse mode the root's
      attributes are merged even though no selector matches it. */
  lemma RootMergedDespiteUpdate()
    ensures var opts := Options([".none"], [], (n: Node, s: Selector) => false);
            var live := Element("P", [Attr("class", "a")], [Text("t")]);
            var r := Reconciled(live, [Element("P", [Attr("class", "b")], [Text("t")])], opts);
            !ShouldUpdate(live, opts) &&
            r == Patched(Element("P", [Attr("class", "b")], [Text("t")]), [SetAttribute("class", "b")], Completed)
  {
    var opts := Options([".none"], [], (n: Node, s: Selector) => false);
    var src := Element("P", [Attr("class", "b")], [Text("t")]);
    assert ElementChildren([src]) == [src] by {
      assert [src][1..] == [];
    }
    ChildrenIdempotent([Text("t")], opts);
    assert [Attr("class", "a")][1..] == [];
    assert AttributeMerge.Pruned([Attr("class", "a")], [Attr("class", "b")]) ==
           AttributeMerge.AttrPatch([Attr("class", "a")], []);
    assert Assign([Attr("class", "a")], "class", "b") == [Attr("class", "b")];
  }
}
