/**
  The per-node decisions of the reconciler: which pairs count as the same
  node, which nodes the caller's `ignore` and `update` selector lists exclude
  or include, and the deep copy used to bring source nodes into the live tree.
  Selector matching belongs to the host; it is the `matches` predicate of
  the options.
*/
module Policy {
  import opened Dom

  type Selector = string

  /** The host's `element.matches(selector)`. */
  type Matcher = (Node, Selector) -> bool

  /** The `update` and `ignore` selector lists of one call, with the host's matcher. */
  datatype Options = Options(update: seq<Selector>, ignore: seq<Selector>, matches: Matcher)

  /** Some selector of the list matches the node (`list.some(s => node.matches(s))`). */
  predicate AnyMatch(n: Node, list: seq<Selector>, matches: Matcher) {
    exists i :: 0 <= i < |list| && matches(n, list[i])
  }

  /** isSameNode: same node type and same node name. */
  function IsSameNode(a: Node, b: Node): (r: bool)
    ensures r <==> || (a.Element? && b.Element? && a.tag == b.tag)
                   || (a.Text? && b.Text?)
                   || (a.Comment? && b.Comment?)
  {
    NodeType(a) == NodeType(b) && NodeName(a) == NodeName(b)
  }

  /** shouldIgnore: an element that matches one of the ignore selectors. */
  function ShouldIgnore(n: Node, opts: Options): (r: bool)
    ensures r ==> n.Element?
    ensures opts.ignore == [] ==> !r
  {
    NodeType(n) == ELEMENT_NODE && AnyMatch(n, opts.ignore, opts.matches)
  }

  /** shouldUpdate: no update selectors at all, or an element matching one. */
  function ShouldUpdate(n: Node, opts: Options): (r: bool)
    ensures opts.update == [] ==> r
    ensures opts.update != [] && !n.Element? ==> !r
  {
    |opts.update| == 0 || (NodeType(n) == ELEMENT_NODE && AnyMatch(n, opts.update, opts.matches))
  }

  /** cloneNode: a text node is recreated from its value; any other node is
      copied shallowly and its children are cloned one by one. The copy is
      structurally equal to the original. */
  function CloneNode(n: Node): (c: Node)
    ensures c == n
  {
    match n
    case Text(v) => Text(v)
    case Comment(v) => Comment(v)
    case Element(tag, attrs, kids) =>
      var copies := seq(|kids|, i requires 0 <= i < |kids| => CloneNode(kids[i]));
      assert copies == kids by {
        forall i | 0 <= i < |kids| ensures copies[i] == kids[i] {
          assert copies[i] == CloneNode(kids[i]);
        }
      }
      Element(tag, attrs, copies)
  }
}
