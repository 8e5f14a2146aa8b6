/**
  The part of the host document model that the reconciler touches: nodes of
  three kinds, an element's ordered attribute list, the attribute primitives
  (getAttribute, hasAttribute, setAttribute, removeAttribute), the child-list
  primitives (appendChild, insertBefore, removeChild) and a log of the writes
  the reconciler issues.
*/
module Dom {

  datatype Option<T> = None | Some(value: T)

  /** One entry of an element's attribute list. */
  datatype Attr = Attr(name: string, value: string)

  /** A node of either tree. Only elements carry attributes and children. */
  datatype Node =
    | Element(tag: string, attrs: seq<Attr>, children: seq<Node>)
    | Text(value: string)
    | Comment(value: string)

  const ELEMENT_NODE: int := 1
  const TEXT_NODE: int := 3
  const COMMENT_NODE: int := 8

  function NodeType(n: Node): int {
    match n
    case Element(_, _, _) => ELEMENT_NODE
    case Text(_) => TEXT_NODE
    case Comment(_) => COMMENT_NODE
  }

  /** An element's nodeName is its tag name; text and comments have fixed names. */
  function NodeName(n: Node): string {
    match n
    case Element(tag, _, _) => tag
    case Text(_) => "#text"
    case Comment(_) => "#comment"
  }

  /** Every write the reconciler can issue against the live tree. */
  datatype Mutation =
    | SetAttribute(name: string, value: string)
    | RemoveAttribute(name: string)
    | SetNodeValue(value: string)
    | AppendChild(node: Node)
    | InsertBefore(node: Node)
    | RemoveChild(node: Node)

  // ---------------------------------------------------------------------------
  // Attribute lists

  /** An element never holds two attributes with the same name. */
  predicate Unique(attrs: seq<Attr>) {
    forall i, j :: 0 <= i < j < |attrs| ==> attrs[i].name != attrs[j].name
  }

  /** The host invariant on a whole tree: attribute names are unique at every element. */
  predicate WellFormed(n: Node) {
    match n
    case Element(_, attrs, kids) =>
      Unique(attrs) && forall i :: 0 <= i < |kids| ==> WellFormed(kids[i])
    case _ => true
  }

  predicate AllWellFormed(ns: seq<Node>) {
    forall i :: 0 <= i < |ns| ==> WellFormed(ns[i])
  }

  /** getAttribute: the value of the first attribute with this name, if any. */
  function GetAttribute(attrs: seq<Attr>, name: string): (r: Option<string>)
    ensures r.Some? ==> Attr(name, r.value) in attrs
    ensures r.None? <==> forall i :: 0 <= i < |attrs| ==> attrs[i].name != name
  {
    if attrs == [] then None
    else if attrs[0].name == name then Some(attrs[0].value)
    else GetAttribute(attrs[1..], name)
  }

  /** hasAttribute: some entry carries the name. */
  function HasAttribute(attrs: seq<Attr>, name: string): (r: bool)
    ensures r <==> exists i :: 0 <= i < |attrs| && attrs[i].name == name
  {
    GetAttribute(attrs, name).Some?
  }

  /** The effect of setAttribute: the value of an existing entry is replaced in
      place, a new name is appended at the end. */
  function Assign(attrs: seq<Attr>, name: string, value: string): (r: seq<Attr>)
    ensures GetAttribute(r, name) == Some(value)
    ensures forall k :: k != name ==> GetAttribute(r, k) == GetAttribute(attrs, k)
    ensures Unique(attrs) ==> Unique(r)
  {
    if attrs == [] then [Attr(name, value)]
    else if attrs[0].name == name then [Attr(name, value)] + attrs[1..]
    else
      var rest := Assign(attrs[1..], name, value);
      UniqueCons(attrs[0], attrs[1..]);
      UniqueCons(attrs[0], rest);
      [attrs[0]] + rest
  }

  /** The effect of removeAttribute: the first entry with this name is dropped. */
  function Erase(attrs: seq<Attr>, name: string): (r: seq<Attr>)
    ensures Unique(attrs) ==> GetAttribute(r, name).None? && Unique(r)
    ensures forall k :: k != name ==> GetAttribute(r, k) == GetAttribute(attrs, k)
  {
    if attrs == [] then []
    else if attrs[0].name == name then attrs[1..]
    else
      var rest := Erase(attrs[1..], name);
      UniqueCons(attrs[0], attrs[1..]);
      UniqueCons(attrs[0], rest);
      [attrs[0]] + rest
  }

  lemma UniqueCons(a: Attr, rest: seq<Attr>)
    ensures Unique([a] + rest) <==> Unique(rest) && GetAttribute(rest, a.name).None?
  {
    var s := [a] + rest;
    if Unique(s) {
      forall i, j | 0 <= i < j < |rest| ensures rest[i].name != rest[j].name {
        assert s[i + 1] == rest[i] && s[j + 1] == rest[j];
      }
      forall i | 0 <= i < |rest| ensures rest[i].name != a.name {
        assert s[0] == a && s[i + 1] == rest[i];
      }
    }
    if Unique(rest) && GetAttribute(rest, a.name).None? {
      forall i, j | 0 <= i < j < |s| ensures s[i].name != s[j].name {
        if i > 0 { assert s[i] == rest[i - 1]; }
        assert s[j] == rest[j - 1];
      }
    }
  }

  /** Removing the first occurrence of a name that does not occur before
      position |front| removes exactly that position. */
  lemma {:induction false} EraseAt(front: seq<Attr>, a: Attr, back: seq<Attr>)
    requires forall i :: 0 <= i < |front| ==> front[i].name != a.name
    ensures Erase(front + [a] + back, a.name) == front + back
  {
    if front != [] {
      assert (front + [a] + back)[1..] == front[1..] + [a] + back;
      EraseAt(front[1..], a, back);
    }
  }

  // ---------------------------------------------------------------------------
  // Child lists

  /** A slot of the child list being walked: a child present in the snapshot
      taken before the walk (by its position in that snapshot) or a node
      created during the walk. */
  datatype ChildRef = Snapshot(index: nat) | Fresh(node: Node)

  /** Every snapshot reference points into a store of `n` nodes. */
  predicate InStore(kids: seq<ChildRef>, n: nat) {
    forall i :: 0 <= i < |kids| ==> (kids[i].Snapshot? ==> kids[i].index < n)
  }

  /** The nodes a child list of references stands for. */
  function Resolve(kids: seq<ChildRef>, store: seq<Node>): (r: seq<Node>)
    requires InStore(kids, |store|)
    ensures |r| == |kids|
    ensures forall i :: 0 <= i < |kids| ==>
              r[i] == (match kids[i] case Snapshot(j) => store[j] case Fresh(c) => c)
  {
    if kids == [] then []
    else
      [match kids[0] case Snapshot(j) => store[j] case Fresh(c) => c] + Resolve(kids[1..], store)
  }

  /** The first position of `r` in `kids`, if it is there. */
  function IndexOf(kids: seq<ChildRef>, r: ChildRef): (k: Option<nat>)
    ensures k.Some? ==> k.value < |kids| && kids[k.value] == r
                        && forall i :: 0 <= i < k.value ==> kids[i] != r
    ensures k.None? ==> forall i :: 0 <= i < |kids| ==> kids[i] != r
  {
    if kids == [] then None
    else if kids[0] == r then Some(0)
    else match IndexOf(kids[1..], r)
      case None => None
      case Some(k) => Some(k + 1)
  }

  /** removeChild: fails (NotFoundError) when the node is not a child. */
  function RemoveFrom(kids: seq<ChildRef>, child: ChildRef): (r: Option<seq<ChildRef>>)
    ensures r.None? <==> child !in kids
    ensures r.Some? ==> exists k :: 0 <= k < |kids| && kids[k] == child && r.value == kids[..k] + kids[k + 1..]
  {
    match IndexOf(kids, child)
    case None => None
    case Some(k) => Some(kids[..k] + kids[k + 1..])
  }

  /** insertBefore: the reference node must be a child (the host throws
      NotFoundError otherwise); the new node goes right before it. */
  function InsertInto(kids: seq<ChildRef>, node: ChildRef, reference: ChildRef): (r: seq<ChildRef>)
    requires reference in kids
    ensures exists k :: 0 <= k < |kids| && kids[k] == reference && r == kids[..k] + [node] + kids[k..]
  {
    var k := IndexOf(kids, reference).value;
    kids[..k] + [node] + kids[k..]
  }

  /** The child list as the snapshot saw it from position `from` on. */
  function Snapshots(from: nat, to: nat): (r: seq<ChildRef>)
    requires from <= to
    ensures |r| == to - from
    ensures forall i :: 0 <= i < |r| ==> r[i] == Snapshot(from + i)
  {
    seq(to - from, i requires 0 <= i < to - from => Snapshot(from + i))
  }

  lemma SnapshotsCons(from: nat, to: nat)
    requires from < to
    ensures Snapshots(from, to) == [Snapshot(from)] + Snapshots(from + 1, to)
  {
  }

  lemma ResolveAppend(a: seq<ChildRef>, b: seq<ChildRef>, store: seq<Node>)
    requires InStore(a, |store|) && InStore(b, |store|)
    ensures InStore(a + b, |store|)
    ensures Resolve(a + b, store) == Resolve(a, store) + Resolve(b, store)
  {
    assert forall i :: 0 <= i < |a + b| ==> (a + b)[i] == if i < |a| then a[i] else b[i - |a|];
  }

  lemma {:induction false} ResolveSnapshots(lo: nat, hi: nat, store: seq<Node>)
    requires lo <= hi <= |store|
    ensures InStore(Snapshots(lo, hi), |store|)
    ensures Resolve(Snapshots(lo, hi), store) == store[lo..hi]
    decreases hi - lo
  {
    if lo < hi {
      var s := Snapshots(lo, hi);
      SnapshotsCons(lo, hi);
      assert s[1..] == Snapshots(lo + 1, hi);
      ResolveSnapshots(lo + 1, hi, store);
      assert Resolve(s, store) == [store[lo]] + Resolve(s[1..], store);
      assert store[lo..hi] == [store[lo]] + store[lo + 1..hi];
    }
  }

  /** Changing a store entry that no reference points to changes nothing. */
  lemma ResolveUnaffected(kids: seq<ChildRef>, store: seq<Node>, k: nat, x: Node)
    requires InStore(kids, k) && k < |store|
    ensures InStore(kids, |store|)
    ensures Resolve(kids, store[k := x]) == Resolve(kids, store)
  {
  }

  /** In the list `done + Snapshots(i, n)`, where `done` refers only to
      entries before `i`, entry `i` sits right after `done`. */
  lemma IndexAtSlot(done: seq<ChildRef>, i: nat, n: nat)
    requires InStore(done, i) && i < n
    ensures IndexOf(done + Snapshots(i, n), Snapshot(i)) == Some(|done|)
  {
    var kids := done + Snapshots(i, n);
    assert kids[|done|] == Snapshot(i);
    forall k | 0 <= k < |done| ensures kids[k] != Snapshot(i) {
      assert kids[k] == done[k];
    }
  }

  /** insertBefore the snapshot entry `i` puts the node right after `done`. */
  lemma InsertAtSlot(done: seq<ChildRef>, i: nat, n: nat, node: ChildRef)
    requires InStore(done, i) && i < n
    ensures Snapshot(i) in done + Snapshots(i, n)
    ensures InsertInto(done + Snapshots(i, n), node, Snapshot(i)) == done + [node] + Snapshots(i, n)
  {
    var kids := done + Snapshots(i, n);
    IndexAtSlot(done, i, n);
    assert kids[..|done|] == done && kids[|done|..] == Snapshots(i, n);
  }

  /** removeChild of the snapshot entry `i` leaves `done` and the entries after `i`. */
  lemma RemoveAtSlot(done: seq<ChildRef>, i: nat, n: nat)
    requires InStore(done, i) && i < n
    ensures RemoveFrom(done + Snapshots(i, n), Snapshot(i)) == Some(done + Snapshots(i + 1, n))
  {
    var kids := done + Snapshots(i, n);
    IndexAtSlot(done, i, n);
    assert kids[..|done|] == done && kids[|done| + 1..] == Snapshots(i + 1, n);
  }

  /** Once entry `i` has been removed, removing it again fails. */
  lemma RemoveDetached(done: seq<ChildRef>, i: nat, n: nat)
    requires InStore(done, i) && i < n
    ensures RemoveFrom(done + Snapshots(i + 1, n), Snapshot(i)) == None
  {
    var kids := done + Snapshots(i + 1, n);
    forall k | 0 <= k < |kids| ensures kids[k] != Snapshot(i) {
      if k < |done| { assert kids[k] == done[k]; }
    }
  }

  // ---------------------------------------------------------------------------
  // Size, used as a termination measure for the recursive walk

  function Size(n: Node): (s: nat)
    ensures s >= 1
  {
    match n
    case Element(_, _, kids) => 1 + Sizes(kids)
    case _ => 1
  }

  function Sizes(ns: seq<Node>): nat {
    if ns == [] then 0 else Size(ns[0]) + Sizes(ns[1..])
  }

  lemma {:induction false} ChildSmaller(ns: seq<Node>, i: nat)
    requires i < |ns|
    ensures Size(ns[i]) <= Sizes(ns)
  {
    if i > 0 {
      ChildSmaller(ns[1..], i - 1);
    }
  }
}
