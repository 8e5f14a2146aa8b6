/**
  The attribute merge of one element pair. It runs in two passes:
  `Pruned` is the reverse pass that drops stale attributes, and `Assigned` is
  the forward pass that writes the source's values. Both passes return the
  resulting attribute list and the writes issued, in issue order. The lemmas
  state the result as a lookup rule (`MergeRule`) and say exactly which writes
  are issued.
*/
module AttributeMerge {
  import opened Dom

  /** Attribute list after a pass, with the writes the pass issued. */
  datatype AttrPatch = AttrPatch(attrs: seq<Attr>, log: seq<Mutation>)

  /** Names under the host-managed `data-` prefix are never removed. */
  predicate IsDataName(name: string) {
    "data-" <= name
  }

  /** A live attribute is removed when the source lacks it and it is not a
      `data-` attribute. */
  predicate Stale(name: string, src: seq<Attr>) {
    !HasAttribute(src, name) && !IsDataName(name)
  }

  /** The removal pass. It visits the live list from its last entry to its
      first, so the write for a later entry comes before the write for an
      earlier one. */
  function Pruned(live: seq<Attr>, src: seq<Attr>): (r: AttrPatch)
    ensures |r.attrs| + |r.log| == |live|
    ensures forall m :: m in r.log ==> m.RemoveAttribute?
  {
    if live == [] then AttrPatch([], [])
    else
      var rest := Pruned(live[1..], src);
      if Stale(live[0].name, src) then AttrPatch(rest.attrs, rest.log + [RemoveAttribute(live[0].name)])
      else AttrPatch([live[0]] + rest.attrs, rest.log)
  }

  /** The assignment pass. It visits the source list in order and sets an
      attribute only when the current value differs. */
  function Assigned(cur: seq<Attr>, src: seq<Attr>): (r: AttrPatch)
    ensures |r.log| <= |src|
    decreases |src|
  {
    if src == [] then AttrPatch(cur, [])
    else
      var a := src[0];
      var step :=
        if GetAttribute(cur, a.name) != Some(a.value)
        then AttrPatch(Assign(cur, a.name, a.value), [SetAttribute(a.name, a.value)])
        else AttrPatch(cur, []);
      var rest := Assigned(step.attrs, src[1..]);
      AttrPatch(rest.attrs, step.log + rest.log)
  }

  /** The whole merge: first the removal pass, then the assignment pass. */
  function Merged(live: seq<Attr>, src: seq<Attr>): (r: AttrPatch)
    ensures |r.log| <= |live| + |src|
  {
    var p := Pruned(live, src);
    var a := Assigned(p.attrs, src);
    AttrPatch(a.attrs, p.log + a.log)
  }

  /** The value a merged element has for `name`: the source's value if the
      source has it, else the live value if it is a `data-` attribute,
      else none. */
  function MergeRule(name: string, live: seq<Attr>, src: seq<Attr>): Option<string> {
    if HasAttribute(src, name) then GetAttribute(src, name)
    else if IsDataName(name) then GetAttribute(live, name)
    else None
  }

  // ---------------------------------------------------------------------------
  // The removal pass

  lemma {:induction false} PrunedLookup(live: seq<Attr>, src: seq<Attr>)
    ensures forall k: string :: GetAttribute(Pruned(live, src).attrs, k) ==
                        if Stale(k, src) then None else GetAttribute(live, k)
    ensures Unique(live) ==> Unique(Pruned(live, src).attrs)
  {
    if live != [] {
      var p := Pruned(live[1..], src);
      PrunedLookup(live[1..], src);
      UniqueCons(live[0], live[1..]);
      if !Stale(live[0].name, src) {
        UniqueCons(live[0], p.attrs);
        assert ([live[0]] + p.attrs)[1..] == p.attrs;
      }
    }
  }

  lemma {:induction false} PrunedLog(live: seq<Attr>, src: seq<Attr>)
    ensures forall m: Mutation :: m in Pruned(live, src).log <==>
              m.RemoveAttribute? && HasAttribute(live, m.name) && Stale(m.name, src)
  {
    if live != [] {
      PrunedLog(live[1..], src);
      forall k: string ensures HasAttribute(live, k) <==> k == live[0].name || HasAttribute(live[1..], k) {
      }
    }
  }

  /** The removal pass keeps the first part of the list as it is when the
      rest has been pruned: this is the reverse loop's invariant. */
  lemma PrunedStep(live: seq<Attr>, i: nat, src: seq<Attr>)
    requires i < |live|
    ensures Pruned(live[i..], src) ==
              var rest := Pruned(live[i + 1..], src);
              if Stale(live[i].name, src) then AttrPatch(rest.attrs, rest.log + [RemoveAttribute(live[i].name)])
              else AttrPatch([live[i]] + rest.attrs, rest.log)
  {
    assert live[i..][0] == live[i] && live[i..][1..] == live[i + 1..];
  }

  // ---------------------------------------------------------------------------
  // The assignment pass

  /** One step of the assignment pass from position `j`: this is the forward
      loop's invariant step. */
  lemma AssignedStep(cur: seq<Attr>, src: seq<Attr>, j: nat)
    requires j < |src|
    ensures Assigned(cur, src[j..]) ==
              var a := src[j];
              if GetAttribute(cur, a.name) != Some(a.value) then
                var rest := Assigned(Assign(cur, a.name, a.value), src[j + 1..]);
                AttrPatch(rest.attrs, [SetAttribute(a.name, a.value)] + rest.log)
              else Assigned(cur, src[j + 1..])
  {
    assert src[j..][0] == src[j] && src[j..][1..] == src[j + 1..];
  }

  /** The test of preserveParentAttributes, "missing, or present with
      another value", is the test of the assignment pass. */
  lemma MissingOrDifferent(attrs: seq<Attr>, name: string, value: string)
    ensures (!HasAttribute(attrs, name) || GetAttribute(attrs, name) != Some(value)) == (GetAttribute(attrs, name) != Some(value))
  {
  }

  lemma {:induction false} AssignedLookup(cur: seq<Attr>, src: seq<Attr>)
    requires Unique(src)
    ensures forall k: string :: GetAttribute(Assigned(cur, src).attrs, k) ==
                        if HasAttribute(src, k) then GetAttribute(src, k) else GetAttribute(cur, k)
    ensures Unique(cur) ==> Unique(Assigned(cur, src).attrs)
    decreases |src|
  {
    if src != [] {
      var a := src[0];
      UniqueCons(a, src[1..]);
      var next := if GetAttribute(cur, a.name) != Some(a.value) then Assign(cur, a.name, a.value) else cur;
      AssignedLookup(next, src[1..]);
      assert Assigned(cur, src).attrs == Assigned(next, src[1..]).attrs;
      forall k: string ensures GetAttribute(next, k) == if k == a.name then Some(a.value) else GetAttribute(cur, k) {
      }
    }
  }

  lemma {:induction false} AssignedLog(cur: seq<Attr>, src: seq<Attr>)
    requires Unique(src)
    ensures forall m: Mutation :: m in Assigned(cur, src).log <==>
              m.SetAttribute? && Attr(m.name, m.value) in src && GetAttribute(cur, m.name) != Some(m.value)
    decreases |src|
  {
    if src != [] {
      var a := src[0];
      UniqueCons(a, src[1..]);
      var next := if GetAttribute(cur, a.name) != Some(a.value) then Assign(cur, a.name, a.value) else cur;
      AssignedLog(next, src[1..]);
      forall m: Mutation | m.SetAttribute? && Attr(m.name, m.value) in src[1..]
        ensures GetAttribute(next, m.name) == GetAttribute(cur, m.name)
      {
        assert m.name != a.name;
      }
      assert src == [a] + src[1..];
    }
  }

  /** The assignment pass never introduces a second entry for a name. */
  lemma {:induction false} AssignedUnique(cur: seq<Attr>, src: seq<Attr>)
    requires Unique(cur)
    ensures Unique(Assigned(cur, src).attrs)
    decreases |src|
  {
    if src != [] {
      var a := src[0];
      var next := if GetAttribute(cur, a.name) != Some(a.value) then Assign(cur, a.name, a.value) else cur;
      AssignedUnique(next, src[1..]);
    }
  }

  /** When every source attribute already has its value, the assignment pass
      writes nothing. */
  lemma {:induction false} AssignedNoop(cur: seq<Attr>, src: seq<Attr>)
    requires forall i :: 0 <= i < |src| ==> GetAttribute(cur, src[i].name) == Some(src[i].value)
    ensures Assigned(cur, src) == AttrPatch(cur, [])
    decreases |src|
  {
    if src != [] {
      AssignedNoop(cur, src[1..]);
    }
  }

  /** Setting every attribute of a list onto itself changes nothing and issues
      no write. This is the pass `preserveParentAttributes(element, element)`
      performs. */
  lemma AssignedSelf(attrs: seq<Attr>)
    requires Unique(attrs)
    ensures Assigned(attrs, attrs) == AttrPatch(attrs, [])
  {
    forall i | 0 <= i < |attrs| ensures GetAttribute(attrs, attrs[i].name) == Some(attrs[i].value) {
      SelfLookup(attrs, i);
    }
    AssignedNoop(attrs, attrs);
  }

  lemma {:induction false} SelfLookup(attrs: seq<Attr>, i: nat)
    requires Unique(attrs) && i < |attrs|
    ensures GetAttribute(attrs, attrs[i].name) == Some(attrs[i].value)
  {
    if i > 0 {
      UniqueCons(attrs[0], attrs[1..]);
      SelfLookup(attrs[1..], i - 1);
    }
  }

  // ---------------------------------------------------------------------------
  // The merge as a whole

  /** After the merge every source attribute is present with the source's
      value, a live `data-` attribute the source lacks keeps its value, every
      other attribute the source lacks is gone, and names stay unique. */
  lemma MergedLookup(live: seq<Attr>, src: seq<Attr>)
    requires Unique(live) && Unique(src)
    ensures forall k: string :: GetAttribute(Merged(live, src).attrs, k) == MergeRule(k, live, src)
    ensures Unique(Merged(live, src).attrs)
  {
    PrunedLookup(live, src);
    AssignedLookup(Pruned(live, src).attrs, src);
  }

  /** An element's attribute names stay unique whatever the source holds. */
  lemma MergedUnique(live: seq<Attr>, src: seq<Attr>)
    requires Unique(live)
    ensures Unique(Merged(live, src).attrs)
  {
    PrunedLookup(live, src);
    AssignedUnique(Pruned(live, src).attrs, src);
  }

  /** The merge issues removeAttribute exactly for the stale live attributes
      and setAttribute exactly for the source attributes whose live value
      differs (or is missing), and nothing else. */
  lemma MergedLog(live: seq<Attr>, src: seq<Attr>)
    requires Unique(src)
    ensures forall m: Mutation :: m in Merged(live, src).log <==>
              || (m.RemoveAttribute? && HasAttribute(live, m.name) && Stale(m.name, src))
              || (m.SetAttribute? && Attr(m.name, m.value) in src && GetAttribute(live, m.name) != Some(m.value))
  {
    var p := Pruned(live, src);
    PrunedLog(live, src);
    PrunedLookup(live, src);
    AssignedLog(p.attrs, src);
    forall m: Mutation | m.SetAttribute? && Attr(m.name, m.value) in src
      ensures GetAttribute(p.attrs, m.name) == GetAttribute(live, m.name)
    {
      assert !Stale(m.name, src);
    }
  }

  /** Merging an attribute list with itself issues no write. */
  lemma MergedIdempotent(attrs: seq<Attr>)
    requires Unique(attrs)
    ensures Merged(attrs, attrs) == AttrPatch(attrs, [])
  {
    PrunedKeepsAll(attrs, attrs);
    AssignedSelf(attrs);
  }

  lemma {:induction false} PrunedKeepsAll(live: seq<Attr>, src: seq<Attr>)
    requires forall i :: 0 <= i < |live| ==> HasAttribute(src, live[i].name)
    ensures Pruned(live, src) == AttrPatch(live, [])
  {
    if live != [] {
      PrunedKeepsAll(live[1..], src);
    }
  }
}
