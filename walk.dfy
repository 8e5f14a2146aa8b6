/**
  The state of updateChildren's loop between two iterations, and one lemma
  per branch of the loop body saying that the branch keeps that state
  consistent with the functional walk `ReconciledChildren`.

  The live child list is `kids`, a list of references into the snapshot
  `olds` taken before the loop; `nodes` holds the current state of each
  snapshot entry. `done` is the part of `kids` before the snapshot entry at
  `i`. After removeChild has detached entry `i` (`detached`), the walk is
  bound to fail on its next step.
*/
module ChildWalk {
  import opened Dom
  import opened Policy
  import opened Reconcile

  ghost predicate Walking(olds: seq<Node>, news: seq<Node>, opts: Options, whole: Patched<seq<Node>>,
                          nodes: seq<Node>, kids: seq<ChildRef>, log: seq<Mutation>,
                          i: nat, j: nat, done: seq<ChildRef>, detached: bool)
  {
    && i <= |olds| && j <= |news| && |nodes| == |olds|
    && nodes[i..] == olds[i..]
    && InStore(done, i)
    && (detached ==> i < |olds| && j == |news| && !ShouldIgnore(olds[i], opts))
    && kids == done + Snapshots(if detached then i + 1 else i, |olds|)
    && (!detached ==> whole == Prefixed(Resolve(done, nodes), log, ReconciledChildren(olds[i..], news[j..], opts)))
    && (detached ==> whole == Patched(Resolve(done, nodes) + olds[i + 1..], log, NotFoundError))
  }

  /** Before the loop: nothing walked, the live list is the whole snapshot. */
  lemma WalkStart(olds: seq<Node>, news: seq<Node>, opts: Options)
    ensures Walking(olds, news, opts, ReconciledChildren(olds, news, opts),
                    olds, Snapshots(0, |olds|), [], 0, 0, [], false)
  {
    var whole := ReconciledChildren(olds, news, opts);
    assert olds[0..] == olds && news[0..] == news;
    assert [] + whole.value == whole.value && [] + whole.log == whole.log;
    assert Snapshots(0, |olds|) == [] + Snapshots(0, |olds|);
  }

  /** The entry at `i` still holds its snapshot state. */
  lemma Current(olds: seq<Node>, news: seq<Node>, opts: Options, whole: Patched<seq<Node>>,
                nodes: seq<Node>, kids: seq<ChildRef>, log: seq<Mutation>,
                i: nat, j: nat, done: seq<ChildRef>, detached: bool)
    requires Walking(olds, news, opts, whole, nodes, kids, log, i, j, done, detached)
    requires i < |olds|
    ensures nodes[i] == olds[i]
  {
    assert nodes[i..][0] == olds[i..][0];
  }

  lemma Advance(olds: seq<Node>, nodes: seq<Node>, i: nat)
    requires i < |olds| == |nodes| && nodes[i..] == olds[i..]
    ensures nodes[i + 1..] == olds[i + 1..]
  {
    assert nodes[i + 1..] == nodes[i..][1..];
    assert olds[i + 1..] == olds[i..][1..];
  }

  lemma ResolveNext(done: seq<ChildRef>, x: ChildRef, nodes: seq<Node>, node: Node)
    requires InStore(done, |nodes|) && (x.Snapshot? ==> x.index < |nodes|)
    requires node == if x.Snapshot? then nodes[x.index] else x.node
    ensures InStore(done + [x], |nodes|)
    ensures Resolve(done + [x], nodes) == Resolve(done, nodes) + [node]
  {
    ResolveAppend(done, [x], nodes);
    assert Resolve([x], nodes) == [node];
  }

  /** Live side exhausted: a source child is appended unless it is ignored. */
  lemma AppendStep(olds: seq<Node>, news: seq<Node>, opts: Options, whole: Patched<seq<Node>>,
                   nodes: seq<Node>, kids: seq<ChildRef>, log: seq<Mutation>,
                   i: nat, j: nat, done: seq<ChildRef>, detached: bool)
    requires Walking(olds, news, opts, whole, nodes, kids, log, i, j, done, detached)
    requires i >= |olds| && j < |news|
    ensures !detached
    ensures ShouldIgnore(news[j], opts) ==>
              Walking(olds, news, opts, whole, nodes, kids, log, i, j + 1, done, false)
    ensures !ShouldIgnore(news[j], opts) ==>
              Walking(olds, news, opts, whole, nodes, kids + [Fresh(news[j])], log + [AppendChild(news[j])],
                      i, j + 1, done + [Fresh(news[j])], false)
  {
    WalkAppend(olds, news, i, j, opts);
    var before := Resolve(done, nodes);
    var c := news[j];
    assert olds[i..] == [];
    if !ShouldIgnore(c, opts) {
      PrefixedPrefixed(before, log, [c], [AppendChild(c)], ReconciledChildren(olds[i..], news[j + 1..], opts));
      ResolveNext(done, Fresh(c), nodes, c);
      assert Snapshots(i, |olds|) == [];
    }
  }

  /** Source side exhausted, entry `i` ignored: it stays and the walk moves on. */
  lemma KeepLastStep(olds: seq<Node>, news: seq<Node>, opts: Options, whole: Patched<seq<Node>>,
                     nodes: seq<Node>, kids: seq<ChildRef>, log: seq<Mutation>,
                     i: nat, j: nat, done: seq<ChildRef>, detached: bool)
    requires Walking(olds, news, opts, whole, nodes, kids, log, i, j, done, detached)
    requires i < |olds| && j >= |news| && ShouldIgnore(olds[i], opts)
    ensures Walking(olds, news, opts, whole, nodes, kids, log, i + 1, j, done + [Snapshot(i)], false)
  {
    assert !detached;
    WalkRemove(olds, news, i, j, opts);
    KeepEntry(olds, news, opts, whole, nodes, kids, log, i, j, done);
  }

  /** Source side exhausted, entry `i` not ignored: the first removeChild of
      it succeeds and leaves the walk detached; the second fails, and the
      live list is then what the functional walk says. */
  lemma RemoveStep(olds: seq<Node>, news: seq<Node>, opts: Options, whole: Patched<seq<Node>>,
                   nodes: seq<Node>, kids: seq<ChildRef>, log: seq<Mutation>,
                   i: nat, j: nat, done: seq<ChildRef>, detached: bool)
    requires Walking(olds, news, opts, whole, nodes, kids, log, i, j, done, detached)
    requires i < |olds| && j >= |news| && !ShouldIgnore(olds[i], opts)
    ensures RemoveFrom(kids, Snapshot(i)).None? <==> detached
    ensures !detached ==>
              && RemoveFrom(kids, Snapshot(i)) == Some(done + Snapshots(i + 1, |olds|))
              && Walking(olds, news, opts, whole, nodes, done + Snapshots(i + 1, |olds|),
                         log + [RemoveChild(olds[i])], i, j, done, true)
    ensures detached ==>
              && InStore(kids, |nodes|) && Resolve(kids, nodes) == whole.value
              && log == whole.log && whole.status == NotFoundError
  {
    if detached {
      RemoveDetached(done, i, |olds|);
      ResolveAppend(done, Snapshots(i + 1, |olds|), nodes);
      ResolveSnapshots(i + 1, |olds|, nodes);
      Advance(olds, nodes, i);
      assert nodes[i + 1..|olds|] == olds[i + 1..];
    } else {
      RemoveAtSlot(done, i, |olds|);
      WalkRemove(olds, news, i, j, opts);
      assert news[j..] == [];
    }
  }

  /** A same-node pair whose update completed: the entry takes the child's
      new state `u` and both sides advance. */
  lemma SameStep(olds: seq<Node>, news: seq<Node>, opts: Options, whole: Patched<seq<Node>>,
                 nodes: seq<Node>, kids: seq<ChildRef>, log: seq<Mutation>,
                 i: nat, j: nat, done: seq<ChildRef>, detached: bool, u: Patched<Node>)
    requires Walking(olds, news, opts, whole, nodes, kids, log, i, j, done, detached)
    requires i < |olds| && j < |news| && IsSameNode(olds[i], news[j])
    requires u == ReconciledChild(olds[i], news[j], opts) && u.status == Completed
    ensures Walking(olds, news, opts, whole, nodes[i := u.value], kids, log + u.log,
                    i + 1, j + 1, done + [Snapshot(i)], false)
  {
    WalkSame(olds, news, i, j, opts);
    var before := Resolve(done, nodes);
    ResolveUnaffected(done, nodes, i, u.value);
    var next := nodes[i := u.value];
    assert next[i + 1..] == olds[i + 1..] by {
      assert next[i + 1..] == nodes[i..][1..];
      assert olds[i + 1..] == olds[i..][1..];
    }
    PrefixedPrefixed(before, log, [u.value], u.log, ReconciledChildren(olds[i + 1..], news[j + 1..], opts));
    ResolveNext(done, Snapshot(i), next, u.value);
    SnapshotsCons(i, |olds|);
    assert kids == (done + [Snapshot(i)]) + Snapshots(i + 1, |olds|);
  }

  /** A same-node pair whose update failed: the walk stops with the entry in
      the child's partial state `u`. */
  lemma SameFailedStep(olds: seq<Node>, news: seq<Node>, opts: Options, whole: Patched<seq<Node>>,
                       nodes: seq<Node>, kids: seq<ChildRef>, log: seq<Mutation>,
                       i: nat, j: nat, done: seq<ChildRef>, detached: bool, u: Patched<Node>)
    requires Walking(olds, news, opts, whole, nodes, kids, log, i, j, done, detached)
    requires i < |olds| && j < |news| && IsSameNode(olds[i], news[j])
    requires u == ReconciledChild(olds[i], news[j], opts) && u.status != Completed
    ensures InStore(kids, |olds|) && Resolve(kids, nodes[i := u.value]) == whole.value
    ensures log + u.log == whole.log && whole.status == u.status
  {
    WalkSame(olds, news, i, j, opts);
    var before := Resolve(done, nodes);
    ResolveUnaffected(done, nodes, i, u.value);
    var next := nodes[i := u.value];
    assert next[i + 1..] == olds[i + 1..] by {
      assert next[i + 1..] == nodes[i..][1..];
      assert olds[i + 1..] == olds[i..][1..];
    }
    ResolveAppend(done, Snapshots(i, |olds|), next);
    ResolveSnapshots(i, |olds|, next);
    assert next[i..|olds|] == [u.value] + olds[i + 1..];
    assert Resolve(kids, next) == before + ([u.value] + olds[i + 1..]);
  }

  /** Different nodes, the live one ignored: it stays and the walk moves on. */
  lemma KeepStep(olds: seq<Node>, news: seq<Node>, opts: Options, whole: Patched<seq<Node>>,
                 nodes: seq<Node>, kids: seq<ChildRef>, log: seq<Mutation>,
                 i: nat, j: nat, done: seq<ChildRef>, detached: bool)
    requires Walking(olds, news, opts, whole, nodes, kids, log, i, j, done, detached)
    requires i < |olds| && j < |news| && !IsSameNode(olds[i], news[j]) && ShouldIgnore(olds[i], opts)
    ensures !detached
    ensures Walking(olds, news, opts, whole, nodes, kids, log, i + 1, j, done + [Snapshot(i)], false)
  {
    assert !detached;
    WalkKeep(olds, news, i, j, opts);
    KeepEntry(olds, news, opts, whole, nodes, kids, log, i, j, done);
  }

  /** Entry `i` stays where it is, unchanged, with no write: whenever that is
      the functional walk's next step, the walk moves past it. */
  lemma KeepEntry(olds: seq<Node>, news: seq<Node>, opts: Options, whole: Patched<seq<Node>>,
                  nodes: seq<Node>, kids: seq<ChildRef>, log: seq<Mutation>,
                  i: nat, j: nat, done: seq<ChildRef>)
    requires Walking(olds, news, opts, whole, nodes, kids, log, i, j, done, false)
    requires i < |olds|
    requires ReconciledChildren(olds[i..], news[j..], opts) ==
               Prefixed([olds[i]], [], ReconciledChildren(olds[i + 1..], news[j..], opts))
    ensures Walking(olds, news, opts, whole, nodes, kids, log, i + 1, j, done + [Snapshot(i)], false)
  {
    Current(olds, news, opts, whole, nodes, kids, log, i, j, done, false);
    var before := Resolve(done, nodes);
    var rest := ReconciledChildren(olds[i + 1..], news[j..], opts);
    PrefixedPrefixed(before, log, [olds[i]], [], rest);
    assert log + [] == log;
    ResolveNext(done, Snapshot(i), nodes, olds[i]);
    assert whole == Prefixed(Resolve(done + [Snapshot(i)], nodes), log, rest);
    assert InStore(done + [Snapshot(i)], i + 1) by {
      forall k | 0 <= k < |done| + 1 ensures (done + [Snapshot(i)])[k].Snapshot? ==> (done + [Snapshot(i)])[k].index < i + 1 {
        if k < |done| {
          assert (done + [Snapshot(i)])[k] == done[k];
        }
      }
    }
    SnapshotsCons(i, |olds|);
    assert kids == (done + [Snapshot(i)]) + Snapshots(i + 1, |olds|);
    Advance(olds, nodes, i);
  }

  /** Different nodes, the source one ignored: it is skipped. */
  lemma SkipStep(olds: seq<Node>, news: seq<Node>, opts: Options, whole: Patched<seq<Node>>,
                 nodes: seq<Node>, kids: seq<ChildRef>, log: seq<Mutation>,
                 i: nat, j: nat, done: seq<ChildRef>, detached: bool)
    requires Walking(olds, news, opts, whole, nodes, kids, log, i, j, done, detached)
    requires i < |olds| && j < |news| && !IsSameNode(olds[i], news[j])
    requires !ShouldIgnore(olds[i], opts) && ShouldIgnore(news[j], opts)
    ensures !detached
    ensures Walking(olds, news, opts, whole, nodes, kids, log, i, j + 1, done, false)
  {
    WalkSkip(olds, news, i, j, opts);
  }

  /** Different nodes, neither ignored: a clone of the source child goes in
      before entry `i`. */
  lemma InsertStep(olds: seq<Node>, news: seq<Node>, opts: Options, whole: Patched<seq<Node>>,
                   nodes: seq<Node>, kids: seq<ChildRef>, log: seq<Mutation>,
                   i: nat, j: nat, done: seq<ChildRef>, detached: bool)
    requires Walking(olds, news, opts, whole, nodes, kids, log, i, j, done, detached)
    requires i < |olds| && j < |news| && !IsSameNode(olds[i], news[j])
    requires !ShouldIgnore(olds[i], opts) && !ShouldIgnore(news[j], opts)
    ensures !detached
    ensures Snapshot(i) in kids
    ensures InsertInto(kids, Fresh(news[j]), Snapshot(i)) == done + [Fresh(news[j])] + Snapshots(i, |olds|)
    ensures Walking(olds, news, opts, whole, nodes, done + [Fresh(news[j])] + Snapshots(i, |olds|),
                    log + [InsertBefore(news[j])], i, j + 1, done + [Fresh(news[j])], false)
  {
    WalkInsert(olds, news, i, j, opts);
    var c := news[j];
    InsertAtSlot(done, i, |olds|, Fresh(c));
    var before := Resolve(done, nodes);
    PrefixedPrefixed(before, log, [c], [InsertBefore(c)], ReconciledChildren(olds[i..], news[j + 1..], opts));
    ResolveNext(done, Fresh(c), nodes, c);
  }

  /** After the loop: the live list is what the functional walk says. */
  lemma WalkEnd(olds: seq<Node>, news: seq<Node>, opts: Options, whole: Patched<seq<Node>>,
                nodes: seq<Node>, kids: seq<ChildRef>, log: seq<Mutation>,
                i: nat, j: nat, done: seq<ChildRef>, detached: bool)
    requires Walking(olds, news, opts, whole, nodes, kids, log, i, j, done, detached)
    requires i >= |olds| && j >= |news|
    ensures InStore(kids, |nodes|) && Resolve(kids, nodes) == whole.value
    ensures log == whole.log && whole.status == Completed
  {
    assert olds[i..] == [] && news[j..] == [];
    assert Snapshots(i, |olds|) == [];
    assert kids == done;
    assert Resolve(kids, nodes) + [] == Resolve(kids, nodes) && log + [] == log;
  }
}
