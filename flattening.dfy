/** The depth-first, pre-order flattening of the forest.

    One traversal serves both projections: with `everything` it descends into
    every node (the full traversal, `depthFirstFlattened`), otherwise only into
    expanded nodes (the visible rows that `reload` publishes as `items`). */
module Flattening {
  import opened TreeItems

  /** Pre-order traversal of the sibling list `cs`, whose indices are all at
      least `lo`. A node is always emitted; its children follow it only when
      the traversal ignores flags or the node is expanded. */
  function Flatten<Item>(nodes: seq<TreeItem<Item>>, cs: seq<nat>, lo: nat, everything: bool): (r: seq<nat>)
    requires ChildrenAfter(nodes) && Within(cs, lo, |nodes|)
    ensures Within(r, lo, |nodes|)
    decreases |nodes| - lo, |cs|
  {
    if cs == [] then []
    else [cs[0]] + Descend(nodes, cs[0], everything) + Flatten(nodes, cs[1..], lo, everything)
  }

  /** What the traversal emits below node `c`: its children's traversal when
      it descends into `c`, nothing otherwise. */
  function Descend<Item>(nodes: seq<TreeItem<Item>>, c: nat, everything: bool): (r: seq<nat>)
    requires ChildrenAfter(nodes) && c < |nodes|
    ensures Within(r, c + 1, |nodes|)
    decreases |nodes| - c, 0
  {
    if everything || nodes[c].isExpanded then Flatten(nodes, nodes[c].subitems, c + 1, everything) else []
  }

  /** Every node of the forest, in document order. */
  function AllPreorder<Item>(nodes: seq<TreeItem<Item>>, roots: seq<nat>): seq<nat>
    requires ChildrenAfter(nodes) && Within(roots, 0, |nodes|)
  {
    Flatten(nodes, roots, 0, true)
  }

  /** The rows a reload shows: every node whose ancestors are all expanded. */
  function Visible<Item>(nodes: seq<TreeItem<Item>>, roots: seq<nat>): seq<nat>
    requires ChildrenAfter(nodes) && Within(roots, 0, |nodes|)
  {
    Flatten(nodes, roots, 0, false)
  }

  /** Node `x` followed by all of its descendants, in pre-order. */
  function Subtree<Item>(nodes: seq<TreeItem<Item>>, x: nat): seq<nat>
    requires ChildrenAfter(nodes) && x < |nodes|
  {
    Flatten(nodes, [x], x, true)
  }

  /** Every listed node has expansion flag `flag`. */
  ghost predicate AllFlagged<Item>(nodes: seq<TreeItem<Item>>, s: seq<nat>, flag: bool)
  {
    forall k :: 0 <= k < |s| && s[k] < |nodes| ==> nodes[s[k]].isExpanded == flag
  }

  /** `d` is reached from the list `cs` by following live child links upward:
      `d` is in `cs`, or it is still among its parent's subitems, the parent
      lets the traversal through, and the parent is reached. */
  ghost predicate Reaches<Item>(nodes: seq<TreeItem<Item>>, cs: seq<nat>, d: nat, everything: bool)
    requires ParentBefore(nodes) && d < |nodes|
    decreases d
  {
    || d in cs
    || (nodes[d].parent.Some?
        && var p := nodes[d].parent.value;
           d in nodes[p].subitems && (everything || nodes[p].isExpanded) && Reaches(nodes, cs, p, everything))
  }

  /** One step of the traversal, with its three parts named. */
  lemma FlattenStep<Item>(nodes: seq<TreeItem<Item>>, cs: seq<nat>, lo: nat, everything: bool, d: nat)
    requires ChildrenAfter(nodes) && Within(cs, lo, |nodes|) && cs != []
    ensures Flatten(nodes, cs, lo, everything)
            == [cs[0]] + Descend(nodes, cs[0], everything) + Flatten(nodes, cs[1..], lo, everything)
    ensures d in Flatten(nodes, cs, lo, everything) <==>
            d == cs[0] || d in Descend(nodes, cs[0], everything) || d in Flatten(nodes, cs[1..], lo, everything)
  {
  }

  lemma {:induction false} HeadInFlatten<Item>(nodes: seq<TreeItem<Item>>, cs: seq<nat>, lo: nat, everything: bool, k: nat)
    requires ChildrenAfter(nodes) && Within(cs, lo, |nodes|) && k < |cs|
    ensures cs[k] in Flatten(nodes, cs, lo, everything)
    decreases |cs|
  {
    FlattenStep(nodes, cs, lo, everything, cs[k]);
    if k > 0 {
      HeadInFlatten(nodes, cs[1..], lo, everything, k - 1);
    }
  }

  /** The children of an emitted node that lets the traversal through are
      emitted too. */
  lemma {:induction false} ChildInFlatten<Item>(nodes: seq<TreeItem<Item>>, cs: seq<nat>, lo: nat, everything: bool, p: nat, k: nat)
    requires ChildrenAfter(nodes) && Within(cs, lo, |nodes|)
    requires p < |nodes| && p in Flatten(nodes, cs, lo, everything)
    requires everything || nodes[p].isExpanded
    requires k < |nodes[p].subitems|
    ensures nodes[p].subitems[k] in Flatten(nodes, cs, lo, everything)
    decreases |nodes| - lo, |cs|
  {
    var c := cs[0];
    var x := nodes[p].subitems[k];
    FlattenStep(nodes, cs, lo, everything, p);
    FlattenStep(nodes, cs, lo, everything, x);
    if p == c {
      HeadInFlatten(nodes, nodes[c].subitems, c + 1, everything, k);
      assert x in Descend(nodes, c, everything);
    } else if p in Descend(nodes, c, everything) {
      assert Descend(nodes, c, everything) == Flatten(nodes, nodes[c].subitems, c + 1, everything);
      ChildInFlatten(nodes, nodes[c].subitems, c + 1, everything, p, k);
    } else {
      ChildInFlatten(nodes, cs[1..], lo, everything, p, k);
    }
  }

  lemma {:induction false} ReachesInFlatten<Item>(nodes: seq<TreeItem<Item>>, cs: seq<nat>, lo: nat, everything: bool, d: nat)
    requires ArenaOk(nodes) && Within(cs, lo, |nodes|) && d < |nodes|
    requires Reaches(nodes, cs, d, everything)
    ensures d in Flatten(nodes, cs, lo, everything)
    decreases d
  {
    if d in cs {
      var k :| 0 <= k < |cs| && cs[k] == d;
      HeadInFlatten(nodes, cs, lo, everything, k);
    } else {
      var p := nodes[d].parent.value;
      ReachesInFlatten(nodes, cs, lo, everything, p);
      var k :| 0 <= k < |nodes[p].subitems| && nodes[p].subitems[k] == d;
      ChildInFlatten(nodes, cs, lo, everything, p, k);
    }
  }

  lemma {:induction false} FlattenReaches<Item>(nodes: seq<TreeItem<Item>>, top: seq<nat>, cs: seq<nat>, lo: nat, everything: bool, d: nat)
    requires ArenaOk(nodes) && Within(cs, lo, |nodes|)
    requires forall k :: 0 <= k < |cs| ==> Reaches(nodes, top, cs[k], everything)
    requires d in Flatten(nodes, cs, lo, everything)
    ensures d < |nodes| && Reaches(nodes, top, d, everything)
    decreases |nodes| - lo, |cs|
  {
    var c := cs[0];
    FlattenStep(nodes, cs, lo, everything, d);
    if d == c {
    } else if d in Descend(nodes, c, everything) {
      var sub := nodes[c].subitems;
      forall k | 0 <= k < |sub| ensures Reaches(nodes, top, sub[k], everything) {
        assert nodes[sub[k]].parent == Some(c);
      }
      FlattenReaches(nodes, top, sub, c + 1, everything, d);
    } else {
      FlattenReaches(nodes, top, cs[1..], lo, everything, d);
    }
  }

  /** A node is emitted by the traversal of `cs` exactly when it is reached
      from `cs` through live, passable links. */
  lemma FlattenMembership<Item>(nodes: seq<TreeItem<Item>>, cs: seq<nat>, lo: nat, everything: bool, d: nat)
    requires ArenaOk(nodes) && Within(cs, lo, |nodes|) && d < |nodes|
    ensures d in Flatten(nodes, cs, lo, everything) <==> Reaches(nodes, cs, d, everything)
  {
    if d in Flatten(nodes, cs, lo, everything) {
      FlattenReaches(nodes, cs, cs, lo, everything, d);
    }
    if Reaches(nodes, cs, d, everything) {
      ReachesInFlatten(nodes, cs, lo, everything, d);
    }
  }

  /** Every emitted node lies in the subtree of one of the listed nodes. */
  lemma {:induction false} FlattenedUnderHead<Item>(nodes: seq<TreeItem<Item>>, cs: seq<nat>, lo: nat, everything: bool, d: nat)
    returns (k: nat)
    requires ArenaOk(nodes) && Within(cs, lo, |nodes|)
    requires d in Flatten(nodes, cs, lo, everything)
    ensures k < |cs| && d < |nodes| && IsAncestorOrSelf(nodes, cs[k], d)
    decreases |nodes| - lo, |cs|
  {
    var c := cs[0];
    FlattenStep(nodes, cs, lo, everything, d);
    if d == c {
      k := 0;
    } else if d in Descend(nodes, c, everything) {
      var j := FlattenedUnderHead(nodes, nodes[c].subitems, c + 1, everything, d);
      AncestorOfParent(nodes, nodes[c].subitems[j], d);
      k := 0;
    } else {
      var j := FlattenedUnderHead(nodes, cs[1..], lo, everything, d);
      k := j + 1;
    }
  }

  /** The traversal of a list of distinct siblings emits no node twice. */
  lemma {:induction false} FlattenNoDup<Item>(nodes: seq<TreeItem<Item>>, cs: seq<nat>, lo: nat, everything: bool, parent: Option<nat>)
    requires ArenaOk(nodes) && Within(cs, lo, |nodes|) && NoDup(cs)
    requires forall k :: 0 <= k < |cs| ==> nodes[cs[k]].parent == parent
    ensures NoDup(Flatten(nodes, cs, lo, everything))
    decreases |nodes| - lo, |cs|
  {
    if cs != [] {
      var c := cs[0];
      var rest := cs[1..];
      var below := Descend(nodes, c, everything);
      var after := Flatten(nodes, rest, lo, everything);
      FlattenStep(nodes, cs, lo, everything, c);
      var sub := nodes[c].subitems;
      assert NoDup(below) by {
        if everything || nodes[c].isExpanded {
          assert forall k :: 0 <= k < |sub| ==> nodes[sub[k]].parent == Some(c);
          FlattenNoDup(nodes, sub, c + 1, everything, Some(c));
        }
      }
      assert NoDup(after) by {
        NoDupTail(cs);
        FlattenNoDup(nodes, rest, lo, everything, parent);
      }
      // c heads a subtree disjoint from those of its later siblings
      assert forall d :: d in after ==> d !in [c] + below by {
        forall d | d in after ensures d !in [c] + below {
          var j := FlattenedUnderHead(nodes, rest, lo, everything, d);
          SiblingSubtreesDisjoint(nodes, c, rest[j], d);
          if d in below {
            var j' := FlattenedUnderHead(nodes, sub, c + 1, everything, d);
            AncestorOfParent(nodes, sub[j'], d);
          }
        }
      }
      NoDupConcat([c], below);
      NoDupConcat([c] + below, after);
    }
  }

  /** Neither projection ever shows a row twice. */
  lemma ProjectionsNoDup<Item>(nodes: seq<TreeItem<Item>>, roots: seq<nat>)
    requires WellFormed(nodes, roots)
    ensures NoDup(AllPreorder(nodes, roots)) && NoDup(Visible(nodes, roots))
  {
    FlattenNoDup(nodes, roots, 0, true, None);
    FlattenNoDup(nodes, roots, 0, false, None);
  }

  /** With every node expanded the visible rows are the full traversal. */
  lemma {:induction false} AllExpandedShowsAll<Item>(nodes: seq<TreeItem<Item>>, cs: seq<nat>, lo: nat)
    requires ChildrenAfter(nodes) && Within(cs, lo, |nodes|)
    requires AllFlagged(nodes, Flatten(nodes, cs, lo, true), true)
    ensures Flatten(nodes, cs, lo, false) == Flatten(nodes, cs, lo, true)
    decreases |nodes| - lo, |cs|
  {
    if cs != [] {
      var c := cs[0];
      var all := Flatten(nodes, cs, lo, true);
      var below := Descend(nodes, c, true);
      var after := Flatten(nodes, cs[1..], lo, true);
      FlattenStep(nodes, cs, lo, true, c);
      FlattenStep(nodes, cs, lo, false, c);
      AllFlaggedParts(nodes, c, below, after, true);
      AllExpandedShowsAll(nodes, nodes[c].subitems, c + 1);
      AllExpandedShowsAll(nodes, cs[1..], lo);
    }
  }

  /** With the listed nodes collapsed only they are shown. */
  lemma {:induction false} AllCollapsedShowsHeads<Item>(nodes: seq<TreeItem<Item>>, cs: seq<nat>, lo: nat)
    requires ChildrenAfter(nodes) && Within(cs, lo, |nodes|)
    requires AllFlagged(nodes, cs, false)
    ensures Flatten(nodes, cs, lo, false) == cs
    decreases |cs|
  {
    if cs != [] {
      FlattenStep(nodes, cs, lo, false, cs[0]);
      AllCollapsedShowsHeads(nodes, cs[1..], lo);
    }
  }

  lemma AllFlaggedParts<Item>(nodes: seq<TreeItem<Item>>, c: nat, below: seq<nat>, after: seq<nat>, flag: bool)
    requires AllFlagged(nodes, [c] + below + after, flag)
    ensures AllFlagged(nodes, below, flag) && AllFlagged(nodes, after, flag)
    ensures c < |nodes| ==> nodes[c].isExpanded == flag
  {
    var s := [c] + below + after;
    assert s[0] == c;
    assert forall k :: 0 <= k < |below| ==> below[k] == s[1 + k];
    assert forall k :: 0 <= k < |after| ==> after[k] == s[1 + |below| + k];
  }

  lemma FlagsKeptParts<Item>(nodes: seq<TreeItem<Item>>, nodes': seq<TreeItem<Item>>, c: nat, below: seq<nat>, after: seq<nat>)
    requires AllFlagsKept(nodes, nodes', [c] + below + after)
    ensures AllFlagsKept(nodes, nodes', below) && AllFlagsKept(nodes, nodes', after)
    ensures c < |nodes| && c < |nodes'| ==> nodes'[c].isExpanded == nodes[c].isExpanded
  {
    var s := [c] + below + after;
    assert s[0] == c;
    assert forall k :: 0 <= k < |below| ==> below[k] == s[1 + k];
    assert forall k :: 0 <= k < |after| ==> after[k] == s[1 + |below| + k];
  }

  /** Flags that the traversal never consults do not change what it emits. */
  lemma {:induction false} FlagFrame<Item>(nodes: seq<TreeItem<Item>>, nodes': seq<TreeItem<Item>>, cs: seq<nat>, lo: nat, everything: bool)
    requires ChildrenAfter(nodes) && ChildrenAfter(nodes') && SameShape(nodes, nodes') && Within(cs, lo, |nodes|)
    requires !everything ==> AllFlagsKept(nodes, nodes', Flatten(nodes, cs, lo, false))
    ensures Flatten(nodes', cs, lo, everything) == Flatten(nodes, cs, lo, everything)
    decreases |nodes| - lo, |cs|
  {
    if cs != [] {
      var c := cs[0];
      var below := Descend(nodes, c, everything);
      var after := Flatten(nodes, cs[1..], lo, everything);
      FlattenStep(nodes, cs, lo, everything, c);
      FlattenStep(nodes', cs, lo, everything, c);
      assert nodes'[c].subitems == nodes[c].subitems;
      if !everything {
        FlagsKeptParts(nodes, nodes', c, below, after);
      }
      if everything || nodes[c].isExpanded {
        FlagFrame(nodes, nodes', nodes[c].subitems, c + 1, everything);
      }
      FlagFrame(nodes, nodes', cs[1..], lo, everything);
    }
  }

  /** Every listed node has the same flag in both arenas. */
  ghost predicate AllFlagsKept<Item>(nodes: seq<TreeItem<Item>>, nodes': seq<TreeItem<Item>>, s: seq<nat>)
  {
    forall k :: 0 <= k < |s| && s[k] < |nodes| && s[k] < |nodes'| ==> nodes'[s[k]].isExpanded == nodes[s[k]].isExpanded
  }
}
