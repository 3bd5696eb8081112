/** The expansion state machine and what it does to the visible rows.

    Flags never change the structure of the forest: they only decide how far
    the visibility projection descends. */
module Expansion {
  import opened TreeItems
  import opened Flattening

  /** `isExpanded` written on one node. */
  function SetFlag<Item>(nodes: seq<TreeItem<Item>>, x: nat, flag: bool): (r: seq<TreeItem<Item>>)
    requires x < |nodes|
    ensures SameShape(nodes, r) && r[x].isExpanded == flag
    ensures forall i :: 0 <= i < |nodes| && i != x ==> r[i] == nodes[i]
    ensures ArenaOk(nodes) ==> ArenaOk(r)
  {
    var r := nodes[x := nodes[x].(isExpanded := flag)];
    SameShapeKeepsArena(nodes, r, []);
    r
  }

  /** `isExpanded` written on every node listed in `s`. */
  function FlagAll<Item>(nodes: seq<TreeItem<Item>>, s: seq<nat>, flag: bool): (r: seq<TreeItem<Item>>)
    ensures SameShape(nodes, r)
    ensures forall i :: 0 <= i < |nodes| ==> r[i].isExpanded == if i in s then flag else nodes[i].isExpanded
    ensures ArenaOk(nodes) ==> ArenaOk(r)
  {
    var r := seq(|nodes|, i requires 0 <= i < |nodes| => if i in s then nodes[i].(isExpanded := flag) else nodes[i]);
    SameShapeKeepsArena(nodes, r, []);
    r
  }

  /** Flagging one more node is one more `SetFlag`. */
  lemma FlagAllExtend<Item>(nodes: seq<TreeItem<Item>>, s: seq<nat>, x: nat, flag: bool)
    requires x < |nodes|
    ensures FlagAll(nodes, s + [x], flag) == SetFlag(FlagAll(nodes, s, flag), x, flag)
  {
    var a := FlagAll(nodes, s + [x], flag);
    var b := SetFlag(FlagAll(nodes, s, flag), x, flag);
    forall i | 0 <= i < |nodes| ensures a[i] == b[i] {
      assert i in s + [x] <==> i in s || i == x;
    }
  }

  /** Whether a node is reached depends only on the flags of nodes created
      before it (its ancestors among them). */
  lemma {:induction false} ReachesFlagFrame<Item>(nodes: seq<TreeItem<Item>>, nodes': seq<TreeItem<Item>>, cs: seq<nat>, d: nat, everything: bool)
    requires ParentBefore(nodes) && ParentBefore(nodes') && SameShape(nodes, nodes') && d < |nodes|
    requires forall j :: 0 <= j < d ==> nodes'[j].isExpanded == nodes[j].isExpanded
    ensures Reaches(nodes', cs, d, everything) == Reaches(nodes, cs, d, everything)
    decreases d
  {
    assert nodes'[d].parent == nodes[d].parent;
    if nodes[d].parent.Some? {
      var p := nodes[d].parent.value;
      assert nodes'[p].subitems == nodes[p].subitems;
      ReachesFlagFrame(nodes, nodes', cs, p, everything);
    }
  }

  /** A child of `x` is visible exactly when `x` is visible and expanded. */
  lemma ChildVisibility<Item>(nodes: seq<TreeItem<Item>>, roots: seq<nat>, x: nat, k: nat)
    requires WellFormed(nodes, roots) && x < |nodes| && k < |nodes[x].subitems|
    ensures nodes[x].subitems[k] in Visible(nodes, roots) <==> x in Visible(nodes, roots) && nodes[x].isExpanded
  {
    var c := nodes[x].subitems[k];
    FlattenMembership(nodes, roots, 0, false, c);
    FlattenMembership(nodes, roots, 0, false, x);
    assert nodes[c].parent == Some(x);
    assert c !in roots;
  }

  /** toggleExpand on a visible node keeps it visible and shows its children
      exactly when it was collapsed before. */
  lemma ToggleShowsOrHidesChildren<Item>(nodes: seq<TreeItem<Item>>, roots: seq<nat>, x: nat)
    requires WellFormed(nodes, roots) && x < |nodes| && x in Visible(nodes, roots)
    ensures var toggled := SetFlag(nodes, x, !nodes[x].isExpanded);
            && x in Visible(toggled, roots)
            && forall k :: 0 <= k < |nodes[x].subitems| ==>
                 (nodes[x].subitems[k] in Visible(toggled, roots) <==> !nodes[x].isExpanded)
  {
    var toggled := SetFlag(nodes, x, !nodes[x].isExpanded);
    SameShapeKeepsArena(nodes, toggled, roots);
    FlattenMembership(nodes, roots, 0, false, x);
    FlattenMembership(toggled, roots, 0, false, x);
    ReachesFlagFrame(nodes, toggled, roots, x, false);
    forall k | 0 <= k < |nodes[x].subitems|
      ensures nodes[x].subitems[k] in Visible(toggled, roots) <==> !nodes[x].isExpanded
    {
      ChildVisibility(toggled, roots, x, k);
    }
  }

  /** The subtree of `x` is `x` followed by everything below it. */
  lemma SubtreeStep<Item>(nodes: seq<TreeItem<Item>>, x: nat)
    requires ChildrenAfter(nodes) && x < |nodes|
    ensures Subtree(nodes, x) == [x] + Descend(nodes, x, true)
    ensures Subtree(nodes, x)[1..] == Descend(nodes, x, true)
  {
    FlattenStep(nodes, [x], x, true, x);
    assert [x][1..] == [];
  }

  lemma {:induction false} HiddenUnderCollapsed<Item>(nodes: seq<TreeItem<Item>>, roots: seq<nat>, x: nat, d: nat)
    requires WellFormed(nodes, roots) && x < |nodes| && !nodes[x].isExpanded
    requires d < |nodes| && d != x && Reaches(nodes, [x], d, true)
    ensures !Reaches(nodes, roots, d, false)
    decreases d
  {
    var p := nodes[d].parent.value;
    if p != x {
      HiddenUnderCollapsed(nodes, roots, x, p);
    }
  }

  /** Below a collapsed node nothing is visible. */
  lemma CollapsedHidesDescendants<Item>(nodes: seq<TreeItem<Item>>, roots: seq<nat>, x: nat)
    requires WellFormed(nodes, roots) && x < |nodes| && !nodes[x].isExpanded
    ensures forall d :: d in Subtree(nodes, x)[1..] ==> d !in Visible(nodes, roots)
  {
    SubtreeStep(nodes, x);
    forall d | d in Subtree(nodes, x)[1..] ensures d !in Visible(nodes, roots) {
      var k :| 0 <= k < |Descend(nodes, x, true)| && Descend(nodes, x, true)[k] == d;
      FlattenMembership(nodes, [x], x, true, d);
      FlattenMembership(nodes, roots, 0, false, d);
      HiddenUnderCollapsed(nodes, roots, x, d);
    }
  }

  lemma {:induction false} ShownUnderExpanded<Item>(nodes: seq<TreeItem<Item>>, roots: seq<nat>, x: nat, d: nat)
    requires WellFormed(nodes, roots) && x < |nodes| && Reaches(nodes, roots, x, false)
    requires AllFlagged(nodes, Subtree(nodes, x), true)
    requires d < |nodes| && Reaches(nodes, [x], d, true)
    ensures Reaches(nodes, roots, d, false)
    decreases d
  {
    if d != x {
      var p := nodes[d].parent.value;
      ShownUnderExpanded(nodes, roots, x, p);
      FlattenMembership(nodes, [x], x, true, p);
      var k :| 0 <= k < |Subtree(nodes, x)| && Subtree(nodes, x)[k] == p;
    }
  }

  /** A visible node whose whole subtree is expanded shows all of it. */
  lemma ExpandedSubtreeIsVisible<Item>(nodes: seq<TreeItem<Item>>, roots: seq<nat>, x: nat)
    requires WellFormed(nodes, roots) && x < |nodes| && x in Visible(nodes, roots)
    requires AllFlagged(nodes, Subtree(nodes, x), true)
    ensures forall d :: d in Subtree(nodes, x) ==> d in Visible(nodes, roots)
  {
    FlattenMembership(nodes, roots, 0, false, x);
    forall d | d in Subtree(nodes, x) ensures d in Visible(nodes, roots) {
      FlattenMembership(nodes, [x], x, true, d);
      FlattenMembership(nodes, roots, 0, false, d);
      ShownUnderExpanded(nodes, roots, x, d);
    }
  }

  /** updateAllLevels(of: x, isExpanded: true) on a visible node shows x and
      every descendant of x. */
  lemma ExpandAllLevelsShowsSubtree<Item>(nodes: seq<TreeItem<Item>>, roots: seq<nat>, x: nat)
    requires WellFormed(nodes, roots) && x < |nodes| && x in Visible(nodes, roots)
    ensures var expanded := FlagAll(nodes, Subtree(nodes, x), true);
            forall d :: d in Subtree(nodes, x) ==> d in Visible(expanded, roots)
  {
    var sub := Subtree(nodes, x);
    var expanded := FlagAll(nodes, sub, true);
    SameShapeKeepsArena(nodes, expanded, roots);
    FlagFrame(nodes, expanded, [x], x, true);
    // the flags above x are untouched, so x stays visible
    forall j | 0 <= j < x ensures expanded[j].isExpanded == nodes[j].isExpanded {
      assert j !in sub;
    }
    FlattenMembership(nodes, roots, 0, false, x);
    FlattenMembership(expanded, roots, 0, false, x);
    ReachesFlagFrame(nodes, expanded, roots, x, false);
    ExpandedSubtreeIsVisible(expanded, roots, x);
  }

  /** updateAllLevels(of: x, isExpanded: false) hides every proper
      descendant of x. */
  lemma CollapseAllLevelsHidesDescendants<Item>(nodes: seq<TreeItem<Item>>, roots: seq<nat>, x: nat)
    requires WellFormed(nodes, roots) && x < |nodes|
    ensures var collapsed := FlagAll(nodes, Subtree(nodes, x), false);
            forall d :: d in Subtree(nodes, x)[1..] ==> d !in Visible(collapsed, roots)
  {
    var sub := Subtree(nodes, x);
    var collapsed := FlagAll(nodes, sub, false);
    SameShapeKeepsArena(nodes, collapsed, roots);
    FlagFrame(nodes, collapsed, [x], x, true);
    SubtreeStep(nodes, x);
    assert x in sub;
    CollapsedHidesDescendants(collapsed, roots, x);
  }

  /** expandAll: every node expanded, so the rows are the full traversal. */
  lemma ExpandAllShowsEverything<Item>(nodes: seq<TreeItem<Item>>, roots: seq<nat>)
    requires WellFormed(nodes, roots)
    ensures Visible(FlagAll(nodes, AllPreorder(nodes, roots), true), roots) == AllPreorder(nodes, roots)
  {
    var all := AllPreorder(nodes, roots);
    var expanded := FlagAll(nodes, all, true);
    SameShapeKeepsArena(nodes, expanded, roots);
    FlagFrame(nodes, expanded, roots, 0, true);
    AllExpandedShowsAll(expanded, roots, 0);
  }

  /** collapseAll: every node collapsed, so the rows are the roots. */
  lemma CollapseAllShowsRoots<Item>(nodes: seq<TreeItem<Item>>, roots: seq<nat>)
    requires WellFormed(nodes, roots)
    ensures Visible(FlagAll(nodes, AllPreorder(nodes, roots), false), roots) == roots
  {
    var all := AllPreorder(nodes, roots);
    var collapsed := FlagAll(nodes, all, false);
    SameShapeKeepsArena(nodes, collapsed, roots);
    forall k | 0 <= k < |roots| ensures collapsed[roots[k]].isExpanded == false {
      HeadInFlatten(nodes, roots, 0, true, k);
    }
    AllCollapsedShowsHeads(collapsed, roots, 0);
  }

  lemma SpliceInHead(c: nat, below: seq<nat>, after: seq<nat>, i: nat, ins: seq<nat>)
    requires 1 <= i <= |below|
    ensures var rows := [c] + below + after;
            [c] + (below[..i] + ins + below[i..]) + after == rows[..i + 1] + ins + rows[i + 1..]
  {
    var rows := [c] + below + after;
    assert rows[..i + 1] == [c] + below[..i];
    assert rows[i + 1..] == below[i..] + after;
  }

  lemma SpliceInTail(c: nat, below: seq<nat>, after: seq<nat>, j: nat, ins: seq<nat>)
    requires j < |after|
    ensures var rows := [c] + below + after;
            var i := 1 + |below| + j;
            [c] + below + (after[..j + 1] + ins + after[j + 1..]) == rows[..i + 1] + ins + rows[i + 1..]
  {
    var rows := [c] + below + after;
    var i := 1 + |below| + j;
    assert rows[..i + 1] == [c] + below + after[..j + 1];
    assert rows[i + 1..] == after[j + 1..];
  }

  /** Every listed node other than `x` keeps its flag. */
  ghost predicate KeptExcept<Item>(nodes: seq<TreeItem<Item>>, nodes': seq<TreeItem<Item>>, s: seq<nat>, x: nat)
  {
    forall k :: 0 <= k < |s| && s[k] < |nodes| && s[k] < |nodes'| && s[k] != x ==>
      nodes'[s[k]].isExpanded == nodes[s[k]].isExpanded
  }

  lemma KeptExceptParts<Item>(nodes: seq<TreeItem<Item>>, nodes': seq<TreeItem<Item>>, c: nat, below: seq<nat>, after: seq<nat>, x: nat)
    requires KeptExcept(nodes, nodes', [c] + below + after, x)
    ensures KeptExcept(nodes, nodes', below, x) && KeptExcept(nodes, nodes', after, x)
    ensures x !in below ==> AllFlagsKept(nodes, nodes', below)
    ensures x !in after ==> AllFlagsKept(nodes, nodes', after)
  {
    var rows := [c] + below + after;
    assert forall k :: 0 <= k < |below| ==> below[k] == rows[1 + k];
    assert forall k :: 0 <= k < |after| ==> after[k] == rows[1 + |below| + k];
  }

  /** The facts every case of `ExpandSplicesBelow` starts from. */
  ghost predicate SpliceSetting<Item>(nodes: seq<TreeItem<Item>>, nodes': seq<TreeItem<Item>>, cs: seq<nat>, lo: nat, x: nat, i: nat)
  {
    && ChildrenAfter(nodes) && ChildrenAfter(nodes') && SameShape(nodes, nodes') && Within(cs, lo, |nodes|)
    && x < |nodes| && !nodes[x].isExpanded && nodes'[x].isExpanded
    && NoDup(Flatten(nodes, cs, lo, false)) && KeptExcept(nodes, nodes', Flatten(nodes, cs, lo, false), x)
    && i < |Flatten(nodes, cs, lo, false)| && Flatten(nodes, cs, lo, false)[i] == x
  }

  /** Expanding a collapsed row `x` of the traversal of `cs` splices what now
      shows below `x` in right after it; every other row keeps its place. */
  lemma {:induction false} ExpandSplicesBelow<Item>(nodes: seq<TreeItem<Item>>, nodes': seq<TreeItem<Item>>, cs: seq<nat>, lo: nat, x: nat, i: nat)
    requires SpliceSetting(nodes, nodes', cs, lo, x, i)
    ensures var rows := Flatten(nodes, cs, lo, false);
            Flatten(nodes', cs, lo, false) == rows[..i + 1] + Descend(nodes', x, false) + rows[i + 1..]
    decreases |nodes| - lo, |cs|, 1
  {
    var c := cs[0];
    FlattenStep(nodes, cs, lo, false, c);
    if c == x {
      SpliceAtRow(nodes, nodes', cs, lo, x, i);
    } else if i - 1 < |Descend(nodes, c, false)| {
      SpliceUnderHead(nodes, nodes', cs, lo, x, i);
    } else {
      SpliceInRest(nodes, nodes', cs, lo, x, i);
    }
  }

  /** Case of `ExpandSplicesBelow`: `x` is the first node of `cs`. */
  lemma {:induction false} SpliceAtRow<Item>(nodes: seq<TreeItem<Item>>, nodes': seq<TreeItem<Item>>, cs: seq<nat>, lo: nat, x: nat, i: nat)
    requires SpliceSetting(nodes, nodes', cs, lo, x, i) && |cs| > 0 && cs[0] == x
    ensures var rows := Flatten(nodes, cs, lo, false);
            Flatten(nodes', cs, lo, false) == rows[..i + 1] + Descend(nodes', x, false) + rows[i + 1..]
  {
    var rows := Flatten(nodes, cs, lo, false);
    var below := Descend(nodes, x, false);
    var after := Flatten(nodes, cs[1..], lo, false);
    FlattenStep(nodes, cs, lo, false, x);
    FlattenStep(nodes', cs, lo, false, x);
    assert rows == [x] + below + after;
    NoDupSplit([x] + below, after);
    KeptExceptParts(nodes, nodes', x, below, after, x);
    assert i == 0 by {
      assert rows[0] == x;
    }
    assert below == [];
    FlagFrame(nodes, nodes', cs[1..], lo, false);
    assert rows[..1] == [x] && rows[1..] == after;
  }

  /** When `x` shows below the first node of `cs`, that node is untouched
      and expanded, `x` is a row of its children's traversal, and the rest
      of `cs` keeps its flags. */
  lemma UnderHead<Item>(nodes: seq<TreeItem<Item>>, nodes': seq<TreeItem<Item>>, cs: seq<nat>, lo: nat, x: nat, i: nat)
    requires SpliceSetting(nodes, nodes', cs, lo, x, i) && |cs| > 0 && cs[0] != x
    requires 1 <= i <= |Descend(nodes, cs[0], false)|
    ensures nodes'[cs[0]] == nodes[cs[0]] && nodes[cs[0]].isExpanded
    ensures SpliceSetting(nodes, nodes', nodes[cs[0]].subitems, cs[0] + 1, x, i - 1)
    ensures AllFlagsKept(nodes, nodes', Flatten(nodes, cs[1..], lo, false))
  {
    var c := cs[0];
    var rows := Flatten(nodes, cs, lo, false);
    var below := Descend(nodes, c, false);
    var after := Flatten(nodes, cs[1..], lo, false);
    FlattenStep(nodes, cs, lo, false, c);
    assert rows == [c] + below + after;
    NoDupSplit([c] + below, after);
    NoDupSplit([c], below);
    KeptExceptParts(nodes, nodes', c, below, after, x);
    assert nodes'[c] == nodes[c] by {
      assert rows[0] == c;
    }
    assert below[i - 1] == rows[i];
  }

  /** Case of `ExpandSplicesBelow`: `x` shows under the first node of `cs`. */
  lemma {:induction false} SpliceUnderHead<Item>(nodes: seq<TreeItem<Item>>, nodes': seq<TreeItem<Item>>, cs: seq<nat>, lo: nat, x: nat, i: nat)
    requires SpliceSetting(nodes, nodes', cs, lo, x, i) && |cs| > 0 && cs[0] != x
    requires 1 <= i <= |Descend(nodes, cs[0], false)|
    ensures var rows := Flatten(nodes, cs, lo, false);
            Flatten(nodes', cs, lo, false) == rows[..i + 1] + Descend(nodes', x, false) + rows[i + 1..]
    decreases |nodes| - lo, |cs|, 0
  {
    var c := cs[0];
    var below := Descend(nodes, c, false);
    var after := Flatten(nodes, cs[1..], lo, false);
    FlattenStep(nodes, cs, lo, false, c);
    FlattenStep(nodes', cs, lo, false, c);
    UnderHead(nodes, nodes', cs, lo, x, i);
    ExpandSplicesBelow(nodes, nodes', nodes[c].subitems, c + 1, x, i - 1);
    FlagFrame(nodes, nodes', cs[1..], lo, false);
    SpliceInHead(c, below, after, i, Descend(nodes', x, false));
  }

  /** When `x` shows after everything below the first node of `cs`, that
      node and what shows below it are untouched, and `x` is a row of the
      rest of `cs`. */
  lemma HeadKept<Item>(nodes: seq<TreeItem<Item>>, nodes': seq<TreeItem<Item>>, cs: seq<nat>, lo: nat, x: nat, i: nat)
    requires SpliceSetting(nodes, nodes', cs, lo, x, i) && |cs| > 0 && cs[0] != x
    requires i > |Descend(nodes, cs[0], false)|
    ensures Descend(nodes', cs[0], false) == Descend(nodes, cs[0], false)
    ensures SpliceSetting(nodes, nodes', cs[1..], lo, x, i - 1 - |Descend(nodes, cs[0], false)|)
  {
    var c := cs[0];
    var rows := Flatten(nodes, cs, lo, false);
    var below := Descend(nodes, c, false);
    var after := Flatten(nodes, cs[1..], lo, false);
    FlattenStep(nodes, cs, lo, false, c);
    assert rows == [c] + below + after;
    NoDupSplit([c] + below, after);
    NoDupSplit([c], below);
    KeptExceptParts(nodes, nodes', c, below, after, x);
    assert nodes'[c] == nodes[c] by {
      assert rows[0] == c;
    }
    assert after[i - 1 - |below|] == rows[i];
    if nodes[c].isExpanded {
      FlagFrame(nodes, nodes', nodes[c].subitems, c + 1, false);
    }
  }

  /** Case of `ExpandSplicesBelow`: `x` shows after the first node's rows. */
  lemma {:induction false} SpliceInRest<Item>(nodes: seq<TreeItem<Item>>, nodes': seq<TreeItem<Item>>, cs: seq<nat>, lo: nat, x: nat, i: nat)
    requires SpliceSetting(nodes, nodes', cs, lo, x, i) && |cs| > 0 && cs[0] != x
    requires i > |Descend(nodes, cs[0], false)|
    ensures var rows := Flatten(nodes, cs, lo, false);
            Flatten(nodes', cs, lo, false) == rows[..i + 1] + Descend(nodes', x, false) + rows[i + 1..]
    decreases |nodes| - lo, |cs|, 0
  {
    var c := cs[0];
    var below := Descend(nodes, c, false);
    var after := Flatten(nodes, cs[1..], lo, false);
    FlattenStep(nodes, cs, lo, false, c);
    FlattenStep(nodes', cs, lo, false, c);
    HeadKept(nodes, nodes', cs, lo, x, i);
    var j := i - 1 - |below|;
    ExpandSplicesBelow(nodes, nodes', cs[1..], lo, x, j);
    SpliceInTail(c, below, after, j, Descend(nodes', x, false));
  }

  /** Expanding a collapsed visible node, possibly together with nodes of its
      subtree, inserts the rows now shown below it right after it. */
  lemma ExpandSplicesRows<Item>(nodes: seq<TreeItem<Item>>, nodes': seq<TreeItem<Item>>, roots: seq<nat>, x: nat, i: nat)
    requires WellFormed(nodes, roots) && SameShape(nodes, nodes')
    requires x < |nodes| && !nodes[x].isExpanded && nodes'[x].isExpanded
    requires forall d :: 0 <= d < |nodes| && nodes'[d].isExpanded != nodes[d].isExpanded ==> d in Subtree(nodes, x)
    requires i < |Visible(nodes, roots)| && Visible(nodes, roots)[i] == x
    ensures ArenaOk(nodes')
    ensures var rows := Visible(nodes, roots);
            Visible(nodes', roots) == rows[..i + 1] + Descend(nodes', x, false) + rows[i + 1..]
  {
    var rows := Visible(nodes, roots);
    SameShapeKeepsArena(nodes, nodes', roots);
    ProjectionsNoDup(nodes, roots);
    CollapsedHidesDescendants(nodes, roots, x);
    SubtreeStep(nodes, x);
    forall k | 0 <= k < |rows| && rows[k] != x ensures nodes'[rows[k]].isExpanded == nodes[rows[k]].isExpanded {
      var d := rows[k];
      assert d !in Subtree(nodes, x)[1..];
      assert d !in Subtree(nodes, x);
    }
    ExpandSplicesBelow(nodes, nodes', roots, 0, x, i);
  }

  /** With the roots collapsed only the roots show; expanding root k whose
      children are collapsed inserts exactly those children right after it
      (at index 1 for the first root, at the end for the last). */
  lemma ExpandRootInsertsChildren<Item>(nodes: seq<TreeItem<Item>>, roots: seq<nat>, k: nat)
    requires WellFormed(nodes, roots) && k < |roots|
    requires AllFlagged(nodes, roots, false) && AllFlagged(nodes, nodes[roots[k]].subitems, false)
    ensures Visible(SetFlag(nodes, roots[k], true), roots)
            == roots[..k + 1] + nodes[roots[k]].subitems + roots[k + 1..]
  {
    var r := roots[k];
    var expanded := SetFlag(nodes, r, true);
    var sub := nodes[r].subitems;
    assert Visible(nodes, roots) == roots by {
      AllCollapsedShowsHeads(nodes, roots, 0);
    }
    assert r in Subtree(nodes, r) by {
      HeadInFlatten(nodes, [r], r, true, 0);
    }
    ExpandSplicesRows(nodes, expanded, roots, r, k);
    assert Descend(expanded, r, false) == sub by {
      assert AllFlagged(expanded, sub, false) by {
        forall j | 0 <= j < |sub| ensures sub[j] != r {
          assert r < sub[j];
        }
      }
      AllCollapsedShowsHeads(expanded, sub, r + 1);
    }
  }

  /** Expanding every level of a collapsed visible node inserts its whole
      pre-order subtree (without the node itself) right after it. */
  lemma ExpandAllLevelsInsertsSubtree<Item>(nodes: seq<TreeItem<Item>>, roots: seq<nat>, x: nat, i: nat)
    requires WellFormed(nodes, roots) && x < |nodes| && !nodes[x].isExpanded
    requires i < |Visible(nodes, roots)| && Visible(nodes, roots)[i] == x
    ensures var rows := Visible(nodes, roots);
            Visible(FlagAll(nodes, Subtree(nodes, x), true), roots)
            == rows[..i + 1] + Subtree(nodes, x)[1..] + rows[i + 1..]
  {
    var sub := Subtree(nodes, x);
    var expanded := FlagAll(nodes, sub, true);
    SubtreeStep(nodes, x);
    ExpandSplicesRows(nodes, expanded, roots, x, i);
    var children := nodes[x].subitems;
    FlagFrame(nodes, expanded, children, x + 1, true);
    assert AllFlagged(expanded, Flatten(expanded, children, x + 1, true), true);
    AllExpandedShowsAll(expanded, children, x + 1);
  }

  /** Sets the expansion flag of every listed node, one node after the other. */
  method FlagEach<Item>(nodes: seq<TreeItem<Item>>, s: seq<nat>, flag: bool) returns (ns: seq<TreeItem<Item>>)
    requires forall k :: 0 <= k < |s| ==> s[k] < |nodes|
    ensures ns == FlagAll(nodes, s, flag)
  {
    ns := nodes;
    assert FlagAll(nodes, [], flag) == nodes;
    for k := 0 to |s|
      invariant ns == FlagAll(nodes, s[..k], flag)
    {
      FlagAllExtend(nodes, s[..k], s[k], flag);
      assert s[..k + 1] == s[..k] + [s[k]];
      ns := SetFlag(ns, s[k], flag);
    }
    assert s[..|s|] == s;
  }
}
