/** Levels of nodes against an independently built depth table.

    The depth table walks the hierarchy top-down, handing each node the depth
    of its parent plus one; `Level` walks the parent links bottom-up. */
module Levels {
  import opened TreeItems
  import opened Flattening
  import opened Expansion

  /** The pre-order traversal of `cs` paired with depths counted from
      `depth` downwards, built without looking at parent links. */
  function DepthTable<Item>(nodes: seq<TreeItem<Item>>, cs: seq<nat>, lo: nat, depth: nat): seq<(nat, nat)>
    requires ChildrenAfter(nodes) && Within(cs, lo, |nodes|)
    decreases |nodes| - lo, |cs|
  {
    if cs == [] then []
    else
      var c := cs[0];
      [(c, depth)] + DepthTable(nodes, nodes[c].subitems, c + 1, depth + 1) + DepthTable(nodes, cs[1..], lo, depth)
  }

  /** The depth table lists exactly the full pre-order traversal. */
  lemma {:induction false} DepthTableTraverses<Item>(nodes: seq<TreeItem<Item>>, cs: seq<nat>, lo: nat, depth: nat)
    requires ChildrenAfter(nodes) && Within(cs, lo, |nodes|)
    ensures |DepthTable(nodes, cs, lo, depth)| == |Flatten(nodes, cs, lo, true)|
    ensures forall k :: 0 <= k < |DepthTable(nodes, cs, lo, depth)| ==>
              DepthTable(nodes, cs, lo, depth)[k].0 == Flatten(nodes, cs, lo, true)[k]
    decreases |nodes| - lo, |cs|
  {
    if cs != [] {
      var c := cs[0];
      DepthTableTraverses(nodes, nodes[c].subitems, c + 1, depth + 1);
      DepthTableTraverses(nodes, cs[1..], lo, depth);
      var under := DepthTable(nodes, nodes[c].subitems, c + 1, depth + 1);
      var rest := DepthTable(nodes, cs[1..], lo, depth);
      var t := DepthTable(nodes, cs, lo, depth);
      assert t == [(c, depth)] + under + rest;
      FlattenStep(nodes, cs, lo, true, c);
      var all := Flatten(nodes, cs, lo, true);
      assert all == [c] + Flatten(nodes, nodes[c].subitems, c + 1, true) + Flatten(nodes, cs[1..], lo, true);
      forall k | 0 <= k < |t| ensures t[k].0 == all[k] {
        if k == 0 {
        } else if k <= |under| {
          assert t[k] == under[k - 1];
        } else {
          assert t[k] == rest[k - 1 - |under|];
        }
      }
    }
  }

  /** Changing expansion flags leaves every level as it was. */
  lemma {:induction false} LevelKeepsShape<Item>(nodes: seq<TreeItem<Item>>, nodes': seq<TreeItem<Item>>, i: nat)
    requires ParentBefore(nodes) && SameShape(nodes, nodes') && i < |nodes|
    ensures ParentBefore(nodes') && Level(nodes', i) == Level(nodes, i)
    decreases i
  {
    assert nodes'[i].parent == nodes[i].parent;
    if nodes[i].parent.Some? {
      LevelKeepsShape(nodes, nodes', nodes[i].parent.value);
    }
  }

  /** When every listed node sits at level `depth`, the table's depths are
      the levels of its nodes. */
  lemma {:induction false} DepthsAreLevels<Item>(nodes: seq<TreeItem<Item>>, cs: seq<nat>, lo: nat, depth: nat)
    requires ArenaOk(nodes) && Within(cs, lo, |nodes|)
    requires forall k :: 0 <= k < |cs| ==> Level(nodes, cs[k]) == depth
    ensures forall k :: 0 <= k < |DepthTable(nodes, cs, lo, depth)| ==>
              DepthTable(nodes, cs, lo, depth)[k].0 < |nodes|
              && DepthTable(nodes, cs, lo, depth)[k].1 == Level(nodes, DepthTable(nodes, cs, lo, depth)[k].0)
    decreases |nodes| - lo, |cs|
  {
    if cs != [] {
      var c := cs[0];
      var sub := nodes[c].subitems;
      forall k | 0 <= k < |sub| ensures Level(nodes, sub[k]) == depth + 1 {
        assert nodes[sub[k]].parent == Some(c);
      }
      DepthsAreLevels(nodes, sub, c + 1, depth + 1);
      DepthsAreLevels(nodes, cs[1..], lo, depth);
      var under := DepthTable(nodes, sub, c + 1, depth + 1);
      var rest := DepthTable(nodes, cs[1..], lo, depth);
      var t := DepthTable(nodes, cs, lo, depth);
      assert t == [(c, depth)] + under + rest;
      forall k | 0 <= k < |t| ensures t[k].0 < |nodes| && t[k].1 == Level(nodes, t[k].0) {
        if k == 0 {
          assert Level(nodes, cs[0]) == depth;
          assert t[k] == (c, depth);
        } else if k <= |under| {
          assert t[k] == under[k - 1];
          assert under[k - 1].1 == Level(nodes, under[k - 1].0);
        } else {
          assert t[k] == rest[k - 1 - |under|];
          assert rest[k - 1 - |under|].1 == Level(nodes, rest[k - 1 - |under|].0);
        }
      }
    }
  }

  /** The depth table of the roots lists the full traversal, each node with
      its level. */
  lemma DepthTableGivesLevels<Item>(nodes: seq<TreeItem<Item>>, roots: seq<nat>)
    requires WellFormed(nodes, roots)
    ensures var t := DepthTable(nodes, roots, 0, 0);
            && |t| == |AllPreorder(nodes, roots)|
            && forall k :: 0 <= k < |t| ==> t[k] == (AllPreorder(nodes, roots)[k], Level(nodes, AllPreorder(nodes, roots)[k]))
  {
    DepthsAreLevels(nodes, roots, 0, 0);
    DepthTableTraverses(nodes, roots, 0, 0);
  }

  /** After expanding every node, row k of the display is entry k of the
      depth table and its level is the depth recorded there. */
  lemma ExpandedRowsMatchDepthTable<Item>(nodes: seq<TreeItem<Item>>, roots: seq<nat>)
    requires WellFormed(nodes, roots)
    ensures var expanded := FlagAll(nodes, AllPreorder(nodes, roots), true);
            var rows := Visible(expanded, roots);
            var t := DepthTable(nodes, roots, 0, 0);
            && ParentBefore(expanded)
            && |rows| == |t|
            && forall k :: 0 <= k < |rows| ==> rows[k] == t[k].0 && rows[k] < |expanded| && Level(expanded, rows[k]) == t[k].1
  {
    var expanded := FlagAll(nodes, AllPreorder(nodes, roots), true);
    ExpandAllShowsEverything(nodes, roots);
    DepthTableGivesLevels(nodes, roots);
    var rows := Visible(expanded, roots);
    forall k | 0 <= k < |rows| ensures rows[k] < |expanded| && Level(expanded, rows[k]) == Level(nodes, rows[k]) {
      LevelKeepsShape(nodes, expanded, rows[k]);
    }
  }
}
