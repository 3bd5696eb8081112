/** The list tree data source: a forest of tree items, a lookup index from
    values to nodes, and the flat rows (`items`) a reload shows. */
module ListTree {
  import opened TreeItems
  import opened Flattening
  import opened Expansion
  import opened Editing

  /** The state an insert beside the node `lookup` holds for `existing`
      leaves: the new leaves are spliced into the anchor's containing
      sequence at the anchor's first position (`after` false) or right after
      it, and registered in the index. An anchor the index does not know, or
      one that is no longer in its containing sequence, leaves everything as
      it was. */
  ghost predicate Inserted<Item(!new)>(nodes: seq<TreeItem<Item>>, roots: seq<nat>, lookup: map<Item, nat>,
                                       newItems: seq<Item>, existing: Item, after: bool,
                                       nodes': seq<TreeItem<Item>>, roots': seq<nat>, lookup': map<Item, nat>)
    requires ParentBefore(nodes) && (existing in lookup ==> lookup[existing] < |nodes|)
  {
    if existing !in lookup || lookup[existing] !in Container(nodes, roots, nodes[lookup[existing]].parent) then
      nodes' == nodes && roots' == roots && lookup' == lookup
    else
      var x := lookup[existing];
      var parent := nodes[x].parent;
      var c := Container(nodes, roots, parent);
      var at := if after then Position(c, x) + 1 else Position(c, x);
      var c' := c[..at] + Fresh(|nodes|, |newItems|) + c[at..];
      && nodes' == Touch(nodes, parent, c') + Leaves(newItems, parent)
      && Container(nodes', roots', parent) == c'
      && (parent.Some? ==> roots' == roots)
      && lookup' == Register(lookup, newItems, |nodes|)
  }

  class ListTreeDataSource<Item(==,!new)> {
    /** Every node created so far, addressed by index. A deleted node stays
        here, unreachable from the roots. */
    var nodes: seq<TreeItem<Item>>
    /** The roots of the forest, in order. */
    var backingStore: seq<nat>
    /** Value to node, as of the last reload plus the nodes added since. */
    var lookupTable: map<Item, nat>
    /** The rows shown, as of the last refresh. */
    var items: seq<nat>

    ghost predicate Valid()
      reads this
    {
      && WellFormed(nodes, backingStore)
      && IndexSound(nodes, lookupTable)
      && (forall k :: 0 <= k < |items| ==> items[k] < |nodes|)
    }

    constructor ()
      ensures Valid()
      ensures nodes == [] && backingStore == [] && lookupTable == map[] && items == []
    {
      nodes := [];
      backingStore := [];
      lookupTable := map[];
      items := [];
    }

    /** Creates one collapsed, childless node per value, with parent
        `parent`, and places them in order at position `pos` of the parent's
        subitems (of the roots when `parent` is None); each new value is
        registered in the lookup index at once. */
    method PlaceAll(newItems: seq<Item>, parent: Option<nat>, pos: nat)
      requires Valid() && (parent.Some? ==> parent.value < |nodes|)
      requires pos <= |Container(nodes, backingStore, parent)|
      modifies this
      ensures Valid() && items == old(items) && |nodes| == old(|nodes|) + |newItems|
      ensures var c := old(Container(nodes, backingStore, parent));
              var c' := c[..pos] + Fresh(old(|nodes|), |newItems|) + c[pos..];
              && Container(nodes, backingStore, parent) == c'
              && nodes == Touch(old(nodes), parent, c') + Leaves(newItems, parent)
              && (parent.None? ==> backingStore == c')
              && (parent.Some? ==> backingStore == old(backingStore))
      ensures lookupTable == Register(old(lookupTable), newItems, old(|nodes|))
    {
      ghost var c := Container(nodes, backingStore, parent);
      var ns, rs := AddAll(nodes, backingStore, newItems, parent, pos);
      RegisterSound(nodes, lookupTable, newItems, parent, c[..pos] + Fresh(|nodes|, |newItems|) + c[pos..]);
      nodes, backingStore, lookupTable := ns, rs, Register(lookupTable, newItems, |nodes|);
    }

    /** append(_, to:): the new values become the last roots, or the last
        subitems of the node holding `to`; nothing happens when `to` names a
        value the lookup index does not know. Every new value can be looked
        up at once. */
    method Append(newItems: seq<Item>, to: Option<Item>)
      requires Valid()
      modifies this
      ensures Valid() && items == old(items)
      ensures to.Some? && to.value !in old(lookupTable) ==>
                nodes == old(nodes) && backingStore == old(backingStore) && lookupTable == old(lookupTable)
      ensures to.None? ==>
                && backingStore == old(backingStore) + Fresh(old(|nodes|), |newItems|)
                && nodes == old(nodes) + Leaves(newItems, None)
      ensures to.Some? && to.value in old(lookupTable) ==>
                var p := old(lookupTable[to.value]);
                && backingStore == old(backingStore)
                && nodes == Touch(old(nodes), Some(p), old(nodes[p].subitems) + Fresh(old(|nodes|), |newItems|)) + Leaves(newItems, Some(p))
      ensures to.None? || to.value in old(lookupTable) ==>
                && lookupTable == Register(old(lookupTable), newItems, old(|nodes|))
                && forall k :: 0 <= k < |newItems| ==> newItems[k] in lookupTable && nodes[lookupTable[newItems[k]]].value == newItems[k]
    {
      var parent: Option<nat> := None;
      if to.Some? {
        if to.value !in lookupTable {
          return;
        }
        parent := Some(lookupTable[to.value]);
      }
      var c := Container(nodes, backingStore, parent);
      assert c[..|c|] + Fresh(|nodes|, |newItems|) + c[|c|..] == c + Fresh(|nodes|, |newItems|);
      PlaceAll(newItems, parent, |c|);
    }

    /** insert(_, before:) and insert(_, after:): the new values become
        siblings of the node holding `existing`, right before or right after
        it in its containing sequence. Nothing happens when the lookup index
        does not know `existing` or the node is no longer in that sequence. */
    method InsertBeside(newItems: seq<Item>, existing: Item, after: bool)
      requires Valid()
      modifies this
      ensures Valid() && items == old(items) && old(|nodes|) <= |nodes|
      ensures Inserted(old(nodes), old(backingStore), old(lookupTable), newItems, existing, after,
                       nodes, backingStore, lookupTable)
    {
      if existing !in lookupTable {
        return;
      }
      var x := lookupTable[existing];
      var parent := nodes[x].parent;
      var c := Container(nodes, backingStore, parent);
      var found := FirstIndex(c, x);
      if found.None? {
        return;
      }
      var i := found.value;
      ContainerNoDup(nodes, backingStore, parent);
      OnlyPosition(c, x, i);
      var at := if after then i + 1 else i;
      PlaceAll(newItems, parent, at);
    }

    /** insert(_, before:): the new values go right before the anchor. */
    method InsertBefore(newItems: seq<Item>, before: Item)
      requires Valid()
      modifies this
      ensures Valid() && items == old(items) && old(|nodes|) <= |nodes|
      ensures Inserted(old(nodes), old(backingStore), old(lookupTable), newItems, before, false,
                       nodes, backingStore, lookupTable)
    {
      InsertBeside(newItems, before, false);
    }

    /** insert(_, after:): the new values go right after the anchor. */
    method InsertAfter(newItems: seq<Item>, after: Item)
      requires Valid()
      modifies this
      ensures Valid() && items == old(items) && old(|nodes|) <= |nodes|
      ensures Inserted(old(nodes), old(backingStore), old(lookupTable), newItems, after, true,
                       nodes, backingStore, lookupTable)
    {
      InsertBeside(newItems, after, true);
    }

    /** delete(_): detaches the node the lookup index holds for each value,
        with its whole subtree; values it does not hold are skipped. The roots
        and every subitems list lose exactly those nodes and keep the order of
        the rest. The rows and the lookup index stay as they were until the
        next reload. */
    method Delete(values: seq<Item>)
      requires Valid()
      modifies this
      ensures Valid() && items == old(items) && lookupTable == old(lookupTable)
      ensures SameAncestry(old(nodes), nodes)
      ensures backingStore == Strip(old(backingStore), Targets(lookupTable, values))
      ensures forall i :: 0 <= i < |nodes| ==> nodes[i].subitems == Strip(old(nodes)[i].subitems, Targets(lookupTable, values))
      ensures forall d :: 0 <= d < |nodes| ==>
                (d in AllPreorder(nodes, backingStore) <==>
                 d in old(AllPreorder(nodes, backingStore)) && Spared(old(nodes), lookupTable, values, d))
    {
      var ns, rs := Prune(nodes, backingStore, lookupTable, values);
      AncestryKeepsIndex(nodes, ns, lookupTable);
      nodes, backingStore := ns, rs;
    }

    /** reload(): publishes the rows the expansion flags show and rebuilds
        the lookup index from the full traversal, so that every value held by
        a node still in the forest can be looked up, and no other. */
    method Reload()
      requires Valid()
      modifies this
      ensures Valid() && nodes == old(nodes) && backingStore == old(backingStore)
      ensures items == Visible(nodes, backingStore)
      ensures lookupTable == IndexOf(nodes, AllPreorder(nodes, backingStore))
    {
      items := Visible(nodes, backingStore);
      lookupTable := BuildIndex(nodes, AllPreorder(nodes, backingStore));
    }

    /** lookup(_): the node holding `v`, if the lookup index knows it. */
    method Lookup(v: Item) returns (r: Option<nat>)
      requires Valid()
      ensures r.Some? <==> v in lookupTable
      ensures r.Some? ==> r.value == lookupTable[v] && r.value < |nodes| && nodes[r.value].value == v
    {
      if v in lookupTable {
        r := Some(lookupTable[v]);
      } else {
        r := None;
      }
    }

    /** level(of:): the number of parent hops from node `x` up to a root. */
    method LevelOf(x: nat) returns (r: nat)
      requires Valid() && x < |nodes|
      ensures r == Level(nodes, x)
    {
      r := 0;
      var n: nat := x;
      while nodes[n].parent.Some?
        invariant n < |nodes| && r + Level(nodes, n) == Level(nodes, x)
        decreases n
      {
        n := nodes[n].parent.value;
        r := r + 1;
      }
    }

    /** `item.isExpanded = flag`: a direct write to one node's flag; the
        rows change only at the next reload. */
    method SetExpanded(x: nat, flag: bool)
      requires Valid() && x < |nodes|
      modifies this
      ensures Valid() && items == old(items) && backingStore == old(backingStore) && lookupTable == old(lookupTable)
      ensures nodes == SetFlag(old(nodes), x, flag)
    {
      var ns := SetFlag(nodes, x, flag);
      SameShapeKeepsArena(nodes, ns, backingStore);
      ShapeKeepsIndex(nodes, ns, lookupTable);
      nodes := ns;
    }

    /** Sets the flag of every listed node, then reloads. */
    method FlagAndReload(s: seq<nat>, flag: bool)
      requires Valid() && forall k :: 0 <= k < |s| ==> s[k] < |nodes|
      modifies this
      ensures Valid() && backingStore == old(backingStore)
      ensures nodes == FlagAll(old(nodes), s, flag)
      ensures items == Visible(nodes, backingStore)
      ensures lookupTable == IndexOf(nodes, AllPreorder(nodes, backingStore))
    {
      var ns := FlagEach(nodes, s, flag);
      SameShapeKeepsArena(nodes, ns, backingStore);
      ShapeKeepsIndex(nodes, ns, lookupTable);
      nodes := ns;
      Reload();
    }

    /** toggleExpand(item:): flips the node's flag and refreshes the rows.
        A shown node stays shown; its children become shown exactly when it
        was collapsed. */
    method ToggleExpand(x: nat)
      requires Valid() && x < |nodes|
      modifies this
      ensures Valid() && backingStore == old(backingStore)
      ensures nodes == SetFlag(old(nodes), x, !old(nodes[x].isExpanded))
      ensures items == Visible(nodes, backingStore)
      ensures x in old(Visible(nodes, backingStore)) ==>
                && x in items
                && forall k :: 0 <= k < |nodes[x].subitems| ==>
                     (nodes[x].subitems[k] in items <==> !old(nodes[x].isExpanded))
      ensures lookupTable == IndexOf(nodes, AllPreorder(nodes, backingStore))
    {
      if x in Visible(nodes, backingStore) {
        ToggleShowsOrHidesChildren(nodes, backingStore, x);
      }
      SetExpanded(x, !nodes[x].isExpanded);
      Reload();
    }

    /** expandAll(): expands every node; the rows become the full
        traversal. */
    method ExpandAll()
      requires Valid()
      modifies this
      ensures Valid() && backingStore == old(backingStore)
      ensures nodes == FlagAll(old(nodes), old(AllPreorder(nodes, backingStore)), true)
      ensures items == AllPreorder(nodes, backingStore) && items == old(AllPreorder(nodes, backingStore))
      ensures items == Visible(nodes, backingStore)
      ensures lookupTable == IndexOf(nodes, AllPreorder(nodes, backingStore))
    {
      ExpandAllShowsEverything(nodes, backingStore);
      ghost var before := nodes;
      FlagAndReload(AllPreorder(nodes, backingStore), true);
      FlagFrame(before, nodes, backingStore, 0, true);
    }

    /** collapseAll(): collapses every node; the rows become the roots. */
    method CollapseAll()
      requires Valid()
      modifies this
      ensures Valid() && backingStore == old(backingStore)
      ensures nodes == FlagAll(old(nodes), old(AllPreorder(nodes, backingStore)), false)
      ensures items == backingStore
      ensures items == Visible(nodes, backingStore)
      ensures lookupTable == IndexOf(nodes, AllPreorder(nodes, backingStore))
    {
      CollapseAllShowsRoots(nodes, backingStore);
      FlagAndReload(AllPreorder(nodes, backingStore), false);
    }

    /** updateAllLevels(of:isExpanded:): sets the flag of the node and of all
        its descendants, then refreshes the rows. Expanding a shown node
        shows its whole subtree; collapsing hides every proper descendant. */
    method UpdateAllLevels(x: nat, flag: bool)
      requires Valid() && x < |nodes|
      modifies this
      ensures Valid() && backingStore == old(backingStore)
      ensures nodes == FlagAll(old(nodes), old(Subtree(nodes, x)), flag)
      ensures items == Visible(nodes, backingStore)
      ensures flag && x in old(Visible(nodes, backingStore)) ==>
                forall d :: d in old(Subtree(nodes, x)) ==> d in items
      ensures !flag ==> forall d :: d in old(Subtree(nodes, x))[1..] ==> d !in items
      ensures lookupTable == IndexOf(nodes, AllPreorder(nodes, backingStore))
    {
      if flag && x in Visible(nodes, backingStore) {
        ExpandAllLevelsShowsSubtree(nodes, backingStore, x);
      }
      if !flag {
        CollapseAllLevelsHidesDescendants(nodes, backingStore, x);
      }
      FlagAndReload(Subtree(nodes, x), flag);
    }
  }
}
