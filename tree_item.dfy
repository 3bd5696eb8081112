/** The nodes of a list tree data source.

    Nodes live in an arena (a sequence) and refer to each other by index:
    a node owns its ordered `subitems`, and its `parent` is a non-owning
    back-reference. A node is only ever added at the end of the arena, after
    its parent, so a parent always has a smaller index than its children. */
module TreeItems {

  datatype Option<T> = None | Some(value: T)

  /** One node of the forest: the user value it wraps, its ordered children,
      its expansion flag and its parent (None for a root). */
  datatype TreeItem<Item> = TreeItem(value: Item, subitems: seq<nat>, isExpanded: bool, parent: Option<nat>)

  ghost predicate NoDup(s: seq<nat>)
  {
    forall i, j :: 0 <= i < j < |s| ==> s[i] != s[j]
  }

  /** Concatenating two duplicate-free, disjoint sequences. */
  lemma NoDupConcat(a: seq<nat>, b: seq<nat>)
    requires NoDup(a) && NoDup(b)
    requires forall x :: x in a ==> x !in b
    ensures NoDup(a + b)
  {
    forall i, j | 0 <= i < j < |a + b| ensures (a + b)[i] != (a + b)[j] {
      if i < |a| && j >= |a| {
        assert (a + b)[i] in a && (a + b)[j] in b;
      }
    }
  }

  /** The tail of a duplicate-free sequence is duplicate-free and misses the head. */
  lemma NoDupTail(s: seq<nat>)
    requires NoDup(s) && s != []
    ensures NoDup(s[1..]) && s[0] !in s[1..]
  {
    forall i, j | 0 <= i < j < |s[1..]| ensures s[1..][i] != s[1..][j] {
      assert s[1..][i] == s[i + 1] && s[1..][j] == s[j + 1];
    }
  }

  /** The parts of a duplicate-free concatenation. */
  lemma NoDupSplit(a: seq<nat>, b: seq<nat>)
    requires NoDup(a + b)
    ensures NoDup(a) && NoDup(b) && forall v :: v in a ==> v !in b
  {
    forall i, j | 0 <= i < j < |a| ensures a[i] != a[j] {
      assert a[i] == (a + b)[i] && a[j] == (a + b)[j];
    }
    forall i, j | 0 <= i < j < |b| ensures b[i] != b[j] {
      assert b[i] == (a + b)[|a| + i] && b[j] == (a + b)[|a| + j];
    }
    forall v | v in a ensures v !in b {
      var i :| 0 <= i < |a| && a[i] == v;
      forall j | 0 <= j < |b| ensures b[j] != v {
        assert (a + b)[i] != (a + b)[|a| + j];
      }
    }
  }

  /** Every index of `cs` lies in [lo, hi). */
  ghost predicate Within(cs: seq<nat>, lo: nat, hi: nat)
  {
    forall k :: 0 <= k < |cs| ==> lo <= cs[k] < hi
  }

  /** A parent is always created before its children. */
  ghost predicate ParentBefore<Item>(nodes: seq<TreeItem<Item>>)
  {
    forall i :: 0 <= i < |nodes| && nodes[i].parent.Some? ==> nodes[i].parent.value < i
  }

  /** Children are arena nodes created after their parent. */
  ghost predicate ChildrenAfter<Item>(nodes: seq<TreeItem<Item>>)
  {
    forall i, k :: 0 <= i < |nodes| && 0 <= k < |nodes[i].subitems| ==> i < nodes[i].subitems[k] < |nodes|
  }

  /** `n` is among `p.subitems` only if `n.parent` is `p`. */
  ghost predicate ChildrenLinked<Item>(nodes: seq<TreeItem<Item>>)
    requires ChildrenAfter(nodes)
  {
    forall i, k :: 0 <= i < |nodes| && 0 <= k < |nodes[i].subitems| ==> nodes[nodes[i].subitems[k]].parent == Some(i)
  }

  ghost predicate SiblingsDistinct<Item>(nodes: seq<TreeItem<Item>>)
  {
    forall i :: 0 <= i < |nodes| ==> NoDup(nodes[i].subitems)
  }

  ghost predicate ArenaOk<Item>(nodes: seq<TreeItem<Item>>)
  {
    ParentBefore(nodes) && ChildrenAfter(nodes) && ChildrenLinked(nodes) && SiblingsDistinct(nodes)
  }

  /** The backing store: distinct arena nodes without a parent. */
  ghost predicate RootsOk<Item>(nodes: seq<TreeItem<Item>>, roots: seq<nat>)
  {
    && NoDup(roots)
    && forall k :: 0 <= k < |roots| ==> roots[k] < |nodes| && nodes[roots[k]].parent == None
  }

  ghost predicate WellFormed<Item>(nodes: seq<TreeItem<Item>>, roots: seq<nat>)
  {
    ArenaOk(nodes) && RootsOk(nodes, roots)
  }

  /** `after` is `before` with only expansion flags possibly changed. */
  ghost predicate SameShape<Item>(before: seq<TreeItem<Item>>, after: seq<TreeItem<Item>>)
  {
    && |after| == |before|
    && forall i :: 0 <= i < |before| ==> after[i] == before[i].(isExpanded := after[i].isExpanded)
  }

  /** The level of a node: the number of parent hops up to a root. */
  function Level<Item>(nodes: seq<TreeItem<Item>>, i: nat): nat
    requires ParentBefore(nodes) && i < |nodes|
    decreases i
  {
    match nodes[i].parent
    case None => 0
    case Some(p) => 1 + Level(nodes, p)
  }

  /** `a` is `d` or one of `d`'s ancestors along the parent links. */
  ghost predicate IsAncestorOrSelf<Item>(nodes: seq<TreeItem<Item>>, a: nat, d: nat)
    requires ParentBefore(nodes) && d < |nodes|
    decreases d
  {
    d == a || (nodes[d].parent.Some? && IsAncestorOrSelf(nodes, a, nodes[d].parent.value))
  }

  lemma SameShapeKeepsArena<Item>(before: seq<TreeItem<Item>>, after: seq<TreeItem<Item>>, roots: seq<nat>)
    requires SameShape(before, after)
    ensures ArenaOk(before) ==> ArenaOk(after)
    ensures WellFormed(before, roots) ==> WellFormed(after, roots)
  {
    if ArenaOk(before) {
      forall i, k | 0 <= i < |after| && 0 <= k < |after[i].subitems|
        ensures i < after[i].subitems[k] < |after| && after[after[i].subitems[k]].parent == Some(i)
      {
        assert after[i].subitems == before[i].subitems;
        assert before[i].subitems[k] < |before|;
      }
      forall i | 0 <= i < |after| ensures NoDup(after[i].subitems) {
        assert after[i].subitems == before[i].subitems;
      }
    }
  }

  /** An ancestor is always created before its descendants. */
  lemma {:induction false} AncestorBefore<Item>(nodes: seq<TreeItem<Item>>, a: nat, d: nat)
    requires ParentBefore(nodes) && d < |nodes|
    requires IsAncestorOrSelf(nodes, a, d)
    ensures a <= d
    decreases d
  {
    if d != a {
      AncestorBefore(nodes, a, nodes[d].parent.value);
    }
  }

  /** Whatever lies under a child of `p` lies under `p`. */
  lemma {:induction false} AncestorOfParent<Item>(nodes: seq<TreeItem<Item>>, c: nat, d: nat)
    requires ParentBefore(nodes) && c < |nodes| && d < |nodes|
    requires nodes[c].parent.Some? && IsAncestorOrSelf(nodes, c, d)
    ensures IsAncestorOrSelf(nodes, nodes[c].parent.value, d)
    decreases d
  {
    if d != c {
      AncestorOfParent(nodes, c, nodes[d].parent.value);
    }
  }

  /** Two distinct siblings (or two distinct parentless nodes) head
      disjoint subtrees. */
  lemma {:induction false} SiblingSubtreesDisjoint<Item>(nodes: seq<TreeItem<Item>>, a: nat, b: nat, d: nat)
    requires ParentBefore(nodes) && a < |nodes| && b < |nodes| && d < |nodes|
    requires a != b && nodes[a].parent == nodes[b].parent
    ensures !IsAncestorOrSelf(nodes, a, d) || !IsAncestorOrSelf(nodes, b, d)
    decreases d
  {
    if IsAncestorOrSelf(nodes, a, d) && IsAncestorOrSelf(nodes, b, d) {
      if d == a {
        var p := nodes[a].parent.value;
        AncestorBefore(nodes, b, p);
      } else if d == b {
        var p := nodes[b].parent.value;
        AncestorBefore(nodes, a, p);
      } else {
        SiblingSubtreesDisjoint(nodes, a, b, nodes[d].parent.value);
      }
    }
  }
}
