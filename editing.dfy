/** Structural edits of the forest: adding a node next to its siblings,
    detaching a node together with its subtree, finding a node in its
    containing sequence and rebuilding the value-to-node index. */
module Editing {
  import opened TreeItems
  import opened Flattening

  /** `s` with `x` removed and the order of the rest kept. */
  function Without(s: seq<nat>, x: nat): (r: seq<nat>)
    ensures forall v :: v in r <==> v in s && v != x
    ensures x !in s ==> r == s
    ensures NoDup(s) ==> NoDup(r)
    ensures NoDup(s) && x in s ==> r == s[..Position(s, x)] + s[Position(s, x) + 1..]
  {
    if s == [] then []
    else
      var rest := Without(s[1..], x);
      assert NoDup(s) ==> NoDup(s[1..]) && s[0] !in s[1..] by {
        if NoDup(s) { NoDupTail(s); }
      }
      if s[0] == x then
        assert x in s ==> s[..Position(s, x)] + s[Position(s, x) + 1..] == s[1..];
        rest
      else
        assert NoDup(s) ==> NoDup([s[0]] + rest) by {
          if NoDup(s) { NoDupConcat([s[0]], rest); }
        }
        assert x !in s ==> s == [s[0]] + s[1..];
        assert NoDup(s) && x in s ==> [s[0]] + rest == s[..Position(s, x)] + s[Position(s, x) + 1..] by {
          if NoDup(s) && x in s { CutPastHead(s, x); }
        }
        [s[0]] + rest
  }

  /** Cutting `x` out of `s` past a different head keeps the head. */
  lemma CutPastHead(s: seq<nat>, x: nat)
    requires x in s && s[0] != x
    ensures x in s[1..] && Position(s, x) == 1 + Position(s[1..], x)
    ensures var i := Position(s[1..], x);
            [s[0]] + (s[1..][..i] + s[1..][i + 1..]) == s[..Position(s, x)] + s[Position(s, x) + 1..]
  {
    var i := Position(s[1..], x);
    assert s[..i + 1] == [s[0]] + s[1..][..i];
    assert s[i + 2..] == s[1..][i + 1..];
  }

  /** The sequence a node whose parent is `parent` belongs to: the parent's
      subitems, or the roots for a node without a parent. */
  function Container<Item>(nodes: seq<TreeItem<Item>>, roots: seq<nat>, parent: Option<nat>): seq<nat>
    requires parent.Some? ==> parent.value < |nodes|
  {
    match parent
    case None => roots
    case Some(p) => nodes[p].subitems
  }

  /** Adds a collapsed, childless node holding `v` at the end of the arena
      and places it at position `pos` of the sequence its parent owns (the
      roots when `parent` is None). */
  function AddNode<Item>(nodes: seq<TreeItem<Item>>, roots: seq<nat>, v: Item, parent: Option<nat>, pos: nat): (r: (seq<TreeItem<Item>>, seq<nat>))
    requires parent.Some? ==> parent.value < |nodes|
    requires pos <= |Container(nodes, roots, parent)|
    ensures |r.0| == |nodes| + 1 && r.0[|nodes|] == TreeItem(v, [], false, parent)
    ensures var c := Container(nodes, roots, parent);
            Container(r.0, r.1, parent) == c[..pos] + [|nodes|] + c[pos..]
    ensures parent.None? ==> r.1 == Container(r.0, r.1, parent)
    ensures parent.Some? ==> r.1 == roots
    ensures r.0 == Touch(nodes, parent, Container(r.0, r.1, parent)) + [TreeItem(v, [], false, parent)]
    ensures WellFormed(nodes, roots) ==> WellFormed(r.0, r.1)
  {
    var n := |nodes|;
    var c := Container(nodes, roots, parent);
    var placed := c[..pos] + [n] + c[pos..];
    var grown := nodes + [TreeItem(v, [], false, parent)];
    var r := match parent
      case None => (grown, placed)
      case Some(p) => (grown[p := grown[p].(subitems := placed)], roots);
    assert WellFormed(nodes, roots) ==> WellFormed(r.0, r.1) by {
      if WellFormed(nodes, roots) {
        AddNodeWellFormed(nodes, roots, c, placed, n, pos, r.0, r.1, parent);
      }
    }
    r
  }

  /** Placing a fresh index into a duplicate-free sequence keeps it
      duplicate-free. */
  lemma PlaceFresh(c: seq<nat>, pos: nat, n: nat)
    requires NoDup(c) && pos <= |c| && forall v :: v in c ==> v < n
    ensures var placed := c[..pos] + [n] + c[pos..];
            NoDup(placed) && forall v :: v in placed <==> v in c || v == n
  {
    assert c == c[..pos] + c[pos..];
    assert forall v :: v in c[..pos] || v in c[pos..] ==> v in c;
    NoDupSplit(c[..pos], c[pos..]);
    NoDupConcat(c[..pos], [n]);
    NoDupConcat(c[..pos] + [n], c[pos..]);
  }

  lemma AddNodeWellFormed<Item>(nodes: seq<TreeItem<Item>>, roots: seq<nat>, c: seq<nat>, placed: seq<nat>, n: nat, pos: nat,
                                nodes': seq<TreeItem<Item>>, roots': seq<nat>, parent: Option<nat>)
    requires WellFormed(nodes, roots) && n == |nodes| && pos <= |c| && placed == c[..pos] + [n] + c[pos..]
    requires parent.Some? ==> parent.value < |nodes|
    requires c == Container(nodes, roots, parent)
    requires |nodes'| == n + 1 && nodes'[n].subitems == [] && nodes'[n].parent == parent
    requires forall i :: 0 <= i < n ==> nodes'[i] == nodes[i].(subitems := nodes'[i].subitems)
    requires forall i :: 0 <= i < n && parent != Some(i) ==> nodes'[i] == nodes[i]
    requires parent.Some? ==> nodes'[parent.value].subitems == placed && roots' == roots
    requires parent.None? ==> roots' == placed
    ensures WellFormed(nodes', roots')
  {
    assert forall v :: v in c ==> v < n by {
      if parent.Some? {
        assert forall k :: 0 <= k < |c| ==> c[k] < n;
      }
    }
    PlaceFresh(c, pos, n);
    assert SiblingsDistinct(nodes') by {
      forall i | 0 <= i < |nodes'| ensures NoDup(nodes'[i].subitems) {
        if i < n && Some(i) != parent {
          assert nodes'[i] == nodes[i];
        }
      }
    }
    assert ChildrenAfter(nodes') && ChildrenLinked(nodes') by {
      forall i, k | 0 <= i < |nodes'| && 0 <= k < |nodes'[i].subitems|
        ensures i < nodes'[i].subitems[k] < |nodes'| && nodes'[nodes'[i].subitems[k]].parent == Some(i)
      {
        ChildOfAdded(nodes, c, placed, n, nodes', parent, i, k);
      }
    }
    assert ParentBefore(nodes') by {
      forall i | 0 <= i < |nodes'| && nodes'[i].parent.Some? ensures nodes'[i].parent.value < i {
        if i < n {
          assert nodes'[i].parent == nodes[i].parent;
        }
      }
    }
    assert RootsOk(nodes', roots') by {
      forall k | 0 <= k < |roots'| ensures roots'[k] < |nodes'| && nodes'[roots'[k]].parent == None {
        if roots'[k] < n {
          assert nodes'[roots'[k]].parent == nodes[roots'[k]].parent;
        }
      }
    }
  }

  lemma ChildOfAdded<Item>(nodes: seq<TreeItem<Item>>, c: seq<nat>, placed: seq<nat>, n: nat, nodes': seq<TreeItem<Item>>, parent: Option<nat>, i: nat, k: nat)
    requires ArenaOk(nodes) && n == |nodes| && (parent.Some? ==> parent.value < n && c == nodes[parent.value].subitems)
    requires forall v :: v in placed <==> v in c || v == n
    requires |nodes'| == n + 1 && nodes'[n].subitems == [] && nodes'[n].parent == parent
    requires forall i :: 0 <= i < n ==> nodes'[i] == nodes[i].(subitems := nodes'[i].subitems)
    requires forall i :: 0 <= i < n && parent != Some(i) ==> nodes'[i] == nodes[i]
    requires parent.Some? ==> nodes'[parent.value].subitems == placed
    requires i < |nodes'| && k < |nodes'[i].subitems|
    ensures i < nodes'[i].subitems[k] < |nodes'| && nodes'[nodes'[i].subitems[k]].parent == Some(i)
  {
    var m := nodes'[i].subitems[k];
    if Some(i) == parent {
      assert m in placed;
      if m != n {
        var k' :| 0 <= k' < |nodes[i].subitems| && nodes[i].subitems[k'] == m;
        assert nodes[m].parent == Some(i);
        assert nodes'[m].parent == nodes[m].parent;
      }
    } else {
      assert i < n && nodes'[i] == nodes[i];
      assert nodes[m].parent == Some(i);
      assert nodes'[m].parent == nodes[m].parent;
    }
  }

  /** Every node keeps its value, flag and parent link; only subitems may
      differ. */
  ghost predicate SameAncestry<Item>(before: seq<TreeItem<Item>>, after: seq<TreeItem<Item>>)
  {
    && |after| == |before|
    && forall i :: 0 <= i < |before| ==> after[i] == before[i].(subitems := after[i].subitems)
  }

  lemma {:induction false} AncestryKept<Item>(before: seq<TreeItem<Item>>, after: seq<TreeItem<Item>>, a: nat, d: nat)
    requires ParentBefore(before) && SameAncestry(before, after) && d < |before|
    ensures ParentBefore(after)
    ensures IsAncestorOrSelf(after, a, d) == IsAncestorOrSelf(before, a, d)
    decreases d
  {
    assert after[d].parent == before[d].parent;
    if before[d].parent.Some? {
      AncestryKept(before, after, a, before[d].parent.value);
    }
  }

  /** Removes `x` from the sequence that holds it: its parent's subitems, or
      the roots when it has no parent. Parent links are left as they are. */
  function Detach<Item>(nodes: seq<TreeItem<Item>>, roots: seq<nat>, x: nat): (r: (seq<TreeItem<Item>>, seq<nat>))
    requires ParentBefore(nodes) && x < |nodes|
    ensures SameAncestry(nodes, r.0)
    ensures WellFormed(nodes, roots) ==> WellFormed(r.0, r.1)
  {
    match nodes[x].parent
    case None =>
      var r := Without(roots, x);
      assert RootsOk(nodes, roots) ==> RootsOk(nodes, r) by {
        if RootsOk(nodes, roots) { UnrootKeepsRoots(nodes, roots, x); }
      }
      (nodes, r)
    case Some(p) =>
      var r := nodes[p := nodes[p].(subitems := Without(nodes[p].subitems, x))];
      assert ArenaOk(nodes) ==> ArenaOk(r) by {
        if ArenaOk(nodes) { UnlinkKeepsArena(nodes, p, x); }
      }
      assert RootsOk(nodes, roots) ==> RootsOk(r, roots);
      (r, roots)
  }

  lemma UnrootKeepsRoots<Item>(nodes: seq<TreeItem<Item>>, roots: seq<nat>, x: nat)
    requires RootsOk(nodes, roots)
    ensures RootsOk(nodes, Without(roots, x))
  {
    var r := Without(roots, x);
    forall k | 0 <= k < |r| ensures r[k] < |nodes| && nodes[r[k]].parent == None {
      assert r[k] in roots;
    }
  }

  lemma UnlinkKeepsArena<Item>(nodes: seq<TreeItem<Item>>, p: nat, x: nat)
    requires ArenaOk(nodes) && p < |nodes|
    ensures ArenaOk(nodes[p := nodes[p].(subitems := Without(nodes[p].subitems, x))])
  {
    var r := nodes[p := nodes[p].(subitems := Without(nodes[p].subitems, x))];
    forall i, k | 0 <= i < |r| && 0 <= k < |r[i].subitems|
      ensures i < r[i].subitems[k] < |r| && r[r[i].subitems[k]].parent == Some(i)
    {
      var m := r[i].subitems[k];
      assert m in nodes[i].subitems;
      var k' :| 0 <= k' < |nodes[i].subitems| && nodes[i].subitems[k'] == m;
    }
  }

  /** A node is reached from the roots after detaching `x` exactly when it
      was reached before and `x` is not among its ancestors (or itself). */
  lemma {:induction false} DetachReaches<Item>(nodes: seq<TreeItem<Item>>, roots: seq<nat>, x: nat, d: nat)
    requires WellFormed(nodes, roots) && x < |nodes| && d < |nodes|
    ensures var r := Detach(nodes, roots, x);
            ParentBefore(r.0)
            && (Reaches(r.0, r.1, d, true) <==> Reaches(nodes, roots, d, true) && !IsAncestorOrSelf(nodes, x, d))
    decreases d
  {
    var r := Detach(nodes, roots, x);
    match nodes[d].parent
    case None =>
      assert Reaches(r.0, r.1, d, true) <==> d in r.1;
      assert Reaches(nodes, roots, d, true) <==> d in roots;
      assert IsAncestorOrSelf(nodes, x, d) <==> d == x;
    case Some(p) =>
      assert d !in roots;
      assert r.1 == roots || r.1 == Without(roots, x);
      assert d !in r.1;
      assert r.0[d].parent == Some(p);
      DetachReaches(nodes, roots, x, p);
      assert d in r.0[p].subitems <==> d in nodes[p].subitems && d != x;
      assert IsAncestorOrSelf(nodes, x, d) <==> d == x || IsAncestorOrSelf(nodes, x, p);
  }

  /** delete: after detaching `x`, the full traversal holds exactly the nodes
      it held before that do not lie in the subtree of `x`. */
  lemma DeleteRemovesSubtree<Item>(nodes: seq<TreeItem<Item>>, roots: seq<nat>, x: nat)
    requires WellFormed(nodes, roots) && x < |nodes|
    ensures var r := Detach(nodes, roots, x);
            && WellFormed(r.0, r.1)
            && (forall d :: 0 <= d < |nodes| ==>
                  (d in AllPreorder(r.0, r.1) <==> d in AllPreorder(nodes, roots) && !IsAncestorOrSelf(nodes, x, d)))
            && (forall d :: d in Subtree(nodes, x) ==> d !in AllPreorder(r.0, r.1))
  {
    var r := Detach(nodes, roots, x);
    forall d | 0 <= d < |nodes|
      ensures d in AllPreorder(r.0, r.1) <==> d in AllPreorder(nodes, roots) && !IsAncestorOrSelf(nodes, x, d)
    {
      FlattenMembership(r.0, r.1, 0, true, d);
      FlattenMembership(nodes, roots, 0, true, d);
      DetachReaches(nodes, roots, x, d);
    }
    forall d | d in Subtree(nodes, x) ensures d !in AllPreorder(r.0, r.1) {
      var k := FlattenedUnderHead(nodes, [x], x, true, d);
    }
  }

  /** Swift's `firstIndex(of:)`: the first position of `x` in `s`. */
  function Position(s: seq<nat>, x: nat): (r: nat)
    requires x in s
    ensures r < |s| && s[r] == x && x !in s[..r]
  {
    if s[0] == x then 0
    else
      assert s[1..][..Position(s[1..], x)] == s[1..Position(s[1..], x) + 1];
      1 + Position(s[1..], x)
  }

  /** In a duplicate-free sequence every occurrence is the first one. */
  lemma OnlyPosition(s: seq<nat>, x: nat, i: nat)
    requires NoDup(s) && i < |s| && s[i] == x
    ensures Position(s, x) == i
  {
    assert s[Position(s, x)] == s[i];
  }

  /** An index holding `x` with no `x` before it is the position of `x`. */
  lemma FirstPosition(s: seq<nat>, x: nat, i: nat)
    requires i < |s| && s[i] == x && x !in s[..i]
    ensures Position(s, x) == i
  {
  }

  /** Every containing sequence of a well-formed forest is duplicate-free. */
  lemma ContainerNoDup<Item>(nodes: seq<TreeItem<Item>>, roots: seq<nat>, parent: Option<nat>)
    requires WellFormed(nodes, roots) && (parent.Some? ==> parent.value < |nodes|)
    ensures NoDup(Container(nodes, roots, parent))
  {
    if parent.Some? {
      assert NoDup(nodes[parent.value].subitems);
    }
  }

  /** The search `firstIndex(of:)` performs: the first index holding `x`,
      or None when `x` does not occur. */
  method FirstIndex(s: seq<nat>, x: nat) returns (r: Option<nat>)
    ensures r.Some? ==> r.value < |s| && s[r.value] == x && x !in s[..r.value]
    ensures r.None? ==> x !in s
  {
    var i := 0;
    while i < |s|
      invariant 0 <= i <= |s| && x !in s[..i]
    {
      if s[i] == x {
        return Some(i);
      }
      assert s[..i + 1] == s[..i] + [s[i]];
      i := i + 1;
    }
    assert s[..i] == s;
    return None;
  }

  /** Inserting `a` right after `x` and then `b` right before it leaves `x`
      between them in its containing sequence. */
  lemma InsertAroundAnchor(s: seq<nat>, x: nat, a: nat, b: nat, i: nat)
    requires i < |s| && s[i] == x && x !in s[..i] && a != x && b != x
    ensures var s1 := s[..i + 1] + [a] + s[i + 1..];
            && i < |s1| && s1[i] == x && x !in s1[..i]
            && Position(s1, x) == i
            && var s2 := s1[..i] + [b] + s1[i..];
               s2[i] == b && s2[i + 1] == x && s2[i + 2] == a && x !in s2[..i + 1]
  {
    var s1 := s[..i + 1] + [a] + s[i + 1..];
    assert s1[..i] == s[..i];
    FirstPosition(s1, x, i);
    var s2 := s1[..i] + [b] + s1[i..];
    assert s2[..i + 1] == s[..i] + [b];
  }

  /** The value-to-node index a reload rebuilds from a traversal: every value
      held by a listed node maps to a listed node holding it (the last one
      when several do). */
  function IndexOf<Item(==,!new)>(nodes: seq<TreeItem<Item>>, order: seq<nat>): (m: map<Item, nat>)
    requires forall k :: 0 <= k < |order| ==> order[k] < |nodes|
    ensures forall v :: v in m <==> exists k :: 0 <= k < |order| && nodes[order[k]].value == v
    ensures forall v :: v in m ==> m[v] in order && nodes[m[v]].value == v
    decreases |order|
  {
    if order == [] then map[]
    else
      var last := order[|order| - 1];
      var front := order[..|order| - 1];
      var m := IndexOf(nodes, front);
      assert forall k :: 0 <= k < |front| ==> front[k] == order[k];
      m[nodes[last].value := last]
  }

  /** The `count` arena indices handed out from `n` on. */
  function Fresh(n: nat, count: nat): (r: seq<nat>)
    ensures |r| == count && forall k :: 0 <= k < count ==> r[k] == n + k
  {
    if count == 0 then [] else Fresh(n, count - 1) + [n + count - 1]
  }

  /** Fresh collapsed, childless nodes holding `vs`, all with parent `parent`. */
  function Leaves<Item>(vs: seq<Item>, parent: Option<nat>): (r: seq<TreeItem<Item>>)
    ensures |r| == |vs| && forall k :: 0 <= k < |vs| ==> r[k] == TreeItem(vs[k], [], false, parent)
  {
    if vs == [] then [] else [TreeItem(vs[0], [], false, parent)] + Leaves(vs[1..], parent)
  }

  /** The arena with the subitems of `parent` replaced by `s`; unchanged
      when `parent` is None. */
  function Touch<Item>(nodes: seq<TreeItem<Item>>, parent: Option<nat>, s: seq<nat>): (r: seq<TreeItem<Item>>)
    requires parent.Some? ==> parent.value < |nodes|
    ensures |r| == |nodes|
  {
    match parent
    case None => nodes
    case Some(p) => nodes[p := nodes[p].(subitems := s)]
  }

  /** Touching an arena that grew at its end touches its old part only, and
      a second touch of the same node overrides the first. */
  lemma TouchTwice<Item>(nodes: seq<TreeItem<Item>>, grown: seq<TreeItem<Item>>, parent: Option<nat>, s1: seq<nat>, s2: seq<nat>)
    requires parent.Some? ==> parent.value < |nodes|
    ensures Touch(Touch(nodes, parent, s1) + grown, parent, s2) == Touch(nodes, parent, s2) + grown
  {
    if parent.Some? {
      var p := parent.value;
      var lhs := Touch(Touch(nodes, parent, s1) + grown, parent, s2);
      var rhs := Touch(nodes, parent, s2) + grown;
      assert |lhs| == |rhs|;
      forall i | 0 <= i < |lhs| ensures lhs[i] == rhs[i] {
        if i < |nodes| && i != p {
          assert lhs[i] == nodes[i];
        }
      }
    }
  }

  /** The leaves of one more value end with that value's leaf. */
  lemma LeavesSnoc<Item>(vs: seq<Item>, k: nat, parent: Option<nat>)
    requires k < |vs|
    ensures Leaves(vs[..k + 1], parent) == Leaves(vs[..k], parent) + [TreeItem(vs[k], [], false, parent)]
  {
    var lhs := Leaves(vs[..k + 1], parent);
    var rhs := Leaves(vs[..k], parent) + [TreeItem(vs[k], [], false, parent)];
    forall i | 0 <= i < |lhs| ensures lhs[i] == rhs[i] {
      assert vs[..k + 1][i] == vs[i];
      if i < k {
        assert vs[..k][i] == vs[i];
      }
    }
  }

  /** `ns` and `rs` are `nodes` and `roots` after the first `k` values of
      `vs` were added as fresh leaves under `parent` from position `pos` on. */
  ghost predicate Placed<Item>(nodes: seq<TreeItem<Item>>, roots: seq<nat>, vs: seq<Item>, parent: Option<nat>, pos: nat,
                               k: nat, ns: seq<TreeItem<Item>>, rs: seq<nat>)
    requires parent.Some? ==> parent.value < |nodes|
    requires pos <= |Container(nodes, roots, parent)|
  {
    var c := Container(nodes, roots, parent);
    var c' := c[..pos] + Fresh(|nodes|, k) + c[pos..];
    && k <= |vs|
    && ns == Touch(nodes, parent, c') + Leaves(vs[..k], parent)
    && (parent.None? ==> rs == c')
    && (parent.Some? ==> rs == roots)
  }

  /** The containing sequence after `k` placements holds the first `k`
      fresh indices at `pos`. */
  lemma PlacedContainer<Item>(nodes: seq<TreeItem<Item>>, roots: seq<nat>, vs: seq<Item>, parent: Option<nat>, pos: nat,
                              k: nat, ns: seq<TreeItem<Item>>, rs: seq<nat>)
    requires parent.Some? ==> parent.value < |nodes|
    requires pos <= |Container(nodes, roots, parent)|
    requires Placed(nodes, roots, vs, parent, pos, k, ns, rs)
    ensures |ns| == |nodes| + k
    ensures var c := Container(nodes, roots, parent);
            Container(ns, rs, parent) == c[..pos] + Fresh(|nodes|, k) + c[pos..]
  {
    if parent.Some? {
      var p := parent.value;
      var c := Container(nodes, roots, parent);
      assert ns[p] == Touch(nodes, parent, c[..pos] + Fresh(|nodes|, k) + c[pos..])[p];
    }
  }

  /** One more leaf, appended and placed right after the first `k`, gives
      `Placed` for `k + 1`. */
  lemma PlacedGrow<Item>(nodes: seq<TreeItem<Item>>, roots: seq<nat>, vs: seq<Item>, parent: Option<nat>, pos: nat,
                         k: nat, ns: seq<TreeItem<Item>>, rs: seq<nat>, ns': seq<TreeItem<Item>>, rs': seq<nat>)
    requires parent.Some? ==> parent.value < |nodes|
    requires pos <= |Container(nodes, roots, parent)|
    requires Placed(nodes, roots, vs, parent, pos, k, ns, rs) && k < |vs|
    requires var c := Container(nodes, roots, parent);
             var ck' := c[..pos] + Fresh(|nodes|, k + 1) + c[pos..];
             && ns' == Touch(ns, parent, ck') + [TreeItem(vs[k], [], false, parent)]
             && (parent.None? ==> rs' == ck')
             && (parent.Some? ==> rs' == rs)
    ensures Placed(nodes, roots, vs, parent, pos, k + 1, ns', rs')
  {
    var c := Container(nodes, roots, parent);
    var ck := c[..pos] + Fresh(|nodes|, k) + c[pos..];
    var ck' := c[..pos] + Fresh(|nodes|, k + 1) + c[pos..];
    TouchTwice(nodes, Leaves(vs[..k], parent), parent, ck, ck');
    LeavesSnoc(vs, k, parent);
  }

  /** Adding the next value keeps `Placed`. */
  lemma PlacedStep<Item>(nodes: seq<TreeItem<Item>>, roots: seq<nat>, vs: seq<Item>, parent: Option<nat>, pos: nat,
                         k: nat, ns: seq<TreeItem<Item>>, rs: seq<nat>)
    requires parent.Some? ==> parent.value < |nodes|
    requires pos <= |Container(nodes, roots, parent)|
    requires Placed(nodes, roots, vs, parent, pos, k, ns, rs) && k < |vs|
    ensures |ns| == |nodes| + k && pos + k <= |Container(ns, rs, parent)|
    ensures var r := AddNode(ns, rs, vs[k], parent, pos + k);
            Placed(nodes, roots, vs, parent, pos, k + 1, r.0, r.1)
  {
    var c := Container(nodes, roots, parent);
    var ck := c[..pos] + Fresh(|nodes|, k) + c[pos..];
    var ck' := c[..pos] + Fresh(|nodes|, k + 1) + c[pos..];
    PlacedContainer(nodes, roots, vs, parent, pos, k, ns, rs);
    SpliceGrow(c, pos, |nodes|, k);
    assert ck[..pos + k] + [|ns|] + ck[pos + k..] == ck';
    var r := AddNode(ns, rs, vs[k], parent, pos + k);
    assert Container(r.0, r.1, parent) == ck';
    PlacedGrow(nodes, roots, vs, parent, pos, k, ns, rs, r.0, r.1);
  }

  /** Nothing placed yet: `Placed` holds for the untouched arena. */
  lemma PlacedStart<Item>(nodes: seq<TreeItem<Item>>, roots: seq<nat>, vs: seq<Item>, parent: Option<nat>, pos: nat)
    requires parent.Some? ==> parent.value < |nodes|
    requires pos <= |Container(nodes, roots, parent)|
    ensures Placed(nodes, roots, vs, parent, pos, 0, nodes, roots)
  {
    var c := Container(nodes, roots, parent);
    assert c[..pos] + Fresh(|nodes|, 0) + c[pos..] == c;
    assert Touch(nodes, parent, c) == nodes;
    assert Leaves(vs[..0], parent) == [];
  }

  /** Adds the values `vs` in order as fresh, collapsed, childless nodes
      with parent `parent`, the first at position `pos` of their containing
      sequence and each of the others right after the one before. */
  method AddAll<Item>(nodes: seq<TreeItem<Item>>, roots: seq<nat>, vs: seq<Item>, parent: Option<nat>, pos: nat)
    returns (ns: seq<TreeItem<Item>>, rs: seq<nat>)
    requires WellFormed(nodes, roots) && (parent.Some? ==> parent.value < |nodes|)
    requires pos <= |Container(nodes, roots, parent)|
    ensures WellFormed(ns, rs) && |ns| == |nodes| + |vs|
    ensures var c := Container(nodes, roots, parent);
            var c' := c[..pos] + Fresh(|nodes|, |vs|) + c[pos..];
            && Container(ns, rs, parent) == c'
            && ns == Touch(nodes, parent, c') + Leaves(vs, parent)
            && (parent.None? ==> rs == c')
            && (parent.Some? ==> rs == roots)
  {
    PlacedStart(nodes, roots, vs, parent, pos);
    ns, rs := nodes, roots;
    var k: nat := 0;
    while k < |vs|
      invariant Placed(nodes, roots, vs, parent, pos, k, ns, rs) && WellFormed(ns, rs)
    {
      PlacedStep(nodes, roots, vs, parent, pos, k, ns, rs);
      var r := AddNode(ns, rs, vs[k], parent, pos + k);
      ns, rs := r.0, r.1;
      k := k + 1;
    }
    PlacedContainer(nodes, roots, vs, parent, pos, k, ns, rs);
    assert vs[..k] == vs;
  }

  /** Placing one more fresh index after the first `k`, which sit at
      position `p` of `c`, extends the run of fresh indices there. */
  lemma SpliceGrow(c: seq<nat>, p: nat, n: nat, k: nat)
    requires p <= |c|
    ensures var s := c[..p] + Fresh(n, k) + c[p..];
            p + k <= |s| && s[..p + k] + [n + k] + s[p + k..] == c[..p] + Fresh(n, k + 1) + c[p..]
  {
    var s := c[..p] + Fresh(n, k) + c[p..];
    assert s[..p + k] == c[..p] + Fresh(n, k);
    assert s[p + k..] == c[p..];
    assert Fresh(n, k + 1) == Fresh(n, k) + [n + k];
  }

  /** `s` with every node of `dead` removed and the order of the rest kept. */
  function Strip(s: seq<nat>, dead: set<nat>): (r: seq<nat>)
    ensures forall v :: v in r <==> v in s && v !in dead
    ensures |r| <= |s|
  {
    if s == [] then []
    else
      assert forall v :: v in s <==> v == s[0] || v in s[1..];
      if s[0] in dead then Strip(s[1..], dead) else [s[0]] + Strip(s[1..], dead)
  }

  /** Stripping nothing keeps a sequence. */
  lemma {:induction false} StripNone(s: seq<nat>)
    ensures Strip(s, {}) == s
  {
    if s != [] {
      StripNone(s[1..]);
    }
  }

  /** Stripping one more node is removing it from what was stripped. */
  lemma {:induction false} StripWithout(s: seq<nat>, dead: set<nat>, x: nat)
    ensures Strip(s, dead + {x}) == Without(Strip(s, dead), x)
  {
    if s != [] {
      StripWithout(s[1..], dead, x);
      if s[0] !in dead {
        var t := Strip(s, dead);
        assert t[0] == s[0] && t[1..] == Strip(s[1..], dead);
      }
    }
  }

  /** Stripping a node a sequence does not hold changes nothing. */
  lemma {:induction false} StripAbsent(s: seq<nat>, dead: set<nat>, x: nat)
    requires x !in s
    ensures Strip(s, dead + {x}) == Strip(s, dead)
  {
    if s != [] {
      assert x !in s[1..];
      StripAbsent(s[1..], dead, x);
    }
  }

  /** The nodes the lookup index holds for `values`. */
  ghost function Targets<Item>(lookup: map<Item, nat>, values: seq<Item>): set<nat>
  {
    set j | 0 <= j < |values| && values[j] in lookup :: lookup[values[j]]
  }

  lemma TargetsStep<Item>(lookup: map<Item, nat>, values: seq<Item>, k: nat)
    requires k < |values|
    ensures Targets(lookup, values[..k + 1])
            == Targets(lookup, values[..k]) + (if values[k] in lookup then {lookup[values[k]]} else {})
  {
    var a := Targets(lookup, values[..k + 1]);
    var b := Targets(lookup, values[..k]) + (if values[k] in lookup then {lookup[values[k]]} else {});
    forall n | n in a ensures n in b {
      var j :| 0 <= j < k + 1 && values[..k + 1][j] in lookup && n == lookup[values[..k + 1][j]];
      if j < k {
        assert values[..k][j] == values[j];
      }
    }
    forall n | n in b ensures n in a {
      if n in Targets(lookup, values[..k]) {
        var j :| 0 <= j < k && values[..k][j] in lookup && n == lookup[values[..k][j]];
        assert values[..k + 1][j] == values[j];
      } else {
        assert values[..k + 1][k] == values[k];
      }
    }
  }

  /** `ns`, `rs` is `nodes`, `roots` with the nodes of `dead` removed from
      the roots and from every subitems list, the order of the rest kept. */
  ghost predicate Stripped<Item>(nodes: seq<TreeItem<Item>>, roots: seq<nat>, dead: set<nat>,
                                 ns: seq<TreeItem<Item>>, rs: seq<nat>)
  {
    && |ns| == |nodes|
    && rs == Strip(roots, dead)
    && forall i :: 0 <= i < |nodes| ==> ns[i].subitems == Strip(nodes[i].subitems, dead)
  }

  /** Detaching node `x` strips it from the one sequence that holds it; no
      other sequence holds it, so it is stripped from all of them. */
  lemma StrippedStep<Item>(nodes: seq<TreeItem<Item>>, roots: seq<nat>, dead: set<nat>,
                           ns: seq<TreeItem<Item>>, rs: seq<nat>, x: nat)
    requires WellFormed(nodes, roots) && ParentBefore(ns) && SameAncestry(nodes, ns)
    requires Stripped(nodes, roots, dead, ns, rs) && x < |nodes|
    ensures Stripped(nodes, roots, dead + {x}, Detach(ns, rs, x).0, Detach(ns, rs, x).1)
  {
    var r := Detach(ns, rs, x);
    assert ns[x].parent == nodes[x].parent;
    forall i, k | 0 <= i < |nodes| && nodes[x].parent != Some(i) && 0 <= k < |nodes[i].subitems|
      ensures nodes[i].subitems[k] != x
    {
    }
    match nodes[x].parent
    case None =>
      StripWithout(roots, dead, x);
      forall i | 0 <= i < |nodes| ensures r.0[i].subitems == Strip(nodes[i].subitems, dead + {x}) {
        StripAbsent(nodes[i].subitems, dead, x);
      }
    case Some(p) =>
      assert x !in roots;
      StripAbsent(roots, dead, x);
      forall i | 0 <= i < |nodes| ensures r.0[i].subitems == Strip(nodes[i].subitems, dead + {x}) {
        if i == p {
          StripWithout(nodes[p].subitems, dead, x);
        } else {
          StripAbsent(nodes[i].subitems, dead, x);
        }
      }
  }

  /** No node looked up for one of `values` is `d` or an ancestor of `d`. */
  ghost predicate Spared<Item>(nodes: seq<TreeItem<Item>>, lookup: map<Item, nat>, values: seq<Item>, d: nat)
    requires ParentBefore(nodes) && d < |nodes|
  {
    forall j :: 0 <= j < |values| && values[j] in lookup && lookup[values[j]] < |nodes| ==>
      !IsAncestorOrSelf(nodes, lookup[values[j]], d)
  }

  lemma SparedStep<Item>(nodes: seq<TreeItem<Item>>, lookup: map<Item, nat>, values: seq<Item>, k: nat, d: nat)
    requires ParentBefore(nodes) && d < |nodes| && k < |values|
    ensures Spared(nodes, lookup, values[..k + 1], d) <==>
            Spared(nodes, lookup, values[..k], d)
            && (values[k] in lookup && lookup[values[k]] < |nodes| ==> !IsAncestorOrSelf(nodes, lookup[values[k]], d))
  {
    assert forall j :: 0 <= j < k ==> values[..k + 1][j] == values[..k][j];
    assert values[..k + 1][k] == values[k];
  }

  lemma SameAncestryTrans<Item>(a: seq<TreeItem<Item>>, b: seq<TreeItem<Item>>, c: seq<TreeItem<Item>>)
    requires SameAncestry(a, b) && SameAncestry(b, c)
    ensures SameAncestry(a, c)
  {
    forall i | 0 <= i < |a| ensures c[i] == a[i].(subitems := c[i].subitems) {
      assert b[i] == a[i].(subitems := b[i].subitems);
    }
  }

  /** `ns`, `rs` is the forest `nodes`, `roots` after the nodes the lookup
      index holds for `values` were detached: every node still reached is
      one that was reached and lies under none of them. */
  ghost predicate Pruned<Item>(nodes: seq<TreeItem<Item>>, roots: seq<nat>, lookup: map<Item, nat>, values: seq<Item>,
                               ns: seq<TreeItem<Item>>, rs: seq<nat>)
  {
    && WellFormed(nodes, roots) && WellFormed(ns, rs) && SameAncestry(nodes, ns)
    && forall d :: 0 <= d < |nodes| ==>
         (d in AllPreorder(ns, rs) <==> d in AllPreorder(nodes, roots) && Spared(nodes, lookup, values, d))
  }

  /** Detaching the node of one more value keeps `Pruned`. */
  lemma PrunedStep<Item>(nodes: seq<TreeItem<Item>>, roots: seq<nat>, lookup: map<Item, nat>, values: seq<Item>, k: nat,
                         ns: seq<TreeItem<Item>>, rs: seq<nat>)
    requires k < |values| && Pruned(nodes, roots, lookup, values[..k], ns, rs)
    requires values[k] in lookup ==> lookup[values[k]] < |nodes|
    ensures values[k] in lookup ==>
              lookup[values[k]] < |ns| && Pruned(nodes, roots, lookup, values[..k + 1], Detach(ns, rs, lookup[values[k]]).0, Detach(ns, rs, lookup[values[k]]).1)
    ensures values[k] !in lookup ==> Pruned(nodes, roots, lookup, values[..k + 1], ns, rs)
  {
    if values[k] in lookup {
      var x := lookup[values[k]];
      var r := Detach(ns, rs, x);
      DeleteRemovesSubtree(ns, rs, x);
      SameAncestryTrans(nodes, ns, r.0);
      forall d | 0 <= d < |nodes|
        ensures d in AllPreorder(r.0, r.1) <==> d in AllPreorder(nodes, roots) && Spared(nodes, lookup, values[..k + 1], d)
      {
        AncestryKept(nodes, ns, x, d);
        SparedStep(nodes, lookup, values, k, d);
      }
    } else {
      forall d | 0 <= d < |nodes|
        ensures Spared(nodes, lookup, values[..k + 1], d) == Spared(nodes, lookup, values[..k], d)
      {
        SparedStep(nodes, lookup, values, k, d);
      }
    }
  }

  /** The state of `Prune` after the first `k` values. */
  ghost predicate PruneState<Item>(nodes: seq<TreeItem<Item>>, roots: seq<nat>, lookup: map<Item, nat>, values: seq<Item>, k: nat,
                                   ns: seq<TreeItem<Item>>, rs: seq<nat>)
    requires k <= |values|
  {
    Pruned(nodes, roots, lookup, values[..k], ns, rs) && Stripped(nodes, roots, Targets(lookup, values[..k]), ns, rs)
  }

  lemma PruneStart<Item>(nodes: seq<TreeItem<Item>>, roots: seq<nat>, lookup: map<Item, nat>, values: seq<Item>)
    requires WellFormed(nodes, roots)
    ensures PruneState(nodes, roots, lookup, values, 0, nodes, roots)
  {
    assert SameAncestry(nodes, nodes);
    assert Targets(lookup, values[..0]) == {};
    StripNone(roots);
    forall i | 0 <= i < |nodes| ensures nodes[i].subitems == Strip(nodes[i].subitems, {}) {
      StripNone(nodes[i].subitems);
    }
  }

  lemma PruneNext<Item>(nodes: seq<TreeItem<Item>>, roots: seq<nat>, lookup: map<Item, nat>, values: seq<Item>, k: nat,
                        ns: seq<TreeItem<Item>>, rs: seq<nat>)
    requires k < |values| && PruneState(nodes, roots, lookup, values, k, ns, rs)
    requires values[k] in lookup ==> lookup[values[k]] < |nodes|
    ensures values[k] in lookup ==>
              lookup[values[k]] < |ns| && ParentBefore(ns)
              && PruneState(nodes, roots, lookup, values, k + 1, Detach(ns, rs, lookup[values[k]]).0, Detach(ns, rs, lookup[values[k]]).1)
    ensures values[k] !in lookup ==> PruneState(nodes, roots, lookup, values, k + 1, ns, rs)
  {
    if values[k] in lookup {
      var x := lookup[values[k]];
      var r := Detach(ns, rs, x);
      assert Pruned(nodes, roots, lookup, values[..k + 1], r.0, r.1) by {
        PrunedStep(nodes, roots, lookup, values, k, ns, rs);
      }
      assert Stripped(nodes, roots, Targets(lookup, values[..k + 1]), r.0, r.1) by {
        TargetsStep(lookup, values, k);
        StrippedStep(nodes, roots, Targets(lookup, values[..k]), ns, rs, x);
      }
    } else {
      assert Pruned(nodes, roots, lookup, values[..k + 1], ns, rs) by {
        PrunedStep(nodes, roots, lookup, values, k, ns, rs);
      }
      assert Targets(lookup, values[..k + 1]) == Targets(lookup, values[..k]) by {
        TargetsStep(lookup, values, k);
      }
    }
  }

  /** delete(_): detaches, one value after the other, the node the lookup
      index holds for it; values it does not hold are skipped. */
  method Prune<Item>(nodes: seq<TreeItem<Item>>, roots: seq<nat>, lookup: map<Item, nat>, values: seq<Item>)
    returns (ns: seq<TreeItem<Item>>, rs: seq<nat>)
    requires WellFormed(nodes, roots) && IndexSound(nodes, lookup)
    ensures Pruned(nodes, roots, lookup, values, ns, rs)
    ensures Stripped(nodes, roots, Targets(lookup, values), ns, rs)
  {
    ns, rs := nodes, roots;
    PruneStart(nodes, roots, lookup, values);
    for k := 0 to |values|
      invariant PruneState(nodes, roots, lookup, values, k, ns, rs)
    {
      PruneNext(nodes, roots, lookup, values, k, ns, rs);
      if values[k] in lookup {
        var r := Detach(ns, rs, lookup[values[k]]);
        ns, rs := r.0, r.1;
      }
    }
    assert values[..|values|] == values;
  }

  /** Changing only subitems keeps the lookup index sound. */
  lemma AncestryKeepsIndex<Item>(nodes: seq<TreeItem<Item>>, ns: seq<TreeItem<Item>>, lookup: map<Item, nat>)
    requires SameAncestry(nodes, ns) && IndexSound(nodes, lookup)
    ensures IndexSound(ns, lookup)
  {
    forall v | v in lookup ensures lookup[v] < |ns| && ns[lookup[v]].value == v {
      assert ns[lookup[v]] == nodes[lookup[v]].(subitems := ns[lookup[v]].subitems);
    }
  }

  /** Changing only expansion flags keeps the lookup index sound. */
  lemma ShapeKeepsIndex<Item>(nodes: seq<TreeItem<Item>>, ns: seq<TreeItem<Item>>, lookup: map<Item, nat>)
    requires SameShape(nodes, ns) && IndexSound(nodes, lookup)
    ensures IndexSound(ns, lookup)
  {
    forall v | v in lookup ensures lookup[v] < |ns| && ns[lookup[v]].value == v {
      assert ns[lookup[v]] == nodes[lookup[v]].(isExpanded := ns[lookup[v]].isExpanded);
    }
  }

  /** reload(), first half: walks the full traversal and records, for each
      node, its value; a later node overrides an earlier one with an equal
      value. */
  method BuildIndex<Item(==,!new)>(nodes: seq<TreeItem<Item>>, order: seq<nat>) returns (m: map<Item, nat>)
    requires forall k :: 0 <= k < |order| ==> order[k] < |nodes|
    ensures m == IndexOf(nodes, order)
  {
    m := map[];
    for k := 0 to |order|
      invariant m == IndexOf(nodes, order[..k])
    {
      assert order[..k + 1][..k] == order[..k];
      m := m[nodes[order[k]].value := order[k]];
    }
    assert order[..|order|] == order;
  }

  /** Every entry of the lookup index names an arena node holding its key. */
  ghost predicate IndexSound<Item>(nodes: seq<TreeItem<Item>>, lookup: map<Item, nat>)
  {
    forall v :: v in lookup ==> lookup[v] < |nodes| && nodes[lookup[v]].value == v
  }

  /** Registers the values `vs`, held by the fresh nodes `n`, `n + 1`, ...,
      in the lookup index; a later value overwrites an earlier equal one. */
  function Register<Item(!new)>(lookup: map<Item, nat>, vs: seq<Item>, n: nat): (r: map<Item, nat>)
    ensures forall v :: v in r <==> v in lookup || v in vs
    ensures forall v {:trigger r[v]} :: v in vs ==> n <= r[v] < n + |vs| && vs[r[v] - n] == v
    ensures forall v :: v in lookup && v !in vs ==> r[v] == lookup[v]
    decreases |vs|
  {
    if vs == [] then lookup
    else
      var front := vs[..|vs| - 1];
      var last := vs[|vs| - 1];
      var m := Register(lookup, front, n);
      assert forall k :: 0 <= k < |front| ==> front[k] == vs[k];
      assert forall v :: v in vs <==> v in front || v == last;
      m[last := n + |vs| - 1]
  }

  /** Registering the values of nodes appended to the arena keeps the lookup
      index sound, whatever else changed, as long as every old node keeps its
      value. */
  lemma RegisterKeepsSound<Item(!new)>(nodes: seq<TreeItem<Item>>, lookup: map<Item, nat>, vs: seq<Item>, grown: seq<TreeItem<Item>>)
    requires IndexSound(nodes, lookup) && |grown| == |nodes| + |vs|
    requires forall i :: 0 <= i < |nodes| ==> grown[i].value == nodes[i].value
    requires forall k :: 0 <= k < |vs| ==> grown[|nodes| + k].value == vs[k]
    ensures IndexSound(grown, Register(lookup, vs, |nodes|))
  {
    var r := Register(lookup, vs, |nodes|);
    forall v | v in r ensures r[v] < |grown| && grown[r[v]].value == v {
      if v in vs {
        var k: nat := r[v] - |nodes|;
        assert vs[k] == v;
      } else {
        assert r[v] == lookup[v];
      }
    }
  }

  /** Registering freshly created leaves keeps the lookup index sound. */
  lemma RegisterSound<Item(!new)>(nodes: seq<TreeItem<Item>>, lookup: map<Item, nat>, vs: seq<Item>, parent: Option<nat>, s: seq<nat>)
    requires IndexSound(nodes, lookup) && (parent.Some? ==> parent.value < |nodes|)
    ensures IndexSound(Touch(nodes, parent, s) + Leaves(vs, parent), Register(lookup, vs, |nodes|))
  {
    GrownValues(nodes, parent, s, vs);
    RegisterKeepsSound(nodes, lookup, vs, Touch(nodes, parent, s) + Leaves(vs, parent));
  }

  /** The arena after adding leaves: every old node keeps its value and the
      new nodes hold the added values. */
  lemma GrownValues<Item>(nodes: seq<TreeItem<Item>>, parent: Option<nat>, s: seq<nat>, vs: seq<Item>)
    requires parent.Some? ==> parent.value < |nodes|
    ensures var grown := Touch(nodes, parent, s) + Leaves(vs, parent);
            && |grown| == |nodes| + |vs|
            && (forall i :: 0 <= i < |nodes| ==> grown[i].value == nodes[i].value)
            && (forall k :: 0 <= k < |vs| ==> grown[|nodes| + k].value == vs[k])
  {
    var t := Touch(nodes, parent, s);
    var grown := t + Leaves(vs, parent);
    forall i | 0 <= i < |nodes| ensures grown[i].value == nodes[i].value {
      assert grown[i] == t[i];
    }
  }

}
