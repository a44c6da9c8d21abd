/** The scene graph as the picking code sees it: an arena of nodes addressed by
    index, each with a type tag, the flags picking consults, a parent link and an
    ordered list of children. */
module SceneGraph {

  datatype Option<T> = None | Some(value: T)

  /** A point or position in world space. */
  datatype Vec3 = Vec3(x: real, y: real, z: real)

  /** `(a - b).lengthSquared()` */
  function DistanceSqrd(a: Vec3, b: Vec3): real
  {
    (a.x - b.x) * (a.x - b.x) + (a.y - b.y) * (a.y - b.y) + (a.z - b.z) * (a.z - b.z)
  }

  datatype SceneNodeType = Empty | Mesh | Light | Camera | Viewer | Root

  type NodeId = nat

  datatype SceneNode = SceneNode(
    nodeType: SceneNodeType,
    name: string,
    pickable: bool,
    hasMesh: bool,          // a mesh node's getMesh() is non-null
    attached: bool,         // isAttached()
    parent: Option<NodeId>,
    children: seq<NodeId>,
    localPos: Vec3,
    globalPos: Vec3)

  type Arena = seq<SceneNode>

  /** The arena holds a tree: a parent has a smaller index than its child, every
      child points back at the node that lists it, no node lists a child twice,
      and an attached node has a parent to walk up to. */
  ghost predicate ValidArena(nodes: Arena)
  {
    && (forall i | 0 <= i < |nodes| :: nodes[i].parent.Some? ==> nodes[i].parent.value < i)
    && (forall i | 0 <= i < |nodes| :: nodes[i].attached ==> nodes[i].parent.Some?)
    && (forall i, k | 0 <= i < |nodes| && 0 <= k < |nodes[i].children| ::
          nodes[i].children[k] < |nodes| && nodes[nodes[i].children[k]].parent == Some(i))
    && (forall i, k, l | 0 <= i < |nodes| && 0 <= k < l < |nodes[i].children| ::
          nodes[i].children[k] != nodes[i].children[l])
  }

  /** `a` is reached from `m` by following zero or more parent links. */
  ghost predicate IsAncestorOrSelf(nodes: Arena, a: NodeId, m: NodeId)
    requires ValidArena(nodes) && m < |nodes|
    decreases m
  {
    a == m || (nodes[m].parent.Some? && IsAncestorOrSelf(nodes, a, nodes[m].parent.value))
  }

  /** The node the loop `while (n->isAttached()) n = n->parent;` stops at. */
  function RootOf(nodes: Arena, n: NodeId): (r: NodeId)
    requires ValidArena(nodes) && n < |nodes|
    ensures r < |nodes| && r <= n
    ensures !nodes[r].attached
    ensures IsAncestorOrSelf(nodes, r, n)
    decreases n
  {
    if nodes[n].attached then RootOf(nodes, nodes[n].parent.value) else n
  }

  /** The parent walk of SceneViewWidget::doObjectPicking, as a loop. */
  method FindRoot(nodes: Arena, n: NodeId) returns (r: NodeId)
    requires ValidArena(nodes) && n < |nodes|
    ensures r == RootOf(nodes, n)
  {
    r := n;
    while nodes[r].attached
      invariant r < |nodes|
      invariant RootOf(nodes, r) == RootOf(nodes, n)
      decreases r
    {
      r := nodes[r].parent.value;
    }
  }

  lemma RootOfRoot(nodes: Arena, n: NodeId)
    requires ValidArena(nodes) && n < |nodes|
    ensures RootOf(nodes, RootOf(nodes, n)) == RootOf(nodes, n)
  {
  }

  /** An attached node lies in the same root tree as its parent. */
  lemma RootOfAttached(nodes: Arena, n: NodeId)
    requires ValidArena(nodes) && n < |nodes| && nodes[n].attached
    ensures RootOf(nodes, n) == RootOf(nodes, nodes[n].parent.value)
  {
  }

  lemma {:induction false} AncestorIsNotAfter(nodes: Arena, a: NodeId, m: NodeId)
    requires ValidArena(nodes) && m < |nodes| && IsAncestorOrSelf(nodes, a, m)
    ensures a <= m
    decreases m
  {
    if a != m {
      AncestorIsNotAfter(nodes, a, nodes[m].parent.value);
    }
  }

  /** The ancestors of a node form a chain: of two of them, the one with the
      smaller index is an ancestor of the other. */
  lemma {:induction false} AncestorsAreLinear(nodes: Arena, a: NodeId, b: NodeId, m: NodeId)
    requires ValidArena(nodes) && m < |nodes|
    requires IsAncestorOrSelf(nodes, a, m) && IsAncestorOrSelf(nodes, b, m) && a <= b
    ensures b < |nodes| && IsAncestorOrSelf(nodes, a, b)
    decreases m
  {
    AncestorIsNotAfter(nodes, b, m);
    if b != m {
      AncestorIsNotAfter(nodes, a, m);
      AncestorsAreLinear(nodes, a, b, nodes[m].parent.value);
    }
  }

  /** No node lies below two different children of the same parent. */
  lemma SiblingSubtreesDisjoint(nodes: Arena, p: NodeId, c1: NodeId, c2: NodeId, m: NodeId)
    requires ValidArena(nodes) && m < |nodes| && c1 < |nodes| && c2 < |nodes|
    requires nodes[c1].parent == Some(p) && nodes[c2].parent == Some(p) && c1 != c2
    ensures !(IsAncestorOrSelf(nodes, c1, m) && IsAncestorOrSelf(nodes, c2, m))
  {
    if IsAncestorOrSelf(nodes, c1, m) && IsAncestorOrSelf(nodes, c2, m) {
      var lo, hi := if c1 < c2 then c1 else c2, if c1 < c2 then c2 else c1;
      AncestorsAreLinear(nodes, lo, hi, m);
      AncestorIsNotAfter(nodes, lo, p);
    }
  }

  /** The list `cs` holds children of `p`, in range, each linked back to `p`. */
  ghost predicate ChildList(nodes: Arena, cs: seq<NodeId>, p: NodeId)
  {
    && p < |nodes|
    && (forall k | 0 <= k < |cs| :: p < cs[k] < |nodes| && nodes[cs[k]].parent == Some(p))
    && (forall k, l | 0 <= k < l < |cs| :: cs[k] != cs[l])
  }

  lemma ChildrenAreChildList(nodes: Arena, n: NodeId)
    requires ValidArena(nodes) && n < |nodes|
    ensures ChildList(nodes, nodes[n].children, n)
  {
    forall k | 0 <= k < |nodes[n].children|
      ensures n < nodes[n].children[k]
    {
      var c := nodes[n].children[k];
      assert nodes[c].parent == Some(n);
    }
  }

  /** Pre-order listing of the subtree under `n`: the node, then the subtrees of
      its children in list order. */
  function PreOrder(nodes: Arena, n: NodeId): (r: seq<NodeId>)
    requires ValidArena(nodes) && n < |nodes|
    ensures forall k | 0 <= k < |r| :: r[k] < |nodes|
    decreases |nodes| - n, 1, 0
  {
    ChildrenAreChildList(nodes, n);
    [n] + PreOrderForest(nodes, nodes[n].children, n)
  }

  function PreOrderForest(nodes: Arena, cs: seq<NodeId>, p: NodeId): (r: seq<NodeId>)
    requires ValidArena(nodes) && ChildList(nodes, cs, p)
    ensures forall k | 0 <= k < |r| :: r[k] < |nodes|
    decreases |nodes| - p, 0, |cs|
  {
    if cs == [] then []
    else
      assert ChildList(nodes, cs[..|cs| - 1], p);
      PreOrderForest(nodes, cs[..|cs| - 1], p) + PreOrder(nodes, cs[|cs| - 1])
  }

  /** What SceneViewWidget reaches through its scene pointer: the node arena,
      the root node, and the light and viewer collections that index into it. */
  datatype Scene = Scene(nodes: Arena, root: NodeId, lights: seq<NodeId>, viewers: seq<NodeId>)

  ghost predicate ValidScene(s: Scene)
  {
    && ValidArena(s.nodes)
    && s.root < |s.nodes| && s.nodes[s.root].parent.None?
    && (forall k | 0 <= k < |s.lights| :: s.lights[k] < |s.nodes| && s.nodes[s.lights[k]].nodeType == Light)
    && (forall k | 0 <= k < |s.viewers| :: s.viewers[k] < |s.nodes| && s.nodes[s.viewers[k]].nodeType == Viewer)
  }

  ghost predicate NoDuplicates<T>(s: seq<T>)
  {
    forall i, j | 0 <= i < j < |s| :: s[i] != s[j]
  }

  /** Everything listed under `n` is a descendant of `n`. */
  lemma {:induction false} PreOrderDescends(nodes: Arena, n: NodeId, m: NodeId)
    requires ValidArena(nodes) && n < |nodes| && m in PreOrder(nodes, n)
    ensures m < |nodes| && IsAncestorOrSelf(nodes, n, m)
    decreases |nodes| - n, 1, 0
  {
    ChildrenAreChildList(nodes, n);
    if m != n {
      var c := PreOrderForestDescends(nodes, nodes[n].children, n, m);
      assert IsAncestorOrSelf(nodes, n, c);
      AncestorChain(nodes, n, c, m);
    }
  }

  lemma {:induction false} PreOrderForestDescends(nodes: Arena, cs: seq<NodeId>, p: NodeId, m: NodeId)
    returns (c: NodeId)
    requires ValidArena(nodes) && ChildList(nodes, cs, p) && m in PreOrderForest(nodes, cs, p)
    ensures c in cs && m < |nodes| && IsAncestorOrSelf(nodes, c, m)
    decreases |nodes| - p, 0, |cs|
  {
    var init := cs[..|cs| - 1];
    assert ChildList(nodes, init, p);
    if m in PreOrderForest(nodes, init, p) {
      c := PreOrderForestDescends(nodes, init, p, m);
    } else {
      c := cs[|cs| - 1];
      PreOrderDescends(nodes, c, m);
    }
  }

  /** Ancestry is transitive. */
  lemma {:induction false} AncestorChain(nodes: Arena, a: NodeId, b: NodeId, m: NodeId)
    requires ValidArena(nodes) && b < |nodes| && m < |nodes|
    requires IsAncestorOrSelf(nodes, a, b) && IsAncestorOrSelf(nodes, b, m)
    ensures IsAncestorOrSelf(nodes, a, m)
    decreases m
  {
    if b != m {
      AncestorChain(nodes, a, b, nodes[m].parent.value);
    }
  }

  /** The subtrees of the children in `cs` hold nothing below another child `c`
      of the same parent that `cs` does not list. */
  lemma {:induction false} ForestAvoidsSibling(nodes: Arena, cs: seq<NodeId>, p: NodeId, c: NodeId, m: NodeId)
    requires ValidArena(nodes) && ChildList(nodes, cs, p)
    requires c < |nodes| && nodes[c].parent == Some(p) && c !in cs
    requires m < |nodes| && IsAncestorOrSelf(nodes, c, m)
    ensures m !in PreOrderForest(nodes, cs, p)
    decreases |cs|
  {
    if cs != [] {
      var init, last := cs[..|cs| - 1], cs[|cs| - 1];
      assert ChildList(nodes, init, p);
      ForestAvoidsSibling(nodes, init, p, c, m);
      if m in PreOrder(nodes, last) {
        PreOrderDescends(nodes, last, m);
        SiblingSubtreesDisjoint(nodes, p, c, last, m);
      }
    }
  }

  /** A tree walk lists each node of the subtree once. */
  lemma {:induction false} PreOrderNoDuplicates(nodes: Arena, n: NodeId)
    requires ValidArena(nodes) && n < |nodes|
    ensures NoDuplicates(PreOrder(nodes, n))
    decreases |nodes| - n, 1, 0
  {
    ChildrenAreChildList(nodes, n);
    var forest := PreOrderForest(nodes, nodes[n].children, n);
    PreOrderForestNoDuplicates(nodes, nodes[n].children, n);
    if n in forest {
      var c := PreOrderForestDescends(nodes, nodes[n].children, n, n);
      AncestorIsNotAfter(nodes, c, n);
    }
    NoDuplicatesAppend([n], forest);
  }

  lemma {:induction false} PreOrderForestNoDuplicates(nodes: Arena, cs: seq<NodeId>, p: NodeId)
    requires ValidArena(nodes) && ChildList(nodes, cs, p)
    ensures NoDuplicates(PreOrderForest(nodes, cs, p))
    decreases |nodes| - p, 0, |cs|
  {
    if cs != [] {
      var init, last := cs[..|cs| - 1], cs[|cs| - 1];
      assert ChildList(nodes, init, p);
      PreOrderForestNoDuplicates(nodes, init, p);
      PreOrderNoDuplicates(nodes, last);
      var left, right := PreOrderForest(nodes, init, p), PreOrder(nodes, last);
      forall m | m in right
        ensures m !in left
      {
        PreOrderDescends(nodes, last, m);
        assert last !in init by {
          assert last == cs[|cs| - 1];
        }
        ForestAvoidsSibling(nodes, init, p, last, m);
      }
      NoDuplicatesAppend(left, right);
    }
  }

  /** Dropping the last element keeps a list free of duplicates, and that
      element occurs nowhere before. */
  lemma NoDuplicatesInit<T>(s: seq<T>)
    requires NoDuplicates(s) && s != []
    ensures NoDuplicates(s[..|s| - 1]) && s[|s| - 1] !in s[..|s| - 1]
  {
    var init := s[..|s| - 1];
    forall i, j | 0 <= i < j < |init|
      ensures init[i] != init[j]
    {
      assert init[i] == s[i] && init[j] == s[j];
    }
    forall k | 0 <= k < |init|
      ensures init[k] != s[|s| - 1]
    {
      assert init[k] == s[k];
    }
  }

  lemma NoDuplicatesAppend<T>(a: seq<T>, b: seq<T>)
    requires NoDuplicates(a) && NoDuplicates(b)
    requires forall x | x in b :: x !in a
    ensures NoDuplicates(a + b)
  {
    var s := a + b;
    forall i, j | 0 <= i < j < |s|
      ensures s[i] != s[j]
    {
      if i < |a| && j >= |a| {
        assert s[j] == b[j - |a|];
        assert s[j] in b;
      } else if i >= |a| {
        assert s[i] == b[i - |a|] && s[j] == b[j - |a|];
      }
    }
  }
}
