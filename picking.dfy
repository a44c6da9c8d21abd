/** The hit lists that SceneViewWidget's picking builds, how they are ranked,
    and how the node to select is chosen from the winning hit.

    Geometry is an oracle. For one mouse ray, `SegmentOracle` gives the
    world-space points at which the segment crosses a mesh node's triangles
    (TriMesh::getSegmentIntersections, mapped back through the node's global
    transform), and `SphereOracle` gives the hit point of the ray against a
    sphere (IntersectionHelper::raySphereIntersects), if any. */
module Picking {
  import opened SceneGraph

  datatype PickingResult = PickingResult(hitNode: NodeId, hitPoint: Vec3, distanceFromCameraSqrd: real)

  type SegmentOracle = NodeId -> seq<Vec3>
  type SphereOracle = (Vec3, real) -> Option<Vec3>

  /** Scene picking (doScenePicking) or gizmo-handle picking (doMeshPicking). */
  datatype PickFilter = ScenePick | GizmoPick

  /** Whether a node's triangles are tested: scene picking wants a pickable mesh
      node that has a mesh; gizmo picking takes every mesh node. */
  predicate Contributes(node: SceneNode, filter: PickFilter)
  {
    match filter
    case ScenePick => node.nodeType == Mesh && node.pickable && node.hasMesh
    case GizmoPick => node.nodeType == Mesh
  }

  /** Every mesh node of the arena has a mesh (`getMesh()` is non-null). */
  ghost predicate MeshesLoaded(nodes: Arena)
  {
    forall i | 0 <= i < |nodes| :: nodes[i].nodeType == Mesh ==> nodes[i].hasMesh
  }

  /** One result per triangle hit of node `n`, distance measured from the camera. */
  function TriangleHits(n: NodeId, points: seq<Vec3>, camera: Vec3): seq<PickingResult>
  {
    seq(|points|, k requires 0 <= k < |points| => PickingResult(n, points[k], DistanceSqrd(points[k], camera)))
  }

  /** What one visited node adds to the hit list (an id outside the arena names
      no node and adds nothing). */
  function NodeHits(nodes: Arena, n: NodeId, filter: PickFilter, tri: SegmentOracle, camera: Vec3): seq<PickingResult>
  {
    if n < |nodes| && Contributes(nodes[n], filter) then TriangleHits(n, tri(n), camera) else []
  }

  /** What the recursive walk from `n` appends: the node's own hits, then the
      walks of its children in list order. */
  function SubtreeHits(nodes: Arena, n: NodeId, filter: PickFilter, tri: SegmentOracle, camera: Vec3): seq<PickingResult>
    requires ValidArena(nodes) && n < |nodes|
    decreases |nodes| - n, 1, 0
  {
    NodeHits(nodes, n, filter, tri, camera) + ChildrenHits(nodes, n, |nodes[n].children|, filter, tri, camera)
  }

  /** What the walks of the first `k` children of `p` append, in list order. */
  function ChildrenHits(nodes: Arena, p: NodeId, k: nat, filter: PickFilter, tri: SegmentOracle, camera: Vec3)
    : seq<PickingResult>
    requires ValidArena(nodes) && p < |nodes| && k <= |nodes[p].children|
    decreases |nodes| - p, 0, k
  {
    if k == 0 then []
    else
      var c := nodes[p].children[k - 1];
      assert nodes[c].parent == Some(p);
      ChildrenHits(nodes, p, k - 1, filter, tri, camera) + SubtreeHits(nodes, c, filter, tri, camera)
  }

  /** `f`'s lists for the elements of `xs`, concatenated in order. */
  function Flatten<T, R>(xs: seq<T>, f: T -> seq<R>): seq<R>
  {
    if xs == [] then [] else Flatten(xs[..|xs| - 1], f) + f(xs[|xs| - 1])
  }

  lemma {:induction false} FlattenAppend<T, R>(a: seq<T>, b: seq<T>, f: T -> seq<R>)
    ensures Flatten(a + b, f) == Flatten(a, f) + Flatten(b, f)
    decreases |b|
  {
    if b == [] {
      assert a + b == a;
    } else {
      var ab := a + b;
      assert ab[..|ab| - 1] == a + b[..|b| - 1] && ab[|ab| - 1] == b[|b| - 1];
      FlattenAppend(a, b[..|b| - 1], f);
    }
  }

  /** The hits of a list of nodes, node after node. */
  function ConcatHits(nodes: Arena, ids: seq<NodeId>, filter: PickFilter, tri: SegmentOracle, camera: Vec3)
    : seq<PickingResult>
  {
    Flatten(ids, n => NodeHits(nodes, n, filter, tri, camera))
  }

  /** The last node's hits come last. */
  lemma ConcatHitsLast(nodes: Arena, ids: seq<NodeId>, filter: PickFilter, tri: SegmentOracle, camera: Vec3)
    requires ids != []
    ensures ConcatHits(nodes, ids, filter, tri, camera)
         == ConcatHits(nodes, ids[..|ids| - 1], filter, tri, camera) + NodeHits(nodes, ids[|ids| - 1], filter, tri, camera)
  {
  }

  lemma ConcatHitsAppend(nodes: Arena, a: seq<NodeId>, b: seq<NodeId>, filter: PickFilter, tri: SegmentOracle, camera: Vec3)
    ensures ConcatHits(nodes, a + b, filter, tri, camera)
         == ConcatHits(nodes, a, filter, tri, camera) + ConcatHits(nodes, b, filter, tri, camera)
  {
    FlattenAppend(a, b, n => NodeHits(nodes, n, filter, tri, camera));
  }

  /** Traversal order: the walk's output is the hits of the subtree's nodes
      concatenated in pre-order (node before children, children in list order). */
  lemma {:induction false} SubtreeHitsInPreOrder(nodes: Arena, n: NodeId, filter: PickFilter, tri: SegmentOracle, camera: Vec3)
    requires ValidArena(nodes) && n < |nodes|
    ensures SubtreeHits(nodes, n, filter, tri, camera) == ConcatHits(nodes, PreOrder(nodes, n), filter, tri, camera)
    decreases |nodes| - n, 1, 0
  {
    var cs := nodes[n].children;
    ChildrenHitsInPreOrder(nodes, n, |cs|, filter, tri, camera);
    assert cs[..|cs|] == cs;
    ConcatHitsAppend(nodes, [n], PreOrderForest(nodes, cs, n), filter, tri, camera);
    assert ConcatHits(nodes, [n], filter, tri, camera) == NodeHits(nodes, n, filter, tri, camera) by {
      ConcatHitsLast(nodes, [n], filter, tri, camera);
      assert [n][..0] == [];
    }
  }

  lemma {:induction false} ChildrenHitsInPreOrder(nodes: Arena, p: NodeId, k: nat, filter: PickFilter, tri: SegmentOracle, camera: Vec3)
    requires ValidArena(nodes) && p < |nodes| && k <= |nodes[p].children|
    ensures ChildList(nodes, nodes[p].children[..k], p)
    ensures ChildrenHits(nodes, p, k, filter, tri, camera)
         == ConcatHits(nodes, PreOrderForest(nodes, nodes[p].children[..k], p), filter, tri, camera)
    decreases |nodes| - p, 0, k
  {
    ChildrenAreChildList(nodes, p);
    assert ChildList(nodes, nodes[p].children[..k], p);
    if k == 0 {
      assert nodes[p].children[..k] == [];
    } else {
      ChildrenHitsInPreOrder(nodes, p, k - 1, filter, tri, camera);
      SubtreeHitsInPreOrder(nodes, nodes[p].children[k - 1], filter, tri, camera);
      ChildrenHitsStep(nodes, p, k, filter, tri, camera);
    }
  }

  /** The inductive step of ChildrenHitsInPreOrder: one more child on both sides. */
  lemma ChildrenHitsStep(nodes: Arena, p: NodeId, k: nat, filter: PickFilter, tri: SegmentOracle, camera: Vec3)
    requires ValidArena(nodes) && p < |nodes| && 0 < k <= |nodes[p].children|
    requires ChildList(nodes, nodes[p].children[..k - 1], p) && ChildList(nodes, nodes[p].children[..k], p)
    requires ChildrenHits(nodes, p, k - 1, filter, tri, camera)
          == ConcatHits(nodes, PreOrderForest(nodes, nodes[p].children[..k - 1], p), filter, tri, camera)
    requires SubtreeHits(nodes, nodes[p].children[k - 1], filter, tri, camera)
          == ConcatHits(nodes, PreOrder(nodes, nodes[p].children[k - 1]), filter, tri, camera)
    ensures ChildrenHits(nodes, p, k, filter, tri, camera)
         == ConcatHits(nodes, PreOrderForest(nodes, nodes[p].children[..k], p), filter, tri, camera)
  {
    var cs, c, init := nodes[p].children[..k], nodes[p].children[k - 1], nodes[p].children[..k - 1];
    assert cs[..k - 1] == init && cs[k - 1] == c;
    var before, below := PreOrderForest(nodes, init, p), PreOrder(nodes, c);
    assert PreOrderForest(nodes, cs, p) == before + below;
    ConcatHitsAppend(nodes, before, below, filter, tri, camera);
    calc {
      ChildrenHits(nodes, p, k, filter, tri, camera);
      ChildrenHits(nodes, p, k - 1, filter, tri, camera) + SubtreeHits(nodes, c, filter, tri, camera);
      ConcatHits(nodes, before, filter, tri, camera) + ConcatHits(nodes, below, filter, tri, camera);
      ConcatHits(nodes, before + below, filter, tri, camera);
    }
  }

  /** The results that name node `m`, in list order. */
  function ResultsFor(rs: seq<PickingResult>, m: NodeId): seq<PickingResult>
  {
    if rs == [] then []
    else ResultsFor(rs[..|rs| - 1], m) + (if rs[|rs| - 1].hitNode == m then [rs[|rs| - 1]] else [])
  }

  lemma {:induction false} ResultsForAppend(a: seq<PickingResult>, b: seq<PickingResult>, m: NodeId)
    ensures ResultsFor(a + b, m) == ResultsFor(a, m) + ResultsFor(b, m)
    decreases |b|
  {
    if b == [] {
      assert a + b == a;
    } else {
      assert (a + b)[..|a + b| - 1] == a + b[..|b| - 1];
      ResultsForAppend(a, b[..|b| - 1], m);
    }
  }

  lemma {:induction false} ResultsForTriangleHits(n: NodeId, points: seq<Vec3>, camera: Vec3, m: NodeId)
    ensures ResultsFor(TriangleHits(n, points, camera), m) == if n == m then TriangleHits(n, points, camera) else []
    decreases |points|
  {
    var rs := TriangleHits(n, points, camera);
    if points != [] {
      var init := points[..|points| - 1];
      assert rs[..|rs| - 1] == TriangleHits(n, init, camera);
      ResultsForTriangleHits(n, init, camera, m);
    }
  }

  lemma {:induction false} ResultsForConcatHits(nodes: Arena, ids: seq<NodeId>, filter: PickFilter, tri: SegmentOracle, camera: Vec3, m: NodeId)
    requires forall k | 0 <= k < |ids| :: ids[k] < |nodes|
    requires NoDuplicates(ids)
    ensures m in ids ==> m < |nodes| && ResultsFor(ConcatHits(nodes, ids, filter, tri, camera), m) == NodeHits(nodes, m, filter, tri, camera)
    ensures m !in ids ==> ResultsFor(ConcatHits(nodes, ids, filter, tri, camera), m) == []
    decreases |ids|
  {
    if ids != [] {
      var init, last := ids[..|ids| - 1], ids[|ids| - 1];
      var before, own := ConcatHits(nodes, init, filter, tri, camera), NodeHits(nodes, last, filter, tri, camera);
      assert ResultsFor(ConcatHits(nodes, ids, filter, tri, camera), m)
          == ResultsFor(before, m) + (if last == m then own else []) by {
        ResultsForAppend(before, own, m);
        if Contributes(nodes[last], filter) {
          ResultsForTriangleHits(last, tri(last), camera, m);
        }
      }
      assert m in ids <==> m in init || m == last by {
        assert ids == init + [last];
      }
      NoDuplicatesInit(ids);
      ResultsForConcatHits(nodes, init, filter, tri, camera, m);
    }
  }

  /** Each node of the subtree contributes exactly its own triangle hits, all of
      them and in the oracle's order, and no node outside it contributes. */
  lemma PicksPerNode(nodes: Arena, n: NodeId, filter: PickFilter, tri: SegmentOracle, camera: Vec3, m: NodeId)
    requires ValidArena(nodes) && n < |nodes|
    ensures m in PreOrder(nodes, n) ==>
      && m < |nodes|
      && ResultsFor(SubtreeHits(nodes, n, filter, tri, camera), m) == NodeHits(nodes, m, filter, tri, camera)
      && |ResultsFor(SubtreeHits(nodes, n, filter, tri, camera), m)| == (if Contributes(nodes[m], filter) then |tri(m)| else 0)
    ensures m !in PreOrder(nodes, n) ==> ResultsFor(SubtreeHits(nodes, n, filter, tri, camera), m) == []
  {
    SubtreeHitsInPreOrder(nodes, n, filter, tri, camera);
    PreOrderNoDuplicates(nodes, n);
    ResultsForConcatHits(nodes, PreOrder(nodes, n), filter, tri, camera, m);
  }

  /** A result is an honest hit of its node: the node passes the filter, the hit
      point is one the oracle reported for it, and the distance is measured from
      the camera to that point. */
  ghost predicate IsTriangleHit(nodes: Arena, r: PickingResult, filter: PickFilter, tri: SegmentOracle, camera: Vec3)
  {
    && r.hitNode < |nodes|
    && Contributes(nodes[r.hitNode], filter)
    && r.hitPoint in tri(r.hitNode)
    && r.distanceFromCameraSqrd == DistanceSqrd(r.hitPoint, camera)
  }

  lemma {:induction false} ConcatHitsAreHits(nodes: Arena, ids: seq<NodeId>, filter: PickFilter, tri: SegmentOracle, camera: Vec3)
    requires forall k | 0 <= k < |ids| :: ids[k] < |nodes|
    ensures forall r | r in ConcatHits(nodes, ids, filter, tri, camera) :: r.hitNode in ids && IsTriangleHit(nodes, r, filter, tri, camera)
    decreases |ids|
  {
    if ids != [] {
      var init, last := ids[..|ids| - 1], ids[|ids| - 1];
      ConcatHitsAreHits(nodes, init, filter, tri, camera);
      assert forall x | x in init :: x in ids;
      var own := NodeHits(nodes, last, filter, tri, camera);
      forall r | r in own
        ensures r.hitNode in ids && IsTriangleHit(nodes, r, filter, tri, camera)
      {
        var k :| 0 <= k < |own| && own[k] == r;
        assert r.hitPoint == tri(last)[k];
      }
    }
  }

  /** Filter: every result of the walk from `n` is a hit of a node in that
      subtree that passes the filter — for scene picking a pickable mesh node
      with a mesh, for gizmo picking any mesh node. */
  lemma SubtreeHitsAreHits(nodes: Arena, n: NodeId, filter: PickFilter, tri: SegmentOracle, camera: Vec3)
    requires ValidArena(nodes) && n < |nodes|
    ensures forall r | r in SubtreeHits(nodes, n, filter, tri, camera) ::
      r.hitNode in PreOrder(nodes, n) && IsTriangleHit(nodes, r, filter, tri, camera)
  {
    SubtreeHitsInPreOrder(nodes, n, filter, tri, camera);
    ConcatHitsAreHits(nodes, PreOrder(nodes, n), filter, tri, camera);
  }

  // ---------------------------------------------------------------------------
  // Lights and viewers

  /** Lights are tested at their local position, viewers at their global one. */
  datatype ProxyKind = LightProxy | ViewerProxy

  const LightRadius: real := 0.5
  const HeadRadius: real := 0.5

  function ProxyCenter(node: SceneNode, kind: ProxyKind): Vec3
  {
    match kind
    case LightProxy => node.localPos
    case ViewerProxy => node.globalPos
  }

  function ProxyRadius(kind: ProxyKind): real
  {
    match kind
    case LightProxy => LightRadius
    case ViewerProxy => HeadRadius
  }

  function SphereTest(nodes: Arena, id: NodeId, kind: ProxyKind, sphere: SphereOracle): Option<Vec3>
    requires id < |nodes|
  {
    sphere(ProxyCenter(nodes[id], kind), ProxyRadius(kind))
  }

  /** What the light (or viewer) loop appends for the collection `ids`. */
  function SphereHits(nodes: Arena, ids: seq<NodeId>, kind: ProxyKind, sphere: SphereOracle, camera: Vec3): seq<PickingResult>
    requires forall k | 0 <= k < |ids| :: ids[k] < |nodes|
  {
    if ids == [] then []
    else
      var last := ids[|ids| - 1];
      SphereHits(nodes, ids[..|ids| - 1], kind, sphere, camera)
      + match SphereTest(nodes, last, kind, sphere)
        case None => []
        case Some(p) => [PickingResult(last, p, DistanceSqrd(p, camera))]
  }

  /** The members of the collection whose sphere the ray hits, in collection order. */
  function ProxiesHit(nodes: Arena, ids: seq<NodeId>, kind: ProxyKind, sphere: SphereOracle): seq<NodeId>
    requires forall k | 0 <= k < |ids| :: ids[k] < |nodes|
  {
    if ids == [] then []
    else
      var last := ids[|ids| - 1];
      ProxiesHit(nodes, ids[..|ids| - 1], kind, sphere) + if SphereTest(nodes, last, kind, sphere).Some? then [last] else []
  }

  function HitNodes(rs: seq<PickingResult>): (r: seq<NodeId>)
    ensures |r| == |rs|
  {
    seq(|rs|, k requires 0 <= k < |rs| => rs[k].hitNode)
  }

  /** One result per light (viewer) whose sphere is hit, in collection order,
      carrying the oracle's hit point and its distance from the camera. */
  lemma {:induction false} SphereHitsFollowCollection(nodes: Arena, ids: seq<NodeId>, kind: ProxyKind, sphere: SphereOracle, camera: Vec3)
    requires forall k | 0 <= k < |ids| :: ids[k] < |nodes|
    ensures HitNodes(SphereHits(nodes, ids, kind, sphere, camera)) == ProxiesHit(nodes, ids, kind, sphere)
    ensures forall r | r in SphereHits(nodes, ids, kind, sphere, camera) ::
      && r.hitNode in ids
      && SphereTest(nodes, r.hitNode, kind, sphere) == Some(r.hitPoint)
      && r.distanceFromCameraSqrd == DistanceSqrd(r.hitPoint, camera)
    decreases |ids|
  {
    if ids != [] {
      var init, last := ids[..|ids| - 1], ids[|ids| - 1];
      SphereHitsFollowCollection(nodes, init, kind, sphere, camera);
      assert forall x | x in init :: x in ids;
      var left := SphereHits(nodes, init, kind, sphere, camera);
      var right := match SphereTest(nodes, last, kind, sphere)
        case None => []
        case Some(p) => [PickingResult(last, p, DistanceSqrd(p, camera))];
      assert SphereHits(nodes, ids, kind, sphere, camera) == left + right;
      assert HitNodes(left + right) == HitNodes(left) + HitNodes(right);
    }
  }

  /** The list doObjectPicking ranks: scene mesh hits, then light hits unless
      skipped, then viewer hits unless skipped. */
  function ObjectHits(s: Scene, tri: SegmentOracle, sphere: SphereOracle, skipLights: bool, skipViewers: bool, camera: Vec3)
    : seq<PickingResult>
    requires ValidScene(s)
  {
    SubtreeHits(s.nodes, s.root, ScenePick, tri, camera)
    + (if skipLights then [] else SphereHits(s.nodes, s.lights, LightProxy, sphere, camera))
    + (if skipViewers then [] else SphereHits(s.nodes, s.viewers, ViewerProxy, sphere, camera))
  }

  /** A skipped pass contributes nothing: a light result only appears when lights
      are not skipped, a viewer result only when viewers are not, and a mesh
      result is a hit of a pickable mesh node that has a mesh. */
  lemma ObjectHitsKinds(s: Scene, tri: SegmentOracle, sphere: SphereOracle, skipLights: bool, skipViewers: bool, camera: Vec3)
    requires ValidScene(s)
    ensures forall r | r in ObjectHits(s, tri, sphere, skipLights, skipViewers, camera) ::
      && r.hitNode < |s.nodes|
      && (s.nodes[r.hitNode].nodeType == Light ==> !skipLights && r.hitNode in s.lights)
      && (s.nodes[r.hitNode].nodeType == Viewer ==> !skipViewers && r.hitNode in s.viewers)
      && (s.nodes[r.hitNode].nodeType == Mesh ==> IsTriangleHit(s.nodes, r, ScenePick, tri, camera))
  {
    var meshes := SubtreeHits(s.nodes, s.root, ScenePick, tri, camera);
    var lights := SphereHits(s.nodes, s.lights, LightProxy, sphere, camera);
    var viewers := SphereHits(s.nodes, s.viewers, ViewerProxy, sphere, camera);
    SubtreeHitsAreHits(s.nodes, s.root, ScenePick, tri, camera);
    SphereHitsFollowCollection(s.nodes, s.lights, LightProxy, sphere, camera);
    SphereHitsFollowCollection(s.nodes, s.viewers, ViewerProxy, sphere, camera);
    forall r | r in lights
      ensures s.nodes[r.hitNode].nodeType == Light
    {
      var k :| 0 <= k < |s.lights| && s.lights[k] == r.hitNode;
    }
    forall r | r in viewers
      ensures s.nodes[r.hitNode].nodeType == Viewer
    {
      var k :| 0 <= k < |s.viewers| && s.viewers[k] == r.hitNode;
    }
  }

  // ---------------------------------------------------------------------------
  // Ranking

  ghost predicate SortedByDescendingDistance(s: seq<PickingResult>)
  {
    forall i, j | 0 <= i < j < |s| :: s[i].distanceFromCameraSqrd >= s[j].distanceFromCameraSqrd
  }

  /** `r` is one of the hits, and no hit is closer to the camera. */
  ghost predicate IsNearest(hits: seq<PickingResult>, r: PickingResult)
  {
    r in hits && forall h | h in hits :: r.distanceFromCameraSqrd <= h.distanceFromCameraSqrd
  }

  /** qSort with `a.distanceFromCameraSqrd > b.distanceFromCameraSqrd`: an in-place
      sort into descending distance. Ties may end up in any order. */
  method SortByDistance(a: array<PickingResult>)
    modifies a
    ensures SortedByDescendingDistance(a[..])
    ensures multiset(a[..]) == multiset(old(a[..]))
  {
    var i := 0;
    while i < a.Length
      invariant 0 <= i <= a.Length
      invariant forall p, q | 0 <= p < q < i :: a[p].distanceFromCameraSqrd >= a[q].distanceFromCameraSqrd
      invariant multiset(a[..]) == multiset(old(a[..]))
    {
      InsertLast(a, i);
      i := i + 1;
    }
  }

  /** Moves `a[i]` left past every closer hit, extending the sorted prefix by one. */
  method InsertLast(a: array<PickingResult>, i: nat)
    requires i < a.Length
    requires forall p, q | 0 <= p < q < i :: a[p].distanceFromCameraSqrd >= a[q].distanceFromCameraSqrd
    modifies a
    ensures forall p, q | 0 <= p < q <= i :: a[p].distanceFromCameraSqrd >= a[q].distanceFromCameraSqrd
    ensures multiset(a[..]) == multiset(old(a[..]))
  {
    var j := i;
    while 0 < j && a[j - 1].distanceFromCameraSqrd < a[j].distanceFromCameraSqrd
      invariant 0 <= j <= i
      invariant forall p, q | 0 <= p < q <= i && p != j && q != j ::
        a[p].distanceFromCameraSqrd >= a[q].distanceFromCameraSqrd
      invariant forall q | j < q <= i :: a[j].distanceFromCameraSqrd >= a[q].distanceFromCameraSqrd
      invariant multiset(a[..]) == multiset(old(a[..]))
    {
      Swap(a, j - 1, j);
      j := j - 1;
    }
  }

  method Swap(a: array<PickingResult>, i: nat, j: nat)
    requires i < j < a.Length
    modifies a
    ensures a[i] == old(a[j]) && a[j] == old(a[i])
    ensures forall k | 0 <= k < a.Length && k != i && k != j :: a[k] == old(a[k])
    ensures multiset(a[..]) == multiset(old(a[..]))
  {
    a[i], a[j] := a[j], a[i];
  }

  /** Sort the hit list by descending distance and take its last element. */
  method NearestHit(hits: seq<PickingResult>) returns (nearest: PickingResult)
    requires hits != []
    ensures IsNearest(hits, nearest)
  {
    var a := new PickingResult[|hits|](k requires 0 <= k < |hits| => hits[k]);
    assert a[..] == hits;
    SortByDistance(a);
    nearest := a[a.Length - 1];
    assert nearest in multiset(a[..]);
    forall h | h in hits
      ensures nearest.distanceFromCameraSqrd <= h.distanceFromCameraSqrd
    {
      assert h in multiset(a[..]);
      var k :| 0 <= k < a.Length && a[k] == h;
      if k < a.Length - 1 {
        assert a[..][k] == h && a[..][a.Length - 1] == nearest;
      }
    }
  }

  // ---------------------------------------------------------------------------
  // Root or leaf

  /** The node doObjectPicking selects for the nearest hit `leaf`: with
      `selectRootObject`, the root of the leaf's tree unless the previous
      selection lies in the same tree, in which case the leaf itself. */
  function ChooseSelection(nodes: Arena, leaf: NodeId, lastSelected: Option<NodeId>, selectRootObject: bool): (r: NodeId)
    requires ValidArena(nodes) && leaf < |nodes|
    requires lastSelected.Some? ==> lastSelected.value < |nodes|
    ensures r < |nodes| && (r == leaf || r == RootOf(nodes, leaf))
    ensures IsAncestorOrSelf(nodes, r, leaf) && RootOf(nodes, r) == RootOf(nodes, leaf)
  {
    if selectRootObject && (lastSelected.None? || RootOf(nodes, leaf) != RootOf(nodes, lastSelected.value))
    then RootOf(nodes, leaf)
    else leaf
  }

  /** Clicking into another object's tree (or with nothing selected) selects that
      object's root; clicking again into the same tree drills down to the leaf. */
  lemma RootThenLeaf(nodes: Arena, leaf: NodeId, lastSelected: Option<NodeId>)
    requires ValidArena(nodes) && leaf < |nodes|
    requires lastSelected.Some? ==> lastSelected.value < |nodes|
    ensures lastSelected.None? || RootOf(nodes, lastSelected.value) != RootOf(nodes, leaf) ==>
      ChooseSelection(nodes, leaf, lastSelected, true) == RootOf(nodes, leaf)
    ensures lastSelected.Some? && RootOf(nodes, lastSelected.value) == RootOf(nodes, leaf) ==>
      ChooseSelection(nodes, leaf, lastSelected, true) == leaf
    ensures ChooseSelection(nodes, leaf, Some(ChooseSelection(nodes, leaf, lastSelected, true)), true) == leaf
  {
  }

  /** `picked` is what ChooseSelection makes of some nearest hit in `hits`. */
  ghost predicate SelectsNearest(nodes: Arena, hits: seq<PickingResult>, picked: NodeId, lastSelected: Option<NodeId>, selectRootObject: bool)
    requires ValidArena(nodes) && (lastSelected.Some? ==> lastSelected.value < |nodes|)
  {
    exists r | IsNearest(hits, r) :: r.hitNode < |nodes| && picked == ChooseSelection(nodes, r.hitNode, lastSelected, selectRootObject)
  }

  /** Without root selection the exact picked node is kept. */
  lemma LeafWithoutRootSelection(nodes: Arena, leaf: NodeId, lastSelected: Option<NodeId>)
    requires ValidArena(nodes) && leaf < |nodes|
    requires lastSelected.Some? ==> lastSelected.value < |nodes|
    ensures ChooseSelection(nodes, leaf, lastSelected, false) == leaf
  {
  }
}
