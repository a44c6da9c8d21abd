/** SceneViewWidget: the editor viewport. It owns the editor camera, three
    camera controllers of which one is active, three transform gizmos of which
    one is active, the current scene and selection, and the play-mode clock; it
    turns a mouse click into a ranked hit list and a selection. */
module SceneView {
  import opened SceneGraph
  import opened Picking
  import opened Controllers

  datatype ViewportMode = Editor | VR

  /** The frame timer's interval: Constants::FPS_60 or Constants::FPS_90. */
  datatype FrameInterval = Fps60 | Fps90

  /** A gizmo's handle tree, as loaded from its assets. */
  datatype HandleSet = HandleSet(nodes: Arena, root: NodeId)

  // ---------------------------------------------------------------------------
  // Hit-list construction. The walks read nothing of the widget but the editor
  // camera's position, which they take as `camera`.

  /** The `for (auto triResult : results)` loop: one result per triangle hit. */
  method AppendTriangleHits(n: NodeId, results: seq<Vec3>, camera: Vec3, hitList: seq<PickingResult>)
    returns (hits: seq<PickingResult>)
    ensures hits == hitList + TriangleHits(n, results, camera)
  {
    hits := hitList;
    for k := 0 to |results|
      invariant hits == hitList + TriangleHits(n, results[..k], camera)
    {
      var hitPoint := results[k];
      hits := hits + [PickingResult(n, hitPoint, DistanceSqrd(hitPoint, camera))];
      assert TriangleHits(n, results[..k + 1], camera)
          == TriangleHits(n, results[..k], camera) + [PickingResult(n, hitPoint, DistanceSqrd(hitPoint, camera))];
    }
    assert results[..|results|] == results;
  }

  /** Scene picking from node `n`: the node's hits if it is a pickable mesh
      node with a mesh, then the children's walks in list order. */
  method DoScenePicking(nodes: Arena, n: NodeId, tri: SegmentOracle, camera: Vec3, hitList: seq<PickingResult>)
    returns (hits: seq<PickingResult>)
    requires ValidArena(nodes) && n < |nodes|
    ensures hits == hitList + SubtreeHits(nodes, n, ScenePick, tri, camera)
    decreases |nodes| - n, 1
  {
    hits := hitList;
    var node := nodes[n];
    if node.nodeType == Mesh && node.pickable {
      if node.hasMesh {
        hits := AppendTriangleHits(n, tri(n), camera, hits);
      }
    }
    hits := ScenePickChildren(nodes, n, tri, camera, hits);
  }

  /** The `for (auto child : node->children)` loop of doScenePicking. */
  method ScenePickChildren(nodes: Arena, n: NodeId, tri: SegmentOracle, camera: Vec3, hitList: seq<PickingResult>)
    returns (hits: seq<PickingResult>)
    requires ValidArena(nodes) && n < |nodes|
    ensures hits == hitList + ChildrenHits(nodes, n, |nodes[n].children|, ScenePick, tri, camera)
    decreases |nodes| - n, 0
  {
    var children := nodes[n].children;
    hits := hitList;
    for k := 0 to |children|
      invariant hits == hitList + ChildrenHits(nodes, n, k, ScenePick, tri, camera)
    {
      assert nodes[children[k]].parent == Some(n);
      hits := DoScenePicking(nodes, children[k], tri, camera, hits);
    }
  }

  /** Gizmo-handle picking from node `n`: as scene picking, but every mesh
      node counts, pickable or not. */
  method DoMeshPicking(nodes: Arena, n: NodeId, tri: SegmentOracle, camera: Vec3, hitList: seq<PickingResult>)
    returns (hits: seq<PickingResult>)
    requires ValidArena(nodes) && n < |nodes|
    requires MeshesLoaded(nodes)
    ensures hits == hitList + SubtreeHits(nodes, n, GizmoPick, tri, camera)
    decreases |nodes| - n, 1
  {
    hits := hitList;
    var node := nodes[n];
    if node.nodeType == Mesh {
      hits := AppendTriangleHits(n, tri(n), camera, hits);
    }
    hits := MeshPickChildren(nodes, n, tri, camera, hits);
  }

  /** The `for (auto child : node->children)` loop of doMeshPicking. */
  method MeshPickChildren(nodes: Arena, n: NodeId, tri: SegmentOracle, camera: Vec3, hitList: seq<PickingResult>)
    returns (hits: seq<PickingResult>)
    requires ValidArena(nodes) && n < |nodes|
    requires MeshesLoaded(nodes)
    ensures hits == hitList + ChildrenHits(nodes, n, |nodes[n].children|, GizmoPick, tri, camera)
    decreases |nodes| - n, 0
  {
    var children := nodes[n].children;
    hits := hitList;
    for k := 0 to |children|
      invariant hits == hitList + ChildrenHits(nodes, n, k, GizmoPick, tri, camera)
    {
      assert nodes[children[k]].parent == Some(n);
      hits := DoMeshPicking(nodes, children[k], tri, camera, hits);
    }
  }

  /** Appends one result per light whose 0.5-radius sphere around its local
      position the ray hits, in the order of the scene's light list. */
  method DoLightPicking(s: Scene, sphere: SphereOracle, camera: Vec3, hitList: seq<PickingResult>)
    returns (hits: seq<PickingResult>)
    requires ValidScene(s)
    ensures hits == hitList + SphereHits(s.nodes, s.lights, LightProxy, sphere, camera)
  {
    hits := hitList;
    for k := 0 to |s.lights|
      invariant hits == hitList + SphereHits(s.nodes, s.lights[..k], LightProxy, sphere, camera)
    {
      var light := s.lights[k];
      assert s.lights[..k + 1][..k] == s.lights[..k];
      var test := sphere(s.nodes[light].localPos, LightRadius);
      if test.Some? {
        hits := hits + [PickingResult(light, test.value, DistanceSqrd(test.value, camera))];
      }
    }
    assert s.lights[..|s.lights|] == s.lights;
  }

  /** Appends one result per viewer whose 0.5-radius sphere around its global
      position the ray hits, in the order of the scene's viewer list. */
  method DoViewerPicking(s: Scene, sphere: SphereOracle, camera: Vec3, hitList: seq<PickingResult>)
    returns (hits: seq<PickingResult>)
    requires ValidScene(s)
    ensures hits == hitList + SphereHits(s.nodes, s.viewers, ViewerProxy, sphere, camera)
  {
    hits := hitList;
    for k := 0 to |s.viewers|
      invariant hits == hitList + SphereHits(s.nodes, s.viewers[..k], ViewerProxy, sphere, camera)
    {
      var viewer := s.viewers[k];
      assert s.viewers[..k + 1][..k] == s.viewers[..k];
      var test := sphere(s.nodes[viewer].globalPos, HeadRadius);
      if test.Some? {
        hits := hits + [PickingResult(viewer, test.value, DistanceSqrd(test.value, camera))];
      }
    }
    assert s.viewers[..|s.viewers|] == s.viewers;
  }

  // ---------------------------------------------------------------------------
  // Ranking and choice, on values; the widget's methods below apply the outcome
  // to its state.

  /** The decision part of doObjectPicking: no node when nothing is hit,
      otherwise the node ChooseSelection makes of a nearest hit. */
  method PickObject(s: Scene, tri: SegmentOracle, sphere: SphereOracle, camera: Vec3, lastSelectedNode: Option<NodeId>,
                    selectRootObject: bool, skipLights: bool, skipViewers: bool)
    returns (picked: Option<NodeId>)
    requires ValidScene(s)
    requires lastSelectedNode.Some? ==> lastSelectedNode.value < |s.nodes|
    ensures var hits := ObjectHits(s, tri, sphere, skipLights, skipViewers, camera);
      && (picked.None? <==> hits == [])
      && (picked.Some? ==> SelectsNearest(s.nodes, hits, picked.value, lastSelectedNode, selectRootObject))
  {
    var hitList := DoScenePicking(s.nodes, s.root, tri, camera, []);
    if !skipLights {
      hitList := DoLightPicking(s, sphere, camera, hitList);
    }
    if !skipViewers {
      hitList := DoViewerPicking(s, sphere, camera, hitList);
    }

    if |hitList| == 0 {
      return None;
    }

    ObjectHitsKinds(s, tri, sphere, skipLights, skipViewers, camera);
    var nearest := NearestHit(hitList);
    var pickedNode := nearest.hitNode;

    if selectRootObject {
      var lastSelectedRoot: Option<NodeId> := None;
      if lastSelectedNode.Some? {
        var root := FindRoot(s.nodes, lastSelectedNode.value);
        lastSelectedRoot := Some(root);
      }
      var pickedRoot := FindRoot(s.nodes, nearest.hitNode);
      if lastSelectedNode.None? || Some(pickedRoot) != lastSelectedRoot {
        pickedNode := pickedRoot;
      }
    }
    assert pickedNode == ChooseSelection(s.nodes, nearest.hitNode, lastSelectedNode, selectRootObject);
    return Some(pickedNode);
  }

  /** The decision part of doGizmoPicking: no hit when the ray misses every
      handle, otherwise a nearest handle hit. */
  method PickHandle(handles: Arena, handleRoot: NodeId, tri: SegmentOracle, camera: Vec3)
    returns (nearest: Option<PickingResult>)
    requires ValidHandleTree(handles, handleRoot)
    ensures var hits := SubtreeHits(handles, handleRoot, GizmoPick, tri, camera);
      && (nearest.None? <==> hits == [])
      && (nearest.Some? ==> IsNearest(hits, nearest.value) && nearest.value.hitNode < |handles|)
  {
    var hitList := DoMeshPicking(handles, handleRoot, tri, camera, []);
    if |hitList| == 0 {
      return None;
    }
    SubtreeHitsAreHits(handles, handleRoot, GizmoPick, tri, camera);
    var r := NearestHit(hitList);
    return Some(r);
  }

  /** The ranking part of doActiveObjectPicking: a lone hit is taken as it is,
      several are ranked. */
  method PickActiveObject(s: Scene, tri: SegmentOracle, camera: Vec3) returns (nearest: Option<PickingResult>)
    requires ValidScene(s)
    ensures var hits := SubtreeHits(s.nodes, s.root, ScenePick, tri, camera);
      && (nearest.None? <==> hits == [])
      && (nearest.Some? ==> IsNearest(hits, nearest.value))
  {
    var hitList := DoScenePicking(s.nodes, s.root, tri, camera, []);
    if |hitList| == 0 {
      return None;
    }
    if |hitList| == 1 {
      assert IsNearest(hitList, hitList[0]);
      return Some(hitList[0]);
    }
    var r := NearestHit(hitList);
    return Some(r);
  }

  class SceneViewWidget {
    var scene: Option<Scene>
    const editorCam: CameraNode

    const defaultCam: CameraController
    const orbitalCam: CameraController
    const vrCam: CameraController
    var camController: CameraController
    var prevCamController: CameraController
    var viewportMode: ViewportMode
    var timerInterval: FrameInterval

    const translationGizmo: Gizmo
    const rotationGizmo: Gizmo
    const scaleGizmo: Gizmo
    var viewportGizmo: Gizmo
    var transformMode: TransformOrientation

    var selectedNode: Option<NodeId>
    var rendererSelection: Option<NodeId>     // renderer->setSelectedSceneNode
    var sceneNodeSelected: seq<Option<NodeId>> // every emitted sceneNodeSelected signal, oldest first
    var hit: Vec3                              // doActiveObjectPicking's hit point

    var playScene: bool
    var animTime: real
    var sceneAnimationTimes: seq<real>         // every scene->updateSceneAnimation argument, oldest first

    /** The three controllers are of their kinds, and the active and the saved
        controller are among them. */
    ghost predicate ControllersWired()
      reads this`camController, this`prevCamController
    {
      && defaultCam.kind == FreeController && orbitalCam.kind == OrbitalController && vrCam.kind == VrController
      && (camController == defaultCam || camController == orbitalCam || camController == vrCam)
      && (prevCamController == defaultCam || prevCamController == orbitalCam || prevCamController == vrCam)
    }

    /** The active gizmo is one of the three, and every gizmo's handles can be picked. */
    ghost predicate GizmosReady()
      reads this`viewportGizmo
    {
      && translationGizmo.kind == Translation && rotationGizmo.kind == Rotation && scaleGizmo.kind == Scale
      && (viewportGizmo == translationGizmo || viewportGizmo == rotationGizmo || viewportGizmo == scaleGizmo)
      && translationGizmo.Valid() && rotationGizmo.Valid() && scaleGizmo.Valid()
    }

    ghost predicate Valid()
      reads this`scene, this`camController, this`prevCamController, this`viewportGizmo
    {
      ControllersWired() && GizmosReady() && (scene.Some? ==> ValidScene(scene.value))
    }

    /** Leaving VR hands the camera back to a non-VR controller: the controller
        saved for that is not the VR one, and outside VR the VR one is not active. */
    ghost predicate RestoresEditorController()
      reads this`prevCamController, this`viewportMode, this`camController
    {
      prevCamController != vrCam && (viewportMode == Editor ==> camController != vrCam)
    }

    /** The widget's constructor followed by initialize() and the timer start of
        initializeGL(). */
    constructor (translateHandles: HandleSet, rotateHandles: HandleSet, scaleHandles: HandleSet)
      requires ValidHandleTree(translateHandles.nodes, translateHandles.root)
      requires ValidHandleTree(rotateHandles.nodes, rotateHandles.root)
      requires ValidHandleTree(scaleHandles.nodes, scaleHandles.root)
      ensures Valid() && RestoresEditorController()
      ensures fresh(editorCam) && fresh(defaultCam) && fresh(orbitalCam) && fresh(vrCam)
      ensures fresh(translationGizmo) && fresh(rotationGizmo) && fresh(scaleGizmo)
      ensures scene == None && selectedNode == None && sceneNodeSelected == []
      ensures editorCam.position == Vec3(0.0, 5.0, 14.0)
      ensures camController == defaultCam && prevCamController == defaultCam && defaultCam.camera == editorCam
      ensures viewportMode == Editor && timerInterval == Fps60
      ensures viewportGizmo == translationGizmo && transformMode == Global
      ensures translationGizmo.transformOrientation == Global && rotationGizmo.transformOrientation == Global
      ensures scaleGizmo.transformOrientation == Global
      ensures translationGizmo.lastSelectedNode == None && rotationGizmo.lastSelectedNode == None
      ensures scaleGizmo.lastSelectedNode == None
      ensures !playScene && animTime == 0.0
    {
      editorCam := new CameraNode(Vec3(0.0, 5.0, 14.0));
      defaultCam := new CameraController(FreeController);
      orbitalCam := new CameraController(OrbitalController);
      vrCam := new CameraController(VrController);
      translationGizmo := new Gizmo(Translation, translateHandles.nodes, translateHandles.root, Global);
      rotationGizmo := new Gizmo(Rotation, rotateHandles.nodes, rotateHandles.root, Global);
      scaleGizmo := new Gizmo(Scale, scaleHandles.nodes, scaleHandles.root, Global);
      camController := defaultCam;
      prevCamController := defaultCam;
      viewportGizmo := translationGizmo;
      viewportMode := Editor;
      timerInterval := Fps60;
      transformMode := Global;
      scene := None;
      selectedNode := None;
      rendererSelection := None;
      sceneNodeSelected := [];
      hit := Vec3(0.0, 0.0, 0.0);
      playScene := false;
      animTime := 0.0;
      sceneAnimationTimes := [];
      new;
      defaultCam.SetCamera(editorCam);
    }

    // -------------------------------------------------------------------------
    // Scene and selection

    /** Installs a scene and drops the selection; the gizmo keeps its node. */
    method SetScene(s: Scene)
      requires Valid() && ValidScene(s)
      modifies this`scene, this`selectedNode
      ensures Valid()
      ensures scene == Some(s) && selectedNode == None
    {
      scene := Some(s);
      selectedNode := None;
    }

    /** The selection, the renderer's highlighted node and the active gizmo's
        node all become `node`. */
    method SetSelectedNode(node: Option<NodeId>)
      requires Valid()
      modifies this`selectedNode, this`rendererSelection, viewportGizmo`lastSelectedNode
      ensures Valid()
      ensures selectedNode == node && rendererSelection == node && viewportGizmo.lastSelectedNode == node
    {
      selectedNode := node;
      rendererSelection := node;
      viewportGizmo.SetLastSelectedNode(node);
    }

    // -------------------------------------------------------------------------
    // Ranking and choice

    /** Object picking: with no hit, one deselect signal and the gizmo left
        alone; otherwise the node chosen from a nearest hit (its root or itself,
        see ChooseSelection) is given to the gizmo and emitted. */
    method DoObjectPicking(tri: SegmentOracle, sphere: SphereOracle, lastSelectedNode: Option<NodeId>,
                           selectRootObject: bool, skipLights: bool, skipViewers: bool)
      requires Valid() && scene.Some?
      requires lastSelectedNode.Some? ==> lastSelectedNode.value < |scene.value.nodes|
      modifies this`sceneNodeSelected, viewportGizmo`lastSelectedNode
      ensures Valid()
      ensures var hits := ObjectHits(scene.value, tri, sphere, skipLights, skipViewers, editorCam.position);
        && (hits == [] ==>
              && sceneNodeSelected == old(sceneNodeSelected) + [None]
              && viewportGizmo.lastSelectedNode == old(viewportGizmo.lastSelectedNode))
        && (hits != [] ==>
              && viewportGizmo.lastSelectedNode.Some?
              && sceneNodeSelected == old(sceneNodeSelected) + [viewportGizmo.lastSelectedNode]
              && SelectsNearest(scene.value.nodes, hits, viewportGizmo.lastSelectedNode.value, lastSelectedNode, selectRootObject))
    {
      var picked := PickObject(scene.value, tri, sphere, editorCam.position, lastSelectedNode,
                               selectRootObject, skipLights, skipViewers);
      if picked.Some? {
        viewportGizmo.SetLastSelectedNode(picked);
      }
      sceneNodeSelected := sceneNodeSelected + [picked];
    }

    /** Gizmo picking: with no handle hit, the gizmo is unbound and released and
        a deselect signal goes out; otherwise the nearest handle hit becomes the
        gizmo's current handle and hit point, and the gizmo is told which handle
        and that the mouse was pressed. */
    method DoGizmoPicking(tri: SegmentOracle)
      requires Valid()
      modifies this`sceneNodeSelected
      modifies viewportGizmo`lastSelectedNode, viewportGizmo`currentNode, viewportGizmo`finalHitPoint, viewportGizmo`calls
      ensures Valid()
      ensures var g := viewportGizmo;
        var hits := SubtreeHits(g.handles, g.handleRoot, GizmoPick, tri, editorCam.position);
        && (hits == [] ==>
              && g.lastSelectedNode == None && g.currentNode == None
              && sceneNodeSelected == old(sceneNodeSelected) + [None]
              && g.finalHitPoint == old(g.finalHitPoint) && g.calls == old(g.calls))
        && (hits != [] ==>
              && g.lastSelectedNode == old(g.lastSelectedNode)
              && sceneNodeSelected == old(sceneNodeSelected)
              && exists r | IsNearest(hits, r) ::
                   && r.hitNode < |g.handles|
                   && g.currentNode == Some(r.hitNode)
                   && g.finalHitPoint == r.hitPoint
                   && g.calls == old(g.calls) + [SetPlaneOrientation(g.handles[r.hitNode].name), MousePress])
    {
      var g := viewportGizmo;
      var nearest := PickHandle(g.handles, g.handleRoot, tri, editorCam.position);
      if nearest.None? {
        g.Release();
        sceneNodeSelected := sceneNodeSelected + [None];
      } else {
        g.Grab(nearest.value);
      }
    }

    /** Active-object picking: false exactly when the ray hits no pickable mesh;
        otherwise `hit` becomes the hit point of a nearest hit. */
    method DoActiveObjectPicking(tri: SegmentOracle) returns (found: bool)
      requires Valid() && scene.Some?
      modifies this`hit
      ensures Valid()
      ensures var hits := SubtreeHits(scene.value.nodes, scene.value.root, ScenePick, tri, editorCam.position);
        && found == (hits != [])
        && (found ==> exists r | IsNearest(hits, r) :: hit == r.hitPoint)
        && (!found ==> hit == old(hit))
    {
      var nearest := PickActiveObject(scene.value, tri, editorCam.position);
      if nearest.None? {
        return false;
      }
      hit := nearest.value.hitPoint;
      return true;
    }

    // -------------------------------------------------------------------------
    // Camera controllers

    method SetFreeCameraMode()
      requires Valid()
      modifies this`camController, defaultCam`camera, defaultCam`buttonsDown
      ensures Valid()
      ensures camController == defaultCam && defaultCam.camera == editorCam && defaultCam.buttonsDown == {}
      ensures prevCamController == old(prevCamController) && viewportMode == old(viewportMode)
      ensures old(RestoresEditorController()) ==> RestoresEditorController()
    {
      camController := defaultCam;
      camController.SetCamera(editorCam);
      camController.ResetMouseStates();
    }

    method SetArcBallCameraMode()
      requires Valid()
      modifies this`camController, orbitalCam`camera, orbitalCam`buttonsDown
      ensures Valid()
      ensures camController == orbitalCam && orbitalCam.camera == editorCam && orbitalCam.buttonsDown == {}
      ensures prevCamController == old(prevCamController) && viewportMode == old(viewportMode)
      ensures old(RestoresEditorController()) ==> RestoresEditorController()
    {
      camController := orbitalCam;
      camController.SetCamera(editorCam);
      camController.ResetMouseStates();
    }

    /** Entering VR saves the active controller and activates the VR one;
        entering the editor reactivates the saved controller. Either way the
        newly active controller gets the editor camera and no pressed buttons. */
    method SetViewportMode(mode: ViewportMode)
      requires Valid()
      modifies this`viewportMode, this`camController, this`prevCamController
      modifies defaultCam`camera, defaultCam`buttonsDown, orbitalCam`camera, orbitalCam`buttonsDown, vrCam`camera, vrCam`buttonsDown
      ensures Valid() && viewportMode == mode
      ensures mode == VR ==> prevCamController == old(camController) && camController == vrCam
      ensures mode == Editor ==> prevCamController == old(prevCamController) && camController == old(prevCamController)
      ensures camController.camera == editorCam && camController.buttonsDown == {}
      ensures defaultCam != camController ==> ControllerUntouched(defaultCam)
      ensures orbitalCam != camController ==> ControllerUntouched(orbitalCam)
      ensures vrCam != camController ==> ControllerUntouched(vrCam)
      ensures old(RestoresEditorController()) && (mode == Editor || old(viewportMode) == Editor) ==> RestoresEditorController()
    {
      viewportMode := mode;

      if mode == VR {
        prevCamController := camController;
        camController := vrCam;
        camController.SetCamera(editorCam);
        camController.ResetMouseStates();
      } else {
        camController := prevCamController;
        camController.SetCamera(editorCam);
        camController.ResetMouseStates();
      }
    }

    /** Entering and then leaving VR brings back whichever controller was
        active, with its pressed buttons forgotten; only it and the VR
        controller are touched. */
    method VrRoundTrip()
      requires Valid()
      modifies this`viewportMode, this`camController, this`prevCamController
      modifies defaultCam`camera, defaultCam`buttonsDown, orbitalCam`camera, orbitalCam`buttonsDown, vrCam`camera, vrCam`buttonsDown
      ensures Valid() && viewportMode == Editor
      ensures camController == old(camController) && prevCamController == old(camController)
      ensures camController.camera == editorCam && camController.buttonsDown == {}
      ensures defaultCam != camController && defaultCam != vrCam ==> ControllerUntouched(defaultCam)
      ensures orbitalCam != camController && orbitalCam != vrCam ==> ControllerUntouched(orbitalCam)
    {
      SetViewportMode(VR);
      SetViewportMode(Editor);
    }

    /** Entering VR while already in VR saves the VR controller itself, so the
        next switch to the editor leaves the VR controller active. */
    method VrTwiceThenEditor()
      requires Valid()
      modifies this`viewportMode, this`camController, this`prevCamController
      modifies defaultCam`camera, defaultCam`buttonsDown, orbitalCam`camera, orbitalCam`buttonsDown, vrCam`camera, vrCam`buttonsDown
      ensures Valid() && viewportMode == Editor
      ensures camController == vrCam && prevCamController == vrCam
      ensures ControllerUntouched(defaultCam) && ControllerUntouched(orbitalCam)
    {
      SetViewportMode(VR);
      SetViewportMode(VR);
      SetViewportMode(Editor);
    }

    /** The headset check at the top of paintGL: switch to VR (and 90 fps) when
        a headset is worn outside VR mode, back to the editor (and 60 fps) when it
        is taken off in VR mode; only switching on a change keeps leaving VR able
        to restore an editor controller. */
    method SyncWithHeadset(headMounted: bool)
      requires Valid()
      modifies this`viewportMode, this`camController, this`prevCamController, this`timerInterval
      modifies defaultCam`camera, defaultCam`buttonsDown, orbitalCam`camera, orbitalCam`buttonsDown, vrCam`camera, vrCam`buttonsDown
      ensures Valid()
      ensures viewportMode == (if headMounted then VR else Editor)
      ensures headMounted != (old(viewportMode) == VR) ==> timerInterval == (if headMounted then Fps90 else Fps60)
      ensures headMounted && old(viewportMode) != VR ==> camController == vrCam && prevCamController == old(camController)
      ensures !headMounted && old(viewportMode) == VR ==>
        camController == old(prevCamController) && prevCamController == old(prevCamController)
      ensures headMounted != (old(viewportMode) == VR) ==> camController.camera == editorCam && camController.buttonsDown == {}
      ensures headMounted != (old(viewportMode) == VR) ==>
        && (defaultCam != camController ==> ControllerUntouched(defaultCam))
        && (orbitalCam != camController ==> ControllerUntouched(orbitalCam))
        && (vrCam != camController ==> ControllerUntouched(vrCam))
      ensures headMounted == (old(viewportMode) == VR) ==>
        && camController == old(camController) && prevCamController == old(prevCamController) && timerInterval == old(timerInterval)
        && ControllerUntouched(defaultCam) && ControllerUntouched(orbitalCam) && ControllerUntouched(vrCam)
      ensures old(RestoresEditorController()) ==> RestoresEditorController()
    {
      if headMounted && viewportMode != VR {
        SetViewportMode(VR);
        timerInterval := Fps90;
      } else if !headMounted && viewportMode == VR {
        SetViewportMode(Editor);
        timerInterval := Fps60;
      }
    }

    // -------------------------------------------------------------------------
    // Gizmos

    method SetTransformOrientationLocal()
      requires Valid()
      modifies viewportGizmo`transformOrientation
      ensures Valid() && viewportGizmo.transformOrientation == Local
    {
      viewportGizmo.SetTransformOrientation(Local);
    }

    method SetTransformOrientationGlobal()
      requires Valid()
      modifies viewportGizmo`transformOrientation
      ensures Valid() && viewportGizmo.transformOrientation == Global
    {
      viewportGizmo.SetTransformOrientation(Global);
    }

    /** Makes `target` the active gizmo, carrying over the old gizmo's transform
        orientation and binding it to the selected node. */
    method SwitchGizmo(target: Gizmo)
      requires Valid() && target in {translationGizmo, rotationGizmo, scaleGizmo}
      modifies this`transformMode, this`viewportGizmo, target`transformOrientation, target`lastSelectedNode
      ensures Valid() && viewportGizmo == target
      ensures transformMode == old(viewportGizmo.transformOrientation)
      ensures target.transformOrientation == old(viewportGizmo.transformOrientation)
      ensures target.lastSelectedNode == selectedNode && selectedNode == old(selectedNode)
    {
      transformMode := viewportGizmo.transformOrientation;
      viewportGizmo := target;
      viewportGizmo.SetTransformOrientation(transformMode);
      viewportGizmo.SetLastSelectedNode(selectedNode);
    }

    method SetGizmoLoc()
      requires Valid()
      modifies this`transformMode, this`viewportGizmo, translationGizmo`transformOrientation, translationGizmo`lastSelectedNode
      ensures Valid() && viewportGizmo == translationGizmo
      ensures transformMode == old(viewportGizmo.transformOrientation)
      ensures translationGizmo.transformOrientation == old(viewportGizmo.transformOrientation)
      ensures translationGizmo.lastSelectedNode == selectedNode && selectedNode == old(selectedNode)
    {
      SwitchGizmo(translationGizmo);
    }

    method SetGizmoRot()
      requires Valid()
      modifies this`transformMode, this`viewportGizmo, rotationGizmo`transformOrientation, rotationGizmo`lastSelectedNode
      ensures Valid() && viewportGizmo == rotationGizmo
      ensures transformMode == old(viewportGizmo.transformOrientation)
      ensures rotationGizmo.transformOrientation == old(viewportGizmo.transformOrientation)
      ensures rotationGizmo.lastSelectedNode == selectedNode && selectedNode == old(selectedNode)
    {
      SwitchGizmo(rotationGizmo);
    }

    method SetGizmoScale()
      requires Valid()
      modifies this`transformMode, this`viewportGizmo, scaleGizmo`transformOrientation, scaleGizmo`lastSelectedNode
      ensures Valid() && viewportGizmo == scaleGizmo
      ensures transformMode == old(viewportGizmo.transformOrientation)
      ensures scaleGizmo.transformOrientation == old(viewportGizmo.transformOrientation)
      ensures scaleGizmo.lastSelectedNode == selectedNode && selectedNode == old(selectedNode)
    {
      SwitchGizmo(scaleGizmo);
    }

    /** Repeating a gizmo switch changes nothing: from the state a switch to
        `target` leaves, switching to `target` again keeps every field as it is. */
    method SwitchGizmoIdempotent(target: Gizmo)
      requires Valid() && target in {translationGizmo, rotationGizmo, scaleGizmo}
      requires viewportGizmo == target && transformMode == target.transformOrientation
      requires target.lastSelectedNode == selectedNode
      modifies this`transformMode, this`viewportGizmo, target`transformOrientation, target`lastSelectedNode
      ensures Valid()
      ensures viewportGizmo == old(viewportGizmo) && transformMode == old(transformMode)
      ensures target.transformOrientation == old(target.transformOrientation)
      ensures target.lastSelectedNode == old(target.lastSelectedNode)
    {
      SwitchGizmo(target);
    }

    /** Switching twice in a row ends in the state that one switch reaches. */
    method SwitchGizmoTwice(target: Gizmo)
      requires Valid() && target in {translationGizmo, rotationGizmo, scaleGizmo}
      modifies this`transformMode, this`viewportGizmo, target`transformOrientation, target`lastSelectedNode
      ensures Valid() && viewportGizmo == target
      ensures transformMode == old(viewportGizmo.transformOrientation)
      ensures target.transformOrientation == old(viewportGizmo.transformOrientation)
      ensures target.lastSelectedNode == selectedNode && selectedNode == old(selectedNode)
    {
      SwitchGizmo(target);
      SwitchGizmoIdempotent(target);
    }

    // -------------------------------------------------------------------------
    // Play mode

    method StartPlayingScene()
      requires Valid()
      modifies this`playScene, this`animTime
      ensures Valid() && playScene && animTime == 0.0
    {
      playScene := true;
      animTime := 0.0;
    }

    method StopPlayingScene()
      requires Valid() && scene.Some?
      modifies this`playScene, this`animTime, this`sceneAnimationTimes
      ensures Valid() && !playScene && animTime == 0.0
      ensures sceneAnimationTimes == old(sceneAnimationTimes) + [0.0]
    {
      playScene := false;
      animTime := 0.0;
      sceneAnimationTimes := sceneAnimationTimes + [0.0];
    }

    /** The play-mode step of a frame: while playing, the clock advances by the
        frame time and the scene is animated to the new time. */
    method AdvanceAnimation(dt: real)
      requires Valid()
      modifies this`animTime, this`sceneAnimationTimes
      ensures Valid()
      ensures scene.Some? && playScene ==>
        animTime == old(animTime) + dt && sceneAnimationTimes == old(sceneAnimationTimes) + [animTime]
      ensures !(scene.Some? && playScene) ==>
        animTime == old(animTime) && sceneAnimationTimes == old(sceneAnimationTimes)
    {
      if scene.Some? && playScene {
        animTime := animTime + dt;
        sceneAnimationTimes := sceneAnimationTimes + [animTime];
      }
    }
  }
}
