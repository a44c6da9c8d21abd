/** The objects SceneViewWidget switches between: the editor camera, the camera
    controllers and the transform gizmos. Only the state the widget reads or
    writes is kept; their own code is not part of this model. */
module Controllers {
  import opened SceneGraph
  import opened Picking

  /** The editor camera, reduced to the position picking measures distances from. */
  class CameraNode {
    var position: Vec3

    constructor (position: Vec3)
      ensures this.position == position
    {
      this.position := position;
    }
  }

  datatype MouseButton = LeftButton | RightButton | MiddleButton

  datatype ControllerKind = FreeController | OrbitalController | VrController

  /** A camera controller: the camera it drives and the mouse buttons it
      believes are held down. */
  class CameraController {
    const kind: ControllerKind
    var camera: CameraNode?
    var buttonsDown: set<MouseButton>

    constructor (kind: ControllerKind)
      ensures this.kind == kind && camera == null && buttonsDown == {}
    {
      this.kind := kind;
      camera := null;
      buttonsDown := {};
    }

    method SetCamera(cam: CameraNode)
      modifies this`camera
      ensures camera == cam
    {
      camera := cam;
    }

    /** Forget every button press, so a drag begun under another controller is
        not continued by this one. */
    method ResetMouseStates()
      modifies this`buttonsDown
      ensures buttonsDown == {}
    {
      buttonsDown := {};
    }

  }

  /** Neither the camera nor the pressed buttons of `c` changed. */
  twostate predicate ControllerUntouched(c: CameraController)
    reads c
  {
    c.camera == old(c.camera) && c.buttonsDown == old(c.buttonsDown)
  }

  /** A gizmo's handle tree: a well-formed tree whose root is in range and whose
      mesh nodes all have a mesh (gizmo picking reads the mesh without a null
      check). */
  ghost predicate ValidHandleTree(handles: Arena, root: NodeId)
  {
    ValidArena(handles) && root < |handles| && MeshesLoaded(handles)
  }

  datatype GizmoKind = Translation | Rotation | Scale

  /** The "Local" / "Global" transform orientation strings. */
  datatype TransformOrientation = Local | Global

  /** Calls into gizmo code that this model records but does not interpret. */
  datatype GizmoCall = SetPlaneOrientation(handleName: string) | MousePress

  /** A transform gizmo: its handle meshes form a small tree of their own, which
      gizmo picking walks; the widget sets the node it is bound to, the handle
      being dragged and the hit point on that handle. */
  class Gizmo {
    const kind: GizmoKind
    const handles: Arena
    const handleRoot: NodeId
    var transformOrientation: TransformOrientation
    var lastSelectedNode: Option<NodeId>
    var currentNode: Option<NodeId>
    var finalHitPoint: Vec3
    var calls: seq<GizmoCall>

    ghost predicate Valid()
    {
      ValidHandleTree(handles, handleRoot)
    }

    constructor (kind: GizmoKind, handles: Arena, handleRoot: NodeId, orientation: TransformOrientation)
      requires ValidHandleTree(handles, handleRoot)
      ensures Valid()
      ensures this.kind == kind && this.handles == handles && this.handleRoot == handleRoot
      ensures transformOrientation == orientation
      ensures lastSelectedNode == None && currentNode == None && calls == []
    {
      this.kind := kind;
      this.handles := handles;
      this.handleRoot := handleRoot;
      transformOrientation := orientation;
      lastSelectedNode := None;
      currentNode := None;
      finalHitPoint := Vec3(0.0, 0.0, 0.0);
      calls := [];
    }

    method SetTransformOrientation(orientation: TransformOrientation)
      modifies this`transformOrientation
      ensures transformOrientation == orientation
    {
      transformOrientation := orientation;
    }

    method SetLastSelectedNode(node: Option<NodeId>)
      modifies this`lastSelectedNode
      ensures lastSelectedNode == node
    {
      lastSelectedNode := node;
    }

    /** What doGizmoPicking does to the gizmo when no handle is hit: unbind it
        and drop the dragged handle. */
    method Release()
      modifies this`lastSelectedNode, this`currentNode
      ensures lastSelectedNode == None && currentNode == None
    {
      SetLastSelectedNode(None);
      currentNode := None;
    }

    /** What doGizmoPicking does to the gizmo with the nearest handle hit `r`:
        record the hit point, name the handle, make it current, start a drag. */
    method Grab(r: PickingResult)
      requires r.hitNode < |handles|
      modifies this`finalHitPoint, this`currentNode, this`calls
      ensures finalHitPoint == r.hitPoint && currentNode == Some(r.hitNode)
      ensures calls == old(calls) + [GizmoCall.SetPlaneOrientation(handles[r.hitNode].name), MousePress]
    {
      finalHitPoint := r.hitPoint;
      SetPlaneOrientation(handles[r.hitNode].name);
      currentNode := Some(r.hitNode);
      OnMousePress();
    }

    /** Tells the gizmo which handle is being dragged. */
    method SetPlaneOrientation(handleName: string)
      modifies this`calls
      ensures calls == old(calls) + [GizmoCall.SetPlaneOrientation(handleName)]
    {
      calls := calls + [GizmoCall.SetPlaneOrientation(handleName)];
    }

    /** Starts a drag. */
    method OnMousePress()
      modifies this`calls
      ensures calls == old(calls) + [MousePress]
    {
      calls := calls + [MousePress];
    }
  }
}
