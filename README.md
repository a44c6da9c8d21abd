# SceneViewWidget picking and mode switching

This project models the decision logic of `SceneViewWidget`, the editor viewport of
the Jahshaka/irisgl editor:

- how a mouse click becomes a hit list: the recursive scene and gizmo-handle walks,
  and the light and viewer sphere tests;
- how that list is ranked: an in-place sort by descending squared distance from the
  editor camera, then the last element;
- how the node to select is chosen from the winning hit: the hit node or the root of
  its tree, depending on the previous selection;
- what each picking entry point does to the active gizmo and to the emitted
  `sceneNodeSelected` signal;
- how the widget switches between its three camera controllers, between editor and
  VR mode, and between its three transform gizmos;
- the play-mode clock.

The model has four modules, one file each:

- `scene_graph.dfy` (`SceneGraph`): the scene-node tree as an arena of nodes addressed
  by index. It holds the parent walk to a root (`RootOf`, `FindRoot`), the pre-order
  listing of a subtree (`PreOrder`), and tree lemmas.
- `picking.dfy` (`Picking`):
  - `PickingResult` and the specification functions for what each walk appends
    (`SubtreeHits`, `SphereHits`, `ObjectHits`);
  - the in-place sort and `NearestHit`;
  - the root-or-leaf choice (`ChooseSelection`);
  - the lemmas that state traversal order, per-node counts, the filters, collection
    order and the root/leaf rule.
- `controllers.dfy` (`Controllers`): the editor camera, the camera controllers and the
  gizmos. Only the fields the widget reads or writes are kept.
- `scene_view.dfy` (`SceneView`):
  - the picking walks as recursive methods over a hit list;
  - the ranking and choice as methods on values (`PickObject`, `PickHandle`,
    `PickActiveObject`);
  - the `SceneViewWidget` class, whose methods update its fields as the C++ members do.

Geometry is an oracle. For one mouse ray:

- a `SegmentOracle` gives the world-space points where the segment crosses a mesh
  node's triangles;
- a `SphereOracle` gives the hit point of the ray against a sphere, if any.

Squared distances are real numbers.

## Model

| member | source | states |
|---|---|---|
| SceneGraph.RootOf | src/widgets/sceneviewwidget.cpp:614-622 | The node the `while (isAttached()) n = n->parent` walk stops at. It is not attached, it is reached from the start node by parent links, and its index is not larger than the start node's. |
| SceneGraph.FindRoot | src/widgets/sceneviewwidget.cpp:620-622 | The parent-walk loop ends, on every valid tree, at `RootOf` of the start node. |
| SceneGraph.RootOfRoot | src/widgets/sceneviewwidget.cpp:614-622 | Walking up from a root stays at that root. |
| SceneGraph.RootOfAttached | src/widgets/sceneviewwidget.cpp:620-622 | An attached node has the same root as its parent. |
| SceneGraph.SiblingSubtreesDisjoint | src/widgets/sceneviewwidget.cpp:710-712 | No node lies below two different children of one parent, so the children's walks never visit the same node. |
| SceneGraph.PreOrderDescends | src/widgets/sceneviewwidget.cpp:676-714 | Every node the walk from `n` visits is a descendant of `n` (reached from it by parent links). |
| SceneGraph.PreOrderNoDuplicates | src/widgets/sceneviewwidget.cpp:676-714 | The recursive walk visits no node twice. |
| Picking.SubtreeHitsInPreOrder | src/widgets/sceneviewwidget.cpp:676-714 | What a walk appends is the concatenation of each visited node's own hits in pre-order: the node before its children, the children in list order. |
| Picking.ChildrenHitsInPreOrder | src/widgets/sceneviewwidget.cpp:710-712 | The walks of the first `k` children append the pre-order hits of those children's subtrees, child after child. |
| Picking.PicksPerNode | src/widgets/sceneviewwidget.cpp:681-707 | Each node under the start node contributes exactly its own hits: one per triangle hit if it passes the filter, none otherwise. A node outside the subtree contributes nothing. |
| Picking.SubtreeHitsAreHits | src/widgets/sceneviewwidget.cpp:681-686 | Every appended result names a visited node that passes the filter: for scene picking a pickable Mesh node with a mesh, for gizmo picking any Mesh node. Its hit point is one of that node's triangle hits, and its distance is the squared distance from the camera. |
| Picking.SphereHitsFollowCollection | src/widgets/sceneviewwidget.cpp:763-777 | Light or viewer picking adds one result per collection member whose sphere is hit, in collection order. Each result carries the sphere test's hit point and the squared distance to the camera. |
| Picking.ObjectHitsKinds | src/widgets/sceneviewwidget.cpp:589-597 | In the object-picking list, a light result appears only when lights are not skipped, and a viewer result only when viewers are not. A mesh result is a scene-picking triangle hit. |
| Picking.SortByDistance | src/widgets/sceneviewwidget.cpp:605-607 | The in-place sort leaves the hit list ordered by non-increasing squared distance and a permutation of what it was. |
| Picking.NearestHit | src/widgets/sceneviewwidget.cpp:605-610 | The last element after the descending sort is a hit of the list with the smallest squared distance of all hits. |
| Picking.ChooseSelection | src/widgets/sceneviewwidget.cpp:610-629 | The selected node is the hit node or its root, and in either case lies in the hit node's tree. |
| Picking.RootThenLeaf | src/widgets/sceneviewwidget.cpp:613-628 | With root selection on, the root is chosen when nothing was selected or the previous selection lies in another tree. Otherwise the hit node itself is chosen. Clicking the same spot again after a root was chosen drills down to the hit node. |
| Picking.LeafWithoutRootSelection | src/widgets/sceneviewwidget.cpp:610-613 | With root selection off, the hit node itself is selected. |
| Controllers.Gizmo.Release | src/widgets/sceneviewwidget.cpp:659-661 | A missed gizmo click clears both the gizmo's bound node and its current handle. |
| Controllers.Gizmo.Grab | src/widgets/sceneviewwidget.cpp:670-673 | A handle hit becomes the gizmo's hit point and current handle. The gizmo is told the handle's name, then that the mouse was pressed. |
| SceneView.AppendTriangleHits | src/widgets/sceneviewwidget.cpp:696-707 | The loop over a node's triangle hits appends one result per hit, in order, keeping the earlier entries. |
| SceneView.DoScenePicking | src/widgets/sceneviewwidget.cpp:676-714 | The recursive scene walk keeps the entries already in the list and appends exactly `SubtreeHits` for scene picking. |
| SceneView.ScenePickChildren | src/widgets/sceneviewwidget.cpp:710-712 | The loop over the children appends each child's walk in list order. |
| SceneView.DoMeshPicking | src/widgets/sceneviewwidget.cpp:716-749 | The recursive handle walk keeps the earlier entries and appends exactly `SubtreeHits` for gizmo picking. |
| SceneView.MeshPickChildren | src/widgets/sceneviewwidget.cpp:746-748 | The loop over the children appends each child's handle walk in list order. |
| SceneView.DoLightPicking | src/widgets/sceneviewwidget.cpp:751-778 | Light picking keeps the earlier entries and appends the sphere hits of the scene's lights. The sphere has radius 0.5 and is centred on each light's local position. |
| SceneView.DoViewerPicking | src/widgets/sceneviewwidget.cpp:780-807 | Viewer picking keeps the earlier entries and appends the sphere hits of the scene's viewers. The sphere has radius 0.5 and is centred on each viewer's global position. |
| SceneView.PickObject | src/widgets/sceneviewwidget.cpp:581-629 | No node is picked exactly when the combined hit list is empty. Otherwise the picked node is what `ChooseSelection` makes of a nearest hit. |
| SceneView.PickHandle | src/widgets/sceneviewwidget.cpp:648-669 | No handle hit exactly when the handle walk finds nothing. Otherwise the result is a nearest handle hit. |
| SceneView.PickActiveObject | src/widgets/sceneviewwidget.cpp:462-485 | No hit exactly when the scene walk finds nothing. A lone hit is taken as it is, and in every case the result is a nearest hit. |
| SceneView.SceneViewWidget.constructor | src/widgets/sceneviewwidget.cpp:63-140 | The widget creates its own editor camera, three controllers and three gizmos, all new objects. The initial state: no scene and no selection; the editor camera at (0, 5, 14); the free controller both active and saved, driving the editor camera; editor mode at 60 fps; the translation gizmo active; transform mode Global, with every gizmo oriented Global and bound to no node; not playing; clock at 0. |
| SceneView.SceneViewWidget.SetScene | src/widgets/sceneviewwidget.cpp:220-229 | Installing a scene drops the selected node. |
| SceneView.SceneViewWidget.SetSelectedNode | src/widgets/sceneviewwidget.cpp:231-239 | The selection, the renderer's highlighted node and the active gizmo's bound node all become the given node. |
| SceneView.SceneViewWidget.DoObjectPicking | src/widgets/sceneviewwidget.cpp:581-633 | With no hits, one deselect signal goes out and the gizmo's bound node is left alone. Otherwise the node chosen from a nearest hit is both given to the gizmo and emitted. |
| SceneView.SceneViewWidget.DoGizmoPicking | src/widgets/sceneviewwidget.cpp:648-674 | With no handle hit, the gizmo's bound node and current handle are cleared and a deselect signal goes out. Otherwise a nearest handle hit becomes the current handle and hit point, the gizmo gets the handle name and a mouse press, and no signal is emitted. |
| SceneView.SceneViewWidget.DoActiveObjectPicking | src/widgets/sceneviewwidget.cpp:462-486 | Returns false exactly when the ray hits no pickable mesh, and then leaves `hit` alone. Otherwise `hit` becomes the hit point of a nearest hit. |
| SceneView.SceneViewWidget.SetFreeCameraMode | src/widgets/sceneviewwidget.cpp:809-814 | The free controller becomes active, drives the editor camera and has no buttons held. The saved controller and the mode are unchanged. |
| SceneView.SceneViewWidget.SetArcBallCameraMode | src/widgets/sceneviewwidget.cpp:816-821 | The orbital controller becomes active, drives the editor camera and has no buttons held. The saved controller and the mode are unchanged. |
| SceneView.SceneViewWidget.SetViewportMode | src/widgets/sceneviewwidget.cpp:828-844 | Entering VR saves the active controller and activates the VR one. Entering the editor reactivates the saved controller. The new active controller drives the editor camera with no buttons held. The other controllers keep their camera and pressed buttons. |
| SceneView.SceneViewWidget.VrRoundTrip | src/widgets/sceneviewwidget.cpp:828-844 | Entering VR and leaving it again restores whichever controller was active before, the VR one included. Only that controller and the VR controller are touched. |
| SceneView.SceneViewWidget.VrTwiceThenEditor | src/widgets/sceneviewwidget.cpp:828-844 | Entering VR twice saves the VR controller itself, so leaving VR keeps the VR controller active. The free and orbital controllers are untouched. |
| SceneView.SceneViewWidget.SyncWithHeadset | src/widgets/sceneviewwidget.cpp:304-314 | Putting the headset on outside VR enters VR at 90 fps: the active controller is saved and the VR controller becomes active. Taking it off in VR returns to the editor at 60 fps and reactivates the saved controller. On either switch the newly active controller drives the editor camera with no buttons held, and the other controllers are untouched. With no change nothing moves: every controller keeps its camera and pressed buttons, and the active and saved controllers and the frame interval stay. Because of this guard, leaving VR always restores a non-VR controller. |
| SceneView.SceneViewWidget.SetTransformOrientationLocal | src/widgets/sceneviewwidget.cpp:851-854 | The active gizmo's orientation becomes Local. |
| SceneView.SceneViewWidget.SetTransformOrientationGlobal | src/widgets/sceneviewwidget.cpp:856-859 | The active gizmo's orientation becomes Global. |
| SceneView.SceneViewWidget.SwitchGizmo | src/widgets/sceneviewwidget.cpp:866-891 | The target gizmo becomes active. It takes over the old gizmo's orientation, which is also recorded as the widget's transform mode, and is bound to the selected node. The selected node is unchanged. |
| SceneView.SceneViewWidget.SetGizmoLoc | src/widgets/sceneviewwidget.cpp:866-873 | `SwitchGizmo` to the translation gizmo. |
| SceneView.SceneViewWidget.SetGizmoRot | src/widgets/sceneviewwidget.cpp:875-882 | `SwitchGizmo` to the rotation gizmo. |
| SceneView.SceneViewWidget.SetGizmoScale | src/widgets/sceneviewwidget.cpp:884-891 | `SwitchGizmo` to the scale gizmo. |
| SceneView.SceneViewWidget.SwitchGizmoIdempotent | src/widgets/sceneviewwidget.cpp:866-891 | From the state a switch to a gizmo leaves, switching to the same gizmo again changes no field. |
| SceneView.SceneViewWidget.SwitchGizmoTwice | src/widgets/sceneviewwidget.cpp:866-891 | Two switches to the same gizmo in a row end where one switch ends. |
| SceneView.SceneViewWidget.StartPlayingScene | src/widgets/sceneviewwidget.cpp:912-916 | Play mode starts with the clock at 0. |
| SceneView.SceneViewWidget.StopPlayingScene | src/widgets/sceneviewwidget.cpp:918-923 | Play mode stops, the clock resets to 0 and the scene is animated to time 0. |
| SceneView.SceneViewWidget.AdvanceAnimation | src/widgets/sceneviewwidget.cpp:328-334 | While a scene is present and playing, the clock advances by the frame time and the scene is animated to the new time. Otherwise neither changes. |

## Left out

- Mouse-ray and intersection maths are not modelled: `calculateMouseRay`, `updateRPI`, the segment transforms into a mesh's local space and back, `TriMesh::getSegmentIntersections` and `IntersectionHelper::raySphereIntersects`. They are floating-point vector and matrix code, or code outside this model. Their results are the `SegmentOracle` and `SphereOracle` parameters.
- `SceneView.SceneViewWidget.AdvanceAnimation`: the play clock and the frame time are exact reals, not single-precision `float`s. `animTime == old(animTime) + dt` holds without rounding.
- Squared distances are exact reals. Single-precision rounding, and rounding ties that could reorder equal-looking hits, are not modelled.
- The picking walks measure distances from the editor camera's global position, while the ray starts at its local position. The model uses one camera position for both, as the editor camera has no parent.
- `editorCam->updateCameraMatrices()` at the head of each picking entry point and gizmo switch is not modelled. It only refreshes cached matrices.
- `qSort` is not stable. `NearestHit` and every picking contract promise only a hit of minimal distance, not which of several equally near hits wins.
- Rendering and the frame loop are not modelled: `renderScene` apart from its clock update, `initializeGL` apart from the 60 fps timer start, `addLightShapesToScene`, `createDirLightMesh`, `takeScreenshot`, `resizeGL`. They are GL, render-target and timer code.
- The VR headset is a parameter of `SyncWithHeadset` (`headMounted`). The VR device and the VR controller's own behaviour are not part of this model.
- The camera controllers' and gizmos' own code is outside this model. Controllers keep only the camera they drive and the buttons they believe are held. A gizmo keeps its handle tree, orientation, bound node, current handle and hit point. Its `setPlaneOrientation` and `onMousePress` calls are recorded in `calls`, without the ray arguments of `onMousePress`.
- Qt event handling is not modelled. The mouse and wheel handlers pass events to the active camera controller. The move, press and release handlers also drive the active gizmo, and the right button sets a dragging flag. The key and focus handlers write the process-wide `KeyboardState` table, and `eventFilter` is not modelled either. The model also leaves out the press handler's choice of which picking to run. On a left press in Editor mode it always runs gizmo picking first. Then, with a node selected, it asks the gizmo whether it was hit; with nothing selected, it runs object picking. The picking entry points are modelled on their own.
- `SceneView.SceneViewWidget.SetScene`: the calls that hand the scene to the renderer, the VR controller and the editor camera are not modelled. They change objects outside this model.
- `SceneView.SceneViewWidget.SetSelectedNode`: the null check on `viewportGizmo` is not modelled, because the model's widget always has an active gizmo once constructed.
- `SceneView.DoMeshPicking`, `SceneView.MeshPickChildren` and `SceneView.PickHandle` require every mesh node of the handle tree to have a mesh (`MeshesLoaded`, part of `Controllers.ValidHandleTree` and so of `Controllers.Gizmo.Valid`). Gizmo picking dereferences the mesh without a null check, so a handle mesh node without a mesh would crash the source. That crash is not modelled.
- `SceneView.SceneViewWidget.DoObjectPicking`, `SceneView.SceneViewWidget.DoActiveObjectPicking` and `SceneView.SceneViewWidget.StopPlayingScene` require a scene to be installed. The source dereferences the scene pointer without a null check in these three, so calling one with no scene would crash it. That crash is not modelled.
- `SceneView.SceneViewWidget.constructor`: each gizmo's own initial orientation is taken to be Global, matching the transform mode `initialize()` records. The gizmo classes that set it are not part of this model.
- `setEditorData`, `getEditorData`, `resetEditorCam`, `hideGizmo`, `clearSelectedNode`, `updateScene`, `isVrSupported` and the light-wire flag are not modelled. They are outside the picking and mode-switching core.
- Scene nodes, meshes and gizmos are shared pointers in the source. Here they are arena indices and value records, so aliasing between scene nodes is not modelled.
