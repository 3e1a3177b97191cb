# vision6D pose and visibility bookkeeping, in Dafny

vision6D is an annotation tool for 6D object poses. Meshes are shown over an
image, and a user moves them until they line up. Each mesh actor holds a 4x4
pose matrix (`user_matrix`) and an opacity. Around these actors the
application keeps a lot of state:

- a reference mesh;
- a current and an initial ("GT") pose;
- mirror flags, with the fixed reflections diag(-1, 1, 1, 1) and
  diag(1, -1, 1, 1);
- a bounded undo history;
- a "Remove" menu;
- key bindings that realign groups of meshes;
- opacity controls that hide and show meshes.

This project models that bookkeeping and proves properties about it. The
renderer is reduced to what it stores: a pose and an opacity per actor.

| file | module | models |
|---|---|---|
| `pose.dfy` | `Pose` | 4x4 matrices, the two reflections, and assembling a pose from a rotation and a translation |
| `registry.dfy` | `Registry` | shared pieces: exceptions, actor records, the `"_mirror"` naming rule, the propagation and cumulative-mirror loops, and dict key order as a sequence |
| `camera.dfy` | `Camera` | the camera intrinsics and the window centre |
| `main_window.dfy` | `MainWindowApp` | `vision6D/vision6D_app.py`, classes `MyMainWindow` and `App`, as class `App` |
| `plotter_app.dfy` | `PlotterApp` | `vision6D/app.py`, class `App`, as class `App` |
| `mesh_container.dfy` | `MeshContainers` | `vision6D/containers/mesh_container.py`, as class `MeshContainer` |

How the Python code maps onto Dafny:

- **Exceptions.** A Python exception that escapes an operation is its `Outcome`:
  `Raised(KeyError)`, `Raised(AssertionError)` and so on. A warning dialog is `Warned`.
- **State before a raise.** State changed before the raise stays changed. For example,
  `undo_pose` has already popped the history when the missing reference raises.
- **Dict order.** A dict whose insertion order matters is a `map` plus a `seq` of its keys.
  Two behaviours depend on that order:
  - the cumulative mirroring of `update_gt_pose` and `event_update_position`;
  - the order of `bind_meshes`' list.
- **Loops.** Every loop of the source is a `while` loop proved against a specification
  function. Examples are `AccumulateAll`, `Realigned`, `Plotted` and `HideAll`.
  The lemmas about those functions state what the loops achieve.

Points where the code behaves in a way a reader might not expect. The model follows the code
in each case:

- **Undo history bound.** The history may hold 21 entries. A click drops the oldest entry only
  when more than 20 are held, and then appends one.
- **Cumulative mirroring.** `update_gt_pose` and `event_update_position` reflect their running
  matrix once more at every `"_mirror"` actor. So the i-th actor gets Rx^k · T, where k counts
  the `"_mirror"` names up to and including it. It does not get Rx · T.
- **`load_meshes` colours.** `load_meshes` binds `colors` only for a '.mesh' path. So a call
  whose first entry is anything else raises `UnboundLocalError` before registering anything.
  Later entries of any kind reuse the data bound before them.
- **Removing the image.** `remove_actor('image')` deletes `'image'` from `mesh_polydata`, which
  holds it only when a mesh was added under that name. Otherwise, after the image actor and its
  menu action are gone, it raises `KeyError`.

## Model

| member | source | states |
|---|---|---|
| Pose.Diagonal | vision6D/containers/mesh_container.py:87-88 | the reflection matrices are diagonal: zero off the diagonal, the given entries on it |
| Pose.ReflectXProduct | vision6D/containers/mesh_container.py:87 | left-multiplying by diag(-1,1,1,1) equals MirrorX: row 0 negated, rows 1-3 kept entry by entry |
| Pose.ReflectYProduct | vision6D/containers/mesh_container.py:88 | left-multiplying by diag(1,-1,1,1) equals MirrorY: row 1 negated, the other rows kept entry by entry |
| Pose.MirrorXInvolution | vision6D/containers/mesh_container.py:83-87 | reflecting twice across x gives the matrix back |
| Pose.MirrorYInvolution | vision6D/containers/mesh_container.py:88 | reflecting twice across y gives the matrix back |
| Pose.MirrorsCommute | vision6D/containers/mesh_container.py:87-88 | the x and y reflections commute |
| Pose.MirrorKeepsAffineBottomRow | vision6D/containers/mesh_container.py:190-191 | a reflection keeps the bottom row [0,0,0,1], in both directions of the equivalence |
| Pose.MirrorPowParity | vision6D/vision6D_app.py:469-472 | applying the x reflection k times is the identity for even k and one reflection for odd k |
| Pose.ComposePose | vision6D/app.py:159-161 | the assembled pose has bottom row [0,0,0,1] |
| Pose.ComposeRoundTrip | vision6D/app.py:159-161 | rot and trans come back from the assembled pose; a matrix is rebuilt from its blocks iff its bottom row is [0,0,0,1] |
| Registry.HasSubstringIff | vision6D/vision6D_app.py:471 | Python's `p in s` holds iff p occurs at some index of s |
| Registry.RunningPoseClosedForm | vision6D/vision6D_app.py:464-473 | the running matrix after a sequence of names is Rx^k · T, k the number of "_mirror" names |
| Registry.AccumulateAll | vision6D/vision6D_app.py:468-473 | the loop keeps the set of actors |
| Registry.AccumulateAllOutside | vision6D/vision6D_app.py:468-473 | an actor the loop does not visit is unchanged |
| Registry.AccumulateAllAt | vision6D/vision6D_app.py:468-473 | the i-th actor ends with Rx^k · T for the "_mirror" names among the first i+1, its opacity kept |
| Registry.AccumulateMirrors | vision6D/vision6D_app.py:468-473 | the loop leaves the running matrix and the actors as the specification functions say |
| Registry.VisitActors | vision6D/vision6D_app.py:479-481 | a loop over the actors in registry order replaces each actor a named n by f(n, a), and nothing else |
| Registry.RecordAll | vision6D/app.py:258-263 | initial_poses gains exactly the visited names |
| Registry.RecordMatchesActors | vision6D/app.py:258-263 | each visited actor's recorded initial pose equals the pose it was given |
| Registry.PropagateRecovers | vision6D/vision6D_app.py:475-481 | after propagating M every actor, undoing its own mirror, holds M; opacities and the set of actors are kept |
| Registry.PropagateAgainStable | vision6D/app.py:228-234 | pressing 't' again from a plain reference changes nothing |
| Registry.PropagateAgainFlips | vision6D/app.py:228-234 | pressing 't' again from a "_mirror" reference propagates Rx · M instead |
| Registry.AppendNew | vision6D/vision6D_app.py:438 | assigning keys to a dict: members are old or new keys, old order is a prefix, no key twice |
| Registry.AppendNewStep | vision6D/app.py:297 | one more assignment puts a new key last and leaves a present one in place |
| Registry.Remove | vision6D/vision6D_app.py:187-188 | deleting a key removes exactly that key, keeps the rest without duplicates, and is the identity on an absent key |
| Registry.RemoveAppend | vision6D/app.py:176-178 | filtering a list grown by one name appends that name unless it is the one filtered out |
| Registry.Count | vision6D/vision6D_app.py:184-185 | the number of menu actions with a name is zero iff there is none |
| Registry.FirstMissing | vision6D/app.py:242-244 | the first listed name without an actor: all before it have one, it has none |
| Camera.Intrinsics | vision6D/vision6D_app.py:370-377 | K has f on the diagonal, the principal point at (w/2, h/2), and zeros elsewhere |
| Camera.WindowCenter | vision6D/vision6D_app.py:379-385 | each coordinate is non-finite (numpy's nan or inf, None here) iff its side of the window is 0, independently of the other; a finite coordinate is 0 iff the principal point is centred on that axis |
| Camera.IntrinsicsWindowCenter | vision6D/app.py:137-153 | with K as built, each coordinate of the window centre is exactly 0 whenever its side of the window is not 0 |
| MainWindowApp.Kept | vision6D/vision6D_app.py:454 | the oldest entry is dropped only above 20 entries; the rest is a suffix |
| MainWindowApp.ClickHistory | vision6D/vision6D_app.py:453-455 | a history of at most 21 stays at most 21; with a reference its pose is the new last entry on top of the kept entries, without one nothing is appended |
| MainWindowApp.UndoStep | vision6D/vision6D_app.py:483-487 | undo shrinks the history by 2 iff the top equals the reference's pose and another entry remains, by 1 otherwise; it restores the entry just above what remains |
| MainWindowApp.ClickThenUndo | vision6D/vision6D_app.py:453-490 | undo right after a click goes back to the newest entry the click kept, with the history left at the entries below it (at most 20 entries: the newest entry before the click); on an empty kept history it stays at the clicked pose |
| MainWindowApp.RegisteredAfterAdd | vision6D/vision6D_app.py:427-442 | adding a mesh keeps the registries in agreement |
| MainWindowApp.RegisteredAfterRemove | vision6D/vision6D_app.py:186-189 | deleting a mesh from both registries keeps them in agreement |
| MainWindowApp.RegisteredAfterMenuRemove | vision6D/vision6D_app.py:186 | removing a menu action keeps the registries in agreement |
| MainWindowApp.RemoveOutcome | vision6D/vision6D_app.py:177-190 | remove_actor ends normally iff the name is a mesh actor with exactly one menu action; AssertionError and KeyError conditions, both ways |
| MainWindowApp.App.constructor | vision6D/vision6D_app.py:310-337 | empty registries and history, identity pose, no reference, opacities 0.99 and 0.8, window centre (0, 0) |
| MainWindowApp.App.SetReference | vision6D/vision6D_app.py:339-341 | a name missing from meshdict is rejected before the reference changes |
| MainWindowApp.App.SetImageOpacity | vision6D/vision6D_app.py:350-355 | an opacity outside [0,1] is rejected before any state changes; otherwise the image actor takes it |
| MainWindowApp.App.ForEachActor | vision6D/vision6D_app.py:359-363 | every actor is replaced by f of itself, no actor added or lost |
| MainWindowApp.App.SetMeshOpacity | vision6D/vision6D_app.py:357-363 | an opacity outside [0,1] is rejected before any state changes; otherwise every actor takes it and keeps its pose |
| MainWindowApp.App.ResetGtPose | vision6D/vision6D_app.py:457-462 | every actor takes the initial pose; a warning and no change while there is none |
| MainWindowApp.App.SetTransformationMatrix | vision6D/vision6D_app.py:343-348 | without a matrix, a missing rot or trans raises ValueError and nothing changes; otherwise the given or assembled matrix becomes the current and initial pose and every actor's pose |
| MainWindowApp.App.AddPoseFile | vision6D/vision6D_app.py:173-175 | a cancelled dialog changes nothing; a loaded pose becomes the current and initial pose of every actor |
| MainWindowApp.App.AddMesh | vision6D/vision6D_app.py:411-442 | UnboundLocalError iff the path names neither '.mesh' nor '.ply'; otherwise the actor gets T, or Rx · T when mirror_objects, as pose and initial pose, plus a menu action |
| MainWindowApp.App.AddMeshFile | vision6D/vision6D_app.py:158-171 | cancelled dialogs change nothing; otherwise the path is recorded; on success the new actor, initial pose, name order and menu are those of add_mesh, and the reference is set only when there was none and the user agreed; on UnboundLocalError the actors, names, menu, mesh data and initial pose are unchanged |
| MainWindowApp.App.AddImage | vision6D/vision6D_app.py:392-409 | the image actor gets the image opacity and an "image" menu action |
| MainWindowApp.App.RemoveActor | vision6D/vision6D_app.py:177-190 | the reference is cleared only if it named the item; outcome as RemoveOutcome; other actors untouched; the history empties when no actors remain |
| MainWindowApp.App.TakeOut | vision6D/vision6D_app.py:182-190 | the menu check, menu removal and registry deletions of remove_actor, with its outcomes |
| MainWindowApp.App.ClearPlot | vision6D/vision6D_app.py:192-208 | no reference, identity transformation, no image, empty registries, menu and history |
| MainWindowApp.App.TrackClickCallback | vision6D/vision6D_app.py:453-455 | the history becomes ClickHistory of the reference's pose; KeyError for a reference without an actor |
| MainWindowApp.App.CurrentPose | vision6D/vision6D_app.py:475-481 | the reference's pose is propagated to every actor ("_mirror" ones reflected); nothing without a reference |
| MainWindowApp.App.UndoPose | vision6D/vision6D_app.py:483-490 | empty history: nothing; otherwise the history and actors follow UndoStep and propagation; KeyError after the pop when the reference has no actor |
| MainWindowApp.App.UpdateGtPose | vision6D/vision6D_app.py:464-473 | the initial pose becomes the reference's unreflected pose T; actors and transformation matrix follow the cumulative mirror rule |
| PlotterApp.NamesOf | vision6D/app.py:94 | the names of the paths dict, in order |
| PlotterApp.ImageOpacityStep | vision6D/app.py:195-205 | a step moves 0.2 or stops at the bound, and keeps an opacity in [0,1] |
| PlotterApp.SurfaceOpacityStep | vision6D/app.py:210-218 | the surface step keeps an opacity in [0,1] |
| PlotterApp.SurfaceStepAgrees | vision6D/app.py:195-218 | the strict and non-strict clamps give the same opacity |
| PlotterApp.OpacityStepsInverse | vision6D/app.py:195-205 | up undoes down away from 0 and down undoes up away from 1 |
| PlotterApp.Realigned | vision6D/app.py:236-244 | realignment keeps the set of actors |
| PlotterApp.Plotted | vision6D/app.py:275-297 | plotting adds exactly the registered names to the actors |
| PlotterApp.PlottedAt | vision6D/app.py:292-297 | every plotted mesh holds the new actor, every other actor is kept |
| PlotterApp.PlottedPoses | vision6D/app.py:293 | plotting adds exactly the registered names to initial_poses |
| PlotterApp.PlottedPosesAt | vision6D/app.py:293 | every plotted mesh records T, every other initial pose is kept |
| PlotterApp.AtInitialPoses | vision6D/app.py:248-254 | going back to the initial poses keeps the set of actors |
| PlotterApp.UpdateThenGtPositionStable | vision6D/app.py:248-263 | 'l' then 'k' leaves every actor unchanged |
| PlotterApp.PlotThenGtPosition | vision6D/app.py:292-293 | after plot, 'k' puts every plotted actor at the unreflected T even when objects are mirrored |
| PlotterApp.BindThenRealign | vision6D/app.py:172-180 | the bound key moves every other registered actor onto the main mesh's pose (reflected for "_mirror") and never moves the main mesh |
| PlotterApp.RegisterSources | vision6D/app.py:94-119 | the loop registers every name in order iff the first entry is a '.mesh' path, and nothing otherwise; it reports the last name processed |
| PlotterApp.UpdatePositions | vision6D/app.py:257-263 | the loop's running matrix, actors and initial poses are as the specification functions say |
| PlotterApp.PlotStep | vision6D/app.py:275-297 | one more mesh extends the key order, the actors and the initial poses by that mesh |
| PlotterApp.PlotAll | vision6D/app.py:275-297 | the loop registers every plotted name once, with its actor and initial pose |
| PlotterApp.App.constructor | vision6D/app.py:19-63 | empty registries, no transformation matrix or reference, opacities 1; each window-centre coordinate 0, or non-finite when its side of the window is 0 |
| PlotterApp.App.LoadImage | vision6D/app.py:77-88 | the image actor exists with the image opacity |
| PlotterApp.App.SetTransformationMatrix | vision6D/app.py:159-161 | without a matrix, a missing rot or trans raises ValueError and leaves the matrix unchanged; otherwise the given matrix, or rot and trans assembled |
| PlotterApp.App.SetReference | vision6D/app.py:163-164 | any name becomes the reference |
| PlotterApp.App.LoadMeshes | vision6D/app.py:90-121 | AssertionError without a transformation matrix; UnboundLocalError unless the first entry is '.mesh'; the reference becomes the last name only when exactly one mesh is registered |
| PlotterApp.App.BindMeshes | vision6D/app.py:172-180 | the key and every other registered name in order are bound to main, overwriting an earlier binding; main is never listed |
| PlotterApp.App.EventToggleImageOpacity | vision6D/app.py:195-208 | the opacity steps; AttributeError, with the opacity already changed, when no image was loaded |
| PlotterApp.App.EventToggleSurfaceOpacity | vision6D/app.py:210-226 | the opacity steps; every actor gets the reference's pose (reflected for "_mirror") and the new opacity; KeyError when the reference has no actor |
| PlotterApp.App.StepSurfaceOpacity | vision6D/app.py:211-218 | the surface opacity moves one clamped step |
| PlotterApp.App.EventTrackRegistration | vision6D/app.py:228-234 | the reference's pose is propagated; KeyError when the reference has no actor |
| PlotterApp.App.EventRealignMeshes | vision6D/app.py:236-246 | only the listed meshes move, up to the first one without an actor; ends normally iff main and every listed mesh have actors |
| PlotterApp.App.EventGtPosition | vision6D/app.py:248-254 | every actor returns to its initial pose |
| PlotterApp.App.EventUpdatePosition | vision6D/app.py:256-266 | actors, initial poses and transformation matrix follow the cumulative mirror rule from the reference's pose; KeyError without one |
| PlotterApp.App.Plot | vision6D/app.py:268-297 | AssertionError for an on-screen depth map, RuntimeError for meshes without reference, and success iff neither; then every mesh has an actor at T or Rx · T and initial pose T |
| PlotterApp.App.Draw | vision6D/app.py:275-297 | every registered mesh gets an actor at T (Rx · T when mirrored) and initial pose T; the key order grows by new names only |
| MeshContainers.MirroredInvolution | vision6D/containers/mesh_container.py:190-191 | with fixed flags the mirror step undoes itself and keeps the bottom row |
| MeshContainers.MirrorStep | vision6D/containers/mesh_container.py:83-89 | only the requested flag flips; the initial pose is captured only when absent; the actor shows Ry^my · Rx^mx · initial pose |
| MeshContainers.MirrorTwice | vision6D/containers/mesh_container.py:83-89 | mirroring twice in one direction restores the flags, and from unmirrored flags returns the actor to its initial pose |
| MeshContainers.EnteredPoseShownAsEntered | vision6D/containers/mesh_container.py:185-191 | after a pose is entered and stored reflected by the record's flags, mirroring twice in one direction draws the mesh exactly at the entered pose |
| MeshContainers.Clip01 | vision6D/containers/mesh_container.py:156 | a value inside [0,1] is kept, one below 0 becomes 0 and one above 1 becomes 1 |
| MeshContainers.SpinStep | vision6D/containers/mesh_container.py:152-156 | the spinbox moves by exactly +0.05 or -0.05 when that stays in [0,1], and otherwise stops at the bound it would cross |
| MeshContainers.SpinStepsInverse | vision6D/containers/mesh_container.py:148-157 | up undoes down and down undoes up away from the bounds |
| MeshContainers.HideAll | vision6D/containers/mesh_container.py:167-173 | hiding keeps the set of meshes |
| MeshContainers.UnhideAll | vision6D/containers/mesh_container.py:174-179 | showing keeps the set of meshes |
| MeshContainers.LastAffected | vision6D/containers/mesh_container.py:162-176 | the mesh whose value the spinbox shows last is affected, and there is none only when no mesh is |
| MeshContainers.HideThenUnhide | vision6D/containers/mesh_container.py:159-183 | hide then show, with the same buttons and checked mesh, gives every mesh its opacity back |
| MeshContainers.HideStep | vision6D/containers/mesh_container.py:162-179 | one more button changes only that button's mesh, when it is affected |
| MeshContainers.HideLoop | vision6D/containers/mesh_container.py:162-179 | the loop leaves the records and the spinbox as HideAll/UnhideAll and LastAffected say |
| MeshContainers.SetAllInitialPoses | vision6D/containers/mesh_container.py:197 | every mesh takes the pose as its initial pose and nothing else changes |
| MeshContainers.MeshContainer.constructor | vision6D/containers/mesh_container.py:35-69 | the hide flag starts off (line 51); the button list is the one passed in; the store's meshes, reference and anchor flag are whatever the store already holds |
| MeshContainers.MeshContainer.MirrorMesh | vision6D/containers/mesh_container.py:80-91 | the target, or the reference in anchor mode, takes MirrorStep; KeyError without a record; no other mesh changes |
| MeshContainers.MeshContainer.AnchorMesh | vision6D/containers/mesh_container.py:108-109 | anchor mode flips |
| MeshContainers.MeshContainer.AddMesh | vision6D/containers/mesh_container.py:93-106 | the mesh is drawn at the given pose; its name gets a button only if it had none |
| MeshContainers.MeshContainer.AddMeshFile | vision6D/containers/mesh_container.py:71-78 | no path: nothing; unsupported format: warning; otherwise the mesh is added at the identity |
| MeshContainers.MeshContainer.ToggleSurfaceOpacity | vision6D/containers/mesh_container.py:148-157 | the spinbox steps 0.05 and clips when a mesh is checked; nothing otherwise |
| MeshContainers.MeshContainer.HandleHideMeshesOpacity | vision6D/containers/mesh_container.py:159-179 | non-meshes are skipped, and so is the checked mesh unless it is the only one; the others are hidden or shown |
| MeshContainers.MeshContainer.ToggleHideMeshesButton | vision6D/containers/mesh_container.py:181-183 | the flag flips, the meshes are hidden or shown to match, and the spinbox shows 0 or the restored opacity of the last affected mesh, unchanged when none is |
| MeshContainers.MeshContainer.ResetGtPose | vision6D/containers/mesh_container.py:219-227 | the reference's initial pose is registered; warning without a reference; KeyError without its record |
| MeshContainers.MeshContainer.UpdateGtPose | vision6D/containers/mesh_container.py:230-238 | the reference's initial pose becomes its actor pose only when it had one; nothing changes without a reference |
| MeshContainers.MeshContainer.AddPose | vision6D/containers/mesh_container.py:194-199 | the pose goes to every mesh in anchor mode and only to the reference otherwise; other meshes unchanged; then it is registered |
| MeshContainers.MeshContainer.AddPoseFile | vision6D/containers/mesh_container.py:185-192 | the loaded pose, reflected by the reference's flags, is added as the initial pose |
| MeshContainers.MeshContainer.SetPose | vision6D/containers/mesh_container.py:201-217 | KeyError before the dialog without a reference record; cancel: nothing; not 4x4: warning; otherwise the reflected pose is added |
| MeshContainers.MeshContainer.EnterPose | vision6D/containers/mesh_container.py:190-192 | the entered pose, reflected by the reference's flags, goes through add_pose |

## Left out

- Rendering: pyvista actors and plotter calls, camera zoom and reset, off-screen images and depth maps. An actor is only its pose and opacity.
- The Qt GUI: dialogs, message boxes, menus, button widgets and the spinbox. A dialog's answer is a parameter. A warning box is `Warned`. A checked button is an optional name. The "Remove" menu is the sequence of its action texts. The meshes' buttons are `track_actors_names`, in order.
- File input: images, meshes, poses and the latitude/longitude JSON. What a file yields is a parameter, for example the loaded pose of `add_pose_file`.
- Floating point. Poses and opacities are exact reals, so the clamping steps of 0.2 and 0.05 carry no rounding.
- The view angle (`atan2`), `epnp`, `set_color`, `set_spacing` and the colour tables. None of these touch poses or visibility.
- The `MeshStore`, `check_button`, `toggle_register`, `reset_camera` and `opacity_value_change` callbacks of mesh_container.py are not part of this model. Their effect is modelled at the boundary:
  - `reset_gt_pose` and `update_gt_pose` return the pose they hand to `toggle_register`;
  - `add_mesh_file` receives the record the store made, or None for an unsupported format;
  - a spinbox change does not reach the meshes.
- The shared `track_actors_names` list is not shared. In the source it is the window's list, aliased by the container; here it is the container's own copy.
- `mesh_polydata` of vision6D_app.py: its mesh data is not modelled, only its keys.
- `load_meshes`, `plot` and `add_mesh`: mesh data and colours are not modelled, only which names get registered and whether a name is bound. So the two shape assertions of `set_mesh_info` (app.py:167-168), reached by every '.mesh' entry of `load_meshes`, are not modelled either.
- PlotterApp.App.EventGtPosition: leaves out the KeyError for an actor without an initial pose. That case cannot arise, because `plot` and `event_update_position` always set an actor and its initial pose together, and the class invariant says so.
- PlotterApp.App.Plot: does not model the returned image and depth map, nor the key-event registration of the on-screen window.
- MainWindowApp.App.AddMesh: does not model the trimesh shape assertion on '.mesh' files.
- Camera.WindowCenter: a coordinate over a zero window side is None. numpy divides its float by zero to nan or inf with a RuntimeWarning, and such non-finite values lie outside the exact reals of this model.
- MainWindowApp.App.SetTransformationMatrix and PlotterApp.App.SetTransformationMatrix: a missing rot or trans is modelled as numpy's ValueError for the 3x1 translation the callers pass. With a one-dimensional translation and no rot, numpy would instead build a 2x4 object array without raising; that case is not modelled.
- MeshContainers.MeshContainer.constructor: `MeshStore()` is not part of this model and may hand back a store already in use, so its meshes, reference and anchor flag are parameters. The model assumes every stored mesh already has a button in the shared list.
