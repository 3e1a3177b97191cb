/** The pose bookkeeping of the interactive main window
    (vision6D/vision6D_app.py, classes MyMainWindow and App): a registry of
    named mesh actors, a reference mesh, the current and initial ("GT")
    poses, the entries of the "Remove" menu and a bounded undo history. */
module MainWindowApp {
  import opened Pose
  import opened Registry
  import Camera

  /** The entries that survive the first line of track_click_callback: all
      of h, or all but the oldest when h holds more than 20. */
  function Kept(h: seq<Matrix4>): (r: seq<Matrix4>)
    ensures |r| == if |h| > 20 then |h| - 1 else |h|
    ensures r == h[|h| - |r|..]
  {
    if |h| > 20 then h[1..] else h
  }

  /** The undo history after a click: the surviving entries, then the
      reference's pose when there is a reference. */
  function ClickHistory(h: seq<Matrix4>, top: Option<Matrix4>): (r: seq<Matrix4>)
    ensures |h| <= 21 ==> |r| <= 21
    ensures top.Some? ==> |r| >= 1 && r[|r| - 1] == top.value && r[..|r| - 1] == Kept(h)
    ensures top.None? ==> r == Kept(h)
  {
    if top.Some? then Kept(h) + [top.value] else Kept(h)
  }

  /** What undo_pose takes from a non-empty history h while the reference
      holds `current`: the newest entry, or, when that entry equals
      `current` and another one remains, the entry below it. The result is
      the remaining history and the pose to restore; the pose restored is
      always the entry just above what remains. */
  function UndoStep(h: seq<Matrix4>, current: Matrix4): (r: (seq<Matrix4>, Matrix4))
    requires |h| > 0
    ensures |r.0| < |h| && r.0 == h[..|r.0|] && r.1 == h[|r.0|]
    ensures |r.0| == |h| - 2 <==> h[|h| - 1] == current && |h| >= 2
    ensures |r.0| == |h| - 1 <==> !(h[|h| - 1] == current && |h| >= 2)
  {
    var top := h[|h| - 1];
    var rest := h[..|h| - 1];
    if top == current && |rest| != 0 then (rest[..|rest| - 1], rest[|rest| - 1]) else (rest, top)
  }

  /** Undo right after a click goes back to the pose recorded before the
      click among the entries the click kept (or stays put when none was
      kept): the click pushed the current pose, which undo skips. On a
      history of at most 20 entries nothing was dropped, so that pose is
      the newest entry of h itself. */
  lemma ClickThenUndo(h: seq<Matrix4>, m: Matrix4)
    ensures var k := Kept(h);
      UndoStep(ClickHistory(h, Some(m)), m) == if |k| == 0 then ([], m) else (k[..|k| - 1], k[|k| - 1])
    ensures |h| <= 20 ==>
      UndoStep(ClickHistory(h, Some(m)), m) == if |h| == 0 then ([], m) else (h[..|h| - 1], h[|h| - 1])
  {
    var k := Kept(h);
    var pushed := ClickHistory(h, Some(m));
    assert pushed == k + [m];
    assert pushed[..|pushed| - 1] == k;
    assert |h| <= 20 ==> k == h;
  }

  /** The registries agree: the ordered names list each mesh actor once,
      mesh_polydata has the same keys, and every "Remove" action names the
      image or a mesh actor. */
  ghost predicate Registered(names: seq<string>, keys: set<string>, polydata: set<string>,
                             menu: seq<string>)
  {
    && NoDup(names)
    && (forall n :: n in names <==> n in keys)
    && polydata == keys
    && (forall n :: n in menu ==> n == "image" || n in keys)
  }

  /** Adding a mesh (add_mesh) keeps the registries in agreement. */
  lemma RegisteredAfterAdd(names: seq<string>, keys: set<string>, polydata: set<string>, menu: seq<string>,
                           name: string)
    requires Registered(names, keys, polydata, menu)
    ensures Registered(AppendNew(names, [name]), keys + {name}, polydata + {name}, menu + [name])
  {
    assert [name][..0] == [];
  }

  /** Removing a mesh (remove_actor) keeps the registries in agreement. */
  lemma RegisteredAfterRemove(names: seq<string>, keys: set<string>, polydata: set<string>, menu: seq<string>,
                              name: string)
    requires Registered(names, keys, polydata, menu)
    ensures Registered(Remove(names, name), keys - {name}, polydata - {name}, Remove(menu, name))
  {
  }

  /** Taking a name's actions out of the "Remove" menu keeps the
      registries in agreement. */
  lemma RegisteredAfterMenuRemove(names: seq<string>, keys: set<string>, polydata: set<string>,
                                  menu: seq<string>, name: string)
    requires Registered(names, keys, polydata, menu)
    ensures Registered(names, keys, polydata, Remove(menu, name))
  {
  }

  /** remove_actor takes the menu action out when the actor lookup succeeds
      (the image, or a mesh actor) and the menu holds exactly one action of
      that name. */
  predicate MenuActionRemoved(name: string, actors: set<string>, menu: seq<string>) {
    (name == "image" || name in actors) && Count(menu, name) == 1
  }

  /** How remove_actor ends: KeyError for a name that is neither the image
      nor a mesh actor, AssertionError unless exactly one menu action has
      the name, KeyError again when the image is deleted from the
      registries while 'image' was never added as a mesh, and normally
      otherwise. */
  function RemoveOutcome(name: string, actors: set<string>, menu: seq<string>): (o: Outcome)
    ensures o == Ok <==> name in actors && Count(menu, name) == 1
    ensures o == Raised(AssertionError) <==> (name == "image" || name in actors) && Count(menu, name) != 1
    ensures o == Raised(KeyError) <==> name !in actors && !(name == "image" && Count(menu, name) != 1)
    ensures MenuActionRemoved(name, actors, menu) <==> o == Ok || (o == Raised(KeyError) && name == "image")
  {
    if name != "image" && name !in actors then Raised(KeyError)
    else if Count(menu, name) != 1 then Raised(AssertionError)
    else if name !in actors then Raised(KeyError)
    else Ok
  }

  class App {
    var meshdict: map<string, string>
    var mirrorObjects: bool
    var reference: Option<string>
    var transformationMatrix: Matrix4
    /** None until the first assignment: the Python attribute does not exist before. */
    var initialPose: Option<Matrix4>
    /** The opacity of the image actor, when an image is loaded. */
    var imageActor: Option<real>
    var meshPolydata: set<string>
    /** The keys of mesh_actors in insertion order. */
    var actorNames: seq<string>
    var meshActors: map<string, Actor>
    var undoPoses: seq<Matrix4>
    /** The texts of the actions of the "Remove" menu, in order. */
    var removeMenu: seq<string>
    var imageOpacity: real
    var surfaceOpacity: real
    var cameraIntrinsics: Matrix3
    var windowCenter: (Option<real>, Option<real>)

    ghost predicate Valid()
      reads this`actorNames, this`meshActors, this`meshPolydata, this`removeMenu, this`undoPoses,
        this`imageOpacity, this`surfaceOpacity
    {
      && Registered(actorNames, meshActors.Keys, meshPolydata, removeMenu)
      && |undoPoses| <= 21
      && 0.0 <= imageOpacity <= 1.0
      && 0.0 <= surfaceOpacity <= 1.0
    }

    /** App.__init__ with MyMainWindow's registries: a 1920x1080 window, a
        focal length of 50000, image opacity 0.99 and mesh opacity 0.8. */
    constructor ()
      ensures Valid()
      ensures meshdict == map[] && !mirrorObjects && reference == None
      ensures transformationMatrix == Identity() && initialPose == None
      ensures imageActor == None && meshPolydata == {} && actorNames == [] && meshActors == map[]
      ensures undoPoses == [] && removeMenu == []
      ensures imageOpacity == 0.99 && surfaceOpacity == 0.8
      ensures windowCenter == (Some(0.0), Some(0.0))
    {
      meshdict := map[];
      mirrorObjects := false;
      reference := None;
      transformationMatrix := Identity();
      initialPose := None;
      imageActor := None;
      meshPolydata := {};
      actorNames := [];
      meshActors := map[];
      undoPoses := [];
      removeMenu := [];
      imageOpacity := 0.99;
      surfaceOpacity := 0.8;
      cameraIntrinsics := Camera.Intrinsics(1920, 1080, 50000.0);
      windowCenter := Camera.IntrinsicsWindowCenter(1920, 1080, 50000.0);
    }

    /** set_reference: only a name registered in meshdict is accepted. */
    method SetReference(name: string) returns (o: Outcome)
      requires Valid()
      modifies this`reference
      ensures Valid()
      ensures o == if name in meshdict then Ok else Raised(AssertionError)
      ensures reference == if name in meshdict then Some(name) else old(reference)
    {
      if name !in meshdict {
        return Raised(AssertionError);
      }
      reference := Some(name);
      o := Ok;
    }

    /** set_image_opacity: a value outside [0, 1] is rejected before any
        state changes; otherwise the image actor, if any, takes it too. */
    method SetImageOpacity(v: real) returns (o: Outcome)
      requires Valid()
      modifies this`imageOpacity, this`imageActor
      ensures Valid()
      ensures o == if 0.0 <= v <= 1.0 then Ok else Raised(AssertionError)
      ensures o == Ok ==>
        imageOpacity == v && imageActor == (if old(imageActor).Some? then Some(v) else None)
      ensures o != Ok ==> imageOpacity == old(imageOpacity) && imageActor == old(imageActor)
    {
      if !(0.0 <= v <= 1.0) {
        return Raised(AssertionError);
      }
      imageOpacity := v;
      if imageActor.Some? {
        imageActor := Some(v);
      }
      o := Ok;
    }

    /** Replaces every actor a named n by f(n, a), visiting the actors in
        registry order (the `for actor_name, actor in
        self.mesh_actors.items()` loops). */
    method ForEachActor(f: (string, Actor) -> Actor)
      requires Valid()
      modifies this`meshActors
      ensures Valid()
      ensures meshActors == map n | n in old(meshActors) :: f(n, old(meshActors)[n])
    {
      meshActors := VisitActors(actorNames, meshActors, f);
    }

    /** set_mesh_opacity: a value outside [0, 1] is rejected before any state
        changes; otherwise every mesh actor takes it and keeps its pose. */
    method SetMeshOpacity(v: real) returns (o: Outcome)
      requires Valid()
      modifies this`surfaceOpacity, this`meshActors
      ensures Valid()
      ensures o == if 0.0 <= v <= 1.0 then Ok else Raised(AssertionError)
      ensures o == Ok ==>
        surfaceOpacity == v && meshActors == (map n | n in old(meshActors) :: old(meshActors)[n].(opacity := v))
      ensures o != Ok ==> surfaceOpacity == old(surfaceOpacity) && meshActors == old(meshActors)
    {
      if !(0.0 <= v <= 1.0) {
        return Raised(AssertionError);
      }
      surfaceOpacity := v;
      ForEachActor((n: string, a: Actor) => a.(opacity := v));
      o := Ok;
    }

    /** reset_gt_pose: every actor takes the initial pose. Before any
        initial pose exists the handler fails with an AttributeError, which
        its try_except decorator turns into a warning. */
    method ResetGtPose() returns (o: Outcome)
      requires Valid()
      modifies this`meshActors
      ensures Valid()
      ensures initialPose.None? ==> o == Warned && meshActors == old(meshActors)
      ensures initialPose.Some? ==> o == Ok && meshActors == ResetAll(old(meshActors), initialPose.value)
    {
      if initialPose.None? {
        return Warned;
      }
      var m := initialPose.value;
      ForEachActor((n: string, a: Actor) => a.(userMatrix := m));
      o := Ok;
    }

    /** set_transformation_matrix: the given matrix, or rot and trans
        assembled into one, becomes the current and the initial pose, and
        every actor is reset to it. */
    method SetTransformationMatrix(matrix: Option<Matrix4>, rot: Option<Matrix3>, trans: Option<Vec3>)
      returns (o: Outcome)
      requires Valid()
      modifies this`transformationMatrix, this`initialPose, this`meshActors
      ensures Valid()
      ensures o == if matrix.None? && (rot.None? || trans.None?) then Raised(ValueError) else Ok
      ensures o != Ok ==>
        transformationMatrix == old(transformationMatrix)
        && initialPose == old(initialPose) && meshActors == old(meshActors)
      ensures o == Ok ==>
        var t: Matrix4 := if matrix.Some? then matrix.value else ComposePose(rot.value, trans.value);
        transformationMatrix == t && initialPose == Some(t)
        && meshActors == ResetAll(old(meshActors), t)
    {
      if matrix.None? && (rot.None? || trans.None?) {
        return Raised(ValueError);
      }
      o := Ok;
      var t: Matrix4 := if matrix.Some? then matrix.value else ComposePose(rot.value, trans.value);
      transformationMatrix := t;
      initialPose := Some(t);
      var _ := ResetGtPose();
    }

    /** add_pose_file: an empty path (a cancelled dialog) changes nothing;
        otherwise the loaded matrix is set as the transformation matrix. */
    method AddPoseFile(posePath: string, loaded: Matrix4)
      requires Valid()
      modifies this`transformationMatrix, this`initialPose, this`meshActors
      ensures Valid()
      ensures posePath == "" ==> unchanged(this)
      ensures posePath != "" ==>
        transformationMatrix == loaded && initialPose == Some(loaded)
        && meshActors == ResetAll(old(meshActors), loaded)
    {
      if posePath != "" {
        var _ := SetTransformationMatrix(Some(loaded), None, None);
      }
    }

    /** add_mesh: a path naming neither a '.mesh' nor a '.ply' file leaves
        `mesh_data` unbound (UnboundLocalError). Otherwise the mesh is
        registered with the current pose, reflected across x when
        mirror_objects is set; that pose also becomes the initial pose, and
        the name gets a "Remove" menu action. */
    method AddMesh(name: string, path: string) returns (o: Outcome)
      requires Valid()
      modifies this`meshPolydata, this`meshActors, this`actorNames, this`initialPose, this`removeMenu
      ensures Valid()
      ensures o == if HasSubstring(path, ".mesh") || HasSubstring(path, ".ply") then Ok
                   else Raised(UnboundLocalError)
      ensures o != Ok ==> unchanged(this)
      ensures o == Ok ==>
        var m: Matrix4 := if mirrorObjects then MirrorX(transformationMatrix) else transformationMatrix;
        && meshActors == old(meshActors)[name := Actor(m, surfaceOpacity)]
        && initialPose == Some(m)
        && actorNames == AppendNew(old(actorNames), [name])
        && removeMenu == old(removeMenu) + [name]
    {
      if !(HasSubstring(path, ".mesh") || HasSubstring(path, ".ply")) {
        return Raised(UnboundLocalError);
      }
      var m: Matrix4 := if mirrorObjects then MirrorX(transformationMatrix) else transformationMatrix;
      RegisteredAfterAdd(actorNames, meshActors.Keys, meshPolydata, removeMenu, name);
      meshPolydata, meshActors := meshPolydata + {name}, meshActors[name := Actor(m, surfaceOpacity)];
      initialPose := Some(m);
      actorNames := AppendNew(actorNames, [name]);
      removeMenu := removeMenu + [name];
      o := Ok;
    }

    /** add_mesh_file: a cancelled file or name dialog changes nothing;
        otherwise the path is recorded in meshdict, the mesh is added, and
        when there is no reference yet the user's answer decides whether
        this mesh becomes it. */
    method AddMeshFile(path: string, name: string, accepted: bool, makeReference: bool) returns (o: Outcome)
      requires Valid()
      modifies this`meshdict, this`reference, this`meshPolydata, this`meshActors, this`actorNames,
        this`initialPose, this`removeMenu
      ensures Valid()
      ensures path == "" || !accepted ==> o == Ok && unchanged(this)
      ensures path != "" && accepted ==>
        && meshdict == old(meshdict)[name := path]
        && o == (if HasSubstring(path, ".mesh") || HasSubstring(path, ".ply") then Ok
                 else Raised(UnboundLocalError))
        && reference == (if o == Ok && old(reference).None? && makeReference then Some(name)
                         else old(reference))
        && (o == Ok ==>
              var m: Matrix4 := if mirrorObjects then MirrorX(transformationMatrix) else transformationMatrix;
              && meshActors == old(meshActors)[name := Actor(m, surfaceOpacity)]
              && initialPose == Some(m)
              && actorNames == AppendNew(old(actorNames), [name])
              && removeMenu == old(removeMenu) + [name])
        && (o != Ok ==>
              && meshActors == old(meshActors) && meshPolydata == old(meshPolydata)
              && actorNames == old(actorNames) && removeMenu == old(removeMenu)
              && initialPose == old(initialPose))
    {
      if path == "" || !accepted {
        return Ok;
      }
      meshdict := meshdict[name := path];
      o := AddMesh(name, path);
      if o == Ok && reference.None? && makeReference {
        reference := Some(name);
      }
    }

    /** add_image: the image actor is created with the image opacity and gets
        a "Remove" menu action named "image". */
    method AddImage()
      requires Valid()
      modifies this`imageActor, this`removeMenu
      ensures Valid()
      ensures imageActor == Some(imageOpacity) && removeMenu == old(removeMenu) + ["image"]
    {
      imageActor := Some(imageOpacity);
      removeMenu := removeMenu + ["image"];
    }

    /** remove_actor, step by step as the source does it: the reference is
        cleared if it names the item, the image actor is dropped for
        "image", the menu action is removed once the actor lookup and the
        one-action check pass, and then the name is deleted from both
        registries (RemoveOutcome says how the call ends). The undo history
        is emptied when no mesh actors remain. */
    method RemoveActor(name: string) returns (o: Outcome)
      requires Valid()
      modifies this`reference, this`imageActor, this`removeMenu, this`meshPolydata, this`meshActors,
        this`actorNames, this`undoPoses
      ensures Valid()
      ensures reference == if old(reference) == Some(name) then None else old(reference)
      ensures imageActor == if name == "image" then None else old(imageActor)
      ensures o == RemoveOutcome(name, old(meshActors).Keys, old(removeMenu))
      ensures removeMenu == if MenuActionRemoved(name, old(meshActors).Keys, old(removeMenu))
                            then Remove(old(removeMenu), name) else old(removeMenu)
      ensures o == Ok ==>
        && meshActors == old(meshActors) - {name}
        && actorNames == Remove(old(actorNames), name)
        && undoPoses == if meshActors == map[] then [] else old(undoPoses)
      ensures o != Ok ==>
        meshActors == old(meshActors) && actorNames == old(actorNames) && undoPoses == old(undoPoses)
    {
      if reference == Some(name) {
        reference := None;
      }
      if name == "image" {
        imageActor := None;
      }
      o := TakeOut(name);
    }

    /** The part of remove_actor after the actor lookup: the menu check, the
        removal of the menu action and the deletions from the registries. */
    method TakeOut(name: string) returns (o: Outcome)
      requires Valid()
      modifies this`removeMenu, this`meshPolydata, this`meshActors, this`actorNames, this`undoPoses
      ensures Valid()
      ensures o == RemoveOutcome(name, old(meshActors).Keys, old(removeMenu))
      ensures removeMenu == if MenuActionRemoved(name, old(meshActors).Keys, old(removeMenu))
                            then Remove(old(removeMenu), name) else old(removeMenu)
      ensures o == Ok ==>
        && meshActors == old(meshActors) - {name}
        && actorNames == Remove(old(actorNames), name)
        && undoPoses == if meshActors == map[] then [] else old(undoPoses)
      ensures o != Ok ==>
        meshActors == old(meshActors) && actorNames == old(actorNames) && undoPoses == old(undoPoses)
    {
      if name != "image" && name !in meshActors {
        return Raised(KeyError);
      }
      if Count(removeMenu, name) != 1 {
        return Raised(AssertionError);
      }
      if name !in meshPolydata {
        RegisteredAfterMenuRemove(actorNames, meshActors.Keys, meshPolydata, removeMenu, name);
        removeMenu := Remove(removeMenu, name);
        return Raised(KeyError);
      }
      RegisteredAfterRemove(actorNames, meshActors.Keys, meshPolydata, removeMenu, name);
      var actors := meshActors - {name};
      removeMenu, meshPolydata, meshActors, actorNames := Remove(removeMenu, name), meshPolydata - {name}, actors, Remove(actorNames, name);
      if actors == map[] {
        undoPoses := [];
      }
      o := Ok;
    }

    /** clear_plot: every "Remove" action is taken out (each names the image
        or a registered mesh, so the actor lookups succeed), then the
        reference, the transformation matrix, the image actor, both mesh
        registries and the undo history are reset. meshdict and the initial
        pose are kept. */
    method ClearPlot()
      requires Valid()
      modifies this`removeMenu, this`reference, this`transformationMatrix, this`imageActor,
        this`meshPolydata, this`meshActors, this`actorNames, this`undoPoses
      ensures Valid()
      ensures removeMenu == [] && reference == None && transformationMatrix == Identity()
      ensures imageActor == None && meshPolydata == {} && meshActors == map[] && actorNames == []
      ensures undoPoses == []
    {
      var actions := removeMenu;
      var i := 0;
      while i < |actions|
        invariant 0 <= i <= |actions|
        invariant removeMenu == actions[i..]
        invariant forall n :: n in actions ==> n == "image" || n in meshActors
      {
        var name := actions[i];
        assert name == "image" || name in meshActors;
        removeMenu := removeMenu[1..];
        i := i + 1;
      }
      reference := None;
      transformationMatrix := Identity();
      imageActor := None;
      meshPolydata := {};
      meshActors := map[];
      actorNames := [];
      undoPoses := [];
    }

    /** track_click_callback: the oldest history entry is dropped when there
        are more than 20, then the reference's pose is appended. A reference
        without an actor raises KeyError after the drop. */
    method TrackClickCallback() returns (o: Outcome)
      requires Valid()
      modifies this`undoPoses
      ensures Valid()
      ensures o == if old(reference).Some? && old(reference).value !in meshActors
                   then Raised(KeyError) else Ok
      ensures undoPoses == ClickHistory(old(undoPoses),
        if reference.Some? && reference.value in meshActors
        then Some(meshActors[reference.value].userMatrix) else None)
    {
      if |undoPoses| > 20 {
        undoPoses := undoPoses[1..];
      }
      if reference.Some? {
        if reference.value !in meshActors {
          return Raised(KeyError);
        }
        undoPoses := undoPoses + [meshActors[reference.value].userMatrix];
      }
      o := Ok;
    }

    /** current_pose: with a reference, its pose is copied onto every actor
        (reflected for "_mirror" actors); without one nothing happens. */
    method CurrentPose() returns (o: Outcome)
      requires Valid()
      modifies this`meshActors
      ensures Valid()
      ensures reference.None? ==> o == Ok && meshActors == old(meshActors)
      ensures reference.Some? && reference.value !in old(meshActors) ==>
        o == Raised(KeyError) && meshActors == old(meshActors)
      ensures reference.Some? && reference.value in old(meshActors) ==>
        o == Ok && meshActors == Propagate(old(meshActors), old(meshActors)[reference.value].userMatrix)
    {
      if reference.None? {
        return Ok;
      }
      if reference.value !in meshActors {
        return Raised(KeyError);
      }
      var m := meshActors[reference.value].userMatrix;
      ForEachActor((n: string, a: Actor) => a.(userMatrix := MirrorFor(n, m)));
      o := Ok;
    }

    /** undo_pose: on an empty history nothing happens. Otherwise the newest
        entry is popped; a missing reference actor then raises KeyError.
        The popped pose is skipped in favour of the next one when it equals
        the reference's current pose, and the chosen pose is copied onto
        every actor. */
    method UndoPose() returns (o: Outcome)
      requires Valid()
      modifies this`undoPoses, this`meshActors
      ensures Valid()
      ensures old(undoPoses) == [] ==> o == Ok && undoPoses == [] && meshActors == old(meshActors)
      ensures old(undoPoses) != [] && (reference.None? || reference.value !in old(meshActors)) ==>
        o == Raised(KeyError) && meshActors == old(meshActors)
        && undoPoses == old(undoPoses)[..|old(undoPoses)| - 1]
      ensures old(undoPoses) != [] && reference.Some? && reference.value in old(meshActors) ==>
        var step := UndoStep(old(undoPoses), old(meshActors)[reference.value].userMatrix);
        o == Ok && undoPoses == step.0 && meshActors == Propagate(old(meshActors), step.1)
    {
      if |undoPoses| == 0 {
        return Ok;
      }
      var m := undoPoses[|undoPoses| - 1];
      undoPoses := undoPoses[..|undoPoses| - 1];
      if reference.None? || reference.value !in meshActors {
        return Raised(KeyError);
      }
      if m == meshActors[reference.value].userMatrix && |undoPoses| != 0 {
        m := undoPoses[|undoPoses| - 1];
        undoPoses := undoPoses[..|undoPoses| - 1];
      }
      ForEachActor((n: string, a: Actor) => a.(userMatrix := MirrorFor(n, m)));
      o := Ok;
    }

    /** update_gt_pose: with a reference, its pose T becomes the initial
        pose; then the actors are visited in registry order with a running
        matrix that is reflected once more at every "_mirror" actor
        (RunningPose), so the i-th actor gets Rx^k · T with k the number of
        "_mirror" names up to and including it, and the running matrix ends
        up as the transformation matrix. */
    method UpdateGtPose() returns (o: Outcome)
      requires Valid()
      modifies this`transformationMatrix, this`initialPose, this`meshActors
      ensures Valid()
      ensures reference.None? || reference.value !in old(meshActors) ==>
        && o == (if reference.None? then Ok else Raised(KeyError))
        && transformationMatrix == old(transformationMatrix)
        && initialPose == old(initialPose)
        && meshActors == old(meshActors)
      ensures reference.Some? && reference.value in old(meshActors) ==>
        var t := old(meshActors)[reference.value].userMatrix;
        && o == Ok
        && initialPose == Some(t)
        && transformationMatrix == RunningPose(actorNames, t)
        && meshActors == AccumulateAll(actorNames, old(meshActors), t)
    {
      if reference.None? {
        return Ok;
      }
      if reference.value !in meshActors {
        return Raised(KeyError);
      }
      var t := meshActors[reference.value].userMatrix;
      initialPose := Some(t);
      transformationMatrix, meshActors := AccumulateMirrors(actorNames, meshActors, t);
      o := Ok;
    }
  }
}
