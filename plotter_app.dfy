/** The off-screen / scripted application (vision6D/app.py, class App): a
    registry of mesh sources loaded by name, the actors created from them by
    `plot`, their initial ("GT") poses, key bindings that realign groups of
    meshes, and the keyboard event handlers that move poses and opacities. */
module PlotterApp {
  import opened Pose
  import opened Registry
  import Camera

  /** What `load_meshes` is given per name: a path (a str), a polygon mesh
      object, or anything else (for instance a path object that is not a
      Windows path). */
  datatype MeshSource = MeshPath(path: string) | PolyData | OtherSource

  /** A '.mesh' path: it binds both the mesh data and the colours. */
  predicate IsDotMesh(src: MeshSource) {
    src.MeshPath? && HasSubstring(src.path, ".mesh")
  }

  /** A source that binds the mesh data: a '.mesh' or '.ply' path, or a
      polygon mesh object. */
  predicate BindsMeshData(src: MeshSource) {
    IsDotMesh(src) || (src.MeshPath? && HasSubstring(src.path, ".ply")) || src.PolyData?
  }

  /** The names of a `paths` dict, in order. */
  function NamesOf(paths: seq<(string, MeshSource)>): (r: seq<string>)
    ensures |r| == |paths| && forall i :: 0 <= i < |paths| ==> r[i] == paths[i].0
  {
    seq(|paths|, i requires 0 <= i < |paths| => paths[i].0)
  }

  /** The key binding recorded by `bind_meshes`: the key and the meshes it
      realigns. */
  datatype Binding = Binding(key: string, meshes: seq<string>)

  /** The image opacity after one press of the up or down key of
      event_toggle_image_opacity: 0.2 up or down, stopped at 1 or 0. */
  function ImageOpacityStep(v: real, up: bool): (r: real)
    ensures 0.0 <= v <= 1.0 ==> 0.0 <= r <= 1.0
    ensures up ==> r <= 1.0 && (r == 1.0 || r == v + 0.2)
    ensures !up ==> r >= 0.0 && (r == 0.0 || r == v - 0.2)
  {
    if up then (if v + 0.2 >= 1.0 then 1.0 else v + 0.2)
    else (if v - 0.2 <= 0.0 then 0.0 else v - 0.2)
  }

  /** The surface opacity after one press of event_toggle_surface_opacity.
      The source clamps with strict comparisons here; SurfaceStepAgrees
      shows the result is the same as for the image. */
  function SurfaceOpacityStep(v: real, up: bool): (r: real)
    ensures 0.0 <= v <= 1.0 ==> 0.0 <= r <= 1.0
  {
    if up then (if v + 0.2 > 1.0 then 1.0 else v + 0.2)
    else (if v - 0.2 < 0.0 then 0.0 else v - 0.2)
  }

  /** The strict and non-strict clamps agree: at the boundary both give the
      bound itself. */
  lemma SurfaceStepAgrees(v: real, up: bool)
    ensures SurfaceOpacityStep(v, up) == ImageOpacityStep(v, up)
  {
  }

  /** A step up undoes a step down that did not hit 0, and a step down
      undoes a step up that did not hit 1. */
  lemma OpacityStepsInverse(v: real)
    ensures 0.2 <= v ==> ImageOpacityStep(ImageOpacityStep(v, false), true) == (if v <= 1.0 then v else 1.0)
    ensures v <= 0.8 ==> ImageOpacityStep(ImageOpacityStep(v, true), false) == (if v >= 0.0 then v else 0.0)
  {
  }

  /** The actors after the loop of event_realign_meshes has visited `moved`:
      each listed actor holds m, reflected for a "_mirror" name. */
  function Realigned(actors: map<string, Actor>, moved: seq<string>, m: Matrix4): (r: map<string, Actor>)
    ensures r.Keys == actors.Keys
  {
    map n | n in actors :: if n in moved then actors[n].(userMatrix := MirrorFor(n, m)) else actors[n]
  }

  /** The actors after `plot` has added the meshes `names` in order, each
      with pose m and opacity `opacity`. */
  function Plotted(actors: map<string, Actor>, names: seq<string>, m: Matrix4, opacity: real)
    : (r: map<string, Actor>)
    ensures forall n :: n in r <==> n in actors || n in names
  {
    if names == [] then actors
    else Plotted(actors, names[..|names| - 1], m, opacity)[names[|names| - 1] := Actor(m, opacity)]
  }

  /** Every plotted mesh holds the new actor; every other actor is kept. */
  lemma {:induction false} PlottedAt(actors: map<string, Actor>, names: seq<string>, m: Matrix4,
                                     opacity: real, n: string)
    requires n in actors || n in names
    ensures Plotted(actors, names, m, opacity)[n] == if n in names then Actor(m, opacity) else actors[n]
  {
    if names != [] && n != names[|names| - 1] {
      var prefix := names[..|names| - 1];
      assert n in names <==> n in prefix by {
        assert names == prefix + [names[|names| - 1]];
      }
      PlottedAt(actors, prefix, m, opacity, n);
    }
  }

  /** The initial poses after `plot`: every plotted name records t. */
  function PlottedPoses(poses: map<string, Matrix4>, names: seq<string>, t: Matrix4)
    : (r: map<string, Matrix4>)
    ensures forall n :: n in r <==> n in poses || n in names
  {
    if names == [] then poses
    else PlottedPoses(poses, names[..|names| - 1], t)[names[|names| - 1] := t]
  }

  /** Every plotted name records t; every other initial pose is kept. */
  lemma {:induction false} PlottedPosesAt(poses: map<string, Matrix4>, names: seq<string>, t: Matrix4,
                                          n: string)
    requires n in poses || n in names
    ensures PlottedPoses(poses, names, t)[n] == if n in names then t else poses[n]
  {
    if names != [] && n != names[|names| - 1] {
      var prefix := names[..|names| - 1];
      assert n in names <==> n in prefix by {
        assert names == prefix + [names[|names| - 1]];
      }
      PlottedPosesAt(poses, prefix, t, n);
    }
  }

  /** The actors after event_gt_position: each one holds its initial pose. */
  function AtInitialPoses(actors: map<string, Actor>, poses: map<string, Matrix4>): (r: map<string, Actor>)
    requires forall n :: n in actors ==> n in poses
    ensures r.Keys == actors.Keys
  {
    map n | n in actors :: actors[n].(userMatrix := poses[n])
  }

  /** event_update_position followed by event_gt_position changes no
      actor: every actor's initial pose was set to the very matrix the actor
      was given. */
  lemma {:induction false} UpdateThenGtPositionStable(names: seq<string>, actors: map<string, Actor>,
                                                      poses: map<string, Matrix4>, t: Matrix4)
    requires forall n :: n in names <==> n in actors
    ensures var moved := AccumulateAll(names, actors, t);
      var saved := RecordAll(names, poses, t);
      (forall n :: n in moved ==> n in saved) && AtInitialPoses(moved, saved) == moved
  {
    RecordMatchesActors(names, actors, poses, t);
  }

  /** After `plot`, event_gt_position puts every plotted actor back at the
      unreflected pose t, even when the actors were drawn reflected
      (mirror_objects), because the initial poses record t itself. */
  lemma PlotThenGtPosition(actors: map<string, Actor>, poses: map<string, Matrix4>, names: seq<string>,
                           t: Matrix4, mirrorObjects: bool, opacity: real)
    requires forall n :: n in actors ==> n in poses
    ensures var drawn := Plotted(actors, names, if mirrorObjects then MirrorX(t) else t, opacity);
      var saved := PlottedPoses(poses, names, t);
      (forall n :: n in drawn ==> n in saved)
      && forall n :: n in names ==> AtInitialPoses(drawn, saved)[n] == Actor(t, opacity)
  {
    var drawn := Plotted(actors, names, if mirrorObjects then MirrorX(t) else t, opacity);
    var saved := PlottedPoses(poses, names, t);
    forall n | n in names
      ensures AtInitialPoses(drawn, saved)[n] == Actor(t, opacity)
    {
      PlottedAt(actors, names, if mirrorObjects then MirrorX(t) else t, opacity, n);
      PlottedPosesAt(poses, names, t, n);
    }
  }

  /** bind_meshes followed by the bound key: the realignment moves every
      other registered actor onto the main mesh's pose (reflected for
      "_mirror" names) and never moves the main mesh itself. */
  lemma BindThenRealign(actors: map<string, Actor>, registered: seq<string>, main: string)
    requires main in actors
    ensures var r := Realigned(actors, Remove(registered, main), actors[main].userMatrix);
      && r[main] == actors[main]
      && forall n :: n in actors && n in registered && n != main ==>
           r[n] == actors[n].(userMatrix := MirrorFor(n, actors[main].userMatrix))
  {
  }

  /** The loop of load_meshes over `paths`, adding each name to the
      registry `registered`. Only a '.mesh' entry binds the colours, so the
      loop stops at the first entry (with nothing added) unless that entry
      is a '.mesh' path; once it is, later entries of any kind reuse the
      data bound before. `last` is the name processed last. */
  method RegisterSources(registered: seq<string>, paths: seq<(string, MeshSource)>)
    returns (bound: bool, r: seq<string>, last: Option<string>)
    requires NoDup(registered)
    ensures bound <==> paths == [] || IsDotMesh(paths[0].1)
    ensures !bound ==> r == registered
    ensures bound ==> r == AppendNew(registered, NamesOf(paths)) && NoDup(r)
    ensures bound ==> last == if paths == [] then None else Some(paths[|paths| - 1].0)
  {
    var meshBound, colorsBound := false, false;
    r, last := registered, None;
    var i := 0;
    while i < |paths|
      invariant 0 <= i <= |paths|
      invariant i > 0 ==> IsDotMesh(paths[0].1) && meshBound && colorsBound
      invariant i == 0 ==> !meshBound && !colorsBound
      invariant last == if i == 0 then None else Some(paths[i - 1].0)
      invariant r == AppendNew(registered, NamesOf(paths[..i]))
    {
      var (name, source) := paths[i];
      last := Some(name);
      if BindsMeshData(source) {
        meshBound := true;
      }
      if IsDotMesh(source) {
        colorsBound := true;
      }
      if !meshBound || !colorsBound {
        return false, registered, last;
      }
      assert NamesOf(paths[..i + 1])[..i] == NamesOf(paths[..i]);
      r := if name in r then r else r + [name];
      i := i + 1;
    }
    assert paths[..i] == paths;
    bound := true;
  }

  /** The loop of event_update_position over the actors `names`, in
      registry order, starting from the reference's pose t: the running
      matrix is reflected at every "_mirror" name, and each actor takes it
      and records it as its initial pose. */
  method UpdatePositions(names: seq<string>, actors: map<string, Actor>, poses: map<string, Matrix4>,
                         t: Matrix4)
    returns (running: Matrix4, r: map<string, Actor>, q: map<string, Matrix4>)
    requires forall n :: n in names ==> n in actors
    ensures running == RunningPose(names, t)
    ensures r == AccumulateAll(names, actors, t)
    ensures q == RecordAll(names, poses, t)
  {
    running, r, q := t, actors, poses;
    var i := 0;
    while i < |names|
      invariant 0 <= i <= |names|
      invariant running == RunningPose(names[..i], t)
      invariant r == AccumulateAll(names[..i], actors, t)
      invariant q == RecordAll(names[..i], poses, t)
    {
      var n := names[i];
      RunningPoseStep(names, i, t);
      assert names[..i + 1][..i] == names[..i];
      running := MirrorFor(n, running);
      r := r[n := r[n].(userMatrix := running)];
      q := q[n := running];
      i := i + 1;
    }
    assert names[..i] == names;
  }

  /** One more turn of the loop of `plot`. */
  lemma PlotStep(names: seq<string>, actors: map<string, Actor>, poses: map<string, Matrix4>,
                 plotted: seq<string>, i: nat, pose: Matrix4, t: Matrix4, opacity: real)
    requires i < |plotted|
    ensures var n, done := plotted[i], plotted[..i];
      && AppendNew(names, plotted[..i + 1])
         == (if n in AppendNew(names, done) then AppendNew(names, done) else AppendNew(names, done) + [n])
      && Plotted(actors, plotted[..i + 1], pose, opacity) == Plotted(actors, done, pose, opacity)[n := Actor(pose, opacity)]
      && PlottedPoses(poses, plotted[..i + 1], t) == PlottedPoses(poses, done, t)[n := t]
  {
    assert plotted[..i + 1] == plotted[..i] + [plotted[i]];
    assert plotted[..i + 1][..i] == plotted[..i];
    AppendNewStep(names, plotted[..i], plotted[i]);
  }

  /** The loop of `plot` over the registered meshes `plotted`: each gets an
      actor with pose `pose` and opacity `opacity`, stored under its name
      (a new name goes last in the registry order), and t as its initial
      pose. */
  method PlotAll(names: seq<string>, actors: map<string, Actor>, poses: map<string, Matrix4>,
                 plotted: seq<string>, pose: Matrix4, t: Matrix4, opacity: real)
    returns (names': seq<string>, actors': map<string, Actor>, poses': map<string, Matrix4>)
    requires NoDup(names) && forall n :: n in names <==> n in actors
    ensures NoDup(names') && forall n :: n in names' <==> n in actors'
    ensures names' == AppendNew(names, plotted)
    ensures actors' == Plotted(actors, plotted, pose, opacity)
    ensures poses' == PlottedPoses(poses, plotted, t)
  {
    names', actors', poses' := names, actors, poses;
    var i := 0;
    while i < |plotted|
      invariant 0 <= i <= |plotted|
      invariant names' == AppendNew(names, plotted[..i])
      invariant actors' == Plotted(actors, plotted[..i], pose, opacity)
      invariant poses' == PlottedPoses(poses, plotted[..i], t)
    {
      var n := plotted[i];
      PlotStep(names, actors, poses, plotted, i, pose, t, opacity);
      names' := if n in names' then names' else names' + [n];
      actors' := actors'[n := Actor(pose, opacity)];
      poses' := poses'[n := t];
      i := i + 1;
    }
    assert plotted[..i] == plotted;
  }

  class App {
    var offScreen: bool
    var mirrorObjects: bool
    /** None until set_transformation_matrix is called. */
    var transformationMatrix: Option<Matrix4>
    var reference: Option<string>
    /** The keys of mesh_actors in insertion order. */
    var actorNames: seq<string>
    var meshActors: map<string, Actor>
    /** Whether load_image has filled image_polydata. */
    var imageLoaded: bool
    /** The opacity of the image actor; None before load_image. */
    var imageActor: Option<real>
    /** The keys of mesh_polydata in insertion order. */
    var polydataNames: seq<string>
    var bindedMeshes: map<string, Binding>
    var initialPoses: map<string, Matrix4>
    var imageOpacity: real
    var surfaceOpacity: real
    var cameraIntrinsics: Matrix3
    var windowCenter: (Option<real>, Option<real>)

    /** The registries are duplicate-free and mesh_actors' order lists its
        keys; meshes are only registered once a transformation matrix
        exists; every actor has an initial pose (plot and
        event_update_position set both together). */
    ghost predicate Valid()
      reads this`actorNames, this`meshActors, this`polydataNames, this`transformationMatrix, this`initialPoses
    {
      && NoDup(actorNames)
      && (forall n :: n in actorNames <==> n in meshActors)
      && NoDup(polydataNames)
      && (polydataNames != [] ==> transformationMatrix.Some?)
      && (forall n :: n in meshActors ==> n in initialPoses)
    }

    /** App.__init__: empty registries, no transformation matrix and no
        reference, both opacities 1, and the camera intrinsics of the window
        size and focal length. */
    constructor (offScreen: bool, width: int, height: int, focalLength: real, mirrorObjects: bool)
      ensures Valid()
      ensures this.offScreen == offScreen && this.mirrorObjects == mirrorObjects
      ensures transformationMatrix == None && reference == None
      ensures actorNames == [] && meshActors == map[] && !imageLoaded && imageActor == None
      ensures polydataNames == [] && bindedMeshes == map[] && initialPoses == map[]
      ensures imageOpacity == 1.0 && surfaceOpacity == 1.0
      ensures cameraIntrinsics == Camera.Intrinsics(width, height, focalLength)
      ensures windowCenter == (if width != 0 then Some(0.0) else None, if height != 0 then Some(0.0) else None)
    {
      this.offScreen := offScreen;
      this.mirrorObjects := mirrorObjects;
      transformationMatrix := None;
      reference := None;
      actorNames := [];
      meshActors := map[];
      imageLoaded := false;
      imageActor := None;
      polydataNames := [];
      bindedMeshes := map[];
      initialPoses := map[];
      imageOpacity := 1.0;
      surfaceOpacity := 1.0;
      cameraIntrinsics := Camera.Intrinsics(width, height, focalLength);
      windowCenter := Camera.IntrinsicsWindowCenter(width, height, focalLength);
    }

    /** load_image: the image is registered and its actor gets the image
        opacity. */
    method LoadImage()
      modifies this`imageLoaded, this`imageActor
      ensures imageLoaded && imageActor == Some(imageOpacity)
    {
      imageLoaded := true;
      imageActor := Some(imageOpacity);
    }

    /** set_transformation_matrix: the given matrix, or rot and trans
        assembled into one. Without a matrix, a missing rot or trans makes
        numpy's stacking raise (ValueError) before anything is assigned. */
    method SetTransformationMatrix(matrix: Option<Matrix4>, rot: Option<Matrix3>, trans: Option<Vec3>)
      returns (o: Outcome)
      requires Valid()
      modifies this`transformationMatrix
      ensures Valid()
      ensures o == if matrix.None? && (rot.None? || trans.None?) then Raised(ValueError) else Ok
      ensures o != Ok ==> transformationMatrix == old(transformationMatrix)
      ensures o == Ok ==>
        transformationMatrix == Some(if matrix.Some? then matrix.value else ComposePose(rot.value, trans.value))
    {
      if matrix.None? && (rot.None? || trans.None?) {
        return Raised(ValueError);
      }
      transformationMatrix := Some(if matrix.Some? then matrix.value else ComposePose(rot.value, trans.value));
      o := Ok;
    }

    /** set_reference: any name is accepted. */
    method SetReference(name: string)
      modifies this`reference
      ensures reference == Some(name)
    {
      reference := Some(name);
    }

    /** load_meshes: without a transformation matrix the call is rejected.
        Otherwise the entries are registered in order. The colours are only
        bound by a '.mesh' entry, so a call whose first entry is anything
        else stops there with UnboundLocalError, and later entries reuse the
        colours of that first one. Afterwards, if exactly one mesh is
        registered, it becomes the reference: the name last processed, and
        UnboundLocalError when nothing was processed. */
    method LoadMeshes(paths: seq<(string, MeshSource)>) returns (o: Outcome)
      requires Valid()
      modifies this`polydataNames, this`reference
      ensures Valid()
      ensures old(transformationMatrix).None? ==>
        o == Raised(AssertionError) && polydataNames == old(polydataNames) && reference == old(reference)
      ensures old(transformationMatrix).Some? && paths != [] && !IsDotMesh(paths[0].1) ==>
        o == Raised(UnboundLocalError) && polydataNames == old(polydataNames) && reference == old(reference)
      ensures old(transformationMatrix).Some? && (paths == [] || IsDotMesh(paths[0].1)) ==>
        && polydataNames == AppendNew(old(polydataNames), NamesOf(paths))
        && (|polydataNames| == 1 && paths != [] ==> o == Ok && reference == Some(paths[|paths| - 1].0))
        && (|polydataNames| == 1 && paths == [] ==> o == Raised(UnboundLocalError) && reference == old(reference))
        && (|polydataNames| != 1 ==> o == Ok && reference == old(reference))
    {
      if transformationMatrix.None? {
        return Raised(AssertionError);
      }
      var bound, names, referenceName := RegisterSources(polydataNames, paths);
      if !bound {
        return Raised(UnboundLocalError);
      }
      polydataNames := names;
      if |polydataNames| == 1 {
        if referenceName.None? {
          return Raised(UnboundLocalError);
        }
        reference := referenceName;
      }
      o := Ok;
    }

    /** bind_meshes: the main mesh is bound to the key, with every other
        registered mesh, in registration order, as the meshes to realign. */
    method BindMeshes(main: string, key: string)
      modifies this`bindedMeshes
      ensures bindedMeshes == old(bindedMeshes)[main := Binding(key, Remove(polydataNames, main))]
      ensures forall n :: n in bindedMeshes[main].meshes <==> n in polydataNames && n != main
    {
      var names := polydataNames;
      var others: seq<string> := [];
      var i := 0;
      while i < |names|
        invariant 0 <= i <= |names|
        invariant others == Remove(names[..i], main)
        invariant bindedMeshes == old(bindedMeshes)
      {
        var n := names[i];
        RemoveAppend(names[..i], n, main);
        assert names[..i + 1] == names[..i] + [n];
        if n != main {
          others := others + [n];
        }
        i := i + 1;
      }
      assert names[..i] == names;
      bindedMeshes := bindedMeshes[main := Binding(key, others)];
    }

    /** event_toggle_image_opacity: the opacity moves one step; then the
        image actor takes it, which fails with an AttributeError (the
        opacity staying changed) when no image was ever loaded. */
    method EventToggleImageOpacity(up: bool) returns (o: Outcome)
      modifies this`imageOpacity, this`imageActor
      ensures imageOpacity == ImageOpacityStep(old(imageOpacity), up)
      ensures o == if old(imageActor).None? then Raised(AttributeError) else Ok
      ensures imageActor == if old(imageActor).None? then None else Some(imageOpacity)
    {
      if up {
        imageOpacity := imageOpacity + 0.2;
        if imageOpacity >= 1.0 {
          imageOpacity := 1.0;
        }
      } else {
        imageOpacity := imageOpacity - 0.2;
        if imageOpacity <= 0.0 {
          imageOpacity := 0.0;
        }
      }
      if imageActor.None? {
        return Raised(AttributeError);
      }
      imageActor := Some(imageOpacity);
      o := Ok;
    }

    /** event_toggle_surface_opacity: the opacity moves one step; then the
        reference's pose is copied onto every actor (reflected for
        "_mirror" actors) and every actor takes the new opacity. A
        reference without an actor raises KeyError after the opacity has
        changed. */
    method EventToggleSurfaceOpacity(up: bool) returns (o: Outcome)
      requires Valid()
      modifies this`surfaceOpacity, this`meshActors
      ensures Valid()
      ensures surfaceOpacity == SurfaceOpacityStep(old(surfaceOpacity), up)
      ensures reference.None? || reference.value !in old(meshActors) ==>
        o == Raised(KeyError) && meshActors == old(meshActors)
      ensures reference.Some? && reference.value in old(meshActors) ==>
        var m := old(meshActors)[reference.value].userMatrix;
        o == Ok && meshActors == map n | n in old(meshActors) :: Actor(MirrorFor(n, m), surfaceOpacity)
    {
      StepSurfaceOpacity(up);
      if reference.None? || reference.value !in meshActors {
        return Raised(KeyError);
      }
      var m := meshActors[reference.value].userMatrix;
      var s := surfaceOpacity;
      meshActors := VisitActors(actorNames, meshActors, (n: string, a: Actor) => Actor(MirrorFor(n, m), s));
      o := Ok;
    }

    /** The first lines of event_toggle_surface_opacity: 0.2 up or down,
        clamped to [0, 1]. */
    method StepSurfaceOpacity(up: bool)
      modifies this`surfaceOpacity
      ensures surfaceOpacity == SurfaceOpacityStep(old(surfaceOpacity), up)
    {
      if up {
        surfaceOpacity := surfaceOpacity + 0.2;
        if surfaceOpacity > 1.0 {
          surfaceOpacity := 1.0;
        }
      } else {
        surfaceOpacity := surfaceOpacity - 0.2;
        if surfaceOpacity < 0.0 {
          surfaceOpacity := 0.0;
        }
      }
    }

    /** event_track_registration: the reference's pose is copied onto every
        actor, reflected for "_mirror" actors; KeyError when the reference
        has no actor. */
    method EventTrackRegistration() returns (o: Outcome)
      requires Valid()
      modifies this`meshActors
      ensures Valid()
      ensures reference.None? || reference.value !in old(meshActors) ==>
        o == Raised(KeyError) && meshActors == old(meshActors)
      ensures reference.Some? && reference.value in old(meshActors) ==>
        o == Ok && meshActors == Propagate(old(meshActors), old(meshActors)[reference.value].userMatrix)
    {
      if reference.None? || reference.value !in meshActors {
        return Raised(KeyError);
      }
      var m := meshActors[reference.value].userMatrix;
      meshActors := VisitActors(actorNames, meshActors, (n: string, a: Actor) => a.(userMatrix := MirrorFor(n, m)));
      o := Ok;
    }

    /** event_realign_meshes: the main mesh's pose is copied onto the listed
        meshes in order (reflected for "_mirror" names). A main mesh without
        an actor raises KeyError before anything moves; a listed mesh
        without one raises KeyError with the meshes before it already
        moved. */
    method EventRealignMeshes(main: string, others: seq<string>) returns (o: Outcome)
      requires Valid()
      modifies this`meshActors
      ensures Valid()
      ensures main !in old(meshActors) ==> o == Raised(KeyError) && meshActors == old(meshActors)
      ensures main in old(meshActors) ==>
        var k := FirstMissing(others, old(meshActors).Keys);
        && o == (if k == |others| then Ok else Raised(KeyError))
        && meshActors == Realigned(old(meshActors), others[..k], old(meshActors)[main].userMatrix)
      ensures o == Ok <==> main in old(meshActors) && forall n :: n in others ==> n in old(meshActors)
    {
      if main !in meshActors {
        return Raised(KeyError);
      }
      var m := meshActors[main].userMatrix;
      ghost var original := meshActors;
      var i := 0;
      while i < |others|
        invariant 0 <= i <= |others|
        invariant forall j :: 0 <= j < i ==> others[j] in original
        invariant meshActors == Realigned(original, others[..i], m)
      {
        var n := others[i];
        if n !in meshActors {
          assert FirstMissing(others, original.Keys) == i;
          return Raised(KeyError);
        }
        assert others[..i + 1] == others[..i] + [n];
        meshActors := meshActors[n := meshActors[n].(userMatrix := MirrorFor(n, m))];
        i := i + 1;
      }
      assert others[..i] == others;
      assert FirstMissing(others, original.Keys) == i;
      o := Ok;
    }

    /** event_gt_position: every actor goes back to its initial pose. */
    method EventGtPosition()
      requires Valid()
      modifies this`meshActors
      ensures Valid()
      ensures meshActors == AtInitialPoses(old(meshActors), initialPoses)
    {
      var poses := initialPoses;
      meshActors := VisitActors(actorNames, meshActors, (n: string, a: Actor) =>
        if n in poses then a.(userMatrix := poses[n]) else a);
    }

    /** event_update_position: the reference's pose T starts a running
        matrix that is reflected once more at every "_mirror" actor, in
        registry order; each actor takes the running matrix and records it
        as its initial pose, and the last value becomes the transformation
        matrix. KeyError when the reference has no actor. */
    method EventUpdatePosition() returns (o: Outcome)
      requires Valid()
      modifies this`transformationMatrix, this`meshActors, this`initialPoses
      ensures Valid()
      ensures reference.None? || reference.value !in old(meshActors) ==>
        && o == Raised(KeyError)
        && transformationMatrix == old(transformationMatrix)
        && meshActors == old(meshActors) && initialPoses == old(initialPoses)
      ensures reference.Some? && reference.value in old(meshActors) ==>
        var t := old(meshActors)[reference.value].userMatrix;
        && o == Ok
        && transformationMatrix == Some(RunningPose(actorNames, t))
        && meshActors == AccumulateAll(actorNames, old(meshActors), t)
        && initialPoses == RecordAll(actorNames, old(initialPoses), t)
    {
      if reference.None? || reference.value !in meshActors {
        return Raised(KeyError);
      }
      var t := meshActors[reference.value].userMatrix;
      var running, actors, poses := UpdatePositions(actorNames, meshActors, initialPoses, t);
      transformationMatrix, meshActors, initialPoses := Some(running), actors, poses;
      o := Ok;
    }

    /** plot: asking for a depth map on screen fails the assertion; meshes
        without a reference raise RuntimeError. Otherwise every registered
        mesh gets an actor with the surface opacity and the transformation
        matrix as its pose (reflected across x when objects are mirrored),
        and the unreflected matrix as its initial pose. */
    method Plot(returnDepthMap: bool) returns (o: Outcome)
      requires Valid()
      modifies this`actorNames, this`meshActors, this`initialPoses
      ensures Valid()
      ensures returnDepthMap && !offScreen ==> o == Raised(AssertionError)
      ensures !(returnDepthMap && !offScreen) && reference.None? && polydataNames != [] ==>
        o == Raised(RuntimeError)
      ensures o != Ok || polydataNames == [] ==>
        actorNames == old(actorNames) && meshActors == old(meshActors) && initialPoses == old(initialPoses)
      ensures o == Ok <==> !(returnDepthMap && !offScreen) && (reference.Some? || polydataNames == [])
      ensures o == Ok ==> forall n :: n in polydataNames ==> n in meshActors
      ensures o == Ok && polydataNames != [] ==>
        var t := transformationMatrix.value;
        && actorNames == AppendNew(old(actorNames), polydataNames)
        && meshActors == Plotted(old(meshActors), polydataNames, if mirrorObjects then MirrorX(t) else t,
                                 surfaceOpacity)
        && initialPoses == PlottedPoses(old(initialPoses), polydataNames, t)
    {
      if returnDepthMap && !offScreen {
        return Raised(AssertionError);
      }
      if reference.None? && |polydataNames| >= 1 {
        return Raised(RuntimeError);
      }
      if polydataNames != [] {
        Draw();
      }
      o := Ok;
    }

    /** The loop of `plot` over the registered meshes, at pose T (Rx · T
        when objects are mirrored) with initial pose T. */
    method Draw()
      requires Valid() && polydataNames != []
      modifies this`actorNames, this`meshActors, this`initialPoses
      ensures Valid()
      ensures forall n :: n in polydataNames ==> n in meshActors
      ensures var t := transformationMatrix.value;
        && actorNames == AppendNew(old(actorNames), polydataNames)
        && meshActors == Plotted(old(meshActors), polydataNames, if mirrorObjects then MirrorX(t) else t,
                                 surfaceOpacity)
        && initialPoses == PlottedPoses(old(initialPoses), polydataNames, t)
    {
      var t := transformationMatrix.value;
      var pose := if mirrorObjects then MirrorX(t) else t;
      var names, actors, poses := PlotAll(actorNames, meshActors, initialPoses, polydataNames, pose, t,
                                          surfaceOpacity);
      actorNames, meshActors, initialPoses := names, actors, poses;
    }
  }
}
