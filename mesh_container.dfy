/** The mesh side of the Qt annotation app (vision6D/containers/
    mesh_container.py, class MeshContainer): per-mesh records with mirror
    flags and an initial ("GT") pose, the anchor toggle, pose entry, and
    hiding and showing meshes through their opacity. */
module MeshContainers {
  import opened Pose
  import opened Registry

  /** What the mesh store keeps per mesh: the actor's pose and opacity, the
      opacity to restore after hiding, the two mirror flags and the initial
      pose (None until one is captured or entered). */
  datatype MeshData = MeshData(userMatrix: Matrix4, opacity: real, previousOpacity: real,
                               mirrorX: bool, mirrorY: bool, initialPose: Option<Matrix4>)

  /** Python truthiness of the store's reference: set and not empty. */
  predicate Truthy(reference: Option<string>) {
    reference.Some? && reference.value != ""
  }

  /** Ry^my · Rx^mx · t: the x reflection first when mx is set, then the y
      reflection when my is set (the mirror step of mirror_mesh,
      add_pose_file and set_pose). */
  function Mirrored(t: Matrix4, mx: bool, my: bool): Matrix4 {
    var afterX := if mx then MirrorX(t) else t;
    if my then MirrorY(afterX) else afterX
  }

  /** With the flags fixed, the mirror step is its own inverse, and it keeps
      the bottom row [0, 0, 0, 1]. */
  lemma MirroredInvolution(t: Matrix4, mx: bool, my: bool)
    ensures Mirrored(Mirrored(t, mx, my), mx, my) == t
    ensures HasAffineBottomRow(Mirrored(t, mx, my)) <==> HasAffineBottomRow(t)
  {
    MirrorXInvolution(t);
    MirrorYInvolution(t);
    MirrorsCommute(t);
    MirrorYInvolution(MirrorX(t));
    MirrorXInvolution(MirrorY(t));
    MirrorKeepsAffineBottomRow(t);
    MirrorKeepsAffineBottomRow(MirrorX(t));
  }

  /** The record after mirror_mesh in `direction`: only that direction's
      flag flips; the initial pose is captured from the actor if there was
      none; and the actor is drawn at the initial pose with the reflections
      the flags now ask for. */
  function MirrorStep(d: MeshData, direction: string): (r: MeshData)
    ensures r.mirrorX == (if direction == "x" then !d.mirrorX else d.mirrorX)
    ensures r.mirrorY == (if direction == "y" then !d.mirrorY else d.mirrorY)
    ensures r.initialPose.Some?
    ensures d.initialPose.Some? ==> r.initialPose == d.initialPose
    ensures d.initialPose.None? ==> r.initialPose == Some(d.userMatrix)
    ensures r.userMatrix == Mirrored(r.initialPose.value, r.mirrorX, r.mirrorY)
    ensures r.opacity == d.opacity && r.previousOpacity == d.previousOpacity
  {
    var flipped :=
      if direction == "x" then d.(mirrorX := !d.mirrorX)
      else if direction == "y" then d.(mirrorY := !d.mirrorY)
      else d;
    var init := if d.initialPose.None? then d.userMatrix else d.initialPose.value;
    flipped.(initialPose := Some(init), userMatrix := Mirrored(init, flipped.mirrorX, flipped.mirrorY))
  }

  /** Mirroring twice in the same direction brings the flags back and draws
      the actor at the initial pose reflected as the original flags ask; so
      from unmirrored flags the actor ends exactly at its initial pose. */
  lemma MirrorTwice(d: MeshData, direction: string)
    ensures var init := if d.initialPose.Some? then d.initialPose.value else d.userMatrix;
      MirrorStep(MirrorStep(d, direction), direction)
        == d.(initialPose := Some(init), userMatrix := Mirrored(init, d.mirrorX, d.mirrorY))
    ensures !d.mirrorX && !d.mirrorY ==>
      MirrorStep(MirrorStep(d, direction), direction).userMatrix
        == (if d.initialPose.Some? then d.initialPose.value else d.userMatrix)
  {
  }

  /** A pose entered for a mirrored reference (add_pose_file, set_pose) is
      stored as its initial pose reflected by the reference's flags. When
      mirror_mesh later redraws the mesh from that initial pose, mirroring
      twice in one direction shows the pose exactly as it was entered. */
  lemma EnteredPoseShownAsEntered(d: MeshData, entered: Matrix4, direction: string)
    ensures var stored := d.(initialPose := Some(Mirrored(entered, d.mirrorX, d.mirrorY)));
      MirrorStep(MirrorStep(stored, direction), direction).userMatrix == entered
  {
    var stored := d.(initialPose := Some(Mirrored(entered, d.mirrorX, d.mirrorY)));
    MirrorTwice(stored, direction);
    MirroredInvolution(entered, d.mirrorX, d.mirrorY);
  }

  /** np.clip(v, 0, 1). */
  function Clip01(v: real): (r: real)
    ensures 0.0 <= r <= 1.0
    ensures 0.0 <= v <= 1.0 ==> r == v
    ensures v < 0.0 ==> r == 0.0
    ensures v > 1.0 ==> r == 1.0
  {
    if v < 0.0 then 0.0 else if v > 1.0 then 1.0 else v
  }

  /** The spinbox value after toggle_surface_opacity: 0.05 up or down, then
      clipped to [0, 1]. */
  function SpinStep(v: real, up: bool): (r: real)
    ensures 0.0 <= r <= 1.0
    ensures var d := if up then 0.05 else -0.05;
      && (0.0 <= v + d <= 1.0 ==> r == v + d)
      && (v + d > 1.0 ==> r == 1.0)
      && (v + d < 0.0 ==> r == 0.0)
  {
    Clip01(v + (if up then 0.05 else -0.05))
  }

  /** Within [0.05, 1] a step down is undone by a step up, and within
      [0, 0.95] a step up is undone by a step down. */
  lemma SpinStepsInverse(v: real)
    ensures 0.05 <= v <= 1.0 ==> SpinStep(SpinStep(v, false), true) == v
    ensures 0.0 <= v <= 0.95 ==> SpinStep(SpinStep(v, true), false) == v
  {
  }

  /** Whether handle_hide_meshes_opacity touches mesh n: it must have a
      button in `names`, and the checked mesh is skipped unless it is the
      only mesh. */
  predicate Affected(n: string, names: seq<string>, only: bool, checked: Option<string>) {
    n in names && (only || checked != Some(n))
  }

  /** The records after hiding: each affected mesh remembers its opacity
      and turns transparent. */
  function HideAll(meshes: map<string, MeshData>, names: seq<string>, only: bool, checked: Option<string>)
    : (r: map<string, MeshData>)
    ensures r.Keys == meshes.Keys
  {
    map n | n in meshes :: if Affected(n, names, only, checked)
      then meshes[n].(previousOpacity := meshes[n].opacity, opacity := 0.0)
      else meshes[n]
  }

  /** The records after showing again: each affected mesh takes back its
      remembered opacity. */
  function UnhideAll(meshes: map<string, MeshData>, names: seq<string>, only: bool, checked: Option<string>)
    : (r: map<string, MeshData>)
    ensures r.Keys == meshes.Keys
  {
    map n | n in meshes :: if Affected(n, names, only, checked)
      then meshes[n].(opacity := meshes[n].previousOpacity)
      else meshes[n]
  }

  /** The last button in `names` whose mesh is affected: the one whose value
      the spinbox shows at the end. */
  function LastAffected(names: seq<string>, keys: set<string>, only: bool, checked: Option<string>)
    : (r: Option<string>)
    ensures r.Some? ==> r.value in keys && Affected(r.value, names, only, checked)
    ensures r.None? ==> forall n :: n in keys ==> !Affected(n, names, only, checked)
  {
    if names == [] then None
    else
      var last := names[|names| - 1];
      var prefix := names[..|names| - 1];
      assert names == prefix + [last];
      if last in keys && (only || checked != Some(last)) then Some(last)
      else LastAffected(prefix, keys, only, checked)
  }

  /** Hiding and then showing again, with the same buttons and the same
      checked mesh, gives every mesh its opacity back. */
  lemma HideThenUnhide(meshes: map<string, MeshData>, names: seq<string>, only: bool, checked: Option<string>)
    ensures var back := UnhideAll(HideAll(meshes, names, only, checked), names, only, checked);
      back.Keys == meshes.Keys && forall n :: n in meshes ==> back[n].opacity == meshes[n].opacity
  {
  }

  /** One more button of the hiding loop. */
  lemma HideStep(meshes: map<string, MeshData>, names: seq<string>, i: nat, only: bool,
                 checked: Option<string>, flag: bool)
    requires i < |names| && NoDup(names)
    ensures var n, done := names[i], names[..i];
      var r := if flag then HideAll(meshes, done, only, checked) else UnhideAll(meshes, done, only, checked);
      var r' := if flag then HideAll(meshes, names[..i + 1], only, checked)
                else UnhideAll(meshes, names[..i + 1], only, checked);
      && (n in meshes && (only || checked != Some(n)) ==>
            && r[n] == meshes[n]
            && r' == r[n := if flag then meshes[n].(previousOpacity := meshes[n].opacity, opacity := 0.0)
                            else meshes[n].(opacity := meshes[n].previousOpacity)])
      && (!(n in meshes && (only || checked != Some(n))) ==> r' == r)
      && LastAffected(names[..i + 1], meshes.Keys, only, checked)
         == if n in meshes && (only || checked != Some(n)) then Some(n)
            else LastAffected(done, meshes.Keys, only, checked)
  {
    assert names[..i + 1] == names[..i] + [names[i]];
    assert names[..i + 1][..i] == names[..i];
    assert names[i] !in names[..i];
  }

  /** The loop of handle_hide_meshes_opacity over the buttons `names`,
      with the spinbox value s. */
  method HideLoop(meshes: map<string, MeshData>, names: seq<string>, only: bool, checked: Option<string>,
                  flag: bool, s: real)
    returns (r: map<string, MeshData>, s': real)
    requires NoDup(names)
    ensures r == if flag then HideAll(meshes, names, only, checked) else UnhideAll(meshes, names, only, checked)
    ensures var last := LastAffected(names, meshes.Keys, only, checked);
      s' == if last.None? then s else if flag then 0.0 else meshes[last.value].previousOpacity
  {
    r, s' := meshes, s;
    var i := 0;
    while i < |names|
      invariant 0 <= i <= |names|
      invariant r == if flag then HideAll(meshes, names[..i], only, checked)
                     else UnhideAll(meshes, names[..i], only, checked)
      invariant var last := LastAffected(names[..i], meshes.Keys, only, checked);
        s' == if last.None? then s else if flag then 0.0 else meshes[last.value].previousOpacity
    {
      var n := names[i];
      HideStep(meshes, names, i, only, checked, flag);
      if n in r && (only || checked != Some(n)) {
        var d := r[n];
        if flag {
          s' := 0.0;
          r := r[n := d.(previousOpacity := d.opacity, opacity := 0.0)];
        } else {
          s' := d.previousOpacity;
          r := r[n := d.(opacity := d.previousOpacity)];
        }
      }
      i := i + 1;
    }
    assert names[..i] == names;
  }

  /** The loop of add_pose in anchor mode: every mesh takes the pose p as
      its initial pose (the order does not matter). */
  method SetAllInitialPoses(meshes: map<string, MeshData>, p: Option<Matrix4>)
    returns (r: map<string, MeshData>)
    ensures r.Keys == meshes.Keys
    ensures forall n :: n in r ==> r[n] == meshes[n].(initialPose := p)
  {
    r := meshes;
    var todo := meshes.Keys;
    while todo != {}
      invariant todo <= meshes.Keys && r.Keys == meshes.Keys
      invariant forall n :: n in r ==> r[n] == if n in todo then meshes[n] else meshes[n].(initialPose := p)
      decreases todo
    {
      var n :| n in todo;
      r := r[n := r[n].(initialPose := p)];
      todo := todo - {n};
    }
  }

  class MeshContainer {
    /** The mesh store's records, by name. */
    var meshes: map<string, MeshData>
    /** The mesh store's reference mesh. */
    var reference: Option<string>
    var toggleAnchorMesh: bool
    var toggleHideMeshesFlag: bool
    /** The names that have a button, in the order the buttons were added. */
    var trackActorsNames: seq<string>
    /** The value shown by the opacity spinbox. */
    var spinbox: real

    /** Each name has one button, and every mesh has one. */
    ghost predicate Valid()
      reads this`meshes, this`trackActorsNames
    {
      && NoDup(trackActorsNames)
      && forall n :: n in meshes ==> n in trackActorsNames
    }

    /** MeshContainer.__init__: the hide flag starts off. The mesh store it
        obtains is given by its meshes, reference and anchor flag, since the
        store may already be in use; every stored mesh must have a button in
        the list shared with the window. The spinbox shows `spinbox`. */
    constructor (trackActorsNames: seq<string>, spinbox: real, meshes: map<string, MeshData>,
                 reference: Option<string>, toggleAnchorMesh: bool)
      requires NoDup(trackActorsNames)
      requires forall n :: n in meshes ==> n in trackActorsNames
      ensures Valid()
      ensures !toggleHideMeshesFlag
      ensures this.meshes == meshes && this.reference == reference && this.toggleAnchorMesh == toggleAnchorMesh
      ensures this.trackActorsNames == trackActorsNames && this.spinbox == spinbox
    {
      this.meshes := meshes;
      this.reference := reference;
      this.toggleAnchorMesh := toggleAnchorMesh;
      toggleHideMeshesFlag := false;
      this.trackActorsNames := trackActorsNames;
      this.spinbox := spinbox;
    }

    /** mirror_mesh: in anchor mode the reference is mirrored instead of the
        named mesh; a target without a record raises KeyError. */
    method MirrorMesh(name: string, direction: string) returns (o: Outcome)
      requires Valid()
      modifies this`meshes
      ensures Valid()
      ensures var target := if toggleAnchorMesh then reference else Some(name);
        && (target.None? || target.value !in old(meshes) ==>
              o == Raised(KeyError) && meshes == old(meshes))
        && (target.Some? && target.value in old(meshes) ==>
              o == Ok && meshes == old(meshes)[target.value := MirrorStep(old(meshes)[target.value], direction)])
    {
      var target := if toggleAnchorMesh then reference else Some(name);
      if target.None? || target.value !in meshes {
        return Raised(KeyError);
      }
      var d := meshes[target.value];
      if direction == "x" {
        d := d.(mirrorX := !d.mirrorX);
      } else if direction == "y" {
        d := d.(mirrorY := !d.mirrorY);
      }
      if d.initialPose.None? {
        d := d.(initialPose := Some(d.userMatrix));
      }
      var t := d.initialPose.value;
      if d.mirrorX {
        t := MirrorX(t);
      }
      if d.mirrorY {
        t := MirrorY(t);
      }
      meshes := meshes[target.value := d.(userMatrix := t)];
      o := Ok;
    }

    /** anchor_mesh: anchor mode flips. */
    method AnchorMesh()
      modifies this`toggleAnchorMesh
      ensures toggleAnchorMesh == !old(toggleAnchorMesh)
    {
      toggleAnchorMesh := !toggleAnchorMesh;
    }

    /** add_mesh with the record the store made for `name`: the actor is
        drawn at `t`, and the name gets a button unless it has one. */
    method AddMesh(name: string, data: MeshData, t: Matrix4)
      requires Valid()
      modifies this`meshes, this`trackActorsNames
      ensures Valid()
      ensures meshes == old(meshes)[name := data.(userMatrix := t)]
      ensures trackActorsNames == AppendNew(old(trackActorsNames), [name])
      ensures name in old(trackActorsNames) ==> trackActorsNames == old(trackActorsNames)
    {
      meshes := meshes[name := data.(userMatrix := t)];
      if name !in trackActorsNames {
        trackActorsNames := trackActorsNames + [name];
      }
      assert [name][..0] == [];
    }

    /** add_mesh_file: an empty path does nothing; a format the store does
        not load (`loaded` is None) shows a warning; otherwise the mesh is
        added at the identity pose. */
    method AddMeshFile(meshPath: string, name: string, loaded: Option<MeshData>) returns (o: Outcome)
      requires Valid()
      modifies this`meshes, this`trackActorsNames
      ensures Valid()
      ensures meshPath == "" ==> o == Ok && meshes == old(meshes) && trackActorsNames == old(trackActorsNames)
      ensures meshPath != "" && loaded.None? ==>
        o == Warned && meshes == old(meshes) && trackActorsNames == old(trackActorsNames)
      ensures meshPath != "" && loaded.Some? ==>
        && o == Ok
        && meshes == old(meshes)[name := loaded.value.(userMatrix := Identity())]
        && trackActorsNames == AppendNew(old(trackActorsNames), [name])
    {
      if meshPath == "" {
        return Ok;
      }
      if loaded.None? {
        return Warned;
      }
      AddMesh(name, loaded.value, Identity());
      o := Ok;
    }

    /** toggle_surface_opacity: with a checked mesh, the spinbox moves
        0.05 and is clipped to [0, 1]; with no checked button, or one that
        is not a mesh, nothing changes. */
    method ToggleSurfaceOpacity(up: bool, checked: Option<string>)
      modifies this`spinbox
      ensures spinbox == if checked.Some? && checked.value in meshes then SpinStep(old(spinbox), up)
                         else old(spinbox)
    {
      if checked.Some? && checked.value in meshes {
        var change := 0.05;
        if !up {
          change := change * -1.0;
        }
        var current := spinbox + change;
        spinbox := Clip01(current);
      }
    }

    /** handle_hide_meshes_opacity: every mesh with a button, except the
        checked one when there are several meshes, is hidden (flag set) or
        shown again; the spinbox ends at the last such mesh's value. */
    method HandleHideMeshesOpacity(flag: bool, checked: Option<string>)
      requires Valid()
      modifies this`meshes, this`spinbox
      ensures Valid()
      ensures var only := |old(meshes)| == 1;
        && meshes == (if flag then HideAll(old(meshes), trackActorsNames, only, checked)
                      else UnhideAll(old(meshes), trackActorsNames, only, checked))
        && var last := LastAffected(trackActorsNames, old(meshes).Keys, only, checked);
           spinbox == if last.None? then old(spinbox) else if flag then 0.0
                      else old(meshes)[last.value].previousOpacity
    {
      meshes, spinbox := HideLoop(meshes, trackActorsNames, |meshes| == 1, checked, flag, spinbox);
    }

    /** toggle_hide_meshes_button: the hide flag flips and the meshes are
        hidden or shown accordingly. */
    method ToggleHideMeshesButton(checked: Option<string>)
      requires Valid()
      modifies this`toggleHideMeshesFlag, this`meshes, this`spinbox
      ensures Valid()
      ensures toggleHideMeshesFlag == !old(toggleHideMeshesFlag)
      ensures var only := |old(meshes)| == 1;
        && meshes == (if toggleHideMeshesFlag then HideAll(old(meshes), trackActorsNames, only, checked)
                      else UnhideAll(old(meshes), trackActorsNames, only, checked))
        && var last := LastAffected(trackActorsNames, old(meshes).Keys, only, checked);
           spinbox == if last.None? then old(spinbox) else if toggleHideMeshesFlag then 0.0
                      else old(meshes)[last.value].previousOpacity
    {
      toggleHideMeshesFlag := !toggleHideMeshesFlag;
      HandleHideMeshesOpacity(toggleHideMeshesFlag, checked);
    }

    /** reset_gt_pose: with a reference, its initial pose (if any) is what
        gets registered (handed to the window's toggle_register); without
        one a warning is shown. Nothing in the container changes. */
    method ResetGtPose() returns (o: Outcome, registered: Option<Matrix4>)
      ensures !Truthy(reference) ==> o == Warned && registered == None
      ensures Truthy(reference) && reference.value !in meshes ==> o == Raised(KeyError) && registered == None
      ensures Truthy(reference) && reference.value in meshes ==>
        o == Ok && registered == meshes[reference.value].initialPose
    {
      if !Truthy(reference) {
        return Warned, None;
      }
      if reference.value !in meshes {
        return Raised(KeyError), None;
      }
      var d := meshes[reference.value];
      if d.initialPose.Some? {
        return Ok, d.initialPose;
      }
      o, registered := Ok, None;
    }

    /** update_gt_pose: a reference that already has an initial pose takes
        its actor's pose as the new one, which is registered; a reference
        without an initial pose is left alone. */
    method UpdateGtPose() returns (o: Outcome, registered: Option<Matrix4>)
      requires Valid()
      modifies this`meshes
      ensures Valid()
      ensures !Truthy(reference) ==> o == Warned && registered == None && meshes == old(meshes)
      ensures Truthy(reference) && reference.value !in old(meshes) ==>
        o == Raised(KeyError) && registered == None && meshes == old(meshes)
      ensures Truthy(reference) && reference.value in old(meshes) && old(meshes)[reference.value].initialPose.None? ==>
        o == Ok && registered == None && meshes == old(meshes)
      ensures Truthy(reference) && reference.value in old(meshes) && old(meshes)[reference.value].initialPose.Some? ==>
        var d := old(meshes)[reference.value];
        o == Ok && registered == Some(d.userMatrix)
        && meshes == old(meshes)[reference.value := d.(initialPose := Some(d.userMatrix))]
    {
      if !Truthy(reference) {
        return Warned, None;
      }
      if reference.value !in meshes {
        return Raised(KeyError), None;
      }
      var d := meshes[reference.value];
      if d.initialPose.Some? {
        meshes := meshes[reference.value := d.(initialPose := Some(d.userMatrix))];
        return Ok, Some(d.userMatrix);
      }
      o, registered := Ok, None;
    }

    /** add_pose: the pose (given whole, or assembled from rot and trans
        when only those are given) becomes the initial pose of every mesh in
        anchor mode, and of the reference only otherwise (KeyError when the
        reference has no record); then the GT pose is reset. */
    method AddPose(matrix: Option<Matrix4>, rot: Option<Matrix3>, trans: Option<Vec3>)
      returns (o: Outcome, registered: Option<Matrix4>)
      requires Valid()
      modifies this`meshes
      ensures Valid()
      ensures var p := if matrix.None? && rot.Some? && trans.Some? then Some(ComposePose(rot.value, trans.value))
                       else matrix;
        && (toggleAnchorMesh ==>
              && meshes.Keys == old(meshes).Keys
              && forall n :: n in meshes ==> meshes[n] == old(meshes)[n].(initialPose := p))
        && (!toggleAnchorMesh && (reference.None? || reference.value !in old(meshes)) ==>
              o == Raised(KeyError) && registered == None && meshes == old(meshes))
        && (!toggleAnchorMesh && reference.Some? && reference.value in old(meshes) ==>
              meshes == old(meshes)[reference.value := old(meshes)[reference.value].(initialPose := p)])
        && (toggleAnchorMesh || (reference.Some? && reference.value in old(meshes)) ==>
              && (!Truthy(reference) ==> o == Warned && registered == None)
              && (Truthy(reference) && reference.value !in meshes ==> o == Raised(KeyError) && registered == None)
              && (Truthy(reference) && reference.value in meshes ==> o == Ok && registered == p))
    {
      var p := matrix;
      if matrix.None? && rot.Some? && trans.Some? {
        p := Some(ComposePose(rot.value, trans.value));
      }
      if toggleAnchorMesh {
        meshes := SetAllInitialPoses(meshes, p);
      } else {
        if reference.None? || reference.value !in meshes {
          return Raised(KeyError), None;
        }
        meshes := meshes[reference.value := meshes[reference.value].(initialPose := p)];
      }
      o, registered := ResetGtPose();
    }

    /** add_pose_file: an empty path does nothing; otherwise the loaded pose
        is reflected as the reference's mirror flags ask and added as its
        initial pose (KeyError when the reference has no record). */
    method AddPoseFile(posePath: string, loaded: Matrix4) returns (o: Outcome, registered: Option<Matrix4>)
      requires Valid()
      modifies this`meshes
      ensures Valid()
      ensures posePath == "" ==> o == Ok && registered == None && meshes == old(meshes)
      ensures posePath != "" && (reference.None? || reference.value !in old(meshes)) ==>
        o == Raised(KeyError) && registered == None && meshes == old(meshes)
      ensures posePath != "" && reference.Some? && reference.value in old(meshes) ==>
        var d := old(meshes)[reference.value];
        var p := Mirrored(loaded, d.mirrorX, d.mirrorY);
        && (toggleAnchorMesh ==> forall n :: n in meshes <==> n in old(meshes))
        && (toggleAnchorMesh ==> forall n :: n in meshes ==> meshes[n] == old(meshes)[n].(initialPose := Some(p)))
        && (!toggleAnchorMesh ==> meshes == old(meshes)[reference.value := d.(initialPose := Some(p))])
        && (Truthy(reference) ==> o == Ok && registered == Some(p))
        && (!Truthy(reference) ==> o == Warned && registered == None)
    {
      if posePath == "" {
        return Ok, None;
      }
      if reference.None? || reference.value !in meshes {
        return Raised(KeyError), None;
      }
      o, registered := EnterPose(loaded);
    }

    /** set_pose: the reference's record is looked up first (KeyError
        without one); a cancelled dialog does nothing; text that does not
        parse as a 4x4 matrix (`parsed` is None) shows a warning; otherwise
        the pose is entered as in add_pose_file. */
    method SetPose(accepted: bool, parsed: Option<Matrix4>) returns (o: Outcome, registered: Option<Matrix4>)
      requires Valid()
      modifies this`meshes
      ensures Valid()
      ensures reference.None? || reference.value !in old(meshes) ==>
        o == Raised(KeyError) && registered == None && meshes == old(meshes)
      ensures reference.Some? && reference.value in old(meshes) && (!accepted || parsed.None?) ==>
        o == (if accepted then Warned else Ok) && registered == None && meshes == old(meshes)
      ensures reference.Some? && reference.value in old(meshes) && accepted && parsed.Some? ==>
        var d := old(meshes)[reference.value];
        var p := Mirrored(parsed.value, d.mirrorX, d.mirrorY);
        && (toggleAnchorMesh ==> forall n :: n in meshes <==> n in old(meshes))
        && (toggleAnchorMesh ==> forall n :: n in meshes ==> meshes[n] == old(meshes)[n].(initialPose := Some(p)))
        && (!toggleAnchorMesh ==> meshes == old(meshes)[reference.value := d.(initialPose := Some(p))])
        && (Truthy(reference) ==> o == Ok && registered == Some(p))
        && (!Truthy(reference) ==> o == Warned && registered == None)
    {
      if reference.None? || reference.value !in meshes {
        return Raised(KeyError), None;
      }
      if !accepted {
        return Ok, None;
      }
      if parsed.None? {
        return Warned, None;
      }
      o, registered := EnterPose(parsed.value);
    }

    /** The shared tail of add_pose_file and set_pose: the pose is reflected
        as the reference's flags ask and handed to add_pose. */
    method EnterPose(entered: Matrix4) returns (o: Outcome, registered: Option<Matrix4>)
      requires Valid()
      requires reference.Some? && reference.value in meshes
      modifies this`meshes
      ensures Valid()
      ensures var d := old(meshes)[reference.value];
        var p := Mirrored(entered, d.mirrorX, d.mirrorY);
        && (toggleAnchorMesh ==> forall n :: n in meshes <==> n in old(meshes))
        && (toggleAnchorMesh ==> forall n :: n in meshes ==> meshes[n] == old(meshes)[n].(initialPose := Some(p)))
        && (!toggleAnchorMesh ==> meshes == old(meshes)[reference.value := d.(initialPose := Some(p))])
        && (Truthy(reference) ==> o == Ok && registered == Some(p))
        && (!Truthy(reference) ==> o == Warned && registered == None)
    {
      var d := meshes[reference.value];
      var t := entered;
      if d.mirrorX {
        t := MirrorX(t);
      }
      if d.mirrorY {
        t := MirrorY(t);
      }
      o, registered := AddPose(Some(t), None, None);
    }
  }
}
