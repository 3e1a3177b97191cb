/** Values shared by the applications' registries: optional values, how an
    event handler ends, the record the renderer keeps per mesh actor, the
    "_mirror" naming rule and helpers for ordered name registries (a Python
    dict's keys in insertion order). */
module Registry {
  import opened Pose

  datatype Option<T> = None | Some(value: T)

  /** The Python exception an event handler raises. */
  datatype Error = KeyError | AssertionError | AttributeError | RuntimeError | UnboundLocalError | ValueError

  /** How an event handler call ends: normally, after showing a warning dialog
      (the warning boxes of the GUI, including the ones shown when a handler's
      exception is caught by a decorator), or by raising an exception out of
      the handler. State changed before the raise stays changed. */
  datatype Outcome = Ok | Warned | Raised(error: Error)

  /** What the renderer stores of a mesh actor: its pose and its opacity. */
  datatype Actor = Actor(userMatrix: Matrix4, opacity: real)

  predicate NoDup<T(==)>(s: seq<T>) {
    forall i, j :: 0 <= i < j < |s| ==> s[i] != s[j]
  }

  /** Python's `p in s` for strings: p occurs somewhere in s. */
  function HasSubstring(s: string, p: string): bool
    decreases |s|
  {
    if |s| < |p| then false
    else s[..|p|] == p || HasSubstring(s[1..], p)
  }

  /** p occurs in s starting at index i. */
  predicate OccursAt(s: string, p: string, i: int) {
    0 <= i && i + |p| <= |s| && s[i..i + |p|] == p
  }

  /** An occurrence at i >= 1 is an occurrence at i - 1 in the tail. */
  lemma OccursShift(s: string, p: string, i: int)
    requires 1 <= i && 1 <= |s|
    ensures OccursAt(s, p, i) <==> OccursAt(s[1..], p, i - 1)
  {
    if i + |p| <= |s| {
      assert s[1..][i - 1..i - 1 + |p|] == s[i..i + |p|];
    }
  }

  /** HasSubstring agrees with the direct definition of containment. */
  lemma {:induction false} HasSubstringIff(s: string, p: string)
    ensures HasSubstring(s, p) <==> exists i :: OccursAt(s, p, i)
    decreases |s|
  {
    if |s| >= |p| {
      assert OccursAt(s, p, 0) <==> s[..|p|] == p;
      if |s| >= 1 {
        HasSubstringIff(s[1..], p);
        forall i | 1 <= i ensures OccursAt(s, p, i) <==> OccursAt(s[1..], p, i - 1) {
          OccursShift(s, p, i);
        }
        if HasSubstring(s[1..], p) {
          var i :| OccursAt(s[1..], p, i);
          assert OccursAt(s, p, i + 1);
        }
      }
    }
  }

  /** The applications treat an actor as a mirrored copy when its name
      contains "_mirror". */
  predicate IsMirrorName(name: string) {
    HasSubstring(name, "_mirror")
  }

  /** The matrix an actor named `name` gets when the pose m is copied onto
      it: Rx · m for a "_mirror" actor, m otherwise. */
  function MirrorFor(name: string, m: Matrix4): Matrix4 {
    if IsMirrorName(name) then MirrorX(m) else m
  }

  /** The number of "_mirror" names in s. */
  function CountMirrors(s: seq<string>): nat {
    if s == [] then 0
    else CountMirrors(s[..|s| - 1]) + (if IsMirrorName(s[|s| - 1]) then 1 else 0)
  }

  /** The running matrix of update_gt_pose and event_update_position after
      visiting `names` in order, starting from t: it is reflected across x
      once more at every "_mirror" name and kept at every other name. */
  function RunningPose(names: seq<string>, t: Matrix4): Matrix4 {
    if names == [] then t
    else MirrorFor(names[|names| - 1], RunningPose(names[..|names| - 1], t))
  }

  /** The running matrix is Rx^k · t with k the number of "_mirror" names
      visited, hence t or Rx · t by the parity of k. */
  lemma {:induction false} RunningPoseClosedForm(names: seq<string>, t: Matrix4)
    ensures RunningPose(names, t) == MirrorPow(CountMirrors(names), t)
    ensures RunningPose(names, t) == if CountMirrors(names) % 2 == 0 then t else MirrorX(t)
  {
    if names != [] {
      RunningPoseClosedForm(names[..|names| - 1], t);
    }
    MirrorPowParity(CountMirrors(names), t);
  }

  /** One more step of the running matrix. */
  lemma RunningPoseStep(names: seq<string>, i: nat, t: Matrix4)
    requires i < |names|
    ensures RunningPose(names[..i + 1], t) == MirrorFor(names[i], RunningPose(names[..i], t))
  {
    assert names[..i + 1][..i] == names[..i];
  }

  /** The actors after the loop of update_gt_pose / event_update_position
      has visited `names` in order: each visited actor holds the running
      matrix at its own step. */
  function AccumulateAll(names: seq<string>, actors: map<string, Actor>, t: Matrix4): (r: map<string, Actor>)
    requires forall n :: n in names ==> n in actors
    ensures r.Keys == actors.Keys
  {
    if names == [] then actors
    else
      var last := names[|names| - 1];
      var p := AccumulateAll(names[..|names| - 1], actors, t);
      p[last := p[last].(userMatrix := RunningPose(names, t))]
  }

  /** An actor that the loop does not visit keeps its record. */
  lemma {:induction false} AccumulateAllOutside(names: seq<string>, actors: map<string, Actor>, t: Matrix4,
                                                n: string)
    requires forall m :: m in names ==> m in actors
    requires n in actors && n !in names
    ensures AccumulateAll(names, actors, t)[n] == actors[n]
  {
    if names != [] {
      AccumulateAllOutside(names[..|names| - 1], actors, t, n);
    }
  }

  /** With distinct names, the i-th visited actor ends up holding the
      running matrix after i + 1 steps, Rx^k · t for the k "_mirror" names
      among the first i + 1, and keeps its opacity. */
  lemma {:induction false} AccumulateAllAt(names: seq<string>, actors: map<string, Actor>, t: Matrix4,
                                           i: nat)
    requires NoDup(names) && forall m :: m in names ==> m in actors
    requires i < |names|
    ensures AccumulateAll(names, actors, t)[names[i]]
         == actors[names[i]].(userMatrix := RunningPose(names[..i + 1], t))
  {
    var k := |names| - 1;
    var prefix := names[..k];
    if i == k {
      assert names[k] !in prefix;
      AccumulateAllOutside(prefix, actors, t, names[k]);
      assert names[..k + 1] == names;
    } else {
      assert NoDup(prefix) && prefix[i] == names[i] && names[i] != names[k];
      AccumulateAllAt(prefix, actors, t, i);
      assert prefix[..i + 1] == names[..i + 1];
    }
  }

  /** The loop of update_gt_pose / event_update_position over the actors `names` (in registry
      order) of `actors`, starting from the running matrix t: the running
      matrix is reflected at every "_mirror" name and each actor takes its
      current value. */
  method AccumulateMirrors(names: seq<string>, actors: map<string, Actor>, t: Matrix4)
    returns (running: Matrix4, r: map<string, Actor>)
    requires forall n :: n in names ==> n in actors
    ensures running == RunningPose(names, t)
    ensures r == AccumulateAll(names, actors, t)
  {
    running, r := t, actors;
    var i := 0;
    while i < |names|
      invariant 0 <= i <= |names|
      invariant running == RunningPose(names[..i], t)
      invariant r == AccumulateAll(names[..i], actors, t)
    {
      var n := names[i];
      RunningPoseStep(names, i, t);
      assert names[..i + 1][..i] == names[..i];
      running := MirrorFor(n, running);
      r := r[n := r[n].(userMatrix := running)];
      i := i + 1;
    }
    assert names[..i] == names;
  }

  /** Replaces every actor a named n by f(n, a), visiting the actors in
      the order `names` lists them (the `for actor_name, actor in
      mesh_actors.items()` loops). */
  method VisitActors(names: seq<string>, actors: map<string, Actor>, f: (string, Actor) -> Actor)
    returns (r: map<string, Actor>)
    requires NoDup(names) && forall n :: n in names <==> n in actors
    ensures r == map n | n in actors :: f(n, actors[n])
  {
    r := actors;
    var i := 0;
    while i < |names|
      invariant 0 <= i <= |names|
      invariant r.Keys == actors.Keys
      invariant forall k :: 0 <= k < i ==> r[names[k]] == f(names[k], actors[names[k]])
      invariant forall n :: n in r && n !in names[..i] ==> r[n] == actors[n]
    {
      var n := names[i];
      r := r[n := f(n, r[n])];
      i := i + 1;
    }
    assert names[..i] == names;
  }

  /** The initial_poses dict after the same loop: each visited name records
      the running matrix at its own step. */
  function RecordAll(names: seq<string>, poses: map<string, Matrix4>, t: Matrix4): (r: map<string, Matrix4>)
    ensures r.Keys == poses.Keys + set n | n in names
  {
    if names == [] then poses
    else RecordAll(names[..|names| - 1], poses, t)[names[|names| - 1] := RunningPose(names, t)]
  }

  /** The loop leaves every visited actor holding exactly the pose it
      recorded for that actor. */
  lemma {:induction false} RecordMatchesActors(names: seq<string>, actors: map<string, Actor>,
                                               poses: map<string, Matrix4>, t: Matrix4)
    requires forall n :: n in names ==> n in actors
    ensures forall n :: n in names ==>
      RecordAll(names, poses, t)[n] == AccumulateAll(names, actors, t)[n].userMatrix
  {
    if names != [] {
      var prefix := names[..|names| - 1];
      RecordMatchesActors(prefix, actors, poses, t);
      forall n | n in names
        ensures RecordAll(names, poses, t)[n] == AccumulateAll(names, actors, t)[n].userMatrix
      {
        if n != names[|names| - 1] {
          assert n in prefix;
        }
      }
    }
  }

  /** The actors after the pose m is copied onto all of them (the loops of
      current_pose, undo_pose, event_track_registration and
      event_toggle_surface_opacity). */
  function Propagate(actors: map<string, Actor>, m: Matrix4): map<string, Actor> {
    map n | n in actors :: actors[n].(userMatrix := MirrorFor(n, m))
  }

  /** After a propagation every actor, undoing its own mirror, holds m again;
      and every opacity is kept. */
  lemma PropagateRecovers(actors: map<string, Actor>, m: Matrix4)
    ensures Propagate(actors, m).Keys == actors.Keys
    ensures forall n :: n in actors ==>
      MirrorFor(n, Propagate(actors, m)[n].userMatrix) == m
      && Propagate(actors, m)[n].opacity == actors[n].opacity
  {
    forall n | n in actors && IsMirrorName(n)
      ensures MirrorX(Propagate(actors, m)[n].userMatrix) == m
    {
      MirrorXInvolution(m);
    }
  }

  /** Propagating again from a reference that is not a "_mirror" actor
      changes nothing: the reference already holds m. */
  lemma PropagateAgainStable(actors: map<string, Actor>, m: Matrix4, reference: string)
    requires reference in actors && !IsMirrorName(reference)
    ensures var once := Propagate(actors, m);
      Propagate(once, once[reference].userMatrix) == once
  {
  }

  /** Propagating again from a "_mirror" reference flips every actor: the
      second pass copies Rx · m, so plain actors get Rx · m and "_mirror"
      actors get m. */
  lemma PropagateAgainFlips(actors: map<string, Actor>, m: Matrix4, reference: string)
    requires reference in actors && IsMirrorName(reference)
    ensures var once := Propagate(actors, m);
      Propagate(once, once[reference].userMatrix) == Propagate(actors, MirrorX(m))
  {
  }

  /** The actors after every pose is reset to m (reset_gt_pose). */
  function ResetAll(actors: map<string, Actor>, m: Matrix4): map<string, Actor> {
    map n | n in actors :: actors[n].(userMatrix := m)
  }

  /** The keys of a dict after assigning the keys t in order to a dict with
      keys s: a key already present keeps its place, a new one goes last. */
  function AppendNew(s: seq<string>, t: seq<string>): (r: seq<string>)
    ensures forall x :: x in r <==> x in s || x in t
    ensures |s| <= |r| && r[..|s|] == s
    ensures NoDup(s) ==> NoDup(r)
  {
    if t == [] then s
    else
      var p := AppendNew(s, t[..|t| - 1]);
      if t[|t| - 1] in p then p else p + [t[|t| - 1]]
  }

  /** Assigning one more key: it goes last unless already present. */
  lemma AppendNewStep(s: seq<string>, t: seq<string>, x: string)
    ensures AppendNew(s, t + [x]) == if x in AppendNew(s, t) then AppendNew(s, t) else AppendNew(s, t) + [x]
  {
    assert (t + [x])[..|t|] == t;
  }

  /** s with every occurrence of x deleted (`del d[x]` on the key order). */
  function Remove(s: seq<string>, x: string): (r: seq<string>)
    ensures forall y :: y in r <==> y in s && y != x
    ensures NoDup(s) ==> NoDup(r)
    ensures x !in s ==> r == s
  {
    if s == [] then []
    else if s[0] == x then Remove(s[1..], x)
    else
      var rest := Remove(s[1..], x);
      assert NoDup(s) ==> s[0] !in s[1..] && NoDup(s[1..]);
      assert forall i :: 1 <= i < |[s[0]] + rest| ==> ([s[0]] + rest)[i] == rest[i - 1];
      [s[0]] + rest
  }

  /** Deleting x from a list that grew by one name: the name survives
      unless it is x. */
  lemma {:induction false} RemoveAppend(s: seq<string>, y: string, x: string)
    ensures Remove(s + [y], x) == Remove(s, x) + (if y == x then [] else [y])
  {
    if s != [] {
      assert (s + [y])[1..] == s[1..] + [y];
      RemoveAppend(s[1..], y, x);
    } else {
      assert [y][1..] == [];
    }
  }

  /** The number of occurrences of x in s. */
  function Count(s: seq<string>, x: string): (n: nat)
    ensures n == 0 <==> x !in s
  {
    if s == [] then 0 else (if s[0] == x then 1 else 0) + Count(s[1..], x)
  }

  /** The index of the first name in `names` that is not in `keys`, or
      |names| when every name is: the point where a loop that looks each
      name up stops with a KeyError. */
  function FirstMissing(names: seq<string>, keys: set<string>): (k: nat)
    ensures k <= |names|
    ensures forall i :: 0 <= i < k ==> names[i] in keys
    ensures k < |names| ==> names[k] !in keys
  {
    if names == [] then 0
    else if names[0] !in keys then 0
    else 1 + FirstMissing(names[1..], keys)
  }
}
