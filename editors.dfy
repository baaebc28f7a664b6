/** The editor life-cycle passes of `ed_util.c`: `ED_editors_init`,
    `ED_editors_exit` and `ED_editors_flush_edits`. Each pass walks
    `bmain->object` in list order; the methods of `EditorContext` do so with a
    loop, and the functions before the class say, object by object, what the
    loop does, so that the lemmas can state what the passes achieve. */
module Editors {
  import opened Scene

  /** Every object's data index is in range (`ob->data` is a data block of the object's kind). */
  ghost predicate AllDataInRange(objs: seq<Object>, meshCount: nat, armatureCount: nat)
  {
    forall i :: 0 <= i < |objs| ==> DataInRange(objs[i], meshCount, armatureCount)
  }

  // ---------------------------------------------------------------------
  // ED_editors_init

  /** A mode saved in the file that cannot be restored as it is: not object
      mode, no mode data to go with it, and not a grease-pencil object (which
      needs none). */
  predicate StaleMode(o: Object)
  {
    o.mode != OB_MODE_OBJECT && !o.hasModeData && o.kind != GPencil
  }

  /** What the mode-reset pass does to one object. */
  function ResetMode(o: Object): Object
  {
    if StaleMode(o) then o.(mode := OB_MODE_OBJECT) else o
  }

  /** The objects after the mode-reset pass: the pass runs only when there is an active object. */
  function InitModes(objs: seq<Object>, active: Option<nat>): seq<Object>
  {
    if active.None? then objs
    else seq(|objs|, i requires 0 <= i < |objs| => ResetMode(objs[i]))
  }

  /** Whether the pass re-enters the saved mode of the object at position `i`:
      it is the active object, its mode was stale, and neither it nor its data
      is linked from a library. */
  predicate TogglesMode(o: Object, i: nat, active: Option<nat>)
  {
    active == Some(i) && StaleMode(o) && !o.linked && !o.dataLinked
  }

  /** The mode toggles the pass over `objs` makes, in order; `flag` is the
      reports flag in force while the pass runs. */
  function ToggleEvents(objs: seq<Object>, active: Option<nat>, flag: ReportFlags): seq<Event>
    decreases |objs|
  {
    if objs == [] then []
    else
      var n := |objs| - 1;
      ToggleEvents(objs[..n], active, flag)
        + (if TogglesMode(objs[n], n, active) then [ModeToggled(objs[n].mode, flag)] else [])
  }

  /** One more object of the pass adds its own toggle, if any. */
  lemma ToggleEventsStep(objs: seq<Object>, i: nat, active: Option<nat>, flag: ReportFlags)
    requires i < |objs|
    ensures ToggleEvents(objs[..i + 1], active, flag) == ToggleEvents(objs[..i], active, flag)
      + (if TogglesMode(objs[i], i, active) then [ModeToggled(objs[i].mode, flag)] else [])
  {
    assert objs[..i + 1][..i] == objs[..i];
  }

  /** The single toggle the pass is meant to make: the active object's saved
      mode, when the active object is eligible. */
  function ActiveToggle(objs: seq<Object>, active: Option<nat>, flag: ReportFlags): seq<Event>
  {
    if active.Some? && active.value < |objs| && TogglesMode(objs[active.value], active.value, active)
    then [ModeToggled(objs[active.value].mode, flag)]
    else []
  }

  /** The mode toggle fires at most once: only for the active object, with the
      mode it was saved in, and only when the active object is eligible. */
  lemma {:induction false} ToggleEventsAtMostOnce(objs: seq<Object>, active: Option<nat>, flag: ReportFlags)
    ensures ToggleEvents(objs, active, flag) == ActiveToggle(objs, active, flag)
  {
    if objs != [] {
      var n := |objs| - 1;
      ToggleEventsAtMostOnce(objs[..n], active, flag);
    }
  }

  /** An object keeps its mode through the pass exactly when there is no
      active object, or it is in object mode, or it has mode data, or it is a
      grease-pencil object; every other object ends in object mode. Nothing
      but the mode changes. */
  lemma InitModesOutcome(objs: seq<Object>, active: Option<nat>, i: nat)
    requires i < |objs|
    ensures |InitModes(objs, active)| == |objs|
    ensures var o := objs[i]; var r := InitModes(objs, active)[i];
      (r.mode == o.mode <==>
         active.None? || o.mode == OB_MODE_OBJECT || o.hasModeData || o.kind == GPencil) &&
      (r.mode != o.mode ==> r.mode == OB_MODE_OBJECT) &&
      r == o.(mode := r.mode)
  {
  }

  /** After the pass (with an active object) no object is left in a stale mode. */
  lemma InitModesLeavesNothingStale(objs: seq<Object>, active: Option<nat>)
    requires active.Some?
    ensures forall i :: 0 <= i < |objs| ==> !StaleMode(InitModes(objs, active)[i])
  {
  }

  /** Running the pass a second time changes nothing more. */
  lemma InitModesIdempotent(objs: seq<Object>, active: Option<nat>)
    ensures InitModes(InitModes(objs, active), active) == InitModes(objs, active)
  {
  }

  // ---------------------------------------------------------------------
  // ED_editors_exit

  datatype ExitOutcome = ExitOutcome(meshes: seq<MeshData>, events: seq<Event>)

  /** What the teardown loop does for one object: a mesh object's edit mesh
      is freed and cleared; an armature object's edit bones are handed to the
      host to free. */
  function ExitStep(o: Object, meshes: seq<MeshData>, armatures: seq<ArmatureData>): (r: ExitOutcome)
    requires DataInRange(o, |meshes|, |armatures|)
    ensures |r.meshes| == |meshes|
  {
    if o.kind == Mesh then
      if meshes[o.data].editMesh then ExitOutcome(meshes[o.data := MeshData(false)], [EditMeshFreed(o.data)])
      else ExitOutcome(meshes, [])
    else if o.kind == Armature && armatures[o.data].editBones then
      ExitOutcome(meshes, [ArmatureEditFreed(o.data)])
    else ExitOutcome(meshes, [])
  }

  /** The teardown loop over `objs`, in list order. */
  function ExitPass(objs: seq<Object>, meshes: seq<MeshData>, armatures: seq<ArmatureData>): (r: ExitOutcome)
    requires AllDataInRange(objs, |meshes|, |armatures|)
    ensures |r.meshes| == |meshes|
    decreases |objs|
  {
    if objs == [] then ExitOutcome(meshes, [])
    else
      var n := |objs| - 1;
      var prior := ExitPass(objs[..n], meshes, armatures);
      var step := ExitStep(objs[n], prior.meshes, armatures);
      ExitOutcome(step.meshes, prior.events + step.events)
  }

  /** One more object of the teardown loop adds its own step. */
  lemma ExitPassStep(objs: seq<Object>, i: nat, meshes: seq<MeshData>, armatures: seq<ArmatureData>)
    requires AllDataInRange(objs, |meshes|, |armatures|) && i < |objs|
    ensures AllDataInRange(objs[..i], |meshes|, |armatures|)
    ensures AllDataInRange(objs[..i + 1], |meshes|, |armatures|)
    ensures DataInRange(objs[i], |meshes|, |armatures|)
    ensures var prior := ExitPass(objs[..i], meshes, armatures);
      var step := ExitStep(objs[i], prior.meshes, armatures);
      ExitPass(objs[..i + 1], meshes, armatures) == ExitOutcome(step.meshes, prior.events + step.events)
  {
    assert objs[..i + 1][..i] == objs[..i];
  }

  /** Some mesh object of `objs` uses mesh `j`. */
  predicate MeshUsed(objs: seq<Object>, j: nat)
  {
    exists i :: 0 <= i < |objs| && objs[i].kind == Mesh && objs[i].data == j
  }

  /** Some armature object of `objs` uses armature `k`. */
  predicate ArmatureUsed(objs: seq<Object>, k: nat)
  {
    exists i :: 0 <= i < |objs| && objs[i].kind == Armature && objs[i].data == k
  }

  /** A mesh is used by `objs` when it is used by all objects but the last, or by the last. */
  lemma MeshUsedLast(objs: seq<Object>, j: nat)
    requires objs != []
    ensures var n := |objs| - 1;
      MeshUsed(objs, j) <==> MeshUsed(objs[..n], j) || (objs[n].kind == Mesh && objs[n].data == j)
  {
    var n := |objs| - 1;
    if MeshUsed(objs[..n], j) {
      var i :| 0 <= i < n && objs[..n][i].kind == Mesh && objs[..n][i].data == j;
      assert objs[i] == objs[..n][i];
    }
    if MeshUsed(objs, j) {
      var i :| 0 <= i < |objs| && objs[i].kind == Mesh && objs[i].data == j;
      if i < n { assert objs[..n][i] == objs[i]; }
    }
  }

  /** An armature is used by `objs` when it is used by all objects but the last, or by the last. */
  lemma ArmatureUsedLast(objs: seq<Object>, k: nat)
    requires objs != []
    ensures var n := |objs| - 1;
      ArmatureUsed(objs, k) <==> ArmatureUsed(objs[..n], k) || (objs[n].kind == Armature && objs[n].data == k)
  {
    var n := |objs| - 1;
    if ArmatureUsed(objs[..n], k) {
      var i :| 0 <= i < n && objs[..n][i].kind == Armature && objs[..n][i].data == k;
      assert objs[i] == objs[..n][i];
    }
    if ArmatureUsed(objs, k) {
      var i :| 0 <= i < |objs| && objs[i].kind == Armature && objs[i].data == k;
      if i < n { assert objs[..n][i] == objs[i]; }
    }
  }

  /** ExitPass over `objs` is ExitPass over all objects but the last, followed by the last one's step. */
  lemma ExitPassLast(objs: seq<Object>, meshes: seq<MeshData>, armatures: seq<ArmatureData>)
    requires AllDataInRange(objs, |meshes|, |armatures|) && objs != []
    ensures var n := |objs| - 1;
      AllDataInRange(objs[..n], |meshes|, |armatures|) &&
      var prior := ExitPass(objs[..n], meshes, armatures);
      var step := ExitStep(objs[n], prior.meshes, armatures);
      ExitPass(objs, meshes, armatures) == ExitOutcome(step.meshes, prior.events + step.events)
  {
    var n := |objs| - 1;
    ExitPassStep(objs, n, meshes, armatures);
    assert objs[..n + 1] == objs;
  }

  /** After teardown, every mesh used by a mesh object has no edit mesh, and
      every other mesh is as it was. */
  lemma {:induction false} ExitPassMeshes(objs: seq<Object>, meshes: seq<MeshData>, armatures: seq<ArmatureData>)
    requires AllDataInRange(objs, |meshes|, |armatures|)
    ensures forall j :: 0 <= j < |meshes| ==>
      ExitPass(objs, meshes, armatures).meshes[j] == if MeshUsed(objs, j) then MeshData(false) else meshes[j]
    decreases |objs|
  {
    if objs != [] {
      var n := |objs| - 1;
      ExitPassLast(objs, meshes, armatures);
      ExitPassMeshes(objs[..n], meshes, armatures);
      forall j | 0 <= j < |meshes|
        ensures ExitPass(objs, meshes, armatures).meshes[j] == if MeshUsed(objs, j) then MeshData(false) else meshes[j]
      {
        MeshUsedLast(objs, j);
      }
    }
  }

  /** Teardown makes no host call other than freeing edit meshes and edit bones. */
  lemma {:induction false} ExitPassEventKinds(objs: seq<Object>, meshes: seq<MeshData>, armatures: seq<ArmatureData>)
    requires AllDataInRange(objs, |meshes|, |armatures|)
    ensures forall e :: e in ExitPass(objs, meshes, armatures).events ==> e.EditMeshFreed? || e.ArmatureEditFreed?
    decreases |objs|
  {
    if objs != [] {
      var n := |objs| - 1;
      ExitPassLast(objs, meshes, armatures);
      ExitPassEventKinds(objs[..n], meshes, armatures);
    }
  }

  /** Teardown frees the edit mesh of exactly the used meshes that have one. */
  lemma {:induction false} ExitPassFreesEditMeshes(objs: seq<Object>, meshes: seq<MeshData>, armatures: seq<ArmatureData>)
    requires AllDataInRange(objs, |meshes|, |armatures|)
    ensures forall j: nat :: EditMeshFreed(j) in ExitPass(objs, meshes, armatures).events <==>
      j < |meshes| && MeshUsed(objs, j) && meshes[j].editMesh
    decreases |objs|
  {
    if objs != [] {
      var n := |objs| - 1;
      ExitPassLast(objs, meshes, armatures);
      ExitPassFreesEditMeshes(objs[..n], meshes, armatures);
      ExitPassMeshes(objs[..n], meshes, armatures);
      forall j: nat ensures EditMeshFreed(j) in ExitPass(objs, meshes, armatures).events <==>
        j < |meshes| && MeshUsed(objs, j) && meshes[j].editMesh
      {
        MeshUsedLast(objs, j);
      }
    }
  }

  /** A mesh shared by several objects has its edit mesh freed only once. */
  lemma {:induction false} ExitPassFreesOnce(objs: seq<Object>, meshes: seq<MeshData>, armatures: seq<ArmatureData>)
    requires AllDataInRange(objs, |meshes|, |armatures|)
    ensures forall j: nat :: multiset(ExitPass(objs, meshes, armatures).events)[EditMeshFreed(j)] <= 1
    decreases |objs|
  {
    if objs != [] {
      var n := |objs| - 1;
      var pre := objs[..n];
      ExitPassLast(objs, meshes, armatures);
      ExitPassFreesOnce(pre, meshes, armatures);
      ExitPassFreesEditMeshes(pre, meshes, armatures);
      ExitPassMeshes(pre, meshes, armatures);
      var prior := ExitPass(pre, meshes, armatures);
      var step := ExitStep(objs[n], prior.meshes, armatures);
      forall j: nat ensures multiset(ExitPass(objs, meshes, armatures).events)[EditMeshFreed(j)] <= 1 {
        assert multiset(prior.events + step.events) == multiset(prior.events) + multiset(step.events);
        if step.events == [EditMeshFreed(j)] {
          // the step frees mesh j only while it still has its edit mesh, so no earlier object used it
          assert prior.meshes[j].editMesh;
          assert EditMeshFreed(j) !in prior.events;
        }
      }
    }
  }

  /** Teardown hands the host exactly the used armatures that have edit bones. */
  lemma {:induction false} ExitPassFreesEditBones(objs: seq<Object>, meshes: seq<MeshData>, armatures: seq<ArmatureData>)
    requires AllDataInRange(objs, |meshes|, |armatures|)
    ensures forall k: nat :: ArmatureEditFreed(k) in ExitPass(objs, meshes, armatures).events <==>
      k < |armatures| && ArmatureUsed(objs, k) && armatures[k].editBones
    decreases |objs|
  {
    if objs != [] {
      var n := |objs| - 1;
      ExitPassLast(objs, meshes, armatures);
      ExitPassFreesEditBones(objs[..n], meshes, armatures);
      forall k: nat ensures ArmatureEditFreed(k) in ExitPass(objs, meshes, armatures).events <==>
        k < |armatures| && ArmatureUsed(objs, k) && armatures[k].editBones
      {
        ArmatureUsedLast(objs, k);
      }
    }
  }

  // ---------------------------------------------------------------------
  // ED_editors_flush_edits

  /** A sculpt object is flushed unless a stroke is in progress (flushing
      then would free data the stroke uses). */
  predicate SculptFlushes(o: Object)
  {
    InSculptMode(o) && !o.strokeActive
  }

  /** An edit-mode object is flushed only when it is not in sculpt mode too. */
  predicate EditFlushes(o: Object)
  {
    !InSculptMode(o) && InEditMode(o)
  }

  /** Whether the flush pass flushes an object. */
  predicate Flushes(o: Object)
  {
    SculptFlushes(o) || EditFlushes(o)
  }

  /** The conversion a sculpt flush of object `i` makes: for a render, or
      else with reordering off. */
  function SculptConversion(i: nat, forRender: bool): Event
  {
    if forRender then SculptFlushedForRender(i) else SculptFlushed(i, false)
  }

  /** The host calls the flush pass makes for the object at position `i`. */
  function FlushStep(o: Object, i: nat, forRender: bool): seq<Event>
  {
    if InSculptMode(o) then
      if !o.strokeActive then [MultiresFlushed(i), SculptConversion(i, forRender)]
      else []
    else if InEditMode(o) then [EditmodeLoaded(i)]
    else []
  }

  /** The host calls of the flush pass over `objs`, in list order. */
  function FlushEvents(objs: seq<Object>, forRender: bool): seq<Event>
    decreases |objs|
  {
    if objs == [] then []
    else
      var n := |objs| - 1;
      FlushEvents(objs[..n], forRender) + FlushStep(objs[n], n, forRender)
  }

  /** One more object of the flush pass adds its own calls. */
  lemma FlushEventsStep(objs: seq<Object>, i: nat, forRender: bool)
    requires i < |objs|
    ensures FlushEvents(objs[..i + 1], forRender) == FlushEvents(objs[..i], forRender) + FlushStep(objs[i], i, forRender)
  {
    assert objs[..i + 1][..i] == objs[..i];
  }

  /** Some object of `objs` is flushed exactly when one of all but the last
      is, or the last one is. */
  lemma SomeFlushesLast(objs: seq<Object>, pre: seq<Object>)
    requires objs != [] && pre == objs[..|objs| - 1]
    ensures (exists i :: 0 <= i < |objs| && Flushes(objs[i])) <==>
      (exists i :: 0 <= i < |pre| && Flushes(pre[i])) || Flushes(objs[|objs| - 1])
  {
    var n := |objs| - 1;
    if exists i :: 0 <= i < n && Flushes(pre[i]) {
      var i :| 0 <= i < n && Flushes(pre[i]);
      assert objs[i] == pre[i];
    }
    if exists i :: 0 <= i < |objs| && Flushes(objs[i]) {
      var i :| 0 <= i < |objs| && Flushes(objs[i]);
      if i < n { assert pre[i] == objs[i]; }
    }
  }

  /** The flush pass makes a host call exactly when it flushes some object. */
  lemma {:induction false} FlushEventsNonEmpty(objs: seq<Object>, forRender: bool)
    ensures FlushEvents(objs, forRender) != [] <==> exists i :: 0 <= i < |objs| && Flushes(objs[i])
    decreases |objs|
  {
    if objs != [] {
      var n := |objs| - 1;
      var pre := objs[..n];
      FlushEventsNonEmpty(pre, forRender);
      FlushStepShape(objs[n], n, forRender);
      SomeFlushesLast(objs, pre);
      assert FlushEvents(objs, forRender) == FlushEvents(pre, forRender) + FlushStep(objs[n], n, forRender);
    }
  }

  /** The calls one object's flush makes, by kind. */
  lemma FlushStepCalls(o: Object, i: nat, forRender: bool)
    ensures var ev := FlushStep(o, i, forRender);
      (forall j: nat :: MultiresFlushed(j) in ev <==> j == i && SculptFlushes(o)) &&
      (forall j: nat :: SculptFlushedForRender(j) in ev <==> forRender && j == i && SculptFlushes(o)) &&
      (forall j: nat, reorder: bool :: SculptFlushed(j, reorder) in ev <==>
         !forRender && !reorder && j == i && SculptFlushes(o)) &&
      (forall j: nat :: EditmodeLoaded(j) in ev <==> j == i && EditFlushes(o))
  {
  }

  /** A sculpt flush happens exactly for the sculpt objects without a stroke
      in progress: a multires update, then the render conversion when
      flushing for a render, or else the conversion with reordering off. */
  lemma {:induction false} FlushEventsSculpt(objs: seq<Object>, forRender: bool)
    ensures var ev := FlushEvents(objs, forRender);
      (forall i: nat :: MultiresFlushed(i) in ev <==> i < |objs| && SculptFlushes(objs[i])) &&
      (forall i: nat :: SculptFlushedForRender(i) in ev <==> forRender && i < |objs| && SculptFlushes(objs[i])) &&
      (forall i: nat, reorder: bool :: SculptFlushed(i, reorder) in ev <==>
         !forRender && !reorder && i < |objs| && SculptFlushes(objs[i]))
    decreases |objs|
  {
    if objs != [] {
      var n := |objs| - 1;
      var pre := objs[..n];
      FlushEventsSculpt(pre, forRender);
      FlushStepCalls(objs[n], n, forRender);
      assert forall i :: 0 <= i < n ==> pre[i] == objs[i];
    }
  }

  /** One object's flush calls, as a list: the two sculpt calls, the
      edit-mode load, or nothing. */
  lemma FlushStepShape(o: Object, i: nat, forRender: bool)
    ensures FlushStep(o, i, forRender) ==
      if SculptFlushes(o) then [MultiresFlushed(i), SculptConversion(i, forRender)]
      else if EditFlushes(o) then [EditmodeLoaded(i)]
      else []
  {
  }

  /** In a flush log `ev`, each multires update is directly followed by the
      conversion of the same object, and each conversion directly follows
      that object's multires update. */
  predicate SculptCallsPaired(ev: seq<Event>, forRender: bool)
  {
    (forall k :: 0 <= k < |ev| && ev[k].MultiresFlushed? ==>
       k + 1 < |ev| && ev[k + 1] == SculptConversion(ev[k].ob, forRender)) &&
    (forall k :: 0 <= k < |ev| && (ev[k].SculptFlushedForRender? || ev[k].SculptFlushed?) ==>
       0 < k && ev[k - 1] == MultiresFlushed(ev[k].ob))
  }

  /** The flush pass makes each object's multires update directly before
      that object's conversion. */
  lemma {:induction false} FlushEventsSculptOrder(objs: seq<Object>, forRender: bool)
    ensures SculptCallsPaired(FlushEvents(objs, forRender), forRender)
    decreases |objs|
  {
    if objs != [] {
      var n := |objs| - 1;
      var pre := FlushEvents(objs[..n], forRender);
      var step := FlushStep(objs[n], n, forRender);
      FlushEventsSculptOrder(objs[..n], forRender);
      assert SculptCallsPaired(pre, forRender);
      FlushStepShape(objs[n], n, forRender);
      var ev := pre + step;
      assert ev == FlushEvents(objs, forRender);
      forall k | 0 <= k < |ev| && ev[k].MultiresFlushed?
        ensures k + 1 < |ev| && ev[k + 1] == SculptConversion(ev[k].ob, forRender)
      {
        if k < |pre| {
          assert ev[k] == pre[k];
          assert ev[k + 1] == pre[k + 1];
        } else {
          assert step[k - |pre|] == ev[k];
        }
      }
      forall k | 0 <= k < |ev| && (ev[k].SculptFlushedForRender? || ev[k].SculptFlushed?)
        ensures 0 < k && ev[k - 1] == MultiresFlushed(ev[k].ob)
      {
        if k < |pre| {
          assert ev[k] == pre[k];
          assert ev[k - 1] == pre[k - 1];
        } else {
          assert step[k - |pre|] == ev[k];
        }
      }
    }
  }

  /** How often one object's flush makes each of the calls of object `i`. */
  lemma FlushStepCounts(o: Object, n: nat, forRender: bool, i: nat)
    ensures var m := multiset(FlushStep(o, n, forRender));
      m[MultiresFlushed(i)] == (if i == n && SculptFlushes(o) then 1 else 0) &&
      m[SculptConversion(i, forRender)] == (if i == n && SculptFlushes(o) then 1 else 0) &&
      m[EditmodeLoaded(i)] == (if i == n && EditFlushes(o) then 1 else 0)
  {
    FlushStepShape(o, n, forRender);
  }

  /** The flush pass makes each object's multires update, conversion and
      edit-mode load at most once. */
  lemma {:induction false} FlushEventsOnce(objs: seq<Object>, forRender: bool, i: nat)
    ensures var m := multiset(FlushEvents(objs, forRender));
      m[MultiresFlushed(i)] <= 1 && m[SculptConversion(i, forRender)] <= 1 && m[EditmodeLoaded(i)] <= 1
    decreases |objs|
  {
    if objs != [] {
      var n := |objs| - 1;
      var pre := FlushEvents(objs[..n], forRender);
      var step := FlushStep(objs[n], n, forRender);
      FlushEventsOnce(objs[..n], forRender, i);
      FlushStepCounts(objs[n], n, forRender, i);
      assert FlushEvents(objs, forRender) == pre + step;
      assert multiset(pre + step) == multiset(pre) + multiset(step);
      if i == n {
        FlushEventsSculpt(objs[..n], forRender);
        FlushEventsEdit(objs[..n], forRender);
        assert MultiresFlushed(n) !in pre && SculptConversion(n, forRender) !in pre && EditmodeLoaded(n) !in pre;
      }
    }
  }

  /** The flush pass makes no host call other than the multires update, the
      two sculpt conversions and the edit-mode load. */
  lemma {:induction false} FlushEventsKinds(objs: seq<Object>, forRender: bool)
    ensures forall e :: e in FlushEvents(objs, forRender) ==>
      e.MultiresFlushed? || e.SculptFlushedForRender? || e.SculptFlushed? || e.EditmodeLoaded?
    decreases |objs|
  {
    if objs != [] {
      var n := |objs| - 1;
      FlushEventsKinds(objs[..n], forRender);
      FlushStepShape(objs[n], n, forRender);
    }
  }

  /** How many objects in `objs` the flush pass flushes out of sculpt mode. */
  function SculptFlushCount(objs: seq<Object>): nat
    decreases |objs|
  {
    if objs == [] then 0
    else SculptFlushCount(objs[..|objs| - 1]) + (if SculptFlushes(objs[|objs| - 1]) then 1 else 0)
  }

  /** How many objects in `objs` the flush pass flushes out of edit mode. */
  function EditFlushCount(objs: seq<Object>): nat
    decreases |objs|
  {
    if objs == [] then 0
    else EditFlushCount(objs[..|objs| - 1]) + (if EditFlushes(objs[|objs| - 1]) then 1 else 0)
  }

  /** The flush pass makes two calls for each sculpt object it flushes and
      one for each edit-mode object it flushes, and no others. */
  lemma {:induction false} FlushEventsLength(objs: seq<Object>, forRender: bool)
    ensures |FlushEvents(objs, forRender)| == 2 * SculptFlushCount(objs) + EditFlushCount(objs)
    decreases |objs|
  {
    if objs != [] {
      var n := |objs| - 1;
      FlushEventsLength(objs[..n], forRender);
      FlushStepShape(objs[n], n, forRender);
    }
  }

  /** Edit-mode data is loaded exactly for the edit-mode objects that are not
      also in sculpt mode. */
  lemma {:induction false} FlushEventsEdit(objs: seq<Object>, forRender: bool)
    ensures forall i: nat :: EditmodeLoaded(i) in FlushEvents(objs, forRender) <==> i < |objs| && EditFlushes(objs[i])
    decreases |objs|
  {
    if objs != [] {
      var n := |objs| - 1;
      var pre := objs[..n];
      FlushEventsEdit(pre, forRender);
      FlushStepCalls(objs[n], n, forRender);
      assert forall i :: 0 <= i < n ==> pre[i] == objs[i];
    }
  }

  // ---------------------------------------------------------------------
  // The editor context

  /** The parts of the editor context (`bContext`) the three passes use. */
  class EditorContext {
    var objects: seq<Object>           // bmain->object, in list order
    var meshes: seq<MeshData>          // the mesh data blocks objects point at
    var armatures: seq<ArmatureData>   // the armature data blocks objects point at
    var active: Option<nat>            // CTX_data_active_object, as a position in `objects`
    var hasMain: bool                  // CTX_data_main(C) != NULL
    var hasWindowManager: bool         // the window manager exists
    var hasScene: bool                 // CTX_data_scene(C) != NULL
    var undoStack: UndoStack           // wm->undo_stack
    var reportsFlag: ReportFlags              // CTX_wm_reports(C)->flag
    var events: seq<Event>             // the host calls made so far

    ghost predicate Valid()
      reads this
    {
      AllDataInRange(objects, |meshes|, |armatures|)
    }

    /** A freshly loaded file: a window manager without an undo stack, no host calls yet. */
    constructor (objs: seq<Object>, ms: seq<MeshData>, arms: seq<ArmatureData>, act: Option<nat>, scene: bool, flag: ReportFlags)
      requires AllDataInRange(objs, |ms|, |arms|)
      ensures Valid()
      ensures objects == objs && meshes == ms && armatures == arms && active == act
      ensures hasMain && hasWindowManager && hasScene == scene
      ensures undoStack == NoStack && reportsFlag == flag && events == []
    {
      objects, meshes, armatures, active := objs, ms, arms, act;
      hasMain, hasWindowManager, hasScene := true, true, scene;
      undoStack, reportsFlag, events := NoStack, flag, [];
    }

    /** `ED_editors_init`. `newStack` names the stack that
        `BKE_undosys_stack_create` would allocate. */
    method EditorsInit(newStack: nat)
      requires hasWindowManager
      requires active.Some? ==> hasMain
      modifies this`objects, this`undoStack, this`reportsFlag, this`events
      ensures reportsFlag == old(reportsFlag)
      ensures undoStack == if old(undoStack) == NoStack then Stack(newStack) else old(undoStack)
      ensures objects == InitModes(old(objects), active)
      ensures events == old(events)
        + (if old(undoStack) == NoStack then [UndoStackCreated(newStack)] else [])
        + ActiveToggle(old(objects), active, WithoutStore(old(reportsFlag)))
        + (if hasScene then [ImagePaintUpdated(WithoutStore(old(reportsFlag)))] else [])
    {
      if undoStack == NoStack {
        undoStack := Stack(newStack);
        events := events + [UndoStackCreated(newStack)];
      }

      // reports are diverted while the modes are restored: the store bit is cleared
      var saved := WithoutStore(reportsFlag);
      reportsFlag, saved := saved, reportsFlag;
      ghost var flag0 := reportsFlag;

      if active.Some? {
        ResetStaleModes(flag0);
      }

      // bring the image editor's paint state up to date
      if hasScene {
        events := events + [ImagePaintUpdated(reportsFlag)];
      }

      reportsFlag, saved := saved, reportsFlag;
    }

    /** The mode-reset loop of `ED_editors_init`, run with the reports flag
        `flag` in force: stale modes are reset to object mode and the active
        object's saved mode is toggled back on. */
    method ResetStaleModes(ghost flag: ReportFlags)
      requires active.Some? && reportsFlag == flag
      modifies this`objects, this`events
      ensures objects == InitModes(old(objects), active)
      ensures events == old(events) + ActiveToggle(old(objects), active, flag)
    {
      ghost var objs0 := objects;
      ghost var events0 := events;
      var obs := objects;
      var calls: seq<Event> := [];
      var i := 0;
      while i < |obs|
        invariant 0 <= i <= |obs| == |objs0|
        invariant forall k :: 0 <= k < i ==> obs[k] == ResetMode(objs0[k])
        invariant forall k :: i <= k < |obs| ==> obs[k] == objs0[k]
        invariant calls == ToggleEvents(objs0[..i], active, flag)
        invariant reportsFlag == flag && objects == objs0 && events == events0
      {
        var o := obs[i];
        var mode := o.mode;
        ToggleEventsStep(objs0, i, active, flag);
        if mode == OB_MODE_OBJECT {
          // object mode: nothing to reset
        } else if !o.hasModeData {
          if o.kind != GPencil {
            obs := obs[i := o.(mode := OB_MODE_OBJECT)];
            if active == Some(i) && !o.linked && !o.dataLinked {
              calls := calls + [ModeToggled(mode, reportsFlag)];
            }
          }
        }
        i := i + 1;
      }
      assert objs0[..i] == objs0;
      ToggleEventsAtMostOnce(objs0, active, flag);
      objects, events := obs, events + calls;
    }

    /** `ED_editors_exit`: drops the undo stack and frees all edit-mode data. */
    method EditorsExit()
      requires hasMain ==> Valid()
      modifies this`undoStack, this`meshes, this`events
      ensures !old(hasMain) ==> undoStack == old(undoStack) && meshes == old(meshes) && events == old(events)
      ensures old(hasMain) ==>
        undoStack == (if hasWindowManager then NoStack else old(undoStack)) &&
        meshes == ExitPass(objects, old(meshes), armatures).meshes &&
        events == old(events)
          + (if hasWindowManager && old(undoStack).Stack? then [UndoStackDestroyed(old(undoStack).id)] else [])
          + ExitPass(objects, old(meshes), armatures).events
          + [MirrorSpatialTableEnded, MirrorTopoTableEnded]
      ensures old(hasMain) ==> Valid()
      ensures old(hasMain) ==>
        forall i :: 0 <= i < |objects| && objects[i].kind == Mesh ==> !meshes[objects[i].data].editMesh
    {
      if !hasMain {
        return;
      }

      // dropping the stack also drops its edit-mode undo steps
      if hasWindowManager {
        if undoStack.Stack? {
          events := events + [UndoStackDestroyed(undoStack.id)];
          undoStack := NoStack;
        }
      }

      FreeEditData();

      // end the mesh tools' mirror lookup tables
      events := events + [MirrorSpatialTableEnded, MirrorTopoTableEnded];
    }

    /** The teardown loop of `ED_editors_exit`: frees the edit mesh of every
        mesh object's mesh and the edit bones of every armature object's
        armature. */
    method FreeEditData()
      requires Valid()
      modifies this`meshes, this`events
      ensures Valid()
      ensures meshes == ExitPass(objects, old(meshes), armatures).meshes
      ensures events == old(events) + ExitPass(objects, old(meshes), armatures).events
      ensures forall i :: 0 <= i < |objects| && objects[i].kind == Mesh ==> !meshes[objects[i].data].editMesh
    {
      ghost var meshes0 := meshes;
      var obs, ms := objects, meshes;
      var calls: seq<Event> := [];
      var i := 0;
      while i < |obs|
        invariant 0 <= i <= |obs|
        invariant AllDataInRange(obs[..i], |meshes0|, |armatures|)
        invariant ms == ExitPass(obs[..i], meshes0, armatures).meshes
        invariant calls == ExitPass(obs[..i], meshes0, armatures).events
        invariant obs == objects && meshes == meshes0 && events == old(events)
      {
        var o := obs[i];
        ExitPassStep(obs, i, meshes0, armatures);
        if o.kind == Mesh {
          if ms[o.data].editMesh {
            calls := calls + [EditMeshFreed(o.data)];
            ms := ms[o.data := MeshData(false)];
          }
        } else if o.kind == Armature {
          if armatures[o.data].editBones {
            calls := calls + [ArmatureEditFreed(o.data)];
          }
        }
        i := i + 1;
      }
      assert obs[..i] == obs;
      ExitPassMeshes(obs, meshes0, armatures);
      forall k | 0 <= k < |obs| && obs[k].kind == Mesh
        ensures !ms[obs[k].data].editMesh
      {
        assert MeshUsed(obs, obs[k].data);
      }
      meshes, events := ms, events + calls;
    }

    /** `ED_editors_flush_edits`: writes pending sculpt and edit-mode changes
        back to the object data and says whether there were any. */
    method EditorsFlushEdits(forRender: bool) returns (hasEdited: bool)
      requires hasMain
      modifies this`events
      ensures hasEdited <==> exists i :: 0 <= i < |objects| && Flushes(objects[i])
      ensures events == old(events) + FlushEvents(objects, forRender)
    {
      hasEdited := false;
      var obs := objects;
      var calls: seq<Event> := [];
      var i := 0;
      while i < |obs|
        invariant 0 <= i <= |obs|
        invariant calls == FlushEvents(obs[..i], forRender)
        invariant hasEdited <==> calls != []
        invariant obs == objects && events == old(events)
      {
        var o := obs[i];
        FlushEventsStep(obs, i, forRender);
        if InSculptMode(o) {
          // an object with a stroke in progress is skipped
          if !o.strokeActive {
            calls := calls + [MultiresFlushed(i)];
            hasEdited := true;
            if forRender {
              calls := calls + [SculptFlushedForRender(i)];
            } else {
              // the non-render conversion keeps the element order
              calls := calls + [SculptFlushed(i, false)];
            }
          }
        } else if InEditMode(o) {
          hasEdited := true;
          calls := calls + [EditmodeLoaded(i)];
        }
        i := i + 1;
      }
      assert obs[..i] == obs;
      FlushEventsNonEmpty(obs, forRender);
      events := events + calls;
    }
  }
}
