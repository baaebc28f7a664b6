# Editor life-cycle utilities of the 3D editor, in Dafny

This project models the editor utilities in `ed_util.c`. These are the
passes the editor runs over the objects of the open file:

- **`ED_editors_init`** runs after a file is loaded. It creates the window
  manager's undo stack if there is none. While it runs, it stops reports
  from being stored, then puts the report flags back. When there is an
  active object, it resets every object whose saved mode cannot be restored
  to object mode, and it turns the saved mode back on for the active object
  when its saved mode was reset and neither the object nor its data is
  linked from a library.
- **`ED_editors_exit`** runs at shutdown. It drops the undo stack and frees
  the edit-mode data of the object list: the edit mesh of each mesh used by
  a mesh object and the edit bones of each armature used by an armature
  object.
- **`ED_editors_flush_edits`** runs before saving or rendering. It writes
  pending sculpt and edit-mode changes back to the object data and says
  whether it flushed any object.
- **`unpack_menu`** builds the "Unpack File" popup for a packed file. It is
  a decision table from what is found on disk to a list of menu entries.

How the model is laid out:

- Module `Scene` (`scene.dfy`) holds the host data the passes read and write.
  - An `Object` record stands for one entry of `bmain->object`: its type,
    its mode as a set of mode bits, and the answers of the host predicates
    the passes consult.
  - Objects point at mesh and armature data blocks by index, so two objects
    can share one mesh.
  - Every call into the host is recorded as an `Event` in a log.
- Module `Editors` (`editors.dfy`) holds the three passes.
  - Each pass is a method of class `EditorContext` with a loop over the
    object list. The class stands for the parts of `bContext` the passes
    use.
  - Each loop is proved against a function that gives the pass's result
    object by object (`InitModes`, `ToggleEvents`, `ExitPass`, `FlushEvents`).
  - Lemmas state what those functions achieve.
- Module `Unpack` (`unpack.dfy`) holds `unpack_menu` as a pure function that
  returns the menu entries in order.

## Model

| member | source | states |
|---|---|---|
| `Editors.InitModesOutcome` | blender/source/blender/editors/util/ed_util.c:109-128 | an object keeps its mode exactly when there is no active object, or it is in object mode, or it has mode data, or it is grease pencil; otherwise it ends in object mode; no other field changes |
| `Editors.InitModesLeavesNothingStale` | blender/source/blender/editors/util/ed_util.c:110-128 | with an active object, no object is left in a non-object mode that lacks mode data (grease pencil excepted) |
| `Editors.InitModesIdempotent` | blender/source/blender/editors/util/ed_util.c:110-128 | running the reset a second time changes nothing more |
| `Editors.ToggleEventsAtMostOnce` | blender/source/blender/editors/util/ed_util.c:111-129 | the loop calls the mode toggle at most once: only for the active object, with its saved mode, and only when the object was reset and neither it nor its data is linked |
| `Editors.EditorContext.ResetStaleModes` | blender/source/blender/editors/util/ed_util.c:111-129 | the loop leaves the objects as `InitModes` gives them and makes exactly the toggle of `ActiveToggle` |
| `Editors.EditorContext.EditorsInit` | blender/source/blender/editors/util/ed_util.c:91-141 | the report flags end as they began; the undo stack is created only when missing, otherwise left as it is; stale modes are reset; the log gains the stack creation, the single toggle and the image paint update, in that order, both made with the store bit cleared |
| `Editors.ExitStep` | blender/source/blender/editors/util/ed_util.c:162-175 | one object's teardown keeps the number of mesh data blocks |
| `Editors.ExitPass` | blender/source/blender/editors/util/ed_util.c:161-176 | the teardown loop keeps the number of mesh data blocks |
| `Editors.ExitPassMeshes` | blender/source/blender/editors/util/ed_util.c:161-169 | after teardown every mesh used by a mesh object has no edit mesh, and every other mesh is unchanged |
| `Editors.ExitPassEventKinds` | blender/source/blender/editors/util/ed_util.c:161-176 | the teardown loop makes no host call other than freeing edit meshes and edit bones |
| `Editors.ExitPassFreesEditMeshes` | blender/source/blender/editors/util/ed_util.c:162-168 | an edit mesh is freed exactly for the used meshes that had one |
| `Editors.ExitPassFreesOnce` | blender/source/blender/editors/util/ed_util.c:164-167 | a mesh shared by several objects has its edit mesh freed at most once |
| `Editors.ExitPassFreesEditBones` | blender/source/blender/editors/util/ed_util.c:170-175 | the armature edit data is freed exactly for the used armatures that have edit bones |
| `Editors.EditorContext.FreeEditData` | blender/source/blender/editors/util/ed_util.c:161-176 | the loop leaves the meshes as `ExitPass` gives them, logs exactly its calls, and no mesh object keeps an edit mesh |
| `Editors.EditorContext.EditorsExit` | blender/source/blender/editors/util/ed_util.c:144-181 | with no main database nothing changes; otherwise the undo stack is gone (when a window manager exists), the meshes are as `ExitPass` gives them, no mesh object keeps an edit mesh, and the log ends with the two mirror-table resets |
| `Editors.FlushStepCalls` | blender/source/blender/editors/util/ed_util.c:195-218 | one object's flush makes the multires update and one of the two conversions exactly when it is in sculpt mode with no stroke cache, the render conversion only for a render and the other only with reorder off, and edit-mode loading exactly when it is in edit mode and not sculpt mode |
| `Editors.FlushEventsNonEmpty` | blender/source/blender/editors/util/ed_util.c:194-219 | the flush makes a host call exactly when some object is flushed |
| `Editors.FlushEventsSculpt` | blender/source/blender/editors/util/ed_util.c:195-213 | the multires update and a conversion are made exactly for sculpt objects without a stroke cache; the render conversion only when `for_render`, the other conversion only otherwise and always with reorder false |
| `Editors.FlushEventsSculptOrder` | blender/source/blender/editors/util/ed_util.c:198-211 | in the log each multires update is directly followed by the same object's conversion, and each conversion directly follows that object's multires update |
| `Editors.FlushEventsOnce` | blender/source/blender/editors/util/ed_util.c:194-219 | each object's multires update, conversion and edit-mode load are made at most once |
| `Editors.FlushEventsKinds` | blender/source/blender/editors/util/ed_util.c:194-219 | the flush makes no host call other than the multires update, the two sculpt conversions and the edit-mode load |
| `Editors.FlushEventsLength` | blender/source/blender/editors/util/ed_util.c:194-219 | the log gains two calls per flushed sculpt object and one per flushed edit-mode object, and nothing else |
| `Editors.FlushEventsEdit` | blender/source/blender/editors/util/ed_util.c:214-218 | edit-mode loading happens exactly for objects in edit mode and not in sculpt mode, so an object in both modes is handled only as sculpt |
| `Editors.EditorContext.EditorsFlushEdits` | blender/source/blender/editors/util/ed_util.c:185-222 | returns true exactly when some object is in sculpt mode without a stroke cache, or in edit mode and not sculpt mode; the log gains exactly `FlushEvents` |
| `Unpack.CheckEntries` | blender/source/blender/editors/util/ed_util.c:303-331 | no file gives one write entry, an identical file one use entry, a different file a use entry followed by a write entry, any other answer none; every entry carries the id and a label naming its path and what its method does |
| `Unpack.CheckEntriesLabels` | blender/source/blender/editors/util/ed_util.c:303-331 | "Create" appears exactly when there is no file, "Use ... (identical)" exactly when the file is the same, "Use ... (differs)" and "Overwrite" exactly when it differs; no write entry comes before a use entry |
| `Unpack.CheckEntriesOffers` | blender/source/blender/editors/util/ed_util.c:270-298 | one check result offers writing exactly for "no file" or "differs", and using exactly for "identical" or "differs" |
| `Unpack.UnpackMenu` | blender/source/blender/editors/util/ed_util.c:246-334 | the first entry is "Remove Pack" with method remove; every entry carries `id_name`; all entries for the absolute path come after all local ones; each label names the path its method acts on; the number of entries is 1 plus the per-result counts, so between 1 and 5 |
| `Unpack.UnpackMenuLabels` | blender/source/blender/editors/util/ed_util.c:258-331 | after "Remove Pack" come the local entries (none when the local copy is not offered), then the entries for the absolute path; each block is labelled by its own path's check result, with use before overwrite |
| `Unpack.UnpackMenuOffers` | blender/source/blender/editors/util/ed_util.c:258-331 | for each method, whether the menu offers it, as a condition on relbase validity, the local name differing from the absolute name, and the two check results |
| `Unpack.UnpackMenuLocalMirrorsOriginal` | blender/source/blender/editors/util/ed_util.c:264-331 | when the local copy is offered and both paths get the same check result, the local block and the absolute block match entry for entry, the local block first |

## Left out

- `apply_keyb_grid` is not modelled. It is floating-point rounding with `floorf`.
- `ED_region_draw_mouse_line_cb` is not modelled. It is GPU immediate-mode drawing.
- `ED_spacedata_id_remap` is not modelled. It only dispatches to a callback of space types that are not part of this model.
- `ED_OT_flush_edits` and `ed_flush_edits_exec` are not modelled. They are operator registration; the exec callback only calls `ED_editors_flush_edits` with `for_render` false.
- `vr_widget_shift.cpp` is not part of this model. It only draws a rectangle with fixed matrices and colours.
- Host calls are recorded as events and their internals are not modelled. This covers the undo system, `EDBM_mesh_free`, `ED_armature_edit_free`, the multires and sculpt conversions, edit-mode loading, the image paint update and the mirror-table resets.
- `Editors.EditorContext.EditorsInit`: the mode toggle is only recorded. The model does not re-enter the toggled mode, so the active object stays in object mode in the model. The toggle's effects on other objects are not modelled either. In the source the toggle runs inside the loop, and in multi-object edit mode it can give other objects mode data or put them into the mode. `hasModeData` is the answer on entry to the loop. So `InitModes` and `ResetStaleModes` match the source only when the toggle touches no object other than the active one. For example, an object after the active one, saved in edit mode, that gains edit data from the toggle keeps its mode in the source but is reset in the model.
- `Editors.EditorContext.EditorsInit`: host calls made while reports are diverted are assumed not to change the report flags. The second swap restores the entry value either way.
- `Editors.EditorContext.EditorsExit`: the source drops the undo stack of the first window manager of the global main database (`G_MAIN`), which may differ from the context's. The model has one window manager and one undo stack, so it treats the global main database's first window manager as the context's.
- `Editors.EditorContext.EditorsExit`: whether `ED_armature_edit_free` clears `arm->edbo` is decided by code not shown. The model leaves the armature data unchanged, so an armature shared by several objects is handed to the host once per object.
- Host predicates are inputs, stored as fields of each object record. `BKE_object_has_mode_data` (asked with the object's saved mode), `ID_IS_LINKED` of the object and of its data, and the presence of a sculpt stroke cache are fields of `Object`. The active object is a position in the object list, and objects are identified by their position.
- Mode bits and report bits are modelled as sets of named bits, not as integers. Only membership tests, clearing a bit, and comparison with object mode (the empty set) are used.
- `Unpack.UnpackMenu`: `checkPackedFile` is the function parameter `check` from path to result, so both calls share the blend-file path and the packed file. `BLI_split_file_part` is the parameter `filePart`.
- `Unpack.UnpackMenu`: labels are not translated (`IFACE_`). Labels and the local name are not truncated to the `FILE_MAX`-sized buffers of `BLI_snprintf`. The popup and RNA property calls are left out.
- `Editors.EditorContext.EditorsInit` requires a window manager, as the source dereferences it. It also requires a main database whenever there is an active object, because the loop walks `bmain->object`.
