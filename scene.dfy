/** The host data the editor utilities read and write: object records, the
    mesh and armature data blocks they point at, the window manager's undo
    stack, and the host calls the utilities make, recorded as events. */
module Scene {

  datatype Option<+T> = None | Some(value: T)

  /** `ob->type`, reduced to the kinds the editor utilities tell apart. */
  datatype ObjectType = Mesh | Armature | GPencil | OtherType

  /** The bits of an object mode (`eObjectMode`); a mode is the set of its
      bits, and object mode (`OB_MODE_OBJECT`, zero) is the empty set. */
  datatype ModeBit =
    | EditBit | SculptBit | VertexPaintBit | WeightPaintBit | TexturePaintBit
    | ParticleEditBit | PoseBit | GpencilEditBit | GpencilPaintBit
    | GpencilSculptBit | GpencilWeightBit

  type Mode = set<ModeBit>

  const OB_MODE_OBJECT: Mode := {}

  /** The bits of `ReportList.flag`; a flag word is the set of its bits. */
  datatype ReportBit = PrintBit | StoreBit | FreeBit | OpHoldBit

  type ReportFlags = set<ReportBit>

  /** One entry of `bmain->object`.
      - `mode` is `ob->mode`;
      - `hasModeData` is what `BKE_object_has_mode_data(ob, ob->mode)` answers;
      - `linked` is `ID_IS_LINKED(ob)`, `dataLinked` is `ob->data && ID_IS_LINKED(ob->data)`;
      - `data` is the index of `ob->data` among the meshes (for a mesh object)
        or the armatures (for an armature object), so objects may share data;
      - `strokeActive` is `ob->sculpt && ob->sculpt->cache`. */
  datatype Object = Object(
    kind: ObjectType,
    mode: Mode,
    hasModeData: bool,
    linked: bool,
    dataLinked: bool,
    data: nat,
    strokeActive: bool)

  /** A mesh data block; `editMesh` is `me->edit_btmesh != NULL`. */
  datatype MeshData = MeshData(editMesh: bool)

  /** An armature data block; `editBones` is `arm->edbo != NULL`. */
  datatype ArmatureData = ArmatureData(editBones: bool)

  /** `wm->undo_stack`: absent, or a stack identified by the allocation that made it. */
  datatype UndoStack = NoStack | Stack(id: nat)

  /** `ob->mode & OB_MODE_SCULPT` */
  predicate InSculptMode(o: Object) { SculptBit in o.mode }
  /** `ob->mode & OB_MODE_EDIT` */
  predicate InEditMode(o: Object) { EditBit in o.mode }

  /** `flag & ~RPT_STORE` */
  function WithoutStore(flag: ReportFlags): (r: ReportFlags)
    ensures StoreBit !in r && forall b :: b != StoreBit ==> (b in r <==> b in flag)
  {
    flag - {StoreBit}
  }

  /** The calls into the host that the editor utilities make, in the order
      they make them. Object-level events name the object by its position in
      `bmain->object`, data-level events the data block by its index. The
      calls made while reports are diverted carry the reports flag that is in
      force at the time of the call. */
  datatype Event =
    | UndoStackCreated(stack: nat)      // BKE_undosys_stack_create
    | ModeToggled(toggled: Mode, flag: ReportFlags) // ED_object_mode_toggle(C, mode) on the active object
    | ImagePaintUpdated(flag: ReportFlags)     // ED_space_image_paint_update
    | UndoStackDestroyed(stack: nat)    // BKE_undosys_stack_destroy
    | EditMeshFreed(mesh: nat)          // EDBM_mesh_free + MEM_freeN of me->edit_btmesh
    | ArmatureEditFreed(armature: nat)  // ED_armature_edit_free
    | MirrorSpatialTableEnded           // ED_mesh_mirror_spatial_table(..., 'e')
    | MirrorTopoTableEnded              // ED_mesh_mirror_topo_table(..., 'e')
    | MultiresFlushed(ob: nat)          // multires_force_update
    | SculptFlushedForRender(ob: nat)   // BKE_sculptsession_bm_to_me_for_render
    | SculptFlushed(ob: nat, reorder: bool) // BKE_sculptsession_bm_to_me
    | EditmodeLoaded(ob: nat)           // ED_object_editmode_load

  /** Whether an object's data index points at a data block of its kind. */
  predicate DataInRange(o: Object, meshCount: nat, armatureCount: nat)
  {
    (o.kind == Mesh ==> o.data < meshCount) &&
    (o.kind == Armature ==> o.data < armatureCount)
  }
}
