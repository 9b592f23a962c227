/**
 * The decision rules of the layer list dock: which edit actions are enabled,
 * when the current layer counts as locked, how the layer ACL flags byte is
 * composed, and the command batches that the add, duplicate, delete and
 * merge actions emit.  The widgets around them are left out; what they are
 * asked (the access-control grants, the selection, its next sibling, whether
 * a group is expanded in the view) becomes a parameter.
 */
module LayerListDock {
  import opened Common
  import opened Protocol
  import opened LayerTree
  import opened LayerNames
  import opened LayerList

  /** What the dock asks the canvas: the feature grants of the local user,
    * the local user id, the layers the access control locks for the local
    * user, and whether censored layers are being censored. */
  datatype Canvas = Canvas(
    editLayers: bool,
    ownLayers: bool,
    localUser: Byte,
    lockedLayers: set<int>,
    censoring: bool)

  /** A layer's access-control entry, as the lock menu shows it. */
  datatype LayerAclEntry = LayerAclEntry(locked: bool, tier: AccessTier, exclusive: seq<Byte>)

  /** The enabled state of the dock's edit controls. */
  datatype Controls = Controls(
    addLayer: bool,
    addGroup: bool,
    lockButton: bool,
    duplicate: bool,
    properties: bool,
    delete: bool,
    merge: bool)

  /** The value an invalid model index reads as: every field zero or empty. */
  const NoLayer := LayerListItem(0, "", false, false, false, false, false, 0, 0, 0, 0)

  // ---------------------------------------------------------------------
  // Enabled actions (updateLockedControls, canMergeCurrent, showPropertiesOfIndex)

  /** The EDIT_LAYERS grant; nothing is granted without a canvas. */
  predicate CanEditAll(canvas: Option<Canvas>) { canvas.Some? && canvas.value.editLayers }

  /** The OWN_LAYERS grant; nothing is granted without a canvas. */
  predicate CanEditOwn(canvas: Option<Canvas>) { canvas.Some? && canvas.value.ownLayers }

  /** Adding a layer or a group needs either editing grant. */
  function CanAdd(canvas: Option<Canvas>): (r: bool)
    ensures r <==> canvas.Some? && (canvas.value.editLayers || canvas.value.ownLayers)
  {
    CanEditAll(canvas) || CanEditOwn(canvas)
  }

  /** The selection-based actions (lock, duplicate, properties, delete) need a
    * selected layer, and either EDIT_LAYERS or OWN_LAYERS with the layer in
    * the local user's id range (`selectedId >> 8`, an arithmetic shift, which
    * is floor division by 256). */
  function SelectionEnabled(canvas: Option<Canvas>, selectedId: int): (r: bool)
    ensures r ==> selectedId != 0 && canvas.Some?
    ensures canvas.Some? && canvas.value.editLayers ==> (r <==> selectedId != 0)
    ensures canvas.Some? && !canvas.value.editLayers ==>
      (r <==> selectedId != 0 && canvas.value.ownLayers && selectedId / 256 == canvas.value.localUser as int)
  {
    selectedId != 0
    && (CanEditAll(canvas) || (CanEditOwn(canvas) && selectedId / 256 == canvas.value.localUser as int))
  }

  /** `canMergeCurrent`: something is selected and its next sibling (the
    * item at the following row under the same parent, `below` in the dock)
    * is a layer, not a group, that the access control does not lock.  The
    * dock asks the model for `IsGroupRole`, a role the model does not
    * define; it is read here as the item's `group` flag. */
  function CanMergeCurrent(canvas: Canvas, selection: Option<LayerListItem>, below: Option<LayerListItem>): (r: bool)
    ensures r ==> selection.Some? && below.Some?
    ensures r <==> selection.Some? && below.Some? && !below.value.group && below.value.id !in canvas.lockedLayers
  {
    selection.Some? && below.Some? && !below.value.group && below.value.id as int !in canvas.lockedLayers
  }

  /** `updateLockedControls`: the enabled state of every edit control. */
  function LockedControls(canvas: Option<Canvas>, selectedId: int,
                          selection: Option<LayerListItem>, below: Option<LayerListItem>): (c: Controls)
    ensures c.addLayer == c.addGroup == CanAdd(canvas)
    ensures c.lockButton == c.duplicate == c.properties == c.delete == SelectionEnabled(canvas, selectedId)
    ensures c.merge <==> SelectionEnabled(canvas, selectedId) && CanMergeCurrent(canvas.value, selection, below)
  {
    var canAdd := CanAdd(canvas);
    var enabled := SelectionEnabled(canvas, selectedId);
    Controls(canAdd, canAdd, enabled, enabled, enabled, enabled,
             enabled && CanMergeCurrent(canvas.value, selection, below))
  }

  /** Every control that needs a selection implies that adding is enabled,
    * merging implies deleting, and without a canvas or with no layer selected
    * no selection-based control is enabled. */
  lemma ControlsAreNested(canvas: Option<Canvas>, selectedId: int,
                          selection: Option<LayerListItem>, below: Option<LayerListItem>)
    ensures var c := LockedControls(canvas, selectedId, selection, below);
      (c.delete ==> c.addLayer)
      && (c.merge ==> c.delete)
      && (canvas.None? ==> c == Controls(false, false, false, false, false, false, false))
      && (selectedId == 0 ==> !c.lockButton && !c.duplicate && !c.properties && !c.delete && !c.merge)
  {
  }

  /** The rule of the layer properties dialog: EDIT_LAYERS, or OWN_LAYERS with
    * the layer's creator byte `(layerId & 0xff00) >> 8` equal to the local
    * user (two's-complement masking of an int is its remainder mod 2^16). */
  function PropertiesEditable(canvas: Canvas, layerId: int): (r: bool)
    ensures r <==> canvas.editLayers || (canvas.ownLayers && (layerId % 0x1_0000) / 256 == canvas.localUser as int)
  {
    var creator := (layerId % 0x1_0000) / 256;
    canvas.editLayers || (canvas.ownLayers && creator == canvas.localUser as int)
  }

  /** For every layer id, the dock's selection rule and the properties
    * dialog's rule agree on a selected layer: both read the id's high byte as
    * its creator. */
  lemma SelectionRuleMatchesProperties(canvas: Canvas, id: U16)
    ensures SelectionEnabled(Some(canvas), id) <==> id != 0 && PropertiesEditable(canvas, id)
    ensures PropertiesEditable(canvas, id) <==>
      canvas.editLayers || (canvas.ownLayers && CreatorId(id) == canvas.localUser)
  {
    assert id % 0x1_0000 == id;
  }

  // ---------------------------------------------------------------------
  // Locking (isCurrentLayerLocked, lockStatusChanged, changeLayerAcl)

  /** `isCurrentLayerLocked`: a layer cannot be drawn on when it is hidden, a
    * group (no pixels of its own), locked by the access control, or censored
    * while censoring is on; without a canvas or selection it is not locked. */
  function IsCurrentLayerLocked(canvas: Option<Canvas>, selection: Option<LayerListItem>): (r: bool)
    ensures canvas.None? || selection.None? ==> !r
    ensures canvas.Some? && selection.Some? ==>
      (r <==> selection.value.hidden || selection.value.group
              || selection.value.id in canvas.value.lockedLayers
              || (selection.value.censored && canvas.value.censoring))
  {
    if canvas.None? then false
    else if selection.None? then false
    else
      var item := selection.value;
      item.hidden || item.group || item.id as int in canvas.value.lockedLayers
      || (item.censored && canvas.value.censoring)
  }

  /** Censoring matters only while it is on: with censoring off, the censor
    * flag of the selected layer does not change whether it counts as locked. */
  lemma CensorFlagIgnoredWhenNotCensoring(canvas: Canvas, item: LayerListItem)
    requires !canvas.censoring
    ensures IsCurrentLayerLocked(Some(canvas), Some(item))
            == IsCurrentLayerLocked(Some(canvas), Some(item.(censored := !item.censored)))
  {
  }

  /** The ACL flags byte: the lock bit when locking, or-ed with the tier. */
  function AclFlags(lock: bool, tier: AccessTier): (flags: bv8)
    ensures flags & 0x7c == 0
  {
    (if lock then ACL_ALL_LOCKED_BIT else 0) | tier.Value()
  }

  /** The flags byte keeps both halves apart: the lock bit reads back the
    * lock, the low seven bits read back the tier's value, and so two
    * different settings never share a byte. */
  lemma AclFlagsDecode(lock: bool, tier: AccessTier)
    ensures (AclFlags(lock, tier) & ACL_ALL_LOCKED_BIT != 0) == lock
    ensures AclFlags(lock, tier) & 0x7f == tier.Value()
    ensures forall lock2: bool, tier2: AccessTier ::
      AclFlags(lock2, tier2) == AclFlags(lock, tier) ==> lock2 == lock && tier2 == tier
  {
    forall lock2: bool, tier2: AccessTier | AclFlags(lock2, tier2) == AclFlags(lock, tier)
      ensures lock2 == lock && tier2 == tier
    {
      assert AclFlags(lock2, tier2) & 0x7f == tier2.Value();
    }
  }

  /** The lock button is checked when the layer's ACL restricts anyone. */
  function LockButtonChecked(acl: LayerAclEntry): (checked: bool)
    ensures !checked <==> acl == LayerAclEntry(false, Guest, [])
  {
    acl.locked || acl.tier != Guest || |acl.exclusive| != 0
  }

  /** The button is unchecked exactly for the entry that the unlock command
    * `changeLayerAcl(false, Guest, [])` sets: the flags byte of the entry is
    * that of the unlock command and no user is singled out. */
  lemma LockButtonMatchesAclFlags(acl: LayerAclEntry)
    ensures !LockButtonChecked(acl) <==>
      AclFlags(acl.locked, acl.tier) == AclFlags(false, Guest) && acl.exclusive == []
  {
    AclFlagsDecode(acl.locked, acl.tier);
  }

  /** `lockStatusChanged`: the new checked state of the lock button; only a
    * change to the selected layer's ACL is shown. */
  function LockStatusChanged(selectedId: int, layerId: int, acl: LayerAclEntry, checked: bool): (r: bool)
    ensures selectedId != layerId ==> r == checked
    ensures selectedId == layerId ==> (r <==> acl.locked || acl.tier != Guest || acl.exclusive != [])
  {
    if selectedId == layerId then LockButtonChecked(acl) else checked
  }

  /** `changeLayerAcl`: one ACL message for the selected layer, no undo
    * point; nothing without a selection. */
  function ChangeLayerAcl(localUser: Byte, selection: Option<LayerListItem>,
                          lock: bool, tier: AccessTier, exclusive: seq<Byte>): (r: seq<Message>)
    ensures selection.None? <==> r == []
    ensures selection.Some? ==>
      (|r| == 1 && r[0].LayerAcl? && r[0].contextId == localUser
       && r[0].id == selection.value.id && r[0].exclusive == exclusive
       && (r[0].flags & ACL_ALL_LOCKED_BIT != 0) == lock && r[0].flags & 0x7f == tier.Value())
  {
    if selection.None? then []
    else
      AclFlagsDecode(lock, tier);
      [Message.LayerAcl(localUser, selection.value.id, AclFlags(lock, tier), exclusive)]
  }

  // ---------------------------------------------------------------------
  // Command batches (addLayerOrGroup, duplicateLayer, deleteSelected, mergeSelected)

  /** An undoable batch: an undo point, then one layer command, both from
    * the local user. */
  predicate UndoBatch(r: seq<Message>, localUser: Byte)
  {
    |r| == 2 && r[0] == UndoPoint(localUser) && !r[1].UndoPoint? && r[1].contextId == localUser
  }

  /** The flags of a new layer or group: GROUP for a group, INTO when the
    * target is a group that is expanded in the view. */
  function CreateFlags(group: bool, targetIsExpandedGroup: bool): (flags: bv8)
    ensures (flags & LAYER_CREATE_FLAGS_GROUP != 0) == group
    ensures (flags & LAYER_CREATE_FLAGS_INTO != 0) == targetIsExpandedGroup
    ensures flags & 0xfc == 0
  {
    (if group then LAYER_CREATE_FLAGS_GROUP else 0)
    | (if targetIsExpandedGroup then LAYER_CREATE_FLAGS_INTO else 0)
  }

  /** `addLayerOrGroup` for local user `u`: a new layer (or group) with the
    * lowest free id of `u`, placed at the selected layer (into it when it is
    * an expanded group) or at the top level when nothing valid is selected,
    * and titled with the next free "Layer N" / "Group N" name.  `expanded`
    * is the view's set of expanded layer ids. */
  function AddLayerOrGroup(items: seq<LayerListItem>, u: Byte, selectedId: U16,
                           expanded: set<int>, group: bool): (r: seq<Message>)
    ensures r == [] <==> AvailableLayerId(items, u) == 0
    ensures |r| == 0 || |r| == 2
  {
    var id := AvailableLayerId(items, u);
    if id == 0 then []
    else
      var valid := HasId(items, selectedId);
      var target: U16 := if valid then selectedId else 0;
      var into := valid && items[PositionOf(items, selectedId)].group && selectedId as int in expanded;
      [UndoPoint(u),
       LayerCreate(u, id, 0, target, 0, CreateFlags(group, into),
                   AvailableName(if group then "Group" else "Layer", Titles(items)))]
  }

  /** The add batch: nothing when `u`'s id range is full; otherwise an undo
    * point and a create of an id that `u` owns and no layer has yet, copying
    * nothing and with no fill. */
  lemma AddLayerOrGroupBatch(items: seq<LayerListItem>, u: Byte, selectedId: U16,
                             expanded: set<int>, group: bool)
    ensures var r := AddLayerOrGroup(items, u, selectedId, expanded, group);
      (r == [] <==> AvailableLayerId(items, u) == 0)
      && (r != [] ==>
        (UndoBatch(r, u) && r[1].LayerCreate?
         && r[1].id == AvailableLayerId(items, u) && CreatorId(r[1].id) == u && !HasId(items, r[1].id)
         && r[1].source == 0 && r[1].fill == 0))
  {
    if AvailableLayerId(items, u) != 0 {
      FreeIdFromSpec(items, u, 0);
    }
  }

  /** Where the new layer goes: the target is the selected layer when it
    * exists and 0 otherwise; the GROUP bit is set exactly for groups, and
    * the INTO bit exactly when the first layer with the selected id is a
    * group that is expanded in the view. */
  lemma AddLayerOrGroupPlacement(items: seq<LayerListItem>, u: Byte, selectedId: U16,
                                 expanded: set<int>, group: bool)
    requires AvailableLayerId(items, u) != 0
    ensures var c := AddLayerOrGroup(items, u, selectedId, expanded, group)[1];
      c.LayerCreate?
      && (c.flags & LAYER_CREATE_FLAGS_GROUP != 0) == group
      && (c.target == if HasId(items, selectedId) then selectedId else 0)
      && ((c.flags & LAYER_CREATE_FLAGS_INTO != 0) <==>
            (selectedId as int in expanded
             && exists k :: (0 <= k < |items| && items[k].id == selectedId && items[k].group
                             && forall j :: 0 <= j < k ==> items[j].id != selectedId)))
  {
    var c := AddLayerOrGroup(items, u, selectedId, expanded, group)[1];
    var valid := HasId(items, selectedId);
    var p := PositionOf(items, selectedId);
    var into := valid && items[p].group && selectedId as int in expanded;
    assert c.flags == CreateFlags(group, into);
    if exists k :: (0 <= k < |items| && items[k].id == selectedId && items[k].group
                    && forall j :: 0 <= j < k ==> items[j].id != selectedId) {
      var k :| 0 <= k < |items| && items[k].id == selectedId && items[k].group
               && forall j :: 0 <= j < k ==> items[j].id != selectedId;
      assert k == p;
    }
  }

  /** The new title is one no layer has, as long as its number fits in an
    * int. */
  lemma AddLayerOrGroupTitle(items: seq<LayerListItem>, u: Byte, selectedId: U16,
                             expanded: set<int>, group: bool)
    requires AvailableLayerId(items, u) != 0
    requires MaxSuffix(Titles(items), Stem(if group then "Group" else "Layer")) < INT_MAX
    ensures var c := AddLayerOrGroup(items, u, selectedId, expanded, group)[1];
      c.LayerCreate? && forall k :: 0 <= k < |items| ==> items[k].title != c.title
  {
    NameIsFresh(if group then "Group" else "Layer", Titles(items));
  }

  /** `duplicateLayer`: a copy of the selected layer (source and target are
    * both that layer) with the next free id and the next free name after
    * its title.  With no selection the zero item is copied, as an invalid
    * index reads as one. */
  function DuplicateLayer(items: seq<LayerListItem>, u: Byte, selection: Option<LayerListItem>): (r: seq<Message>)
    ensures r == [] <==> AvailableLayerId(items, u) == 0
    ensures |r| == 0 || |r| == 2
  {
    var layer := if selection.Some? then selection.value else NoLayer;
    var id := AvailableLayerId(items, u);
    if id == 0 then []
    else
      [UndoPoint(u), LayerCreate(u, id, layer.id, layer.id, 0, 0, AvailableName(layer.title, Titles(items)))]
  }

  /** The duplicate batch: nothing when `u`'s id range is full; otherwise an
    * undo point and a create of a fresh id of `u` that copies the selected
    * layer and is placed at it, with no flags. */
  lemma DuplicateLayerBatch(items: seq<LayerListItem>, u: Byte, layer: LayerListItem)
    ensures var r := DuplicateLayer(items, u, Some(layer));
      (r == [] <==> AvailableLayerId(items, u) == 0)
      && (r != [] ==>
        (UndoBatch(r, u) && r[1].LayerCreate?
         && CreatorId(r[1].id) == u && !HasId(items, r[1].id)
         && r[1].source == layer.id && r[1].target == layer.id && r[1].flags == 0
         && (MaxSuffix(Titles(items), Stem(layer.title)) < INT_MAX ==>
               (forall k :: 0 <= k < |items| ==> items[k].title != r[1].title))))
  {
    if AvailableLayerId(items, u) != 0 {
      FreeIdFromSpec(items, u, 0);
      if MaxSuffix(Titles(items), Stem(layer.title)) < INT_MAX {
        NameIsFresh(layer.title, Titles(items));
      }
    }
  }

  /** `deleteSelected`: delete the selected layer without merging it. */
  function DeleteSelected(u: Byte, selection: Option<LayerListItem>): (r: seq<Message>)
    ensures selection.None? <==> r == []
    ensures selection.Some? ==>
      (UndoBatch(r, u) && r[1] == LayerDelete(u, selection.value.id, 0))
  {
    if selection.None? then [] else [UndoPoint(u), LayerDelete(u, selection.value.id, 0)]
  }

  /** `mergeSelected`: delete the selected layer, merging it into its next
    * sibling (`below` in the dock); nothing without both. */
  function MergeSelected(u: Byte, selection: Option<LayerListItem>, below: Option<LayerListItem>): (r: seq<Message>)
    ensures selection.None? || below.None? <==> r == []
    ensures r != [] ==>
      (UndoBatch(r, u) && r[1] == LayerDelete(u, selection.value.id, below.value.id))
  {
    if selection.None? || below.None? then []
    else [UndoPoint(u), LayerDelete(u, selection.value.id, below.value.id)]
  }

  /** A merge is a delete with a merge target: where the merge emits a batch
    * the delete does too, and the two differ only in the target of the
    * layer command. */
  lemma MergeIsDeleteWithTarget(u: Byte, selection: Option<LayerListItem>, below: Option<LayerListItem>)
    ensures var m := MergeSelected(u, selection, below);
      var d := DeleteSelected(u, selection);
      m != [] ==> (d != [] && m[0] == d[0] && m[1] == d[1].(mergeTo := below.value.id))
  {
  }

  /** The merge action is enabled only where the merge command has a batch
    * to emit, aimed at a layer the local user may draw on. */
  lemma EnabledMergeEmits(canvas: Canvas, selectedId: int,
                          selection: Option<LayerListItem>, below: Option<LayerListItem>)
    requires LockedControls(Some(canvas), selectedId, selection, below).merge
    ensures var m := MergeSelected(canvas.localUser, selection, below);
      UndoBatch(m, canvas.localUser) && m[1].mergeTo !in canvas.lockedLayers
      && !below.value.group
  {
  }
}
