# Rigify Meta-Rig for ManuelBastioniLAB, modelled in Dafny

This Blender add-on has one module, `__init__.py`, with four operators:

- **Rigify Meta-Rig for MLAB** reads the bones of a ManuelBastioniLAB (MLAB) armature. It adds Rigify's human meta-rig at the MLAB object's location. Then it moves the meta-rig's bones onto the MLAB skeleton:
  - copied bones come from three name tables;
  - the legs are optionally straightened, with a knee offset;
  - the heels, the pelvis and the whole face rig are derived from the freshly added meta-rig.
- **MLAB to Rigify** and **Rigify to MLAB** rename a mesh's vertex groups through `mlab_bone_names`. Before either of them runs, `update_mlab_bone_names` extends that table with a `"DEF-"` entry for every pair of `metarig_bone_names`.
- **Delete Face Rig** deletes every bone below the parent of `face`.

The model works on plain values. An armature is a map from bone name to pose and parent (`Armature.Rig`). A mesh's vertex groups are their names in index order (`VertexGroups.Groups`). A Python dict is a sequence of entries in insertion order (`NameTables.Table`), which is the order the add-on's `for … in d.items()` loops visit.

Every lookup that can raise (`edit_bones[name]`, `bone_data[name]`, `face.parent.children_recursive`) is a `Result`, so each operator's outcome names the exception that stops it.

The model is split into these modules:

| module | file | what it holds |
|---|---|---|
| `Options`, `Host` | `host.dfy` | `Option`, `Result`, and the kind of the active object |
| `NameTables` | `name_tables.dfy` | dict lookup and update, `update_mlab_bone_names` (`AddRenamed`) |
| `BoneTables` | `bone_tables.dfy` | the four literal tables and what the update makes of `mlab_bone_names` |
| `Geometry`, `Armature` | `armature.dfy` | vectors, poses, rigs, `children_recursive` (`Descendants`) |
| `VertexGroups` | `vertex_groups.dfy` | the two renaming operators |
| `FaceRig` | `face_rig.dfy` | Delete Face Rig |
| `FitMetarig` | `fit_metarig.dfy` | Rigify Meta-Rig for MLAB |

Each operation has a partner:

- **A reference definition of what went wrong.** `FirstMissing` and `FirstFailing` give the first lookup in source order that fails. The `…Raise` lemmas prove that an operation raises exactly then, and with that lookup's exception.
- **An inverse.** The two renaming loops undo each other (`RenameRoundTrip`, `MlabRigifyRoundTrip`).
- **A map reading of the rename loop.** `Translate` reads a rename table as a map on names, and `RenameForwardTranslates` proves the loop equals it.
- **A chain reading of `children_recursive`.** `DescendsFrom` says the chain of parents reaches a bone, and `DescendantsAreChains` proves `children_recursive` holds exactly those bones.
- **Invariants.** Updating the table a second time changes nothing (`AddRenamedIdempotent`). The apply loop keeps the hierarchy (`SameHierarchy`, `FittedKeepsHierarchy`).

## Model

| member | source | states |
|---|---|---|
| NameTables.Get | __init__.py:156-157 | `d[k]` on a table: absent exactly when no entry has key `k`, and with distinct keys it is that entry's value |
| NameTables.Put | __init__.py:271 | `d[k] = v`: `k` then looks up `v` and every other key looks up what it did. An existing key keeps its position and a new key is appended. Distinct keys stay distinct, and storing the value already there changes nothing |
| NameTables.AddRenamed | __init__.py:268-271 | `update_mlab_bone_names` keeps every existing key in place, changes no lookup of a name that is not an MLAB bone of the metarig table, and keeps keys distinct |
| NameTables.AddRenamedSetsEveryPair | __init__.py:268-271 | after the update every MLAB bone of a pair `m: b` looks up `"DEF-" + m`, when the MLAB bones of the metarig table are distinct |
| NameTables.AddRenamedNoOp | __init__.py:268-271 | on a table that already maps every MLAB bone to its `"DEF-"` name, the update changes nothing |
| NameTables.AddRenamedIdempotent | __init__.py:268-271 | running the update twice gives the same table as running it once |
| NameTables.AddRenamedAppends | __init__.py:268-271 | when no MLAB bone of the metarig table is already a key, the update is the old table followed by the renamed pairs in metarig order |
| NameTables.Renamed | __init__.py:270-271 | the entries the update writes: one per metarig pair, in table order, mapping the MLAB bone to `"DEF-"` plus the metarig bone. `AddRenamedAppends` proves the update appends exactly these when no MLAB bone is already a key |
| NameTables.DefPrefixed | __init__.py:271 | prefixing with `"DEF-"` always yields a `"DEF-"` name |
| NameTables.DefPrefixInjective | __init__.py:271 | prefixing with `"DEF-"` never maps two names to one |
| BoneTables.TableSizes | __init__.py:30-117 | `metarig_bone_names` has 54 entries, as blocks of 6 torso, 24 left and 24 right ones, and `mlab_bone_names` has 16 |
| BoneTables.MetarigBoneNamesDistinct | __init__.py:30-85 | no two metarig bones of `metarig_bone_names` are equal, and no two MLAB bones are |
| BoneTables.MlabBoneNamesFacts | __init__.py:100-117 | `mlab_bone_names` has distinct keys and distinct values, every value is a `"DEF-"` name and no key is |
| BoneTables.MlabKeysNotMetarigValues | __init__.py:30-117 | no MLAB bone of `metarig_bone_names` is already a key of `mlab_bone_names` |
| BoneTables.MlabValuesNotRenamed | __init__.py:30-117 | no value of `mlab_bone_names` equals a `"DEF-"` name the update adds |
| BoneTables.UpdateMlabBoneNamesResult | __init__.py:268-271 | the first update keeps the 16 original entries in place and appends the 54 renamed pairs |
| BoneTables.UpdateMlabBoneNamesStable | __init__.py:268-271 | every later update leaves the updated table as it is |
| BoneTables.MergedBoneNamesPairs | __init__.py:268-271 | in the updated table each MLAB bone `b` of a pair `m: b` maps to `"DEF-" + m` |
| BoneTables.MergedBoneNamesShape | __init__.py:268-271 | the updated table has distinct keys and distinct values, every value is a `"DEF-"` name and no key is |
| VertexGroups.IndexOf | __init__.py:287 | `vertex_groups[name]` finds the first group with that name, and fails exactly when no group has it |
| VertexGroups.RenameGroup | __init__.py:287 | renaming raises exactly when the group is missing. It changes only that group, to the new name when it is free. The host keeps names unique |
| VertexGroups.RenameForward | __init__.py:285-289 | the MLAB-to-Rigify loop keeps the number of groups and leaves alone every group whose name is not a key. It reports only keys, and keeps names unique |
| VertexGroups.RenameBackward | __init__.py:306-310 | the Rigify-to-MLAB loop keeps the number of groups and leaves alone every group whose name is not a value. It reports only values, and keeps names unique |
| VertexGroups.MissingKeys | __init__.py:288-289 | the names the forward loop reports are exactly the keys that name no group |
| VertexGroups.RenameForwardTranslates | __init__.py:285-289 | on a table without rename chains and with no rename onto a taken name, the loop maps every group name through the table and reports exactly the keys naming no group |
| VertexGroups.RenameBackwardIsForwardOfSwap | __init__.py:306-310 | the backward loop is the forward loop over the table read backwards |
| VertexGroups.RenameRoundTrip | __init__.py:285-310 | the backward loop after the forward loop restores every group name, when no group already carries a target name |
| VertexGroups.RenameRoundTripBackward | __init__.py:285-310 | the forward loop after the backward loop restores every group name, when no group already carries a source name |
| VertexGroups.MlabToRigify | __init__.py:280-292 | off a mesh: a report, and nothing changes. On a mesh: the table is updated and the groups are renamed, keeping their number, and groups not named by a key are untouched |
| VertexGroups.RigifyToMlab | __init__.py:301-313 | the same for the backward operator, with values in place of keys |
| VertexGroups.MergedIsRenameTable | __init__.py:268-271 | the updated table has no rename chains |
| VertexGroups.MergedValuesAreDef | __init__.py:268-271 | a name that is a value of the updated table is a `"DEF-"` name, and one that is a key is not |
| VertexGroups.OperatorsSettleTable | __init__.py:283 | on a mesh, both operators leave `mlab_bone_names` in its updated form, whichever form it had |
| VertexGroups.ForwardOverUpdated | __init__.py:283-289 | on a table holding every metarig pair's `"DEF-"` name, the forward loop translates every name, reports exactly the absent keys, and turns group `b` of a pair `m: b` into `"DEF-" + m` |
| VertexGroups.BackwardOverUpdated | __init__.py:304-310 | the backward loop over such a table turns group `"DEF-" + m` of a pair `m: b` into `b` |
| VertexGroups.MlabToRigifyTranslates | __init__.py:280-292 | "MLAB to Rigify" on a mesh gives each group its image under the updated table |
| VertexGroups.MlabToRigifyReports | __init__.py:285-289 | "MLAB to Rigify" reports exactly the MLAB names of the updated table that name no group |
| VertexGroups.MlabToRigifyDefNames | __init__.py:280-292 | "MLAB to Rigify" turns a group named after the MLAB bone of a metarig pair `m: b` into `"DEF-" + m` |
| VertexGroups.RigifyToMlabTranslates | __init__.py:301-313 | "Rigify to MLAB" on a mesh gives each group its image under the updated table read backwards |
| VertexGroups.RigifyToMlabReports | __init__.py:306-310 | "Rigify to MLAB" reports exactly the `"DEF-"` names of the updated table that name no group |
| VertexGroups.RigifyToMlabMlabNames | __init__.py:301-313 | "Rigify to MLAB" turns a group `"DEF-" + m` of a metarig pair `m: b` into `b` |
| VertexGroups.MlabRigifyRoundTrip | __init__.py:273-313 | on a mesh with unique group names and none of them `"DEF-"` names, "Rigify to MLAB" after "MLAB to Rigify" restores every name |
| VertexGroups.RigifyMlabRoundTrip | __init__.py:273-313 | on a mesh with unique group names and none of them an MLAB name of the table, "MLAB to Rigify" after "Rigify to MLAB" restores every name |
| Armature.Grow | __init__.py:243 | adding children until nothing changes stays inside the rig and ends closed under taking children |
| Armature.Descendants | __init__.py:243 | `children_recursive` holds the bone's children and is closed under taking children |
| Armature.DescendantsAreChains | __init__.py:243 | `children_recursive` of `p` holds exactly the bones whose chain of parents reaches `p` |
| Armature.NotOwnDescendant | __init__.py:330 | in an acyclic rig a bone is not in its own `children_recursive` |
| Armature.DescendantsClosed | __init__.py:330 | a bone whose parent is deleted with `p`'s descendants is deleted too |
| Armature.SameHierarchyDescendants | __init__.py:250-258 | moving bones without reparenting keeps every bone's `children_recursive`, well-formedness and acyclicity |
| FaceRig.DeleteFaceRig | __init__.py:322-336 | bones are deleted exactly on an armature with `face` whose parent exists. Otherwise the rig is untouched and the status names the case: not an armature, no `face`, or a parentless `face`, where reading `.parent.children_recursive` raises. `face` goes, surviving bones are unchanged, and parents stay present |
| FaceRig.DeleteFaceRigRemovesChains | __init__.py:328-332 | a bone is deleted exactly when its chain of parents reaches the parent of `face` |
| FaceRig.DeleteFaceRigKeepsParent | __init__.py:330-332 | in an acyclic rig the parent of `face` survives |
| FaceRig.DeleteFaceRigTwice | __init__.py:326-335 | a second run finds no `face` and changes nothing |
| FitMetarig.FirstMissing | __init__.py:143-149 | the first name in lookup order that is absent, or none when all are present |
| FitMetarig.CopyBones | __init__.py:143-149 | a copy loop raises exactly at the first missing MLAB bone. Otherwise it stores every table key with its MLAB bone's pose and keeps every other entry |
| FitMetarig.HeelPose | __init__.py:207-217 | a heel is centred in x on the MLAB foot head, keeps its template x extent and roll, and lies at the MLAB object's y and z |
| FitMetarig.PelvisPose | __init__.py:232-239 | a pelvis bone starts at the MLAB pelvis head and keeps its template direction, length and roll |
| FitMetarig.Shifted | __init__.py:245-248 | a face bone is its template bone translated by minus the offset, roll kept |
| FitMetarig.Apply | __init__.py:250-258 | the apply loop keeps every bone and parent. A bone with an entry in `bone_data` takes that pose and every other bone is untouched |
| FitMetarig.FitMetarig | __init__.py:134-266 | the operator reports "not an armature" exactly off an armature, and places a fitted meta-rig at the MLAB object's location |
| FitMetarig.MetarigBoneLegNamesShape | __init__.py:93-98 | `metarig_bone_leg_names` maps thigh.L, shin.L, thigh.R and shin.R to thigh_L, calf_L, thigh_R and calf_R |
| FitMetarig.Knee | __init__.py:164-171 | the straightened knee: the MLAB thigh's length along the direction from the thigh head to the calf tail, from the thigh head. Its y is always the calf head's y plus the knee offset, whatever `normalized` returns. `KneeOnLegLine` places x and z on the leg line |
| FitMetarig.StraightLeg | __init__.py:155-177 | one pass of the straight-legs loop stores exactly the thigh and the shin and keeps every other entry. The thigh ends where the shin starts, as the add-on stores one knee vector for both. `StraightLegSpec` states where it raises and `StraightLegPoses` the two poses |
| FitMetarig.Legs | __init__.py:153-181 | the leg branch keeps every entry it was given, and with straight legs each thigh ends where its shin starts. `LegsRaise` and `LegsStore` state where either branch raises and what it stores |
| FitMetarig.StraightLegSpec | __init__.py:155-177 | one straightened leg raises exactly at the first of its two MLAB bones that is missing. It stores the thigh and shin and changes nothing else |
| FitMetarig.StraightLegPoses | __init__.py:159-177 | the thigh runs from the MLAB thigh head to the knee and the shin from the knee to the MLAB calf tail, each keeping its MLAB roll |
| FitMetarig.LegsRaise | __init__.py:153-181 | both leg branches raise exactly at the first missing MLAB leg bone in table order |
| FitMetarig.LegsStore | __init__.py:153-181 | both leg branches store exactly the four leg bones and keep every other entry |
| FitMetarig.StraightLegsPoses | __init__.py:153-177 | with straight legs, each leg is straightened from its own MLAB thigh and calf |
| FitMetarig.KneeOnLegLine | __init__.py:164-171 | when `normalized` keeps a direction, the knee lies, in x and z, on the line from the thigh head to the calf tail, at the calf head's y plus the offset |
| FitMetarig.ReadBones | __init__.py:143-185 | reading succeeds only when both feet and every MLAB bone of the copy and arm tables exist, and with straight legs the knees are joined. `ReadBonesRaise`, `ReadBonesKeys` and the `ReadBones…` pose lemmas state the rest |
| FitMetarig.ReadSource | __init__.py:143-185 | the first half on the add-on's tables succeeds only when `foot_L` and `foot_R` exist, and with straight legs the knees are joined. `ReadSourceRaise` and the `ReadSource…` pose lemmas state the rest |
| FitMetarig.ReadBonesRaise | __init__.py:143-185 | reading raises exactly when a looked-up MLAB bone is missing, at the first in lookup order, given feet among the copied bones |
| FitMetarig.ReadBonesCopies | __init__.py:143-145 | the first table's pairs end in `bone_data` with their MLAB poses |
| FitMetarig.ReadBonesArms | __init__.py:147-149 | the arm pairs end in `bone_data` with their MLAB poses |
| FitMetarig.ReadBonesCopiedLegs | __init__.py:178-181 | without straightening, the leg pairs are copied |
| FitMetarig.ReadBonesStraightLegs | __init__.py:153-177 | with straightening, the leg pairs are straightened |
| FitMetarig.ReadBonesKeys | __init__.py:143-181 | `bone_data` after reading holds exactly the keys of the three tables |
| FitMetarig.ReadSourceRaise | __init__.py:143-185 | on the add-on's tables, reading raises exactly at the first missing MLAB bone in lookup order |
| FitMetarig.ReadSourceCopies | __init__.py:143-145 | on the add-on's tables, every `metarig_bone_names` pair is stored with its MLAB pose |
| FitMetarig.ReadSourceArms | __init__.py:147-149 | every `metarig_bone_arm_names` pair is stored with its MLAB pose |
| FitMetarig.ReadSourceCopiedLegs | __init__.py:178-181 | without straightening, every `metarig_bone_leg_names` pair is stored with its MLAB pose |
| FitMetarig.ReadSourceStraightLegs | __init__.py:153-177 | with straightening, thigh.L/shin.L and thigh.R/shin.R are rebuilt from thigh_L/calf_L and thigh_R/calf_R |
| FitMetarig.FirstFailing | __init__.py:201-243 | the exception of the first failing `bone_data` or meta-rig lookup, or none when every lookup succeeds |
| FitMetarig.PlaceHeels | __init__.py:201-229 | the heel step succeeds exactly when `bone_data` holds foot.L and foot.R and the meta-rig holds heel.02.L and heel.02.R, and then adds exactly the two heels. `PlaceHeelsRaise` and `PlaceHeelsWrites` give the exception and the poses |
| FitMetarig.PlacePelvis | __init__.py:231-239 | the pelvis step succeeds exactly when `bone_data` holds spine and the meta-rig holds pelvis.L and pelvis.R, and then adds exactly those two bones. `PlacePelvisRaise` and `PlacePelvisWrites` give the exception and the poses |
| FitMetarig.PlaceFace | __init__.py:241-248 | the face step succeeds exactly when the meta-rig has `face` with a parent and `bone_data` holds spine.006, and then adds exactly the face rig's bones. `PlaceFaceRaise` and `PlaceFaceWrites` give the exception and the poses |
| FitMetarig.FitTemplate | __init__.py:201-248 | on success the second half adds exactly the heels, the pelvis bones and the face rig to `bone_data`. `FitTemplateRaise`, `FitTemplateDerived` and `FitTemplateFace` give the exception and the poses |
| FitMetarig.PlaceHeelsRaise | __init__.py:202-229 | the heels raise exactly at the first failing lookup of foot.L, foot.R, heel.02.L and heel.02.R |
| FitMetarig.PlacePelvisRaise | __init__.py:231-239 | the pelvis raises exactly at the first failing lookup of spine, pelvis.L and pelvis.R |
| FitMetarig.PlaceFaceRaise | __init__.py:241-243 | the face rig raises at the first failing lookup of `face` and spine.006, or because `face` has no parent |
| FitMetarig.FitTemplateRaise | __init__.py:201-248 | the second half raises exactly when one of its nine lookups fails, with the first one's exception, or when `face` has no parent |
| FitMetarig.PlaceHeelsWrites | __init__.py:201-229 | the heels store heel.02.L and heel.02.R as derived and keep every other entry |
| FitMetarig.PlacePelvisWrites | __init__.py:231-239 | the pelvis stores pelvis.L and pelvis.R as derived and keeps every other entry |
| FitMetarig.PlaceFaceWrites | __init__.py:241-248 | the face rig is moved rigidly so that `face` starts at the head of spine.006. Every other entry is kept |
| FitMetarig.FitTemplateWrites | __init__.py:201-248 | the second half adds exactly the heels, the pelvis bones and the face rig to `bone_data`, and keeps every other entry |
| FitMetarig.FitTemplateDerived | __init__.py:201-239 | heels and pelvis bones are as derived unless the face rig overwrites them |
| FitMetarig.FitTemplateFace | __init__.py:241-248 | every face-rig bone is shifted by the offset from `face`'s head to the head of spine.006, the MLAB `head` bone |
| FitMetarig.ApplyIdempotent | __init__.py:250-258 | applying the same `bone_data` twice moves no bone further |
| FitMetarig.FitMetarigRaise | __init__.py:134-248 | on an armature the operator stops at the first missing MLAB bone. Otherwise it stops at the first missing meta-rig bone or a parentless `face`, and otherwise it fits |
| FitMetarig.FitMetarigFits | __init__.py:134-266 | the operator fits exactly on an armature with every MLAB bone it reads, with the meta-rig heels, pelvis and `face`, and with a parent of `face` |
| FitMetarig.FittedKeepsHierarchy | __init__.py:250-258 | the fitted meta-rig has the template's bones, parents and face rig |
| FitMetarig.FittedCopies | __init__.py:143-258 | every meta-rig bone of `metarig_bone_names`, outside the face rig, sits where its MLAB bone is |
| FitMetarig.FittedArms | __init__.py:147-258 | every arm bone sits where its MLAB bone is |
| FitMetarig.FittedCopiedLegs | __init__.py:178-258 | without straightening, every leg bone outside the face rig sits where its MLAB bone is |
| FitMetarig.FittedStraightLegs | __init__.py:153-258 | with straightening, each leg outside the face rig is the straightened MLAB leg |
| FitMetarig.FittedHeels | __init__.py:201-258 | the heels, outside the face rig, are centred on the MLAB feet at the MLAB object's y and z |
| FitMetarig.FittedPelvis | __init__.py:231-258 | the pelvis bones, outside the face rig, start at the MLAB pelvis head |
| FitMetarig.FittedFace | __init__.py:241-258 | the face rig is moved rigidly so that `face` starts at the MLAB head bone's head |
| FitMetarig.FittedLeavesOthers | __init__.py:250-258 | a meta-rig bone named by no table, derivation or face rig keeps its template placement |

## Left out

- Blender itself is a parameter or an outcome:
  - the active object is an `ObjectKind` plus its bones or group names;
  - `armature_human_metarig_add` is the `template` rig;
  - mode switches, selection and `{'FINISHED'}` are dropped;
  - printed errors are statuses: `NotAMesh`, the `missing` list, `NotAnArmature`, `FaceNotFound`.
- `bpy.ops.armature.delete()` is modelled by its effect on the selected bones.
- The panel, `register`, `unregister`, `bl_info` and the operator properties are UI. The defaults (straight legs on, knee offset 0.0) are inputs here.
- Floating point is modelled as exact reals.
- `Vector.length` and `Vector.normalized()` belong to the host and are the `VectorOps` parameter. Only `KneeOnLegLine` assumes anything about `normalized`.
- How Blender makes a clashing vertex-group name unique (the `.001` suffix) is the `Dedupe` parameter.
- VertexGroups.RenameForwardTranslates: proved only when no rename lands on a name another group already carries, since the host's choice of a new name is not modelled.
- VertexGroups.MlabToRigifyTranslates, VertexGroups.MlabToRigifyReports, VertexGroups.MlabToRigifyDefNames: same no-clash condition.
- VertexGroups.RigifyToMlabTranslates, VertexGroups.RigifyToMlabReports, VertexGroups.RigifyToMlabMlabNames: same no-clash condition, read backwards.
- VertexGroups.RenameRoundTrip, VertexGroups.RenameRoundTripBackward, VertexGroups.MlabRigifyRoundTrip, VertexGroups.RigifyMlabRoundTrip: stated only for meshes whose names avoid the other side's names, because otherwise the host renames clashing groups.
- Dict iteration is modelled as insertion order (Python 3.6 and later). The add-on declares Blender 2.79, which bundles Python 3.5, whose dicts iterate in hash order. So on its declared host the loops may visit the pairs in another order:
  - which missing MLAB bone is reported first can differ, and so can the order of the missing-group report and the order in which the two legs are straightened;
  - when no rename lands on a name a group already carries, the renamed groups come out the same, because the updated table has no rename chains;
  - when renames do land on taken names, the host's unique names depend on the order. On a mesh that already has a group `DEF-upper_arm.L`, the pairs `upperarm_twist_L: DEF-upper_arm.L` and `upperarm_L: DEF-upper_arm.L.001` can end as `.001` and `.002` in either assignment. The model gives the insertion-order outcome only.
- When the meta-rig operator stops part-way, the added meta-rig and the edit mode it is left in are not modelled. `Aborted` carries only the exception.
- Setting `head`/`tail` of a connected edit bone is modelled as plain assignment. Blender's own handling of connected bones is not modelled.
- Vector aliasing is not modelled:
  - the add-on stores one `Vector` object as both a thigh's tail and its shin's head, and one as both pelvis heads;
  - it never mutates them afterwards, so values suffice.
- FitMetarig.FittedCopies, FitMetarig.FittedArms, FitMetarig.FittedCopiedLegs, FitMetarig.FittedStraightLegs, FitMetarig.FittedHeels, FitMetarig.FittedPelvis: stated only for bones the template has and the face rig does not overwrite. The add-on's meta-rig meets both conditions, but it is a host parameter here.
