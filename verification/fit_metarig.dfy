/**
 * The "Rigify Meta-Rig for MLAB" operator: read the placement of the MLAB
 * skeleton's bones into `bone_data`, derive the heels, pelvis and face from
 * the freshly added human metarig (the template), and move every metarig
 * bone that has an entry in `bone_data` onto it.
 *
 * Every lookup that can raise in the add-on is modelled as a `Result`, and
 * the first one that raises ends the operator with that error.
 */
module FitMetarig {
  import opened Options
  import opened Host
  import opened NameTables
  import opened BoneTables
  import opened Geometry
  import opened Armature

  /** The exception that ends the operator part-way. */
  datatype FitError =
      /** `mlab_rig.data.edit_bones[name]` raises. */
    | SourceBoneMissing(name: string)
      /** `metarig_bone_leg_names[name]` or `bone_data[name]` raises. */
    | TableKeyMissing(name: string)
      /** `meta_rig.data.edit_bones[name]` raises. */
    | TemplateBoneMissing(name: string)
      /** `face.parent` is None, so `.children_recursive` raises. */
    | FaceHasNoParent

  datatype FitOutcome =
    | NotAnArmature
    | Aborted(error: FitError)
      /** The fitted metarig and the location it is placed at. */
    | Fitted(rig: Rig, location: Vec3)

  /** `Vector.length` and `Vector.normalized()`, supplied by the host. */
  datatype VectorOps = VectorOps(length: Vec3 -> real, normalized: Vec3 -> Vec3)

  /** `bone_data`: metarig bone -> (head, tail, roll). */
  type BoneData = map<string, Pose>

  /* ----- Lookups that can raise ----- */

  function SourcePose(src: Rig, name: string): Result<Pose, FitError> {
    if name in src then Success(src[name].pose) else Failure(SourceBoneMissing(name))
  }

  function TemplateBone(template: Rig, name: string): Result<Bone, FitError> {
    if name in template then Success(template[name]) else Failure(TemplateBoneMissing(name))
  }

  function DataPose(data: BoneData, name: string): Result<Pose, FitError> {
    if name in data then Success(data[name]) else Failure(TableKeyMissing(name))
  }

  function LegName(legNames: Table, name: string): Result<string, FitError> {
    match Get(legNames, name)
    case Some(v) => Success(v)
    case None => Failure(TableKeyMissing(name))
  }

  /** The values of a table in order. */
  function Values(t: Table): (r: seq<string>)
    ensures |r| == |t|
    ensures forall i | 0 <= i < |t| :: r[i] == t[i].value
  {
    seq(|t|, i requires 0 <= i < |t| => t[i].value)
  }

  /** The first of `names` not in `present`: the lookup that raises first. */
  function FirstMissing(names: seq<string>, present: set<string>): (r: Option<string>)
    ensures r.None? <==> forall i | 0 <= i < |names| :: names[i] in present
    ensures r.Some? ==> exists i | 0 <= i < |names| ::
      names[i] == r.value && r.value !in present && forall j | 0 <= j < i :: names[j] in present
    decreases |names|
  {
    if |names| == 0 then None
    else if names[0] !in present then Some(names[0])
    else
      var r := FirstMissing(names[1..], present);
      assert forall i | 1 <= i < |names| :: names[i] == names[1..][i - 1];
      if r.Some? then
        var k :| 0 <= k < |names[1..]| && names[1..][k] == r.value && r.value !in present
          && forall j | 0 <= j < k :: names[1..][j] in present;
        assert names[k + 1] == r.value;
        r
      else r
  }

  /** Looking up `a + b` in order raises at `a`'s first miss, or else at `b`'s. */
  lemma {:induction false} FirstMissingConcat(a: seq<string>, b: seq<string>, present: set<string>)
    ensures FirstMissing(a + b, present) ==
      if FirstMissing(a, present).Some? then FirstMissing(a, present) else FirstMissing(b, present)
    decreases |a|
  {
    if |a| > 0 {
      assert (a + b)[0] == a[0];
      assert (a + b)[1..] == a[1..] + b;
      FirstMissingConcat(a[1..], b, present);
    } else {
      assert a + b == b;
    }
  }

  /* ----- Reading the MLAB rig ----- */

  /**
   * The copy loop: for every `metarig_bone: mlab_bone` in order, store the
   * MLAB bone's pose under the metarig name; a missing MLAB bone raises.
   */
  function CopyBones(t: Table, src: Rig, data: BoneData): (r: Result<BoneData, FitError>)
    ensures r.Failure? <==> FirstMissing(Values(t), src.Keys).Some?
    ensures r.Failure? ==> r.error == SourceBoneMissing(FirstMissing(Values(t), src.Keys).value)
    ensures r.Success? ==> forall k :: k in r.value <==> k in data || HasKey(t, k)
    ensures r.Success? ==> forall k | k in data && !HasKey(t, k) :: r.value[k] == data[k]
    ensures r.Success? && KeysDistinct(t) ==>
      forall i | 0 <= i < |t| :: t[i].key in r.value && r.value[t[i].key] == src[t[i].value].pose
    decreases |t|
  {
    if |t| == 0 then Success(data)
    else
      var pose :- SourcePose(src, t[0].value);
      assert Values(t)[1..] == Values(t[1..]);
      assert forall j | 0 <= j < |t| - 1 :: t[1..][j] == t[j + 1];
      assert forall k :: HasKey(t, k) <==> k == t[0].key || HasKey(t[1..], k) by {
        forall k ensures HasKey(t, k) <==> k == t[0].key || HasKey(t[1..], k) {
          if HasKey(t, k) && k != t[0].key {
            var j :| 0 <= j < |t| && t[j].key == k;
            assert t[1..][j - 1].key == k;
          }
        }
      }
      CopyBones(t[1..], src, data[t[0].key := pose])
  }

  /**
   * The straightened knee: from the thigh head, the thigh's length along the
   * direction to the calf tail; then y is the calf head's y plus the offset.
   */
  function Knee(thigh: Pose, calf: Pose, kneeOffsetY: real, ops: VectorOps): (r: Vec3)
    ensures r.y == calf.head.y + kneeOffsetY
  {
    var along := Add(Scale(ops.length(Sub(thigh.tail, thigh.head)), ops.normalized(Sub(calf.tail, thigh.head))), thigh.head);
    Vec3(along.x, calf.head.y + kneeOffsetY, along.z)
  }

  /**
   * One pass of the straight-legs loop: thigh from the MLAB thigh head to
   * the knee, shin from the knee to the MLAB calf tail, rolls kept.
   */
  function StraightLeg(legNames: Table, data: BoneData, src: Rig, thighName: string, shinName: string,
                       kneeOffsetY: real, ops: VectorOps): (r: Result<BoneData, FitError>)
    ensures r.Success? ==> r.value.Keys == data.Keys + {thighName, shinName}
    ensures r.Success? ==> forall k | k in data && k != thighName && k != shinName :: r.value[k] == data[k]
    ensures r.Success? && thighName != shinName ==> r.value[thighName].tail == r.value[shinName].head
  {
    var mlabThigh :- LegName(legNames, thighName);
    var mlabShin :- LegName(legNames, shinName);
    var thigh :- SourcePose(src, mlabThigh);
    var calf :- SourcePose(src, mlabShin);
    var knee := Knee(thigh, calf, kneeOffsetY, ops);
    Success(data[thighName := Pose(thigh.head, knee, thigh.roll)][shinName := Pose(knee, calf.tail, calf.roll)])
  }

  /** The leg bones: straightened, or copied like the others. */
  function Legs(legNames: Table, data: BoneData, src: Rig, straightLegs: bool, kneeOffsetY: real, ops: VectorOps)
    : (r: Result<BoneData, FitError>)
    ensures r.Success? ==> data.Keys <= r.value.Keys
    ensures r.Success? && straightLegs ==> KneesJoined(r.value)
  {
    if straightLegs then
      var left :- StraightLeg(legNames, data, src, "thigh.L", "shin.L", kneeOffsetY, ops);
      StraightLeg(legNames, left, src, "thigh.R", "shin.R", kneeOffsetY, ops)
    else
      CopyBones(legNames, src, data)
  }

  /** Each straightened thigh ends where its shin starts. */
  predicate KneesJoined(d: BoneData) {
    && "thigh.L" in d && "shin.L" in d && d["thigh.L"].tail == d["shin.L"].head
    && "thigh.R" in d && "shin.R" in d && d["thigh.R"].tail == d["shin.R"].head
  }

  /** The first half of the operator, run on the MLAB armature: `bone_data` as read. */
  function ReadSource(src: Rig, straightLegs: bool, kneeOffsetY: real, ops: VectorOps): (r: Result<BoneData, FitError>)
    ensures r.Success? ==> "foot_L" in src && "foot_R" in src
    ensures r.Success? && straightLegs ==> KneesJoined(r.value)
  {
    ReadBones(MetarigBoneNames, MetarigBoneArmNames, MetarigBoneLegNames, src, straightLegs, kneeOffsetY, ops)
  }

  /** The first half over given copy tables. */
  function ReadBones(metarigNames: Table, armNames: Table, legNames: Table, src: Rig, straightLegs: bool, kneeOffsetY: real,
                     ops: VectorOps): (r: Result<BoneData, FitError>)
    ensures r.Success? ==> "foot_L" in src && "foot_R" in src
    ensures r.Success? ==> forall i | 0 <= i < |metarigNames| :: metarigNames[i].value in src
    ensures r.Success? ==> forall i | 0 <= i < |armNames| :: armNames[i].value in src
    ensures r.Success? && straightLegs ==> KneesJoined(r.value)
  {
    var metarig :- CopyBones(metarigNames, src, map[]);
    var arms :- CopyBones(armNames, src, metarig);
    var legs :- Legs(legNames, arms, src, straightLegs, kneeOffsetY, ops);
    var footL :- SourcePose(src, "foot_L");
    var footR :- SourcePose(src, "foot_R");
    Success(legs)
  }

  /* ----- Deriving bones from the template ----- */

  /**
   * A heel of the metarig: centred in x on the MLAB foot head with its
   * template x extent, flat at the MLAB object's y and z, template roll.
   */
  function HeelPose(template: Pose, footX: real, location: Vec3): (r: Pose)
    ensures r.head.x + r.tail.x == 2.0 * footX
    ensures r.tail.x - r.head.x == template.tail.x - template.head.x
    ensures r.head.y == location.y && r.tail.y == location.y
    ensures r.head.z == location.z && r.tail.z == location.z
    ensures r.roll == template.roll
  {
    Pose(Vec3((template.head.x - template.tail.x) / 2.0 + footX, location.y, location.z),
         Vec3((template.tail.x - template.head.x) / 2.0 + footX, location.y, location.z),
         template.roll)
  }

  /** A pelvis bone of the metarig: the template bone moved to start at `head`. */
  function PelvisPose(template: Pose, head: Vec3): (r: Pose)
    ensures r.head == head
    ensures Sub(r.tail, r.head) == Sub(template.tail, template.head)
    ensures r.roll == template.roll
  {
    Pose(head, Add(Sub(template.tail, template.head), head), template.roll)
  }

  /** A template bone moved by `-offset`. */
  function Shifted(template: Pose, offset: Vec3): (r: Pose)
    ensures Add(r.head, offset) == template.head && Add(r.tail, offset) == template.tail
    ensures Sub(r.tail, r.head) == Sub(template.tail, template.head)
    ensures r.roll == template.roll
  {
    Pose(Sub(template.head, offset), Sub(template.tail, offset), template.roll)
  }

  function FaceParent(face: Bone): Result<string, FitError> {
    match face.parent
    case Some(p) => Success(p)
    case None => Failure(FaceHasNoParent)
  }

  /** The face rig's bones: every bone below the parent of "face". */
  function FaceBones(template: Rig): set<string> {
    if "face" in template && template["face"].parent.Some?
    then Descendants(template, template["face"].parent.value)
    else {}
  }

  /** The heels: centred on the MLAB feet, on the ground at the MLAB object's location. */
  function PlaceHeels(template: Rig, data: BoneData, location: Vec3): (r: Result<BoneData, FitError>)
    ensures r.Success? <==> "foot.L" in data && "foot.R" in data && "heel.02.L" in template && "heel.02.R" in template
    ensures r.Success? ==> r.value.Keys == data.Keys + {"heel.02.L", "heel.02.R"}
  {
    var footL :- DataPose(data, "foot.L");
    var footR :- DataPose(data, "foot.R");
    var heelL :- TemplateBone(template, "heel.02.L");
    var withHeelL := data["heel.02.L" := HeelPose(heelL.pose, footL.head.x, location)];
    var heelR :- TemplateBone(template, "heel.02.R");
    Success(withHeelL["heel.02.R" := HeelPose(heelR.pose, footR.head.x, location)])
  }

  /** The pelvis bones: moved to start at the head of "spine". */
  function PlacePelvis(template: Rig, data: BoneData): (r: Result<BoneData, FitError>)
    ensures r.Success? <==> "spine" in data && "pelvis.L" in template && "pelvis.R" in template
    ensures r.Success? ==> r.value.Keys == data.Keys + {"pelvis.L", "pelvis.R"}
  {
    var spine :- DataPose(data, "spine");
    var pelvisL :- TemplateBone(template, "pelvis.L");
    var withPelvisL := data["pelvis.L" := PelvisPose(pelvisL.pose, spine.head)];
    var pelvisR :- TemplateBone(template, "pelvis.R");
    Success(withPelvisL["pelvis.R" := PelvisPose(pelvisR.pose, spine.head)])
  }

  /**
   * The face rig: every bone below the parent of "face", moved so that
   * "face" starts at the head of "spine.006", the MLAB `head` bone.
   */
  function PlaceFace(template: Rig, data: BoneData): (r: Result<BoneData, FitError>)
    ensures r.Success? <==> "face" in template && "spine.006" in data && template["face"].parent.Some?
    ensures r.Success? ==> r.value.Keys == data.Keys + FaceBones(template)
  {
    var face :- TemplateBone(template, "face");
    var headBone :- DataPose(data, "spine.006");
    var offset := Sub(face.pose.head, headBone.head);
    var parent :- FaceParent(face);
    var faceBones := Descendants(template, parent);
    Success(data + map b | b in faceBones :: Shifted(template[b].pose, offset))
  }

  /** The second half of the operator, on the template: add heels, pelvis and face rig to `bone_data`. */
  function FitTemplate(template: Rig, data: BoneData, location: Vec3): (r: Result<BoneData, FitError>)
    ensures r.Success? ==> r.value.Keys == data.Keys + {"heel.02.L", "heel.02.R", "pelvis.L", "pelvis.R"} + FaceBones(template)
  {
    var withHeels :- PlaceHeels(template, data, location);
    var withPelvis :- PlacePelvis(template, withHeels);
    PlaceFace(template, withPelvis)
  }

  /** The final loop: every template bone with an entry in `bone_data` takes it. */
  function Apply(template: Rig, data: BoneData): (r: Rig)
    ensures SameHierarchy(r, template)
    ensures forall b | b in r && b in data :: r[b].pose == data[b]
    ensures forall b | b in r && b !in data :: r[b] == template[b]
  {
    map b | b in template :: if b in data then Bone(data[b], template[b].parent) else template[b]
  }

  /**
   * The operator: on an armature, read it, add the human metarig at its
   * location and fit the metarig to it; on anything else, report and stop.
   */
  function FitMetarig(kind: ObjectKind, src: Rig, location: Vec3, template: Rig,
                      straightLegs: bool, kneeOffsetY: real, ops: VectorOps): (r: FitOutcome)
    ensures r.NotAnArmature? <==> kind != Armature
    ensures r.Fitted? ==> r.location == location
  {
    if kind != Armature then NotAnArmature
    else match ReadSource(src, straightLegs, kneeOffsetY, ops)
      case Failure(e) => Aborted(e)
      case Success(data) =>
        match FitTemplate(template, data, location)
        case Failure(e) => Aborted(e)
        case Success(fitted) => Fitted(Apply(template, fitted), location)
  }

  /* ----- The leg table ----- */

  /** The metarig leg bones, the keys of `metarig_bone_leg_names`. */
  const LegBones: set<string> := {"thigh.L", "shin.L", "thigh.R", "shin.R"}

  /** A table with the keys of `metarig_bone_leg_names`, in its order. */
  predicate LegTable(l: Table) {
    && |l| == 4
    && l[0].key == "thigh.L" && l[1].key == "shin.L"
    && l[2].key == "thigh.R" && l[3].key == "shin.R"
  }

  /** What the straight-legs loop reads from such a table. */
  lemma LegTableLookups(l: Table)
    requires LegTable(l)
    ensures KeysDistinct(l)
    ensures LegName(l, "thigh.L") == Success(l[0].value) && LegName(l, "shin.L") == Success(l[1].value)
    ensures LegName(l, "thigh.R") == Success(l[2].value) && LegName(l, "shin.R") == Success(l[3].value)
    ensures Values(l) == [l[0].value, l[1].value, l[2].value, l[3].value]
  {
  }

  lemma LegTableKeys(l: Table, k: string)
    requires LegTable(l)
    ensures HasKey(l, k) <==> k in LegBones
  {
    if k == "thigh.L" {
      assert l[0].key == k;
    } else if k == "shin.L" {
      assert l[1].key == k;
    } else if k == "thigh.R" {
      assert l[2].key == k;
    } else if k == "shin.R" {
      assert l[3].key == k;
    }
  }

  /** `metarig_bone_leg_names` pairs each leg bone with its MLAB bone. */
  lemma MetarigBoneLegNamesShape()
    ensures LegTable(MetarigBoneLegNames)
    ensures Values(MetarigBoneLegNames) == ["thigh_L", "calf_L", "thigh_R", "calf_R"]
  {
  }

  /** The second half derives no leg bone. */
  lemma LegBonesNotDerived()
    ensures LegBones !! DerivedBones
  {
  }

  lemma LegKeysNotDerived()
    ensures |MetarigBoneLegNames| == 4
    ensures forall i | 0 <= i < 4 :: MetarigBoneLegNames[i].key !in DerivedBones
  {
  }

  /* ----- Reading the MLAB rig: what the leg branches raise and store ----- */

  /** One straightened leg looks up two MLAB bones, stores two metarig bones, and changes nothing else. */
  lemma StraightLegSpec(l: Table, data: BoneData, src: Rig, thighName: string, shinName: string,
                        mlabThigh: string, mlabShin: string, kneeOffsetY: real, ops: VectorOps)
    requires LegName(l, thighName) == Success(mlabThigh) && LegName(l, shinName) == Success(mlabShin)
    ensures var r := StraightLeg(l, data, src, thighName, shinName, kneeOffsetY, ops);
      && (r.Failure? <==> FirstMissing([mlabThigh, mlabShin], src.Keys).Some?)
      && (r.Failure? ==> r.error == SourceBoneMissing(FirstMissing([mlabThigh, mlabShin], src.Keys).value))
      && (r.Success? ==> r.value.Keys == data.Keys + {thighName, shinName})
      && (r.Success? ==> forall k | k in data && k != thighName && k != shinName :: r.value[k] == data[k])
  {
    assert [mlabThigh, mlabShin][1..] == [mlabShin];
  }

  /**
   * The straightened thigh runs from the MLAB thigh head to the knee and the
   * shin from the knee to the MLAB calf tail, each keeping its MLAB roll.
   */
  lemma StraightLegPoses(l: Table, data: BoneData, src: Rig, thighName: string, shinName: string,
                         mlabThigh: string, mlabShin: string, kneeOffsetY: real, ops: VectorOps)
    requires LegName(l, thighName) == Success(mlabThigh) && LegName(l, shinName) == Success(mlabShin)
    requires thighName != shinName
    requires StraightLeg(l, data, src, thighName, shinName, kneeOffsetY, ops).Success?
    ensures mlabThigh in src && mlabShin in src
    ensures var r := StraightLeg(l, data, src, thighName, shinName, kneeOffsetY, ops).value;
      var thigh := src[mlabThigh].pose;
      var calf := src[mlabShin].pose;
      var knee := Knee(thigh, calf, kneeOffsetY, ops);
      && r[thighName] == Pose(thigh.head, knee, thigh.roll)
      && r[shinName] == Pose(knee, calf.tail, calf.roll)
  {
  }

  /**
   * Both branches for the legs look up the same MLAB bones in the same
   * order, and raise at the same first miss.
   */
  lemma LegsRaise(l: Table, data: BoneData, src: Rig, straightLegs: bool, kneeOffsetY: real, ops: VectorOps)
    requires LegTable(l)
    ensures var r := Legs(l, data, src, straightLegs, kneeOffsetY, ops);
      && (r.Failure? <==> FirstMissing(Values(l), src.Keys).Some?)
      && (r.Failure? ==> r.error == SourceBoneMissing(FirstMissing(Values(l), src.Keys).value))
  {
    LegTableLookups(l);
    if straightLegs {
      FirstMissingConcat([l[0].value, l[1].value], [l[2].value, l[3].value], src.Keys);
      assert [l[0].value, l[1].value] + [l[2].value, l[3].value] == Values(l);
      StraightLegSpec(l, data, src, "thigh.L", "shin.L", l[0].value, l[1].value, kneeOffsetY, ops);
      var left := StraightLeg(l, data, src, "thigh.L", "shin.L", kneeOffsetY, ops);
      if left.Success? {
        StraightLegSpec(l, left.value, src, "thigh.R", "shin.R", l[2].value, l[3].value, kneeOffsetY, ops);
      }
    }
  }

  lemma StraightLegsStore(l: Table, data: BoneData, src: Rig, kneeOffsetY: real, ops: VectorOps)
    requires LegTable(l)
    ensures var r := Legs(l, data, src, true, kneeOffsetY, ops);
      && (r.Success? ==> r.value.Keys == data.Keys + LegBones)
      && (r.Success? ==> forall k | k in data && k !in LegBones :: r.value[k] == data[k])
  {
    LegTableLookups(l);
    StraightLegSpec(l, data, src, "thigh.L", "shin.L", l[0].value, l[1].value, kneeOffsetY, ops);
    var left := StraightLeg(l, data, src, "thigh.L", "shin.L", kneeOffsetY, ops);
    if left.Success? {
      StraightLegSpec(l, left.value, src, "thigh.R", "shin.R", l[2].value, l[3].value, kneeOffsetY, ops);
    }
  }

  lemma CopiedLegsStore(l: Table, data: BoneData, src: Rig, kneeOffsetY: real, ops: VectorOps)
    requires LegTable(l)
    ensures var r := Legs(l, data, src, false, kneeOffsetY, ops);
      && (r.Success? ==> r.value.Keys == data.Keys + LegBones)
      && (r.Success? ==> forall k | k in data && k !in LegBones :: r.value[k] == data[k])
  {
    forall k {
      LegTableKeys(l, k);
    }
  }

  /** Both branches store the four leg bones and leave every other entry alone. */
  lemma LegsStore(l: Table, data: BoneData, src: Rig, straightLegs: bool, kneeOffsetY: real, ops: VectorOps)
    requires LegTable(l)
    ensures var r := Legs(l, data, src, straightLegs, kneeOffsetY, ops);
      && (r.Success? ==> r.value.Keys == data.Keys + LegBones)
      && (r.Success? ==> forall k | k in data && k !in LegBones :: r.value[k] == data[k])
  {
    if straightLegs {
      StraightLegsStore(l, data, src, kneeOffsetY, ops);
    } else {
      CopiedLegsStore(l, data, src, kneeOffsetY, ops);
    }
  }

  /** With straight legs, each leg is straightened from its own MLAB thigh and calf. */
  lemma StraightLegsPoses(l: Table, data: BoneData, src: Rig, kneeOffsetY: real, ops: VectorOps)
    requires LegTable(l)
    requires Legs(l, data, src, true, kneeOffsetY, ops).Success?
    ensures forall i | 0 <= i < 4 :: l[i].value in src
    ensures var r := Legs(l, data, src, true, kneeOffsetY, ops).value;
      && StraightPair(r, "thigh.L", "shin.L", src[l[0].value].pose, src[l[1].value].pose, kneeOffsetY, ops)
      && StraightPair(r, "thigh.R", "shin.R", src[l[2].value].pose, src[l[3].value].pose, kneeOffsetY, ops)
  {
    LegTableLookups(l);
    var left := StraightLeg(l, data, src, "thigh.L", "shin.L", kneeOffsetY, ops);
    StraightLegPoses(l, data, src, "thigh.L", "shin.L", l[0].value, l[1].value, kneeOffsetY, ops);
    StraightLegSpec(l, left.value, src, "thigh.R", "shin.R", l[2].value, l[3].value, kneeOffsetY, ops);
    StraightLegPoses(l, left.value, src, "thigh.R", "shin.R", l[2].value, l[3].value, kneeOffsetY, ops);
  }

  /** The thigh and shin stored for one straightened leg. */
  predicate StraightPair(d: BoneData, thighName: string, shinName: string, thigh: Pose, calf: Pose,
                         kneeOffsetY: real, ops: VectorOps) {
    var knee := Knee(thigh, calf, kneeOffsetY, ops);
    && thighName in d && d[thighName] == Pose(thigh.head, knee, thigh.roll)
    && shinName in d && d[shinName] == Pose(knee, calf.tail, calf.roll)
  }

  /**
   * When `normalized` keeps a vector's direction, the knee lies, seen from
   * above the xz plane, on the line from the thigh head to the calf tail.
   */
  lemma KneeOnLegLine(thigh: Pose, calf: Pose, kneeOffsetY: real, ops: VectorOps, c: real)
    requires ops.normalized(Sub(calf.tail, thigh.head)) == Scale(c, Sub(calf.tail, thigh.head))
    ensures var knee := Knee(thigh, calf, kneeOffsetY, ops);
      var d := Sub(calf.tail, thigh.head);
      && (knee.x - thigh.head.x) * d.z == (knee.z - thigh.head.z) * d.x
      && knee.y == calf.head.y + kneeOffsetY
  {
    var d := Sub(calf.tail, thigh.head);
    var s := ops.length(Sub(thigh.tail, thigh.head)) * c;
    var knee := Knee(thigh, calf, kneeOffsetY, ops);
    assert knee.x - thigh.head.x == s * d.x;
    assert knee.z - thigh.head.z == s * d.z;
    assert (s * d.x) * d.z == (s * d.z) * d.x;
  }

  /* ----- Facts about the other literal tables ----- */

  /** The metarig bones `metarig_bone_arm_names` fills. */
  const ArmBones: set<string> := {"upper_arm.L", "forearm.L", "upper_arm.R", "forearm.R"}

  /** The metarig bones the operator derives from the template. */
  const DerivedBones: set<string> := {"heel.02.L", "heel.02.R", "pelvis.L", "pelvis.R"}

  lemma ArmKeys(k: string)
    ensures HasKey(MetarigBoneArmNames, k) <==> k in ArmBones
  {
    if k == "upper_arm.L" {
      assert MetarigBoneArmNames[0].key == k;
    } else if k == "forearm.L" {
      assert MetarigBoneArmNames[1].key == k;
    } else if k == "upper_arm.R" {
      assert MetarigBoneArmNames[2].key == k;
    } else if k == "forearm.R" {
      assert MetarigBoneArmNames[3].key == k;
    }
  }

  lemma ArmTableFacts()
    ensures KeysDistinct(MetarigBoneArmNames)
    ensures forall i | 0 <= i < 4 :: MetarigBoneArmNames[i].key !in LegBones && MetarigBoneArmNames[i].key !in DerivedBones
  {
  }

  lemma TorsoKeysNotFilledElsewhere()
    ensures forall i | 0 <= i < 6 ::
      TorsoBoneNames[i].key !in ArmBones && TorsoBoneNames[i].key !in LegBones && TorsoBoneNames[i].key !in DerivedBones
  {
  }

  lemma LeftSideKeysNotFilledElsewhere()
    ensures forall i | 0 <= i < 24 ::
      LeftSideBoneNames[i].key !in ArmBones && LeftSideBoneNames[i].key !in LegBones && LeftSideBoneNames[i].key !in DerivedBones
  {
  }

  lemma RightSideKeysNotFilledElsewhere()
    ensures forall i | 0 <= i < 24 ::
      RightSideBoneNames[i].key !in ArmBones && RightSideBoneNames[i].key !in LegBones && RightSideBoneNames[i].key !in DerivedBones
  {
  }

  /** Only the derived bones and the face rig are written after the copy loops. */
  lemma MetarigKeysNotFilledElsewhere()
    ensures forall i | 0 <= i < |MetarigBoneNames| ::
      MetarigBoneNames[i].key !in ArmBones && MetarigBoneNames[i].key !in LegBones && MetarigBoneNames[i].key !in DerivedBones
  {
    TableSizes();
    TorsoKeysNotFilledElsewhere();
    LeftSideKeysNotFilledElsewhere();
    RightSideKeysNotFilledElsewhere();
    forall i | 0 <= i < 54
      ensures MetarigBoneNames[i].key !in ArmBones && MetarigBoneNames[i].key !in LegBones && MetarigBoneNames[i].key !in DerivedBones
    {
      if i < 6 {
        assert MetarigBoneNames[i] == TorsoBoneNames[i];
      } else if i < 30 {
        assert MetarigBoneNames[i] == LeftSideBoneNames[i - 6];
      } else {
        assert MetarigBoneNames[i] == RightSideBoneNames[i - 30];
      }
    }
  }

  /** The four `bone_data` entries the template half reads. */
  lemma MetarigEntriesRead()
    ensures MetarigBoneNames[0] == Entry("spine", "pelvis")
    ensures MetarigBoneNames[4] == Entry("spine.006", "head")
    ensures MetarigBoneNames[7] == Entry("foot.L", "foot_L")
    ensures MetarigBoneNames[31] == Entry("foot.R", "foot_R")
  {
    assert MetarigBoneNames[7] == LeftSideBoneNames[1];
    assert MetarigBoneNames[31] == RightSideBoneNames[1];
  }

  /* ----- The first half, as a whole ----- */

  /** The stages of a first half that does not raise. */
  lemma ReadBonesStages(m: Table, a: Table, l: Table, src: Rig, straightLegs: bool, kneeOffsetY: real, ops: VectorOps)
    requires ReadBones(m, a, l, src, straightLegs, kneeOffsetY, ops).Success?
    ensures CopyBones(m, src, map[]).Success?
    ensures var metarig := CopyBones(m, src, map[]).value;
      && CopyBones(a, src, metarig).Success?
      && var arms := CopyBones(a, src, metarig).value;
      && Legs(l, arms, src, straightLegs, kneeOffsetY, ops).Success?
      && ReadBones(m, a, l, src, straightLegs, kneeOffsetY, ops).value == Legs(l, arms, src, straightLegs, kneeOffsetY, ops).value
  {
    var metarig := CopyBones(m, src, map[]);
    assert metarig.Success?;
    var arms := CopyBones(a, src, metarig.value);
    assert arms.Success?;
    var legs := Legs(l, arms.value, src, straightLegs, kneeOffsetY, ops);
    assert legs.Success?;
    assert SourcePose(src, "foot_L").Success? && SourcePose(src, "foot_R").Success?;
  }

  /**
   * Reading raises exactly when one of the bones it looks up is missing, and
   * then at the first of them in lookup order, when the MLAB feet are among
   * the bones the first table copies.
   */
  lemma ReadBonesRaise(m: Table, a: Table, l: Table, src: Rig, straightLegs: bool, kneeOffsetY: real, ops: VectorOps)
    requires LegTable(l)
    requires "foot_L" in Values(m) && "foot_R" in Values(m)
    ensures var r := ReadBones(m, a, l, src, straightLegs, kneeOffsetY, ops);
      var lookups := Values(m) + Values(a) + Values(l);
      && (r.Failure? <==> FirstMissing(lookups, src.Keys).Some?)
      && (r.Failure? ==> r.error == SourceBoneMissing(FirstMissing(lookups, src.Keys).value))
  {
    FirstMissingConcat(Values(m) + Values(a), Values(l), src.Keys);
    FirstMissingConcat(Values(m), Values(a), src.Keys);
    var metarig := CopyBones(m, src, map[]);
    if metarig.Success? {
      var arms := CopyBones(a, src, metarig.value);
      if arms.Success? {
        LegsRaise(l, arms.value, src, straightLegs, kneeOffsetY, ops);
      }
    }
  }

  /** A copied entry no later stage writes keeps its copied pose. */
  lemma CopiedEntrySurvives(t: Table, src: Rig, d0: BoneData, d1: BoneData, arms: BoneData, legs: BoneData, k: string, v: string)
    requires KeysDistinct(t) && Entry(k, v) in t
    requires CopyBones(t, src, d0) == Success(d1)
    requires forall x | x in d1 && x !in ArmBones :: x in arms && arms[x] == d1[x]
    requires forall x | x in arms && x !in LegBones :: x in legs && legs[x] == arms[x]
    requires k !in ArmBones && k !in LegBones
    ensures k in legs && legs[k] == src[v].pose
  {
  }

  /** What the first half stores for the pairs of the first table. */
  lemma ReadBonesCopies(m: Table, a: Table, l: Table, src: Rig, straightLegs: bool, kneeOffsetY: real, ops: VectorOps)
    requires LegTable(l)
    requires ReadBones(m, a, l, src, straightLegs, kneeOffsetY, ops).Success?
    requires KeysDistinct(m) && forall k :: HasKey(a, k) <==> k in ArmBones
    requires forall i | 0 <= i < |m| :: m[i].key !in ArmBones && m[i].key !in LegBones
    ensures var data := ReadBones(m, a, l, src, straightLegs, kneeOffsetY, ops).value;
      forall i | 0 <= i < |m| :: m[i].key in data && data[m[i].key] == src[m[i].value].pose
  {
    ReadBonesStages(m, a, l, src, straightLegs, kneeOffsetY, ops);
    var metarig := CopyBones(m, src, map[]).value;
    var arms := CopyBones(a, src, metarig).value;
    var legs := Legs(l, arms, src, straightLegs, kneeOffsetY, ops).value;
    LegsStore(l, arms, src, straightLegs, kneeOffsetY, ops);
    forall i | 0 <= i < |m| ensures m[i].key in legs && legs[m[i].key] == src[m[i].value].pose {
      CopiedEntrySurvives(m, src, map[], metarig, arms, legs, m[i].key, m[i].value);
    }
  }

  /** What the first half stores for the pairs of the second table. */
  lemma ReadBonesArms(m: Table, a: Table, l: Table, src: Rig, straightLegs: bool, kneeOffsetY: real, ops: VectorOps)
    requires LegTable(l)
    requires ReadBones(m, a, l, src, straightLegs, kneeOffsetY, ops).Success?
    requires KeysDistinct(a) && forall i | 0 <= i < |a| :: a[i].key !in LegBones
    ensures var data := ReadBones(m, a, l, src, straightLegs, kneeOffsetY, ops).value;
      forall i | 0 <= i < |a| :: a[i].key in data && data[a[i].key] == src[a[i].value].pose
  {
    ReadBonesStages(m, a, l, src, straightLegs, kneeOffsetY, ops);
    var metarig := CopyBones(m, src, map[]).value;
    var arms := CopyBones(a, src, metarig).value;
    LegsStore(l, arms, src, straightLegs, kneeOffsetY, ops);
  }

  /** Without straightening, the leg pairs are copied like the others. */
  lemma ReadBonesCopiedLegs(m: Table, a: Table, l: Table, src: Rig, straightLegs: bool, kneeOffsetY: real, ops: VectorOps)
    requires !straightLegs
    requires LegTable(l)
    requires ReadBones(m, a, l, src, straightLegs, kneeOffsetY, ops).Success?
    ensures forall i | 0 <= i < |l| :: l[i].value in src
    ensures var data := ReadBones(m, a, l, src, straightLegs, kneeOffsetY, ops).value;
      forall i | 0 <= i < |l| :: l[i].key in data && data[l[i].key] == src[l[i].value].pose
  {
    ReadBonesStages(m, a, l, src, straightLegs, kneeOffsetY, ops);
    LegTableLookups(l);
  }

  /** With straightening, the leg pairs are straightened instead. */
  lemma ReadBonesStraightLegs(m: Table, a: Table, l: Table, src: Rig, straightLegs: bool, kneeOffsetY: real, ops: VectorOps)
    requires straightLegs
    requires LegTable(l)
    requires ReadBones(m, a, l, src, straightLegs, kneeOffsetY, ops).Success?
    ensures forall i | 0 <= i < 4 :: l[i].value in src
    ensures var data := ReadBones(m, a, l, src, straightLegs, kneeOffsetY, ops).value;
      && StraightPair(data, "thigh.L", "shin.L", src[l[0].value].pose, src[l[1].value].pose, kneeOffsetY, ops)
      && StraightPair(data, "thigh.R", "shin.R", src[l[2].value].pose, src[l[3].value].pose, kneeOffsetY, ops)
  {
    ReadBonesStages(m, a, l, src, straightLegs, kneeOffsetY, ops);
    var metarig := CopyBones(m, src, map[]).value;
    var arms := CopyBones(a, src, metarig).value;
    StraightLegsPoses(l, arms, src, kneeOffsetY, ops);
  }

  /* ----- The first half on the add-on's tables ----- */

  /** The MLAB bones the operator looks up, in the order it looks them up. */
  function SourceLookups(): seq<string> {
    Values(MetarigBoneNames) + Values(MetarigBoneArmNames) + Values(MetarigBoneLegNames)
  }

  /**
   * Reading the MLAB rig raises exactly when one of the bones it looks up
   * is missing, and then at the first of them in lookup order.
   */
  lemma ReadSourceRaise(src: Rig, straightLegs: bool, kneeOffsetY: real, ops: VectorOps)
    ensures var r := ReadSource(src, straightLegs, kneeOffsetY, ops);
      && (r.Failure? <==> FirstMissing(SourceLookups(), src.Keys).Some?)
      && (r.Failure? ==> r.error == SourceBoneMissing(FirstMissing(SourceLookups(), src.Keys).value))
  {
    MetarigEntriesRead();
    MetarigBoneLegNamesShape();
    var vm := Values(MetarigBoneNames);
    assert vm[7] == "foot_L" && vm[31] == "foot_R";
    ReadBonesRaise(MetarigBoneNames, MetarigBoneArmNames, MetarigBoneLegNames, src, straightLegs, kneeOffsetY, ops);
  }

  /** `bone_data` after the first half: the MLAB pose of every metarig pair. */
  lemma ReadSourceCopies(src: Rig, straightLegs: bool, kneeOffsetY: real, ops: VectorOps)
    requires ReadSource(src, straightLegs, kneeOffsetY, ops).Success?
    ensures var data := ReadSource(src, straightLegs, kneeOffsetY, ops).value;
      forall i | 0 <= i < |MetarigBoneNames| ::
        MetarigBoneNames[i].key in data && data[MetarigBoneNames[i].key] == src[MetarigBoneNames[i].value].pose
  {
    MetarigBoneNamesDistinct();
    MetarigKeysNotFilledElsewhere();
    MetarigBoneLegNamesShape();
    forall k {
      ArmKeys(k);
    }
    ReadBonesCopies(MetarigBoneNames, MetarigBoneArmNames, MetarigBoneLegNames, src, straightLegs, kneeOffsetY, ops);
  }

  /** ... and the MLAB pose of every arm pair. */
  lemma ReadSourceArms(src: Rig, straightLegs: bool, kneeOffsetY: real, ops: VectorOps)
    requires ReadSource(src, straightLegs, kneeOffsetY, ops).Success?
    ensures var data := ReadSource(src, straightLegs, kneeOffsetY, ops).value;
      forall i | 0 <= i < |MetarigBoneArmNames| ::
        MetarigBoneArmNames[i].key in data && data[MetarigBoneArmNames[i].key] == src[MetarigBoneArmNames[i].value].pose
  {
    ArmTableFacts();
    MetarigBoneLegNamesShape();
    ReadBonesArms(MetarigBoneNames, MetarigBoneArmNames, MetarigBoneLegNames, src, straightLegs, kneeOffsetY, ops);
  }

  /** ... and, without straightening, of every leg pair. */
  lemma ReadSourceCopiedLegs(src: Rig, straightLegs: bool, kneeOffsetY: real, ops: VectorOps)
    requires !straightLegs
    requires ReadSource(src, straightLegs, kneeOffsetY, ops).Success?
    ensures forall i | 0 <= i < |MetarigBoneLegNames| :: MetarigBoneLegNames[i].value in src
    ensures var data := ReadSource(src, straightLegs, kneeOffsetY, ops).value;
      forall i | 0 <= i < |MetarigBoneLegNames| ::
        MetarigBoneLegNames[i].key in data && data[MetarigBoneLegNames[i].key] == src[MetarigBoneLegNames[i].value].pose
  {
    MetarigBoneLegNamesShape();
    ReadBonesCopiedLegs(MetarigBoneNames, MetarigBoneArmNames, MetarigBoneLegNames, src, straightLegs, kneeOffsetY, ops);
  }

  /** With straightening, thighs and shins are rebuilt from MLAB thighs and calves. */
  lemma ReadSourceStraightLegs(src: Rig, straightLegs: bool, kneeOffsetY: real, ops: VectorOps)
    requires straightLegs
    requires ReadSource(src, straightLegs, kneeOffsetY, ops).Success?
    ensures "thigh_L" in src && "calf_L" in src && "thigh_R" in src && "calf_R" in src
    ensures var data := ReadSource(src, straightLegs, kneeOffsetY, ops).value;
      && StraightPair(data, "thigh.L", "shin.L", src["thigh_L"].pose, src["calf_L"].pose, kneeOffsetY, ops)
      && StraightPair(data, "thigh.R", "shin.R", src["thigh_R"].pose, src["calf_R"].pose, kneeOffsetY, ops)
  {
    MetarigBoneLegNamesShape();
    ReadBonesStraightLegs(MetarigBoneNames, MetarigBoneArmNames, MetarigBoneLegNames, src, straightLegs, kneeOffsetY, ops);
  }

  /* ----- The second half: what it raises ----- */

  /** A lookup the second half makes: in `bone_data`, or among the template's bones. */
  datatype Lookup = InData(name: string) | InTemplate(name: string)

  const HeelLookups: seq<Lookup> := [InData("foot.L"), InData("foot.R"), InTemplate("heel.02.L"), InTemplate("heel.02.R")]

  const PelvisLookups: seq<Lookup> := [InData("spine"), InTemplate("pelvis.L"), InTemplate("pelvis.R")]

  const FaceLookups: seq<Lookup> := [InTemplate("face"), InData("spine.006")]

  /** The second half's lookups, in the order it makes them. */
  const TemplateLookups: seq<Lookup> := HeelLookups + PelvisLookups + FaceLookups

  predicate Found(x: Lookup, template: Rig, data: BoneData) {
    match x
    case InData(n) => n in data
    case InTemplate(n) => n in template
  }

  /** The exception a failing lookup raises. */
  function Raised(x: Lookup): FitError {
    match x
    case InData(n) => TableKeyMissing(n)
    case InTemplate(n) => TemplateBoneMissing(n)
  }

  /** The exception of the first failing lookup, if one fails. */
  function FirstFailing(lookups: seq<Lookup>, template: Rig, data: BoneData): (r: Option<FitError>)
    ensures r.None? <==> forall i | 0 <= i < |lookups| :: Found(lookups[i], template, data)
    ensures r.Some? ==> exists i | 0 <= i < |lookups| ::
      !Found(lookups[i], template, data) && r.value == Raised(lookups[i])
      && forall j | 0 <= j < i :: Found(lookups[j], template, data)
    decreases |lookups|
  {
    if |lookups| == 0 then None
    else if !Found(lookups[0], template, data) then Some(Raised(lookups[0]))
    else
      var r := FirstFailing(lookups[1..], template, data);
      assert forall i | 1 <= i < |lookups| :: lookups[i] == lookups[1..][i - 1];
      if r.Some? then
        var k :| 0 <= k < |lookups[1..]| && !Found(lookups[1..][k], template, data) && r.value == Raised(lookups[1..][k])
          && forall j | 0 <= j < k :: Found(lookups[1..][j], template, data);
        assert lookups[k + 1] == lookups[1..][k];
        r
      else r
  }

  /** Looking up `a + b` in order fails at `a`'s first failure, or else at `b`'s. */
  lemma {:induction false} FirstFailingConcat(a: seq<Lookup>, b: seq<Lookup>, template: Rig, data: BoneData)
    ensures FirstFailing(a + b, template, data) ==
      if FirstFailing(a, template, data).Some? then FirstFailing(a, template, data) else FirstFailing(b, template, data)
    decreases |a|
  {
    if |a| > 0 {
      assert (a + b)[0] == a[0];
      assert (a + b)[1..] == a[1..] + b;
      FirstFailingConcat(a[1..], b, template, data);
    } else {
      assert a + b == b;
    }
  }

  /** Only whether each lookup succeeds matters. */
  lemma {:induction false} FirstFailingRespects(lookups: seq<Lookup>, template: Rig, d1: BoneData, d2: BoneData)
    requires forall i | 0 <= i < |lookups| :: Found(lookups[i], template, d1) == Found(lookups[i], template, d2)
    ensures FirstFailing(lookups, template, d1) == FirstFailing(lookups, template, d2)
    decreases |lookups|
  {
    if |lookups| > 0 {
      assert forall i | 0 <= i < |lookups| - 1 :: lookups[1..][i] == lookups[i + 1];
      FirstFailingRespects(lookups[1..], template, d1, d2);
    }
  }

  /** The template lookups among `lookups`, in order. */
  function TemplateOnly(lookups: seq<Lookup>): (r: seq<Lookup>)
    ensures forall i | 0 <= i < |r| :: r[i].InTemplate?
    decreases |lookups|
  {
    if |lookups| == 0 then []
    else if lookups[0].InTemplate? then [lookups[0]] + TemplateOnly(lookups[1..])
    else TemplateOnly(lookups[1..])
  }

  /** Data lookups that succeed do not change which lookup fails first. */
  lemma {:induction false} FirstFailingSkipsData(lookups: seq<Lookup>, template: Rig, data: BoneData)
    requires forall i | 0 <= i < |lookups| && lookups[i].InData? :: Found(lookups[i], template, data)
    ensures FirstFailing(lookups, template, data) == FirstFailing(TemplateOnly(lookups), template, data)
    decreases |lookups|
  {
    if |lookups| > 0 {
      assert forall i | 0 <= i < |lookups| - 1 :: lookups[1..][i] == lookups[i + 1];
      FirstFailingSkipsData(lookups[1..], template, data);
      if lookups[0].InTemplate? {
        assert ([lookups[0]] + TemplateOnly(lookups[1..]))[1..] == TemplateOnly(lookups[1..]);
      }
    }
  }

  /** The template bones the second half looks up, in order. */
  const TemplateBoneLookups: seq<Lookup> :=
    [InTemplate("heel.02.L"), InTemplate("heel.02.R"), InTemplate("pelvis.L"), InTemplate("pelvis.R"), InTemplate("face")]

  lemma TemplateOnlyLookups()
    ensures TemplateOnly(TemplateLookups) == TemplateBoneLookups
  {
    TemplateOnlyConcat(HeelLookups + PelvisLookups, FaceLookups);
    TemplateOnlyConcat(HeelLookups, PelvisLookups);
    var h := HeelLookups;
    assert h[1..] == [InData("foot.R"), InTemplate("heel.02.L"), InTemplate("heel.02.R")];
    assert h[1..][1..] == [InTemplate("heel.02.L"), InTemplate("heel.02.R")];
    assert h[1..][1..][1..] == [InTemplate("heel.02.R")];
    assert TemplateOnly(h) == [InTemplate("heel.02.L"), InTemplate("heel.02.R")];
    var p := PelvisLookups;
    assert p[1..] == [InTemplate("pelvis.L"), InTemplate("pelvis.R")];
    assert p[1..][1..] == [InTemplate("pelvis.R")];
    assert TemplateOnly(p) == [InTemplate("pelvis.L"), InTemplate("pelvis.R")];
    var f := FaceLookups;
    assert f[1..] == [InData("spine.006")];
    assert TemplateOnly(f) == [InTemplate("face")];
  }

  lemma {:induction false} TemplateOnlyConcat(a: seq<Lookup>, b: seq<Lookup>)
    ensures TemplateOnly(a + b) == TemplateOnly(a) + TemplateOnly(b)
    decreases |a|
  {
    if |a| > 0 {
      assert (a + b)[0] == a[0];
      assert (a + b)[1..] == a[1..] + b;
      TemplateOnlyConcat(a[1..], b);
    } else {
      assert a + b == b;
    }
  }

  /** The heels raise at the first of their lookups that fails. */
  lemma PlaceHeelsRaise(template: Rig, data: BoneData, location: Vec3)
    ensures var r := PlaceHeels(template, data, location);
      && (r.Failure? <==> FirstFailing(HeelLookups, template, data).Some?)
      && (r.Failure? ==> r.error == FirstFailing(HeelLookups, template, data).value)
  {
    var ls := HeelLookups;
    assert ls[1..] == [InData("foot.R"), InTemplate("heel.02.L"), InTemplate("heel.02.R")];
    assert ls[1..][1..] == [InTemplate("heel.02.L"), InTemplate("heel.02.R")];
    assert ls[1..][1..][1..] == [InTemplate("heel.02.R")];
  }

  lemma PlacePelvisRaise(template: Rig, data: BoneData)
    ensures var r := PlacePelvis(template, data);
      && (r.Failure? <==> FirstFailing(PelvisLookups, template, data).Some?)
      && (r.Failure? ==> r.error == FirstFailing(PelvisLookups, template, data).value)
  {
    var ls := PelvisLookups;
    assert ls[1..] == [InTemplate("pelvis.L"), InTemplate("pelvis.R")];
    assert ls[1..][1..] == [InTemplate("pelvis.R")];
  }

  lemma PlaceFaceRaise(template: Rig, data: BoneData)
    ensures var r := PlaceFace(template, data);
      var first := FirstFailing(FaceLookups, template, data);
      && (r.Failure? <==> first.Some? || ("face" in template && template["face"].parent.None?))
      && (r.Failure? ==> r.error == if first.Some? then first.value else FaceHasNoParent)
  {
    var ls := FaceLookups;
    assert ls[1..] == [InData("spine.006")];
  }

  /**
   * The second half raises exactly when one of its lookups fails, with the
   * exception of the first that fails, or else when "face" has no parent.
   */
  lemma FitTemplateRaise(template: Rig, data: BoneData, location: Vec3)
    ensures var r := FitTemplate(template, data, location);
      var first := FirstFailing(TemplateLookups, template, data);
      && (r.Failure? <==> first.Some? || ("face" in template && template["face"].parent.None?))
      && (r.Failure? ==> r.error == if first.Some? then first.value else FaceHasNoParent)
  {
    assert TemplateLookups == HeelLookups + (PelvisLookups + FaceLookups);
    FirstFailingConcat(HeelLookups, PelvisLookups + FaceLookups, template, data);
    PlaceHeelsRaise(template, data, location);
    var hr := PlaceHeels(template, data, location);
    if hr.Success? {
      FitTemplateRaiseAfterHeels(template, data, location);
    } else {
      assert FitTemplate(template, data, location) == Failure(hr.error);
    }
  }

  /** Once the heels are placed, the pelvis and face lookups decide. */
  lemma FitTemplateRaiseAfterHeels(template: Rig, data: BoneData, location: Vec3)
    requires PlaceHeels(template, data, location).Success?
    ensures var r := FitTemplate(template, data, location);
      var first := FirstFailing(PelvisLookups + FaceLookups, template, data);
      && (r.Failure? <==> first.Some? || ("face" in template && template["face"].parent.None?))
      && (r.Failure? ==> r.error == if first.Some? then first.value else FaceHasNoParent)
  {
    FirstFailingConcat(PelvisLookups, FaceLookups, template, data);
    var h := PlaceHeels(template, data, location).value;
    PlaceHeelsKeys(template, data, location);
    PlacePelvisRaiseOn(template, data, h);
    var pr := PlacePelvis(template, h);
    if pr.Success? {
      var p := pr.value;
      PlacePelvisKeys(template, h);
      PlaceFaceRaiseOn(template, data, p);
      FitTemplateFaceStage(template, data, location);
    } else {
      assert FitTemplate(template, data, location) == Failure(pr.error);
    }
  }

  /** With heels and pelvis placed, the second half ends with the face rig. */
  lemma FitTemplateFaceStage(template: Rig, data: BoneData, location: Vec3)
    requires PlaceHeels(template, data, location).Success?
    requires PlacePelvis(template, PlaceHeels(template, data, location).value).Success?
    ensures FitTemplate(template, data, location) ==
      PlaceFace(template, PlacePelvis(template, PlaceHeels(template, data, location).value).value)
  {
  }

  /** The pelvis lookups fail on `bone_data` with the heels placed as they fail on `bone_data` before. */
  lemma PlacePelvisRaiseOn(template: Rig, data: BoneData, withHeels: BoneData)
    requires ("spine" in withHeels) == ("spine" in data)
    ensures var r := PlacePelvis(template, withHeels);
      && (r.Failure? <==> FirstFailing(PelvisLookups, template, data).Some?)
      && (r.Failure? ==> r.error == FirstFailing(PelvisLookups, template, data).value)
  {
    FirstFailingRespects(PelvisLookups, template, data, withHeels);
    PlacePelvisRaise(template, withHeels);
  }

  /** The face lookups fail on `bone_data` with heels and pelvis placed as they fail on `bone_data` before. */
  lemma PlaceFaceRaiseOn(template: Rig, data: BoneData, withPelvis: BoneData)
    requires ("spine.006" in withPelvis) == ("spine.006" in data)
    ensures var r := PlaceFace(template, withPelvis);
      var first := FirstFailing(FaceLookups, template, data);
      && (r.Failure? <==> first.Some? || ("face" in template && template["face"].parent.None?))
      && (r.Failure? ==> r.error == if first.Some? then first.value else FaceHasNoParent)
  {
    FirstFailingRespects(FaceLookups, template, data, withPelvis);
    PlaceFaceRaise(template, withPelvis);
  }

  /* ----- The second half: what it stores ----- */

  lemma PlaceHeelsKeys(template: Rig, data: BoneData, location: Vec3)
    requires PlaceHeels(template, data, location).Success?
    ensures PlaceHeels(template, data, location).value.Keys == data.Keys + {"heel.02.L", "heel.02.R"}
  {
  }

  lemma PlacePelvisKeys(template: Rig, data: BoneData)
    requires PlacePelvis(template, data).Success?
    ensures PlacePelvis(template, data).value.Keys == data.Keys + {"pelvis.L", "pelvis.R"}
  {
  }

  lemma PlaceHeelsWrites(template: Rig, data: BoneData, location: Vec3)
    requires PlaceHeels(template, data, location).Success?
    ensures "foot.L" in data && "foot.R" in data && "heel.02.L" in template && "heel.02.R" in template
    ensures var r := PlaceHeels(template, data, location).value;
      && r.Keys == data.Keys + {"heel.02.L", "heel.02.R"}
      && r["heel.02.L"] == HeelPose(template["heel.02.L"].pose, data["foot.L"].head.x, location)
      && r["heel.02.R"] == HeelPose(template["heel.02.R"].pose, data["foot.R"].head.x, location)
      && forall k | k in data && k != "heel.02.L" && k != "heel.02.R" :: r[k] == data[k]
  {
  }

  lemma PlacePelvisWrites(template: Rig, data: BoneData)
    requires PlacePelvis(template, data).Success?
    ensures "spine" in data && "pelvis.L" in template && "pelvis.R" in template
    ensures var r := PlacePelvis(template, data).value;
      && r.Keys == data.Keys + {"pelvis.L", "pelvis.R"}
      && r["pelvis.L"] == PelvisPose(template["pelvis.L"].pose, data["spine"].head)
      && r["pelvis.R"] == PelvisPose(template["pelvis.R"].pose, data["spine"].head)
      && forall k | k in data && k != "pelvis.L" && k != "pelvis.R" :: r[k] == data[k]
  {
  }

  /** The face rig is moved rigidly so that "face" starts at the head of the MLAB `head` bone. */
  lemma PlaceFaceWrites(template: Rig, data: BoneData)
    requires PlaceFace(template, data).Success?
    ensures "face" in template && template["face"].parent.Some? && "spine.006" in data
    ensures "face" in FaceBones(template)
    ensures var r := PlaceFace(template, data).value;
      var offset := Sub(template["face"].pose.head, data["spine.006"].head);
      && r.Keys == data.Keys + FaceBones(template)
      && (forall b | b in FaceBones(template) :: r[b] == Shifted(template[b].pose, offset))
      && (forall k | k in data && k !in FaceBones(template) :: r[k] == data[k])
      && r["face"].head == data["spine.006"].head
  {
    var face := template["face"];
    assert "face" in Children(template, {face.parent.value});
    var offset := Sub(face.pose.head, data["spine.006"].head);
    assert Add(Sub(face.pose.head, offset), offset) == face.pose.head;
  }

  /** The stages of a second half that does not raise. */
  lemma FitTemplateStages(template: Rig, data: BoneData, location: Vec3)
    requires FitTemplate(template, data, location).Success?
    ensures PlaceHeels(template, data, location).Success?
    ensures var h := PlaceHeels(template, data, location).value;
      && PlacePelvis(template, h).Success?
      && PlaceFace(template, PlacePelvis(template, h).value).Success?
      && FitTemplate(template, data, location).value == PlaceFace(template, PlacePelvis(template, h).value).value
  {
  }

  /** The second half stores the derived bones and the face rig, and keeps every other entry. */
  lemma FitTemplateWrites(template: Rig, data: BoneData, location: Vec3)
    requires FitTemplate(template, data, location).Success?
    ensures "foot.L" in data && "foot.R" in data && "spine" in data && "spine.006" in data
    ensures "heel.02.L" in template && "heel.02.R" in template && "pelvis.L" in template && "pelvis.R" in template
    ensures "face" in template && template["face"].parent.Some?
    ensures var r := FitTemplate(template, data, location).value;
      && r.Keys == data.Keys + DerivedBones + FaceBones(template)
      && forall k | k in data && k !in DerivedBones && k !in FaceBones(template) :: r[k] == data[k]
  {
    FitTemplateStages(template, data, location);
    var h := PlaceHeels(template, data, location).value;
    PlaceHeelsWrites(template, data, location);
    var p := PlacePelvis(template, h).value;
    PlacePelvisWrites(template, h);
    assert p.Keys == data.Keys + DerivedBones;
    assert forall k | k in data && k !in DerivedBones :: p[k] == data[k];
    PlaceFaceWrites(template, p);
  }

  /** Heels and pelvis as derived, unless the face rig overwrites them. */
  lemma FitTemplateDerived(template: Rig, data: BoneData, location: Vec3)
    requires FitTemplate(template, data, location).Success?
    ensures "foot.L" in data && "foot.R" in data && "spine" in data
    ensures "heel.02.L" in template && "heel.02.R" in template && "pelvis.L" in template && "pelvis.R" in template
    ensures var r := FitTemplate(template, data, location).value;
      var faceBones := FaceBones(template);
      && ("heel.02.L" !in faceBones ==> r["heel.02.L"] == HeelPose(template["heel.02.L"].pose, data["foot.L"].head.x, location))
      && ("heel.02.R" !in faceBones ==> r["heel.02.R"] == HeelPose(template["heel.02.R"].pose, data["foot.R"].head.x, location))
      && ("pelvis.L" !in faceBones ==> r["pelvis.L"] == PelvisPose(template["pelvis.L"].pose, data["spine"].head))
      && ("pelvis.R" !in faceBones ==> r["pelvis.R"] == PelvisPose(template["pelvis.R"].pose, data["spine"].head))
  {
    FitTemplateStages(template, data, location);
    var h := PlaceHeels(template, data, location).value;
    PlaceHeelsWrites(template, data, location);
    var p := PlacePelvis(template, h).value;
    PlacePelvisWrites(template, h);
    assert h["spine"] == data["spine"];
    PlaceFaceWrites(template, p);
  }

  /** The face rig, moved by the offset from the template's "face" head to the head of the MLAB `head` bone. */
  lemma FitTemplateFace(template: Rig, data: BoneData, location: Vec3)
    requires FitTemplate(template, data, location).Success?
    ensures "face" in template && "spine.006" in data
    ensures var r := FitTemplate(template, data, location).value;
      var offset := Sub(template["face"].pose.head, data["spine.006"].head);
      && (forall b | b in FaceBones(template) :: r[b] == Shifted(template[b].pose, offset))
      && "face" in r && r["face"].head == data["spine.006"].head
  {
    FitTemplateStages(template, data, location);
    var h := PlaceHeels(template, data, location).value;
    PlaceHeelsWrites(template, data, location);
    var p := PlacePelvis(template, h).value;
    PlacePelvisWrites(template, h);
    assert p["spine.006"] == h["spine.006"] == data["spine.006"];
    PlaceFaceWrites(template, p);
  }

  /** Applying the same `bone_data` twice moves no bone further. */
  lemma ApplyIdempotent(template: Rig, data: BoneData)
    ensures Apply(Apply(template, data), data) == Apply(template, data)
  {
  }

  /* ----- The operator as a whole ----- */

  /** The first half stores exactly the keys of the three copy tables. */
  lemma ReadBonesKeys(m: Table, a: Table, l: Table, src: Rig, straightLegs: bool, kneeOffsetY: real, ops: VectorOps)
    requires LegTable(l)
    requires ReadBones(m, a, l, src, straightLegs, kneeOffsetY, ops).Success?
    ensures var data := ReadBones(m, a, l, src, straightLegs, kneeOffsetY, ops).value;
      forall k :: k in data <==> HasKey(m, k) || HasKey(a, k) || k in LegBones
  {
    ReadBonesStages(m, a, l, src, straightLegs, kneeOffsetY, ops);
    var metarig := CopyBones(m, src, map[]).value;
    var arms := CopyBones(a, src, metarig).value;
    LegsStore(l, arms, src, straightLegs, kneeOffsetY, ops);
  }

  /** The stages of an operator run that fits the metarig. */
  lemma FitMetarigStages(kind: ObjectKind, src: Rig, location: Vec3, template: Rig,
                         straightLegs: bool, kneeOffsetY: real, ops: VectorOps)
    requires FitMetarig(kind, src, location, template, straightLegs, kneeOffsetY, ops).Fitted?
    ensures kind == Armature
    ensures ReadSource(src, straightLegs, kneeOffsetY, ops).Success?
    ensures var data := ReadSource(src, straightLegs, kneeOffsetY, ops).value;
      && FitTemplate(template, data, location).Success?
      && FitMetarig(kind, src, location, template, straightLegs, kneeOffsetY, ops).rig
         == Apply(template, FitTemplate(template, data, location).value)
  {
  }

  /**
   * On an armature the operator stops at the first MLAB bone it cannot
   * find; with all of them found, at the first template bone it cannot
   * find, or because "face" has no parent; otherwise it fits the metarig.
   */
  lemma FitMetarigRaise(src: Rig, location: Vec3, template: Rig, straightLegs: bool, kneeOffsetY: real, ops: VectorOps)
    ensures var r := FitMetarig(Armature, src, location, template, straightLegs, kneeOffsetY, ops);
      var missing := FirstMissing(SourceLookups(), src.Keys);
      var first := FirstFailing(TemplateBoneLookups, template, map[]);
      && (missing.Some? ==> r == Aborted(SourceBoneMissing(missing.value)))
      && (missing.None? ==> (r.Aborted? <==> first.Some? || ("face" in template && template["face"].parent.None?)))
      && (missing.None? && r.Aborted? ==> r.error == if first.Some? then first.value else FaceHasNoParent)
  {
    ReadSourceRaise(src, straightLegs, kneeOffsetY, ops);
    var rs := ReadSource(src, straightLegs, kneeOffsetY, ops);
    if rs.Success? {
      var data := rs.value;
      ReadSourceHasTemplateInputs(src, straightLegs, kneeOffsetY, ops);
      FitTemplateRaise(template, data, location);
      TemplateLookupsOnData(template, data);
    }
  }

  /** With the four bones the second half reads present, only template bones can be missing. */
  lemma TemplateLookupsOnData(template: Rig, data: BoneData)
    requires "foot.L" in data && "foot.R" in data && "spine" in data && "spine.006" in data
    ensures FirstFailing(TemplateLookups, template, data) == FirstFailing(TemplateBoneLookups, template, map[])
  {
    var ls := TemplateLookups;
    assert ls == [InData("foot.L"), InData("foot.R"), InTemplate("heel.02.L"), InTemplate("heel.02.R"), InData("spine"),
                  InTemplate("pelvis.L"), InTemplate("pelvis.R"), InTemplate("face"), InData("spine.006")];
    FirstFailingSkipsData(ls, template, data);
    TemplateOnlyLookups();
    FirstFailingRespects(TemplateBoneLookups, template, data, map[]);
  }

  /** The entries the second half reads are among those the first half stores. */
  lemma ReadSourceHasTemplateInputs(src: Rig, straightLegs: bool, kneeOffsetY: real, ops: VectorOps)
    requires ReadSource(src, straightLegs, kneeOffsetY, ops).Success?
    ensures "foot_L" in src && "foot_R" in src && "pelvis" in src && "head" in src
    ensures var data := ReadSource(src, straightLegs, kneeOffsetY, ops).value;
      && "foot.L" in data && data["foot.L"] == src["foot_L"].pose
      && "foot.R" in data && data["foot.R"] == src["foot_R"].pose
      && "spine" in data && data["spine"] == src["pelvis"].pose
      && "spine.006" in data && data["spine.006"] == src["head"].pose
  {
    ReadSourceCopies(src, straightLegs, kneeOffsetY, ops);
    MetarigEntriesRead();
    TableSizes();
    var m := MetarigBoneNames;
    assert m[0].key == "spine" && m[4].key == "spine.006" && m[7].key == "foot.L" && m[31].key == "foot.R";
  }

  /**
   * The operator fits the metarig exactly when the active object is an
   * armature, every MLAB bone it reads exists, the template has the heel,
   * pelvis and face bones, and "face" has a parent.
   */
  lemma FitMetarigFits(kind: ObjectKind, src: Rig, location: Vec3, template: Rig,
                       straightLegs: bool, kneeOffsetY: real, ops: VectorOps)
    ensures FitMetarig(kind, src, location, template, straightLegs, kneeOffsetY, ops).Fitted? <==>
      && kind == Armature
      && FirstMissing(SourceLookups(), src.Keys).None?
      && "heel.02.L" in template && "heel.02.R" in template && "pelvis.L" in template && "pelvis.R" in template
      && "face" in template && template["face"].parent.Some?
  {
    if kind == Armature {
      FitMetarigRaise(src, location, template, straightLegs, kneeOffsetY, ops);
      var ls := TemplateBoneLookups;
      assert ls[0] == InTemplate("heel.02.L") && ls[1] == InTemplate("heel.02.R") && ls[2] == InTemplate("pelvis.L");
      assert ls[3] == InTemplate("pelvis.R") && ls[4] == InTemplate("face");
    }
  }

  /** The placement of every bone of a rig. */
  function Poses(rig: Rig): (r: BoneData)
    ensures r.Keys == rig.Keys
    ensures forall b | b in rig :: r[b] == rig[b].pose
  {
    map b | b in rig :: rig[b].pose
  }

  /** The fitted metarig has the template's bones and parents, so also its face rig. */
  lemma FittedKeepsHierarchy(src: Rig, location: Vec3, template: Rig, straightLegs: bool, kneeOffsetY: real, ops: VectorOps)
    requires FitMetarig(Armature, src, location, template, straightLegs, kneeOffsetY, ops).Fitted?
    ensures var rig := FitMetarig(Armature, src, location, template, straightLegs, kneeOffsetY, ops).rig;
      && SameHierarchy(rig, template)
      && FaceBones(rig) == FaceBones(template)
      && (WellFormed(rig) <==> WellFormed(template))
  {
    FitMetarigStages(Armature, src, location, template, straightLegs, kneeOffsetY, ops);
    var rig := FitMetarig(Armature, src, location, template, straightLegs, kneeOffsetY, ops).rig;
    if "face" in template && template["face"].parent.Some? {
      SameHierarchyDescendants(rig, template, template["face"].parent.value);
    } else {
      SameHierarchyDescendants(rig, template, "face");
    }
  }

  /** Copied pairs that the second half does not derive survive into the fitted metarig. */
  lemma FittedPairs(t: Table, src: Rig, template: Rig, data: BoneData, location: Vec3)
    requires FitTemplate(template, data, location).Success?
    requires forall i | 0 <= i < |t| ::
      t[i].key in data && t[i].value in src && data[t[i].key] == src[t[i].value].pose && t[i].key !in DerivedBones
    ensures var rig := Apply(template, FitTemplate(template, data, location).value);
      forall i | 0 <= i < |t| && t[i].key in template && t[i].key !in FaceBones(template) ::
        rig[t[i].key].pose == src[t[i].value].pose
  {
    FitTemplateWrites(template, data, location);
  }

  /** Every metarig bone of the main table, outside the face rig, sits where its MLAB bone is. */
  lemma FittedCopies(src: Rig, location: Vec3, template: Rig, straightLegs: bool, kneeOffsetY: real, ops: VectorOps)
    requires FitMetarig(Armature, src, location, template, straightLegs, kneeOffsetY, ops).Fitted?
    ensures forall i | 0 <= i < |MetarigBoneNames| :: MetarigBoneNames[i].value in src
    ensures var rig := FitMetarig(Armature, src, location, template, straightLegs, kneeOffsetY, ops).rig;
      forall i | 0 <= i < |MetarigBoneNames| && MetarigBoneNames[i].key in template && MetarigBoneNames[i].key !in FaceBones(template) ::
        rig[MetarigBoneNames[i].key].pose == src[MetarigBoneNames[i].value].pose
  {
    FitMetarigStages(Armature, src, location, template, straightLegs, kneeOffsetY, ops);
    var data := ReadSource(src, straightLegs, kneeOffsetY, ops).value;
    ReadSourceCopies(src, straightLegs, kneeOffsetY, ops);
    MetarigKeysNotFilledElsewhere();
    FittedPairs(MetarigBoneNames, src, template, data, location);
  }

  /** ... and so does every arm bone. */
  lemma FittedArms(src: Rig, location: Vec3, template: Rig, straightLegs: bool, kneeOffsetY: real, ops: VectorOps)
    requires FitMetarig(Armature, src, location, template, straightLegs, kneeOffsetY, ops).Fitted?
    ensures forall i | 0 <= i < |MetarigBoneArmNames| :: MetarigBoneArmNames[i].value in src
    ensures var rig := FitMetarig(Armature, src, location, template, straightLegs, kneeOffsetY, ops).rig;
      forall i | 0 <= i < |MetarigBoneArmNames| && MetarigBoneArmNames[i].key in template && MetarigBoneArmNames[i].key !in FaceBones(template) ::
        rig[MetarigBoneArmNames[i].key].pose == src[MetarigBoneArmNames[i].value].pose
  {
    FitMetarigStages(Armature, src, location, template, straightLegs, kneeOffsetY, ops);
    var data := ReadSource(src, straightLegs, kneeOffsetY, ops).value;
    ReadSourceArms(src, straightLegs, kneeOffsetY, ops);
    ArmTableFacts();
    FittedPairs(MetarigBoneArmNames, src, template, data, location);
  }

  /** Without straightening, every leg bone sits where its MLAB bone is. */
  lemma FittedCopiedLegs(src: Rig, location: Vec3, template: Rig, straightLegs: bool, kneeOffsetY: real, ops: VectorOps)
    requires !straightLegs
    requires FitMetarig(Armature, src, location, template, straightLegs, kneeOffsetY, ops).Fitted?
    ensures forall i | 0 <= i < |MetarigBoneLegNames| :: MetarigBoneLegNames[i].value in src
    ensures var rig := FitMetarig(Armature, src, location, template, straightLegs, kneeOffsetY, ops).rig;
      forall i | 0 <= i < |MetarigBoneLegNames| && MetarigBoneLegNames[i].key in template && MetarigBoneLegNames[i].key !in FaceBones(template) ::
        rig[MetarigBoneLegNames[i].key].pose == src[MetarigBoneLegNames[i].value].pose
  {
    FitMetarigStages(Armature, src, location, template, straightLegs, kneeOffsetY, ops);
    var data := ReadSource(src, straightLegs, kneeOffsetY, ops).value;
    ReadSourceCopiedLegs(src, straightLegs, kneeOffsetY, ops);
    LegKeysNotDerived();
    FittedPairs(MetarigBoneLegNames, src, template, data, location);
  }

  /** With straightening, each leg outside the face rig is the straightened MLAB leg. */
  lemma FittedStraightLegs(src: Rig, location: Vec3, template: Rig, straightLegs: bool, kneeOffsetY: real, ops: VectorOps)
    requires straightLegs
    requires FitMetarig(Armature, src, location, template, straightLegs, kneeOffsetY, ops).Fitted?
    ensures "thigh_L" in src && "calf_L" in src && "thigh_R" in src && "calf_R" in src
    ensures var rig := FitMetarig(Armature, src, location, template, straightLegs, kneeOffsetY, ops).rig;
      var faceBones := FaceBones(template);
      && ("thigh.L" in template && "shin.L" in template && "thigh.L" !in faceBones && "shin.L" !in faceBones ==>
            StraightPair(Poses(rig), "thigh.L", "shin.L", src["thigh_L"].pose, src["calf_L"].pose, kneeOffsetY, ops))
      && ("thigh.R" in template && "shin.R" in template && "thigh.R" !in faceBones && "shin.R" !in faceBones ==>
            StraightPair(Poses(rig), "thigh.R", "shin.R", src["thigh_R"].pose, src["calf_R"].pose, kneeOffsetY, ops))
  {
    FitMetarigStages(Armature, src, location, template, straightLegs, kneeOffsetY, ops);
    var data := ReadSource(src, straightLegs, kneeOffsetY, ops).value;
    ReadSourceStraightLegs(src, straightLegs, kneeOffsetY, ops);
    var tl, cl, tr, cr := src["thigh_L"].pose, src["calf_L"].pose, src["thigh_R"].pose, src["calf_R"].pose;
    LegBonesNotDerived();
    assert "thigh.L" in LegBones && "shin.L" in LegBones && "thigh.R" in LegBones && "shin.R" in LegBones;
    FittedStraightPair(template, data, location, "thigh.L", "shin.L", tl, cl, kneeOffsetY, ops);
    FittedStraightPair(template, data, location, "thigh.R", "shin.R", tr, cr, kneeOffsetY, ops);
  }

  /** A straightened leg the second half does not derive survives into the fitted metarig. */
  lemma FittedStraightPair(template: Rig, data: BoneData, location: Vec3, thighName: string, shinName: string,
                           thigh: Pose, calf: Pose, kneeOffsetY: real, ops: VectorOps)
    requires FitTemplate(template, data, location).Success?
    requires StraightPair(data, thighName, shinName, thigh, calf, kneeOffsetY, ops)
    requires thighName !in DerivedBones && shinName !in DerivedBones
    ensures var rig := Apply(template, FitTemplate(template, data, location).value);
      thighName in template && shinName in template && thighName !in FaceBones(template) && shinName !in FaceBones(template) ==>
        StraightPair(Poses(rig), thighName, shinName, thigh, calf, kneeOffsetY, ops)
  {
    FitTemplateWrites(template, data, location);
  }

  /** The heels, outside the face rig, are centred on the MLAB feet at the MLAB object's height. */
  lemma FittedHeels(src: Rig, location: Vec3, template: Rig, straightLegs: bool, kneeOffsetY: real, ops: VectorOps)
    requires FitMetarig(Armature, src, location, template, straightLegs, kneeOffsetY, ops).Fitted?
    ensures "foot_L" in src && "foot_R" in src && "heel.02.L" in template && "heel.02.R" in template
    ensures var rig := FitMetarig(Armature, src, location, template, straightLegs, kneeOffsetY, ops).rig;
      && ("heel.02.L" !in FaceBones(template) ==>
            rig["heel.02.L"].pose == HeelPose(template["heel.02.L"].pose, src["foot_L"].pose.head.x, location))
      && ("heel.02.R" !in FaceBones(template) ==>
            rig["heel.02.R"].pose == HeelPose(template["heel.02.R"].pose, src["foot_R"].pose.head.x, location))
  {
    FitMetarigStages(Armature, src, location, template, straightLegs, kneeOffsetY, ops);
    var data := ReadSource(src, straightLegs, kneeOffsetY, ops).value;
    ReadSourceHasTemplateInputs(src, straightLegs, kneeOffsetY, ops);
    FitTemplateDerived(template, data, location);
    FitTemplateWrites(template, data, location);
  }

  /** The pelvis bones, outside the face rig, start at the head of the MLAB pelvis. */
  lemma FittedPelvis(src: Rig, location: Vec3, template: Rig, straightLegs: bool, kneeOffsetY: real, ops: VectorOps)
    requires FitMetarig(Armature, src, location, template, straightLegs, kneeOffsetY, ops).Fitted?
    ensures "pelvis" in src && "pelvis.L" in template && "pelvis.R" in template
    ensures var rig := FitMetarig(Armature, src, location, template, straightLegs, kneeOffsetY, ops).rig;
      && ("pelvis.L" !in FaceBones(template) ==>
            rig["pelvis.L"].pose == PelvisPose(template["pelvis.L"].pose, src["pelvis"].pose.head))
      && ("pelvis.R" !in FaceBones(template) ==>
            rig["pelvis.R"].pose == PelvisPose(template["pelvis.R"].pose, src["pelvis"].pose.head))
  {
    FitMetarigStages(Armature, src, location, template, straightLegs, kneeOffsetY, ops);
    var data := ReadSource(src, straightLegs, kneeOffsetY, ops).value;
    ReadSourceHasTemplateInputs(src, straightLegs, kneeOffsetY, ops);
    FitTemplateDerived(template, data, location);
    FitTemplateWrites(template, data, location);
  }

  /** The face rig is moved rigidly so that "face" starts at the head of the MLAB head bone. */
  lemma FittedFace(src: Rig, location: Vec3, template: Rig, straightLegs: bool, kneeOffsetY: real, ops: VectorOps)
    requires FitMetarig(Armature, src, location, template, straightLegs, kneeOffsetY, ops).Fitted?
    ensures "head" in src && "face" in template && FaceBones(template) <= template.Keys
    ensures var rig := FitMetarig(Armature, src, location, template, straightLegs, kneeOffsetY, ops).rig;
      var offset := Sub(template["face"].pose.head, src["head"].pose.head);
      && (forall b | b in FaceBones(template) :: rig[b].pose == Shifted(template[b].pose, offset))
      && rig["face"].pose.head == src["head"].pose.head
  {
    FitMetarigStages(Armature, src, location, template, straightLegs, kneeOffsetY, ops);
    var data := ReadSource(src, straightLegs, kneeOffsetY, ops).value;
    ReadSourceHasTemplateInputs(src, straightLegs, kneeOffsetY, ops);
    FitTemplateFace(template, data, location);
    FitTemplateWrites(template, data, location);
  }

  /** A template bone that no table, derivation or face rig names keeps its template pose. */
  lemma FittedLeavesOthers(src: Rig, location: Vec3, template: Rig, straightLegs: bool, kneeOffsetY: real, ops: VectorOps)
    requires FitMetarig(Armature, src, location, template, straightLegs, kneeOffsetY, ops).Fitted?
    ensures var rig := FitMetarig(Armature, src, location, template, straightLegs, kneeOffsetY, ops).rig;
      forall b | b in template && !HasKey(MetarigBoneNames, b) && b !in ArmBones && b !in LegBones
                 && b !in DerivedBones && b !in FaceBones(template) :: rig[b] == template[b]
  {
    FitMetarigStages(Armature, src, location, template, straightLegs, kneeOffsetY, ops);
    var data := ReadSource(src, straightLegs, kneeOffsetY, ops).value;
    MetarigBoneLegNamesShape();
    ReadBonesKeys(MetarigBoneNames, MetarigBoneArmNames, MetarigBoneLegNames, src, straightLegs, kneeOffsetY, ops);
    forall k {
      ArmKeys(k);
    }
    FitTemplateWrites(template, data, location);
  }
}
