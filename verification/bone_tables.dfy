/**
 * The add-on's four bone-name tables (`metarig_bone_names`,
 * `metarig_bone_arm_names`, `metarig_bone_leg_names`, `mlab_bone_names`) as
 * constants, entries in source order, and the facts about their contents that
 * the rename and fitting proofs rely on.
 *
 * `metarig_bone_names` is written as three runs (torso, left side, right side)
 * concatenated; the concatenation is the source's entry list in source order.
 */
module BoneTables {
  import opened Options
  import opened NameTables

  /** Torso bones of `metarig_bone_names` (metarig bone: MLAB bone). */
  const TorsoBoneNames: Table := [
    Entry("spine", "pelvis"),
    Entry("spine.001", "spine01"),
    Entry("spine.002", "spine02"),
    Entry("spine.003", "spine03"),
    Entry("spine.006", "head"),
    Entry("spine.005", "neck")
  ]

  /** Left-side bones of `metarig_bone_names`. */
  const LeftSideBoneNames: Table := [
    Entry("breast.L", "breast_L"),
    Entry("foot.L", "foot_L"),
    Entry("toe.L", "toes_L"),
    Entry("shoulder.L", "clavicle_L"),
    Entry("hand.L", "hand_L"),
    Entry("thumb.01.L", "thumb01_L"),
    Entry("thumb.02.L", "thumb02_L"),
    Entry("thumb.03.L", "thumb03_L"),
    Entry("palm.01.L", "index00_L"),
    Entry("f_index.01.L", "index01_L"),
    Entry("f_index.02.L", "index02_L"),
    Entry("f_index.03.L", "index03_L"),
    Entry("palm.02.L", "middle00_L"),
    Entry("f_middle.01.L", "middle01_L"),
    Entry("f_middle.02.L", "middle02_L"),
    Entry("f_middle.03.L", "middle03_L"),
    Entry("palm.03.L", "ring00_L"),
    Entry("f_ring.01.L", "ring01_L"),
    Entry("f_ring.02.L", "ring02_L"),
    Entry("f_ring.03.L", "ring03_L"),
    Entry("palm.04.L", "pinky00_L"),
    Entry("f_pinky.01.L", "pinky01_L"),
    Entry("f_pinky.02.L", "pinky02_L"),
    Entry("f_pinky.03.L", "pinky03_L")
  ]

  /** Right-side bones of `metarig_bone_names`. */
  const RightSideBoneNames: Table := [
    Entry("breast.R", "breast_R"),
    Entry("foot.R", "foot_R"),
    Entry("toe.R", "toes_R"),
    Entry("shoulder.R", "clavicle_R"),
    Entry("hand.R", "hand_R"),
    Entry("thumb.01.R", "thumb01_R"),
    Entry("thumb.02.R", "thumb02_R"),
    Entry("thumb.03.R", "thumb03_R"),
    Entry("palm.01.R", "index00_R"),
    Entry("f_index.01.R", "index01_R"),
    Entry("f_index.02.R", "index02_R"),
    Entry("f_index.03.R", "index03_R"),
    Entry("palm.02.R", "middle00_R"),
    Entry("f_middle.01.R", "middle01_R"),
    Entry("f_middle.02.R", "middle02_R"),
    Entry("f_middle.03.R", "middle03_R"),
    Entry("palm.03.R", "ring00_R"),
    Entry("f_ring.01.R", "ring01_R"),
    Entry("f_ring.02.R", "ring02_R"),
    Entry("f_ring.03.R", "ring03_R"),
    Entry("palm.04.R", "pinky00_R"),
    Entry("f_pinky.01.R", "pinky01_R"),
    Entry("f_pinky.02.R", "pinky02_R"),
    Entry("f_pinky.03.R", "pinky03_R")
  ]

  /** `metarig_bone_names`: metarig bone -> MLAB bone, copied straight across. */
  const MetarigBoneNames: Table := TorsoBoneNames + LeftSideBoneNames + RightSideBoneNames

  /** `metarig_bone_arm_names`. */
  const MetarigBoneArmNames: Table := [
    Entry("upper_arm.L", "upperarm_L"),
    Entry("forearm.L", "lowerarm_L"),
    Entry("upper_arm.R", "upperarm_R"),
    Entry("forearm.R", "lowerarm_R")
  ]

  /** `metarig_bone_leg_names` (legs only, no feet). */
  const MetarigBoneLegNames: Table := [
    Entry("thigh.L", "thigh_L"),
    Entry("shin.L", "calf_L"),
    Entry("thigh.R", "thigh_R"),
    Entry("shin.R", "calf_R")
  ]

  /** `mlab_bone_names` as the module defines it: MLAB bone -> Rigify deform bone. */
  const MlabBoneNames: Table := [
    Entry("upperarm_twist_L", "DEF-upper_arm.L"),
    Entry("upperarm_L", "DEF-upper_arm.L.001"),
    Entry("lowerarm_twist_L", "DEF-forearm.L.001"),
    Entry("lowerarm_L", "DEF-forearm.L"),
    Entry("thigh_twist_L", "DEF-thigh.L"),
    Entry("thigh_L", "DEF-thigh.L.001"),
    Entry("calf_twist_L", "DEF-shin.L.001"),
    Entry("calf_L", "DEF-shin.L"),
    Entry("upperarm_twist_R", "DEF-upper_arm.R"),
    Entry("upperarm_R", "DEF-upper_arm.R.001"),
    Entry("lowerarm_twist_R", "DEF-forearm.R.001"),
    Entry("lowerarm_R", "DEF-forearm.R"),
    Entry("thigh_twist_R", "DEF-thigh.R"),
    Entry("thigh_R", "DEF-thigh.R.001"),
    Entry("calf_twist_R", "DEF-shin.R.001"),
    Entry("calf_R", "DEF-shin.R")
  ]

  /** `mlab_bone_names` once `update_mlab_bone_names` has run. */
  const MergedBoneNames: Table := MlabBoneNames + Renamed(MetarigBoneNames)

  predicate EndsWith(s: string, c: char) {
    |s| > 0 && s[|s| - 1] == c
  }

  predicate StartsWith(s: string, c: char) {
    |s| > 0 && s[0] == c
  }

  /*
   * Facts about the literal entries. Each lemma states one fact about a small
   * block of entries, with literal bounds, so that the solver only compares a
   * bounded number of strings at a time.
   */

  lemma TorsoKeysDistinct()
    ensures forall i, j | 0 <= i < j < 6 :: TorsoBoneNames[i].key != TorsoBoneNames[j].key
  {
  }

  lemma TorsoValuesDistinct()
    ensures forall i, j | 0 <= i < j < 6 :: TorsoBoneNames[i].value != TorsoBoneNames[j].value
  {
  }

  lemma LeftSideKeysDistinctLow()
    ensures forall i, j | 0 <= i < j < 12 :: LeftSideBoneNames[i].key != LeftSideBoneNames[j].key
  {
  }

  lemma LeftSideKeysDistinctHigh()
    ensures forall i, j | 12 <= i < j < 24 :: LeftSideBoneNames[i].key != LeftSideBoneNames[j].key
  {
  }

  lemma LeftSideKeysDistinctAcross()
    ensures forall i, j | 0 <= i < 12 && 12 <= j < 24 :: LeftSideBoneNames[i].key != LeftSideBoneNames[j].key
  {
  }

  lemma LeftSideValuesDistinctLow()
    ensures forall i, j | 0 <= i < j < 12 :: LeftSideBoneNames[i].value != LeftSideBoneNames[j].value
  {
  }

  lemma LeftSideValuesDistinctHigh()
    ensures forall i, j | 12 <= i < j < 24 :: LeftSideBoneNames[i].value != LeftSideBoneNames[j].value
  {
  }

  lemma LeftSideValuesDistinctAcross()
    ensures forall i, j | 0 <= i < 12 && 12 <= j < 24 :: LeftSideBoneNames[i].value != LeftSideBoneNames[j].value
  {
  }

  lemma RightSideKeysDistinctLow()
    ensures forall i, j | 0 <= i < j < 12 :: RightSideBoneNames[i].key != RightSideBoneNames[j].key
  {
  }

  lemma RightSideKeysDistinctHigh()
    ensures forall i, j | 12 <= i < j < 24 :: RightSideBoneNames[i].key != RightSideBoneNames[j].key
  {
  }

  lemma RightSideKeysDistinctAcross()
    ensures forall i, j | 0 <= i < 12 && 12 <= j < 24 :: RightSideBoneNames[i].key != RightSideBoneNames[j].key
  {
  }

  lemma RightSideValuesDistinctLow()
    ensures forall i, j | 0 <= i < j < 12 :: RightSideBoneNames[i].value != RightSideBoneNames[j].value
  {
  }

  lemma RightSideValuesDistinctHigh()
    ensures forall i, j | 12 <= i < j < 24 :: RightSideBoneNames[i].value != RightSideBoneNames[j].value
  {
  }

  lemma RightSideValuesDistinctAcross()
    ensures forall i, j | 0 <= i < 12 && 12 <= j < 24 :: RightSideBoneNames[i].value != RightSideBoneNames[j].value
  {
  }

  lemma MlabKeysDistinct()
    ensures forall i, j | 0 <= i < j < 16 :: MlabBoneNames[i].key != MlabBoneNames[j].key
  {
  }

  lemma MlabValuesDistinct()
    ensures forall i, j | 0 <= i < j < 16 :: MlabBoneNames[i].value != MlabBoneNames[j].value
  {
  }

  lemma TorsoSuffixes()
    ensures forall i | 0 <= i < 6 ::
      && !EndsWith(TorsoBoneNames[i].key, 'L') && !EndsWith(TorsoBoneNames[i].key, 'R')
      && !EndsWith(TorsoBoneNames[i].value, 'L') && !EndsWith(TorsoBoneNames[i].value, 'R')
      && !StartsWith(TorsoBoneNames[i].value, 'D')
  {
  }

  lemma LeftSideSuffixes()
    ensures forall i | 0 <= i < 24 ::
      && EndsWith(LeftSideBoneNames[i].key, 'L') && EndsWith(LeftSideBoneNames[i].value, 'L')
      && !StartsWith(LeftSideBoneNames[i].value, 'D')
  {
  }

  lemma RightSideSuffixes()
    ensures forall i | 0 <= i < 24 ::
      && EndsWith(RightSideBoneNames[i].key, 'R') && EndsWith(RightSideBoneNames[i].value, 'R')
      && !StartsWith(RightSideBoneNames[i].value, 'D')
  {
  }

  lemma MlabPrefixes()
    ensures forall i | 0 <= i < 16 ::
      && |MlabBoneNames[i].value| >= 4 && MlabBoneNames[i].value[..4] == "DEF-"
      && !StartsWith(MlabBoneNames[i].key, 'D')
  {
  }

  lemma MlabKeysNotTorsoValues()
    ensures forall i, j | 0 <= i < 16 && 0 <= j < 6 :: MlabBoneNames[i].key != TorsoBoneNames[j].value
  {
  }

  lemma MlabValuesNotTorsoKeys()
    ensures forall i, j | 0 <= i < 16 && 0 <= j < 6 :: MlabBoneNames[i].value[4..] != TorsoBoneNames[j].key
  {
  }

  lemma MlabKeysNotLeftValues()
    ensures forall i, j | 0 <= i < 16 && 0 <= j < 24 :: MlabBoneNames[i].key != LeftSideBoneNames[j].value
  {
  }

  lemma MlabValuesNotLeftKeys()
    ensures forall i, j | 0 <= i < 16 && 0 <= j < 24 :: MlabBoneNames[i].value[4..] != LeftSideBoneNames[j].key
  {
  }

  lemma MlabKeysNotRightValues()
    ensures forall i, j | 0 <= i < 16 && 0 <= j < 24 :: MlabBoneNames[i].key != RightSideBoneNames[j].value
  {
  }

  lemma MlabValuesNotRightKeys()
    ensures forall i, j | 0 <= i < 16 && 0 <= j < 24 :: MlabBoneNames[i].value[4..] != RightSideBoneNames[j].key
  {
  }

  /* The table-level facts assembled from the blocks above. */

  lemma TableSizes()
    ensures |TorsoBoneNames| == 6 && |LeftSideBoneNames| == 24 && |RightSideBoneNames| == 24
    ensures |MetarigBoneNames| == 54 && |MlabBoneNames| == 16
  {
  }

  lemma LeftSideDistinct()
    ensures KeysDistinct(LeftSideBoneNames) && ValuesDistinct(LeftSideBoneNames)
  {
    TableSizes();
    LeftSideKeysDistinctLow();
    LeftSideKeysDistinctHigh();
    LeftSideKeysDistinctAcross();
    LeftSideValuesDistinctLow();
    LeftSideValuesDistinctHigh();
    LeftSideValuesDistinctAcross();
  }

  lemma RightSideDistinct()
    ensures KeysDistinct(RightSideBoneNames) && ValuesDistinct(RightSideBoneNames)
  {
    TableSizes();
    RightSideKeysDistinctLow();
    RightSideKeysDistinctHigh();
    RightSideKeysDistinctAcross();
    RightSideValuesDistinctLow();
    RightSideValuesDistinctHigh();
    RightSideValuesDistinctAcross();
  }

  /** No two metarig bones share a name, and no two of them share an MLAB bone. */
  lemma MetarigBoneNamesDistinct()
    ensures KeysDistinct(MetarigBoneNames) && ValuesDistinct(MetarigBoneNames)
  {
    TableSizes();
    TorsoKeysDistinct();
    TorsoValuesDistinct();
    LeftSideDistinct();
    RightSideDistinct();
    TorsoSuffixes();
    LeftSideSuffixes();
    RightSideSuffixes();
    var torsoLeft := TorsoBoneNames + LeftSideBoneNames;
    KeysDistinctConcat(TorsoBoneNames, LeftSideBoneNames);
    ValuesDistinctConcat(TorsoBoneNames, LeftSideBoneNames);
    forall i | 0 <= i < |torsoLeft|
      ensures !EndsWith(torsoLeft[i].key, 'R') && !EndsWith(torsoLeft[i].value, 'R')
    {
      if i < 6 {
        assert torsoLeft[i] == TorsoBoneNames[i];
      } else {
        assert torsoLeft[i] == LeftSideBoneNames[i - 6];
      }
    }
    KeysDistinctConcat(torsoLeft, RightSideBoneNames);
    ValuesDistinctConcat(torsoLeft, RightSideBoneNames);
  }

  lemma DefPrefixStartsWithD(s: string)
    ensures HasDefPrefix(s) ==> StartsWith(s, 'D')
  {
    if HasDefPrefix(s) {
      assert s[0] == s[..|DefPrefix|][0];
    }
  }

  /** Every value of `mlab_bone_names` is a "DEF-" name and no key is. */
  lemma MlabBoneNamesFacts()
    ensures KeysDistinct(MlabBoneNames) && ValuesDistinct(MlabBoneNames)
    ensures forall i | 0 <= i < |MlabBoneNames| ::
      HasDefPrefix(MlabBoneNames[i].value) && !HasDefPrefix(MlabBoneNames[i].key)
  {
    TableSizes();
    MlabKeysDistinct();
    MlabValuesDistinct();
    MlabPrefixes();
    forall i | 0 <= i < |MlabBoneNames| ensures !HasDefPrefix(MlabBoneNames[i].key) {
      DefPrefixStartsWithD(MlabBoneNames[i].key);
    }
  }

  /** No MLAB bone renamed by the update already has an entry in `mlab_bone_names`. */
  lemma MlabKeysNotMetarigValues()
    ensures forall i, j | 0 <= i < |MlabBoneNames| && 0 <= j < |MetarigBoneNames| ::
      MlabBoneNames[i].key != MetarigBoneNames[j].value
  {
    TableSizes();
    MlabKeysNotTorsoValues();
    MlabKeysNotLeftValues();
    MlabKeysNotRightValues();
    forall i, j | 0 <= i < 16 && 0 <= j < 54 ensures MlabBoneNames[i].key != MetarigBoneNames[j].value {
      if j < 6 {
        assert MetarigBoneNames[j] == TorsoBoneNames[j];
      } else if j < 30 {
        assert MetarigBoneNames[j] == LeftSideBoneNames[j - 6];
      } else {
        assert MetarigBoneNames[j] == RightSideBoneNames[j - 30];
      }
    }
  }

  /** No original "DEF-" target coincides with one the update adds. */
  lemma MlabValuesNotRenamed()
    ensures forall i, j | 0 <= i < |MlabBoneNames| && 0 <= j < |MetarigBoneNames| ::
      MlabBoneNames[i].value != DefPrefix + MetarigBoneNames[j].key
  {
    TableSizes();
    MlabPrefixes();
    MlabValuesNotTorsoKeys();
    MlabValuesNotLeftKeys();
    MlabValuesNotRightKeys();
    forall i, j | 0 <= i < 16 && 0 <= j < 54 ensures MlabBoneNames[i].value != DefPrefix + MetarigBoneNames[j].key {
      var v := MlabBoneNames[i].value;
      var k := MetarigBoneNames[j].key;
      if j < 6 {
        assert MetarigBoneNames[j] == TorsoBoneNames[j];
      } else if j < 30 {
        assert MetarigBoneNames[j] == LeftSideBoneNames[j - 6];
      } else {
        assert MetarigBoneNames[j] == RightSideBoneNames[j - 30];
      }
      assert v[4..] != k;
      DefPrefixSplit(v);
      DefPrefixInjective(v[4..], k);
    }
  }

  /**
   * `update_mlab_bone_names` run on the table as defined: the 16 original
   * entries stay as they are, in place, and the 54 renamed pairs follow.
   */
  lemma UpdateMlabBoneNamesResult()
    ensures AddRenamed(MlabBoneNames, MetarigBoneNames) == MergedBoneNames
  {
    MetarigBoneNamesDistinct();
    MlabKeysNotMetarigValues();
    AddRenamedAppends(MlabBoneNames, MetarigBoneNames);
  }

  /** Every later call of `update_mlab_bone_names` leaves the table as it is. */
  lemma UpdateMlabBoneNamesStable()
    ensures AddRenamed(MergedBoneNames, MetarigBoneNames) == MergedBoneNames
  {
    MetarigBoneNamesDistinct();
    UpdateMlabBoneNamesResult();
    AddRenamedIdempotent(MlabBoneNames, MetarigBoneNames);
  }

  /** In the updated table every MLAB bone `b` of a pair `m: b` maps to "DEF-" + m. */
  lemma MergedBoneNamesPairs()
    ensures forall i | 0 <= i < |MetarigBoneNames| ::
      Get(MergedBoneNames, MetarigBoneNames[i].value) == Some(DefPrefix + MetarigBoneNames[i].key)
  {
    MetarigBoneNamesDistinct();
    UpdateMlabBoneNamesResult();
    AddRenamedSetsEveryPair(MlabBoneNames, MetarigBoneNames);
  }

  /**
   * The updated table is a renaming table: keys distinct, values distinct,
   * every value a "DEF-" name and no key one.
   */
  lemma MergedBoneNamesShape()
    ensures KeysDistinct(MergedBoneNames) && ValuesDistinct(MergedBoneNames)
    ensures forall i | 0 <= i < |MergedBoneNames| ::
      HasDefPrefix(MergedBoneNames[i].value) && !HasDefPrefix(MergedBoneNames[i].key)
  {
    var renamed := Renamed(MetarigBoneNames);
    MetarigBoneNamesDistinct();
    MlabBoneNamesFacts();
    MlabKeysNotMetarigValues();
    MlabValuesNotRenamed();
    TorsoSuffixes();
    LeftSideSuffixes();
    RightSideSuffixes();
    TableSizes();
    KeysDistinctConcat(MlabBoneNames, renamed);
    forall i, j | 0 <= i < j < |renamed| ensures renamed[i].value != renamed[j].value {
      DefPrefixInjective(MetarigBoneNames[i].key, MetarigBoneNames[j].key);
    }
    ValuesDistinctConcat(MlabBoneNames, renamed);
    forall i | 0 <= i < |renamed| ensures HasDefPrefix(renamed[i].value) && !HasDefPrefix(renamed[i].key) {
      DefPrefixed(MetarigBoneNames[i].key);
      DefPrefixStartsWithD(renamed[i].key);
      if i < 6 {
        assert MetarigBoneNames[i] == TorsoBoneNames[i];
      } else if i < 30 {
        assert MetarigBoneNames[i] == LeftSideBoneNames[i - 6];
      } else {
        assert MetarigBoneNames[i] == RightSideBoneNames[i - 30];
      }
    }
    forall i | 0 <= i < |MergedBoneNames|
      ensures HasDefPrefix(MergedBoneNames[i].value) && !HasDefPrefix(MergedBoneNames[i].key)
    {
      if i >= 16 {
        assert MergedBoneNames[i] == renamed[i - 16];
      }
    }
  }
}
