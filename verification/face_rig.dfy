/**
 * The "Delete Face Rig" operator: on an armature holding a bone "face",
 * delete every bone below the parent of "face", which takes "face", its
 * siblings and all their descendants and leaves the parent itself.
 */
module FaceRig {
  import opened Options
  import opened Host
  import opened Armature

  const FaceBone: string := "face"

  /** How the operator ended; the add-on returns FINISHED in every case. */
  datatype DeleteStatus =
    | Deleted
    | NotAnArmature
    | FaceNotFound
      /** `face.parent` is None, so `.children_recursive` raises. */
    | FaceHasNoParent

  datatype DeleteResult = DeleteResult(rig: Rig, status: DeleteStatus)

  function DeleteFaceRig(kind: ObjectKind, rig: Rig): (r: DeleteResult)
    ensures r.status == Deleted <==> kind == Armature && FaceBone in rig && rig[FaceBone].parent.Some?
    ensures kind != Armature ==> r.status == NotAnArmature
    ensures kind == Armature && FaceBone !in rig ==> r.status == FaceNotFound
    ensures kind == Armature && FaceBone in rig && rig[FaceBone].parent.None? ==> r.status == FaceHasNoParent
    ensures r.status != Deleted ==> r.rig == rig
    ensures r.status == Deleted ==> FaceBone !in r.rig
    ensures forall b | b in r.rig :: b in rig && r.rig[b] == rig[b]
    ensures WellFormed(rig) ==> WellFormed(r.rig)
  {
    if kind != Armature then DeleteResult(rig, NotAnArmature)
    else if FaceBone !in rig then DeleteResult(rig, FaceNotFound)
    else match rig[FaceBone].parent
      case None => DeleteResult(rig, FaceHasNoParent)
      case Some(p) =>
        var gone := Descendants(rig, p);
        assert FaceBone in Children(rig, {p});
        var kept := map b | b in rig && b !in gone :: rig[b];
        assert WellFormed(rig) ==> WellFormed(kept) by {
          if WellFormed(rig) {
            forall b | b in kept && kept[b].parent.Some? ensures kept[b].parent.value in kept {
              if kept[b].parent.value in gone {
                DescendantsClosed(rig, p, b);
              }
            }
          }
        }
        DeleteResult(kept, Deleted)
  }

  /**
   * A bone is deleted exactly when its chain of parents reaches the parent
   * of "face"; every other bone stays as it was.
   */
  lemma DeleteFaceRigRemovesChains(rig: Rig, b: string)
    requires FaceBone in rig && rig[FaceBone].parent.Some?
    ensures var r := DeleteFaceRig(Armature, rig);
      b in rig ==> (b !in r.rig <==> DescendsFrom(rig, b, rig[FaceBone].parent.value))
  {
    DescendantsAreChains(rig, rig[FaceBone].parent.value, b);
  }

  /** In an acyclic rig the parent of "face" survives the deletion. */
  lemma DeleteFaceRigKeepsParent(rig: Rig)
    requires FaceBone in rig && rig[FaceBone].parent.Some? && rig[FaceBone].parent.value in rig
    requires Acyclic(rig)
    ensures rig[FaceBone].parent.value in DeleteFaceRig(Armature, rig).rig
  {
    NotOwnDescendant(rig, rig[FaceBone].parent.value);
  }

  /** A second run finds no "face" and changes nothing. */
  lemma DeleteFaceRigTwice(rig: Rig)
    requires FaceBone in rig && rig[FaceBone].parent.Some?
    ensures var once := DeleteFaceRig(Armature, rig).rig;
      DeleteFaceRig(Armature, once) == DeleteResult(once, FaceNotFound)
  {
  }
}
