/** Points and offsets in a rig's space, with exact arithmetic. */
module Geometry {

  datatype Vec3 = Vec3(x: real, y: real, z: real)

  function Add(a: Vec3, b: Vec3): Vec3 {
    Vec3(a.x + b.x, a.y + b.y, a.z + b.z)
  }

  function Sub(a: Vec3, b: Vec3): Vec3 {
    Vec3(a.x - b.x, a.y - b.y, a.z - b.z)
  }

  function Scale(c: real, a: Vec3): Vec3 {
    Vec3(c * a.x, c * a.y, c * a.z)
  }
}

/**
 * An armature as its edit bones: each has a name, a head, a tail, a roll and
 * an optional parent, and `children_recursive` collects every bone whose
 * chain of parents reaches a given one.
 */
module Armature {
  import opened Options
  import opened Geometry

  /** The placement of a bone: `(head, tail, roll)`, as the add-on stores it. */
  datatype Pose = Pose(head: Vec3, tail: Vec3, roll: real)

  datatype Bone = Bone(pose: Pose, parent: Option<string>)

  /** The edit bones of an armature, by name. */
  type Rig = map<string, Bone>

  /** Every parent a bone names is a bone of the rig. */
  predicate WellFormed(rig: Rig) {
    forall b | b in rig && rig[b].parent.Some? :: rig[b].parent.value in rig
  }

  /** The bones whose parent is in `s`. */
  function Children(rig: Rig, s: set<string>): set<string> {
    set b | b in rig && rig[b].parent.Some? && rig[b].parent.value in s
  }

  /** Adds children to `s` until nothing more is added. */
  function Grow(rig: Rig, s: set<string>): (r: set<string>)
    requires s <= rig.Keys
    ensures s <= r <= rig.Keys
    ensures Children(rig, r) <= r
    decreases |rig.Keys - s|
  {
    var next := s + Children(rig, s);
    if next == s then s
    else
      StrictSubsetSmaller(rig.Keys - next, rig.Keys - s);
      Grow(rig, next)
  }

  lemma StrictSubsetSmaller<T>(a: set<T>, b: set<T>)
    requires a < b
    ensures |a| < |b|
  {
    assert b == a + (b - a);
    assert b - a != {} by {
      assert !(b <= a);
    }
  }

  /** `children_recursive` of bone `p`. */
  function Descendants(rig: Rig, p: string): (r: set<string>)
    ensures r <= rig.Keys
    ensures Children(rig, {p}) <= r
    ensures Children(rig, r) <= r
  {
    Grow(rig, Children(rig, {p}))
  }

  /** The bone `n` parent steps above `b`, if the chain is that long. */
  function AncestorAt(rig: Rig, b: string, n: nat): Option<string>
    decreases n
  {
    if n == 0 then Some(b)
    else if b in rig && rig[b].parent.Some? then AncestorAt(rig, rig[b].parent.value, n - 1)
    else None
  }

  /** `b` sits somewhere below `p` in the parent hierarchy. */
  ghost predicate DescendsFrom(rig: Rig, b: string, p: string) {
    exists n: nat | 1 <= n :: AncestorAt(rig, b, n) == Some(p)
  }

  /** No bone is its own ancestor. */
  ghost predicate Acyclic(rig: Rig) {
    forall b, n: nat | 1 <= n :: AncestorAt(rig, b, n) != Some(b)
  }

  lemma {:induction false} GrowSound(rig: Rig, p: string, s: set<string>)
    requires s <= rig.Keys
    requires forall b | b in s :: DescendsFrom(rig, b, p)
    ensures forall b | b in Grow(rig, s) :: DescendsFrom(rig, b, p)
    decreases |rig.Keys - s|
  {
    var next := s + Children(rig, s);
    if next != s {
      forall b | b in next ensures DescendsFrom(rig, b, p) {
        if b !in s {
          var q := rig[b].parent.value;
          var n: nat :| 1 <= n && AncestorAt(rig, q, n) == Some(p);
          assert AncestorAt(rig, b, n + 1) == Some(p);
        }
      }
      StrictSubsetSmaller(rig.Keys - next, rig.Keys - s);
      GrowSound(rig, p, next);
    }
  }

  lemma {:induction false} ChainsAreDescendants(rig: Rig, p: string, b: string, n: nat)
    requires 1 <= n && AncestorAt(rig, b, n) == Some(p)
    ensures b in Descendants(rig, p)
    decreases n
  {
    var q := rig[b].parent.value;
    if n > 1 {
      ChainsAreDescendants(rig, p, q, n - 1);
      assert b in Children(rig, Descendants(rig, p));
    } else {
      assert b in Children(rig, {p});
    }
  }

  /**
   * `children_recursive` holds exactly the bones whose parent chain reaches
   * `p`: nothing more, nothing less.
   */
  lemma DescendantsAreChains(rig: Rig, p: string, b: string)
    ensures b in Descendants(rig, p) <==> DescendsFrom(rig, b, p)
  {
    forall c | c in Children(rig, {p}) ensures DescendsFrom(rig, c, p) {
      assert AncestorAt(rig, c, 1) == Some(p);
    }
    GrowSound(rig, p, Children(rig, {p}));
    if DescendsFrom(rig, b, p) {
      var n: nat :| 1 <= n && AncestorAt(rig, b, n) == Some(p);
      ChainsAreDescendants(rig, p, b, n);
    }
  }

  /** In an acyclic rig a bone is not among its own descendants. */
  lemma NotOwnDescendant(rig: Rig, p: string)
    requires Acyclic(rig)
    ensures p !in Descendants(rig, p)
  {
    DescendantsAreChains(rig, p, p);
  }

  /** A child of a bone that is removed with its descendants is removed too. */
  lemma DescendantsClosed(rig: Rig, p: string, b: string)
    requires b in rig && rig[b].parent.Some?
    requires rig[b].parent.value == p || rig[b].parent.value in Descendants(rig, p)
    ensures b in Descendants(rig, p)
  {
    if rig[b].parent.value == p {
      assert b in Children(rig, {p});
    } else {
      assert b in Children(rig, Descendants(rig, p));
    }
  }
  /** Two rigs with the same bones and the same parents: only poses may differ. */
  predicate SameHierarchy(a: Rig, b: Rig) {
    a.Keys == b.Keys && forall x | x in a :: a[x].parent == b[x].parent
  }

  lemma {:induction false} SameHierarchyAncestors(a: Rig, b: Rig, x: string, n: nat)
    requires SameHierarchy(a, b)
    ensures AncestorAt(a, x, n) == AncestorAt(b, x, n)
    decreases n
  {
    if n > 0 && x in a && a[x].parent.Some? {
      SameHierarchyAncestors(a, b, a[x].parent.value, n - 1);
    }
  }

  /** Moving bones without reparenting them keeps every bone's descendants. */
  lemma SameHierarchyDescendants(a: Rig, b: Rig, p: string)
    requires SameHierarchy(a, b)
    ensures Descendants(a, p) == Descendants(b, p)
    ensures WellFormed(a) <==> WellFormed(b)
    ensures Acyclic(a) <==> Acyclic(b)
  {
    forall x, n: nat ensures AncestorAt(a, x, n) == AncestorAt(b, x, n) {
      SameHierarchyAncestors(a, b, x, n);
    }
    forall x ensures x in Descendants(a, p) <==> x in Descendants(b, p) {
      DescendantsAreChains(a, p, x);
      DescendantsAreChains(b, p, x);
    }
  }
}
