/**
 * The two vertex-group renaming operators, "MLAB to Rigify" and
 * "Rigify to MLAB".
 *
 * A mesh's vertex groups are modelled by their names in index order. The
 * host keeps those names unique: a group renamed to a name another group
 * already carries gets a fresh variant of it. How the variant is chosen
 * belongs to the host, so it is a parameter (`Dedupe`) here.
 */
module VertexGroups {
  import opened Options
  import opened Host
  import opened NameTables
  import opened BoneTables

  /** The names of a mesh's vertex groups, in index order. */
  type Groups = seq<string>

  /** The host's choice of a unique name when `name` is taken by one of `others`. */
  type Dedupe = (string, Groups) -> string

  predicate NamesDistinct(g: Groups) {
    forall i, j | 0 <= i < j < |g| :: g[i] != g[j]
  }

  /** The host yields a name no other group carries. */
  ghost predicate FreshNames(dedupe: Dedupe) {
    forall name, others :: dedupe(name, others) !in others
  }

  /** Index of the group `vertex_groups[name]` looks up, if any. */
  function IndexOf(g: Groups, name: string): (r: Option<nat>)
    ensures r.Some? ==> r.value < |g| && g[r.value] == name
    ensures r.Some? ==> forall j | 0 <= j < r.value :: g[j] != name
    ensures r.None? <==> name !in g
    decreases |g|
  {
    if |g| == 0 then None
    else if g[0] == name then Some(0)
    else match IndexOf(g[1..], name)
      case Some(i) => Some(i + 1)
      case None => None
  }

  /** Every name but the one at index `i`. */
  function Others(g: Groups, i: nat): (r: Groups)
    requires i < |g|
    ensures forall x :: x in r <==> exists j | 0 <= j < |g| :: j != i && g[j] == x
  {
    assert forall j | 0 <= j < |g| && j != i :: if j < i then g[j] == g[..i][j] else g[j] == g[i + 1..][j - i - 1];
    g[..i] + g[i + 1..]
  }

  /**
   * `vertex_groups[from].name = to`: `None` when the lookup raises, otherwise
   * the groups with that one renamed.
   */
  function RenameGroup(g: Groups, from: string, to: string, dedupe: Dedupe): (r: Option<Groups>)
    ensures r.None? <==> from !in g
    ensures r.Some? ==> |r.value| == |g|
    ensures r.Some? ==> forall j | 0 <= j < |g| && g[j] != from :: r.value[j] == g[j]
    ensures r.Some? && to !in g ==> r.value == g[IndexOf(g, from).value := to]
    ensures r.Some? && NamesDistinct(g) && FreshNames(dedupe) ==> NamesDistinct(r.value)
  {
    match IndexOf(g, from)
    case None => None
    case Some(i) =>
      var others := Others(g, i);
      var name := if to in others then dedupe(to, others) else to;
      var h := g[i := name];
      assert NamesDistinct(g) && FreshNames(dedupe) ==> NamesDistinct(h) by {
        if NamesDistinct(g) && FreshNames(dedupe) {
          forall j, k | 0 <= j < k < |h| ensures h[j] != h[k] {
            if j == i {
              assert h[k] in others;
            } else if k == i {
              assert h[j] in others;
            }
          }
        }
      }
      Some(h)
  }

  /** What one renaming loop leaves: the groups, and the names it reported missing. */
  datatype PassResult = PassResult(groups: Groups, missing: seq<string>)

  /**
   * The loop of "MLAB to Rigify": for every `k: v` of the table, in order,
   * rename group `k` to `v`; a missing `k` is reported and skipped.
   */
  function RenameForward(t: Table, g: Groups, dedupe: Dedupe): (r: PassResult)
    ensures |r.groups| == |g|
    ensures forall i | 0 <= i < |g| && !HasKey(t, g[i]) :: r.groups[i] == g[i]
    ensures forall x | x in r.missing :: HasKey(t, x)
    ensures NamesDistinct(g) && FreshNames(dedupe) ==> NamesDistinct(r.groups)
    decreases |t|
  {
    if |t| == 0 then PassResult(g, [])
    else
      var step := RenameGroup(g, t[0].key, t[0].value, dedupe);
      var next := if step.Some? then step.value else g;
      var rest := RenameForward(t[1..], next, dedupe);
      assert forall x | HasKey(t[1..], x) :: HasKey(t, x) by {
        forall x | HasKey(t[1..], x) ensures HasKey(t, x) {
          var j :| 0 <= j < |t[1..]| && t[1..][j].key == x;
          assert t[j + 1].key == x;
        }
      }
      assert forall i | 0 <= i < |g| && !HasKey(t, g[i]) :: next[i] == g[i] by {
        forall i | 0 <= i < |g| && !HasKey(t, g[i]) ensures next[i] == g[i] {
          assert HasKey(t, t[0].key);
        }
      }
      PassResult(rest.groups, (if step.Some? then [] else [t[0].key]) + rest.missing)
  }

  /**
   * The loop of "Rigify to MLAB": for every `k: v` of the table, in order,
   * rename group `v` back to `k`; a missing `v` is reported and skipped.
   */
  function RenameBackward(t: Table, g: Groups, dedupe: Dedupe): (r: PassResult)
    ensures |r.groups| == |g|
    ensures forall i | 0 <= i < |g| && !HasValue(t, g[i]) :: r.groups[i] == g[i]
    ensures forall x | x in r.missing :: HasValue(t, x)
    ensures NamesDistinct(g) && FreshNames(dedupe) ==> NamesDistinct(r.groups)
    decreases |t|
  {
    if |t| == 0 then PassResult(g, [])
    else
      var step := RenameGroup(g, t[0].value, t[0].key, dedupe);
      var next := if step.Some? then step.value else g;
      var rest := RenameBackward(t[1..], next, dedupe);
      assert forall x | HasValue(t[1..], x) :: HasValue(t, x) by {
        forall x | HasValue(t[1..], x) ensures HasValue(t, x) {
          var j :| 0 <= j < |t[1..]| && t[1..][j].value == x;
          assert t[j + 1].value == x;
        }
      }
      assert forall i | 0 <= i < |g| && !HasValue(t, g[i]) :: next[i] == g[i] by {
        forall i | 0 <= i < |g| && !HasValue(t, g[i]) ensures next[i] == g[i] {
          assert g[i] != t[0].value by { assert t[0].value == t[0].value; }
        }
      }
      PassResult(rest.groups, (if step.Some? then [] else [t[0].value]) + rest.missing)
  }

  /* ----- The reference reading: a rename table as a map on names ----- */

  /** The table read backwards: `v: k` for every `k: v`. */
  function Swap(t: Table): (r: Table)
    ensures |r| == |t|
    ensures forall i | 0 <= i < |t| :: r[i] == Entry(t[i].value, t[i].key)
  {
    seq(|t|, i requires 0 <= i < |t| => Entry(t[i].value, t[i].key))
  }

  /**
   * A table whose loop renames every group at most once: keys distinct,
   * values distinct, and no value is also a key (so no rename chains).
   */
  predicate RenameTable(t: Table) {
    && KeysDistinct(t)
    && ValuesDistinct(t)
    && forall i, j | 0 <= i < |t| && 0 <= j < |t| :: t[i].value != t[j].key
  }

  /** What the table makes of one group name: its value if it is a key, else itself. */
  function Translate(t: Table, name: string): (r: string)
    ensures !HasKey(t, name) ==> r == name
    ensures KeysDistinct(t) ==> forall i | 0 <= i < |t| && t[i].key == name :: r == t[i].value
  {
    match Get(t, name)
    case Some(v) => v
    case None => name
  }

  /** The table's keys that name no group, in table order. */
  function MissingKeys(t: Table, g: Groups): (r: seq<string>)
    ensures forall x :: x in r <==> HasKey(t, x) && x !in g
    ensures |r| <= |t|
    decreases |t|
  {
    if |t| == 0 then []
    else
      var rest := MissingKeys(t[1..], g);
      assert forall x :: HasKey(t, x) <==> x == t[0].key || HasKey(t[1..], x) by {
        forall x ensures HasKey(t, x) <==> x == t[0].key || HasKey(t[1..], x) {
          if HasKey(t, x) && x != t[0].key {
            var j :| 0 <= j < |t| && t[j].key == x;
            assert t[1..][j - 1].key == x;
          }
          if HasKey(t[1..], x) {
            var j :| 0 <= j < |t[1..]| && t[1..][j].key == x;
            assert t[j + 1].key == x;
          }
        }
      }
      (if t[0].key in g then [] else [t[0].key]) + rest
  }

  /** No group is renamed onto a name another group already carries. */
  predicate NoCollision(t: Table, g: Groups) {
    forall i | 0 <= i < |t| && t[i].key in g :: t[i].value !in g
  }

  lemma RenameTableTail(t: Table)
    requires |t| > 0 && RenameTable(t)
    ensures RenameTable(t[1..])
  {
    forall i, j | 0 <= i < j < |t| - 1
      ensures t[1..][i].key != t[1..][j].key && t[1..][i].value != t[1..][j].value
    {
      assert t[1..][i] == t[i + 1] && t[1..][j] == t[j + 1];
    }
  }

  lemma MissingKeysRespects(t: Table, g: Groups, h: Groups)
    requires forall i | 0 <= i < |t| :: (t[i].key in g) == (t[i].key in h)
    ensures MissingKeys(t, g) == MissingKeys(t, h)
    decreases |t|
  {
    if |t| > 0 {
      MissingKeysRespects(t[1..], g, h);
    }
  }

  /**
   * The forward loop is the table's map applied to every group name, and it
   * reports exactly the keys naming no group, when the table has no chains,
   * the names are unique and no rename lands on a taken name.
   */
  lemma {:induction false} RenameForwardTranslates(t: Table, g: Groups, dedupe: Dedupe)
    requires RenameTable(t) && NamesDistinct(g) && NoCollision(t, g)
    ensures RenameForward(t, g, dedupe).groups == seq(|g|, i requires 0 <= i < |g| => Translate(t, g[i]))
    ensures RenameForward(t, g, dedupe).missing == MissingKeys(t, g)
    decreases |t|
  {
    if |t| > 0 {
      var e := t[0];
      var rest := t[1..];
      RenameTableTail(t);
      var step := RenameGroup(g, e.key, e.value, dedupe);
      var next := if step.Some? then step.value else g;
      assert forall j | 0 <= j < |rest| :: rest[j] == t[j + 1];
      assert forall x | x != e.key :: Get(t, x) == Get(rest, x);
      if step.Some? {
        var p := IndexOf(g, e.key).value;
        assert next == g[p := e.value];
        ForwardStepKeepsShape(t, g, p);
        MissingKeysRespects(rest, next, g);
        RenameForwardTranslates(rest, next, dedupe);
        forall i | 0 <= i < |g| ensures Translate(rest, next[i]) == Translate(t, g[i]) {
          if i == p {
            assert !HasKey(rest, e.value);
          } else {
            assert g[i] != e.key;
          }
        }
      } else {
        RenameForwardTranslates(rest, g, dedupe);
        forall i | 0 <= i < |g| ensures Translate(rest, g[i]) == Translate(t, g[i]) {
          assert g[i] != e.key;
        }
      }
    }
  }

  /** One successful step of the forward loop keeps the loop's preconditions for the rest. */
  lemma ForwardStepKeepsShape(t: Table, g: Groups, p: nat)
    requires |t| > 0 && RenameTable(t) && NamesDistinct(g) && NoCollision(t, g)
    requires p < |g| && g[p] == t[0].key
    ensures NamesDistinct(g[p := t[0].value])
    ensures NoCollision(t[1..], g[p := t[0].value])
  {
    var next := g[p := t[0].value];
    assert t[0].value !in g;
    forall a, b | 0 <= a < b < |next| ensures next[a] != next[b] {
      if a == p {
        assert next[b] == g[b];
      } else if b == p {
        assert next[a] == g[a];
      }
    }
    forall x | x in next ensures x == t[0].value || x in g {
      var q :| 0 <= q < |next| && next[q] == x;
      if q != p {
        assert g[q] == x;
      }
    }
    var rest := t[1..];
    forall i | 0 <= i < |rest| && rest[i].key in next ensures rest[i].value !in next {
      assert rest[i] == t[i + 1];
    }
  }

  /** The backward loop is the forward loop over the swapped table. */
  lemma {:induction false} RenameBackwardIsForwardOfSwap(t: Table, g: Groups, dedupe: Dedupe)
    ensures RenameBackward(t, g, dedupe) == RenameForward(Swap(t), g, dedupe)
    decreases |t|
  {
    if |t| > 0 {
      var step := RenameGroup(g, t[0].value, t[0].key, dedupe);
      var next := if step.Some? then step.value else g;
      assert Swap(t)[1..] == Swap(t[1..]);
      RenameBackwardIsForwardOfSwap(t[1..], next, dedupe);
    }
  }

  lemma RenameTableSwap(t: Table)
    requires RenameTable(t)
    ensures RenameTable(Swap(t))
  {
  }

  /**
   * Backward after forward restores every group name, for a mesh none of
   * whose groups already carries a target name of the table.
   */
  lemma RenameRoundTrip(t: Table, g: Groups, dedupe: Dedupe)
    requires RenameTable(t) && NamesDistinct(g)
    requires forall i | 0 <= i < |g| :: !HasValue(t, g[i])
    ensures RenameBackward(t, RenameForward(t, g, dedupe).groups, dedupe).groups == g
  {
    RenameForwardTranslates(t, g, dedupe);
    var g1 := RenameForward(t, g, dedupe).groups;
    var s := Swap(t);
    RenameTableSwap(t);
    forall i | 0 <= i < |g| ensures HasKey(t, g[i]) ==> HasValue(t, g1[i]) && !HasKey(t, g1[i])
    ensures !HasKey(t, g[i]) ==> g1[i] == g[i]
    {
      if HasKey(t, g[i]) {
        var j :| 0 <= j < |t| && t[j].key == g[i];
        assert g1[i] == t[j].value;
      }
    }
    assert NamesDistinct(g1) by {
      forall a, b | 0 <= a < b < |g1| ensures g1[a] != g1[b] {
        if HasKey(t, g[a]) && HasKey(t, g[b]) {
          var ja :| 0 <= ja < |t| && t[ja].key == g[a];
          var jb :| 0 <= jb < |t| && t[jb].key == g[b];
          assert ja != jb;
        }
      }
    }
    assert NoCollision(s, g1) by {
      forall i | 0 <= i < |s| && s[i].key in g1 ensures s[i].value !in g1 {
      }
    }
    RenameBackwardIsForwardOfSwap(t, g1, dedupe);
    RenameForwardTranslates(s, g1, dedupe);
    forall i | 0 <= i < |g| ensures Translate(s, g1[i]) == g[i] {
      if HasKey(t, g[i]) {
        var j :| 0 <= j < |t| && t[j].key == g[i];
        assert s[j].key == g1[i];
      } else {
        assert !HasKey(s, g[i]);
      }
    }
  }

  /** Reading the table backwards twice gives the table. */
  lemma SwapSwap(t: Table)
    ensures Swap(Swap(t)) == t
  {
  }

  /**
   * Forward after backward restores every group name, for a mesh none of
   * whose groups already carries a source name of the table.
   */
  lemma RenameRoundTripBackward(t: Table, g: Groups, dedupe: Dedupe)
    requires RenameTable(t) && NamesDistinct(g)
    requires forall i | 0 <= i < |g| :: !HasKey(t, g[i])
    ensures RenameForward(t, RenameBackward(t, g, dedupe).groups, dedupe).groups == g
  {
    var s := Swap(t);
    RenameTableSwap(t);
    assert forall i | 0 <= i < |g| :: !HasValue(s, g[i]);
    RenameRoundTrip(s, g, dedupe);
    RenameBackwardIsForwardOfSwap(t, g, dedupe);
    var h := RenameForward(s, g, dedupe).groups;
    RenameBackwardIsForwardOfSwap(s, h, dedupe);
    SwapSwap(t);
  }

  /* ----- The two operators ----- */

  /** How a renaming operator ended; the add-on returns FINISHED in every case. */
  datatype RenameStatus = Finished(missing: seq<string>) | NotAMesh

  /** The module-level `mlab_bone_names` afterwards, the groups, and the report. */
  datatype OperatorResult = OperatorResult(names: Table, groups: Groups, status: RenameStatus)

  /** The two values `mlab_bone_names` takes in a session: as loaded, and after any update. */
  predicate SessionTable(names: Table) {
    names == MlabBoneNames || names == MergedBoneNames
  }

  /**
   * "MLAB to Rigify": on a mesh, bring `mlab_bone_names` up to date and run
   * the forward loop over it; on anything else, report and change nothing.
   */
  function MlabToRigify(kind: ObjectKind, names: Table, g: Groups, dedupe: Dedupe): (r: OperatorResult)
    ensures kind != Mesh ==> r == OperatorResult(names, g, NotAMesh)
    ensures kind == Mesh ==> r.status.Finished? && |r.groups| == |g|
    ensures kind == Mesh ==> forall i | 0 <= i < |g| && !HasKey(r.names, g[i]) :: r.groups[i] == g[i]
  {
    if kind != Mesh then OperatorResult(names, g, NotAMesh)
    else
      var updated := AddRenamed(names, MetarigBoneNames);
      var pass := RenameForward(updated, g, dedupe);
      OperatorResult(updated, pass.groups, Finished(pass.missing))
  }

  /**
   * "Rigify to MLAB": on a mesh, bring `mlab_bone_names` up to date and run
   * the backward loop over it; on anything else, report and change nothing.
   */
  function RigifyToMlab(kind: ObjectKind, names: Table, g: Groups, dedupe: Dedupe): (r: OperatorResult)
    ensures kind != Mesh ==> r == OperatorResult(names, g, NotAMesh)
    ensures kind == Mesh ==> r.status.Finished? && |r.groups| == |g|
    ensures kind == Mesh ==> forall i | 0 <= i < |g| && !HasValue(r.names, g[i]) :: r.groups[i] == g[i]
  {
    if kind != Mesh then OperatorResult(names, g, NotAMesh)
    else
      var updated := AddRenamed(names, MetarigBoneNames);
      var pass := RenameBackward(updated, g, dedupe);
      OperatorResult(updated, pass.groups, Finished(pass.missing))
  }

  /** The updated table has no rename chains. */
  lemma MergedIsRenameTable()
    ensures RenameTable(MergedBoneNames)
  {
    MergedBoneNamesShape();
  }

  /** No "DEF-" group name occurs as an MLAB name of the updated table. */
  lemma MergedValuesAreDef(name: string)
    ensures HasValue(MergedBoneNames, name) ==> HasDefPrefix(name)
    ensures HasKey(MergedBoneNames, name) ==> !HasDefPrefix(name)
  {
    MergedBoneNamesShape();
  }

  /** Both operators leave `mlab_bone_names` in its updated form, whichever form it had. */
  lemma OperatorsSettleTable(kind: ObjectKind, names: Table, g: Groups, dedupe: Dedupe)
    requires kind == Mesh && SessionTable(names)
    ensures MlabToRigify(kind, names, g, dedupe).names == MergedBoneNames
    ensures RigifyToMlab(kind, names, g, dedupe).names == MergedBoneNames
  {
    UpdateMlabBoneNamesResult();
    UpdateMlabBoneNamesStable();
  }

  /**
   * The forward loop over a rename table that holds the "DEF-" pair of every
   * metarig entry: the loop translates every name, reports exactly the
   * absent keys, and turns a group `b` of a pair `m: b` into "DEF-" + m.
   */
  lemma ForwardOverUpdated(t: Table, metarig: Table, g: Groups, dedupe: Dedupe)
    requires RenameTable(t) && NamesDistinct(g) && NoCollision(t, g)
    requires forall j | 0 <= j < |metarig| :: Get(t, metarig[j].value) == Some(DefPrefix + metarig[j].key)
    ensures RenameForward(t, g, dedupe) ==
      PassResult(seq(|g|, i requires 0 <= i < |g| => Translate(t, g[i])), MissingKeys(t, g))
    ensures forall i, j | 0 <= i < |g| && 0 <= j < |metarig| && g[i] == metarig[j].value ::
      RenameForward(t, g, dedupe).groups[i] == DefPrefix + metarig[j].key
  {
    RenameForwardTranslates(t, g, dedupe);
  }

  /** The backward counterpart: a group "DEF-" + m of a pair `m: b` becomes `b`. */
  lemma BackwardOverUpdated(t: Table, metarig: Table, g: Groups, dedupe: Dedupe)
    requires RenameTable(t) && NamesDistinct(g) && NoCollision(Swap(t), g)
    requires forall j | 0 <= j < |metarig| :: Get(t, metarig[j].value) == Some(DefPrefix + metarig[j].key)
    ensures RenameBackward(t, g, dedupe) ==
      PassResult(seq(|g|, i requires 0 <= i < |g| => Translate(Swap(t), g[i])), MissingKeys(Swap(t), g))
    ensures forall i, j | 0 <= i < |g| && 0 <= j < |metarig| && g[i] == DefPrefix + metarig[j].key ::
      RenameBackward(t, g, dedupe).groups[i] == metarig[j].value
  {
    var s := Swap(t);
    RenameTableSwap(t);
    RenameBackwardIsForwardOfSwap(t, g, dedupe);
    RenameForwardTranslates(s, g, dedupe);
    forall i, j | 0 <= i < |g| && 0 <= j < |metarig| && g[i] == DefPrefix + metarig[j].key
      ensures Translate(s, g[i]) == metarig[j].value
    {
      var k := Find(t, metarig[j].value).value;
      assert s[k].key == g[i];
    }
  }

  /**
   * "MLAB to Rigify" on a mesh with unique group names, none renamed onto a
   * taken name: every group named by an MLAB bone of the updated table gets
   * its Rigify name and all other groups keep theirs.
   */
  lemma MlabToRigifyTranslates(names: Table, g: Groups, dedupe: Dedupe)
    requires SessionTable(names) && NamesDistinct(g) && NoCollision(MergedBoneNames, g)
    ensures MlabToRigify(Mesh, names, g, dedupe).groups ==
      seq(|g|, i requires 0 <= i < |g| => Translate(MergedBoneNames, g[i]))
  {
    OperatorsSettleTable(Mesh, names, g, dedupe);
    MergedIsRenameTable();
    RenameForwardTranslates(MergedBoneNames, g, dedupe);
  }

  /** Under the same conditions, the MLAB names naming no group are exactly the ones reported. */
  lemma MlabToRigifyReports(names: Table, g: Groups, dedupe: Dedupe)
    requires SessionTable(names) && NamesDistinct(g) && NoCollision(MergedBoneNames, g)
    ensures MlabToRigify(Mesh, names, g, dedupe).status == Finished(MissingKeys(MergedBoneNames, g))
  {
    OperatorsSettleTable(Mesh, names, g, dedupe);
    MergedIsRenameTable();
    RenameForwardTranslates(MergedBoneNames, g, dedupe);
  }

  /** Under the same conditions, a metarig pair `m: b` turns group `b` into "DEF-" + m. */
  lemma MlabToRigifyDefNames(names: Table, g: Groups, dedupe: Dedupe)
    requires SessionTable(names) && NamesDistinct(g) && NoCollision(MergedBoneNames, g)
    ensures forall i, j | 0 <= i < |g| && 0 <= j < |MetarigBoneNames| && g[i] == MetarigBoneNames[j].value ::
      MlabToRigify(Mesh, names, g, dedupe).groups[i] == DefPrefix + MetarigBoneNames[j].key
  {
    OperatorsSettleTable(Mesh, names, g, dedupe);
    MergedIsRenameTable();
    MergedBoneNamesPairs();
    ForwardOverUpdated(MergedBoneNames, MetarigBoneNames, g, dedupe);
  }

  /**
   * "Rigify to MLAB" under the same conditions read backwards: every group
   * named by a Rigify name of the table gets its MLAB name back.
   */
  lemma RigifyToMlabTranslates(names: Table, g: Groups, dedupe: Dedupe)
    requires SessionTable(names) && NamesDistinct(g) && NoCollision(Swap(MergedBoneNames), g)
    ensures RigifyToMlab(Mesh, names, g, dedupe).groups ==
      seq(|g|, i requires 0 <= i < |g| => Translate(Swap(MergedBoneNames), g[i]))
  {
    OperatorsSettleTable(Mesh, names, g, dedupe);
    MergedIsRenameTable();
    RenameTableSwap(MergedBoneNames);
    RenameBackwardIsForwardOfSwap(MergedBoneNames, g, dedupe);
    RenameForwardTranslates(Swap(MergedBoneNames), g, dedupe);
  }

  /** Under the same conditions, the Rigify names naming no group are exactly the ones reported. */
  lemma RigifyToMlabReports(names: Table, g: Groups, dedupe: Dedupe)
    requires SessionTable(names) && NamesDistinct(g) && NoCollision(Swap(MergedBoneNames), g)
    ensures RigifyToMlab(Mesh, names, g, dedupe).status == Finished(MissingKeys(Swap(MergedBoneNames), g))
  {
    OperatorsSettleTable(Mesh, names, g, dedupe);
    MergedIsRenameTable();
    RenameTableSwap(MergedBoneNames);
    RenameBackwardIsForwardOfSwap(MergedBoneNames, g, dedupe);
    RenameForwardTranslates(Swap(MergedBoneNames), g, dedupe);
  }

  /** Under the same conditions, a group "DEF-" + m of a metarig pair `m: b` becomes `b`. */
  lemma RigifyToMlabMlabNames(names: Table, g: Groups, dedupe: Dedupe)
    requires SessionTable(names) && NamesDistinct(g) && NoCollision(Swap(MergedBoneNames), g)
    ensures forall i, j | 0 <= i < |g| && 0 <= j < |MetarigBoneNames| && g[i] == DefPrefix + MetarigBoneNames[j].key ::
      RigifyToMlab(Mesh, names, g, dedupe).groups[i] == MetarigBoneNames[j].value
  {
    OperatorsSettleTable(Mesh, names, g, dedupe);
    MergedIsRenameTable();
    MergedBoneNamesPairs();
    BackwardOverUpdated(MergedBoneNames, MetarigBoneNames, g, dedupe);
  }

  /**
   * On a mesh whose groups carry no "DEF-" name, "Rigify to MLAB" right after
   * "MLAB to Rigify" gives every group its old name back.
   */
  lemma MlabRigifyRoundTrip(names: Table, g: Groups, dedupe: Dedupe)
    requires SessionTable(names) && NamesDistinct(g)
    requires forall i | 0 <= i < |g| :: !HasDefPrefix(g[i])
    ensures RigifyToMlab(Mesh, MlabToRigify(Mesh, names, g, dedupe).names,
      MlabToRigify(Mesh, names, g, dedupe).groups, dedupe).groups == g
  {
    var t := MergedBoneNames;
    OperatorsSettleTable(Mesh, names, g, dedupe);
    var there := MlabToRigify(Mesh, names, g, dedupe);
    assert there.groups == RenameForward(t, g, dedupe).groups;
    OperatorsSettleTable(Mesh, t, there.groups, dedupe);
    assert RigifyToMlab(Mesh, t, there.groups, dedupe).groups == RenameBackward(t, there.groups, dedupe).groups;
    MergedIsRenameTable();
    forall i | 0 <= i < |g| ensures !HasValue(t, g[i]) {
      MergedValuesAreDef(g[i]);
    }
    RenameRoundTrip(t, g, dedupe);
  }

  /**
   * On a mesh whose groups carry no MLAB name of the table, "MLAB to Rigify"
   * right after "Rigify to MLAB" gives every group its old name back.
   */
  lemma RigifyMlabRoundTrip(names: Table, g: Groups, dedupe: Dedupe)
    requires SessionTable(names) && NamesDistinct(g)
    requires forall i | 0 <= i < |g| :: !HasKey(MergedBoneNames, g[i])
    ensures MlabToRigify(Mesh, RigifyToMlab(Mesh, names, g, dedupe).names,
      RigifyToMlab(Mesh, names, g, dedupe).groups, dedupe).groups == g
  {
    var t := MergedBoneNames;
    OperatorsSettleTable(Mesh, names, g, dedupe);
    var back := RigifyToMlab(Mesh, names, g, dedupe);
    assert back.groups == RenameBackward(t, g, dedupe).groups;
    OperatorsSettleTable(Mesh, t, back.groups, dedupe);
    assert MlabToRigify(Mesh, t, back.groups, dedupe).groups == RenameForward(t, back.groups, dedupe).groups;
    MergedIsRenameTable();
    RenameRoundTripBackward(t, g, dedupe);
  }
}
