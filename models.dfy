/**
 * The declarative part of the permission app: the Project record with its
 * field constraints and timestamp rules, and the fixed catalog of
 * controllable actions registered as permissions.
 */
module Models {
  import opened Wrappers

  /** Largest number of characters a project name may have. */
  const MaxNameLength: nat := 128

  /**
   * A project row. Timestamps are abstract clock readings: the
   * date-time type and its text format are not part of this model.
   */
  datatype Project = Project(name: string, createTime: nat, updateTime: nat)

  /** A project name is required (no blank value) and bounded in length. */
  predicate ValidName(name: string) {
    0 < |name| <= MaxNameLength
  }

  /** The first save of a project at clock reading `now`. */
  function Create(name: string, now: nat): Project {
    Project(name, now, now)
  }

  /**
   * A later save through the project serializer: the name and the
   * creation time it assigns (`None` where the request leaves a field
   * out), and the clock reading it happens at.
   */
  datatype Edit = Edit(name: Option<string>, createTime: Option<nat>, now: nat)

  /**
   * A later save: assigned fields replace the stored ones. The creation
   * time is set by the clock only on the first save, so a later save keeps
   * it unless it assigns one; the update time is the clock's on every save.
   */
  function Save(p: Project, e: Edit): Project {
    Project(e.name.GetOr(p.name), e.createTime.GetOr(p.createTime), e.now)
  }

  /** The project after a series of later saves, oldest first. */
  function SaveAll(p: Project, edits: seq<Edit>): Project
    decreases |edits|
  {
    if edits == [] then p else Save(SaveAll(p, edits[..|edits| - 1]), edits[|edits| - 1])
  }

  /**
   * After a series of later saves, the update time is the reading of the
   * last save; the name and the creation time are the ones the last save
   * assigning them supplied, or the original ones when no save did.
   */
  lemma {:induction false} LaterSaves(p: Project, edits: seq<Edit>)
    ensures SaveAll(p, edits).updateTime == if edits == [] then p.updateTime else edits[|edits| - 1].now
    ensures (forall i :: 0 <= i < |edits| ==> edits[i].createTime.None?) ==>
      SaveAll(p, edits).createTime == p.createTime
    ensures forall k :: 0 <= k < |edits| && edits[k].createTime.Some? &&
                        (forall j :: k < j < |edits| ==> edits[j].createTime.None?) ==>
      SaveAll(p, edits).createTime == edits[k].createTime.value
    ensures (forall i :: 0 <= i < |edits| ==> edits[i].name.None?) ==>
      SaveAll(p, edits).name == p.name
    ensures forall k :: 0 <= k < |edits| && edits[k].name.Some? &&
                        (forall j :: k < j < |edits| ==> edits[j].name.None?) ==>
      SaveAll(p, edits).name == edits[k].name.value
    decreases |edits|
  {
    if edits != [] {
      var n := |edits| - 1;
      var prefix := edits[..n];
      LaterSaves(p, prefix);
      assert forall i :: 0 <= i < n ==> prefix[i] == edits[i];
    }
  }

  /**
   * With a clock that never goes backwards, a project created at `now` and
   * saved again later is never updated before it was created, provided no
   * save assigns a creation time later than its own clock reading.
   */
  lemma {:induction false} CreatedNotAfterUpdated(name: string, now: nat, edits: seq<Edit>)
    requires forall i :: 0 <= i < |edits| ==> now <= edits[i].now
    requires forall i, j :: 0 <= i < j < |edits| ==> edits[i].now <= edits[j].now
    requires forall i :: 0 <= i < |edits| && edits[i].createTime.Some? ==> edits[i].createTime.value <= edits[i].now
    ensures SaveAll(Create(name, now), edits).createTime <= SaveAll(Create(name, now), edits).updateTime
    decreases |edits|
  {
    if edits != [] {
      var n := |edits| - 1;
      var prefix := edits[..n];
      CreatedNotAfterUpdated(name, now, prefix);
      LaterSaves(Create(name, now), prefix);
      assert SaveAll(Create(name, now), prefix).updateTime <= edits[n].now by {
        if prefix != [] { assert prefix[n - 1] == edits[n - 1]; }
      }
    }
  }

  /** A save that assigns a creation time later than its clock reading leaves the project updated before it was created. */
  lemma AssignedFutureCreateTime(p: Project, e: Edit)
    requires e.createTime.Some? && e.createTime.value > e.now
    ensures Save(p, e).createTime > Save(p, e).updateTime
  {
  }

  /** The actions and the subjects the catalog enumerates, in catalog order. */
  const Actions: seq<string> := ["create", "edit", "delete", "view"]
  const Subjects: seq<string> := ["test_case", "env_config"]

  /** The controllable actions, as (codename, label) pairs. */
  const Catalog: seq<(string, string)> := [
    ("create_test_case", "创建测试用例"),
    ("edit_test_case", "编辑测试用例"),
    ("delete_test_case", "删除测试用例"),
    ("view_test_case", "查看测试用例"),
    ("create_env_config", "创建环境配置"),
    ("edit_env_config", "编辑环境配置"),
    ("delete_env_config", "删除环境配置"),
    ("view_env_config", "查看环境配置")
  ]

  /** The catalog has eight entries and no codename appears twice. */
  lemma CatalogCodenamesDistinct()
    ensures |Catalog| == 8
    ensures forall i, j :: 0 <= i < j < |Catalog| ==> Catalog[i].0 != Catalog[j].0
  {
  }

  /**
   * Entry `|Actions| * s + a` of the catalog is action `a` applied to
   * subject `s`: each subject gets create, edit, delete and view.
   */
  lemma CatalogCoversActions()
    ensures |Catalog| == |Actions| * |Subjects|
    ensures forall s, a :: 0 <= s < |Subjects| && 0 <= a < |Actions| ==>
      Catalog[|Actions| * s + a].0 == Actions[a] + "_" + Subjects[s]
  {
  }
}
