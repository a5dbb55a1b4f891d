/**
 * The persisted shape of a node of a materialized-path tree: a row of a flat
 * table whose `path` lists the ids from the root down to the node, joined by '.'.
 */
module TreeEntity {
  import opened Wrappers

  /**
   * One row. `parent` holds the parent's id (the `parent_id` column the ORM
   * resolves to a reference), so the entity's `parentId` getter, "the parent's
   * id, or null", is this field itself.
   */
  datatype TreeNode = TreeNode(
    id: nat,
    name: string,
    description: Option<string>,
    level: nat,
    path: string,
    parent: Option<nat>)

  /**
   * The row as the first insert of `create` stores it, before its path is known:
   * the entity's defaults `level = 0` and `path = ''`, and no parent.
   */
  function Placeholder(id: nat, name: string, description: Option<string>): TreeNode
  {
    TreeNode(id, name, description, 0, "", None)
  }

  /** No two rows of a table share an id (the primary key). */
  ghost predicate UniqueIds(rows: seq<TreeNode>)
  {
    forall i, j :: 0 <= i < |rows| && 0 <= j < |rows| && rows[i].id == rows[j].id ==> i == j
  }
}
