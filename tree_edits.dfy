/**
 * What the writes of the tree service do to a consistent table: a successful
 * `create` and a successful `update` keep it consistent (unique ids, every
 * path its parent's path extended by the id, every level one below the
 * parent's); `update` refuses to move a node under itself or under one of its
 * descendants; removing a row keeps the table consistent exactly when no row
 * names it as parent; and a failed `create` leaves an inconsistent row behind.
 */
module TreeEdits {
  import opened Wrappers
  import opened Errors
  import opened Text
  import opened TreeEntity
  import opened BaseTreeService
  import opened TreeTheory
  import opened DemoTree
  import BaseService
  import Seqs

  // ---------------------------------------------------------------- lookups

  /** Looking up an id in a table with a row appended: the earlier rows win. */
  lemma {:induction false} FindAppend(rows: seq<TreeNode>, x: TreeNode, k: nat)
    ensures Find(rows + [x], k) == if Find(rows, k).Some? then Find(rows, k) else if x.id == k then Some(x) else None
  {
    if |rows| > 0 {
      assert (rows + [x])[1..] == rows[1..] + [x];
      FindAppend(rows[1..], x, k);
    }
  }

  /** In a table with the same ids at the same positions, a row's id finds the row at its position. */
  lemma FindSameIds(rows: seq<TreeNode>, next: seq<TreeNode>, j: nat)
    requires UniqueIds(rows) && SameIds(rows, next) && j < |rows|
    ensures Find(next, rows[j].id) == Some(next[j])
  {
    SameIdsUnique(rows, next);
    FindRow(next, j);
  }

  // ---------------------------------------------------------------- create

  /** A row `create` finishes keeps a consistent table consistent. */
  lemma CreatePreservesWellFormed(rows: seq<TreeNode>, id: nat, name: string, description: Option<string>, parentId: Option<nat>)
    requires WellFormed(rows) && id > 0 && forall i :: 0 <= i < |rows| ==> rows[i].id != id
    requires Created(rows + [Placeholder(id, name, description)], id, name, description, parentId).Ok?
    ensures WellFormed(rows + [Created(rows + [Placeholder(id, name, description)], id, name, description, parentId).value])
  {
    var placeholder := Placeholder(id, name, description);
    var n := Created(rows + [placeholder], id, name, description, parentId).value;
    var t := rows + [n];
    AppendFresh(rows, n);
    forall k | Find(rows, k).Some? ensures Find(t, k) == Find(rows, k) {
      FindAppend(rows, n, k);
    }
    forall m | m in t ensures NodeWellFormed(t, m) {
      if m in rows {
        assert NodeWellFormed(rows, m);
      } else {
        assert m == n;
        if !Falsy(parentId) {
          var pid := parentId.value;
          FindAppend(rows, placeholder, pid);
          assert Find(rows, pid).Some?;
        }
      }
    }
  }

  /** The placeholder the first write stores is not a consistent row: its path is empty. */
  lemma PlaceholderIsInconsistent(rows: seq<TreeNode>, id: nat, name: string, description: Option<string>)
    ensures !NodeWellFormed(rows, Placeholder(id, name, description))
  {
  }

  /** So a `create` that fails after its first write leaves the table inconsistent. */
  lemma FailedCreateLeavesInconsistentTable(rows: seq<TreeNode>, id: nat, name: string, description: Option<string>)
    ensures !WellFormed(rows + [Placeholder(id, name, description)])
  {
    PlaceholderIsInconsistent(rows + [Placeholder(id, name, description)], id, name, description);
  }

  /**
   * Naming the fresh id as parent finds the placeholder with its empty path,
   * which passes the depth check, so the self-parent check is what refuses it.
   */
  lemma CreateUnderItselfIsRefused(rows: seq<TreeNode>, id: nat, name: string, description: Option<string>)
    requires id > 0 && forall i :: 0 <= i < |rows| ==> rows[i].id != id
    ensures Created(rows + [Placeholder(id, name, description)], id, name, description, Some(id)) == Err(BadRequest(SelfParent))
  {
    var placeholder := Placeholder(id, name, description);
    FindAppend(rows, placeholder, id);
    AppendSegment("", id);
    assert SegmentCount("") == 1;
  }

  /** Under an existing parent, `create` succeeds exactly when the parent's level is below MAX_DEPTH - 1. */
  lemma CreateDepthLimit(rows: seq<TreeNode>, id: nat, name: string, description: Option<string>, p: TreeNode)
    requires WellFormed(rows) && id > 0 && forall i :: 0 <= i < |rows| ==> rows[i].id != id
    requires p in rows
    ensures var r := Created(rows + [Placeholder(id, name, description)], id, name, description, Some(p.id));
      && (r.Ok? <==> p.level + 1 < MAX_DEPTH)
      && (r.Err? ==> r.error == BadRequest(DepthExceeded))
      && (r.Ok? ==> r.value.level == p.level + 1)
  {
    var placeholder := Placeholder(id, name, description);
    var i :| 0 <= i < |rows| && rows[i] == p;
    FindRow(rows, i);
    FindAppend(rows, placeholder, p.id);
    assert NodeWellFormed(rows, p);
    LevelMatchesSegments(rows, p);
    AppendSegment(p.path, id);
  }

  // ---------------------------------------------------------------- update

  /** The node's new placement: a root, or under a parent that is neither the node nor below it. */
  ghost predicate Placement(rows: seq<TreeNode>, n: TreeNode, moved: TreeNode)
    requires WellFormed(rows)
  {
    && moved.id == n.id
    && SegmentCount(moved.path) <= MAX_DEPTH
    && SegmentCount(moved.path) == moved.level + 1
    && match moved.parent
       case None => moved.path == Decimal(n.id) && moved.level == 0
       case Some(q) =>
         && Find(rows, q).Some?
         && Find(rows, q).value.id != n.id
         && (n in rows ==> n.id !in AncestorIds(rows, Find(rows, q).value))
         && moved.path == Find(rows, q).value.path + "." + Decimal(n.id)
         && moved.level == Find(rows, q).value.level + 1
  }

  /** Rewriting a path extended by one segment extends the rewritten path by that segment. */
  lemma RebaseAppend(oldPath: string, newPath: string, base: string, id: nat)
    requires |oldPath| <= |base|
    ensures Rebase(oldPath, newPath, base + "." + Decimal(id)) == Rebase(oldPath, newPath, base) + "." + Decimal(id)
  {
    assert (base + "." + Decimal(id))[|oldPath|..] == base[|oldPath|..] + "." + Decimal(id);
  }

  /** The cascade's precondition on a consistent table. */
  ghost predicate CascadeReady(rows: seq<TreeNode>, n: TreeNode, moved: TreeNode, descendants: seq<TreeNode>)
  {
    && WellFormed(rows) && n in rows
    && GetAllDescendants(rows, n.id) == Ok(descendants)
    && Below(n.path, descendants)
    && Placement(rows, n, moved)
    && forall d :: d in descendants ==> SegmentCount(Rebase(n.path, moved.path, d.path)) <= MAX_DEPTH
  }

  /** One row of the cascaded table is consistent with it. */
  lemma CascadeRowWellFormed(rows: seq<TreeNode>, n: TreeNode, moved: TreeNode, descendants: seq<TreeNode>, i: nat)
    requires CascadeReady(rows, n, moved, descendants) && i < |rows|
    ensures NodeWellFormed(CascadeRowsIntended(rows, n.path, moved, descendants), CascadeRowsIntended(rows, n.path, moved, descendants)[i])
  {
    if rows[i].id == n.id {
      CascadeMovedRow(rows, n, moved, descendants, i);
    } else if rows[i] in descendants {
      CascadeDescendantRow(rows, n, moved, descendants, i);
    } else {
      CascadeOtherRow(rows, n, moved, descendants, i);
    }
  }

  /** The moved row is consistent with the cascaded table. */
  lemma CascadeMovedRow(rows: seq<TreeNode>, n: TreeNode, moved: TreeNode, descendants: seq<TreeNode>, i: nat)
    requires CascadeReady(rows, n, moved, descendants) && i < |rows| && rows[i].id == n.id
    ensures NodeWellFormed(CascadeRowsIntended(rows, n.path, moved, descendants), CascadeRowsIntended(rows, n.path, moved, descendants)[i])
  {
    var next := CascadeRowsIntended(rows, n.path, moved, descendants);
    assert next[i] == moved;
    assert NodeWellFormed(rows, n);
    if moved.parent.Some? {
      var p := Find(rows, moved.parent.value).value;
      var j :| 0 <= j < |rows| && rows[j] == p;
      GetAllDescendantsExact(rows, n);
      assert p !in descendants;
      assert next[j] == p;
      FindSameIds(rows, next, j);
    }
  }

  /** A rebased descendant is consistent with the cascaded table. */
  lemma CascadeDescendantRow(rows: seq<TreeNode>, n: TreeNode, moved: TreeNode, descendants: seq<TreeNode>, i: nat)
    requires CascadeReady(rows, n, moved, descendants) && i < |rows| && rows[i].id != n.id && rows[i] in descendants
    ensures NodeWellFormed(CascadeRowsIntended(rows, n.path, moved, descendants), CascadeRowsIntended(rows, n.path, moved, descendants)[i])
  {
    var next := CascadeRowsIntended(rows, n.path, moved, descendants);
    GetAllDescendantsExact(rows, n);
    var m := rows[i];
    assert NodeWellFormed(rows, m);
    var pr := ParentRow(rows, m);
    var j :| 0 <= j < |rows| && rows[j] == pr;
    FindSameIds(rows, next, j);
    assert next[i] == RebaseRowIntended(n.path, moved.path, m);
    if pr.id == n.id {
      FindRowsEqual(rows, pr, n);
      RebaseAppend(n.path, moved.path, n.path, m.id);
      assert Rebase(n.path, moved.path, n.path) == moved.path;
      AppendSegment(moved.path, m.id);
    } else {
      assert n.id in AncestorIds(rows, pr);
      assert pr in descendants;
      RebaseAppend(n.path, moved.path, pr.path, m.id);
      AppendSegment(Rebase(n.path, moved.path, pr.path), m.id);
    }
  }

  /** A row outside the moved subtree is consistent with the cascaded table. */
  lemma CascadeOtherRow(rows: seq<TreeNode>, n: TreeNode, moved: TreeNode, descendants: seq<TreeNode>, i: nat)
    requires CascadeReady(rows, n, moved, descendants) && i < |rows| && rows[i].id != n.id && rows[i] !in descendants
    ensures NodeWellFormed(CascadeRowsIntended(rows, n.path, moved, descendants), CascadeRowsIntended(rows, n.path, moved, descendants)[i])
  {
    var next := CascadeRowsIntended(rows, n.path, moved, descendants);
    GetAllDescendantsExact(rows, n);
    var m := rows[i];
    assert NodeWellFormed(rows, m);
    if m.parent.Some? {
      var pr := ParentRow(rows, m);
      var j :| 0 <= j < |rows| && rows[j] == pr;
      FindSameIds(rows, next, j);
      assert pr !in descendants;
    }
  }


  /** The cascade keeps a consistent table consistent. */
  lemma CascadeWellFormed(rows: seq<TreeNode>, n: TreeNode, moved: TreeNode, descendants: seq<TreeNode>)
    requires CascadeReady(rows, n, moved, descendants)
    ensures WellFormed(CascadeRowsIntended(rows, n.path, moved, descendants))
  {
    var next := CascadeRowsIntended(rows, n.path, moved, descendants);
    SameIdsUnique(rows, next);
    forall x | x in next ensures NodeWellFormed(next, x) {
      var i :| 0 <= i < |next| && next[i] == x;
      CascadeRowWellFormed(rows, n, moved, descendants, i);
    }
  }

  /** Renaming keeps a consistent table consistent. */
  lemma RenamePreservesWellFormed(rows: seq<TreeNode>, n: TreeNode, renamed: TreeNode)
    requires WellFormed(rows) && n in rows
    requires renamed.id == n.id && renamed.path == n.path && renamed.level == n.level && renamed.parent == n.parent
    ensures WellFormed(ReplaceRow(rows, renamed))
  {
    var next := ReplaceRow(rows, renamed);
    SameIdsUnique(rows, next);
    forall x | x in next ensures NodeWellFormed(next, x) {
      var i :| 0 <= i < |next| && next[i] == x;
      if rows[i].id == n.id {
        FindRowsEqual(rows, rows[i], n);
      }
      assert NodeWellFormed(rows, rows[i]);
      if rows[i].parent.Some? {
        var pr := ParentRow(rows, rows[i]);
        var j :| 0 <= j < |rows| && rows[j] == pr;
        FindSameIds(rows, next, j);
        if rows[j].id == n.id {
          FindRowsEqual(rows, rows[j], n);
        }
      }
    }
  }

  /** A successful intended update keeps a consistent table consistent. */
  lemma UpdatePreservesWellFormed(rows: seq<TreeNode>, id: nat, name: Patch<string>, description: Patch<Option<string>>,
                                  parentId: Patch<Option<nat>>)
    requires WellFormed(rows)
    requires UpdatedIntended(rows, id, name, description, parentId).Ok?
    ensures WellFormed(UpdatedIntended(rows, id, name, description, parentId).value)
  {
    var n := FindOne(rows, id).value;
    var node := Renamed(n, name, description);
    if parentId.Absent? {
      RenamePreservesWellFormed(rows, n, node);
    } else {
      var descendants := GetAllDescendants(rows, id).value;
      GetAllDescendantsExact(rows, n);
      var moved := Moved(rows, node, parentId.value, descendants).value;
      assert Below(n.path, descendants);
      MovedIsPlaced(rows, n, node, parentId.value, descendants);
      assert CascadeReady(rows, n, moved, descendants);
      CascadeWellFormed(rows, n, moved, descendants);
    }
  }

  /**
   * `update` as written keeps a consistent table consistent when the node's
   * path keeps its length: every rename, and every move to a path as long as
   * the old one.
   */
  lemma UpdateKeepsWellFormedOnEqualLength(rows: seq<TreeNode>, id: nat, name: Patch<string>, description: Patch<Option<string>>,
                                           parentId: Patch<Option<nat>>)
    requires WellFormed(rows)
    requires KeepsPathLength(rows, id, name, description, parentId)
    requires Updated(rows, id, name, description, parentId).Ok?
    ensures WellFormed(Updated(rows, id, name, description, parentId).value)
  {
    UpdatedAgreesOnEqualLength(rows, id, name, description, parentId);
    UpdatePreservesWellFormed(rows, id, name, description, parentId);
  }

  /**
   * `update` as written breaks a consistent table: promoting `1.2` (with child
   * `1.2.3`) to a root succeeds, but the child's path becomes `2.2.3` while its
   * parent's is `2`.
   */
  lemma PromoteAsWrittenBreaksTable()
    ensures var rows := [TreeNode(1, "a", None, 0, "1", None), TreeNode(2, "b", None, 1, "1.2", Some(1)),
                         TreeNode(3, "c", None, 2, "1.2.3", Some(2))];
      && WellFormed(rows)
      && Updated(rows, 2, Absent, Absent, Given(None)).Ok?
      && !WellFormed(Updated(rows, 2, Absent, Absent, Given(None)).value)
  {
    var rows := [TreeNode(1, "a", None, 0, "1", None), TreeNode(2, "b", None, 1, "1.2", Some(1)),
                 TreeNode(3, "c", None, 2, "1.2.3", Some(2))];
    ChainWellFormed(rows);
    var next := [rows[0], rows[1].(parent := None, level := 0, path := "2"), rows[2].(path := "2.2.3", level := 2)];
    PromoteChain(rows, next);
    assert Find(next, 2) == Some(next[1]);
    assert Decimal(3) == "3";
    assert "2" + "." + "3" != "2.2.3" by {
      assert |"2" + "." + "3"| == 3;
    }
    assert !NodeWellFormed(next, next[2]);
  }

  /** The table 1, 1.2, 1.2.3 is consistent. */
  lemma ChainWellFormed(rows: seq<TreeNode>)
    requires rows == [TreeNode(1, "a", None, 0, "1", None), TreeNode(2, "b", None, 1, "1.2", Some(1)),
                      TreeNode(3, "c", None, 2, "1.2.3", Some(2))]
    ensures WellFormed(rows)
  {
    ChainPaths();
    assert Find(rows, 1) == Some(rows[0]) && Find(rows, 2) == Some(rows[1]);
    assert UniqueIds(rows);
    forall n | n in rows ensures NodeWellFormed(rows, n) {
      assert n == rows[0] || n == rows[1] || n == rows[2];
    }
  }

  /** The paths of that table, segment by segment. */
  lemma ChainPaths()
    ensures Decimal(1) == "1" && Decimal(2) == "2" && Decimal(3) == "3"
    ensures "1" + "." + Decimal(2) == "1.2" && "1.2" + "." + Decimal(3) == "1.2.3"
    ensures SegmentCount("1") == 1 && SegmentCount("1.2") == 2 && SegmentCount("1.2.3") == 3
  {
    assert Decimal(1) == "1" && Decimal(2) == "2" && Decimal(3) == "3";
    DecimalIsOneSegment(1);
    AppendSegment("1", 2);
    AppendSegment("1.2", 3);
  }

  /** Promoting node 2 of that table, as written: node 2 becomes the root `2`, node 3 gets `2.2.3`. */
  lemma PromoteChain(rows: seq<TreeNode>, next: seq<TreeNode>)
    requires rows == [TreeNode(1, "a", None, 0, "1", None), TreeNode(2, "b", None, 1, "1.2", Some(1)),
                      TreeNode(3, "c", None, 2, "1.2.3", Some(2))]
    requires next == [rows[0], rows[1].(parent := None, level := 0, path := "2"), rows[2].(path := "2.2.3", level := 2)]
    ensures Updated(rows, 2, Absent, Absent, Given(None)) == Ok(next)
  {
    assert Find(rows, 2) == Some(rows[1]);
    var descendants := GetAllDescendants(rows, 2).value;
    ChainDescendants(rows, descendants);
    assert Decimal(2) == "2";
    PromoteIsCascade(rows, 2);
    ChainCascade(rows, rows[1].(parent := None, level := 0, path := "2"), descendants, next);
  }

  /** Promoting a stored node to a root, with nothing renamed, is the cascade below its new root path. */
  lemma PromoteIsCascade(rows: seq<TreeNode>, id: nat)
    requires FindOne(rows, id).Ok?
    ensures Updated(rows, id, Absent, Absent, Given(None)) ==
      Cascade(rows, FindOne(rows, id).value.(parent := None, level := 0, path := Decimal(id)), GetAllDescendants(rows, id).value)
  {
    var n := FindOne(rows, id).value;
    assert Renamed(n, Absent, Absent) == n;
  }

  /** In that table, node 3 is the only descendant of node 2. */
  lemma ChainDescendants(rows: seq<TreeNode>, descendants: seq<TreeNode>)
    requires rows == [TreeNode(1, "a", None, 0, "1", None), TreeNode(2, "b", None, 1, "1.2", Some(1)),
                      TreeNode(3, "c", None, 2, "1.2.3", Some(2))]
    requires GetAllDescendants(rows, 2) == Ok(descendants)
    ensures forall d :: d in descendants <==> d == rows[2]
  {
    assert Find(rows, 2) == Some(rows[1]);
    assert DescendantPrefix(rows[1]) == "1.2.";
    assert StartsWith(rows[2].path, "1.2.");
    forall d | d in descendants ensures d == rows[2] {
      assert d == rows[0] || d == rows[1] || d == rows[2];
    }
  }

  /** The cascade as written below the new root `2`: node 3 gets `2.2.3` at level 2. */
  lemma ChainCascade(rows: seq<TreeNode>, moved: TreeNode, descendants: seq<TreeNode>, next: seq<TreeNode>)
    requires rows == [TreeNode(1, "a", None, 0, "1", None), TreeNode(2, "b", None, 1, "1.2", Some(1)),
                      TreeNode(3, "c", None, 2, "1.2.3", Some(2))]
    requires moved == rows[1].(parent := None, level := 0, path := "2")
    requires forall d :: d in descendants <==> d == rows[2]
    requires next == [rows[0], moved, rows[2].(path := "2.2.3", level := 2)]
    ensures Cascade(rows, moved, descendants) == Ok(next)
  {
    RebaseAsWrittenMisplacesDescendant();
    assert SegmentCount(RebaseAsWritten("2", rows[2].path)) == 3;
    assert CascadeRows(rows, moved, descendants) == next;
  }

  /** The node `update` moves lands under an existing parent outside its own subtree. */
  lemma MovedIsPlaced(rows: seq<TreeNode>, n: TreeNode, node: TreeNode, parentId: Option<nat>, descendants: seq<TreeNode>)
    requires WellFormed(rows) && n in rows && node.id == n.id && parentId != Some(n.id)
    requires GetAllDescendants(rows, n.id) == Ok(descendants)
    requires Moved(rows, node, parentId, descendants).Ok?
    ensures Placement(rows, n, Moved(rows, node, parentId, descendants).value)
  {
    GetAllDescendantsExact(rows, n);
    var moved := Moved(rows, node, parentId, descendants).value;
    assert NodeWellFormed(rows, n);
    if moved.parent.None? {
      DecimalIsOneSegment(n.id);
    } else {
      var p := Find(rows, parentId.value).value;
      assert p in rows && p.id == parentId.value;
      assert NodeWellFormed(rows, p);
      LevelMatchesSegments(rows, p);
      AppendSegment(p.path, n.id);
      assert p !in descendants;
    }
  }

  /** `update` refuses to place a node under one of its own descendants. */
  lemma UpdateRefusesDescendantParent(rows: seq<TreeNode>, n: TreeNode, d: TreeNode,
                                      name: Patch<string>, description: Patch<Option<string>>)
    requires WellFormed(rows) && n in rows && d in rows && n.id in AncestorIds(rows, d)
    ensures Updated(rows, n.id, name, description, Given(Some(d.id))) == Err(BadRequest(UnderOwnDescendant))
  {
    var i :| 0 <= i < |rows| && rows[i] == n;
    FindRow(rows, i);
    AncestorPathIsPrefix(rows, n, d);
    assert d.id != n.id by {
      if d.id == n.id { FindRowsEqual(rows, d, n); }
    }
    assert d in GetAllDescendants(rows, n.id).value;
    MoveUnderDescendantRefused(rows, n.id, d, name, description);
  }

  /** A stored descendant of a stored node, given as its new parent, refuses the move. */
  lemma MoveUnderDescendantRefused(rows: seq<TreeNode>, id: nat, d: TreeNode,
                                   name: Patch<string>, description: Patch<Option<string>>)
    requires d in rows && d.id != id && GetAllDescendants(rows, id).Ok? && d in GetAllDescendants(rows, id).value
    ensures Updated(rows, id, name, description, Given(Some(d.id))) == Err(BadRequest(UnderOwnDescendant))
  {
    var descendants := GetAllDescendants(rows, id).value;
    var node := Renamed(FindOne(rows, id).value, name, description);
    assert FindOne(rows, d.id).Ok?;
    assert Moved(rows, node, Some(d.id), descendants) == Err(BadRequest(UnderOwnDescendant));
  }

  // ---------------------------------------------------------------- remove

  /** Removing a row keeps a consistent table consistent exactly when no row names it as parent. */
  lemma RemovePreservesWellFormedIffLeaf(rows: seq<TreeNode>, n: TreeNode)
    requires WellFormed(rows) && n in rows
    ensures Removed(rows, n.id).Ok?
    ensures WellFormed(Removed(rows, n.id).value) <==> forall m :: m in rows ==> m.parent != Some(n.id)
  {
    RemovedFindsOthers(rows, n);
    if forall m :: m in rows ==> m.parent != Some(n.id) {
      RemoveLeafKeepsWellFormed(rows, n);
    } else {
      var m :| m in rows && m.parent == Some(n.id);
      var rest := Removed(rows, n.id).value;
      assert m in rest;
      assert !NodeWellFormed(rest, m);
    }
  }

  /** After a removal every other row is still found by its id, and the removed id is not. */
  lemma RemovedFindsOthers(rows: seq<TreeNode>, n: TreeNode)
    requires WellFormed(rows) && n in rows
    ensures Removed(rows, n.id).Ok?
    ensures forall x :: x in Removed(rows, n.id).value <==> x in rows && x.id != n.id
    ensures Find(Removed(rows, n.id).value, n.id).None?
    ensures forall p :: p in rows && p.id != n.id ==> Find(Removed(rows, n.id).value, p.id) == Some(p)
  {
    var i :| 0 <= i < |rows| && rows[i] == n;
    var rest := Removed(rows, n.id).value;
    assert rest == BaseService.Without(rows, NodeId, n.id);
    assert Seqs.DistinctKeys(rows, NodeId);
    forall p | p in rows && p.id != n.id ensures Find(rest, p.id) == Some(p) {
      var r := Find(rest, p.id);
      assert p in rest;
      FindRowsEqual(rows, r.value, p);
    }
  }

  /** Removing a row no row names as parent keeps every other row consistent. */
  lemma RemoveLeafKeepsWellFormed(rows: seq<TreeNode>, n: TreeNode)
    requires WellFormed(rows) && n in rows
    requires forall m :: m in rows ==> m.parent != Some(n.id)
    requires Removed(rows, n.id).Ok?
    requires forall x :: x in Removed(rows, n.id).value <==> x in rows && x.id != n.id
    requires forall p :: p in rows && p.id != n.id ==> Find(Removed(rows, n.id).value, p.id) == Some(p)
    ensures WellFormed(Removed(rows, n.id).value)
  {
    var rest := Removed(rows, n.id).value;
    assert rest == BaseService.Without(rows, NodeId, n.id);
    assert Seqs.DistinctKeys(rows, NodeId);
    forall x | x in rest ensures NodeWellFormed(rest, x) {
      assert NodeWellFormed(rows, x);
      if x.parent.Some? {
        var pr := ParentRow(rows, x);
      }
    }
  }
}
