/**
 * The mutating side of the tree engine: `create` (insert, then path and
 * parent), `update` (rename and reparent, with the rewrite of every
 * descendant's path and level), and removal one id or a batch at a time.
 *
 * The table is a sequence of rows in store order. Within one request the
 * changes are staged and written at the flush; a request that throws before
 * its flush writes nothing, except the first insert `create` flushes before
 * it can fail.
 */
module DemoTree {
  import opened Wrappers
  import opened Errors
  import opened Text
  import opened TreeEntity
  import opened BaseTreeService
  import BaseService
  import Seqs

  function NodeId(n: TreeNode): nat { n.id }

  /** The table with the row carrying n's id replaced by n. */
  function ReplaceRow(rows: seq<TreeNode>, n: TreeNode): (r: seq<TreeNode>)
    ensures |r| == |rows|
    ensures forall i :: 0 <= i < |rows| ==> r[i] == (if rows[i].id == n.id then n else rows[i])
  {
    seq(|rows|, i requires 0 <= i < |rows| => if rows[i].id == n.id then n else rows[i])
  }

  /** The same ids at the same positions. */
  predicate SameIds(rows: seq<TreeNode>, next: seq<TreeNode>)
  {
    |next| == |rows| && forall i :: 0 <= i < |rows| ==> next[i].id == rows[i].id
  }

  lemma SameIdsUnique(rows: seq<TreeNode>, next: seq<TreeNode>)
    requires UniqueIds(rows) && SameIds(rows, next)
    ensures UniqueIds(next)
  {
  }

  /** Appending a row with an id no row has keeps the ids unique. */
  lemma AppendFresh(rows: seq<TreeNode>, n: TreeNode)
    requires UniqueIds(rows) && forall i :: 0 <= i < |rows| ==> rows[i].id != n.id
    ensures UniqueIds(rows + [n])
  {
  }

  // ---------------------------------------------------------------- create

  /**
   * `create` after its first write, which stored the placeholder with the fresh
   * id (`rows` includes it): the row the second write stores, or the error.
   * The path comes first, then the depth check, then the self-parent check.
   */
  function Created(rows: seq<TreeNode>, id: nat, name: string, description: Option<string>,
                   parentId: Option<nat>): (r: Result<TreeNode, Failure>)
    ensures Falsy(parentId) ==> r == Ok(TreeNode(id, name, description, 0, Decimal(id), None))
    ensures r.Ok? ==> r.value.id == id && r.value.name == name && r.value.description == description
    ensures r.Ok? && !Falsy(parentId) ==>
      (Find(rows, parentId.value).Some? &&
       var p := Find(rows, parentId.value).value;
       && parentId.value != id
       && r.value.parent == Some(p.id) && r.value.level == p.level + 1
       && r.value.path == p.path + "." + Decimal(id))
    ensures r.Ok? ==> SegmentCount(r.value.path) <= MAX_DEPTH
    ensures !Falsy(parentId) && FindOne(rows, parentId.value).Err? ==> r == Err(BadRequest(NodeMissing(parentId.value)))
  {
    DecimalIsOneSegment(id);
    match GeneratePath(rows, id, parentId)
    case Err(e) => Err(e)
    case Ok(path) =>
      match CheckDepth(path)
      case Err(e) => Err(e)
      case Ok(_) =>
        if Falsy(parentId) then Ok(TreeNode(id, name, description, 0, path, None))
        else if id == parentId.value then Err(BadRequest(SelfParent))
        else
          var parent := FindOne(rows, parentId.value).value;
          Ok(TreeNode(id, name, description, parent.level + 1, path, Some(parent.id)))
  }

  // ---------------------------------------------------------------- update

  /** The intended rewrite of a descendant's path: the old node path prefix replaced by the new one. */
  function Rebase(oldPath: string, newPath: string, path: string): (r: string)
    requires |oldPath| <= |path|
    ensures StartsWith(path, oldPath + ".") ==> StartsWith(r, newPath + ".")
    ensures |r| == |path| - |oldPath| + |newPath|
  {
    var r := newPath + path[|oldPath|..];
    assert StartsWith(path, oldPath + ".") ==> r[..|newPath| + 1] == newPath + "." by {
      if StartsWith(path, oldPath + ".") {
        assert path[|oldPath|] == (oldPath + ".")[|oldPath|] == '.';
        assert r[|newPath|] == path[|oldPath|];
      }
    }
    r
  }

  /**
   * The rewrite as the cascade writes it: the new path followed by the old path
   * from the new path's length on (`substring` yields "" past the end).
   */
  function RebaseAsWritten(newPath: string, path: string): string
  {
    newPath + (if |newPath| <= |path| then path[|newPath|..] else "")
  }

  /** When the node's path keeps its length, the written rewrite is the intended one. */
  lemma RebaseAgreesOnEqualLength(oldPath: string, newPath: string, path: string)
    requires |oldPath| == |newPath| <= |path|
    ensures RebaseAsWritten(newPath, path) == Rebase(oldPath, newPath, path)
  {
  }

  /**
   * Promoting "1.2" to a root: the written rewrite turns its child "1.2.3" into
   * "2.2.3" at level 2, where the intended one gives "2.3" at level 1.
   */
  lemma RebaseAsWrittenMisplacesDescendant()
    ensures RebaseAsWritten("2", "1.2.3") == "2.2.3"
    ensures Rebase("1.2", "2", "1.2.3") == "2.3"
    ensures SegmentCount("2.2.3") - 1 == 2 && SegmentCount("2.3") - 1 == 1
  {
    assert "1.2.3"[1..] == ".2.3";
    assert "1.2.3"[3..] == ".3";
    SplitNoSeparator("2", '.');
    SplitNoSeparator("3", '.');
    assert "2.3" == "2" + ['.'] + "3";
    SplitAppend("2", "3", '.');
    assert "2.2.3" == "2" + ['.'] + "2.3";
    SplitAppend("2", "2.3", '.');
  }

  /**
   * `update`'s rewrite of one descendant: the path as the cascade writes it,
   * and the level recomputed from that path.
   */
  function RebaseRow(newPath: string, d: TreeNode): (r: TreeNode)
    ensures r.id == d.id && r.name == d.name && r.description == d.description && r.parent == d.parent
    ensures r.path == RebaseAsWritten(newPath, d.path)
    ensures SegmentCount(r.path) == r.level + 1
  {
    var path := RebaseAsWritten(newPath, d.path);
    d.(path := path, level := SegmentCount(path) - 1)
  }

  /** The intended rewrite of one descendant: the old node path prefix replaced by the new one. */
  function RebaseRowIntended(oldPath: string, newPath: string, d: TreeNode): (r: TreeNode)
    requires |oldPath| <= |d.path|
    ensures r.id == d.id && r.name == d.name && r.description == d.description && r.parent == d.parent
    ensures r.path == Rebase(oldPath, newPath, d.path)
    ensures SegmentCount(r.path) == r.level + 1
  {
    var path := Rebase(oldPath, newPath, d.path);
    d.(path := path, level := SegmentCount(path) - 1)
  }

  /** Every descendant's path is longer than the node's. */
  predicate Below(oldPath: string, descendants: seq<TreeNode>)
  {
    forall d :: d in descendants ==> |oldPath| <= |d.path|
  }

  /** The moved node's new parent, level and path, or why the move is refused. */
  function Moved(rows: seq<TreeNode>, node: TreeNode, parentId: Option<nat>, descendants: seq<TreeNode>): (r: Result<TreeNode, Failure>)
    ensures parentId.None? ==> r == Ok(node.(parent := None, level := 0, path := Decimal(node.id)))
    ensures parentId.Some? && FindOne(rows, parentId.value).Err? ==> r == Err(BadRequest(NodeMissing(parentId.value)))
    ensures parentId.Some? && FindOne(rows, parentId.value).Ok? && (exists d :: d in descendants && d.id == parentId.value) ==>
      r == Err(BadRequest(UnderOwnDescendant))
    ensures r.Ok? && parentId.Some? ==>
      var p := Find(rows, parentId.value).value;
      && (forall d :: d in descendants ==> d.id != p.id)
      && r.value.parent == Some(p.id) && r.value.level == p.level + 1
      && SegmentCount(r.value.path) <= MAX_DEPTH
      && (parentId.value != 0 ==> r.value.path == p.path + "." + Decimal(node.id))
    ensures parentId.Some? && FindOne(rows, parentId.value).Ok? && (forall d :: d in descendants ==> d.id != parentId.value) ==>
      && (r.Ok? <==> SegmentCount(GeneratePath(rows, node.id, parentId).value) <= MAX_DEPTH)
      && (r.Err? ==> r.error == BadRequest(DepthExceeded))
    ensures r.Ok? ==> r.value.id == node.id && r.value.name == node.name && r.value.description == node.description
  {
    match parentId
    case None => Ok(node.(parent := None, level := 0, path := Decimal(node.id)))
    case Some(pid) =>
      match FindOne(rows, pid)
      case Err(e) => Err(e)
      case Ok(parent) =>
        if exists d :: d in descendants && d.id == pid then Err(BadRequest(UnderOwnDescendant))
        else
          var path := GeneratePath(rows, node.id, Some(pid)).value;
          match CheckDepth(path)
          case Err(e) => Err(e)
          case Ok(_) => Ok(node.(parent := Some(parent.id), level := parent.level + 1, path := path))
  }

  /**
   * `update`'s cascade: the table with the moved node and every rewritten
   * descendant, provided every rewritten path stays within the depth limit.
   */
  function Cascade(rows: seq<TreeNode>, moved: TreeNode, descendants: seq<TreeNode>): (r: Result<seq<TreeNode>, Failure>)
    ensures r.Err? <==> exists d :: d in descendants && SegmentCount(RebaseAsWritten(moved.path, d.path)) > MAX_DEPTH
    ensures r.Err? ==> r.error == BadRequest(DepthExceeded)
    ensures r.Ok? ==> r.value == CascadeRows(rows, moved, descendants)
  {
    if exists d :: d in descendants && SegmentCount(RebaseAsWritten(moved.path, d.path)) > MAX_DEPTH then
      Err(BadRequest(DepthExceeded))
    else
      Ok(CascadeRows(rows, moved, descendants))
  }

  /** Row by row: the moved node, a rewritten descendant, or the row as it was. */
  function CascadeRows(rows: seq<TreeNode>, moved: TreeNode, descendants: seq<TreeNode>): (r: seq<TreeNode>)
    ensures |r| == |rows| && forall i :: 0 <= i < |rows| ==> r[i].id == rows[i].id
  {
    seq(|rows|, i requires 0 <= i < |rows| =>
      if rows[i].id == moved.id then moved
      else if rows[i] in descendants then RebaseRow(moved.path, rows[i])
      else rows[i])
  }

  /** The intended cascade: as `Cascade`, with the intended rewrite of each descendant. */
  function CascadeIntended(rows: seq<TreeNode>, oldPath: string, moved: TreeNode, descendants: seq<TreeNode>): (r: Result<seq<TreeNode>, Failure>)
    requires Below(oldPath, descendants)
    ensures r.Err? <==> exists d :: d in descendants && SegmentCount(Rebase(oldPath, moved.path, d.path)) > MAX_DEPTH
    ensures r.Err? ==> r.error == BadRequest(DepthExceeded)
    ensures r.Ok? ==> r.value == CascadeRowsIntended(rows, oldPath, moved, descendants)
  {
    if exists d :: d in descendants && SegmentCount(Rebase(oldPath, moved.path, d.path)) > MAX_DEPTH then
      Err(BadRequest(DepthExceeded))
    else
      Ok(CascadeRowsIntended(rows, oldPath, moved, descendants))
  }

  /** Row by row: the moved node, an intended rewrite of a descendant, or the row as it was. */
  function CascadeRowsIntended(rows: seq<TreeNode>, oldPath: string, moved: TreeNode, descendants: seq<TreeNode>): (r: seq<TreeNode>)
    requires Below(oldPath, descendants)
    ensures |r| == |rows| && forall i :: 0 <= i < |rows| ==> r[i].id == rows[i].id
  {
    seq(|rows|, i requires 0 <= i < |rows| =>
      if rows[i].id == moved.id then moved
      else if rows[i] in descendants then RebaseRowIntended(oldPath, moved.path, rows[i])
      else rows[i])
  }

  /** Every descendant rewritten in place; the other rows as they were. */
  function Rewritten(rows: seq<TreeNode>, newPath: string, descendants: seq<TreeNode>): (r: seq<TreeNode>)
    ensures SameIds(rows, r)
    ensures forall i :: 0 <= i < |rows| ==>
      r[i] == (if rows[i] in descendants then RebaseRow(newPath, rows[i]) else rows[i])
  {
    seq(|rows|, i requires 0 <= i < |rows| =>
      if rows[i] in descendants then RebaseRow(newPath, rows[i]) else rows[i])
  }

  /**
   * The cascade loop of `update`: each descendant in turn gets its path
   * rewritten from the node's new path and its level recomputed; the first one
   * past the depth limit stops the update.
   */
  method RewriteDescendants(rows: seq<TreeNode>, newPath: string, descendants: seq<TreeNode>)
    returns (r: Result<seq<TreeNode>, Failure>)
    requires UniqueIds(rows)
    requires forall d :: d in descendants ==> d in rows
    ensures r.Err? <==> exists d :: d in descendants && SegmentCount(RebaseAsWritten(newPath, d.path)) > MAX_DEPTH
    ensures r.Err? ==> r.error == BadRequest(DepthExceeded)
    ensures r.Ok? ==> r.value == Rewritten(rows, newPath, descendants)
  {
    var staged := rows;
    for k := 0 to |descendants|
      invariant |staged| == |rows|
      invariant forall i :: 0 <= i < |rows| ==>
        staged[i] == (if rows[i] in descendants[..k] then RebaseRow(newPath, rows[i]) else rows[i])
      invariant forall j :: 0 <= j < k ==> SegmentCount(RebaseAsWritten(newPath, descendants[j].path)) <= MAX_DEPTH
    {
      var d := descendants[k];
      var path := RebaseAsWritten(newPath, d.path);
      var descendant := d.(path := path, level := SegmentCount(path) - 1);
      if SegmentCount(path) > MAX_DEPTH {
        return Err(BadRequest(DepthExceeded));
      }
      assert d in rows;
      forall i | 0 <= i < |rows| && rows[i].id == d.id ensures rows[i] == d {
        var j :| 0 <= j < |rows| && rows[j] == d;
      }
      assert descendants[..k + 1] == descendants[..k] + [d];
      staged := ReplaceRow(staged, descendant);
    }
    assert descendants[..|descendants|] == descendants;
    r := Ok(staged);
  }

  /** The cascade's table is the rewritten table with the moved node put in its place. */
  lemma CascadeIsRewriteThenPlace(rows: seq<TreeNode>, moved: TreeNode, descendants: seq<TreeNode>)
    ensures CascadeRows(rows, moved, descendants) == ReplaceRow(Rewritten(rows, moved.path, descendants), moved)
  {
  }

  /** The node with the supplied name and description; absent fields keep their value. */
  function Renamed(n: TreeNode, name: Patch<string>, description: Patch<Option<string>>): (r: TreeNode)
    ensures r.id == n.id && r.level == n.level && r.path == n.path && r.parent == n.parent
    ensures r.name == (if name.Given? then name.value else n.name)
    ensures r.description == (if description.Given? then description.value else n.description)
  {
    var n := if name.Given? then n.(name := name.value) else n;
    if description.Given? then n.(description := description.value) else n
  }

  /**
   * `update` on the table: the table its flush writes, or the error. A given
   * parent id of `None` is the request's `null` (promote to root); an absent
   * one leaves the placement alone. Descendants are rewritten as the code
   * writes it, from the node's new path (see `RebaseAsWritten`).
   */
  function Updated(rows: seq<TreeNode>, id: nat, name: Patch<string>, description: Patch<Option<string>>,
                   parentId: Patch<Option<nat>>): (r: Result<seq<TreeNode>, Failure>)
    ensures FindOne(rows, id).Err? ==> r == Err(BadRequest(NodeMissing(id)))
    ensures FindOne(rows, id).Ok? && parentId == Given(Some(id)) ==> r == Err(BadRequest(SelfParent))
    ensures FindOne(rows, id).Ok? && parentId.Absent? ==>
      r == Ok(ReplaceRow(rows, Renamed(Find(rows, id).value, name, description)))
    ensures r.Ok? ==> |r.value| == |rows| && forall i :: 0 <= i < |rows| ==> r.value[i].id == rows[i].id
  {
    match FindOne(rows, id)
    case Err(e) => Err(e)
    case Ok(n) =>
      var node := Renamed(n, name, description);
      if parentId.Absent? then Ok(ReplaceRow(rows, node))
      else if parentId.value == Some(id) then Err(BadRequest(SelfParent))
      else
        var descendants := GetAllDescendants(rows, id).value;
        match Moved(rows, node, parentId.value, descendants)
        case Err(e) => Err(e)
        case Ok(moved) => Cascade(rows, moved, descendants)
  }

  /**
   * The update the cascade is meant to perform: as `Updated`, except that each
   * descendant's old node path prefix is replaced by the new node path.
   */
  function UpdatedIntended(rows: seq<TreeNode>, id: nat, name: Patch<string>, description: Patch<Option<string>>,
                           parentId: Patch<Option<nat>>): (r: Result<seq<TreeNode>, Failure>)
    ensures FindOne(rows, id).Err? ==> r == Err(BadRequest(NodeMissing(id)))
    ensures FindOne(rows, id).Ok? && parentId == Given(Some(id)) ==> r == Err(BadRequest(SelfParent))
    ensures FindOne(rows, id).Ok? && parentId.Absent? ==>
      r == Ok(ReplaceRow(rows, Renamed(Find(rows, id).value, name, description)))
    ensures r.Ok? ==> |r.value| == |rows| && forall i :: 0 <= i < |rows| ==> r.value[i].id == rows[i].id
  {
    match FindOne(rows, id)
    case Err(e) => Err(e)
    case Ok(n) =>
      var node := Renamed(n, name, description);
      if parentId.Absent? then Ok(ReplaceRow(rows, node))
      else if parentId.value == Some(id) then Err(BadRequest(SelfParent))
      else
        var descendants := GetAllDescendants(rows, id).value;
        assert Below(n.path, descendants);
        match Moved(rows, node, parentId.value, descendants)
        case Err(e) => Err(e)
        case Ok(moved) => CascadeIntended(rows, n.path, moved, descendants)
  }

  /**
   * The request keeps the node's path length: no move, a refused move, or a
   * new path exactly as long as the old one.
   */
  predicate KeepsPathLength(rows: seq<TreeNode>, id: nat, name: Patch<string>, description: Patch<Option<string>>,
                            parentId: Patch<Option<nat>>)
  {
    match FindOne(rows, id)
    case Err(_) => true
    case Ok(n) =>
      || parentId.Absent? || parentId.value == Some(id)
      || var moved := Moved(rows, Renamed(n, name, description), parentId.value, GetAllDescendants(rows, id).value);
         moved.Err? || |moved.value.path| == |n.path|
  }

  /** When the node's path keeps its length, the update as written is the intended one. */
  lemma UpdatedAgreesOnEqualLength(rows: seq<TreeNode>, id: nat, name: Patch<string>, description: Patch<Option<string>>,
                                   parentId: Patch<Option<nat>>)
    requires KeepsPathLength(rows, id, name, description, parentId)
    ensures Updated(rows, id, name, description, parentId) == UpdatedIntended(rows, id, name, description, parentId)
  {
    if FindOne(rows, id).Ok? && parentId.Given? && parentId.value != Some(id) {
      var n := FindOne(rows, id).value;
      var descendants := GetAllDescendants(rows, id).value;
      assert Below(n.path, descendants);
      var moved := Moved(rows, Renamed(n, name, description), parentId.value, descendants);
      if moved.Ok? {
        CascadesAgree(rows, n.path, moved.value, descendants);
      }
    }
  }

  /** The two cascades agree row by row when the node's path keeps its length. */
  lemma CascadesAgree(rows: seq<TreeNode>, oldPath: string, moved: TreeNode, descendants: seq<TreeNode>)
    requires Below(oldPath, descendants) && |moved.path| == |oldPath|
    ensures Cascade(rows, moved, descendants) == CascadeIntended(rows, oldPath, moved, descendants)
  {
    forall d | d in descendants ensures RebaseAsWritten(moved.path, d.path) == Rebase(oldPath, moved.path, d.path) {
      RebaseAgreesOnEqualLength(oldPath, moved.path, d.path);
    }
    assert CascadeRows(rows, moved, descendants) == CascadeRowsIntended(rows, oldPath, moved, descendants);
  }

  // ---------------------------------------------------------------- removal

  /** `remove` on the table: the table without that row, or NotFound. */
  function Removed(rows: seq<TreeNode>, id: nat): (r: Result<seq<TreeNode>, Failure>)
    ensures r.Err? <==> forall i :: 0 <= i < |rows| ==> rows[i].id != id
    ensures r.Err? ==> r.error == NotFound(EntityMissing(id))
    ensures r.Ok? ==> forall x :: x in r.value <==> x in rows && x.id != id
  {
    match BaseService.Detail(rows, NodeId, id)
    case Err(e) => Err(e)
    case Ok(_) => Ok(BaseService.Without(rows, NodeId, id))
  }

  /** The table a batch leaves, and whether it went through. */
  datatype BatchOutcome = BatchOutcome(rows: seq<TreeNode>, result: Result<(), Failure>)

  /** `batchRemove`: each id in turn; the first failure stops the batch and keeps the earlier removals. */
  function BatchRemoved(rows: seq<TreeNode>, ids: seq<nat>): (o: BatchOutcome)
    ensures |o.rows| <= |rows|
    decreases |ids|
  {
    if |ids| == 0 then BatchOutcome(rows, Ok(()))
    else
      match Removed(rows, ids[0])
      case Err(e) => BatchOutcome(rows, Err(e))
      case Ok(rest) => BatchRemoved(rest, ids[1..])
  }

  /** The batch failed at ids[k]: the ids before it are gone, and ids[k] was not in the table. */
  ghost predicate StoppedAt(rows: seq<TreeNode>, ids: seq<nat>, o: BatchOutcome, k: nat)
  {
    && k < |ids|
    && o.result == Err(NotFound(EntityMissing(ids[k])))
    && (forall x :: x in o.rows <==> x in rows && x.id !in ids[..k])
    && (forall x :: x in o.rows ==> x.id != ids[k])
  }

  /** A batch that goes through removes exactly the rows with the listed ids. */
  lemma {:induction false} BatchRemovedAll(rows: seq<TreeNode>, ids: seq<nat>)
    requires BatchRemoved(rows, ids).result.Ok?
    ensures forall x :: x in BatchRemoved(rows, ids).rows <==> x in rows && x.id !in ids
    decreases |ids|
  {
    if |ids| > 0 {
      var rest := Removed(rows, ids[0]).value;
      var o := BatchRemoved(rest, ids[1..]);
      assert BatchRemoved(rows, ids) == o;
      BatchRemovedAll(rest, ids[1..]);
      RemovalsCompose(rows, rest, o.rows, ids);
    }
  }

  /** Removing the first id, then the others, removes them all. */
  lemma RemovalsCompose(rows: seq<TreeNode>, rest: seq<TreeNode>, last: seq<TreeNode>, ids: seq<nat>)
    requires |ids| > 0
    requires forall x :: x in rest <==> x in rows && x.id != ids[0]
    requires forall x :: x in last <==> x in rest && x.id !in ids[1..]
    ensures forall x :: x in last <==> x in rows && x.id !in ids
  {
    forall x ensures x in last <==> x in rows && x.id !in ids {
      assert x.id in ids <==> x.id == ids[0] || x.id in ids[1..] by {
        assert ids == [ids[0]] + ids[1..];
      }
    }
  }

  /**
   * A batch that fails names the first id it could not find and keeps the
   * removals before it.
   */
  lemma {:induction false} BatchRemovedStops(rows: seq<TreeNode>, ids: seq<nat>)
    requires BatchRemoved(rows, ids).result.Err?
    ensures exists k :: StoppedAt(rows, ids, BatchRemoved(rows, ids), k)
    decreases |ids|
  {
    var o := BatchRemoved(rows, ids);
    if Removed(rows, ids[0]).Err? {
      assert ids[..0] == [];
      assert StoppedAt(rows, ids, o, 0);
    } else {
      var rest := Removed(rows, ids[0]).value;
      BatchRemovedStops(rest, ids[1..]);
      var k: nat :| StoppedAt(rest, ids[1..], o, k);
      StoppedOneLater(rows, rest, ids, o, k);
    }
  }

  /** A batch that stopped after removing the first id stopped one place later in the whole list. */
  lemma StoppedOneLater(rows: seq<TreeNode>, rest: seq<TreeNode>, ids: seq<nat>, o: BatchOutcome, k: nat)
    requires |ids| > 0
    requires forall x :: x in rest <==> x in rows && x.id != ids[0]
    requires StoppedAt(rest, ids[1..], o, k)
    ensures StoppedAt(rows, ids, o, k + 1)
  {
    assert ids[..k + 1] == [ids[0]] + ids[1..][..k];
  }

  // ---------------------------------------------------------------- the service

  class DemoTreeService {
    /** The table, in store order. */
    var rows: seq<TreeNode>
    /** The id the next insert receives (the auto-increment counter). */
    var nextId: nat

    /** Ids are unique, positive, and below the counter. */
    ghost predicate Valid()
      reads this
    {
      && UniqueIds(rows)
      && nextId > 0
      && forall i :: 0 <= i < |rows| ==> 0 < rows[i].id < nextId
    }

    constructor()
      ensures Valid() && rows == [] && nextId == 1
    {
      rows := [];
      nextId := 1;
    }

    /**
     * `create`: the first write stores the placeholder under a fresh id; then
     * the path, the depth check, the self-parent check and the parent lookup;
     * the second write stores the finished row. A failure after the first
     * write leaves the placeholder in the table.
     */
    method Create(name: string, description: Option<string>, parentId: Option<nat>) returns (r: Result<TreeNode, Failure>)
      requires Valid()
      modifies this
      ensures Valid() && nextId == old(nextId) + 1
      ensures var placeholder := Placeholder(old(nextId), name, description);
        && r == Created(old(rows) + [placeholder], old(nextId), name, description, parentId)
        && rows == old(rows) + [if r.Ok? then r.value else placeholder]
    {
      var id := nextId;
      var node := Placeholder(id, name, description);
      AppendFresh(rows, node);
      rows := rows + [node];
      nextId := nextId + 1;
      ghost var inserted := rows;

      var created := Complete(id, name, description, parentId);
      if created.Err? {
        return created;
      }
      node := created.value;
      rows := rows[|rows| - 1 := node];
      SameIdsUnique(inserted, rows);
      FindRow(rows, |rows| - 1);
      r := FindOne(rows, id);
    }

    /**
     * The steps of `create` after the first write: the path, the depth check,
     * the self-parent check and the parent lookup.
     */
    method Complete(id: nat, name: string, description: Option<string>, parentId: Option<nat>)
      returns (r: Result<TreeNode, Failure>)
      ensures r == Created(rows, id, name, description, parentId)
    {
      var node := Placeholder(id, name, description);
      var path := GeneratePath(rows, id, parentId);
      if path.Err? {
        return Err(path.error);
      }
      node := node.(path := path.value);
      var depth := CheckDepth(node.path);
      if depth.Err? {
        return Err(depth.error);
      }
      if !Falsy(parentId) {
        if id == parentId.value {
          return Err(BadRequest(SelfParent));
        }
        var parent := FindOne(rows, parentId.value).value;
        node := node.(parent := Some(parent.id), level := parent.level + 1);
      }
      r := Ok(node);
    }

    /**
     * `update`: rename, then, when a parent id is supplied, refuse the node
     * itself, snapshot the descendants, place the node (as a root, or under an
     * existing parent that is not one of its descendants, within the depth
     * limit) and rewrite every descendant. Everything is written at the one
     * flush at the end; a failure writes nothing.
     */
    method Update(id: nat, name: Patch<string>, description: Patch<Option<string>>, parentId: Patch<Option<nat>>)
      returns (r: Result<TreeNode, Failure>)
      requires Valid()
      modifies this
      ensures Valid() && nextId == old(nextId)
      ensures var u := Updated(old(rows), id, name, description, parentId);
        && (u.Err? ==> r == Err(u.error) && rows == old(rows))
        && (u.Ok? ==> rows == u.value && r.Ok? && r.value in rows && r.value.id == id)
    {
      var staged := Stage(id, name, description, parentId);
      if staged.Err? {
        return Err(staged.error);
      }
      var at := Position(rows, id);
      SameIdsUnique(rows, staged.value);
      assert staged.value[at].id == id;
      rows := staged.value;
      r := FindOne(rows, id);
    }

    /**
     * The changes `update` stages before its flush: the renamed node and, when
     * a parent id is supplied, its new placement and every rewritten
     * descendant; or the error that abandons them.
     */
    method Stage(id: nat, name: Patch<string>, description: Patch<Option<string>>, parentId: Patch<Option<nat>>)
      returns (staged: Result<seq<TreeNode>, Failure>)
      requires Valid()
      ensures staged == Updated(rows, id, name, description, parentId)
    {
      var found := FindOne(rows, id);
      if found.Err? {
        return Err(found.error);
      }
      var node := found.value;
      if name.Given? { node := node.(name := name.value); }
      if description.Given? { node := node.(description := description.value); }
      assert node == Renamed(found.value, name, description);
      if parentId.Absent? {
        return Ok(ReplaceRow(rows, node));
      }
      if parentId.value == Some(id) {
        return Err(BadRequest(SelfParent));
      }
      var descendants := GetAllDescendants(rows, id).value;
      var moved := Place(node, parentId.value, descendants);
      if moved.Err? {
        return Err(moved.error);
      }
      node := moved.value;
      var rewritten := RewriteDescendants(rows, node.path, descendants);
      if rewritten.Err? {
        return Err(rewritten.error);
      }
      CascadeIsRewriteThenPlace(rows, node, descendants);
      staged := Ok(ReplaceRow(rewritten.value, node));
    }

    /**
     * The placement step of `update`: a root for `null`, otherwise under an
     * existing parent that is not one of the node's descendants, with the new
     * path within the depth limit.
     */
    method Place(node: TreeNode, parentId: Option<nat>, descendants: seq<TreeNode>) returns (r: Result<TreeNode, Failure>)
      ensures r == Moved(rows, node, parentId, descendants)
    {
      if parentId.None? {
        return Ok(node.(parent := None, level := 0, path := Decimal(node.id)));
      }
      var pid := parentId.value;
      var parent := FindOne(rows, pid);
      if parent.Err? {
        return Err(parent.error);
      }
      if exists d :: d in descendants && d.id == pid {
        return Err(BadRequest(UnderOwnDescendant));
      }
      var placed := node.(parent := Some(parent.value.id), level := parent.value.level + 1);
      placed := placed.(path := GeneratePath(rows, node.id, Some(pid)).value);
      var depth := CheckDepth(placed.path);
      if depth.Err? {
        return Err(depth.error);
      }
      r := Ok(placed);
    }

    /** `remove`: the row with that id leaves the table; an unknown id is a NotFound. */
    method Remove(id: nat) returns (r: Result<(), Failure>)
      requires Valid()
      modifies this
      ensures Valid() && nextId == old(nextId)
      ensures var u := Removed(old(rows), id);
        && (u.Err? ==> r == Err(u.error) && rows == old(rows))
        && (u.Ok? ==> r == Ok(()) && rows == u.value)
    {
      var entity := BaseService.Detail(rows, NodeId, id);
      if entity.Err? {
        return Err(entity.error);
      }
      assert Seqs.DistinctKeys(rows, NodeId);
      rows := BaseService.Without(rows, NodeId, id);
      forall i | 0 <= i < |rows| ensures 0 < rows[i].id < nextId {
        assert rows[i] in old(rows);
      }
      r := Ok(());
    }

    /** `batchRemove`: removes the ids in order and stops at the first failure. */
    method BatchRemove(ids: seq<nat>) returns (r: Result<(), Failure>)
      requires Valid()
      modifies this
      ensures Valid() && nextId == old(nextId)
      ensures BatchRemoved(old(rows), ids) == BatchOutcome(rows, r)
    {
      for k := 0 to |ids|
        invariant Valid() && nextId == old(nextId)
        invariant BatchRemoved(old(rows), ids) == BatchRemoved(rows, ids[k..])
      {
        assert ids[k..][1..] == ids[k + 1..];
        r := Remove(ids[k]);
        if r.Err? {
          return;
        }
      }
      r := Ok(());
    }
  }

  /** The position of the row with that id. */
  function Position(rows: seq<TreeNode>, id: nat): (i: nat)
    requires exists i :: 0 <= i < |rows| && rows[i].id == id
    ensures i < |rows| && rows[i].id == id
  {
    if rows[0].id == id then 0
    else
      assert exists i :: 0 <= i < |rows[1..]| && rows[1..][i].id == id by {
        var i :| 0 <= i < |rows| && rows[i].id == id;
        assert rows[1..][i - 1] == rows[i];
      }
      Position(rows[1..], id) + 1
  }
}
