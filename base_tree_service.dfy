/**
 * The read side of the tree engine: single-node lookup, the path-based queries
 * (children, descendants by path prefix, the path from the root, siblings, the
 * ancestor test), path generation and the depth limit. A table is the
 * sequence of its rows in the order the store returns them.
 */
module BaseTreeService {
  import opened Wrappers
  import opened Errors
  import opened Text
  import opened Seqs
  import opened TreeEntity

  /** Paths may hold at most this many segments. */
  const MAX_DEPTH: nat := 10
  const PATH_SEPARATOR: char := '.'

  /** The row with the given id, if any (the first one, although ids are unique). */
  function Find(rows: seq<TreeNode>, id: nat): (r: Option<TreeNode>)
    ensures r.Some? ==> r.value in rows && r.value.id == id
    ensures r.None? <==> forall i :: 0 <= i < |rows| ==> rows[i].id != id
  {
    if |rows| == 0 then None
    else if rows[0].id == id then Some(rows[0])
    else
      var r := Find(rows[1..], id);
      assert forall i :: 1 <= i < |rows| ==> rows[i] == rows[1..][i - 1];
      r
  }

  /** With unique ids, looking up a row's id finds that row. */
  lemma {:induction false} FindRow(rows: seq<TreeNode>, i: nat)
    requires UniqueIds(rows) && i < |rows|
    ensures Find(rows, rows[i].id) == Some(rows[i])
  {
    var r := Find(rows, rows[i].id);
    var k :| 0 <= k < |rows| && rows[k] == r.value;
  }

  /** `findOne`: the node with that id; a missing id is a BadRequest (not a NotFound). */
  function FindOne(rows: seq<TreeNode>, id: nat): (r: Result<TreeNode, Failure>)
    ensures r.Ok? ==> r.value in rows && r.value.id == id
    ensures r.Err? <==> forall i :: 0 <= i < |rows| ==> rows[i].id != id
    ensures r.Err? ==> r.error == BadRequest(NodeMissing(id))
  {
    match Find(rows, id)
    case Some(n) => Ok(n)
    case None => Err(BadRequest(NodeMissing(id)))
  }

  /** `findChildren`: the rows whose parent is the given node, which must exist. */
  function FindChildren(rows: seq<TreeNode>, parentId: nat): (r: Result<seq<TreeNode>, Failure>)
    ensures r.Err? <==> FindOne(rows, parentId).Err?
    ensures r.Err? ==> r.error == BadRequest(NodeMissing(parentId))
    ensures r.Ok? ==> forall c :: c in r.value <==> c in rows && c.parent == Some(parentId)
  {
    match FindOne(rows, parentId)
    case Err(e) => Err(e)
    case Ok(p) => Ok(Filter(rows, (c: TreeNode) => c.parent == Some(p.id)))
  }

  /** The prefix every descendant's path starts with: the node's path and a separator. */
  function DescendantPrefix(n: TreeNode): string
  {
    n.path + [PATH_SEPARATOR]
  }

  /**
   * `getAllDescendants`: the rows whose path starts with the node's path followed
   * by the separator; never the node itself.
   */
  function GetAllDescendants(rows: seq<TreeNode>, id: nat): (r: Result<seq<TreeNode>, Failure>)
    ensures r.Err? <==> FindOne(rows, id).Err?
    ensures r.Err? ==> r.error == BadRequest(NodeMissing(id))
    ensures r.Ok? ==> forall d :: d in r.value <==> d in rows && StartsWith(d.path, DescendantPrefix(Find(rows, id).value))
    ensures r.Ok? ==> forall d :: d in r.value ==> d.path != Find(rows, id).value.path
  {
    match FindOne(rows, id)
    case Err(e) => Err(e)
    case Ok(n) => Ok(Filter(rows, (d: TreeNode) => StartsWith(d.path, DescendantPrefix(n))))
  }

  /** `getSiblings`: the rows with the same parent (both roots count as siblings), except the node. */
  function GetSiblings(rows: seq<TreeNode>, id: nat): (r: Result<seq<TreeNode>, Failure>)
    ensures r.Err? <==> FindOne(rows, id).Err?
    ensures r.Ok? ==> forall s :: s in r.value <==>
      s in rows && s.parent == Find(rows, id).value.parent && s.id != id
  {
    match FindOne(rows, id)
    case Err(e) => Err(e)
    case Ok(n) => Ok(Filter(rows, (s: TreeNode) => s.parent == n.parent && s.id != id))
  }

  /** The ids named by a path: its segments read as numbers (`split('.').map(Number)`). */
  function PathIds(path: string): (ids: set<nat>)
    ensures forall k :: k in ids <==> exists i :: 0 <= i < |Split(path, PATH_SEPARATOR)| && NumberOf(Split(path, PATH_SEPARATOR)[i]) == Some(k)
  {
    var segments := Split(path, PATH_SEPARATOR);
    set i, k | 0 <= i < |segments| && k == DigitsValueOr(segments[i]) && NumberOf(segments[i]) == Some(k) :: k
  }

  function DigitsValueOr(s: string): nat
  {
    if AllDigits(s) then DigitsValue(s) else 0
  }

  predicate SortedByLevel(s: seq<TreeNode>)
  {
    forall i, j :: 0 <= i < j < |s| ==> s[i].level <= s[j].level
  }

  /** Places n before the first row of a higher level. */
  function InsertByLevel(n: TreeNode, sorted: seq<TreeNode>): (r: seq<TreeNode>)
    requires SortedByLevel(sorted)
    ensures SortedByLevel(r)
    ensures multiset(r) == multiset(sorted) + multiset{n}
    ensures |r| > 0 && (r[0] == n || (|sorted| > 0 && r[0] == sorted[0]))
  {
    if |sorted| == 0 || n.level <= sorted[0].level then [n] + sorted
    else
      var rest := InsertByLevel(n, sorted[1..]);
      assert sorted == [sorted[0]] + sorted[1..];
      [sorted[0]] + rest
  }

  /** `ORDER BY level ASC`, keeping the store's order among equal levels. */
  function SortByLevel(s: seq<TreeNode>): (r: seq<TreeNode>)
    ensures SortedByLevel(r)
    ensures multiset(r) == multiset(s)
  {
    if |s| == 0 then []
    else
      assert s == [s[0]] + s[1..];
      InsertByLevel(s[0], SortByLevel(s[1..]))
  }

  /** `findAll`: every row, ordered by level. */
  function FindAll(rows: seq<TreeNode>): (r: seq<TreeNode>)
    ensures SortedByLevel(r) && multiset(r) == multiset(rows)
  {
    SortByLevel(rows)
  }

  /**
   * `getNodePath`: the rows whose ids are named by the node's path, ordered by
   * level (root first).
   */
  function GetNodePath(rows: seq<TreeNode>, id: nat): (r: Result<seq<TreeNode>, Failure>)
    ensures r.Err? <==> FindOne(rows, id).Err?
    ensures r.Ok? ==> SortedByLevel(r.value)
    ensures r.Ok? ==> forall m :: m in r.value <==> m in rows && m.id in PathIds(Find(rows, id).value.path)
  {
    match FindOne(rows, id)
    case Err(e) => Err(e)
    case Ok(n) =>
      var ids := PathIds(n.path);
      var named := Filter(rows, (m: TreeNode) => m.id in ids);
      var r := SortByLevel(named);
      assert n == Find(rows, id).value;
      assert forall m :: m in r <==> m in named by {
        forall m ensures m in r <==> m in named {
          assert m in r <==> m in multiset(r);
          assert m in named <==> m in multiset(named);
        }
      }
      Ok(r)
  }

  /**
   * `isAncestor`: whether the descendant's path contains the ancestor's id
   * followed by the separator, anywhere (a substring test, not a segment test).
   */
  function IsAncestor(rows: seq<TreeNode>, ancestorId: nat, descendantId: nat): (r: Result<bool, Failure>)
    ensures r.Err? <==> FindOne(rows, descendantId).Err?
    ensures r.Err? ==> r.error == BadRequest(NodeMissing(descendantId))
    ensures r.Ok? ==> (r.value <==> OccursIn(Find(rows, descendantId).value.path, Decimal(ancestorId) + [PATH_SEPARATOR]))
  {
    match FindOne(rows, descendantId)
    case Err(e) => Err(e)
    case Ok(d) =>
      assert d == Find(rows, descendantId).value;
      Ok(Includes(d.path, Decimal(ancestorId) + [PATH_SEPARATOR]))
  }

  /** A falsy parent id: absent, or 0. */
  predicate Falsy(parentId: Option<nat>)
  {
    parentId == None || parentId == Some(0)
  }

  /**
   * `generatePath`: the node's own id for a falsy parent id, otherwise the
   * parent's path, the separator and the node's id; an unknown parent is a
   * BadRequest.
   */
  function GeneratePath(rows: seq<TreeNode>, id: nat, parentId: Option<nat>): (r: Result<string, Failure>)
    ensures Falsy(parentId) ==> r == Ok(Decimal(id))
    ensures !Falsy(parentId) ==> (r.Err? <==> FindOne(rows, parentId.value).Err?)
    ensures !Falsy(parentId) && r.Err? ==> r.error == BadRequest(NodeMissing(parentId.value))
    ensures r.Ok? ==> Split(r.value, PATH_SEPARATOR)[|Split(r.value, PATH_SEPARATOR)| - 1] == Decimal(id)
    ensures r.Ok? && !Falsy(parentId) ==>
      var p := Find(rows, parentId.value).value;
      StartsWith(r.value, DescendantPrefix(p)) && SegmentCount(r.value) == SegmentCount(p.path) + 1
  {
    if Falsy(parentId) then
      DecimalIsOneSegment(id);
      Ok(Decimal(id))
    else
      match FindOne(rows, parentId.value)
      case Err(e) => Err(e)
      case Ok(p) =>
        var path := p.path + [PATH_SEPARATOR] + Decimal(id);
        AppendSegment(p.path, id);
        assert path == p.path + "." + Decimal(id);
        assert path[..|DescendantPrefix(p)|] == DescendantPrefix(p);
        Ok(path)
  }

  /** `checkDepth`: a path of more than MAX_DEPTH segments is refused. */
  function CheckDepth(path: string): (r: Result<(), Failure>)
    ensures r.Err? <==> SegmentCount(path) > MAX_DEPTH
    ensures r.Err? ==> r.error == BadRequest(DepthExceeded)
    ensures r.Ok? <==> Occurrences(path, PATH_SEPARATOR) < MAX_DEPTH
  {
    SegmentCountIsSeparatorsPlusOne(path);
    if SegmentCount(path) > MAX_DEPTH then Err(BadRequest(DepthExceeded)) else Ok(())
  }
}
