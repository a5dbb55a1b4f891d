/**
 * The invariants a materialized-path table keeps, and what the read-side
 * queries mean on a table that keeps them: the descendant query returns
 * exactly the proper descendants, the node path exactly the ancestors and the
 * node, the substring ancestor test finds every ancestor (and more), and the
 * levels `findTree` assigns are the stored ones.
 */
module TreeTheory {
  import opened Wrappers
  import opened Errors
  import opened Text
  import opened TreeEntity
  import opened BaseTreeService
  import opened TreeAssembly

  /**
   * One row is consistent with the table: a positive id, at most MAX_DEPTH
   * segments, and either no parent, level 0 and the id as path, or an existing
   * parent, one level below it, with the parent's path extended by the id.
   */
  ghost predicate NodeWellFormed(rows: seq<TreeNode>, n: TreeNode)
  {
    && n.id > 0
    && SegmentCount(n.path) <= MAX_DEPTH
    && match n.parent
       case None => n.path == Decimal(n.id) && n.level == 0
       case Some(pid) =>
         && Find(rows, pid).Some?
         && n.path == Find(rows, pid).value.path + "." + Decimal(n.id)
         && n.level == Find(rows, pid).value.level + 1
  }

  /** Unique ids, and every row consistent. */
  ghost predicate WellFormed(rows: seq<TreeNode>)
  {
    UniqueIds(rows) && forall n :: n in rows ==> NodeWellFormed(rows, n)
  }

  /** The parent row of a non-root row. */
  ghost function ParentRow(rows: seq<TreeNode>, n: TreeNode): (p: TreeNode)
    requires WellFormed(rows) && n in rows && n.parent.Some?
    ensures p in rows && p.id == n.parent.value
    ensures n.path == p.path + "." + Decimal(n.id) && n.level == p.level + 1
    ensures |p.path| < |n.path|
  {
    Find(rows, n.parent.value).value
  }

  /** The ids of the proper ancestors of a row, found by following parents. */
  ghost function AncestorIds(rows: seq<TreeNode>, n: TreeNode): set<nat>
    requires WellFormed(rows) && n in rows
    decreases |n.path|
  {
    match n.parent
    case None => {}
    case Some(pid) => {pid} + AncestorIds(rows, ParentRow(rows, n))
  }

  /** A path's last segment is the row's own id. */
  lemma {:induction false} LastSegmentIsId(rows: seq<TreeNode>, n: TreeNode)
    requires WellFormed(rows) && n in rows
    ensures Split(n.path, '.')[|Split(n.path, '.')| - 1] == Decimal(n.id)
    ensures |Decimal(n.id)| <= |n.path| && n.path[|n.path| - |Decimal(n.id)|..] == Decimal(n.id)
  {
    if n.parent.None? {
      DecimalIsOneSegment(n.id);
    } else {
      AppendSegment(ParentRow(rows, n).path, n.id);
    }
  }

  /** `level` is the number of segments of `path` minus one, so it never exceeds MAX_DEPTH - 1. */
  lemma {:induction false} LevelMatchesSegments(rows: seq<TreeNode>, n: TreeNode)
    requires WellFormed(rows) && n in rows
    ensures SegmentCount(n.path) == n.level + 1
    ensures n.level < MAX_DEPTH
    decreases |n.path|
  {
    if n.parent.None? {
      DecimalIsOneSegment(n.id);
    } else {
      var p := ParentRow(rows, n);
      LevelMatchesSegments(rows, p);
      AppendSegment(p.path, n.id);
    }
  }

  /** Every proper descendant's path starts with the ancestor's path and a separator. */
  lemma {:induction false} AncestorPathIsPrefix(rows: seq<TreeNode>, a: TreeNode, d: TreeNode)
    requires WellFormed(rows) && a in rows && d in rows
    requires a.id in AncestorIds(rows, d)
    ensures StartsWith(d.path, a.path + ".")
    decreases |d.path|
  {
    var p := ParentRow(rows, d);
    if p.id == a.id {
      FindRowsEqual(rows, p, a);
      assert d.path == a.path + "." + Decimal(d.id);
      assert d.path[..|a.path + "."|] == a.path + ".";
    } else {
      AncestorPathIsPrefix(rows, a, p);
      assert d.path[..|p.path|] == p.path;
      assert d.path[..|a.path + "."|] == p.path[..|a.path + "."|];
    }
  }

  /** Two rows of a table with unique ids and the same id are the same row. */
  lemma FindRowsEqual(rows: seq<TreeNode>, m: TreeNode, n: TreeNode)
    requires UniqueIds(rows) && m in rows && n in rows && m.id == n.id
    ensures m == n
  {
    var i :| 0 <= i < |rows| && rows[i] == m;
    var j :| 0 <= j < |rows| && rows[j] == n;
  }

  predicate ProperPrefix<T(==)>(a: seq<T>, b: seq<T>)
  {
    |a| < |b| && b[..|a|] == a
  }

  /** A row whose segments begin another row's segments is that row's proper ancestor. */
  lemma {:induction false} SegmentPrefixIsAncestor(rows: seq<TreeNode>, a: TreeNode, d: TreeNode)
    requires WellFormed(rows) && a in rows && d in rows
    requires ProperPrefix(Split(a.path, '.'), Split(d.path, '.'))
    ensures a.id in AncestorIds(rows, d)
    decreases |d.path|
  {
    var sa := Split(a.path, '.');
    if d.parent.None? {
      DecimalIsOneSegment(d.id);
    } else {
      var p := ParentRow(rows, d);
      AppendSegment(p.path, d.id);
      var sp := Split(p.path, '.');
      assert Split(d.path, '.') == sp + [Decimal(d.id)];
      if |sa| == |sp| {
        assert sa == sp;
        LastSegmentIsId(rows, a);
        LastSegmentIsId(rows, p);
        DecimalInjective(a.id, p.id);
      } else {
        assert sp[..|sa|] == Split(d.path, '.')[..|sa|];
        SegmentPrefixIsAncestor(rows, a, p);
      }
    }
  }

  /** A path starting with another row's path and a separator belongs to a proper descendant. */
  lemma PrefixIsAncestor(rows: seq<TreeNode>, a: TreeNode, d: TreeNode)
    requires WellFormed(rows) && a in rows && d in rows
    requires StartsWith(d.path, a.path + ".")
    ensures a.id in AncestorIds(rows, d)
  {
    var rest := d.path[|a.path| + 1..];
    assert d.path == a.path + ['.'] + rest;
    SplitAppend(a.path, rest, '.');
    SegmentPrefixIsAncestor(rows, a, d);
  }

  /** `getAllDescendants` returns exactly the proper descendants of the node. */
  lemma GetAllDescendantsExact(rows: seq<TreeNode>, n: TreeNode)
    requires WellFormed(rows) && n in rows
    ensures GetAllDescendants(rows, n.id).Ok?
    ensures forall d :: d in GetAllDescendants(rows, n.id).value <==> d in rows && n.id in AncestorIds(rows, d)
  {
    var i :| 0 <= i < |rows| && rows[i] == n;
    FindRow(rows, i);
    forall d | d in rows
      ensures StartsWith(d.path, DescendantPrefix(n)) <==> n.id in AncestorIds(rows, d)
    {
      if n.id in AncestorIds(rows, d) { AncestorPathIsPrefix(rows, n, d); }
      if StartsWith(d.path, DescendantPrefix(n)) { PrefixIsAncestor(rows, n, d); }
    }
  }

  /** The substring test of `isAncestor` holds for every proper ancestor. */
  lemma IsAncestorComplete(rows: seq<TreeNode>, a: TreeNode, d: TreeNode)
    requires WellFormed(rows) && a in rows && d in rows
    requires a.id in AncestorIds(rows, d)
    ensures IsAncestor(rows, a.id, d.id) == Ok(true)
  {
    var j :| 0 <= j < |rows| && rows[j] == d;
    FindRow(rows, j);
    AncestorPathIsPrefix(rows, a, d);
    LastSegmentIsId(rows, a);
    SuffixOccurs(a.path, d.path, Decimal(a.id));
  }

  /** A path that starts with `p.` contains `t.` for every suffix t of p. */
  lemma SuffixOccurs(p: string, s: string, t: string)
    requires |t| <= |p| && p[|p| - |t|..] == t
    requires StartsWith(s, p + ".")
    ensures OccursIn(s, t + ".")
  {
    var i := |p| - |t|;
    assert s[..|p| + 1] == p + ".";
    assert s[i..i + |t| + 1] == (p + ".")[i..];
    assert OccursAt(s, t + ".", i);
  }

  /** A one-segment path names its own id. */
  lemma PathIdsOfId(id: nat)
    ensures PathIds(Decimal(id)) == {id}
  {
    DecimalIsOneSegment(id);
    DecimalRoundTrip(id);
    var segments := Split(Decimal(id), '.');
    assert NumberOf(segments[0]) == Some(id);
    forall k | k in PathIds(Decimal(id)) ensures k == id {
      var i :| 0 <= i < |segments| && NumberOf(segments[i]) == Some(k);
    }
  }

  /** Appending a segment adds the id it names. */
  lemma PathIdsAppend(p: string, id: nat)
    ensures PathIds(p + "." + Decimal(id)) == PathIds(p) + {id}
  {
    DecimalRoundTrip(id);
    AppendSegment(p, id);
    var sp := Split(p, '.');
    var sn := Split(p + "." + Decimal(id), '.');
    assert sn == sp + [Decimal(id)];
    forall k ensures k in PathIds(p + "." + Decimal(id)) <==> k in PathIds(p) + {id} {
      if k in PathIds(p) {
        var i :| 0 <= i < |sp| && NumberOf(sp[i]) == Some(k);
        assert sn[i] == sp[i];
      }
      if k in PathIds(p + "." + Decimal(id)) {
        var i :| 0 <= i < |sn| && NumberOf(sn[i]) == Some(k);
        if i < |sp| { assert sn[i] == sp[i]; }
      }
      assert sn[|sp|] == Decimal(id);
    }
  }

  /** The ids a path names are the row's ancestors and the row itself. */
  lemma {:induction false} PathIdsAreAncestors(rows: seq<TreeNode>, n: TreeNode)
    requires WellFormed(rows) && n in rows
    ensures PathIds(n.path) == AncestorIds(rows, n) + {n.id}
    decreases |n.path|
  {
    if n.parent.None? {
      PathIdsOfId(n.id);
    } else {
      var p := ParentRow(rows, n);
      PathIdsAreAncestors(rows, p);
      PathIdsAppend(p.path, n.id);
    }
  }

  /** `getNodePath` returns exactly the node and its ancestors, root first. */
  lemma GetNodePathExact(rows: seq<TreeNode>, n: TreeNode)
    requires WellFormed(rows) && n in rows
    ensures GetNodePath(rows, n.id).Ok?
    ensures SortedByLevel(GetNodePath(rows, n.id).value)
    ensures forall m :: m in GetNodePath(rows, n.id).value <==>
      m in rows && (m.id == n.id || m.id in AncestorIds(rows, n))
  {
    var i :| 0 <= i < |rows| && rows[i] == n;
    FindRow(rows, i);
    PathIdsAreAncestors(rows, n);
  }

  /** On a consistent table `findTree`'s roots are exactly the parentless rows. */
  lemma RootIffParentless(rows: seq<TreeNode>, i: nat)
    requires WellFormed(rows) && i < |rows|
    ensures IsRoot(rows, i) <==> rows[i].parent.None?
    ensures !IsRoot(rows, i) ==> rows[ParentPos(rows, i)] == ParentRow(rows, rows[i])
  {
    var n := rows[i];
    if n.parent.Some? {
      var p := ParentRow(rows, n);
      FindRow(rows, i);
      assert p.id != n.id;
      var j :| 0 <= j < |rows| && rows[j] == p;
      IndexOfLast(rows, p.id);
      assert IndexOf(rows, p.id).Some?;
      assert p.id > 0;
      FindRowsEqual(rows, rows[ParentPos(rows, i)], p);
    }
  }

  /** On a consistent table, every level `findTree` assigns is the stored level. */
  lemma {:induction false} AssembledLevelIsStored(rows: seq<TreeNode>, i: nat)
    requires WellFormed(rows) && i < |rows|
    ensures AssembledLevel(rows, i) == rows[i].level
    decreases i
  {
    RootIffParentless(rows, i);
    assert NodeWellFormed(rows, rows[i]);
    if !IsRoot(rows, i) {
      var j := ParentPos(rows, i);
      RootIffParentless(rows, j);
      assert NodeWellFormed(rows, rows[j]);
      if j < i { AssembledLevelIsStored(rows, j); }
      assert rows[i].level == rows[j].level + 1;
    }
  }

  /** Every non-root row comes after its parent in the load order. */
  predicate ParentsFirst(rows: seq<TreeNode>)
  {
    forall i :: 0 <= i < |rows| && !IsRoot(rows, i) ==> ParentPos(rows, i) < i
  }

  /** The number of parent links from a row up to its root. */
  function Depth(rows: seq<TreeNode>, i: nat): nat
    requires ParentsFirst(rows) && i < |rows|
    decreases i
  {
    if IsRoot(rows, i) then 0 else Depth(rows, ParentPos(rows, i)) + 1
  }

  /** When parents are loaded before their children, `findTree` levels are true depths, whatever is stored. */
  lemma {:induction false} AssembledLevelIsDepth(rows: seq<TreeNode>, i: nat)
    requires ParentsFirst(rows) && i < |rows|
    ensures AssembledLevel(rows, i) == Depth(rows, i)
    decreases i
  {
    if !IsRoot(rows, i) {
      AssembledLevelIsDepth(rows, ParentPos(rows, i));
    }
  }

  /**
   * When a parent is loaded after its child, the child's level is built on the
   * parent's stored level: here a grandchild loaded first gets level 6 (its
   * parent's stale stored 5, plus one) although it is two links below its root.
   */
  lemma LaterParentUsesStoredLevel()
    ensures
      var rows := [
        TreeNode(3, "c", None, 0, "1.2.3", Some(2)),
        TreeNode(2, "b", None, 5, "1.2", Some(1)),
        TreeNode(1, "a", None, 0, "1", None)];
      AssembledLevel(rows, 0) == 6 && AssembledLevel(rows, 1) == 1
  {
    var rows := [
      TreeNode(3, "c", None, 0, "1.2.3", Some(2)),
      TreeNode(2, "b", None, 5, "1.2", Some(1)),
      TreeNode(1, "a", None, 0, "1", None)];
    assert IndexOf(rows, 2) == Some(1);
    assert IndexOf(rows, 1) == Some(2);
    assert !IsRoot(rows, 0) && ParentPos(rows, 0) == 1;
    assert !IsRoot(rows, 1) && ParentPos(rows, 1) == 2;
    assert IsRoot(rows, 2);
  }

  /** Rows whose parents form a cycle are never reached from a root: `findTree` returns nothing for them. */
  lemma CycleIsDropped()
    ensures Forest([TreeNode(1, "a", None, 1, "2.1", Some(2)), TreeNode(2, "b", None, 1, "1.2", Some(1))]) == []
  {
    var rows := [TreeNode(1, "a", None, 1, "2.1", Some(2)), TreeNode(2, "b", None, 1, "1.2", Some(1))];
    assert IndexOf(rows, 2) == Some(1);
    assert IndexOf(rows, 1) == Some(0);
    assert !IsRoot(rows, 0) && !IsRoot(rows, 1);
    assert RootPositions(rows, 2) == [];
  }

  /**
   * The substring test also accepts ids that are no ancestor: id 2 is found in
   * "12.5" although the table has no row 2.
   */
  lemma IsAncestorFalsePositive()
    ensures
      var rows := [TreeNode(12, "a", None, 0, "12", None), TreeNode(5, "b", None, 1, "12.5", Some(12))];
      WellFormed(rows) && IsAncestor(rows, 2, 5) == Ok(true) && forall n :: n in rows ==> n.id != 2
  {
    var rows := [TreeNode(12, "a", None, 0, "12", None), TreeNode(5, "b", None, 1, "12.5", Some(12))];
    SampleWellFormed(rows);
    assert Find(rows, 5) == Some(rows[1]);
    assert Decimal(2) == "2" && Decimal(2) + [PATH_SEPARATOR] == "2.";
    SampleOccurrence();
  }

  /** "2." occurs in "12.5", at position 1. */
  lemma SampleOccurrence()
    ensures OccursIn("12.5", "2.")
  {
    assert "12.5"[1..3] == "2.";
    assert OccursAt("12.5", "2.", 1);
  }

  /** The table of the false-positive example is consistent and has no row 2. */
  lemma SampleWellFormed(rows: seq<TreeNode>)
    requires rows == [TreeNode(12, "a", None, 0, "12", None), TreeNode(5, "b", None, 1, "12.5", Some(12))]
    ensures WellFormed(rows) && forall n :: n in rows ==> n.id != 2
  {
    assert Decimal(12) == "12" && Decimal(5) == "5";
    assert Find(rows, 12) == Some(rows[0]);
    DecimalIsOneSegment(12);
    AppendSegment("12", 5);
    assert NodeWellFormed(rows, rows[0]);
    assert NodeWellFormed(rows, rows[1]);
    forall n | n in rows ensures NodeWellFormed(rows, n) && n.id != 2 {
      assert n == rows[0] || n == rows[1];
    }
    assert UniqueIds(rows);
  }

  /**
   * The ancestor test the substring search stands for: the id is one of the
   * path's segments other than the last.
   */
  function IsAncestorBySegment(rows: seq<TreeNode>, ancestorId: nat, descendantId: nat): (r: Result<bool, Failure>)
    ensures r.Err? <==> FindOne(rows, descendantId).Err?
    ensures r.Ok? ==> (r.value <==>
      var segments := Split(Find(rows, descendantId).value.path, '.');
      Decimal(ancestorId) in segments[..|segments| - 1])
  {
    match FindOne(rows, descendantId)
    case Err(e) => Err(e)
    case Ok(d) =>
      var segments := Split(d.path, '.');
      Ok(Decimal(ancestorId) in segments[..|segments| - 1])
  }

  /** On a consistent table the segment test holds exactly for the proper ancestors. */
  lemma IsAncestorBySegmentExact(rows: seq<TreeNode>, a: nat, d: TreeNode)
    requires WellFormed(rows) && d in rows
    ensures IsAncestorBySegment(rows, a, d.id) == Ok(a in AncestorIds(rows, d))
  {
    var j :| 0 <= j < |rows| && rows[j] == d;
    FindRow(rows, j);
    SegmentsAreAncestors(rows, d, a);
  }

  /** Appending a segment to a path whose last segment is `pid` leaves `pid` just before the new last segment. */
  lemma ChildSegments(path: string, pp: string, pid: nat, id: nat)
    requires path == pp + "." + Decimal(id)
    requires Split(pp, '.')[|Split(pp, '.')| - 1] == Decimal(pid)
    ensures var s := Split(path, '.'); var sp := Split(pp, '.');
      |s| > 0 && s[..|s| - 1] == sp[..|sp| - 1] + [Decimal(pid)]
  {
    AppendSegment(pp, id);
    var s := Split(path, '.');
    var sp := Split(pp, '.');
    assert s == sp + [Decimal(id)];
    assert s[..|s| - 1] == sp;
    assert sp == sp[..|sp| - 1] + [Decimal(pid)];
  }

  /** The segments before the last name exactly the proper ancestors. */
  lemma {:induction false} SegmentsAreAncestors(rows: seq<TreeNode>, d: TreeNode, a: nat)
    requires WellFormed(rows) && d in rows
    ensures var s := Split(d.path, '.');
      a in AncestorIds(rows, d) <==> Decimal(a) in s[..|s| - 1]
    decreases |d.path|
  {
    var s := Split(d.path, '.');
    if d.parent.None? {
      DecimalIsOneSegment(d.id);
      assert s[..|s| - 1] == [];
    } else {
      var p := ParentRow(rows, d);
      SegmentsAreAncestors(rows, p, a);
      LastSegmentIsId(rows, p);
      ChildSegments(d.path, p.path, p.id, d.id);
      assert AncestorIds(rows, d) == {p.id} + AncestorIds(rows, p);
      if Decimal(a) == Decimal(p.id) { DecimalInjective(a, p.id); }
    }
  }
}
