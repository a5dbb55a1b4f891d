/**
 * `findTree`: builds a forest from every loaded row. Three passes over the rows
 * in load order index them by id, detach the roots, and hang every other row
 * under its parent while setting its level; `convertToPlain` then turns the
 * roots into nested plain objects.
 *
 * Rows are identified by their position in the load order. The passes work on
 * the mutable fields of the loaded entities (`parent`, `level`, `children`),
 * held here as sequences indexed by position.
 */
module TreeAssembly {
  import opened Wrappers
  import opened TreeEntity

  /** What `convertToPlain` emits for one node (timestamps aside). */
  datatype PlainNode = PlainNode(
    id: nat,
    name: string,
    description: Option<string>,
    level: nat,
    children: seq<PlainNode>,
    parentId: Option<nat>)

  /**
   * `nodeMap.get(id)`: the position of the row with that id. `Map.set` keeps the
   * last write, so with repeated ids it is the last such row.
   */
  function IndexOf(rows: seq<TreeNode>, id: nat): (r: Option<nat>)
    ensures r.Some? ==> r.value < |rows| && rows[r.value].id == id
  {
    if |rows| == 0 then None
    else if rows[|rows| - 1].id == id then Some(|rows| - 1)
    else IndexOf(rows[..|rows| - 1], id)
  }

  /** The index holds the last row with the id, and misses exactly the ids no row has. */
  lemma {:induction false} IndexOfLast(rows: seq<TreeNode>, id: nat)
    ensures IndexOf(rows, id).Some? ==> forall j :: IndexOf(rows, id).value < j < |rows| ==> rows[j].id != id
    ensures IndexOf(rows, id).None? <==> forall i :: 0 <= i < |rows| ==> rows[i].id != id
    decreases |rows|
  {
    if |rows| > 0 && rows[|rows| - 1].id != id {
      var front := rows[..|rows| - 1];
      IndexOfLast(front, id);
      assert forall i :: 0 <= i < |front| ==> front[i] == rows[i];
    }
  }

  /** With unique ids, the index of a row's id is that row's position. */
  lemma IndexOfRow(rows: seq<TreeNode>, i: nat)
    requires UniqueIds(rows) && i < |rows|
    ensures IndexOf(rows, rows[i].id) == Some(i)
  {
    IndexOfLast(rows, rows[i].id);
  }

  /**
   * The root test of the second pass, on the row as loaded: no parent (or the
   * falsy id 0), itself as parent, or a parent that is not among the rows.
   */
  predicate IsRoot(rows: seq<TreeNode>, i: nat)
    requires i < |rows|
  {
    var p := rows[i].parent;
    p == None || p.value == 0 || p.value == rows[i].id || IndexOf(rows, p.value).None?
  }

  /** The position of a non-root's parent; never the row itself. */
  function ParentPos(rows: seq<TreeNode>, i: nat): (j: nat)
    requires i < |rows| && !IsRoot(rows, i)
    ensures j < |rows| && j != i
    ensures rows[j].id == rows[i].parent.value
  {
    IndexOf(rows, rows[i].parent.value).value
  }

  predicate Increasing(s: seq<nat>)
  {
    forall i, j :: 0 <= i < j < |s| ==> s[i] < s[j]
  }

  /** The roots among the first k rows, in load order. */
  function RootPositions(rows: seq<TreeNode>, k: nat): (r: seq<nat>)
    requires k <= |rows|
    ensures forall i :: 0 <= i < |r| ==> r[i] < k
  {
    if k == 0 then []
    else RootPositions(rows, k - 1) + (if IsRoot(rows, k - 1) then [k - 1] else [])
  }

  /** The roots among the first k rows are exactly those rows that are roots, each once and in load order. */
  lemma {:induction false} RootPositionsMembers(rows: seq<TreeNode>, k: nat)
    requires k <= |rows|
    ensures forall x: nat :: x in RootPositions(rows, k) <==> x < k && IsRoot(rows, x)
    ensures Increasing(RootPositions(rows, k))
  {
    if k > 0 {
      RootPositionsMembers(rows, k - 1);
    }
  }

  /** The non-roots among the first k rows whose parent is at position p, in load order. */
  function ChildPositions(rows: seq<TreeNode>, p: nat, k: nat): (r: seq<nat>)
    requires k <= |rows|
    ensures forall i :: 0 <= i < |r| ==> r[i] < k
  {
    if k == 0 then []
    else
      ChildPositions(rows, p, k - 1)
        + (if !IsRoot(rows, k - 1) && ParentPos(rows, k - 1) == p then [k - 1] else [])
  }

  /** The children hung under p among the first k rows are exactly the non-roots whose parent is at p, each once and in load order. */
  lemma {:induction false} ChildPositionsMembers(rows: seq<TreeNode>, p: nat, k: nat)
    requires k <= |rows|
    ensures forall c: nat :: c in ChildPositions(rows, p, k) <==> c < k && !IsRoot(rows, c) && ParentPos(rows, c) == p
    ensures Increasing(ChildPositions(rows, p, k))
  {
    if k > 0 {
      ChildPositionsMembers(rows, p, k - 1);
    }
  }

  /** A row's level before the third pass: 0 for a detached root, the stored level otherwise. */
  function StartLevel(rows: seq<TreeNode>, j: nat): nat
    requires j < |rows|
  {
    if IsRoot(rows, j) then 0 else rows[j].level
  }

  /**
   * The level the third pass gives row i: one more than its parent's level at
   * the moment row i is visited, which is the parent's assembled level when the
   * parent comes earlier and its starting level when it comes later.
   */
  function AssembledLevel(rows: seq<TreeNode>, i: nat): nat
    requires i < |rows|
    decreases i
  {
    if IsRoot(rows, i) then 0
    else
      var j := ParentPos(rows, i);
      (if j < i then AssembledLevel(rows, j) else StartLevel(rows, j)) + 1
  }

  /** The mutable fields of the loaded rows after the passes, by position. */
  datatype Links = Links(parent: seq<Option<nat>>, level: seq<nat>, children: seq<seq<nat>>)

  /** x is nobody's child. */
  predicate Orphan(st: Links, x: nat)
  {
    forall y, j :: 0 <= y < |st.children| && 0 <= j < |st.children[y]| ==> st.children[y][j] != x
  }

  /** Fields for every row, children are rows, and no row has two parents. */
  predicate Linked(rows: seq<TreeNode>, st: Links)
  {
    && |st.parent| == |rows| && |st.level| == |rows| && |st.children| == |rows|
    && (forall x, i :: 0 <= x < |rows| && 0 <= i < |st.children[x]| ==> st.children[x][i] < |rows|)
    && (forall x, y, i, j ::
          0 <= x < |rows| && 0 <= y < |rows| && 0 <= i < |st.children[x]| && 0 <= j < |st.children[y]|
          && st.children[x][i] == st.children[y][j]
          ==> x == y)
  }

  /** A descent from a top-level node: each element a child of the previous one, none repeated. */
  ghost predicate Chain(st: Links, chain: seq<nat>)
  {
    && (forall k :: 0 <= k < |chain| ==> chain[k] < |st.children|)
    && (|chain| > 0 ==> Orphan(st, chain[0]))
    && (forall k :: 0 < k < |chain| ==> chain[k] in st.children[chain[k - 1]])
    && (forall i, j :: 0 <= i < |chain| && 0 <= j < |chain| && chain[i] == chain[j] ==> i == j)
  }

  function Positions(n: nat): (r: seq<nat>)
    ensures |r| == n && forall i :: 0 <= i < n ==> r[i] == i
  {
    if n == 0 then [] else Positions(n - 1) + [n - 1]
  }

  ghost function Unvisited(st: Links, chain: seq<nat>): set<nat>
  {
    (set x | x in Positions(|st.children|)) - (set k | k in chain)
  }

  /** A position at which a member of a list sits. */
  lemma {:induction false} PositionOf(s: seq<nat>, x: nat) returns (i: nat)
    requires x in s
    ensures i < |s| && s[i] == x
  {
    if s[0] == x {
      i := 0;
    } else {
      assert x in s[1..];
      i := PositionOf(s[1..], x);
      i := i + 1;
    }
  }

  /** A child of the last node of a chain extends the chain. */
  lemma ChainExtends(rows: seq<TreeNode>, st: Links, chain: seq<nat>, x: nat)
    requires Linked(rows, st) && Chain(st, chain) && x < |rows|
    requires |chain| == 0 ==> Orphan(st, x)
    requires |chain| > 0 ==> x in st.children[chain[|chain| - 1]]
    ensures x !in chain
    ensures Chain(st, chain + [x])
  {
    if |chain| > 0 {
      var last := chain[|chain| - 1];
      var j := PositionOf(st.children[last], x);
      forall k | 0 <= k < |chain| ensures chain[k] != x {
        if k > 0 {
          var i := PositionOf(st.children[chain[k - 1]], chain[k]);
          assert chain[k - 1] != last;
        }
      }
    }
    var c := chain + [x];
    forall k | 0 < k < |c| ensures c[k] in st.children[c[k - 1]] {
      if k < |chain| { assert c[k] == chain[k] && c[k - 1] == chain[k - 1]; }
    }
  }

  /**
   * What `convertToPlain` emits for position x: its row's fields, its level and
   * parent id, and, in order, the conversion of each hung child.
   */
  predicate PlainOf(rows: seq<TreeNode>, st: Links, x: nat, n: PlainNode)
    requires Linked(rows, st) && x < |rows|
    decreases n
  {
    && n.id == rows[x].id && n.name == rows[x].name && n.description == rows[x].description
    && n.level == st.level[x] && n.parentId == st.parent[x]
    && |n.children| == |st.children[x]|
    && forall j :: 0 <= j < |st.children[x]| ==> PlainOf(rows, st, st.children[x][j], n.children[j])
  }

  /** A list of positions the conversion may descend into below `chain`: top-level nodes, or children of the chain's last node. */
  ghost predicate Convertible(rows: seq<TreeNode>, st: Links, nodes: seq<nat>, chain: seq<nat>)
  {
    && Linked(rows, st) && Chain(st, chain)
    && (forall k :: 0 <= k < |nodes| ==> nodes[k] < |rows|)
    && (|chain| == 0 ==> forall k :: 0 <= k < |nodes| ==> Orphan(st, nodes[k]))
    && (|chain| > 0 ==> forall k :: 0 <= k < |nodes| ==> nodes[k] in st.children[chain[|chain| - 1]])
  }

  /** Descending into the first node's children visits one more node. */
  lemma ConvertDescends(rows: seq<TreeNode>, st: Links, nodes: seq<nat>, chain: seq<nat>)
    requires Convertible(rows, st, nodes, chain) && |nodes| > 0
    ensures nodes[0] < |rows|
    ensures Convertible(rows, st, st.children[nodes[0]], chain + [nodes[0]])
    ensures Convertible(rows, st, nodes[1..], chain)
    ensures Unvisited(st, chain + [nodes[0]]) < Unvisited(st, chain)
  {
    var x := nodes[0];
    ChainExtends(rows, st, chain, x);
    assert Positions(|st.children|)[x] == x;
    assert (chain + [x])[|chain|] == x;
    assert x in Unvisited(st, chain) && x !in Unvisited(st, chain + [x]);
  }

  /** A converted node followed by the converted rest of the list. */
  lemma PlainCons(rows: seq<TreeNode>, st: Links, nodes: seq<nat>, node: PlainNode, rest: seq<PlainNode>)
    requires Linked(rows, st) && |nodes| > 0 && (forall k :: 0 <= k < |nodes| ==> nodes[k] < |rows|)
    requires PlainOf(rows, st, nodes[0], node)
    requires |rest| == |nodes| - 1 && forall k :: 0 <= k < |rest| ==> PlainOf(rows, st, nodes[1..][k], rest[k])
    ensures forall k :: 0 <= k < |nodes| ==> PlainOf(rows, st, nodes[k], ([node] + rest)[k])
  {
    forall k | 0 <= k < |nodes| ensures PlainOf(rows, st, nodes[k], ([node] + rest)[k]) {
      if k > 0 {
        assert ([node] + rest)[k] == rest[k - 1] && nodes[k] == nodes[1..][k - 1];
      }
    }
  }

  /**
   * `convertToPlain`: each node with its id, name, description and level, its
   * children converted in their collection order, and the id of its parent.
   * Every collection was created initialised by the first pass, so the
   * children are always converted. The chain of nodes above the list is ghost:
   * it bounds the recursion.
   */
  function ConvertToPlain(rows: seq<TreeNode>, st: Links, nodes: seq<nat>, ghost chain: seq<nat>): (r: seq<PlainNode>)
    requires Convertible(rows, st, nodes, chain)
    ensures |r| == |nodes|
    ensures forall k :: 0 <= k < |r| ==> nodes[k] < |rows| && PlainOf(rows, st, nodes[k], r[k])
    decreases Unvisited(st, chain), |nodes|
  {
    if |nodes| == 0 then []
    else
      var x := nodes[0];
      ConvertDescends(rows, st, nodes, chain);
      var children := ConvertToPlain(rows, st, st.children[x], chain + [x]);
      var node := PlainNode(rows[x].id, rows[x].name, rows[x].description, st.level[x], children, st.parent[x]);
      var rest := ConvertToPlain(rows, st, nodes[1..], chain);
      assert PlainOf(rows, st, x, node);
      PlainCons(rows, st, nodes, node, rest);
      [node] + rest
  }

  /** The fields the three passes leave, as functions of the loaded rows. */
  function AssembledLinks(rows: seq<TreeNode>): (st: Links)
    ensures Linked(rows, st)
  {
    var st := Links(
      seq(|rows|, i requires 0 <= i < |rows| => if IsRoot(rows, i) then None else rows[i].parent),
      seq(|rows|, i requires 0 <= i < |rows| => AssembledLevel(rows, i)),
      seq(|rows|, p requires 0 <= p < |rows| => ChildPositions(rows, p, |rows|)));
    assert forall x, i :: 0 <= x < |rows| && 0 <= i < |st.children[x]| ==>
      !IsRoot(rows, st.children[x][i]) && ParentPos(rows, st.children[x][i]) == x by {
      forall x, i | 0 <= x < |rows| && 0 <= i < |st.children[x]|
        ensures !IsRoot(rows, st.children[x][i]) && ParentPos(rows, st.children[x][i]) == x {
        ChildPositionsMembers(rows, x, |rows|);
        assert st.children[x][i] in ChildPositions(rows, x, |rows|);
      }
    }
    st
  }

  /** Roots are nobody's child. */
  lemma RootsAreOrphans(rows: seq<TreeNode>)
    ensures forall k :: 0 <= k < |RootPositions(rows, |rows|)| ==>
      Orphan(AssembledLinks(rows), RootPositions(rows, |rows|)[k])
  {
    var st := AssembledLinks(rows);
    var roots := RootPositions(rows, |rows|);
    forall k, y, j | 0 <= k < |roots| && 0 <= y < |st.children| && 0 <= j < |st.children[y]|
      ensures st.children[y][j] != roots[k] {
      RootPositionsMembers(rows, |rows|);
      ChildPositionsMembers(rows, y, |rows|);
      assert roots[k] in roots;
      assert st.children[y][j] in ChildPositions(rows, y, |rows|);
    }
  }

  /**
   * The forest `findTree` returns: the roots in load order, each with its
   * subtree. A row whose chain of parents never reaches a root (a cycle) is in
   * no subtree.
   */
  function Forest(rows: seq<TreeNode>): (f: seq<PlainNode>)
    ensures |f| == |RootPositions(rows, |rows|)|
    ensures forall k :: 0 <= k < |f| ==>
      var x := RootPositions(rows, |rows|)[k];
      f[k].id == rows[x].id && f[k].level == 0 && f[k].parentId == None
    ensures Linked(rows, AssembledLinks(rows))
    ensures forall k :: 0 <= k < |f| ==>
      RootPositions(rows, |rows|)[k] < |rows| && PlainOf(rows, AssembledLinks(rows), RootPositions(rows, |rows|)[k], f[k])
  {
    RootsAreOrphans(rows);
    RootPositionsMembers(rows, |rows|);
    assert Convertible(rows, AssembledLinks(rows), RootPositions(rows, |rows|), []);
    ConvertToPlain(rows, AssembledLinks(rows), RootPositions(rows, |rows|), [])
  }

  /** nodeMap maps every loaded id to the position `IndexOf` gives, and nothing else. */
  ghost predicate Indexes(rows: seq<TreeNode>, nodeMap: map<nat, nat>)
  {
    && (forall id :: id in nodeMap <==> IndexOf(rows, id).Some?)
    && (forall id :: id in nodeMap ==> nodeMap[id] == IndexOf(rows, id).value)
  }

  /** The first pass: a fresh, empty children collection per row, and the id index. */
  method IndexRows(rows: seq<TreeNode>) returns (nodeMap: map<nat, nat>, children: seq<seq<nat>>)
    ensures Indexes(rows, nodeMap)
    ensures |children| == |rows| && forall x :: 0 <= x < |rows| ==> children[x] == []
  {
    nodeMap := map[];
    children := [];
    for i := 0 to |rows|
      invariant |children| == i && forall x :: 0 <= x < i ==> children[x] == []
      invariant Indexes(rows[..i], nodeMap)
    {
      assert rows[..i + 1][..i] == rows[..i];
      children := children + [[]];
      nodeMap := nodeMap[rows[i].id := i];
    }
    assert rows[..|rows|] == rows;
  }

  /** The second pass's root test, on the index: a falsy parent id, the row's own id, or an id not indexed. */
  predicate Detaches(rows: seq<TreeNode>, nodeMap: map<nat, nat>, x: nat)
    requires x < |rows|
  {
    var p := rows[x].parent;
    p == None || p.value == 0 || p.value == rows[x].id || p.value !in nodeMap
  }

  /** Over a correct index, the second pass's test is `IsRoot`. */
  lemma DetachesIsRoot(rows: seq<TreeNode>, nodeMap: map<nat, nat>)
    requires Indexes(rows, nodeMap)
    ensures forall x :: 0 <= x < |rows| ==> (Detaches(rows, nodeMap, x) <==> IsRoot(rows, x))
  {
  }

  /**
   * The second pass: a row whose parent id is falsy, its own id, or not in the
   * index loses its parent, gets level 0 and joins the roots.
   */
  method DetachRoots(rows: seq<TreeNode>, nodeMap: map<nat, nat>)
    returns (parent: seq<Option<nat>>, level: seq<nat>, roots: seq<nat>)
    requires Indexes(rows, nodeMap)
    ensures roots == RootPositions(rows, |rows|)
    ensures |parent| == |rows| && |level| == |rows|
    ensures forall x :: 0 <= x < |rows| ==> parent[x] == (if IsRoot(rows, x) then None else rows[x].parent)
    ensures forall x :: 0 <= x < |rows| ==> level[x] == StartLevel(rows, x)
  {
    DetachesIsRoot(rows, nodeMap);
    parent, level, roots := DetachLoop(rows, nodeMap);
  }

  /** The roots among the first i + 1 rows: those among the first i, then row i when it is one. */
  lemma RootPositionsStep(rows: seq<TreeNode>, i: nat)
    requires i < |rows|
    ensures RootPositions(rows, i + 1) == RootPositions(rows, i) + (if IsRoot(rows, i) then [i] else [])
  {
  }

  /** The loop of the second pass, over an index whose test agrees with `IsRoot`. */
  method DetachLoop(rows: seq<TreeNode>, nodeMap: map<nat, nat>)
    returns (parent: seq<Option<nat>>, level: seq<nat>, roots: seq<nat>)
    requires forall x :: 0 <= x < |rows| ==> (Detaches(rows, nodeMap, x) <==> IsRoot(rows, x))
    ensures roots == RootPositions(rows, |rows|)
    ensures |parent| == |rows| && |level| == |rows|
    ensures forall x :: 0 <= x < |rows| ==> parent[x] == (if IsRoot(rows, x) then None else rows[x].parent)
    ensures forall x :: 0 <= x < |rows| ==> level[x] == StartLevel(rows, x)
  {
    // the loaded entities' own fields
    parent := seq(|rows|, i requires 0 <= i < |rows| => rows[i].parent);
    level := seq(|rows|, i requires 0 <= i < |rows| => rows[i].level);
    roots := [];
    for i := 0 to |rows|
      invariant |parent| == |rows| && |level| == |rows|
      invariant roots == RootPositions(rows, i)
      invariant forall x :: 0 <= x < i ==> parent[x] == (if IsRoot(rows, x) then None else rows[x].parent)
      invariant forall x :: 0 <= x < i ==> level[x] == StartLevel(rows, x)
      invariant forall x :: i <= x < |rows| ==> parent[x] == rows[x].parent && level[x] == rows[x].level
    {
      RootPositionsStep(rows, i);
      var parentId := parent[i];
      var detach := parentId == None || parentId.value == 0 || parentId.value == rows[i].id || parentId.value !in nodeMap;
      assert detach == IsRoot(rows, i) by {
        assert detach == Detaches(rows, nodeMap, i);
      }
      if detach {
        parent := parent[i := None];
        level := level[i := 0];
        roots := roots + [i];
      }
    }
  }

  /** Over a correct index, the third pass finds a non-root's parent at `ParentPos`. */
  lemma IndexFindsParent(rows: seq<TreeNode>, nodeMap: map<nat, nat>)
    requires Indexes(rows, nodeMap)
    ensures forall x :: 0 <= x < |rows| && !IsRoot(rows, x) ==>
      rows[x].parent.value in nodeMap && nodeMap[rows[x].parent.value] == ParentPos(rows, x)
  {
  }

  /** Row i is hung under p exactly when it is a non-root whose parent is at p. */
  lemma ChildPositionsStep(rows: seq<TreeNode>, p: nat, i: nat)
    requires i < |rows|
    ensures ChildPositions(rows, p, i + 1) ==
      ChildPositions(rows, p, i) + (if !IsRoot(rows, i) && ParentPos(rows, i) == p then [i] else [])
  {
  }

  /**
   * The third pass: every row that kept its parent is added to the parent's
   * children and gets the parent's current level plus one.
   */
  method HangChildren(rows: seq<TreeNode>, nodeMap: map<nat, nat>, parent: seq<Option<nat>>,
                      level0: seq<nat>, children0: seq<seq<nat>>)
    returns (level: seq<nat>, children: seq<seq<nat>>)
    requires Indexes(rows, nodeMap)
    requires |parent| == |rows| && |level0| == |rows| && |children0| == |rows|
    requires forall x :: 0 <= x < |rows| ==> parent[x] == (if IsRoot(rows, x) then None else rows[x].parent)
    requires forall x :: 0 <= x < |rows| ==> level0[x] == StartLevel(rows, x)
    requires forall x :: 0 <= x < |rows| ==> children0[x] == []
    ensures |level| == |rows| && |children| == |rows|
    ensures forall x :: 0 <= x < |rows| ==> level[x] == AssembledLevel(rows, x)
    ensures forall p :: 0 <= p < |rows| ==> children[p] == ChildPositions(rows, p, |rows|)
  {
    DetachesIsRoot(rows, nodeMap);
    IndexFindsParent(rows, nodeMap);
    level, children := HangLoop(rows, nodeMap, parent, level0, children0);
  }

  /** The fields after the third pass has visited the first i rows. */
  ghost predicate HungUpTo(rows: seq<TreeNode>, level: seq<nat>, children: seq<seq<nat>>, i: nat)
    requires i <= |rows|
  {
    && |level| == |rows| && |children| == |rows|
    && (forall x :: 0 <= x < i ==> level[x] == AssembledLevel(rows, x))
    && (forall x :: i <= x < |rows| ==> level[x] == StartLevel(rows, x))
    && (forall p :: 0 <= p < |rows| ==> children[p] == ChildPositions(rows, p, i))
  }

  /** Visiting row i: a root changes nothing; a non-root joins its parent's children and takes the parent's current level plus one. */
  lemma HangAdvance(rows: seq<TreeNode>, level: seq<nat>, children: seq<seq<nat>>, i: nat)
    requires i < |rows| && HungUpTo(rows, level, children, i)
    ensures IsRoot(rows, i) ==> HungUpTo(rows, level, children, i + 1)
    ensures !IsRoot(rows, i) ==>
      var j := ParentPos(rows, i);
      HungUpTo(rows, level[i := level[j] + 1], children[j := children[j] + [i]], i + 1)
  {
    if IsRoot(rows, i) {
      forall p | 0 <= p < |rows| ensures children[p] == ChildPositions(rows, p, i + 1) {
        ChildPositionsStep(rows, p, i);
      }
    } else {
      var j := ParentPos(rows, i);
      var hung := children[j := children[j] + [i]];
      forall p | 0 <= p < |rows| ensures hung[p] == ChildPositions(rows, p, i + 1) {
        ChildPositionsStep(rows, p, i);
      }
      assert level[j] == if j < i then AssembledLevel(rows, j) else StartLevel(rows, j);
    }
  }

  /** The loop of the third pass, over an index that finds every non-root's parent. */
  method HangLoop(rows: seq<TreeNode>, nodeMap: map<nat, nat>, parent: seq<Option<nat>>,
                  level0: seq<nat>, children0: seq<seq<nat>>)
    returns (level: seq<nat>, children: seq<seq<nat>>)
    requires forall x :: 0 <= x < |rows| ==> (Detaches(rows, nodeMap, x) <==> IsRoot(rows, x))
    requires forall x :: 0 <= x < |rows| && !IsRoot(rows, x) ==>
      rows[x].parent.value in nodeMap && nodeMap[rows[x].parent.value] == ParentPos(rows, x)
    requires |parent| == |rows| && |level0| == |rows| && |children0| == |rows|
    requires forall x :: 0 <= x < |rows| ==> parent[x] == (if IsRoot(rows, x) then None else rows[x].parent)
    requires forall x :: 0 <= x < |rows| ==> level0[x] == StartLevel(rows, x)
    requires forall x :: 0 <= x < |rows| ==> children0[x] == []
    ensures |level| == |rows| && |children| == |rows|
    ensures forall x :: 0 <= x < |rows| ==> level[x] == AssembledLevel(rows, x)
    ensures forall p :: 0 <= p < |rows| ==> children[p] == ChildPositions(rows, p, |rows|)
  {
    level, children := level0, children0;
    for i := 0 to |rows|
      invariant HungUpTo(rows, level, children, i)
    {
      var parentId := parent[i];
      var hangs := parentId != None && parentId.value != 0 && parentId.value != rows[i].id && parentId.value in nodeMap;
      assert hangs == !IsRoot(rows, i) && (hangs ==> nodeMap[parentId.value] == ParentPos(rows, i)) by {
        assert Detaches(rows, nodeMap, i) == IsRoot(rows, i);
      }
      HangAdvance(rows, level, children, i);
      if hangs {
        var j := nodeMap[parentId.value];
        children := children[j := children[j] + [i]];
        level := level[i := level[j] + 1];
      }
    }
  }

  /** `findTree`: the three passes over the loaded rows, then `convertToPlain(roots)`. */
  method FindTree(rows: seq<TreeNode>) returns (forest: seq<PlainNode>)
    ensures forest == Forest(rows)
  {
    var nodeMap, children := IndexRows(rows);
    var parent, level, roots := DetachRoots(rows, nodeMap);
    level, children := HangChildren(rows, nodeMap, parent, level, children);
    var st := Links(parent, level, children);
    assert st == AssembledLinks(rows);
    RootsAreOrphans(rows);
    assert Convertible(rows, st, roots, []);
    forest := ConvertToPlain(rows, st, roots, []);
  }
}
