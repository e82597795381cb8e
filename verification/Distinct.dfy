/** SELECT DISTINCT: a tree of linked lists finds the rows that repeat no earlier one (libmsi/distinct.c). */
module Distincts {
  import opened Prelude

  // ---------------------------------------------------------------------------------------------
  // The result
  // ---------------------------------------------------------------------------------------------

  /** No row before r is equal to row r. */
  predicate IsFirst(table: seq<seq<nat>>, r: nat)
    requires r < |table|
  {
    forall e :: 0 <= e < r ==> table[e] != table[r]
  }

  /** The first occurrences among the first n rows, in order. */
  function Firsts(table: seq<seq<nat>>, n: nat): (list: seq<nat>)
    requires n <= |table|
    ensures |list| <= n
  {
    if n == 0 then [] else Firsts(table, n - 1) + if IsFirst(table, n - 1) then [n - 1] else []
  }

  /** The list is increasing and holds exactly the first occurrences. */
  lemma {:induction false} FirstsListed(table: seq<seq<nat>>, n: nat)
    requires n <= |table|
    ensures forall a, b :: 0 <= a < b < |Firsts(table, n)| ==> Firsts(table, n)[a] < Firsts(table, n)[b]
    ensures forall r: nat :: r in Firsts(table, n) <==> r < n && IsFirst(table, r)
  {
    if n > 0 {
      FirstsListed(table, n - 1);
      var before := Firsts(table, n - 1);
      forall r: nat
        ensures r in Firsts(table, n) <==> r < n && IsFirst(table, r)
      {
      }
      forall a, b | 0 <= a < b < |Firsts(table, n)|
        ensures Firsts(table, n)[a] < Firsts(table, n)[b]
      {
        assert Firsts(table, n)[a] == before[a];
        assert before[a] in before;
      }
    }
  }

  lemma {:induction false} EarliestEqual(table: seq<seq<nat>>, r: nat) returns (e: nat)
    requires r < |table|
    ensures e <= r && table[e] == table[r] && IsFirst(table, e)
    decreases r
  {
    if IsFirst(table, r) {
      e := r;
    } else {
      var s :| 0 <= s < r && table[s] == table[r];
      e := EarliestEqual(table, s);
    }
  }

  /** DISTINCT keeps every value tuple of the table exactly once. */
  lemma KeepsEachTupleOnce(table: seq<seq<nat>>, tuple: seq<nat>)
    ensures tuple in table <==> exists a :: 0 <= a < |Firsts(table, |table|)| && FirstRow(table, a) == tuple
    ensures forall a, b :: 0 <= a < b < |Firsts(table, |table|)| ==> FirstRow(table, a) != FirstRow(table, b)
  {
    var list := Firsts(table, |table|);
    FirstsListed(table, |table|);
    forall a, b | 0 <= a < b < |list|
      ensures FirstRow(table, a) != FirstRow(table, b)
    {
      assert list[b] in list;
    }
    if tuple in table {
      var r :| 0 <= r < |table| && table[r] == tuple;
      var e := EarliestEqual(table, r);
      assert e in list;
      var a :| 0 <= a < |list| && list[a] == e;
      assert FirstRow(table, a) == tuple;
    }
    if a :| 0 <= a < |list| && FirstRow(table, a) == tuple {
      assert list[a] in list;
    }
  }

  function FirstRow(table: seq<seq<nat>>, a: nat): seq<nat>
    requires a < |Firsts(table, |table|)|
  {
    FirstsListed(table, |table|);
    assert Firsts(table, |table|)[a] in Firsts(table, |table|);
    table[Firsts(table, |table|)[a]]
  }

  // ---------------------------------------------------------------------------------------------
  // The lists
  // ---------------------------------------------------------------------------------------------

  /** A node; the two pointers are places among the nodes. */
  datatype Node = Node(val: nat, count: nat, row: nat, nextrow: Option<nat>, nextcol: Option<nat>)

  /** Where a pointer to a pointer points: the head of the tree, or a pointer of a node. */
  datatype Slot = Root | NextRow(node: nat) | NextCol(node: nat)

  /** The path of a node is the values that lead to it, its own last. */
  predicate IsChild(path: seq<nat>, prefix: seq<nat>) {
    |path| == |prefix| + 1 && path[..|prefix|] == prefix
  }

  ghost function NextChild(paths: seq<seq<nat>>, from: nat, prefix: seq<nat>): (k: Option<nat>)
    ensures k.Some? ==> from <= k.value < |paths| && IsChild(paths[k.value], prefix)
    ensures k.Some? ==> forall j :: from <= j < k.value ==> !IsChild(paths[j], prefix)
    ensures k.None? ==> forall j :: from <= j < |paths| ==> !IsChild(paths[j], prefix)
    decreases |paths| - from
  {
    if from >= |paths| then None
    else if IsChild(paths[from], prefix) then Some(from)
    else NextChild(paths, from + 1, prefix)
  }

  /** A new path is the next child where there was none. */
  lemma NextChildAppend(paths: seq<seq<nat>>, from: nat, prefix: seq<nat>, path: seq<nat>)
    requires from <= |paths|
    ensures NextChild(paths + [path], from, prefix) ==
      if NextChild(paths, from, prefix).None? && IsChild(path, prefix) then Some(|paths|) else NextChild(paths, from, prefix)
  {
    var more := paths + [path];
    assert forall j :: 0 <= j < |paths| ==> more[j] == paths[j];
    assert more[|paths|] == path;
    var k, was := NextChild(more, from, prefix), NextChild(paths, from, prefix);
    if k.Some? && k.value < |paths| {
      assert more[k.value] == paths[k.value];
    }
    if was.Some? {
      assert IsChild(more[was.value], prefix);
    }
  }

  function Parent(path: seq<nat>): seq<nat>
    requires path != []
  {
    path[..|path| - 1]
  }

  /** What one node's fields are, given the paths of all nodes. */
  ghost predicate NodeFits(paths: seq<seq<nat>>, k: nat, node: Node)
    requires k < |paths|
  {
    && paths[k] != [] && paths[k][|paths[k]| - 1] == node.val
    && node.nextrow == NextChild(paths, k + 1, Parent(paths[k]))
    && node.nextcol == NextChild(paths, 0, paths[k])
  }

  ghost predicate HasParent(paths: seq<seq<nat>>, k: nat)
    requires k < |paths|
  {
    |paths[k]| > 1 ==> Parent(paths[k]) in paths
  }

  /** Every list holds, in the order of their creation, exactly the nodes that continue one path. */
  ghost predicate Linked(nodes: seq<Node>, root: Option<nat>, paths: seq<seq<nat>>) {
    && |paths| == |nodes|
    && (forall j, k :: 0 <= j < k < |paths| ==> paths[j] != paths[k])
    && (forall k {:trigger nodes[k]} :: 0 <= k < |nodes| ==> NodeFits(paths, k, nodes[k]))
    && (forall k :: 0 <= k < |paths| ==> HasParent(paths, k))
    && root == NextChild(paths, 0, [])
  }

  predicate SlotOk(s: Slot, n: nat) { s.Root? || s.node < n }

  /** The path that the nodes of a slot's list continue. */
  ghost function Prefix(paths: seq<seq<nat>>, s: Slot): seq<nat>
    requires SlotOk(s, |paths|) && (s.NextRow? ==> paths[s.node] != [])
  {
    match s
    case Root => []
    case NextRow(k) => Parent(paths[k])
    case NextCol(k) => paths[k]
  }

  function After(s: Slot): nat { if s.NextRow? then s.node + 1 else 0 }

  function Load(nodes: seq<Node>, root: Option<nat>, s: Slot): Option<nat>
    requires SlotOk(s, |nodes|)
  {
    match s
    case Root => root
    case NextRow(k) => nodes[k].nextrow
    case NextCol(k) => nodes[k].nextcol
  }

  lemma SlotLoads(nodes: seq<Node>, root: Option<nat>, paths: seq<seq<nat>>, s: Slot)
    requires Linked(nodes, root, paths) && SlotOk(s, |nodes|)
    ensures s.NextRow? ==> paths[s.node] != []
    ensures Load(nodes, root, s) == NextChild(paths, After(s), Prefix(paths, s))
  {
    if !s.Root? {
      assert NodeFits(paths, s.node, nodes[s.node]);
    }
  }

  /** Each list ends in one place. */
  lemma OneOpenSlot(nodes: seq<Node>, root: Option<nat>, paths: seq<seq<nat>>, s: Slot, t: Slot)
    requires Linked(nodes, root, paths) && SlotOk(s, |nodes|) && SlotOk(t, |nodes|)
    requires s.NextRow? ==> paths[s.node] != []
    requires t.NextRow? ==> paths[t.node] != []
    requires Load(nodes, root, s).None? && Load(nodes, root, t).None? && Prefix(paths, s) == Prefix(paths, t)
    ensures s == t
  {
    SlotLoads(nodes, root, paths, s);
    SlotLoads(nodes, root, paths, t);
    if s.NextRow? {
      assert IsChild(paths[s.node], Prefix(paths, s));
    }
    if t.NextRow? {
      assert IsChild(paths[t.node], Prefix(paths, t));
    }
    if s.NextCol? {
      assert NodeFits(paths, s.node, nodes[s.node]);
    }
    if t.NextCol? {
      assert NodeFits(paths, t.node, nodes[t.node]);
    }
  }

  function Store(nodes: seq<Node>, s: Slot, n: nat): (nodes': seq<Node>)
    requires SlotOk(s, |nodes|)
    ensures |nodes'| == |nodes|
  {
    match s
    case Root => nodes
    case NextRow(k) => nodes[k := nodes[k].(nextrow := Some(n))]
    case NextCol(k) => nodes[k := nodes[k].(nextcol := Some(n))]
  }

  /** A new node changes the pointers of an old one only where it is hung on. */
  lemma OldNodeFits(nodes: seq<Node>, root: Option<nat>, paths: seq<seq<nat>>, s: Slot, path: seq<nat>, k: nat)
    requires Linked(nodes, root, paths) && SlotOk(s, |nodes|) && Load(nodes, root, s).None? && k < |nodes|
    requires s.NextRow? ==> paths[s.node] != []
    requires path != [] && Parent(path) == Prefix(paths, s)
    ensures NodeFits(paths + [path], k, Store(nodes, s, |nodes|)[k])
  {
    assert NodeFits(paths, k, nodes[k]);
    ListStays(nodes, root, paths, s, path, NextRow(k));
    ListStays(nodes, root, paths, s, path, NextCol(k));
  }

  /** Seen from any place in a list, the next node is the same, or the new one if the list is open there. */
  lemma ListStays(nodes: seq<Node>, root: Option<nat>, paths: seq<seq<nat>>, s: Slot, path: seq<nat>, t: Slot)
    requires Linked(nodes, root, paths) && SlotOk(s, |nodes|) && SlotOk(t, |nodes|) && Load(nodes, root, s).None?
    requires s.NextRow? ==> paths[s.node] != []
    requires t.NextRow? ==> paths[t.node] != []
    requires path != [] && Parent(path) == Prefix(paths, s)
    ensures NextChild(paths + [path], After(t), Prefix(paths, t)) == if t == s then Some(|nodes|) else Load(nodes, root, t)
  {
    SlotLoads(nodes, root, paths, t);
    NextChildAppend(paths, After(t), Prefix(paths, t), path);
    if Load(nodes, root, t).None? && Prefix(paths, t) == Prefix(paths, s) {
      OneOpenSlot(nodes, root, paths, s, t);
    }
  }

  lemma NewNodeFits(nodes: seq<Node>, root: Option<nat>, paths: seq<seq<nat>>, path: seq<nat>, node: Node)
    requires Linked(nodes, root, paths) && path != [] && path !in paths
    requires node.val == path[|path| - 1] && node.nextrow.None? && node.nextcol.None?
    ensures NodeFits(paths + [path], |paths|, node)
  {
    NextChildAppend(paths, 0, path, path);
    forall j | 0 <= j < |paths|
      ensures !IsChild(paths[j], path)
    {
      assert HasParent(paths, j);
    }
  }

  /** Hanging a new node on the open end of a list keeps every list linked. */
  lemma LinkedAppend(nodes: seq<Node>, root: Option<nat>, paths: seq<seq<nat>>, s: Slot, val: nat, row: nat)
    requires Linked(nodes, root, paths) && SlotOk(s, |nodes|) && Load(nodes, root, s).None?
    requires s.NextRow? ==> paths[s.node] != []
    requires Prefix(paths, s) + [val] !in paths
    ensures var n, path := |nodes|, Prefix(paths, s) + [val];
      Linked(Store(nodes, s, n) + [Node(val, 1, row, None, None)], if s.Root? then Some(n) else root, paths + [path])
  {
    var n, path, node := |nodes|, Prefix(paths, s) + [val], Node(val, 1, row, None, None);
    var more, last := paths + [path], Store(nodes, s, n) + [node];
    assert IsChild(path, Prefix(paths, s));
    forall k | 0 <= k < |last|
      ensures NodeFits(more, k, last[k])
    {
      if k < n {
        OldNodeFits(nodes, root, paths, s, path, k);
      } else {
        NewNodeFits(nodes, root, paths, path, node);
      }
    }
    ParentsThere(nodes, root, paths, s, path);
    ListStays(nodes, root, paths, s, path, Root);
  }

  lemma ParentsThere(nodes: seq<Node>, root: Option<nat>, paths: seq<seq<nat>>, s: Slot, path: seq<nat>)
    requires Linked(nodes, root, paths) && SlotOk(s, |nodes|)
    requires s.NextRow? ==> paths[s.node] != []
    requires path != [] && Parent(path) == Prefix(paths, s)
    ensures var more := paths + [path]; forall k :: 0 <= k < |more| ==> HasParent(more, k)
  {
    var more := paths + [path];
    forall k | 0 <= k < |more|
      ensures HasParent(more, k)
    {
      if k < |paths| {
        assert HasParent(paths, k);
      } else {
        match s {
          case Root =>
          case NextRow(j) => assert HasParent(paths, j);
          case NextCol(j) => assert paths[j] in paths;
        }
      }
    }
  }

  /** The walk along a list has met no node with the value. */
  ghost predicate Walked(nodes: seq<Node>, root: Option<nat>, paths: seq<seq<nat>>, x: Slot, prefix: seq<nat>, val: nat) {
    && SlotOk(x, |nodes|) && |paths| == |nodes| && (x.NextRow? ==> paths[x.node] != []) && Prefix(paths, x) == prefix
    && Load(nodes, root, x) == NextChild(paths, After(x), prefix)
    && forall j :: 0 <= j < After(x) && j < |paths| ==> paths[j] != prefix + [val]
  }

  lemma WalkOn(nodes: seq<Node>, root: Option<nat>, paths: seq<seq<nat>>, x: Slot, prefix: seq<nat>, val: nat)
    requires Linked(nodes, root, paths) && Walked(nodes, root, paths, x, prefix, val) && Load(nodes, root, x).Some?
    ensures var k := Load(nodes, root, x).value;
      && After(x) <= k < |nodes| && paths[k] == prefix + [nodes[k].val]
      && (nodes[k].val != val ==> Walked(nodes, root, paths, NextRow(k), prefix, val))
  {
    var k := Load(nodes, root, x).value;
    assert NodeFits(paths, k, nodes[k]);
  }

  // ---------------------------------------------------------------------------------------------
  // The search tree and the view
  // ---------------------------------------------------------------------------------------------

  /** The path has a node now, and a new one names the row. */
  ghost predicate Grown(was: seq<Node>, paths: seq<seq<nat>>, now: seq<Node>, more: seq<seq<nat>>,
        path: seq<nat>, row: nat) {
    && |more| == |now| && |paths| == |was| && (forall j :: 0 <= j < |was| && j < |now| ==> now[j].row == was[j].row)
    && if path in paths then more == paths && |now| == |was|
       else more == paths + [path] && now[|was|].row == row
  }

  /** The nodes that were allocated, and the pointer to the first one. */
  class Tree {
    var nodes: seq<Node>
    var root: Option<nat>
    ghost var paths: seq<seq<nat>>

    constructor ()
      ensures nodes == [] && root == None && paths == [] && Valid()
    {
      nodes, root, paths := [], None, [];
    }

    ghost predicate Valid()
      reads this
    {
      Linked(nodes, root, paths)
    }

    /** distinct_insert: `x` points at the node for the value, after the given head of a list. */
    method Insert(head: Slot, val: nat, row: nat) returns (x: Slot, k: nat)
      requires Valid() && SlotOk(head, |nodes|) && !head.NextRow?
      modifies this
      ensures Valid() && SlotOk(x, |nodes|) && Load(nodes, root, x) == Some(k) && k < |nodes|
      ensures paths[k] == old(Prefix(paths, head)) + [val]
      ensures Grown(old(nodes), old(paths), nodes, paths, old(Prefix(paths, head)) + [val], row)
    {
      x := Find(head, val);
      if Load(nodes, root, x).Some? {
        k := Load(nodes, root, x).value;
        ghost var before := nodes;
        nodes := nodes[k := nodes[k].(count := nodes[k].count + 1)];
        RecountKeeps(before, root, paths, nodes);
      } else {
        k := |nodes|;
        Append(x, val, row);
      }
    }

    /** The loop of distinct_insert: the node for the value, or the open end of the list. */
    method Find(head: Slot, val: nat) returns (x: Slot)
      requires Valid() && SlotOk(head, |nodes|) && !head.NextRow?
      ensures SlotOk(x, |nodes|) && (x.NextRow? ==> paths[x.node] != []) && Prefix(paths, x) == Prefix(paths, head)
      ensures var k, path := Load(nodes, root, x), Prefix(paths, head) + [val];
        if k.Some? then k.value < |nodes| && paths[k.value] == path else path !in paths
    {
      ghost var prefix := Prefix(paths, head);
      x := head;
      SlotLoads(nodes, root, paths, x);
      while Load(nodes, root, x).Some?
        invariant Walked(nodes, root, paths, x, prefix, val)
        decreases |nodes| - After(x)
      {
        WalkOn(nodes, root, paths, x, prefix, val);
        var k := Load(nodes, root, x).value;
        if nodes[k].val == val {
          return;
        }
        x := NextRow(k);
      }
    }

    /** The rest of distinct_insert: a new node at the open end. */
    method Append(x: Slot, val: nat, row: nat)
      requires Valid() && SlotOk(x, |nodes|) && Load(nodes, root, x).None?
      requires x.NextRow? ==> paths[x.node] != []
      requires Prefix(paths, x) + [val] !in paths
      modifies this
      ensures Valid() && |nodes| == |old(nodes)| + 1 && Load(nodes, root, x) == Some(|old(nodes)|)
      ensures paths == old(paths) + [old(Prefix(paths, x)) + [val]] && nodes[|old(nodes)|].row == row
      ensures forall j :: 0 <= j < |old(nodes)| ==> nodes[j].row == old(nodes)[j].row
    {
      LinkedAppend(nodes, root, paths, x, val, row);
      var n := |nodes|;
      paths := paths + [Prefix(paths, x) + [val]];
      nodes := Store(nodes, x, n) + [Node(val, 1, row, None, None)];
      root := if x.Root? then Some(n) else root;
    }
  }

  lemma RecountKeeps(was: seq<Node>, root: Option<nat>, paths: seq<seq<nat>>, now: seq<Node>)
    requires Linked(was, root, paths) && |now| == |was|
    requires forall k :: 0 <= k < |was| ==> now[k] == was[k].(count := now[k].count)
    ensures Linked(now, root, paths)
  {
    forall k | 0 <= k < |now|
      ensures NodeFits(paths, k, now[k])
    {
      assert NodeFits(paths, k, was[k]);
    }
  }

  /** Row r is the first whose values start with the path. */
  ghost predicate FirstWith(table: seq<seq<nat>>, path: seq<nat>, r: nat) {
    && r < |table| && path <= table[r]
    && forall e :: 0 <= e < r ==> !(path <= table[e])
  }

  /** Every node names the first row it was entered for. */
  ghost predicate RowsFirst(table: seq<seq<nat>>, nodes: seq<Node>, paths: seq<seq<nat>>) {
    |paths| == |nodes| && forall k {:trigger nodes[k]} :: 0 <= k < |nodes| ==> FirstWith(table, paths[k], nodes[k].row)
  }

  ghost predicate HasPath(paths: seq<seq<nat>>, path: seq<nat>) { path in paths }

  /** The values of row r are in the tree, down to a depth. */
  ghost predicate Entered(table: seq<seq<nat>>, paths: seq<seq<nat>>, r: nat, depth: nat)
    requires r < |table|
  {
    depth <= |table[r]| && forall d :: 1 <= d <= depth ==> HasPath(paths, table[r][..d])
  }

  ghost predicate AllEntered(table: seq<seq<nat>>, paths: seq<seq<nat>>, n: nat)
    requires n <= |table|
  {
    forall r :: 0 <= r < n ==> Entered(table, paths, r, |table[r]|)
  }

  /** One more path for row i. */
  lemma EnterPath(table: seq<seq<nat>>, was: seq<Node>, now: seq<Node>, paths: seq<seq<nat>>,
        more: seq<seq<nat>>, i: nat, depth: nat)
    requires i < |table| && depth < |table[i]| && AllEntered(table, paths, i)
    requires RowsFirst(table, was, paths) && Grown(was, paths, now, more, table[i][..depth] + [table[i][depth]], i)
    requires Entered(table, paths, i, depth)
    ensures RowsFirst(table, now, more)
    ensures Entered(table, more, i, depth + 1) && AllEntered(table, more, i)
  {
    var path := table[i][..depth + 1];
    assert path == table[i][..depth] + [table[i][depth]];
    assert HasPath(more, path);
    forall p | HasPath(paths, p)
      ensures HasPath(more, p)
    {
    }
    if path !in paths {
      forall e | 0 <= e < i
        ensures !(path <= table[e])
      {
        assert Entered(table, paths, e, |table[e]|);
        if depth + 1 <= |table[e]| {
          assert table[e][..depth + 1] == path || !(path <= table[e]);
          assert HasPath(paths, table[e][..depth + 1]);
        }
      }
      assert FirstWith(table, path, i);
    }
    forall k | 0 <= k < |now|
      ensures FirstWith(table, more[k], now[k].row)
    {
      if k < |was| {
        assert FirstWith(table, paths[k], was[k].row);
      }
    }
  }

  /** The tree holds the first n rows. */
  ghost predicate Holds(tree: Tree, table: seq<seq<nat>>, n: nat)
    requires n <= |table|
    reads tree
  {
    tree.Valid() && RowsFirst(table, tree.nodes, tree.paths) && AllEntered(table, tree.paths, n)
  }

  /** The tree holds row i down to the slot's list. */
  ghost predicate Reached(tree: Tree, table: seq<seq<nat>>, i: nat, depth: nat)
    requires i < |table|
    reads tree
  {
    Holds(tree, table, i) && Entered(table, tree.paths, i, depth)
  }

  /** The list in which the value at this depth is looked for. */
  ghost predicate HeadAt(tree: Tree, x: Slot, path: seq<nat>)
    reads tree
  {
    SlotOk(x, |tree.nodes|) && SlotOk(x, |tree.paths|) && !x.NextRow? && Prefix(tree.paths, x) == path
  }

  class DistinctView {
    var rowCount: nat
    var translation: array<nat>

    constructor ()
      ensures rowCount == 0 && fresh(translation)
    {
      rowCount, translation := 0, new nat[0];
    }

    /** One value of a row. */
    method EnterValue(tree: Tree, table: seq<seq<nat>>, i: nat, j: nat, head: Slot) returns (k: nat)
      requires i < |table| && j < |table[i]| && Reached(tree, table, i, j) && HeadAt(tree, head, table[i][..j])
      modifies tree
      ensures Reached(tree, table, i, j + 1) && HeadAt(tree, NextCol(k), table[i][..j + 1])
    {
      ghost var was, paths := tree.nodes, tree.paths;
      assert table[i][..j + 1] == table[i][..j] + [table[i][j]];
      var x, node := tree.Insert(head, table[i][j], i);
      k := node;
      EnterPath(table, was, tree.nodes, paths, tree.paths, i, j);
    }

    /** The inner loop of distinct_view_execute: one row is entered, and its last node returned. */
    method EnterRow(tree: Tree, table: seq<seq<nat>>, i: nat, width: nat) returns (k: nat)
      requires i < |table| && |table[i]| == width >= 1 && Holds(tree, table, i)
      modifies tree
      ensures Holds(tree, table, i + 1)
      ensures k < |tree.nodes| && k < |tree.paths| && tree.paths[k] == table[i]
    {
      var x := Root;
      k := 0;
      for j := 0 to width
        invariant Reached(tree, table, i, j)
        invariant j < width ==> HeadAt(tree, x, table[i][..j])
        invariant j > 0 ==> HeadAt(tree, NextCol(k), table[i][..j])
      {
        k := EnterValue(tree, table, i, j, x);
        if j + 1 != width {
          x := NextCol(k);
        }
      }
      assert table[i][..width] == table[i];
    }

    ghost predicate Lists(table: seq<seq<nat>>, n: nat)
      requires n <= |table|
      reads this, translation
    {
      translation.Length == |table| && rowCount <= n && translation[..rowCount] == Firsts(table, n)
    }

    /** The end of the loop body of distinct_view_execute: a row that is first is listed. */
    method ListRow(ghost table: seq<seq<nat>>, i: nat, row: nat)
      requires i < |table| && Lists(table, i) && (row == i <==> IsFirst(table, i))
      modifies this`rowCount, translation
      ensures Lists(table, i + 1)
    {
      if row == i {
        translation[rowCount] := i;
        rowCount := rowCount + 1;
      }
    }

    /** distinct_view_execute on a view that is fresh or closed. */
    method Execute(table: seq<seq<nat>>, width: nat) returns (r: Status)
      requires width >= 1 && rowCount == 0 && forall i :: 0 <= i < |table| ==> |table[i]| == width
      modifies this
      ensures r == Success && fresh(translation)
      ensures rowCount <= translation.Length && translation[..rowCount] == Firsts(table, |table|)
    {
      translation := new nat[|table|];
      var tree := new Tree();
      VisitRows(tree, table, width);
      r := Success;
    }

    /** The outer loop of distinct_view_execute. */
    method VisitRows(tree: Tree, table: seq<seq<nat>>, width: nat)
      requires width >= 1 && (forall r :: 0 <= r < |table| ==> |table[r]| == width)
      requires Holds(tree, table, 0) && Lists(table, 0)
      modifies tree, this`rowCount, translation
      ensures Lists(table, |table|)
    {
      for i := 0 to |table|
        invariant Holds(tree, table, i) && Lists(table, i)
      {
        VisitRow(tree, table, i, width);
      }
    }

    /** The outer loop body of distinct_view_execute. */
    method VisitRow(tree: Tree, table: seq<seq<nat>>, i: nat, width: nat)
      requires i < |table| && width >= 1 && (forall r :: 0 <= r < |table| ==> |table[r]| == width)
      requires Holds(tree, table, i) && Lists(table, i)
      modifies tree, this`rowCount, translation
      ensures Holds(tree, table, i + 1) && Lists(table, i + 1)
    {
      var k := EnterRow(tree, table, i, width);
      LastNodeDecides(table, tree.nodes, tree.paths, k, i);
      ListRow(table, i, tree.nodes[k].row);
    }
  }

  lemma LastNodeDecides(table: seq<seq<nat>>, nodes: seq<Node>, paths: seq<seq<nat>>, k: nat, i: nat)
    requires RowsFirst(table, nodes, paths) && k < |nodes| && i < |table| && paths[k] == table[i]
    requires forall r :: 0 <= r < |table| ==> |table[r]| == |table[i]|
    ensures nodes[k].row == i <==> IsFirst(table, i)
  {
    var r := nodes[k].row;
    assert FirstWith(table, paths[k], r);
    assert table[r] == table[i] && table[i] <= table[i];
    if r == i {
      forall e | 0 <= e < i
        ensures table[e] != table[i]
      {
        assert !(table[i] <= table[e]);
      }
    }
  }
}
