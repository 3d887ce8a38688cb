/** src/close.c: a bounded insertion sort in a growable array. */
module Close {
  import opened Bytes
  import opened Hashes
  import opened Nodes
  import opened DArrays
  import T = TableSpec
  import CS = CloseSpec
  import opened HashmapSpec
  import opened Buckets
  import Tables

  datatype CloseNode = CloseNode(node: Node, distance: Hash)

  /** The array cells that hold these nodes. */
  ghost function Cells(target: Hash, nodes: seq<Node>): seq<Option<CloseNode>> {
    seq(|nodes|, k requires 0 <= k < |nodes| => Some(CloseNode(nodes[k], Xor(target, nodes[k].id))))
  }

  ghost function Somes<T>(s: seq<T>): seq<Option<T>> {
    seq(|s|, k requires 0 <= k < |s| => Some(s[k]))
  }

  /** Shifting up from i and overwriting cell i is inserting at i and keeping at most eight. */
  lemma ShiftIsInsert<X>(s: seq<X>, grown: seq<X>, x: X, i: nat)
    requires i < |grown| <= T.BUCKET_K && |s| <= |grown| <= |s| + 1 && grown[..|s|] == s
    requires |grown| == if |s| < T.BUCKET_K then |s| + 1 else |s|
    ensures var inserted := s[..i] + [x] + s[i..];
      (grown[..i + 1] + grown[i..|grown| - 1])[i := x]
        == if |inserted| <= T.BUCKET_K then inserted else inserted[..T.BUCKET_K]
  {
    assert forall k :: 0 <= k < |s| ==> grown[k] == grown[..|s|][k];
  }

  lemma CellsOfInsert(target: Hash, s: seq<Node>, n: Node, i: nat)
    requires i <= |s|
    ensures Cells(target, s[..i] + [n] + s[i..])
      == Cells(target, s)[..i] + [Some(CloseNode(n, Xor(target, n.id)))] + Cells(target, s)[i..]
  {
  }

  /** Shifting and overwriting the cells is AddClose on the nodes. */
  lemma ShiftedCells(target: Hash, kept: seq<Node>, node: Node, grown: seq<Option<CloseNode>>, i: nat)
    requires |kept| <= T.BUCKET_K && i == CS.InsertIndex(target, kept, node) < |grown|
    requires grown == if |kept| < T.BUCKET_K then Cells(target, kept) + [None] else Cells(target, kept)
    ensures (grown[..i + 1] + grown[i..|grown| - 1])[i := Some(CloseNode(node, Xor(target, node.id)))]
      == Cells(target, CS.AddClose(target, kept, node))
  {
    var x := Some(CloseNode(node, Xor(target, node.id)));
    assert grown[..|kept|] == Cells(target, kept);
    ShiftIsInsert(Cells(target, kept), grown, x, i);
    CellsOfInsert(target, kept, node, i);
    var inserted := kept[..i] + [node] + kept[i..];
    if |inserted| > T.BUCKET_K {
      assert Cells(target, inserted)[..T.BUCKET_K] == Cells(target, inserted[..T.BUCKET_K]);
    }
  }

  class CloseNodes {
    const id: Hash
    const closeNodes: DArray<CloseNode>
    ghost var Kept: seq<Node>

    ghost predicate Valid()
      reads this, closeNodes, closeNodes.contents
    {
      && closeNodes.Valid() && closeNodes.max > T.BUCKET_K && |Kept| <= T.BUCKET_K
      && closeNodes.Items() == Cells(id, Kept)
    }

    /** CloseNodes_Create */
    constructor (id: Hash)
      ensures Valid() && Kept == [] && this.id == id && fresh(closeNodes) && fresh(closeNodes.contents)
    {
      this.id := id;
      closeNodes := new DArray(T.BUCKET_K + 1);
      Kept := [];
    }

    /** FindIndex: -1 when eight nodes are nearer. */
    method FindIndex(node: Node, distance: Hash) returns (i: int)
      requires Valid() && distance == Xor(id, node.id)
      ensures i == var k := CS.InsertIndex(id, Kept, node); if k == T.BUCKET_K then -1 else k
    {
      i := 0;
      while i < T.BUCKET_K
        invariant 0 <= i <= |Kept| && CS.InsertIndex(id, Kept, node, i) == CS.InsertIndex(id, Kept, node)
        decreases T.BUCKET_K - i
      {
        if i == closeNodes.end {
          return;
        }
        var other := closeNodes.Get(i);
        assert other == closeNodes.Items()[i] == Cells(id, Kept)[i];
        if CompareDistance(distance, other.value.distance) <= 0 {
          return;
        }
        i := i + 1;
      }
      return -1;
    }

    /**
      ShiftFrom: move the entries from `from` on one cell up; the last one falls off, and is freed when
      there are eight.
     */
    method ShiftFrom(from: nat) returns (ghost freed: Option<CloseNode>)
      requires closeNodes.Valid() && from < closeNodes.end
      modifies closeNodes.contents
      ensures closeNodes.Valid()
      ensures var s := old(closeNodes.Items());
        && closeNodes.Items() == s[..from + 1] + s[from..|s| - 1]
        && freed == if |s| == T.BUCKET_K then s[|s| - 1] else None
    {
      freed := if closeNodes.end == T.BUCKET_K then closeNodes.Get(closeNodes.end - 1) else None;
      ghost var s := closeNodes.Items();
      var i := closeNodes.end - 1;
      while i > from
        invariant from <= i < closeNodes.end && closeNodes.Valid()
        invariant forall k :: 0 <= k <= i ==> closeNodes.contents[k] == s[k]
        invariant forall k :: i < k < closeNodes.end ==> closeNodes.contents[k] == s[k - 1]
      {
        var tmp := closeNodes.Get(i - 1);
        ghost var cells := closeNodes.contents[..];
        closeNodes.Set(i, tmp);
        assert forall k :: 0 <= k < closeNodes.end ==>
          closeNodes.contents[k] == closeNodes.contents[..][k] == cells[i := tmp][k];
        i := i - 1;
      }
    }

    /** CloseNodes_Add */
    method Add(node: Node)
      requires Valid()
      modifies this, closeNodes, closeNodes.contents
      ensures Valid() && (closeNodes.contents == old(closeNodes.contents) || fresh(closeNodes.contents))
      ensures Kept == CS.AddClose(id, old(Kept), node)
    {
      hide Xor, CS.InsertIndex;
      var distance := HashDistance(id, node.id);
      var i := FindIndex(node, distance);
      if i < 0 {
        return;
      }
      ghost var kept := Kept;
      var c := Some(CloseNode(node, distance));
      if closeNodes.end < T.BUCKET_K {
        closeNodes.Push(None);
      }
      ghost var grown := closeNodes.Items();
      ghost var freed := ShiftFrom(i);
      ghost var shifted := closeNodes.Items();
      closeNodes.Set(i, c);
      Kept := CS.AddClose(id, Kept, node);
      assert closeNodes.Items() == shifted[i := c];
      ShiftedCells(id, kept, node, grown, i);
    }

    /** CloseNodes_GetNodes */
    method GetNodes() returns (nodes: DArray<Node>)
      requires Valid()
      ensures nodes.Valid() && fresh(nodes) && fresh(nodes.contents)
      ensures nodes.Items() == Somes(Kept)
    {
      nodes := new DArray(closeNodes.max);
      for i := 0 to closeNodes.end
        invariant Valid() && nodes.Valid() && fresh(nodes) && fresh(nodes.contents) && unchanged(this)
          && unchanged(closeNodes)
        invariant nodes.Items() == Somes(Kept[..i])
      {
        var closeNode := closeNodes.Get(i);
        assert closeNode == closeNodes.Items()[i] == Cells(id, Kept)[i];
        nodes.Push(Some(closeNode.value.node));
        assert Kept[..i + 1] == Kept[..i] + [Kept[i]];
      }
    }
  }

  /** What Table_ForEachNode has still to visit from slot j of bucket i on. */
  ghost function Remaining(t: T.TableV, i: nat, j: nat): seq<Node>
    requires i < |t.buckets| && j <= T.BUCKET_K
  {
    CS.BucketNodes(t.buckets[i][j..]) + CS.AllNodes(t.buckets[i + 1..])
  }

  lemma RemainingStep(t: T.TableV, i: nat, j: nat)
    requires i < |t.buckets| && j < T.BUCKET_K
    ensures Remaining(t, i, j) ==
      (if t.buckets[i][j].Some? then [t.buckets[i][j].value.node] else []) + Remaining(t, i, j + 1)
  {
    assert t.buckets[i][j..][1..] == t.buckets[i][j + 1..];
  }

  lemma RemainingAfterBucket(t: T.TableV, i: nat)
    requires i < |t.buckets|
    ensures Remaining(t, i, T.BUCKET_K) == CS.AllNodes(t.buckets[i + 1..])
    ensures CS.AllNodes(t.buckets[i..]) == Remaining(t, i, 0)
  {
    assert t.buckets[i][T.BUCKET_K..] == [] && t.buckets[i][0..] == t.buckets[i];
    assert t.buckets[i..][1..] == t.buckets[i + 1..];
  }

  /**
    Table_ForEachNode, with an operation that changes only its context: called on the nodes in order, up to
    and including the first on which it does not return 0, and -1 in that case.
   */
  method ForEachNode<C>(table: Tables.Table, context: C, operate: (C, Node) -> (C, int)) returns (result: C, rc: int)
    requires table.Valid()
    ensures var (last, failed) := Fold(context, CS.AllNodes(table.View().buckets), operate);
      result == last && rc == if failed == 0 then 0 else -1
  {
    hide CS.AllNodes, Remaining, Fold;
    ghost var t := table.View();
    ghost var whole := Fold(context, CS.AllNodes(t.buckets), operate);
    result := context;
    assert t.buckets[0..] == t.buckets;
    for i := 0 to |table.buckets|
      invariant Fold(result, CS.AllNodes(t.buckets[i..]), operate) == whole
    {
      RemainingAfterBucket(t, i);
      var bucket := table.buckets[i];
      for j := 0 to T.BUCKET_K
        invariant Fold(result, Remaining(t, i, j), operate) == whole
      {
        RemainingStep(t, i, j);
        assert t.buckets[i][j] == Snap(bucket.nodes[j]);
        if bucket.nodes[j] == null {
          assert [] + Remaining(t, i, j + 1) == Remaining(t, i, j + 1);
          continue;
        }
        var node: Node := bucket.nodes[j];
        FoldFirst<C, Node>(result, node, Remaining(t, i, j + 1), operate);
        var (next, failed) := operate(result, node);
        result := next;
        if failed != 0 {
          return result, -1;
        }
      }
    }
    assert t.buckets[|t.buckets|..] == [];
    FoldNothing(result, operate);
    rc := 0;
  }

  lemma FoldFirst<C, X>(context: C, x: X, rest: seq<X>, callback: (C, X) -> (C, int))
    ensures var (next, rc) := callback(context, x);
      Fold(context, [x] + rest, callback) == if rc != 0 then (next, rc) else Fold(next, rest, callback)
  {
    assert ([x] + rest)[1..] == rest;
  }

  lemma FoldNothing<C>(context: C, operate: (C, Node) -> (C, int))
    ensures Fold(context, CS.AllNodes([]), operate) == (context, 0)
  {
  }

  /** An operation that only notes what it is called on. */
  function Note(visited: seq<Node>, node: Node): (seq<Node>, int) {
    (visited + [node], 0)
  }

  lemma {:induction false} FoldNotes(visited: seq<Node>, nodes: seq<Node>)
    ensures Fold(visited, nodes, Note) == (visited + nodes, 0)
    decreases |nodes|
  {
    if nodes == [] {
      assert visited + nodes == visited;
    } else {
      FoldNotes(visited + [nodes[0]], nodes[1..]);
      assert visited + [nodes[0]] + nodes[1..] == visited + nodes;
    }
  }

  /**
    Table_GatherClosest: Table_ForEachNode with CloseNodes_Add. The array returned lists the min(8, total)
    nearest nodes of the table, nearest first; every node left out is strictly farther.
   */
  method GatherClosest(table: Tables.Table, target: Hash) returns (found: DArray<Node>)
    requires table.Valid()
    ensures found.Valid() && fresh(found) && fresh(found.contents)
    ensures found.Items() == Somes(CS.GatherClosest(old(table.View()), target))
    ensures CS.Closest(target, CS.AllNodes(old(table.View()).buckets), CS.GatherClosest(old(table.View()), target))
  {
    hide CS.Closest, CS.AddClose, CS.AllNodes, Cells;
    ghost var t := table.View();
    var visited, rc := ForEachNode(table, [], Note);
    FoldNotes([], CS.AllNodes(t.buckets));
    assert [] + CS.AllNodes(t.buckets) == CS.AllNodes(t.buckets);
    var close := new CloseNodes(target);
    assert visited[0..] == visited;
    for k := 0 to |visited|
      invariant close.Valid() && close.id == target
      invariant fresh(close) && fresh(close.closeNodes) && fresh(close.closeNodes.contents)
      invariant CS.AddAll(target, close.Kept, visited[k..]) == CS.GatherClosest(t, target)
    {
      assert visited[k..][1..] == visited[k + 1..];
      close.Add(visited[k]);
    }
    found := close.GetNodes();
    CS.GatherClosestCorrect(t, target);
  }
}
