/** src/handle.c: how the nodes of a reply are absorbed into a search table, and who frees them. */
module Handle {
  import opened Bytes
  import opened Nodes
  import T = TableSpec
  import opened Ownership
  import opened TableMeaning
  import Tables

  /** Balancing one step: what the table gains the block loses, what the table loses is freed. */
  lemma Balance<X>(after: multiset<X>, lost: multiset<X>, before: multiset<X>, gained: multiset<X>, live: multiset<X>,
      left: multiset<X>)
    requires after + lost == before + gained && live == left + gained
    ensures after + lost + left == before + live
  {
    assert after + lost + left == before + (gained + left);
  }

  /** The nodes that a block of pointers still points to. */
  ghost function Live(block: seq<Node?>): multiset<Node> {
    if |block| == 0 then multiset{} else Live(block[..|block| - 1]) + Own(block[|block| - 1])
  }

  lemma {:induction false} LiveUpdate(block: seq<Node?>, k: nat)
    requires k < |block|
    ensures Live(block) == Live(block[k := null]) + Own(block[k])
  {
    var last := |block| - 1;
    LiveLast(block);
    LiveLast(block[k := null]);
    hide Live, Own;
    if k == last {
      assert block[k := null][..last] == block[..last];
    } else {
      LiveUpdate(block[..last], k);
      assert block[k := null][..last] == block[..last][k := null];
    }
  }

  lemma OwnOne(n: Node)
    ensures Own(n) == multiset{n}
  {
  }

  lemma LiveLast(block: seq<Node?>)
    requires |block| > 0
    ensures Live(block) == Live(block[..|block| - 1]) + Own(block[|block| - 1])
    ensures Own(null) == multiset{}
  {
  }

  lemma MoreFreed<X>(after: multiset<X>, more: multiset<X>, left: multiset<X>, before: multiset<X>, live: multiset<X>,
      freed: multiset<X>)
    requires after + more + left == before + live
    ensures after + (freed + more) + left == before + freed + live
  {
    assert after + (freed + more) + left == (after + more + left) + freed;
  }

  /** The nodes of a block as they are at this moment. */
  ghost function Entries(nodes: seq<Node?>): (r: seq<Entry>)
    requires forall k :: 0 <= k < |nodes| ==> nodes[k] != null
    reads set n | n in nodes
    ensures |r| == |nodes| && forall k :: 0 <= k < |nodes| ==> r[k] == nodes[k].Snapshot()
  {
    seq(|nodes|, k requires 0 <= k < |nodes| && nodes[k] != null reads set n | n in nodes => nodes[k].Snapshot())
  }

  /** Table_InsertNode as a trade: the node, if it is taken, for the one it replaces. */
  method InsertTrade(table: Tables.Table, node: Node, now: int) returns (taken: bool, replaced: Node?)
    requires table.Valid()
    modifies table.Repr
    ensures table.Valid() && fresh(table.Repr - old(table.Repr))
    ensures var r := T.Insert(old(table.View()), old(node.Snapshot()), now);
      table.View() == r.table && taken == (r.rc == T.OKAdded || r.rc == T.OKReplaced)
    ensures multiset(NodeSet(table.View())) + Own(replaced)
      == multiset(NodeSet(old(table.View()))) + (if taken then multiset{node} else multiset{})
  {
    ghost var t, e := table.View(), node.Snapshot();
    InsertOwnership(t, e, now);
    var rc, bucket;
    rc, bucket, replaced := table.InsertNode(node, now);
    taken := rc == T.OKAdded || rc == T.OKReplaced;
    ghost var r := T.Insert(t, e, now);
    assert table.View() == r.table && multiset(Lost(r)) == Own(replaced);
    assert multiset(Gained(r, e)) == if taken then multiset{node} else multiset{};
  }

  /** One node of the block: the block lets go of the node if the table takes it. */
  method AddSearchNode(table: Tables.Table, nodes: array<Node?>, k: nat, now: int) returns (ghost freed: multiset<Node>)
    requires table.Valid() && nodes !in table.Repr && k < nodes.Length && nodes[k] != null
    modifies table.Repr, nodes
    ensures table.Valid() && fresh(table.Repr - old(table.Repr)) && nodes !in table.Repr
    ensures forall i :: 0 <= i < nodes.Length && i != k ==> nodes[i] == old(nodes[i])
    ensures var r := T.Insert(old(table.View()), old(nodes[k].Snapshot()), now);
      && table.View() == r.table
      && nodes[k] == if r.rc == T.OKAdded || r.rc == T.OKReplaced then null else old(nodes[k])
    ensures multiset(NodeSet(table.View())) + freed + Live(nodes[..])
      == old(multiset(NodeSet(table.View())) + Live(nodes[..]))
  {
    hide NodeSet, Own, T.Insert;
    ghost var node, block := nodes[k], nodes[..];
    LiveUpdate(block, k);
    OwnOne(nodes[k]);
    hide Live;
    var taken, replaced := InsertTrade(table, nodes[k], now);
    ghost var owned, after := NodeSet(table.View()), table.View();
    if taken {
      nodes[k] := null;
    }
    assert nodes[..] == if taken then block[k := null] else block;
    freed := Own(replaced);
    Balance(multiset(owned), freed, multiset(NodeSet(old(table.View()))), if taken then multiset{node} else multiset{},
      Live(block), Live(nodes[..]));
    assert table.View() == after;
  }

  /** One turn of the loop of AddSearchNodes. */
  method AddUnlessSelf(selfAddr: uint32, selfPort: uint16, table: Tables.Table, nodes: array<Node?>, k: nat, now: int,
                       ghost freed: multiset<Node>)
    returns (ghost all: multiset<Node>)
    requires table.Valid() && nodes !in table.Repr && k < nodes.Length && nodes[k] != null
    modifies table.Repr, nodes
    ensures table.Valid() && fresh(table.Repr - old(table.Repr)) && nodes !in table.Repr
    ensures forall i :: 0 <= i < nodes.Length && i != k ==> nodes[i] == old(nodes[i])
    ensures var e := old(nodes[k].Snapshot());
      var r := T.Insert(old(table.View()), e, now);
      && table.View() == (if IsSelf(e, selfAddr, selfPort) then old(table.View()) else r.table)
      && nodes[k] == if !IsSelf(e, selfAddr, selfPort) && (r.rc == T.OKAdded || r.rc == T.OKReplaced) then null
                     else old(nodes[k])
    ensures multiset(NodeSet(table.View())) + all + Live(nodes[..])
      == old(multiset(NodeSet(table.View()))) + freed + old(Live(nodes[..]))
  {
    hide NodeSet, Live, T.Insert, T.Valid;
    if selfAddr == nodes[k].addr && selfPort == nodes[k].port {
      return freed;
    }
    ghost var before, live := multiset(NodeSet(table.View())), Live(nodes[..]);
    ghost var more := AddSearchNode(table, nodes, k, now);
    MoreFreed(multiset(NodeSet(table.View())), more, Live(nodes[..]), before, live, freed);
    all := freed + more;
  }

  /**
    AddSearchNodes: every node of the block that does not have the client's own address is inserted, in
    order. The nodes that the table takes, and no others, are taken out of the block; replaced nodes are freed.
   */
  method AddSearchNodes(selfAddr: uint32, selfPort: uint16, table: Tables.Table, nodes: array<Node?>, now: int)
    returns (ghost freed: multiset<Node>)
    requires table.Valid() && nodes !in table.Repr
    requires forall k :: 0 <= k < nodes.Length ==> nodes[k] != null
    modifies table.Repr, nodes
    ensures table.Valid() && fresh(table.Repr - old(table.Repr)) && nodes !in table.Repr
    ensures var t, block := old(table.View()), old(Entries(nodes[..]));
      && table.View() == AfterBlock(t, block, selfAddr, selfPort, now, nodes.Length)
      && forall k :: 0 <= k < nodes.Length ==>
        nodes[k] == if TakenAt(t, block, selfAddr, selfPort, now, k) then null else old(nodes[k])
    ensures multiset(NodeSet(table.View())) + freed + Live(nodes[..])
      == old(multiset(NodeSet(table.View())) + Live(nodes[..]))
  {
    hide NodeSet, Live, T.Insert, T.Valid, AfterBlock, TakenAt, IsSelf;
    freed := multiset{};
    ghost var t, given, block := table.View(), nodes[..], Entries(nodes[..]);
    ghost var total := multiset(NodeSet(table.View())) + Live(nodes[..]);
    BlockStart(t, block, selfAddr, selfPort, now);
    NoNodeInRepr(table);
    for k := 0 to nodes.Length
      invariant table.Valid() && fresh(table.Repr - old(table.Repr)) && nodes !in table.Repr
      invariant forall i :: 0 <= i < nodes.Length ==> given[i] !in table.Repr
      invariant table.View() == AfterBlock(t, block, selfAddr, selfPort, now, k)
      invariant forall i :: 0 <= i < k ==>
        nodes[i] == if TakenAt(t, block, selfAddr, selfPort, now, i) then null else given[i]
      invariant forall i :: k <= i < nodes.Length ==> nodes[i] == given[i] && given[i].Snapshot() == block[i]
      invariant multiset(NodeSet(table.View())) + freed + Live(nodes[..]) == total
    {
      BlockStep(t, block, selfAddr, selfPort, now, k);
      freed := AddUnlessSelf(selfAddr, selfPort, table, nodes, k, now, freed);
    }
  }

  lemma NoNodeInRepr(table: Tables.Table)
    requires table.Valid()
    ensures forall n: Node :: n !in table.Repr
  {
  }

  lemma LiveNext(block: seq<Node?>, k: nat)
    requires k < |block|
    ensures Live(block[..k + 1]) == Live(block[..k]) + Own(block[k])
  {
    assert block[..k + 1][..k] == block[..k];
  }

  /** Node_DestroyBlock: free and forget every node of the block. */
  method DestroyBlock(nodes: array<Node?>) returns (ghost freed: multiset<Node>)
    modifies nodes
    ensures freed == Live(old(nodes[..])) && forall k :: 0 <= k < nodes.Length ==> nodes[k] == null
  {
    hide Own;
    freed := multiset{};
    ghost var before := nodes[..];
    assert before[..0] == [];
    for k := 0 to nodes.Length
      invariant freed == Live(before[..k])
      invariant forall i :: 0 <= i < k ==> nodes[i] == null
      invariant forall i :: k <= i < nodes.Length ==> nodes[i] == before[i]
    {
      freed := freed + Own(nodes[k]);
      nodes[k] := null;
      LiveNext(before, k);
    }
    assert before[..nodes.Length] == before;
  }

  /**
    The end of HandleRFindNode: absorb what can be absorbed, free the rest. Every node is owned by the
    table or has been freed, and as often as it was owned before.
   */
  method AbsorbNodes(selfAddr: uint32, selfPort: uint16, table: Tables.Table, nodes: array<Node?>, now: int)
    returns (ghost freed: multiset<Node>)
    requires table.Valid() && nodes !in table.Repr
    requires forall k :: 0 <= k < nodes.Length ==> nodes[k] != null
    modifies table.Repr, nodes
    ensures table.Valid() && fresh(table.Repr - old(table.Repr))
    ensures forall k :: 0 <= k < nodes.Length ==> nodes[k] == null
    ensures table.View()
      == AfterBlock(old(table.View()), old(Entries(nodes[..])), selfAddr, selfPort, now, nodes.Length)
    ensures multiset(NodeSet(table.View())) + freed == old(multiset(NodeSet(table.View())) + Live(nodes[..]))
  {
    hide AfterBlock, TakenAt;
    freed := AddSearchNodes(selfAddr, selfPort, table, nodes, now);
    ghost var owned := table.View();
    ghost var rest := DestroyBlock(nodes);
    assert table.View() == owned;
    freed := freed + rest;
  }

  /**
    Conservation, read for one node: owned once before means, afterwards, in the table or freed, and exactly
    one of the two.
   */
  lemma FreedOrOwnedOnce(before: set<Node>, block: multiset<Node>, after: set<Node>, freed: multiset<Node>, n: Node)
    requires multiset(after) + freed == multiset(before) + block
    requires block[n] <= 1 && (n in before ==> n !in block)
    ensures n in after || n in freed <==> n in before || n in block
    ensures freed[n] <= 1 && !(n in after && n in freed)
  {
    assert (multiset(after) + freed)[n] == (multiset(before) + block)[n];
  }
}
