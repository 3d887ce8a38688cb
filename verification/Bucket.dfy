/** src/bucket.c: a sparse array of up to eight nodes, updated in place. */
module Buckets {
  import opened Bytes
  import opened Nodes
  import opened TableSpec
  import opened SlotProofs

  function Snap(n: Node?): Option<Entry>
    reads n
  {
    if n == null then None else Some(n.Snapshot())
  }

  /** What an array of node pointers holds at this moment. */
  ghost function Snaps(s: seq<Node?>): (r: seq<Option<Entry>>)
    reads set n | n in s
    ensures |r| == |s| && forall i :: 0 <= i < |s| ==> r[i] == Snap(s[i])
  {
    seq(|s|, i requires 0 <= i < |s| reads set n | n in s => Snap(s[i]))
  }

  lemma SnapsUpdate(s: seq<Node?>, i: nat, n: Node?)
    requires i < |s|
    ensures Snaps(s[i := n]) == Snaps(s)[i := Snap(n)]
  {
  }

  class Bucket {
    var index: nat
    var count: int
    var changeTime: int
    const nodes: array<Node?>

    /** The count field is the number of filled slots. */
    ghost predicate Valid()
      reads this, nodes, set n | n in nodes[..]
    {
      nodes.Length == BUCKET_K && count == Count(View())
    }

    ghost function View(): Slots
      requires nodes.Length == BUCKET_K
      reads this, nodes, set n | n in nodes[..]
    {
      Snaps(nodes[..])
    }

    /** Bucket_Create */
    constructor (now: int)
      ensures Valid() && View() == NoNodes && fresh(nodes)
      ensures index == 0 && changeTime == now
      ensures forall j :: 0 <= j < BUCKET_K ==> nodes[j] == null
    {
      index, count, changeTime := 0, 0, now;
      nodes := new Node?[BUCKET_K](_ => null);
      new;
      assert View() == NoNodes;
      EmptyBucket();
    }

    /** Bucket_IsFull */
    predicate IsFull()
      requires Valid()
      reads this, nodes, set n | n in nodes[..]
      ensures IsFull() <==> Full(View())
    {
      CountFull(View());
      count == BUCKET_K
    }

    /** Bucket_ContainsNode */
    method ContainsNode(node: Node) returns (b: bool)
      requires Valid()
      ensures b == HoldsId(View(), node.id)
    {
      for i := 0 to BUCKET_K
        invariant forall j :: 0 <= j < i ==> !(View()[j].Some? && View()[j].value.node.id == node.id)
      {
        if nodes[i] != null && node.id == nodes[i].id {
          assert View()[i].value.node.id == node.id;
          return true;
        }
      }
      return false;
    }

    /** Slot v now holds the node and nothing else has changed. */
    twostate predicate Stored(v: nat, node: Node?)
      requires v < BUCKET_K && nodes.Length == BUCKET_K
      reads this, nodes
    {
      nodes[..] == old(nodes[..])[v := node] && index == old(index)
    }

    /** nodes[v] = node */
    method Store(v: nat, node: Node)
      requires nodes.Length == BUCKET_K && v < BUCKET_K
      modifies nodes
      ensures nodes[..] == old(nodes[..])[v := node]
      ensures View() == old(View())[v := Some(node.Snapshot())]
      ensures Count(View()) == Count(old(View())) - Weight(old(View())[v]) + 1
    {
      SnapsUpdate(nodes[..], v, node);
      CountUpdate(View(), v, Some(node.Snapshot()));
      nodes[v] := node;
      assert nodes[..] == old(nodes[..])[v := node];
    }

    /** Bucket_ReplaceBad */
    method ReplaceBad(node: Node, now: int) returns (replaced: Node?)
      requires Valid()
      modifies this, nodes
      ensures Valid()
      ensures var b := FirstBad(old(View()), now);
        if b == BUCKET_K then replaced == null && unchanged(this) && unchanged(nodes)
        else replaced == old(nodes[b]) && Stored(b, node) && changeTime == now
      ensures View() == var b := FirstBad(old(View()), now);
        if b == BUCKET_K then old(View()) else old(View())[b := Some(node.Snapshot())]
    {
      var i := 0;
      while i < BUCKET_K
        invariant 0 <= i <= BUCKET_K && FirstBad(View(), now) == FirstBad(View(), now, i)
      {
        if nodes[i] != null && Status(nodes[i].Fields(), now) == Bad {
          replaced := nodes[i];
          Store(i, node);
          changeTime := now;
          return;
        }
        i := i + 1;
      }
      return null;
    }

    /** The loop of Bucket_ReplaceQuestionable: a running minimum over both times of each questionable node. */
    method FindOldest(now: int) returns (oldest: int)
      requires Valid()
      ensures oldest == if Oldest(View(), now, BUCKET_K) == BUCKET_K then -1 else Oldest(View(), now, BUCKET_K)
    {
      var oldestTime := now;
      oldest := -1;
      ghost var v := View();
      for i := 0 to BUCKET_K
        invariant oldest == if Oldest(v, now, i) == BUCKET_K then -1 else Oldest(v, now, i)
        invariant oldestTime == if oldest == -1 then now else Age(v[oldest].value.info)
      {
        var n := nodes[i];
        if n == null {
          continue;
        }
        if Status(n.Fields(), now) == Questionable {
          assert v[i] == Some(n.Snapshot());
          StatusMeaning(n.Fields(), now);
          if n.replyTime < oldestTime {
            oldestTime, oldest := n.replyTime, i;
          }
          if n.queryTime < oldestTime {
            oldestTime, oldest := n.queryTime, i;
          }
        }
      }
    }

    /** Bucket_ReplaceQuestionable */
    method ReplaceQuestionable(node: Node, now: int) returns (replaced: Node?)
      requires Valid()
      modifies this, nodes
      ensures Valid()
      ensures var q := Oldest(old(View()), now, BUCKET_K);
        if q == BUCKET_K then replaced == null && unchanged(this) && unchanged(nodes)
        else replaced == old(nodes[q]) && Stored(q, node) && changeTime == now
      ensures View() == var q := Oldest(old(View()), now, BUCKET_K);
        if q == BUCKET_K then old(View()) else old(View())[q := Some(node.Snapshot())]
      ensures replaced != null ==> forall j :: 0 <= j < BUCKET_K && HasStatus(old(View())[j], Questionable, now) ==>
        var x, replyTime, queryTime := old(View())[j].value.info, old(replaced.replyTime), old(replaced.queryTime);
        || (replyTime <= x.replyTime && replyTime <= x.queryTime)
        || (queryTime <= x.replyTime && queryTime <= x.queryTime)
    {
      var oldest := FindOldest(now);
      if oldest > -1 {
        assert View()[oldest].Some?;
        replaced := nodes[oldest];
        Store(oldest, node);
        changeTime := now;
        return;
      }
      return null;
    }

    /** Bucket_AddNode: 0 and the first empty slot filled, or -1 when full. */
    method AddNode(node: Node, now: int) returns (rc: int)
      requires Valid()
      modifies this, nodes
      ensures Valid()
      ensures rc == if Full(old(View())) then -1 else 0
      ensures rc == -1 ==> unchanged(this) && unchanged(nodes)
      ensures rc == 0 ==> View() == Add(old(View()), node.Snapshot()) && Stored(FirstFree(old(View())), node)
      ensures rc == 0 ==> count == old(count) + 1 && changeTime == now
    {
      if IsFull() {
        return -1;
      }
      for i := 0 to BUCKET_K
        invariant unchanged(this) && unchanged(nodes)
        invariant FirstFree(View()) == FirstFree(View(), i)
        invariant forall j :: 0 <= j < i ==> View()[j].Some?
      {
        if nodes[i] == null {
          Store(i, node);
          count := count + 1;
          changeTime := now;
          return 0;
        }
      }
      assert false;
    }
  }
}
