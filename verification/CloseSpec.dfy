/** The eight closest nodes, as a value: what src/close.c and Table_GatherClosest compute. */
module CloseSpec {
  import opened Bytes
  import opened Hashes
  import opened Nodes
  import opened TableSpec

  /** FindIndex: where a node goes among the kept ones, or BUCKET_K when it is farther than eight of them. */
  function InsertIndex(target: Hash, close: seq<Node>, n: Node, i: nat := 0): (r: nat)
    requires i <= |close| <= BUCKET_K
    ensures i <= r <= |close|
    ensures forall k :: i <= k < r ==> CompareDistance(Xor(target, n.id), Xor(target, close[k].id)) > 0
    ensures r < |close| ==> CompareDistance(Xor(target, n.id), Xor(target, close[r].id)) <= 0
    decreases |close| - i
  {
    if i == |close| || CompareDistance(Xor(target, n.id), Xor(target, close[i].id)) <= 0 then i
    else InsertIndex(target, close, n, i + 1)
  }

  /** CloseNodes_Add */
  function AddClose(target: Hash, close: seq<Node>, n: Node): (r: seq<Node>)
    requires |close| <= BUCKET_K
    ensures |r| <= BUCKET_K
  {
    var i := InsertIndex(target, close, n);
    var grown := close[..i] + [n] + close[i..];
    if |grown| <= BUCKET_K then grown else grown[..BUCKET_K]
  }

  function AddAll(target: Hash, close: seq<Node>, nodes: seq<Node>): (r: seq<Node>)
    requires |close| <= BUCKET_K
    ensures |r| <= BUCKET_K
    decreases |nodes|
  {
    if |nodes| == 0 then close else AddAll(target, AddClose(target, close, nodes[0]), nodes[1..])
  }

  /** The nodes of a bucket in slot order. */
  function BucketNodes(s: seq<Option<Entry>>): seq<Node> {
    if |s| == 0 then [] else (if s[0].Some? then [s[0].value.node] else []) + BucketNodes(s[1..])
  }

  /** The nodes in the order in which Table_ForEachNode visits them. */
  function AllNodes(buckets: seq<Slots>): seq<Node> {
    if |buckets| == 0 then [] else BucketNodes(buckets[0]) + AllNodes(buckets[1..])
  }

  /** Table_GatherClosest */
  function GatherClosest(t: TableV, target: Hash): seq<Node> {
    AddAll(target, [], AllNodes(t.buckets))
  }

  // ---- What "the closest nodes" means

  ghost predicate DistinctIds(nodes: seq<Node>) {
    forall a, b :: 0 <= a < b < |nodes| ==> nodes[a].id != nodes[b].id
  }

  ghost predicate Sorted(target: Hash, close: seq<Node>) {
    forall a, b :: 0 <= a < b < |close| ==> Closer(target, close[a].id, close[b].id)
  }

  /**
    close lists, nearest first, min(8, |nodes|) of the nodes, and every other node is strictly farther than
    all of them.
   */
  ghost predicate Closest(target: Hash, nodes: seq<Node>, close: seq<Node>) {
    && |close| == (if |nodes| <= 8 then |nodes| else 8)
    && Sorted(target, close)
    && (forall a :: 0 <= a < |close| ==> close[a] in nodes)
    && (forall b :: 0 <= b < |nodes| && nodes[b] !in close ==>
          forall a :: 0 <= a < |close| ==> Closer(target, close[a].id, nodes[b].id))
  }

  lemma CloserTransitive(target: Hash, a: Hash, b: Hash, c: Hash)
    requires Closer(target, a, b) && Closer(target, b, c)
    ensures Closer(target, a, c)
  {
    MemCmpTransitive(Xor(target, a), Xor(target, b), Xor(target, c));
  }

  lemma CloserTotal(target: Hash, a: Hash, b: Hash)
    ensures !(Closer(target, a, b) && Closer(target, b, a))
    ensures a != b ==> Closer(target, a, b) || Closer(target, b, a)
    ensures CompareDistance(Xor(target, a), Xor(target, b)) > 0 <==> Closer(target, b, a)
  {
    MemCmpAntisymmetric(Xor(target, a), Xor(target, b));
    XorInjective(target, a, b);
  }

  /** There is only one list of the closest nodes. */
  lemma ClosestUnique(target: Hash, nodes: seq<Node>, r: seq<Node>, r': seq<Node>)
    requires Closest(target, nodes, r) && Closest(target, nodes, r')
    ensures r == r'
  {
    assert |r| == |r'|;
    if r != r' {
      hide Closest, Closer;
      var k := FirstDifference(r, r');
      NotNearer(target, nodes, r, r', k);
      NotNearer(target, nodes, r', r, k);
      CloserTotal(target, r[k].id, r'[k].id);
      assert false;
    }
  }

  lemma {:induction false} FirstDifference<X>(r: seq<X>, s: seq<X>) returns (k: nat)
    requires |r| == |s| && r != s
    ensures k < |r| && r[..k] == s[..k] && r[k] != s[k]
  {
    if r[0] != s[0] {
      k := 0;
    } else {
      assert r == [r[0]] + r[1..] && s == [s[0]] + s[1..];
      k := FirstDifference(r[1..], s[1..]);
      k := k + 1;
      assert r[..k] == [r[0]] + r[1..][..k - 1] && s[..k] == [s[0]] + s[1..][..k - 1];
    }
  }

  /** Two lists of closest nodes that agree up to k: the k-th of the second is nearer, unless they are the same. */
  lemma NotNearer(target: Hash, nodes: seq<Node>, r: seq<Node>, r': seq<Node>, k: nat)
    requires Closest(target, nodes, r) && Closest(target, nodes, r')
    requires k < |r| && r[..k] == r'[..k] && r[k] != r'[k]
    ensures Closer(target, r'[k].id, r[k].id)
  {
    var x := r[k];
    if x in r' {
      var m :| 0 <= m < |r'| && r'[m] == x;
      if m < k {
        assert r[m] == r[..k][m] == r'[..k][m] == x;
        assert Closer(target, r[m].id, r[k].id);
        CloserTotal(target, x.id, x.id);
        assert false;
      }
    } else {
      var b :| 0 <= b < |nodes| && nodes[b] == x;
    }
  }

  /** A place before position BUCKET_K is in front of every node from there on. */
  lemma NearerThanLater(target: Hash, close: seq<Node>, n: Node, k: nat)
    requires |close| <= BUCKET_K && Sorted(target, close)
    requires forall a :: 0 <= a < |close| ==> close[a].id != n.id
    requires InsertIndex(target, close, n) <= k < |close|
    ensures Closer(target, n.id, close[k].id)
  {
    var i := InsertIndex(target, close, n);
    CloserTotal(target, n.id, close[i].id);
    if k > i {
      CloserTransitive(target, n.id, close[i].id, close[k].id);
    }
  }

  ghost predicate Increasing<T>(less: (T, T) -> bool, s: seq<T>) {
    forall a, b :: 0 <= a < b < |s| ==> less(s[a], s[b])
  }

  /** Inserting between what is less and what is greater. */
  lemma InsertIncreasing<T>(less: (T, T) -> bool, s: seq<T>, x: T, i: nat)
    requires Increasing(less, s) && i <= |s|
    requires forall k :: 0 <= k < i ==> less(s[k], x)
    requires forall k :: i <= k < |s| ==> less(x, s[k])
    ensures Increasing(less, s[..i] + [x] + s[i..])
  {
    var grown := s[..i] + [x] + s[i..];
    assert forall a :: 0 <= a < |grown| ==> grown[a] == if a < i then s[a] else if a == i then x else s[a - 1];
  }

  /** One more node: the list stays sorted. */
  lemma AddCloseSorted(target: Hash, close: seq<Node>, n: Node)
    requires |close| <= BUCKET_K && Sorted(target, close)
    requires forall a :: 0 <= a < |close| ==> close[a].id != n.id
    ensures Sorted(target, AddClose(target, close, n))
  {
    var i := InsertIndex(target, close, n);
    var less := (a: Node, b: Node) => Closer(target, a.id, b.id);
    forall k | 0 <= k < i ensures less(close[k], n) {
      CloserTotal(target, n.id, close[k].id);
    }
    forall k | i <= k < |close| ensures less(n, close[k]) {
      NearerThanLater(target, close, n, k);
    }
    assert Increasing(less, close);
    InsertIncreasing(less, close, n, i);
    var r := AddClose(target, close, n);
    assert Increasing(less, r);
    forall a, b | 0 <= a < b < |r| ensures Closer(target, r[a].id, r[b].id) {
      assert less(r[a], r[b]);
    }
  }

  /** Who falls off the end of eight: the newcomer, or the farthest of the eight. */
  lemma DroppedIsFarthest(target: Hash, close: seq<Node>, n: Node, a: nat)
    requires |close| == BUCKET_K && Sorted(target, close) && a < BUCKET_K
    requires forall k :: 0 <= k < |close| ==> close[k].id != n.id
    ensures var i, r := InsertIndex(target, close, n), AddClose(target, close, n);
      Closer(target, r[a].id, if i == BUCKET_K then n.id else close[BUCKET_K - 1].id)
  {
    var i, r := InsertIndex(target, close, n), AddClose(target, close, n);
    if i == BUCKET_K {
      assert r == close;
      CloserTotal(target, n.id, close[a].id);
    } else if a < i {
      assert r[a] == close[a];
    } else if a == i {
      NearerThanLater(target, close, n, BUCKET_K - 1);
    } else {
      assert r[a] == close[a - 1];
    }
  }

  /** After an insertion that keeps at most max, everything is there but what fell off the end. */
  lemma InsertedMembers<X>(s: seq<X>, x: X, i: nat, max: nat)
    requires i <= |s| <= max
    ensures var grown := s[..i] + [x] + s[i..];
      var r := if |grown| <= max then grown else grown[..max];
      && (forall y :: y in r ==> y in s || y == x)
      && (forall y :: (y in s || y == x) && y !in r ==> |s| == max && y == if i == max then x else s[max - 1])
  {
    var grown := s[..i] + [x] + s[i..];
    InsertedAll(s, x, i);
    if |grown| > max {
      assert grown == grown[..max] + [grown[max]];
      assert grown[max] == if i == max then x else s[max - 1];
    }
  }

  lemma InsertedAll<X>(s: seq<X>, x: X, i: nat)
    requires i <= |s|
    ensures forall y :: y in s[..i] + [x] + s[i..] <==> y in s || y == x
  {
    assert s == s[..i] + s[i..];
  }


  /** What the kept nodes are after one more: everything, or all but the one that fell off. */
  lemma AddCloseMembers(target: Hash, close: seq<Node>, n: Node)
    requires |close| <= BUCKET_K
    ensures var i, r := InsertIndex(target, close, n), AddClose(target, close, n);
      && (forall x :: x in r ==> x in close || x == n)
      && (forall x :: (x in close || x == n) && x !in r ==>
            |close| == BUCKET_K && x == if i == BUCKET_K then n else close[BUCKET_K - 1])
  {
    InsertedMembers(close, n, InsertIndex(target, close, n), BUCKET_K);
  }

  lemma AddCloseClosest(target: Hash, nodes: seq<Node>, close: seq<Node>, n: Node)
    requires Closest(target, nodes, close)
    requires forall b :: 0 <= b < |nodes| ==> nodes[b].id != n.id
    ensures Closest(target, nodes + [n], AddClose(target, close, n))
  {
    forall a | 0 <= a < |close| ensures close[a].id != n.id {
      var b :| 0 <= b < |nodes| && nodes[b] == close[a];
    }
    AddCloseSorted(target, close, n);
    AddCloseMembers(target, close, n);
    var all, r := nodes + [n], AddClose(target, close, n);
    forall b, a | 0 <= b < |all| && all[b] !in r && 0 <= a < |r|
      ensures Closer(target, r[a].id, all[b].id)
    {
      if all[b] in close || all[b] == n {
        DroppedIsFarthest(target, close, n, a);
      } else {
        assert all[b] == nodes[b];
        LeftOutStaysOut(target, nodes, close, n, b, a);
      }
    }
    forall a | 0 <= a < |r| ensures r[a] in all {
      assert r[a] in r;
      if r[a] == n { assert all[|nodes|] == n; }
    }
  }

  /** A node that was farther than the kept ones is farther than them and the newcomer afterwards. */
  lemma LeftOutStaysOut(target: Hash, nodes: seq<Node>, close: seq<Node>, n: Node, b: nat, a: nat)
    requires Closest(target, nodes, close)
    requires forall k :: 0 <= k < |close| ==> close[k].id != n.id
    requires b < |nodes| && nodes[b] !in close && a < |AddClose(target, close, n)|
    ensures Closer(target, AddClose(target, close, n)[a].id, nodes[b].id)
  {
    AllKept(target, nodes, close);
    var r := AddClose(target, close, n);
    DroppedIsFarthest(target, close, n, a);
    if InsertIndex(target, close, n) == BUCKET_K {
      assert r == close;
    } else {
      CloserTransitive(target, r[a].id, close[BUCKET_K - 1].id, nodes[b].id);
    }
  }

  ghost function SetOf(s: seq<Node>): set<Node> {
    set x | x in s
  }

  /** Fewer than eight are kept only when every node is kept. */
  lemma AllKept(target: Hash, nodes: seq<Node>, close: seq<Node>)
    requires Closest(target, nodes, close)
    ensures |close| == BUCKET_K || forall b :: 0 <= b < |nodes| ==> nodes[b] in close
  {
    if |close| < BUCKET_K {
      SortedSize(target, close, |close|);
      assert close[..|close|] == close;
      SeqSetSize(nodes);
      SameSize(SetOf(close), SetOf(nodes));
      forall b | 0 <= b < |nodes| ensures nodes[b] in close {
        assert nodes[b] in SetOf(nodes);
      }
    }
  }

  lemma {:induction false} SortedSize(target: Hash, close: seq<Node>, k: nat)
    requires Sorted(target, close) && k <= |close|
    ensures |SetOf(close[..k])| == k
  {
    if k > 0 {
      SortedSize(target, close, k - 1);
      assert close[..k] == close[..k - 1] + [close[k - 1]];
      forall a | 0 <= a < k - 1 ensures close[a] != close[k - 1] {
        CloserTotal(target, close[a].id, close[k - 1].id);
      }
      assert SetOf(close[..k]) == SetOf(close[..k - 1]) + {close[k - 1]};
    } else {
      assert SetOf(close[..k]) == {};
    }
  }

  lemma {:induction false} SeqSetSize(nodes: seq<Node>)
    ensures |SetOf(nodes)| <= |nodes|
  {
    if |nodes| > 0 {
      SeqSetSize(nodes[1..]);
      assert SetOf(nodes) == SetOf(nodes[1..]) + {nodes[0]};
    }
  }

  lemma {:induction false} SameSize(a: set<Node>, b: set<Node>)
    requires a <= b && |b| <= |a|
    ensures a == b
  {
    if a == {} {
      assert b == {};
    } else {
      var x :| x in a;
      SameSize(a - {x}, b - {x});
      assert a == (a - {x}) + {x} && b == (b - {x}) + {x};
    }
  }

  lemma {:induction false} AddAllClosest(target: Hash, before: seq<Node>, close: seq<Node>, nodes: seq<Node>)
    requires Closest(target, before, close) && DistinctIds(before + nodes)
    ensures Closest(target, before + nodes, AddAll(target, close, nodes))
    decreases |nodes|
  {
    if |nodes| == 0 {
      assert before + nodes == before;
    } else {
      var n := nodes[0];
      forall b | 0 <= b < |before| ensures before[b].id != n.id {
        assert (before + nodes)[b] == before[b] && (before + nodes)[|before|] == n;
      }
      AddCloseClosest(target, before, close, n);
      assert (before + [n]) + nodes[1..] == before + nodes;
      AddAllClosest(target, before + [n], AddClose(target, close, n), nodes[1..]);
    }
  }

  // ---- The nodes of a table

  ghost predicate HoldsNode(s: seq<Option<Entry>>, n: Node) {
    exists j :: 0 <= j < |s| && s[j].Some? && s[j].value.node == n
  }

  lemma {:induction false} BucketNodesIn(s: seq<Option<Entry>>)
    ensures forall n :: n in BucketNodes(s) <==> HoldsNode(s, n)
    ensures |BucketNodes(s)| == Count(s)
  {
    if |s| > 0 {
      BucketNodesIn(s[1..]);
      forall n ensures n in BucketNodes(s) <==> HoldsNode(s, n) {
        if HoldsNode(s[1..], n) {
          var j :| 0 <= j < |s| - 1 && s[1..][j].Some? && s[1..][j].value.node == n;
          assert s[j + 1].value.node == n;
        }
        if HoldsNode(s, n) {
          var j :| 0 <= j < |s| && s[j].Some? && s[j].value.node == n;
          if j > 0 {
            assert s[1..][j - 1].value.node == n;
          }
        }
      }
    }
  }

  lemma {:induction false} BucketNodesDistinct(s: seq<Option<Entry>>)
    requires Distinct(s)
    ensures DistinctIds(BucketNodes(s))
  {
    if |s| > 0 {
      assert Distinct(s[1..]) by {
        assert forall j :: 0 <= j < |s| - 1 ==> s[1..][j] == s[j + 1];
      }
      BucketNodesDistinct(s[1..]);
      BucketNodesIn(s[1..]);
      if s[0].Some? {
        var rest := BucketNodes(s[1..]);
        forall b | 0 <= b < |rest| ensures rest[b].id != s[0].value.node.id {
          assert HoldsNode(s[1..], rest[b]);
          var j :| 0 <= j < |s| - 1 && s[1..][j].Some? && s[1..][j].value.node == rest[b];
          assert s[j + 1].value.node == rest[b];
        }
      }
    }
  }

  /** Some slot of one of these buckets holds the node. */
  ghost predicate NodeIn(buckets: seq<Slots>, n: Node) {
    exists i, j :: 0 <= i < |buckets| && 0 <= j < BUCKET_K && buckets[i][j].Some? && buckets[i][j].value.node == n
  }

  /** Table_ForEachNode visits exactly the nodes of the table. */
  lemma {:induction false} AllNodesIn(buckets: seq<Slots>)
    ensures forall n :: n in AllNodes(buckets) <==> NodeIn(buckets, n)
  {
    if |buckets| > 0 {
      AllNodesIn(buckets[1..]);
      BucketNodesIn(buckets[0]);
      forall n ensures n in AllNodes(buckets) <==> NodeIn(buckets, n) {
        if NodeIn(buckets[1..], n) {
          var i, j :| 0 <= i < |buckets| - 1 && 0 <= j < BUCKET_K && buckets[1..][i][j].Some?
            && buckets[1..][i][j].value.node == n;
          assert buckets[i + 1][j].value.node == n;
        }
        if NodeIn(buckets, n) {
          var i, j :| 0 <= i < |buckets| && 0 <= j < BUCKET_K && buckets[i][j].Some? && buckets[i][j].value.node == n;
          if i > 0 {
            assert buckets[1..][i - 1][j].value.node == n;
          }
        }
      }
    }
  }

  /** Table_ForEachNode visits no id twice. */
  lemma {:induction false} AllNodesDistinct(t: TableV, k: nat)
    requires Valid(t) && k <= |t.buckets|
    ensures DistinctIds(AllNodes(t.buckets[k..]))
    decreases |t.buckets| - k
  {
    if k < |t.buckets| {
      AllNodesDistinct(t, k + 1);
      var later := t.buckets[k + 1..];
      assert t.buckets[k..][1..] == later;
      var here, rest := BucketNodes(t.buckets[k]), AllNodes(later);
      BucketNodesDistinct(t.buckets[k]);
      BucketNodesIn(t.buckets[k]);
      AllNodesIn(later);
      forall a, b | 0 <= a < |here| && 0 <= b < |rest| ensures here[a].id != rest[b].id {
        assert HoldsNode(t.buckets[k], here[a]) && NodeIn(later, rest[b]);
        var j :| 0 <= j < BUCKET_K && t.buckets[k][j].Some? && t.buckets[k][j].value.node == here[a];
        var i, l :| 0 <= i < |later| && 0 <= l < BUCKET_K && later[i][l].Some? && later[i][l].value.node == rest[b];
        assert t.buckets[k + 1 + i][l] == later[i][l];
        assert FindBucket(t, t.buckets[k][j].value.node.id) == k;
        assert FindBucket(t, t.buckets[k + 1 + i][l].value.node.id) == k + 1 + i;
      }
    }
  }

  /**
    Table_GatherClosest returns the min(8, total) nodes of the table nearest to the target, nearest
    first, and everything it leaves out is strictly farther than everything it returns.
   */
  lemma GatherClosestCorrect(t: TableV, target: Hash)
    requires Valid(t)
    ensures Closest(target, AllNodes(t.buckets), GatherClosest(t, target))
    ensures forall n :: n in AllNodes(t.buckets) <==> NodeIn(t.buckets, n)
  {
    AllNodesIn(t.buckets);
    AllNodesDistinct(t, 0);
    assert t.buckets[0..] == t.buckets;
    assert [] + AllNodes(t.buckets) == AllNodes(t.buckets);
    AddAllClosest(target, [], [], AllNodes(t.buckets));
  }
}
