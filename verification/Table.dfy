/** src/table.c: the routing table, its buckets updated in place. */
module Tables {
  import opened Bytes
  import opened Hashes
  import opened Nodes
  import T = TableSpec
  import opened Buckets
  import P = TableProofs
  import S = SlotProofs
  import opened Ownership
  import R = TableRuns

  /** nodes[i] = NULL; count--; */
  method Clear(bucket: Bucket, i: nat)
    requires bucket.Valid() && i < T.BUCKET_K && bucket.nodes[i] != null
    modifies bucket`count, bucket.nodes
    ensures bucket.Valid() && bucket.View() == old(bucket.View())[i := None]
    ensures bucket.nodes[..] == old(bucket.nodes[..])[i := null]
  {
    SnapsUpdate(bucket.nodes[..], i, null);
    S.CountUpdate(bucket.View(), i, None);
    bucket.nodes[i] := null;
    bucket.count := bucket.count - 1;
    assert bucket.nodes[..] == old(bucket.nodes[..])[i := null];
  }

  /** All nodes in the slots are in the set. */
  ghost predicate Within(bucket: Bucket, held: set<Node>)
    reads bucket, bucket.nodes
  {
    && bucket.nodes.Length == T.BUCKET_K
    && forall j :: 0 <= j < T.BUCKET_K ==> bucket.nodes[j] == null || bucket.nodes[j] in held
  }

  /** One turn of the loop of Table_ShiftBucketNodes. */
  method ShiftOne(id: Hash, bucket: Bucket, next: Bucket, i: nat, now: int, ghost held: set<Node>)
    requires bucket.Valid() && next.Valid() && bucket != next && bucket.nodes != next.nodes
    requires i < T.BUCKET_K && !T.Full(next.View()) && Within(bucket, held) && Within(next, held)
    modifies bucket`count, bucket.nodes, next, next.nodes
    ensures bucket.Valid() && next.Valid() && next.index == old(next.index)
    ensures Within(bucket, held) && Within(next, held)
    ensures var s, n := old(bucket.View()), old(next.View());
      if T.Shiftable(id, bucket.index, s[i]) then bucket.View() == s[i := None] && next.View() == T.Add(n, s[i].value)
      else bucket.View() == s && next.View() == n
  {
    hide SharedPrefix, T.Count, T.Distinct;
    var node := bucket.nodes[i];
    if node == null {
      return;
    }
    var p := HashSharedPrefix(id, node.id);
    if p <= bucket.index {
      return;
    }
    assert bucket.View()[i] == Some(node.Snapshot());
    var rc := next.AddNode(node, now);
    Clear(bucket, i);
  }

  /** The loop of Table_ShiftBucketNodes, on the two buckets it is about. */
  method ShiftNodes(id: Hash, bucket: Bucket, next: Bucket, now: int, ghost held: set<Node>)
    requires bucket.Valid() && next.Valid() && bucket != next && bucket.nodes != next.nodes
    requires Within(bucket, held) && Within(next, held)
    modifies bucket`count, bucket.nodes, next, next.nodes
    ensures bucket.Valid() && next.Valid() && next.index == old(next.index)
    ensures Within(bucket, held) && Within(next, held)
    ensures (bucket.View(), next.View()) == T.Shift(id, bucket.index, old(bucket.View()), old(next.View()))
  {
    ghost var moved := T.Shift(id, bucket.index, bucket.View(), next.View());
    for i := 0 to T.BUCKET_K
      invariant bucket.Valid() && next.Valid() && next.index == old(next.index)
      invariant Within(bucket, held) && Within(next, held)
      invariant T.Shift(id, bucket.index, bucket.View(), next.View(), i) == moved
    {
      if next.IsFull() {
        break;
      }
      ShiftOne(id, bucket, next, i, now, held);
    }
  }

  /** Table_HasShiftableNodes */
  method HasShiftableNodes(id: Hash, bucket: Bucket, node: Node) returns (b: bool)
    requires bucket.Valid()
    ensures b == T.HasShiftable(id, bucket.index, bucket.View(), node.id)
  {
    var p := HashSharedPrefix(id, node.id);
    if bucket.index < p {
      return true;
    }
    ghost var v := bucket.View();
    for i := 0 to T.BUCKET_K
      invariant forall j :: 0 <= j < i ==> !T.Shiftable(id, bucket.index, v[j])
    {
      var current := bucket.nodes[i];
      assert v[i] == Snap(current);
      if current != null {
        p := HashSharedPrefix(id, current.id);
        if bucket.index < p {
          assert T.Shiftable(id, bucket.index, v[i]);
          return true;
        }
      }
    }
    return false;
  }

  /** The slot that an insertion into a full bucket overwrites: the first bad node, else the oldest questionable one. */
  ghost function StaleSlot(s: T.Slots, now: int): nat {
    if T.FirstBad(s, now) < T.BUCKET_K then T.FirstBad(s, now) else T.Oldest(s, now, T.BUCKET_K)
  }

  /** The two replacement attempts of Table_InsertNode on a full bucket. */
  method ReplaceStale(bucket: Bucket, node: Node, now: int, ghost held: set<Node>) returns (replaced: Node?)
    requires bucket.Valid() && Within(bucket, held)
    modifies bucket, bucket.nodes
    ensures bucket.Valid() && bucket.index == old(bucket.index) && Within(bucket, held + {node})
    ensures var s := old(bucket.View());
      var v := StaleSlot(s, now);
      if v == T.BUCKET_K then replaced == null && unchanged(bucket) && unchanged(bucket.nodes)
      else s[v].Some? && replaced == s[v].value.node && bucket.View() == s[v := Some(node.Snapshot())]
  {
    replaced := bucket.ReplaceBad(node, now);
    if replaced == null {
      replaced := bucket.ReplaceQuestionable(node, now);
    }
  }

  /** The two ways Table_InsertNode goes on from a full bucket. */
  lemma InsertIntoFullCases(t: T.TableV, e: Entry, now: int)
    requires |t.buckets| > 0
    requires var s := t.buckets[T.FindBucket(t, e.node.id)]; !T.HoldsId(s, e.node.id) && T.Full(s)
    ensures var i := T.FindBucket(t, e.node.id);
      var s := t.buckets[i];
      var v := StaleSlot(s, now);
      T.Insert(t, e, now) ==
        if v < T.BUCKET_K then T.Inserted(T.OKReplaced, Some(i), s[v], T.Put(t, i, s[v := Some(e)]))
        else T.AddIfRoom(if SplitsAt(t, i, e.node.id) then T.Split(t) else t, e)
  {
  }

  ghost predicate SplitsAt(t: T.TableV, i: nat, nodeId: Hash)
    requires i < |t.buckets|
  {
    i == |t.buckets| - 1 && |t.buckets| < T.MAX_TABLE_BUCKETS && T.HasShiftable(t.id, i, t.buckets[i], nodeId)
  }

  /** Appending an empty bucket and shifting the one before it is a split. */
  lemma AppendAndShift(t: T.TableV)
    requires |t.buckets| > 0
    ensures var last := |t.buckets| - 1;
      var u := T.TableV(t.id, t.buckets + [T.NoNodes]);
      var moved := T.Shift(t.id, last, u.buckets[last], u.buckets[last + 1]);
      T.Put(T.Put(u, last, moved.0), last + 1, moved.1) == T.Split(t)
  {
  }

  class Table {
    const id: Hash
    var buckets: seq<Bucket>     // the first `end` cells of the bucket array
    ghost var Repr: set<object>  // the table, its buckets and their slot arrays
    ghost var Held: set<Node>    // the nodes ever put into its slots

    /** Every bucket has its own slots, its right index, and holds nodes of Held. */
    ghost predicate Shape()
      reads this, Repr
    {
      && this in Repr && 1 <= |buckets| <= T.MAX_TABLE_BUCKETS
      && (forall o :: o in Repr ==> !(o is Node))
      && (forall i :: 0 <= i < |buckets| ==>
            && buckets[i] in Repr && buckets[i].nodes in Repr
            && buckets[i].index == i && buckets[i].nodes.Length == T.BUCKET_K)
      && (forall i, j :: 0 <= i < |buckets| && 0 <= j < T.BUCKET_K ==>
            buckets[i].nodes[j] == null || buckets[i].nodes[j] in Held)
      && (forall i, j :: 0 <= i < j < |buckets| ==> buckets[i] != buckets[j] && buckets[i].nodes != buckets[j].nodes)
    }

    ghost function Views(n: nat): (r: seq<T.Slots>)
      requires Shape() && n <= |buckets|
      reads this, Repr, Held
      ensures |r| == n && forall i :: 0 <= i < n ==> r[i] == buckets[i].View()
    {
      seq(n, i requires 0 <= i < n && Shape() && n <= |buckets| reads this, Repr, Held => buckets[i].View())
    }

    /** The table as a value. */
    ghost function View(): (t: T.TableV)
      requires Shape()
      reads this, Repr, Held
    {
      T.TableV(id, Views(|buckets|))
    }

    /** The representation is sound: own buckets, right indices, right counts. */
    ghost predicate Sound()
      reads this, Repr, Held
    {
      Shape() && forall i :: 0 <= i < |buckets| ==> buckets[i].Valid()
    }

    ghost predicate Valid()
      reads this, Repr, Held
    {
      Sound() && T.Valid(View())
    }

    /** Table_FindBucket */
    method FindBucket(id: Hash) returns (bucket: Bucket)
      requires Valid()
      ensures Valid() && View() == old(View())
      ensures bucket == buckets[T.FindBucket(View(), id)] && bucket.index == T.FindBucket(View(), id)
      ensures bucket.View() == View().buckets[bucket.index]
    {
      var pfx := HashSharedPrefix(this.id, id);
      var i := if pfx < |buckets| then pfx else |buckets| - 1;
      bucket := buckets[i];
    }

    /** A step that touched only bucket i and its slots changed only bucket i of the view. */
    twostate lemma OneBucketChanged(i: nat)
      requires old(Sound()) && i < |buckets|
      requires buckets == old(buckets) && Repr == old(Repr) && old(Held) <= Held
      requires forall k :: 0 <= k < |buckets| && k != i ==> unchanged(buckets[k]) && unchanged(buckets[k].nodes)
      requires forall n :: n in old(Held) ==> unchanged(n)
      requires buckets[i].index == i && Within(buckets[i], Held)
      requires buckets[i].Valid()
      ensures Sound() && View() == T.Put(old(View()), i, buckets[i].View())
    {
      forall k | 0 <= k < |buckets| && k != i ensures buckets[k].Valid()
        && buckets[k].View() == old(buckets[k].View()) {
      }
    }

    constructor (id: Hash, now: int)
      ensures Valid() && View() == T.Create(id) && fresh(Repr) && Held == {}
    {
      this.id := id;
      var bucket := new Bucket(now);
      buckets := [bucket];
      Held := {};
      Repr := {this, bucket, bucket.nodes};
      new;
      OneEmptyBucket(bucket);
    }

    lemma OneEmptyBucket(bucket: Bucket)
      requires buckets == [bucket] && Repr == {this, bucket, bucket.nodes} && Held == {}
      requires bucket.Valid() && bucket.index == 0 && bucket.View() == T.NoNodes
      requires forall j :: 0 <= j < T.BUCKET_K ==> bucket.nodes[j] == null
      ensures Valid() && View() == T.Create(id)
    {
      assert Views(1) == [T.NoNodes];
    }

    /** Appending a fresh empty bucket appends an empty bucket to the view. */
    twostate lemma BucketAppended(new bucket: Bucket)
      requires old(Sound()) && |old(buckets)| < T.MAX_TABLE_BUCKETS
      requires buckets == old(buckets) + [bucket] && Repr == old(Repr) + {bucket, bucket.nodes} && Held == old(Held)
      requires fresh(bucket) && fresh(bucket.nodes) && bucket.index == |old(buckets)|
      requires bucket.nodes.Length == T.BUCKET_K && forall j :: 0 <= j < T.BUCKET_K ==> bucket.nodes[j] == null
      requires bucket.Valid() && bucket.View() == T.NoNodes
      requires forall k :: 0 <= k < |old(buckets)| ==> unchanged(old(buckets)[k]) && unchanged(old(buckets)[k].nodes)
      requires forall n :: n in Held ==> unchanged(n)
      ensures Sound() && View() == T.TableV(id, old(View()).buckets + [T.NoNodes])
    {
      forall k | 0 <= k < |old(buckets)| ensures buckets[k].Valid() && buckets[k].View() == old(buckets[k].View()) {
        assert buckets[k] == old(buckets)[k];
      }
    }

    /** Table_AddBucket */
    method AddBucket(now: int) returns (bucket: Bucket)
      requires Sound() && |buckets| < T.MAX_TABLE_BUCKETS
      modifies this
      ensures Sound() && fresh(Repr - old(Repr)) && Held == old(Held)
      ensures buckets == old(buckets) + [bucket] && bucket.index == |old(buckets)|
      ensures View() == T.TableV(id, old(View()).buckets + [T.NoNodes])
    {
      bucket := new Bucket(now);
      bucket.index := |buckets|;
      buckets := buckets + [bucket];
      Repr := Repr + {bucket, bucket.nodes};
      assert bucket.View() == T.NoNodes;
      BucketAppended(bucket);
    }

    /** Table_ShiftBucketNodes */
    method ShiftBucketNodes(bucket: Bucket, now: int)
      requires Sound() && bucket in buckets && bucket.index + 1 < |buckets|
      modifies Repr
      ensures Sound() && Repr == old(Repr) && Held == old(Held) && buckets == old(buckets)
      ensures var i, v := old(bucket.index), old(View());
        var moved := T.Shift(id, i, v.buckets[i], v.buckets[i + 1]);
        View() == T.Put(T.Put(v, i, moved.0), i + 1, moved.1)
    {
      var next := buckets[bucket.index + 1];
      ghost var i, v := bucket.index, View();
      assert bucket == buckets[i] && bucket.View() == v.buckets[i] && next.View() == v.buckets[i + 1];
      ShiftNodes(id, bucket, next, now, Held);
      TwoBucketsChanged(i);
    }

    /** A step that touched only buckets i and i + 1 and their slots changed only those of the view. */
    twostate lemma TwoBucketsChanged(i: nat)
      requires old(Sound()) && i + 1 < |buckets|
      requires buckets == old(buckets) && Repr == old(Repr) && old(Held) == Held
      requires forall k :: 0 <= k < |buckets| && k != i && k != i + 1 ==>
        unchanged(buckets[k]) && unchanged(buckets[k].nodes)
      requires forall n :: n in Held ==> unchanged(n)
      requires buckets[i].index == i && buckets[i + 1].index == i + 1
      requires Within(buckets[i], Held) && Within(buckets[i + 1], Held)
      requires buckets[i].Valid() && buckets[i + 1].Valid()
      ensures Sound() && View() == T.Put(T.Put(old(View()), i, buckets[i].View()), i + 1, buckets[i + 1].View())
    {
      forall k | 0 <= k < |buckets| && k != i && k != i + 1
        ensures buckets[k].Valid() && buckets[k].View() == old(buckets[k].View())
      {
      }
    }

    /** The replacing step of Table_InsertNode. */
    method ReplaceNode(bucket: Bucket, node: Node, now: int) returns (replaced: Node?)
      requires Sound() && bucket in buckets
      modifies this`Held, bucket, bucket.nodes
      ensures Sound() && bucket.index == old(bucket.index)
      ensures old(Held) <= Held <= old(Held) + {node}
      ensures var s := old(bucket.View());
        var v := StaleSlot(s, now);
        && (v == T.BUCKET_K ==> replaced == null && View() == old(View()))
        && (v < T.BUCKET_K ==> s[v].Some? && replaced == s[v].value.node)
        && (v < T.BUCKET_K ==> View() == T.Put(old(View()), bucket.index, s[v := Some(node.Snapshot())]))
    {
      replaced := ReplaceStale(bucket, node, now, Held);
      Held := Held + {node};
      OneBucketChanged(bucket.index);
    }

    /** The splitting step of Table_InsertNode. */
    method SplitBucket(bucket: Bucket, now: int)
      requires Valid() && bucket in buckets && bucket.index == |buckets| - 1 && |buckets| < T.MAX_TABLE_BUCKETS
      modifies Repr
      ensures Valid() && fresh(Repr - old(Repr)) && Held == old(Held)
      ensures View() == T.Split(old(View()))
    {
      P.SplitValid(View());
      AppendAndShift(View());
      var next := AddBucket(now);
      ShiftBucketNodes(bucket, now);
    }

    /** The last step of Table_InsertNode. */
    method AddIfRoom(bucket: Bucket, node: Node, now: int) returns (rc: T.InsertRc, r: Bucket?)
      requires Valid() && bucket in buckets && bucket.index == T.FindBucket(View(), node.id)
      modifies Repr, `Held
      ensures Sound() && Repr == old(Repr) && buckets == old(buckets)
      ensures old(Held) <= Held <= old(Held) + {node}
      ensures var a := T.AddIfRoom(old(View()), node.Snapshot());
        rc == a.rc && View() == a.table && r == if a.bucket.None? then null else bucket
    {
      if bucket.IsFull() {
        return T.OKFull, null;
      }
      var added := bucket.AddNode(node, now);
      Held := Held + {node};
      OneBucketChanged(bucket.index);
      return T.OKAdded, bucket;
    }

    /** The split of Table_InsertNode, when there is to be one. */
    method MakeRoom(bucket: Bucket, node: Node, now: int)
      requires Valid() && bucket in buckets
      modifies Repr
      ensures Valid() && fresh(Repr - old(Repr)) && Held == old(Held)
      ensures View() == if SplitsAt(old(View()), old(bucket.index), node.id) then T.Split(old(View())) else old(View())
    {
      assert bucket.View() == View().buckets[bucket.index];
      if bucket.index == |buckets| - 1 && |buckets| < T.MAX_TABLE_BUCKETS {
        var shiftable := HasShiftableNodes(id, bucket, node);
        assert View() == old(View());
        if shiftable {
          SplitBucket(bucket, now);
        }
      }
    }

    /** Table_InsertNode on a full bucket. */
    method InsertIntoFull(target: Bucket, node: Node, now: int)
        returns (rc: T.InsertRc, bucket: Bucket?, replaced: Node?)
      requires Valid() && target in buckets && target.index == T.FindBucket(View(), node.id)
      requires !T.HoldsId(target.View(), node.id) && T.Full(target.View())
      modifies Repr
      ensures Sound() && fresh(Repr - old(Repr)) && old(Held) <= Held <= old(Held) + {node}
      ensures Inserted(T.Insert(old(View()), old(node.Snapshot()), now), rc, bucket, replaced)
    {
      ghost var t, e := View(), node.Snapshot();
      InsertIntoFullCases(t, e, now);
      replaced := ReplaceNode(target, node, now);
      if replaced != null {
        return T.OKReplaced, target, replaced;
      }
      assert View() == t && node.Snapshot() == e;
      rc, bucket := SplitAndAdd(target, node, now);
    }

    /** The end of Table_InsertNode when nothing could be replaced. */
    method SplitAndAdd(target: Bucket, node: Node, now: int) returns (rc: T.InsertRc, bucket: Bucket?)
      requires Valid() && target in buckets && target.index == T.FindBucket(View(), node.id)
      modifies Repr
      ensures Sound() && fresh(Repr - old(Repr)) && old(Held) <= Held <= old(Held) + {node}
      ensures var t, e := old(View()), old(node.Snapshot());
        Inserted(T.AddIfRoom(if SplitsAt(t, old(target.index), node.id) then T.Split(t) else t, e), rc, bucket, null)
    {
      ghost var e := node.Snapshot();
      MakeRoom(target, node, now);
      ghost var t := View();
      var again := FindBucket(node.id);
      assert node.Snapshot() == e && View() == t;
      rc, bucket := AddIfRoom(again, node, now);
    }

    /** What Table_InsertNode returns and leaves behind is what the value says. */
    ghost predicate Inserted(r: T.Inserted, rc: T.InsertRc, bucket: Bucket?, replaced: Node?)
      requires Shape()
      reads this, Repr, Held
    {
      && rc == r.rc && View() == r.table
      && (if bucket == null then r.bucket == None else bucket in buckets && r.bucket == Some(bucket.index))
      && replaced == if r.replaced.None? then null else r.replaced.value.node
    }

    /** Table_InsertNode, at one reading of the clock. */
    method InsertNode(node: Node, now: int) returns (rc: T.InsertRc, bucket: Bucket?, replaced: Node?)
      requires Valid()
      modifies Repr
      ensures Valid() && fresh(Repr - old(Repr)) && old(Held) <= Held <= old(Held) + {node}
      ensures Inserted(T.Insert(old(View()), old(node.Snapshot()), now), rc, bucket, replaced)
    {
      P.InsertValid(View(), node.Snapshot(), now);
      var target := FindBucket(node.id);
      var held := target.ContainsNode(node);
      assert View() == old(View()) && target.View() == View().buckets[target.index];
      if held {
        return T.OKAlreadyAdded, target, null;
      }
      if target.IsFull() {
        rc, bucket, replaced := InsertIntoFull(target, node, now);
      } else {
        rc, bucket := AddIfRoom(target, node, now);
        replaced := null;
      }
    }

    /** Table_FindNode */
    method FindNode(id: Hash) returns (node: Node?)
      requires Valid()
      ensures Valid() && View() == old(View())
      ensures var found := T.FindNode(View(), id);
        if node == null then found.None? else node in Held && node.id == id && found == Some(node.Snapshot())
    {
      var bucket := FindBucket(id);
      ghost var s := bucket.View();
      for i := 0 to T.BUCKET_K
        invariant T.FindSlot(s, id) == T.FindSlot(s, id, i)
      {
        assert s[i] == Snap(bucket.nodes[i]);
        node := bucket.nodes[i];
        if node != null && id == node.id {
          return;
        }
      }
      return null;
    }

    /**
      Table_CopyAndAddNode: whatever is not Bad is copied and inserted. A copy that the table does not take
      and a node that it drops for the copy are freed, and nothing else is.
     */
    method CopyAndAddNode(node: Node, now: int) returns (ghost copy: Node, ghost freed: multiset<Node>)
      requires Valid()
      modifies Repr
      ensures Valid() && fresh(Repr - old(Repr)) && fresh(Held - old(Held)) && old(Held) <= Held
      ensures copy.id == node.id && (copy == node || fresh(copy))
        && View() == R.CopyAndAdd(old(View()), old(node.Snapshot()), copy, now)
      ensures var made := if Status(old(node.Fields()), now) == Bad then multiset{} else multiset{copy};
        multiset(NodeSet(View())) + freed == multiset(NodeSet(old(View()))) + made
    {
      if Status(node.Fields(), now) == Bad {
        return node, multiset{};
      }
      hide T.Insert, T.Valid, NodeSet;
      var added := NodeCopy(node);
      assert View() == old(View()) && Valid();
      copy := added;
      freed := InsertOrFree(added, now);
    }

    /** The end of Table_CopyAndAddNode: the node is inserted, or it is freed. */
    method InsertOrFree(node: Node, now: int) returns (ghost freed: multiset<Node>)
      requires Valid()
      modifies Repr
      ensures Valid() && fresh(Repr - old(Repr)) && old(Held) <= Held <= old(Held) + {node}
      ensures View() == T.Insert(old(View()), old(node.Snapshot()), now).table
      ensures multiset(NodeSet(View())) + freed == multiset(NodeSet(old(View()))) + multiset{node}
    {
      hide T.Insert, T.Valid, NodeSet;
      ghost var t, e := View(), node.Snapshot();
      InsertSettled(t, e, now);
      var rc, bucket, replaced := InsertNode(node, now);
      freed := multiset{};
      if rc == T.ERROR || rc == T.OKFull || rc == T.OKAlreadyAdded {
        freed := freed + multiset{node};
      }
      if rc == T.OKReplaced {
        freed := freed + Own(replaced);
      }
      assert freed == Freed(T.Insert(t, e, now), node);
    }

    /** The node that T.FindNode finds is in the slot it was found in, and in no other. */
    lemma SlotOf(node: Node)
      requires Valid() && T.FindNode(View(), node.id) == Some(node.Snapshot())
      ensures var i := T.FindBucket(View(), node.id);
        var j := T.FindSlot(View().buckets[i], node.id);
        && buckets[i].nodes[j] == node
        && forall k, l :: 0 <= k < |buckets| && 0 <= l < T.BUCKET_K && buckets[k].nodes[l] == node ==> k == i && l == j
    {
      var i := T.FindBucket(View(), node.id);
      var j := T.FindSlot(View().buckets[i], node.id);
      assert View().buckets[i][j] == Snap(buckets[i].nodes[j]);
      forall k, l | 0 <= k < |buckets| && 0 <= l < T.BUCKET_K && buckets[k].nodes[l] == node ensures k == i && l == j {
        OnlySlot(i, j, k, l);
      }
    }

    /** A node is in one slot only. */
    lemma OnlySlot(i: nat, j: nat, k: nat, l: nat)
      requires Valid() && i < |buckets| && k < |buckets| && j < T.BUCKET_K && l < T.BUCKET_K
      requires buckets[i].nodes[j] != null && buckets[k].nodes[l] == buckets[i].nodes[j]
      ensures i == k && j == l
    {
      var t := View();
      assert t.buckets[i][j] == Snap(buckets[i].nodes[j]);
      assert t.buckets[k][l] == Snap(buckets[k].nodes[l]);
      P.IdsUnique(t, i, j, k, l);
    }

    /** Only the entry in slot j of bucket i differs from t. */
    ghost predicate DiffersOnlyAt(t: T.TableV, i: nat, j: nat)
      requires Shape()
      reads this, Repr, Held
    {
      && t.id == id && |t.buckets| == |buckets| && i < |buckets| && j < T.BUCKET_K
      && t.buckets[i][j].Some? && buckets[i].nodes[j] != null
      && (forall k :: 0 <= k < |buckets| ==> buckets[k].count == T.Count(t.buckets[k]))
      && (forall k, l :: 0 <= k < |buckets| && 0 <= l < T.BUCKET_K && !(k == i && l == j) ==>
            Snap(buckets[k].nodes[l]) == t.buckets[k][l])
    }

    lemma NodeChanged(t: T.TableV, i: nat, j: nat)
      requires Shape() && DiffersOnlyAt(t, i, j)
      ensures Sound() && View() == T.Put(t, i, t.buckets[i][j := Snap(buckets[i].nodes[j])])
    {
      var e := Snap(buckets[i].nodes[j]);
      S.CountUpdate(t.buckets[i], j, e);
      forall k | 0 <= k < |buckets|
        ensures buckets[k].View() == (if k == i then t.buckets[i][j := e] else t.buckets[k]) && buckets[k].Valid()
      {
      }
    }

    method FindOrAdd(node: Node, now: int) returns (found: Node?, ghost copy: Node)
      requires Valid()
      modifies Repr
      ensures Valid() && fresh(Repr - old(Repr)) && fresh(Held - old(Held)) && old(Held) <= Held
      ensures copy.id == node.id && (copy == node || fresh(copy))
        && View() == R.FindOrAdd(old(View()), old(node.Snapshot()), copy, now)
      ensures var f := T.FindNode(View(), node.id);
        if found == null then f.None? else found in Held && f == Some(found.Snapshot())
    {
      hide T.Insert, T.Distinct, SharedPrefix;
      copy := node;
      found := FindNode(node.id);
      if found == null {
        ghost var freed;
        copy, freed := CopyAndAddNode(node, now);
        found := FindNode(node.id);
      }
    }

    /** Table_MarkReply: the sender has answered. */
    method MarkReply(sender: Node, kind: ReplyKind, now: int) returns (ghost copy: Node)
      requires Valid()
      modifies Repr, Held
      ensures Valid() && fresh(Repr - old(Repr)) && fresh(Held - old(Held)) && old(Held) <= Held
      ensures copy.id == sender.id && View() == R.MarkReply(old(View()), old(sender.Snapshot()), kind, copy, now)
    {
      hide T.Insert, R.FindOrAdd, T.Distinct, SharedPrefix;
      var found: Node?;
      found, copy := FindOrAdd(sender, now);
      if found == null {
        return;
      }
      ghost var t, info := View(), Replied(found.Fields(), kind, now);
      ghost var i := T.FindBucket(t, found.id);
      ghost var j := T.FindSlot(t.buckets[i], found.id);
      SlotOf(found);
      found.MarkReplied(kind, now);
      NodeChanged(t, i, j);
      R.SetInfoValid(t, found.id, info);
    }

    /** Table_MarkQuery: the sender has asked. */
    method MarkQuery(sender: Node, now: int) returns (ghost copy: Node)
      requires Valid()
      modifies Repr, Held
      ensures Valid() && fresh(Repr - old(Repr)) && fresh(Held - old(Held)) && old(Held) <= Held
      ensures copy.id == sender.id && View() == R.MarkQuery(old(View()), old(sender.Snapshot()), copy, now)
    {
      hide T.Insert, R.FindOrAdd, T.Distinct, SharedPrefix;
      var found: Node?;
      found, copy := FindOrAdd(sender, now);
      if found == null {
        return;
      }
      ghost var t, info := View(), found.Fields().(queryTime := now);
      ghost var i := T.FindBucket(t, found.id);
      ghost var j := T.FindSlot(t.buckets[i], found.id);
      SlotOf(found);
      found.queryTime := now;
      NodeChanged(t, i, j);
      R.SetInfoValid(t, found.id, info);
    }
  }
}
