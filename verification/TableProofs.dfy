/** What every insertion keeps, moves and drops. */
module TableProofs {
  import opened Bytes
  import opened Hashes
  import opened Nodes
  import opened TableSpec
  import opened SlotProofs

  /** In a valid table an entry can only be in the bucket its id names. */
  lemma HomeBucket(t: TableV, x: Entry)
    requires Valid(t)
    ensures Contains(t, x) <==> Some(x) in t.buckets[FindBucket(t, x.node.id)]
  {
    if Contains(t, x) {
      var i :| 0 <= i < |t.buckets| && Some(x) in t.buckets[i];
      var j :| 0 <= j < BUCKET_K && t.buckets[i][j] == Some(x);
    }
  }

  /** Searching one bucket is searching the table. */
  lemma HomeBucketOfId(t: TableV, id: Hash)
    requires Valid(t)
    ensures ContainsId(t, id) <==> HoldsId(t.buckets[FindBucket(t, id)], id)
  {
    if ContainsId(t, id) {
      var i :| 0 <= i < |t.buckets| && HoldsId(t.buckets[i], id);
      var j :| 0 <= j < BUCKET_K && t.buckets[i][j].Some? && t.buckets[i][j].value.node.id == id;
    }
  }

  /** No id is in a valid table twice. */
  lemma IdsUnique(t: TableV, i: nat, j: nat, k: nat, l: nat)
    requires Valid(t) && i < |t.buckets| && k < |t.buckets| && j < BUCKET_K && l < BUCKET_K
    requires t.buckets[i][j].Some? && t.buckets[k][l].Some?
    requires t.buckets[i][j].value.node.id == t.buckets[k][l].value.node.id
    ensures i == k && j == l
  {
    assert FindBucket(t, t.buckets[i][j].value.node.id) == i;
    assert FindBucket(t, t.buckets[k][l].value.node.id) == k;
    assert Distinct(t.buckets[i]);
  }

  /**
    Bucket i holds nodes that share exactly i bits with the table's id, the last bucket those that share at
    least its index.
   */
  lemma PrefixOfBucket(t: TableV, i: nat, j: nat)
    requires Valid(t) && i < |t.buckets| && j < BUCKET_K && t.buckets[i][j].Some?
    ensures var p := SharedPrefix(t.id, t.buckets[i][j].value.node.id);
      if i < |t.buckets| - 1 then p == i else p >= |t.buckets| - 1
  {
    assert FindBucket(t, t.buckets[i][j].value.node.id) == i;
  }

  /** Buckets hold strictly decreasing distance to the table's id. */
  lemma DecreasingDistance(t: TableV, i: nat, j: nat, k: nat, l: nat)
    requires Valid(t) && i < k < |t.buckets| && j < BUCKET_K && l < BUCKET_K
    requires t.buckets[i][j].Some? && t.buckets[k][l].Some?
    ensures Closer(t.id, t.buckets[k][l].value.node.id, t.buckets[i][j].value.node.id)
  {
    PrefixOfBucket(t, i, j);
    PrefixOfBucket(t, k, l);
    LongerPrefixIsCloser(t.id, t.buckets[k][l].value.node.id, t.buckets[i][j].value.node.id);
  }

  /** Table_FindNode, looking in one bucket, finds an id exactly when some slot of some bucket holds it. */
  lemma FindNodeComplete(t: TableV, id: Hash)
    requires Valid(t)
    ensures FindNode(t, id).Some? <==> ContainsId(t, id)
    ensures FindNode(t, id).Some? ==> Contains(t, FindNode(t, id).value)
  {
    HomeBucketOfId(t, id);
    var s := t.buckets[FindBucket(t, id)];
    if FindNode(t, id).Some? {
      assert s[FindSlot(s, id)] in s;
    }
  }

  ghost predicate WellPlaced(t: TableV, i: nat, s: Slots)
    requires |t.buckets| > 0
  {
    forall j :: 0 <= j < BUCKET_K && s[j].Some? ==> FindBucket(t, s[j].value.node.id) == i
  }

  lemma PutValid(t: TableV, i: nat, s: Slots)
    requires Valid(t) && i < |t.buckets|
    requires Distinct(s) && WellPlaced(t, i, s)
    ensures Valid(Put(t, i, s))
    ensures forall x :: Contains(Put(t, i, s), x) <==>
      if FindBucket(t, x.node.id) == i then Some(x) in s else Contains(t, x)
  {
    var u := Put(t, i, s);
    assert forall id :: FindBucket(u, id) == FindBucket(t, id);
    forall k, j | 0 <= k < |u.buckets| && 0 <= j < BUCKET_K && u.buckets[k][j].Some?
      ensures FindBucket(u, u.buckets[k][j].value.node.id) == k
    {
      if k != i {
        assert u.buckets[k] == t.buckets[k];
      }
    }
    forall x ensures Contains(u, x) <==> if FindBucket(t, x.node.id) == i then Some(x) in s else Contains(t, x) {
      HomeBucket(u, x);
      HomeBucket(t, x);
    }
  }

  lemma SplitShape(t: TableV)
    requires |t.buckets| > 0
    ensures var last, u := |t.buckets| - 1, Split(t);
      && (forall k :: 0 <= k < last ==> u.buckets[k] == t.buckets[k])
      && u.buckets[last] == Shift(t.id, last, t.buckets[last], NoNodes).0
      && u.buckets[last + 1] == Shift(t.id, last, t.buckets[last], NoNodes).1
  {
  }

  /** Which bucket of a split table an entry of the last bucket goes to. */
  lemma SplitLast(t: TableV, x: Entry)
    requires Valid(t)
    ensures var last, u := |t.buckets| - 1, Split(t);
      && (Some(x) in u.buckets[last] ==> Some(x) in t.buckets[last] && FindBucket(u, x.node.id) == last)
      && (Some(x) in u.buckets[last + 1] ==> Some(x) in t.buckets[last] && FindBucket(u, x.node.id) == last + 1)
      && (Some(x) in t.buckets[last] ==> Some(x) in u.buckets[FindBucket(u, x.node.id)])
  {
    var last := |t.buckets| - 1;
    SplitShape(t);
    ShiftSeparates(t.id, last, t.buckets[last]);
    if Some(x) in t.buckets[last] {
      var l :| 0 <= l < BUCKET_K && t.buckets[last][l] == Some(x);
      PrefixOfBucket(t, last, l);
    }
  }

  lemma SplitPlaced(t: TableV, k: nat, j: nat)
    requires Valid(t) && k <= |t.buckets| && j < BUCKET_K && Split(t).buckets[k][j].Some?
    ensures FindBucket(Split(t), Split(t).buckets[k][j].value.node.id) == k
  {
    var u := Split(t);
    SplitShape(t);
    if k < |t.buckets| - 1 {
      PrefixOfBucket(t, k, j);
    } else {
      assert u.buckets[k][j] in u.buckets[k];
      SplitLast(t, u.buckets[k][j].value);
    }
  }

  lemma SplitDistinct(t: TableV, k: nat)
    requires Valid(t) && k <= |t.buckets|
    ensures Distinct(Split(t).buckets[k])
  {
    hide SharedPrefix, Shift, Distinct;
    SplitShape(t);
    ShiftKeepsDistinct(t.id, |t.buckets| - 1, t.buckets[|t.buckets| - 1]);
  }

  /** A split keeps the table valid. */
  lemma SplitValid(t: TableV)
    requires Valid(t) && |t.buckets| < MAX_TABLE_BUCKETS
    ensures Valid(Split(t))
  {
    forall k | 0 <= k < |Split(t).buckets| ensures Distinct(Split(t).buckets[k]) {
      SplitDistinct(t, k);
    }
    forall k, j | 0 <= k < |Split(t).buckets| && 0 <= j < BUCKET_K && Split(t).buckets[k][j].Some?
      ensures FindBucket(Split(t), Split(t).buckets[k][j].value.node.id) == k
    {
      SplitPlaced(t, k, j);
    }
  }

  /** A split keeps every node. */
  lemma SplitConserves(t: TableV, x: Entry)
    requires Valid(t)
    ensures Contains(Split(t), x) <==> Contains(t, x)
  {
    var last, u := |t.buckets| - 1, Split(t);
    SplitLast(t, x);
    if Contains(t, x) {
      var i :| 0 <= i < |t.buckets| && Some(x) in t.buckets[i];
      if i < last {
        assert u.buckets[i] == t.buckets[i];
      }
    }
    if Contains(u, x) {
      var i :| 0 <= i < |u.buckets| && Some(x) in u.buckets[i];
      if i < last {
        assert u.buckets[i] == t.buckets[i];
      }
    }
  }

  /** Adding to a valid table, when the target bucket has room. */
  lemma AddValid(t: TableV, e: Entry)
    requires Valid(t) && !ContainsId(t, e.node.id)
    ensures var r := AddIfRoom(t, e);
      && Valid(r.table)
      && (r.rc == OKAdded || r.rc == OKFull)
      && (forall x :: Contains(r.table, x) <==> Contains(t, x) || (r.rc == OKAdded && x == e))
  {
    var i := FindBucket(t, e.node.id);
    var s := t.buckets[i];
    HomeBucketOfId(t, e.node.id);
    if !Full(s) {
      AddEffect(s, e);
      PutValid(t, i, Add(s, e));
      forall x ensures Contains(Put(t, i, Add(s, e)), x) <==> Contains(t, x) || x == e {
        HomeBucket(t, x);
      }
    }
  }

  /** Overwriting slot v of the target bucket. */
  lemma ReplaceValid(t: TableV, v: nat, e: Entry)
    requires Valid(t) && !ContainsId(t, e.node.id) && v < BUCKET_K
    requires t.buckets[FindBucket(t, e.node.id)][v].Some?
    ensures var i := FindBucket(t, e.node.id);
      var old_, u := t.buckets[i][v].value, Put(t, i, t.buckets[i][v := Some(e)]);
      && Valid(u)
      && Contains(t, old_)
      && (forall x :: Contains(u, x) <==> x == e || (Contains(t, x) && x != old_))
  {
    var i := FindBucket(t, e.node.id);
    var s := t.buckets[i];
    HomeBucketOfId(t, e.node.id);
    ReplaceEffect(s, v, e);
    PutValid(t, i, s[v := Some(e)]);
    assert s[v] in s;
    assert FindBucket(t, s[v].value.node.id) == i;
    forall x ensures Contains(Put(t, i, s[v := Some(e)]), x) <==> x == e || (Contains(t, x) && x != s[v].value) {
      HomeBucket(t, x);
    }
  }

  /** Table_InsertNode keeps the table valid and never fails. */
  lemma InsertValid(t: TableV, e: Entry, now: int)
    requires Valid(t)
    ensures Valid(Insert(t, e, now).table)
    ensures Insert(t, e, now).rc != ERROR
    ensures Insert(t, e, now).table.id == t.id
  {
    HomeBucketOfId(t, e.node.id);
    if !ContainsId(t, e.node.id) {
      var i := FindBucket(t, e.node.id);
      var s := t.buckets[i];
      AddValid(t, e);
      if Full(s) {
        var b, q := FirstBad(s, now), Oldest(s, now, BUCKET_K);
        if b < BUCKET_K {
          ReplaceValid(t, b, e);
        } else if q < BUCKET_K {
          ReplaceValid(t, q, e);
        } else if |t.buckets| < MAX_TABLE_BUCKETS {
          SplitValid(t);
          SplitKeepsIds(t, e.node.id);
          AddValid(Split(t), e);
        }
      }
    }
  }

  lemma SplitKeepsIds(t: TableV, id: Hash)
    requires Valid(t) && |t.buckets| < MAX_TABLE_BUCKETS
    ensures ContainsId(Split(t), id) ==> ContainsId(t, id)
  {
    var u := Split(t);
    if ContainsId(u, id) {
      var i :| 0 <= i < |u.buckets| && HoldsId(u.buckets[i], id);
      var j :| 0 <= j < BUCKET_K && u.buckets[i][j].Some? && u.buckets[i][j].value.node.id == id;
      var x := u.buckets[i][j].value;
      assert Some(x) in u.buckets[i];
      assert Contains(u, x);
      SplitConserves(t, x);
      var k :| 0 <= k < |t.buckets| && Some(x) in t.buckets[k];
      assert HoldsId(t.buckets[k], id);
    }
  }

  /** The table's entries afterwards: the old ones, plus the new one if it was taken, minus the one it replaced. */
  lemma InsertConserves(t: TableV, e: Entry, now: int)
    requires Valid(t)
    ensures var r := Insert(t, e, now);
      && (r.rc == OKAlreadyAdded <==> ContainsId(t, e.node.id))
      && (r.rc == OKReplaced <==> r.replaced.Some?)
      && (r.replaced.Some? ==> Contains(t, r.replaced.value))
      && (forall x :: Contains(r.table, x) <==>
            (Contains(t, x) && r.replaced != Some(x)) || ((r.rc == OKAdded || r.rc == OKReplaced) && x == e))
  {
    HomeBucketOfId(t, e.node.id);
    if !ContainsId(t, e.node.id) {
      var i := FindBucket(t, e.node.id);
      var s := t.buckets[i];
      AddValid(t, e);
      if Full(s) {
        var b, q := FirstBad(s, now), Oldest(s, now, BUCKET_K);
        if b < BUCKET_K {
          ReplaceValid(t, b, e);
        } else if q < BUCKET_K {
          ReplaceValid(t, q, e);
        } else if |t.buckets| < MAX_TABLE_BUCKETS {
          SplitValid(t);
          SplitKeepsIds(t, e.node.id);
          AddValid(Split(t), e);
          forall x { SplitConserves(t, x); }
        }
      }
    }
  }

  // ---- Eviction policy

  /** Good or Unknown */
  predicate Kept(slot: Option<Entry>, now: int) {
    HasStatus(slot, Good, now) || HasStatus(slot, Unknown, now)
  }

  /** A bucket of kept nodes has nothing to replace. */
  lemma NothingToReplace(s: Slots, now: int)
    requires forall j :: 0 <= j < BUCKET_K ==> Kept(s[j], now)
    ensures Full(s) && FirstBad(s, now) == BUCKET_K && Oldest(s, now, BUCKET_K) == BUCKET_K
  {
    forall j | 0 <= j < BUCKET_K
      ensures s[j].Some? && !HasStatus(s[j], Bad, now) && !HasStatus(s[j], Questionable, now)
    {
      assert Kept(s[j], now);
    }
  }

  /**
    Who is dropped: only from the target bucket, and only when it is full; a Bad node before any
    Questionable one; among the questionable one that has a time which is not after any time of any other.
   */
  lemma EvictionPolicy(t: TableV, e: Entry, now: int)
    requires Valid(t)
    ensures var r, s := Insert(t, e, now), t.buckets[FindBucket(t, e.node.id)];
      && (r.rc == OKReplaced <==>
            !ContainsId(t, e.node.id) && Full(s) && exists j :: 0 <= j < BUCKET_K && !Kept(s[j], now))
      && (r.rc == OKReplaced ==> r.replaced in s && !Kept(r.replaced, now))
      && (r.rc == OKReplaced && HasStatus(r.replaced, Questionable, now) ==>
            forall j :: 0 <= j < BUCKET_K ==>
              !HasStatus(s[j], Bad, now)
              && (HasStatus(s[j], Questionable, now) ==>
                    var v, x := r.replaced.value.info, s[j].value.info;
                    || (v.replyTime <= x.replyTime && v.replyTime <= x.queryTime)
                    || (v.queryTime <= x.replyTime && v.queryTime <= x.queryTime)))
  {
    HomeBucketOfId(t, e.node.id);
    var s := t.buckets[FindBucket(t, e.node.id)];
    var b, q := FirstBad(s, now), Oldest(s, now, BUCKET_K);
    if b < BUCKET_K {
      assert !Kept(s[b], now);
    } else if q < BUCKET_K {
      assert !Kept(s[q], now);
    } else if Full(s) {
      forall j | 0 <= j < BUCKET_K ensures Kept(s[j], now) {
        assert !HasStatus(s[j], Bad, now) && !HasStatus(s[j], Questionable, now);
      }
    }
  }

  /** All nodes of s, and the newcomer, are on the same side of a split at index. */
  ghost predicate OneSided(id: Hash, index: nat, s: Slots, nodeId: Hash) {
    forall j :: 0 <= j < BUCKET_K ==>
      s[j].Some? && (Shiftable(id, index, s[j]) <==> index < SharedPrefix(id, nodeId))
  }

  /** The two halves of a split bucket are full only when nothing moves, or when everything does. */
  lemma FullHalves(id: Hash, index: nat, s: Slots)
    requires Full(s)
    ensures var (stay, next) := Shift(id, index, s, NoNodes);
      && (Full(stay) <==> forall j :: 0 <= j < BUCKET_K ==> !Shiftable(id, index, s[j]))
      && (Full(next) <==> forall j :: 0 <= j < BUCKET_K ==> Shiftable(id, index, s[j]))
  {
    EmptyBucket();
    ShiftStay(id, index, s, NoNodes, 0);
    var (stay, next) := Shift(id, index, s, NoNodes);
    CountFull(s);
    CountFull(next);
    CountZero(stay);
    assert forall j :: 0 <= j < BUCKET_K ==> (stay[j].Some? <==> !Shiftable(id, index, s[j]));
  }

  /** A split leaves the newcomer's side full exactly when all eight nodes are on that side. */
  lemma FullAfterSplit(t: TableV, id: Hash)
    requires Valid(t) && |t.buckets| < MAX_TABLE_BUCKETS
    requires FindBucket(t, id) == |t.buckets| - 1 && Full(t.buckets[|t.buckets| - 1])
    ensures Full(Split(t).buckets[FindBucket(Split(t), id)]) <==>
      OneSided(t.id, |t.buckets| - 1, t.buckets[|t.buckets| - 1], id)
  {
    var last := |t.buckets| - 1;
    SplitShape(t);
    FullHalves(t.id, last, t.buckets[last]);
    if SharedPrefix(t.id, id) <= last {
      assert FindBucket(Split(t), id) == last;
    } else {
      assert FindBucket(Split(t), id) == last + 1;
    }
  }

  /**
    When a new id is turned away: its bucket holds eight nodes that are all Good or Unknown, and
    that bucket is not the last one, or there can be no more buckets, or one split would leave
    all nine on one side.
   */
  lemma TurnedAwayExactly(t: TableV, e: Entry, now: int)
    requires Valid(t)
    ensures Insert(t, e, now).rc == OKFull <==>
      var i := FindBucket(t, e.node.id);
      var s := t.buckets[i];
      && !ContainsId(t, e.node.id)
      && (forall j :: 0 <= j < BUCKET_K ==> Kept(s[j], now))
      && (i < |t.buckets| - 1 || |t.buckets| == MAX_TABLE_BUCKETS || OneSided(t.id, i, s, e.node.id))
  {
    HomeBucketOfId(t, e.node.id);
    EvictionPolicy(t, e, now);
    var i := FindBucket(t, e.node.id);
    var s := t.buckets[i];
    hide NotAfter, Kept, HasStatus, FirstBad, Oldest, Full, OneSided, HasShiftable, ContainsId, Split;
    if !ContainsId(t, e.node.id) && forall j :: 0 <= j < BUCKET_K ==> Kept(s[j], now) {
      NothingToReplace(s, now);
      if i == |t.buckets| - 1 && |t.buckets| < MAX_TABLE_BUCKETS {
        FullAfterSplit(t, e.node.id);
        if !HasShiftable(t.id, i, s, e.node.id) {
          assert OneSided(t.id, i, s, e.node.id);
        }
      }
    }
  }

  // ---- The deepest bucket

  /** The ids in the first n slots of a full bucket. */
  ghost function Ids(s: seq<Option<Entry>>, n: nat): set<Hash>
    requires n <= |s| && Full(s)
  {
    if n == 0 then {} else Ids(s, n - 1) + {s[n - 1].value.node.id}
  }

  lemma {:induction false} IdsIn(s: seq<Option<Entry>>, n: nat, h: Hash) returns (j: nat)
    requires n <= |s| && Full(s) && h in Ids(s, n)
    ensures j < n && s[j].value.node.id == h
  {
    j := n - 1;
    if s[j].value.node.id != h {
      j := IdsIn(s, n - 1, h);
    }
  }

  lemma {:induction false} IdsCount(s: seq<Option<Entry>>, n: nat)
    requires n <= |s| && Distinct(s) && Full(s)
    ensures |Ids(s, n)| == n
  {
    if n > 0 {
      IdsCount(s, n - 1);
      if s[n - 1].value.node.id in Ids(s, n - 1) {
        var j := IdsIn(s, n - 1, s[n - 1].value.node.id);
      }
    }
  }

  /** Once bucket 157 exists, an id that shares 157 bits with the table's always finds room. */
  lemma DeepestBucketHasRoom(t: TableV, e: Entry, now: int)
    requires Valid(t) && |t.buckets| == MAX_TABLE_BUCKETS
    requires SharedPrefix(t.id, e.node.id) >= MAX_TABLE_BUCKETS - 1
    ensures var rc := Insert(t, e, now).rc; rc == OKAdded || rc == OKAlreadyAdded
    ensures Insert(t, e, now).replaced.None?
  {
    var i := FindBucket(t, e.node.id);
    var s := t.buckets[i];
    if Full(s) && !HoldsId(s, e.node.id) {
      var ids := Ids(s, BUCKET_K);
      IdsCount(s, BUCKET_K);
      if e.node.id in ids {
        var j := IdsIn(s, BUCKET_K, e.node.id);
      }
      var more := ids + {e.node.id};
      assert |more| == 9;
      forall h | h in more ensures SharedPrefix(t.id, h) >= 157 {
        if h != e.node.id {
          var j := IdsIn(s, BUCKET_K, h);
          PrefixOfBucket(t, i, j);
        }
      }
      AtMostEightShare157(more, t.id);
      assert false;
    }
  }
}
