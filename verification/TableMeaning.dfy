/** What the operations on a table do to the node they are about, field by field. */
module TableMeaning {
  import opened Bytes
  import opened Hashes
  import opened Nodes
  import opened TableSpec
  import opened TableProofs
  import opened TableRuns

  /** The bucket that an id belongs to has an empty slot. */
  ghost predicate HasRoom(t: TableV, id: Hash)
    requires Valid(t)
  {
    exists j :: 0 <= j < BUCKET_K && t.buckets[FindBucket(t, id)][j].None?
  }

  lemma ContainedIsFound(t: TableV, x: Entry)
    requires Valid(t) && Contains(t, x)
    ensures FindNode(t, x.node.id) == Some(x)
  {
    FindNodeComplete(t, x.node.id);
    ContainsItsId(t, x);
    var y := FindNode(t, x.node.id).value;
    HomeBucket(t, x);
    HomeBucket(t, y);
  }

  /** A new id whose bucket has room is added, and then found with the fields that it came with. */
  lemma InsertFinds(t: TableV, e: Entry, now: int)
    requires Valid(t) && !ContainsId(t, e.node.id) && HasRoom(t, e.node.id)
    ensures var r := Insert(t, e, now);
      r.rc == OKAdded && r.replaced == None && FindNode(r.table, e.node.id) == Some(e)
  {
    InsertConserves(t, e, now);
    InsertValid(t, e, now);
    HomeBucketOfId(t, e.node.id);
    EvictionPolicy(t, e, now);
    AddedWithRoom(t, e, now);
    ContainedIsFound(Insert(t, e, now).table, e);
  }

  lemma AddedWithRoom(t: TableV, e: Entry, now: int)
    requires Valid(t) && !ContainsId(t, e.node.id) && HasRoom(t, e.node.id)
    ensures Insert(t, e, now).rc == OKAdded && Insert(t, e, now).replaced == None
  {
    HomeBucketOfId(t, e.node.id);
    var s := t.buckets[FindBucket(t, e.node.id)];
    var j :| 0 <= j < BUCKET_K && s[j].None?;
  }

  /** The bucket that an insertion reports is the one that holds the id afterwards; there is none exactly for OKFull. */
  lemma InsertedBucket(t: TableV, e: Entry, now: int)
    requires Valid(t)
    ensures var r := Insert(t, e, now);
      && (r.bucket == None <==> r.rc == OKFull)
      && (r.bucket.Some? ==> r.bucket.value < |r.table.buckets| && HoldsId(r.table.buckets[r.bucket.value], e.node.id))
  {
    InsertConserves(t, e, now);
    InsertValid(t, e, now);
    var r := Insert(t, e, now);
    if r.rc == OKAlreadyAdded {
      HomeBucketOfId(t, e.node.id);
    } else if r.rc != OKFull {
      ReportedIsHome(t, e, now);
      HomeBucket(r.table, e);
      var s := r.table.buckets[r.bucket.value];
      var j :| 0 <= j < |s| && s[j] == Some(e);
    }
  }

  lemma ReportedIsHome(t: TableV, e: Entry, now: int)
    requires Valid(t)
    ensures var r := Insert(t, e, now);
      && (r.bucket == None <==> r.rc == OKFull)
      && (r.bucket.Some? ==> r.bucket.value == FindBucket(r.table, e.node.id))
  {
  }

  /**
    When a bucket is split: for a new id, when the bucket is the last one and not the 158th, holds eight nodes
    that are Good or Unknown, and at least one of the nine belongs further down.
   */
  lemma SplitsExactly(t: TableV, e: Entry, now: int)
    requires Valid(t)
    ensures var i := FindBucket(t, e.node.id);
      var s := t.buckets[i];
      |Insert(t, e, now).table.buckets| == |t.buckets| +
        if && !ContainsId(t, e.node.id) && i == |t.buckets| - 1 && |t.buckets| < 158
           && (forall j :: 0 <= j < BUCKET_K ==> Kept(s[j], now))
           && (|| i < SharedPrefix(t.id, e.node.id)
               || exists j :: 0 <= j < BUCKET_K && s[j].Some? && i < SharedPrefix(t.id, s[j].value.node.id))
        then 1 else 0
  {
    HomeBucketOfId(t, e.node.id);
    EvictionPolicy(t, e, now);
    var i := FindBucket(t, e.node.id);
    var s := t.buckets[i];
    hide NotAfter, Kept, HasStatus, FirstBad, Oldest, Full, ContainsId, SharedPrefix;
    if !ContainsId(t, e.node.id) && forall j :: 0 <= j < BUCKET_K ==> Kept(s[j], now) {
      NothingToReplace(s, now);
    }
  }

  /** A copy keeps the address of its source, and nothing is known of it yet. */
  function Fresh(source: Info): Info {
    Info(source.addr, source.port, 0, 0, 0, 0, 0, 0)
  }

  /**
    Table_CopyAndAddNode: nothing for a Bad node; any other with a new id, Unknown ones included, is found
    afterwards when its bucket has room, with its address and zero times and counters.
   */
  lemma CopyMeaning(t: TableV, source: Entry, copy: Node, now: int)
    requires Valid(t) && copy.id == source.node.id
    ensures var u := CopyAndAdd(t, source, copy, now);
      && (Status(source.info, now) == Bad ==> u == t)
      && (Status(source.info, now) != Bad && !ContainsId(t, copy.id) && HasRoom(t, copy.id) ==>
            FindNode(u, copy.id) == Some(Entry(copy, Info(source.info.addr, source.info.port, 0, 0, 0, 0, 0, 0))))
      && (!ContainsId(t, copy.id) && FindNode(u, copy.id).Some? ==>
            FindNode(u, copy.id) == Some(Entry(copy, Info(source.info.addr, source.info.port, 0, 0, 0, 0, 0, 0))))
  {
    var e := Entry(copy, CopiedInfo(source.info));
    assert e.info == Fresh(source.info);
    FindNodeComplete(t, copy.id);
    if Status(source.info, now) != Bad && !ContainsId(t, copy.id) {
      if HasRoom(t, copy.id) {
        InsertFinds(t, e, now);
      }
      InsertConserves(t, e, now);
      InsertValid(t, e, now);
      var u := Insert(t, e, now).table;
      FindNodeComplete(u, copy.id);
      if FindNode(u, copy.id).Some? {
        var x := FindNode(u, copy.id).value;
        if Contains(t, x) {
          ContainsItsId(t, x);
        }
      }
    }
  }

  /** What a sender is taken for before it is marked: the node in the table, or else a fresh copy of it. */
  function Base(t: TableV, source: Entry): Info
    requires Valid(t)
  {
    match FindNode(t, source.node.id)
    case Some(x) => x.info
    case None => Fresh(source.info)
  }

  /** When the sender is found after the first steps of Table_MarkReply and Table_MarkQuery, and as what. */
  lemma FoundOrAdded(t: TableV, source: Entry, copy: Node, now: int)
    requires Valid(t) && copy.id == source.node.id
    ensures var u := FindOrAdd(t, source, copy, now);
      && Valid(u)
      && (FindNode(u, copy.id).Some? ==> FindNode(u, copy.id).value.info == Base(t, source))
      && (ContainsId(t, copy.id) || (Status(source.info, now) != Bad && HasRoom(t, copy.id)) ==>
            FindNode(u, copy.id).Some?)
  {
    FindOrAddValid(t, source, copy, now);
    FindNodeComplete(t, copy.id);
    CopyMeaning(t, source, copy, now);
  }

  /**
    Table_MarkReply, field by field. If the sender is in the table afterwards, its reply time is now, its
    query time and address are as before, one pending query less is counted, and of the three counters
    exactly that of the kind of reply goes up by one; it is Good from then on.
   */
  lemma MarkReplyMeaning(t: TableV, source: Entry, kind: ReplyKind, copy: Node, now: int)
    requires Valid(t) && copy.id == source.node.id
    ensures var after, b := FindNode(MarkReply(t, source, kind, copy, now), copy.id), Base(t, source);
      after.Some? ==>
        var i := after.value.info;
        && i.replyTime == now && i.queryTime == b.queryTime && i.addr == b.addr && i.port == b.port
        && (b.pendingQueries > 0 ==> i.pendingQueries == b.pendingQueries - 1)
        && (b.pendingQueries <= 0 ==> i.pendingQueries == b.pendingQueries)
        && i.rfindnodeCount == (b.rfindnodeCount + if kind == FindNodeReply then 1 else 0) % 0x1_0000_0000
        && i.rgetpeersCount == (b.rgetpeersCount + if kind == GetPeersReply then 1 else 0) % 0x1_0000_0000
        && i.rannounceCount == (b.rannounceCount + if kind == AnnounceReply then 1 else 0) % 0x1_0000_0000
        && (now != 0 ==> Status(i, now) == Good)
  {
    FoundOrAdded(t, source, copy, now);
    var u := FindOrAdd(t, source, copy, now);
    var found := FindNode(u, copy.id);
    if found.Some? {
      SetInfoValid(u, copy.id, Replied(found.value.info, kind, now));
    }
  }

  /**
    A sender that is in the table, or that is not Bad and whose bucket has room, is in the table afterwards;
    no other id comes or goes.
   */
  lemma MarkReplyFinds(t: TableV, source: Entry, kind: ReplyKind, copy: Node, now: int)
    requires Valid(t) && copy.id == source.node.id
    requires ContainsId(t, copy.id) || (Status(source.info, now) != Bad && HasRoom(t, copy.id))
    ensures var after := MarkReply(t, source, kind, copy, now);
      && FindNode(after, copy.id).Some?
      && (forall x: Entry :: x.node.id != copy.id ==> (Contains(after, x) <==> Contains(t, x)))
  {
    FoundOrAdded(t, source, copy, now);
    OthersStay(t, source, copy, now);
    var u := FindOrAdd(t, source, copy, now);
    SetInfoValid(u, copy.id, Replied(FindNode(u, copy.id).value.info, kind, now));
  }

  lemma OthersStay(t: TableV, source: Entry, copy: Node, now: int)
    requires Valid(t) && copy.id == source.node.id
    requires ContainsId(t, copy.id) || HasRoom(t, copy.id)
    ensures var u := FindOrAdd(t, source, copy, now);
      forall x: Entry :: x.node.id != copy.id ==> (Contains(u, x) <==> Contains(t, x))
  {
    FindNodeComplete(t, copy.id);
    if !ContainsId(t, copy.id) {
      var e := Entry(copy, CopiedInfo(source.info));
      AddedWithRoom(t, e, now);
      InsertConserves(t, e, now);
    }
  }

  /** Table_MarkQuery, field by field: only the query time of the sender changes. */
  lemma MarkQueryMeaning(t: TableV, source: Entry, copy: Node, now: int)
    requires Valid(t) && copy.id == source.node.id
    ensures var after, b := FindNode(MarkQuery(t, source, copy, now), copy.id), Base(t, source);
      after.Some? ==>
        after.value.info == Info(b.addr, b.port, b.replyTime, now, b.pendingQueries,
                                 b.rfindnodeCount, b.rgetpeersCount, b.rannounceCount)
  {
    FoundOrAdded(t, source, copy, now);
    var u := FindOrAdd(t, source, copy, now);
    var found := FindNode(u, copy.id);
    if found.Some? {
      SetInfoValid(u, copy.id, found.value.info.(queryTime := now));
    }
  }

  lemma MarkQueryFinds(t: TableV, source: Entry, copy: Node, now: int)
    requires Valid(t) && copy.id == source.node.id
    requires ContainsId(t, copy.id) || (Status(source.info, now) != Bad && HasRoom(t, copy.id))
    ensures var after := MarkQuery(t, source, copy, now);
      && FindNode(after, copy.id).Some?
      && (forall x: Entry :: x.node.id != copy.id ==> (Contains(after, x) <==> Contains(t, x)))
  {
    FoundOrAdded(t, source, copy, now);
    OthersStay(t, source, copy, now);
    var u := FindOrAdd(t, source, copy, now);
    SetInfoValid(u, copy.id, FindNode(u, copy.id).value.info.(queryTime := now));
  }

  /** Counting a query that is sent to a node of the table. */
  lemma AskedMeaning(t: TableV, id: Hash)
    requires Valid(t) && ContainsId(t, id)
    ensures var before, after := FindNode(t, id), FindNode(Asked(t, id), id);
      && before.Some? && after.Some? && after.value.node == before.value.node
      && after.value.info == before.value.info.(pendingQueries := before.value.info.pendingQueries + 1)
  {
    FindNodeComplete(t, id);
    var found := FindNode(t, id);
    SetInfoValid(t, id, found.value.info.(pendingQueries := found.value.info.pendingQueries + 1));
  }

  // ---- Absorbing a block of nodes

  predicate IsSelf(e: Entry, addr: uint32, port: uint16) {
    e.info.addr == addr && e.info.port == port
  }

  /**
    The table after the first n nodes of a block: every node that does not have the client's address is
    inserted, in order.
   */
  function AfterBlock(t: TableV, block: seq<Entry>, addr: uint32, port: uint16, now: int, n: nat): (u: TableV)
    requires Valid(t) && n <= |block|
    ensures Valid(u) && u.id == t.id
  {
    if n == 0 then t
    else
      var u := AfterBlock(t, block, addr, port, now, n - 1);
      InsertValid(u, block[n - 1], now);
      if IsSelf(block[n - 1], addr, port) then u else Insert(u, block[n - 1], now).table
  }

  /** Whether the table takes the k-th node of a block. */
  predicate TakenAt(t: TableV, block: seq<Entry>, addr: uint32, port: uint16, now: int, k: nat)
    requires Valid(t) && k < |block|
  {
    && !IsSelf(block[k], addr, port)
    && var rc := Insert(AfterBlock(t, block, addr, port, now, k), block[k], now).rc;
       rc == OKAdded || rc == OKReplaced
  }

  lemma BlockStart(t: TableV, block: seq<Entry>, addr: uint32, port: uint16, now: int)
    requires Valid(t)
    ensures AfterBlock(t, block, addr, port, now, 0) == t
  {
  }

  /** One more node of a block. */
  lemma BlockStep(t: TableV, block: seq<Entry>, addr: uint32, port: uint16, now: int, k: nat)
    requires Valid(t) && k < |block|
    ensures var u, e := AfterBlock(t, block, addr, port, now, k), block[k];
      var r := Insert(u, e, now);
      && AfterBlock(t, block, addr, port, now, k + 1) == (if IsSelf(e, addr, port) then u else r.table)
      && (TakenAt(t, block, addr, port, now, k) <==> !IsSelf(e, addr, port) && (r.rc == OKAdded || r.rc == OKReplaced))
  {
  }

  /** What is Good or Unknown stays in the table over the rest of the block. */
  lemma {:induction false} BlockKeeps(t: TableV, block: seq<Entry>, addr: uint32, port: uint16, now: int,
                                      m: nat, n: nat, x: Entry)
    requires Valid(t) && m <= n <= |block| && Kept(Some(x), now)
    requires Contains(AfterBlock(t, block, addr, port, now, m), x)
    ensures Contains(AfterBlock(t, block, addr, port, now, n), x)
  {
    if m < n {
      BlockKeeps(t, block, addr, port, now, m, n - 1, x);
      InsertKeepsGood(AfterBlock(t, block, addr, port, now, n - 1), block[n - 1], now, x);
    }
  }

  /**
    A node of another host that is new when its turn comes, and whose bucket then has room, is taken and is in
    the table right after; when it is Good or Unknown, as every node read from a reply is, it still is after the
    whole block.
   */
  lemma ForeignNodeIsAdded(t: TableV, block: seq<Entry>, addr: uint32, port: uint16, now: int, k: nat)
    requires Valid(t) && k < |block| && (block[k].info.addr != addr || block[k].info.port != port)
    requires var u := AfterBlock(t, block, addr, port, now, k);
      !ContainsId(u, block[k].node.id) && HasRoom(u, block[k].node.id)
    ensures TakenAt(t, block, addr, port, now, k)
    ensures FindNode(AfterBlock(t, block, addr, port, now, k + 1), block[k].node.id) == Some(block[k])
    ensures Kept(Some(block[k]), now) ==>
      FindNode(AfterBlock(t, block, addr, port, now, |block|), block[k].node.id) == Some(block[k])
  {
    var u := AfterBlock(t, block, addr, port, now, k);
    InsertFinds(u, block[k], now);
    var next := AfterBlock(t, block, addr, port, now, k + 1);
    FindNodeComplete(next, block[k].node.id);
    if Kept(Some(block[k]), now) {
      BlockKeeps(t, block, addr, port, now, k + 1, |block|, block[k]);
      ContainedIsFound(AfterBlock(t, block, addr, port, now, |block|), block[k]);
    }
  }

  /** A new id gets into the table only with a node of the block that does not have the client's own address. */
  lemma {:induction false} OwnAddressIsNotAdded(t: TableV, block: seq<Entry>, addr: uint32, port: uint16, now: int,
                                                n: nat, id: Hash)
    requires Valid(t) && n <= |block| && !ContainsId(t, id)
    requires forall k :: 0 <= k < n && block[k].node.id == id ==>
      block[k].info.addr == addr && block[k].info.port == port
    ensures !ContainsId(AfterBlock(t, block, addr, port, now, n), id)
  {
    hide Insert, Valid, ContainsId, FindBucket, AfterBlock, TakenAt;
    BlockStart(t, block, addr, port, now);
    if n > 0 {
      OwnAddressIsNotAdded(t, block, addr, port, now, n - 1, id);
      BlockStep(t, block, addr, port, now, n - 1);
      var u, e := AfterBlock(t, block, addr, port, now, n - 1), block[n - 1];
      if !IsSelf(e, addr, port) {
        InsertAddsNoOther(u, e, now, id);
      }
    }
  }

  lemma InsertAddsNoOther(t: TableV, e: Entry, now: int, id: Hash)
    requires Valid(t) && !ContainsId(t, id) && e.node.id != id
    ensures !ContainsId(Insert(t, e, now).table, id)
  {
    InsertConserves(t, e, now);
    InsertValid(t, e, now);
    var u := Insert(t, e, now).table;
    FindNodeComplete(u, id);
    if FindNode(u, id).Some? {
      ContainsItsId(t, FindNode(u, id).value);
    }
  }

  /** An empty table, and a reply with one node of another host: the node is found, and taken out of the block. */
  lemma OneForeignNode(id: Hash, e: Entry, addr: uint32, port: uint16, now: int)
    requires e.info.addr != addr || e.info.port != port
    ensures FindNode(AfterBlock(Create(id), [e], addr, port, now, 1), e.node.id) == Some(e)
    ensures TakenAt(Create(id), [e], addr, port, now, 0)
  {
    var t := Create(id);
    assert AfterBlock(t, [e], addr, port, now, 0) == t;
    assert t.buckets[FindBucket(t, e.node.id)][0].None?;
    ForeignNodeIsAdded(t, [e], addr, port, now, 0);
  }
}
