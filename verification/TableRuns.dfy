/** Everything the client does to a routing table, and what holds after any run of it. */
module TableRuns {
  import opened Bytes
  import opened Hashes
  import opened Nodes
  import opened TableSpec
  import opened TableProofs

  /** Table_CopyAndAddNode; copy is the freshly allocated node, which is used unless the source is bad. */
  function CopyAndAdd(t: TableV, source: Entry, copy: Node, now: int): TableV
    requires |t.buckets| > 0
  {
    if Status(source.info, now) == Bad then t
    else Insert(t, Entry(copy, CopiedInfo(source.info)), now).table
  }

  /** Overwrite the fields of the node with this id. */
  function SetInfo(t: TableV, id: Hash, info: Info): TableV
    requires |t.buckets| > 0 && FindNode(t, id).Some?
  {
    var i := FindBucket(t, id);
    var j := FindSlot(t.buckets[i], id);
    Put(t, i, t.buckets[i][j := Some(Entry(t.buckets[i][j].value.node, info))])
  }

  function FindOrAdd(t: TableV, source: Entry, copy: Node, now: int): TableV
    requires |t.buckets| > 0
  {
    if FindNode(t, source.node.id).Some? then t else CopyAndAdd(t, source, copy, now)
  }

  /** Table_MarkReply */
  function MarkReply(t: TableV, source: Entry, kind: ReplyKind, copy: Node, now: int): TableV
    requires Valid(t)
  {
    FindOrAddValid(t, source, copy, now);
    var u := FindOrAdd(t, source, copy, now);
    var found := FindNode(u, source.node.id);
    if found.None? then u else SetInfo(u, source.node.id, Replied(found.value.info, kind, now))
  }

  /** Table_MarkQuery */
  function MarkQuery(t: TableV, source: Entry, copy: Node, now: int): TableV
    requires Valid(t)
  {
    FindOrAddValid(t, source, copy, now);
    var u := FindOrAdd(t, source, copy, now);
    var found := FindNode(u, source.node.id);
    if found.None? then u else SetInfo(u, source.node.id, found.value.info.(queryTime := now))
  }

  /** node->pending_queries++ on a node of the table, as the search does for every query it queues. */
  function Asked(t: TableV, id: Hash): TableV
    requires Valid(t)
  {
    var found := FindNode(t, id);
    if found.None? then t
    else SetInfo(t, id, found.value.info.(pendingQueries := found.value.info.pendingQueries + 1))
  }

  datatype Op =
    | InsertOp(node: Entry, now: int)
    | CopyOp(source: Entry, copy: Node, now: int)
    | ReplyOp(source: Entry, kind: ReplyKind, copy: Node, now: int)
    | QueryOp(source: Entry, copy: Node, now: int)
    | AskOp(id: Hash)

  function Step(t: TableV, op: Op): TableV
    requires Valid(t)
  {
    match op
    case InsertOp(e, now) => Insert(t, e, now).table
    case CopyOp(source, copy, now) => CopyAndAdd(t, source, copy, now)
    case ReplyOp(source, kind, copy, now) => MarkReply(t, source, kind, copy, now)
    case QueryOp(source, copy, now) => MarkQuery(t, source, copy, now)
    case AskOp(id) => Asked(t, id)
  }

  lemma FindOrAddValid(t: TableV, source: Entry, copy: Node, now: int)
    requires Valid(t)
    ensures Valid(FindOrAdd(t, source, copy, now))
    ensures FindOrAdd(t, source, copy, now).id == t.id
    ensures Valid(CopyAndAdd(t, source, copy, now)) && CopyAndAdd(t, source, copy, now).id == t.id
  {
    InsertValid(t, Entry(copy, CopiedInfo(source.info)), now);
  }

  /** A node heard from long ago is copied into an empty table, although it is not good. */
  lemma QuestionableIsCopied(id: Hash, source: Node, copy: Node)
    ensures var info := Info(0, 0, 1, 1, 0, 0, 0, 0);
      var now := 1 + NODE_RESPITE;
      && Status(info, now) == Questionable
      && Contains(CopyAndAdd(Create(id), Entry(source, info), copy, now), Entry(copy, CopiedInfo(info)))
  {
    var e := Entry(copy, CopiedInfo(Info(0, 0, 1, 1, 0, 0, 0, 0)));
    assert NoNodes[0].None?;
    InsertConserves(Create(id), e, 1 + NODE_RESPITE);
  }

  /** Overwriting fields keeps the table valid and keeps every id where it was. */
  lemma SetInfoValid(t: TableV, id: Hash, info: Info)
    requires Valid(t) && FindNode(t, id).Some?
    ensures Valid(SetInfo(t, id, info)) && SetInfo(t, id, info).id == t.id
    ensures FindNode(SetInfo(t, id, info), id) == Some(Entry(FindNode(t, id).value.node, info))
    ensures forall x: Entry :: x.node.id != id ==> (Contains(SetInfo(t, id, info), x) <==> Contains(t, x))
  {
    var i := FindBucket(t, id);
    var s := t.buckets[i];
    var j := FindSlot(s, id);
    var s' := s[j := Some(Entry(s[j].value.node, info))];
    PutValid(t, i, s');
    var u := SetInfo(t, id, info);
    assert FindSlot(s', id) == j by {
      assert s'[j].value.node.id == id;
      assert Distinct(s');
    }
    forall x: Entry | x.node.id != id ensures Contains(u, x) <==> Contains(t, x) {
      HomeBucket(t, x);
      if FindBucket(t, x.node.id) == i {
        SetSlotOthers(s, j, Entry(s[j].value.node, info), x);
      }
    }
  }

  lemma SetSlotOthers(s: Slots, j: nat, e: Entry, x: Entry)
    requires j < BUCKET_K && s[j].Some? && s[j].value != x && e != x
    ensures Some(x) in s[j := Some(e)] <==> Some(x) in s
  {
    if Some(x) in s {
      var k :| 0 <= k < BUCKET_K && s[k] == Some(x);
      assert s[j := Some(e)][k] == Some(x);
    }
  }

  /** One step keeps the table valid and its id. */
  lemma StepValid(t: TableV, op: Op)
    requires Valid(t)
    ensures Valid(Step(t, op)) && Step(t, op).id == t.id
  {
    match op
    case InsertOp(e, now) => InsertValid(t, e, now);
    case CopyOp(source, copy, now) => FindOrAddValid(t, source, copy, now);
    case ReplyOp(source, kind, copy, now) =>
      FindOrAddValid(t, source, copy, now);
      var u := FindOrAdd(t, source, copy, now);
      var found := FindNode(u, source.node.id);
      if found.Some? {
        SetInfoValid(u, source.node.id, Replied(found.value.info, kind, now));
      }
    case QueryOp(source, copy, now) =>
      FindOrAddValid(t, source, copy, now);
      var u := FindOrAdd(t, source, copy, now);
      var found := FindNode(u, source.node.id);
      if found.Some? {
        SetInfoValid(u, source.node.id, found.value.info.(queryTime := now));
      }
    case AskOp(id) =>
      var found := FindNode(t, id);
      if found.Some? {
        SetInfoValid(t, id, found.value.info.(pendingQueries := found.value.info.pendingQueries + 1));
      }
  }

  /** The table after a run of steps. */
  function Run(t: TableV, ops: seq<Op>): TableV
    requires Valid(t)
    decreases |ops|
  {
    if |ops| == 0 then t
    else
      StepValid(t, ops[0]);
      Run(Step(t, ops[0]), ops[1..])
  }

  lemma {:induction false} RunValidFrom(t: TableV, ops: seq<Op>)
    requires Valid(t)
    ensures Valid(Run(t, ops)) && Run(t, ops).id == t.id
    decreases |ops|
  {
    if |ops| > 0 {
      StepValid(t, ops[0]);
      RunValidFrom(Step(t, ops[0]), ops[1..]);
    }
  }

  /**
    Over every run from Table_Create: at most 158 buckets, every node in the bucket its shared
    prefix names, no id twice, distances decreasing from bucket to bucket, and a lookup in one
    bucket finds exactly the ids the table holds.
   */
  lemma RunSafety(id: Hash, ops: seq<Op>, i: nat, j: nat, k: nat, l: nat, any: Hash)
    ensures var t := Run(Create(id), ops);
      && 1 <= |t.buckets| <= 158 && t.id == id
      && (FindNode(t, any).Some? <==> ContainsId(t, any))
      && (i < |t.buckets| && j < BUCKET_K && t.buckets[i][j].Some? ==>
            var a := t.buckets[i][j].value.node.id;
            && (if i < |t.buckets| - 1 then SharedPrefix(id, a) == i else SharedPrefix(id, a) >= i)
            && (k < |t.buckets| && l < BUCKET_K && t.buckets[k][l].Some? ==>
                  var b := t.buckets[k][l].value.node.id;
                  && (a == b ==> i == k && j == l)
                  && (i < k ==> Closer(id, b, a))))
  {
    RunValidFrom(Create(id), ops);
    var t := Run(Create(id), ops);
    FindNodeComplete(t, any);
    if i < |t.buckets| && j < BUCKET_K && t.buckets[i][j].Some? {
      PrefixOfBucket(t, i, j);
      if k < |t.buckets| && l < BUCKET_K && t.buckets[k][l].Some? {
        if t.buckets[i][j].value.node.id == t.buckets[k][l].value.node.id {
          IdsUnique(t, i, j, k, l);
        }
        if i < k {
          DecreasingDistance(t, i, j, k, l);
        }
      }
    }
  }

  // ---- Who stays

  lemma InsertKeepsGood(t: TableV, e: Entry, now: int, x: Entry)
    requires Valid(t) && Contains(t, x) && Kept(Some(x), now)
    ensures Contains(Insert(t, e, now).table, x)
  {
    InsertConserves(t, e, now);
    EvictionPolicy(t, e, now);
  }

  lemma ContainsItsId(t: TableV, x: Entry)
    requires Contains(t, x)
    ensures ContainsId(t, x.node.id)
  {
    var i :| 0 <= i < |t.buckets| && Some(x) in t.buckets[i];
    assert HoldsId(t.buckets[i], x.node.id);
  }

  lemma SetInfoKeepsId(t: TableV, id: Hash, info: Info, x: Entry)
    requires Valid(t) && FindNode(t, id).Some? && Contains(t, x)
    ensures ContainsId(SetInfo(t, id, info), x.node.id)
  {
    SetInfoValid(t, id, info);
    var u := SetInfo(t, id, info);
    if x.node.id == id {
      FindNodeComplete(u, id);
    } else {
      ContainsItsId(u, x);
    }
  }

  /** No step, whatever it is, drops a node that is Good or Unknown at the time of the step. */
  lemma StepKeepsGood(t: TableV, op: Op, x: Entry)
    requires Valid(t) && Contains(t, x)
    requires op.AskOp? || Kept(Some(x), op.now)
    ensures ContainsId(Step(t, op), x.node.id)
  {
    ContainsItsId(t, x);
    match op
    case InsertOp(e, now) =>
      InsertKeepsGood(t, e, now, x);
      ContainsItsId(Step(t, op), x);
    case CopyOp(source, copy, now) =>
      CopyKeepsGood(t, source, copy, now, x);
      ContainsItsId(Step(t, op), x);
    case ReplyOp(source, kind, copy, now) =>
      CopyKeepsGood(t, source, copy, now, x);
      FindOrAddValid(t, source, copy, now);
      var u := FindOrAdd(t, source, copy, now);
      ContainsItsId(u, x);
      var found := FindNode(u, source.node.id);
      if found.Some? {
        SetInfoKeepsId(u, source.node.id, Replied(found.value.info, kind, now), x);
      }
    case QueryOp(source, copy, now) =>
      CopyKeepsGood(t, source, copy, now, x);
      FindOrAddValid(t, source, copy, now);
      var u := FindOrAdd(t, source, copy, now);
      ContainsItsId(u, x);
      var found := FindNode(u, source.node.id);
      if found.Some? {
        SetInfoKeepsId(u, source.node.id, found.value.info.(queryTime := now), x);
      }
    case AskOp(id) =>
      var found := FindNode(t, id);
      if found.Some? {
        SetInfoKeepsId(t, id, found.value.info.(pendingQueries := found.value.info.pendingQueries + 1), x);
      }
  }

  lemma CopyKeepsGood(t: TableV, source: Entry, copy: Node, now: int, x: Entry)
    requires Valid(t) && Contains(t, x) && Kept(Some(x), now)
    ensures Contains(CopyAndAdd(t, source, copy, now), x)
    ensures Contains(FindOrAdd(t, source, copy, now), x)
  {
    InsertKeepsGood(t, Entry(copy, CopiedInfo(source.info)), now, x);
  }
}
