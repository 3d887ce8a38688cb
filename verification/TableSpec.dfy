/** The routing table as a value: what src/table.c and src/bucket.c compute. */
module TableSpec {
  import opened Bytes
  import opened Hashes
  import opened Nodes

  const BUCKET_K: nat := 8
  const BUCKET_LAST_BITS: nat := 3
  const MAX_TABLE_BUCKETS: nat := HASH_BITS + 1 - BUCKET_LAST_BITS

  type Slots = s: seq<Option<Entry>> | |s| == BUCKET_K witness [None, None, None, None, None, None, None, None]

  const NoNodes: Slots := [None, None, None, None, None, None, None, None]

  datatype TableV = TableV(id: Hash, buckets: seq<Slots>)

  // ---- Slots of one bucket

  predicate Full(s: seq<Option<Entry>>) {
    forall j :: 0 <= j < |s| ==> s[j].Some?
  }

  function Count(s: seq<Option<Entry>>): (n: nat)
    ensures n <= |s|
  {
    if |s| == 0 then 0 else (if s[0].Some? then 1 else 0) + Count(s[1..])
  }

  predicate Distinct(s: seq<Option<Entry>>) {
    forall j, k :: 0 <= j < k < |s| && s[j].Some? && s[k].Some? ==> s[j].value.node.id != s[k].value.node.id
  }

  predicate HoldsId(s: seq<Option<Entry>>, id: Hash) {
    exists j :: 0 <= j < |s| && s[j].Some? && s[j].value.node.id == id
  }

  function FirstFree(s: seq<Option<Entry>>, i: nat := 0): (f: nat)
    requires i <= |s|
    ensures i <= f <= |s|
    ensures forall j :: i <= j < f ==> s[j].Some?
    ensures f < |s| ==> s[f].None?
    decreases |s| - i
  {
    if i == |s| || s[i].None? then i else FirstFree(s, i + 1)
  }

  /** Bucket_AddNode on a bucket with room. */
  function Add(s: Slots, e: Entry): Slots
    requires !Full(s)
  {
    s[FirstFree(s) := Some(e)]
  }

  predicate HasStatus(slot: Option<Entry>, status: NodeStatus, now: int) {
    slot.Some? && Status(slot.value.info, now) == status
  }

  /** The slot Bucket_ReplaceBad takes, or |s| when no node is bad. */
  function FirstBad(s: seq<Option<Entry>>, now: int, i: nat := 0): (f: nat)
    requires i <= |s|
    ensures i <= f <= |s|
    ensures forall j :: i <= j < f ==> !HasStatus(s[j], Bad, now)
    ensures f < |s| ==> HasStatus(s[f], Bad, now)
    decreases |s| - i
  {
    if i == |s| || HasStatus(s[i], Bad, now) then i else FirstBad(s, now, i + 1)
  }

  /** When a node was last heard from, by the older of its two times. */
  function Age(info: Info): int {
    if info.replyTime <= info.queryTime then info.replyTime else info.queryTime
  }

  /** One of a's two times is not after either of b's: a was last heard from no later than b. */
  predicate NotAfter(a: Info, b: Info) {
    || (a.replyTime <= b.replyTime && a.replyTime <= b.queryTime)
    || (a.queryTime <= b.replyTime && a.queryTime <= b.queryTime)
  }

  /** Whether v is the questionable node with the least time among the first n slots, the first of them on a tie. */
  predicate IsOldest(s: seq<Option<Entry>>, now: int, n: nat, v: nat)
    requires n <= |s|
  {
    v < n && HasStatus(s[v], Questionable, now)
    && forall j :: 0 <= j < n && HasStatus(s[j], Questionable, now) ==>
      NotAfter(s[v].value.info, s[j].value.info) && (j < v ==> !NotAfter(s[j].value.info, s[v].value.info))
  }

  /** The slot Bucket_ReplaceQuestionable takes out of the first n, or |s| when none is questionable. */
  function Oldest(s: seq<Option<Entry>>, now: int, n: nat): (v: nat)
    requires n <= |s|
    ensures v == |s| || IsOldest(s, now, n, v)
    ensures v == |s| <==> forall j :: 0 <= j < n ==> !HasStatus(s[j], Questionable, now)
  {
    if n == 0 then |s| else
      var v := Oldest(s, now, n - 1);
      if !HasStatus(s[n - 1], Questionable, now) then v
      else if v == |s| || Age(s[n - 1].value.info) < Age(s[v].value.info) then n - 1
      else v
  }

  // ---- Splitting

  predicate Shiftable(id: Hash, index: nat, slot: Option<Entry>) {
    slot.Some? && index < SharedPrefix(id, slot.value.node.id)
  }

  /** Table_ShiftBucketNodes from slot i on. */
  function Shift(id: Hash, index: nat, s: Slots, next: Slots, i: nat := 0): (Slots, Slots)
    requires i <= BUCKET_K
    decreases BUCKET_K - i
  {
    if i == BUCKET_K || Full(next) then (s, next)
    else if !Shiftable(id, index, s[i]) then Shift(id, index, s, next, i + 1)
    else Shift(id, index, s[i := None], Add(next, s[i].value), i + 1)
  }

  /** Table_AddBucket followed by Table_ShiftBucketNodes on the last bucket. */
  function Split(t: TableV): (r: TableV)
    requires |t.buckets| > 0
    ensures r.id == t.id && |r.buckets| == |t.buckets| + 1
  {
    var last := |t.buckets| - 1;
    var moved := Shift(t.id, last, t.buckets[last], NoNodes);
    TableV(t.id, t.buckets[..last] + [moved.0, moved.1])
  }

  /** Table_HasShiftableNodes */
  predicate HasShiftable(id: Hash, index: nat, s: Slots, nodeId: Hash) {
    index < SharedPrefix(id, nodeId) || exists j :: 0 <= j < BUCKET_K && Shiftable(id, index, s[j])
  }

  // ---- The table

  /** Table_Create: one empty bucket. */
  function Create(id: Hash): (t: TableV)
    ensures Valid(t)
  {
    TableV(id, [NoNodes])
  }

  /** Table_FindBucket */
  function FindBucket(t: TableV, id: Hash): (i: nat)
    requires |t.buckets| > 0
    ensures i < |t.buckets|
  {
    var pfx := SharedPrefix(t.id, id);
    if pfx < |t.buckets| then pfx else |t.buckets| - 1
  }

  /** Table_FindNode: the entry with this id in the bucket for this id. */
  function FindSlot(s: seq<Option<Entry>>, id: Hash, i: nat := 0): (f: nat)
    requires i <= |s|
    ensures i <= f <= |s|
    ensures forall j :: i <= j < f ==> !(s[j].Some? && s[j].value.node.id == id)
    ensures f < |s| ==> s[f].Some? && s[f].value.node.id == id
    decreases |s| - i
  {
    if i == |s| || (s[i].Some? && s[i].value.node.id == id) then i else FindSlot(s, id, i + 1)
  }

  function FindNode(t: TableV, id: Hash): (r: Option<Entry>)
    requires |t.buckets| > 0
    ensures r.Some? ==> r.value.node.id == id
  {
    var s := t.buckets[FindBucket(t, id)];
    var j := FindSlot(s, id);
    if j < |s| then s[j] else None
  }

  datatype InsertRc = ERROR | OKAdded | OKReplaced | OKFull | OKAlreadyAdded

  /** Result code, the bucket's index when there is one, the replaced entry when there is one, and the table after. */
  datatype Inserted = Inserted(rc: InsertRc, bucket: Option<nat>, replaced: Option<Entry>, table: TableV)

  function Put(t: TableV, i: nat, s: Slots): TableV
    requires i < |t.buckets|
  {
    t.(buckets := t.buckets[i := s])
  }

  function AddIfRoom(t: TableV, e: Entry): Inserted
    requires |t.buckets| > 0
  {
    var i := FindBucket(t, e.node.id);
    var s := t.buckets[i];
    if Full(s) then Inserted(OKFull, None, None, t)
    else Inserted(OKAdded, Some(i), None, Put(t, i, Add(s, e)))
  }

  /** Table_InsertNode */
  function Insert(t: TableV, e: Entry, now: int): Inserted
    requires |t.buckets| > 0
  {
    var i := FindBucket(t, e.node.id);
    var s := t.buckets[i];
    if HoldsId(s, e.node.id) then Inserted(OKAlreadyAdded, Some(i), None, t)
    else if !Full(s) then AddIfRoom(t, e)
    else
      var b := FirstBad(s, now);
      if b < BUCKET_K then Inserted(OKReplaced, Some(i), s[b], Put(t, i, s[b := Some(e)]))
      else
        var q := Oldest(s, now, BUCKET_K);
        if q < BUCKET_K then Inserted(OKReplaced, Some(i), s[q], Put(t, i, s[q := Some(e)]))
        else if i == |t.buckets| - 1 && |t.buckets| < MAX_TABLE_BUCKETS && HasShiftable(t.id, i, s, e.node.id)
        then AddIfRoom(Split(t), e)
        else AddIfRoom(t, e)
  }

  /** Every node is in the bucket that its id names; ids are distinct; 1 to 158 buckets. */
  ghost predicate Valid(t: TableV) {
    1 <= |t.buckets| <= MAX_TABLE_BUCKETS
    && (forall i :: 0 <= i < |t.buckets| ==> Distinct(t.buckets[i]))
    && (forall i, j :: 0 <= i < |t.buckets| && 0 <= j < BUCKET_K && t.buckets[i][j].Some? ==>
          FindBucket(t, t.buckets[i][j].value.node.id) == i)
  }

  /** Entry e is in the table. */
  ghost predicate Contains(t: TableV, e: Entry) {
    exists i :: 0 <= i < |t.buckets| && Some(e) in t.buckets[i]
  }

  /** Some node with this id is in some slot of some bucket. */
  ghost predicate ContainsId(t: TableV, id: Hash) {
    exists i :: 0 <= i < |t.buckets| && HoldsId(t.buckets[i], id)
  }
}
