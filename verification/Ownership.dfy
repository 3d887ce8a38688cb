/** Which nodes a table owns, and what an insertion does to that. */
module Ownership {
  import opened Bytes
  import opened Nodes
  import T = TableSpec
  import P = TableProofs
  import C = CloseSpec

  /** The nodes a table owns. */
  ghost function NodeSet(t: T.TableV): set<Node> {
    set n | n in C.AllNodes(t.buckets)
  }

  lemma NodeSetIs(t: T.TableV, e: Entry)
    ensures T.Contains(t, e) ==> e.node in NodeSet(t)
  {
    C.AllNodesIn(t.buckets);
    if T.Contains(t, e) {
      var i :| 0 <= i < |t.buckets| && Some(e) in t.buckets[i];
      var j :| 0 <= j < T.BUCKET_K && t.buckets[i][j] == Some(e);
      assert C.NodeIn(t.buckets, e.node);
    }
  }

  lemma EntryOf(t: T.TableV, n: Node) returns (e: Entry)
    requires n in NodeSet(t)
    ensures T.Contains(t, e) && e.node == n
  {
    C.AllNodesIn(t.buckets);
    assert C.NodeIn(t.buckets, n);
    var i, j :| 0 <= i < |t.buckets| && 0 <= j < T.BUCKET_K && t.buckets[i][j].Some? && t.buckets[i][j].value.node == n;
    e := t.buckets[i][j].value;
    assert t.buckets[i][j] in t.buckets[i];
  }

  /** In a valid table a node has one entry. */
  lemma OneEntry(t: T.TableV, a: Entry, b: Entry)
    requires T.Valid(t) && T.Contains(t, a) && T.Contains(t, b) && a.node.id == b.node.id
    ensures a == b
  {
    var i :| 0 <= i < |t.buckets| && Some(a) in t.buckets[i];
    var j :| 0 <= j < T.BUCKET_K && t.buckets[i][j] == Some(a);
    var k :| 0 <= k < |t.buckets| && Some(b) in t.buckets[k];
    var l :| 0 <= l < T.BUCKET_K && t.buckets[k][l] == Some(b);
    P.IdsUnique(t, i, j, k, l);
  }

  /** Whether Table_InsertNode takes the node over. */
  predicate Taken(rc: T.InsertRc) {
    rc == T.OKAdded || rc == T.OKReplaced
  }

  /** The node that an insertion drops, if any. */
  ghost function Lost(r: T.Inserted): set<Node> {
    if r.replaced.Some? then {r.replaced.value.node} else {}
  }

  ghost function Gained(r: T.Inserted, e: Entry): set<Node> {
    if Taken(r.rc) then {e.node} else {}
  }

  lemma LostWasOwned(t: T.TableV, e: Entry, now: int)
    requires T.Valid(t)
    ensures Lost(T.Insert(t, e, now)) <= NodeSet(t)
  {
    P.InsertConserves(t, e, now);
    var r := T.Insert(t, e, now);
    if r.replaced.Some? {
      NodeSetIs(t, r.replaced.value);
    }
  }

  lemma GainedWasNotOwned(t: T.TableV, e: Entry, now: int)
    requires T.Valid(t)
    ensures Gained(T.Insert(t, e, now), e) !! NodeSet(t)
  {
    P.InsertConserves(t, e, now);
    if e.node in NodeSet(t) {
      var x := EntryOf(t, e.node);
      var i :| 0 <= i < |t.buckets| && Some(x) in t.buckets[i];
      assert T.HoldsId(t.buckets[i], e.node.id);
      assert T.ContainsId(t, e.node.id);
    }
  }

  lemma OwnedAfter(t: T.TableV, e: Entry, now: int, n: Node)
    requires T.Valid(t)
    ensures var r := T.Insert(t, e, now);
      n in NodeSet(r.table) <==> (n in NodeSet(t) && n !in Lost(r)) || n in Gained(r, e)
  {
    P.InsertConserves(t, e, now);
    var r := T.Insert(t, e, now);
    if n in NodeSet(r.table) {
      var x := EntryOf(r.table, n);
      NodeSetIs(t, x);
      if T.Contains(t, x) && n in Lost(r) {
        OneEntry(t, x, r.replaced.value);
      }
    }
    if n in NodeSet(t) && n !in Lost(r) {
      var x := EntryOf(t, n);
      NodeSetIs(r.table, x);
    }
    NodeSetIs(r.table, e);
  }

  lemma SetTrade(after: set<Node>, lost: set<Node>, before: set<Node>, gained: set<Node>)
    requires lost <= before && gained !! before
    requires forall x :: x in after <==> (x in before && x !in lost) || x in gained
    ensures multiset(after) + multiset(lost) == multiset(before) + multiset(gained)
  {
    forall x ensures (multiset(after) + multiset(lost))[x] == (multiset(before) + multiset(gained))[x] {
    }
  }

  /** What the table owns after an insertion. */
  lemma InsertOwnership(t: T.TableV, e: Entry, now: int)
    requires T.Valid(t)
    ensures var r := T.Insert(t, e, now);
      multiset(NodeSet(r.table)) + multiset(Lost(r)) == multiset(NodeSet(t)) + multiset(Gained(r, e))
  {
    LostWasOwned(t, e, now);
    GainedWasNotOwned(t, e, now);
    var r := T.Insert(t, e, now);
    var after, lost, before, gained := NodeSet(r.table), Lost(r), NodeSet(t), Gained(r, e);
    forall n ensures n in after <==> (n in before && n !in lost) || n in gained {
      OwnedAfter(t, e, now, n);
    }
    SetTrade(after, lost, before, gained);
  }

  ghost function Own(n: Node?): multiset<Node> {
    if n == null then multiset{} else multiset{n}
  }

  /** What is freed when a node that is to be inserted is given away: itself, or the one it replaces. */
  ghost function Freed(r: T.Inserted, node: Node): multiset<Node> {
    (if Taken(r.rc) then multiset{} else multiset{node}) + Own(if r.replaced.None? then null else r.replaced.value.node)
  }

  lemma Settle<X>(after: multiset<X>, lost: multiset<X>, before: multiset<X>, x: X, taken: bool)
    requires after + lost == before + if taken then multiset{x} else multiset{}
    ensures after + ((if taken then multiset{} else multiset{x}) + lost) == before + multiset{x}
  {
    assert after + (multiset{x} + lost) == (after + lost) + multiset{x};
    assert multiset{} + lost == lost;
  }

  lemma ReplacedOnly(t: T.TableV, e: Entry, now: int)
    requires T.Valid(t)
    ensures var r := T.Insert(t, e, now); r.rc == T.OKReplaced <==> r.replaced.Some?
  {
    P.InsertConserves(t, e, now);
  }

  /** A node that is given away is owned by the table or freed. */
  lemma InsertSettled(t: T.TableV, e: Entry, now: int)
    requires T.Valid(t)
    ensures var r := T.Insert(t, e, now);
      && multiset(NodeSet(r.table)) + Freed(r, e.node) == multiset(NodeSet(t)) + multiset{e.node}
      && (r.rc == T.OKReplaced <==> r.replaced.Some?)
  {
    InsertOwnership(t, e, now);
    ReplacedOnly(t, e, now);
    hide T.Insert, NodeSet;
    var r := T.Insert(t, e, now);
    assert multiset(Gained(r, e)) == if Taken(r.rc) then multiset{e.node} else multiset{};
    assert multiset(Lost(r)) == Own(if r.replaced.None? then null else r.replaced.value.node);
    Settle(multiset(NodeSet(r.table)), multiset(Lost(r)), multiset(NodeSet(t)), e.node, Taken(r.rc));
  }
}
