/**
  Queries and their replies: src/message_create.c, the end of SendMessage in src/network.c, and the matching
  in DecodeResponse.
 */
module Queries {
  import opened Bytes
  import opened Hashes
  import opened Messages
  import opened PendingModule

  /** What SendMessage looks at in a query: its type, transaction id, addressee and context. */
  datatype Query = Query(kind: QueryType, tid: uint16, to: Hash, context: Context, isNew: bool)

  /** The entry that SendMessage stores for a query. */
  function EntryOf(q: Query): PendingResponse
  {
    PendingResponse(AsReply(q.kind), q.tid, q.to, q.context, q.isNew)
  }

  datatype Event =
    | Sent(query: Query)             // a query has gone out on the socket
    | Reply(tid: uint16, id: Hash)   // a reply with this transaction id and sender id has come in

  datatype Outcome =
    | Accepted                       // addPendingResponse returned 0
    | Refused                        // it returned -1
    | Matched(entry: PendingResponse, idError: bool)
    | Unmatched

  function Step(p: Pending, e: Event): (Pending, Outcome)
  {
    match e
    case Sent(q) => if q.tid in p then (p, Refused) else (p[q.tid := EntryOf(q)], Accepted)
    case Reply(tid, id) =>
      if tid in p then (p - {tid}, Matched(p[tid], id != p[tid].id && !p[tid].isNew)) else (p, Unmatched)
  }

  /** The outstanding queries after the first n events. */
  function After(events: seq<Event>, n: nat): Pending
    requires n <= |events|
  {
    if n == 0 then map[] else Step(After(events, n - 1), events[n - 1]).0
  }

  function OutcomeAt(events: seq<Event>, n: nat): Outcome
    requires n < |events|
  {
    Step(After(events, n), events[n]).1
  }

  /** Event n stores an entry for the transaction id. */
  predicate Opens(events: seq<Event>, n: nat, tid: uint16)
    requires n < |events|
  {
    events[n].Sent? && events[n].query.tid == tid && OutcomeAt(events, n) == Accepted
  }

  /** Event n consumes the entry for the transaction id. */
  predicate Closes(events: seq<Event>, n: nat, tid: uint16)
    requires n < |events|
  {
    events[n].Reply? && events[n].tid == tid && OutcomeAt(events, n).Matched?
  }

  /** Event i stored the entry for the transaction id, and nothing between i and n touched it. */
  ghost predicate OpenSince(events: seq<Event>, n: nat, tid: uint16, i: nat)
    requires i < n <= |events|
  {
    Opens(events, i, tid) && forall k :: i < k < n ==> !Opens(events, k, tid) && !Closes(events, k, tid)
  }

  /** An entry is outstanding exactly when an accepted query put it there and no reply has consumed it since. */
  lemma {:induction false} OutstandingMeans(events: seq<Event>, n: nat, tid: uint16)
    requires n <= |events|
    ensures tid in After(events, n) <==> exists i :: 0 <= i < n && OpenSince(events, n, tid, i)
    ensures forall i :: 0 <= i < n && OpenSince(events, n, tid, i) ==>
      tid in After(events, n) && After(events, n)[tid] == EntryOf(events[i].query)
  {
    if n > 0 {
      var m := n - 1;
      OutstandingMeans(events, m, tid);
      AfterStep(events, m, tid);
      forall i | 0 <= i < m {
        OpenStep(events, m, tid, i);
      }
      hide After, Opens, Closes;
      if Opens(events, m, tid) {
        OpenNow(events, m, tid);
      }
    }
  }

  lemma OpenNow(events: seq<Event>, m: nat, tid: uint16)
    requires m < |events| && Opens(events, m, tid)
    ensures OpenSince(events, m + 1, tid, m)
  {
  }

  /** An entry stays open until the next event that stores or consumes its id. */
  lemma OpenStep(events: seq<Event>, m: nat, tid: uint16, i: nat)
    requires i < m < |events|
    ensures OpenSince(events, m + 1, tid, i) <==>
      OpenSince(events, m, tid, i) && !Opens(events, m, tid) && !Closes(events, m, tid)
  {
    hide Opens, Closes;
  }

  /** What one event does to one transaction id. */
  lemma AfterStep(events: seq<Event>, m: nat, tid: uint16)
    requires m < |events|
    ensures var p, q := After(events, m), After(events, m + 1);
      if Opens(events, m, tid) then tid !in p && tid in q && q[tid] == EntryOf(events[m].query)
      else if Closes(events, m, tid) then tid in p && tid !in q
      else (tid in q <==> tid in p) && (tid in p ==> q[tid] == p[tid])
  {
  }

  /**
    Over any run: a reply is matched exactly when some earlier query with its transaction id was
    accepted and no event since then stored or consumed that id; it is given the reply type and the
    context of that very query, and flagged unless the ids agree or the node was new.
   */
  lemma MatchedReply(events: seq<Event>, n: nat)
    requires n < |events|
    requires events[n].Reply?
    ensures OutcomeAt(events, n).Matched? <==> exists i :: 0 <= i < n && OpenSince(events, n, events[n].tid, i)
    ensures forall i :: 0 <= i < n && OpenSince(events, n, events[n].tid, i) ==>
      var q := events[i].query;
      OutcomeAt(events, n) == Matched(PendingResponse(AsReply(q.kind), q.tid, q.to, q.context, q.isNew),
                                      events[n].id != q.to && !q.isNew)
    ensures forall i :: 0 <= i < n && OpenSince(events, n, events[n].tid, i) ==>
      var q, kind := events[i].query.kind, OutcomeAt(events, n).entry.kind;
      && (q == QPing ==> kind == RPing) && (q == QFindNode ==> kind == RFindNode)
      && (q == QGetPeers ==> kind == RGetPeers) && (q == QAnnouncePeer ==> kind == RAnnouncePeer)
  {
    OutstandingMeans(events, n, events[n].tid);
  }

  /** No query answers two replies: replies matched at different times have different sources. */
  lemma NoDoubleMatch(events: seq<Event>, m: nat, n: nat, i: nat, j: nat)
    requires m < n < |events|
    requires events[m].Reply? && OutcomeAt(events, m).Matched? && events[n].Reply? && OutcomeAt(events, n).Matched?
    requires i < m && OpenSince(events, m, events[m].tid, i)
    requires j < n && OpenSince(events, n, events[n].tid, j)
    ensures i != j
  {
    assert Closes(events, m, events[m].tid);
  }

  /** A query whose transaction id is still outstanding is refused, and what is outstanding stays as it was. */
  lemma RefusedQuery(events: seq<Event>, n: nat)
    requires n < |events|
    requires events[n].Sent?
    ensures OutcomeAt(events, n) == Refused <==> exists i :: 0 <= i < n && OpenSince(events, n, events[n].query.tid, i)
    ensures OutcomeAt(events, n) == Refused ==> After(events, n + 1) == After(events, n)
    ensures OutcomeAt(events, n) != Refused ==>
      After(events, n + 1) == After(events, n)[events[n].query.tid := EntryOf(events[n].query)]
  {
    OutstandingMeans(events, n, events[n].query.tid);
  }

  // ---- Transaction ids

  /** (tid_t)next_t for the n-th query created: the low 16 bits of the counter. */
  function TidAt(nextT: int): uint16 {
    nextT % 0x1_0000
  }

  /** Queries get different ids until 65536 of them have been created; then the ids repeat. */
  lemma TidsRepeat(nextT: int, n: nat)
    ensures TidAt(nextT) == TidAt(nextT + n) <==> n % 0x1_0000 == 0
  {
  }

  class Client {
    const pending: PendingResponses
    var nextT: int

    ghost predicate Valid()
      reads this, pending, pending.hashmap, pending.hashmap.Repr
    {
      pending.Valid() && this !in pending.hashmap.Repr
    }

    constructor ()
      ensures Valid() && pending.Outstanding() == map[] && nextT == 0
    {
      pending := new PendingResponses();
      nextT := 0;
    }

    /** Message_CreateQuery: the next transaction id. */
    method CreateQuery(kind: QueryType, to: Hash, context: Context, isNew: bool) returns (q: Query)
      modifies this
      ensures q == Query(kind, TidAt(old(nextT)), to, context, isNew) && nextT == old(nextT) + 1
      ensures Valid() == old(Valid())
    {
      q := Query(kind, nextT % 0x1_0000, to, context, isNew);
      nextT := nextT + 1;
    }

    /** SendMessage, once the query has been sent. */
    method SentQuery(q: Query) returns (rc: int)
      requires Valid()
      modifies pending.hashmap.Repr
      ensures Valid()
      ensures var (p, outcome) := Step(old(pending.Outstanding()), Sent(q));
        pending.Outstanding() == p && rc == if outcome == Accepted then 0 else -1
      ensures rc == 0 ==> q.tid in pending.Outstanding()
      ensures rc == 0 ==>
        var entry := pending.Outstanding()[q.tid];
        && entry.tid == q.tid && entry.id == q.to && entry.context == q.context && entry.isNew == q.isNew
        && (q.kind == QPing ==> entry.kind == RPing) && (q.kind == QFindNode ==> entry.kind == RFindNode)
        && (q.kind == QGetPeers ==> entry.kind == RGetPeers)
        && (q.kind == QAnnouncePeer ==> entry.kind == RAnnouncePeer)
    {
      var entry := PendingResponse(AsReply(q.kind), q.tid, q.to, q.context, q.isNew);
      rc := pending.Add(entry);
    }

    /** The lookup in DecodeResponse. */
    method MatchReply(tid: uint16, id: Hash) returns (outcome: Outcome)
      requires Valid()
      modifies pending.hashmap.Repr
      ensures Valid()
      ensures (pending.Outstanding(), outcome) == Step(old(pending.Outstanding()), Reply(tid, id))
    {
      var entry := pending.Remove(tid);
      outcome := if entry.None? then Unmatched else Matched(entry.value, id != entry.value.id && !entry.value.isNew);
      assert tid !in old(pending.Outstanding()) ==> old(pending.Outstanding()) - {tid} == old(pending.Outstanding());
    }
  }
}
