/** src/message_create.c: queries and the replies to them, and what becomes of both on the way. */
module MessageCreate {
  import opened Bytes
  import opened Hashes
  import opened Nodes
  import opened DArrays
  import opened PeersModule
  import opened Messages
  import opened PendingModule
  import Queries
  import opened Bencode
  import opened Wire
  import opened DecodeSpec
  import opened RoundTrip
  import ProtocolEnc

  /** The two bytes of a transaction id in memory. */
  function TidBytes(tid: uint16): (t: seq<byte>)
    ensures |t| == 2 && TidOf(t) == tid
  {
    [tid % 0x100, tid / 0x100]
  }

  /** The transaction id of a query is the low two bytes of the counter, the lowest first. */
  lemma TidOnWire(nextT: int)
    ensures TidBytes(Queries.TidAt(nextT)) == [nextT % 0x100, nextT / 0x100 % 0x100]
  {
    var high, rest := nextT / 0x1_0000, nextT % 0x1_0000;
    assert nextT == 0x1_0000 * high + rest;
    assert nextT / 0x100 == 0x100 * high + rest / 0x100;
  }

  /** Message_CreateQuery and the data that its callers put in. */
  function CreateQuery(clientId: Hash, nextT: int, kind: QueryType, data: MData): Msg {
    Msg(kind, {}, TidBytes(Queries.TidAt(nextT)), clientId, 0, data)
  }

  /** Message_CreateResponse: the transaction id is that of the query. */
  function CreateResponse(clientId: Hash, query: Msg, kind: MessageType): Msg
    requires |query.t| > 0 && !IsQuery(kind)
  {
    Msg(kind, {}, query.t, clientId, 0, NoData)
  }

  ghost predicate AllThere<T>(list: DArray?<T>)
    reads list, if list == null then {} else {list.contents}
  {
    list != null ==> list.Valid() && forall i :: 0 <= i < list.end ==> list.Items()[i].Some?
  }

  ghost function Values<T>(items: seq<Option<T>>): seq<T>
    requires forall i :: 0 <= i < |items| ==> items[i].Some?
  {
    seq(|items|, i requires 0 <= i < |items| => items[i].value)
  }

  function ContactOfNode(node: Node): Contact
    reads node
  {
    Contact(node.id, node.addr, node.port)
  }

  /** Message_CreateRGetPeers: None unless there are either peers or nodes; the reply lists all of them in order. */
  method CreateRGetPeers(clientId: Hash, query: Msg, peers: DArray?<Peer>, nodes: DArray?<Node>, token: Hash)
      returns (r: Option<Msg>)
    requires |query.t| > 0 && AllThere(peers) && AllThere(nodes)
    ensures r.None? <==> (peers == null <==> nodes == null)
    ensures r.Some? ==> r.value.(data := NoData) == CreateResponse(clientId, query, RGetPeers) && HasBytes(r.value)
    ensures r.Some? ==> r.value.data.token == token
    ensures r.Some? ==>
      r.value.kind == RGetPeers && r.value.t == query.t && r.value.id == clientId && r.value.errors == {}
    ensures r.Some? && peers != null ==>
      r.value.data.values == Some(Values(peers.Items())) && r.value.data.nodes == None
    ensures r.Some? && peers == null ==>
      && r.value.data.values == None && r.value.data.nodes.Some? && |r.value.data.nodes.value| == nodes.end
      && forall i :: 0 <= i < nodes.end ==> r.value.data.nodes.value[i] == ContactOfNode(nodes.Items()[i].value)
  {
    if peers == null && nodes == null {
      return None;
    }
    if peers != null && nodes != null {
      return None;
    }
    var message := CreateResponse(clientId, query, RGetPeers);
    if peers != null {
      var values: seq<Peer> := [];
      for i := 0 to peers.end
        invariant values == Values(peers.Items())[..i]
      {
        var peer := peers.Get(i);
        assert peer == peers.Items()[i];
        values := values + [peer.value];
      }
      assert Values(peers.Items())[..peers.end] == Values(peers.Items());
      return Some(message.(data := RGetPeersData(token, None, Some(values))));
    }
    var found: seq<Contact> := [];
    for i := 0 to nodes.end
      invariant |found| == i && forall k :: 0 <= k < i ==> found[k] == ContactOfNode(nodes.Items()[k].value)
    {
      var node := nodes.Get(i);
      assert node == nodes.Items()[i];
      found := found + [ContactOfNode(node.value)];
    }
    return Some(message.(data := RGetPeersData(token, Some(found), None)));
  }

  /**
    One whole exchange. A query is created, its entry stored, and its bytes are decoded by the node it is
    sent to; that node creates a reply of the matching type, whose bytes are decoded by the sender of the
    query. Both messages arrive without error bits. The reply gets the context that was stored with the
    query, and afterwards the same queries are outstanding as before.
   */
  lemma Exchange(clientId: Hash, nextT: int, kind: QueryType, question: MData, to: Hash, context: Context, isNew: bool,
                 pending: Pending, theirs: Pending, responder: Hash, answer: MData)
    requires var q := CreateQuery(clientId, nextT, kind, question);
      HasBytes(q) && Printable(q)
    requires var reply := CreateResponse(responder, CreateQuery(clientId, nextT, kind, question),
      AsReply(kind)).(data := answer);
      HasBytes(reply) && Printable(reply)
    requires Queries.TidAt(nextT) !in pending && (to == responder || isNew)
    ensures var q := CreateQuery(clientId, nextT, kind, question);
      var asked := DecodedMessage(Enc(TreeOf(q)), theirs);
      && asked == (Returned(q), theirs)
      && var reply := CreateResponse(responder, asked.0.m, AsReply(kind)).(data := answer);
         var query := Queries.Query(kind, Queries.TidAt(nextT), to, context, isNew);
         var (open, sent) := Queries.Step(pending, Queries.Sent(query));
         && sent == Queries.Accepted
         && DecodedMessage(Enc(TreeOf(reply)), open) == (Returned(Delivered(reply, context)), pending)
  {
    var q := CreateQuery(clientId, nextT, kind, question);
    var tid := Queries.TidAt(nextT);
    var reply := CreateResponse(responder, q, AsReply(kind)).(data := answer);
    var open := pending[tid := Queries.EntryOf(Queries.Query(kind, tid, to, context, isNew))];
    assert open - {tid} == pending;
    assert Delivered(q, 0) == q;
    assert Answers(reply, open);
    hide Enc, DecodedMessage, TreeOf, Delivered;
    assert Enc(TreeOf(q)) + [] == Enc(TreeOf(q)) && Enc(TreeOf(reply)) + [] == Enc(TreeOf(reply));
    DecodingUndoesEncoding(q, [], theirs);
    DecodingUndoesEncoding(reply, [], open);
  }

  // ---- One exchange for each method, with the messages written out

  /** Who asks whom, with the counter of transaction ids and what is remembered of the question. */
  datatype Setting = Setting(clientId: Hash, nextT: int, to: Hash, context: Context, isNew: bool, responder: Hash)

  /** The transaction id is not outstanding, and the node asked is the one that answers, or a new one. */
  predicate Ready(x: Setting, pending: Pending) {
    Queries.TidAt(x.nextT) !in pending && (x.to == x.responder || x.isNew)
  }

  /** The queries that are outstanding once a query has been sent. */
  function Sent(x: Setting, kind: QueryType, pending: Pending): Pending {
    Queries.Step(pending, Queries.Sent(Queries.Query(kind, Queries.TidAt(x.nextT), x.to, x.context, x.isNew))).0
  }

  /** The bytes of one message are decoded to the other, and before becomes after. */
  ghost predicate ArrivesAs(sent: Msg, got: Msg, before: Pending, after: Pending)
    requires HasBytes(sent)
  {
    DecodedMessage(Enc(TreeOf(sent)), before) == (Returned(got), after)
  }

  lemma PingExchange(x: Setting, pending: Pending, theirs: Pending)
    requires Ready(x, pending)
    ensures var t := [x.nextT % 0x100, x.nextT / 0x100 % 0x100];
      var q := Msg(QPing, {}, t, x.clientId, 0, NoData);
      var r := Msg(RPing, {}, t, x.responder, 0, NoData);
      && q == CreateQuery(x.clientId, x.nextT, QPing, q.data)
      && r == CreateResponse(x.responder, q, RPing).(data := r.data)
      && ArrivesAs(q, q, theirs, theirs)
      && ArrivesAs(r, r.(context := x.context), Sent(x, QPing, pending), pending)
  {
    var question, answer := NoData, NoData;
    Exchange(x.clientId, x.nextT, QPing, question, x.to, x.context, x.isNew, pending, theirs, x.responder, answer);
    TidOnWire(x.nextT);
    hide Enc, DecodedMessage, TreeOf;
  }

  lemma FindNodeExchange(x: Setting, pending: Pending, theirs: Pending, target: Hash, found: seq<Contact>)
    requires Ready(x, pending)
    requires |found| * COMPACTNODE_BYTES < 100000
    ensures var t := [x.nextT % 0x100, x.nextT / 0x100 % 0x100];
      var q := Msg(QFindNode, {}, t, x.clientId, 0, QFindNodeData(target));
      var r := Msg(RFindNode, {}, t, x.responder, 0, RFindNodeData(found));
      && q == CreateQuery(x.clientId, x.nextT, QFindNode, q.data)
      && r == CreateResponse(x.responder, q, RFindNode).(data := r.data)
      && ArrivesAs(q, q, theirs, theirs)
      && ArrivesAs(r, r.(context := x.context), Sent(x, QFindNode, pending), pending)
  {
    var question, answer := QFindNodeData(target), RFindNodeData(found);
    Exchange(x.clientId, x.nextT, QFindNode, question, x.to, x.context, x.isNew, pending, theirs, x.responder, answer);
    TidOnWire(x.nextT);
    hide Enc, DecodedMessage, TreeOf;
  }

  lemma GetPeersValuesExchange(x: Setting, pending: Pending, theirs: Pending,
    infoHash: Hash, token: seq<byte>, values: seq<Peer>)
    requires Ready(x, pending)
    requires |token| < 100000 && |values| <= MAXPEERS
    ensures var t := [x.nextT % 0x100, x.nextT / 0x100 % 0x100];
      var q := Msg(QGetPeers, {}, t, x.clientId, 0, QGetPeersData(infoHash));
      var r := Msg(RGetPeers, {}, t, x.responder, 0, RGetPeersData(token, None, Some(values)));
      && q == CreateQuery(x.clientId, x.nextT, QGetPeers, q.data)
      && r == CreateResponse(x.responder, q, RGetPeers).(data := r.data)
      && ArrivesAs(q, q, theirs, theirs)
      && ArrivesAs(r, r.(context := x.context), Sent(x, QGetPeers, pending), pending)
  {
    var question, answer := QGetPeersData(infoHash), RGetPeersData(token, None, Some(values));
    Exchange(x.clientId, x.nextT, QGetPeers, question, x.to, x.context, x.isNew, pending, theirs, x.responder, answer);
    TidOnWire(x.nextT);
    hide Enc, DecodedMessage, TreeOf;
  }

  lemma GetPeersNodesExchange(x: Setting, pending: Pending, theirs: Pending,
    infoHash: Hash, token: seq<byte>, nodes: seq<Contact>)
    requires Ready(x, pending)
    requires |token| < 100000 && |nodes| * COMPACTNODE_BYTES < 100000
    ensures var t := [x.nextT % 0x100, x.nextT / 0x100 % 0x100];
      var q := Msg(QGetPeers, {}, t, x.clientId, 0, QGetPeersData(infoHash));
      var r := Msg(RGetPeers, {}, t, x.responder, 0, RGetPeersData(token, Some(nodes), None));
      && q == CreateQuery(x.clientId, x.nextT, QGetPeers, q.data)
      && r == CreateResponse(x.responder, q, RGetPeers).(data := r.data)
      && ArrivesAs(q, q, theirs, theirs)
      && ArrivesAs(r, r.(context := x.context), Sent(x, QGetPeers, pending), pending)
  {
    var question, answer := QGetPeersData(infoHash), RGetPeersData(token, Some(nodes), None);
    Exchange(x.clientId, x.nextT, QGetPeers, question, x.to, x.context, x.isNew, pending, theirs, x.responder, answer);
    TidOnWire(x.nextT);
    hide Enc, DecodedMessage, TreeOf;
  }

  lemma AnnouncePeerExchange(x: Setting, pending: Pending, theirs: Pending,
    infoHash: Hash, port: uint16, token: seq<byte>)
    requires Ready(x, pending)
    requires |token| < 100000
    ensures var t := [x.nextT % 0x100, x.nextT / 0x100 % 0x100];
      var q := Msg(QAnnouncePeer, {}, t, x.clientId, 0, QAnnouncePeerData(infoHash, port, token));
      var r := Msg(RAnnouncePeer, {}, t, x.responder, 0, NoData);
      && q == CreateQuery(x.clientId, x.nextT, QAnnouncePeer, q.data)
      && r == CreateResponse(x.responder, q, RAnnouncePeer).(data := r.data)
      && ArrivesAs(q, q, theirs, theirs)
      && ArrivesAs(r, r.(context := x.context), Sent(x, QAnnouncePeer, pending), pending)
  {
    var question, answer := QAnnouncePeerData(infoHash, port, token), NoData;
    Exchange(x.clientId, x.nextT, QAnnouncePeer, question, x.to, x.context, x.isNew, pending, theirs, x.responder,
             answer);
    TidOnWire(x.nextT);
    hide Enc, DecodedMessage, TreeOf;
  }

  /**
    A get_peers reply to any query fits a datagram as long as the transaction id of the query is not longer
    than 1931 bytes.
   */
  lemma CreatedReplyFits(clientId: Hash, query: Msg, values: seq<Peer>, token: Hash)
    requires 0 < |query.t| <= 1931 && |values| <= MAXPEERS
    ensures var m := CreateResponse(clientId, query, RGetPeers).(data := RGetPeersData(token, None, Some(values)));
      HasBytes(m) && Printable(m) && |Enc(TreeOf(m))| <= ProtocolEnc.UDPBUFLEN
  {
    hide Enc;
    var reply := CreateResponse(clientId, query, RGetPeers);
    ProtocolEnc.FullGetPeersReplyFits(reply.(data := RGetPeersData(token, None, Some(values))));
  }
}
