/** src/protocol_dec.c: a message is filled in field by field from a decoded dictionary. */
module ProtocolDec {
  import opened Bytes
  import opened Hashes
  import opened PeersModule
  import opened Messages
  import opened PendingModule
  import opened Decimal
  import opened Bencode
  import opened BencodeProofs
  import opened KeyOrder
  import opened Reading
  import opened BDecoder
  import opened Wire
  import opened DecodeSpec

  /** What is under a key of a decodable dictionary is decodable, and so is what is in a decodable list. */
  lemma {:induction false} LookupEncodable(nodes: seq<BNode>, key: seq<byte>)
    requires forall k :: 0 <= k < |nodes| ==> Encodable(nodes[k])
    ensures Lookup(nodes, key).Some? ==> Encodable(Lookup(nodes, key).value)
  {
    if |nodes| >= 2 && nodes[0] != BString(key) {
      LookupEncodable(nodes[2..], key);
    }
  }

  /** A search in a decodable node, which may turn out not to be a dictionary. */
  method Find(dict: BNode, key: string) returns (value: Option<BNode>)
    requires Encodable(dict)
    ensures value == Value(dict, Ascii(key)) && (value.Some? ==> Encodable(value.value))
  {
    hide CompareKeys;
    value := GetValue(dict, Ascii(key));
    if dict.BDictionary? {
      LookupEncodable(dict.nodes, Ascii(key));
    }
  }

  /** A string of the length of a hash. */
  predicate IsHashNode(node: Option<BNode>) {
    node.Some? && node.value.BString? && |node.value.str| == HASH_BYTES
  }

  class Message {
    var kind: MessageType
    var errors: set<MError>
    var t: seq<byte>
    var id: Hash
    var context: Context
    var data: MData

    function View(): Msg
      reads this
    {
      Msg(kind, errors, t, id, context, data)
    }

    /** calloc */
    constructor ()
      ensures View() == Blank()
    {
      kind, errors, t, id, context, data := MUnknown, {}, [], ZeroHash(), 0, NoData;
    }

    method SetQueryType(dict: BNode)
      requires Encodable(dict)
      modifies this
      ensures var k := QueryKind(dict);
        View() == old(View()).(kind := k, errors := old(errors) + Flag(k == MUnknown, INVALID_QUERY_TYPE))
    {
      hide Ascii, Lookup, Encodable;
      var qVal := Find(dict, "q");
      if qVal.Some? && qVal.value.BString? {
        if qVal.value.str == Ascii("ping") {
          kind := QPing;
          return;
        }
        if qVal.value.str == Ascii("find_node") {
          kind := QFindNode;
          return;
        }
        if qVal.value.str == Ascii("get_peers") {
          kind := QGetPeers;
          return;
        }
        if qVal.value.str == Ascii("announce_peer") {
          kind := QAnnouncePeer;
          return;
        }
      }
      kind := MUnknown;
      errors := errors + {INVALID_QUERY_TYPE};
    }

    method SetTransactionId(dict: BNode)
      requires Encodable(dict)
      modifies this
      ensures var s := StringAt(dict, "t");
        View() == old(View()).(t := OrEmpty(s), errors := old(errors) + Flag(s.None?, INVALID_TID))
    {
      hide Ascii, Lookup, Encodable;
      var tVal := Find(dict, "t");
      if tVal.None? || !tVal.value.BString? {
        t := [];
        errors := errors + {INVALID_TID};
        return;
      }
      t := tVal.value.str;
    }

    /** SetQueryId and SetResponseId, which differ in the key of the arguments. */
    method SetId(dict: BNode, key: string)
      requires Encodable(dict)
      modifies this
      ensures var s := SenderId(dict, key);
        View() == old(View()).(id := if s.Some? then s.value else old(id),
                               errors := old(errors) + Flag(s.None?, INVALID_NODE_ID))
    {
      hide Ascii, Lookup, Encodable;
      var arguments := Find(dict, key);
      if arguments.None? || !arguments.value.BDictionary? {
        errors := errors + {INVALID_NODE_ID};
        return;
      }
      var idVal := Find(arguments.value, "id");
      if !IsHashNode(idVal) {
        errors := errors + {INVALID_NODE_ID};
        return;
      }
      id := idVal.value.str;
    }

    /** SetQueryData, whose caller has to see to it that the message is a query. */
    method SetQueryData(dict: BNode)
      requires Encodable(dict) && IsQuery(kind)
      modifies this
      ensures var args := DictAt(dict, "a");
        View() == if old(errors) != {} || old(kind) == QPing then old(View())
          else match (if args.None? then None else QueryData(old(kind), args.value))
            case None => Invalid(old(View()))
            case Some(d) => old(View()).(data := d)
    {
      hide Ascii, Lookup, Encodable;
      if errors != {} {
        return;
      }
      if kind == QPing {
        return;
      }
      var arguments := Find(dict, "a");
      if arguments.None? || !arguments.value.BDictionary? {
        errors := errors + {INVALID_DATA};
        return;
      }
      match kind
      case QFindNode => SetQueryFindNodeData(arguments.value);
      case QGetPeers => SetQueryGetPeersData(arguments.value);
      case QAnnouncePeer => SetQueryAnnouncePeerData(arguments.value);
    }

    /** The data of the query, or an error. */
    twostate predicate DataSet(args: BNode)
      requires IsQuery(old(kind))
      reads this
    {
      View() == match QueryData(old(kind), args)
        case None => Invalid(old(View()))
        case Some(d) => old(View()).(data := d)
    }

    method SetQueryFindNodeData(arguments: BNode)
      requires Encodable(arguments) && kind == QFindNode
      modifies this
      ensures DataSet(arguments)
    {
      hide Ascii, Lookup, Encodable;
      var target := Find(arguments, "target");
      if !IsHashNode(target) {
        errors := errors + {INVALID_DATA};
        return;
      }
      data := QFindNodeData(target.value.str);
    }

    method SetQueryGetPeersData(arguments: BNode)
      requires Encodable(arguments) && kind == QGetPeers
      modifies this
      ensures DataSet(arguments)
    {
      hide Ascii, Lookup, Encodable;
      var infoHash := Find(arguments, "info_hash");
      if !IsHashNode(infoHash) {
        errors := errors + {INVALID_DATA};
        return;
      }
      data := QGetPeersData(infoHash.value.str);
    }

    method SetQueryAnnouncePeerData(arguments: BNode)
      requires Encodable(arguments) && kind == QAnnouncePeer
      modifies this
      ensures DataSet(arguments)
      ensures var infoHash, token := Value(arguments, Ascii("info_hash")), Value(arguments, Ascii("token"));
        var port := Value(arguments, Ascii("port"));
        if && infoHash.Some? && infoHash.value.BString? && |infoHash.value.str| == 20
           && port.Some? && port.value.BInteger? && 0 <= port.value.integer <= 0xffff
           && token.Some? && token.value.BString?
        then data == QAnnouncePeerData(infoHash.value.str, port.value.integer, token.value.str) && errors == old(errors)
        else data == old(data) && errors == old(errors) + {INVALID_DATA}
    {
      hide Ascii, Lookup, Encodable;
      var infoHash := Find(arguments, "info_hash");
      if !IsHashNode(infoHash) {
        errors := errors + {INVALID_DATA};
        return;
      }
      var port := Find(arguments, "port");
      if port.None? || !port.value.BInteger? || port.value.integer < 0 || port.value.integer > 0xffff {
        errors := errors + {INVALID_DATA};
        return;
      }
      var token := Find(arguments, "token");
      if token.None? || !token.value.BString? {
        errors := errors + {INVALID_DATA};
        return;
      }
      data := QAnnouncePeerData(infoHash.value.str, port.value.integer, token.value.str);
    }

    /** DecodeQuery: false is the assertion in SetQueryData that stops it for an unknown method. */
    method DecodeQuery(dict: BNode) returns (passed: bool)
      requires Encodable(dict) && View() == Blank()
      modifies this
      ensures DecodedQuery(dict) == if passed then Returned(View()) else Aborted
    {
      hide Ascii, Lookup, Encodable, QueryData;
      SetQueryType(dict);
      SetId(dict, "a");
      SetTransactionId(dict);
      if !IsQuery(kind) {
        return false;
      }
      assert errors == Flag(SenderId(dict, "a").None?, INVALID_NODE_ID) + Flag(StringAt(dict, "t").None?, INVALID_TID);
      PingData(DictAt(dict, "a"));
      SetQueryData(dict);
      return true;
    }

    method SetCompactNodeInfo(nodes: seq<byte>)
      requires kind == RFindNode || (kind == RGetPeers && data.RGetPeersData?)
      requires kind == RFindNode ==> !data.RGetPeersData?
      modifies this
      ensures View() == WithNodes(old(View()), nodes)
    {
      if |nodes| % COMPACTNODE_BYTES != 0 {
        errors := errors + {INVALID_DATA};
        return;
      }
      var count := |nodes| / COMPACTNODE_BYTES;
      var found, i, at := [], 0, 0;
      while i < count
        invariant View() == old(View()) && 0 <= i <= count && at == i * COMPACTNODE_BYTES
          && found == NodesOf(nodes)[..i]
      {
        assert (i + 1) * COMPACTNODE_BYTES <= |nodes|;
        var node := Contact(nodes[at..at + 20], FromBe4(nodes[at + 20..at + 24]), FromBe2(nodes[at + 24..at + 26]));
        ReadContact(nodes, i);
        found := found + [node];
        i, at := i + 1, at + COMPACTNODE_BYTES;
      }
      assert NodesOf(nodes)[..count] == NodesOf(nodes);
      if kind == RFindNode {
        data := RFindNodeData(found);
      } else {
        data := RGetPeersData(data.token, Some(found), data.values);
      }
    }

    method SetCompactPeerInfo(list: seq<BNode>)
      requires kind == RGetPeers && data.RGetPeersData?
      modifies this
      ensures View() == WithPeers(old(View()), list)
    {
      PeersUpToMeaning(list, 0);
      ghost var n := PeersUpTo(list, 0);
      var values := seq(|list|, _ => Peer(0, 0));
      var i := 0;
      while i < |list|
        invariant View() == old(View()) && 0 <= i <= n && values == PeersRead(list, i)
      {
        if !IsPeer(list[i]) {
          errors := errors + {INVALID_DATA};
          data := RGetPeersData(data.token, data.nodes, Some(values));
          return;
        }
        values := values[i := Peer(FromBe4(list[i].str[..4]), FromBe2(list[i].str[4..]))];
        i := i + 1;
      }
      data := RGetPeersData(data.token, data.nodes, Some(values));
    }

    method SetResponseFindNodeData(arguments: BNode)
      requires Encodable(arguments) && kind == RFindNode && data.NoData?
      modifies this
      ensures View() == WithFindNodeData(old(View()), arguments)
    {
      hide Ascii, Lookup, Encodable;
      var nodes := Find(arguments, "nodes");
      if nodes.None? || !nodes.value.BString? {
        errors := errors + {INVALID_DATA};
        return;
      }
      SetCompactNodeInfo(nodes.value.str);
    }

    method SetResponseGetPeersData(arguments: BNode)
      requires Encodable(arguments) && kind == RGetPeers
      modifies this
      ensures View() == WithGetPeersData(old(View()), arguments)
    {
      hide Ascii, Lookup, Encodable;
      var token := Find(arguments, "token");
      if token.None? || !token.value.BString? {
        errors := errors + {INVALID_DATA};
        return;
      }
      data := RGetPeersData(token.value.str, None, None);
      var values := Find(arguments, "values");
      var nodes := Find(arguments, "nodes");
      if values.Some? && nodes.Some? {
        errors := errors + {INVALID_DATA};
      } else if values.Some? && values.value.BList? {
        SetCompactPeerInfo(values.value.nodes);
      } else if nodes.Some? && nodes.value.BString? {
        SetCompactNodeInfo(nodes.value.str);
      } else {
        errors := errors + {INVALID_DATA};
      }
    }

    /** SetResponseData: 0 or -1, for a message that is a reply. */
    method SetResponseData(dict: BNode) returns (rc: int)
      requires Encodable(dict) && IsReply(kind) && data.NoData?
      modifies this
      ensures WithResponseData(old(View()), DictAt(dict, "r")) == if rc == 0 then Returned(View()) else Null
    {
      hide Ascii, Lookup, Encodable, WithGetPeersData, WithFindNodeData;
      if kind == RPing || kind == RAnnouncePeer {
        return 0;
      }
      var arguments := Find(dict, "r");
      if arguments.None? || !arguments.value.BDictionary? {
        errors := errors + {INVALID_DATA};
        return 0;
      }
      match kind
      case RFindNode =>
        SetResponseFindNodeData(arguments.value);
        return 0;
      case RGetPeers =>
        SetResponseGetPeersData(arguments.value);
        return 0;
      case _ => return -1;
    }

    /** The beginning of DecodeResponse: transaction id and sender id. */
    method SetReplyIds(dict: BNode)
      requires Encodable(dict) && View() == Blank()
      modifies this
      ensures t == OrEmpty(StringAt(dict, "t"))
      ensures View() == Msg(MUnknown, Flag(|t| != 2, INVALID_TID) + Flag(SenderId(dict, "r").None?, INVALID_NODE_ID),
                            t, OrZero(SenderId(dict, "r")), 0, NoData)
    {
      hide Ascii, Lookup, Encodable, SenderId, StringAt, DictAt;
      SetTransactionId(dict);
      if |t| != 2 {
        errors := errors + {INVALID_TID};
      }
      SetId(dict, "r");
      assert errors == Flag(|t| != 2, INVALID_TID) + Flag(SenderId(dict, "r").None?, INVALID_NODE_ID);
    }

    /** The rest of DecodeResponse, once the entry of the query has been found. */
    method SetMatched(dict: BNode, entry: PendingResponse) returns (rc: Option<int>)
      requires Encodable(dict)
      requires View() == Msg(MUnknown, Flag(|t| != 2, INVALID_TID) + Flag(SenderId(dict, "r").None?, INVALID_NODE_ID),
                             t, OrZero(SenderId(dict, "r")), 0, NoData)
      modifies this
      ensures WithResponseData(ReplyFrom(entry, SenderId(dict, "r"), old(t)), DictAt(dict, "r")) ==
        if rc == None then Aborted else if rc == Some(0) then Returned(View()) else Null
    {
      hide Ascii, Lookup, Encodable, WithResponseData, SenderId;
      if id != entry.id && !entry.isNew {
        errors := errors + {INVALID_NODE_ID};
      }
      kind := entry.kind;
      context := entry.context;
      assert View() == ReplyFrom(entry, SenderId(dict, "r"), t);
      if !IsReply(kind) {
        NotAReply(View(), DictAt(dict, "r"));
        return None;
      }
      var ok := SetResponseData(dict);
      return Some(ok);
    }

    /**
      DecodeResponse: the entry of the query is consumed; rc is None when the source does not get past its
      assertions.
     */
    method DecodeResponse(dict: BNode, pending: PendingResponses) returns (rc: Option<int>)
      requires Encodable(dict) && View() == Blank() && pending.Valid() && this !in pending.hashmap.Repr
      modifies this, pending.hashmap.Repr
      ensures pending.Valid() && fresh(pending.hashmap.Repr - old(pending.hashmap.Repr))
      ensures DecodedReply(dict, old(pending.Outstanding())) ==
        (if rc == None then Aborted else if rc == Some(0) then Returned(View()) else Null, pending.Outstanding())
    {
      hide Ascii, Lookup, Encodable, WithResponseData, ReplyFrom, SenderId, StringAt, DictAt, TidOf;
      ghost var before := pending.Outstanding();
      SetReplyIds(dict);
      if |t| < 2 {
        return None;
      }
      var tid := TidOf(t[..2]);
      var entry := pending.Remove(tid);
      if entry.None? {
        assert before - {tid} == before;
        return None;
      }
      rc := SetMatched(dict, entry.value);
    }

    /** DecodeError: 0 or -1. */
    method DecodeError(dict: BNode) returns (rc: int)
      requires Encodable(dict) && View() == Blank()
      modifies this
      ensures DecodedError(dict) == if rc == 0 then Returned(View()) else Null
    {
      hide Ascii, Lookup, Encodable;
      kind, data := RError, RErrorData(0, None);
      SetTransactionId(dict);
      var eVal := Find(dict, "e");
      if eVal.None? {
        return -1;
      }
      if !eVal.value.BList? {
        return -1;
      }
      if |eVal.value.nodes| != 2 {
        errors := errors + {INVALID_DATA};
        return 0;
      }
      var code, errorMsg := eVal.value.nodes[0], eVal.value.nodes[1];
      if code.BInteger? {
        data := RErrorData(ToInt(code.integer), data.message);
      } else {
        errors := errors + {INVALID_DATA};
      }
      if errorMsg.BString? {
        data := RErrorData(data.code, Some(errorMsg.str));
      } else {
        errors := errors + {INVALID_DATA};
      }
      return 0;
    }
  }

  lemma PingData(args: Option<BNode>)
    ensures args.Some? ==> QueryData(QPing, args.value) == Some(NoData)
  {
  }

  lemma NotAReply(m: Msg, args: Option<BNode>)
    requires !IsReply(m.kind)
    ensures WithResponseData(m, args) == Aborted
  {
  }

  lemma ReadContact(nodes: seq<byte>, i: nat)
    requires |nodes| % COMPACTNODE_BYTES == 0 && i < |nodes| / COMPACTNODE_BYTES
    ensures (i + 1) * COMPACTNODE_BYTES <= |nodes|
    ensures var at := i * COMPACTNODE_BYTES;
      NodesOf(nodes)[i] == Contact(nodes[at..at + 20], FromBe4(nodes[at + 20..at + 24]),
        FromBe2(nodes[at + 24..at + 26]))
  {
    var at := i * COMPACTNODE_BYTES;
    var s := nodes[at..at + COMPACTNODE_BYTES];
    hide FromBe4, FromBe2;
    assert s[..20] == nodes[at..at + 20] && s[20..24] == nodes[at + 20..at + 24]
      && s[24..26] == nodes[at + 24..at + 26];
  }

  /** How a call of Message_Decode ends. */
  datatype Outcome = Decoded(message: Message) | Failed | Stopped | RanAway

  ghost function ViewOf(outcome: Outcome): DecodeSpec.Decoded
    reads if outcome.Decoded? then {outcome.message} else {}
  {
    match outcome
    case Decoded(message) => Returned(message.View())
    case Failed => Null
    case Stopped => Aborted
    case RanAway => Strayed
  }

  /** GetMessageType */
  method GetMessageType(dict: BNode) returns (y: byte)
    requires Encodable(dict)
    ensures y == MessageKind(dict)
  {
    hide Ascii, Lookup, Encodable;
    var yVal := Find(dict, "y");
    if yVal.None? || !yVal.value.BString? || |yVal.value.str| != 1 {
      return 0;
    }
    return yVal.value.str[0];
  }

  /** Everything that is read is a tree whose dictionaries are in order, also where it is longer than the input. */
  lemma ReadIsEncodable(s: seq<byte>, next: Option<byte>)
    ensures Read(s, next).Tree? ==> Encodable(Read(s, next).value)
  {
    if Read(s, next).Tree? {
      var t, n := Read(s, next).value, Read(s, next).len;
      ReadExactly(s, next, t, n);
      hide Read, Encodes, Encodable;
      if n <= |s| {
        EncodesEncodable(t, s[..n]);
      } else {
        EncodesEncodable(t, s + END);
      }
    }
  }

  /** Message_Decode on the first len bytes of a buffer, whatever the buffer holds behind them. */
  method MessageDecode(buf: seq<byte>, len: nat, pending: PendingResponses) returns (outcome: Outcome)
    requires len <= |buf| && pending.Valid()
    modifies pending.hashmap.Repr
    ensures pending.Valid() && fresh(pending.hashmap.Repr - old(pending.hashmap.Repr))
    ensures outcome.Decoded? ==> fresh(outcome.message)
    ensures (ViewOf(outcome), pending.Outstanding())
      == DecodedDatagram(buf[..len], Next(buf, len), old(pending.Outstanding()))
  {
    hide Ascii, Lookup, Encodable, Read, DecodedQuery, DecodedReply, DecodedError;
    var message := new Message();
    var dict, ranOut := BDecode(buf, 0, len);
    assert Input(buf, 0, len) == buf[..len];
    ReadIsEncodable(buf[..len], Next(buf, len));
    if dict.Overread? {
      return RanAway;
    }
    if dict.NoTree? || !dict.value.BDictionary? {
      message.kind := MUnknown;
      message.errors := message.errors + {UNKNOWN_TYPE};
      assert message.errors == {UNKNOWN_TYPE};
      return Decoded(message);
    }
    var y := GetMessageType(dict.value);
    if y == 'q' as int {
      var passed := message.DecodeQuery(dict.value);
      outcome := if passed then Decoded(message) else Stopped;
    } else if y == 'r' as int {
      var rc := message.DecodeResponse(dict.value, pending);
      outcome := match rc case None => Stopped case Some(n) => if n == 0 then Decoded(message) else Failed;
    } else if y == 'e' as int {
      var rc := message.DecodeError(dict.value);
      outcome := if rc == 0 then Decoded(message) else Failed;
    } else {
      message.errors := message.errors + {UNKNOWN_TYPE};
      assert message.errors == {UNKNOWN_TYPE};
      outcome := Decoded(message);
    }
  }
}
