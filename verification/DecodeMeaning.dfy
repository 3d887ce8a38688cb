/** What each kind of message must contain, in terms of the values under its keys, and what is then read from it. */
module DecodeMeaning {
  import opened Bytes
  import opened Hashes
  import opened PeersModule
  import opened Messages
  import opened Decimal
  import opened Bencode
  import opened KeyOrder
  import PendingModule
  import opened Wire
  import opened DecodeSpec
  import opened RoundTrip
  import D = DecodeProofs

  /** A string of n bytes. */
  predicate IsStringOf(value: Option<BNode>, n: nat) {
    value.Some? && value.value.BString? && |value.value.str| == n
  }

  predicate IsString(value: Option<BNode>) {
    value.Some? && value.value.BString?
  }

  /** The dictionary of arguments. */
  predicate HasArguments(dict: BNode, key: string) {
    Value(dict, Ascii(key)).Some? && Value(dict, Ascii(key)).value.BDictionary?
  }

  /** A transaction id, and arguments with an id of 20 bytes. */
  predicate HasIds(dict: BNode) {
    && IsString(Value(dict, Ascii("t"))) && HasArguments(dict, "a")
    && IsStringOf(Value(Value(dict, Ascii("a")).value, Ascii("id")), 20)
  }

  /** The method string of a query decides its type. */
  lemma MethodKinds(dict: BNode)
    ensures var q := Value(dict, Ascii("q"));
      && (QueryKind(dict) == QPing <==> q == Some(BString(Ascii("ping"))))
      && (QueryKind(dict) == QFindNode <==> q == Some(BString(Ascii("find_node"))))
      && (QueryKind(dict) == QGetPeers <==> q == Some(BString(Ascii("get_peers"))))
      && (QueryKind(dict) == QAnnouncePeer <==> q == Some(BString(Ascii("announce_peer"))))
  {
    MethodNamesDiffer();
    hide Ascii, Value;
  }

  /** The bits and fields that all queries share. */
  lemma QueryIds(dict: BNode)
    requires DecodedQuery(dict).Returned?
    ensures var m := DecodedQuery(dict).m;
      && m.kind == QueryKind(dict) && m.context == 0 && UNKNOWN_TYPE !in m.errors
      && (INVALID_TID in m.errors <==> !IsString(Value(dict, Ascii("t"))))
      && (INVALID_NODE_ID in m.errors <==>
            !(HasArguments(dict, "a") && IsStringOf(Value(Value(dict, Ascii("a")).value, Ascii("id")), 20)))
      && (!HasIds(dict) ==> INVALID_DATA !in m.errors && m.data == NoData)
      && (HasIds(dict) ==>
            && m.t == Value(dict, Ascii("t")).value.str
            && m.id == Value(Value(dict, Ascii("a")).value, Ascii("id")).value.str)
  {
    hide Ascii, Value, QueryKind, QueryData;
  }

  /** A ping query with both ids is never refused. */
  lemma PingArguments(dict: BNode)
    requires DecodedQuery(dict).Returned? && DecodedQuery(dict).m.kind == QPing && HasIds(dict)
    ensures DecodedQuery(dict).m.errors == {} && DecodedQuery(dict).m.data == NoData
  {
    hide Ascii, Value, QueryKind;
  }

  /** find_node: "target" is a string of 20 bytes, which is the target. */
  lemma FindNodeArguments(dict: BNode)
    requires DecodedQuery(dict).Returned? && DecodedQuery(dict).m.kind == QFindNode && HasIds(dict)
    ensures var m, target := DecodedQuery(dict).m, Value(Value(dict, Ascii("a")).value, Ascii("target"));
      && (INVALID_DATA !in m.errors <==> IsStringOf(target, 20))
      && (INVALID_DATA in m.errors ==> m.errors == {INVALID_DATA} && m.data == NoData)
      && (INVALID_DATA !in m.errors ==> m.errors == {} && m.data == QFindNodeData(target.value.str))
  {
    hide Ascii, Value, QueryKind;
  }

  /** get_peers: "info_hash" is a string of 20 bytes, which is the info hash. */
  lemma GetPeersArguments(dict: BNode)
    requires DecodedQuery(dict).Returned? && DecodedQuery(dict).m.kind == QGetPeers && HasIds(dict)
    ensures var m, infoHash := DecodedQuery(dict).m, Value(Value(dict, Ascii("a")).value, Ascii("info_hash"));
      && (INVALID_DATA !in m.errors <==> IsStringOf(infoHash, 20))
      && (INVALID_DATA in m.errors ==> m.errors == {INVALID_DATA} && m.data == NoData)
      && (INVALID_DATA !in m.errors ==> m.errors == {} && m.data == QGetPeersData(infoHash.value.str))
  {
    hide Ascii, Value, QueryKind;
  }

  /** announce_peer: an info hash of 20 bytes, an integer from 0 to 65535 as port and a token, which are the data. */
  lemma AnnouncePeerArguments(dict: BNode)
    requires DecodedQuery(dict).Returned? && DecodedQuery(dict).m.kind == QAnnouncePeer && HasIds(dict)
    ensures var m, args := DecodedQuery(dict).m, Value(dict, Ascii("a")).value;
      var infoHash, token := Value(args, Ascii("info_hash")), Value(args, Ascii("token"));
      var port := Value(args, Ascii("port"));
      && (INVALID_DATA !in m.errors <==>
            && IsStringOf(infoHash, 20) && IsString(token)
            && port.Some? && port.value.BInteger? && 0 <= port.value.integer <= 0xffff)
      && (INVALID_DATA in m.errors ==> m.errors == {INVALID_DATA} && m.data == NoData)
      && (INVALID_DATA !in m.errors ==> m.errors == {})
      && (INVALID_DATA !in m.errors ==>
            m.data == QAnnouncePeerData(infoHash.value.str, port.value.integer, token.value.str))
  {
    hide Ascii, Value, QueryKind;
  }

  /** What the arguments of a query must be for its method to use them. */
  predicate Usable(kind: MessageType, args: BNode) {
    match kind
    case QPing => true
    case QFindNode => IsStringOf(Value(args, Ascii("target")), 20)
    case QGetPeers => IsStringOf(Value(args, Ascii("info_hash")), 20)
    case QAnnouncePeer =>
      var port := Value(args, Ascii("port"));
      && IsStringOf(Value(args, Ascii("info_hash")), 20) && IsString(Value(args, Ascii("token")))
      && port.Some? && port.value.BInteger? && 0 <= port.value.integer <= 0xffff
    case _ => false
  }

  /**
    The error bits of a decoded query, each exactly under its own condition: no string as transaction id,
    no dictionary of arguments with a string of 20 bytes as id, or, when both are there, arguments that
    the method cannot use. A query with any bit set carries no data.
   */
  lemma QueryErrors(dict: BNode)
    requires DecodedQuery(dict).Returned?
    ensures var m, tid := DecodedQuery(dict).m, Value(dict, Ascii("t"));
      var hasId := HasArguments(dict, "a") && IsStringOf(Value(Value(dict, Ascii("a")).value, Ascii("id")), 20);
      && (INVALID_TID in m.errors <==> !IsString(tid))
      && (INVALID_NODE_ID in m.errors <==> !hasId)
      && (INVALID_DATA in m.errors <==> IsString(tid) && hasId && !Usable(m.kind, Value(dict, Ascii("a")).value))
      && (m.errors != {} ==> m.data == NoData)
      && m.errors <= {INVALID_TID, INVALID_NODE_ID, INVALID_DATA}
  {
    QueryIds(dict);
    if HasIds(dict) {
      match DecodedQuery(dict).m.kind
      case QPing => PingArguments(dict);
      case QFindNode => FindNodeArguments(dict);
      case QGetPeers => GetPeersArguments(dict);
      case QAnnouncePeer => AnnouncePeerArguments(dict);
      case _ =>
    }
    hide Ascii, Value, QueryKind, QueryData, HashAt;
  }

  // ---- Compact contacts, from the bytes to the contacts and back

  lemma ContactBack(s: seq<byte>)
    requires |s| == COMPACTNODE_BYTES
    ensures ContactBytes(ContactOf(s)) == s
  {
    NumberBack(s[20..24]);
    PortBack(s[24..26]);
    hide Be4, Be2, FromBe4, FromBe2;
    assert s == s[..20] + s[20..24] + s[24..26];
  }

  lemma LastByte(n: int, high: int, low: int)
    requires 0 <= low < 0x100 && n == high * 0x100 + low
    ensures n / 0x100 == high && n % 0x100 == low
  {
  }

  lemma LastTwoBytes(n: int, high: int, low: int)
    requires 0 <= low < 0x1_0000 && n == high * 0x1_0000 + low
    ensures n / 0x1_0000 == high
  {
  }

  lemma LastThreeBytes(n: int, high: int, low: int)
    requires 0 <= low < 0x100_0000 && n == high * 0x100_0000 + low
    ensures n / 0x100_0000 == high
  {
  }

  /** Writing what has been read gives the bytes that were read. */
  lemma NumberBack(a: seq<byte>)
    requires |a| == 4
    ensures Be4(FromBe4(a)) == a
  {
    var n, one := FromBe4(a), a[0] as int;
    var two := one * 0x100 + a[1];
    var three := two * 0x100 + a[2];
    LastByte(n, three, a[3]);
    LastByte(three, two, a[2]);
    LastByte(two, one, a[1]);
    LastTwoBytes(n, two, (a[2] as int) * 0x100 + a[3]);
    LastThreeBytes(n, one, (a[1] as int) * 0x1_0000 + (a[2] as int) * 0x100 + a[3]);
  }

  lemma PortBack(p: seq<byte>)
    requires |p| == 2
    ensures Be2(FromBe2(p)) == p
  {
  }

  lemma PeerBack(node: BNode)
    requires IsPeer(node)
    ensures PeerBytes(PeerOf(node)) == node.str
  {
    NumberBack(node.str[..4]);
    PortBack(node.str[4..]);
    hide Be4, Be2, FromBe4, FromBe2;
  }

  /** The contacts read from a compact string are the only ones that it stands for. */
  lemma {:induction false} NodesBack(s: seq<byte>)
    requires |s| % COMPACTNODE_BYTES == 0
    ensures NodesBytes(NodesOf(s)) == s
    decreases |s|
  {
    if s != [] {
      var at := |s| - COMPACTNODE_BYTES;
      var last := s[at..];
      assert s == s[..at] + last;
      NodesBack(s[..at]);
      ContactBack(last);
      NodesOfExtended(s[..at], ContactOf(last));
      hide NodesOf, ContactOf, ContactBytes;
      var nodes := NodesOf(s);
      assert nodes[..|nodes| - 1] == NodesOf(s[..at]) && nodes[|nodes| - 1] == ContactOf(last);
    }
  }

  // ---- The data of replies

  /** A find_node reply without the bit for invalid data has the nodes that its string stands for. */
  lemma FindNodeReplyData(dict: BNode, pending: PendingModule.Pending)
    requires var d := DecodedReply(dict, pending).0; d.Returned? && d.m.kind == RFindNode && INVALID_DATA !in d.m.errors
    ensures HasArguments(dict, "r")
    ensures var m, nodes := DecodedReply(dict, pending).0.m, Value(Value(dict, Ascii("r")).value, Ascii("nodes"));
      IsString(nodes) && m.data.RFindNodeData? && NodesBytes(m.data.found) == nodes.value.str
  {
    D.FindNodeReplyErrors(dict, pending);
    var nodes := Value(Value(dict, Ascii("r")).value, Ascii("nodes"));
    NodesBack(nodes.value.str);
    hide Ascii, Value, SenderId, TidOf, NodesOf;
  }

  /** The peers stand for the strings of the list, one for one. */
  ghost predicate ArePeers(peers: seq<Peer>, list: seq<BNode>) {
    |peers| == |list| && forall i :: 0 <= i < |list| ==> BString(PeerBytes(peers[i])) == list[i]
  }

  lemma PeersBack(list: seq<BNode>)
    requires forall i :: 0 <= i < |list| ==> IsPeer(list[i])
    ensures PeersUpTo(list, 0) == |list| && ArePeers(PeersRead(list, |list|), list)
  {
    PeersUpToMeaning(list, 0);
    forall i | 0 <= i < |list| ensures BString(PeerBytes(PeersRead(list, |list|)[i])) == list[i] {
      PeerBack(list[i]);
    }
  }

  /** A get_peers reply without that bit has its token, and either the peers or the nodes that are listed. */
  lemma GetPeersReplyData(dict: BNode, pending: PendingModule.Pending)
    requires var d := DecodedReply(dict, pending).0; d.Returned? && d.m.kind == RGetPeers && INVALID_DATA !in d.m.errors
    ensures HasArguments(dict, "r")
    ensures var m, args := DecodedReply(dict, pending).0.m, Value(dict, Ascii("r")).value;
      var token, values := Value(args, Ascii("token")), Value(args, Ascii("values"));
      var nodes := Value(args, Ascii("nodes"));
      && m.data.RGetPeersData? && token == Some(BString(m.data.token))
      && (values.Some? ==>
            && m.data.nodes == None && m.data.values.Some?
            && values.value.BList? && ArePeers(m.data.values.value, values.value.nodes))
      && (values.None? ==>
            m.data.values == None && m.data.nodes.Some? && nodes == Some(BString(NodesBytes(m.data.nodes.value))))
  {
    D.GetPeersReplyErrors(dict, pending);
    var args := Value(dict, Ascii("r")).value;
    var values, nodes := Value(args, Ascii("values")), Value(args, Ascii("nodes"));
    if values.Some? {
      PeersBack(values.value.nodes);
    } else {
      NodesBack(nodes.value.str);
    }
    hide Ascii, Value, SenderId, TidOf, NodesOf, PeersRead, PeersUpTo;
  }

  /** After the first element that is no peer, the block of peers stays zero. */
  lemma PeersAfterError(m: Msg, list: seq<BNode>, bad: nat, i: nat)
    requires m.data.RGetPeersData? && bad <= i < |list| && !IsPeer(list[bad])
    ensures var n := WithPeers(m, list);
      && INVALID_DATA in n.errors && n.data.values.Some?
      && |n.data.values.value| == |list| && n.data.values.value[i] == Peer(0, 0)
  {
    PeersUpToMeaning(list, 0);
  }

  // ---- Errors, and what is no message

  /** The conversion to int keeps the value modulo 2^32 and lands in the range of an int. */
  lemma ToIntMeaning(i: int)
    ensures -0x8000_0000 <= ToInt(i) < 0x8000_0000 && (ToInt(i) - i) % 0x1_0000_0000 == 0
    ensures -0x8000_0000 <= i < 0x8000_0000 ==> ToInt(i) == i
  {
  }

  /** The bits and the fields of a decoded error. */
  lemma ErrorMeaning(dict: BNode)
    requires DecodedError(dict).Returned?
    ensures Value(dict, Ascii("e")).Some? && Value(dict, Ascii("e")).value.BList?
    ensures var m, list := DecodedError(dict).m, Value(dict, Ascii("e")).value.nodes;
      && m.kind == RError && m.id == seq(20, _ => 0) && m.context == 0
      && (INVALID_TID in m.errors <==> !IsString(Value(dict, Ascii("t"))))
      && (INVALID_DATA in m.errors <==> !(|list| == 2 && list[0].BInteger? && list[1].BString?))
      && m.errors <= {INVALID_TID, INVALID_DATA}
      && (INVALID_TID !in m.errors ==> m.t == Value(dict, Ascii("t")).value.str)
      && (|list| != 2 ==> m.data == RErrorData(0, None))
      && (|list| == 2 ==>
            m.data == RErrorData(if list[0].BInteger? then ToInt(list[0].integer) else 0,
                                 if list[1].BString? then Some(list[1].str) else None))
  {
    hide Ascii, Value, ToInt;
  }

  /** The bit for an unknown type, which comes alone: for what is no dictionary or has a type other than q, r, e. */
  lemma UnknownExactly(s: seq<byte>, pending: PendingModule.Pending)
    ensures var d := DecodedMessage(s, pending);
      var known := Parse(s).Some? && Parse(s).value.node.BDictionary?
        && var y := Value(Parse(s).value.node, Ascii("y"));
           y == Some(BString(Ascii("q"))) || y == Some(BString(Ascii("r"))) || y == Some(BString(Ascii("e")));
      && (d.0.Returned? && UNKNOWN_TYPE in d.0.m.errors <==> !known)
      && (!known ==> d == (Returned(Msg(MUnknown, {UNKNOWN_TYPE}, [], seq(20, _ => 0), 0, NoData)), pending))
  {
    hide Parse, Ascii, Value, DecodedQuery, DecodedReply, DecodedError, MessageKind;
    if Parse(s).Some? && Parse(s).value.node.BDictionary? {
      var dict := Parse(s).value.node;
      TypeValues(dict);
      NeverUnknown(dict, pending);
    }
  }

  lemma TypeValues(dict: BNode)
    ensures var y := Value(dict, Ascii("y"));
      && (MessageKind(dict) == 'q' as int <==> y == Some(BString(Ascii("q"))))
      && (MessageKind(dict) == 'r' as int <==> y == Some(BString(Ascii("r"))))
      && (MessageKind(dict) == 'e' as int <==> y == Some(BString(Ascii("e"))))
  {
    D.TypeBytes(dict);
    hide Ascii, Value, MessageKind;
  }

  lemma NeverUnknown(dict: BNode, pending: PendingModule.Pending)
    ensures DecodedQuery(dict).Returned? ==> UNKNOWN_TYPE !in DecodedQuery(dict).m.errors
    ensures DecodedReply(dict, pending).0.Returned? ==> UNKNOWN_TYPE !in DecodedReply(dict, pending).0.m.errors
    ensures DecodedError(dict).Returned? ==> UNKNOWN_TYPE !in DecodedError(dict).m.errors
  {
    hide Ascii, Value, StringAt, DictAt, SenderId, TidOf, QueryKind, QueryData;
  }
}
