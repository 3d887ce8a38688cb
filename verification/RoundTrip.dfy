/** Decoding undoes encoding, for all nine messages. */
module RoundTrip {
  import opened Bytes
  import opened PeersModule
  import opened Messages
  import PendingModule
  import opened Decimal
  import opened Bencode
  import opened BencodeProofs
  import opened KeyOrder
  import opened Wire
  import opened DecodeSpec

  // ---- Dictionaries built entry by entry

  ghost predicate GoodDict(nodes: seq<BNode>) {
    IsDict(nodes) && forall k :: 0 <= k < |nodes| ==> Encodable(nodes[k])
  }

  lemma LessAt(a: seq<byte>, b: seq<byte>, k: nat)
    requires k < |a| && k < |b| && a[..k] == b[..k] && a[k] < b[k]
    ensures IsLessThan(a, b)
  {
    var m := if |a| < |b| then |a| else |b|;
    assert a[..m][..k] == a[..k] && b[..m][..k] == b[..k];
    MemCmpFirstDifference(a[..m], b[..m], k);
  }

  /** The keys of all messages that stand next to each other. */
  lemma KeysAscend()
    ensures IsLessThan(Ascii("a"), Ascii("q")) && IsLessThan(Ascii("q"), Ascii("t"))
      && IsLessThan(Ascii("t"), Ascii("y"))
    ensures IsLessThan(Ascii("r"), Ascii("t")) && IsLessThan(Ascii("e"), Ascii("t"))
    ensures IsLessThan(Ascii("id"), Ascii("target")) && IsLessThan(Ascii("id"), Ascii("info_hash"))
    ensures IsLessThan(Ascii("id"), Ascii("nodes")) && IsLessThan(Ascii("id"), Ascii("token"))
    ensures IsLessThan(Ascii("info_hash"), Ascii("port")) && IsLessThan(Ascii("port"), Ascii("token"))
    ensures IsLessThan(Ascii("nodes"), Ascii("token")) && IsLessThan(Ascii("token"), Ascii("values"))
  {
    hide IsLessThan;
    LessAt(Ascii("a"), Ascii("q"), 0);
    LessAt(Ascii("q"), Ascii("t"), 0);
    LessAt(Ascii("t"), Ascii("y"), 0);
    LessAt(Ascii("r"), Ascii("t"), 0);
    LessAt(Ascii("e"), Ascii("t"), 0);
    LessAt(Ascii("id"), Ascii("target"), 0);
    assert Ascii("id")[..1] == Ascii("info_hash")[..1];
    LessAt(Ascii("id"), Ascii("info_hash"), 1);
    LessAt(Ascii("id"), Ascii("nodes"), 0);
    LessAt(Ascii("id"), Ascii("token"), 0);
    LessAt(Ascii("info_hash"), Ascii("port"), 0);
    LessAt(Ascii("port"), Ascii("token"), 0);
    LessAt(Ascii("nodes"), Ascii("token"), 0);
    LessAt(Ascii("token"), Ascii("values"), 0);
  }

  /** One more entry, whose key comes after the last one. */
  lemma Extend(nodes: seq<BNode>, key: string, value: BNode)
    requires GoodDict(nodes) && Encodable(value) && |key| < 10
    requires nodes != [] ==> IsLessThan(KeyAt(nodes, |nodes| / 2 - 1).str, Ascii(key))
    ensures GoodDict(nodes + [Key(key), value])
  {
    hide IsLessThan, Ascii;
    var all, last := nodes + [Key(key), value], |nodes| / 2;
    assert KeyAt(all, last) == Key(key);
    assert forall i: nat {:trigger KeyAt(all, i)} :: i < last ==> KeyAt(all, i) == KeyAt(nodes, i);
    forall i: nat | i < last ensures IsLessThan(KeyAt(nodes, i).str, Ascii(key)) {
      if i < last - 1 {
        CompareKeysOrder(KeyAt(nodes, i).str, KeyAt(nodes, last - 1).str, Ascii(key));
        LessIsTransitive(KeyAt(nodes, i).str, KeyAt(nodes, last - 1).str, Ascii(key));
      }
    }
    assert Encodable(Key(key));
  }

  lemma LessIsTransitive(a: seq<byte>, b: seq<byte>, c: seq<byte>)
    requires IsLessThan(a, b) && IsLessThan(b, c)
    ensures IsLessThan(a, c)
  {
    CompareKeysOrder(a, b, c);
  }

  /** The entry with number i is found under its key. */
  lemma Found(nodes: seq<BNode>, i: nat, key: string)
    requires GoodDict(nodes) && 2 * i < |nodes| && nodes[2 * i] == Key(key)
    ensures Value(BDictionary(nodes), Ascii(key)) == Some(nodes[2 * i + 1])
  {
    hide Ascii, IsLessThan, Encodable, Lookup;
    assert KeyAt(nodes, i) == BString(Ascii(key));
    LookupFound(nodes, Ascii(key), i);
  }

  lemma NoEntries()
    ensures GoodDict([])
  {
  }

  lemma PeersEncodable(peers: seq<Peer>)
    ensures Encodable(BList(PeerList(peers)))
  {
  }

  lemma AnnounceArgumentsGood(m: Msg)
    requires HasBytes(m) && m.kind == QAnnouncePeer && Printable(m) && GoodDict([Key("id"), BString(m.id)])
    ensures GoodDict(Arguments(m))
  {
    KeysAscend();
    hide Ascii, IsLessThan, IsDict;
    var one := [Key("id"), BString(m.id)];
    var two := one + [Key("info_hash"), BString(m.data.infoHash)];
    var three := two + [Key("port"), BInteger(m.data.port)];
    Extend(one, "info_hash", BString(m.data.infoHash));
    Extend(two, "port", BInteger(m.data.port));
    Extend(three, "token", BString(m.data.token));
    assert Arguments(m) == three + [Key("token"), BString(m.data.token)];
  }

  /** The arguments of every message are a dictionary in order. */
  lemma ArgumentsGood(m: Msg)
    requires HasBytes(m) && m.kind != RError && Printable(m)
    ensures GoodDict(Arguments(m))
  {
    KeysAscend();
    hide Ascii, IsLessThan, IsDict;
    var id := [Key("id"), BString(m.id)];
    NoEntries();
    assert [] + id == id;
    Extend([], "id", BString(m.id));
    match m.data
    case NoData =>
      assert Arguments(m) == id;
    case QFindNodeData(target) =>
      Extend(id, "target", BString(target));
    case QGetPeersData(infoHash) =>
      Extend(id, "info_hash", BString(infoHash));
    case QAnnouncePeerData(infoHash, port, token) =>
      AnnounceArgumentsGood(m);
    case RFindNodeData(found) =>
      Extend(id, "nodes", BString(NodesBytes(found)));
    case RGetPeersData(token, nodes, values) =>
      if values.Some? {
        PeersEncodable(values.value);
        Extend(id, "token", BString(token));
        Extend(id + [Key("token"), BString(token)], "values", BList(PeerList(values.value)));
        assert Arguments(m) == id + [Key("token"), BString(token)] + [Key("values"), BList(PeerList(values.value))];
      } else {
        var list := BString(NodesBytes(nodes.value));
        Extend(id, "nodes", list);
        Extend(id + [Key("nodes"), list], "token", BString(token));
        assert Arguments(m) == id + [Key("nodes"), list] + [Key("token"), BString(token)];
      }
  }

  lemma FirstEntry(key: string, value: BNode)
    requires Encodable(value) && |key| < 10
    ensures GoodDict([Key(key), value])
  {
    NoEntries();
    hide Ascii, IsLessThan, IsDict;
    assert [] + [Key(key), value] == [Key(key), value];
    Extend([], key, value);
  }

  lemma QueryTreeGood(args: seq<BNode>, name: string, t: seq<byte>)
    requires GoodDict(args) && |t| <= LONG_MAX && |name| <= LONG_MAX
    ensures Encodable(QueryTree(args, name, t)) && GoodDict(QueryTree(args, name, t).nodes)
  {
    KeysAscend();
    FirstEntry("a", BDictionary(args));
    hide Ascii, IsLessThan, IsDict;
    var one := [Key("a"), BDictionary(args)];
    var two := one + [Key("q"), Key(name)];
    var three := two + [Key("t"), BString(t)];
    Extend(one, "q", Key(name));
    Extend(two, "t", BString(t));
    Extend(three, "y", Key("q"));
    assert QueryTree(args, name, t).nodes == three + [Key("y"), Key("q")];
  }

  /** A dictionary of three entries, as replies and errors are. */
  lemma ReplyTreeGood(key: string, value: BNode, t: seq<byte>)
    requires (key == "r" || key == "e") && Encodable(value) && |t| <= LONG_MAX
    ensures GoodDict([Key(key), value, Key("t"), BString(t), Key("y"), Key(key)])
  {
    KeysAscend();
    FirstEntry(key, value);
    hide Ascii, IsLessThan, IsDict;
    var one := [Key(key), value];
    var two := one + [Key("t"), BString(t)];
    Extend(one, "t", BString(t));
    Extend(two, "y", Key(key));
    assert [Key(key), value, Key("t"), BString(t), Key("y"), Key(key)] == two + [Key("y"), Key(key)];
  }

  /** The tree of every message can be encoded. */
  lemma TreeGood(m: Msg)
    requires HasBytes(m) && Printable(m)
    ensures Encodable(TreeOf(m)) && GoodDict(TreeOf(m).nodes)
  {
    if m.kind != RError {
      ArgumentsGood(m);
    }
    hide Ascii, IsLessThan, IsDict, Arguments;
    if IsQuery(m.kind) {
      QueryTreeGood(Arguments(m), MethodName(m.kind), m.t);
    } else if m.kind == RError {
      ReplyTreeGood("e", BList([BInteger(m.data.code), BString(OrEmpty(m.data.message))]), m.t);
    } else {
      ReplyTreeGood("r", BDictionary(Arguments(m)), m.t);
    }
  }

  // ---- Compact nodes and peers

  lemma ContactRoundTrip(c: Contact)
    ensures ContactOf(ContactBytes(c)) == c
  {
    BigEndianRoundTrip(c.addr, c.port);
    var s := ContactBytes(c);
    hide Be4, Be2, FromBe4, FromBe2;
    assert s[..20] == c.id && s[20..24] == Be4(c.addr) && s[24..26] == Be2(c.port);
  }

  lemma NodesOfExtended(before: seq<byte>, c: Contact)
    requires |before| % COMPACTNODE_BYTES == 0
    ensures NodesOf(before + ContactBytes(c)) == NodesOf(before) + [c]
  {
    var s, n := before + ContactBytes(c), |before| / COMPACTNODE_BYTES;
    ContactRoundTrip(c);
    hide ContactOf, ContactBytes;
    assert |s| / COMPACTNODE_BYTES == n + 1;
    assert s[n * COMPACTNODE_BYTES..(n + 1) * COMPACTNODE_BYTES] == ContactBytes(c);
    forall i | 0 <= i < n ensures NodesOf(s)[i] == NodesOf(before)[i] {
      var at := i * COMPACTNODE_BYTES;
      assert at + COMPACTNODE_BYTES <= n * COMPACTNODE_BYTES == |before|;
      assert s[at..at + COMPACTNODE_BYTES] == before[at..at + COMPACTNODE_BYTES];
    }
  }

  lemma {:induction false} NodesRoundTrip(nodes: seq<Contact>)
    ensures NodesOf(NodesBytes(nodes)) == nodes
  {
    if nodes != [] {
      var n := |nodes| - 1;
      NodesRoundTrip(nodes[..n]);
      hide NodesOf;
      NodesOfExtended(NodesBytes(nodes[..n]), nodes[n]);
      assert nodes == nodes[..n] + [nodes[n]];
    }
  }

  lemma PeerRoundTrip(p: Peer)
    ensures PeerOf(BString(PeerBytes(p))) == p
  {
    BigEndianRoundTrip(p.addr, p.port);
    var s := PeerBytes(p);
    hide Be4, Be2, FromBe4, FromBe2;
    assert s[..4] == Be4(p.addr) && s[4..] == Be2(p.port);
  }

  lemma PeersRoundTrip(peers: seq<Peer>)
    ensures PeersUpTo(PeerList(peers), 0) == |peers| && PeersRead(PeerList(peers), |peers|) == peers
  {
    PeersUpToMeaning(PeerList(peers), 0);
    forall i | 0 <= i < |peers| ensures PeersRead(PeerList(peers), |peers|)[i] == peers[i] {
      PeerRoundTrip(peers[i]);
    }
  }

  // ---- The fields of a message, read back from its tree

  lemma MethodNamesDiffer()
    ensures |Ascii("ping")| == 4 && |Ascii("announce_peer")| == 13
    ensures |Ascii("find_node")| == 9 && |Ascii("get_peers")| == 9
    ensures Ascii("find_node") != Ascii("get_peers")
  {
    assert Ascii("find_node")[0] != Ascii("get_peers")[0];
  }

  lemma IdRead(m: Msg, key: string)
    requires HasBytes(m) && m.kind != RError && Printable(m) && GoodDict(TreeOf(m).nodes)
    requires TreeOf(m).nodes[0] == Key(key) && TreeOf(m).nodes[1] == BDictionary(Arguments(m))
    ensures DictAt(TreeOf(m), key) == Some(BDictionary(Arguments(m))) && SenderId(TreeOf(m), key) == Some(m.id)
  {
    ArgumentsGood(m);
    hide Ascii, GoodDict, Lookup;
    Found(TreeOf(m).nodes, 0, key);
    Found(Arguments(m), 0, "id");
  }

  lemma QueryDataRead(m: Msg)
    requires HasBytes(m) && IsQuery(m.kind) && Printable(m)
    ensures QueryData(m.kind, BDictionary(Arguments(m))) == Some(m.data)
  {
    ArgumentsGood(m);
    hide Ascii, GoodDict, Lookup;
    match m.kind
    case QPing =>
    case QFindNode => Found(Arguments(m), 1, "target");
    case QGetPeers => Found(Arguments(m), 1, "info_hash");
    case QAnnouncePeer =>
      Found(Arguments(m), 1, "info_hash");
      Found(Arguments(m), 2, "port");
      Found(Arguments(m), 3, "token");
  }

  lemma QueryRead(m: Msg)
    requires HasBytes(m) && IsQuery(m.kind) && Printable(m)
    ensures DecodedQuery(TreeOf(m)) == Returned(m.(errors := {}, context := 0))
    ensures MessageKind(TreeOf(m)) == 'q' as int
  {
    TreeGood(m);
    QueryDataRead(m);
    MethodNamesDiffer();
    assert Ascii("q") == ['q' as int];
    hide Ascii, GoodDict, Lookup, Arguments, QueryData;
    var tree := TreeOf(m);
    IdRead(m, "a");
    Found(tree.nodes, 1, "q");
    Found(tree.nodes, 2, "t");
    Found(tree.nodes, 3, "y");
  }

  /** What a message is after a round trip: it has no error bits, and a get_peers reply only what was sent of it. */
  function Delivered(m: Msg, context: Context): Msg {
    var data := match m.data
      case RGetPeersData(token, nodes, values) => RGetPeersData(token, if values.Some? then None else nodes, values)
      case RErrorData(code, message) => RErrorData(code, Some(OrEmpty(message)))
      case _ => m.data;
    Msg(m.kind, {}, m.t, if m.kind == RError then ZeroHash() else m.id, context, data)
  }

  /** The data of a reply is read back into a message that only lacks its data. */
  lemma ReplyDataRead(m: Msg, context: Context)
    requires HasBytes(m) && IsReply(m.kind) && m.kind != RError && Printable(m)
    ensures WithResponseData(Delivered(m, context).(data := NoData), Some(BDictionary(Arguments(m))))
      == Returned(Delivered(m, context))
  {
    ArgumentsGood(m);
    var args, blank := Arguments(m), Delivered(m, context).(data := NoData);
    match m.kind
    case RPing =>
    case RAnnouncePeer =>
    case RFindNode =>
      NodesRoundTrip(m.data.found);
      hide Ascii, GoodDict, Lookup, NodesOf, NodesBytes;
      Found(args, 1, "nodes");
    case RGetPeers =>
      if m.data.values.Some? {
        ValuesRead(m, blank);
      } else {
        NodesRead(m, blank);
      }
  }

  lemma KeysDistinct()
    ensures Ascii("values") != Ascii("id") && Ascii("values") != Ascii("nodes") && Ascii("values") != Ascii("token")
    ensures Ascii("nodes") != Ascii("id") && Ascii("nodes") != Ascii("token")
  {
    assert |Ascii("id")| == 2 && |Ascii("nodes")| == 5 && |Ascii("token")| == 5 && |Ascii("values")| == 6;
    assert Ascii("nodes")[0] != Ascii("token")[0];
  }

  /** No entry of three has the key. */
  lemma NotFound(nodes: seq<BNode>, key: string)
    requires |nodes| == 6
    requires nodes[0] != Key(key) && nodes[2] != Key(key) && nodes[4] != Key(key)
    ensures Value(BDictionary(nodes), Ascii(key)) == None
  {
    hide Ascii, Lookup;
    forall i: nat | 2 * i < |nodes| ensures KeyAt(nodes, i) != BString(Ascii(key)) {
      assert i == 0 || i == 1 || i == 2;
    }
    LookupMissing(nodes, Ascii(key));
  }

  lemma ValuesRead(m: Msg, blank: Msg)
    requires HasBytes(m) && m.kind == RGetPeers && Printable(m) && m.data.values.Some?
    ensures WithGetPeersData(blank, BDictionary(Arguments(m)))
      == blank.(data := RGetPeersData(m.data.token, None, m.data.values))
  {
    ArgumentsGood(m);
    KeysDistinct();
    PeersRoundTrip(m.data.values.value);
    hide Ascii, GoodDict, Lookup, PeerList, PeersRead, PeersUpTo;
    Found(Arguments(m), 1, "token");
    Found(Arguments(m), 2, "values");
    NotFound(Arguments(m), "nodes");
  }

  lemma NodesRead(m: Msg, blank: Msg)
    requires HasBytes(m) && m.kind == RGetPeers && Printable(m) && m.data.values.None?
    ensures WithGetPeersData(blank, BDictionary(Arguments(m)))
      == blank.(data := RGetPeersData(m.data.token, m.data.nodes, None))
  {
    ArgumentsGood(m);
    KeysDistinct();
    NodesRoundTrip(m.data.nodes.value);
    hide Ascii, GoodDict, Lookup, NodesOf, NodesBytes;
    Found(Arguments(m), 1, "nodes");
    Found(Arguments(m), 2, "token");
    NotFound(Arguments(m), "values");
  }

  /** The entry that the reply answers: a query of the right type, sent to the node that replies or to a new one. */
  predicate Answers(m: Msg, pending: PendingModule.Pending) {
    && |m.t| == 2 && TidOf(m.t) in pending
    && var entry := pending[TidOf(m.t)];
       entry.kind == m.kind && (entry.id == m.id || entry.isNew)
  }

  lemma ReplyRead(m: Msg, pending: PendingModule.Pending)
    requires HasBytes(m) && IsReply(m.kind) && m.kind != RError && Printable(m) && Answers(m, pending)
    ensures DecodedReply(TreeOf(m), pending)
      == (Returned(Delivered(m, pending[TidOf(m.t)].context)), pending - {TidOf(m.t)})
    ensures MessageKind(TreeOf(m)) == 'r' as int
  {
    var entry, tree := pending[TidOf(m.t)], TreeOf(m);
    TreeGood(m);
    ReplyDataRead(m, entry.context);
    assert Ascii("r") == ['r' as int];
    assert m.t[..2] == m.t;
    hide Ascii, GoodDict, Lookup, Arguments, WithResponseData, TidOf;
    IdRead(m, "r");
    Found(tree.nodes, 1, "t");
    Found(tree.nodes, 2, "y");
    assert ReplyFrom(entry, SenderId(tree, "r"), m.t) == Delivered(m, entry.context).(data := NoData);
  }

  lemma ErrorRead(m: Msg)
    requires HasBytes(m) && m.kind == RError && Printable(m)
    ensures DecodedError(TreeOf(m)) == Returned(Delivered(m, 0))
    ensures MessageKind(TreeOf(m)) == 'e' as int
  {
    TreeGood(m);
    assert Ascii("e") == ['e' as int];
    hide Ascii, GoodDict, Lookup;
    Found(TreeOf(m).nodes, 0, "e");
    Found(TreeOf(m).nodes, 1, "t");
    Found(TreeOf(m).nodes, 2, "y");
  }

  /** Whether a message is one that the other side can make sense of: for a reply, that it answers a query. */
  predicate Expected(m: Msg, pending: PendingModule.Pending) {
    IsReply(m.kind) && m.kind != RError ==> Answers(m, pending)
  }

  /**
    Decoding undoes encoding: the bytes of any of the nine messages, whatever follows them in the
    datagram, are decoded to that message without error bits. A reply takes its context from the entry
    that it answers, and exactly that entry is consumed; queries and errors consume none.
   */
  lemma DecodingUndoesEncoding(m: Msg, rest: seq<byte>, pending: PendingModule.Pending)
    requires HasBytes(m) && Printable(m) && Expected(m, pending)
    ensures DecodedMessage(Enc(TreeOf(m)) + rest, pending) ==
      if IsQuery(m.kind) || m.kind == RError then (Returned(Delivered(m, 0)), pending)
      else (Returned(Delivered(m, pending[TidOf(m.t)].context)), pending - {TidOf(m.t)})
  {
    TreeGood(m);
    hide Enc, Parse, Encodable, Ascii, Lookup, TreeOf, DecodedQuery, DecodedReply, DecodedError, MessageKind;
    ParseOfEnc(TreeOf(m), rest);
    assert TreeOf(m).BDictionary? by {
      TreeIsDictionary(m);
    }
    if IsQuery(m.kind) {
      QueryRead(m);
    } else if m.kind == RError {
      ErrorRead(m);
    } else {
      ReplyRead(m, pending);
    }
  }

  lemma TreeIsDictionary(m: Msg)
    requires HasBytes(m)
    ensures TreeOf(m).BDictionary?
  {
  }
}
