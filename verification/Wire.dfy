/** What a KRPC message carries, and the bencode tree that it goes over the wire as. */
module Wire {
  import opened Bytes
  import opened Hashes
  import opened PeersModule
  import opened Messages
  import opened Decimal
  import opened Bencode

  /** What goes over the wire of a node. */
  datatype Contact = Contact(id: Hash, addr: uint32, port: uint16)

  /** The union in struct Message; None is a NULL pointer. */
  datatype MData =
    | NoData
    | QFindNodeData(target: Hash)
    | QGetPeersData(infoHash: Hash)
    | QAnnouncePeerData(infoHash: Hash, port: uint16, token: seq<byte>)
    | RFindNodeData(found: seq<Contact>)
    | RGetPeersData(token: seq<byte>, nodes: Option<seq<Contact>>, values: Option<seq<Peer>>)
    | RErrorData(code: int, message: Option<seq<byte>>)

  /** The fields of struct Message that coding reads or sets. */
  datatype Msg = Msg(kind: MessageType, errors: set<MError>, t: seq<byte>, id: Hash, context: Context, data: MData)

  const COMPACTNODE_BYTES: nat := 26
  const COMPACTPEER_BYTES: nat := 6

  /** The data is of the kind that the type says. */
  predicate Shaped(m: Msg) {
    match m.kind
    case QFindNode => m.data.QFindNodeData?
    case QGetPeers => m.data.QGetPeersData?
    case QAnnouncePeer => m.data.QAnnouncePeerData?
    case RFindNode => m.data.RFindNodeData?
    case RGetPeers => m.data.RGetPeersData?
    case RError => m.data.RErrorData?
    case _ => m.data.NoData?
  }

  /** There is something to encode: a type, and for a get_peers reply values or nodes. */
  predicate HasBytes(m: Msg) {
    Shaped(m) && m.kind != MUnknown && (m.kind.RGetPeers? ==> m.data.values.Some? || m.data.nodes.Some?)
  }

  /** Four and two bytes, the most significant first. */
  function Be4(n: uint32): (s: seq<byte>)
    ensures |s| == 4
  {
    [n / 0x100_0000, n / 0x1_0000 % 0x100, n / 0x100 % 0x100, n % 0x100]
  }

  function Be2(n: uint16): (s: seq<byte>)
    ensures |s| == 2
  {
    [n / 0x100, n % 0x100]
  }

  /** ntohl and ntohs on the bytes of a buffer. */
  function FromBe4(s: seq<byte>): uint32
    requires |s| == 4
  {
    (s[0] as int) * 0x100_0000 + (s[1] as int) * 0x1_0000 + (s[2] as int) * 0x100 + s[3]
  }

  function FromBe2(s: seq<byte>): uint16
    requires |s| == 2
  {
    (s[0] as int) * 0x100 + s[1]
  }

  lemma BigEndianRoundTrip(addr: uint32, port: uint16)
    ensures FromBe4(Be4(addr)) == addr && FromBe2(Be2(port)) == port
  {
    var high, low := addr / 0x1_0000, addr % 0x1_0000;
    assert addr / 0x100_0000 == high / 0x100 && addr / 0x1_0000 % 0x100 == high % 0x100;
    assert addr / 0x100 % 0x100 == low / 0x100 && addr % 0x100 == low % 0x100;
  }

  /** The bytes are the digits of the number to the base 256, the most significant first. */
  lemma MostSignificantFirst(addr: uint32, port: uint16)
    ensures var a, p := Be4(addr), Be2(port);
      && addr == (a[0] as int) * 0x100_0000 + (a[1] as int) * 0x1_0000 + (a[2] as int) * 0x100 + a[3]
      && port == (p[0] as int) * 0x100 + p[1]
  {
    BigEndianRoundTrip(addr, port);
  }

  function ContactBytes(c: Contact): (s: seq<byte>)
    ensures |s| == COMPACTNODE_BYTES
  {
    c.id + Be4(c.addr) + Be2(c.port)
  }

  function PeerBytes(p: Peer): (s: seq<byte>)
    ensures |s| == COMPACTPEER_BYTES
  {
    Be4(p.addr) + Be2(p.port)
  }

  /** The compact form of nodes, one after the other. */
  function NodesBytes(nodes: seq<Contact>): (s: seq<byte>)
    ensures |s| == |nodes| * COMPACTNODE_BYTES
  {
    if nodes == [] then [] else NodesBytes(nodes[..|nodes| - 1]) + ContactBytes(nodes[|nodes| - 1])
  }

  function PeerList(peers: seq<Peer>): (s: seq<BNode>)
    ensures |s| == |peers|
  {
    seq(|peers|, i requires 0 <= i < |peers| => BString(PeerBytes(peers[i])))
  }

  function Key(text: string): BNode {
    BString(Ascii(text))
  }

  /** "a", "q", "t" and "y" of a query. */
  function QueryTree(args: seq<BNode>, name: string, t: seq<byte>): BNode {
    BDictionary([Key("a"), BDictionary(args), Key("q"), Key(name), Key("t"), BString(t), Key("y"), Key("q")])
  }

  function ReplyTree(args: seq<BNode>, t: seq<byte>): BNode {
    BDictionary([Key("r"), BDictionary(args), Key("t"), BString(t), Key("y"), Key("r")])
  }

  function ErrorTree(code: int, message: seq<byte>, t: seq<byte>): BNode {
    BDictionary([Key("e"), BList([BInteger(code), BString(message)]), Key("t"), BString(t), Key("y"), Key("e")])
  }

  function MethodName(kind: QueryType): string {
    match kind
    case QPing => "ping"
    case QFindNode => "find_node"
    case QGetPeers => "get_peers"
    case QAnnouncePeer => "announce_peer"
  }

  /** The arguments of a query or a reply, in the order of their keys. */
  function Arguments(m: Msg): seq<BNode>
    requires HasBytes(m) && m.kind != RError
  {
    [Key("id"), BString(m.id)] +
    match m.data
    case NoData => []
    case QFindNodeData(target) => [Key("target"), BString(target)]
    case QGetPeersData(infoHash) => [Key("info_hash"), BString(infoHash)]
    case QAnnouncePeerData(infoHash, port, token) =>
      [Key("info_hash"), BString(infoHash), Key("port"), BInteger(port), Key("token"), BString(token)]
    case RFindNodeData(found) => [Key("nodes"), BString(NodesBytes(found))]
    case RGetPeersData(token, nodes, values) =>
      if values.Some? then [Key("token"), BString(token), Key("values"), BList(PeerList(values.value))]
      else [Key("nodes"), BString(NodesBytes(nodes.value)), Key("token"), BString(token)]
  }

  function OrEmpty(text: Option<seq<byte>>): seq<byte> {
    match text case None => [] case Some(s) => s
  }

  /** The tree of a message. A get_peers reply with both values and nodes goes out with its values. */
  function TreeOf(m: Msg): BNode
    requires HasBytes(m)
  {
    if IsQuery(m.kind) then QueryTree(Arguments(m), MethodName(m.kind), m.t)
    else if m.kind.RError? then ErrorTree(m.data.code, OrEmpty(m.data.message), m.t)
    else ReplyTree(Arguments(m), m.t)
  }

  /** digits() asserts that every length and integer that is printed has at most five digits. */
  predicate Printable(m: Msg)
    requires Shaped(m)
  {
    && |m.t| < 100000
    && match m.data
       case QAnnouncePeerData(_, _, token) => |token| < 100000
       case RFindNodeData(found) => |found| * COMPACTNODE_BYTES < 100000
       case RGetPeersData(token, nodes, values) =>
         && |token| < 100000
         && (values.Some? ==> |values.value| * 8 + 2 < 0x8000_0000)
         && (values.None? && nodes.Some? ==> |nodes.value| * COMPACTNODE_BYTES < 100000)
       case RErrorData(code, message) => 0 <= code < 100000 && |OrEmpty(message)| < 100000
       case _ => true
  }
}
