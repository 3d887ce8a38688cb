/** What src/protocol_dec.c makes of a dictionary, as functions of it and of the outstanding queries. */
module DecodeSpec {
  import opened Bytes
  import opened Hashes
  import opened PeersModule
  import opened Messages
  import PendingModule
  import opened Decimal
  import opened Bencode
  import opened KeyOrder
  import opened Reading
  import opened Wire

  /**
    What Message_Decode comes to. Aborted is a failed assertion of the source, or a read behind a
    transaction id of less than two bytes; Strayed is reading on behind the datagram.
   */
  datatype Decoded = Returned(m: Msg) | Null | Aborted | Strayed

  function ZeroHash(): Hash {
    seq(HASH_BYTES, _ => 0)
  }

  /** A message as calloc leaves it. */
  function Blank(): Msg {
    Msg(MUnknown, {}, [], ZeroHash(), 0, NoData)
  }

  function Flag(raise: bool, error: MError): set<MError> {
    if raise then {error} else {}
  }

  function Invalid(m: Msg): Msg {
    m.(errors := m.errors + {INVALID_DATA})
  }

  /** The string under a key. */
  function StringAt(dict: BNode, key: string): Option<seq<byte>> {
    match Value(dict, Ascii(key))
    case Some(BString(s)) => Some(s)
    case _ => None
  }

  function HashAt(dict: BNode, key: string): Option<Hash> {
    match StringAt(dict, key)
    case Some(s) => if |s| == HASH_BYTES then Some(s) else None
    case None => None
  }

  /** The dictionary under a key. */
  function DictAt(dict: BNode, key: string): Option<BNode> {
    match Value(dict, Ascii(key))
    case Some(BDictionary(nodes)) => Some(BDictionary(nodes))
    case _ => None
  }

  /** The id among the arguments of a query or a reply. */
  function SenderId(dict: BNode, key: string): Option<Hash> {
    match DictAt(dict, key)
    case Some(args) => HashAt(args, "id")
    case None => None
  }

  function OrZero(id: Option<Hash>): Hash {
    match id case Some(h) => h case None => ZeroHash()
  }

  // ---- Queries

  function QueryKind(dict: BNode): MessageType {
    match StringAt(dict, "q")
    case None => MUnknown
    case Some(s) =>
      if s == Ascii("ping") then QPing
      else if s == Ascii("find_node") then QFindNode
      else if s == Ascii("get_peers") then QGetPeers
      else if s == Ascii("announce_peer") then QAnnouncePeer
      else MUnknown
  }

  function PortAt(args: BNode): Option<uint16> {
    match Value(args, Ascii("port"))
    case Some(BInteger(i)) => if 0 <= i <= 0xffff then Some(i) else None
    case _ => None
  }

  function QueryData(kind: QueryType, args: BNode): Option<MData> {
    match kind
    case QPing => Some(NoData)
    case QFindNode =>
      (match HashAt(args, "target") case None => None case Some(target) => Some(QFindNodeData(target)))
    case QGetPeers =>
      (match HashAt(args, "info_hash") case None => None case Some(infoHash) => Some(QGetPeersData(infoHash)))
    case QAnnouncePeer =>
      var infoHash, port, token := HashAt(args, "info_hash"), PortAt(args), StringAt(args, "token");
      if infoHash.None? || port.None? || token.None? then None
      else Some(QAnnouncePeerData(infoHash.value, port.value, token.value))
  }

  /** A query whose arguments are only looked at when nothing else is wrong. */
  function QueryFrom(kind: QueryType, id: Option<Hash>, t: Option<seq<byte>>, data: Option<MData>): Msg {
    var m := Msg(kind, Flag(id.None?, INVALID_NODE_ID) + Flag(t.None?, INVALID_TID), OrEmpty(t), OrZero(id), 0, NoData);
    if m.errors != {} then m else if data.None? then Invalid(m) else m.(data := data.value)
  }

  function DecodedQuery(dict: BNode): Decoded {
    var kind := QueryKind(dict);
    if kind == MUnknown then Aborted
    else
      var args := DictAt(dict, "a");
      var data := if args.None? then None else QueryData(kind, args.value);
      Returned(QueryFrom(kind, SenderId(dict, "a"), StringAt(dict, "t"), data))
  }

  // ---- Replies

  function ContactOf(s: seq<byte>): Contact
    requires |s| == COMPACTNODE_BYTES
  {
    Contact(s[..20], FromBe4(s[20..24]), FromBe2(s[24..26]))
  }

  function NodesOf(s: seq<byte>): seq<Contact>
    requires |s| % COMPACTNODE_BYTES == 0
  {
    seq(|s| / COMPACTNODE_BYTES, i requires 0 <= i < |s| / COMPACTNODE_BYTES =>
      ContactOf(s[i * COMPACTNODE_BYTES..i * COMPACTNODE_BYTES + COMPACTNODE_BYTES]))
  }

  predicate IsPeer(node: BNode) {
    node.BString? && |node.str| == COMPACTPEER_BYTES
  }

  function PeerOf(node: BNode): Peer
    requires IsPeer(node)
  {
    Peer(FromBe4(node.str[..4]), FromBe2(node.str[4..]))
  }

  /** How many nodes from the i-th on are peers. */
  function PeersUpTo(list: seq<BNode>, i: nat): (n: nat)
    requires i <= |list|
    ensures i <= n <= |list|
    decreases |list| - i
  {
    if i < |list| && IsPeer(list[i]) then PeersUpTo(list, i + 1) else i
  }

  lemma {:induction false} PeersUpToMeaning(list: seq<BNode>, i: nat)
    requires i <= |list|
    ensures forall k :: i <= k < PeersUpTo(list, i) ==> IsPeer(list[k])
    ensures PeersUpTo(list, i) < |list| ==> !IsPeer(list[PeersUpTo(list, i)])
    decreases |list| - i
  {
    if i < |list| && IsPeer(list[i]) {
      PeersUpToMeaning(list, i + 1);
    }
  }

  /** The peers read before the first node that is not one; the rest of the block stays zero. */
  function PeersRead(list: seq<BNode>, n: nat): seq<Peer> {
    seq(|list|, i requires 0 <= i < |list| => if i < n && IsPeer(list[i]) then PeerOf(list[i]) else Peer(0, 0))
  }

  function WithNodes(m: Msg, nodes: seq<byte>): Msg {
    if |nodes| % COMPACTNODE_BYTES != 0 then Invalid(m)
    else if m.data.RGetPeersData? then m.(data := m.data.(nodes := Some(NodesOf(nodes))))
    else m.(data := RFindNodeData(NodesOf(nodes)))
  }

  function WithPeers(m: Msg, list: seq<BNode>): Msg
    requires m.data.RGetPeersData?
  {
    var n := PeersUpTo(list, 0);
    var read := m.(data := m.data.(values := Some(PeersRead(list, n))));
    if n < |list| then Invalid(read) else read
  }

  function WithGetPeersData(m: Msg, args: BNode): Msg {
    match StringAt(args, "token")
    case None => Invalid(m)
    case Some(token) =>
      var started := m.(data := RGetPeersData(token, None, None));
      match (Value(args, Ascii("values")), Value(args, Ascii("nodes")))
      case (Some(_), Some(_)) => Invalid(started)
      case (Some(BList(list)), None) => WithPeers(started, list)
      case (None, Some(BString(nodes))) => WithNodes(started, nodes)
      case (_, _) => Invalid(started)
  }

  function WithFindNodeData(m: Msg, args: BNode): Msg {
    match StringAt(args, "nodes")
    case None => Invalid(m)
    case Some(nodes) => WithNodes(m, nodes)
  }

  /** SetResponseData */
  function WithResponseData(m: Msg, args: Option<BNode>): Decoded {
    if !IsReply(m.kind) then Aborted
    else if m.kind == RPing || m.kind == RAnnouncePeer then Returned(m)
    else if args.None? then Returned(Invalid(m))
    else if m.kind == RFindNode then Returned(WithFindNodeData(m, args.value))
    else if m.kind == RGetPeers then Returned(WithGetPeersData(m, args.value))
    else Null
  }

  /** A reply that belongs to an entry: it has the type and the context that the entry remembers. */
  function ReplyFrom(entry: PendingResponse, id: Option<Hash>, t: seq<byte>): Msg {
    var idErrors := Flag(id.None? || (OrZero(id) != entry.id && !entry.isNew), INVALID_NODE_ID);
    Msg(entry.kind, Flag(|t| != 2, INVALID_TID) + idErrors, t, OrZero(id), entry.context, NoData)
  }

  /** What DecodeResponse makes of a reply, and which queries are still outstanding then. */
  ghost function DecodedReply(dict: BNode, pending: PendingModule.Pending): (Decoded, PendingModule.Pending) {
    var t := OrEmpty(StringAt(dict, "t"));
    if |t| < 2 || TidOf(t[..2]) !in pending then (Aborted, pending)
    else
      var tid := TidOf(t[..2]);
      (WithResponseData(ReplyFrom(pending[tid], SenderId(dict, "r"), t), DictAt(dict, "r")), pending - {tid})
  }

  // ---- Errors

  /** The conversion of a 64-bit long to a 32-bit int. */
  function ToInt(i: int): int {
    (i + 0x8000_0000) % 0x1_0000_0000 - 0x8000_0000
  }

  function DecodedError(dict: BNode): Decoded {
    var t := StringAt(dict, "t");
    var m := Msg(RError, Flag(t.None?, INVALID_TID), OrEmpty(t), ZeroHash(), 0, RErrorData(0, None));
    match Value(dict, Ascii("e"))
    case Some(BList(list)) =>
      if |list| != 2 then Returned(Invalid(m))
      else
        var code := if list[0].BInteger? then ToInt(list[0].integer) else 0;
        var message := if list[1].BString? then Some(list[1].str) else None;
        Returned(m.(data := RErrorData(code, message),
                    errors := m.errors + Flag(!list[0].BInteger? || !list[1].BString?, INVALID_DATA)))
    case _ => Null
  }

  // ---- Messages

  function MessageKind(dict: BNode): byte {
    match StringAt(dict, "y")
    case Some(s) => if |s| == 1 then s[0] else 0
    case None => 0
  }

  /** Message_Decode on what BDecode has returned. */
  ghost function DecodedTree(tree: Option<BNode>, pending: PendingModule.Pending): (Decoded, PendingModule.Pending) {
    var unknown := Returned(Blank().(errors := {UNKNOWN_TYPE}));
    match tree
    case None => (unknown, pending)
    case Some(dict) =>
      if !dict.BDictionary? then (unknown, pending)
      else
        var y := MessageKind(dict);
        if y == 'q' as int then (DecodedQuery(dict), pending)
        else if y == 'r' as int then DecodedReply(dict, pending)
        else if y == 'e' as int then (DecodedError(dict), pending)
        else (unknown, pending)
  }

  /** The tree that some prefix of s encodes. */
  ghost function ParsedTree(s: seq<byte>): Option<BNode> {
    match Parse(s) case None => None case Some(p) => Some(p.node)
  }

  /** What a message is that has the bytes s to begin with. */
  ghost function DecodedMessage(s: seq<byte>, pending: PendingModule.Pending): (Decoded, PendingModule.Pending) {
    DecodedTree(ParsedTree(s), pending)
  }

  /** Message_Decode on a datagram in a buffer, with the byte behind the datagram. */
  ghost function DecodedDatagram(s: seq<byte>, next: Option<byte>, pending: PendingModule.Pending)
    : (Decoded, PendingModule.Pending)
  {
    match Read(s, next)
    case NoTree => DecodedTree(None, pending)
    case Tree(node, _) => DecodedTree(Some(node), pending)
    case Overread => (Strayed, pending)
  }
}
