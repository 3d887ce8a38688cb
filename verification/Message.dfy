/** src/dht/dht.h and src/dht/protocol.h: messages and what is remembered of an outstanding query. */
module Messages {
  import opened Bytes
  import opened Hashes

  datatype MessageType =
    | MUnknown
    | QPing | QFindNode | QGetPeers | QAnnouncePeer
    | RPing | RFindNode | RGetPeers | RAnnouncePeer
    | RError

  /** MessageType_IsQuery */
  predicate IsQuery(t: MessageType) {
    t.QPing? || t.QFindNode? || t.QGetPeers? || t.QAnnouncePeer?
  }

  /** MessageType_IsReply: error replies carry the reply bit too. */
  predicate IsReply(t: MessageType) {
    t.RPing? || t.RFindNode? || t.RGetPeers? || t.RAnnouncePeer? || t.RError?
  }

  type QueryType = t: MessageType | IsQuery(t) witness QPing

  /** MessageType_AsReply on a query. */
  function AsReply(t: QueryType): (r: MessageType)
    ensures (r == RPing <==> t == QPing) && (r == RFindNode <==> t == QFindNode)
    ensures (r == RGetPeers <==> t == QGetPeers) && (r == RAnnouncePeer <==> t == QAnnouncePeer)
    ensures IsReply(r) && r != RError
  {
    match t
    case QPing => RPing
    case QFindNode => RFindNode
    case QGetPeers => RGetPeers
    case QAnnouncePeer => RAnnouncePeer
  }

  /** The bits of merror_t; a value of it is the set of its bits. */
  datatype MError = UNKNOWN_TYPE | INVALID_QUERY_TYPE | INVALID_TID | INVALID_NODE_ID | INVALID_DATA | PROGRAM

  /** A pointer that is only passed on; 0 is NULL. */
  type Context = nat

  datatype PendingResponse = PendingResponse(kind: MessageType, tid: uint16, id: Hash, context: Context, isNew: bool)

  /** The two bytes of a transaction id read as one number, as on a little-endian host. */
  function TidOf(t: seq<byte>): uint16
    requires |t| == 2
  {
    (t[0] as nat) + 256 * (t[1] as nat)
  }
}
