/** src/node.c: nodes and their status. */
module Nodes {
  import opened Bytes
  import opened Hashes

  /** Seconds until a node without queries or replies is questionable or bad. */
  const NODE_RESPITE: int := 900
  /** After the respite, this many pending queries means the node is bad. */
  const NODE_MAX_PENDING: int := 2

  datatype NodeStatus = Unknown | Good | Questionable | Bad

  /** Everything about a node that may change while it is in a table. */
  datatype Info = Info(
    addr: uint32, port: uint16,
    replyTime: int, queryTime: int, pendingQueries: int,
    rfindnodeCount: uint32, rgetpeersCount: uint32, rannounceCount: uint32)

  /** Node_Status: time is one reading of the clock. */
  function Status(info: Info, time: int): NodeStatus {
    if info.replyTime != 0 then
      if time - info.replyTime < NODE_RESPITE then Good
      else if time - info.queryTime < NODE_RESPITE then Good
      else if info.pendingQueries < NODE_MAX_PENDING then Questionable
      else Bad
    else if info.pendingQueries < NODE_MAX_PENDING then Unknown
    else Bad
  }

  /** What Node_Copy keeps: the address; every time and counter is zero. */
  function CopiedInfo(info: Info): Info {
    Info(info.addr, info.port, 0, 0, 0, 0, 0, 0)
  }

  datatype ReplyKind = PingReply | FindNodeReply | GetPeersReply | AnnounceReply

  /** ++ on an unsigned int of 32 bits */
  function NextCount(n: uint32): uint32 {
    (n + 1) % 0x1_0000_0000
  }

  /** What a reply does to the node that sent it. */
  function Replied(info: Info, kind: ReplyKind, now: int): Info {
    var seen := info.(replyTime := now,
                      pendingQueries := info.pendingQueries - if info.pendingQueries > 0 then 1 else 0);
    match kind
    case PingReply => seen
    case FindNodeReply => seen.(rfindnodeCount := NextCount(info.rfindnodeCount))
    case GetPeersReply => seen.(rgetpeersCount := NextCount(info.rgetpeersCount))
    case AnnounceReply => seen.(rannounceCount := NextCount(info.rannounceCount))
  }

  /** A node of the network. Its id does not change while it is in a table. */
  class Node {
    const id: Hash
    var addr: uint32
    var port: uint16
    var replyTime: int
    var queryTime: int
    var pendingQueries: int
    var rfindnodeCount: uint32
    var rgetpeersCount: uint32
    var rannounceCount: uint32

    /** Node_Create */
    constructor (id: Hash)
      ensures this.id == id
      ensures Fields() == Info(0, 0, 0, 0, 0, 0, 0, 0)
    {
      this.id := id;
      addr, port, replyTime, queryTime, pendingQueries := 0, 0, 0, 0, 0;
      rfindnodeCount, rgetpeersCount, rannounceCount := 0, 0, 0;
    }

    function Fields(): Info
      reads this
    {
      Info(addr, port, replyTime, queryTime, pendingQueries, rfindnodeCount, rgetpeersCount, rannounceCount)
    }

    /** The end of Table_MarkReply. */
    method MarkReplied(kind: ReplyKind, now: int)
      modifies this
      ensures Fields() == Replied(old(Fields()), kind, now)
    {
      replyTime := now;
      if pendingQueries > 0 {
        pendingQueries := pendingQueries - 1;
      }
      if kind == FindNodeReply {
        rfindnodeCount := NextCount(rfindnodeCount);
      } else if kind == GetPeersReply {
        rgetpeersCount := NextCount(rgetpeersCount);
      } else if kind == AnnounceReply {
        rannounceCount := NextCount(rannounceCount);
      }
    }

    function Snapshot(): Entry
      reads this
    {
      Entry(this, Fields())
    }
  }

  /** Node_Copy */
  method NodeCopy(source: Node) returns (copy: Node)
    ensures fresh(copy)
    ensures copy.Snapshot() == Entry(copy, CopiedInfo(source.Fields())) && copy.id == source.id
    ensures copy.addr == source.addr && copy.port == source.port
    ensures copy.replyTime == 0 && copy.queryTime == 0 && copy.pendingQueries == 0
    ensures copy.rfindnodeCount == 0 && copy.rgetpeersCount == 0 && copy.rannounceCount == 0
  {
    copy := new Node(source.id);
    copy.addr := source.addr;
    copy.port := source.port;
  }

  /** A node as seen at one moment: the object and the values of its fields. */
  datatype Entry = Entry(node: Node, info: Info)

  /** One of the two times is less than a quarter of an hour ago. */
  predicate Recent(info: Info, time: int) {
    time - info.replyTime < 15 * 60 || time - info.queryTime < 15 * 60
  }

  /**
    The four statuses. Only a node that has answered is Good or Questionable; it is Good as long as it has
    answered or asked within the respite. What is not Good is Bad once enough queries are pending.
   */
  lemma StatusMeaning(info: Info, time: int)
    ensures Status(info, time) == Good <==> info.replyTime != 0 && Recent(info, time)
    ensures Status(info, time) == Questionable <==>
      info.replyTime != 0 && !Recent(info, time) && info.pendingQueries < 2
    ensures Status(info, time) == Unknown <==> info.replyTime == 0 && info.pendingQueries < 2
    ensures Status(info, time) == Bad <==>
      (info.replyTime == 0 || !Recent(info, time)) && info.pendingQueries >= 2
    ensures Status(CopiedInfo(info), time) == Unknown
  {
  }
}
