/**
  What a decoded message is good for: the type and context of its query, and complete data when no error bit
  is set.
 */
module DecodeProofs {
  import opened Bytes
  import opened Messages
  import opened Bencode
  import opened BencodeProofs
  import opened KeyOrder
  import opened Reading
  import opened Decimal
  import PendingModule
  import Queries
  import opened Wire
  import opened DecodeSpec

  /** Reading the data of a reply changes nothing but the data and the bit for invalid data. */
  lemma OnlyDataChanges(m: Msg, args: Option<BNode>)
    requires m.data.NoData?
    ensures var d := WithResponseData(m, args);
      d.Returned? ==>
        && d.m.(data := m.data, errors := m.errors) == m
        && (d.m.errors == m.errors || d.m.errors == m.errors + {INVALID_DATA})
  {
  }

  /**
    Decoding a reply is the step that is made for it in a run of queries and replies: the same entry is
    consumed, and the message has the type and context of that entry. The bit for an invalid id is set
    exactly when there is no id, or when ids differ and the node is not new; the bit for an invalid
    transaction id exactly when it is longer than two bytes.
   */
  lemma ReplyIsStep(dict: BNode, pending: PendingModule.Pending)
    requires |OrEmpty(StringAt(dict, "t"))| >= 2
    ensures var t, id := OrEmpty(StringAt(dict, "t")), OrZero(SenderId(dict, "r"));
      var (after, outcome) := Queries.Step(pending, Queries.Reply(TidOf(t[..2]), id));
      var (decoded, left) := DecodedReply(dict, pending);
      && left == after
      && (outcome.Unmatched? ==> decoded == Aborted)
      && (decoded.Returned? ==> outcome.Matched?)
      && (decoded.Returned? ==>
        var m, entry := decoded.m, outcome.entry;
        && m.kind == entry.kind && m.context == entry.context && m.t == t && m.id == id
        && (INVALID_NODE_ID in m.errors <==> SenderId(dict, "r").None? || outcome.idError)
        && (INVALID_TID in m.errors <==> |t| > 2))
  {
    var t, id := OrEmpty(StringAt(dict, "t")), SenderId(dict, "r");
    hide Value, WithResponseData, TidOf, SenderId, StringAt;
    var tid := TidOf(t[..2]);
    if tid in pending {
      OnlyDataChanges(ReplyFrom(pending[tid], id, t), DictAt(dict, "r"));
    }
  }

  lemma QueryDataShaped(m: Msg, kind: QueryType, args: BNode)
    ensures var d := QueryData(kind, args);
      d.Some? ==> Shaped(m.(kind := kind, data := d.value))
  {
  }

  /** A message without error bits has all the data that its type calls for, so it could be encoded again. */
  lemma ErrorFreeIsComplete(tree: Option<BNode>, pending: PendingModule.Pending)
    ensures var d := DecodedTree(tree, pending).0;
      d.Returned? && d.m.errors == {} ==> HasBytes(d.m)
  {
    hide Value;
    if tree.Some? && tree.value.BDictionary? {
      QueryComplete(tree.value);
      ReplyComplete(tree.value, pending);
    }
  }

  lemma QueryComplete(dict: BNode)
    ensures DecodedQuery(dict).Returned? && DecodedQuery(dict).m.errors == {} ==> HasBytes(DecodedQuery(dict).m)
  {
    hide Value, StringAt, SenderId, QueryData;
    var kind, args := QueryKind(dict), DictAt(dict, "a");
    if kind != MUnknown && args.Some? {
      QueryDataShaped(DecodedQuery(dict).m, kind, args.value);
    }
  }

  lemma ReplyComplete(dict: BNode, pending: PendingModule.Pending)
    ensures var d := DecodedReply(dict, pending).0;
      d.Returned? && d.m.errors == {} ==> HasBytes(d.m)
  {
    hide Value, StringAt, SenderId, TidOf;
  }

  /** The invalid data bit of a reply to find_node: set unless "nodes" is a string of whole compact nodes. */
  lemma FindNodeReplyErrors(dict: BNode, pending: PendingModule.Pending)
    requires var d := DecodedReply(dict, pending).0; d.Returned? && d.m.kind == RFindNode
    ensures var m, args := DecodedReply(dict, pending).0.m, DictAt(dict, "r");
      INVALID_DATA !in m.errors <==>
        && args.Some? && StringAt(args.value, "nodes").Some?
        && |StringAt(args.value, "nodes").value| % COMPACTNODE_BYTES == 0
  {
    hide Value, StringAt, DictAt, SenderId, TidOf, NodesOf;
  }

  /** A list of compact peers, all of them strings of six bytes. */
  ghost predicate IsPeerList(value: Option<BNode>) {
    value.Some? && value.value.BList? && forall i :: 0 <= i < |value.value.nodes| ==> IsPeer(value.value.nodes[i])
  }

  ghost predicate IsCompactNodes(value: Option<BNode>) {
    value.Some? && value.value.BString? && |value.value.str| % COMPACTNODE_BYTES == 0
  }

  /**
    The invalid data bit of a reply to get_peers: set unless there is a token and exactly one of the two
    kinds of contacts, well formed.
   */
  lemma GetPeersReplyErrors(dict: BNode, pending: PendingModule.Pending)
    requires var d := DecodedReply(dict, pending).0; d.Returned? && d.m.kind == RGetPeers
    ensures var m, args := DecodedReply(dict, pending).0.m, DictAt(dict, "r");
      INVALID_DATA !in m.errors <==>
        && args.Some? && StringAt(args.value, "token").Some?
        && var values, nodes := Value(args.value, Ascii("values")), Value(args.value, Ascii("nodes"));
           (IsPeerList(values) && nodes == None) || (values == None && IsCompactNodes(nodes))
  {
    var args := DictAt(dict, "r");
    if args.Some? {
      var values := Value(args.value, Ascii("values"));
      if values.Some? && values.value.BList? {
        PeersUpToMeaning(values.value.nodes, 0);
      }
    }
    hide Value, StringAt, DictAt, SenderId, TidOf, NodesOf, PeersRead;
  }

  /** Replies without data never have the bit. */
  lemma BareReplyErrors(dict: BNode, pending: PendingModule.Pending)
    requires var d := DecodedReply(dict, pending).0; d.Returned? && (d.m.kind == RPing || d.m.kind == RAnnouncePeer)
    ensures INVALID_DATA !in DecodedReply(dict, pending).0.m.errors
  {
    hide Value, StringAt, DictAt, SenderId, TidOf;
  }

  // ---- Datagrams that are not decoded to a message

  /** In every run only replies other than errors are awaited. */
  lemma {:induction false} RepliesAreAwaited(events: seq<Queries.Event>, n: nat)
    requires n <= |events|
    ensures forall tid :: tid in Queries.After(events, n) ==>
      IsReply(Queries.After(events, n)[tid].kind) && Queries.After(events, n)[tid].kind != RError
  {
    if n > 0 {
      RepliesAreAwaited(events, n - 1);
    }
  }

  /** The method string of a query is one of the four. */
  ghost predicate IsMethod(q: Option<seq<byte>>) {
    exists kind: QueryType :: q == Some(Ascii(MethodName(kind)))
  }

  lemma KindOfMethod(dict: BNode)
    ensures QueryKind(dict) != MUnknown <==> IsMethod(StringAt(dict, "q"))
  {
    hide Ascii, Value, StringAt;
    var q := StringAt(dict, "q");
    assert Ascii(MethodName(QPing)) == Ascii("ping") && Ascii(MethodName(QFindNode)) == Ascii("find_node");
    assert Ascii(MethodName(QGetPeers)) == Ascii("get_peers");
    assert Ascii(MethodName(QAnnouncePeer)) == Ascii("announce_peer");
  }

  /** A transaction id under which a query is outstanding. Of a longer one the first two bytes count. */
  ghost predicate IsAwaited(t: Option<seq<byte>>, pending: PendingModule.Pending) {
    t.Some? && |t.value| >= 2 && TidOf(t.value[..2]) in pending
  }

  /** The one-byte type of a message. */
  lemma KindByte(dict: BNode, y: string)
    requires |y| == 1 && 0 < y[0] as int < 0x100
    ensures MessageKind(dict) == y[0] as int <==> StringAt(dict, "y") == Some(Ascii(y))
  {
    hide StringAt;
    assert Ascii(y) == [y[0] as int];
    var s := StringAt(dict, "y");
    if s.Some? && |s.value| == 1 {
      assert s.value == [s.value[0]];
    }
  }

  /** What stops in an assertion: a query without a known method, or a reply that is not awaited. */
  ghost predicate Unexpected(dict: BNode, pending: PendingModule.Pending) {
    || (StringAt(dict, "y") == Some(Ascii("q")) && !IsMethod(StringAt(dict, "q")))
    || (StringAt(dict, "y") == Some(Ascii("r")) && !IsAwaited(StringAt(dict, "t"), pending))
  }

  /** An error without a list. */
  ghost predicate ErrorWithoutList(dict: BNode) {
    && StringAt(dict, "y") == Some(Ascii("e"))
    && !(Value(dict, Ascii("e")).Some? && Value(dict, Ascii("e")).value.BList?)
  }

  lemma TreeOutcomes(dict: BNode, events: seq<Queries.Event>, n: nat)
    requires n <= |events| && dict.BDictionary?
    ensures var pending := Queries.After(events, n);
      && (DecodedTree(Some(dict), pending).0 == Aborted <==> Unexpected(dict, pending))
      && (DecodedTree(Some(dict), pending).0 == Null <==> ErrorWithoutList(dict))
  {
    TypeBytes(dict);
    KindOfMethod(dict);
    RepliesAreAwaited(events, n);
    ReplyAborted(dict, Queries.After(events, n));
    QueryAborted(dict);
    ErrorNull(dict);
    hide Ascii, Value, StringAt, MessageKind, IsMethod, IsAwaited, DecodedQuery, DecodedReply, DecodedError,
      QueryKind, Queries.After;
  }

  lemma ErrorNull(dict: BNode)
    ensures DecodedError(dict) == Null <==> !(Value(dict, Ascii("e")).Some? && Value(dict, Ascii("e")).value.BList?)
    ensures DecodedError(dict) != Aborted
  {
    hide Value, Ascii, StringAt;
  }

  /**
    When the source stops in an assertion, over every run: exactly for a dictionary that is a query with
    no or an unknown method, or a reply whose transaction id is missing, too short or not awaited.
   */
  lemma AbortedExactly(s: seq<byte>, events: seq<Queries.Event>, n: nat)
    requires n <= |events|
    ensures DecodedMessage(s, Queries.After(events, n)).0 == Aborted <==>
      Parse(s).Some? && Parse(s).value.node.BDictionary? && Unexpected(Parse(s).value.node, Queries.After(events, n))
  {
    hide Parse, Unexpected;
    if Parse(s).Some? && Parse(s).value.node.BDictionary? {
      TreeOutcomes(Parse(s).value.node, events, n);
      hide DecodedTree;
    }
  }

  lemma TypeBytes(dict: BNode)
    ensures MessageKind(dict) == 'q' as int <==> StringAt(dict, "y") == Some(Ascii("q"))
    ensures MessageKind(dict) == 'r' as int <==> StringAt(dict, "y") == Some(Ascii("r"))
    ensures MessageKind(dict) == 'e' as int <==> StringAt(dict, "y") == Some(Ascii("e"))
  {
    KindByte(dict, "q");
    KindByte(dict, "r");
    KindByte(dict, "e");
  }

  lemma QueryAborted(dict: BNode)
    ensures DecodedQuery(dict) == Aborted <==> QueryKind(dict) == MUnknown
    ensures DecodedQuery(dict) != Null && DecodedQuery(dict) != Strayed
  {
    hide QueryKind, SenderId, StringAt, DictAt;
  }

  lemma ReplyAborted(dict: BNode, pending: PendingModule.Pending)
    requires forall tid :: tid in pending ==> IsReply(pending[tid].kind) && pending[tid].kind != RError
    ensures DecodedReply(dict, pending).0 == Aborted <==> !IsAwaited(StringAt(dict, "t"), pending)
    ensures DecodedReply(dict, pending).0 != Null && DecodedReply(dict, pending).0 != Strayed
  {
    hide Value, StringAt, DictAt, SenderId, TidOf, WithFindNodeData, WithGetPeersData;
  }

  /** When NULL is returned, over every run: exactly for a dictionary that is an error without a list. */
  lemma NullExactly(s: seq<byte>, events: seq<Queries.Event>, n: nat)
    requires n <= |events|
    ensures DecodedMessage(s, Queries.After(events, n)).0 == Null <==>
      Parse(s).Some? && Parse(s).value.node.BDictionary? && ErrorWithoutList(Parse(s).value.node)
  {
    hide Parse, ErrorWithoutList;
    if Parse(s).Some? && Parse(s).value.node.BDictionary? {
      TreeOutcomes(Parse(s).value.node, events, n);
      hide DecodedTree;
    }
  }

  // ---- The byte behind a datagram

  /** It matters only when the datagram runs out inside a list or dictionary and either is an 'e' or is not there. */
  lemma DatagramIsMessage(s: seq<byte>, next: Option<byte>, pending: PendingModule.Pending)
    ensures (next.Some? && next != Some('e' as int)) || !RunsOut(s) || Parse(s).Some? ==>
      DecodedDatagram(s, next, pending) == DecodedMessage(s, pending)
  {
    ReadIsParse(s, next);
    hide Parse, Read, RunsOut, DecodedTree;
  }

  /** A datagram that a stale 'e' completes is taken for the message that it would be with that byte. */
  lemma StaleEnd(s: seq<byte>, t: BNode, pending: PendingModule.Pending)
    requires ClosedBehind(s, t)
    ensures DecodedDatagram(s, Some('e' as int), pending) == DecodedMessage(s + END, pending)
  {
    ReadBehindInput(s, Some('e' as int), t);
    assert (s + END)[..|s| + 1] == s + END;
    ParseExact(s + END, t, |s| + 1);
    hide Parse, Read, DecodedTree;
  }

  /** When reading goes on behind the datagram. */
  lemma StrayedExactly(s: seq<byte>, next: Option<byte>, pending: PendingModule.Pending)
    ensures DecodedDatagram(s, next, pending).0 == Strayed <==>
      (next == None && RunsOut(s)) || (next == Some('e' as int) && EndsInside(s))
  {
    OverreadExactly(s, next);
    hide Read, RunsOut, EndsInside, DecodedQuery, DecodedReply, DecodedError, Value;
    forall tree { NeverStrays(tree, pending); }
  }

  lemma NeverStrays(tree: Option<BNode>, pending: PendingModule.Pending)
    ensures DecodedTree(tree, pending).0 != Strayed
  {
    hide Value, TidOf;
  }
}
