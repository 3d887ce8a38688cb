/** A message that has been encoded into a buffer and is decoded from it. */
module Loopback {
  import opened Bytes
  import opened Messages
  import PendingModule
  import opened Bencode
  import opened BencodeProofs
  import opened Reading
  import BDecoder
  import opened KeyOrder
  import opened Wire
  import opened DecodeSpec
  import opened RoundTrip
  import DecodeProofs
  import ProtocolEnc

  /**
    Whatever was in the buffer, and whatever it still holds behind the message: when an encoder has
    returned r bytes, decoding those r bytes gives the message back, and the entry that a reply answers is
    the only one consumed. MessageDecode promises this result for the buffer.
   */
  lemma EncodedIsDecoded(m: Msg, before: seq<byte>, after: seq<byte>, len: nat, r: nat, pending: PendingModule.Pending)
    requires HasBytes(m) && Printable(m) && Expected(m, pending)
    requires ProtocolEnc.Written(Enc(TreeOf(m)), before, after, len, r)
    ensures DecodedDatagram(after[..r], BDecoder.Next(after, r), pending) ==
      if IsQuery(m.kind) || m.kind == RError then (Returned(Delivered(m, 0)), pending)
      else (Returned(Delivered(m, pending[TidOf(m.t)].context)), pending - {TidOf(m.t)})
  {
    TreeGood(m);
    hide Enc, DecodedMessage, DecodedDatagram, TreeOf, Delivered, Encodable, Parse, RunsOut;
    assert after[..r] == Enc(TreeOf(m)) + [];
    ParseOfEnc(TreeOf(m), []);
    DecodeProofs.DatagramIsMessage(after[..r], BDecoder.Next(after, r), pending);
    DecodingUndoesEncoding(m, [], pending);
  }

  /** Two messages with the same bytes are the same message, as far as it is sent at all. */
  lemma EncodingIsInjective(m: Msg, n: Msg)
    requires HasBytes(m) && Printable(m) && HasBytes(n) && Printable(n) && m.kind == n.kind
    requires IsReply(m.kind) && m.kind != RError ==> |m.t| == |n.t| == 2
    requires Enc(TreeOf(m)) == Enc(TreeOf(n))
    ensures Delivered(m, 0) == Delivered(n, 0)
  {
    var both: PendingModule.Pending := map[];
    if IsReply(m.kind) && m.kind != RError {
      var kind := m.kind;
      both := map[TidOf(m.t) := PendingResponse(kind, TidOf(m.t), m.id, 0, true)];
      both := both[TidOf(n.t) := PendingResponse(kind, TidOf(n.t), n.id, 0, true)];
    }
    hide Enc, DecodedMessage, TreeOf, Delivered, TidOf;
    DecodingUndoesEncoding(m, [], both);
    DecodingUndoesEncoding(n, [], both);
  }

  /** The message is as it is delivered; only a reply has a context, and a transaction id of two bytes. */
  ghost predicate Arrived(m: Msg) {
    && m == Delivered(m, m.context)
    && (IsQuery(m.kind) || m.kind == RError ==> m.context == 0)
    && (IsReply(m.kind) && m.kind != RError ==> |m.t| == 2)
  }

  lemma QueryArrived(dict: BNode)
    ensures var d := DecodedQuery(dict);
      d.Returned? && d.m.errors == {} ==> Arrived(d.m)
  {
    hide Value, StringAt, SenderId;
    var kind, args := QueryKind(dict), DictAt(dict, "a");
    if kind != MUnknown && args.Some? {
      DecodeProofs.QueryDataShaped(Blank(), kind, args.value);
    }
    hide QueryKind, DictAt, QueryData;
  }

  lemma ReplyArrived(dict: BNode, pending: PendingModule.Pending)
    ensures var d := DecodedReply(dict, pending).0;
      d.Returned? && d.m.errors == {} ==> Arrived(d.m)
  {
    hide Value, StringAt, DictAt, SenderId, TidOf, NodesOf, PeersRead, PeersUpTo;
  }

  lemma ErrorArrived(dict: BNode)
    ensures var d := DecodedError(dict);
      d.Returned? && d.m.errors == {} ==> Arrived(d.m)
  {
    hide Value, StringAt;
  }

  /**
    What is decoded without error bits is what is delivered: an error has no id but a text, a get_peers
    reply only one kind of contacts, and the transaction id of any other reply is two bytes long.
   */
  lemma DecodedIsDelivered(s: seq<byte>, pending: PendingModule.Pending)
    ensures var d := DecodedMessage(s, pending).0;
      d.Returned? && d.m.errors == {} ==> Arrived(d.m)
  {
    hide Parse, DecodedQuery, DecodedReply, DecodedError, Arrived, MessageKind;
    if Parse(s).Some? && Parse(s).value.node.BDictionary? {
      var dict := Parse(s).value.node;
      QueryArrived(dict);
      ReplyArrived(dict, pending);
      ErrorArrived(dict);
    }
  }

  /**
    Encoding what has been decoded loses nothing: for any bytes that are decoded to a message without error
    bits, canonical bencode or not, the message goes out and comes back as it is. A reply comes back where
    a query is outstanding that it answers, with the context of that query.
   */
  lemma DecodedAgain(s: seq<byte>, rest: seq<byte>, pending: PendingModule.Pending, later: PendingModule.Pending)
    requires DecodedMessage(s, pending).0.Returned?
    requires var m := DecodedMessage(s, pending).0.m;
      m.errors == {} && Shaped(m) && Printable(m) && Expected(m, later)
    ensures var m := DecodedMessage(s, pending).0.m;
      && HasBytes(m)
      && DecodedMessage(Enc(TreeOf(m)) + rest, later) ==
        if IsQuery(m.kind) || m.kind == RError then (Returned(m), later)
        else (Returned(m.(context := later[TidOf(m.t)].context)), later - {TidOf(m.t)})
  {
    hide Enc, DecodedMessage, TreeOf;
    var m := DecodedMessage(s, pending).0.m;
    CompleteMessage(s, pending);
    DecodedIsDelivered(s, pending);
    DecodingUndoesEncoding(m, rest, later);
  }

  lemma CompleteMessage(s: seq<byte>, pending: PendingModule.Pending)
    ensures var d := DecodedMessage(s, pending).0;
      d.Returned? && d.m.errors == {} ==> HasBytes(d.m)
  {
    DecodeProofs.ErrorFreeIsComplete(ParsedTree(s), pending);
    hide DecodedTree, ParsedTree;
  }
}
