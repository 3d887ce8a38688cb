/** Datagrams at which the source does what its documentation does not say. */
module Datagrams {
  import opened Bytes
  import opened Messages
  import opened Decimal
  import opened Bencode
  import opened BencodeProofs
  import opened KeyOrder
  import PendingModule
  import opened Reading
  import opened Wire
  import opened EncodeProofs
  import opened DecodeSpec
  import opened RoundTrip
  import D = DecodeProofs

  /** Two entries with keys in order and everything below them in order. */
  lemma TwoEntries(a: string, x: BNode, b: string, y: BNode)
    requires |a| < 10 && |b| < 10 && Encodable(x) && Encodable(y) && IsLessThan(Ascii(a), Ascii(b))
    ensures GoodDict([Key(a), x, Key(b), y])
    ensures Enc(BDictionary([Key(a), x, Key(b), y]))
      == ['d' as int] + (Enc(Key(a)) + Enc(x)) + (Enc(Key(b)) + Enc(y)) + ['e' as int]
  {
    FirstEntry(a, x);
    hide Ascii, IsLessThan, IsDict;
    var one, two := [Key(a), x], [Key(b), y];
    Extend(one, b, y);
    assert one + two == [Key(a), x, Key(b), y];
    EncDict(one + two);
    FlatAppend(one, two);
    FlatPair(Key(a), x);
    FlatPair(Key(b), y);
    hide Enc, Flat;
    Join3(['d' as int], Enc(Key(a)) + Enc(x), Enc(Key(b)) + Enc(y));
  }

  lemma EncodingIsParsed(dict: BNode)
    requires Encodable(dict)
    ensures Parse(Enc(dict)) == Some(Parsed(dict, |Enc(dict)|))
  {
    ParseOfEnc(dict, []);
    hide Enc, Parse, Encodable;
    assert Enc(dict) + [] == Enc(dict);
  }

  /** A query with a method that is not known, and nothing else. */
  function UnknownQuery(): BNode {
    BDictionary([Key("q"), Key("x"), Key("y"), Key("q")])
  }

  lemma UnknownQueryBytes()
    ensures ['d' as int] + (['1' as int, ':' as int] + Ascii("q") + (['1' as int, ':' as int] + Ascii("x")))
      + (['1' as int, ':' as int] + Ascii("y") + (['1' as int, ':' as int] + Ascii("q"))) + ['e' as int]
          == Ascii("d1:q1:x1:y1:qe")
  {
  }

  lemma UnknownQueryParsed()
    ensures Parse(Ascii("d1:q1:x1:y1:qe")) == Some(Parsed(UnknownQuery(), |Ascii("d1:q1:x1:y1:qe")|))
    ensures GoodDict(UnknownQuery().nodes)
  {
    assert IsLessThan(Ascii("q"), Ascii("y")) by {
      LessAt(Ascii("q"), Ascii("y"), 0);
    }
    TwoEntries("q", Key("x"), "y", Key("q"));
    EncodingIsParsed(UnknownQuery());
    EncKey("q");
    EncKey("x");
    EncKey("y");
    hide Parse, Enc, IsLessThan, IsDict;
    UnknownQueryBytes();
  }

  /** It stops the source in an assertion, whatever is behind it and whatever is outstanding. */
  lemma UnknownQueryAborts(next: Option<byte>, pending: PendingModule.Pending)
    ensures DecodedDatagram(Ascii("d1:q1:x1:y1:qe"), next, pending) == (Aborted, pending)
  {
    UnknownQueryParsed();
    D.DatagramIsMessage(Ascii("d1:q1:x1:y1:qe"), next, pending);
    Found(UnknownQuery().nodes, 0, "q");
    Found(UnknownQuery().nodes, 1, "y");
    MethodNamesDiffer();
    assert |Ascii("x")| == 1 && Ascii("q") == ['q' as int];
    hide Parse, Read, Ascii, Value, GoodDict, RunsOut;
  }

  // ---- A reply whose transaction id is longer than two bytes

  /** A ping reply without an id. */
  function LongReply(): BNode {
    ReplyTree([], Ascii("abc"))
  }

  lemma LongReplyEncoding()
    ensures Enc(LongReply()) == Ascii("d1:rde1:t3:abc1:y1:re")
  {
    hide Enc, Flat, Ascii;
    var args, t := BDictionary([]), Key("abc");
    ReplyEnvelope([Key("r"), args], [Key("t"), t], [Key("y"), Key("r")]);
    assert LongReply().nodes == [Key("r"), args] + [Key("t"), t] + [Key("y"), Key("r")];
    FlatPair(Key("r"), args);
    FlatPair(Key("t"), t);
    FlatPair(Key("y"), Key("r"));
    EncDict([]);
    FlatNothing();
    EncKey("r");
    EncKey("t");
    EncKey("y");
    EncKey("abc");
    LongReplyBytes();
  }

  lemma LongReplyParsed()
    ensures Parse(Ascii("d1:rde1:t3:abc1:y1:re")) == Some(Parsed(LongReply(), |Ascii("d1:rde1:t3:abc1:y1:re")|))
    ensures GoodDict(LongReply().nodes)
  {
    NoEntries();
    ReplyTreeGood("r", BDictionary([]), Ascii("abc"));
    LongReplyEncoding();
    hide Parse, Enc, Ascii, IsDict;
    EncodingIsParsed(LongReply());
  }

  lemma LongReplyBytes()
    ensures ['d' as int] + (['1' as int, ':' as int] + Ascii("r") + (['d' as int] + [] + ['e' as int])
      + (['1' as int, ':' as int] + Ascii("t") + (['3' as int, ':' as int] + Ascii("abc")))
      + (['1' as int, ':' as int] + Ascii("y") + (['1' as int, ':' as int] + Ascii("r")))) + ['e' as int]
      == Ascii("d1:rde1:t3:abc1:y1:re")
  {
  }

  lemma ReplyByte()
    ensures Ascii("r") == ['r' as int]
  {
  }

  lemma EmptyHasNoId()
    ensures HashAt(BDictionary([]), "id") == None
  {
    assert Lookup([], Ascii("id")) == None;
    hide Ascii, Lookup;
  }

  lemma LongReplyFields()
    ensures MessageKind(LongReply()) == 'r' as int && StringAt(LongReply(), "t") == Some(Ascii("abc"))
    ensures DictAt(LongReply(), "r") == Some(BDictionary([])) && SenderId(LongReply(), "r") == None
  {
    LongReplyParsed();
    Found(LongReply().nodes, 0, "r");
    Found(LongReply().nodes, 1, "t");
    Found(LongReply().nodes, 2, "y");
    EmptyHasNoId();
    ReplyByte();
    hide Parse, Ascii, Value, HashAt, GoodDict;
  }

  /** It is flagged, and all the same it consumes the query with the transaction id "ab". */
  lemma LongReplyConsumes(next: Option<byte>, entry: PendingResponse)
    requires entry.kind == RPing && entry.tid == TidOf(Ascii("ab"))
    ensures var (d, left) := DecodedDatagram(Ascii("d1:rde1:t3:abc1:y1:re"), next, map[TidOf(Ascii("ab")) := entry]);
      && d.Returned? && d.m.kind == RPing && d.m.context == entry.context
      && d.m.errors == {INVALID_TID, INVALID_NODE_ID} && left == map[]
  {
    var pending: PendingModule.Pending := map[TidOf(Ascii("ab")) := entry];
    LongReplyParsed();
    LongReplyFields();
    D.DatagramIsMessage(Ascii("d1:rde1:t3:abc1:y1:re"), next, pending);
    assert Ascii("abc")[..2] == Ascii("ab");
    assert pending - {TidOf(Ascii("ab"))} == map[];
    hide Parse, Read, Ascii, GoodDict, RunsOut, TidOf, StringAt, DictAt, SenderId, MessageKind, LongReply,
      DecodedDatagram;
  }
}
