/** The fragments that src/protocol_enc.c copies, put together, are the bencode of the message. */
module EncodeProofs {
  import opened Bytes
  import opened Messages
  import opened Decimal
  import opened Bencode
  import opened Wire

  /** The encodings of some nodes, one after the other. */
  function Flat(nodes: seq<BNode>): seq<byte> {
    if nodes == [] then [] else Enc(nodes[0]) + Flat(nodes[1..])
  }

  lemma {:induction false} EncFromIsFlat(t: BNode, k: nat)
    requires (t.BList? || t.BDictionary?) && k <= |t.nodes|
    ensures EncFrom(t, k) == Flat(t.nodes[k..])
    decreases |t.nodes| - k
  {
    if k < |t.nodes| {
      EncFromIsFlat(t, k + 1);
      assert t.nodes[k..][0] == t.nodes[k] && t.nodes[k..][1..] == t.nodes[k + 1..];
    }
  }

  lemma Join3<X>(a: seq<X>, b: seq<X>, c: seq<X>)
    ensures a + b + c == a + (b + c)
  {
  }

  lemma {:induction false} FlatAppend(a: seq<BNode>, b: seq<BNode>)
    ensures Flat(a + b) == Flat(a) + Flat(b)
  {
    hide Enc;
    if a == [] {
      assert a + b == b;
    } else {
      FlatAppend(a[1..], b);
      assert (a + b)[0] == a[0] && (a + b)[1..] == a[1..] + b;
      Join3(Enc(a[0]), Flat(a[1..]), Flat(b));
    }
  }

  lemma FlatPair(key: BNode, value: BNode)
    ensures Flat([key, value]) == Enc(key) + Enc(value)
  {
    hide Enc;
    assert [key, value][1..] == [value];
    assert Flat([value]) == Enc(value) + Flat([]);
  }

  lemma EncDict(nodes: seq<BNode>)
    ensures Enc(BDictionary(nodes)) == ['d' as int] + Flat(nodes) + ['e' as int]
    ensures Enc(BList(nodes)) == ['l' as int] + Flat(nodes) + ['e' as int]
  {
    EncFromIsFlat(BDictionary(nodes), 0);
    EncFromIsFlat(BList(nodes), 0);
    assert nodes[0..] == nodes;
  }

  /** What BStringCpy writes. */
  function BStr(s: seq<byte>): seq<byte> {
    Dec(|s|) + [':' as int] + s
  }

  /** What TCpy writes. */
  function TStr(t: seq<byte>): seq<byte> {
    Ascii("1:t") + BStr(t)
  }

  lemma EncKey(text: string)
    requires |text| < 10
    ensures Enc(Key(text)) == ['0' as int + |text|, ':' as int] + Ascii(text)
  {
  }

  /** The fragments around the values are the encodings of the keys. */
  lemma Fragments()
    ensures Enc(Key("a")) == Ascii("1:a") && Enc(Key("e")) == Ascii("1:e") && Enc(Key("q")) == Ascii("1:q")
    ensures Enc(Key("r")) == Ascii("1:r") && Enc(Key("t")) == Ascii("1:t") && Enc(Key("y")) == Ascii("1:y")
    ensures Enc(Key("id")) == Ascii("2:id")
  {
    EncKey("a");
    EncKey("e");
    EncKey("q");
    EncKey("r");
    EncKey("t");
    EncKey("y");
    EncKey("id");
  }

  /** A dictionary of four entries, or of three. */
  lemma Envelope(a: seq<BNode>, q: seq<BNode>, t: seq<BNode>, y: seq<BNode>)
    ensures Enc(BDictionary(a + q + t + y)) == ['d' as int] + (Flat(a) + Flat(q) + Flat(t) + Flat(y)) + ['e' as int]
  {
    hide Enc, Flat;
    EncDict(a + q + t + y);
    FlatAppend(a + q + t, y);
    FlatAppend(a + q, t);
    FlatAppend(a, q);
  }

  lemma ReplyEnvelope(a: seq<BNode>, t: seq<BNode>, y: seq<BNode>)
    ensures Enc(BDictionary(a + t + y)) == ['d' as int] + (Flat(a) + Flat(t) + Flat(y)) + ['e' as int]
  {
    hide Enc, Flat;
    EncDict(a + t + y);
    FlatAppend(a + t, y);
    FlatAppend(a, t);
  }

  lemma RegroupQuery<X>(d: seq<X>, a: seq<X>, b: seq<X>, id: seq<X>, extra: seq<X>, c: seq<X>,
                        q: seq<X>, name: seq<X>, t: seq<X>, y: seq<X>, k: seq<X>, e: seq<X>)
    ensures d + ((a + (b + id + extra + c)) + (q + name) + t + (y + k)) + e
      == (d + a + b) + id + extra + ((c + q) + name) + t + (y + k + e)
  {
  }

  lemma RegroupReply<X>(d: seq<X>, a: seq<X>, b: seq<X>, id: seq<X>, extra: seq<X>, c: seq<X>,
                        t: seq<X>, y: seq<X>, k: seq<X>, e: seq<X>)
    ensures d + ((a + (b + id + extra + c)) + t + (y + k)) + e == (d + a + b) + id + extra + c + t + (y + k + e)
  {
  }

  /** The arguments: the id and what else there is. */
  lemma ArgumentBytes(id: seq<byte>, extra: seq<BNode>)
    ensures Enc(BDictionary([Key("id"), BString(id)] + extra)) == Ascii("d2:id") + BStr(id) + Flat(extra) + Ascii("e")
  {
    Fragments();
    EncDict([Key("id"), BString(id)] + extra);
    FlatAppend([Key("id"), BString(id)], extra);
    FlatPair(Key("id"), BString(id));
    assert Enc(BString(id)) == BStr(id);
    hide Enc, Flat;
    assert Ascii("d2:id") == ['d' as int] + Ascii("2:id") && Ascii("e") == ['e' as int];
  }

  lemma FlatNothing()
    ensures Flat([]) == []
  {
  }

  /** The fragments that enclose a query, taken apart. */
  lemma QueryFragments()
    ensures Ascii("d1:ad2:id") == ['d' as int] + Ascii("1:a") + Ascii("d2:id")
    ensures Ascii("1:y1:qe") == Ascii("1:y") + Ascii("1:q") + ['e' as int]
    ensures Ascii("e1:q") == Ascii("e") + Ascii("1:q")
  {
  }

  lemma ReplyFragments()
    ensures Ascii("d1:rd2:id") == ['d' as int] + Ascii("1:r") + Ascii("d2:id")
    ensures Ascii("1:y1:re") == Ascii("1:y") + Ascii("1:r") + ['e' as int]
  {
  }

  lemma ErrorFragments()
    ensures Ascii("d1:el") == ['d' as int] + Ascii("1:e") + ['l' as int]
    ensures Ascii("1:y1:ee") == Ascii("1:y") + Ascii("1:e") + ['e' as int]
    ensures Ascii("e") == ['e' as int]
  {
  }

  /** The layout of every query. */
  lemma QueryBytes(id: seq<byte>, extra: seq<BNode>, name: string, t: seq<byte>)
    ensures Enc(QueryTree([Key("id"), BString(id)] + extra, name, t)) ==
      Ascii("d1:ad2:id") + BStr(id) + Flat(extra) + (Ascii("e1:q") + BStr(Ascii(name))) + TStr(t) + Ascii("1:y1:qe")
  {
    var args := BDictionary([Key("id"), BString(id)] + extra);
    Fragments();
    FlatPair(Key("a"), args);
    FlatPair(Key("q"), Key(name));
    FlatPair(Key("t"), BString(t));
    FlatPair(Key("y"), Key("q"));
    assert Enc(Key(name)) == BStr(Ascii(name)) && Enc(BString(t)) == BStr(t);
    hide Enc, Flat, Ascii, BStr, Dec;
    ArgumentBytes(id, extra);
    var whole := [Key("a"), args] + [Key("q"), Key(name)] + [Key("t"), BString(t)] + [Key("y"), Key("q")];
    assert QueryTree([Key("id"), BString(id)] + extra, name, t).nodes == whole;
    Envelope([Key("a"), args], [Key("q"), Key(name)], [Key("t"), BString(t)], [Key("y"), Key("q")]);
    QueryFragments();
    RegroupQuery(['d' as int], Ascii("1:a"), Ascii("d2:id"), BStr(id), Flat(extra), Ascii("e"), Ascii("1:q"),
                 BStr(Ascii(name)), TStr(t), Ascii("1:y"), Ascii("1:q"), ['e' as int]);
  }

  /** The layout of every reply but an error. */
  lemma ReplyBytes(id: seq<byte>, extra: seq<BNode>, t: seq<byte>)
    ensures Enc(ReplyTree([Key("id"), BString(id)] + extra, t)) ==
      Ascii("d1:rd2:id") + BStr(id) + Flat(extra) + Ascii("e") + TStr(t) + Ascii("1:y1:re")
  {
    var args := BDictionary([Key("id"), BString(id)] + extra);
    Fragments();
    FlatPair(Key("r"), args);
    FlatPair(Key("t"), BString(t));
    FlatPair(Key("y"), Key("r"));
    assert Enc(BString(t)) == BStr(t);
    hide Enc, Flat, Ascii, BStr, Dec;
    ArgumentBytes(id, extra);
    var whole := [Key("r"), args] + [Key("t"), BString(t)] + [Key("y"), Key("r")];
    assert ReplyTree([Key("id"), BString(id)] + extra, t).nodes == whole;
    ReplyEnvelope([Key("r"), args], [Key("t"), BString(t)], [Key("y"), Key("r")]);
    ReplyFragments();
    RegroupReply(['d' as int], Ascii("1:r"), Ascii("d2:id"), BStr(id), Flat(extra), Ascii("e"), TStr(t),
                 Ascii("1:y"), Ascii("1:r"), ['e' as int]);
  }

  /** The layout of an error. */
  lemma ErrorBytes(code: int, message: seq<byte>, t: seq<byte>)
    ensures Enc(ErrorTree(code, message, t)) ==
      Ascii("d1:el") + Enc(BInteger(code)) + BStr(message) + Ascii("e") + TStr(t) + Ascii("1:y1:ee")
  {
    var list := BList([BInteger(code), BString(message)]);
    Fragments();
    EncDict([BInteger(code), BString(message)]);
    FlatPair(BInteger(code), BString(message));
    FlatPair(Key("e"), list);
    FlatPair(Key("t"), BString(t));
    FlatPair(Key("y"), Key("e"));
    assert Enc(BString(t)) == BStr(t) && Enc(BString(message)) == BStr(message);
    hide Enc, Flat, Ascii, BStr, Dec;
    var whole := [Key("e"), list] + [Key("t"), BString(t)] + [Key("y"), Key("e")];
    assert ErrorTree(code, message, t).nodes == whole;
    ReplyEnvelope([Key("e"), list], [Key("t"), BString(t)], [Key("y"), Key("e")]);
    ErrorFragments();
    RegroupReply(['d' as int], Ascii("1:e"), ['l' as int], Enc(BInteger(code)), BStr(message), ['e' as int], TStr(t),
                 Ascii("1:y"), Ascii("1:e"), ['e' as int]);
  }

  // ---- The layout of each message, as its fragments are copied

  /** An entry whose key is copied together with the length of the key. */
  lemma ExtraBytes(key: string, fragment: string, value: BNode)
    requires |key| < 10 && Ascii(fragment) == ['0' as int + |key|, ':' as int] + Ascii(key)
    ensures Flat([Key(key), value]) == Ascii(fragment) + Enc(value)
  {
    EncKey(key);
    FlatPair(Key(key), value);
  }

  lemma ExtraKeys()
    ensures Ascii("6:target") == ['0' as int + |"target"|, ':' as int] + Ascii("target")
    ensures Ascii("9:info_hash") == ['0' as int + |"info_hash"|, ':' as int] + Ascii("info_hash")
    ensures Ascii("4:port") == ['0' as int + |"port"|, ':' as int] + Ascii("port")
    ensures Ascii("5:token") == ['0' as int + |"token"|, ':' as int] + Ascii("token")
    ensures Ascii("5:nodes") == ['0' as int + |"nodes"|, ':' as int] + Ascii("nodes")
    ensures Ascii("6:values") == ['0' as int + |"values"|, ':' as int] + Ascii("values")
  {
  }

  lemma ColonByte()
    ensures Ascii(":") == [':' as int]
  {
  }

  lemma MethodNameBytes(name: string, length: string)
    requires |name| < 100 && Ascii(length) == Dec(|name|)
    ensures BStr(Ascii(name)) == Ascii(length) + Ascii(":") + Ascii(name)
  {
    ColonByte();
    hide Dec, Ascii;
  }

  lemma PingFragment()
    ensures Ascii("e1:q4:ping") == Ascii("e1:q") + BStr(Ascii("ping"))
  {
    MethodNameBytes("ping", "4");
    hide BStr, Dec;
    assert Ascii("e1:q4:ping") == Ascii("e1:q") + (Ascii("4") + Ascii(":") + Ascii("ping"));
  }

  lemma FindNodeFragment()
    ensures Ascii("e1:q9:find_node") == Ascii("e1:q") + BStr(Ascii("find_node"))
  {
    MethodNameBytes("find_node", "9");
    hide BStr, Dec;
    assert Ascii("e1:q9:find_node") == Ascii("e1:q") + (Ascii("9") + Ascii(":") + Ascii("find_node"));
  }

  lemma GetPeersFragment()
    ensures Ascii("e1:q9:get_peers") == Ascii("e1:q") + BStr(Ascii("get_peers"))
  {
    MethodNameBytes("get_peers", "9");
    hide BStr, Dec;
    assert Ascii("e1:q9:get_peers") == Ascii("e1:q") + (Ascii("9") + Ascii(":") + Ascii("get_peers"));
  }

  lemma AnnounceFragment()
    ensures Ascii("e1:q13:announce_peer") == Ascii("e1:q") + BStr(Ascii("announce_peer"))
  {
    assert Dec(13) == Dec(1) + ['3' as int];
    MethodNameBytes("announce_peer", "13");
    hide BStr, Dec;
    assert Ascii("e1:q13:announce_peer") == Ascii("e1:q") + (Ascii("13") + Ascii(":") + Ascii("announce_peer"));
  }

  /** The fragments that end the arguments and name the method. */
  lemma MethodFragments()
    ensures Ascii("e1:q4:ping") == Ascii("e1:q") + BStr(Ascii("ping"))
    ensures Ascii("e1:q9:find_node") == Ascii("e1:q") + BStr(Ascii("find_node"))
    ensures Ascii("e1:q9:get_peers") == Ascii("e1:q") + BStr(Ascii("get_peers"))
    ensures Ascii("e1:q13:announce_peer") == Ascii("e1:q") + BStr(Ascii("announce_peer"))
  {
    hide Ascii, BStr;
    PingFragment();
    FindNodeFragment();
    GetPeersFragment();
    AnnounceFragment();
  }

  lemma EncString(s: seq<byte>)
    ensures Enc(BString(s)) == BStr(s)
  {
  }

  lemma PingBytes(m: Msg)
    requires HasBytes(m) && m.kind == QPing
    ensures Enc(TreeOf(m)) == Ascii("d1:ad2:id") + BStr(m.id) + Ascii("e1:q4:ping") + TStr(m.t) + Ascii("1:y1:qe")
  {
    MethodFragments();
    FlatNothing();
    hide Enc, Ascii, BStr, TStr, Flat;
    QueryBytes(m.id, [], "ping", m.t);
    assert Ascii("d1:ad2:id") + BStr(m.id) + [] == Ascii("d1:ad2:id") + BStr(m.id);
  }

  /** A query with one more argument, a hash. */
  lemma HashQueryBytes(m: Msg, key: string, fragment: string, hash: seq<byte>, methodFragment: string)
    requires HasBytes(m) && IsQuery(m.kind) && Arguments(m) == [Key("id"), BString(m.id)] + [Key(key), BString(hash)]
    requires |key| < 10 && Ascii(fragment) == ['0' as int + |key|, ':' as int] + Ascii(key)
    requires Ascii(methodFragment) == Ascii("e1:q") + BStr(Ascii(MethodName(m.kind)))
    ensures Enc(TreeOf(m)) == Ascii("d1:ad2:id") + BStr(m.id) + Ascii(fragment) + BStr(hash) + Ascii(methodFragment)
      + TStr(m.t) + Ascii("1:y1:qe")
  {
    EncString(hash);
    hide Enc, Ascii, BStr, TStr, Flat;
    ExtraBytes(key, fragment, BString(hash));
    QueryBytes(m.id, [Key(key), BString(hash)], MethodName(m.kind), m.t);
    Join3(Ascii("d1:ad2:id") + BStr(m.id), Ascii(fragment), BStr(hash));
  }

  lemma JoinThree<X>(a: seq<X>, b: seq<X>, c: seq<X>, d: seq<X>, e: seq<X>, f: seq<X>, g: seq<X>)
    ensures a + ((b + c) + (d + e) + (f + g)) == a + b + c + d + e + f + g
  {
  }

  lemma AnnounceBytes(m: Msg)
    requires HasBytes(m) && m.kind == QAnnouncePeer
    ensures Enc(TreeOf(m)) == Ascii("d1:ad2:id") + BStr(m.id) + Ascii("9:info_hash") + BStr(m.data.infoHash)
      + Ascii("4:port") + Enc(BInteger(m.data.port)) + Ascii("5:token") + BStr(m.data.token)
      + Ascii("e1:q13:announce_peer") + TStr(m.t) + Ascii("1:y1:qe")
  {
    var hash, port, token := BString(m.data.infoHash), BInteger(m.data.port), BString(m.data.token);
    var extra := [Key("info_hash"), hash] + [Key("port"), port] + [Key("token"), token];
    assert Arguments(m) == [Key("id"), BString(m.id)] + extra;
    MethodFragments();
    ExtraKeys();
    EncString(m.data.infoHash);
    EncString(m.data.token);
    hide Enc, Ascii, BStr, TStr, Flat;
    FlatAppend([Key("info_hash"), hash] + [Key("port"), port], [Key("token"), token]);
    FlatAppend([Key("info_hash"), hash], [Key("port"), port]);
    ExtraBytes("info_hash", "9:info_hash", hash);
    ExtraBytes("port", "4:port", port);
    ExtraBytes("token", "5:token", token);
    QueryBytes(m.id, extra, "announce_peer", m.t);
    JoinThree(Ascii("d1:ad2:id") + BStr(m.id), Ascii("9:info_hash"), Enc(hash), Ascii("4:port"), Enc(port),
      Ascii("5:token"), Enc(token));
  }

  lemma BareReplyBytes(m: Msg)
    requires HasBytes(m) && (m.kind == RPing || m.kind == RAnnouncePeer)
    ensures Enc(TreeOf(m)) == Ascii("d1:rd2:id") + BStr(m.id) + Ascii("e") + TStr(m.t) + Ascii("1:y1:re")
  {
    FlatNothing();
    hide Enc, Ascii, BStr, TStr, Flat;
    assert Arguments(m) == [Key("id"), BString(m.id)] + [];
    ReplyBytes(m.id, [], m.t);
    assert Ascii("d1:rd2:id") + BStr(m.id) + [] == Ascii("d1:rd2:id") + BStr(m.id);
  }

  lemma FindNodeReplyBytes(m: Msg)
    requires HasBytes(m) && m.kind == RFindNode
    ensures Enc(TreeOf(m)) == Ascii("d1:rd2:id") + BStr(m.id) + Ascii("5:nodes") + BStr(NodesBytes(m.data.found))
      + Ascii("e") + TStr(m.t) + Ascii("1:y1:re")
  {
    var nodes := BString(NodesBytes(m.data.found));
    ExtraKeys();
    EncString(nodes.str);
    hide Enc, Ascii, BStr, TStr, Flat;
    assert Arguments(m) == [Key("id"), BString(m.id)] + [Key("nodes"), nodes];
    ExtraBytes("nodes", "5:nodes", nodes);
    ReplyBytes(m.id, [Key("nodes"), nodes], m.t);
    Join3(Ascii("d1:rd2:id") + BStr(m.id), Ascii("5:nodes"), BStr(nodes.str));
  }

  lemma JoinTwo<X>(a: seq<X>, b: seq<X>, c: seq<X>, d: seq<X>, e: seq<X>)
    ensures a + ((b + c) + (d + e)) == a + b + c + d + e
  {
  }

  lemma ValuesReplyBytes(m: Msg)
    requires HasBytes(m) && m.kind == RGetPeers && m.data.values.Some?
    ensures Enc(TreeOf(m)) == Ascii("d1:rd2:id") + BStr(m.id) + Ascii("5:token") + BStr(m.data.token)
      + Ascii("6:values") + Enc(BList(PeerList(m.data.values.value))) + Ascii("e") + TStr(m.t) + Ascii("1:y1:re")
  {
    var token, values := BString(m.data.token), BList(PeerList(m.data.values.value));
    ExtraKeys();
    EncString(token.str);
    hide Enc, Ascii, BStr, TStr, Flat;
    var extra := [Key("token"), token] + [Key("values"), values];
    assert Arguments(m) == [Key("id"), BString(m.id)] + extra;
    FlatAppend([Key("token"), token], [Key("values"), values]);
    ExtraBytes("token", "5:token", token);
    ExtraBytes("values", "6:values", values);
    ReplyBytes(m.id, extra, m.t);
    JoinTwo(Ascii("d1:rd2:id") + BStr(m.id), Ascii("5:token"), Enc(token), Ascii("6:values"), Enc(values));
  }

  lemma NodesReplyBytes(m: Msg)
    requires HasBytes(m) && m.kind == RGetPeers && m.data.values.None?
    ensures Enc(TreeOf(m)) == Ascii("d1:rd2:id") + BStr(m.id) + Ascii("5:nodes") + BStr(NodesBytes(m.data.nodes.value))
      + Ascii("5:token") + BStr(m.data.token) + Ascii("e") + TStr(m.t) + Ascii("1:y1:re")
  {
    var token, nodes := BString(m.data.token), BString(NodesBytes(m.data.nodes.value));
    ExtraKeys();
    EncString(token.str);
    EncString(nodes.str);
    hide Enc, Ascii, BStr, TStr, Flat;
    var extra := [Key("nodes"), nodes] + [Key("token"), token];
    assert Arguments(m) == [Key("id"), BString(m.id)] + extra;
    FlatAppend([Key("nodes"), nodes], [Key("token"), token]);
    ExtraBytes("nodes", "5:nodes", nodes);
    ExtraBytes("token", "5:token", token);
    ReplyBytes(m.id, extra, m.t);
    JoinTwo(Ascii("d1:rd2:id") + BStr(m.id), Ascii("5:nodes"), Enc(nodes), Ascii("5:token"), Enc(token));
  }
}
