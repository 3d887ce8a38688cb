/** src/protocol_enc.c: messages are written piece by piece, through a pointer that advances over the buffer. */
module ProtocolEnc {
  import opened Bytes
  import opened PeersModule
  import opened Messages
  import opened Decimal
  import opened Bencode
  import opened Wire
  import opened EncodeProofs

  // ---- Lengths, computed before anything is written

  function Digits(l: nat): nat
    requires l < 100000
  {
    if l < 10 then 1 else if l < 100 then 2 else if l < 1000 then 3 else if l < 10000 then 4 else 5
  }

  /** digits() counts what is printed. */
  lemma DigitsArePrinted(l: nat)
    requires l < 100000
    ensures Digits(l) == |Dec(l)|
  {
    assert Dec(l / 10) == if l / 10 < 10 then ['0' as int + l / 10] else Dec(l / 100) + ['0' as int + l / 10 % 10];
    if l >= 100 {
      assert Dec(l / 100) ==
        if l / 100 < 10 then ['0' as int + l / 100] else Dec(l / 1000) + ['0' as int + l / 100 % 10];
    }
    if l >= 1000 {
      assert Dec(l / 1000) ==
        if l / 1000 < 10 then ['0' as int + l / 1000] else Dec(l / 10000) + ['0' as int + l / 1000 % 10];
    }
  }

  function StringHeaderLen(stringLen: nat): nat
    requires stringLen < 100000
  {
    Digits(stringLen) + 1
  }

  function BStringLen(dataLen: nat): nat
    requires dataLen < 100000
  {
    StringHeaderLen(dataLen) + dataLen
  }

  function TLen(m: Msg): nat
    requires |m.t| < 100000
  {
    |"1:t"| + BStringLen(|m.t|)
  }

  function ILen(i: nat): nat
    requires i < 100000
  {
    Digits(i) + 2
  }

  function NodesLen(count: nat): nat
    requires count * COMPACTNODE_BYTES < 100000
  {
    |"5:nodes"| + BStringLen(count * COMPACTNODE_BYTES)
  }

  function ValuesLen(count: nat): nat {
    count * 8 + 2
  }

  // ---- Writers

  /** The bytes written have replaced the first dest bytes of what was in the buffer, and nothing else. */
  ghost predicate At(before: seq<byte>, now: seq<byte>, dest: nat, written: seq<byte>) {
    |now| == |before| && dest == |written| <= |before| && now == written + before[dest..]
  }

  lemma Advance(before: seq<byte>, was: seq<byte>, now: seq<byte>, dest: nat, written: seq<byte>, bytes: seq<byte>)
    requires At(before, was, dest, written) && dest + |bytes| <= |before|
    requires now == was[..dest] + bytes + was[dest + |bytes|..]
    ensures At(before, now, dest + |bytes|, written + bytes)
  {
    assert was[..dest] == written;
    assert was[dest + |bytes|..] == before[dest + |bytes|..];
  }

  /** memcpy of bytes to dest */
  method Put(buf: array<byte>, dest: nat, bytes: seq<byte>, ghost before: seq<byte>, ghost written: seq<byte>)
    returns (next: nat, ghost all: seq<byte>)
    requires At(before, buf[..], dest, written) && dest + |bytes| <= buf.Length
    modifies buf
    ensures next == dest + |bytes| && all == written + bytes && At(before, buf[..], next, all)
  {
    ghost var was := buf[..];
    forall i | 0 <= i < |bytes| {
      buf[dest + i] := bytes[i];
    }
    next, all := dest + |bytes|, written + bytes;
    assert buf[..] == was[..dest] + bytes + was[next..];
    Advance(before, was, buf[..], dest, written, bytes);
  }

  /** SCpy: a literal without its terminating zero */
  method SCpy(buf: array<byte>, dest: nat, text: string, ghost before: seq<byte>, ghost written: seq<byte>)
    returns (next: nat, ghost all: seq<byte>)
    requires At(before, buf[..], dest, written) && dest + |text| <= buf.Length
    modifies buf
    ensures next == dest + |text| && all == written + Ascii(text) && At(before, buf[..], next, all)
  {
    hide At;
    next, all := Put(buf, dest, Ascii(text), before, written);
  }

  /** snprintf prints a zero behind the number, which the delimiter then overwrites. */
  method PutDelimited(buf: array<byte>, dest: nat, printed: seq<byte>, delimiter: byte, ghost before: seq<byte>,
      ghost written: seq<byte>)
    returns (next: nat, ghost all: seq<byte>)
    requires At(before, buf[..], dest, written) && dest + |printed| + 1 <= buf.Length
    modifies buf
    ensures next == dest + |printed| + 1 && all == written + printed + [delimiter] && At(before, buf[..], next, all)
  {
    var end, zeroed := Put(buf, dest, printed + [0], before, written);
    buf[dest + |printed|] := delimiter;
    next, all := dest + |printed| + 1, written + printed + [delimiter];
    assert zeroed[..|zeroed| - 1] == written + printed;
    assert buf[..] == all + before[next..];
  }

  method StringHeaderCpy(buf: array<byte>, dest: nat, stringLen: nat, ghost before: seq<byte>, ghost written: seq<byte>)
    returns (next: nat, ghost all: seq<byte>)
    requires At(before, buf[..], dest, written) && stringLen < 100000 && dest + StringHeaderLen(stringLen) <= buf.Length
    modifies buf
    ensures next == dest + StringHeaderLen(stringLen) && all == written + Dec(stringLen) + [':' as int]
      && At(before, buf[..], next, all)
  {
    hide At;
    DigitsArePrinted(stringLen);
    next, all := PutDelimited(buf, dest, Dec(stringLen), ':' as int, before, written);
  }

  method BStringCpy(buf: array<byte>, dest: nat, bytes: seq<byte>, ghost before: seq<byte>, ghost written: seq<byte>)
    returns (next: nat, ghost all: seq<byte>)
    requires At(before, buf[..], dest, written) && |bytes| < 100000 && dest + BStringLen(|bytes|) <= buf.Length
    modifies buf
    ensures next == dest + BStringLen(|bytes|) && all == written + BStr(bytes) && At(before, buf[..], next, all)
  {
    hide Dec, At;
    next, all := StringHeaderCpy(buf, dest, |bytes|, before, written);
    next, all := Put(buf, next, bytes, before, all);
    BStrJoins(written, bytes);
  }

  lemma BStrJoins(written: seq<byte>, bytes: seq<byte>)
    ensures written + Dec(|bytes|) + [':' as int] + bytes == written + BStr(bytes)
  {
    hide Dec;
    Join3(written, Dec(|bytes|) + [':' as int], bytes);
    Join3(written, Dec(|bytes|), [':' as int]);
  }

  method TCpy(buf: array<byte>, dest: nat, m: Msg, ghost before: seq<byte>, ghost written: seq<byte>)
    returns (next: nat, ghost all: seq<byte>)
    requires At(before, buf[..], dest, written) && |m.t| < 100000 && dest + TLen(m) <= buf.Length
    modifies buf
    ensures next == dest + TLen(m) && all == written + TStr(m.t) && At(before, buf[..], next, all)
  {
    hide BStr, Ascii, At;
    next, all := SCpy(buf, dest, "1:t", before, written);
    next, all := BStringCpy(buf, next, m.t, before, all);
    Join3(written, Ascii("1:t"), BStr(m.t));
  }

  method ICpy(buf: array<byte>, dest: nat, i: nat, ghost before: seq<byte>, ghost written: seq<byte>)
    returns (next: nat, ghost all: seq<byte>)
    requires At(before, buf[..], dest, written) && i < 100000 && dest + ILen(i) <= buf.Length
    modifies buf
    ensures next == dest + ILen(i) && all == written + Enc(BInteger(i)) && At(before, buf[..], next, all)
  {
    DigitsArePrinted(i);
    hide Dec, At;
    next, all := PutDelimited(buf, dest, ['i' as int] + Dec(i), 'e' as int, before, written);
    Join3(written, ['i' as int] + Dec(i), ['e' as int]);
  }

  method NodesCpy(buf: array<byte>, dest: nat, nodes: seq<Contact>, ghost before: seq<byte>, ghost written: seq<byte>)
    returns (next: nat, ghost all: seq<byte>)
    requires At(before, buf[..], dest, written) && |nodes| * COMPACTNODE_BYTES < 100000
      && dest + NodesLen(|nodes|) <= buf.Length
    modifies buf
    ensures next == dest + NodesLen(|nodes|) && all == written + Ascii("5:nodes") + BStr(NodesBytes(nodes))
      && At(before, buf[..], next, all)
  {
    hide Dec, Ascii, At;
    next, all := SCpy(buf, dest, "5:nodes", before, written);
    next, all := StringHeaderCpy(buf, next, |nodes| * COMPACTNODE_BYTES, before, all);
    ghost var start, header := next, all;
    assert nodes[..0] == [];
    var i := 0;
    while i < |nodes|
      invariant 0 <= i <= |nodes| && next == start + i * COMPACTNODE_BYTES
      invariant all == header + NodesBytes(nodes[..i]) && At(before, buf[..], next, all)
    {
      ghost var was := all;
      next, all := Put(buf, next, nodes[i].id, before, all);
      next, all := Put(buf, next, Be4(nodes[i].addr) + Be2(nodes[i].port), before, all);
      NodesStep(nodes, i, header, was, all);
      i := i + 1;
    }
    assert nodes[..|nodes|] == nodes;
    BStrJoins(written + Ascii("5:nodes"), NodesBytes(nodes));
  }

  lemma NodesStep(nodes: seq<Contact>, i: nat, header: seq<byte>, before: seq<byte>, after: seq<byte>)
    requires i < |nodes| && before == header + NodesBytes(nodes[..i])
    requires after == before + nodes[i].id + (Be4(nodes[i].addr) + Be2(nodes[i].port))
    ensures after == header + NodesBytes(nodes[..i + 1])
  {
    assert nodes[..i + 1][..i] == nodes[..i] && nodes[..i + 1][i] == nodes[i];
    var c := nodes[i];
    hide NodesBytes, Be4, Be2;
    assert ContactBytes(c) == c.id + (Be4(c.addr) + Be2(c.port));
    Join3(before, c.id, Be4(c.addr) + Be2(c.port));
    Join3(header, NodesBytes(nodes[..i]), ContactBytes(c));
  }

  method ValuesCpy(buf: array<byte>, dest: nat, values: seq<Peer>, ghost before: seq<byte>, ghost written: seq<byte>)
    returns (next: nat, ghost all: seq<byte>)
    requires At(before, buf[..], dest, written) && dest + ValuesLen(|values|) <= buf.Length
    modifies buf
    ensures next == dest + ValuesLen(|values|) && all == written + Enc(BList(PeerList(values)))
      && At(before, buf[..], next, all)
  {
    hide Ascii, At;
    next, all := Put(buf, dest, ['l' as int], before, written);
    ghost var header := all;
    assert PeerList(values)[..0] == [] && Flat([]) == [];
    var i := 0;
    while i < |values|
      invariant 0 <= i <= |values| && next == dest + 1 + i * 8
      invariant all == header + Flat(PeerList(values)[..i]) && At(before, buf[..], next, all)
    {
      ghost var was := all;
      next, all := Put(buf, next, ['6' as int, ':' as int] + PeerBytes(values[i]), before, all);
      ValuesStep(values, i, header, was, all);
      i := i + 1;
    }
    assert PeerList(values)[..|values|] == PeerList(values);
    EncDict(PeerList(values));
    hide Enc, Flat;
    next, all := Put(buf, next, ['e' as int], before, all);
    Join3(written, ['l' as int], Flat(PeerList(values)));
    Join3(written, ['l' as int] + Flat(PeerList(values)), ['e' as int]);
  }

  lemma ValuesStep(values: seq<Peer>, i: nat, header: seq<byte>, before: seq<byte>, after: seq<byte>)
    requires i < |values| && before == header + Flat(PeerList(values)[..i])
    requires after == before + (['6' as int, ':' as int] + PeerBytes(values[i]))
    ensures after == header + Flat(PeerList(values)[..i + 1])
  {
    var done, node := PeerList(values)[..i], PeerList(values)[i];
    assert PeerList(values)[..i + 1] == done + [node];
    FlatAppend(done, [node]);
    assert [node][1..] == [] && Flat([node]) == Enc(node) + Flat([]);
    assert Enc(node) == ['6' as int] + [':' as int] + PeerBytes(values[i]);
    assert ['6' as int, ':' as int] + PeerBytes(values[i]) == Enc(node);
    Join3(header, Flat(done), Enc(node));
  }

  // ---- Messages

  const HASHLEN: nat := 23

  lemma BStrLen(s: seq<byte>)
    requires |s| < 100000
    ensures |BStr(s)| == BStringLen(|s|)
  {
    DigitsArePrinted(|s|);
  }

  lemma TStrLen(m: Msg)
    requires |m.t| < 100000
    ensures |TStr(m.t)| == TLen(m)
  {
    BStrLen(m.t);
  }

  lemma IntegerLen(i: nat)
    requires i < 100000
    ensures |Enc(BInteger(i))| == ILen(i)
  {
    DigitsArePrinted(i);
  }

  lemma {:induction false} FlatPeersLen(values: seq<Peer>, n: nat)
    requires n <= |values|
    ensures |Flat(PeerList(values)[..n])| == 8 * n
  {
    if n > 0 {
      FlatPeersLen(values, n - 1);
      var before := Flat(PeerList(values)[..n - 1]);
      ValuesStep(values, n - 1, [], before, before + (['6' as int, ':' as int] + PeerBytes(values[n - 1])));
    }
  }

  lemma ValuesListLen(values: seq<Peer>)
    ensures |Enc(BList(PeerList(values)))| == ValuesLen(|values|)
  {
    FlatPeersLen(values, |values|);
    assert PeerList(values)[..|values|] == PeerList(values);
    EncDict(PeerList(values));
  }

  /**
    What an encoder does with len bytes of buffer: when the encoding fits, write exactly it and return
    its length; otherwise return -1 and write nothing.
   */
  ghost predicate Written(bytes: seq<byte>, before: seq<byte>, after: seq<byte>, len: nat, r: int) {
    && |after| == |before| >= len
    && r == (if |bytes| <= len then |bytes| else -1)
    && after == if r == -1 then before else bytes + before[r..]
  }

  lemma NotWritten(bytes: seq<byte>, before: seq<byte>, len: nat)
    requires |bytes| > len && len <= |before|
    ensures Written(bytes, before, before, len, -1)
  {
  }

  /** Nothing has been written yet. */
  lemma Start(before: seq<byte>)
    ensures At(before, before, 0, [])
  {
    assert before[0..] == before;
  }

  lemma StartWith(text: string)
    ensures [] + Ascii(text) == Ascii(text)
  {
  }

  lemma Finish(before: seq<byte>, now: seq<byte>, dest: nat, len: nat, bytes: seq<byte>)
    requires At(before, now, dest, bytes) && dest <= len <= |before|
    ensures Written(bytes, before, now, len, dest)
  {
  }

  method EncodeQueryPing(m: Msg, buf: array<byte>, len: nat) returns (r: int)
    requires HasBytes(m) && m.kind == QPing && Printable(m) && len <= buf.Length
    modifies buf
    ensures Written(Enc(TreeOf(m)), old(buf[..]), buf[..], len, r)
  {
    PingBytes(m);
    BStrLen(m.id);
    TStrLen(m);
    hide Enc, Ascii, BStr, TStr, At, Written, NodesBytes;
    ghost var before := buf[..];
    if !(|"d1:ad2:id"| + HASHLEN + |"e1:q4:ping"| + TLen(m) + |"1:y1:qe"| <= len) {
      NotWritten(Enc(TreeOf(m)), before, len);
      return -1;
    }
    Start(before);
    StartWith("d1:ad2:id");
    var dest, written := SCpy(buf, 0, "d1:ad2:id", before, []);
    dest, written := BStringCpy(buf, dest, m.id, before, written);
    dest, written := SCpy(buf, dest, "e1:q4:ping", before, written);
    dest, written := TCpy(buf, dest, m, before, written);
    dest, written := SCpy(buf, dest, "1:y1:qe", before, written);
    Finish(before, buf[..], dest, len, written);
    return dest;
  }

  method EncodeQueryFindNode(m: Msg, buf: array<byte>, len: nat) returns (r: int)
    requires HasBytes(m) && m.kind == QFindNode && Printable(m) && len <= buf.Length
    modifies buf
    ensures Written(Enc(TreeOf(m)), old(buf[..]), buf[..], len, r)
  {
    ExtraKeys();
    MethodFragments();
    HashQueryBytes(m, "target", "6:target", m.data.target, "e1:q9:find_node");
    BStrLen(m.id);
    TStrLen(m);
    BStrLen(m.data.target);
    hide Enc, Ascii, BStr, TStr, At, Written, NodesBytes;
    ghost var before := buf[..];
    if !(|"d1:ad2:id"| + HASHLEN + |"6:target"| + HASHLEN + |"e1:q9:find_node"| + TLen(m) + |"1:y1:qe"| <= len) {
      NotWritten(Enc(TreeOf(m)), before, len);
      return -1;
    }
    Start(before);
    StartWith("d1:ad2:id");
    var dest, written := SCpy(buf, 0, "d1:ad2:id", before, []);
    dest, written := BStringCpy(buf, dest, m.id, before, written);
    dest, written := SCpy(buf, dest, "6:target", before, written);
    dest, written := BStringCpy(buf, dest, m.data.target, before, written);
    dest, written := SCpy(buf, dest, "e1:q9:find_node", before, written);
    dest, written := TCpy(buf, dest, m, before, written);
    dest, written := SCpy(buf, dest, "1:y1:qe", before, written);
    Finish(before, buf[..], dest, len, written);
    return dest;
  }

  method EncodeQueryGetPeers(m: Msg, buf: array<byte>, len: nat) returns (r: int)
    requires HasBytes(m) && m.kind == QGetPeers && Printable(m) && len <= buf.Length
    modifies buf
    ensures Written(Enc(TreeOf(m)), old(buf[..]), buf[..], len, r)
  {
    ExtraKeys();
    MethodFragments();
    HashQueryBytes(m, "info_hash", "9:info_hash", m.data.infoHash, "e1:q9:get_peers");
    BStrLen(m.id);
    TStrLen(m);
    BStrLen(m.data.infoHash);
    hide Enc, Ascii, BStr, TStr, At, Written, NodesBytes;
    ghost var before := buf[..];
    if !(|"d1:ad2:id"| + HASHLEN + |"9:info_hash"| + HASHLEN + |"e1:q9:get_peers"| + TLen(m) + |"1:y1:qe"| <= len) {
      NotWritten(Enc(TreeOf(m)), before, len);
      return -1;
    }
    Start(before);
    StartWith("d1:ad2:id");
    var dest, written := SCpy(buf, 0, "d1:ad2:id", before, []);
    dest, written := BStringCpy(buf, dest, m.id, before, written);
    dest, written := SCpy(buf, dest, "9:info_hash", before, written);
    dest, written := BStringCpy(buf, dest, m.data.infoHash, before, written);
    dest, written := SCpy(buf, dest, "e1:q9:get_peers", before, written);
    dest, written := TCpy(buf, dest, m, before, written);
    dest, written := SCpy(buf, dest, "1:y1:qe", before, written);
    Finish(before, buf[..], dest, len, written);
    return dest;
  }

  method EncodeQueryAnnouncePeer(m: Msg, buf: array<byte>, len: nat) returns (r: int)
    requires HasBytes(m) && m.kind == QAnnouncePeer && Printable(m) && len <= buf.Length
    modifies buf
    ensures Written(Enc(TreeOf(m)), old(buf[..]), buf[..], len, r)
  {
    AnnounceBytes(m);
    BStrLen(m.id);
    TStrLen(m);
    BStrLen(m.data.infoHash);
    BStrLen(m.data.token);
    IntegerLen(m.data.port);
    hide Enc, Ascii, BStr, TStr, At, Written, NodesBytes;
    ghost var before := buf[..];
    if !(|"d1:ad2:id"| + HASHLEN + |"9:info_hash"| + HASHLEN + |"4:port"| + ILen(m.data.port) + |"5:token"|
         + BStringLen(|m.data.token|) + |"e1:q13:announce_peer"| + TLen(m) + |"1:y1:qe"| <= len) {
      NotWritten(Enc(TreeOf(m)), before, len);
      return -1;
    }
    Start(before);
    StartWith("d1:ad2:id");
    var dest, written := SCpy(buf, 0, "d1:ad2:id", before, []);
    dest, written := BStringCpy(buf, dest, m.id, before, written);
    dest, written := SCpy(buf, dest, "9:info_hash", before, written);
    dest, written := BStringCpy(buf, dest, m.data.infoHash, before, written);
    dest, written := SCpy(buf, dest, "4:port", before, written);
    dest, written := ICpy(buf, dest, m.data.port, before, written);
    dest, written := SCpy(buf, dest, "5:token", before, written);
    dest, written := BStringCpy(buf, dest, m.data.token, before, written);
    dest, written := SCpy(buf, dest, "e1:q13:announce_peer", before, written);
    dest, written := TCpy(buf, dest, m, before, written);
    dest, written := SCpy(buf, dest, "1:y1:qe", before, written);
    Finish(before, buf[..], dest, len, written);
    return dest;
  }

  method EncodeResponsePing(m: Msg, buf: array<byte>, len: nat) returns (r: int)
    requires HasBytes(m) && m.kind == RPing && Printable(m) && len <= buf.Length
    modifies buf
    ensures Written(Enc(TreeOf(m)), old(buf[..]), buf[..], len, r)
  {
    BareReplyBytes(m);
    BStrLen(m.id);
    TStrLen(m);
    hide Enc, Ascii, BStr, TStr, At, Written, NodesBytes;
    ghost var before := buf[..];
    if !(|"d1:rd2:id"| + HASHLEN + |"e"| + TLen(m) + |"1:y1:re"| <= len) {
      NotWritten(Enc(TreeOf(m)), before, len);
      return -1;
    }
    Start(before);
    StartWith("d1:rd2:id");
    var dest, written := SCpy(buf, 0, "d1:rd2:id", before, []);
    dest, written := BStringCpy(buf, dest, m.id, before, written);
    dest, written := SCpy(buf, dest, "e", before, written);
    dest, written := TCpy(buf, dest, m, before, written);
    dest, written := SCpy(buf, dest, "1:y1:re", before, written);
    Finish(before, buf[..], dest, len, written);
    return dest;
  }

  method EncodeResponseAnnouncePeer(m: Msg, buf: array<byte>, len: nat) returns (r: int)
    requires HasBytes(m) && m.kind == RAnnouncePeer && Printable(m) && len <= buf.Length
    modifies buf
    ensures Written(Enc(TreeOf(m)), old(buf[..]), buf[..], len, r)
  {
    BareReplyBytes(m);
    BStrLen(m.id);
    TStrLen(m);
    hide Enc, Ascii, BStr, TStr, At, Written, NodesBytes;
    ghost var before := buf[..];
    if !(|"d1:rd2:id"| + HASHLEN + |"e"| + TLen(m) + |"1:y1:re"| <= len) {
      NotWritten(Enc(TreeOf(m)), before, len);
      return -1;
    }
    Start(before);
    StartWith("d1:rd2:id");
    var dest, written := SCpy(buf, 0, "d1:rd2:id", before, []);
    dest, written := BStringCpy(buf, dest, m.id, before, written);
    dest, written := SCpy(buf, dest, "e", before, written);
    dest, written := TCpy(buf, dest, m, before, written);
    dest, written := SCpy(buf, dest, "1:y1:re", before, written);
    Finish(before, buf[..], dest, len, written);
    return dest;
  }

  method EncodeResponseFindNode(m: Msg, buf: array<byte>, len: nat) returns (r: int)
    requires HasBytes(m) && m.kind == RFindNode && Printable(m) && len <= buf.Length
    modifies buf
    ensures Written(Enc(TreeOf(m)), old(buf[..]), buf[..], len, r)
  {
    FindNodeReplyBytes(m);
    BStrLen(m.id);
    TStrLen(m);
    BStrLen(NodesBytes(m.data.found));
    hide Enc, Ascii, BStr, TStr, At, Written, NodesBytes;
    ghost var before := buf[..];
    if !(|"d1:rd2:id"| + HASHLEN + NodesLen(|m.data.found|) + |"e"| + TLen(m) + |"1:y1:re"| <= len) {
      NotWritten(Enc(TreeOf(m)), before, len);
      return -1;
    }
    Start(before);
    StartWith("d1:rd2:id");
    var dest, written := SCpy(buf, 0, "d1:rd2:id", before, []);
    dest, written := BStringCpy(buf, dest, m.id, before, written);
    dest, written := NodesCpy(buf, dest, m.data.found, before, written);
    dest, written := SCpy(buf, dest, "e", before, written);
    dest, written := TCpy(buf, dest, m, before, written);
    dest, written := SCpy(buf, dest, "1:y1:re", before, written);
    Finish(before, buf[..], dest, len, written);
    return dest;
  }

  method EncodeResponseGetPeersValues(m: Msg, buf: array<byte>, len: nat) returns (r: int)
    requires HasBytes(m) && m.kind == RGetPeers && m.data.values.Some? && Printable(m) && len <= buf.Length
    modifies buf
    ensures Written(Enc(TreeOf(m)), old(buf[..]), buf[..], len, r)
  {
    ValuesReplyBytes(m);
    BStrLen(m.id);
    TStrLen(m);
    BStrLen(m.data.token);
    ValuesListLen(m.data.values.value);
    hide Enc, Ascii, BStr, TStr, At, Written, NodesBytes;
    ghost var before := buf[..];
    if !(|"d1:rd2:id"| + HASHLEN + |"5:token"| + BStringLen(|m.data.token|) + |"6:values"|
         + ValuesLen(|m.data.values.value|) + |"e"| + TLen(m) + |"1:y1:re"| <= len) {
      NotWritten(Enc(TreeOf(m)), before, len);
      return -1;
    }
    Start(before);
    StartWith("d1:rd2:id");
    var dest, written := SCpy(buf, 0, "d1:rd2:id", before, []);
    dest, written := BStringCpy(buf, dest, m.id, before, written);
    dest, written := SCpy(buf, dest, "5:token", before, written);
    dest, written := BStringCpy(buf, dest, m.data.token, before, written);
    dest, written := SCpy(buf, dest, "6:values", before, written);
    dest, written := ValuesCpy(buf, dest, m.data.values.value, before, written);
    dest, written := SCpy(buf, dest, "e", before, written);
    dest, written := TCpy(buf, dest, m, before, written);
    dest, written := SCpy(buf, dest, "1:y1:re", before, written);
    Finish(before, buf[..], dest, len, written);
    return dest;
  }

  method EncodeResponseGetPeersNodes(m: Msg, buf: array<byte>, len: nat) returns (r: int)
    requires HasBytes(m) && m.kind == RGetPeers && m.data.values.None? && Printable(m) && len <= buf.Length
    modifies buf
    ensures Written(Enc(TreeOf(m)), old(buf[..]), buf[..], len, r)
  {
    NodesReplyBytes(m);
    BStrLen(m.id);
    TStrLen(m);
    BStrLen(m.data.token);
    BStrLen(NodesBytes(m.data.nodes.value));
    hide Enc, Ascii, BStr, TStr, At, Written, NodesBytes;
    ghost var before := buf[..];
    if !(|"d1:rd2:id"| + HASHLEN + NodesLen(|m.data.nodes.value|) + |"5:token"| + BStringLen(|m.data.token|)
         + |"e"| + TLen(m) + |"1:y1:re"| <= len) {
      NotWritten(Enc(TreeOf(m)), before, len);
      return -1;
    }
    Start(before);
    StartWith("d1:rd2:id");
    var dest, written := SCpy(buf, 0, "d1:rd2:id", before, []);
    dest, written := BStringCpy(buf, dest, m.id, before, written);
    dest, written := NodesCpy(buf, dest, m.data.nodes.value, before, written);
    dest, written := SCpy(buf, dest, "5:token", before, written);
    dest, written := BStringCpy(buf, dest, m.data.token, before, written);
    dest, written := SCpy(buf, dest, "e", before, written);
    dest, written := TCpy(buf, dest, m, before, written);
    dest, written := SCpy(buf, dest, "1:y1:re", before, written);
    Finish(before, buf[..], dest, len, written);
    return dest;
  }

  method EncodeResponseError(m: Msg, buf: array<byte>, len: nat) returns (r: int)
    requires HasBytes(m) && m.kind == RError && Printable(m) && len <= buf.Length
    modifies buf
    ensures Written(Enc(TreeOf(m)), old(buf[..]), buf[..], len, r)
  {
    ErrorBytes(m.data.code, OrEmpty(m.data.message), m.t);
    TStrLen(m);
    IntegerLen(m.data.code);
    BStrLen(OrEmpty(m.data.message));
    hide Enc, Ascii, BStr, TStr, At, Written, NodesBytes;
    ghost var before := buf[..];
    if !(|"d1:el"| + ILen(m.data.code) + BStringLen(|OrEmpty(m.data.message)|) + |"e"| + TLen(m) + |"1:y1:ee"| <= len) {
      NotWritten(Enc(TreeOf(m)), before, len);
      return -1;
    }
    Start(before);
    StartWith("d1:el");
    var dest, written := SCpy(buf, 0, "d1:el", before, []);
    dest, written := ICpy(buf, dest, m.data.code, before, written);
    dest, written := BStringCpy(buf, dest, OrEmpty(m.data.message), before, written);
    dest, written := SCpy(buf, dest, "e", before, written);
    dest, written := TCpy(buf, dest, m, before, written);
    dest, written := SCpy(buf, dest, "1:y1:ee", before, written);
    Finish(before, buf[..], dest, len, written);
    return dest;
  }

  /**
    Message_Encode: -1 without writing when there is nothing to encode or no room for it, and otherwise the
    bencode of the message.
   */
  method MessageEncode(m: Msg, buf: array<byte>, len: nat) returns (r: int)
    requires Shaped(m) && Printable(m) && len <= buf.Length
    modifies buf
    ensures HasBytes(m) ==> Written(Enc(TreeOf(m)), old(buf[..]), buf[..], len, r)
    ensures !HasBytes(m) ==> r == -1 && buf[..] == old(buf[..])
  {
    hide Enc, Written;
    match m.kind
    case QPing => r := EncodeQueryPing(m, buf, len);
    case QFindNode => r := EncodeQueryFindNode(m, buf, len);
    case QGetPeers => r := EncodeQueryGetPeers(m, buf, len);
    case QAnnouncePeer => r := EncodeQueryAnnouncePeer(m, buf, len);
    case RPing => r := EncodeResponsePing(m, buf, len);
    case RFindNode => r := EncodeResponseFindNode(m, buf, len);
    case RGetPeers =>
      if m.data.values.Some? {
        r := EncodeResponseGetPeersValues(m, buf, len);
      } else if m.data.nodes.Some? {
        r := EncodeResponseGetPeersNodes(m, buf, len);
      } else {
        r := -1;
      }
    case RAnnouncePeer => r := EncodeResponseAnnouncePeer(m, buf, len);
    case RError => r := EncodeResponseError(m, buf, len);
    case MUnknown => r := -1;
  }

  const UDPBUFLEN: nat := 0xFFFF - 8 - 20

  /**
    A get_peers reply with as many peers as are ever kept, a token of 20 bytes and a transaction id of at
    most 1931 bytes fits a datagram, and 1931 is the limit.
   */
  lemma FullGetPeersReplyFits(m: Msg)
    requires HasBytes(m) && m.kind == RGetPeers && m.data.values.Some? && Printable(m)
    requires |m.data.values.value| <= MAXPEERS && |m.data.token| == 20 && |m.t| <= 1931
    ensures |Enc(TreeOf(m))| <= UDPBUFLEN
    ensures |m.data.values.value| == MAXPEERS && |m.t| == 1931 ==> |Enc(TreeOf(m))| == UDPBUFLEN
  {
    ValuesReplyBytes(m);
    BStrLen(m.id);
    TStrLen(m);
    BStrLen(m.data.token);
    ValuesListLen(m.data.values.value);
  }
}
