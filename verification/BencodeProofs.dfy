/** The parser accepts exactly bencode with padded zero lengths, and gives the one tree it stands for. */
module BencodeProofs {
  import opened Bytes
  import opened Decimal
  import opened Bencode

  lemma Cut<X>(s: seq<X>, m: nat, n: nat)
    requires m <= n <= |s|
    ensures s[..n][..m] == s[..m] && s[..n][m..] == s[m..][..n - m]
  {
  }

  lemma Inside(s: seq<byte>, head: byte, n: nat)
    requires 2 <= n <= |s|
    ensures s[..n][1..n - 1] == s[1..][..n - 2]
    ensures Wrapped(head, s[..n]) <==> s[0] == head && s[1..][n - 2] == 'e' as int
  {
  }

  lemma SignedMeaning(i: int)
    ensures var d := Signed(i);
      var a := if i < 0 then 1 else 0;
      && |d| > a && AllDigits(d[a..]) && Unpadded(d[a..]) && Num(d[a..]) == (if i < 0 then -i else i)
      && (i < 0 <==> d[0] == '-' as int)
  {
    if i < 0 {
      DecMeaning(-i);
      assert Signed(i)[1..] == Dec(-i);
    } else {
      DecMeaning(i);
      assert Signed(i)[0..] == Dec(i);
      assert IsDigit(Dec(i)[0]);
    }
  }

  lemma IntegerSound(s: seq<byte>)
    requires |s| > 0 && s[0] == 'i' as int && ParseInteger(s).Some?
    ensures var p := ParseInteger(s).value;
      Encodes(p.node, s[..p.len])
  {
    var p := ParseInteger(s).value;
    var negative := s[1] == '-' as int;
    var a := if negative then 2 else 1;
    var e := DigitsEnd(s, a);
    DigitsEndMeaning(s, a);
    DecOfNum(s[a..e]);
    if negative {
      assert s[..a] == ['i' as int] + ['-' as int];
    } else {
      assert s[..a] == ['i' as int];
    }
    assert s[..e + 1] == s[..a] + s[a..e] + ['e' as int];
    assert s[..e + 1] == ['i' as int] + Signed(p.node.integer) + ['e' as int];
  }

  lemma IntegerComplete(t: BNode, s: seq<byte>, n: nat)
    requires t.BInteger? && n <= |s| && Encodes(t, s[..n])
    ensures Parse(s) == Some(Parsed(t, n))
  {
    var d := Signed(t.integer);
    SignedMeaning(t.integer);
    var b := s[..n];
    assert n == |d| + 2 && b[0] == 'i' as int && b[n - 1] == 'e' as int && b[1..n - 1] == d;
    var a := if t.integer < 0 then 2 else 1;
    assert s[1] == b[1] == d[0];
    assert s[a..n - 1] == b[a..n - 1] == d[a - 1..];
    DigitsEndIs(s, a, n - 1);
  }

  lemma StringSound(s: seq<byte>)
    requires |s| > 0 && ParseString(s).Some?
    ensures var p := ParseString(s).value;
      Encodes(p.node, s[..p.len])
  {
    var p := ParseString(s).value;
    var e := DigitsEnd(s, 0);
    DigitsEndMeaning(s, 0);
    assert s[0..e] == s[..e];
    var n, b := Num(s[..e]), s[..p.len];
    NumZero(s[..e]);
    if n > 0 {
      DecOfNum(s[..e]);
    }
    assert |b| - n - 1 == e && b[..e] == s[..e] && b[e + 1..] == s[e + 1..e + 1 + n];
  }

  lemma LengthMeaning(d: seq<byte>, n: nat)
    requires IsLength(d, n)
    ensures |d| > 0 && AllDigits(d) && Num(d) == n && (n > 0 ==> d[0] != '0' as int)
  {
    DecMeaning(n);
    if d != Dec(n) {
      NumZero(d);
    }
  }

  lemma StringComplete(t: BNode, s: seq<byte>, n: nat)
    requires t.BString? && n <= |s| && Encodes(t, s[..n])
    ensures Parse(s) == Some(Parsed(t, n))
  {
    var k := n - |t.str| - 1;
    Cut(s, k, n);
    LengthMeaning(s[..k], |t.str|);
    assert s[..k] == s[0..k] && s[k] == s[..n][k] && s[0] == s[..k][0];
    DigitsEndIs(s, 0, k);
    assert s[..n][k + 1..] == s[k + 1..n];
  }

  lemma ParseNodesStep(s: seq<byte>)
    requires s != [] && s[0] != 'e' as int && Parse(s).Some? && ParseNodes(s[Parse(s).value.len..]).Some?
    ensures var p := Parse(s).value;
      var q := ParseNodes(s[p.len..]).value;
      ParseNodes(s) == Some(([p.node] + q.0, p.len + q.1))
  {
    hide Parse;
  }

  lemma EncodesFromStep(t: BNode, k: nat, b: seq<byte>, n: nat)
    requires (t.BList? || t.BDictionary?) && k < |t.nodes| && n <= |b|
    requires Encodes(t.nodes[k], b[..n]) && EncodesFrom(t, k + 1, b[n..])
    ensures EncodesFrom(t, k, b)
  {
    hide Encodes;
  }

  lemma EncodesFromSplit(t: BNode, k: nat, b: seq<byte>) returns (n: nat)
    requires (t.BList? || t.BDictionary?) && k < |t.nodes| && EncodesFrom(t, k, b)
    ensures n <= |b| && Encodes(t.nodes[k], b[..n]) && EncodesFrom(t, k + 1, b[n..])
  {
    hide Encodes;
    n :| n <= |b| && Encodes(t.nodes[k], b[..n]) && EncodesFrom(t, k + 1, b[n..]);
  }

  lemma {:induction false} ParseSound(s: seq<byte>)
    requires Parse(s).Some?
    ensures var p := Parse(s).value;
      Encodes(p.node, s[..p.len])
    decreases |s|, 0
  {
    if s[0] == 'i' as int {
      IntegerSound(s);
    } else if s[0] == 'l' as int || s[0] == 'd' as int {
      var p := Parse(s).value;
      assert p.node.nodes[0..] == p.node.nodes;
      NodesSound(s[1..], p.node, 0);
      Inside(s, s[0], p.len);
    } else {
      StringSound(s);
    }
  }

  lemma {:induction false} NodesSound(s: seq<byte>, t: BNode, k: nat)
    requires (t.BList? || t.BDictionary?) && k <= |t.nodes|
    requires ParseNodes(s).Some? && ParseNodes(s).value.0 == t.nodes[k..]
    ensures var n := ParseNodes(s).value.1 - 1;
      s[n] == 'e' as int && EncodesFrom(t, k, s[..n])
    decreases |s|, 1
  {
    hide Parse, ParseNodes, Encodes, EncodesFrom;
    if s[0] == 'e' as int {
      NoNodesSound(s, t, k);
    } else {
      NodesTail(s, t, k);
      var m := Parse(s).value.len;
      ParseSound(s);
      NodesSound(s[m..], t, k + 1);
      SoundStep(s, t, k, m, ParseNodes(s[m..]).value.1 - 1);
    }
  }

  lemma NoNodesSound(s: seq<byte>, t: BNode, k: nat)
    requires (t.BList? || t.BDictionary?) && k <= |t.nodes|
    requires s != [] && s[0] == 'e' as int && ParseNodes(s).Some? && ParseNodes(s).value.0 == t.nodes[k..]
    ensures ParseNodes(s).value.1 == 1 && k == |t.nodes| && EncodesFrom(t, k, s[..0])
  {
    assert |t.nodes[k..]| == 0;
  }

  /** One node in front of nodes that end in an 'e'. */
  lemma SoundStep(s: seq<byte>, t: BNode, k: nat, m: nat, n: nat)
    requires (t.BList? || t.BDictionary?) && k < |t.nodes| && m + n < |s|
    requires Encodes(t.nodes[k], s[..m]) && s[m..][n] == 'e' as int && EncodesFrom(t, k + 1, s[m..][..n])
    ensures s[m + n] == 'e' as int && EncodesFrom(t, k, s[..m + n])
  {
    hide Encodes, EncodesFrom;
    Cut(s, m, m + n);
    EncodesFromStep(t, k, s[..m + n], m);
  }

  lemma NodesTail(s: seq<byte>, t: BNode, k: nat)
    requires (t.BList? || t.BDictionary?) && k <= |t.nodes|
    requires ParseNodes(s).Some? && ParseNodes(s).value.0 == t.nodes[k..] && s[0] != 'e' as int
    ensures k < |t.nodes| && Parse(s).Some? && t.nodes[k] == Parse(s).value.node
    ensures var rest := s[Parse(s).value.len..];
      ParseNodes(rest).Some? && ParseNodes(rest).value.0 == t.nodes[k + 1..]
      && ParseNodes(s).value.1 == Parse(s).value.len + ParseNodes(rest).value.1
  {
    hide Parse;
    var p := Parse(s).value;
    assert t.nodes[k] == t.nodes[k..][0];
    assert t.nodes[k + 1..] == t.nodes[k..][1..];
  }

  /** The first byte says what is encoded; it is never an 'e'. */
  lemma EncodesFirst(t: BNode, b: seq<byte>)
    requires Encodes(t, b)
    ensures |b| > 0
    ensures match t
      case BString(_) => IsDigit(b[0])
      case BInteger(_) => b[0] == 'i' as int
      case BList(_) => b[0] == 'l' as int
      case BDictionary(_) => b[0] == 'd' as int
  {
    if t.BString? {
      var k := |b| - |t.str| - 1;
      assert b[0] == b[..k][0];
    }
  }

  lemma {:induction false} ParseComplete(t: BNode, s: seq<byte>, n: nat)
    requires n <= |s| && Encodes(t, s[..n])
    ensures Parse(s) == Some(Parsed(t, n))
    decreases t
  {
    hide Encodes, EncodesFrom, Parse, ParseNodes;
    match t
    case BString(_) => StringComplete(t, s, n);
    case BInteger(_) => IntegerComplete(t, s, n);
    case _ =>
      EncodesInside(t, s, n);
      NodesComplete(t, 0, s[1..], n - 2);
      assert t.nodes[0..] == t.nodes;
      ParseInside(t, s, n);
  }

  /** What is between the head and the end of a list or dictionary. */
  lemma EncodesInside(t: BNode, s: seq<byte>, n: nat)
    requires (t.BList? || t.BDictionary?) && n <= |s| && Encodes(t, s[..n])
    ensures 2 <= n && s[0] == (if t.BList? then 'l' as int else 'd' as int) && s[1..][n - 2] == 'e' as int
    ensures EncodesFrom(t, 0, s[1..][..n - 2]) && (t.BDictionary? ==> IsDict(t.nodes))
  {
    hide EncodesFrom, IsDict;
    assert n >= 2;
    Inside(s, if t.BList? then 'l' as int else 'd' as int, n);
  }

  lemma ParseInside(t: BNode, s: seq<byte>, n: nat)
    requires (t.BList? || t.BDictionary?) && 2 <= n <= |s| && s[0] == (if t.BList? then 'l' as int else 'd' as int)
    requires ParseNodes(s[1..]) == Some((t.nodes, n - 1)) && (t.BDictionary? ==> IsDict(t.nodes))
    ensures Parse(s) == Some(Parsed(t, n))
  {
    hide ParseNodes, IsDict;
  }

  lemma {:induction false} NodesComplete(t: BNode, k: nat, s: seq<byte>, n: nat)
    requires (t.BList? || t.BDictionary?) && k <= |t.nodes|
    requires n < |s| && s[n] == 'e' as int && EncodesFrom(t, k, s[..n])
    ensures ParseNodes(s) == Some((t.nodes[k..], n + 1))
    decreases t, 1 + |t.nodes| - k
  {
    hide Parse, ParseNodes, Encodes, EncodesFrom;
    if k == |t.nodes| {
      NoNodesComplete(t, k, s, n);
    } else {
      var m := SplitFirst(t, k, s, n);
      ParseComplete(t.nodes[k], s, m);
      NodesComplete(t, k + 1, s[m..], n - m);
      CompleteStep(t, k, s, n, m);
    }
  }

  lemma NoNodesComplete(t: BNode, k: nat, s: seq<byte>, n: nat)
    requires (t.BList? || t.BDictionary?) && k == |t.nodes|
    requires n < |s| && s[n] == 'e' as int && EncodesFrom(t, k, s[..n])
    ensures ParseNodes(s) == Some((t.nodes[k..], n + 1))
  {
    assert |s[..n]| == 0 && t.nodes[k..] == [];
  }

  /** The encoding of the first of some nodes, which does not begin with an 'e', and what follows it. */
  lemma SplitFirst(t: BNode, k: nat, s: seq<byte>, n: nat) returns (m: nat)
    requires (t.BList? || t.BDictionary?) && k < |t.nodes| && n < |s| && EncodesFrom(t, k, s[..n])
    ensures 0 < m <= n && s[0] != 'e' as int
    ensures Encodes(t.nodes[k], s[..m]) && EncodesFrom(t, k + 1, s[m..][..n - m])
  {
    hide Encodes, EncodesFrom;
    m := EncodesFromSplit(t, k, s[..n]);
    Cut(s, m, n);
    EncodesFirst(t.nodes[k], s[..m]);
    assert s[0] == s[..m][0];
  }

  lemma CompleteStep(t: BNode, k: nat, s: seq<byte>, n: nat, m: nat)
    requires (t.BList? || t.BDictionary?) && k < |t.nodes| && m <= n < |s| && s[0] != 'e' as int
    requires Parse(s) == Some(Parsed(t.nodes[k], m)) && ParseNodes(s[m..]) == Some((t.nodes[k + 1..], n - m + 1))
    ensures ParseNodes(s) == Some((t.nodes[k..], n + 1))
  {
    hide Parse, ParseNodes;
    ParseNodesStep(s);
    assert t.nodes[k..] == [t.nodes[k]] + t.nodes[k + 1..];
  }

  /** Parsing succeeds exactly when some prefix is valid bencode, consumes that prefix and returns its tree. */
  lemma ParseExact(s: seq<byte>, t: BNode, n: nat)
    ensures Parse(s) == Some(Parsed(t, n)) <==> n <= |s| && Encodes(t, s[..n])
  {
    if Parse(s) == Some(Parsed(t, n)) {
      ParseSound(s);
    }
    if n <= |s| && Encodes(t, s[..n]) {
      ParseComplete(t, s, n);
    }
  }

  /** No encoding is a prefix of another one, and none has two trees. */
  lemma EncodingUnique(t: BNode, b: seq<byte>, u: BNode, c: seq<byte>)
    requires Encodes(t, b) && Encodes(u, c) && b <= c
    ensures t == u && b == c
  {
    assert c[..|b|] == b && c[..|c|] == c;
    ParseComplete(t, c, |b|);
    ParseComplete(u, c, |c|);
  }

  lemma {:induction false} EncEncodes(t: BNode)
    requires Encodable(t)
    ensures Encodes(t, Enc(t))
    decreases t
  {
    match t
    case BString(str) =>
      var b := Enc(t);
      assert b[..|Dec(|str|)|] == Dec(|str|) && b[|Dec(|str|)| + 1..] == str;
    case BInteger(i) =>
    case _ =>
      EncFromEncodes(t, 0);
      assert Enc(t)[1..|Enc(t)| - 1] == EncFrom(t, 0);
  }

  lemma {:induction false} EncFromEncodes(t: BNode, k: nat)
    requires (t.BList? || t.BDictionary?) && k <= |t.nodes| && Encodable(t)
    ensures EncodesFrom(t, k, EncFrom(t, k))
    decreases t, 1 + |t.nodes| - k
  {
    if k < |t.nodes| {
      EncEncodes(t.nodes[k]);
      EncFromEncodes(t, k + 1);
      var b, n := EncFrom(t, k), |Enc(t.nodes[k])|;
      assert b[..n] == Enc(t.nodes[k]) && b[n..] == EncFrom(t, k + 1);
    }
  }

  lemma {:induction false} EncodesEncodable(t: BNode, b: seq<byte>)
    requires Encodes(t, b)
    ensures Encodable(t)
    decreases t
  {
    if t.BList? || t.BDictionary? {
      EncodesFromEncodable(t, 0, b[1..|b| - 1]);
    }
  }

  lemma {:induction false} EncodesFromEncodable(t: BNode, k: nat, b: seq<byte>)
    requires (t.BList? || t.BDictionary?) && k <= |t.nodes| && EncodesFrom(t, k, b)
    ensures forall i :: k <= i < |t.nodes| ==> Encodable(t.nodes[i])
    decreases t, 1 + |t.nodes| - k
  {
    if k < |t.nodes| {
      var n := EncodesFromSplit(t, k, b);
      EncodesEncodable(t.nodes[k], b[..n]);
      EncodesFromEncodable(t, k + 1, b[n..]);
    }
  }

  /**
    The encoding of a tree, whatever follows it, is decoded to that tree; and only encodable trees are ever
    decoded.
   */
  lemma ParseOfEnc(t: BNode, rest: seq<byte>)
    ensures Parse(Enc(t) + rest) == Some(Parsed(t, |Enc(t)|)) <==> Encodable(t)
  {
    var s := Enc(t) + rest;
    assert s[..|Enc(t)|] == Enc(t);
    if Encodable(t) {
      EncEncodes(t);
    }
    ParseExact(s, t, |Enc(t)|);
    if Encodes(t, Enc(t)) {
      EncodesEncodable(t, Enc(t));
    }
  }

  /** Every decoded tree is encodable, so its dictionaries are in order all the way down. */
  lemma ParsedIsEncodable(s: seq<byte>)
    requires Parse(s).Some?
    ensures Encodable(Parse(s).value.node)
  {
    ParseSound(s);
    EncodesEncodable(Parse(s).value.node, s[..Parse(s).value.len]);
  }
}
