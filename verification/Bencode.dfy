/** Bencoding: the trees of src/bencode.c, what it means for bytes to encode one, and a parser as a function. */
module Bencode {
  import opened Bytes
  import opened Decimal

  /** The nodes of a dictionary are its keys and values in turn. */
  datatype BNode =
    | BString(str: seq<byte>)
    | BInteger(integer: int)
    | BList(nodes: seq<BNode>)
    | BDictionary(nodes: seq<BNode>)

  /** A decoded node and the length of its source. */
  datatype Parsed = Parsed(node: BNode, len: nat)

  /** compare_keys: as memcmp on the common length, then the shorter first. */
  function CompareKeys(a: seq<byte>, b: seq<byte>): int {
    var m := if |a| < |b| then |a| else |b|;
    var cmp := MemCmp(a[..m], b[..m]);
    if cmp != 0 then cmp else if |a| < |b| then -1 else if |b| < |a| then 1 else 0
  }

  predicate IsLessThan(a: seq<byte>, b: seq<byte>) {
    CompareKeys(a, b) < 0
  }

  function KeyAt(nodes: seq<BNode>, i: nat): BNode
    requires 2 * i < |nodes|
  {
    nodes[2 * i]
  }

  /** Keys and values in turn, the keys being strings in strictly ascending order. */
  ghost predicate IsDict(nodes: seq<BNode>) {
    && |nodes| % 2 == 0
    && (forall i: nat {:trigger KeyAt(nodes, i)} :: 2 * i < |nodes| ==> KeyAt(nodes, i).BString?)
    && (forall i: nat, j: nat {:trigger KeyAt(nodes, i), KeyAt(nodes, j)} :: i < j && 2 * j < |nodes| ==>
      IsLessThan(KeyAt(nodes, i).str, KeyAt(nodes, j).str))
  }

  /** How the length of a string may be written: without padding, except that zero may be any number of zeros. */
  predicate IsLength(d: seq<byte>, n: nat) {
    d == Dec(n) || (n == 0 && |d| > 0 && forall k :: 0 <= k < |d| ==> d[k] == '0' as int)
  }

  function Signed(i: int): seq<byte> {
    if i < 0 then ['-' as int] + Dec(-i) else Dec(i)
  }

  /** b is valid bencode for t: 64-bit unpadded integers, ascending string keys, lengths that fit a long. */
  ghost predicate Encodes(t: BNode, b: seq<byte>)
    decreases t
  {
    match t
    case BString(str) =>
      var k := |b| - |str| - 1;
      k >= 0 && |str| <= LONG_MAX && IsLength(b[..k], |str|) && b[k] == ':' as int && b[k + 1..] == str
    case BInteger(i) => LONG_MIN <= i <= LONG_MAX && b == ['i' as int] + Signed(i) + ['e' as int]
    case BList(nodes) => Wrapped('l' as int, b) && EncodesFrom(t, 0, b[1..|b| - 1])
    case BDictionary(nodes) => Wrapped('d' as int, b) && IsDict(nodes) && EncodesFrom(t, 0, b[1..|b| - 1])
  }

  predicate Wrapped(head: byte, b: seq<byte>) {
    |b| >= 2 && b[0] == head && b[|b| - 1] == 'e' as int
  }

  /** b is the encodings of the nodes of t from the k-th on, one after the other. */
  ghost predicate EncodesFrom(t: BNode, k: nat, b: seq<byte>)
    requires (t.BList? || t.BDictionary?) && k <= |t.nodes|
    decreases t, 1 + |t.nodes| - k
  {
    if k == |t.nodes| then b == []
    else exists n: nat {:trigger b[..n]} :: n <= |b| && Encodes(t.nodes[k], b[..n]) && EncodesFrom(t, k + 1, b[n..])
  }

  /** The one encoding without padded lengths. */
  function Enc(t: BNode): seq<byte>
    decreases t
  {
    match t
    case BString(str) => Dec(|str|) + [':' as int] + str
    case BInteger(i) => ['i' as int] + Signed(i) + ['e' as int]
    case BList(nodes) => ['l' as int] + EncFrom(t, 0) + ['e' as int]
    case BDictionary(nodes) => ['d' as int] + EncFrom(t, 0) + ['e' as int]
  }

  function EncFrom(t: BNode, k: nat): seq<byte>
    requires (t.BList? || t.BDictionary?) && k <= |t.nodes|
    decreases t, 1 + |t.nodes| - k
  {
    if k == |t.nodes| then [] else Enc(t.nodes[k]) + EncFrom(t, k + 1)
  }

  /** The trees that have an encoding. */
  ghost predicate Encodable(t: BNode) {
    match t
    case BString(str) => |str| <= LONG_MAX
    case BInteger(i) => LONG_MIN <= i <= LONG_MAX
    case BList(nodes) => forall k :: 0 <= k < |nodes| ==> Encodable(nodes[k])
    case BDictionary(nodes) => IsDict(nodes) && forall k :: 0 <= k < |nodes| ==> Encodable(nodes[k])
  }

  /** The whole of BDecode as a function of the bytes it is given. */
  ghost function Parse(s: seq<byte>): (r: Option<Parsed>)
    ensures r.Some? ==> 0 < r.value.len <= |s|
    decreases |s|, 0
  {
    if s == [] then None
    else if s[0] == 'i' as int then ParseInteger(s)
    else if s[0] == 'l' as int then
      match ParseNodes(s[1..])
      case None => None
      case Some(p) => Some(Parsed(BList(p.0), 1 + p.1))
    else if s[0] == 'd' as int then
      match ParseNodes(s[1..])
      case None => None
      case Some(p) => if IsDict(p.0) then Some(Parsed(BDictionary(p.0), 1 + p.1)) else None
    else ParseString(s)
  }

  /** Nodes up to an 'e', which counts into the length. */
  ghost function ParseNodes(s: seq<byte>): (r: Option<(seq<BNode>, nat)>)
    ensures r.Some? ==> 0 < r.value.1 <= |s|
    decreases |s|, 1
  {
    if s == [] then None
    else if s[0] == 'e' as int then Some(([], 1))
    else
      match Parse(s)
      case None => None
      case Some(p) =>
        match ParseNodes(s[p.len..])
        case None => None
        case Some(q) => Some(([p.node] + q.0, p.len + q.1))
  }

  ghost function ParseInteger(s: seq<byte>): (r: Option<Parsed>)
    requires |s| > 0 && s[0] == 'i' as int
    ensures r.Some? ==> 0 < r.value.len <= |s|
  {
    var negative := |s| > 1 && s[1] == '-' as int;
    var a := if negative then 2 else 1;
    var e := DigitsEnd(s, a);
    DigitsEndMeaning(s, a);
    if e == |s| || s[e] != 'e' as int || !Unpadded(s[a..e]) then None
    else
      var n := Num(s[a..e]);
      var i: int := if negative then 0 - n else n;
      if (negative && n == 0) || !(LONG_MIN <= i <= LONG_MAX) then None else Some(Parsed(BInteger(i), e + 1))
  }

  ghost function ParseString(s: seq<byte>): (r: Option<Parsed>)
    requires |s| > 0
    ensures r.Some? ==> 0 < r.value.len <= |s|
  {
    var e := DigitsEnd(s, 0);
    DigitsEndMeaning(s, 0);
    if e == 0 || e == |s| || s[e] != ':' as int then None
    else
      var n := Num(s[..e]);
      if n > LONG_MAX || e + 1 + n > |s| || (n > 0 && s[0] == '0' as int) then None
      else Some(Parsed(BString(s[e + 1..e + 1 + n]), e + 1 + n))
  }
}
