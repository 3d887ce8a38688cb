/** src/bencode.c: BDecode and its sub-decoders, on a buffer of which the len bytes from at on are the input. */
module BDecoder {
  import opened Bytes
  import opened Decimal
  import opened Bencode
  import opened KeyOrder
  import opened Reading

  /** The bytes of an input. */
  function Input(buf: seq<byte>, at: nat, len: nat): seq<byte>
    requires at + len <= |buf|
  {
    buf[at..at + len]
  }

  /** The byte behind an input, if the buffer has one. */
  function Next(buf: seq<byte>, at: nat): Option<byte> {
    if at < |buf| then Some(buf[at]) else None
  }

  lemma InputPart(buf: seq<byte>, at: nat, len: nat, i: nat, j: nat)
    requires at + len <= |buf| && i <= j <= len
    ensures Input(buf, at, len)[i..j] == buf[at + i..at + j]
  {
    var part, other := Input(buf, at, len)[i..j], buf[at + i..at + j];
    assert forall k :: 0 <= k < j - i ==> part[k] == Input(buf, at, len)[i + k] == buf[at + i + k] == other[k];
  }

  /** Digits that end inside a part of the buffer end there in the buffer. */
  lemma DigitsEndInBuffer(buf: seq<byte>, at: nat, len: nat, i: nat)
    requires at + len <= |buf| && i <= len && DigitsEnd(Input(buf, at, len), i) < len
    ensures var e := DigitsEnd(Input(buf, at, len), i);
      && DigitsEnd(buf, at + i) == at + e
      && buf[at + i..at + e] == Input(buf, at, len)[i..e] && AllDigits(buf[at + i..at + e])
  {
    var s := Input(buf, at, len);
    var e := DigitsEnd(s, i);
    DigitsEndMeaning(s, i);
    InputPart(buf, at, len, i, e);
    assert s[e] == buf[at + e];
    DigitsEndIs(buf, at + i, at + e);
  }

  /** Where the 'e' of an integer must be: behind a sign and digits, of which there may still be none behind a sign. */
  function IntegerEnd(s: seq<byte>): Option<nat> {
    if |s| < 2 || s[0] != 'i' as int then None
    else
      var e := DigitsEnd(s, if s[1] == '-' as int then 2 else 1);
      if 1 < e < |s| && s[e] == 'e' as int then Some(e) else None
  }

  method FindIntegerEnd(buf: seq<byte>, at: nat, len: nat) returns (end: Option<nat>)
    requires at + len <= |buf|
    ensures end == IntegerEnd(Input(buf, at, len))
  {
    ghost var s := Input(buf, at, len);
    if len == 0 || buf[at] != 'i' as int {
      return None;
    }
    ghost var a := if len > 1 && buf[at + 1] == '-' as int then 2 else 1;
    var i := 1;
    while i < len
      invariant 1 <= i <= len && (i < a || AllDigits(s[a..i]))
    {
      assert s[i] == buf[at + i];
      if i > 1 && buf[at + i] == 'e' as int {
        DigitsEndIs(s, a, i);
        return Some(i);
      }
      if IsDigit(buf[at + i]) || (i == 1 && buf[at + i] == '-' as int) {
        assert i >= a ==> s[a..i + 1] == s[a..i] + [s[i]];
        i := i + 1;
        continue;
      }
      break;
    }
    if len > 1 {
      DigitsEndIs(s, a, i);
    }
    return None;
  }

  /** What BDecode_integer accepts, where it is called for input that may start with anything. */
  ghost function IntegerAt(s: seq<byte>): Option<Parsed> {
    if |s| > 0 && s[0] == 'i' as int then ParseInteger(s) else None
  }

  method BDecodeInteger(buf: seq<byte>, at: nat, len: nat) returns (r: Option<Parsed>)
    requires at + len <= |buf|
    ensures r == IntegerAt(Input(buf, at, len))
  {
    ghost var s := Input(buf, at, len);
    var expectedEnd := FindIntegerEnd(buf, at, len);
    ghost var a := if len > 1 && s[1] == '-' as int then 2 else 1;
    if expectedEnd.None? {
      return None;
    }
    ghost var d := s[a..expectedEnd.value];
    DigitsEndInBuffer(buf, at, len, a);
    DigitsEndMeaning(s, a);
    NumZero(d);
    var integer := Strtol(buf, at + 1);
    if integer.end != at + expectedEnd.value {
      return None;
    }
    if integer.erange {
      return None;
    }
    assert d[0] == buf[at + a];
    if integer.value == 0 {
      if buf[at + 1] == '-' as int || buf[at + 1] != '0' as int || at + 2 != integer.end {
        return None;
      }
    } else if integer.value > 0 {
      if buf[at + 1] == '0' as int {
        return None;
      }
    } else if buf[at + 1] != '-' as int || buf[at + 2] == '0' as int {
      return None;
    }
    return Some(Parsed(BInteger(integer.value), integer.end - at + 1));
  }

  /** Where the colon behind the length of a string must be. */
  function LengthEnd(s: seq<byte>): Option<nat> {
    var e := DigitsEnd(s, 0);
    if 0 < e < |s| && s[e] == ':' as int then Some(e) else None
  }

  method FindStringLengthEnd(buf: seq<byte>, at: nat, len: nat) returns (end: Option<nat>)
    requires at + len <= |buf|
    ensures end == LengthEnd(Input(buf, at, len))
  {
    ghost var s := Input(buf, at, len);
    if len == 0 || !IsDigit(buf[at]) {
      return None;
    }
    var i := 1;
    while i < len
      invariant 1 <= i <= len && AllDigits(s[0..i])
    {
      assert s[i] == buf[at + i];
      if buf[at + i] == ':' as int {
        DigitsEndIs(s, 0, i);
        return Some(i);
      }
      if !IsDigit(buf[at + i]) {
        break;
      }
      assert s[0..i + 1] == s[0..i] + [s[i]];
      i := i + 1;
    }
    DigitsEndIs(s, 0, i);
    return None;
  }

  method BDecodeString(buf: seq<byte>, at: nat, len: nat) returns (r: Option<Parsed>)
    requires 0 < len && at + len <= |buf|
    ensures r == ParseString(Input(buf, at, len))
  {
    ghost var s := Input(buf, at, len);
    var expectedLengthEnd := FindStringLengthEnd(buf, at, len);
    if expectedLengthEnd.None? {
      return None;
    }
    DigitsEndInBuffer(buf, at, len, 0);
    ghost var e := expectedLengthEnd.value;
    assert s[0..e] == s[..e] && s[0] == s[..e][0] == buf[at];
    var stringLen := Strtol(buf, at);
    if stringLen.end != at + expectedLengthEnd.value {
      return None;
    }
    if stringLen.erange {
      return None;
    }
    if stringLen.value < 0 {
      return None;
    }
    var string_ := stringLen.end + 1;
    var stringEnd := string_ + stringLen.value;
    if stringEnd > at + len {
      return None;
    }
    if stringLen.value > 0 {
      if buf[at] == '0' as int {
        return None;
      }
    }
    InputPart(buf, at, len, e + 1, e + 1 + stringLen.value);
    return Some(Parsed(BString(buf[string_..stringEnd]), stringEnd - at));
  }

  /** What BDecode_list_or_dict builds: the nodes between the head and the final 'e'. */
  ghost function ListOrDict(s: seq<byte>, next: Option<byte>, head: byte): Reading<seq<BNode>> {
    if |s| > 0 && s[0] == head then
      match ReadNodes(s[1..], next)
      case NoTree => NoTree
      case Overread => Overread
      case Tree(nodes, len) => Tree(nodes, 1 + len)
    else NoTree
  }

  /** A result of ReadNodes with what was read before it. */
  ghost function Behind(nodes: seq<BNode>, len: nat, rest: Reading<seq<BNode>>): Reading<seq<BNode>> {
    match rest
    case NoTree => NoTree
    case Overread => Overread
    case Tree(more, n) => Tree(nodes + more, len + n)
  }

  lemma InputRest(buf: seq<byte>, at: nat, len: nat, n: nat)
    requires at + len <= |buf| && n <= len
    ensures Input(buf, at, len)[n..] == Input(buf, at + n, len - n)
  {
  }

  /** What is left of a list is read from here on. */
  ghost function NodesFrom(buf: seq<byte>, next: nat, nextLen: nat): Reading<seq<BNode>>
    requires next + nextLen <= |buf|
  {
    ReadNodes(Input(buf, next, nextLen), Next(buf, next + nextLen))
  }

  /** One more node: the loop of BDecode_list_or_dict takes one step of ReadNodes. */
  lemma BehindStep(buf: seq<byte>, next: nat, nextLen: nat, nodes: seq<BNode>, len: nat)
    requires 0 < nextLen && next + nextLen <= |buf| && buf[next] != 'e' as int
    ensures var whole := Behind(nodes, len, NodesFrom(buf, next, nextLen));
      match Read(Input(buf, next, nextLen), Next(buf, next + nextLen))
      case NoTree => whole == NoTree
      case Overread => whole == Overread
      case Tree(node, n) =>
        if n > nextLen then whole == Overread
        else whole == Behind(nodes + [node], len + n, NodesFrom(buf, next + n, nextLen - n))
  {
    hide Read;
    var s, c := Input(buf, next, nextLen), Next(buf, next + nextLen);
    assert s[0] == buf[next];
    match Read(s, c)
    case NoTree =>
    case Overread =>
    case Tree(node, n) =>
      if n <= nextLen {
        InputRest(buf, next, nextLen, n);
        match ReadNodes(s[n..], c)
        case NoTree =>
        case Overread =>
        case Tree(more, m) => assert nodes + ([node] + more) == nodes + [node] + more;
      }
  }

  /** Whether a list runs out is, at one of its nodes, a question of that node or of the rest. */
  lemma RunsOutAt(buf: seq<byte>, next: nat, nextLen: nat)
    requires 0 < nextLen && next + nextLen <= |buf| && buf[next] != 'e' as int
    ensures var s := Input(buf, next, nextLen);
      match Read(s, Next(buf, next + nextLen))
      case Tree(_, n) => if n > nextLen then RunsOutIn(s) <==> RunsOut(s)
        else !RunsOut(s) && (RunsOutIn(s) <==> RunsOutIn(Input(buf, next + n, nextLen - n)))
      case _ => RunsOutIn(s) <==> RunsOut(s)
  {
    var s, c := Input(buf, next, nextLen), Next(buf, next + nextLen);
    ReadOfParse(s, c);
    ReadIsParse(s, c);
    if Parse(s).Some? {
      RunsOutStep(s);
      InputRest(buf, next, nextLen, Parse(s).value.len);
    } else {
      FirstNodeOpen(s);
    }
  }

  /** No nodes are left, or no bytes. */
  lemma NoMoreNodes(buf: seq<byte>, next: nat, nextLen: nat)
    requires next + nextLen <= |buf| && (nextLen == 0 || buf[next] == 'e' as int)
    ensures NodesFrom(buf, next, nextLen) ==
      if next == |buf| then Overread else if buf[next] == 'e' as int then Tree([], 1) else NoTree
    ensures RunsOutIn(Input(buf, next, nextLen)) <==> nextLen == 0
  {
    if nextLen > 0 {
      assert Input(buf, next, nextLen)[0] == buf[next];
      EndIsNoNode(Input(buf, next, nextLen));
    }
  }

  /**
    BDecode_list_or_dict. ranOut says that some list or dictionary looked for its end when next_len was 0;
    the source then looks at the byte behind the input, whatever it is.
   */
  method BDecodeListOrDict(buf: seq<byte>, at: nat, len: nat, head: byte)
    returns (r: Reading<seq<BNode>>, ghost ranOut: bool)
    requires at + len <= |buf|
    ensures r == ListOrDict(Input(buf, at, len), Next(buf, at + len), head)
    ensures ranOut <==> len > 0 && buf[at] == head && RunsOutIn(Input(buf, at + 1, len - 1))
    decreases len, 0
  {
    hide Read, ReadNodes, RunsOut, RunsOutIn;
    if len == 0 {
      return NoTree, false;
    }
    if buf[at] != head {
      return NoTree, false;
    }
    InputRest(buf, at, len, 1);
    var nodes := [];
    var next, nextLen := at + 1, len - 1;
    ghost var whole := NodesFrom(buf, next, nextLen);
    assert whole == Behind(nodes, 0, whole) by {
      if whole.Tree? {
        assert nodes + whole.value == whole.value;
      }
    }
    while nextLen > 0 && buf[next] != 'e' as int
      invariant at < next && 0 <= nextLen < len && next + nextLen == at + len
      invariant whole == Behind(nodes, next - at - 1, NodesFrom(buf, next, nextLen))
      invariant RunsOutIn(Input(buf, at + 1, len - 1)) <==> RunsOutIn(Input(buf, next, nextLen))
      decreases nextLen
    {
      BehindStep(buf, next, nextLen, nodes, next - at - 1);
      RunsOutAt(buf, next, nextLen);
      var node;
      node, ranOut := BDecode(buf, next, nextLen);
      if !node.Tree? {
        return if node.NoTree? then NoTree else Overread, ranOut;
      }
      if node.len > nextLen {
        return Overread, ranOut;
      }
      nodes := nodes + [node.value];
      next := next + node.len;
      nextLen := nextLen - node.len;
    }
    NoMoreNodes(buf, next, nextLen);
    ranOut := nextLen == 0;
    if next == |buf| {
      return Overread, ranOut;
    }
    if buf[next] != 'e' as int {
      return NoTree, ranOut;
    }
    assert nodes + [] == nodes;
    r := Tree(nodes, next - at + 1);
  }

  method BDecodeList(buf: seq<byte>, at: nat, len: nat) returns (r: Reading<BNode>, ghost ranOut: bool)
    requires at + len <= |buf| && 0 < len && buf[at] == 'l' as int
    ensures r == Read(Input(buf, at, len), Next(buf, at + len))
    ensures ranOut <==> RunsOut(Input(buf, at, len))
    decreases len, 1
  {
    hide ReadNodes, RunsOutIn;
    InputRest(buf, at, len, 1);
    var list;
    list, ranOut := BDecodeListOrDict(buf, at, len, 'l' as int);
    r := match list case NoTree => NoTree case Overread => Overread case Tree(nodes, n) => Tree(BList(nodes), n);
  }

  /** The keys up to the i-th are strings in ascending order. */
  ghost predicate KeysUpTo(nodes: seq<BNode>, n: nat) {
    && (forall i: nat {:trigger KeyAt(nodes, i)} :: i < n && 2 * i < |nodes| ==> KeyAt(nodes, i).BString?)
    && (forall i: nat, j: nat {:trigger KeyAt(nodes, i), KeyAt(nodes, j)} :: i < j < n && 2 * j < |nodes| ==>
      IsLessThan(KeyAt(nodes, i).str, KeyAt(nodes, j).str))
  }

  /** A key above its neighbour is above all keys before it. */
  lemma KeysStep(nodes: seq<BNode>, n: nat)
    requires KeysUpTo(nodes, n) && 2 * n < |nodes| && KeyAt(nodes, n).BString?
    requires n > 0 ==> IsLessThan(KeyAt(nodes, n - 1).str, KeyAt(nodes, n).str)
    ensures KeysUpTo(nodes, n + 1)
  {
    forall i: nat | i < n ensures IsLessThan(KeyAt(nodes, i).str, KeyAt(nodes, n).str) {
      if i < n - 1 {
        CompareKeysOrder(KeyAt(nodes, i).str, KeyAt(nodes, n - 1).str, KeyAt(nodes, n).str);
      }
    }
  }

  /** BDecode_dictionary compares neighbours only; all keys are in order all the same. */
  method BDecodeDictionary(buf: seq<byte>, at: nat, len: nat) returns (r: Reading<BNode>, ghost ranOut: bool)
    requires at + len <= |buf| && 0 < len && buf[at] == 'd' as int
    ensures r == Read(Input(buf, at, len), Next(buf, at + len))
    ensures ranOut <==> RunsOut(Input(buf, at, len))
    decreases len, 1
  {
    hide ReadNodes, RunsOutIn;
    InputRest(buf, at, len, 1);
    var dict;
    dict, ranOut := BDecodeListOrDict(buf, at, len, 'd' as int);
    if !dict.Tree? {
      return if dict.NoTree? then NoTree else Overread, ranOut;
    }
    var nodes := dict.value;
    if |nodes| % 2 != 0 {
      return NoTree, ranOut;
    }
    var i := 0;
    while 2 * i < |nodes|
      invariant 0 <= i <= |nodes| && KeysUpTo(nodes, i)
    {
      var cur := KeyAt(nodes, i);
      if !cur.BString? {
        return NoTree, ranOut;
      }
      if i > 0 {
        var prev := KeyAt(nodes, i - 1);
        if !IsLessThan(prev.str, cur.str) {
          return NoTree, ranOut;
        }
      }
      KeysStep(nodes, i);
      i := i + 1;
    }
    r := Tree(BDictionary(nodes), dict.len);
  }

  /**
    BDecode, for any input in any buffer. ranOut tells whether the byte behind the input has been looked
    at, which happens exactly when the input runs out inside a list or dictionary.
   */
  method BDecode(buf: seq<byte>, at: nat, len: nat) returns (r: Reading<BNode>, ghost ranOut: bool)
    requires at + len <= |buf|
    ensures r == Read(Input(buf, at, len), Next(buf, at + len))
    ensures ranOut <==> RunsOut(Input(buf, at, len))
    decreases len, 2
  {
    ranOut := false;
    if len == 0 {
      return NoTree, false;
    }
    var c := buf[at];
    var p := None;
    if c == 'i' as int {
      p := BDecodeInteger(buf, at, len);
    } else if c == 'l' as int {
      r, ranOut := BDecodeList(buf, at, len);
      return;
    } else if c == 'd' as int {
      r, ranOut := BDecodeDictionary(buf, at, len);
      return;
    } else if IsDigit(c) {
      p := BDecodeString(buf, at, len);
    }
    r := OfParsed(p);
  }
}
