/**
  What BDecode makes of input that runs out inside a list or dictionary. The source then looks for the
  end of the list at the byte behind the input, which may be missing, stale, or an 'e' by chance.
 */
module Reading {
  import opened Bytes
  import opened Decimal
  import opened Bencode
  import opened BencodeProofs

  /** The length of a tree may be one more than the input; Overread is reading on behind the byte behind the input. */
  datatype Reading<+T> = Tree(value: T, len: nat) | NoTree | Overread

  predicate IsContainer(t: BNode) {
    t.BList? || t.BDictionary?
  }

  function OfParsed(p: Option<Parsed>): Reading<BNode> {
    match p case None => NoTree case Some(q) => Tree(q.node, q.len)
  }

  /** BDecode on the input s, behind which the byte next can be read. */
  ghost function Read(s: seq<byte>, next: Option<byte>): (r: Reading<BNode>)
    ensures r.Tree? ==> 0 < r.len <= |s| + 1
    decreases |s|, 0
  {
    if s == [] then NoTree
    else if s[0] == 'i' as int then OfParsed(ParseInteger(s))
    else if s[0] == 'l' as int then
      match ReadNodes(s[1..], next)
      case NoTree => NoTree
      case Overread => Overread
      case Tree(nodes, len) => Tree(BList(nodes), 1 + len)
    else if s[0] == 'd' as int then
      match ReadNodes(s[1..], next)
      case NoTree => NoTree
      case Overread => Overread
      case Tree(nodes, len) => if IsDict(nodes) then Tree(BDictionary(nodes), 1 + len) else NoTree
    else OfParsed(ParseString(s))
  }

  /** Nodes up to an 'e'. A node longer than the input makes next_len wrap around, so that reading does not stop. */
  ghost function ReadNodes(s: seq<byte>, next: Option<byte>): (r: Reading<seq<BNode>>)
    ensures r.Tree? ==> 0 < r.len <= |s| + 1
    decreases |s|, 1
  {
    if s == [] then
      match next
      case None => Overread
      case Some(c) => if c == 'e' as int then Tree([], 1) else NoTree
    else if s[0] == 'e' as int then Tree([], 1)
    else
      match Read(s, next)
      case NoTree => NoTree
      case Overread => Overread
      case Tree(node, n) =>
        if n > |s| then Overread
        else
          match ReadNodes(s[n..], next)
          case NoTree => NoTree
          case Overread => Overread
          case Tree(nodes, m) => Tree([node] + nodes, n + m)
  }

  // ---- Input that runs out

  /** s begins with a list or dictionary and ends inside it. */
  ghost predicate RunsOut(s: seq<byte>)
    decreases |s|, 0
  {
    |s| > 0 && (s[0] == 'l' as int || s[0] == 'd' as int) && RunsOutIn(s[1..])
  }

  /** s is encodings one after the other, and then nothing or a list or dictionary that it ends inside. */
  ghost predicate RunsOutIn(s: seq<byte>)
    decreases |s|, 1
  {
    || s == [] || RunsOut(s)
    || exists t, n: nat {:trigger Encodes(t, s[..n])} :: 0 < n <= |s| && Encodes(t, s[..n]) && RunsOutIn(s[n..])
  }

  /** A list or dictionary that only the byte behind the input closes. */
  ghost predicate ClosedBehind(s: seq<byte>, t: BNode) {
    IsContainer(t) && Encodes(t, s + ['e' as int])
  }

  /** s begins with a list or dictionary, inside which stands one that only the byte behind the input closes. */
  ghost predicate EndsInside(s: seq<byte>)
    decreases |s|, 0
  {
    |s| > 0 && (s[0] == 'l' as int || s[0] == 'd' as int) && EndsInsideIn(s[1..])
  }

  ghost predicate EndsInsideIn(s: seq<byte>)
    decreases |s|, 1
  {
    || (exists t :: ClosedBehind(s, t)) || EndsInside(s)
    || exists t, n: nat {:trigger Encodes(t, s[..n])} :: 0 < n <= |s| && Encodes(t, s[..n]) && EndsInsideIn(s[n..])
  }

  // ---- Success does not depend on the byte behind the input

  /** The number and the nodes that come of a list with enough input. */
  ghost predicate SameNodes(r: Reading<seq<BNode>>, p: Option<(seq<BNode>, nat)>, n: nat) {
    match p
    case Some(q) => r == Tree(q.0, q.1)
    case None => !r.Tree? || r.len == n + 1
  }

  lemma {:induction false} ReadOfParse(s: seq<byte>, next: Option<byte>)
    ensures Parse(s).Some? ==> Read(s, next) == OfParsed(Parse(s))
    ensures Parse(s).None? && Read(s, next).Tree? ==> Read(s, next).len == |s| + 1
    decreases |s|, 0
  {
    if s != [] && (s[0] == 'l' as int || s[0] == 'd' as int) {
      ReadOfParseNodes(s[1..], next);
    }
  }

  lemma {:induction false} ReadOfParseNodes(s: seq<byte>, next: Option<byte>)
    ensures SameNodes(ReadNodes(s, next), ParseNodes(s), |s|)
    decreases |s|, 1
  {
    if s != [] && s[0] != 'e' as int {
      ReadOfParse(s, next);
      hide Parse, Read;
      if Parse(s).Some? {
        ReadOfParseNodes(s[Parse(s).value.len..], next);
      }
    }
  }

  /** A tree within the input is read exactly when it is parsed, whatever is behind the input. */
  lemma ReadWithinInput(s: seq<byte>, next: Option<byte>, t: BNode, n: nat)
    ensures n <= |s| && Read(s, next) == Tree(t, n) <==> n <= |s| && Encodes(t, s[..n])
  {
    ReadOfParse(s, next);
    ParseExact(s, t, n);
    hide Parse, Read, Encodes;
  }

  // ---- A list closed by the byte behind the input

  const END: seq<byte> := ['e' as int]

  /** What is parsed within s is parsed the same with a byte more. */
  lemma ParseMore(s: seq<byte>, t: BNode, n: nat)
    requires n <= |s|
    ensures Parse(s) == Some(Parsed(t, n)) <==> Parse(s + END) == Some(Parsed(t, n))
  {
    ParseExact(s, t, n);
    ParseExact(s + END, t, n);
    hide Parse, Encodes;
    assert (s + END)[..n] == s[..n];
  }

  /** With an 'e' behind the input, nodes are read as if it belonged to the input. */
  lemma {:induction false} NodesBehind(s: seq<byte>, q: seq<BNode>, m: nat)
    ensures ReadNodes(s, Some('e' as int)) == Tree(q, m) <==> ParseNodes(s + END) == Some((q, m))
    decreases |s|
  {
    ReadOfParse(s, Some('e' as int));
    if s == [] || s[0] == 'e' as int {
      assert (s + END)[0] == 'e' as int;
    } else {
      assert (s + END)[0] == s[0];
      match Parse(s)
      case None => NodesBehindNone(s);
      case Some(p) =>
        hide Parse, Read;
        ParseMore(s, p.node, p.len);
        assert (s + END)[p.len..] == s[p.len..] + END;
        forall q', m' {
          NodesBehind(s[p.len..], q', m');
        }
    }
  }

  lemma NodesBehindNone(s: seq<byte>)
    requires s != [] && s[0] != 'e' as int && Parse(s) == None
    ensures !ReadNodes(s, Some('e' as int)).Tree? && ParseNodes(s + END) == None
  {
    ReadOfParse(s, Some('e' as int));
    assert (s + END)[0] == s[0];
    match Parse(s + END)
    case None =>
    case Some(p) =>
      hide Parse, Read;
      if p.len <= |s| {
        ParseMore(s, p.node, p.len);
        assert false;
      }
      assert (s + END)[p.len..] == [];
  }

  /** Without an 'e' behind the input no tree is longer than the input. */
  lemma {:induction false} ReadFits(s: seq<byte>, next: Option<byte>)
    requires next != Some('e' as int)
    ensures Read(s, next).Tree? ==> Read(s, next).len <= |s|
    decreases |s|, 0
  {
    if s != [] && (s[0] == 'l' as int || s[0] == 'd' as int) {
      ReadNodesFits(s[1..], next);
    }
  }

  lemma {:induction false} ReadNodesFits(s: seq<byte>, next: Option<byte>)
    requires next != Some('e' as int)
    ensures ReadNodes(s, next).Tree? ==> ReadNodes(s, next).len <= |s|
    decreases |s|, 1
  {
    if s != [] && s[0] != 'e' as int {
      ReadFits(s, next);
      hide Read;
      if Read(s, next).Tree? {
        ReadNodesFits(s[Read(s, next).len..], next);
      }
    }
  }

  lemma NothingIsClosedBehind(t: BNode)
    ensures !ClosedBehind([], t)
  {
  }

  /** What the first byte, and the nodes of a dictionary, must be for t. */
  ghost predicate Heads(c: byte, t: BNode) {
    (t.BList? && c == 'l' as int) || (t.BDictionary? && c == 'd' as int && IsDict(t.nodes))
  }

  /** A list or dictionary is read, or parsed, exactly when its nodes are. */
  lemma ContainerRead(s: seq<byte>, next: Option<byte>, t: BNode, n: nat)
    requires s != [] && IsContainer(t)
    ensures Read(s, next) == Tree(t, n + 1) <==> Heads(s[0], t) && ReadNodes(s[1..], next) == Tree(t.nodes, n)
  {
    LeavesAreLeaves(s);
    hide ReadNodes, ParseInteger, ParseString, IsDict;
  }

  lemma ContainerParsed(s: seq<byte>, t: BNode, n: nat)
    requires s != [] && IsContainer(t)
    ensures Parse(s) == Some(Parsed(t, n + 1)) <==> Heads(s[0], t) && ParseNodes(s[1..]) == Some((t.nodes, n))
  {
    LeavesAreLeaves(s);
    hide ParseNodes, ParseInteger, ParseString, IsDict;
  }

  lemma LeavesAreLeaves(s: seq<byte>)
    requires s != []
    ensures s[0] == 'i' as int && ParseInteger(s).Some? ==> ParseInteger(s).value.node.BInteger?
    ensures ParseString(s).Some? ==> ParseString(s).value.node.BString?
  {
  }

  /** Integers and strings are read within the input. */
  lemma LeafFits(s: seq<byte>, next: Option<byte>)
    requires s != [] && Read(s, next).Tree? && !IsContainer(Read(s, next).value)
    ensures Read(s, next).len <= |s|
  {
    hide ReadNodes, ParseInteger, ParseString, IsDict;
  }

  /** A tree longer than the input is read exactly when the byte behind the input is an 'e' that closes it. */
  lemma ReadBehindInput(s: seq<byte>, next: Option<byte>, t: BNode)
    ensures Read(s, next) == Tree(t, |s| + 1) <==> next == Some('e' as int) && ClosedBehind(s, t)
  {
    if next != Some('e' as int) {
      ReadFits(s, next);
      hide *;
    } else if s == [] {
      NothingIsClosedBehind(t);
    } else {
      ParseExact(s + END, t, |s| + 1);
      assert (s + END)[..|s| + 1] == s + END && (s + END)[0] == s[0] && (s + END)[1..] == s[1..] + END;
      hide Read, ReadNodes, Parse, ParseNodes, Encodes, Heads;
      if IsContainer(t) {
        ContainerRead(s, next, t, |s|);
        ContainerParsed(s + END, t, |s|);
        NodesBehind(s[1..], t.nodes, |s|);
      } else if Read(s, next) == Tree(t, |s| + 1) {
        LeafFits(s, next);
        assert false;
      }
    }
  }

  // ---- Reading on behind the byte behind the input

  /** Behind a complete encoding it is the rest that runs out, and nothing else does. */
  lemma RunsOutStep(s: seq<byte>)
    requires Parse(s).Some? && !RunsOut(s) && s != []
    ensures RunsOutIn(s) <==> RunsOutIn(s[Parse(s).value.len..])
  {
    var p := Parse(s).value;
    ParseSound(s);
    assert RunsOutIn(s[p.len..]) ==> RunsOutIn(s);
    hide Parse, RunsOut;
    if RunsOutIn(s) {
      var t, n: nat :| 0 < n <= |s| && Encodes(t, s[..n]) && RunsOutIn(s[n..]);
      ParseExact(s, t, n);
    }
  }

  lemma EndsInsideStep(s: seq<byte>)
    requires Parse(s).Some? && !EndsInside(s)
    ensures EndsInsideIn(s) <==> EndsInsideIn(s[Parse(s).value.len..])
  {
    var p := Parse(s).value;
    ParseSound(s);
    assert EndsInsideIn(s[p.len..]) ==> EndsInsideIn(s);
    hide Parse, EndsInside;
    if EndsInsideIn(s) {
      if t :| ClosedBehind(s, t) {
        assert s[..p.len] <= s + END;
        EncodingUnique(p.node, s[..p.len], t, s + END);
        assert false;
      }
      var t, n: nat :| 0 < n <= |s| && Encodes(t, s[..n]) && EndsInsideIn(s[n..]);
      ParseExact(s, t, n);
    }
  }

  /** Without a complete encoding to begin with, it is the first node that does not end. */
  lemma FirstNodeOpen(s: seq<byte>)
    requires Parse(s) == None
    ensures RunsOutIn(s) <==> s == [] || RunsOut(s)
    ensures EndsInsideIn(s) <==> (exists t :: ClosedBehind(s, t)) || EndsInside(s)
  {
    forall t, n: nat | 0 < n <= |s| ensures !Encodes(t, s[..n]) {
      ParseExact(s, t, n);
    }
  }

  /** Nothing begins with an 'e'. */
  lemma EndIsNoNode(s: seq<byte>)
    requires s != [] && s[0] == 'e' as int
    ensures Parse(s) == None && !RunsOutIn(s) && !EndsInsideIn(s)
  {
    assert !IsDigit(s[0]) && DigitsEnd(s, 0) == 0;
    FirstNodeOpen(s);
    forall t ensures !ClosedBehind(s, t) {
      if ClosedBehind(s, t) {
        EncodesFirst(t, s + END);
      }
    }
  }

  /** When reading goes on behind the byte behind the input. */
  ghost predicate GoesOn(next: Option<byte>, runsOut: bool, endsInside: bool) {
    (next == None && runsOut) || (next == Some('e' as int) && endsInside)
  }

  lemma {:induction false} OverreadExactly(s: seq<byte>, next: Option<byte>)
    ensures Read(s, next) == Overread <==> GoesOn(next, RunsOut(s), EndsInside(s))
    decreases |s|, 0
  {
    if s != [] && (s[0] == 'l' as int || s[0] == 'd' as int) {
      hide ReadNodes, RunsOutIn, EndsInsideIn;
      OverreadNodes(s[1..], next);
    }
  }

  lemma {:induction false} OverreadNodes(s: seq<byte>, next: Option<byte>)
    ensures ReadNodes(s, next) == Overread <==> GoesOn(next, RunsOutIn(s), EndsInsideIn(s))
    decreases |s|, 1
  {
    if s == [] {
      forall t { NothingIsClosedBehind(t); }
    } else if s[0] == 'e' as int {
      EndIsNoNode(s);
    } else {
      OverreadExactly(s, next);
      OverreadExactly(s, None);
      OverreadExactly(s, Some('e' as int));
      ReadOfParse(s, next);
      ReadOfParse(s, None);
      ReadOfParse(s, Some('e' as int));
      match Parse(s)
      case None => OverreadFirst(s, next);
      case Some(p) =>
        hide Read, Parse, RunsOut, EndsInside, RunsOutIn, EndsInsideIn;
        RunsOutStep(s);
        EndsInsideStep(s);
        OverreadNodes(s[p.len..], next);
    }
  }

  lemma OverreadFirst(s: seq<byte>, next: Option<byte>)
    requires s != [] && s[0] != 'e' as int && Parse(s) == None
    requires Read(s, next) == Overread <==> GoesOn(next, RunsOut(s), EndsInside(s))
    ensures ReadNodes(s, next) == Overread <==> GoesOn(next, RunsOutIn(s), EndsInsideIn(s))
  {
    FirstNodeOpen(s);
    ReadOfParse(s, next);
    hide Parse, RunsOut, EndsInside, RunsOutIn, EndsInsideIn, ClosedBehind;
    if next == Some('e' as int) {
      forall t { ReadBehindInput(s, next, t); }
      if Read(s, next).Tree? {
        assert ClosedBehind(s, Read(s, next).value);
      }
    } else {
      ReadFits(s, next);
    }
  }

  /**
    Everything that can happen, whatever is behind the input: a tree within the input exactly for a prefix
    that encodes it; a tree one byte longer exactly when an 'e' behind the input closes it; reading on
    exactly when the input runs out and nothing is behind it, or when what the 'e' closes stands inside a
    list or dictionary; otherwise nothing is decoded.
   */
  lemma ReadExactly(s: seq<byte>, next: Option<byte>, t: BNode, n: nat)
    ensures n <= |s| ==> (Read(s, next) == Tree(t, n) <==> Encodes(t, s[..n]))
    ensures Read(s, next) == Tree(t, |s| + 1) <==> next == Some('e' as int) && ClosedBehind(s, t)
    ensures Read(s, next) == Overread <==> (next == None && RunsOut(s)) || (next == Some('e' as int) && EndsInside(s))
  {
    ReadWithinInput(s, next, t, n);
    ReadBehindInput(s, next, t);
    OverreadExactly(s, next);
  }

  /** Input that does not run out is read the same whatever is behind it. */
  lemma {:induction false} ReadStable(s: seq<byte>, next: Option<byte>)
    ensures Read(s, None) != Overread ==> Read(s, next) == Read(s, None)
    decreases |s|, 0
  {
    if s != [] && (s[0] == 'l' as int || s[0] == 'd' as int) {
      ReadNodesStable(s[1..], next);
    }
  }

  lemma {:induction false} ReadNodesStable(s: seq<byte>, next: Option<byte>)
    ensures ReadNodes(s, None) != Overread ==> ReadNodes(s, next) == ReadNodes(s, None)
    decreases |s|, 1
  {
    if s != [] && s[0] != 'e' as int {
      ReadStable(s, next);
      hide Read;
      if Read(s, None).Tree? && Read(s, None).len <= |s| {
        ReadNodesStable(s[Read(s, None).len..], next);
      }
    }
  }

  /** The byte behind the input matters only when the input runs out inside a list or dictionary. */
  lemma ReadIsParse(s: seq<byte>, next: Option<byte>)
    ensures (next.Some? && next != Some('e' as int)) || !RunsOut(s) || Parse(s).Some? ==>
      Read(s, next) == OfParsed(Parse(s))
    ensures Parse(s).Some? ==> !RunsOut(s)
  {
    ReadOfParse(s, next);
    ReadOfParse(s, None);
    OverreadExactly(s, next);
    OverreadExactly(s, None);
    ReadStable(s, next);
    ReadFits(s, None);
    hide Parse, RunsOut, EndsInside, Read;
    if next.Some? && next != Some('e' as int) {
      ReadFits(s, next);
    }
  }

  // ---- Inputs at which the byte behind them decides

  /**
    The input "l" is no bencode; with an 'e' behind it an empty list of two bytes is decoded, with nothing
    behind it reading goes on.
   */
  lemma OpenList()
    ensures Parse(Ascii("l")) == None && RunsOut(Ascii("l"))
    ensures Read(Ascii("l"), Some('e' as int)) == Tree(BList([]), |Ascii("l")| + 1)
    ensures Read(Ascii("l"), Some(0)) == NoTree && Read(Ascii("l"), None) == Overread
  {
    var s := Ascii("l");
    assert s[0] == 'l' as int && s[1..] == [];
    assert ReadNodes([], Some('e' as int)) == Tree([], 1) && ReadNodes([], Some(0)) == NoTree
      && ReadNodes([], None) == Overread;
  }

  /**
    For "ll" with an 'e' behind it, the inner list is one byte longer than what its list has left, and
    reading goes on.
   */
  lemma OpenListInList()
    ensures Parse(Ascii("ll")) == None && RunsOut(Ascii("ll"))
    ensures Read(Ascii("ll"), Some('e' as int)) == Overread && Read(Ascii("ll"), Some(0)) == NoTree
  {
    OpenList();
    assert Ascii("l")[0] == 'l' as int && Ascii("ll")[0] == 'l' as int && Ascii("ll")[1..] == Ascii("l");
    hide Ascii;
    FirstNode(Ascii("l"), Some('e' as int));
    FirstNode(Ascii("l"), Some(0));
    AList(Ascii("ll"), Some('e' as int));
    AList(Ascii("ll"), Some(0));
    OverreadExactly(Ascii("ll"), Some('e' as int));
    ReadIsParse(Ascii("ll"), Some('e' as int));
    ReadIsParse(Ascii("ll"), Some(0));
  }

  lemma AList(s: seq<byte>, next: Option<byte>)
    requires s != [] && s[0] == 'l' as int && !ReadNodes(s[1..], next).Tree?
    ensures Read(s, next) == if ReadNodes(s[1..], next) == NoTree then NoTree else Overread
  {
    hide ReadNodes;
  }

  /** The first node of a list does not end within the input. */
  lemma FirstNode(s: seq<byte>, next: Option<byte>)
    requires s != [] && s[0] == 'l' as int && (Read(s, next).Tree? ==> Read(s, next).len > |s|)
    ensures ReadNodes(s, next) == if Read(s, next) == NoTree then NoTree else Overread
  {
    hide Read;
  }
}
