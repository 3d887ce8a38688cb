/** compare_keys orders byte strings totally, and BNode_GetValue searches by it. */
module KeyOrder {
  import opened Bytes
  import opened Bencode

  /** The dictionary order, byte by byte, a prefix first. */
  function Lex(a: seq<byte>, b: seq<byte>): int {
    if a == [] then (if b == [] then 0 else -1)
    else if b == [] then 1
    else if a[0] != b[0] then (if a[0] < b[0] then -1 else 1)
    else Lex(a[1..], b[1..])
  }

  lemma {:induction false} CompareIsLex(a: seq<byte>, b: seq<byte>)
    ensures CompareKeys(a, b) == Lex(a, b)
  {
    if a != [] && b != [] && a[0] == b[0] {
      CompareIsLex(a[1..], b[1..]);
      var m := if |a| < |b| then |a| else |b|;
      assert a[..m][1..] == a[1..][..m - 1] && b[..m][1..] == b[1..][..m - 1];
    }
  }

  lemma {:induction false} LexZero(a: seq<byte>, b: seq<byte>)
    ensures Lex(a, b) == 0 <==> a == b
  {
    if a != [] && b != [] && a[0] == b[0] {
      LexZero(a[1..], b[1..]);
      assert a == [a[0]] + a[1..] && b == [b[0]] + b[1..];
    }
  }

  lemma {:induction false} LexAntisymmetric(a: seq<byte>, b: seq<byte>)
    ensures Lex(a, b) == -Lex(b, a)
  {
    if a != [] && b != [] && a[0] == b[0] {
      LexAntisymmetric(a[1..], b[1..]);
    }
  }

  lemma {:induction false} LexTransitive(a: seq<byte>, b: seq<byte>, c: seq<byte>)
    requires Lex(a, b) < 0 && Lex(b, c) < 0
    ensures Lex(a, c) < 0
  {
    if a != [] && b != [] && c != [] && a[0] == b[0] && b[0] == c[0] {
      LexTransitive(a[1..], b[1..], c[1..]);
    }
  }

  /** compare_keys is a total order: zero is equality, swapping swaps the sign, less-than is transitive. */
  lemma CompareKeysOrder(a: seq<byte>, b: seq<byte>, c: seq<byte>)
    ensures CompareKeys(a, b) == 0 <==> a == b
    ensures CompareKeys(a, b) == -CompareKeys(b, a)
    ensures IsLessThan(a, b) && IsLessThan(b, c) ==> IsLessThan(a, c)
  {
    CompareIsLex(a, b);
    CompareIsLex(b, a);
    CompareIsLex(b, c);
    CompareIsLex(a, c);
    LexZero(a, b);
    LexAntisymmetric(a, b);
    if Lex(a, b) < 0 && Lex(b, c) < 0 {
      LexTransitive(a, b, c);
    }
  }

  /** The first byte that differs decides, read unsigned; without one, the shorter string is less. */
  lemma LessMeaning(a: seq<byte>, b: seq<byte>, k: nat)
    requires k <= |a| && k <= |b| && a[..k] == b[..k]
    ensures k < |a| && k < |b| && a[k] != b[k] ==> (IsLessThan(a, b) <==> a[k] < b[k])
    ensures k == |a| || k == |b| ==> (IsLessThan(a, b) <==> |a| < |b|)
  {
    var m := if |a| < |b| then |a| else |b|;
    assert a[..m][..k] == a[..k] && b[..m][..k] == b[..k];
    if k < |a| && k < |b| && a[k] != b[k] {
      MemCmpFirstDifference(a[..m], b[..m], k);
    }
    if k == m {
      MemCmpZero(a[..m], b[..m]);
    }
  }

  /** A linear scan for the key. */
  function Lookup(nodes: seq<BNode>, key: seq<byte>): Option<BNode> {
    if |nodes| < 2 then None
    else if nodes[0] == BString(key) then Some(nodes[1])
    else Lookup(nodes[2..], key)
  }

  /** The keys differ, so a key stands for one value. */
  lemma KeysDiffer(nodes: seq<BNode>, i: nat, j: nat)
    requires IsDict(nodes) && 2 * i < |nodes| && 2 * j < |nodes| && KeyAt(nodes, i) == KeyAt(nodes, j)
    ensures i == j
  {
    CompareKeysOrder(KeyAt(nodes, i).str, KeyAt(nodes, j).str, []);
  }

  lemma DictRest(nodes: seq<BNode>)
    requires IsDict(nodes) && |nodes| > 0
    ensures IsDict(nodes[2..])
  {
    var rest := nodes[2..];
    assert forall i: nat {:trigger KeyAt(rest, i)} :: 2 * i < |rest| ==> KeyAt(rest, i) == KeyAt(nodes, i + 1);
  }

  /** The scan finds the value behind the key wherever the key stands. */
  lemma {:induction false} LookupFound(nodes: seq<BNode>, key: seq<byte>, i: nat)
    requires IsDict(nodes) && 2 * i < |nodes| && KeyAt(nodes, i) == BString(key)
    ensures Lookup(nodes, key) == Some(nodes[2 * i + 1])
  {
    if i > 0 {
      if nodes[0] == BString(key) {
        assert KeyAt(nodes, 0) == KeyAt(nodes, i);
        KeysDiffer(nodes, 0, i);
      }
      DictRest(nodes);
      assert KeyAt(nodes[2..], i - 1) == KeyAt(nodes, i);
      LookupFound(nodes[2..], key, i - 1);
    }
  }

  lemma {:induction false} LookupMissing(nodes: seq<BNode>, key: seq<byte>)
    requires forall i: nat :: 2 * i < |nodes| ==> KeyAt(nodes, i) != BString(key)
    ensures Lookup(nodes, key) == None
  {
    if |nodes| >= 2 {
      assert KeyAt(nodes, 0) == nodes[0];
      forall i: nat | 2 * i < |nodes[2..]| ensures KeyAt(nodes[2..], i) != BString(key) {
        assert KeyAt(nodes[2..], i) == KeyAt(nodes, i + 1);
      }
      LookupMissing(nodes[2..], key);
    }
  }

  /** What BNode_GetValue returns for a node of any type. */
  function Value(dict: BNode, key: seq<byte>): Option<BNode> {
    if dict.BDictionary? then Lookup(dict.nodes, key) else None
  }

  /** Where the key stands, if it does, is still between l and r, or both have met there. */
  ghost predicate Between(nodes: seq<BNode>, key: seq<byte>, l: nat, r: nat) {
    forall p: nat :: 2 * p < |nodes| && KeyAt(nodes, p) == BString(key) ==> l <= p && (p < r || p == l)
  }

  lemma HalveKeepsBetween(nodes: seq<BNode>, key: seq<byte>, l: nat, r: nat, m: nat)
    requires IsDict(nodes) && Between(nodes, key, l, r) && l < m < r <= |nodes| / 2
    ensures var cmp := CompareKeys(key, KeyAt(nodes, m).str);
      Between(nodes, key, if 0 <= cmp then m else l, if cmp <= 0 then m else r)
  {
    var mkey := KeyAt(nodes, m).str;
    CompareKeysOrder(key, mkey, []);
    forall p: nat | 2 * p < |nodes| && KeyAt(nodes, p) == BString(key)
      ensures p < m ==> CompareKeys(key, mkey) < 0
      ensures p > m ==> CompareKeys(key, mkey) > 0
    {
      CompareKeysOrder(key, KeyAt(nodes, p).str, []);
    }
  }

  /**
    BNode_GetValue: the binary search returns what a linear scan would, for a key that is there and for one
    that is not.
   */
  method GetValue(dict: BNode, key: seq<byte>) returns (value: Option<BNode>)
    requires dict.BDictionary? ==> IsDict(dict.nodes)
    ensures value == Value(dict, key)
  {
    if !dict.BDictionary? {
      return None;
    }
    if |dict.nodes| % 2 != 0 {
      return None;
    }
    var l, r := 0, |dict.nodes| / 2;
    while l + 1 < r
      invariant 0 <= l <= r <= |dict.nodes| / 2 && (dict.nodes != [] ==> 2 * l < |dict.nodes|)
      invariant Between(dict.nodes, key, l, r)
    {
      var m := l + (r - l) / 2;
      var mkey := KeyAt(dict.nodes, m);
      var cmp := CompareKeys(key, mkey.str);
      HalveKeepsBetween(dict.nodes, key, l, r, m);
      if cmp <= 0 {
        r := m;
      }
      if 0 <= cmp {
        l := m;
      }
    }
    if !(l * 2 + 1 < |dict.nodes|) {
      return None;
    }
    var found := KeyAt(dict.nodes, l);
    CompareKeysOrder(key, found.str, []);
    if CompareKeys(key, found.str) != 0 {
      LookupMissing(dict.nodes, key);
      return None;
    }
    LookupFound(dict.nodes, key, l);
    return Some(dict.nodes[l * 2 + 1]);
  }
}
