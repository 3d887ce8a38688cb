/** The hash map of src/lcthw/hashmap.c as a value: 100 lists of nodes, and the finite map they stand for. */
module HashmapSpec {
  import opened Bytes

  const DEFAULT_NUMBER_OF_BUCKETS: nat := 100

  datatype HashmapNode<+K, +V> = HashmapNode(key: K, data: V, hash: nat)

  /** The two functions a map is created with. */
  datatype Keying<!K> = Keying(hash: K -> nat, compare: (K, K) -> int)

  /** The code takes keys for the same when their hashes agree and compare says 0; for its clients that is equality. */
  ghost predicate Exact<K(!new)>(ky: Keying<K>) {
    forall a, b :: ky.hash(a) == ky.hash(b) && ky.compare(a, b) == 0 <==> a == b
  }

  type Lists<K, V> = seq<seq<HashmapNode<K, V>>>

  function Home<K>(ky: Keying<K>, key: K): nat {
    ky.hash(key) % DEFAULT_NUMBER_OF_BUCKETS
  }

  /** Hashmap_get_node: the first node of the list with this key, or |list|. */
  function IndexOf<K, V>(ky: Keying<K>, list: seq<HashmapNode<K, V>>, key: K, i: nat := 0): (r: nat)
    requires i <= |list|
    ensures i <= r <= |list|
    decreases |list| - i
  {
    if i == |list| || (list[i].hash == ky.hash(key) && ky.compare(list[i].key, key) == 0) then i
    else IndexOf(ky, list, key, i + 1)
  }

  /** Hashmap_delete on one list: the last node takes the place of the deleted one. */
  function SwapOut<X>(list: seq<X>, i: nat): seq<X>
    requires i < |list|
  {
    var last := |list| - 1;
    if i == last then list[..last] else list[..last][i := list[last]]
  }

  function Get<K, V>(ky: Keying<K>, ls: Lists<K, V>, key: K): Option<V>
    requires |ls| == DEFAULT_NUMBER_OF_BUCKETS
  {
    var list := ls[Home(ky, key)];
    var i := IndexOf(ky, list, key);
    if i < |list| then Some(list[i].data) else None
  }

  /** Hashmap_set: refused when the key is there. */
  function Set<K, V>(ky: Keying<K>, ls: Lists<K, V>, key: K, data: V): (r: (Lists<K, V>, int))
    requires |ls| == DEFAULT_NUMBER_OF_BUCKETS
    ensures |r.0| == DEFAULT_NUMBER_OF_BUCKETS
  {
    var b := Home(ky, key);
    if IndexOf(ky, ls[b], key) < |ls[b]| then (ls, -1)
    else (ls[b := ls[b] + [HashmapNode(key, data, ky.hash(key))]], 0)
  }

  function Delete<K, V>(ky: Keying<K>, ls: Lists<K, V>, key: K): (r: (Lists<K, V>, Option<V>))
    requires |ls| == DEFAULT_NUMBER_OF_BUCKETS
    ensures |r.0| == DEFAULT_NUMBER_OF_BUCKETS
  {
    var b := Home(ky, key);
    var i := IndexOf(ky, ls[b], key);
    if i == |ls[b]| then (ls, None) else (ls[b := SwapOut(ls[b], i)], Some(ls[b][i].data))
  }

  /** The order in which Hashmap_traverse visits the nodes. */
  function Flatten<X>(ls: seq<seq<X>>): seq<X> {
    if |ls| == 0 then [] else ls[0] + Flatten(ls[1..])
  }

  /** Hashmap_traverse over the nodes still to visit: stop at the first callback that does not return 0. */
  function Fold<C, X>(context: C, nodes: seq<X>, callback: (C, X) -> (C, int)): (C, int)
    decreases |nodes|
  {
    if |nodes| == 0 then (context, 0)
    else
      var (next, rc) := callback(context, nodes[0]);
      if rc != 0 then (next, rc) else Fold(next, nodes[1..], callback)
  }

  /**
    What a traversal calls: with cs the contexts in turn, the callback is called on the first k nodes and
    returns 0 on each, and either there are no more nodes or it fails on the next one.
   */
  lemma {:induction false} FoldMeaning<C, X>(cs: seq<C>, nodes: seq<X>, callback: (C, X) -> (C, int), k: nat)
    requires k <= |nodes| && |cs| == k + 1
    requires forall i :: 0 <= i < k ==> callback(cs[i], nodes[i]) == (cs[i + 1], 0)
    ensures k == |nodes| ==> Fold(cs[0], nodes, callback) == (cs[k], 0)
    ensures k < |nodes| && callback(cs[k], nodes[k]).1 != 0
      ==> Fold(cs[0], nodes, callback) == callback(cs[k], nodes[k])
  {
    if k > 0 {
      assert callback(cs[0], nodes[0]) == (cs[1], 0);
      forall i | 0 <= i < k - 1 ensures callback(cs[1..][i], nodes[1..][i]) == (cs[1..][i + 1], 0) {
        assert callback(cs[i + 1], nodes[i + 1]) == (cs[i + 2], 0);
      }
      FoldMeaning(cs[1..], nodes[1..], callback, k - 1);
    }
  }

  // ---- The invariant

  ghost predicate DistinctKeys<K, V>(list: seq<HashmapNode<K, V>>) {
    forall i, j :: 0 <= i < j < |list| ==> list[i].key != list[j].key
  }

  ghost predicate Valid<K(!new), V>(ky: Keying<K>, ls: Lists<K, V>) {
    && Exact(ky) && |ls| == DEFAULT_NUMBER_OF_BUCKETS
    && (forall b :: 0 <= b < |ls| ==> DistinctKeys(ls[b]))
    && (forall b, i :: 0 <= b < |ls| && 0 <= i < |ls[b]| ==>
      ls[b][i].hash == ky.hash(ls[b][i].key) && Home(ky, ls[b][i].key) == b)
  }

  ghost function MapOf<K, V>(nodes: seq<HashmapNode<K, V>>): map<K, V> {
    if |nodes| == 0 then map[] else MapOf(nodes[1..])[nodes[0].key := nodes[0].data]
  }

  /** The finite map that the lists stand for. */
  ghost function Abs<K, V>(ls: Lists<K, V>): map<K, V> {
    MapOf(Flatten(ls))
  }

  // ---- The map as a relation

  ghost predicate HasPair<K, V>(list: seq<HashmapNode<K, V>>, key: K, data: V) {
    exists i :: 0 <= i < |list| && list[i].key == key && list[i].data == data
  }

  lemma {:induction false} MapOfPairs<K, V>(list: seq<HashmapNode<K, V>>, key: K, data: V)
    requires DistinctKeys(list)
    ensures HasPair(list, key, data) <==> key in MapOf(list) && MapOf(list)[key] == data
  {
    if |list| > 0 {
      var rest := list[1..];
      assert forall i :: 0 <= i < |rest| ==> rest[i] == list[i + 1];
      MapOfPairs(rest, key, data);
      if list[0].key == key && list[0].data == data {
        assert HasPair(list, key, data);
      }
      if HasPair(rest, key, data) {
        var i :| 0 <= i < |rest| && rest[i].key == key && rest[i].data == data;
        assert list[i + 1].key == key && list[0].key != key;
      }
      if HasPair(list, key, data) && list[0].key != key {
        var i :| 0 <= i < |list| && list[i].key == key && list[i].data == data;
        assert rest[i - 1] == list[i];
      }
    }
  }

  /** A key lives in one list, so the whole traversal has it exactly as often as that list. */
  lemma {:induction false} FlattenPairs<K(!new), V>(ky: Keying<K>, ls: Lists<K, V>, from: nat, key: K, data: V)
    requires Valid(ky, ls) && from <= |ls|
    ensures HasPair(Flatten(ls[from..]), key, data) <==> Home(ky, key) >= from && HasPair(ls[Home(ky, key)], key, data)
    decreases |ls| - from
  {
    var b := Home(ky, key);
    if from < |ls| {
      FlattenPairs(ky, ls, from + 1, key, data);
      assert ls[from..][1..] == ls[from + 1..];
      var here, rest := ls[from], Flatten(ls[from + 1..]);
      AppendPairs(here, rest, key, data);
      if HasPair(here, key, data) {
        var i :| 0 <= i < |here| && here[i].key == key && here[i].data == data;
        assert Home(ky, here[i].key) == from;
      }
    }
  }

  lemma AppendPairs<K, V>(a: seq<HashmapNode<K, V>>, b: seq<HashmapNode<K, V>>, key: K, data: V)
    ensures HasPair(a + b, key, data) <==> HasPair(a, key, data) || HasPair(b, key, data)
  {
    if HasPair(a, key, data) {
      var i :| 0 <= i < |a| && a[i].key == key && a[i].data == data;
      assert (a + b)[i] == a[i];
    }
    if HasPair(b, key, data) {
      var i :| 0 <= i < |b| && b[i].key == key && b[i].data == data;
      assert (a + b)[|a| + i] == b[i];
    }
  }

  /** A traversal visits no key twice. */
  lemma {:induction false} FlattenDistinct<K(!new), V>(ky: Keying<K>, ls: Lists<K, V>, from: nat)
    requires Valid(ky, ls) && from <= |ls|
    ensures DistinctKeys(Flatten(ls[from..]))
    ensures forall i :: 0 <= i < |Flatten(ls[from..])| ==> Home(ky, Flatten(ls[from..])[i].key) >= from
    decreases |ls| - from
  {
    if from < |ls| {
      FlattenDistinct(ky, ls, from + 1);
      assert ls[from..][1..] == ls[from + 1..];
      assert forall i :: 0 <= i < |ls[from]| ==> Home(ky, ls[from][i].key) == from;
      assert DistinctKeys(ls[from]);
    }
  }

  /** The abstract map holds key with data exactly when the key's list has that node. */
  lemma AbsPairs<K(!new), V>(ky: Keying<K>, ls: Lists<K, V>, key: K, data: V)
    requires Valid(ky, ls)
    ensures key in Abs(ls) && Abs(ls)[key] == data <==> HasPair(ls[Home(ky, key)], key, data)
  {
    assert ls[0..] == ls;
    FlattenDistinct(ky, ls, 0);
    FlattenPairs(ky, ls, 0, key, data);
    MapOfPairs(Flatten(ls), key, data);
  }

  /** IndexOf finds the only node with the key. */
  lemma {:induction false} IndexOfKey<K(!new), V>(ky: Keying<K>, list: seq<HashmapNode<K, V>>, key: K, i: nat)
    requires Exact(ky) && i <= |list| && forall k :: 0 <= k < |list| ==> list[k].hash == ky.hash(list[k].key)
    ensures var r := IndexOf(ky, list, key, i);
      && (forall k :: i <= k < r ==> list[k].key != key)
      && (r < |list| ==> list[r].key == key)
    decreases |list| - i
  {
    if i < |list| && list[i].key != key {
      IndexOfKey(ky, list, key, i + 1);
    }
  }

  /** Hashmap_get looks up the abstract map. */
  lemma GetRefines<K(!new), V>(ky: Keying<K>, ls: Lists<K, V>, key: K)
    requires Valid(ky, ls)
    ensures Get(ky, ls, key) == if key in Abs(ls) then Some(Abs(ls)[key]) else None
  {
    var list := ls[Home(ky, key)];
    IndexOfKey(ky, list, key, 0);
    var i := IndexOf(ky, list, key);
    if i < |list| {
      assert HasPair(list, key, list[i].data);
      AbsPairs(ky, ls, key, list[i].data);
    } else if key in Abs(ls) {
      AbsPairs(ky, ls, key, Abs(ls)[key]);
    }
  }

  /** Two valid collections of lists that agree on which pairs they hold stand for the same map. */
  lemma SameMap<K(!new), V>(ky: Keying<K>, ls: Lists<K, V>, m: map<K, V>)
    requires Valid(ky, ls)
    requires forall k, v :: HasPair(ls[Home(ky, k)], k, v) <==> k in m && m[k] == v
    ensures Abs(ls) == m
  {
    forall k ensures k in Abs(ls) <==> k in m {
      if k in Abs(ls) { AbsPairs(ky, ls, k, Abs(ls)[k]); }
      if k in m { AbsPairs(ky, ls, k, m[k]); }
    }
    forall k | k in m ensures Abs(ls)[k] == m[k] {
      AbsPairs(ky, ls, k, m[k]);
    }
  }

  /** Hashmap_set adds an absent key and refuses a present one, changing nothing. */
  lemma SetRefines<K(!new), V(!new)>(ky: Keying<K>, ls: Lists<K, V>, key: K, data: V)
    requires Valid(ky, ls)
    ensures var (ls', rc) := Set(ky, ls, key, data);
      && Valid(ky, ls')
      && (if key in Abs(ls) then rc == -1 && ls' == ls else rc == 0 && Abs(ls') == Abs(ls)[key := data])
  {
    GetRefines(ky, ls, key);
    if key !in Abs(ls) {
      var b := Home(ky, key);
      IndexOfKey(ky, ls[b], key, 0);
      var node := HashmapNode(key, data, ky.hash(key));
      var ls' := ls[b := ls[b] + [node]];
      assert DistinctKeys(ls'[b]);
      forall k, v
        ensures HasPair(ls'[Home(ky, k)], k, v) <==> k in Abs(ls)[key := data] && Abs(ls)[key := data][k] == v
      {
        AbsPairs(ky, ls, k, v);
        if Home(ky, k) == b {
          AppendPairs(ls[b], [node], k, v);
          assert [node][0] == node;
        }
      }
      SameMap(ky, ls', Abs(ls)[key := data]);
    }
  }

  /** Swapping the last node into the hole loses the deleted node and no other. */
  lemma SwapOutEffect<K, V>(list: seq<HashmapNode<K, V>>, i: nat)
    requires i < |list| && DistinctKeys(list)
    ensures DistinctKeys(SwapOut(list, i))
    ensures forall k, v :: HasPair(SwapOut(list, i), k, v) <==> HasPair(list, k, v) && k != list[i].key
    ensures forall j :: 0 <= j < |SwapOut(list, i)| ==> SwapOut(list, i)[j] in list
  {
    var out, last := SwapOut(list, i), |list| - 1;
    assert forall j :: 0 <= j < |out| ==> out[j] == list[if j == i then last else j];
    forall k, v ensures HasPair(out, k, v) <==> HasPair(list, k, v) && k != list[i].key {
      if HasPair(list, k, v) && k != list[i].key {
        var j :| 0 <= j < |list| && list[j].key == k && list[j].data == v;
        assert out[if j == last then i else j] == list[j];
      }
      if HasPair(out, k, v) {
        var j :| 0 <= j < |out| && out[j].key == k && out[j].data == v;
        assert list[if j == i then last else j] == out[j];
      }
    }
  }

  /** Hashmap_delete removes exactly the key and hands back its data. */
  lemma DeleteRefines<K(!new), V(!new)>(ky: Keying<K>, ls: Lists<K, V>, key: K)
    requires Valid(ky, ls)
    ensures var (ls', data) := Delete(ky, ls, key);
      && Valid(ky, ls')
      && Abs(ls') == Abs(ls) - {key}
      && data == if key in Abs(ls) then Some(Abs(ls)[key]) else None
  {
    GetRefines(ky, ls, key);
    var b := Home(ky, key);
    var i := IndexOf(ky, ls[b], key);
    if i == |ls[b]| {
      assert Abs(ls) - {key} == Abs(ls);
    } else {
      IndexOfKey(ky, ls[b], key, 0);
      SwapOutEffect(ls[b], i);
      var ls' := ls[b := SwapOut(ls[b], i)];
      DeleteValid(ky, ls, b, i);
      forall k, v ensures HasPair(ls'[Home(ky, k)], k, v) <==> k in Abs(ls) - {key} && (Abs(ls) - {key})[k] == v {
        AbsPairs(ky, ls, k, v);
      }
      SameMap(ky, ls', Abs(ls) - {key});
    }
  }

  lemma DeleteValid<K(!new), V>(ky: Keying<K>, ls: Lists<K, V>, b: nat, i: nat)
    requires Valid(ky, ls) && b < |ls| && i < |ls[b]|
    ensures Valid(ky, ls[b := SwapOut(ls[b], i)])
  {
    SwapOutEffect(ls[b], i);
    var out := SwapOut(ls[b], i);
    forall j | 0 <= j < |out| ensures out[j].hash == ky.hash(out[j].key) && Home(ky, out[j].key) == b {
      assert out[j] in ls[b];
    }
  }

  /** Hashmap_traverse visits every pair of the map exactly once. */
  lemma TraverseExactlyOnce<K(!new), V>(ky: Keying<K>, ls: Lists<K, V>)
    requires Valid(ky, ls)
    ensures DistinctKeys(Flatten(ls)) && |Flatten(ls)| == |Abs(ls)|
    ensures forall k, v :: HasPair(Flatten(ls), k, v) <==> k in Abs(ls) && Abs(ls)[k] == v
  {
    assert ls[0..] == ls;
    FlattenDistinct(ky, ls, 0);
    forall k, v ensures HasPair(Flatten(ls), k, v) <==> k in Abs(ls) && Abs(ls)[k] == v {
      MapOfPairs(Flatten(ls), k, v);
    }
    MapOfSize(Flatten(ls));
  }

  lemma {:induction false} MapOfSize<K, V>(list: seq<HashmapNode<K, V>>)
    requires DistinctKeys(list)
    ensures |MapOf(list)| == |list|
  {
    if |list| > 0 {
      var rest := list[1..];
      assert forall i :: 0 <= i < |rest| ==> rest[i] == list[i + 1];
      MapOfSize(rest);
      if list[0].key in MapOf(rest) {
        MapOfPairs(rest, list[0].key, MapOf(rest)[list[0].key]);
      }
    }
  }

  // ---- Any sequence of operations

  datatype Op<K, V> = SetOp(key: K, data: V) | GetOp(key: K) | DeleteOp(key: K) | TraverseOp

  datatype Out<K, V> = Rc(rc: int) | Data(data: Option<V>) | Visited(nodes: seq<HashmapNode<K, V>>)

  function Step<K, V>(ky: Keying<K>, ls: Lists<K, V>, op: Op<K, V>): (r: (Lists<K, V>, Out<K, V>))
    requires |ls| == DEFAULT_NUMBER_OF_BUCKETS
    ensures |r.0| == DEFAULT_NUMBER_OF_BUCKETS
  {
    match op
    case SetOp(k, v) => var (ls', rc) := Set(ky, ls, k, v); (ls', Rc(rc))
    case GetOp(k) => (ls, Data(Get(ky, ls, k)))
    case DeleteOp(k) => var (ls', v) := Delete(ky, ls, k); (ls', Data(v))
    case TraverseOp => (ls, Visited(Flatten(ls)))
  }

  /** The same operation on a finite map. */
  function MapStep<K, V>(m: map<K, V>, op: Op<K, V>): map<K, V> {
    match op
    case SetOp(k, v) => if k in m then m else m[k := v]
    case GetOp(_) => m
    case DeleteOp(k) => m - {k}
    case TraverseOp => m
  }

  /** What a finite map would answer. */
  ghost predicate Answers<K, V>(m: map<K, V>, op: Op<K, V>, out: Out<K, V>) {
    match op
    case SetOp(k, _) => out == Rc(if k in m then -1 else 0)
    case GetOp(k) => out == Data(if k in m then Some(m[k]) else None)
    case DeleteOp(k) => out == Data(if k in m then Some(m[k]) else None)
    case TraverseOp => out.Visited? && DistinctKeys(out.nodes) && MapOf(out.nodes) == m
  }

  function Run<K, V>(ky: Keying<K>, ls: Lists<K, V>, ops: seq<Op<K, V>>): (r: (Lists<K, V>, seq<Out<K, V>>))
    requires |ls| == DEFAULT_NUMBER_OF_BUCKETS
    ensures |r.1| == |ops|
    decreases |ops|
  {
    if |ops| == 0 then (ls, [])
    else
      var first := Step(ky, ls, ops[0]);
      var rest := Run(ky, first.0, ops[1..]);
      (rest.0, [first.1] + rest.1)
  }

  function MapRun<K, V>(m: map<K, V>, ops: seq<Op<K, V>>): map<K, V>
    decreases |ops|
  {
    if |ops| == 0 then m else MapRun(MapStep(m, ops[0]), ops[1..])
  }

  lemma StepRefines<K(!new), V(!new)>(ky: Keying<K>, ls: Lists<K, V>, op: Op<K, V>)
    requires Valid(ky, ls)
    ensures var (ls', out) := Step(ky, ls, op);
      Valid(ky, ls') && Abs(ls') == MapStep(Abs(ls), op) && Answers(Abs(ls), op, out)
  {
    match op
    case SetOp(k, v) => SetRefines(ky, ls, k, v);
    case GetOp(k) => GetRefines(ky, ls, k);
    case DeleteOp(k) => DeleteRefines(ky, ls, k);
    case TraverseOp => TraverseExactlyOnce(ky, ls);
  }

  /** Over any sequence of operations the hash map answers as a finite map would. */
  lemma {:induction false} RunRefines<K(!new), V(!new)>(ky: Keying<K>, ls: Lists<K, V>, ops: seq<Op<K, V>>)
    requires Valid(ky, ls)
    ensures var (ls', outs) := Run(ky, ls, ops);
      && Valid(ky, ls') && Abs(ls') == MapRun(Abs(ls), ops)
      && forall i :: 0 <= i < |ops| ==> Answers(MapRun(Abs(ls), ops[..i]), ops[i], outs[i])
    decreases |ops|
  {
    if |ops| > 0 {
      StepRefines(ky, ls, ops[0]);
      var first := Step(ky, ls, ops[0]);
      RunRefines(ky, first.0, ops[1..]);
      var outs, later := Run(ky, ls, ops).1, Run(ky, first.0, ops[1..]).1;
      forall i | 0 <= i < |ops| ensures Answers(MapRun(Abs(ls), ops[..i]), ops[i], outs[i]) {
        if i > 0 {
          assert ops[..i][0] == ops[0] && ops[..i][1..] == ops[1..][..i - 1];
          assert Answers(MapRun(Abs(first.0), ops[1..][..i - 1]), ops[1..][i - 1], later[i - 1]);
        }
      }
    }
  }
}
