/** src/lcthw/hashmap.c: 100 lazily created buckets, each a growable array of nodes. */
module Hashmaps {
  import opened Bytes
  import opened DArrays
  import S = HashmapSpec
  import opened HashmapSpec

  ghost function Somes<T>(s: seq<T>): seq<Option<T>> {
    seq(|s|, k requires 0 <= k < |s| => Some(s[k]))
  }

  /** The array holds these nodes. */
  ghost predicate Holds<T>(bucket: DArray<T>, list: seq<T>)
    reads bucket, bucket.contents
  {
    bucket.Valid() && bucket.Items() == Somes(list)
  }

  /** Hashmap_get_node: the place of the key in a bucket, or -1. */
  method GetNode<K, V>(keying: Keying<K>, hash: nat, bucket: DArray<HashmapNode<K, V>>, key: K,
      ghost list: seq<HashmapNode<K, V>>)
    returns (i: int)
    requires Holds(bucket, list) && hash == keying.hash(key)
    ensures i == var r := IndexOf(keying, list, key); if r == |list| then -1 else r
  {
    i := 0;
    while i < bucket.end
      invariant 0 <= i <= |list| && IndexOf(keying, list, key, i) == IndexOf(keying, list, key)
    {
      var node := bucket.Get(i);
      assert node == bucket.Items()[i] == Somes(list)[i];
      if node.value.hash == hash && keying.compare(node.value.key, key) == 0 {
        return;
      }
      i := i + 1;
    }
    return -1;
  }

  /** The last steps of Hashmap_delete: pop the last node and, unless it is the one deleted, put it in the hole. */
  method RemoveAt<X>(bucket: DArray<X>, i: nat, ghost list: seq<X>)
    requires Holds(bucket, list) && i < |list|
    modifies bucket, bucket.contents
    ensures Holds(bucket, SwapOut(list, i)) && (bucket.contents == old(bucket.contents) || fresh(bucket.contents))
  {
    ghost var last := |list| - 1;
    var ending := bucket.Pop();
    assert ending == Somes(list)[last] && bucket.Items() == Somes(list)[..last] == Somes(list[..last]);
    if i < bucket.end {
      ghost var items := bucket.Items();
      bucket.Set(i, ending);
      assert bucket.Items() == items[i := ending];
    }
    assert bucket.Items() == Somes(SwapOut(list, i));
  }

  class Hashmap<K(!new), V(!new)> {
    const keying: Keying<K>
    const buckets: array<DArray?<HashmapNode<K, V>>>
    ghost var Repr: set<object>
    ghost var Nodes: Lists<K, V>   // what the buckets hold; nothing for a bucket that is not there

    ghost predicate Shape()
      reads this, Repr
    {
      && this in Repr && buckets in Repr && buckets.Length == DEFAULT_NUMBER_OF_BUCKETS == |Nodes|
      && (forall b :: 0 <= b < buckets.Length ==>
            if buckets[b] == null then Nodes[b] == []
            else buckets[b] in Repr && buckets[b].contents in Repr && Holds(buckets[b], Nodes[b]))
      && (forall b, c :: 0 <= b < c < buckets.Length && buckets[b] != null && buckets[c] != null ==>
            buckets[b] != buckets[c] && buckets[b].contents != buckets[c].contents)
    }

    ghost predicate Valid()
      reads this, Repr
    {
      Shape() && S.Valid(keying, Nodes)
    }

    /** The finite map this hash map stands for. */
    ghost function Map(): map<K, V>
      reads this
    {
      Abs(Nodes)
    }

    /** Hashmap_create */
    constructor (keying: Keying<K>)
      requires Exact(keying)
      ensures Valid() && fresh(Repr) && Map() == map[] && this.keying == keying
    {
      this.keying := keying;
      buckets := new DArray?<HashmapNode<K, V>>[DEFAULT_NUMBER_OF_BUCKETS](_ => null);
      Nodes := seq(DEFAULT_NUMBER_OF_BUCKETS, _ => []);
      new;
      Repr := {this, buckets};
      forall k, v ensures !HasPair(Nodes[Home(keying, k)], k, v) {
      }
      SameMap(keying, Nodes, map[]);
    }

    /** Hashmap_find_bucket: the bucket of the key, made on demand. */
    method FindBucket(key: K, create: bool) returns (bucket: DArray?<HashmapNode<K, V>>, hash: nat)
      requires Valid()
      modifies Repr
      ensures Valid() && fresh(Repr - old(Repr)) && Nodes == old(Nodes)
      ensures hash == keying.hash(key) && bucket == buckets[hash % DEFAULT_NUMBER_OF_BUCKETS]
      ensures create ==> bucket != null
      ensures !create || old(buckets[keying.hash(key) % DEFAULT_NUMBER_OF_BUCKETS]) != null ==>
        forall o :: o in old(Repr) ==> unchanged(o)
    {
      hash := keying.hash(key);
      var b := hash % DEFAULT_NUMBER_OF_BUCKETS;
      bucket := buckets[b];
      if bucket == null && create {
        bucket := new DArray(DEFAULT_NUMBER_OF_BUCKETS);
        buckets[b] := bucket;
        Repr := Repr + {bucket, bucket.contents};
        assert Holds(bucket, Nodes[b]);
      }
    }

    /** A step that touched one bucket only leaves the others as they were. */
    twostate lemma BucketChanged(b: nat)
      requires old(Shape()) && b < buckets.Length && buckets[b] != null && buckets[b] == old(buckets[b])
      requires Repr == old(Repr) + {buckets[b].contents}
      requires |Nodes| == |old(Nodes)| && Nodes == old(Nodes)[b := Nodes[b]] && Holds(buckets[b], Nodes[b])
      requires buckets[b].contents == old(buckets[b].contents) || fresh(buckets[b].contents)
      requires unchanged(buckets)
      requires forall c :: 0 <= c < buckets.Length && c != b && buckets[c] != null ==>
        unchanged(buckets[c]) && unchanged(buckets[c].contents)
      ensures Shape()
    {
    }

    method Append(bucket: DArray<HashmapNode<K, V>>, node: HashmapNode<K, V>, ghost b: nat)
      requires Shape() && b < buckets.Length && bucket == buckets[b]
      modifies this, bucket, bucket.contents
      ensures Shape() && fresh(Repr - old(Repr)) && Nodes == old(Nodes)[b := old(Nodes[b]) + [node]]
    {
      ghost var list := Nodes[b] + [node];
      bucket.Push(Some(node));
      Repr := Repr + {bucket.contents};
      Nodes := Nodes[b := list];
      assert Holds(bucket, list);
      BucketChanged(b);
    }

    /** Hashmap_set: -1 and nothing changed when the key is there, else 0 and the key added. */
    method Set(key: K, data: V) returns (rc: int)
      requires Valid()
      modifies Repr
      ensures Valid() && fresh(Repr - old(Repr))
      ensures (Nodes, rc) == S.Set(keying, old(Nodes), key, data)
      ensures if key in old(Map()) then rc == -1 && Map() == old(Map()) else rc == 0 && Map() == old(Map())[key := data]
    {
      SetRefines(keying, Nodes, key, data);
      var bucket, hash := FindBucket(key, true);
      ghost var b := hash % DEFAULT_NUMBER_OF_BUCKETS;
      var i := GetNode(keying, hash, bucket, key, Nodes[b]);
      if i >= 0 {
        return -1;
      }
      Append(bucket, HashmapNode(key, data, hash), b);
      return 0;
    }

    /** Hashmap_get */
    method Get(key: K) returns (data: Option<V>)
      requires Valid()
      ensures data == if key in Map() then Some(Map()[key]) else None
    {
      GetRefines(keying, Nodes, key);
      var hash := keying.hash(key);
      var b := hash % DEFAULT_NUMBER_OF_BUCKETS;
      if buckets[b] == null {
        return None;
      }
      var i := GetNode(keying, hash, buckets[b], key, Nodes[b]);
      if i == -1 {
        return None;
      }
      var node := buckets[b].Get(i);
      assert node == buckets[b].Items()[i] == Somes(Nodes[b])[i];
      return Some(node.value.data);
    }

    /** Hashmap_delete: the key is gone and its data handed back; NULL when it was not there. */
    method Delete(key: K) returns (data: Option<V>)
      requires Valid()
      modifies Repr
      ensures Valid() && fresh(Repr - old(Repr))
      ensures (Nodes, data) == S.Delete(keying, old(Nodes), key)
      ensures Map() == old(Map()) - {key}
      ensures data == if key in old(Map()) then Some(old(Map())[key]) else None
    {
      DeleteRefines(keying, Nodes, key);
      var hash := keying.hash(key);
      var b := hash % DEFAULT_NUMBER_OF_BUCKETS;
      if buckets[b] == null {
        return None;
      }
      var i := GetNode(keying, hash, buckets[b], key, Nodes[b]);
      if i == -1 {
        return None;
      }
      var node := buckets[b].Get(i);
      assert node == buckets[b].Items()[i] == Somes(Nodes[b])[i];
      data := Some(node.value.data);
      RemoveAt(buckets[b], i, Nodes[b]);
      Repr := Repr + {buckets[b].contents};
      Nodes := Nodes[b := SwapOut(Nodes[b], i)];
    }

    /** What a traversal has still to visit from place j of bucket b on. */
    ghost function Remaining(b: nat, j: nat): seq<HashmapNode<K, V>>
      requires b < |Nodes| && j <= |Nodes[b]|
      reads this
    {
      Nodes[b][j..] + Flatten(Nodes[b + 1..])
    }

    lemma RemainingBucket(b: nat)
      requires b < |Nodes|
      ensures Remaining(b, 0) == Flatten(Nodes[b..])
      ensures Remaining(b, |Nodes[b]|) == Flatten(Nodes[b + 1..])
    {
      assert Nodes[b..][1..] == Nodes[b + 1..];
    }

    /** Hashmap_traverse, with a callback that changes only its context. */
    method Traverse<C>(context: C, callback: (C, HashmapNode<K, V>) -> (C, int)) returns (result: C, rc: int)
      requires Valid()
      ensures (result, rc) == Fold(context, Flatten(Nodes), callback)
    {
      result, rc := context, 0;
      assert Nodes[0..] == Nodes;
      for b := 0 to buckets.Length
        invariant Fold(result, Flatten(Nodes[b..]), callback) == Fold(context, Flatten(Nodes), callback)
      {
        RemainingBucket(b);
        var bucket := buckets[b];
        if bucket != null {
          var j := 0;
          while j < bucket.end
            invariant 0 <= j <= |Nodes[b]|
            invariant Fold(result, Remaining(b, j), callback) == Fold(context, Flatten(Nodes), callback)
          {
            var node := bucket.Get(j);
            assert node == bucket.Items()[j] == Somes(Nodes[b])[j];
            assert Remaining(b, j)[1..] == Remaining(b, j + 1);
            result, rc := callback(result, node.value).0, callback(result, node.value).1;
            if rc != 0 {
              return;
            }
            j := j + 1;
          }
        }
      }
      assert Nodes[buckets.Length..] == [];
      rc := 0;
    }
  }
}
