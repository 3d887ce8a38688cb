/** src/pendingresponses.c: the outstanding queries, by transaction id. */
module PendingModule {
  import opened Bytes
  import opened HashmapSpec
  import Hashmaps
  import opened Messages

  /** One round of the mixing in PendingResponse_Hash. */
  function MixRound(hash: bv32, key: bv32): bv32 {
    var a := hash + key;
    var b := a + (a << 10);
    b ^ (b >> 6)
  }

  /** PendingResponse_Hash: two rounds, for the two shorts of a 32-bit word. */
  function TidHash(tid: uint16): nat {
    var key := tid as bv32;
    var h := MixRound(MixRound(0, key), key);
    var a := h + (h << 3);
    var b := a ^ (a >> 11);
    (b + (b << 15)) as nat
  }

  /** PendingResponse_Compare */
  function TidCompare(a: uint16, b: uint16): int {
    a - b
  }

  const TidKeying: Keying<uint16> := Keying(TidHash, TidCompare)

  lemma TidKeyingExact()
    ensures Exact(TidKeying)
  {
    forall a: uint16, b: uint16 ensures TidKeying.hash(a) == TidKeying.hash(b) && TidKeying.compare(a, b) == 0 <==>
      a == b {
      assert TidKeying.compare(a, b) == a - b;
    }
  }

  type Pending = map<uint16, PendingResponse>

  class PendingResponses {
    const hashmap: Hashmaps.Hashmap<uint16, PendingResponse>

    ghost predicate Valid()
      reads this, hashmap, hashmap.Repr
    {
      hashmap.Valid() && hashmap.keying == TidKeying && forall t :: t in hashmap.Map() ==> hashmap.Map()[t].tid == t
    }

    ghost function Outstanding(): Pending
      reads hashmap
    {
      hashmap.Map()
    }

    /** HashmapPendingResponses_Create */
    constructor ()
      ensures Valid() && Outstanding() == map[] && fresh(hashmap) && fresh(hashmap.Repr)
    {
      TidKeyingExact();
      hashmap := new Hashmaps.Hashmap(TidKeying);
    }

    /** HashmapPendingResponses_Add */
    method Add(entry: PendingResponse) returns (rc: int)
      requires Valid()
      modifies hashmap.Repr
      ensures Valid() && fresh(hashmap.Repr - old(hashmap.Repr))
      ensures if entry.tid in old(Outstanding()) then rc == -1 && Outstanding() == old(Outstanding())
        else rc == 0 && Outstanding() == old(Outstanding())[entry.tid := entry]
    {
      rc := hashmap.Set(entry.tid, entry);
    }

    /** HashmapPendingResponses_Remove: None is *rc = -1. */
    method Remove(tid: uint16) returns (entry: Option<PendingResponse>)
      requires Valid()
      modifies hashmap.Repr
      ensures Valid() && fresh(hashmap.Repr - old(hashmap.Repr))
      ensures entry == if tid in old(Outstanding()) then Some(old(Outstanding())[tid]) else None
      ensures Outstanding() == old(Outstanding()) - {tid}
    {
      entry := hashmap.Delete(tid);
    }
  }
}
