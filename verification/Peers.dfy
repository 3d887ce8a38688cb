/** src/peers.c: the peers announced for one info hash, with the time of their last announcement. */
module PeersModule {
  import opened Bytes
  import opened HashmapSpec
  import Hashmaps

  const MAXPEERS: int := 0x1F00

  datatype Peer = Peer(addr: uint32, port: uint16)

  datatype PeerEntry = PeerEntry(peer: Peer, time: int)

  /** Peer_Compare: arithmetic modulo 2^32, so a difference of 0 only says that the two sums agree. */
  function PeerCompare(a: Peer, b: Peer): int {
    var difference := ((a.addr + a.port) % 0x1_0000_0000 - (b.addr + b.port) % 0x1_0000_0000) % 0x1_0000_0000;
    if difference < 0x8000_0000 then difference else difference - 0x1_0000_0000
  }

  /** Peer_Hash */
  function PeerHash(peer: Peer): nat {
    peer.addr
  }

  const PeerKeying: Keying<Peer> := Keying(PeerHash, PeerCompare)

  /** Peer_Compare alone takes different peers for the same one, exactly when address plus port agree modulo 2^32. */
  lemma PeerCompareIsNotEquality(a: Peer, b: Peer)
    ensures PeerCompare(a, b) == 0 <==> (a.addr + a.port) % 0x1_0000_0000 == (b.addr + b.port) % 0x1_0000_0000
    ensures PeerCompare(Peer(1, 0), Peer(0, 1)) == 0 && Peer(1, 0) != Peer(0, 1)
  {
  }

  /** Equal hashes and a comparison of 0 are together exactly equality of address and port. */
  lemma PeerKeyingExact()
    ensures Exact(PeerKeying)
  {
    forall a, b ensures PeerKeying.hash(a) == PeerKeying.hash(b) && PeerKeying.compare(a, b) == 0 <==> a == b {
      if a.addr == b.addr {
        assert PeerCompare(a, b) == 0 <==> a.port == b.port;
      }
    }
  }

  /** Every entry is stored under its own peer. */
  ghost predicate KeyedByPeer(m: map<Peer, PeerEntry>) {
    forall p :: p in m ==> m[p].peer == p
  }

  ghost function TimesOf(m: map<Peer, PeerEntry>): map<Peer, int> {
    map p | p in m :: m[p].time
  }

  lemma ReplaceKey<K, V>(m: map<K, V>, k: K, v: V)
    ensures (m - {k})[k := v] == m[k := v]
    ensures |m - {k}| == |m| - if k in m then 1 else 0
    ensures |m[k := v]| == |m - {k}| + 1
  {
    assert (m - {k}).Keys == m.Keys - {k};
    assert m[k := v].Keys == (m - {k}).Keys + {k};
  }

  /** Storing an entry under its peer, seen as a map of times. */
  lemma ReplaceEntry(m: map<Peer, PeerEntry>, e: PeerEntry)
    requires KeyedByPeer(m)
    ensures KeyedByPeer(m - {e.peer}) && KeyedByPeer(m[e.peer := e])
    ensures TimesOf(m[e.peer := e]) == TimesOf(m)[e.peer := e.time]
  {
  }

  /** TraverseAddPeer */
  function PushEntry(result: seq<PeerEntry>, node: HashmapNode<Peer, PeerEntry>): (seq<PeerEntry>, int) {
    (result + [node.data], 0)
  }

  function Entries(nodes: seq<HashmapNode<Peer, PeerEntry>>): seq<PeerEntry> {
    seq(|nodes|, i requires 0 <= i < |nodes| => nodes[i].data)
  }

  lemma {:induction false} FoldPushes(result: seq<PeerEntry>, nodes: seq<HashmapNode<Peer, PeerEntry>>)
    ensures Fold(result, nodes, PushEntry) == (result + Entries(nodes), 0)
    decreases |nodes|
  {
    if |nodes| > 0 {
      FoldPushes(result + [nodes[0].data], nodes[1..]);
      assert Entries(nodes) == [nodes[0].data] + Entries(nodes[1..]);
      assert result + Entries(nodes) == result + [nodes[0].data] + Entries(nodes[1..]);
    } else {
      assert result + Entries(nodes) == result;
    }
  }

  /** The list has exactly one entry for every pair of the map. */
  ghost predicate ListsMap(entries: seq<PeerEntry>, times: map<Peer, int>) {
    && (forall i, j :: 0 <= i < j < |entries| ==> entries[i].peer != entries[j].peer)
    && (forall i :: 0 <= i < |entries| ==> entries[i].peer in times && times[entries[i].peer] == entries[i].time)
    && (forall p :: p in times ==> PeerEntry(p, times[p]) in entries)
  }

  class Peers {
    const hashmap: Hashmaps.Hashmap<Peer, PeerEntry>
    var count: int

    ghost predicate Valid()
      reads this, hashmap, hashmap.Repr
    {
      && hashmap.Valid() && hashmap.keying == PeerKeying && this !in hashmap.Repr
      && KeyedByPeer(hashmap.Map())
      && count == |hashmap.Map()| <= MAXPEERS
    }

    /** Which peers are stored, and when each announced itself last. */
    ghost function Times(): map<Peer, int>
      reads this, hashmap
    {
      TimesOf(hashmap.Map())
    }

    /** Peers_Create */
    constructor ()
      ensures Valid() && fresh(hashmap) && fresh(hashmap.Repr) && Times() == map[]
    {
      PeerKeyingExact();
      hashmap := new Hashmaps.Hashmap(PeerKeying);
      count := 0;
    }

    /** Peers_AddPeer: refused, even for a peer that is there, once MAXPEERS are stored; else the peer's time is now. */
    method AddPeer(peer: Peer, now: int) returns (rc: int)
      requires Valid()
      modifies this, hashmap.Repr
      ensures Valid() && fresh(hashmap.Repr - old(hashmap.Repr))
      ensures rc == if old(count) == MAXPEERS then -1 else 0
      ensures Times() == if rc == 0 then old(Times())[peer := now] else old(Times())
    {
      if count == MAXPEERS {
        return -1;
      }
      ghost var before := hashmap.Map();
      var e := Unlink(peer, now);
      ReplaceEntry(before, e);
      ReplaceKey(before, peer, e);
      rc := hashmap.Set(e.peer, e);
      count := count + 1;
    }

    /** The first half of Peers_AddPeer: take out the entry of the peer, or make one, and set its time. */
    method Unlink(peer: Peer, now: int) returns (entry: PeerEntry)
      requires Valid()
      modifies this, hashmap.Repr
      ensures Valid() && fresh(hashmap.Repr - old(hashmap.Repr))
      ensures hashmap.Map() == old(hashmap.Map()) - {peer} && entry == PeerEntry(peer, now)
    {
      ReplaceKey(hashmap.Map(), peer, PeerEntry(peer, now));
      var found := hashmap.Delete(peer);
      entry := if found.None? then PeerEntry(peer, now) else found.value.(time := now);
      if found.Some? {
        count := count - 1;
      }
    }

    /** Peers_GetPeers: every stored peer is pushed on the result, once. */
    method GetPeers(result: seq<PeerEntry>) returns (all: seq<PeerEntry>)
      requires Valid()
      ensures |all| == |result| + count && all[..|result|] == result
      ensures ListsMap(all[|result|..], Times())
    {
      var rc;
      all, rc := hashmap.Traverse(result, PushEntry);
      ghost var nodes := Flatten(hashmap.Nodes);
      FoldPushes(result, nodes);
      TraverseExactlyOnce(PeerKeying, hashmap.Nodes);
      assert all[|result|..] == Entries(nodes);
      EntriesListMap(nodes, hashmap.Map());
    }

    /** Peers_Clean: exactly the entries older than the cutoff go. */
    method Clean(cutoff: int)
      requires Valid()
      modifies this, hashmap.Repr
      ensures Valid() && fresh(hashmap.Repr - old(hashmap.Repr))
      ensures Times() == NotBefore(old(Times()), cutoff)
      ensures forall p :: p in Times() <==> p in old(Times()) && !(old(Times())[p] < cutoff)
      ensures forall p :: p in Times() ==> Times()[p] == old(Times())[p]
    {
      hide Abs, HashmapSpec.Valid, Hashmaps.Holds, TimesOf, ListsMap, Cleaned, NotBefore;
      var tmp := GetPeers([]);
      ghost var before := hashmap.Map();
      assert tmp[0..] == tmp && ListsMap(tmp, TimesOf(before));
      CleanedNothing(before, tmp, cutoff);
      for i := 0 to |tmp|
        invariant Valid() && fresh(hashmap.Repr - old(hashmap.Repr))
        invariant hashmap.Map() == Cleaned(before, tmp[..i], cutoff)
      {
        CleanedStep(before, tmp, i, cutoff);
        if tmp[i].time < cutoff {
          Drop(tmp[i]);
        }
      }
      CleanedAll(before, tmp, cutoff);
      NotBeforeMeaning(TimesOf(before), cutoff);
    }

    /** One entry that Peers_Clean takes out. */
    method Drop(e: PeerEntry)
      requires Valid() && e.peer in hashmap.Map()
      modifies this, hashmap.Repr
      ensures Valid() && fresh(hashmap.Repr - old(hashmap.Repr))
      ensures hashmap.Map() == old(hashmap.Map()) - {e.peer}
    {
      ReplaceEntry(hashmap.Map(), e);
      ReplaceKey(hashmap.Map(), e.peer, e);
      var gone := hashmap.Delete(e.peer);
      count := count - 1;
    }
  }

  ghost function NotBefore(times: map<Peer, int>, cutoff: int): map<Peer, int> {
    map p | p in times && times[p] >= cutoff :: times[p]
  }

  lemma NotBeforeMeaning(times: map<Peer, int>, cutoff: int)
    ensures forall p :: p in NotBefore(times, cutoff) <==> p in times && !(times[p] < cutoff)
    ensures forall p :: p in NotBefore(times, cutoff) ==> NotBefore(times, cutoff)[p] == times[p]
  {
  }

  lemma CleanedNothing(m: map<Peer, PeerEntry>, tmp: seq<PeerEntry>, cutoff: int)
    ensures Cleaned(m, tmp[..0], cutoff) == m
  {
  }

  lemma CleanedAll(m: map<Peer, PeerEntry>, tmp: seq<PeerEntry>, cutoff: int)
    requires ListsMap(tmp, TimesOf(m))
    ensures TimesOf(Cleaned(m, tmp[..|tmp|], cutoff)) == NotBefore(TimesOf(m), cutoff)
  {
    assert tmp[..|tmp|] == tmp;
    forall p | p in m ensures p in Cleaned(m, tmp, cutoff) <==> m[p].time >= cutoff {
      assert p in TimesOf(m) && PeerEntry(p, TimesOf(m)[p]) in tmp;
      forall i | 0 <= i < |tmp| && tmp[i].peer == p ensures tmp[i].time == m[p].time {
        assert tmp[i].peer in TimesOf(m);
      }
    }
  }

  /** The map without the old ones among the entries seen so far. */
  ghost function Cleaned(m: map<Peer, PeerEntry>, seen: seq<PeerEntry>, cutoff: int): map<Peer, PeerEntry> {
    map p | p in m && !SeenOld(seen, p, cutoff) :: m[p]
  }

  ghost predicate SeenOld(seen: seq<PeerEntry>, p: Peer, cutoff: int) {
    exists i :: 0 <= i < |seen| && seen[i].peer == p && seen[i].time < cutoff
  }

  lemma SeenOldStep(a: seq<PeerEntry>, e: PeerEntry, p: Peer, cutoff: int)
    ensures SeenOld(a + [e], p, cutoff) <==> SeenOld(a, p, cutoff) || (e.peer == p && e.time < cutoff)
  {
    var b := a + [e];
    if SeenOld(a, p, cutoff) {
      var i :| 0 <= i < |a| && a[i].peer == p && a[i].time < cutoff;
      assert b[i] == a[i];
    }
    assert b[|a|] == e;
  }

  lemma CleanedStep(m: map<Peer, PeerEntry>, tmp: seq<PeerEntry>, i: nat, cutoff: int)
    requires i < |tmp| && ListsMap(tmp, TimesOf(m))
    ensures Cleaned(m, tmp[..i + 1], cutoff) ==
      if tmp[i].time < cutoff then Cleaned(m, tmp[..i], cutoff) - {tmp[i].peer} else Cleaned(m, tmp[..i], cutoff)
    ensures tmp[i].peer in Cleaned(m, tmp[..i], cutoff)
  {
    assert tmp[..i + 1] == tmp[..i] + [tmp[i]];
    assert tmp[i].peer in TimesOf(m);
    forall p {
      SeenOldStep(tmp[..i], tmp[i], p, cutoff);
    }
  }

  lemma EntriesListMap(nodes: seq<HashmapNode<Peer, PeerEntry>>, m: map<Peer, PeerEntry>)
    requires DistinctKeys(nodes) && KeyedByPeer(m)
    requires forall k, v :: HasPair(nodes, k, v) <==> k in m && m[k] == v
    ensures ListsMap(Entries(nodes), TimesOf(m))
  {
    var es := Entries(nodes);
    forall i | 0 <= i < |nodes| ensures nodes[i].key in m && m[nodes[i].key] == nodes[i].data
      && es[i].peer == nodes[i].key {
      assert HasPair(nodes, nodes[i].key, nodes[i].data);
    }
    forall p | p in m ensures PeerEntry(p, m[p].time) in es {
      assert HasPair(nodes, p, m[p]);
      var i :| 0 <= i < |nodes| && nodes[i].key == p && nodes[i].data == m[p];
      assert es[i] == m[p];
    }
  }
}
