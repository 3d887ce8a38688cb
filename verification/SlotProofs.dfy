/** Facts about the slots of one bucket and about moving nodes between two buckets. */
module SlotProofs {
  import opened Bytes
  import opened Hashes
  import opened Nodes
  import opened TableSpec

  lemma {:induction false} CountFull(s: seq<Option<Entry>>)
    ensures Count(s) == |s| <==> Full(s)
  {
    if |s| > 0 {
      CountFull(s[1..]);
      assert Full(s) <==> s[0].Some? && Full(s[1..]) by {
        assert s == [s[0]] + s[1..];
        assert forall j :: 0 <= j < |s| - 1 ==> s[1..][j] == s[j + 1];
        if s[0].Some? && Full(s[1..]) {
          forall j | 0 <= j < |s| ensures s[j].Some? {
            if j > 0 { assert s[1..][j - 1].Some?; }
          }
        }
      }
    }
  }

  function Weight(o: Option<Entry>): nat {
    if o.Some? then 1 else 0
  }

  lemma {:induction false} CountUpdate(s: seq<Option<Entry>>, i: nat, o: Option<Entry>)
    requires i < |s|
    ensures Count(s[i := o]) == Count(s) - Weight(s[i]) + Weight(o)
  {
    if i == 0 {
      assert s[0 := o][1..] == s[1..];
    } else {
      assert s[i := o][1..] == s[1..][i - 1 := o];
      CountUpdate(s[1..], i - 1, o);
    }
  }

  /** Adding fills exactly one empty slot. */
  lemma AddEffect(s: Slots, e: Entry)
    requires !Full(s)
    ensures Count(Add(s, e)) == Count(s) + 1
    ensures forall x :: Some(x) in Add(s, e) <==> x == e || Some(x) in s
    ensures Distinct(s) && !HoldsId(s, e.node.id) ==> Distinct(Add(s, e))
  {
    var f := FirstFree(s);
    CountUpdate(s, f, Some(e));
    forall x | Some(x) in s ensures Some(x) in Add(s, e) {
      var j :| 0 <= j < |s| && s[j] == Some(x);
      assert Add(s, e)[j] == Some(x);
    }
    assert Add(s, e)[f] == Some(e);
  }

  /** Overwriting a filled slot trades its node for the new one. */
  lemma ReplaceEffect(s: Slots, v: nat, e: Entry)
    requires v < BUCKET_K && s[v].Some? && Distinct(s) && !HoldsId(s, e.node.id)
    ensures forall x :: Some(x) in s[v := Some(e)] <==> x == e || (Some(x) in s && x != s[v].value)
    ensures Distinct(s[v := Some(e)])
    ensures Count(s[v := Some(e)]) == Count(s)
  {
    var r := s[v := Some(e)];
    CountUpdate(s, v, Some(e));
    forall x | Some(x) in s && x != s[v].value ensures Some(x) in r {
      var j :| 0 <= j < |s| && s[j] == Some(x);
      assert r[j] == Some(x);
    }
    assert r[v] == Some(e);
    forall x | Some(x) in r && x != e ensures Some(x) in s && x != s[v].value {
      var j :| 0 <= j < |r| && r[j] == Some(x);
      assert s[j] == Some(x) && j != v;
    }
  }

  /** No entry of s from slot i on that can be shifted has its id in next. */
  ghost predicate Apart(id: Hash, index: nat, s: Slots, next: Slots, i: nat) {
    forall j, k :: i <= j < BUCKET_K && 0 <= k < BUCKET_K && Shiftable(id, index, s[j]) && next[k].Some? ==>
      s[j].value.node.id != next[k].value.node.id
  }

  /** Shifting empties exactly the slots of nodes that share more than index bits. */
  lemma {:induction false} ShiftStay(id: Hash, index: nat, s: Slots, next: Slots, i: nat)
    requires i <= BUCKET_K && Count(next) <= i
    ensures var (s', next') := Shift(id, index, s, next, i);
      && (forall j :: 0 <= j < BUCKET_K ==> s'[j] == if j >= i && Shiftable(id, index, s[j]) then None else s[j])
      && Count(s') + Count(next') == Count(s) + Count(next)
    decreases BUCKET_K - i
  {
    CountFull(next);
    if i < BUCKET_K {
      if Shiftable(id, index, s[i]) {
        AddEffect(next, s[i].value);
        CountUpdate(s, i, None);
        ShiftStay(id, index, s[i := None], Add(next, s[i].value), i + 1);
      } else {
        ShiftStay(id, index, s, next, i + 1);
      }
    }
  }

  ghost predicate ComesFrom(id: Hash, index: nat, s: Slots, i: nat, x: Entry) {
    exists j :: i <= j < BUCKET_K && Shiftable(id, index, s[j]) && s[j] == Some(x)
  }

  /** Shifting puts exactly those nodes into the other bucket, and none gets lost. */
  lemma {:induction false} ShiftNext(id: Hash, index: nat, s: Slots, next: Slots, i: nat)
    requires i <= BUCKET_K && Count(next) <= i
    ensures forall x :: Some(x) in Shift(id, index, s, next, i).1 <==> Some(x) in next || ComesFrom(id, index, s, i, x)
    decreases BUCKET_K - i
  {
    CountFull(next);
    if i < BUCKET_K {
      var moves := Shiftable(id, index, s[i]);
      var s1 := if moves then s[i := None] else s;
      var next1 := if moves then Add(next, s[i].value) else next;
      if moves {
        AddEffect(next, s[i].value);
      }
      ShiftNext(id, index, s1, next1, i + 1);
      forall x
        ensures ComesFrom(id, index, s, i, x) <==> (moves && s[i] == Some(x)) || ComesFrom(id, index, s1, i + 1, x)
      {
        if ComesFrom(id, index, s, i, x) {
          var j :| i <= j < BUCKET_K && Shiftable(id, index, s[j]) && s[j] == Some(x);
          if j > i { assert s1[j] == s[j]; }
        }
        if ComesFrom(id, index, s1, i + 1, x) {
          var j :| i + 1 <= j < BUCKET_K && Shiftable(id, index, s1[j]) && s1[j] == Some(x);
          assert s1[j] == s[j];
        }
      }
    }
  }

  lemma {:induction false} ShiftDistinct(id: Hash, index: nat, s: Slots, next: Slots, i: nat)
    requires i <= BUCKET_K && Count(next) <= i
    requires Distinct(s) && Distinct(next) && Apart(id, index, s, next, i)
    ensures Distinct(Shift(id, index, s, next, i).1)
    decreases BUCKET_K - i
  {
    CountFull(next);
    if i < BUCKET_K {
      if Shiftable(id, index, s[i]) {
        var e := s[i].value;
        AddEffect(next, e);
        var next1 := Add(next, e);
        assert forall k :: 0 <= k < BUCKET_K && next1[k].Some? ==> next1[k] == Some(e) || next1[k] == next[k];
        ShiftDistinct(id, index, s[i := None], next1, i + 1);
      } else {
        ShiftDistinct(id, index, s, next, i + 1);
      }
    }
  }

  lemma {:induction false} CountZero(s: seq<Option<Entry>>)
    ensures Count(s) == 0 <==> forall j :: 0 <= j < |s| ==> s[j].None?
  {
    if |s| > 0 {
      CountZero(s[1..]);
      assert forall j :: 0 <= j < |s| - 1 ==> s[1..][j] == s[j + 1];
      if s[0].None? && forall j :: 0 <= j < |s| - 1 ==> s[1..][j].None? {
        forall j | 0 <= j < |s| ensures s[j].None? {
          if j > 0 { assert s[1..][j - 1].None?; }
        }
      }
    }
  }

  lemma EmptyBucket()
    ensures Count(NoNodes) == 0 && Distinct(NoNodes) && forall x :: Some(x) !in NoNodes
  {
    CountZero(NoNodes);
  }

  /** Shifting into an empty bucket separates the nodes by whether they share more than index bits. */
  lemma ShiftSeparates(id: Hash, index: nat, s: Slots)
    requires Distinct(s)
    ensures var (stay, next) := Shift(id, index, s, NoNodes);
      && (forall x :: Some(x) in stay <==> Some(x) in s && SharedPrefix(id, x.node.id) <= index)
      && (forall x :: Some(x) in next <==> Some(x) in s && SharedPrefix(id, x.node.id) > index)
  {
    EmptyBucket();
    ShiftStay(id, index, s, NoNodes, 0);
    ShiftNext(id, index, s, NoNodes, 0);
    var (stay, next) := Shift(id, index, s, NoNodes);
    forall x ensures Some(x) in stay <==> Some(x) in s && SharedPrefix(id, x.node.id) <= index {
      if Some(x) in s && SharedPrefix(id, x.node.id) <= index {
        var j :| 0 <= j < BUCKET_K && s[j] == Some(x);
        assert stay[j] == Some(x);
      }
    }
    forall x ensures Some(x) in next <==> Some(x) in s && SharedPrefix(id, x.node.id) > index {
      if Some(x) in s && SharedPrefix(id, x.node.id) > index {
        var j :| 0 <= j < BUCKET_K && s[j] == Some(x);
        assert Shiftable(id, index, s[j]);
        assert ComesFrom(id, index, s, 0, x);
      }
    }
  }

  lemma ShiftKeepsDistinct(id: Hash, index: nat, s: Slots)
    requires Distinct(s)
    ensures var (stay, next) := Shift(id, index, s, NoNodes);
      Distinct(stay) && Distinct(next) && Count(stay) + Count(next) == Count(s)
  {
    EmptyBucket();
    ShiftStay(id, index, s, NoNodes, 0);
    ShiftDistinct(id, index, s, NoNodes, 0);
  }
}
