/** src/lcthw/bstrlib.c: findreplaceengine, three ways to replace in place that compute the same string. */
module FindReplace {
  import opened Bytes
  import opened Binstr

  const INT_MAX: int := 0x7FFF_FFFF
  const INITIAL_STATIC_FIND_INDEX_COUNT: int := 32

  /** s from pos on, with the leftmost non-overlapping occurrences of find replaced. */
  function ReplaceFrom(s: seq<byte>, find: seq<byte>, repl: seq<byte>, pos: nat): seq<byte>
    requires |find| > 0 && pos <= |s|
    decreases |s| - pos
  {
    var i := FindFrom(s, find, pos);
    if i == BSTR_ERR then s[pos..] else s[pos..i] + repl + ReplaceFrom(s, find, repl, i + |find|)
  }

  /** What every strategy must compute: nothing before pos changes. */
  function Replace(s: seq<byte>, find: seq<byte>, repl: seq<byte>, pos: nat): seq<byte>
    requires |find| > 0 && pos <= |s|
  {
    s[..pos] + ReplaceFrom(s, find, repl, pos)
  }

  lemma SliceOfDrop<X>(s: seq<X>, a: nat, b: nat, c: nat)
    requires a <= b <= c <= |s|
    ensures s[a..][b - a..c - a] == s[b..c]
    ensures s[a..][b - a..] == s[b..]
  {
  }

  /** A search from pos on sees nothing of what is before pos. */
  lemma {:induction false} FindSuffix(s: seq<byte>, t: seq<byte>, needle: seq<byte>, pos: nat, p: nat)
    requires |s| == |t| && pos <= |s| && s[pos..] == t[pos..] && pos <= p
    ensures FindFrom(s, needle, p) == FindFrom(t, needle, p)
    decreases |s| - p
  {
    if p + |needle| <= |s| {
      SliceOfDrop(s, pos, p, p + |needle|);
      SliceOfDrop(t, pos, p, p + |needle|);
      if !OccursAt(s, needle, p) {
        FindSuffix(s, t, needle, pos, p + 1);
      }
    }
  }

  /**
    Between two turns of the loops that work from left to right: t is s with the gap of acc bytes before q,
    the first part already replaced.
   */
  ghost predicate Shrinking(s: seq<byte>, t: seq<byte>, find: seq<byte>, repl: seq<byte>, pos: nat, q: nat, acc: nat) {
    && |find| > 0 && |t| == |s| && acc <= q <= |s| && pos <= |s| && t[q..] == s[q..]
    && t[..q - acc] + ReplaceFrom(s, find, repl, q) == Replace(s, find, repl, pos)
  }

  /** memmove within one array */
  method Move(data: array<byte>, dst: nat, src: nat, n: nat)
    requires dst + n <= data.Length && src + n <= data.Length
    modifies data
    ensures forall k {:trigger data[k]} :: 0 <= k < data.Length ==>
      data[k] == if dst <= k < dst + n then old(data[src + (k - dst)]) else old(data[k])
  {
    forall k | 0 <= k < n {
      data[dst + k] := data[src + k];
    }
  }

  /** memcpy from a string that does not overlap the array */
  method Copy(data: array<byte>, dst: nat, bytes: seq<byte>)
    requires dst + |bytes| <= data.Length
    modifies data
    ensures forall k {:trigger data[k]} :: 0 <= k < data.Length ==>
      data[k] == if dst <= k < dst + |bytes| then bytes[k - dst] else old(data[k])
  {
    forall k | 0 <= k < |bytes| {
      data[dst + k] := bytes[k];
    }
  }

  class Bstring {
    var data: array<byte>
    var slen: nat

    ghost predicate Valid()
      reads this
    {
      slen <= data.Length <= INT_MAX && 0 < data.Length
    }

    function Text(): seq<byte>
      requires Valid()
      reads this, data
    {
      data[..slen]
    }

    constructor (text: seq<byte>)
      requires |text| < INT_MAX
      ensures Valid() && Text() == text && fresh(data)
    {
      data := new byte[|text| + 1](i => if 0 <= i < |text| then text[i] else 0);
      slen := |text|;
    }

    /** balloc: room for olen bytes, the old ones kept; BSTR_ERR for a size that has wrapped around. */
    method Grow(olen: int) returns (ret: int)
      requires Valid() && olen <= INT_MAX
      modifies this
      ensures Valid() && slen == old(slen) && data[..slen] == old(data[..slen])
      ensures ret == (if olen <= 0 then BSTR_ERR else BSTR_OK) && (ret == BSTR_ERR ==> unchanged(this))
      ensures (data == old(data) || fresh(data)) && olen <= data.Length && old(data.Length) <= data.Length
    {
      if olen <= 0 {
        return BSTR_ERR;
      }
      if data.Length < olen {
        var before := data[..];
        data := new byte[olen](i => if 0 <= i < |before| then before[i] else 0);
      }
      return BSTR_OK;
    }

    /** Search on from q, when the text from q on is still that of s. */
    method FindAgain(ghost s: seq<byte>, find: seq<byte>, q: nat) returns (i: int)
      requires Valid() && slen == |s| && q <= |s| && Text()[q..] == s[q..]
      ensures i == FindFrom(s, find, q)
    {
      FindSuffix(Text(), s, find, q, q);
      i := Binstr.Binstr(Text(), q, find, false);
    }

    /** Equal lengths: overwrite each occurrence where it stands. */
    method ReplaceEqual(find: seq<byte>, repl: seq<byte>, pos: nat)
      requires Valid() && 0 < |find| == |repl| && pos <= slen
      modifies data
      ensures Valid() && Text() == Replace(old(Text()), find, repl, pos)
    {
      hide FindFrom;
      hide ReplaceFrom;
      ghost var s := Text();
      var q := pos;
      var p := FindAgain(s, find, q);
      while p >= 0
        invariant Valid() && q <= slen && p == FindFrom(s, find, q)
        invariant Shrinking(s, Text(), find, repl, pos, q, 0)
        decreases slen - q
      {
        OverwriteOne(s, find, repl, pos, q, p);
        q := p + |find|;
        p := FindAgain(s, find, q);
      }
      ReplaceFromNone(s, find, repl, q);
    }

    /** One match of the equal-length strategy. */
    method OverwriteOne(ghost s: seq<byte>, find: seq<byte>, repl: seq<byte>, ghost pos: nat, ghost q: nat, p: nat)
      requires Valid() && |find| == |repl| && Shrinking(s, Text(), find, repl, pos, q, 0) && p == FindFrom(s, find, q)
      modifies data
      ensures Valid() && Shrinking(s, Text(), find, repl, pos, p + |find|, 0)
    {
      ghost var t := Text();
      Copy(data, p, repl);
      assert Text() == t[..p] + repl + t[p + |repl|..];
      ReplaceFromFound(s, find, repl, q, p);
      EqualStep(s, t, Text(), find, repl, q, p);
    }

    /** Move the text between two matches down by acc. */
    method CloseGap(q: nat, i: nat, acc: nat)
      requires acc <= q <= i <= data.Length
      modifies data
      ensures forall k {:trigger data[k]} :: 0 <= k < data.Length ==>
        data[k] == if q - acc <= k < i - acc then old(data[k + acc]) else old(data[k])
    {
      if acc > 0 && i > q {
        Move(data, q - acc, q, i - q);
      }
    }

    /** One match of the shrinking strategy: close the gap up to the match, then write the replacement. */
    method ShrinkStep(q: nat, i: nat, acc: nat, repl: seq<byte>, e: nat)
      requires Valid() && acc <= q <= i <= e && i - acc + |repl| <= e <= slen
      modifies data
      ensures Valid() && Text()[e..] == old(Text()[e..])
      ensures Text()[..i - acc + |repl|] == old(Text()[..q - acc] + Text()[q..i]) + repl
    {
      ghost var t := data[..];
      CloseGap(q, i, acc);
      ghost var u := data[..];
      if |repl| > 0 {
        Copy(data, i - acc, repl);
      }
      ghost var r := data[..];
      assert forall k {:trigger r[k]} :: 0 <= k < |r| ==>
        r[k] == if i - acc <= k < i - acc + |repl| then repl[k - (i - acc)] else u[k];
      ShrunkBytes(t, u, r, q, i, acc, repl, e, slen);
    }

    /** One turn of the loop of the shrinking strategy. */
    method ShrinkOne(ghost s: seq<byte>, find: seq<byte>, repl: seq<byte>, ghost pos: nat, q: nat, i: nat, acc: nat)
      requires Valid() && |repl| < |find| && Shrinking(s, Text(), find, repl, pos, q, acc) && i == FindFrom(s, find, q)
      modifies data
      ensures Valid() && Shrinking(s, Text(), find, repl, pos, i + |find|, acc + |find| - |repl|)
    {
      ghost var t := Text();
      ShrinkStep(q, i, acc, repl, i + |find|);
      ReplaceFromFound(s, find, repl, q, i);
      ShrinkSame(s, t, Text(), find, repl, q, i, acc);
    }

    /** A shorter replacement: left to right, everything after a match moves down. */
    method ReplaceShorter(find: seq<byte>, repl: seq<byte>, pos: nat)
      requires Valid() && |repl| < |find| && pos <= slen
      modifies this, data
      ensures Valid() && data == old(data) && Text() == Replace(old(Text()), find, repl, pos)
    {
      hide FindFrom;
      hide ReplaceFrom;
      ghost var s := Text();
      var delta := |find| - |repl|;
      var acc: nat, q := 0, pos;
      var i := FindAgain(s, find, q);
      while i >= 0
        invariant Valid() && data == old(data) && slen == old(slen) && q <= slen && i == FindFrom(s, find, q)
        invariant Shrinking(s, Text(), find, repl, pos, q, acc)
        decreases slen - q
      {
        ShrinkOne(s, find, repl, pos, q, i, acc);
        acc := acc + delta;
        q := i + |find|;
        i := FindAgain(s, find, q);
      }
      ReplaceFromNone(s, find, repl, q);
      CloseTail(q, acc);
    }

    /** The end of the shrinking strategy: close the last gap and shorten the string. */
    method CloseTail(q: nat, acc: nat)
      requires Valid() && acc <= q <= slen
      modifies `slen, data
      ensures Valid() && Text() == old(Text()[..q - acc] + Text()[q..])
    {
      if acc > 0 {
        ghost var t := Text();
        if slen > q {
          Move(data, q - acc, q, slen - q);
        }
        slen := slen - acc;
        data[slen] := 0;
        assert Text()[..q - acc] == t[..q - acc];
        assert Text()[q - acc..] == t[q..];
      } else {
        assert Text() == data[..q] + data[q..slen];
      }
    }

    /**
      One match of the expanding strategy: move the text behind the match up by acc, then put the
      replacement before it.
     */
    method ExpandStep(at: nat, l: nat, acc: nat, repl: seq<byte>, total: nat)
      requires at + l + acc <= total <= data.Length && |repl| <= at + acc
      modifies data
      ensures data[..at + acc - |repl|] == old(data[..at + acc - |repl|])
      ensures data[at + acc - |repl|..total] == repl + old(data[at..at + l] + data[at + l + acc..total])
    {
      ghost var t := data[..];
      if l > 0 {
        Move(data, at + acc, at, l);
      }
      ghost var u := data[..];
      assert forall k {:trigger u[k]} :: 0 <= k < |t| ==>
        u[k] == if at + acc <= k < at + acc + l then t[k - acc] else t[k];
      if |repl| > 0 {
        Copy(data, at + acc - |repl|, repl);
      }
      ghost var r := data[..];
      assert forall k {:trigger r[k]} :: 0 <= k < |r| ==>
        r[k] == if at + acc - |repl| <= k < at + acc then repl[k - (at + acc - |repl|)] else u[k];
      ExpandedBytes(t, u, r, at, l, acc, repl, total);
    }

    /** Room for one more position and the end: the array is doubled, as long as its size in bytes is an int. */
    static method MoreRoom(count: nat, mlen: int) returns (ok: bool, m: int)
      requires IsCapacity(mlen) && count < mlen
      ensures ok <==> count + 1 < MAX_MATCHES
      ensures ok ==> IsCapacity(m) && count + 1 < m
    {
      m := mlen;
      if count >= mlen - 1 {
        m := Wrapped(mlen + mlen);
        var sl := Wrapped(8 * m);
        if m <= 0 || sl < m {
          return false, m;
        }
      }
      return true, m;
    }

    /**
      The first half of the expanding strategy: record where the matches are and add up what they grow by.
      None when the array of positions or the sum is more than an int can take.
     */
    method FindMatches(find: seq<byte>, pos: nat, grow: nat) returns (r: Option<(seq<nat>, nat)>)
      requires Valid() && |find| > 0 && pos <= slen && grow <= INT_MAX
      ensures var d := Matches(Text(), find, pos);
        r == if |d| >= MAX_MATCHES || Times(|d|, grow) > INT_MAX then None else Some((d, Times(|d|, grow)))
    {
      hide FindFrom, ReplaceFrom, Matches, OccursAt;
      var d, acc, mlen := [], 0, INITIAL_STATIC_FIND_INDEX_COUNT;
      var s := Text();
      var p := Binstr.Binstr(s, pos, find, false);
      ghost var q := pos;
      while p >= 0
        invariant pos <= q <= |s| && p == FindFrom(s, find, q)
        invariant d + Matches(s, find, q) == Matches(s, find, pos)
        invariant acc == Times(|d|, grow) <= INT_MAX && IsCapacity(mlen) && |d| < mlen
        decreases |s| - q
      {
        FirstMatch(s, find, q, p);
        Associative(d, [p], Matches(s, find, p + |find|));
        TimesMonotone(|d| + 1, |Matches(s, find, pos)|, grow);
        var room;
        room, mlen := MoreRoom(|d|, mlen);
        if !room {
          return None;
        }
        d := d + [p];
        acc := Wrapped(acc + grow);
        q := p + |find|;
        if acc < 0 {
          return None;
        }
        p := Binstr.Binstr(s, p + |find|, find, false);
      }
      NoMatch(s, find, q);
      assert d + [] == d;
      return Some((d, acc));
    }

    /** One turn of the loop of the expanding strategy. */
    method FillOne(ghost s: seq<byte>, d: seq<nat>, i: nat, width: nat, repl: seq<byte>, acc: nat, total: nat)
      requires i + 1 < |d| && Spaced(d[i..], width, |s|) && Spaced(d[i + 1..], width, |s|)
      requires d[i] + width <= d[i + 1] <= |s|
      requires width < |repl| && |repl| - width <= acc && d[i + 1] + acc <= total <= data.Length
      requires data[..d[i + 1]] == s[..d[i + 1]] && data[d[i + 1] + acc..total] == Fill(s, d[i + 1..], width, repl)
      modifies data
      ensures data[..d[i]] == s[..d[i]]
      ensures data[d[i] + (acc - (|repl| - width))..total] == Fill(s, d[i..], width, repl)
    {
      hide Fill, Spaced;
      ghost var t := data[..];
      ExpandStep(d[i] + width, d[i + 1] - (d[i] + width), acc, repl, total);
      FillStep(s, t, data[..], d, i, width, repl, acc - (|repl| - width), total);
    }

    /** The second half of the expanding strategy: from the last match to the first. */
    method FillBack(ghost s: seq<byte>, d: seq<nat>, width: nat, repl: seq<byte>, total: nat)
      requires Spaced(d, width, |s|) && width < |repl|
      requires total == |s| + Times(|d| - 1, |repl| - width) < data.Length && data[..|s|] == s
      modifies data
      ensures data[..d[0]] == s[..d[0]] && data[d[0]..total] == Fill(s, d, width, repl)
    {
      var i, grow := |d| - 1, |repl| - width;
      var acc := Times(i, grow);
      SpacedAt(d, width, |s|, i);
      while i > 0
        invariant 0 <= i < |d| && d[i] <= |s| && acc == Times(i, grow) && d[i] + acc <= total
        invariant data[..d[i]] == s[..d[i]]
        invariant Spaced(d[i..], width, |s|) && data[d[i] + acc..total] == Fill(s, d[i..], width, repl)
      {
        i := i - 1;
        assert acc == Times(i, grow) + grow;
        SpacedAt(d, width, |s|, i);
        FillOne(s, d, i, width, repl, acc, total);
        acc := acc - grow;
      }
      assert d[0..] == d;
    }

    /** A longer replacement: find every match, make room once, then fill in from the right. */
    method ReplaceLonger(find: seq<byte>, repl: seq<byte>, pos: nat) returns (ret: int)
      requires Valid() && 0 < |find| < |repl| <= INT_MAX && pos <= slen
      modifies this, data
      ensures Valid() && ret == if Overflows(old(Text()), find, repl, pos) then BSTR_ERR else BSTR_OK
      ensures Text() == if ret == BSTR_OK then Replace(old(Text()), find, repl, pos) else old(Text())
    {
      hide FindFrom, ReplaceFrom, Matches;
      ghost var s := Text();
      var found := FindMatches(find, pos, |repl| - |find|);
      if found.None? {
        return BSTR_ERR;
      }
      var matches, acc := found.value.0, found.value.1;
      ret := Grow(Wrapped(slen + acc + 1));
      if ret == BSTR_OK {
        FillIn(matches, acc, find, repl, pos);
      }
    }

    /** The second half of the expanding strategy, in a buffer that is large enough. */
    method FillIn(matches: seq<nat>, acc: nat, find: seq<byte>, repl: seq<byte>, pos: nat)
      requires Valid() && 0 < |find| < |repl| && pos <= slen && matches == Matches(Text(), find, pos)
      requires acc == Times(|matches|, |repl| - |find|) && slen + acc < data.Length
      modifies `slen, data
      ensures Valid() && Text() == Replace(old(Text()), find, repl, pos)
    {
      hide FindFrom, ReplaceFrom, Matches, Fill, Spaced;
      ghost var s := Text();
      var d := matches + [slen];
      MatchesSpaced(s, find, pos);
      ReplaceByMatches(s, find, repl, pos, d);
      slen := slen + acc;
      FillBack(s, d, |find|, repl, slen);
      data[slen] := 0;
      Halves(data[..slen], d[0]);
      Rejoined(s, pos, d[0], Fill(s, d, |find|, repl));
    }

    /**
      findreplaceengine with binstr: BSTR_ERR and nothing changed on bad arguments, or when a longer
      replacement makes more matches or a longer string than an int can take; else everything from pos on
      is replaced.
     */
    method FindReplace(find: seq<byte>, repl: seq<byte>, pos: int) returns (r: int)
      requires Valid() && |find| <= INT_MAX && |repl| <= INT_MAX
      modifies this, data
      ensures Valid()
      ensures r == if pos < 0 || |find| == 0 then BSTR_ERR
        else if pos <= old(slen) - |find| && |find| < |repl| && Overflows(old(Text()), find, repl, pos) then BSTR_ERR
        else BSTR_OK
      ensures Text() == if r == BSTR_OK && pos <= old(slen) then Replace(old(Text()), find, repl, pos) else old(Text())
    {
      if pos < 0 || |find| == 0 {
        return BSTR_ERR;
      }
      if pos > slen - |find| {
        return BSTR_OK;
      }
      var delta := |find| - |repl|;
      if delta == 0 {
        ReplaceEqual(find, repl, pos);
      } else if delta > 0 {
        ReplaceShorter(find, repl, pos);
      } else {
        r := ReplaceLonger(find, repl, pos);
        return;
      }
      return BSTR_OK;
    }
  }

  /** The value of an int that has been assigned n. */
  function Wrapped(n: int): int {
    (n + 0x8000_0000) % 0x1_0000_0000 - 0x8000_0000
  }

  /** From so many matches on, the size in bytes of the array of positions is more than an int can take. */
  const MAX_MATCHES: int := 0x800_0000

  /** Doubled from 32, up to the last size that can be doubled to. */
  predicate IsCapacity(n: int) {
    || n == 0x20 || n == 0x40 || n == 0x80 || n == 0x100 || n == 0x200 || n == 0x400 || n == 0x800
    || n == 0x1000 || n == 0x2000 || n == 0x4000 || n == 0x8000 || n == 0x1_0000 || n == 0x2_0000
    || n == 0x4_0000 || n == 0x8_0000 || n == 0x10_0000 || n == 0x20_0000 || n == 0x40_0000
    || n == 0x80_0000 || n == 0x100_0000 || n == 0x200_0000 || n == 0x400_0000 || n == MAX_MATCHES
  }

  /** A longer replacement that the engine refuses. */
  ghost predicate Overflows(s: seq<byte>, find: seq<byte>, repl: seq<byte>, pos: nat)
    requires 0 < |find| < |repl| && pos <= |s|
  {
    var n := |Matches(s, find, pos)|;
    n >= MAX_MATCHES || |s| + Times(n, |repl| - |find|) + 1 > INT_MAX
  }

  lemma {:induction false} TimesMonotone(m: nat, n: nat, g: nat)
    ensures m <= n ==> Times(m, g) <= Times(n, g)
    decreases n
  {
    if m < n {
      TimesMonotone(m, n - 1, g);
    }
  }

  lemma FirstMatch(s: seq<byte>, find: seq<byte>, q: nat, p: nat)
    requires |find| > 0 && q <= |s| && FindFrom(s, find, q) == p
    ensures p + |find| <= |s| && Matches(s, find, q) == [p] + Matches(s, find, p + |find|)
  {
    hide FindFrom;
  }

  lemma NoMatch(s: seq<byte>, find: seq<byte>, q: nat)
    requires |find| > 0 && q <= |s| && FindFrom(s, find, q) < 0
    ensures Matches(s, find, q) == []
  {
  }

  lemma ReplaceFromNone(s: seq<byte>, find: seq<byte>, repl: seq<byte>, q: nat)
    requires |find| > 0 && q <= |s| && FindFrom(s, find, q) == BSTR_ERR
    ensures ReplaceFrom(s, find, repl, q) == s[q..]
  {
  }

  lemma ReplaceFromFound(s: seq<byte>, find: seq<byte>, repl: seq<byte>, q: nat, p: nat)
    requires |find| > 0 && q <= |s| && FindFrom(s, find, q) == p
    ensures ReplaceFrom(s, find, repl, q) == s[q..p] + repl + ReplaceFrom(s, find, repl, p + |find|)
    ensures Matches(s, find, q) == [p] + Matches(s, find, p + |find|)
  {
    hide FindFrom;
  }

  lemma MoveBracket<X>(a: seq<X>, b: seq<X>, c: seq<X>, d: seq<X>)
    ensures (a + b + c) + d == a + (b + c + d)
  {
  }

  lemma EqualStep(s: seq<byte>, t: seq<byte>, u: seq<byte>, find: seq<byte>, repl: seq<byte>, q: nat, p: nat)
    requires 0 < |find| == |repl| && q <= |s| == |t| && t[q..] == s[q..]
    requires q <= p <= |s| - |find| && u == t[..p] + repl + t[p + |repl|..]
    requires ReplaceFrom(s, find, repl, q) == s[q..p] + repl + ReplaceFrom(s, find, repl, p + |find|)
    ensures |u| == |s| && u[p + |find|..] == s[p + |find|..]
    ensures u[..p + |find|] + ReplaceFrom(s, find, repl, p + |find|) == t[..q] + ReplaceFrom(s, find, repl, q)
  {
    hide ReplaceFrom;
    var e := p + |find|;
    SliceOfDrop(s, q, p, e);
    SliceOfDrop(t, q, p, e);
    SliceOfDrop(s, q, q, p);
    SliceOfDrop(t, q, q, p);
    assert u[e..] == t[e..];
    var rest := ReplaceFrom(s, find, repl, e);
    assert u[..e] == t[..p] + repl;
    assert t[..p] == t[..q] + s[q..p];
    MoveBracket(t[..q], s[q..p], repl, rest);
  }

  lemma ShrunkBytes(t: seq<byte>, u: seq<byte>, r: seq<byte>, q: nat, i: nat, acc: nat, repl: seq<byte>, e: nat, n: nat)
    requires |t| == |u| == |r| && acc <= q <= i <= e && i - acc + |repl| <= e <= n <= |t|
    requires forall k {:trigger u[k]} :: 0 <= k < |t| ==> u[k] == if q - acc <= k < i - acc then t[k + acc] else t[k]
    requires forall k {:trigger r[k]} :: 0 <= k < |r| ==>
      r[k] == if i - acc <= k < i - acc + |repl| then repl[k - (i - acc)] else u[k]
    ensures r[..n][e..] == t[..n][e..]
    ensures r[..n][..i - acc + |repl|] == t[..n][..q - acc] + t[..n][q..i] + repl
  {
    assert r[..n][e..] == t[..n][e..] by {
      forall k | e <= k < n ensures r[k] == t[k] {
        assert u[k] == t[k];
      }
    }
    var a, b, c := q - acc, i - acc, i - acc + |repl|;
    assert r[..a] == t[..a] by {
      forall k | 0 <= k < a ensures r[k] == t[k] {
        assert u[k] == t[k];
      }
    }
    assert r[a..b] == t[q..i] by {
      forall k | a <= k < b ensures r[k] == t[k + acc] {
        assert u[k] == t[k + acc];
      }
    }
    assert r[b..c] == repl;
    ThreePieces(r, a, b, c);
    assert r[..n][..c] == r[..c] && t[..n][..a] == t[..a] && t[..n][q..i] == t[q..i];
  }

  lemma ThreePieces<X>(s: seq<X>, a: nat, b: nat, c: nat)
    requires a <= b <= c <= |s|
    ensures s[..c] == s[..a] + s[a..b] + s[b..c]
  {
  }

  lemma ExpandedBytes(t: seq<byte>, u: seq<byte>, r: seq<byte>, at: nat, l: nat, acc: nat, repl: seq<byte>, total: nat)
    requires |t| == |u| == |r| && at + l + acc <= total <= |t| && |repl| <= at + acc
    requires forall k {:trigger u[k]} :: 0 <= k < |t| ==>
      u[k] == if at + acc <= k < at + acc + l then t[k - acc] else t[k]
    requires forall k {:trigger r[k]} :: 0 <= k < |r| ==>
      r[k] == if at + acc - |repl| <= k < at + acc then repl[k - (at + acc - |repl|)] else u[k]
    ensures r[..at + acc - |repl|] == t[..at + acc - |repl|]
    ensures r[at + acc - |repl|..total] == repl + (t[at..at + l] + t[at + l + acc..total])
  {
    var from := at + acc - |repl|;
    forall k | 0 <= k < from ensures r[k] == t[k] {
    }
    var left, right := r[from..total], repl + (t[at..at + l] + t[at + l + acc..total]);
    forall k | 0 <= k < |left| ensures left[k] == right[k] {
      assert left[k] == r[from + k];
      if |repl| <= k {
        assert u[from + k] == if k < |repl| + l then t[from + k - acc] else t[from + k];
      }
    }
  }

  lemma ShrinkSame(s: seq<byte>, t: seq<byte>, u: seq<byte>, find: seq<byte>, repl: seq<byte>, q: nat, i: nat, acc: nat)
    requires |repl| < |find| && acc <= q <= i <= |s| - |find| && |s| == |t| == |u| && t[q..] == s[q..]
    requires ReplaceFrom(s, find, repl, q) == s[q..i] + repl + ReplaceFrom(s, find, repl, i + |find|)
    requires u[i + |find|..] == t[i + |find|..]
    requires u[..i - acc + |repl|] == t[..q - acc] + t[q..i] + repl
    ensures u[i + |find|..] == s[i + |find|..]
    ensures u[..i - acc + |repl|] + ReplaceFrom(s, find, repl, i + |find|)
      == t[..q - acc] + ReplaceFrom(s, find, repl, q)
  {
    hide ReplaceFrom;
    var e := i + |find|;
    SliceOfDrop(s, q, i, e);
    SliceOfDrop(t, q, i, e);
    SliceOfDrop(s, q, q, i);
    SliceOfDrop(t, q, q, i);
    MoveBracket(t[..q - acc], s[q..i], repl, ReplaceFrom(s, find, repl, e));
  }

  /** The positions at which the leftmost non-overlapping occurrences stand. */
  function Matches(s: seq<byte>, find: seq<byte>, pos: nat): seq<nat>
    requires |find| > 0 && pos <= |s|
    decreases |s| - pos
  {
    var i := FindFrom(s, find, pos);
    if i == BSTR_ERR then [] else [i] + Matches(s, find, i + |find|)
  }

  /** The positions leave room for an occurrence before the next, and the last one is the end. */
  ghost predicate Spaced(d: seq<nat>, width: nat, end: nat) {
    && |d| > 0 && d[0] <= end
    && if |d| == 1 then d[0] == end else d[0] + width <= d[1] <= end && Spaced(d[1..], width, end)
  }

  lemma {:induction false} SpacedAt(d: seq<nat>, width: nat, end: nat, i: nat)
    requires Spaced(d, width, end) && i < |d|
    ensures Spaced(d[i..], width, end) && d[i] <= end && (i + 1 < |d| ==> d[i] + width <= d[i + 1])
  {
    if i == 0 {
      assert d[0..] == d;
    } else {
      SpacedAt(d[1..], width, end, i - 1);
      assert d[1..][i - 1..] == d[i..];
    }
  }

  /** n times g */
  function Times(n: nat, g: nat): nat {
    if n == 0 then 0 else Times(n - 1, g) + g
  }

  lemma {:induction false} MatchesSpaced(s: seq<byte>, find: seq<byte>, pos: nat)
    requires |find| > 0 && pos <= |s|
    ensures var d := Matches(s, find, pos) + [|s|];
      Spaced(d, |find|, |s|) && pos <= d[0]
    decreases |s| - pos
  {
    var i := FindFrom(s, find, pos);
    if i != BSTR_ERR {
      MatchesSpaced(s, find, i + |find|);
      assert (Matches(s, find, pos) + [|s|])[1..] == Matches(s, find, i + |find|) + [|s|];
    }
  }

  /** From the first of the positions d on: each occurrence replaced, the text between them kept. */
  function Fill(s: seq<byte>, d: seq<nat>, width: nat, repl: seq<byte>): seq<byte>
    requires Spaced(d, width, |s|)
    decreases |d|
  {
    if |d| == 1 then [] else repl + s[d[0] + width..d[1]] + Fill(s, d[1..], width, repl)
  }

  lemma Associative<X>(a: seq<X>, b: seq<X>, c: seq<X>)
    ensures (a + b) + c == a + (b + c)
  {
  }

  lemma {:induction false} ReplaceByMatches(s: seq<byte>, find: seq<byte>, repl: seq<byte>, pos: nat, d: seq<nat>)
    requires |find| > 0 && pos <= |s| && d == Matches(s, find, pos) + [|s|]
    requires Spaced(d, |find|, |s|) && pos <= d[0]
    ensures ReplaceFrom(s, find, repl, pos) == s[pos..d[0]] + Fill(s, d, |find|, repl)
    decreases |s| - pos
  {
    var i := FindFrom(s, find, pos);
    if i == BSTR_ERR {
      assert d == [|s|] && s[pos..|s|] == s[pos..];
    } else {
      var rest := Matches(s, find, i + |find|) + [|s|];
      assert d == [i] + rest;
      MatchesSpaced(s, find, i + |find|);
      ReplaceByMatches(s, find, repl, i + |find|, rest);
      FillFirst(s, find, repl, pos, i, rest);
    }
  }

  lemma FillFirst(s: seq<byte>, find: seq<byte>, repl: seq<byte>, pos: nat, i: nat, rest: seq<nat>)
    requires |find| > 0 && pos <= |s| && FindFrom(s, find, pos) == i
    requires Spaced(rest, |find|, |s|) && i + |find| <= rest[0]
    requires ReplaceFrom(s, find, repl, i + |find|) == s[i + |find|..rest[0]] + Fill(s, rest, |find|, repl)
    ensures Spaced([i] + rest, |find|, |s|)
    ensures ReplaceFrom(s, find, repl, pos) == s[pos..i] + Fill(s, [i] + rest, |find|, repl)
  {
    FillCons(s, |find|, repl, i, rest);
    ReplaceFromFound(s, find, repl, pos, i);
    hide FindFrom, ReplaceFrom, Fill, Spaced;
    FillFront(s[pos..i], repl, s[i + |find|..rest[0]], Fill(s, rest, |find|, repl));
  }

  lemma FillCons(s: seq<byte>, width: nat, repl: seq<byte>, i: nat, rest: seq<nat>)
    requires Spaced(rest, width, |s|) && i + width <= rest[0]
    ensures Spaced([i] + rest, width, |s|)
    ensures Fill(s, [i] + rest, width, repl) == repl + s[i + width..rest[0]] + Fill(s, rest, width, repl)
  {
    assert ([i] + rest)[1..] == rest;
  }

  lemma FillFront<X>(a: seq<X>, b: seq<X>, c: seq<X>, d: seq<X>)
    ensures a + b + (c + d) == a + (b + c + d)
  {
  }

  lemma Halves<X>(s: seq<X>, i: nat)
    requires i <= |s|
    ensures s == s[..i] + s[i..]
  {
  }

  lemma Rejoined<X>(s: seq<X>, a: nat, b: nat, rest: seq<X>)
    requires a <= b <= |s|
    ensures s[..b] + rest == s[..a] + (s[a..b] + rest)
  {
    assert s[..b] == s[..a] + s[a..b];
  }

  lemma FillStep(s: seq<byte>, t: seq<byte>, u: seq<byte>, d: seq<nat>, i: nat, width: nat, repl: seq<byte>,
                 acc: nat, total: nat)
    requires i + 1 < |d| && Spaced(d[i..], width, |s|) && Spaced(d[i + 1..], width, |s|)
    requires d[i] + width <= d[i + 1] <= |s|
    requires width < |repl| && |t| == |u| && d[i + 1] + (acc + |repl| - width) <= total <= |t|
    requires t[..d[i + 1]] == s[..d[i + 1]]
    requires t[d[i + 1] + (acc + |repl| - width)..total] == Fill(s, d[i + 1..], width, repl)
    requires u[..d[i] + acc] == t[..d[i] + acc]
    requires u[d[i] + acc..total] == repl + (t[d[i] + width..d[i + 1]] + t[d[i + 1] + (acc + |repl| - width)..total])
    ensures d[i] + acc <= total && u[..d[i]] == s[..d[i]] && u[d[i] + acc..total] == Fill(s, d[i..], width, repl)
  {
    assert d[i..][0] == d[i] && d[i..][1] == d[i + 1];
    assert u[..d[i]] == u[..d[i] + acc][..d[i]] == t[..d[i]] == t[..d[i + 1]][..d[i]] == s[..d[i]];
    assert t[d[i] + width..d[i + 1]] == t[..d[i + 1]][d[i] + width..] == s[d[i] + width..d[i + 1]];
    assert d[i..][1..] == d[i + 1..] && d[i..][0] == d[i] && d[i..][1] == d[i + 1];
    var rest := Fill(s, d[i + 1..], width, repl);
    assert repl + (s[d[i] + width..d[i + 1]] + rest) == repl + s[d[i] + width..d[i + 1]] + rest;
  }

  /** A string of this width at p overlaps one of the positions that is not behind p. */
  ghost predicate Overlaps(positions: seq<nat>, width: nat, p: nat) {
    exists m :: m in positions && m <= p < m + width
  }

  lemma OverlapsMore(i: nat, rest: seq<nat>, width: nat, p: nat)
    requires i <= p < i + width || Overlaps(rest, width, p)
    ensures Overlaps([i] + rest, width, p)
  {
    assert i in [i] + rest && forall m :: m in rest ==> m in [i] + rest;
  }

  /**
    The recorded positions are occurrences, and every other occurrence overlaps one of them that starts
    before it: they are the leftmost ones that do not overlap.
   */
  lemma {:induction false} MatchesAreLeftmost(s: seq<byte>, find: seq<byte>, pos: nat)
    requires |find| > 0 && pos <= |s|
    ensures forall m :: m in Matches(s, find, pos) ==> pos <= m && OccursAt(s, find, m)
    ensures forall p :: pos <= p && OccursAt(s, find, p) ==> Overlaps(Matches(s, find, pos), |find|, p)
    decreases |s| - pos
  {
    FindFromMeaning(s, find, pos);
    var i := FindFrom(s, find, pos);
    hide FindFrom, OccursAt, Overlaps;
    if i != BSTR_ERR {
      var rest := Matches(s, find, i + |find|);
      MatchesAreLeftmost(s, find, i + |find|);
      assert Matches(s, find, pos) == [i] + rest;
      forall p | pos <= p && OccursAt(s, find, p) ensures Overlaps([i] + rest, |find|, p) {
        OverlapsMore(i, rest, |find|, p);
      }
    }
  }

  lemma OccursSlice(s: seq<byte>, find: seq<byte>, p: nat)
    requires OccursAt(s, find, p)
    ensures s[p..p + |find|] == find
  {
  }

  lemma {:induction false} ReplaceFromBySelf(s: seq<byte>, find: seq<byte>, pos: nat)
    requires |find| > 0 && pos <= |s|
    ensures ReplaceFrom(s, find, find, pos) == s[pos..]
    decreases |s| - pos
  {
    hide FindFrom, ReplaceFrom, OccursAt;
    var i := FindFrom(s, find, pos);
    if i == BSTR_ERR {
      ReplaceFromNone(s, find, find, pos);
    } else {
      FindFromMeaning(s, find, pos);
      OccursSlice(s, find, i);
      ReplaceFromFound(s, find, find, pos, i);
      ReplaceFromBySelf(s, find, i + |find|);
      Rejoin(s, pos, i, i + |find|);
    }
  }

  /** Replacing a string by itself changes nothing. */
  lemma ReplaceBySelf(s: seq<byte>, find: seq<byte>, pos: nat)
    requires |find| > 0 && pos <= |s|
    ensures Replace(s, find, find, pos) == s
  {
    ReplaceFromBySelf(s, find, pos);
    hide ReplaceFrom;
    assert s[..pos] + s[pos..] == s;
  }

  lemma Rejoin<X>(s: seq<X>, a: nat, b: nat, c: nat)
    requires a <= b <= c <= |s|
    ensures s[a..b] + s[b..c] + s[c..] == s[a..]
  {
  }

  /** Every match makes the result longer or shorter by the difference of the two lengths. */
  lemma {:induction false} ReplaceLength(s: seq<byte>, find: seq<byte>, repl: seq<byte>, pos: nat)
    requires |find| > 0 && pos <= |s|
    ensures |ReplaceFrom(s, find, repl, pos)| + Times(|Matches(s, find, pos)|, |find|)
      == |s| - pos + Times(|Matches(s, find, pos)|, |repl|)
    decreases |s| - pos
  {
    var i := FindFrom(s, find, pos);
    if i != BSTR_ERR {
      ReplaceLength(s, find, repl, i + |find|);
    }
  }
}
