/** src/lcthw/bstrlib.c: binstr, a search that scans greedily and backs up only when it is done. */
module Binstr {
  import opened Bytes

  const BSTR_OK: int := 0
  const BSTR_ERR: int := -1

  /** The needle stands in s at position p. */
  predicate OccursAt(s: seq<byte>, needle: seq<byte>, p: nat) {
    p + |needle| <= |s| && forall k {:trigger needle[k]} :: 0 <= k < |needle| ==> s[p + k] == needle[k]
  }

  /** The least position from p on at which the needle stands in s, or BSTR_ERR. */
  function FindFrom(s: seq<byte>, needle: seq<byte>, p: nat): (r: int)
    ensures r == BSTR_ERR || p <= r <= |s| - |needle|
    decreases |s| - p
  {
    if p + |needle| > |s| then BSTR_ERR
    else if OccursAt(s, needle, p) then p
    else FindFrom(s, needle, p + 1)
  }

  /** FindFrom is BSTR_ERR or an occurrence, and no occurrence from p on is before it. */
  lemma {:induction false} FindFromMeaning(s: seq<byte>, needle: seq<byte>, p: nat)
    ensures var r := FindFrom(s, needle, p);
      && (r == BSTR_ERR || OccursAt(s, needle, r))
      && (forall q :: p <= q && (r == BSTR_ERR || q < r) ==> !OccursAt(s, needle, q))
    decreases |s| - p
  {
    if p + |needle| <= |s| && !OccursAt(s, needle, p) {
      FindFromMeaning(s, needle, p + 1);
    }
  }

  /** What FindFrom promises leaves no choice. */
  lemma FindFromIs(s: seq<byte>, needle: seq<byte>, p: nat, r: int)
    requires r == BSTR_ERR || (p <= r && OccursAt(s, needle, r))
    requires forall q :: p <= q && (r == BSTR_ERR || q < r) ==> !OccursAt(s, needle, q)
    ensures FindFrom(s, needle, p) == r
  {
    FindFromMeaning(s, needle, p);
  }

  /** One byte of an occurrence. */
  lemma OccursByte(s: seq<byte>, needle: seq<byte>, p: nat, k: nat)
    requires OccursAt(s, needle, p) && k < |needle|
    ensures s[p + k] == needle[k]
  {
    assert s[p..p + |needle|][k] == s[p + k];
  }

  /** Greedy is never behind: with j bytes of the needle seen at i, an occurrence at p has at most j bytes before i. */
  ghost predicate Ahead(s: seq<byte>, needle: seq<byte>, start: nat, i: nat, j: nat) {
    forall p :: start <= p && OccursAt(s, needle, p) ==> i - p <= j
  }

  /** The bytes of the needle seen so far, when no byte was skipped since the first of them. */
  ghost predicate Contiguous(s: seq<byte>, needle: seq<byte>, ii: int, i: nat, j: nat) {
    j > 0 ==> 0 <= ii && ii + j <= i <= |s| && j <= |needle| && (i == ii + j ==> s[ii..i] == needle[..j])
  }

  lemma AheadSkip(s: seq<byte>, needle: seq<byte>, start: nat, i: nat, j: nat)
    requires Ahead(s, needle, start, i, j) && i < |s| && j < |needle| && s[i] != needle[j]
    ensures Ahead(s, needle, start, i + 1, j)
  {
    forall p | start <= p && OccursAt(s, needle, p) ensures i + 1 - p <= j {
      if i - p == j {
        OccursByte(s, needle, p, j);
      }
    }
  }

  lemma ContiguousStep(s: seq<byte>, needle: seq<byte>, ii: int, i: nat, j: nat)
    requires Contiguous(s, needle, ii, i, j) && i < |s| && j < |needle| && s[i] == needle[j]
    ensures Contiguous(s, needle, if j == 0 then i else ii, i + 1, j + 1)
  {
    if j > 0 && i == ii + j {
      assert s[ii..i + 1] == s[ii..i] + [s[i]] && needle[..j + 1] == needle[..j] + [needle[j]];
    }
  }

  /**
    binstr: the first position from pos on at which b2 stands in b1, or BSTR_ERR. sameData says that
    both strings start at the same address, so that one begins with the other.
   */
  method Binstr(b1: seq<byte>, pos: int, b2: seq<byte>, sameData: bool) returns (r: int)
    requires sameData ==> b1 <= b2 || b2 <= b1
    ensures r == if 0 <= pos <= |b1| then FindFrom(b1, b2, pos) else BSTR_ERR
  {
    if |b1| == pos {
      return if |b2| == 0 then pos else BSTR_ERR;
    }
    if |b1| < pos || pos < 0 {
      return BSTR_ERR;
    }
    if |b2| == 0 {
      return pos;
    }
    var lf := |b1| - |b2| + 1;
    if lf <= pos {
      return BSTR_ERR;
    }
    if sameData && pos == 0 {
      return 0;
    }
    var i, ll := pos, |b2|;
    var c0 := b2[0];
    if ll == 1 {
      while i < lf
        invariant pos <= i <= lf && forall q :: pos <= q < i ==> !OccursAt(b1, b2, q)
      {
        if c0 == b1[i] {
          assert OccursAt(b1, b2, i);
          FindFromIs(b1, b2, pos, i);
          return i;
        }
        assert b1[i..i + 1] == [b1[i]];
        i := i + 1;
      }
      FindFromIs(b1, b2, pos, BSTR_ERR);
      return BSTR_ERR;
    }
    r := GreedyScan(b1, pos, b2);
  }

  /** The main loop of binstr; the goto into it is the second way to reach the comparison at the end of its body. */
  method GreedyScan(d1: seq<byte>, pos: nat, d0: seq<byte>) returns (r: int)
    requires |d0| >= 2 && pos + |d0| <= |d1|
    ensures r == FindFrom(d1, d0, pos)
  {
    var ll, lf := |d0|, |d1| - 1;
    var c0, c1 := d0[0], d0[0];
    var i, j, ii := pos, 0, -1;
    ghost var start := pos;  // where the scan began, or last backed up to
    while true
      invariant pos <= start <= i <= lf + 1 && 0 <= j < ll && c1 == d0[j]
      invariant j > 0 ==> start <= ii
      invariant forall q :: pos <= q < start ==> !OccursAt(d1, d0, q)
      invariant Ahead(d1, d0, start, i, j) && Contiguous(d1, d0, ii, i, j)
      decreases lf + 1 - start, lf + 1 - i
    {
      if i < lf {
        if c1 != d1[i] {
          AheadSkip(d1, d0, start, i, j);
          if c1 != d1[i + 1] {
            AheadSkip(d1, d0, start, i + 1, j);
            i := i + 2;
            continue;
          }
          i := i + 1;
        }
        ContiguousStep(d1, d0, ii, i, j);
        if j == 0 {
          ii := i;
        }
        j := j + 1;
        i := i + 1;
        if j < ll {
          c1 := d0[j];
          continue;
        }
      } else if !(i == lf && ll == j + 1 && c1 == d1[i]) {
        NothingLeft(d1, d0, start, i, j);
        FindFromIs(d1, d0, pos, BSTR_ERR);
        return BSTR_ERR;
      } else {
        ContiguousStep(d1, d0, ii, i, j);
      }
      if i == ii + j {
        assert OccursAt(d1, d0, ii);
        FindFromIs(d1, d0, pos, ii);
        return ii;
      }
      i := i - j;
      j := 0;
      c1 := c0;
      start := i;
    }
  }

  /**
    Running into the end, with more than one byte to go or a last byte that does not fit, means that there
    is no occurrence.
   */
  lemma NothingLeft(s: seq<byte>, needle: seq<byte>, start: nat, i: nat, j: nat)
    requires Ahead(s, needle, start, i, j) && j < |needle| && |s| - 1 <= i <= |s|
    requires i == |s| - 1 && |needle| == j + 1 ==> needle[j] != s[i]
    ensures forall p :: start <= p ==> !OccursAt(s, needle, p)
  {
    forall p | start <= p && OccursAt(s, needle, p) ensures false {
      OccursByte(s, needle, p, |needle| - 1);
    }
  }
}
