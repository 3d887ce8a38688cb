/** Decimal numbers as bencode and strtol write and read them. */
module Decimal {
  import opened Bytes

  const LONG_MAX: int := 0x7FFF_FFFF_FFFF_FFFF
  const LONG_MIN: int := -0x8000_0000_0000_0000

  predicate IsDigit(c: byte) {
    '0' as int <= c <= '9' as int
  }

  predicate AllDigits(d: seq<byte>) {
    forall k :: 0 <= k < |d| ==> IsDigit(d[k])
  }

  /** The bytes of an ASCII text. */
  function Ascii(text: string): (r: seq<byte>)
    ensures |r| == |text|
  {
    seq(|text|, i requires 0 <= i < |text| => text[i] as int % 0x100)
  }

  /** The number that the digits d stand for. */
  function Num(d: seq<byte>): nat
    requires AllDigits(d)
  {
    if d == [] then 0 else Num(d[..|d| - 1]) * 10 + (d[|d| - 1] - '0' as int)
  }

  /** The digits of n, without padding. */
  function Dec(n: nat): (d: seq<byte>)
    ensures |d| > 0 && AllDigits(d)
  {
    if n < 10 then ['0' as int + n] else Dec(n / 10) + ['0' as int + n % 10]
  }

  /** No padding: a single digit, or one that is not zero to start with. */
  predicate Unpadded(d: seq<byte>) {
    |d| == 1 || (|d| > 1 && d[0] != '0' as int)
  }

  lemma {:induction false} DecMeaning(n: nat)
    ensures Num(Dec(n)) == n && Unpadded(Dec(n)) && (n > 0 ==> Dec(n)[0] != '0' as int)
  {
    if n < 10 {
      assert Dec(n)[..0] == [];
    } else {
      DecMeaning(n / 10);
      assert Dec(n)[..|Dec(n)| - 1] == Dec(n / 10);
    }
  }

  lemma {:induction false} NumZero(d: seq<byte>)
    requires AllDigits(d)
    ensures Num(d) == 0 <==> forall k :: 0 <= k < |d| ==> d[k] == '0' as int
  {
    if d != [] {
      var rest := d[..|d| - 1];
      NumZero(rest);
      assert Num(d) == 0 ==> Num(rest) == 0;
      assert forall k :: 0 <= k < |rest| ==> d[k] == rest[k];
    }
  }

  /** An unpadded number is the only way to write it without padding. */
  lemma {:induction false} DecOfNum(d: seq<byte>)
    requires AllDigits(d) && Unpadded(d)
    ensures Dec(Num(d)) == d
  {
    var rest := d[..|d| - 1];
    assert d == rest + [d[|d| - 1]];
    if |d| > 1 {
      NumZero(rest);
      assert rest[0] == d[0];
      DecOfNum(rest);
    }
  }

  /** The end of the digits that stand in s from i on. */
  function DigitsEnd(s: seq<byte>, i: nat): (e: nat)
    requires i <= |s|
    ensures i <= e <= |s|
    decreases |s| - i
  {
    if i < |s| && IsDigit(s[i]) then DigitsEnd(s, i + 1) else i
  }

  lemma {:induction false} DigitsEndMeaning(s: seq<byte>, i: nat)
    requires i <= |s|
    ensures var e := DigitsEnd(s, i);
      AllDigits(s[i..e]) && (e == |s| || !IsDigit(s[e]))
    decreases |s| - i
  {
    if i < |s| && IsDigit(s[i]) {
      DigitsEndMeaning(s, i + 1);
      var e := DigitsEnd(s, i);
      assert s[i..e] == [s[i]] + s[i + 1..e];
    }
  }

  lemma {:induction false} DigitsEndIs(s: seq<byte>, i: nat, e: nat)
    requires i <= e <= |s| && AllDigits(s[i..e]) && (e == |s| || !IsDigit(s[e]))
    ensures DigitsEnd(s, i) == e
    decreases e - i
  {
    if i < e {
      assert s[i..e][0] == s[i] && s[i + 1..e] == s[i..e][1..];
      DigitsEndIs(s, i + 1, e);
    }
  }

  /** What strtol does with a number: an optional minus sign, digits, and a range flag. */
  datatype Long = Long(value: int, end: nat, erange: bool)

  /** strtol on buf from at on, where at most a minus sign may precede the digits. */
  method Strtol(buf: seq<byte>, at: nat) returns (r: Long)
    requires at < |buf|
    ensures var a := if buf[at] == '-' as int then at + 1 else at;
      var e := DigitsEnd(buf, a);
      if e == a then r == Long(0, at, false)
      else AllDigits(buf[a..e]) && r == LongOf(a > at, Num(buf[a..e]), e)
  {
    var negative := buf[at] == '-' as int;
    var a := if negative then at + 1 else at;
    var e, n := a, 0;
    assert buf[a..a] == [];
    while e < |buf| && IsDigit(buf[e])
      invariant a <= e <= |buf| && AllDigits(buf[a..e]) && n == Num(buf[a..e])
    {
      assert buf[a..e + 1] == buf[a..e] + [buf[e]];
      assert buf[a..e + 1][..e - a] == buf[a..e];
      n := n * 10 + (buf[e] - '0' as int);
      e := e + 1;
    }
    DigitsEndIs(buf, a, e);
    if e == a {
      return Long(0, at, false);
    }
    r := LongOf(negative, n, e);
  }

  /** A number clipped to a 64-bit long, with the flag that says so. */
  function LongOf(negative: bool, n: nat, end: nat): Long {
    var v: int := if negative then 0 - n else n;
    if v > LONG_MAX then Long(LONG_MAX, end, true)
    else if v < LONG_MIN then Long(LONG_MIN, end, true)
    else Long(v, end, false)
  }
}
