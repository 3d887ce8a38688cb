/** src/hash.c: 160-bit ids, shared prefixes and the XOR distance. */
module Hashes {
  import opened Bytes
  import Bits

  const HASH_BYTES: nat := 20
  const HASH_BITS: nat := 160

  type Hash = h: seq<byte> | |h| == HASH_BYTES witness seq(20, _ => 0)

  /** Bit j of a byte, the most significant first. */
  predicate BitOf(b: byte, j: nat)
    requires j < 8
  {
    Bits.LowBit(b, 7 - j)
  }

  /** The operators ^, &, | and ~ on bytes. */
  function XorByte(x: byte, y: byte): byte {
    ByteBound();
    Bits.Combine(Bits.Xor, x, y, 8)
  }

  function AndByte(x: byte, y: byte): byte {
    ByteBound();
    Bits.Combine(Bits.And, x, y, 8)
  }

  function OrByte(x: byte, y: byte): byte {
    ByteBound();
    Bits.Combine(Bits.Or, x, y, 8)
  }

  function NotByte(x: byte): byte {
    ByteBound();
    Bits.Combine(Bits.Not, x, 0, 8)
  }

  lemma ByteBound()
    ensures Bits.Pow2(8) == 256
  {
    assert Bits.Pow2(4) == 16;
  }

  lemma BitOfXor(x: byte, y: byte, j: nat)
    requires j < 8
    ensures BitOf(XorByte(x, y), j) == (BitOf(x, j) != BitOf(y, j))
  {
    Bits.CombineBit(Bits.Xor, x, y, 8, 7 - j);
  }

  /** 1 << 7 shifted right j times. */
  function Mask(j: nat): nat {
    if j < 8 then Bits.Pow2(7 - j) else 0
  }

  /** Bit k of a string of bytes, the most significant bit of the first byte first. */
  predicate Bit(h: seq<byte>, k: nat)
    requires k < 8 * |h|
  {
    BitOf(h[k / 8], k % 8)
  }

  function PrefixFrom(a: Hash, b: Hash, k: nat): (p: nat)
    requires k <= HASH_BITS
    ensures p <= HASH_BITS
    decreases HASH_BITS - k
  {
    if k == HASH_BITS || Bit(a, k) != Bit(b, k) then k else PrefixFrom(a, b, k + 1)
  }

  /** The number of leading bits on which a and b agree. */
  function SharedPrefix(a: Hash, b: Hash): (p: nat)
    ensures p <= HASH_BITS
  {
    PrefixFrom(a, b, 0)
  }

  lemma {:induction false} PrefixFromMeaning(a: Hash, b: Hash, k: nat)
    requires k <= HASH_BITS
    ensures var p := PrefixFrom(a, b, k);
      && k <= p
      && (forall i :: k <= i < p ==> Bit(a, i) == Bit(b, i))
      && (p < HASH_BITS ==> Bit(a, p) != Bit(b, p))
    decreases HASH_BITS - k
  {
    if k < HASH_BITS && Bit(a, k) == Bit(b, k) {
      PrefixFromMeaning(a, b, k + 1);
    }
  }

  /** SharedPrefix counts the agreeing leading bits: the bit after them, if there is one, differs. */
  lemma SharedPrefixMeaning(a: Hash, b: Hash)
    ensures var p := SharedPrefix(a, b);
      && (forall i :: 0 <= i < p ==> Bit(a, i) == Bit(b, i))
      && (p < HASH_BITS ==> Bit(a, p) != Bit(b, p))
  {
    PrefixFromMeaning(a, b, 0);
  }

  /** SharedPrefix is the only number with that property. */
  lemma SharedPrefixUnique(a: Hash, b: Hash, p: nat)
    requires p <= HASH_BITS
    requires forall i :: 0 <= i < p ==> Bit(a, i) == Bit(b, i)
    requires p < HASH_BITS ==> Bit(a, p) != Bit(b, p)
    ensures SharedPrefix(a, b) == p
  {
    SharedPrefixMeaning(a, b);
  }

  lemma EightBits(x: byte, y: byte)
    requires forall j :: 0 <= j < 8 ==> BitOf(x, j) == BitOf(y, j)
    ensures x == y
  {
    ByteBound();
    forall k | 0 <= k < 8 ensures Bits.LowBit(x, k) == Bits.LowBit(y, k) {
      assert BitOf(x, 7 - k) == BitOf(y, 7 - k);
    }
    Bits.SameBits(x, y, 8);
  }

  /** Agreeing on all 160 bits is being the same id. */
  lemma FullPrefixIsEqual(a: Hash, b: Hash)
    ensures SharedPrefix(a, b) == HASH_BITS <==> a == b
  {
    SharedPrefixMeaning(a, b);
    if SharedPrefix(a, b) == HASH_BITS {
      forall i | 0 <= i < HASH_BYTES ensures a[i] == b[i] {
        forall j | 0 <= j < 8 ensures BitOf(a[i], j) == BitOf(b[i], j) {
          assert Bit(a, 8 * i + j) == Bit(b, 8 * i + j);
        }
        EightBits(a[i], b[i]);
      }
    }
  }

  lemma SharedPrefixSymmetric(a: Hash, b: Hash)
    ensures SharedPrefix(a, b) == SharedPrefix(b, a)
  {
    SharedPrefixMeaning(b, a);
    SharedPrefixUnique(a, b, SharedPrefix(b, a));
  }

  /** Two ids that share bits with a third share the fewer of them with each other. */
  lemma SharedPrefixUltrametric(a: Hash, b: Hash, c: Hash)
    ensures SharedPrefix(a, c) >= if SharedPrefix(a, b) < SharedPrefix(b, c) then SharedPrefix(a, b)
      else SharedPrefix(b, c)
  {
    SharedPrefixMeaning(a, b);
    SharedPrefixMeaning(b, c);
    SharedPrefixMeaning(a, c);
    var p := SharedPrefix(a, c);
    assert p < SharedPrefix(a, b) ==> Bit(a, p) == Bit(b, p);
    assert p < SharedPrefix(b, c) ==> Bit(b, p) == Bit(c, p);
  }

  /** The inner loop of Hash_SharedPrefix: a mask walks down the first byte that differs. */
  method BitScan(x: byte, y: byte) returns (j: nat)
    requires x != y
    ensures j < 8 && BitOf(x, j) != BitOf(y, j) && forall i :: 0 <= i < j ==> BitOf(x, i) == BitOf(y, i)
  {
    ByteBound();
    var mask, xor := 128, XorByte(x, y);
    assert Bits.Pow2(7) == 128;
    j := 0;
    while mask != 0
      invariant 0 <= j <= 8 && mask == Mask(j) <= 128
      invariant forall i :: 0 <= i < j ==> BitOf(x, i) == BitOf(y, i)
      decreases 8 - j
    {
      BitOfXor(x, y, j);
      Bits.AndOneBit(7 - j, xor, 8);
      if AndByte(mask, xor) != 0 {
        return;
      }
      j := j + 1;
      mask := mask / 2;
    }
    EightBits(x, y);
    assert false;
  }

  /** Hash_SharedPrefix: whole bytes first, then a mask walking down the first differing byte. */
  method HashSharedPrefix(a: Hash, b: Hash) returns (bi: nat)
    ensures bi == SharedPrefix(a, b)
  {
    var hi := 0;
    while hi < HASH_BYTES
      invariant 0 <= hi <= HASH_BYTES
      invariant a[..hi] == b[..hi]
    {
      if a[hi] != b[hi] {
        break;
      }
      hi := hi + 1;
    }
    bi := hi * 8;
    forall i | 0 <= i < hi * 8 ensures Bit(a, i) == Bit(b, i) {
      assert a[i / 8] == a[..hi][i / 8] == b[..hi][i / 8] == b[i / 8];
    }
    if hi < HASH_BYTES {
      var j := BitScan(a[hi], b[hi]);
      bi := bi + j;
      forall i | 0 <= i < bi ensures Bit(a, i) == Bit(b, i) {
        if i >= hi * 8 {
          assert i / 8 == hi && i % 8 == i - hi * 8;
        }
      }
    }
    SharedPrefixUnique(a, b, bi);
  }

  // ---- XOR distance

  function Xor(a: Hash, b: Hash): (d: Hash) {
    seq(HASH_BYTES, i requires 0 <= i < HASH_BYTES => XorByte(a[i], b[i]))
  }

  /** Hash_Distance */
  method HashDistance(a: Hash, b: Hash) returns (d: Hash)
    ensures d == Xor(a, b)
  {
    var buf := new byte[HASH_BYTES](_ => 0);
    for i := 0 to HASH_BYTES
      invariant forall k :: 0 <= k < i ==> buf[k] == XorByte(a[k], b[k])
    {
      buf[i] := XorByte(a[i], b[i]);
    }
    d := buf[..];
  }

  /** Distance_Compare */
  function CompareDistance(a: Hash, b: Hash): (c: int)
    ensures c == 0 <==> a == b
  {
    MemCmpZero(a, b);
    MemCmp(a, b)
  }

  /** Whether a is strictly closer to target than b is. */
  predicate Closer(target: Hash, a: Hash, b: Hash) {
    CompareDistance(Xor(target, a), Xor(target, b)) < 0
  }

  lemma XorBit(a: Hash, b: Hash, k: nat)
    requires k < HASH_BITS
    ensures Bit(Xor(a, b), k) == (Bit(a, k) != Bit(b, k))
  {
    BitOfXor(a[k / 8], b[k / 8], k % 8);
  }

  /** The first differing bit of two bytes decides their order. */
  lemma ByteOrderByFirstBit(x: byte, y: byte, j: nat)
    requires j < 8
    requires forall i :: 0 <= i < j ==> BitOf(x, i) == BitOf(y, i)
    requires !BitOf(x, j) && BitOf(y, j)
    ensures x < y
  {
    ByteBound();
    forall k | 7 - j < k < 8 ensures Bits.LowBit(x, k) == Bits.LowBit(y, k) {
      assert BitOf(x, 7 - k) == BitOf(y, 7 - k);
    }
    Bits.OrderByTopBit(x, y, 8, 7 - j);
  }

  /** memcmp on ids is the order of their first differing bit. */
  lemma OrderByFirstBit(x: Hash, y: Hash, p: nat)
    requires p < HASH_BITS
    requires forall i :: 0 <= i < p ==> Bit(x, i) == Bit(y, i)
    requires !Bit(x, p) && Bit(y, p)
    ensures CompareDistance(x, y) < 0
  {
    var k := p / 8;
    forall i | 0 <= i < k ensures x[..k][i] == y[..k][i] {
      forall j | 0 <= j < 8 ensures BitOf(x[i], j) == BitOf(y[i], j) {
        assert Bit(x, 8 * i + j) == Bit(y, 8 * i + j);
      }
      EightBits(x[i], y[i]);
    }
    forall j | 0 <= j < p % 8 ensures BitOf(x[k], j) == BitOf(y[k], j) {
      assert Bit(x, 8 * k + j) == Bit(y, 8 * k + j);
    }
    ByteOrderByFirstBit(x[k], y[k], p % 8);
    MemCmpFirstDifference(x, y, k);
  }

  /** Sharing a longer prefix with an id means being strictly closer to it. */
  lemma LongerPrefixIsCloser(id: Hash, a: Hash, b: Hash)
    requires SharedPrefix(id, a) > SharedPrefix(id, b)
    ensures Closer(id, a, b)
  {
    SharedPrefixMeaning(id, a);
    SharedPrefixMeaning(id, b);
    var p := SharedPrefix(id, b);
    forall i | 0 <= i < p ensures Bit(Xor(id, a), i) == Bit(Xor(id, b), i) {
      XorBit(id, a, i);
      XorBit(id, b, i);
    }
    XorBit(id, a, p);
    XorBit(id, b, p);
    OrderByFirstBit(Xor(id, a), Xor(id, b), p);
  }

  /** Distance to a fixed target tells ids apart. */
  lemma XorInjective(t: Hash, a: Hash, b: Hash)
    ensures Xor(t, a) == Xor(t, b) <==> a == b
  {
    if Xor(t, a) == Xor(t, b) {
      forall i | 0 <= i < HASH_BYTES ensures a[i] == b[i] {
        assert Xor(t, a)[i] == Xor(t, b)[i];
        forall j | 0 <= j < 8 ensures BitOf(a[i], j) == BitOf(b[i], j) {
          BitOfXor(t[i], a[i], j);
          BitOfXor(t[i], b[i], j);
        }
        EightBits(a[i], b[i]);
      }
    }
  }

  // ---- At most eight ids agree on the first 157 bits

  /** The value of the last three bits of an id. */
  function LastBits(h: Hash): (v: nat)
    ensures v < 8
  {
    4 * Bits.BitVal(Bit(h, 157)) + 2 * Bits.BitVal(Bit(h, 158)) + Bits.BitVal(Bit(h, 159))
  }

  lemma LastBitsInjective(id: Hash, a: Hash, b: Hash)
    requires SharedPrefix(id, a) >= 157 && SharedPrefix(id, b) >= 157
    requires LastBits(a) == LastBits(b)
    ensures a == b
  {
    var p := SharedPrefix(a, b);
    SharedPrefixMeaning(a, b);
    SharedPrefixSymmetric(id, a);
    SharedPrefixUltrametric(a, id, b);
    FullPrefixIsEqual(a, b);
    assert p == 157 || p == 158 || p == 159 || p == 160;
  }

  /** At most one id for each value of the last three bits. */
  lemma {:induction false} AtMostOneEach(s: set<Hash>, id: Hash, n: nat)
    requires forall h :: h in s ==> SharedPrefix(id, h) >= 157 && LastBits(h) < n
    ensures |s| <= n
  {
    if x :| x in s && LastBits(x) == n - 1 {
      forall y | y in s - {x} ensures LastBits(y) < n - 1 {
        if LastBits(y) == n - 1 {
          LastBitsInjective(id, x, y);
        }
      }
      AtMostOneEach(s - {x}, id, n - 1);
    } else if n > 0 {
      AtMostOneEach(s, id, n - 1);
    } else {
      assert s == {};
    }
  }

  /** The pigeonhole behind BUCKET_LAST_BITS: 2^3 ids at most share 157 bits with an id. */
  lemma AtMostEightShare157(s: set<Hash>, id: Hash)
    requires forall h :: h in s ==> SharedPrefix(id, h) >= 157
    ensures |s| <= 8
  {
    AtMostOneEach(s, id, 8);
  }

  // ---- In-place operations

  /** Hash_Prefix: give hash the first prefixLen bits of prefix and leave its other bits alone. */
  method HashPrefix(hash: array<byte>, prefix: Hash, prefixLen: nat) returns (rc: int)
    requires hash.Length == HASH_BYTES
    modifies hash
    ensures rc == if prefixLen <= HASH_BITS then 0 else -1
    ensures rc == 0 ==> forall k :: 0 <= k < HASH_BITS ==>
      Bit(hash[..], k) == if k < prefixLen then Bit(prefix, k) else Bit(old(hash[..]), k)
    ensures rc == -1 ==> hash[..] == old(hash[..])
  {
    if prefixLen > HASH_BITS {
      return -1;
    }
    var i, left := 0, prefixLen;
    while left >= 8
      invariant 0 <= i <= HASH_BYTES && prefixLen == 8 * i + left
      invariant forall k :: 0 <= k < i ==> hash[k] == prefix[k]
      invariant forall k :: i <= k < HASH_BYTES ==> hash[k] == old(hash[k])
    {
      hash[i] := prefix[i];
      left := left - 8;
      i := i + 1;
    }
    if i < HASH_BYTES {
      var mask := HighBits(left);
      hash[i] := AndByte(hash[i], NotByte(mask));
      hash[i] := OrByte(hash[i], AndByte(mask, prefix[i]));
    }
    MergedPrefix(old(hash[..]), prefix, hash[..], i, left);
    return 0;
  }

  lemma MergedPrefix(before: Hash, prefix: Hash, after: Hash, i: nat, left: nat)
    requires left < 8 && 8 * i + left <= HASH_BITS
    requires forall k :: 0 <= k < i ==> after[k] == prefix[k]
    requires forall k :: i < k < HASH_BYTES ==> after[k] == before[k]
    requires i < HASH_BYTES ==> after[i] == Merge(before[i], prefix[i], HighBits(left))
    ensures forall k :: 0 <= k < HASH_BITS ==>
      Bit(after, k) == if k < 8 * i + left then Bit(prefix, k) else Bit(before, k)
  {
    forall k | 0 <= k < HASH_BITS
      ensures Bit(after, k) == if k < 8 * i + left then Bit(prefix, k) else Bit(before, k)
    {
      if k / 8 == i {
        MergeBits(before[i], prefix[i], left, k % 8);
      }
    }
  }

  /** ((char)~0) << (8 - n) for n < 8, truncated to a byte. */
  function HighBits(n: nat): byte
    requires n < 8
  {
    if n == 0 then 0 else if n == 1 then 128 else if n == 2 then 192 else if n == 3 then 224
    else if n == 4 then 240 else if n == 5 then 248 else if n == 6 then 252 else 254
  }

  /** x &= ~mask; x |= mask & y; */
  function Merge(x: byte, y: byte, mask: byte): byte {
    OrByte(AndByte(x, NotByte(mask)), AndByte(mask, y))
  }

  lemma HighBitsBit(n: nat, j: nat)
    requires n < 8 && j < 8
    ensures BitOf(HighBits(n), j) == (j < n)
  {
    assert Bits.Pow2(1) == 2 && Bits.Pow2(2) == 4 && Bits.Pow2(3) == 8 && Bits.Pow2(4) == 16;
    assert Bits.Pow2(5) == 32 && Bits.Pow2(6) == 64 && Bits.Pow2(7) == 128 && Bits.Pow2(8) == 256;
    assert HighBits(n) == Bits.Pow2(8 - n) * (Bits.Pow2(n) - 1);
    Bits.ShiftedBits(Bits.Pow2(n) - 1, 8 - n, 7 - j);
    if 7 - j >= 8 - n {
      Bits.AllOnes(n, 7 - j - (8 - n));
    }
  }

  lemma MergedBit(x: byte, y: byte, mask: byte, j: nat)
    requires j < 8
    ensures BitOf(Merge(x, y, mask), j) == if BitOf(mask, j) then BitOf(y, j) else BitOf(x, j)
  {
    var k := 7 - j;
    Bits.CombineBit(Bits.Not, mask, 0, 8, k);
    Bits.CombineBit(Bits.And, x, NotByte(mask), 8, k);
    Bits.CombineBit(Bits.And, mask, y, 8, k);
    Bits.CombineBit(Bits.Or, AndByte(x, NotByte(mask)), AndByte(mask, y), 8, k);
  }

  lemma MergeBits(x: byte, y: byte, n: nat, j: nat)
    requires n < 8 && j < 8
    ensures BitOf(Merge(x, y, HighBits(n)), j) == if j < n then BitOf(y, j) else BitOf(x, j)
  {
    HighBitsBit(n, j);
    MergedBit(x, y, HighBits(n), j);
  }

  /** Hash_Invert: every bit flips. */
  method HashInvert(hash: array<byte>)
    requires hash.Length == HASH_BYTES
    modifies hash
    ensures forall k :: 0 <= k < HASH_BITS ==> Bit(hash[..], k) == !Bit(old(hash[..]), k)
  {
    for i := 0 to HASH_BYTES
      invariant forall k :: 0 <= k < i ==> hash[k] == NotByte(old(hash[k]))
      invariant forall k :: i <= k < HASH_BYTES ==> hash[k] == old(hash[k])
    {
      hash[i] := NotByte(hash[i]);
    }
    forall k | 0 <= k < HASH_BITS ensures Bit(hash[..], k) == !Bit(old(hash[..]), k) {
      assert hash[..][k / 8] == NotByte(old(hash[k / 8]));
      Bits.CombineBit(Bits.Not, old(hash[k / 8]), 0, 8, 7 - k % 8);
    }
  }
}
