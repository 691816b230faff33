/** Numbers as rows of bits, and byte strings as rows of bits, most significant bit of a byte first. */
module Bits {
  import opened Data

  type bit = n: int | 0 <= n < 2

  // ---------------------------------------------------------------------------------------------
  // Bits of a number, least significant first
  // ---------------------------------------------------------------------------------------------

  /** n >> k */
  function Shr(n: nat, k: nat): nat
    decreases k, n
  {
    if k == 0 then n else Shr(n / 2, k - 1)
  }

  /** n << k */
  function Shl(n: nat, k: nat): nat
    decreases k, n
  {
    if k == 0 then n else 2 * Shl(n, k - 1)
  }

  /** (n >> j) & 1 */
  function BitAt(n: nat, j: nat): bit
    decreases j, n
  {
    if j == 0 then n % 2 else BitAt(n / 2, j - 1)
  }

  /** n with bit j set to v: n | (1 << j), or n & !(1 << j). */
  function SetAt(n: nat, j: nat, v: bit): nat
    decreases j, n
  {
    if j == 0 then n - n % 2 + v else 2 * SetAt(n / 2, j - 1, v) + n % 2
  }

  /** The low m bits of n. */
  function Low(n: nat, m: nat): nat
    decreases m, n
  {
    if m == 0 then 0 else 2 * Low(n / 2, m - 1) + n % 2
  }

  /** The m-bit number whose bit j is op of the bits j of x and y. */
  function Combine(op: (bit, bit) -> bit, x: nat, y: nat, m: nat): nat
    decreases m, x, y
  {
    if m == 0 then 0 else 2 * Combine(op, x / 2, y / 2, m - 1) + op(x % 2, y % 2)
  }

  lemma {:induction false} BitOfShr(n: nat, k: nat, j: nat)
    ensures BitAt(Shr(n, k), j) == BitAt(n, j + k)
    decreases k
  {
    if k > 0 {
      BitOfShr(n / 2, k - 1, j);
    }
  }

  lemma {:induction false} BitOfShl(n: nat, k: nat, j: nat)
    ensures BitAt(Shl(n, k), j) == if j < k then 0 else BitAt(n, j - k)
    decreases k
  {
    if k > 0 {
      if j > 0 {
        BitOfShl(n, k - 1, j - 1);
      }
    }
  }

  lemma {:induction false} BitOfSetAt(n: nat, j: nat, v: bit, i: nat)
    ensures BitAt(SetAt(n, j, v), i) == if i == j then v else BitAt(n, i)
    decreases j
  {
    if j > 0 && i > 0 {
      BitOfSetAt(n / 2, j - 1, v, i - 1);
    }
  }

  lemma {:induction false} SetAtBelow(n: nat, j: nat, v: bit, m: nat)
    requires n < Pow2(m) && j < m
    ensures SetAt(n, j, v) < Pow2(m)
    decreases j
  {
    if j > 0 {
      SetAtBelow(n / 2, j - 1, v, m - 1);
    }
  }

  lemma {:induction false} BitOfLow(n: nat, m: nat, j: nat)
    ensures BitAt(Low(n, m), j) == if j < m then BitAt(n, j) else 0
    decreases m, j
  {
    if m == 0 {
      BitOfZero(j);
    } else {
      Halves(Low(n / 2, m - 1), n % 2);
      if j > 0 {
        BitOfLow(n / 2, m - 1, j - 1);
      }
    }
  }

  lemma Halves(h: nat, b: bit)
    ensures (2 * h + b) / 2 == h && (2 * h + b) % 2 == b
  {
  }

  lemma {:induction false} BitOfZero(j: nat)
    ensures BitAt(0, j) == 0
  {
    if j > 0 {
      BitOfZero(j - 1);
    }
  }

  lemma {:induction false} BitOfCombine(op: (bit, bit) -> bit, x: nat, y: nat, m: nat, j: nat)
    requires j < m
    ensures BitAt(Combine(op, x, y, m), j) == op(BitAt(x, j), BitAt(y, j))
    decreases m
  {
    if j > 0 {
      BitOfCombine(op, x / 2, y / 2, m - 1, j - 1);
    }
  }

  lemma {:induction false} CombineBelow(op: (bit, bit) -> bit, x: nat, y: nat, m: nat)
    ensures Combine(op, x, y, m) < Pow2(m)
    decreases m
  {
    if m > 0 {
      CombineBelow(op, x / 2, y / 2, m - 1);
    }
  }

  lemma {:induction false} LowBelow(n: nat, m: nat)
    ensures Low(n, m) < Pow2(m)
    decreases m
  {
    if m > 0 {
      LowBelow(n / 2, m - 1);
    }
  }

  /** All m bits of 2^m - 1 are set. */
  lemma {:induction false} BitOfOnes(m: nat, j: nat)
    ensures BitAt(Pow2(m) - 1, j) == if j < m then 1 else 0
    decreases m, j
  {
    if m == 0 {
      BitOfZero(j);
    } else if j > 0 {
      BitOfOnes(m - 1, j - 1);
    }
  }

  /** Two m-bit numbers with the same bits are equal. */
  lemma {:induction false} SameBits(x: nat, y: nat, m: nat)
    requires x < Pow2(m) && y < Pow2(m)
    requires forall j :: 0 <= j < m ==> BitAt(x, j) == BitAt(y, j)
    ensures x == y
    decreases m
  {
    if m > 0 {
      forall j | 0 <= j < m - 1 ensures BitAt(x / 2, j) == BitAt(y / 2, j) {
        assert BitAt(x, j + 1) == BitAt(y, j + 1);
      }
      SameBits(x / 2, y / 2, m - 1);
      assert BitAt(x, 0) == BitAt(y, 0);
    }
  }

  /** The low m bits are the remainder modulo 2^m. */
  lemma {:induction false} LowIsRemainder(n: nat, m: nat)
    ensures Low(n, m) == n % Pow2(m)
    decreases m
  {
    if m > 0 {
      LowIsRemainder(n / 2, m - 1);
      RemainderByDouble(n, Pow2(m - 1));
    }
  }

  lemma RemainderByDouble(n: nat, p: nat)
    requires p > 0
    ensures n % (2 * p) == 2 * ((n / 2) % p) + n % 2
  {
    var q, r := (n / 2) / p, (n / 2) % p;
    assert n == 2 * (q * p + r) + n % 2;
    assert 2 * (q * p) == q * (2 * p);
    RemainderIs(n, 2 * p, q, 2 * r + n % 2);
  }

  /** Shifting right by m is dividing by 2^m. */
  lemma {:induction false} ShrIsQuotient(n: nat, m: nat)
    ensures Shr(n, m) == n / Pow2(m)
    decreases m
  {
    if m > 0 {
      ShrIsQuotient(n / 2, m - 1);
      QuotientByDouble(n, Pow2(m - 1));
    }
  }

  lemma QuotientByDouble(n: nat, p: nat)
    requires p > 0
    ensures n / (2 * p) == (n / 2) / p
  {
    var q, r := (n / 2) / p, (n / 2) % p;
    assert n == 2 * (q * p + r) + n % 2;
    assert 2 * (q * p) == q * (2 * p);
    QuotientIs(n, 2 * p, q, 2 * r + n % 2);
  }

  lemma QuotientIs(n: int, d: nat, q: int, r: int)
    requires d > 0 && n == q * d + r && 0 <= r < d
    ensures n / d == q
  {
    RemainderIs(n, d, q, r);
    var q' := n / d;
    assert n == q' * d + r;
    assert (q - q') * d == 0;
    if q != q' {
      MultipleIsFar(q - q', d);
    }
  }

  lemma RemainderIs(n: int, d: nat, q: int, r: int)
    requires d > 0 && n == q * d + r && 0 <= r < d
    ensures n % d == r
  {
    var q', r' := n / d, n % d;
    assert n == q' * d + r';
    assert (q - q') * d == r' - r;
    if q != q' {
      MultipleIsFar(q - q', d);
    }
  }

  lemma MultipleIsFar(k: int, d: int)
    requires k != 0 && d > 0
    ensures k * d >= d || k * d <= 0 - d
  {
    if k > 0 {
      MultipleIsAtLeast(k, d);
    } else {
      MultipleIsAtLeast(0 - k, d);
      assert (0 - k) * d == 0 - k * d;
    }
  }

  lemma {:induction false} MultipleIsAtLeast(k: int, d: int)
    requires k > 0 && d > 0
    ensures k * d >= d
    decreases k
  {
    if k > 1 {
      MultipleIsAtLeast(k - 1, d);
      assert k * d == (k - 1) * d + d;
    }
  }

  // ---------------------------------------------------------------------------------------------
  // Bits of a byte string
  // ---------------------------------------------------------------------------------------------

  /** Bit k of a byte, the most significant being bit 0. */
  function Bit(b: byte, k: nat): bit
    requires k < 8
  {
    BitAt(b, 7 - k)
  }

  /** GETBIT: positions past the end read 0. */
  function GetBit(buf: Bytes, pos: nat): bit {
    if pos / 8 < |buf| then Bit(buf[pos / 8], pos % 8) else 0
  }

  lemma BytePower()
    ensures Pow2(8) == 0x100
  {
  }

  lemma SameByte(x: byte, y: byte)
    requires forall k :: 0 <= k < 8 ==> Bit(x, k) == Bit(y, k)
    ensures x == y
  {
    BytePower();
    forall j | 0 <= j < 8 ensures BitAt(x, j) == BitAt(y, j) {
      assert Bit(x, 7 - j) == Bit(y, 7 - j);
    }
    SameBits(x, y, 8);
  }

  /** Byte strings of one length with the same bits are equal. */
  lemma SameBuffer(x: Bytes, y: Bytes)
    requires |x| == |y|
    requires forall pos :: 0 <= pos < 8 * |x| ==> GetBit(x, pos) == GetBit(y, pos)
    ensures x == y
  {
    forall i | 0 <= i < |x| ensures x[i] == y[i] {
      forall k | 0 <= k < 8 ensures Bit(x[i], k) == Bit(y[i], k) {
        assert GetBit(x, 8 * i + k) == GetBit(y, 8 * i + k);
      }
      SameByte(x[i], y[i]);
    }
  }

  /** The buffer with one bit set; the position must lie inside it. */
  function WithBit(buf: Bytes, pos: nat, v: bit): (r: Bytes)
    requires pos / 8 < |buf|
    ensures |r| == |buf|
  {
    BytePower();
    SetAtBelow(buf[pos / 8], 7 - pos % 8, v, 8);
    buf[pos / 8 := SetAt(buf[pos / 8], 7 - pos % 8, v)]
  }

  lemma GetWithBit(buf: Bytes, pos: nat, v: bit, p: nat)
    requires pos / 8 < |buf|
    ensures GetBit(WithBit(buf, pos, v), p) == if p == pos then v else GetBit(buf, p)
  {
    if p / 8 == pos / 8 {
      BitOfSetAt(buf[pos / 8], 7 - pos % 8, v, 7 - p % 8);
    }
  }
}
