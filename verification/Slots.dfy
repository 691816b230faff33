/** Hash slots: a table-driven CRC-16, a bit-by-bit CRC-16, and the hash-tag rule. */
module Slots {
  import opened Data

  type u16 = n: int | 0 <= n < 0x1_0000

  /** The CRC-16/XMODEM polynomial without its leading term. */
  const POLY: u16 := 0x1021
  const NUM_SLOTS := 16384
  const OPEN_BRACE: byte := 0x7B
  const CLOSE_BRACE: byte := 0x7D

  /** The 256 table entries, sixteen to a row. */
  const CRC16_ROWS: seq<seq<u16>> := [
    [0x0000, 0x1021, 0x2042, 0x3063, 0x4084, 0x50a5, 0x60c6, 0x70e7,
     0x8108, 0x9129, 0xa14a, 0xb16b, 0xc18c, 0xd1ad, 0xe1ce, 0xf1ef],
    [0x1231, 0x0210, 0x3273, 0x2252, 0x52b5, 0x4294, 0x72f7, 0x62d6,
     0x9339, 0x8318, 0xb37b, 0xa35a, 0xd3bd, 0xc39c, 0xf3ff, 0xe3de],
    [0x2462, 0x3443, 0x0420, 0x1401, 0x64e6, 0x74c7, 0x44a4, 0x5485,
     0xa56a, 0xb54b, 0x8528, 0x9509, 0xe5ee, 0xf5cf, 0xc5ac, 0xd58d],
    [0x3653, 0x2672, 0x1611, 0x0630, 0x76d7, 0x66f6, 0x5695, 0x46b4,
     0xb75b, 0xa77a, 0x9719, 0x8738, 0xf7df, 0xe7fe, 0xd79d, 0xc7bc],
    [0x48c4, 0x58e5, 0x6886, 0x78a7, 0x0840, 0x1861, 0x2802, 0x3823,
     0xc9cc, 0xd9ed, 0xe98e, 0xf9af, 0x8948, 0x9969, 0xa90a, 0xb92b],
    [0x5af5, 0x4ad4, 0x7ab7, 0x6a96, 0x1a71, 0x0a50, 0x3a33, 0x2a12,
     0xdbfd, 0xcbdc, 0xfbbf, 0xeb9e, 0x9b79, 0x8b58, 0xbb3b, 0xab1a],
    [0x6ca6, 0x7c87, 0x4ce4, 0x5cc5, 0x2c22, 0x3c03, 0x0c60, 0x1c41,
     0xedae, 0xfd8f, 0xcdec, 0xddcd, 0xad2a, 0xbd0b, 0x8d68, 0x9d49],
    [0x7e97, 0x6eb6, 0x5ed5, 0x4ef4, 0x3e13, 0x2e32, 0x1e51, 0x0e70,
     0xff9f, 0xefbe, 0xdfdd, 0xcffc, 0xbf1b, 0xaf3a, 0x9f59, 0x8f78],
    [0x9188, 0x81a9, 0xb1ca, 0xa1eb, 0xd10c, 0xc12d, 0xf14e, 0xe16f,
     0x1080, 0x00a1, 0x30c2, 0x20e3, 0x5004, 0x4025, 0x7046, 0x6067],
    [0x83b9, 0x9398, 0xa3fb, 0xb3da, 0xc33d, 0xd31c, 0xe37f, 0xf35e,
     0x02b1, 0x1290, 0x22f3, 0x32d2, 0x4235, 0x5214, 0x6277, 0x7256],
    [0xb5ea, 0xa5cb, 0x95a8, 0x8589, 0xf56e, 0xe54f, 0xd52c, 0xc50d,
     0x34e2, 0x24c3, 0x14a0, 0x0481, 0x7466, 0x6447, 0x5424, 0x4405],
    [0xa7db, 0xb7fa, 0x8799, 0x97b8, 0xe75f, 0xf77e, 0xc71d, 0xd73c,
     0x26d3, 0x36f2, 0x0691, 0x16b0, 0x6657, 0x7676, 0x4615, 0x5634],
    [0xd94c, 0xc96d, 0xf90e, 0xe92f, 0x99c8, 0x89e9, 0xb98a, 0xa9ab,
     0x5844, 0x4865, 0x7806, 0x6827, 0x18c0, 0x08e1, 0x3882, 0x28a3],
    [0xcb7d, 0xdb5c, 0xeb3f, 0xfb1e, 0x8bf9, 0x9bd8, 0xabbb, 0xbb9a,
     0x4a75, 0x5a54, 0x6a37, 0x7a16, 0x0af1, 0x1ad0, 0x2ab3, 0x3a92],
    [0xfd2e, 0xed0f, 0xdd6c, 0xcd4d, 0xbdaa, 0xad8b, 0x9de8, 0x8dc9,
     0x7c26, 0x6c07, 0x5c64, 0x4c45, 0x3ca2, 0x2c83, 0x1ce0, 0x0cc1],
    [0xef1f, 0xff3e, 0xcf5d, 0xdf7c, 0xaf9b, 0xbfba, 0x8fd9, 0x9ff8,
     0x6e17, 0x7e36, 0x4e55, 0x5e74, 0x2e93, 0x3eb2, 0x0ed1, 0x1ef0]
  ]

  // ---------------------------------------------------------------------------------------------
  // Exclusive or on naturals
  // ---------------------------------------------------------------------------------------------

  function Xor(x: nat, y: nat): nat {
    if x == 0 && y == 0 then 0 else 2 * Xor(x / 2, y / 2) + (if x % 2 == y % 2 then 0 else 1)
  }

  /** h << k. */
  function Scale(h: nat, k: nat): nat
    decreases k
  {
    if k == 0 then h else 2 * Scale(h, k - 1)
  }

  lemma XorHalves(x: nat, y: nat)
    ensures Xor(x, y) / 2 == Xor(x / 2, y / 2)
    ensures Xor(x, y) % 2 == if x % 2 == y % 2 then 0 else 1
  {
  }

  lemma FromHalves(x: nat, y: nat)
    requires x / 2 == y / 2 && x % 2 == y % 2
    ensures x == y
  {
  }

  /** h followed by the k low bits of l. */
  function Join(h: nat, l: nat, k: nat): nat
    decreases k
  {
    if k == 0 then h else 2 * Join(h, l / 2, k - 1) + l % 2
  }

  lemma {:induction false} JoinValue(h: nat, l: nat, k: nat)
    requires l < Scale(1, k)
    ensures Join(h, l, k) == Scale(h, k) + l
    decreases k
  {
    if k > 0 {
      JoinValue(h, l / 2, k - 1);
    }
  }

  lemma JoinHalves(h: nat, l: nat, k: nat)
    requires k > 0
    ensures Join(h, l, k) / 2 == Join(h, l / 2, k - 1) && Join(h, l, k) % 2 == l % 2
  {
  }

  lemma {:induction false} XorJoin(xh: nat, xl: nat, yh: nat, yl: nat, k: nat)
    ensures Xor(Join(xh, xl, k), Join(yh, yl, k)) == Join(Xor(xh, yh), Xor(xl, yl), k)
    decreases k
  {
    if k > 0 {
      var x, y := Join(xh, xl, k), Join(yh, yl, k);
      var r := Join(Xor(xh, yh), Xor(xl, yl), k);
      XorJoin(xh, xl / 2, yh, yl / 2, k - 1);
      JoinHalves(xh, xl, k);
      JoinHalves(yh, yl, k);
      JoinHalves(Xor(xh, yh), Xor(xl, yl), k);
      XorHalves(xl, yl);
      XorHalves(x, y);
      FromHalves(Xor(x, y), r);
    }
  }

  lemma {:induction false} XorBelow(x: nat, y: nat, k: nat)
    requires x < Scale(1, k) && y < Scale(1, k)
    ensures Xor(x, y) < Scale(1, k)
    decreases k
  {
    if k > 0 {
      XorBelow(x / 2, y / 2, k - 1);
      XorHalves(x, y);
    }
  }

  lemma Scales(h: nat)
    ensures Scale(h, 5) == 0x20 * h && Scale(h, 7) == 0x80 * h
    ensures Scale(h, 8) == 0x100 * h && Scale(h, 9) == 0x200 * h
    ensures Scale(h, 14) == 0x4000 * h && Scale(h, 15) == 0x8000 * h && Scale(h, 16) == 0x1_0000 * h
  {
  }

  lemma Scale5(h: nat)
    ensures Scale(h, 5) == 0x20 * h
  {
  }

  lemma Scale7(h: nat)
    ensures Scale(h, 7) == 0x80 * h
  {
  }

  lemma Scale8(h: nat)
    ensures Scale(h, 8) == 0x100 * h
  {
  }

  lemma Scale15(h: nat)
    ensures Scale(h, 15) == 0x8000 * h
  {
    assert Scale(h, 8) == 0x100 * h;
  }

  /** Low bits and high bits are combined separately. */
  lemma XorSplit(xh: nat, xl: nat, yh: nat, yl: nat, k: nat)
    requires xl < Scale(1, k) && yl < Scale(1, k)
    ensures Xor(Scale(xh, k) + xl, Scale(yh, k) + yl) == Scale(Xor(xh, yh), k) + Xor(xl, yl)
  {
    JoinValue(xh, xl, k);
    JoinValue(yh, yl, k);
    XorJoin(xh, xl, yh, yl, k);
    XorBelow(xl, yl, k);
    JoinValue(Xor(xh, yh), Xor(xl, yl), k);
  }

  lemma {:induction false} XorZero(x: nat)
    ensures Xor(x, 0) == x && Xor(0, x) == x && Xor(x, x) == 0
  {
    if x > 0 {
      XorZero(x / 2);
    }
  }

  lemma {:induction false} XorSwap(x: nat, y: nat, z: nat)
    ensures Xor(Xor(x, y), z) == Xor(Xor(x, z), y)
    decreases x + y + z
  {
    if x > 0 || y > 0 || z > 0 {
      XorSwap(x / 2, y / 2, z / 2);
      XorHalves(x, y);
      XorHalves(x, z);
      XorHalves(Xor(x, y), z);
      XorHalves(Xor(x, z), y);
      FromHalves(Xor(Xor(x, y), z), Xor(Xor(x, z), y));
    }
  }

  lemma {:induction false} XorAssociative(x: nat, y: nat, z: nat)
    ensures Xor(Xor(x, y), z) == Xor(x, Xor(y, z))
    decreases x + y + z
  {
    if x > 0 || y > 0 || z > 0 {
      XorAssociative(x / 2, y / 2, z / 2);
      XorHalves(x, y);
      XorHalves(y, z);
      XorHalves(Xor(x, y), z);
      XorHalves(x, Xor(y, z));
      FromHalves(Xor(Xor(x, y), z), Xor(x, Xor(y, z)));
    }
  }

  lemma {:induction false} XorTwice(x: nat, y: nat)
    ensures Xor(Xor(x, y), y) == x
    decreases x + y
  {
    if x > 0 || y > 0 {
      XorTwice(x / 2, y / 2);
      XorHalves(x, y);
      XorHalves(Xor(x, y), y);
      FromHalves(Xor(Xor(x, y), y), x);
    }
  }

  /** Exclusive or of two 16-bit words. */
  function Xor16(x: u16, y: u16): u16 {
    Scales(1);
    XorBelow(x, y, 16);
    Xor(x, y)
  }

  /** Exclusive or of two bytes. */
  function Xor8(x: byte, y: byte): byte {
    Scales(1);
    XorBelow(x, y, 8);
    Xor(x, y)
  }

  /** x << k on 16-bit words, for the two shifts the code makes. */
  function Shl1(x: u16): u16 {
    (2 * x) % 0x1_0000
  }

  function Shl8(x: u16): u16 {
    (0x100 * x) % 0x1_0000
  }

  // ---------------------------------------------------------------------------------------------
  // The two checksums as folds
  // ---------------------------------------------------------------------------------------------

  /** One turn of the inner bit loop. */
  function Shift(crc: u16): u16 {
    if crc >= 0x8000 then Xor16(Shl1(crc), POLY) else Shl1(crc)
  }

  function Shifts(crc: u16, n: nat): u16
    decreases n, crc
  {
    if n == 0 then crc else Shifts(Shift(crc), n - 1)
  }

  /** A byte placed in the high half of a word. */
  function High(b: byte): u16 {
    var n: int := b;
    0x100 * n
  }

  function BitStep(crc: u16, b: byte): u16 {
    Shifts(Xor16(crc, High(b)), 8)
  }

  /** A look-up table: 256 words, sixteen to a row. */
  ghost predicate IsTable(rows: seq<seq<u16>>) {
    |rows| == 16 && forall r :: 0 <= r < 16 ==> |rows[r]| == 16
  }

  function Lookup(rows: seq<seq<u16>>, i: byte): u16
    requires IsTable(rows)
  {
    rows[i / 16][i % 16]
  }

  function Entry(i: byte): u16 {
    Lookup(CRC16_ROWS, i)
  }

  function TableStep(rows: seq<seq<u16>>, crc: u16, b: byte): u16
    requires IsTable(rows)
  {
    Xor16(Lookup(rows, Xor8(crc / 0x100, b)), Shl8(crc))
  }

  /** The checksum as defined bit by bit. */
  function BitCrc(data: Bytes): u16 {
    if data == [] then 0 else BitStep(BitCrc(data[..|data| - 1]), data[|data| - 1])
  }

  function TableCrc(rows: seq<seq<u16>>, data: Bytes): u16
    requires IsTable(rows)
  {
    if data == [] then 0 else TableStep(rows, TableCrc(rows, data[..|data| - 1]), data[|data| - 1])
  }

  // ---------------------------------------------------------------------------------------------
  // The table
  // ---------------------------------------------------------------------------------------------

  /** Flipping the three bits of the polynomial, by arithmetic. */
  function Flip(x: u16, bit: nat): int
    requires bit > 0
  {
    if (x / bit) % 2 == 1 then 0 - bit else bit
  }

  lemma XorPoly(x: u16)
    ensures Xor16(x, POLY) == x + Flip(x, 1) + Flip(x, 0x20) + Flip(x, 0x1000)
  {
    // 0x1021 is 1 in each of the fields of 4, 7 and 5 bits
    var high, mid, low := x / 0x1000, (x / 0x20) % 0x80, x % 0x20;
    Fields(x);
    FieldsOfPoly(high, mid, low);
    FlipLowest(high);
    FlipLowest(mid);
    FlipLowest(low);
  }

  lemma Fields(x: nat)
    ensures var high, mid, low := x / 0x1000, (x / 0x20) % 0x80, x % 0x20;
            && x == (high * 0x80 + mid) * 0x20 + low
            && (x / 0x20) % 2 == mid % 2
            && x % 2 == low % 2
  {
    DivideTwice(x);
    SplitOff7(x / 0x20);
  }

  lemma DivideTwice(x: nat)
    ensures x / 0x20 / 0x80 == x / 0x1000
  {
  }

  lemma SplitOff7(y: nat)
    ensures y == (y / 0x80) * 0x80 + y % 0x80 && y % 2 == y % 0x80 % 2
  {
  }

  lemma FieldsOfPoly(high: nat, mid: nat, low: nat)
    requires mid < 0x80 && low < 0x20
    ensures Xor((high * 0x80 + mid) * 0x20 + low, POLY) == (Xor(high, 1) * 0x80 + Xor(mid, 1)) * 0x20 + Xor(low, 1)
  {
    FieldsOf(high * 0x80 + mid, low, Xor(high, 1) * 0x80 + Xor(mid, 1)) by {
      LowestField7(high, mid, 1);
    }
  }

  lemma FieldsOf(x: nat, low: nat, r: nat)
    requires low < 0x20 && Xor(x, 0x81) == r
    ensures Xor(x * 0x20 + low, POLY) == r * 0x20 + Xor(low, 1)
  {
    LowestField5(x, low, 0x81);
  }

  lemma LowestField7(x: nat, l: nat, y: nat)
    requires l < 0x80
    ensures Xor(x * 0x80 + l, y * 0x80 + 1) == Xor(x, y) * 0x80 + Xor(l, 1)
  {
    Scale7(1);
    Scale7(x);
    Scale7(y);
    Scale7(Xor(x, y));
    XorSplit(x, l, y, 1, 7);
  }

  lemma LowestField5(x: nat, l: nat, y: nat)
    requires l < 0x20
    ensures Xor(x * 0x20 + l, y * 0x20 + 1) == Xor(x, y) * 0x20 + Xor(l, 1)
  {
    Scale5(1);
    Scale5(x);
    Scale5(y);
    Scale5(Xor(x, y));
    XorSplit(x, l, y, 1, 5);
  }

  lemma FlipLowest(x: nat)
    ensures Xor(x, 1) == if x % 2 == 1 then x - 1 else x + 1
  {
    XorHalves(x, 1);
    XorZero(x / 2);
  }

  /** How each entry follows from the entry at half its index. */
  predicate FollowsHalf(i: byte) {
    Entry(i) == (if i % 2 == 0 then Shift(Entry(i / 2)) else Xor16(Shift(Entry(i / 2)), POLY))
  }

  /** The same by arithmetic, cheap to check entry by entry. */
  predicate FollowsHalfByFlips(i: byte) {
    var h := Entry(i / 2);
    var d := Shl1(h);
    var toggled := d + Flip(d, 1) + Flip(d, 0x20) + Flip(d, 0x1000);
    Entry(i) == if (h >= 0x8000) == (i % 2 == 0) then toggled else d
  }

  lemma FlipsSuffice(i: byte)
    requires FollowsHalfByFlips(i)
    ensures FollowsHalf(i)
  {
    var d := Shl1(Entry(i / 2));
    XorPoly(d);
    if i % 2 == 1 && Entry(i / 2) >= 0x8000 {
      XorTwice(d, POLY);
    }
  }

  lemma Row0Follows(i: byte)
    requires i < 0x10
    ensures FollowsHalfByFlips(i)
  {
  }

  lemma Row1Follows(i: byte)
    requires 0x10 <= i < 0x20
    ensures FollowsHalfByFlips(i)
  {
  }

  lemma Row2Follows(i: byte)
    requires 0x20 <= i < 0x30
    ensures FollowsHalfByFlips(i)
  {
  }

  lemma Row3Follows(i: byte)
    requires 0x30 <= i < 0x40
    ensures FollowsHalfByFlips(i)
  {
  }

  lemma Row4Follows(i: byte)
    requires 0x40 <= i < 0x50
    ensures FollowsHalfByFlips(i)
  {
  }

  lemma Row5Follows(i: byte)
    requires 0x50 <= i < 0x60
    ensures FollowsHalfByFlips(i)
  {
  }

  lemma Row6Follows(i: byte)
    requires 0x60 <= i < 0x70
    ensures FollowsHalfByFlips(i)
  {
  }

  lemma Row7Follows(i: byte)
    requires 0x70 <= i < 0x80
    ensures FollowsHalfByFlips(i)
  {
  }

  lemma Row8Follows(i: byte)
    requires 0x80 <= i < 0x90
    ensures FollowsHalfByFlips(i)
  {
  }

  lemma Row9Follows(i: byte)
    requires 0x90 <= i < 0xA0
    ensures FollowsHalfByFlips(i)
  {
  }

  lemma RowAFollows(i: byte)
    requires 0xA0 <= i < 0xB0
    ensures FollowsHalfByFlips(i)
  {
  }

  lemma RowBFollows(i: byte)
    requires 0xB0 <= i < 0xC0
    ensures FollowsHalfByFlips(i)
  {
  }

  lemma RowCFollows(i: byte)
    requires 0xC0 <= i < 0xD0
    ensures FollowsHalfByFlips(i)
  {
  }

  lemma RowDFollows(i: byte)
    requires 0xD0 <= i < 0xE0
    ensures FollowsHalfByFlips(i)
  {
  }

  lemma RowEFollows(i: byte)
    requires 0xE0 <= i < 0xF0
    ensures FollowsHalfByFlips(i)
  {
  }

  lemma RowFFollows(i: byte)
    requires 0xF0 <= i < 0x100
    ensures FollowsHalfByFlips(i)
  {
  }

  lemma EntryFollowsHalf(i: byte)
    ensures FollowsHalfByFlips(i)
  {
    if i < 0x10 {
      Row0Follows(i);
    } else if i < 0x20 {
      Row1Follows(i);
    } else if i < 0x30 {
      Row2Follows(i);
    } else if i < 0x40 {
      Row3Follows(i);
    } else if i < 0x50 {
      Row4Follows(i);
    } else if i < 0x60 {
      Row5Follows(i);
    } else if i < 0x70 {
      Row6Follows(i);
    } else if i < 0x80 {
      Row7Follows(i);
    } else if i < 0x90 {
      Row8Follows(i);
    } else if i < 0xA0 {
      Row9Follows(i);
    } else if i < 0xB0 {
      RowAFollows(i);
    } else if i < 0xC0 {
      RowBFollows(i);
    } else if i < 0xD0 {
      RowCFollows(i);
    } else if i < 0xE0 {
      RowDFollows(i);
    } else if i < 0xF0 {
      RowEFollows(i);
    } else {
      RowFFollows(i);
    }
  }

  lemma XorDouble(x: nat, y: nat)
    ensures Xor(2 * x, 2 * y) == 2 * Xor(x, y)
  {
    XorHalves(2 * x, 2 * y);
  }

  lemma Shl1Wraps(c: u16)
    ensures Shl1(c) == 2 * (if c >= 0x8000 then c - 0x8000 else c)
  {
  }

  /** Shifting past the top bit is the only nonlinear step, and low bits never reach it. */
  lemma ShiftXor(h: u16, l: u16)
    requires l < 0x8000
    ensures Shift(Xor16(h, l)) == Xor16(Shift(h), 2 * l)
  {
    SameTop(h, l);
    Shl1Xor(h, l);
    if h >= 0x8000 {
      XorSwap(Shl1(h), 2 * l, POLY);
    }
  }

  lemma SameTop(h: u16, l: u16)
    requires l < 0x8000
    ensures Xor16(h, l) >= 0x8000 <==> h >= 0x8000
  {
    TopAndRest(h, l);
  }

  lemma Shl1Xor(h: u16, l: u16)
    requires l < 0x8000
    ensures Shl1(Xor16(h, l)) == Xor(Shl1(h), 2 * l)
  {
    Shl1Linear(h, l);
    Shl1Low(l);
  }

  lemma Shl1Low(l: u16)
    requires l < 0x8000
    ensures Shl1(l) == 2 * l
  {
  }

  /** n shifts of h with l mixed in, l too small to reach the top bit, only move l up. */
  lemma {:induction false} ShiftsXor(h: u16, l: u16, n: nat)
    requires Scale(l, n) < 0x1_0000
    ensures Shifts(Xor16(h, l), n) == Xor16(Shifts(h, n), Scale(l, n))
    decreases n
  {
    if n > 0 {
      ScaleFirst(l, n);
      ScaleGrows(2 * l, n - 1);
      ShiftXor(h, l);
      ShiftsXor(Shift(h), 2 * l, n - 1);
    }
  }

  lemma {:induction false} ScaleFirst(l: nat, n: nat)
    requires n > 0
    ensures Scale(l, n) == Scale(2 * l, n - 1)
    decreases n
  {
    if n > 1 {
      ScaleFirst(l, n - 1);
    }
  }

  lemma {:induction false} ScaleGrows(l: nat, n: nat)
    ensures l <= Scale(l, n)
    decreases n
  {
    if n > 0 {
      ScaleGrows(l, n - 1);
    }
  }

  /** One more shift at the end is one more shift. */
  lemma {:induction false} ShiftsOneMore(crc: u16, n: nat)
    ensures Shifts(crc, n + 1) == Shift(Shifts(crc, n))
    decreases n
  {
    if n > 0 {
      ShiftsOneMore(Shift(crc), n - 1);
    }
  }

  /** From an index to its double: one more shift. */
  lemma DoubleIndex(c: u16)
    requires c < 0x8000
    ensures Shifts(2 * c, 8) == Shift(Shifts(c, 8))
  {
    ShiftsOneMore(c, 8);
    assert Shifts(c, 9) == Shifts(Shift(c), 8);
    ShiftBelowTop(c);
  }

  lemma ShiftBelowTop(c: u16)
    requires c < 0x8000
    ensures Shift(c) == 2 * c
  {
  }

  /** Flipping bit 8 before eight shifts is flipping the polynomial after them. */
  lemma FlipBeforeShifts(z: u16)
    ensures Shifts(Xor16(z, 0x100), 8) == Xor16(Shifts(z, 8), POLY)
  {
    Scales(0x100);
    ShiftsXor(z, 0x100, 7);
    ShiftsOneMore(Xor16(z, 0x100), 7);
    ShiftsOneMore(z, 7);
    ShiftTop(Shifts(z, 7));
  }

  lemma JoinHighByte(h: nat)
    ensures Xor(0x200 * h, 0x100) == 0x200 * h + 0x100
  {
    Scales(0);
    Scales(1);
    Scales(h);
    XorSplit(h, 0, 0, 0x100, 9);
    XorZero(h);
    XorZero(0x100);
  }

  /** Every table entry is eight shifts of its index placed in the high byte. */
  lemma {:induction false} EntryIsEightShifts(i: byte)
    ensures Entry(i) == Shifts(High(i), 8)
  {
    assert FollowsHalf(i) by {
      EntryFollowsHalf(i);
      FlipsSuffice(i);
    }
    if i == 0 {
      ZeroShifts(8);
    } else {
      EntryIsEightShifts(i / 2);
      IndexFromHalf(i, Entry(i / 2), Entry(i));
    }
  }

  lemma IndexFromHalf(i: byte, half: u16, whole: u16)
    requires half == Shifts(High(i / 2), 8)
    requires whole == if i % 2 == 0 then Shift(half) else Xor16(Shift(half), POLY)
    ensures whole == Shifts(High(i), 8)
  {
    var h := i / 2;
    DoubleIndex(High(h));
    if i % 2 == 1 {
      JoinHighByte(h);
      FlipBeforeShifts(0x200 * h);
      assert High(i) == Xor16(0x200 * h, 0x100);
    } else {
      assert High(i) == 0x200 * h;
    }
  }

  lemma FlipTop(c: u16)
    ensures Xor(c, 0x8000) == if c >= 0x8000 then c - 0x8000 else c + 0x8000
  {
    var top, rest := c / 0x8000, c % 0x8000;
    Scales(1);
    Scales(top);
    Scales(Xor(top, 1));
    XorSplit(top, rest, 1, 0, 15);
    XorZero(rest);
    FlipLowest(top);
  }

  lemma ShiftTop(c: u16)
    ensures Shift(Xor16(c, 0x8000)) == Xor16(Shift(c), POLY)
  {
    FlipTop(c);
    Shl1Wraps(c);
    Shl1Wraps(Xor16(c, 0x8000));
    assert Shl1(Xor16(c, 0x8000)) == Shl1(c);
    XorTwice(Shl1(c), POLY);
  }

  // ---------------------------------------------------------------------------------------------
  // The two checksums agree
  // ---------------------------------------------------------------------------------------------

  /** Every entry is eight shifts of its index placed in the high byte. */
  ghost predicate TabulatesShifts(rows: seq<seq<u16>>) {
    IsTable(rows) && forall i: byte :: Lookup(rows, i) == Shifts(High(i), 8)
  }

  lemma TableIsRight()
    ensures TabulatesShifts(CRC16_ROWS)
  {
    forall i: byte ensures Lookup(CRC16_ROWS, i) == Shifts(High(i), 8) {
      EntryIsEightShifts(i);
    }
  }

  /** One byte: the table look-up does the work of the eight shifts. */
  lemma StepsAgree(rows: seq<seq<u16>>, crc: u16, b: byte)
    requires TabulatesShifts(rows)
    ensures TableStep(rows, crc, b) == BitStep(crc, b)
  {
    StepWithEntry(crc, b, Lookup(rows, Xor8(crc / 0x100, b)));
  }

  lemma StepWithEntry(crc: u16, b: byte, entry: u16)
    requires entry == Shifts(High(Xor8(crc / 0x100, b)), 8)
    ensures Xor16(entry, Shl8(crc)) == BitStep(crc, b)
  {
    BytesOf(crc);
    MixBytes(crc / 0x100, crc % 0x100, b);
  }

  lemma BytesOf(crc: u16)
    ensures crc == High(crc / 0x100) + crc % 0x100
    ensures Shl8(crc) == High(crc % 0x100)
  {
    var n: int := crc;
    assert 0x100 * n == 0x1_0000 * (n / 0x100) + 0x100 * (n % 0x100);
  }

  lemma MixBytes(hi: byte, lo: byte, b: byte)
    ensures Shifts(Xor16(High(hi) + lo, High(b)), 8) == Xor16(Shifts(High(Xor8(hi, b)), 8), High(lo))
  {
    var z := Xor8(hi, b);
    MixHighByte(hi, lo, b);
    MixLowByte(z, lo);
    assert Xor16(High(hi) + lo, High(b)) == Xor16(High(z), lo);
    Scales(lo);
    ShiftsXor(High(z), lo, 8);
  }

  lemma MixHighByte(hi: byte, lo: byte, b: byte)
    ensures Xor(High(hi) + lo, High(b)) == 0x100 * Xor(hi, b) + lo
  {
    Scale8(1);
    Scale8(hi);
    Scale8(b);
    Scale8(Xor(hi, b));
    XorSplit(hi, lo, b, 0, 8);
    XorZero(lo);
  }

  lemma MixLowByte(hi: byte, lo: byte)
    ensures Xor(High(hi), lo) == High(hi) + lo
  {
    Scales(0);
    Scales(1);
    Scales(hi);
    XorSplit(hi, 0, 0, lo, 8);
    XorZero(lo);
    XorZero(hi);
  }

  /** The table-driven checksum is the bit-by-bit checksum, on every byte string. */
  lemma {:induction false} ChecksumsAgree(rows: seq<seq<u16>>, data: Bytes)
    requires TabulatesShifts(rows)
    ensures TableCrc(rows, data) == BitCrc(data)
  {
    if data != [] {
      var init, last := data[..|data| - 1], data[|data| - 1];
      ChecksumsAgree(rows, init);
      StepsAgree(rows, BitCrc(init), last);
    }
  }

  lemma XorCommutes(x: nat, y: nat)
    ensures Xor(x, y) == Xor(y, x)
  {
    XorSwap(0, x, y);
    XorZero(x);
    XorZero(y);
  }

  lemma XorPairs(a: nat, b: nat, c: nat, d: nat)
    ensures Xor(Xor(a, b), Xor(c, d)) == Xor(Xor(a, c), Xor(b, d))
  {
    XorAssociative(Xor(a, b), c, d);
    XorSwap(a, b, c);
    XorAssociative(Xor(a, c), b, d);
  }

  function Mixed(poly: nat, x: nat, top: bool): nat {
    if top then Xor(x, poly) else x
  }

  lemma MixedXor(poly: nat, x: nat, y: nat, s: bool, t: bool)
    ensures Xor(Mixed(poly, x, s), Mixed(poly, y, t)) == Mixed(poly, Xor(x, y), s != t)
  {
    if s && t {
      XorPairs(x, poly, y, poly);
      XorZero(poly);
      XorZero(Xor(x, y));
    } else if s {
      XorSwap(x, poly, y);
    } else if t {
      XorAssociative(x, y, poly);
    }
  }

  lemma ShiftForm(x: u16)
    ensures Shift(x) == Mixed(POLY, Shl1(x), x >= 0x8000)
  {
  }

  lemma TopAndRest(x: u16, y: u16)
    ensures Xor(x, y) % 0x8000 == Xor(x % 0x8000, y % 0x8000)
    ensures Xor(x, y) >= 0x8000 <==> (x >= 0x8000) != (y >= 0x8000)
  {
    var k := Fifteen();
    TopAndRestAt(x, y, k);
  }

  lemma Fifteen() returns (k: nat)
    ensures k > 0 && Scale(0, k) == 0 && Scale(1, k) == 0x8000
  {
    k := 15;
    Scale15(0);
    Scale15(1);
  }

  lemma TopAndRestAt(x: u16, y: u16, k: nat)
    requires Scale(0, k) == 0 && Scale(1, k) == 0x8000
    ensures Xor(x, y) % 0x8000 == Xor(x % 0x8000, y % 0x8000)
    ensures Xor(x, y) >= 0x8000 <==> (x >= 0x8000) != (y >= 0x8000)
  {
    var s, a, t, b := x / 0x8000, x % 0x8000, y / 0x8000, y % 0x8000;
    Parts(x, s, a, k);
    Parts(y, t, b, k);
    XorBits(s, t);
    XorBelow(a, b, k);
    XorOfParts(x, y, s, a, t, b, k);
    JoinedParts(Xor(x, y), Xor(s, t), Xor(a, b), k);
  }

  lemma Parts(x: u16, s: nat, a: nat, k: nat)
    requires Scale(0, k) == 0 && Scale(1, k) == 0x8000 && s == x / 0x8000 && a == x % 0x8000
    ensures s < 2 && x == Join(s, a, k)
  {
    JoinValue(s, a, k);
  }

  lemma JoinedParts(r: nat, top: nat, rest: nat, k: nat)
    requires Scale(0, k) == 0 && Scale(1, k) == 0x8000
    requires top < 2 && rest < 0x8000 && r == Join(top, rest, k)
    ensures r == 0x8000 * top + rest
  {
    JoinValue(top, rest, k);
  }

  lemma XorOfParts(x: nat, y: nat, s: nat, a: nat, t: nat, b: nat, k: nat)
    requires x == Join(s, a, k) && y == Join(t, b, k)
    ensures Xor(x, y) == Join(Xor(s, t), Xor(a, b), k)
  {
    XorJoin(s, a, t, b, k);
  }

  lemma XorBits(s: nat, t: nat)
    requires s < 2 && t < 2
    ensures Xor(s, t) == if s == t then 0 else 1
  {
  }

  lemma Shl1Linear(x: u16, y: u16)
    ensures Shl1(Xor16(x, y)) == Xor(Shl1(x), Shl1(y))
  {
    TopAndRest(x, y);
    XorDouble(x % 0x8000, y % 0x8000);
    DoubleRest(x);
    DoubleRest(y);
    DoubleRest(Xor16(x, y));
  }

  lemma DoubleRest(x: u16)
    ensures Shl1(x) == 2 * (x % 0x8000)
  {
  }

  lemma ShiftLinear(x: u16, y: u16)
    ensures Shift(Xor16(x, y)) == Xor16(Shift(x), Shift(y))
  {
    ShiftForm(x);
    ShiftForm(y);
    ShiftForm(Xor16(x, y));
    TopAndRest(x, y);
    Shl1Linear(x, y);
    MixedXor(POLY, Shl1(x), Shl1(y), x >= 0x8000, y >= 0x8000);
  }

  lemma {:induction false} ShiftsLinear(x: u16, y: u16, n: nat)
    ensures Shifts(Xor16(x, y), n) == Xor16(Shifts(x, n), Shifts(y, n))
    decreases n
  {
    if n > 0 {
      ShiftLinear(x, y);
      ShiftsLinear(Shift(x), Shift(y), n - 1);
    }
  }

  lemma HighLinear(a: byte, b: byte)
    ensures High(Xor8(a, b)) == Xor16(High(a), High(b))
  {
    Scale8(1);
    Scale8(a);
    Scale8(b);
    Scale8(Xor8(a, b));
    XorSplit(a, 0, b, 0, 8);
    XorZero(0);
  }

  lemma StepLinear(x: u16, y: u16, a: byte, b: byte)
    ensures BitStep(Xor16(x, y), Xor8(a, b)) == Xor16(BitStep(x, a), BitStep(y, b))
  {
    HighLinear(a, b);
    XorPairs(x, y, High(a), High(b));
    ShiftsLinear(Xor16(x, High(a)), Xor16(y, High(b)), 8);
  }

  function XorBytes(a: Bytes, b: Bytes): (r: Bytes)
    requires |a| == |b|
    ensures |r| == |a| && forall i :: 0 <= i < |a| ==> r[i] == Xor8(a[i], b[i])
  {
    seq(|a|, i requires 0 <= i < |a| => Xor8(a[i], b[i]))
  }

  /** The checksum is linear: that of two messages laid over each other is that of the one over that of the other. */
  lemma {:induction false} ChecksumIsLinear(a: Bytes, b: Bytes)
    requires |a| == |b|
    ensures BitCrc(XorBytes(a, b)) == Xor16(BitCrc(a), BitCrc(b))
  {
    if a == [] {
      XorZero(0);
    } else {
      var n := |a| - 1;
      ChecksumIsLinear(a[..n], b[..n]);
      assert XorBytes(a, b)[..n] == XorBytes(a[..n], b[..n]);
      StepLinear(BitCrc(a[..n]), BitCrc(b[..n]), a[n], b[n]);
    }
  }

  /** What makes it a checksum: a message followed by its own checksum leaves nothing over. */
  lemma MessageWithChecksum(data: Bytes)
    ensures var c := BitCrc(data); BitCrc(data + [c / 0x100, c % 0x100]) == 0
  {
    var c := BitCrc(data);
    var hi: byte, lo: byte := c / 0x100, c % 0x100;
    var once := data + [hi];
    OneMoreByte(data, hi);
    assert BitCrc(once) == High(lo) by {
      Residue(c, hi, lo);
    }
    var twice := data + [hi, lo];
    assert twice == once + [lo];
    OneMoreByte(once, lo);
    assert BitCrc(twice) == 0 by {
      Residue(High(lo), lo, 0);
    }
  }

  lemma Residue(c: u16, b: byte, lo: byte)
    requires c == High(b) + lo
    ensures BitStep(c, b) == High(lo)
  {
    assert Xor16(c, High(b)) == lo by {
      MixHighByte(b, lo, b);
      XorZero(b);
    }
    assert Shifts(Xor16(0, lo), 8) == Xor16(Shifts(0, 8), High(lo)) by {
      Scales(lo);
      ShiftsXor(0, lo, 8);
    }
    ZeroShifts(8);
    XorZero(lo);
    XorZero(High(lo));
  }

  lemma {:induction false} ZeroShifts(n: nat)
    ensures Shifts(0, n) == 0
  {
    if n > 0 {
      ZeroShifts(n - 1);
    }
  }

  /** The byte loop, over any table that tabulates the shifts. */
  method Crc16With(rows: seq<seq<u16>>, data: Bytes) returns (crc: u16)
    requires TabulatesShifts(rows)
    ensures crc == BitCrc(data)
  {
    crc := 0;
    for i := 0 to |data|
      invariant crc == TableCrc(rows, data[..i])
    {
      var idx := Xor8(crc / 0x100, data[i]);
      crc := Xor16(rows[idx / 16][idx % 16], Shl8(crc));
      assert data[..i + 1][..i] == data[..i];
    }
    assert data[..|data|] == data;
    ChecksumsAgree(rows, data);
  }

  /** The checksum of the cluster crate. */
  method Crc16(data: Bytes) returns (crc: u16)
    ensures crc == BitCrc(data)
  {
    TableIsRight();
    crc := Crc16With(CRC16_ROWS, data);
  }

  /** The byte and bit loops of the command crate. */
  method Crc16Xmodem(data: Bytes) returns (crc: u16)
    ensures crc == BitCrc(data)
  {
    crc := 0;
    for i := 0 to |data|
      invariant crc == BitCrc(data[..i])
    {
      crc := Xor16(crc, High(data[i]));
      ghost var mixed := crc;
      for bit := 0 to 8
        invariant crc == Shifts(mixed, bit)
      {
        ShiftsOneMore(mixed, bit);
        if crc >= 0x8000 {
          crc := Xor16(Shl1(crc), POLY);
        } else {
          crc := Shl1(crc);
        }
      }
      assert data[..i + 1][..i] == data[..i];
    }
    assert data[..|data|] == data;
  }

  // ---------------------------------------------------------------------------------------------
  // Hash tags and slots
  // ---------------------------------------------------------------------------------------------

  /** Index of the first occurrence of x, or None. */
  function Position(s: Bytes, x: byte): (r: Option<nat>)
    ensures r.None? <==> x !in s
    ensures r.Some? ==> r.value < |s| && s[r.value] == x && x !in s[..r.value]
  {
    if s == [] then None
    else if s[0] == x then Some(0)
    else
      var r := Position(s[1..], x);
      if r.None? then None
      else
        assert s[..r.value + 1] == [s[0]] + s[1..][..r.value];
        Some(r.value + 1)
  }

  /** The bytes between the first `{` and the first `}` after it; empty when there is no such pair. */
  function ExtractHashtag(key: Bytes): Bytes {
    var open := Position(key, OPEN_BRACE);
    if open.None? then []
    else
      var rest := key[open.value + 1..];
      var close := Position(rest, CLOSE_BRACE);
      if close.None? then [] else rest[..close.value]
  }

  /** The tag occurs in the key as the first brace pair. */
  ghost predicate TaggedBy(key: Bytes, tag: Bytes, before: Bytes, after: Bytes) {
    && key == before + [OPEN_BRACE] + tag + [CLOSE_BRACE] + after
    && OPEN_BRACE !in before
    && CLOSE_BRACE !in tag
  }

  lemma {:induction false} FirstOccurrence(before: Bytes, x: byte, after: Bytes)
    requires x !in before
    ensures Position(before + [x] + after, x) == Some(|before|)
  {
    var s := before + [x] + after;
    if before != [] {
      FirstOccurrence(before[1..], x, after);
      assert s[1..] == before[1..] + [x] + after;
      assert before[0] in before;
    }
  }

  /** A key of the form p{t}s, with no `{` in p and no `}` in t, has exactly the tag t. */
  lemma TagOfTaggedKey(key: Bytes, tag: Bytes, before: Bytes, after: Bytes)
    requires TaggedBy(key, tag, before, after)
    ensures ExtractHashtag(key) == tag
  {
    var rest := tag + [CLOSE_BRACE] + after;
    assert key == before + [OPEN_BRACE] + rest;
    FirstOccurrence(before, OPEN_BRACE, rest);
    assert key[|before| + 1..] == rest;
    FirstOccurrence(tag, CLOSE_BRACE, after);
    assert rest[..|tag|] == tag;
  }

  /** A key with a non-empty tag has that form. */
  lemma FormOfTaggedKey(key: Bytes) returns (before: Bytes, after: Bytes)
    requires ExtractHashtag(key) != []
    ensures TaggedBy(key, ExtractHashtag(key), before, after)
  {
    var i := Position(key, OPEN_BRACE).value;
    var rest := key[i + 1..];
    var j := Position(rest, CLOSE_BRACE).value;
    before, after := key[..i], rest[j + 1..];
    SplitAtFirst(key, i);
    SplitAtFirst(rest, j);
    Regroup(before, OPEN_BRACE, rest[..j], CLOSE_BRACE, after);
  }

  lemma SplitAtFirst(s: Bytes, i: nat)
    requires i < |s|
    ensures s == s[..i] + [s[i]] + s[i + 1..]
  {
  }

  lemma Regroup(p: Bytes, x: byte, t: Bytes, y: byte, s: Bytes)
    ensures p + [x] + (t + [y] + s) == p + [x] + t + [y] + s
  {
  }

  /** A non-empty tag is extracted if and only if the key has that form. */
  lemma TagExactly(key: Bytes, tag: Bytes)
    requires tag != []
    ensures ExtractHashtag(key) == tag <==> exists before, after :: TaggedBy(key, tag, before, after)
  {
    if ExtractHashtag(key) == tag {
      var before, after := FormOfTaggedKey(key);
    } else if exists before, after :: TaggedBy(key, tag, before, after) {
      var before, after :| TaggedBy(key, tag, before, after);
      TagOfTaggedKey(key, tag, before, after);
      assert false;
    }
  }

  /** The slot rule of the cluster. */
  function Slot(key: Bytes): nat {
    var tag := ExtractHashtag(key);
    BitCrc(if tag != [] then tag else key) % NUM_SLOTS
  }

  method KeyHashSlot(key: Bytes) returns (slot: nat)
    ensures slot == Slot(key) && slot < NUM_SLOTS
  {
    var tag := ExtractHashtag(key);
    var data := if tag != [] then tag else key;
    var crc := Crc16(data);
    slot := crc % NUM_SLOTS;
  }

  /** CLUSTER KEYSLOT in the command crate, which looks at no tag; None is the arity error. */
  method ClusterKeyslot(args: seq<Bytes>) returns (slot: Option<nat>)
    ensures args == [] <==> slot.None?
    ensures args != [] ==> slot == Some(BitCrc(args[0]) % NUM_SLOTS)
  {
    if args == [] {
      return None;
    }
    var crc := Crc16Xmodem(args[0]);
    slot := Some(crc % NUM_SLOTS);
  }

  /** Every key p{t}s, with no `{` in p and t non-empty and free of `}`, goes to the slot of t alone;
      so any two keys with the same tag share a slot. */
  lemma TaggedKeysShareSlot(key: Bytes, tag: Bytes, before: Bytes, after: Bytes)
    requires TaggedBy(key, tag, before, after) && tag != []
    ensures Slot(key) == BitCrc(tag) % NUM_SLOTS
    ensures OPEN_BRACE !in tag ==> Slot(key) == Slot(tag)
  {
    TagOfTaggedKey(key, tag, before, after);
  }

  /** Both slot routines give the same slot for the key. */
  predicate KeyslotsAgree(key: Bytes) {
    Slot(key) == BitCrc(key) % NUM_SLOTS
  }

  /** The two key-slot routines agree on every key without a non-empty tag. */
  lemma KeyslotsAgreeUntagged(key: Bytes)
    requires forall tag, before, after :: TaggedBy(key, tag, before, after) ==> tag == []
    ensures KeyslotsAgree(key)
  {
    if ExtractHashtag(key) != [] {
      var before, after := FormOfTaggedKey(key);
      assert false;
    }
  }

  /** On tagged keys they are bound to disagree: a tagged key's slot ignores what follows the tag, the
      plain checksum does not. Of two tagged keys that differ only in the lowest bit of a last byte
      after the tag, at least one gets different slots from the two routines. */
  lemma KeyslotsDisagreeOnTags(key: Bytes, x: byte, y: byte)
    requires ExtractHashtag(key) != [] && x % 2 == 0 && y == x + 1
    ensures !(KeyslotsAgree(key + [x]) && KeyslotsAgree(key + [y]))
  {
    SlotIgnoresSuffix(key, x);
    SlotIgnoresSuffix(key, y);
    LastBitMatters(key, x, y);
  }

  /** The first `{` of the key is at once followed by `}`. */
  predicate StartsEmptyBraces(key: Bytes) {
    var i := Position(key, OPEN_BRACE);
    i.Some? && i.value + 1 < |key| && key[i.value + 1] == CLOSE_BRACE
  }

  /** The two routines agree on a key and on everything that starts with it if and only if its first `{` is
      at once followed by `}`. */
  lemma KeyslotsAgreeExactly(key: Bytes)
    ensures (forall s :: KeyslotsAgree(key + s)) <==> StartsEmptyBraces(key)
  {
    if StartsEmptyBraces(key) {
      forall s ensures KeyslotsAgree(key + s) {
        EmptyBracesStay(key, s);
      }
    } else {
      var s := DisagreeingContinuation(key);
      assert !KeyslotsAgree(key + s);
    }
  }

  lemma DisagreeingContinuation(key: Bytes) returns (s: Bytes)
    requires !StartsEmptyBraces(key)
    ensures !KeyslotsAgree(key + s)
  {
    var t := TagWithin(key);
    KeyslotsDisagreeOnTags(key + t, 0, 1);
    SuffixGrows(key, t, 0);
    SuffixGrows(key, t, 1);
    s := if KeyslotsAgree(key + t + [0]) then t + [1] else t + [0];
  }

  lemma SuffixGrows(key: Bytes, t: Bytes, x: byte)
    ensures key + t + [x] == key + (t + [x])
  {
  }

  /** That is to say, if and only if no key that starts with it has a tag. */
  lemma UntaggedExactly(key: Bytes)
    ensures (forall s :: ExtractHashtag(key + s) == []) <==> StartsEmptyBraces(key)
  {
    if StartsEmptyBraces(key) {
      forall s ensures ExtractHashtag(key + s) == [] {
        EmptyBracesStay(key, s);
      }
    } else {
      var s := TagWithin(key);
      assert ExtractHashtag(key + s) != [];
    }
  }

  lemma EmptyBracesStay(key: Bytes, s: Bytes)
    requires StartsEmptyBraces(key)
    ensures ExtractHashtag(key + s) == []
  {
    var i := Position(key, OPEN_BRACE).value;
    var before, after := key[..i], key[i + 2..] + s;
    assert key + s == before + [OPEN_BRACE] + [] + [CLOSE_BRACE] + after;
    TagOfTaggedKey(key + s, [], before, after);
  }

  /** Any other key goes on to a tagged one. */
  lemma TagWithin(key: Bytes) returns (s: Bytes)
    requires !StartsEmptyBraces(key)
    ensures ExtractHashtag(key + s) != []
  {
    var letter: byte := 0x61;
    match Position(key, OPEN_BRACE)
    case None =>
      s := [OPEN_BRACE, letter, CLOSE_BRACE];
      assert key + s == key + [OPEN_BRACE] + [letter] + [CLOSE_BRACE] + [];
      TagOfTaggedKey(key + s, [letter], key, []);
    case Some(i) =>
      s := [letter, CLOSE_BRACE];
      var rest := key[i + 1..] + s;
      assert rest[|rest| - 1] == CLOSE_BRACE;
      assert key + s == key[..i] + [OPEN_BRACE] + rest;
      TagBehind(key, i, rest);
  }

  /** Whatever follows the first `{` up to the next `}` is the tag. */
  lemma TagBehind(key: Bytes, i: nat, rest: Bytes)
    requires Position(key, OPEN_BRACE) == Some(i) && CLOSE_BRACE in rest && rest[0] != CLOSE_BRACE
    ensures ExtractHashtag(key[..i] + [OPEN_BRACE] + rest) != []
  {
    var j := Position(rest, CLOSE_BRACE).value;
    SplitAtFirst(rest, j);
    Regroup(key[..i], OPEN_BRACE, rest[..j], CLOSE_BRACE, rest[j + 1..]);
    TagOfTaggedKey(key[..i] + [OPEN_BRACE] + rest, rest[..j], key[..i], rest[j + 1..]);
  }

  lemma SlotIgnoresSuffix(key: Bytes, x: byte)
    requires ExtractHashtag(key) != []
    ensures Slot(key + [x]) == Slot(key)
  {
    var tag := ExtractHashtag(key);
    var before, after := FormOfTaggedKey(key);
    assert key + [x] == before + [OPEN_BRACE] + tag + [CLOSE_BRACE] + (after + [x]);
    TagOfTaggedKey(key + [x], tag, before, after + [x]);
  }

  lemma LastBitMatters(data: Bytes, x: byte, y: byte)
    requires x % 2 == 0 && y == x + 1
    ensures BitCrc(data + [x]) % NUM_SLOTS != BitCrc(data + [y]) % NUM_SLOTS
  {
    LastBitFlipsParity(BitCrc(data), x / 2);
    OneMoreByte(data, x);
    OneMoreByte(data, y);
    ParityOfSlot(BitCrc(data + [x]));
    ParityOfSlot(BitCrc(data + [y]));
  }

  lemma OneMoreByte(data: Bytes, x: byte)
    ensures BitCrc(data + [x]) == BitStep(BitCrc(data), x)
  {
    assert (data + [x])[..|data|] == data;
  }

  lemma ParityOfSlot(crc: u16)
    ensures crc % NUM_SLOTS % 2 == crc % 2
  {
  }

  lemma LastBitFlipsParity(crc: u16, m: nat)
    requires m < 0x80
    ensures BitStep(crc, 2 * m) % 2 != BitStep(crc, 2 * m + 1) % 2
  {
    var z := Xor16(crc, High(2 * m));
    assert Xor16(crc, High(2 * m + 1)) == Xor16(z, 0x100) by {
      JoinHighByte(m);
      XorAssociative(crc, High(2 * m), 0x100);
    }
    FlipBeforeShifts(z);
    XorHalves(Shifts(z, 8), POLY);
  }
}
