/** The note's `flags` word: single-bit tests and the font-size table.
    Python integers are unbounded and behave as infinite two's complement
    under `&`; Dafny's `/` and `%` by a positive divisor round toward minus
    infinity, which is exactly that behaviour, so flags stay an `int`. */
module Flags {

  const TrashedBit: nat := 1
  const ListBit: nat := 2
  const CheckedToBottomBit: nat := 4
  const FontBit5: nat := 5
  const FontBit6: nat := 6
  const FontBit7: nat := 7
  const PinnedBit: nat := 10
  const ArchivedBit: nat := 12

  function Pow2(k: nat): (r: nat)
    ensures r >= 1
  {
    if k == 0 then 1 else 2 * Pow2(k - 1)
  }

  /** `test_bit(x, k)`: whether `x & (1 << k)` is non-zero. */
  predicate TestBit(x: int, k: nat) {
    (x / Pow2(k)) % 2 == 1
  }

  predicate IsTrashed(flags: int) { TestBit(flags, TrashedBit) }
  predicate IsList(flags: int) { TestBit(flags, ListBit) }
  predicate CheckedToBottom(flags: int) { TestBit(flags, CheckedToBottomBit) }
  predicate IsPinned(flags: int) { TestBit(flags, PinnedBit) }
  predicate IsArchived(flags: int) { TestBit(flags, ArchivedBit) }

  /** The binary number whose bit `i` is `bs[i]` (least significant first). */
  function FromBits(bs: seq<bool>): nat {
    if |bs| == 0 then 0 else (if bs[0] then 1 else 0) + 2 * FromBits(bs[1..])
  }

  /** Bit `k` of the binary number `bs`, with every bit past the end clear. */
  predicate BitAt(bs: seq<bool>, k: nat) {
    k < |bs| && bs[k]
  }

  /** Euclidean division is determined by any quotient/remainder pair. */
  lemma DivModUnique(x: int, d: int, q: int, r: int)
    requires d > 0 && 0 <= r < d && x == d * q + r
    ensures x / d == q && x % d == r
  {
    var q0, r0 := x / d, x % d;
    assert d * q0 + r0 == d * q + r;
    if q0 < q {
      MulDistance(d, q0, q);
    } else if q < q0 {
      MulDistance(d, q, q0);
    }
  }

  /** Multiples of `d` at different indices are at least `d` apart. */
  lemma MulDistance(d: int, a: int, b: int)
    requires d > 0 && a < b
    ensures d * b >= d * a + d
  {
    var k := b - a;
    assert d * b == d * a + d * k;
    assert d * k >= d by {
      assert d * k == d * (k - 1) + d;
      assert d * (k - 1) >= 0;
    }
  }

  /** Dividing by `2 * m` is halving and then dividing by `m`. */
  lemma DivTwice(x: int, m: int)
    requires m > 0
    ensures x / (2 * m) == (x / 2) / m
  {
    var h := x / 2;
    var q := h / m;
    assert x == 2 * (m * q + h % m) + x % 2;
    assert x == (2 * m) * q + (2 * (h % m) + x % 2);
    DivModUnique(x, 2 * m, q, 2 * (h % m) + x % 2);
  }

  /** `test_bit` reads back exactly the binary digit it is given. */
  lemma {:induction false} TestBitFromBits(bs: seq<bool>, k: nat)
    ensures TestBit(FromBits(bs), k) <==> BitAt(bs, k)
  {
    var x := FromBits(bs);
    if |bs| == 0 {
      assert x / Pow2(k) == 0;
    } else {
      var b := if bs[0] then 1 else 0;
      var y := FromBits(bs[1..]);
      DivModUnique(x, 2, y, b);
      if k > 0 {
        DivTwice(x, Pow2(k - 1));
        TestBitFromBits(bs[1..], k - 1);
      }
    }
  }

  /** Each state predicate reads its own fixed bit and nothing else. */
  lemma FlagPredicatesFromBits(bs: seq<bool>)
    ensures IsTrashed(FromBits(bs)) <==> BitAt(bs, 1)
    ensures IsList(FromBits(bs)) <==> BitAt(bs, 2)
    ensures CheckedToBottom(FromBits(bs)) <==> BitAt(bs, 4)
    ensures IsPinned(FromBits(bs)) <==> BitAt(bs, 10)
    ensures IsArchived(FromBits(bs)) <==> BitAt(bs, 12)
  {
    TestBitFromBits(bs, 1);
    TestBitFromBits(bs, 2);
    TestBitFromBits(bs, 4);
    TestBitFromBits(bs, 10);
    TestBitFromBits(bs, 12);
  }

  /** Python's `~x` is `-1 - x`: a negative flags word tests as the
      complement of its bits, as in two's complement. */
  lemma {:induction false} TestBitComplement(x: int, k: nat)
    ensures TestBit(-1 - x, k) <==> !TestBit(x, k)
  {
    var p := Pow2(k);
    var q := x / p;
    var r := x % p;
    DivModUnique(-1 - x, p, -1 - q, p - 1 - r);
    var q2 := q / 2;
    if q % 2 == 0 {
      DivModUnique(-1 - q, 2, -1 - q2, 1);
    } else {
      DivModUnique(-1 - q, 2, -1 - q2, 0);
    }
  }

  /** The five sizes, named as the converter labels them. */
  datatype FontSize = Tiny | Large | Huge | Small | Normal

  /** `determine_font_size`: bit 7 alone means tiny; bits 5 and 6 encode
      the other four sizes. */
  function FontSizeOf(flags: int): (r: FontSize)
    ensures r == Tiny <==> TestBit(flags, FontBit7)
    ensures r == Large <==> !TestBit(flags, FontBit7) && TestBit(flags, FontBit5) && !TestBit(flags, FontBit6)
    ensures r == Huge <==> !TestBit(flags, FontBit7) && !TestBit(flags, FontBit5) && TestBit(flags, FontBit6)
    ensures r == Small <==> !TestBit(flags, FontBit7) && TestBit(flags, FontBit5) && TestBit(flags, FontBit6)
    ensures r == Normal <==> !TestBit(flags, FontBit7) && !TestBit(flags, FontBit5) && !TestBit(flags, FontBit6)
  {
    var bit5 := TestBit(flags, FontBit5);
    var bit6 := TestBit(flags, FontBit6);
    var bit7 := TestBit(flags, FontBit7);
    if bit7 then Tiny
    else if bit5 && !bit6 then Large
    else if !bit5 && bit6 then Huge
    else if bit5 && bit6 then Small
    else Normal
  }

  /** The font size of a binary flags word is the table over its bits 5, 6
      and 7; no other bit changes it. */
  lemma FontSizeFromBits(bs: seq<bool>, other: seq<bool>)
    requires forall k :: 5 <= k <= 7 ==> BitAt(bs, k) == BitAt(other, k)
    ensures FontSizeOf(FromBits(bs)) == FontSizeOf(FromBits(other))
    ensures FontSizeOf(FromBits(bs)) == Tiny <==> BitAt(bs, 7)
    ensures FontSizeOf(FromBits(bs)) == Large <==> !BitAt(bs, 7) && BitAt(bs, 5) && !BitAt(bs, 6)
    ensures FontSizeOf(FromBits(bs)) == Huge <==> !BitAt(bs, 7) && !BitAt(bs, 5) && BitAt(bs, 6)
    ensures FontSizeOf(FromBits(bs)) == Small <==> !BitAt(bs, 7) && BitAt(bs, 5) && BitAt(bs, 6)
  {
    TestBitFromBits(bs, 5);
    TestBitFromBits(bs, 6);
    TestBitFromBits(bs, 7);
    TestBitFromBits(other, 5);
    TestBitFromBits(other, 6);
    TestBitFromBits(other, 7);
  }
}
