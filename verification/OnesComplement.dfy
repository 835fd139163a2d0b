/** One's-complement arithmetic of RFC 1071 over network-order byte sequences. */
module OnesComplement {

  type Byte = b: int | 0 <= b < 0x100

  type Word = w: int | 0 <= w < 0x1_0000

  /** The 16-bit value left once every end-around carry of the sum `s` has been added back. */
  function Fold(s: nat): (w: Word) {
    if s == 0 then 0 else 1 + (s - 1) % 0xFFFF
  }

  /** One end-around carry. */
  function CarryStep(s: nat): nat {
    s % 0x1_0000 + s / 0x1_0000
  }

  /** The sum of the 16-bit big-endian words of `b`; an odd last byte is padded with a zero byte. */
  function WordSum(b: seq<Byte>): nat {
    if |b| == 0 then 0
    else if |b| == 1 then 0x100 * b[0]
    else 0x100 * b[0] + b[1] + WordSum(b[2..])
  }

  /** The same sum as a little-endian host computes it. */
  function WordSumLittleEndian(b: seq<Byte>): nat {
    if |b| == 0 then 0
    else if |b| == 1 then b[0]
    else b[0] + 0x100 * b[1] + WordSumLittleEndian(b[2..])
  }

  function SwapBytes(w: Word): Word {
    0x100 * (w % 0x100) + w / 0x100
  }

  // ----- Fold

  /** Fold is the only 16-bit value congruent to the sum that is zero just when the sum is. */
  lemma FoldUnique(s: nat, w: Word)
    ensures w == Fold(s) <==> w % 0xFFFF == s % 0xFFFF && (w == 0 <==> s == 0)
  {
    if s > 0 {
      assert (s - 1) % 0xFFFF + 1 == s % 0xFFFF || ((s - 1) % 0xFFFF == 0xFFFE && s % 0xFFFF == 0);
    }
  }

  lemma AddMultiple(a: int, k: int)
    ensures (a + 0xFFFF * k) % 0xFFFF == a % 0xFFFF
  {
  }

  /** Sums that differ by a multiple of 0xFFFF fold alike, unless just one of them is zero. */
  lemma FoldCongruent(s: nat, t: nat, k: int)
    requires s == t + 0xFFFF * k && (s == 0 <==> t == 0)
    ensures Fold(s) == Fold(t)
  {
    if s > 0 {
      AddMultiple(t - 1, k);
    }
  }

  /** The folded value itself differs from the sum by a multiple of 0xFFFF. */
  lemma FoldQuotient(s: nat) returns (k: nat)
    ensures s == Fold(s) + 0xFFFF * k
  {
    k := if s == 0 then 0 else (s - 1) / 0xFFFF;
  }

  lemma FoldOfWord(w: Word)
    ensures Fold(w) == w
  {
  }

  lemma CarryStepKeepsFold(s: nat)
    ensures Fold(CarryStep(s)) == Fold(s)
  {
    FoldCongruent(s, CarryStep(s), s / 0x1_0000);
  }

  /** The carry loop reaches Fold, whatever the width of the accumulator. */
  method AddCarries(sum: nat) returns (w: Word)
    ensures w == Fold(sum)
  {
    var s := sum;
    while s > 0xFFFF
      invariant Fold(s) == Fold(sum)
    {
      CarryStepKeepsFold(s);
      s := CarryStep(s);
    }
    w := s;
  }

  /** Two carries finish any 32-bit accumulator; one finishes the sum of two folded words. */
  lemma CarriesNeeded(s: nat)
    ensures s < 0x1_0000_0000 ==> CarryStep(CarryStep(s)) == Fold(s)
    ensures s <= 0x1_FFFE ==> CarryStep(s) == Fold(s)
  {
    CarryStepKeepsFold(s);
    CarryStepKeepsFold(CarryStep(s));
  }

  /** Folding the parts first does not change the folded total. */
  lemma FoldOfParts(a: nat, b: nat)
    ensures Fold(Fold(a) + b) == Fold(a + b)
  {
    var k := FoldQuotient(a);
    FoldCongruent(a + b, Fold(a) + b, k);
  }

  /** Two partial checksums joined with a single carry give the folded total. */
  lemma OneCarryJoinsParts(a: nat, b: nat)
    ensures CarryStep(Fold(a) + Fold(b)) == Fold(a + b)
  {
    CarriesNeeded(Fold(a) + Fold(b));
    FoldOfParts(a, Fold(b));
    FoldOfParts(b, a);
  }

  /**
   * The complement of the rest is the checksum that makes a block verify; among the values that
   * verify, only the two zeros 0x0000 and 0xFFFF can stand for each other.
   */
  lemma VerifyingWords(rest: nat, c: Word)
    requires rest > 0
    ensures Fold(rest + c) == 0xFFFF <==>
            c == 0xFFFF - Fold(rest) || (c == 0xFFFF && Fold(rest) == 0xFFFF)
  {
    var w := Fold(rest);
    FoldOfParts(rest, c);
    assert 1 <= w + c <= 0x1_FFFE;
  }

  // ----- WordSum

  lemma {:induction false} WordSumConcat(a: seq<Byte>, b: seq<Byte>)
    requires |a| % 2 == 0
    ensures WordSum(a + b) == WordSum(a) + WordSum(b)
  {
    if |a| == 0 {
      assert a + b == b;
    } else {
      assert (a + b)[2..] == a[2..] + b;
      WordSumConcat(a[2..], b);
    }
  }

  /** Only all-zero bytes sum to zero. */
  lemma {:induction false} WordSumPositive(b: seq<Byte>, i: nat)
    requires i < |b| && b[i] > 0
    ensures WordSum(b) > 0
  {
    if i >= 2 {
      WordSumPositive(b[2..], i - 2);
    }
  }

  /** An odd last byte counts as if a zero byte followed it, whichever end comes first. */
  lemma {:induction false} OddBytePadded(b: seq<Byte>)
    requires |b| % 2 == 1
    ensures WordSum(b + [0]) == WordSum(b)
    ensures WordSumLittleEndian(b + [0]) == WordSumLittleEndian(b)
  {
    if |b| == 1 {
      assert (b + [0])[2..] == [];
    } else {
      assert (b + [0])[2..] == b[2..] + [0];
      OddBytePadded(b[2..]);
    }
  }

  /** Two words and an odd byte: 0x0102 + 0x0304 + 0x0500, or with the low byte first 0x0201 + 0x0403 + 0x0005. */
  lemma OddSumExample()
    ensures WordSum([1, 2, 3, 4, 5]) == 0x0906 && WordSumLittleEndian([1, 2, 3, 4, 5]) == 0x0609
  {
    var b: seq<Byte> := [1, 2, 3, 4, 5];
    assert b[2..] == [3, 4, 5] && b[2..][2..] == [5];
    assert WordSum([3, 4, 5]) == 0x0804 && WordSumLittleEndian([3, 4, 5]) == 0x0408;
  }

  /** Byte-order independence, section 2 (B) of RFC 1071: the host's byte order does not matter. */
  lemma ByteOrderIndependence(b: seq<Byte>)
    ensures SwapBytes(Fold(WordSumLittleEndian(b))) == Fold(WordSum(b))
  {
    var le, be := WordSumLittleEndian(b), WordSum(b);
    var k := LittleEndianSum(b);
    var j := FoldQuotient(le);
    SwappedSum(le, be, Fold(le), k, j);
  }

  lemma SwappedSum(le: nat, be: nat, w: Word, k: nat, j: nat)
    requires 0x100 * le == be + 0xFFFF * k && (le == 0 <==> be == 0)
    requires le == w + 0xFFFF * j && (w == 0 <==> le == 0)
    ensures SwapBytes(w) == Fold(be)
  {
    var h: int := w / 0x100;
    var swapped: int := SwapBytes(w);
    assert swapped == 0x100 * w - 0xFFFF * h;
    assert swapped == be + 0xFFFF * (k - 0x100 * j - h);
    FoldCongruent(swapped, be, k - 0x100 * j - h);
    FoldOfWord(swapped);
  }

  lemma {:induction false} LittleEndianSum(b: seq<Byte>) returns (k: nat)
    ensures 0x100 * WordSumLittleEndian(b) == WordSum(b) + 0xFFFF * k
    ensures WordSumLittleEndian(b) == 0 <==> WordSum(b) == 0
  {
    if |b| < 2 {
      k := 0;
    } else {
      var rest := LittleEndianSum(b[2..]);
      k := rest + b[1];
    }
  }
}
