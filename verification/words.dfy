/**
 * 64-bit words, the 32-bit fields packed into them, two's complement ids, and the XOR checksum of
 * src/db/log_manager.cc.
 */
module Words {
  import opened Types

  const TWO32: int := 0x1_0000_0000
  const TWO64: int := 0x1_0000_0000_0000_0000

  type Byte = b: int | 0 <= b < 256

  type Word = w: int | 0 <= w < 0x1_0000_0000_0000_0000
  type Half = h: int | 0 <= h < 0x1_0000_0000

  // ---------- fields ----------

  /** The field at the lower address (little endian). */
  function Low(w: Word): Half { w % TWO32 }

  function High(w: Word): Half { w / TWO32 }

  function WithLow(w: Word, low: Half): (r: Word)
    ensures Low(r) == low && High(r) == High(w)
  {
    High(w) * TWO32 + low
  }

  function WithHigh(w: Word, high: Half): (r: Word)
    ensures High(r) == high && Low(r) == Low(w)
  {
    high * TWO32 + Low(w)
  }

  /** A bool in the lowest byte of a word. */
  predicate Flag(w: Word) { w % 256 != 0 }

  function WithFlag(w: Word, flag: bool): (r: Word)
    ensures Flag(r) == flag
  {
    w / 256 * 256 + if flag then 1 else 0
  }

  /** An int64_t stored in a uint64_t, and back. */
  function ToWord(id: NodeId): Word { if id < 0 then id + TWO64 else id }

  function FromWord(w: Word): (id: NodeId)
    ensures ToWord(id) == w
  {
    if w < 0x8000_0000_0000_0000 then w else w - TWO64
  }

  lemma FromToWord(id: NodeId)
    ensures FromWord(ToWord(id)) == id
  {
  }

  // ---------- exclusive or ----------

  /** Bitwise exclusive or. */
  function Xor(a: nat, b: nat): nat
    decreases a + b
  {
    if a == 0 && b == 0 then 0
    else 2 * Xor(a / 2, b / 2) + (if a % 2 == b % 2 then 0 else 1)
  }

  lemma {:induction false} XorZero(a: nat)
    ensures Xor(a, 0) == a
  {
    if a != 0 {
      XorZero(a / 2);
    }
  }

  lemma {:induction false} XorCommutes(a: nat, b: nat)
    ensures Xor(a, b) == Xor(b, a)
    decreases a + b
  {
    if a + b != 0 {
      XorCommutes(a / 2, b / 2);
    }
  }

  lemma {:induction false} XorCancels(a: nat, b: nat)
    ensures Xor(Xor(a, b), b) == a
    decreases a + b
  {
    if a + b != 0 {
      XorCancels(a / 2, b / 2);
      var x := Xor(a, b);
      assert x / 2 == Xor(a / 2, b / 2);
      assert x % 2 == if a % 2 == b % 2 then 0 else 1;
      if x == 0 && b == 0 {
        XorZero(a);
      }
    }
  }

  lemma {:induction false} XorFits(a: nat, b: nat, bits: nat)
    requires a < Power2(bits) && b < Power2(bits)
    ensures Xor(a, b) < Power2(bits)
  {
    if bits != 0 {
      XorFits(a / 2, b / 2, bits - 1);
    }
  }

  function Power2(n: nat): (p: nat)
    ensures p > 0
  {
    if n == 0 then 1 else 2 * Power2(n - 1)
  }

  lemma {:induction false} Power2Sum(m: nat, n: nat)
    ensures Power2(m + n) == Power2(m) * Power2(n)
  {
    if m != 0 {
      Power2Sum(m - 1, n);
    }
  }

  lemma Power2Of64()
    ensures Power2(8) == 0x100 && Power2(64) == TWO64
  {
    assert Power2(2) == 4;
    Power2Sum(2, 2);
    Power2Sum(4, 4);
    Power2Sum(8, 8);
    Power2Sum(16, 16);
    Power2Sum(32, 32);
  }

  lemma XorOfWords(a: Word, b: Word)
    ensures 0 <= Xor(a, b) < TWO64
  {
    Power2Of64();
    XorFits(a, b, 64);
  }

  lemma XorInjective(a: nat, b: nat, c: nat)
    requires Xor(a, c) == Xor(b, c) || Xor(c, a) == Xor(c, b)
    ensures a == b
  {
    XorCommutes(a, c);
    XorCommutes(b, c);
    XorCancels(a, c);
    XorCancels(b, c);
  }

  // ---------- bits ----------

  /** Bit k of a number, the lowest being bit 0. */
  function Bit(n: nat, k: nat): (bit: nat)
    ensures bit <= 1
  {
    n / Power2(k) % 2
  }

  lemma BitOfHalf(n: nat, k: nat)
    requires k > 0
    ensures Bit(n, k) == Bit(n / 2, k - 1)
  {
    var p := Power2(k - 1);
    var q, r := n / 2 / p, n / 2 % p;
    assert n / 2 == p * q + r && n == 2 * (n / 2) + n % 2;
    assert n == 2 * p * q + (2 * r + n % 2) && 0 <= 2 * r + n % 2 < 2 * p;
    DivisionIs(n, 2 * p, q, 2 * r + n % 2);
  }

  lemma DivisionIs(n: nat, d: nat, q: nat, r: nat)
    requires d > 0 && n == d * q + r && r < d
    ensures n / d == q
  {
    if n / d < q {
      MultiplyLess(d, n / d, q);
    } else if q < n / d {
      MultiplyLess(d, q, n / d);
    }
  }

  lemma {:induction false} MultiplyLess(d: nat, x: nat, y: nat)
    requires x < y
    ensures d * x + d <= d * y
  {
    assert d * y == d * (y - 1) + d;
    if x < y - 1 {
      MultiplyLess(d, x, y - 1);
    }
  }

  /** A bit of the exclusive or is set exactly if the two bits differ. */
  lemma {:induction false} XorBits(a: nat, b: nat, k: nat)
    ensures Bit(Xor(a, b), k) == 1 <==> Bit(a, k) != Bit(b, k)
  {
    assert Xor(a, b) / 2 == Xor(a / 2, b / 2);
    if k > 0 {
      BitOfHalf(Xor(a, b), k);
      BitOfHalf(a, k);
      BitOfHalf(b, k);
      XorBits(a / 2, b / 2, k - 1);
    } else {
      assert Power2(0) == 1;
    }
  }

  /** Numbers below 2^n are determined by their lowest n bits. */
  lemma {:induction false} BitsDetermine(a: nat, b: nat, n: nat)
    requires a < Power2(n) && b < Power2(n) && forall k: nat :: k < n ==> Bit(a, k) == Bit(b, k)
    ensures a == b
  {
    if n > 0 {
      assert Power2(0) == 1 && Bit(a, 0) == Bit(b, 0);
      forall k: nat | k < n - 1
        ensures Bit(a / 2, k) == Bit(b / 2, k)
      {
        BitOfHalf(a, k + 1);
        BitOfHalf(b, k + 1);
      }
      BitsDetermine(a / 2, b / 2, n - 1);
    }
  }

  // ---------- checksum ----------

  /** The number of words with bit k set. */
  function WordsWithBit(ws: seq<Word>, k: nat): nat {
    if ws == [] then 0 else Bit(ws[0], k) + WordsWithBit(ws[1..], k)
  }

  lemma {:induction false} OneMoreWithBit(ws: seq<Word>, k: nat)
    requires ws != []
    ensures WordsWithBit(ws, k) == WordsWithBit(ws[..|ws| - 1], k) + Bit(ws[|ws| - 1], k)
  {
    if |ws| > 1 {
      OneMoreWithBit(ws[1..], k);
      assert ws[1..][..|ws| - 2] == ws[..|ws| - 1][1..];
    }
  }

  /** Every bit says whether an odd number of the words has it. */
  ghost predicate IsParity(checksum: nat, ws: seq<Word>) {
    forall k: nat :: Bit(checksum, k) == WordsWithBit(ws, k) % 2
  }

  lemma {:induction false} ChecksumBit(ws: seq<Word>, k: nat)
    ensures Bit(Checksum(ws), k) == WordsWithBit(ws, k) % 2
  {
    if ws == [] {
      assert 0 / Power2(k) == 0;
    } else {
      var init, w := ws[..|ws| - 1], ws[|ws| - 1];
      ChecksumBit(init, k);
      OneMoreWithBit(ws, k);
      XorBits(Checksum(init), w, k);
      Parity(Bit(Checksum(init), k), Bit(w, k), WordsWithBit(init, k), Bit(Checksum(ws), k));
    }
  }

  lemma Parity(a: nat, b: nat, n: nat, x: nat)
    requires a == n % 2 && b <= 1 && x <= 1 && (x == 1 <==> a != b)
    ensures x == (n + b) % 2
  {
  }

  /** The checksum is the one word whose bits are the parities of the words' bits. */
  lemma ChecksumIsParity(ws: seq<Word>, checksum: Word)
    ensures IsParity(checksum, ws) <==> checksum == Checksum(ws)
  {
    forall k: nat
      ensures Bit(Checksum(ws), k) == WordsWithBit(ws, k) % 2
    {
      ChecksumBit(ws, k);
    }
    if IsParity(checksum, ws) {
      Power2Of64();
      forall k: nat | k < 64
        ensures Bit(checksum, k) == Bit(Checksum(ws), k)
      {
      }
      BitsDetermine(checksum, Checksum(ws), 64);
    }
  }

  function Checksum(ws: seq<Word>): Word {
    if ws == [] then 0
    else
      XorOfWords(Checksum(ws[..|ws| - 1]), ws[|ws| - 1]);
      Xor(Checksum(ws[..|ws| - 1]), ws[|ws| - 1])
  }

  /** The checksum loop over the words from `start` up to `end`. */
  method CalculateChecksum(buffer: array<Word>, start: nat, end: nat) returns (checksum: Word)
    requires start <= end <= buffer.Length
    ensures checksum == Checksum(buffer[start..end]) && IsParity(checksum, buffer[start..end])
  {
    checksum := 0;
    for i := start to end
      invariant checksum == Checksum(buffer[start..i])
    {
      XorOfWords(checksum, buffer[i]);
      checksum := Xor(checksum, buffer[i]);
      assert buffer[start..i + 1][..i - start] == buffer[start..i];
    }
    ChecksumIsParity(buffer[start..end], checksum);
  }

  /** Changing exactly one word changes the checksum. */
  lemma {:induction false} ChecksumDetectsOneWord(ws: seq<Word>, i: nat, w: Word)
    requires i < |ws| && ws[i] != w
    ensures Checksum(ws[i := w]) != Checksum(ws)
  {
    var n := |ws| - 1;
    var vs := ws[i := w];
    if i == n {
      assert vs[..n] == ws[..n];
      if Checksum(vs) == Checksum(ws) {
        XorInjective(vs[n], ws[n], Checksum(ws[..n]));
      }
    } else {
      assert vs[..n] == ws[..n][i := w];
      ChecksumDetectsOneWord(ws[..n], i, w);
      if Checksum(vs) == Checksum(ws) {
        XorInjective(Checksum(vs[..n]), Checksum(ws[..n]), ws[n]);
      }
    }
  }

  lemma {:induction false} ChecksumOfZeros(ws: seq<Word>)
    requires forall i :: 0 <= i < |ws| ==> ws[i] == 0
    ensures Checksum(ws) == 0
  {
    if ws != [] {
      ChecksumOfZeros(ws[..|ws| - 1]);
    }
  }
}
