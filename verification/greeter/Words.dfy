/**
 256-bit words as natural numbers, the bit operations on them, and big-endian bytes.
 */
module Words {
  import opened Common

  const WORD_BYTES: nat := 32

  /** 2 to the power 256. */
  const WORD_LIMIT: nat := 0x1_0000_0000_0000_0000_0000_0000_0000_0000_0000_0000_0000_0000_0000_0000_0000_0000

  const MAX_WORD: nat := WORD_LIMIT - 1

  function Pow2(n: nat): (r: nat)
    ensures r > 0
  {
    if n == 0 then 1 else 2 * Pow2(n - 1)
  }

  lemma WordLimitIsPower(n: nat)
    requires n == 256
    ensures Pow2(n) == WORD_LIMIT
  {
    assert Pow2(8) == 256;
    SquarePower(8, 256);
    SquarePower(16, 0x1_0000);
    SquarePower(32, 0x1_0000_0000);
    SquarePower(64, 0x1_0000_0000_0000_0000);
    SquarePower(128, 0x1_0000_0000_0000_0000_0000_0000_0000_0000);
  }

  lemma SquarePower(n: nat, p: nat)
    requires Pow2(n) == p
    ensures Pow2(2 * n) == p * p
  {
    Pow2Add(n, n);
  }

  lemma {:induction false} Pow2Add(a: nat, b: nat)
    ensures Pow2(a + b) == Pow2(a) * Pow2(b)
  {
    if b > 0 {
      Pow2Add(a, b - 1);
      calc {
        Pow2(a + b);
        2 * Pow2(a + (b - 1));
        2 * (Pow2(a) * Pow2(b - 1));
        Pow2(a) * (2 * Pow2(b - 1));
        Pow2(a) * Pow2(b);
      }
    }
  }

  // ---------- Operations ----------

  /** Addition modulo 2^256. */
  function Add(a: nat, b: nat): nat
    requires a < WORD_LIMIT && b < WORD_LIMIT
  {
    if a + b < WORD_LIMIT then a + b else a + b - WORD_LIMIT
  }

  function Not(x: nat): nat
    requires x < WORD_LIMIT
  {
    MAX_WORD - x
  }

  function Shl(bits: nat, x: nat): nat {
    (x * Pow2(bits)) % WORD_LIMIT
  }

  function Shr(bits: nat, x: nat): nat {
    if bits == 0 then x else Shr(bits - 1, x / 2)
  }

  function And(x: nat, y: nat): nat {
    if x == 0 || y == 0 then 0
    else 2 * And(x / 2, y / 2) + (if x % 2 == 1 && y % 2 == 1 then 1 else 0)
  }

  function Or(x: nat, y: nat): nat {
    if x == 0 then y
    else if y == 0 then x
    else 2 * Or(x / 2, y / 2) + (if x % 2 == 1 || y % 2 == 1 then 1 else 0)
  }

  // ---------- Masks ----------

  lemma DoubleProduct(q: nat, p: nat)
    ensures 2 * (q * p) == q * (2 * p)
  {
  }

  lemma HalfModulo(x: nat, k: nat)
    requires k > 0
    ensures x % Pow2(k) == 2 * (x / 2 % Pow2(k - 1)) + x % 2
    ensures x / Pow2(k) == x / 2 / Pow2(k - 1)
  {
    var p := Pow2(k - 1);
    HalfDivision(x, p);
  }

  lemma HalfDivision(x: nat, p: nat)
    requires p > 0
    ensures x % (2 * p) == 2 * (x / 2 % p) + x % 2
    ensures x / (2 * p) == x / 2 / p
  {
    var h := x / 2;
    var q, r := h / p, h % p;
    assert h == q * p + r;
    DoubleProduct(q, p);
    QuotientIsUnique(x, 2 * p, q, 2 * r + x % 2);
  }

  lemma QuotientIsUnique(x: nat, d: nat, q: nat, r: nat)
    requires d > 0 && r < d && x == q * d + r
    ensures x / d == q && x % d == r
  {
    var e := x / d - q;
    assert x == x / d * d + x % d;
    assert e * d == r - x % d;
    MultipleIsFar(e, d);
  }

  lemma MultipleIsFar(e: int, d: nat)
    ensures e > 0 ==> e * d >= d
    ensures e < 0 ==> e * d <= -(d as int)
  {
    if e > 0 {
      assert (e - 1) * d >= 0;
    } else if e < 0 {
      assert (-e - 1) * d >= 0;
    }
  }

  lemma {:induction false} ShrIsQuotient(bits: nat, x: nat)
    ensures Shr(bits, x) == x / Pow2(bits)
  {
    if bits > 0 {
      ShrIsQuotient(bits - 1, x / 2);
      HalfModulo(x, bits);
    }
  }

  /** The k low bits of x, bit by bit. */
  function Low(x: nat, k: nat): nat {
    if k == 0 then 0 else 2 * Low(x / 2, k - 1) + x % 2
  }

  lemma {:induction false} LowIsModulo(x: nat, k: nat)
    ensures Low(x, k) == x % Pow2(k)
  {
    if k > 0 {
      LowIsModulo(x / 2, k - 1);
      HalfModulo(x, k);
    }
  }

  lemma {:induction false} LowOfZero(k: nat)
    ensures Low(0, k) == 0
  {
    if k > 0 {
      LowOfZero(k - 1);
    }
  }

  lemma {:induction false} LowMaskBits(x: nat, k: nat)
    ensures And(x, Pow2(k) - 1) == Low(x, k)
  {
    if k > 0 {
      LowMaskBits(x / 2, k - 1);
      LowOfZero(k);
      assert (Pow2(k) - 1) / 2 == Pow2(k - 1) - 1 && (Pow2(k) - 1) % 2 == 1;
    }
  }

  lemma {:induction false} RangeMaskBits(x: nat, k: nat, n: nat)
    requires k <= n
    ensures Pow2(k) <= Pow2(n) && Low(x, k) <= Low(x, n) && (Pow2(k) == Pow2(n) ==> Low(x, k) == Low(x, n))
    ensures And(x, Pow2(n) - Pow2(k)) == Low(x, n) - Low(x, k)
  {
    LowOfZero(k);
    LowOfZero(n);
    if k == 0 {
      LowMaskBits(x, n);
    } else {
      RangeMaskBits(x / 2, k - 1, n - 1);
      var mask := Pow2(n) - Pow2(k);
      assert mask % 2 == 0 && mask / 2 == Pow2(n - 1) - Pow2(k - 1);
    }
  }

  lemma LowMask(x: nat, k: nat)
    ensures And(x, Pow2(k) - 1) == x % Pow2(k)
  {
    LowMaskBits(x, k);
    LowIsModulo(x, k);
  }

  /** The mask of bits k to n - 1. */
  lemma RangeMask(x: nat, k: nat, n: nat)
    requires k <= n
    ensures Pow2(k) <= Pow2(n)
    ensures And(x, Pow2(n) - Pow2(k)) == x % Pow2(n) - x % Pow2(k)
  {
    RangeMaskBits(x, k, n);
    LowIsModulo(x, k);
    LowIsModulo(x, n);
  }

  /** Or of parts that do not overlap is their sum. */
  lemma {:induction false} DisjointOr(high: nat, low: nat, k: nat)
    requires high % Pow2(k) == 0 && low < Pow2(k)
    ensures Or(high, low) == high + low
  {
    if k > 0 && high > 0 && low > 0 {
      HalfModulo(high, k);
      DisjointOr(high / 2, low / 2, k - 1);
    }
  }

  // ---------- Bytes ----------

  function Zeros(n: nat): (z: Bytes)
    ensures |z| == n && forall i :: 0 <= i < n ==> z[i] == 0
  {
    seq(n, i => 0)
  }

  /** The number a big-endian byte string denotes. */
  function WordOf(bs: Bytes): nat {
    if bs == [] then 0 else WordOf(bs[..|bs| - 1]) * 256 + bs[|bs| - 1] as nat
  }

  /** The n low bytes of a number, most significant first. */
  function BytesOf(x: nat, n: nat): (bs: Bytes)
    ensures |bs| == n
  {
    seq(n, i requires 0 <= i < n => (Shr(8 * (n - 1 - i), x) % 256) as Byte)
  }

  lemma {:induction false} ShrInTwo(a: nat, b: nat, x: nat)
    ensures Shr(a + b, x) == Shr(b, Shr(a, x))
  {
    if a > 0 {
      ShrInTwo(a - 1, b, x / 2);
    }
  }

  lemma ByteShift(x: nat)
    ensures Shr(8, x) == x / 256
  {
    ShrIsQuotient(8, x);
    assert Pow2(8) == 256;
  }

  lemma LowByteLast(x: nat, n: nat)
    requires n > 0
    ensures BytesOf(x, n) == BytesOf(x / 256, n - 1) + [(x % 256) as Byte]
  {
    forall i | 0 <= i < n - 1
      ensures BytesOf(x, n)[i] == BytesOf(x / 256, n - 1)[i]
    {
      ShrInTwo(8, 8 * (n - 2 - i), x);
      ByteShift(x);
      assert 8 * (n - 1 - i) == 8 + 8 * (n - 2 - i);
    }
    assert Shr(0, x) == x;
    assert BytesOf(x, n)[n - 1] == (x % 256) as Byte;
  }

  lemma {:induction false} BytesOfWord(bs: Bytes)
    ensures BytesOf(WordOf(bs), |bs|) == bs
  {
    if bs != [] {
      BytesOfWord(bs[..|bs| - 1]);
      LowByteLast(WordOf(bs), |bs|);
      assert bs == bs[..|bs| - 1] + [bs[|bs| - 1]];
    }
  }

  lemma {:induction false} WordOfBytes(x: nat, n: nat)
    requires x < Pow2(8 * n)
    ensures WordOf(BytesOf(x, n)) == x
  {
    if n > 0 {
      Pow2Add(8 * (n - 1), 8);
      assert Pow2(8) == 256;
      WordOfBytes(x / 256, n - 1);
      LowByteLast(x, n);
      assert BytesOf(x, n)[..n - 1] == BytesOf(x / 256, n - 1);
    }
  }

  lemma {:induction false} WordOfBound(bs: Bytes)
    ensures WordOf(bs) < Pow2(8 * |bs|)
  {
    if bs != [] {
      WordOfBound(bs[..|bs| - 1]);
      Pow2Add(8 * (|bs| - 1), 8);
      assert Pow2(8) == 256;
    }
  }

  lemma TimesByte(a: nat, p: nat, b: nat)
    ensures (a * p + b) * 256 == a * (p * 256) + b * 256
  {
  }

  lemma EightMore(n: nat)
    ensures Pow2(8 * (n + 1)) == Pow2(8 * n) * 256
  {
    Pow2Add(8 * n, 8);
    assert Pow2(8) == 256;
  }

  lemma {:induction false} WordOfAppend(a: Bytes, b: Bytes)
    ensures WordOf(a + b) == WordOf(a) * Pow2(8 * |b|) + WordOf(b)
  {
    if b == [] {
      assert a + b == a;
    } else {
      var b' := b[..|b| - 1];
      WordOfAppend(a, b');
      assert (a + b)[..|a + b| - 1] == a + b';
      EightMore(|b'|);
      TimesByte(WordOf(a), Pow2(8 * |b'|), WordOf(b'));
    }
  }

  lemma {:induction false} WordOfZeros(n: nat)
    ensures WordOf(Zeros(n)) == 0
  {
    if n > 0 {
      assert Zeros(n)[..n - 1] == Zeros(n - 1);
      WordOfZeros(n - 1);
    }
  }

  /** Clearing all but the first n bytes of a word. */
  lemma ClearTail(bs: Bytes, n: nat)
    requires n <= |bs|
    ensures WordOf(bs) - WordOf(bs) % Pow2(8 * (|bs| - n)) == WordOf(bs[..n] + Zeros(|bs| - n))
    ensures WordOf(bs[..n] + Zeros(|bs| - n)) % Pow2(8 * (|bs| - n)) == 0
  {
    var a, b := bs[..n], bs[n..];
    assert bs == a + b;
    var p := Pow2(8 * |b|);
    WordOfAppend(a, b);
    WordOfAppend(a, Zeros(|b|));
    WordOfZeros(|b|);
    WordOfBound(b);
    QuotientIsUnique(WordOf(bs), p, WordOf(a), WordOf(b));
    QuotientIsUnique(WordOf(a + Zeros(|b|)), p, WordOf(a), 0);
  }

  lemma WordBound(bs: Bytes)
    requires |bs| == WORD_BYTES
    ensures WordOf(bs) < WORD_LIMIT
  {
    WordOfBound(bs);
    WordLimitIsPower(8 * |bs|);
  }
}
