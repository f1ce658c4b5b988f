/** The 64-bit words of a grid function and the two operations the checksum
    applies to them: rotation by whole bytes and exclusive or
    (ReadWriteDiagnostics.cc lines 183-190).

    A word is an `unsigned long` of an LP64 platform, that is a natural
    number below 2^64. The operations are written arithmetically: a shift
    left by `8n` bits that drops the bits pushed out is a multiplication of
    the low part by 256^n, a shift right is a division, and exclusive or
    works one binary digit at a time. */
module Words {

  /** 2^64, one more than the largest `unsigned long`. */
  const WORDS: nat := 0x1_0000_0000_0000_0000

  type Word = w: nat | w < 0x1_0000_0000_0000_0000

  /** 256^n, the weight of byte `n` of a word, for `n` up to 8. */
  function Place(n: nat): (p: nat)
    requires n <= 8
    ensures p > 0
  {
    [0x1, 0x100, 0x1_0000, 0x100_0000, 0x1_0000_0000, 0x100_0000_0000,
     0x1_0000_0000_0000, 0x100_0000_0000_0000, 0x1_0000_0000_0000_0000][n]
  }

  /** The low `n` bytes and the high `8 - n` bytes of a word together span
      the whole word. */
  lemma PlacesSpan(n: nat)
    requires n <= 8
    ensures Place(8 - n) * Place(n) == WORDS
  {
  }

  lemma MulMono(a: nat, b: nat, c: nat)
    requires a <= b
    ensures a * c <= b * c
  {
  }

  /** A multiple of `d` strictly between `-d` and `d` is zero. */
  lemma MulLess(q: int, d: int)
    requires d > 0 && -d < q * d < d
    ensures q == 0
  {
    if q > 0 {
      MulMono(1, q, d);
    }
  }

  /** Quotient and remainder are unique. */
  lemma DivModUnique(x: nat, d: nat, q: nat, r: nat)
    requires r < d && x == q * d + r
    ensures x / d == q && x % d == r
  {
    var q', r' := x / d, x % d;
    assert (q - q') * d == r' - r;
    MulLess(q - q', d);
  }

  /** The high part of a number below `A * B`, in units of `A`, is below
      `B`. */
  lemma HighBelow(w: nat, A: nat, B: nat)
    requires A > 0 && w < A * B
    ensures w / A < B
  {
    if w / A >= B {
      MulMono(B, w / A, A);
    }
  }

  /** Exchanging the high part (in units of `A`) and the low part of a
      number below `A * B` gives a number below `A * B` whose own high and
      low parts (now in units of `B`) are the old low and high parts. */
  lemma Swap(w: nat, A: nat, B: nat)
    requires A > 0 && B > 0 && w < A * B
    ensures var v := (w % A) * B + w / A;
            v < A * B && v / B == w % A && v % B == w / A
  {
    var h, l := w / A, w % A;
    HighBelow(w, A, B);
    MulMono(l, A - 1, B);
    assert (A - 1) * B + B == A * B;
    DivModUnique(l * B + h, B, l, h);
  }

  /** Rotation left by `n` bytes (line 186): `(w << 8n) | (w >> (64 - 8n))`.
      The left shift keeps the low `8 - n` bytes of `w` and moves them up by
      `n` bytes; the right shift brings the high `n` bytes down. The two
      parts occupy disjoint bits, so their OR is their sum. For `n == 0` the
      source shifts right by 64 bits, which C++ leaves undefined; the model
      takes that shift to give 0, so the rotation by 0 bytes is the
      identity. */
  function Rot(w: Word, n: nat): (r: Word)
    requires n < 8
    ensures r / Place(n) == w % Place(8 - n)
    ensures r % Place(n) == w / Place(8 - n)
  {
    var A, B := Place(8 - n), Place(n);
    PlacesSpan(n);
    Swap(w, A, B);
    (w % A) * B + w / A
  }

  /** Rotation right by `n` bytes. */
  function Unrot(v: nat, n: nat): nat
    requires n < 8
  {
    (v % Place(n)) * Place(8 - n) + v / Place(n)
  }

  /** The rotation loses no information: rotating back restores the word. */
  lemma RotInverse(w: Word, n: nat)
    requires n < 8
    ensures Unrot(Rot(w, n), n) == w
  {
    var A, B := Place(8 - n), Place(n);
    var r := Rot(w, n);
    assert w == (w / A) * A + w % A;
  }

  /** Two different words rotate to two different words, so a changed cell
      always changes its rotated contribution. */
  lemma RotInjective(a: Word, b: Word, n: nat)
    requires n < 8
    requires a != b
    ensures Rot(a, n) != Rot(b, n)
  {
    RotInverse(a, n);
    RotInverse(b, n);
  }

  /** Bitwise exclusive or, one binary digit at a time from the lowest. */
  function Xor(a: nat, b: nat): nat
    decreases a + b
  {
    if a == 0 && b == 0 then 0
    else 2 * Xor(a / 2, b / 2) + (if a % 2 == b % 2 then 0 else 1)
  }

  /** Each binary digit of `Xor(a, b)` is set exactly when the digits of `a`
      and `b` in that place differ. */
  lemma XorDigits(a: nat, b: nat)
    ensures Xor(a, b) % 2 == 1 <==> a % 2 != b % 2
    ensures Xor(a, b) / 2 == Xor(a / 2, b / 2)
  {
  }

  lemma {:induction false} XorZero(a: nat)
    ensures Xor(a, 0) == a && Xor(0, a) == a
    decreases a
  {
    if a > 0 {
      XorZero(a / 2);
    }
  }

  lemma {:induction false} XorSelf(a: nat)
    ensures Xor(a, a) == 0
    decreases a
  {
    if a > 0 {
      XorSelf(a / 2);
    }
  }

  lemma {:induction false} XorComm(a: nat, b: nat)
    ensures Xor(a, b) == Xor(b, a)
    decreases a + b
  {
    if a != 0 || b != 0 {
      XorComm(a / 2, b / 2);
    }
  }

  /** Two naturals with the same lowest binary digit and the same remaining
      digits are equal. */
  lemma SameDigits(x: nat, y: nat)
    requires x / 2 == y / 2 && x % 2 == y % 2
    ensures x == y
  {
  }

  lemma {:induction false} XorAssoc(a: nat, b: nat, c: nat)
    ensures Xor(Xor(a, b), c) == Xor(a, Xor(b, c))
    decreases a + b + c
  {
    if a + b + c > 0 {
      XorAssoc(a / 2, b / 2, c / 2);
      XorDigits(a, b);
      XorDigits(b, c);
      XorDigits(Xor(a, b), c);
      XorDigits(a, Xor(b, c));
      SameDigits(Xor(Xor(a, b), c), Xor(a, Xor(b, c)));
    }
  }

  /** XOR-ing the same word in twice cancels it. */
  lemma XorUndo(a: nat, x: nat)
    ensures Xor(Xor(a, x), x) == a
  {
    XorAssoc(a, x, x);
    XorSelf(x);
    XorZero(a);
  }

  /** 2^k. */
  function Pow2(k: nat): (p: nat)
    ensures p > 0
  {
    if k == 0 then 1 else 2 * Pow2(k - 1)
  }

  lemma Pow2Byte(k: nat)
    ensures Pow2(k + 8) == 256 * Pow2(k)
  {
    assert Pow2(k + 8) == 2 * Pow2(k + 7) == 4 * Pow2(k + 6) == 8 * Pow2(k + 5) == 16 * Pow2(k + 4)
        == 32 * Pow2(k + 3) == 64 * Pow2(k + 2) == 128 * Pow2(k + 1);
  }

  lemma Pow2Word()
    ensures Pow2(64) == WORDS
  {
    Pow2Byte(0); Pow2Byte(8); Pow2Byte(16); Pow2Byte(24);
    Pow2Byte(32); Pow2Byte(40); Pow2Byte(48); Pow2Byte(56);
  }

  /** The XOR of two numbers of `k` binary digits has at most `k` digits. */
  lemma {:induction false} XorBelowPow2(a: nat, b: nat, k: nat)
    requires a < Pow2(k) && b < Pow2(k)
    ensures Xor(a, b) < Pow2(k)
    decreases k
  {
    if k > 0 && (a != 0 || b != 0) {
      XorBelowPow2(a / 2, b / 2, k - 1);
    }
  }

  /** The XOR of two words is a word: the accumulators of the checksum
      never need more than 64 bits. */
  lemma XorWord(a: Word, b: Word)
    ensures Xor(a, b) < WORDS
  {
    Pow2Word();
    XorBelowPow2(a, b, 64);
  }
}
