/** Unsigned bytes and 16-bit words as numbers, with the exclusive or of C.

    A right shift by one is `/ 2`, the low bit is `% 2`, the low byte is `% 256`:
    on unsigned values these are the C operators themselves. Only `^` needs a
    definition, which is given digit by digit. */
module Words {

  type byte = b: int | 0 <= b < 0x100
  type word = w: int | 0 <= w < 0x1_0000

  function Bit(b: bool): nat { if b then 1 else 0 }

  function Pow2(n: nat): (p: nat)
    ensures p >= 1
  {
    if n == 0 then 1 else 2 * Pow2(n - 1)
  }

  function Xor(a: nat, b: nat): nat
    decreases a + b
  {
    if a + b == 0 then 0
    else 2 * Xor(a / 2, b / 2) + Bit(a % 2 != b % 2)
  }

  lemma XorDigits(a: nat, b: nat)
    ensures Xor(a, b) / 2 == Xor(a / 2, b / 2)
    ensures Xor(a, b) % 2 == Bit(a % 2 != b % 2)
  {}

  lemma {:induction false} XorBound(a: nat, b: nat, n: nat)
    requires a < Pow2(n) && b < Pow2(n)
    ensures Xor(a, b) < Pow2(n)
  {
    if n > 0 {
      XorBound(a / 2, b / 2, n - 1);
    }
  }

  function XorWord(a: word, b: word): (r: word)
    ensures r == Xor(a, b)
  {
    assert Pow2(8) == 0x100 && Pow2(12) == 0x1000 && Pow2(16) == 0x1_0000;
    XorBound(a, b, 16);
    Xor(a, b)
  }

  function XorByte(a: byte, b: byte): (r: byte)
    ensures r == Xor(a, b)
  {
    assert Pow2(4) == 0x10 && Pow2(8) == 0x100;
    XorBound(a, b, 8);
    Xor(a, b)
  }

  lemma {:induction false} XorComm(a: nat, b: nat)
    ensures Xor(a, b) == Xor(b, a)
    decreases a + b
  {
    if a + b > 0 { XorComm(a / 2, b / 2); }
  }

  lemma {:induction false} XorUnit(a: nat)
    ensures Xor(a, 0) == a
  {
    if a > 0 { XorUnit(a / 2); }
  }

  lemma {:induction false} XorAssoc(a: nat, b: nat, c: nat)
    ensures Xor(Xor(a, b), c) == Xor(a, Xor(b, c))
    decreases a + b + c
  {
    if a + b + c > 0 {
      XorAssoc(a / 2, b / 2, c / 2);
      XorDigits(a, b);
      XorDigits(b, c);
      XorDigits(Xor(a, b), c);
      XorDigits(a, Xor(b, c));
    }
  }

  /** Two words differ exactly where their exclusive or is not zero. */
  lemma {:induction false} XorZero(a: nat, b: nat)
    ensures Xor(a, b) == 0 <==> a == b
    decreases a + b
  {
    if a + b > 0 { XorZero(a / 2, b / 2); }
  }

  lemma XorSwap(a: nat, b: nat, c: nat, d: nat)
    ensures Xor(Xor(a, b), Xor(c, d)) == Xor(Xor(a, c), Xor(b, d))
  {
    XorAssoc(a, b, Xor(c, d));
    XorAssoc(b, c, d);
    XorComm(b, c);
    XorAssoc(c, b, d);
    XorAssoc(a, c, Xor(b, d));
  }

  lemma XorRight(a: nat, b: nat, c: nat)
    ensures Xor(Xor(a, b), c) == Xor(Xor(a, c), b)
  {
    XorAssoc(a, b, c);
    XorComm(b, c);
    XorAssoc(a, c, b);
  }

  // ---- Parity ----

  /** Whether the number of one bits is odd. */
  predicate OddWeight(a: nat) {
    a > 0 && ((a % 2 == 1) != OddWeight(a / 2))
  }

  lemma {:induction false} OddWeightXor(a: nat, b: nat)
    ensures OddWeight(Xor(a, b)) == (OddWeight(a) != OddWeight(b))
    decreases a + b
  {
    if a + b > 0 {
      XorDigits(a, b);
      OddWeightXor(a / 2, b / 2);
    }
  }

  lemma {:induction false} OddWeightShifted(a: nat, n: nat)
    ensures OddWeight(a * Pow2(n)) == OddWeight(a)
  {
    if n > 0 {
      var b := a * Pow2(n - 1);
      assert a * Pow2(n) == 2 * b;
      OddWeightShifted(a, n - 1);
    }
  }

  lemma OddWeightStep(p: nat)
    requires p >= 1
    ensures OddWeight(2 * p - 1) == !OddWeight(p - 1)
  {
    assert (2 * p - 1) / 2 == p - 1 && (2 * p - 1) % 2 == 1;
  }

  lemma {:induction false} OddWeightOnes(n: nat)
    ensures OddWeight(Pow2(n) - 1) == (n % 2 == 1)
  {
    if n > 0 {
      OddWeightOnes(n - 1);
      OddWeightStep(Pow2(n - 1));
    }
  }

  // ---- Masking ----

  function And(a: nat, b: nat): nat
    decreases a + b
  {
    if a == 0 || b == 0 then 0
    else 2 * And(a / 2, b / 2) + Bit(a % 2 == 1 && b % 2 == 1)
  }

  lemma MaskStep(a: nat, p: nat)
    requires p > 0 && And(a / 2, p - 1) == (a / 2) % p
    ensures And(a, 2 * p - 1) == a % (2 * p)
  {
    RemainderDigits(a, p);
    MaskDigits(a, p);
  }

  /** Masking with a power of two less one is the remainder. */
  lemma {:induction false} MaskIsRemainder(a: nat, k: nat)
    ensures And(a, Pow2(k) - 1) == a % Pow2(k)
    decreases k
  {
    if k > 0 {
      MaskIsRemainder(a / 2, k - 1);
      MaskStep(a, Pow2(k - 1));
    }
  }

  lemma MaskDigits(a: nat, p: nat)
    requires p > 0
    ensures And(a, 2 * p - 1) == 2 * And(a / 2, p - 1) + a % 2
  {
    assert (2 * p - 1) / 2 == p - 1 && (2 * p - 1) % 2 == 1;
  }

  lemma RemainderDigits(a: nat, p: nat)
    requires p > 0
    ensures a % (2 * p) == 2 * ((a / 2) % p) + a % 2
  {
    var q, r := a / 2 / p, a / 2 % p;
    assert a / 2 == p * q + r;
    assert a == (2 * p) * q + (2 * r + a % 2);
    RemainderUnique(2 * p, q, 2 * r + a % 2);
  }

  lemma {:induction false} MultiplesApart(n: nat, p: nat, q: nat)
    ensures p < q ==> n * p + n <= n * q
    decreases q
  {
    if p < q {
      assert n * q == n * (q - 1) + n;
      MultiplesApart(n, p, q - 1);
    }
  }

  lemma RemainderUnique(n: nat, q: nat, r: nat)
    requires r < n
    ensures (n * q + r) % n == r
  {
    var a := n * q + r;
    var p, t := a / n, a % n;
    assert a == n * p + t;
    MultiplesApart(n, p, q);
    MultiplesApart(n, q, p);
  }

  /** Indices closer than `n` fall into different slots of a ring of `n`. */
  lemma RingDistinct(i: nat, j: nat, n: nat)
    requires i < j < i + n
    ensures i % n != j % n
  {
    MultiplesApart(n, i / n, j / n);
    MultiplesApart(n, j / n, i / n);
    QuotientRemainder(i, n);
    QuotientRemainder(j, n);
  }

  lemma QuotientRemainder(a: nat, n: nat)
    requires n > 0
    ensures a == n * (a / n) + a % n && a % n < n
  {}

  lemma RingSuccessor(i: nat, n: nat)
    requires n > 0
    ensures (i % n + 1) % n == (i + 1) % n
  {
    RingOffset(i, 1, n);
  }

  lemma RingOffset(i: nat, d: nat, n: nat)
    requires n > 0
    ensures (i % n + d) % n == (i + d) % n
  {
    var q, r := (i % n + d) / n, (i % n + d) % n;
    assert i + d == n * (i / n + q) + r;
    RemainderUnique(n, i / n + q, r);
  }
}
