/** How far apart two flipped bits may lie: x has order 32767 modulo the generator.

    The generator is (x + 1)(x^15 + x + 1). On registers of even weight, the multiples of
    x + 1, fifteen steps do what x^15 = x + 1 says; squaring that law again and again gives
    every power of two, x^32768 = x among them. The order is then 32767 = 7 * 31 * 151, since
    none of the three largest proper divisors of this number is a period. */
module CrcOrder {
  import opened Words
  import opened Crc16
  import opened CrcPolynomial

  const O := false
  const I := true

  /** The shift register, its lowest bit first. */
  datatype Register = Register(
    b0: bool, b1: bool, b2: bool, b3: bool, b4: bool, b5: bool, b6: bool, b7: bool,
    b8: bool, b9: bool, b10: bool, b11: bool, b12: bool, b13: bool, b14: bool, b15: bool)

  function Plus(r: Register, s: Register): Register {
    Register(
      r.b0 != s.b0, r.b1 != s.b1, r.b2 != s.b2, r.b3 != s.b3, r.b4 != s.b4, r.b5 != s.b5, r.b6 != s.b6, r.b7 != s.b7,
      r.b8 != s.b8, r.b9 != s.b9, r.b10 != s.b10, r.b11 != s.b11,
      r.b12 != s.b12, r.b13 != s.b13, r.b14 != s.b14, r.b15 != s.b15)
  }

  function Tap(r: Register): Register {
    Register(
      r.b1 != r.b0, r.b2, r.b3, r.b4, r.b5, r.b6, r.b7, r.b8,
      r.b9, r.b10, r.b11, r.b12, r.b13, r.b14 != r.b0, r.b15, r.b0)
  }

  function Taps(r: Register, n: nat): Register
    decreases n
  {
    if n == 0 then r else Taps(Tap(r), n - 1)
  }

  // ---- The register of the source ----

  function OfBits(p: seq<bool>): Register
    requires |p| == 16
  {
    Register(p[0], p[1], p[2], p[3], p[4], p[5], p[6], p[7], p[8], p[9], p[10], p[11], p[12], p[13], p[14], p[15])
  }

  function OfWord(crc: word): Register { OfBits(BitsOf(crc, 16)) }

  lemma {:induction false} BitsDetermine(a: nat, b: nat, n: nat)
    requires a < Pow2(n) && b < Pow2(n) && BitsOf(a, n) == BitsOf(b, n)
    ensures a == b
    decreases n
  {
    if n > 0 {
      assert BitsOf(a, n)[0] == BitsOf(b, n)[0];
      assert BitsOf(a, n)[1..] == BitsOf(a / 2, n - 1) && BitsOf(b, n)[1..] == BitsOf(b / 2, n - 1);
      BitsDetermine(a / 2, b / 2, n - 1);
    }
  }

  lemma WordDetermined(a: word, b: word)
    ensures OfWord(a) == OfWord(b) <==> a == b
  {
    PowersOfTwo();
    if OfWord(a) == OfWord(b) {
      var p, q := BitsOf(a, 16), BitsOf(b, 16);
      assert p == q;
      BitsDetermine(a, b, 16);
    }
  }

  lemma LowPartAt(i: nat)
    requires i < 16
    ensures LOW_PART[i] <==> i == 0 || i == 13 || i == 15
  {}

  lemma TapIsTimesX(p: seq<bool>)
    requires |p| == 16
    ensures OfBits(TimesX(p)) == Tap(OfBits(p))
  {
    forall i | 0 <= i < 16
      ensures TimesX(p)[i] == ((i < 15 && p[i + 1]) != (p[0] && (i == 0 || i == 13 || i == 15)))
    {
      LowPartAt(i);
    }
  }

  lemma {:induction false} StepsAreTaps(crc: word, n: nat)
    ensures OfWord(BitSteps(crc, n)) == Taps(OfWord(crc), n)
    decreases n
  {
    if n > 0 {
      BitStepsFront(crc, n - 1);
      BitStepIsTimesX(crc);
      TapIsTimesX(BitsOf(crc, 16));
      StepsAreTaps(BitStep(crc), n - 1);
    }
  }

  // ---- Linear, and reversible ----

  lemma TapLinear(r: Register, s: Register)
    ensures Tap(Plus(r, s)) == Plus(Tap(r), Tap(s))
  {}

  lemma {:induction false} TapsLinear(r: Register, s: Register, n: nat)
    ensures Taps(Plus(r, s), n) == Plus(Taps(r, n), Taps(s, n))
    decreases n
  {
    hide Plus, Tap;
    if n > 0 {
      TapLinear(r, s);
      TapsLinear(Tap(r), Tap(s), n - 1);
    }
  }

  lemma {:induction false} TapsJoin(r: Register, m: nat, n: nat)
    ensures Taps(r, m + n) == Taps(Taps(r, m), n)
    decreases m
  {
    hide Tap;
    if m > 0 { TapsJoin(Tap(r), m - 1, n); }
  }

  lemma TapInjective(r: Register, s: Register)
    requires Tap(r) == Tap(s)
    ensures r == s
  {}

  // ---- The laws of squaring ----

  /** Where x^15 = x + 1: the multiples of x + 1. */
  predicate Reduces(r: Register) { Taps(r, 15) == Plus(Tap(r), r) }

  lemma {:induction false} ReducesOn(r: Register, n: nat)
    requires Reduces(r)
    ensures Reduces(Taps(r, n))
    decreases n
  {
    if n > 0 {
      hide Plus;
      TapsJoin(r, 1, 15);
      TapsJoin(r, 15, 1);
      assert Taps(r, 1) == Taps(Tap(r), 0) == Tap(r);
      TapsLinear(Tap(r), r, 1);
      assert Taps(Tap(r), 1) == Taps(Tap(Tap(r)), 0) == Tap(Tap(r));
      ReducesOn(Tap(r), n - 1);
    }
  }

  /** x^a = x^b + x^c on these registers. */
  ghost predicate Law(a: nat, b: nat, c: nat) {
    forall r :: Reduces(r) ==> Taps(r, a) == Plus(Taps(r, b), Taps(r, c))
  }

  lemma LawShifted(a: nat, b: nat, c: nat, n: nat)
    requires Law(a, b, c)
    ensures Law(n + a, n + b, n + c)
  {
    hide Taps, Plus, Reduces;
    forall r | Reduces(r) ensures Taps(r, n + a) == Plus(Taps(r, n + b), Taps(r, n + c)) {
      ReducesOn(r, n);
      TapsJoin(r, n, a);
      TapsJoin(r, n, b);
      TapsJoin(r, n, c);
    }
  }

  lemma MixedTermsCancel(p: Register, q: Register, s: Register)
    ensures Plus(Plus(p, q), Plus(q, s)) == Plus(p, s)
  {}

  /** (x^b + x^c)^2 = x^2b + x^2c */
  lemma LawSquared(a: nat, b: nat, c: nat)
    requires Law(a, b, c)
    ensures Law(2 * a, 2 * b, 2 * c)
  {
    hide Taps, Plus, Reduces;
    forall r | Reduces(r) ensures Taps(r, 2 * a) == Plus(Taps(r, 2 * b), Taps(r, 2 * c)) {
      var u, v := Taps(r, b), Taps(r, c);
      ReducesOn(r, b);
      ReducesOn(r, c);
      TapsJoin(r, a, a);
      TapsLinear(u, v, a);
      TapsJoin(r, b, b);
      TapsJoin(r, b, c);
      TapsJoin(r, c, b);
      TapsJoin(r, c, c);
      MixedTermsCancel(Taps(r, b + b), Taps(r, b + c), Taps(r, c + c));
    }
  }

  /** Two laws that share a term. */
  lemma LawsMeet(a: nat, b: nat, c: nat, p: nat, q: nat, s: nat)
    requires Law(a, b, c) && Law(b, p, q) && Law(c, q, s)
    ensures Law(a, p, s)
  {
    hide Taps, Plus, Reduces;
    forall r | Reduces(r) ensures Taps(r, a) == Plus(Taps(r, p), Taps(r, s)) {
      MixedTermsCancel(Taps(r, p), Taps(r, q), Taps(r, s));
    }
  }

  lemma LawSwapped(a: nat, b: nat, c: nat)
    requires Law(a, b, c)
    ensures Law(a, c, b)
  {
    hide Taps;
  }

  lemma SmallLaws()
    ensures Law(16, 2, 1) && Law(32, 4, 2) && Law(64, 8, 4) && Law(128, 16, 8)
  {
    hide Reduces, Law;
    LawOfGenerator();
    LawShifted(15, 1, 0, 1);
    LawSquared(16, 2, 1);
    LawSquared(32, 4, 2);
    LawSquared(64, 8, 4);
  }

  lemma LawOfGenerator()
    ensures Law(15, 1, 0)
  {
    forall r | Reduces(r) ensures Taps(r, 15) == Plus(Taps(r, 1), Taps(r, 0)) {
      assert Taps(r, 1) == Taps(Tap(r), 0) == Tap(r);
    }
  }

  lemma LargeLaws()
    ensures Law(512, 8, 2) && Law(1024, 16, 4) && Law(4096, 64, 16) && Law(32768, 2, 16)
  {
    hide Law;
    SmallLaws();
    LawSquared(128, 16, 8);
    LawsMeet(256, 32, 16, 4, 2, 1);
    LawSquared(256, 4, 1);
    LawSquared(512, 8, 2);
    LawSquared(1024, 16, 4);
    LawSquared(2048, 32, 8);
    LawSquared(4096, 64, 16);
    LawSquared(8192, 128, 32);
    LawSquared(16384, 256, 64);
    LawSwapped(512, 8, 2);
    LawSwapped(128, 16, 8);
    LawsMeet(32768, 512, 128, 2, 8, 16);
  }

  // ---- Periods ----

  const PERIOD := 32767

  /** The polynomial x + 1. */
  const START := Register(O, O, O, O, O, O, O, O, O, O, O, O, O, O, I, I)

  /** The polynomial that every step leaves alone. */
  const FIXED := Register(I, O, O, O, O, O, O, O, O, O, O, O, O, O, I, I)

  const ONE := Register(I, O, O, O, O, O, O, O, O, O, O, O, O, O, O, O)

  // Registers on the way, named by their values.
  const R00C0 := Register(O, O, O, O, O, O, I, I, O, O, O, O, O, O, O, O)
  const R12C0 := Register(O, O, O, O, O, O, I, I, O, I, O, O, I, O, O, O)
  const R3FF9 := Register(I, O, O, I, I, I, I, I, I, I, I, I, I, I, O, O)
  const R476C := Register(O, O, I, I, O, I, I, O, I, I, I, O, O, O, I, O)
  const R50C0 := Register(O, O, O, O, O, O, I, I, O, O, O, O, I, O, I, O)
  const R555C := Register(O, O, I, I, I, O, I, O, I, O, I, O, I, O, I, O)
  const R5C00 := Register(O, O, O, O, O, O, O, O, O, O, I, I, I, O, I, O)
  const R5CC0 := Register(O, O, O, O, O, O, I, I, O, O, I, I, I, O, I, O)
  const R7931 := Register(I, O, O, O, I, I, O, O, I, O, O, I, I, I, I, O)

  predicate Returns(n: nat) { Taps(START, n) == START }

  lemma ValuesStart()
    ensures Taps(START, 8) == R00C0 && Taps(R00C0, 7) == Plus(Tap(START), START)
  {}

  lemma StartReduces()
    ensures Reduces(START)
  {
    hide Taps;
    ValuesStart();
    TapsJoin(START, 8, 7);
  }

  /** x^32768 = x, so x^32767 = 1. */
  lemma ReturnsAfterPeriod()
    ensures Returns(PERIOD)
  {
    hide Taps, Plus, Law, Reduces;
    StartReduces();
    SmallLaws();
    LargeLaws();
    var last := Taps(START, PERIOD);
    LawUsed(32768, 2, 16, START);
    LawUsed(16, 2, 1, START);
    CancelTwice(Taps(START, 2), Taps(START, 1));
    OneTap(START);
    TapsJoin(START, PERIOD, 1);
    OneTap(last);
    TapInjective(last, START);
  }

  lemma LawUsed(a: nat, b: nat, c: nat, r: Register)
    requires Law(a, b, c) && Reduces(r)
    ensures Taps(r, a) == Plus(Taps(r, b), Taps(r, c))
  {}

  lemma CancelTwice(p: Register, q: Register)
    ensures Plus(p, Plus(p, q)) == q
  {}

  lemma OneTap(r: Register)
    ensures Taps(r, 1) == Tap(r)
  {
    assert Taps(Tap(r), 0) == Tap(r);
  }

  // ---- No divisor of the period is one ----

  lemma JumpSmall(r: Register)
    requires Reduces(r)
    ensures Taps(r, 16) == Plus(Taps(r, 2), Taps(r, 1))
    ensures Taps(r, 32) == Plus(Taps(r, 4), Taps(r, 2))
    ensures Taps(r, 64) == Plus(Taps(r, 8), Taps(r, 4))
    ensures Taps(r, 128) == Plus(Taps(r, 16), Taps(r, 8))
  {
    hide Taps, Plus, Reduces;
    SmallLaws();
  }

  lemma JumpLarge(r: Register)
    requires Reduces(r)
    ensures Taps(r, 512) == Plus(Taps(r, 8), Taps(r, 2))
    ensures Taps(r, 1024) == Plus(Taps(r, 16), Taps(r, 4))
    ensures Taps(r, 4096) == Plus(Taps(r, 64), Taps(r, 16))
  {
    hide Taps, Plus, Reduces;
    LargeLaws();
  }

  lemma Values217()
    ensures Plus(Plus(Taps(START, 2), Taps(START, 1)), Taps(START, 8)) == R50C0
    ensures Plus(Taps(R50C0, 8), Taps(R50C0, 4)) == R555C
    ensures Plus(Taps(R555C, 2), Taps(R555C, 1)) == R3FF9
    ensures Taps(R3FF9, 9) != START
  {}

  /** 217 = 128 + 64 + 16 + 9 */
  lemma NotBack217()
    ensures !Returns(217)
  {
    hide Taps, Plus, Reduces;
    StartReduces();
    Values217();
    JumpSmall(START);
    ReducesOn(START, 128);
    JumpSmall(R50C0);
    ReducesOn(R50C0, 64);
    JumpSmall(R555C);
    TapsJoin(R555C, 16, 9);
    TapsJoin(R50C0, 64, 25);
    TapsJoin(START, 128, 89);
  }

  lemma Values1057()
    ensures Plus(Plus(Taps(START, 2), Taps(START, 1)), Taps(START, 4)) == R5C00
    ensures Plus(Taps(R5C00, 4), Taps(R5C00, 2)) == R12C0
    ensures Tap(R12C0) != START
  {}

  /** 1057 = 1024 + 32 + 1 */
  lemma NotBack1057()
    ensures !Returns(1057)
  {
    hide Taps, Plus, Tap, Reduces;
    StartReduces();
    Values1057();
    JumpSmall(START);
    JumpLarge(START);
    ReducesOn(START, 1024);
    JumpSmall(R5C00);
    OneTap(R12C0);
    TapsJoin(R5C00, 32, 1);
    TapsJoin(START, 1024, 33);
  }

  lemma Values4681()
    ensures Plus(Plus(Taps(START, 8), Taps(START, 4)), Plus(Taps(START, 2), Taps(START, 1))) == R5CC0
    ensures Plus(Taps(R5CC0, 8), Taps(R5CC0, 2)) == R476C
    ensures Plus(Taps(R476C, 8), Taps(R476C, 4)) == R7931
    ensures Taps(R7931, 9) != START
  {}

  /** 4681 = 4096 + 512 + 64 + 9 */
  lemma NotBack4681()
    ensures !Returns(4681)
  {
    hide Taps, Plus, Reduces;
    StartReduces();
    Values4681();
    JumpSmall(START);
    JumpLarge(START);
    ReducesOn(START, 4096);
    JumpLarge(R5CC0);
    ReducesOn(R5CC0, 512);
    JumpSmall(R476C);
    TapsJoin(R476C, 64, 9);
    TapsJoin(R5CC0, 512, 73);
    TapsJoin(START, 4096, 585);
  }

  // ---- The order ----

  lemma ReturnsSum(m: nat, n: nat)
    requires Returns(m)
    ensures Returns(m + n) <==> Returns(n)
  {
    TapsJoin(START, m, n);
  }

  lemma {:induction false} ReturnsMultiple(n: nat, k: nat)
    requires Returns(n)
    ensures Returns(k * n)
  {
    hide Returns;
    if k == 0 {
      ReturnsNothing();
    } else {
      ReturnsMultiple(n, k - 1);
      ReturnsSum(n, (k - 1) * n);
      assert n + (k - 1) * n == k * n;
    }
  }

  lemma ReturnsNothing()
    ensures Returns(0)
  {}

  predicate Prime(q: nat) { q > 1 && forall r :: 1 < r < q ==> q % r != 0 }

  /** Euclid's algorithm for a prime: every smaller number has an inverse. */
  lemma {:induction false} Inverse(q: nat, r: nat) returns (s: int, t: int)
    requires Prime(q) && 0 < r < q
    ensures s * r == t * q + 1
    decreases r
  {
    if r == 1 {
      s, t := 1, 0;
    } else {
      var d, u := q / r, q % r;
      var s', t' := Inverse(q, u);
      s, t := -s' * d, t' - s';
      InverseStep(q, r, d, u, s', t');
    }
  }

  lemma InverseStep(q: int, r: int, d: int, u: int, s: int, t: int)
    requires q == d * r + u && s * u == t * q + 1
    ensures (-s * d) * r == (t - s) * q + 1
  {
    assert (-s * d) * r == -s * (d * r) == -s * (q - u) == -s * q + s * u;
    assert (t - s) * q == t * q - s * q;
  }

  lemma AtLeast(k: nat, q: nat)
    requires q > 0
    ensures k * q >= k
  {}

  lemma Lifted(q: int, r: int, a: int, b: int, k: int)
    requires a * r == b * q + 1
    ensures (a + k * q) * r == (b + k * r) * q + 1
  {
    assert (k * q) * r == (k * r) * q;
  }

  lemma PositiveInverse(q: nat, r: nat) returns (s: nat, t: nat)
    requires Prime(q) && 0 < r < q
    ensures s * r == t * q + 1
  {
    hide Prime;
    var a, b := Inverse(q, r);
    var k := (if a < 0 then -a else a) + (if b < 0 then -b else b);
    Lifted(q, r, a, b, k);
    AtLeast(k, q);
    AtLeast(k, r);
    s, t := a + k * q, b + k * r;
  }

  /** A period that is no multiple of the prime q makes the q-th part of the period a period. */
  lemma PrimePart(n: nat, q: nat, m: nat)
    requires Prime(q) && q * m == PERIOD && Returns(n) && n % q != 0
    ensures Returns(m)
  {
    hide Returns;
    var s, t := PositiveInverse(q, n % q);
    var d := n / q;
    var k := s * d + t;
    assert s * n == s * (q * d) + s * (n % q) == q * (s * d) + t * q + 1 == k * q + 1 by {
      assert n == q * d + n % q;
      assert s * (q * d) == q * (s * d);
      assert k * q == (s * d) * q + t * q;
    }
    assert m * (s * n) == m * (k * q) + m == k * PERIOD + m by {
      assert m * (k * q) == k * (q * m);
    }
    ReturnsMultiple(n, s);
    ReturnsMultiple(s * n, m);
    ReturnsAfterPeriod();
    ReturnsMultiple(PERIOD, k);
    ReturnsSum(k * PERIOD, m);
  }

  lemma SmallPrimes()
    ensures Prime(7) && Prime(31) && Prime(151)
  {
    forall r | 1 < r < 151 ensures 151 % r != 0 && (r < 31 ==> 31 % r != 0) && (r < 7 ==> 7 % r != 0) {
      NoDivisor(151, r);
      if r < 31 { NoDivisor(31, r); }
      if r < 7 { NoDivisor(7, r); }
    }
  }

  lemma NoSmallDivisor(q: nat, r: nat)
    requires q == 7 || q == 31 || q == 151
    requires 1 < r < q && r <= 12
    ensures q % r != 0
  {}

  /** Of a divisor and its cofactor, one is at most twelve. */
  lemma NoDivisor(q: nat, r: nat)
    requires q == 7 || q == 31 || q == 151
    requires 1 < r < q
    ensures q % r != 0
  {
    if r <= 12 {
      NoSmallDivisor(q, r);
    } else {
      assert q == (q / r) * r + q % r;
    }
  }

  lemma AllThree(n: nat)
    requires n % 7 == 0 && n % 31 == 0 && n % 151 == 0
    ensures n % PERIOD == 0
  {
    CommonMultiple(n, n / 7, n / 31, n / 151);
  }

  lemma CommonMultiple(n: int, a: int, b: int, d: int)
    requires n == 7 * a && n == 31 * b && n == 151 * d
    ensures n == PERIOD * (207 * b - 46 * a - 16 * d)
  {}

  lemma ReturnsExactly(n: nat)
    ensures Returns(n) <==> n % PERIOD == 0
  {
    hide Returns, Prime;
    ReturnsAfterPeriod();
    if n % PERIOD == 0 {
      ReturnsMultiple(PERIOD, n / PERIOD);
    } else {
      SmallPrimes();
      NotBack217();
      NotBack1057();
      NotBack4681();
      if Returns(n) {
        if n % 7 != 0 { PrimePart(n, 7, 4681); }
        if n % 31 != 0 { PrimePart(n, 31, 1057); }
        if n % 151 != 0 { PrimePart(n, 151, 217); }
        AllThree(n);
      }
    }
  }

  lemma {:induction false} FixedStays(n: nat)
    ensures Taps(FIXED, n) == FIXED
  {
    if n > 0 { FixedStays(n - 1); }
  }

  lemma OneIsSum()
    ensures ONE == Plus(START, FIXED) && OfWord(1) == ONE
  {
    BitsOfZero(15);
    assert BitsOf(1, 16) == [true] + BitsOf(0, 15);
  }

  /** The order of x: the register with its lowest bit set comes back after the multiples of 32767
      steps, and after no others. */
  lemma OrderOfX(n: nat)
    ensures BitSteps(1, n) == 1 <==> n % PERIOD == 0
  {
    hide Taps;
    StepsAreTaps(1, n);
    WordDetermined(BitSteps(1, n), 1);
    OneIsSum();
    TapsLinear(START, FIXED, n);
    FixedStays(n);
    ReturnsExactly(n);
  }

  // ---- Two flipped bits ----

  ghost predicate IsPair(bits: seq<bool>, i: nat, j: nat) {
    i < j < |bits| && forall k :: 0 <= k < |bits| ==> (bits[k] <==> k == i || k == j)
  }

  /** Only two bits are flipped, and their distance is no multiple of the period. */
  ghost predicate IsDetectablePair(error: seq<byte>) {
    exists i: nat, j: nat :: IsPair(SerialBits(error), i, j) && (j - i) % PERIOD != 0
  }

  lemma ShiftOne(s: word)
    ensures Shift(s, [true]) == BitStep(XorWord(s, 1))
  {
    assert [true][1..] == [];
  }

  lemma ShiftPair(bits: seq<bool>, i: nat, j: nat)
    requires IsPair(bits, i, j)
    ensures Shift(0, bits) == 0 <==> BitSteps(1, j - i) == 1
  {
    hide Shift;
    var before, between, after := bits[..i], bits[i + 1..j], bits[j + 1..];
    assert bits == before + ([true] + (between + ([true] + after)));
    ShiftConcat(0, before, [true] + (between + ([true] + after)));
    ZerosKeep(0, before);
    ShiftConcat(0, [true], between + ([true] + after));
    ShiftOne(0);
    XorComm(0, 1);
    XorUnit(1);
    var u := BitStep(1);
    ShiftConcat(u, between, [true] + after);
    ShiftZeros(u, between);
    BitStepsFront(1, j - i - 1);
    var v := BitSteps(1, j - i);
    ShiftConcat(v, [true], after);
    ShiftOne(v);
    ZerosKeep(BitStep(XorWord(v, 1)), after);
    BitStepZero(XorWord(v, 1));
    XorZero(v, 1);
  }

  /** In frames of every length, two flipped bits go unnoticed exactly when their distance is a
      multiple of 32767. */
  lemma PairDetectedExactly(frame: seq<byte>, error: seq<byte>, i: nat, j: nat)
    requires Accepts(frame) && |error| == |frame| && IsPair(SerialBits(error), i, j)
    ensures Accepts(XorSeq(frame, error)) <==> (j - i) % PERIOD == 0
  {
    hide Accepts, Shift, SerialBits, XorSeq;
    Syndrome(frame, error);
    ShiftPair(SerialBits(error), i, j);
    OrderOfX(j - i);
  }

  /** In particular never in a frame of at most 4095 bytes. */
  lemma PairDetected(frame: seq<byte>, error: seq<byte>, i: nat, j: nat)
    requires Accepts(frame) && |error| == |frame| <= 4095 && IsPair(SerialBits(error), i, j)
    ensures !Accepts(XorSeq(frame, error))
  {
    hide Accepts, SerialBits, XorSeq;
    PairDetectedExactly(frame, error, i, j);
  }
}
