/** The checksum as the standard defines it: division by x^16 + x^15 + x^2 + 1 over the
    field of two elements (appendix section 6.2.2 of "MODBUS over Serial Line V1.02").

    A register is read as a polynomial of degree below 16 with its lowest bit as the
    coefficient of x^15; in this order the shift to the right of the source is a
    multiplication by x, and the constant 0xA001 is the generator without x^16. */
module CrcPolynomial {
  import opened Words
  import opened Crc16

  // ---- Polynomials over the field of two elements, the highest coefficient first ----

  function Zeros(n: nat): (r: seq<bool>)
    ensures |r| == n && forall i :: 0 <= i < n ==> !r[i]
  {
    seq(n, _ => false)
  }

  function Add(p: seq<bool>, q: seq<bool>): (r: seq<bool>)
    requires |p| == |q|
    ensures |r| == |p| && forall i :: 0 <= i < |r| ==> r[i] == (p[i] != q[i])
  {
    seq(|p|, i requires 0 <= i < |p| => p[i] != q[i])
  }

  function Scale(b: bool, p: seq<bool>): (r: seq<bool>)
    ensures |r| == |p| && forall i :: 0 <= i < |r| ==> r[i] == (b && p[i])
  {
    seq(|p|, i requires 0 <= i < |p| => b && p[i])
  }

  /** The product: the leading coefficient times the other factor, plus the rest times it. */
  function Mul(p: seq<bool>, q: seq<bool>): (r: seq<bool>)
    requires |q| > 0
    ensures |r| == |p| + |q| - 1
    decreases |p|
  {
    if p == [] then Zeros(|q| - 1)
    else Add(Scale(p[0], q) + Zeros(|p| - 1), [false] + Mul(p[1..], q))
  }

  /** Coefficients of x^15 down to x^0 of x^15 + x^2 + 1, which x^16 equals modulo the generator. */
  const LOW_PART: seq<bool> :=
    [true, false, false, false, false, false, false, false, false, false, false, false, false, true, false, true]

  /** x^16 + x^15 + x^2 + 1 */
  const GENERATOR: seq<bool> := [true] + LOW_PART

  /** What a message is divided for: the message times x^16, plus the preset moved in front of it. */
  function Dividend(preset: seq<bool>, message: seq<bool>): seq<bool>
    requires |preset| == 16
  {
    Add(message + Zeros(16), preset + Zeros(|message|))
  }

  /** The division equation of a quotient and a remainder of degree below 16. */
  predicate Divides(preset: seq<bool>, message: seq<bool>, quotient: seq<bool>, remainder: seq<bool>)
    requires |preset| == 16
  {
    |quotient| == |message| && |remainder| == 16 &&
    Dividend(preset, message) == Add(Mul(quotient, GENERATOR), Zeros(|message|) + remainder)
  }

  // ---- Long division ----

  /** Multiplication by x modulo the generator. */
  function TimesX(p: seq<bool>): (r: seq<bool>)
    requires |p| == 16
    ensures |r| == 16
  {
    seq(16, i requires 0 <= i < 16 => (if i < 15 then p[i + 1] else false) != (p[0] && LOW_PART[i]))
  }

  function Fed(r: seq<bool>, b: bool): (s: seq<bool>)
    requires |r| == 16
    ensures |s| == 16
  {
    r[0 := r[0] != b]
  }

  /** One message coefficient at a time: r becomes (r + b x^15) x modulo the generator. */
  function Remainder(r: seq<bool>, message: seq<bool>): (s: seq<bool>)
    requires |r| == 16
    ensures |s| == 16
    decreases |message|
  {
    if message == [] then r else Remainder(TimesX(Fed(r, message[0])), message[1..])
  }

  function Quotient(r: seq<bool>, message: seq<bool>): (q: seq<bool>)
    requires |r| == 16
    ensures |q| == |message|
    decreases |message|
  {
    if message == [] then [] else [Fed(r, message[0])[0]] + Quotient(TimesX(Fed(r, message[0])), message[1..])
  }

  /** Multiplying by x raises the degree and subtracts the generator if the leading coefficient was one. */
  lemma TimesXReduces(p: seq<bool>)
    requires |p| == 16
    ensures p + [false] == Add([false] + TimesX(p), Scale(p[0], GENERATOR))
  {
    var r := Add([false] + TimesX(p), Scale(p[0], GENERATOR));
    forall i | 0 <= i < 17 ensures (p + [false])[i] == r[i] {
      if i > 0 {
        assert GENERATOR[i] == LOW_PART[i - 1];
      }
    }
  }

  /** One step of the division, on the dividend. */
  lemma DividendStep(r: seq<bool>, message: seq<bool>)
    requires |r| == 16 && message != []
    ensures var fed, rest := Fed(r, message[0]), message[1..];
            Dividend(r, message) ==
            Add([false] + Dividend(TimesX(fed), rest), Scale(fed[0], GENERATOR) + Zeros(|rest|))
  {
    var fed, rest := Fed(r, message[0]), message[1..];
    var n := |rest|;
    TimesXReduces(fed);
    var left := Dividend(r, message);
    var right := Add([false] + Dividend(TimesX(fed), rest), Scale(fed[0], GENERATOR) + Zeros(n));
    assert |left| == |right| == n + 17;
    forall i | 0 <= i < n + 17 ensures left[i] == right[i] {
      DividendAt(r, message, i);
      if i > 0 { DividendAt(TimesX(fed), rest, i - 1); }
      if i < 17 {
        assert (fed + [false])[i] == (([false] + TimesX(fed))[i] != Scale(fed[0], GENERATOR)[i]);
      }
    }
  }

  lemma DividendAt(r: seq<bool>, message: seq<bool>, i: nat)
    requires |r| == 16 && i < |message| + 16
    ensures |Dividend(r, message)| == |message| + 16
    ensures Dividend(r, message)[i] == ((i < |message| && message[i]) != (i < 16 && r[i]))
  {}

  /** Long division satisfies the division equation. */
  lemma {:induction false} LongDivision(r: seq<bool>, message: seq<bool>)
    requires |r| == 16
    ensures Divides(r, message, Quotient(r, message), Remainder(r, message))
    decreases |message|
  {
    if message == [] {
      assert Mul([], GENERATOR) == Zeros(16);
      assert Dividend(r, []) == Add(Zeros(16), Zeros(0) + r);
    } else {
      var fed, rest := Fed(r, message[0]), message[1..];
      LongDivision(TimesX(fed), rest);
      DividendStep(r, message);
      Assemble(fed[0], Quotient(TimesX(fed), rest), Remainder(r, message), Dividend(TimesX(fed), rest), GENERATOR);
    }
  }

  lemma Regroup(a: seq<bool>, m: seq<bool>, z: seq<bool>)
    requires |m| == |z| && |a| == |m| + 1
    ensures Add([false] + Add(m, z), a) == Add(Add(a, [false] + m), [false] + z)
  {
    var left, right := Add([false] + Add(m, z), a), Add(Add(a, [false] + m), [false] + z);
    forall i | 0 <= i < |a| ensures left[i] == right[i] {
      if i > 0 {
        assert ([false] + Add(m, z))[i] == (m[i - 1] != z[i - 1]);
      }
    }
  }

  lemma Assemble(lead: bool, quotient: seq<bool>, remainder: seq<bool>, dividend: seq<bool>, g: seq<bool>)
    requires |g| == 17 && |remainder| == 16 && |dividend| == |quotient| + 16
    requires dividend == Add(Mul(quotient, g), Zeros(|quotient|) + remainder)
    ensures var n := |quotient|;
            Add([false] + dividend, Scale(lead, g) + Zeros(n)) == Add(Mul([lead] + quotient, g), Zeros(n + 1) + remainder)
  {
    hide Add, Scale;
    var n := |quotient|;
    Regroup(Scale(lead, g) + Zeros(n), Mul(quotient, g), Zeros(n) + remainder);
    assert ([lead] + quotient)[1..] == quotient;
    assert Mul([lead] + quotient, g) == Add(Scale(lead, g) + Zeros(n), [false] + Mul(quotient, g));
    assert Zeros(n + 1) + remainder == [false] + (Zeros(n) + remainder);
  }

  // ---- Division has one result ----

  lemma {:induction false} MulAdds(p: seq<bool>, q: seq<bool>, g: seq<bool>)
    requires |p| == |q| && |g| > 0
    ensures Mul(Add(p, q), g) == Add(Mul(p, g), Mul(q, g))
    decreases |p|
  {
    if p != [] {
      var s := Add(p, q);
      assert s[1..] == Add(p[1..], q[1..]);
      MulAdds(p[1..], q[1..], g);
    }
  }

  /** A multiple of the generator of degree below 16 is zero. */
  lemma {:induction false} SmallMultiple(q: seq<bool>)
    requires Mul(q, GENERATOR)[..|q|] == Zeros(|q|)
    ensures Mul(q, GENERATOR) == Zeros(|q| + 16)
    decreases |q|
  {
    if q != [] {
      var m, rest := Mul(q, GENERATOR), Mul(q[1..], GENERATOR);
      assert m[..|q|][0] == m[0] == q[0];
      assert forall i :: 0 < i < |m| ==> m[i] == rest[i - 1];
      forall i | 0 <= i < |q| - 1 ensures !rest[i] {
        assert m[..|q|][i + 1] == m[i + 1];
      }
      SmallMultiple(q[1..]);
    }
  }

  lemma DivisionUnique(preset: seq<bool>, message: seq<bool>,
                        q: seq<bool>, r: seq<bool>, p: seq<bool>, s: seq<bool>)
    requires |preset| == 16 && Divides(preset, message, q, r) && Divides(preset, message, p, s)
    ensures r == s
  {
    var n, d := |message|, Add(q, p);
    var a, b := Mul(q, GENERATOR), Mul(p, GENERATOR);
    var left, right := Zeros(n) + r, Zeros(n) + s;
    MulAdds(q, p, GENERATOR);
    var m := Mul(d, GENERATOR);
    forall i | 0 <= i < n + 16 ensures m[i] == (left[i] != right[i]) {
      assert Add(a, left)[i] == Add(b, right)[i];
    }
    SmallMultiple(d);
    forall i | 0 <= i < 16 ensures r[i] == s[i] {
      assert left[n + i] == r[i] && right[n + i] == s[i] && !m[n + i];
    }
  }

  // ---- The register of the source ----

  lemma {:induction false} BitsOfXor(a: nat, b: nat, n: nat, i: nat)
    requires i < n
    ensures BitsOf(Xor(a, b), n)[i] == (BitsOf(a, n)[i] != BitsOf(b, n)[i])
    decreases n
  {
    XorDigits(a, b);
    if i > 0 {
      BitsOfXor(a / 2, b / 2, n - 1, i - 1);
    }
  }

  lemma {:induction false} BitsOfHalf(a: nat, n: nat)
    requires n > 0 && a < Pow2(n)
    ensures BitsOf(a / 2, n) == BitsOf(a, n)[1..] + [false]
    decreases n
  {
    if n > 1 {
      BitsOfHalf(a / 2, n - 1);
    }
  }

  lemma {:induction false} BitsOfZero(n: nat)
    ensures BitsOf(0, n) == seq(n, _ => false)
  {
    if n > 0 {
      BitsOfZero(n - 1);
    }
  }

  lemma BitsOfOdd(half: nat, n: nat)
    ensures BitsOf(2 * half + 1, n + 1) == [true] + BitsOf(half, n)
  {
    var w := 2 * half + 1;
    assert w / 2 == half && w % 2 == 1;
  }

  lemma BitsOfFive(five: nat)
    requires five == 5
    ensures BitsOf(five, 3) == [true, false, true]
  {
    var two, one := five / 2, five / 4;
    assert BitsOf(one, 1) == [true] + BitsOf(one / 2, 0);
    assert BitsOf(two, 2) == [false] + BitsOf(one, 1);
    assert BitsOf(five, 3) == [true] + BitsOf(two, 2);
  }

  lemma BitsOfShiftedFive(five: nat, n: nat)
    requires five == 5
    ensures BitsOf(Pow2(n) * five, n + 3) == seq(n, _ => false) + [true, false, true]
  {
    BitsOfFive(five);
    BitsOfZero(n);
    BitsOfJoin(0, five, n, 3);
  }

  lemma PolynomialFactors()
    ensures POLYNOMIAL == 2 * (Pow2(12) * 5) + 1
  {
    assert Pow2(4) == 16 && Pow2(8) == 256 && Pow2(12) == 4096;
  }

  lemma LowPartParts()
    ensures LOW_PART == [true] + (seq(12, _ => false) + [true, false, true])
  {}

  /** The constant of the source is the generator without x^16. */
  lemma PolynomialIsLowPart(polynomial: nat)
    requires polynomial == POLYNOMIAL
    ensures BitsOf(polynomial, 16) == LOW_PART
  {
    PolynomialFactors();
    LowPartParts();
    BitsOfShiftedFive(5, 12);
    BitsOfOdd(Pow2(12) * 5, 15);
  }

  /** One step of the register multiplies by x. */
  lemma BitStepIsTimesX(crc: word)
    ensures BitsOf(BitStep(crc), 16) == TimesX(BitsOf(crc, 16))
  {
    PowersOfTwo();
    BitsOfHalf(crc, 16);
    var polynomial: nat := POLYNOMIAL;
    PolynomialIsLowPart(polynomial);
    var p := BitsOf(crc, 16);
    assert p[0] == (crc % 2 == 1);
    forall i | 0 <= i < 16 ensures BitsOf(BitStep(crc), 16)[i] == TimesX(p)[i] {
      BitsOfXor(crc / 2, polynomial, 16, i);
    }
  }

  lemma BitsOfBit(b: bool)
    ensures BitsOf(Bit(b), 16)[0] == b && forall i :: 0 < i < 16 ==> !BitsOf(Bit(b), 16)[i]
  {
    BitsOfZero(15);
    assert BitsOf(Bit(b), 16) == [b] + BitsOf(0, 15);
  }

  lemma FeedBit(crc: word, b: bool)
    ensures BitsOf(XorWord(crc, Bit(b)), 16) == Fed(BitsOf(crc, 16), b)
  {
    BitsOfBit(b);
    forall i | 0 <= i < 16
      ensures BitsOf(XorWord(crc, Bit(b)), 16)[i] == Fed(BitsOf(crc, 16), b)[i]
    {
      hide BitsOf;
      BitsOfXor(crc, Bit(b), 16, i);
    }
  }

  lemma {:induction false} ShiftIsRemainder(crc: word, message: seq<bool>)
    ensures BitsOf(Shift(crc, message), 16) == Remainder(BitsOf(crc, 16), message)
    decreases |message|
  {
    if message != [] {
      var fed := XorWord(crc, Bit(message[0]));
      FeedBit(crc, message[0]);
      BitStepIsTimesX(fed);
      ShiftIsRemainder(BitStep(fed), message[1..]);
    }
  }

  /** The preset of the standard: sixteen ones. */
  const ONES: seq<bool> := seq(16, _ => true)

  ghost predicate IsRemainder(preset: seq<bool>, message: seq<bool>, remainder: seq<bool>)
    requires |preset| == 16
  {
    exists quotient :: Divides(preset, message, quotient, remainder)
  }

  lemma ChecksumIsLongDivision(data: seq<byte>)
    ensures BitsOf(Checksum(data), 16) == Remainder(ONES, SerialBits(data))
  {
    UpdateIsSerial(INITIAL, data);
    ShiftIsRemainder(INITIAL, SerialBits(data));
    PowersOfTwo();
    AllOnes(16);
  }

  /** The checksum is the remainder of the division by the generator, and nothing else is: the
      dividend, the serial bits times x^16 with sixteen ones added in front, is a multiple of the
      generator plus r, for r of degree below 16, exactly when r is the checksum. */
  lemma ChecksumIsRemainder(data: seq<byte>, r: seq<bool>)
    ensures IsRemainder(ONES, SerialBits(data), r) <==> r == BitsOf(Checksum(data), 16)
  {
    var message := SerialBits(data);
    var quotient, remainder := Quotient(ONES, message), Remainder(ONES, message);
    LongDivision(ONES, message);
    ChecksumIsLongDivision(data);
    if IsRemainder(ONES, message, r) {
      var q :| Divides(ONES, message, q, r);
      DivisionUnique(ONES, message, q, r, quotient, remainder);
    }
  }

  lemma {:induction false} AllOnes(n: nat)
    ensures BitsOf(Pow2(n) - 1, n) == seq(n, _ => true)
    decreases n
  {
    if n > 0 {
      AllOnes(n - 1);
      assert (Pow2(n) - 1) / 2 == Pow2(n - 1) - 1 && (Pow2(n) - 1) % 2 == 1;
    }
  }
}
