/** The CRC-16/MODBUS checksum of src/crc16.cpp and its algebra.

    `Update` is the byte-wise register update of the source. `Shift` is the same
    register seen as the serial line sees it: one bit at a time, the least
    significant bit of each byte first (section 2.5.1.2 of "MODBUS over Serial
    Line V1.02"). The algebra is what turns the checksum into guarantees about
    frames that were altered on the line. */
module Crc16 {
  import opened Words

  const POLYNOMIAL: word := 0xA001
  const INITIAL: word := 0xFFFF

  function BitStep(crc: word): word {
    if crc % 2 == 1 then XorWord(crc / 2, POLYNOMIAL) else crc / 2
  }

  function BitSteps(crc: word, n: nat): word {
    if n == 0 then crc else BitStep(BitSteps(crc, n - 1))
  }

  function Absorb(crc: word, b: byte): word {
    BitSteps(XorWord(crc, b), 8)
  }

  function Update(crc: word, data: seq<byte>): word {
    if data == [] then crc
    else Absorb(Update(crc, data[..|data| - 1]), data[|data| - 1])
  }

  function Checksum(data: seq<byte>): word {
    Update(INITIAL, data)
  }

  /** The nested byte and bit loop. */
  method Compute(data: array<byte>, len: nat) returns (crc: word)
    requires len <= data.Length
    ensures crc == Checksum(data[..len])
  {
    crc := INITIAL;
    for i := 0 to len
      invariant crc == Checksum(data[..i])
    {
      assert data[..i + 1][..i] == data[..i];
      crc := XorWord(crc, data[i]);
      ghost var entry := crc;
      for j := 0 to 8
        invariant crc == BitSteps(entry, j)
      {
        if crc % 2 == 1 {
          crc := XorWord(crc / 2, POLYNOMIAL);
        } else {
          crc := crc / 2;
        }
      }
    }
  }

  // ---- Linear and invertible ----

  lemma BitStepLinear(a: word, b: word)
    ensures BitStep(XorWord(a, b)) == XorWord(BitStep(a), BitStep(b))
  {
    hide Xor;
    var p, x, y := POLYNOMIAL, a / 2, b / 2;
    XorDigits(a, b);
    if a % 2 == 1 && b % 2 == 1 {
      XorSwap(x, p, y, p);
      XorZero(p, p);
      XorUnit(Xor(x, y));
    } else if a % 2 == 1 {
      XorAssoc(x, p, y);
      XorComm(p, y);
      XorAssoc(x, y, p);
    } else if b % 2 == 1 {
      XorAssoc(x, y, p);
    }
  }

  lemma {:induction false} BitStepsLinear(a: word, b: word, n: nat)
    ensures BitSteps(XorWord(a, b), n) == XorWord(BitSteps(a, n), BitSteps(b, n))
  {
    if n > 0 {
      BitStepsLinear(a, b, n - 1);
      BitStepLinear(BitSteps(a, n - 1), BitSteps(b, n - 1));
    }
  }

  lemma BitStepZero(crc: word)
    ensures BitStep(crc) == 0 <==> crc == 0
  {
    XorZero(crc / 2, POLYNOMIAL);
  }

  /** The register can be run backwards, so it only empties when it was empty. */
  lemma {:induction false} BitStepsZero(crc: word, n: nat)
    ensures BitSteps(crc, n) == 0 <==> crc == 0
  {
    if n > 0 {
      BitStepsZero(crc, n - 1);
      BitStepZero(BitSteps(crc, n - 1));
    }
  }

  lemma {:induction false} BitStepsFront(crc: word, n: nat)
    ensures BitSteps(crc, n + 1) == BitSteps(BitStep(crc), n)
  {
    if n > 0 {
      BitStepsFront(crc, n - 1);
    }
  }

  function XorSeq(a: seq<byte>, b: seq<byte>): (r: seq<byte>)
    requires |a| == |b|
    ensures |r| == |a| && forall i :: 0 <= i < |r| ==> r[i] == Xor(a[i], b[i])
  {
    seq(|a|, i requires 0 <= i < |a| => XorByte(a[i], b[i]))
  }

  lemma AbsorbLinear(s: word, t: word, a: byte, b: byte)
    ensures Absorb(XorWord(s, t), XorByte(a, b)) == XorWord(Absorb(s, a), Absorb(t, b))
  {
    XorSwap(s, t, a, b);
    BitStepsLinear(XorWord(s, a), XorWord(t, b), 8);
  }

  /** The register update is linear over exclusive or, for messages of every length. */
  lemma {:induction false} UpdateLinear(s: word, t: word, a: seq<byte>, b: seq<byte>)
    requires |a| == |b|
    ensures Update(XorWord(s, t), XorSeq(a, b)) == XorWord(Update(s, a), Update(t, b))
  {
    if a != [] {
      var n := |a| - 1;
      assert XorSeq(a, b)[..n] == XorSeq(a[..n], b[..n]);
      UpdateLinear(s, t, a[..n], b[..n]);
      AbsorbLinear(Update(s, a[..n]), Update(t, b[..n]), a[n], b[n]);
    }
  }

  // ---- The serial view ----

  /** The register fed with one bit after the other. */
  function Shift(crc: word, bits: seq<bool>): word
    decreases |bits|
  {
    if bits == [] then crc
    else Shift(BitStep(XorWord(crc, Bit(bits[0]))), bits[1..])
  }

  /** The low `n` bits of a number, the least significant first. */
  function BitsOf(w: nat, n: nat): (r: seq<bool>)
    ensures |r| == n
  {
    if n == 0 then [] else [w % 2 == 1] + BitsOf(w / 2, n - 1)
  }

  /** The bits of a message in the order in which they travel. */
  function SerialBits(data: seq<byte>): (r: seq<bool>)
    ensures |r| == 8 * |data|
  {
    if data == [] then [] else SerialBits(data[..|data| - 1]) + BitsOf(data[|data| - 1], 8)
  }

  lemma {:induction false} ShiftConcat(s: word, a: seq<bool>, b: seq<bool>)
    ensures Shift(s, a + b) == Shift(Shift(s, a), b)
    decreases |a|
  {
    if a == [] {
      assert a + b == b;
    } else {
      assert (a + b)[1..] == a[1..] + b;
      ShiftConcat(BitStep(XorWord(s, Bit(a[0]))), a[1..], b);
    }
  }

  /** Only the low bit of an added word matters to the next step. */
  lemma BitStepSplit(s: word, w: word)
    ensures BitStep(XorWord(s, w)) == XorWord(BitStep(XorWord(s, w % 2)), w / 2)
  {
    hide Xor;
    XorDigits(s, w);
    XorDigits(s, w % 2);
    XorUnit(s / 2);
    XorRight(s / 2, w / 2, POLYNOMIAL);
  }

  /** Feeding the bits of a word one by one adds the word first and shifts afterwards. */
  lemma {:induction false} ShiftWord(s: word, w: word, n: nat)
    requires w < Pow2(n)
    ensures Shift(s, BitsOf(w, n)) == BitSteps(XorWord(s, w), n)
    decreases n
  {
    if n == 0 {
      XorUnit(s);
    } else {
      var bits := BitsOf(w, n);
      assert bits[1..] == BitsOf(w / 2, n - 1);
      var next := BitStep(XorWord(s, w % 2));
      assert Bit(bits[0]) == w % 2;
      ShiftWord(next, w / 2, n - 1);
      BitStepSplit(s, w);
      BitStepsFront(XorWord(s, w), n - 1);
    }
  }

  lemma PowersOfTwo()
    ensures Pow2(8) == 0x100 && Pow2(16) == 0x1_0000
  {
    assert Pow2(4) == 0x10 && Pow2(12) == 0x1000;
  }

  /** The byte-wise update of the source is the bit-serial register. */
  lemma {:induction false} UpdateIsSerial(s: word, data: seq<byte>)
    ensures Update(s, data) == Shift(s, SerialBits(data))
  {
    if data != [] {
      var n := |data| - 1;
      UpdateIsSerial(s, data[..n]);
      ShiftConcat(s, SerialBits(data[..n]), BitsOf(data[n], 8));
      PowersOfTwo();
      ShiftWord(Update(s, data[..n]), data[n], 8);
    }
  }

  // ---- The residue law ----

  function Word(lo: byte, hi: byte): word { lo + 0x100 * hi }

  /** The receiver's comparison: the last two bytes, low byte first, are the checksum of the rest. */
  predicate Accepts(frame: seq<byte>) {
    |frame| >= 2 &&
    Checksum(frame[..|frame| - 2]) == Word(frame[|frame| - 2], frame[|frame| - 1])
  }

  lemma JoinHalves(lo: nat, hi: nat, n: nat)
    requires n > 0
    ensures (lo + Pow2(n) * hi) % 2 == lo % 2
    ensures (lo + Pow2(n) * hi) / 2 == lo / 2 + Pow2(n - 1) * hi
  {
    var q := Pow2(n - 1) * hi;
    assert Pow2(n) * hi == 2 * q;
  }

  lemma {:induction false} BitsOfJoin(lo: nat, hi: nat, n: nat, m: nat)
    requires lo < Pow2(n)
    ensures BitsOf(lo, n) + BitsOf(hi, m) == BitsOf(lo + Pow2(n) * hi, n + m)
    decreases n
  {
    if n > 0 {
      JoinHalves(lo, hi, n);
      BitsOfJoin(lo / 2, hi, n - 1, m);
    }
  }

  /** Two absorbed bytes are one word run through sixteen shifts. */
  lemma AbsorbWord(s: word, lo: byte, hi: byte)
    ensures Absorb(Absorb(s, lo), hi) == BitSteps(XorWord(s, Word(lo, hi)), 16)
  {
    PowersOfTwo();
    ShiftWord(s, lo, 8);
    ShiftWord(Absorb(s, lo), hi, 8);
    ShiftConcat(s, BitsOf(lo, 8), BitsOf(hi, 8));
    BitsOfJoin(lo, hi, 8, 8);
    ShiftWord(s, Word(lo, hi), 16);
  }

  /** A frame passes the comparison exactly when the checksum run over the whole
      frame, its own two checksum bytes included, leaves zero. */
  lemma Residue(frame: seq<byte>)
    requires |frame| >= 2
    ensures Accepts(frame) <==> Checksum(frame) == 0
  {
    var n := |frame| - 2;
    var body, lo, hi := frame[..n], frame[n], frame[n + 1];
    assert frame[..n + 1][..n] == body;
    var s := Checksum(body);
    assert frame[..n + 1][n] == lo;
    assert Checksum(frame[..n + 1]) == Absorb(s, lo);
    assert Checksum(frame) == Absorb(Absorb(s, lo), hi);
    AbsorbWord(s, lo, hi);
    BitStepsZero(XorWord(s, Word(lo, hi)), 16);
    XorZero(s, Word(lo, hi));
  }

  /** Whether an altered frame is accepted depends on the alteration alone. */
  lemma Syndrome(frame: seq<byte>, error: seq<byte>)
    requires Accepts(frame) && |error| == |frame|
    ensures Accepts(XorSeq(frame, error)) <==> Shift(0, SerialBits(error)) == 0
  {
    Residue(frame);
    Residue(XorSeq(frame, error));
    XorUnit(INITIAL);
    UpdateLinear(INITIAL, 0, frame, error);
    UpdateIsSerial(0, error);
    XorComm(0, Update(0, error));
    XorUnit(Update(0, error));
  }

  // ---- Error detection ----

  /** The error changes something, and only inside sixteen consecutive bits of the line. */
  ghost predicate IsBurst(error: seq<byte>) {
    var bits := SerialBits(error);
    (exists i :: 0 <= i < |bits| && bits[i]) &&
    (exists p: nat :: p + 16 <= |bits| && ConfinedTo(bits, p))
  }

  ghost predicate ConfinedTo(bits: seq<bool>, p: nat) {
    forall i :: 0 <= i < |bits| && !(p <= i < p + 16) ==> !bits[i]
  }

  lemma {:induction false} ShiftZeros(s: word, bits: seq<bool>)
    requires forall i :: 0 <= i < |bits| ==> !bits[i]
    ensures Shift(s, bits) == BitSteps(s, |bits|)
    decreases |bits|
  {
    if bits != [] {
      XorUnit(s);
      ShiftZeros(BitStep(s), bits[1..]);
      BitStepsFront(s, |bits| - 1);
    }
  }

  function Pack(bits: seq<bool>): nat {
    if bits == [] then 0 else Bit(bits[0]) + 2 * Pack(bits[1..])
  }

  lemma {:induction false} PackBits(bits: seq<bool>)
    ensures Pack(bits) < Pow2(|bits|)
    ensures BitsOf(Pack(bits), |bits|) == bits
    ensures Pack(bits) == 0 <==> forall i :: 0 <= i < |bits| ==> !bits[i]
  {
    if bits != [] {
      PackBits(bits[1..]);
      var w := Pack(bits);
      assert w / 2 == Pack(bits[1..]);
      assert bits == [bits[0]] + bits[1..];
      assert forall i :: 1 <= i < |bits| ==> bits[i] == bits[1..][i - 1];
    }
  }

  /** A window of at most sixteen bits leaves the empty register empty only when all are zero. */
  lemma ShiftWindow(bits: seq<bool>)
    requires |bits| <= 16
    ensures Shift(0, bits) == 0 <==> forall i :: 0 <= i < |bits| ==> !bits[i]
  {
    PackBits(bits);
    PowersOfTwo();
    Pow2Monotone(|bits|, 16);
    var w := Pack(bits);
    ShiftWord(0, w, |bits|);
    XorComm(0, w);
    XorUnit(w);
    BitStepsZero(w, |bits|);
  }

  lemma {:induction false} Pow2Monotone(m: nat, n: nat)
    requires m <= n
    ensures Pow2(m) <= Pow2(n)
  {
    if m < n { Pow2Monotone(m, n - 1); }
  }

  /** Every non-zero error inside sixteen consecutive bits is detected, in frames of every length. */
  lemma BurstDetected(frame: seq<byte>, error: seq<byte>)
    requires Accepts(frame) && |error| == |frame| && IsBurst(error)
    ensures !Accepts(XorSeq(frame, error))
  {
    Syndrome(frame, error);
    var bits := SerialBits(error);
    var p: nat :| p + 16 <= |bits| && ConfinedTo(bits, p);
    var i: nat :| i < |bits| && bits[i];
    WindowSurvives(bits, p, i);
  }

  lemma ZerosKeep(s: word, bits: seq<bool>)
    requires forall i :: 0 <= i < |bits| ==> !bits[i]
    ensures Shift(s, bits) == 0 <==> s == 0
  {
    ShiftZeros(s, bits);
    BitStepsZero(s, |bits|);
  }

  lemma ShiftInThree(bits: seq<bool>, p: nat)
    requires p + 16 <= |bits|
    ensures Shift(0, bits) == Shift(Shift(Shift(0, bits[..p]), bits[p..p + 16]), bits[p + 16..])
  {
    hide Shift;
    var before, window, after := bits[..p], bits[p..p + 16], bits[p + 16..];
    assert bits == before + (window + after);
    ShiftConcat(0, before, window + after);
    ShiftConcat(Shift(0, before), window, after);
  }

  lemma WindowSurvives(bits: seq<bool>, p: nat, i: nat)
    requires p + 16 <= |bits| && ConfinedTo(bits, p)
    requires i < |bits| && bits[i]
    ensures Shift(0, bits) != 0
  {
    hide Shift;
    var before, window, after := bits[..p], bits[p..p + 16], bits[p + 16..];
    assert p <= i < p + 16;
    assert window[i - p] == bits[i];
    ShiftInThree(bits, p);
    ZerosKeep(0, before);
    ShiftWindow(window);
    ZerosKeep(Shift(0, window), after);
  }

  /** Whether the number of set bits is odd. */
  function OddCount(bits: seq<bool>): bool {
    bits != [] && (bits[0] != OddCount(bits[1..]))
  }

  lemma BitStepParity(crc: word)
    ensures OddWeight(BitStep(crc)) == OddWeight(crc)
  {
    OddWeightXor(crc / 2, POLYNOMIAL);
    PolynomialWeight();
  }

  lemma PolynomialWeight()
    ensures OddWeight(POLYNOMIAL)
  {
    assert Pow2(4) == 16 && Pow2(8) == 256 && Pow2(12) == 4096;
    OddWeightShifted(5, 12);
    assert !OddWeight(5) by { assert OddWeight(2) && OddWeight(1); }
  }

  /** Every step keeps the parity of the register plus the bits still to come. */
  lemma {:induction false} ShiftParity(s: word, bits: seq<bool>)
    ensures OddWeight(Shift(s, bits)) == (OddWeight(s) != OddCount(bits))
    decreases |bits|
  {
    if bits != [] {
      var b := Bit(bits[0]);
      OddWeightXor(s, b);
      BitStepParity(XorWord(s, b));
      ShiftParity(BitStep(XorWord(s, b)), bits[1..]);
    }
  }

  /** The parity of the checksum is the parity of all bits of the message. */
  lemma ChecksumParity(data: seq<byte>)
    ensures OddWeight(Checksum(data)) == OddCount(SerialBits(data))
  {
    UpdateIsSerial(INITIAL, data);
    ShiftParity(INITIAL, SerialBits(data));
    PowersOfTwo();
    OddWeightOnes(16);
  }

  /** Every alteration of an odd number of bits is detected, in frames of every length. */
  lemma OddErrorDetected(frame: seq<byte>, error: seq<byte>)
    requires Accepts(frame) && |error| == |frame| && OddCount(SerialBits(error))
    ensures !Accepts(XorSeq(frame, error))
  {
    Syndrome(frame, error);
    ShiftParity(0, SerialBits(error));
  }
}
