/** The polynomial of the standard, and checksums that are known. */
module CrcVectors {
  import opened Bytes
  import opened Crc32

  /** The exponents of section 8 of RFC 1952; the highest, 32, has no bit in the register. */
  const EXPONENTS: set<nat> := {26, 23, 22, 16, 12, 11, 10, 8, 7, 5, 4, 2, 1, 0}

  /** A bit of the register stands for a power of x, the lowest bit for the highest power. */
  lemma PolynomialIsTheStandards(k: nat)
    requires k < 32
    ensures Polynomial()[k] <==> 31 - k in EXPONENTS
  {
  }

  /** Known checksums: of four bytes 0xff it is 0xffffffff, and of 0xff 0xff 0xff 0x7f the complement of the polynomial. */
  lemma KnownChecksums()
    ensures Crc([0xff, 0xff, 0xff, 0xff]) == Ones()
    ensures forall k | 0 <= k < 32 :: Crc([0xff, 0xff, 0xff, 0x7f])[k] <==> 31 - k !in EXPONENTS
    ensures forall k | 0 <= k < 32 :: Ones()[k]
  {
    hide Steps, Polynomial, Crc, ShiftRight;
    FourBytes(0xff);
    FourBytes(0x7f);
    ZerosStay();
    LastBitFallsOut(Zeros(32)[31 := true]);
    forall k | 0 <= k < 32 ensures Polynomial()[k] <==> 31 - k in EXPONENTS {
      PolynomialIsTheStandards(k);
    }
    assert Xor(Zeros(32), Ones()) == Ones();
  }

  lemma ZerosStay()
    ensures Steps(Zeros(32), 32) == Zeros(32)
  {
    hide Steps;
    ZerosFallOut(Zeros(32), 32);
    assert ShiftRight(Zeros(32), 32) == Zeros(32);
  }

  /** What three bytes of ones and a last one feed. */
  lemma FourBytes(last: byte)
    requires last == 0xff || last == 0x7f
    ensures Crc([0xff, 0xff, 0xff, last])
         == Xor(Steps(if last == 0xff then Zeros(32) else Zeros(32)[31 := true], 32), Ones())
  {
    var bytes: Bytes := [0xff, 0xff, 0xff, last];
    var bits := MessageBits(bytes);
    BitsOfFour(0xff, 0xff, 0xff, last);
    OnesOfByte();
    FeedAtOnce(Ones(), bits);
    assert Xor(Ones(), Pad(bits)) == if last == 0xff then Zeros(32) else Zeros(32)[31 := true];
  }

  lemma BitsOfFour(a: byte, b: byte, c: byte, d: byte)
    ensures MessageBits([a, b, c, d]) == Binary(a, 8) + Binary(b, 8) + Binary(c, 8) + Binary(d, 8)
  {
    hide Binary;
    OneMoreByte([], a);
    OneMoreByte([a], b);
    OneMoreByte([a, b], c);
    OneMoreByte([a, b, c], d);
    assert [] + [a] == [a] && [a] + [b] == [a, b] && [a, b] + [c] == [a, b, c] && [a, b, c] + [d] == [a, b, c, d];
    assert MessageBits([]) == [] && [] + Binary(a, 8) == Binary(a, 8);
    hide MessageBits;
  }

  lemma OneMoreByte(bytes: Bytes, last: byte)
    ensures MessageBits(bytes + [last]) == MessageBits(bytes) + Binary(last, 8)
  {
    assert (bytes + [last])[..|bytes|] == bytes;
  }

  lemma OnesOfByte()
    ensures forall k | 0 <= k < 8 :: Binary(0xff, 8)[k] && (Binary(0x7f, 8)[k] <==> k < 7)
  {
    assert Binary(0xff, 8) == [true, true, true, true, true, true, true, true];
    assert Binary(0x7f, 8) == [true, true, true, true, true, true, true, false];
  }

  /** The highest bit falls out in the last of 32 steps. */
  lemma LastBitFallsOut(top: Word)
    requires top == Zeros(32)[31 := true]
    ensures Steps(top, 32) == Polynomial()
  {
    hide Polynomial;
    StepsInTurn(top, 31, 1);
    ZerosFallOut(top, 31);
    var low := ShiftRight(top, 31);
    assert low[0] && forall k | 1 <= k < 32 :: !low[k];
    assert Steps(low, 1) == Steps(Step(low), 0) == Step(low);
    assert ShiftRight(low, 1) == Zeros(32) && Xor(Polynomial(), Zeros(32)) == Polynomial();
  }

  lemma {:induction false} StepsInTurn(v: Word, m: nat, n: nat)
    ensures Steps(v, m + n) == Steps(Steps(v, m), n)
    decreases m
  {
    if m > 0 { StepsInTurn(Step(v), m - 1, n); }
  }
}
