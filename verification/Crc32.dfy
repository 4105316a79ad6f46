/**
 The CRC-32 of the fixture writer: a table of 256 shifted bytes, and one lookup
 per byte. `Crc` is the checksum fed one bit at a time, with no table. The 32-bit
 unsigned integers of the code are words of 32 bits, the lowest bit first.
 */
module Crc32 {
  import opened Bytes

  type Bits = seq<bool>
  type Word = w: Bits | |w| == 32 witness seq(32, _ => false)

  function Binary(n: nat, width: nat): (bits: Bits)
    ensures |bits| == width
  {
    if width == 0 then [] else [n % 2 == 1] + Binary(n / 2, width - 1)
  }

  function Number(bits: Bits): nat {
    if bits == [] then 0 else (if bits[0] then 1 else 0) + 2 * Number(bits[1..])
  }

  function Zeros(n: nat): (bits: Bits)
    ensures |bits| == n
  {
    seq(n, _ => false)
  }

  function Pad(bits: Bits): Word
    requires |bits| <= 32
  {
    bits + Zeros(32 - |bits|)
  }

  function Xor(a: Word, b: Word): Word {
    seq(32, k requires 0 <= k < 32 => a[k] != b[k])
  }

  /** `a >>> n` */
  function ShiftRight(a: Word, n: nat): Word
    requires n <= 32
  {
    a[n..] + Zeros(n)
  }

  function Ones(): Word {
    seq(32, _ => true)
  }

  /** 0xedb88320, digit by hexadecimal digit from the lowest */
  function Polynomial(): Word {
    [false, false, false, false, false, true, false, false] + [true, true, false, false, false, false, false, true]
    + [false, false, false, true, true, true, false, true] + [true, false, true, true, false, true, true, true]
  }

  // ---- The checksum, bit by bit -----------------------------------------------

  /** One step of the reflected register: the polynomial goes in when a one falls out. */
  function Step(v: Word): Word {
    if v[0] then Xor(Polynomial(), ShiftRight(v, 1)) else ShiftRight(v, 1)
  }

  ghost function Feed(v: Word, bits: Bits): Word
    decreases |bits|
  {
    if bits == [] then v else Feed(Step(Xor(v, Pad(bits[..1]))), bits[1..])
  }

  /** The bits of a message in the order of section 8 of RFC 1952: the lowest of each byte first. */
  ghost function MessageBits(bytes: Bytes): (bits: Bits)
    ensures |bits| == 8 * |bytes|
  {
    if bytes == [] then [] else MessageBits(bytes[..|bytes| - 1]) + Binary(bytes[|bytes| - 1], 8)
  }

  ghost function Crc(bytes: Bytes): Word {
    Xor(Feed(Ones(), MessageBits(bytes)), Ones())
  }

  // ---- The code ---------------------------------------------------------------

  function Steps(v: Word, n: nat): Word
    decreases n
  {
    if n == 0 then v else Steps(Step(v), n - 1)
  }

  ghost predicate IsTable(table: array<Word>)
    reads table
  {
    table.Length == 256 && forall k | 0 <= k < 256 :: table[k] == Steps(Binary(k, 32), 8)
  }

  method BuildTable() returns (table: array<Word>)
    ensures fresh(table) && IsTable(table)
  {
    hide Binary, Xor, ShiftRight, Polynomial;
    table := new Word[256](_ => Zeros(32));
    for index := 0 to 256
      invariant forall k | 0 <= k < index :: table[k] == Steps(Binary(k, 32), 8)
    {
      var value: Word := Binary(index, 32);
      for bit := 0 to 8
        invariant Steps(value, 8 - bit) == Steps(Binary(index, 32), 8)
      {
        value := if value[0] then Xor(Polynomial(), ShiftRight(value, 1)) else ShiftRight(value, 1);
      }
      table[index] := value;
    }
  }

  method Checksum(table: array<Word>, bytes: Bytes) returns (crc: Word)
    requires IsTable(table)
    ensures crc == Crc(bytes)
  {
    var value := Ones();
    for i := 0 to |bytes|
      invariant value == Feed(Ones(), MessageBits(bytes[..i]))
    {
      var low := Xor(value, Binary(bytes[i], 32))[..8];
      LookupFeedsOneByte(value, bytes[i]);
      NumberBound(low);
      ByteLimit();
      BinaryOfNumber(low, 32);
      assert bytes[..i + 1][..i] == bytes[..i];
      FeedInTurn(Ones(), MessageBits(bytes[..i]), Binary(bytes[i], 8));
      value := Xor(table[Number(low)], ShiftRight(value, 8));
    }
    assert bytes[..|bytes|] == bytes;
    crc := Xor(value, Ones());
  }

  // ---- Numbers and bits -------------------------------------------------------

  lemma {:induction false} BinaryOfNumber(bits: Bits, width: nat)
    requires |bits| <= width
    ensures Binary(Number(bits), width) == bits + Zeros(width - |bits|)
  {
    if width > 0 {
      if bits == [] {
        BinaryOfNumber([], width - 1);
      } else {
        BinaryOfNumber(bits[1..], width - 1);
      }
    }
  }

  lemma {:induction false} NumberBound(bits: Bits)
    ensures Number(bits) < Pow2(|bits|)
  {
    if bits != [] {
      NumberBound(bits[1..]);
    }
  }

  ghost function Pow2(n: nat): nat {
    if n == 0 then 1 else 2 * Pow2(n - 1)
  }

  lemma ByteLimit()
    ensures Pow2(8) == 256
  {
    assert Pow2(4) == 16;
  }

  lemma WordLimit()
    ensures Pow2(32) == 0x1_0000_0000
  {
    assert Pow2(8) == 256 by { ByteLimit(); }
    assert Pow2(12) == 0x1000 && Pow2(16) == 0x1_0000 && Pow2(20) == 0x10_0000;
    assert Pow2(24) == 0x100_0000 && Pow2(28) == 0x1000_0000;
  }

  lemma {:induction false} NumberOfBinary(n: nat, width: nat)
    requires n < Pow2(width)
    ensures Number(Binary(n, width)) == n
  {
    if width > 0 {
      NumberOfBinary(n / 2, width - 1);
    }
  }

  // ---- Why a lookup feeds eight bits ------------------------------------------

  lemma StepIsLinear(a: Word, b: Word)
    ensures Step(Xor(a, b)) == Xor(Step(a), Step(b))
  {
    var x, y := Step(Xor(a, b)), Xor(Step(a), Step(b));
    forall k | 0 <= k < 32
      ensures x[k] == y[k]
    {
    }
  }

  lemma {:induction false} StepsAreLinear(a: Word, b: Word, n: nat)
    ensures Steps(Xor(a, b), n) == Xor(Steps(a, n), Steps(b, n))
    decreases n
  {
    if n > 0 {
      StepIsLinear(a, b);
      StepsAreLinear(Step(a), Step(b), n - 1);
    }
  }

  lemma FeedOneEarly(v: Word, bits: Bits)
    requires 1 <= |bits| <= 32
    ensures Xor(Step(Xor(v, Pad(bits[..1]))), Pad(bits[1..])) == Step(Xor(v, Pad(bits)))
  {
    var first, others := Pad(bits[..1]), Pad(bits[1..]);
    var waiting: Word := [false] + others[..31];
    assert Step(waiting) == others;
    StepIsLinear(Xor(v, first), waiting);
    assert Xor(Xor(v, first), waiting) == Xor(v, Pad(bits));
  }

  /** A bit fed early only waits for its turn: up to 32 bits may go in at once. */
  lemma {:induction false} FeedAtOnce(v: Word, bits: Bits)
    requires |bits| <= 32
    ensures Feed(v, bits) == Steps(Xor(v, Pad(bits)), |bits|)
    decreases |bits|
  {
    if bits == [] {
      assert Xor(v, Pad([])) == v;
    } else {
      var first, others := Pad(bits[..1]), Pad(bits[1..]);
      FeedAtOnce(Step(Xor(v, first)), bits[1..]);
      FeedOneEarly(v, bits);
    }
  }

  lemma {:induction false} FeedInTurn(v: Word, a: Bits, b: Bits)
    ensures Feed(v, a + b) == Feed(Feed(v, a), b)
    decreases |a|
  {
    if a == [] {
      assert a + b == b;
    } else {
      assert (a + b)[1..] == a[1..] + b && (a + b)[..1] == a[..1];
      FeedInTurn(Step(Xor(v, Pad(a[..1]))), a[1..], b);
    }
  }

  lemma {:induction false} ZerosFallOut(v: Word, n: nat)
    requires n <= 32 && forall k | 0 <= k < n :: !v[k]
    ensures Steps(v, n) == ShiftRight(v, n)
    decreases n
  {
    if n == 0 {
      assert ShiftRight(v, 0) == v;
    } else {
      ZerosFallOut(Step(v), n - 1);
      assert ShiftRight(ShiftRight(v, 1), n - 1) == ShiftRight(v, n);
    }
  }

  lemma {:induction false} BinaryPads(n: nat, narrow: nat, width: nat)
    requires narrow <= width && n < Pow2(narrow)
    ensures Binary(n, width) == Binary(n, narrow) + Zeros(width - narrow)
  {
    if narrow == 0 {
      if width > 0 { BinaryPads(0, 0, width - 1); }
    } else {
      BinaryPads(n / 2, narrow - 1, width - 1);
    }
  }

  lemma LookupFeedsOneByte(value: Word, byte: byte)
    ensures var low := Xor(value, Binary(byte, 32))[..8];
            Xor(Steps(Pad(low), 8), ShiftRight(value, 8)) == Feed(value, Binary(byte, 8))
  {
    var all := Xor(value, Binary(byte, 32));
    var low, high: Word := Pad(all[..8]), Zeros(8) + all[8..];
    ByteLimit();
    BinaryPads(byte, 8, 32);
    FeedAtOnce(value, Binary(byte, 8));
    assert Xor(low, high) == all;
    StepsAreLinear(low, high, 8);
    ZerosFallOut(high, 8);
    assert ShiftRight(high, 8) == ShiftRight(value, 8);
  }

  // ---- What the checksum detects ----------------------------------------------

  /** The polynomial's highest bit says which case a step took, so a step can be undone. */
  lemma StepIsInjective(a: Word, b: Word)
    requires Step(a) == Step(b)
    ensures a == b
  {
    StepAt(a, 31);
    StepAt(b, 31);
    forall k | 1 <= k < 32
      ensures a[k] == b[k]
    {
      StepAt(a, k - 1);
      StepAt(b, k - 1);
    }
  }

  lemma StepAt(v: Word, k: nat)
    requires k < 32
    ensures Step(v)[k] == if k == 31 then v[0] else if v[0] then Polynomial()[k] != v[k + 1] else v[k + 1]
  {
  }

  lemma {:induction false} StepsAreInjective(a: Word, b: Word, n: nat)
    requires Steps(a, n) == Steps(b, n)
    ensures a == b
    decreases n
  {
    if n > 0 {
      StepsAreInjective(Step(a), Step(b), n - 1);
      StepIsInjective(a, b);
    }
  }

  lemma XorIsInjective(a: Word, b: Word, c: Word)
    requires Xor(a, c) == Xor(b, c)
    ensures a == b
  {
    assert forall k | 0 <= k < 32 :: Xor(a, c)[k] == (a[k] != c[k]) && Xor(b, c)[k] == (b[k] != c[k]);
  }

  lemma {:induction false} FeedKeepsDifference(a: Word, b: Word, bits: Bits)
    requires Feed(a, bits) == Feed(b, bits)
    ensures a == b
    decreases |bits|
  {
    if bits != [] {
      var first := Pad(bits[..1]);
      FeedKeepsDifference(Step(Xor(a, first)), Step(Xor(b, first)), bits[1..]);
      StepIsInjective(Xor(a, first), Xor(b, first));
      XorIsInjective(a, b, first);
    }
  }

  lemma Regroup(a: Bits, b: Bits, c: Bits)
    ensures (a + b) + c == a + (b + c)
  {
  }

  lemma {:induction false} MessageInTurn(a: Bytes, b: Bytes)
    ensures MessageBits(a + b) == MessageBits(a) + MessageBits(b)
    decreases |b|
  {
    if b == [] {
      assert a + b == a;
    } else {
      var all := a + b;
      var last := b[|b| - 1];
      MessageInTurn(a, b[..|b| - 1]);
      assert all[..|all| - 1] == a + b[..|b| - 1] && all[|all| - 1] == last;
      Regroup(MessageBits(a), MessageBits(b[..|b| - 1]), Binary(last, 8));
    }
  }

  lemma {:induction false} MessageIsInjective(x: Bytes, y: Bytes)
    requires |x| == |y| && MessageBits(x) == MessageBits(y)
    ensures x == y
    decreases |x|
  {
    if x != [] {
      var n := |x| - 1;
      assert MessageBits(x)[..8 * n] == MessageBits(x[..n]) && MessageBits(y)[..8 * n] == MessageBits(y[..n]);
      assert MessageBits(x)[8 * n..] == Binary(x[n], 8) && MessageBits(y)[8 * n..] == Binary(y[n], 8);
      MessageIsInjective(x[..n], y[..n]);
      ByteLimit();
      NumberOfBinary(x[n], 8);
      NumberOfBinary(y[n], 8);
      assert x == x[..n] + [x[n]] && y == y[..n] + [y[n]];
    }
  }

  /** Up to four bytes are told apart by the word they lead to. */
  lemma ShortMessagesDiffer(start: Word, x: Bytes, y: Bytes)
    requires |x| == |y| <= 4 && Feed(start, MessageBits(x)) == Feed(start, MessageBits(y))
    ensures x == y
  {
    var p, q := MessageBits(x), MessageBits(y);
    FeedAtOnce(start, p);
    FeedAtOnce(start, q);
    StepsAreInjective(Xor(start, Pad(p)), Xor(start, Pad(q)), 8 * |x|);
    forall k | 0 <= k < |p|
      ensures p[k] == q[k]
    {
      assert Xor(start, Pad(p))[k] == (start[k] != p[k]);
      assert Xor(start, Pad(q))[k] == (start[k] != q[k]);
    }
    MessageIsInjective(x, y);
  }

  /** Messages that differ only within four consecutive bytes have different checksums. */
  lemma BurstDetected(prefix: Bytes, x: Bytes, y: Bytes, suffix: Bytes)
    requires |x| == |y| <= 4 && x != y
    ensures Crc(prefix + x + suffix) != Crc(prefix + y + suffix)
  {
    if Crc(prefix + x + suffix) == Crc(prefix + y + suffix) {
      var start := Feed(Ones(), MessageBits(prefix));
      var a, b := Feed(start, MessageBits(x)), Feed(start, MessageBits(y));
      FeedParts(prefix, x, suffix);
      FeedParts(prefix, y, suffix);
      XorIsInjective(Feed(a, MessageBits(suffix)), Feed(b, MessageBits(suffix)), Ones());
      FeedKeepsDifference(a, b, MessageBits(suffix));
      ShortMessagesDiffer(start, x, y);
    }
  }

  lemma FeedParts(prefix: Bytes, x: Bytes, suffix: Bytes)
    ensures Crc(prefix + x + suffix)
         == Xor(Feed(Feed(Feed(Ones(), MessageBits(prefix)), MessageBits(x)), MessageBits(suffix)), Ones())
  {
    MessageInTurn(prefix, x);
    MessageInTurn(prefix + x, suffix);
    FeedInTurn(Ones(), MessageBits(prefix), MessageBits(x));
    FeedInTurn(Ones(), MessageBits(prefix + x), MessageBits(suffix));
  }
}
