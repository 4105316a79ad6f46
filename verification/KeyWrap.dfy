/**
 AES-256 key wrap (RFC 3394) as the crypto profile performs it: six passes over
 a table of buffer views, over any 16-byte block permutation.

 `Wrapped` and `Unwrapped` say what the two methods compute; `WrapShifting` is
 the shifting description of section 2.2.1 of RFC 3394, which shares no indexing
 with the code.
 */
module KeyWrap {
  type Bytes = seq<bv8>

  /** The registers A, R[1], ..., R[4] of RFC 3394: five words of eight bytes. */
  type Registers = r: seq<Bytes> | |r| == 5 && forall k | 0 <= k < 5 :: |r[k]| == 8
    witness seq(5, _ => seq(8, _ => 0))

  datatype BlockCipher = BlockCipher(encrypt: (Bytes, Bytes) -> Bytes, decrypt: (Bytes, Bytes) -> Bytes) {
    /** For each 32-byte key, `encrypt` permutes the 16-byte blocks and `decrypt` is its inverse. */
    ghost predicate Lawful() {
      && (forall key, block {:trigger encrypt(key, block)} :: |key| == 32 && |block| == 16 ==>
            |encrypt(key, block)| == 16 && decrypt(key, encrypt(key, block)) == block)
      && (forall key, block {:trigger decrypt(key, block)} :: |key| == 32 && |block| == 16 ==>
            |decrypt(key, block)| == 16 && encrypt(key, decrypt(key, block)) == block)
    }
  }

  /** There is such a cipher. */
  lemma SomeCipher() returns (c: BlockCipher)
    ensures c.Lawful()
  {
    c := BlockCipher((_, block: Bytes) => block, (_, block: Bytes) => block);
  }

  datatype Failure = KeyLength | InputLength | Integrity
  datatype Outcome<+T> = Done(value: T) | Failed(failure: Failure)

  const DEFAULT_IV: Bytes := [0xa6, 0xa6, 0xa6, 0xa6, 0xa6, 0xa6, 0xa6, 0xa6]
  const STEPS := 24

  // ---- What the code computes -------------------------------------------------

  function Xor(a: Bytes, b: Bytes): (r: Bytes)
    requires |a| == |b|
    ensures |r| == |a|
  {
    seq(|a|, k requires 0 <= k < |a| => a[k] ^ b[k])
  }

  /** The step number as the eight big-endian bytes that the code writes. */
  function Counter(t: nat): (r: Bytes)
    requires t <= STEPS
    ensures |r| == 8
  {
    [0, 0, 0, 0, 0, 0, 0, t as bv8]
  }

  /** The register that step `t` of 24 works on: 1, 2, 3, 4, 1, 2, ... */
  function Slot(t: nat): nat
    requires 1 <= t
  {
    (t - 1) % 4 + 1
  }

  ghost function WrapStep(c: BlockCipher, key: Bytes, r: Registers, t: nat): Registers
    requires c.Lawful() && |key| == 32 && 1 <= t <= STEPS
  {
    var b := c.encrypt(key, r[0] + r[Slot(t)]);
    r[0 := Xor(b[..8], Counter(t))][Slot(t) := b[8..]]
  }

  ghost function UnwrapStep(c: BlockCipher, key: Bytes, r: Registers, t: nat): Registers
    requires c.Lawful() && |key| == 32 && 1 <= t <= STEPS
  {
    var b := c.decrypt(key, Xor(r[0], Counter(t)) + r[Slot(t)]);
    r[0 := b[..8]][Slot(t) := b[8..]]
  }

  /** The registers after steps 1, 2, ..., t. */
  ghost function WrapSteps(c: BlockCipher, key: Bytes, r: Registers, t: nat): Registers
    requires c.Lawful() && |key| == 32 && t <= STEPS
  {
    if t == 0 then r else WrapStep(c, key, WrapSteps(c, key, r, t - 1), t)
  }

  /** The registers after undoing steps 24, 23, ..., t + 1. */
  ghost function UnwrapSteps(c: BlockCipher, key: Bytes, r: Registers, t: nat): Registers
    requires c.Lawful() && |key| == 32 && t <= STEPS
    decreases STEPS - t
  {
    if t == STEPS then r else UnwrapStep(c, key, UnwrapSteps(c, key, r, t + 1), t + 1)
  }

  ghost function Split(bytes: Bytes): Registers
    requires |bytes| == 40
  {
    seq(5, k requires 0 <= k < 5 => bytes[8 * k..8 * k + 8])
  }

  /** The words numbered `first` to `last - 1`, end to end. */
  ghost function Join(r: Registers, first: nat, last: nat): (bytes: Bytes)
    requires first <= last <= 5
    ensures |bytes| == 8 * (last - first)
  {
    if first == last then [] else Join(r, first, last - 1) + r[last - 1]
  }

  ghost function Wrapped(c: BlockCipher, key: Bytes, plaintext: Bytes): (bytes: Bytes)
    requires c.Lawful() && |key| == 32 && |plaintext| == 32
  {
    Join(WrapSteps(c, key, Split(DEFAULT_IV + plaintext), STEPS), 0, 5)
  }

  ghost function Unwrapped(c: BlockCipher, key: Bytes, ciphertext: Bytes): (result: Outcome<Bytes>)
    requires c.Lawful() && |key| == 32 && |ciphertext| == 40
  {
    var r := UnwrapSteps(c, key, Split(ciphertext), 0);
    if r[0] == DEFAULT_IV then Done(Join(r, 1, 5)) else Failed(Integrity)
  }

  // ---- The code, on buffers and views of buffers ------------------------------

  /** Eight bytes of a buffer, shared with it, as `Buffer.subarray` returns. */
  datatype View = View(buffer: array<bv8>, at: nat) {
    ghost predicate Inside() {
      at + 8 <= buffer.Length
    }

    ghost function Word(): (word: Bytes)
      requires Inside()
      reads buffer
      ensures |word| == 8
    {
      buffer[at..at + 8]
    }
  }

  /** `word ^= mask`, in the buffer that the view looks into. */
  method XorInto(word: View, mask: Bytes)
    requires word.Inside() && |mask| == 8
    modifies word.buffer
    ensures word.Word() == Xor(old(word.Word()), mask)
    ensures forall k | 0 <= k < word.buffer.Length && !(word.at <= k < word.at + 8) ::
              word.buffer[k] == old(word.buffer[k])
  {
    for k := 0 to 8
      invariant forall m | 0 <= m < k :: word.buffer[word.at + m] == old(word.buffer[word.at + m]) ^ mask[m]
      invariant forall m | 0 <= m < word.buffer.Length && !(word.at <= m < word.at + k) ::
                  word.buffer[m] == old(word.buffer[m])
    {
      word.buffer[word.at + k] := word.buffer[word.at + k] ^ mask[k];
    }
    assert forall m | 0 <= m < 8 :: word.Word()[m] == word.buffer[word.at + m];
    assert forall m | 0 <= m < 8 :: old(word.Word())[m] == old(word.buffer[word.at + m]);
  }

  method Allocate(bytes: Bytes) returns (buffer: array<bv8>)
    ensures fresh(buffer) && buffer[..] == bytes
  {
    buffer := new bv8[|bytes|](k requires 0 <= k < |bytes| => bytes[k]);
  }

  /** The words that a table of views shows. */
  ghost predicate Shows(table: array<View>, words: Registers)
    reads table, set k | 0 <= k < table.Length :: table[k].buffer
  {
    && table.Length == 5
    && forall k | 0 <= k < 5 :: table[k].Inside() && table[k].Word() == words[k]
  }

  /** Step `t` of wrapping: the two views it replaces look into a new buffer. */
  method WrapOnce(c: BlockCipher, key: Bytes, r: array<View>, t: nat, ghost words: Registers)
    requires c.Lawful() && |key| == 32 && 1 <= t <= STEPS && Shows(r, words)
    modifies r
    ensures Shows(r, WrapStep(c, key, words, t))
  {
    var i := Slot(t);
    var b := Allocate(c.encrypt(key, r[0].buffer[r[0].at..r[0].at + 8] + r[i].buffer[r[i].at..r[i].at + 8]));
    ghost var block := b[..];
    r[0] := View(b, 0);
    XorInto(r[0], Counter(t));
    r[i] := View(b, 8);
    assert r[i].Word() == block[8..];
  }

  /** One pass of the outer loop, over registers 1, 2, 3, 4. */
  method WrapPass(c: BlockCipher, key: Bytes, r: array<View>, n: nat, j: nat, ghost start: Registers)
    requires c.Lawful() && |key| == 32 && n == 4 && j <= 5
    requires Shows(r, WrapSteps(c, key, start, 4 * j))
    modifies r
    ensures Shows(r, WrapSteps(c, key, start, 4 * j + 4))
  {
    for i := 1 to n + 1
      invariant Shows(r, WrapSteps(c, key, start, 4 * j + i - 1))
    {
      WrapOnce(c, key, r, n * j + i, WrapSteps(c, key, start, 4 * j + i - 1));
    }
  }

  /** Wrapping writes neither the plaintext nor the shared initial value: there is nothing it modifies. */
  method AesWrap(c: BlockCipher, key: Bytes, plaintext: array<bv8>, iv: array<bv8>)
    returns (result: Outcome<array<bv8>>)
    requires c.Lawful() && iv[..] == DEFAULT_IV
    ensures |key| != 32 ==> result == Failed(KeyLength)
    ensures |key| == 32 && plaintext.Length != 32 ==> result == Failed(InputLength)
    ensures |key| == 32 && plaintext.Length == 32 ==>
              && result.Done? && fresh(result.value)
              && result.value[..] == Wrapped(c, key, plaintext[..])
  {
    if |key| != 32 { return Failed(KeyLength); }
    if plaintext.Length != 32 { return Failed(InputLength); }
    var n := plaintext.Length / 8;
    var r := new View[n + 1](k => if 1 <= k <= 4 then View(plaintext, (k - 1) * 8) else View(iv, 0));
    ghost var start := Split(DEFAULT_IV + plaintext[..]);
    assert Shows(r, start);
    for j := 0 to 6
      invariant Shows(r, WrapSteps(c, key, start, 4 * j))
    {
      WrapPass(c, key, r, n, j, start);
    }
    var output := Concatenate(r, 0, WrapSteps(c, key, start, STEPS));
    return Done(output);
  }

  /** Copies the words from register `first` on into one new buffer. */
  method Concatenate(r: array<View>, first: nat, ghost words: Registers) returns (output: array<bv8>)
    requires Shows(r, words) && first <= 1
    ensures fresh(output) && output[..] == Join(words, first, 5)
  {
    output := new bv8[(5 - first) * 8];
    for i := first to 5
      invariant Shows(r, words)
      invariant output[..8 * (i - first)] == Join(words, first, i)
    {
      CopyWord(r[i], output, 8 * (i - first));
    }
    assert output[..] == output[..8 * (5 - first)];
  }

  method CopyWord(source: View, output: array<bv8>, at: nat)
    requires source.Inside() && at + 8 <= output.Length && source.buffer != output
    modifies output
    ensures output[..at + 8] == old(output[..at]) + source.Word()
  {
    forall k | 0 <= k < 8 {
      output[at + k] := source.buffer[source.at + k];
    }
    assert output[..at] == old(output[..at]);
    assert output[at..at + 8] == source.Word();
    assert output[..at + 8] == output[..at] + output[at..at + 8];
  }

  /** The first half of undoing step `t`: an XOR in whatever buffer the first view looks into. */
  method XorFirst(r: array<View>, t: nat, ghost words: Registers)
    requires 1 <= t <= STEPS && Shows(r, words)
    requires forall k | 1 <= k < 5 && r[k].buffer == r[0].buffer :: r[k].at >= r[0].at + 8
    modifies r[0].buffer
    ensures Shows(r, words[0 := Xor(words[0], Counter(t))])
    ensures forall k | 0 <= k < r[0].buffer.Length && !(r[0].at <= k < r[0].at + 8) ::
              r[0].buffer[k] == old(r[0].buffer[k])
  {
    XorInto(r[0], Counter(t));
    forall k | 1 <= k < 5
      ensures r[k].Word() == words[k]
    {
      assert old(r[k].Word()) == words[k];
      assert forall m | 0 <= m < 8 :: r[k].Word()[m] == r[k].buffer[r[k].at + m];
      assert forall m | 0 <= m < 8 :: old(r[k].Word())[m] == old(r[k].buffer[r[k].at + m]);
    }
  }

  /** The second half: decrypt, and replace two views by views of a new buffer. */
  method DecryptPair(c: BlockCipher, key: Bytes, r: array<View>, i: nat, ghost words: Registers)
    requires c.Lawful() && |key| == 32 && 1 <= i <= 4 && Shows(r, words)
    modifies r
    ensures fresh(r[0].buffer) && r[0].at == 0 && r[i] == View(r[0].buffer, 8)
    ensures forall k | 1 <= k < 5 && k != i :: r[k] == old(r[k])
    ensures var b := c.decrypt(key, words[0] + words[i]);
            Shows(r, words[0 := b[..8]][i := b[8..]])
  {
    var b := Allocate(c.decrypt(key, r[0].buffer[r[0].at..r[0].at + 8] + r[i].buffer[r[i].at..r[i].at + 8]));
    r[0] := View(b, 0);
    r[i] := View(b, 8);
    assert r[0].Word() == b[..][..8] && r[i].Word() == b[..][8..];
  }

  /** No other view shares the eight bytes of the first one. */
  ghost predicate Apart(r: array<View>)
    reads r
  {
    && r.Length == 5
    && r[0].at == 0
    && forall k | 1 <= k < 5 && r[k].buffer == r[0].buffer :: r[k].at >= 8
  }

  function Marked(ciphertext: Bytes): (bytes: Bytes)
    requires |ciphertext| == 40
  {
    ciphertext[7 := ciphertext[7] ^ 24]
  }

  lemma LastStepMarks(before: Bytes, after: Bytes, word: Bytes)
    requires |before| == |after| == 40 && |word| == 8
    requires before[..8] == word && after[..8] == Xor(word, Counter(STEPS)) && after[8..] == before[8..]
    ensures after == Marked(before)
  {
    forall k | 0 <= k < 40
      ensures after[k] == Marked(before)[k]
    {
      if k < 8 {
        assert before[k] == word[k] && after[k] == Xor(word, Counter(STEPS))[k];
        assert word[k] ^ 0 == word[k];
      } else {
        assert after[8..][k - 8] == before[8..][k - 8];
      }
    }
  }

  /** Step `t` undone. Only the first of these steps, numbered 24, reaches the caller's buffer. */
  method UnwrapOnce(c: BlockCipher, key: Bytes, ciphertext: array<bv8>, r: array<View>, t: nat, ghost words: Registers)
    requires c.Lawful() && |key| == 32 && 1 <= t <= STEPS
    requires Shows(r, words) && Apart(r) && ciphertext.Length == 40
    requires r[0].buffer == ciphertext <==> t == STEPS
    modifies r, r[0].buffer
    ensures Shows(r, UnwrapStep(c, key, words, t)) && Apart(r)
    ensures fresh(r[0].buffer)
    ensures ciphertext[..] == if t == STEPS then Marked(old(ciphertext[..])) else old(ciphertext[..])
  {
    ghost var original := ciphertext[..];
    ghost var marked := words[0 := Xor(words[0], Counter(t))];
    XorFirst(r, t, words);
    if t == STEPS {
      assert original[..8] == words[0] && ciphertext[..8] == marked[0] && ciphertext[8..] == original[8..];
      LastStepMarks(original, ciphertext[..], words[0]);
    }
    DecryptPair(c, key, r, Slot(t), marked);
  }

  /** One pass of the outer loop, over registers 4, 3, 2, 1. */
  method UnwrapPass(c: BlockCipher, key: Bytes, ciphertext: array<bv8>, r: array<View>, n: nat, j: nat,
                    ghost start: Registers)
    requires c.Lawful() && |key| == 32 && n == 4 && j <= 5 && ciphertext.Length == 40
    requires Shows(r, UnwrapSteps(c, key, start, 4 * j + 4)) && Apart(r)
    requires r[0].buffer == ciphertext <==> j == 5
    modifies r, r[0].buffer
    ensures Shows(r, UnwrapSteps(c, key, start, 4 * j)) && Apart(r)
    ensures fresh(r[0].buffer)
    ensures ciphertext[..] == if j == 5 then Marked(old(ciphertext[..])) else old(ciphertext[..])
  {
    for i := n + 1 downto 1
      invariant Shows(r, UnwrapSteps(c, key, start, 4 * j + i - 1)) && Apart(r)
      invariant if i == 5 then r[0] == old(r[0]) else fresh(r[0].buffer)
      invariant ciphertext[..] == if i < 5 && j == 5 then Marked(old(ciphertext[..])) else old(ciphertext[..])
    {
      UnwrapOnce(c, key, ciphertext, r, n * j + i, UnwrapSteps(c, key, start, n * j + i));
    }
  }

  /**
   Unwrapping writes into its caller's ciphertext: the first XOR goes through a view of it.
   That one byte is all it writes.
   */
  method AesUnwrap(c: BlockCipher, key: Bytes, ciphertext: array<bv8>) returns (result: Outcome<array<bv8>>)
    requires c.Lawful()
    modifies ciphertext
    ensures |key| != 32 ==> result == Failed(KeyLength) && ciphertext[..] == old(ciphertext[..])
    ensures |key| == 32 && ciphertext.Length != 40 ==>
              result == Failed(InputLength) && ciphertext[..] == old(ciphertext[..])
    ensures |key| == 32 && ciphertext.Length == 40 ==>
              var expected := Unwrapped(c, key, old(ciphertext[..]));
              && ciphertext[..] == Marked(old(ciphertext[..]))
              && (expected.Failed? ==> result == Failed(expected.failure))
              && (expected.Done? ==> result.Done? && fresh(result.value) && result.value[..] == expected.value)
  {
    if |key| != 32 { return Failed(KeyLength); }
    if ciphertext.Length != 40 { return Failed(InputLength); }
    var n := ciphertext.Length / 8 - 1;
    var r := new View[n + 1](k => if 0 <= k <= 4 then View(ciphertext, k * 8) else View(ciphertext, 0));
    ghost var original := ciphertext[..];
    ghost var start := Split(original);
    assert Shows(r, start);
    for j := 6 downto 0
      invariant Shows(r, UnwrapSteps(c, key, start, 4 * j)) && Apart(r)
      invariant if j == 6 then r[0].buffer == ciphertext else fresh(r[0].buffer)
      invariant ciphertext[..] == if j == 6 then original else Marked(original)
    {
      UnwrapPass(c, key, ciphertext, r, n, j, start);
    }
    if r[0].buffer[r[0].at..r[0].at + 8] != DEFAULT_IV { return Failed(Integrity); }
    var output := Concatenate(r, 1, UnwrapSteps(c, key, start, 0));
    return Done(output);
  }

  // ---- What the two are to each other -----------------------------------------

  lemma XorTwice(a: Bytes, b: Bytes)
    requires |a| == |b|
    ensures Xor(Xor(a, b), b) == a
  {
    forall k | 0 <= k < |a|
      ensures Xor(Xor(a, b), b)[k] == a[k]
    {
      assert (a[k] ^ b[k]) ^ b[k] == a[k];
    }
  }

  lemma StepUndone(c: BlockCipher, key: Bytes, r: Registers, t: nat)
    requires c.Lawful() && |key| == 32 && 1 <= t <= STEPS
    ensures UnwrapStep(c, key, WrapStep(c, key, r, t), t) == r
  {
    var i, block := Slot(t), r[0] + r[Slot(t)];
    var b := c.encrypt(key, block);
    XorTwice(b[..8], Counter(t));
    assert b[..8] + b[8..] == b;
    assert block[..8] == r[0] && block[8..] == r[i];
    var back := UnwrapStep(c, key, WrapStep(c, key, r, t), t);
    assert forall k | 0 <= k < 5 :: back[k] == r[k];
  }

  lemma StepRedone(c: BlockCipher, key: Bytes, r: Registers, t: nat)
    requires c.Lawful() && |key| == 32 && 1 <= t <= STEPS
    ensures WrapStep(c, key, UnwrapStep(c, key, r, t), t) == r
  {
    var i, block := Slot(t), Xor(r[0], Counter(t)) + r[Slot(t)];
    var b := c.decrypt(key, block);
    assert b[..8] + b[8..] == b;
    assert block[..8] == Xor(r[0], Counter(t)) && block[8..] == r[i];
    XorTwice(r[0], Counter(t));
    var back := WrapStep(c, key, UnwrapStep(c, key, r, t), t);
    assert forall k | 0 <= k < 5 :: back[k] == r[k];
  }

  lemma {:induction false} StepsUndone(c: BlockCipher, key: Bytes, r: Registers, t: nat)
    requires c.Lawful() && |key| == 32 && t <= STEPS
    ensures UnwrapSteps(c, key, WrapSteps(c, key, r, STEPS), t) == WrapSteps(c, key, r, t)
    decreases STEPS - t
  {
    if t < STEPS {
      StepsUndone(c, key, r, t + 1);
      StepUndone(c, key, WrapSteps(c, key, r, t), t + 1);
    }
  }

  lemma {:induction false} StepsRedone(c: BlockCipher, key: Bytes, r: Registers, t: nat)
    requires c.Lawful() && |key| == 32 && t <= STEPS
    ensures WrapSteps(c, key, UnwrapSteps(c, key, r, 0), t) == UnwrapSteps(c, key, r, t)
  {
    if t > 0 {
      StepsRedone(c, key, r, t - 1);
      StepRedone(c, key, UnwrapSteps(c, key, r, t), t);
    }
  }

  lemma SplitJoin(r: Registers)
    ensures Split(Join(r, 0, 5)) == r
    ensures Join(r, 0, 5) == r[0] + Join(r, 1, 5)
  {
    assert Join(r, 0, 1) == r[0] && Join(r, 1, 1) == [];
    assert Join(r, 0, 2) == r[0] + r[1] && Join(r, 1, 2) == r[1];
    assert Join(r, 0, 3) == r[0] + r[1] + r[2] && Join(r, 1, 3) == r[1] + r[2];
    assert Join(r, 0, 4) == r[0] + r[1] + r[2] + r[3] && Join(r, 1, 4) == r[1] + r[2] + r[3];
    assert Join(r, 0, 5) == r[0] + Join(r, 1, 5);
    assert forall k | 0 <= k < 5 :: Split(Join(r, 0, 5))[k] == r[k];
  }

  lemma JoinSplit(bytes: Bytes)
    requires |bytes| == 40
    ensures Join(Split(bytes), 0, 5) == bytes
    ensures Join(Split(bytes), 1, 5) == bytes[8..]
  {
    var r := Split(bytes);
    assert Join(r, 0, 0) == bytes[..0] && Join(r, 1, 1) == bytes[8..8];
    assert Join(r, 0, 1) == bytes[..8];
    assert Join(r, 0, 2) == bytes[..16] && Join(r, 1, 2) == bytes[8..16];
    assert Join(r, 0, 3) == bytes[..24] && Join(r, 1, 3) == bytes[8..24];
    assert Join(r, 0, 4) == bytes[..32] && Join(r, 1, 4) == bytes[8..32];
    assert Join(r, 0, 5) == bytes[..40] == bytes && Join(r, 1, 5) == bytes[8..40] == bytes[8..];
  }

  /** Unwrapping a wrapped key returns it, under every block permutation and key. */
  lemma UnwrapOfWrap(c: BlockCipher, key: Bytes, plaintext: Bytes)
    requires c.Lawful() && |key| == 32 && |plaintext| == 32
    ensures Unwrapped(c, key, Wrapped(c, key, plaintext)) == Done(plaintext)
  {
    var start := Split(DEFAULT_IV + plaintext);
    SplitJoin(WrapSteps(c, key, start, STEPS));
    StepsUndone(c, key, start, 0);
    JoinSplit(DEFAULT_IV + plaintext);
    assert start[0] == DEFAULT_IV;
    assert (DEFAULT_IV + plaintext)[8..] == plaintext;
  }

  /** What unwrapping accepts, and with which result: exactly the wrappings, each with what it wraps. */
  lemma UnwrapAcceptsExactly(c: BlockCipher, key: Bytes, ciphertext: Bytes, plaintext: Bytes)
    requires c.Lawful() && |key| == 32 && |ciphertext| == 40 && |plaintext| == 32
    ensures Unwrapped(c, key, ciphertext) == Done(plaintext) <==> ciphertext == Wrapped(c, key, plaintext)
  {
    UnwrapOfWrap(c, key, plaintext);
    if Unwrapped(c, key, ciphertext) == Done(plaintext) {
      var r := UnwrapSteps(c, key, Split(ciphertext), 0);
      SplitJoin(r);
      assert Join(r, 0, 5) == DEFAULT_IV + plaintext;
      assert Split(DEFAULT_IV + plaintext) == r;
      StepsRedone(c, key, Split(ciphertext), STEPS);
      JoinSplit(ciphertext);
    }
  }

  /** A caller that unwraps the same buffer again gets a failure or another key: never the one it had. */
  lemma SecondUnwrapDiffers(c: BlockCipher, key: Bytes, ciphertext: Bytes, plaintext: Bytes)
    requires c.Lawful() && |key| == 32 && |ciphertext| == 40 && |plaintext| == 32
    requires Unwrapped(c, key, ciphertext) == Done(plaintext)
    ensures Unwrapped(c, key, Marked(ciphertext)) != Done(plaintext)
    ensures Marked(Marked(ciphertext)) == ciphertext
  {
    UnwrapAcceptsExactly(c, key, ciphertext, plaintext);
    UnwrapAcceptsExactly(c, key, Marked(ciphertext), plaintext);
    MarkChanges(ciphertext[7]);
    assert Marked(ciphertext)[7] != ciphertext[7];
  }

  lemma MarkChanges(b: bv8)
    ensures b ^ 24 != b && (b ^ 24) ^ 24 == b
  {
  }

  // ---- Section 2.2.1 of RFC 3394, by shifting ---------------------------------

  /** The step number as a word, of the most significant byte first. */
  ghost function StepWord(t: nat): (word: Bytes)
    requires t < 256
    ensures |word| == 8
  {
    seq(8, k requires 0 <= k < 8 => if k == 7 then t as bv8 else 0)
  }

  /** One step of the shifting description: R[1] is always the word worked on, and all words move down. */
  ghost function ShiftStep(c: BlockCipher, key: Bytes, r: Registers, t: nat): Registers
    requires c.Lawful() && |key| == 32 && 1 <= t <= STEPS
  {
    var b := c.encrypt(key, r[0] + r[1]);
    [Xor(b[..8], StepWord(t)), r[2], r[3], r[4], b[8..]]
  }

  ghost function WrapShifting(c: BlockCipher, key: Bytes, r: Registers, t: nat): Registers
    requires c.Lawful() && |key| == 32 && t <= STEPS
  {
    if t == 0 then r else ShiftStep(c, key, WrapShifting(c, key, r, t - 1), t)
  }

  ghost predicate Rotated(indexed: Registers, shifted: Registers, t: nat) {
    shifted[0] == indexed[0] && forall k | 1 <= k <= 4 :: shifted[k] == indexed[Slot(t + k)]
  }

  lemma ShiftOne(c: BlockCipher, key: Bytes, indexed: Registers, shifted: Registers, t: nat)
    requires c.Lawful() && |key| == 32 && 1 <= t <= STEPS
    requires Rotated(indexed, shifted, t - 1)
    ensures Rotated(WrapStep(c, key, indexed, t), ShiftStep(c, key, shifted, t), t)
  {
    var before := t - 1;
    assert shifted[1] == indexed[Slot(before + 1)] && shifted[2] == indexed[Slot(before + 2)];
    assert shifted[3] == indexed[Slot(before + 3)] && shifted[4] == indexed[Slot(before + 4)];
    var b := c.encrypt(key, indexed[0] + indexed[Slot(t)]);
    assert Counter(t) == StepWord(t);
    RotateOne(indexed, shifted, Xor(b[..8], Counter(t)), b[8..], t);
  }

  lemma RotateOne(indexed: Registers, shifted: Registers, a: Bytes, r: Bytes, t: nat)
    requires t >= 1 && |a| == 8 && |r| == 8 && Rotated(indexed, shifted, t - 1)
    ensures Rotated(indexed[0 := a][Slot(t) := r], [a, shifted[2], shifted[3], shifted[4], r], t)
  {
    var before := t - 1;
    assert shifted[2] == indexed[Slot(before + 2)] && shifted[3] == indexed[Slot(before + 3)];
    assert shifted[4] == indexed[Slot(before + 4)];
    assert Slot(t + 4) == Slot(t);
  }

  lemma {:induction false} ShiftingIsRotatedIndexing(c: BlockCipher, key: Bytes, r: Registers, t: nat)
    requires c.Lawful() && |key| == 32 && t <= STEPS
    ensures Rotated(WrapSteps(c, key, r, t), WrapShifting(c, key, r, t), t)
  {
    if t > 0 {
      ShiftingIsRotatedIndexing(c, key, r, t - 1);
      ShiftOne(c, key, WrapSteps(c, key, r, t - 1), WrapShifting(c, key, r, t - 1), t);
    }
  }

  /** The code's indexing computes what the RFC's shifting does, in six rounds from the initial value of section 2.2.3.1. */
  lemma WrapMeetsTheStandard(c: BlockCipher, key: Bytes, plaintext: Bytes)
    requires c.Lawful() && |key| == 32 && |plaintext| == 32
    ensures var initial := seq(8, _ => 0xa6 as bv8);
            Wrapped(c, key, plaintext) == Join(WrapShifting(c, key, Split(initial + plaintext), 6 * 4), 0, 5)
  {
    var start := Split(DEFAULT_IV + plaintext);
    assert DEFAULT_IV == seq(8, _ => 0xa6 as bv8);
    ShiftingIsRotatedIndexing(c, key, start, STEPS);
    var indexed, shifted := WrapSteps(c, key, start, STEPS), WrapShifting(c, key, start, STEPS);
    assert Slot(STEPS + 1) == 1 && Slot(STEPS + 2) == 2 && Slot(STEPS + 3) == 3 && Slot(STEPS + 4) == 4;
    assert shifted[1] == indexed[1] && shifted[2] == indexed[2] && shifted[3] == indexed[3] && shifted[4] == indexed[4];
    assert shifted == indexed;
  }
}
