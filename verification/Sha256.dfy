/** The streaming SHA-256 of src/hash.cpp against FIPS 180-4. */
module Sha256 {
  import opened Words
  import opened ByteWrites

  type Block = s: seq<Byte> | |s| == 64 witness seq(64, _ => 0)
  type Hash = s: seq<Word> | |s| == 8 witness seq(8, _ => 0)

  // ----- the functions and constants of section 4 -----

  function Xor3(x: Word, y: Word, z: Word): Word { Xor(Xor(x, y), z) }
  function SmallSigma0(x: Word): Word { Xor3(RotateRight(x, 7), RotateRight(x, 18), ShiftRight(x, 3)) }
  function SmallSigma1(x: Word): Word { Xor3(RotateRight(x, 17), RotateRight(x, 19), ShiftRight(x, 10)) }
  function BigSigma0(x: Word): Word { Xor3(RotateRight(x, 2), RotateRight(x, 13), RotateRight(x, 22)) }
  function BigSigma1(x: Word): Word { Xor3(RotateRight(x, 6), RotateRight(x, 11), RotateRight(x, 25)) }
  function Ch(x: Word, y: Word, z: Word): Word { Xor(And(x, y), And(Complement(x), z)) }
  function Maj(x: Word, y: Word, z: Word): Word { Xor3(And(x, y), And(x, z), And(y, z)) }

  const K: seq<Word> :=
    [0x428a_2f98, 0x7137_4491, 0xb5c0_fbcf, 0xe9b5_dba5, 0x3956_c25b, 0x59f1_11f1, 0x923f_82a4, 0xab1c_5ed5,
     0xd807_aa98, 0x1283_5b01, 0x2431_85be, 0x550c_7dc3, 0x72be_5d74, 0x80de_b1fe, 0x9bdc_06a7, 0xc19b_f174,
     0xe49b_69c1, 0xefbe_4786, 0x0fc1_9dc6, 0x240c_a1cc, 0x2de9_2c6f, 0x4a74_84aa, 0x5cb0_a9dc, 0x76f9_88da,
     0x983e_5152, 0xa831_c66d, 0xb003_27c8, 0xbf59_7fc7, 0xc6e0_0bf3, 0xd5a7_9147, 0x06ca_6351, 0x1429_2967,
     0x27b7_0a85, 0x2e1b_2138, 0x4d2c_6dfc, 0x5338_0d13, 0x650a_7354, 0x766a_0abb, 0x81c2_c92e, 0x9272_2c85,
     0xa2bf_e8a1, 0xa81a_664b, 0xc24b_8b70, 0xc76c_51a3, 0xd192_e819, 0xd699_0624, 0xf40e_3585, 0x106a_a070,
     0x19a4_c116, 0x1e37_6c08, 0x2748_774c, 0x34b0_bcb5, 0x391c_0cb3, 0x4ed8_aa4a, 0x5b9c_ca4f, 0x682e_6ff3,
     0x748f_82ee, 0x78a5_636f, 0x84c8_7814, 0x8cc7_0208, 0x90be_fffa, 0xa450_6ceb, 0xbef9_a3f7, 0xc671_78f2]

  const INITIAL: Hash :=
    [0x6a09_e667, 0xbb67_ae85, 0x3c6e_f372, 0xa54f_f53a, 0x510e_527f, 0x9b05_688c, 0x1f83_d9ab, 0x5be0_cd19]

  // ----- the computation of section 6.2.2 -----

  function BigEndian(b0: Byte, b1: Byte, b2: Byte, b3: Byte): Word {
    FromBytes(b3, b2, b1, b0)
  }

  /** The message schedule. */
  function W(block: Block, t: nat): Word
    requires t < 64
    decreases t
  {
    if t < 16 then BigEndian(block[4 * t], block[4 * t + 1], block[4 * t + 2], block[4 * t + 3])
    else Add(Add(Add(SmallSigma1(W(block, t - 2)), W(block, t - 7)), SmallSigma0(W(block, t - 15))), W(block, t - 16))
  }

  datatype Working = Working(a: Word, b: Word, c: Word, d: Word, e: Word, f: Word, g: Word, h: Word)

  function Round(v: Working, k: Word, w: Word): Working {
    var t1 := Add(Add(Add(Add(v.h, BigSigma1(v.e)), Ch(v.e, v.f, v.g)), k), w);
    var t2 := Add(BigSigma0(v.a), Maj(v.a, v.b, v.c));
    Working(Add(t1, t2), v.a, v.b, v.c, Add(v.d, t1), v.e, v.f, v.g)
  }

  lemma ConstantsFit()
    ensures |K| == 64
  {
  }

  function Rounds(block: Block, v: Working, t: nat): Working
    requires t <= 64
    decreases t
  {
    ConstantsFit();
    if t == 0 then v else Round(Rounds(block, v, t - 1), K[t - 1], W(block, t - 1))
  }

  function Load(hash: Hash): Working {
    Working(hash[0], hash[1], hash[2], hash[3], hash[4], hash[5], hash[6], hash[7])
  }

  function Sum(v: Working, hash: Hash): Hash {
    [Add(v.a, hash[0]), Add(v.b, hash[1]), Add(v.c, hash[2]), Add(v.d, hash[3]),
     Add(v.e, hash[4]), Add(v.f, hash[5]), Add(v.g, hash[6]), Add(v.h, hash[7])]
  }

  function Compress(hash: Hash, block: Block): Hash {
    ConstantsFit();
    Sum(Rounds(block, Load(hash), |K|), hash)
  }

  type Step = (Hash, Block) -> Hash

  /** The hash value after the first `n` blocks (section 6.2.2 with Compress). */
  function Hashed(step: Step, message: seq<Byte>, n: nat): Hash
    requires 64 * n <= |message|
    decreases n
  {
    if n == 0 then INITIAL
    else step(Hashed(step, message, n - 1), message[64 * (n - 1)..64 * n])
  }

  // ----- the padding of section 5.1.1 -----

  const TWO64 := 0x1_0000_0000_0000_0000

  function Power256(n: nat): nat {
    if n == 0 then 1 else 256 * Power256(n - 1)
  }

  /** The length in bits as a 64-bit big-endian number. */
  function LengthField(bits: nat): (r: seq<Byte>)
    ensures |r| == 8
  {
    seq(8, i requires 0 <= i < 8 => LengthByte(bits, 7 - i))
  }

  function LengthByte(bits: nat, i: nat): Byte {
    PowerPositive(i);
    bits / Power256(i) % 256
  }

  lemma {:induction false} PowerPositive(n: nat)
    ensures 0 < Power256(n)
  {
    if n > 0 {
      PowerPositive(n - 1);
    }
  }

  /** The fewest zero bytes that leave room for the length at the end of a block. */
  function ZeroBytes(length: nat): nat {
    (119 - length % 64) % 64
  }

  function Padded(message: seq<Byte>): seq<Byte> {
    message + [0x80] + Zeros(ZeroBytes(|message|)) + LengthField(8 * |message| % TWO64)
  }

  /** The blocks of the padded message. */
  function Blocks(length: nat): nat {
    length / 64 + if length % 64 < 56 then 1 else 2
  }

  /** The padded message is whole blocks, and with fewer zeros it would not be. */
  lemma PaddingIsLeast(message: seq<Byte>, z: nat)
    ensures |Padded(message)| == 64 * Blocks(|message|)
    ensures (|message| + 1 + z + 8) % 64 == 0 ==> ZeroBytes(|message|) <= z
  {
    LeastZeros(|message| / 64, |message| % 64, z);
  }

  lemma LeastZeros(q: nat, r: nat, z: nat)
    requires r < 64
    ensures (119 - r) % 64 == if r < 56 then 55 - r else 119 - r
    ensures (64 * q + r + 1 + z + 8) % 64 == 0 ==> (119 - r) % 64 <= z
  {
    assert (64 * q + r + 1 + z + 8) % 64 == (r + 9 + z) % 64;
  }

  function Shifted(x: Word, byte: nat): Byte
    requires byte < 4
  {
    ByteOf(x, 3 - byte)
  }

  function Bytes(hash: Hash): (r: seq<Byte>)
    ensures |r| == 32
  {
    seq(32, i requires 0 <= i < 32 => Shifted(hash[i / 4], i % 4))
  }

  function Digest(message: seq<Byte>): seq<Byte> {
    PaddingIsLeast(message, 0);
    Bytes(Hashed(Compress, Padded(message), Blocks(|message|)))
  }

  // ----- block by block -----

  lemma {:induction false} SamePrefix(step: Step, a: seq<Byte>, b: seq<Byte>, n: nat)
    requires 64 * n <= |a| && a <= b
    ensures Hashed(step, b, n) == Hashed(step, a, n)
    decreases n
  {
    if n > 0 {
      SamePrefix(step, a, b, n - 1);
      assert b[64 * (n - 1)..64 * n] == a[64 * (n - 1)..64 * n];
    }
  }

  /** One more block. */
  lemma OneMore(step: Step, message: seq<Byte>, n: nat, block: Block)
    requires 64 * n == |message|
    ensures Hashed(step, message + block, n + 1) == step(Hashed(step, message, n), block)
  {
    SamePrefix(step, message, message + block, n);
    assert (message + block)[64 * n..64 * (n + 1)] == block;
  }

  lemma WrappedBits(length: nat)
    ensures length % TWO64 * 8 % TWO64 == 8 * length % TWO64
  {
    var q, r: int := length / TWO64, length % TWO64;
    assert 8 * length == 8 * r + TWO64 * (8 * q);
  }

  // ----- the class -----

  class Hasher {
    var state: Hash
    const block: array<Byte>
    var blockSize: nat
    var totalBytes: nat
    ghost var message: seq<Byte>

    constructor ()
      ensures Valid() && message == [] && fresh(block)
    {
      state, blockSize, totalBytes, message := INITIAL, 0, 0, [];
      block := new Byte[64](_ => 0);
    }

    /** The full blocks are hashed, the rest of the message waits in the block. */
    ghost predicate Pending()
      reads this, block
    {
      block.Length == 64 && blockSize < 64 && blockSize == |message| % 64 &&
      64 * (|message| / 64) + blockSize == |message| &&
      block[..blockSize] == message[64 * (|message| / 64)..] &&
      state == Hashed(Compress, message, |message| / 64)
    }

    ghost predicate Valid()
      reads this, block
    {
      Pending() && totalBytes == |message| % TWO64
    }

    /** The rounds in eight variables, the schedule in an array. */
    method Transform()
      requires block.Length == 64
      modifies this`state
      ensures state == Compress(old(state), block[..])
    {
      hide Round, Rounds, W, K, BigEndian, Scheduled, Sum;
      ConstantsFit();
      ghost var bytes: Block := block[..];
      var words := new Word[64](_ => 0);
      for index := 0 to 16
        invariant forall t :: 0 <= t < index ==> words[t] == W(bytes, t)
        invariant state == old(state)
      {
        ScheduleStarts(bytes, index);
        words[index] := BigEndian(block[4 * index], block[4 * index + 1], block[4 * index + 2], block[4 * index + 3]);
      }
      for index := 16 to 64
        invariant forall t :: 0 <= t < index ==> words[t] == W(bytes, t)
        invariant state == old(state)
      {
        ScheduleUnfolds(bytes, index);
        words[index] := Scheduled(words[index - 16], words[index - 15], words[index - 7], words[index - 2]);
      }
      var v := Load(state);
      RoundsUnfold(bytes, Load(state), 0);
      for index := 0 to 64
        invariant forall t :: 0 <= t < 64 ==> words[t] == W(bytes, t)
        invariant v == Rounds(bytes, Load(state), index) && state == old(state)
      {
        RoundsUnfold(bytes, Load(state), index);
        v := Round(v, K[index], words[index]);
      }
      state := Sum(v, state);
    }

    /** One byte of update. */
    method Put(byte: Byte)
      requires Pending()
      modifies this`state, this`blockSize, this`message, block
      ensures Pending() && message == old(message) + [byte]
    {
      hide Compress, Hashed;
      ghost var before, n := message, |message| / 64;
      block[blockSize] := byte;
      blockSize := blockSize + 1;
      message := message + [byte];
      CountsOn(|before|);
      assert block[..blockSize] == before[64 * n..] + [byte];
      assert message[64 * n..] == before[64 * n..] + [byte];
      SamePrefix(Compress, before, message, n);
      if blockSize == block.Length {
        FullBlock(Compress, before, byte, n, block[..]);
        Transform();
        blockSize := 0;
      }
    }

    method Update(bytes: seq<Byte>)
      requires Valid()
      modifies this`state, this`blockSize, this`totalBytes, this`message, block
      ensures Valid() && message == old(message) + bytes
    {
      hide Compress, Hashed;
      TotalWraps(|message|, |bytes|);
      totalBytes := (totalBytes + |bytes|) % TWO64;
      ghost var total := totalBytes;
      for i := 0 to |bytes|
        invariant Pending() && message == old(message) + bytes[..i] && totalBytes == total
      {
        Put(bytes[i]);
        assert bytes[..i + 1] == bytes[..i] + [bytes[i]];
      }
      assert bytes[..|bytes|] == bytes;
    }

    /** The digest of everything fed since the construction. */
    method Finish() returns (digest: seq<Byte>)
      requires Valid()
      modifies this`state, this`blockSize, block
      ensures digest == Digest(message)
    {
      hide Compress, Hashed, Shifted, LengthByte, Padded;
      ghost var n := |message| / 64;
      ghost var head, tail := message[..64 * n], message[64 * n..];
      assert head + tail == message;
      SamePrefix(Compress, head, message, n);
      PaddedHash(Compress, head, tail, n);
      var bitCount := totalBytes * 8 % TWO64;
      WrappedBits(|message|);
      block[blockSize] := 0x80;
      blockSize := blockSize + 1;
      assert block[..blockSize] == tail + [0x80];
      if blockSize > 56 {
        FillTo(64);
        assert block[..] == LastButOne(tail);
        Transform();
        blockSize := 0;
      }
      FillTo(56);
      assert block[..56] == BlockStart(tail);
      WriteLength(bitCount);
      assert block[..] == LastBlock(tail, bitCount);
      Transform();
      digest := Bytes(state);
    }

    method WriteLength(bitCount: nat)
      requires block.Length == 64
      modifies block
      ensures block[..] == old(block[..56]) + LengthField(bitCount)
    {
      hide LengthByte;
      for index := 0 to 8
        invariant block[..56] == old(block[..56])
        invariant forall k :: 64 - index <= k < 64 ==> block[k] == LengthByte(bitCount, 63 - k)
      {
        block[63 - index] := LengthByte(bitCount, index);
      }
      assert block[..] == block[..56] + block[56..];
      assert block[56..] == LengthField(bitCount);
    }

    method FillTo(end: nat)
      requires block.Length == 64 && blockSize <= end <= 64
      modifies this`blockSize, block
      ensures blockSize == end
      ensures block[..end] == old(block[..blockSize]) + Zeros(end - old(blockSize))
    {
      ghost var start := blockSize;
      while blockSize < end
        invariant start <= blockSize <= end
        invariant block[..blockSize] == old(block[..blockSize]) + Zeros(blockSize - start)
      {
        block[blockSize] := 0;
        blockSize := blockSize + 1;
      }
    }
  }

  function Joined(chunks: seq<seq<Byte>>): seq<Byte> {
    if chunks == [] then [] else chunks[0] + Joined(chunks[1..])
  }

  /** Hashing in chunks, as a file is read: only the joined bytes matter. */
  method HashChunks(chunks: seq<seq<Byte>>) returns (digest: seq<Byte>)
    ensures digest == Digest(Joined(chunks))
  {
    hide Digest, Compress, Hashed, Joined, Hasher.Valid, Hasher.Pending;
    var hash := new Hasher();
    JoinedStep([], []);
    assert chunks[..0] == [];
    for i := 0 to |chunks|
      invariant hash.Valid() && fresh(hash) && fresh(hash.block)
      invariant hash.message == Joined(chunks[..i])
    {
      JoinedStep(chunks[..i], chunks[i]);
      assert chunks[..i] + [chunks[i]] == chunks[..i + 1];
      hash.Update(chunks[i]);
    }
    assert chunks[..|chunks|] == chunks;
    digest := hash.Finish();
  }

  lemma {:induction false} JoinedStep(chunks: seq<seq<Byte>>, chunk: seq<Byte>)
    ensures Joined(chunks + [chunk]) == Joined(chunks) + chunk
    ensures Joined([]) == []
    decreases |chunks|
  {
    if chunks == [] {
      assert chunks + [chunk] == [chunk] && [chunk][1..] == [];
    } else {
      assert (chunks + [chunk])[1..] == chunks[1..] + [chunk];
      JoinedStep(chunks[1..], chunk);
    }
  }

  /** The schedule in the order the code adds it. */
  function Scheduled(w16: Word, w15: Word, w7: Word, w2: Word): Word {
    Add(Add(Add(w16, SmallSigma0(w15)), w7), SmallSigma1(w2))
  }

  lemma Rescheduled(w16: Word, w15: Word, w7: Word, w2: Word)
    ensures Scheduled(w16, w15, w7, w2) == Add(Add(Add(SmallSigma1(w2), w7), SmallSigma0(w15)), w16)
  {
    hide SmallSigma0, SmallSigma1;
    Reversed(w16, SmallSigma0(w15), w7, SmallSigma1(w2));
  }

  lemma Reversed(a: Word, b: Word, c: Word, d: Word)
    ensures Add(Add(Add(a, b), c), d) == Add(Add(Add(d, c), b), a)
  {
    hide Add;
    Commutes(Add(a, b), c);
    AddAssociative(c, Add(a, b), d);
    Commutes(c, Add(Add(a, b), d));
    Commutes(a, b);
    Commutes(Add(a, b), d);
    AddAssociative(d, b, a);
    Commutes(Add(d, Add(b, a)), c);
    AddAssociative(c, d, Add(b, a));
    Commutes(c, d);
    AddAssociative(Add(d, c), b, a);
  }

  lemma Commutes(a: Word, b: Word)
    ensures Add(a, b) == Add(b, a)
  {
  }

  lemma TotalWraps(a: nat, b: nat)
    ensures (a % TWO64 + b) % TWO64 == (a + b) % TWO64
  {
    var q: int := a / TWO64;
    assert a + b == a % TWO64 + b + TWO64 * q;
  }

  lemma CountsOn(length: nat)
    ensures var n, r := length / 64, length % 64;
      if r == 63 then (length + 1) / 64 == n + 1 && (length + 1) % 64 == 0 && 64 * (n + 1) == length + 1
      else (length + 1) / 64 == n && (length + 1) % 64 == r + 1 && 64 * n + r + 1 == length + 1
  {
  }

  lemma FullBlock(step: Step, before: seq<Byte>, byte: Byte, n: nat, block: Block)
    requires |before| == 64 * n + 63 && block == before[64 * n..] + [byte]
    ensures Hashed(step, before + [byte], n + 1) == step(Hashed(step, before, n), block)
  {
    hide Hashed;
    var head := before[..64 * n];
    SamePrefix(step, head, before, n);
    assert before + [byte] == head + block;
    OneMore(step, head, n, block);
  }

  /** The start of the last block: the padding bit, or zeros after it has gone. */
  function BlockStart(tail: seq<Byte>): (r: seq<Byte>)
    requires |tail| < 64
    ensures |r| == 56
  {
    if |tail| < 56 then tail + [0x80] + Zeros(55 - |tail|) else Zeros(56)
  }

  function LastButOne(tail: seq<Byte>): (r: Block)
    requires 56 <= |tail| < 64
  {
    tail + [0x80] + Zeros(63 - |tail|)
  }

  function LastBlock(tail: seq<Byte>, bits: nat): (r: Block)
    requires |tail| < 64
  {
    BlockStart(tail) + LengthField(bits)
  }

  /** The padding ends the message in one block or in two. */
  lemma PaddedShape(head: seq<Byte>, tail: seq<Byte>, n: nat)
    requires |head| == 64 * n && |tail| < 64
    ensures var bits := 8 * |head + tail| % TWO64;
      Padded(head + tail) == if |tail| < 56 then head + LastBlock(tail, bits)
                             else head + LastButOne(tail) + LastBlock(tail, bits)
  {
    hide LengthField;
    LeastZeros(n, |tail|, 0);
    if |tail| >= 56 {
      assert Zeros(119 - |tail|) == Zeros(63 - |tail|) + Zeros(56);
    }
  }

  lemma PaddedHash(step: Step, head: seq<Byte>, tail: seq<Byte>, n: nat)
    requires |head| == 64 * n && |tail| < 64
    ensures var bits := 8 * |head + tail| % TWO64;
      |Padded(head + tail)| == 64 * Blocks(|head + tail|) &&
      Hashed(step, Padded(head + tail), Blocks(|head + tail|)) ==
        step(if |tail| < 56 then Hashed(step, head, n) else step(Hashed(step, head, n), LastButOne(tail)),
             LastBlock(tail, bits))
  {
    hide Hashed, Padded, LastBlock, LastButOne;
    PaddingIsLeast(head + tail, 0);
    PaddedShape(head, tail, n);
    var last := LastBlock(tail, 8 * |head + tail| % TWO64);
    if |tail| < 56 {
      OneMore(step, head, n, last);
    } else {
      OneMore(step, head, n, LastButOne(tail));
      OneMore(step, head + LastButOne(tail), n + 1, last);
    }
  }

  lemma ScheduleUnfolds(block: Block, t: nat)
    requires 16 <= t < 64
    ensures W(block, t) == Scheduled(W(block, t - 16), W(block, t - 15), W(block, t - 7), W(block, t - 2))
  {
    hide Scheduled;
    Rescheduled(W(block, t - 16), W(block, t - 15), W(block, t - 7), W(block, t - 2));
  }

  lemma ScheduleStarts(block: Block, t: nat)
    requires t < 16
    ensures W(block, t) == BigEndian(block[4 * t], block[4 * t + 1], block[4 * t + 2], block[4 * t + 3])
  {
  }

  lemma RoundsUnfold(block: Block, v: Working, t: nat)
    requires t < |K| == 64
    ensures Rounds(block, v, t + 1) == Round(Rounds(block, v, t), K[t], W(block, t))
    ensures Rounds(block, v, 0) == v
  {
    hide Round, W, K;
  }
}
