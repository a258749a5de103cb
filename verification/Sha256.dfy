/** SHA-256 as FIPS 180-4 defines it: padding (section 5.1.1), the initial hash
    value (5.3.3) and the compression of one block (6.2.2). */
module Sha256Standard {
  import opened Machine

  /** Words add and shift as 32-bit machine words do. */
  type Word = bv32

  /** The round constants, sixteen a row. */
  function Constant(t: nat): Word
    requires t < 64
  {
    if t < 16 then Row1(t) else if t < 32 then Row2(t - 16) else if t < 48 then Row3(t - 32) else Row4(t - 48)
  }

  function Row1(i: nat): Word
    requires i < 16
  {
    match i
    case 0 => 0x428a2f98 case 1 => 0x71374491 case 2 => 0xb5c0fbcf case 3 => 0xe9b5dba5
    case 4 => 0x3956c25b case 5 => 0x59f111f1 case 6 => 0x923f82a4 case 7 => 0xab1c5ed5
    case 8 => 0xd807aa98 case 9 => 0x12835b01 case 10 => 0x243185be case 11 => 0x550c7dc3
    case 12 => 0x72be5d74 case 13 => 0x80deb1fe case 14 => 0x9bdc06a7 case _ => 0xc19bf174
  }

  function Row2(i: nat): Word
    requires i < 16
  {
    match i
    case 0 => 0xe49b69c1 case 1 => 0xefbe4786 case 2 => 0x0fc19dc6 case 3 => 0x240ca1cc
    case 4 => 0x2de92c6f case 5 => 0x4a7484aa case 6 => 0x5cb0a9dc case 7 => 0x76f988da
    case 8 => 0x983e5152 case 9 => 0xa831c66d case 10 => 0xb00327c8 case 11 => 0xbf597fc7
    case 12 => 0xc6e00bf3 case 13 => 0xd5a79147 case 14 => 0x06ca6351 case _ => 0x14292967
  }

  function Row3(i: nat): Word
    requires i < 16
  {
    match i
    case 0 => 0x27b70a85 case 1 => 0x2e1b2138 case 2 => 0x4d2c6dfc case 3 => 0x53380d13
    case 4 => 0x650a7354 case 5 => 0x766a0abb case 6 => 0x81c2c92e case 7 => 0x92722c85
    case 8 => 0xa2bfe8a1 case 9 => 0xa81a664b case 10 => 0xc24b8b70 case 11 => 0xc76c51a3
    case 12 => 0xd192e819 case 13 => 0xd6990624 case 14 => 0xf40e3585 case _ => 0x106aa070
  }

  function Row4(i: nat): Word
    requires i < 16
  {
    match i
    case 0 => 0x19a4c116 case 1 => 0x1e376c08 case 2 => 0x2748774c case 3 => 0x34b0bcb5
    case 4 => 0x391c0cb3 case 5 => 0x4ed8aa4a case 6 => 0x5b9cca4f case 7 => 0x682e6ff3
    case 8 => 0x748f82ee case 9 => 0x78a5636f case 10 => 0x84c87814 case 11 => 0x8cc70208
    case 12 => 0x90befffa case 13 => 0xa4506ceb case 14 => 0xbef9a3f7 case _ => 0xc67178f2
  }

  datatype Hash = Hash(a: Word, b: Word, c: Word, d: Word, e: Word, f: Word, g: Word, h: Word)

  const INITIAL := Hash(0x6a09e667, 0xbb67ae85, 0x3c6ef372, 0xa54ff53a, 0x510e527f, 0x9b05688c, 0x1f83d9ab, 0x5be0cd19)

  type Block = b: seq<byte> | |b| == 64 witness seq(64, _ => 0)

  /** Addition of words wraps. */
  function Add(x: Word, y: Word): Word { x + y }

  function Sum(x: Word, y: Word, z: Word, w: Word): Word { x + y + z + w }

  /** Rotation to the right. */
  function Rotr(x: Word, n: Word): Word
    requires n <= 32
  {
    (x >> n) | (x << (32 - n))
  }

  function Ch(x: Word, y: Word, z: Word): Word {
    (x & y) ^ (!x & z)
  }

  function Maj(x: Word, y: Word, z: Word): Word {
    (x & y) ^ (x & z) ^ (y & z)
  }

  function BigSigma0(x: Word): Word {
    Rotr(x, 2) ^ Rotr(x, 13) ^ Rotr(x, 22)
  }

  function BigSigma1(x: Word): Word {
    Rotr(x, 6) ^ Rotr(x, 11) ^ Rotr(x, 25)
  }

  function SmallSigma0(x: Word): Word {
    Rotr(x, 7) ^ Rotr(x, 18) ^ (x >> 3)
  }

  function SmallSigma1(x: Word): Word {
    Rotr(x, 17) ^ Rotr(x, 19) ^ (x >> 10)
  }

  function WordOf(n: nat): Word
    requires n < 0x1_0000_0000
  {
    n as bv32
  }

  function FromBigEndian(b0: byte, b1: byte, b2: byte, b3: byte): Word {
    WordOf(b0 * 0x100_0000 + b1 * 0x1_0000 + b2 * 0x100 + b3)
  }

  /** Word `t` of the message schedule. */
  function Schedule(block: Block, t: nat): Word {
    if t < 16 then FromBigEndian(block[4 * t], block[4 * t + 1], block[4 * t + 2], block[4 * t + 3])
    else Sum(SmallSigma1(Schedule(block, t - 2)), Schedule(block, t - 7),
             SmallSigma0(Schedule(block, t - 15)), Schedule(block, t - 16))
  }

  function Round(v: Hash, k: Word, w: Word): Hash {
    var t1 := Add(Add(Add(Add(v.h, BigSigma1(v.e)), Ch(v.e, v.f, v.g)), k), w);
    var t2 := Add(BigSigma0(v.a), Maj(v.a, v.b, v.c));
    Hash(Add(t1, t2), v.a, v.b, v.c, Add(v.d, t1), v.e, v.f, v.g)
  }

  function Rounds(v: Hash, block: Block, t: nat): Hash
    requires t <= 64
  {
    if t == 0 then v else Round(Rounds(v, block, t - 1), Constant(t - 1), Schedule(block, t - 1))
  }

  function Compress(v: Hash, block: Block): Hash {
    var r := Rounds(v, block, 64);
    Hash(Add(v.a, r.a), Add(v.b, r.b), Add(v.c, r.c), Add(v.d, r.d),
         Add(v.e, r.e), Add(v.f, r.f), Add(v.g, r.g), Add(v.h, r.h))
  }

  // --- Padding and the digest ---

  /** The hash after every whole block of `bytes`; a trailing partial block is not read. */
  function Fold(v: Hash, bytes: seq<byte>): Hash
    decreases |bytes|
  {
    if |bytes| < 64 then v else Fold(Compress(v, bytes[..64]), bytes[64..])
  }

  /** The number of zero bytes the padding puts between the marker and the length. */
  function ZeroCount(n: nat): nat {
    (119 - n % 64) % 64
  }

  /** Big-endian bytes of a 64-bit length. */
  function LengthBytes(bits: u64): (b: seq<byte>)
    ensures |b| == 8
  {
    BigEndian(bits / 0x1_0000_0000) + BigEndian(bits % 0x1_0000_0000)
  }

  function Zeros(n: nat): (z: seq<byte>)
    ensures |z| == n && forall i :: 0 <= i < n ==> z[i] == 0
  {
    seq(n, _ => 0)
  }

  function Padded(message: seq<byte>): seq<byte> {
    message + [0x80] + Zeros(ZeroCount(|message|)) + LengthBytes(8 * |message| % TWO_64)
  }

  /** The padding completes a block, and with the fewest zeros that do. */
  lemma FewestZeros(n: nat, k: nat)
    ensures (n + 9 + ZeroCount(n)) % 64 == 0
    ensures (n + 9 + k) % 64 == 0 ==> k >= ZeroCount(n)
  {
  }

  function BigEndian(n: nat): (b: seq<byte>)
    requires n < 0x1_0000_0000
    ensures |b| == 4
  {
    [n / 0x100_0000, n / 0x1_0000 % 256, n / 0x100 % 256, n % 256]
  }

  function WordBytes(w: Word): (b: seq<byte>)
    ensures |b| == 4
  {
    BigEndian(w as nat)
  }

  /** The length field is the number of bits, most significant byte first. */
  lemma LengthExactly(bits: u64)
    ensures var b := LengthBytes(bits);
            bits == b[0] as int * 0x100_0000_0000_0000 + b[1] as int * 0x1_0000_0000_0000
                    + b[2] as int * 0x100_0000_0000 + b[3] as int * 0x1_0000_0000
                    + b[4] as int * 0x100_0000 + b[5] as int * 0x1_0000 + b[6] as int * 0x100 + b[7] as int
  {
    BytesAdd(bits / 0x1_0000_0000);
    BytesAdd(bits % 0x1_0000_0000);
    hide BigEndian;
  }

  /** The bytes of a word read back as the word. */
  lemma WordRoundTrip(w: Word)
    ensures var b := WordBytes(w); FromBigEndian(b[0], b[1], b[2], b[3]) == w
  {
    NatRoundTrip(w);
    BytesAdd(w as nat);
    hide WordOf, BigEndian;
  }

  lemma NatRoundTrip(w: Word)
    ensures WordOf(w as nat) == w
  {
  }

  lemma BytesAdd(n: nat)
    requires n < 0x1_0000_0000
    ensures var b := BigEndian(n);
            b[0] as int * 0x100_0000 + b[1] as int * 0x1_0000 + b[2] as int * 0x100 + b[3] as int == n
  {
    BytesOf(n);
  }

  lemma BytesOf(n: nat)
    ensures n / 0x100_0000 * 0x100_0000 + n / 0x1_0000 % 256 * 0x1_0000 + n / 0x100 % 256 * 0x100 + n % 256 == n
  {
    var n1 := n / 0x100;
    var n2 := n1 / 0x100;
    assert n / 0x1_0000 == n2 && n / 0x100_0000 == n2 / 0x100;
    assert n == n1 * 0x100 + n % 256 && n1 == n2 * 0x100 + n1 % 256;
  }

  function HashBytes(v: Hash): (b: seq<byte>)
    ensures |b| == 32
  {
    WordBytes(v.a) + WordBytes(v.b) + WordBytes(v.c) + WordBytes(v.d)
    + WordBytes(v.e) + WordBytes(v.f) + WordBytes(v.g) + WordBytes(v.h)
  }

  function Digest(message: seq<byte>): (b: seq<byte>)
    ensures |b| == 32
  {
    HashBytes(Fold(INITIAL, Padded(message)))
  }

  /** Folding whole blocks first and the rest after is folding everything. */
  lemma {:induction false} FoldAppend(v: Hash, whole: seq<byte>, rest: seq<byte>)
    requires |whole| % 64 == 0
    ensures Fold(v, whole + rest) == Fold(Fold(v, whole), rest)
    decreases |whole|
  {
    hide Compress;
    if |whole| == 0 {
      assert whole + rest == rest;
    } else {
      assert (whole + rest)[..64] == whole[..64];
      assert (whole + rest)[64..] == whole[64..] + rest;
      FoldAppend(Compress(v, whole[..64]), whole[64..], rest);
    }
  }

  lemma FoldBlock(v: Hash, block: Block)
    ensures Fold(v, block) == Compress(v, block)
  {
    assert block[..64] == block && block[64..] == [];
  }
}

/** The incremental hasher: a running state, a partial block and a length. */
module StreamingSha256 {
  import opened Machine
  import opened Sha256Standard

  /** The code adds the words in its own order. */
  lemma SumOrder(x: Word, y: Word, z: Word, w: Word)
    ensures Sum(x, y, z, w) == Sum(w, z, y, x)
  {
  }

  method FillSchedule(block: Block) returns (w: array<Word>)
    ensures fresh(w) && w.Length == 64
    ensures forall i :: 0 <= i < 64 ==> w[i] == Schedule(block, i)
  {
    hide Sum, SmallSigma0, SmallSigma1, FromBigEndian;
    w := new Word[64];
    var t := 0;
    while t < 16
      invariant 0 <= t <= 16
      invariant forall i :: 0 <= i < t ==> w[i] == Schedule(block, i)
    {
      w[t] := FromBigEndian(block[4 * t], block[4 * t + 1], block[4 * t + 2], block[4 * t + 3]);
      t := t + 1;
    }
    while t < 64
      invariant 16 <= t <= 64
      invariant forall i :: 0 <= i < t ==> w[i] == Schedule(block, i)
    {
      var s0 := SmallSigma0(w[t - 15]);
      var s1 := SmallSigma1(w[t - 2]);
      SumOrder(w[t - 16], s0, w[t - 7], s1);
      w[t] := Sum(w[t - 16], s0, w[t - 7], s1);
      t := t + 1;
    }
  }

  method CompressBlock(state: Hash, block: Block) returns (r: Hash)
    ensures r == Compress(state, block)
  {
    hide Add, BigSigma0, BigSigma1, Ch, Maj, Schedule, Constant;
    var w := FillSchedule(block);
    var a, b, c, d := state.a, state.b, state.c, state.d;
    var e, f, g, h := state.e, state.f, state.g, state.h;
    var t := 0;
    while t < 64
      invariant 0 <= t <= 64
      invariant Hash(a, b, c, d, e, f, g, h) == Rounds(state, block, t)
    {
      var s1 := BigSigma1(e);
      var ch := Ch(e, f, g);
      var temp1 := Add(Add(Add(Add(h, s1), ch), Constant(t)), w[t]);
      var s0 := BigSigma0(a);
      var maj := Maj(a, b, c);
      var temp2 := Add(s0, maj);
      h := g;
      g := f;
      f := e;
      e := Add(d, temp1);
      d := c;
      c := b;
      b := a;
      a := Add(temp1, temp2);
      t := t + 1;
    }
    r := Hash(Add(state.a, a), Add(state.b, b), Add(state.c, c), Add(state.d, d),
              Add(state.e, e), Add(state.f, f), Add(state.g, g), Add(state.h, h));
  }

  /** `state` has absorbed all of `message` but `tail`. */
  ghost predicate Represents(state: Hash, tail: seq<byte>, message: seq<byte>) {
    && |tail| <= |message| && (|message| - |tail|) % 64 == 0
    && tail == message[|message| - |tail|..]
    && state == Fold(INITIAL, message[..|message| - |tail|])
  }

  lemma AbsorbTail(state: Hash, tail: seq<byte>, message: seq<byte>, more: seq<byte>)
    requires Represents(state, tail, message)
    ensures Represents(state, tail + more, message + more)
  {
    hide Fold;
    var n := |message| - |tail|;
    assert (message + more)[..n] == message[..n];
    assert (message + more)[n..] == message[n..] + more;
  }

  lemma AbsorbBlock(state: Hash, block: Block, message: seq<byte>)
    requires Represents(state, block, message)
    ensures Represents(Compress(state, block), [], message)
  {
    hide Compress;
    var n := |message| - 64;
    assert message == message[..n] + block;
    assert message[..|message|] == message;
    FoldAppend(INITIAL, message[..n], block);
    FoldBlock(Fold(INITIAL, message[..n]), block);
  }

  lemma TailLength(state: Hash, tail: seq<byte>, message: seq<byte>)
    requires Represents(state, tail, message) && |tail| < 64
    ensures |message| % 64 == |tail|
  {
    hide Fold;
    RemainderOf(|message|, |tail|);
  }

  lemma RemainderOf(n: nat, r: nat)
    requires r < 64 && r <= n && (n - r) % 64 == 0
    ensures n % 64 == r
  {
  }

  lemma WholeMessage(state: Hash, message: seq<byte>)
    requires Represents(state, [], message)
    ensures state == Fold(INITIAL, message)
  {
    assert message[..|message|] == message;
  }

  lemma LengthAdds(n: nat, k: nat)
    ensures (8 * n % TWO_64 + 8 * k) % TWO_64 == 8 * (n + k) % TWO_64
  {
  }

  /** Compress whole blocks straight from the input. */
  method AbsorbBlocks(start: Hash, ghost before: seq<byte>,
                      chunk: seq<byte>) returns (state: Hash, ghost seen: seq<byte>, input: seq<byte>)
    requires Represents(start, [], before)
    ensures Represents(state, [], seen) && seen + input == before + chunk && |input| < 64
  {
    hide Compress;
    state, input, seen := start, chunk, before;
    while |input| >= 64
      invariant Represents(state, [], seen) && seen + input == before + chunk
    {
      var block := input[..64];
      AbsorbTail(state, [], seen, block);
      assert [] + block == block;
      seen := seen + block;
      AbsorbBlock(state, block, seen);
      state := CompressBlock(state, block);
      input := input[64..];
    }
  }

  class Sha256 {
    var state: Hash
    var bitLen: u64
    var buffer: array<byte>
    var bufferLen: nat
    ghost var message: seq<byte>   // everything hashed so far

    /** The state has absorbed the whole blocks of the message; the buffer holds the rest. */
    ghost predicate Valid()
      reads this, buffer
    {
      && buffer.Length == 64 && bufferLen < 64
      && Represents(state, buffer[..bufferLen], message)
      && bitLen == 8 * |message| % TWO_64
    }

    constructor ()
      ensures Valid() && fresh(buffer) && message == []
    {
      state := INITIAL;
      bitLen := 0;
      buffer := new byte[64](_ => 0);
      bufferLen := 0;
      message := [];
    }

    /** Complete the partial block from the front of the input. */
    method TopUp(chunk: seq<byte>, ghost before: seq<byte>) returns (input: seq<byte>, ghost seen: seq<byte>)
      requires buffer.Length == 64 && 0 < bufferLen < 64 && Represents(state, buffer[..bufferLen], before)
      modifies this`state, this`bufferLen, buffer
      ensures bufferLen < 64 && Represents(state, buffer[..bufferLen], seen)
      ensures seen + input == before + chunk && (bufferLen > 0 ==> input == [])
    {
      hide Compress;
      var needed := 64 - bufferLen;
      var take := if needed < |chunk| then needed else |chunk|;
      forall i | 0 <= i < take { buffer[bufferLen + i] := chunk[i]; }
      assert buffer[..bufferLen + take] == old(buffer[..bufferLen]) + chunk[..take];
      AbsorbTail(state, old(buffer[..bufferLen]), before, chunk[..take]);
      bufferLen := bufferLen + take;
      seen := before + chunk[..take];
      input := chunk[take..];
      if bufferLen == 64 {
        var block := buffer[..];
        assert block == buffer[..64];
        AbsorbBlock(state, block, seen);
        state := CompressBlock(state, block);
        bufferLen := 0;
        assert buffer[..0] == [];
      }
    }

    method Update(chunk: seq<byte>)
      requires Valid()
      modifies this, buffer
      ensures Valid() && buffer == old(buffer)
      ensures message == old(message) + chunk
    {
      hide Compress, Represents;
      LengthAdds(|message|, |chunk|);
      bitLen := (bitLen + 8 * |chunk|) % TWO_64;
      message := message + chunk;
      var input := chunk;
      ghost var seen := old(message);       // the part of the message taken in so far
      if bufferLen > 0 {
        input, seen := TopUp(input, seen);
      }
      if bufferLen > 0 {
        assert seen == message;
      } else {
        assert buffer[..bufferLen] == [];
        state, seen, input := AbsorbBlocks(state, seen, input);
        AbsorbTail(state, [], seen, input);
        assert [] + input == input;
        if |input| > 0 {
          forall i | 0 <= i < |input| { buffer[i] := input[i]; }
          bufferLen := |input|;
        }
        assert buffer[..bufferLen] == input;
      }
    }

    /** Fill the rest of the block with zeros and absorb it. */
    method FlushMarker(ghost seen: seq<byte>)
      requires buffer.Length == 64 && bufferLen <= 64 && Represents(state, buffer[..bufferLen], seen)
      modifies this`state, this`bufferLen, buffer
      ensures bufferLen == 0 && Represents(state, [], seen + Zeros(64 - old(bufferLen)))
    {
      hide Compress, Fold;
      ghost var zeros := Zeros(64 - bufferLen);
      ghost var tail := buffer[..bufferLen];
      forall i | bufferLen <= i < 64 { buffer[i] := 0; }
      var block := buffer[..];
      assert block == tail + zeros;
      AbsorbTail(state, tail, seen, zeros);
      AbsorbBlock(state, block, seen + zeros);
      state := CompressBlock(state, block);
      bufferLen := 0;
    }

    /** Zeros up to the length field, the length, and the last block. */
    method FlushLength(ghost seen: seq<byte>)
      requires buffer.Length == 64 && bufferLen <= 56 && Represents(state, buffer[..bufferLen], seen)
      modifies this`state, buffer
      ensures Represents(state, [], seen + (Zeros(56 - bufferLen) + LengthBytes(bitLen)))
    {
      hide Compress, Fold, LengthBytes;
      ghost var tail := buffer[..bufferLen];
      var length := LengthBytes(bitLen);
      forall i | bufferLen <= i < 56 { buffer[i] := 0; }
      forall i | 0 <= i < 8 { buffer[56 + i] := length[i]; }
      var block := buffer[..];
      ghost var last := Zeros(56 - bufferLen) + length;
      assert block == tail + last;
      AbsorbTail(state, tail, seen, last);
      AbsorbBlock(state, block, seen + last);
      state := CompressBlock(state, block);
    }

    /** Pad, absorb the last one or two blocks, and return the digest. */
    method Finish() returns (digest: seq<byte>)
      requires Valid()
      modifies this, buffer
      ensures digest == Digest(message) && message == old(message)
    {
      hide Compress, Fold, LengthBytes, Represents, HashBytes, ZeroCount;
      ghost var tail := buffer[..bufferLen];
      ghost var seen := message + [0x80];
      ghost var first := 0;
      TailLength(state, tail, message);
      ZerosNeeded(|message|);
      AbsorbTail(state, tail, message, [0x80]);
      buffer[bufferLen] := 0x80;
      bufferLen := bufferLen + 1;
      assert buffer[..bufferLen] == tail + [0x80];
      if bufferLen > 56 {
        first := 64 - bufferLen;
        FlushMarker(seen);
        assert buffer[..bufferLen] == [];
      }
      assert seen + Zeros(0) == seen;
      FlushLength(seen + Zeros(first));
      PaddedInTwo(message, first, 56 - bufferLen);
      WholeMessage(state, Padded(message));
      digest := HashBytes(state);
    }
  }

  lemma ZerosNeeded(n: nat)
    ensures ZeroCount(n) == if n % 64 < 56 then 55 - n % 64 else 119 - n % 64
  {
  }

  lemma PaddedInTwo(message: seq<byte>, first: nat, second: nat)
    requires first + second == ZeroCount(|message|)
    ensures message + [0x80] + Zeros(first) + (Zeros(second)
              + LengthBytes(8 * |message| % TWO_64)) == Padded(message)
  {
    assert Zeros(first) + Zeros(second) == Zeros(ZeroCount(|message|));
  }

  /** Hashing a message in any pieces, in order, is hashing the message. */
  function Joined(chunks: seq<seq<byte>>): seq<byte> {
    if chunks == [] then [] else Joined(chunks[..|chunks| - 1]) + chunks[|chunks| - 1]
  }

  method HashChunks(chunks: seq<seq<byte>>) returns (digest: seq<byte>)
    ensures digest == Digest(Joined(chunks))
  {
    var hasher := new Sha256();
    var i := 0;
    while i < |chunks|
      invariant 0 <= i <= |chunks| && hasher.Valid() && fresh(hasher) && fresh(hasher.buffer)
      invariant hasher.message == Joined(chunks[..i])
    {
      assert chunks[..i + 1][..i] == chunks[..i];
      hasher.Update(chunks[i]);
      i := i + 1;
    }
    assert chunks[..i] == chunks;
    digest := hasher.Finish();
  }
}
