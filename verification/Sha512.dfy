/**
 Streaming SHA-512. The hash is defined on whole messages as FIPS 180-4 does: padding
 (section 5.1.2), initial value (5.3.5), functions (4.1.3), constants (4.2.3), compression
 (6.4.2). The context object is proved to compute it for every way of cutting a message up.
 */
module Sha512 {
  import opened Bytes

  type octet = bv8

  const BLOCK: nat := 128
  const DIGEST_LEN: nat := 64

  const H0: seq<bv64> := [
    0x6a09e667f3bcc908, 0xbb67ae8584caa73b, 0x3c6ef372fe94f82b, 0xa54ff53a5f1d36f1,
    0x510e527fade682d1, 0x9b05688c2b3e6c1f, 0x1f83d9abfb41bd6b, 0x5be0cd19137e2179]

  const K: seq<bv64> := [
    0x428a2f98d728ae22, 0x7137449123ef65cd, 0xb5c0fbcfec4d3b2f, 0xe9b5dba58189dbbc,
    0x3956c25bf348b538, 0x59f111f1b605d019, 0x923f82a4af194f9b, 0xab1c5ed5da6d8118,
    0xd807aa98a3030242, 0x12835b0145706fbe, 0x243185be4ee4b28c, 0x550c7dc3d5ffb4e2,
    0x72be5d74f27b896f, 0x80deb1fe3b1696b1, 0x9bdc06a725c71235, 0xc19bf174cf692694,
    0xe49b69c19ef14ad2, 0xefbe4786384f25e3, 0x0fc19dc68b8cd5b5, 0x240ca1cc77ac9c65,
    0x2de92c6f592b0275, 0x4a7484aa6ea6e483, 0x5cb0a9dcbd41fbd4, 0x76f988da831153b5,
    0x983e5152ee66dfab, 0xa831c66d2db43210, 0xb00327c898fb213f, 0xbf597fc7beef0ee4,
    0xc6e00bf33da88fc2, 0xd5a79147930aa725, 0x06ca6351e003826f, 0x142929670a0e6e70,
    0x27b70a8546d22ffc, 0x2e1b21385c26c926, 0x4d2c6dfc5ac42aed, 0x53380d139d95b3df,
    0x650a73548baf63de, 0x766a0abb3c77b2a8, 0x81c2c92e47edaee6, 0x92722c851482353b,
    0xa2bfe8a14cf10364, 0xa81a664bbc423001, 0xc24b8b70d0f89791, 0xc76c51a30654be30,
    0xd192e819d6ef5218, 0xd69906245565a910, 0xf40e35855771202a, 0x106aa07032bbd1b8,
    0x19a4c116b8d2d0c8, 0x1e376c085141ab53, 0x2748774cdf8eeb99, 0x34b0bcb5e19b48a8,
    0x391c0cb3c5c95a63, 0x4ed8aa4ae3418acb, 0x5b9cca4f7763e373, 0x682e6ff3d6b2b8a3,
    0x748f82ee5defb2fc, 0x78a5636f43172f60, 0x84c87814a1f0ab72, 0x8cc702081a6439ec,
    0x90befffa23631e28, 0xa4506cebde82bde9, 0xbef9a3f7b2c67915, 0xc67178f2e372532b,
    0xca273eceea26619c, 0xd186b8c721c0c207, 0xeada7dd6cde0eb1e, 0xf57d4f7fee6ed178,
    0x06f067aa72176fba, 0x0a637dc5a2c898a6, 0x113f9804bef90dae, 0x1b710b35131c471b,
    0x28db77f523047d84, 0x32caab7b40c72493, 0x3c9ebe0a15c9bebc, 0x431d67c49c100d4c,
    0x4cc5d4becb3e42b6, 0x597f299cfc657e2a, 0x5fcb6fab3ad6faec, 0x6c44198c4a475817]

  // ---- the functions of section 4.1.3, with rotation as such ----

  function Ch(x: bv64, y: bv64, z: bv64): bv64 {
    (x & y) ^ (!x & z)
  }

  function Maj(x: bv64, y: bv64, z: bv64): bv64 {
    (x & y) ^ (x & z) ^ (y & z)
  }

  function BigSigma0(x: bv64): bv64 {
    x.RotateRight(28) ^ x.RotateRight(34) ^ x.RotateRight(39)
  }

  function BigSigma1(x: bv64): bv64 {
    x.RotateRight(14) ^ x.RotateRight(18) ^ x.RotateRight(41)
  }

  function SmallSigma0(x: bv64): bv64 {
    x.RotateRight(1) ^ x.RotateRight(8) ^ (x >> 7)
  }

  function SmallSigma1(x: bv64): bv64 {
    x.RotateRight(19) ^ x.RotateRight(61) ^ (x >> 6)
  }

  // ---- the same as the code writes them, with two shifts per rotation ----

  function CodeSigma0(x: bv64): (r: bv64)
    ensures r == BigSigma0(x)
  {
    ((x >> 28) | (x << 36)) ^ ((x >> 34) | (x << 30)) ^ ((x >> 39) | (x << 25))
  }

  function CodeSigma1(x: bv64): (r: bv64)
    ensures r == BigSigma1(x)
  {
    ((x >> 14) | (x << 50)) ^ ((x >> 18) | (x << 46)) ^ ((x >> 41) | (x << 23))
  }

  function CodeSmallSigma0(x: bv64): (r: bv64)
    ensures r == SmallSigma0(x)
  {
    ((x >> 1) | (x << 63)) ^ ((x >> 8) | (x << 56)) ^ (x >> 7)
  }

  function CodeSmallSigma1(x: bv64): (r: bv64)
    ensures r == SmallSigma1(x)
  {
    ((x >> 19) | (x << 45)) ^ ((x >> 61) | (x << 3)) ^ (x >> 6)
  }

  // ---- addition modulo 2^64, named so that proofs need not look inside it ----

  function Add(x: bv64, y: bv64): bv64 {
    x + y
  }

  function Add4(x: bv64, y: bv64, z: bv64, u: bv64): bv64 {
    x + y + z + u
  }

  function Add5(x: bv64, y: bv64, z: bv64, u: bv64, v: bv64): bv64 {
    x + y + z + u + v
  }

  // ---- words and their bytes ----

  /** Eight bytes as a big-endian word. */
  function Word(b: seq<octet>): bv64
    requires |b| == 8
  {
    ((b[0] as bv64) << 56) | ((b[1] as bv64) << 48) | ((b[2] as bv64) << 40) | ((b[3] as bv64) << 32) |
    ((b[4] as bv64) << 24) | ((b[5] as bv64) << 16) | ((b[6] as bv64) << 8) | (b[7] as bv64)
  }

  function LowByte8(w: bv64): octet {
    (w & 0xFF) as bv8
  }

  /** The bytes w >> 56, w >> 48, ..., w >> 0, each cut to eight bits. */
  function WordBytes(w: bv64): (b: seq<octet>)
    ensures |b| == 8
  {
    [LowByte8(w >> 56), LowByte8(w >> 48), LowByte8(w >> 40), LowByte8(w >> 32),
     LowByte8(w >> 24), LowByte8(w >> 16), LowByte8(w >> 8), LowByte8(w)]
  }

  function WordsBytes(words: seq<bv64>): (b: seq<octet>)
    ensures |b| == 8 * |words|
  {
    if words == [] then [] else WordsBytes(words[..|words| - 1]) + WordBytes(words[|words| - 1])
  }

  lemma LowByteKept(x: bv64)
    ensures ((x & 0xFF) as bv8) as bv64 == x & 0xFF
  {
  }

  lemma BytesReassemble(w: bv64)
    ensures (((w >> 56) & 0xFF) << 56) | (((w >> 48) & 0xFF) << 48) | (((w >> 40) & 0xFF) << 40) |
            (((w >> 32) & 0xFF) << 32) | (((w >> 24) & 0xFF) << 24) | (((w >> 16) & 0xFF) << 16) |
            (((w >> 8) & 0xFF) << 8) | (w & 0xFF) == w
  {
  }

  /** Serialising a word and reading it back is the identity: no byte is lost or moved. */
  lemma WordRoundTrip(w: bv64)
    ensures Word(WordBytes(w)) == w
  {
    LowByteKept(w >> 56);
    LowByteKept(w >> 48);
    LowByteKept(w >> 40);
    LowByteKept(w >> 32);
    LowByteKept(w >> 24);
    LowByteKept(w >> 16);
    LowByteKept(w >> 8);
    LowByteKept(w);
    BytesReassemble(w);
  }

  // ---- section 6.4.2 ----

  /** Word t of the message schedule. */
  function Schedule(block: seq<octet>, t: nat): bv64
    requires |block| == BLOCK && t < 80
  {
    if t < 16 then Word(block[8 * t..8 * t + 8])
    else Add4(SmallSigma1(Schedule(block, t - 2)), Schedule(block, t - 7), SmallSigma0(Schedule(block, t - 15)), Schedule(block, t - 16))
  }

  datatype Working = Working(a: bv64, b: bv64, c: bv64, d: bv64, e: bv64, f: bv64, g: bv64, h: bv64)

  function Step(v: Working, k: bv64, w: bv64): Working {
    var t1 := Add5(v.h, BigSigma1(v.e), Ch(v.e, v.f, v.g), k, w);
    var t2 := Add(BigSigma0(v.a), Maj(v.a, v.b, v.c));
    Working(Add(t1, t2), v.a, v.b, v.c, Add(v.d, t1), v.e, v.f, v.g)
  }

  function Rounds(v: Working, block: seq<octet>, t: nat): Working
    requires |block| == BLOCK && t <= 80
  {
    if t == 0 then v else Step(Rounds(v, block, t - 1), K[t - 1], Schedule(block, t - 1))
  }

  function FromState(s: seq<bv64>): Working
    requires |s| == 8
  {
    Working(s[0], s[1], s[2], s[3], s[4], s[5], s[6], s[7])
  }

  function AddState(s: seq<bv64>, v: Working): (r: seq<bv64>)
    requires |s| == 8
    ensures |r| == 8
  {
    var w := [v.a, v.b, v.c, v.d, v.e, v.f, v.g, v.h];
    seq(8, i requires 0 <= i < 8 => Add(s[i], w[i]))
  }

  function Compress(s: seq<bv64>, block: seq<octet>): (r: seq<bv64>)
    requires |s| == 8 && |block| == BLOCK
    ensures |r| == 8
  {
    var v := Rounds(FromState(s), block, 80);
    AddState(s, v)
  }

  /** All blocks of the data, in order. */
  function CompressAll(data: seq<octet>): (r: seq<bv64>)
    requires |data| % BLOCK == 0
    ensures |r| == 8
  {
    if data == [] then H0 else Compress(CompressAll(data[..|data| - BLOCK]), data[|data| - BLOCK..])
  }

  lemma CompressMore(data: seq<octet>, block: seq<octet>)
    requires |data| % BLOCK == 0 && |block| == BLOCK
    ensures CompressAll(data + block) == Compress(CompressAll(data), block)
  {
    assert (data + block)[..|data|] == data && (data + block)[|data|..] == block;
  }

  // ---- section 5.1.2 ----

  /** The k of the standard: the least count of zeros that leaves 16 bytes for the length. */
  function PadZeros(n: nat): nat {
    (239 - n % BLOCK) % BLOCK
  }

  lemma PadZerosIsLeast(n: nat, k: nat)
    ensures (n + 1 + PadZeros(n)) % BLOCK == 112
    ensures (n + 1 + k) % BLOCK == 112 ==> PadZeros(n) <= k
  {
    var r := n % BLOCK;
    assert n == BLOCK * (n / BLOCK) + r;
    var z := PadZeros(n);
    assert z == if r <= 111 then 111 - r else 239 - r;
    assert n + 1 + z == BLOCK * (n / BLOCK + if r <= 111 then 0 else 1) + 112;
  }

  lemma PaddedFits(n: nat)
    ensures (n + 17 + PadZeros(n)) % BLOCK == 0
  {
    var r := n % BLOCK;
    var z := PadZeros(n);
    assert z == if r <= 111 then 111 - r else 239 - r;
    assert n + 17 + z == BLOCK * (n / BLOCK + if r <= 111 then 1 else 2);
  }

  function Octets(s: seq<byte>): (r: seq<octet>)
    ensures |r| == |s|
  {
    seq(|s|, i requires 0 <= i < |s| => s[i] as bv8)
  }

  function ZeroOctets(n: nat): (r: seq<octet>)
    ensures |r| == n
  {
    seq(n, _ => 0)
  }

  /** The bit, the zeros, and the length in bits as 16 big-endian bytes. */
  function Padding(n: nat): (r: seq<octet>)
    ensures |r| == 17 + PadZeros(n)
  {
    [0x80] + ZeroOctets(PadZeros(n)) + Octets(ToBE(8 * n, 16))
  }

  /** The digest of a whole message. */
  function Digest(m: seq<octet>): (r: seq<octet>)
    ensures |r| == DIGEST_LEN
  {
    PaddedFits(|m|);
    WordsBytes(CompressAll(m + Padding(|m|)))
  }

  /** sha512_transform: the schedule and the rounds in place of one block. */
  method Transform(state: array<bv64>, block: seq<octet>)
    requires state.Length == 8 && |block| == BLOCK
    modifies state
    ensures state[..] == Compress(old(state[..]), block)
  {
    hide Schedule, Rounds, AddState;
    var w := ExpandSchedule(block);
    var v := RunRounds(state[..], block, w);
    AddInto(state, v);
  }

  /** The working variables are added onto the state. */
  method AddInto(state: array<bv64>, v: Working)
    requires state.Length == 8
    modifies state
    ensures state[..] == AddState(old(state[..]), v)
  {
    hide Add;
    var w := [v.a, v.b, v.c, v.d, v.e, v.f, v.g, v.h];
    for i := 0 to 8
      invariant forall j :: 0 <= j < i ==> state[j] == Add(old(state[j]), w[j])
      invariant forall j :: i <= j < 8 ==> state[j] == old(state[j])
    {
      state[i] := Add(state[i], w[i]);
    }
  }

  /** The 80 rounds over the eight working variables. */
  method RunRounds(s: seq<bv64>, block: seq<octet>, w: array<bv64>) returns (v: Working)
    requires |s| == 8 && |block| == BLOCK && w.Length == 80
    requires forall t :: 0 <= t < 80 ==> w[t] == Schedule(block, t)
    ensures v == Rounds(FromState(s), block, 80)
  {
    hide Schedule, Rounds, BigSigma0, BigSigma1, CodeSigma0, CodeSigma1, Ch, Maj, Add, Add5;
    var a, b, c, d := s[0], s[1], s[2], s[3];
    var e, f, g, h := s[4], s[5], s[6], s[7];
    ghost var start := FromState(s);
    FirstRound(start, block);
    for t := 0 to 80
      invariant Working(a, b, c, d, e, f, g, h) == Rounds(start, block, t)
    {
      var t1 := Add5(h, CodeSigma1(e), Ch(e, f, g), K[t], w[t]);
      var t2 := Add(CodeSigma0(a), Maj(a, b, c));
      NextRound(start, block, t);
      h := g;
      g := f;
      f := e;
      e := Add(d, t1);
      d := c;
      c := b;
      b := a;
      a := Add(t1, t2);
    }
    v := Working(a, b, c, d, e, f, g, h);
  }

  lemma FirstRound(v: Working, block: seq<octet>)
    requires |block| == BLOCK
    ensures Rounds(v, block, 0) == v
  {
  }

  lemma NextRound(v: Working, block: seq<octet>, t: nat)
    requires |block| == BLOCK && t < 80
    ensures Rounds(v, block, t + 1) == Step(Rounds(v, block, t), K[t], Schedule(block, t))
  {
    hide Schedule, Step;
  }

  lemma ScheduleExpands(block: seq<octet>, t: nat)
    requires |block| == BLOCK && 16 <= t < 80
    ensures Schedule(block, t) == Add4(SmallSigma1(Schedule(block, t - 2)), Schedule(block, t - 7),
                                       SmallSigma0(Schedule(block, t - 15)), Schedule(block, t - 16))
  {
    hide Word, SmallSigma0, SmallSigma1, Add4;
  }

  lemma ScheduleStarts(block: seq<octet>, t: nat)
    requires |block| == BLOCK && t < 16
    ensures Schedule(block, t) == Word(block[8 * t..8 * t + 8])
  {
    hide Word, SmallSigma0, SmallSigma1, Add4;
  }

  method ExpandSchedule(block: seq<octet>) returns (w: array<bv64>)
    requires |block| == BLOCK
    ensures fresh(w) && w.Length == 80
    ensures forall t :: 0 <= t < 80 ==> w[t] == Schedule(block, t)
  {
    hide Word, Schedule, SmallSigma0, SmallSigma1, CodeSmallSigma0, CodeSmallSigma1, Add4;
    w := new bv64[80](_ => 0);
    for t := 0 to 16
      invariant forall i :: 0 <= i < t ==> w[i] == Schedule(block, i)
    {
      ScheduleStarts(block, t);
      w[t] := Word(block[8 * t..8 * t + 8]);
    }
    for t := 16 to 80
      invariant forall i :: 0 <= i < t ==> w[i] == Schedule(block, i)
    {
      ScheduleExpands(block, t);
      w[t] := Add4(CodeSmallSigma1(w[t - 2]), w[t - 7], CodeSmallSigma0(w[t - 15]), w[t - 16]);
    }
  }

  method CopyOctets(output: array<octet>, at: nat, data: seq<octet>)
    requires at + |data| <= output.Length
    modifies output
    ensures output[..] == old(output[..at]) + data + old(output[at + |data|..])
  {
    for i := 0 to |data|
      invariant output[..at] == old(output[..at])
      invariant output[at..at + i] == data[..i]
      invariant output[at + i..] == old(output[at + i..])
    {
      output[at + i] := data[i];
      assert output[at..at + i + 1] == output[at..at + i] + [data[i]];
    }
    assert output[..] == output[..at] + output[at..at + |data|] + output[at + |data|..];
  }

  /** Two 64-bit words hold the byte count modulo 2^128. */
  ghost predicate Counts(hi: nat, lo: nat, n: nat) {
    hi < U64 && lo < U64 && hi * U64 + lo == n % (U64 * U64)
  }

  /** The state covers the whole blocks of the message, the buffer starts with the rest. */
  ghost predicate Holds(state: seq<bv64>, buffer: seq<octet>, m: seq<octet>) {
    var full := |m| - |m| % BLOCK;
    && |buffer| == BLOCK
    && state == CompressAll(m[..full])
    && buffer[..|m| % BLOCK] == m[full..]
  }

  lemma HoldsAt(state: seq<bv64>, buffer: seq<octet>, m: seq<octet>, full: nat, rest: nat)
    requires full % BLOCK == 0 && rest < BLOCK && full + rest == |m| && |buffer| == BLOCK
    requires state == CompressAll(m[..full]) && buffer[..rest] == m[full..]
    ensures Holds(state, buffer, m)
  {
    hide CompressAll;
    Position(full, rest);
  }

  /** The streaming context. `message` is everything absorbed so far. */
  class Context {
    const state: array<bv64>
    const buffer: array<octet>
    var count0: nat
    var count1: nat
    ghost var message: seq<octet>

    ghost predicate Valid()
      reads this, state, buffer
    {
      && state.Length == 8 && buffer.Length == BLOCK
      && Counts(count1, count0, |message|)
      && Holds(state[..], buffer[..], message)
    }

    /** alrios_sha512_init. */
    constructor ()
      ensures Valid() && message == [] && fresh(state) && fresh(buffer)
    {
      state := new bv64[8](i requires 0 <= i < 8 => H0[i]);
      buffer := new octet[BLOCK](_ => 0);
      count0, count1, message := 0, 0, [];
      new;
      assert state[..] == H0;
    }

    /** The running byte count, 128 bits in two words with a carry. */
    method AddCount(len: nat, ghost n: nat)
      requires Counts(count1, count0, n) && len < U64
      modifies this`count0, this`count1
      ensures Counts(count1, count0, n + len)
    {
      var previous := count0;
      count0 := (count0 + len) % U64;
      if count0 < previous {
        count1 := (count1 + 1) % U64;
      }
      assert previous + len < U64 ==> count0 == previous + len;
      assert previous + len >= U64 ==> count0 == previous + len - U64;
      AddModulo(n, len);
    }

    /**
     alrios_sha512_update. A null pointer is accepted without complaint whatever the length,
     and absorbs nothing.
     */
    method Update(data: array?<octet>, len: nat)
      requires Valid() && len < U64
      requires data != null ==> len <= data.Length && data != buffer
      modifies this, state, buffer
      ensures Valid()
      ensures message == old(message) + (if data == null then [] else data[..len])
    {
      hide CompressAll, Compress, Holds, Counts;
      if len == 0 || data == null {
        return;
      }
      ghost var before := message;
      ghost var all := before + data[..len];
      ghost var full := |before| - |before| % BLOCK;
      CountIsPosition(count1, count0, |before|);
      HoldsMeans(state[..], buffer[..], before);
      var index := count0 % BLOCK;
      AddCount(len, |before|);
      message := all;
      assert all[..full] == before[..full];
      var left, input := len, 0;
      if index > 0 {
        var toFill := BLOCK - index;
        if left < toFill {
          FillBuffer(before, data[..left], data[..len], index);
          HoldsAt(state[..], buffer[..], all, full, index + left);
          return;
        }
        FillBuffer(before, data[..toFill], data[..len], index);
        assert buffer[..] == buffer[..BLOCK];
        Transform(state, buffer[..]);
        NextBlock(all, full);
        left := left - toFill;
        input := input + toFill;
        full := full + BLOCK;
      }
      left, input, full := AbsorbBlocks(data, len, left, input, all, before, full);
      if left > 0 {
        assert data[input..input + left] == all[full..];
        CopyOctets(buffer, 0, data[input..input + left]);
      }
      assert buffer[..left] == all[full..];
      HoldsAt(state[..], buffer[..], all, full, left);
    }

    /** The front of the input goes behind what the buffer already holds. */
    method FillBuffer(ghost before: seq<octet>, part: seq<octet>, ghost whole: seq<octet>, index: nat)
      requires buffer.Length == BLOCK && index + |part| <= BLOCK && index <= |before|
      requires buffer[..index] == before[|before| - index..] && part <= whole
      modifies buffer
      ensures buffer[..index + |part|] == (before + whole)[|before| - index..|before| + |part|]
    {
      CopyOctets(buffer, index, part);
      assert (before + whole)[|before| - index..|before| + |part|] == before[|before| - index..] + part;
    }

    /** The middle of an update: whole blocks straight from the input. */
    method AbsorbBlocks(data: array<octet>, len: nat, left0: nat, input0: nat, ghost all: seq<octet>,
                        ghost before: seq<octet>, ghost full0: nat)
      returns (left: nat, input: nat, ghost full: nat)
      requires len <= data.Length && data != buffer && data as object != state && state.Length == 8
      requires left0 <= len && input0 == len - left0 && all == before + data[..len]
      requires full0 % BLOCK == 0 && full0 + left0 == |all| && state[..] == CompressAll(all[..full0])
      modifies state
      ensures left < BLOCK && left <= len && input == len - left
      ensures full % BLOCK == 0 && full + left == |all| && state[..] == CompressAll(all[..full])
    {
      hide CompressAll;
      left, input, full := left0, input0, full0;
      while left >= BLOCK
        invariant 0 <= left <= len && input == len - left
        invariant full % BLOCK == 0 && full + left == |all|
        invariant state[..] == CompressAll(all[..full])
      {
        assert full == |before| + input;
        assert data[input..input + BLOCK] == data[..len][input..input + BLOCK] == all[full..full + BLOCK];
        Transform(state, data[input..input + BLOCK]);
        NextBlock(all, full);
        left := left - BLOCK;
        input := input + BLOCK;
        full := full + BLOCK;
      }
    }

    /**
     alrios_sha512_final: pads in the buffer, in one block or in two, writes the digest and
     wipes the context. The standard defines the hash for fewer than 2^125 bytes.
     */
    method Final(output: array<octet>)
      requires Valid() && output.Length == DIGEST_LEN && output != buffer
      modifies this, state, buffer, output
      ensures |old(message)| < LENGTH_LIMIT ==> output[..] == Digest(old(message))
      ensures state[..] == seq(8, _ => 0) && buffer[..] == ZeroOctets(BLOCK) && count0 == count1 == 0
    {
      hide CompressAll, Compress, Holds, Counts, ToBE, Octets, ZeroOctets, PadZeros, IsBitLength, Digest, WordsBytes;
      ghost var m := message;
      ghost var full := |m| - |m| % BLOCK;
      var high, low := BitLength(|m|);
      CountIsPosition(count1, count0, |m|);
      HoldsMeans(state[..], buffer[..], m);
      var index := count0 % BLOCK;
      ghost var all := m + [0x80] + ZeroOctets(PadZeros(|m|)) + Octets(ToBE(high, 8)) + Octets(ToBE(low, 8));
      LastBlocks(m, full, index, high, low, all);
      assert state[..] == CompressAll(all[..full]);
      buffer[index] := 0x80;
      index := index + 1;
      assert buffer[..index] == m[full..] + [0x80];
      if index > 112 {
        CopyOctets(buffer, index, ZeroOctets(BLOCK - index));
        assert buffer[..] == all[full..full + BLOCK];
        Transform(state, buffer[..]);
        NextBlock(all, full);
        full := full + BLOCK;
        index := 0;
        assert buffer[..0] == [];
      }
      assert state[..] == CompressAll(all[..full]);
      Close(index, high, low, all[full..]);
      assert all[..full + BLOCK] == all && all[full..full + BLOCK] == all[full..];
      NextBlock(all, full);
      assert state[..] == CompressAll(all);
      Output(state, output);
      PaddedIsDigest(m, high, low, all);
      Wipe();
    }

    /** The last block: zeros, the bit length, and a final transform. */
    method Close(index: nat, high: nat, low: nat, ghost last: seq<octet>)
      requires state.Length == 8 && buffer.Length == BLOCK && index <= 112
      requires last == buffer[..index] + ZeroOctets(112 - index) + Octets(ToBE(high, 8)) + Octets(ToBE(low, 8))
      modifies state, buffer
      ensures |last| == BLOCK && state[..] == Compress(old(state[..]), last)
    {
      hide Compress, ToBE;
      CopyOctets(buffer, index, ZeroOctets(112 - index));
      StoreWord(buffer, 112, high);
      StoreWord(buffer, 120, low);
      assert buffer[..] == last;
      Transform(state, buffer[..]);
    }

    /** The byte count in bits, as two 64-bit words. */
    method BitLength(ghost n: nat) returns (high: nat, low: nat)
      requires Counts(count1, count0, n)
      ensures IsBitLength(n, high, low)
    {
      low := (count0 * 8) % U64;
      high := (count1 * 8) % U64 + count0 / 0x2000_0000_0000_0000;
      BitCount(count1, count0, n);
    }

    method Wipe()
      requires state.Length == 8 && buffer.Length == BLOCK
      modifies this`count0, this`count1, state, buffer
      ensures state[..] == seq(8, _ => 0) && buffer[..] == ZeroOctets(BLOCK) && count0 == count1 == 0
    {
      for i := 0 to 8
        invariant forall j :: 0 <= j < i ==> state[j] == 0
      {
        state[i] := 0;
      }
      CopyOctets(buffer, 0, ZeroOctets(BLOCK));
      count0, count1 := 0, 0;
    }
  }

  /** 2^125 bytes are 2^128 bits. */
  const LENGTH_LIMIT: nat := 0x2000_0000_0000_0000_0000_0000_0000_0000

  ghost predicate IsBitLength(n: nat, high: nat, low: nat) {
    low < U64 && (n < LENGTH_LIMIT ==> 8 * n == high * U64 + low)
  }

  /** With the standard's padding behind it, compressing everything gives the digest. */
  lemma PaddedIsDigest(m: seq<octet>, high: nat, low: nat, all: seq<octet>)
    requires IsBitLength(|m|, high, low)
    requires all == m + [0x80] + ZeroOctets(PadZeros(|m|)) + Octets(ToBE(high, 8)) + Octets(ToBE(low, 8))
    requires |all| % BLOCK == 0
    ensures |m| < LENGTH_LIMIT ==> Digest(m) == WordsBytes(CompressAll(all))
  {
    hide ToBE, CompressAll, WordsBytes, PadZeros, Octets;
    if |m| < LENGTH_LIMIT {
      LengthField(|m|, high, low);
      assert all == m + Padding(|m|);
    }
  }

  /** The byte counter turned into a bit counter. */
  lemma BitCount(hi: nat, lo: nat, n: nat)
    requires Counts(hi, lo, n)
    ensures (lo * 8) % U64 < U64
    ensures n < LENGTH_LIMIT ==> 8 * n == ((hi * 8) % U64 + lo / 0x2000_0000_0000_0000) * U64 + (lo * 8) % U64
  {
    if n < LENGTH_LIMIT {
      assert hi * U64 + lo == n;
      assert hi < 0x2000_0000_0000_0000;
      assert lo * 8 == (lo / 0x2000_0000_0000_0000) * U64 + (lo * 8) % U64;
    }
  }

  /** Byte i of a big-endian number. */
  lemma {:induction false} ToBEAt(n: nat, width: nat, i: nat)
    requires i < width
    ensures ToBE(n, width)[i] == (n / Pow256(width - 1 - i)) % 256
  {
    if i < width - 1 {
      ToBEAt(n / 256, width - 1, i);
      var p := Pow256(width - 2 - i);
      DivideTwice(n, p);
    }
  }

  lemma DivideTwice(n: nat, p: nat)
    requires 0 < p
    ensures n / (256 * p) == (n / 256) / p
  {
    var q, r := n / 256, n % 256;
    var a, b := q / p, q % p;
    assert q == p * a + b;
    assert n == 256 * (p * a + b) + r;
    assert n == (256 * p) * a + (256 * b + r);
    assert 256 * b + r < 256 * p;
    Quotient(n, 256 * p, a, 256 * b + r);
  }

  lemma Quotient(n: nat, d: nat, q: nat, r: nat)
    requires 0 < d && r < d && n == d * q + r
    ensures n / d == q
  {
    var q', r' := n / d, n % d;
    assert n == d * q' + r';
    if q' < q {
      Scale(d, q' + 1, q);
    } else if q < q' {
      Scale(d, q + 1, q');
    }
  }

  lemma Scale(d: nat, x: nat, y: nat)
    requires x <= y
    ensures d * x <= d * y && (x > 0 ==> d * x == d * (x - 1) + d)
  {
  }

  /** Eight big-endian bytes of a 64-bit word. */
  method StoreWord(buffer: array<octet>, at: nat, value: nat)
    requires at + 8 <= buffer.Length
    modifies buffer
    ensures buffer[..] == old(buffer[..at]) + Octets(ToBE(value, 8)) + old(buffer[at + 8..])
  {
    hide ToBE, Pow256;
    for i := 0 to 8
      invariant buffer[..at] == old(buffer[..at]) && buffer[at + 8..] == old(buffer[at + 8..])
      invariant forall j :: 0 <= j < i ==> buffer[at + j] == ToBE(value, 8)[j] as bv8
    {
      ToBEAt(value, 8, i);
      buffer[at + i] := ((value / Pow256(7 - i)) % 256) as bv8;
    }
    assert buffer[at..at + 8] == Octets(ToBE(value, 8));
    assert buffer[..] == buffer[..at] + buffer[at..at + 8] + buffer[at + 8..];
  }

  /** The digest bytes, word by word. */
  method Output(state: array<bv64>, output: array<octet>)
    requires state.Length == 8 && output.Length == DIGEST_LEN
    modifies output
    ensures output[..] == WordsBytes(state[..])
  {
    hide WordBytes;
    for i := 0 to 8
      invariant output[..8 * i] == WordsBytes(state[..i])
    {
      ghost var before := output[..8 * i];
      CopyOctets(output, 8 * i, WordBytes(state[i]));
      assert state[..i + 1][..i] == state[..i];
      assert output[..8 * (i + 1)] == before + WordBytes(state[i]);
    }
    assert state[..8] == state[..];
  }

  /** The two halves of the length field. */
  lemma LengthField(n: nat, high: nat, low: nat)
    requires 8 * n == high * U64 + low && low < U64
    ensures Octets(ToBE(8 * n, 16)) == Octets(ToBE(high, 8)) + Octets(ToBE(low, 8))
  {
    hide ToBE;
    Pow256Values();
    ToBESplit(high, low, 8, 8);
  }

  /** What the last one or two blocks of a padded message are. */
  lemma LastBlocks(m: seq<octet>, full: nat, rest: nat, high: nat, low: nat, all: seq<octet>)
    requires full % BLOCK == 0 && rest == |m| % BLOCK && full + rest == |m|
    requires all == m + [0x80] + ZeroOctets(PadZeros(|m|)) + Octets(ToBE(high, 8)) + Octets(ToBE(low, 8))
    ensures all[..full] == m[..full]
    ensures rest <= 111 ==>
              && |all| == full + BLOCK
              && all[full..] == m[full..] + [0x80] + ZeroOctets(111 - rest) + Octets(ToBE(high, 8)) + Octets(ToBE(low, 8))
    ensures rest > 111 ==>
              && |all| == full + 2 * BLOCK
              && all[full..full + BLOCK] == m[full..] + [0x80] + ZeroOctets(127 - rest)
              && all[full + BLOCK..] == ZeroOctets(112) + Octets(ToBE(high, 8)) + Octets(ToBE(low, 8))
  {
    hide ToBE, ZeroOctets, Octets, PadZeros;
    var one, h, l := [0x80], Octets(ToBE(high, 8)), Octets(ToBE(low, 8));
    var over := m[full..];
    PadZerosFor(|m|, rest);
    if rest <= 111 {
      LastSplit(m, full, one, ZeroOctets(111 - rest), h, l);
    } else {
      var first, second := ZeroOctets(127 - rest), ZeroOctets(112);
      ZerosSplit(127 - rest, 112);
      LastSplit(m, full, one, first + second, h, l);
      TwoBlocks(over, one, first, second, h, l);
      SecondFrom(all, full, BLOCK);
    }
  }

  lemma PadZerosFor(n: nat, rest: nat)
    requires rest == n % BLOCK
    ensures PadZeros(n) == if rest <= 111 then 111 - rest else 239 - rest
  {
  }

  lemma ZerosSplit(a: nat, b: nat)
    ensures ZeroOctets(a + b) == ZeroOctets(a) + ZeroOctets(b)
  {
  }

  lemma LastSplit(m: seq<octet>, full: nat, a: seq<octet>, b: seq<octet>, c: seq<octet>, d: seq<octet>)
    requires full <= |m|
    ensures var all := m + a + b + c + d;
            all[..full] == m[..full] && all[full..] == m[full..] + a + b + c + d
  {
  }

  lemma TwoBlocks(o: seq<octet>, a: seq<octet>, b: seq<octet>, c: seq<octet>, d: seq<octet>, e: seq<octet>)
    ensures var last := o + a + (b + c) + d + e;
            last[..|o + a + b|] == o + a + b && last[|o + a + b|..] == c + d + e
  {
  }

  lemma SecondFrom(all: seq<octet>, i: nat, n: nat)
    requires i + n <= |all|
    ensures all[i..][..n] == all[i..i + n] && all[i..][n..] == all[i + n..]
  {
  }

  /** alrios_sha512: the one-shot form, which does reject a null pointer with a length. */
  method Sha512(data: array?<octet>, len: nat, output: array<octet>) returns (ok: bool)
    requires len < U64 && (data != null ==> len <= data.Length) && output.Length == DIGEST_LEN
    modifies output
    ensures ok == (len == 0 || data != null)
    ensures ok ==> output[..] == Digest(old(if data == null then [] else data[..len]))
    ensures !ok ==> output[..] == old(output[..])
  {
    if len > 0 && data == null {
      return false;
    }
    var context := new Context();
    context.Update(data, len);
    assert context.message == old(if data == null then [] else data[..len]);
    context.Final(output);
    return true;
  }

  /** Any way of cutting a message into updates gives the digest of the whole message; the output may be one of the pieces. */
  method Chunked(chunks: seq<array<octet>>, output: array<octet>)
    requires forall c :: c in chunks ==> c.Length < U64
    requires output.Length == DIGEST_LEN
    modifies output
    ensures |Concatenation(old(Contents(chunks)))| < LENGTH_LIMIT ==>
              output[..] == Digest(Concatenation(old(Contents(chunks))))
  {
    hide Digest, Holds, Counts;
    var context := new Context();
    for i := 0 to |chunks|
      invariant context.Valid() && fresh(context) && fresh(context.state) && fresh(context.buffer)
      invariant context.message == Concatenation(Contents(chunks)[..i])
      invariant Contents(chunks) == old(Contents(chunks))
    {
      assert Contents(chunks)[..i + 1][..i] == Contents(chunks)[..i];
      ghost var parts := Contents(chunks);
      assert chunks[i] in chunks;
      context.Update(chunks[i], chunks[i].Length);
      assert Contents(chunks) == parts;
    }
    assert Contents(chunks)[..|chunks|] == Contents(chunks);
    context.Final(output);
  }

  ghost function Contents(chunks: seq<array<octet>>): (parts: seq<seq<octet>>)
    reads chunks
    ensures |parts| == |chunks|
  {
    seq(|chunks|, i requires 0 <= i < |chunks| reads chunks => chunks[i][..])
  }

  ghost function Concatenation(parts: seq<seq<octet>>): seq<octet> {
    if parts == [] then [] else Concatenation(parts[..|parts| - 1]) + parts[|parts| - 1]
  }

  lemma HoldsMeans(state: seq<bv64>, buffer: seq<octet>, m: seq<octet>)
    requires Holds(state, buffer, m)
    ensures var full := |m| - |m| % BLOCK;
            full % BLOCK == 0 && |buffer| == BLOCK && state == CompressAll(m[..full]) && buffer[..|m| % BLOCK] == m[full..]
  {
    hide CompressAll;
  }

  lemma NextBlock(all: seq<octet>, full: nat)
    requires full % BLOCK == 0 && full + BLOCK <= |all|
    ensures CompressAll(all[..full + BLOCK]) == Compress(CompressAll(all[..full]), all[full..full + BLOCK])
    ensures (full + BLOCK) % BLOCK == 0
  {
    CompressMore(all[..full], all[full..full + BLOCK]);
    assert all[..full + BLOCK] == all[..full] + all[full..full + BLOCK];
  }

  /** Where the end of the data stands in its block. */
  lemma Position(full: nat, rest: nat)
    requires full % BLOCK == 0 && rest < BLOCK
    ensures (full + rest) % BLOCK == rest && (full + BLOCK) % BLOCK == 0
  {
  }

  /** The low counter word gives the place in the block, even after the counter has wrapped. */
  lemma CountIsPosition(hi: nat, lo: nat, n: nat)
    requires Counts(hi, lo, n)
    ensures lo % BLOCK == n % BLOCK
  {
    var q := n / (U64 * U64);
    BlocksInCount(q, hi);
    DropBlocks(BLOCKS_128 * q + BLOCKS_64 * hi, lo);
  }

  /** 2^128 and 2^64 bytes in blocks. */
  const BLOCKS_128: nat := 0x200_0000_0000_0000_0000_0000_0000_0000
  const BLOCKS_64: nat := 0x200_0000_0000_0000

  lemma BlocksInCount(q: nat, hi: nat)
    ensures U64 * U64 * q + hi * U64 == BLOCK * (BLOCKS_128 * q + BLOCKS_64 * hi)
  {
    assert U64 * U64 == BLOCK * BLOCKS_128 && U64 == BLOCK * BLOCKS_64;
  }

  lemma DropBlocks(k: nat, r: nat)
    ensures (BLOCK * k + r) % BLOCK == r % BLOCK
  {
  }

  lemma AddModulo(a: nat, b: nat)
    ensures (a % (U64 * U64) + b) % (U64 * U64) == (a + b) % (U64 * U64)
  {
    var q := a / (U64 * U64);
    assert a == U64 * U64 * q + a % (U64 * U64);
  }
}
