/**
 Bytes and unsigned big-endian integers, as the audit log, the checkpoint wire records and
 the SHA-512 length field store them.
 */
module Bytes {

  /** What a decoder yields. */
  datatype Option<+T> = None | Some(value: T)

  type byte = n: int | 0 <= n < 256

  const U16: nat := 0x1_0000
  const U32: nat := 0x1_0000_0000
  const U64: nat := 0x1_0000_0000_0000_0000
  /** The largest file offset, INT64_MAX. */
  const OFF_MAX: nat := 0x7FFF_FFFF_FFFF_FFFF

  function Pow256(width: nat): (p: nat)
    ensures 0 < p
  {
    if width == 0 then 1 else 256 * Pow256(width - 1)
  }

  /** The low `width` bytes of `n`, most significant first. */
  function ToBE(n: nat, width: nat): (s: seq<byte>)
    ensures |s| == width
  {
    if width == 0 then [] else ToBE(n / 256, width - 1) + [n % 256]
  }

  function FromBE(s: seq<byte>): nat
  {
    if s == [] then 0 else FromBE(s[..|s| - 1]) * 256 + s[|s| - 1]
  }

  /** `count` bytes of value zero. */
  function Zeros(count: nat): (s: seq<byte>)
    ensures |s| == count
    ensures forall i :: 0 <= i < count ==> s[i] == 0
  {
    seq(count, _ => 0)
  }

  /** `s` with the bytes from `at` on replaced by `data`. */
  function Splice(s: seq<byte>, at: nat, data: seq<byte>): (t: seq<byte>)
    requires at + |data| <= |s|
    ensures |t| == |s|
  {
    s[..at] + data + s[at + |data|..]
  }

  /** Splicing right after a finished part extends that part. */
  lemma SpliceExtends(done: seq<byte>, rest: seq<byte>, data: seq<byte>)
    requires |data| <= |rest|
    ensures Splice(done + rest, |done|, data) == (done + data) + rest[|data|..]
  {
  }

  lemma {:induction false} FromToBE(n: nat, width: nat)
    requires n < Pow256(width)
    ensures FromBE(ToBE(n, width)) == n
  {
    if width > 0 {
      FromToBE(n / 256, width - 1);
      assert ToBE(n, width)[..width - 1] == ToBE(n / 256, width - 1);
    }
  }

  lemma {:induction false} ToFromBE(s: seq<byte>)
    ensures ToBE(FromBE(s), |s|) == s
    ensures FromBE(s) < Pow256(|s|)
  {
    if s != [] {
      ToFromBE(s[..|s| - 1]);
    }
  }

  lemma Pow256Values()
    ensures Pow256(2) == U16 && Pow256(4) == U32 && Pow256(8) == U64
    ensures Pow256(16) == U64 * U64
  {
    assert Pow256(4) == 256 * (256 * Pow256(2));
    assert Pow256(8) == 256 * (256 * (256 * (256 * Pow256(4))));
    assert Pow256(12) == 256 * (256 * (256 * (256 * Pow256(8))));
    assert Pow256(16) == 256 * (256 * (256 * (256 * Pow256(12))));
  }

  lemma ToBEStep(value: nat, width: nat)
    requires width > 0
    ensures ToBE(value, width) == ToBE(value / 256, width - 1) + [value % 256]
  {
  }

  /** A wide integer is its high part followed by its low part. */
  lemma {:induction false} ToBESplit(hi: nat, lo: nat, highWidth: nat, lowWidth: nat)
    requires lo < Pow256(lowWidth)
    ensures ToBE(hi * Pow256(lowWidth) + lo, highWidth + lowWidth) == ToBE(hi, highWidth) + ToBE(lo, lowWidth)
  {
    if lowWidth == 0 {
      assert hi * Pow256(0) + lo == hi;
      assert ToBE(hi, highWidth) + [] == ToBE(hi, highWidth);
    } else {
      hide ToBE;
      var p := Pow256(lowWidth - 1);
      Shifted(hi, p);
      LowByte(hi * p, lo);
      ToBESplit(hi, lo / 256, highWidth, lowWidth - 1);
      ToBEStep(256 * (hi * p) + lo, highWidth + lowWidth);
      ToBEStep(lo, lowWidth);
      assert ToBE(hi, highWidth) + ToBE(lo, lowWidth) ==
             (ToBE(hi, highWidth) + ToBE(lo / 256, lowWidth - 1)) + [lo % 256];
    }
  }

  lemma Shifted(hi: nat, p: nat)
    ensures hi * (256 * p) == 256 * (hi * p)
  {
  }

  lemma LowByte(q: nat, lo: nat)
    ensures (256 * q + lo) / 256 == q + lo / 256 && (256 * q + lo) % 256 == lo % 256
  {
  }

  /** Writes the low bytes of `value` at `at`, last byte first. */
  method StoreBE(output: array<byte>, at: nat, value: nat, width: nat)
    requires at + width <= output.Length
    modifies output
    ensures output[..] == Splice(old(output[..]), at, ToBE(value, width))
  {
    var rest := value;
    var index := width;
    while index > 0
      invariant 0 <= index <= width
      invariant ToBE(value, width) == ToBE(rest, index) + output[at + index..at + width]
      invariant output[..at + index] == old(output[..at + index])
      invariant output[at + width..] == old(output[at + width..])
    {
      index := index - 1;
      ghost var before := output[at + index + 1..at + width];
      output[at + index] := rest % 256;
      assert output[at + index..at + width] == [rest % 256] + before;
      rest := rest / 256;
    }
    assert output[..] == output[..at] + output[at..at + width] + output[at + width..];
  }

  /** Reads `width` bytes at `at`, most significant first. */
  method LoadBE(input: array<byte>, at: nat, width: nat) returns (value: nat)
    requires at + width <= input.Length
    ensures value == FromBE(input[at..at + width])
  {
    value := 0;
    for index := 0 to width
      invariant value == FromBE(input[at..at + index])
    {
      assert input[at..at + index + 1][..index] == input[at..at + index];
      value := value * 256 + input[at + index];
    }
  }

  /** Appending a field keeps every earlier slice. */
  lemma AppendKeeps(done: seq<byte>, field: seq<byte>)
    ensures (done + field)[|done|..|done| + |field|] == field
    ensures forall i, j :: 0 <= i <= j <= |done| ==> (done + field)[i..j] == done[i..j]
  {
  }

  lemma SliceOfPrefix(s: seq<byte>, prefix: seq<byte>, i: nat, j: nat)
    requires prefix <= s && i <= j <= |prefix|
    ensures s[i..j] == prefix[i..j]
  {
  }

  lemma Join(s: seq<byte>, i: nat, j: nat)
    requires i <= j <= |s|
    ensures s[..i] + s[i..j] == s[..j]
  {
  }

  lemma JoinBetween(s: seq<byte>, i: nat, j: nat, k: nat)
    requires i <= j <= k <= |s|
    ensures s[i..j] + s[j..k] == s[i..k]
  {
  }

  /** memcpy of the next header field, over the part that is still zero. */
  method PutField(output: array<byte>, at: nat, field: seq<byte>, ghost done: seq<byte>, ghost zeros: nat, ghost tail: seq<byte>)
    requires output[..] == done + Zeros(zeros) + tail && |done| == at && |field| <= zeros
    modifies output
    ensures output[..] == (done + field) + Zeros(zeros - |field|) + tail
  {
    CopyIn(output, at, field);
    Extend(done, Zeros(zeros), field, tail);
  }

  /** store_u16_be, store_u32_be or store_u64_be of the next header field. */
  method PutInt(output: array<byte>, at: nat, value: nat, width: nat, ghost done: seq<byte>, ghost zeros: nat, ghost tail: seq<byte>)
    returns (ghost all: seq<byte>)
    requires output[..] == done + Zeros(zeros) + tail && |done| == at && width <= zeros
    modifies output
    ensures all == done + ToBE(value, width) && output[..] == all + Zeros(zeros - width) + tail
  {
    all := done + ToBE(value, width);
    StoreBE(output, at, value, width);
    Extend(done, Zeros(zeros), ToBE(value, width), tail);
  }

  /** A zero field needs no store. */
  lemma SkipField(done: seq<byte>, zeros: nat, width: nat, tail: seq<byte>)
    requires width <= zeros
    ensures done + Zeros(zeros) + tail == (done + ToBE(0, width)) + Zeros(zeros - width) + tail
  {
    ZeroField(width);
    assert Zeros(zeros) == Zeros(width) + Zeros(zeros - width);
  }

  /** One more field written over the zeroed rest of the header. */
  lemma Extend(done: seq<byte>, zeros: seq<byte>, field: seq<byte>, tail: seq<byte>)
    requires |field| <= |zeros| && zeros == Zeros(|zeros|)
    ensures Splice(done + zeros + tail, |done|, field) == (done + field) + Zeros(|zeros| - |field|) + tail
  {
    assert zeros[|field|..] == Zeros(|zeros| - |field|);
    SpliceExtends(done, zeros + tail, field);
  }

  lemma {:induction false} ZeroField(width: nat)
    ensures ToBE(0, width) == Zeros(width)
  {
    if width > 0 {
      ZeroField(width - 1);
    }
  }

  /** memcpy into a buffer. */
  method CopyIn(output: array<byte>, at: nat, data: seq<byte>)
    requires at + |data| <= output.Length
    modifies output
    ensures output[..] == Splice(old(output[..]), at, data)
  {
    for i := 0 to |data|
      invariant output[..at] == old(output[..at])
      invariant output[at..at + i] == data[..i]
      invariant output[at + i..] == old(output[at + i..])
    {
      output[at + i] := data[i];
      assert output[at..at + i + 1] == output[at..at + i] + [data[i]];
    }
    assert output[..] == output[..at] + output[at..at + |data|] + output[at + |data|..];
  }
}
