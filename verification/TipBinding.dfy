/**
 The tip of a chain pins down the whole file: two files that verify with the same number of
 blocks and the same last hash are the same bytes, or the proof hands over a collision.
 */
module TipBinding {
  import opened Bytes
  import opened AuditBlock
  import opened AuditChain

  /** Two different byte strings with the same digest. */
  ghost predicate Collision(H: Hash, x: seq<byte>, y: seq<byte>) {
    x != y && H(x) == H(y)
  }

  /** The last block of a linked list: its place, its link, and the list without it. */
  lemma {:induction false} LinkedLast(H: Hash, blocks: seq<Block>, count: nat, tip: Digest)
    requires Linked(H, blocks, count, tip) && blocks != []
    ensures var n := |blocks| - 1;
            && Linked(H, blocks[..n], count, tip)
            && WellFormed(blocks[n]) && blocks[n].sequence == count + |blocks|
            && blocks[n].previous == Tip(H, blocks[..n], tip)
            && Tip(H, blocks, tip) == BlockHash(H, blocks[n])
    decreases |blocks|
  {
    hide BlockHash;
    var n := |blocks| - 1;
    if n == 0 {
      assert blocks[1..] == [];
    } else {
      LinkedLast(H, blocks[1..], count + 1, BlockHash(H, blocks[0]));
      assert blocks[1..][..n - 1] == blocks[..n][1..];
      assert blocks[1..][n - 1] == blocks[n];
    }
  }

  /** The preimage of a block hash determines the block. */
  lemma PreimageInjective(H: Hash, b: Block, c: Block)
    requires WellFormed(b) && WellFormed(c) && Preimage(H, b) == Preimage(H, c)
    ensures b == c
  {
    hide Header;
    var p, q := Preimage(H, b), Preimage(H, c);
    var d := |DOMAIN|;
    assert Header(H, b) == p[d..d + HEADER_SIZE] && Header(H, c) == q[d..d + HEADER_SIZE];
    assert b.payload == p[d + HEADER_SIZE..] && c.payload == q[d + HEADER_SIZE..];
    var h := Header(H, b);
    assert h[..HEADER_SIZE] == h;
    HeaderReadsBack(H, b, h);
    HeaderReadsBack(H, c, h);
  }

  lemma HashOfPreimage(H: Hash, b: Block)
    ensures BlockHash(H, b) == H(Preimage(H, b))
  {
  }

  /** Two chains of one length with one tip hash are one chain, or a collision is found. */
  lemma {:induction false} ChainsBound(H: Hash, blocks: seq<Block>, others: seq<Block>)
    returns (x: seq<byte>, y: seq<byte>)
    requires ValidChain(H, blocks) && ValidChain(H, others)
    requires |blocks| == |others| && TipHash(H, blocks) == TipHash(H, others)
    ensures blocks == others || Collision(H, x, y)
    decreases |blocks|
  {
    hide Linked, Tip, Preimage, BlockHash, WellFormed;
    x, y := [], [];
    if blocks != [] {
      var n := |blocks| - 1;
      var b, c := blocks[n], others[n];
      LinkedLast(H, blocks, 0, ZERO_HASH);
      LinkedLast(H, others, 0, ZERO_HASH);
      x, y := Preimage(H, b), Preimage(H, c);
      HashOfPreimage(H, b);
      HashOfPreimage(H, c);
      if x == y {
        PreimageInjective(H, b, c);
        x, y := ChainsBound(H, blocks[..n], others[..n]);
        assert blocks == blocks[..n] + [b] && others == others[..n] + [c];
      }
    }
  }

  /**
   Tip binding: two files that verify with equal last sequence and equal last hash are
   byte-identical, or two distinct byte strings with the same digest are exhibited.
   */
  lemma TipBindsFile(H: Hash, first: seq<byte>, second: seq<byte>) returns (x: seq<byte>, y: seq<byte>)
    requires ScanFile(H, first).Clean? && ScanFile(H, second).Clean?
    requires ResultOf(H, ScanFile(H, first).blocks, false).lastSequence == ResultOf(H, ScanFile(H, second).blocks, false).lastSequence
    requires ResultOf(H, ScanFile(H, first).blocks, false).lastHash == ResultOf(H, ScanFile(H, second).blocks, false).lastHash
    ensures first == second || Collision(H, x, y)
  {
    hide Scan, Linked, Tip, Encode;
    ScanSound(H, first, 0, ZERO_HASH);
    ScanSound(H, second, 0, ZERO_HASH);
    x, y := ChainsBound(H, ScanFile(H, first).blocks, ScanFile(H, second).blocks);
  }

  /**
   The last hash alone does not do: the length is needed unless no block hash is all zeros.
   With equal hashes and different lengths, the longer chain holds a block whose hash equals
   the zero hash, or there is a collision.
   */
  lemma {:induction false} HashAloneBinds(H: Hash, blocks: seq<Block>, others: seq<Block>)
    returns (x: seq<byte>, y: seq<byte>, k: nat)
    requires ValidChain(H, blocks) && ValidChain(H, others)
    requires |blocks| <= |others| && TipHash(H, blocks) == TipHash(H, others)
    ensures blocks == others || Collision(H, x, y) || (k < |others| && BlockHash(H, others[k]) == ZERO_HASH)
    decreases |blocks|
  {
    hide Linked, Tip, Preimage, BlockHash, WellFormed;
    EmptyChain(H, ZERO_HASH);
    x, y, k := [], [], 0;
    if others != [] {
      LinkedLast(H, others, 0, ZERO_HASH);
      var m := |others| - 1;
      if blocks == [] {
        k := m;
      } else {
        var n := |blocks| - 1;
        LinkedLast(H, blocks, 0, ZERO_HASH);
        x, y := Preimage(H, blocks[n]), Preimage(H, others[m]);
        HashOfPreimage(H, blocks[n]);
        HashOfPreimage(H, others[m]);
        if x == y {
          PreimageInjective(H, blocks[n], others[m]);
          x, y, k := HashAloneBinds(H, blocks[..n], others[..m]);
          assert blocks == blocks[..n] + [blocks[n]] && others == others[..m] + [others[m]];
        }
      }
    }
  }
}
