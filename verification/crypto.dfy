/** AES in counter mode (section 6.5 of NIST SP 800-38A) over a stateful keystream object. */
module Crypto {
  import opened Basics
  import opened Bytes

  const AES_KEY_LEN := 32
  const HMAC_KEY_LEN := 64
  const BLOCK_LEN := 16
  const NONCE_LEN := 12
  const DIGEST_LEN := 20

  type AesKey = k: seq<Byte> | |k| == AES_KEY_LEN witness seq(AES_KEY_LEN, _ => 0)
  type HmacKey = k: seq<Byte> | |k| == HMAC_KEY_LEN witness seq(HMAC_KEY_LEN, _ => 0)
  type Block = b: seq<Byte> | |b| == BLOCK_LEN witness seq(BLOCK_LEN, _ => 0)
  type Nonce = n: seq<Byte> | |n| == NONCE_LEN witness seq(NONCE_LEN, _ => 0)
  type Digest = d: seq<Byte> | |d| == DIGEST_LEN witness seq(DIGEST_LEN, _ => 0)

  /** The two primitives, known only by their signatures: every result holds for every choice of them. */
  datatype Suite = Suite(aes: (AesKey, Block) -> Block, hmac: (HmacKey, seq<Byte>) -> Digest)

  // --------------------------------------------------------- the keystream

  /** The n-th block that is encrypted to make keystream: the nonce followed by the block number. */
  function CounterBlock(nonce: Nonce, n: Word32): Block {
    nonce + Be32(n)
  }

  function KeystreamByte(suite: Suite, key: AesKey, nonce: Nonce, i: Word32): Byte {
    suite.aes(key, CounterBlock(nonce, i / 16))[i % 16]
  }

  /** The data XORed with the keystream that starts at the given byte offset. */
  function Ctr(suite: Suite, key: AesKey, nonce: Nonce, offset: nat, data: seq<Byte>): (r: seq<Byte>)
    requires offset + |data| <= WORDS
    ensures |r| == |data|
  {
    seq(|data|, i requires 0 <= i < |data| => Xor(data[i], KeystreamByte(suite, key, nonce, offset + i)))
  }

  /** Byte by byte: the nonce and the number of the block, in four bytes, are encrypted to make the keystream. */
  lemma CtrByteByByte(suite: Suite, key: AesKey, nonce: Nonce, offset: nat, data: seq<Byte>, i: nat)
    requires offset + |data| <= WORDS && i < |data|
    ensures var n, at := (offset + i) / 16, (offset + i) % 16;
            var block := nonce + [n / 256 / 256 / 256, n / 256 / 256 % 256, n / 256 % 256, n % 256];
            Ctr(suite, key, nonce, offset, data)[i] == Xor(data[i], suite.aes(key, block)[at])
  {
    hide Xor;
    BytesOfFour((offset + i) / 16);
  }

  /** Cutting the data anywhere and continuing at the right offset gives the same bytes. */
  lemma CtrSplit(suite: Suite, key: AesKey, nonce: Nonce, offset: nat, a: seq<Byte>, b: seq<Byte>)
    requires offset + |a| + |b| <= WORDS
    ensures Ctr(suite, key, nonce, offset, a + b)
         == Ctr(suite, key, nonce, offset, a) + Ctr(suite, key, nonce, offset + |a|, b)
  {
  }

  /** Decryption is encryption: applying the keystream twice gives the data back. */
  lemma CtrInvolution(suite: Suite, key: AesKey, nonce: Nonce, offset: nat, data: seq<Byte>)
    requires offset + |data| <= WORDS
    ensures Ctr(suite, key, nonce, offset, Ctr(suite, key, nonce, offset, data)) == data
  {
    var once := Ctr(suite, key, nonce, offset, data);
    var twice := Ctr(suite, key, nonce, offset, once);
    forall i | 0 <= i < |data|
      ensures twice[i] == data[i]
    {
      XorInvolution(data[i], KeystreamByte(suite, key, nonce, offset + i));
    }
  }

  // ------------------------------------------------- blocks never repeat

  function CounterBlocks(nonce: Nonce, count: nat): (blocks: seq<Block>)
    requires count <= 0x1000_0000
  {
    seq(count, i requires 0 <= i < count => CounterBlock(nonce, i))
  }

  ghost predicate Distinct<T>(s: seq<T>) {
    forall i, j :: 0 <= i < j < |s| ==> s[i] != s[j]
  }

  /** All the counter blocks one nonce can give, up to the length limit, are pairwise distinct. */
  lemma CounterBlocksDistinct(nonce: Nonce, count: nat)
    requires count <= 0x1000_0000
    ensures Distinct(CounterBlocks(nonce, count))
  {
    var blocks := CounterBlocks(nonce, count);
    forall i, j | 0 <= i < j < count
      ensures blocks[i] != blocks[j]
    {
      LoadStoreBe32(i);
      LoadStoreBe32(j);
      assert blocks[i][NONCE_LEN..] == Be32(i) && blocks[j][NONCE_LEN..] == Be32(j);
    }
  }

  /** The blocks handed to the cipher while the first `bytes` bytes are processed one at a time. */
  ghost function BlocksFor(nonce: Nonce, bytes: nat): seq<Block>
    requires bytes <= WORDS
  {
    if bytes == 0 then []
    else if (bytes - 1) % 16 == 0 then
      BlocksFor(nonce, bytes - 1) + [CounterBlock(nonce, (bytes - 1) / 16)]
    else
      BlocksFor(nonce, bytes - 1)
  }

  lemma {:induction false} BlocksForCount(nonce: Nonce, bytes: nat)
    requires bytes <= WORDS
    ensures BlocksFor(nonce, bytes) == CounterBlocks(nonce, (bytes + 15) / 16)
  {
    if bytes > 0 {
      BlocksForCount(nonce, bytes - 1);
    }
  }

  /** No run, however long, hands the same block to the cipher twice before the error is raised. */
  lemma BlocksNeverRepeat(nonce: Nonce, bytes: nat)
    requires bytes <= WORDS
    ensures Distinct(BlocksFor(nonce, bytes))
  {
    BlocksForCount(nonce, bytes);
    CounterBlocksDistinct(nonce, (bytes + 15) / 16);
  }

  // ------------------------------------------------ the encryptor object

  /** Incrementing an unsigned 32-bit counter. */
  function WrapAdd(w: Word32): Word32 {
    if w == 0xFFFF_FFFF then 0 else w + 1
  }

  /** The nonce, the block buffers and the counter are members of the object itself, as in the source. */
  class CtrEncryptor {
    const suite: Suite
    const key: AesKey
    var ctrValue: Block
    var pad: Block
    var byteCounter: Word32

    ghost const nonce: Nonce
    ghost var blocks: seq<Block>   // every block handed to the block cipher so far
    ghost var exhausted: bool      // the error for too much data has been raised

    ghost predicate Valid()
      reads this
    {
      && ctrValue[..NONCE_LEN] == nonce
      && (byteCounter % 16 != 0 ==> pad == suite.aes(key, CounterBlock(nonce, byteCounter / 16)))
      && (!exhausted ==> blocks == BlocksFor(nonce, byteCounter))
    }

    /** The nonce is the first twelve bytes of the given memory (a digest is longer). */
    constructor (suite: Suite, key: AesKey, nonce: array<Byte>, from: nat)
      requires from + NONCE_LEN <= nonce.Length
      ensures Valid()
      ensures this.suite == suite && this.key == key && this.nonce == nonce[from..from + NONCE_LEN]
      ensures byteCounter == 0 && !exhausted
    {
      this.suite, this.key := suite, key;
      ctrValue := nonce[from..from + NONCE_LEN] + [0, 0, 0, 0];
      pad := seq(BLOCK_LEN, i => 0);
      this.nonce := nonce[from..from + NONCE_LEN];
      byteCounter, blocks, exhausted := 0, [], false;
    }

    /** Encrypts or decrypts one byte and moves on. */
    method ProcessByte(b: Byte) returns (c: Byte)
      requires Valid()
      modifies this
      ensures Valid()
      ensures c == Xor(b, KeystreamByte(suite, key, nonce, old(byteCounter)))
      ensures byteCounter == WrapAdd(old(byteCounter))
      ensures exhausted == (old(exhausted) || byteCounter == 0)
      ensures !old(exhausted) ==> blocks == BlocksFor(nonce, old(byteCounter) + 1)
    {
      if byteCounter % 16 == 0 {
        ctrValue := ctrValue[..NONCE_LEN] + Be32(byteCounter / 16);
        pad := suite.aes(key, ctrValue);
        blocks := blocks + [ctrValue];
      }
      c := Xor(b, pad[byteCounter % 16]);
      byteCounter := WrapAdd(byteCounter);
      exhausted := exhausted || byteCounter == 0;
    }

    /**
     Processes len bytes of input into the front of output, which may be the same memory. The
     counter is 32 bits wide; the byte that wraps it to zero is still written and then the error
     is raised.
     */
    method Process(input: array<Byte>, from: nat, output: array<Byte>, len: nat) returns (tooMuch: bool)
      requires Valid()
      requires from + len <= input.Length && len <= output.Length && (input == output ==> from == 0)
      modifies this, output
      ensures Valid()
      ensures tooMuch == (old(byteCounter) + len >= WORDS)
      ensures exhausted == (old(exhausted) || tooMuch)
      ensures byteCounter == if tooMuch then 0 else old(byteCounter) + len
      ensures tooMuch && !old(exhausted) ==> blocks == BlocksFor(nonce, WORDS)
      ensures var done := if tooMuch then WORDS - old(byteCounter) else len;
              output[..] == Ctr(suite, key, nonce, old(byteCounter), old(input[from..from + done]))
                  + old(output[done..])
    {
      hide Valid, BlocksFor, KeystreamByte, Xor;
      ghost var start, before := byteCounter, output[..];
      ghost var last := Min(len, WORDS - start);
      ghost var given := input[from..from + last];
      ghost var result := Ctr(suite, key, nonce, start, given);
      tooMuch := false;
      var i := 0;
      while i < len
        invariant !tooMuch && 0 <= i <= len && start + i < WORDS && byteCounter == start + i
        invariant Valid() && exhausted == old(exhausted)
        invariant forall k :: i <= k < last ==> input[from + k] == given[k]
        invariant forall k :: 0 <= k < i ==> output[k] == result[k]
        invariant forall k :: i <= k < output.Length ==> output[k] == before[k]
      {
        output[i] := ProcessByte(input[from + i]);
        i := i + 1;
        if byteCounter == 0 {
          tooMuch := true;
          break;
        }
      }
      assert i == last;
      assert output[..] == result + before[last..];
    }
  }
}
