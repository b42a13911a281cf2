/**
 The mutable SHA-1 context of fingerprint/hash.c: its fields and block buffer are updated in place, and
 every method is proved against the functions of module `Sha1Stream`.
 */
module Sha1Object {
  import opened Sha1Spec
  import opened Stream = Sha1Stream
  import Sha1

  class Sha1Context {
    var digest: Words
    var lengthLow: nat
    var lengthHigh: nat
    const block: array<bv8>
    var index: nat
    var computed: bool
    var corrupted: bool

    ghost predicate Valid()
      reads this, block
    {
      block.Length == 64 && Model().Shape()
    }

    ghost function Model(): Ctx
      reads this, block
    {
      Ctx(digest, lengthLow, lengthHigh, block[..], index, computed, corrupted)
    }

    constructor ()
      ensures Valid() && fresh(block) && Model() == Stream.Reset(Model())
    {
      block := new bv8[64];
      digest, lengthLow, lengthHigh, index, computed, corrupted := INITIAL, 0, 0, 0, false, false;
    }

    method Reset()
      requires Valid()
      modifies this
      ensures Valid() && Model() == Stream.Reset(old(Model()))
    {
      lengthLow, lengthHigh, index := 0, 0, 0;
      digest := Words(0x67452301, 0xEFCDAB89, 0x98BADCFE, 0x10325476, 0xC3D2E1F0);
      computed, corrupted := false, false;
    }

    /** SHA1ProcessMessageBlock on a full block. */
    method ProcessMessageBlock()
      requires block.Length == 64
      modifies this`digest, this`index
      ensures digest == Compress(old(digest), block[..]) && index == 0
    {
      digest := Sha1.CompressBlock(digest, block[..]);
      index := 0;
    }

    /** One turn of the loop in SHA1Input. */
    method InputByte(b: bv8)
      requires Valid()
      modifies this, block
      ensures Valid() && Model() == FeedByte(old(Model()), b)
    {
      hide Compress;
      block[index] := b;
      index := index + 1;
      lengthLow := (lengthLow + 8) % TWO32;
      if lengthLow == 0 {
        lengthHigh := (lengthHigh + 1) % TWO32;
        if lengthHigh == 0 {
          corrupted := true;
        }
      }
      if index == 64 {
        ProcessMessageBlock();
      }
    }

    method Input(message: seq<bv8>)
      requires Valid()
      modifies this, block
      ensures Valid() && Model() == Stream.Input(old(Model()), message)
    {
      hide Compress;
      if message == [] {
        return;
      }
      if computed || corrupted {
        corrupted := true;
        return;
      }
      var n := 0;
      assert message[0..] == message;
      while n < |message| && !corrupted
        invariant Valid() && n <= |message| && !computed
        invariant Feed(Model(), message[n..]) == Feed(old(Model()), message)
        decreases |message| - n
      {
        assert message[n..][0] == message[n] && message[n..][1..] == message[n + 1..];
        InputByte(message[n]);
        n := n + 1;
      }
    }

    /** Fills the block from `index` up to `limit` with zeros. */
    method ZeroFill(limit: nat)
      requires block.Length == 64 && index <= limit <= 64
      modifies this`index, block
      ensures index == limit
      ensures block[..] == old(block[..])[..old(index)] + Zeros(limit - old(index)) + old(block[..])[limit..]
    {
      ghost var from := index;
      while index < limit
        invariant from <= index <= limit
        invariant forall j :: 0 <= j < 64 ==> block[j] == if from <= j < index then 0 else old(block[j])
      {
        block[index] := 0;
        index := index + 1;
      }
    }

    /** Writes the two length words, most significant byte first. */
    method StoreLength()
      requires block.Length == 64
      modifies block
      ensures block[..] == old(block[..])[..56] + LengthBytes(lengthHigh, lengthLow)
    {
      ghost var before := block[..];
      var h3, h2, h1 := ByteOf(lengthHigh / 0x100_0000), ByteOf(lengthHigh / 0x1_0000), ByteOf(lengthHigh / 0x100);
      var l3, l2, l1 := ByteOf(lengthLow / 0x100_0000), ByteOf(lengthLow / 0x1_0000), ByteOf(lengthLow / 0x100);
      var h0, l0 := ByteOf(lengthHigh), ByteOf(lengthLow);
      hide ByteOf;
      block[56], block[57], block[58], block[59] := h3, h2, h1, h0;
      block[60], block[61], block[62], block[63] := l3, l2, l1, l0;
      assert block[..] == before[..56] + [h3, h2, h1, h0, l3, l2, l1, l0];
    }

    /** Appends the byte 0x80 and zeros up to `limit`. */
    method StorePadding(limit: nat)
      requires block.Length == 64 && index < limit <= 64
      modifies this`index, block
      ensures index == limit
      ensures block[..][..limit] == old(block[..])[..old(index)] + [0x80] + Zeros(limit - 1 - old(index))
    {
      block[index] := 0x80;
      index := index + 1;
      ZeroFill(limit);
    }

    method PadMessage()
      requires Valid()
      modifies this`digest, this`index, block
      ensures Valid() && Model() == Stream.PadMessage(old(Model()))
    {
      hide Compress, LengthBytes;
      if index > 55 {
        StorePadding(64);
        assert block[..][..64] == block[..];
        ProcessMessageBlock();
        ZeroFill(56);
        assert block[..][..56] == Zeros(56);
      } else {
        StorePadding(56);
      }
      StoreLength();
      ProcessMessageBlock();
    }

    method Result() returns (ok: bool)
      requires Valid()
      modifies this, block
      ensures Valid() && Model() == Stream.Result(old(Model())) && ok == !corrupted
    {
      if corrupted {
        return false;
      }
      if !computed {
        PadMessage();
        computed := true;
      }
      return true;
    }
  }

  /** Reset, input, result on the shared context, for a message of any length: succeeds, with its SHA-1,
      unless the message is too long. */
  method HashBytes(sha: Sha1Context, message: seq<bv8>) returns (code: int)
    requires sha.Valid()
    modifies sha, sha.block
    ensures sha.Valid()
    ensures code == if |message| < MAX_BYTES then 0 else -1
    ensures code == 0 ==> sha.digest == Sha1Spec.Sha1(message)
  {
    hide Compress;
    assert Flatten([message]) == message + Flatten([]) == message;
    StreamComputesSha1(sha.Model(), [message]);
    sha.Reset();
    sha.Input(message);
    var ok := sha.Result();
    code := if ok then 0 else -1;
  }

  /** sha1_hash: `len` is converted to unsigned, and the buffer holds that many bytes. It never fails. */
  method HashMessage(sha: Sha1Context, source: seq<bv8>, len: int) returns (code: int)
    requires sha.Valid() && len % TWO32 <= |source|
    modifies sha, sha.block
    ensures sha.Valid() && code == 0 && sha.digest == Sha1Spec.Sha1(source[..len % TWO32])
  {
    code := HashBytes(sha, source[..len % TWO32]);
  }

  /** convert_hash_to_number: the first two words side by side. */
  function HashNumber(digest: Words): bv64 {
    ((digest.a as bv64) << 32) + (digest.b as bv64)
  }

  /** Both words can be read back from the number. */
  lemma HashNumberKeepsWords(digest: Words)
    ensures (HashNumber(digest) >> 32) == digest.a as bv64
    ensures (HashNumber(digest) & 0xFFFF_FFFF) == digest.b as bv64
  {
  }
}
