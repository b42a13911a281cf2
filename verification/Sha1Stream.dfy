/**
 The SHA-1 context of fingerprint/hash.c as it is reset, fed in pieces and finished.

 `Ctx` and the functions on it are the context as a value; the lemmas tie them to the message fed so far
 and to `Sha1Spec.Sha1`. The mutable context of module `Sha1Object` is proved against these functions.
 */
module Sha1Stream {
  import opened Sequences
  import opened Sha1Spec

  const TWO32 := 0x1_0000_0000
  const MAX_BYTES := 0x2000_0000_0000_0000   // 2^61 bytes are 2^64 bits

  /** Message_Digest, Length_Low, Length_High, Message_Block, Message_Block_Index, Computed, Corrupted. */
  datatype Ctx = Ctx(
    digest: Words,
    lengthLow: nat,
    lengthHigh: nat,
    block: seq<bv8>,
    index: nat,
    computed: bool,
    corrupted: bool)
  {
    ghost predicate Shape() {
      |block| == 64 && index < 64 && lengthLow < TWO32 && lengthHigh < TWO32
    }
  }

  function Reset(c: Ctx): Ctx {
    Ctx(INITIAL, 0, 0, c.block, 0, false, false)
  }

  /** The 64-bit length grows by eight bits; its overflow corrupts the context. */
  function CountByte(c: Ctx): Ctx {
    var low := (c.lengthLow + 8) % TWO32;
    var high := if low == 0 then (c.lengthHigh + 1) % TWO32 else c.lengthHigh;
    c.(lengthLow := low, lengthHigh := high, corrupted := c.corrupted || (low == 0 && high == 0))
  }

  /** Stores a byte and processes the block when that fills it. */
  function StoreByte(c: Ctx, b: bv8): Ctx
    requires c.Shape()
  {
    var block := c.block[c.index := b];
    if c.index == 63 then c.(block := block, digest := Compress(c.digest, block), index := 0)
    else c.(block := block, index := c.index + 1)
  }

  function FeedByte(c: Ctx, b: bv8): (r: Ctx)
    requires c.Shape()
    ensures r.Shape() && r.computed == c.computed
  {
    StoreByte(CountByte(c), b)
  }

  /** The loop of SHA1Input, which stops once the context is corrupted. */
  function Feed(c: Ctx, message: seq<bv8>): (r: Ctx)
    requires c.Shape()
    ensures r.Shape() && r.computed == c.computed
    decreases |message|
  {
    if message == [] || c.corrupted then c else Feed(FeedByte(c, message[0]), message[1..])
  }

  function Input(c: Ctx, message: seq<bv8>): (r: Ctx)
    requires c.Shape()
    ensures r.Shape()
  {
    if message == [] then c
    else if c.computed || c.corrupted then c.(corrupted := true)
    else Feed(c, message)
  }

  function LengthBytes(high: nat, low: nat): seq<bv8> {
    [ByteOf(high / 0x100_0000), ByteOf(high / 0x1_0000), ByteOf(high / 0x100), ByteOf(high),
     ByteOf(low / 0x100_0000), ByteOf(low / 0x1_0000), ByteOf(low / 0x100), ByteOf(low)]
  }

  /** The last block, or the last two when the length does not fit behind the byte 0x80. */
  function PadMessage(c: Ctx): (r: Ctx)
    requires c.Shape()
    ensures r.Shape()
  {
    var length := LengthBytes(c.lengthHigh, c.lengthLow);
    if c.index > 55 then
      var full := c.block[..c.index] + [0x80] + Zeros(63 - c.index);
      var block := Zeros(56) + length;
      c.(digest := Compress(Compress(c.digest, full), block), block := block, index := 0)
    else
      var block := c.block[..c.index] + [0x80] + Zeros(55 - c.index) + length;
      c.(digest := Compress(c.digest, block), block := block, index := 0)
  }

  function Result(c: Ctx): (r: Ctx)
    requires c.Shape()
    ensures r.Shape()
  {
    if c.corrupted || c.computed then c else PadMessage(c).(computed := true)
  }

  // ----- what the context holds

  /** The context after `fed`: its length in bits, the bytes of the unfinished block, and the hash of
      the finished ones. */
  ghost predicate Holds(c: Ctx, fed: seq<bv8>) {
    && c.Shape() && !c.computed && !c.corrupted
    && c.index == |fed| % 64
    && c.lengthHigh * TWO32 + c.lengthLow == 8 * |fed|
    && c.block[..c.index] == fed[|fed| - c.index..]
    && (WholeBlocks(|fed|); c.digest == HashBlocks(INITIAL, fed[..|fed| - c.index]))
  }

  lemma ResetHoldsNothing(c: Ctx)
    requires |c.block| == 64
    ensures Holds(Reset(c), [])
  {
  }

  lemma CountByteAdds8(c: Ctx, n: nat)
    requires c.Shape() && !c.corrupted && c.lengthHigh * TWO32 + c.lengthLow == 8 * n
    ensures CountByte(c).Shape()
    ensures CountByte(c).corrupted <==> n + 1 == MAX_BYTES
    ensures n + 1 != MAX_BYTES ==> CountByte(c).lengthHigh * TWO32 + CountByte(c).lengthLow == 8 * (n + 1)
  {
    assert c.lengthLow == 8 * (n - c.lengthHigh * 0x2000_0000);
  }

  lemma NextIndex(n: nat)
    ensures (n + 1) % 64 == if n % 64 == 63 then 0 else n % 64 + 1
  {
  }

  lemma StoreLastByte(c: Ctx, fed: seq<bv8>, b: bv8)
    requires c.Shape() && c.index == 63 == |fed| % 64 && c.block[..63] == fed[|fed| - 63..]
    requires c.digest == HashBlocks(INITIAL, fed[..|fed| - 63])
    ensures |fed + [b]| % 64 == 0 && StoreByte(c, b).digest == HashBlocks(INITIAL, fed + [b])
  {
    hide Compress;
    var block := c.block[63 := b];
    assert block == c.block[..63] + [b];
    assert fed + [b] == fed[..|fed| - 63] + block;
    HashSnoc(INITIAL, fed[..|fed| - 63], block);
  }

  lemma StoreByteExtends(c: Ctx, fed: seq<bv8>, b: bv8)
    requires c.Shape() && c.index == |fed| % 64
    requires c.block[..c.index] == fed[|fed| - c.index..]
    requires c.digest == HashBlocks(INITIAL, fed[..|fed| - c.index])
    ensures var (r, more) := (StoreByte(c, b), fed + [b]);
            && r.index == |more| % 64
            && r.block[..r.index] == more[|more| - r.index..]
            && r.digest == HashBlocks(INITIAL, more[..|more| - r.index])
  {
    hide Compress;
    var (r, more, n) := (StoreByte(c, b), fed + [b], |fed| - c.index);
    NextIndex(|fed|);
    if c.index == 63 {
      StoreLastByte(c, fed, b);
      assert more[..|more|] == more;
    } else {
      assert r.block[..r.index] == c.block[..c.index] + [b];
      assert more[..n] == fed[..n];
    }
  }

  /** Each byte extends what the context holds, until 2^61 bytes corrupt it. */
  lemma FeedByteHolds(c: Ctx, fed: seq<bv8>, b: bv8)
    requires Holds(c, fed)
    ensures |fed| + 1 != MAX_BYTES ==> Holds(FeedByte(c, b), fed + [b])
    ensures |fed| + 1 == MAX_BYTES ==> FeedByte(c, b).corrupted
  {
    hide Compress;
    CountByteAdds8(c, |fed|);
    StoreByteExtends(CountByte(c), fed, b);
  }

  lemma {:induction false} FeedHolds(c: Ctx, fed: seq<bv8>, message: seq<bv8>)
    requires Holds(c, fed) && |fed| < MAX_BYTES
    ensures |fed| + |message| < MAX_BYTES ==> Holds(Feed(c, message), fed + message)
    ensures |fed| + |message| >= MAX_BYTES ==> Feed(c, message).corrupted
    decreases |message|
  {
    hide Compress, FeedByte;
    if message == [] {
      assert fed + message == fed;
    } else {
      hide Holds;
      FeedByteHolds(c, fed, message[0]);
      if |fed| + 1 != MAX_BYTES {
        FeedHolds(FeedByte(c, message[0]), fed + [message[0]], message[1..]);
        assert message == [message[0]] + message[1..];
        AppendAssoc(fed, [message[0]], message[1..]);
      }
    }
  }

  // ----- chunks

  lemma {:induction false} FeedAppend(c: Ctx, u: seq<bv8>, v: seq<bv8>)
    requires c.Shape()
    ensures Feed(c, u + v) == Feed(Feed(c, u), v)
    decreases |u|
  {
    hide Compress;
    if u == [] {
      assert u + v == v;
    } else if !c.corrupted {
      assert (u + v)[1..] == u[1..] + v;
      FeedAppend(FeedByte(c, u[0]), u[1..], v);
    }
  }

  lemma InputAppend(c: Ctx, u: seq<bv8>, v: seq<bv8>)
    requires c.Shape()
    ensures Input(c, u + v) == Input(Input(c, u), v)
  {
    hide Compress;
    if u == [] {
      assert u + v == v;
    } else if v == [] {
      assert u + v == u;
    } else if !c.computed && !c.corrupted {
      FeedAppend(c, u, v);
    }
  }

  function Flatten(chunks: seq<seq<bv8>>): seq<bv8> {
    if chunks == [] then [] else chunks[0] + Flatten(chunks[1..])
  }

  function InputAll(c: Ctx, chunks: seq<seq<bv8>>): (r: Ctx)
    requires c.Shape()
    ensures r.Shape()
    decreases |chunks|
  {
    if chunks == [] then c else InputAll(Input(c, chunks[0]), chunks[1..])
  }

  /** Feeding a message in any sequence of chunks leaves the same context as feeding it at once. */
  lemma {:induction false} ChunksDoNotMatter(c: Ctx, chunks: seq<seq<bv8>>)
    requires c.Shape()
    ensures InputAll(c, chunks) == Input(c, Flatten(chunks))
    decreases |chunks|
  {
    hide Compress;
    if chunks != [] {
      ChunksDoNotMatter(Input(c, chunks[0]), chunks[1..]);
      InputAppend(c, chunks[0], Flatten(chunks[1..]));
    }
  }

  // ----- the result

  lemma HighParts(high: nat, low: nat, n: nat)
    requires low < TWO32 && n == high * TWO32 + low
    ensures n / 0x1_0000_0000 == high
    ensures n / 0x100_0000_0000 == high / 0x100
    ensures n / 0x1_0000_0000_0000 == high / 0x1_0000
    ensures n / 0x100_0000_0000_0000 == high / 0x100_0000
  {
    var (q, r) := (high / 0x100, high % 0x100);
    assert n == q * 0x100_0000_0000 + (r * TWO32 + low);
    var (q', r') := (high / 0x1_0000, high % 0x1_0000);
    assert n == q' * 0x1_0000_0000_0000 + (r' * TWO32 + low);
    var (q'', r'') := (high / 0x100_0000, high % 0x100_0000);
    assert n == q'' * 0x100_0000_0000_0000 + (r'' * TWO32 + low);
  }

  lemma MultipleOf256(m: nat, x: nat)
    ensures (m * 0x100 + x) % 0x100 == x % 0x100
  {
  }

  lemma LowPart3(high: nat, low: nat)
    ensures ((high * TWO32 + low) / 0x100_0000) % 0x100 == (low / 0x100_0000) % 0x100
  {
    var (q, r) := (low / 0x100_0000, low % 0x100_0000);
    assert high * TWO32 + low == (high * 0x100 + q) * 0x100_0000 + r;
    MultipleOf256(high, q);
  }

  lemma LowPart2(high: nat, low: nat)
    ensures ((high * TWO32 + low) / 0x1_0000) % 0x100 == (low / 0x1_0000) % 0x100
  {
    var (q, r) := (low / 0x1_0000, low % 0x1_0000);
    assert high * TWO32 + low == (high * 0x1_0000 + q) * 0x1_0000 + r;
    MultipleOf256(high * 0x100, q);
  }

  lemma LowPart1(high: nat, low: nat)
    ensures ((high * TWO32 + low) / 0x100) % 0x100 == (low / 0x100) % 0x100
  {
    var (q, r) := (low / 0x100, low % 0x100);
    assert high * TWO32 + low == (high * 0x100_0000 + q) * 0x100 + r;
    MultipleOf256(high * 0x1_0000, q);
  }

  lemma LowPart0(high: nat, low: nat)
    ensures (high * TWO32 + low) % 0x100 == low % 0x100
  {
  }

  lemma LengthBytesAreBigEndian(high: nat, low: nat, n: nat)
    requires low < TWO32 && n == high * TWO32 + low
    ensures LengthBytes(high, low) == BigEndian64(n)
  {
    HighParts(high, low, n);
    LowPart3(high, low);
    LowPart2(high, low);
    LowPart1(high, low);
    LowPart0(high, low);
  }

  /** A message cut after its last whole block: what the padding makes of it. */
  lemma PadShort(whole: seq<bv8>, tail: seq<bv8>)
    requires |whole| % 64 == 0 && |tail| <= 55
    ensures Pad(whole + tail) ==
            whole + (tail + [0x80] + Zeros(55 - |tail|) + BigEndian64(8 * |whole + tail|))
  {
    assert |whole + tail| % 64 == |tail|;
  }

  lemma PadLong(whole: seq<bv8>, tail: seq<bv8>)
    requires |whole| % 64 == 0 && 55 < |tail| < 64
    ensures Pad(whole + tail) ==
            whole + (tail + [0x80] + Zeros(63 - |tail|)) + (Zeros(56) + BigEndian64(8 * |whole + tail|))
  {
    assert |whole + tail| % 64 == |tail|;
    ZerosSplit(63 - |tail|, 56);
  }

  lemma HashSnoc(h: Words, whole: seq<bv8>, block: seq<bv8>)
    requires |whole| % 64 == 0 && |block| == 64
    ensures |whole + block| % 64 == 0 && HashBlocks(h, whole + block) == Compress(HashBlocks(h, whole), block)
  {
    hide Compress;
    HashBlocksAppend(h, whole, block);
    HashOneBlock(HashBlocks(h, whole), block);
  }

  /** The context holds whole blocks, hashed, and a tail, stored, with the length of both. */
  ghost predicate HoldsParts(c: Ctx, whole: seq<bv8>, tail: seq<bv8>) {
    && c.Shape() && |whole| % 64 == 0 && |tail| == c.index
    && c.block[..c.index] == tail
    && c.digest == HashBlocks(INITIAL, whole)
    && LengthBytes(c.lengthHigh, c.lengthLow) == BigEndian64(8 * |whole + tail|)
  }

  lemma FinishShort(c: Ctx, whole: seq<bv8>, tail: seq<bv8>)
    requires HoldsParts(c, whole, tail) && |tail| <= 55
    ensures PadMessage(c).digest == Sha1Spec.Sha1(whole + tail)
  {
    hide Compress;
    PadShort(whole, tail);
    HashSnoc(INITIAL, whole, tail + [0x80] + Zeros(55 - |tail|) + BigEndian64(8 * |whole + tail|));
  }

  lemma FinishLong(c: Ctx, whole: seq<bv8>, tail: seq<bv8>)
    requires HoldsParts(c, whole, tail) && |tail| > 55
    ensures PadMessage(c).digest == Sha1Spec.Sha1(whole + tail)
  {
    hide Compress;
    var (full, last) := (tail + [0x80] + Zeros(63 - |tail|), Zeros(56) + BigEndian64(8 * |whole + tail|));
    assert PadMessage(c).digest == Compress(Compress(c.digest, full), last);
    HashSnoc(INITIAL, whole, full);
    HashSnoc(INITIAL, whole + full, last);
    PadLong(whole, tail);
  }

  lemma WholeBlocks(n: nat)
    ensures (n - n % 64) % 64 == 0
  {
    assert n - n % 64 == 64 * (n / 64);
  }

  /** Finishing a context that holds a message leaves that message's SHA-1. */
  lemma PadMessageGivesSha1(c: Ctx, fed: seq<bv8>)
    requires Holds(c, fed)
    ensures PadMessage(c).digest == Sha1Spec.Sha1(fed)
  {
    hide Compress;
    var (whole, tail) := (fed[..|fed| - c.index], fed[|fed| - c.index..]);
    WholeBlocks(|fed|);
    LengthBytesAreBigEndian(c.lengthHigh, c.lengthLow, 8 * |fed|);
    assert whole + tail == fed;
    if c.index > 55 {
      FinishLong(c, whole, tail);
    } else {
      FinishShort(c, whole, tail);
    }
  }

  lemma ResultGivesSha1(c: Ctx, fed: seq<bv8>)
    requires Holds(c, fed)
    ensures var r := Result(c); !r.corrupted && r.computed && r.digest == Sha1Spec.Sha1(fed)
  {
    hide Compress, HashBlocks;
    PadMessageGivesSha1(c, fed);
  }

  lemma InputIsFeed(c: Ctx, message: seq<bv8>)
    requires c.Shape() && !c.computed && !c.corrupted
    ensures Input(c, message) == Feed(c, message)
  {
    hide Compress;
  }

  lemma ZerosSplit(m: nat, n: nat)
    ensures Zeros(m + n) == Zeros(m) + Zeros(n)
  {
  }

  /** Reset, any chunks of a message shorter than 2^61 bytes, result: the digest is the SHA-1 of the
      message. A longer message is reported as corrupted instead. */
  lemma StreamComputesSha1(c: Ctx, chunks: seq<seq<bv8>>)
    requires |c.block| == 64
    ensures var (message, r) := (Flatten(chunks), Result(InputAll(Reset(c), chunks)));
            if |message| < MAX_BYTES
            then !r.corrupted && r.computed && r.digest == Sha1Spec.Sha1(message)
            else r.corrupted
  {
    hide Compress, Holds, PadMessage, Feed, Flatten, InputAll;
    var message := Flatten(chunks);
    ChunksDoNotMatter(Reset(c), chunks);
    ResetHoldsNothing(c);
    FeedHolds(Reset(c), [], message);
    assert [] + message == message;
    InputIsFeed(Reset(c), message);
    if |message| < MAX_BYTES {
      ResultGivesSha1(Feed(Reset(c), message), message);
    }
  }

  /** A finished context: asking again changes nothing, and feeding more corrupts it for good. */
  lemma ResultIsFinal(c: Ctx, more: seq<bv8>)
    requires c.Shape()
    ensures Result(Result(c)) == Result(c)
    ensures more != [] ==> Result(Input(Result(c), more)).corrupted && Input(Result(c), more).digest == Result(c).digest
  {
    hide Compress;
  }
}
