/**
 SHA-1 as FIPS 180-4 defines it, for messages of whole bytes: functions and constants of sections
 4.1.1 and 4.2.1, padding of section 5.1.1, parsing of section 5.2.1, the initial value of section
 5.3.1 and the computation of section 6.1.2.
 */
module Sha1Spec {

  /** The five working variables, and the five words of a hash value. */
  datatype Words = Words(a: bv32, b: bv32, c: bv32, d: bv32, e: bv32)

  const INITIAL := Words(0x67452301, 0xEFCDAB89, 0x98BADCFE, 0x10325476, 0xC3D2E1F0)

  function Ch(x: bv32, y: bv32, z: bv32): bv32 { (x & y) ^ (!x & z) }

  function Parity(x: bv32, y: bv32, z: bv32): bv32 { x ^ y ^ z }

  function Maj(x: bv32, y: bv32, z: bv32): bv32 { (x & y) ^ (x & z) ^ (y & z) }

  function F(t: nat, x: bv32, y: bv32, z: bv32): bv32 {
    if t < 20 then Ch(x, y, z)
    else if t < 40 then Parity(x, y, z)
    else if t < 60 then Maj(x, y, z)
    else Parity(x, y, z)
  }

  function K(t: nat): bv32 {
    if t < 20 then 0x5A827999
    else if t < 40 then 0x6ED9EBA1
    else if t < 60 then 0x8F1BBCDC
    else 0xCA62C1D6
  }

  /** Four bytes, the first the most significant. */
  function BigEndianWord(p: bv8, q: bv8, r: bv8, s: bv8): bv32 {
    (p as bv32) * 0x1000000 + (q as bv32) * 0x10000 + (r as bv32) * 0x100 + (s as bv32)
  }

  /** Word t of a block. */
  function MessageWord(block: seq<bv8>, t: nat): bv32
    requires |block| == 64 && t < 16
  {
    BigEndianWord(block[4 * t], block[4 * t + 1], block[4 * t + 2], block[4 * t + 3])
  }

  function Mix(p: bv32, q: bv32, r: bv32, s: bv32): bv32 { p ^ q ^ r ^ s }

  /** The message schedule. */
  function W(block: seq<bv8>, t: nat): bv32
    requires |block| == 64
  {
    if t < 16 then MessageWord(block, t)
    else Mix(W(block, t - 3), W(block, t - 8), W(block, t - 14), W(block, t - 16)).RotateLeft(1)
  }

  /** The temporary word T of step 3. */
  function Temporary(a: bv32, f: bv32, e: bv32, k: bv32, w: bv32): bv32 {
    a.RotateLeft(5) + f + e + k + w
  }

  /** One step, given the values of the logical function, the constant and the schedule word. */
  function Turn(v: Words, f: bv32, k: bv32, w: bv32): Words {
    Words(Temporary(v.a, f, v.e, k, w), v.a, v.b.RotateLeft(30), v.c, v.d)
  }

  function Round(v: Words, w: bv32, t: nat): Words {
    Turn(v, F(t, v.b, v.c, v.d), K(t), w)
  }

  /** The eighty words of the message schedule. */
  function Schedule(block: seq<bv8>): seq<bv32>
    requires |block| == 64
  {
    seq(80, t requires 0 <= t < 80 => W(block, t))
  }

  /** The working variables after one round for each of the given schedule words. */
  function Rounds(h: Words, ws: seq<bv32>): Words {
    if ws == [] then h
    else
      var t := |ws| - 1;
      Round(Rounds(h, ws[..t]), ws[t], t)
  }

  function Plus(u: Words, v: Words): Words {
    Words(u.a + v.a, u.b + v.b, u.c + v.c, u.d + v.d, u.e + v.e)
  }

  function Compress(h: Words, block: seq<bv8>): Words
    requires |block| == 64
  {
    Plus(h, Rounds(h, Schedule(block)))
  }

  /** The hash value after all blocks of `message`, which is a whole number of them. */
  function HashBlocks(h: Words, message: seq<bv8>): Words
    requires |message| % 64 == 0
    decreases |message|
  {
    if message == [] then h else HashBlocks(Compress(h, message[..64]), message[64..])
  }

  function Zeros(n: nat): seq<bv8> {
    seq(n, _ => 0)
  }

  function ByteOf(n: nat): bv8 {
    (n % 0x100) as bv8
  }

  /** A 64-bit number, most significant byte first. */
  function BigEndian64(n: nat): seq<bv8> {
    [ByteOf(n / 0x100_0000_0000_0000), ByteOf(n / 0x1_0000_0000_0000), ByteOf(n / 0x100_0000_0000), ByteOf(n / 0x1_0000_0000),
     ByteOf(n / 0x100_0000), ByteOf(n / 0x1_0000), ByteOf(n / 0x100), ByteOf(n)]
  }

  /** How many zero bytes follow the byte 0x80. */
  function ZeroCount(length: nat): nat {
    if length % 64 <= 55 then 55 - length % 64 else 119 - length % 64
  }

  /** One bit, then the least number of zero bits that leaves room for the 64-bit length at the end of
      a block, then that length in bits. */
  function Pad(message: seq<bv8>): seq<bv8> {
    message + [0x80] + Zeros(ZeroCount(|message|)) + BigEndian64(8 * |message|)
  }

  lemma BigEndian64Length(n: nat)
    ensures |BigEndian64(n)| == 8
  {
  }

  lemma PadLength(message: seq<bv8>)
    ensures |Pad(message)| % 64 == 0
  {
    hide BigEndian64, ZeroCount;
    var n := |message|;
    BigEndian64Length(8 * n);
    assert |Pad(message)| == n + 1 + ZeroCount(n) + 8;
    PaddedLength(n);
  }

  lemma PaddedLength(n: nat)
    ensures (n + 1 + ZeroCount(n) + 8) % 64 == 0
  {
    var (q, r) := (n / 64, n % 64);
    assert n == 64 * q + r;
    assert n + 1 + ZeroCount(n) + 8 == if r <= 55 then 64 * (q + 1) else 64 * (q + 2);
  }

  /** Section 5.1.1: k zero bits after the one bit fill a message of l bits up to 448 modulo 512. */
  ghost predicate Fits(l: nat, k: nat) {
    (l + 1 + k) % 512 == 448
  }

  lemma ShortDoesNotFit(q: nat, x: nat)
    requires x < 448 || 448 < x < 960
    ensures (512 * q + x) % 512 != 448
  {
    assert (512 * q + x) % 512 == x % 512;
  }

  /** The zero bits, seven in the byte 0x80 and the rest in whole bytes, are the least number that fits. */
  lemma ZeroCountIsLeast(length: nat)
    ensures Fits(8 * length, 8 * ZeroCount(length) + 7)
    ensures forall j: nat :: j < 8 * ZeroCount(length) + 7 ==> !Fits(8 * length, j)
  {
    var (q, r) := (length / 64, length % 64);
    assert 8 * length == 512 * q + 8 * r;
    assert 8 * length + 8 * ZeroCount(length) + 8 == if r <= 55 then 512 * q + 448 else 512 * (q + 1) + 448;
    forall j: nat | j < 8 * ZeroCount(length) + 7 ensures !Fits(8 * length, j) {
      ShortDoesNotFit(q, 8 * r + 1 + j);
    }
  }

  function Sha1(message: seq<bv8>): Words {
    PadLength(message);
    HashBlocks(INITIAL, Pad(message))
  }

  lemma HashBlocksCons(h: Words, block: seq<bv8>, rest: seq<bv8>)
    requires |block| == 64 && |rest| % 64 == 0
    ensures |block + rest| % 64 == 0 && HashBlocks(h, block + rest) == HashBlocks(Compress(h, block), rest)
  {
    hide Compress;
    assert (block + rest)[..64] == block && (block + rest)[64..] == rest;
  }

  lemma {:induction false} HashBlocksAppend(h: Words, u: seq<bv8>, v: seq<bv8>)
    requires |u| % 64 == 0 && |v| % 64 == 0
    ensures |u + v| % 64 == 0
    ensures HashBlocks(h, u + v) == HashBlocks(HashBlocks(h, u), v)
    decreases |u|
  {
    hide Compress;
    if u == [] {
      assert u + v == v;
    } else {
      var (first, rest) := (u[..64], u[64..]);
      assert u + v == first + (rest + v);
      HashBlocksAppend(Compress(h, first), rest, v);
      HashBlocksCons(h, first, rest + v);
      HashBlocksCons(h, first, rest);
    }
  }

  lemma HashOneBlock(h: Words, block: seq<bv8>)
    requires |block| == 64
    ensures HashBlocks(h, block) == Compress(h, block)
  {
    hide Compress;
    assert block[..64] == block && block[64..] == [];
  }
}
