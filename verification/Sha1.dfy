/**
 The block function of fingerprint/hash.c: the message schedule and the four round loops, with the word
 operations as the code writes them, proved equal to the definitions in `Sha1Spec`.
 */
module Sha1 {
  import opened Sha1Spec

  // ----- the word operations as the code writes them

  function CircularShift1(x: bv32): bv32 { (x << 1) | (x >> 31) }

  function CircularShift30(x: bv32): bv32 { (x << 30) | (x >> 2) }

  /** The sum assigned to `temp`, with its circular shift by 5 spelled out. */
  function TempSum(a: bv32, f: bv32, e: bv32, w: bv32, k: bv32): bv32 {
    ((a << 5) | (a >> 27)) + f + e + w + k
  }

  lemma ShiftsAreRotations(x: bv32)
    ensures CircularShift1(x) == x.RotateLeft(1)
    ensures CircularShift30(x) == x.RotateLeft(30)
  {
  }

  lemma TempSumIsTemporary(a: bv32, f: bv32, e: bv32, w: bv32, k: bv32)
    ensures TempSum(a, f, e, w, k) == Temporary(a, f, e, k, w)
  {
  }

  lemma OrFormsMatch(x: bv32, y: bv32, z: bv32)
    ensures (x & y) | (!x & z) == Ch(x, y, z)
    ensures (x & y) | (x & z) | (y & z) == Maj(x, y, z)
  {
  }

  /** Four bytes packed by shifting and or-ing. */
  function PackBytes(p: bv8, q: bv8, r: bv8, s: bv8): bv32 {
    ((p as bv32) << 24) | ((q as bv32) << 16) | ((r as bv32) << 8) | (s as bv32)
  }

  lemma PackBytesIsPositional(p: bv8, q: bv8, r: bv8, s: bv8)
    ensures PackBytes(p, q, r, s) == BigEndianWord(p, q, r, s)
  {
  }

  lemma FirstWords(block: seq<bv8>, t: nat)
    requires |block| == 64 && t < 16
    ensures PackBytes(block[t * 4], block[t * 4 + 1], block[t * 4 + 2], block[t * 4 + 3]) == W(block, t)
  {
    PackBytesIsPositional(block[t * 4], block[t * 4 + 1], block[t * 4 + 2], block[t * 4 + 3]);
  }

  lemma LaterWords(block: seq<bv8>, t: nat)
    requires |block| == 64 && t >= 16
    ensures CircularShift1(Mix(W(block, t - 3), W(block, t - 8), W(block, t - 14), W(block, t - 16))) == W(block, t)
  {
    ShiftsAreRotations(Mix(W(block, t - 3), W(block, t - 8), W(block, t - 14), W(block, t - 16)));
  }

  /** One turn of a round loop, given the value of its logical function. */
  function LoopTurn(v: Words, f: bv32, w: bv32, k: bv32): Words {
    Words(TempSum(v.a, f, v.e, w, k), v.a, CircularShift30(v.b), v.c, v.d)
  }

  lemma LoopTurnIsTurn(v: Words, f: bv32, w: bv32, k: bv32)
    ensures LoopTurn(v, f, w, k) == Turn(v, f, k, w)
  {
    TempSumIsTemporary(v.a, f, v.e, w, k);
    ShiftsAreRotations(v.b);
  }

  lemma RoundsNext(h: Words, ws: seq<bv32>, t: nat)
    requires t < |ws|
    ensures Rounds(h, ws[..t + 1]) == Round(Rounds(h, ws[..t]), ws[t], t)
  {
    assert ws[..t + 1][..t] == ws[..t];
  }

  /** The round loops from one turn to the next, for each of the three logical functions. */
  lemma NextChoose(h: Words, ws: seq<bv32>, t: nat, v: Words)
    requires t < |ws| && t < 20 && v == Rounds(h, ws[..t])
    ensures LoopTurn(v, (v.b & v.c) | (!v.b & v.d), ws[t], 0x5A827999) == Rounds(h, ws[..t + 1])
  {
    OrFormsMatch(v.b, v.c, v.d);
    LoopTurnIsTurn(v, Ch(v.b, v.c, v.d), ws[t], 0x5A827999);
    RoundsNext(h, ws, t);
  }

  lemma NextParity(h: Words, ws: seq<bv32>, t: nat, v: Words)
    requires t < |ws| && 20 <= t < 40 && v == Rounds(h, ws[..t])
    ensures LoopTurn(v, v.b ^ v.c ^ v.d, ws[t], 0x6ED9EBA1) == Rounds(h, ws[..t + 1])
  {
    LoopTurnIsTurn(v, Parity(v.b, v.c, v.d), ws[t], 0x6ED9EBA1);
    RoundsNext(h, ws, t);
  }

  lemma NextLastParity(h: Words, ws: seq<bv32>, t: nat, v: Words)
    requires t < |ws| && 60 <= t && v == Rounds(h, ws[..t])
    ensures LoopTurn(v, v.b ^ v.c ^ v.d, ws[t], 0xCA62C1D6) == Rounds(h, ws[..t + 1])
  {
    LoopTurnIsTurn(v, Parity(v.b, v.c, v.d), ws[t], 0xCA62C1D6);
    RoundsNext(h, ws, t);
  }

  lemma NextMajority(h: Words, ws: seq<bv32>, t: nat, v: Words)
    requires t < |ws| && 40 <= t < 60 && v == Rounds(h, ws[..t])
    ensures LoopTurn(v, (v.b & v.c) | (v.b & v.d) | (v.c & v.d), ws[t], 0x8F1BBCDC) == Rounds(h, ws[..t + 1])
  {
    OrFormsMatch(v.b, v.c, v.d);
    LoopTurnIsTurn(v, Maj(v.b, v.c, v.d), ws[t], 0x8F1BBCDC);
    RoundsNext(h, ws, t);
  }

  /** Fills W, the message schedule. */
  method FillSchedule(block: seq<bv8>) returns (w: array<bv32>)
    requires |block| == 64
    ensures fresh(w) && w[..] == Sha1Spec.Schedule(block)
  {
    hide W, CircularShift1, PackBytes, Mix;
    w := new bv32[80];
    for t := 0 to 16
      invariant forall j :: 0 <= j < t ==> w[j] == W(block, j)
    {
      FirstWords(block, t);
      w[t] := PackBytes(block[t * 4], block[t * 4 + 1], block[t * 4 + 2], block[t * 4 + 3]);
    }
    for t := 16 to 80
      invariant forall j :: 0 <= j < t ==> w[j] == W(block, j)
    {
      LaterWords(block, t);
      w[t] := CircularShift1(Mix(w[t - 3], w[t - 8], w[t - 14], w[t - 16]));
    }
  }

  /** The four loops of twenty rounds. */
  method RunRounds(h: Words, w: array<bv32>) returns (v: Words)
    requires w.Length == 80
    ensures v == Rounds(h, w[..])
  {
    v := h;
    for t := 0 to 20
      invariant v == Rounds(h, w[..][..t])
    {
      NextChoose(h, w[..], t, v);
      v := LoopTurn(v, (v.b & v.c) | (!v.b & v.d), w[t], 0x5A827999);
    }
    for t := 20 to 40
      invariant v == Rounds(h, w[..][..t])
    {
      NextParity(h, w[..], t, v);
      v := LoopTurn(v, v.b ^ v.c ^ v.d, w[t], 0x6ED9EBA1);
    }
    for t := 40 to 60
      invariant v == Rounds(h, w[..][..t])
    {
      NextMajority(h, w[..], t, v);
      v := LoopTurn(v, (v.b & v.c) | (v.b & v.d) | (v.c & v.d), w[t], 0x8F1BBCDC);
    }
    for t := 60 to 80
      invariant v == Rounds(h, w[..][..t])
    {
      NextLastParity(h, w[..], t, v);
      v := LoopTurn(v, v.b ^ v.c ^ v.d, w[t], 0xCA62C1D6);
    }
    assert w[..][..80] == w[..];
  }

  /** The part of SHA1ProcessMessageBlock that computes the new digest. */
  method CompressBlock(h: Words, block: seq<bv8>) returns (r: Words)
    requires |block| == 64
    ensures r == Compress(h, block)
  {
    var w := FillSchedule(block);
    var v := RunRounds(h, w);
    r := Plus(h, v);
  }
}
