/** The sender's packet counter, the RTP fields it becomes, and the AEAD nonce they form. */
module Nonce {
  import opened Words

  /** The per-direction counters of one sender, with its SSRC. */
  datatype Sender = Sender(ssrc: nat, initSeq: nat, initTs: nat) {
    ghost predicate Valid() {
      ssrc < TWO32 && initSeq < TWO16 && initTs < TWO32
    }
  }

  /** The 16-bit sequence number of packet `c`: uint16 arithmetic. */
  function SeqOf(s: Sender, c: nat): (r: nat)
    ensures r < TWO16
  {
    (s.initSeq + c % TWO16) % TWO16
  }

  /** The 32-bit timestamp of packet `c`: every operation is uint32 arithmetic. */
  function TsOf(s: Sender, c: nat): (r: nat)
    ensures r < TWO32
  {
    ((s.initTs + (c % TWO32) * 960 % TWO32) % TWO32 + (c / TWO16) % TWO32) % TWO32
  }

  /** The timestamp the sender means, before it is cut to 32 bits. */
  function TrueTime(s: Sender, c: nat): nat {
    s.initTs + 960 * c + c / TWO16
  }

  /** SSRC, sequence number, two zero bytes, timestamp. */
  function BuildNonce(ssrc: nat, seqNo: nat, ts: nat): (n: bytes)
    ensures |n| == 12
  {
    BigEndian(ssrc, 4) + BigEndian(seqNo, 2) + [0, 0] + BigEndian(ts, 4)
  }

  function NonceOf(s: Sender, c: nat): (n: bytes)
    ensures |n| == 12
  {
    BuildNonce(s.ssrc, SeqOf(s, c), TsOf(s, c))
  }

  /** A nonce gives back each of the three fields it was built from. */
  lemma NonceFields(ssrc: nat, seqNo: nat, ts: nat)
    requires ssrc < TWO32 && seqNo < TWO16 && ts < TWO32
    ensures FromBigEndian(BuildNonce(ssrc, seqNo, ts)[0..4]) == ssrc
    ensures FromBigEndian(BuildNonce(ssrc, seqNo, ts)[4..6]) == seqNo
    ensures FromBigEndian(BuildNonce(ssrc, seqNo, ts)[8..12]) == ts
  {
    PowValues();
    FieldRoundTrip(ssrc, 4);
    FieldRoundTrip(seqNo, 2);
    FieldRoundTrip(ts, 4);
    var n := BuildNonce(ssrc, seqNo, ts);
    assert n[0..4] == BigEndian(ssrc, 4);
    assert n[4..6] == BigEndian(seqNo, 2);
    assert n[8..12] == BigEndian(ts, 4);
  }

  /** The 32-bit timestamp is the true time cut to 32 bits, for every counter value. */
  lemma TsIsTrueTime(s: Sender, c: nat)
    ensures TsOf(s, c) == TrueTime(s, c) % TWO32
  {
    var a := (c % TWO32) * 960;
    var q := c / TWO32;
    assert c == q * TWO32 + c % TWO32;
    assert 960 * c == a + 960 * q * TWO32;
    var m := c / TWO16;
    assert TrueTime(s, c) - (s.initTs + a % TWO32 + m % TWO32)
        == TWO32 * (960 * q + a / TWO32 + m / TWO32);
    CutSum(s.initTs + a % TWO32, m % TWO32);
    CutShift(s.initTs + a % TWO32 + m % TWO32, 960 * q + a / TWO32 + m / TWO32);
  }

  lemma CutSum(a: nat, b: nat)
    ensures (a % TWO32 + b) % TWO32 == (a + b) % TWO32
  {
    CutShift(a % TWO32 + b, a / TWO32);
  }

  lemma CutShift(a: int, k: int)
    ensures (a + TWO32 * k) % TWO32 == a % TWO32
  {
  }

  /** Time moves 960 or 961 ticks per packet. */
  lemma {:induction false} TrueTimeStep(s: Sender, a: nat, b: nat)
    requires a <= b
    ensures 960 * (b - a) <= TrueTime(s, b) - TrueTime(s, a) <= 961 * (b - a)
  {
    assert a / TWO16 <= b / TWO16;
    assert b / TWO16 - a / TWO16 <= b - a;
  }

  /** 960 * 65536 + 1 is invertible modulo 2^32, so it kills no non-zero residue. */
  lemma OddMultiplier(d: int)
    requires (62914561 * d) % TWO32 == 0
    ensures d % TWO32 == 0
  {
    var q := (62914561 * d) / TWO32;
    assert 62914561 * d == q * TWO32;
    // (1 - 15 * 2^22) * (1 + 15 * 2^22) == 1 - 225 * 2^44
    assert d == TWO32 * (q - 62914560 * q + 225 * 4096 * d);
    CutShift(0, q - 62914560 * q + 225 * 4096 * d);
  }

  lemma SeqCollision(s: Sender, a: nat, b: nat)
    ensures SeqOf(s, a) == SeqOf(s, b) <==> (a - b) % TWO16 == 0
  {
  }

  /** For counters equal modulo 2^16, 65536 * d apart, the timestamps agree only if 2^32 divides d. */
  lemma TsCollision(s: Sender, b: nat, d: int)
    requires b + TWO16 * d >= 0
    ensures TsOf(s, b + TWO16 * d) == TsOf(s, b) <==> d % TWO32 == 0
  {
    var a := b + TWO16 * d;
    assert a / TWO16 == b / TWO16 + d;
    assert TrueTime(s, a) - TrueTime(s, b) == 62914561 * d;
    TsIsTrueTime(s, a);
    TsIsTrueTime(s, b);
    SameCut(TrueTime(s, a), TrueTime(s, b));
    if (62914561 * d) % TWO32 == 0 {
      OddMultiplier(d);
    } else if d % TWO32 == 0 {
      CutShift(0, 62914561 * (d / TWO32));
    }
  }

  lemma NonceEqual(s: Sender, a: nat, b: nat)
    requires s.Valid()
    ensures NonceOf(s, a) == NonceOf(s, b) <==> SeqOf(s, a) == SeqOf(s, b) && TsOf(s, a) == TsOf(s, b)
  {
    NonceFields(s.ssrc, SeqOf(s, a), TsOf(s, a));
    NonceFields(s.ssrc, SeqOf(s, b), TsOf(s, b));
  }

  lemma Multiples48(x: int)
    ensures x % TWO48 == 0 <==> x % TWO16 == 0 && (x / TWO16) % TWO32 == 0
  {
  }

  /** Two packets of one sender share a nonce exactly when their counters differ by a multiple of 2^48. */
  lemma NonceCollision(s: Sender, a: nat, b: nat)
    requires s.Valid()
    ensures NonceOf(s, a) == NonceOf(s, b) <==> (a - b) % TWO48 == 0
  {
    hide NonceOf, SeqOf, TsOf;
    NonceEqual(s, a, b);
    SeqCollision(s, a, b);
    Multiples48(a - b);
    if (a - b) % TWO16 == 0 {
      var d := (a - b) / TWO16;
      assert a == b + TWO16 * d;
      TsCollision(s, b, d);
    }
  }

  lemma SameCut(a: int, b: int)
    ensures a % TWO32 == b % TWO32 <==> (a - b) % TWO32 == 0
  {
  }

  /** Within the 48-bit counter space no nonce is ever used twice. */
  lemma NonceUnique(s: Sender, a: nat, b: nat)
    requires s.Valid() && a < TWO48 && b < TWO48 && a != b
    ensures NonceOf(s, a) != NonceOf(s, b)
  {
    NonceCollision(s, a, b);
    SmallMultiple(a - b);
  }

  lemma SmallMultiple(x: int)
    requires 0 < x < TWO48 || 0 < -x < TWO48
    ensures x % TWO48 != 0
  {
  }
}
