/** The wire formats byte by byte: where each field lies and in which order its bytes come. */
module WireLayout {
  import opened Division
  import opened Words
  import opened Nonce
  import opened RtpFrame
  import opened BondCodec

  lemma DivTwice(n: nat, p: nat)
    requires p > 0
    ensures n / 256 / p == n / (256 * p)
  {
    var q, r := n / 256, n % 256;
    var a, b := q / p, q % p;
    assert q == p * a + b && n == 256 * q + r;
    assert n == (256 * p) * a + (256 * b + r);
    assert 256 * b + r < 256 * p;
    DivUnique(n, 256 * p, a, 256 * b + r);
  }

  /** Byte `i` of a field of `w` bytes, the most significant first. */
  lemma {:induction false} ByteAt(n: nat, w: nat, i: nat)
    requires i < w
    ensures BigEndian(n, w)[i] == n / Pow256(w - 1 - i) % 256
    decreases w
  {
    if i < w - 1 {
      ByteAt(n / 256, w - 1, i);
      DivTwice(n, Pow256(w - 2 - i));
    }
  }

  lemma TwoBytes(n: nat)
    requires n < TWO16
    ensures BigEndian(n, 2) == [n / 256, n % 256]
  {
    assert BigEndian(n / 256, 1) == [] + [n / 256 % 256];
  }

  lemma FourBytes(n: nat)
    requires n < TWO32
    ensures BigEndian(n, 4) == [n / 16777216, n / 65536 % 256, n / 256 % 256, n % 256]
  {
    var a, b, c := n / 256, n / 256 / 256, n / 256 / 256 / 256;
    assert b == n / 65536 && c == n / 16777216;
    assert BigEndian(c, 1) == [] + [c % 256];
    assert BigEndian(b, 2) == BigEndian(c, 1) + [b % 256];
    assert BigEndian(a, 3) == BigEndian(b, 2) + [a % 256];
  }

  /** The RTP header of packet `c`: version 2 with padding, the payload type, then sequence number, time and SSRC. */
  lemma HeaderLayout(cfg: Config, s: Sender, c: nat)
    ensures var h, q, t, x := HeaderBytes(cfg, s, c), SeqOf(s, c), TsOf(s, c), cfg.ssrc;
            h == [160, cfg.payloadType % 128, q / 256, q % 256,
                  t / 16777216, t / 65536 % 256, t / 256 % 256, t % 256,
                  x / 16777216, x / 65536 % 256, x / 256 % 256, x % 256]
  {
    hide BigEndian, SeqOf, TsOf;
    TwoBytes(SeqOf(s, c));
    FourBytes(TsOf(s, c));
    FourBytes(cfg.ssrc);
  }

  /** The nonce: SSRC, sequence number, two zeroes, time. */
  lemma NonceLayout(ssrc: nat, q: nat, t: nat)
    requires ssrc < TWO32 && q < TWO16 && t < TWO32
    ensures BuildNonce(ssrc, q, t) ==
            [ssrc / 16777216, ssrc / 65536 % 256, ssrc / 256 % 256, ssrc % 256, q / 256, q % 256, 0, 0,
             t / 16777216, t / 65536 % 256, t / 256 % 256, t % 256]
  {
    hide BigEndian;
    TwoBytes(q);
    FourBytes(ssrc);
    FourBytes(t);
  }

  /** Sequence number and time start where the sender's do; each packet adds one to the sequence number and 960 ticks to
      the time, and one more tick every 65536 packets. */
  lemma FieldsAdvance(s: Sender, c: nat)
    requires s.Valid()
    ensures SeqOf(s, 0) == s.initSeq && TrueTime(s, 0) == s.initTs && TsOf(s, 0) == s.initTs
    ensures SeqOf(s, c + 1) == (SeqOf(s, c) + 1) % TWO16
    ensures TrueTime(s, c + 1) == TrueTime(s, c) + 960 + (if (c + 1) % TWO16 == 0 then 1 else 0)
  {}

  /** A bond frame: one byte of type, eight of sequence number, four of length, and the payload. */
  lemma FrameLayout(f: BondCodec.Frame, i: nat)
    requires i < 13 + |f.data|
    ensures Encode(f)[i] ==
            if i == 0 then f.typ
            else if i < 9 then f.seqNo / Pow256(8 - i) % 256
            else if i < 13 then |f.data| / Pow256(12 - i) % 256
            else f.data[i - 13]
    ensures DATA == 1 && FIN == 2
  {
    hide BigEndian;
    if 1 <= i < 9 {
      ByteAt(f.seqNo, 8, i - 1);
    } else if 9 <= i < 13 {
      ByteAt(|f.data|, 4, i - 9);
    }
  }

  /** A lane's handshake: the four letters "OLB1", version 1, the connection, this lane's index and the lane count. */
  lemma HelloLayout(h: Hello, i: nat)
    requires i < 17
    ensures |HelloBytes(h)| == 17
    ensures HelloBytes(h)[i] ==
            if i < 4 then "OLB1"[i] as int
            else if i == 4 then 1
            else if i < 13 then h.connID / Pow256(12 - i) % 256
            else if i < 15 then h.laneIndex / Pow256(14 - i) % 256
            else h.laneCount / Pow256(16 - i) % 256
  {
    hide BigEndian;
    if 5 <= i < 13 {
      ByteAt(h.connID, 8, i - 5);
    } else if 13 <= i < 15 {
      ByteAt(h.laneIndex, 2, i - 13);
    } else if 15 <= i {
      ByteAt(h.laneCount, 2, i - 15);
    }
  }

  /** The number four bytes stand for, the most significant first. */
  function Number(a: int, b: int, c: int, d: int): int {
    a * 16777216 + b * 65536 + c * 256 + d
  }

  lemma FourRead(s: bytes)
    requires |s| == 4
    ensures FromBigEndian(s) == Number(s[0], s[1], s[2], s[3])
  {
    var a, b, c := s[..3], s[..2], s[..1];
    assert a[..2] == b && b[..1] == c && c[..0] == [];
    assert FromBigEndian(c) == s[0];
    assert FromBigEndian(b) == Number(0, 0, s[0], s[1]);
    assert FromBigEndian(a) == Number(0, s[0], s[1], s[2]);
  }

  /** What a reader makes of the bytes at hand: a header of 13 bytes whose length is over 16384 is an error, too few
      bytes for header and length are not a frame, and otherwise the frame is the first 13 bytes and that many more. */
  lemma ReadFrameExactly(s: bytes)
    ensures |s| < 13 ==> ReadFrame(s) == Short
    ensures |s| >= 13 ==>
              var size := Number(s[9], s[10], s[11], s[12]);
              && (ReadFrame(s) == TooLarge <==> size > 16384)
              && (ReadFrame(s) == Short <==> size <= 16384 && |s| < 13 + size)
              && (ReadFrame(s).Got? ==>
                    ReadFrame(s).frame.data == s[13..13 + size] && ReadFrame(s).rest == s[13 + size..])
  {
    if |s| >= 13 {
      FourRead(s[9..13]);
      assert s[9..13] == [s[9], s[10], s[11], s[12]];
    }
    hide FromBigEndian;
  }

  /** Why a handshake is refused: too few bytes, other letters, or another version, which the error names. */
  lemma HelloRefused(s: bytes)
    ensures ReadHello(s) == Truncated <==> |s| < 17
    ensures ReadHello(s) == BadMagic <==> |s| >= 17 && s[..4] != [79, 76, 66, 49]
    ensures forall v: byte :: ReadHello(s) == BadVersion(v) <==>
                              |s| >= 17 && s[..4] == [79, 76, 66, 49] && s[4] == v && v != 1
  {
    hide FromBigEndian;
    assert |s| >= 4 ==> s[0..4] == s[..4];
  }
}
