/** RTP-shaped frames: header, sealed payload, padding and padding length (section 5.1 of RFC 3550). */
module RtpFrame {
  import opened Words
  import opened Nonce

  const KEY_LEN: nat := 32
  const OVERHEAD: nat := 16
  const SHORT_HEADER: nat := 12
  const LONG_HEADER: nat := 24

  /** The AEAD, as far as the framing depends on it (section 2.8 of RFC 8439). */
  datatype Aead = Aead(seal: (bytes, bytes, bytes, bytes) -> bytes,
                       open: (bytes, bytes, bytes, bytes) -> Option<bytes>) {
    /** Sealing adds the tag, opening undoes sealing and accepts nothing else.
        Arguments: key, nonce, text, associated data. */
    ghost predicate Lawful() {
      && (forall k, n, p, ad :: |seal(k, n, p, ad)| == |p| + OVERHEAD && open(k, n, seal(k, n, p, ad), ad) == Some(p))
      && (forall k, n, c, ad :: open(k, n, c, ad).Some? ==> seal(k, n, open(k, n, c, ad).value, ad) == c)
    }
  }

  datatype Option<+T> = None | Some(value: T)

  datatype Error =
    | BadKey | EmptyPayload | NoRandom | TooShort | NotRtp | BadPadding | NoPayload | DstTooSmall | AuthFailed

  datatype Result = Ok(value: bytes) | Err(error: Error)

  datatype Config = Config(ssrc: uint32, payloadType: byte, paddingMax: int)

  /** Twelve header bytes: V=2 with padding and no extension, payload type, sequence, time, SSRC. */
  function HeaderBytes(cfg: Config, s: Sender, c: nat): (h: bytes)
    ensures |h| == SHORT_HEADER
  {
    [0xA0, cfg.payloadType % 128] + BigEndian(SeqOf(s, c), 2) + BigEndian(TsOf(s, c), 4) + BigEndian(cfg.ssrc, 4)
  }

  /** The frame of one packet; `noise` is the random padding. The last byte counts the padding in uint8. */
  function Frame(a: Aead, key: bytes, payload: bytes, cfg: Config, s: Sender, c: nat, noise: bytes): bytes {
    var h := HeaderBytes(cfg, s, c);
    h + a.seal(key, BuildNonce(cfg.ssrc, SeqOf(s, c), TsOf(s, c)), payload, h) + noise + [(|noise| + 1) % 256]
  }

  // ---------- receiving ----------

  /** Everything after the header length is known: strip padding, check lengths, decrypt. */
  function UnwrapAt(a: Aead, key: bytes, wire: bytes, headerLen: nat, dstLen: nat): (r: Result)
    requires SHORT_HEADER <= headerLen < |wire|
  {
    var padded := wire[0] / 32 % 2 == 1;
    var padLen := if padded then wire[|wire| - 1] else 0;
    if padded && (padLen == 0 || padLen > |wire| - headerLen) then Err(BadPadding)
    else
      var end := |wire| - padLen;
      if end - headerLen <= OVERHEAD then Err(NoPayload)
      else if end - headerLen - OVERHEAD > dstLen then Err(DstTooSmall)
      else
        var nonce := BuildNonce(FromBigEndian(wire[8..12]), FromBigEndian(wire[2..4]), FromBigEndian(wire[4..8]));
        match a.open(key, nonce, wire[headerLen..end], wire[..headerLen])
        case None => Err(AuthFailed)
        case Some(p) => Ok(p)
  }

  /** The server always reads a twelve-byte header. */
  function ServerUnwrap(a: Aead, key: bytes, wire: bytes, dstLen: nat): (r: Result) {
    if |key| != KEY_LEN then Err(BadKey)
    else if |wire| < SHORT_HEADER + 1 then Err(TooShort)
    else if wire[0] / 64 != 2 then Err(NotRtp)
    else UnwrapAt(a, key, wire, SHORT_HEADER, dstLen)
  }

  /** The client reads twenty-four header bytes when the extension bit is set. */
  function ClientUnwrap(a: Aead, key: bytes, wire: bytes, dstLen: nat): (r: Result) {
    if |key| != KEY_LEN then Err(BadKey)
    else if |wire| < SHORT_HEADER + 1 then Err(TooShort)
    else if wire[0] / 64 != 2 then Err(NotRtp)
    else
      var headerLen := if wire[0] / 16 % 2 == 1 then LONG_HEADER else SHORT_HEADER;
      if |wire| < headerLen + 1 then Err(TooShort) else UnwrapAt(a, key, wire, headerLen, dstLen)
  }

  // ---------- sending ----------

  /** Writes `s` into `out` from index `at`. */
  method Put(out: array<byte>, at: nat, s: bytes)
    requires at + |s| <= out.Length
    modifies out
    ensures out[..] == old(out[..at]) + s + old(out[at + |s|..])
  {
    for i := 0 to |s|
      invariant out[..] == old(out[..at]) + s[..i] + old(out[at + i..])
    {
      out[at + i] := s[i];
    }
  }

  /** Per-direction counters. */
  class ObfsState {
    const initSeq: uint16
    const initTs: uint32
    var count: uint64

    constructor (initSeq: uint16, initTs: uint32)
      ensures this.initSeq == initSeq && this.initTs == initTs && count == 0
    {
      this.initSeq, this.initTs, count := initSeq, initTs, 0;
    }

    method FillHeader(cfg: Config, seqNo: uint16, ts: uint32, out: array<byte>)
      requires out.Length >= SHORT_HEADER
      modifies out
      ensures out[..12] ==
              [0xA0, cfg.payloadType % 128] + BigEndian(seqNo, 2) + BigEndian(ts, 4) + BigEndian(cfg.ssrc, 4)
    {
      Put(out, 0, [0xA0, cfg.payloadType % 128]);
      ghost var a := out[..2];
      Put(out, 2, BigEndian(seqNo, 2));
      assert out[..4] == a + BigEndian(seqNo, 2);
      ghost var b := out[..4];
      Put(out, 4, BigEndian(ts, 4));
      assert out[..8] == b + BigEndian(ts, 4);
      ghost var d := out[..8];
      Put(out, 8, BigEndian(cfg.ssrc, 4));
      assert out[..12] == d + BigEndian(cfg.ssrc, 4);
    }

    /** Lays one frame out in `out`, sealing in place. */
    method Fill(a: Aead, key: bytes, payload: bytes, cfg: Config, c: uint64, noise: bytes, out: array<byte>)
      requires a.Lawful() && out.Length >= SHORT_HEADER + |payload| + OVERHEAD + |noise| + 1
      modifies out
      ensures out[..SHORT_HEADER + |payload| + OVERHEAD + |noise| + 1]
              == Frame(a, key, payload, cfg, Sender(cfg.ssrc, initSeq, initTs), c, noise)
    {
      var s := Sender(cfg.ssrc, initSeq, initTs);
      var seqNo, ts := SeqOf(s, c), TsOf(s, c);
      FillHeader(cfg, seqNo, ts, out);
      ghost var h := HeaderBytes(cfg, s, c);
      assert out[..12] == h;
      var sealed := a.seal(key, BuildNonce(cfg.ssrc, seqNo, ts), payload, out[..12]);
      Put(out, 12, sealed);
      assert out[..12 + |sealed|] == h + sealed;
      FillTail(noise, 12 + |sealed|, out);
    }

    /** Random padding, then the padding count in the last byte. */
    method FillTail(noise: bytes, at: nat, out: array<byte>)
      requires at + |noise| + 1 <= out.Length
      modifies out
      ensures out[..at + |noise| + 1] == old(out[..at]) + noise + [(|noise| + 1) % 256]
    {
      Put(out, at, noise);
      assert out[..at + |noise|] == old(out[..at]) + noise;
      out[at + |noise|] := (|noise| + 1) % 256;
    }

    /** Builds one frame in `dst` if that is long enough, else in a new buffer. `draw` is the random byte and
        `fill` the random source for the padding. Every call past the argument checks consumes a counter value,
        also when the random source fails. */
    method WrapPacket(a: Aead, key: bytes, payload: bytes, cfg: Config, dst: array<byte>,
                      draw: Option<byte>, fill: nat -> Option<bytes>)
        returns (out: array<byte>, outLen: nat, err: Option<Error>)
      requires a.Lawful() && forall n: nat :: fill(n).Some? ==> |fill(n).value| == n
      modifies this, dst
      ensures |key| != KEY_LEN ==> err == Some(BadKey) && count == old(count)
      ensures |key| == KEY_LEN && payload == [] ==> err == Some(EmptyPayload) && count == old(count)
      ensures |key| == KEY_LEN && payload != [] ==> count == Add64(old(count), 1)
      ensures |key| == KEY_LEN && payload != [] ==>
                match Noise(cfg, draw, fill)
                case None => err == Some(NoRandom)
                case Some(noise) =>
                  && err == None && outLen <= out.Length && (out == dst || fresh(out))
                  && out[..outLen] == Frame(a, key, payload, cfg, Sender(cfg.ssrc, initSeq, initTs), old(count), noise)
      ensures err == None <==> |key| == 32 && payload != [] && Drawn(cfg, draw, fill)
      ensures err == None ==> outLen == 29 + |payload| + (if cfg.paddingMax > 0 then draw.value % cfg.paddingMax else 0)
    {
      out, outLen := dst, 0;
      if |key| != KEY_LEN {
        return dst, 0, Some(BadKey);
      }
      if payload == [] {
        return dst, 0, Some(EmptyPayload);
      }
      var c := count;
      count := Add64(count, 1);
      var padRand := 0;
      if cfg.paddingMax > 0 {
        if draw.None? {
          return dst, 0, Some(NoRandom);
        }
        padRand := draw.value % cfg.paddingMax;
      }
      var noise := [];
      if padRand > 0 {
        if fill(padRand).None? {
          return dst, 0, Some(NoRandom);
        }
        noise := fill(padRand).value;
      }
      outLen := SHORT_HEADER + |payload| + OVERHEAD + padRand + 1;
      if dst.Length < outLen {
        out := new byte[outLen](_ => 0);
      }
      Fill(a, key, payload, cfg, c, noise, out);
      err := None;
    }
  }

  /** The padding drawn for one frame, if the random source delivers. */
  function Noise(cfg: Config, draw: Option<byte>, fill: nat -> Option<bytes>): (r: Option<bytes>) {
    if cfg.paddingMax <= 0 then Some([])
    else if draw.None? then None
    else if draw.value % cfg.paddingMax == 0 then Some([])
    else fill(draw.value % cfg.paddingMax)
  }

  /** The random source delivers: the byte that decides how much padding there is, and that much padding. */
  predicate Drawn(cfg: Config, draw: Option<byte>, fill: nat -> Option<bytes>) {
    cfg.paddingMax > 0 ==> draw.Some? && (draw.value % cfg.paddingMax > 0 ==> fill(draw.value % cfg.paddingMax).Some?)
  }

  // ---------- what the framing promises ----------

  /** How much padding a draw stands for: the draw modulo the limit. */
  lemma PaddingDrawn(cfg: Config, draw: Option<byte>, fill: nat -> Option<bytes>)
    requires forall n: nat :: fill(n).Some? ==> |fill(n).value| == n
    ensures Noise(cfg, draw, fill).Some? <==> Drawn(cfg, draw, fill)
    ensures Drawn(cfg, draw, fill) ==>
              var n := if cfg.paddingMax > 0 then draw.value % cfg.paddingMax else 0;
              |Noise(cfg, draw, fill).value| == n && (n > 0 ==> Noise(cfg, draw, fill) == fill(n))
  {}

  /** Every amount of padding below the limit that a byte can say is drawn, by that byte. */
  lemma EveryAmountDrawn(cfg: Config, n: byte, fill: nat -> Option<bytes>)
    requires n < cfg.paddingMax && fill(n).Some? && |fill(n).value| == n
    ensures Noise(cfg, Some(n), fill).Some? && |Noise(cfg, Some(n), fill).value| == n
  {
    assert n % cfg.paddingMax == n;
  }

  /** Every frame is 29 bytes longer than its payload, plus padding below `paddingMax`. */
  lemma FrameLength(a: Aead, key: bytes, payload: bytes, cfg: Config, s: Sender, c: nat,
                    draw: Option<byte>, fill: nat -> Option<bytes>)
    requires a.Lawful() && Noise(cfg, draw, fill).Some? && forall n: nat :: fill(n).Some? ==> |fill(n).value| == n
    ensures var n := |Frame(a, key, payload, cfg, s, c, Noise(cfg, draw, fill).value)|;
            |payload| + 29 <= n <= |payload| + 28 + (if cfg.paddingMax > 0 then cfg.paddingMax else 1)
  {
  }

  /** The parts of a frame, where the receiver looks for them. */
  lemma FrameParts(a: Aead, key: bytes, payload: bytes, cfg: Config, s: Sender, c: nat, noise: bytes)
    requires a.Lawful()
    ensures var f, h := Frame(a, key, payload, cfg, s, c, noise), HeaderBytes(cfg, s, c);
            && |f| == 29 + |payload| + |noise| && f[..12] == h && f[|f| - 1] == (|noise| + 1) % 256
            && f[12..28 + |payload|] == a.seal(key, BuildNonce(cfg.ssrc, SeqOf(s, c), TsOf(s, c)), payload, h)
            && f[28 + |payload|..|f| - 1] == noise
  {
    hide HeaderBytes, BuildNonce, SeqOf, TsOf;
    var h := HeaderBytes(cfg, s, c);
    var sealed := a.seal(key, BuildNonce(cfg.ssrc, SeqOf(s, c), TsOf(s, c)), payload, h);
    assert |sealed| == |payload| + OVERHEAD;
  }

  lemma HeaderFields(cfg: Config, s: Sender, c: nat, wire: bytes)
    requires |wire| >= 12 && wire[..12] == HeaderBytes(cfg, s, c)
    ensures wire[0] == 0xA0
    ensures FromBigEndian(wire[2..4]) == SeqOf(s, c)
    ensures FromBigEndian(wire[4..8]) == TsOf(s, c)
    ensures FromBigEndian(wire[8..12]) == cfg.ssrc
  {
    var h := wire[..12];
    assert wire[0] == h[0];
    assert wire[2..4] == h[2..4] == BigEndian(SeqOf(s, c), 2);
    assert wire[4..8] == h[4..8] == BigEndian(TsOf(s, c), 4);
    assert wire[8..12] == h[8..12] == BigEndian(cfg.ssrc, 4);
    PowValues();
    FieldRoundTrip(SeqOf(s, c), 2);
    FieldRoundTrip(TsOf(s, c), 4);
    FieldRoundTrip(cfg.ssrc, 4);
  }

  lemma UnwrapFrame(a: Aead, key: bytes, payload: bytes, cfg: Config, s: Sender, c: nat, noise: bytes, dstLen: nat)
    requires a.Lawful() && payload != [] && |payload| <= dstLen && |noise| < 256
    ensures |Frame(a, key, payload, cfg, s, c, noise)| > SHORT_HEADER
    ensures UnwrapAt(a, key, Frame(a, key, payload, cfg, s, c, noise), SHORT_HEADER, dstLen)
            == if |noise| == 255 then Err(BadPadding) else Ok(payload)
  {
    hide Frame, HeaderBytes, BuildNonce, SeqOf, TsOf;
    var f := Frame(a, key, payload, cfg, s, c, noise);
    FrameParts(a, key, payload, cfg, s, c, noise);
    HeaderFields(cfg, s, c, f);
  }

  /** Both peers recover the payload of every frame with fewer than 255 bytes of random padding, and reject
      every frame with 255, whose padding count has wrapped to zero. */
  lemma RoundTrip(a: Aead, key: bytes, payload: bytes, cfg: Config, s: Sender, c: nat, noise: bytes, dstLen: nat)
    requires a.Lawful() && |key| == KEY_LEN && payload != [] && |payload| <= dstLen && |noise| < 256
    ensures ServerUnwrap(a, key, Frame(a, key, payload, cfg, s, c, noise), dstLen) == Ok(payload) <==> |noise| != 255
    ensures ClientUnwrap(a, key, Frame(a, key, payload, cfg, s, c, noise), dstLen) == Ok(payload) <==> |noise| != 255
  {
    var f := Frame(a, key, payload, cfg, s, c, noise);
    FrameParts(a, key, payload, cfg, s, c, noise);
    HeaderFields(cfg, s, c, f);
    UnwrapFrame(a, key, payload, cfg, s, c, noise, dstLen);
  }

  /** Padding can reach 255 only with a padding limit above 255; the two configured limits are 24 and 60. */
  lemma PaddingFits(cfg: Config, draw: Option<byte>, fill: nat -> Option<bytes>)
    requires Noise(cfg, draw, fill).Some? && forall n: nat :: fill(n).Some? ==> |fill(n).value| == n
    ensures |Noise(cfg, draw, fill).value| < 256
    ensures |Noise(cfg, draw, fill).value| == 255 <==> cfg.paddingMax > 255 && draw == Some(255)
  {
    if cfg.paddingMax > 0 && draw.Some? && cfg.paddingMax > draw.value {
      assert draw.value % cfg.paddingMax == draw.value;
    }
  }

  /** Without the extension bit the two peers read every wire alike. */
  lemma PeersAgree(a: Aead, key: bytes, wire: bytes, dstLen: nat)
    requires |wire| > 0 && wire[0] / 16 % 2 == 0
    ensures ClientUnwrap(a, key, wire, dstLen) == ServerUnwrap(a, key, wire, dstLen)
  {
  }

  /** The wire is an RTP header of `h` bytes, the seal of `p` under the header's own nonce, and as much padding as the
      last byte says, at least one byte, if the padding bit is set, and none if it is not. */
  ghost predicate Carries(a: Aead, key: bytes, wire: bytes, h: nat, p: bytes) {
    && |key| == 32 && p != [] && |wire| >= h + |p| + 16 && h >= 12 && wire[0] / 64 == 2
    && |wire| - (h + |p| + 16) == (if wire[0] / 32 % 2 == 1 then wire[|wire| - 1] else 0)
    && (wire[0] / 32 % 2 == 1 ==> wire[|wire| - 1] > 0)
    && var nonce := BuildNonce(FromBigEndian(wire[8..12]), FromBigEndian(wire[2..4]), FromBigEndian(wire[4..8]));
       wire[h..h + |p| + 16] == a.seal(key, nonce, p, wire[..h])
  }

  lemma UnwrapAtExactly(a: Aead, key: bytes, wire: bytes, h: nat, dstLen: nat, p: bytes)
    requires a.Lawful() && 12 <= h < |wire| && |key| == 32 && wire[0] / 64 == 2
    ensures UnwrapAt(a, key, wire, h, dstLen) == Ok(p) <==> |p| <= dstLen && Carries(a, key, wire, h, p)
  {
    hide BuildNonce, FromBigEndian;
    var nonce := BuildNonce(FromBigEndian(wire[8..12]), FromBigEndian(wire[2..4]), FromBigEndian(wire[4..8]));
    var padLen := if wire[0] / 32 % 2 == 1 then wire[|wire| - 1] else 0;
    if Carries(a, key, wire, h, p) {
      assert a.open(key, nonce, wire[h..h + |p| + 16], wire[..h]) == Some(p);
    }
    if UnwrapAt(a, key, wire, h, dstLen) == Ok(p) {
      var c := wire[h..|wire| - padLen];
      assert a.open(key, nonce, c, wire[..h]) == Some(p);
      assert c == a.seal(key, nonce, p, wire[..h]);
    }
  }

  /** What unwraps, of all wires: the server takes a header of 12 bytes, the client one of 24 if the extension bit is
      set. */
  lemma UnwrapExactly(a: Aead, key: bytes, wire: bytes, dstLen: nat, p: bytes)
    requires a.Lawful()
    ensures ServerUnwrap(a, key, wire, dstLen) == Ok(p) <==> |p| <= dstLen && Carries(a, key, wire, 12, p)
    ensures ClientUnwrap(a, key, wire, dstLen) == Ok(p) <==>
            |p| <= dstLen && |wire| > 0 && Carries(a, key, wire, if wire[0] / 16 % 2 == 1 then 24 else 12, p)
  {
    hide UnwrapAt, BuildNonce, FromBigEndian;
    if |wire| > 12 && |key| == 32 && wire[0] / 64 == 2 {
      UnwrapAtExactly(a, key, wire, 12, dstLen, p);
      if |wire| > 24 {
        UnwrapAtExactly(a, key, wire, 24, dstLen, p);
      }
    }
  }

  /** Why the server refuses a wire: the first of these that is so. */
  lemma RefusedExactly(a: Aead, key: bytes, wire: bytes, dstLen: nat)
    ensures var r, n := ServerUnwrap(a, key, wire, dstLen), |wire|;
            && (r == Err(BadKey) <==> |key| != 32)
            && (r == Err(TooShort) <==> |key| == 32 && n <= 12)
            && (r == Err(NotRtp) <==> |key| == 32 && n > 12 && wire[0] / 64 != 2)
            && (r == Err(BadPadding) <==> |key| == 32 && n > 12 && wire[0] / 64 == 2 && wire[0] / 32 % 2 == 1
                                          && (wire[n - 1] == 0 || wire[n - 1] > n - 12))
  {
    hide BuildNonce, FromBigEndian;
  }

  /** And if none is: what is left without padding is too little or too much, or is not authentic. */
  lemma RefusedBehind(a: Aead, key: bytes, wire: bytes, dstLen: nat)
    requires |key| == 32 && |wire| > 12 && wire[0] / 64 == 2
    requires wire[0] / 32 % 2 == 1 ==> 0 < wire[|wire| - 1] <= |wire| - 12
    ensures var r := ServerUnwrap(a, key, wire, dstLen);
            var sealed := |wire| - 12 - (if wire[0] / 32 % 2 == 1 then wire[|wire| - 1] else 0);
            && (r == Err(NoPayload) <==> sealed <= 16)
            && (r == Err(DstTooSmall) <==> sealed > 16 && sealed - 16 > dstLen)
            && (r.Ok? || r == Err(AuthFailed) <==> 16 < sealed <= dstLen + 16)
  {
    hide BuildNonce, FromBigEndian;
  }
}
