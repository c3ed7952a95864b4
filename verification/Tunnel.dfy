/** One datagram from a sender's frame to a receiver's caller: what is read of it, and what opens. */
module Tunnel {
  import opened Words
  import opened Nonce
  import opened RtpFrame
  import opened ReplayWindow
  import opened ReplayDelivery

  /** Room the receiver leaves for header, tag and padding beyond the caller's buffer. */
  const EXTRA: nat := 80

  /** What the socket does with a datagram that is longer than the buffer: fail the read, or keep its front. */
  datatype Overlong = Dropped | Truncated

  datatype Role = Client | Server

  /** A receiver: which peer it is, its socket, AEAD and key, and the length of the caller's buffer. */
  datatype Receiver = Receiver(role: Role, overlong: Overlong, a: Aead, key: bytes, dstLen: nat) {
    function Read(wire: bytes): Option<bytes> {
      if |wire| <= dstLen + EXTRA then Some(wire)
      else if overlong == Dropped then None
      else Some(wire[..dstLen + EXTRA])
    }

    /** The client looks at the payload type before it unwraps, the server does not. */
    function Result(got: bytes): Result {
      match role
      case Client => if IsRtp(got) then ClientUnwrap(a, key, got, dstLen) else Err(NotRtp)
      case Server => ServerUnwrap(a, key, got, dstLen)
    }

    /** The payload of what was read, if it is authentic. */
    function Unwrap(got: bytes): (p: Option<bytes>)
      ensures p.Some? ==> |got| > SHORT_HEADER
    {
      match Result(got)
      case Err(_) => None
      case Ok(p) => Some(p)
    }

    function Open(wire: bytes): Option<bytes> {
      match Read(wire)
      case None => None
      case Some(got) => Unwrap(got)
    }
  }

  predicate IsRtp(wire: bytes) {
    |wire| > SHORT_HEADER && wire[0] / 64 == 2 && (wire[1] % 128 == 111 || wire[1] % 128 == 96)
  }

  /** Which of all texts unwrap as `p`: those that carry it, and at the client only audio or video payload types. */
  lemma UnwrapsExactly(r: Receiver, got: bytes, p: bytes)
    requires r.a.Lawful()
    ensures r.Unwrap(got) == Some(p) <==>
            && |p| <= r.dstLen && |got| > 12
            && (r.role == Server ==> Carries(r.a, r.key, got, 12, p))
            && (r.role == Client ==>
                  && Carries(r.a, r.key, got, if got[0] / 16 % 2 == 1 then 24 else 12, p)
                  && got[1] % 128 in {96, 111})
  {
    hide ServerUnwrap, ClientUnwrap, BuildNonce, FromBigEndian;
    UnwrapExactly(r.a, r.key, got, r.dstLen, p);
  }

  /** A frame with so much payload and random padding fits the buffer read into. */
  predicate FitsIn(dstLen: nat, payload: nat, noise: nat) {
    29 + payload + noise <= dstLen + EXTRA
  }

  /** The sender's side: framing and, per packet counter, the payload and the padding drawn for it. */
  datatype Link = Link(r: Receiver, cfg: Config, s: Sender, payload: nat -> bytes, noise: nat -> bytes) {
    function Wire(c: nat): bytes {
      Frame(r.a, r.key, payload(c), cfg, s, c, noise(c))
    }

    /** A working configuration: payloads are not empty, and padding is what one random byte can ask for. */
    ghost predicate Sound() {
      && r.a.Lawful() && |r.key| == KEY_LEN && s.Valid() && s.ssrc == cfg.ssrc
      && (cfg.payloadType % 128 == 111 || cfg.payloadType % 128 == 96)
      && (forall c: nat :: payload(c) != [] && |noise(c)| < 256)
    }

    /** The padding bytes that end up in the receiver's buffer when the frame does not fit it. */
    function Room(c: nat): int {
      r.dstLen + EXTRA - 28 - |payload(c)|
    }

    /** The whole frame fits the receiver's buffer. */
    predicate Fits(c: nat) {
      FitsIn(r.dstLen, |payload(c)|, |noise(c)|)
    }

    /** Payload and padding alone tell whether packet `c` can be handed up: it fits, or it is cut inside its padding
        just behind a byte that happens to count what is left of it. */
    predicate Deliverable(c: nat) {
      && |payload(c)| <= r.dstLen
      && (if Fits(c) then |noise(c)| < 255 else r.overlong == Truncated && noise(c)[Room(c) - 1] == Room(c))
    }
  }

  /** A frame is read whole if and only if it fits the buffer. */
  lemma ReadWholeExactly(l: Link, c: nat)
    requires l.Sound()
    ensures l.r.Read(l.Wire(c)) == Some(l.Wire(c)) <==> l.Fits(c)
  {
    hide Frame;
    FrameParts(l.r.a, l.r.key, l.payload(c), l.cfg, l.s, c, l.noise(c));
  }

  lemma CutInPadding(front: bytes, noise: bytes, last: byte, k: nat)
    requires 0 < k <= |noise|
    ensures (front + noise + [last])[..|front| + k] == front + noise[..k - 1] + [noise[k - 1]]
  {}

  /** What the receiver reads of a packet it can hand up: a frame of its payload, with the padding that is left. */
  lemma ReadsFrame(l: Link, c: nat) returns (noise: bytes)
    requires l.Sound() && l.Deliverable(c)
    ensures |noise| < 255
    ensures l.r.Read(l.Wire(c)) == Some(Frame(l.r.a, l.r.key, l.payload(c), l.cfg, l.s, c, noise))
  {
    hide Frame;
    FrameParts(l.r.a, l.r.key, l.payload(c), l.cfg, l.s, c, l.noise(c));
    if l.Fits(c) {
      noise := l.noise(c);
    } else {
      noise := l.noise(c)[..l.Room(c) - 1];
      CutFrame(l, c, l.Room(c));
    }
  }

  /** A frame cut inside its padding, behind a byte that counts what is left, is a frame with less padding. */
  lemma CutFrame(l: Link, c: nat, room: nat)
    requires l.Sound() && 0 < room <= |l.noise(c)| && l.noise(c)[room - 1] == room < 256
    ensures |l.Wire(c)| > 28 + |l.payload(c)| + room
    ensures l.Wire(c)[..28 + |l.payload(c)| + room] ==
            Frame(l.r.a, l.r.key, l.payload(c), l.cfg, l.s, c, l.noise(c)[..room - 1])
  {
    hide HeaderBytes, BuildNonce, SeqOf, TsOf;
    FrameParts(l.r.a, l.r.key, l.payload(c), l.cfg, l.s, c, l.noise(c));
    var h := HeaderBytes(l.cfg, l.s, c);
    var sealed := l.r.a.seal(l.r.key, BuildNonce(l.cfg.ssrc, SeqOf(l.s, c), TsOf(l.s, c)), l.payload(c), h);
    CutInPadding(h + sealed, l.noise(c), (|l.noise(c)| + 1) % 256, room);
  }

  lemma PayloadTypeByte(cfg: Config, s: Sender, c: nat)
    ensures HeaderBytes(cfg, s, c)[1] == cfg.payloadType % 128
  {}

  /** Any frame of packet `c` carries the counter's time and nonce, is ours, and unwraps to the payload. */
  lemma FrameIsReceived(l: Link, c: nat, noise: bytes)
    requires l.Sound() && |noise| < 255 && |l.payload(c)| <= l.r.dstLen
    ensures var got := Frame(l.r.a, l.r.key, l.payload(c), l.cfg, l.s, c, noise);
            && |got| >= HEADER_LEN && Header(got) == ClockOf(l.s).Sent(c)
            && l.r.Unwrap(got) == Some(l.payload(c))
  {
    hide Frame, ClientUnwrap, BuildNonce, HeaderBytes, SeqOf, TsOf, TrueTime, FromBigEndian;
    var got := Frame(l.r.a, l.r.key, l.payload(c), l.cfg, l.s, c, noise);
    FrameParts(l.r.a, l.r.key, l.payload(c), l.cfg, l.s, c, noise);
    HeaderFields(l.cfg, l.s, c, got);
    TsIsTrueTime(l.s, c);
    RoundTrip(l.r.a, l.r.key, l.payload(c), l.cfg, l.s, c, noise, l.r.dstLen);
    PayloadTypeByte(l.cfg, l.s, c);
    assert got[1] == got[..12][1];
  }

  /** What is unwrapped of a frame, whole or cut, has the length its last byte leaves. */
  lemma UnwrappedLength(l: Link, c: nat, got: bytes, p: bytes)
    requires l.Sound() && SHORT_HEADER < |got| && got <= l.Wire(c) && l.r.Unwrap(got) == Some(p)
    ensures |p| <= l.r.dstLen && |got| - 28 - |p| == got[|got| - 1]
  {
    hide Frame, ClientUnwrap, HeaderBytes, BuildNonce;
    FrameParts(l.r.a, l.r.key, l.payload(c), l.cfg, l.s, c, l.noise(c));
    assert got[..12] == l.Wire(c)[..12];
    HeaderFields(l.cfg, l.s, c, got);
    PeersAgree(l.r.a, l.r.key, got, l.r.dstLen);
    hide ServerUnwrap;
    UnwrapExactly(l.r.a, l.r.key, got, l.r.dstLen, p);
  }

  /** The receiver gets the payload of a packet out of its datagram if and only if the packet is deliverable. */
  lemma DeliverableExactly(l: Link, c: nat)
    requires l.Sound()
    ensures l.r.Open(l.Wire(c)) == Some(l.payload(c)) <==> l.Deliverable(c)
  {
    hide Frame, Receiver.Unwrap;
    if l.Deliverable(c) {
      var noise := ReadsFrame(l, c);
      FrameIsReceived(l, c, noise);
    } else if l.r.Open(l.Wire(c)) == Some(l.payload(c)) {
      FrameParts(l.r.a, l.r.key, l.payload(c), l.cfg, l.s, c, l.noise(c));
      var got := l.r.Read(l.Wire(c)).value;
      UnwrappedLength(l, c, got, l.payload(c));
      LastByte(l, c);
    }
  }

  /** The last byte of a frame, and the byte a frame that does not fit is cut behind. */
  lemma LastByte(l: Link, c: nat)
    requires l.Sound()
    ensures var w, cap := l.Wire(c), l.r.dstLen + EXTRA;
            && |w| == 29 + |l.payload(c)| + |l.noise(c)| && w[|w| - 1] == (|l.noise(c)| + 1) % 256
            && (!l.Fits(c) && |l.payload(c)| <= l.r.dstLen ==> w[cap - 1] == l.noise(c)[l.Room(c) - 1])
  {
    hide HeaderBytes, BuildNonce, SeqOf, TsOf;
    FrameParts(l.r.a, l.r.key, l.payload(c), l.cfg, l.s, c, l.noise(c));
  }

  /** Unless a frame is cut, what is not deliverable does not open at all. */
  lemma Undeliverable(l: Link, c: nat)
    requires l.Sound() && !l.Deliverable(c) && (l.Fits(c) || l.r.overlong == Dropped)
    ensures l.r.Open(l.Wire(c)) == None
  {
    hide Frame, Receiver.Unwrap;
    LastByte(l, c);
    var w := l.Wire(c);
    if l.Fits(c) && l.r.Unwrap(w).Some? {
      UnwrappedLength(l, c, w, l.r.Unwrap(w).value);
      if |l.noise(c)| == 255 {
        NoPaddingCount(l, c);
      }
    }
  }

  lemma NoPaddingCount(l: Link, c: nat)
    requires l.Sound() && |l.noise(c)| == 255
    ensures l.r.Unwrap(l.Wire(c)) == None
  {
    hide Frame, HeaderBytes, BuildNonce;
    var w := l.Wire(c);
    FrameParts(l.r.a, l.r.key, l.payload(c), l.cfg, l.s, c, l.noise(c));
    HeaderFields(l.cfg, l.s, c, w);
  }

  // ---------- padding limits ----------

  /** With a padding limit, every frame of a payload that fits the caller's buffer fits the receiver's, whatever is
      drawn, if and only if payload and limit stay 52 bytes below it: always for limits up to 52. */
  lemma LimitFits(dstLen: nat, payload: nat, limit: nat)
    requires payload <= dstLen && limit > 0
    ensures (forall n: nat | n < limit :: FitsIn(dstLen, payload, n)) <==> payload + limit <= dstLen + 52
    ensures limit <= 52 ==> payload + limit <= dstLen + 52
  {
    if payload + limit > dstLen + 52 {
      assert !FitsIn(dstLen, payload, limit - 1);
    }
  }

  /** The audio limit of 24 never makes a frame too long. */
  lemma AudioFits(l: Link, c: nat, draw: Option<byte>, fill: nat -> Option<bytes>)
    requires l.Sound() && |l.payload(c)| <= l.r.dstLen && l.cfg.paddingMax == 24
    requires forall n: nat :: fill(n).Some? ==> |fill(n).value| == n
    requires Noise(l.cfg, draw, fill) == Some(l.noise(c))
    ensures l.Deliverable(c)
  {}

  /** With the video limit of 60 and 59 drawn, a payload as long as the caller's buffer is dropped. */
  lemma VideoTooLong(l: Link, c: nat, fill: nat -> Option<bytes>)
    requires l.Sound() && |l.payload(c)| == l.r.dstLen && l.cfg.paddingMax == 60 && l.r.overlong == Dropped
    requires fill(59).Some? && |fill(59).value| == 59 && Noise(l.cfg, Some(59), fill) == Some(l.noise(c))
    ensures |l.Wire(c)| == l.r.dstLen + 88 && !l.Deliverable(c) && l.r.Open(l.Wire(c)) == None
  {
    hide Frame;
    LastByte(l, c);
    Undeliverable(l, c);
  }

  // ---------- any datagram at all ----------

  /** What the sender authenticates of packet `c`: header and sealed payload. Padding is outside. */
  function Body(l: Link, c: nat): bytes {
    HeaderBytes(l.cfg, l.s, c) + SealOf(l, c)
  }

  function SealOf(l: Link, c: nat): bytes {
    l.r.a.seal(l.r.key, BuildNonce(l.cfg.ssrc, SeqOf(l.s, c), TsOf(l.s, c)), l.payload(c), HeaderBytes(l.cfg, l.s, c))
  }

  /** `got` is the body of packet `c` and some padding, its last byte counting the padding. */
  predicate Padded(l: Link, got: bytes, c: nat) {
    Body(l, c) < got && got[|got| - 1] == |got| - |Body(l, c)|
  }

  /** A datagram that hands up packet `c`, whoever padded it. */
  predicate OpensAs(l: Link, wire: bytes, c: nat) {
    && c < TWO48 && |l.payload(c)| <= l.r.dstLen
    && l.r.Read(wire).Some? && Padded(l, l.r.Read(wire).value, c)
  }

  lemma FrameIsPadded(l: Link, c: nat, noise: bytes)
    requires l.Sound() && |noise| < 255
    ensures Padded(l, Frame(l.r.a, l.r.key, l.payload(c), l.cfg, l.s, c, noise), c)
  {
    hide HeaderBytes, BuildNonce, SeqOf, TsOf;
  }

  lemma PaddedIsFrame(l: Link, got: bytes, c: nat) returns (noise: bytes)
    requires l.Sound() && Padded(l, got, c)
    ensures |noise| < 255 && got == Frame(l.r.a, l.r.key, l.payload(c), l.cfg, l.s, c, noise)
  {
    hide HeaderBytes, BuildNonce, SeqOf, TsOf;
    noise := got[|Body(l, c)|..|got| - 1];
    assert got == Body(l, c) + noise + [got[|got| - 1]];
  }

  /** Header and sealed text are those of one of the sender's packets. */
  ghost predicate SealedByPeer(l: Link, header: bytes, sealed: bytes) {
    exists c: nat :: c < TWO48 && header == HeaderBytes(l.cfg, l.s, c) && sealed == SealOf(l, c)
  }

  /** Nobody else has sealed anything under the key with the sender's SSRC: any part of what was read that
      authenticates with such a header is something the sender sealed. */
  ghost predicate Unforged(l: Link, got: bytes) {
    |got| > SHORT_HEADER && Header(got).ssrc == l.s.ssrc ==>
      forall h, e | SHORT_HEADER <= h <= e <= |got| ::
        l.r.a.open(l.r.key, Header(got).nonce, got[h..e], got[..h]).Some? ==> SealedByPeer(l, got[..h], got[h..e])
  }

  /** What opens has been opened by the AEAD, between header and padding. */
  lemma ResultOpens(r: Receiver, got: bytes, p: bytes) returns (h: nat, e: nat)
    requires r.a.Lawful() && r.Result(got) == Ok(p)
    ensures SHORT_HEADER <= h <= e <= |got| && SHORT_HEADER < |got| && |p| <= r.dstLen
    ensures r.a.open(r.key, Header(got).nonce, got[h..e], got[..h]) == Some(p)
    ensures got[0] / 32 % 2 == 1 ==> 0 < got[|got| - 1] == |got| - e
  {
    hide BuildNonce, FromBigEndian;
    h := if r.role == Client && got[0] / 16 % 2 == 1 then LONG_HEADER else SHORT_HEADER;
    e := |got| - (if got[0] / 32 % 2 == 1 then got[|got| - 1] else 0);
    assert UnwrapAt(r.a, r.key, got, h, r.dstLen) == Ok(p);
    var nonce := BuildNonce(FromBigEndian(got[8..12]), FromBigEndian(got[2..4]), FromBigEndian(got[4..8]));
    assert Header(got).nonce == nonce;
    assert r.a.open(r.key, nonce, got[h..e], got[..h]) == Some(p);
    assert got[h..e] == r.a.seal(r.key, nonce, p, got[..h]);
  }

  lemma PeerPacketOpens(l: Link, got: bytes, c: nat)
    requires l.Sound() && Padded(l, got, c) && |l.payload(c)| <= l.r.dstLen
    ensures l.r.Unwrap(got) == Some(l.payload(c)) && Header(got) == ClockOf(l.s).Sent(c)
  {
    hide Frame, Receiver.Unwrap;
    var noise := PaddedIsFrame(l, got, c);
    FrameIsReceived(l, c, noise);
  }

  /** A text that opens under the sender's SSRC is a padded packet of the sender. */
  lemma PeerPacket(l: Link, got: bytes, p: bytes) returns (c: nat)
    requires l.Sound() && Unforged(l, got) && l.r.Unwrap(got) == Some(p) && Header(got).ssrc == l.s.ssrc
    ensures c < TWO48 && |l.payload(c)| <= l.r.dstLen && Padded(l, got, c) && p == l.payload(c)
  {
    hide Receiver.Result, HeaderBytes, BuildNonce, SeqOf, TsOf;
    var h, e := ResultOpens(l.r, got, p);
    assert SealedByPeer(l, got[..h], got[h..e]);
    c :| c < TWO48 && got[..h] == HeaderBytes(l.cfg, l.s, c) && got[h..e] == SealOf(l, c);
    assert |got[..h]| == h == 12;
    HeaderFields(l.cfg, l.s, c, got);
    assert Header(got).nonce == BuildNonce(l.cfg.ssrc, SeqOf(l.s, c), TsOf(l.s, c));
    assert got[..e] == Body(l, c);
  }

  /** Which datagrams open, of all there are: those that hand up one of the sender's packets, and those sealed under
      the same key with another SSRC. */
  lemma OpensExactly(l: Link, wire: bytes)
    requires l.Sound() && (l.r.Read(wire).Some? ==> Unforged(l, l.r.Read(wire).value))
    ensures l.r.Open(wire).Some? && !Foreign(l, wire) <==> exists c :: OpensAs(l, wire, c)
    ensures forall c | OpensAs(l, wire, c) ::
              l.r.Open(wire) == Some(l.payload(c)) && Header(l.r.Read(wire).value) == ClockOf(l.s).Sent(c)
  {
    hide Receiver.Unwrap, Padded, Header, Unforged;
    forall c | OpensAs(l, wire, c)
      ensures l.r.Open(wire) == Some(l.payload(c)) && !Foreign(l, wire)
      ensures Header(l.r.Read(wire).value) == ClockOf(l.s).Sent(c)
    {
      PeerPacketOpens(l, l.r.Read(wire).value, c);
    }
    if l.r.Open(wire).Some? && !Foreign(l, wire) {
      var c := PeerPacket(l, l.r.Read(wire).value, l.r.Open(wire).value);
      assert OpensAs(l, wire, c);
    }
  }

  /** Opens, but carries another sender's SSRC. */
  predicate Foreign(l: Link, wire: bytes) {
    l.r.Open(wire).Some? && Header(l.r.Read(wire).value).ssrc != l.s.ssrc
  }

  /** Padding is not authenticated: any other padding that fits opens as well as the sender's own. */
  lemma RepaddedOpens(l: Link, c: nat, noise: bytes)
    requires l.Sound() && c < TWO48 && |noise| < 255
    requires |l.payload(c)| <= l.r.dstLen && FitsIn(l.r.dstLen, |l.payload(c)|, |noise|)
    ensures OpensAs(l, Frame(l.r.a, l.r.key, l.payload(c), l.cfg, l.s, c, noise), c)
  {
    hide Padded, Frame;
    FrameParts(l.r.a, l.r.key, l.payload(c), l.cfg, l.s, c, noise);
    FrameIsPadded(l, c, noise);
  }

  /** The sender's own frame hands up its packet if and only if it is deliverable. */
  lemma OwnFrameExactly(l: Link, c: nat)
    requires l.Sound() && c < TWO48
    ensures OpensAs(l, l.Wire(c), c) <==> l.Deliverable(c)
  {
    hide Padded, Frame, Receiver.Unwrap, Receiver.Read, Link.Deliverable;
    if OpensAs(l, l.Wire(c), c) {
      PeerPacketOpens(l, l.r.Read(l.Wire(c)).value, c);
      DeliverableExactly(l, c);
    } else if l.Deliverable(c) {
      var noise := ReadsFrame(l, c);
      assert |l.payload(c)| <= l.r.dstLen by { FitsBuffer(l, c); }
      FrameIsPadded(l, c, noise);
    }
  }

  lemma FitsBuffer(l: Link, c: nat)
    requires l.Deliverable(c)
    ensures |l.payload(c)| <= l.r.dstLen
  {}
}
