/** The bond's frames on the wire: type, sequence number, length, payload. */
module BondCodec {
  import opened Words

  const DATA: byte := 1
  const FIN: byte := 2
  const MAX_CHUNK: nat := 16 * 1024
  const FRAME_HDR: nat := 13

  datatype Frame = Frame(typ: byte, seqNo: uint64, data: bytes)

  /** What a frame's writer puts on the lane; readers accept payloads up to `MAX_CHUNK`. */
  function Encode(f: Frame): (s: bytes)
    ensures |s| == FRAME_HDR + |f.data|
  {
    [f.typ] + BigEndian(f.seqNo, 8) + BigEndian(|f.data|, 4) + f.data
  }

  datatype ReadResult = Got(frame: Frame, rest: bytes) | Short | TooLarge

  /** Reading one frame from the bytes a lane delivered before it ended. */
  function ReadFrame(s: bytes): (r: ReadResult)
    ensures r.Got? ==> |r.rest| < |s|
  {
    if |s| < FRAME_HDR then Short
    else
      var size := FromBigEndian(s[9..13]);
      if size > MAX_CHUNK then TooLarge
      else if |s| < FRAME_HDR + size then Short
      else
        PowValues();
        Got(Frame(s[0], FromBigEndian(s[1..9]), s[FRAME_HDR..FRAME_HDR + size]), s[FRAME_HDR + size..])
  }

  /** Every frame read from a lane until it ends or goes wrong. */
  function Frames(s: bytes): (fs: seq<Frame>)
    decreases |s|
  {
    match ReadFrame(s)
    case Got(f, rest) => [f] + Frames(rest)
    case _ => []
  }

  /** The reader's loop. */
  method ReadLane(s: bytes) returns (fs: seq<Frame>)
    ensures fs == Frames(s)
  {
    fs := [];
    var rest := s;
    while true
      invariant Frames(s) == fs + Frames(rest)
      decreases |rest|
    {
      var r := ReadFrame(rest);
      if !r.Got? {
        return;
      }
      fs := fs + [r.frame];
      rest := r.rest;
    }
  }

  /** The bytes of frames written one after the other. */
  function Stream(fs: seq<Frame>): bytes {
    if fs == [] then [] else Encode(fs[0]) + Stream(fs[1..])
  }

  lemma HeaderRead(f: Frame, s: bytes)
    requires |s| >= FRAME_HDR && s[..FRAME_HDR] == Encode(f)[..FRAME_HDR] && |f.data| <= MAX_CHUNK
    ensures s[0] == f.typ && FromBigEndian(s[1..9]) == f.seqNo && FromBigEndian(s[9..13]) == |f.data|
  {
    var h := Encode(f)[..FRAME_HDR];
    assert s[0] == h[0];
    assert s[1..9] == h[1..9] == BigEndian(f.seqNo, 8);
    assert s[9..13] == h[9..13] == BigEndian(|f.data|, 4);
    PowValues();
    FieldRoundTrip(f.seqNo, 8);
    FieldRoundTrip(|f.data|, 4);
  }

  /** A written frame is read back whole, and a proper prefix of one is never taken for a frame. */
  lemma ReadWritten(f: Frame, s: bytes, rest: bytes)
    requires |f.data| <= MAX_CHUNK && s <= Encode(f) + rest
    ensures ReadFrame(s) == if |s| >= |Encode(f)| then Got(f, s[|Encode(f)|..]) else Short
  {
    var e := Encode(f);
    if |s| >= FRAME_HDR {
      assert s[..FRAME_HDR] == (e + rest)[..FRAME_HDR] == e[..FRAME_HDR];
      HeaderRead(f, s);
      if |s| >= |e| {
        assert s[..|e|] == (e + rest)[..|e|] == e;
        assert s[FRAME_HDR..|e|] == s[..|e|][FRAME_HDR..] == f.data;
      }
    }
  }

  ghost predicate Writable(fs: seq<Frame>) {
    forall i | 0 <= i < |fs| :: |fs[i].data| <= MAX_CHUNK
  }

  /** A lane cut anywhere yields exactly the frames that fit before the cut: the longest prefix whose bytes
      all arrived. */
  lemma {:induction false} CutStream(fs: seq<Frame>, s: bytes)
    requires Writable(fs) && s <= Stream(fs)
    ensures Frames(s) <= fs
    ensures |Stream(Frames(s))| <= |s|
    ensures |Frames(s)| < |fs| ==> |s| < |Stream(Frames(s))| + |Encode(fs[|Frames(s)|])|
    decreases |fs|
  {
    hide Encode;
    if fs == [] {
      assert ReadFrame(s) == Short;
    } else {
      CutFirst(fs, s);
      var e := Encode(fs[0]);
      if |s| >= |e| {
        hide ReadFrame;
        var t := s[|e|..];
        CutStream(fs[1..], t);
        assert Frames(s)[1..] == Frames(t);
        assert fs == [fs[0]] + fs[1..];
      }
    }
  }

  lemma CutFirst(fs: seq<Frame>, s: bytes)
    requires Writable(fs) && fs != [] && s <= Stream(fs)
    ensures |s| < |Encode(fs[0])| ==> ReadFrame(s) == Short
    ensures |s| >= |Encode(fs[0])| ==>
              var t := s[|Encode(fs[0])|..];
              t <= Stream(fs[1..]) && ReadFrame(s) == Got(fs[0], t) && Frames(s) == [fs[0]] + Frames(t)
  {
    hide Encode;
    ReadWritten(fs[0], s, Stream(fs[1..]));
    hide ReadFrame;
    var e := Encode(fs[0]);
    if |s| >= |e| {
      assert Stream(fs)[|e|..] == Stream(fs[1..]);
    }
  }

  /** Any concatenation of written frames parses back into those frames. */
  lemma {:induction false} WholeStream(fs: seq<Frame>)
    requires Writable(fs)
    ensures Frames(Stream(fs)) == fs
  {
    hide Encode, ReadFrame;
    if fs != [] {
      CutFirst(fs, Stream(fs));
      assert Stream(fs)[|Encode(fs[0])|..] == Stream(fs[1..]);
      WholeStream(fs[1..]);
    }
  }

  /** Where frame `k` of a stream lies. */
  lemma {:induction false} StreamAt(fs: seq<Frame>, k: nat)
    requires k < |fs|
    ensures |Stream(fs[..k])| <= |Stream(fs)|
    ensures Encode(fs[k]) <= Stream(fs)[|Stream(fs[..k])|..]
    ensures Stream(fs[..k + 1]) == Stream(fs[..k]) + Encode(fs[k])
  {
    hide Encode;
    if k > 0 {
      StreamAt(fs[1..], k - 1);
      var a, b := fs[..k], fs[..k + 1];
      assert a[1..] == fs[1..][..k - 1] && b[1..] == fs[1..][..k];
      var e, t := Encode(fs[0]), Stream(a[1..]);
      assert Stream(a) == e + t;
      assert Stream(fs)[|e + t|..] == Stream(fs[1..])[|t|..];
    } else {
      assert fs[..1][1..] == [];
    }
  }

  /** What a lane carries: whole frames, then perhaps the torn front of the one its last write broke off in. */
  ghost predicate Torn(torn: bytes) {
    torn == [] || exists f: Frame :: |f.data| <= MAX_CHUNK && torn < Encode(f)
  }

  /** After `k` frames the reader finds the next whole frame if there is one, and never reads a torn one. */
  lemma NextOnLane(log: seq<Frame>, torn: bytes, k: nat)
    requires Writable(log) && Torn(torn) && k <= |log|
    ensures |Stream(log[..k])| <= |Stream(log)|
    ensures var r := ReadFrame((Stream(log) + torn)[|Stream(log[..k])|..]);
            if k < |log| then r.Got? && r.frame == log[k] else r == Short
  {
    hide Encode, ReadFrame, Stream;
    if k < |log| {
      StreamAt(log, k);
      var s := (Stream(log) + torn)[|Stream(log[..k])|..];
      var e := Encode(log[k]);
      assert s == Stream(log)[|Stream(log[..k])|..] + torn;
      assert s == e + s[|e|..];
      ReadWritten(log[k], s, s[|e|..]);
    } else {
      assert log[..k] == log;
      assert (Stream(log) + torn)[|Stream(log)|..] == torn;
      if torn != [] {
        var f: Frame :| |f.data| <= MAX_CHUNK && torn < Encode(f);
        assert Encode(f) + [] == Encode(f);
        ReadWritten(f, torn, []);
      } else {
        NothingToRead();
      }
    }
  }

  lemma NothingToRead()
    ensures ReadFrame([]) == Short
  {}

  const MAGIC: bytes := [79, 76, 66, 49]
  const VERSION: byte := 1
  const HELLO_LEN: nat := 17

  datatype Hello = Hello(connID: uint64, laneIndex: uint16, laneCount: uint16)

  datatype HelloResult = Welcome(hello: Hello) | Truncated | BadMagic | BadVersion(version: byte)

  /** Reading a lane's handshake. */
  function ReadHello(s: bytes): HelloResult {
    if |s| < HELLO_LEN then Truncated
    else if s[0..4] != MAGIC then BadMagic
    else if s[4] != VERSION then BadVersion(s[4])
    else
      PowValues();
      Welcome(Hello(FromBigEndian(s[5..13]), FromBigEndian(s[13..15]), FromBigEndian(s[15..17])))
  }

  /** The handshake a peer must send. */
  function HelloBytes(h: Hello): bytes {
    MAGIC + [VERSION] + BigEndian(h.connID, 8) + BigEndian(h.laneIndex, 2) + BigEndian(h.laneCount, 2)
  }

  /** A handshake is accepted as `h` exactly when the lane starts with the bytes of `h`. */
  lemma HelloExactly(s: bytes, h: Hello)
    ensures ReadHello(s) == Welcome(h) <==> HelloBytes(h) <= s
  {
    hide BigEndian, FromBigEndian, Pow256;
    PowValues();
    if |s| >= HELLO_LEN {
      var a := s[..HELLO_LEN];
      FieldExactly(a[5..13], h.connID);
      FieldExactly(a[13..15], h.laneIndex);
      FieldExactly(a[15..17], h.laneCount);
      assert a[0..4] == s[0..4] && a[5..13] == s[5..13] && a[13..15] == s[13..15] && a[15..17] == s[15..17];
      Fields(a, h);
      assert HelloBytes(h) <= s <==> a == HelloBytes(h);
    }
  }

  lemma Fields(a: bytes, h: Hello)
    requires |a| == HELLO_LEN
    ensures a == HelloBytes(h) <==>
              a[0..4] == MAGIC && a[4] == VERSION && a[5..13] == BigEndian(h.connID, 8) &&
              a[13..15] == BigEndian(h.laneIndex, 2) && a[15..17] == BigEndian(h.laneCount, 2)
  {
    hide BigEndian;
    var b := HelloBytes(h);
    assert a == a[0..4] + [a[4]] + a[5..13] + a[13..15] + a[15..17];
    assert b[0..4] == MAGIC && b[4] == VERSION && b[5..13] == BigEndian(h.connID, 8);
    assert b[13..15] == BigEndian(h.laneIndex, 2) && b[15..17] == BigEndian(h.laneCount, 2);
  }
}
