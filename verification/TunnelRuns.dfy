/** Framing and replay window together: what a receiver hands up from whatever arrives. */
module TunnelRuns {
  import opened Words
  import opened Nonce
  import opened RtpFrame
  import opened ReplayWindow
  import opened ReplayDelivery
  import opened Runs
  import opened Sets
  import opened Tunnel

  /** A receiving end: its window and what it has handed up. */
  datatype End = End(window: Window, up: seq<bytes>)

  /** One datagram: what is not read, not authentic or replayed is dropped. */
  function Receive(r: Receiver): (End, bytes) -> End {
    (e: End, wire: bytes) =>
      match r.Read(wire)
      case None => e
      case Some(got) =>
        match r.Unwrap(got)
        case None => e
        case Some(p) =>
          var (w, ok) := AcceptStep(e.window, Header(got));
          End(w, if ok then e.up + [p] else e.up)
  }

  function Received(l: Link, ws: seq<bytes>): End {
    Run(Receive(l.r), End(FRESH, []), ws)
  }

  // ---------- which packets arrive ----------

  lemma OneHeader(l: Link, c: nat, d: nat)
    requires l.Sound() && c < TWO48 && d < TWO48 && HeaderBytes(l.cfg, l.s, c) == HeaderBytes(l.cfg, l.s, d)
    ensures c == d
  {
    var h := HeaderBytes(l.cfg, l.s, c);
    assert h[..12] == h;
    HeaderFields(l.cfg, l.s, c, h);
    HeaderFields(l.cfg, l.s, d, h);
    hide HeaderBytes, BuildNonce, SeqOf, TsOf;
    if c != d {
      NonceUnique(l.s, c, d);
    }
  }

  /** The datagram carries what the sender authenticates of packet `c`, padded by whomever and however. */
  predicate Carries(l: Link, wire: bytes, c: nat) {
    c < TWO48 && Body(l, c) <= wire
  }

  lemma OneCounter(l: Link, wire: bytes, c: nat, d: nat)
    requires l.Sound() && Carries(l, wire, c) && Carries(l, wire, d)
    ensures c == d
  {
    hide HeaderBytes;
    assert wire[..12] == Body(l, c)[..12] == HeaderBytes(l.cfg, l.s, c);
    assert wire[..12] == Body(l, d)[..12] == HeaderBytes(l.cfg, l.s, d);
    OneHeader(l, c, d);
  }

  lemma OpensCarries(l: Link, wire: bytes, c: nat)
    requires OpensAs(l, wire, c)
    ensures Carries(l, wire, c)
  {
    hide Body;
    assert l.r.Read(wire).value <= wire;
  }

  /** The packet a datagram hands over, if any. */
  ghost function Found(l: Link, wire: bytes): seq<nat> {
    if c :| OpensAs(l, wire, c) then [c] else []
  }

  /** The packets handed over by the datagrams that open, in order. */
  ghost function Copies(l: Link, ws: seq<bytes>): seq<nat> {
    if ws == [] then [] else Copies(l, ws[..|ws| - 1]) + Found(l, ws[|ws| - 1])
  }

  lemma FoundIs(l: Link, wire: bytes, c: nat)
    requires l.Sound() && OpensAs(l, wire, c)
    ensures Found(l, wire) == [c]
  {
    hide OpensAs;
    var d := Found(l, wire)[0];
    OpensCarries(l, wire, c);
    OpensCarries(l, wire, d);
    OneCounter(l, wire, c, d);
  }

  /** Nothing that arrives was sealed under the key and the sender's SSRC by anyone else. */
  ghost predicate Honest(l: Link, ws: seq<bytes>) {
    forall w | w in ws && l.r.Read(w).Some? :: Unforged(l, l.r.Read(w).value)
  }

  /** No datagram sealed under the key with another SSRC comes before the sender's first. */
  ghost predicate PeerFirst(l: Link, ws: seq<bytes>) {
    forall i: nat | i < |ws| :: NotTooEarly(l, ws, i)
  }

  ghost predicate NotTooEarly(l: Link, ws: seq<bytes>, i: nat)
    requires i < |ws|
  {
    Foreign(l, ws[i]) ==> Copies(l, ws[..i]) != []
  }

  // ---------- what is handed up ----------

  /** The packets the window accepts, in order. */
  function Given(k: Clock, cs: seq<nat>): seq<nat> {
    if cs == [] then [] else
      var n := |cs| - 1;
      Given(k, cs[..n]) + (if AcceptStep(After(FRESH, Arrivals(k, cs[..n])), k.Sent(cs[n])).1 then [cs[n]] else [])
  }

  function Payloads(l: Link, cs: seq<nat>): (ps: seq<bytes>)
    ensures |ps| == |cs| && forall i | 0 <= i < |cs| :: ps[i] == l.payload(cs[i])
  {
    seq(|cs|, i requires 0 <= i < |cs| => l.payload(cs[i]))
  }

  lemma AcceptKeepsSsrc(w: Window, p: Packet)
    ensures AcceptStep(w, p).0.initialized && AcceptStep(w, p).0.ssrc == if w.initialized then w.ssrc else p.ssrc
    ensures w.initialized && w.ssrc != p.ssrc ==> AcceptStep(w, p) == (w, false)
  {}

  lemma WindowNext(k: Clock, cs: seq<nat>, c: nat)
    ensures AcceptStep(After(FRESH, Arrivals(k, cs)), k.Sent(c)).0 == After(FRESH, Arrivals(k, cs + [c]))
  {
    hide AcceptStep, After;
    var all, n := cs + [c], |cs|;
    AfterNext(FRESH, Arrivals(k, all), n);
    assert Arrivals(k, all)[..n] == Arrivals(k, cs);
    assert Arrivals(k, all)[..n + 1] == Arrivals(k, all);
  }

  /** From its first packet on the window is the sender's. */
  lemma {:induction false} WindowOwned(k: Clock, cs: seq<nat>)
    requires cs != []
    ensures var w := After(FRESH, Arrivals(k, cs)); w.initialized && w.ssrc == k.ssrc
  {
    var n := |cs| - 1;
    hide AcceptStep, After;
    assert cs == cs[..n] + [cs[n]];
    WindowNext(k, cs[..n], cs[n]);
    AcceptKeepsSsrc(After(FRESH, Arrivals(k, cs[..n])), k.Sent(cs[n]));
    if n > 0 {
      WindowOwned(k, cs[..n]);
    } else {
      NoneYet(Arrivals(k, cs[..0]));
    }
  }

  /** Once the window belongs to a sender, datagrams with another SSRC change nothing. */
  lemma OthersRefused(k: Clock, cs: seq<nat>, p: Packet)
    requires cs != [] && p.ssrc != k.ssrc
    ensures var w := After(FRESH, Arrivals(k, cs)); AcceptStep(w, p) == (w, false)
  {
    hide After, AcceptStep;
    WindowOwned(k, cs);
    AcceptKeepsSsrc(After(FRESH, Arrivals(k, cs)), p);
  }

  /** The receiver has handed up what the window accepts of the copies, and its window has seen them all. */
  ghost predicate Done(l: Link, e: End, cs: seq<nat>)
    requires l.s.Valid()
  {
    e.up == Payloads(l, Given(ClockOf(l.s), cs)) && e.window == After(FRESH, Arrivals(ClockOf(l.s), cs))
  }

  lemma OneDatagram(l: Link, e: End, cs: seq<nat>, wire: bytes)
    requires l.Sound() && (l.r.Read(wire).Some? ==> Unforged(l, l.r.Read(wire).value))
    requires Done(l, e, cs) && (Foreign(l, wire) ==> cs != [])
    ensures Done(l, Receive(l.r)(e, wire), cs + Found(l, wire))
  {
    hide AcceptStep, After, Header, OpensAs, Unforged, Receiver.Read, Receiver.Unwrap;
    OpensExactly(l, wire);
    var k := ClockOf(l.s);
    if c :| OpensAs(l, wire, c) {
      FoundIs(l, wire, c);
      WindowNext(k, cs, c);
      assert (cs + [c])[..|cs|] == cs;
      assert Payloads(l, Given(k, cs) + [c]) == Payloads(l, Given(k, cs)) + [l.payload(c)];
    } else {
      assert cs + Found(l, wire) == cs;
      if Foreign(l, wire) {
        OthersRefused(k, cs, Header(l.r.Read(wire).value));
      }
    }
  }

  lemma LastDatagram(l: Link, ws: seq<bytes>)
    requires ws != [] && Honest(l, ws) && PeerFirst(l, ws)
    ensures var n := |ws| - 1;
            var before, wire := ws[..n], ws[n];
            && Honest(l, before) && PeerFirst(l, before)
            && (l.r.Read(wire).Some? ==> Unforged(l, l.r.Read(wire).value))
            && (Foreign(l, wire) ==> Copies(l, before) != [])
  {
    hide Receiver.Read, Unforged, Foreign, Found;
    var n := |ws| - 1;
    var before := ws[..n];
    assert ws[n] in ws;
    assert NotTooEarly(l, ws, n);
    forall i: nat | i < n
      ensures NotTooEarly(l, before, i)
    {
      assert NotTooEarly(l, ws, i);
      assert before[..i] == ws[..i];
    }
  }

  /** Whatever datagrams arrive, lost, reordered, repeated, re-padded or made up, the receiver hands up exactly the
      payloads of the packets that open and that the window accepts, in order. */
  lemma {:induction false} HandsUpAccepted(l: Link, ws: seq<bytes>)
    requires l.Sound() && Honest(l, ws) && PeerFirst(l, ws)
    ensures Done(l, Received(l, ws), Copies(l, ws))
  {
    hide Receive, Done, Honest, PeerFirst, Found, Receiver.Read, Foreign, Unforged;
    if ws == [] {
      NothingDone(l);
    } else {
      var n := |ws| - 1;
      LastDatagram(l, ws);
      HandsUpAccepted(l, ws[..n]);
      OneDatagram(l, Received(l, ws[..n]), Copies(l, ws[..n]), ws[n]);
    }
  }

  lemma NothingDone(l: Link)
    requires l.s.Valid()
    ensures Done(l, End(FRESH, []), [])
  {
    assert Arrivals(ClockOf(l.s), []) == [];
  }

  // ---------- plausible packets ----------

  /** The payloads of first copies, in the order they arrive. */
  function Firsts(l: Link, cs: seq<nat>): seq<bytes> {
    if cs == [] then [] else
      var k := |cs| - 1;
      Firsts(l, cs[..k]) + (if cs[k] !in cs[..k] then [l.payload(cs[k])] else [])
  }

  lemma PlausibleFront(k: Clock, cs: seq<nat>, n: nat)
    requires Plausible(k, cs) && n <= |cs|
    ensures Plausible(k, cs[..n])
  {
    hide MayArrive;
    forall i | 0 <= i < n
      ensures MayArrive(k, cs[..n][..i], cs[..n][i])
    {
      assert cs[..n][..i] == cs[..i];
    }
  }

  /** Of plausible packets the window accepts the first copies. */
  lemma {:induction false} GivenFirsts(l: Link, k: Clock, cs: seq<nat>)
    requires k.Lawful() && Plausible(k, cs)
    ensures Payloads(l, Given(k, cs)) == Firsts(l, cs)
  {
    hide AcceptStep, After, Plausible, Tracks, Clock.Lawful;
    if cs != [] {
      var n := |cs| - 1;
      PlausibleFront(k, cs, n);
      GivenFirsts(l, k, cs[..n]);
      var _ := RunTracks(k, cs, n);
      AcceptedMeans(FRESH, Arrivals(k, cs), n);
      assert Arrivals(k, cs)[..n] == Arrivals(k, cs[..n]);
    }
  }

  /** Of packets that are near each other and not from before the epoch of the first, the receiver hands up exactly the
      payloads of the first copies, in the order those arrive. */
  lemma HandsUpFirstCopies(l: Link, ws: seq<bytes>)
    requires l.Sound() && Honest(l, ws) && PeerFirst(l, ws) && Plausible(ClockOf(l.s), Copies(l, ws))
    ensures Received(l, ws).up == Firsts(l, Copies(l, ws))
  {
    hide Received, Honest, PeerFirst, Plausible, After;
    SenderIsLawful(l.s);
    HandsUpAccepted(l, ws);
    GivenFirsts(l, ClockOf(l.s), Copies(l, ws));
  }

  // ---------- another sender's datagram first ----------

  /** The window belongs to a sender with another SSRC. */
  ghost predicate Locked(l: Link, e: End) {
    e.window.initialized && e.window.ssrc != l.s.ssrc
  }

  lemma LockedStep(l: Link, e: End, wire: bytes)
    requires l.Sound() && (l.r.Read(wire).Some? ==> Unforged(l, l.r.Read(wire).value))
    requires Locked(l, e) || (!e.window.initialized && Found(l, wire) == [])
    ensures Locked(l, e) || Foreign(l, wire) ==> Locked(l, Receive(l.r)(e, wire))
    ensures !Locked(l, e) && !Foreign(l, wire) ==> Receive(l.r)(e, wire) == e
    ensures Found(l, wire) != [] ==> Receive(l.r)(e, wire) == e
  {
    hide AcceptStep, Header, OpensAs, Unforged, Receiver.Read, Receiver.Unwrap;
    OpensExactly(l, wire);
    if l.r.Open(wire).Some? {
      AcceptKeepsSsrc(e.window, Header(l.r.Read(wire).value));
    }
  }

  lemma CopiesNext(l: Link, ws: seq<bytes>, n: nat)
    requires n < |ws|
    ensures Copies(l, ws[..n + 1]) == Copies(l, ws[..n]) + Found(l, ws[n])
    ensures Received(l, ws[..n + 1]) == Receive(l.r)(Received(l, ws[..n]), ws[n])
  {
    hide Receive, Found;
    RunNext(Receive(l.r), End(FRESH, []), ws, n);
    assert ws[..n + 1][..n] == ws[..n];
  }

  lemma {:induction false} CopiesFront(l: Link, ws: seq<bytes>, n: nat, i: nat)
    requires n <= i <= |ws|
    ensures Copies(l, ws[..n]) <= Copies(l, ws[..i])
    decreases i
  {
    hide Found;
    if n < i {
      CopiesFront(l, ws, n, i - 1);
      CopiesNext(l, ws, i - 1);
    }
  }

  /** Datagram `i` is another sender's, and the sender's own come only after it. */
  ghost predicate TooLate(l: Link, ws: seq<bytes>, i: nat) {
    i < |ws| && !NotTooEarly(l, ws, i)
  }

  /** Up to datagram `i` the window is fresh or another's, from then on another's. */
  lemma {:induction false} LockedFrom(l: Link, ws: seq<bytes>, i: nat, n: nat)
    requires l.Sound() && Honest(l, ws) && TooLate(l, ws, i) && n <= |ws|
    ensures Locked(l, Received(l, ws[..n])) || (n <= i && !Received(l, ws[..n]).window.initialized)
    ensures 0 < n && Found(l, ws[n - 1]) != [] ==> Received(l, ws[..n]) == Received(l, ws[..n - 1])
    decreases n
  {
    hide Receive, Foreign, Found, Unforged, Receiver.Read, Copies, Received;
    if n > 0 {
      LockedFrom(l, ws, i, n - 1);
      CopiesNext(l, ws, n - 1);
      if n <= i {
        CopiesFront(l, ws, n, i);
        assert Found(l, ws[n - 1]) == [];
      } else if n == i + 1 {
        NotBoth(l, ws[i]);
      }
      assert ws[n - 1] in ws;
      LockedStep(l, Received(l, ws[..n - 1]), ws[n - 1]);
    } else {
      NothingReceived(l, ws[..0]);
    }
  }

  lemma NotBoth(l: Link, wire: bytes)
    requires l.Sound() && (l.r.Read(wire).Some? ==> Unforged(l, l.r.Read(wire).value)) && Foreign(l, wire)
    ensures Found(l, wire) == []
  {
    hide OpensAs, Unforged, Foreign;
    OpensExactly(l, wire);
  }

  lemma NothingReceived(l: Link, ws: seq<bytes>)
    requires ws == []
    ensures Received(l, ws) == End(FRESH, [])
  {}

  /** If another sender's datagram opens before the sender's first, none of the sender's is ever handed up. */
  lemma LockedOut(l: Link, ws: seq<bytes>, n: nat, c: nat)
    requires l.Sound() && Honest(l, ws) && !PeerFirst(l, ws) && n < |ws| && OpensAs(l, ws[n], c)
    ensures Received(l, ws[..n + 1]) == Received(l, ws[..n])
  {
    hide OpensAs, NotTooEarly, Honest, Received;
    var i: nat :| i < |ws| && !NotTooEarly(l, ws, i);
    FoundIs(l, ws[n], c);
    LockedFrom(l, ws, i, n + 1);
  }

  /** The window ends up with the sender's SSRC if and only if no other sender's datagram opened before its first. */
  lemma LocksOnExactly(l: Link, ws: seq<bytes>)
    requires l.Sound() && Honest(l, ws) && Copies(l, ws) != []
    ensures Received(l, ws).window.initialized
    ensures Received(l, ws).window.ssrc == l.s.ssrc <==> PeerFirst(l, ws)
  {
    hide NotTooEarly, Honest, Received, After;
    if PeerFirst(l, ws) {
      HandsUpAccepted(l, ws);
      WindowOwned(ClockOf(l.s), Copies(l, ws));
    } else {
      var i: nat :| i < |ws| && !NotTooEarly(l, ws, i);
      LockedFrom(l, ws, i, |ws|);
      assert ws[..|ws|] == ws;
    }
  }

  // ---------- nothing missing ----------

  /** The packet a datagram carries, whether or not it opens. */
  ghost function Carried(l: Link, wire: bytes): seq<nat> {
    if c :| Carries(l, wire, c) then [c] else []
  }

  /** The packets that arrive, in order. */
  ghost function AllCopies(l: Link, ws: seq<bytes>): seq<nat> {
    if ws == [] then [] else AllCopies(l, ws[..|ws| - 1]) + Carried(l, ws[|ws| - 1])
  }

  lemma {:induction false} CopiesOf(l: Link, ws: seq<bytes>)
    requires l.Sound()
    ensures forall c :: c in Copies(l, ws) <==> exists w :: w in ws && OpensAs(l, w, c)
    ensures forall c :: c in AllCopies(l, ws) <==> exists w :: w in ws && Carries(l, w, c)
  {
    hide OpensAs, Carries;
    if ws != [] {
      var before, last := ws[..|ws| - 1], ws[|ws| - 1];
      CopiesOf(l, before);
      assert forall w :: w in ws <==> w in before || w == last;
      forall c
        ensures c in Found(l, last) <==> OpensAs(l, last, c)
      {
        if OpensAs(l, last, c) {
          FoundIs(l, last, c);
        }
      }
      forall c
        ensures c in Carried(l, last) <==> Carries(l, last, c)
      {
        if Carries(l, last, c) {
          OneCounter(l, last, c, Carried(l, last)[0]);
        }
      }
    }
  }

  lemma {:induction false} FirstsCount(l: Link, cs: seq<nat>)
    ensures |Firsts(l, cs)| == |Elems(cs)|
  {
    if cs != [] {
      var k := |cs| - 1;
      FirstsCount(l, cs[..k]);
      ElemsNext(cs, k);
      assert cs[..k + 1] == cs;
      if cs[k] in cs[..k] {
        assert Elems(cs[..k]) + {cs[k]} == Elems(cs[..k]);
      }
    }
  }

  ghost predicate SomeOpens(l: Link, ws: seq<bytes>, c: nat) {
    exists w :: w in ws && OpensAs(l, w, c)
  }

  /** As many payloads are handed up as packets arrive if and only if some datagram of each packet opens. */
  lemma NothingMissingExactly(l: Link, ws: seq<bytes>)
    requires l.Sound() && Honest(l, ws) && PeerFirst(l, ws) && Plausible(ClockOf(l.s), Copies(l, ws))
    ensures |Received(l, ws).up| == |Elems(AllCopies(l, ws))| <==>
            forall c | c in AllCopies(l, ws) :: SomeOpens(l, ws, c)
  {
    hide Received, Honest, PeerFirst, Plausible, After, OpensAs, Carries;
    HandsUpFirstCopies(l, ws);
    CopiesOf(l, ws);
    var some, all := Copies(l, ws), AllCopies(l, ws);
    hide Copies, AllCopies;
    FirstsCount(l, some);
    forall c | c in some
      ensures c in all
    {
      var w :| w in ws && OpensAs(l, w, c);
      OpensCarries(l, w, c);
      assert w in ws && Carries(l, w, c);
    }
    if |Elems(some)| == |Elems(all)| {
      SameSize(Elems(some), Elems(all));
      assert forall c | c in all :: c in Elems(all);
    }
    if forall c | c in all :: SomeOpens(l, ws, c) {
      assert Elems(some) == Elems(all);
    }
  }

  /** Where the padding is the sender's own, this is so if and only if every frame that arrives is deliverable. */
  lemma OwnPaddingExactly(l: Link, ws: seq<bytes>)
    requires l.Sound() && Honest(l, ws) && PeerFirst(l, ws) && Plausible(ClockOf(l.s), Copies(l, ws))
    requires forall w, c | w in ws && Carries(l, w, c) :: w == l.Wire(c)
    ensures |Received(l, ws).up| == |Elems(AllCopies(l, ws))| <==> forall c | c in AllCopies(l, ws) :: l.Deliverable(c)
  {
    hide Received, Honest, PeerFirst, Plausible, OpensAs, Carries, Link.Deliverable, Frame;
    NothingMissingExactly(l, ws);
    CopiesOf(l, ws);
    forall c | c in AllCopies(l, ws)
      ensures SomeOpens(l, ws, c) <==> l.Deliverable(c)
    {
      var w :| w in ws && Carries(l, w, c);
      assert c < TWO48 by { Below48(l, w, c); }
      OwnFrameExactly(l, c);
      if u :| u in ws && OpensAs(l, u, c) {
        OpensCarries(l, u, c);
      }
    }
  }

  lemma Below48(l: Link, wire: bytes, c: nat)
    requires Carries(l, wire, c)
    ensures c < TWO48
  {}
}
