/** Sender and receiver together: what the replay window does to one sender's packets under loss,
    reordering and duplication. */
module ReplayDelivery {
  import opened Words
  import opened Nonce
  import opened ReplayWindow
  import opened Sets

  /** How far behind the newest packet an arrival may be. */
  const BEHIND: nat := 4096

  /** How packet counters become times and nonces. */
  datatype Clock = Clock(ssrc: uint32, time: nat -> nat, nonce: nat -> bytes) {
    /** 960 or 961 ticks a packet. */
    ghost predicate Ticks(a: nat, b: nat) {
      a <= b ==> 960 * (b - a) <= time(b) - time(a) <= 961 * (b - a)
    }

    /** No overflow, and no nonce used twice, below 2^48. */
    ghost predicate Apart(a: nat, b: nat) {
      a < TWO48 ==> time(a) + TWO32 < TWO64 && (b < TWO48 && nonce(a) == nonce(b) ==> a == b)
    }

    ghost predicate Lawful() {
      forall a: nat, b: nat :: Ticks(a, b) && Apart(a, b)
    }

    /** Packet `c` as it is received: its time cut to 32 bits. */
    function Sent(c: nat): Packet {
      Packet(ssrc, time(c) % TWO32, nonce(c))
    }

    /** The start of the 32-bit epoch in which packet `c` would open the window. */
    function Epoch(c: nat): nat {
      time(c) - time(c) % TWO32
    }
  }

  function Elems(cs: seq<nat>): set<nat> {
    set c | c in cs
  }

  ghost predicate IsNewest(m: nat, arrived: set<nat>) {
    m in arrived && forall c | c in arrived :: c <= m
  }

  /** Packet `c` is near the arrivals `cs`: a first copy is at most 4096 packets behind every earlier arrival and
      less than 2^31 ticks ahead of one of them; a repeat is less than 2^31 ticks behind. */
  ghost predicate Near(cs: seq<nat>, c: nat) {
    && c < TWO48
    && (if c in cs then forall d | d in cs :: 961 * (d - c) < TWO31
        else cs != [] ==>
          (forall d | d in cs :: d - c <= BEHIND) && (exists d :: d in cs && 961 * (c - d) < TWO31))
  }

  /** A near packet that is not from before the epoch the window opened in. */
  ghost predicate MayArrive(k: Clock, cs: seq<nat>, c: nat) {
    Near(cs, c) && (cs != [] ==> k.time(c) >= k.Epoch(cs[0]))
  }

  ghost predicate Plausible(k: Clock, cs: seq<nat>) {
    forall i | 0 <= i < |cs| :: MayArrive(k, cs[..i], cs[i])
  }

  /** A true time within 2^31 of the highest is recovered exactly from its low 32 bits. */
  lemma UnwrapExact(highest: uint64, t: nat)
    requires highest + TWO32 < TWO64
    requires highest - t < TWO31 && t - highest < TWO31
    ensures Extend(highest, t % TWO32) == t
  {
    var hb, tb := highest / TWO32, t / TWO32;
    assert highest == hb * TWO32 + highest % TWO32;
    assert t == tb * TWO32 + t % TWO32;
    assert hb - 1 <= tb <= hb + 1;
  }

  /** Every entry is an arrived packet, stored at its true time. */
  ghost predicate Genuine(seen: map<bytes, uint64>, k: Clock, arrived: set<nat>, off: nat) {
    forall n | n in seen :: exists c :: c in arrived && n == k.nonce(c) && seen[n] == k.time(c) - off
  }

  /** No arrival has been forgotten that is not too old to be accepted again. */
  ghost predicate Recent(seen: map<bytes, uint64>, k: Clock, arrived: set<nat>, m: nat) {
    forall c | c in arrived :: k.nonce(c) in seen || k.time(c) + SPAN < k.time(m)
  }

  ghost predicate Counters(k: Clock, arrived: set<nat>, off: nat) {
    forall c | c in arrived :: c < TWO48 && off <= k.time(c)
  }

  /** The window after the arrivals, with times counted from `off`: its highest time is that of the
      newest packet `m`. */
  ghost predicate Tracks(w: Window, k: Clock, arrived: set<nat>, off: nat, m: nat) {
    && w.initialized && w.ssrc == k.ssrc && |w.seen| <= MAX_ENTRIES
    && Counters(k, arrived, off) && IsNewest(m, arrived) && w.highest == k.time(m) - off
    && Genuine(w.seen, k, arrived, off) && Recent(w.seen, k, arrived, m)
  }

  /** A set of nonces drawn from `n` consecutive counters has at most `n` elements. */
  lemma {:induction false} CountNonces(k: Clock, nonces: set<bytes>, lo: int, n: nat)
    requires forall x | x in nonces :: exists i: nat :: lo <= i < lo + n && x == k.nonce(i)
    ensures |nonces| <= n
    decreases n
  {
    if n == 0 || lo + n - 1 < 0 {
      assert nonces == {};
    } else {
      var last := lo + n - 1;
      var rest := nonces - {k.nonce(last)};
      CountNonces(k, rest, lo, n - 1);
      SubsetSize(nonces, rest + {k.nonce(last)});
    }
  }

  /** Entries no older than the window span come from the 4101 newest counters. */
  lemma EvictionBound(k: Clock, seen: map<bytes, uint64>, arrived: set<nat>, off: nat, m: nat)
    requires k.Lawful() && Genuine(seen, k, arrived, off) && off <= k.time(m) && (forall c | c in arrived :: c <= m)
    requires forall n | n in seen :: seen[n] + SPAN >= k.time(m) - off
    ensures |seen| <= 4101
  {
    forall n | n in seen
      ensures exists i: nat :: m - 4100 <= i <= m && n == k.nonce(i)
    {
      var c :| c in arrived && n == k.nonce(c) && seen[n] == k.time(c) - off;
      assert k.Ticks(c, m);
    }
    CountNonces(k, seen.Keys, m - 4100, 4101);
    assert |seen.Keys| == |seen|;
  }

  lemma RecentIsKept(k: Clock, seen: map<bytes, uint64>, arrived: set<nat>, off: nat, m: nat, c: nat)
    requires k.Lawful() && Genuine(seen, k, arrived, off) && Counters(k, arrived, off) && off <= k.time(m) < TWO64
    requires c in arrived && k.nonce(c) in seen
    ensures k.nonce(c) in Kept(seen, Cutoff(k.time(m) - off)) || k.time(c) + SPAN < k.time(m)
  {
    var d :| d in arrived && k.nonce(c) == k.nonce(d) && seen[k.nonce(c)] == k.time(d) - off;
    assert k.Apart(c, d);
  }

  /** Eviction leaves at most 4101 entries and forgets only what is too old to be accepted again. */
  lemma EvictionKeepsRecent(k: Clock, seen: map<bytes, uint64>, arrived: set<nat>, off: nat, m: nat)
    requires k.Lawful() && Genuine(seen, k, arrived, off) && Counters(k, arrived, off) && Recent(seen, k, arrived, m)
    requires off <= k.time(m) < TWO64 && (forall c | c in arrived :: c <= m)
    ensures var kept := Kept(seen, Cutoff(k.time(m) - off));
            |kept| <= 4101 && Genuine(kept, k, arrived, off) && Recent(kept, k, arrived, m)
  {
    var kept := Kept(seen, Cutoff(k.time(m) - off));
    EvictionBound(k, kept, arrived, off, m);
    forall c | c in arrived
      ensures k.nonce(c) in kept || k.time(c) + SPAN < k.time(m)
    {
      if k.nonce(c) in seen {
        RecentIsKept(k, seen, arrived, off, m, c);
      }
    }
  }

  lemma StoreTracks(w: Window, k: Clock, arrived: set<nat>, off: nat, c: nat, m: nat, e: uint64)
    requires w.initialized && w.ssrc == k.ssrc && Counters(k, arrived, off) && w.highest == k.time(m) - off
    requires c < TWO48 && off <= k.time(c) && e == k.time(c) - off
    requires IsNewest(m, arrived + {c}) && |w.seen| < MAX_ENTRIES
    requires Genuine(w.seen, k, arrived, off) && Recent(w.seen, k, arrived, m)
    ensures Stored(w, k.nonce(c), e).1 && Tracks(Stored(w, k.nonce(c), e).0, k, arrived + {c}, off, m)
  {
    var next := w.seen[k.nonce(c) := e];
    forall n | n in next
      ensures exists d :: d in arrived + {c} && n == k.nonce(d) && next[n] == k.time(d) - off
    {
      if n == k.nonce(c) {
        assert c in arrived + {c};
      } else {
        var d :| d in arrived && n == k.nonce(d) && w.seen[n] == k.time(d) - off;
        assert d in arrived + {c};
      }
    }
  }

  lemma RecentLater(seen: map<bytes, uint64>, k: Clock, arrived: set<nat>, m: nat, m': nat)
    requires Recent(seen, k, arrived, m) && k.time(m) <= k.time(m')
    ensures Recent(seen, k, arrived, m')
  {}

  /** The entry cap always leaves room for the packet being recorded. */
  lemma RoomForOne(w: Window, k: Clock, arrived: set<nat>, off: nat, m: nat, m': nat, h: uint64)
    requires k.Lawful() && Tracks(w, k, arrived, off, m) && m <= m' && off <= k.time(m') && h == k.time(m') - off
    requires k.time(m) <= k.time(m')
    requires k.time(m') < TWO64
    ensures var seen := Evicted(w, h).seen;
            |seen| < MAX_ENTRIES && Genuine(seen, k, arrived, off) && Recent(seen, k, arrived, m')
  {
    RecentLater(w.seen, k, arrived, m, m');
    hide Recent, Genuine, Kept;
    if |w.seen| >= MAX_ENTRIES {
      EvictionKeepsRecent(k, w.seen, arrived, off, m');
    }
  }

  lemma NewerOf(k: Clock, arrived: set<nat>, m: nat, c: nat) returns (m': nat)
    requires k.Lawful() && IsNewest(m, arrived) && m < TWO48 && c < TWO48
    ensures m <= m' && IsNewest(m', arrived + {c})
    ensures k.time(m) <= k.time(m') < TWO64 && k.time(m') == if k.time(c) > k.time(m) then k.time(c) else k.time(m)
  {
    m' := if c > m then c else m;
    assert k.Ticks(m, c) && k.Ticks(c, m) && k.Apart(m', m');
  }

  lemma InsertAs(w: Window, nonce: bytes, e: uint64, h: uint64)
    requires h == if e > w.highest then e else w.highest
    ensures InsertStep(w, nonce, e) == Stored(Evicted(w, h), nonce, e)
  {}

  /** Recording a new packet keeps the window tracking, and the entry cap never refuses it. */
  lemma InsertTracks(w: Window, k: Clock, arrived: set<nat>, off: nat, m: nat, c: nat) returns (m': nat)
    requires k.Lawful() && Tracks(w, k, arrived, off, m) && c < TWO48 && off <= k.time(c) < TWO64
    ensures InsertStep(w, k.nonce(c), k.time(c) - off).1
    ensures Tracks(InsertStep(w, k.nonce(c), k.time(c) - off).0, k, arrived + {c}, off, m')
  {
    hide InsertStep, Stored, Evicted, Genuine, Recent;
    m' := NewerOf(k, arrived, m, c);
    var e: uint64, h: uint64 := k.time(c) - off, k.time(m') - off;
    InsertAs(w, k.nonce(c), e, h);
    RoomForOne(w, k, arrived, off, m, m', h);
    StoreTracks(Evicted(w, h), k, arrived, off, c, m', e);
  }

  /** The window gives a plausible arrival its true time, and does not find it too old. */
  lemma ArrivalTime(k: Clock, m: nat, off: nat, c: nat)
    requires k.Lawful() && m < TWO48 && off % TWO32 == 0 && off <= k.time(c) && off <= k.time(m)
    requires m - c <= BEHIND && 961 * (c - m) < TWO31
    ensures k.time(m) - off < TWO64
    ensures Extend(k.time(m) - off, k.time(c) % TWO32) == k.time(c) - off
    ensures k.time(c) + SPAN >= k.time(m)
  {
    CutShift(k.time(c) - off, off / TWO32);
    assert k.Ticks(c, m) && k.Ticks(m, c) && k.Apart(m, m);
    UnwrapExact(k.time(m) - off, k.time(c) - off);
  }

  lemma FirstCopyRecorded(w: Window, k: Clock, arrived: set<nat>, off: nat, m: nat, c: nat)
    requires k.Lawful() && Tracks(w, k, arrived, off, m) && c !in arrived && c < TWO48
    requires off <= k.time(c) < TWO64 && Extend(w.highest, k.time(c) % TWO32) == k.time(c) - off
    requires w.highest <= k.time(c) - off + SPAN < TWO64
    ensures AcceptStep(w, k.Sent(c)) == InsertStep(w, k.nonce(c), k.time(c) - off)
  {
    forall d | d in arrived ensures k.nonce(d) != k.nonce(c) {
      assert k.Apart(c, d);
    }
  }

  /** A repeat is refused: its nonce is stored, or its true time is below the window. */
  lemma RepeatRefused(w: Window, k: Clock, arrived: set<nat>, off: nat, m: nat, c: nat)
    requires k.Lawful() && Tracks(w, k, arrived, off, m) && off % TWO32 == 0
    requires c in arrived && 961 * (m - c) < TWO31
    ensures AcceptStep(w, k.Sent(c)) == (w, false)
  {
    if k.nonce(c) !in w.seen {
      assert k.Ticks(c, m) && k.Apart(m, m);
      CutShift(k.time(c) - off, off / TWO32);
      UnwrapExact(k.time(m) - off, k.time(c) - off);
    }
  }

  /** One plausible arrival: accepted if and only if it is the first copy. */
  lemma ArrivalStep(w: Window, k: Clock, arrived: set<nat>, off: nat, m: nat, c: nat) returns (m': nat)
    requires k.Lawful() && Tracks(w, k, arrived, off, m) && off % TWO32 == 0 && off <= k.time(c) && c < TWO48
    requires if c in arrived then 961 * (m - c) < TWO31 else m - c <= BEHIND && 961 * (c - m) < TWO31
    ensures AcceptStep(w, k.Sent(c)).1 <==> c !in arrived
    ensures Tracks(AcceptStep(w, k.Sent(c)).0, k, arrived + {c}, off, m')
  {
    if c in arrived {
      hide AcceptStep;
      RepeatRefused(w, k, arrived, off, m, c);
      assert arrived + {c} == arrived;
      m' := m;
    } else {
      assert k.Apart(c, c);
      ArrivalTime(k, m, off, c);
      FirstCopyRecorded(w, k, arrived, off, m, c);
      hide AcceptStep;
      m' := InsertTracks(w, k, arrived, off, m, c);
    }
  }

  /** The first packet to arrive opens the window and is accepted. */
  lemma FirstArrival(k: Clock, c: nat)
    requires k.Lawful() && c < TWO48
    ensures AcceptStep(FRESH, k.Sent(c)).1 && Tracks(AcceptStep(FRESH, k.Sent(c)).0, k, {c}, k.Epoch(c), c)
  {
    assert k.Apart(c, c);
    var e: uint64 := k.time(c) % TWO32;
    UnwrapExact(e, e);
    var w := Opened(FRESH, k.Sent(c));
    assert AcceptStep(FRESH, k.Sent(c)) == Stored(w, k.nonce(c), e);
    hide AcceptStep, Stored;
    assert {} + {c} == {c};
    StoreTracks(w, k, {}, k.Epoch(c), c, c, e);
  }

  function Arrivals(k: Clock, cs: seq<nat>): (ps: seq<Packet>)
    ensures |ps| == |cs| && forall i | 0 <= i < |cs| :: ps[i] == k.Sent(cs[i])
  {
    seq(|cs|, i requires 0 <= i < |cs| => k.Sent(cs[i]))
  }

  lemma ElemsNext(cs: seq<nat>, n: nat)
    requires n < |cs|
    ensures Elems(cs[..n + 1]) == Elems(cs[..n]) + {cs[n]}
  {
    assert cs[..n + 1] == cs[..n] + [cs[n]];
  }

  lemma EpochAligned(k: Clock, c: nat)
    ensures k.Epoch(c) % TWO32 == 0
  {
  }

  lemma NextArrival(w: Window, k: Clock, cs: seq<nat>, n: nat, m: nat) returns (m': nat)
    requires k.Lawful() && 0 < n < |cs| && MayArrive(k, cs[..n], cs[n])
    requires Tracks(w, k, Elems(cs[..n]), k.Epoch(cs[0]), m)
    ensures AcceptStep(w, k.Sent(cs[n])).1 <==> cs[n] !in cs[..n]
    ensures Tracks(AcceptStep(w, k.Sent(cs[n])).0, k, Elems(cs[..n + 1]), k.Epoch(cs[0]), m')
  {
    hide AcceptStep;
    ElemsNext(cs, n);
    EpochAligned(k, cs[0]);
    assert m in cs[..n];
    if cs[n] !in cs[..n] {
      var d :| d in cs[..n] && 961 * (cs[n] - d) < TWO31;
      assert d in Elems(cs[..n]);
    }
    m' := ArrivalStep(w, k, Elems(cs[..n]), k.Epoch(cs[0]), m, cs[n]);
  }

  /** Along any plausible run the window tracks the sender. */
  lemma {:induction false} RunTracks(k: Clock, cs: seq<nat>, n: nat) returns (m: nat)
    requires k.Lawful() && Plausible(k, cs) && n < |cs|
    ensures Accepted(FRESH, Arrivals(k, cs), n) <==> cs[n] !in cs[..n]
    ensures Tracks(After(FRESH, Arrivals(k, cs)[..n + 1]), k, Elems(cs[..n + 1]), k.Epoch(cs[0]), m)
    decreases n
  {
    hide AcceptStep, Tracks, MayArrive, After;
    var ps := Arrivals(k, cs);
    AfterNext(FRESH, ps, n);
    assert MayArrive(k, cs[..n], cs[n]);
    if n == 0 {
      Bounded(k, cs[..0], cs[0]);
      NoneYet(ps[..0]);
      FirstArrival(k, cs[0]);
      ElemsNext(cs, 0);
      assert Elems(cs[..0]) + {cs[0]} == {cs[0]};
      m := cs[0];
    } else {
      m := RunTracks(k, cs, n - 1);
      m := NextArrival(After(FRESH, ps[..n]), k, cs, n, m);
    }
  }

  lemma Bounded(k: Clock, cs: seq<nat>, c: nat)
    requires MayArrive(k, cs, c)
    ensures c < TWO48
  {}

  lemma NoneYet(ps: seq<Packet>)
    requires ps == []
    ensures After(FRESH, ps) == FRESH
  {}

  /** The clock of an actual sender. */
  function ClockOf(s: Sender): Clock
    requires s.ssrc < TWO32
  {
    Clock(s.ssrc, (c: nat) => TrueTime(s, c), (c: nat) => NonceOf(s, c))
  }

  lemma SenderIsLawful(s: Sender)
    requires s.Valid()
    ensures ClockOf(s).Lawful()
  {
    var k := ClockOf(s);
    forall a: nat, b: nat ensures k.Ticks(a, b) && k.Apart(a, b) {
      if a <= b { TrueTimeStep(s, a, b); }
      if a < TWO48 && b < TWO48 && a != b { NonceUnique(s, a, b); }
    }
  }

  /** Packet `c` may come after `front`: packet 0 comes first, and every packet is near the arrivals before it. */
  ghost predicate Follows(front: seq<nat>, c: nat) {
    Near(front, c) && (front == [] ==> c == 0)
  }

  /** The arrivals the window is made for. */
  ghost predicate Orderly(cs: seq<nat>) {
    cs == [] || (Orderly(cs[..|cs| - 1]) && Follows(cs[..|cs| - 1], cs[|cs| - 1]))
  }

  lemma {:induction false} OrderlyAt(cs: seq<nat>, i: nat)
    requires Orderly(cs) && i < |cs|
    ensures Follows(cs[..i], cs[i]) && cs[0] == 0
  {
    hide Follows;
    var n := |cs| - 1;
    if i < n {
      OrderlyAt(cs[..n], i);
      assert cs[..n][..i] == cs[..i];
    } else if n > 0 {
      OrderlyAt(cs[..n], 0);
    } else {
      FirstIsZero(cs[0]);
      assert cs[..0] == [];
    }
  }

  lemma FirstIsZero(c: nat)
    ensures Follows([], c) ==> c == 0
  {}

  /** Over orderly arrivals each packet's first copy is accepted and every repeat refused, under any reordering,
      loss and duplication. */
  lemma FirstCopiesExactly(s: Sender, cs: seq<nat>, n: nat)
    requires s.Valid() && n < |cs| && Orderly(cs)
    ensures Accepted(FRESH, Arrivals(ClockOf(s), cs), n) <==> cs[n] !in cs[..n]
  {
    hide Accepted, Tracks, Orderly;
    var k := ClockOf(s);
    SenderIsLawful(s);
    forall i | 0 <= i < |cs| ensures MayArrive(k, cs[..i], cs[i]) {
      OrderlyAt(cs, i);
      TrueTimeStep(s, 0, cs[i]);
    }
    var _ := RunTracks(k, cs, n);
  }
}
