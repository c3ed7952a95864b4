/** Repeats from far behind: exactly which of them the window accepts a second time, and what that does to it. */
module ReplayFar {
  import opened Words
  import opened Nonce
  import opened ReplayWindow
  import opened ReplayDelivery

  /** The 64-bit time given to a timestamp whose true time is not above the highest, for any distance between them. */
  lemma ExtendPast(highest: uint64, t: nat)
    requires t <= highest && highest + TWO32 < TWO64
    ensures var d := (highest - t) % TWO32;
            Extend(highest, t % TWO32) ==
            if d < TWO31 || (d == TWO31 && highest % TWO32 >= TWO31) then highest - d else highest - d + TWO32
  {
    var hb, hl, tb, tl := highest / TWO32, highest % TWO32, t / TWO32, t % TWO32;
    assert highest == hb * TWO32 + hl && t == tb * TWO32 + tl;
    if hl >= tl {
      ModIs(highest - t, hb - tb, hl - tl);
    } else {
      assert tb < hb;
      ModIs(highest - t, hb - tb - 1, hl - tl + TWO32);
    }
  }

  lemma ModIs(n: nat, q: int, r: nat)
    requires n == q * TWO32 + r && r < TWO32
    ensures n % TWO32 == r
  {}

  /** A repeat `d` ticks behind, modulo 2^32, counts as new: it falls into the window, or it is taken for a packet
      of the next 32-bit epoch. `low` are the low bits of the highest time. */
  predicate TakenForNew(d: nat, low: nat) {
    d <= SPAN || d > TWO31 || (d == TWO31 && low < TWO31)
  }

  /** Whatever the highest time becomes, there is room for one more entry. */
  lemma RoomAbove(w: Window, k: Clock, arrived: set<nat>, off: nat, m: nat, h: uint64)
    requires k.Lawful() && Tracks(w, k, arrived, off, m) && h >= w.highest
    ensures |Evicted(w, h).seen| < MAX_ENTRIES
  {
    var kept := Kept(w.seen, Cutoff(h));
    assert Genuine(kept, k, arrived, off);
    hide Genuine, Recent, Clock.Lawful;
    EvictionBound(k, kept, arrived, off, m);
  }

  lemma RepeatStep(w: Window, p: Packet, e: uint64)
    requires w.initialized && w.ssrc == p.ssrc && p.nonce !in w.seen && Extend(w.highest, p.ts) == e
    requires e + SPAN < TWO64
    requires |Evicted(w, if e > w.highest then e else w.highest).seen| < MAX_ENTRIES
    ensures AcceptStep(w, p).1 <==> e + SPAN >= w.highest
    ensures AcceptStep(w, p).0.highest == if e > w.highest then e else w.highest
    ensures !AcceptStep(w, p).1 ==> AcceptStep(w, p).0 == w
  {
    hide Extend, Kept;
  }

  /** The time the window gives a repeat. */
  lemma RepeatTime(w: Window, k: Clock, arrived: set<nat>, off: nat, m: nat, c: nat)
    requires k.Lawful() && Tracks(w, k, arrived, off, m) && off % TWO32 == 0 && c in arrived
    ensures k.time(c) <= k.time(m) && w.highest + TWO32 < TWO64 && w.initialized && w.ssrc == k.ssrc
    ensures var d := (k.time(m) - k.time(c)) % TWO32;
            d <= w.highest && Extend(w.highest, k.time(c) % TWO32) ==
            if d < TWO31 || (d == TWO31 && k.time(m) % TWO32 >= TWO31) then w.highest - d else w.highest - d + TWO32
  {
    hide Genuine, Recent;
    assert k.Ticks(c, m) && k.Apart(m, m);
    CutShift(k.time(c) - off, off / TWO32);
    CutShift(w.highest, off / TWO32);
    ExtendPast(w.highest, k.time(c) - off);
  }

  /** A repeat is accepted if and only if its nonce has been forgotten and its distance counts as new, however far
      behind it is; one from beyond 2^31 ticks then moves the highest time up. */
  lemma FarRepeatExactly(w: Window, k: Clock, arrived: set<nat>, off: nat, m: nat, c: nat)
    requires k.Lawful() && Tracks(w, k, arrived, off, m) && off % TWO32 == 0 && c in arrived
    ensures k.time(c) <= k.time(m)
    ensures var d := (k.time(m) - k.time(c)) % TWO32;
            var r := AcceptStep(w, k.Sent(c));
            && (r.1 <==> k.nonce(c) !in w.seen && TakenForNew(d, k.time(m) % TWO32))
            && (r.1 ==> r.0.highest == if d <= SPAN then w.highest else w.highest - d + TWO32)
            && (!r.1 ==> r.0 == w)
  {
    hide Tracks, Clock.Lawful, Extend, AcceptStep, Evicted;
    RepeatTime(w, k, arrived, off, m, c);
    if k.nonce(c) in w.seen {
      StoredRefused(w, k.Sent(c));
    } else {
      var h, e := w.highest, Extend(w.highest, k.time(c) % TWO32);
      RoomAbove(w, k, arrived, off, m, if e > h then e else h);
      RepeatStep(w, k.Sent(c), e);
    }
  }

  lemma StoredRefused(w: Window, p: Packet)
    requires w.initialized && p.nonce in w.seen
    ensures AcceptStep(w, p) == (w, false)
  {}

  /** After a far repeat the window is deaf: what the sender sends next is too old for it. */
  lemma TooOldNow(w: Window, k: Clock, off: nat, c: nat, next: nat)
    requires k.Lawful() && off % TWO32 == 0 && c < TWO48 && off <= k.time(c) && w.initialized && w.ssrc == k.ssrc
    requires w.highest == k.time(c) - off + TWO32
    requires TWO31 < k.time(next) - k.time(c) < TWO32 - SPAN
    ensures AcceptStep(w, k.Sent(next)) == (w, false)
  {
    assert k.Apart(c, c);
    CutShift(k.time(next) - off, off / TWO32);
    UnwrapNear(w.highest, k.time(next) - off);
  }

  lemma UnwrapNear(highest: uint64, t: nat)
    requires SPAN < highest - t < TWO31
    ensures Add64(Extend(highest, t % TWO32), SPAN) < highest
  {
    ExtendBehind(highest, t);
  }

  // ---------- a run in which it happens ----------

  lemma ArrivesNear(k: Clock, cs: seq<nat>, n: nat, m: nat)
    requires Plausible(k, cs) && 0 < n < |cs| && cs[n] !in cs[..n] && IsNewest(m, Elems(cs[..n]))
    ensures cs[n] < TWO48 && cs[n] !in Elems(cs[..n]) && k.Epoch(cs[0]) <= k.time(cs[n])
    ensures m - cs[n] <= BEHIND && 961 * (cs[n] - m) < TWO31
  {
    assert MayArrive(k, cs[..n], cs[n]);
    assert m in cs[..n];
    var d :| d in cs[..n] && 961 * (cs[n] - d) < TWO31;
    assert d in Elems(cs[..n]);
  }

  lemma FirstCopyOf(w: Window, k: Clock, arrived: set<nat>, off: nat, m: nat, c: nat)
    requires k.Lawful() && Tracks(w, k, arrived, off, m) && off % TWO32 == 0 && off <= k.time(c)
    requires c !in arrived && c < TWO48 && m - c <= BEHIND && 961 * (c - m) < TWO31
    ensures k.time(c) < TWO64 && k.nonce(c) !in w.seen
    ensures AcceptStep(w, k.Sent(c)) == InsertStep(w, k.nonce(c), k.time(c) - off)
  {
    hide AcceptStep, InsertStep;
    FirstIsNew(w, k, arrived, off, m, c);
    ArrivalTime(k, m, off, c);
    hide Clock.Lawful;
    FirstCopyRecorded(w, k, arrived, off, m, c);
  }

  /** A first copy of a plausible run is recorded at its true time. */
  lemma FirstCopyStep(k: Clock, cs: seq<nat>, n: nat)
    requires k.Lawful() && Plausible(k, cs) && 0 < n < |cs| && cs[n] !in cs[..n]
    ensures var w, off := After(FRESH, Arrivals(k, cs)[..n]), k.Epoch(cs[0]);
            && off <= k.time(cs[n]) < TWO64 && k.nonce(cs[n]) !in w.seen && Genuine(w.seen, k, Elems(cs[..n]), off)
            && After(FRESH, Arrivals(k, cs)[..n + 1]) == InsertStep(w, k.nonce(cs[n]), k.time(cs[n]) - off).0
  {
    hide AcceptStep, After, InsertStep, Plausible, Tracks, Clock.Lawful;
    var w, off := After(FRESH, Arrivals(k, cs)[..n]), k.Epoch(cs[0]);
    var m := RunTracks(k, cs, n - 1);
    TracksMeans(w, k, Elems(cs[..n]), off, m);
    hide Genuine;
    ArrivesNear(k, cs, n, m);
    EpochAligned(k, cs[0]);
    AfterNext(FRESH, Arrivals(k, cs), n);
    FirstCopyOf(w, k, Elems(cs[..n]), off, m, cs[n]);
  }

  lemma TracksMeans(w: Window, k: Clock, arrived: set<nat>, off: nat, m: nat)
    requires Tracks(w, k, arrived, off, m)
    ensures IsNewest(m, arrived) && Genuine(w.seen, k, arrived, off)
  {}

  lemma FirstIsNew(w: Window, k: Clock, arrived: set<nat>, off: nat, m: nat, c: nat)
    requires k.Lawful() && Tracks(w, k, arrived, off, m) && c !in arrived && c < TWO48
    ensures k.nonce(c) !in w.seen && k.time(c) + TWO32 < TWO64
  {
    assert k.Apart(c, c);
    forall d | d in arrived
      ensures k.nonce(d) != k.nonce(c)
    {
      assert k.Apart(c, d);
    }
  }

  /** While no more packets have come than the map holds, each has its entry. */
  lemma {:induction false} AllStored(k: Clock, cs: seq<nat>, n: nat)
    requires k.Lawful() && Plausible(k, cs) && n <= |cs| && n <= MAX_ENTRIES
    requires forall i | 0 <= i < n :: cs[i] !in cs[..i]
    ensures |After(FRESH, Arrivals(k, cs)[..n]).seen| == n
  {
    hide Plausible, After, AcceptStep;
    var ps := Arrivals(k, cs);
    if n == 0 {
      NoneYet(ps[..0]);
    } else {
      AllStored(k, cs, n - 1);
      if n == 1 {
        NoneYet(ps[..0]);
        AfterNext(FRESH, ps, 0);
        OneStored(ps[0]);
      } else {
        FirstCopyStep(k, cs, n - 1);
        OneMore(After(FRESH, ps[..n - 1]), k.nonce(cs[n - 1]), k.time(cs[n - 1]) - k.Epoch(cs[0]));
      }
    }
  }

  lemma OneStored(p: Packet)
    ensures |AcceptStep(FRESH, p).0.seen| == 1
  {
    UnwrapExact(p.ts, p.ts);
  }

  lemma OneMore(w: Window, nonce: bytes, e: uint64)
    requires nonce !in w.seen && |w.seen| < MAX_ENTRIES
    ensures |InsertStep(w, nonce, e).0.seen| == |w.seen| + 1
  {
    assert w.seen[nonce := e].Keys == w.seen.Keys + {nonce};
  }

  /** Packets 0 to 8192, two jumps ahead, and packet 0 again. */
  function Far(j: nat): nat {
    if j <= 8192 then j else if j == 8193 then 1500000 else if j == 8194 then 3000000 else 0
  }

  function FarRun(): (cs: seq<nat>)
    ensures |cs| == 8196 && forall j | 0 <= j < 8196 :: cs[j] == Far(j)
  {
    seq(8196, j requires 0 <= j < 8196 => Far(j))
  }

  lemma FarNear(k: Clock)
    requires k.Lawful()
    ensures Plausible(k, FarRun()[..8195]) && forall i | 0 <= i < 8195 :: FarRun()[i] !in FarRun()[..i]
  {
    var cs := FarRun();
    var front := cs[..8195];
    forall i | 0 <= i < 8195
      ensures MayArrive(k, front[..i], front[i]) && cs[i] !in cs[..i]
    {
      assert front[..i] == cs[..i];
      assert k.Ticks(0, Far(i));
      assert forall d | d in cs[..i] :: d < Far(i);
      if i > 0 {
        assert cs[i - 1] in cs[..i];
      }
    }
  }

  /** A purge drops what is below its cutoff. */
  lemma NotKept(seen: map<bytes, uint64>, k: Clock, arrived: set<nat>, off: nat, c: nat, cutoff: uint64)
    requires k.Lawful() && Genuine(seen, k, arrived, off) && (forall d | d in arrived :: d < TWO48) && c < TWO48
    requires k.time(c) - off < cutoff
    ensures k.nonce(c) !in Kept(seen, cutoff)
  {
    if k.nonce(c) in seen {
      var d :| d in arrived && k.nonce(c) == k.nonce(d) && seen[k.nonce(c)] == k.time(d) - off;
      assert k.Apart(c, d);
    }
  }

  /** A new packet that finds the map full, or packet 0 gone, leaves packet 0 gone. */
  lemma GoneAfter(w: Window, k: Clock, arrived: set<nat>, off: nat, c: nat)
    requires k.Lawful() && Genuine(w.seen, k, arrived, off) && forall d | d in arrived :: d < TWO48
    requires 8192 <= c < TWO48 && off <= k.time(0) && k.time(c) < TWO64
    requires |w.seen| >= MAX_ENTRIES || k.nonce(0) !in w.seen
    ensures off <= k.time(c) && k.nonce(0) !in InsertStep(w, k.nonce(c), k.time(c) - off).0.seen
  {
    assert k.Ticks(0, c) && k.Apart(0, c);
    var e: uint64 := k.time(c) - off;
    var h := if e > w.highest then e else w.highest;
    NotKept(w.seen, k, arrived, off, 0, Cutoff(h));
    hide Clock.Lawful, Genuine;
  }

  /** The packet that fills the map purges packet 0. */
  lemma ZeroForgotten(k: Clock, cs: seq<nat>, n: nat)
    requires k.Lawful() && cs == FarRun()[..8195] && Plausible(k, cs) && 8192 <= n < 8195 && cs[n] !in cs[..n]
    requires if n == 8192 then |After(FRESH, Arrivals(k, cs)[..n]).seen| == MAX_ENTRIES
             else k.nonce(0) !in After(FRESH, Arrivals(k, cs)[..n]).seen
    ensures k.nonce(0) !in After(FRESH, Arrivals(k, cs)[..n + 1]).seen
  {
    hide Plausible, After, InsertStep, Genuine, Clock.Lawful;
    FirstCopyStep(k, cs, n);
    assert cs[n] == Far(n) && cs[0] == 0;
    assert forall d | d in cs[..n] :: d < TWO48;
    GoneAfter(After(FRESH, Arrivals(k, cs)[..n]), k, Elems(cs[..n]), k.Epoch(0), cs[n]);
  }

  /** The window before packet 0 comes again. */
  lemma BeforeRepeat(k: Clock) returns (w: Window)
    requires k.Lawful()
    ensures w == After(FRESH, Arrivals(k, FarRun())[..8195])
    ensures Tracks(w, k, Elems(FarRun()[..8195]), k.Epoch(0), 3000000) && k.nonce(0) !in w.seen
  {
    hide Plausible, After, Clock.Lawful, Tracks;
    FarNear(k);
    var cs := FarRun()[..8195];
    assert forall i | 0 <= i < 8195 :: cs[..i] == FarRun()[..i];
    AllStored(k, cs, 8192);
    ZeroForgotten(k, cs, 8192);
    ZeroForgotten(k, cs, 8193);
    ZeroForgotten(k, cs, 8194);
    var m := RunTracks(k, cs, 8194);
    assert Arrivals(k, cs)[..8195] == Arrivals(k, FarRun())[..8195];
    assert cs[..8195] == cs && cs[0] == 0;
    w := After(FRESH, Arrivals(k, FarRun())[..8195]);
    NewestFar(w, k, m);
  }

  lemma NewestFar(w: Window, k: Clock, m: nat)
    requires Tracks(w, k, Elems(FarRun()[..8195]), k.Epoch(0), m)
    ensures m == 3000000
  {
    hide Genuine, Recent, Counters;
    var front := FarRun()[..8195];
    assert front[8194] == 3000000;
    assert 3000000 in Elems(front);
    assert forall c | c in front :: c <= 3000000;
  }

  /** For every sender: packet 0 is accepted a second time, and then the window refuses everything the sender sends for
      more than a million packets, new or not. */
  lemma FarRepeatAccepted(s: Sender, more: seq<nat>)
    requires s.Valid() && forall i | 0 <= i < |more| :: 2240000 <= more[i] <= 4465000
    ensures var k, cs := ClockOf(s), FarRun();
            && Plausible(k, cs[..8195]) && cs[8195] in cs[..8195] && Accepted(FRESH, Arrivals(k, cs), 8195)
            && After(FRESH, Arrivals(k, cs + more)) == After(FRESH, Arrivals(k, cs))
  {
    hide Plausible, After, AcceptStep, Tracks;
    SenderIsLawful(s);
    var k, cs := ClockOf(s), FarRun();
    hide ClockOf;
    FarNear(k);
    assert cs[8195] == 0 == cs[..8195][0];
    var w := BeforeRepeat(k);
    ZeroAgain(w, k);
    AcceptedMeans(FRESH, Arrivals(k, cs), 8195);
    AfterNext(FRESH, Arrivals(k, cs), 8195);
    assert Arrivals(k, cs)[..8196] == Arrivals(k, cs);
    Deaf(k, cs, more);
  }

  lemma ZeroAgain(w: Window, k: Clock)
    requires k.Lawful() && Tracks(w, k, Elems(FarRun()[..8195]), k.Epoch(0), 3000000) && k.nonce(0) !in w.seen
    ensures AcceptStep(w, k.Sent(0)).1 && AcceptStep(w, k.Sent(0)).0.highest == k.time(0) - k.Epoch(0) + TWO32
    ensures AcceptStep(w, k.Sent(0)).0.initialized && AcceptStep(w, k.Sent(0)).0.ssrc == k.ssrc
  {
    assert FarRun()[..8195][0] == 0;
    EpochAligned(k, 0);
    assert k.Ticks(0, 3000000);
    ModIs(k.time(3000000) - k.time(0), 0, k.time(3000000) - k.time(0));
    FarRepeatExactly(w, k, Elems(FarRun()[..8195]), k.Epoch(0), 3000000, 0);
    hide Genuine, Recent, Counters, Extend, InsertStep;
    SameOwner(w, k.Sent(0));
  }

  lemma SameOwner(w: Window, p: Packet)
    requires w.initialized
    ensures AcceptStep(w, p).0.initialized && AcceptStep(w, p).0.ssrc == w.ssrc
  {}

  lemma {:induction false} Deaf(k: Clock, cs: seq<nat>, more: seq<nat>)
    requires k.Lawful() && forall i | 0 <= i < |more| :: 2240000 <= more[i] <= 4465000
    requires var w := After(FRESH, Arrivals(k, cs));
             w.initialized && w.ssrc == k.ssrc && w.highest == k.time(0) - k.Epoch(0) + TWO32
    ensures After(FRESH, Arrivals(k, cs + more)) == After(FRESH, Arrivals(k, cs))
  {
    hide After, AcceptStep;
    if more == [] {
      assert cs + more == cs;
    } else {
      var n := |more| - 1;
      Deaf(k, cs, more[..n]);
      var all, i := cs + more, |cs| + n;
      assert Arrivals(k, all)[..i] == Arrivals(k, cs + more[..n]);
      assert Arrivals(k, all)[..i + 1] == Arrivals(k, all);
      AfterNext(FRESH, Arrivals(k, all), i);
      assert all[i] == more[n] && k.Ticks(0, more[n]);
      EpochAligned(k, 0);
      TooOldNow(After(FRESH, Arrivals(k, cs)), k, k.Epoch(0), 0, more[n]);
    }
  }
}
