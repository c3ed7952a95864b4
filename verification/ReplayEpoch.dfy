/** What the first arrival fixes: packets from before the 32-bit epoch in which the window opened, and what they do
    to it. */
module ReplayEpoch {
  import opened Words
  import opened Nonce
  import opened ReplayWindow
  import opened ReplayDelivery
  import opened Sets

  /** Near arrivals, from whichever epoch. */
  ghost predicate AllNear(cs: seq<nat>) {
    forall i | 0 <= i < |cs| :: Near(cs[..i], cs[i])
  }

  ghost predicate NoneBefore(k: Clock, cs: seq<nat>) {
    forall i | 0 <= i < |cs| :: k.time(cs[i]) >= k.Epoch(cs[0])
  }

  /** The window's highest time is the newest packet's, counted from the opening epoch. */
  ghost predicate InEpoch(k: Clock, cs: seq<nat>, n: nat, m: nat)
    requires 0 < n <= |cs|
  {
    IsNewest(m, Elems(cs[..n])) ==> After(FRESH, Arrivals(k, cs)[..n]).highest == k.time(m) - k.Epoch(cs[0])
  }

  ghost predicate StaysInEpoch(k: Clock, cs: seq<nat>) {
    forall n: nat, m: nat | 0 < n <= |cs| :: InEpoch(k, cs, n, m)
  }

  /** A new packet that the window places after its highest time moves that time there. */
  lemma NewMovesUp(w: Window, p: Packet, e: uint64)
    requires w.initialized && w.ssrc == p.ssrc && p.nonce !in w.seen
    requires Extend(w.highest, p.ts) == e && e > w.highest && e + SPAN < TWO64
    ensures AcceptStep(w, p).0.highest == e
  {
    hide Extend;
  }

  /** A packet from before the opening epoch moves the highest time almost 2^32 up. */
  lemma EarlyJumps(w: Window, k: Clock, arrived: set<nat>, off: nat, m: nat, c: nat)
    requires k.Lawful() && Tracks(w, k, arrived, off, m) && off % TWO32 == 0
    requires c !in arrived && c < TWO48 && m - c <= BEHIND && k.time(c) < off
    ensures AcceptStep(w, k.Sent(c)).0.highest == k.time(c) - off + TWO32 && c < m && k.time(m) - k.time(c) <= SPAN
  {
    assert k.Ticks(c, m) && k.Ticks(m, c) && k.Apart(m, m);
    var e := k.time(c) - off + TWO32;
    CutShift(e, off / TWO32 - 1);
    EarlyTime(w.highest, e);
    forall d | d in arrived ensures k.nonce(d) != k.nonce(c) {
      assert k.Apart(c, d);
    }
    hide Recent, Counters, AcceptStep, Extend;
    NewMovesUp(w, k.Sent(c), e);
  }

  lemma EarlyTime(highest: uint64, ts: uint32)
    requires highest <= SPAN && ts >= TWO32 - SPAN
    ensures Extend(highest, ts) == ts && ts > highest
  {}

  lemma FrontPlausible(k: Clock, cs: seq<nat>, i: nat)
    requires AllNear(cs) && i <= |cs| && forall j | 0 <= j < i :: k.time(cs[j]) >= k.Epoch(cs[0])
    ensures Plausible(k, cs[..i])
  {
    hide Near;
    forall j | 0 <= j < i
      ensures MayArrive(k, cs[..i][..j], cs[..i][j])
    {
      assert cs[..i][..j] == cs[..j];
    }
  }

  /** The window after `n` arrivals, all of the opening epoch or later. */
  lemma TracksFront(k: Clock, cs: seq<nat>, n: nat) returns (m: nat)
    requires k.Lawful() && AllNear(cs) && 0 < n <= |cs| && forall j | 0 <= j < n :: k.time(cs[j]) >= k.Epoch(cs[0])
    ensures Tracks(After(FRESH, Arrivals(k, cs)[..n]), k, Elems(cs[..n]), k.Epoch(cs[0]), m)
  {
    hide AllNear, After, Tracks;
    FrontPlausible(k, cs, n);
    m := RunTracks(k, cs[..n], n - 1);
    assert cs[..n][..n] == cs[..n];
    assert Arrivals(k, cs[..n])[..n] == Arrivals(k, cs)[..n];
  }

  /** The first packet from before the opening epoch takes the window out of it. */
  lemma LeavesEpoch(k: Clock, cs: seq<nat>, i: nat)
    requires k.Lawful() && AllNear(cs) && i < |cs| && k.time(cs[i]) < k.Epoch(cs[0])
    requires forall j | 0 <= j < i :: k.time(cs[j]) >= k.Epoch(cs[0])
    ensures !StaysInEpoch(k, cs)
  {
    hide AcceptStep, After, Tracks, InEpoch;
    var c, off, arrived := cs[i], k.Epoch(cs[0]), Elems(cs[..i]);
    assert Near(cs[..i], c);
    var m := TracksFront(k, cs, i);
    NewestOf(After(FRESH, Arrivals(k, cs)[..i]), k, arrived, off, m);
    hide AllNear;
    assert c !in cs[..i] && m in cs[..i];
    hide Near;
    EpochAligned(k, cs[0]);
    EarlyJumps(After(FRESH, Arrivals(k, cs)[..i]), k, arrived, off, m, c);
    AfterNext(FRESH, Arrivals(k, cs), i);
    ElemsNext(cs, i);
    OutOfEpoch(k, cs, i + 1, m);
  }

  lemma NewestOf(w: Window, k: Clock, arrived: set<nat>, off: nat, m: nat)
    requires Tracks(w, k, arrived, off, m)
    ensures IsNewest(m, arrived) && forall c | c in arrived :: off <= k.time(c)
  {}

  lemma OutOfEpoch(k: Clock, cs: seq<nat>, n: nat, m: nat)
    requires 0 < n <= |cs| && IsNewest(m, Elems(cs[..n]))
    requires After(FRESH, Arrivals(k, cs)[..n]).highest != k.time(m) - k.Epoch(cs[0])
    ensures !StaysInEpoch(k, cs)
  {
    hide After;
    assert !InEpoch(k, cs, n, m);
  }

  /** Over near arrivals the window counts from the epoch it opened in, at every moment, if and only if no packet from
      before that epoch arrives. */
  lemma EpochExactly(k: Clock, cs: seq<nat>)
    requires k.Lawful() && AllNear(cs)
    ensures StaysInEpoch(k, cs) <==> NoneBefore(k, cs)
  {
    if NoneBefore(k, cs) {
      forall n: nat, m: nat | 0 < n <= |cs|
        ensures InEpoch(k, cs, n, m)
      {
        hide After;
        var m' := TracksFront(k, cs, n);
      }
    } else {
      var i := FirstBefore(k, cs, 0);
      LeavesEpoch(k, cs, i);
    }
  }

  lemma {:induction false} FirstBefore(k: Clock, cs: seq<nat>, from: nat) returns (i: nat)
    requires !NoneBefore(k, cs) && from <= |cs| && forall j | 0 <= j < from :: k.time(cs[j]) >= k.Epoch(cs[0])
    ensures i < |cs| && k.time(cs[i]) < k.Epoch(cs[0])
    ensures forall j | 0 <= j < i :: k.time(cs[j]) >= k.Epoch(cs[0])
    decreases |cs| - from
  {
    if k.time(cs[from]) < k.Epoch(cs[0]) {
      i := from;
    } else {
      i := FirstBefore(k, cs, from + 1);
    }
  }

  // ---------- a repeat that is accepted ----------

  /** A sender whose packet 5000 falls 100 ticks after a wrap of the 32-bit timestamp. */
  function LateStarter(ssrc: uint32, initSeq: uint16): Sender {
    Sender(ssrc, initSeq, 4290167396)
  }

  /** The arrivals: 5000 opens the window, then 904 to 9096 without it, then 5000 again. */
  function Late(j: nat): nat {
    if j == 0 || j == 8193 then 5000 else if j <= 4096 then 903 + j else 904 + j
  }

  function LateRun(): (cs: seq<nat>)
    ensures |cs| == 8194 && forall j | 0 <= j < 8194 :: cs[j] == Late(j)
  {
    seq(8194, j requires 0 <= j < 8194 => Late(j))
  }

  /** The window while it fills: packet 5000 is stored 2^32 below its place. */
  ghost predicate Filling(w: Window, k: Clock, j: nat) {
    && w.initialized && w.ssrc == k.ssrc && w.highest == k.time(Late(j)) && |w.seen| == j + 1
    && k.nonce(5000) in w.seen && w.seen[k.nonce(5000)] == 100
    && k.nonce(904) in w.seen && w.seen[k.nonce(904)] == k.time(904)
    && OnlyLate(w.seen, k, j)
  }

  ghost predicate OnlyLate(seen: map<bytes, uint64>, k: Clock, j: nat) {
    forall n | n in seen :: exists i: nat :: i <= j && n == k.nonce(Late(i))
  }

  /** The late starter's clock on these counters. */
  ghost predicate LateClock(k: Clock) {
    k.Lawful() && forall c: nat | c <= 9096 :: k.time(c) == 4290167396 + 960 * c
  }

  lemma IsLateClock(ssrc: uint32, initSeq: uint16)
    ensures LateStarter(ssrc, initSeq).Valid() && LateClock(ClockOf(LateStarter(ssrc, initSeq)))
  {
    var s := LateStarter(ssrc, initSeq);
    SenderIsLawful(s);
    var k := ClockOf(s);
    hide Clock.Lawful;
    forall c: nat | c <= 9096
      ensures k.time(c) == 4290167396 + 960 * c
    {
      assert c / TWO16 == 0;
    }
  }

  /** A packet newer than the highest and not seen is stored at its time while there is room. */
  lemma NewStored(w: Window, k: Clock, c: nat)
    requires w.initialized && w.ssrc == k.ssrc && |w.seen| < MAX_ENTRIES && k.nonce(c) !in w.seen
    requires w.highest <= k.time(c) && k.time(c) - w.highest < TWO31 && w.highest + TWO32 < TWO64
    ensures AcceptStep(w, k.Sent(c)) == (w.(highest := k.time(c), seen := w.seen[k.nonce(c) := k.time(c)]), true)
  {
    UnwrapExact(w.highest, k.time(c));
  }

  lemma FillBegins(k: Clock)
    requires LateClock(k)
    ensures var w := AcceptStep(FRESH, k.Sent(5000)).0; Filling(AcceptStep(w, k.Sent(904)).0, k, 1)
    ensures AcceptStep(FRESH, k.Sent(5000)).1
  {
    var w := AcceptStep(FRESH, k.Sent(5000)).0;
    UnwrapExact(100, 100);
    assert w == Window(true, k.ssrc, 100, map[k.nonce(5000) := 100]);
    assert k.Apart(904, 5000);
    EarlyTime(100, k.time(904));
    assert k.time(904) % TWO32 == k.time(904);
    var v := AcceptStep(w, k.Sent(904)).0;
    assert v == Window(true, k.ssrc, k.time(904), map[k.nonce(5000) := 100, k.nonce(904) := k.time(904)]);
    assert k.nonce(5000) == k.nonce(Late(0)) && k.nonce(904) == k.nonce(Late(1));
  }

  lemma NotYetSeen(seen: map<bytes, uint64>, k: Clock, j: nat)
    requires LateClock(k) && OnlyLate(seen, k, j) && 0 < j < 8192
    ensures k.nonce(Late(j + 1)) !in seen
  {
    var c := Late(j + 1);
    forall i: nat | i <= j
      ensures k.nonce(Late(i)) != k.nonce(c)
    {
      assert k.Apart(c, Late(i));
    }
  }

  lemma FillStep(w: Window, k: Clock, j: nat)
    requires LateClock(k) && 1 <= j < 8191 && Filling(w, k, j)
    ensures Filling(AcceptStep(w, k.Sent(Late(j + 1))).0, k, j + 1)
  {
    var c := Late(j + 1);
    NotYetSeen(w.seen, k, j);
    NewStored(w, k, c);
    hide AcceptStep;
    var seen := w.seen[k.nonce(c) := k.time(c)];
    forall n | n in seen
      ensures exists i: nat :: i <= j + 1 && n == k.nonce(Late(i))
    {
      if n != k.nonce(c) {
        assert n in w.seen;
      }
    }
  }

  lemma {:induction false} FillsUp(k: Clock, j: nat)
    requires LateClock(k) && 1 <= j <= 8191
    ensures Filling(After(FRESH, Arrivals(k, LateRun())[..j + 1]), k, j)
  {
    hide AcceptStep, Filling, LateClock;
    var ps := Arrivals(k, LateRun());
    AfterNext(FRESH, ps, j);
    if j == 1 {
      AfterNext(FRESH, ps, 0);
      NoneYet(ps[..0]);
      FillBegins(k);
    } else {
      FillsUp(k, j - 1);
      FillStep(After(FRESH, ps[..j]), k, j - 1);
    }
  }

  lemma PurgeSize(seen: map<bytes, uint64>, cutoff: uint64, a: bytes, b: bytes)
    requires a in seen && b in seen && a != b && seen[a] < cutoff && seen[b] < cutoff
    ensures a !in Kept(seen, cutoff) && |Kept(seen, cutoff)| <= |seen| - 2
  {
    SubsetSize(Kept(seen, cutoff).Keys, seen.Keys - {a, b});
    assert |seen.Keys - {a, b}| == |seen.Keys| - 2;
  }

  /** The entry that fills the map purges packet 5000 with the packets that really are old. */
  lemma Purged(w: Window, k: Clock)
    requires LateClock(k) && Filling(w, k, 8191)
    ensures var v := AcceptStep(w, k.Sent(9096)).0;
            && v.initialized && v.ssrc == k.ssrc && v.highest == k.time(9096)
            && |v.seen| < MAX_ENTRIES && k.nonce(5000) !in v.seen
  {
    NotYetSeen(w.seen, k, 8191);
    UnwrapExact(w.highest, k.time(9096));
    assert k.Apart(904, 5000) && k.Apart(9096, 5000);
    var e: uint64 := k.time(9096);
    assert AcceptStep(w, k.Sent(9096)) == Stored(Evicted(w, e), k.nonce(9096), e);
    hide AcceptStep, OnlyLate, Clock.Lawful, Kept;
    PurgeSize(w.seen, Cutoff(e), k.nonce(5000), k.nonce(904));
  }

  lemma AcceptedAgain(w: Window, k: Clock)
    requires LateClock(k) && w.initialized && w.ssrc == k.ssrc && w.highest == k.time(9096)
    requires |w.seen| < MAX_ENTRIES && k.nonce(5000) !in w.seen
    ensures AcceptStep(w, k.Sent(5000)).1
  {
    UnwrapExact(w.highest, k.time(5000));
  }

  lemma LateRunNear()
    ensures AllNear(LateRun())
  {
    var cs := LateRun();
    forall i | 0 <= i < |cs|
      ensures Near(cs[..i], cs[i])
    {
      var front := cs[..i];
      assert forall d | d in front :: exists j: nat :: j < i && d == Late(j);
      if i > 0 {
        assert front[0] == 5000;
        assert 5000 in front;
      }
    }
  }

  /** Near arrivals of one sender, at most 4096 packets behind and all within 2^31 ticks, of which the first is accepted
      a second time: packet 904 is from before the epoch that packet 5000 opened the window in. */
  lemma RepeatAccepted(ssrc: uint32, initSeq: uint16)
    ensures var k, cs := ClockOf(LateStarter(ssrc, initSeq)), LateRun();
            && k.Lawful() && AllNear(cs) && cs[8193] == cs[0]
            && Accepted(FRESH, Arrivals(k, cs), 0) && Accepted(FRESH, Arrivals(k, cs), 8193)
            && k.time(cs[1]) < k.Epoch(cs[0])
  {
    hide Accepted, LateClock, Clock.Lawful;
    IsLateClock(ssrc, initSeq);
    LateRunNear();
    var k := ClockOf(LateStarter(ssrc, initSeq));
    AcceptedTwice(k);
    LateTimes(k);
  }

  lemma LateTimes(k: Clock)
    requires LateClock(k)
    ensures k.Lawful() && k.time(LateRun()[1]) < k.Epoch(LateRun()[0])
  {
    assert k.time(5000) == TWO32 + 100;
  }

  lemma AcceptedTwice(k: Clock)
    requires LateClock(k)
    ensures Accepted(FRESH, Arrivals(k, LateRun()), 0) && Accepted(FRESH, Arrivals(k, LateRun()), 8193)
  {
    hide AcceptStep, Filling, LateClock, After;
    var ps := Arrivals(k, LateRun());
    NoneYet(ps[..0]);
    FillBegins(k);
    FillsUp(k, 8191);
    AfterNext(FRESH, ps, 8192);
    Purged(After(FRESH, ps[..8192]), k);
    AcceptedAgain(After(FRESH, ps[..8193]), k);
  }
}
