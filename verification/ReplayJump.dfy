/** The window after a packet from before the epoch it opened in: what it still accepts, and what it accepts twice. */
module ReplayJump {
  import opened Words
  import opened Nonce
  import opened ReplayWindow
  import opened ReplayDelivery
  import opened ReplayEpoch
  import opened ReplayFar

  /** An entry of a packet that came since the jump, at its true time. */
  ghost predicate NewEntry(k: Clock, since: set<nat>, off: nat, n: bytes, e: uint64) {
    exists c :: c in since && n == k.nonce(c) && e == k.time(c) - off
  }

  /** An entry of a packet that came before the jump, 2^32 below its true time. */
  ghost predicate OldEntry(k: Clock, before: set<nat>, n: bytes, e: uint64) {
    e <= SPAN && exists c :: c in before && n == k.nonce(c)
  }

  ghost predicate Entries(seen: map<bytes, uint64>, k: Clock, before: set<nat>, since: set<nat>, off: nat) {
    forall n | n in seen :: NewEntry(k, since, off, n, seen[n]) || OldEntry(k, before - since, n, seen[n])
  }

  /** The entries of the packets from before the jump are all there until the map is full, and then all gone. */
  ghost predicate AllOrNone(seen: map<bytes, uint64>, k: Clock, before: set<nat>, since: set<nat>) {
    if |before| + |since| <= MAX_ENTRIES then
      before !! since && |seen| == |before| + |since| && forall c | c in before :: k.nonce(c) in seen
    else
      forall c | c in before - since :: k.nonce(c) !in seen
  }

  /** The packets from before the jump: little newer than the newest packet since. */
  ghost predicate Past(k: Clock, before: set<nat>, m: nat) {
    forall d | d in before :: d < TWO48 && d - m <= BEHIND
  }

  /** The window after the jump, with times counted from `off`: it tracks the packets it has taken since. */
  ghost predicate Jumped(w: Window, k: Clock, before: set<nat>, since: set<nat>, off: nat, m: nat) {
    && w.initialized && w.ssrc == k.ssrc && |w.seen| <= MAX_ENTRIES
    && off % TWO32 == 0 && w.highest >= TWO32 - SPAN
    && Counters(k, since, off) && IsNewest(m, since) && w.highest == k.time(m) - off
    && Past(k, before, m) && Recent(w.seen, k, since, m)
    && Entries(w.seen, k, before, since, off) && AllOrNone(w.seen, k, before, since)
  }

  /** What the window takes after the jump: first copies, and once more each packet from before the jump that is still
      recent when the map has been purged. */
  ghost predicate Taken(k: Clock, before: set<nat>, since: set<nat>, c: nat) {
    && c !in since
    && (c in before ==> |before| + |since| > MAX_ENTRIES && forall d | d in since :: k.time(c) + SPAN >= k.time(d))
  }

  /** Packet `c` has not been taken since the jump, and if it came before it, its entry is gone. */
  ghost predicate Untaken(before: set<nat>, since: set<nat>, c: nat) {
    c !in since && (c in before ==> |before| + |since| > MAX_ENTRIES)
  }

  // ---------- one packet after the jump ----------

  /** The window gives every packet its true time. */
  lemma TimeAfter(w: Window, k: Clock, off: nat, m: nat, c: nat)
    requires k.Lawful() && m < TWO48 && c < TWO48 && off % TWO32 == 0 && off <= k.time(m)
    requires w.highest == k.time(m) - off >= TWO32 - SPAN && 961 * (m - c) < TWO31 && 961 * (c - m) < TWO31
    ensures off <= k.time(c) && k.time(c) + TWO32 < TWO64 && Extend(w.highest, k.time(c) % TWO32) == k.time(c) - off
  {
    assert k.Ticks(c, m) && k.Ticks(m, c) && k.Apart(m, m) && k.Apart(c, c);
    CutShift(k.time(c) - off, off / TWO32);
    UnwrapExact(w.highest, k.time(c) - off);
  }

  ghost predicate Below48(cs: set<nat>) {
    forall c | c in cs :: c < TWO48
  }

  lemma NonceOfOne(k: Clock, cs: set<nat>, c: nat)
    requires k.Lawful() && Below48(cs) && c < TWO48 && c !in cs
    ensures forall d | d in cs :: k.nonce(d) != k.nonce(c)
  {
    forall d | d in cs
      ensures k.nonce(d) != k.nonce(c)
    {
      assert k.Apart(c, d);
    }
  }

  /** A packet that has not come at all has no entry. */
  lemma NewHasNone(w: Window, k: Clock, before: set<nat>, since: set<nat>, off: nat, m: nat, c: nat)
    requires k.Lawful() && Jumped(w, k, before, since, off, m) && c !in before && c !in since && c < TWO48
    ensures k.nonce(c) !in w.seen
  {
    NonceOfOne(k, before, c);
    NonceOfOne(k, since, c);
    hide Clock.Lawful, Recent, AllOrNone;
  }

  /** A purge since the jump leaves only packets taken since the jump. */
  lemma PurgedEntries(seen: map<bytes, uint64>, k: Clock, before: set<nat>, since: set<nat>, off: nat, cutoff: uint64)
    requires k.Lawful() && Entries(seen, k, before, since, off) && cutoff > SPAN && Below48(before) && Below48(since)
    ensures Genuine(Kept(seen, cutoff), k, since, off)
    ensures forall c | c in before - since :: k.nonce(c) !in Kept(seen, cutoff)
  {
    var kept := Kept(seen, cutoff);
    forall n | n in kept
      ensures exists c :: c in since && n == k.nonce(c) && kept[n] == k.time(c) - off
    {
      assert NewEntry(k, since, off, n, seen[n]);
    }
    forall c | c in before - since
      ensures k.nonce(c) !in kept
    {
      NonceOfOne(k, since, c);
    }
  }

  lemma GenuineEntries(seen: map<bytes, uint64>, k: Clock, before: set<nat>, since: set<nat>, off: nat)
    requires Genuine(seen, k, since, off)
    ensures Entries(seen, k, before, since, off)
  {
    forall n | n in seen
      ensures NewEntry(k, since, off, n, seen[n])
    {
    }
  }

  lemma EntriesMore(seen: map<bytes, uint64>, k: Clock, before: set<nat>, since: set<nat>, off: nat, c: nat, e: uint64)
    requires k.Lawful() && Entries(seen, k, before, since, off) && Below48(before) && c < TWO48
    requires off <= k.time(c) && e == k.time(c) - off && k.nonce(c) !in seen
    ensures Entries(seen[k.nonce(c) := e], k, before, since + {c}, off)
  {
    var next, now := seen[k.nonce(c) := e], since + {c};
    forall n | n in next
      ensures NewEntry(k, now, off, n, next[n]) || OldEntry(k, before - now, n, next[n])
    {
      if n == k.nonce(c) {
        assert c in now;
      } else if NewEntry(k, since, off, n, seen[n]) {
        var d :| d in since && n == k.nonce(d) && seen[n] == k.time(d) - off;
        assert d in now;
      } else {
        var d :| d in before - since && n == k.nonce(d);
        assert d in before - now;
      }
    }
  }

  lemma AllOrNoneMore(seen: map<bytes, uint64>, k: Clock, before: set<nat>, since: set<nat>, c: nat, e: uint64)
    requires k.Lawful() && AllOrNone(seen, k, before, since) && Below48(before) && c < TWO48
    requires |seen| < MAX_ENTRIES && k.nonce(c) !in seen && c !in since
    requires c in before ==> |before| + |since| > MAX_ENTRIES
    ensures AllOrNone(seen[k.nonce(c) := e], k, before, since + {c})
  {
    var next := seen[k.nonce(c) := e];
    assert next.Keys == seen.Keys + {k.nonce(c)};
    NonceOfOne(k, before - {c}, c);
  }

  lemma NoneMore(seen: map<bytes, uint64>, k: Clock, before: set<nat>, since: set<nat>, c: nat, e: uint64)
    requires k.Lawful() && Below48(before) && c < TWO48 && c !in since && |before| + |since| >= MAX_ENTRIES
    requires forall d | d in before - since :: k.nonce(d) !in seen
    ensures AllOrNone(seen[k.nonce(c) := e], k, before, since + {c})
  {
    NonceOfOne(k, before - {c}, c);
  }

  lemma RecentMore(seen: map<bytes, uint64>, k: Clock, since: set<nat>, m: nat, c: nat, e: uint64)
    requires Recent(seen, k, since, m)
    ensures Recent(seen[k.nonce(c) := e], k, since + {c}, m)
  {}

  lemma RecentPurged(seen: map<bytes, uint64>, k: Clock, before: set<nat>, since: set<nat>, off: nat, m: nat)
    requires k.Lawful() && Entries(seen, k, before, since, off) && Recent(seen, k, since, m)
    requires Below48(before) && Counters(k, since, off) && off <= k.time(m) < TWO64
    ensures Recent(Kept(seen, Cutoff(k.time(m) - off)), k, since, m)
  {
    forall c | c in since && k.nonce(c) in seen
      ensures k.nonce(c) in Kept(seen, Cutoff(k.time(m) - off)) || k.time(c) + SPAN < k.time(m)
    {
      NonceOfOne(k, before - since, c);
      var n := k.nonce(c);
      assert NewEntry(k, since, off, n, seen[n]);
      var d :| d in since && n == k.nonce(d) && seen[n] == k.time(d) - off;
      assert k.Apart(c, d);
    }
  }

  /** What a window that may have been purged still knows, when packet `c` makes the newest `m`. */
  ghost predicate Ready(seen: map<bytes, uint64>, k: Clock, before: set<nat>, since: set<nat>, off: nat, m: nat) {
    && |seen| < MAX_ENTRIES && Entries(seen, k, before, since, off) && Recent(seen, k, since, m)
    && (AllOrNone(seen, k, before, since) ||
        (|before| + |since| >= MAX_ENTRIES && forall d | d in before - since :: k.nonce(d) !in seen))
  }

  lemma ReadyAfter(w: Window, k: Clock, before: set<nat>, since: set<nat>, off: nat, m: nat, m': nat, h: uint64)
    requires k.Lawful() && Jumped(w, k, before, since, off, m) && k.time(m) <= k.time(m') < TWO64
    requires h == k.time(m') - off && m <= m'
    ensures Ready(Evicted(w, h).seen, k, before, since, off, m')
  {
    RecentLater(w.seen, k, since, m, m');
    if |w.seen| >= MAX_ENTRIES {
      hide Recent, Entries, Clock.Lawful, Genuine, Kept;
      PurgedEntries(w.seen, k, before, since, off, Cutoff(h));
      GenuineEntries(Kept(w.seen, Cutoff(h)), k, before, since, off);
      RecentPurged(w.seen, k, before, since, off, m');
      KeptAbove(w.seen, Cutoff(h));
      EvictionBound(k, Kept(w.seen, Cutoff(h)), since, off, m');
    }
  }

  lemma KeptAbove(seen: map<bytes, uint64>, cutoff: uint64)
    ensures forall n | n in Kept(seen, cutoff) :: Kept(seen, cutoff)[n] >= cutoff
  {}

  /** The window when packet `c`, which makes the newest `m`, is to be stored. */
  ghost predicate Storable(w: Window, k: Clock, before: set<nat>, since: set<nat>, off: nat, m: nat, c: nat) {
    && w.initialized && w.ssrc == k.ssrc && Ready(w.seen, k, before, since, off, m)
    && Counters(k, since, off) && Past(k, before, m) && c < TWO48 && k.nonce(c) !in w.seen
    && off % TWO32 == 0 && off <= k.time(c) < TWO64 && IsNewest(m, since + {c})
    && w.highest == k.time(m) - off >= TWO32 - SPAN && Untaken(before, since, c)
  }

  lemma StoreEntries(w: Window, k: Clock, before: set<nat>, since: set<nat>, off: nat, m: nat, c: nat)
    requires k.Lawful() && Storable(w, k, before, since, off, m, c)
    ensures var seen := w.seen[k.nonce(c) := k.time(c) - off];
            && Entries(seen, k, before, since + {c}, off) && Recent(seen, k, since + {c}, m)
            && AllOrNone(seen, k, before, since + {c})
  {
    var e: uint64 := k.time(c) - off;
    PastBelow(k, before, m);
    hide Recent, Entries, Clock.Lawful, AllOrNone, Past, Counters, IsNewest;
    EntriesMore(w.seen, k, before, since, off, c, e);
    RecentMore(w.seen, k, since, m, c, e);
    if AllOrNone(w.seen, k, before, since) {
      AllOrNoneMore(w.seen, k, before, since, c, e);
    } else {
      NoneMore(w.seen, k, before, since, c, e);
    }
  }

  lemma StoreJumped(w: Window, k: Clock, before: set<nat>, since: set<nat>, off: nat, m: nat, c: nat)
    requires k.Lawful() && Storable(w, k, before, since, off, m, c)
    ensures Stored(w, k.nonce(c), k.time(c) - off).1
    ensures Jumped(Stored(w, k.nonce(c), k.time(c) - off).0, k, before, since + {c}, off, m)
  {
    StoreEntries(w, k, before, since, off, m, c);
    SizeMore(w.seen, k.nonce(c), k.time(c) - off);
    hide Recent, Entries, Clock.Lawful, AllOrNone, Past, IsNewest, Untaken;
    CountersMore(k, since, off, c);
    hide Counters;
  }

  lemma PastBelow(k: Clock, before: set<nat>, m: nat)
    requires Past(k, before, m)
    ensures Below48(before)
  {}

  lemma CountersMore(k: Clock, since: set<nat>, off: nat, c: nat)
    requires Counters(k, since, off) && c < TWO48 && off <= k.time(c)
    ensures Counters(k, since + {c}, off)
  {}

  lemma SizeMore(seen: map<bytes, uint64>, n: bytes, e: uint64)
    ensures |seen[n := e]| <= |seen| + 1
  {
    assert seen[n := e].Keys == seen.Keys + {n};
  }

  lemma InsertJumped(w: Window, k: Clock, before: set<nat>, since: set<nat>, off: nat, m: nat, c: nat) returns (m': nat)
    requires k.Lawful() && Jumped(w, k, before, since, off, m) && c < TWO48 && k.nonce(c) !in w.seen
    requires off <= k.time(c) < TWO64 && Untaken(before, since, c)
    ensures InsertStep(w, k.nonce(c), k.time(c) - off).1
    ensures Jumped(InsertStep(w, k.nonce(c), k.time(c) - off).0, k, before, since + {c}, off, m')
  {
    JumpedMeans(w, k, before, since, off, m);
    hide Jumped, Clock.Lawful, InsertStep, Past, Counters, IsNewest, Untaken;
    m' := NewerOf(k, since, m, c);
    assert Newer(k, since, m, c, m');
    hide Newer;
    InsertAt(w, k, before, since, off, m, c, m');
  }

  ghost predicate Newer(k: Clock, since: set<nat>, m: nat, c: nat, m': nat) {
    && m <= m' && IsNewest(m', since + {c}) && k.time(m) <= k.time(m') < TWO64
    && k.time(m') == if k.time(c) > k.time(m) then k.time(c) else k.time(m)
  }

  lemma EvictedStorable(w: Window, k: Clock, before: set<nat>, since: set<nat>, off: nat, m: nat, c: nat, m': nat)
    requires k.Lawful() && Jumped(w, k, before, since, off, m) && c < TWO48 && k.nonce(c) !in w.seen
    requires off <= k.time(c) < TWO64 && Untaken(before, since, c) && Newer(k, since, m, c, m') && off <= k.time(m')
    ensures Storable(Evicted(w, k.time(m') - off), k, before, since, off, m', c)
  {
    hide Jumped, Clock.Lawful, Ready, Counters, IsNewest, Untaken, Past;
    var h: uint64 := k.time(m') - off;
    ReadyAfter(w, k, before, since, off, m, m', h);
    JumpedMeans(w, k, before, since, off, m);
    PastLater(k, before, m, m');
    EvictedLess(w, h, k.nonce(c));
    hide Evicted;
  }

  lemma InsertAt(w: Window, k: Clock, before: set<nat>, since: set<nat>, off: nat, m: nat, c: nat, m': nat)
    requires k.Lawful() && Jumped(w, k, before, since, off, m) && c < TWO48 && k.nonce(c) !in w.seen
    requires off <= k.time(c) < TWO64 && Untaken(before, since, c) && Newer(k, since, m, c, m') && off <= k.time(m')
    requires k.time(m') < TWO64
    requires k.time(m') - off == if k.time(c) - off > w.highest then k.time(c) - off else w.highest
    ensures InsertStep(w, k.nonce(c), k.time(c) - off).1
    ensures Jumped(InsertStep(w, k.nonce(c), k.time(c) - off).0, k, before, since + {c}, off, m')
  {
    hide Jumped, Clock.Lawful, InsertStep, Stored, Evicted, Storable, Untaken, Newer;
    var e: uint64, h: uint64 := k.time(c) - off, k.time(m') - off;
    InsertAs(w, k.nonce(c), e, h);
    EvictedStorable(w, k, before, since, off, m, c, m');
    StoreJumped(Evicted(w, h), k, before, since, off, m', c);
  }

  lemma JumpedMeans(w: Window, k: Clock, before: set<nat>, since: set<nat>, off: nat, m: nat)
    requires Jumped(w, k, before, since, off, m)
    ensures w.initialized && w.ssrc == k.ssrc && off % TWO32 == 0
    ensures m < TWO48 && off <= k.time(m) && w.highest == k.time(m) - off >= TWO32 - SPAN
    ensures Counters(k, since, off) && IsNewest(m, since) && Past(k, before, m)
  {
    hide Recent, Entries, AllOrNone;
  }

  lemma PastLater(k: Clock, before: set<nat>, m: nat, m': nat)
    requires Past(k, before, m) && m <= m'
    ensures Past(k, before, m')
  {}

  lemma EvictedLess(w: Window, h: uint64, n: bytes)
    requires n !in w.seen
    ensures n !in Evicted(w, h).seen
  {}

  lemma AcceptAt(w: Window, p: Packet, e: uint64)
    requires w.initialized && w.ssrc == p.ssrc && p.nonce !in w.seen && Extend(w.highest, p.ts) == e && e + SPAN < TWO64
    ensures AcceptStep(w, p) == if e + SPAN < w.highest then (w, false) else InsertStep(w, p.nonce, e)
  {
    hide Extend, InsertStep;
  }

  /** Recent enough for the window means recent enough for every packet taken since. */
  lemma RecentForAll(k: Clock, since: set<nat>, m: nat, c: nat)
    requires k.Lawful() && IsNewest(m, since)
    ensures k.time(c) + SPAN >= k.time(m) <==> forall d | d in since :: k.time(c) + SPAN >= k.time(d)
  {
    forall d | d in since
      ensures k.time(d) <= k.time(m)
    {
      assert k.Ticks(d, m);
    }
  }

  /** Whether a packet from before the jump still has its entry. */
  lemma OldKnown(w: Window, k: Clock, before: set<nat>, since: set<nat>, off: nat, m: nat, c: nat)
    requires Jumped(w, k, before, since, off, m) && c in before && c !in since
    ensures k.nonce(c) in w.seen <==> |before| + |since| <= MAX_ENTRIES
  {
    hide Entries, Recent;
  }

  /** A packet taken since the jump is refused: its nonce is stored, or it is too old. */
  lemma SinceRefused(w: Window, k: Clock, before: set<nat>, since: set<nat>, off: nat, m: nat, c: nat)
    requires k.Lawful() && Jumped(w, k, before, since, off, m) && c in since && 961 * (m - c) < TWO31
    ensures AcceptStep(w, k.Sent(c)) == (w, false)
  {
    TimeAfter(w, k, off, m, c);
    assert k.nonce(c) in w.seen || k.time(c) + SPAN < k.time(m);
    hide Entries, Recent, AllOrNone, Clock.Lawful, AcceptStep, Extend;
    if k.nonce(c) in w.seen {
      StoredRefused(w, k.Sent(c));
    } else {
      AcceptAt(w, k.Sent(c), k.time(c) - off);
    }
  }

  /** One packet after the jump. */
  lemma JumpStep(w: Window, k: Clock, before: set<nat>, since: set<nat>, off: nat, m: nat, c: nat) returns (m': nat)
    requires k.Lawful() && Jumped(w, k, before, since, off, m) && c < TWO48 && 961 * (m - c) < TWO31
    requires c !in before && c !in since ==> m - c <= BEHIND && 961 * (c - m) < TWO31
    ensures AcceptStep(w, k.Sent(c)).1 <==> Taken(k, before, since, c)
    ensures Jumped(AcceptStep(w, k.Sent(c)).0, k, before,
                   if Taken(k, before, since, c) then since + {c} else since, off, m')
  {
    m' := m;
    hide Jumped, AcceptStep, Extend, InsertStep, Clock.Lawful;
    if c in since {
      SinceRefused(w, k, before, since, off, m, c);
    } else {
      JumpedMeans(w, k, before, since, off, m);
      hide Counters, Past, IsNewest;
      RecentForAll(k, since, m, c);
      if c in before {
        OldKnown(w, k, before, since, off, m, c);
        PastAt(k, before, m, c);
      } else {
        NewHasNone(w, k, before, since, off, m, c);
        NotTooOld(k, m, c);
      }
      if k.nonce(c) in w.seen {
        StoredRefused(w, k.Sent(c));
      } else {
        TimeAfter(w, k, off, m, c);
        AcceptAt(w, k.Sent(c), k.time(c) - off);
        if k.time(c) + SPAN >= k.time(m) {
          m' := InsertJumped(w, k, before, since, off, m, c);
        }
      }
    }
  }

  lemma PastAt(k: Clock, before: set<nat>, m: nat, c: nat)
    requires Past(k, before, m) && c in before
    ensures c < TWO48 && 961 * (c - m) < TWO31
  {}

  lemma NotTooOld(k: Clock, m: nat, c: nat)
    requires k.Lawful() && m - c <= BEHIND
    ensures k.time(c) + SPAN >= k.time(m)
  {
    assert k.Ticks(c, m) && k.Ticks(m, c);
  }

  // ---------- the jump itself ----------

  /** As many nonces as counters. */
  lemma {:induction false} ImageSize(k: Clock, cs: set<nat>, nonces: set<bytes>)
    requires k.Lawful() && Below48(cs) && (forall c | c in cs :: k.nonce(c) in nonces)
    requires forall n | n in nonces :: exists c :: c in cs && n == k.nonce(c)
    ensures |nonces| == |cs|
    decreases cs
  {
    if cs == {} {
      assert nonces == {};
    } else {
      var c :| c in cs;
      var fewer, rest := cs - {c}, nonces - {k.nonce(c)};
      NonceOfOne(k, fewer, c);
      forall n | n in rest
        ensures exists d :: d in fewer && n == k.nonce(d)
      {
        var d :| d in cs && n == k.nonce(d);
        assert d in fewer;
      }
      ImageSize(k, fewer, rest);
    }
  }

  /** A window all of whose packets are recent has forgotten none of them. */
  lemma NoneForgotten(w: Window, k: Clock, arrived: set<nat>, off: nat, m: nat)
    requires k.Lawful() && Tracks(w, k, arrived, off, m) && w.highest <= SPAN
    ensures |w.seen| == |arrived| <= 4101 && forall c | c in arrived :: k.nonce(c) in w.seen
  {
    EvictionBound(k, w.seen, arrived, off, m);
    forall n | n in w.seen.Keys
      ensures exists c :: c in arrived && n == k.nonce(c)
    {
    }
    ImageSize(k, arrived, w.seen.Keys);
  }

  lemma OldEntries(w: Window, k: Clock, arrived: set<nat>, off: nat, m: nat)
    requires k.Lawful() && Tracks(w, k, arrived, off, m) && w.highest <= SPAN && off >= TWO32
    ensures Entries(w.seen, k, arrived, {}, off - TWO32)
  {
    assert arrived - {} == arrived;
    forall n | n in w.seen
      ensures OldEntry(k, arrived, n, w.seen[n])
    {
      var d :| d in arrived && n == k.nonce(d) && w.seen[n] == k.time(d) - off;
      assert k.Ticks(d, m);
    }
  }

  lemma EarlyPast(w: Window, k: Clock, arrived: set<nat>, off: nat, m: nat, c: nat)
    requires k.Lawful() && Tracks(w, k, arrived, off, m) && off % TWO32 == 0 && c !in arrived && c < TWO48
    requires m - c <= BEHIND && k.time(c) < off
    ensures off >= TWO32 && w.highest <= SPAN && Past(k, arrived, c) && k.nonce(c) !in w.seen
    ensures off - TWO32 <= k.time(c) < TWO64 && w.initialized && w.ssrc == k.ssrc
    ensures var e := k.time(c) - off + TWO32; e >= TWO32 - SPAN && Extend(w.highest, k.time(c) % TWO32) == e > w.highest
  {
    assert k.Ticks(c, m) && k.Ticks(m, c) && k.Apart(m, m);
    var e := k.time(c) - off + TWO32;
    CutShift(e, off / TWO32 - 1);
    EarlyTime(w.highest, e);
    FirstIsNew(w, k, arrived, off, m, c);
    hide Extend;
  }

  lemma JumpStorable(w: Window, k: Clock, arrived: set<nat>, off: nat, c: nat)
    requires w.initialized && w.ssrc == k.ssrc && |w.seen| == |arrived| <= 4101 && c < TWO48 && k.nonce(c) !in w.seen
    requires forall d | d in arrived :: k.nonce(d) in w.seen
    requires Entries(w.seen, k, arrived, {}, off) && Past(k, arrived, c) && c !in arrived
    requires off % TWO32 == 0 && off <= k.time(c) < TWO64 && k.time(c) - off >= TWO32 - SPAN
    ensures Storable(w.(highest := k.time(c) - off), k, arrived, {}, off, c, c)
  {
    hide Entries, Past;
    assert AllOrNone(w.seen, k, arrived, {});
  }

  /** A packet from before the opening epoch is accepted, and the window starts again from it, an epoch lower. */
  lemma JumpBegins(w: Window, k: Clock, arrived: set<nat>, off: nat, m: nat, c: nat)
    requires k.Lawful() && Tracks(w, k, arrived, off, m) && off % TWO32 == 0 && c !in arrived && c < TWO48
    requires m - c <= BEHIND && k.time(c) < off
    ensures off >= TWO32 && AcceptStep(w, k.Sent(c)).1
    ensures Jumped(AcceptStep(w, k.Sent(c)).0, k, arrived, {c}, off - TWO32, c)
  {
    hide Clock.Lawful, Tracks, AcceptStep, Extend, Past, Entries, Stored, Jumped, Storable, InsertStep, Kept;
    EarlyPast(w, k, arrived, off, m, c);
    NoneForgotten(w, k, arrived, off, m);
    OldEntries(w, k, arrived, off, m);
    var off', e: uint64 := off - TWO32, k.time(c) - off + TWO32;
    JumpStorable(w, k, arrived, off', c);
    AcceptAt(w, k.Sent(c), e);
    InsertAs(w, k.nonce(c), e, e);
    assert Evicted(w, e) == w.(highest := e);
    hide Evicted;
    assert {} + {c} == {c};
    StoreJumped(w.(highest := e), k, arrived, {}, off', c, c);
  }

  // ---------- whole runs ----------

  /** Near packets, with the limit on how far ahead a first copy may be lowered by the window's span. */
  ghost predicate Close(cs: seq<nat>, c: nat) {
    Near(cs, c) && (c !in cs && cs != [] ==> exists d :: d in cs && 961 * (c - d) + SPAN < TWO31)
  }

  ghost predicate AllClose(cs: seq<nat>) {
    forall i: nat | i < |cs| :: Close(cs[..i], cs[i])
  }

  /** Packet `i` of the run is the first from before the epoch the window opened in. */
  ghost predicate FirstEarly(k: Clock, cs: seq<nat>, i: nat) {
    && i < |cs| && k.time(cs[i]) < k.Epoch(cs[0])
    && forall j | 0 <= j < i :: k.time(cs[j]) >= k.Epoch(cs[0])
  }

  ghost predicate AcceptedAt(k: Clock, cs: seq<nat>, j: nat) {
    j < |cs| && Accepted(FRESH, Arrivals(k, cs), j)
  }

  /** The packets accepted by arrivals `i` to `n`. */
  ghost function Since(k: Clock, cs: seq<nat>, i: nat, n: nat): set<nat>
    requires n <= |cs|
  {
    set j: nat | i <= j < n && AcceptedAt(k, cs, j) :: cs[j]
  }

  lemma SinceNext(k: Clock, cs: seq<nat>, i: nat, n: nat)
    requires i <= n < |cs|
    ensures Since(k, cs, i, n + 1) == Since(k, cs, i, n) + (if AcceptedAt(k, cs, n) then {cs[n]} else {})
  {
    hide AcceptedAt;
  }

  lemma CloseNear(cs: seq<nat>)
    requires AllClose(cs)
    ensures AllNear(cs)
  {
    hide Near;
    forall i | 0 <= i < |cs|
      ensures Near(cs[..i], cs[i])
    {
      assert Close(cs[..i], cs[i]);
    }
  }

  /** The window just before the jump. */
  lemma BeforeJump(k: Clock, cs: seq<nat>, i: nat) returns (m: nat)
    requires k.Lawful() && AllClose(cs) && FirstEarly(k, cs, i)
    ensures Tracks(After(FRESH, Arrivals(k, cs)[..i]), k, Elems(cs[..i]), k.Epoch(cs[0]), m)
    ensures k.time(cs[i]) < k.Epoch(cs[0])
    ensures cs[i] !in Elems(cs[..i]) && cs[i] < TWO48 && m - cs[i] <= BEHIND
  {
    hide After, Tracks, AllClose, Clock.Lawful, Close;
    CloseNear(cs);
    m := TracksFront(k, cs, i);
    TracksMeans(After(FRESH, Arrivals(k, cs)[..i]), k, Elems(cs[..i]), k.Epoch(cs[0]), m);
    assert Near(cs[..i], cs[i]);
    assert m in cs[..i];
  }

  /** The jump in a run. */
  lemma RunJumps(k: Clock, cs: seq<nat>, i: nat)
    requires k.Lawful() && AllClose(cs) && FirstEarly(k, cs, i)
    ensures i < |cs| && AcceptedAt(k, cs, i) && k.Epoch(cs[0]) >= TWO32
    ensures Jumped(After(FRESH, Arrivals(k, cs)[..i + 1]), k, Elems(cs[..i]), {cs[i]}, k.Epoch(cs[0]) - TWO32, cs[i])
  {
    hide AcceptStep, After, Tracks, Jumped, AllClose, Clock.Lawful, Accepted;
    assert i < |cs|;
    hide FirstEarly;
    var m := BeforeJump(k, cs, i);
    EpochAligned(k, cs[0]);
    JumpBegins(After(FRESH, Arrivals(k, cs)[..i]), k, Elems(cs[..i]), k.Epoch(cs[0]), m, cs[i]);
    AfterNext(FRESH, Arrivals(k, cs), i);
    AcceptedMeans(FRESH, Arrivals(k, cs), i);
  }

  /** How near the next packet of a run is to the newest taken since the jump. */
  lemma CloseAfter(k: Clock, front: seq<nat>, c: nat, before: set<nat>, since: set<nat>, m: nat)
    requires Close(front, c) && IsNewest(m, since) && Past(k, before, m) && before + since == Elems(front)
    ensures c < TWO48 && 961 * (m - c) < TWO31
    ensures c !in before && c !in since ==> m - c <= BEHIND && 961 * (c - m) < TWO31
  {
    assert m in Elems(front);
    if c !in front {
      assert forall d | d in front :: d - c <= BEHIND;
      var d :| d in front && 961 * (c - d) + SPAN < TWO31;
      assert d in before + since;
    } else {
      assert c in before + since;
    }
  }

  /** After the jump the window tracks what it has accepted since, and every packet so far is known. */
  ghost predicate Resumed(k: Clock, cs: seq<nat>, i: nat, n: nat, m: nat)
    requires i < n <= |cs|
  {
    && k.Epoch(cs[0]) >= TWO32
    && Jumped(After(FRESH, Arrivals(k, cs)[..n]), k, Elems(cs[..i]), Since(k, cs, i, n), k.Epoch(cs[0]) - TWO32, m)
    && Elems(cs[..i]) + Since(k, cs, i, n) == Elems(cs[..n])
  }

  lemma NextAfter(k: Clock, cs: seq<nat>, i: nat, n: nat, m: nat) returns (m': nat)
    requires k.Lawful() && AllClose(cs) && i < n < |cs| && Resumed(k, cs, i, n, m)
    ensures AcceptedAt(k, cs, n) <==> Taken(k, Elems(cs[..i]), Since(k, cs, i, n), cs[n])
    ensures Resumed(k, cs, i, n + 1, m')
  {
    hide AcceptStep, After, Jumped, Clock.Lawful, Accepted, Close, Since;
    var before, since := Elems(cs[..i]), Since(k, cs, i, n);
    var w, off := After(FRESH, Arrivals(k, cs)[..n]), k.Epoch(cs[0]) - TWO32;
    JumpedMeans(w, k, before, since, off, m);
    CloseAfter(k, cs[..n], cs[n], before, since, m);
    m' := JumpStep(w, k, before, since, off, m, cs[n]);
    AfterNext(FRESH, Arrivals(k, cs), n);
    AcceptedMeans(FRESH, Arrivals(k, cs), n);
    SinceNext(k, cs, i, n);
    ElemsNext(cs, n);
    KnownNext(k, before, since, cs[n], Elems(cs[..n]));
    assert since + {} == since;
  }

  lemma KnownNext(k: Clock, before: set<nat>, since: set<nat>, c: nat, known: set<nat>)
    requires before + since == known
    ensures before + (if Taken(k, before, since, c) then since + {c} else since) == known + {c}
  {}

  lemma {:induction false} RunAfter(k: Clock, cs: seq<nat>, i: nat, n: nat) returns (m: nat)
    requires k.Lawful() && AllClose(cs) && FirstEarly(k, cs, i) && i < n <= |cs|
    ensures Resumed(k, cs, i, n, m)
    decreases n
  {
    hide After, Jumped, Clock.Lawful, AcceptedAt, AllClose, FirstEarly;
    if n == i + 1 {
      RunJumps(k, cs, i);
      m := cs[i];
      ElemsNext(cs, i);
      SinceNext(k, cs, i, i);
      assert Since(k, cs, i, i) == {};
      assert Since(k, cs, i, n) == {cs[i]};
    } else {
      m := RunAfter(k, cs, i, n - 1);
      hide Resumed;
      m := NextAfter(k, cs, i, n - 1, m);
    }
  }

  /** After the jump an arrival is accepted if and only if its packet has not been accepted since the jump and, where
      it came before the jump already, more packets have been accepted in all than the map holds and it is not older
      than the window's span. */
  lemma AfterJumpExactly(k: Clock, cs: seq<nat>, i: nat, n: nat)
    requires k.Lawful() && AllClose(cs) && FirstEarly(k, cs, i) && i < n < |cs|
    ensures AcceptedAt(k, cs, n) <==> Taken(k, Elems(cs[..i]), Since(k, cs, i, n), cs[n])
  {
    hide AllClose, FirstEarly, AcceptedAt, Taken, Clock.Lawful, Resumed;
    var m := RunAfter(k, cs, i, n);
    var _ := NextAfter(k, cs, i, n, m);
  }

  lemma BeforeAnyJump(k: Clock, cs: seq<nat>, n: nat)
    requires k.Lawful() && AllClose(cs) && n < |cs| && forall j | 0 <= j <= n :: k.time(cs[j]) >= k.Epoch(cs[0])
    ensures AcceptedAt(k, cs, n) <==> cs[n] !in cs[..n]
  {
    hide AllClose, Clock.Lawful, Accepted, After, Tracks, Plausible;
    CloseNear(cs);
    FrontPlausible(k, cs, n + 1);
    var front := cs[..n + 1];
    var _ := RunTracks(k, front, n);
    assert front[..n] == cs[..n];
    SameStart(k, cs, n);
  }

  lemma SameStart(k: Clock, cs: seq<nat>, n: nat)
    requires n < |cs|
    ensures Accepted(FRESH, Arrivals(k, cs[..n + 1]), n) <==> Accepted(FRESH, Arrivals(k, cs), n)
  {
    hide AcceptStep, After;
    assert Arrivals(k, cs[..n + 1])[..n] == Arrivals(k, cs)[..n];
  }

  lemma FirstEarlyOf(k: Clock, cs: seq<nat>, j: nat) returns (i: nat)
    requires j < |cs| && k.time(cs[j]) < k.Epoch(cs[0])
    ensures i <= j && FirstEarly(k, cs, i)
  {
    i := FirstBefore(k, cs, 0);
  }

  /** Every first copy of every run of close packets is accepted, whichever packet came first. */
  lemma FirstCopiesAlways(k: Clock, cs: seq<nat>, n: nat)
    requires k.Lawful() && AllClose(cs) && n < |cs| && cs[n] !in cs[..n]
    ensures AcceptedAt(k, cs, n)
  {
    hide AllClose, Clock.Lawful, AcceptedAt;
    if j :| 0 <= j <= n && k.time(cs[j]) < k.Epoch(cs[0]) {
      var i := FirstEarlyOf(k, cs, j);
      if i == n {
        RunJumps(k, cs, i);
      } else {
        AfterJumpExactly(k, cs, i, n);
        NotSince(k, cs, i, n);
      }
    } else {
      BeforeAnyJump(k, cs, n);
    }
  }

  lemma NotSince(k: Clock, cs: seq<nat>, i: nat, n: nat)
    requires i < n < |cs| && cs[n] !in cs[..n]
    ensures Taken(k, Elems(cs[..i]), Since(k, cs, i, n), cs[n])
  {
    hide AcceptedAt;
    forall j: nat | j < n
      ensures cs[j] != cs[n]
    {
      assert cs[j] in cs[..n];
    }
  }

  /** A packet accepted twice was accepted once before the jump and once after it: no packet is accepted a third time,
      and without a packet from before the opening epoch none is accepted twice. */
  lemma TwiceAcrossJump(k: Clock, cs: seq<nat>, j: nat, n: nat) returns (i: nat)
    requires k.Lawful() && AllClose(cs) && j < n < |cs| && cs[j] == cs[n]
    requires AcceptedAt(k, cs, j) && AcceptedAt(k, cs, n)
    ensures j < i < n && FirstEarly(k, cs, i)
  {
    hide AllClose, Clock.Lawful, AcceptedAt;
    assert cs[j] in cs[..n];
    if l :| 0 <= l <= n && k.time(cs[l]) < k.Epoch(cs[0]) {
      i := FirstEarlyOf(k, cs, l);
      if i < n {
        AfterJumpExactly(k, cs, i, n);
      }
    } else {
      BeforeAnyJump(k, cs, n);
    }
  }
}
