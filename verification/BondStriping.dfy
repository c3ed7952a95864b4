/** Which lane carries which chunk while all goes well, and what never happens to a lane or to the channel. */
module BondStriping {
  import opened Words
  import opened Division
  import opened BondCodec
  import opened BondReorder
  import opened BondSinks
  import opened BondSystem
  import opened Runs

  // ---------------------------------------------------------------- the channel

  /** The splitter takes any 1 to 16384 bytes as one chunk, while it is reading and its numbers last. */
  lemma ReadEffect(s: System, data: bytes)
    requires |s.read| < TWO64 - 1
    ensures var t := Step(s, Read(data));
            if s.phase == Reading && 1 <= |data| <= 16384 then
              t == s.(read := s.read + [data], phase := Writing(|s.lanes|))
            else t == s
  {}

  /** A reader hands the next whole frame of its lane to the channel, last, if and only if there is one and fewer than
      1024 wait. */
  lemma ReceiveExactly(s: System, i: nat)
    requires Inv(s) && i < |s.lanes|
    ensures var t, l := Step(s, Receive(i)), s.lanes[i];
            if |s.channel| < 1024 && l.taken < |l.log| then
              t == s.(lanes := s.lanes[i := l.(taken := l.taken + 1)], channel := s.channel + [l.log[l.taken]])
            else t == s
  {
    hide Inv, ReceiveFrom;
    ReceiveNext(s, i);
  }

  /** The channel is a queue: the reassembly takes its first frame, a reader adds one last, nothing else touches it. */
  lemma ChannelEffect(s: System, e: Event)
    ensures var t := Step(s, e);
            && (e.Merge? ==>
                  if s.channel != [] && !s.left then
                    t == s.(arrived := s.arrived + [s.channel[0]], channel := s.channel[1..])
                  else t == s)
            && (!e.Merge? ==> t.arrived == s.arrived && s.channel <= t.channel)
            && (!e.Receive? ==> t.arrived + t.channel == s.arrived + s.channel)
            && (|s.channel| <= 1024 ==> |t.channel| <= 1024)
  {
    hide ReadFrame, Stream;
    if e.Merge? && s.channel != [] {
      assert s.channel == [s.channel[0]] + s.channel[1..];
    }
  }

  /** In every run at most 1024 frames wait in the channel. */
  lemma BufferBounded(n: nat, sink: Sink, events: seq<Event>)
    ensures |Run(Step, Opened(n, sink), events).channel| <= 1024
  {
    hide Step;
    forall s: System, e: Event | |s.channel| <= 1024
      ensures |Step(s, e).channel| <= 1024
    {
      ChannelEffect(s, e);
    }
    RunKeeps(Step, (s: System) => |s.channel| <= 1024, Opened(n, sink), events);
  }

  // ---------------------------------------------------------------- dead lanes

  /** The lane is dead and holds exactly these frames and this torn front. */
  predicate DeadWith(s: System, i: nat, log: seq<Frame>, torn: bytes) {
    i < |s.lanes| && s.lanes[i].dead && (s.lanes[i].log, s.lanes[i].torn) == (log, torn)
  }

  /** A write that breaks off after `k` bytes of a frame leaves just these on the lane; after all of them, the frame. */
  lemma BrokenWrite(l: Lane, f: Frame, k: nat)
    ensures var p := Put(l, f, Broken(k));
            && (p.taken, p.dead) == (l.taken, l.dead)
            && if k < |Encode(f)| then p.log == l.log && p.torn < Encode(f) && |p.torn| == k
               else p.log == l.log + [f] && p.torn == l.torn
  {
    hide Encode;
  }

  /** A reader's error marks its lane dead, whatever it holds, and changes nothing else. */
  lemma DiesEffect(s: System, i: nat)
    requires i < |s.lanes|
    ensures var t, l := Step(s, LaneDies(i)), s.lanes[i];
            && DeadWith(t, i, l.log, l.torn) && t.lanes[i].taken == l.taken
            && t == s.(lanes := s.lanes[i := t.lanes[i]])
  {}

  /** A dead lane stays dead and nothing is ever written to it again, not even a FIN. */
  lemma DeadForGood(s: System, events: seq<Event>, i: nat)
    requires i < |s.lanes| && s.lanes[i].dead
    ensures DeadWith(Run(Step, s, events), i, s.lanes[i].log, s.lanes[i].torn)
  {
    var log, torn := s.lanes[i].log, s.lanes[i].torn;
    forall t, e | DeadWith(t, i, log, torn)
      ensures DeadWith(Step(t, e), i, log, torn)
    {
      DeadStep(t, e, i, log, torn);
    }
    hide Step;
    RunKeeps(Step, t => DeadWith(t, i, log, torn), s, events);
  }

  lemma DeadStep(s: System, e: Event, i: nat, log: seq<Frame>, torn: bytes)
    requires DeadWith(s, i, log, torn)
    ensures DeadWith(Step(s, e), i, log, torn)
  {
    hide ReadFrame, Stream, Encode;
  }

  // ---------------------------------------------------------------- all lanes well

  /** The splitter reads and its writes go through; readers and far end do as they like. */
  predicate Healthy(e: Event) {
    match e
    case Read(_) => true
    case Try(o) => o == Whole
    case Receive(_) => true
    case Merge => true
    case Cancel => true
    case Leave => true
    case _ => false
  }

  /** Of the first `m` chunks the lane has every `n`-th from chunk `i` on, in order. */
  ghost predicate LaneStriped(log: seq<Frame>, read: seq<bytes>, m: nat, n: nat, i: nat) {
    && m <= |read| && m <= n * |log| + i
    && forall k: nat | k < |log| :: Holds(log[k], read, m, n * k + i)
  }

  ghost predicate Holds(f: Frame, read: seq<bytes>, m: nat, j: int) {
    0 <= j < m <= |read| && f.typ == DATA && f.seqNo == j && f.data == read[j]
  }

  ghost predicate LanesStriped(lanes: seq<Lane>, read: seq<bytes>, m: nat) {
    forall i: nat | i < |lanes| :: !lanes[i].dead && LaneStriped(lanes[i].log, read, m, |lanes|, i)
  }

  ghost predicate Striped(s: System, n: nat) {
    && |s.lanes| == n && |s.read| < TWO64 && (s.phase == Reading || (s.phase == Writing(n) && s.read != []))
    && var m := if s.phase == Reading then |s.read| else |s.read| - 1;
       s.laneIdx == m && LanesStriped(s.lanes, s.read, m)
  }

  lemma Places(log: seq<Frame>, read: seq<bytes>, m: nat, n: nat, i: nat)
    requires i < n && LaneStriped(log, read, m, n, i)
    ensures m % n == i ==> m == n * |log| + i
    ensures m % n != i ==> m + 1 <= n * |log| + i
  {
    var p, q := m / n, |log|;
    if m == n * q + i {
      DivUnique(m, n, q, i);
    }
    if p < q {
      Before(log, read, m, n, i, p);
    } else if p > q {
      Gap(n, p, q);
    }
  }

  lemma Before(log: seq<Frame>, read: seq<bytes>, m: nat, n: nat, i: nat, k: nat)
    requires LaneStriped(log, read, m, n, i) && k < |log|
    ensures n * k + i < m
  {
    assert Holds(log[k], read, m, n * k + i);
  }

  /** The lane whose turn it is gets the next chunk as its next frame. */
  lemma NextStriped(log: seq<Frame>, read: seq<bytes>, m: nat, n: nat, i: nat, f: Frame)
    requires i < n && LaneStriped(log, read, m, n, i) && m < |read| < TWO64
    requires f == Frame(DATA, m, read[m])
    ensures m % n == i ==> LaneStriped(log + [f], read, m + 1, n, i)
    ensures m % n != i ==> LaneStriped(log, read, m + 1, n, i)
  {
    Places(log, read, m, n, i);
    assert n * (|log| + 1) == n * |log| + n;
    forall k: nat | k < |log|
      ensures Holds(log[k], read, m + 1, n * k + i)
    {
      assert Holds(log[k], read, m, n * k + i);
    }
  }

  lemma MoreRead(log: seq<Frame>, read: seq<bytes>, m: nat, n: nat, i: nat, data: bytes)
    requires LaneStriped(log, read, m, n, i)
    ensures LaneStriped(log, read + [data], m, n, i)
  {
    forall k: nat | k < |log|
      ensures Holds(log[k], read + [data], m, n * k + i)
    {
      assert Holds(log[k], read, m, n * k + i);
    }
  }

  lemma TryStriped(s: System, n: nat)
    requires n > 0 && Striped(s, n) && s.phase == Writing(n)
    ensures Striped(Step(s, Try(Whole)), n)
  {
    hide LaneStriped;
    var m, t := |s.read| - 1, Step(s, Try(Whole));
    var f := Frame(DATA, m, s.read[m]);
    forall i: nat | i < n
      ensures !t.lanes[i].dead && LaneStriped(t.lanes[i].log, t.read, m + 1, n, i)
    {
      NextStriped(s.lanes[i].log, s.read, m, n, i, f);
    }
  }

  lemma ReadStriped(s: System, n: nat, data: bytes)
    requires n > 0 && Striped(s, n)
    ensures Striped(Step(s, Read(data)), n)
  {
    hide LaneStriped;
    forall i: nat | i < n && s.phase == Reading
      ensures LaneStriped(s.lanes[i].log, s.read + [data], |s.read|, n, i)
    {
      MoreRead(s.lanes[i].log, s.read, |s.read|, n, i, data);
    }
  }

  lemma HealthyStriped(s: System, e: Event, n: nat)
    requires n > 0 && Striped(s, n) && Healthy(e)
    ensures Striped(Step(s, e), n)
  {
    hide LaneStriped, ReadFrame, Stream;
    match e
    case Read(data) => ReadStriped(s, n, data);
    case Try(_) =>
      if s.phase == Writing(n) {
        TryStriped(s, n);
      }
    case _ =>
  }

  /** While no lane dies and every write goes through, chunk `j` is frame `j / n` of lane `j mod n`, and the lanes hold
      nothing else. */
  lemma {:induction false} StripedAlways(n: nat, sink: Sink, events: seq<Event>)
    requires n > 0 && forall e | e in events :: Healthy(e)
    ensures Striped(Run(Step, Opened(n, sink), events), n)
  {
    hide Step, Striped, Healthy;
    if events == [] {
      NothingStriped(n, sink);
    } else {
      var k := |events| - 1;
      StripedAlways(n, sink, events[..k]);
      assert events[k] in events;
      HealthyStriped(Run(Step, Opened(n, sink), events[..k]), events[k], n);
    }
  }

  lemma NothingStriped(n: nat, sink: Sink)
    ensures Striped(Opened(n, sink), n)
  {}
}
