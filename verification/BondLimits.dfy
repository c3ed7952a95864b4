/** Runs of a whole bond that reach its limits: a slow lane that fills the table of waiting chunks, and a write that
    reports failure although the frame went out. */
module BondLimits {
  import opened Words
  import opened BondCodec
  import opened BondReorder
  import opened BondSinks
  import opened BondSystem
  import opened Runs

  /** Once a short stream has been delivered, the far end has passed it on if and only if the destination takes every
      write: no table can fill up. */
  lemma ShortStreamsComplete(n: nat, sink: Sink, events: seq<Event>)
    requires n > 0 && AllDelivered(Reached(n, sink, events))
    requires |Reached(n, sink, events).read| < PENDING_CAP
    ensures var s := Reached(n, sink, events);
            Far(s).status == Closed && Far(s).out == Join(s.read) <==> Enough(sink, s.read)
  {
    hide AllDelivered, Inv, NeverOverfull, Enough;
    var s := Reached(n, sink, events);
    ReachedInv(n, sink, events);
    hide Reached;
    ArrivedGenuine(s);
    FewAlwaysFit(s.arrived, s.read);
    BondCompletes(n, sink, events);
  }

  // ---------- a slow lane ----------

  const CHUNK: bytes := [7]

  function Piece(i: nat): Frame
    requires i < TWO64
  {
    Frame(DATA, i, CHUNK)
  }

  /** What `j` chunks put on lane `p` of two. */
  function Log(p: nat, j: nat): seq<Frame>
    requires j < TWO64
  {
    if j == 0 then [] else Log(p, j - 1) + (if (j - 1) % 2 == p then [Piece(j - 1)] else [])
  }

  /** `j` chunks read and written, every write going through. */
  function Writes(j: nat): seq<Event> {
    if j == 0 then [] else Writes(j - 1) + [Read(CHUNK), Try(Whole)]
  }

  function Input(j: nat): (cs: seq<bytes>)
    ensures |cs| == j && forall i | 0 <= i < j :: cs[i] == CHUNK
  {
    seq(j, _ => CHUNK)
  }

  function Written2(j: nat): System
    requires j < TWO64
  {
    System(Input(j), Reading, j, [Lane(Log(0, j), [], 0, false), Lane(Log(1, j), [], 0, false)], [], [],
           Unlimited, false, false)
  }

  lemma RunTwo(s: System, es: seq<Event>, a: Event, b: Event)
    ensures Run(Step, s, es + [a, b]) == Step(Step(Run(Step, s, es), a), b)
  {
    hide Step;
    var all := es + [a, b];
    RunNext(Step, s, all, |es|);
    RunNext(Step, s, all, |es| + 1);
    assert all[..|es|] == es && all[..|es| + 2] == all;
  }

  lemma WriteNext(j: nat)
    requires j + 2 < TWO64
    ensures Step(Step(Written2(j), Read(CHUNK)), Try(Whole)) == Written2(j + 1)
  {
    var s := Written2(j);
    var t := Step(s, Read(CHUNK));
    assert t == s.(read := Input(j) + [CHUNK], phase := Writing(2));
    assert Input(j) + [CHUNK] == Input(j + 1);
    hide Encode;
    var u := Step(t, Try(Whole));
    assert u.read == Input(j + 1) && u.phase == Reading && u.laneIdx == j + 1;
    assert Log(1 - j % 2, j) + [] == Log(1 - j % 2, j);
    assert u.lanes == Written2(j + 1).lanes;
  }

  lemma {:induction false} AllWritten(j: nat)
    requires j + 1 < TWO64
    ensures Reached(2, Unlimited, Writes(j)) == Written2(j)
  {
    hide Step;
    if j == 0 {
      assert Opened(2, Unlimited) == Written2(0);
    } else {
      AllWritten(j - 1);
      RunTwo(Opened(2, Unlimited), Writes(j - 1), Read(CHUNK), Try(Whole));
      WriteNext(j - 1);
    }
  }

  /** Lane 1 is read and merged `m` frames far, lane 0 not at all. */
  function Merges(m: nat): seq<Event> {
    if m == 0 then [] else Merges(m - 1) + [Receive(1), Merge]
  }

  function Merged(j: nat, m: nat): System
    requires j < TWO64 && m <= |Log(1, j)|
  {
    var s := Written2(j);
    s.(lanes := s.lanes[1 := s.lanes[1].(taken := m)], arrived := Log(1, j)[..m])
  }

  /** A reader takes a frame off its lane and the far end takes it from the empty channel. */
  lemma ReceiveMerge(s: System, i: nat)
    requires Inv(s) && i < |s.lanes| && s.channel == [] && !s.left && s.lanes[i].taken < |s.lanes[i].log|
    ensures var l := s.lanes[i];
            Step(Step(s, Receive(i)), Merge) ==
            s.(lanes := s.lanes[i := l.(taken := l.taken + 1)], arrived := s.arrived + [l.log[l.taken]])
  {
    hide ReceiveFrom, Inv;
    ReceiveNext(s, i);
    var f := s.lanes[i].log[s.lanes[i].taken];
    var t := Step(s, Receive(i));
    assert t.channel == [] + [f] == [f];
    assert t.channel[1..] == [];
  }

  lemma MergeNext(j: nat, m: nat)
    requires j < TWO64 && m < |Log(1, j)| && Inv(Merged(j, m))
    ensures Step(Step(Merged(j, m), Receive(1)), Merge) == Merged(j, m + 1)
  {
    hide Inv, Log, Step, Input;
    ReceiveMerge(Merged(j, m), 1);
    assert Log(1, j)[..m] + [Log(1, j)[m]] == Log(1, j)[..m + 1];
  }

  lemma {:induction false} AllMerged(j: nat, m: nat)
    requires j + 1 < TWO64 && m <= |Log(1, j)|
    ensures Reached(2, Unlimited, Writes(j) + Merges(m)) == Merged(j, m)
  {
    hide Step, Inv;
    AllWritten(j);
    if m == 0 {
      assert Writes(j) + Merges(0) == Writes(j);
      var s := Written2(j);
      assert s.lanes[1 := s.lanes[1].(taken := 0)] == s.lanes && Log(1, j)[..0] == [];
    } else {
      AllMerged(j, m - 1);
      ReachedInv(2, Unlimited, Writes(j) + Merges(m - 1));
      assert Writes(j) + Merges(m) == Writes(j) + Merges(m - 1) + [Receive(1), Merge];
      RunTwo(Opened(2, Unlimited), Writes(j) + Merges(m - 1), Receive(1), Merge);
      MergeNext(j, m - 1);
    }
  }

  /** Lane 1 holds the odd chunks, in order. */
  lemma {:induction false} OddLog(j: nat)
    requires j < TWO64
    ensures |Log(1, j)| == j / 2
    ensures forall k | 0 <= k < j / 2 :: Log(1, j)[k] == Piece(2 * k + 1)
  {
    if j > 0 {
      OddLog(j - 1);
    }
  }

  /** Two lanes, at least 2050 chunks, every write going through: if lane 0 is slow, the far end gives up after 1025
      frames of lane 1, although nothing was lost. */
  lemma SlowLaneStops(j: nat)
    requires 2050 <= j && j + 1 < TWO64
    ensures var s := Reached(2, Unlimited, Writes(j) + Merges(1025));
            s.phase == Reading && Far(s).status == Stopped && forall l | l in s.lanes :: !l.dead && l.torn == []
  {
    hide Reached, After;
    OddLog(j);
    AllMerged(j, 1025);
    ReachedInv(2, Unlimited, Writes(j) + Merges(1025));
    var s := Merged(j, 1025);
    ArrivedGenuine(s);
    var recv, log := s.arrived, Log(1, j);
    hide Log, Inv;
    assert forall k | 0 <= k < 1025 :: recv[k] == Piece(2 * k + 1);
    var front := recv[..1024];
    DistinctCount(front);
    GapStops(recv, s.read, 1024);
  }

  // ---------- a failure that was none ----------

  /** The frame goes out whole on lane 0 but the write reports an error; it goes out again on lane 1. */
  function Repeat(k: nat): seq<Event> {
    [Read(CHUNK), Try(Broken(k)), Try(Whole), Receive(0), Merge, Receive(1), Merge]
  }

  function Sent1(taken0: nat, taken1: nat, channel: seq<Frame>, arrived: seq<Frame>): System {
    System([CHUNK], Reading, 2, [Lane([Piece(0)], [], taken0, true), Lane([Piece(0)], [], taken1, false)],
           channel, arrived, Unlimited, false, false)
  }

  /** After the write that failed. */
  function Failed1(): System {
    System([CHUNK], Writing(1), 1, [Lane([Piece(0)], [], 0, true), Lane([], [], 0, false)], [], [],
           Unlimited, false, false)
  }

  lemma FailsOnce(k: nat)
    requires k >= |Encode(Piece(0))|
    ensures Step(Step(Opened(2, Unlimited), Read(CHUNK)), Try(Broken(k))) == Failed1()
  {
    var s := Opened(2, Unlimited);
    assert s.lanes == [Lane([], [], 0, false), Lane([], [], 0, false)];
    var a := Step(s, Read(CHUNK));
    assert a == s.(read := [CHUNK], phase := Writing(2));
    hide Encode;
    assert Put(a.lanes[0], Piece(0), Broken(k)).log == [Piece(0)];
  }

  lemma ThenWritten()
    ensures Step(Failed1(), Try(Whole)) == Sent1(0, 0, [], [])
  {
    hide Encode;
    var l := Put(Failed1().lanes[1], Piece(0), Whole);
    assert l.log == [] + [Piece(0)] == [Piece(0)];
    assert Failed1().lanes[1 := l] == Sent1(0, 0, [], []).lanes;
  }

  lemma RepeatWritten(k: nat)
    requires k >= |Encode(Piece(0))|
    ensures Reached(2, Unlimited, Repeat(k)[..3]) == Sent1(0, 0, [], [])
  {
    hide Step, Encode, Opened;
    var es, s := Repeat(k), Opened(2, Unlimited);
    FailsOnce(k);
    ThenWritten();
    assert es[..2] == [] + [Read(CHUNK), Try(Broken(k))];
    RunTwo(s, [], Read(CHUNK), Try(Broken(k)));
    RunNext(Step, s, es, 2);
  }

  lemma ReceiveOne(i: nat, taken0: nat, taken1: nat, arrived: seq<Frame>)
    requires i < 2 && taken0 <= 1 && taken1 <= 1 && (if i == 0 then taken0 else taken1) == 0
    requires Inv(Sent1(taken0, taken1, [], arrived))
    ensures Step(Step(Sent1(taken0, taken1, [], arrived), Receive(i)), Merge) ==
            Sent1(if i == 0 then 1 else taken0, if i == 1 then 1 else taken1, [], arrived + [Piece(0)])
  {
    hide Step, Inv;
    ReceiveMerge(Sent1(taken0, taken1, [], arrived), i);
  }

  /** The second copy stays in the table of waiting chunks although the chunk is out: nothing ever removes it. */
  lemma RepeatStays(k: nat)
    requires k >= |Encode(Piece(0))|
    ensures var s := Reached(2, Unlimited, Repeat(k));
            && s.arrived == [Piece(0), Piece(0)] && Far(s).status == Running
            && Far(s).due == 1 && Far(s).pending.Keys == {0}
  {
    hide Step, Inv, Encode;
    var es, o := Repeat(k), Opened(2, Unlimited);
    RepeatWritten(k);
    ReachedInv(2, Unlimited, es[..3]);
    ReceiveOne(0, 0, 0, []);
    assert es[..5] == es[..3] + [Receive(0), Merge];
    RunTwo(o, es[..3], Receive(0), Merge);
    ReachedInv(2, Unlimited, es[..5]);
    assert [] + [Piece(0)] == [Piece(0)];
    ReceiveOne(1, 1, 0, [Piece(0)]);
    assert es == es[..5] + [Receive(1), Merge];
    RunTwo(o, es[..5], Receive(1), Merge);
    TwoCopies();
  }

  /** The reassembly after one copy of the only chunk so far. */
  function OneOut(): Reorder {
    Start(Unlimited).(out := CHUNK, writes := 1, due := 1)
  }

  lemma FirstCopy()
    ensures Deliver(Start(Unlimited), Piece(0)) == OneOut()
  {
    var p, q := Take(Start(Unlimited), Piece(0)), OneOut();
    assert p.pending - {0} == map[];
    assert p.out + CHUNK == CHUNK;
    assert Emit(p) == q;
    assert Drain(q) == q;
    assert Drain(p) == Drain(Emit(p));
  }

  lemma SecondCopy()
    ensures var r := Deliver(OneOut(), Piece(0)); r.status == Running && r.due == 1 && r.pending.Keys == {0}
  {
    var r := Take(OneOut(), Piece(0));
    assert r.pending == map[0 := CHUNK];
    assert Drain(r) == r;
  }

  lemma TwoCopies()
    ensures var r := After(Unlimited, [Piece(0), Piece(0)]);
            r.status == Running && r.due == 1 && r.pending.Keys == {0}
  {
    FirstCopy();
    SecondCopy();
    hide Deliver;
    var fs := [Piece(0), Piece(0)];
    RunNext(Deliver, Start(Unlimited), fs, 0);
    RunNext(Deliver, Start(Unlimited), fs, 1);
    assert fs[..0] == [] && fs[..2] == fs;
  }
}
