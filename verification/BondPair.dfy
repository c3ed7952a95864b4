/** Both directions of a bond at once: each end splits what it reads and puts together what it gets, and whichever of
    the two is done first cancels the other. */
module BondPair {
  import opened Words
  import opened BondCodec
  import opened BondReorder
  import opened BondSinks
  import opened BondSystem
  import opened BondLimits
  import opened Runs

  /** Why an end was cancelled: not at all, its splitter or its reassembly has returned, no lane is left to read, or
      from outside. */
  datatype Cause = Open | SplitterDone | MergerDone | LanesGone | Outside

  /** One end: the direction it reads for, whether its read was cut off by the deadline, and whether it is cancelled. */
  datatype End = End(dir: System, cut: bool, cause: Cause)

  /** The far end of each direction belongs to the other end. */
  datatype Pair = Pair(here: End, there: End)

  datatype Act =
    | Split(e: BondSystem.Event)
    | Gather(e: BondSystem.Event)
    | CancelBy(cause: Cause)
    | CutRead

  /** What one end does, or the other. */
  datatype PairEvent = Here(act: Act) | There(act: Act)

  function Swap(p: Pair): Pair {
    Pair(p.there, p.here)
  }

  predicate OfSplitter(e: BondSystem.Event, cancelled: bool) {
    e.Read? || e.Try? || e.EndOfInput? || e.SendFin? || e.LaneDies? || (e.Halt? && cancelled)
  }

  predicate OfMerger(e: BondSystem.Event) {
    e.Receive? || e.Merge? || e.Leave?
  }

  predicate Gone(s: System) {
    s.phase == Finished || s.phase == Halted
  }

  predicate AllDead(s: System) {
    forall l | l in s.lanes :: l.dead
  }

  /** What lets an end be cancelled. */
  predicate Permits(p: Pair, cause: Cause) {
    match cause
    case Open => false
    case SplitterDone => Gone(p.here.dir)
    case MergerDone => Far(p.there.dir).status != Running
    case LanesGone => AllDead(p.here.dir) && p.there.dir.channel == []
    case Outside => true
  }

  /** One step at this end. At a cancelled end the reassembly goes on until it notices, and the read may fail at once:
      the splitter takes that for the end of its input. */
  function Local(p: Pair, a: Act): Pair {
    match a
    case Split(e) =>
      if OfSplitter(e, p.here.cause != Open) then p.(here := p.here.(dir := BondSystem.Step(p.here.dir, e))) else p
    case Gather(e) =>
      if OfMerger(e) then p.(there := p.there.(dir := BondSystem.Step(p.there.dir, e))) else p
    case CancelBy(cause) =>
      if p.here.cause == Open && Permits(p, cause) then
        Pair(p.here.(cause := cause), p.there.(dir := BondSystem.Step(p.there.dir, Cancel)))
      else p
    case CutRead =>
      if p.here.cause != Open && p.here.dir.phase == Reading then
        p.(here := p.here.(dir := BondSystem.Step(p.here.dir, EndOfInput), cut := true))
      else p
  }

  function PairStep(p: Pair, e: PairEvent): Pair {
    match e
    case Here(a) => Local(p, a)
    case There(a) => Swap(Local(Swap(p), a))
  }

  function Joined(n: nat, hereSink: Sink, thereSink: Sink): Pair {
    Pair(End(BondSystem.Opened(n, thereSink), false, Open), End(BondSystem.Opened(n, hereSink), false, Open))
  }

  function Reaches(n: nat, hereSink: Sink, thereSink: Sink, events: seq<PairEvent>): Pair {
    Run(PairStep, Joined(n, hereSink, thereSink), events)
  }

  // ---------- what one step does ----------

  /** An end is cancelled, once, when its splitter or its reassembly has returned, when its lanes are dead and their
      frames taken, or from outside. The reassembly there, of the other direction, is told. */
  lemma CancelExactly(p: Pair, cause: Cause)
    ensures var t := PairStep(p, Here(CancelBy(cause)));
            var lanesDead := forall l | l in p.here.dir.lanes :: l.dead;
            var may := || (cause == SplitterDone && p.here.dir.phase in {Finished, Halted})
                       || (cause == MergerDone && Far(p.there.dir).status != Running)
                       || (cause == LanesGone && lanesDead && p.there.dir.channel == [])
                       || cause == Outside;
            if p.here.cause == Open && may then
              t == Pair(p.here.(cause := cause), p.there.(dir := p.there.dir.(cancelled := true)))
            else t == p
  {}

  /** Only at a cancelled end, while it reads, is the read cut off, which ends the input, or does the splitter halt. */
  lemma CutExactly(p: Pair)
    ensures PairStep(p, Here(CutRead)) ==
            if p.here.cause != Open && p.here.dir.phase == Reading then
              p.(here := p.here.(dir := p.here.dir.(phase := Finishing(0)), cut := true))
            else p
    ensures PairStep(p, Here(Split(Halt))) ==
            if p.here.cause != Open && p.here.dir.phase == Reading then
              p.(here := p.here.(dir := p.here.dir.(phase := Halted)))
            else p
  {}

  /** The splitter here works for one direction, the reassembly here for the other. */
  lemma OwnSide(p: Pair, e: BondSystem.Event)
    requires e.Read? || e.Try? || e.EndOfInput? || e.SendFin? || e.LaneDies? || e.Receive? || e.Merge? || e.Leave?
    ensures if e.Receive? || e.Merge? || e.Leave? then
              && PairStep(p, Here(Gather(e))) == p.(there := p.there.(dir := BondSystem.Step(p.there.dir, e)))
              && PairStep(p, Here(Split(e))) == p
            else
              && PairStep(p, Here(Split(e))) == p.(here := p.here.(dir := BondSystem.Step(p.here.dir, e)))
              && PairStep(p, Here(Gather(e))) == p
  {
    hide BondSystem.Step;
  }

  /** What happens at the other end is the same with the ends exchanged. */
  lemma OtherSide(p: Pair, a: Act)
    ensures var t, u := PairStep(p, There(a)), PairStep(Pair(p.there, p.here), Here(a));
            (t.here, t.there) == (u.there, u.here)
  {
    hide Local;
  }

  // ---------- what every step keeps ----------

  /** One end, with the other direction's system. */
  ghost predicate EndOk(e: End, back: System) {
    && Inv(e.dir)
    && (e.cause != Open <==> back.cancelled) && (back.left ==> back.cancelled)
    && (e.cut ==> e.cause != Open && e.cause != SplitterDone && Ended(e.dir.phase))
    && (e.cause == SplitterDone ==> Gone(e.dir))
    && (e.cause == MergerDone ==> Far(back).status != Running)
  }

  ghost predicate PairInv(p: Pair) {
    EndOk(p.here, p.there.dir) && EndOk(p.there, p.here.dir)
  }

  /** No step revives a splitter, takes back the end of the input, or touches a reassembly that has left. */
  lemma StepMonotone(s: System, e: BondSystem.Event)
    ensures var t := BondSystem.Step(s, e);
            && (Gone(s) ==> t.phase == s.phase) && (Ended(s.phase) ==> Ended(t.phase))
            && (s.cancelled ==> t.cancelled) && (t.cancelled && !s.cancelled ==> e == Cancel)
            && (s.left ==> t.left && t.arrived == s.arrived) && (t.left && !s.left ==> s.cancelled)
            && t.sink == s.sink && s.arrived <= t.arrived
  {
    hide Put, ReadFrame, Stream;
  }

  lemma FarKept(s: System, t: System)
    requires (t.arrived, t.sink) == (s.arrived, s.sink)
    ensures Far(t) == Far(s)
  {}

  /** A reassembly that is over stays as it is, whatever is merged. */
  lemma FarStays(s: System, t: System)
    requires t.sink == s.sink && s.arrived <= t.arrived && Far(s).status != Running
    ensures Far(t) == Far(s)
  {
    hide After;
    assert t.arrived[..|s.arrived|] == s.arrived;
    HaltStays(s.sink, t.arrived, |s.arrived|);
  }

  lemma SplitKeeps(p: Pair, e: BondSystem.Event)
    requires PairInv(p)
    ensures PairInv(Local(p, Split(e)))
  {
    hide BondSystem.Step, Inv, Far;
    StepKeeps(p.here.dir, e);
    StepMonotone(p.here.dir, e);
    if p.there.cause == MergerDone {
      FarStays(p.here.dir, BondSystem.Step(p.here.dir, e));
    }
  }

  lemma GatherKeeps(p: Pair, e: BondSystem.Event)
    requires PairInv(p)
    ensures PairInv(Local(p, Gather(e)))
  {
    hide BondSystem.Step, Inv, Far;
    StepKeeps(p.there.dir, e);
    StepMonotone(p.there.dir, e);
    if p.here.cause == MergerDone {
      FarStays(p.there.dir, BondSystem.Step(p.there.dir, e));
    }
  }

  lemma CancelKeeps(p: Pair, cause: Cause)
    requires PairInv(p)
    ensures PairInv(Local(p, CancelBy(cause)))
  {
    hide BondSystem.Step, Inv, Far;
    var s := p.there.dir;
    StepKeeps(s, Cancel);
    CancelStep(s);
    FarKept(s, BondSystem.Step(s, Cancel));
  }

  lemma CancelStep(s: System)
    ensures BondSystem.Step(s, Cancel) == s.(cancelled := true)
  {}

  lemma CutKeeps(p: Pair)
    requires PairInv(p)
    ensures PairInv(Local(p, CutRead))
  {
    hide BondSystem.Step, Inv, Far;
    var s := p.here.dir;
    if s.phase == Reading {
      StepKeeps(s, EndOfInput);
      EndStep(s);
      FarKept(s, BondSystem.Step(s, EndOfInput));
    }
  }

  lemma LocalKeeps(p: Pair, a: Act)
    requires PairInv(p)
    ensures PairInv(Local(p, a))
  {
    hide PairInv, Local;
    match a
    case Split(e) => SplitKeeps(p, e);
    case Gather(e) => GatherKeeps(p, e);
    case CancelBy(cause) => CancelKeeps(p, cause);
    case CutRead => CutKeeps(p);
  }

  lemma SwapInv(p: Pair)
    ensures PairInv(Swap(p)) <==> PairInv(p)
  {
    hide EndOk;
  }

  lemma PairStepKeeps(p: Pair, e: PairEvent)
    requires PairInv(p)
    ensures PairInv(PairStep(p, e))
  {
    hide PairInv, Local;
    match e
    case Here(a) => LocalKeeps(p, a);
    case There(a) =>
      SwapInv(p);
      LocalKeeps(Swap(p), a);
      SwapInv(Local(Swap(p), a));
  }

  lemma ReachesInv(n: nat, hereSink: Sink, thereSink: Sink, events: seq<PairEvent>)
    requires n > 0
    ensures PairInv(Reaches(n, hereSink, thereSink, events))
  {
    JoinedInv(n, hereSink, thereSink);
    hide PairInv, PairStep, Joined;
    forall p, e | PairInv(p)
      ensures PairInv(PairStep(p, e))
    {
      PairStepKeeps(p, e);
    }
    RunKeeps(PairStep, p => PairInv(p), Joined(n, hereSink, thereSink), events);
  }

  lemma JoinedInv(n: nat, hereSink: Sink, thereSink: Sink)
    requires n > 0
    ensures PairInv(Joined(n, hereSink, thereSink))
  {
    hide Inv, Far;
    OpenedInv(n, hereSink);
    OpenedInv(n, thereSink);
  }

  // ---------- what the pair promises ----------

  /** A direction's bytes out are a prefix of its bytes in; its end is passed on only with every byte that was read, and
      after the input has ended or, if the read was cut off, after this end was cancelled by something other than its
      own splitter. */
  ghost predicate Promise(e: End, back: System) {
    && Far(e.dir).out <= Join(e.dir.read)
    && (Far(e.dir).status == Closed ==> Far(e.dir).out == Join(e.dir.read) && Ended(e.dir.phase))
    && (e.cut ==> e.cause == LanesGone || e.cause == Outside || (e.cause == MergerDone && Far(back).status != Running))
  }

  lemma EndPromise(e: End, back: System)
    requires EndOk(e, back)
    ensures Promise(e, back)
  {
    hide Inv, After;
    ArrivedGenuine(e.dir);
    OutputIsPrefix(e.dir.sink, e.dir.arrived, e.dir.read);
    FinArrived(e.dir.sink, e.dir.arrived);
  }

  /** In every state of every run of both directions. */
  lemma PairSafety(n: nat, hereSink: Sink, thereSink: Sink, events: seq<PairEvent>)
    requires n > 0
    ensures var p := Reaches(n, hereSink, thereSink, events);
            Promise(p.here, p.there.dir) && Promise(p.there, p.here.dir)
  {
    hide Reaches, EndOk, Promise;
    ReachesInv(n, hereSink, thereSink, events);
    var p := Reaches(n, hereSink, thereSink, events);
    EndPromise(p.here, p.there.dir);
    EndPromise(p.there, p.here.dir);
  }

  /** The whole input has been passed on, and its true end. */
  ghost predicate Delivered(e: End) {
    Far(e.dir).status == Closed && Far(e.dir).out == Join(e.dir.read) && !e.cut
  }

  /** What decides it: the read was not cut off, what was merged before the reassembly left is everything, it never had
      to give up, and the destination took every write. */
  ghost predicate GotAll(e: End) {
    && !e.cut && Complete(e.dir.arrived, |e.dir.read|) && NeverOverfull(e.dir.arrived, |e.dir.read|)
    && Enough(e.dir.sink, e.dir.read)
  }

  lemma EndDelivered(e: End, back: System)
    requires EndOk(e, back)
    ensures Delivered(e) <==> GotAll(e)
    ensures |e.dir.read| < PENDING_CAP ==> NeverOverfull(e.dir.arrived, |e.dir.read|)
  {
    hide Inv, After, NeverOverfull, Complete, Enough;
    ArrivedGenuine(e.dir);
    OutputIsPrefix(e.dir.sink, e.dir.arrived, e.dir.read);
    ClosedWithSink(e.dir.sink, e.dir.arrived, e.dir.read);
    if |e.dir.read| < PENDING_CAP {
      FewAlwaysFit(e.dir.arrived, e.dir.read);
    }
  }

  /** In every state of every run, whatever is cancelled, when and why, and however long the reassembly goes on after
      it, a direction is delivered if and only if its read was not cut off, everything was merged before the
      reassembly left, its table of waiting chunks was never full and the destination took every write; fewer than
      1024 chunks never fill the table. */
  lemma DeliveredExactly(n: nat, hereSink: Sink, thereSink: Sink, events: seq<PairEvent>)
    requires n > 0
    ensures var p := Reaches(n, hereSink, thereSink, events);
            && (Delivered(p.here) <==> GotAll(p.here)) && (Delivered(p.there) <==> GotAll(p.there))
            && (|p.here.dir.read| < PENDING_CAP ==> NeverOverfull(p.here.dir.arrived, |p.here.dir.read|))
            && (|p.there.dir.read| < PENDING_CAP ==> NeverOverfull(p.there.dir.arrived, |p.there.dir.read|))
  {
    hide Reaches, EndOk, Delivered, GotAll, NeverOverfull;
    ReachesInv(n, hereSink, thereSink, events);
    var p := Reaches(n, hereSink, thereSink, events);
    EndDelivered(p.here, p.there.dir);
    EndDelivered(p.there, p.here.dir);
  }

  // ---------- after the cancel ----------

  /** The reassembly of this direction has left, as far as it was. */
  ghost predicate Over(p: Pair, far: Reorder) {
    p.here.dir.left && Far(p.here.dir) == far
  }

  lemma LeftStays(s: System, e: BondSystem.Event)
    requires s.left
    ensures BondSystem.Step(s, e).left && Far(BondSystem.Step(s, e)) == Far(s)
  {
    hide BondSystem.Step, Far;
    StepMonotone(s, e);
    FarKept(s, BondSystem.Step(s, e));
  }

  lemma OverStays(p: Pair, far: Reorder, e: PairEvent)
    requires Over(p, far)
    ensures Over(PairStep(p, e), far)
  {
    hide BondSystem.Step, Far;
    match e.act
    case Split(x) => LeftStays(p.here.dir, x);
    case Gather(x) => LeftStays(p.here.dir, x);
    case CancelBy(_) => LeftStays(p.here.dir, Cancel);
    case CutRead => LeftStays(p.here.dir, EndOfInput);
  }

  lemma RunOver(p: Pair, far: Reorder, events: seq<PairEvent>)
    requires Over(p, far)
    ensures Over(Run(PairStep, p, events), far)
  {
    hide PairStep, Over;
    forall q, e | Over(q, far)
      ensures Over(PairStep(q, e), far)
    {
      OverStays(q, far, e);
    }
    RunKeeps(PairStep, q => Over(q, far), p, events);
  }

  /** Both ends close at once; the FIN of this one is in the channel when the other end, its own splitter done, is
      cancelled. */
  function BothClose(): seq<PairEvent> {
    [There(Split(EndOfInput)), There(Split(SendFin(Whole))), Here(Split(EndOfInput)), Here(Split(SendFin(Whole))),
     There(Gather(Receive(0))), There(CancelBy(SplitterDone))]
  }

  function OneLane(log: seq<Frame>, taken: nat): seq<Lane> {
    [Lane(log, [], taken, false)]
  }

  const FIN0: Frame := Frame(FIN, 0, [])

  /** A direction without data whose FIN is out: still on its lane, in the channel, or merged. */
  function Empty(taken: nat, channel: seq<Frame>, arrived: seq<Frame>, cancelled: bool): System {
    System([], Finished, 0, OneLane([FIN0], taken), channel, arrived, Unlimited, cancelled, false)
  }

  function InChannel(): Pair {
    Pair(End(Empty(1, [FIN0], [], true), false, Open), End(Empty(0, [], [], false), false, SplitterDone))
  }

  lemma FinOut()
    ensures var s := BondSystem.Opened(1, Unlimited);
            BondSystem.Step(BondSystem.Step(s, EndOfInput), SendFin(Whole)) == Empty(0, [], [], false)
  {
    var s := BondSystem.Opened(1, Unlimited);
    assert s.lanes == OneLane([], 0);
    assert [] + [FIN0] == [FIN0];
  }

  lemma FinInv()
    ensures Inv(Empty(0, [], [], false))
  {
    hide Inv;
    var s := BondSystem.Opened(1, Unlimited);
    OpenedInv(1, Unlimited);
    FinOut();
    hide BondSystem.Step;
    StepKeeps(s, EndOfInput);
    StepKeeps(BondSystem.Step(s, EndOfInput), SendFin(Whole));
  }

  lemma FinReceived()
    ensures BondSystem.Step(Empty(0, [], [], false), Receive(0)) == Empty(1, [FIN0], [], false)
  {
    hide Inv, ReceiveFrom;
    FinInv();
    ReceiveNext(Empty(0, [], [], false), 0);
    assert [] + [FIN0] == [FIN0];
  }

  /** The state after the first `n` events, for one lane and destinations that take everything. */
  function At(events: seq<PairEvent>, n: nat): Pair
    requires n <= |events|
  {
    Reaches(1, Unlimited, Unlimited, events[..n])
  }

  lemma AtNext(events: seq<PairEvent>, n: nat)
    requires n < |events|
    ensures At(events, n + 1) == PairStep(At(events, n), events[n])
  {
    hide PairStep, Joined;
    RunNext(PairStep, Joined(1, Unlimited, Unlimited), events, n);
  }

  lemma AtStart(events: seq<PairEvent>)
    ensures At(events, 0) == Joined(1, Unlimited, Unlimited)
  {
    assert events[..0] == [];
  }

  lemma BothClosed()
    ensures At(BothClose(), 4) ==
            Pair(End(Empty(0, [], [], false), false, Open), End(Empty(0, [], [], false), false, Open))
  {
    hide At, BondSystem.Step, Empty, Far;
    var events := BothClose();
    AtStart(events);
    AtNext(events, 0);
    AtNext(events, 1);
    AtNext(events, 2);
    AtNext(events, 3);
    FinOut();
  }

  lemma CancelledInTime()
    ensures Reaches(1, Unlimited, Unlimited, BothClose()) == InChannel()
  {
    hide At, Far, Reaches, ReceiveFrom;
    var events := BothClose();
    BothClosed();
    FinReceived();
    AtNext(events, 4);
    AtNext(events, 5);
    AtAll(events);
  }

  lemma AtAll(events: seq<PairEvent>)
    ensures At(events, |events|) == Reaches(1, Unlimited, Unlimited, events)
  {
    assert events[..|events|] == events;
  }

  lemma ReachesMore(events: seq<PairEvent>, more: seq<PairEvent>)
    ensures Reaches(1, Unlimited, Unlimited, events + more) ==
            Run(PairStep, Reaches(1, Unlimited, Unlimited, events), more)
  {
    hide PairStep, Joined;
    RunSplit(PairStep, Joined(1, Unlimited, Unlimited), events, more);
  }

  /** The end that puts the direction together is cancelled, takes the FIN all the same, and passes the end on. */
  lemma ClosesAfterCancel()
    ensures Reaches(1, Unlimited, Unlimited, BothClose()).here.dir.cancelled
    ensures Delivered(Reaches(1, Unlimited, Unlimited, BothClose() + [There(Gather(BondSystem.Merge))]).here)
  {
    var merge := There(Gather(BondSystem.Merge));
    assert PairStep(InChannel(), merge).here == End(Empty(1, [], [FIN0], true), false, Open) by {
      assert [FIN0][1..] == [] && [] + [FIN0] == [FIN0];
    }
    hide PairStep, Reaches, Complete, Enough, NeverOverfull, Delivered;
    CancelledInTime();
    ReachesMore(BothClose(), [merge]);
    RunOne(PairStep, InChannel(), merge);
    DeliveredExactly(1, Unlimited, Unlimited, BothClose() + [merge]);
    FinCompletes();
  }

  lemma FinCompletes()
    ensures Complete([FIN0], 0) && Enough(Unlimited, [])
  {
    assert [FIN0][0] == FIN0;
    assert FIN0 in [FIN0];
  }

  /** Or it leaves first: then, whatever happens later, the direction is never delivered. */
  lemma LeavesAfterCancel(events: seq<PairEvent>)
    ensures !Delivered(Reaches(1, Unlimited, Unlimited, BothClose() + [There(Gather(Leave))] + events).here)
  {
    var leave := There(Gather(Leave));
    var q := PairStep(InChannel(), leave);
    assert q.here.dir == Empty(1, [FIN0], [], true).(left := true);
    assert Far(q.here.dir).status == Running;
    hide PairStep, Reaches, Far;
    CancelledInTime();
    ReachesMore(BothClose(), [leave]);
    RunOne(PairStep, InChannel(), leave);
    ReachesMore(BothClose() + [leave], events);
    RunOver(q, Far(q.here.dir), events);
  }

  // ---------- an end passed on for a read that was cut off ----------

  /** This end has read and written one chunk, and its FIN if `fin`; the other end has merged `m` of them. */
  function Upward(data: bytes, fin: bool, m: nat): System
    requires m <= 2
  {
    var log := if fin then [Frame(DATA, 0, data), Frame(FIN, 1, [])] else [Frame(DATA, 0, data)];
    System([data], if fin then Finished else Reading, 1, OneLane(log, m), [], log[..if m <= |log| then m else |log|],
           Unlimited, false, false)
  }

  /** The other end had nothing to send: its FIN is merged here if `m`, and this end cancelled if `cancelled`. */
  function Downward(m: bool, cancelled: bool): System {
    Empty(if m then 1 else 0, [], if m then [FIN0] else [], cancelled)
  }

  /** The other end closes at once; this end's read is cut off after one chunk, and its FIN goes out all the same. */
  function HalfClose(data: bytes): seq<PairEvent> {
    [There(Split(EndOfInput)), There(Split(SendFin(Whole))), Here(Split(Read(data))), Here(Split(Try(Whole))),
     Here(Gather(Receive(0))), Here(Gather(BondSystem.Merge)), Here(CancelBy(MergerDone)), Here(CutRead),
     Here(Split(SendFin(Whole))), There(Gather(Receive(0))), There(Gather(BondSystem.Merge)),
     There(Gather(Receive(0))), There(Gather(BondSystem.Merge))]
  }

  function Stage(data: bytes, n: nat): Pair
    requires n <= 13
  {
    At(HalfClose(data), n)
  }

  lemma OneMore(data: bytes, n: nat)
    requires n < 13
    ensures Stage(data, n + 1) == PairStep(Stage(data, n), HalfClose(data)[n])
  {
    hide PairStep, At;
    AtNext(HalfClose(data), n);
  }

  lemma TheyClose(data: bytes)
    ensures Stage(data, 2) ==
            Pair(End(BondSystem.Opened(1, Unlimited), false, Open), End(Downward(false, false), false, Open))
  {
    hide At, BondSystem.Step, Empty, Far;
    AtStart(HalfClose(data));
    OneMore(data, 0);
    OneMore(data, 1);
    FinOut();
  }

  lemma WeWrite(data: bytes)
    requires 0 < |data| <= MAX_CHUNK
    ensures Stage(data, 4) == Pair(End(Upward(data, false, 0), false, Open), End(Downward(false, false), false, Open))
  {
    hide Stage, Downward, Far;
    TheyClose(data);
    OneMore(data, 2);
    OneMore(data, 3);
    var s := BondSystem.Opened(1, Unlimited);
    assert s.lanes == OneLane([], 0) && s.read + [data] == [data];
    assert [] + [Frame(DATA, 0, data)] == [Frame(DATA, 0, data)];
  }

  lemma DirInv(data: bytes, n: nat)
    requires n <= 13
    ensures Inv(Stage(data, n).here.dir) && Inv(Stage(data, n).there.dir)
  {
    hide Inv, Far;
    ReachesInv(1, Unlimited, Unlimited, HalfClose(data)[..n]);
  }

  lemma WeMerge(data: bytes)
    requires 0 < |data| <= MAX_CHUNK
    ensures Stage(data, 6) == Pair(End(Upward(data, false, 0), false, Open), End(Downward(true, false), false, Open))
  {
    hide Inv, BondSystem.Step, Upward, Stage;
    WeWrite(data);
    DirInv(data, 4);
    ReceiveMerge(Downward(false, false), 0);
    OneMore(data, 4);
    OneMore(data, 5);
  }

  lemma FinCloses()
    ensures Far(Downward(true, false)).status == Closed
  {
    var recv := [Frame(FIN, 0, [])];
    assert recv[0] in recv;
    FewAlwaysFit(recv, []);
  }

  lemma WeAreCancelled(data: bytes)
    requires 0 < |data| <= MAX_CHUNK
    ensures Stage(data, 7) ==
            Pair(End(Upward(data, false, 0), false, MergerDone), End(Downward(true, true), false, Open))
  {
    hide Stage, Far, Upward;
    WeMerge(data);
    FinCloses();
    OneMore(data, 6);
  }

  lemma WeAreCut(data: bytes)
    requires 0 < |data| <= MAX_CHUNK
    ensures Stage(data, 9) == Pair(End(Upward(data, true, 0), true, MergerDone), End(Downward(true, true), false, Open))
  {
    hide Stage, Far, Downward;
    WeAreCancelled(data);
    OneMore(data, 7);
    OneMore(data, 8);
    assert [Frame(DATA, 0, data)] + [Frame(FIN, 1, [])] == [Frame(DATA, 0, data), Frame(FIN, 1, [])];
  }

  lemma TheyMerge(data: bytes, m: nat)
    requires 0 < |data| <= MAX_CHUNK && m <= 2
    ensures Stage(data, 9 + 2 * m) ==
            Pair(End(Upward(data, true, m), true, MergerDone), End(Downward(true, true), false, Open))
  {
    hide Inv, BondSystem.Step, Downward, Stage;
    if m == 0 {
      WeAreCut(data);
    } else {
      TheyMerge(data, m - 1);
      DirInv(data, 7 + 2 * m);
      ReceiveMerge(Upward(data, true, m - 1), 0);
      OneMore(data, 7 + 2 * m);
      OneMore(data, 8 + 2 * m);
      var log := [Frame(DATA, 0, data), Frame(FIN, 1, [])];
      assert log[..m] == log[..m - 1] + [log[m - 1]];
    }
  }

  /** The far end closes its connection as at the end of the stream, although the read was cut off because the other
      direction had ended. */
  lemma CutPassedOnAsEnd(data: bytes)
    requires 0 < |data| <= MAX_CHUNK
    ensures var p := Reaches(1, Unlimited, Unlimited, HalfClose(data));
            p.here.cut && p.here.cause == MergerDone && Far(p.here.dir).status == Closed && Far(p.here.dir).out == data
  {
    TheyMerge(data, 2);
    assert HalfClose(data)[..13] == HalfClose(data);
    var s := Upward(data, true, 2);
    var recv := s.arrived;
    assert recv == [Frame(DATA, 0, data), Frame(FIN, 1, [])];
    assert recv[0] in recv && recv[1] in recv;
    hide Stage, Reaches, After;
    assert 0 in Seqs(recv);
    FewAlwaysFit(recv, [data]);
    OutputIsPrefix(Unlimited, recv, [data]);
    assert [data][..0] == [];
    assert Join([data]) == [] + data == data;
  }
}
