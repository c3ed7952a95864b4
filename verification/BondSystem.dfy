/** A whole bond: one side splits what it reads over the lanes, the other puts the lanes together again. */
module BondSystem {
  import opened Words
  import opened BondCodec
  import opened BondReorder
  import opened BondSinks
  import opened Runs

  const RECV_BUF: nat := 1024

  /** A lane: the frames written to it whole, the torn front of a frame whose write failed, and how many
      frames the reader at the far end has taken off it. */
  datatype Lane = Lane(log: seq<Frame>, torn: bytes, taken: nat, dead: bool) {
    function Wire(): bytes {
      Stream(log) + torn
    }

    function Unread(): bytes
      requires taken <= |log| && |Stream(log[..taken])| <= |Stream(log)|
    {
      Wire()[|Stream(log[..taken])|..]
    }
  }

  /** Where the splitter is: reading, writing the last chunk with `left` lanes to try, sending FIN to lane `next`,
      done, or gone without sending FIN. */
  datatype Phase = Reading | Writing(left: nat) | Finishing(next: nat) | Finished | Halted

  /** `read` and `arrived` are the histories of both ends: every chunk read from the one connection, every frame
      the reassembly took from the channel. `cancelled` says that the context of the far end is done, `left` that the
      reassembly has noticed and returned. */
  datatype System = System(read: seq<bytes>, phase: Phase, laneIdx: uint64, lanes: seq<Lane>,
                           channel: seq<Frame>, arrived: seq<Frame>, sink: Sink, cancelled: bool, left: bool)

  /** A write goes through, or fails after some of the frame's bytes have left. */
  datatype Outcome = Whole | Broken(sent: nat)

  datatype Event =
    | Read(data: bytes)
    | Try(outcome: Outcome)
    | EndOfInput
    | SendFin(outcome: Outcome)
    | Halt
    | LaneDies(lane: nat)
    | Receive(lane: nat)
    | Merge
    | Cancel
    | Leave

  function Opened(n: nat, sink: Sink): System {
    System([], Reading, 0, seq(n, _ => Lane([], [], 0, false)), [], [], sink, false, false)
  }

  function Put(l: Lane, f: Frame, o: Outcome): Lane {
    match o
    case Whole => l.(log := l.log + [f])
    case Broken(k) => if k >= |Encode(f)| then l.(log := l.log + [f]) else l.(torn := Encode(f)[..k])
  }

  function TriesLeft(left: nat): Phase {
    if left <= 1 then Halted else Writing(left - 1)
  }

  /** One turn of the round-robin: a dead lane is passed over, a failed write kills its lane. */
  function TryLane(s: System, left: nat, idx: nat, o: Outcome): System
    requires idx < |s.lanes| && 0 < |s.read| < TWO64
  {
    var l := s.lanes[idx];
    var f := Frame(DATA, |s.read| - 1, s.read[|s.read| - 1]);
    var t := s.(laneIdx := Add64(s.laneIdx, 1));
    if l.dead then t.(phase := TriesLeft(left))
    else if o == Whole then t.(lanes := s.lanes[idx := Put(l, f, o)], phase := Reading)
    else t.(lanes := s.lanes[idx := Put(l, f, o).(dead := true)], phase := TriesLeft(left))
  }

  function FinLane(s: System, i: nat, o: Outcome): System
    requires i < |s.lanes| && |s.read| < TWO64
  {
    var l := s.lanes[i];
    var t := s.(phase := if i + 1 == |s.lanes| then Finished else Finishing(i + 1));
    if l.dead then t else t.(lanes := s.lanes[i := Put(l, Frame(FIN, |s.read|, []), o)])
  }

  /** The lane's reader parses its next frame and hands it over. */
  function ReceiveFrom(s: System, i: nat): System
    requires i < |s.lanes|
  {
    var l := s.lanes[i];
    if l.taken > |l.log| || |Stream(l.log[..l.taken])| > |Stream(l.log)| then s else
      match ReadFrame(l.Unread())
      case Got(f, _) => s.(lanes := s.lanes[i := l.(taken := l.taken + 1)], channel := s.channel + [f])
      case _ => s
  }

  /** One step of either end; an event whose turn it is not changes nothing. Once the context is done the reassembly may
      still take frames: it chooses at random between the two until it leaves. */
  function Step(s: System, e: Event): System {
    match e
    case Read(data) =>
      if s.phase == Reading && 0 < |data| <= MAX_CHUNK && |s.read| + 1 < TWO64 then
        s.(read := s.read + [data], phase := Writing(|s.lanes|))
      else s
    case Try(o) =>
      if s.phase.Writing? && s.lanes != [] && 0 < |s.read| < TWO64 then
        TryLane(s, s.phase.left, s.laneIdx % |s.lanes|, o)
      else s
    case EndOfInput => if s.phase == Reading then s.(phase := Finishing(0)) else s
    case SendFin(o) =>
      if s.phase.Finishing? && s.phase.next < |s.lanes| && |s.read| < TWO64 then FinLane(s, s.phase.next, o) else s
    case Halt => if s.phase == Reading then s.(phase := Halted) else s
    case LaneDies(i) => if i < |s.lanes| then s.(lanes := s.lanes[i := s.lanes[i].(dead := true)]) else s
    case Receive(i) => if i < |s.lanes| && |s.channel| < RECV_BUF then ReceiveFrom(s, i) else s
    case Merge =>
      if s.channel != [] && !s.left then
        s.(channel := s.channel[1..], arrived := s.arrived + [s.channel[0]])
      else s
    case Cancel => s.(cancelled := true)
    case Leave => if s.cancelled then s.(left := true) else s
  }

  /** The far end, after the frames that have reached it. */
  function Far(s: System): Reorder {
    After(s.sink, s.arrived)
  }

  // ---------------------------------------------------------------- what every step keeps

  ghost predicate Ended(p: Phase) {
    p.Finishing? || p.Finished?
  }

  /** A frame the splitter wrote: a chunk under its number, or the FIN once the input has ended. */
  ghost predicate Real(f: Frame, read: seq<bytes>, ended: bool) {
    && |f.data| <= MAX_CHUNK
    && (|| (f.typ == DATA && f.seqNo < |read| && f.data == read[f.seqNo])
        || (f.typ == FIN && f.seqNo == |read| && ended))
  }

  ghost predicate AllReal(fs: seq<Frame>, read: seq<bytes>, ended: bool) {
    forall f | f in fs :: Real(f, read, ended)
  }

  ghost predicate LaneOk(l: Lane, read: seq<bytes>, ended: bool, known: set<Frame>) {
    && AllReal(l.log, read, ended)
    && Torn(l.torn)
    && l.taken <= |l.log|
    && (forall f | f in l.log[..l.taken] :: f in known)
  }

  ghost predicate LanesOk(lanes: seq<Lane>, read: seq<bytes>, ended: bool, known: set<Frame>) {
    forall i | 0 <= i < |lanes| :: LaneOk(lanes[i], read, ended, known)
  }

  ghost predicate Written(lanes: seq<Lane>, f: Frame) {
    exists i :: 0 <= i < |lanes| && f in lanes[i].log
  }

  /** Nothing is written to a lane after a torn frame. */
  ghost predicate Clean(lanes: seq<Lane>, p: Phase) {
    forall i | 0 <= i < |lanes| ::
      lanes[i].torn == [] || lanes[i].dead || (p.Finishing? && i < p.next) || p.Finished?
  }

  /** How many chunks are surely on some lane. */
  ghost function Committed(s: System): int {
    match s.phase
    case Writing(_) => |s.read| - 1
    case Halted => 0
    case _ => |s.read|
  }

  ghost predicate Covered(s: System) {
    forall m: nat | m < Committed(s) && m < |s.read| && m < TWO64 :: Written(s.lanes, Frame(DATA, m, s.read[m]))
  }

  ghost function Known(s: System): set<Frame> {
    (set f | f in s.channel) + (set f | f in s.arrived)
  }

  ghost predicate KnownReal(s: System) {
    forall f | f in Known(s) :: Real(f, s.read, Ended(s.phase))
  }

  ghost predicate Shape(s: System) {
    && s.lanes != []
    && |s.read| < TWO64
    && (s.phase.Writing? ==> s.read != [])
    && (s.phase.Finishing? ==> s.phase.next < |s.lanes|)
    && (forall c | c in s.read :: |c| <= MAX_CHUNK)
  }

  ghost predicate Inv(s: System) {
    && Shape(s)
    && LanesOk(s.lanes, s.read, Ended(s.phase), Known(s))
    && Clean(s.lanes, s.phase)
    && KnownReal(s)
    && Covered(s)
  }

  /** The input only grows, and not after it has ended. */
  ghost predicate Grows(read: seq<bytes>, ended: bool, read': seq<bytes>, ended': bool) {
    read <= read' && (ended ==> read' == read && ended')
  }

  lemma LanesGrow(lanes: seq<Lane>, read: seq<bytes>, ended: bool, known: set<Frame>,
                  read': seq<bytes>, ended': bool, known': set<Frame>)
    requires LanesOk(lanes, read, ended, known) && Grows(read, ended, read', ended') && known <= known'
    ensures LanesOk(lanes, read', ended', known')
  {
    hide Torn;
    forall i | 0 <= i < |lanes|
      ensures LaneOk(lanes[i], read', ended', known')
    {
      assert LaneOk(lanes[i], read, ended, known);
    }
  }

  lemma PutOk(l: Lane, f: Frame, o: Outcome, read: seq<bytes>, ended: bool, known: set<Frame>)
    requires LaneOk(l, read, ended, known) && l.torn == [] && Real(f, read, ended)
    ensures LaneOk(Put(l, f, o), read, ended, known) && l.log <= Put(l, f, o).log
    ensures o == Whole ==> f in Put(l, f, o).log && Put(l, f, o).torn == []
    ensures Put(l, f, o).dead == l.dead
  {
    hide Encode;
    var p := Put(l, f, o);
    assert p.log[..l.taken] == l.log[..l.taken];
    if p.torn != [] {
      assert p.torn < Encode(f);
    }
  }

  /** Writing to lane `i` loses no chunk, and puts on it the one that was missing. */
  lemma CoveredKeeps(s: System, t: System, i: nat)
    requires Shape(s) && Covered(s) && i < |s.lanes| == |t.lanes| && s.read <= t.read
    requires forall j | 0 <= j < |s.lanes| && j != i :: t.lanes[j] == s.lanes[j]
    requires s.lanes[i].log <= t.lanes[i].log
    requires |t.read| < TWO64
    requires Committed(t) <= Committed(s)
      || (Committed(t) == Committed(s) + 1 == |t.read| &&
          Frame(DATA, |t.read| - 1, t.read[|t.read| - 1]) in t.lanes[i].log)
    ensures Covered(t)
  {
    forall m: nat | m < Committed(t) && m < |t.read| && m < TWO64
      ensures Written(t.lanes, Frame(DATA, m, t.read[m]))
    {
      var f := Frame(DATA, m, t.read[m]);
      if m < Committed(s) {
        assert Written(s.lanes, f);
        var j :| 0 <= j < |s.lanes| && f in s.lanes[j].log;
        assert f in t.lanes[j].log;
      } else {
        assert f in t.lanes[i].log;
      }
    }
  }

  lemma ReadKeeps(s: System, data: bytes)
    requires Inv(s)
    ensures Inv(Step(s, Read(data)))
  {
    var t := Step(s, Read(data));
    if t != s {
      LanesGrow(s.lanes, s.read, false, Known(s), t.read, false, Known(t));
      hide LanesOk;
      CoveredKeeps(s, t, 0);
    }
  }

  /** Replacing lane `i` by one with more on it keeps everything, if the phases match. */
  lemma LaneKeeps(s: System, t: System, i: nat)
    requires Inv(s) && Shape(t) && i < |s.lanes|
    requires t.read == s.read && Ended(t.phase) == Ended(s.phase)
    requires t.channel == s.channel && t.arrived == s.arrived
    requires |t.lanes| == |s.lanes| && t.lanes == s.lanes[i := t.lanes[i]]
    requires LaneOk(t.lanes[i], s.read, Ended(s.phase), Known(s)) && s.lanes[i].log <= t.lanes[i].log
    requires Clean(t.lanes, t.phase)
    requires Committed(t) <= Committed(s)
      || (Committed(t) == Committed(s) + 1 == |t.read| &&
          Frame(DATA, |t.read| - 1, t.read[|t.read| - 1]) in t.lanes[i].log)
    ensures Inv(t)
  {
    hide Shape, LaneOk, Clean, Ended, Real, Committed;
    assert LanesOk(t.lanes, t.read, Ended(t.phase), Known(t));
    hide LanesOk;
    assert |t.read| < TWO64 by { ShortInput(t); }
    CoveredKeeps(s, t, i);
  }

  lemma ShortInput(s: System)
    requires Shape(s)
    ensures |s.read| < TWO64
  {}

  lemma TryKeeps(s: System, i: nat, o: Outcome)
    requires Inv(s) && s.phase.Writing? && i < |s.lanes|
    ensures Inv(TryLane(s, s.phase.left, i, o))
  {
    hide Torn, Real, Put, Known, KnownReal;
    var t := TryLane(s, s.phase.left, i, o);
    var l := s.lanes[i];
    var f := Frame(DATA, |s.read| - 1, s.read[|s.read| - 1]);
    assert LaneOk(l, s.read, false, Known(s));
    if !l.dead {
      assert Real(f, s.read, false) by { LastChunk(s); }
      PutOk(l, f, o, s.read, false, Known(s));
    }
    hide LanesOk, LaneOk, Covered;
    LaneKeeps(s, t, i);
  }

  lemma LastChunk(s: System)
    requires Shape(s) && s.read != []
    ensures Real(Frame(DATA, |s.read| - 1, s.read[|s.read| - 1]), s.read, false)
  {}

  lemma EndKeeps(s: System)
    requires Inv(s)
    ensures Inv(Step(s, EndOfInput))
  {
    var t := Step(s, EndOfInput);
    if t != s {
      LanesGrow(s.lanes, s.read, false, Known(s), t.read, true, Known(t));
      hide LanesOk;
      CoveredKeeps(s, t, 0);
    }
  }

  lemma FinKeeps(s: System, o: Outcome)
    requires Inv(s)
    ensures Inv(Step(s, SendFin(o)))
  {
    if s.phase.Finishing? {
      hide Torn, Put, Known, KnownReal;
      var t := Step(s, SendFin(o));
      var i := s.phase.next;
      assert LaneOk(s.lanes[i], s.read, true, Known(s));
      if !s.lanes[i].dead {
        PutOk(s.lanes[i], Frame(FIN, |s.read|, []), o, s.read, true, Known(s));
      }
      hide LanesOk, LaneOk, Covered, Real;
      LaneKeeps(s, t, i);
    }
  }

  /** A reader takes the next whole frame of its lane, or nothing. */
  lemma ReceiveNext(s: System, i: nat)
    requires Inv(s) && i < |s.lanes|
    ensures var l := s.lanes[i];
            ReceiveFrom(s, i) ==
            if l.taken < |l.log| then
              s.(lanes := s.lanes[i := l.(taken := l.taken + 1)], channel := s.channel + [l.log[l.taken]])
            else s
  {
    hide Torn, Stream, ReadFrame, KnownReal, Covered, Clean, Shape;
    var l := s.lanes[i];
    assert LaneOk(l, s.read, Ended(s.phase), Known(s));
    assert forall k | 0 <= k < |l.log| :: l.log[k] in l.log;
    NextOnLane(l.log, l.torn, l.taken);
  }

  /** Handing a genuine frame to the channel. */
  lemma ChannelKeeps(s: System, f: Frame)
    requires Inv(s) && Real(f, s.read, Ended(s.phase))
    ensures Inv(s.(channel := s.channel + [f]))
    ensures Known(s) <= Known(s.(channel := s.channel + [f])) && f in Known(s.(channel := s.channel + [f]))
  {
    var t := s.(channel := s.channel + [f]);
    hide Real;
    assert Known(t) == Known(s) + {f};
    hide Known, Shape;
    LanesGrow(s.lanes, s.read, Ended(s.phase), Known(s), t.read, Ended(t.phase), Known(t));
  }

  lemma ReceiveKeeps(s: System, i: nat)
    requires Inv(s) && i < |s.lanes|
    ensures Inv(ReceiveFrom(s, i))
  {
    hide ReceiveFrom;
    ReceiveNext(s, i);
    var l, t := s.lanes[i], ReceiveFrom(s, i);
    if l.taken < |l.log| {
      var f := l.log[l.taken];
      var u := s.(channel := s.channel + [f]);
      hide Torn, Known, KnownReal, Covered;
      assert LaneOk(l, s.read, Ended(s.phase), Known(s));
      assert Real(f, s.read, Ended(s.phase)) by { assert f in l.log; }
      hide Real;
      ChannelKeeps(s, f);
      assert LaneOk(l, u.read, Ended(u.phase), Known(u));
      hide LanesOk;
      TakenOk(l, u.read, Ended(u.phase), Known(u));
      hide LaneOk;
      LaneKeeps(u, t, i);
    }
  }

  lemma TakenOk(l: Lane, read: seq<bytes>, ended: bool, known: set<Frame>)
    requires LaneOk(l, read, ended, known) && l.taken < |l.log| && l.log[l.taken] in known
    ensures LaneOk(l.(taken := l.taken + 1), read, ended, known)
  {
    assert l.log[..l.taken + 1] == l.log[..l.taken] + [l.log[l.taken]];
  }

  lemma MergeKeeps(s: System)
    requires Inv(s)
    ensures Inv(Step(s, Merge))
  {
    var t := Step(s, Merge);
    if t != s {
      assert s.channel == [s.channel[0]] + t.channel;
      assert Known(t) == Known(s);
      hide Known, LanesOk;
      CoveredKeeps(s, t, 0);
    }
  }

  lemma LaneDiesKeeps(s: System, i: nat)
    requires Inv(s)
    ensures Inv(Step(s, LaneDies(i)))
  {
    hide Torn, Real, KnownReal;
    var t := Step(s, LaneDies(i));
    assert Known(t) == Known(s);
    hide Known;
    if i < |s.lanes| {
      CoveredKeeps(s, t, i);
      FrameKnownReal(s, t);
    }
  }

  lemma HaltKeeps(s: System)
    requires Inv(s)
    ensures Inv(Step(s, Halt))
  {
    hide LanesOk, Real, KnownReal;
    var t := Step(s, Halt);
    assert Known(t) == Known(s);
    hide Known;
    FrameKnownReal(s, t);
  }

  /** What the far end knows stays real while neither input nor its end changes. */
  lemma FrameKnownReal(s: System, t: System)
    requires KnownReal(s) && Known(t) == Known(s) && t.read == s.read && (Ended(s.phase) <==> Ended(t.phase))
    ensures KnownReal(t)
  {}

  lemma FlagsKeep(s: System, cancelled: bool, left: bool)
    requires Inv(s)
    ensures Inv(s.(cancelled := cancelled, left := left))
  {
    hide LanesOk, KnownReal, Clean, Written;
    var t := s.(cancelled := cancelled, left := left);
    assert Known(t) == Known(s);
    hide Known;
    FrameKnownReal(s, t);
  }

  lemma StepKeeps(s: System, e: Event)
    requires Inv(s)
    ensures Inv(Step(s, e))
  {
    hide Inv;
    match e
    case Read(data) => ReadKeeps(s, data);
    case Try(o) =>
      if s.phase.Writing? && s.lanes != [] {
        TryKeeps(s, s.laneIdx % |s.lanes|, o);
      }
    case EndOfInput => EndKeeps(s);
    case SendFin(o) => FinKeeps(s, o);
    case Receive(i) =>
      if i < |s.lanes| {
        ReceiveKeeps(s, i);
      }
    case Merge => MergeKeeps(s);
    case Halt => HaltKeeps(s);
    case LaneDies(i) => LaneDiesKeeps(s, i);
    case Cancel => FlagsKeep(s, true, s.left);
    case Leave => FlagsKeep(s, s.cancelled, true);
  }

  lemma EndStep(s: System)
    requires s.phase == Reading
    ensures Step(s, EndOfInput) == s.(phase := Finishing(0))
  {}

  lemma OpenedInv(n: nat, sink: Sink)
    requires n > 0
    ensures Inv(Opened(n, sink))
  {}

  /** Every state a bond of `n` lanes can reach. */
  function Reached(n: nat, sink: Sink, events: seq<Event>): System {
    Run(Step, Opened(n, sink), events)
  }

  lemma ReachedInv(n: nat, sink: Sink, events: seq<Event>)
    requires n > 0
    ensures Inv(Reached(n, sink, events))
  {
    hide Inv, Step, Opened;
    OpenedInv(n, sink);
    forall s, e | Inv(s)
      ensures Inv(Step(s, e))
    {
      StepKeeps(s, e);
    }
    RunKeeps(Step, s => Inv(s), Opened(n, sink), events);
  }

  // ---------------------------------------------------------------- the bond's promises

  lemma {:induction false} FinArrived(sink: Sink, recv: seq<Frame>)
    ensures After(sink, recv).fin.FinAt? ==> HasFin(recv)
    ensures After(sink, recv).status == Closed ==> After(sink, recv).fin.FinAt?
  {
    hide Deliver, Seqs, HasFin;
    if recv != [] {
      var k := |recv| - 1;
      FinArrived(sink, recv[..k]);
      SeqsNext(recv[..k], recv[k]);
      assert recv == recv[..k] + [recv[k]];
      DeliverFin(After(sink, recv[..k]), recv[k]);
    }
  }

  lemma DeliverFin(r: Reorder, f: Frame)
    ensures var d := Deliver(r, f);
            && (d.fin.FinAt? ==> r.fin.FinAt? || f.typ == FIN)
            && (d.status == Closed ==> (r.status == Closed && d.fin == r.fin) || d.fin.FinAt?)
  {
    hide Drain;
    DrainKeepsFin(Take(r, f));
  }

  lemma {:induction false} DrainKeepsFin(r: Reorder)
    ensures Drain(r).fin == r.fin && (r.status != Closed ==> Drain(r).status != Closed)
    decreases |r.pending|
  {
    if r.status == Running && r.due in r.pending {
      assert |r.pending.Keys - {r.due}| < |r.pending.Keys|;
      DrainKeepsFin(Emit(r));
    }
  }

  lemma ArrivedGenuine(s: System)
    requires Inv(s)
    ensures AllGenuine(s.arrived, s.read)
    ensures HasFin(s.arrived) ==> Ended(s.phase)
    ensures |s.read| < TWO64
  {
    hide LanesOk, Clean, Covered;
    forall f | f in s.arrived
      ensures Genuine(f, s.read)
    {
      assert f in Known(s);
    }
    if HasFin(s.arrived) {
      var f :| f in s.arrived && f.typ == FIN;
      assert f in Known(s);
    }
  }

  /** In every state of every run (any lanes dying, any writes torn, any interleaving of readers, any failure of
      the destination) the bytes out are a prefix of the bytes read in, and the end is passed on only when the
      input has ended and every byte of it is out. */
  lemma BondSafety(n: nat, sink: Sink, events: seq<Event>)
    requires n > 0
    ensures var s := Reached(n, sink, events);
            && Far(s).out <= Join(s.read)
            && (Far(s).status == Closed ==> Far(s).out == Join(s.read) && Ended(s.phase))
  {
    hide Reached, Inv, After;
    var s := Reached(n, sink, events);
    ReachedInv(n, sink, events);
    ArrivedGenuine(s);
    OutputIsPrefix(s.sink, s.arrived, s.read);
    FinArrived(s.sink, s.arrived);
  }

  /** The splitter has finished, its FIN is on some lane, and all that is on the lanes has been merged. */
  ghost predicate AllDelivered(s: System) {
    && s.phase == Finished
    && Written(s.lanes, Frame(FIN, if |s.read| < TWO64 then |s.read| else 0, []))
    && (forall i | 0 <= i < |s.lanes| :: s.lanes[i].taken == |s.lanes[i].log|)
    && s.channel == []
  }

  lemma WrittenArrived(s: System, f: Frame)
    requires Inv(s) && AllDelivered(s) && Written(s.lanes, f)
    ensures f in s.arrived
  {
    hide Torn, Real, Covered, KnownReal, Clean;
    var i :| 0 <= i < |s.lanes| && f in s.lanes[i].log;
    var l := s.lanes[i];
    assert LaneOk(l, s.read, true, Known(s));
    assert l.log[..l.taken] == l.log;
  }

  lemma EverythingArrived(s: System)
    requires Inv(s) && AllDelivered(s)
    ensures Complete(s.arrived, |s.read|)
  {
    hide LanesOk, Clean, KnownReal;
    var fin := Frame(FIN, |s.read|, []);
    WrittenArrived(s, fin);
    assert fin in s.arrived && fin.typ == FIN;
    forall m: nat | m < |s.read|
      ensures m in Seqs(s.arrived)
    {
      var f := Frame(DATA, m, s.read[m]);
      assert Written(s.lanes, f);
      WrittenArrived(s, f);
    }
  }

  /** Once the splitter has finished with a FIN through and all it wrote is merged, the far end has passed on the
      whole stream and its end, exactly when its table of waiting chunks was never full on the way and the destination
      takes every write: lanes that died and frames that broke off lose nothing. */
  lemma BondCompletes(n: nat, sink: Sink, events: seq<Event>)
    requires n > 0
    requires AllDelivered(Reached(n, sink, events))
    ensures var s := Reached(n, sink, events);
            Far(s).status == Closed && Far(s).out == Join(s.read) <==>
            NeverOverfull(s.arrived, |s.read|) && Enough(sink, s.read)
  {
    hide Inv, After, Step, Enough;
    var s := Reached(n, sink, events);
    ReachedInv(n, sink, events);
    SinkKept(n, sink, events);
    hide Reached;
    ArrivedGenuine(s);
    EverythingArrived(s);
    OutputIsPrefix(s.sink, s.arrived, s.read);
    ClosedWithSink(s.sink, s.arrived, s.read);
  }

  lemma SinkKept(n: nat, sink: Sink, events: seq<Event>)
    ensures Reached(n, sink, events).sink == sink
  {
    RunKeeps(Step, (s: System) => s.sink == sink, Opened(n, sink), events);
  }
}
