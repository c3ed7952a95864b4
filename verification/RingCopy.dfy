/** The receive ring of the Windows bind with its memory: a completed packet is copied out of its slot only after the
    next request has been posted. */
module RingCopy {
  import opened Words
  import opened Runs
  import opened RingBuffer

  /** How long a slot is. */
  const PACKET: nat := 2016

  datatype Datagram = Datagram(addr: int, data: bytes)

  /** The front of `data` that fits `n` bytes. */
  function Front(data: bytes, n: nat): (r: bytes)
    ensures r <= data && |r| <= n
  {
    if |data| <= n then data else data[..n]
  }

  /** `data` written over the front of `under`. */
  function Over(under: bytes, data: bytes): (r: bytes)
    ensures |r| == |under|
  {
    var front := Front(data, |under|);
    front + under[|front|..]
  }

  /** The kernel puts a datagram in a slot: its bytes over the slot's front, and its sender's address. */
  function Lay(slot: Datagram, d: Datagram): Datagram {
    Datagram(d.addr, Over(slot.data, d.data))
  }

  /** The ring and its slots. The kernel fills its oldest requests first: the first `filled` of those it holds are
      complete and not yet collected. `got` is what it put in for each request, `fills` how many it has filled in all;
      `reading` is the request whose packet `Receive` is about to copy, `up` what has been copied. */
  datatype Rx = Rx(s: State, filled: nat, mem: seq<Datagram>, got: map<nat, Datagram>, fills: nat,
                   reading: Reading, up: seq<Datagram>)

  /** A request collected, with the length its completion reports, and then the address read from its slot. */
  datatype Reading = Idle | Collected(push: nat, len: nat) | Addressed(push: nat, len: nat, addr: int)

  const BLANK: bytes := seq(PACKET, _ => 0)

  function Started(): (x: Rx) {
    Rx(Fresh(), 0, seq(SLOTS, _ => Datagram(0, BLANK)), map[], 0, Idle, [])
  }

  datatype Act =
    | Open(accepted: bool)
    | Fill(d: Datagram)
    | Collect(accepted: bool)
    | TakeAddr
    | Copy(room: nat)
    | Skip

  /** Opening posts a request; the kernel fills one; `Receive` collects a completion, gives its slot back and posts the
      next request, and then, if that was accepted and the packet fitted its slot, reads the address and copies as many
      bytes as the completion reports, or, after an error status, does not. */
  function Step(x: Rx, a: Act): Rx {
    match a
    case Open(accepted) => x.(s := RxStep(x.s, Insert(accepted)))
    case Fill(d) =>
      if x.filled < |x.s.held| && |x.mem| == SLOTS then
        var h := x.s.held[x.filled];
        x.(filled := x.filled + 1, mem := x.mem[SlotNo(h) := Lay(x.mem[SlotNo(h)], d)], got := x.got[h := d],
           fills := x.fills + 1)
      else x
    case Collect(accepted) =>
      if x.reading == Idle && x.s.inserted == SLOTS && 0 < x.filled <= |x.s.held| && x.s.held[0] in x.got then
        var h := x.s.held[0];
        x.(s := RxStep(x.s, Receive(true, accepted)), filled := x.filled - 1,
           reading := if accepted && |x.got[h].data| <= PACKET then Collected(h, |x.got[h].data|) else Idle)
      else x
    case TakeAddr =>
      if x.reading.Collected? && |x.mem| == SLOTS then
        x.(reading := Addressed(x.reading.push, x.reading.len, x.mem[SlotNo(x.reading.push)].addr))
      else x
    case Copy(room) =>
      if x.reading.Addressed? && |x.mem| == SLOTS then
        var bytes := Front(Front(x.mem[SlotNo(x.reading.push)].data, x.reading.len), room);
        x.(up := x.up + [Datagram(x.reading.addr, bytes)], reading := Idle)
      else x
    case Skip => x.(reading := Idle)
  }

  /** The slot holds the datagram: its sender's address and, as far as they fit, its bytes. */
  ghost predicate Shows(slot: Datagram, d: Datagram) {
    slot.addr == d.addr && |slot.data| == PACKET && Front(d.data, PACKET) <= slot.data
  }

  lemma LayShows(slot: Datagram, d: Datagram)
    requires |slot.data| == PACKET
    ensures Shows(Lay(slot, d), d)
  {}

  /** What is left to see of a packet of `PACKET` bytes or fewer when another is put over it. */
  lemma LayOver(slot: Datagram, d: Datagram, later: Datagram)
    requires Shows(slot, d) && |d.data| <= PACKET
    ensures Front(Lay(slot, later).data, |d.data|) == Over(d.data, later.data)
  {
    var n := |d.data|;
    var all, part := Over(slot.data, later.data), Over(d.data, later.data);
    assert Front(slot.data, n) == d.data;
    forall i | 0 <= i < n
      ensures all[i] == part[i]
    {
      assert slot.data[i] == d.data[i];
    }
  }

  /** What the kernel has put in and nobody has collected is in its slots. */
  ghost predicate Intact(x: Rx) {
    forall i | 0 <= i < x.filled :: Complete(x, i)
  }

  ghost predicate Complete(x: Rx, i: nat) {
    && i < |x.s.held| && |x.mem| == SLOTS && x.s.held[i] in x.got
    && Shows(x.mem[SlotNo(x.s.held[i])], x.got[x.s.held[i]])
  }

  ghost predicate Sized(x: Rx) {
    |x.mem| == SLOTS && forall i | 0 <= i < SLOTS :: |x.mem[i].data| == PACKET
  }

  /** Requests are filled in the order they were posted. */
  ghost predicate InOrder(x: Rx) {
    && (forall g | g in x.got :: g < x.s.pushed)
    && (forall g, i | g in x.got && x.filled <= i < |x.s.held| :: g < x.s.held[i])
  }

  /** What there is to see in the slot of request `h`: its packet or, once the request posted on the same slot, 1024
      pushes later, has been filled, that one's address and its bytes over the packet's. */
  ghost function Sight(x: Rx, h: nat): Datagram
    requires h in x.got
  {
    if h + SLOTS in x.got then Datagram(x.got[h + SLOTS].addr, Over(x.got[h].data, x.got[h + SLOTS].data)) else x.got[h]
  }

  /** The slot about to be copied. */
  ghost predicate Slotted(x: Rx) {
    x.reading != Idle ==>
      var h, len := x.reading.push, x.reading.len;
      && h in x.got && len == |x.got[h].data| <= PACKET && |x.mem| == SLOTS && x.s.inserted == SLOTS
      && x.s.pushed <= h + SLOTS + 1 && (forall g | g in x.s.held :: h < g)
      && x.mem[SlotNo(h)].addr == Sight(x, h).addr && Front(x.mem[SlotNo(h)].data, len) == Sight(x, h).data
      && (h + SLOTS !in x.got ==> Shows(x.mem[SlotNo(h)], x.got[h]))
      && (x.reading.Addressed? && h + SLOTS !in x.got ==> x.reading.addr == x.got[h].addr)
  }

  ghost predicate Sound(x: Rx) {
    RxInv(x.s) && Sized(x) && x.filled <= |x.s.held| && Intact(x) && InOrder(x) && Slotted(x)
  }

  lemma HeldApart(s: State, i: nat, j: nat)
    requires Inv(s) && i < j < |s.held|
    ensures SlotNo(s.held[i]) != SlotNo(s.held[j])
  {
    hide SlotNo;
    assert s.returned + i <= s.held[i] < s.held[j] < s.pushed;
    SameSlot(s.held[i], s.held[j]);
  }

  lemma FillKeeps(x: Rx, d: Datagram)
    requires Sound(x)
    ensures Sound(Step(x, Fill(d)))
  {
    hide RxInv;
    var y := Step(x, Fill(d));
    if x.filled < |x.s.held| {
      FillIntact(x, d);
      FillSlotted(x, d);
      hide Intact, Slotted;
      assert RxInv(y.s);
      HeldOrder(x.s);
      assert InOrder(y);
    }
  }

  lemma HeldOrder(s: State)
    requires RxInv(s)
    ensures forall i, j | 0 <= i < j < |s.held| :: s.held[i] < s.held[j]
    ensures forall i | 0 <= i < |s.held| :: s.held[i] < s.pushed
  {
    hide Counts;
  }

  lemma FillIntact(x: Rx, d: Datagram)
    requires Sound(x) && x.filled < |x.s.held|
    ensures Intact(Step(x, Fill(d)))
  {
    var y, h := Step(x, Fill(d)), x.s.held[x.filled];
    hide SlotNo, Counts, HeldOut, Slotted, Shows, Lay;
    LayShows(x.mem[SlotNo(h)], d);
    forall i | 0 <= i < y.filled
      ensures Complete(y, i)
    {
      if i < x.filled {
        assert Complete(x, i);
        HeldApart(x.s, i, x.filled);
        assert x.s.held[i] != h;
      }
    }
  }

  lemma FillSlotted(x: Rx, d: Datagram)
    requires Sound(x) && x.filled < |x.s.held|
    ensures Slotted(Step(x, Fill(d)))
  {
    hide SlotNo, Counts, Intact, Shows, Over;
    var y, j := Step(x, Fill(d)), x.s.held[x.filled];
    if x.reading != Idle {
      var h := x.reading.push;
      assert j in x.s.held && h < j < x.s.pushed;
      SameSlot(h, j);
      if j == h + SLOTS {
        assert h + SLOTS !in x.got;
        LayOver(x.mem[SlotNo(h)], x.got[h], d);
      }
    }
  }

  /** Collecting a completion: the oldest request is given back and a new one posted. */
  lemma CollectState(s: State, accepted: bool)
    requires RxInv(s) && s.inserted == SLOTS && s.held != []
    ensures var t := RxStep(s, Receive(true, accepted));
            && RxInv(t) && t.inserted == SLOTS && t.pushed == s.pushed + 1 && t.returned == s.returned + 1
            && t.held == s.held[1..] + (if accepted then [s.pushed] else [])
  {
    hide Counts, HeldOut, Push, Return;
    RxKeeps(s, Receive(true, accepted));
    TakeBackKeeps(s, 1);
    PushExactly(TakeBack(s, 1).ring, TakeBack(s, 1).returned, TakeBack(s, 1).pushed);
  }

  lemma CollectKeeps(x: Rx, accepted: bool)
    requires Sound(x)
    ensures Sound(Step(x, Collect(accepted)))
  {
    var y := Step(x, Collect(accepted));
    if x.reading == Idle && x.s.inserted == SLOTS && 0 < x.filled {
      CollectState(x.s, accepted);
      assert Complete(x, 0);
      HeldBounds(x.s);
      HeldOrder(x.s);
      hide RxInv, RxStep, SlotNo;
      forall i | 0 <= i < y.filled
        ensures Complete(y, i)
      {
        assert Complete(x, i + 1);
      }
    }
  }

  /** A completion is collected oldest first, and its packet is to be copied if and only if the next post is accepted
      and the packet fitted its slot of 2016 bytes. */
  lemma CollectExactly(acts: seq<Act>, accepted: bool)
    requires var x := Ran(acts); x.reading == Idle && x.s.inserted == SLOTS && 0 < x.filled
    ensures var x := Ran(acts); var y := Step(x, Collect(accepted));
            && x.s.held != [] && x.s.held[0] in x.got
            && var h, len := x.s.held[0], |x.got[x.s.held[0]].data|;
               && y.reading == (if accepted && len <= 2016 then Collected(h, len) else Idle)
               && y.s.held == x.s.held[1..] + (if accepted then [x.s.pushed] else [])
               && (y.up, y.mem, y.got, y.filled) == (x.up, x.mem, x.got, x.filled - 1)
  {
    hide Ran;
    RanSound(acts);
    var x := Ran(acts);
    assert Complete(x, 0);
    CollectState(x.s, accepted);
    hide RxInv, RxStep, Sized, Intact, InOrder, Slotted, Shows;
  }

  lemma HeldBounds(s: State)
    requires RxInv(s) && s.held != []
    ensures s.pushed <= s.held[0] + SLOTS && s.held[0] < s.pushed
  {}

  lemma OpenKeeps(x: Rx, accepted: bool)
    requires Sound(x)
    ensures Sound(Step(x, Open(accepted)))
  {
    RxKeeps(x.s, Insert(accepted));
    OpenState(x.s, accepted);
    hide RxInv, RxStep, SlotNo;
    var y := Step(x, Open(accepted));
    forall i | 0 <= i < y.filled
      ensures Complete(y, i)
    {
      assert Complete(x, i);
    }
  }

  lemma OpenState(s: State, accepted: bool)
    requires RxInv(s)
    ensures var t := RxStep(s, Insert(accepted));
            if s.inserted < SLOTS then
              && t.pushed == s.pushed + 1 && t.returned == s.returned
              && t.held == (if accepted then s.held + [s.pushed] else s.held)
              && t.inserted == (if accepted then s.inserted + 1 else SLOTS + 1)
            else t == s
  {
    hide Counts, HeldOut, Push;
    if s.inserted < SLOTS {
      assert s.pushed < s.returned + SLOTS by { Filling(s); }
      PushExactly(s.ring, s.returned, s.pushed);
    }
  }

  lemma Filling(s: State)
    requires RxInv(s) && s.inserted < SLOTS
    ensures s.pushed < s.returned + SLOTS
  {}

  lemma StepKeeps(x: Rx, a: Act)
    requires Sound(x)
    ensures Sound(Step(x, a))
  {
    match a
    case Open(accepted) => OpenKeeps(x, accepted);
    case Fill(d) => FillKeeps(x, d);
    case Collect(accepted) => CollectKeeps(x, accepted);
    case _ =>
      hide RxInv, SlotNo;
      var y := Step(x, a);
      forall i | 0 <= i < y.filled
        ensures Complete(y, i)
      {
        assert Complete(x, i);
      }
  }

  function Ran(acts: seq<Act>): Rx {
    Run(Step, Started(), acts)
  }

  lemma RanSound(acts: seq<Act>)
    ensures Sound(Ran(acts))
  {
    assert Sound(Started());
    hide Step, Sound;
    forall x, a | Sound(x)
      ensures Sound(Step(x, a))
    {
      StepKeeps(x, a);
    }
    RunKeeps(Step, x => Sound(x), Started(), acts);
  }

  /** In every run: the address read, and the bytes copied, are what there is to see in the slot at that moment, cut to
      the length of the packet collected; both are the packet's own if its slot has not been filled again. */
  lemma CopyExactly(acts: seq<Act>, room: nat)
    requires Ran(acts).reading != Idle
    ensures var x := Ran(acts); var h := x.reading.push;
            && h in x.got
            && (x.reading.Collected? ==>
                  Step(x, TakeAddr).reading == Addressed(h, x.reading.len, Sight(x, h).addr))
            && (x.reading.Addressed? ==>
                  Step(x, Copy(room)).reading == Idle &&
                  Step(x, Copy(room)).up == x.up + [Datagram(x.reading.addr, Front(Sight(x, h).data, room))])
            && (x.reading.Addressed? && h + SLOTS !in x.got ==> x.reading.addr == x.got[h].addr)
  {
    hide Ran;
    RanSound(acts);
    hide RxInv, Intact, InOrder, Front, Over;
  }

  /** A packet given up, or none being read: nothing is copied. */
  lemma NothingCopied(x: Rx, room: nat)
    ensures Step(x, Skip) == x.(reading := Idle)
    ensures !x.reading.Addressed? ==> Step(x, Copy(room)) == x
  {}

  // ---------- while no request is refused ----------

  ghost predicate Takes(a: Act) {
    (a.Open? || a.Collect?) ==> a.accepted
  }

  /** The kernel holds every push not given back, and has filled the requests one after the other. */
  ghost predicate Dense(x: Rx) {
    && x.s.returned + |x.s.held| == x.s.pushed && (forall i | 0 <= i < |x.s.held| :: x.s.held[i] == x.s.returned + i)
    && x.fills == x.s.returned + x.filled && (forall g: nat :: g in x.got <==> g < x.fills)
  }

  lemma DenseKeeps(x: Rx, a: Act)
    requires Sound(x) && Dense(x) && Takes(a)
    ensures Dense(Step(x, a))
  {
    match a
    case Open(accepted) =>
      OpenState(x.s, accepted);
      hide RxInv, RxStep;
    case Fill(d) => hide RxInv, SlotNo;
    case Collect(accepted) =>
      if x.reading == Idle && x.s.inserted == SLOTS && 0 < x.filled {
        CollectState(x.s, accepted);
        hide RxInv, RxStep;
      }
    case _ =>
  }

  ghost predicate AllTaken(acts: seq<Act>) {
    forall a | a in acts :: Takes(a)
  }

  lemma {:induction false} RanDense(acts: seq<Act>)
    requires AllTaken(acts)
    ensures Dense(Ran(acts))
  {
    if acts != [] {
      var k := |acts| - 1;
      RanDense(acts[..k]);
      RanSound(acts[..k]);
      assert acts[k] in acts;
      hide Step, Dense, Sound;
      DenseKeeps(Ran(acts[..k]), acts[k]);
    }
  }

  /** Without refusals the packet of request `h` is copied intact, with its own address, as long as at most 1023 further
      requests have been filled since its own; after 1024, the bytes of request `h + 1024` are over its own. */
  lemma IntactExactly(acts: seq<Act>, room: nat)
    requires AllTaken(acts) && Ran(acts).reading.Addressed?
    ensures var x := Ran(acts); var h := x.reading.push;
            && h < x.fills && h in x.got
            && (if x.fills - (h + 1) < SLOTS then
                  Step(x, Copy(room)).up == x.up + [Datagram(x.got[h].addr, Front(x.got[h].data, room))]
                else
                  h + SLOTS in x.got &&
                  Step(x, Copy(room)).up == x.up +
                    [Datagram(x.reading.addr, Front(Over(x.got[h].data, x.got[h + SLOTS].data), room))])
  {
    hide Ran, Step, Over, Front;
    RanDense(acts);
    CopyExactly(acts, room);
  }

  function Times(a: Act, n: nat): (acts: seq<Act>)
    ensures |acts| == n && forall i | 0 <= i < n :: acts[i] == a
  {
    seq(n, _ => a)
  }

  lemma RanNext(acts: seq<Act>, a: Act, n: nat)
    requires n > 0
    ensures Ran(acts + Times(a, n)) == Step(Ran(acts + Times(a, n - 1)), a)
  {
    hide Step;
    var all := acts + Times(a, n);
    assert all[..|all| - 1] == acts + Times(a, n - 1);
  }

  lemma RanNothing(a: Act)
    ensures Ran([] + Times(a, 0)) == Started()
  {
    assert [] + Times(a, 0) == [];
  }

  lemma OpenOne(x: Rx)
    requires Sound(x) && x.s.inserted < SLOTS
    ensures var y := Step(x, Open(true));
            && y.s.inserted == x.s.inserted + 1 && |y.s.held| == |x.s.held| + 1
            && (y.filled, y.fills, y.reading, y.up) == (x.filled, x.fills, x.reading, x.up)
  {
    hide RxStep, RxInv, Intact, InOrder, Slotted;
    OpenState(x.s, true);
  }

  lemma {:induction false} OpensAll(n: nat)
    requires n <= SLOTS
    ensures var x := Ran([] + Times(Open(true), n));
            && x.s.inserted == n && |x.s.held| == n && (x.filled, x.fills, x.reading, x.up) == (0, 0, Idle, [])
  {
    hide Ran, Step, Sound;
    if n == 0 {
      RanNothing(Open(true));
    } else {
      OpensAll(n - 1);
      RanNext([], Open(true), n);
      RanSound([] + Times(Open(true), n - 1));
      OpenOne(Ran([] + Times(Open(true), n - 1)));
    }
  }

  lemma FillOne(x: Rx, d: Datagram)
    requires Sound(x) && Dense(x) && x.filled < |x.s.held|
    ensures var y := Step(x, Fill(d));
            && (y.s, y.reading, y.up) == (x.s, x.reading, x.up) && (y.filled, y.fills) == (x.filled + 1, x.fills + 1)
            && Extends(x, y) && Holds(y, x.fills, d)
  {
    hide RxInv, Intact, InOrder, Slotted, SlotNo;
  }

  ghost predicate Extends(x: Rx, y: Rx) {
    forall g | g in x.got && g < x.fills :: g in y.got && y.got[g] == x.got[g]
  }

  ghost predicate Holds(x: Rx, g: nat, d: Datagram) {
    g in x.got && x.got[g] == d
  }

  lemma ExtendsTrans(x: Rx, y: Rx, z: Rx)
    requires Extends(x, y) && Extends(y, z) && x.fills <= y.fills
    ensures Extends(x, z)
  {}

  lemma {:induction false} FillsOn(acts: seq<Act>, d: Datagram, n: nat)
    requires AllTaken(acts) && Ran(acts).filled + n <= |Ran(acts).s.held|
    ensures var x, y := Ran(acts), Ran(acts + Times(Fill(d), n));
            && (y.s, y.reading, y.up) == (x.s, x.reading, x.up) && (y.filled, y.fills) == (x.filled + n, x.fills + n)
            && Extends(x, y) && (n > 0 ==> Holds(y, y.fills - 1, d))
  {
    hide Ran, Step, Sound, Dense, AllTaken, Holds;
    if n == 0 {
      assert acts + Times(Fill(d), 0) == acts;
    } else {
      hide Extends;
      var before := acts + Times(Fill(d), n - 1);
      FillsOn(acts, d, n - 1);
      RanNext(acts, Fill(d), n);
      RanSound(before);
      MoreTaken(acts, Fill(d), n - 1);
      RanDense(before);
      FillOne(Ran(before), d);
      ExtendsTrans(Ran(acts), Ran(before), Step(Ran(before), Fill(d)));
    }
  }

  lemma MoreTaken(acts: seq<Act>, a: Act, n: nat)
    requires AllTaken(acts) && Takes(a)
    ensures AllTaken(acts + Times(a, n))
  {}

  /** Every slot posted, one packet received and collected. */
  function OneIn(first: Datagram): seq<Act> {
    Times(Open(true), SLOTS) + [Fill(first), Collect(true)]
  }

  /** 1024 more are received before its address is read: what is handed up is the address of the last of them, and its
      bytes over those of the packet, cut to the packet's length. */
  lemma Overwritten(first: Datagram, last: Datagram, room: nat)
    requires |first.data| <= PACKET
    ensures Ran(OneIn(first) + Times(Fill(last), SLOTS) + [TakeAddr, Copy(room)]).up ==
            [Datagram(last.addr, Front(Over(first.data, last.data), room))]
  {
    hide Ran, Step, AllTaken, OneIn, Over, Front;
    var acts := OneIn(first);
    OpenedOne(first);
    FillsOn(acts, last, SLOTS);
    MoreTaken(acts, Fill(last), SLOTS);
    var all := acts + Times(Fill(last), SLOTS);
    RanDense(all);
    RanSound(all);
    RunTwo(all, TakeAddr, Copy(room));
    CopySees(Ran(all), room);
  }

  lemma CopySees(x: Rx, room: nat)
    requires x.reading.Collected? && Sound(x)
    ensures Step(Step(x, TakeAddr), Copy(room)).up ==
            x.up + [Datagram(Sight(x, x.reading.push).addr, Front(Sight(x, x.reading.push).data, room))]
  {
    hide RxInv, Intact, InOrder, Front, Over, SlotNo;
  }

  /** They come between the address and the bytes: the packet's own address with the later bytes. */
  lemma Mixed(first: Datagram, last: Datagram, room: nat)
    requires |first.data| <= PACKET
    ensures Ran(OneIn(first) + [TakeAddr] + Times(Fill(last), SLOTS) + [Copy(room)]).up ==
            [Datagram(first.addr, Front(Over(first.data, last.data), room))]
  {
    hide Ran, Step, AllTaken, OneIn, Over, Front;
    var acts := OneIn(first);
    OpenedOne(first);
    AddressOne(acts, first);
    var addressed := acts + [TakeAddr];
    FillsOn(addressed, last, SLOTS);
    MoreTaken(addressed, Fill(last), SLOTS);
    var all := addressed + Times(Fill(last), SLOTS);
    IntactExactly(all, room);
    RanLast(all, Copy(room));
  }

  lemma RanLast(acts: seq<Act>, a: Act)
    ensures Ran(acts + [a]) == Step(Ran(acts), a)
  {
    hide Step;
    assert (acts + [a])[..|acts|] == acts;
  }

  lemma AddressOne(acts: seq<Act>, first: Datagram)
    requires AllTaken(acts) && OneCollected(Ran(acts), first)
    ensures AllTaken(acts + [TakeAddr])
    ensures var x, y := Ran(acts), Ran(acts + [TakeAddr]);
            y == x.(reading := Addressed(0, |first.data|, first.addr))
  {
    hide Ran, Sound;
    RanLast(acts, TakeAddr);
    CopyExactly(acts, 0);
    RanDense(acts);
  }

  /** The ring with one packet received, collected, and its slot posted again. */
  ghost predicate OneCollected(x: Rx, first: Datagram) {
    && x.reading == Collected(0, |first.data|) && |x.s.held| == SLOTS && (x.filled, x.fills, x.up) == (0, 1, [])
    && Holds(x, 0, first)
  }

  lemma OpenedOne(first: Datagram)
    requires |first.data| <= PACKET
    ensures AllTaken(OneIn(first)) && OneCollected(Ran(OneIn(first)), first)
  {
    hide Ran, Step, Sound;
    var opens := Times(Open(true), SLOTS);
    OpensAll(SLOTS);
    assert [] + opens == opens;
    RunTwo(opens, Fill(first), Collect(true));
    RanSound(opens);
    RanDense(opens);
    hide Dense;
    CollectOne(Ran(opens), first);
  }

  lemma CollectOne(x: Rx, first: Datagram)
    requires Sound(x) && Dense(x) && x.s.inserted == |x.s.held| == SLOTS && |first.data| <= PACKET
    requires (x.filled, x.fills, x.reading, x.up) == (0, 0, Idle, [])
    ensures OneCollected(Step(Step(x, Fill(first)), Collect(true)), first)
  {
    hide RxInv, RxStep, Intact, InOrder, Slotted, SlotNo, Lay;
    FillKeeps(x, first);
    CollectState(x.s, true);
  }

  lemma RunTwo(acts: seq<Act>, a: Act, b: Act)
    ensures Ran(acts + [a, b]) == Step(Step(Ran(acts), a), b)
  {
    hide Step;
    var all, n := acts + [a, b], |acts|;
    assert all[..n] == acts && all[..n + 2] == all;
    RunNext(Step, Started(), all, n);
    RunNext(Step, Started(), all, n + 1);
  }
}
