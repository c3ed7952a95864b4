/** The packet rings of the Windows bind: slots handed to the kernel and taken back, counted in wrapping words. */
module RingBuffer {
  import opened Words
  import opened Runs

  const SLOTS: nat := 1024

  datatype Ring = Ring(head: uint32, tail: uint32, isFull: bool)

  const EMPTY: Ring := Ring(0, 0, false)

  /** uint32 addition, which wraps. */
  function Add32(a: uint32, b: uint32): uint32 {
    if a + b < TWO32 then a + b else a + b - TWO32
  }

  /** The slot a counter value stands for. */
  function SlotNo(n: nat): (slot: nat)
    ensures slot < SLOTS
  {
    n % SLOTS
  }

  datatype Pushed = Panic | Slot(index: nat, ring: Ring)

  function Push(r: Ring): Pushed {
    if r.isFull then Panic
    else
      var tail := Add32(r.tail, 1);
      Slot(SlotNo(r.tail), Ring(r.head, tail, SlotNo(tail) == SlotNo(r.head)))
  }

  function Return(r: Ring, count: uint32): Ring {
    if SlotNo(r.head) == SlotNo(r.tail) && !r.isFull then r else Ring(Add32(r.head, count), r.tail, false)
  }

  class PacketRing {
    var head: uint32
    var tail: uint32
    var isFull: bool

    ghost function Value(): Ring
      reads this
    {
      Ring(head, tail, isFull)
    }

    constructor ()
      ensures Value() == EMPTY && EMPTY == Ring(0, 0, false)
    {
      head, tail, isFull := 0, 0, false;
    }

    /** `panicked` is the source's panic on a full ring. */
    method PushPacket() returns (slot: nat, panicked: bool)
      modifies this
      ensures panicked <==> Push(old(Value())) == Panic
      ensures if panicked then Value() == old(Value()) else Push(old(Value())) == Slot(slot, Value())
    {
      if isFull {
        return 0, true;
      }
      panicked := false;
      slot := tail % SLOTS;
      tail := Add32(tail, 1);
      if tail % SLOTS == head % SLOTS {
        isFull := true;
      }
    }

    method ReturnPackets(count: uint32)
      modifies this
      ensures Value() == Return(old(Value()), count)
    {
      if head % SLOTS == tail % SLOTS && !isFull {
        return;
      }
      head := Add32(head, count);
      isFull := false;
    }
  }

  // ---------------------------------------------------------------- what the words mean

  /** A count cut to a word. */
  function Word(n: nat): uint32 {
    n % TWO32
  }

  /** The ring after `pushed` pushes and `returned` slots given back, however often the words have wrapped: it is
      marked full exactly when every slot is out. */
  ghost predicate Counts(r: Ring, returned: nat, pushed: nat) {
    && returned <= pushed <= returned + SLOTS
    && r.head == Word(returned) && r.tail == Word(pushed)
    && (r.isFull <==> pushed == returned + SLOTS)
  }

  /** The slots that are out: those of the pushes not yet given back. */
  ghost predicate Out(returned: nat, pushed: nat, slot: nat) {
    exists k: nat :: returned <= k < pushed && SlotNo(k) == slot
  }

  lemma WordStep(n: nat, k: nat)
    requires k < TWO32
    ensures Add32(Word(n), k) == Word(n + k)
  {}

  lemma SlotOfWord(n: nat)
    ensures SlotNo(Word(n)) == SlotNo(n)
  {}

  lemma SameSlot(a: nat, b: nat)
    requires a <= b <= a + SLOTS
    ensures SlotNo(a) == SlotNo(b) <==> b == a || b == a + SLOTS
  {}

  lemma SlotIsFree(returned: nat, pushed: nat)
    requires pushed < returned + SLOTS
    ensures !Out(returned, pushed, SlotNo(pushed))
  {
    hide SlotNo;
    forall k: nat | returned <= k < pushed
      ensures SlotNo(k) != SlotNo(pushed)
    {
      SameSlot(k, pushed);
    }
  }

  /** A push fails exactly when every slot is out; otherwise it hands out a slot that is not out. */
  lemma PushExactly(r: Ring, returned: nat, pushed: nat)
    requires Counts(r, returned, pushed)
    ensures Push(r) == Panic <==> pushed == returned + 1024
    ensures Push(r) != Panic ==>
              && Push(r).index == SlotNo(pushed) && !Out(returned, pushed, Push(r).index)
              && Counts(Push(r).ring, returned, pushed + 1)
  {
    hide Word, SlotNo, Add32, Out;
    if !r.isFull {
      WordStep(pushed, 1);
      SlotOfWord(pushed);
      SlotOfWord(pushed + 1);
      SlotOfWord(returned);
      SameSlot(returned, pushed + 1);
      SlotIsFree(returned, pushed);
    }
  }

  /** Giving slots back is right exactly when no more are given back than are out, and not "none of a full ring":
      that would clear the mark of a ring that is still full. */
  lemma ReturnExactly(r: Ring, returned: nat, pushed: nat, count: uint32)
    requires Counts(r, returned, pushed)
    ensures Counts(Return(r, count), returned + count, pushed) <==>
            count <= pushed - returned && !(count == 0 && pushed == returned + SLOTS)
    ensures pushed == returned ==> Return(r, count) == r
  {
    hide Word, SlotNo, Add32;
    WordStep(returned, count);
    SlotOfWord(returned);
    SlotOfWord(pushed);
    SameSlot(returned, pushed);
  }

  /** Returning nothing to a full ring: all slots are out and the mark is gone. */
  lemma ReturnNoneOfFull()
    ensures Counts(Ring(0, 1024, true), 0, 1024) && !Return(Ring(0, 1024, true), 0).isFull
  {}

  // ---------------------------------------------------------------- the bind's own use

  /** A ring, how many slots were pushed and returned, and the pushes whose requests the kernel still has, oldest
      first: it completes them in order. */
  datatype State = State(ring: Ring, returned: nat, pushed: nat, held: seq<nat>, inserted: nat, panicked: bool)

  function Fresh(): State {
    State(EMPTY, 0, 0, [], 0, false)
  }

  /** A slot is pushed and handed to the kernel, which may refuse the request. */
  function PushAndPost(s: State, accepted: bool): State {
    match Push(s.ring)
    case Panic => s.(panicked := true)
    case Slot(_, ring) =>
      s.(ring := ring, pushed := s.pushed + 1, held := if accepted then s.held + [s.pushed] else s.held)
  }

  /** The kernel has completed its `count` oldest requests, and as many slots are returned. */
  function TakeBack(s: State, count: nat): State
    requires count <= |s.held| && count < TWO32
  {
    s.(ring := Return(s.ring, count), returned := s.returned + count, held := s.held[count..])
  }

  datatype Event =
    | Insert(accepted: bool)
    | Receive(completed: bool, accepted: bool)
    | Send(first: nat, waited: bool, later: nat, accepted: bool)

  /** Receiving: opening posts every slot, stopping at a refusal; then each completion is given back and a new request
      posted. */
  function RxStep(s: State, e: Event): State {
    match e
    case Insert(accepted) =>
      if s.inserted < SLOTS then
        PushAndPost(s, accepted).(inserted := if accepted then s.inserted + 1 else SLOTS + 1)
      else s
    case Receive(completed, accepted) =>
      if s.inserted == SLOTS && completed && s.held != [] then PushAndPost(TakeBack(s, 1), accepted) else s
    case Send(_, _, _, _) => s
  }

  function Completions(s: State, n: nat): (c: nat)
    ensures c <= n && c <= |s.held| && c <= SLOTS
  {
    if n <= |s.held| && n <= SLOTS then n else if |s.held| <= SLOTS then |s.held| else SLOTS
  }

  /** Sending: completions are collected; with none and the ring full the sender waits, and gives up if there is
      still none; what was collected is given back and a slot pushed. */
  function TxStep(s: State, e: Event): State {
    match e
    case Send(first, waited, later, accepted) =>
      var c := Completions(s, first);
      if c == 0 && s.ring.isFull then
        var d := Completions(s, later);
        if !waited || d == 0 then s else PushAndPost(TakeBack(s, d), accepted)
      else if c > 0 then PushAndPost(TakeBack(s, c), accepted)
      else PushAndPost(s, accepted)
    case _ => s
  }

  /** What the kernel holds is out: its requests are, in order, for pushes not yet returned. */
  ghost predicate HeldOut(held: seq<nat>, returned: nat, pushed: nat) {
    && (forall i | 0 <= i < |held| :: returned + i <= held[i] < pushed)
    && (forall i, j | 0 <= i < j < |held| :: held[i] < held[j])
  }

  ghost predicate Inv(s: State) {
    Counts(s.ring, s.returned, s.pushed) && HeldOut(s.held, s.returned, s.pushed) && !s.panicked
  }

  /** While the receive ring is being filled, nothing has come back. */
  ghost predicate RxInv(s: State) {
    Inv(s) && (s.inserted < SLOTS ==> s.pushed - s.returned == s.inserted)
  }

  lemma HeldAfterReturn(held: seq<nat>, returned: nat, pushed: nat, count: nat)
    requires HeldOut(held, returned, pushed) && count <= |held| && returned <= pushed
    ensures HeldOut(held[count..], returned + count, pushed)
    ensures count <= pushed - returned
  {
    if count > 0 {
      assert held[count - 1] < pushed;
    }
  }

  lemma PushKeeps(s: State, accepted: bool)
    requires Inv(s) && s.pushed < s.returned + SLOTS
    ensures Inv(PushAndPost(s, accepted))
    ensures Push(s.ring) != Panic && forall h | h in s.held :: SlotNo(h) != Push(s.ring).index
  {
    assert s.returned <= s.pushed;
    hide Counts, Push, SlotNo;
    PushExactly(s.ring, s.returned, s.pushed);
    assert HeldOut(s.held + [s.pushed], s.returned, s.pushed + 1) by { HeldMore(s.held, s.returned, s.pushed); }
    forall h | h in s.held
      ensures SlotNo(h) != Push(s.ring).index
    {
      var i :| 0 <= i < |s.held| && s.held[i] == h;
      assert s.returned + i <= s.held[i] < s.pushed;
      assert Out(s.returned, s.pushed, SlotNo(h));
    }
  }

  /** The panic is reached exactly by a push while every slot is out. */
  lemma PanicExactly(s: State, accepted: bool)
    requires Counts(s.ring, s.returned, s.pushed)
    ensures PushAndPost(s, accepted).panicked <==> s.panicked || s.pushed == s.returned + 1024
  {
    hide Push;
    PushExactly(s.ring, s.returned, s.pushed);
  }

  lemma HeldMore(held: seq<nat>, returned: nat, pushed: nat)
    requires HeldOut(held, returned, pushed) && returned <= pushed
    ensures HeldOut(held + [pushed], returned, pushed + 1)
  {
    if held != [] {
      assert returned + (|held| - 1) <= held[|held| - 1] < pushed;
    }
  }

  lemma TakeBackKeeps(s: State, count: nat)
    requires Inv(s) && 0 < count <= |s.held| && count < TWO32
    ensures Inv(TakeBack(s, count))
    ensures TakeBack(s, count).pushed < TakeBack(s, count).returned + SLOTS
  {
    hide Return;
    HeldAfterReturn(s.held, s.returned, s.pushed, count);
    ReturnExactly(s.ring, s.returned, s.pushed, count);
  }

  lemma RxKeeps(s: State, e: Event)
    requires RxInv(s)
    ensures RxInv(RxStep(s, e))
  {
    hide HeldOut;
    match e
    case Insert(accepted) =>
      if s.inserted < SLOTS {
        PushKeeps(s, accepted);
      }
    case Receive(completed, accepted) =>
      if s.inserted == SLOTS && completed && s.held != [] {
        TakeBackKeeps(s, 1);
        PushKeeps(TakeBack(s, 1), accepted);
      }
    case Send(_, _, _, _) =>
  }

  lemma TxKeeps(s: State, e: Event)
    requires Inv(s)
    ensures Inv(TxStep(s, e))
  {
    hide HeldOut;
    if e.Send? {
      var c, d := Completions(s, e.first), Completions(s, e.later);
      if c == 0 && s.ring.isFull {
        if e.waited && d > 0 {
          TakeBackKeeps(s, d);
          PushKeeps(TakeBack(s, d), e.accepted);
        }
      } else if c > 0 {
        TakeBackKeeps(s, c);
        PushKeeps(TakeBack(s, c), e.accepted);
      } else {
        PushKeeps(s, e.accepted);
      }
    }
  }

  /** A slot the kernel has is among those that are out, and the next push hands out another one. */
  ghost predicate KernelSafe(s: State) {
    && (forall h | h in s.held :: Out(s.returned, s.pushed, SlotNo(h)))
    && (Push(s.ring) != Panic ==> forall h | h in s.held :: SlotNo(h) != Push(s.ring).index)
  }

  lemma InvKernelSafe(s: State)
    requires Inv(s)
    ensures KernelSafe(s)
  {
    hide SlotNo;
    forall h | h in s.held
      ensures Out(s.returned, s.pushed, SlotNo(h))
    {
      var i :| 0 <= i < |s.held| && s.held[i] == h;
    }
    PushExactly(s.ring, s.returned, s.pushed);
    hide Push, Out;
    if Push(s.ring) != Panic {
      PushKeeps(s, true);
    }
  }

  lemma TxAlways(events: seq<Event>)
    ensures Inv(Run(TxStep, Fresh(), events))
  {
    hide TxStep;
    forall s, e | Inv(s)
      ensures Inv(TxStep(s, e))
    {
      TxKeeps(s, e);
    }
    RunKeeps(TxStep, s => Inv(s), Fresh(), events);
  }

  /** No run of opening, receiving and sending ever reaches the panic, however far the counters wrap and whatever the
      kernel refuses; the full mark stays exact, and no push ever hands out a slot the kernel still has. */
  lemma NeverPanics(events: seq<Event>)
    ensures var s := Run(RxStep, Fresh(), events); !s.panicked && Counts(s.ring, s.returned, s.pushed) && KernelSafe(s)
    ensures var s := Run(TxStep, Fresh(), events); !s.panicked && Counts(s.ring, s.returned, s.pushed) && KernelSafe(s)
  {
    hide RxStep, TxStep, KernelSafe;
    forall s, e | RxInv(s)
      ensures RxInv(RxStep(s, e))
    {
      RxKeeps(s, e);
    }
    RunKeeps(RxStep, s => RxInv(s), Fresh(), events);
    TxAlways(events);
    InvKernelSafe(Run(RxStep, Fresh(), events));
    InvKernelSafe(Run(TxStep, Fresh(), events));
  }

  function Least(a: nat, b: nat): nat {
    if a <= b then a else b
  }

  /** How many slots a send gives back: the completions it collects at first, or, when there are none and the ring is
      full, those it collects after waiting. */
  function GivenBack(s: State, e: Event): nat
    requires e.Send?
  {
    var limit := Least(|s.held|, 1024);
    if Least(e.first, limit) > 0 then Least(e.first, limit)
    else if s.pushed == s.returned + 1024 && e.waited then Least(e.later, limit)
    else 0
  }

  /** In every run: a send does nothing if and only if all 1024 slots are out and none is given back; otherwise the
      slots of the oldest requests are given back and one slot is pushed, and posted unless the kernel refuses it. */
  lemma SendExactly(events: seq<Event>, e: Event)
    requires e.Send?
    ensures var s := Run(TxStep, Fresh(), events);
            var t, back := TxStep(s, e), GivenBack(s, e);
            if s.pushed == s.returned + 1024 && back == 0 then t == s
            else
              && (t.pushed, t.returned, t.panicked) == (s.pushed + 1, s.returned + back, false)
              && back <= |s.held| && t.held == s.held[back..] + (if e.accepted then [s.pushed] else [])
  {
    hide TxStep, GivenBack, Inv, Run;
    TxAlways(events);
    SendFrom(Run(TxStep, Fresh(), events), e);
  }

  lemma SendFrom(s: State, e: Event)
    requires Inv(s) && e.Send?
    ensures var t, back := TxStep(s, e), GivenBack(s, e);
            if s.pushed == s.returned + 1024 && back == 0 then t == s
            else
              && (t.pushed, t.returned, t.panicked) == (s.pushed + 1, s.returned + back, false)
              && back <= |s.held| && t.held == s.held[back..] + (if e.accepted then [s.pushed] else [])
  {
    var back := GivenBack(s, e);
    assert s.ring.isFull <==> s.pushed == s.returned + 1024;
    assert s.held[0..] == s.held;
    hide Return, Push, Counts, HeldOut;
    if back > 0 {
      TakeBackKeeps(s, back);
      PushKeeps(TakeBack(s, back), e.accepted);
    } else if s.pushed < s.returned + 1024 {
      PushKeeps(s, e.accepted);
    }
  }
}
