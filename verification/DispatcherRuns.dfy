/** What becomes of every packet the dispatcher reads, while the workers empty their queues. */
module DispatcherRuns {
  import opened Division
  import opened Runs
  import opened RoundRobin
  import opened Chunks
  import opened Dispatcher

  // ---------------------------------------------------------------- where a packet goes

  /** The state when the `i`-th channel is tried. */
  function Seen(d: State, env: Env, base: nat, i: nat): (e: State)
    ensures |e.workers| == |d.workers| && e == d.(workers := e.workers, taken := e.taken)
  {
    Meanwhile(if i == 0 then d else Seen(d, env, base, i - 1), env(base + i))
  }

  /** The `i`-th channel is full when it is tried. */
  ghost predicate FullWhenTried(d: State, kind: Kind, first: nat, env: Env, base: nat, i: nat)
    requires d.workers != []
  {
    Chan(Seen(d, env, base, i).workers[(first + i) % |d.workers|], kind).Full()
  }

  /** Every channel of the kind is full when its turn comes. */
  ghost predicate AllFull(d: State, kind: Kind, first: nat, env: Env, base: nat)
    requires d.workers != []
  {
    forall i: nat | i < |d.workers| :: FullWhenTried(d, kind, first, env, base, i)
  }

  /** The `i`-th try is the first that finds room. */
  ghost predicate FirstRoom(d: State, kind: Kind, first: nat, env: Env, base: nat, i: nat)
    requires d.workers != []
  {
    && i < |d.workers| && !FullWhenTried(d, kind, first, env, base, i)
    && forall j: nat | j < i :: FullWhenTried(d, kind, first, env, base, j)
  }

  /** The state after `i` tries. */
  function Tried(d: State, env: Env, base: nat, i: nat): (e: State)
    ensures |e.workers| == |d.workers| && e == d.(workers := e.workers, taken := e.taken)
  {
    if i == 0 then d else Seen(d, env, base, i - 1)
  }

  lemma {:induction false} ScanFrom(d: State, kind: Kind, first: nat, env: Env, base: nat, i: nat) returns (j: nat)
    requires d.workers != [] && i <= |d.workers|
    requires forall j: nat | j < i :: FullWhenTried(d, kind, first, env, base, j)
    ensures var (e, spot) := Scan(Tried(d, env, base, i), kind, first, i, env, base);
            if spot.At? then
              FirstRoom(d, kind, first, env, base, j)
              && (e, spot.index) == (Seen(d, env, base, j), (first + j) % |d.workers|)
            else AllFull(d, kind, first, env, base) && e == Tried(d, env, base, |d.workers|)
    decreases |d.workers| - i
  {
    hide Meanwhile;
    j := i;
    if i < |d.workers| {
      if FullWhenTried(d, kind, first, env, base, i) {
        j := ScanFrom(d, kind, first, env, base, i + 1);
      } else {
        assert Scan(Tried(d, env, base, i), kind, first, i, env, base) ==
               (Seen(d, env, base, i), At((first + i) % |d.workers|));
      }
    }
  }

  /** The tries settle on the first channel with room, and find none if and only if each was full when tried. */
  lemma ScanMeans(d: State, kind: Kind, first: nat, env: Env, base: nat) returns (j: nat)
    requires d.workers != []
    ensures var (e, spot) := Scan(d, kind, first, 0, env, base);
            if AllFull(d, kind, first, env, base) then (e, spot) == (Tried(d, env, base, |d.workers|), NoSpot)
            else
              FirstRoom(d, kind, first, env, base, j)
              && (e, spot) == (Seen(d, env, base, j), At((first + j) % |d.workers|))
  {
    hide Scan, Seen, FullWhenTried;
    j := ScanFrom(d, kind, first, env, base, 0);
  }

  /** Every worker's channel has its try. */
  lemma EveryWorkerTried(d: State, kind: Kind, first: nat, env: Env, base: nat, w: nat) returns (i: nat)
    requires d.workers != [] && w < |d.workers| && AllFull(d, kind, first, env, base)
    ensures i < |d.workers| && (first + i) % |d.workers| == w
    ensures Chan(Seen(d, env, base, i).workers[w], kind).Full()
  {
    hide Seen;
    i := Rotation(first, |d.workers|, w);
    assert FullWhenTried(d, kind, first, env, base, i);
  }

  // ---------------------------------------------------------------- queues, and workers coming and going

  /** All workers but the `i`-th are the same. */
  ghost predicate OthersKept(ws: seq<Slot>, vs: seq<Slot>, i: nat) {
    |vs| == |ws| && forall j | 0 <= j < |ws| && j != i :: vs[j] == ws[j]
  }

  ghost function Other(kind: Kind): Kind {
    if kind == Send then Prio else Send
  }

  /** A packet joins one queue, last. */
  lemma PutEffect(ws: seq<Slot>, kind: Kind, i: nat, p: Packet)
    requires i < |ws|
    ensures var vs := Put(ws, kind, i, p);
            && OthersKept(ws, vs, i) && vs[i].id == ws[i].id && Chan(vs[i], Other(kind)) == Chan(ws[i], Other(kind))
            && Chan(vs[i], kind) == Channel(Chan(ws[i], kind).queue + [p], Chan(ws[i], kind).cap)
  {}

  /** A consumer takes the first packet of one queue, if there is one. */
  lemma TakeEffect(d: State, kind: Kind, i: nat)
    ensures var e, ws := Step(d, Taken(Take(kind, i))), d.workers;
            if i < |ws| && Chan(ws[i], kind).queue != [] then
              var q := Chan(ws[i], kind).queue;
              && OthersKept(ws, e.workers, i) && e.workers[i].id == ws[i].id
              && Chan(e.workers[i], Other(kind)) == Chan(ws[i], Other(kind))
              && Chan(e.workers[i], kind) == Channel(q[1..], Chan(ws[i], kind).cap)
              && e == d.(workers := e.workers, taken := d.taken + [q[0]])
            else e == d
  {}

  /** What the consumers do meanwhile is one such take after the other. */
  lemma {:induction false} MeanwhileIsTakes(d: State, ts: seq<Take>)
    ensures Meanwhile(d, ts) == Run((e: State, t: Take) => Step(e, Taken(t)), d, ts)
  {
    if ts != [] {
      MeanwhileIsTakes(d, ts[..|ts| - 1]);
    }
  }

  /** A worker joins last with empty queues, and nothing else changes. */
  lemma RegisterEffect(d: State, id: nat, sendCap: nat, prioCap: nat)
    ensures var e := Step(d, Register(id, sendCap, prioCap));
            && |e.workers| == |d.workers| + 1 && e == d.(workers := e.workers) && d.workers < e.workers
            && e.workers[|d.workers|] == Slot(id, Channel([], sendCap), Channel([], prioCap))
  {}

  /** The first slot of the worker leaves, the others keep their order; a new chunk starts at the same place, which is
      taken round if it is past the last worker. */
  lemma UnregisterEffect(d: State, id: nat) returns (i: nat)
    ensures var e, ws := Step(d, Unregister(id)), d.workers;
            && i <= |ws| && (forall j | 0 <= j < i :: ws[j].id != id) && (i < |ws| ==> ws[i].id == id)
            && e == d.(workers := if i < |ws| then ws[..i] + ws[i + 1..] else ws,
                       gone := if i < |ws| then d.gone + [ws[i]] else d.gone, cursor := e.cursor)
            && (e.cursor.count, e.cursor.start) == (0, d.cursor.start)
            && (if e.workers == [] then e.cursor.index == d.cursor.index
                else e.cursor.index == d.cursor.index % |e.workers|)
  {
    i := Find(d.workers, id);
    assert d.gone + [] == d.gone;
    var n := |Step(d, Unregister(id)).workers|;
    if d.cursor.index < n {
      SmallDiv(d.cursor.index, n);
    }
  }

  // ---------------------------------------------------------------- one packet

  /** More than 10 ms have passed since the packet before. */
  predicate Paused(d: State, now: int) {
    d.lastPktTime > 0 && now - d.lastPktTime > 10
  }

  /** The chunk is broken off: after a pause, or because it is 15 ms old. */
  predicate BrokenOff(d: State, now: int) {
    Paused(d, now) || (d.cursor.start != 0 && now - d.cursor.start >= 15)
  }

  /** The worker whose priority queue is tried first: the one in use, after a pause the next. */
  function FirstPrio(d: State, now: int): nat
    requires d.workers != []
  {
    (d.cursor.index + (if Paused(d, now) then 1 else 0)) % |d.workers|
  }

  /** The worker whose ordinary queue is tried first: the one in use, or the next if the chunk is broken off. */
  function FirstSend(d: State, now: int): nat
    requires d.workers != []
  {
    (d.cursor.index + (if BrokenOff(d, now) then 1 else 0)) % |d.workers|
  }

  /** When the chunk the packet would be in began. */
  function Began(d: State, now: int): int {
    if BrokenOff(d, now) || d.cursor.start == 0 then now else d.cursor.start
  }

  ghost predicate PriosFull(d: State, p: Packet, now: int, env: Env)
    requires d.workers != []
  {
    p.size <= 128 ==> AllFull(d, Prio, FirstPrio(d, now), env, 0)
  }

  /** The state in which the ordinary queues are tried: a small packet has tried every priority queue before. */
  function BeforeSends(d: State, p: Packet, env: Env): (e: State)
    ensures |e.workers| == |d.workers| && e == d.(workers := e.workers, taken := e.taken)
  {
    if p.size <= 128 then Tried(d, env, 0, |d.workers|) else d
  }

  ghost predicate SendsFull(d: State, now: int, env: Env)
    requires d.workers != []
  {
    AllFull(d, Send, FirstSend(d, now), env, |d.workers|)
  }

  /** There is no worker, or every queue the packet may use is full when it is tried. */
  ghost predicate Blocked(d: State, p: Packet, now: int, env: Env) {
    d.workers == [] || (PriosFull(d, p, now, env) && SendsFull(BeforeSends(d, p, env), now, env))
  }

  /** The packet is in the first priority queue with room; the cursor moves after a pause only. */
  ghost predicate InPrio(d: State, p: Packet, now: int, env: Env, e: State, i: nat)
    requires d.workers != []
  {
    var n, first, seen := |d.workers|, FirstPrio(d, now), Seen(d, env, 0, i);
    && p.size <= 128 && FirstRoom(d, Prio, first, env, 0, i)
    && e == seen.(workers := Put(seen.workers, Prio, (first + i) % n, p), lastPktTime := now,
                  cursor := if Paused(d, now) then Cursor(first, 0, now) else d.cursor)
  }

  /** The packet is in the first ordinary queue with room: in the chunk of the worker whose turn it is, the next being
      due once it is full, or as the first of a chunk at another worker. */
  ghost predicate InSend(d: State, p: Packet, now: int, env: Env, e: State, i: nat)
    requires d.workers != []
  {
    var n, first := |d.workers|, FirstSend(d, now);
    var seen, held := Seen(d, env, n, i), (if BrokenOff(d, now) then 0 else d.cursor.count) + 1;
    && FirstRoom(d, Send, first, env, n, i)
    && e == seen.(workers := Put(seen.workers, Send, (first + i) % n, p), lastPktTime := now, cursor := e.cursor)
    && if i > 0 then e.cursor == Cursor((first + i) % n, 1, now)
       else if held >= ChunkSizeFor(p.size) then e.cursor == Cursor((first + 1) % n, 0, now)
       else e.cursor.index % n == first && (e.cursor.count, e.cursor.start) == (held, Began(d, now))
  }

  /** The packet is dropped and the next worker is due. */
  ghost predicate Dropped(d: State, p: Packet, now: int, env: Env, e: State)
    requires d.workers != []
  {
    var n := |d.workers|;
    e == Tried(d, env, n, n).(recycled := d.recycled + [p], lastPktTime := now,
                              cursor := Cursor((FirstSend(d, now) + 1) % n, 0, Began(d, now)))
  }

  /** What becomes of the packet: it is in one queue, the first that had room when tried, priority queues first, or it
      is dropped. */
  ghost predicate Placed(d: State, p: Packet, now: int, env: Env, e: State)
    requires d.workers != []
  {
    var before := BeforeSends(d, p, env);
    if Blocked(d, p, now, env) then Dropped(before, p, now, env, e)
    else if PriosFull(d, p, now, env) then exists i: nat :: InSend(before, p, now, env, e, i)
    else exists i: nat :: InPrio(d, p, now, env, e, i)
  }

  lemma FirstTries(d: State, now: int)
    requires d.workers != []
    ensures var n, c := |d.workers|, Pause(d, now).cursor;
            && c == (if Paused(d, now) then Cursor(FirstPrio(d, now), 0, now) else d.cursor)
            && c.index % n == FirstPrio(d, now)
            && var b := Dwell(c, n, now);
               && b.index % n == FirstSend(d, now)
               && (b.count, b.start) == (if BrokenOff(d, now) then 0 else d.cursor.count, Began(d, now))
  {
    var n := |d.workers|;
    var x := (d.cursor.index + 1) % n;
    SmallDiv(x, n);
  }

  lemma SomewhereElse(first: nat, i: nat, n: nat)
    requires first < n && i < n
    ensures (first + i) % n == first <==> i == 0
  {
    SmallDiv(first, n);
    ModAdd(first, i, n);
  }

  /** The tries after a pause or none, told by the state before. */
  lemma TriesMean(d: State, now: int, kind: Kind, first: nat, env: Env, base: nat) returns (j: nat)
    requires d.workers != []
    ensures var (f, spot), c := Scan(Pause(d, now), kind, first, 0, env, base), Pause(d, now).cursor;
            if AllFull(d, kind, first, env, base) then
              (f, spot) == (Tried(d, env, base, |d.workers|).(cursor := c, lastPktTime := now), NoSpot)
            else
              FirstRoom(d, kind, first, env, base, j)
              && (f, spot) == (Seen(d, env, base, j).(cursor := c, lastPktTime := now), At((first + j) % |d.workers|))
  {
    var c := Pause(d, now).cursor;
    assert Pause(d, now) == d.(cursor := c, lastPktTime := now);
    hide Scan, AllFull, FirstRoom, Seen, Tried, Pause;
    j := ScanMeans(d, kind, first, env, base);
    ScanApart(d, c, now, kind, first, 0, env, base);
  }

  lemma SendPlaced(d: State, p: Packet, now: int, env: Env) returns (i: nat)
    requires d.workers != []
    ensures var e := PlaceSend(Pause(d, now), p, now, env);
            if SendsFull(d, now, env) then Dropped(d, p, now, env, e) else InSend(d, p, now, env, e, i)
  {
    hide Scan, AllFull, Seen, Tried, Pause, Dwell, FirstSend, Began, BrokenOff, ChunkSizeFor, Put, FullWhenTried;
    var n, first := |d.workers|, FirstSend(d, now);
    FirstTries(d, now);
    i := TriesMean(d, now, Send, first, env, n);
    if !SendsFull(d, now, env) {
      SomewhereElse(first, i, n);
    }
  }

  lemma PrioPlaced(d: State, p: Packet, now: int, env: Env) returns (i: nat)
    requires d.workers != [] && p.size <= 128
    ensures var (f, spot) := Scan(Pause(d, now), Prio, FirstPrio(d, now), 0, env, 0);
            if PriosFull(d, p, now, env) then (f, spot) == (Pause(BeforeSends(d, p, env), now), NoSpot)
            else spot.At? && InPrio(d, p, now, env, f.(workers := Put(f.workers, Prio, spot.index, p)), i)
  {
    hide Scan, AllFull, FirstRoom, Seen, Tried, Pause, FirstPrio, Put, FullWhenTried;
    FirstTries(d, now);
    i := TriesMean(d, now, Prio, FirstPrio(d, now), env, 0);
    PauseOf(d, BeforeSends(d, p, env), now);
  }

  lemma PauseOf(d: State, e: State, now: int)
    requires d.workers != [] && |e.workers| == |d.workers| && e == d.(workers := e.workers, taken := e.taken)
    ensures Pause(e, now) == e.(cursor := Pause(d, now).cursor, lastPktTime := now)
  {}

  /** A packet is recycled exactly when there is no worker or every queue it may use was full when it was tried, and
      otherwise is put in one queue, the first that had room; whatever the consumers take between two tries. The cursor
      follows the packet. */
  lemma RecycledExactly(d: State, p: Packet, now: int, env: Env)
    ensures var e := Place(d, p, now, env);
            && |e.workers| == |d.workers| && e.gone == d.gone
            && e.recycled == (if Blocked(d, p, now, env) then d.recycled + [p] else d.recycled)
            && if d.workers == [] then e == d.(recycled := e.recycled) else Placed(d, p, now, env, e)
  {
    if d.workers != [] {
      if p.size > 128 {
        var i := SendPlaced(d, p, now, env);
        hide PlaceSend, FirstRoom, SendsFull;
      } else {
        var i := PrioPlaced(d, p, now, env);
        FirstTries(d, now);
        hide Scan, PlaceSend, PriosFull, SendsFull, FirstRoom, Pause;
        if PriosFull(d, p, now, env) {
          var j := SendPlaced(BeforeSends(d, p, env), p, now, env);
        }
      }
    }
  }

  /** With no consumer at work meanwhile: the packet is recycled exactly when every queue it may use is full. */
  lemma IdleExactly(d: State, p: Packet, now: int)
    ensures Blocked(d, p, now, _ => []) <==>
            forall w | w in d.workers ::
              |w.send.queue| >= w.send.cap && (p.size <= 128 ==> |w.prio.queue| >= w.prio.cap)
  {
    if d.workers != [] {
      IdleFull(d, Prio, FirstPrio(d, now), 0);
      IdleTried(d, 0, |d.workers|);
      hide Channel.Full, AllFull, Tried;
      IdleFull(d, Send, FirstSend(d, now), |d.workers|);
    }
  }

  lemma {:induction false} IdleTried(d: State, base: nat, i: nat)
    ensures Tried(d, _ => [], base, i) == d
  {
    if i > 0 {
      IdleTried(d, base, i - 1);
    }
  }

  lemma IdleFull(d: State, kind: Kind, first: nat, base: nat)
    requires d.workers != []
    ensures AllFull(d, kind, first, _ => [], base) <==> forall w | w in d.workers :: Chan(w, kind).Full()
  {
    var env: Env := _ => [];
    forall i: nat
      ensures Seen(d, env, base, i) == d
    {
      IdleTried(d, base, i + 1);
    }
    if AllFull(d, kind, first, env, base) {
      forall c: nat | c < |d.workers|
        ensures Chan(d.workers[c], kind).Full()
      {
        var i := EveryWorkerTried(d, kind, first, env, base, c);
      }
    }
  }

  // ---------------------------------------------------------------- conservation

  ghost function InSlot(w: Slot): multiset<Packet> {
    multiset(w.send.queue) + multiset(w.prio.queue)
  }

  ghost function Queued(ws: seq<Slot>): multiset<Packet> {
    if ws == [] then multiset{} else Queued(ws[..|ws| - 1]) + InSlot(ws[|ws| - 1])
  }

  /** Every packet the dispatcher still knows of: queued, taken by a worker, gone with one, or recycled. */
  ghost function Everywhere(d: State): multiset<Packet> {
    Queued(d.workers) + Queued(d.gone) + multiset(d.taken) + multiset(d.recycled)
  }

  lemma {:induction false} QueuedSplit(a: seq<Slot>, b: seq<Slot>)
    ensures Queued(a + b) == Queued(a) + Queued(b)
    decreases |b|
  {
    hide InSlot;
    if b == [] {
      assert a + b == a;
    } else {
      var k := |b| - 1;
      assert (a + b)[..|a + b| - 1] == a + b[..k];
      QueuedSplit(a, b[..k]);
    }
  }

  lemma QueuedOne(w: Slot)
    ensures Queued([w]) == InSlot(w)
  {
    assert [w][..0] == [];
  }

  /** Changing one slot changes the total by that slot. */
  lemma QueuedAt(ws: seq<Slot>, i: nat)
    requires i < |ws|
    ensures Queued(ws) == Queued(ws[..i] + ws[i + 1..]) + InSlot(ws[i])
  {
    hide InSlot, Queued;
    assert ws == ws[..i] + [ws[i]] + ws[i + 1..];
    QueuedSplit(ws[..i] + [ws[i]], ws[i + 1..]);
    QueuedSplit(ws[..i], [ws[i]]);
    QueuedOne(ws[i]);
    QueuedSplit(ws[..i], ws[i + 1..]);
  }

  lemma QueuedUpdate(ws: seq<Slot>, i: nat, w: Slot)
    requires i < |ws|
    ensures Queued(ws[i := w]) + InSlot(ws[i]) == Queued(ws) + InSlot(w)
  {
    hide InSlot, Queued;
    QueuedAt(ws, i);
    QueuedAt(ws[i := w], i);
    assert ws[i := w][..i] + ws[i := w][i + 1..] == ws[..i] + ws[i + 1..];
  }

  lemma Cancel(a: multiset<Packet>, b: multiset<Packet>, x: multiset<Packet>)
    requires a + x == b + x
    ensures a == b
  {
    forall p
      ensures a[p] == b[p]
    {
      assert (a + x)[p] == (b + x)[p];
    }
  }

  lemma PutQueued(ws: seq<Slot>, kind: Kind, i: nat, p: Packet)
    requires i < |ws|
    ensures Queued(Put(ws, kind, i, p)) == Queued(ws) + multiset{p}
  {
    hide Queued;
    var w := Put(ws, kind, i, p)[i];
    QueuedUpdate(ws, i, w);
    assert InSlot(w) == InSlot(ws[i]) + multiset{p};
    Cancel(Queued(Put(ws, kind, i, p)), Queued(ws) + multiset{p}, InSlot(ws[i]));
  }

  /** A worker that takes a packet off a queue only moves it. */
  lemma TakeEverywhere(d: State, t: Take)
    ensures Everywhere(TakeOne(d, t)) == Everywhere(d)
  {
    hide Queued;
    var e := TakeOne(d, t);
    if t.worker < |d.workers| && Chan(d.workers[t.worker], t.kind).queue != [] {
      var w, v := d.workers[t.worker], e.workers[t.worker];
      var q := Chan(w, t.kind).queue;
      assert q == [q[0]] + q[1..];
      assert InSlot(w) == InSlot(v) + multiset{q[0]};
      QueuedUpdate(d.workers, t.worker, v);
      Cancel(Queued(d.workers), Queued(e.workers) + multiset{q[0]}, InSlot(v));
    }
  }

  lemma {:induction false} MeanwhileEverywhere(d: State, ts: seq<Take>)
    ensures Everywhere(Meanwhile(d, ts)) == Everywhere(d)
  {
    hide Everywhere, TakeOne;
    if ts != [] {
      MeanwhileEverywhere(d, ts[..|ts| - 1]);
      TakeEverywhere(Meanwhile(d, ts[..|ts| - 1]), ts[|ts| - 1]);
    }
  }

  lemma {:induction false} ScanEverywhere(d: State, kind: Kind, first: nat, i: nat, env: Env, base: nat)
    requires d.workers != []
    ensures Everywhere(Scan(d, kind, first, i, env, base).0) == Everywhere(d)
    decreases |d.workers| - i
  {
    hide Everywhere, Meanwhile;
    if i < |d.workers| {
      MeanwhileEverywhere(d, env(base + i));
      ScanEverywhere(Meanwhile(d, env(base + i)), kind, first, i + 1, env, base);
    }
  }

  lemma PutEverywhere(d: State, e: State, kind: Kind, i: nat, p: Packet)
    requires i < |d.workers| && e.workers == Put(d.workers, kind, i, p)
    requires (e.gone, e.taken, e.recycled) == (d.gone, d.taken, d.recycled)
    ensures Everywhere(e) == Everywhere(d) + multiset{p}
  {
    PutQueued(d.workers, kind, i, p);
    hide Queued, Put;
  }

  lemma RecycledEverywhere(d: State, e: State, p: Packet)
    requires (e.workers, e.gone, e.taken, e.recycled) == (d.workers, d.gone, d.taken, d.recycled + [p])
    ensures Everywhere(e) == Everywhere(d) + multiset{p}
  {
    hide Queued;
  }

  lemma SendEverywhere(d: State, p: Packet, now: int, env: Env)
    requires d.workers != []
    ensures Everywhere(PlaceSend(d, p, now, env)) == Everywhere(d) + multiset{p}
  {
    var n := |d.workers|;
    var first := Pick(d.cursor, n, now);
    ScanEverywhere(d, Send, first, 0, env, n);
    var (e, spot) := Scan(d, Send, first, 0, env, n);
    hide Scan, Everywhere, Put;
    if spot.At? {
      PutEverywhere(e, PlaceSend(d, p, now, env), Send, spot.index, p);
    } else {
      RecycledEverywhere(e, PlaceSend(d, p, now, env), p);
    }
  }

  lemma PlaceEverywhere(d: State, p: Packet, now: int, env: Env)
    ensures Everywhere(Place(d, p, now, env)) == Everywhere(d) + multiset{p}
  {
    if d.workers == [] {
      RecycledEverywhere(d, Place(d, p, now, env), p);
    } else {
      var e := Pause(d, now);
      PauseEverywhere(d, now);
      var first := e.cursor.index % |e.workers|;
      ScanEverywhere(e, Prio, first, 0, env, 0);
      var (f, spot) := Scan(e, Prio, first, 0, env, 0);
      hide Scan, PlaceSend, Everywhere, Pause, Put;
      if p.size > 128 {
        SendEverywhere(e, p, now, env);
      } else if spot.At? {
        PutEverywhere(f, Place(d, p, now, env), Prio, spot.index, p);
      } else {
        SendEverywhere(f, p, now, env);
      }
    }
  }

  lemma PauseEverywhere(d: State, now: int)
    requires d.workers != []
    ensures Everywhere(Pause(d, now)) == Everywhere(d)
  {}

  lemma LeftEverywhere(d: State, id: nat)
    ensures Everywhere(Left(d, id)) == Everywhere(d)
  {
    var i := Find(d.workers, id);
    hide Find, InSlot, Queued;
    if i < |d.workers| {
      QueuedAt(d.workers, i);
      QueuedSplit(d.gone, [d.workers[i]]);
      QueuedOne(d.workers[i]);
    } else {
      assert d.gone + [] == d.gone;
    }
  }

  lemma JoinedEverywhere(d: State, id: nat, sc: nat, pc: nat)
    ensures Everywhere(Joined(d, id, sc, pc)) == Everywhere(d)
  {
    hide Queued;
    var w := Slot(id, Channel([], sc), Channel([], pc));
    QueuedSplit(d.workers, [w]);
    QueuedOne(w);
  }

  ghost function Incoming(e: Event): multiset<Packet> {
    if e.Arrive? then multiset{e.packet} else multiset{}
  }

  lemma StepEverywhere(d: State, e: Event)
    ensures Everywhere(Step(d, e)) == Everywhere(d) + Incoming(e)
  {
    hide Everywhere, Place, Joined, Left, TakeOne;
    match e
    case Arrive(p, now, env) => PlaceEverywhere(d, p, now, env);
    case Register(id, sc, pc) => JoinedEverywhere(d, id, sc, pc);
    case Unregister(id) => LeftEverywhere(d, id);
    case Taken(t) => TakeEverywhere(d, t);
  }

  ghost function AllIncoming(events: seq<Event>): multiset<Packet> {
    if events == [] then multiset{} else AllIncoming(events[..|events| - 1]) + Incoming(events[|events| - 1])
  }

  /** Over every interleaving of packets, workers coming and going, and queues being emptied, also between two tries
      of one packet, each packet read is in exactly one place. */
  lemma {:induction false} NothingLost(events: seq<Event>)
    ensures Everywhere(Run(Step, IDLE, events)) == AllIncoming(events)
  {
    hide Everywhere, Step, Incoming;
    if events == [] {
      NothingYet();
    } else {
      NothingLost(events[..|events| - 1]);
      StepEverywhere(Run(Step, IDLE, events[..|events| - 1]), events[|events| - 1]);
    }
  }

  lemma NothingYet()
    ensures Everywhere(IDLE) == multiset{}
  {}

  /** No chunk is ever overrun. */
  lemma CountBounded(events: seq<Event>)
    ensures Run(Step, IDLE, events).cursor.count < 64
  {
    forall d: State, e: Event | d.cursor.count < 64
      ensures Step(d, e).cursor.count < 64
    {
      if e.Arrive? {
        hide Place;
        RecycledExactly(d, e.packet, e.now, e.env);
      }
    }
    hide Step;
    RunKeeps(Step, (d: State) => d.cursor.count < 64, IDLE, events);
  }

  // ---------------------------------------------------------------- capacity

  ghost predicate Within(ws: seq<Slot>) {
    forall i | 0 <= i < |ws| :: |ws[i].send.queue| <= ws[i].send.cap && |ws[i].prio.queue| <= ws[i].prio.cap
  }

  lemma {:induction false} MeanwhileWithin(d: State, ts: seq<Take>)
    requires Within(d.workers)
    ensures Within(Meanwhile(d, ts).workers)
  {
    if ts != [] {
      MeanwhileWithin(d, ts[..|ts| - 1]);
    }
  }

  lemma {:induction false} ScanWithin(d: State, kind: Kind, first: nat, i: nat, env: Env, base: nat)
    requires d.workers != [] && Within(d.workers)
    ensures Within(Scan(d, kind, first, i, env, base).0.workers)
    decreases |d.workers| - i
  {
    hide Meanwhile, Within;
    if i < |d.workers| {
      MeanwhileWithin(d, env(base + i));
      ScanWithin(Meanwhile(d, env(base + i)), kind, first, i + 1, env, base);
    }
  }

  lemma SendWithin(d: State, p: Packet, now: int, env: Env)
    requires d.workers != [] && Within(d.workers)
    ensures Within(PlaceSend(d, p, now, env).workers)
  {
    ScanWithin(d, Send, Pick(d.cursor, |d.workers|, now), 0, env, |d.workers|);
    hide Scan, Dwell, Used;
  }

  lemma PlaceWithin(d: State, p: Packet, now: int, env: Env)
    requires Within(d.workers)
    ensures Within(Place(d, p, now, env).workers)
  {
    if d.workers != [] {
      var e := Pause(d, now);
      var first := e.cursor.index % |e.workers|;
      ScanWithin(e, Prio, first, 0, env, 0);
      hide Scan, PlaceSend;
      if p.size > 128 {
        SendWithin(e, p, now, env);
      } else if Scan(e, Prio, first, 0, env, 0).1.NoSpot? {
        SendWithin(Scan(e, Prio, first, 0, env, 0).0, p, now, env);
      }
    }
  }

  /** No queue is ever longer than its capacity. */
  lemma QueuesBounded(events: seq<Event>)
    ensures forall w | w in Run(Step, IDLE, events).workers ::
              |w.send.queue| <= w.send.cap && |w.prio.queue| <= w.prio.cap
  {
    forall d: State, e: Event | Within(d.workers)
      ensures Within(Step(d, e).workers)
    {
      hide Place;
      if e.Arrive? {
        PlaceWithin(d, e.packet, e.now, e.env);
      }
    }
    hide Step;
    RunKeeps(Step, (d: State) => Within(d.workers), IDLE, events);
  }

  // ---------------------------------------------------------------- a stream

  /** Packets above the priority threshold, and workers emptying their queues. */
  ghost predicate Stream(events: seq<Event>) {
    forall e | e in events :: OfStream(e)
  }

  predicate OfStream(e: Event) {
    (e.Arrive? && e.packet.size > 128) || e.Taken?
  }

  /** When the last packet came; `last` if none has. */
  function LastTime(last: int, events: seq<Event>): int {
    if events == [] then last else
      var e := events[|events| - 1];
      if e.Arrive? then e.now else LastTime(last, events[..|events| - 1])
  }

  function TickOf(last: int, p: Packet, now: int): Tick {
    Tick(p.size, now, last > 0 && now - last > 10)
  }

  /** The packets, each with whether a pause came before it. */
  function Ticks(last: int, events: seq<Event>): seq<Tick> {
    if events == [] then [] else
      var before, e := events[..|events| - 1], events[|events| - 1];
      Ticks(last, before) + (if e.Arrive? then [TickOf(LastTime(last, before), e.packet, e.now)] else [])
  }

  /** At every packet the worker whose turn it is has room when it is tried. */
  ghost predicate Smooth(d: State, events: seq<Event>) {
    forall i: nat | i < |events| && events[i].Arrive? ::
      Ready(Run(Step, d, events[..i]), events[i].now, events[i].env)
  }

  ghost predicate Ready(d: State, now: int, env: Env) {
    d.workers != [] && !AtFirstTry(d, env)[FirstSend(d, now)].send.Full()
  }

  /** The workers when a packet above the threshold makes its first try. */
  function AtFirstTry(d: State, env: Env): (ws: seq<Slot>)
    ensures |ws| == |d.workers|
  {
    Meanwhile(d, env(|d.workers|)).workers
  }

  lemma FirstTry(d: State, p: Packet, now: int, env: Env)
    requires p.size > 128 && Ready(d, now, env)
    ensures var t, n, tick := Place(d, p, now, env), |d.workers|, TickOf(d.lastPktTime, p, now);
            && t.cursor == Turn(n)(d.cursor, tick) && t.lastPktTime == now
            && FirstSend(d, now) == Due(d.cursor, n, tick) < n
            && t.workers == Put(AtFirstTry(d, env), Send, Due(d.cursor, n, tick), p)
  {
    var n, c, first := |d.workers|, Pause(d, now).cursor, FirstSend(d, now);
    FirstTries(d, now);
    SmallDiv(first, n);
    assert Scan(d, Send, first, 0, env, n) == (Meanwhile(d, env(n)), At(first));
    ScanApart(d, c, now, Send, first, 0, env, n);
    assert Pause(d, now) == d.(cursor := c, lastPktTime := now);
    hide Scan, ChunkSizeFor, Meanwhile;
  }

  lemma OneEvent(d: State, e: Event)
    requires OfStream(e) && (e.Arrive? ==> Ready(d, e.now, e.env))
    ensures var t, n := Step(d, e), |d.workers|;
            && |t.workers| == n
            && (if e.Arrive? then
                  (t.cursor, t.lastPktTime) == (Turn(n)(d.cursor, TickOf(d.lastPktTime, e.packet, e.now)), e.now)
                else (t.cursor, t.lastPktTime) == (d.cursor, d.lastPktTime))
  {
    if e.Arrive? {
      FirstTry(d, e.packet, e.now, e.env);
      hide Place, Turn, AtFirstTry;
    }
  }

  lemma TicksNext(last: int, events: seq<Event>, c: Cursor, n: nat)
    requires events != [] && n > 0
    ensures var before, e := events[..|events| - 1], events[|events| - 1];
            var c' := After(c, n, Ticks(last, before));
            After(c, n, Ticks(last, events)) ==
            if e.Arrive? then Turn(n)(c', TickOf(LastTime(last, before), e.packet, e.now)) else c'
  {
    var before, e := events[..|events| - 1], events[|events| - 1];
    var ts := Ticks(last, before);
    assert ts + [] == ts;
    if e.Arrive? {
      assert (ts + [TickOf(LastTime(last, before), e.packet, e.now)])[..|ts|] == ts;
    }
  }

  lemma SmoothBefore(d: State, events: seq<Event>, k: nat)
    requires k <= |events| && Smooth(d, events)
    ensures Smooth(d, events[..k])
  {
    var before := events[..k];
    forall i: nat | i < |before| && before[i].Arrive?
      ensures Ready(Run(Step, d, before[..i]), before[i].now, before[i].env)
    {
      assert before[..i] == events[..i];
    }
  }

  /** The cursor follows the packets of the stream. */
  lemma {:induction false} StreamCursor(d: State, events: seq<Event>)
    requires d.workers != [] && Stream(events) && Smooth(d, events)
    ensures var t, n, last := Run(Step, d, events), |d.workers|, d.lastPktTime;
            && |t.workers| == n && t.lastPktTime == LastTime(last, events)
            && t.cursor == After(d.cursor, n, Ticks(last, events))
  {
    hide Step, Turn, Ready, OfStream;
    if events != [] {
      var last := |events| - 1;
      SmoothBefore(d, events, last);
      StreamCursor(d, events[..last]);
      TicksNext(d.lastPktTime, events, d.cursor, |d.workers|);
      hide After, Ticks;
      assert events[last] in events;
      OneEvent(Run(Step, d, events[..last]), events[last]);
    }
  }

  /** While each packet finds room at its first try, whatever the sizes, times and pauses: a packet goes to the worker
      as many places on from the first as chunks have been filled before it and broken off up to it. */
  lemma UplinkByChunks(d: State, events: seq<Event>, p: Packet, now: int, env: Env)
    requires d.workers != [] && p.size > 128
    requires Stream(events) && Smooth(d, events) && Ready(Run(Step, d, events), now, env)
    ensures var t, n, c, last := Run(Step, d, events), |d.workers|, d.cursor, d.lastPktTime;
            var l := Entries(c.count, c.start, Ticks(last, events));
            var late := Late(l, TickOf(LastTime(last, events), p, now));
            && |t.workers| == n
            && Place(t, p, now, env).workers ==
               Put(AtFirstTry(t, env), Send, (c.index + l.filled + l.cut + (if late then 1 else 0)) % n, p)
  {
    hide Ready, Place, Turn, Due, Smooth, Stream, Run, Ticks, AtFirstTry, After, Entries, Put;
    StreamCursor(d, events);
    var t, last := Run(Step, d, events), d.lastPktTime;
    FirstTry(t, p, now, env);
    WorkerByChunks(d.cursor, |d.workers|, Ticks(last, events), TickOf(LastTime(last, events), p, now));
  }

  lemma {:induction false} TakesOnly(last: int, events: seq<Event>, takes: seq<Event>)
    requires forall e | e in takes :: e.Taken?
    ensures Ticks(last, events + takes) == Ticks(last, events)
    ensures LastTime(last, events + takes) == LastTime(last, events)
    decreases |takes|
  {
    if takes == [] {
      assert events + takes == events;
    } else {
      var k := |takes| - 1;
      TakesOnly(last, events, takes[..k]);
      assert (events + takes)[..|events + takes| - 1] == events + takes[..k];
      assert takes[k] in takes;
    }
  }

  lemma OneTick(last: int, before: seq<Event>, a: Event, takes: seq<Event>)
    requires a.Arrive? && forall e | e in takes :: e.Taken?
    ensures Ticks(last, before + [a] + takes) ==
            Ticks(last, before) + [TickOf(LastTime(last, before), a.packet, a.now)]
    ensures LastTime(last, before + [a] + takes) == a.now
  {
    TakesOnly(last, before + [a], takes);
    assert (before + [a])[..|before|] == before;
  }

  /** Packet `p` follows the packet of `a`, which goes to worker `w`, and goes to worker `v`. With several workers they
      are the same if and only if the chunk was neither filled nor is broken off, or both and there are just two; if one
      of the two is so, `p` goes to the next worker. */
  lemma UplinkNextWorker(d: State, before: seq<Event>, a: Event, takes: seq<Event>, p: Packet, now: int, env: Env)
    returns (w: nat, v: nat)
    requires |d.workers| > 1 && p.size > 128 && a.Arrive? && forall e | e in takes :: e.Taken?
    requires var all := before + [a] + takes;
             Stream(all) && Smooth(d, all) && Ready(Run(Step, d, all), now, env)
    ensures var x, y, n := Run(Step, d, before), Run(Step, d, before + [a] + takes), |d.workers|;
            && |x.workers| == n && w < n && Step(x, a).workers == Put(AtFirstTry(x, a.env), Send, w, a.packet)
            && |y.workers| == n && v < n && Place(y, p, now, env).workers == Put(AtFirstTry(y, env), Send, v, p)
    ensures var last, n := d.lastPktTime, |d.workers|;
            var l := Entries(d.cursor.count, d.cursor.start, Ticks(last, before));
            var t, u := TickOf(LastTime(last, before), a.packet, a.now), TickOf(a.now, p, now);
            var full, late := Full(l, t), Late(Entered(l, t), u);
            && (v == w <==> (!full && !late) || (full && late && n == 2))
            && (full != late ==> v == (w + 1) % n)
            && (full && late ==> v == (w + 2) % n)
  {
    hide Run, Step, Ticks, LastTime, Stream, Smooth, Ready, Entries, After, Full, Late, Entered, Place, Put, Due,
         AtFirstTry, FirstSend, Turn, TickOf;
    var n, last, all := |d.workers|, d.lastPktTime, before + [a] + takes;
    BothReady(d, before, a, takes);
    OneTick(last, before, a, takes);
    StreamCursor(d, before);
    StreamCursor(d, all);
    var x, y := Run(Step, d, before), Run(Step, d, all);
    FirstTry(x, a.packet, a.now, a.env);
    FirstTry(y, p, now, env);
    var t, u := TickOf(LastTime(last, before), a.packet, a.now), TickOf(a.now, p, now);
    w, v := Due(x.cursor, n, t), Due(y.cursor, n, u);
    NextWorkerExactly(d.cursor, n, Ticks(last, before), t, u);
  }

  lemma BothReady(d: State, before: seq<Event>, a: Event, takes: seq<Event>)
    requires a.Arrive? && Stream(before + [a] + takes) && Smooth(d, before + [a] + takes)
    ensures Stream(before) && Smooth(d, before) && a.packet.size > 128
    ensures var x := Run(Step, d, before);
            Ready(x, a.now, a.env) && Step(x, a) == Place(x, a.packet, a.now, a.env)
  {
    hide Run, Ready, Place;
    var all := before + [a] + takes;
    assert all[..|before|] == before && all[|before|] == a;
    SmoothBefore(d, all, |before|);
    assert OfStream(a);
  }

  /** From a chunk boundary, with one chunk size, no pause, room at each first try and no chunk cut short, packet `j`
      goes to worker `(first + j / k) mod n`, `k` the chunk size. */
  lemma UplinkClosedForm(d: State, events: seq<Event>, p: Packet, now: int, env: Env)
    requires d.workers != [] && d.cursor.count == 0 && p.size > 128
    requires Stream(events) && Smooth(d, events) && Ready(Run(Step, d, events), now, env)
    requires var last := d.lastPktTime;
             Prompt(d.cursor.start, ChunkSizeFor(p.size),
                    Ticks(last, events) + [TickOf(LastTime(last, events), p, now)])
    ensures var t, n, k := Run(Step, d, events), |d.workers|, ChunkSizeFor(p.size);
            var j := |Ticks(d.lastPktTime, events)|;
            && |t.workers| == n
            && Place(t, p, now, env).workers == Put(AtFirstTry(t, env), Send, (d.cursor.index + j / k) % n, p)
  {
    hide Prompt, Ready, Place, Turn, Due, Smooth, Stream, Run, Ticks, AtFirstTry, After, Put, ChunkSizeFor;
    StreamCursor(d, events);
    var t, last := Run(Step, d, events), d.lastPktTime;
    var ts, tick := Ticks(last, events), TickOf(LastTime(last, events), p, now);
    FirstTry(t, p, now, env);
    assert (ts + [tick])[..|ts|] == ts;
    ClosedForm(d.cursor, |d.workers|, ChunkSizeFor(p.size), ts + [tick], |ts|);
  }
}
