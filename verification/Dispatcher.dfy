/** The client's dispatcher: every packet goes to one worker's queue or is recycled. */
module Dispatcher {
  import opened RoundRobin

  const PRIO_THRESHOLD: nat := 128
  const PAUSE_MS: int := 10

  datatype Packet = Packet(id: nat, size: nat)

  datatype Channel = Channel(queue: seq<Packet>, cap: nat) {
    predicate Full() {
      |queue| >= cap
    }

    function Put(p: Packet): Channel {
      this.(queue := queue + [p])
    }
  }

  /** A worker: its identity and its two channels. */
  datatype Slot = Slot(id: nat, send: Channel, prio: Channel)

  /** `gone` are the workers that have left, `taken` what workers took off their queues, `recycled` what had no
      place to go. */
  datatype State = State(workers: seq<Slot>, cursor: Cursor, lastPktTime: int,
                         gone: seq<Slot>, taken: seq<Packet>, recycled: seq<Packet>)

  datatype Spot = NoSpot | At(index: nat)

  datatype Kind = Send | Prio

  function Chan(w: Slot, kind: Kind): Channel {
    if kind == Send then w.send else w.prio
  }

  // ---------------------------------------------------------------- the consumers

  /** A worker takes the first packet off one of its queues; it does not need the dispatcher's lock. */
  datatype Take = Take(kind: Kind, worker: nat)

  function TakeOne(d: State, t: Take): (e: State)
    ensures |e.workers| == |d.workers| && e == d.(workers := e.workers, taken := e.taken)
  {
    if t.worker < |d.workers| && Chan(d.workers[t.worker], t.kind).queue != [] then
      var w := d.workers[t.worker];
      var q := Chan(w, t.kind).queue;
      var rest := Chan(w, t.kind).(queue := q[1..]);
      d.(workers := d.workers[t.worker := if t.kind == Send then w.(send := rest) else w.(prio := rest)],
         taken := d.taken + [q[0]])
    else d
  }

  /** What the consumers do meanwhile. */
  function Meanwhile(d: State, ts: seq<Take>): (e: State)
    ensures |e.workers| == |d.workers| && e == d.(workers := e.workers, taken := e.taken)
  {
    if ts == [] then d else TakeOne(Meanwhile(d, ts[..|ts| - 1]), ts[|ts| - 1])
  }

  /** What the consumers do before each try of one packet, by the number of the try. */
  type Env = nat -> seq<Take>

  // ---------------------------------------------------------------- a packet's way

  function Put(ws: seq<Slot>, kind: Kind, i: nat, p: Packet): (r: seq<Slot>)
    requires i < |ws|
    ensures |r| == |ws|
  {
    ws[i := if kind == Send then ws[i].(send := ws[i].send.Put(p)) else ws[i].(prio := ws[i].prio.Put(p))]
  }

  /** Tries from the `i`-th on, going round from `first`: the first channel that has room when it is tried. Tries are
      numbered from `base`. */
  function Scan(d: State, kind: Kind, first: nat, i: nat, env: Env, base: nat): (r: (State, Spot))
    requires d.workers != []
    ensures |r.0.workers| == |d.workers| && r.0 == d.(workers := r.0.workers, taken := r.0.taken)
    ensures r.1.At? ==> r.1.index < |d.workers| && !Chan(r.0.workers[r.1.index], kind).Full()
    decreases |d.workers| - i
  {
    if i >= |d.workers| then (d, NoSpot)
    else
      var e, c := Meanwhile(d, env(base + i)), (first + i) % |d.workers|;
      if !Chan(e.workers[c], kind).Full() then (e, At(c)) else Scan(e, kind, first, i + 1, env, base)
  }

  lemma {:induction false} MeanwhileApart(d: State, c: Cursor, last: int, ts: seq<Take>)
    ensures Meanwhile(d.(cursor := c, lastPktTime := last), ts) == Meanwhile(d, ts).(cursor := c, lastPktTime := last)
  {
    if ts != [] {
      MeanwhileApart(d, c, last, ts[..|ts| - 1]);
    }
  }

  /** The tries do not depend on the cursor or the time, nor change them. */
  lemma {:induction false} ScanApart(d: State, c: Cursor, last: int,
                                     kind: Kind, first: nat, i: nat, env: Env, base: nat)
    requires d.workers != []
    ensures var (e, spot) := Scan(d, kind, first, i, env, base);
            Scan(d.(cursor := c, lastPktTime := last), kind, first, i, env, base) ==
            (e.(cursor := c, lastPktTime := last), spot)
    decreases |d.workers| - i
  {
    hide Meanwhile;
    if i < |d.workers| {
      MeanwhileApart(d, c, last, env(base + i));
      ScanApart(Meanwhile(d, env(base + i)), c, last, kind, first, i + 1, env, base);
    }
  }

  lemma CursorApart(d: State, c: Cursor, kind: Kind, first: nat, env: Env, base: nat)
    requires d.workers != []
    ensures var (e, spot) := Scan(d.(cursor := c), kind, first, 0, env, base);
            Scan(d, kind, first, 0, env, base) == (e.(cursor := d.cursor), spot)
  {
    ScanApart(d, c, d.lastPktTime, kind, first, 0, env, base);
  }

  /** A pause starts a new chunk at the next worker. */
  function Pause(d: State, now: int): State
    requires d.workers != []
  {
    var e := d.(lastPktTime := now);
    if d.lastPktTime > 0 && now - d.lastPktTime > PAUSE_MS then
      e.(cursor := Fresh(d.cursor, |d.workers|, now))
    else e
  }

  /** The ordinary queues: the worker in use, else the next with room, else nothing. Its tries come after those of the
      priority queues. */
  function PlaceSend(d: State, p: Packet, now: int, env: Env): State
    requires d.workers != []
  {
    var n := |d.workers|;
    var c := Dwell(d.cursor, n, now);
    var idx := c.index % n;
    match Scan(d, Send, idx, 0, env, n)
    case (e, At(i)) =>
      e.(workers := Put(e.workers, Send, i, p),
         cursor := if i == idx then Used(c, n, ChunkSizeFor(p.size), now) else Cursor(i, 1, now))
    case (e, NoSpot) => e.(cursor := Cursor((idx + 1) % n, 0, c.start), recycled := e.recycled + [p])
  }

  function Place(d: State, p: Packet, now: int, env: Env): State {
    if d.workers == [] then d.(recycled := d.recycled + [p])
    else
      var e := Pause(d, now);
      if p.size > PRIO_THRESHOLD then PlaceSend(e, p, now, env)
      else
        match Scan(e, Prio, e.cursor.index % |e.workers|, 0, env, 0)
        case (f, At(i)) => f.(workers := Put(f.workers, Prio, i, p))
        case (f, NoSpot) => PlaceSend(f, p, now, env)
  }

  function Joined(d: State, id: nat, sendCap: nat, prioCap: nat): State {
    d.(workers := d.workers + [Slot(id, Channel([], sendCap), Channel([], prioCap))])
  }

  /** Where the first slot of worker `id` is, or the number of workers if it has none. */
  function Find(ws: seq<Slot>, id: nat): (i: nat)
    ensures i <= |ws| && (i < |ws| ==> ws[i].id == id)
    ensures forall j | 0 <= j < i :: ws[j].id != id
  {
    if ws == [] || ws[0].id == id then 0 else 1 + Find(ws[1..], id)
  }

  function Left(d: State, id: nat): State {
    var i, n := Find(d.workers, id), |d.workers|;
    var ws := if i < n then d.workers[..i] + d.workers[i + 1..] else d.workers;
    var index := if ws != [] && d.cursor.index >= |ws| then d.cursor.index % |ws| else d.cursor.index;
    d.(workers := ws, gone := d.gone + (if i < n then [d.workers[i]] else []),
       cursor := d.cursor.(index := index, count := 0))
  }

  datatype Event =
    | Arrive(packet: Packet, now: int, env: Env)
    | Register(id: nat, sendCap: nat, prioCap: nat)
    | Unregister(id: nat)
    | Taken(take: Take)

  function Step(d: State, e: Event): State {
    match e
    case Arrive(p, now, env) => Place(d, p, now, env)
    case Register(id, sc, pc) => Joined(d, id, sc, pc)
    case Unregister(id) => Left(d, id)
    case Taken(t) => TakeOne(d, t)
  }

  const IDLE: State := State([], Cursor(0, 0, 0), 0, [], [], [])

  // ---------------------------------------------------------------- the dispatcher itself

  class PacketDispatcher {
    var workers: seq<Slot>
    var rrIndex: nat
    var rrCount: nat
    var chunkStartTs: int
    var lastPktTime: int
    var gone: seq<Slot>
    var taken: seq<Packet>
    var recycled: seq<Packet>

    ghost function Value(): State
      reads this
    {
      State(workers, Cursor(rrIndex, rrCount, chunkStartTs), lastPktTime, gone, taken, recycled)
    }

    constructor ()
      ensures Value() == IDLE && IDLE == State([], Cursor(0, 0, 0), 0, [], [], [])
    {
      workers, gone, taken, recycled := [], [], [], [];
      rrIndex, rrCount, chunkStartTs, lastPktTime := 0, 0, 0, 0;
    }

    method RegisterWorker(id: nat, sendCap: nat, prioCap: nat)
      modifies this
      ensures Value() == Joined(old(Value()), id, sendCap, prioCap)
    {
      workers := workers + [Slot(id, Channel([], sendCap), Channel([], prioCap))];
    }

    method UnregisterWorker(id: nat)
      modifies this
      ensures Value() == Left(old(Value()), id)
    {
      var i := 0;
      while i < |workers| && workers[i].id != id
        invariant 0 <= i <= |workers|
        invariant forall j | 0 <= j < i :: workers[j].id != id
        invariant Value() == old(Value())
      {
        i := i + 1;
      }
      assert i == Find(workers, id);
      if i < |workers| {
        gone := gone + [workers[i]];
        workers := workers[..i] + workers[i + 1..];
      }
      var remaining := |workers|;
      if rrIndex >= remaining && remaining > 0 {
        rrIndex := rrIndex % remaining;
      }
      rrCount := 0;
    }

    /** The consumers at work between two tries. */
    method Consume(ts: seq<Take>)
      modifies this
      ensures Value() == Meanwhile(old(Value()), ts)
    {
      assert ts[..0] == [];
      for i := 0 to |ts|
        invariant Value() == Meanwhile(old(Value()), ts[..i])
      {
        assert ts[..i + 1][..i] == ts[..i];
        var t := ts[i];
        if t.worker < |workers| && Chan(workers[t.worker], t.kind).queue != [] {
          var w := workers[t.worker];
          var q := Chan(w, t.kind).queue;
          var left := Chan(w, t.kind).(queue := q[1..]);
          workers := workers[t.worker := if t.kind == Send then w.(send := left) else w.(prio := left)];
          taken := taken + [q[0]];
        }
      }
      assert ts[..|ts|] == ts;
    }

    /** The tries over the workers' channels of one kind. */
    method ScanFor(kind: Kind, first: nat, env: Env, base: nat) returns (spot: Spot)
      requires workers != []
      modifies this
      ensures (Value(), spot) == Scan(old(Value()), kind, first, 0, env, base)
    {
      hide Meanwhile;
      var i := 0;
      while i < |workers|
        invariant 0 <= i <= |workers| == |old(workers)|
        invariant Scan(old(Value()), kind, first, 0, env, base) == Scan(Value(), kind, first, i, env, base)
      {
        Consume(env(base + i));
        var c := (first + i) % |workers|;
        if !Chan(workers[c], kind).Full() {
          return At(c);
        }
        i := i + 1;
      }
      spot := NoSpot;
    }

    /** The packet's place in the ordinary queues. */
    method DispatchSend(p: Packet, now: int, env: Env)
      requires workers != []
      modifies this
      ensures Value() == PlaceSend(old(Value()), p, now, env)
    {
      hide Scan, Put, ChunkSizeFor;
      var nw, chunk := |workers|, ChunkSizeFor(p.size);
      if chunkStartTs == 0 {
        chunkStartTs := now;
      } else if now - chunkStartTs >= MAX_DWELL_MS {
        rrIndex := (rrIndex + 1) % nw;
        rrCount := 0;
        chunkStartTs := now;
      }
      var idx := rrIndex % nw;
      assert Value() == old(Value()).(cursor := Dwell(old(Value()).cursor, nw, now));
      label Ready:
      var spot := ScanFor(Send, idx, env, nw);
      CursorApart(old@Ready(Value()), old(Value()).cursor, Send, idx, env, nw);
      assert Scan(old(Value()), Send, idx, 0, env, nw) == (Value().(cursor := old(Value()).cursor), spot);
      if spot == At(idx) {
        workers := Put(workers, Send, idx, p);
        rrCount := rrCount + 1;
        if rrCount >= chunk {
          rrIndex := (idx + 1) % nw;
          rrCount := 0;
          chunkStartTs := now;
        }
      } else if spot.At? {
        workers := Put(workers, Send, spot.index, p);
        rrIndex := spot.index;
        rrCount := 1;
        chunkStartTs := now;
      } else {
        rrIndex := (idx + 1) % nw;
        rrCount := 0;
        recycled := recycled + [p];
      }
    }

    method Dispatch(p: Packet, now: int, env: Env)
      modifies this
      ensures Value() == Place(old(Value()), p, now, env)
    {
      hide Scan, PlaceSend;
      var nw := |workers|;
      if nw == 0 {
        recycled := recycled + [p];
        return;
      }
      var lastTime := lastPktTime;
      lastPktTime := now;
      if lastTime > 0 && now - lastTime > PAUSE_MS {
        rrIndex := (rrIndex + 1) % nw;
        rrCount := 0;
        chunkStartTs := now;
      }
      if p.size <= PRIO_THRESHOLD {
        var spot := ScanFor(Prio, rrIndex % nw, env, 0);
        if spot.At? {
          workers := Put(workers, Prio, spot.index, p);
          return;
        }
      }
      DispatchSend(p, now, env);
    }
  }

}
