/** The server's raw router: which of a client's workers carries its next packet. */
module Downlink {
  import opened Division
  import opened Runs
  import opened RoundRobin
  import opened Chunks

  /** A client's workers, known by their identity, and the round-robin over them. */
  datatype Session = Session(workers: seq<nat>, cursor: Cursor)

  type Sessions = map<string, Session>

  datatype Choice = NoWorker | Worker(id: nat)

  function InRange(s: Session): Cursor {
    if s.cursor.index >= |s.workers| then s.cursor.(index := 0) else s.cursor
  }

  function Picked(s: Session, now: int): Choice {
    if s.workers == [] then NoWorker else Worker(s.workers[Pick(InRange(s), |s.workers|, now)])
  }

  function AfterPick(s: Session, size: nat, now: int): Session
    requires s.workers != []
  {
    s.(cursor := Turn(|s.workers|)(InRange(s), Tick(size, now, false)))
  }

  function Removed(ws: seq<nat>, w: nat): seq<nat> {
    if ws == [] then [] else if ws[0] == w then ws[1..] else [ws[0]] + Removed(ws[1..], w)
  }

  function AfterUnregister(s: Session, w: nat): Session {
    var left := Removed(s.workers, w);
    Session(left, s.cursor.(index := if s.cursor.index >= |left| then 0 else s.cursor.index, count := 0))
  }

  datatype Event =
    | Packet(dst: string, size: nat, now: int)
    | Register(ip: string, worker: nat)
    | Unregister(ip: string, worker: nat)

  function Step(m: Sessions, e: Event): Sessions {
    match e
    case Packet(dst, size, now) =>
      if dst in m && m[dst].workers != [] then m[dst := AfterPick(m[dst], size, now)] else m
    case Register(ip, w) =>
      var s := if ip in m then m[ip] else Session([], Cursor(0, 0, 0));
      m[ip := s.(workers := s.workers + [w])]
    case Unregister(ip, w) =>
      if ip !in m then m
      else
        var s := AfterUnregister(m[ip], w);
        if s.workers == [] then m - {ip} else m[ip := s]
  }

  /** The worker in use, or the next if the chunk is 15 ms old, and the cursor once it has had the packet. */
  method Advance(from: Cursor, n: nat, size: nat, now: int) returns (i: nat, c: Cursor)
    requires from.index < n
    ensures i == if from.start != 0 && now - from.start >= 15 then (from.index + 1) % n else from.index
    ensures i < n && i == Pick(from, n, now) && c == Turn(n)(from, Tick(size, now, false))
  {
    c := from;
    if c.start == 0 {
      c := c.(start := now);
    } else if now - c.start >= MAX_DWELL_MS {
      c := Cursor((c.index + 1) % n, 0, now);
    }
    i := c.index;
    SmallDiv(i, n);
    c := c.(count := c.count + 1);
    if c.count >= ChunkSizeFor(size) {
      c := Cursor((c.index + 1) % n, 0, now);
    }
  }

  method Without(ws: seq<nat>, w: nat) returns (left: seq<nat>)
    ensures left == Removed(ws, w)
  {
    var i := 0;
    while i < |ws| && ws[i] != w
      invariant 0 <= i <= |ws|
      invariant Removed(ws, w) == ws[..i] + Removed(ws[i..], w)
    {
      assert ws[i..][1..] == ws[i + 1..];
      i := i + 1;
    }
    left := if i < |ws| then ws[..i] + ws[i + 1..] else ws;
  }

  class RawRouter {
    var sessions: Sessions

    constructor ()
      ensures sessions == map[]
    {
      sessions := map[];
    }

    /** The worker for a packet to `dst`; the cursor moves on. */
    method PickDownlinkConn(dst: string, size: nat, now: int) returns (w: Choice)
      modifies this
      ensures sessions == Step(old(sessions), Packet(dst, size, now))
      ensures w == if dst in old(sessions) then Picked(old(sessions)[dst], now) else NoWorker
    {
      if dst !in sessions || sessions[dst].workers == [] {
        return NoWorker;
      }
      var s := sessions[dst];
      var i, c := Advance(InRange(s), |s.workers|, size, now);
      w := Worker(s.workers[i]);
      sessions := sessions[dst := Session(s.workers, c)];
    }

    method AddWorker(ip: string, w: nat)
      modifies this
      ensures sessions == Step(old(sessions), Register(ip, w))
    {
      var s := if ip in sessions then sessions[ip] else Session([], Cursor(0, 0, 0));
      sessions := sessions[ip := s.(workers := s.workers + [w])];
    }

    method RemoveWorker(ip: string, w: nat)
      modifies this
      ensures sessions == Step(old(sessions), Unregister(ip, w))
    {
      if ip !in sessions {
        return;
      }
      var s := sessions[ip];
      var left := Without(s.workers, w);
      var index := if s.cursor.index >= |left| then 0 else s.cursor.index;
      if left == [] {
        sessions := sessions - {ip};
      } else {
        sessions := sessions[ip := Session(left, s.cursor.(index := index, count := 0))];
      }
    }
  }

  // ---------------------------------------------------------------- what every run keeps

  /** Every session has a worker, the one in use is one of them, and a chunk is never overrun. */
  ghost predicate Valid(m: Sessions) {
    forall ip | ip in m ::
      m[ip].cursor.index < |m[ip].workers| && m[ip].cursor.count < 64
  }

  lemma ValidAlways(events: seq<Event>)
    ensures Valid(Run(Step, map[], events))
  {
    var empty: Sessions := map[];
    RunKeeps(Step, m => Valid(m), empty, events);
  }

  // ---------------------------------------------------------------- workers coming and going

  /** A worker that is there leaves its first place, the others keep their order; no other leaves. */
  lemma {:induction false} RemovedExactly(ws: seq<nat>, w: nat) returns (i: nat)
    ensures i <= |ws| && w !in ws[..i]
    ensures if i < |ws| then ws[i] == w && Removed(ws, w) == ws[..i] + ws[i + 1..] else Removed(ws, w) == ws
  {
    i := 0;
    if ws == [] {
    } else if ws[0] != w {
      var rest := ws[1..];
      var j := RemovedExactly(rest, w);
      i := j + 1;
      assert ws == [ws[0]] + rest;
      assert ws[..i] == [ws[0]] + rest[..j];
      assert j < |rest| ==> ws[i + 1..] == rest[j + 1..];
    }
  }

  ghost predicate OthersKept(m: Sessions, t: Sessions, ip: string) {
    forall other | other != ip :: (other in t <==> other in m) && (other in m ==> t[other] == m[other])
  }

  /** A worker joins last, in a session of its own if the address had none; the cursor stays. */
  lemma RegisterEffect(m: Sessions, ip: string, w: nat)
    ensures var t := Step(m, Register(ip, w));
            && OthersKept(m, t, ip) && ip in t
            && t[ip] == if ip in m then Session(m[ip].workers + [w], m[ip].cursor) else Session([w], Cursor(0, 0, 0))
  {}

  /** A worker that leaves takes its first place with it; the rest keep their order, a new chunk starts at the same
      place if there still is one and else at the first, and an empty session goes. */
  lemma UnregisterEffect(m: Sessions, ip: string, w: nat) returns (i: nat)
    ensures var t := Step(m, Unregister(ip, w));
            && OthersKept(m, t, ip)
            && if ip !in m then ip !in t else
                 var ws, c := m[ip].workers, m[ip].cursor;
                 && i <= |ws| && w !in ws[..i] && (i < |ws| ==> ws[i] == w)
                 && var left := if i < |ws| then ws[..i] + ws[i + 1..] else ws;
                    && (ip in t <==> left != [])
                    && (ip in t ==> t[ip] == Session(left, Cursor(if c.index < |left| then c.index else 0, 0, c.start)))
  {
    i := 0;
    if ip in m {
      i := RemovedExactly(m[ip].workers, w);
      hide Removed;
    }
  }

  /** A cursor past the last worker starts over at the first; in no run is it there. */
  lemma PastTheLast(s: Session, size: nat, now: int)
    requires 0 < |s.workers| <= s.cursor.index
    ensures var first := s.(cursor := s.cursor.(index := 0));
            Picked(s, now) == Picked(first, now) && AfterPick(s, size, now) == AfterPick(first, size, now)
  {}

  // ---------------------------------------------------------------- one client's stream

  /** No worker of `ip` comes or goes. */
  ghost predicate Stream(events: seq<Event>, ip: string) {
    forall e | e in events :: Fits(e, ip)
  }

  predicate Fits(e: Event, ip: string) {
    match e
    case Packet(_, _, _) => true
    case Register(other, _) => other != ip
    case Unregister(other, _) => other != ip
  }

  /** The packets for `ip`. */
  function Ticks(events: seq<Event>, ip: string): seq<Tick> {
    if events == [] then [] else
      var e := events[|events| - 1];
      Ticks(events[..|events| - 1], ip) + (if e.Packet? && e.dst == ip then [Tick(e.size, e.now, false)] else [])
  }

  lemma OneEvent(m: Sessions, e: Event, ip: string)
    requires ip in m && m[ip].cursor.index < |m[ip].workers| && Fits(e, ip)
    ensures var t, n := Step(m, e), |m[ip].workers|;
            && ip in t && t[ip].workers == m[ip].workers && t[ip].cursor.index < n
            && t[ip].cursor ==
               if e.Packet? && e.dst == ip then Turn(n)(m[ip].cursor, Tick(e.size, e.now, false)) else m[ip].cursor
  {
    hide Removed, ChunkSizeFor;
  }

  lemma TicksNext(events: seq<Event>, ip: string, c: Cursor, n: nat)
    requires events != [] && n > 0
    ensures var last := |events| - 1;
            var c', e := After(c, n, Ticks(events[..last], ip)), events[last];
            After(c, n, Ticks(events, ip)) ==
            if e.Packet? && e.dst == ip then Turn(n)(c', Tick(e.size, e.now, false)) else c'
  {
    var last := |events| - 1;
    var ts, e := Ticks(events[..last], ip), events[last];
    assert ts + [] == ts;
    if e.Packet? && e.dst == ip {
      assert (ts + [Tick(e.size, e.now, false)])[..|ts|] == ts;
    }
  }

  /** A client's cursor moves with its own packets only. */
  lemma {:induction false} OwnPacketsOnly(m: Sessions, events: seq<Event>, ip: string)
    requires ip in m && m[ip].cursor.index < |m[ip].workers| && Stream(events, ip)
    ensures var t, n := Run(Step, m, events), |m[ip].workers|;
            && ip in t && t[ip].workers == m[ip].workers && t[ip].cursor.index < n
            && t[ip].cursor == After(m[ip].cursor, n, Ticks(events, ip))
  {
    hide Fits, Step, Turn;
    if events != [] {
      var last := |events| - 1;
      OwnPacketsOnly(m, events[..last], ip);
      TicksNext(events, ip, m[ip].cursor, |m[ip].workers|);
      hide After, Ticks;
      assert events[last] in events;
      OneEvent(Run(Step, m, events[..last]), events[last], ip);
    }
  }

  /** Whatever the sizes and times, the next packet for `ip` goes to the worker as many places on as chunks of its
      packets have been filled and cut, whatever the other clients do meanwhile. */
  lemma DownlinkByChunks(m: Sessions, events: seq<Event>, ip: string, now: int)
    requires Valid(m) && ip in m && Stream(events, ip)
    ensures var t, n, c := Run(Step, m, events), |m[ip].workers|, m[ip].cursor;
            var l := Entries(c.count, c.start, Ticks(events, ip));
            var late := l.began != 0 && now - l.began >= 15;
            && ip in t
            && Picked(t[ip], now) == Worker(m[ip].workers[(c.index + l.filled + l.cut + (if late then 1 else 0)) % n])
  {
    hide Step;
    OwnPacketsOnly(m, events, ip);
    WorkerByChunks(m[ip].cursor, |m[ip].workers|, Ticks(events, ip), Tick(0, now, false));
  }

  lemma {:induction false} TicksSplit(a: seq<Event>, b: seq<Event>, ip: string)
    ensures Ticks(a + b, ip) == Ticks(a, ip) + Ticks(b, ip)
    decreases |b|
  {
    if b == [] {
      assert a + b == a;
    } else {
      var k := |b| - 1;
      TicksSplit(a, b[..k], ip);
      assert (a + b)[..|a + b| - 1] == a + b[..k];
    }
  }

  /** Two packets for `ip` with none for it in between: worker `w` has the first and `v` the second. With several
      workers they are the same if and only if the first does not fill its chunk and the second finds it less than 15 ms
      old, or neither is so and there are just two; if one of them is so, the second goes to the next worker. */
  lemma DownlinkNextWorker(m: Sessions, before: seq<Event>, first: Event, between: seq<Event>, ip: string, now: int)
    returns (w: nat, v: nat)
    requires Valid(m) && ip in m && |m[ip].workers| > 1 && first.Packet? && first.dst == ip
    requires Stream(before, ip) && Stream(between, ip) && Ticks(between, ip) == []
    ensures var x, y, ws := Run(Step, m, before), Run(Step, m, before + [first] + between), m[ip].workers;
            && w < |ws| && ip in x && Picked(x[ip], first.now) == Worker(ws[w])
            && v < |ws| && ip in y && Picked(y[ip], now) == Worker(ws[v])
    ensures var l := Entries(m[ip].cursor.count, m[ip].cursor.start, Ticks(before, ip));
            var t, u, n := Tick(first.size, first.now, false), Tick(0, now, false), |m[ip].workers|;
            var full, late := Full(l, t), Late(Entered(l, t), u);
            && (v == w <==> (!full && !late) || (full && late && n == 2))
            && (full != late ==> v == (w + 1) % n)
            && (full && late ==> v == (w + 2) % n)
  {
    var c, n := m[ip].cursor, |m[ip].workers|;
    var t, u := Tick(first.size, first.now, false), Tick(0, now, false);
    var all := before + [first] + between;
    OneTick(before, first, between, ip);
    OwnPacketsOnly(m, before, ip);
    OwnPacketsOnly(m, all, ip);
    hide Run, Ticks, Stream, Entries, After, Full, Late, Entered;
    w, v := Due(After(c, n, Ticks(before, ip)), n, t), Due(After(c, n, Ticks(all, ip)), n, u);
    NextWorkerExactly(c, n, Ticks(before, ip), t, u);
  }

  lemma OneTick(before: seq<Event>, first: Event, between: seq<Event>, ip: string)
    requires first.Packet? && first.dst == ip
    requires Stream(before, ip) && Stream(between, ip) && Ticks(between, ip) == []
    ensures Ticks(before + [first] + between, ip) == Ticks(before, ip) + [Tick(first.size, first.now, false)]
    ensures Stream(before + [first] + between, ip)
  {
    TicksSplit(before + [first], between, ip);
    assert (before + [first])[..|before|] == before;
  }

  /** From a chunk boundary, with one chunk size and no chunk cut short, the next packet for `ip` after `j` of its
      packets goes to the worker `j / k` places on, whatever the other clients do meanwhile. */
  lemma DownlinkClosedForm(m: Sessions, events: seq<Event>, ip: string, size: nat, now: int)
    requires Valid(m) && ip in m && m[ip].cursor.count == 0 && Stream(events, ip)
    requires Prompt(m[ip].cursor.start, ChunkSizeFor(size), Ticks(events, ip) + [Tick(size, now, false)])
    ensures var t, n, k, j := Run(Step, m, events), |m[ip].workers|, ChunkSizeFor(size), |Ticks(events, ip)|;
            && ip in t
            && Picked(t[ip], now) == Worker(m[ip].workers[(m[ip].cursor.index + j / k) % n])
  {
    hide Prompt, Step;
    OwnPacketsOnly(m, events, ip);
    var ts, t := Ticks(events, ip), Tick(size, now, false);
    var c0, n, k := m[ip].cursor, |m[ip].workers|, ChunkSizeFor(size);
    assert (ts + [t])[..|ts|] == ts;
    ClosedForm(c0, n, k, ts + [t], |ts|);
  }
}
