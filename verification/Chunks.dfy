/** Which worker a packet goes to, told by the packets alone: chunks fill up, and chunks are cut short. */
module Chunks {
  import opened Division
  import opened Runs
  import opened RoundRobin

  /** The packets in the chunk, when it began (0: not yet), and the chunks filled and cut so far. */
  datatype Ledger = Ledger(held: nat, began: int, filled: nat, cut: nat)

  /** The packet comes after a pause, or when the chunk is 15 ms old. */
  predicate Late(l: Ledger, t: Tick) {
    t.paused || (l.began != 0 && t.now - l.began >= 15)
  }

  /** The packets in the chunk once `t` is in it. */
  function Held(l: Ledger, t: Tick): nat {
    (if Late(l, t) then 0 else l.held) + 1
  }

  predicate Full(l: Ledger, t: Tick) {
    Held(l, t) >= ChunkSizeFor(t.size)
  }

  function Entered(l: Ledger, t: Tick): Ledger {
    Ledger(if Full(l, t) then 0 else Held(l, t),
           if Late(l, t) || Full(l, t) || l.began == 0 then t.now else l.began,
           l.filled + (if Full(l, t) then 1 else 0),
           l.cut + (if Late(l, t) then 1 else 0))
  }

  /** The ledger after the packets, from a chunk that held and began as given. */
  function Entries(held: nat, began: int, ts: seq<Tick>): Ledger {
    Run(Entered, Ledger(held, began, 0, 0), ts)
  }

  /** The cursor is where the ledger says. */
  ghost predicate Agrees(c: Cursor, l: Ledger, first: nat, n: nat)
    requires n > 0
  {
    Wraps(c.index, first + l.filled + l.cut, n) && (c.count, c.start) == (l.held, l.began)
  }

  lemma NextIndex(a: nat, b: nat, n: nat)
    requires n > 0 && Wraps(a, b, n)
    ensures Wraps((a + 1) % n, b + 1, n)
  {
    ModAdd(a, 1, n);
    ModAdd(b, 1, n);
    var x := (a + 1) % n;
    SmallDiv(x, n);
  }

  lemma BegunAgrees(c: Cursor, l: Ledger, first: nat, n: nat, t: Tick)
    requires n > 0 && Agrees(c, l, first, n)
    ensures var b := Begun(c, n, t);
            && Wraps(b.index, first + l.filled + l.cut + (if Late(l, t) then 1 else 0), n)
            && b.count == (if Late(l, t) then 0 else l.held)
            && b.start == (if Late(l, t) || l.began == 0 then t.now else l.began)
  {
    NextIndex(c.index, first + l.filled + l.cut, n);
    hide Wraps;
  }

  lemma TurnAgrees(c: Cursor, l: Ledger, first: nat, n: nat, t: Tick)
    requires n > 0 && Agrees(c, l, first, n)
    ensures Agrees(Turn(n)(c, t), Entered(l, t), first, n)
  {
    BegunAgrees(c, l, first, n, t);
    NextWorker(Begun(c, n, t).index, first + l.filled + l.cut + (if Late(l, t) then 1 else 0), n);
    hide Wraps, Begun, ChunkSizeFor, Late;
  }

  lemma {:induction false} AlwaysAgrees(c0: Cursor, n: nat, ts: seq<Tick>)
    requires n > 0
    ensures Agrees(After(c0, n, ts), Entries(c0.count, c0.start, ts), c0.index, n)
  {
    hide Turn, Entered;
    if ts != [] {
      var before, t := ts[..|ts| - 1], ts[|ts| - 1];
      AlwaysAgrees(c0, n, before);
      TurnAgrees(After(c0, n, before), Entries(c0.count, c0.start, before), c0.index, n, t);
    }
  }

  /** From any cursor, whatever the sizes and times: a packet goes to the worker as many places on from the first as
      chunks have been filled before it and cut up to it. */
  lemma WorkerByChunks(c0: Cursor, n: nat, ts: seq<Tick>, t: Tick)
    requires n > 0
    ensures var l := Entries(c0.count, c0.start, ts);
            Due(After(c0, n, ts), n, t) == (c0.index + l.filled + l.cut + (if Late(l, t) then 1 else 0)) % n
  {
    AlwaysAgrees(c0, n, ts);
    hide Entries, After;
    BegunAgrees(After(c0, n, ts), Entries(c0.count, c0.start, ts), c0.index, n, t);
  }

  lemma Moved(a: nat, m: nat, n: nat)
    requires n > 1 && m <= 2
    ensures (a + m) % n == (a % n + m) % n
    ensures (a + m) % n == a % n <==> m == 0 || (m == 2 && n == 2)
  {
    ModAdd(a, m, n);
    var r := a % n;
    SmallDiv(r, n);
    ModAdd(r, m, n);
  }

  /** Packet `u` follows packet `t`. It moves on one worker if `t` filled its chunk and one if `u` is late: with several
      workers it goes to the worker of `t` if and only if neither is so, or both are and there are just two workers, and
      to the next worker if exactly one of them is so. */
  lemma NextWorkerExactly(c0: Cursor, n: nat, ts: seq<Tick>, t: Tick, u: Tick)
    requires n > 1
    ensures var l := Entries(c0.count, c0.start, ts);
            var w, v := Due(After(c0, n, ts), n, t), Due(After(c0, n, ts + [t]), n, u);
            var full, late := Full(l, t), Late(Entered(l, t), u);
            && (v == w <==> (!full && !late) || (full && late && n == 2))
            && (full != late ==> v == (w + 1) % n)
            && (full && late ==> v == (w + 2) % n)
  {
    WorkerByChunks(c0, n, ts, t);
    WorkerByChunks(c0, n, ts + [t], u);
    assert (ts + [t])[..|ts|] == ts;
    var l := Entries(c0.count, c0.start, ts);
    assert Entries(c0.count, c0.start, ts + [t]) == Entered(l, t);
    hide Due, After, Entries, Held;
    var full, late := Full(l, t), Late(Entered(l, t), u);
    var steps := (if full then 1 else 0) + (if late then 1 else 0);
    Moved(c0.index + l.filled + l.cut + (if Late(l, t) then 1 else 0), steps, n);
  }

  /** Two workers and a chunk filled at 100 ms: the packet at 115 ms is sent to the worker that has just had its
      chunk. */
  lemma FilledAndLate()
    ensures var c := Cursor(0, 63, 90);
            var t, u := Tick(1200, 100, false), Tick(1200, 115, false);
            Due(c, 2, t) == 0 && Due(Turn(2)(c, t), 2, u) == 0
  {}
}
