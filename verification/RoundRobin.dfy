/** The chunked round-robin both directions use: a run of packets stays with one worker, then the next is due. */
module RoundRobin {
  import opened Division
  import opened Runs

  const MAX_DWELL_MS: int := 15
  const MAX_CHUNK_SIZE: nat := 64

  /** How many packets of a size stay with one worker. */
  function ChunkSizeFor(size: nat): (k: nat)
    ensures 1 <= k <= MAX_CHUNK_SIZE
    ensures k in {1, 3, 8, 24, 64}
    ensures k > 1 <==> size >= 101
    ensures k > 3 <==> size >= 301
    ensures k > 8 <==> size >= 701
    ensures k > 24 <==> size >= 1101
  {
    if size > 1100 then 64
    else if size >= 701 then 24
    else if size >= 301 then 8
    else if size >= 101 then 3
    else 1
  }

  /** The worker in use, the packets it has had in this chunk, and when the chunk began (0: not yet). */
  datatype Cursor = Cursor(index: nat, count: nat, start: int)

  /** One packet: its size, when it comes, and whether a pause came before it. */
  datatype Tick = Tick(size: nat, now: int, paused: bool)

  /** A new chunk, at the next worker. */
  function Fresh(c: Cursor, n: nat, now: int): Cursor
    requires n > 0
  {
    Cursor((c.index + 1) % n, 0, now)
  }

  /** A chunk that has lasted too long is cut short. */
  function Dwell(c: Cursor, n: nat, now: int): Cursor
    requires n > 0
  {
    if c.start == 0 then c.(start := now) else if now - c.start >= MAX_DWELL_MS then Fresh(c, n, now) else c
  }

  function Begun(c: Cursor, n: nat, t: Tick): Cursor
    requires n > 0
  {
    Dwell(if t.paused then Fresh(c, n, t.now) else c, n, t.now)
  }

  /** A packet has gone to the worker in use; a full chunk makes the next worker due. */
  function Used(c: Cursor, n: nat, k: nat, now: int): Cursor
    requires n > 0
  {
    if c.count + 1 >= k then Cursor((c.index % n + 1) % n, 0, now) else c.(count := c.count + 1)
  }

  function Pick(c: Cursor, n: nat, now: int): nat
    requires n > 0
  {
    Dwell(c, n, now).index % n
  }

  /** The worker whose turn it is. */
  function Due(c: Cursor, n: nat, t: Tick): nat
    requires n > 0
  {
    Begun(c, n, t).index % n
  }

  function Turn(n: nat): (Cursor, Tick) -> Cursor
    requires n > 0
  {
    (c: Cursor, t: Tick) => Used(Begun(c, n, t), n, ChunkSizeFor(t.size), t.now)
  }

  /** The cursor after the given packets. */
  function After(c: Cursor, n: nat, ts: seq<Tick>): Cursor
    requires n > 0
  {
    Run(Turn(n), c, ts)
  }

  // ---------------------------------------------------------------- the closed form

  /** Packet `j` of a stream cut into chunks of `k`: the chunk it is in, and its place in that chunk. */
  function ChunkOf(j: nat, k: nat): nat
    requires k > 0
  {
    j / k
  }

  function PlaceOf(j: nat, k: nat): (r: nat)
    requires k > 0
    ensures r < k && r <= j
  {
    var r := j % k;
    NoMore(j, k);
    r
  }

  lemma NoMore(j: nat, k: nat)
    requires k > 0
    ensures j % k <= j
  {
    if j < k {
      DivUnique(j, k, 0, j);
    }
  }

  /** When the chunk of packet `j` began: at the last packet of the chunk before. */
  function Since(start: int, k: nat, ts: seq<Tick>, j: nat): int
    requires k > 0 && j < |ts|
  {
    var e := j - PlaceOf(j, k);
    if e > 0 then ts[e - 1].now else if start == 0 then ts[0].now else start
  }

  /** One chunk size throughout, no pause, and no packet so late in its chunk that the dwell limit cuts it short. */
  ghost predicate Prompt(start: int, k: nat, ts: seq<Tick>)
    requires k > 0
  {
    forall j: nat | j < |ts| :: InTime(start, k, ts, j)
  }

  ghost predicate InTime(start: int, k: nat, ts: seq<Tick>, j: nat)
    requires k > 0 && j < |ts|
  {
    && ts[j].now > 0 && !ts[j].paused && ChunkSizeFor(ts[j].size) == k
    && ts[j].now - Since(start, k, ts, j) < MAX_DWELL_MS
  }

  lemma PromptAt(start: int, k: nat, ts: seq<Tick>, j: nat)
    requires k > 0 && Prompt(start, k, ts) && j < |ts|
    ensures InTime(start, k, ts, j) && forall i | 0 <= i < |ts| :: ts[i].now > 0
  {
    forall i: nat | i < |ts|
      ensures ts[i].now > 0
    {
      assert InTime(start, k, ts, i);
    }
  }

  /** Where the cursor is once `q` whole chunks, which is `e` packets, and `r` packets more have gone. */
  ghost predicate At(c0: Cursor, c: Cursor, n: nat, ts: seq<Tick>, q: nat, e: nat, r: nat)
    requires n > 0 && e + r <= |ts|
  {
    && Wraps(c.index, c0.index + q, n)
    && c.count == r
    && c.start == (if e > 0 then ts[e - 1].now else if r > 0 && c0.start == 0 then ts[0].now else c0.start)
  }

  ghost predicate Wraps(a: nat, b: nat, n: nat)
    requires n > 0
  {
    a % n == b % n
  }

  lemma NextPacket(j: nat, k: nat)
    requires k > 0
    ensures PlaceOf(j, k) + 1 < k ==> ChunkOf(j + 1, k) == ChunkOf(j, k) && PlaceOf(j + 1, k) == PlaceOf(j, k) + 1
    ensures PlaceOf(j, k) + 1 == k ==> ChunkOf(j + 1, k) == ChunkOf(j, k) + 1 && PlaceOf(j + 1, k) == 0
  {
    var q, r := j / k, j % k;
    assert j == k * q + r;
    if r + 1 < k {
      DivUnique(j + 1, k, q, r + 1);
    } else {
      assert j + 1 == k * (q + 1) + 0;
      DivUnique(j + 1, k, q + 1, 0);
    }
  }

  lemma NextWorker(a: nat, b: nat, n: nat)
    requires n > 0 && Wraps(a, b, n)
    ensures Wraps((a % n + 1) % n, b + 1, n)
  {
    DivUnique(a % n, n, 0, a % n);
    ModAdd(b, 1, n);
    ModAdd(a % n, 1, n);
    var x := (a % n + 1) % n;
    DivUnique(x, n, 0, x);
  }

  /** One more packet, within the dwell limit, goes to the worker the closed form names. */
  lemma TurnAt(c0: Cursor, c: Cursor, n: nat, k: nat, ts: seq<Tick>, q: nat, e: nat, r: nat)
    requires n > 0 && r < k && e + r < |ts| && At(c0, c, n, ts, q, e, r)
    requires var since := if e > 0 then ts[e - 1].now else if c0.start == 0 then ts[0].now else c0.start;
             ts[e + r].now - since < MAX_DWELL_MS
    requires !ts[e + r].paused && ChunkSizeFor(ts[e + r].size) == k
    requires forall i | 0 <= i < |ts| :: ts[i].now > 0
    ensures Wraps(Begun(c, n, ts[e + r]).index, c0.index + q, n)
    ensures var d := Turn(n)(c, ts[e + r]);
            if r + 1 < k then At(c0, d, n, ts, q, e, r + 1) else At(c0, d, n, ts, q + 1, e + k, 0)
  {
    NextWorker(c.index, c0.index + q, n);
    hide Wraps;
  }

  lemma {:induction false} AlwaysAt(c0: Cursor, n: nat, k: nat, ts: seq<Tick>, j: nat)
    requires n > 0 && k > 0 && j <= |ts| && Prompt(c0.start, k, ts) && c0.count == 0
    ensures At(c0, After(c0, n, ts[..j]), n, ts, ChunkOf(j, k), j - PlaceOf(j, k), PlaceOf(j, k))
  {
    hide At, ChunkOf, PlaceOf, Prompt;
    if j == 0 {
      StartsAt(c0, n, k, ts);
    } else {
      var i := j - 1;
      AlwaysAt(c0, n, k, ts, i);
      RunNext(Turn(n), c0, ts, i);
      NextPacket(i, k);
      PromptAt(c0.start, k, ts, i);
      TurnAt(c0, After(c0, n, ts[..i]), n, k, ts, ChunkOf(i, k), i - PlaceOf(i, k), PlaceOf(i, k));
    }
  }

  lemma StartsAt(c0: Cursor, n: nat, k: nat, ts: seq<Tick>)
    requires n > 0 && k > 0 && c0.count == 0
    ensures At(c0, c0, n, ts, ChunkOf(0, k), 0 - PlaceOf(0, k), PlaceOf(0, k))
  {
    DivUnique(0, k, 0, 0);
  }

  /** From a chunk boundary, with no chunk cut short, packet `j` goes to worker `(first + j / k) mod n`. */
  lemma ClosedForm(c0: Cursor, n: nat, k: nat, ts: seq<Tick>, j: nat)
    requires n > 0 && k > 0 && j < |ts| && Prompt(c0.start, k, ts) && c0.count == 0
    ensures Due(After(c0, n, ts[..j]), n, ts[j]) == (c0.index + j / k) % n
  {
    hide At, Turn, PlaceOf, Prompt;
    AlwaysAt(c0, n, k, ts, j);
    PromptAt(c0.start, k, ts, j);
    TurnAt(c0, After(c0, n, ts[..j]), n, k, ts, ChunkOf(j, k), j - PlaceOf(j, k), PlaceOf(j, k));
  }

  // ---------------------------------------------------------------- loads

  /** How many of the first `m` packets go to worker `w`. */
  function Load(first: nat, n: nat, k: nat, w: nat, m: nat): nat
    requires n > 0 && k > 0
  {
    if m == 0 then 0 else
      Load(first, n, k, w, m - 1) + (if (first + (m - 1) / k) % n == w then 1 else 0)
  }

  /** How far round from `first` worker `w` is. */
  function Distance(first: nat, n: nat, w: nat): nat
    requires w < n
  {
    if w >= first % n then w - first % n else w + n - first % n
  }

  /** What a worker at distance `p` has had after `rounds` full rounds, `pos` full chunks and `c` packets more. */
  function Share(rounds: nat, pos: nat, c: nat, k: nat, p: nat): nat {
    rounds * k + (if p < pos then k else if p == pos then c else 0)
  }

  lemma WorkerAt(first: nat, n: nat, w: nat, rounds: nat, pos: nat)
    requires w < n && pos < n
    ensures (first + (n * rounds + pos)) % n == w <==> pos == Distance(first, n, w)
  {
    var q, r := first / n, first % n;
    assert first + (n * rounds + pos) == n * (q + rounds) + (r + pos);
    if r + pos < n {
      DivUnique(first + (n * rounds + pos), n, q + rounds, r + pos);
    } else {
      assert first + (n * rounds + pos) == n * (q + rounds + 1) + (r + pos - n);
      DivUnique(first + (n * rounds + pos), n, q + rounds + 1, r + pos - n);
    }
  }

  ghost predicate Cut(m: nat, n: nat, k: nat, rounds: nat, pos: nat, c: nat) {
    pos < n && c < k && m == k * (n * rounds + pos) + c
  }

  lemma CutNext(m: nat, n: nat, k: nat, rounds: nat, pos: nat, c: nat)
    requires Cut(m, n, k, rounds, pos, c)
    ensures m / k == n * rounds + pos
    ensures c + 1 < k ==> Cut(m + 1, n, k, rounds, pos, c + 1)
    ensures c + 1 == k && pos + 1 < n ==> Cut(m + 1, n, k, rounds, pos + 1, 0)
    ensures c + 1 == k && pos + 1 == n ==> Cut(m + 1, n, k, rounds + 1, 0, 0)
  {
    DivUnique(m, k, n * rounds + pos, c);
    assert k * (n * rounds + (pos + 1)) == k * (n * rounds + pos) + k;
    assert n * (rounds + 1) == n * rounds + n;
  }

  lemma {:induction false} LoadShape(first: nat, n: nat, k: nat, m: nat) returns (rounds: nat, pos: nat, c: nat)
    requires n > 0 && k > 0
    ensures Cut(m, n, k, rounds, pos, c)
    ensures forall w: nat | w < n :: Load(first, n, k, w, m) == Share(rounds, pos, c, k, Distance(first, n, w))
  {
    if m == 0 {
      rounds, pos, c := 0, 0, 0;
    } else {
      var r0, p0, c0 := LoadShape(first, n, k, m - 1);
      CutNext(m - 1, n, k, r0, p0, c0);
      rounds, pos, c := r0, p0, c0 + 1;
      if c0 + 1 == k {
        c := 0;
        pos := p0 + 1;
        if p0 + 1 == n {
          rounds, pos := r0 + 1, 0;
        }
      }
      forall w: nat | w < n
        ensures Load(first, n, k, w, m) == Share(rounds, pos, c, k, Distance(first, n, w))
      {
        WorkerAt(first, n, w, r0, p0);
        assert (r0 + 1) * k == r0 * k + k;
      }
    }
  }

  /** However many packets have gone, no two workers' loads differ by more than one chunk. */
  lemma Balanced(first: nat, n: nat, k: nat, v: nat, w: nat, m: nat)
    requires v < n && w < n && k > 0
    ensures Load(first, n, k, v, m) <= Load(first, n, k, w, m) + k
  {
    var rounds, pos, c := LoadShape(first, n, k, m);
  }

  /** How many of the first `m` packets the cursor gave to worker `w`. */
  function Given(c0: Cursor, n: nat, ts: seq<Tick>, w: nat, m: nat): nat
    requires n > 0 && m <= |ts|
  {
    if m == 0 then 0 else
      Given(c0, n, ts, w, m - 1) + (if Due(After(c0, n, ts[..m - 1]), n, ts[m - 1]) == w then 1 else 0)
  }

  lemma {:induction false} GivenIsLoad(c0: Cursor, n: nat, k: nat, ts: seq<Tick>, w: nat, m: nat)
    requires n > 0 && k > 0 && m <= |ts| && Prompt(c0.start, k, ts) && c0.count == 0
    ensures Given(c0, n, ts, w, m) == Load(c0.index, n, k, w, m)
  {
    hide After, Prompt;
    if m > 0 {
      GivenIsLoad(c0, n, k, ts, w, m - 1);
      ClosedForm(c0, n, k, ts, m - 1);
    }
  }

  /** The packets given to any two workers differ by at most one chunk, at every moment. */
  lemma FairShare(c0: Cursor, n: nat, k: nat, ts: seq<Tick>, v: nat, w: nat, m: nat)
    requires v < n && w < n && k > 0 && m <= |ts| && Prompt(c0.start, k, ts) && c0.count == 0
    ensures Given(c0, n, ts, v, m) <= Given(c0, n, ts, w, m) + k
  {
    hide Given, Load, Prompt;
    GivenIsLoad(c0, n, k, ts, v, m);
    GivenIsLoad(c0, n, k, ts, w, m);
    Balanced(c0.index, n, k, v, w, m);
  }
}
