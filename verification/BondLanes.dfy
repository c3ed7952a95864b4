/** The splitter's round-robin: which lane a chunk goes to, and when there is none left, whatever the readers and the
    far end do meanwhile. */
module BondLanes {
  import opened Words
  import opened Division
  import opened BondCodec
  import opened BondSystem
  import R = BondReorder
  import opened Runs

  /** One turn of the splitter: what the other goroutines do before it, and how its write ends. */
  datatype Turn = Turn(before: seq<Event>, outcome: Outcome)

  /** A step of a reader or of the far end. */
  predicate Other(e: Event) {
    e.LaneDies? || e.Receive? || e.Merge? || e.Cancel? || e.Leave?
  }

  predicate OthersOnly(es: seq<Event>) {
    forall e | e in es :: Other(e)
  }

  predicate Sane(turns: seq<Turn>) {
    forall t | t in turns :: OthersOnly(t.before)
  }

  function Tries(turns: seq<Turn>): seq<Event> {
    if turns == [] then [] else
      var k := |turns| - 1;
      Tries(turns[..k]) + turns[k].before + [Try(turns[k].outcome)]
  }

  function Chunk(s: System): Frame
    requires 0 < |s.read| < TWO64
  {
    Frame(DATA, |s.read| - 1, s.read[|s.read| - 1])
  }

  // ---------- what the others can do ----------

  /** The others leave the splitter's own variables alone, remove nothing from a lane and revive none. */
  ghost predicate Untouched(s: System, t: System) {
    && t.read == s.read && t.phase == s.phase && t.laneIdx == s.laneIdx && |t.lanes| == |s.lanes|
    && (forall i | 0 <= i < |s.lanes| :: t.lanes[i].log == s.lanes[i].log && (s.lanes[i].dead ==> t.lanes[i].dead))
  }

  lemma OtherStep(s: System, e: Event)
    requires Other(e)
    ensures Untouched(s, Step(s, e))
  {
    hide Stream, ReadFrame;
  }

  lemma {:induction false} OthersRun(s: System, es: seq<Event>)
    requires OthersOnly(es)
    ensures Untouched(s, Run(Step, s, es))
  {
    if es != [] {
      var k := |es| - 1;
      OthersRun(s, es[..k]);
      assert es[k] in es;
      OtherStep(Run(Step, s, es[..k]), es[k]);
      hide Step;
    }
  }

  lemma RunTurn(s: System, turns: seq<Turn>, k: nat)
    requires k < |turns|
    ensures Run(Step, s, Tries(turns[..k + 1])) ==
            Step(Run(Step, Run(Step, s, Tries(turns[..k])), turns[k].before), Try(turns[k].outcome))
  {
    hide Step;
    assert turns[..k + 1][..k] == turns[..k];
    var a, b := Tries(turns[..k]) + turns[k].before, Try(turns[k].outcome);
    assert (a + [b])[..|a|] == a;
    RunSplit(Step, s, Tries(turns[..k]), turns[k].before);
  }

  // ---------- one chunk ----------

  /** One turn: a dead lane is passed over, a failed write kills its lane. */
  method TakeTurn(s: System, o: Outcome) returns (t: System)
    requires s.phase.Writing? && s.lanes != [] && 0 < |s.read| < TWO64
    ensures t == Step(s, Try(o))
    ensures t.phase == Reading || t.phase == TriesLeft(s.phase.left)
    ensures t.read == s.read && |t.lanes| == |s.lanes|
  {
    hide Put, Step;
    TurnStep(s, o);
    var idx := s.laneIdx % |s.lanes|;
    var l := s.lanes[idx];
    t := s.(laneIdx := Add64(s.laneIdx, 1), phase := TriesLeft(s.phase.left));
    if l.dead {
      return;
    }
    if o != Whole {
      t := t.(lanes := s.lanes[idx := Put(l, Chunk(s), o).(dead := true)]);
      return;
    }
    t := t.(lanes := s.lanes[idx := Put(l, Chunk(s), o)], phase := Reading);
  }

  /** None of the first `k` turns got the chunk through. */
  ghost predicate NoneThrough(s: System, turns: seq<Turn>, k: nat) {
    k <= |turns| && forall j: nat | j < k :: Run(Step, s, Tries(turns[..j])).phase != Reading
  }

  lemma NoneYet(s: System, turns: seq<Turn>)
    ensures NoneThrough(s, turns, 0)
  {}

  lemma NoneNext(s: System, turns: seq<Turn>, k: nat)
    requires NoneThrough(s, turns, k) && k < |turns| && Run(Step, s, Tries(turns[..k])).phase != Reading
    ensures NoneThrough(s, turns, k + 1)
  {
    hide Run, Tries, Step;
  }

  /** The splitter's inner loop: at most one turn per lane, stopping at the first write that goes through; `used` turns
      are taken. */
  method WriteNextLane(s: System, turns: seq<Turn>) returns (t: System, used: nat)
    requires Shape(s) && s.phase == Writing(|s.lanes|) && |turns| == |s.lanes| && Sane(turns)
    ensures used <= |turns| && t == Run(Step, s, Tries(turns[..used]))
    ensures t.phase == Reading || (t.phase == Halted && used == |turns|)
    ensures NoneThrough(s, turns, used)
    ensures t.read == s.read && |t.lanes| == |s.lanes|
  {
    t, used := s, 0;
    assert turns[..0] == [];
    assert t == Run(Step, s, Tries(turns[..0]));
    hide Step, Run, Tries, OthersOnly, NoneThrough;
    NoneYet(s, turns);
    while used < |turns|
      invariant 0 <= used <= |turns|
      invariant t == Run(Step, s, Tries(turns[..used]))
      invariant NoneThrough(s, turns, used)
      invariant t.read == s.read && |t.lanes| == |s.lanes|
      invariant t.phase == if used < |turns| then Writing(|s.lanes| - used) else Halted
    {
      assert turns[used] in turns;
      RunTurn(s, turns, used);
      OthersRun(t, turns[used].before);
      NoneNext(s, turns, used);
      t := Run(Step, t, turns[used].before);
      t := TakeTurn(t, turns[used].outcome);
      used := used + 1;
      if t.phase == Reading {
        return;
      }
    }
  }

  lemma TurnStep(s: System, o: Outcome)
    requires s.phase.Writing? && s.lanes != [] && 0 < |s.read| < TWO64
    ensures Step(s, Try(o)) == TryLane(s, s.phase.left, s.laneIdx % |s.lanes|, o)
  {}

  // ---------- every lane gets its turn ----------

  /** The lane of turn `j`; the index is a uint64. */
  function LaneOf(first: uint64, n: nat, j: nat): (i: nat)
    requires n > 0
    ensures i < n
  {
    (first + j) % TWO64 % n
  }

  /** `n` turns from `first` on visit all `n` lanes. */
  ghost predicate Covers(first: uint64, n: nat)
    requires n > 0
  {
    forall i: nat | i < n :: Visited(first, n, i)
  }

  ghost predicate Visited(first: uint64, n: nat, i: nat)
    requires n > 0
  {
    exists j: nat :: j < n && LaneOf(first, n, j) == i
  }

  /** Turns of the lane index that do not wrap. */
  lemma NoWrap(first: uint64, n: nat, j: nat)
    requires n > 0 && first + j < TWO64
    ensures LaneOf(first, n, j) == (first + j) % n
  {}

  /** Turns after the wrap start again at lane 0. */
  lemma Wrapped(first: uint64, n: nat, j: nat)
    requires 0 < n < TWO64 && TWO64 <= first + j < TWO64 + n
    ensures LaneOf(first, n, j) == first + j - TWO64
  {
    assert (first + j) % TWO64 == first + j - TWO64;
    SmallDiv(first + j - TWO64, n);
  }

  lemma CoversUnlessWrapped(first: uint64, n: nat)
    requires 0 < n && first + n <= TWO64
    ensures Covers(first, n)
  {
    forall i: nat | i < n
      ensures Visited(first, n, i)
    {
      var j := Rotation(first, n, i);
      NoWrap(first, n, j);
    }
  }

  /** If `n` divides 2^64 a wrapped index goes on as if it had not wrapped. */
  lemma DivisorGoesOn(first: uint64, n: nat, j: nat)
    requires 0 < n < TWO64 && TWO64 % n == 0 && first + j < 2 * TWO64
    ensures LaneOf(first, n, j) == (first + j) % n
  {
    if first + j >= TWO64 {
      var x, q := first + j - TWO64, TWO64 / n;
      assert (first + j) % TWO64 == x;
      assert x == n * (x / n) + x % n;
      assert first + j == n * (x / n + q) + x % n;
      DivUnique(first + j, n, x / n + q, x % n);
    } else {
      NoWrap(first, n, j);
    }
  }

  lemma CoversIfDivisor(first: uint64, n: nat)
    requires 0 < n < TWO64 && TWO64 % n == 0
    ensures Covers(first, n)
  {
    forall i: nat | i < n
      ensures Visited(first, n, i)
    {
      var j := Rotation(first, n, i);
      DivisorGoesOn(first, n, j);
    }
  }

  /** Otherwise a wrapped index passes a lane over. */
  lemma PassesOver(first: uint64, n: nat) returns (i: nat)
    requires 0 < n < TWO64 && TWO64 % n != 0 && first + n > TWO64
    ensures i < n && !Visited(first, n, i)
  {
    var z, r := TWO64 % n, TWO64 - first;
    i := if r <= z then n - 1 else n - 1 - r + z;
    forall j: nat | j < n
      ensures LaneOf(first, n, j) != i
    {
      if j < r {
        BeforeWrap(first, n, j);
      } else {
        Wrapped(first, n, j);
      }
    }
  }

  /** The lanes of the last turns before the wrap, counted back from it. */
  lemma BeforeWrap(first: uint64, n: nat, j: nat)
    requires 0 < n < TWO64 && first + n > TWO64 && first + j < TWO64
    ensures var v := TWO64 % n - (TWO64 - first - j); LaneOf(first, n, j) == if v >= 0 then v else v + n
  {
    var z, q := TWO64 % n, TWO64 / n;
    var v := z - (TWO64 - first - j);
    NoWrap(first, n, j);
    assert TWO64 == n * q + z;
    if v >= 0 {
      DivUnique(first + j, n, q, v);
    } else {
      assert first + j == n * (q - 1) + (v + n);
      DivUnique(first + j, n, q - 1, v + n);
    }
  }

  /** The turns of one chunk reach every lane if and only if the lane index does not wrap during them, or the number of
      lanes divides 2^64. */
  lemma CoversExactly(first: uint64, n: nat)
    requires 0 < n < TWO64
    ensures Covers(first, n) <==> first + n <= TWO64 || TWO64 % n == 0
  {
    hide LaneOf, Visited;
    if first + n <= TWO64 {
      CoversUnlessWrapped(first, n);
    } else if TWO64 % n == 0 {
      CoversIfDivisor(first, n);
    } else {
      var i := PassesOver(first, n);
    }
  }

  // ---------- when the turns are over ----------

  /** After `k` failed turns the lanes visited are dead. */
  ghost predicate Tried(s: System, t: System, k: nat) {
    && s.lanes != [] && |t.lanes| == |s.lanes| && t.read == s.read && t.laneIdx == (s.laneIdx + k) % TWO64
    && t.phase == (if k < |s.lanes| then Writing(|s.lanes| - k) else Halted)
    && (forall j: nat | j < k :: t.lanes[LaneOf(s.laneIdx, |s.lanes|, j)].dead)
  }

  /** The chunk went out whole, on a lane that is alive: it is the last frame there. */
  ghost predicate Placed(s: System, t: System) {
    && t.phase == Reading && |t.lanes| == |s.lanes| && 0 < |s.read| < TWO64
    && exists i :: 0 <= i < |t.lanes| && !t.lanes[i].dead && EndsWith(t.lanes[i].log, Chunk(s))
  }

  ghost predicate EndsWith(log: seq<Frame>, f: Frame) {
    log != [] && log[|log| - 1] == f
  }

  lemma TriedMeanwhile(s: System, t: System, u: System, k: nat)
    requires Tried(s, t, k) && Untouched(t, u)
    ensures Tried(s, u, k)
  {
    hide LaneOf;
  }

  lemma FailedTurn(s: System, t: System, u: System, k: nat)
    requires Tried(s, t, k) && k < |s.lanes| == |u.lanes|
    requires var i := LaneOf(s.laneIdx, |s.lanes|, k); u.lanes[i].dead && u.lanes == t.lanes[i := u.lanes[i]]
    requires u.read == t.read && u.laneIdx == (s.laneIdx + k + 1) % TWO64 && u.phase == TriesLeft(|s.lanes| - k)
    ensures Tried(s, u, k + 1)
  {
    hide LaneOf;
  }

  lemma NextIndex(first: uint64, k: nat)
    ensures Add64((first + k) % TWO64, 1) == (first + k + 1) % TWO64
  {}

  lemma OneTurn(s: System, t: System, k: nat, o: Outcome)
    requires Shape(s) && s.phase == Writing(|s.lanes|) && Tried(s, t, k) && k < |s.lanes|
    ensures Placed(s, Step(t, Try(o))) || Tried(s, Step(t, Try(o)), k + 1)
  {
    hide Step, Put;
    TurnStep(t, o);
    NextIndex(s.laneIdx, k);
    hide Add64;
    var i := LaneOf(s.laneIdx, |s.lanes|, k);
    var u := Step(t, Try(o));
    if t.lanes[i].dead || o != Whole {
      FailedTurn(s, t, u, k);
    } else {
      PutWhole(t.lanes[i], Chunk(s));
      hide Tried;
      assert EndsWith(u.lanes[i].log, Chunk(s));
    }
  }

  lemma PutWhole(l: Lane, f: Frame)
    ensures Put(l, f, Whole) == l.(log := l.log + [f])
  {}

  /** Up to the first write that goes through, every turn leaves its lane dead. */
  lemma {:induction false} TriesOutcome(s: System, turns: seq<Turn>, k: nat)
    requires Shape(s) && s.phase == Writing(|s.lanes|) && |turns| == |s.lanes| && Sane(turns)
    requires NoneThrough(s, turns, k)
    ensures var t := Run(Step, s, Tries(turns[..k])); Placed(s, t) || Tried(s, t, k)
  {
    hide Step, Placed;
    if k == 0 {
      assert turns[..0] == [];
    } else {
      TriesOutcome(s, turns, k - 1);
      RunTurn(s, turns, k - 1);
      var t := Run(Step, s, Tries(turns[..k - 1]));
      assert turns[k - 1] in turns;
      NotPlaced(s, t);
      OthersRun(t, turns[k - 1].before);
      var u := Run(Step, t, turns[k - 1].before);
      TriedMeanwhile(s, t, u, k - 1);
      hide Tried;
      OneTurn(s, u, k - 1, turns[k - 1].outcome);
    }
  }

  lemma NotPlaced(s: System, t: System)
    ensures t.phase != Reading ==> !Placed(s, t)
  {}

  /** Whatever the readers and the far end do between the turns of a chunk, lanes dying under it included: when its
      turns are over the chunk is whole on a live lane, or the splitter has stopped. It stops if and only if every lane
      is dead, provided the turns reach every lane. */
  lemma NoLiveLaneMissed(s: System, turns: seq<Turn>, used: nat)
    requires Shape(s) && s.phase == Writing(|s.lanes|) && |turns| == |s.lanes| && Sane(turns)
    requires NoneThrough(s, turns, used)
    requires Run(Step, s, Tries(turns[..used])).phase == Reading || used == |turns|
    ensures var t := Run(Step, s, Tries(turns[..used]));
            && |t.lanes| == |s.lanes| && (t.phase == Reading || t.phase == Halted)
            && (t.phase == Reading ==> Placed(s, t))
            && (Covers(s.laneIdx, |s.lanes|) ==>
                  (t.phase == Halted <==> forall i | 0 <= i < |t.lanes| :: t.lanes[i].dead))
  {
    hide Step, Shape, Sane;
    var n := |s.lanes|;
    var t := Run(Step, s, Tries(turns[..used]));
    TriesOutcome(s, turns, used);
    if !Placed(s, t) {
      assert used == n;
      if Covers(s.laneIdx, n) {
        forall i | 0 <= i < n
          ensures t.lanes[i].dead
        {
          assert Visited(s.laneIdx, n, i);
        }
      }
    }
  }

  /** Turns that only meet dead lanes change nothing but the count. */
  lemma {:induction false} DeadTurns(s: System, turns: seq<Turn>, k: nat)
    requires Shape(s) && s.phase == Writing(|s.lanes|) && |turns| == |s.lanes| && k <= |turns|
    requires forall t | t in turns :: t.before == []
    requires forall j: nat | j < |s.lanes| :: s.lanes[LaneOf(s.laneIdx, |s.lanes|, j)].dead
    ensures var t := Run(Step, s, Tries(turns[..k])); t.lanes == s.lanes && Tried(s, t, k)
  {
    hide Step;
    if k == 0 {
      assert turns[..0] == [];
    } else {
      DeadTurns(s, turns, k - 1);
      RunTurn(s, turns, k - 1);
      assert turns[k - 1] in turns;
      var t := Run(Step, s, Tries(turns[..k - 1]));
      hide Tried, LaneOf;
      DeadTurn(s, t, k - 1, turns[k - 1].outcome);
    }
  }

  lemma DeadTurn(s: System, t: System, k: nat, o: Outcome)
    requires Shape(s) && s.phase == Writing(|s.lanes|) && Tried(s, t, k) && k < |s.lanes| && t.lanes == s.lanes
    requires s.lanes[LaneOf(s.laneIdx, |s.lanes|, k)].dead
    ensures Step(t, Try(o)).lanes == s.lanes && Tried(s, Step(t, Try(o)), k + 1)
  {
    hide Step, Put;
    TurnStep(t, o);
    NextIndex(s.laneIdx, k);
    hide Add64;
    FailedTurn(s, t, Step(t, Try(o)), k);
  }

  /** If the turns of a chunk do not reach every lane, the splitter can stop with a live lane left: the one passed
      over, when the others are dead. */
  lemma LiveLaneMissed(s: System, turns: seq<Turn>, i: nat)
    requires Shape(s) && s.phase == Writing(|s.lanes|) && |turns| == |s.lanes| && i < |s.lanes|
    requires forall t | t in turns :: t.before == []
    requires !Visited(s.laneIdx, |s.lanes|, i) && !s.lanes[i].dead
    requires forall j | 0 <= j < |s.lanes| && j != i :: s.lanes[j].dead
    ensures var t := Run(Step, s, Tries(turns)); t.phase == Halted && t.lanes == s.lanes
  {
    hide Step, LaneOf;
    DeadTurns(s, turns, |turns|);
    assert turns[..|turns|] == turns;
  }

  /** Three lanes, the index at its last value: the turns visit lanes 0, 0 and 1, and the splitter stops although lane 2
      is alive. */
  lemma LaneTwoMissed(read: seq<bytes>, l: Lane, outcomes: seq<Outcome>)
    requires 0 < |read| < TWO64 && (forall c | c in read :: |c| <= MAX_CHUNK) && !l.dead && |outcomes| == 3
    ensures var dead := Lane([], [], 0, true);
            var s := System(read, Writing(3), TWO64 - 1, [dead, dead, l], [], [], R.Unlimited, false, false);
            var turns := seq(3, i requires 0 <= i < 3 => Turn([], outcomes[i]));
            var t := Run(Step, s, Tries(turns));
            t.phase == Halted && t.lanes == s.lanes && !t.lanes[2].dead
  {
    var dead := Lane([], [], 0, true);
    var s := System(read, Writing(3), TWO64 - 1, [dead, dead, l], [], [], R.Unlimited, false, false);
    var turns := seq(3, i requires 0 <= i < 3 => Turn([], outcomes[i]));
    assert !Visited(TWO64 - 1, 3, 2);
    hide Step, Visited, Run;
    LiveLaneMissed(s, turns, 2);
  }

  // ---------- the splitter's whole loop ----------

  /** A chunk of input: what the others do before it is read, the turns it gets, and whether the context is found
      cancelled after it. */
  datatype Piece = Piece(idle: seq<Event>, data: bytes, turns: seq<Turn>, stop: bool)

  ghost predicate Fine(p: Piece, n: nat) {
    OthersOnly(p.idle) && Sane(p.turns) && 0 < |p.data| <= MAX_CHUNK && |p.turns| == n
  }

  function Data(input: seq<Piece>): (d: seq<bytes>)
    ensures |d| == |input| && forall i | 0 <= i < |input| :: d[i] == input[i].data
  {
    seq(|input|, i requires 0 <= i < |input| => input[i].data)
  }

  /** What the loop relies on: it is between chunks, and there is room for the input that is left. */
  ghost predicate Ready(s: System, n: nat, left: nat) {
    Shape(s) && s.phase == Reading && |s.lanes| == n && |s.read| + left + 1 < TWO64
  }

  lemma ReadStep(s: System, data: bytes)
    requires Shape(s) && s.phase == Reading && |s.read| + 2 < TWO64 && 0 < |data| <= MAX_CHUNK
    ensures var u := s.(read := s.read + [data], phase := Writing(|s.lanes|)); Step(s, Read(data)) == u && Shape(u)
  {}

  lemma StillReady(s: System, t: System, n: nat, left: nat)
    requires Ready(s, n, left) && Untouched(s, t)
    ensures Ready(t, n, left)
  {}

  /** A chunk is read and gets `used` of its turns. */
  function ChunkEvents(p: Piece, used: nat): seq<Event>
    requires used <= |p.turns|
  {
    p.idle + [Read(p.data)] + Tries(p.turns[..used])
  }

  /** The turns end with the first that gets the chunk through, or with the last there is. */
  ghost predicate JustEnough(s: System, p: Piece, used: nat) {
    && used <= |p.turns|
    && NoneThrough(Run(Step, s, p.idle + [Read(p.data)]), p.turns, used)
    && (Through(s, p, used) || used == |p.turns|)
  }

  ghost predicate Through(s: System, p: Piece, used: nat)
    requires used <= |p.turns|
  {
    Run(Step, s, ChunkEvents(p, used)).phase == Reading
  }

  /** What happens with one chunk: after it went through, the context may be found cancelled. */
  ghost function ChunkRun(s: System, p: Piece, used: nat): seq<Event>
    requires used <= |p.turns|
  {
    ChunkEvents(p, used) + (if Through(s, p, used) && p.stop then [Halt] else [])
  }

  /** One chunk: read, then written to some lane; afterwards the context is looked at. It takes `used` turns. */
  method SplitChunk(s: System, p: Piece, ghost left: nat) returns (t: System, used: nat)
    requires Ready(s, |p.turns|, left + 1) && Fine(p, |p.turns|)
    ensures JustEnough(s, p, used)
    ensures t == Run(Step, s, ChunkRun(s, p, used)) && t.read == s.read + [p.data]
    ensures t.phase == Halted || (Ready(t, |p.turns|, left) && !p.stop)
  {
    hide Step, Tries, Run, Ready, Fine, ChunkEvents, NoneThrough;
    t, used := WriteChunk(s, p, left);
    ghost var es := ChunkEvents(p, used);
    if t.phase != Halted && p.stop {
      HaltStep(t, |p.turns|, left);
      RunSplit(Step, s, es, [Halt]);
      RunOne(Step, t, Halt);
      t := t.(phase := Halted);
    } else {
      assert es + [] == es;
    }
  }

  method WriteChunk(s: System, p: Piece, ghost left: nat) returns (t: System, used: nat)
    requires Ready(s, |p.turns|, left + 1) && Fine(p, |p.turns|)
    ensures JustEnough(s, p, used)
    ensures t == Run(Step, s, ChunkEvents(p, used)) && t.read == s.read + [p.data]
    ensures t.phase == if Through(s, p, used) then Reading else Halted
    ensures Through(s, p, used) ==> Ready(t, |p.turns|, left)
  {
    hide Step, Tries, Run, NoneThrough;
    OthersRun(s, p.idle);
    var a := Run(Step, s, p.idle);
    StillReady(s, a, |p.turns|, left + 1);
    ReadStep(a, p.data);
    var b := a.(read := a.read + [p.data], phase := Writing(|a.lanes|));
    t, used := WriteNextLane(b, p.turns);
    RunSplit(Step, s, p.idle + [Read(p.data)], Tries(p.turns[..used]));
    RunSplit(Step, s, p.idle, [Read(p.data)]);
    RunOne(Step, a, Read(p.data));
  }

  lemma PieceTurns(p: Piece, n: nat)
    requires Fine(p, n)
    ensures |p.turns| == n
  {}

  lemma DataNext(read: seq<bytes>, input: seq<Piece>, i: nat)
    requires i < |input|
    ensures read + Data(input)[..i] + [input[i].data] == read + Data(input)[..i + 1]
    ensures read <= read + Data(input)[..i + 1] <= read + Data(input)
  {}

  /** The context is not found cancelled after any of the first `n` chunks. */
  ghost predicate NoneStops(input: seq<Piece>, n: nat) {
    n <= |input| && forall i | 0 <= i < n :: !input[i].stop
  }

  lemma StopsNext(input: seq<Piece>, n: nat)
    requires n < |input|
    ensures NoneStops(input, n + 1) <==> NoneStops(input, n) && !input[n].stop
  {}

  predicate TurnsFit(input: seq<Piece>, used: seq<nat>) {
    |used| <= |input| && forall i | 0 <= i < |used| :: used[i] <= |input[i].turns|
  }

  /** The chunks of the input, each with the turns it used. */
  function InputEvents(input: seq<Piece>, used: seq<nat>): seq<Event>
    requires TurnsFit(input, used)
  {
    if used == [] then [] else
      var k := |used| - 1;
      InputEvents(input, used[..k]) + ChunkEvents(input[k], used[k])
  }

  lemma InputNext(input: seq<Piece>, used: seq<nat>, u: nat)
    requires |used| < |input| && TurnsFit(input, used)
    requires u <= |input[|used|].turns|
    ensures InputEvents(input, used + [u]) == InputEvents(input, used) + ChunkEvents(input[|used|], u)
  {
    assert (used + [u])[..|used|] == used;
  }

  /** Every chunk gets just the turns it needs. */
  ghost predicate EachJustEnough(s: System, input: seq<Piece>, used: seq<nat>) {
    && TurnsFit(input, used)
    && forall i: nat | i < |used| :: JustEnough(Run(Step, s, InputEvents(input, used[..i])), input[i], used[i])
  }

  lemma EachNext(s: System, input: seq<Piece>, used: seq<nat>, u: nat)
    requires EachJustEnough(s, input, used) && |used| < |input|
    requires JustEnough(Run(Step, s, InputEvents(input, used)), input[|used|], u)
    ensures EachJustEnough(s, input, used + [u])
  {
    hide JustEnough, InputEvents, Run;
    TurnsOf(Run(Step, s, InputEvents(input, used)), input[|used|], u);
    var all := used + [u];
    forall i: nat | i < |all|
      ensures JustEnough(Run(Step, s, InputEvents(input, all[..i])), input[i], all[i])
    {
      assert all[..i] == used[..i];
      assert i == |used| ==> used[..i] == used;
    }
  }

  lemma TurnsOf(s: System, p: Piece, u: nat)
    requires JustEnough(s, p, u)
    ensures u <= |p.turns|
  {}

  /** The last chunk went through. */
  ghost predicate LastThrough(s: System, input: seq<Piece>, used: seq<nat>)
    requires TurnsFit(input, used)
  {
    Run(Step, s, InputEvents(input, used)).phase == Reading
  }

  /** The loop is left before the end of the input: the last chunk taken found no lane, or it went through and the
      context was found cancelled. */
  ghost predicate LeftEarly(s: System, input: seq<Piece>, used: seq<nat>) {
    TurnsFit(input, used) && used != [] && (LastThrough(s, input, used) ==> input[|used| - 1].stop)
  }

  ghost function EarlyEvents(s: System, input: seq<Piece>, used: seq<nat>): seq<Event>
    requires TurnsFit(input, used)
  {
    InputEvents(input, used) + (if LastThrough(s, input, used) then [Halt] else [])
  }

  lemma OneMore(s: System, input: seq<Piece>, used: seq<nat>, u: nat)
    requires EachJustEnough(s, input, used) && |used| < |input|
    requires JustEnough(Run(Step, s, InputEvents(input, used)), input[|used|], u)
    ensures EachJustEnough(s, input, used + [u]) && TurnsFit(input, used + [u])
    ensures InputEvents(input, used + [u]) == InputEvents(input, used) + ChunkEvents(input[|used|], u)
    ensures LastThrough(s, input, used + [u]) <==>
            Through(Run(Step, s, InputEvents(input, used)), input[|used|], u)
  {
    hide JustEnough, Run, ChunkEvents, Step;
    TurnsOf(Run(Step, s, InputEvents(input, used)), input[|used|], u);
    EachNext(s, input, used, u);
    InputNext(input, used, u);
    RunSplit(Step, s, InputEvents(input, used), ChunkEvents(input[|used|], u));
  }

  /** The loop has taken the first chunks of the input, all of them went through, and it goes on. */
  ghost predicate Along(s: System, input: seq<Piece>, n: nat, used: seq<nat>, t: System) {
    && EachJustEnough(s, input, used) && t == Run(Step, s, InputEvents(input, used))
    && t.read == s.read + Data(input)[..|used|]
    && Ready(t, n, |input| - |used|) && NoneStops(input, |used|)
  }

  lemma AlongFirst(s: System, input: seq<Piece>, n: nat)
    requires Ready(s, n, |input|)
    ensures Along(s, input, n, [], s) && InputEvents(input, []) == []
  {
    assert s.read + Data(input)[..0] == s.read;
  }

  ghost predicate ChunkSplit(s: System, p: Piece, n: nat, left: nat, t: System, used: nat) {
    && JustEnough(s, p, used) && t == Run(Step, s, ChunkRun(s, p, used)) && t.read == s.read + [p.data]
    && (t.phase == Halted || (Ready(t, n, left) && !p.stop))
  }

  lemma AlongNext(s: System, input: seq<Piece>, n: nat, used: seq<nat>, before: System, t: System, u: nat)
    requires Along(s, input, n, used, before) && |used| < |input|
    requires ChunkSplit(before, input[|used|], n, |input| - |used| - 1, t, u)
    ensures EachJustEnough(s, input, used + [u]) && TurnsFit(input, used + [u])
    ensures t.read == s.read + Data(input)[..|used| + 1]
    ensures t.phase == Halted ==>
              LeftEarly(s, input, used + [u]) && t == Run(Step, s, EarlyEvents(s, input, used + [u]))
    ensures t.phase != Halted ==> Along(s, input, n, used + [u], t)
  {
    hide Step, Run, JustEnough, EachJustEnough, InputEvents, ChunkEvents, NoneStops, Shape;
    OneMore(s, input, used, u);
    DataNext(s.read, input, |used|);
    StopsNext(input, |used|);
    var p, a, chunk := input[|used|], InputEvents(input, used), ChunkEvents(input[|used|], u);
    RunSplit(Step, s, a, ChunkRun(before, p, u));
    RunSplit(Step, s, a, chunk);
    assert a + (chunk + [Halt]) == a + chunk + [Halt];
    assert chunk + [] == chunk && a + chunk + [] == a + chunk;
  }

  /** The chunks of the input one after the other, until there are no more or the loop is left. */
  method SplitInput(s: System, input: seq<Piece>, n: nat) returns (t: System, used: seq<nat>)
    requires Ready(s, n, |input|) && forall p | p in input :: Fine(p, n)
    ensures EachJustEnough(s, input, used) && t.read == s.read + Data(input)[..|used|]
    ensures t.phase == Halted ==> LeftEarly(s, input, used) && t == Run(Step, s, EarlyEvents(s, input, used))
    ensures t.phase != Halted ==>
              |used| == |input| && t == Run(Step, s, InputEvents(input, used)) && Ready(t, n, 0)
              && NoneStops(input, |input|)
  {
    hide Step, Run, Fine, NoneStops, JustEnough, EachJustEnough, InputEvents, ChunkEvents, LeftEarly, Through, Shape;
    hide ChunkRun, EarlyEvents;
    t, used := s, [];
    AlongFirst(s, input, n);
    var i := 0;
    while i < |input|
      invariant 0 <= i <= |input| && i == |used|
      invariant TurnsFit(input, used) && Along(s, input, n, used, t)
    {
      assert input[i] in input;
      PieceTurns(input[i], n);
      ghost var before := t;
      var u;
      t, u := SplitChunk(t, input[i], |input| - i - 1);
      AlongNext(s, input, n, used, before, t, u);
      used := used + [u];
      i := i + 1;
      if t.phase == Halted {
        return;
      }
    }
  }

  /** Reading, striping and, at the end of the input, a FIN on every lane that is not dead: the loop is a run of the
      whole system, in which all the input is read and FIN sent, or no lane was left on the way, or the context was
      cancelled between two chunks. `used` are the turns each chunk took. */
  method SplitToLanes(s: System, input: seq<Piece>, fins: seq<Turn>) returns (t: System, used: seq<nat>)
    requires Ready(s, |fins|, |input|) && Sane(fins) && forall p | p in input :: Fine(p, |fins|)
    ensures EachJustEnough(s, input, used) && t.read == s.read + Data(input)[..|used|]
    ensures t.phase == Finished || t.phase == Halted
    ensures t.phase == Halted ==> LeftEarly(s, input, used) && t == Run(Step, s, EarlyEvents(s, input, used))
    ensures t.phase == Finished ==>
              |used| == |input| && t == Run(Step, s, InputEvents(input, used) + FinEvents(fins))
              && NoneStops(input, |input|)
  {
    hide Step, Ready, Run, Fine, Sane, NoneStops, JustEnough, InputEvents, LeftEarly, FinEvents, EarlyEvents;
    t, used := SplitInput(s, input, |fins|);
    if t.phase == Halted {
      return;
    }
    t := SendFins(t, fins);
    RunSplit(Step, s, InputEvents(input, used), FinEvents(fins));
  }

  /** The end of the input, then a FIN for one lane after the other. */
  function FinEvents(fins: seq<Turn>): seq<Event> {
    if fins == [] then [EndOfInput] else
      var k := |fins| - 1;
      FinEvents(fins[..k]) + fins[k].before + [SendFin(fins[k].outcome)]
  }

  /** Lane `i` is dead, or has the FIN if its write went through. */
  ghost predicate FinSent(t: System, i: nat, o: Outcome, f: Frame) {
    i < |t.lanes| && (t.lanes[i].dead || (o == Whole ==> f in t.lanes[i].log))
  }

  ghost predicate FinsSent(t: System, fins: seq<Turn>, n: nat, f: Frame) {
    n <= |fins| && forall i: nat | i < n :: FinSent(t, i, fins[i].outcome, f)
  }

  lemma FinsStay(s: System, t: System, fins: seq<Turn>, n: nat, f: Frame)
    requires FinsSent(s, fins, n, f) && Untouched(s, t)
    ensures FinsSent(t, fins, n, f)
  {
    forall i: nat | i < n
      ensures FinSent(t, i, fins[i].outcome, f)
    {
      assert FinSent(s, i, fins[i].outcome, f);
    }
  }

  lemma FinsNext(s: System, fins: seq<Turn>, n: nat, f: Frame)
    requires FinsSent(s, fins, n, f) && n < |fins| && n < |s.lanes| && |s.read| < TWO64
    requires f == Frame(FIN, |s.read|, [])
    ensures FinsSent(FinLane(s, n, fins[n].outcome), fins, n + 1, f)
  {
    hide Encode;
    var t := FinLane(s, n, fins[n].outcome);
    forall i: nat | i < n + 1
      ensures FinSent(t, i, fins[i].outcome, f)
    {
      if i < n {
        assert FinSent(s, i, fins[i].outcome, f);
      }
    }
  }

  /** The FIN loop: dead lanes are passed over and errors ignored; every other lane gets its FIN. */
  method SendFins(s: System, fins: seq<Turn>) returns (t: System)
    requires Ready(s, |fins|, 0) && Sane(fins)
    ensures t == Run(Step, s, FinEvents(fins)) && t.phase == Finished && t.read == s.read
    ensures forall i: nat | i < |fins| :: FinSent(t, i, fins[i].outcome, Frame(FIN, |s.read|, []))
  {
    EndStep(s);
    t := s.(phase := Finishing(0));
    ghost var es: seq<Event> := [EndOfInput];
    ghost var f := Frame(FIN, |s.read|, []);
    RunOne(Step, s, EndOfInput);
    assert fins[..0] == [] && FinsSent(t, fins, 0, f);
    hide Put, Step, Run, OthersOnly, Untouched, FinsSent, FinEvents;
    assert FinEvents([]) == [EndOfInput] by { NoFins(); }
    var i := 0;
    while i < |fins|
      invariant 0 <= i <= |fins| && |t.lanes| == |s.lanes| && t.read == s.read
      invariant t.phase == if i < |fins| then Finishing(i) else Finished
      invariant t == Run(Step, s, es) && es == FinEvents(fins[..i]) && FinsSent(t, fins, i, f)
    {
      assert fins[i] in fins;
      OthersRun(t, fins[i].before);
      FinsStay(t, Run(Step, t, fins[i].before), fins, i, f);
      Meanwhile(t, Run(Step, t, fins[i].before));
      RunSplit(Step, s, es, fins[i].before);
      t, es := Run(Step, t, fins[i].before), es + fins[i].before;
      FinsNext(t, fins, i, f);
      FinStep(t, fins[i].outcome);
      RunSplit(Step, s, es, [SendFin(fins[i].outcome)]);
      RunOne(Step, t, SendFin(fins[i].outcome));
      FinsOnward(fins, i);
      es := es + [SendFin(fins[i].outcome)];
      var l := t.lanes[i];
      t := t.(phase := if i + 1 == |t.lanes| then Finished else Finishing(i + 1));
      if !l.dead {
        t := t.(lanes := t.lanes[i := Put(l, Frame(FIN, |s.read|, []), fins[i].outcome)]);
      }
      i := i + 1;
    }
    assert fins[..i] == fins;
    FinsAll(t, fins, f);
  }

  lemma NoFins()
    ensures FinEvents([]) == [EndOfInput]
  {}

  lemma FinsOnward(fins: seq<Turn>, i: nat)
    requires i < |fins|
    ensures FinEvents(fins[..i + 1]) == FinEvents(fins[..i]) + fins[i].before + [SendFin(fins[i].outcome)]
  {
    assert fins[..i + 1][..i] == fins[..i];
  }

  lemma Meanwhile(s: System, t: System)
    requires Untouched(s, t)
    ensures t.read == s.read && t.phase == s.phase && |t.lanes| == |s.lanes|
  {}

  lemma FinsAll(t: System, fins: seq<Turn>, f: Frame)
    requires FinsSent(t, fins, |fins|, f)
    ensures forall i: nat | i < |fins| :: FinSent(t, i, fins[i].outcome, f)
  {}

  lemma HaltStep(s: System, n: nat, left: nat)
    requires Ready(s, n, left)
    ensures Step(s, Halt) == s.(phase := Halted)
  {}

  lemma FinStep(s: System, o: Outcome)
    requires s.phase.Finishing? && s.phase.next < |s.lanes| && |s.read| < TWO64
    ensures Step(s, SendFin(o)) == FinLane(s, s.phase.next, o)
  {}
}
