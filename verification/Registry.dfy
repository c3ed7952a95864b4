/** Grouping lanes into sessions by the connection they announce. */
module Registry {
  import opened Words
  import opened BondCodec
  import opened Runs

  const MAX_LANE_COUNT: nat := 16

  /** An accepted lane: which one it is, and the bytes it sends first. */
  datatype Conn = Conn(id: nat, sends: bytes)

  datatype Session = Session(want: nat, lanes: seq<Conn>)

  datatype Service = Service(connID: uint64, lanes: seq<Conn>)

  datatype State = State(sessions: map<uint64, Session>, closed: seq<Conn>, served: seq<Service>)

  /** A lane that says whom it belongs to and how many lanes there will be. */
  predicate Accepted(c: Conn) {
    var h := ReadHello(c.sends);
    h.Welcome? && 1 <= h.hello.laneCount <= MAX_LANE_COUNT
  }

  function IdOf(c: Conn): uint64
    requires Accepted(c)
  {
    ReadHello(c.sends).hello.connID
  }

  function CountOf(c: Conn): nat
    requires Accepted(c)
  {
    ReadHello(c.sends).hello.laneCount
  }

  function Joined(st: State, c: Conn): Session
    requires Accepted(c)
  {
    var k := IdOf(c);
    if k in st.sessions then st.sessions[k].(lanes := st.sessions[k].lanes + [c]) else Session(CountOf(c), [c])
  }

  function Arrival(st: State, c: Conn): State {
    if !Accepted(c) then st.(closed := st.closed + [c])
    else
      var k, s := IdOf(c), Joined(st, c);
      if |s.lanes| >= s.want then
        st.(sessions := st.sessions - {k}, served := st.served + [Service(k, s.lanes)])
      else
        st.(sessions := st.sessions[k := s])
  }

  function Expiry(st: State, k: uint64): State {
    if k in st.sessions then st.(sessions := st.sessions - {k}, closed := st.closed + st.sessions[k].lanes) else st
  }

  datatype Event = Arrive(lane: Conn) | Expire(connID: uint64)

  function Step(st: State, e: Event): State {
    match e
    case Arrive(c) => Arrival(st, c)
    case Expire(k) => Expiry(st, k)
  }

  const EMPTY: State := State(map[], [], [])

  function After(events: seq<Event>): State {
    Run(Step, EMPTY, events)
  }

  /** The registry object; its lock makes each method one step. */
  class LaneRegistry {
    var sessions: map<uint64, Session>
    var closed: seq<Conn>
    var served: seq<Service>

    ghost function Value(): State
      reads this
    {
      State(sessions, closed, served)
    }

    constructor ()
      ensures Value() == EMPTY && EMPTY == State(map[], [], [])
    {
      sessions, closed, served := map[], [], [];
    }

    method HandleLane(c: Conn)
      modifies this
      ensures Value() == Arrival(old(Value()), c)
    {
      var h := ReadHello(c.sends);
      if !h.Welcome? {
        closed := closed + [c];
        return;
      }
      var want := h.hello.laneCount;
      if want <= 0 || want > MAX_LANE_COUNT {
        closed := closed + [c];
        return;
      }
      var k := h.hello.connID;
      var s := if k in sessions then sessions[k] else Session(want, []);
      s := s.(lanes := s.lanes + [c]);
      assert [] + [c] == [c];
      if |s.lanes| >= s.want {
        sessions := sessions - {k};
        served := served + [Service(k, s.lanes)];
      } else {
        sessions := sessions[k := s];
      }
    }

    method ExpireSession(k: uint64)
      modifies this
      ensures Value() == Expiry(old(Value()), k)
    {
      if k in sessions {
        var lanes := sessions[k].lanes;
        sessions := sessions - {k};
        var i := 0;
        ghost var before := closed;
        while i < |lanes|
          invariant 0 <= i <= |lanes|
          invariant closed == before + lanes[..i]
          invariant sessions == old(sessions) - {k} && served == old(served)
        {
          closed := closed + [lanes[i]];
          i := i + 1;
        }
        assert lanes[..i] == lanes;
      }
    }
  }

  // ---------------------------------------------------------------- one event

  /** A lane is taken in if and only if its first bytes are a handshake that announces 1 to 16 lanes. */
  lemma AcceptedExactly(c: Conn)
    ensures Accepted(c) <==> exists h: Hello :: 1 <= h.laneCount <= 16 && HelloBytes(h) <= c.sends
  {
    hide HelloBytes;
    var r := ReadHello(c.sends);
    if r.Welcome? {
      HelloExactly(c.sends, r.hello);
    }
    hide ReadHello;
    forall h: Hello | HelloBytes(h) <= c.sends
      ensures r == Welcome(h)
    {
      HelloExactly(c.sends, h);
    }
  }

  /** It then belongs to the connection and group size that handshake names. */
  lemma NamedBy(c: Conn, h: Hello)
    requires 1 <= h.laneCount <= 16 && HelloBytes(h) <= c.sends
    ensures Accepted(c) && IdOf(c) == h.connID && CountOf(c) == h.laneCount
  {
    hide ReadHello, HelloBytes;
    HelloExactly(c.sends, h);
  }

  /** What waits and what was served stay as they are for every connection but `k`. */
  ghost predicate OthersKept(st: State, t: State, k: uint64) {
    forall j: uint64 | j != k ::
      (j in t.sessions <==> j in st.sessions) && (j in st.sessions ==> t.sessions[j] == st.sessions[j])
  }

  /** A refused lane is closed and nothing else happens. */
  lemma RefusedEffect(st: State, c: Conn)
    requires !Accepted(c)
    ensures Step(st, Arrive(c)) == State(st.sessions, st.closed + [c], st.served)
  {}

  /** The lane joins those waiting for its connection, or starts the wait for the number it announces. Once they are
      that many they are served, in the order they came, and nobody waits; until then they wait. */
  lemma ArriveEffect(st: State, c: Conn)
    requires Accepted(c)
    ensures var t, k := Step(st, Arrive(c)), IdOf(c);
            var lanes, want := Pending(k, st) + [c], if k in st.sessions then st.sessions[k].want else CountOf(c);
            && t.closed == st.closed && OthersKept(st, t, k)
            && if |lanes| < want then
                 k in t.sessions && t.sessions[k] == Session(want, lanes) && t.served == st.served
               else k !in t.sessions && t.served == st.served + [Service(k, lanes)]
  {
    hide ReadHello;
    assert [] + [c] == [c];
  }

  /** After the timer of `k` nobody waits under `k`: whoever did is closed, in the order they came. Nothing else
      changes, and the timer of a connection nobody waits under does nothing. */
  lemma ExpireEffect(st: State, k: uint64)
    ensures var t := Step(st, Expire(k));
            && k !in t.sessions && OthersKept(st, t, k) && t.served == st.served
            && t.closed == st.closed + (if k in st.sessions then st.sessions[k].lanes else [])
            && (k !in st.sessions ==> t == st)
  {
    assert st.closed + [] == st.closed;
  }

  // ---------------------------------------------------------------- what every run keeps

  ghost predicate OfOne(k: uint64, lanes: seq<Conn>) {
    lanes != [] && forall c | c in lanes :: Accepted(c) && IdOf(c) == k
  }

  /** A session still waiting is short of the lanes its first lane announced; a served one has exactly them. */
  ghost predicate Sized(st: State) {
    && (forall k | k in st.sessions :: var s := st.sessions[k];
          OfOne(k, s.lanes) && s.want == CountOf(s.lanes[0]) && |s.lanes| < s.want)
    && (forall v | v in st.served :: OfOne(v.connID, v.lanes) && |v.lanes| == CountOf(v.lanes[0]))
  }

  lemma ArrivalSized(st: State, c: Conn)
    requires Sized(st)
    ensures Sized(Arrival(st, c))
  {
    if Accepted(c) {
      var s := Joined(st, c);
      hide Accepted, IdOf, CountOf;
      assert OfOne(IdOf(c), s.lanes);
      hide OfOne;
    }
  }

  lemma SizedAlways(events: seq<Event>)
    ensures Sized(After(events))
  {
    forall st, e | Sized(st)
      ensures Sized(Step(st, e))
    {
      if e.Arrive? {
        ArrivalSized(st, e.lane);
      }
    }
    hide Step, Sized;
    assert Sized(EMPTY) by { EmptySized(); }
    RunKeeps(Step, st => Sized(st), EMPTY, events);
  }

  lemma EmptySized()
    ensures Sized(EMPTY)
  {}

  function LanesServed(served: seq<Service>): seq<Conn> {
    if served == [] then [] else LanesServed(served[..|served| - 1]) + served[|served| - 1].lanes
  }

  /** How often lane `c` waits in the table: it can only wait under its own connection. */
  ghost function Waits(st: State, c: Conn): nat {
    if Accepted(c) && IdOf(c) in st.sessions then multiset(st.sessions[IdOf(c)].lanes)[c] else 0
  }

  ghost function Places(st: State, c: Conn): nat {
    Waits(st, c) + multiset(st.closed)[c] + multiset(LanesServed(st.served))[c]
  }

  function Arrivals(events: seq<Event>): seq<Conn> {
    if events == [] then [] else
      var e := events[|events| - 1];
      Arrivals(events[..|events| - 1]) + (if e.Arrive? then [e.lane] else [])
  }

  lemma ServedNext(served: seq<Service>, v: Service)
    ensures LanesServed(served + [v]) == LanesServed(served) + v.lanes
  {
    assert (served + [v])[..|served|] == served;
  }

  lemma JoinedCount(st: State, a: Conn, c: Conn)
    requires Sized(st) && Accepted(a)
    ensures var s := Joined(st, a);
            if Accepted(c) && IdOf(c) == IdOf(a) then
              multiset(s.lanes)[c] == Waits(st, c) + (if a == c then 1 else 0)
            else a != c && multiset(s.lanes)[c] == 0
  {
    hide ReadHello;
    var s := Joined(st, a);
    assert forall b | b in s.lanes :: Accepted(b) && IdOf(b) == IdOf(a);
    assert c in multiset(s.lanes) <==> c in s.lanes;
  }

  lemma ArrivalPlaces(st: State, a: Conn, c: Conn)
    requires Sized(st)
    ensures Places(Arrival(st, a), c) == Places(st, c) + (if a == c then 1 else 0)
  {
    hide ReadHello, Sized;
    if Accepted(a) {
      var s := Joined(st, a);
      JoinedCount(st, a, c);
      ServedNext(st.served, Service(IdOf(a), s.lanes));
      hide Joined, LanesServed;
      var same := Accepted(c) && IdOf(c) == IdOf(a);
      if |s.lanes| >= s.want {
        assert Waits(Arrival(st, a), c) == if same then 0 else Waits(st, c);
      } else {
        assert Waits(Arrival(st, a), c) == if same then multiset(s.lanes)[c] else Waits(st, c);
      }
      hide Waits, Accepted, IdOf;
    }
  }

  lemma ExpiryPlaces(st: State, k: uint64, c: Conn)
    requires Sized(st)
    ensures Places(Expiry(st, k), c) == Places(st, c)
  {
    hide ReadHello, CountOf;
    if k in st.sessions {
      var lanes := st.sessions[k].lanes;
      assert OfOne(k, lanes);
      assert c in multiset(lanes) <==> c in lanes;
    }
  }

  /** Conservation over every run: each lane that arrived is waiting, closed or served as often as it arrived,
      counting all three together; nothing is lost, duplicated or made up. */
  lemma {:induction false} EveryLaneAccounted(events: seq<Event>, c: Conn)
    ensures Places(After(events), c) == multiset(Arrivals(events))[c]
  {
    hide Places, Sized, Arrival, Expiry;
    if events == [] {
      NothingPlaced(c);
    } else {
      var n := |events| - 1;
      var before, e := events[..n], events[n];
      EveryLaneAccounted(before, c);
      SizedAlways(before);
      if e.Arrive? {
        ArrivalPlaces(After(before), e.lane, c);
      } else {
        ExpiryPlaces(After(before), e.connID, c);
        assert Arrivals(before) + [] == Arrivals(before);
      }
    }
  }

  lemma NothingPlaced(c: Conn)
    ensures Places(EMPTY, c) == 0
  {}

  // ---------------------------------------------------------------- one connection at a time

  function LanesOf(k: uint64, events: seq<Event>): seq<Conn> {
    if events == [] then [] else
      var e := events[|events| - 1];
      LanesOf(k, events[..|events| - 1])
      + (if e.Arrive? && Accepted(e.lane) && IdOf(e.lane) == k then [e.lane] else [])
  }

  function ServedOf(k: uint64, served: seq<Service>): seq<Conn> {
    if served == [] then [] else
      var v := served[|served| - 1];
      ServedOf(k, served[..|served| - 1]) + (if v.connID == k then v.lanes else [])
  }

  function Pending(k: uint64, st: State): seq<Conn> {
    if k in st.sessions then st.sessions[k].lanes else []
  }

  lemma ServedOfNext(k: uint64, served: seq<Service>, v: Service)
    ensures ServedOf(k, served + [v]) == ServedOf(k, served) + (if v.connID == k then v.lanes else [])
  {
    assert (served + [v])[..|served|] == served;
  }

  lemma ArrivalInOrder(st: State, c: Conn, k: uint64)
    ensures var t := Arrival(st, c);
            ServedOf(k, t.served) + Pending(k, t) ==
            ServedOf(k, st.served) + Pending(k, st) + (if Accepted(c) && IdOf(c) == k then [c] else [])
  {
    hide ReadHello, CountOf;
    if Accepted(c) {
      var s := Joined(st, c);
      ServedOfNext(k, st.served, Service(IdOf(c), s.lanes));
      hide ServedOf;
      hide Accepted;
      if IdOf(c) == k {
        assert s.lanes == Pending(k, st) + [c];
      } else {
        assert Pending(k, Arrival(st, c)) == Pending(k, st);
      }
    }
  }

  lemma StepInOrder(st: State, e: Event, k: uint64)
    requires e != Expire(k)
    ensures var t := Step(st, e);
            ServedOf(k, t.served) + Pending(k, t) ==
            ServedOf(k, st.served) + Pending(k, st)
            + (if e.Arrive? && Accepted(e.lane) && IdOf(e.lane) == k then [e.lane] else [])
  {
    hide Arrival, ServedOf, Accepted;
    if e.Arrive? {
      ArrivalInOrder(st, e.lane, k);
    }
  }

  /** As long as connection `k` does not time out, what is served and waiting for it is extended by its lanes, in the
      order they come; lanes of other connections do not matter. */
  lemma {:induction false} InOrderFrom(st: State, events: seq<Event>, k: uint64)
    requires Expire(k) !in events
    ensures var t := Run(Step, st, events);
            ServedOf(k, t.served) + Pending(k, t) == ServedOf(k, st.served) + Pending(k, st) + LanesOf(k, events)
  {
    hide Step, ServedOf, Accepted, IdOf, Pending;
    if events == [] {
    } else {
      var n := |events| - 1;
      InOrderFrom(st, events[..n], k);
      assert events[n] in events;
      StepInOrder(Run(Step, st, events[..n]), events[n], k);
    }
  }

  /** While connection `k` does not time out, its lanes are served in the order they came, in groups of the size
      each group's first lane announced, and the rest wait. */
  lemma ServedInOrder(events: seq<Event>, k: uint64)
    requires Expire(k) !in events
    ensures var st := After(events);
            Sized(st) && ServedOf(k, st.served) + Pending(k, st) == LanesOf(k, events)
  {
    hide Sized, Step;
    SizedAlways(events);
    InOrderFrom(EMPTY, events, k);
  }

  /** A run cut at the last time-out of `k`: the lanes waiting then are closed and never served. What is served since
      and waits now are exactly the lanes of `k` that came since, in order, in groups as above. */
  lemma ServedSinceExpiry(before: seq<Event>, k: uint64, since: seq<Event>)
    requires Expire(k) !in since
    ensures var prior, cut := After(before), After(before + [Expire(k)]);
            var st := After(before + [Expire(k)] + since);
            && cut.closed == prior.closed + Pending(k, prior) && cut.served == prior.served && k !in cut.sessions
            && Sized(st)
            && ServedOf(k, st.served) + Pending(k, st) == ServedOf(k, prior.served) + LanesOf(k, since)
  {
    hide Sized, Step, ServedOf, LanesOf;
    SizedAlways(before + [Expire(k)] + since);
    RunSplit(Step, EMPTY, before, [Expire(k)]);
    RunOne(Step, After(before), Expire(k));
    ExpireEffect(After(before), k);
    RunSplit(Step, EMPTY, before + [Expire(k)], since);
    InOrderFrom(After(before + [Expire(k)]), since, k);
  }
}
