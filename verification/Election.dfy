/** Which of a group's workers asks the server for the configuration. */
module Election {
  import opened Runs

  /** Where a worker is in its loop: at the top, past the load of `configSent` and about to swap, in a session it runs
      with or without the request, back from one, or gone. */
  datatype Pc = Top | Swapping | InSession(asks: bool) | Back(asks: bool, got: bool) | Exited

  /** The shared words, every worker's place, and whether a session ever came back with the configuration. */
  datatype State = State(getConfig: bool, configSent: bool, inFlight: bool, workers: seq<Pc>, delivered: bool)

  datatype Action = Load | Swap | Return(got: bool) | Settle | Exit

  datatype Event = Event(worker: nat, action: Action)

  function Begin(getConfig: bool, n: nat): State {
    State(getConfig, !getConfig, false, seq(n, _ => Top), false)
  }

  /** One atomic step of one worker. */
  function Step(s: State, e: Event): State {
    if e.worker >= |s.workers| then s
    else
      var i := e.worker;
      match (s.workers[i], e.action)
      case (Top, Load) =>
        s.(workers := s.workers[i := if s.getConfig && !s.configSent then Swapping else InSession(false)])
      case (Swapping, Swap) =>
        s.(workers := s.workers[i := InSession(!s.inFlight)], inFlight := true)
      case (InSession(asks), Return(got)) =>
        s.(workers := s.workers[i := Back(asks, asks && got)], delivered := s.delivered || (asks && got))
      case (Back(asks, got), Settle) =>
        var t := s.(workers := s.workers[i := Top]);
        if !asks then t else if got then t.(configSent := true) else t.(inFlight := false)
      case (Top, Exit) => s.(workers := s.workers[i := Exited])
      case _ => s
  }

  /** Holding the token: asking, or back and not yet done with the answer. */
  predicate Holds(p: Pc) {
    (p.InSession? && p.asks) || (p.Back? && p.asks)
  }

  ghost predicate Holder(s: State, i: nat) {
    i < |s.workers| && Holds(s.workers[i])
  }

  ghost predicate AtMostOne(s: State) {
    forall i: nat, j: nat | Holder(s, i) && Holder(s, j) :: i == j
  }

  /** The token is out exactly while somebody holds it, or for good once the configuration has come. */
  ghost predicate TokenExact(s: State) {
    s.inFlight <==> s.delivered || exists i: nat :: Holder(s, i)
  }

  /** After the delivery the only holder is the worker that brought it, on its way to publishing it. */
  ghost predicate OnlyOnce(s: State) {
    s.delivered ==> forall i: nat | Holder(s, i) :: s.workers[i] == Back(true, true)
  }

  /** It is published once it has been delivered and the worker that brought it has settled. */
  ghost predicate Published(s: State) {
    s.getConfig ==> (s.configSent <==> s.delivered && !exists i: nat :: Holder(s, i))
  }

  ghost predicate Genuine(s: State) {
    (!s.getConfig ==> !s.inFlight && !s.delivered && forall i: nat | i < |s.workers| :: s.workers[i] != Swapping)
    && forall i: nat | i < |s.workers| && s.workers[i].Back? && s.workers[i].got :: s.delivered && s.workers[i].asks
  }

  ghost predicate Inv(s: State) {
    AtMostOne(s) && TokenExact(s) && OnlyOnce(s) && Published(s) && Genuine(s)
  }

  lemma HoldersAfter(s: State, e: Event)
    requires Step(s, e) != s
    ensures var t, i := Step(s, e), e.worker;
            && (forall j: nat | j != i :: Holder(t, j) <==> Holder(s, j))
            && (Holder(s, i) <==> Holds(s.workers[i])) && (Holder(t, i) <==> Holds(t.workers[i]))
  {}

  lemma HolderKept(s: State, e: Event)
    requires Inv(s)
    ensures AtMostOne(Step(s, e)) && OnlyOnce(Step(s, e)) && Genuine(Step(s, e))
  {
    if Step(s, e) != s {
      HoldersAfter(s, e);
    }
  }

  lemma TokenKept(s: State, e: Event)
    requires Inv(s)
    ensures TokenExact(Step(s, e)) && Published(Step(s, e))
  {
    if Step(s, e) != s {
      HoldersAfter(s, e);
    }
  }

  /** For any number of workers and any interleaving of their steps: at most one is asking, nobody asks after a
      delivery, and the token is free exactly when nothing has been delivered and nobody holds it. */
  lemma ElectionAlways(getConfig: bool, n: nat, events: seq<Event>)
    ensures var s := Run(Step, Begin(getConfig, n), events);
            && AtMostOne(s) && TokenExact(s) && Published(s)
            && (s.delivered ==> forall i: nat | i < |s.workers| :: s.workers[i] != InSession(true))
            && (!s.getConfig ==> forall i: nat :: !Holder(s, i))
  {
    hide Step;
    forall s, e | Inv(s)
      ensures Inv(Step(s, e))
    {
      HolderKept(s, e);
      TokenKept(s, e);
    }
    RunKeeps(Step, s => Inv(s), Begin(getConfig, n), events);
    var s := Run(Step, Begin(getConfig, n), events);
    forall i: nat | i < |s.workers| && s.delivered
      ensures s.workers[i] != InSession(true)
    {
      assert Holder(s, i) ==> s.workers[i] == Back(true, true);
    }
  }

  // ---------------------------------------------------------------- somebody asks

  ghost predicate OthersKept(s: State, t: State, i: nat) {
    |t.workers| == |s.workers| && forall j: nat | j < |s.workers| && j != i :: t.workers[j] == s.workers[j]
  }

  /** A worker that goes from the top into its session asks if and only if the configuration is wanted, has not been
      sent and the token is free; if it is wanted and not sent, the token is then taken. */
  lemma AsksExactly(s: State, i: nat)
    requires i < |s.workers| && s.workers[i] == Top
    ensures var t := Step(Step(s, Event(i, Load)), Event(i, Swap));
            && OthersKept(s, t, i) && t.workers[i] == InSession(s.getConfig && !s.configSent && !s.inFlight)
            && t == s.(workers := t.workers, inFlight := s.inFlight || (s.getConfig && !s.configSent))
  {}

  /** A worker that comes out of its session is at the top again. If it asked, an answer is published for good and no
      answer frees the token; if it did not, nothing changes. */
  lemma SettlesExactly(s: State, i: nat, asks: bool, got: bool)
    requires i < |s.workers| && s.workers[i] == InSession(asks)
    ensures var t := Step(Step(s, Event(i, Return(got))), Event(i, Settle));
            && OthersKept(s, t, i) && t.workers[i] == Top
            && t == s.(workers := t.workers, delivered := s.delivered || (asks && got),
                       configSent := s.configSent || (asks && got), inFlight := s.inFlight && (!asks || got))
  {}

  /** A worker leaves from the top, and leaves everything else as it is. */
  lemma ExitEffect(s: State, i: nat)
    requires i < |s.workers| && s.workers[i] == Top
    ensures var t := Step(s, Event(i, Exit));
            OthersKept(s, t, i) && t.workers[i] == Exited && t == s.(workers := t.workers)
  {}

  /** In every run of a group that wants the configuration: as long as it has not come and nobody is asking, the next
      worker to go into its session asks. A worker between its load and its swap asks as well. */
  lemma NextAsks(n: nat, events: seq<Event>, i: nat)
    requires var s := Run(Step, Begin(true, n), events);
             i < |s.workers| && !s.delivered && forall j: nat :: !Holder(s, j)
    ensures var s := Run(Step, Begin(true, n), events);
            && (s.workers[i] == Top ==>
                  Step(Step(s, Event(i, Load)), Event(i, Swap)).workers[i] == InSession(true))
            && (s.workers[i] == Swapping ==> Step(s, Event(i, Swap)).workers[i] == InSession(true))
  {
    var s := Run(Step, Begin(true, n), events);
    ElectionAlways(true, n, events);
    ConfigWanted(true, n, events);
    hide Run;
    if s.workers[i] == Top {
      AsksExactly(s, i);
    }
  }

  lemma ConfigWanted(getConfig: bool, n: nat, events: seq<Event>)
    ensures Run(Step, Begin(getConfig, n), events).getConfig == getConfig
  {
    RunKeeps(Step, (s: State) => s.getConfig == getConfig, Begin(getConfig, n), events);
  }
}
