/** The reassembly to a destination whose writes may fail: when it still passes the whole stream on. */
module BondSinks {
  import opened Words
  import opened BondCodec
  import opened BondReorder

  /** How many writes the stream takes: empty chunks take none. */
  function Writes(chunks: seq<bytes>): nat {
    if chunks == [] then 0 else Writes(chunks[..|chunks| - 1]) + (if chunks[|chunks| - 1] == [] then 0 else 1)
  }

  /** The destination takes all the writes of the stream. */
  predicate Enough(sink: Sink, chunks: seq<bytes>) {
    sink.Breaks? ==> Writes(chunks) <= sink.at
  }

  lemma WritesNext(chunks: seq<bytes>, k: nat)
    requires k < |chunks|
    ensures Writes(chunks[..k + 1]) == Writes(chunks[..k]) + (if chunks[k] == [] then 0 else 1)
  {
    assert chunks[..k + 1][..k] == chunks[..k];
  }

  // ---------- a destination that never fails ----------

  /** The writes made are those of the chunks that are out. */
  ghost predicate Counted(r: Reorder, chunks: seq<bytes>) {
    Sound(r, chunks) && r.sink == Unlimited && r.writes == Writes(chunks[..r.due])
  }

  lemma {:induction false} DrainCounts(r: Reorder, chunks: seq<bytes>)
    requires Counted(r, chunks) && |chunks| < TWO64
    ensures Counted(Drain(r), chunks)
    decreases |r.pending|
  {
    hide Sound;
    if r.status == Running && r.due in r.pending {
      assert |r.pending.Keys - {r.due}| < |r.pending.Keys|;
      EmitSound(r, chunks);
      NextChunk(r, chunks);
      WritesNext(chunks, r.due);
      DrainCounts(Emit(r), chunks);
    }
  }

  lemma NextChunk(r: Reorder, chunks: seq<bytes>)
    requires Sound(r, chunks) && r.due in r.pending && |chunks| < TWO64
    ensures r.due < |chunks| && r.pending[r.due] == chunks[r.due] && Add64(r.due, 1) == r.due + 1
  {}

  lemma DeliverCounts(r: Reorder, f: Frame, chunks: seq<bytes>)
    requires Counted(r, chunks) && Genuine(f, chunks) && |chunks| < TWO64
    ensures Counted(Deliver(r, f), chunks)
  {
    DeliverSound(r, f, chunks);
    if r.status == Running {
      assert Counted(Take(r, f), chunks);
      DrainCounts(Take(r, f), chunks);
      hide Drain, Sound;
    }
  }

  lemma {:induction false} RunCounts(recv: seq<Frame>, chunks: seq<bytes>)
    requires AllGenuine(recv, chunks) && |chunks| < TWO64
    ensures Counted(After(Unlimited, recv), chunks)
  {
    if recv == [] {
      assert chunks[..0] == [];
    } else {
      hide Deliver, Counted;
      var k := |recv| - 1;
      RunCounts(recv[..k], chunks);
      DeliverCounts(After(Unlimited, recv[..k]), recv[k], chunks);
    }
  }

  // ---------- one that fails ----------

  /** The reassembly to a destination that fails, beside the same one to a destination that does not: the same, until
      the write that fails, and then over. */
  ghost predicate Mirrors(b: Reorder, u: Reorder, sink: Sink)
    requires sink.Breaks?
  {
    && u.sink == Unlimited
    && if u.writes <= sink.at then b == u.(sink := sink) else b.status == Stopped
  }

  lemma {:induction false} DrainGrows(u: Reorder)
    ensures Drain(u).writes >= u.writes && Drain(u).sink == u.sink
    decreases |u.pending|
  {
    if u.status == Running && u.due in u.pending {
      assert |u.pending.Keys - {u.due}| < |u.pending.Keys|;
      DrainGrows(Emit(u));
    }
  }

  lemma {:induction false} DrainMirrors(b: Reorder, u: Reorder, sink: Sink)
    requires sink.Breaks? && Mirrors(b, u, sink)
    ensures Mirrors(Drain(b), Drain(u), sink)
    decreases |u.pending|
  {
    DrainGrows(u);
    if u.writes <= sink.at && u.status == Running && u.due in u.pending {
      assert |u.pending.Keys - {u.due}| < |u.pending.Keys|;
      DrainMirrors(Emit(b), Emit(u), sink);
    }
  }

  lemma TakeMirrors(b: Reorder, u: Reorder, sink: Sink, f: Frame)
    requires sink.Breaks? && Mirrors(b, u, sink) && u.writes <= sink.at
    ensures Mirrors(Take(b, f), Take(u, f), sink)
  {}

  lemma SettleMirrors(b: Reorder, u: Reorder, sink: Sink)
    requires sink.Breaks? && Mirrors(b, u, sink)
    ensures Mirrors(Settle(b), Settle(u), sink)
  {}

  lemma DeliverMirrors(b: Reorder, u: Reorder, sink: Sink, f: Frame)
    requires sink.Breaks? && Mirrors(b, u, sink)
    ensures Mirrors(Deliver(b, f), Deliver(u, f), sink)
  {
    hide Drain, Take, Settle;
    if u.writes > sink.at {
      DeliverGrows(u, f);
    } else if u.status == Running {
      TakeMirrors(b, u, sink, f);
      DrainMirrors(Take(b, f), Take(u, f), sink);
      hide Mirrors;
      SettleMirrors(Drain(Take(b, f)), Drain(Take(u, f)), sink);
    }
  }

  lemma DeliverGrows(u: Reorder, f: Frame)
    ensures Deliver(u, f).writes >= u.writes && Deliver(u, f).sink == u.sink
  {
    hide Drain;
    DrainGrows(Take(u, f));
  }

  lemma {:induction false} RunMirrors(sink: Sink, recv: seq<Frame>)
    requires sink.Breaks?
    ensures Mirrors(After(sink, recv), After(Unlimited, recv), sink)
  {
    if recv != [] {
      hide Deliver, Mirrors;
      var k := |recv| - 1;
      RunMirrors(sink, recv[..k]);
      DeliverMirrors(After(sink, recv[..k]), After(Unlimited, recv[..k]), sink, recv[k]);
    }
  }

  /** Over every run of genuine frames to any destination: the end is signalled if and only if everything has arrived,
      the table of waiting chunks was never full before, and the destination takes every write. */
  lemma ClosedWithSink(sink: Sink, recv: seq<Frame>, chunks: seq<bytes>)
    requires AllGenuine(recv, chunks) && |chunks| < TWO64
    ensures After(sink, recv).status == Closed <==>
            Complete(recv, |chunks|) && NeverOverfull(recv, |chunks|) && Enough(sink, chunks)
  {
    hide After, NeverOverfull, Complete, Settled;
    ClosedExactly(recv, chunks);
    RunCounts(recv, chunks);
    assert chunks[..|chunks|] == chunks;
    if sink.Breaks? {
      RunMirrors(sink, recv);
    }
  }
}
