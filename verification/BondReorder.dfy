/** Reassembly: frames of the lanes, in whatever order they arrive, become one stream again. */
module BondReorder {
  import opened Words
  import opened BondCodec
  import opened Runs
  import opened Sets

  const PENDING_CAP: nat := 1024

  datatype Fin = NoFin | FinAt(seqNo: uint64)

  datatype Status = Running | Closed | Stopped

  /** The destination either takes everything, or its write number `at` fails after `partial` bytes. */
  datatype Sink = Unlimited | Breaks(at: nat, partial: nat)

  datatype Reorder = Reorder(pending: map<uint64, bytes>, due: uint64, fin: Fin, out: bytes, writes: nat,
                             status: Status, sink: Sink)

  function Start(sink: Sink): Reorder {
    Reorder(map[], 0, NoFin, [], 0, Running, sink)
  }

  /** A frame taken from the channel. */
  function Take(r: Reorder, f: Frame): Reorder {
    if f.typ == DATA then
      if |r.pending| >= PENDING_CAP then r.(status := Stopped) else r.(pending := r.pending[f.seqNo := f.data])
    else if f.typ == FIN then
      if r.fin == NoFin || f.seqNo < r.fin.seqNo then r.(fin := FinAt(f.seqNo)) else r
    else
      r.(status := Stopped)
  }

  /** The next chunk written out; a write the destination refuses ends the reassembly. The count wraps. */
  function Emit(r: Reorder): Reorder
    requires r.due in r.pending
  {
    var data := r.pending[r.due];
    var left := r.pending - {r.due};
    if data == [] then
      r.(pending := left, due := Add64(r.due, 1))
    else if r.sink.Breaks? && r.writes == r.sink.at then
      r.(pending := left, out := r.out + Front(data, r.sink.partial), status := Stopped)
    else
      r.(pending := left, out := r.out + data, writes := r.writes + 1, due := Add64(r.due, 1))
  }

  /** The first `n` bytes, or all if there are fewer. */
  function Front(data: bytes, n: nat): (s: bytes)
    ensures s <= data && |s| <= n && (|s| == n || s == data)
  {
    if n < |data| then data[..n] else data
  }

  /** Every chunk that is next in line, written out. */
  function Drain(r: Reorder): (d: Reorder)
    ensures r.status != Running ==> d == r
    decreases |r.pending|
  {
    if r.status == Running && r.due in r.pending then
      assert |r.pending.Keys - {r.due}| < |r.pending.Keys|;
      Drain(Emit(r))
    else r
  }

  /** The stream ends when everything before the FIN is out. */
  function Settle(r: Reorder): Reorder {
    if r.status == Running && r.fin == FinAt(r.due) then r.(status := Closed) else r
  }

  function Deliver(r: Reorder, f: Frame): Reorder {
    if r.status == Running then Settle(Drain(Take(r, f))) else r
  }

  function After(sink: Sink, recv: seq<Frame>): Reorder {
    Run(Deliver, Start(sink), recv)
  }

  /** The inner loop: chunks go out while the next one is there. */
  method WriteReady(r: Reorder) returns (d: Reorder)
    requires r.status == Running
    ensures d == Drain(r)
  {
    d := r;
    while d.due in d.pending
      invariant d.status == Running && d.sink == r.sink
      invariant Drain(r) == Drain(d)
      decreases |d.pending|
    {
      var data := d.pending[d.due];
      ghost var last := d;
      assert |d.pending.Keys - {d.due}| < |d.pending.Keys|;
      d := d.(pending := d.pending - {d.due});
      if data != [] {
        if d.sink.Breaks? && d.writes == d.sink.at {
          d := d.(out := d.out + Front(data, d.sink.partial), status := Stopped);
          assert d == Emit(last);
          return;
        }
        d := d.(out := d.out + data, writes := d.writes + 1);
      }
      d := d.(due := Add64(d.due, 1));
      assert d == Emit(last);
    }
  }

  /** The reassembly loop: it ends with the state its frames lead to. */
  method Reassemble(sink: Sink, recv: seq<Frame>) returns (r: Reorder)
    ensures r == After(sink, recv)
  {
    hide Drain;
    r := Start(sink);
    var i := 0;
    assert recv[..0] == [];
    while i < |recv|
      invariant 0 <= i <= |recv|
      invariant r == After(sink, recv[..i]) && r.status == Running
    {
      var f := recv[i];
      RunNext(Deliver, Start(sink), recv, i);
      i := i + 1;
      if f.typ == DATA && |r.pending| < PENDING_CAP {
        r := r.(pending := r.pending[f.seqNo := f.data]);
      } else if f.typ == FIN {
        if r.fin == NoFin || f.seqNo < r.fin.seqNo {
          r := r.(fin := FinAt(f.seqNo));
        }
      } else {
        r := r.(status := Stopped);
        HaltStays(sink, recv, i);
        return;
      }
      r := WriteReady(r);
      if r.status == Running && r.fin == FinAt(r.due) {
        r := r.(status := Closed);
      }
      if r.status != Running {
        HaltStays(sink, recv, i);
        return;
      }
    }
    assert recv[..i] == recv;
  }

  lemma {:induction false} HaltStays(sink: Sink, recv: seq<Frame>, i: nat)
    requires i <= |recv| && After(sink, recv[..i]).status != Running
    ensures After(sink, recv) == After(sink, recv[..i])
    decreases |recv| - i
  {
    if i < |recv| {
      RunNext(Deliver, Start(sink), recv, i);
      HaltStays(sink, recv, i + 1);
    } else {
      assert recv[..i] == recv;
    }
  }

  // ---------------------------------------------------------------- one frame

  lemma {:induction false} DrainRests(r: Reorder)
    ensures Drain(r).status == Running ==> Drain(r).due !in Drain(r).pending
    decreases |r.pending|
  {
    if r.status == Running && r.due in r.pending {
      assert |r.pending.Keys - {r.due}| < |r.pending.Keys|;
      DrainRests(Emit(r));
    }
  }

  /** In every run, between two frames the chunk that is next in line does not wait. */
  lemma AtRest(sink: Sink, recv: seq<Frame>)
    ensures var r := After(sink, recv); r.status == Running ==> r.due !in r.pending
  {
    forall r: Reorder, f: Frame | r.status == Running ==> r.due !in r.pending
      ensures var t := Deliver(r, f); t.status == Running ==> t.due !in t.pending
    {
      DrainRests(Take(r, f));
    }
    hide Deliver;
    RunKeeps(Deliver, (r: Reorder) => r.status == Running ==> r.due !in r.pending, Start(sink), recv);
  }

  /** The reassembly ends at a frame of unknown type, and at a chunk when 1024 wait; once ended it does nothing. */
  lemma RefusedFrame(r: Reorder, f: Frame)
    ensures r.status != Running ==> Deliver(r, f) == r
    ensures r.status == Running && ((f.typ != 1 && f.typ != 2) || (f.typ == 1 && |r.pending| >= 1024)) ==>
              Deliver(r, f) == r.(status := Stopped)
  {}

  /** The lowest FIN counts, and closes the stream if everything before it is out. */
  lemma FinFrame(r: Reorder, f: Frame)
    requires r.status == Running && f.typ == 2 && r.due !in r.pending
    ensures var last := if r.fin.FinAt? && r.fin.seqNo <= f.seqNo then r.fin.seqNo else f.seqNo;
            Deliver(r, f) == r.(fin := FinAt(last), status := if last == r.due then Closed else Running)
  {}

  /** A chunk that is not next in line waits, in place of one of its number. */
  lemma EarlyFrame(r: Reorder, f: Frame)
    requires r.status == Running && f.typ == 1 && |r.pending| < 1024
    requires r.due !in r.pending && f.seqNo != r.due && r.fin != FinAt(r.due)
    ensures Deliver(r, f) == r.(pending := r.pending[f.seqNo := f.data])
  {}

  /** The chunk that is next in line is written, if the one behind it does not wait already. A write that fails leaves
      the bytes it got through and ends the reassembly. */
  lemma NextFrame(r: Reorder, f: Frame)
    requires r.status == Running && f.typ == 1 && |r.pending| < 1024 && f.seqNo == r.due && f.data != []
    requires r.due !in r.pending && Add64(r.due, 1) !in r.pending
    ensures var t := Deliver(r, f);
            if r.sink.Breaks? && r.sink.at == r.writes then
              t.out == r.out + Front(f.data, r.sink.partial) && t.status == Stopped
            else
              && (t.out, t.due, t.writes) == (r.out + f.data, Add64(r.due, 1), r.writes + 1)
              && t.pending == r.pending && t.fin == r.fin
              && t.status == if r.fin == FinAt(t.due) then Closed else Running
  {
    var taken := r.(pending := r.pending[f.seqNo := f.data]);
    var e := Emit(taken);
    assert taken.pending - {r.due} == r.pending;
    assert Drain(taken) == Drain(e) == e;
  }

  // ---------------------------------------------------------------- safety

  function Join(chunks: seq<bytes>): bytes {
    if chunks == [] then [] else Join(chunks[..|chunks| - 1]) + chunks[|chunks| - 1]
  }

  lemma JoinNext(chunks: seq<bytes>, k: nat)
    requires k < |chunks|
    ensures Join(chunks[..k + 1]) == Join(chunks[..k]) + chunks[k]
  {
    assert chunks[..k + 1][..k] == chunks[..k];
  }

  lemma {:induction false} JoinPrefix(chunks: seq<bytes>, k: nat)
    requires k <= |chunks|
    ensures Join(chunks[..k]) <= Join(chunks)
    decreases |chunks| - k
  {
    if k < |chunks| {
      JoinNext(chunks, k);
      JoinPrefix(chunks, k + 1);
    } else {
      assert chunks[..k] == chunks;
    }
  }

  /** A frame the peer sent for the stream cut into `chunks`. */
  ghost predicate Genuine(f: Frame, chunks: seq<bytes>) {
    || (f.typ == DATA && f.seqNo < |chunks| && f.data == chunks[f.seqNo])
    || (f.typ == FIN && f.seqNo == |chunks|)
  }

  ghost predicate AllGenuine(recv: seq<Frame>, chunks: seq<bytes>) {
    forall f | f in recv :: Genuine(f, chunks)
  }

  /** What has been written is the stream so far, and what is waiting belongs to it. */
  ghost predicate Sound(r: Reorder, chunks: seq<bytes>) {
    && (forall s | s in r.pending :: s < |chunks| && r.pending[s] == chunks[s])
    && r.due <= |chunks|
    && (r.fin.FinAt? ==> r.fin.seqNo == |chunks|)
    && (r.status != Stopped ==> r.out == Join(chunks[..r.due]))
    && (r.status == Closed ==> r.due == |chunks|)
    && r.out <= Join(chunks)
  }

  lemma EmitSound(r: Reorder, chunks: seq<bytes>)
    requires Sound(r, chunks) && r.status == Running && r.due in r.pending && |chunks| < TWO64
    ensures Sound(Emit(r), chunks)
  {
    JoinNext(chunks, r.due);
    JoinPrefix(chunks, r.due + 1);
    hide Join;
    var data := r.pending[r.due];
    assert r.out + data <= Join(chunks);
    assert data == [] ==> r.out + data == r.out;
    if r.sink.Breaks? {
      assert r.out + Front(data, r.sink.partial) <= r.out + data;
    }
  }

  lemma {:induction false} DrainSound(r: Reorder, chunks: seq<bytes>)
    requires Sound(r, chunks) && |chunks| < TWO64
    ensures Sound(Drain(r), chunks)
    decreases |r.pending|
  {
    if r.status == Running && r.due in r.pending {
      EmitSound(r, chunks);
      assert |r.pending.Keys - {r.due}| < |r.pending.Keys|;
      DrainSound(Emit(r), chunks);
    }
  }

  lemma DeliverSound(r: Reorder, f: Frame, chunks: seq<bytes>)
    requires Sound(r, chunks) && Genuine(f, chunks) && |chunks| < TWO64
    ensures Sound(Deliver(r, f), chunks)
  {
    if r.status == Running {
      DrainSound(Take(r, f), chunks);
      hide Drain;
      assert chunks[..|chunks|] == chunks;
    }
  }

  /** Whatever order genuine frames arrive in, and however often, the output is always a prefix of the stream
      the peer read, and the end is signalled only when it is all of it. */
  lemma {:induction false} OutputIsPrefix(sink: Sink, recv: seq<Frame>, chunks: seq<bytes>)
    requires AllGenuine(recv, chunks) && |chunks| < TWO64
    ensures var r := After(sink, recv);
            Sound(r, chunks) && r.out <= Join(chunks) && (r.status == Closed ==> r.out == Join(chunks))
  {
    hide Deliver;
    if recv != [] {
      OutputIsPrefix(sink, recv[..|recv| - 1], chunks);
      DeliverSound(After(sink, recv[..|recv| - 1]), recv[|recv| - 1], chunks);
    }
    assert chunks[..|chunks|] == chunks;
  }

  // ---------------------------------------------------------------- completeness

  /** The chunks that have arrived. */
  ghost function Seqs(recv: seq<Frame>): set<nat> {
    set f | f in recv && f.typ == DATA :: f.seqNo
  }

  ghost predicate HasFin(recv: seq<Frame>) {
    exists f :: f in recv && f.typ == FIN
  }

  ghost predicate UpTo(seqs: set<nat>, k: nat) {
    forall m: nat | m < k :: m in seqs
  }

  /** A chunk that is already written out. */
  ghost predicate Late(seqs: set<nat>, f: Frame) {
    f.typ == DATA && UpTo(seqs, f.seqNo + 1)
  }

  /** Chunks that arrived again after they had been written out: they are never removed. */
  ghost function Stale(recv: seq<Frame>): set<nat> {
    if recv == [] then {} else
      var k := |recv| - 1;
      var f := recv[k];
      Stale(recv[..k]) + (if Late(Seqs(recv[..k]), f) then {f.seqNo} else {})
  }

  /** Chunks held back because an earlier one is missing. */
  ghost function Held(recv: seq<Frame>): set<nat> {
    set s | s in Seqs(recv) && !UpTo(Seqs(recv), s)
  }

  ghost function Waiting(recv: seq<Frame>): set<nat> {
    Held(recv) + Stale(recv)
  }

  /** Everything up to the end is there. */
  ghost predicate Complete(recv: seq<Frame>, n: nat) {
    HasFin(recv) && UpTo(Seqs(recv), n)
  }

  /** Frame `j` arrives with the table of waiting chunks full and the stream still incomplete. */
  ghost predicate Overfull(recv: seq<Frame>, n: nat, j: nat) {
    j < |recv| && recv[j].typ == DATA && !Complete(recv[..j], n) && |Waiting(recv[..j])| >= PENDING_CAP
  }

  /** The table while chunks are taken out of it: those not yet due and the stale ones. */
  ghost predicate Tracks(r: Reorder, seqs: set<nat>, stale: set<nat>) {
    && UpTo(seqs, r.due)
    && (forall s | s in seqs :: s + 1 < TWO64)
    && (forall s | s in stale :: s < r.due)
    && (forall s: uint64 :: s in r.pending <==> (s in seqs && s >= r.due) || s in stale)
  }

  lemma EmitTracks(r: Reorder, seqs: set<nat>, stale: set<nat>)
    requires Tracks(r, seqs, stale) && r.status == Running && r.sink == Unlimited && r.due in r.pending
    ensures Tracks(Emit(r), seqs, stale)
  {
    assert r.due in seqs;
  }

  lemma {:induction false} DrainTracks(r: Reorder, seqs: set<nat>, stale: set<nat>)
    requires Tracks(r, seqs, stale) && r.status == Running && r.sink == Unlimited
    ensures var d := Drain(r);
            && Tracks(d, seqs, stale)
            && d.status == Running && d.fin == r.fin && d.sink == Unlimited && d.due !in seqs
    decreases |r.pending|
  {
    if r.due in r.pending {
      EmitTracks(r, seqs, stale);
      assert |r.pending.Keys - {r.due}| < |r.pending.Keys|;
      hide Tracks;
      DrainTracks(Emit(r), seqs, stale);
    } else {
      assert r.due !in seqs;
    }
  }

  /** The state is the one the arrivals alone determine. */
  ghost predicate Settled(r: Reorder, recv: seq<Frame>) {
    && Tracks(r, Seqs(recv), Stale(recv))
    && r.due !in Seqs(recv)
    && r.fin.FinAt? == HasFin(recv)
    && r.sink == Unlimited
  }

  lemma WaitingTable(r: Reorder, recv: seq<Frame>)
    requires Settled(r, recv)
    ensures r.pending.Keys == Waiting(recv)
  {
    hide Stale;
    var seqs := Seqs(recv);
    forall s | s in seqs
      ensures s >= r.due <==> !UpTo(seqs, s)
    {
      if s >= r.due {
        assert s > r.due;
      }
    }
  }

  lemma SeqsNext(recv: seq<Frame>, f: Frame)
    ensures Seqs(recv + [f]) == Seqs(recv) + (if f.typ == DATA then {f.seqNo} else {})
    ensures HasFin(recv + [f]) <==> HasFin(recv) || f.typ == FIN
  {
    var all := recv + [f];
    assert all[|recv|] == f;
    assert forall g | g in recv :: g in all;
    if HasFin(recv) {
      var g :| g in recv && g.typ == FIN;
      assert g in all;
    }
    assert forall g | g in all :: g in recv || g == f;
  }

  lemma StaleNext(recv: seq<Frame>, f: Frame)
    ensures Stale(recv + [f]) == Stale(recv) + (if Late(Seqs(recv), f) then {f.seqNo} else {})
  {
    hide Seqs, Late;
    assert (recv + [f])[..|recv|] == recv;
  }

  lemma TakeTracks(r: Reorder, seqs: set<nat>, stale: set<nat>, f: Frame)
    requires Tracks(r, seqs, stale) && r.due !in seqs
    requires f.typ == FIN || (f.typ == DATA && |r.pending| < PENDING_CAP && f.seqNo + 1 < TWO64)
    ensures var t := Take(r, f);
            && Tracks(t, seqs + (if f.typ == DATA then {f.seqNo} else {}),
                      stale + (if Late(seqs, f) then {f.seqNo} else {}))
            && t.status == r.status && t.sink == r.sink
            && (t.fin.FinAt? <==> r.fin.FinAt? || f.typ == FIN)
  {
    hide Late, Tracks, Take;
    TakeMeans(r, f);
    if f.typ == FIN {
      FinTracks(r, seqs, stale, f);
      NotLate(seqs, f);
      assert seqs + {} == seqs && stale + {} == stale;
    } else {
      InsertTracks(r, seqs, stale, f);
    }
  }

  lemma TakeMeans(r: Reorder, f: Frame)
    requires f.typ == FIN || (f.typ == DATA && |r.pending| < PENDING_CAP)
    ensures var t := Take(r, f);
            && t.status == r.status && t.sink == r.sink && (t.fin.FinAt? <==> r.fin.FinAt? || f.typ == FIN)
            && (f.typ == DATA ==> t == r.(pending := r.pending[f.seqNo := f.data]))
  {}

  lemma FinTracks(r: Reorder, seqs: set<nat>, stale: set<nat>, f: Frame)
    requires Tracks(r, seqs, stale) && f.typ == FIN
    ensures Tracks(Take(r, f), seqs, stale)
  {}

  lemma NotLate(seqs: set<nat>, f: Frame)
    ensures f.typ != DATA ==> !Late(seqs, f)
  {}

  lemma InsertTracks(r: Reorder, seqs: set<nat>, stale: set<nat>, f: Frame)
    requires Tracks(r, seqs, stale) && r.due !in seqs && f.typ == DATA && f.seqNo + 1 < TWO64
    ensures Tracks(r.(pending := r.pending[f.seqNo := f.data]), seqs + {f.seqNo},
                   stale + (if Late(seqs, f) then {f.seqNo} else {}))
  {
    assert Late(seqs, f) <==> f.seqNo < r.due;
    assert UpTo(seqs + {f.seqNo}, r.due);
    hide UpTo, Late;
    if f.seqNo < r.due {
      assert Tracks(r.(pending := r.pending[f.seqNo := f.data]), seqs + {f.seqNo}, stale + {f.seqNo});
    } else {
      assert stale + {} == stale;
    }
  }

  lemma StepTracks(r: Reorder, recv: seq<Frame>, f: Frame)
    requires Settled(r, recv) && r.status == Running
    requires f.typ == FIN || (f.typ == DATA && |r.pending| < PENDING_CAP && f.seqNo + 1 < TWO64)
    ensures var d := Drain(Take(r, f)); Settled(d, recv + [f]) && d.status == Running
  {
    hide Drain, Take, Tracks, Seqs, HasFin, Stale, Late;
    SeqsNext(recv, f);
    StaleNext(recv, f);
    TakeTracks(r, Seqs(recv), Stale(recv), f);
    DrainTracks(Take(r, f), Seqs(recv + [f]), Stale(recv + [f]));
  }

  lemma AllThere(d: Reorder, seqs: set<nat>, stale: set<nat>, n: nat)
    requires Tracks(d, seqs, stale) && d.due !in seqs && d.due <= n
    ensures UpTo(seqs, n) <==> d.due == n
  {}

  /** What one more frame does to the reassembly. */
  lemma DeliverTracks(r: Reorder, recv: seq<Frame>, f: Frame, chunks: seq<bytes>)
    requires Settled(r, recv) && r.status == Running && Sound(r, chunks) && Genuine(f, chunks) && |chunks| < TWO64
    ensures var d := Deliver(r, f);
            if f.typ == DATA && |Waiting(recv)| >= PENDING_CAP then d.status == Stopped
            else Settled(d, recv + [f]) && d.status == (if Complete(recv + [f], |chunks|) then Closed else Running)
  {
    hide Drain, Waiting, Stale, Seqs, HasFin, Tracks, UpTo;
    WaitingTable(r, recv);
    if f.typ == FIN || |r.pending| < PENDING_CAP {
      StepTracks(r, recv, f);
      DrainSound(Take(r, f), chunks);
      var d := Drain(Take(r, f));
      AllThere(d, Seqs(recv + [f]), Stale(recv + [f]), |chunks|);
      assert Tracks(Settle(d), Seqs(recv + [f]), Stale(recv + [f])) by {
        SettleTracks(d, Seqs(recv + [f]), Stale(recv + [f]));
      }
    }
  }

  lemma SettleTracks(d: Reorder, seqs: set<nat>, stale: set<nat>)
    requires Tracks(d, seqs, stale)
    ensures Tracks(Settle(d), seqs, stale)
  {}

  lemma NothingYet(n: nat)
    ensures Settled(Start(Unlimited), []) && !Complete([], n)
  {}

  lemma StaysComplete(recv: seq<Frame>, f: Frame, n: nat)
    ensures Complete(recv, n) ==> Complete(recv + [f], n)
  {
    SeqsNext(recv, f);
  }

  ghost predicate NeverOverfull(recv: seq<Frame>, n: nat) {
    forall j: nat | j < |recv| :: !Overfull(recv, n, j)
  }

  /** Over every run of genuine frames, repeated ones included, to a destination that takes its bytes: the end is
      signalled exactly when everything has arrived and the table of waiting chunks was never full before. The
      table holds exactly the chunks with a predecessor missing and the late repeats. */
  lemma {:induction false} ClosedExactly(recv: seq<Frame>, chunks: seq<bytes>)
    requires AllGenuine(recv, chunks) && |chunks| < TWO64
    ensures var r := After(Unlimited, recv);
            && (r.status == Stopped <==> !NeverOverfull(recv, |chunks|))
            && (r.status == Closed <==> Complete(recv, |chunks|) && NeverOverfull(recv, |chunks|))
            && (r.status == Running ==> Settled(r, recv))
  {
    hide Take, Drain, Settle, Waiting, Settled, Complete;
    if recv == [] {
      NothingYet(|chunks|);
    } else {
      var k := |recv| - 1;
      var before, f := recv[..k], recv[k];
      ClosedExactly(before, chunks);
      OutputIsPrefix(Unlimited, before, chunks);
      assert recv == before + [f];
      forall j: nat | j < k
        ensures Overfull(recv, |chunks|, j) <==> Overfull(before, |chunks|, j)
      {
        assert recv[..j] == before[..j];
      }
      var r := After(Unlimited, before);
      StaysComplete(before, f, |chunks|);
      assert recv[..k] == before;
      assert NeverOverfull(recv, |chunks|) <==> NeverOverfull(before, |chunks|) && !Overfull(recv, |chunks|, k);
      if r.status == Running {
        DeliverTracks(r, before, f, chunks);
      }
    }
  }

  ghost predicate OnceEach(recv: seq<Frame>) {
    forall i, j | 0 <= i < j < |recv| && recv[i].typ == DATA && recv[j].typ == DATA :: recv[i].seqNo != recv[j].seqNo
  }

  ghost function Below(n: nat): (s: set<nat>)
    ensures |s| == n && forall m: nat :: m in s <==> m < n
  {
    if n == 0 then {} else Below(n - 1) + {n - 1}
  }

  lemma {:induction false} WaitingArrived(recv: seq<Frame>)
    ensures Waiting(recv) <= Seqs(recv)
  {
    if recv != [] {
      var k := |recv| - 1;
      WaitingArrived(recv[..k]);
      assert recv == recv[..k] + [recv[k]];
      SeqsNext(recv[..k], recv[k]);
    }
  }

  lemma RoomLeft(recv: seq<Frame>, chunks: seq<bytes>, j: nat)
    requires AllGenuine(recv, chunks) && OnceEach(recv) && j < |recv| && recv[j].typ == DATA
    ensures |Waiting(recv[..j])| < |chunks|
  {
    hide Waiting;
    var others := Below(|chunks|) - {recv[j].seqNo};
    assert Genuine(recv[j], chunks);
    forall s | s in Seqs(recv[..j])
      ensures s in others
    {
      var f :| f in recv[..j] && f.typ == DATA && f.seqNo == s;
      assert f in recv && Genuine(f, chunks);
    }
    WaitingArrived(recv[..j]);
    SubsetSize(Waiting(recv[..j]), others);
  }

  /** A stream of at most `PENDING_CAP` chunks is put together from any order of its frames, once each. */
  lemma AnyOrder(recv: seq<Frame>, chunks: seq<bytes>)
    requires AllGenuine(recv, chunks) && OnceEach(recv) && Complete(recv, |chunks|) && |chunks| <= PENDING_CAP
    ensures var r := After(Unlimited, recv); r.status == Closed && r.out == Join(chunks)
  {
    hide Waiting, After, OnceEach, AllGenuine;
    forall j: nat | j < |recv|
      ensures !Overfull(recv, |chunks|, j)
    {
      if recv[j].typ == DATA {
        RoomLeft(recv, chunks, j);
      }
    }
    ClosedExactly(recv, chunks);
    OutputIsPrefix(Unlimited, recv, chunks);
  }

  lemma {:induction false} SeqsBelow(recv: seq<Frame>, chunks: seq<bytes>)
    requires AllGenuine(recv, chunks)
    ensures Seqs(recv) <= Below(|chunks|)
  {
    forall s | s in Seqs(recv)
      ensures s in Below(|chunks|)
    {
      var f :| f in recv && f.typ == DATA && f.seqNo == s;
      assert Genuine(f, chunks);
    }
  }

  /** A stream of fewer than `PENDING_CAP` chunks never fills the table, in any order and with any repeats: the end is
      signalled exactly when everything has arrived. */
  lemma FewAlwaysFit(recv: seq<Frame>, chunks: seq<bytes>)
    requires AllGenuine(recv, chunks) && |chunks| < PENDING_CAP
    ensures NeverOverfull(recv, |chunks|)
    ensures After(Unlimited, recv).status == Closed <==> Complete(recv, |chunks|)
  {
    hide Waiting, After, Seqs, Complete;
    forall j: nat | j < |recv|
      ensures !Overfull(recv, |chunks|, j)
    {
      WaitingArrived(recv[..j]);
      SeqsBelow(recv[..j], chunks);
      SubsetSize(Waiting(recv[..j]), Below(|chunks|));
    }
    ClosedExactly(recv, chunks);
  }

  /** With chunk 0 missing everything that arrives waits, and the frame after 1024 different chunks ends it. */
  lemma GapStops(recv: seq<Frame>, chunks: seq<bytes>, j: nat)
    requires AllGenuine(recv, chunks) && 0 < |chunks| < TWO64 && 0 !in Seqs(recv)
    requires j < |recv| && recv[j].typ == DATA && |Seqs(recv[..j])| >= PENDING_CAP
    ensures After(Unlimited, recv).status == Stopped
  {
    hide After, Stale;
    var front := recv[..j];
    assert forall f | f in front :: f in recv;
    assert 0 !in Seqs(front);
    forall s | s in Seqs(front)
      ensures s in Held(front)
    {
      assert 0 < s;
    }
    SubsetSize(Seqs(front), Waiting(front));
    assert Overfull(recv, |chunks|, j);
    ClosedExactly(recv, chunks);
  }

  ghost predicate AllData(recv: seq<Frame>) {
    forall f | f in recv :: f.typ == DATA
  }

  lemma {:induction false} DistinctCount(recv: seq<Frame>)
    requires OnceEach(recv) && AllData(recv)
    ensures |Seqs(recv)| == |recv|
  {
    if recv != [] {
      var k := |recv| - 1;
      var before, f := recv[..k], recv[k];
      assert recv == before + [f] && f in recv;
      assert forall g | g in before :: g in recv;
      DistinctCount(before);
      SeqsNext(before, f);
      assert f.seqNo !in Seqs(before);
    }
  }

  /** Chunks 1 to 1025 without chunk 0. */
  function AllButFirst(chunks: seq<bytes>): (recv: seq<Frame>)
    requires 1026 <= |chunks| < TWO64
    ensures |recv| == 1025 && forall i | 0 <= i < 1025 :: recv[i] == Frame(DATA, i + 1, chunks[i + 1])
  {
    seq(1025, i requires 0 <= i < 1025 => Frame(DATA, i + 1, chunks[i + 1]))
  }

  /** The reassembly of any stream of at least 1026 chunks gives up when these arrive. */
  lemma FirstMissing(chunks: seq<bytes>)
    requires 1026 <= |chunks| < TWO64
    ensures After(Unlimited, AllButFirst(chunks)).status == Stopped
  {
    var recv := AllButFirst(chunks);
    var front := recv[..1024];
    DistinctCount(front);
    GapStops(recv, chunks, 1024);
  }
}
