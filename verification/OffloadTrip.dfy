/** Send and receive offload together. */
module OffloadTrip {
  import opened Words
  import opened GsoCoalesce
  import opened GsoMeaning
  import opened GroSplit

  /** `r` is the message of group `g` as it comes in when its segments are received coalesced. */
  ghost predicate Carries(r: Received, addr: int, g: seq<Buf>, from: int) {
    var m := Render(addr, g);
    && r.addr == from && r.n <= |r.buf| && r.buf[..r.n] == m.data
    && r.gso == Size(if m.gso == [] then 0 else m.gso[|m.gso| - 1])
  }

  ghost predicate CarryAll(rs: seq<Received>, addr: int, gs: seq<seq<Buf>>, from: int) {
    |rs| == |gs| && forall i | 0 <= i < |rs| :: Carries(rs[i], addr, gs[i], from)
  }

  lemma {:induction false} PiecesNext(ms: seq<Received>, m: Received)
    ensures AllPieces(ms + [m]) == AllPieces(ms) + Cut(m)
  {
    hide Cut;
    if ms == [] {
      assert ms + [m] == [m];
    } else {
      assert (ms + [m])[1..] == ms[1..] + [m];
      PiecesNext(ms[1..], m);
    }
  }

  /** The receiver cuts a message as the sender's segmentation did: the recorded size never exceeds its length. */
  lemma CutCarried(r: Received, addr: int, g: seq<Buf>, from: int, maxPayload: nat)
    requires Carries(r, addr, g, from) && Legal(g, maxPayload) && maxPayload < TWO16
    ensures Cut(r) == Tagged(Pieces(Render(addr, g)), from)
  {
    hide Chunks;
    PayloadFront(g);
    LegalLimits(addr, g, maxPayload);
    OneChunk(Payload(g));
  }

  lemma OneChunk(d: bytes)
    ensures Chunks(d, 0) == [d]
  {}

  lemma {:induction false} PiecesDelivered(rs: seq<Received>, addr: int, gs: seq<seq<Buf>>, from: int, maxPayload: nat)
    requires CarryAll(rs, addr, gs, from) && AllLegal(gs, maxPayload) && maxPayload < TWO16
    ensures AllPieces(rs) == Tagged(Cuts(RenderAll(addr, gs)), from)
  {
    hide Cut, Carries, Pieces, Legal, Render;
    if rs != [] {
      var k := |rs| - 1;
      PiecesDelivered(rs[..k], addr, gs[..k], from, maxPayload);
      assert rs == rs[..k] + [rs[k]] && gs[k] in gs;
      PiecesNext(rs[..k], rs[k]);
      CutCarried(rs[k], addr, gs[k], from, maxPayload);
      CutsNext(addr, gs, k);
      hide AllPieces, RenderAll, Cuts;
      var a, b := Cuts(RenderAll(addr, gs[..k])), Pieces(Render(addr, gs[k]));
      assert Tagged(a + b, from) == Tagged(a, from) + Tagged(b, from);
    }
  }

  /** No message is cut into more than 64 pieces. */
  lemma AtMost64(r: Received, addr: int, g: seq<Buf>, from: int, maxPayload: nat)
    requires Carries(r, addr, g, from) && Legal(g, maxPayload) && maxPayload < TWO16
    ensures |Cut(r)| <= MAX_DATAGRAMS
  {
    CutCarried(r, addr, g, from, maxPayload);
    GroupRestored(addr, g, maxPayload);
    hide Pieces, Cut;
  }

  ghost predicate NonEmpty(bufs: seq<Buf>) {
    forall b | b in bufs :: b.data != []
  }

  /** A group with something in its message and nothing lost has no empty datagram, and the other way round. */
  lemma GroupNonEmpty(g: seq<Buf>, maxPayload: nat)
    requires Legal(g, maxPayload)
    ensures NonEmpty(g) <==> Intact(g) && Payload(g) != []
  {
    PayloadFront(g);
    assert g[0] in g && g[|g| - 1] in g;
    if |g| == 1 {
      assert g[1..] == [];
    } else if Intact(g) {
      forall b | b in g
        ensures b.data != []
      {
        var i :| 0 <= i < |g| && g[i] == b;
        assert i < |g| - 1 ==> |g[i].data| == |g[0].data|;
      }
    }
  }

  lemma {:induction false} FlattenNonEmpty(gs: seq<seq<Buf>>)
    ensures NonEmpty(Flatten(gs)) <==> forall g: seq<Buf> | g in gs :: NonEmpty(g)
  {
    if gs != [] {
      var k := |gs| - 1;
      FlattenNonEmpty(gs[..k]);
      BothNonEmpty(Flatten(gs[..k]), gs[k]);
      hide NonEmpty;
      assert gs == gs[..k] + [gs[k]];
      assert forall g: seq<Buf> :: g in gs <==> g in gs[..k] || g == gs[k];
    }
  }

  lemma BothNonEmpty(a: seq<Buf>, b: seq<Buf>)
    ensures NonEmpty(a + b) <==> NonEmpty(a) && NonEmpty(b)
  {
    assert forall x :: x in a + b <==> x in a || x in b;
  }

  /** Groups are not empty, so fewer of them hold fewer datagrams. */
  lemma {:induction false} FlattenShorter(gs: seq<seq<Buf>>, m: nat)
    requires m <= |gs| && forall g: seq<Buf> | g in gs :: g != []
    ensures |Flatten(gs[..m])| + (|gs| - m) <= |Flatten(gs)|
    decreases |gs| - m
  {
    if m < |gs| {
      FlattenShorter(gs, m + 1);
      assert gs[..m + 1] == gs[..m] + [gs[m]];
      FlattenNext(gs[..m], gs[m]);
      assert gs[m] in gs;
    } else {
      assert gs[..m] == gs;
    }
  }

  /** The messages read are a front of those that arrive, all of them if none is empty. */
  lemma ReadFront(rs: seq<Received>, idle: seq<Received>)
    requires (forall r | r in rs :: r.gso.Size?) && (forall r | r in idle :: r.n == 0)
    ensures var m := |Readable(rs + idle)|;
            m <= |rs| && Readable(rs + idle) == rs[..m] && (m < |rs| ==> rs[m].n == 0)
  {
    hide Readable;
    var all := rs + idle;
    var m := |Readable(all)|;
    assert forall i | |rs| <= i < |all| :: all[i] == idle[i - |rs|];
    assert forall i | 0 <= i < m :: Readable(all)[i] in Readable(all) && all[i] == Readable(all)[i];
    FrontEnds(all, m, |rs|);
    if m < |rs| {
      assert all[m] == rs[m] && rs[m] in rs;
    }
  }

  lemma FrontEnds(all: seq<Received>, m: nat, k: nat)
    requires m <= |all| && k <= |all|
    requires (forall i | 0 <= i < m :: all[i].n > 0) && (forall i | k <= i < |all| :: all[i].n == 0)
    ensures m <= k
  {
    assert k < |all| ==> all[k].n == 0;
  }

  lemma NeverTooMany(rs: seq<Received>, addr: int, gs: seq<seq<Buf>>, from: int, maxPayload: nat,
                     idle: seq<Received>, slots: nat, readAt: nat)
    requires CarryAll(rs, addr, gs, from) && AllLegal(gs, maxPayload) && maxPayload < TWO16
    requires forall r | r in idle :: r.n == 0
    requires readAt == slots - slots / MAX_DATAGRAMS && readAt + |rs| + |idle| <= slots
    ensures Split(rs + idle, readAt, 0).1 == Done
    ensures Split(rs + idle, readAt, 0).0 == AllPieces(Readable(rs + idle))
  {
    hide Split, Readable, Legal, Cut, Carries;
    assert forall i | 0 <= i < |rs| :: rs[i].gso.Size? by { Sized(rs, addr, gs, from); }
    ReadFront(rs, idle);
    var read := Readable(rs + idle);
    forall r | r in read
      ensures |Cut(r)| <= MAX_DATAGRAMS
    {
      var i :| 0 <= i < |read| && read[i] == r;
      assert gs[i] in gs && rs[i] == r;
      AtMost64(r, addr, gs[i], from, maxPayload);
    }
    BatchNeverOverflows(rs + idle, slots, readAt);
    SplitIsComplete(rs + idle, readAt, 0);
    SplitStops(rs + idle, readAt, 0);
  }

  lemma Sized(rs: seq<Received>, addr: int, gs: seq<seq<Buf>>, from: int)
    requires CarryAll(rs, addr, gs, from)
    ensures forall i | 0 <= i < |rs| :: rs[i].gso.Size?
  {
    forall i | 0 <= i < |rs|
      ensures rs[i].gso.Size?
    {
      assert Carries(rs[i], addr, gs[i], from);
    }
  }

  lemma CarriedLength(r: Received, addr: int, g: seq<Buf>, from: int)
    requires Carries(r, addr, g, from)
    ensures r.n == |Payload(g)|
  {}

  /** Sending with offload and receiving with it, into the last slots the bind reads into: the split delivers exactly
      the datagrams that were coalesced, in order, if and only if none of them is empty. */
  lemma OffloadRoundTrip(addr: int, is6: bool, bufs: seq<Buf>, rs: seq<Received>, from: int,
                         idle: seq<Received>, slots: nat, readAt: nat)
    requires CarryAll(rs, addr, Group(bufs, MaxPayload(is6)).All(), from)
    requires forall r | r in idle :: r.n == 0
    requires readAt == slots - slots / MAX_DATAGRAMS && readAt + |rs| + |idle| <= slots
    ensures Split(rs + idle, readAt, 0) == (Tagged(Datas(bufs), from), Done) <==> NonEmpty(bufs)
  {
    var maxPayload := MaxPayload(is6);
    var gs := Group(bufs, maxPayload).All();
    GroupPartitions(bufs, maxPayload);
    GroupsLegal(bufs, maxPayload);
    hide Group, Split, Legal, Carries;
    NeverTooMany(rs, addr, gs, from, maxPayload, idle, slots, readAt);
    Sized(rs, addr, gs, from);
    ReadFront(rs, idle);
    ReadCounts(rs, addr, gs, from, maxPayload, |Readable(rs + idle)|);
    FlattenNonEmpty(gs);
  }

  /** Cutting the first `m` messages yields everything if and only if nothing is empty, when an empty message is what
      stopped the reading. */
  lemma ReadCounts(rs: seq<Received>, addr: int, gs: seq<seq<Buf>>, from: int, maxPayload: nat, m: nat)
    requires CarryAll(rs, addr, gs, from) && AllLegal(gs, maxPayload) && maxPayload < TWO16
    requires m <= |rs| && (m < |rs| ==> rs[m].n == 0) && forall i | 0 <= i < m :: rs[i].n > 0
    ensures AllPieces(rs[..m]) == Tagged(Datas(Flatten(gs)), from) <==> forall g: seq<Buf> | g in gs :: NonEmpty(g)
  {
    hide Legal, Carries, Cut, Cuts, AllPieces, Intact, NonEmpty;
    var front := gs[..m];
    PiecesDelivered(rs[..m], addr, front, from, maxPayload);
    CutsOfGroups(addr, front, maxPayload);
    forall g: seq<Buf> | g in gs
      ensures g != []
    {
      LegalNotEmpty(g, maxPayload);
    }
    FlattenShorter(gs, m);
    hide Flatten;
    forall i | 0 <= i < |gs|
      ensures gs[i] in gs && gs[i] != [] && (NonEmpty(gs[i]) <==> Intact(gs[i]) && rs[i].n > 0)
    {
      assert gs[i] in gs;
      GroupNonEmpty(gs[i], maxPayload);
      CarriedLength(rs[i], addr, gs[i], from);
    }
    if m < |gs| {
      assert !NonEmpty(gs[m]) && gs[m] in gs;
    } else {
      assert front == gs;
      AllNonEmpty(rs, gs);
    }
  }

  lemma AllNonEmpty(rs: seq<Received>, gs: seq<seq<Buf>>)
    requires |rs| == |gs| && (forall g: seq<Buf> | g in gs :: g != []) && forall i | 0 <= i < |gs| :: rs[i].n > 0
    requires forall i | 0 <= i < |gs| :: gs[i] in gs && (NonEmpty(gs[i]) <==> Intact(gs[i]) && rs[i].n > 0)
    ensures AllIntact(gs) <==> forall g: seq<Buf> | g in gs :: NonEmpty(g)
  {
    hide Intact, NonEmpty;
    forall g: seq<Buf> | g in gs
      ensures Intact(g) <==> NonEmpty(g)
    {
      var i :| 0 <= i < |gs| && gs[i] == g;
    }
  }
}
