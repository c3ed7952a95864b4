/** What the receivers get from coalesced messages, and when it is what was handed in. */
module GsoMeaning {
  import opened Words
  import opened GsoCoalesce

  function Datas(g: seq<Buf>): (r: seq<bytes>)
    ensures |r| == |g| && forall i | 0 <= i < |g| :: r[i] == g[i].data
  {
    seq(|g|, i requires 0 <= i < |g| => g[i].data)
  }

  /** How the kernel cuts a message: pieces of the recorded size, the last one shorter. */
  function Chunks(d: bytes, size: nat): (r: seq<bytes>)
    decreases |d|
  {
    if size == 0 || |d| <= size then [d] else [d[..size]] + Chunks(d[size..], size)
  }

  /** A datagram with the address it goes to, or comes from. */
  datatype Datagram = Datagram(data: bytes, addr: int)

  function Tagged(ds: seq<bytes>, addr: int): (r: seq<Datagram>)
    ensures |r| == |ds| && forall i | 0 <= i < |ds| :: r[i] == Datagram(ds[i], addr)
  {
    seq(|ds|, i requires 0 <= i < |ds| => Datagram(ds[i], addr))
  }

  function Pieces(m: Message): seq<bytes> {
    if m.gso == [] then [m.data] else Chunks(m.data, m.gso[|m.gso| - 1])
  }

  lemma {:induction false} PayloadFront(g: seq<Buf>)
    requires g != []
    ensures Payload(g) == g[0].data + Payload(g[1..])
  {
    if |g| > 1 {
      PayloadFront(g[..|g| - 1]);
      assert g[1..][..|g| - 2] == g[..|g| - 1][1..];
    }
  }

  /** Equal pieces followed by a non-empty one that is no larger are cut back into themselves. */
  lemma {:induction false} CutRestores(g: seq<Buf>, size: nat)
    requires g != [] && size > 0 && (forall i | 0 <= i < |g| - 1 :: |g[i].data| == size)
    requires 0 < |g[|g| - 1].data| <= size
    ensures Chunks(Payload(g), size) == Datas(g)
  {
    PayloadFront(g);
    if |g| == 1 {
      assert g[1..] == [];
      assert Payload(g) == g[0].data;
    } else {
      CutRestores(g[1..], size);
      PayloadFront(g[1..]);
      assert Datas(g) == [g[0].data] + Datas(g[1..]);
      assert Payload(g)[..size] == g[0].data && Payload(g)[size..] == Payload(g[1..]);
    }
  }

  /** An empty datagram at the end of a group leaves no trace in its message. */
  lemma LostDatagram(g: seq<Buf>, size: nat)
    requires |g| > 1 && size > 0 && (forall i | 0 <= i < |g| - 1 :: |g[i].data| == size) && g[|g| - 1].data == []
    ensures Chunks(Payload(g), size) == Datas(g[..|g| - 1])
  {
    assert Payload(g) == Payload(g[..|g| - 1]);
    CutRestores(g[..|g| - 1], size);
  }

  /** A group whose datagrams all leave a trace: a single one, or several of which the last is not empty. */
  predicate Intact(g: seq<Buf>)
    requires g != []
  {
    |g| == 1 || g[|g| - 1].data != []
  }

  /** Cutting a group's message by its recorded size gives back its datagrams, unless it holds several and
      the last of them is empty: then at least one is lost. */
  lemma GroupRestored(addr: int, g: seq<Buf>, maxPayload: nat)
    requires Legal(g, maxPayload) && maxPayload < TWO16
    ensures Pieces(Render(addr, g)) == Datas(g) <==> Intact(g)
    ensures !Intact(g) ==> |Pieces(Render(addr, g))| < |g|
  {
    PayloadFront(g);
    if |g| == 1 {
      assert g[1..] == [];
      assert Payload(g) == g[0].data;
    } else if g[0].data == [] {
      assert |Pieces(Render(addr, g))| == 1;
    } else if g[|g| - 1].data == [] {
      LostDatagram(g, |g[0].data|);
      assert |Datas(g[..|g| - 1])| < |Datas(g)|;
    } else {
      CutRestores(g, |g[0].data|);
    }
  }

  /** The pieces of messages `ms`, in order. */
  function Cuts(ms: seq<Message>): seq<bytes> {
    if ms == [] then [] else Cuts(ms[..|ms| - 1]) + Pieces(ms[|ms| - 1])
  }

  lemma CutsNext(addr: int, gs: seq<seq<Buf>>, k: nat)
    requires |gs| == k + 1
    ensures Cuts(RenderAll(addr, gs)) == Cuts(RenderAll(addr, gs[..k])) + Pieces(Render(addr, gs[k]))
  {
    assert RenderAll(addr, gs)[..k] == RenderAll(addr, gs[..k]);
  }

  lemma DatasAppend(a: seq<Buf>, b: seq<Buf>)
    ensures Datas(a + b) == Datas(a) + Datas(b)
  {
  }

  ghost predicate AllLegal(gs: seq<seq<Buf>>, maxPayload: nat) {
    forall g: seq<Buf> | g in gs :: Legal(g, maxPayload)
  }

  ghost predicate AllIntact(gs: seq<seq<Buf>>) {
    forall g: seq<Buf> | g in gs :: g != [] && Intact(g)
  }

  lemma {:induction false} CutsOfGroups(addr: int, gs: seq<seq<Buf>>, maxPayload: nat)
    requires maxPayload < TWO16 && AllLegal(gs, maxPayload)
    ensures |Cuts(RenderAll(addr, gs))| <= |Flatten(gs)|
    ensures AllIntact(gs) ==> Cuts(RenderAll(addr, gs)) == Datas(Flatten(gs))
    ensures !AllIntact(gs) ==> |Cuts(RenderAll(addr, gs))| < |Flatten(gs)|
  {
    hide Legal, Intact, Pieces, Render;
    if gs != [] {
      var k := |gs| - 1;
      assert gs == gs[..k] + [gs[k]];
      assert Legal(gs[k], maxPayload);
      LegalNotEmpty(gs[k], maxPayload);
      CutsOfGroups(addr, gs[..k], maxPayload);
      CutsNext(addr, gs, k);
      GroupRestored(addr, gs[k], maxPayload);
      DatasAppend(Flatten(gs[..k]), gs[k]);
    }
  }

  lemma LegalNotEmpty(g: seq<Buf>, maxPayload: nat)
    requires Legal(g, maxPayload)
    ensures g != []
  {}

  /** Datagram `i` is empty and joins the message open when its turn comes. */
  ghost predicate JoinsEmpty(bufs: seq<Buf>, maxPayload: nat, i: nat) {
    0 < i < |bufs| && bufs[i].data == [] && Joins(Group(bufs[..i], maxPayload).open, bufs[i], maxPayload)
  }

  ghost predicate NoneJoinsEmpty(bufs: seq<Buf>, maxPayload: nat) {
    forall i: nat | i < |bufs| :: !JoinsEmpty(bufs, maxPayload, i)
  }

  /** Placing a datagram keeps every group intact unless an empty one joins. */
  lemma PlaceIntact(st: Grouping, b: Buf, maxPayload: nat)
    requires AllLegal(st.All(), maxPayload)
    ensures AllIntact(st.Place(b, maxPayload).All()) <==>
            AllIntact(st.All()) && !(st.open != [] && b.data == [] && Joins(st.open, b, maxPayload))
  {
    var t := st.Place(b, maxPayload);
    assert forall g: seq<Buf> | g in st.closed :: g in st.All();
    if st.open != [] && Joins(st.open, b, maxPayload) {
      assert st.open in st.All() && Legal(st.open, maxPayload);
      assert t.All() == st.closed + [st.open + [b]];
      assert Intact(st.open + [b]) <==> b.data != [];
      assert b.data != [] ==> Intact(st.open);
      assert st.open + [b] in t.All();
    } else {
      assert t.All() == st.All() + [[b]];
    }
  }

  lemma {:induction false} IntactExactly(bufs: seq<Buf>, maxPayload: nat)
    ensures AllIntact(Group(bufs, maxPayload).All()) <==> NoneJoinsEmpty(bufs, maxPayload)
  {
    hide Joins, AllIntact;
    if bufs == [] {
      NoGroups(maxPayload);
    } else {
      var k := |bufs| - 1;
      var before := bufs[..k];
      IntactExactly(before, maxPayload);
      GroupsLegal(before, maxPayload);
      PlaceIntact(Group(before, maxPayload), bufs[k], maxPayload);
      forall i: nat | i < k
        ensures JoinsEmpty(bufs, maxPayload, i) <==> JoinsEmpty(before, maxPayload, i)
      {
        assert before[..i] == bufs[..i];
      }
      assert NoneJoinsEmpty(bufs, maxPayload) <==>
             NoneJoinsEmpty(before, maxPayload) && !JoinsEmpty(bufs, maxPayload, k);
    }
  }

  lemma NoGroups(maxPayload: nat)
    ensures AllIntact(Group([], maxPayload).All())
  {}

  /** What the network delivers of messages `ms`: each piece to its message's address. */
  function Delivered(ms: seq<Message>): seq<Datagram> {
    if ms == [] then [] else Delivered(ms[..|ms| - 1]) + Tagged(Pieces(ms[|ms| - 1]), ms[|ms| - 1].addr)
  }

  lemma TaggedAppend(a: seq<bytes>, b: seq<bytes>, addr: int)
    ensures Tagged(a + b, addr) == Tagged(a, addr) + Tagged(b, addr)
  {}

  lemma TaggedOnce(a: seq<bytes>, b: seq<bytes>, addr: int)
    ensures Tagged(a, addr) == Tagged(b, addr) <==> a == b
  {
    if Tagged(a, addr) == Tagged(b, addr) {
      assert forall i | 0 <= i < |a| :: Tagged(a, addr)[i].data == a[i];
    }
  }

  lemma {:induction false} OneAddress(addr: int, gs: seq<seq<Buf>>)
    ensures Delivered(RenderAll(addr, gs)) == Tagged(Cuts(RenderAll(addr, gs)), addr)
  {
    hide Pieces;
    if gs != [] {
      var k := |gs| - 1;
      OneAddress(addr, gs[..k]);
      assert RenderAll(addr, gs)[..k] == RenderAll(addr, gs[..k]);
      TaggedAppend(Cuts(RenderAll(addr, gs[..k])), Pieces(Render(addr, gs[k])), addr);
    }
  }

  /** What is delivered of the coalesced messages is exactly the datagrams handed in, in order and each to the address
      asked for, if and only if no empty datagram joins a message: it would be lost. */
  lemma OffloadPreservesExactly(addr: int, is6: bool, bufs: seq<Buf>)
    ensures Delivered(RenderAll(addr, Group(bufs, MaxPayload(is6)).All())) == Tagged(Datas(bufs), addr) <==>
            NoneJoinsEmpty(bufs, MaxPayload(is6))
  {
    hide Legal, AllIntact, NoneJoinsEmpty, Cuts, Delivered;
    var gs := Group(bufs, MaxPayload(is6)).All();
    GroupPartitions(bufs, MaxPayload(is6));
    GroupsLegal(bufs, MaxPayload(is6));
    CutsOfGroups(addr, gs, MaxPayload(is6));
    IntactExactly(bufs, MaxPayload(is6));
    OneAddress(addr, gs);
    TaggedOnce(Cuts(RenderAll(addr, gs)), Datas(bufs), addr);
  }

  /** So for any non-empty datagrams offload preserves them. */
  lemma OffloadPreservesDatagrams(addr: int, is6: bool, bufs: seq<Buf>)
    requires forall b | b in bufs :: |b.data| > 0
    ensures Delivered(RenderAll(addr, Group(bufs, MaxPayload(is6)).All())) == Tagged(Datas(bufs), addr)
  {
    hide Group, Delivered, RenderAll;
    OffloadPreservesExactly(addr, is6, bufs);
    forall i: nat | i < |bufs|
      ensures !JoinsEmpty(bufs, MaxPayload(is6), i)
    {
      assert bufs[i] in bufs;
    }
  }

  lemma OneOpen(a: Buf, maxPayload: nat)
    ensures Group([a], maxPayload).open == [a] && Payload([a]) == a.data
  {
    assert [a][..0] == [];
    PayloadNext([], a);
    assert [] + [a] == [a];
  }

  /** An empty datagram between others: it does not come out. */
  lemma EmptyIsLost(addr: int, a: Buf, empty: Buf, b: Buf)
    requires 0 < |a.data| <= a.cap && |a.data| <= MaxPayload(false) && empty.data == [] && b.data != []
    ensures JoinsEmpty([a, empty, b], MaxPayload(false), 1)
    ensures Delivered(RenderAll(addr, Group([a, empty, b], MaxPayload(false)).All())) !=
            Tagged(Datas([a, empty, b]), addr)
  {
    hide Delivered, RenderAll;
    var bufs := [a, empty, b];
    OneOpen(a, MaxPayload(false));
    assert bufs[..1] == [a];
    hide Group;
    OffloadPreservesExactly(addr, false, bufs);
    assert JoinsEmpty(bufs, MaxPayload(false), 1);
  }

  /** Each message holds at most 64 datagrams; one with several fits the payload limit, stays within its
      buffer and records their size untruncated, once; one with a single datagram records none. */
  lemma MessageLimits(addr: int, is6: bool, bufs: seq<Buf>, g: seq<Buf>)
    requires g in Group(bufs, MaxPayload(is6)).All()
    ensures var m := Render(addr, g);
            && 1 <= |g| <= 64 && m.addr == addr
            && (|g| == 1 ==> m.gso == [])
            && (|g| > 1 ==> |m.data| <= (if is6 then 65527 else 65507) && |m.data| <= m.cap && m.gso == [|g[0].data|])
  {
    GroupsLegal(bufs, MaxPayload(is6));
    LegalLimits(addr, g, MaxPayload(is6));
  }

  lemma LegalLimits(addr: int, g: seq<Buf>, maxPayload: nat)
    requires Legal(g, maxPayload) && maxPayload < TWO16
    ensures var m := Render(addr, g);
            |g| > 1 ==> |m.data| <= maxPayload && |m.data| <= m.cap && m.gso == [|g[0].data|]
  {
    PayloadFront(g);
  }
}
