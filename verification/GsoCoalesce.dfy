/** UDP segmentation offload: datagrams are appended to one message in place, with one recorded size. */
module GsoCoalesce {
  import opened Words

  const MAX_DATAGRAMS: nat := 64

  /** What one packet can carry: its length field, less the UDP header and, with IPv4, the IP header. */
  function MaxPayload(is6: bool): (limit: nat)
    ensures limit == 65507 + (if is6 then 20 else 0)
  {
    if is6 then 65535 - 8 else 65535 - 20 - 8
  }

  /** A byte slice: its bytes and the capacity of its own backing array. */
  datatype Buf = Buf(data: bytes, cap: nat)

  ghost predicate Slices(bufs: seq<Buf>) {
    forall i | 0 <= i < |bufs| :: |bufs[i].data| <= bufs[i].cap
  }

  /** An outgoing message; `gso` lists the sizes `setGSO` recorded in its control block. */
  datatype Message = Message(addr: int, data: bytes, cap: nat, gso: seq<uint16>)

  // ---------- reference: which datagrams share a message ----------

  function Payload(g: seq<Buf>): bytes {
    if g == [] then [] else Payload(g[..|g| - 1]) + g[|g| - 1].data
  }

  lemma PayloadNext(g: seq<Buf>, b: Buf)
    ensures Payload(g + [b]) == Payload(g) + b.data
  {
    assert (g + [b])[..|g|] == g;
  }

  /** A datagram may join a group whose members so far all have the size of the first. */
  predicate Joins(g: seq<Buf>, b: Buf, maxPayload: nat)
    requires g != []
  {
    && |b.data| + |Payload(g)| <= maxPayload
    && |b.data| <= |g[0].data|
    && |b.data| + |Payload(g)| <= g[0].cap
    && |g| < MAX_DATAGRAMS
    && |g[|g| - 1].data| >= |g[0].data|
  }

  /** The groups formed so far: those that are closed, and the one that may still grow. */
  datatype Grouping = Grouping(closed: seq<seq<Buf>>, open: seq<Buf>) {
    function All(): seq<seq<Buf>> {
      if open == [] then closed else closed + [open]
    }

    /** Greedy: join the open group if possible, else close it and start the next. */
    function Place(b: Buf, maxPayload: nat): Grouping {
      if open != [] && Joins(open, b, maxPayload) then Grouping(closed, open + [b]) else Grouping(All(), [b])
    }
  }

  lemma PlaceCount(st: Grouping, b: Buf, maxPayload: nat)
    ensures st.open != [] && Joins(st.open, b, maxPayload) ==> |st.Place(b, maxPayload).All()| == |st.All()|
    ensures !(st.open != [] && Joins(st.open, b, maxPayload)) ==> st.Place(b, maxPayload) == Grouping(st.All(), [b])
    ensures !(st.open != [] && Joins(st.open, b, maxPayload)) ==> |st.Place(b, maxPayload).All()| == |st.All()| + 1
  {
  }

  function Group(bufs: seq<Buf>, maxPayload: nat): (r: Grouping)
    ensures r.open == [] <==> bufs == []
    ensures |r.closed| <= |bufs| && (bufs != [] ==> |r.closed| < |bufs|)
  {
    if bufs == [] then Grouping([], [])
    else Group(bufs[..|bufs| - 1], maxPayload).Place(bufs[|bufs| - 1], maxPayload)
  }

  lemma GroupNext(bufs: seq<Buf>, i: nat, maxPayload: nat)
    requires i < |bufs|
    ensures Group(bufs[..i + 1], maxPayload) == Group(bufs[..i], maxPayload).Place(bufs[i], maxPayload)
  {
    assert bufs[..i + 1][..i] == bufs[..i];
  }

  /** The message for a group: one recorded size if it holds several datagrams, none if it holds one. */
  function Render(addr: int, g: seq<Buf>): Message {
    Message(addr, Payload(g), if g == [] then 0 else g[0].cap, if |g| > 1 then [|g[0].data| % TWO16] else [])
  }

  function RenderAll(addr: int, gs: seq<seq<Buf>>): (ms: seq<Message>)
    ensures |ms| == |gs| && forall k | 0 <= k < |gs| :: ms[k] == Render(addr, gs[k])
  {
    seq(|gs|, k requires 0 <= k < |gs| => Render(addr, gs[k]))
  }

  // ---------- the loop ----------

  /** What the loop's variables say about the groups formed so far; the open message has no size recorded
      until it is closed or the datagrams run out. */
  ghost predicate InStep(msgs: seq<Message>, addr: int, st: Grouping, done: bool,
                         gsoSize: nat, dgramCnt: nat, endBatch: bool)
  {
    var base := |st.closed|;
    && (st.open == [] ==> st.closed == [] && dgramCnt == 0)
    && base <= |msgs| && msgs[..base] == RenderAll(addr, st.closed)
    && (st.open != [] ==>
          && base < |msgs|
          && msgs[base] == (if done then Render(addr, st.open) else Render(addr, st.open).(gso := []))
          && gsoSize == |st.open[0].data| && dgramCnt == |st.open|
          && (endBatch <==> |st.open[|st.open| - 1].data| < gsoSize))
  }

  /** Appending a datagram to the open message, recording the size if it is the last datagram. */
  method Append(msgs: array<Message>, addr: int, ghost st: Grouping, buf: Buf, ghost maxPayload: nat, last: bool,
                base: nat, gsoSize: nat, ghost dgramCnt: nat)
    requires st.open != [] && Joins(st.open, buf, maxPayload) && base == |st.closed|
    requires InStep(msgs[..], addr, st, false, gsoSize, dgramCnt, false)
    modifies msgs
    ensures forall k | base < k < msgs.Length :: msgs[k] == old(msgs[k])
    ensures InStep(msgs[..], addr, st.Place(buf, maxPayload), last, gsoSize, dgramCnt + 1, |buf.data| < gsoSize)
  {
    PayloadNext(st.open, buf);
    msgs[base] := msgs[base].(data := msgs[base].data + buf.data);
    if last {
      msgs[base] := msgs[base].(gso := msgs[base].gso + [gsoSize % TWO16]);
    }
    assert msgs[..base] == old(msgs[..base]);
    assert msgs[..][..base] == msgs[..base];
  }

  /** Closing the open message, recording its size if it holds several datagrams. */
  method Close(msgs: array<Message>, addr: int, ghost st: Grouping, base: int, gsoSize: nat, dgramCnt: nat,
               ghost endBatch: bool)
    requires base == |st.All()| - 1 < msgs.Length
    requires InStep(msgs[..], addr, st, false, gsoSize, dgramCnt, endBatch)
    modifies msgs
    ensures forall k | base < k < msgs.Length :: msgs[k] == old(msgs[k])
    ensures msgs[..base + 1] == RenderAll(addr, st.All())
  {
    ghost var closed := msgs[..|st.closed|];
    if dgramCnt > 1 {
      msgs[base] := msgs[base].(gso := msgs[base].gso + [gsoSize % TWO16]);
    }
    if st.open != [] {
      assert msgs[base] == Render(addr, st.open);
      assert msgs[..base + 1] == closed + [Render(addr, st.open)];
      assert RenderAll(addr, st.All()) == RenderAll(addr, st.closed) + [Render(addr, st.open)];
    }
  }

  /** Starting the next message with one datagram. */
  method Start(msgs: array<Message>, addr: int, ghost st: Grouping, buf: Buf, base: nat, ghost last: bool)
    requires base == |st.All()| < msgs.Length && msgs[..base] == RenderAll(addr, st.All())
    modifies msgs
    ensures forall k | base < k < msgs.Length :: msgs[k] == old(msgs[k])
    ensures InStep(msgs[..], addr, Grouping(st.All(), [buf]), last, |buf.data|, 1, false)
  {
    msgs[base] := Message(addr, buf.data, buf.cap, []);
    PayloadNext([], buf);
    assert [] + [buf] == [buf];
    assert msgs[..base] == old(msgs[..base]);
    assert msgs[..][..base] == msgs[..base];
  }

  /** The loop's guard, in its own variables, decides what the grouping decides. */
  lemma GuardDecides(msgs: seq<Message>, addr: int, st: Grouping, buf: Buf, maxPayload: nat, gsoSize: nat,
                     dgramCnt: nat, endBatch: bool)
    requires st.open != [] && InStep(msgs, addr, st, false, gsoSize, dgramCnt, endBatch)
    ensures |st.closed| < |msgs|
    ensures var m := msgs[|st.closed|];
            Joins(st.open, buf, maxPayload) <==>
            && |buf.data| + |m.data| <= maxPayload && |buf.data| <= gsoSize && |buf.data| <= m.cap - |m.data|
            && dgramCnt < MAX_DATAGRAMS && !endBatch
  {}

  /** One turn of the loop: the variables are the source's, `st` is the grouping they stand for. */
  method PlaceDatagram(msgs: array<Message>, addr: int, ghost st: Grouping, buf: Buf, maxPayloadLen: nat,
                       first: bool, last: bool, base: int, gsoSize: nat, dgramCnt: nat, endBatch: bool)
      returns (base': int, gsoSize': nat, dgramCnt': nat, endBatch': bool)
    requires base == |st.All()| - 1 && base + 1 < msgs.Length && (first <==> st.open == [])
    requires InStep(msgs[..], addr, st, false, gsoSize, dgramCnt, endBatch)
    modifies msgs
    ensures base <= base' == |st.Place(buf, maxPayloadLen).All()| - 1 <= base + 1
    ensures InStep(msgs[..], addr, st.Place(buf, maxPayloadLen), last, gsoSize', dgramCnt', endBatch')
    ensures forall k | base' < k < msgs.Length :: msgs[k] == old(msgs[k])
  {
    PlaceCount(st, buf, maxPayloadLen);
    if !first {
      GuardDecides(msgs[..], addr, st, buf, maxPayloadLen, gsoSize, dgramCnt, endBatch);
    }
    hide Joins, RenderAll, Render;
    if !first {
      var msgLen := |buf.data|;
      var baseLenBefore := |msgs[base].data|;
      var freeBaseCap := msgs[base].cap - baseLenBefore;
      if msgLen + baseLenBefore <= maxPayloadLen && msgLen <= gsoSize && msgLen <= freeBaseCap
         && dgramCnt < MAX_DATAGRAMS && !endBatch {
        Append(msgs, addr, st, buf, maxPayloadLen, last, base, gsoSize, dgramCnt);
        return base, gsoSize, dgramCnt + 1, msgLen < gsoSize;
      }
    }
    Close(msgs, addr, st, base, gsoSize, dgramCnt, endBatch);
    Start(msgs, addr, st, buf, base + 1, last);
    return base + 1, |buf.data|, 1, false;
  }

  method CoalesceMessages(addr: int, is6: bool, bufs: seq<Buf>, msgs: array<Message>) returns (n: nat)
    requires |bufs| <= msgs.Length && Slices(bufs)
    modifies msgs
    ensures n == |Group(bufs, MaxPayload(is6)).All()| <= msgs.Length
    ensures msgs[..n] == RenderAll(addr, Group(bufs, MaxPayload(is6)).All())
    ensures forall k | 0 <= k < n :: msgs[k].addr == addr
    ensures forall k | n <= k < msgs.Length :: msgs[k] == old(msgs[k])
  {
    var base := -1;
    var gsoSize: nat, dgramCnt: nat, endBatch := 0, 0, false;
    var maxPayloadLen := MaxPayload(is6);
    ghost var st := Grouping([], []);
    assert bufs[..0] == [];
    NothingPlaced(msgs[..], addr, |bufs| == 0);
    assert st == Group(bufs[..0], maxPayloadLen) && st.All() == [];
    hide InStep, Group, RenderAll, Joins, Grouping.Place, Grouping.All;
    for i := 0 to |bufs|
      invariant st == Group(bufs[..i], maxPayloadLen) && (i == 0 <==> st.open == []) && |st.All()| <= i
      invariant base == |st.All()| - 1
      invariant InStep(msgs[..], addr, st, i == |bufs|, gsoSize, dgramCnt, endBatch)
      invariant forall k | base < k < msgs.Length :: msgs[k] == old(msgs[k])
    {
      GroupNext(bufs, i, maxPayloadLen);
      PlaceOpens(st, bufs[i], maxPayloadLen);
      base, gsoSize, dgramCnt, endBatch :=
        PlaceDatagram(msgs, addr, st, bufs[i], maxPayloadLen, i == 0, i == |bufs| - 1,
                      base, gsoSize, dgramCnt, endBatch);
      st := st.Place(bufs[i], maxPayloadLen);
    }
    assert bufs[..|bufs|] == bufs;
    n := base + 1;
    Finished(msgs[..], addr, st, gsoSize, dgramCnt, endBatch);
  }

  lemma PlaceOpens(st: Grouping, b: Buf, maxPayload: nat)
    ensures st.Place(b, maxPayload).open != []
  {}

  lemma NothingPlaced(msgs: seq<Message>, addr: int, done: bool)
    ensures InStep(msgs, addr, Grouping([], []), done, 0, 0, false)
  {
    assert msgs[..0] == [];
  }

  lemma Finished(msgs: seq<Message>, addr: int, st: Grouping, gsoSize: nat, dgramCnt: nat, endBatch: bool)
    requires InStep(msgs, addr, st, true, gsoSize, dgramCnt, endBatch)
    ensures |st.All()| <= |msgs| && msgs[..|st.All()|] == RenderAll(addr, st.All())
  {
    if st.open != [] {
      assert msgs[..|st.All()|] == msgs[..|st.closed|] + [msgs[|st.closed|]];
      assert RenderAll(addr, st.All()) == RenderAll(addr, st.closed) + [Render(addr, st.open)];
    }
  }

  // ---------- what grouping means ----------

  function Flatten<T>(gs: seq<seq<T>>): seq<T> {
    if gs == [] then [] else Flatten(gs[..|gs| - 1]) + gs[|gs| - 1]
  }

  lemma FlattenNext<T>(gs: seq<seq<T>>, g: seq<T>)
    ensures Flatten(gs + [g]) == Flatten(gs) + g
  {
    assert (gs + [g])[..|gs|] == gs;
  }

  lemma PlaceFlatten(st: Grouping, b: Buf, maxPayload: nat)
    ensures Flatten(st.Place(b, maxPayload).All()) == Flatten(st.All()) + [b]
  {
    hide Flatten, Joins;
    if st.open != [] {
      FlattenNext(st.closed, st.open);
      FlattenNext(st.closed, st.open + [b]);
      assert Flatten(st.closed) + (st.open + [b]) == Flatten(st.closed) + st.open + [b];
    }
    FlattenNext(st.All(), [b]);
  }

  /** The grouping loses, adds and reorders nothing. */
  lemma {:induction false} GroupPartitions(bufs: seq<Buf>, maxPayload: nat)
    ensures Flatten(Group(bufs, maxPayload).All()) == bufs
  {
    if bufs != [] {
      var i := |bufs| - 1;
      GroupPartitions(bufs[..i], maxPayload);
      assert bufs == bufs[..i] + [bufs[i]];
      PlaceFlatten(Group(bufs[..i], maxPayload), bufs[i], maxPayload);
    }
  }

  /** A group as the kernel accepts it: equal sizes, the last no larger, within every limit. */
  ghost predicate Legal(g: seq<Buf>, maxPayload: nat) {
    && 0 < |g| <= MAX_DATAGRAMS
    && (forall i | 0 <= i < |g| - 1 :: |g[i].data| == |g[0].data|)
    && |g[|g| - 1].data| <= |g[0].data|
    && (|g| > 1 ==> |Payload(g)| <= maxPayload && |Payload(g)| <= g[0].cap)
  }

  lemma LegalNext(g: seq<Buf>, b: Buf, maxPayload: nat)
    requires Legal(g, maxPayload) && Joins(g, b, maxPayload)
    ensures Legal(g + [b], maxPayload)
  {
    PayloadNext(g, b);
  }

  /** Every group is legal. */
  lemma {:induction false} GroupsLegal(bufs: seq<Buf>, maxPayload: nat)
    ensures forall g | g in Group(bufs, maxPayload).All() :: Legal(g, maxPayload)
  {
    if bufs != [] {
      var i := |bufs| - 1;
      var st := Group(bufs[..i], maxPayload);
      GroupsLegal(bufs[..i], maxPayload);
      if st.open != [] {
        assert st.open in st.All();
        if Joins(st.open, bufs[i], maxPayload) {
          LegalNext(st.open, bufs[i], maxPayload);
        }
      }
    }
  }

  /** The group after `k` starts with a datagram that group `k` has no place for: it is full, by number, payload or
      buffer, the datagram is larger than its first, or its last is already smaller. */
  ghost predicate Maximal(gs: seq<seq<Buf>>, k: nat, maxPayload: nat)
    requires k + 1 < |gs|
  {
    && gs[k] != [] && gs[k + 1] != []
    && var g, size := gs[k], |gs[k + 1][0].data|;
       || |g| >= MAX_DATAGRAMS || |Payload(g)| + size > maxPayload || |Payload(g)| + size > g[0].cap
       || size > |g[0].data| || |g[|g| - 1].data| < |g[0].data|
  }

  lemma PlaceMaximal(st: Grouping, b: Buf, maxPayload: nat, k: nat)
    requires k + 1 < |st.Place(b, maxPayload).All()|
    requires k + 1 < |st.All()| ==> Maximal(st.All(), k, maxPayload)
    requires (forall g | g in st.All() :: g != []) && (st.open == [] ==> st.closed == [])
    ensures Maximal(st.Place(b, maxPayload).All(), k, maxPayload)
  {
    var gs, next := st.All(), st.Place(b, maxPayload).All();
    if k + 1 < |gs| {
      assert next[k] == gs[k] && next[k + 1] != [] && next[k + 1][0] == gs[k + 1][0];
    } else {
      assert next == gs + [[b]] && gs[k] in gs;
    }
  }

  /** Greedy: no message ends before it has to. */
  lemma {:induction false} GroupsMaximal(bufs: seq<Buf>, maxPayload: nat, k: nat)
    requires k + 1 < |Group(bufs, maxPayload).All()|
    ensures Maximal(Group(bufs, maxPayload).All(), k, maxPayload)
  {
    var i := |bufs| - 1;
    var st := Group(bufs[..i], maxPayload);
    if k + 1 < |st.All()| {
      GroupsMaximal(bufs[..i], maxPayload, k);
    }
    GroupsLegal(bufs[..i], maxPayload);
    PlaceMaximal(st, bufs[i], maxPayload, k);
  }
}
