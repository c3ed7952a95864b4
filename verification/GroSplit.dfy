/** UDP receive offload: coalesced messages are split in place into the front slots of the array they sit in. */
module GroSplit {
  import opened Division
  import opened Words
  import opened GsoCoalesce
  import opened GsoMeaning

  /** A received message: its whole buffer, the bytes received in it, its sender, and the segment size its
      control block reports, if that parses. */
  datatype Received = Received(buf: bytes, n: nat, addr: int, gso: Gso)

  datatype Gso = Unreadable | Size(size: nat)

  datatype Outcome = Done | BadControl | Overflow

  /** Received bytes and segment size lie within the buffers. */
  ghost predicate Fits(msgs: seq<Received>) {
    forall i | 0 <= i < |msgs| ::
      && msgs[i].n <= |msgs[i].buf|
      && (msgs[i].gso.Size? ==> msgs[i].gso.size <= |msgs[i].buf|)
  }

  // ---------- reference ----------

  /** The pieces of one message: its bytes cut by its segment size. A size above the received length makes
      one piece of that size. */
  function Cut(m: Received): seq<Datagram> {
    if m.gso.Unreadable? || m.n > |m.buf| || m.gso.size > |m.buf| then []
    else Tagged(if m.gso.size > m.n then [m.buf[..m.gso.size]] else Chunks(m.buf[..m.n], m.gso.size), m.addr)
  }

  /** The pieces of the messages `ms`, which sit in slots `i` and up, with `n` slots already filled. */
  function Split(ms: seq<Received>, i: nat, n: nat): (r: (seq<Datagram>, Outcome))
    requires n <= i
    decreases |ms|
  {
    if ms == [] || ms[0].n == 0 then ([], Done)
    else if ms[0].gso.Unreadable? then ([], BadControl)
    else
      var ps := Cut(ms[0]);
      if n + |ps| > i + 1 then (ps[..i + 1 - n], Overflow)
      else
        var r := Split(ms[1..], i + 1, n + |ps|);
        (ps + r.0, r.1)
  }

  /** The messages actually read: those before the first empty or unreadable one. */
  function Readable(ms: seq<Received>): (r: seq<Received>)
    ensures r <= ms && forall m | m in r :: m.n > 0 && m.gso.Size?
    ensures |r| < |ms| ==> ms[|r|].n == 0 || ms[|r|].gso.Unreadable?
  {
    if ms == [] || ms[0].n == 0 || ms[0].gso.Unreadable? then [] else [ms[0]] + Readable(ms[1..])
  }

  /** All the pieces of the messages `ms`, in order. */
  function AllPieces(ms: seq<Received>): seq<Datagram> {
    if ms == [] then [] else Cut(ms[0]) + AllPieces(ms[1..])
  }

  // ---------- the loops ----------

  lemma {:induction false} ChunkCount(d: bytes, size: nat)
    requires 0 < size && |d| > 0
    ensures |Chunks(d, size)| == (|d| + size - 1) / size
    decreases |d|
  {
    if |d| > size {
      ChunkCount(d[size..], size);
      assert (|d| + size - 1) / size == 1 + (|d| - size + size - 1) / size by {
        DivStep(|d| - 1, size);
      }
    } else {
      assert |d| + size - 1 == size + (|d| - 1);
      DivStep(|d| - 1, size);
      SmallDiv(|d| - 1, size);
    }
  }

  lemma PieceCount(m: Received)
    requires m.gso.Size? && 0 < m.n <= |m.buf| && m.gso.size <= |m.buf|
    ensures |Cut(m)| == if m.gso.size == 0 then 1 else (m.n + m.gso.size - 1) / m.gso.size
    ensures |Cut(m)| > 0
  {
    if 0 < m.gso.size <= m.n {
      ChunkCount(m.buf[..m.n], m.gso.size);
    } else if m.gso.size > m.n {
      assert m.n + m.gso.size - 1 == (m.n - 1) + m.gso.size;
      DivStep(m.n - 1, m.gso.size);
      SmallDiv(m.n - 1, m.gso.size);
    }
  }

  /** The loop's window [start, end) covers piece `j`, and the pieces from `j` on are the cut of the rest. */
  ghost predicate AtPiece(m: Received, j: nat, start: nat, end: nat)
    requires m.gso.Size? && m.n <= |m.buf| && m.gso.size <= |m.buf|
  {
    var ps := Cut(m);
    && j < |ps| && start <= end <= |m.buf| && Datagram(m.buf[start..end], m.addr) == ps[j]
    && (if 0 < m.gso.size <= m.n
        then start < m.n && end == (if start + m.gso.size < m.n then start + m.gso.size else m.n)
             && Tagged(Chunks(m.buf[start..m.n], m.gso.size), m.addr) == ps[j..]
        else j == 0 && |ps| == 1)
  }

  lemma FirstPiece(m: Received)
    requires m.gso.Size? && 0 < m.n <= |m.buf| && m.gso.size <= |m.buf|
    ensures AtPiece(m, 0, 0, if m.gso.size > 0 then m.gso.size else m.n)
  {
    PieceCount(m);
    assert m.buf[0..m.n] == m.buf[..m.n];
    assert m.buf[0..m.gso.size] == m.buf[..m.gso.size];
    var ps := Cut(m);
    assert ps[0..] == ps;
    if 0 < m.gso.size < m.n {
      assert m.buf[..m.n][..m.gso.size] == m.buf[..m.gso.size];
    }
  }

  lemma ChunksStep(d: bytes, size: nat, addr: int)
    requires size > 0
    ensures var ps := Tagged(Chunks(d, size), addr);
            && |ps| > 0 && ps[0] == Datagram(if |d| <= size then d else d[..size], addr)
            && (|ps| > 1 <==> |d| > size) && (|d| > size ==> ps[1..] == Tagged(Chunks(d[size..], size), addr))
  {
    var cs := Chunks(d, size);
    if |d| > size {
      assert cs == [d[..size]] + Chunks(d[size..], size);
      assert cs[1..] == Chunks(d[size..], size);
      assert |Chunks(d[size..], size)| > 0;
    }
    hide Chunks;
  }

  lemma SliceFront(s: bytes, a: nat, b: nat, k: nat)
    requires a + k <= b <= |s|
    ensures s[a..b][..k] == s[a..a + k]
  {}

  lemma NextPiece(m: Received, j: nat, start: nat, end: nat)
    requires m.gso.Size? && 0 < m.n <= |m.buf| && m.gso.size <= |m.buf| && AtPiece(m, j, start, end)
    requires j + 1 < |Cut(m)|
    ensures AtPiece(m, j + 1, end, if end + m.gso.size > m.n then m.n else end + m.gso.size)
  {
    hide Cut, Chunks, Tagged;
    var ps, size := Cut(m), m.gso.size;
    var rest := m.buf[start..m.n];
    ChunksStep(rest, size, m.addr);
    assert |ps[j..]| > 1 && |rest| > size && end == start + size;
    assert ps[j..][1..] == ps[j + 1..];
    assert rest[size..] == m.buf[end..m.n];
    ChunksStep(rest[size..], size, m.addr);
    assert ps[j + 1] == ps[j + 1..][0];
    if m.n - end > size {
      SliceFront(m.buf, end, m.n, size);
    }
  }

  lemma PieceAt(m: Received, j: nat, start: nat, end: nat)
    requires m.gso.Size? && m.n <= |m.buf| && m.gso.size <= |m.buf| && AtPiece(m, j, start, end)
    ensures j < |Cut(m)| && start <= end <= |m.buf| && Cut(m)[j] == Datagram(m.buf[start..end], m.addr)
  {
    hide Cut, Chunks, Tagged;
  }

  /** What of a datagram fits a buffer of `cap` bytes. */
  function Clip(d: Datagram, cap: nat): (r: Datagram)
    ensures r.addr == d.addr && r.data <= d.data && |r.data| <= cap && (|r.data| == cap || r == d)
  {
    if |d.data| <= cap then d else d.(data := d.data[..cap])
  }

  /** The front slots hold the datagrams `ds`, each as far as its slot's buffer goes. */
  ghost predicate Filled(msgs: seq<Received>, ds: seq<Datagram>) {
    |ds| <= |msgs| &&
    forall k | 0 <= k < |ds| :: msgs[k].n <= |msgs[k].buf| && View(msgs[k]) == Clip(ds[k], |msgs[k].buf|)
  }

  ghost function View(m: Received): Datagram
    requires m.n <= |m.buf|
  {
    Datagram(m.buf[..m.n], m.addr)
  }

  /** The slots keep their buffers. */
  ghost predicate SameBuffers(a: seq<Received>, b: seq<Received>) {
    |a| == |b| && forall k | 0 <= k < |a| :: |a[k].buf| == |b[k].buf|
  }

  lemma SameRefl(a: seq<Received>)
    ensures SameBuffers(a, a)
  {}

  lemma SameTrans(a: seq<Received>, b: seq<Received>, c: seq<Received>)
    requires SameBuffers(a, b) && SameBuffers(b, c)
    ensures SameBuffers(a, c)
  {}

  /** Copies bytes [start, end) of message `i` to the front of slot `n`, which may be slot `i` itself. */
  method CopyPiece(msgs: array<Received>, i: nat, n: nat, start: nat, end: nat, ghost ds: seq<Datagram>)
    requires n <= i < msgs.Length && Fits(msgs[..]) && start <= end <= |msgs[i].buf|
    requires Filled(msgs[..], ds) && |ds| == n
    modifies msgs
    ensures Fits(msgs[..]) && SameBuffers(msgs[..], old(msgs[..]))
    ensures Filled(msgs[..], ds + [Datagram(old(msgs[i]).buf[start..end], old(msgs[i]).addr)])
    ensures forall k | 0 <= k < msgs.Length && k != n :: msgs[k] == old(msgs[k])
  {
    ghost var before := msgs[..];
    var size := |msgs[n].buf|;
    var copied := if end - start <= size then end - start else size;
    var piece := msgs[i].buf[start..start + copied];
    ghost var d := Datagram(msgs[i].buf[start..end], msgs[i].addr);
    msgs[n] := msgs[n].(buf := piece + msgs[n].buf[copied..], n := copied, addr := msgs[i].addr);
    assert d.data[..copied] == piece;
    assert View(msgs[n]) == Clip(d, |msgs[n].buf|);
    assert before[n].gso.Size? ==> before[n].gso.size <= |before[n].buf|;
    assert msgs[..] == before[n := msgs[n]];
  }

  /** Splits message `i` into slots `n` and up. Slot `i` itself is overwritten only by the last piece. */
  method SplitOne(msgs: array<Received>, i: nat, n0: nat, gsoSize: nat, ghost done: seq<Datagram>)
      returns (n: nat, overflow: bool)
    requires n0 <= i < msgs.Length && Fits(msgs[..]) && msgs[i].gso == Size(gsoSize) && msgs[i].n > 0
    requires Filled(msgs[..], done) && |done| == n0
    modifies msgs
    ensures Fits(msgs[..]) && SameBuffers(msgs[..], old(msgs[..]))
    ensures overflow <==> n0 + |Cut(old(msgs[i]))| > i + 1
    ensures n == if overflow then i + 1 else n0 + |Cut(old(msgs[i]))|
    ensures Filled(msgs[..], done + Cut(old(msgs[i]))[..n - n0])
    ensures forall k | n <= k < msgs.Length :: msgs[k] == old(msgs[k])
  {
    hide Cut, AtPiece, Filled, SameBuffers;
    SameRefl(msgs[..]);
    ghost var m := msgs[i];
    assert m == msgs[..][i];
    assert m.n <= |m.buf| && gsoSize <= |m.buf|;
    hide Fits;
    var total := msgs[i].n;
    var numToSplit, start, end: nat := 1, 0, total;
    if gsoSize > 0 {
      numToSplit := (total + gsoSize - 1) / gsoSize;
      end := gsoSize;
    }
    PieceCount(m);
    FirstPiece(m);
    n := n0;
    assert done + Cut(m)[..0] == done;
    var j := 0;
    while j < numToSplit
      invariant 0 <= j <= numToSplit == |Cut(m)| && n == n0 + j <= i + 1
      invariant Fits(msgs[..]) && SameBuffers(msgs[..], old(msgs[..]))
      invariant n <= i ==> msgs[i] == m
      invariant j < numToSplit ==> AtPiece(m, j, start, end)
      invariant Filled(msgs[..], done + Cut(m)[..j])
      invariant forall k | n <= k < msgs.Length :: msgs[k] == old(msgs[k])
    {
      if n > i {
        return n, true;
      }
      PieceAt(m, j, start, end);
      ghost var before := msgs[..];
      CopyPiece(msgs, i, n, start, end, done + Cut(m)[..j]);
      SameTrans(msgs[..], before, old(msgs[..]));
      assert done + Cut(m)[..j + 1] == done + Cut(m)[..j] + [Cut(m)[j]];
      if j + 1 < numToSplit {
        NextPiece(m, j, start, end);
      }
      start := end;
      end := end + gsoSize;
      if end > total {
        end := total;
      }
      n := n + 1;
      j := j + 1;
    }
    assert Cut(m)[..numToSplit] == Cut(m);
    overflow := false;
  }

  /** A source message that is not the last slot filled is marked empty. */
  method ClearSource(msgs: array<Received>, i: nat, ghost ds: seq<Datagram>)
    requires |ds| <= i < msgs.Length && Fits(msgs[..]) && Filled(msgs[..], ds)
    modifies msgs
    ensures Fits(msgs[..]) && Filled(msgs[..], ds) && SameBuffers(msgs[..], old(msgs[..]))
    ensures msgs[i] == old(msgs[i]).(n := 0) && forall k | 0 <= k < msgs.Length && k != i :: msgs[k] == old(msgs[k])
  {
    ghost var before := msgs[..];
    assert before[i].n <= |before[i].buf| && (before[i].gso.Size? ==> before[i].gso.size <= |before[i].buf|);
    msgs[i] := msgs[i].(n := 0);
    assert msgs[..] == before[i := msgs[i]];
  }

  /** The whole result is what is done followed by the split of what is left. */
  ghost predicate Continues(want: (seq<Datagram>, Outcome), ds: seq<Datagram>, left: seq<Received>, i: nat, n: nat)
    requires n <= i
  {
    want.0 == ds + Split(left, i, n).0 && want.1 == Split(left, i, n).1
  }

  lemma ContinueNext(want: (seq<Datagram>, Outcome), ds: seq<Datagram>, left: seq<Received>, i: nat, n: nat)
    requires n <= i && Continues(want, ds, left, i, n)
    requires left != [] && left[0].n > 0 && left[0].gso.Size? && n + |Cut(left[0])| <= i + 1
    ensures Continues(want, ds + Cut(left[0]), left[1..], i + 1, n + |Cut(left[0])|)
  {
    hide Cut;
    var p, r := Cut(left[0]), Split(left[1..], i + 1, n + |Cut(left[0])|).0;
    assert ds + (p + r) == ds + p + r;
  }

  lemma ContinueLast(want: (seq<Datagram>, Outcome), ds: seq<Datagram>, left: seq<Received>, i: nat, n: nat)
    requires n <= i && Continues(want, ds, left, i, n)
    ensures left == [] || left[0].n == 0 ==> want == (ds, Done)
    ensures left != [] && left[0].n > 0 && left[0].gso.Unreadable? ==> want == (ds, BadControl)
    ensures left != [] && left[0].n > 0 && left[0].gso.Size? && n + |Cut(left[0])| > i + 1 ==>
              want == (ds + Cut(left[0])[..i + 1 - n], Overflow)
  {
    assert ds + [] == ds;
  }

  /** Past the filled slots, messages that were read are empty and all others untouched. */
  ghost predicate Cleared(msgs: seq<Received>, orig: seq<Received>, first: nat, n: nat, stop: nat) {
    |msgs| == |orig| && forall k | n <= k < |msgs| :: msgs[k] == if first <= k < stop then orig[k].(n := 0) else orig[k]
  }

  /** The slots while the outer loop runs: `orig` was received from slot `first` on, the messages before
      slot `i` have been read, their pieces are `ds`, and the whole result will be `want`. */
  ghost predicate Progress(cur: seq<Received>, orig: seq<Received>, first: nat, i: nat, ds: seq<Datagram>,
                           want: (seq<Datagram>, Outcome))
  {
    && first <= i <= |orig| && |ds| <= i
    && Fits(cur) && SameBuffers(cur, orig) && Filled(cur, ds) && Cleared(cur, orig, first, |ds|, i)
    && Continues(want, ds, orig[i..], i, |ds|)
  }

  /** The slots when the loop has stopped at slot `stop` with the result `want`. */
  ghost predicate Ended(cur: seq<Received>, orig: seq<Received>, first: nat, stop: nat,
                        want: (seq<Datagram>, Outcome))
  {
    && first <= stop <= |orig| && SameBuffers(cur, orig)
    && Filled(cur, want.0) && Cleared(cur, orig, first, |want.0|, stop)
    && (want.1 == Done ==> stop == |orig| || orig[stop].n == 0)
  }

  lemma NextTurn(before: seq<Received>, after: seq<Received>, orig: seq<Received>, first: nat, i: nat,
                 ds: seq<Datagram>, n: nat)
    requires Cleared(before, orig, first, |ds|, i) && first <= i < |orig| == |after| && |ds| <= n <= i + 1
    requires forall k | n <= k < |orig| :: after[k] == if k == i then orig[i].(n := 0) else before[k]
    ensures Cleared(after, orig, first, n, i + 1)
  {
  }

  lemma FirstTurn(orig: seq<Received>, first: nat)
    requires Fits(orig) && first <= |orig|
    ensures Progress(orig, orig, first, first, [], Split(orig[first..], first, 0))
  {
    hide Cut, Split;
    var r := Split(orig[first..], first, 0);
    assert [] + r.0 == r.0;
  }

  /** One turn of the outer loop on a message that is not empty; `Done` here means: go on. */
  method SplitMessage(msgs: array<Received>, i: nat, n0: nat, ghost orig: seq<Received>, ghost first: nat,
                      ghost ds: seq<Datagram>, ghost want: (seq<Datagram>, Outcome))
      returns (n: nat, outcome: Outcome, ghost ds': seq<Datagram>)
    requires Progress(msgs[..], orig, first, i, ds, want) && i < |orig| && n0 == |ds| && orig[i].n > 0
    modifies msgs
    ensures n == |ds'|
    ensures outcome == Done ==> Progress(msgs[..], orig, first, i + 1, ds', want)
    ensures outcome != Done ==> want == (ds', outcome) && Ended(msgs[..], orig, first, i, want)
  {
    hide Cut, Split, Continues, Fits, Filled;
    ghost var before := msgs[..];
    assert msgs[i] == orig[i] && orig[i..][0] == orig[i] && orig[i..][1..] == orig[i + 1..];
    ContinueLast(want, ds, orig[i..], i, n0);
    if msgs[i].gso.Unreadable? {
      return n0, BadControl, ds;
    }
    var overflow;
    n, overflow := SplitOne(msgs, i, n0, msgs[i].gso.size, ds);
    ds' := ds + Cut(orig[i])[..n - n0];
    if overflow {
      return n, Overflow, ds';
    }
    if i != n - 1 {
      ClearSource(msgs, i, ds');
    }
    assert Cut(orig[i])[..n - n0] == Cut(orig[i]);
    NextTurn(before, msgs[..], orig, first, i, ds, n);
    ContinueNext(want, ds, orig[i..], i, n0);
    return n, Done, ds';
  }

  /** The outer loop: what it returns and leaves in the front slots is the reference split of what was
      received, also when it stops early; `stop` is where it stopped reading. */
  method SplitCoalescedMessages(msgs: array<Received>, firstMsgAt: nat)
      returns (n: nat, outcome: Outcome, ghost stop: nat)
    requires firstMsgAt <= msgs.Length && Fits(msgs[..])
    modifies msgs
    ensures n == |Split(old(msgs[firstMsgAt..]), firstMsgAt, 0).0|
    ensures outcome == Split(old(msgs[firstMsgAt..]), firstMsgAt, 0).1
    ensures Ended(msgs[..], old(msgs[..]), firstMsgAt, stop, Split(old(msgs[firstMsgAt..]), firstMsgAt, 0))
  {
    hide Cut, Split, Continues, Fits, Filled;
    ghost var orig := msgs[..];
    ghost var want := Split(msgs[firstMsgAt..], firstMsgAt, 0);
    ghost var ds: seq<Datagram> := [];
    n := 0;
    var i := firstMsgAt;
    assert orig[i..] == msgs[i..];
    FirstTurn(orig, i);
    while i < msgs.Length
      invariant i <= msgs.Length == |orig| && n == |ds|
      invariant Progress(msgs[..], orig, firstMsgAt, i, ds, want)
    {
      assert msgs[i] == orig[i] && orig[i..][0] == orig[i];
      if msgs[i].n == 0 {
        ContinueLast(want, ds, orig[i..], i, n);
        return n, Done, i;
      }
      n, outcome, ds := SplitMessage(msgs, i, n, orig, firstMsgAt, ds, want);
      if outcome != Done {
        stop := i;
        return;
      }
      i := i + 1;
    }
    ContinueLast(want, ds, orig[i..], i, n);
    return n, Done, i;
  }

  // ---------- what the split means ----------

  /** On a successful return the front slots hold every piece of every message read, in order. */
  lemma {:induction false} SplitIsComplete(ms: seq<Received>, i: nat, n: nat)
    requires n <= i
    ensures Split(ms, i, n).1 != Overflow ==> Split(ms, i, n).0 == AllPieces(Readable(ms))
    decreases |ms|
  {
    hide Cut;
    if Readable(ms) != [] {
      assert Readable(ms)[1..] == Readable(ms[1..]);
      if n + |Cut(ms[0])| <= i + 1 {
        SplitIsComplete(ms[1..], i + 1, n + |Cut(ms[0])|);
      }
    }
  }

  /** Why the loop stops: at the end or an empty message, or at one whose control block does not parse. */
  lemma {:induction false} SplitStops(ms: seq<Received>, i: nat, n: nat)
    requires n <= i
    ensures var k := |Readable(ms)|;
            && (Split(ms, i, n).1 == Done ==> k == |ms| || ms[k].n == 0)
            && (Split(ms, i, n).1 == BadControl ==> k < |ms| && ms[k].n > 0 && ms[k].gso.Unreadable?)
    decreases |ms|
  {
    hide Cut;
    if Readable(ms) != [] && n + |Cut(ms[0])| <= i + 1 {
      SplitStops(ms[1..], i + 1, n + |Cut(ms[0])|);
    }
  }

  lemma {:induction false} PiecesFit(ms: seq<Received>, cap: nat)
    requires forall m | m in ms :: |m.buf| <= cap
    ensures forall d | d in AllPieces(ms) :: |d.data| <= cap
  {
    if ms != [] {
      assert ms[0] in ms;
      PiecesFit(ms[1..], cap);
      CutFits(ms[0]);
      hide Cut;
      assert forall d | d in AllPieces(ms) :: d in Cut(ms[0]) || d in AllPieces(ms[1..]);
    }
  }

  lemma CutFits(m: Received)
    ensures forall d | d in Cut(m) :: |d.data| <= |m.buf|
  {
    if m.gso.Size? && m.n <= |m.buf| {
      ChunksFit(m.buf[..m.n], m.gso.size);
    }
  }

  lemma {:induction false} ChunksFit(d: bytes, size: nat)
    ensures forall c | c in Chunks(d, size) :: |c| <= |d|
    decreases |d|
  {
    if size > 0 && |d| > size {
      ChunksFit(d[size..], size);
      hide Chunks;
    }
  }

  /** The slots hold the datagrams whole if and only if each slot's buffer is long enough for its own: always when the
      buffers are equally long, as the bind allocates them. */
  lemma WholeExactly(cur: seq<Received>, ds: seq<Datagram>)
    requires Filled(cur, ds)
    ensures (forall k | 0 <= k < |ds| :: View(cur[k]) == ds[k]) <==>
            forall k | 0 <= k < |ds| :: |ds[k].data| <= |cur[k].buf|
  {
    forall k | 0 <= k < |ds|
      ensures View(cur[k]) == ds[k] <==> |ds[k].data| <= |cur[k].buf|
    {
      if View(cur[k]) == ds[k] {
        assert |View(cur[k]).data| == cur[k].n;
      }
    }
  }

  lemma EqualBuffersWhole(cur: seq<Received>, ms: seq<Received>, cap: nat)
    requires Filled(cur, AllPieces(ms)) && (forall m | m in ms :: |m.buf| == cap)
    requires forall k | 0 <= k < |cur| :: |cur[k].buf| == cap
    ensures forall k | 0 <= k < |AllPieces(ms)| :: View(cur[k]) == AllPieces(ms)[k]
  {
    hide AllPieces;
    var ds := AllPieces(ms);
    PiecesFit(ms, cap);
    forall k | 0 <= k < |ds|
      ensures |ds[k].data| <= |cur[k].buf|
    {
      assert ds[k] in ds;
    }
    WholeExactly(cur, ds);
  }

  /** The first `k` messages read have more pieces than there are slots up to their own. */
  ghost predicate TooMany(read: seq<Received>, i: nat, n: nat, k: nat) {
    0 < k <= |read| && n + |AllPieces(read[..k])| > i + k
  }

  lemma TooManyFront(read: seq<Received>, i: nat, n: nat, k: nat)
    requires 0 < k <= |read|
    ensures TooMany(read, i, n, k) <==>
            if k == 1 then n + |Cut(read[0])| > i + 1 else TooMany(read[1..], i + 1, n + |Cut(read[0])|, k - 1)
  {
    hide Cut;
    assert read[..k][0] == read[0] && read[..k][1..] == read[1..][..k - 1];
    assert AllPieces(read[..k]) == Cut(read[0]) + AllPieces(read[1..][..k - 1]);
    if k == 1 {
      assert read[1..][..k - 1] == [];
    }
  }

  lemma {:induction false} OverflowHasCause(ms: seq<Received>, i: nat, n: nat) returns (k: nat)
    requires n <= i && Split(ms, i, n).1 == Overflow
    ensures TooMany(Readable(ms), i, n, k)
    decreases |ms|
  {
    hide Cut;
    assert Readable(ms)[1..] == Readable(ms[1..]);
    if n + |Cut(ms[0])| > i + 1 {
      k := 1;
    } else {
      k := OverflowHasCause(ms[1..], i + 1, n + |Cut(ms[0])|);
      k := k + 1;
    }
    TooManyFront(Readable(ms), i, n, k);
  }

  lemma {:induction false} TooManyOverflows(ms: seq<Received>, i: nat, n: nat, k: nat)
    requires n <= i && TooMany(Readable(ms), i, n, k)
    ensures Split(ms, i, n).1 == Overflow
    decreases |ms|
  {
    hide Cut;
    assert Readable(ms)[1..] == Readable(ms[1..]);
    TooManyFront(Readable(ms), i, n, k);
    if n + |Cut(ms[0])| <= i + 1 {
      TooManyOverflows(ms[1..], i + 1, n + |Cut(ms[0])|, k - 1);
    }
  }

  /** The overflow error happens exactly when, through some message, there are more pieces than slots. */
  lemma OverflowExactly(ms: seq<Received>, read: seq<Received>, i: nat, n: nat)
    requires n <= i && read == Readable(ms)
    ensures Split(ms, i, n).1 == Overflow <==> exists k :: TooMany(read, i, n, k)
  {
    if Split(ms, i, n).1 == Overflow {
      var k := OverflowHasCause(ms, i, n);
      assert TooMany(read, i, n, k);
    }
    if k: nat :| TooMany(read, i, n, k) {
      TooManyOverflows(ms, i, n, k);
    }
  }

  lemma {:induction false} PiecesBound(ms: seq<Received>)
    requires forall m | m in ms :: |Cut(m)| <= MAX_DATAGRAMS
    ensures |AllPieces(ms)| <= MAX_DATAGRAMS * |ms|
  {
    if ms != [] {
      PiecesBound(ms[1..]);
    }
  }

  /** Reading into the last slots / 64 slots, with at most 64 segments a message, never overflows: the
      source reads into the last two of 128. */
  lemma BatchNeverOverflows(ms: seq<Received>, slots: nat, readAt: nat)
    requires readAt == slots - slots / MAX_DATAGRAMS && readAt + |ms| <= slots
    requires forall m | m in Readable(ms) :: |Cut(m)| <= MAX_DATAGRAMS
    ensures Split(ms, readAt, 0).1 != Overflow
  {
    var read := Readable(ms);
    OverflowExactly(ms, read, readAt, 0);
    forall k: nat
      ensures !TooMany(read, readAt, 0, k)
    {
      if 0 < k <= |read| {
        PiecesBound(read[..k]);
      }
    }
  }

  /** The pieces are the datagrams the sender's segmentation stands for exactly when the reported size does
      not exceed the received length; a larger size delivers bytes that were never received. */
  lemma CutIsExact(m: Received)
    requires m.gso.Size? && 0 < m.n <= |m.buf| && m.gso.size <= |m.buf|
    ensures Cut(m) == Tagged(Chunks(m.buf[..m.n], m.gso.size), m.addr) <==> m.gso.size <= m.n
  {
    if m.gso.size > m.n {
      assert |Cut(m)[0].data| == m.gso.size;
      assert |Tagged(Chunks(m.buf[..m.n], m.gso.size), m.addr)[0].data| == m.n;
    }
  }
}
