/** The receiver's replay window: 32-bit timestamps unwrapped to 64 bits, and a bounded map of seen nonces. */
module ReplayWindow {
  import opened Words
  import opened Nonce
  import opened Runs
  import opened Sets

  const SPAN: uint64 := 4096 * 961
  const MAX_ENTRIES: nat := 8192
  const HEADER_LEN: nat := 12

  /** What `accept` reads from a packet's header. */
  datatype Packet = Packet(ssrc: uint32, ts: uint32, nonce: bytes)

  datatype Window = Window(initialized: bool, ssrc: uint32, highest: uint64, seen: map<bytes, uint64>)

  const FRESH := Window(false, 0, 0, map[])

  function Header(wire: bytes): (p: Packet)
    requires |wire| >= HEADER_LEN
  {
    PowValues();
    var ssrc, ts := FromBigEndian(wire[8..12]), FromBigEndian(wire[4..8]);
    Packet(ssrc, ts, BuildNonce(ssrc, FromBigEndian(wire[2..4]), ts))
  }

  /** Packets with equal nonces have equal timestamps. */
  lemma NonceFixesTs(a: bytes, b: bytes)
    requires |a| >= HEADER_LEN && |b| >= HEADER_LEN && Header(a).nonce == Header(b).nonce
    ensures Header(a) == Header(b)
  {
    PowValues();
    NonceFields(FromBigEndian(a[8..12]), FromBigEndian(a[2..4]), FromBigEndian(a[4..8]));
    NonceFields(FromBigEndian(b[8..12]), FromBigEndian(b[2..4]), FromBigEndian(b[4..8]));
  }

  /** The 64-bit time a 32-bit timestamp stands for, given the highest time so far; uint64 arithmetic. */
  function Extend(highest: uint64, ts: uint32): (e: uint64)
  {
    var e := highest - highest % TWO32 + ts;
    if Add64(e, TWO31) < highest then Add64(e, TWO32)
    else if e > Add64(highest, TWO31) && e >= TWO32 then e - TWO32
    else e
  }

  lemma ExtendKeepsTs(highest: uint64, ts: uint32)
    ensures Extend(highest, ts) % TWO32 == ts
  {
  }

  function Cutoff(highest: uint64): uint64 {
    if highest < SPAN then 0 else highest - SPAN
  }

  /** The entries the eviction pass keeps. */
  function Kept(seen: map<bytes, uint64>, cutoff: uint64): (r: map<bytes, uint64>)
  {
    map k | k in seen && seen[k] >= cutoff :: seen[k]
  }

  /** The highest time moves up to `h`, and a full map is purged of what is now too old. */
  function Evicted(w: Window, h: uint64): (r: Window)
    ensures r.initialized == w.initialized && r.ssrc == w.ssrc && r.highest == h
  {
    w.(highest := h, seen := if |w.seen| >= MAX_ENTRIES then Kept(w.seen, Cutoff(h)) else w.seen)
  }

  /** A nonce is stored unless the map is still full. */
  function Stored(w: Window, nonce: bytes, e: uint64): (r: (Window, bool))
  {
    if |w.seen| >= MAX_ENTRIES then (w, false) else (w.(seen := w.seen[nonce := e]), true)
  }

  /** Recording a packet not seen before. */
  function InsertStep(w: Window, nonce: bytes, e: uint64): (r: (Window, bool))
  {
    Stored(Evicted(w, if e > w.highest then e else w.highest), nonce, e)
  }

  /** The window a packet finds: the first packet opens it. */
  function Opened(w: Window, p: Packet): (r: Window)
  {
    if w.initialized then w else Window(true, p.ssrc, p.ts, map[])
  }

  /** What one call of `accept` does to the window, and its answer. */
  function AcceptStep(w: Window, p: Packet): (r: (Window, bool))
  {
    var w1 := Opened(w, p);
    if w1.ssrc != p.ssrc || p.nonce in w1.seen then (w1, false)
    else
      var e := Extend(w1.highest, p.ts);
      if Add64(e, SPAN) < w1.highest then (w1, false) else InsertStep(w1, p.nonce, e)
  }

  /** The window object; its methods follow the source's statements. */
  class Replay {
    var initialized: bool
    var ssrc: uint32
    var highest: uint64
    var seen: map<bytes, uint64>

    function State(): Window
      reads this
    {
      Window(initialized, ssrc, highest, seen)
    }

    constructor ()
      ensures State() == FRESH && !initialized && seen == map[]
    {
      initialized, ssrc, highest, seen := false, 0, 0, map[];
    }

    /** The eviction loop visits the entries in an order of Go's choosing. */
    method Evict(cutoff: uint64)
      modifies this`seen
      ensures seen == Kept(old(seen), cutoff)
    {
      var left := seen.Keys;
      while left != {}
        invariant left <= seen.Keys <= old(seen).Keys
        invariant forall k | k in seen :: seen[k] == old(seen)[k]
        invariant forall k | k in old(seen).Keys - left :: k in seen <==> old(seen)[k] >= cutoff
        decreases left
      {
        var k :| k in left;
        if seen[k] < cutoff {
          seen := map j | j in seen && j != k :: seen[j];
        }
        left := left - {k};
      }
    }

    method Unwrap(ts: uint32) returns (extended: uint64)
      ensures extended == Extend(highest, ts)
    {
      var base := highest - highest % TWO32;
      extended := base + ts;
      if Add64(extended, TWO31) < highest {
        extended := Add64(extended, TWO32);
      } else if extended > Add64(highest, TWO31) && extended >= TWO32 {
        extended := extended - TWO32;
      }
    }

    method Insert(nonce: bytes, extended: uint64) returns (ok: bool)
      modifies this`highest, this`seen
      ensures (State(), ok) == InsertStep(old(State()), nonce, extended)
    {
      if extended > highest {
        highest := extended;
      }
      if |seen| >= MAX_ENTRIES {
        Evict(if highest < SPAN then 0 else highest - SPAN);
        if |seen| >= MAX_ENTRIES {
          return false;
        }
      }
      seen := seen[nonce := extended];
      return true;
    }

    method Accept(wire: bytes) returns (ok: bool)
      modifies this
      ensures |wire| < 12 ==> !ok && State() == old(State())
      ensures |wire| >= 12 ==> (State(), ok) == AcceptStep(old(State()), Header(wire))
    {
      if |wire| < HEADER_LEN {
        return false;
      }
      var p := Header(wire);
      if !initialized {
        ssrc := p.ssrc;
        highest := p.ts;
        seen := map[];
        initialized := true;
      } else if ssrc != p.ssrc {
        return false;
      }
      if p.nonce in seen {
        return false;
      }
      var extended := Unwrap(p.ts);
      if Add64(extended, SPAN) < highest {
        return false;
      }
      ok := Insert(p.nonce, extended);
    }
  }

  // ---------- safety for arbitrary inputs ----------

  ghost predicate Valid(w: Window) {
    && |w.seen| <= MAX_ENTRIES
    && (!w.initialized ==> w.seen == map[])
    && (forall k | k in w.seen :: w.seen[k] <= w.highest)
  }

  lemma KeptSmaller(seen: map<bytes, uint64>, cutoff: uint64)
    ensures |Kept(seen, cutoff)| <= |seen|
  {
    SubsetSize(Kept(seen, cutoff).Keys, seen.Keys);
  }

  lemma InsertKeepsValid(w: Window, nonce: bytes, e: uint64)
    requires Valid(w) && w.initialized
    ensures Valid(InsertStep(w, nonce, e).0) && w.highest <= InsertStep(w, nonce, e).0.highest
  {
    KeptSmaller(w.seen, Cutoff(InsertStep(w, nonce, e).0.highest));
  }

  /** One step keeps the bounds and never moves the highest time back. */
  lemma StepKeepsValid(w: Window, p: Packet)
    requires Valid(w)
    ensures var w' := AcceptStep(w, p).0;
            Valid(w') && w'.initialized && (w.initialized ==> w.highest <= w'.highest)
  {
    var w1 := Opened(w, p);
    InsertKeepsValid(w1, p.nonce, Extend(w1.highest, p.ts));
  }

  /** The window after a sequence of packets. */
  function After(w: Window, ps: seq<Packet>): Window {
    Run((v: Window, p: Packet) => AcceptStep(v, p).0, w, ps)
  }

  /** Whether packet `i` of a run is accepted. */
  predicate Accepted(w: Window, ps: seq<Packet>, i: nat)
    requires i < |ps|
  {
    AcceptStep(After(w, ps[..i]), ps[i]).1
  }

  lemma AcceptedMeans(w: Window, ps: seq<Packet>, i: nat)
    requires i < |ps|
    ensures Accepted(w, ps, i) <==> AcceptStep(After(w, ps[..i]), ps[i]).1
  {}

  lemma AfterNext(w: Window, ps: seq<Packet>, i: nat)
    requires i < |ps|
    ensures After(w, ps[..i + 1]) == AcceptStep(After(w, ps[..i]), ps[i]).0
  {
    hide AcceptStep;
    RunNext((v: Window, p: Packet) => AcceptStep(v, p).0, w, ps, i);
  }

  lemma AfterSplit(w: Window, ps: seq<Packet>, i: nat)
    requires i <= |ps|
    ensures After(w, ps) == After(After(w, ps[..i]), ps[i..])
  {
    hide AcceptStep;
    RunSplit((v: Window, p: Packet) => AcceptStep(v, p).0, w, ps[..i], ps[i..]);
    assert ps == ps[..i] + ps[i..];
  }

  lemma AfterKeeps(inv: Window -> bool, w: Window, ps: seq<Packet>)
    requires inv(w) && forall v, p :: inv(v) ==> inv(AcceptStep(v, p).0)
    ensures inv(After(w, ps))
  {
    hide AcceptStep;
    RunKeeps((v: Window, p: Packet) => AcceptStep(v, p).0, inv, w, ps);
  }

  /** Over any packets at all: a bounded map, with no time above the highest. */
  lemma RunIsBounded(ps: seq<Packet>)
    ensures Valid(After(FRESH, ps))
  {
    forall v, p | Valid(v) ensures Valid(AcceptStep(v, p).0) { StepKeepsValid(v, p); }
    AfterKeeps(v => Valid(v), FRESH, ps);
  }

  /** The highest time never decreases along a run. */
  lemma HighestGrows(ps: seq<Packet>, i: nat)
    requires 0 < i <= |ps|
    ensures After(FRESH, ps[..i]).highest <= After(FRESH, ps).highest
  {
    var w := After(FRESH, ps[..i]);
    var inv := (v: Window) => Valid(v) && v.initialized && v.highest >= w.highest;
    RunIsBounded(ps[..i - 1]);
    AfterNext(FRESH, ps, i - 1);
    StepKeepsValid(After(FRESH, ps[..i - 1]), ps[i - 1]);
    forall v, p | inv(v) ensures inv(AcceptStep(v, p).0) { StepKeepsValid(v, p); }
    AfterKeeps(inv, w, ps[i..]);
    AfterSplit(FRESH, ps, i);
  }

  /** The window can still refuse `nonce`, accepted at time `e`: it is stored, or too old. */
  ghost predicate Remembers(w: Window, nonce: bytes, e: uint64) {
    w.initialized && e <= w.highest && ((nonce in w.seen && w.seen[nonce] == e) || e + SPAN < w.highest)
  }

  lemma StepRemembers(w: Window, p: Packet, nonce: bytes, e: uint64)
    requires Valid(w) && Remembers(w, nonce, e)
    ensures Remembers(AcceptStep(w, p).0, nonce, e)
  {
    StepKeepsValid(w, p);
  }

  /** A time less than 2^31 below the highest is recovered from its low 32 bits, unless uint64 wraps,
      and then the packet falls below the window. */
  lemma ExtendBehind(highest: uint64, e: uint64)
    requires e <= highest && highest - e < TWO31
    ensures Extend(highest, e % TWO32) == e || Add64(Extend(highest, e % TWO32), SPAN) < highest
  {
    var hb, eb := highest / TWO32, e / TWO32;
    assert highest == hb * TWO32 + highest % TWO32;
    assert e == eb * TWO32 + e % TWO32;
    assert hb - 1 <= eb <= hb;
  }

  lemma RememberedIsRefused(w: Window, p: Packet, e: uint64)
    requires Valid(w) && e % TWO32 == p.ts
    requires Remembers(w, p.nonce, e) && w.highest - e < TWO31
    ensures !AcceptStep(w, p).1
  {
    if p.nonce !in w.seen {
      ExtendBehind(w.highest, e);
    }
  }

  /** The 64-bit time packet `i` of a run is given. */
  function TimeGiven(w: Window, ps: seq<Packet>, i: nat): (e: uint64)
    requires i < |ps|
  {
    Extend(Opened(After(w, ps[..i]), ps[i]).highest, ps[i].ts)
  }

  /** Acceptance stores the nonce under the time given. */
  lemma AcceptanceStores(w: Window, p: Packet)
    requires Valid(w) && AcceptStep(w, p).1
    ensures Remembers(AcceptStep(w, p).0, p.nonce, Extend(Opened(w, p).highest, p.ts))
  {
  }

  /** Once accepted, remembered at every later point of the run. */
  lemma RemembersUntil(ps: seq<Packet>, i: nat, j: nat)
    requires i < j <= |ps| && Accepted(FRESH, ps, i)
    ensures Valid(After(FRESH, ps[..j])) && Remembers(After(FRESH, ps[..j]), ps[i].nonce, TimeGiven(FRESH, ps, i))
  {
    assert ps[..j][..i + 1] == ps[..i + 1] && ps[..j][i + 1..] == ps[i + 1..j];
    var e := TimeGiven(FRESH, ps, i);
    var inv := (v: Window) => Valid(v) && Remembers(v, ps[i].nonce, e);
    RunIsBounded(ps[..i]);
    AfterNext(FRESH, ps, i);
    AcceptanceStores(After(FRESH, ps[..i]), ps[i]);
    StepKeepsValid(After(FRESH, ps[..i]), ps[i]);
    forall v, p | inv(v) ensures inv(AcceptStep(v, p).0) {
      StepKeepsValid(v, p);
      StepRemembers(v, p, ps[i].nonce, e);
    }
    AfterKeeps(inv, After(FRESH, ps[..i + 1]), ps[i + 1..j]);
    AfterSplit(FRESH, ps[..j], i + 1);
  }

  /** No nonce is accepted twice while the highest time is within 2^31 of the time it was accepted at,
      whatever arrives in between and whatever was evicted. */
  lemma NeverAcceptedTwice(ps: seq<Packet>, i: nat, j: nat)
    requires i < j < |ps| && ps[i] == ps[j] && Accepted(FRESH, ps, i)
    requires After(FRESH, ps[..j]).highest - TimeGiven(FRESH, ps, i) < TWO31
    ensures !Accepted(FRESH, ps, j)
  {
    RemembersUntil(ps, i, j);
    ExtendKeepsTs(Opened(After(FRESH, ps[..i]), ps[i]).highest, ps[i].ts);
    RememberedIsRefused(After(FRESH, ps[..j]), ps[j], TimeGiven(FRESH, ps, i));
  }

  function Headers(wires: seq<bytes>): (ps: seq<Packet>)
    requires forall w | w in wires :: |w| >= HEADER_LEN
    ensures |ps| == |wires| && forall i | 0 <= i < |wires| :: ps[i] == Header(wires[i])
  {
    seq(|wires|, i requires 0 <= i < |wires| => Header(wires[i]))
  }

  /** The same for whole wires: sharing the nonce is enough. */
  lemma NonceOnlyOnce(wires: seq<bytes>, i: nat, j: nat)
    requires forall w | w in wires :: |w| >= HEADER_LEN
    requires i < j < |wires| && Header(wires[i]).nonce == Header(wires[j]).nonce
    requires Accepted(FRESH, Headers(wires), i)
    requires After(FRESH, Headers(wires)[..j]).highest - TimeGiven(FRESH, Headers(wires), i) < TWO31
    ensures !Accepted(FRESH, Headers(wires), j)
  {
    hide Header, Accepted, After, TimeGiven;
    NonceFixesTs(wires[i], wires[j]);
    NeverAcceptedTwice(Headers(wires), i, j);
  }
}
