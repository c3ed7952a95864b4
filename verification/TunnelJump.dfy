/** What a receiver hands up when packets from before the epoch its window opened in arrive. */
module TunnelJump {
  import opened Words
  import opened ReplayWindow
  import opened ReplayDelivery
  import opened ReplayJump
  import opened Tunnel
  import opened TunnelRuns

  lemma GivenNext(k: Clock, cs: seq<nat>, n: nat)
    requires n < |cs|
    ensures Given(k, cs[..n + 1]) == Given(k, cs[..n]) + (if AcceptedAt(k, cs, n) then [cs[n]] else [])
  {
    hide AcceptStep, After;
    assert cs[..n + 1][..n] == cs[..n];
    assert Arrivals(k, cs)[..n] == Arrivals(k, cs[..n]);
    AcceptedMeans(FRESH, Arrivals(k, cs), n);
  }

  /** How often the first `n` arrivals hand packet `c` up. */
  ghost function Times(k: Clock, cs: seq<nat>, n: nat, c: nat): nat
    requires n <= |cs|
  {
    multiset(Given(k, cs[..n]))[c]
  }

  lemma TimesNext(k: Clock, cs: seq<nat>, n: nat, c: nat)
    requires n < |cs|
    ensures Times(k, cs, n + 1, c) == Times(k, cs, n, c) + (if AcceptedAt(k, cs, n) && cs[n] == c then 1 else 0)
  {
    hide AcceptedAt, Given;
    GivenNext(k, cs, n);
  }

  lemma TimesNone(k: Clock, cs: seq<nat>, c: nat)
    ensures Times(k, cs, 0, c) == 0
  {
    assert cs[..0] == [];
  }

  /** The jump is one arrival. */
  lemma OneJump(k: Clock, cs: seq<nat>, i: nat, j: nat)
    requires FirstEarly(k, cs, i) && FirstEarly(k, cs, j)
    ensures i == j
  {}

  /** The last arrival that handed packet `c` up and, if there were two, the jump between them. */
  lemma {:induction false} Places(k: Clock, cs: seq<nat>, n: nat, c: nat) returns (last: nat, jump: nat)
    requires k.Lawful() && AllClose(cs) && n <= |cs|
    ensures Times(k, cs, n, c) <= 2
    ensures Times(k, cs, n, c) >= 1 ==> last < n && AcceptedAt(k, cs, last) && cs[last] == c
    ensures Times(k, cs, n, c) == 2 ==> FirstEarly(k, cs, jump) && jump < last && c in cs[..jump]
  {
    hide Clock.Lawful, AllClose, AcceptedAt, Times, FirstEarly;
    last, jump := 0, 0;
    if n == 0 {
      TimesNone(k, cs, c);
    } else {
      last, jump := Places(k, cs, n - 1, c);
      TimesNext(k, cs, n - 1, c);
      if AcceptedAt(k, cs, n - 1) && cs[n - 1] == c {
        if Times(k, cs, n - 1, c) > 0 {
          var i := TwiceAcrossJump(k, cs, last, n - 1);
          if Times(k, cs, n - 1, c) == 2 {
            OneJump(k, cs, i, jump);
          }
          assert cs[..i][last] == c;
          jump := i;
        }
        last := n - 1;
      }
    }
  }

  /** A packet that arrives is handed up: its first copy is. */
  lemma {:induction false} AtLeastOnce(k: Clock, cs: seq<nat>, n: nat, c: nat)
    requires k.Lawful() && AllClose(cs) && n <= |cs| && c in cs[..n]
    ensures Times(k, cs, n, c) >= 1
  {
    hide Clock.Lawful, AllClose, AcceptedAt, Times;
    TimesNext(k, cs, n - 1, c);
    if c in cs[..n - 1] {
      AtLeastOnce(k, cs, n - 1, c);
    } else {
      assert cs[n - 1] == c;
      FirstCopiesAlways(k, cs, n - 1);
    }
  }

  /** Packet `c` comes before the jump and again after it. */
  ghost predicate Straddles(k: Clock, cs: seq<nat>, c: nat) {
    exists i: nat :: FirstEarly(k, cs, i) && c in cs[..i] && c in cs[i..]
  }

  /** Of any datagrams whose packets are close to each other, from whichever epoch, the payload of every packet that
      opens is handed up once, or twice, and twice only if it came before the jump and again after it. */
  lemma HandsUpClose(l: Link, ws: seq<bytes>, c: nat)
    requires l.Sound() && Honest(l, ws) && PeerFirst(l, ws) && AllClose(Copies(l, ws))
    ensures var k, cs := ClockOf(l.s), Copies(l, ws);
            var times := multiset(Given(k, cs))[c];
            && Received(l, ws).up == Payloads(l, Given(k, cs))
            && (if c in cs then 1 <= times <= 2 else times == 0)
            && (times == 2 ==> Straddles(k, cs, c))
  {
    hide Received, Honest, PeerFirst, AllClose, After, AcceptedAt, Given, FirstEarly;
    SenderIsLawful(l.s);
    var k, cs := ClockOf(l.s), Copies(l, ws);
    hide Copies, ClockOf, Clock.Lawful;
    HandsUpAccepted(l, ws);
    assert cs[..|cs|] == cs;
    var last, jump := Places(k, cs, |cs|, c);
    if c in cs {
      AtLeastOnce(k, cs, |cs|, c);
    }
    if Times(k, cs, |cs|, c) == 2 {
      assert cs[jump..][last - jump] == c;
      assert Straddles(k, cs, c);
    }
  }
}
