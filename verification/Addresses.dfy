/** Handing out client addresses: no two devices ever share one. */
module Addresses {
  import opened Runs

  // ---------------------------------------------------------------- dotted addresses

  const DIGITS: string := "0123456789"

  function Decimal(n: nat): (s: string)
    ensures s != [] && '.' !in s
  {
    if n < 10 then [DIGITS[n]] else Decimal(n / 10) + [DIGITS[n % 10]]
  }

  /** The two networks, with the server's own address in each. */
  datatype Net = Wg | Raw {
    function Prefix(): string {
      if Wg? then "10.66." else "10.70."
    }

    function Server(): string {
      if Wg? then "10.66.66.1" else "10.70.66.1"
    }
  }

  function Dotted(net: Net, b3: nat, b4: nat): (s: string)
    ensures s != ""
  {
    net.Prefix() + Decimal(b3) + "." + Decimal(b4)
  }

  lemma DigitsDiffer(a: nat, b: nat)
    requires a < 10 && b < 10 && DIGITS[a] == DIGITS[b]
    ensures a == b
  {}

  lemma {:induction false} DecimalUnique(a: nat, b: nat)
    requires Decimal(a) == Decimal(b)
    ensures a == b
  {
    var s, t := Decimal(a), Decimal(b);
    assert s[|s| - 1] == DIGITS[a % 10] && t[|t| - 1] == DIGITS[b % 10];
    DigitsDiffer(a % 10, b % 10);
    if a >= 10 && b >= 10 {
      assert s[..|s| - 1] == Decimal(a / 10) && t[..|t| - 1] == Decimal(b / 10);
      DecimalUnique(a / 10, b / 10);
    }
  }

  /** The last dot tells where the last number begins. */
  lemma LastDot(a: string, b: string, c: string, d: string)
    requires a + "." + b == c + "." + d && '.' !in b && '.' !in d
    ensures a == c && b == d
  {
    var s := a + "." + b;
    OnlyDot(a, b);
    OnlyDot(c, d);
    assert s[|a|] == s[|c|] == '.';
    assert a == s[..|a|] && c == s[..|c|] && b == s[|a| + 1..] && d == s[|c| + 1..];
  }

  lemma OnlyDot(a: string, b: string)
    requires '.' !in b
    ensures var s := a + "." + b; s[|a|] == '.' && forall i | |a| < i < |s| :: s[i] != '.'
  {
    var s := a + "." + b;
    forall i | |a| < i < |s|
      ensures s[i] != '.'
    {
      assert s[i] == b[i - |a| - 1];
    }
  }

  lemma DottedUnique(net: Net, a: nat, b: nat, c: nat, d: nat)
    requires Dotted(net, a, b) == Dotted(net, c, d)
    ensures a == c && b == d
  {
    hide Decimal;
    LastDot(net.Prefix() + Decimal(a), Decimal(b), net.Prefix() + Decimal(c), Decimal(d));
    var p := net.Prefix();
    assert Decimal(a) == (p + Decimal(a))[|p|..] && Decimal(c) == (p + Decimal(c))[|p|..];
    DecimalUnique(a, c);
    DecimalUnique(b, d);
  }

  /** What a string of digits means. */
  function Meaning(s: string): int {
    if s == [] then 0 else
      var k := |s| - 1;
      Meaning(s[..k]) * 10 + (s[k] as int - '0' as int)
  }

  /** A number is written with digits only, none of them a leading zero. */
  lemma {:induction false} DecimalMeans(n: nat)
    ensures Meaning(Decimal(n)) == n && (n > 0 ==> Decimal(n)[0] != '0')
    ensures forall c | c in Decimal(n) :: '0' <= c <= '9'
  {
    if n >= 10 {
      DecimalMeans(n / 10);
      assert Decimal(n)[..|Decimal(n)| - 1] == Decimal(n / 10);
    } else {
      assert [DIGITS[n]][..0] == [];
    }
  }

  // ---------------------------------------------------------------- the allocator

  const SCANNED: nat := 256 * 254

  /** The `k`-th address in the order they are tried. */
  function AddrAt(net: Net, k: nat): string {
    Dotted(net, k / 254, k % 254 + 1)
  }

  predicate Free(net: Net, used: set<string>, k: nat) {
    AddrAt(net, k) != net.Server() && AddrAt(net, k) !in used
  }

  /** The first free address from the `k`-th on, or nothing. */
  function Scan(net: Net, used: set<string>, k: nat): string
    decreases SCANNED - k
  {
    if k >= SCANNED then "" else if Free(net, used, k) then AddrAt(net, k) else Scan(net, used, k + 1)
  }

  function NextAddress(net: Net, used: set<string>): string {
    Scan(net, used, 0)
  }

  method FindAddress(net: Net, used: set<string>) returns (ip: string)
    ensures ip == NextAddress(net, used)
  {
    hide Dotted;
    var b3 := 0;
    while b3 <= 255
      invariant 0 <= b3 <= 256
      invariant NextAddress(net, used) == Scan(net, used, b3 * 254)
    {
      var b4 := 1;
      while b4 <= 254
        invariant 1 <= b4 <= 255
        invariant NextAddress(net, used) == Scan(net, used, b3 * 254 + b4 - 1)
      {
        ip := Dotted(net, b3, b4);
        assert ip == AddrAt(net, b3 * 254 + b4 - 1);
        if ip != net.Server() && ip !in used {
          return;
        }
        b4 := b4 + 1;
      }
      b3 := b3 + 1;
    }
    ip := "";
  }

  /** The addresses among the first `n` tried. */
  ghost function Tried(net: Net, n: nat): set<string> {
    if n == 0 then {} else Tried(net, n - 1) + {AddrAt(net, n - 1)}
  }

  lemma {:induction false} IsTried(net: Net, n: nat, k: nat)
    requires k < n
    ensures AddrAt(net, k) in Tried(net, n)
  {
    hide AddrAt;
    if k < n - 1 {
      IsTried(net, n - 1, k);
    }
  }

  lemma {:induction false} TriedAt(net: Net, n: nat, a: string) returns (k: nat)
    requires a in Tried(net, n)
    ensures k < n && a == AddrAt(net, k)
  {
    hide AddrAt;
    if a == AddrAt(net, n - 1) {
      k := n - 1;
    } else {
      k := TriedAt(net, n - 1, a);
    }
  }

  /** Every address a client can have. */
  ghost function Pool(net: Net): set<string> {
    Tried(net, SCANNED) - {net.Server()}
  }

  lemma {:induction false} ScanMeans(net: Net, used: set<string>, k: nat)
    ensures var ip := Scan(net, used, k);
            if ip == "" then forall j: nat | k <= j < SCANNED :: !Free(net, used, j)
            else exists j: nat :: k <= j < SCANNED && ip == AddrAt(net, j) && Free(net, used, j)
                                  && forall i: nat | k <= i < j :: !Free(net, used, i)
    decreases SCANNED - k
  {
    hide Free, AddrAt;
    if k < SCANNED {
      AddrNotEmpty(net, k);
      if !Free(net, used, k) {
        ScanMeans(net, used, k + 1);
      }
    }
  }

  lemma AddrNotEmpty(net: Net, k: nat)
    ensures AddrAt(net, k) != ""
  {}

  /** The allocator gives out an unused address of the network that is not the server's, and gives out none exactly
      when every address of the network is in use. */
  lemma NextAddressExactly(net: Net, used: set<string>)
    ensures NextAddress(net, used) == "" <==> Pool(net) <= used
    ensures NextAddress(net, used) != "" ==> NextAddress(net, used) in Pool(net) - used
  {
    hide AddrAt, Scan, Tried;
    ScanMeans(net, used, 0);
    var ip := Scan(net, used, 0);
    if ip == "" {
      forall a | a in Pool(net)
        ensures a in used
      {
        var k := TriedAt(net, SCANNED, a);
        assert !Free(net, used, k);
      }
    } else {
      var j: nat :| j < SCANNED && ip == AddrAt(net, j) && Free(net, used, j);
      IsTried(net, SCANNED, j);
    }
  }

  /** It is the first in order of the third and then of the fourth number, the fourth running from 1 to 254. */
  lemma FirstInOrder(net: Net, used: set<string>) returns (b3: nat, b4: nat)
    requires NextAddress(net, used) != ""
    ensures b3 <= 255 && 1 <= b4 <= 254 && NextAddress(net, used) == net.Prefix() + Decimal(b3) + "." + Decimal(b4)
    ensures forall a: nat, b: nat | a <= 255 && 1 <= b <= 254 && (a < b3 || (a == b3 && b < b4)) ::
              Dotted(net, a, b) == net.Server() || Dotted(net, a, b) in used
  {
    hide Scan, Decimal, Free;
    ScanMeans(net, used, 0);
    var j: nat :| j < SCANNED && NextAddress(net, used) == AddrAt(net, j)
                  && forall i: nat | i < j :: !Free(net, used, i);
    b3, b4 := j / 254, j % 254 + 1;
    hide Dotted;
    forall a: nat, b: nat | a <= 255 && 1 <= b <= 254 && (a < b3 || (a == b3 && b < b4))
      ensures Dotted(net, a, b) == net.Server() || Dotted(net, a, b) in used
    {
      NotFreeAt(net, used, a, b, j);
    }
  }

  lemma NotFreeAt(net: Net, used: set<string>, a: nat, b: nat, j: nat)
    requires 1 <= b <= 254 && (a < j / 254 || (a == j / 254 && b - 1 < j % 254))
    requires forall i: nat | i < j :: !Free(net, used, i)
    ensures Dotted(net, a, b) == net.Server() || Dotted(net, a, b) in used
  {
    hide Dotted;
    var i := a * 254 + b - 1;
    assert i < j && i / 254 == a && i % 254 == b - 1;
    assert !Free(net, used, i);
  }

  lemma {:induction false} TriedCount(net: Net, n: nat)
    ensures |Tried(net, n)| == n
  {
    hide AddrAt;
    if n > 0 {
      TriedCount(net, n - 1);
      NotYetTried(net, n - 1);
    }
  }

  lemma NotYetTried(net: Net, n: nat)
    ensures AddrAt(net, n) !in Tried(net, n)
  {
    hide Tried, Dotted;
    if AddrAt(net, n) in Tried(net, n) {
      var k := TriedAt(net, n, AddrAt(net, n));
      DottedUnique(net, k / 254, k % 254 + 1, n / 254, n % 254 + 1);
    }
  }

  /** Each network has 65023 addresses for clients. */
  lemma PoolCount(net: Net)
    ensures |Pool(net)| == 65023
  {
    hide Tried;
    TriedCount(net, SCANNED);
    ServerTried(net);
  }

  lemma ServerTried(net: Net)
    ensures net.Server() in Tried(net, SCANNED)
  {
    assert Decimal(66) == "66" && Decimal(1) == "1";
    assert AddrAt(net, 66 * 254) == net.Server();
    IsTried(net, SCANNED, 66 * 254);
  }

  // ---------------------------------------------------------------- the devices

  datatype Device = Device(ip: string, rawIp: string, hasKeys: bool) {
    function On(net: Net): string {
      if net.Wg? then ip else rawIp
    }
  }

  type Devices = map<string, Device>

  function Used(db: Devices, net: Net): set<string> {
    set id | id in db :: db[id].On(net)
  }

  function Next(db: Devices, net: Net): string {
    NextAddress(net, Used(db, net))
  }

  /** A device asks for its WireGuard configuration; `keysOk` says whether a key pair could be made. A device already
      in the table is changed in place, a new one is kept only with keys and an address. */
  function GetConf(db: Devices, id: string, keysOk: bool): Devices {
    var dev := if id in db then db[id] else Device(Next(db, Wg), "", false);
    if dev.hasKeys then db
    else
      var ip := if dev.ip == "" then Next(db, Wg) else dev.ip;
      if keysOk && ip != "" then db[id := Device(ip, dev.rawIp, true)]
      else if id in db then db[id := dev.(ip := ip)]
      else db
  }

  /** A device asks for its raw configuration. */
  function GetConfRaw(db: Devices, id: string): Devices {
    if id !in db then db[id := Device(Next(db, Wg), Next(db, Raw), false)] else AuthRaw(db, id)
  }

  /** A further connection of a device in raw mode. */
  function AuthRaw(db: Devices, id: string): Devices {
    if id in db && db[id].rawIp == "" then db[id := db[id].(rawIp := Next(db, Raw))] else db
  }

  /** The server's table of devices; its lock makes each method one step. */
  class DeviceTable {
    var devices: Devices

    constructor ()
      ensures devices == map[]
    {
      devices := map[];
    }

    method HandleGetConf(id: string, keysOk: bool) returns (ip: string)
      modifies this
      ensures devices == GetConf(old(devices), id, keysOk)
      ensures ip == if id in devices && devices[id].hasKeys then devices[id].ip else ""
    {
      var dev;
      var known := id in devices;
      if known {
        dev := devices[id];
      } else {
        var next := FindAddress(Wg, Used(devices, Wg));
        dev := Device(next, "", false);
      }
      if !dev.hasKeys {
        if dev.ip == "" {
          var next := FindAddress(Wg, Used(devices, Wg));
          dev := dev.(ip := next);
          if known {
            devices := devices[id := dev];
          }
        }
        if !keysOk || dev.ip == "" {
          return "";
        }
        dev := dev.(hasKeys := true);
        devices := devices[id := dev];
      }
      ip := dev.ip;
    }

    method HandleGetConfRaw(id: string) returns (ip: string)
      modifies this
      ensures devices == GetConfRaw(old(devices), id)
      ensures id in devices && ip == devices[id].rawIp
    {
      if id !in devices {
        var wg := FindAddress(Wg, Used(devices, Wg));
        var raw := FindAddress(Raw, Used(devices, Raw));
        devices := devices[id := Device(wg, raw, false)];
        return raw;
      }
      ip := HandleAuthRaw(id);
    }

    method HandleAuthRaw(id: string) returns (ip: string)
      modifies this
      ensures devices == AuthRaw(old(devices), id)
      ensures ip == if id in devices then devices[id].rawIp else ""
    {
      if id !in devices {
        return "";
      }
      if devices[id].rawIp == "" {
        var raw := FindAddress(Raw, Used(devices, Raw));
        devices := devices[id := devices[id].(rawIp := raw)];
      }
      ip := devices[id].rawIp;
    }
  }

  datatype Event =
    | ConfAsked(id: string, keysOk: bool)
    | RawAsked(id: string)
    | RawAuth(id: string)
    | Removed(ids: set<string>)
    | Loaded(table: Devices)

  function Step(db: Devices, e: Event): Devices {
    match e
    case ConfAsked(id, ok) => GetConf(db, id, ok)
    case RawAsked(id) => GetConfRaw(db, id)
    case RawAuth(id) => AuthRaw(db, id)
    case Removed(ids) => db - ids
    case Loaded(table) => table
  }

  ghost predicate Apart(db: Devices, net: Net, a: string, b: string)
    requires a in db && b in db
  {
    a != b && db[a].On(net) != "" ==> db[a].On(net) != db[b].On(net)
  }

  /** On this network no two devices share an address, and none has the server's. */
  ghost predicate Distinct(db: Devices, net: Net) {
    && (forall a, b | a in db && b in db :: Apart(db, net, a, b))
    && (forall a | a in db :: db[a].On(net) != net.Server())
  }

  /** Giving a device a fresh address, none, or the one it had keeps the addresses apart. */
  lemma PutDistinct(db: Devices, net: Net, id: string, dev: Device)
    requires Distinct(db, net)
    requires dev.On(net) == "" || dev.On(net) == Next(db, net) || (id in db && dev.On(net) == db[id].On(net))
    ensures Distinct(db[id := dev], net)
  {
    hide NextAddress;
    NextAddressExactly(net, Used(db, net));
    hide Pool;
    var to := db[id := dev];
    var ip := dev.On(net);
    assert net.Server() !in Pool(net) by { NotServer(net); }
    forall a | a in to && a != id
      ensures ip != "" ==> to[a].On(net) != ip
    {
      assert Apart(db, net, a, a);
      assert db[a].On(net) in Used(db, net);
      if id in db {
        assert Apart(db, net, id, a);
      }
    }
    forall a, b | a in to && b in to
      ensures Apart(to, net, a, b)
    {
      if a in db && b in db {
        assert Apart(db, net, a, b);
      }
    }
    assert net.Server() != "";
  }

  lemma NotServer(net: Net)
    ensures net.Server() !in Pool(net)
  {}

  lemma StepDistinct(db: Devices, e: Event, net: Net)
    requires Distinct(db, net) && (e.Loaded? ==> Distinct(e.table, net))
    ensures Distinct(Step(db, e), net)
  {
    hide Next;
    match e
    case ConfAsked(id, ok) =>
      var dev := if id in db then db[id] else Device(Next(db, Wg), "", false);
      hide Distinct;
      var ip := if dev.ip == "" then Next(db, Wg) else dev.ip;
      PutDistinct(db, net, id, Device(ip, dev.rawIp, true));
      PutDistinct(db, net, id, dev.(ip := ip));
    case RawAsked(id) =>
      hide Distinct;
      PutDistinct(db, net, id, Device(Next(db, Wg), Next(db, Raw), false));
      if id in db {
        PutDistinct(db, net, id, db[id].(rawIp := Next(db, Raw)));
      }
    case RawAuth(id) =>
      hide Distinct;
      if id in db {
        PutDistinct(db, net, id, db[id].(rawIp := Next(db, Raw)));
      }
    case Removed(ids) =>
      forall a, b | a in db - ids && b in db - ids
        ensures Apart(db - ids, net, a, b)
      {
        assert Apart(db, net, a, b);
      }
    case Loaded(table) =>
  }

  /** Whatever devices ask for and whoever is removed, in every order, no two devices ever have the same address on
      either network and none has the server's, as long as that is so of every table loaded from the file: a table is
      taken as it is. */
  lemma {:induction false} DistinctAlways(db: Devices, events: seq<Event>, net: Net)
    requires Distinct(db, net) && forall e | e in events && e.Loaded? :: Distinct(e.table, net)
    ensures Distinct(Run(Step, db, events), net)
  {
    hide Distinct, Step;
    if events != [] {
      var k := |events| - 1;
      assert events[k] in events;
      DistinctAlways(db, events[..k], net);
      StepDistinct(Run(Step, db, events[..k]), events[k], net);
    }
  }

  /** An address once given stays with its device until the device is removed or a table that says otherwise is
      loaded. */
  lemma {:induction false} AddressesStay(db: Devices, events: seq<Event>, net: Net, id: string)
    requires id in db && db[id].On(net) != ""
    requires forall e | e in events :: e.Removed? ==> id !in e.ids
    requires forall e | e in events && e.Loaded? :: id in e.table && e.table[id].On(net) == db[id].On(net)
    ensures var t := Run(Step, db, events); id in t && t[id].On(net) == db[id].On(net)
  {
    hide Next;
    if events != [] {
      assert events[|events| - 1] in events;
      AddressesStay(db, events[..|events| - 1], net, id);
    }
  }

  /** A device that asks gets what it lacks, unless the pool is used up or, for WireGuard, no keys could be made; no
      other device is touched. */
  lemma AskedIsAnswered(db: Devices, id: string, keysOk: bool)
    ensures var t := GetConfRaw(db, id);
            && id in t && (t[id].rawIp == "" ==> Pool(Raw) <= Used(db, Raw))
            && forall other | other != id :: (other in t <==> other in db) && (other in db ==> t[other] == db[other])
    ensures var t := GetConf(db, id, keysOk);
            && (keysOk && !(Pool(Wg) <= Used(db, Wg)) ==> id in t && t[id].hasKeys)
            && (id in t && t[id].hasKeys && !(id in db && db[id].hasKeys) ==> t[id].ip != "")
            && forall other | other != id :: (other in t <==> other in db) && (other in db ==> t[other] == db[other])
  {
    hide NextAddress, Pool, Used;
    NextAddressExactly(Raw, Used(db, Raw));
    NextAddressExactly(Wg, Used(db, Wg));
  }

  // ---------------------------------------------------------------- one request

  ghost predicate OthersKept(db: Devices, t: Devices, id: string) {
    forall other | other != id :: (other in t <==> other in db) && (other in db ==> t[other] == db[other])
  }

  /** A device with keys is left alone. Another keeps its address or gets the next; with keys made and an address it is
      stored with them, and without them only if it was stored before. */
  lemma ConfEffect(db: Devices, id: string, keysOk: bool)
    ensures var t, next := Step(db, ConfAsked(id, keysOk)), NextAddress(Wg, Used(db, Wg));
            && OthersKept(db, t, id)
            && if id in db then
                 var dev := db[id];
                 var ip := if dev.hasKeys || dev.ip != "" then dev.ip else next;
                 id in t && t[id] == Device(ip, dev.rawIp, dev.hasKeys || (keysOk && ip != ""))
               else (id in t <==> keysOk && next != "") && (id in t ==> t[id] == Device(next, "", true))
  {
    hide NextAddress, Used;
  }

  /** A new device that asks for the raw configuration gets both next addresses, a stored one the raw address it
      lacks. */
  lemma RawEffect(db: Devices, id: string)
    ensures var t := Step(db, RawAsked(id));
            && OthersKept(db, t, id) && id in t
            && t[id] == if id !in db then Device(NextAddress(Wg, Used(db, Wg)), NextAddress(Raw, Used(db, Raw)), false)
                        else if db[id].rawIp == "" then db[id].(rawIp := NextAddress(Raw, Used(db, Raw)))
                        else db[id]
  {
    hide NextAddress, Used;
  }

  /** A further connection does the same for a stored device and nothing for another. */
  lemma AuthEffect(db: Devices, id: string)
    ensures Step(db, RawAuth(id)) == if id in db then Step(db, RawAsked(id)) else db
  {
    hide NextAddress, Used;
  }

  /** A loaded table takes the place of the old one. */
  lemma LoadedEffect(db: Devices, table: Devices)
    ensures var t := Step(db, Loaded(table)); t.Keys == table.Keys && forall id | id in t :: t[id] == table[id]
  {}

  /** Exactly the named devices leave. */
  lemma RemovedEffect(db: Devices, ids: set<string>)
    ensures var t := Step(db, Removed(ids));
            t.Keys == db.Keys - ids && forall id | id in t :: t[id] == db[id]
  {}
}
