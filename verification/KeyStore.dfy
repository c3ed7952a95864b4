/** The server's unwrapping keys, and that they stay in step with the password database. */
module KeyStore {
  import opened Runs

  /** How a password's key is named; a password's key is determined by the password. */
  type Ids = string -> string

  datatype Key = Key(id: string, password: string)

  function KeyFor(ids: Ids, p: string): Key {
    Key(ids(p), p)
  }

  function Added(keys: seq<Key>, k: Key): seq<Key> {
    if exists e | e in keys :: e.id == k.id then keys else keys + [k]
  }

  /** Without the first key of that name. */
  function Dropped(keys: seq<Key>, id: string): seq<Key> {
    if keys == [] then []
    else if keys[0].id == id then keys[1..]
    else [keys[0]] + Dropped(keys[1..], id)
  }

  function Collected(ids: Ids, keys: seq<Key>, generated: seq<string>): seq<Key> {
    if generated == [] then keys else
      var k := |generated| - 1;
      var before := Collected(ids, keys, generated[..k]);
      if generated[k] == "" then before else Added(before, KeyFor(ids, generated[k]))
  }

  function MainKeys(ids: Ids, main: string): seq<Key> {
    if main == "" then [] else [KeyFor(ids, main)]
  }

  class WrapKeyStore {
    var entries: seq<Key>
    const ids: Ids

    constructor (ids: Ids)
      ensures entries == [] && this.ids == ids
    {
      entries := [];
      this.ids := ids;
    }

    /** Replace every key. */
    method SetPasswords(main: string, generated: seq<string>)
      modifies this
      ensures entries == Collected(ids, MainKeys(ids, main), generated)
    {
      var next := if main == "" then [] else [Key(ids(main), main)];
      var i := 0;
      assert generated[..0] == [];
      while i < |generated|
        invariant 0 <= i <= |generated|
        invariant next == Collected(ids, MainKeys(ids, main), generated[..i])
      {
        assert generated[..i + 1][..i] == generated[..i];
        var p := generated[i];
        i := i + 1;
        if p == "" {
          continue;
        }
        if !exists e | e in next :: e.id == ids(p) {
          next := next + [Key(ids(p), p)];
        }
      }
      assert generated[..i] == generated;
      entries := next;
    }

    /** A key for one more password; only the empty password has none. */
    method AddPassword(p: string) returns (ok: bool)
      modifies this
      ensures ok == (p != "")
      ensures entries == if ok then Added(old(entries), KeyFor(ids, p)) else old(entries)
    {
      if p == "" {
        return false;
      }
      var i := 0;
      while i < |entries|
        invariant 0 <= i <= |entries| && entries == old(entries)
        invariant forall e | e in entries[..i] :: e.id != ids(p)
      {
        if entries[i].id == ids(p) {
          return true;
        }
        i := i + 1;
      }
      entries := entries + [Key(ids(p), p)];
      ok := true;
    }

    method RemovePassword(p: string)
      modifies this
      ensures entries == Dropped(old(entries), ids(p))
    {
      var i := 0;
      while i < |entries|
        invariant 0 <= i <= |entries| && entries == old(entries)
        invariant Dropped(entries, ids(p)) == entries[..i] + Dropped(entries[i..], ids(p))
      {
        if entries[i].id == ids(p) {
          entries := entries[..i] + entries[i + 1..];
          return;
        }
        i := i + 1;
      }
    }
  }

  // ---------------------------------------------------------------- the database

  /** A row of the password table; `Null` is a row the file left empty. */
  datatype Entry = Null | Entry(expiresAt: int, deactivated: bool)

  const MAX_GENERATED: nat := 10
  const DAY: int := 86400

  predicate Expired(e: Entry, now: int) {
    e == Null || (e.expiresAt != 0 && now > e.expiresAt)
  }

  datatype State = State(db: map<string, Entry>, main: string, keys: seq<Key>)

  /** The clock as each row is looked at: it is read anew for every row. */
  type Clock = string -> int

  ghost predicate Earlier(a: Clock, b: Clock) {
    forall p :: a(p) <= b(p)
  }

  ghost predicate Lists(order: seq<string>, ps: set<string>) {
    (set p | p in order) == ps
  }

  lemma ListsNext(order: seq<string>, ps: set<string>, p: string)
    requires Lists(order, ps)
    ensures Lists(order + [p], ps + {p})
  {}

  function Stale(db: map<string, Entry>, at: Clock): set<string> {
    set p | p in db && Expired(db[p], at(p))
  }

  function Usable(db: map<string, Entry>, at: Clock): set<string> {
    set p | p in db && !Expired(db[p], at(p)) && !db[p].deactivated
  }

  function DropAll(ids: Ids, keys: seq<Key>, order: seq<string>): seq<Key> {
    if order == [] then keys else Dropped(DropAll(ids, keys, order[..|order| - 1]), ids(order[|order| - 1]))
  }

  /** Expired rows go, and their keys with them, in the order the table happens to be walked. */
  function Cleanup(ids: Ids, s: State, at: Clock, order: seq<string>): State {
    s.(db := s.db - Stale(s.db, at), keys := DropAll(ids, s.keys, order))
  }

  /** The keys rebuilt from the table. */
  function Refresh(ids: Ids, s: State, order: seq<string>): State {
    s.(keys := Collected(ids, MainKeys(ids, s.main), order))
  }

  /** The first of the drawn passwords that is not taken. */
  function FirstNew(db: map<string, Entry>, drawn: seq<string>): (p: string)
    ensures p != "" ==> p in drawn && p !in db
  {
    if drawn == [] then "" else if drawn[0] !in db then drawn[0] else FirstNew(db, drawn[1..])
  }

  function Create(ids: Ids, s: State, drawn: seq<string>, now: int, days: nat): State {
    var p := FirstNew(s.db, drawn);
    if |s.db| >= MAX_GENERATED || p == "" then s
    else s.(db := s.db[p := Entry(now + days * DAY, false)], keys := Added(s.keys, KeyFor(ids, p)))
  }

  predicate Row(s: State, p: string) {
    p != "" && p in s.db && s.db[p] != Null
  }

  function Update(s: State, p: string, expiresAt: int): State {
    if Row(s, p) then s.(db := s.db[p := s.db[p].(expiresAt := expiresAt)]) else s
  }

  function Deactivate(ids: Ids, s: State, p: string): State {
    if Row(s, p) then s.(db := s.db[p := s.db[p].(deactivated := true)], keys := Dropped(s.keys, ids(p))) else s
  }

  function Activate(ids: Ids, s: State, p: string): State {
    if Row(s, p) then
      s.(db := s.db[p := s.db[p].(deactivated := false)], keys := Added(s.keys, KeyFor(ids, p)))
    else s
  }

  /** The bot's delete asks for no row. */
  function BotDelete(ids: Ids, s: State, p: string): State {
    s.(db := s.db - {p}, keys := Dropped(s.keys, ids(p)))
  }

  function Delete(ids: Ids, s: State, p: string): State {
    if Row(s, p) then s.(db := s.db - {p}, keys := Dropped(s.keys, ids(p))) else s
  }

  /** The table read again from its file at `t1`, cleaned, and the keys rebuilt at `t2`. */
  function Reload(ids: Ids, s: State, db: map<string, Entry>, t1: Clock,
                  stale: seq<string>, usable: seq<string>): State {
    Refresh(ids, Cleanup(ids, s.(db := db), t1, stale), usable)
  }

  /** The server's password table and its key store; the database lock makes each method one step. */
  class PasswordTable {
    var db: map<string, Entry>
    const main: string
    const store: WrapKeyStore

    ghost function Value(): State
      reads this, store
    {
      State(db, main, store.entries)
    }

    constructor (main: string, store: WrapKeyStore)
      ensures db == map[] && this.main == main && this.store == store
    {
      db := map[];
      this.main, this.store := main, store;
    }

    /** Expired rows are removed as the walk over the table meets them; `order` is the order it happened to take. */
    method CleanupExpired(at: Clock) returns (ghost order: seq<string>)
      modifies this, store
      ensures Lists(order, Stale(old(db), at))
      ensures Value() == Cleanup(store.ids, old(Value()), at, order)
    {
      order := [];
      var left := db.Keys;
      while left != {}
        invariant left <= old(db).Keys && left <= db.Keys
        invariant Lists(order, Stale(old(db), at) - left)
        invariant db == old(db) - (Stale(old(db), at) - left)
        invariant store.entries == DropAll(store.ids, old(store.entries), order)
        decreases left
      {
        var p :| p in left;
        ghost var gone := Stale(old(db), at) - left;
        left := left - {p};
        if Expired(db[p], at(p)) {
          assert Stale(old(db), at) - left == gone + {p};
          ListsNext(order, gone, p);
          db := db - {p};
          store.RemovePassword(p);
          assert (order + [p])[..|order|] == order;
          order := order + [p];
        } else {
          assert Stale(old(db), at) - left == gone;
        }
      }
      assert Stale(old(db), at) - left == Stale(old(db), at);
    }

    method CreatePassword(drawn: seq<string>, now: int, days: nat) returns (p: string)
      modifies this, store
      ensures Value() == Create(store.ids, old(Value()), drawn, now, days)
      ensures p == if |old(db)| >= MAX_GENERATED then "" else FirstNew(old(db), drawn)
    {
      if |db| >= MAX_GENERATED {
        return "";
      }
      p := "";
      var i := 0;
      while i < |drawn|
        invariant 0 <= i <= |drawn| && p == ""
        invariant FirstNew(db, drawn) == FirstNew(db, drawn[i..])
        invariant db == old(db) && store.entries == old(store.entries)
      {
        if drawn[i] !in db {
          p := drawn[i];
          break;
        }
        i := i + 1;
      }
      if p == "" {
        return;
      }
      var ok := store.AddPassword(p);
      db := db[p := Entry(now + days * DAY, false)];
    }

    method DeactivatePassword(p: string)
      modifies this, store
      ensures Value() == Deactivate(store.ids, old(Value()), p)
    {
      if p != "" && p in db && db[p] != Null {
        db := db[p := db[p].(deactivated := true)];
        store.RemovePassword(p);
      }
    }

    method ActivatePassword(p: string)
      modifies this, store
      ensures Value() == Activate(store.ids, old(Value()), p)
    {
      if p != "" && p in db && db[p] != Null {
        var ok := store.AddPassword(p);
        db := db[p := db[p].(deactivated := false)];
      }
    }

    method BotDeletePassword(p: string)
      modifies this, store
      ensures Value() == BotDelete(store.ids, old(Value()), p)
    {
      db := db - {p};
      store.RemovePassword(p);
    }

    method DeletePassword(p: string)
      modifies this, store
      ensures Value() == Delete(store.ids, old(Value()), p)
    {
      if p != "" && p in db && db[p] != Null {
        db := db - {p};
        store.RemovePassword(p);
      }
    }

    /** The rows that are usable now, in the order the walk meets them, become the keys. */
    method RefreshKeys(at: Clock) returns (ghost order: seq<string>)
      modifies store
      ensures Lists(order, Usable(db, at))
      ensures Value() == Refresh(store.ids, old(Value()), order)
    {
      var usable: seq<string> := [];
      var left := db.Keys;
      while left != {}
        invariant left <= db.Keys
        invariant Lists(usable, Usable(db, at) - left)
        decreases left
      {
        var p :| p in left;
        ghost var listed := Usable(db, at) - left;
        left := left - {p};
        if !Expired(db[p], at(p)) && !db[p].deactivated {
          assert Usable(db, at) - left == listed + {p};
          ListsNext(usable, listed, p);
          usable := usable + [p];
        } else {
          assert Usable(db, at) - left == listed;
        }
      }
      assert Usable(db, at) - left == Usable(db, at);
      store.SetPasswords(main, usable);
      order := usable;
    }

    method ReloadTable(loaded: map<string, Entry>, t1: Clock, t2: Clock)
        returns (ghost stale: seq<string>, ghost usable: seq<string>)
      modifies this, store
      ensures Lists(stale, Stale(loaded, t1)) && Lists(usable, Usable(loaded - Stale(loaded, t1), t2))
      ensures Value() == Reload(store.ids, old(Value()), loaded, t1, stale, usable)
    {
      db := loaded;
      stale := CleanupExpired(t1);
      usable := RefreshKeys(t2);
    }
  }

  // ---------------------------------------------------------------- agreement

  ghost predicate Injective(ids: Ids) {
    forall p, q :: ids(p) == ids(q) ==> p == q
  }

  ghost predicate NoRepeats(keys: seq<Key>) {
    forall i, j | 0 <= i < j < |keys| :: keys[i].id != keys[j].id
  }

  ghost function Passwords(keys: seq<Key>): set<string> {
    set k | k in keys :: k.password
  }

  /** The keys are duplicate-free, properly named, and those of the passwords `ps`. */
  ghost predicate Holds(ids: Ids, keys: seq<Key>, ps: set<string>) {
    && NoRepeats(keys)
    && (forall k | k in keys :: k.id == ids(k.password))
    && Passwords(keys) == ps
  }

  ghost function MainSet(main: string): set<string> {
    if main == "" then {} else {main}
  }

  /** The passwords that should have a key. */
  ghost function Wanted(s: State): set<string> {
    MainSet(s.main) + set p | p in s.db && p != "" && s.db[p] != Null && !s.db[p].deactivated
  }

  ghost predicate Agrees(ids: Ids, s: State) {
    s.main !in s.db && Holds(ids, s.keys, Wanted(s))
  }

  lemma AddedHolds(ids: Ids, keys: seq<Key>, ps: set<string>, p: string)
    requires Injective(ids) && Holds(ids, keys, ps)
    ensures Holds(ids, Added(keys, KeyFor(ids, p)), ps + {p})
  {
    var k := KeyFor(ids, p);
    if exists e | e in keys :: e.id == k.id {
      var e :| e in keys && e.id == k.id;
      assert e.password == p;
      assert p in ps;
      assert ps + {p} == ps;
    } else {
      assert Passwords(keys + [k]) == Passwords(keys) + {p};
    }
  }

  lemma {:induction false} DroppedExactly(keys: seq<Key>, id: string)
    requires NoRepeats(keys)
    ensures NoRepeats(Dropped(keys, id))
    ensures forall k :: k in Dropped(keys, id) <==> k in keys && k.id != id
  {
    if keys != [] {
      var rest := keys[1..];
      assert keys == [keys[0]] + rest;
      DroppedExactly(rest, id);
      if keys[0].id == id {
        assert forall k | k in rest :: k.id != id;
      } else {
        var d := Dropped(rest, id);
        assert forall k | k in d :: k in rest;
        assert forall i | 0 <= i < |d| :: d[i] in rest;
      }
    }
  }

  lemma DroppedHolds(ids: Ids, keys: seq<Key>, ps: set<string>, p: string)
    requires Injective(ids) && Holds(ids, keys, ps)
    ensures Holds(ids, Dropped(keys, ids(p)), ps - {p})
  {
    DroppedExactly(keys, ids(p));
    var d := Dropped(keys, ids(p));
    forall q
      ensures q in Passwords(d) <==> q in ps && q != p
    {
      if q in ps && q != p {
        var k :| k in keys && k.password == q;
        assert k in d;
      }
    }
  }

  lemma {:induction false} CollectedHolds(ids: Ids, keys: seq<Key>, ps: set<string>, generated: seq<string>)
    requires Injective(ids) && Holds(ids, keys, ps)
    ensures Holds(ids, Collected(ids, keys, generated), ps + ((set p | p in generated) - {""}))
  {
    hide Injective, Holds, Added;
    if generated == [] {
      assert ps + ((set p | p in generated) - {""}) == ps;
    } else {
      var k := |generated| - 1;
      var before, p := generated[..k], generated[k];
      var sofar := ps + ((set q | q in before) - {""});
      CollectedHolds(ids, keys, ps, before);
      assert generated == before + [p];
      if p == "" {
        assert ps + ((set q | q in generated) - {""}) == sofar;
      } else {
        AddedHolds(ids, Collected(ids, keys, before), sofar, p);
        assert ps + ((set q | q in generated) - {""}) == sofar + {p};
      }
    }
  }

  lemma {:induction false} DropAllHolds(ids: Ids, keys: seq<Key>, ps: set<string>, order: seq<string>)
    requires Injective(ids) && Holds(ids, keys, ps)
    ensures Holds(ids, DropAll(ids, keys, order), ps - set p | p in order)
  {
    hide Injective, Holds, Dropped;
    if order == [] {
      assert ps - (set p | p in order) == ps;
    } else {
      var k := |order| - 1;
      DropAllHolds(ids, keys, ps, order[..k]);
      DroppedHolds(ids, DropAll(ids, keys, order[..k]), ps - (set p | p in order[..k]), order[k]);
      assert order == order[..k] + [order[k]];
      assert ps - (set p | p in order) == ps - (set p | p in order[..k]) - {order[k]};
    }
  }

  lemma CleanupAgrees(ids: Ids, s: State, at: Clock, order: seq<string>)
    requires Injective(ids) && Agrees(ids, s) && Lists(order, Stale(s.db, at))
    ensures Agrees(ids, Cleanup(ids, s, at, order))
  {
    var t := Cleanup(ids, s, at, order);
    hide Holds;
    DropAllHolds(ids, s.keys, Wanted(s), order);
    assert Wanted(t) == Wanted(s) - Stale(s.db, at);
  }

  lemma RefreshHolds(ids: Ids, s: State, order: seq<string>)
    requires Injective(ids)
    ensures Holds(ids, Refresh(ids, s, order).keys, MainSet(s.main) + ((set p | p in order) - {""}))
  {
    assert Passwords(MainKeys(ids, s.main)) == MainSet(s.main) by {
      if s.main != "" {
        assert KeyFor(ids, s.main) in MainKeys(ids, s.main);
      }
    }
    CollectedHolds(ids, MainKeys(ids, s.main), MainSet(s.main), order);
  }

  /** After start-up (keys built at `t0`, expired rows cleaned at `t1`) keys and table agree. */
  lemma StartAgrees(ids: Ids, s: State, t0: Clock, t1: Clock, usable: seq<string>, stale: seq<string>)
    requires Injective(ids) && s.main !in s.db && Earlier(t0, t1)
    requires Lists(usable, Usable(s.db, t0)) && Lists(stale, Stale(s.db, t1))
    ensures Agrees(ids, Cleanup(ids, Refresh(ids, s, usable), t1, stale))
  {
    var r := Refresh(ids, s, usable);
    var t := Cleanup(ids, r, t1, stale);
    RefreshHolds(ids, s, usable);
    assert r.db == s.db && r.main == s.main;
    hide Holds, Refresh;
    var ps := MainSet(s.main) + (Usable(s.db, t0) - {""});
    DropAllHolds(ids, r.keys, ps, stale);
    assert Wanted(t) == ps - Stale(s.db, t1);
  }

  lemma RowAgrees(ids: Ids, s: State, p: string)
    requires Injective(ids) && Agrees(ids, s)
    ensures Agrees(ids, Deactivate(ids, s, p)) && Agrees(ids, Activate(ids, s, p)) && Agrees(ids, Delete(ids, s, p))
  {
    hide Injective, Holds, Added, Dropped;
    if Row(s, p) {
      DroppedHolds(ids, s.keys, Wanted(s), p);
      AddedHolds(ids, s.keys, Wanted(s), p);
      assert Wanted(Deactivate(ids, s, p)) == Wanted(s) - {p};
      assert Wanted(Activate(ids, s, p)) == Wanted(s) + {p};
      assert Wanted(Delete(ids, s, p)) == Wanted(s) - {p};
    }
  }

  lemma CreateAgrees(ids: Ids, s: State, drawn: seq<string>, now: int, days: nat)
    requires Injective(ids) && Agrees(ids, s) && s.main !in drawn
    ensures Agrees(ids, Create(ids, s, drawn, now, days))
  {
    hide Injective, Holds, Added;
    var p, t := FirstNew(s.db, drawn), Create(ids, s, drawn, now, days);
    hide FirstNew;
    if |s.db| < MAX_GENERATED && p != "" {
      AddedHolds(ids, s.keys, Wanted(s), p);
      assert Wanted(t) == Wanted(s) + {p};
    }
  }

  /** A creation that goes through adds one active row under a new password, unexpired until its days are over, and
      never to a table of ten or more; otherwise nothing changes. */
  lemma CreateAdds(ids: Ids, s: State, drawn: seq<string>, now: int, days: nat, p: string)
    requires p == FirstNew(s.db, drawn) && now > 0
    ensures var t := Create(ids, s, drawn, now, days);
            if |s.db| < MAX_GENERATED && p != "" then
              && p in drawn && p !in s.db && t.db.Keys == s.db.Keys + {p} && |t.db| <= MAX_GENERATED
              && !t.db[p].deactivated && (forall q | q in s.db :: t.db[q] == s.db[q])
              && (forall later: int :: Expired(t.db[p], later) <==> later > now + days * DAY)
            else t == s
  {
    hide FirstNew, Added;
  }

  lemma UpdateAgrees(ids: Ids, s: State, p: string, expiresAt: int)
    requires Agrees(ids, s)
    ensures Agrees(ids, Update(s, p, expiresAt))
  {
    assert Wanted(Update(s, p, expiresAt)) == Wanted(s);
  }

  /** No active row expires between the cleaning and the rebuilding. */
  ghost predicate NoGap(db: map<string, Entry>, t1: Clock, t2: Clock) {
    forall p | p in db && p != "" && db[p] != Null && !db[p].deactivated ::
      Expired(db[p], t2(p)) ==> Expired(db[p], t1(p))
  }

  /** A reload leaves keys and table in agreement exactly when no active row expires while it runs: such a row stays
      in the table and has lost its key. */
  lemma ReloadAgreesExactly(ids: Ids, s: State, db: map<string, Entry>, t1: Clock, t2: Clock,
                            stale: seq<string>, usable: seq<string>)
    requires Injective(ids) && s.main !in db && Earlier(t1, t2)
    requires Lists(stale, Stale(db, t1)) && Lists(usable, Usable(db - Stale(db, t1), t2))
    ensures Agrees(ids, Reload(ids, s, db, t1, stale, usable)) <==> NoGap(db, t1, t2)
  {
    var c := Cleanup(ids, s.(db := db), t1, stale);
    var t := Reload(ids, s, db, t1, stale, usable);
    RefreshHolds(ids, c, usable);
    assert t.db == db - Stale(db, t1) && t.main == s.main;
    hide Refresh, DropAll, Cleanup, Reload;
    var ps := MainSet(s.main) + (Usable(c.db, t2) - {""});
    assert Holds(ids, t.keys, ps);
    assert Agrees(ids, t) <==> ps == Wanted(t);
    hide Holds, Agrees;
    forall p
      ensures p in Wanted(t) - ps <==>
              p in db && p != "" && db[p] != Null && !db[p].deactivated
              && Expired(db[p], t2(p)) && !Expired(db[p], t1(p))
    {
      assert p in t.db <==> p in db && !Expired(db[p], t1(p));
    }
    assert ps <= Wanted(t);
    if NoGap(db, t1, t2) {
      assert Wanted(t) - ps == {};
    } else {
      var p :| p in db && p != "" && db[p] != Null && !db[p].deactivated
               && Expired(db[p], t2(p)) && !Expired(db[p], t1(p));
      assert p in Wanted(t) - ps;
    }
  }

  /** The row of "a" expires while the table is reloaded: it is still there, active, and has no key. */
  lemma ReloadGap(ids: Ids)
    requires Injective(ids)
    ensures var db: map<string, Entry> := map["a" := Entry(5, false)];
            var t := Reload(ids, State(map[], "m", []), db, _ => 5, [], []);
            && Lists([], Stale(db, _ => 5)) && Lists([], Usable(db - Stale(db, _ => 5), _ => 6))
            && "a" in Wanted(t) && "a" !in Passwords(t.keys)
  {
    var db: map<string, Entry> := map["a" := Entry(5, false)];
    var five: Clock := _ => 5;
    var six: Clock := _ => 6;
    assert "a" in db - Stale(db, five);
    assert Stale(db, five) == {} && Usable(db, six) == {};
    assert db - Stale(db, five) == db;
  }

  /** The bot's delete keeps keys and table in agreement if and only if it is not given the main password, row or no
      row: that takes the main key away. */
  lemma BotDeleteExactly(ids: Ids, s: State, p: string)
    requires Injective(ids) && Agrees(ids, s)
    ensures Agrees(ids, BotDelete(ids, s, p)) <==> p != s.main || s.main == ""
  {
    DroppedHolds(ids, s.keys, Wanted(s), p);
    hide Dropped, Injective;
    var t := BotDelete(ids, s, p);
    if p != s.main || s.main == "" {
      assert Wanted(t) == Wanted(s) - {p};
    } else {
      assert p in Wanted(t) && p !in Passwords(t.keys);
    }
  }

  /** If the main password were also generated, deactivating it would take its key away. */
  lemma MainMustNotBeGenerated(ids: Ids, s: State, ps: set<string>)
    requires Injective(ids) && Holds(ids, s.keys, ps) && Row(s, s.main)
    ensures s.main in Wanted(Deactivate(ids, s, s.main)) && s.main !in Passwords(Deactivate(ids, s, s.main).keys)
  {
    DroppedHolds(ids, s.keys, ps, s.main);
  }

  // ---------------------------------------------------------------- every sequence of operations

  datatype Event =
    | Created(drawn: seq<string>, at: Clock, stale: seq<string>, now: int, days: nat)
    | Updated(password: string, expiresAt: int)
    | Deactivated(password: string)
    | Activated(password: string)
    | Deleted(password: string)
    | BotDeleted(password: string)
    | Cleaned(at: Clock, stale: seq<string>)
    | Reloaded(db: map<string, Entry>, t1: Clock, t2: Clock, stale: seq<string>, usable: seq<string>)

  function Step(ids: Ids): (State, Event) -> State {
    (s: State, e: Event) => match e
      case Created(drawn, at, stale, now, days) => Create(ids, Cleanup(ids, s, at, stale), drawn, now, days)
      case Updated(p, t) => Update(s, p, t)
      case Deactivated(p) => Deactivate(ids, s, p)
      case Activated(p) => Activate(ids, s, p)
      case Deleted(p) => Delete(ids, s, p)
      case BotDeleted(p) => BotDelete(ids, s, p)
      case Cleaned(at, stale) => Cleanup(ids, s, at, stale)
      case Reloaded(db, t1, _, stale, usable) => Reload(ids, s, db, t1, stale, usable)
  }

  /** The table is walked completely, the main password is not drawn, loaded as a generated one or given to the
      bot's delete, and no active row expires in the middle of a reload. */
  ghost predicate Fair(s: State, e: Event) {
    match e
    case Created(drawn, at, stale, _, _) => Lists(stale, Stale(s.db, at)) && s.main !in drawn
    case BotDeleted(p) => p != s.main || s.main == ""
    case Cleaned(at, stale) => Lists(stale, Stale(s.db, at))
    case Reloaded(db, t1, t2, stale, usable) =>
      && s.main !in db && Earlier(t1, t2) && NoGap(db, t1, t2)
      && Lists(stale, Stale(db, t1)) && Lists(usable, Usable(db - Stale(db, t1), t2))
    case _ => true
  }

  lemma StepAgrees(ids: Ids, s: State, e: Event)
    requires Injective(ids) && Agrees(ids, s) && Fair(s, e)
    ensures Agrees(ids, Step(ids)(s, e))
  {
    hide Agrees, Injective, Lists;
    match e
    case Created(drawn, at, stale, now, days) =>
      CleanupAgrees(ids, s, at, stale);
      CreateAgrees(ids, Cleanup(ids, s, at, stale), drawn, now, days);
    case Updated(p, at) => UpdateAgrees(ids, s, p, at);
    case Deactivated(p) => RowAgrees(ids, s, p);
    case Activated(p) => RowAgrees(ids, s, p);
    case Deleted(p) => RowAgrees(ids, s, p);
    case BotDeleted(p) => BotDeleteExactly(ids, s, p);
    case Cleaned(at, stale) => CleanupAgrees(ids, s, at, stale);
    case Reloaded(db, t1, t2, stale, usable) => ReloadAgreesExactly(ids, s, db, t1, t2, stale, usable);
  }

  ghost predicate FairRun(ids: Ids, s: State, events: seq<Event>) {
    forall i: nat | i < |events| :: Fair(Run(Step(ids), s, events[..i]), events[i])
  }

  /** Every sequence of administrative operations keeps the keys duplicate-free and equal to the main password's and
      those of the rows that are not deactivated. */
  lemma {:induction false} AgreesAlways(ids: Ids, s: State, events: seq<Event>)
    requires Injective(ids) && Agrees(ids, s) && FairRun(ids, s, events)
    ensures Agrees(ids, Run(Step(ids), s, events))
  {
    hide Agrees, Injective, Fair, Step;
    if events != [] {
      var k := |events| - 1;
      var before := events[..k];
      assert FairRun(ids, s, before) by {
        forall i: nat | i < k
          ensures Fair(Run(Step(ids), s, before[..i]), before[i])
        {
          assert before[..i] == events[..i];
        }
      }
      AgreesAlways(ids, s, before);
      StepAgrees(ids, Run(Step(ids), s, before), events[k]);
    }
  }
}
