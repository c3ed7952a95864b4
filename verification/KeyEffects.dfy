/** What each operation on the passwords does to the rows and the keys, and which passwords have a key after any run. */
module KeyEffects {
  import opened Runs
  import opened KeyStore

  /** The keys are duplicate-free and properly named. */
  ghost predicate Sound(ids: Ids, keys: seq<Key>) {
    Holds(ids, keys, Passwords(keys))
  }

  predicate HasRow(s: State, p: string) {
    p != "" && p in s.db && s.db[p] != Null
  }

  /** An empty row, or one whose time is over; 0 means for ever. */
  predicate Gone(e: Entry, now: int) {
    e == Null || (e.expiresAt != 0 && now > e.expiresAt)
  }

  // ---------------------------------------------------------------- one key more, one key less

  /** A key that is not there joins last. */
  lemma AddedEffect(ids: Ids, keys: seq<Key>, p: string)
    requires Injective(ids) && Sound(ids, keys)
    ensures var added := Added(keys, KeyFor(ids, p));
            && added == (if p in Passwords(keys) then keys else keys + [Key(ids(p), p)])
            && Passwords(added) == Passwords(keys) + {p} && Sound(ids, added)
  {
    AddedHolds(ids, keys, Passwords(keys), p);
  }

  /** A key that is there leaves its place, the others keep their order. */
  lemma {:induction false} DroppedPlace(keys: seq<Key>, id: string) returns (i: nat)
    ensures i <= |keys| && (forall j | 0 <= j < i :: keys[j].id != id) && (i < |keys| ==> keys[i].id == id)
    ensures Dropped(keys, id) == if i < |keys| then keys[..i] + keys[i + 1..] else keys
  {
    i := 0;
    if keys == [] {
    } else if keys[0].id != id {
      var rest := keys[1..];
      var j := DroppedPlace(rest, id);
      i := j + 1;
      assert keys == [keys[0]] + rest;
      assert keys[..i] == [keys[0]] + rest[..j];
      assert j < |rest| ==> keys[i + 1..] == rest[j + 1..];
    }
  }

  lemma DroppedEffect(ids: Ids, keys: seq<Key>, p: string)
    requires Injective(ids) && Sound(ids, keys)
    ensures var left := Dropped(keys, ids(p));
            && Passwords(left) == Passwords(keys) - {p} && Sound(ids, left)
  {
    DroppedHolds(ids, keys, Passwords(keys), p);
  }

  /** The passwords of a walk: none empty, none twice, none with a key already. */
  ghost predicate AllNew(keys: seq<Key>, ps: seq<string>) {
    && "" !in ps && (forall p | p in ps :: p !in Passwords(keys))
    && forall i, j | 0 <= i < j < |ps| :: ps[i] != ps[j]
  }

  /** They get their keys after those that are there, in the order of the walk. */
  lemma {:induction false} CollectedInOrder(ids: Ids, keys: seq<Key>, ps: seq<string>)
    requires Injective(ids) && Sound(ids, keys) && AllNew(keys, ps)
    ensures var all := Collected(ids, keys, ps);
            Sound(ids, all) && |all| == |keys| + |ps| && all[..|keys|] == keys
            && forall i | 0 <= i < |ps| :: all[|keys| + i] == Key(ids(ps[i]), ps[i])
    ensures Passwords(Collected(ids, keys, ps)) == Passwords(keys) + set p | p in ps
  {
    if ps == [] {
      assert (set p | p in ps) == {};
    } else {
      var k := |ps| - 1;
      var before := ps[..k];
      assert ps == before + [ps[k]];
      CollectedInOrder(ids, keys, before);
      AddedEffect(ids, Collected(ids, keys, before), ps[k]);
      hide Injective, Sound, Passwords, Added, Dropped;
    }
  }

  // ---------------------------------------------------------------- one operation

  /** An activated row is active, its time unchanged, and its password has a key; without a row nothing happens. */
  lemma ActivateEffect(ids: Ids, s: State, p: string)
    requires Injective(ids) && Sound(ids, s.keys)
    ensures var t := Step(ids)(s, Activated(p));
            && (!HasRow(s, p) ==> t == s)
            && (HasRow(s, p) ==>
                  && t.db == s.db[p := Entry(s.db[p].expiresAt, false)] && t.main == s.main
                  && Passwords(t.keys) == Passwords(s.keys) + {p} && Sound(ids, t.keys))
  {
    AddedEffect(ids, s.keys, p);
    hide Added, Holds, Injective, Passwords;
  }

  /** A deactivated row stays, marked, its time unchanged, and its password has no key. */
  lemma DeactivateEffect(ids: Ids, s: State, p: string)
    requires Injective(ids) && Sound(ids, s.keys)
    ensures var t := Step(ids)(s, Deactivated(p));
            && (!HasRow(s, p) ==> t == s)
            && (HasRow(s, p) ==>
                  && t.db == s.db[p := Entry(s.db[p].expiresAt, true)] && t.main == s.main
                  && Passwords(t.keys) == Passwords(s.keys) - {p} && Sound(ids, t.keys))
  {
    DroppedEffect(ids, s.keys, p);
    hide Dropped, Holds, Injective, Passwords;
  }

  /** Activating what was deactivated gives back the row as it was, if it was active. */
  lemma ActivateUndoes(ids: Ids, s: State, p: string)
    requires HasRow(s, p) && !s.db[p].deactivated
    ensures Step(ids)(Step(ids)(s, Deactivated(p)), Activated(p)).db == s.db
  {
    assert s.db[p := s.db[p]] == s.db;
  }

  /** A row with its key gone, and all others as they were. */
  ghost predicate Without(ids: Ids, s: State, t: State, p: string) {
    && p !in t.db && t.db.Keys == s.db.Keys - {p} && (forall q | q in t.db :: t.db[q] == s.db[q])
    && t.main == s.main && Passwords(t.keys) == Passwords(s.keys) - {p} && Sound(ids, t.keys)
  }

  lemma DeleteEffect(ids: Ids, s: State, p: string)
    requires Injective(ids) && Sound(ids, s.keys)
    ensures var t := Step(ids)(s, Deleted(p));
            (!HasRow(s, p) ==> t == s) && (HasRow(s, p) ==> Without(ids, s, t, p))
  {
    DroppedEffect(ids, s.keys, p);
    hide Dropped, Sound, Injective, Passwords;
  }

  /** The bot's delete removes row and key whether or not there is a row. */
  lemma BotDeleteEffect(ids: Ids, s: State, p: string)
    requires Injective(ids) && Sound(ids, s.keys)
    ensures Without(ids, s, Step(ids)(s, BotDeleted(p)), p)
  {
    DroppedEffect(ids, s.keys, p);
    hide Dropped, Sound, Injective, Passwords;
  }

  /** A new time for a row, and nothing else. */
  lemma UpdateEffect(ids: Ids, s: State, p: string, expiresAt: int)
    ensures var t := Step(ids)(s, Updated(p, expiresAt));
            if HasRow(s, p) then t == s.(db := s.db[p := Entry(expiresAt, s.db[p].deactivated)]) else t == s
  {}

  /** Exactly the rows that are gone when they are looked at leave, and their keys with them. */
  lemma CleanEffect(ids: Ids, s: State, at: Clock, stale: seq<string>)
    requires Injective(ids) && Sound(ids, s.keys) && Lists(stale, Stale(s.db, at))
    ensures var t := Step(ids)(s, Cleaned(at, stale));
            && (forall q :: q in t.db <==> q in s.db && !Gone(s.db[q], at(q)))
            && (forall q | q in t.db :: t.db[q] == s.db[q]) && t.main == s.main
            && (forall q :: q in Passwords(t.keys) <==>
                            q in Passwords(s.keys) && !(q in s.db && Gone(s.db[q], at(q))))
            && Sound(ids, t.keys)
  {
    DropAllHolds(ids, s.keys, Passwords(s.keys), stale);
    hide DropAll, Passwords, Injective;
    var t := Step(ids)(s, Cleaned(at, stale));
    forall q
      ensures q in Passwords(t.keys) <==> q in Passwords(s.keys) && !(q in s.db && Gone(s.db[q], at(q)))
    {
      assert q in stale <==> q in Stale(s.db, at);
    }
  }

  /** The rows of the file that are not gone, and keys for the main password and for the rows that are active and not
      gone when looked at again. */
  lemma ReloadEffect(ids: Ids, s: State, db: map<string, Entry>, t1: Clock, t2: Clock,
                     stale: seq<string>, usable: seq<string>)
    requires Injective(ids) && Lists(stale, Stale(db, t1)) && Lists(usable, Usable(db - Stale(db, t1), t2))
    ensures var t := Step(ids)(s, Reloaded(db, t1, t2, stale, usable));
            && (forall q :: q in t.db <==> q in db && !Gone(db[q], t1(q)))
            && (forall q | q in t.db :: t.db[q] == db[q]) && t.main == s.main
            && (forall q :: q in Passwords(t.keys) <==> q != "" && (q == s.main || UsableTwice(db, t1, t2, q)))
            && Sound(ids, t.keys)
  {
    var c := Cleanup(ids, s.(db := db), t1, stale);
    RefreshHolds(ids, c, usable);
    hide Collected, DropAll, Passwords, Injective;
    var t := Step(ids)(s, Reloaded(db, t1, t2, stale, usable));
    forall q
      ensures q in Passwords(t.keys) <==> q != "" && (q == s.main || UsableTwice(db, t1, t2, q))
    {
      assert q in usable <==> q in Usable(c.db, t2);
    }
  }

  predicate UsableTwice(db: map<string, Entry>, t1: Clock, t2: Clock, p: string) {
    p in db && !Gone(db[p], t1(p)) && !Gone(db[p], t2(p)) && !db[p].deactivated
  }

  /** The table has fewer than ten rows and `p` is the first of the drawn passwords that is not taken. */
  ghost predicate Chosen(db: map<string, Entry>, drawn: seq<string>, p: string) {
    |db| < 10 && p != "" && p !in db && exists i | 0 <= i < |drawn| :: drawn[i] == p && AllTaken(db, drawn[..i])
  }

  predicate AllTaken(db: map<string, Entry>, drawn: seq<string>) {
    forall q | q in drawn :: q in db
  }

  lemma {:induction false} FirstNewAt(db: map<string, Entry>, drawn: seq<string>) returns (i: nat)
    ensures i <= |drawn| && AllTaken(db, drawn[..i])
    ensures if i < |drawn| then drawn[i] !in db && FirstNew(db, drawn) == drawn[i] else FirstNew(db, drawn) == ""
  {
    i := 0;
    if drawn == [] {
    } else if drawn[0] in db {
      var j := FirstNewAt(db, drawn[1..]);
      i := j + 1;
      assert drawn[..i] == [drawn[0]] + drawn[1..][..j];
    }
  }

  lemma ChosenExactly(db: map<string, Entry>, drawn: seq<string>, p: string)
    ensures Chosen(db, drawn, p) <==> |db| < 10 && p != "" && p == FirstNew(db, drawn)
  {
    var i := FirstNewAt(db, drawn);
    hide FirstNew;
    if Chosen(db, drawn, p) {
      var k :| 0 <= k < |drawn| && drawn[k] == p && AllTaken(db, drawn[..k]);
      assert k >= i;
      if i < k {
        assert drawn[..k][i] == drawn[i];
      }
    }
  }

  /** The chosen password gets an active row for its days and a key; if none is chosen nothing happens. */
  lemma CreateEffect(ids: Ids, s: State, drawn: seq<string>, now: int, days: nat, p: string)
    requires Injective(ids) && Sound(ids, s.keys)
    ensures var t := Create(ids, s, drawn, now, days);
            && (Chosen(s.db, drawn, p) ==>
                  && t.db == s.db[p := Entry(now + days * 86400, false)] && t.main == s.main
                  && Passwords(t.keys) == Passwords(s.keys) + {p} && Sound(ids, t.keys))
            && (t == s || exists q :: Chosen(s.db, drawn, q))
  {
    var q := FirstNew(s.db, drawn);
    ChosenExactly(s.db, drawn, p);
    ChosenExactly(s.db, drawn, q);
    AddedEffect(ids, s.keys, q);
    hide Added, Holds, Injective, Passwords, FirstNew, Chosen;
  }

  // ---------------------------------------------------------------- which passwords have a key

  datatype Effect = On | Off | Untouched

  /** What an operation does to the key of `p`. */
  ghost function EffectOn(s: State, e: Event, p: string): Effect {
    match e
    case Created(drawn, at, _, _, _) =>
      if Chosen(Left(s.db, at), drawn, p) then On else if p in s.db && Gone(s.db[p], at(p)) then Off else Untouched
    case Updated(_, _) => Untouched
    case Deactivated(q) => if q == p && HasRow(s, p) then Off else Untouched
    case Activated(q) => if q == p && HasRow(s, p) then On else Untouched
    case Deleted(q) => if q == p && HasRow(s, p) then Off else Untouched
    case BotDeleted(q) => if q == p then Off else Untouched
    case Cleaned(at, _) => if p in s.db && Gone(s.db[p], at(p)) then Off else Untouched
    case Reloaded(db, t1, t2, _, _) => if p != "" && (p == s.main || UsableTwice(db, t1, t2, p)) then On else Off
  }

  /** The rows that are not gone. */
  ghost function Left(db: map<string, Entry>, at: Clock): map<string, Entry> {
    map q | q in db && !Gone(db[q], at(q)) :: db[q]
  }

  /** Every walk over the table meets all its rows. */
  ghost predicate Walked(s: State, e: Event) {
    match e
    case Created(_, at, stale, _, _) => Lists(stale, Stale(s.db, at))
    case Cleaned(at, stale) => Lists(stale, Stale(s.db, at))
    case Reloaded(db, t1, t2, stale, usable) =>
      Lists(stale, Stale(db, t1)) && Lists(usable, Usable(db - Stale(db, t1), t2))
    case _ => true
  }

  ghost predicate Follows(s: State, t: State, e: Event, p: string) {
    p in Passwords(t.keys) <==> EffectOn(s, e, p) == On || (EffectOn(s, e, p) == Untouched && p in Passwords(s.keys))
  }

  lemma CleanedTo(ids: Ids, s: State, at: Clock, stale: seq<string>, p: string)
    requires Injective(ids) && Sound(ids, s.keys) && Lists(stale, Stale(s.db, at))
    ensures var c := Cleanup(ids, s, at, stale);
            && c.db == Left(s.db, at) && c.main == s.main && Sound(ids, c.keys)
            && (p in Passwords(c.keys) <==> p in Passwords(s.keys) && !(p in s.db && Gone(s.db[p], at(p))))
  {
    hide Injective, Sound, Passwords, Cleanup, Gone, Lists, Stale;
    CleanEffect(ids, s, at, stale);
    assert Cleanup(ids, s, at, stale) == Step(ids)(s, Cleaned(at, stale));
    hide Step;
  }

  lemma CreateFollows(ids: Ids, s: State, drawn: seq<string>, now: int, days: nat, p: string)
    requires Injective(ids) && Sound(ids, s.keys)
    ensures var t := Create(ids, s, drawn, now, days);
            Sound(ids, t.keys) && (p in Passwords(t.keys) <==> p in Passwords(s.keys) || Chosen(s.db, drawn, p))
  {
    hide Injective, Sound, Create, Passwords, Chosen;
    CreateEffect(ids, s, drawn, now, days, p);
    if q :| Chosen(s.db, drawn, q) {
      CreateEffect(ids, s, drawn, now, days, q);
      ChosenExactly(s.db, drawn, q);
      ChosenExactly(s.db, drawn, p);
    }
  }

  lemma CreatedFollows(ids: Ids, s: State, e: Event, p: string)
    requires Injective(ids) && Sound(ids, s.keys) && Walked(s, e) && e.Created?
    ensures var t := Step(ids)(s, e); Sound(ids, t.keys) && Follows(s, t, e, p)
  {
    hide Injective, Sound, Create, Cleanup, Passwords, Chosen, Gone, Left, Lists, Stale;
    CleanedTo(ids, s, e.at, e.stale, p);
    CreateFollows(ids, Cleanup(ids, s, e.at, e.stale), e.drawn, e.now, e.days, p);
  }

  lemma StepFollows(ids: Ids, s: State, e: Event, p: string)
    requires Injective(ids) && Sound(ids, s.keys) && Walked(s, e)
    ensures var t := Step(ids)(s, e); Sound(ids, t.keys) && Follows(s, t, e, p)
  {
    hide Injective, Sound, Passwords, Step, Gone, Lists, UsableTwice;
    match e
    case Created(_, _, _, _, _) => CreatedFollows(ids, s, e, p);
    case Updated(q, x) => UpdateEffect(ids, s, q, x);
    case Deactivated(q) => DeactivateEffect(ids, s, q);
    case Activated(q) => ActivateEffect(ids, s, q);
    case Deleted(q) => DeleteEffect(ids, s, q);
    case BotDeleted(q) => BotDeleteEffect(ids, s, q);
    case Cleaned(at, stale) => CleanEffect(ids, s, at, stale);
    case Reloaded(db, t1, t2, stale, usable) => ReloadEffect(ids, s, db, t1, t2, stale, usable);
  }

  ghost predicate WalkedRun(ids: Ids, s: State, events: seq<Event>) {
    forall i: nat | i < |events| :: Walked(Run(Step(ids), s, events[..i]), events[i])
  }

  /** What the `j`-th operation of the run does to the key of `p`. */
  ghost function EffectAt(ids: Ids, s: State, events: seq<Event>, j: nat, p: string): Effect
    requires j < |events|
  {
    EffectOn(Run(Step(ids), s, events[..j]), events[j], p)
  }

  /** After any run of operations, operation `i - 1` being the last that touched the key of `p`: `p` has a key if and
      only if that operation left it on. If no operation touched it, it is as at the start. */
  lemma {:induction false} KeyByLastOperation(ids: Ids, s: State, events: seq<Event>, p: string) returns (i: nat)
    requires Injective(ids) && Sound(ids, s.keys) && WalkedRun(ids, s, events)
    ensures Sound(ids, Run(Step(ids), s, events).keys)
    ensures i <= |events| && forall j: nat | i <= j < |events| :: EffectAt(ids, s, events, j, p) == Untouched
    ensures i > 0 ==> EffectAt(ids, s, events, i - 1, p) != Untouched
    ensures p in Passwords(Run(Step(ids), s, events).keys) <==>
            if i == 0 then p in Passwords(s.keys) else EffectAt(ids, s, events, i - 1, p) == On
  {
    hide Injective, Sound, Passwords, Step, EffectOn, Walked;
    if events == [] {
      i := 0;
    } else {
      var k := |events| - 1;
      var before := events[..k];
      forall j: nat | j < k
        ensures before[..j] == events[..j]
      {}
      assert WalkedRun(ids, s, before);
      i := KeyByLastOperation(ids, s, before, p);
      StepFollows(ids, Run(Step(ids), s, before), events[k], p);
      if EffectAt(ids, s, events, k, p) != Untouched {
        i := k + 1;
      } else {
        assert forall j: nat | j < k :: EffectAt(ids, s, events, j, p) == EffectAt(ids, s, before, j, p);
      }
    }
  }
}
