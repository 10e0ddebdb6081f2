// The group-profile cache and the admin writes beside it. Messages load under
// the cache's lock; admins write to the store first and drop the cache entry
// afterwards. Between the two steps of a write the cache may be stale; the
// theorems say that this is the only time it is.
module ProfileCache {
  import opened Options

  const MAX_ITEMS := 50

  datatype Profile = Profile(topics: seq<string>, rules: seq<string>, atmosphere: seq<string>)

  // A write that reached the store; None deletes the row.
  datatype Write = Write(group: string, value: Option<Profile>)

  // What the store holds after the writes of log: the last one on the group counts.
  function Stored(rows: map<string, Profile>, log: seq<Write>, g: string): Option<Profile>
  {
    if log == [] then if g in rows then Some(rows[g]) else None
    else if log[|log| - 1].group == g then log[|log| - 1].value
    else Stored(rows, log[..|log| - 1], g)
  }

  // A cached value (None is the confirmed absence of a profile), and how many
  // writes the store had seen when it was read.
  datatype Entry = Entry(value: Option<Profile>, at: nat)

  // What the message holding the lock is doing.
  datatype Load = Idle | Missed(group: string) | Fetched(group: string, entry: Entry)

  // rows is what the store held at the beginning; pending are the writes whose
  // writer has not invalidated the cache yet. log and the at of an entry are
  // history that the program does not keep.
  datatype Sys = Sys(rows: map<string, Profile>, log: seq<Write>, pending: set<nat>,
                     cache: map<string, Entry>, load: Load)

  datatype Event =
    | Touch(messageType: string, group: string)  // lock, look up
    | Fetch                                      // the store answers: a row or ErrNotFound
    | FetchFails                                 // the store fails; unlock
    | Fill                                       // cache the answer; unlock
    | Upsert(group: string, value: Profile, ok: bool)
    | Delete(group: string, ok: bool)            // fails when there is no row
    | Invalidate(write: nat)                     // lock, delete, unlock
    | Restart                                    // the process starts anew on the same store

  ghost predicate Enabled(s: Sys, e: Event)
  {
    match e
    case Touch(kind, _) => kind == "group" ==> s.load.Idle?
    case Fetch => s.load.Missed?
    case FetchFails => s.load.Missed?
    case Fill => s.load.Fetched?
    case Upsert(_, _, _) => true
    case Delete(_, _) => true
    case Invalidate(k) => s.load.Idle? && k in s.pending && k < |s.log|
    case Restart => true
  }

  ghost function Wrote(s: Sys, w: Write): Sys
  {
    s.(log := s.log + [w], pending := s.pending + {|s.log|})
  }

  ghost function Next(s: Sys, e: Event): Sys
    requires Enabled(s, e)
  {
    match e
    case Touch(kind, g) => if kind != "group" || g in s.cache then s else s.(load := Missed(g))
    case Fetch => s.(load := Fetched(s.load.group, Entry(Stored(s.rows, s.log, s.load.group), |s.log|)))
    case FetchFails => s.(load := Idle)
    case Fill => s.(cache := s.cache[s.load.group := s.load.entry], load := Idle)
    case Upsert(g, p, ok) => if ok then Wrote(s, Write(g, Some(p))) else s
    case Delete(g, ok) => if ok && Stored(s.rows, s.log, g).Some? then Wrote(s, Write(g, None)) else s
    case Invalidate(k) => s.(cache := s.cache - {s.log[k].group}, pending := s.pending - {k})
    case Restart => s.(pending := {}, cache := map[], load := Idle)
  }

  ghost function Initial(rows: map<string, Profile>): Sys { Sys(rows, [], {}, map[], Idle) }

  ghost function Run(s: Sys, es: seq<Event>): Option<Sys>
  {
    if es == [] then Some(s)
    else
      var before := Run(s, es[..|es| - 1]);
      if before.Some? && Enabled(before.value, es[|es| - 1]) then Some(Next(before.value, es[|es| - 1])) else None
  }

  // ---- Coherence ----

  // The entry is what the store held when it was read, and every write to the
  // group since then is one whose writer still has to invalidate.
  ghost predicate Tracked(s: Sys, g: string, e: Entry)
  {
    && e.at <= |s.log| && e.value == Stored(s.rows, s.log[..e.at], g)
    && forall k | e.at <= k < |s.log| && s.log[k].group == g :: k in s.pending
  }

  ghost predicate Inv(s: Sys)
  {
    && (forall k | k in s.pending :: k < |s.log|)
    && (forall g | g in s.cache :: Tracked(s, g, s.cache[g]))
    && (s.load.Fetched? ==> Tracked(s, s.load.group, s.load.entry))
  }

  lemma WriteKeepsTracked(s: Sys, w: Write, g: string, e: Entry)
    requires Tracked(s, g, e)
    ensures Tracked(Wrote(s, w), g, e)
  {
    var t := Wrote(s, w);
    assert t.log[..e.at] == s.log[..e.at];
    forall k | e.at <= k < |t.log| && t.log[k].group == g ensures k in t.pending {
      if k < |s.log| { assert t.log[k] == s.log[k]; }
    }
  }

  lemma WriteKeepsInv(s: Sys, w: Write)
    requires Inv(s)
    ensures Inv(Wrote(s, w))
  {
    forall g | g in s.cache ensures Tracked(Wrote(s, w), g, s.cache[g]) {
      WriteKeepsTracked(s, w, g, s.cache[g]);
    }
    if s.load.Fetched? { WriteKeepsTracked(s, w, s.load.group, s.load.entry); }
  }

  lemma StepKeepsInv(s: Sys, e: Event)
    requires Inv(s) && Enabled(s, e)
    ensures Inv(Next(s, e))
  {
    match e
    case Upsert(g, p, ok) => WriteKeepsInv(s, Write(g, Some(p)));
    case Delete(g, ok) => WriteKeepsInv(s, Write(g, None));
    case Fetch =>
      assert s.log[..|s.log|] == s.log;
    case Invalidate(k) =>
      var t := Next(s, e);
      forall g | g in t.cache ensures Tracked(t, g, t.cache[g]) {
        assert Tracked(s, g, s.cache[g]) && g != s.log[k].group;
      }
    case _ =>
  }

  lemma {:induction false} RunKeepsInv(rows: map<string, Profile>, es: seq<Event>)
    requires Run(Initial(rows), es).Some?
    ensures Inv(Run(Initial(rows), es).value)
  {
    if es != [] {
      RunKeepsInv(rows, es[..|es| - 1]);
      StepKeepsInv(Run(Initial(rows), es[..|es| - 1]).value, es[|es| - 1]);
    }
  }

  // Writes to other groups do not show.
  lemma {:induction false} StoredSince(rows: map<string, Profile>, log: seq<Write>, g: string, at: nat)
    requires at <= |log| && Stored(rows, log[..at], g) != Stored(rows, log, g)
    ensures exists k | at <= k < |log| :: log[k].group == g
  {
    assert at < |log| by { assert log[..|log|] == log; }
    if log[|log| - 1].group != g {
      var init := log[..|log| - 1];
      assert init[..at] == log[..at];
      StoredSince(rows, init, g, at);
      var k :| at <= k < |init| && init[k].group == g;
      assert log[k].group == g;
    }
  }

  // In every interleaving: an entry that differs from the store is there only
  // while some writer has written to its group, after the entry was read, and
  // has not invalidated yet.
  lemma StaleOnlyBeforeInvalidate(rows: map<string, Profile>, es: seq<Event>, g: string)
    requires Run(Initial(rows), es).Some?
    ensures var s := Run(Initial(rows), es).value;
            g in s.cache && s.cache[g].value != Stored(s.rows, s.log, g) ==>
              exists k | s.cache[g].at <= k < |s.log| && s.log[k].group == g :: k in s.pending
  {
    RunKeepsInv(rows, es);
    var s := Run(Initial(rows), es).value;
    if g in s.cache && s.cache[g].value != Stored(s.rows, s.log, g) {
      assert Tracked(s, g, s.cache[g]);
      StoredSince(s.rows, s.log, g, s.cache[g].at);
    }
  }

  // A write that is done, in store and cache, is never unseen again: whatever
  // the cache holds afterwards was read from the store after that write.
  lemma DoneWritesAreSeen(rows: map<string, Profile>, es: seq<Event>, g: string, k: nat)
    requires Run(Initial(rows), es).Some?
    requires var s := Run(Initial(rows), es).value;
             g in s.cache && k < |s.log| && s.log[k].group == g && k !in s.pending
    ensures var s := Run(Initial(rows), es).value;
            k < s.cache[g].at <= |s.log| && s.cache[g].value == Stored(s.rows, s.log[..s.cache[g].at], g)
  {
    RunKeepsInv(rows, es);
    var s := Run(Initial(rows), es).value;
    assert Tracked(s, g, s.cache[g]);
  }

  // ---- Each group is read once ----

  ghost function Fills(s: Sys, es: seq<Event>, g: string): nat
  {
    if es == [] then 0
    else
      var before := Run(s, es[..|es| - 1]);
      Fills(s, es[..|es| - 1], g) +
      if before.Some? && before.value.load.Fetched? && before.value.load.group == g && es[|es| - 1].Fill? then 1 else 0
  }

  // How often an entry of g was dropped by a writer or a restart.
  ghost function Drops(s: Sys, es: seq<Event>, g: string): nat
  {
    if es == [] then 0
    else
      var before, e := Run(s, es[..|es| - 1]), es[|es| - 1];
      Drops(s, es[..|es| - 1], g) +
      if before.Some? && Enabled(before.value, e) && g in before.value.cache && g !in Next(before.value, e).cache then 1
      else 0
  }

  // A message that is loading holds the lock, so nobody else caches its group.
  lemma {:induction false} LoadingIsUncached(rows: map<string, Profile>, es: seq<Event>)
    requires Run(Initial(rows), es).Some?
    ensures var s := Run(Initial(rows), es).value; !s.load.Idle? ==> s.load.group !in s.cache
  {
    if es != [] { LoadingIsUncached(rows, es[..|es| - 1]); }
  }

  // The store's answer for a group is cached once, and once more for each time
  // the entry was dropped: messages in between do not reach the store.
  lemma {:induction false} LoadedOncePerDrop(rows: map<string, Profile>, es: seq<Event>, g: string)
    requires Run(Initial(rows), es).Some?
    ensures var s := Run(Initial(rows), es).value;
            Fills(Initial(rows), es, g) == Drops(Initial(rows), es, g) + if g in s.cache then 1 else 0
  {
    if es != [] {
      LoadedOncePerDrop(rows, es[..|es| - 1], g);
      LoadingIsUncached(rows, es[..|es| - 1]);
    }
  }

  // ---- The code ----

  // The database as the two services see it: each call may fail, and one that
  // fails changes nothing.
  class Store {
    var rows: map<string, Profile>

    constructor (rows: map<string, Profile>)
      ensures this.rows == rows
    {
      this.rows := rows;
    }

    method GetGroupProfile(g: string, up: bool) returns (p: Option<Profile>, found: bool)
      ensures found <==> up && g in rows
      ensures p == if found then Some(rows[g]) else None
    {
      if up && g in rows {
        return Some(rows[g]), true;
      }
      return None, false;
    }

    method Upsert(g: string, p: Profile, up: bool) returns (ok: bool)
      modifies this
      ensures ok == up && rows == if ok then old(rows)[g := p] else old(rows)
    {
      if up { rows := rows[g := p]; }
      return up;
    }

    method Delete(g: string, up: bool) returns (ok: bool)
      modifies this
      ensures ok == (up && g in old(rows)) && rows == if ok then old(rows) - {g} else old(rows)
    {
      if up && g in rows {
        rows := rows - {g};
        return true;
      }
      return false;
    }
  }

  function Lookup(rows: map<string, Profile>, g: string): Option<Profile>
  {
    if g in rows then Some(rows[g]) else None
  }

  // groups holds None for a group that was looked up and has no profile.
  class Cache {
    const store: Store
    var groups: map<string, Option<Profile>>

    constructor (store: Store)
      ensures this.store == store && groups == map[]
    {
      this.store := store;
      groups := map[];
    }

    // Whatever is cached is what the store holds.
    ghost predicate Coherent()
      reads this, store
    {
      forall g | g in groups :: groups[g] == Lookup(store.rows, g)
    }

    ghost predicate CoherentBut(groupID: string)
      reads this, store
    {
      forall g | g in groups && g != groupID :: groups[g] == Lookup(store.rows, g)
    }

    // Loads the group on first sight; a failed read is tried again next time.
    method TouchMessage(messageType: string, groupID: string, up: bool)
      modifies this
      ensures groups == if messageType != "group" || groupID in old(groups) || !up then old(groups)
                        else old(groups)[groupID := Lookup(store.rows, groupID)]
      ensures old(Coherent()) ==> Coherent()
    {
      if messageType != "group" { return; }
      if groupID !in groups {
        var p, cached := LoadGroupProfile(groupID, up);
        if cached { groups := groups[groupID := p]; }
      }
    }

    method LoadGroupProfile(groupID: string, up: bool) returns (p: Option<Profile>, cached: bool)
      ensures cached == up && (cached ==> p == Lookup(store.rows, groupID))
    {
      var found;
      p, found := store.GetGroupProfile(groupID, up);
      if !found {
        return None, up;
      }
      return p, true;
    }

    method GetGroupProfile(groupID: string) returns (p: Option<Profile>, ok: bool)
      ensures ok == (groupID in groups) && p == if ok then groups[groupID] else None
      ensures Coherent() && ok ==> p == Lookup(store.rows, groupID)
    {
      ok := groupID in groups;
      p := if ok then groups[groupID] else None;
    }

    // Whatever else was as the store holds it stays so, so that after a write to
    // the group the cache is coherent again. In the protocol, from any state with
    // these cached values, it is the step of a writer of that group.
    method Invalidate(groupID: string)
      modifies this
      ensures groups == old(groups) - {groupID}
      ensures old(CoherentBut(groupID)) ==> Coherent()
      ensures forall s: Sys, k: nat | Enabled(s, Event.Invalidate(k)) && s.log[k].group == groupID
                                      && Values(s.cache) == old(groups) ::
                groups == Values(Next(s, Event.Invalidate(k)).cache)
    {
      groups := groups - {groupID};
    }
  }

  class Admin {
    const store: Store
    const mem: Cache

    constructor (mem: Cache)
      ensures this.mem == mem && store == mem.store
    {
      this.mem := mem;
      store := mem.store;
    }

    // trimmed is the profile with its lists sanitised.
    method UpsertGroupProfile(g: string, blank: bool, trimmed: Profile, up: bool) returns (ok: bool)
      requires store == mem.store
      modifies store, mem
      ensures ok <==> !blank && |trimmed.topics| <= 50 && |trimmed.rules| <= 50 && |trimmed.atmosphere| <= 50 && up
      ensures store.rows == if ok then old(store.rows)[g := trimmed] else old(store.rows)
      ensures mem.groups == if ok then old(mem.groups) - {g} else old(mem.groups)
      ensures old(mem.Coherent()) ==> mem.Coherent()
    {
      if blank || |trimmed.topics| > MAX_ITEMS || |trimmed.rules| > MAX_ITEMS || |trimmed.atmosphere| > MAX_ITEMS {
        return false;
      }
      var written := store.Upsert(g, trimmed, up);
      if !written { return false; }
      mem.Invalidate(g);
      return true;
    }

    method DeleteGroupProfile(g: string, up: bool) returns (ok: bool)
      requires store == mem.store
      modifies store, mem
      ensures ok == (up && g in old(store.rows))
      ensures store.rows == if ok then old(store.rows) - {g} else old(store.rows)
      ensures mem.groups == if ok then old(mem.groups) - {g} else old(mem.groups)
      ensures old(mem.Coherent()) ==> mem.Coherent()
    {
      var written := store.Delete(g, up);
      if !written { return false; }
      mem.Invalidate(g);
      return true;
    }
  }

  // ---- The code takes the steps of the protocol ----

  ghost function Values(cache: map<string, Entry>): map<string, Option<Profile>>
  {
    map g | g in cache :: cache[g].value
  }

  // A message that nobody interrupts does what TouchMessage does.
  lemma TouchIsARun(s: Sys, kind: string, g: string, up: bool)
    requires s.load.Idle?
    ensures var missed := kind == "group" && g !in s.cache;
            var es := [Touch(kind, g)] + if !missed then [] else if up then [Fetch, Fill] else [FetchFails];
            var t := Run(s, es);
            && t.Some? && t.value.load.Idle? && t.value.log == s.log && t.value.pending == s.pending
            && Values(t.value.cache) == if !missed || !up then Values(s.cache)
                                        else Values(s.cache)[g := Stored(s.rows, s.log, g)]
  {
    var missed := kind == "group" && g !in s.cache;
    RunOne(s, Touch(kind, g));
    if missed {
      if up {
        RunMore(s, [Touch(kind, g)], Fetch);
        RunMore(s, [Touch(kind, g), Fetch], Fill);
        assert [Touch(kind, g)] + [Fetch, Fill] == [Touch(kind, g), Fetch] + [Fill];
        assert [Touch(kind, g)] + [Fetch] == [Touch(kind, g), Fetch];
      } else {
        RunMore(s, [Touch(kind, g)], FetchFails);
      }
    }
  }

  lemma RunMore(s: Sys, es: seq<Event>, e: Event)
    requires Run(s, es).Some? && Enabled(Run(s, es).value, e)
    ensures Run(s, es + [e]) == Some(Next(Run(s, es).value, e))
  {
    assert (es + [e])[..|es|] == es;
  }

  lemma RunOne(s: Sys, e: Event)
    requires Enabled(s, e)
    ensures Run(s, [e]) == Some(Next(s, e))
  {
    RunMore(s, [], e);
    assert [] + [e] == [e];
  }

  // A write that nobody interrupts does what UpsertGroupProfile does.
  lemma UpsertIsARun(s: Sys, g: string, p: Profile)
    requires s.load.Idle? && Inv(s)
    ensures var t := Run(s, [Upsert(g, p, true), Invalidate(|s.log|)]);
            && t.Some? && Stored(s.rows, t.value.log, g) == Some(p)
            && (forall h | h != g :: Stored(s.rows, t.value.log, h) == Stored(s.rows, s.log, h))
            && Values(t.value.cache) == Values(s.cache) - {g} && t.value.pending == s.pending
  {
    RunOne(s, Upsert(g, p, true));
    RunMore(s, [Upsert(g, p, true)], Invalidate(|s.log|));
    assert [Upsert(g, p, true)] + [Invalidate(|s.log|)] == [Upsert(g, p, true), Invalidate(|s.log|)];
    var t := Run(s, [Upsert(g, p, true), Invalidate(|s.log|)]).value;
    assert t.log[..|s.log|] == s.log;
    assert s.pending + {|s.log|} - {|s.log|} == s.pending;
  }
}
