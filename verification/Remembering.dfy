// What the bot still knows of a chat: every summarised message is covered by
// some summary in the hot chain or the archive, except the messages that a crash
// or a failed write has cost, and these are determined exactly.
module Remembering {
  import opened Options
  import opened WindowSpec
  import opened SummarySpec
  import opened Compression

  // Some summary that still exists covers message i.
  ghost predicate Remembered(s: Chat, i: int)
  {
    i in Held(s.ledger.covers, Numbers(s.store))
  }

  ghost predicate MemoryInv(s: Chat)
  {
    !s.ledger.harmed ==>
      && (forall i :: Covered(s.ledger.batches, i) <==> Remembered(s, i) || i in s.ledger.lost)
      && (forall i | i in s.ledger.lost :: !Remembered(s, i))
  }

  lemma HeldUnion(covers: map<int, set<int>>, a: set<int>, b: set<int>)
    ensures Held(covers, a + b) == Held(covers, a) + Held(covers, b)
  {
  }

  lemma HeldOne(covers: map<int, set<int>>, k: int)
    ensures Held(covers, {k}) == CoverOf(covers, k)
  {
    forall i ensures i in Held(covers, {k}) <==> i in CoverOf(covers, k) {
      if i in CoverOf(covers, k) { assert k in {k}; }
    }
  }

  // A number not in use may be given away.
  lemma HeldElsewhere(covers: map<int, set<int>>, ks: set<int>, n: int, cover: set<int>)
    requires n !in ks
    ensures Held(covers[n := cover], ks) == Held(covers, ks)
    ensures Held(covers[n := cover], ks + {n}) == Held(covers, ks) + cover
  {
    var after := covers[n := cover];
    assert forall k | k in ks :: CoverOf(after, k) == CoverOf(covers, k);
    assert CoverOf(after, n) == cover;
    HeldOne(after, n);
    HeldUnion(after, ks, {n});
  }

  // Loading brings back archived summaries only.
  lemma LoadKeepsNumbers(st: Store, ok: bool)
    requires Sound(st) && (!st.loaded ==> st.chain == [])
    ensures Numbers(Load(st, ok)) == Numbers(st)
  {
    NewestAscends(st.archive, RELOAD_LIMIT);
  }

  lemma NumbersAreUsed(st: Store)
    requires Sound(st) && st.loaded
    ensures st.next !in Numbers(st)
  {
  }

  lemma NumbersOfAdd(st: Store, c: Content)
    ensures Numbers(Add(st, c)) == Numbers(st) + {st.next}
  {
    var chain := st.chain + [Summary(st.next, c)];
    assert forall x :: x in chain <==> x in st.chain || x == Summary(st.next, c);
  }

  // ---- The steps that make, fuse, evict and forget summaries ----

  lemma Level1OkKeepsMemory(s: Chat, r: nat, c: Content, ok: bool)
    requires Inv(s) && MemoryInv(s) && Enabled(s, Level1Ok(r, c, ok))
    ensures MemoryInv(Next(s, Level1Ok(r, c, ok)))
  {
    var s' := Next(s, Level1Ok(r, c, ok));
    if !s'.ledger.harmed {
      var st, span := Load(s.store, ok), s.runs[r].span;
      assert PhaseInv(s, s.runs[r]);
      LoadKeepsInv(s.store, ok);
      LoadKeepsNumbers(s.store, ok);
      NumbersAreUsed(st);
      NumbersOfAdd(st, c);
      HeldElsewhere(s.ledger.covers, Numbers(st), st.next, Indices(span));
      forall i ensures Covered(s'.ledger.batches, i) <==> Covered(s.ledger.batches, i) || i in Indices(span) {
        CoveredBySplit(s.ledger.batches, span, i);
      }
      forall i | i in s.ledger.lost ensures !Remembered(s', i) {
        assert Covered(s.ledger.batches, i);
        var k :| 0 <= k < |s.ledger.batches| && Holds(s.ledger.batches[k], i);
        assert i !in Indices(span);
      }
    }
  }

  // Archiving a chain adds some of its numbers to the archive.
  lemma SaveAllKeys(archive: Archive, chain: seq<Summary>, failed: set<int>)
    ensures archive.Keys <= SaveAll(archive, chain, failed).Keys <= archive.Keys + ChainNumbers(chain)
  {
    SaveAllSources(archive, chain, failed);
  }

  // A fusion covers what its chain covered, so that nothing hangs on the writes.
  lemma FusionKeepsHeld(st: Store, c: Content, failed: set<int>, covers: map<int, set<int>>)
    requires Sound(st) && st.loaded
    ensures Held(covers[st.next := Held(covers, ChainNumbers(st.chain))], Numbers(Fuse(st, c, failed))) ==
            Held(covers, Numbers(st))
  {
    var archived := SaveAll(st.archive, st.chain, failed).Keys;
    SaveAllKeys(st.archive, st.chain, failed);
    NumbersAreUsed(st);
    assert Numbers(Fuse(st, c, failed)) == archived + {st.next};
    HeldBetween(covers, st.archive.Keys, archived, ChainNumbers(st.chain));
    HeldElsewhere(covers, archived, st.next, Held(covers, ChainNumbers(st.chain)));
  }

  lemma HeldBetween(covers: map<int, set<int>>, a: set<int>, b: set<int>, more: set<int>)
    requires a <= b <= a + more
    ensures Held(covers, b) + Held(covers, more) == Held(covers, a + more)
  {
    HeldUnion(covers, b, more);
    assert b + more == a + more;
  }

  lemma NumbersOfEvict(st: Store, failed: set<int>)
    requires Sound(st) && st.loaded && st.chain != []
    ensures var rest := st.archive.Keys + ChainNumbers(st.chain[1..]);
            && Numbers(Evict(st, failed)) == (if st.chain[0].seqNo in failed then rest else rest + {st.chain[0].seqNo})
            && Numbers(st) == rest + {st.chain[0].seqNo}
  {
    assert st.chain == [st.chain[0]] + st.chain[1..];
  }

  lemma EvictionKeepsHeld(s: Chat, r: nat, failed: set<int>)
    requires Inv(s) && Enabled(s, FuseFail(r, failed)) && !s.ledger.harmed
    ensures var s' := Next(s, FuseFail(r, failed));
            && Held(s.ledger.covers, Numbers(s.store)) ==
               Held(s.ledger.covers, Numbers(s'.store)) + LostByEviction(s.ledger, s.store, failed)
            && Held(s.ledger.covers, Numbers(s'.store)) !! LostByEviction(s.ledger, s.store, failed)
            && s'.ledger == s.ledger.(lost := s.ledger.lost + LostByEviction(s.ledger, s.store, failed))
  {
    assert PhaseInv(s, s.runs[r]);
    var st, covers := s.store, s.ledger.covers;
    if st.chain != [] {
      var rest, k := st.archive.Keys + ChainNumbers(st.chain[1..]), st.chain[0].seqNo;
      NumbersOfEvict(st, failed);
      HeldUnion(covers, rest, {k});
      HeldOne(covers, k);
    }
  }

  lemma CrashKeepsHeld(s: Chat)
    ensures var s' := Next(s, Crash);
            && Held(s.ledger.covers, Numbers(s.store)) ==
               Held(s'.ledger.covers, Numbers(s'.store)) + LostByCrash(s.ledger, s.store)
            && Held(s'.ledger.covers, Numbers(s'.store)) !! LostByCrash(s.ledger, s.store)
  {
    assert Numbers(Next(s, Crash).store) == s.store.archive.Keys;
    HeldUnion(s.ledger.covers, s.store.archive.Keys, ChainNumbers(s.store.chain));
  }

  lemma AppendKeepsMemory(s: Chat, m: Msg)
    requires MemoryInv(s) && Enabled(s, Append(m))
    ensures MemoryInv(Next(s, Append(m)))
  {
    var s' := Next(s, Append(m));
    assert s'.ledger.batches == s.ledger.batches && s'.ledger.covers == s.ledger.covers;
  }

  lemma StepKeepsMemory(s: Chat, e: Event)
    requires Inv(s) && MemoryInv(s) && Enabled(s, e)
    ensures MemoryInv(Next(s, e))
  {
    match e
    case Append(m) => AppendKeepsMemory(s, m);
    case Level1Ok(r, c, ok) => Level1OkKeepsMemory(s, r, c, ok);
    case FuseOk(r, c, failed) =>
      assert PhaseInv(s, s.runs[r]);
      if !s.ledger.harmed { FusionKeepsHeld(s.store, c, failed, s.ledger.covers); }
    case FuseFail(r, failed) =>
      if !s.ledger.harmed { EvictionKeepsHeld(s, r, failed); }
    case ReadChain(r) =>
      assert PhaseInv(s, s.runs[r]);
    case Read(ok) =>
      if !s.ledger.harmed { LoadKeepsNumbers(s.store, ok); }
    case Crash => CrashKeepsHeld(s);
    case _ =>
  }

  lemma {:induction false} RunKeepsMemory(es: seq<Event>)
    requires Exec(Initial(), es).Some?
    ensures Inv(Exec(Initial(), es).value) && MemoryInv(Exec(Initial(), es).value)
  {
    if es != [] {
      RunKeepsMemory(es[..|es| - 1]);
      StepKeepsInv(Exec(Initial(), es[..|es| - 1]).value, es[|es| - 1]);
      StepKeepsMemory(Exec(Initial(), es[..|es| - 1]).value, es[|es| - 1]);
    }
  }

  lemma ReachableMemory(s: Chat)
    requires Reachable(s)
    ensures Inv(s) && MemoryInv(s)
  {
    var es :| Exec(Initial(), es) == Some(s);
    RunKeepsMemory(es);
  }

  // ---- Main results ----

  // Over every run in which no load has failed over a non-empty archive: a
  // message that went into a compression is covered by a summary that is in the
  // hot chain or in the archive, or it is lost; never both, and no summary
  // covers a message that went into none.
  lemma SummarisedIsRemembered(s: Chat, i: int)
    requires Reachable(s) && !s.ledger.harmed
    ensures Covered(s.ledger.batches, i) <==> Remembered(s, i) || i in s.ledger.lost
    ensures !(Remembered(s, i) && i in s.ledger.lost)
    ensures Remembered(s, i) ==>
              exists k :: i in CoverOf(s.ledger.covers, k) &&
                          (k in s.store.archive || exists x | x in s.store.chain :: x.seqNo == k)
  {
    ReachableMemory(s);
  }

  // Which events forget: a crash, exactly the messages that only the hot chain
  // covers; a failed fusion whose evicted summary cannot be written, exactly
  // those that only this summary covers. Nothing else does: not a fusion whose
  // writes fail, not a trim, not a reload.
  lemma WhatIsForgotten(s: Chat, e: Event, i: int)
    requires Reachable(s) && Enabled(s, e) && !Next(s, e).ledger.harmed
    ensures Remembered(s, i) && !Remembered(Next(s, e), i) <==>
            || (e.Crash? && i in LostByCrash(s.ledger, s.store))
            || (e.FuseFail? && i in LostByEviction(s.ledger, s.store, e.failed))
  {
    ReachableMemory(s);
    match e
    case Level1Ok(r, c, ok) => Level1OkForgetsNothing(s, r, c, ok, i);
    case FuseOk(r, c, failed) =>
      assert PhaseInv(s, s.runs[r]);
      FusionKeepsHeld(s.store, c, failed, s.ledger.covers);
    case FuseFail(r, failed) => EvictionKeepsHeld(s, r, failed);
    case ReadChain(r) =>
      assert PhaseInv(s, s.runs[r]);
    case Read(ok) => LoadKeepsNumbers(s.store, ok);
    case Crash => CrashKeepsHeld(s);
    case _ =>
  }

  lemma Level1OkForgetsNothing(s: Chat, r: nat, c: Content, ok: bool, i: int)
    requires Inv(s) && Enabled(s, Level1Ok(r, c, ok)) && !Next(s, Level1Ok(r, c, ok)).ledger.harmed
    ensures Remembered(s, i) ==> Remembered(Next(s, Level1Ok(r, c, ok)), i)
  {
    var st := Load(s.store, ok);
    LoadKeepsInv(s.store, ok);
    LoadKeepsNumbers(s.store, ok);
    NumbersAreUsed(st);
    NumbersOfAdd(st, c);
    HeldElsewhere(s.ledger.covers, Numbers(st), st.next, Indices(s.runs[r].span));
  }

  // What a crash leaves of a summary of the hot chain: it can be found again if
  // and only if it had been archived, and it is in the chain that the next query
  // reloads if and only if, besides, fewer than five archived numbers exceed its
  // own.
  lemma CrashKeepsIff(s: Chat, x: Summary)
    requires Reachable(s) && !s.ledger.harmed && x in s.store.chain
    ensures var after := Next(Next(s, Crash), Read(true)).store;
            && (x.seqNo in after.archive && after.archive[x.seqNo] == x <==> x.seqNo in s.store.archive)
            && (x in after.chain <==>
                x.seqNo in s.store.archive && |Above(s.store.archive.Keys, x.seqNo)| < 5)
  {
    ReachableInv(s);
    RestartKeepsIff(s.store, x);
  }

  lemma RestartKeepsIff(st: Store, x: Summary)
    requires Sound(st) && st.loaded && x in st.chain
    ensures x.seqNo in st.archive ==> st.archive[x.seqNo] == x
    ensures x in Load(Restart(st), true).chain <==>
            x.seqNo in st.archive && |Above(st.archive.Keys, x.seqNo)| < RELOAD_LIMIT
  {
    NewestAscends(st.archive, RELOAD_LIMIT);
    if x.seqNo in st.archive { NewestIff(st.archive, RELOAD_LIMIT, x.seqNo); }
  }

  // ---- A run that loses a summary ----

  lemma {:induction false} FillWindow(n: nat) returns (es: seq<Event>, s: Chat)
    requires n <= WINDOW_CAP
    ensures Exec(Initial(), es) == Some(s)
    ensures |s.window| == |s.ledger.log| == n && forall id | id in s.ledger.log :: |id| < n
    ensures s == Initial().(window := s.window, ledger := Initial().ledger.(log := s.ledger.log))
  {
    if n == 0 {
      return [], Initial();
    }
    var init, t;
    init, t := FillWindow(n - 1);
    var e := Append(Msg(seq(n - 1, _ => 'm'), "", []));
    assert e.m.id !in t.ledger.log;
    ExecExtend(Initial(), init, e);
    return init + [e], Next(t, e);
  }

  lemma OneStep(es: seq<Event>, s: Chat, e: Event) returns (more: seq<Event>, t: Chat)
    requires Exec(Initial(), es) == Some(s) && Enabled(s, e)
    ensures t == Next(s, e) && Exec(Initial(), more) == Some(t) && Reachable(t)
  {
    ExecExtend(Initial(), es, e);
    return es + [e], Next(s, e);
  }

  // One compression of the oldest of twenty-one messages, up to its trim.
  lemma FirstCompression(c: Content) returns (es: seq<Event>, s: Chat)
    ensures Exec(Initial(), es) == Some(s) && Reachable(s)
    ensures s.store == Store(true, [Summary(1, c)], 2, map[]) && !s.ledger.harmed
    ensures s.ledger.batches == [Span(0, 1, 21)] && s.ledger.covers == map[1 := Indices(Span(0, 1, 21))]
    ensures 0 in s.runs && s.runs[0].Trimming? && |s.ledger.log| == 21 && s.runs[0].span == Span(0, 1, 21)
  {
    es, s := FillWindow(COMPRESSION_KEEP + 1);
    es, s := OneStep(es, s, Trigger(0));
    es, s := OneStep(es, s, Snapshot(0));
    es, s := OneStep(es, s, Level1Ok(0, c, true));
    es, s := OneStep(es, s, ReadChain(0));
  }

  lemma OneHotSummary(g: Ledger, st: Store, c: Content, span: Span)
    requires st == Store(true, [Summary(1, c)], 2, map[]) && g.covers == map[1 := Indices(span)]
    ensures Held(g.covers, Numbers(st)) == LostByCrash(g, st) == Indices(span)
  {
    assert ChainNumbers(st.chain) == {1} && Numbers(st) == {1};
    HeldOne(g.covers, 1);
  }

  lemma FirstTrim(s: Chat)
    requires Reachable(s) && 0 in s.runs && s.runs[0].Trimming? && |s.ledger.log| == 21
    requires s.runs[0].span == Span(0, 1, 21)
    ensures Next(s, Trim(0)).ledger.start == 1
  {
    TrimLeavesTheRest(s, 0);
    assert |Ids(Next(s, Trim(0)).window)| == 20;
  }

  lemma LosesTheFirst(s: Chat, c: Content)
    requires Reachable(s) && !s.ledger.harmed && s.store == Store(true, [Summary(1, c)], 2, map[])
    requires s.ledger.batches == [Span(0, 1, 21)] && s.ledger.covers == map[1 := Indices(Span(0, 1, 21))]
    ensures Remembered(s, 0) && 0 in Next(s, Crash).ledger.lost
    ensures Covered(Next(s, Crash).ledger.batches, 0) && !Remembered(Next(s, Crash), 0)
    ensures Next(Next(s, Crash), Read(true)).store.chain == []
  {
    var span := Span(0, 1, 21);
    assert Holds(span, 0) && Holds(s.ledger.batches[0], 0);
    OneHotSummary(s.ledger, s.store, c, span);
    CrashKeepsHeld(s);
    NothingReloaded(s);
  }

  lemma NothingReloaded(s: Chat)
    requires s.store.archive == map[]
    ensures Next(Next(s, Crash), Read(true)).store.chain == []
  {
  }

  // A crash loses what was summarised and trimmed: after the run es message 0
  // is out of the window and remembered; after the crash no summary covers it.
  lemma CrashLosesSummary(c: Content) returns (es: seq<Event>, s: Chat)
    ensures Exec(Initial(), es) == Some(s) && s.ledger.start == 1 && Remembered(s, 0)
    ensures var after := Next(s, Crash);
            && Covered(after.ledger.batches, 0) && 0 in after.ledger.lost && !Remembered(after, 0)
            && Next(after, Read(true)).store.chain == []
  {
    var init, t := FirstCompression(c);
    FirstTrim(t);
    es, s := OneStep(init, t, Trim(0));
    AfterTrim(t);
    LosesTheFirst(s, c);
  }

  lemma AfterTrim(t: Chat)
    requires Enabled(t, Trim(0))
    ensures var s := Next(t, Trim(0));
            && s.store == t.store && s.ledger == t.ledger.(start := s.ledger.start)
  {
  }
}
