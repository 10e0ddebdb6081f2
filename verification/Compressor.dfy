// The compressor: its two maps, changed under a mutex, and one compression as
// the sequence of effects it has when nothing interferes. Each critical section
// is the step of Compression.dfy named in its contract.
module Compressor {
  import opened Options
  import opened WindowSpec
  import opened SummarySpec
  import opened Window
  import opened Summaries
  import opened Compression

  // The chain after a level-1 summary: fused, or trimmed of its oldest entry,
  // when it has outgrown the cap.
  ghost function AfterSummary(st: Store, listOk: bool, c: Content, fused: Option<Content>, failed: set<int>): Store
  {
    var added := Add(Load(st, listOk), c);
    if |added.chain| <= SUMMARY_CAP then added
    else if fused.Some? then Fuse(added, fused.value, failed)
    else Evict(added, failed)
  }

  // What a summary of content c does to the chain: it joins it, up to five; a
  // sixth has them all fused or, when the model fails, pushes the oldest out.
  ghost predicate Gains(before: Store, after: Store, c: Content, fused: Option<Content>)
  {
    var joined := before.chain + [Summary(before.next, c)];
    if |before.chain| < 5 then after.chain == joined && after.next == before.next + 1
    else if fused.Some? then after.chain == [Summary(before.next + 1, fused.value)] && after.next == before.next + 2
    else after.chain == joined[1..] && after.next == before.next + 1
  }

  lemma SummaryIsGained(st: Store, listOk: bool, c: Content, fused: Option<Content>, failed: set<int>)
    ensures var after := AfterSummary(st, listOk, c, fused, failed);
            after.loaded && Gains(Load(st, listOk), after, c, fused)
  {
  }

  function IdsOf(ms: seq<Message>): (ids: seq<string>)
    ensures |ids| == |ms|
  {
    seq(|ms|, i requires 0 <= i < |ms| => ms[i].id)
  }

  class Compressor {
    const window: Window
    const summaries: SummaryStore
    var inflight: set<string>
    var lastAttempt: map<string, int>

    constructor (window: Window, summaries: SummaryStore)
      ensures this.window == window && this.summaries == summaries
      ensures inflight == {} && lastAttempt == map[]
    {
      this.window, this.summaries := window, summaries;
      inflight, lastAttempt := {}, map[];
    }

    // The maps hold what the protocol state of the chat says.
    ghost predicate Holds(chat: string, s: Chat)
      reads this
    {
      && (s.inflight <==> chat in inflight)
      && s.lastAttempt == (if chat in lastAttempt then lastAttempt[chat] else NEVER)
      && (chat in lastAttempt ==> lastAttempt[chat] != NEVER)
    }

    twostate predicate OthersUnchanged(chat: string)
      reads this
    {
      forall k | k != chat ::
        && (k in inflight <==> k in old(inflight))
        && (k in lastAttempt <==> k in old(lastAttempt))
        && (k in lastAttempt ==> lastAttempt[k] == old(lastAttempt[k]))
    }

    method Trigger(chat: string, now: nat, ghost s: Chat, ghost r: nat) returns (started: bool)
      requires Holds(chat, s) && s.clock == now && r !in s.runs
      modifies this
      ensures started <==> MayStart(s)
      ensures Holds(chat, Next(s, Compression.Trigger(r))) && OthersUnchanged(chat)
    {
      if chat in inflight { return false; }
      if chat in lastAttempt && now - lastAttempt[chat] < COMPRESS_COOLDOWN { return false; }
      inflight := inflight + {chat};
      return true;
    }

    method RecordFailure(chat: string, now: nat, ghost s: Chat, ghost r: nat)
      requires Holds(chat, s) && s.clock == now && Enabled(s, Record(r))
      modifies this
      ensures Holds(chat, Next(s, Record(r))) && OthersUnchanged(chat)
    {
      lastAttempt := lastAttempt[chat := now];
    }

    method Release(chat: string, ghost s: Chat, ghost r: nat)
      requires Holds(chat, s) && Enabled(s, Compression.Release(r))
      modifies this
      ensures Holds(chat, Next(s, Compression.Release(r))) && OthersUnchanged(chat)
    {
      inflight := inflight - {chat};
    }

    // One compression: snapshot, level-1 summary, append, fuse or evict, trim.
    // level1 and level2 are what the model answers, None for an error.
    method Compress(chat: string, listing: Listing, level1: Option<Content>, level2: Option<Content>, failed: set<int>)
      returns (ok: bool)
      requires window.Valid() && summaries.Valid() && summaries.Answers(chat, listing)
      modifies window.Footprint(), summaries
      ensures window.Valid() && summaries.Valid() && summaries.OthersUnchanged(chat)
      ensures var d := old(window.DataOf(chat));
              var k := BatchSize(|d|);
              if k == 0 || level1 == None
              then && ok == (k == 0) && window.DataOf(chat) == d
                   && window.ContentsOf(chat) == old(window.ContentsOf(chat))
                   && summaries.StoreOf(chat) == old(summaries.StoreOf(chat))
              else && ok && window.DataOf(chat) == Keep(d, set id | id in IdsOf(d[..k]))
                   && window.ContentsOf(chat) == Without(old(window.ContentsOf(chat)), set id | id in IdsOf(d[..k]))
                   && summaries.StoreOf(chat) ==
                      AfterSummary(old(summaries.StoreOf(chat)), listing.Listed?, level1.value, level2, failed)
      ensures var w, st := old(window.ContentsOf(chat)), old(summaries.StoreOf(chat));
              Distinct(Ids(w)) ==>
                && (window.ContentsOf(chat) == w && summaries.StoreOf(chat) == st <==> |w| <= 20 || level1 == None)
                && (|w| > 20 && level1.Some? ==>
                      && ok && window.ContentsOf(chat) == w[|w| - 20..]
                      && Gains(Load(st, listing.Listed?), summaries.StoreOf(chat), level1.value, level2))
    {
      ghost var w := window.ContentsOf(chat);
      ContentsAreBounded(window, chat);
      IdsOfBatch(window.DataOf(chat), BatchSize(|w|));
      if Distinct(Ids(w)) { BatchLeavesTwenty(w); }
      if level1.Some? {
        SummaryIsGained(summaries.StoreOf(chat), listing.Listed?, level1.value, level2, failed);
      }
      var ids := BatchIds(chat);
      if |ids| == 0 { return true; }
      if level1 == None { return false; }
      Commit(chat, listing, ids, level1.value, level2, failed);
      return true;
    }

    // The goroutine: compress, record a failure, clear the flag. From a state s
    // of the protocol in which run r has just started, what it does to the maps,
    // the window and the chain is what the run's events do when nothing comes
    // between them.
    method Run(chat: string, now: nat, listing: Listing, level1: Option<Content>, level2: Option<Content>,
               failed: set<int>, ghost s: Chat, ghost r: nat) returns (ghost t: Chat)
      requires window.Valid() && summaries.Valid() && summaries.Answers(chat, listing)
      requires r in s.runs && s.runs[r].Started? && s.clock == now && Holds(chat, s)
      requires s.window == window.ContentsOf(chat) && s.store == summaries.StoreOf(chat)
      modifies this, window.Footprint(), summaries
      ensures window.Valid() && summaries.Valid()
      ensures Exec(s, WholeRun(s, r, listing.Listed?, level1, level2, failed)) == Some(t)
      ensures window.ContentsOf(chat) == t.window && summaries.StoreOf(chat) == t.store
      ensures Holds(chat, t) && OthersUnchanged(chat)
      ensures Distinct(Ids(s.window)) ==> RanOnce(s, t, listing.Listed?, level1, level2)
    {
      var ok;
      ghost var compressed;
      ok, compressed := CompressAs(chat, listing, level1, level2, failed, s, r);
      t := SettleBeside(chat, now, ok, compressed, r);
      SettledRun(s, r, listing.Listed?, level1, level2, failed, ok, compressed, t);
    }

    // The maps are no part of the window and the chain.
    method SettleBeside(chat: string, now: nat, ok: bool, ghost s: Chat, ghost r: nat) returns (ghost t: Chat)
      requires window.Valid() && summaries.Valid()
      requires Holds(chat, s) && s.clock == now && r in s.runs && s.runs[r] == if ok then Closing else Failed
      modifies this
      ensures window.Valid() && summaries.Valid()
      ensures window.ContentsOf(chat) == old(window.ContentsOf(chat))
      ensures summaries.StoreOf(chat) == old(summaries.StoreOf(chat))
      ensures Holds(chat, t) && OthersUnchanged(chat) && t.window == s.window && t.store == s.store
      ensures ok ==> t == Next(s, Event.Release(r))
      ensures !ok ==> Enabled(Next(s, Record(r)), Event.Release(r)) && t == Next(Next(s, Record(r)), Event.Release(r))
    {
      assert this !in window.Footprint() && this !in PartArrays(window.DataOf(chat));
      t := Settle(chat, now, ok, s, r);
    }

    method Settle(chat: string, now: nat, ok: bool, ghost s: Chat, ghost r: nat) returns (ghost t: Chat)
      requires Holds(chat, s) && s.clock == now && r in s.runs && s.runs[r] == if ok then Closing else Failed
      modifies this
      ensures Holds(chat, t) && OthersUnchanged(chat) && t.window == s.window && t.store == s.store
      ensures ok ==> t == Next(s, Event.Release(r))
      ensures !ok ==> Enabled(Next(s, Record(r)), Event.Release(r)) && t == Next(Next(s, Record(r)), Event.Release(r))
    {
      t := s;
      if !ok {
        RecordFailure(chat, now, t, r);
        t := Next(t, Record(r));
      }
      Release(chat, t, r);
      t := Next(t, Event.Release(r));
    }

    method CompressAs(chat: string, listing: Listing, level1: Option<Content>, level2: Option<Content>,
                      failed: set<int>, ghost s: Chat, ghost r: nat) returns (ok: bool, ghost t: Chat)
      requires window.Valid() && summaries.Valid() && summaries.Answers(chat, listing)
      requires r in s.runs && s.runs[r].Started?
      requires s.window == window.ContentsOf(chat) && s.store == summaries.StoreOf(chat)
      modifies window.Footprint(), summaries
      ensures window.Valid() && summaries.Valid()
      ensures Exec(s, RunEvents(s, r, listing.Listed?, level1, level2, failed)) == Some(t)
      ensures window.ContentsOf(chat) == t.window && summaries.StoreOf(chat) == t.store
      ensures ok <==> BatchSize(|s.window|) == 0 || level1.Some?
      ensures MapsAsBefore(s, r, t) && t.runs[r] == if ok then Closing else Failed
      ensures |s.window| <= 100
    {
      ContentsAreBounded(window, chat);
      t := CompressIsARun(s, r, listing.Listed?, level1, level2, failed);
      IdsOfBatch(window.DataOf(chat), BatchSize(|s.window|));
      ok := Compress(chat, listing, level1, level2, failed);
    }

    method Commit(chat: string, listing: Listing, ids: seq<string>, c: Content, level2: Option<Content>,
                  failed: set<int>)
      requires window.Valid() && summaries.Valid() && summaries.Answers(chat, listing)
      modifies window.Footprint(), summaries
      ensures window.Valid() && summaries.Valid() && summaries.OthersUnchanged(chat)
      ensures window.DataOf(chat) == Keep(old(window.DataOf(chat)), set id | id in ids)
      ensures window.ContentsOf(chat) == Without(old(window.ContentsOf(chat)), set id | id in ids)
      ensures summaries.StoreOf(chat) ==
              AfterSummary(old(summaries.StoreOf(chat)), listing.Listed?, c, level2, failed)
    {
      SummariseBeside(chat, listing, c, level2, failed);
      TrimBeside(chat, ids);
    }

    // The summary store is no part of the window, nor the other way round.
    method SummariseBeside(chat: string, listing: Listing, c: Content, level2: Option<Content>, failed: set<int>)
      requires window.Valid() && summaries.Valid() && summaries.Answers(chat, listing)
      modifies summaries
      ensures window.Valid() && window.DataOf(chat) == old(window.DataOf(chat))
      ensures window.ContentsOf(chat) == old(window.ContentsOf(chat)) && window.Footprint() == old(window.Footprint())
      ensures summaries.Valid() && summaries.OthersUnchanged(chat)
      ensures summaries.StoreOf(chat) ==
              AfterSummary(old(summaries.StoreOf(chat)), listing.Listed?, c, level2, failed)
    {
      assert summaries !in window.Footprint() && summaries !in PartArrays(window.DataOf(chat));
      Summarise(chat, listing, c, level2, failed);
    }

    method TrimBeside(chat: string, ids: seq<string>)
      requires window.Valid() && summaries.Valid()
      modifies window.Footprint()
      ensures window.Valid() && window.DataOf(chat) == Keep(old(window.DataOf(chat)), set id | id in ids)
      ensures window.ContentsOf(chat) == Without(old(window.ContentsOf(chat)), set id | id in ids)
      ensures unchanged(summaries)
    {
      var _ := window.RemoveByIDs(chat, ids);
    }

    // The ids of the oldest messages of a snapshot, as many as a batch takes.
    method BatchIds(chat: string) returns (ids: seq<string>)
      requires window.Valid()
      ensures var d := window.DataOf(chat); ids == IdsOf(d[..BatchSize(|d|)])
      ensures window.DataOf(chat) == old(window.DataOf(chat))
      ensures window.ContentsOf(chat) == old(window.ContentsOf(chat))
    {
      var msgs := window.GetWindow(chat);
      var batchEnd := msgs.Length - COMPRESSION_KEEP;
      if batchEnd > COMPRESS_BATCH { batchEnd := COMPRESS_BATCH; }
      if batchEnd <= 0 { return []; }
      ids := IdsOf(msgs[..batchEnd]);
    }

    method Summarise(chat: string, listing: Listing, c: Content, level2: Option<Content>, failed: set<int>)
      requires summaries.Valid() && summaries.Answers(chat, listing)
      modifies summaries
      ensures summaries.Valid() && summaries.OthersUnchanged(chat)
      ensures summaries.StoreOf(chat) ==
              AfterSummary(old(summaries.StoreOf(chat)), listing.Listed?, c, level2, failed)
    {
      var _ := summaries.Append(chat, listing, c);
      MaybeFuse(chat, level2, failed);
    }

    method MaybeFuse(chat: string, level2: Option<Content>, failed: set<int>)
      requires summaries.Valid() && chat in summaries.chains
      modifies summaries
      ensures summaries.Valid() && summaries.OthersUnchanged(chat)
      ensures var st := old(summaries.StoreOf(chat));
              summaries.StoreOf(chat) ==
              if |st.chain| <= SUMMARY_CAP then st
              else if level2.Some? then Fuse(st, level2.value, failed) else Evict(st, failed)
    {
      var chain := summaries.GetAll(chat, QueryFailed);
      if |chain| <= SUMMARY_CAP { return; }
      if level2 == None {
        var _ := summaries.EvictOldest(chat, QueryFailed, failed);
        return;
      }
      var _ := summaries.ReplaceWithFused(chat, QueryFailed, level2.value, failed);
    }
  }

  lemma IdsOfBatch(d: seq<Message>, k: nat)
    requires k <= |d|
    ensures (set id | id in IdsOf(d[..k])) == IdSet(Views(d)[..k])
  {
    var w := Views(d)[..k];
    forall i | 0 <= i < k ensures d[i].id in IdSet(w) { assert w[i] in w; }
    forall id | id in IdSet(w) ensures id in IdsOf(d[..k]) {
      var i :| 0 <= i < k && w[i].id == id;
      assert IdsOf(d[..k])[i] == id;
    }
  }

  // The events of one run that nothing interrupts, the database answering a
  // load with ok, the model answering c and, to a fusion request, fused.
  ghost function UninterruptedRun(s: Chat, r: nat, ok: bool, c: Content, fused: Option<Content>, failed: set<int>)
    : seq<Event>
  {
    var fusion :=
      if |Add(Load(s.store, ok), c).chain| <= SUMMARY_CAP then []
      else if fused.Some? then [FuseOk(r, fused.value, failed)]
      else [FuseFail(r, failed)];
    [Snapshot(r), Level1Ok(r, c, ok), ReadChain(r)] + fusion + [Trim(r)]
  }

  // The same with a short window and a failing model as well.
  ghost function RunEvents(s: Chat, r: nat, ok: bool, level1: Option<Content>, level2: Option<Content>,
                           failed: set<int>)
    : seq<Event>
  {
    if BatchSize(|s.window|) == 0 then [Snapshot(r)]
    else if level1 == None then [Snapshot(r), Level1Fail(r)]
    else UninterruptedRun(s, r, ok, level1.value, level2, failed)
  }

  lemma RunStarts(s: Chat, r: nat)
    requires r in s.runs && s.runs[r].Started?
    ensures Exec(s, [Snapshot(r)]) == Some(Next(s, Snapshot(r)))
  {
    ExecExtend(s, [], Snapshot(r));
    assert [] + [Snapshot(r)] == [Snapshot(r)];
  }

  lemma RunFails(s: Chat, r: nat)
    requires r in s.runs && s.runs[r].Started? && BatchSize(|s.window|) > 0
    ensures var t := Exec(s, [Snapshot(r), Level1Fail(r)]);
            && t.Some? && t.value.window == s.window && t.value.store == s.store
            && MapsAsBefore(s, r, t.value) && t.value.runs[r] == Failed
  {
    RunStarts(s, r);
    ExecExtend(s, [Snapshot(r)], Level1Fail(r));
    assert [Snapshot(r)] + [Level1Fail(r)] == [Snapshot(r), Level1Fail(r)];
  }

  // Up to the fusion check: the summary is chained, the window is as it was.
  lemma RunReachesFusion(s: Chat, r: nat, ok: bool, c: Content) returns (t: Chat)
    requires r in s.runs && s.runs[r].Started? && BatchSize(|s.window|) > 0
    ensures Exec(s, [Snapshot(r), Level1Ok(r, c, ok), ReadChain(r)]) == Some(t)
    ensures t.window == s.window && t.store == Add(Load(s.store, ok), c)
    ensures MapsAsBefore(s, r, t)
    ensures if |t.store.chain| <= SUMMARY_CAP then t.runs[r].Trimming? else t.runs[r].Fusing?
    ensures t.runs[r].batch == s.window[..BatchSize(|s.window|)]
  {
    RunStarts(s, r);
    ExecExtend(s, [Snapshot(r)], Level1Ok(r, c, ok));
    assert [Snapshot(r)] + [Level1Ok(r, c, ok)] == [Snapshot(r), Level1Ok(r, c, ok)];
    ExecExtend(s, [Snapshot(r), Level1Ok(r, c, ok)], ReadChain(r));
    assert [Snapshot(r), Level1Ok(r, c, ok)] + [ReadChain(r)] == [Snapshot(r), Level1Ok(r, c, ok), ReadChain(r)];
    t := Exec(s, [Snapshot(r), Level1Ok(r, c, ok), ReadChain(r)]).value;
  }

  // A chain that has outgrown the cap is fused or trimmed.
  lemma RunFuses(t: Chat, r: nat, fused: Option<Content>, failed: set<int>) returns (e: Event, u: Chat)
    requires r in t.runs && t.runs[r].Fusing? && t.store.loaded
    ensures e == if fused.Some? then FuseOk(r, fused.value, failed) else FuseFail(r, failed)
    ensures Enabled(t, e) && u == Next(t, e)
    ensures u.window == t.window && MapsAsBefore(t, r, u)
    ensures u.runs[r] == Trimming(t.runs[r].batch, t.runs[r].span)
    ensures u.store == if fused.Some? then Fuse(t.store, fused.value, failed) else Evict(t.store, failed)
  {
    e := if fused.Some? then FuseOk(r, fused.value, failed) else FuseFail(r, failed);
    u := Next(t, e);
  }

  lemma RunTrims(u: Chat, r: nat)
    requires r in u.runs && u.runs[r].Trimming?
    ensures Enabled(u, Trim(r))
    ensures var v := Next(u, Trim(r));
            && v.window == Without(u.window, IdSet(u.runs[r].batch)) && v.store == u.store
            && MapsAsBefore(u, r, v) && v.runs[r] == Closing
  {
  }

  lemma ShortRun(s: Chat, es: seq<Event>, t: Chat, r: nat)
    requires Exec(s, es) == Some(t) && r in t.runs && t.runs[r].Trimming?
    ensures var u := Exec(s, es + [Trim(r)]);
            && u.Some? && u.value.window == Without(t.window, IdSet(t.runs[r].batch)) && u.value.store == t.store
            && MapsAsBefore(t, r, u.value) && u.value.runs[r] == Closing
  {
    RunTrims(t, r);
    ExecExtend(s, es, Trim(r));
  }

  lemma LongRun(s: Chat, es: seq<Event>, t: Chat, r: nat, fused: Option<Content>, failed: set<int>)
    requires Exec(s, es) == Some(t) && r in t.runs && t.runs[r].Fusing? && t.store.loaded
    ensures var e := if fused.Some? then FuseOk(r, fused.value, failed) else FuseFail(r, failed);
            var u := Exec(s, es + [e] + [Trim(r)]);
            && u.Some? && u.value.window == Without(t.window, IdSet(t.runs[r].batch))
            && u.value.store == (if fused.Some? then Fuse(t.store, fused.value, failed) else Evict(t.store, failed))
            && MapsAsBefore(t, r, u.value) && u.value.runs[r] == Closing
  {
    var e, u := RunFuses(t, r, fused, failed);
    ExecExtend(s, es, e);
    ShortRun(s, es + [e], u, r);
  }

  // A run that succeeds without a fusion, and one that goes on to it: the events
  // that follow those of RunReachesFusion.
  lemma SmallChainRun(s: Chat, r: nat, ok: bool, c: Content, fused: Option<Content>, failed: set<int>)
    requires r in s.runs && s.runs[r].Started? && BatchSize(|s.window|) > 0
    requires |Add(Load(s.store, ok), c).chain| <= SUMMARY_CAP
    ensures var t := Exec(s, UninterruptedRun(s, r, ok, c, fused, failed));
            t.Some? && Succeeded(s, r, Add(Load(s.store, ok), c), t.value)
  {
    hide Exec;
    var t := RunReachesFusion(s, r, ok, c);
    var es := [Snapshot(r), Level1Ok(r, c, ok), ReadChain(r)];
    ShortRun(s, es, t, r);
    assert es + [] + [Trim(r)] == es + [Trim(r)];
  }

  lemma FullChainRun(s: Chat, r: nat, ok: bool, c: Content, fused: Option<Content>, failed: set<int>)
    requires r in s.runs && s.runs[r].Started? && BatchSize(|s.window|) > 0
    requires |Add(Load(s.store, ok), c).chain| > SUMMARY_CAP
    ensures var t := Exec(s, UninterruptedRun(s, r, ok, c, fused, failed));
            var store := Add(Load(s.store, ok), c);
            t.Some? &&
            Succeeded(s, r, if fused.Some? then Fuse(store, fused.value, failed) else Evict(store, failed), t.value)
  {
    hide Exec, Fuse, Evict;
    var t := RunReachesFusion(s, r, ok, c);
    LongRun(s, [Snapshot(r), Level1Ok(r, c, ok), ReadChain(r)], t, r, fused, failed);
  }

  // The run is over, the batch trimmed, the store as given.
  ghost predicate Succeeded(s: Chat, r: nat, store: Store, t: Chat)
  {
    && t.store == store && t.window == Without(s.window, IdSet(s.window[..BatchSize(|s.window|)]))
    && MapsAsBefore(s, r, t) && t.runs[r] == Closing
  }

  lemma SuccessIsARun(s: Chat, r: nat, ok: bool, c: Content, fused: Option<Content>, failed: set<int>)
    requires r in s.runs && s.runs[r].Started? && BatchSize(|s.window|) > 0
    ensures var t := Exec(s, UninterruptedRun(s, r, ok, c, fused, failed));
            t.Some? && Succeeded(s, r, AfterSummary(s.store, ok, c, fused, failed), t.value)
  {
    hide Exec, UninterruptedRun, Succeeded;
    if |Add(Load(s.store, ok), c).chain| <= SUMMARY_CAP {
      SmallChainRun(s, r, ok, c, fused, failed);
    } else {
      FullChainRun(s, r, ok, c, fused, failed);
    }
  }

  // The flag and the times are as they were, and so are the other runs.
  ghost predicate MapsAsBefore(s: Chat, r: nat, t: Chat)
  {
    && t.inflight == s.inflight && t.lastAttempt == s.lastAttempt && t.clock == s.clock
    && r in t.runs && t.runs == s.runs[r := t.runs[r]]
  }

  // Where the events of an uninterrupted run lead, whatever the model answers.
  lemma CompressIsARun(s: Chat, r: nat, ok: bool, level1: Option<Content>, level2: Option<Content>, failed: set<int>)
    returns (t: Chat)
    requires r in s.runs && s.runs[r].Started?
    ensures Exec(s, RunEvents(s, r, ok, level1, level2, failed)) == Some(t) && MapsAsBefore(s, r, t)
    ensures var k := BatchSize(|s.window|);
            if k == 0 || level1 == None
            then t.window == s.window && t.store == s.store && t.runs[r] == if k > 0 then Failed else Closing
            else && t.window == Without(s.window, IdSet(s.window[..k]))
                 && t.store == AfterSummary(s.store, ok, level1.value, level2, failed)
                 && t.runs[r] == Closing
  {
    if BatchSize(|s.window|) == 0 {
      RunStarts(s, r);
    } else if level1 == None {
      RunFails(s, r);
    } else {
      SuccessIsARun(s, r, ok, level1.value, level2, failed);
    }
    t := Exec(s, RunEvents(s, r, ok, level1, level2, failed)).value;
  }

  // The whole of the goroutine.
  ghost function WholeRun(s: Chat, r: nat, ok: bool, level1: Option<Content>, level2: Option<Content>, failed: set<int>)
    : seq<Event>
  {
    var es := RunEvents(s, r, ok, level1, level2, failed);
    (if BatchSize(|s.window|) == 0 || level1.Some? then es else es + [Record(r)]) + [Event.Release(r)]
  }

  // What a goroutine that nothing interrupts does, by the length of the window
  // and the model's answer.
  lemma WholeRunTakesAllButTwenty(s: Chat, r: nat, ok: bool, level1: Option<Content>, level2: Option<Content>,
                                  failed: set<int>)
    requires r in s.runs && s.runs[r].Started? && |s.window| <= 100 && Distinct(Ids(s.window))
    ensures var t := Exec(s, WholeRun(s, r, ok, level1, level2, failed));
            t.Some? && RanOnce(s, t.value, ok, level1, level2) && t.value.runs == s.runs - {r}
  {
    hide Exec, RunEvents, Without, AfterSummary;
    var t := CompressIsARun(s, r, ok, level1, level2, failed);
    var es := RunEvents(s, r, ok, level1, level2, failed);
    BatchLeavesTwenty(s.window);
    if level1.Some? { SummaryIsGained(s.store, ok, level1.value, level2, failed); }
    if |s.window| > 20 && level1 == None {
      ExecExtend(s, es, Record(r));
      es, t := es + [Record(r)], Next(t, Record(r));
    }
    ExecExtend(s, es, Event.Release(r));
  }

  // Recording a failure and clearing the flag complete the run.
  lemma SettledRun(s: Chat, r: nat, listOk: bool, level1: Option<Content>, level2: Option<Content>, failed: set<int>,
                   ok: bool, compressed: Chat, t: Chat)
    requires r in s.runs && s.runs[r].Started? && |s.window| <= 100
    requires Exec(s, RunEvents(s, r, listOk, level1, level2, failed)) == Some(compressed)
    requires r in compressed.runs && compressed.runs[r] == if ok then Closing else Failed
    requires ok <==> BatchSize(|s.window|) == 0 || level1.Some?
    requires ok ==> t == Next(compressed, Event.Release(r))
    requires !ok ==> Enabled(Next(compressed, Record(r)), Event.Release(r)) &&
                     t == Next(Next(compressed, Record(r)), Event.Release(r))
    ensures Exec(s, WholeRun(s, r, listOk, level1, level2, failed)) == Some(t)
    ensures Distinct(Ids(s.window)) ==> RanOnce(s, t, listOk, level1, level2)
  {
    hide Exec, RunEvents, RanOnce, Distinct;
    var es := RunEvents(s, r, listOk, level1, level2, failed);
    if !ok { ExecExtend(s, es, Record(r)); }
    ExecExtend(s, if ok then es else es + [Record(r)], Event.Release(r));
    if Distinct(Ids(s.window)) { WholeRunTakesAllButTwenty(s, r, listOk, level1, level2, failed); }
  }

  // From s to t one goroutine has run: the window is down to its newest twenty
  // messages and the chain has gained a summary, unless there was nothing to
  // take or the model failed; only a failure is noted.
  ghost predicate RanOnce(s: Chat, t: Chat, ok: bool, level1: Option<Content>, level2: Option<Content>)
  {
    var n := |s.window|;
    && !t.inflight && t.clock == s.clock
    && t.lastAttempt == (if n > 20 && level1 == None then s.clock else s.lastAttempt)
    && (if n > 20 && level1.Some?
        then t.window == s.window[n - 20..] && Gains(Load(s.store, ok), t.store, level1.value, level2)
        else t.window == s.window && t.store == s.store)
  }
}
