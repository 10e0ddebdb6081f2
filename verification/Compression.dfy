// The compression protocol of one chat as a state machine: messages arrive,
// compressions run concurrently with them and with readers, and the process may
// crash at any moment. Steps are the critical sections of window.go, summary.go
// and compress.go; what the language model and the database answer is part of
// the event. Chats share nothing, so one chat is the whole story.
module Compression {
  import opened Options
  import opened WindowSpec
  import opened SummarySpec

  const COMPRESS_COOLDOWN: int := 60  // seconds

  // A compression in flight covers log[lo..hi]; the log had length seen when its
  // snapshot was taken.
  datatype Span = Span(lo: int, hi: int, seen: int)

  // Where a run stands between two critical sections.
  datatype Phase =
    | Started
    | Summarising(batch: seq<Msg>, span: Span)                        // level-1 call in flight
    | Chained(batch: seq<Msg>, span: Span)                            // summary appended
    | Fusing(batch: seq<Msg>, span: Span, chain: seq<Summary>)        // level-2 call in flight
    | Trimming(batch: seq<Msg>, span: Span)
    | Failed                                                          // error returned, not recorded yet
    | Closing                                                         // in-flight flag still set

  // The history that the claims are about; the program does not keep it. log
  // lists the ids of all messages ever appended; the window is log[start..].
  // covers says of each summary, by number, which messages went into it, itself
  // or through the summaries it was fused from; lost are the messages whose last
  // summary is gone. harmed: a load has failed over a non-empty archive.
  datatype Ledger = Ledger(log: seq<string>, start: int, batches: seq<Span>, dropped: set<int>, lastFailure: int,
                           covers: map<int, set<int>>, lost: set<int>, harmed: bool)

  const NEVER: int := -1

  datatype Chat = Chat(window: seq<Msg>, store: Store, inflight: bool, lastAttempt: int,
                       runs: map<nat, Phase>, clock: nat, ledger: Ledger)

  datatype Event =
    | Append(m: Msg)
    | Backfill(id: string, parts: seq<Part>)
    | Tick(seconds: nat)
    | Trigger(r: nat)
    | Snapshot(r: nat)
    | Level1Ok(r: nat, c: Content, ok: bool)  // ok: the query succeeds if the chat has to be loaded
    | Level1Fail(r: nat)
    | ReadChain(r: nat)
    | FuseOk(r: nat, c: Content, failed: set<int>)
    | FuseFail(r: nat, failed: set<int>)
    | Trim(r: nat)
    | Record(r: nat)
    | Release(r: nat)
    | Read(ok: bool)
    | Crash

  ghost function Initial(): Chat
  {
    Chat([], Store(false, [], 0, map[]), false, NEVER, map[], 0, Ledger([], 0, [], {}, NEVER, map[], {}, false))
  }

  // Trigger starts a run unless one is in flight or a failure is recent.
  ghost predicate MayStart(s: Chat)
  {
    !s.inflight && (s.lastAttempt == NEVER || s.clock - s.lastAttempt >= COMPRESS_COOLDOWN)
  }

  // Message ids are unique; goroutines are named by fresh numbers and take the
  // steps of their phase; everything else may happen at any time.
  ghost predicate Enabled(s: Chat, e: Event)
  {
    match e
    case Append(m) => m.id !in s.ledger.log
    case Backfill(id, parts) => true
    case Tick(_) => true
    case Trigger(r) => r !in s.runs
    case Snapshot(r) => r in s.runs && s.runs[r].Started?
    case Level1Ok(r, _, _) => r in s.runs && s.runs[r].Summarising?
    case Level1Fail(r) => r in s.runs && s.runs[r].Summarising?
    case ReadChain(r) => r in s.runs && s.runs[r].Chained?
    case FuseOk(r, _, _) => r in s.runs && s.runs[r].Fusing?
    case FuseFail(r, _) => r in s.runs && s.runs[r].Fusing?
    case Trim(r) => r in s.runs && s.runs[r].Trimming?
    case Record(r) => r in s.runs && s.runs[r].Failed?
    case Release(r) => r in s.runs && s.runs[r].Closing?
    case Read(_) => true
    case Crash => true
  }

  predicate Holds(b: Span, i: int)
  {
    b.lo <= i < b.hi
  }

  ghost predicate Covered(batches: seq<Span>, i: int)
  {
    exists k | 0 <= k < |batches| :: Holds(batches[k], i)
  }

  // The entry pushed out of a full window is dropped unless a summary covers it.
  ghost function LedgerAppend(g: Ledger, w: seq<Msg>, id: string): Ledger
  {
    if |w| < WINDOW_CAP then g.(log := g.log + [id])
    else g.(log := g.log + [id], start := g.start + 1,
            dropped := if Covered(g.batches, g.start) then g.dropped else g.dropped + {g.start})
  }

  ghost function Uncovered(g: Ledger, lo: int, hi: int): set<int>
  {
    set i | lo <= i < hi && !Covered(g.batches, i)
  }

  // Entries summarised after all.
  ghost function WithoutSpan(dropped: set<int>, span: Span): set<int>
  {
    set i | i in dropped && !(span.lo <= i < span.hi)
  }

  // ---- What the summaries cover ----

  function Indices(span: Span): set<int> { set i | span.lo <= i < span.hi && Holds(span, i) }

  function CoverOf(covers: map<int, set<int>>, k: int): set<int>
  {
    if k in covers then covers[k] else {}
  }

  // The messages that some summary with a number in ks covers.
  ghost function Held(covers: map<int, set<int>>, ks: set<int>): set<int>
  {
    set k, i | k in ks && i in CoverOf(covers, k) :: i
  }

  ghost function ChainNumbers(chain: seq<Summary>): set<int>
  {
    set x | x in chain :: x.seqNo
  }

  // The summaries there are: those in the hot chain and those in the archive.
  ghost function Numbers(st: Store): set<int>
  {
    st.archive.Keys + ChainNumbers(st.chain)
  }

  // A crash forgets what only the hot chain covered; a failed write of an
  // evicted summary, what only that summary covered.
  ghost function LostByCrash(g: Ledger, st: Store): set<int>
  {
    Held(g.covers, ChainNumbers(st.chain)) - Held(g.covers, st.archive.Keys)
  }

  ghost function LostByEviction(g: Ledger, st: Store, failed: set<int>): set<int>
  {
    if st.chain == [] || st.chain[0].seqNo !in failed then {}
    else CoverOf(g.covers, st.chain[0].seqNo) - Held(g.covers, st.archive.Keys + ChainNumbers(st.chain[1..]))
  }

  ghost predicate HarmfulLoad(st: Store, ok: bool)
  {
    !st.loaded && !ok && st.archive != map[]
  }

  ghost function Next(s: Chat, e: Event): Chat
    requires Enabled(s, e)
  {
    match e
    case Append(m) =>
      s.(window := Appended(s.window, m), ledger := LedgerAppend(s.ledger, s.window, m.id))
    case Backfill(id, parts) =>
      s.(window := if id == "" then s.window else Backfilled(s.window, id, parts))
    case Tick(d) => s.(clock := s.clock + d)
    case Trigger(r) =>
      if MayStart(s) then s.(inflight := true, runs := s.runs[r := Started]) else s
    case Snapshot(r) =>
      var n := |s.window|;
      var k := BatchSize(n);
      var phase := if k == 0 then Closing
                   else Summarising(s.window[..k], Span(s.ledger.start, s.ledger.start + k, |s.ledger.log|));
      s.(runs := s.runs[r := phase])
    case Level1Ok(r, c, ok) =>
      var p, st, g := s.runs[r], Load(s.store, ok), s.ledger;
      s.(store := Add(st, c), runs := s.runs[r := Chained(p.batch, p.span)],
         ledger := g.(batches := g.batches + [p.span], dropped := WithoutSpan(g.dropped, p.span),
                      covers := g.covers[st.next := Indices(p.span)],
                      harmed := g.harmed || HarmfulLoad(s.store, ok)))
    case Level1Fail(r) =>
      s.(runs := s.runs[r := Failed], ledger := s.ledger.(lastFailure := s.clock))
    case ReadChain(r) =>
      var p := s.runs[r];
      var st := Load(s.store, true);
      var phase := if |st.chain| <= SUMMARY_CAP then Trimming(p.batch, p.span)
                   else Fusing(p.batch, p.span, st.chain);
      s.(store := st, runs := s.runs[r := phase])
    case FuseOk(r, c, failed) =>
      var p := s.runs[r];
      var st, g := Load(s.store, true), s.ledger;
      s.(store := Fuse(st, c, failed), runs := s.runs[r := Trimming(p.batch, p.span)],
         ledger := g.(covers := g.covers[st.next := Held(g.covers, ChainNumbers(st.chain))]))
    case FuseFail(r, failed) =>
      var p := s.runs[r];
      var st, g := Load(s.store, true), s.ledger;
      s.(store := Evict(st, failed), runs := s.runs[r := Trimming(p.batch, p.span)],
         ledger := g.(lost := g.lost + LostByEviction(g, st, failed)))
    case Trim(r) =>
      var w := Without(s.window, IdSet(s.runs[r].batch));
      s.(window := w, runs := s.runs[r := Closing],
         ledger := s.ledger.(start := |s.ledger.log| - |w|))
    case Record(r) => s.(lastAttempt := s.clock, runs := s.runs[r := Closing])
    case Release(r) => s.(inflight := false, runs := s.runs - {r})
    case Read(ok) =>
      s.(store := Load(s.store, ok),
         ledger := s.ledger.(harmed := s.ledger.harmed || HarmfulLoad(s.store, ok)))
    case Crash =>
      Chat([], Restart(s.store), false, NEVER, map[], s.clock,
           s.ledger.(start := |s.ledger.log|, lastFailure := NEVER,
                     lost := s.ledger.lost + LostByCrash(s.ledger, s.store),
                     dropped := s.ledger.dropped + Uncovered(s.ledger, s.ledger.start, |s.ledger.log|)))
  }

  // The state after a run, None if some event was not enabled.
  ghost function Exec(s: Chat, es: seq<Event>): Option<Chat>
  {
    if es == [] then Some(s)
    else
      var before := Exec(s, es[..|es| - 1]);
      var e := es[|es| - 1];
      if before.Some? && Enabled(before.value, e) then Some(Next(before.value, e)) else None
  }

  lemma ExecExtend(s: Chat, es: seq<Event>, e: Event)
    requires Exec(s, es).Some? && Enabled(Exec(s, es).value, e)
    ensures Exec(s, es + [e]) == Some(Next(Exec(s, es).value, e))
  {
    assert (es + [e])[..|es|] == es;
  }

  // ---- What holds at every moment ----

  // The window is a contiguous suffix of the log, never longer than the cap.
  ghost predicate WindowInv(s: Chat)
  {
    var g := s.ledger;
    && Distinct(g.log)
    && 0 <= g.start <= |g.log|
    && |s.window| <= WINDOW_CAP
    && Ids(s.window) == g.log[g.start..]
  }

  // Summarised batches are disjoint, increasing stretches of the log.
  ghost predicate BatchesInv(g: Ledger)
  {
    && (forall k | 0 <= k < |g.batches| :: 0 <= g.batches[k].lo < g.batches[k].hi <= |g.log|)
    && (forall j, k | 0 <= j < k < |g.batches| :: g.batches[j].hi <= g.batches[k].lo)
  }

  ghost predicate Below(batches: seq<Span>, n: int)
  {
    forall k | 0 <= k < |batches| :: batches[k].hi <= n
  }

  // Dropped is exactly what left the window without being summarised.
  ghost predicate DroppedInv(g: Ledger)
  {
    forall i :: i in g.dropped <==> 0 <= i < g.start && !Covered(g.batches, i)
  }

  // The batch of a run in flight: the oldest part of its snapshot. What has been
  // evicted since the snapshot was evicted from a full window.
  ghost predicate SpanInv(g: Ledger, batch: seq<Msg>, span: Span)
  {
    && 0 <= span.lo < span.hi <= span.seen <= |g.log|
    && Ids(batch) == g.log[span.lo..span.hi]
    && span.seen - span.lo <= WINDOW_CAP
    && span.hi - span.lo == BatchSize(span.seen - span.lo)
    && g.start == if |g.log| - WINDOW_CAP > span.lo then |g.log| - WINDOW_CAP else span.lo
  }

  ghost predicate PhaseInv(s: Chat, p: Phase)
  {
    var g := s.ledger;
    match p
    case Summarising(batch, span) => SpanInv(g, batch, span) && Below(g.batches, span.lo)
    case Chained(batch, span) => SpanInv(g, batch, span) && AwaitsTrim(g, span) && s.store.loaded
    case Fusing(batch, span, chain) =>
      SpanInv(g, batch, span) && AwaitsTrim(g, span) && s.store.loaded && chain == s.store.chain
    case Trimming(batch, span) => SpanInv(g, batch, span) && AwaitsTrim(g, span)
    case _ => Below(g.batches, g.start)
  }

  // The newest batch is summarised but may still be in the window.
  ghost predicate AwaitsTrim(g: Ledger, span: Span)
  {
    && g.batches != [] && g.batches[|g.batches| - 1] == span
    && Below(g.batches[..|g.batches| - 1], span.lo)
  }

  // At most one compression is in flight, and the flag says so.
  ghost predicate RunsInv(s: Chat)
  {
    && (forall a, b | a in s.runs && b in s.runs :: a == b)
    && (s.inflight <==> s.runs != map[])
    && (s.runs == map[] ==> Below(s.ledger.batches, s.ledger.start))
    && (forall r | r in s.runs :: PhaseInv(s, s.runs[r]))
  }

  ghost predicate ChainMayBeLong(s: Chat)
  {
    exists r | r in s.runs :: s.runs[r].Chained? || s.runs[r].Fusing?
  }

  // The hot chain has at most SUMMARY_CAP entries, one more between append and fusion.
  ghost predicate ChainInv(s: Chat)
  {
    && (!s.ledger.harmed ==> Sound(s.store))
    && (!s.store.loaded ==> s.store.chain == [])
    && (s.store.loaded ==> |s.store.chain| <= if ChainMayBeLong(s) then SUMMARY_CAP + 1 else SUMMARY_CAP)
  }

  // A failure is recorded before the in-flight flag is cleared.
  ghost predicate CooldownInv(s: Chat)
  {
    && NEVER <= s.lastAttempt <= s.clock
    && NEVER <= s.ledger.lastFailure <= s.clock
    && ((exists r | r in s.runs :: s.runs[r].Failed?) || s.ledger.lastFailure <= s.lastAttempt)
  }

  ghost predicate Inv(s: Chat)
  {
    && WindowInv(s) && BatchesInv(s.ledger) && DroppedInv(s.ledger)
    && RunsInv(s) && ChainInv(s) && CooldownInv(s)
  }

  // ---- Messages arriving ----

  lemma IdsOfAppend(w: seq<Msg>, m: Msg)
    ensures Ids(w + [m]) == Ids(w) + [m.id]
    ensures forall k | 0 <= k <= |w| :: Ids(w[k..]) == Ids(w)[k..]
  {
  }

  lemma AppendKeepsWindow(s: Chat, m: Msg)
    requires WindowInv(s) && Enabled(s, Append(m))
    ensures WindowInv(Next(s, Append(m)))
  {
    var g, w := s.ledger, s.window;
    IdsOfAppend(w, m);
    assert |w| == |g.log| - g.start;
    assert (g.log + [m.id])[g.start..] == g.log[g.start..] + [m.id];
    if |w| == WINDOW_CAP {
      var w' := (w + [m])[1..];
      assert Ids(w') == Ids(w + [m])[1..];
      assert (g.log + [m.id])[g.start + 1..] == (g.log + [m.id])[g.start..][1..];
    }
  }

  lemma AppendKeepsDropped(g: Ledger, w: seq<Msg>, id: string)
    requires BatchesInv(g) && DroppedInv(g) && g.start >= 0
    ensures BatchesInv(LedgerAppend(g, w, id)) && DroppedInv(LedgerAppend(g, w, id))
  {
    var g' := LedgerAppend(g, w, id);
    forall i ensures i in g'.dropped <==> 0 <= i < g'.start && !Covered(g'.batches, i) {
      assert Covered(g'.batches, i) <==> Covered(g.batches, i);
    }
  }

  lemma AppendKeepsSpan(g: Ledger, w: seq<Msg>, id: string, batch: seq<Msg>, span: Span)
    requires SpanInv(g, batch, span) && |w| == |g.log| - g.start && |w| <= WINDOW_CAP
    ensures SpanInv(LedgerAppend(g, w, id), batch, span)
  {
    assert (g.log + [id])[span.lo..span.hi] == g.log[span.lo..span.hi];
  }

  lemma AppendKeepsPhase(s: Chat, m: Msg, p: Phase)
    requires WindowInv(s) && PhaseInv(s, p) && Enabled(s, Append(m))
    ensures PhaseInv(Next(s, Append(m)), p)
  {
    assert |s.window| == |s.ledger.log| - s.ledger.start by { assert |Ids(s.window)| == |s.window|; }
    if p.Summarising? || p.Chained? || p.Fusing? || p.Trimming? {
      AppendKeepsSpan(s.ledger, s.window, m.id, p.batch, p.span);
    }
  }

  lemma AppendKeepsRuns(s: Chat, m: Msg)
    requires WindowInv(s) && RunsInv(s) && Enabled(s, Append(m))
    ensures RunsInv(Next(s, Append(m)))
  {
    var s' := Next(s, Append(m));
    forall r | r in s'.runs ensures PhaseInv(s', s'.runs[r]) { AppendKeepsPhase(s, m, s.runs[r]); }
  }

  lemma AppendKeepsInv(s: Chat, m: Msg)
    requires Inv(s) && Enabled(s, Append(m))
    ensures Inv(Next(s, Append(m)))
  {
    AppendKeepsWindow(s, m);
    AppendKeepsDropped(s.ledger, s.window, m.id);
    AppendKeepsRuns(s, m);
    assert ChainMayBeLong(Next(s, Append(m))) <==> ChainMayBeLong(s);
  }

  lemma BackfillKeepsInv(s: Chat, id: string, parts: seq<Part>)
    requires Inv(s)
    ensures Inv(Next(s, Backfill(id, parts)))
  {
    var s' := Next(s, Backfill(id, parts));
    BackfillKeepsIds(s.window, id, parts);
    forall r | r in s'.runs ensures PhaseInv(s', s'.runs[r]) { assert PhaseInv(s, s.runs[r]); }
  }

  // ---- The run ----

  lemma OnlyRun(s: Chat, r: nat, p: Phase)
    requires RunsInv(s) && r in s.runs
    ensures s.runs[r := p].Keys == {r} && s.runs.Keys == {r}
  {
  }

  lemma TriggerKeepsInv(s: Chat, r: nat)
    requires Inv(s) && Enabled(s, Trigger(r))
    ensures Inv(Next(s, Trigger(r)))
  {
    var s' := Next(s, Trigger(r));
    if MayStart(s) {
      assert s.runs == map[];
      assert s'.runs == map[r := Started];
    }
  }

  lemma SnapshotKeepsInv(s: Chat, r: nat)
    requires Inv(s) && Enabled(s, Snapshot(r))
    ensures Inv(Next(s, Snapshot(r)))
  {
    var s' := Next(s, Snapshot(r));
    OnlyRun(s, r, s'.runs[r]);
    var g, n := s.ledger, |s.window|;
    var k := BatchSize(n);
    assert n == |g.log| - g.start by { assert |Ids(s.window)| == n; }
    assert PhaseInv(s, s.runs[r]);
    if k > 0 {
      assert Ids(s.window[..k]) == Ids(s.window)[..k];
      assert g.log[g.start..][..k] == g.log[g.start..g.start + k];
      assert SpanInv(g, s.window[..k], Span(g.start, g.start + k, |g.log|));
    }
    assert PhaseInv(s', s'.runs[r]);
    assert !ChainMayBeLong(s);
  }

  lemma CoveredBySplit(batches: seq<Span>, span: Span, i: int)
    ensures Covered(batches + [span], i) <==> Covered(batches, i) || span.lo <= i < span.hi
  {
    var all := batches + [span];
    if Covered(batches, i) {
      var k :| 0 <= k < |batches| && Holds(batches[k], i);
      assert all[k] == batches[k];
    }
    if span.lo <= i < span.hi { assert all[|batches|] == span; }
  }

  lemma Level1OkKeepsLedger(g: Ledger, span: Span)
    requires BatchesInv(g) && DroppedInv(g) && Below(g.batches, span.lo)
    requires 0 <= span.lo < span.hi <= |g.log|
    ensures var g' := g.(batches := g.batches + [span], dropped := WithoutSpan(g.dropped, span));
            BatchesInv(g') && DroppedInv(g')
  {
    forall i ensures i in WithoutSpan(g.dropped, span) <==> 0 <= i < g.start && !Covered(g.batches + [span], i) {
      CoveredBySplit(g.batches, span, i);
    }
  }

  lemma LoadKeepsInv(st: Store, ok: bool)
    ensures var st' := Load(st, ok);
            && st'.loaded && st'.archive == st.archive && (st.loaded ==> st' == st)
            && (!st.loaded ==> |st'.chain| <= SUMMARY_CAP)
            && (Sound(st) && !HarmfulLoad(st, ok) ==> Sound(st'))
  {
    if Sound(st) && !HarmfulLoad(st, ok) {
      assert Load(st, ok) == Load(st, true);
      LoadKeepsSound(st);
    }
  }

  lemma Level1OkKeepsRuns(s: Chat, r: nat, c: Content, ok: bool)
    requires RunsInv(s) && Enabled(s, Level1Ok(r, c, ok))
    ensures RunsInv(Next(s, Level1Ok(r, c, ok))) && ChainMayBeLong(Next(s, Level1Ok(r, c, ok)))
    ensures !ChainMayBeLong(s)
  {
    var s' := Next(s, Level1Ok(r, c, ok));
    var p := s.runs[r];
    OnlyRun(s, r, s'.runs[r]);
    assert PhaseInv(s, p);
    assert s'.runs[r].Chained?;
    assert s'.ledger.batches[..|s'.ledger.batches| - 1] == s.ledger.batches;
    assert SpanInv(s'.ledger, p.batch, p.span);
    assert PhaseInv(s', s'.runs[r]);
  }

  lemma Level1OkKeepsInv(s: Chat, r: nat, c: Content, ok: bool)
    requires Inv(s) && Enabled(s, Level1Ok(r, c, ok))
    ensures Inv(Next(s, Level1Ok(r, c, ok)))
  {
    var p := s.runs[r];
    assert PhaseInv(s, p);
    Level1OkKeepsRuns(s, r, c, ok);
    Level1OkKeepsLedger(s.ledger, p.span);
    LoadKeepsInv(s.store, ok);
    if Sound(Load(s.store, ok)) { AddKeepsSound(Load(s.store, ok), c); }
  }

  lemma Level1FailKeepsInv(s: Chat, r: nat)
    requires Inv(s) && Enabled(s, Level1Fail(r))
    ensures Inv(Next(s, Level1Fail(r)))
  {
    var s' := Next(s, Level1Fail(r));
    OnlyRun(s, r, Failed);
    assert PhaseInv(s, s.runs[r]);
    assert s'.runs[r].Failed?;
    assert !ChainMayBeLong(s);
  }

  lemma ReadChainKeepsInv(s: Chat, r: nat)
    requires Inv(s) && Enabled(s, ReadChain(r))
    ensures Inv(Next(s, ReadChain(r)))
  {
    var s' := Next(s, ReadChain(r));
    OnlyRun(s, r, s'.runs[r]);
    assert PhaseInv(s, s.runs[r]);
    assert PhaseInv(s', s'.runs[r]);
    if s'.runs[r].Fusing? { assert ChainMayBeLong(s'); }
  }

  lemma FusionKeepsInv(s: Chat, r: nat, e: Event)
    requires Inv(s) && Enabled(s, e)
    requires e.FuseOk? || e.FuseFail?
    requires r == e.r
    ensures Inv(Next(s, e))
  {
    var s' := Next(s, e);
    OnlyRun(s, r, s'.runs[r]);
    assert PhaseInv(s, s.runs[r]);
    if !s.ledger.harmed {
      match e {
        case FuseOk(_, c, failed) => FuseKeepsSound(s.store, c, failed);
        case FuseFail(_, failed) => EvictKeepsSound(s.store, failed);
      }
    }
    assert PhaseInv(s', s'.runs[r]);
    assert |s.store.chain| <= SUMMARY_CAP + 1;
  }

  lemma RecordKeepsInv(s: Chat, r: nat)
    requires Inv(s) && Enabled(s, Record(r))
    ensures Inv(Next(s, Record(r)))
  {
    var s' := Next(s, Record(r));
    OnlyRun(s, r, Closing);
    assert PhaseInv(s, s.runs[r]);
    assert !ChainMayBeLong(s);
  }

  lemma ReleaseKeepsInv(s: Chat, r: nat)
    requires Inv(s) && Enabled(s, Release(r))
    ensures Inv(Next(s, Release(r)))
  {
    var s' := Next(s, Release(r));
    OnlyRun(s, r, Closing);
    assert PhaseInv(s, s.runs[r]);
    assert s'.runs == map[];
    assert !ChainMayBeLong(s);
  }

  lemma ReadKeepsInv(s: Chat, ok: bool)
    requires Inv(s)
    ensures Inv(Next(s, Read(ok)))
  {
    var s' := Next(s, Read(ok));
    LoadKeepsInv(s.store, ok);
    assert ChainMayBeLong(s') <==> ChainMayBeLong(s);
    forall r | r in s'.runs ensures PhaseInv(s', s'.runs[r]) { assert PhaseInv(s, s.runs[r]); }
  }

  lemma CrashKeepsInv(s: Chat)
    requires Inv(s)
    ensures Inv(Next(s, Crash))
  {
    var g, g' := s.ledger, Next(s, Crash).ledger;
    forall i ensures i in g'.dropped <==> 0 <= i < g'.start && !Covered(g'.batches, i) {
    }
  }

  lemma TickKeepsInv(s: Chat, d: nat)
    requires Inv(s)
    ensures Inv(Next(s, Tick(d)))
  {
    var s' := Next(s, Tick(d));
    forall r | r in s'.runs ensures PhaseInv(s', s'.runs[r]) { assert PhaseInv(s, s.runs[r]); }
  }

  lemma IdAt(s: Chat, i: int)
    requires WindowInv(s) && s.ledger.start <= i < |s.ledger.log|
    ensures |s.window| == |s.ledger.log| - s.ledger.start
    ensures s.window[i - s.ledger.start].id == s.ledger.log[i]
  {
    var g := s.ledger;
    assert Ids(s.window)[i - g.start] == g.log[g.start..][i - g.start];
  }

  lemma SuffixIds(s: Chat, m: nat)
    requires WindowInv(s) && m <= |s.window|
    ensures |s.window| == |s.ledger.log| - s.ledger.start
    ensures Ids(s.window[m..]) == s.ledger.log[s.ledger.start + m..]
  {
    assert |Ids(s.window)| == |s.window|;
    assert Ids(s.window[m..]) == Ids(s.window)[m..];
  }

  lemma InBatch(log: seq<string>, batch: seq<Msg>, span: Span, i: int)
    requires 0 <= span.lo <= span.hi <= |log| && Ids(batch) == log[span.lo..span.hi] && span.lo <= i < span.hi
    ensures log[i] in IdSet(batch)
  {
    var j := i - span.lo;
    assert Ids(batch)[j] == log[i];
    assert batch[j] in batch && batch[j].id == log[i];
  }

  lemma NotInBatch(log: seq<string>, batch: seq<Msg>, span: Span, i: int)
    requires 0 <= span.lo <= span.hi <= i < |log| && Ids(batch) == log[span.lo..span.hi] && Distinct(log)
    ensures log[i] !in IdSet(batch)
  {
    forall x | x in batch ensures x.id != log[i] {
      var j :| 0 <= j < |batch| && batch[j] == x;
      assert Ids(batch)[j] == x.id;
      assert log[span.lo..span.hi][j] == log[span.lo + j];
    }
  }

  // Trimming removes the summarised part of the window and nothing else: what
  // is left starts at the end of the batch, or where eviction has got to.
  lemma TrimEffect(s: Chat, batch: seq<Msg>, span: Span) returns (m: nat)
    requires WindowInv(s) && SpanInv(s.ledger, batch, span)
    ensures |s.window| == |s.ledger.log| - s.ledger.start
    ensures m <= |s.window|
    ensures m == if span.hi > s.ledger.start then span.hi - s.ledger.start else 0
    ensures Without(s.window, IdSet(batch)) == s.window[m..]
    ensures Ids(s.window[m..]) == s.ledger.log[s.ledger.start + m..]
  {
    var start, w, log := s.ledger.start, s.window, s.ledger.log;
    assert |w| == |log| - start by { assert |Ids(w)| == |w|; }
    m := if span.hi > start then span.hi - start else 0;
    forall i | 0 <= i < |w| ensures w[i].id in IdSet(batch) <==> i < m {
      IdAt(s, start + i);
      if i < m { InBatch(log, batch, span, start + i); } else { NotInBatch(log, batch, span, start + i); }
    }
    WithoutFirst(w, IdSet(batch), m);
    SuffixIds(s, m);
  }

  lemma TrimKeepsInv(s: Chat, r: nat)
    requires Inv(s) && Enabled(s, Trim(r))
    ensures Inv(Next(s, Trim(r)))
  {
    var s' := Next(s, Trim(r));
    var p := s.runs[r];
    OnlyRun(s, r, Closing);
    assert PhaseInv(s, p);
    var m := TrimEffect(s, p.batch, p.span);
    var g, g' := s.ledger, s'.ledger;
    assert g'.start == g.start + m;
    assert WindowInv(s');
    forall i ensures i in g'.dropped <==> 0 <= i < g'.start && !Covered(g'.batches, i) {
      if g.start <= i < g'.start {
        assert g.batches[|g.batches| - 1] == p.span;
        assert Covered(g.batches, i);
      }
    }
    assert Below(g'.batches, g'.start) by {
      forall k | 0 <= k < |g'.batches| ensures g'.batches[k].hi <= g'.start {
        if k < |g.batches| - 1 { assert g.batches[..|g.batches| - 1][k] == g.batches[k]; }
      }
    }
    assert !ChainMayBeLong(s);
  }

  lemma StepKeepsInv(s: Chat, e: Event)
    requires Inv(s) && Enabled(s, e)
    ensures Inv(Next(s, e))
  {
    match e
    case Append(m) => AppendKeepsInv(s, m);
    case Backfill(id, parts) => BackfillKeepsInv(s, id, parts);
    case Tick(d) => TickKeepsInv(s, d);
    case Trigger(r) => TriggerKeepsInv(s, r);
    case Snapshot(r) => SnapshotKeepsInv(s, r);
    case Level1Ok(r, c, ok) => Level1OkKeepsInv(s, r, c, ok);
    case Level1Fail(r) => Level1FailKeepsInv(s, r);
    case ReadChain(r) => ReadChainKeepsInv(s, r);
    case FuseOk(r, _, _) => FusionKeepsInv(s, r, e);
    case FuseFail(r, _) => FusionKeepsInv(s, r, e);
    case Trim(r) => TrimKeepsInv(s, r);
    case Record(r) => RecordKeepsInv(s, r);
    case Release(r) => ReleaseKeepsInv(s, r);
    case Read(ok) => ReadKeepsInv(s, ok);
    case Crash => CrashKeepsInv(s);
  }

  lemma {:induction false} RunKeepsInv(s: Chat, es: seq<Event>)
    requires Inv(s)
    ensures Exec(s, es).Some? ==> Inv(Exec(s, es).value)
  {
    if es != [] {
      var before, e := Exec(s, es[..|es| - 1]), es[|es| - 1];
      RunKeepsInv(s, es[..|es| - 1]);
      if before.Some? && Enabled(before.value, e) { StepKeepsInv(before.value, e); }
    }
  }

  ghost predicate Reachable(s: Chat)
  {
    exists es :: Exec(Initial(), es) == Some(s)
  }

  lemma ReachableInv(s: Chat)
    requires Reachable(s)
    ensures Inv(s)
  {
    var es :| Exec(Initial(), es) == Some(s);
    RunKeepsInv(Initial(), es);
  }

  // ---- Main results ----

  ghost predicate AwaitingTrim(s: Chat, i: int)
  {
    exists r | r in s.runs ::
      && (s.runs[r].Chained? || s.runs[r].Fusing? || s.runs[r].Trimming?)
      && s.runs[r].span.lo <= i < s.runs[r].span.hi
  }

  lemma SummarisedInWindow(s: Chat, i: int)
    requires Inv(s) && Covered(s.ledger.batches, i) && i >= s.ledger.start
    ensures AwaitingTrim(s, i)
  {
    var g := s.ledger;
    var k :| 0 <= k < |g.batches| && Holds(g.batches[k], i);
    assert !Below(g.batches, g.start);
    var r :| r in s.runs;
    assert PhaseInv(s, s.runs[r]);
    var earlier := g.batches[..|g.batches| - 1];
    assert forall j | 0 <= j < |earlier| :: earlier[j] == g.batches[j];
  }

  // At every moment of every run, the window is a contiguous suffix of the log
  // of at most WINDOW_CAP messages, and every message ever appended is in the
  // window, in one summarised batch, or dropped; only a message awaiting the
  // trim of a running compression is in two of these, window and batch.
  lemma EveryMessageAccounted(s: Chat)
    requires Reachable(s)
    ensures var g := s.ledger;
            && 0 <= g.start <= |g.log| && |s.window| <= WINDOW_CAP && Ids(s.window) == g.log[g.start..]
            && (forall i | 0 <= i < |g.log| :: i >= g.start || Covered(g.batches, i) || i in g.dropped)
            && (forall i | i in g.dropped :: 0 <= i < g.start && !Covered(g.batches, i))
            && (forall i | Covered(g.batches, i) && i >= g.start :: AwaitingTrim(s, i))
            && (forall j, k, i | 0 <= j < k < |g.batches| && Holds(g.batches[j], i) :: !Holds(g.batches[k], i))
  {
    ReachableInv(s);
    forall i | Covered(s.ledger.batches, i) && i >= s.ledger.start ensures AwaitingTrim(s, i) {
      SummarisedInWindow(s, i);
    }
  }

  // Under every interleaving at most one compression of the chat is in flight.
  lemma AtMostOneCompression(s: Chat)
    requires Reachable(s)
    ensures |s.runs| <= 1 && (s.inflight <==> |s.runs| == 1)
  {
    ReachableInv(s);
    if s.runs != map[] {
      var r :| r in s.runs;
      OnlyRun(s, r, Closing);
      assert |s.runs.Keys| == 1;
    }
  }

  // So a fusion replaces exactly the chain that was fused: the one read before
  // the model call. The new summary is numbered above it, and every entry whose
  // write succeeds is archived as it was.
  lemma FusionReplacesWhatItRead(s: Chat, r: nat, c: Content, failed: set<int>)
    requires Reachable(s) && Enabled(s, FuseOk(r, c, failed))
    ensures var chain := s.runs[r].chain;
            var after := Next(s, FuseOk(r, c, failed)).store;
            && chain == s.store.chain && after.chain == [Summary(s.store.next, c)]
            && (!s.ledger.harmed ==>
                  && (forall x | x in chain :: x.seqNo < s.store.next)
                  && (forall x | x in chain && x.seqNo !in failed ::
                        x.seqNo in after.archive && after.archive[x.seqNo] == x))
  {
    ReachableInv(s);
    assert PhaseInv(s, s.runs[r]);
    if !s.ledger.harmed { SaveAllEffect(s.store.archive, s.store.chain, failed); }
  }

  lemma StepKeepsArchive(s: Chat, e: Event)
    requires Inv(s) && Enabled(s, e) && !Next(s, e).ledger.harmed
    ensures Kept(s.store.archive, Next(s, e).store.archive)
  {
    match e
    case FuseOk(r, c, failed) =>
      assert PhaseInv(s, s.runs[r]);
      FuseKeepsSound(s.store, c, failed);
    case FuseFail(r, failed) =>
      assert PhaseInv(s, s.runs[r]);
      EvictKeepsSound(s.store, failed);
    case _ =>
  }

  lemma HarmStays(s: Chat, e: Event)
    requires Enabled(s, e) && s.ledger.harmed
    ensures Next(s, e).ledger.harmed
  {
  }

  // Over every run with crashes and failed writes, no archived summary is lost
  // or overwritten with something else, unless some load failed over a non-empty
  // archive. SummarySpec.LoadsDecide says that the exception is exact.
  lemma {:induction false} ArchiveOnlyGrows(s: Chat, es: seq<Event>)
    requires Reachable(s) && Exec(s, es).Some? && !Exec(s, es).value.ledger.harmed
    ensures Kept(s.store.archive, Exec(s, es).value.store.archive)
  {
    if es != [] {
      var t, e := Exec(s, es[..|es| - 1]).value, es[|es| - 1];
      if t.ledger.harmed { HarmStays(t, e); }
      ArchiveOnlyGrows(s, es[..|es| - 1]);
      ReachableInv(s);
      RunKeepsInv(s, es[..|es| - 1]);
      StepKeepsArchive(t, e);
    }
  }

  // The hot chain holds at most six summaries, and at most five when no
  // compression is in flight.
  lemma ChainIsBounded(s: Chat)
    requires Reachable(s)
    ensures s.store.loaded ==> |s.store.chain| <= 6
    ensures s.store.loaded && !s.inflight ==> |s.store.chain| <= 5
  {
    ReachableInv(s);
  }

  lemma LastOfRest(log: seq<string>, span: Span, start: int, from: int)
    requires 0 <= span.lo < span.hi <= span.seen <= |log| && span.seen - span.lo <= WINDOW_CAP
    requires span.hi - span.lo == BatchSize(span.seen - span.lo)
    requires start == if |log| - WINDOW_CAP > span.lo then |log| - WINDOW_CAP else span.lo
    requires from == if start > span.hi then start else span.hi
    ensures span.seen - span.hi == COMPRESSION_KEEP && from <= |log|
    ensures log[from..] == LastN(log[span.hi..], WINDOW_CAP)
    ensures log[from..] == log[span.hi..span.seen] + log[span.seen..] <==> |log| - span.seen <= COMPRESS_BATCH
  {
    Rejoin(log, span.hi, span.seen);
    LaterRest(log, span.hi, from);
  }

  lemma Rejoin<T>(s: seq<T>, lo: nat, hi: nat)
    requires lo <= hi <= |s|
    ensures s[lo..hi] + s[hi..] == s[lo..]
  {
  }

  lemma LaterRest<T>(s: seq<T>, lo: nat, hi: nat)
    requires lo <= hi <= |s|
    ensures s[lo..][hi - lo..] == s[hi..] && |s[lo..]| == |s| - lo && |s[hi..]| == |s| - hi
  {
  }

  // A successful run with k messages appended between its snapshot and its trim
  // leaves the newest WINDOW_CAP of what the batch left over and the k new ones.
  // That is everything, if and only if k is at most COMPRESS_BATCH.
  lemma TrimLeavesTheRest(s: Chat, r: nat)
    requires Reachable(s) && Enabled(s, Trim(r))
    ensures var g, span := s.ledger, s.runs[r].span;
            && 0 <= span.hi <= span.seen <= |g.log| && span.seen - span.hi == COMPRESSION_KEEP
            && var after := Ids(Next(s, Trim(r)).window);
               && after == LastN(g.log[span.hi..], WINDOW_CAP)
               && (after == g.log[span.hi..span.seen] + g.log[span.seen..] <==> |g.log| - span.seen <= COMPRESS_BATCH)
  {
    ReachableInv(s);
    assert PhaseInv(s, s.runs[r]);
    var g, span := s.ledger, s.runs[r].span;
    var m := TrimEffect(s, s.runs[r].batch, span);
    LastOfRest(g.log, span, g.start, g.start + m);
  }

  // Every message evicted since the snapshot belongs to the summarised batch, if
  // and only if at most COMPRESS_BATCH were appended since.
  lemma EvictedWereSummarised(s: Chat, r: nat)
    requires Reachable(s) && Enabled(s, Trim(r))
    ensures var g, span := s.ledger, s.runs[r].span;
            && span.lo <= g.start
            && ((forall i | span.lo <= i < g.start :: Covered(g.batches, i)) <==> |g.log| - span.seen <= COMPRESS_BATCH)
  {
    ReachableInv(s);
    assert PhaseInv(s, s.runs[r]);
    var g, span := s.ledger, s.runs[r].span;
    var n := |g.batches| - 1;
    assert g.batches[n] == span;
    forall i | span.lo <= i < span.hi ensures Covered(g.batches, i) { assert Holds(g.batches[n], i); }
    if g.start > span.hi {
      forall k | 0 <= k <= n ensures !Holds(g.batches[k], span.hi) {
        if k < n { assert g.batches[..n][k] == g.batches[k]; }
      }
      assert !Covered(g.batches, span.hi);
    }
  }

  // A snapshot starts a summary if and only if the window holds more than twenty
  // messages, and takes all but the newest twenty.
  lemma SnapshotTakesAllButTwenty(s: Chat, r: nat)
    requires Reachable(s) && Enabled(s, Snapshot(r))
    ensures var n, p := |s.window|, Next(s, Snapshot(r)).runs[r];
            && (p.Summarising? <==> n > 20)
            && (n > 20 ==> && p.batch == s.window[..n - 20] && p.span.hi - p.span.lo == n - 20
                           && p.span.seen - p.span.hi == 20 && p.span.seen == |s.ledger.log|)
            && (n <= 20 ==> p.Closing?)
  {
    ReachableInv(s);
    assert |Ids(s.window)| == |s.window|;
  }

  // The sixth summary in the chain, and no other, has it fused.
  lemma SixAreFused(s: Chat, r: nat)
    requires Reachable(s) && Enabled(s, ReadChain(r))
    ensures Next(s, ReadChain(r)).runs[r].Fusing? <==> |s.store.chain| == 6
  {
    ReachableInv(s);
    assert PhaseInv(s, s.runs[r]);
  }

  // After a failure is noted, the next trigger starts a run if and only if a
  // minute has gone by.
  lemma RetriesAfterAMinute(s: Chat, r: nat, seconds: nat, r': nat) returns (t: Chat)
    requires Reachable(s) && Enabled(s, Record(r))
    ensures Exec(s, [Record(r), Release(r), Tick(seconds)]) == Some(t) && Enabled(t, Trigger(r'))
    ensures r' in Next(t, Trigger(r')).runs <==> seconds >= 60
  {
    ReachableInv(s);
    OnlyRun(s, r, Closing);
    ExecExtend(s, [], Record(r));
    ExecExtend(s, [Record(r)], Release(r));
    ExecExtend(s, [Record(r), Release(r)], Tick(seconds));
    assert [] + [Record(r)] == [Record(r)] && [Record(r)] + [Release(r)] == [Record(r), Release(r)];
    assert [Record(r), Release(r)] + [Tick(seconds)] == [Record(r), Release(r), Tick(seconds)];
    t := Exec(s, [Record(r), Release(r), Tick(seconds)]).value;
  }

  // In a chat in which no run is in flight and no failure was noted since the
  // start of the process, a trigger starts one.
  lemma FreshTriggerStarts(s: Chat, r: nat)
    requires Reachable(s) && Enabled(s, Trigger(r))
    ensures s.runs == map[] && s.lastAttempt == NEVER ==> Next(s, Trigger(r)).runs == map[r := Started]
  {
    ReachableInv(s);
  }

  // After a compression has failed, none starts within the cooldown, unless the
  // process crashes in between: the failure is recorded before the flag clears.
  lemma {:induction false} NoStartSoonAfterFailure(s: Chat, es: seq<Event>, r: nat, r': nat)
    requires Reachable(s) && Enabled(s, Level1Fail(r))
    requires Crash !in es
    requires Exec(Next(s, Level1Fail(r)), es).Some?
    requires var t := Exec(Next(s, Level1Fail(r)), es).value;
             Enabled(t, Trigger(r')) && Next(t, Trigger(r')) != t
    ensures Exec(Next(s, Level1Fail(r)), es).value.clock >= s.clock + COMPRESS_COOLDOWN
  {
    ReachableInv(s);
    var s1 := Next(s, Level1Fail(r));
    StepKeepsInv(s, Level1Fail(r));
    RunKeepsInv(s1, es);
    FailureIsRemembered(s1, es);
    var t := Exec(s1, es).value;
    assert MayStart(t);
    assert t.runs == map[];
    assert t.lastAttempt >= t.ledger.lastFailure >= s.clock;
  }

  lemma StepRemembersFailure(s: Chat, e: Event)
    requires Enabled(s, e) && e != Crash && s.ledger.lastFailure <= s.clock
    ensures var s' := Next(s, e);
            s.ledger.lastFailure <= s'.ledger.lastFailure <= s'.clock && s.clock <= s'.clock
  {
  }

  lemma {:induction false} FailureIsRemembered(s: Chat, es: seq<Event>)
    requires Crash !in es && Exec(s, es).Some? && s.ledger.lastFailure <= s.clock
    ensures var t := Exec(s, es).value;
            s.ledger.lastFailure <= t.ledger.lastFailure <= t.clock && s.clock <= t.clock
  {
    if es != [] {
      FailureIsRemembered(s, es[..|es| - 1]);
      assert es[|es| - 1] in es;
      StepRemembersFailure(Exec(s, es[..|es| - 1]).value, es[|es| - 1]);
    }
  }
}
