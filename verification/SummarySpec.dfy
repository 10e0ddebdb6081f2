// The summary chain of one chat (in memory) and its archive (in the database),
// as values: the operations of summary.go and what every run of them keeps.
module SummarySpec {

  const SUMMARY_CAP: nat := 5
  const RELOAD_LIMIT: nat := SUMMARY_CAP

  datatype Content = Content(text: string, keywords: seq<string>, decisions: seq<string>, createdAt: int)

  datatype Summary = Summary(seqNo: int, content: Content)

  type Archive = map<int, Summary>

  // loaded: the chat has been touched since the process started; chain and next
  // mean nothing before that.
  datatype Store = Store(loaded: bool, chain: seq<Summary>, next: int, archive: Archive)

  // ---- The database ----

  // SaveSummary: an upsert by sequence number, lost when the write fails.
  function Save(archive: Archive, s: Summary, failed: set<int>): Archive
  {
    if s.seqNo in failed then archive else archive[s.seqNo := s]
  }

  function SaveAll(archive: Archive, chain: seq<Summary>, failed: set<int>): Archive
  {
    if chain == [] then archive
    else
      var n := |chain| - 1;
      Save(SaveAll(archive, chain[..n], failed), chain[n], failed)
  }

  lemma {:induction false} MaxExists(keys: set<int>) returns (m: int)
    requires keys != {}
    ensures m in keys
    ensures forall k | k in keys :: k <= m
  {
    assert (forall k :: k !in keys) ==> keys == {};
    var k :| k in keys;
    if keys == {k} {
      m := k;
    } else {
      m := MaxExists(keys - {k});
      assert keys - {k} + {k} == keys;
      if m < k { m := k; }
    }
  }

  ghost function MaxKey(keys: set<int>): (m: int)
    requires keys != {}
    ensures m in keys && forall k | k in keys :: k <= m
  {
    assert exists m :: m in keys && forall k | k in keys :: k <= m by { var m := MaxExists(keys); }
    var m :| m in keys && forall k | k in keys :: k <= m;
    m
  }

  // ListSummaries: the limit entries with the largest numbers, in ascending order.
  ghost function Newest(archive: Archive, limit: nat): (r: seq<Summary>)
    ensures |r| <= limit
  {
    if limit == 0 || archive == map[] then []
    else
      var k := MaxKey(archive.Keys);
      Newest(archive - {k}, limit - 1) + [archive[k]]
  }

  // ---- The operations ----

  function MaxSeq(sums: seq<Summary>): int
  {
    if sums == [] then 0
    else
      var m := MaxSeq(sums[..|sums| - 1]);
      if sums[|sums| - 1].seqNo > m then sums[|sums| - 1].seqNo else m
  }

  // ensureLoaded, given what the database answers: its newest entries, or
  // nothing when the query fails.
  function LoadFrom(st: Store, sums: seq<Summary>): Store
  {
    if st.loaded then st else Store(true, sums, MaxSeq(sums) + 1, st.archive)
  }

  ghost function Load(st: Store, listOk: bool): Store
  {
    LoadFrom(st, if listOk then Newest(st.archive, RELOAD_LIMIT) else [])
  }

  // Append, ReplaceWithFused and EvictOldest on a loaded chat.
  function Add(st: Store, c: Content): Store
  {
    st.(chain := st.chain + [Summary(st.next, c)], next := st.next + 1)
  }

  function Fuse(st: Store, c: Content, failed: set<int>): Store
  {
    Store(st.loaded, [Summary(st.next, c)], st.next + 1, SaveAll(st.archive, st.chain, failed))
  }

  function Evict(st: Store, failed: set<int>): Store
  {
    if st.chain == [] then st
    else st.(chain := st.chain[1..], archive := Save(st.archive, st.chain[0], failed))
  }

  // A restart forgets everything but the database.
  function Restart(st: Store): Store
  {
    Store(false, [], 0, st.archive)
  }

  // ---- What holds at every moment ----

  ghost predicate Numbered(archive: Archive)
  {
    forall k | k in archive :: k >= 1 && archive[k].seqNo == k
  }

  ghost predicate Ascending(chain: seq<Summary>)
  {
    forall i, j | 0 <= i < j < |chain| :: chain[i].seqNo < chain[j].seqNo
  }

  // Fresh numbers are above everything seen, and a chain entry that is archived
  // is archived unchanged.
  ghost predicate Sound(st: Store)
  {
    && Numbered(st.archive)
    && (st.loaded ==>
          && st.next >= 1
          && Ascending(st.chain)
          && (forall s | s in st.chain :: 1 <= s.seqNo < st.next)
          && (forall k | k in st.archive :: k < st.next)
          && (forall s | s in st.chain && s.seqNo in st.archive :: st.archive[s.seqNo] == s))
  }

  // Nothing archived is lost or overwritten with something else.
  ghost predicate Kept(before: Archive, after: Archive)
  {
    forall k | k in before :: k in after && after[k] == before[k]
  }

  lemma {:induction false} NewestAscends(archive: Archive, limit: nat)
    requires Numbered(archive)
    ensures var r := Newest(archive, limit);
            && |r| <= limit && Ascending(r)
            && (forall s | s in r :: s.seqNo in archive && archive[s.seqNo] == s)
            && (limit > 0 && archive != map[] ==> r != [] && r[|r| - 1].seqNo == MaxKey(archive.Keys))
  {
    if limit > 0 && archive != map[] {
      var k := MaxKey(archive.Keys);
      var rest := archive - {k};
      NewestAscends(rest, limit - 1);
      var r := Newest(rest, limit - 1);
      forall s | s in r ensures s.seqNo < k {
        assert s.seqNo in rest;
      }
    }
  }

  lemma {:induction false} MaxSeqOfAscending(sums: seq<Summary>)
    requires Ascending(sums) && forall s | s in sums :: s.seqNo >= 1
    ensures MaxSeq(sums) == if sums == [] then 0 else sums[|sums| - 1].seqNo
  {
    if sums != [] {
      var init := sums[..|sums| - 1];
      MaxSeqOfAscending(init);
      assert forall s | s in init :: s in sums;
      if init != [] { assert init[|init| - 1] == sums[|sums| - 2]; }
    }
  }

  // Reloading continues the numbering above everything archived.
  lemma LoadKeepsSound(st: Store)
    requires Sound(st)
    ensures var st' := Load(st, true);
            && Sound(st') && st'.loaded && st'.archive == st.archive
            && (!st.loaded ==> |st'.chain| <= RELOAD_LIMIT)
  {
    if !st.loaded {
      var r := Newest(st.archive, RELOAD_LIMIT);
      NewestAscends(st.archive, RELOAD_LIMIT);
      MaxSeqOfAscending(r);
      forall s | s in r ensures 1 <= s.seqNo <= MaxSeq(r) {
        var i :| 0 <= i < |r| && r[i] == s;
        if i < |r| - 1 { assert r[i].seqNo < r[|r| - 1].seqNo; }
      }
    }
  }

  // A fresh summary has a number above every archived and every chained one.
  lemma AddKeepsSound(st: Store, c: Content)
    requires Sound(st) && st.loaded
    ensures var st' := Add(st, c);
            && Sound(st') && st'.archive == st.archive
            && var added := st'.chain[|st'.chain| - 1];
               && added == Summary(st.next, c)
               && (forall k | k in st.archive :: k < added.seqNo)
               && (forall s | s in st.chain :: s.seqNo < added.seqNo)
  {
    var st' := Add(st, c);
    forall i, j | 0 <= i < j < |st'.chain| ensures st'.chain[i].seqNo < st'.chain[j].seqNo {
      assert st'.chain[i] in st.chain;
    }
  }

  // After archiving a chain, every entry was there before or comes from the chain.
  lemma {:induction false} SaveAllSources(archive: Archive, chain: seq<Summary>, failed: set<int>)
    ensures var after := SaveAll(archive, chain, failed);
            && (forall k | k in archive :: k in after)
            && (forall s | s in chain && s.seqNo !in failed :: s.seqNo in after)
            && forall k | k in after ::
                 (k in archive && after[k] == archive[k]) || (after[k] in chain && after[k].seqNo == k)
  {
    if chain != [] {
      SaveAllSources(archive, chain[..|chain| - 1], failed);
      assert chain == chain[..|chain| - 1] + [chain[|chain| - 1]];
    }
  }

  lemma SameNumberSameEntry(chain: seq<Summary>, s: Summary, t: Summary)
    requires Ascending(chain) && s in chain && t in chain && s.seqNo == t.seqNo
    ensures s == t
  {
    var i :| 0 <= i < |chain| && chain[i] == s;
    var j :| 0 <= j < |chain| && chain[j] == t;
    if i < j { assert chain[i].seqNo < chain[j].seqNo; }
    if j < i { assert chain[j].seqNo < chain[i].seqNo; }
  }

  lemma SaveAllEffect(archive: Archive, chain: seq<Summary>, failed: set<int>)
    requires Numbered(archive) && Ascending(chain)
    requires forall s | s in chain :: s.seqNo >= 1 && (s.seqNo in archive ==> archive[s.seqNo] == s)
    ensures var after := SaveAll(archive, chain, failed);
            && Numbered(after) && Kept(archive, after)
            && (forall k | k in after && k !in archive :: after[k] in chain && after[k].seqNo == k)
            && (forall s | s in chain && s.seqNo !in failed :: s.seqNo in after && after[s.seqNo] == s)
  {
    SaveAllSources(archive, chain, failed);
    var after := SaveAll(archive, chain, failed);
    forall s | s in chain && s.seqNo in after ensures after[s.seqNo] == s {
      if after[s.seqNo] in chain && after[s.seqNo].seqNo == s.seqNo {
        SameNumberSameEntry(chain, s, after[s.seqNo]);
      }
    }
  }

  lemma FuseKeepsSound(st: Store, c: Content, failed: set<int>)
    requires Sound(st) && st.loaded
    ensures Sound(Fuse(st, c, failed)) && Kept(st.archive, Fuse(st, c, failed).archive)
  {
    SaveAllEffect(st.archive, st.chain, failed);
  }

  lemma TailAscends(chain: seq<Summary>)
    requires Ascending(chain) && chain != []
    ensures Ascending(chain[1..])
    ensures forall s | s in chain[1..] :: s in chain && chain[0].seqNo < s.seqNo
  {
    var rest := chain[1..];
    forall s | s in rest ensures s in chain && chain[0].seqNo < s.seqNo {
      var i :| 0 <= i < |rest| && rest[i] == s;
      assert chain[i + 1] == s;
    }
    forall i, j | 0 <= i < j < |rest| ensures rest[i].seqNo < rest[j].seqNo {
      assert rest[i] == chain[i + 1] && rest[j] == chain[j + 1];
    }
  }

  lemma EvictKeepsSound(st: Store, failed: set<int>)
    requires Sound(st) && st.loaded
    ensures Sound(Evict(st, failed)) && Kept(st.archive, Evict(st, failed).archive)
  {
    if st.chain != [] {
      TailAscends(st.chain);
      assert st.chain[0] in st.chain;
    }
  }

  // ---- Whole runs ----

  // ok says whether the database answers the query of an operation that finds
  // the chat not loaded.
  datatype Op =
    | OpAdd(ok: bool, c: Content)
    | OpFuse(ok: bool, c: Content, failed: set<int>)
    | OpEvict(ok: bool, failed: set<int>)
    | OpRead(ok: bool)
    | OpRestart

  // Every operation of summary.go loads the chat first.
  ghost function Apply(st: Store, op: Op): Store
  {
    match op
    case OpAdd(ok, c) => Add(Load(st, ok), c)
    case OpFuse(ok, c, failed) => Fuse(Load(st, ok), c, failed)
    case OpEvict(ok, failed) => Evict(Load(st, ok), failed)
    case OpRead(ok) => Load(st, ok)
    case OpRestart => Restart(st)
  }

  ghost function RunOps(st: Store, ops: seq<Op>): Store
  {
    if ops == [] then st else Apply(RunOps(st, ops[..|ops| - 1]), ops[|ops| - 1])
  }

  // The load of an operation, if it makes one, succeeds or finds nothing archived.
  ghost predicate HarmlessLoad(st: Store, op: Op)
  {
    op.OpRestart? || st.loaded || op.ok || st.archive == map[]
  }

  ghost predicate Harmless(st: Store, ops: seq<Op>)
  {
    ops == [] ||
    (Harmless(st, ops[..|ops| - 1]) && HarmlessLoad(RunOps(st, ops[..|ops| - 1]), ops[|ops| - 1]))
  }

  lemma ApplyKeepsSound(st: Store, op: Op)
    requires Sound(st) && HarmlessLoad(st, op)
    ensures Sound(Apply(st, op)) && Kept(st.archive, Apply(st, op).archive)
  {
    if !op.OpRestart? { assert Load(st, op.ok) == Load(st, true); }
    LoadKeepsSound(st);
    match op
    case OpAdd(_, c) => AddKeepsSound(Load(st, true), c);
    case OpFuse(_, c, failed) => FuseKeepsSound(Load(st, true), c, failed);
    case OpEvict(_, failed) => EvictKeepsSound(Load(st, true), failed);
    case OpRead(_) =>
    case OpRestart =>
  }

  // Nothing archived at any moment of a run is overwritten by the end of it.
  ghost predicate Safe(st: Store, ops: seq<Op>)
  {
    forall n | 0 <= n <= |ops| :: Kept(RunOps(st, ops[..n]).archive, RunOps(st, ops).archive)
  }

  // Across any run with restarts and failed writes, the archive only grows, as
  // long as no load fails over a non-empty archive.
  lemma {:induction false} RunKeepsArchive(st: Store, ops: seq<Op>)
    requires Sound(st) && Harmless(st, ops)
    ensures Sound(RunOps(st, ops)) && Safe(st, ops)
  {
    if ops != [] {
      var init, op := ops[..|ops| - 1], ops[|ops| - 1];
      RunKeepsArchive(st, init);
      ApplyKeepsSound(RunOps(st, init), op);
      forall n | 0 <= n <= |ops| ensures Kept(RunOps(st, ops[..n]).archive, RunOps(st, ops).archive) {
        if n < |ops| {
          assert init[..n] == ops[..n];
        } else {
          assert ops[..n] == ops;
        }
      }
    }
  }

  // ---- When a load fails over a non-empty archive ----

  // What the compressor does: it appends to a chain within the cap only, and
  // fuses or evicts exactly when a chain has outgrown it.
  ghost predicate InTurn(st: Store, op: Op)
  {
    && (op.OpAdd? ==> !st.loaded || |st.chain| <= SUMMARY_CAP)
    && (op.OpFuse? || op.OpEvict? ==> st.loaded && |st.chain| > SUMMARY_CAP)
  }

  ghost predicate Programmed(st: Store, ops: seq<Op>)
  {
    ops == [] || (Programmed(st, ops[..|ops| - 1]) && InTurn(RunOps(st, ops[..|ops| - 1]), ops[|ops| - 1]))
  }

  lemma {:induction false} RunConcat(st: Store, a: seq<Op>, b: seq<Op>)
    ensures RunOps(st, a + b) == RunOps(RunOps(st, a), b)
    ensures Programmed(st, a + b) <==> Programmed(st, a) && Programmed(RunOps(st, a), b)
    ensures Harmless(st, a + b) <==> Harmless(st, a) && Harmless(RunOps(st, a), b)
  {
    if b == [] {
      assert a + b == a;
    } else {
      var n := |b| - 1;
      RunConcat(st, a, b[..n]);
      assert (a + b)[..|a + b| - 1] == a + b[..n];
    }
  }

  lemma RunOne(st: Store, op: Op)
    ensures RunOps(st, [op]) == Apply(st, op)
    ensures Programmed(st, [op]) <==> InTurn(st, op)
    ensures Harmless(st, [op]) <==> HarmlessLoad(st, op)
  {
    assert [op][..0] == [];
  }

  // One compression whose summaries all have content c.
  ghost function Round(st: Store, c: Content): seq<Op>
  {
    if |Add(st, c).chain| <= SUMMARY_CAP then [OpAdd(true, c)] else [OpAdd(true, c), OpFuse(true, c, {})]
  }

  // Numbered from 1 again, everything so far with content c: the latest entries
  // in the chain, all before them in the archive.
  ghost predicate Renumbered(st: Store, c: Content)
  {
    && st.loaded && |st.chain| <= SUMMARY_CAP && st.next > |st.chain|
    && (forall i | 0 <= i < |st.chain| :: st.chain[i] == Summary(st.next - |st.chain| + i, c))
    && (forall k | 1 <= k < st.next - |st.chain| :: k in st.archive && st.archive[k] == Summary(k, c))
  }

  // The entry saved last under a number is the one that stays.
  lemma {:induction false} SaveAllOverwrites(archive: Archive, chain: seq<Summary>, i: nat)
    requires i < |chain|
    requires forall j | i < j < |chain| :: chain[j].seqNo != chain[i].seqNo
    ensures var after := SaveAll(archive, chain, {});
            chain[i].seqNo in after && after[chain[i].seqNo] == chain[i]
  {
    var n := |chain| - 1;
    if i < n {
      SaveAllOverwrites(archive, chain[..n], i);
    }
  }

  // Archiving a run of consecutive numbers puts all of them into the archive.
  lemma SaveAllConsecutive(archive: Archive, chain: seq<Summary>, from: int, c: Content)
    requires forall i | 0 <= i < |chain| :: chain[i] == Summary(from + i, c)
    requires forall k | 1 <= k < from :: k in archive && archive[k] == Summary(k, c)
    ensures var after := SaveAll(archive, chain, {});
            forall k | 1 <= k < from + |chain| :: k in after && after[k] == Summary(k, c)
  {
    SaveAllSources(archive, chain, {});
    forall k | 1 <= k < from + |chain|
      ensures var after := SaveAll(archive, chain, {}); k in after && after[k] == Summary(k, c)
    {
      if k >= from { SaveAllOverwrites(archive, chain, k - from); }
    }
  }

  lemma RoundKeepsRenumbered(st: Store, c: Content)
    requires Renumbered(st, c)
    ensures var after := RunOps(st, Round(st, c));
            Renumbered(after, c) && after.next > st.next && Programmed(st, Round(st, c))
  {
    var added := Add(st, c);
    RunOne(st, OpAdd(true, c));
    if |added.chain| > SUMMARY_CAP {
      RunOne(added, OpFuse(true, c, {}));
      RunConcat(st, [OpAdd(true, c)], [OpFuse(true, c, {})]);
      assert Round(st, c) == [OpAdd(true, c)] + [OpFuse(true, c, {})];
      SaveAllConsecutive(added.archive, added.chain, st.next - |st.chain|, c);
    }
  }

  ghost predicate LoadsSucceed(ops: seq<Op>)
  {
    forall op | op in ops :: op.OpRestart? || op.ok
  }

  // n compressions further on.
  lemma {:induction false} RoundsKeepRenumbered(st: Store, c: Content, n: nat) returns (ops: seq<Op>, after: Store)
    requires Renumbered(st, c)
    ensures after == RunOps(st, ops) && Programmed(st, ops) && LoadsSucceed(ops)
    ensures Renumbered(after, c) && after.next >= st.next + n
  {
    if n == 0 {
      return [], st;
    }
    var before;
    ops, before := RoundsKeepRenumbered(st, c, n - 1);
    RoundKeepsRenumbered(before, c);
    RunConcat(st, ops, Round(before, c));
    return ops + Round(before, c), RunOps(before, Round(before, c));
  }

  lemma ArchivedByThen(st: Store, c: Content, k: int)
    requires Renumbered(st, c) && 1 <= k <= st.next - SUMMARY_CAP - 1
    ensures k in st.archive && st.archive[k] == Summary(k, c)
  {
  }

  // After a failed load, as many compressions as it takes overwrite the archived
  // entry k with other content.
  lemma FailedLoadOverwrites(st: Store, k: int) returns (more: seq<Op>, after: Store)
    requires !st.loaded && Numbered(st.archive) && k in st.archive
    ensures LoadsSucceed(more) && Programmed(st, [OpRead(false)] + more)
    ensures after == RunOps(st, [OpRead(false)] + more) && !Kept(st.archive, after.archive)
  {
    var original := st.archive[k].content;
    var c := original.(createdAt := original.createdAt + 1);
    var loaded := Load(st, false);
    assert Renumbered(loaded, c);
    RunOne(st, OpRead(false));
    more, after := RoundsKeepRenumbered(loaded, c, k + SUMMARY_CAP);
    ArchivedByThen(after, c, k);
    RunConcat(st, [OpRead(false)], more);
  }

  // More goes on from ops[..n] with no load failing but, at once, the one that
  // fails there in ops.
  ghost predicate FailsAsIn(ops: seq<Op>, n: nat, more: seq<Op>)
  {
    n <= |ops| &&
    forall i | 0 <= i < |more| && !more[i].OpRestart? && !more[i].ok ::
      i == 0 && n < |ops| && !ops[n].OpRestart? && !ops[n].ok
  }

  lemma {:induction false} HarmlessAt(st: Store, ops: seq<Op>, n: nat)
    requires Harmless(st, ops) && n <= |ops|
    ensures Harmless(st, ops[..n])
    ensures n < |ops| ==> HarmlessLoad(RunOps(st, ops[..n]), ops[n])
    decreases |ops|
  {
    if n == |ops| {
      assert ops[..n] == ops;
    } else if n < |ops| - 1 {
      HarmlessAt(st, ops[..|ops| - 1], n);
      assert ops[..|ops| - 1][..n] == ops[..n];
    }
  }

  lemma {:induction false} SuccessfulIsHarmless(st: Store, ops: seq<Op>)
    requires LoadsSucceed(ops)
    ensures Harmless(st, ops)
  {
    if ops != [] {
      assert forall op | op in ops[..|ops| - 1] :: op in ops;
      SuccessfulIsHarmless(st, ops[..|ops| - 1]);
    }
  }

  lemma ContinuationIsHarmless(st: Store, ops: seq<Op>, n: nat, more: seq<Op>)
    requires Harmless(st, ops) && FailsAsIn(ops, n, more)
    ensures Harmless(st, ops[..n] + more)
  {
    HarmlessAt(st, ops, n);
    RunConcat(st, ops[..n], more);
    if more != [] {
      var b, rest := RunOps(st, ops[..n]), more[1..];
      RunOne(b, more[0]);
      RunConcat(b, [more[0]], rest);
      assert more == [more[0]] + rest;
      forall op | op in rest ensures op.OpRestart? || op.ok {
        var i :| 0 <= i < |rest| && rest[i] == op;
        assert more[i + 1] == op;
      }
      SuccessfulIsHarmless(Apply(b, more[0]), rest);
    }
  }

  lemma {:induction false} FirstHarm(st: Store, ops: seq<Op>) returns (n: nat)
    requires !Harmless(st, ops)
    ensures n < |ops| && Harmless(st, ops[..n]) && !HarmlessLoad(RunOps(st, ops[..n]), ops[n])
    decreases |ops|
  {
    var init := ops[..|ops| - 1];
    if Harmless(st, init) {
      n := |init|;
    } else {
      n := FirstHarm(st, init);
      assert init[..n] == ops[..n];
    }
  }

  lemma {:induction false} ProgrammedPrefix(st: Store, ops: seq<Op>, n: nat)
    requires Programmed(st, ops) && n <= |ops|
    ensures Programmed(st, ops[..n])
    decreases |ops|
  {
    if n < |ops| {
      ProgrammedPrefix(st, ops[..|ops| - 1], n);
      assert ops[..|ops| - 1][..n] == ops[..n];
    } else {
      assert ops[..n] == ops;
    }
  }

  lemma FailsAtOnce(ops: seq<Op>, n: nat, rest: seq<Op>)
    requires n < |ops| && !ops[n].OpRestart? && !ops[n].ok && LoadsSucceed(rest)
    ensures FailsAsIn(ops, n, [OpRead(false)] + rest)
  {
    var more := [OpRead(false)] + rest;
    assert forall i | 1 <= i < |more| :: more[i] == rest[i - 1] && rest[i - 1] in rest;
  }

  lemma UnsafeAt(st: Store, a: seq<Op>, more: seq<Op>)
    requires !Kept(RunOps(st, a).archive, RunOps(st, a + more).archive)
    ensures !Safe(st, a + more)
  {
    assert (a + more)[..|a|] == a;
  }

  lemma HarmOverwrites(st: Store, ops: seq<Op>) returns (n: nat, more: seq<Op>)
    requires Sound(st) && Programmed(st, ops) && !Harmless(st, ops)
    ensures FailsAsIn(ops, n, more) && Programmed(st, ops[..n] + more) && !Safe(st, ops[..n] + more)
  {
    n := FirstHarm(st, ops);
    var b := RunOps(st, ops[..n]);
    RunKeepsArchive(st, ops[..n]);
    ProgrammedPrefix(st, ops, n);
    var rest, after := FailedLoadOverwrites(b, MaxKey(b.archive.Keys));
    more := [OpRead(false)] + rest;
    FailsAtOnce(ops, n, rest);
    RunConcat(st, ops[..n], more);
    UnsafeAt(st, ops[..n], more);
  }

  // The exact condition over all loads of a run: nothing archived is ever
  // overwritten with other content, however the program goes on from any moment
  // of the run, if and only if each load of the run succeeds or finds nothing
  // archived.
  lemma LoadsDecide(st: Store, ops: seq<Op>)
    requires Sound(st) && Programmed(st, ops)
    ensures Harmless(st, ops) <==>
            forall n: nat, more | FailsAsIn(ops, n, more) && Programmed(st, ops[..n] + more) ::
              Safe(st, ops[..n] + more)
  {
    if Harmless(st, ops) {
      forall n: nat, more | FailsAsIn(ops, n, more) && Programmed(st, ops[..n] + more)
        ensures Safe(st, ops[..n] + more)
      {
        ContinuationIsHarmless(st, ops, n, more);
        RunKeepsArchive(st, ops[..n] + more);
      }
    } else {
      var n, more := HarmOverwrites(st, ops);
    }
  }

  // ---- What a restart reloads ----

  ghost function Above(keys: set<int>, k: int): set<int> { set j | j in keys && j > k }

  // An archived entry is reloaded if and only if fewer than limit numbers exceed its own.
  lemma {:induction false} NewestIff(archive: Archive, limit: nat, k: int)
    requires Numbered(archive) && k in archive
    ensures archive[k] in Newest(archive, limit) <==> |Above(archive.Keys, k)| < limit
    decreases limit
  {
    if limit > 0 {
      var m := MaxKey(archive.Keys);
      var rest := archive - {m};
      NewestAscends(rest, limit - 1);
      if k == m {
        assert Above(archive.Keys, k) == {};
      } else {
        NewestIff(rest, limit - 1, k);
        assert Above(archive.Keys, k) == Above(rest.Keys, k) + {m};
        assert archive[k] != archive[m];
      }
    }
  }

  // The first successful query of a chat makes the newest five archived entries
  // its chain, oldest first, and numbers go on after the last of all.
  lemma ReloadsTheNewestFive(st: Store)
    requires Sound(st) && !st.loaded
    ensures var t := Load(st, true);
            && t.loaded && t.archive == st.archive && Ascending(t.chain)
            && (forall x | x in t.chain :: x.seqNo in st.archive && st.archive[x.seqNo] == x)
            && (forall k | k in st.archive :: st.archive[k] in t.chain <==> |Above(st.archive.Keys, k)| < 5)
            && (forall k | k in st.archive :: k < t.next)
            && (t.next == 1 || t.next - 1 in st.archive)
  {
    hide Newest;
    LoadKeepsSound(st);
    NewestAscends(st.archive, RELOAD_LIMIT);
    MaxSeqOfAscending(Newest(st.archive, RELOAD_LIMIT));
    forall k | k in st.archive
      ensures st.archive[k] in Load(st, true).chain <==> |Above(st.archive.Keys, k)| < 5
    {
      NewestIff(st.archive, RELOAD_LIMIT, k);
    }
  }
}
