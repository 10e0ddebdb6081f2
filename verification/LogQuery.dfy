// Reading one page of the logs: the program scans files newest-written first and
// lines last first, stops once it has enough, sorts and slices. The reference
// filters everything, sorts it and slices.
module LogQuery {
  import opened Options

  const DEFAULT_LIMIT := 200

  // text is the rest of a line: level, message and fields.
  datatype Entry = Entry(ts: int, traceID: string, text: string)

  // A line parses to an entry or is skipped; None is a file that cannot be read.
  type Lines = seq<Option<Entry>>
  type File = Option<Lines>

  datatype Query = Query(traceID: string, begin: Option<int>, end: Option<int>, limit: int, offset: int)

  datatype Page = Page(items: seq<Entry>, hasMore: bool)

  predicate MatchTime(e: Entry, q: Query)
  {
    && (q.begin.Some? ==> e.ts >= q.begin.value)
    && (q.end.Some? ==> e.ts <= q.end.value)
  }

  predicate MatchTrace(e: Entry, q: Query)
  {
    q.traceID == "" || e.traceID == q.traceID
  }

  predicate Matches(e: Entry, q: Query)
  {
    MatchTime(e, q) && MatchTrace(e, q)
  }

  function Limit(q: Query): int { if q.limit <= 0 then DEFAULT_LIMIT else q.limit }

  function Offset(q: Query): int { if q.offset < 0 then 0 else q.offset }

  // ---- Stable sort, newest first ----

  // x goes behind everything that is not older.
  function Insert(s: seq<Entry>, x: Entry): (r: seq<Entry>)
    ensures |r| == |s| + 1
  {
    if s == [] then [x]
    else if x.ts > s[|s| - 1].ts then Insert(s[..|s| - 1], x) + [s[|s| - 1]]
    else s + [x]
  }

  function Sorted(s: seq<Entry>): (r: seq<Entry>)
    ensures |r| == |s|
  {
    if s == [] then [] else Insert(Sorted(s[..|s| - 1]), s[|s| - 1])
  }

  ghost predicate NewestFirst(s: seq<Entry>)
  {
    forall i, j | 0 <= i < j < |s| :: s[i].ts >= s[j].ts
  }

  lemma {:induction false} InsertKeepsEntries(s: seq<Entry>, x: Entry)
    ensures multiset(Insert(s, x)) == multiset(s) + multiset{x}
    ensures forall e | e in Insert(s, x) :: e in s || e == x
  {
    if s != [] {
      var init, last := s[..|s| - 1], s[|s| - 1];
      InsertKeepsEntries(init, x);
      assert s == init + [last];
    }
  }

  lemma {:induction false} InsertKeepsOrder(s: seq<Entry>, x: Entry)
    requires NewestFirst(s)
    ensures NewestFirst(Insert(s, x))
  {
    if s != [] && x.ts > s[|s| - 1].ts {
      var init, last := s[..|s| - 1], s[|s| - 1];
      InsertKeepsOrder(init, x);
      InsertKeepsEntries(init, x);
      var r := Insert(init, x);
      forall i | 0 <= i < |r| ensures r[i].ts >= last.ts {
        assert r[i] in init || r[i] == x;
      }
    }
  }

  lemma {:induction false} SortedIsSorted(s: seq<Entry>)
    ensures NewestFirst(Sorted(s)) && multiset(Sorted(s)) == multiset(s)
    ensures forall e | e in Sorted(s) :: e in s
  {
    hide Insert;
    if s != [] {
      var init := s[..|s| - 1];
      SortedIsSorted(init);
      InsertKeepsOrder(Sorted(init), s[|s| - 1]);
      InsertKeepsEntries(Sorted(init), s[|s| - 1]);
      assert s == init + [s[|s| - 1]];
    }
  }

  lemma {:induction false} SortedOfSorted(s: seq<Entry>)
    requires NewestFirst(s)
    ensures Sorted(s) == s
  {
    if s != [] {
      SortedOfSorted(s[..|s| - 1]);
      assert s == s[..|s| - 1] + [s[|s| - 1]];
    }
  }

  function At(x: Entry, t: int): seq<Entry> { if x.ts == t then [x] else [] }

  // The entries of time t, in order.
  function Filter(s: seq<Entry>, t: int): seq<Entry>
  {
    if s == [] then [] else Filter(s[..|s| - 1], t) + At(s[|s| - 1], t)
  }

  lemma FilterAppend(s: seq<Entry>, x: Entry, t: int)
    ensures Filter(s + [x], t) == Filter(s, t) + At(x, t)
  {
    assert (s + [x])[..|s|] == s;
  }

  // Entries of equal time keep their order: a new one goes behind them.
  lemma {:induction false} InsertIsStable(s: seq<Entry>, x: Entry, t: int)
    ensures Filter(Insert(s, x), t) == Filter(s, t) + At(x, t)
  {
    if s != [] && x.ts > s[|s| - 1].ts {
      var init, last := s[..|s| - 1], s[|s| - 1];
      InsertIsStable(init, x, t);
      FilterAppend(Insert(init, x), last, t);
      BehindOneAnother(Filter(init, t), At(x, t), At(last, t));
    } else {
      FilterAppend(s, x, t);
      assert s == [] ==> s + [x] == [x];
    }
  }

  lemma BehindOneAnother(s: seq<Entry>, a: seq<Entry>, b: seq<Entry>)
    requires a == [] || b == []
    ensures s + a + b == s + b + a
  {
  }

  lemma {:induction false} SortedIsStable(s: seq<Entry>, t: int)
    ensures Filter(Sorted(s), t) == Filter(s, t)
  {
    if s != [] {
      var init, last := s[..|s| - 1], s[|s| - 1];
      SortedIsStable(init, t);
      SortedAfter(s, init, last);
      InsertIsStable(Sorted(init), last, t);
    }
  }

  lemma SortedAfter(s: seq<Entry>, init: seq<Entry>, last: Entry)
    requires s != [] && init == s[..|s| - 1] && last == s[|s| - 1]
    ensures Sorted(s) == Insert(Sorted(init), last)
  {
  }

  // ---- What matches, in scan order ----

  // All matching entries of a file, last line first.
  function MatchesInFile(lines: Lines, q: Query): seq<Entry>
  {
    if lines == [] then []
    else
      var last := lines[|lines| - 1];
      (if last.Some? && Matches(last.value, q) then [last.value] else []) + MatchesInFile(lines[..|lines| - 1], q)
  }

  // The matching entries of all readable files, file by file.
  function MatchesIn(files: seq<File>, q: Query): seq<Entry>
  {
    if files == [] then []
    else
      var n := |files| - 1;
      MatchesIn(files[..n], q) + if files[n].Some? then MatchesInFile(files[n].value, q) else []
  }

  // The reference answer: filter, sort, slice.
  function Slice(s: seq<Entry>, offset: nat, limit: nat): seq<Entry>
  {
    var end := if offset + limit < |s| then offset + limit else |s|;
    s[if offset < end then offset else end..end]
  }

  function PageOf(s: seq<Entry>, offset: nat, limit: nat): Page
  {
    Page(Slice(Sorted(s), offset, limit), |s| > offset + limit)
  }

  function Reference(files: seq<File>, q: Query): Page
  {
    PageOf(MatchesIn(files, q), Offset(q), Limit(q))
  }

  function Take<T>(s: seq<T>, n: nat): seq<T>
  {
    if n < |s| then s[..n] else s
  }

  predicate BeforeBegin(line: Option<Entry>, q: Query)
  {
    line.Some? && q.begin.Some? && line.value.ts < q.begin.value
  }

  // Reading a file backwards ends at the first line older than Begin.
  function SeenInFile(lines: Lines, q: Query): seq<Entry>
  {
    if lines == [] || BeforeBegin(lines[|lines| - 1], q) then []
    else
      var last := lines[|lines| - 1];
      (if last.Some? && Matches(last.value, q) then [last.value] else []) + SeenInFile(lines[..|lines| - 1], q)
  }

  function SeenIn(files: seq<File>, q: Query): seq<Entry>
  {
    if files == [] then []
    else
      var n := |files| - 1;
      SeenIn(files[..n], q) + if files[n].Some? then SeenInFile(files[n].value, q) else []
  }

  // Both early exits: at Begin within a file, and over all files once one entry
  // more than the page needs is found.
  function Scanned(files: seq<File>, q: Query): seq<Entry>
  {
    Take(SeenIn(files, q), Limit(q) + Offset(q) + 1)
  }

  // Within a file, time does not run backwards.
  ghost predicate InOrder(lines: Lines)
  {
    forall i, j | 0 <= i < j < |lines| :: NotBackwards(lines, i, j)
  }

  predicate NotBackwards(lines: Lines, i: nat, j: nat)
    requires i < j < |lines|
  {
    lines[i].Some? && lines[j].Some? ==> lines[i].value.ts <= lines[j].value.ts
  }

  ghost predicate FilesInOrder(files: seq<File>)
  {
    forall k | 0 <= k < |files| && files[k].Some? :: InOrder(files[k].value)
  }

  ghost predicate MatchBelow(lines: Lines, q: Query, i: nat, j: nat)
    requires i < j < |lines|
  {
    lines[i].Some? && Matches(lines[i].value, q) && BeforeBegin(lines[j], q)
  }

  lemma {:induction false} NothingSeenMissesMatch(lines: Lines, q: Query, i: nat)
    requires i < |lines| && lines[i].Some? && Matches(lines[i].value, q)
    ensures MatchesInFile(lines, q) != []
  {
    if i < |lines| - 1 { NothingSeenMissesMatch(lines[..|lines| - 1], q, i); }
  }

  ghost predicate NoneBelow(lines: Lines, q: Query)
  {
    forall i, j | 0 <= i < j < |lines| :: !MatchBelow(lines, q, i, j)
  }

  // Behind a last line older than Begin: nothing may match at all.
  lemma BreakAtLast(lines: Lines, q: Query)
    requires lines != [] && BeforeBegin(lines[|lines| - 1], q)
    ensures NoneBelow(lines, q) <==> MatchesInFile(lines, q) == []
  {
    var n := |lines| - 1;
    if MatchesInFile(lines, q) == [] {
      forall i, j | 0 <= i < j < |lines| ensures !MatchBelow(lines, q, i, j) {
        if MatchBelow(lines, q, i, j) { NothingSeenMissesMatch(lines, q, i); }
      }
    } else {
      var e := MatchesInFile(lines, q)[0];
      FileMatchesMatch(lines, q, e);
      var i :| 0 <= i < |lines| && lines[i] == Some(e);
      assert MatchBelow(lines, q, i, n);
    }
  }

  lemma PlusCancels(x: seq<Entry>, a: seq<Entry>, b: seq<Entry>)
    ensures x + a == x + b <==> a == b
  {
    assert a == (x + a)[|x|..] && b == (x + b)[|x|..];
  }

  lemma NoBreakAtLast(lines: Lines, q: Query)
    requires lines != [] && !BeforeBegin(lines[|lines| - 1], q)
    ensures NoneBelow(lines, q) <==> NoneBelow(lines[..|lines| - 1], q)
    ensures SeenInFile(lines, q) == MatchesInFile(lines, q) <==>
            SeenInFile(lines[..|lines| - 1], q) == MatchesInFile(lines[..|lines| - 1], q)
  {
    var init, last := lines[..|lines| - 1], lines[|lines| - 1];
    PlusCancels(if last.Some? && Matches(last.value, q) then [last.value] else [],
                SeenInFile(init, q), MatchesInFile(init, q));
    assert forall i, j | 0 <= i < j < |init| :: MatchBelow(lines, q, i, j) == MatchBelow(init, q, i, j);
  }

  // The break at Begin loses nothing if and only if no match stands before a
  // line older than Begin.
  lemma {:induction false} BreakLosesNothingIff(lines: Lines, q: Query)
    ensures SeenInFile(lines, q) == MatchesInFile(lines, q) <==> NoneBelow(lines, q)
  {
    if lines != [] {
      if BeforeBegin(lines[|lines| - 1], q) {
        BreakAtLast(lines, q);
      } else {
        NoBreakAtLast(lines, q);
        BreakLosesNothingIff(lines[..|lines| - 1], q);
      }
    }
  }

  // Lines in order of time lose nothing ...
  lemma BreakLosesNothing(lines: Lines, q: Query)
    requires InOrder(lines)
    ensures SeenInFile(lines, q) == MatchesInFile(lines, q)
  {
    BreakLosesNothingIff(lines, q);
    forall i, j | 0 <= i < j < |lines| ensures !MatchBelow(lines, q, i, j) {
      assert NotBackwards(lines, i, j);
    }
  }

  // ... in any number of files.
  lemma {:induction false} SeenIsMatches(files: seq<File>, q: Query)
    requires FilesInOrder(files)
    ensures SeenIn(files, q) == MatchesIn(files, q)
  {
    if files != [] {
      var n := |files| - 1;
      assert forall k | 0 <= k < n :: files[..n][k] == files[k];
      SeenIsMatches(files[..n], q);
      if files[n].Some? { BreakLosesNothing(files[n].value, q); }
    }
  }

  lemma SeenInFileStep(lines: Lines, q: Query, i: nat)
    requires i < |lines|
    ensures SeenInFile(lines[..i + 1], q) ==
            if BeforeBegin(lines[i], q) then []
            else (if lines[i].Some? && Matches(lines[i].value, q) then [lines[i].value] else []) +
                 SeenInFile(lines[..i], q)
  {
    assert lines[..i + 1][..i] == lines[..i];
  }

  // What one line contributes.
  lemma ScanLine(lines: Lines, q: Query, i: nat, matched: seq<Entry>, all: seq<Entry>)
    requires i < |lines| && matched + SeenInFile(lines[..i + 1], q) == all
    ensures BeforeBegin(lines[i], q) ==> all == matched
    ensures !BeforeBegin(lines[i], q) ==>
              all == (if lines[i].Some? && Matches(lines[i].value, q) then matched + [lines[i].value] else matched)
                     + SeenInFile(lines[..i], q)
  {
    SeenInFileStep(lines, q, i);
  }

  // Scanning one file on top of what was found, stopping at need entries.
  method ScanFile(lines: Lines, q: Query, found: seq<Entry>, need: nat) returns (matched: seq<Entry>)
    requires |found| < need
    ensures matched == Take(found + SeenInFile(lines, q), need)
  {
    matched := found;
    ghost var all := found + SeenInFile(lines, q);
    var i := |lines| - 1;
    assert lines[..|lines|] == lines;
    while i >= 0
      invariant -1 <= i < |lines| && |matched| < need
      invariant matched + SeenInFile(lines[..i + 1], q) == all
    {
      ScanLine(lines, q, i, matched, all);
      if lines[i].Some? {
        var e := lines[i].value;
        if q.begin.Some? && e.ts < q.begin.value { return; }
        if MatchTime(e, q) && MatchTrace(e, q) {
          matched := matched + [e];
          if |matched| >= need { return; }
        }
      }
      i := i - 1;
    }
  }

  method ScanFiles(files: seq<File>, q: Query, need: nat) returns (matched: seq<Entry>)
    requires need > 0
    ensures matched == Take(SeenIn(files, q), need)
  {
    matched := [];
    var k := 0;
    while k < |files| && |matched| < need
      invariant 0 <= k <= |files|
      invariant matched == Take(SeenIn(files[..k], q), need)
    {
      assert files[..k + 1][..k] == files[..k];
      if files[k].Some? {
        matched := ScanFile(files[k].value, q, matched, need);
      }
      k := k + 1;
    }
    SeenInPrefix(files, q, k);
    assert files[..|files|] == files;
  }

  // Query, given the candidate files as the program orders them.
  method RunQuery(files: seq<File>, q: Query) returns (page: Page)
    ensures page == Answer(files, q)
  {
    var limit := q.limit;
    if limit <= 0 { limit := DEFAULT_LIMIT; }
    var offset := if q.offset > 0 then q.offset else 0;
    var matched := ScanFiles(files, q, limit + offset + 1);
    page := CutPage(matched, offset, limit);
  }

  method CutPage(found: seq<Entry>, offset: nat, limit: nat) returns (page: Page)
    ensures page == PageOf(found, offset, limit)
  {
    var matched := Sorted(found);
    var hasMore := |matched| > offset + limit;
    var end := if offset + limit < |matched| then offset + limit else |matched|;
    var start := if offset < end then offset else end;
    page := Page(matched[start..end], hasMore);
  }

  lemma {:induction false} SeenInPrefix(files: seq<File>, q: Query, k: nat)
    requires k <= |files|
    ensures SeenIn(files[..k], q) <= SeenIn(files, q)
  {
    if k < |files| {
      SeenInPrefix(files[..|files| - 1], q, k);
      assert files[..|files| - 1][..k] == files[..k];
    } else {
      assert files[..k] == files;
    }
  }

  function Answer(files: seq<File>, q: Query): Page
  {
    PageOf(Scanned(files, q), Offset(q), Limit(q))
  }

  // ---- What the page is worth ----

  lemma {:induction false} FileMatchesMatch(lines: Lines, q: Query, e: Entry)
    requires e in MatchesInFile(lines, q)
    ensures Matches(e, q) && Some(e) in lines
  {
    var last := lines[|lines| - 1];
    if !(last.Some? && Matches(last.value, q) && last.value == e) {
      FileMatchesMatch(lines[..|lines| - 1], q, e);
    }
  }

  ghost predicate Listed(files: seq<File>, e: Entry)
  {
    exists k | 0 <= k < |files| && files[k].Some? :: Some(e) in files[k].value
  }

  lemma {:induction false} MatchesMatch(files: seq<File>, q: Query, e: Entry)
    requires e in MatchesIn(files, q)
    ensures Matches(e, q) && Listed(files, e)
  {
    var n := |files| - 1;
    if files[n].Some? && e in MatchesInFile(files[n].value, q) {
      FileMatchesMatch(files[n].value, q, e);
    } else {
      MatchesMatch(files[..n], q, e);
      var k :| 0 <= k < n && files[..n][k].Some? && Some(e) in files[..n][k].value;
      assert files[k] == files[..n][k];
    }
  }

  lemma PageOfStretch(all: seq<Entry>, offset: nat, limit: nat)
    ensures var page, r := PageOf(Take(all, limit + offset + 1), offset, limit), PageOf(all, offset, limit);
            && page.hasMore == r.hasMore && |page.items| == |r.items|
            && NewestFirst(page.items) && forall e | e in page.items :: e in all
  {
    var m := Take(all, limit + offset + 1);
    SortedIsSorted(m);
    forall e | e in PageOf(m, offset, limit).items ensures e in all {
      assert e in Sorted(m);
      assert e in m;
    }
  }

  // However the files interleave: the page says correctly whether there is more,
  // is as long as the reference page, and lists entries of the files that match,
  // newest first.
  lemma PageIsSound(files: seq<File>, q: Query)
    requires FilesInOrder(files)
    ensures var page, r := Answer(files, q), Reference(files, q);
            && page.hasMore == r.hasMore && |page.items| == |r.items|
            && NewestFirst(page.items)
            && forall e | e in page.items :: Matches(e, q) && Listed(files, e)
  {
    hide Sorted, MatchesIn, SeenIn;
    SeenIsMatches(files, q);
    PageOfStretch(MatchesIn(files, q), Offset(q), Limit(q));
    forall e | e in Answer(files, q).items ensures Matches(e, q) && Listed(files, e) {
      MatchesMatch(files, q, e);
    }
  }

  lemma {:induction false} FileMatchesNewestFirst(lines: Lines, q: Query)
    requires InOrder(lines)
    ensures NewestFirst(MatchesInFile(lines, q))
    ensures forall e | e in MatchesInFile(lines, q) :: Some(e) in lines
  {
    if lines != [] {
      var init, last := lines[..|lines| - 1], lines[|lines| - 1];
      forall i, j | 0 <= i < j < |init| ensures NotBackwards(init, i, j) { assert NotBackwards(lines, i, j); }
      FileMatchesNewestFirst(init, q);
      var rest := MatchesInFile(init, q);
      forall e | e in rest && last.Some? ensures last.value.ts >= e.ts {
        var i :| 0 <= i < |init| && init[i] == Some(e);
        assert NotBackwards(lines, i, |init|);
      }
      assert forall i | 0 <= i < |rest| :: rest[i] in rest;
      assert lines == init + [last];
    }
  }

  // With everything fitting, or a single readable file, the page is the reference page.
  lemma PageIsExactWhenAllFits(files: seq<File>, q: Query)
    requires FilesInOrder(files) && |MatchesIn(files, q)| <= Offset(q) + Limit(q)
    ensures Answer(files, q) == Reference(files, q)
  {
    SeenIsMatches(files, q);
  }

  lemma OneFileMatches(file: File, q: Query)
    requires file.Some?
    ensures MatchesIn([file], q) == MatchesInFile(file.value, q)
  {
    assert [file][..0] == [];
    assert [] + MatchesInFile(file.value, q) == MatchesInFile(file.value, q);
  }

  lemma PageIsExactForOneFile(file: File, q: Query)
    requires file.Some? && InOrder(file.value)
    ensures Answer([file], q) == Reference([file], q)
  {
    hide Sorted, MatchesIn, SeenIn, MatchesInFile;
    OneFileMatches(file, q);
    SeenIsMatches([file], q);
    FileMatchesNewestFirst(file.value, q);
    ScanOfSorted(MatchesIn([file], q), Offset(q), Limit(q));
  }

  // Of matches that are in order already, a first stretch is in order too.
  lemma ScanOfSorted(all: seq<Entry>, offset: nat, limit: nat)
    requires NewestFirst(all)
    ensures PageOf(Take(all, limit + offset + 1), offset, limit) == PageOf(all, offset, limit)
  {
    SortedOfSorted(Take(all, limit + offset + 1));
    SortedOfSorted(all);
    SliceOfTake(all, offset, limit);
  }

  lemma SliceOfTake(s: seq<Entry>, offset: nat, limit: nat)
    ensures Slice(Take(s, limit + offset + 1), offset, limit) == Slice(s, offset, limit)
    ensures |Take(s, limit + offset + 1)| > offset + limit <==> |s| > offset + limit
  {
  }

  // ---- The exact condition ----

  ghost predicate Distinct(s: seq<Entry>)
  {
    forall i, j | 0 <= i < j < |s| :: s[i] != s[j]
  }

  // Inserting x leaves the first n entries of s as they are when x is not newer
  // than any of them ...
  lemma {:induction false} InsertBehind(s: seq<Entry>, x: Entry, n: nat)
    requires NewestFirst(s) && n <= |s| && (n > 0 ==> x.ts <= s[n - 1].ts)
    ensures Insert(s, x)[..n] == s[..n]
  {
    if s != [] && x.ts > s[|s| - 1].ts {
      var init := s[..|s| - 1];
      InsertBehind(init, x, n);
      assert (Insert(init, x) + [s[|s| - 1]])[..n] == Insert(init, x)[..n];
    }
  }

  // ... and otherwise moves the entry at k one place on.
  lemma {:induction false} InsertShifts(s: seq<Entry>, x: Entry, k: nat)
    requires NewestFirst(s) && k < |s|
    ensures Insert(s, x)[if x.ts > s[k].ts then k + 1 else k] == s[k]
  {
    if x.ts > s[|s| - 1].ts && k < |s| - 1 {
      InsertShifts(s[..|s| - 1], x, k);
    }
  }

  // How many entries of b are newer than t.
  function NewerThan(b: seq<Entry>, t: int): nat
  {
    if b == [] then 0 else NewerThan(b[..|b| - 1], t) + if b[|b| - 1].ts > t then 1 else 0
  }

  lemma {:induction false} NoneNewer(b: seq<Entry>, t: int)
    ensures NewerThan(b, t) == 0 <==> forall e | e in b :: e.ts <= t
  {
    if b != [] {
      NoneNewer(b[..|b| - 1], t);
      assert b == b[..|b| - 1] + [b[|b| - 1]];
    }
  }

  lemma SortedAppend(a: seq<Entry>, b: seq<Entry>)
    requires b != []
    ensures Sorted(a + b) == Insert(Sorted(a + b[..|b| - 1]), b[|b| - 1])
  {
    assert (a + b)[..|a + b| - 1] == a + b[..|b| - 1];
  }

  ghost predicate Has(s: seq<Entry>, i: int, e: Entry)
  {
    0 <= i < |s| && s[i] == e
  }

  // Entries scanned later move an entry on by the number of newer ones.
  lemma {:induction false} LaterEntriesShift(a: seq<Entry>, b: seq<Entry>, k: nat, e: Entry)
    requires Has(Sorted(a), k, e)
    ensures Has(Sorted(a + b), k + NewerThan(b, e.ts), e)
  {
    hide Sorted, Insert, NewestFirst;
    if b == [] {
      assert a + b == a;
    } else {
      var init := b[..|b| - 1];
      LaterEntriesShift(a, init, k, e);
      SortedAppend(a, b);
      SortedIsSorted(a + init);
      InsertShifts(Sorted(a + init), b[|b| - 1], k + NewerThan(init, e.ts));
    }
  }

  lemma {:induction false} LaterEntriesBehind(a: seq<Entry>, b: seq<Entry>, n: nat)
    requires n <= |a| && (n > 0 ==> forall e | e in b :: e.ts <= Sorted(a)[n - 1].ts)
    ensures Sorted(a + b)[..n] == Sorted(a)[..n]
  {
    hide Sorted, Insert;
    if b == [] {
      assert a + b == a;
    } else {
      var init, last := b[..|b| - 1], b[|b| - 1];
      assert forall e | e in init :: e in b;
      LaterEntriesBehind(a, init, n);
      SortedAppend(a, b);
      SortedIsSorted(a + init);
      if n > 0 { assert Sorted(a + init)[..n][n - 1] == Sorted(a)[..n][n - 1]; }
      InsertBehind(Sorted(a + init), last, n);
    }
  }

  lemma {:induction false} DistinctSorted(s: seq<Entry>)
    requires Distinct(s)
    ensures Distinct(Sorted(s))
  {
    SortedIsSorted(s);
    forall i, j | 0 <= i < j < |s| ensures Sorted(s)[i] != Sorted(s)[j] {
      if Sorted(s)[i] == Sorted(s)[j] {
        TwiceInSeq(Sorted(s), i, j);
        OnceInDistinct(s, Sorted(s)[i]);
      }
    }
  }

  lemma DistinctPlaces(s: seq<Entry>, i: nat, j: nat, e: Entry)
    requires Distinct(s) && i < j && Has(s, j, e)
    ensures s[i] != e
  {
  }

  lemma TwiceInSeq(s: seq<Entry>, i: nat, j: nat)
    requires i < j < |s| && s[i] == s[j]
    ensures multiset(s)[s[i]] >= 2
  {
    assert s == s[..j] + [s[j]] + s[j + 1..];
    assert s[..j][i] == s[i];
    assert s[i] in multiset(s[..j]);
  }

  lemma {:induction false} OnceInDistinct(s: seq<Entry>, e: Entry)
    requires Distinct(s)
    ensures multiset(s)[e] <= 1
  {
    if s != [] {
      var init, last := s[..|s| - 1], s[|s| - 1];
      OnceInDistinct(init, e);
      assert s == init + [last];
      if e == last { assert e !in init; }
    }
  }

  ghost predicate AllUpTo(s: seq<Entry>, t: int)
  {
    forall e | e in s :: e.ts <= t
  }

  lemma NewerEntryMoves(m: seq<Entry>, rest: seq<Entry>, n: nat, last: Entry)
    requires n < |m| && Distinct(m + rest) && Has(Sorted(m), n, last) && !AllUpTo(rest, last.ts)
    ensures Sorted(m + rest)[n] != last
  {
    hide Sorted, NewerThan, Distinct;
    NoneNewer(rest, last.ts);
    LaterEntriesShift(m, rest, n, last);
    DistinctSorted(m + rest);
    DistinctPlaces(Sorted(m + rest), n, n + NewerThan(rest, last.ts), last);
  }

  // How many entries are older than t.
  function OlderThan(s: seq<Entry>, t: int): nat
  {
    if s == [] then 0 else OlderThan(s[..|s| - 1], t) + if s[|s| - 1].ts < t then 1 else 0
  }

  // all[k] is newer than two entries scanned before it.
  ghost predicate Overtakes(all: seq<Entry>, i: int, j: int, k: int)
  {
    0 <= i < j < k < |all| && all[k].ts > all[i].ts && all[k].ts > all[j].ts
  }

  lemma OlderAppend(s: seq<Entry>, x: Entry, t: int)
    ensures OlderThan(s + [x], t) == OlderThan(s, t) + if x.ts < t then 1 else 0
  {
    assert (s + [x])[..|s|] == s;
  }

  lemma NewerAppend(s: seq<Entry>, x: Entry, t: int)
    ensures NewerThan(s + [x], t) == NewerThan(s, t) + if x.ts > t then 1 else 0
  {
    assert (s + [x])[..|s|] == s;
  }

  lemma {:induction false} InsertCounts(s: seq<Entry>, x: Entry, t: int)
    ensures OlderThan(Insert(s, x), t) == OlderThan(s, t) + if x.ts < t then 1 else 0
    ensures NewerThan(Insert(s, x), t) == NewerThan(s, t) + if x.ts > t then 1 else 0
  {
    if s != [] && x.ts > s[|s| - 1].ts {
      var init, last := s[..|s| - 1], s[|s| - 1];
      InsertCounts(init, x, t);
      OlderAppend(Insert(init, x), last, t);
      NewerAppend(Insert(init, x), last, t);
    } else {
      OlderAppend(s, x, t);
      NewerAppend(s, x, t);
      assert s == [] ==> s + [x] == [x];
    }
  }

  // Sorting changes no count.
  lemma {:induction false} SortedCounts(s: seq<Entry>, t: int)
    ensures OlderThan(Sorted(s), t) == OlderThan(s, t) && NewerThan(Sorted(s), t) == NewerThan(s, t)
  {
    if s != [] {
      SortedCounts(s[..|s| - 1], t);
      InsertCounts(Sorted(s[..|s| - 1]), s[|s| - 1], t);
    }
  }

  lemma {:induction false} OlderWitness(s: seq<Entry>, t: int) returns (i: nat)
    requires OlderThan(s, t) > 0
    ensures i < |s| && s[i].ts < t
    ensures OlderThan(s, t) > 1 ==> exists h :: 0 <= h < i && s[h].ts < t
  {
    var n := |s| - 1;
    if s[n].ts < t {
      i := n;
      if OlderThan(s, t) > 1 {
        var h := OlderWitness(s[..n], t);
        assert s[h].ts < t;
      }
    } else {
      i := OlderWitness(s[..n], t);
      if OlderThan(s, t) > 1 {
        var h :| 0 <= h < i && s[..n][h].ts < t;
        assert s[h].ts < t;
      }
    }
  }

  lemma {:induction false} OlderAtLeast(s: seq<Entry>, t: int, i: nat, j: nat)
    requires i <= j < |s| && s[i].ts < t && s[j].ts < t
    ensures OlderThan(s, t) >= if i < j then 2 else 1
    decreases |s|
  {
    var n := |s| - 1;
    if j < n {
      OlderAtLeast(s[..n], t, i, j);
    } else if i < j {
      OlderAtLeast(s[..n], t, i, i);
    }
  }

  // Of a sorted sequence, the last two are older than t as soon as any two are.
  lemma SecondOldest(s: seq<Entry>, t: int)
    requires NewestFirst(s) && OlderThan(s, t) >= 2
    ensures |s| >= 2 && s[|s| - 2].ts < t
  {
    var j := OlderWitness(s, t);
    var i :| 0 <= i < j && s[i].ts < t;
    if i < |s| - 2 { assert s[i].ts >= s[|s| - 2].ts; }
  }

  lemma OlderFrom(s: seq<Entry>, t: int, n: nat)
    requires NewestFirst(s) && n < |s|
    ensures n > 0 && s[n - 1].ts < t ==> OlderThan(s, t) >= 2
  {
    if n > 0 && s[n - 1].ts < t { OlderAtLeast(s, t, n - 1, n); }
  }

  // The newer entries of a sorted sequence come first.
  lemma {:induction false} NewerComeFirst(s: seq<Entry>, n: nat, t: int)
    requires NewestFirst(s) && n <= |s|
    ensures NewerThan(s[..n], t) == if NewerThan(s, t) < n then NewerThan(s, t) else n
    decreases |s|
  {
    NewerAtMost(s, t);
    if n == |s| {
      assert s[..n] == s;
    } else {
      var init := s[..|s| - 1];
      NewerComeFirst(init, n, t);
      assert init[..n] == s[..n];
      if s[|s| - 1].ts > t { AllNewer(init, t); }
    }
  }

  lemma {:induction false} NewerAtMost(s: seq<Entry>, t: int)
    ensures NewerThan(s, t) <= |s|
  {
    if s != [] { NewerAtMost(s[..|s| - 1], t); }
  }

  lemma {:induction false} AllNewer(s: seq<Entry>, t: int)
    requires forall i | 0 <= i < |s| :: s[i].ts > t
    ensures NewerThan(s, t) == |s|
  {
    if s != [] { AllNewer(s[..|s| - 1], t); }
  }

  lemma FrontsDiffer(s: seq<Entry>, r: seq<Entry>, j: nat, t: int)
    requires NewestFirst(s) && NewestFirst(r) && j <= |s| && j <= |r|
    requires NewerThan(s, t) < j && NewerThan(s, t) < NewerThan(r, t)
    ensures s[..j] != r[..j]
  {
    hide NewestFirst;
    NewerComeFirst(s, j, t);
    NewerComeFirst(r, j, t);
  }

  // Entry n of a sorted sequence has at most n newer ones.
  lemma {:induction false} FewNewer(s: seq<Entry>, n: nat)
    requires NewestFirst(s) && n < |s|
    ensures NewerThan(s, s[n].ts) <= n
    decreases |s|
  {
    var init := s[..|s| - 1];
    if n < |s| - 1 {
      FewNewer(init, n);
    } else {
      NewerAtMost(init, s[n].ts);
    }
  }

  lemma {:induction false} NewerSum(a: seq<Entry>, b: seq<Entry>, t: int)
    ensures NewerThan(a + b, t) == NewerThan(a, t) + NewerThan(b, t)
  {
    if b == [] {
      assert a + b == a;
    } else {
      NewerSum(a, b[..|b| - 1], t);
      assert (a + b)[..|a + b| - 1] == a + b[..|b| - 1];
    }
  }

  // The first n entries of a sorted scan stay the first n if and only if nothing
  // scanned later is newer than the last of them.
  lemma FrontStaysIff(m: seq<Entry>, rest: seq<Entry>, n: nat)
    requires 0 < n <= |m|
    ensures Sorted(m + rest)[..n] == Sorted(m)[..n] <==> AllUpTo(rest, Sorted(m)[n - 1].ts)
  {
    hide Sorted, NewerThan, NewestFirst;
    var t := Sorted(m)[n - 1].ts;
    if AllUpTo(rest, t) {
      LaterEntriesBehind(m, rest, n);
    } else {
      NoneNewer(rest, t);
      NewerSum(m, rest, t);
      SortedCounts(m, t);
      SortedCounts(m + rest, t);
      SortedIsSorted(m);
      SortedIsSorted(m + rest);
      FewNewer(Sorted(m), n - 1);
      FrontsDiffer(Sorted(m), Sorted(m + rest), n, t);
    }
  }

  // The same for a slice that ends at n, if it starts at the front or no entry
  // appears twice.
  lemma SliceStaysIff(m: seq<Entry>, rest: seq<Entry>, offset: nat, n: nat)
    requires offset < n < |m|
    ensures AllUpTo(rest, Sorted(m)[n - 1].ts) ==> Sorted(m + rest)[offset..n] == Sorted(m)[offset..n]
    ensures offset == 0 || Distinct(m + rest) ==>
              (Sorted(m + rest)[offset..n] == Sorted(m)[offset..n] <==> AllUpTo(rest, Sorted(m)[n - 1].ts))
  {
    hide Sorted, Distinct;
    var x, y := Sorted(m + rest), Sorted(m);
    FrontStaysIff(m, rest, n);
    assert x[offset..n] == x[..n][offset..] && y[offset..n] == y[..n][offset..];
    if offset > 0 && Distinct(m + rest) && !AllUpTo(rest, y[n - 1].ts) {
      NewerEntryMoves(m, rest, n - 1, y[n - 1]);
      assert x[offset..n][n - 1 - offset] == x[n - 1] && y[offset..n][n - 1 - offset] == y[n - 1];
    }
  }

  // Of the first n + 1 entries scanned, the second oldest is older than t if and
  // only if two of them are.
  lemma SecondOldestIff(all: seq<Entry>, n: nat, k: nat)
    requires 0 < n < k < |all|
    ensures Sorted(all[..n + 1])[n - 1].ts < all[k].ts <==> exists i, j | j <= n :: Overtakes(all, i, j, k)
  {
    hide Sorted, OlderThan, NewestFirst;
    var m, t := all[..n + 1], all[k].ts;
    SortedIsSorted(m);
    SortedCounts(m, t);
    if Sorted(m)[n - 1].ts < t {
      OlderFrom(Sorted(m), t, n);
      var j := OlderWitness(m, t);
      var i :| 0 <= i < j && m[i].ts < t;
      assert Overtakes(all, i, j, k);
    } else if i, j :| j <= n && Overtakes(all, i, j, k) {
      OlderAtLeast(m, t, i, j);
      SecondOldest(Sorted(m), t);
    }
  }

  // No match beyond the first n + 1 is newer than two of these.
  ghost predicate FrontNotOvertaken(all: seq<Entry>, n: int)
  {
    forall i, j, k | j <= n < k :: !Overtakes(all, i, j, k)
  }

  lemma FrontNotOvertakenIff(all: seq<Entry>, n: nat)
    requires 0 < n < |all|
    ensures FrontNotOvertaken(all, n) <==> AllUpTo(all[n + 1..], Sorted(all[..n + 1])[n - 1].ts)
  {
    hide Sorted;
    var t, rest := Sorted(all[..n + 1])[n - 1].ts, all[n + 1..];
    if AllUpTo(rest, t) {
      forall i, j, k | j <= n < k ensures !Overtakes(all, i, j, k) {
        if Overtakes(all, i, j, k) {
          assert all[k] == rest[k - n - 1];
          SecondOldestIff(all, n, k);
        }
      }
    } else {
      var h :| 0 <= h < |rest| && rest[h].ts > t;
      SecondOldestIff(all, n, n + 1 + h);
    }
  }

  lemma TakeAndRest(all: seq<Entry>, n: nat)
    requires n <= |all|
    ensures all == Take(all, n) + all[n..] && |Take(all, n)| == n && Take(all, n) == all[..n]
  {
  }

  lemma TakeWhole(all: seq<Entry>, n: nat)
    ensures |all| <= n ==> Take(all, n) == all
  {
  }

  lemma SliceInside(s: seq<Entry>, offset: nat, limit: nat)
    requires limit > 0 && offset + limit < |s|
    ensures var r := Slice(s, offset, limit);
            |r| == limit && r == s[offset..offset + limit] && r[limit - 1] == s[offset + limit - 1]
  {
  }

  // The page cut from a scan that stops early is the page cut from all matches.
  ghost predicate ExactPage(all: seq<Entry>, offset: nat, limit: nat)
  {
    PageOf(Take(all, limit + offset + 1), offset, limit) == PageOf(all, offset, limit)
  }

  lemma ExactPageBeyond(all: seq<Entry>, offset: nat, limit: nat)
    requires limit > 0 && offset + limit < |all|
    ensures FrontNotOvertaken(all, offset + limit) ==> ExactPage(all, offset, limit)
    ensures offset == 0 || Distinct(all) ==>
              (ExactPage(all, offset, limit) <==> FrontNotOvertaken(all, offset + limit))
  {
    hide Sorted, Slice, Take, Distinct, AllUpTo, FrontNotOvertaken;
    var n := offset + limit;
    var m, rest := Take(all, n + 1), all[n + 1..];
    TakeAndRest(all, n + 1);
    SliceInside(Sorted(m), offset, limit);
    SliceInside(Sorted(all), offset, limit);
    SliceStaysIff(m, rest, offset, n);
    FrontNotOvertakenIff(all, n);
  }

  lemma ExactPageIff(all: seq<Entry>, offset: nat, limit: nat)
    requires limit > 0
    ensures FrontNotOvertaken(all, offset + limit) ==> ExactPage(all, offset, limit)
    ensures offset == 0 || Distinct(all) ==>
              (ExactPage(all, offset, limit) <==> FrontNotOvertaken(all, offset + limit))
  {
    hide Sorted, Slice, Take, Distinct;
    if offset + limit < |all| {
      ExactPageBeyond(all, offset, limit);
    } else {
      TakeWhole(all, offset + limit + 1);
    }
  }

  // Equal entries can hide the miss on a later page.
  lemma EqualEntriesHideIt(e: Entry, x: Entry)
    requires x.ts > e.ts
    ensures !FrontNotOvertaken([e, e, e, x], 2) && ExactPage([e, e, e, x], 1, 1)
  {
    hide Sorted;
    var m, all := [e, e, e], [e, e, e, x];
    assert Overtakes(all, 0, 1, 3);
    SortedOfSorted(m);
    SortedAppend(m, [x]);
    assert m + [x] == all && m + [x][..0] == m;
    InsertShifts(m, x, 0);
    assert all[..3] == m;
    SliceInside(m, 1, 1);
    SliceInside(Sorted(all), 1, 1);
  }

  lemma PagesOf(files: seq<File>, q: Query, all: seq<Entry>)
    requires SeenIn(files, q) == MatchesIn(files, q) == all
    ensures Answer(files, q) == PageOf(Take(all, Limit(q) + Offset(q) + 1), Offset(q), Limit(q))
    ensures Reference(files, q) == PageOf(all, Offset(q), Limit(q))
  {
  }

  // One page, on the matches in scan order: with n = offset + limit, it is the
  // reference page if no match beyond the first n + 1 is newer than two of
  // these; on the first page, or when no two matches are equal, only if.
  lemma PageIsExactIff(files: seq<File>, q: Query)
    requires FilesInOrder(files)
    ensures var all := MatchesIn(files, q);
            var undisturbed := forall i, j, k | j <= Offset(q) + Limit(q) < k :: !Overtakes(all, i, j, k);
            && (undisturbed ==> Answer(files, q) == Reference(files, q))
            && (Offset(q) == 0 || Distinct(all) ==>
                  (Answer(files, q) == Reference(files, q) <==> undisturbed))
  {
    hide Sorted, MatchesIn, SeenIn, Distinct;
    SeenIsMatches(files, q);
    PagesOf(files, q, MatchesIn(files, q));
    ExactPageIff(MatchesIn(files, q), Offset(q), Limit(q));
  }

  // Limit and offset play no part in what matches.
  lemma {:induction false} SameMatchesInFile(lines: Lines, q: Query, p: Query)
    requires p == q.(limit := p.limit, offset := p.offset)
    ensures MatchesInFile(lines, p) == MatchesInFile(lines, q)
  {
    if lines != [] { SameMatchesInFile(lines[..|lines| - 1], q, p); }
  }

  lemma {:induction false} SameMatches(files: seq<File>, q: Query, p: Query)
    requires p == q.(limit := p.limit, offset := p.offset)
    ensures MatchesIn(files, p) == MatchesIn(files, q)
  {
    if files != [] {
      var n := |files| - 1;
      SameMatches(files[..n], q, p);
      if files[n].Some? { SameMatchesInFile(files[n].value, q, p); }
    }
  }

  // The answer to q with another limit and offset is the reference's.
  ghost predicate ExactAnswer(files: seq<File>, q: Query, limit: int, offset: int)
  {
    var p := q.(limit := limit, offset := offset);
    Answer(files, p) == Reference(files, p)
  }

  lemma AnswerIsPage(files: seq<File>, q: Query, limit: int, offset: int)
    requires FilesInOrder(files)
    ensures var p := q.(limit := limit, offset := offset);
            ExactAnswer(files, q, limit, offset) <==> ExactPage(MatchesIn(files, q), Offset(p), Limit(p))
  {
    var p := q.(limit := limit, offset := offset);
    SameMatches(files, q, p);
    SeenIsMatches(files, p);
    PagesOf(files, p, MatchesIn(files, p));
  }

  // The exact condition, on the files and the filter: whatever limit and offset
  // are asked for, the page is the reference page, if and only if no matching
  // entry is newer than two matching entries scanned before it.
  lemma PagesAreExactIff(files: seq<File>, q: Query)
    requires FilesInOrder(files)
    ensures (forall limit, offset :: ExactAnswer(files, q, limit, offset)) <==>
            forall i, j, k :: !Overtakes(MatchesIn(files, q), i, j, k)
  {
    hide MatchesIn, ExactAnswer, ExactPage;
    var all := MatchesIn(files, q);
    if i, j, k :| Overtakes(all, i, j, k) {
      AnswerIsPage(files, q, j, 0);
      ExactPageIff(all, 0, j);
      assert !FrontNotOvertaken(all, j);
    } else {
      forall limit, offset ensures ExactAnswer(files, q, limit, offset) {
        var p := q.(limit := limit, offset := offset);
        AnswerIsPage(files, q, limit, offset);
        ExactPageIff(all, Offset(p), Limit(p));
      }
    }
  }

  // ---- What a query asks for ----

  // e lies in the period, ends included, and has the trace, where these are given.
  ghost predicate Asked(e: Entry, traceID: string, begin: Option<int>, end: Option<int>)
  {
    && (begin == None || begin.value <= e.ts)
    && (end == None || e.ts <= end.value)
    && (traceID == "" || traceID == e.traceID)
  }

  // How often e is logged: over all readable files, the lines that parse to it.
  ghost function Copies(files: seq<File>, e: Entry): nat
  {
    if files == [] then 0
    else
      var file := files[|files| - 1];
      Copies(files[..|files| - 1], e) + if file.Some? then multiset(file.value)[Some(e)] else 0
  }

  lemma LastCounts(lines: Lines, line: Option<Entry>)
    requires lines != []
    ensures multiset(lines)[line] == multiset(lines[..|lines| - 1])[line] + if lines[|lines| - 1] == line then 1 else 0
  {
    assert lines == lines[..|lines| - 1] + [lines[|lines| - 1]];
  }

  lemma FirstCounts(x: Entry, s: seq<Entry>, e: Entry)
    ensures multiset([x] + s)[e] == multiset(s)[e] + if x == e then 1 else 0
  {
  }

  lemma {:induction false} CountInFile(lines: Lines, q: Query, e: Entry)
    ensures multiset(MatchesInFile(lines, q))[e] ==
            if Asked(e, q.traceID, q.begin, q.end) then multiset(lines)[Some(e)] else 0
  {
    if lines != [] {
      var init, last := lines[..|lines| - 1], lines[|lines| - 1];
      CountInFile(init, q, e);
      LastCounts(lines, Some(e));
      if last.Some? && Matches(last.value, q) { FirstCounts(last.value, MatchesInFile(init, q), e); }
    }
  }

  // The matches are the lines asked for, each as often as it is logged.
  lemma {:induction false} MatchesAreTheLinesAskedFor(files: seq<File>, q: Query, e: Entry)
    ensures multiset(MatchesIn(files, q))[e] ==
            if Asked(e, q.traceID, q.begin, q.end) then Copies(files, e) else 0
  {
    if files != [] {
      var n := |files| - 1;
      MatchesAreTheLinesAskedFor(files[..n], q, e);
      if files[n].Some? { CountInFile(files[n].value, q, e); }
    }
  }

  // Where the lines asked for stand: file and line.
  ghost predicate AskedAt(lines: Lines, q: Query, i: int)
  {
    0 <= i < |lines| && lines[i].Some? && Asked(lines[i].value, q.traceID, q.begin, q.end)
  }

  ghost function PlacesInFile(lines: Lines, q: Query, k: int): set<(int, int)>
  {
    set i | 0 <= i < |lines| && AskedAt(lines, q, i) :: (k, i)
  }

  ghost function Places(files: seq<File>, q: Query): set<(int, int)>
  {
    set k, i | 0 <= k < |files| && files[k].Some? && 0 <= i < |files[k].value| && AskedAt(files[k].value, q, i) ::
      (k, i)
  }

  lemma {:induction false} PlacesCountFile(lines: Lines, q: Query, k: int)
    ensures |PlacesInFile(lines, q, k)| == |MatchesInFile(lines, q)|
  {
    if lines == [] {
      assert PlacesInFile(lines, q, k) == {};
    } else {
      var n := |lines| - 1;
      PlacesCountFile(lines[..n], q, k);
      assert forall i | 0 <= i < n :: AskedAt(lines[..n], q, i) == AskedAt(lines, q, i);
      assert PlacesInFile(lines, q, k) ==
             PlacesInFile(lines[..n], q, k) + if AskedAt(lines, q, n) then {(k, n)} else {};
    }
  }

  lemma {:induction false} PlacesCount(files: seq<File>, q: Query)
    ensures |Places(files, q)| == |MatchesIn(files, q)|
  {
    if files == [] {
      assert Places(files, q) == {};
    } else {
      var n := |files| - 1;
      PlacesCount(files[..n], q);
      var here := if files[n].Some? then PlacesInFile(files[n].value, q, n) else {};
      if files[n].Some? { PlacesCountFile(files[n].value, q, n); }
      assert Places(files, q) == Places(files[..n], q) + here;
    }
  }

  // From the offset on, up to the limit or the end of what there is.
  ghost predicate IsSlice(items: seq<Entry>, all: seq<Entry>, offset: nat, limit: nat)
  {
    var total := |all|;
    && |items| == (if total <= offset then 0 else if total <= offset + limit then total - offset else limit)
    && forall i | 0 <= i < |items| :: offset + i < total && items[i] == all[offset + i]
  }

  // Newest first: what a stable sort by time makes of the matches as scanned.
  ghost predicate InOrderOfTime(sorted: seq<Entry>, scanned: seq<Entry>)
  {
    NewestFirst(sorted) && multiset(sorted) == multiset(scanned) && forall t :: Filter(sorted, t) == Filter(scanned, t)
  }

  lemma SortedInOrderOfTime(s: seq<Entry>)
    ensures InOrderOfTime(Sorted(s), s)
  {
    hide Sorted, NewestFirst, Filter;
    SortedIsSorted(s);
    forall t ensures Filter(Sorted(s), t) == Filter(s, t) { SortedIsStable(s, t); }
  }

  lemma SliceIsSlice(s: seq<Entry>, offset: nat, limit: nat)
    ensures IsSlice(Slice(s, offset, limit), s, offset, limit)
  {
  }

  lemma PageIsSlice(s: seq<Entry>, offset: nat, limit: nat)
    ensures InOrderOfTime(Sorted(s), s) && IsSlice(PageOf(s, offset, limit).items, Sorted(s), offset, limit)
    ensures PageOf(s, offset, limit).hasMore <==> |s| > offset + limit
  {
    hide Sorted, Slice, IsSlice, InOrderOfTime;
    SortedInOrderOfTime(s);
    SliceIsSlice(Sorted(s), offset, limit);
  }

  // The reference, read without the program: of the lines asked for, newest
  // first, those from offset on, as many as the limit, and whether there are
  // more. A limit of zero or less is 200, a negative offset is none.
  lemma ReferenceMeaning(files: seq<File>, q: Query, offset: nat, limit: nat)
    requires offset == if q.offset > 0 then q.offset else 0
    requires limit == if q.limit > 0 then q.limit else 200
    ensures var r := Reference(files, q);
            && (exists sorted ::
                  InOrderOfTime(sorted, MatchesIn(files, q)) && IsSlice(r.items, sorted, offset, limit))
            && (r.hasMore <==> |Places(files, q)| > offset + limit)
  {
    hide Sorted, MatchesIn, Places, IsSlice, InOrderOfTime, PageOf;
    PageIsSlice(MatchesIn(files, q), offset, limit);
    PlacesCount(files, q);
  }

  // Every item of a page was asked for and is logged, at least as often as it is listed.
  lemma PageListsWhatWasAsked(files: seq<File>, q: Query, e: Entry)
    ensures e in Answer(files, q).items ==>
              && (q.begin.Some? ==> q.begin.value <= e.ts) && (q.end.Some? ==> e.ts <= q.end.value)
              && (q.traceID != "" ==> e.traceID == q.traceID)
    ensures multiset(Answer(files, q).items)[e] <= Copies(files, e)
  {
    hide Sorted, SeenIn, MatchesIn, Answer, Copies;
    AnswerCounts(files, q, e);
    SeenAreMatches(files, q, e);
    MatchesAreTheLinesAskedFor(files, q, e);
  }

  lemma AnswerCounts(files: seq<File>, q: Query, e: Entry)
    ensures multiset(Answer(files, q).items)[e] <= multiset(SeenIn(files, q))[e]
    ensures e in Answer(files, q).items ==> multiset(Answer(files, q).items)[e] > 0
  {
    hide Sorted, SeenIn;
    var m := Scanned(files, q);
    SortedIsSorted(m);
    PartCounts(SeenIn(files, q), 0, |m|, e);
    SliceCounts(Sorted(m), Offset(q), Limit(q), e);
  }

  lemma SliceCounts(s: seq<Entry>, offset: nat, limit: nat, e: Entry)
    ensures multiset(Slice(s, offset, limit))[e] <= multiset(s)[e]
  {
    var hi := if offset + limit < |s| then offset + limit else |s|;
    PartCounts(s, if offset < hi then offset else hi, hi, e);
  }

  lemma PartCounts(s: seq<Entry>, lo: nat, hi: nat, e: Entry)
    requires lo <= hi <= |s|
    ensures multiset(s[lo..hi])[e] <= multiset(s)[e]
  {
    assert s == s[..lo] + s[lo..hi] + s[hi..];
  }

  lemma {:induction false} SeenInFileAreMatches(lines: Lines, q: Query, e: Entry)
    ensures multiset(SeenInFile(lines, q))[e] <= multiset(MatchesInFile(lines, q))[e]
  {
    if lines != [] && !BeforeBegin(lines[|lines| - 1], q) { SeenInFileAreMatches(lines[..|lines| - 1], q, e); }
  }

  lemma {:induction false} SeenAreMatches(files: seq<File>, q: Query, e: Entry)
    ensures multiset(SeenIn(files, q))[e] <= multiset(MatchesIn(files, q))[e]
  {
    if files != [] {
      var n := |files| - 1;
      SeenAreMatches(files[..n], q, e);
      if files[n].Some? { SeenInFileAreMatches(files[n].value, q, e); }
    }
  }

  // Has-more and the length of the page, by the number of lines asked for.
  lemma PageCountsWhatWasAsked(files: seq<File>, q: Query, offset: nat, limit: nat)
    requires FilesInOrder(files)
    requires offset == if q.offset > 0 then q.offset else 0
    requires limit == if q.limit > 0 then q.limit else 200
    ensures var page, total := Answer(files, q), |Places(files, q)|;
            && (page.hasMore <==> total > offset + limit)
            && |page.items| == if total <= offset then 0 else if total <= offset + limit then total - offset else limit
  {
    hide Sorted, MatchesIn, SeenIn, Places, InOrderOfTime;
    PageIsSound(files, q);
    PlacesCount(files, q);
    PageIsSlice(MatchesIn(files, q), offset, limit);
  }

  lemma TwoSorted(x: Entry, y: Entry)
    ensures Sorted([x, y]) == if y.ts > x.ts then [y, x] else [x, y]
  {
    assert [x, y][..1] == [x] && [x][..0] == [];
    assert Insert([x], y) == if y.ts > x.ts then [y, x] else [x, y];
  }

  lemma ThreeSorted(x: Entry, y: Entry, z: Entry)
    requires x.ts > y.ts && z.ts > x.ts
    ensures Sorted([x, y, z]) == [z, x, y]
  {
    TwoSorted(x, y);
    assert [x, y, z][..2] == [x, y] && [x, y][..1] == [x] && [x][..0] == [];
    assert Insert([x], z) == [z] + [x];
    assert Insert([x, y], z) == [z, x] + [y];
  }

  lemma LinesOfTwo(x: Entry, y: Entry, q: Query)
    requires Matches(x, q) && Matches(y, q)
    ensures MatchesInFile([Some(y)], q) == [y] && MatchesInFile([Some(x), Some(y)], q) == [y, x]
  {
    OneLine(x, q);
    OneLine(y, q);
    var two: Lines := [Some(x), Some(y)];
    assert two[..1] == [Some(x)];
    assert MatchesInFile(two, q) == [y] + MatchesInFile(two[..1], q);
  }

  lemma OneLine(x: Entry, q: Query)
    requires Matches(x, q)
    ensures MatchesInFile([Some(x)], q) == [x]
  {
    var one: Lines := [Some(x)];
    assert one[..0] == [];
    assert MatchesInFile(one, q) == [x] + MatchesInFile(one[..0], q);
  }

  lemma FilesOfTwo(f1: Lines, f2: Lines, q: Query)
    ensures MatchesIn([Some(f1), Some(f2)], q) == MatchesInFile(f1, q) + MatchesInFile(f2, q)
  {
    OneFileMatches(Some(f1), q);
    assert [Some(f1), Some(f2)][..1] == [Some(f1)];
  }

  lemma FirstOfThree(a: Entry, b: Entry, c: Entry)
    requires a.ts < b.ts < c.ts
    ensures PageOf(Take([b, a, c], 2), 0, 1).items == [b] && PageOf([b, a, c], 0, 1).items == [c]
  {
    assert [b, a, c][..2] == [b, a];
    TwoSorted(b, a);
    ThreeSorted(b, a, c);
  }

  lemma TwoFilesInOrder(a: Entry, b: Entry, c: Entry)
    requires a.ts < b.ts
    ensures FilesInOrder([Some([Some(a), Some(b)]), Some([Some(c)])])
  {
    var f1: Lines, f2: Lines := [Some(a), Some(b)], [Some(c)];
    assert NotBackwards(f1, 0, 1);
    assert InOrder(f1) && InOrder(f2);
  }

  // Files that interleave: the page of the newest entry shows an older one.
  lemma InterleavedFilesFail(a: Entry, b: Entry, c: Entry, q: Query)
    requires a.ts < b.ts < c.ts && q.limit == 1 && q.offset == 0
    requires Matches(a, q) && Matches(b, q) && Matches(c, q)
    ensures var files := [Some([Some(a), Some(b)]), Some([Some(c)])];
            FilesInOrder(files) && Answer(files, q).items == [b] && Reference(files, q).items == [c]
  {
    hide Sorted, Insert, MatchesIn, SeenIn, MatchesInFile, InOrder;
    TwoFilesInOrder(a, b, c);
    LinesOfTwo(a, b, q);
    OneLine(c, q);
    FilesOfTwo([Some(a), Some(b)], [Some(c)], q);
    SeenIsMatches([Some([Some(a), Some(b)]), Some([Some(c)])], q);
    PagesOf([Some([Some(a), Some(b)]), Some([Some(c)])], q, [b, a] + [c]);
    assert [b, a] + [c] == [b, a, c];
    FirstOfThree(a, b, c);
  }
}
