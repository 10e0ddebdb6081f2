// The context window of one session as a value: what the methods of Window.dfy
// compute and what the compression protocol of Compression.dfy is built on.
module WindowSpec {

  const WINDOW_CAP: nat := 100
  const COMPRESSION_KEEP: nat := 20
  const COMPRESS_BATCH: nat := WINDOW_CAP - COMPRESSION_KEEP

  datatype Part = Part(kind: string, text: string, description: string)

  datatype Msg = Msg(id: string, user: string, parts: seq<Part>)

  // The newest n elements.
  function LastN<T>(s: seq<T>, n: nat): (r: seq<T>)
    ensures |r| <= n && |r| <= |s|
  {
    if |s| <= n then s else s[|s| - n..]
  }

  function Appended(w: seq<Msg>, m: Msg): seq<Msg>
  {
    LastN(w + [m], WINDOW_CAP)
  }

  // The messages whose id is not in ids, in order.
  function Without(w: seq<Msg>, ids: set<string>): seq<Msg>
  {
    if w == [] then []
    else
      var n := |w| - 1;
      Without(w[..n], ids) + if w[n].id in ids then [] else [w[n]]
  }

  // The parts of the first message with this id replaced.
  function Backfilled(w: seq<Msg>, id: string, parts: seq<Part>): (r: seq<Msg>)
    ensures |r| == |w|
  {
    if w == [] then []
    else if w[0].id == id then [w[0].(parts := parts)] + w[1..]
    else [w[0]] + Backfilled(w[1..], id, parts)
  }

  function Ids(w: seq<Msg>): (ids: seq<string>)
    ensures |ids| == |w|
  {
    seq(|w|, i requires 0 <= i < |w| => w[i].id)
  }

  function IdSet(w: seq<Msg>): set<string>
  {
    set m | m in w :: m.id
  }

  // How many of the oldest messages of a snapshot one compression takes: none
  // unless more than COMPRESSION_KEEP are there, and never more than a full batch.
  function BatchSize(n: nat): (k: nat)
    ensures k <= n && k <= COMPRESS_BATCH
  {
    var k := n as int - COMPRESSION_KEEP;
    if k > COMPRESS_BATCH then COMPRESS_BATCH else if k <= 0 then 0 else k
  }

  ghost predicate Distinct(ids: seq<string>)
  {
    forall i, j | 0 <= i < j < |ids| :: ids[i] != ids[j]
  }

  lemma {:induction false} WithoutSplits(a: seq<Msg>, b: seq<Msg>, ids: set<string>)
    ensures Without(a + b, ids) == Without(a, ids) + Without(b, ids)
  {
    if b == [] {
      assert a + b == a;
    } else {
      var n := |b| - 1;
      WithoutSplits(a, b[..n], ids);
      assert (a + b)[..|a + b| - 1] == a + b[..n];
    }
  }

  lemma {:induction false} WithoutAll(w: seq<Msg>, ids: set<string>)
    requires forall m | m in w :: m.id in ids
    ensures Without(w, ids) == []
  {
    if w != [] { WithoutAll(w[..|w| - 1], ids); }
  }

  lemma {:induction false} WithoutNone(w: seq<Msg>, ids: set<string>)
    requires forall m | m in w :: m.id !in ids
    ensures Without(w, ids) == w
  {
    if w != [] {
      SplitLast(w);
      WithoutNone(w[..|w| - 1], ids);
    }
  }

  lemma SplitLast<T>(s: seq<T>)
    requires s != []
    ensures s == s[..|s| - 1] + [s[|s| - 1]] && s[|s| - 1] in s && forall x | x in s[..|s| - 1] :: x in s
  {
  }

  // Removing exactly the ids of the first m messages leaves the rest.
  lemma WithoutFirst(w: seq<Msg>, ids: set<string>, m: nat)
    requires m <= |w| && forall i | 0 <= i < |w| :: w[i].id in ids <==> i < m
    ensures Without(w, ids) == w[m..]
  {
    WithoutAll(w[..m], ids);
    WithoutNone(w[m..], ids);
    WithoutSplits(w[..m], w[m..], ids);
    assert w[..m] + w[m..] == w;
  }

  lemma OnlyFirstIds(w: seq<Msg>, k: nat)
    requires k <= |w| && Distinct(Ids(w))
    ensures forall i | 0 <= i < |w| :: w[i].id in IdSet(w[..k]) <==> i < k
  {
    forall i | 0 <= i < |w| ensures w[i].id in IdSet(w[..k]) <==> i < k {
      if i < k { assert w[..k][i] in w[..k]; }
      forall m | m in w[..k] ensures k <= i ==> m.id != w[i].id {
        var j :| 0 <= j < k && w[..k][j] == m;
        assert Ids(w)[j] == m.id && Ids(w)[i] == w[i].id;
      }
    }
  }

  // A batch is all but the newest twenty messages, so twenty stay behind; a
  // window of up to twenty gives none.
  lemma BatchLeavesTwenty(w: seq<Msg>)
    requires |w| <= 100 && Distinct(Ids(w))
    ensures BatchSize(|w|) == if |w| > 20 then |w| - 20 else 0
    ensures Without(w, IdSet(w[..BatchSize(|w|)])) == if |w| > 20 then w[|w| - 20..] else w
  {
    hide Without, IdSet, Distinct, Ids;
    var k := BatchSize(|w|);
    OnlyFirstIds(w, k);
    WithoutFirst(w, IdSet(w[..k]), k);
    assert k == 0 ==> w[k..] == w;
  }

  // Backfilling a description changes no id.
  lemma {:induction false} BackfillKeepsIds(w: seq<Msg>, id: string, parts: seq<Part>)
    ensures Ids(Backfilled(w, id, parts)) == Ids(w)
  {
    if w != [] && w[0].id != id {
      BackfillKeepsIds(w[1..], id, parts);
      assert Ids(w)[1..] == Ids(w[1..]);
      var r := Backfilled(w[1..], id, parts);
      assert Ids([w[0]] + r) == [w[0].id] + Ids(r);
    }
  }
}
