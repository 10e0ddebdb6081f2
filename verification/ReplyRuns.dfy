// Runs of replies in one session, decided and recorded one after the other.
module ReplyRuns {
  import opened ControlSpec

  // An auto reply is decided, then recorded once it has been sent; a reply to a
  // mention is recorded without being decided on the state.
  datatype Reply =
    | Auto(decided: int, minute: int, chars: int, recorded: int)
    | Forced(recorded: int)

  function Run(st: State, p: Rules, rs: seq<Reply>): State
    decreases |rs|
  {
    if rs == [] then st else Run(Replied(st, p, rs[0].recorded), p, rs[1..])
  }

  // Time does not run backwards, and every auto reply passed the rules on the
  // state left by the reply before it.
  ghost predicate Serialised(st: State, p: Rules, from: int, rs: seq<Reply>)
    decreases |rs|
  {
    rs == [] ||
    (&& (match rs[0]
         case Auto(d, minute, chars, t) => from <= d <= t && AutoDecision(st, p, d, minute, chars) == AutoPass
         case Forced(t) => from <= t)
     && Serialised(Replied(st, p, rs[0].recorded), p, rs[0].recorded, rs[1..]))
  }

  ghost predicate Past(st: State, now: int)
  {
    st.energyUpdatedAt <= now && st.lastReplyAt <= now
  }

  ghost predicate EnergyInRange(st: State, p: Rules)
  {
    0 <= st.energy <= p.energyMax
  }

  function Autos(rs: seq<Reply>): nat
  {
    if rs == [] then 0 else (if rs[0].Auto? then 1 else 0) + Autos(rs[1..])
  }

  ghost predicate EndsWithAuto(rs: seq<Reply>)
  {
    rs != [] && rs[|rs| - 1].Auto?
  }

  // ---- One reply ----

  lemma MulMono(c: int, a: int, b: int)
    requires c >= 0 && a <= b
    ensures c * a <= c * b
  {
  }

  // The most that can have been recovered between two moments.
  function Gain(p: Rules, a: int, b: int): int
  {
    p.energyRecover * ((b - a) / 60)
  }

  lemma GainsAdd(p: Rules, a: int, b: int, c: int)
    requires a <= b <= c && p.energyRecover >= 0
    ensures 0 <= Gain(p, a, b) && Gain(p, a, b) + Gain(p, b, c) <= Gain(p, a, c)
  {
    MulMono(p.energyRecover, 0, (b - a) / 60);
    MulMono(p.energyRecover, (b - a) / 60 + (c - b) / 60, (c - a) / 60);
    assert p.energyRecover * ((b - a) / 60 + (c - b) / 60) == Gain(p, a, b) + Gain(p, b, c);
  }

  lemma RecoverBounds(st: State, p: Rules, now: int)
    requires Positive(p) && EnergyInRange(st, p) && Past(st, now)
    ensures st.energy <= Recover(st, p, now).energy <= p.energyMax
    ensures Recover(st, p, now).energy <= st.energy + Gain(p, st.energyUpdatedAt, now)
  {
    var elapsed := ElapsedMinutes(st, now);
    MulMono(p.energyRecover, 0, elapsed);
  }

  lemma RecoverMonotone(st: State, p: Rules, t1: int, t2: int)
    requires Positive(p) && EnergyInRange(st, p) && Past(st, t1) && t1 <= t2
    ensures Recover(st, p, t1).energy <= Recover(st, p, t2).energy
  {
    MulMono(p.energyRecover, 0, ElapsedMinutes(st, t1));
    MulMono(p.energyRecover, ElapsedMinutes(st, t1), ElapsedMinutes(st, t2));
  }

  // Energy stays in range, whatever the reply.
  lemma RepliedInRange(st: State, p: Rules, now: int)
    requires Positive(p) && EnergyInRange(st, p)
    ensures EnergyInRange(Replied(st, p, now), p) && Past(Replied(st, p, now), now)
  {
    if st.energyUpdatedAt < now { MulMono(p.energyRecover, 0, ElapsedMinutes(st, now)); }
  }

  // An auto reply costs its full price: it was decided with enough energy.
  lemma AutoPaysInFull(st: State, p: Rules, r: Reply)
    requires Positive(p) && p.energyThreshold >= p.energyCost && EnergyInRange(st, p) && r.Auto?
    requires Past(st, r.decided) && r.decided <= r.recorded
    requires AutoDecision(st, p, r.decided, r.minute, r.chars) == AutoPass
    ensures Replied(st, p, r.recorded).energy == Recover(st, p, r.recorded).energy - p.energyCost
  {
    RecoverMonotone(st, p, r.decided, r.recorded);
  }

  // What an auto reply takes at least, however low the threshold.
  function Price(p: Rules): int
  {
    if p.energyThreshold < p.energyCost then p.energyThreshold else p.energyCost
  }

  lemma AutoPaysPrice(st: State, p: Rules, r: Reply)
    requires Positive(p) && EnergyInRange(st, p) && r.Auto?
    requires Past(st, r.decided) && r.decided <= r.recorded
    requires AutoDecision(st, p, r.decided, r.minute, r.chars) == AutoPass
    ensures Replied(st, p, r.recorded).energy <= Recover(st, p, r.recorded).energy - Price(p)
  {
    RecoverMonotone(st, p, r.decided, r.recorded);
  }

  // r was decided on a state that lets an auto reply pass.
  ghost predicate Decided(st: State, p: Rules, r: Reply)
  {
    && r.Auto? && EnergyInRange(st, p) && Past(st, r.decided) && r.decided <= r.recorded
    && AutoDecision(st, p, r.decided, r.minute, r.chars) == AutoPass
  }

  ghost predicate PaysInFull(st: State, p: Rules, r: Reply)
  {
    Replied(st, p, r.recorded).energy == Recover(st, p, r.recorded).energy - p.energyCost
  }

  // The exact condition: whatever the state, every auto reply costs its full
  // price, if and only if the threshold is not below the cost.
  lemma PaysInFullIff(p: Rules)
    requires Positive(p) && p.energyMax >= p.energyThreshold
    ensures (forall st, r | Decided(st, p, r) :: PaysInFull(st, p, r)) <==> p.energyThreshold >= p.energyCost
  {
    if p.energyThreshold >= p.energyCost {
      forall st, r | Decided(st, p, r) ensures PaysInFull(st, p, r) { AutoPaysInFull(st, p, r); }
    } else {
      var now := p.cooldown;
      var st := State(p.energyThreshold, now, 0, 0, 0);
      var r := Auto(now, p.quietEnd, p.shortChars, now);
      assert ElapsedMinutes(st, now) == 0;
      assert Decided(st, p, r) && !PaysInFull(st, p, r);
    }
  }

  // ---- Throttling over a whole run ----

  // What the auto replies of a run add up to, at a price each.
  function Total(price: int, rs: seq<Reply>): int
  {
    if rs == [] then 0 else (if rs[0].Auto? then price else 0) + Total(price, rs[1..])
  }

  lemma {:induction false} TotalIsProduct(price: int, rs: seq<Reply>)
    ensures Total(price, rs) == price * Autos(rs)
  {
    if rs != [] {
      TotalIsProduct(price, rs[1..]);
      assert price * (1 + Autos(rs[1..])) == price + price * Autos(rs[1..]);
    }
  }

  // The energy after a reply, given what can have been recovered before it.
  lemma OneReply(st: State, p: Rules, from: int, rs: seq<Reply>)
    requires Positive(p)
    requires EnergyInRange(st, p) && Past(st, from) && Serialised(st, p, from, rs) && rs != []
    ensures var t := rs[0].recorded;
            var st' := Replied(st, p, t);
            && from <= t && EnergyInRange(st', p) && Past(st', t) && st'.energyUpdatedAt == t
            && st'.energy <= st.energy + Gain(p, st.energyUpdatedAt, t) - (if rs[0].Auto? then Price(p) else 0)
            && (rs[0].Auto? ==> st'.energy <= p.energyMax - Price(p))
            && Serialised(st', p, t, rs[1..])
  {
    var t := rs[0].recorded;
    assert Past(st, t);
    RepliedInRange(st, p, t);
    RecoverBounds(st, p, t);
    if rs[0].Auto? { AutoPaysPrice(st, p, rs[0]); }
  }

  // The auto replies of a run, at their price, are paid from the energy at its
  // start and from what whole minutes recover before the last decision.
  lemma {:induction false} EnergyBudget(st: State, p: Rules, from: int, rs: seq<Reply>)
    requires Positive(p)
    requires EnergyInRange(st, p) && Past(st, from) && Serialised(st, p, from, rs) && EndsWithAuto(rs)
    ensures from <= rs[|rs| - 1].decided
    ensures p.energyThreshold + Total(Price(p), rs) - Price(p) <=
            st.energy + Gain(p, st.energyUpdatedAt, rs[|rs| - 1].decided)
    decreases |rs|
  {
    var last := rs[|rs| - 1].decided;
    if |rs| == 1 {
      RecoverBounds(st, p, last);
      assert Total(Price(p), rs[1..]) == 0;
    } else {
      var t := rs[0].recorded;
      OneReply(st, p, from, rs);
      EnergyBudget(Replied(st, p, t), p, t, rs[1..]);
      GainsAdd(p, st.energyUpdatedAt, t, last);
    }
  }

  lemma {:induction false} CooldownBudget(st: State, p: Rules, from: int, rs: seq<Reply>)
    requires Positive(p) && Past(st, from) && Serialised(st, p, from, rs) && EndsWithAuto(rs)
    ensures Total(p.cooldown, rs) <= rs[|rs| - 1].decided - st.lastReplyAt
    decreases |rs|
  {
    if |rs| == 1 {
      assert Total(p.cooldown, rs[1..]) == 0;
    } else {
      var t := rs[0].recorded;
      assert Past(Replied(st, p, t), t);
      CooldownBudget(Replied(st, p, t), p, t, rs[1..]);
    }
  }

  // Both bounds for what follows a first auto reply.
  lemma BudgetsAfterAuto(st: State, p: Rules, from: int, rs: seq<Reply>)
    requires Positive(p)
    requires EnergyInRange(st, p) && Past(st, from) && Serialised(st, p, from, rs)
    requires |rs| >= 2 && rs[0].Auto? && EndsWithAuto(rs)
    ensures var t, last := rs[0].recorded, rs[|rs| - 1].decided;
            && t <= last
            && Total(Price(p), rs[1..]) <= p.energyMax - p.energyThreshold + Gain(p, t, last)
            && Total(p.cooldown, rs[1..]) <= last - t
  {
    var t, rest := rs[0].recorded, rs[1..];
    OneReply(st, p, from, rs);
    assert rest[|rest| - 1] == rs[|rs| - 1];
    EnergyBudget(Replied(st, p, t), p, t, rest);
    CooldownBudget(Replied(st, p, t), p, t, rest);
  }

  // In a serialised run that begins and ends with an auto reply, with n auto
  // replies and T seconds from the first record to the last decision, both the
  // energy and the cooldown bound n, however many forced replies are in between.
  // The price is the cost, unless the threshold is lower.
  lemma Throttled(st: State, p: Rules, from: int, rs: seq<Reply>)
    requires Positive(p)
    requires EnergyInRange(st, p) && Past(st, from) && Serialised(st, p, from, rs)
    requires |rs| >= 2 && rs[0].Auto? && EndsWithAuto(rs)
    ensures var n, T := Autos(rs), rs[|rs| - 1].decided - rs[0].recorded;
            && T >= 0
            && Price(p) * (n - 1) <= p.energyMax - p.energyThreshold + p.energyRecover * (T / 60)
            && (p.energyThreshold >= p.energyCost ==>
                  p.energyCost * (n - 1) <= p.energyMax - p.energyThreshold + p.energyRecover * (T / 60))
            && p.cooldown * (n - 1) <= T
  {
    BudgetsAfterAuto(st, p, from, rs);
    TotalIsProduct(Price(p), rs[1..]);
    TotalIsProduct(p.cooldown, rs[1..]);
    assert Autos(rs) - 1 == Autos(rs[1..]);
  }

  // With a threshold below the cost the bound at full cost can fail: a reply
  // at the threshold takes no more than is left. Cost 100, threshold 1, one
  // point a minute.
  const CHEAP := Rules(100, 100, 1, 1, 60, 5, 300, 0, 0, false, 1)

  lemma CheapReply(st: State, now: int)
    requires st.energyUpdatedAt == st.lastReplyAt == now - 60 && st == State(0, now - 60, now - 60, 1, 0) && now >= 60
    ensures AutoDecision(st, CHEAP, now, 0, 9) == AutoPass
    ensures Replied(st, CHEAP, now) == State(0, now, now, 1, 0)
  {
    assert ElapsedMinutes(st, now) == 1;
    assert Recover(st, CHEAP, now) == st.(energy := 1, energyUpdatedAt := now);
  }

  lemma BelowCostNothingIsPaid(r1: Reply, r2: Reply, r3: Reply)
    requires r1 == Auto(6000, 0, 9, 6000) && r2 == Auto(6060, 0, 9, 6060) && r3 == Auto(6120, 0, 9, 6120)
    ensures Positive(CHEAP) && Serialised(FRESH, CHEAP, 0, [r1, r2, r3]) && Autos([r1, r2, r3]) == 3
    ensures CHEAP.energyCost * (3 - 1) >
            CHEAP.energyMax - CHEAP.energyThreshold + CHEAP.energyRecover * ((r3.decided - r1.recorded) / 60)
  {
    assert [r1, r2, r3][1..] == [r2, r3] && [r2, r3][1..] == [r3] && [r3][1..] == [];
    assert ElapsedMinutes(FRESH, 6000) == 100;
    assert Recover(FRESH, CHEAP, 6000) == State(100, 6000, 0, 0, 0);
    var s1 := State(0, 6000, 6000, 1, 0);
    assert Replied(FRESH, CHEAP, 6000) == s1;
    var s2 := State(0, 6060, 6060, 1, 0);
    CheapReply(s1, 6060);
    CheapReply(s2, 6120);
    assert Serialised(s2, CHEAP, 6060, [r3]);
    assert Serialised(s1, CHEAP, 6000, [r2, r3]);
    assert Autos([r3]) == 1 && Autos([r2, r3]) == 2;
  }

  // What n replies leave of energy e when nothing recovers.
  function Drained(e: int, cost: int, n: nat): int
    decreases n
  {
    if n == 0 then e else Drained(if e - cost < 0 then 0 else e - cost, cost, n - 1)
  }

  lemma {:induction false} DrainedClosedForm(e: int, cost: int, n: nat)
    requires e >= 0 && cost >= 0
    ensures Drained(e, cost, n) == if e - n * cost < 0 then 0 else e - n * cost
    decreases n
  {
    if n > 0 {
      assert n * cost == (n - 1) * cost + cost;
      MulMono(cost, 0, n - 1);
      DrainedClosedForm(if e - cost < 0 then 0 else e - cost, cost, n - 1);
    }
  }

  // The remainder of a minute is not carried over a reply: replies less than a
  // minute apart recover nothing at all, however long they go on.
  lemma {:induction false} NothingRecoversUnderAMinute(st: State, p: Rules, rs: seq<Reply>)
    requires Positive(p) && EnergyInRange(st, p)
    requires rs != [] ==> 0 <= rs[0].recorded - st.energyUpdatedAt < 60
    requires forall i | 1 <= i < |rs| :: 0 <= rs[i].recorded - rs[i - 1].recorded < 60
    ensures Run(st, p, rs).energy == Drained(st.energy, p.energyCost, |rs|)
    ensures Run(st, p, rs).energy ==
            if st.energy < |rs| * p.energyCost then 0 else st.energy - |rs| * p.energyCost
    decreases |rs|
  {
    if rs != [] {
      var t := rs[0].recorded;
      var st' := Replied(st, p, t);
      assert ElapsedMinutes(st, t) == 0;
      assert st'.energyUpdatedAt == t;
      assert forall i | 1 <= i < |rs[1..]| :: rs[1..][i] == rs[i + 1] && rs[1..][i - 1] == rs[i];
      NothingRecoversUnderAMinute(st', p, rs[1..]);
    }
    DrainedClosedForm(st.energy, p.energyCost, |rs|);
  }

  // The state after a reply, had the part of a minute already waited been kept.
  function RepliedKeeping(st: State, p: Rules, t: int): State
  {
    Replied(st, p, t).(energyUpdatedAt := Recover(st, p, t).energyUpdatedAt)
  }

  ghost predicate Saturates(st: State, p: Rules, t: int)
  {
    ElapsedMinutes(st, t) > 0 && st.energy + ElapsedMinutes(st, t) * p.energyRecover >= p.energyMax
  }

  // A reply at t leaves all later recovery as if that part had been kept, if and
  // only if there is none, or the recovery up to t reaches the maximum.
  lemma RemainderKeptIff(st: State, p: Rules, t: int)
    requires Positive(p) && EnergyInRange(st, p) && st.energyUpdatedAt <= t
    ensures (forall later | later >= t ::
               Recover(Replied(st, p, t), p, later).energy == Recover(RepliedKeeping(st, p, t), p, later).energy)
            <==> (t - st.energyUpdatedAt) % 60 == 0 || Saturates(st, p, t)
  {
    var since := Recover(st, p, t).energyUpdatedAt;
    assert since == t <==> (t - st.energyUpdatedAt) % 60 == 0 || Saturates(st, p, t);
    if since == t {
      assert RepliedKeeping(st, p, t) == Replied(st, p, t);
    } else {
      RepliedBelowMax(st, p, t);
      var later := since + 60;
      assert ElapsedMinutes(Replied(st, p, t), later) == 0;
      assert ElapsedMinutes(RepliedKeeping(st, p, t), later) == 1;
      assert later >= t &&
        Recover(Replied(st, p, t), p, later).energy != Recover(RepliedKeeping(st, p, t), p, later).energy;
    }
  }

  lemma RepliedBelowMax(st: State, p: Rules, t: int)
    requires Positive(p) && EnergyInRange(st, p) && st.energyUpdatedAt <= t
    ensures 0 <= Replied(st, p, t).energy < p.energyMax
  {
    MulMono(p.energyRecover, 0, ElapsedMinutes(st, t));
  }

  // ---- Streaks and rest ----

  // Length of the longest stretch at the end of ts whose gaps are under the cooldown.
  function TailRun(ts: seq<int>, cooldown: int): nat
  {
    if |ts| <= 1 then |ts|
    else if ts[|ts| - 1] - ts[|ts| - 2] < cooldown then TailRun(ts[..|ts| - 1], cooldown) + 1
    else 1
  }

  ghost predicate Tight(ts: seq<int>, cooldown: int, n: int)
  {
    0 <= n <= |ts| && forall i | |ts| - n < i < |ts| :: ts[i] - ts[i - 1] < cooldown
  }

  lemma {:induction false} TailRunIsLongest(ts: seq<int>, cooldown: int, n: int)
    ensures Tight(ts, cooldown, TailRun(ts, cooldown))
    ensures Tight(ts, cooldown, n) ==> n <= TailRun(ts, cooldown)
  {
    if |ts| > 1 && ts[|ts| - 1] - ts[|ts| - 2] < cooldown {
      var init := ts[..|ts| - 1];
      TailRunIsLongest(init, cooldown, n - 1);
      if Tight(ts, cooldown, n) && n >= 1 {
        assert forall i | |init| - (n - 1) < i < |init| :: init[i] - init[i - 1] == ts[i] - ts[i - 1];
      }
    } else if |ts| > 1 && n >= 2 {
      assert !(ts[|ts| - 1] - ts[|ts| - 2] < cooldown);
    }
  }

  // The replies at or after a moment.
  function Since(ts: seq<int>, moment: int): seq<int>
  {
    if ts == [] then []
    else
      var n := |ts| - 1;
      Since(ts[..n], moment) + if ts[n] >= moment then [ts[n]] else []
  }

  ghost predicate NonDecreasing(ts: seq<int>)
  {
    forall i, j | 0 <= i < j < |ts| :: ts[i] <= ts[j]
  }

  // The state after replies at the moments ts.
  function AfterFrom(st: State, p: Rules, ts: seq<int>): State
  {
    if ts == [] then st else Replied(AfterFrom(st, p, ts[..|ts| - 1]), p, ts[|ts| - 1])
  }

  // The same, starting from nothing.
  function After(p: Rules, ts: seq<int>): State { AfterFrom(FRESH, p, ts) }

  lemma {:induction false} SinceFuture(ts: seq<int>, moment: int)
    requires forall i | 0 <= i < |ts| :: ts[i] < moment
    ensures Since(ts, moment) == []
  {
    if ts != [] { SinceFuture(ts[..|ts| - 1], moment); }
  }

  lemma {:induction false} SinceEndsWithLast(ts: seq<int>, moment: int)
    requires NonDecreasing(ts)
    ensures var s := Since(ts, moment); s != [] ==> s[|s| - 1] == ts[|ts| - 1]
  {
    if ts != [] && ts[|ts| - 1] < moment { SinceFuture(ts, moment); }
  }

  // The streak counter is the length of the longest stretch of latest replies,
  // since the last rest ended, with gaps under the cooldown; it stays under the
  // limit.
  lemma {:induction false} StreakMeaning(p: Rules, ts: seq<int>)
    requires Positive(p) && NonDecreasing(ts) && forall t | t in ts :: t >= 0
    ensures var st := After(p, ts);
            && st.consecutive == TailRun(Since(ts, st.restUntil), p.cooldown) < p.consecutiveLimit
            && (ts != [] ==> st.lastReplyAt == ts[|ts| - 1])
            && st.restUntil >= 0
  {
    if ts != [] {
      var n := |ts| - 1;
      var init, t := ts[..n], ts[n];
      assert forall x | x in init :: x in ts;
      StreakMeaning(p, init);
      StreakStep(p, ts);
    }
  }

  // The stretch since a moment, when one more reply arrives.
  lemma StretchGrows(ts: seq<int>, moment: int, cooldown: int)
    requires NonDecreasing(ts) && ts != []
    ensures var init, t := ts[..|ts| - 1], ts[|ts| - 1];
            var before, run := TailRun(Since(init, moment), cooldown), TailRun(Since(ts, moment), cooldown);
            if t < moment then before == run == 0
            else run == if before > 0 && t - init[|init| - 1] < cooldown then before + 1 else 1
  {
    var init, t := ts[..|ts| - 1], ts[|ts| - 1];
    if t < moment {
      SinceFuture(ts, moment);
      SinceFuture(init, moment);
    } else {
      SinceEndsWithLast(init, moment);
      var s := Since(init, moment);
      assert Since(ts, moment) == s + [t];
      assert (s + [t])[..|s|] == s;
    }
  }

  // Streak counts the stretch: run is its length with the reply at now included.
  lemma StreakCounts(st: State, p: Rules, now: int, run: int)
    requires st.consecutive < p.consecutiveLimit && st.consecutive >= 0
    requires now >= st.restUntil ==>
               run == if st.consecutive > 0 && now - st.lastReplyAt < p.cooldown then st.consecutive + 1 else 1
    requires now < st.restUntil ==> run == st.consecutive
    ensures var next := Replied(st, p, now);
            && (if now >= st.restUntil && run == p.consecutiveLimit
                then next.restUntil == now + p.rest && next.consecutive == 0
                else next.restUntil == st.restUntil && next.consecutive == run)
            && next.lastReplyAt == now
  {
  }

  // A reply at t starts a rest exactly when no rest is running and it completes
  // a streak of the limit's length; the rest then lasts p.rest from t. Replies
  // during a rest neither extend it nor count.
  lemma StreakStep(p: Rules, ts: seq<int>)
    requires Positive(p) && NonDecreasing(ts) && ts != [] && forall t | t in ts :: t >= 0
    requires var init := ts[..|ts| - 1]; var st := After(p, init);
             && st.consecutive == TailRun(Since(init, st.restUntil), p.cooldown) < p.consecutiveLimit
             && (init != [] ==> st.lastReplyAt == init[|init| - 1])
             && st.restUntil >= 0
    ensures var before, t := After(p, ts[..|ts| - 1]), ts[|ts| - 1];
            var run := TailRun(Since(ts, before.restUntil), p.cooldown);
            var st := After(p, ts);
            && (if t >= before.restUntil && run == p.consecutiveLimit
                then st.restUntil == t + p.rest && st.consecutive == 0
                else st.restUntil == before.restUntil && st.consecutive == run)
            && st.consecutive == TailRun(Since(ts, st.restUntil), p.cooldown) < p.consecutiveLimit
            && st.lastReplyAt == t && st.restUntil >= 0
  {
    var n := |ts| - 1;
    var init, t := ts[..n], ts[n];
    var before := After(p, init);
    assert t in ts;
    StretchGrows(ts, before.restUntil, p.cooldown);
    StreakCounts(before, p, t, TailRun(Since(ts, before.restUntil), p.cooldown));
    SinceFuture(ts, t + p.rest);
  }

  // In a serialised run with a limit of two or more, a rest is always started by
  // a forced reply: an auto reply never comes within the cooldown.
  lemma {:induction false} OnlyForcedStartsRest(st: State, p: Rules, from: int, rs: seq<Reply>)
    requires Positive(p) && p.consecutiveLimit >= 2
    requires Past(st, from) && Serialised(st, p, from, rs)
    ensures Run(st, p, rs).restUntil != st.restUntil ==>
              exists i | 0 <= i < |rs| :: rs[i].Forced? && Run(st, p, rs).restUntil == rs[i].recorded + p.rest
    decreases |rs|
  {
    if rs != [] {
      var st' := Replied(st, p, rs[0].recorded);
      OnlyForcedStartsRest(st', p, rs[0].recorded, rs[1..]);
      if Run(st, p, rs).restUntil != st'.restUntil {
        var i :| 0 <= i < |rs[1..]| && rs[1..][i].Forced? && Run(st, p, rs).restUntil == rs[1..][i].recorded + p.rest;
        assert rs[i + 1] == rs[1..][i];
      }
    }
  }
}
