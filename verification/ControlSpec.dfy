// The trigger rules as functions of the running state: energy with lazy
// recovery, cooldown, streaks and forced rest, and what they mean over runs of
// replies. Times are Unix seconds.
module ControlSpec {

  datatype Rules = Rules(
    energyMax: int, energyCost: int, energyRecover: int, energyThreshold: int,
    cooldown: int, consecutiveLimit: int, rest: int,
    quietStart: int, quietEnd: int, quietSet: bool, shortChars: int)

  datatype State = State(energy: int, energyUpdatedAt: int, lastReplyAt: int, consecutive: int, restUntil: int)

  // The state of a session nobody has replied in.
  const FRESH := State(0, 0, 0, 0, 0)

  // Division as the program divides: towards zero.
  function TruncDiv(a: int, b: int): int
    requires b > 0
  {
    if a >= 0 then a / b else -((-a) / b)
  }

  function ElapsedMinutes(st: State, now: int): int
  {
    TruncDiv(now - st.energyUpdatedAt, 60)
  }

  function Recover(st: State, p: Rules, now: int): State
  {
    var elapsed := ElapsedMinutes(st, now);
    if elapsed <= 0 then st
    else
      var gain := elapsed * p.energyRecover;
      if st.energy + gain >= p.energyMax then st.(energy := p.energyMax, energyUpdatedAt := now)
      else st.(energy := st.energy + gain, energyUpdatedAt := st.energyUpdatedAt + elapsed * 60)
  }

  // The streak and rest part of OnReplied.
  function Streak(st: State, p: Rules, now: int): State
  {
    if now < st.restUntil then st
    else
      var n := if now - st.lastReplyAt >= p.cooldown then 1 else st.consecutive + 1;
      if n >= p.consecutiveLimit then st.(consecutive := 0, restUntil := now + p.rest)
      else st.(consecutive := n)
  }

  // OnReplied on the state of one session.
  function Replied(st: State, p: Rules, now: int): State
  {
    var st' := Streak(Recover(st, p, now), p, now);
    var left := st'.energy - p.energyCost;
    st'.(energy := if left < 0 then 0 else left, energyUpdatedAt := now, lastReplyAt := now)
  }

  datatype Reason =
    | MentionForced | AutoPass | NotTriggered | LowEnergy | Cooldown | QuietHours | ShortMessage

  // Quiet hours: an empty stretch when both ends are equal, across midnight when
  // the end comes before the start.
  predicate InQuietHours(p: Rules, minute: int)
  {
    p.quietSet &&
    if p.quietEnd < p.quietStart then minute >= p.quietStart || minute < p.quietEnd
    else p.quietStart <= minute < p.quietEnd
  }

  // shouldReplyAuto; chars is the length of the text, minute the local minute of
  // the day.
  function AutoDecision(st: State, p: Rules, now: int, minute: int, chars: int): Reason
  {
    if chars < p.shortChars then ShortMessage
    else if InQuietHours(p, minute) then QuietHours
    else if Recover(st, p, now).energy < p.energyThreshold then LowEnergy
    else if now < st.restUntil || now < st.lastReplyAt + p.cooldown then Cooldown
    else AutoPass
  }

  // The parameters as configured: nothing negative, a day has 1440 minutes.
  ghost predicate Positive(p: Rules)
  {
    && p.energyMax > 0 && p.energyCost > 0 && p.energyRecover > 0 && p.energyThreshold > 0
    && p.cooldown > 0 && p.consecutiveLimit > 0 && p.rest > 0 && p.shortChars > 0
  }

  // ---- Energy ----

  // Minute-by-minute recovery.
  function Ticks(e: int, p: Rules, minutes: nat): int
  {
    if minutes == 0 then e
    else
      var before := Ticks(e, p, minutes - 1);
      if before + p.energyRecover >= p.energyMax then p.energyMax else before + p.energyRecover
  }

  lemma {:induction false} TicksClosedForm(e: int, p: Rules, minutes: nat)
    requires p.energyRecover >= 0 && minutes > 0
    ensures Ticks(e, p, minutes) ==
            if e + minutes * p.energyRecover >= p.energyMax then p.energyMax else e + minutes * p.energyRecover
  {
    assert minutes * p.energyRecover == (minutes - 1) * p.energyRecover + p.energyRecover;
    if minutes > 1 {
      TicksClosedForm(e, p, minutes - 1);
      assert 0 <= (minutes - 1) * p.energyRecover;
    } else {
      assert Ticks(e, p, 0) == e;
    }
  }

  // Lazy recovery is ticking once a minute, saturated at the maximum.
  lemma RecoverIsTicking(st: State, p: Rules, now: int)
    requires p.energyRecover >= 0
    ensures Recover(st, p, now).energy ==
            Ticks(st.energy, p, if now <= st.energyUpdatedAt then 0 else (now - st.energyUpdatedAt) / 60)
  {
    var elapsed := ElapsedMinutes(st, now);
    if elapsed > 0 { TicksClosedForm(st.energy, p, elapsed); }
  }

  lemma {:induction false} TicksAdd(e: int, p: Rules, a: nat, b: nat)
    ensures Ticks(e, p, a + b) == Ticks(Ticks(e, p, a), p, b)
  {
    if b > 0 { TicksAdd(e, p, a, b - 1); }
  }

  lemma {:induction false} TicksSaturated(p: Rules, minutes: nat)
    requires p.energyRecover >= 0
    ensures Ticks(p.energyMax, p, minutes) == p.energyMax
  {
    if minutes > 0 { TicksSaturated(p, minutes - 1); }
  }

  // Recovering on the way changes nothing, although reaching the maximum resets
  // the timestamp and with it the part of a minute already waited.
  lemma RecoverTwice(st: State, p: Rules, t1: int, t2: int)
    requires p.energyRecover >= 0 && t1 <= t2
    ensures Recover(Recover(st, p, t1), p, t2).energy == Recover(st, p, t2).energy
  {
    var mid := Recover(st, p, t1);
    RecoverIsTicking(st, p, t1);
    RecoverIsTicking(st, p, t2);
    RecoverIsTicking(mid, p, t2);
    var m1 := ElapsedMinutes(st, t1);
    if m1 > 0 {
      var m2 := ElapsedMinutes(st, t2);
      if mid.energyUpdatedAt == t1 && mid.energy == p.energyMax {
        TicksAdd(st.energy, p, m1, m2 - m1);
        TicksSaturated(p, m2 - m1);
        TicksSaturated(p, (t2 - t1) / 60);
      } else {
        assert mid.energyUpdatedAt == st.energyUpdatedAt + m1 * 60;
        assert (t2 - mid.energyUpdatedAt) / 60 == m2 - m1;
        TicksAdd(st.energy, p, m1, m2 - m1);
      }
    }
  }
}
