// The control service: a table of group rows and one of running states, changed
// by ShouldReply and OnReplied; and concurrent OnReplied calls as interleaved
// steps under the per-session lock.
module Control {
  import opened Options
  import opened ControlSpec
  import opened ControlConfig
  import opened ReplyRuns

  datatype Decision = Decision(reply: bool, reason: Reason)

  // What the service looks at in a message.
  datatype Incoming = Incoming(groupID: string, userID: string, mentioned: bool, chars: int)

  function SessionKey(groupID: string, userID: string): string
  {
    if groupID != "" then groupID else "private:" + userID
  }

  function StateOf(states: map<string, State>, key: string): State
  {
    if key in states then states[key] else FRESH
  }

  // Which database calls succeed.
  datatype Db = Db(readRow: bool, writeRow: bool, readState: bool, writeState: bool)

  // The answer to a message without a mention, with a mode and rules in effect:
  // an error if something needed cannot be read, "not triggered" outside auto
  // mode, else the verdict of the rules, for which the state is read only if the
  // message is long enough and comes outside the quiet hours.
  ghost predicate Answers(d: Option<Decision>, mode: string, p: Rules, st: State, now: int, minute: int,
                          msg: Incoming, db: Db)
  {
    if msg.groupID != "" && !db.readRow then d == None
    else if mode != "auto" then d == Some(Decision(false, NotTriggered))
    else
      exists reason | Judged(st, p, now, minute, msg.chars, reason) ::
        d == if reason != ShortMessage && reason != QuietHours && !db.readState then None
             else Some(Decision(reason == AutoPass, reason))
  }

  // The answer as ShouldReply computes it.
  function Verdict(r: Option<(string, Rules)>, st: State, now: int, minute: int, chars: int, readState: bool)
    : Option<Decision>
  {
    if r == None then None
    else if r.value.0 != AUTO then Some(Decision(false, NotTriggered))
    else
      var reason := AutoDecision(st, r.value.1, now, minute, chars);
      if reason != ShortMessage && reason != QuietHours && !readState then None
      else Some(Decision(reason == AutoPass, reason))
  }

  lemma VerdictAnswers(defaultMode: string, d: Rules, table: Table, st: State, msg: Incoming, now: int, minute: int,
                       db: Db, mode: string, p: Rules)
    requires WellFormed(d) && 0 <= minute < 1440
    requires InEffect(defaultMode, d, table, msg.groupID, mode, p)
    ensures var r := Resolve(defaultMode, d, table, msg.groupID, db.readRow, db.writeRow).0;
            Answers(Verdict(r, st, now, minute, msg.chars, db.readState), mode, p, st, now, minute, msg, db)
  {
    hide Resolve, AutoDecision, Judged, InEffect;
    ResolvesToEffect(defaultMode, d, table, msg.groupID, db.readRow, db.writeRow, mode, p);
    EffectIsWellFormed(defaultMode, d, table, msg.groupID, mode, p);
    AutoDecisionMeaning(st, p, now, minute, msg.chars);
  }

  lemma VerdictMeaning(defaultMode: string, d: Rules, table: Table, st: State, msg: Incoming, now: int, minute: int,
                       db: Db)
    ensures WellFormed(d) && 0 <= minute < 1440 ==>
              var r := Resolve(defaultMode, d, table, msg.groupID, db.readRow, db.writeRow).0;
              var verdict := Verdict(r, st, now, minute, msg.chars, db.readState);
              forall mode, p | InEffect(defaultMode, d, table, msg.groupID, mode, p) ::
                Answers(verdict, mode, p, st, now, minute, msg, db)
  {
    hide Resolve, Verdict, InEffect, Answers;
    if WellFormed(d) && 0 <= minute < 1440 {
      forall mode, p | InEffect(defaultMode, d, table, msg.groupID, mode, p) {
        VerdictAnswers(defaultMode, d, table, st, msg, now, minute, db, mode, p);
      }
    }
  }

  class ControlService {
    const defaultMode: string
    const defaults: Rules
    var table: Table
    var states: map<string, State>

    constructor (mode: string, cfg: StateConfig, table: Table, states: map<string, State>)
      ensures defaultMode == mode && defaults == NewRules(cfg) && this.table == table && this.states == states
      ensures WellFormed(defaults)
      ensures LaidOver(Rules(100, 10, 5, 20, 60, 5, 300, 23 * 60, 7 * 60, true, 4), cfg, defaults)
    {
      GlobalRules(cfg);
      this.defaultMode, this.defaults, this.table, this.states := mode, NewRules(cfg), table, states;
    }

    method ResolveParams(groupID: string, db: Db) returns (r: Option<(string, Rules)>)
      modifies this`table
      ensures (r, table) == Resolve(defaultMode, defaults, old(table), groupID, db.readRow, db.writeRow)
      ensures r == None <==> groupID != "" && !db.readRow
      ensures r.Some? ==> InEffect(defaultMode, defaults, old(table), groupID, r.value.0, r.value.1)
      ensures Gained(defaultMode, defaults, old(table), table,
                     if groupID != "" && db.readRow && db.writeRow then {groupID} else {})
    {
      ResolveMeaning(defaultMode, defaults, table, groupID, db.readRow, db.writeRow);
      if groupID == "" { return Some((defaultMode, defaults)); }
      if !db.readRow { return None; }
      if groupID in table {
        var row := table[groupID];
        var mode := defaultMode;
        if row.mode != "" { mode := row.mode; }
        return Some((NormalizeMode(mode), Merge(defaults, row.state)));
      }
      if db.writeRow { table := table[groupID := DefaultRow(defaultMode, defaults, groupID)]; }
      return Some((NormalizeMode(defaultMode), defaults));
    }

    // None is a database error. A mention is answered without looking at
    // anything; nothing but an auto-created row changes.
    method ShouldReply(msg: Incoming, now: int, minute: int, db: Db) returns (d: Option<Decision>)
      modifies this`table
      ensures msg.mentioned ==> d == Some(Decision(true, MentionForced)) && table == old(table)
      ensures !msg.mentioned ==>
        var (r, t) := Resolve(defaultMode, defaults, old(table), msg.groupID, db.readRow, db.writeRow);
        && table == t
        && d == Verdict(r, StateOf(states, SessionKey(msg.groupID, msg.userID)), now, minute, msg.chars, db.readState)
      ensures !msg.mentioned && WellFormed(defaults) && 0 <= minute < 1440 ==>
        forall mode, p | InEffect(defaultMode, defaults, old(table), msg.groupID, mode, p) ::
          Answers(d, mode, p, StateOf(states, SessionKey(msg.groupID, msg.userID)), now, minute, msg, db)
    {
      VerdictMeaning(defaultMode, defaults, table, StateOf(states, SessionKey(msg.groupID, msg.userID)),
                     msg, now, minute, db);
      if msg.mentioned { return Some(Decision(true, MentionForced)); }
      var r := ResolveParams(msg.groupID, db);
      if r == None { return None; }
      var (mode, p) := r.value;
      if mode != AUTO { return Some(Decision(false, NotTriggered)); }
      if msg.chars < p.shortChars { return Some(Decision(false, ShortMessage)); }
      if InQuietHours(p, minute) { return Some(Decision(false, QuietHours)); }
      if !db.readState { return None; }
      var st := Recover(StateOf(states, SessionKey(msg.groupID, msg.userID)), p, now);
      if st.energy < p.energyThreshold { return Some(Decision(false, LowEnergy)); }
      if now < st.restUntil || now < st.lastReplyAt + p.cooldown { return Some(Decision(false, Cooldown)); }
      return Some(Decision(true, AutoPass));
    }

    // One session's state takes the reply step, with the rules in effect, or
    // nothing changes.
    method OnReplied(msg: Incoming, now: int, db: Db) returns (ok: bool)
      modifies this
      ensures var key := SessionKey(msg.groupID, msg.userID);
              var (r, t) := Resolve(defaultMode, defaults, old(table), msg.groupID, db.readRow, db.writeRow);
              && table == t
              && (ok <==> r.Some? && (r.value.0 == MENTION || (db.readState && db.writeState)))
              && states == if ok && r.value.0 != MENTION
                           then old(states)[key := Replied(StateOf(old(states), key), r.value.1, now)]
                           else old(states)
      ensures forall mode, p | InEffect(defaultMode, defaults, old(table), msg.groupID, mode, p) ::
                && (ok <==> (msg.groupID == "" || db.readRow) && (mode == "mention" || (db.readState && db.writeState)))
                && states == if ok && mode != "mention"
                             then var key := SessionKey(msg.groupID, msg.userID);
                                  old(states)[key := Replied(StateOf(old(states), key), p, now)]
                             else old(states)
    {
      forall mode, p | InEffect(defaultMode, defaults, table, msg.groupID, mode, p) {
        ResolvesToEffect(defaultMode, defaults, table, msg.groupID, db.readRow, db.writeRow, mode, p);
      }
      var key := SessionKey(msg.groupID, msg.userID);
      var r := ResolveParams(msg.groupID, db);
      if r == None { return false; }
      var (mode, p) := r.value;
      if mode == MENTION { return true; }
      if !db.readState { return false; }
      var st := Recover(StateOf(states, key), p, now);
      if now >= st.restUntil {
        if now - st.lastReplyAt >= p.cooldown {
          st := st.(consecutive := 1);
        } else {
          st := st.(consecutive := st.consecutive + 1);
        }
        if st.consecutive >= p.consecutiveLimit {
          st := st.(restUntil := now + p.rest, consecutive := 0);
        }
      }
      st := st.(energy := st.energy - p.energyCost);
      if st.energy < 0 { st := st.(energy := 0); }
      st := st.(energyUpdatedAt := now, lastReplyAt := now);
      if !db.writeState { return false; }
      states := states[key := st];
      return true;
    }
  }

  // Keys of different sessions differ, as long as no group is called
  // "private:" and a user's number.
  lemma SessionKeysDiffer(g1: string, u1: string, g2: string, u2: string)
    ensures SessionKey(g1, u1) == SessionKey(g2, u2) <==>
            g1 == g2 != "" || (g1 == g2 == "" && u1 == u2)
            || (g1 == "" && g2 == "private:" + u1) || (g2 == "" && g1 == "private:" + u2)
  {
    if g1 == "" && g2 == "" && SessionKey(g1, u1) == SessionKey(g2, u2) {
      assert u1 == ("private:" + u1)[8..] && u2 == ("private:" + u2)[8..];
    }
  }

  // ---- Concurrent OnReplied calls ----

  // Where one call stands between its steps. st is what it has read.
  datatype Call =
    | Arrived(key: string)
    | Entered(key: string)
    | Loaded(key: string, st: State)
    | Leaving(key: string)

  // A reply written, newest last.
  datatype Entry = Entry(key: string, now: int)

  // stored is what the table of states held at the beginning.
  datatype Sys = Sys(stored: map<string, State>, states: map<string, State>, locked: set<string>,
                     calls: map<nat, Call>, written: seq<Entry>)

  datatype Step =
    | Arrive(c: nat, key: string)
    | Enter(c: nat)                      // takes the session's lock
    | Read(c: nat)
    | ReadFails(c: nat)
    | Write(c: nat, now: int)
    | WriteFails(c: nat)
    | Leave(c: nat)                      // gives the lock back
    | Restart                            // the process starts anew: no calls, no locks, the same table

  type RulesOf = string -> Rules

  ghost predicate Possible(s: Sys, e: Step)
  {
    match e
    case Arrive(c, _) => c !in s.calls
    case Enter(c) => c in s.calls && s.calls[c].Arrived? && s.calls[c].key !in s.locked
    case Read(c) => c in s.calls && s.calls[c].Entered?
    case ReadFails(c) => c in s.calls && s.calls[c].Entered?
    case Write(c, _) => c in s.calls && s.calls[c].Loaded?
    case WriteFails(c) => c in s.calls && s.calls[c].Loaded?
    case Leave(c) => c in s.calls && s.calls[c].Leaving?
    case Restart => true
  }

  ghost function Advance(s: Sys, rules: RulesOf, e: Step): Sys
    requires Possible(s, e)
  {
    match e
    case Arrive(c, key) => s.(calls := s.calls[c := Arrived(key)])
    case Enter(c) =>
      var key := s.calls[c].key;
      s.(locked := s.locked + {key}, calls := s.calls[c := Entered(key)])
    case Read(c) =>
      var key := s.calls[c].key;
      s.(calls := s.calls[c := Loaded(key, StateOf(s.states, key))])
    case ReadFails(c) => s.(calls := s.calls[c := Leaving(s.calls[c].key)])
    case Write(c, now) =>
      var key := s.calls[c].key;
      s.(states := s.states[key := Replied(s.calls[c].st, rules(key), now)],
         calls := s.calls[c := Leaving(key)], written := s.written + [Entry(key, now)])
    case WriteFails(c) => s.(calls := s.calls[c := Leaving(s.calls[c].key)])
    case Leave(c) => s.(locked := s.locked - {s.calls[c].key}, calls := s.calls - {c})
    case Restart => s.(locked := {}, calls := map[])
  }

  ghost function RunSteps(s: Sys, rules: RulesOf, es: seq<Step>): Option<Sys>
  {
    if es == [] then Some(s)
    else
      var before := RunSteps(s, rules, es[..|es| - 1]);
      var e := es[|es| - 1];
      if before.Some? && Possible(before.value, e) then Some(Advance(before.value, rules, e)) else None
  }

  // The sequential fold of the reply step over what was written for a session.
  ghost function Fold(st: State, written: seq<Entry>, rules: RulesOf, key: string): State
  {
    if written == [] then st
    else
      var n := |written| - 1;
      var before := Fold(st, written[..n], rules, key);
      if written[n].key == key then Replied(before, rules(key), written[n].now) else before
  }

  ghost predicate Holding(call: Call)
  {
    !call.Arrived?
  }

  ghost predicate LocksInv(s: Sys, rules: RulesOf)
  {
    && (forall c | c in s.calls && Holding(s.calls[c]) :: s.calls[c].key in s.locked)
    && (forall c, d | c in s.calls && d in s.calls && c != d && Holding(s.calls[c]) && Holding(s.calls[d]) ::
          s.calls[c].key != s.calls[d].key)
    && (forall key :: StateOf(s.states, key) == Fold(StateOf(s.stored, key), s.written, rules, key))
    && (forall c | c in s.calls && s.calls[c].Loaded? :: s.calls[c].st == StateOf(s.states, s.calls[c].key))
  }

  lemma StepKeepsLocksInv(s: Sys, rules: RulesOf, e: Step)
    requires LocksInv(s, rules) && Possible(s, e)
    ensures LocksInv(Advance(s, rules, e), rules)
  {
    if e.Write? {
      var s' := Advance(s, rules, e);
      assert s'.written[..|s.written|] == s.written;
      forall key ensures StateOf(s'.states, key) == Fold(StateOf(s.stored, key), s'.written, rules, key) {
        assert StateOf(s.states, key) == Fold(StateOf(s.stored, key), s.written, rules, key);
      }
    }
  }

  ghost function Begin(stored: map<string, State>): Sys { Sys(stored, stored, {}, map[], []) }

  // No update is lost: at every moment of every interleaving, over any table and
  // any number of restarts, each session's state is the fold of the reply step
  // over the replies written for it, in the order of their locks, and a call
  // that has read holds the current state.
  lemma {:induction false} NoLostUpdate(stored: map<string, State>, rules: RulesOf, es: seq<Step>)
    requires RunSteps(Begin(stored), rules, es).Some?
    ensures var s := RunSteps(Begin(stored), rules, es).value; s.stored == stored && LocksInv(s, rules)
  {
    if es != [] {
      NoLostUpdate(stored, rules, es[..|es| - 1]);
      StepKeepsLocksInv(RunSteps(Begin(stored), rules, es[..|es| - 1]).value, rules, es[|es| - 1]);
    }
  }

  // The moments of the replies written for a session.
  function TimesOf(written: seq<Entry>, key: string): seq<int>
  {
    if written == [] then []
    else
      var n := |written| - 1;
      TimesOf(written[..n], key) + if written[n].key == key then [written[n].now] else []
  }

  // So what ReplyRuns.dfy says of a sequence of replies holds of every session,
  // and its energy stays within the limits.
  lemma {:induction false} FoldIsSequential(st: State, written: seq<Entry>, rules: RulesOf, key: string)
    requires Positive(rules(key))
    ensures Fold(st, written, rules, key) == AfterFrom(st, rules(key), TimesOf(written, key))
    ensures EnergyInRange(st, rules(key)) ==> EnergyInRange(Fold(st, written, rules, key), rules(key))
  {
    if written != [] {
      var n := |written| - 1;
      FoldIsSequential(st, written[..n], rules, key);
      if written[n].key == key {
        var ts := TimesOf(written[..n], key);
        assert (ts + [written[n].now])[..|ts|] == ts;
        if EnergyInRange(st, rules(key)) {
          RepliedInRange(Fold(st, written[..n], rules, key), rules(key), written[n].now);
        }
      } else {
        assert TimesOf(written, key) == TimesOf(written[..n], key);
      }
    }
  }
}
