// What the pipeline's trace says about every message, whatever the collaborators
// answer: one line for its arrival and one for its end, replies recorded only
// once sent, everything filed under the session it belongs to.
module Ledger {
  import opened Options
  import opened Words
  import opened Scan
  import opened ReplyText
  import opened Pipeline
  import Control

  // The effects of a kind, in order.
  function Only(t: Trace, kind: Effect -> bool): Trace
  {
    match t
    case Start => Start
    case Then(before, e) => if kind(e) then Then(Only(before, kind), e) else Only(before, kind)
  }

  predicate Has(t: Trace, e: Effect)
  {
    t.Then? && (t.last == e || Has(t.before, e))
  }

  lemma OnlyAdds(kind: Effect -> bool)
    ensures forall t: Trace, e: Effect {:trigger Only(Then(t, e), kind)} ::
              Only(Then(t, e), kind) == if kind(e) then Then(Only(t, kind), e) else Only(t, kind)
  {
  }

  lemma {:induction false} NoneOfKind(t: Trace, kind: Effect -> bool)
    ensures Only(t, kind) == Start <==> forall e | Has(t, e) :: !kind(e)
  {
    if t.Then? {
      NoneOfKind(t.before, kind);
      assert Has(t, t.last);
    }
  }

  // ---- One entry line, one outcome line ----

  predicate IsLine(e: Effect) { e.EntryLine? || e.OutcomeLine? }

  // How a message ends; None is the silent end of a message that was cancelled
  // or could not be stored.
  function Ending(c: Config, w: World, m: Message): Option<Outcome>
  {
    if !w.granted then if w.cancelled then None else Some(RateLimited)
    else if Found(c, m).1 then Some(Sensitive)
    else if w.persist.None? then None
    else match ParseCommand(c, m.text)
      case Some((cmd, _)) => Some(CommandEnding(w, cmd))
      case None =>
        Some(if w.decide.None? then ControlError
             else if !w.decide.value.reply then NotTriggered
             else if !w.sender then NoSender
             else if !w.prompt then PromptFail
             else if w.agent.None? then AgentFail
             else if c.trim(Stripped(w.agent.value)) == [] then EmptyReply
             else if !w.send then SendFail
             else AgentReplied)
  }

  function CommandEnding(w: World, cmd: Word): Outcome
  {
    if cmd == HELP || w.plugin.Done? then Command
    else if w.plugin.Unknown? then CommandNotFound
    else CommandError
  }

  function Ended(t: Trace, o: Option<Outcome>): Trace
  {
    if o.Some? then Then(t, OutcomeLine(o.value)) else t
  }

  // The trace of a message that got past the gate and was stored.
  function Stored(w: World, m: Message, t: Trace): Trace
    requires w.persist.Some?
  {
    IfFull(w.persist.value, m, Then(Then(t, EntryLine), Persist(Key(m), false, m.text, true)))
  }

  predicate IsStored(c: Config, w: World, m: Message) { w.granted && !Found(c, m).1 && w.persist.Some? }

  lemma {:induction false} ExecutedAddsNone(actions: seq<string>, w: World, i: nat, t: Trace, kind: Effect -> bool)
    requires i <= |actions| && forall e: Effect | e.Execute? :: !kind(e)
    ensures Only(Executed(actions, w, i, t), kind) == Only(t, kind)
    decreases |actions| - i
  {
    if i < |actions| {
      OnlyAdds(kind);
      var u := Then(t, Execute(actions[i], w.execute(i)));
      if w.execute(i) { ExecutedAddsNone(actions, w, i + 1, u, kind); }
    }
  }

  lemma CommandLines(w: World, cmd: Word, args: seq<Word>, t: Trace)
    ensures Only(RunCommand(w, cmd, args, t), IsLine) == Then(Only(t, IsLine), OutcomeLine(CommandEnding(w, cmd)))
  {
    OnlyAdds(IsLine);
    if cmd != HELP && w.plugin.Done? && w.manager {
      var v := SendReply(w, w.plugin.reply, Then(Then(t, Dispatch(cmd, args)), OutcomeLine(Command)));
      ExecutedAddsNone(w.plugin.actions, w, 0, v, IsLine);
    }
  }

  lemma GeneratedLines(c: Config, w: World, m: Message, t: Trace)
    ensures Only(Generated(c, w, m, t), IsLine) ==
            Then(Only(t, IsLine), OutcomeLine(if w.agent.None? then AgentFail
                                              else if c.trim(Stripped(w.agent.value)) == [] then EmptyReply
                                              else if !w.send then SendFail
                                              else AgentReplied))
  {
    OnlyAdds(IsLine);
  }

  lemma RespondLines(c: Config, w: World, m: Message, t: Trace)
    requires IsStored(c, w, m) && ParseCommand(c, m.text).None?
    ensures Only(Respond(c, w, m, t), IsLine) == Then(Only(t, IsLine), OutcomeLine(Ending(c, w, m).value))
  {
    OnlyAdds(IsLine);
    GeneratedLines(c, w, m, Then(Then(t, Decide), BuildPrompt));
  }

  // Exactly one entry line, first, and exactly one outcome line, the right one;
  // none exactly when the caller gave up during the wait or the message could
  // not be stored.
  lemma LedgerIsExact(c: Config, w: World, m: Message, t: Trace)
    ensures Only(Handle(c, w, m, t).trace, IsLine) == Ended(Then(Only(t, IsLine), EntryLine), Ending(c, w, m))
    ensures Ending(c, w, m).None? <==> Handle(c, w, m, t).err in {CancelledError, PersistError}
    ensures Ending(c, w, m).None? <==>
            (!w.granted && w.cancelled) || (w.granted && !Found(c, m).1 && w.persist.None?)
  {
    OnlyAdds(IsLine);
    if IsStored(c, w, m) {
      var u := Stored(w, m, t);
      assert Only(u, IsLine) == Then(Only(t, IsLine), EntryLine);
      match ParseCommand(c, m.text) {
        case Some((cmd, args)) => CommandLines(w, cmd, args, u);
        case None => RespondLines(c, w, m, u);
      }
    }
  }

  predicate IsEntry(e: Effect) { e.EntryLine? }

  predicate IsOutcome(e: Effect) { e.OutcomeLine? }

  function Size(t: Trace): nat { if t.Start? then 0 else Size(t.before) + 1 }

  // Message after message.
  function HandleAll(c: Config, jobs: seq<(World, Message)>): Trace
  {
    if jobs == [] then Start
    else
      var (w, m) := jobs[|jobs| - 1];
      Handle(c, w, m, HandleAll(c, jobs[..|jobs| - 1])).trace
  }

  // How many messages end in silence.
  function Silent(c: Config, jobs: seq<(World, Message)>): nat
  {
    if jobs == [] then 0
    else
      var (w, m) := jobs[|jobs| - 1];
      Silent(c, jobs[..|jobs| - 1]) + if Ending(c, w, m).None? then 1 else 0
  }

  lemma {:induction false} OnlyLines(t: Trace, kind: Effect -> bool)
    requires forall e | kind(e) :: IsLine(e)
    ensures Only(Only(t, IsLine), kind) == Only(t, kind)
  {
    if t.Then? { OnlyLines(t.before, kind); }
  }

  // The books of the log balance: as many entry lines as messages, and as many
  // outcome lines as messages that do not end in silence.
  lemma {:induction false} LogBalances(c: Config, jobs: seq<(World, Message)>)
    ensures Size(Only(HandleAll(c, jobs), IsEntry)) == |jobs|
    ensures Size(Only(HandleAll(c, jobs), IsOutcome)) == |jobs| - Silent(c, jobs)
  {
    if jobs != [] {
      var (w, m) := jobs[|jobs| - 1];
      var before := HandleAll(c, jobs[..|jobs| - 1]);
      LogBalances(c, jobs[..|jobs| - 1]);
      OneMoreBalances(c, w, m, before);
    }
  }

  lemma OneMoreBalances(c: Config, w: World, m: Message, t: Trace)
    ensures var u := Handle(c, w, m, t).trace;
            && Size(Only(u, IsEntry)) == Size(Only(t, IsEntry)) + 1
            && Size(Only(u, IsOutcome)) == Size(Only(t, IsOutcome)) + if Ending(c, w, m).None? then 0 else 1
  {
    hide Handle;
    var u := Handle(c, w, m, t).trace;
    LedgerIsExact(c, w, m, t);
    OnlyLines(t, IsEntry);
    OnlyLines(t, IsOutcome);
    OnlyLines(u, IsEntry);
    OnlyLines(u, IsOutcome);
    OnlyAdds(IsEntry);
    OnlyAdds(IsOutcome);
  }

  // ---- Replies ----

  predicate IsReplyStep(e: Effect) { e.Send? || e.OnReplied? || (e.Persist? && e.byBot) }

  predicate IsBookkeeping(e: Effect) { e.OnReplied? || (e.Persist? && e.byBot) }

  // A kind that commands have nothing of.
  ghost predicate NotOfCommands(kind: Effect -> bool)
  {
    forall e: Effect | e.Dispatch? || e.OutcomeLine? || e.Send? || e.Execute? :: !kind(e)
  }

  lemma CommandAddsNone(w: World, cmd: Word, args: seq<Word>, t: Trace, kind: Effect -> bool)
    requires NotOfCommands(kind)
    ensures Only(RunCommand(w, cmd, args, t), kind) == Only(t, kind)
  {
    OnlyAdds(kind);
    if cmd != HELP && w.plugin.Done? && w.manager {
      var v := SendReply(w, w.plugin.reply, Then(Then(t, Dispatch(cmd, args)), OutcomeLine(Command)));
      ExecutedAddsNone(w.plugin.actions, w, 0, v, kind);
    }
  }

  predicate IsAnswered(c: Config, w: World)
  {
    w.agent.Some? && c.trim(Stripped(w.agent.value)) != [] && w.send
  }

  function BooksKept(c: Config, w: World, m: Message, t: Trace): Trace
    requires w.agent.Some?
  {
    Then(Then(t, Persist(Key(m), true, Stripped(w.agent.value), w.persistReply.Some?)), OnReplied(w.record))
  }

  lemma GeneratedBooks(c: Config, w: World, m: Message, t: Trace)
    ensures Only(Generated(c, w, m, t), IsBookkeeping) ==
            if IsAnswered(c, w) then BooksKept(c, w, m, Only(t, IsBookkeeping)) else Only(t, IsBookkeeping)
  {
    OnlyAdds(IsBookkeeping);
  }

  lemma RespondBooks(c: Config, w: World, m: Message, t: Trace)
    requires IsStored(c, w, m) && ParseCommand(c, m.text).None?
    ensures Only(Respond(c, w, m, t), IsBookkeeping) ==
            if Ending(c, w, m) == Some(AgentReplied) then BooksKept(c, w, m, Only(t, IsBookkeeping))
            else Only(t, IsBookkeeping)
  {
    OnlyAdds(IsBookkeeping);
    GeneratedBooks(c, w, m, Then(Then(t, Decide), BuildPrompt));
  }

  // The reply is counted (OnReplied) once and stored once exactly when the
  // message ends as agent_replied; otherwise neither happens.
  lemma BooksAreKeptOnlyForReplies(c: Config, w: World, m: Message, t: Trace)
    ensures Only(Handle(c, w, m, t).trace, IsBookkeeping) ==
            if Ending(c, w, m) == Some(AgentReplied) then BooksKept(c, w, m, Only(t, IsBookkeeping))
            else Only(t, IsBookkeeping)
  {
    OnlyAdds(IsBookkeeping);
    if IsStored(c, w, m) {
      var u := Stored(w, m, t);
      assert Only(u, IsBookkeeping) == Only(t, IsBookkeeping);
      match ParseCommand(c, m.text) {
        case Some((cmd, args)) => CommandAddsNone(w, cmd, args, u, IsBookkeeping);
        case None => RespondBooks(c, w, m, u);
      }
    }
  }

  lemma GeneratedSends(c: Config, w: World, m: Message, t: Trace)
    requires IsAnswered(c, w)
    ensures Only(Generated(c, w, m, t), IsReplyStep) ==
            var text := Stripped(w.agent.value);
            BooksKept(c, w, m, Then(Only(t, IsReplyStep), Send(AgentReply(m, text), true)))
  {
    OnlyAdds(IsReplyStep);
  }

  // Around a reply the order is: sent successfully, stored, counted. What is
  // sent mentions the sender exactly in groups, starts with no tag and is not blank.
  lemma CountedAfterSend(c: Config, w: World, m: Message, t: Trace)
    requires Ending(c, w, m) == Some(AgentReplied)
    ensures var text := Stripped(w.agent.value);
            && Only(Handle(c, w, m, t).trace, IsReplyStep) ==
               BooksKept(c, w, m, Then(Only(t, IsReplyStep), Send(AgentReply(m, text), true)))
            && !StartsWithTag(text) && c.trim(text) != []
            && (AgentReply(m, text).at == "sender" <==> m.messageType == "group")
  {
    OnlyAdds(IsReplyStep);
    StrippedHasNoTag(w.agent.value);
    var u := Stored(w, m, t);
    assert Only(u, IsReplyStep) == Only(t, IsReplyStep);
    GeneratedSends(c, w, m, Then(Then(u, Decide), BuildPrompt));
  }

  // ---- Where things are filed ----

  // Stored or compressed for a session other than key.
  function Misfiled(key: string): Effect -> bool
  {
    (e: Effect) => (e.Persist? || e.Compress?) && e.session != key
  }

  // A kind that answering m adds nothing of.
  ghost predicate NotOfReplies(kind: Effect -> bool, m: Message)
  {
    && (forall e: Effect ::
          e.Decide? || e.BuildPrompt? || e.Generate? || e.Send? || e.OutcomeLine? || e.OnReplied? ==> !kind(e))
    && (forall text, ok :: !kind(Persist(Key(m), true, text, ok)))
    && !kind(Compress(Key(m)))
  }

  lemma GeneratedAddsNone(c: Config, w: World, m: Message, t: Trace, kind: Effect -> bool)
    requires NotOfReplies(kind, m)
    ensures Only(Generated(c, w, m, t), kind) == Only(t, kind)
  {
    OnlyAdds(kind);
  }

  lemma RespondAddsNone(c: Config, w: World, m: Message, t: Trace, kind: Effect -> bool)
    requires NotOfReplies(kind, m)
    ensures Only(Respond(c, w, m, t), kind) == Only(t, kind)
  {
    OnlyAdds(kind);
    GeneratedAddsNone(c, w, m, Then(Then(t, Decide), BuildPrompt), kind);
  }

  // What neither commands nor replies add is as it was when the message was stored.
  lemma TailAddsNone(c: Config, w: World, m: Message, kind: Effect -> bool)
    requires IsStored(c, w, m) && NotOfCommands(kind) && NotOfReplies(kind, m)
    ensures Only(Handle(c, w, m, Start).trace, kind) == Only(Stored(w, m, Start), kind)
  {
    var u := Stored(w, m, Start);
    match ParseCommand(c, m.text) {
      case Some((cmd, args)) => CommandAddsNone(w, cmd, args, u, kind);
      case None => RespondAddsNone(c, w, m, u, kind);
    }
  }

  // The message, the reply to it and any compression they start belong to the
  // session of the message that came in.
  lemma EverythingIsFiledUnderTheTrigger(c: Config, w: World, m: Message, e: Effect)
    requires Has(Handle(c, w, m, Start).trace, e) && (e.Persist? || e.Compress?)
    ensures e.session == Key(m)
  {
    var kind := Misfiled(Key(m));
    OnlyAdds(kind);
    if IsStored(c, w, m) { TailAddsNone(c, w, m, kind); }
    NoneOfKind(Handle(c, w, m, Start).trace, kind);
    assert !kind(e);
  }

  // In a private chat the bot's own session key would have been another one.
  lemma OwnKeyWouldStray(m: Message, botID: string)
    requires m.groupID == "" && botID != m.userID
    ensures Control.SessionKey(m.groupID, botID) != Key(m)
  {
    var a, b := "private:" + botID, "private:" + m.userID;
    assert a[8..] == botID && b[8..] == m.userID;
  }

  // ---- The gate ----

  predicate IsWork(e: Effect) { !IsLine(e) }

  function Exactly(x: Effect): Effect -> bool { (e: Effect) => e == x }

  // Behind the gate a message is stored, once; in front of it nothing happens.
  lemma GateIsTight(c: Config, w: World, m: Message)
    ensures var stored := Persist(Key(m), false, m.text, w.persist.Some?);
            var trace := Handle(c, w, m, Start).trace;
            if w.granted && !Found(c, m).1 then Only(trace, Exactly(stored)) == Then(Start, stored)
            else Only(trace, IsWork) == Start
  {
    var kind := Exactly(Persist(Key(m), false, m.text, w.persist.Some?));
    OnlyAdds(IsWork);
    OnlyAdds(kind);
    if IsStored(c, w, m) { TailAddsNone(c, w, m, kind); }
  }

  // A message is stopped if and only if the last hit in it does not seem to
  // start before the text, whatever the words.
  lemma BlockedIffLastHitFits(c: Config, w: World, m: Message)
    requires w.granted
    ensures var t := c.lower(m.text);
            Ending(c, w, m) == Some(Sensitive) <==>
            exists l :: LastHit(c.words, c.lower, t, l) && Computed(c.words, c.lower, t, l) >= 0
  {
    FoundIffLastHitFits(c.words, c.lower, c.lower(m.text));
  }

  // So only messages in which a configured word occurs are stopped, and such a
  // message is stopped if and only if its last hit does not seem to start before
  // it, as is the case when no spelling is longer than its lowered form.
  lemma BlockedIffAWordOccurs(c: Config, w: World, m: Message)
    requires NonErasing(c.words, c.lower) && w.granted
    ensures var t := c.lower(m.text);
            && (Ending(c, w, m) == Some(Sensitive) ==> SomethingOccurs(c.words, c.lower, t))
            && (SomethingOccurs(c.words, c.lower, t) ==>
                  (Ending(c, w, m) == Some(Sensitive) <==>
                   forall l | LastHit(c.words, c.lower, t, l) :: Computed(c.words, c.lower, t, l) >= 0))
            && (NoneShrinks(c.words, c.lower) ==>
                  (Ending(c, w, m) == Some(Sensitive) <==> SomethingOccurs(c.words, c.lower, t)))
  {
    var t := c.lower(m.text);
    BlockedIffLastHitFits(c, w, m);
    if l :| LastHit(c.words, c.lower, t, l) {
      var s := HitIsOccurrence(c.words, c.lower, t, l);
    } else if s, e :| Occurs(c.words, c.lower, t, s, e) {
      OccurrenceIsHit(c.words, c.lower, t, s, e);
      var l := LastHitExists(c.words, c.lower, t, e);
    }
    if NoneShrinks(c.words, c.lower) { FoundWhenNoneShrinks(c.words, c.lower, t); }
  }

  // The outcome of the filter is the plain search's, word included, if and only
  // if the word of the leftmost-longest occurrence survives the scan.
  lemma BlockedAsThePlainSearchIff(c: Config, w: World, m: Message, t: Trace)
    requires NonErasing(c.words, c.lower) && w.granted
    ensures var (word, ok) := NaiveFind(c.words, c.lower, c.lower(m.text));
            var err := Handle(c, w, m, t).err;
            (if ok then err == SensitiveWordError(word) else !err.SensitiveWordError?) <==>
            LeftmostWordSurvives(c.words, c.lower, c.lower(m.text))
  {
    AnswerIsRightIff(c.words, c.lower, c.lower(m.text));
    NotFoundIsNoWord(c, m);
  }

  lemma NotFoundIsNoWord(c: Config, m: Message)
    requires NonErasing(c.words, c.lower)
    ensures var (word, ok) := NaiveFind(c.words, c.lower, c.lower(m.text));
            !ok ==> word == [] && Found(c, m) == ([], false)
  {
    var t := c.lower(m.text);
    if s0, e0 :| Occurs(c.words, c.lower, t, s0, e0) {
      var s, e := LeftmostExists(c.words, c.lower, t, s0, e0);
      NaiveFinds(c.words, c.lower, t, s, e);
    } else {
      NaiveMisses(c.words, c.lower, t);
      AnswerIsRightIff(c.words, c.lower, t);
      assert LeftmostWordSurvives(c.words, c.lower, t);
    }
  }

  // Only messages that are no command are judged; only the others reach a plugin.
  predicate IsJudged(e: Effect) { e.Decide? || e.BuildPrompt? || e.Generate? || e.OnReplied? }

  predicate IsPlugged(e: Effect) { e.Dispatch? || e.Execute? }

  lemma CommandsAreNotJudged(c: Config, w: World, m: Message)
    requires IsStored(c, w, m) && ParseCommand(c, m.text).Some?
    ensures Only(Handle(c, w, m, Start).trace, IsJudged) == Start
  {
    OnlyAdds(IsJudged);
    var (cmd, args) := ParseCommand(c, m.text).value;
    CommandAddsNone(w, cmd, args, Stored(w, m, Start), IsJudged);
  }

  lemma OthersReachNoPlugin(c: Config, w: World, m: Message)
    requires IsStored(c, w, m) && ParseCommand(c, m.text).None?
    ensures Only(Handle(c, w, m, Start).trace, IsPlugged) == Start
    ensures Only(Handle(c, w, m, Start).trace, Exactly(Decide)) == Then(Start, Decide)
  {
    OnlyAdds(IsPlugged);
    OnlyAdds(Exactly(Decide));
    RespondAddsNone(c, w, m, Stored(w, m, Start), IsPlugged);
    RespondDecides(c, w, m, Stored(w, m, Start));
  }

  lemma RespondDecides(c: Config, w: World, m: Message, t: Trace)
    ensures Only(Respond(c, w, m, t), Exactly(Decide)) == Then(Only(t, Exactly(Decide)), Decide)
  {
    OnlyAdds(Exactly(Decide));
    GeneratedDecidesNothing(c, w, m, Then(Then(t, Decide), BuildPrompt));
  }

  lemma GeneratedDecidesNothing(c: Config, w: World, m: Message, t: Trace)
    ensures Only(Generated(c, w, m, t), Exactly(Decide)) == Only(t, Exactly(Decide))
  {
    OnlyAdds(Exactly(Decide));
  }

  // ---- A plugin's actions ----

  function ToSeq(t: Trace): seq<Effect>
  {
    if t.Start? then [] else ToSeq(t.before) + [t.last]
  }

  // Of the actions a first stretch is executed: all of it but the last
  // succeeded, and it ends early only at a failure.
  lemma {:induction false} ActionsStopAtFirstFailure(actions: seq<string>, w: World, i: nat, t: Trace) returns (k: nat)
    requires i <= |actions|
    ensures i <= k <= |actions|
    ensures ToSeq(Executed(actions, w, i, t)) ==
            ToSeq(t) + seq(k - i, j requires 0 <= j < k - i => Execute(actions[i + j], w.execute(i + j)))
    ensures forall j | i <= j < k - 1 :: w.execute(j)
    ensures k < |actions| ==> i < k && !w.execute(k - 1)
    decreases |actions| - i
  {
    if i == |actions| { return i; }
    var u := Then(t, Execute(actions[i], w.execute(i)));
    if !w.execute(i) { return i + 1; }
    k := ActionsStopAtFirstFailure(actions, w, i + 1, u);
  }

  // ---- What is a command, and what becomes of it ----

  // The trimmed text starts with a slash, and a field follows it.
  ghost predicate IsCommand(c: Config, text: Word)
  {
    var s := c.trim(text);
    s != [] && s[0] == 0x2F && c.fields(s[1..]) != []
  }

  // The fields behind the slash: the command and its arguments.
  ghost function Fields(c: Config, text: Word): seq<Word>
    requires IsCommand(c, text)
  {
    c.fields(c.trim(text)[1..])
  }

  lemma ParseMeaning(c: Config, text: Word)
    requires c.fields([]) == []
    ensures ParseCommand(c, text) ==
            if IsCommand(c, text) then Some((Fields(c, text)[0], Fields(c, text)[1..])) else None
  {
    var s := c.trim(text);
    if |s| == 1 { assert s[1..] == []; }
  }

  // Commands, and nothing else, go to a plugin, once, with their fields; "help"
  // does not. The others, and only they, are judged.
  lemma CommandsReachThePlugin(c: Config, w: World, m: Message)
    requires IsStored(c, w, m) && c.fields([]) == []
    ensures var trace := Handle(c, w, m, Start).trace;
            && Only(trace, IsDispatch) ==
               (if IsCommand(c, m.text) && Fields(c, m.text)[0] != HelpWord()
                then Then(Start, Dispatch(Fields(c, m.text)[0], Fields(c, m.text)[1..]))
                else Start)
            && Only(trace, Exactly(Decide)) == (if IsCommand(c, m.text) then Start else Then(Start, Decide))
  {
    OnlyAdds(IsDispatch);
    OnlyAdds(Exactly(Decide));
    ParseMeaning(c, m.text);
    var u := Stored(w, m, Start);
    match ParseCommand(c, m.text) {
      case Some((cmd, args)) =>
        CommandDispatches(w, cmd, args, u);
        CommandAddsNone(w, cmd, args, u, Exactly(Decide));
      case None =>
        RespondAddsNone(c, w, m, u, IsDispatch);
        RespondDecides(c, w, m, u);
    }
  }

  predicate IsDispatch(e: Effect) { e.Dispatch? }

  // "help", as bytes.
  function HelpWord(): Word { [0x68, 0x65, 0x6C, 0x70] }

  lemma CommandDispatches(w: World, cmd: Word, args: seq<Word>, t: Trace)
    ensures Only(RunCommand(w, cmd, args, t), IsDispatch) ==
            if cmd == HelpWord() then Only(t, IsDispatch) else Then(Only(t, IsDispatch), Dispatch(cmd, args))
  {
    OnlyAdds(IsDispatch);
    if cmd != HELP && w.plugin.Done? && w.manager {
      var v := SendReply(w, w.plugin.reply, Then(Then(t, Dispatch(cmd, args)), OutcomeLine(Command)));
      ExecutedAddsNone(w.plugin.actions, w, 0, v, IsDispatch);
    }
  }

  predicate IsCommandStep(e: Effect) { e.Dispatch? || e.Send? || e.Execute? }

  // The effects of a kind stay the effects of that kind while actions are executed.
  lemma {:induction false} OnlyExecuted(actions: seq<string>, w: World, i: nat, t: Trace, kind: Effect -> bool)
    requires i <= |actions| && forall e: Effect | e.Execute? :: kind(e)
    ensures Only(Executed(actions, w, i, t), kind) == Executed(actions, w, i, Only(t, kind))
    decreases |actions| - i
  {
    if i < |actions| {
      OnlyAdds(kind);
      var u := Then(t, Execute(actions[i], w.execute(i)));
      if w.execute(i) { OnlyExecuted(actions, w, i + 1, u, kind); }
    }
  }

  // The answer that a command has: the help text, or the plugin's reply if it gave one.
  ghost predicate AnswerTo(w: World, cmd: Word, r: Option<Reply>)
  {
    if cmd == HelpWord() then r == Some(Reply("", [w.help]))
    else if w.plugin.Done? then r == w.plugin.reply
    else r == None
  }

  // Of a command: first the plugin is called, unless it asks for help; then its
  // answer is sent, once, if it has one and there is a sender; then the
  // plugin's actions are executed, up to the first that fails, if there is a
  // manager. Nothing else is sent or executed.
  lemma CommandsAreAnswered(c: Config, w: World, m: Message, r: Option<Reply>) returns (k: nat)
    requires IsStored(c, w, m) && c.fields([]) == [] && IsCommand(c, m.text)
    requires AnswerTo(w, Fields(c, m.text)[0], r)
    ensures var (cmd, args) := (Fields(c, m.text)[0], Fields(c, m.text)[1..]);
            var acts := cmd != HelpWord() && w.plugin.Done? && w.manager;
            && k <= (if acts then |w.plugin.actions| else 0)
            && ToSeq(Only(Handle(c, w, m, Start).trace, IsCommandStep)) ==
               (if cmd == HelpWord() then [] else [Dispatch(cmd, args)])
               + (if w.sender && r.Some? then [Send(r.value, w.send)] else [])
               + seq(k, j requires 0 <= j < k => Execute(w.plugin.actions[j], w.execute(j)))
            && (forall j | 0 <= j < k - 1 :: w.execute(j))
            && (acts && k < |w.plugin.actions| ==> k > 0 && !w.execute(k - 1))
  {
    OnlyAdds(IsCommandStep);
    ParseMeaning(c, m.text);
    var cmd, args := Fields(c, m.text)[0], Fields(c, m.text)[1..];
    var u := Stored(w, m, Start);
    assert Only(u, IsCommandStep) == Start;
    k := CommandSteps(w, cmd, args, u, r);
  }

  lemma CommandSteps(w: World, cmd: Word, args: seq<Word>, u: Trace, r: Option<Reply>) returns (k: nat)
    requires Only(u, IsCommandStep) == Start && AnswerTo(w, cmd, r)
    ensures var acts := cmd != HelpWord() && w.plugin.Done? && w.manager;
            && k <= (if acts then |w.plugin.actions| else 0)
            && ToSeq(Only(RunCommand(w, cmd, args, u), IsCommandStep)) ==
               (if cmd == HelpWord() then [] else [Dispatch(cmd, args)])
               + (if w.sender && r.Some? then [Send(r.value, w.send)] else [])
               + seq(k, j requires 0 <= j < k => Execute(w.plugin.actions[j], w.execute(j)))
            && (forall j | 0 <= j < k - 1 :: w.execute(j))
            && (acts && k < |w.plugin.actions| ==> k > 0 && !w.execute(k - 1))
  {
    OnlyAdds(IsCommandStep);
    k := 0;
    if cmd != HELP && w.plugin.Done? {
      var v := SendReply(w, w.plugin.reply, Then(Then(u, Dispatch(cmd, args)), OutcomeLine(Command)));
      var sent := Only(v, IsCommandStep);
      assert ToSeq(Then(Start, Dispatch(cmd, args))) == [Dispatch(cmd, args)];
      assert ToSeq(sent) == [Dispatch(cmd, args)] + if w.sender && r.Some? then [Send(r.value, w.send)] else [];
      if w.manager {
        var actions := w.plugin.actions;
        OnlyExecuted(actions, w, 0, v, IsCommandStep);
        k := ActionsStopAtFirstFailure(actions, w, 0, sent);
        assert seq(k - 0, j requires 0 <= j < k - 0 => Execute(actions[0 + j], w.execute(0 + j))) ==
               seq(k, j requires 0 <= j < k => Execute(actions[j], w.execute(j)));
      }
    }
  }

  // ---- Compressing ----

  // e stored something, and the answer was that the window is full now.
  predicate ReportsFull(w: World, e: Effect)
  {
    e.Persist? && (if e.byBot then w.persistReply else w.persist) == Some(true)
  }

  // Effect i is a compression exactly if the one before it reports a full window.
  ghost predicate InTurn(w: World, effects: seq<Effect>, i: nat)
  {
    (i < |effects| && effects[i].Compress?) <==> (0 < i <= |effects| && ReportsFull(w, effects[i - 1]))
  }

  // The same, told from the latest effect; open if it is one that awaits its compression.
  ghost predicate Compressing(w: World, t: Trace, open: bool)
  {
    match t
    case Start => !open
    case Then(before, e) => open == ReportsFull(w, e) && Compressing(w, before, e.Compress?)
  }

  lemma {:induction false} CompressingMeaning(w: World, t: Trace, open: bool)
    requires Compressing(w, t, open)
    ensures open <==> t.Then? && ReportsFull(w, t.last)
    ensures forall i: nat | i < |ToSeq(t)| :: InTurn(w, ToSeq(t), i)
  {
    if t.Then? {
      CompressingMeaning(w, t.before, t.last.Compress?);
      var before, es := ToSeq(t.before), ToSeq(t);
      assert es == before + [t.last];
      forall i: nat | i < |es| ensures InTurn(w, es, i) {
        if i < |before| {
          assert InTurn(w, before, i) && es[i] == before[i] && (i > 0 ==> es[i - 1] == before[i - 1]);
        } else {
          assert es[i] == t.last && (i > 0 ==> es[i - 1] == t.before.last);
        }
      }
    }
  }

  lemma {:induction false} ExecutedCompressing(actions: seq<string>, w: World, i: nat, t: Trace)
    requires i <= |actions| && Compressing(w, t, false)
    ensures Compressing(w, Executed(actions, w, i, t), false)
    decreases |actions| - i
  {
    if i < |actions| && w.execute(i) {
      ExecutedCompressing(actions, w, i + 1, Then(t, Execute(actions[i], w.execute(i))));
    }
  }

  lemma CommandCompressing(w: World, cmd: Word, args: seq<Word>, t: Trace)
    requires Compressing(w, t, false)
    ensures Compressing(w, RunCommand(w, cmd, args, t), false)
  {
    if cmd != HELP && w.plugin.Done? && w.manager {
      var v := SendReply(w, w.plugin.reply, Then(Then(t, Dispatch(cmd, args)), OutcomeLine(Command)));
      ExecutedCompressing(w.plugin.actions, w, 0, v);
    }
  }

  lemma RecordedCompressing(w: World, m: Message, reply: Word, t: Trace)
    requires Compressing(w, t, false)
    ensures Compressing(w, Recorded(w, m, reply, t), false)
  {
    var u := Then(t, Persist(Key(m), true, reply, w.persistReply.Some?));
    assert Compressing(w, u, w.persistReply == Some(true));
  }

  lemma RespondCompressing(c: Config, w: World, m: Message, t: Trace)
    requires Compressing(w, t, false)
    ensures Compressing(w, Respond(c, w, m, t), false)
  {
    hide Recorded;
    var u := Then(Then(t, Decide), BuildPrompt);
    assert Compressing(w, u, false) && Compressing(w, Then(u, Generate), false);
    if w.agent.Some? {
      var text := Stripped(w.agent.value);
      var v := Then(Then(u, Generate), Send(AgentReply(m, text), true));
      assert Compressing(w, v, false);
      RecordedCompressing(w, m, text, v);
    }
  }

  // Storing the message or the reply compresses the window right afterwards if
  // and only if it was reported full; nothing else does.
  lemma FullWindowsAreCompressed(c: Config, w: World, m: Message)
    ensures forall i: nat :: InTurn(w, ToSeq(Handle(c, w, m, Start).trace), i)
  {
    var t := Handle(c, w, m, Start).trace;
    if IsStored(c, w, m) {
      var u := Stored(w, m, Start);
      var stored := Then(Then(Start, EntryLine), Persist(Key(m), false, m.text, true));
      assert Compressing(w, stored, w.persist == Some(true));
      assert Compressing(w, u, false);
      match ParseCommand(c, m.text) {
        case Some((cmd, args)) => CommandCompressing(w, cmd, args, u);
        case None => RespondCompressing(c, w, m, u);
      }
    }
    assert Compressing(w, t, false);
    CompressingMeaning(w, t, false);
  }

  // ---- The way to a reply ----

  predicate IsStage(e: Effect) { e.Decide? || e.BuildPrompt? || e.Generate? }

  // Of a message that is no command: it is judged; the prompt is built exactly
  // if the verdict is to reply and there is a sender; the model is asked
  // exactly if that worked. Each happens once, in this order.
  lemma StagesOfAReply(c: Config, w: World, m: Message)
    requires IsStored(c, w, m) && c.fields([]) == [] && !IsCommand(c, m.text)
    ensures var willing := w.decide.Some? && w.decide.value.reply && w.sender;
            ToSeq(Only(Handle(c, w, m, Start).trace, IsStage)) ==
            [Decide] + (if willing then [BuildPrompt] else []) + (if willing && w.prompt then [Generate] else [])
  {
    OnlyAdds(IsStage);
    ParseMeaning(c, m.text);
    var u := Stored(w, m, Start);
    assert Only(u, IsStage) == Start;
    GeneratedStages(c, w, m, Then(Then(u, Decide), BuildPrompt));
  }

  lemma GeneratedStages(c: Config, w: World, m: Message, t: Trace)
    ensures Only(Generated(c, w, m, t), IsStage) == Then(Only(t, IsStage), Generate)
  {
    OnlyAdds(IsStage);
  }
}
