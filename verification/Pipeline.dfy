// One message through the event pipeline: log, rate limit, sensitive words, then
// persist, command or reply. What the collaborators answer is a parameter, so
// every claim is about all they could do; the trace lists what the pipeline did.
module Pipeline {
  import opened Options
  import opened Words
  import opened Scan
  import opened ReplyText
  import Control
  import AhoCorasick

  datatype Message = Message(groupID: string, userID: string, messageType: string, text: Word)

  function Key(m: Message): string { Control.SessionKey(m.groupID, m.userID) }

  datatype Reply = Reply(at: string, segments: seq<Word>)

  datatype Outcome =
    | AgentReplied | Command | CommandNotFound | NotTriggered | EmptyReply | RateLimited | Sensitive
    | ControlError | PromptFail | AgentFail | SendFail | NoSender | CommandError

  datatype Effect =
    | EntryLine
    | OutcomeLine(outcome: Outcome)
    | Persist(session: string, byBot: bool, text: Word, ok: bool)
    | Compress(session: string)
    | Dispatch(command: Word, args: seq<Word>)
    | Decide
    | BuildPrompt
    | Generate
    | Send(reply: Reply, ok: bool)
    | Execute(action: string, ok: bool)
    | OnReplied(ok: bool)

  datatype Error = NoError | RateLimitedError | SensitiveWordError(word: Word) | CancelledError | PersistError

  // What was done so far, the latest effect outermost.
  datatype Trace = Start | Then(before: Trace, last: Effect)

  datatype Run = Run(trace: Trace, err: Error)

  // A plugin's result, no such plugin, or any other failure.
  datatype Plugin = Done(reply: Option<Reply>, actions: seq<string>) | Unknown | Broken

  // What the collaborators answer, should they be asked. granted and cancelled
  // are the token wait and the caller's context after it; None is an error.
  datatype World = World(
    granted: bool, cancelled: bool,
    persist: Option<bool>, persistReply: Option<bool>,  // is the window full?
    plugin: Plugin, help: Word, manager: bool, execute: nat -> bool,
    decide: Option<Control.Decision>, sender: bool, prompt: bool, agent: Option<Word>, send: bool, record: bool)

  // trim and fields are the standard library's and stay abstract.
  datatype Config = Config(words: seq<Word>, lower: Lowering, trim: Word -> Word, fields: Word -> seq<Word>)

  const SLASH: Byte := 0x2F
  const HELP: Word := [0x68, 0x65, 0x6C, 0x70]

  // ---- Composing the chain ----

  // Handlers take what was done so far and return it with what they did.
  type Handler = (World, Message, Trace) -> Run
  type Middleware = Handler -> Handler

  // The first middleware is outermost.
  ghost function Composed(mws: seq<Middleware>, last: Handler): Handler
  {
    if mws == [] then last else mws[0](Composed(mws[1..], last))
  }

  method Chain(mws: seq<Middleware>, last: Handler) returns (h: Handler)
    ensures h == Composed(mws, last)
  {
    h := last;
    var i := |mws|;
    while i > 0
      invariant 0 <= i <= |mws| && h == Composed(mws[i..], last)
    {
      i := i - 1;
      assert mws[i..][1..] == mws[i + 1..];
      h := mws[i](h);
    }
    assert mws[0..] == mws;
  }

  function LogMiddleware(next: Handler): Handler
  {
    (w: World, m: Message, t: Trace) => next(w, m, Then(t, EntryLine))
  }

  function RateLimitMiddleware(next: Handler): Handler
  {
    (w: World, m: Message, t: Trace) =>
      if w.granted then next(w, m, t)
      else if w.cancelled then Run(t, CancelledError)
      else Run(Then(t, OutcomeLine(RateLimited)), RateLimitedError)
  }

  function SensitiveWordMiddleware(c: Config): Middleware
  {
    (next: Handler) => (w: World, m: Message, t: Trace) =>
      var (word, ok) := Found(c, m);
      if ok then Run(Then(t, OutcomeLine(Sensitive)), SensitiveWordError(word)) else next(w, m, t)
  }

  // What the matcher answers for the message.
  function Found(c: Config, m: Message): (Word, bool)
  {
    Answer(ScanText(c.words, c.lower, c.lower(m.text)))
  }

  function Middlewares(c: Config): seq<Middleware>
  {
    [LogMiddleware, RateLimitMiddleware, SensitiveWordMiddleware(c)]
  }

  function Handle(c: Config, w: World, m: Message, t: Trace): Run
  {
    if !w.granted then
      if w.cancelled then Run(Then(t, EntryLine), CancelledError)
      else Run(Then(Then(t, EntryLine), OutcomeLine(RateLimited)), RateLimitedError)
    else if Found(c, m).1 then
      Run(Then(Then(t, EntryLine), OutcomeLine(Sensitive)), SensitiveWordError(Found(c, m).0))
    else Tail(c, w, m, Then(t, EntryLine))
  }

  function TailHandler(c: Config): Handler
  {
    (w: World, m: Message, t: Trace) => Tail(c, w, m, t)
  }

  lemma ChainIsHandle(c: Config, w: World, m: Message, t: Trace)
    ensures Composed(Middlewares(c), TailHandler(c))(w, m, t) == Handle(c, w, m, t)
  {
    var tail := TailHandler(c);
    var mws := Middlewares(c);
    assert mws[1..] == [RateLimitMiddleware, SensitiveWordMiddleware(c)];
    assert mws[1..][1..] == [SensitiveWordMiddleware(c)];
    assert mws[1..][1..][1..] == [];
    assert Composed([SensitiveWordMiddleware(c)], tail) == SensitiveWordMiddleware(c)(tail);
  }

  // ---- The tail ----

  function ParseCommand(c: Config, text: Word): Option<(Word, seq<Word>)>
  {
    var s := c.trim(text);
    if |s| < 2 || s[0] != SLASH then None
    else
      var fields := c.fields(s[1..]);
      if fields == [] then None else Some((fields[0], fields[1..]))
  }

  function Tail(c: Config, w: World, m: Message, t: Trace): Run
  {
    match w.persist
    case None => Run(Then(t, Persist(Key(m), false, m.text, false)), PersistError)
    case Some(full) =>
      var u := IfFull(full, m, Then(t, Persist(Key(m), false, m.text, true)));
      Run(match ParseCommand(c, m.text)
          case None => Respond(c, w, m, u)
          case Some((cmd, args)) => RunCommand(w, cmd, args, u), NoError)
  }

  function IfFull(full: bool, m: Message, t: Trace): Trace
  {
    if full then Then(t, Compress(Key(m))) else t
  }

  function RunCommand(w: World, cmd: Word, args: seq<Word>, t: Trace): Trace
  {
    if cmd == HELP then Then(SendReply(w, Some(Reply("", [w.help])), t), OutcomeLine(Command))
    else
      var u := Then(t, Dispatch(cmd, args));
      match w.plugin
      case Done(reply, actions) =>
        var v := SendReply(w, reply, Then(u, OutcomeLine(Command)));
        if w.manager then Executed(actions, w, 0, v) else v
      case Unknown => Then(u, OutcomeLine(CommandNotFound))
      case Broken => Then(u, OutcomeLine(CommandError))
  }

  function SendReply(w: World, r: Option<Reply>, t: Trace): Trace
  {
    if r.Some? && w.sender then Then(t, Send(r.value, w.send)) else t
  }

  // One action after the other, up to the first that fails.
  function Executed(actions: seq<string>, w: World, i: nat, t: Trace): Trace
    requires i <= |actions|
    decreases |actions| - i
  {
    if i == |actions| then t
    else
      var u := Then(t, Execute(actions[i], w.execute(i)));
      if w.execute(i) then Executed(actions, w, i + 1, u) else u
  }

  function AgentReply(m: Message, text: Word): Reply
  {
    Reply(if m.messageType == "group" then "sender" else "", [text])
  }

  function Respond(c: Config, w: World, m: Message, t: Trace): Trace
  {
    var u := Then(t, Decide);
    match w.decide
    case None => Then(u, OutcomeLine(ControlError))
    case Some(d) =>
      if !d.reply then Then(u, OutcomeLine(NotTriggered))
      else if !w.sender then Then(u, OutcomeLine(NoSender))
      else if !w.prompt then Then(Then(u, BuildPrompt), OutcomeLine(PromptFail))
      else Generated(c, w, m, Then(u, BuildPrompt))
  }

  function Generated(c: Config, w: World, m: Message, t: Trace): Trace
  {
    var u := Then(t, Generate);
    match w.agent
    case None => Then(u, OutcomeLine(AgentFail))
    case Some(answer) =>
      var reply := Stripped(answer);
      if c.trim(reply) == [] then Then(u, OutcomeLine(EmptyReply))
      else if !w.send then Then(Then(u, Send(AgentReply(m, reply), false)), OutcomeLine(SendFail))
      else Recorded(w, m, reply, Then(u, Send(AgentReply(m, reply), true)))
  }

  function Recorded(w: World, m: Message, reply: Word, t: Trace): Trace
  {
    var u := Then(t, Persist(Key(m), true, reply, w.persistReply.Some?));
    var v := Then(IfFull(w.persistReply == Some(true), m, u), OnReplied(w.record));
    Then(v, OutcomeLine(AgentReplied))
  }

  // ---- The code ----

  class EventService {
    const cfg: Config
    const matcher: AhoCorasick.Matcher
    var trace: Trace

    // Lower-casing leaves no configured word empty.
    constructor (cfg: Config)
      requires NonErasing(cfg.words, cfg.lower)
      ensures Valid() && this.cfg == cfg && trace == Start
    {
      this.cfg := cfg;
      matcher := new AhoCorasick.Matcher.New(cfg.words, cfg.lower);
      trace := Start;
    }

    ghost predicate Valid()
    {
      matcher.Valid() && matcher.words == cfg.words && matcher.lower == cfg.lower && NonErasing(cfg.words, cfg.lower)
    }

    method HandleMessage(w: World, m: Message) returns (err: Error)
      requires Valid()
      modifies this
      ensures Run(trace, err) == Handle(cfg, w, m, old(trace))
    {
      trace := Then(trace, EntryLine);
      err := WaitForToken(w, m, old(trace));
      if err != NoError { return; }
      ghost var hops, visits;
      var word, ok;
      word, ok, hops, visits := matcher.Find(m.text);
      if ok {
        trace := Then(trace, OutcomeLine(Sensitive));
        return SensitiveWordError(word);
      }
      err := HandleTail(w, m);
    }

    // A refused wait is the end of the message: it leaves the trace and the error
    // of the whole pipeline.
    method WaitForToken(w: World, m: Message, ghost t: Trace) returns (err: Error)
      requires trace == Then(t, EntryLine)
      modifies this
      ensures err == NoError <==> w.granted
      ensures err != NoError ==> Run(trace, err) == Handle(cfg, w, m, t)
      ensures err == if w.granted then NoError else if w.cancelled then CancelledError else RateLimitedError
      ensures trace == if err == RateLimitedError then Then(old(trace), OutcomeLine(RateLimited)) else old(trace)
    {
      if !w.granted {
        if w.cancelled { return CancelledError; }
        trace := Then(trace, OutcomeLine(RateLimited));
        return RateLimitedError;
      }
      return NoError;
    }

    method HandleTail(w: World, m: Message) returns (err: Error)
      modifies this
      ensures Run(trace, err) == Tail(cfg, w, m, old(trace))
    {
      trace := Then(trace, Persist(Key(m), false, m.text, w.persist.Some?));
      if w.persist.None? { return PersistError; }
      if w.persist.value { trace := Then(trace, Compress(Key(m))); }
      var handled := DispatchCommand(w, m);
      if !handled { RespondTo(w, m); }
      return NoError;
    }

    method DispatchCommand(w: World, m: Message) returns (handled: bool)
      modifies this
      ensures handled == ParseCommand(cfg, m.text).Some?
      ensures var p := ParseCommand(cfg, m.text);
              trace == if p.Some? then RunCommand(w, p.value.0, p.value.1, old(trace)) else old(trace)
    {
      var parsed := ParseCommand(cfg, m.text);
      if parsed.None? { return false; }
      var (cmd, args) := parsed.value;
      if cmd == HELP {
        if w.sender { trace := Then(trace, Send(Reply("", [w.help]), w.send)); }
        trace := Then(trace, OutcomeLine(Command));
        return true;
      }
      trace := Then(trace, Dispatch(cmd, args));
      match w.plugin {
        case Done(reply, actions) =>
          trace := Then(trace, OutcomeLine(Command));
          if reply.Some? && w.sender { trace := Then(trace, Send(reply.value, w.send)); }
          if |actions| > 0 { ExecuteActions(actions, w); }
        case Unknown => trace := Then(trace, OutcomeLine(CommandNotFound));
        case Broken => trace := Then(trace, OutcomeLine(CommandError));
      }
      return true;
    }

    method ExecuteActions(actions: seq<string>, w: World)
      modifies this
      ensures trace == if w.manager then Executed(actions, w, 0, old(trace)) else old(trace)
    {
      if !w.manager { return; }
      var i := 0;
      while i < |actions|
        invariant 0 <= i <= |actions|
        invariant Executed(actions, w, i, trace) == Executed(actions, w, 0, old(trace))
      {
        trace := Then(trace, Execute(actions[i], w.execute(i)));
        if !w.execute(i) { return; }
        i := i + 1;
      }
    }

    method RespondTo(w: World, m: Message)
      modifies this
      ensures trace == Respond(cfg, w, m, old(trace))
    {
      trace := Then(trace, Decide);
      if w.decide.None? {
        trace := Then(trace, OutcomeLine(ControlError));
        return;
      }
      if !w.decide.value.reply {
        trace := Then(trace, OutcomeLine(NotTriggered));
        return;
      }
      if !w.sender {
        trace := Then(trace, OutcomeLine(NoSender));
        return;
      }
      trace := Then(trace, BuildPrompt);
      if !w.prompt {
        trace := Then(trace, OutcomeLine(PromptFail));
        return;
      }
      GenerateAndSend(w, m);
    }

    method GenerateAndSend(w: World, m: Message)
      modifies this
      ensures trace == Generated(cfg, w, m, old(trace))
    {
      trace := Then(trace, Generate);
      if w.agent.None? {
        trace := Then(trace, OutcomeLine(AgentFail));
        return;
      }
      ghost var tags;
      var reply;
      reply, tags := StripTags(w.agent.value);
      if cfg.trim(reply) == [] {
        trace := Then(trace, OutcomeLine(EmptyReply));
        return;
      }
      trace := Then(trace, Send(AgentReply(m, reply), w.send));
      if !w.send {
        trace := Then(trace, OutcomeLine(SendFail));
        return;
      }
      trace := Then(trace, Persist(Key(m), true, reply, w.persistReply.Some?));
      if w.persistReply == Some(true) { trace := Then(trace, Compress(Key(m))); }
      trace := Then(trace, OnReplied(w.record));
      trace := Then(trace, OutcomeLine(AgentReplied));
    }
  }
}
