/** The request loop of a session channel (section 6 of RFC 4254). */
module ChannelRequests {
  import opened Wrappers
  import opened ChannelParsers

  type Text = string

  const MaxSigBufSize: nat := 128

  datatype Request =
    | Run(exec: bool, command: Text)     // "shell" and "exec"
    | Subsystem(name: Text)
    | Env(key: Text, value: Text)
    | Signal(signal: Text)
    | PtyReq(payload: Bytes)
    | WindowChange(payload: Bytes)
    | AgentReq
    | Break
    | Other

  /** What reaches the session: requests, and the calls of its handler. */
  datatype Event =
    | Request(request: Request)
    | RegisterSignals(on: bool)
    | RegisterBreak(on: bool)
    | Exit(code: nat)

  /** The server's callbacks: session policy, pty policy, registered subsystems. */
  datatype Policy = Policy(allows: Request -> bool, allowsPty: Pty -> bool, subsystems: set<Text>)

  /** `started` lists the requests whose handler was started, `windows` the sizes sent on the
      window channel, `delivered` the signals sent on the signal channel, `replies` the replies
      and `statuses` the exit statuses sent to the client, `breaks` counts what was sent on the
      break channel. */
  datatype Session = Session(
    handled: bool, pty: Option<Pty>, env: seq<Text>, rawCmd: Text, subsystem: Text,
    sigCh: bool, sigBuf: seq<Text>, delivered: seq<Text>, breakCh: bool, exited: bool, panicked: bool,
    started: seq<Request>, windows: seq<Window>, replies: seq<bool>, statuses: seq<nat>, breaks: nat)

  const Fresh := Session(false, None, [], "", "", false, [], [], false, false, false, [], [], [], [], 0)

  function Reply(s: Session, ok: bool): Session {
    s.(replies := s.replies + [ok])
  }

  /** A program was accepted: its handler starts. */
  function Start(s: Session, r: Request): Session {
    Reply(s.(handled := true, started := s.started + [r]), true)
  }

  function RunProgram(s: Session, r: Request, policy: Policy): Session
    requires r.Run?
  {
    if s.handled then Reply(s, false)
    else if !policy.allows(r) then Reply(s.(rawCmd := ""), false)
    else Start(s.(rawCmd := r.command), r)
  }

  function OpenSubsystem(s: Session, r: Request, policy: Policy): Session
    requires r.Subsystem?
  {
    if s.handled then Reply(s, false)
    else if !policy.allows(r) then Reply(s.(subsystem := r.name, rawCmd := ""), false)
    else if r.name !in policy.subsystems && "default" !in policy.subsystems then Reply(s.(subsystem := r.name), false)
    else Start(s.(subsystem := r.name), r)
  }

  function SetEnv(s: Session, key: Text, value: Text): Session {
    if s.handled then Reply(s, false) else Reply(s.(env := s.env + [key + "=" + value]), true)
  }

  function TakeSignal(s: Session, signal: Text): Session {
    if s.sigCh then s.(delivered := s.delivered + [signal])
    else if |s.sigBuf| < MaxSigBufSize then s.(sigBuf := s.sigBuf + [signal])
    else s
  }

  function TakePty(s: Session, payload: Bytes, policy: Policy): Session {
    if s.handled || s.pty.Some? then Reply(s, false)
    else
      match ParsePtyRequest(payload)
      case Refused => Reply(s, false)
      case OutOfBounds => s.(panicked := true)
      case Parsed(pty, _) =>
        if !policy.allowsPty(pty) then Reply(s, false)
        else Reply(s.(pty := Some(pty), windows := s.windows + [pty.window]), true)
  }

  function TakeWindow(s: Session, payload: Bytes): Session {
    if s.pty.None? then Reply(s, false)
    else
      match ParseWinchRequest(payload)
      case Parsed(w, _) => Reply(s.(pty := Some(s.pty.value.(window := w)), windows := s.windows + [w]), true)
      case _ => Reply(s, false)
  }

  function StepRequest(s: Session, r: Request, policy: Policy): Session {
    match r
    case Run(_, _) => RunProgram(s, r, policy)
    case Subsystem(_) => OpenSubsystem(s, r, policy)
    case Env(key, value) => SetEnv(s, key, value)
    case Signal(signal) => TakeSignal(s, signal)
    case PtyReq(payload) => TakePty(s, payload, policy)
    case WindowChange(payload) => TakeWindow(s, payload)
    case AgentReq => Reply(s, true)
    case Break => if s.breakCh then Reply(s.(breaks := s.breaks + 1), true) else Reply(s, false)
    case Other => Reply(s, false)
  }

  /** Registering a channel sends it the buffered signals, which stay in the buffer. */
  function Register(s: Session, on: bool): Session {
    s.(sigCh := on, delivered := if on then s.delivered + s.sigBuf else s.delivered)
  }

  function ExitWith(s: Session, code: nat): Session {
    if s.exited then s else s.(exited := true, statuses := s.statuses + [code])
  }

  function Step(s: Session, e: Event, policy: Policy): Session {
    if s.panicked then s
    else
      match e
      case Request(r) => StepRequest(s, r, policy)
      case RegisterSignals(on) => Register(s, on)
      case RegisterBreak(on) => s.(breakCh := on)
      case Exit(code) => ExitWith(s, code)
  }

  function After(events: seq<Event>, policy: Policy): Session {
    if events == [] then Fresh else Step(After(events[..|events| - 1], policy), events[|events| - 1], policy)
  }

  function One(b: bool): nat {
    if b then 1 else 0
  }

  /** What holds of a session after any stream of events. */
  predicate Inv(s: Session) {
    && |s.started| == One(s.handled)
    && |s.sigBuf| <= MaxSigBufSize
    && |s.statuses| == One(s.exited)
    && (s.pty.None? <==> s.windows == [])
    && (s.pty.Some? ==> s.pty.value.window == s.windows[|s.windows| - 1])
  }

  /** A request other than a signal is answered, by one reply or by a panic. */
  predicate Answers(s: Session, s': Session, answers: nat) {
    |s'.replies| + One(s'.panicked) == |s.replies| + One(s.panicked) + answers
  }

  /** The texts of a session have no part in the invariant. */
  lemma Relabel(s: Session, rawCmd: Text, subsystem: Text)
    requires Inv(s)
    ensures var l := s.(rawCmd := rawCmd, subsystem := subsystem); Inv(l) && Answers(s, l, 0)
  {
  }

  lemma StartSteps(s: Session, r: Request)
    requires Inv(s) && !s.handled
    ensures Inv(Start(s, r)) && Answers(s, Start(s, r), 1)
  {
  }

  lemma AnswersAdd(s0: Session, s1: Session, s2: Session, n: nat)
    requires Answers(s0, s1, 0) && Answers(s1, s2, n)
    ensures Answers(s0, s2, n)
  {
  }

  lemma ProgramSteps(s: Session, l: Session, r: Request, rawCmd: Text, subsystem: Text)
    requires Inv(s) && l == s.(rawCmd := rawCmd, subsystem := subsystem)
    ensures Inv(Reply(l, false)) && Answers(s, Reply(l, false), 1)
    ensures !s.handled ==> Inv(Start(l, r)) && Answers(s, Start(l, r), 1)
  {
    hide Inv, Answers, Start, Reply;
    Relabel(s, rawCmd, subsystem);
    OtherSteps(l, "", "", false);
    AnswersAdd(s, l, Reply(l, false), 1);
    if !s.handled {
      StartSteps(l, r);
      AnswersAdd(s, l, Start(l, r), 1);
    }
  }

  lemma RunSteps(s: Session, r: Request, policy: Policy)
    requires Inv(s) && r.Run?
    ensures Inv(RunProgram(s, r, policy)) && Answers(s, RunProgram(s, r, policy), 1)
  {
    hide Inv, Answers, Start, Reply;
    ProgramSteps(s, s, r, s.rawCmd, s.subsystem);
    ProgramSteps(s, s.(rawCmd := ""), r, "", s.subsystem);
    ProgramSteps(s, s.(rawCmd := r.command), r, r.command, s.subsystem);
  }

  lemma SubsystemSteps(s: Session, r: Request, policy: Policy)
    requires Inv(s) && r.Subsystem?
    ensures Inv(OpenSubsystem(s, r, policy)) && Answers(s, OpenSubsystem(s, r, policy), 1)
  {
    hide Inv, Answers, Start, Reply;
    ProgramSteps(s, s, r, s.rawCmd, s.subsystem);
    ProgramSteps(s, s.(subsystem := r.name, rawCmd := ""), r, "", r.name);
    ProgramSteps(s, s.(subsystem := r.name), r, s.rawCmd, r.name);
  }

  lemma PtySteps(s: Session, payload: Bytes, policy: Policy)
    requires Inv(s) && !s.panicked
    ensures Inv(TakePty(s, payload, policy)) && Answers(s, TakePty(s, payload, policy), 1)
  {
    hide ParsePtyRequest, Inv, Answers, Reply;
    ReplySteps(s, false);
    match ParsePtyRequest(payload)
    case Parsed(pty, _) =>
      if s.pty.None? {
        PtyTaken(s, pty);
      }
    case _ => PanicSteps(s);
  }

  lemma ReplySteps(s: Session, ok: bool)
    requires Inv(s)
    ensures Inv(Reply(s, ok)) && Answers(s, Reply(s, ok), 1)
  {
  }

  lemma PtyTaken(s: Session, pty: Pty)
    requires Inv(s) && s.pty.None?
    ensures var t := Reply(s.(pty := Some(pty), windows := s.windows + [pty.window]), true); Inv(t) && Answers(s, t, 1)
  {
  }

  lemma PanicSteps(s: Session)
    requires Inv(s) && !s.panicked
    ensures Inv(s.(panicked := true)) && Answers(s, s.(panicked := true), 1)
  {
  }

  lemma WindowSteps(s: Session, payload: Bytes)
    requires Inv(s)
    ensures Inv(TakeWindow(s, payload)) && Answers(s, TakeWindow(s, payload), 1)
  {
    hide ParseWinchRequest;
  }

  lemma OtherSteps(s: Session, key: Text, value: Text, ok: bool)
    requires Inv(s)
    ensures Inv(SetEnv(s, key, value)) && Answers(s, SetEnv(s, key, value), 1)
    ensures Inv(TakeSignal(s, key)) && Answers(s, TakeSignal(s, key), 0)
    ensures Inv(Reply(s, ok)) && Answers(s, Reply(s, ok), 1)
  {
  }

  lemma BreakSteps(s: Session, policy: Policy)
    requires Inv(s)
    ensures Inv(StepRequest(s, Break, policy)) && Answers(s, StepRequest(s, Break, policy), 1)
  {
  }

  lemma CallSteps(s: Session, on: bool, code: nat)
    requires Inv(s)
    ensures Inv(Register(s, on)) && Answers(s, Register(s, on), 0)
    ensures Inv(ExitWith(s, code)) && Answers(s, ExitWith(s, code), 0)
    ensures Inv(s.(breakCh := on)) && Answers(s, s.(breakCh := on), 0)
  {
  }

  /** Whether an event calls for an answer. */
  predicate Asks(s: Session, e: Event) {
    !s.panicked && e.Request? && !e.request.Signal?
  }

  lemma StepKeepsInv(s: Session, e: Event, policy: Policy)
    requires Inv(s)
    ensures Inv(Step(s, e, policy)) && Answers(s, Step(s, e, policy), One(Asks(s, e)))
  {
    hide Inv, Answers, RunProgram, OpenSubsystem, SetEnv, TakeSignal, TakePty, TakeWindow, Reply, Register, ExitWith;
    if s.panicked {
      SameAnswers(s);
    } else {
      match e
      case RegisterSignals(on) => CallSteps(s, on, 0);
      case RegisterBreak(on) => CallSteps(s, on, 0);
      case Exit(code) => CallSteps(s, true, code);
      case Request(r) =>
        match r {
          case Run(_, _) => RunSteps(s, r, policy);
          case Subsystem(_) => SubsystemSteps(s, r, policy);
          case Env(key, value) => OtherSteps(s, key, value, true);
          case Signal(signal) => OtherSteps(s, signal, "", true);
          case PtyReq(payload) => PtySteps(s, payload, policy);
          case WindowChange(payload) => WindowSteps(s, payload);
          case AgentReq => OtherSteps(s, "", "", true);
          case Break => BreakSteps(s, policy);
          case Other => OtherSteps(s, "", "", false);
        }
    }
  }

  lemma SameAnswers(s: Session)
    ensures Answers(s, s, 0)
  {
  }

  /** Requests in the stream that call for a reply, up to a panic. */
  function Asked(events: seq<Event>, policy: Policy): nat {
    if events == [] then 0
    else Asked(events[..|events| - 1], policy) + One(Asks(After(events[..|events| - 1], policy), events[|events| - 1]))
  }

  /** For every stream of events at most one shell, exec or subsystem is accepted; every request
      but a signal has exactly one reply; at most 128 signals are buffered; at most one exit
      status is sent; and the pty has the size of the last window accepted. */
  lemma {:induction false} StreamKeepsInv(events: seq<Event>, policy: Policy)
    ensures Inv(After(events, policy))
    ensures Answers(Fresh, After(events, policy), Asked(events, policy))
  {
    hide Step, Inv;
    if events == [] {
      FreshInv();
    } else {
      var front := events[..|events| - 1];
      StreamKeepsInv(front, policy);
      StepKeepsInv(After(front, policy), events[|events| - 1], policy);
    }
  }

  /** Requests other than signals. */
  function Requests(events: seq<Event>): nat {
    if events == [] then 0
    else
      var last := events[|events| - 1];
      Requests(events[..|events| - 1]) + One(last.Request? && !last.request.Signal?)
  }

  /** Without a panic every such request calls for a reply. */
  lemma {:induction false} AllAsked(events: seq<Event>, policy: Policy)
    requires !After(events, policy).panicked
    ensures Asked(events, policy) == Requests(events)
  {
    hide StepRequest;
    if events != [] {
      AllAsked(events[..|events| - 1], policy);
    }
  }

  lemma FreshInv()
    ensures Inv(Fresh)
  {
  }

  /** What a program was started with. */
  predicate SameProgram(s: Session, s': Session) {
    && s'.handled && s'.started == s.started && s'.env == s.env && s'.rawCmd == s.rawCmd && s'.subsystem == s.subsystem
    && s'.pty.Some? == s.pty.Some? && (s.pty.Some? ==> s'.pty.value.term == s.pty.value.term)
  }

  /** Once a program is accepted, no later event changes what it was started with: the program,
      its environment, and whether and as what terminal it has a pty. */
  lemma {:induction false} FrozenOnceHandled(events: seq<Event>, more: seq<Event>, policy: Policy)
    requires After(events, policy).handled
    ensures SameProgram(After(events, policy), After(events + more, policy))
  {
    hide Step;
    if more == [] {
      assert events + more == events;
    } else {
      var front, last := more[..|more| - 1], more[|more| - 1];
      assert (events + more)[..|events + more| - 1] == events + front;
      FrozenOnceHandled(events, front, policy);
      StepFrozen(After(events + front, policy), last, policy);
    }
  }

  lemma StepFrozen(s: Session, e: Event, policy: Policy)
    requires s.handled
    ensures SameProgram(s, Step(s, e, policy))
  {
    hide StepRequest;
    if e.Request? {
      RequestFrozen(s, e.request, policy);
    }
  }

  lemma RequestFrozen(s: Session, r: Request, policy: Policy)
    requires s.handled
    ensures SameProgram(s, StepRequest(s, r, policy))
  {
    hide TakeWindow;
    match r
    case WindowChange(payload) => WindowFrozen(s, payload);
    case _ =>
  }

  lemma WindowFrozen(s: Session, payload: Bytes)
    requires s.handled
    ensures SameProgram(s, TakeWindow(s, payload))
  {
    hide ParseWinchRequest;
  }

  /** The request loop panics exactly on a pty request that it gets as far as parsing and whose
      terminal length wraps around. */
  lemma PanicsExactly(s: Session, e: Event, policy: Policy)
    requires !s.panicked && (e.Request? && e.request.PtyReq? ==> |e.request.payload| < Word)
    ensures Step(s, e, policy).panicked <==>
              && e.Request? && e.request.PtyReq? && !s.handled && s.pty.None?
              && |e.request.payload| >= 4 && Uint32(e.request.payload) >= Word - 4
  {
    hide ParsePtyRequest, ParseWinchRequest, Uint32;
    if e.Request? && e.request.PtyReq? {
      OutOfBoundsExactly(e.request.payload);
    }
  }

  // Replies ---------------------------------------------------------------------

  /** What a request that is granted does, told by what is there before and after. */
  predicate TookEffect(s: Session, s': Session, r: Request) {
    match r
    case Run(_, command) => s'.started == s.started + [r] && s'.handled && s'.rawCmd == command
    case Subsystem(name) => s'.started == s.started + [r] && s'.handled && s'.subsystem == name
    case Env(key, value) => s'.env == s.env + [key + "=" + value]
    case Signal(_) => false
    case PtyReq(_) => s.pty.None? && s'.pty.Some? && s'.windows == s.windows + [s'.pty.value.window]
    case WindowChange(_) => s'.pty.Some? && s'.windows == s.windows + [s'.pty.value.window]
    case AgentReq => true
    case Break => s'.breaks == s.breaks + 1
    case Other => false
  }

  predicate IsProgram(r: Request) {
    r.Run? || r.Subsystem?
  }

  /** The server lets the program run and knows how. */
  predicate Admits(policy: Policy, r: Request) {
    IsProgram(r) && policy.allows(r) && (r.Subsystem? ==> r.name in policy.subsystems || "default" in policy.subsystems)
  }

  /** Which requests are granted. */
  predicate Granted(s: Session, r: Request, policy: Policy) {
    match r
    case Run(_, _) => !s.handled && Admits(policy, r)
    case Subsystem(_) => !s.handled && Admits(policy, r)
    case Env(_, _) => !s.handled
    case Signal(_) => false
    case PtyReq(payload) =>
      !s.handled && s.pty.None? && ParsePtyRequest(payload).Parsed? && policy.allowsPty(ParsePtyRequest(payload).value)
    case WindowChange(payload) => s.pty.Some? && ParseWinchRequest(payload).Parsed?
    case AgentReq => true
    case Break => s.breakCh
    case Other => false
  }

  /** Every request but a signal that does not panic gets exactly one reply. It says whether the
      request took effect, which is so exactly if it is granted; otherwise nothing has changed but
      the texts of a program that was refused. The pty and the window are those of the payload. */
  lemma ReplyIsTrue(s: Session, r: Request, policy: Policy)
    requires !s.panicked && !r.Signal?
    ensures var s' := StepRequest(s, r, policy);
      !s'.panicked ==>
        && s'.replies == s.replies + [TookEffect(s, s', r)]
        && (TookEffect(s, s', r) <==> Granted(s, r, policy))
        && (!Granted(s, r, policy) ==> s' == s.(replies := s'.replies, rawCmd := s'.rawCmd, subsystem := s'.subsystem))
        && (Granted(s, r, policy) && r.PtyReq? ==> s'.pty == Some(ParsePtyRequest(r.payload).value))
        && (Granted(s, r, policy) && r.WindowChange? ==> s'.pty.value.window == ParseWinchRequest(r.payload).value)
  {
    hide ParsePtyRequest, ParseWinchRequest, TookEffect, RunProgram, OpenSubsystem, TakePty, TakeWindow, SetEnv;
    match r
    case Run(_, _) => ProgramReplyIsTrue(s, r, policy);
    case Subsystem(_) => ProgramReplyIsTrue(s, r, policy);
    case PtyReq(payload) => PtyReplyIsTrue(s, payload, policy);
    case WindowChange(payload) => WindowReplyIsTrue(s, payload, policy);
    case _ => OtherReplyIsTrue(s, r, policy);
  }

  lemma PtyReplyIsTrue(s: Session, payload: Bytes, policy: Policy)
    requires !s.panicked
    ensures var s', r := TakePty(s, payload, policy), PtyReq(payload);
      !s'.panicked ==>
        && s'.replies == s.replies + [TookEffect(s, s', r)]
        && (TookEffect(s, s', r) <==> Granted(s, r, policy))
        && (!Granted(s, r, policy) ==> s' == s.(replies := s'.replies))
        && (Granted(s, r, policy) ==> s'.pty == Some(ParsePtyRequest(payload).value))
  {
    hide ParsePtyRequest;
  }

  lemma WindowReplyIsTrue(s: Session, payload: Bytes, policy: Policy)
    ensures var s', r := TakeWindow(s, payload), WindowChange(payload);
      && s'.replies == s.replies + [TookEffect(s, s', r)]
      && (TookEffect(s, s', r) <==> Granted(s, r, policy))
      && (!Granted(s, r, policy) ==> s' == s.(replies := s'.replies))
      && (Granted(s, r, policy) ==> s'.pty.value.window == ParseWinchRequest(payload).value)
  {
    hide ParseWinchRequest;
    assert |s.windows + [Window(0, 0)]| != |s.windows|;
  }

  /** A program is started or refused; its texts are noted. */
  lemma ProgramAnswered(s: Session, r: Request, policy: Policy) returns (l: Session)
    requires IsProgram(r)
    ensures l == s.(rawCmd := l.rawCmd, subsystem := l.subsystem)
    ensures StepRequest(s, r, policy) == if !s.handled && Admits(policy, r) then Start(l, r) else Reply(l, false)
    ensures !s.handled && Admits(policy, r) ==> if r.Run? then l.rawCmd == r.command else l.subsystem == r.name
  {
    hide Start, Reply;
    if s.handled {
      l := s;
    } else if r.Run? {
      l := s.(rawCmd := if policy.allows(r) then r.command else "");
    } else {
      l := s.(subsystem := r.name, rawCmd := if policy.allows(r) then s.rawCmd else "");
    }
  }

  lemma ProgramReplyIsTrue(s: Session, r: Request, policy: Policy)
    requires IsProgram(r)
    ensures var s' := StepRequest(s, r, policy);
      && s'.replies == s.replies + [TookEffect(s, s', r)]
      && (TookEffect(s, s', r) <==> Granted(s, r, policy))
      && (!Granted(s, r, policy) ==> s' == s.(replies := s'.replies, rawCmd := s'.rawCmd, subsystem := s'.subsystem))
  {
    hide StepRequest, Admits;
    var l := ProgramAnswered(s, r, policy);
    assert |s.started + [r]| != |s.started|;
  }

  lemma OtherReplyIsTrue(s: Session, r: Request, policy: Policy)
    requires r.Env? || r.AgentReq? || r.Break? || r.Other?
    ensures var s' := StepRequest(s, r, policy);
      && s'.replies == s.replies + [TookEffect(s, s', r)]
      && (TookEffect(s, s', r) <==> Granted(s, r, policy))
      && (!Granted(s, r, policy) ==> s' == s.(replies := s'.replies))
  {
  }

  // Streams ---------------------------------------------------------------------

  /** The first program of a stream that the server admits. */
  function FirstProgram(events: seq<Event>, policy: Policy): Option<Request> {
    if events == [] then None
    else
      var first, last := FirstProgram(events[..|events| - 1], policy), events[|events| - 1];
      if first.None? && last.Request? && Admits(policy, last.request) then Some(last.request) else first
  }

  /** The variables set before that. */
  function EnvOf(events: seq<Event>, policy: Policy): seq<Text> {
    if events == [] then []
    else
      var front, last := events[..|events| - 1], events[|events| - 1];
      EnvOf(front, policy) +
        if FirstProgram(front, policy).None? && last.Request? && last.request.Env? then [last.request.key + "=" + last.request.value]
        else []
  }

  function FirstExit(events: seq<Event>): Option<nat> {
    if events == [] then None
    else
      var first, last := FirstExit(events[..|events| - 1]), events[|events| - 1];
      if first.None? && last.Exit? then Some(last.code) else first
  }

  /** Whether the last registration of a signal channel, or of a break channel, left one. */
  function SignalsOn(events: seq<Event>): bool {
    if events == [] then false
    else var last := events[|events| - 1]; if last.RegisterSignals? then last.on else SignalsOn(events[..|events| - 1])
  }

  function BreaksOn(events: seq<Event>): bool {
    if events == [] then false
    else var last := events[|events| - 1]; if last.RegisterBreak? then last.on else BreaksOn(events[..|events| - 1])
  }

  function Listed<T>(first: Option<T>): seq<T> {
    if first.Some? then [first.value] else []
  }

  predicate FollowsStream(s: Session, events: seq<Event>, policy: Policy) {
    && s.started == Listed(FirstProgram(events, policy)) && (s.handled <==> FirstProgram(events, policy).Some?)
    && s.env == EnvOf(events, policy)
    && s.statuses == Listed(FirstExit(events)) && (s.exited <==> FirstExit(events).Some?)
    && s.sigCh == SignalsOn(events) && s.breakCh == BreaksOn(events)
  }

  /** For each request of a stream that asks for an answer, in order, whether it was granted. */
  function Verdicts(events: seq<Event>, policy: Policy): seq<bool> {
    if events == [] then []
    else
      var n := |events| - 1;
      var before := Verdicts(events[..n], policy);
      match events[n]
      case Request(r) => if r.Signal? then before else before + [Granted(After(events[..n], policy), r, policy)]
      case _ => before
  }

  /** For every stream without a panic the replies are the truth about its requests. */
  lemma {:induction false} RepliesAreVerdicts(events: seq<Event>, policy: Policy)
    requires !After(events, policy).panicked
    ensures After(events, policy).replies == Verdicts(events, policy)
  {
    hide Granted, StepRequest, TookEffect;
    if events != [] {
      var n := |events| - 1;
      RepliesAreVerdicts(events[..n], policy);
      var s := After(events[..n], policy);
      match events[n]
      case Request(r) =>
        if r.Signal? {
          SignalIsSilent(s, r, policy);
        } else {
          ReplyIsTrue(s, r, policy);
        }
      case _ =>
    }
  }

  lemma SignalIsSilent(s: Session, r: Request, policy: Policy)
    requires r.Signal?
    ensures StepRequest(s, r, policy).replies == s.replies
  {
  }

  /** For every stream without a panic: the program started is the first one admitted, its environment
      what was set before it, the exit status the first one given, and the channels those registered
      last. */
  lemma {:induction false} StreamDecides(events: seq<Event>, policy: Policy)
    requires !After(events, policy).panicked
    ensures FollowsStream(After(events, policy), events, policy)
  {
    hide StepRequest, Register, ExitWith, FollowsStream;
    if events == [] {
      NoStream(policy);
    } else {
      var n := |events| - 1;
      StreamDecides(events[..n], policy);
      FollowsNext(After(events[..n], policy), events[..n], events[n], policy);
      assert events[..n] + [events[n]] == events;
    }
  }

  lemma NoStream(policy: Policy)
    ensures FollowsStream(Fresh, [], policy)
  {
  }

  lemma FollowsNext(s: Session, front: seq<Event>, e: Event, policy: Policy)
    requires !s.panicked && FollowsStream(s, front, policy)
    ensures FollowsStream(Step(s, e, policy), front + [e], policy)
  {
    hide StepRequest, Admits, FirstProgram, EnvOf, FirstExit, SignalsOn, BreaksOn;
    ProgramNext(front, e, policy);
    ExitNext(front, e);
    if e.Request? {
      RequestDecides(s, e.request, policy);
    }
  }

  lemma ProgramNext(front: seq<Event>, e: Event, policy: Policy)
    ensures FirstProgram(front + [e], policy) ==
      if FirstProgram(front, policy).None? && e.Request? && Admits(policy, e.request) then Some(e.request) else FirstProgram(front, policy)
    ensures EnvOf(front + [e], policy) == EnvOf(front, policy) +
      if FirstProgram(front, policy).None? && e.Request? && e.request.Env? then [e.request.key + "=" + e.request.value] else []
  {
    hide Admits;
    assert (front + [e])[..|front|] == front;
  }

  lemma ExitNext(front: seq<Event>, e: Event)
    ensures FirstExit(front + [e]) == if FirstExit(front).None? && e.Exit? then Some(e.code) else FirstExit(front)
    ensures SignalsOn(front + [e]) == if e.RegisterSignals? then e.on else SignalsOn(front)
    ensures BreaksOn(front + [e]) == if e.RegisterBreak? then e.on else BreaksOn(front)
  {
    assert (front + [e])[..|front|] == front;
  }

  /** What a request does to all this. */
  lemma RequestDecides(s: Session, r: Request, policy: Policy)
    ensures var s' := StepRequest(s, r, policy);
      && s'.started == s.started + (if !s.handled && Admits(policy, r) then [r] else [])
      && s'.handled == (s.handled || Admits(policy, r))
      && s'.env == s.env + (if !s.handled && r.Env? then [r.key + "=" + r.value] else [])
      && s'.statuses == s.statuses && s'.exited == s.exited && s'.sigCh == s.sigCh && s'.breakCh == s.breakCh
  {
    hide TakePty, TakeWindow, RunProgram, OpenSubsystem;
    match r
    case Run(_, _) => ProgramDecides(s, r, policy);
    case Subsystem(_) => ProgramDecides(s, r, policy);
    case PtyReq(payload) => PtyDecides(s, payload, policy);
    case WindowChange(payload) => WindowDecides(s, payload);
    case _ =>
  }

  lemma ProgramDecides(s: Session, r: Request, policy: Policy)
    requires IsProgram(r)
    ensures var s' := StepRequest(s, r, policy);
      && s'.started == s.started + (if !s.handled && Admits(policy, r) then [r] else [])
      && s'.handled == (s.handled || Admits(policy, r))
      && s'.env == s.env
      && s'.statuses == s.statuses && s'.exited == s.exited && s'.sigCh == s.sigCh && s'.breakCh == s.breakCh
  {
    hide StepRequest, Admits;
    var l := ProgramAnswered(s, r, policy);
  }

  lemma PtyDecides(s: Session, payload: Bytes, policy: Policy)
    ensures var s' := TakePty(s, payload, policy);
      s' == s.(pty := s'.pty, windows := s'.windows, replies := s'.replies, panicked := s'.panicked)
  {
    hide ParsePtyRequest;
  }

  lemma WindowDecides(s: Session, payload: Bytes)
    ensures var s' := TakeWindow(s, payload); s' == s.(pty := s'.pty, windows := s'.windows, replies := s'.replies)
  {
    hide ParseWinchRequest;
  }

  // Signals ---------------------------------------------------------------------

  /** Which events' signals are in the buffer, and which have been delivered, in order. */
  datatype Traffic = Traffic(buffered: seq<nat>, delivered: seq<nat>)

  function SignalsOf(events: seq<Event>, policy: Policy): Traffic {
    if events == [] then Traffic([], [])
    else
      var n := |events| - 1;
      var s, w := After(events[..n], policy), SignalsOf(events[..n], policy);
      if s.panicked then w
      else if IsSignal(events[n]) then
        if s.sigCh then w.(delivered := w.delivered + [n])
        else if |s.sigBuf| < MaxSigBufSize then w.(buffered := w.buffered + [n])
        else w
      else if events[n] == RegisterSignals(true) then w.(delivered := w.delivered + w.buffered)
      else w
  }

  predicate IsSignal(e: Event) {
    e.Request? && e.request.Signal?
  }

  function SignalText(e: Event): Text {
    if IsSignal(e) then e.request.signal else ""
  }

  predicate AreSignals(events: seq<Event>, which: seq<nat>) {
    forall i | 0 <= i < |which| :: which[i] < |events| && IsSignal(events[which[i]])
  }

  /** The signals of the given events. */
  function SignalTexts(events: seq<Event>, which: seq<nat>): seq<Text>
    requires AreSignals(events, which)
  {
    seq(|which|, i requires 0 <= i < |which| => SignalText(events[which[i]]))
  }

  lemma LongerStream(events: seq<Event>, which: seq<nat>, n: nat)
    requires n <= |events| && AreSignals(events[..n], which)
    ensures AreSignals(events, which) && SignalTexts(events, which) == SignalTexts(events[..n], which)
  {
  }

  lemma TextsConcat(events: seq<Event>, a: seq<nat>, b: seq<nat>)
    requires AreSignals(events, a) && AreSignals(events, b)
    ensures AreSignals(events, a + b) && SignalTexts(events, a + b) == SignalTexts(events, a) + SignalTexts(events, b)
  {
  }

  /** The account is true: buffer and deliveries hold the signals of these events. */
  lemma {:induction false} SignalsAreTrue(events: seq<Event>, policy: Policy)
    ensures var w, s := SignalsOf(events, policy), After(events, policy);
      && AreSignals(events, w.buffered) && AreSignals(events, w.delivered)
      && SignalTexts(events, w.buffered) == s.sigBuf
      && SignalTexts(events, w.delivered) == s.delivered
  {
    hide RunProgram, OpenSubsystem, SetEnv, TakePty, TakeWindow;
    if events != [] {
      var n := |events| - 1;
      var s, w, e := After(events[..n], policy), SignalsOf(events[..n], policy), events[n];
      SignalsAreTrue(events[..n], policy);
      LongerStream(events, w.buffered, n);
      LongerStream(events, w.delivered, n);
      OtherEvents(s, e, policy);
      if IsSignal(e) {
        TextsConcat(events, w.delivered, [n]);
        TextsConcat(events, w.buffered, [n]);
        assert SignalTexts(events, [n]) == [e.request.signal];
      } else {
        TextsConcat(events, w.delivered, w.buffered);
      }
    }
  }

  /** Only signals and registrations touch the signals. */
  lemma OtherEvents(s: Session, e: Event, policy: Policy)
    ensures !IsSignal(e) ==> Step(s, e, policy).sigBuf == s.sigBuf
    ensures !IsSignal(e) && !e.RegisterSignals? ==> Step(s, e, policy).delivered == s.delivered
  {
    hide StepRequest;
    if e.Request? && !e.request.Signal? {
      QuietRequest(s, e.request, policy);
    }
  }

  lemma QuietRequest(s: Session, r: Request, policy: Policy)
    requires !r.Signal?
    ensures StepRequest(s, r, policy).sigBuf == s.sigBuf && StepRequest(s, r, policy).delivered == s.delivered
  {
    hide TakePty, TakeWindow;
    match r
    case PtyReq(payload) => QuietPty(s, payload, policy);
    case WindowChange(payload) => QuietWindow(s, payload);
    case _ =>
  }

  lemma QuietPty(s: Session, payload: Bytes, policy: Policy)
    ensures TakePty(s, payload, policy).sigBuf == s.sigBuf && TakePty(s, payload, policy).delivered == s.delivered
  {
    hide ParsePtyRequest;
  }

  lemma QuietWindow(s: Session, payload: Bytes)
    ensures TakeWindow(s, payload).sigBuf == s.sigBuf && TakeWindow(s, payload).delivered == s.delivered
  {
    hide ParseWinchRequest;
  }

  /** How often a channel was registered while signals were buffered. */
  function Flushes(events: seq<Event>, policy: Policy): nat {
    if events == [] then 0
    else
      var n := |events| - 1;
      var s := After(events[..n], policy);
      Flushes(events[..n], policy) + One(!s.panicked && events[n] == RegisterSignals(true) && s.sigBuf != [])
  }

  /** How often each signal has been delivered, given the number of flushes. */
  ghost predicate DeliveredOften(w: Traffic, n: nat, flushes: nat) {
    && (forall i, j | 0 <= i < j < |w.buffered| :: w.buffered[i] != w.buffered[j])
    && (forall k | k in w.buffered || k in w.delivered :: k < n)
    && (forall k: nat :: multiset(w.delivered)[k] <= if k in w.buffered then flushes else 1)
    && (if w.buffered == [] then flushes == 0 else multiset(w.delivered)[w.buffered[0]] == flushes)
  }

  lemma {:induction false} FlushesDeliver(events: seq<Event>, policy: Policy)
    ensures DeliveredOften(SignalsOf(events, policy), |events|, Flushes(events, policy))
  {
    hide After, DeliveredOften, SignalsOf, Flushes;
    if events == [] {
      NothingDelivered(policy);
    } else {
      var n := |events| - 1;
      FlushesDeliver(events[..n], policy);
      SignalsAreTrue(events[..n], policy);
      NextTraffic(SignalsOf(events[..n], policy), n, Flushes(events[..n], policy));
      EventTraffic(events, policy);
    }
  }

  /** What one more event does to the account. */
  lemma EventTraffic(events: seq<Event>, policy: Policy)
    requires events != []
    requires var n := |events| - 1; |SignalsOf(events[..n], policy).buffered| == |After(events[..n], policy).sigBuf|
    ensures var n := |events| - 1;
      var w, f := SignalsOf(events[..n], policy), Flushes(events[..n], policy);
      var w', f' := SignalsOf(events, policy), Flushes(events, policy);
      || (w' == w && f' == f)
      || (w' == w.(delivered := w.delivered + [n]) && f' == f)
      || (w' == w.(buffered := w.buffered + [n]) && f' == f)
      || (w' == w.(delivered := w.delivered + w.buffered) && f' == f + One(w.buffered != []))
  {
    hide After;
  }

  lemma NothingDelivered(policy: Policy)
    ensures DeliveredOften(SignalsOf([], policy), 0, Flushes([], policy))
  {
  }

  lemma NextTraffic(w: Traffic, n: nat, f: nat)
    requires DeliveredOften(w, n, f)
    ensures DeliveredOften(w, n + 1, f)
    ensures DeliveredOften(w.(delivered := w.delivered + [n]), n + 1, f)
    ensures DeliveredOften(w.(buffered := w.buffered + [n]), n + 1, f)
    ensures DeliveredOften(w.(delivered := w.delivered + w.buffered), n + 1, f + One(w.buffered != []))
  {
    hide DeliveredOften;
    Later(w, n, f);
    OneDelivered(w, n, f);
    OneBuffered(w, n, f);
    BufferDelivered(w, n, f);
  }

  lemma Later(w: Traffic, n: nat, f: nat)
    requires DeliveredOften(w, n, f)
    ensures DeliveredOften(w, n + 1, f)
  {
  }

  lemma OneDelivered(w: Traffic, n: nat, f: nat)
    requires DeliveredOften(w, n, f)
    ensures DeliveredOften(w.(delivered := w.delivered + [n]), n + 1, f)
  {
    assert n !in w.delivered && n !in w.buffered;
  }

  lemma OneBuffered(w: Traffic, n: nat, f: nat)
    requires DeliveredOften(w, n, f)
    ensures DeliveredOften(w.(buffered := w.buffered + [n]), n + 1, f)
  {
    assert n !in w.delivered && n !in w.buffered;
    assert w.buffered != [] ==> (w.buffered + [n])[0] == w.buffered[0];
  }

  lemma BufferDelivered(w: Traffic, n: nat, f: nat)
    requires DeliveredOften(w, n, f)
    ensures DeliveredOften(w.(delivered := w.delivered + w.buffered), n + 1, f + One(w.buffered != []))
  {
    Distinct(w.buffered);
  }

  lemma {:induction false} Distinct(s: seq<nat>)
    requires forall i, j | 0 <= i < j < |s| :: s[i] != s[j]
    ensures forall k: nat :: multiset(s)[k] == if k in s then 1 else 0
  {
    if s != [] {
      var init, last := s[..|s| - 1], s[|s| - 1];
      Distinct(init);
      assert s == init + [last];
      assert last !in init;
    }
  }

  /** Each signal is delivered at most once if and only if a channel is registered at most once
      while signals are buffered. */
  lemma DeliveredOnceExactly(events: seq<Event>, policy: Policy)
    ensures (forall k: nat :: multiset(SignalsOf(events, policy).delivered)[k] <= 1) <==> Flushes(events, policy) <= 1
  {
    hide SignalsOf, Flushes;
    FlushesDeliver(events, policy);
  }

  /** A signal that is delivered twice: it was buffered when a channel was registered, and still is
      when another is. */
  lemma SignalTwice(signal: Text, policy: Policy)
    ensures var events := [Request(Signal(signal)), RegisterSignals(true), RegisterSignals(true)];
      After(events, policy).delivered == [signal, signal]
  {
    var a, b, c := Request(Signal(signal)), RegisterSignals(true), RegisterSignals(true);
    var two, one: seq<Event> := [a, b], [a];
    assert [a, b, c][..2] == two && two[..1] == one && one[..0] == [];
    assert After(one, policy).sigBuf == [signal] && After(one, policy).delivered == [];
    assert After(two, policy).delivered == [signal] && After(two, policy).sigBuf == [signal];
  }

  /** The session object that the request loop updates. */
  class ChannelSession {
    const policy: Policy

    var handled: bool
    var pty: Option<Pty>
    var env: seq<Text>
    var rawCmd: Text
    var subsystem: Text
    var sigCh: bool
    var sigBuf: seq<Text>
    var breakCh: bool
    var exited: bool
    var panicked: bool

    // What has gone out: to the handlers, the window and signal channels, and the client.
    var started: seq<Request>
    var windows: seq<Window>
    var delivered: seq<Text>
    var replies: seq<bool>
    var statuses: seq<nat>
    var breaks: nat

    ghost function Abs(): Session
      reads this
    {
      Session(handled, pty, env, rawCmd, subsystem, sigCh, sigBuf, delivered, breakCh, exited, panicked,
              started, windows, replies, statuses, breaks)
    }

    constructor (policy: Policy)
      ensures Abs() == Fresh && this.policy == policy
    {
      this.policy := policy;
      handled, pty, env, rawCmd, subsystem := false, None, [], "", "";
      sigCh, sigBuf, breakCh, exited, panicked := false, [], false, false, false;
      started, windows, delivered, replies, statuses, breaks := [], [], [], [], [], 0;
    }

    method SendReply(ok: bool)
      modifies this`replies
      ensures Abs() == Reply(old(Abs()), ok)
    {
      replies := replies + [ok];
    }

    method Accept(r: Request)
      modifies this`handled, this`started, this`replies
      ensures Abs() == Start(old(Abs()), r)
    {
      handled := true;
      started := started + [r];
      replies := replies + [true];
    }

    method HandleRun(r: Request)
      requires r.Run?
      modifies this`rawCmd, this`handled, this`started, this`replies
      ensures Abs() == RunProgram(old(Abs()), r, policy)
    {
      hide Start, Reply;
      if handled {
        SendReply(false);
        return;
      }
      rawCmd := r.command;
      if !policy.allows(r) {
        rawCmd := "";
        SendReply(false);
        return;
      }
      Accept(r);
    }

    method HandleSubsystem(r: Request)
      requires r.Subsystem?
      modifies this`rawCmd, this`subsystem, this`handled, this`started, this`replies
      ensures Abs() == OpenSubsystem(old(Abs()), r, policy)
    {
      hide Start, Reply;
      if handled {
        SendReply(false);
        return;
      }
      subsystem := r.name;
      if !policy.allows(r) {
        rawCmd := "";
        SendReply(false);
        return;
      }
      if r.name !in policy.subsystems && "default" !in policy.subsystems {
        SendReply(false);
        return;
      }
      Accept(r);
    }

    method HandleEnv(key: Text, value: Text)
      modifies this`env, this`replies
      ensures Abs() == SetEnv(old(Abs()), key, value)
    {
      hide Reply;
      if handled {
        SendReply(false);
        return;
      }
      env := env + [key + "=" + value];
      SendReply(true);
    }

    method HandleSignal(signal: Text)
      modifies this`sigBuf, this`delivered
      ensures Abs() == TakeSignal(old(Abs()), signal)
    {
      if sigCh {
        delivered := delivered + [signal];
      } else if |sigBuf| < MaxSigBufSize {
        sigBuf := sigBuf + [signal];
      }
    }

    method HandlePty(payload: Bytes)
      modifies this`pty, this`windows, this`replies, this`panicked
      ensures Abs() == TakePty(old(Abs()), payload, policy)
    {
      hide Reply, ParsePtyRequest;
      if handled || pty.Some? {
        SendReply(false);
        return;
      }
      var parsed := ParsePtyRequest(payload);
      if parsed.OutOfBounds? {
        panicked := true;
        return;
      }
      if parsed.Refused? || !policy.allowsPty(parsed.value) {
        SendReply(false);
        return;
      }
      pty := Some(parsed.value);
      windows := windows + [parsed.value.window];
      SendReply(true);
    }

    method HandleWindow(payload: Bytes)
      modifies this`pty, this`windows, this`replies
      ensures Abs() == TakeWindow(old(Abs()), payload)
    {
      hide Reply, ParseWinchRequest;
      if pty.None? {
        SendReply(false);
        return;
      }
      var parsed := ParseWinchRequest(payload);
      if parsed.Parsed? {
        pty := Some(pty.value.(window := parsed.value));
        windows := windows + [parsed.value];
      }
      SendReply(parsed.Parsed?);
    }

    method HandleBreak()
      modifies this`breaks, this`replies
      ensures Abs() == StepRequest(old(Abs()), Break, policy)
    {
      if breakCh {
        breaks := breaks + 1;
      }
      SendReply(breakCh);
    }

    /** One request. Without a panic, every request but a signal gets one reply, which says whether it
        took effect. */
    method HandleRequest(r: Request)
      modifies this
      ensures Abs() == StepRequest(old(Abs()), r, policy)
      ensures !r.Signal? && !old(panicked) && !panicked ==> replies == old(replies) + [TookEffect(old(Abs()), Abs(), r)]
    {
      if !r.Signal? && !panicked {
        ReplyIsTrue(Abs(), r, policy);
      }
      hide TookEffect, RunProgram, OpenSubsystem, SetEnv, TakeSignal, TakePty, TakeWindow, Reply;
      match r
      case Run(_, _) => HandleRun(r);
      case Subsystem(_) => HandleSubsystem(r);
      case Env(key, value) => HandleEnv(key, value);
      case Signal(signal) => HandleSignal(signal);
      case PtyReq(payload) => HandlePty(payload);
      case WindowChange(payload) => HandleWindow(payload);
      case AgentReq => SendReply(true);
      case Break => HandleBreak();
      case Other => SendReply(false);
    }

    method Call(e: Event)
      requires !e.Request?
      modifies this
      ensures old(panicked) || Abs() == Step(old(Abs()), e, policy)
    {
      match e
      case RegisterSignals(on) =>
        sigCh := on;
        if on {
          delivered := delivered + sigBuf;
        }
      case RegisterBreak(on) => breakCh := on;
      case Exit(code) =>
        if !exited {
          exited := true;
          statuses := statuses + [code];
        }
    }

    /** The request loop, interleaved with the calls of the session's handler. Whatever arrives, at
        most one program is started, the first one admitted and with the variables set before it; every
        request but a signal is answered once, truly; the signal buffer stays within its bound, only the
        first exit status is sent, and the pty has the size of the last window sent on. */
    method HandleRequests(events: seq<Event>)
      requires Abs() == Fresh
      modifies this
      ensures Abs() == After(events, policy)
      ensures |started| <= 1 && (handled <==> |started| == 1)
      ensures !panicked ==> |replies| == Requests(events) && replies == Verdicts(events, policy)
      ensures !panicked ==> started == Listed(FirstProgram(events, policy)) && env == EnvOf(events, policy)
      ensures !panicked ==> statuses == Listed(FirstExit(events))
      ensures |sigBuf| <= 128 && |statuses| <= 1
      ensures if pty.None? then windows == [] else windows != [] && pty.value.window == windows[|windows| - 1]
    {
      hide StepRequest;
      for i := 0 to |events|
        invariant Abs() == After(events[..i], policy)
      {
        assert events[..i + 1][..i] == events[..i];
        if !panicked {
          match events[i]
          case Request(r) => HandleRequest(r);
          case _ => Call(events[i]);
        }
      }
      assert events[..|events|] == events;
      StreamKeepsInv(events, policy);
      if !panicked {
        AllAsked(events, policy);
        RepliesAreVerdicts(events, policy);
        StreamDecides(events, policy);
      }
    }
  }
}
