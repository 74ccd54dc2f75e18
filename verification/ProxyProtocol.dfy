/** A proxied login from its gates to its clean-up: permission, login confirmation by ticket,
    the session and switch tables, and the records kept of the session. Proxies, reviewers,
    cancelling users and pollers run concurrently; a step is one lock-protected or database
    operation. */
module ProxyProtocol {
  import opened Wrappers

  type User = string
  type TicketId = nat
  /** The id of a session, one per proxy. */
  type Id = nat

  datatype TicketState = Pending | Approved | Rejected | Closed
  datatype Ticket = Ticket(state: TicketState, approver: User)

  /** What let a proxy pass the confirmation gate. */
  datatype Pass = NotNeeded | ApprovedBy(ticket: TicketId, approver: User)

  datatype Phase =
    | Idle
    | Authorized
    | Permitted
    | TicketMade(ticket: TicketId)
    | Polling(ticket: TicketId, cancelled: bool)
    | Confirmed(pass: Pass)
    | Created(pass: Pass)
    | Switched(pass: Pass)
    // The server could not be reached: look up, record, delete.
    | FailLookup(pass: Pass)
    | FailRecord(pass: Pass)
    | FailDelete(pass: Pass)
    // The server was reached.
    | Reached(pass: Pass)
    | Bridging(pass: Pass)
    // Deferred clean-up.
    | CloseLookup(pass: Pass)
    | CloseRecord(pass: Pass)
    | CloseDelete(pass: Pass)
    | Unswitch(pass: Pass)
    | Returned(earned: Option<Pass>)

  /** Records written to the user log about a session. */
  datatype Record = LoggedIn(id: Id) | LoginFailed(id: Id) | Disconnected(id: Id)

  datatype State = State(
    tickets: map<TicketId, Ticket>,
    sessions: set<Id>,
    switches: set<Id>,
    records: seq<Record>,
    proxies: map<Id, Phase>)

  const Init := State(map[], {}, {}, [], map[])

  datatype Action =
    | CheckAuth(id: Id, ok: bool)
    | CheckPermission(id: Id, expired: bool)
    /** `need` is the database's answer; without a row confirmation is needed. */
    | CheckNeed(id: Id, need: Option<bool>, ticket: TicketId)
    | CheckNeedFailed(id: Id)
    | GetReviewers(id: Id, ok: bool)
    | UserCancels(id: Id)
    | Poll(id: Id, ok: bool)
    | CancelTicket(id: Id, ok: bool)
    | CreateSession(id: Id)
    | AddSwitch(id: Id)
    | ConnectServer(id: Id, ok: bool)
    | LookUpFailed(id: Id)
    | RecordFailed(id: Id)
    | DeleteFailed(id: Id)
    | RecordSuccess(id: Id)
    | EndBridge(id: Id)
    | LookUpClosed(id: Id)
    | RecordClosed(id: Id)
    | DeleteClosed(id: Id)
    | RemoveSwitch(id: Id)
    /** Somebody decides on a ticket id; `ok` is false if the database refuses. */
    | Review(ticket: TicketId, approve: bool, user: User, ok: bool)

  function PhaseOf(s: State, id: Id): Phase {
    if id in s.proxies then s.proxies[id] else Idle
  }

  /** The guarded update of the ticket table: only a pending ticket changes. */
  function UpdateTicket(tickets: map<TicketId, Ticket>, id: TicketId, state: TicketState, user: User): map<TicketId, Ticket> {
    if id in tickets && tickets[id].state == Pending then tickets[id := Ticket(state, user)] else tickets
  }

  predicate Enabled(s: State, a: Action) {
    match a
    case CheckAuth(id, _) => PhaseOf(s, id).Idle?
    case CheckPermission(id, _) => PhaseOf(s, id).Authorized?
    case CheckNeed(id, need, ticket) => PhaseOf(s, id).Permitted? && ticket !in s.tickets
    case CheckNeedFailed(id) => PhaseOf(s, id).Permitted?
    case GetReviewers(id, _) => PhaseOf(s, id).TicketMade?
    case UserCancels(id) => PhaseOf(s, id).Polling?
    case Poll(id, _) => PhaseOf(s, id).Polling?
    case CancelTicket(id, _) => PhaseOf(s, id).Polling? && PhaseOf(s, id).cancelled
    case CreateSession(id) => PhaseOf(s, id).Confirmed?
    case AddSwitch(id) => PhaseOf(s, id).Created?
    case ConnectServer(id, _) => PhaseOf(s, id).Switched?
    case LookUpFailed(id) => PhaseOf(s, id).FailLookup?
    case RecordFailed(id) => PhaseOf(s, id).FailRecord?
    case DeleteFailed(id) => PhaseOf(s, id).FailDelete?
    case RecordSuccess(id) => PhaseOf(s, id).Reached?
    case EndBridge(id) => PhaseOf(s, id).Bridging?
    case LookUpClosed(id) => PhaseOf(s, id).CloseLookup?
    case RecordClosed(id) => PhaseOf(s, id).CloseRecord?
    case DeleteClosed(id) => PhaseOf(s, id).CloseDelete?
    case RemoveSwitch(id) => PhaseOf(s, id).Unswitch?
    case Review(_, _, _, _) => true
  }

  function AfterPoll(s: State, p: Phase): Phase
    requires p.Polling?
  {
    if p.ticket !in s.tickets then p
    else
      match s.tickets[p.ticket].state
      case Pending => p
      case Approved => Confirmed(ApprovedBy(p.ticket, s.tickets[p.ticket].approver))
      case Rejected => Returned(None)
      case Closed => Returned(None)
  }

  /** Where the acting proxy goes. */
  function NextPhase(s: State, a: Action): Phase
    requires Enabled(s, a) && !a.Review?
  {
    var p := PhaseOf(s, a.id);
    match a
    case CheckAuth(_, ok) => if ok then Authorized else Returned(None)
    case CheckPermission(_, expired) => if expired then Returned(None) else Permitted
    case CheckNeed(_, need, ticket) => if need == Some(false) then Confirmed(NotNeeded) else TicketMade(ticket)
    case CheckNeedFailed(_) => Returned(None)
    case GetReviewers(_, ok) => if ok then Polling(p.ticket, false) else Returned(None)
    case UserCancels(_) => Polling(p.ticket, true)
    case Poll(_, ok) => if ok then AfterPoll(s, p) else p
    case CancelTicket(_, _) => Returned(None)
    case CreateSession(_) => Created(p.pass)
    case AddSwitch(_) => Switched(p.pass)
    case ConnectServer(_, ok) => if ok then Reached(p.pass) else FailLookup(p.pass)
    case LookUpFailed(_) => if a.id in s.sessions then FailRecord(p.pass) else CloseLookup(p.pass)
    case RecordFailed(_) => FailDelete(p.pass)
    case DeleteFailed(_) => CloseLookup(p.pass)
    case RecordSuccess(_) => Bridging(p.pass)
    case EndBridge(_) => CloseLookup(p.pass)
    case LookUpClosed(_) => if a.id in s.sessions then CloseRecord(p.pass) else Unswitch(p.pass)
    case RecordClosed(_) => CloseDelete(p.pass)
    case DeleteClosed(_) => Unswitch(p.pass)
    case RemoveSwitch(_) => Returned(Some(p.pass))
  }

  /** The shared state after a step, apart from the acting proxy's phase. */
  function Shared(s: State, a: Action): State
    requires Enabled(s, a)
  {
    match a
    case CheckNeed(_, need, ticket) =>
      if need == Some(false) then s else s.(tickets := s.tickets[ticket := Ticket(Pending, "")])
    case CancelTicket(id, ok) =>
      if ok then s.(tickets := UpdateTicket(s.tickets, PhaseOf(s, id).ticket, Closed, "")) else s
    case CreateSession(id) => s.(sessions := s.sessions + {id})
    case AddSwitch(id) => s.(switches := s.switches + {id})
    case RecordFailed(id) => s.(records := s.records + [LoginFailed(id)])
    case DeleteFailed(id) => s.(sessions := s.sessions - {id})
    case RecordSuccess(id) => if id in s.sessions then s.(records := s.records + [LoggedIn(id)]) else s
    case RecordClosed(id) => s.(records := s.records + [Disconnected(id)])
    case DeleteClosed(id) => s.(sessions := s.sessions - {id})
    case RemoveSwitch(id) => s.(switches := s.switches - {id})
    case Review(ticket, approve, user, ok) =>
      if ok then s.(tickets := UpdateTicket(s.tickets, ticket, if approve then Approved else Rejected, user)) else s
    case _ => s
  }

  function Apply(s: State, a: Action): State
    requires Enabled(s, a)
  {
    var s' := Shared(s, a);
    if a.Review? then s' else s'.(proxies := s'.proxies[a.id := NextPhase(s, a)])
  }

  ghost predicate IsRun(states: seq<State>, actions: seq<Action>) {
    && |states| == |actions| + 1 && states[0] == Init
    && forall i | 0 <= i < |actions| :: Enabled(states[i], actions[i]) && states[i + 1] == Apply(states[i], actions[i])
  }

  // Tickets -----------------------------------------------------------------

  /** A decided ticket. */
  predicate Decided(s: State, t: TicketId) {
    t in s.tickets && s.tickets[t].state != Pending
  }

  /** A step never changes a decided ticket, and never loses one. */
  lemma StepKeepsDecision(s: State, a: Action, t: TicketId)
    requires Enabled(s, a)
    ensures t in s.tickets ==> t in Apply(s, a).tickets
    ensures Decided(s, t) ==> Apply(s, a).tickets[t] == s.tickets[t]
  {
  }

  /** Terminal ticket states are absorbing and the approver is written at most once: a decided
      ticket is the same in every later state of every run. */
  lemma {:induction false} DecisionsAreFinal(states: seq<State>, actions: seq<Action>, i: nat, j: nat, t: TicketId)
    requires IsRun(states, actions) && i <= j < |states|
    requires Decided(states[i], t)
    ensures Decided(states[j], t) && states[j].tickets[t] == states[i].tickets[t]
    decreases j
  {
    if i < j {
      DecisionsAreFinal(states, actions, i, j - 1, t);
      StepKeepsDecision(states[j - 1], actions[j - 1], t);
    }
  }

  /** The pass of a proxy that is beyond the confirmation gate. */
  function PassOf(p: Phase): Option<Pass> {
    if p.Idle? || p.Authorized? || p.Permitted? || p.TicketMade? || p.Polling? then None
    else if p.Returned? then p.earned
    else Some(p.pass)
  }

  /** The ticket behind the pass is approved by the approver that was reported. */
  predicate Backed(s: State, pass: Option<Pass>) {
    match pass
    case Some(ApprovedBy(t, approver)) => t in s.tickets && s.tickets[t] == Ticket(Approved, approver)
    case _ => true
  }

  lemma StepBacked(s: State, a: Action, id: Id)
    requires Enabled(s, a) && Backed(s, PassOf(PhaseOf(s, id)))
    ensures Backed(Apply(s, a), PassOf(PhaseOf(Apply(s, a), id)))
  {
    StepPhase(s, a, id);
    match PassOf(PhaseOf(Apply(s, a), id))
    case Some(ApprovedBy(t, approver)) => StepKeepsDecision(s, a, t);
    case _ =>
  }

  lemma {:induction false} RunBacked(states: seq<State>, actions: seq<Action>, n: nat, id: Id)
    requires IsRun(states, actions) && n < |states|
    ensures Backed(states[n], PassOf(PhaseOf(states[n], id)))
  {
    if n > 0 {
      RunBacked(states, actions, n - 1, id);
      StepBacked(states[n - 1], actions[n - 1], id);
    }
  }

  /** The proxy asked for its confirmation at step `i`, with this outcome. */
  predicate AskedAt(actions: seq<Action>, i: nat, id: Id, pass: Pass) {
    && i < |actions| && actions[i].CheckNeed? && actions[i].id == id
    && match pass
       case NotNeeded => actions[i].need == Some(false)
       case ApprovedBy(t, _) => actions[i].need != Some(false) && actions[i].ticket == t
  }

  /** The ticket a waiting proxy waits for is the one made for it. */
  lemma {:induction false} TicketOrigin(states: seq<State>, actions: seq<Action>, n: nat, id: Id) returns (i: nat)
    requires IsRun(states, actions) && n < |states|
    requires PhaseOf(states[n], id).TicketMade? || PhaseOf(states[n], id).Polling?
    ensures i < n && AskedAt(actions, i, id, ApprovedBy(PhaseOf(states[n], id).ticket, ""))
  {
    hide Shared;
    var s, a := states[n - 1], actions[n - 1];
    StepPhase(s, a, id);
    if a.CheckNeed? && a.id == id {
      i := n - 1;
    } else {
      i := TicketOrigin(states, actions, n - 1, id);
    }
  }

  lemma StepPhase(s: State, a: Action, id: Id)
    requires Enabled(s, a)
    ensures PhaseOf(Apply(s, a), id) == if !a.Review? && a.id == id then NextPhase(s, a) else PhaseOf(s, id)
  {
  }

  lemma {:induction false} PassOrigin(states: seq<State>, actions: seq<Action>, n: nat, id: Id) returns (i: nat)
    requires IsRun(states, actions) && n < |states| && PassOf(PhaseOf(states[n], id)).Some?
    ensures i < n && AskedAt(actions, i, id, PassOf(PhaseOf(states[n], id)).value)
  {
    hide Shared;
    var s, a := states[n - 1], actions[n - 1];
    StepPhase(s, a, id);
    if PassOf(PhaseOf(s, id)).Some? {
      i := PassOrigin(states, actions, n - 1, id);
    } else if a.CheckNeed? {
      i := n - 1;
    } else {
      i := TicketOrigin(states, actions, n - 1, id);
    }
  }

  lemma {:induction false} TicketsStay(states: seq<State>, actions: seq<Action>, i: nat, j: nat, t: TicketId)
    requires IsRun(states, actions) && i <= j < |states| && t in states[i].tickets
    ensures t in states[j].tickets
    decreases j
  {
    if i < j {
      TicketsStay(states, actions, i, j - 1, t);
      StepKeepsDecision(states[j - 1], actions[j - 1], t);
    }
  }

  /** Step `k` decided the open ticket `t`, with this outcome. */
  predicate DecidedBy(states: seq<State>, actions: seq<Action>, k: nat, t: TicketId, outcome: Ticket)
    requires |actions| < |states|
  {
    && k < |actions| && t in states[k].tickets && states[k].tickets[t].state == Pending
    && match actions[k]
       case Review(ticket, approve, user, ok) =>
         ticket == t && ok && outcome == Ticket(if approve then Approved else Rejected, user)
       case CancelTicket(id, ok) =>
         PhaseOf(states[k], id).Polling? && PhaseOf(states[k], id).ticket == t && ok && outcome == Ticket(Closed, "")
       case _ => false
  }

  lemma {:induction false} DecisionStep(states: seq<State>, actions: seq<Action>, n: nat, t: TicketId) returns (k: nat)
    requires IsRun(states, actions) && n < |states| && Decided(states[n], t)
    ensures k < n && DecidedBy(states, actions, k, t, states[n].tickets[t])
  {
    hide NextPhase;
    if Decided(states[n - 1], t) {
      k := DecisionStep(states, actions, n - 1, t);
      StepKeepsDecision(states[n - 1], actions[n - 1], t);
    } else {
      k := n - 1;
    }
  }

  /** A decided ticket carries the outcome of the first decision on it that the database accepted:
      approved or rejected as somebody said, and by whom, or closed by the user. */
  lemma DecisionOrigin(states: seq<State>, actions: seq<Action>, n: nat, t: TicketId) returns (k: nat)
    requires IsRun(states, actions) && n < |states| && Decided(states[n], t)
    ensures k < n && DecidedBy(states, actions, k, t, states[n].tickets[t])
    ensures forall j | 0 <= j <= k :: !Decided(states[j], t)
  {
    hide Enabled, Apply;
    k := DecisionStep(states, actions, n, t);
    forall j | 0 <= j <= k
      ensures !Decided(states[j], t)
    {
      if Decided(states[j], t) {
        DecisionsAreFinal(states, actions, j, k, t);
      }
    }
  }

  // The gates -------------------------------------------------------------------

  lemma {:induction false} AuthOrigin(states: seq<State>, actions: seq<Action>, n: nat, id: Id) returns (g: nat)
    requires IsRun(states, actions) && n < |states| && PhaseOf(states[n], id).Authorized?
    ensures g < n && actions[g] == CheckAuth(id, true)
  {
    hide Shared;
    StepPhase(states[n - 1], actions[n - 1], id);
    if PhaseOf(states[n - 1], id).Authorized? {
      g := AuthOrigin(states, actions, n - 1, id);
    } else {
      g := n - 1;
    }
  }

  lemma {:induction false} PermissionOrigin(states: seq<State>, actions: seq<Action>, n: nat, id: Id) returns (g: nat, h: nat)
    requires IsRun(states, actions) && n < |states| && PhaseOf(states[n], id).Permitted?
    ensures g < h < n && actions[g] == CheckAuth(id, true) && actions[h] == CheckPermission(id, false)
  {
    hide Shared;
    StepPhase(states[n - 1], actions[n - 1], id);
    if PhaseOf(states[n - 1], id).Permitted? {
      g, h := PermissionOrigin(states, actions, n - 1, id);
    } else {
      h := n - 1;
      g := AuthOrigin(states, actions, h, id);
    }
  }

  /** What has to have happened, in this order, before a session: the user was authenticated, had a
      permission that was not expired, asked whether confirmation is needed, and if so somebody
      approved the ticket made for that. */
  predicate Admitted(actions: seq<Action>, id: Id, pass: Pass, g: nat, h: nat, i: nat, k: nat) {
    && g < h < i < |actions|
    && actions[g] == CheckAuth(id, true)
    && actions[h] == CheckPermission(id, false)
    && AskedAt(actions, i, id, pass)
    && (pass.ApprovedBy? ==> i < k < |actions| && actions[k] == Review(pass.ticket, true, pass.approver, true))
  }

  /** Login safety: in every interleaving of reviewers, cancelling users and pollers, a proxy that has
      created its session, is bridged, or has been, was admitted through all gates; and the ticket
      that admitted it is, and in every later state stays, approved by the approver that was
      reported to the user. */
  lemma SessionsAreConfirmed(states: seq<State>, actions: seq<Action>, n: nat, m: nat, id: Id)
    returns (g: nat, h: nat, i: nat, k: nat)
    requires IsRun(states, actions) && n <= m < |states|
    requires id in states[n].sessions || PhaseOf(states[n], id).Bridging?
    ensures PassOf(PhaseOf(states[n], id)).Some?
    ensures Admitted(actions, id, PassOf(PhaseOf(states[n], id)).value, g, h, i, k) && i < n && k < n
    ensures Backed(states[m], PassOf(PhaseOf(states[n], id)))
  {
    hide Apply;
    RunLifecycle(states, actions, n, id);
    i := PassOrigin(states, actions, n, id);
    g, h := PermissionOrigin(states, actions, i, id);
    RunBacked(states, actions, n, id);
    var pass := PassOf(PhaseOf(states[n], id)).value;
    k := i;
    if pass.ApprovedBy? {
      DecisionsAreFinal(states, actions, n, m, pass.ticket);
      k := DecisionOrigin(states, actions, n, pass.ticket);
      if k <= i {
        TicketsStay(states, actions, k, i, pass.ticket);
      }
    }
  }

  /** A poll that reads a decided ticket ends the wait: with a pass if it was approved, else for good. */
  lemma PollEnds(states: seq<State>, actions: seq<Action>, n: nat, id: Id)
    requires IsRun(states, actions) && n < |actions| && actions[n] == Poll(id, true)
    requires Decided(states[n], PhaseOf(states[n], id).ticket)
    ensures var t := PhaseOf(states[n], id).ticket;
      PhaseOf(states[n + 1], id) ==
        if states[n].tickets[t].state == Approved then Confirmed(ApprovedBy(t, states[n].tickets[t].approver)) else Returned(None)
  {
    hide Shared;
    StepPhase(states[n], actions[n], id);
  }

  /** A wait goes on until a poll reads a decision or the proxy acts on its user's cancelling. */
  lemma WaitGoesOn(states: seq<State>, actions: seq<Action>, n: nat, id: Id)
    requires IsRun(states, actions) && n < |actions| && PhaseOf(states[n], id).Polling?
    ensures var p, p' := PhaseOf(states[n], id), PhaseOf(states[n + 1], id);
      || (p'.Polling? && p'.ticket == p.ticket && (p'.cancelled <==> p.cancelled || actions[n] == UserCancels(id)))
      || (actions[n] == Poll(id, true) && Decided(states[n], p.ticket))
      || (actions[n].CancelTicket? && actions[n].id == id && p.cancelled)
  {
    hide Shared;
    StepPhase(states[n], actions[n], id);
  }

  /** A proxy that has returned stays so; one that was refused, expired, rejected or cancelled before
      its session never gets one. */
  lemma {:induction false} ReturnedIsFinal(states: seq<State>, actions: seq<Action>, i: nat, j: nat, id: Id)
    requires IsRun(states, actions) && i <= j < |states| && PhaseOf(states[i], id).Returned?
    ensures PhaseOf(states[j], id) == PhaseOf(states[i], id)
    decreases j
  {
    hide Shared;
    if i < j {
      ReturnedIsFinal(states, actions, i, j - 1, id);
      StepPhase(states[j - 1], actions[j - 1], id);
    }
  }

  lemma RefusedNeverEnters(states: seq<State>, actions: seq<Action>, i: nat, j: nat, id: Id)
    requires IsRun(states, actions) && i < j < |states|
    requires actions[i] in {CheckAuth(id, false), CheckPermission(id, true), CheckNeedFailed(id)} || (actions[i].CancelTicket? && actions[i].id == id)
    ensures PhaseOf(states[j], id) == Returned(None) && id !in states[j].sessions
  {
    hide Shared;
    StepPhase(states[i], actions[i], id);
    ReturnedIsFinal(states, actions, i + 1, j, id);
    RunLifecycle(states, actions, j, id);
  }

  /** A cancelled wait whose update the database accepts never leaves the ticket open. */
  lemma CancelCloses(states: seq<State>, actions: seq<Action>, n: nat, m: nat)
    requires IsRun(states, actions) && n < m < |states|
    requires actions[n].CancelTicket? && actions[n].ok
    ensures Decided(states[m], PhaseOf(states[n], actions[n].id).ticket)
  {
    var t := PhaseOf(states[n], actions[n].id).ticket;
    var i := TicketOrigin(states, actions, n, actions[n].id);
    assert t in states[i + 1].tickets;
    TicketsStay(states, actions, i + 1, n, t);
    assert Decided(states[n + 1], t);
    DecisionsAreFinal(states, actions, n + 1, m, t);
  }

  // Session lifecycle ---------------------------------------------------------

  predicate Closes(r: Record, id: Id) {
    r == LoginFailed(id) || r == Disconnected(id)
  }

  /** Number of closing records of a session. */
  function Closings(records: seq<Record>, id: Id): nat {
    if records == [] then 0
    else Closings(records[..|records| - 1], id) + if Closes(records[|records| - 1], id) then 1 else 0
  }

  lemma ClosingsAppend(records: seq<Record>, r: Record, id: Id)
    ensures Closings(records + [r], id) == Closings(records, id) + if Closes(r, id) then 1 else 0
  {
    assert (records + [r])[..|records|] == records;
  }

  /** The proxy has created its session and not yet deleted it. */
  predicate Listed(p: Phase, gone: bool) {
    p.Created? || p.Switched? || p.FailLookup? || p.FailRecord? || p.FailDelete? || p.Reached? || p.Bridging?
    || p.CloseRecord? || p.CloseDelete? || (p.CloseLookup? && !gone)
  }

  /** The proxy is in the switch table. */
  predicate IsSwitched(p: Phase) {
    p.Switched? || p.FailLookup? || p.FailRecord? || p.FailDelete? || p.Reached? || p.Bridging?
    || p.CloseLookup? || p.CloseRecord? || p.CloseDelete? || p.Unswitch?
  }

  /** Closing records written so far; a session that is gone has been closed. */
  function ClosedBy(p: Phase, gone: bool): nat {
    if p.FailDelete? || p.CloseDelete? || p.Unswitch? || (p.CloseLookup? && gone) || (p.Returned? && p.earned.Some?) then 1 else 0
  }

  /** What the tables and records say about a session agrees with how far its proxy is. */
  predicate Lifecycle(s: State, id: Id) {
    var p, gone := PhaseOf(s, id), id !in s.sessions;
    && (id in s.sessions <==> Listed(p, gone))
    && (id in s.switches <==> IsSwitched(p))
    && Closings(s.records, id) == ClosedBy(p, gone)
  }

  /** What the action itself writes about a session. */
  lemma StepRecords(s: State, a: Action, id: Id)
    requires Enabled(s, a)
    ensures Closings(Apply(s, a).records, id) ==
            Closings(s.records, id) + if (a.RecordFailed? || a.RecordClosed?) && a.id == id then 1 else 0
  {
    match a
    case RecordFailed(q) => ClosingsAppend(s.records, LoginFailed(q), id);
    case RecordSuccess(q) => ClosingsAppend(s.records, LoggedIn(q), id);
    case RecordClosed(q) => ClosingsAppend(s.records, Disconnected(q), id);
    case _ =>
  }

  lemma StepListing(s: State, a: Action, id: Id)
    requires Enabled(s, a)
    ensures var own := !a.Review? && a.id == id;
      && (id in Apply(s, a).sessions <==>
           if own && a.CreateSession? then true else if own && (a.DeleteFailed? || a.DeleteClosed?) then false else id in s.sessions)
      && (id in Apply(s, a).switches <==>
           if own && a.AddSwitch? then true else if own && a.RemoveSwitch? then false else id in s.switches)
  {
  }

  lemma StepLifecycle(s: State, a: Action, id: Id)
    requires Enabled(s, a) && Lifecycle(s, id)
    ensures Lifecycle(Apply(s, a), id)
  {
    hide Apply, Closings;
    StepPhase(s, a, id);
    StepRecords(s, a, id);
    StepListing(s, a, id);
  }

  lemma {:induction false} RunLifecycle(states: seq<State>, actions: seq<Action>, n: nat, id: Id)
    requires IsRun(states, actions) && n < |states|
    ensures Lifecycle(states[n], id)
  {
    if n > 0 {
      RunLifecycle(states, actions, n - 1, id);
      StepLifecycle(states[n - 1], actions[n - 1], id);
    }
  }

  /** Over all interleavings, when a proxy that created its session returns, the session has
      left the session table and the switch table, and exactly one closing record was
      attempted for it: failed or disconnected, never both. A proxy that returns before
      creating its session leaves no trace. */
  lemma ReturnCleansUp(states: seq<State>, actions: seq<Action>, n: nat, id: Id)
    requires IsRun(states, actions) && n < |states| && PhaseOf(states[n], id).Returned?
    ensures id !in states[n].sessions && id !in states[n].switches
    ensures Closings(states[n].records, id) == if PhaseOf(states[n], id).earned.Some? then 1 else 0
  {
    RunLifecycle(states, actions, n, id);
  }

  // What is recorded --------------------------------------------------------------

  /** The records about one session. */
  function About(records: seq<Record>, id: Id): seq<Record> {
    if records == [] then []
    else
      var n := |records| - 1;
      About(records[..n], id) + if records[n].id == id then [records[n]] else []
  }

  lemma AboutAppend(records: seq<Record>, r: Record, id: Id)
    ensures About(records + [r], id) == About(records, id) + if r.id == id then [r] else []
  {
    assert (records + [r])[..|records|] == records;
  }

  /** Whether the proxy has reached its server, if it has tried. */
  function Reach(actions: seq<Action>, id: Id): Option<bool> {
    if actions == [] then None
    else
      var last := actions[|actions| - 1];
      if last.ConnectServer? && last.id == id then Some(last.ok) else Reach(actions[..|actions| - 1], id)
  }

  /** The whole story of a session: failed, or in and out. */
  function Story(id: Id, reached: bool): seq<Record> {
    if reached then [LoggedIn(id), Disconnected(id)] else [LoginFailed(id)]
  }

  predicate Tells(p: Phase, listed: bool, id: Id, reach: Option<bool>, about: seq<Record>) {
    if p.FailLookup? || p.FailRecord? then reach == Some(false) && about == []
    else if p.FailDelete? then reach == Some(false) && about == [LoginFailed(id)]
    else if p.Reached? then reach == Some(true) && about == []
    else if p.Bridging? || p.CloseRecord? then reach == Some(true) && about == [LoggedIn(id)]
    else if p.CloseLookup? then
      reach == Some(listed) && about == if listed then [LoggedIn(id)] else [LoginFailed(id)]
    else if p.CloseDelete? then reach == Some(true) && about == Story(id, true)
    else if p.Unswitch? || (p.Returned? && p.earned.Some?) then reach.Some? && about == Story(id, reach.value)
    else reach.None? && about == []
  }

  lemma StepAbout(s: State, a: Action, id: Id)
    requires Enabled(s, a)
    ensures About(Apply(s, a).records, id) == About(s.records, id) +
      if a == RecordFailed(id) then [LoginFailed(id)]
      else if a == RecordClosed(id) then [Disconnected(id)]
      else if a == RecordSuccess(id) && id in s.sessions then [LoggedIn(id)]
      else []
  {
    match a
    case RecordFailed(q) => AboutAppend(s.records, LoginFailed(q), id);
    case RecordSuccess(q) => AboutAppend(s.records, LoggedIn(q), id);
    case RecordClosed(q) => AboutAppend(s.records, Disconnected(q), id);
    case _ =>
  }

  lemma StepTells(s: State, a: Action, id: Id, reach: Option<bool>)
    requires Enabled(s, a) && Lifecycle(s, id)
    requires Tells(PhaseOf(s, id), id in s.sessions, id, reach, About(s.records, id))
    ensures var s' := Apply(s, a);
      Tells(PhaseOf(s', id), id in s'.sessions, id, if a.ConnectServer? && a.id == id then Some(a.ok) else reach, About(s'.records, id))
  {
    hide Shared, Apply, About, Closings;
    StepPhase(s, a, id);
    StepListing(s, a, id);
    StepAbout(s, a, id);
  }

  lemma {:induction false} RunTells(states: seq<State>, actions: seq<Action>, n: nat, id: Id)
    requires IsRun(states, actions) && n < |states|
    ensures Tells(PhaseOf(states[n], id), id in states[n].sessions, id, Reach(actions[..n], id), About(states[n].records, id))
  {
    hide Enabled, Apply, About, Lifecycle;
    if n == 0 {
      NothingAbout(id);
    } else {
      hide Tells;
      RunTells(states, actions, n - 1, id);
      RunLifecycle(states, actions, n - 1, id);
      assert actions[..n][..n - 1] == actions[..n - 1];
      StepTells(states[n - 1], actions[n - 1], id, Reach(actions[..n - 1], id));
    }
  }

  lemma NothingAbout(id: Id)
    ensures About([], id) == []
  {
  }

  /** When a proxy that created its session returns, the records tell what happened to it, once and in
      order: logged in and disconnected if it reached its server, failed if it did not. */
  lemma RecordsTellTheStory(states: seq<State>, actions: seq<Action>, n: nat, id: Id)
    requires IsRun(states, actions) && n < |states|
    requires PhaseOf(states[n], id).Returned? && PhaseOf(states[n], id).earned.Some?
    ensures Reach(actions[..n], id).Some?
    ensures About(states[n].records, id) == Story(id, Reach(actions[..n], id).value)
  {
    RunTells(states, actions, n, id);
  }
}
