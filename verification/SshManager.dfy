/** Reuse of SSH clients: the manager goroutine that owns the client cache, the callers that
    ask it over unbuffered channels, and the reference counts of the clients' sessions. */
module SshManager {
  import opened Wrappers

  type Key = string
  type Client = nat
  type Session = nat
  type Thread = nat

  // The cache entry of one key --------------------------------------------

  function Count(refs: map<Client, int>, c: Client): int {
    if c in refs then refs[c] else 0
  }

  /** The client that a lookup among `stored` yields: one with the largest reference count,
      or none if nothing is stored. */
  ghost predicate IsAnswer(stored: set<Client>, refs: map<Client, int>, answer: Option<Client>) {
    match answer
    case None => stored == {}
    case Some(c) => c in stored && forall d | d in stored :: Count(refs, d) <= Count(refs, c)
  }

  /** The clients that a recycling leaves: those in use. */
  function InUse(stored: set<Client>, refs: map<Client, int>): set<Client> {
    set c | c in stored && Count(refs, c) > 0
  }

  class UserSSHClient {
    var data: set<Client>

    constructor ()
      ensures data == {}
    {
      data := {};
    }

    /** Scans the clients in some order and keeps the last one that is not exceeded. Each count is
        read twice, to be compared and to be kept, and may change in between. */
    method GetClient(compared: map<Client, int>, kept: map<Client, int>) returns (selected: Option<Client>)
      requires forall c | c in data :: Count(compared, c) >= 0
      ensures selected.None? <==> data == {}
      ensures selected.Some? ==> selected.value in data
      ensures compared == kept ==> IsAnswer(data, kept, selected)
    {
      selected := None;
      var refCount := 0;
      var rest := data;
      while rest != {}
        invariant rest <= data
        invariant if selected.None? then rest == data && refCount == 0
                  else selected.value in data && refCount == Count(kept, selected.value)
        invariant compared == kept ==> forall c | c in data - rest :: Count(kept, c) <= refCount
      {
        var c :| c in rest;
        rest := rest - {c};
        if refCount <= Count(compared, c) {
          refCount := Count(kept, c);
          selected := Some(c);
        }
      }
    }

    /** Removes and closes the clients that are not in use. */
    method RecycleClients(refs: map<Client, int>) returns (closed: set<Client>)
      modifies this
      ensures data == InUse(old(data), refs) && closed == old(data) - data
    {
      closed := {};
      var rest := data;
      while rest != {}
        invariant rest <= data == old(data)
        invariant closed == set c | c in data - rest && Count(refs, c) <= 0
      {
        var c :| c in rest;
        rest := rest - {c};
        if Count(refs, c) <= 0 {
          closed := closed + {c};
        }
      }
      data := data - closed;
    }
  }

  // The protocol ------------------------------------------------------------

  /** Where a caller stands. `cached` tells a client from the cache from a freshly dialled
      one; a caller whose cached client fails goes on to dial (`retry`). */
  datatype Phase =
    | Idle
    | Requesting(key: Key)
    | Awaiting(key: Key)
    | Answered(key: Key, found: Option<Client>)
    | Dialing(key: Key)
    | Storing(key: Key, client: Client)
    | Ready(key: Key, client: Client, cached: bool)
    | Acquiring(key: Key, client: Client, cached: bool)
    | AcquireFailed(key: Key, client: Client, cached: bool)
    | Opened(key: Key, client: Client, cached: bool, session: Session)
    | Connecting(key: Key, client: Client, cached: bool, session: Session)
    | Live(key: Key, client: Client, session: Session)
    | Releasing(key: Key, client: Client, session: Session, retry: bool)
    | Released(key: Key, client: Client, session: Session, retry: bool)
    | Finished

  /** The manager waits in its select, or is blocked sending a result. */
  datatype Manager = Waiting | Replying(answer: Option<Client>)

  datatype State = State(
    stored: map<Key, set<Client>>,
    manager: Manager,
    refs: map<Client, int>,
    traced: map<Client, set<Session>>,
    threads: map<Thread, Phase>,
    clients: set<Client>,
    closed: set<Client>,
    sessions: set<Session>,
    releases: multiset<Session>)

  const Init := State(map[], Waiting, map[], map[], map[], {}, {}, {}, multiset{})

  datatype Action =
    | Begin(t: Thread, key: Key, reuse: bool)
    | Request(t: Thread, answer: Option<Client>)
    | Deliver(t: Thread)
    | UseAnswer(t: Thread)
    | Dial(t: Thread, client: Option<Client>)
    | Store(t: Thread)
    | AcquireBegin(t: Thread)
    | AcquireEnd(t: Thread, session: Option<Session>)
    | AcquireUndo(t: Thread)
    | Trace(t: Thread)
    | Connect(t: Thread, ok: bool)
    | End(t: Thread)
    | ReleaseCount(t: Thread)
    | ReleaseTrace(t: Thread)
    | Recycle

  function StoredAt(s: State, key: Key): set<Client> {
    if key in s.stored then s.stored[key] else {}
  }

  function TracedAt(s: State, c: Client): set<Session> {
    if c in s.traced then s.traced[c] else {}
  }

  type Threads = map<Thread, Phase>

  function PhaseIn(threads: Threads, t: Thread): Phase {
    if t in threads then threads[t] else Idle
  }

  function PhaseOf(s: State, t: Thread): Phase {
    PhaseIn(s.threads, t)
  }

  /** Sends and receives on the unbuffered channels are joint steps of caller and manager. */
  ghost predicate Enabled(s: State, a: Action) {
    match a
    case Begin(t, key, reuse) => PhaseOf(s, t).Idle?
    case Request(t, answer) =>
      && PhaseOf(s, t).Requesting? && s.manager.Waiting?
      && IsAnswer(StoredAt(s, PhaseOf(s, t).key), s.refs, answer)
    case Deliver(t) => PhaseOf(s, t).Awaiting? && s.manager.Replying?
    case UseAnswer(t) => PhaseOf(s, t).Answered?
    case Dial(t, client) => PhaseOf(s, t).Dialing? && (client.Some? ==> client.value !in s.clients)
    case Store(t) => PhaseOf(s, t).Storing? && s.manager.Waiting?
    case AcquireBegin(t) => PhaseOf(s, t).Ready?
    case AcquireEnd(t, session) =>
      && PhaseOf(s, t).Acquiring?
      && (session.Some? ==> session.value !in s.sessions && PhaseOf(s, t).client !in s.closed)
    case AcquireUndo(t) => PhaseOf(s, t).AcquireFailed?
    case Trace(t) => PhaseOf(s, t).Opened?
    case Connect(t, ok) => PhaseOf(s, t).Connecting?
    case End(t) => PhaseOf(s, t).Live?
    case ReleaseCount(t) => PhaseOf(s, t).Releasing?
    case ReleaseTrace(t) => PhaseOf(s, t).Released?
    case Recycle => s.manager.Waiting?
  }

  function After(key: Key, retry: bool): Phase {
    if retry then Dialing(key) else Finished
  }

  /** Where the acting thread goes. */
  ghost function NextPhase(s: State, a: Action): Phase
    requires Enabled(s, a) && !a.Recycle?
  {
    match a
    case Begin(t, key, reuse) => if reuse then Requesting(key) else Dialing(key)
    case Request(t, answer) => Awaiting(PhaseOf(s, t).key)
    case Deliver(t) => Answered(PhaseOf(s, t).key, s.manager.answer)
    case UseAnswer(t) =>
      var p := PhaseOf(s, t);
      if p.found.Some? then Ready(p.key, p.found.value, true) else Dialing(p.key)
    case Dial(t, client) => if client.Some? then Storing(PhaseOf(s, t).key, client.value) else Finished
    case Store(t) => Ready(PhaseOf(s, t).key, PhaseOf(s, t).client, false)
    case AcquireBegin(t) => var p := PhaseOf(s, t); Acquiring(p.key, p.client, p.cached)
    case AcquireEnd(t, session) =>
      var p := PhaseOf(s, t);
      if session.Some? then Opened(p.key, p.client, p.cached, session.value)
      else AcquireFailed(p.key, p.client, p.cached)
    case AcquireUndo(t) => After(PhaseOf(s, t).key, PhaseOf(s, t).cached)
    case Trace(t) => var p := PhaseOf(s, t); Connecting(p.key, p.client, p.cached, p.session)
    case Connect(t, ok) =>
      var p := PhaseOf(s, t);
      if ok then Live(p.key, p.client, p.session) else Releasing(p.key, p.client, p.session, p.cached)
    case End(t) => var p := PhaseOf(s, t); Releasing(p.key, p.client, p.session, false)
    case ReleaseCount(t) => var p := PhaseOf(s, t); Released(p.key, p.client, p.session, p.retry)
    case ReleaseTrace(t) => After(PhaseOf(s, t).key, PhaseOf(s, t).retry)
  }

  /** The shared state after a step, apart from the acting thread's phase. */
  ghost function Shared(s: State, a: Action): State
    requires Enabled(s, a)
  {
    match a
    case Request(t, answer) => s.(manager := Replying(answer))
    case Deliver(t) => s.(manager := Waiting)
    case Dial(t, client) =>
      if client.Some? then s.(clients := s.clients + {client.value}, refs := s.refs[client.value := 0]) else s
    case Store(t) =>
      var p := PhaseOf(s, t);
      s.(stored := s.stored[p.key := StoredAt(s, p.key) + {p.client}])
    case AcquireBegin(t) => AddRef(s, PhaseOf(s, t).client, 1)
    case AcquireEnd(t, session) => if session.Some? then s.(sessions := s.sessions + {session.value}) else s
    case AcquireUndo(t) => AddRef(s, PhaseOf(s, t).client, -1)
    case Trace(t) =>
      var p := PhaseOf(s, t);
      s.(traced := s.traced[p.client := TracedAt(s, p.client) + {p.session}])
    case ReleaseCount(t) =>
      AddRef(s, PhaseOf(s, t).client, -1).(releases := s.releases + multiset{PhaseOf(s, t).session})
    case ReleaseTrace(t) =>
      var p := PhaseOf(s, t);
      s.(traced := s.traced[p.client := TracedAt(s, p.client) - {p.session}])
    case Recycle =>
      var kept := map k | k in s.stored && InUse(s.stored[k], s.refs) != {} :: InUse(s.stored[k], s.refs);
      s.(stored := kept, closed := s.closed + (set k, c | k in s.stored && c in s.stored[k] && Count(s.refs, c) <= 0 :: c))
    case _ => s
  }

  function AddRef(s: State, c: Client, n: int): State {
    s.(refs := s.refs[c := Count(s.refs, c) + n])
  }

  ghost function Apply(s: State, a: Action): State
    requires Enabled(s, a)
  {
    if a.Recycle? then Shared(s, a)
    else var s' := Shared(s, a); s'.(threads := s'.threads[a.t := NextPhase(s, a)])
  }

  // Invariants --------------------------------------------------------------

  /** The thread counts as a user of `c`: an acquisition in progress or a session to release. */
  predicate Holds(p: Phase, c: Client) {
    (p.Acquiring? || p.AcquireFailed? || Owes(p)) && p.client == c
  }

  /** The thread has a session that it has still to release. */
  predicate Owes(p: Phase) {
    p.Opened? || p.Connecting? || p.Live? || p.Releasing?
  }

  predicate HasSession(p: Phase) {
    Owes(p) || p.Released?
  }

  /** The thread's session is in its client's table. */
  predicate IsTraced(p: Phase) {
    p.Connecting? || p.Live? || p.Releasing? || p.Released?
  }

  predicate HasClient(p: Phase) {
    p.Storing? || p.Ready? || p.Acquiring? || p.AcquireFailed? || HasSession(p)
  }

  ghost function Holders(threads: map<Thread, Phase>, c: Client): set<Thread> {
    set t | t in threads && Holds(threads[t], c)
  }

  /** Reference-count conservation. */
  ghost predicate RefsMatch(s: State) {
    forall c :: Count(s.refs, c) == |Holders(s.threads, c)|
  }

  /** A result is on its way exactly when one caller awaits one. */
  ghost predicate OneAwaiting(s: State) {
    && (forall t, u | PhaseOf(s, t).Awaiting? && PhaseOf(s, u).Awaiting? :: t == u)
    && (s.manager.Replying? <==> exists t :: PhaseOf(s, t).Awaiting?)
  }

  /** Every session belongs to one thread and is released at most once, exactly once when its
      thread owes it no longer. */
  ghost predicate LedgerOf(threads: Threads, sessions: set<Session>, releases: multiset<Session>) {
    && (forall t, u | HasSession(PhaseIn(threads, t)) && HasSession(PhaseIn(threads, u))
          && PhaseIn(threads, t).session == PhaseIn(threads, u).session :: t == u)
    && (forall t | HasSession(PhaseIn(threads, t)) ::
          && PhaseIn(threads, t).session in sessions
          && releases[PhaseIn(threads, t).session] == if Owes(PhaseIn(threads, t)) then 0 else 1)
    && (forall x :: releases[x] <= if x in sessions then 1 else 0)
    && (forall x | x in sessions && releases[x] == 0 :: IsOwed(threads, x))
  }

  ghost predicate IsOwed(threads: Threads, x: Session) {
    exists t :: Owes(PhaseIn(threads, t)) && PhaseIn(threads, t).session == x
  }

  ghost predicate Ledger(s: State) {
    LedgerOf(s.threads, s.sessions, s.releases)
  }

  predicate TracesAs(p: Phase, c: Client, x: Session) {
    IsTraced(p) && p.client == c && p.session == x
  }

  /** A client's session table lists the sessions its threads have entered in it. */
  ghost predicate TablesMatch(s: State) {
    forall c, x :: x in TracedAt(s, c) <==> exists t :: TracesAs(PhaseOf(s, t), c, x)
  }

  /** Clients in the cache are open, and so is every client with a session to release. */
  ghost predicate OpenClients(s: State) {
    && s.closed <= s.clients
    && (forall t | HasClient(PhaseOf(s, t)) :: PhaseOf(s, t).client in s.clients)
    && (forall t | PhaseOf(s, t).Answered? && PhaseOf(s, t).found.Some? :: PhaseOf(s, t).found.value in s.clients)
    && (s.manager.Replying? && s.manager.answer.Some? ==> s.manager.answer.value in s.clients)
    && (forall k | k in s.stored :: s.stored[k] != {} && s.stored[k] <= s.clients)
    && (forall t | Owes(PhaseOf(s, t)) :: PhaseOf(s, t).client !in s.closed)
  }

  ghost predicate Inv(s: State) {
    RefsMatch(s) && OneAwaiting(s) && Ledger(s) && TablesMatch(s) && OpenClients(s)
  }

  function One(b: bool): nat {
    if b then 1 else 0
  }

  lemma HoldersUpdate(threads: map<Thread, Phase>, t: Thread, p: Phase, c: Client)
    ensures var was := if t in threads then threads[t] else Idle;
            |Holders(threads[t := p], c)| == |Holders(threads, c)| + One(Holds(p, c)) - One(Holds(was, c))
  {
    var h, h' := Holders(threads, c), Holders(threads[t := p], c);
    if Holds(p, c) {
      assert h' == h + {t};
    } else {
      assert h' == h - {t};
    }
  }

  /** How a step changes a reference count. */
  lemma StepCount(s: State, a: Action, c: Client)
    requires Enabled(s, a) && !a.Recycle?
    ensures Count(Apply(s, a).refs, c) ==
            if a.Dial? && a.client == Some(c) then 0
            else Count(s.refs, c) + One(Holds(NextPhase(s, a), c)) - One(Holds(PhaseOf(s, a.t), c))
    ensures a.Dial? && a.client == Some(c) ==>
              c !in s.clients && !Holds(NextPhase(s, a), c) && !Holds(PhaseOf(s, a.t), c)
  {
  }

  lemma StepRefs(s: State, a: Action)
    requires RefsMatch(s) && OpenClients(s) && Enabled(s, a)
    ensures RefsMatch(Apply(s, a))
  {
    hide Enabled, NextPhase, Apply, Holds;
    StepThreads(s, a);
    var s' := Apply(s, a);
    if !a.Recycle? {
      forall c: Client ensures Count(s'.refs, c) == |Holders(s'.threads, c)| {
        StepCount(s, a, c);
        HoldersUpdate(s.threads, a.t, NextPhase(s, a), c);
        if a.Dial? && a.client == Some(c) {
          NoHolders(s, c);
        }
      }
    }
  }

  lemma NoHolders(s: State, c: Client)
    requires OpenClients(s) && c !in s.clients
    ensures Holders(s.threads, c) == {}
  {
    assert forall t | t in s.threads && Holds(s.threads[t], c) :: HasClient(PhaseOf(s, t));
  }

  /** A step leaves the phases of all other threads alone. */
  lemma StepPhases(s: State, a: Action)
    requires Enabled(s, a)
    ensures a.Recycle? ==> Apply(s, a).threads == s.threads
    ensures !a.Recycle? ==> PhaseOf(Apply(s, a), a.t) == NextPhase(s, a)
    ensures !a.Recycle? ==> forall t: Thread | t != a.t :: PhaseOf(Apply(s, a), t) == PhaseOf(s, t)
  {
  }

  lemma StepAwaiting(s: State, a: Action)
    requires Inv(s) && Enabled(s, a)
    ensures OneAwaiting(Apply(s, a))
  {
    hide IsAnswer, RefsMatch, Ledger, TablesMatch, OpenClients;
    var s' := Apply(s, a);
    StepPhases(s, a);
    if a.Request? {
      assert PhaseOf(s', a.t).Awaiting?;
    } else if a.Deliver? {
      assert PhaseOf(s, a.t).Awaiting?;
      assert forall t: Thread :: !PhaseOf(s', t).Awaiting?;
    } else if s.manager.Replying? {
      var u: Thread :| PhaseOf(s, u).Awaiting?;
      assert PhaseOf(s', u).Awaiting?;
    } else {
      assert forall t: Thread :: PhaseOf(s', t).Awaiting? ==> PhaseOf(s, t).Awaiting?;
    }
  }

  /** How a step changes the acting thread's session. */
  lemma StepSession(s: State, a: Action)
    requires Enabled(s, a) && !a.Recycle?
    ensures var p, q, s' := PhaseOf(s, a.t), NextPhase(s, a), Apply(s, a);
      match a
      case AcquireEnd(_, Some(x)) =>
        && !HasSession(p) && Owes(q) && !IsTraced(q) && q.session == x && x !in s.sessions
        && s'.sessions == s.sessions + {x} && s'.releases == s.releases
      case Trace(_) => Owes(p) && Owes(q) && q.session == p.session && s'.sessions == s.sessions && s'.releases == s.releases
      case Connect(_, _) => Owes(p) && Owes(q) && q.session == p.session && s'.sessions == s.sessions && s'.releases == s.releases
      case End(_) => Owes(p) && Owes(q) && q.session == p.session && s'.sessions == s.sessions && s'.releases == s.releases
      case ReleaseCount(_) =>
        && Owes(p) && !Owes(q) && HasSession(q) && q.session == p.session
        && s'.sessions == s.sessions && s'.releases == s.releases + multiset{p.session}
      case _ => !Owes(p) && !HasSession(q) && s'.sessions == s.sessions && s'.releases == s.releases
  {
  }

  lemma LedgerKeeps(threads: Threads, sessions: set<Session>, releases: multiset<Session>, t: Thread, q: Phase)
    requires LedgerOf(threads, sessions, releases)
    requires var p := PhaseIn(threads, t);
             if HasSession(q) then Owes(p) && Owes(q) && q.session == p.session else !Owes(p)
    ensures LedgerOf(threads[t := q], sessions, releases)
  {
    var after := threads[t := q];
    assert forall u: Thread | u != t :: PhaseIn(after, u) == PhaseIn(threads, u);
    assert PhaseIn(after, t) == q;
    forall x: Session | x in sessions && releases[x] == 0 ensures IsOwed(after, x) {
      var u: Thread :| Owes(PhaseIn(threads, u)) && PhaseIn(threads, u).session == x;
      assert Owes(PhaseIn(after, u)) && PhaseIn(after, u).session == x;
    }
  }

  lemma LedgerOpens(threads: Threads, sessions: set<Session>, releases: multiset<Session>, t: Thread, q: Phase)
    requires LedgerOf(threads, sessions, releases)
    requires !HasSession(PhaseIn(threads, t)) && Owes(q) && q.session !in sessions
    ensures LedgerOf(threads[t := q], sessions + {q.session}, releases)
  {
    var after := threads[t := q];
    assert forall u: Thread | u != t :: PhaseIn(after, u) == PhaseIn(threads, u);
    assert PhaseIn(after, t) == q;
    forall x: Session | x in sessions + {q.session} && releases[x] == 0 ensures IsOwed(after, x) {
      if x == q.session {
        assert Owes(PhaseIn(after, t)) && PhaseIn(after, t).session == x;
      } else {
        var u: Thread :| Owes(PhaseIn(threads, u)) && PhaseIn(threads, u).session == x;
        assert Owes(PhaseIn(after, u)) && PhaseIn(after, u).session == x;
      }
    }
  }

  lemma LedgerReleases(threads: Threads, sessions: set<Session>, releases: multiset<Session>, t: Thread, q: Phase)
    requires LedgerOf(threads, sessions, releases)
    requires var p := PhaseIn(threads, t); Owes(p) && HasSession(q) && !Owes(q) && q.session == p.session
    ensures LedgerOf(threads[t := q], sessions, releases + multiset{q.session})
  {
    var after := threads[t := q];
    assert forall u: Thread | u != t :: PhaseIn(after, u) == PhaseIn(threads, u);
    assert PhaseIn(after, t) == q;
    forall x: Session | x in sessions && (releases + multiset{q.session})[x] == 0 ensures IsOwed(after, x) {
      assert IsOwed(threads, x);
      var u: Thread :| Owes(PhaseIn(threads, u)) && PhaseIn(threads, u).session == x;
      assert Owes(PhaseIn(after, u)) && PhaseIn(after, u).session == x;
    }
  }

  lemma StepLedger(s: State, a: Action)
    requires Ledger(s) && Enabled(s, a)
    ensures Ledger(Apply(s, a))
  {
    hide LedgerOf, Enabled, NextPhase, Apply, HasSession, Owes;
    StepThreads(s, a);
    if !a.Recycle? {
      StepSession(s, a);
      var q := NextPhase(s, a);
      if a.AcquireEnd? && a.session.Some? {
        LedgerOpens(s.threads, s.sessions, s.releases, a.t, q);
      } else if a.ReleaseCount? {
        LedgerReleases(s.threads, s.sessions, s.releases, a.t, q);
      } else {
        OwesIsSession(q);
        LedgerKeeps(s.threads, s.sessions, s.releases, a.t, q);
      }
    }
  }

  lemma OwesIsSession(p: Phase)
    ensures Owes(p) ==> HasSession(p)
  {
  }

  lemma StepThreads(s: State, a: Action)
    requires Enabled(s, a)
    ensures !a.Recycle? ==> Apply(s, a).threads == s.threads[a.t := NextPhase(s, a)]
    ensures a.Recycle? ==> Apply(s, a) == s.(stored := Apply(s, a).stored, closed := Apply(s, a).closed)
  {
  }

  /** How a step changes the session tables. */
  lemma StepTraced(s: State, a: Action)
    requires Enabled(s, a) && !a.Recycle?
    ensures var p, q, s' := PhaseOf(s, a.t), NextPhase(s, a), Apply(s, a);
      match a
      case Trace(_) =>
        && !IsTraced(p) && TracesAs(q, p.client, p.session)
        && TracedAt(s', p.client) == TracedAt(s, p.client) + {p.session}
        && forall c: Client | c != p.client :: TracedAt(s', c) == TracedAt(s, c)
      case ReleaseTrace(_) =>
        && TracesAs(p, p.client, p.session) && !IsTraced(q)
        && TracedAt(s', p.client) == TracedAt(s, p.client) - {p.session}
        && forall c: Client | c != p.client :: TracedAt(s', c) == TracedAt(s, c)
      case _ =>
        && (forall c: Client :: TracedAt(s', c) == TracedAt(s, c))
        && (forall c: Client, x: Session :: TracesAs(q, c, x) <==> TracesAs(p, c, x))
  {
  }

  lemma StepTables(s: State, a: Action)
    requires TablesMatch(s) && Ledger(s) && Enabled(s, a)
    ensures TablesMatch(Apply(s, a))
  {
    hide Enabled, NextPhase, Apply, TracedAt, IsTraced;
    var s' := Apply(s, a);
    StepThreads(s, a);
    if a.Recycle? {
      TracedSame(s, s');
      assert forall t: Thread :: PhaseOf(s', t) == PhaseOf(s, t);
    } else {
      StepTraced(s, a);
      var p, q := PhaseOf(s, a.t), NextPhase(s, a);
      assert forall t: Thread | t != a.t :: PhaseOf(s', t) == PhaseOf(s, t);
      assert PhaseOf(s', a.t) == q;
      forall c: Client, x: Session ensures x in TracedAt(s', c) <==> exists t: Thread :: TracesAs(PhaseOf(s', t), c, x) {
        if t: Thread :| TracesAs(PhaseOf(s', t), c, x) {
          assert t == a.t || TracesAs(PhaseOf(s, t), c, x);
          if a.ReleaseTrace? {
            OneOwner(s, t, a.t);
          }
        }
        if x in TracedAt(s', c) {
          assert x in TracedAt(s, c) || TracesAs(PhaseOf(s', a.t), c, x);
        }
        if t: Thread :| TracesAs(PhaseOf(s, t), c, x) {
          assert TracesAs(PhaseOf(s', t), c, x) || a.ReleaseTrace?;
        }
      }
    }
  }

  lemma TracedSame(s: State, s': State)
    requires s'.traced == s.traced
    ensures forall c: Client :: TracedAt(s', c) == TracedAt(s, c)
  {
  }

  /** Two threads never have the same session in a table. */
  lemma OneOwner(s: State, t: Thread, u: Thread)
    requires Ledger(s)
    ensures IsTraced(PhaseOf(s, t)) && IsTraced(PhaseOf(s, u)) && PhaseOf(s, t).session == PhaseOf(s, u).session ==> t == u
  {
  }

  /** Where a step takes clients from. */
  lemma StepClient(s: State, a: Action)
    requires OpenClients(s) && Enabled(s, a) && !a.Recycle?
    ensures var q, s' := NextPhase(s, a), Apply(s, a);
      && s.clients <= s'.clients && s'.closed == s.closed
      && (HasClient(q) ==> q.client in s'.clients)
      && (Owes(q) ==> q.client !in s.closed)
      && (q.Answered? && q.found.Some? ==> q.found.value in s'.clients)
      && (s'.manager.Replying? && s'.manager.answer.Some? ==> s'.manager.answer.value in s'.clients)
  {
    hide OneAwaiting, Ledger, TablesMatch, RefsMatch;
    if a.Request? && a.answer.Some? {
      assert a.answer.value in StoredAt(s, PhaseOf(s, a.t).key);
    }
  }

  lemma StepStored(s: State, a: Action)
    requires OpenClients(s) && Enabled(s, a)
    ensures var s' := Apply(s, a); forall k | k in s'.stored :: s'.stored[k] != {} && s'.stored[k] <= s'.clients
  {
    hide IsAnswer;
  }

  lemma StepOpen(s: State, a: Action)
    requires OpenClients(s) && RefsMatch(s) && Enabled(s, a)
    ensures OpenClients(Apply(s, a))
  {
    hide Enabled, NextPhase, Apply, HasClient;
    var s' := Apply(s, a);
    StepThreads(s, a);
    StepStored(s, a);
    if a.Recycle? {
      assert forall t: Thread :: PhaseOf(s', t) == PhaseOf(s, t);
      RecycleCloses(s);
    } else {
      StepClient(s, a);
      assert forall t: Thread | t != a.t :: PhaseOf(s', t) == PhaseOf(s, t);
      assert PhaseOf(s', a.t) == NextPhase(s, a);
    }
  }

  /** Recycling spares every client with a session still to be released or an acquisition in
      progress. */
  lemma RecycleCloses(s: State)
    requires RefsMatch(s) && OpenClients(s) && Enabled(s, Recycle)
    ensures var s' := Apply(s, Recycle);
      && s'.closed <= s'.clients
      && (forall c | c in s'.closed - s.closed :: Holders(s.threads, c) == {})
      && (forall t: Thread | Owes(PhaseOf(s, t)) :: PhaseOf(s, t).client !in s'.closed)
  {
    var s' := Apply(s, Recycle);
    forall c | c in s'.closed - s.closed ensures Holders(s.threads, c) == {} {
      assert Count(s.refs, c) <= 0;
    }
    forall t: Thread | Owes(PhaseOf(s, t)) ensures PhaseOf(s, t).client !in s'.closed {
      assert t in Holders(s.threads, PhaseOf(s, t).client);
    }
  }

  /** Every step keeps the invariant. */
  lemma StepKeepsInv(s: State, a: Action)
    requires Inv(s) && Enabled(s, a)
    ensures Inv(Apply(s, a))
  {
    hide Apply, Enabled, RefsMatch, OneAwaiting, Ledger, TablesMatch, OpenClients;
    StepRefs(s, a);
    StepAwaiting(s, a);
    StepLedger(s, a);
    StepTables(s, a);
    StepOpen(s, a);
  }

  // Runs --------------------------------------------------------------------

  ghost predicate IsRun(states: seq<State>, actions: seq<Action>) {
    && |states| == |actions| + 1 && states[0] == Init
    && forall i | 0 <= i < |actions| :: Enabled(states[i], actions[i]) && states[i + 1] == Apply(states[i], actions[i])
  }

  /** The invariant holds throughout every run. */
  lemma {:induction false} RunKeepsInv(states: seq<State>, actions: seq<Action>, n: nat)
    requires IsRun(states, actions) && n < |states|
    ensures Inv(states[n])
  {
    hide Apply, Enabled;
    if n == 0 {
      InitInv();
    } else {
      RunKeepsInv(states, actions, n - 1);
      StepKeepsInv(states[n - 1], actions[n - 1]);
    }
  }

  lemma InitInv()
    ensures Inv(Init)
  {
    assert forall c: Client :: Holders(Init.threads, c) == {};
  }

  /** Over all runs the reference count of a client is the number of its sessions still to be
      released plus the acquisitions in progress, and never negative; no session is released
      twice, one whose thread is done with it has been released once; and no client with a
      session still to be released has been closed by recycling. */
  lemma Conservation(states: seq<State>, actions: seq<Action>, n: nat, c: Client, x: Session)
    requires IsRun(states, actions) && n < |states|
    ensures var s := states[n];
      && Count(s.refs, c) == |Holders(s.threads, c)| >= 0
      && s.releases[x] <= 1
      && (x in s.sessions ==> (s.releases[x] == 0 <==> IsOwed(s.threads, x)))
      && (forall t: Thread | Owes(PhaseOf(s, t)) :: PhaseOf(s, t).client !in s.closed)
  {
    RunKeepsInv(states, actions, n);
  }

  ghost predicate IsStored(s: State, c: Client) {
    exists k :: k in s.stored && c in s.stored[k]
  }

  /** The recycling at step `i` finds the client in the cache and not in use. */
  ghost predicate RecycledAt(states: seq<State>, actions: seq<Action>, i: nat, c: Client)
    requires |actions| < |states|
  {
    i < |actions| && actions[i].Recycle? && IsStored(states[i], c) && Count(states[i].refs, c) == 0
  }

  /** A step closes a client exactly if it is a recycling that finds it stored and not in use. */
  lemma StepCloses(s: State, a: Action, c: Client)
    requires RefsMatch(s) && Enabled(s, a)
    ensures c in Apply(s, a).closed <==> c in s.closed || (a.Recycle? && IsStored(s, c) && Count(s.refs, c) == 0)
  {
    assert Count(s.refs, c) == |Holders(s.threads, c)|;
    if a.Recycle? && c in Apply(s, a).closed && c !in s.closed {
      assert Count(s.refs, c) <= 0;
    }
  }

  /** Which clients have been closed, whether or not a caller has got one in its hands and is about
      to acquire a session: exactly those that some recycling found stored and not in use. */
  lemma {:induction false} ClosedExactly(states: seq<State>, actions: seq<Action>, n: nat, c: Client)
    requires IsRun(states, actions) && n < |states|
    ensures c in states[n].closed <==> exists i | 0 <= i < n :: RecycledAt(states, actions, i, c)
  {
    hide Enabled, Apply, IsStored;
    if n > 0 {
      ClosedExactly(states, actions, n - 1, c);
      RunKeepsInv(states, actions, n - 1);
      StepCloses(states[n - 1], actions[n - 1], c);
      assert RecycledAt(states, actions, n - 1, c) <==>
        actions[n - 1].Recycle? && IsStored(states[n - 1], c) && Count(states[n - 1].refs, c) == 0;
    }
  }

  /** A run in which a caller is left with a closed client: it has dialled and stored a client, and
      a recycling comes before it acquires its session. */
  lemma RecycleOvertakesAcquire(key: Key, c: Client) returns (states: seq<State>, actions: seq<Action>)
    ensures actions == [Begin(0, key, false), Dial(0, Some(c)), Store(0), Recycle] && IsRun(states, actions)
    ensures PhaseOf(states[4], 0) == Ready(key, c, false) && c in states[4].closed
  {
    var a0, a1, a2, a3 := Begin(0, key, false), Dial(0, Some(c)), Store(0), Recycle;
    var s1, s2, s3 := DialAndStore(key, c);
    var s4 := Apply(s3, a3);
    assert Count(s3.refs, c) == 0;
    states, actions := [Init, s1, s2, s3, s4], [a0, a1, a2, a3];
  }

  lemma DialAndStore(key: Key, c: Client) returns (s1: State, s2: State, s3: State)
    ensures Enabled(Init, Begin(0, key, false)) && s1 == Apply(Init, Begin(0, key, false))
    ensures Enabled(s1, Dial(0, Some(c))) && s2 == Apply(s1, Dial(0, Some(c)))
    ensures Enabled(s2, Store(0)) && s3 == Apply(s2, Store(0))
    ensures PhaseOf(s3, 0) == Ready(key, c, false) && s3.manager.Waiting?
    ensures key in s3.stored && c in s3.stored[key] && Count(s3.refs, c) == 0
  {
    s1 := Apply(Init, Begin(0, key, false));
    assert PhaseOf(s1, 0) == Dialing(key) && s1 == Init.(threads := s1.threads);
    s2 := Apply(s1, Dial(0, Some(c)));
    assert PhaseOf(s2, 0) == Storing(key, c) && s2.refs == map[c := 0] && s2.manager == Waiting;
    s3 := Apply(s2, Store(0));
  }

  /** Step `i` of the run was the request of thread `t` for `key`, answered by `answer`. */
  ghost predicate AskedAt(states: seq<State>, actions: seq<Action>, i: nat, t: Thread, key: Key, answer: Option<Client>)
    requires IsRun(states, actions)
  {
    && i < |actions| && actions[i] == Request(t, answer) && PhaseOf(states[i], t) == Requesting(key)
    && IsAnswer(StoredAt(states[i], key), states[i].refs, answer)
  }

  /** The manager replies to the last request accepted, and its caller is still waiting. */
  lemma {:induction false} ReplyOrigin(states: seq<State>, actions: seq<Action>, n: nat) returns (i: nat, t: Thread, key: Key)
    requires IsRun(states, actions) && n < |states| && states[n].manager.Replying?
    ensures i < n && AskedAt(states, actions, i, t, key, states[n].manager.answer)
    ensures PhaseOf(states[n], t) == Awaiting(key)
  {
    var a, s := actions[n - 1], states[n - 1];
    StepPhases(s, a);
    if a.Request? {
      i, t, key := n - 1, a.t, PhaseOf(s, a.t).key;
    } else {
      assert s.manager == states[n].manager;
      i, t, key := ReplyOrigin(states, actions, n - 1);
    }
  }

  // What is stored ------------------------------------------------------------------

  /** Step `i` stored the client under the key. */
  ghost predicate StoredByStep(states: seq<State>, actions: seq<Action>, i: nat, key: Key, c: Client)
    requires |actions| < |states|
  {
    i < |actions| && actions[i].Store? && PhaseOf(states[i], actions[i].t) == Storing(key, c)
  }

  /** The recycling at step `i` would drop the client, wherever it is stored. */
  ghost predicate DropsAt(states: seq<State>, actions: seq<Action>, i: nat, c: Client)
    requires |actions| < |states|
  {
    i < |actions| && actions[i].Recycle? && Count(states[i].refs, c) == 0
  }

  /** The client was stored under the key before step `n` and has not been dropped since. */
  ghost predicate StoredSince(states: seq<State>, actions: seq<Action>, n: nat, key: Key, c: Client)
    requires |actions| < |states|
  {
    exists i | 0 <= i < n :: StoredByStep(states, actions, i, key, c) && forall j | i < j < n :: !DropsAt(states, actions, j, c)
  }

  lemma StepStoredAt(s: State, a: Action, key: Key, c: Client)
    requires RefsMatch(s) && Enabled(s, a)
    ensures c in StoredAt(Apply(s, a), key) <==>
      || (a.Store? && PhaseOf(s, a.t) == Storing(key, c))
      || (c in StoredAt(s, key) && !(a.Recycle? && Count(s.refs, c) == 0))
  {
    assert Count(s.refs, c) == |Holders(s.threads, c)|;
  }

  /** In every run the cache holds exactly the clients that were stored and have not been found unused
      by a recycling since. */
  lemma {:induction false} StoredExactly(states: seq<State>, actions: seq<Action>, n: nat, key: Key, c: Client)
    requires IsRun(states, actions) && n < |states|
    ensures c in StoredAt(states[n], key) <==> StoredSince(states, actions, n, key, c)
  {
    hide Enabled, Apply, StoredByStep, DropsAt;
    if n > 0 {
      var l := n - 1;
      StoredExactly(states, actions, l, key, c);
      RunKeepsInv(states, actions, l);
      StepStoredAt(states[l], actions[l], key, c);
      LastStep(states, actions, l, key, c);
    }
  }

  lemma LastStep(states: seq<State>, actions: seq<Action>, l: nat, key: Key, c: Client)
    requires IsRun(states, actions) && l < |actions|
    ensures StoredByStep(states, actions, l, key, c) <==> actions[l].Store? && PhaseOf(states[l], actions[l].t) == Storing(key, c)
    ensures DropsAt(states, actions, l, c) <==> actions[l].Recycle? && Count(states[l].refs, c) == 0
  {
  }

  /** The answer to a request for `key` at step `i`, told by what was stored and dropped before. */
  ghost predicate RightAnswer(states: seq<State>, actions: seq<Action>, i: nat, key: Key, answer: Option<Client>)
    requires i < |states| && |actions| < |states|
  {
    match answer
    case None => forall c :: !StoredSince(states, actions, i, key, c)
    case Some(c) =>
      && StoredSince(states, actions, i, key, c)
      && forall d | StoredSince(states, actions, i, key, d) :: Count(states[i].refs, d) <= Count(states[i].refs, c)
  }

  /** Request and response match: with any number of callers on the shared channels, whoever
      receives a result is the caller whose request it answers; and at that request it was a client
      with the largest reference count of those stored under its key and not dropped, or none
      exactly when there were none. */
  lemma ResponsesMatch(states: seq<State>, actions: seq<Action>, n: nat) returns (i: nat)
    requires IsRun(states, actions) && n < |actions| && actions[n].Deliver?
    ensures var t := actions[n].t;
      && PhaseOf(states[n], t).Awaiting? && PhaseOf(states[n + 1], t).Answered?
      && PhaseOf(states[n + 1], t).key == PhaseOf(states[n], t).key
      && i < n && AskedAt(states, actions, i, t, PhaseOf(states[n], t).key, PhaseOf(states[n + 1], t).found)
      && RightAnswer(states, actions, i, PhaseOf(states[n], t).key, PhaseOf(states[n + 1], t).found)
  {
    hide StoredSince;
    var u, key;
    i, u, key := ReplyOrigin(states, actions, n);
    RunKeepsInv(states, actions, n);
    StepPhases(states[n], actions[n]);
    forall c: Client
      ensures c in StoredAt(states[i], key) <==> StoredSince(states, actions, i, key, c)
    {
      StoredExactly(states, actions, i, key, c);
    }
  }

  // Dialling and giving up ------------------------------------------------------------

  /** Step `i` lost the caller the client it had from the cache. */
  ghost predicate CachedFails(states: seq<State>, actions: seq<Action>, i: nat, t: Thread)
    requires |actions| < |states|
  {
    && i < |actions|
    && (actions[i] == AcquireEnd(t, None) || actions[i] == Connect(t, false))
    && (PhaseOf(states[i], t).Acquiring? || PhaseOf(states[i], t).Connecting?) && PhaseOf(states[i], t).cached
  }

  /** Why a caller dials: it was not to reuse clients, nothing was found for it, or the client found
      failed. */
  ghost predicate ReasonToDial(states: seq<State>, actions: seq<Action>, i: nat, t: Thread)
    requires |actions| < |states|
  {
    && i < |actions|
    && ((actions[i].Begin? && actions[i].t == t && !actions[i].reuse)
        || (actions[i] == UseAnswer(t) && PhaseOf(states[i], t).Answered? && PhaseOf(states[i], t).found.None?)
        || CachedFails(states, actions, i, t))
  }

  /** The caller is on its way back from a client of the cache that failed. */
  predicate Retrying(p: Phase) {
    (p.AcquireFailed? && p.cached) || ((p.Releasing? || p.Released?) && p.retry)
  }

  lemma {:induction false} DialReason(states: seq<State>, actions: seq<Action>, n: nat, t: Thread) returns (i: nat)
    requires IsRun(states, actions) && n < |states| && (PhaseOf(states[n], t).Dialing? || Retrying(PhaseOf(states[n], t)))
    ensures i < n && ReasonToDial(states, actions, i, t)
    ensures Retrying(PhaseOf(states[n], t)) ==> CachedFails(states, actions, i, t)
  {
    hide Shared, IsAnswer;
    var s, a := states[n - 1], actions[n - 1];
    StepPhases(s, a);
    if a.Recycle? || a.t != t {
      i := DialReason(states, actions, n - 1, t);
    } else if a.AcquireUndo? || a.ReleaseCount? || a.ReleaseTrace? {
      i := DialReason(states, actions, n - 1, t);
    } else {
      i := n - 1;
    }
  }

  /** Why a caller is done: its session ended, it could not dial, or the client it had dialled itself
      failed. A failing client of the cache is no reason to give up. */
  ghost predicate ReasonToStop(states: seq<State>, actions: seq<Action>, i: nat, t: Thread)
    requires |actions| < |states|
  {
    && i < |actions|
    && (actions[i] == End(t) || actions[i] == Dial(t, None)
        || ((actions[i] == AcquireEnd(t, None) || actions[i] == Connect(t, false))
            && (PhaseOf(states[i], t).Acquiring? || PhaseOf(states[i], t).Connecting?) && !PhaseOf(states[i], t).cached))
  }

  predicate Stopping(p: Phase) {
    p.Finished? || (p.AcquireFailed? && !p.cached) || ((p.Releasing? || p.Released?) && !p.retry)
  }

  lemma {:induction false} StopReason(states: seq<State>, actions: seq<Action>, n: nat, t: Thread) returns (i: nat)
    requires IsRun(states, actions) && n < |states| && Stopping(PhaseOf(states[n], t))
    ensures i < n && ReasonToStop(states, actions, i, t)
  {
    hide Shared, IsAnswer;
    var s, a := states[n - 1], actions[n - 1];
    StepPhases(s, a);
    if a.Recycle? || a.t != t {
      i := StopReason(states, actions, n - 1, t);
    } else if a.AcquireUndo? || a.ReleaseCount? || a.ReleaseTrace? {
      i := StopReason(states, actions, n - 1, t);
    } else {
      i := n - 1;
    }
  }

  // Clients in a caller's hands ---------------------------------------------------

  /** Stored clients are open, and a client that is about to be stored is neither stored nor closed,
      and is in one caller's hands only. */
  ghost predicate CacheIsOpen(s: State) {
    && (forall k | k in s.stored :: s.stored[k] !! s.closed)
    && (forall t: Thread | PhaseOf(s, t).Storing? :: PhaseOf(s, t).client !in s.closed && !IsStored(s, PhaseOf(s, t).client))
    && (forall t: Thread, u: Thread | PhaseOf(s, t).Storing? && PhaseOf(s, u).Storing?
          && PhaseOf(s, t).client == PhaseOf(s, u).client :: t == u)
  }

  /** What a step stores. */
  lemma StepStores(s: State, a: Action, c: Client)
    requires Enabled(s, a)
    ensures IsStored(Apply(s, a), c) ==> IsStored(s, c) || (a.Store? && PhaseOf(s, a.t).Storing? && PhaseOf(s, a.t).client == c)
    ensures a.Recycle? && IsStored(Apply(s, a), c) ==> Count(s.refs, c) > 0
  {
    var s' := Apply(s, a);
    if IsStored(s', c) {
      var k :| k in s'.stored && c in s'.stored[k];
      if !(a.Store? && PhaseOf(s, a.t).client == c) {
        assert k in s.stored && c in s.stored[k];
      }
    }
  }

  /** Only dialling brings a caller to storing a client, a new one. */
  lemma StepStoring(s: State, a: Action, t: Thread)
    requires Enabled(s, a) && PhaseOf(Apply(s, a), t).Storing?
    ensures PhaseOf(s, t) == PhaseOf(Apply(s, a), t) || (a.Dial? && a.t == t && PhaseOf(Apply(s, a), t).client !in s.clients)
  {
  }

  lemma StoredIsClient(s: State, c: Client)
    requires OpenClients(s) && IsStored(s, c)
    ensures c in s.clients
  {
  }

  lemma StepCacheOpen(s: State, a: Action)
    requires Inv(s) && CacheIsOpen(s) && Enabled(s, a)
    ensures CacheIsOpen(Apply(s, a))
  {
    hide Enabled, Apply, IsStored, RefsMatch, Ledger, TablesMatch, OneAwaiting;
    var s' := Apply(s, a);
    forall k, c | k in s'.stored && c in s'.stored[k]
      ensures c !in s'.closed
    {
      StoredAtKey(s', k, c);
      StepStores(s, a, c);
      StepCloses(s, a, c);
      if IsStored(s, c) {
        StoredIsOpen(s, c);
      }
    }
    forall t: Thread | PhaseOf(s', t).Storing?
      ensures PhaseOf(s', t).client !in s'.closed && !IsStored(s', PhaseOf(s', t).client)
    {
      StoringStaysNew(s, a, t);
    }
    forall t: Thread, u: Thread | PhaseOf(s', t).Storing? && PhaseOf(s', u).Storing? && PhaseOf(s', t).client == PhaseOf(s', u).client
      ensures t == u
    {
      StepStoring(s, a, t);
      StepStoring(s, a, u);
    }
  }

  lemma StoredAtKey(s: State, k: Key, c: Client)
    requires k in s.stored && c in s.stored[k]
    ensures IsStored(s, c)
  {
  }

  lemma StoredIsOpen(s: State, c: Client)
    requires CacheIsOpen(s) && IsStored(s, c)
    ensures c !in s.closed
  {
  }

  lemma StoringStaysNew(s: State, a: Action, t: Thread)
    requires Inv(s) && CacheIsOpen(s) && Enabled(s, a) && PhaseOf(Apply(s, a), t).Storing?
    ensures var c := PhaseOf(Apply(s, a), t).client; c !in Apply(s, a).closed && !IsStored(Apply(s, a), c)
  {
    hide IsStored, RefsMatch, Ledger, TablesMatch, OneAwaiting;
    var c := PhaseOf(Apply(s, a), t).client;
    StepPhases(s, a);
    StepStoring(s, a, t);
    StepStores(s, a, c);
    StepCloses(s, a, c);
    if c !in s.clients && IsStored(s, c) {
      StoredIsClient(s, c);
    }
  }

  lemma {:induction false} RunCacheOpen(states: seq<State>, actions: seq<Action>, n: nat)
    requires IsRun(states, actions) && n < |states|
    ensures CacheIsOpen(states[n])
  {
    hide Enabled, Apply, CacheIsOpen, Inv;
    if n == 0 {
      InitCacheOpen();
    } else {
      RunCacheOpen(states, actions, n - 1);
      RunKeepsInv(states, actions, n - 1);
      StepCacheOpen(states[n - 1], actions[n - 1]);
    }
  }

  lemma InitCacheOpen()
    ensures CacheIsOpen(Init)
  {
  }

  /** Step `j` of the run put the client into the caller's hands, from the cache or by storing it. */
  ghost predicate TakenAt(states: seq<State>, actions: seq<Action>, j: nat, t: Thread, c: Client)
    requires |actions| < |states|
  {
    && j < |actions|
    && (actions[j] == Request(t, Some(c))
        || (actions[j] == Store(t) && PhaseOf(states[j], t).Storing? && PhaseOf(states[j], t).client == c))
  }

  /** The caller has a client in its hands and has not begun to acquire a session. */
  predicate InHand(p: Phase, c: Client) {
    (p.Ready? && p.client == c) || (p.Answered? && p.found == Some(c))
  }

  /** It was open when it came there. */
  lemma {:induction false} TakenOpen(states: seq<State>, actions: seq<Action>, n: nat, t: Thread, c: Client) returns (j: nat)
    requires IsRun(states, actions) && n < |states| && InHand(PhaseOf(states[n], t), c)
    ensures j < n && TakenAt(states, actions, j, t, c) && c !in states[j].closed
  {
    var s, a := states[n - 1], actions[n - 1];
    StepPhases(s, a);
    if a.Recycle? || a.t != t || a.UseAnswer? {
      j := TakenOpen(states, actions, n - 1, t, c);
    } else if a.Store? {
      j := n - 1;
      RunCacheOpen(states, actions, j);
    } else {
      j := ResponsesMatch(states, actions, n - 1);
      RunCacheOpen(states, actions, j);
    }
  }

  lemma {:induction false} ClosedBetween(states: seq<State>, actions: seq<Action>, j: nat, n: nat, c: Client)
    requires IsRun(states, actions) && j <= n < |states| && c !in states[j].closed
    ensures c in states[n].closed <==> exists i | j <= i < n :: RecycledAt(states, actions, i, c)
    decreases n
  {
    hide Enabled, Apply, IsStored;
    if j < n {
      ClosedBetween(states, actions, j, n - 1, c);
      RunKeepsInv(states, actions, n - 1);
      StepCloses(states[n - 1], actions[n - 1], c);
      assert RecycledAt(states, actions, n - 1, c) <==>
        actions[n - 1].Recycle? && IsStored(states[n - 1], c) && Count(states[n - 1].refs, c) == 0;
    }
  }

  /** When a client in the hands of a caller about to acquire a session has been closed: exactly if,
      since the caller was given it or stored it, a recycling has found it stored and not in use. */
  lemma ClosedInHandExactly(states: seq<State>, actions: seq<Action>, n: nat, t: Thread, c: Client) returns (j: nat)
    requires IsRun(states, actions) && n < |states| && InHand(PhaseOf(states[n], t), c)
    ensures j < n && TakenAt(states, actions, j, t, c) && c !in states[j].closed
    ensures c in states[n].closed <==> exists i | j < i < n :: RecycledAt(states, actions, i, c)
  {
    j := TakenOpen(states, actions, n, t, c);
    ClosedBetween(states, actions, j, n, c);
    assert !RecycledAt(states, actions, j, c);
  }
}
