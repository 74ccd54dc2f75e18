/** The failed-login counter: attempts check it, failures raise it, and one timer per window
    resets it. A step is one lock-protected access or the start or end of a goroutine. */
module LoginLimiter {

  type User = string
  type Attempt = nat
  type Timer = nat

  datatype Phase =
    | Idle
    | InFlight(user: User)               // not blocked, being authenticated
    | Failing(user: User)                // authentication failed, to be counted
    | Counted(user: User, first: bool)   // counted; the first of a window owes the timer
    | Done

  datatype Event = Failure(user: User) | Reset(user: User)

  datatype State = State(
    counts: map<User, nat>,
    timers: map<Timer, User>,
    attempts: map<Attempt, Phase>,
    log: seq<Event>)

  const Init := State(map[], map[], map[], [])

  datatype Action =
    | Check(a: Attempt, user: User)
    | Authenticate(a: Attempt, ok: bool)
    | CountFailure(a: Attempt)
    | StartTimer(a: Attempt, timer: Timer)
    | Fire(timer: Timer)

  function PhaseOf(s: State, a: Attempt): Phase {
    if a in s.attempts then s.attempts[a] else Idle
  }

  function Count(s: State, u: User): nat {
    if u in s.counts then s.counts[u] else 0
  }

  predicate IsBlocked(s: State, u: User, limit: nat) {
    Count(s, u) >= limit
  }

  predicate Enabled(s: State, act: Action) {
    match act
    case Check(a, _) => PhaseOf(s, a).Idle?
    case Authenticate(a, _) => PhaseOf(s, a).InFlight?
    case CountFailure(a) => PhaseOf(s, a).Failing?
    case StartTimer(a, timer) => PhaseOf(s, a).Counted? && timer !in s.timers
    case Fire(timer) => timer in s.timers
  }

  function Apply(s: State, act: Action, limit: nat): State
    requires Enabled(s, act)
  {
    match act
    case Check(a, u) => s.(attempts := s.attempts[a := if IsBlocked(s, u, limit) then Done else InFlight(u)])
    case Authenticate(a, ok) => s.(attempts := s.attempts[a := if ok then Done else Failing(PhaseOf(s, a).user)])
    case CountFailure(a) =>
      var u := PhaseOf(s, a).user;
      s.(counts := s.counts[u := Count(s, u) + 1], log := s.log + [Failure(u)],
         attempts := s.attempts[a := Counted(u, u !in s.counts)])
    case StartTimer(a, timer) =>
      s.(attempts := s.attempts[a := Done],
         timers := if PhaseOf(s, a).first then s.timers[timer := PhaseOf(s, a).user] else s.timers)
    case Fire(timer) =>
      var u := s.timers[timer];
      s.(counts := s.counts - {u}, timers := s.timers - {timer}, log := s.log + [Reset(u)])
  }

  ghost predicate IsRun(states: seq<State>, actions: seq<Action>, limit: nat) {
    && |states| == |actions| + 1 && states[0] == Init
    && forall i | 0 <= i < |actions| :: Enabled(states[i], actions[i]) && states[i + 1] == Apply(states[i], actions[i], limit)
  }

  /** Failures of a user since their counter was last reset. */
  function Since(log: seq<Event>, u: User): nat {
    if log == [] then 0
    else
      var last := log[|log| - 1];
      if last == Reset(u) then 0
      else Since(log[..|log| - 1], u) + if last == Failure(u) then 1 else 0
  }

  lemma SinceAppend(log: seq<Event>, e: Event, u: User)
    ensures Since(log + [e], u) ==
            if e == Reset(u) then 0 else Since(log, u) + if e == Failure(u) then 1 else 0
  {
    assert (log + [e])[..|log|] == log;
  }

  /** Attempts that owe the user's reset timer, and timers that are running. */
  ghost function Owing(attempts: map<Attempt, Phase>, u: User): set<Attempt> {
    set a | a in attempts && attempts[a] == Counted(u, true)
  }

  ghost function Running(timers: map<Timer, User>, u: User): set<Timer> {
    set t | t in timers && timers[t] == u
  }

  /** Attempts that were let through and whose outcome has not been counted. */
  predicate IsFlying(p: Phase, u: User) {
    p == InFlight(u) || p == Failing(u)
  }

  ghost function Flying(attempts: map<Attempt, Phase>, u: User): set<Attempt> {
    set a | a in attempts && IsFlying(attempts[a], u)
  }

  /** A user is in the counter map exactly when one reset timer is owed or running for them,
      and the count is the number of failures since the window opened. */
  ghost predicate Window(s: State, u: User) {
    && |Owing(s.attempts, u)| + |Running(s.timers, u)| == (if u in s.counts then 1 else 0)
    && Count(s, u) == Since(s.log, u)
  }

  function One(b: bool): nat {
    if b then 1 else 0
  }

  lemma OwingUpdate(attempts: map<Attempt, Phase>, a: Attempt, p: Phase, u: User)
    ensures |Owing(attempts[a := p], u)| ==
            |Owing(attempts, u)| + One(p == Counted(u, true)) - One(a in attempts && attempts[a] == Counted(u, true))
  {
    var o, o' := Owing(attempts, u), Owing(attempts[a := p], u);
    if p == Counted(u, true) {
      assert o' == o + {a};
    } else {
      assert o' == o - {a};
    }
  }

  lemma FlyingUpdate(attempts: map<Attempt, Phase>, a: Attempt, p: Phase, u: User)
    ensures |Flying(attempts[a := p], u)| ==
            |Flying(attempts, u)| + One(IsFlying(p, u)) - One(a in attempts && IsFlying(attempts[a], u))
  {
    var f, f' := Flying(attempts, u), Flying(attempts[a := p], u);
    if IsFlying(p, u) {
      assert f' == f + {a};
    } else {
      assert f' == f - {a};
    }
  }

  lemma RunningUpdate(timers: map<Timer, User>, timer: Timer, who: User, u: User)
    ensures timer !in timers ==> |Running(timers[timer := who], u)| == |Running(timers, u)| + One(who == u)
    ensures timer in timers ==> |Running(timers - {timer}, u)| == |Running(timers, u)| - One(timers[timer] == u)
  {
    var r := Running(timers, u);
    if timer !in timers {
      assert Running(timers[timer := who], u) == if who == u then r + {timer} else r;
    } else {
      assert Running(timers - {timer}, u) == if timers[timer] == u then r - {timer} else r;
    }
  }

  /** Timers owed or running for a user: a first failure adds one, firing takes one away. */
  lemma StepOwing(s: State, act: Action, limit: nat, u: User)
    requires Enabled(s, act)
    ensures var s' := Apply(s, act, limit);
      |Owing(s'.attempts, u)| + |Running(s'.timers, u)| ==
        |Owing(s.attempts, u)| + |Running(s.timers, u)|
        + One(act.CountFailure? && PhaseOf(s, act.a).user == u && u !in s.counts)
        - One(act.Fire? && s.timers[act.timer] == u)
  {
    hide Owing, Running;
    if act.Fire? {
      RunningUpdate(s.timers, act.timer, u, u);
    } else {
      OwingUpdate(s.attempts, act.a, Apply(s, act, limit).attempts[act.a], u);
      if act.StartTimer? {
        RunningUpdate(s.timers, act.timer, PhaseOf(s, act.a).user, u);
      }
    }
  }

  /** Letting an attempt through needs a count below the limit; counting it keeps the sum. */
  lemma StepFlying(s: State, act: Action, limit: nat, u: User)
    requires Enabled(s, act)
    ensures var s' := Apply(s, act, limit);
      || Count(s', u) + |Flying(s'.attempts, u)| <= Count(s, u) + |Flying(s.attempts, u)|
      || Count(s', u) < limit
  {
    hide Flying;
    if !act.Fire? {
      FlyingUpdate(s.attempts, act.a, Apply(s, act, limit).attempts[act.a], u);
    }
  }

  lemma StepWindow(s: State, act: Action, limit: nat, u: User)
    requires Enabled(s, act) && Window(s, u)
    ensures Window(Apply(s, act, limit), u)
  {
    hide Owing, Running, Since;
    StepOwing(s, act, limit, u);
    match act
    case CountFailure(a) => SinceAppend(s.log, Failure(PhaseOf(s, a).user), u);
    case Fire(timer) =>
      SinceAppend(s.log, Reset(s.timers[timer]), u);
      if s.timers[timer] == u {
        RunningTimer(s, timer);
      }
    case _ =>
  }

  lemma RunningTimer(s: State, timer: Timer)
    requires timer in s.timers
    ensures |Running(s.timers, s.timers[timer])| >= 1
  {
    assert timer in Running(s.timers, s.timers[timer]);
  }

  /** The window invariant holds throughout every run. */
  lemma {:induction false} RunWindow(states: seq<State>, actions: seq<Action>, limit: nat, n: nat, u: User)
    requires IsRun(states, actions, limit) && n < |states|
    ensures Window(states[n], u)
  {
    if n == 0 {
      assert Owing(Init.attempts, u) == {} && Running(Init.timers, u) == {};
    } else {
      RunWindow(states, actions, limit, n - 1, u);
      StepWindow(states[n - 1], actions[n - 1], limit, u);
    }
  }

  /** With at most `k` attempts of a user in flight at any time, the user's count never exceeds
      the limit by more than `k - 1`: the attempts that passed the check before it was reached. */
  lemma {:induction false} CountIsBounded(states: seq<State>, actions: seq<Action>, limit: nat, n: nat, u: User, k: nat)
    requires IsRun(states, actions, limit) && n < |states| && k >= 1
    requires forall i | 0 <= i <= n :: |Flying(states[i].attempts, u)| <= k
    ensures Count(states[n], u) + |Flying(states[n].attempts, u)| <= limit + k - 1
  {
    if n == 0 {
      assert Flying(Init.attempts, u) == {};
    } else {
      CountIsBounded(states, actions, limit, n - 1, u, k);
      StepFlying(states[n - 1], actions[n - 1], limit, u);
    }
  }

  // Which attempts are counted ------------------------------------------------------

  /** An attempt is let through exactly if its user has failed less than `limit` times since their
      counter was last reset. */
  lemma LetThroughExactly(states: seq<State>, actions: seq<Action>, limit: nat, n: nat, a: Attempt, u: User)
    requires IsRun(states, actions, limit) && n < |actions| && actions[n] == Check(a, u)
    ensures PhaseOf(states[n + 1], a) == if Since(states[n].log, u) < limit then InFlight(u) else Done
  {
    RunWindow(states, actions, limit, n, u);
    assert states[n + 1] == Apply(states[n], actions[n], limit);
  }

  lemma StepAttempt(s: State, act: Action, limit: nat, a: Attempt)
    requires Enabled(s, act)
    ensures (act.Fire? || act.a != a) ==> PhaseOf(Apply(s, act, limit), a) == PhaseOf(s, a)
  {
  }

  /** Step `j` let the attempt through for this user. */
  ghost predicate LetThroughAt(states: seq<State>, actions: seq<Action>, limit: nat, j: nat, a: Attempt, u: User)
    requires |actions| < |states|
  {
    j < |actions| && actions[j] == Check(a, u) && Since(states[j].log, u) < limit
  }

  lemma {:induction false} FlightOrigin(states: seq<State>, actions: seq<Action>, limit: nat, n: nat, a: Attempt, u: User) returns (j: nat)
    requires IsRun(states, actions, limit) && n < |states| && PhaseOf(states[n], a) == InFlight(u)
    ensures j < n && LetThroughAt(states, actions, limit, j, a, u)
  {
    var s, act := states[n - 1], actions[n - 1];
    StepAttempt(s, act, limit, a);
    if act.Fire? || act.a != a {
      j := FlightOrigin(states, actions, limit, n - 1, a, u);
    } else {
      j := n - 1;
      RunWindow(states, actions, limit, j, u);
    }
  }

  lemma {:induction false} FailingOrigin(states: seq<State>, actions: seq<Action>, limit: nat, n: nat, a: Attempt, u: User) returns (j: nat, i: nat)
    requires IsRun(states, actions, limit) && n < |states| && PhaseOf(states[n], a) == Failing(u)
    ensures j < i < n && LetThroughAt(states, actions, limit, j, a, u) && actions[i] == Authenticate(a, false)
  {
    var s, act := states[n - 1], actions[n - 1];
    StepAttempt(s, act, limit, a);
    if act.Fire? || act.a != a {
      j, i := FailingOrigin(states, actions, limit, n - 1, a, u);
    } else {
      i := n - 1;
      j := FlightOrigin(states, actions, limit, i, a, u);
    }
  }

  /** What is counted is a failure: of an attempt that was let through for that user and then failed to
      authenticate. */
  lemma CountedFailed(states: seq<State>, actions: seq<Action>, limit: nat, n: nat) returns (u: User, j: nat, i: nat)
    requires IsRun(states, actions, limit) && n < |actions| && actions[n].CountFailure?
    ensures j < i < n && LetThroughAt(states, actions, limit, j, actions[n].a, u) && actions[i] == Authenticate(actions[n].a, false)
    ensures states[n + 1].log == states[n].log + [Failure(u)]
  {
    u := PhaseOf(states[n], actions[n].a).user;
    j, i := FailingOrigin(states, actions, limit, n, actions[n].a, u);
  }

  function Rank(p: Phase): nat {
    match p
    case Idle => 0
    case InFlight(_) => 1
    case Failing(_) => 2
    case Counted(_, _) => 3
    case Done => 4
  }

  lemma {:induction false} RankGrows(states: seq<State>, actions: seq<Action>, limit: nat, i: nat, j: nat, a: Attempt)
    requires IsRun(states, actions, limit) && i <= j < |states|
    ensures Rank(PhaseOf(states[i], a)) <= Rank(PhaseOf(states[j], a))
    decreases j
  {
    if i < j {
      RankGrows(states, actions, limit, i, j - 1, a);
      StepRank(states[j - 1], actions[j - 1], limit, a);
    }
  }

  lemma StepRank(s: State, act: Action, limit: nat, a: Attempt)
    requires Enabled(s, act)
    ensures Rank(PhaseOf(s, a)) <= Rank(PhaseOf(Apply(s, act, limit), a))
    ensures !act.Fire? && act.a == a ==> Rank(PhaseOf(s, a)) < Rank(PhaseOf(Apply(s, act, limit), a))
  {
  }

  /** No attempt is counted twice, and none that succeeded. */
  lemma CountedOnce(states: seq<State>, actions: seq<Action>, limit: nat, i: nat, j: nat, a: Attempt)
    requires IsRun(states, actions, limit) && i < j < |actions|
    requires actions[i] == CountFailure(a) || actions[i] == Authenticate(a, true)
    ensures actions[j] != CountFailure(a)
  {
    StepRank(states[i], actions[i], limit, a);
    RankGrows(states, actions, limit, i + 1, j, a);
    assert Rank(PhaseOf(states[i + 1], a)) >= 3;
  }
}
