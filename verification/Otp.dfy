/** One-time passwords: issued under a lock, cleared by a delayed goroutine or by use. Clears
    know the name only, so a clear left over from an earlier password ends a later one early.
    A goroutine may be late by some delay: in starting its sleep, and in waking from it. */
module Otp {

  type Name = string
  type Password = string
  type ClearId = nat

  /** How long a password lives, and by how much a goroutine may be late. */
  datatype Timing = Timing(duration: nat, delay: nat)

  /** The stored password of a name and the time it was issued at. */
  datatype Issued = Issued(password: Password, at: nat)

  /** A goroutine that will clear a name: not yet asleep, or asleep until `due`. */
  datatype Clear = Starting(name: Name, since: nat) | Sleeping(name: Name, due: nat)

  datatype State = State(now: nat, store: map<Name, Issued>, clears: map<ClearId, Clear>)

  const Init := State(0, map[], map[])

  datatype Action =
    | Generate(name: Name, random: Password, clear: ClearId)
    | StartClear(clear: ClearId)
    | Verify(name: Name, input: Password, clear: ClearId)
    | Fire(clear: ClearId)
    | Tick

  /** When a goroutine cannot be kept waiting any longer. */
  function Deadline(c: Clear, t: Timing): nat {
    t.delay + if c.Starting? then c.since else c.due
  }

  predicate Enabled(s: State, a: Action, t: Timing) {
    match a
    case Generate(_, _, c) => c !in s.clears
    case StartClear(c) => c in s.clears && s.clears[c].Starting?
    case Verify(_, _, c) => c !in s.clears
    case Fire(c) => c in s.clears && s.clears[c].Sleeping? && s.clears[c].due <= s.now
    case Tick => forall c | c in s.clears :: s.now < Deadline(s.clears[c], t)
  }

  /** The outcome of checking a password. */
  predicate Accepts(s: State, name: Name, input: Password) {
    input != "" && name in s.store && s.store[name].password == input
  }

  /** The password that `Generate` returns. */
  function Returned(s: State, name: Name, random: Password): Password {
    if name in s.store then s.store[name].password else random
  }

  function Apply(s: State, a: Action, t: Timing): State
    requires Enabled(s, a, t)
  {
    match a
    case Generate(name, random, c) =>
      if name in s.store then s
      else s.(store := s.store[name := Issued(random, s.now)], clears := s.clears[c := Starting(name, s.now)])
    case StartClear(c) => s.(clears := s.clears[c := Sleeping(s.clears[c].name, s.now + t.duration)])
    case Verify(name, input, c) =>
      if Accepts(s, name, input) then s.(clears := s.clears[c := Sleeping(name, s.now)]) else s
    case Fire(c) => s.(store := s.store - {s.clears[c].name}, clears := s.clears - {c})
    case Tick => s.(now := s.now + 1)
  }

  ghost predicate IsRun(states: seq<State>, actions: seq<Action>, t: Timing) {
    && |states| == |actions| + 1 && states[0] == Init
    && forall i | 0 <= i < |actions| :: Enabled(states[i], actions[i], t) && states[i + 1] == Apply(states[i], actions[i], t)
  }

  /** This goroutine clears the name in time. */
  predicate Covers(c: Clear, name: Name, issued: nat, t: Timing) {
    c.name == name && if c.Starting? then c.since == issued else c.due <= issued + t.delay + t.duration
  }

  /** Every stored password has a clear pending: one started when it was issued, or one due no later
      than its lifetime and the delay of a start after that. */
  ghost predicate Covered(s: State, t: Timing) {
    && (forall c | c in s.clears :: s.now <= Deadline(s.clears[c], t))
    && (forall name | name in s.store :: exists c :: c in s.clears && Covers(s.clears[c], name, s.store[name].at, t))
  }

  lemma StepCovered(s: State, a: Action, t: Timing)
    requires Enabled(s, a, t) && Covered(s, t)
    ensures Covered(Apply(s, a, t), t)
  {
    var s' := Apply(s, a, t);
    forall name | name in s'.store
      ensures exists c :: c in s'.clears && Covers(s'.clears[c], name, s'.store[name].at, t)
    {
      if name in s.store {
        var c :| c in s.clears && Covers(s.clears[c], name, s.store[name].at, t);
        assert c in s'.clears && Covers(s'.clears[c], name, s'.store[name].at, t);
      } else {
        assert a.clear in s'.clears && Covers(s'.clears[a.clear], name, s'.store[name].at, t);
      }
    }
  }

  /** In every interleaving of generating, verifying and timers, stale ones included. */
  lemma {:induction false} RunCovered(states: seq<State>, actions: seq<Action>, t: Timing, n: nat)
    requires IsRun(states, actions, t) && n < |states|
    ensures Covered(states[n], t)
  {
    hide Enabled, Apply;
    if n > 0 {
      RunCovered(states, actions, t, n - 1);
      StepCovered(states[n - 1], actions[n - 1], t);
    }
  }

  lemma {:induction false} IssuedInThePast(states: seq<State>, actions: seq<Action>, t: Timing, n: nat, name: Name)
    requires IsRun(states, actions, t) && n < |states| && name in states[n].store
    ensures states[n].store[name].at <= states[n].now
  {
    if n > 0 && name in states[n - 1].store {
      IssuedInThePast(states, actions, t, n - 1, name);
    }
  }

  /** No password is stored, and none is accepted, later than its lifetime and the delays of one
      goroutine after it was issued. */
  lemma PasswordsExpire(states: seq<State>, actions: seq<Action>, t: Timing, n: nat, name: Name, input: Password)
    requires IsRun(states, actions, t) && n < |states|
    ensures name in states[n].store ==>
              states[n].store[name].at <= states[n].now <= states[n].store[name].at + t.duration + 2 * t.delay
    ensures Accepts(states[n], name, input) ==> states[n].now <= states[n].store[name].at + t.duration + 2 * t.delay
  {
    if name in states[n].store {
      RunCovered(states, actions, t, n);
      IssuedInThePast(states, actions, t, n, name);
    }
  }

  /** As long as a name's password is stored it does not change, so generating again returns it. */
  lemma {:induction false} GenerateReturnsStored(states: seq<State>, actions: seq<Action>, t: Timing, i: nat, j: nat, name: Name, random: Password)
    requires IsRun(states, actions, t) && i <= j < |states|
    requires forall m | i <= m <= j :: name in states[m].store
    ensures states[j].store[name] == states[i].store[name]
    ensures Returned(states[j], name, random) == states[i].store[name].password
    decreases j
  {
    if i < j {
      GenerateReturnsStored(states, actions, t, i, j - 1, name, random);
      assert name in states[j - 1].store;
    }
  }

  // Use more than once ----------------------------------------------------------

  /** Step `m` clears the name. */
  predicate Clears(s: State, a: Action, name: Name) {
    a.Fire? && a.clear in s.clears && s.clears[a.clear].name == name
  }

  /** No step from `i` up to `j` clears the name. */
  ghost predicate Kept(states: seq<State>, actions: seq<Action>, i: nat, j: nat, name: Name)
    requires j <= |actions| <= |states|
  {
    forall m | i <= m < j :: !Clears(states[m], actions[m], name)
  }

  /** The step issues the password. */
  predicate Issues(s: State, a: Action, name: Name, password: Password) {
    a.Generate? && a.name == name && a.random == password && name !in s.store
  }

  /** How one step changes whether a password is accepted. */
  lemma StepAccepts(s: State, a: Action, t: Timing, name: Name, input: Password)
    requires Enabled(s, a, t) && input != ""
    ensures Accepts(Apply(s, a, t), name, input)
            <==> (Accepts(s, name, input) && !Clears(s, a, name)) || Issues(s, a, name, input)
  {
  }

  /** When a password that has been accepted is accepted again: exactly if its name has not been
      cleared since, or the same password has been issued anew and not been cleared since. */
  lemma {:induction false} AcceptedAgainExactly(states: seq<State>, actions: seq<Action>, t: Timing, i: nat, j: nat,
                                                name: Name, input: Password)
    requires IsRun(states, actions, t) && i <= j < |states| && Accepts(states[i], name, input)
    ensures Accepts(states[j], name, input) <==>
      || Kept(states, actions, i, j, name)
      || exists m | i <= m < j :: Issues(states[m], actions[m], name, input) && Kept(states, actions, m + 1, j, name)
    decreases j
  {
    hide Enabled, Apply, Accepts, Clears, Issues;
    assert input != "" by {
      AcceptedIsNotEmpty(states[i], name, input);
    }
    if i < j {
      var l := j - 1;
      AcceptedAgainExactly(states, actions, t, i, l, name, input);
      StepAccepts(states[l], actions[l], t, name, input);
      KeptOneMore(states, actions, l, name);
      if Issues(states[l], actions[l], name, input) {
        assert Kept(states, actions, l + 1, j, name);
      }
    }
  }

  lemma AcceptedIsNotEmpty(s: State, name: Name, input: Password)
    requires Accepts(s, name, input)
    ensures input != ""
  {
  }

  lemma KeptOneMore(states: seq<State>, actions: seq<Action>, l: nat, name: Name)
    requires l < |actions| <= |states|
    ensures forall i: nat | i <= l ::
      Kept(states, actions, i, l + 1, name) <==> Kept(states, actions, i, l, name) && !Clears(states[l], actions[l], name)
  {
    hide Clears;
  }

  /** A run in which a password is used twice: the clear that the first use starts has not fired
      when the second use comes. */
  lemma UsedTwice(name: Name, password: Password, t: Timing) returns (states: seq<State>, actions: seq<Action>)
    requires password != ""
    ensures actions == [Generate(name, password, 0), StartClear(0), Verify(name, password, 1), Verify(name, password, 2)]
    ensures IsRun(states, actions, t)
    ensures Accepts(states[2], name, password) && Accepts(states[3], name, password)
  {
    var a0, a1, a2, a3 := Generate(name, password, 0), StartClear(0), Verify(name, password, 1), Verify(name, password, 2);
    var s1 := Apply(Init, a0, t);
    var s2 := Apply(s1, a1, t);
    var s3 := Apply(s2, a2, t);
    var s4 := Apply(s3, a3, t);
    states, actions := [Init, s1, s2, s3, s4], [a0, a1, a2, a3];
  }

  // Lifetimes -------------------------------------------------------------------

  /** The step uses up the stored password of a name. */
  predicate Uses(s: State, a: Action, name: Name) {
    a.Verify? && a.name == name && Accepts(s, name, a.input)
  }

  /** A clear of the name is asleep and due by `time`. */
  predicate WakesBy(c: Clear, name: Name, time: nat) {
    c.Sleeping? && c.name == name && c.due <= time
  }

  /** The password is stored, and nothing asleep will clear its name by `time`. */
  ghost predicate Safe(s: State, name: Name, issued: Issued, time: nat) {
    && name in s.store && s.store[name] == issued && issued.at <= s.now
    && (forall c | c in s.clears :: !WakesBy(s.clears[c], name, time))
  }

  lemma StepSafe(s: State, a: Action, t: Timing, name: Name, issued: Issued, time: nat)
    requires Enabled(s, a, t) && Safe(s, name, issued, time) && !Uses(s, a, name)
    requires Apply(s, a, t).now <= time < issued.at + t.duration
    ensures Safe(Apply(s, a, t), name, issued, time)
  {
    var s' := Apply(s, a, t);
    if a.Fire? {
      assert !WakesBy(s.clears[a.clear], name, time);
    }
    forall c | c in s'.clears
      ensures !WakesBy(s'.clears[c], name, time)
    {
      assert c in s.clears ==> !WakesBy(s.clears[c], name, time);
    }
  }

  lemma {:induction false} TimeGoesOn(states: seq<State>, actions: seq<Action>, t: Timing, i: nat, j: nat)
    requires IsRun(states, actions, t) && i <= j < |states|
    ensures states[i].now <= states[j].now
    decreases j
  {
    if i < j {
      TimeGoesOn(states, actions, t, i, j - 1);
      assert Enabled(states[j - 1], actions[j - 1], t) && states[j] == Apply(states[j - 1], actions[j - 1], t);
    }
  }

  lemma {:induction false} StaysSafe(states: seq<State>, actions: seq<Action>, t: Timing, i: nat, j: nat, name: Name, issued: Issued)
    requires IsRun(states, actions, t) && i <= j < |states| && states[j].now < issued.at + t.duration
    requires Safe(states[i], name, issued, states[j].now)
    requires forall m | i <= m < j :: !Uses(states[m], actions[m], name)
    ensures Safe(states[j], name, issued, states[j].now)
    decreases j - i
  {
    hide Enabled, Apply, Safe, Uses;
    if i < j {
      TimeGoesOn(states, actions, t, i + 1, j);
      StepSafe(states[i], actions[i], t, name, issued, states[j].now);
      StaysSafe(states, actions, t, i + 1, j, name, issued);
    }
  }

  /** A sleeping clear stays asleep until it fires. */
  lemma {:induction false} SleepsOn(states: seq<State>, actions: seq<Action>, t: Timing, i: nat, j: nat, c: ClearId, name: Name)
    requires IsRun(states, actions, t) && i <= j < |states|
    requires c in states[i].clears && states[i].clears[c].Sleeping? && states[i].clears[c].name == name
    requires Kept(states, actions, i, j, name)
    ensures c in states[j].clears && states[j].clears[c] == states[i].clears[c]
    decreases j
  {
    if i < j {
      SleepsOn(states, actions, t, i, j - 1, c, name);
      assert !Clears(states[j - 1], actions[j - 1], name);
      assert Enabled(states[j - 1], actions[j - 1], t) && states[j] == Apply(states[j - 1], actions[j - 1], t);
    }
  }

  lemma NotOverdue(states: seq<State>, actions: seq<Action>, t: Timing, i: nat, j: nat, c: ClearId, name: Name)
    requires IsRun(states, actions, t) && i <= j < |states|
    requires c in states[i].clears && states[i].clears[c].Sleeping? && states[i].clears[c].name == name
    ensures Kept(states, actions, i, j, name) ==> states[j].now <= Deadline(states[i].clears[c], t)
  {
    hide Enabled, Apply, Kept;
    if Kept(states, actions, i, j, name) {
      SleepsOn(states, actions, t, i, j, c, name);
      RunCovered(states, actions, t, j);
    }
  }

  /** A clear of the name is asleep and must have fired before `now`. */
  predicate Overdue(c: Clear, name: Name, t: Timing, now: nat) {
    c.Sleeping? && c.name == name && Deadline(c, t) < now
  }

  /** When a password lives out its lifetime. Issued at step `i` and not used since, it is stored at
      `j` within its lifetime if no clear of its name that was asleep when it was issued is due by
      then; and if one is overdue by then, it has been cleared. Without delays that leaves open only
      the moment in which such a clear is due. */
  lemma LifetimeExactly(states: seq<State>, actions: seq<Action>, t: Timing, i: nat, j: nat, name: Name, password: Password)
    requires IsRun(states, actions, t) && i < j < |states| && Issues(states[i], actions[i], name, password)
    requires forall m | i < m < j :: !Uses(states[m], actions[m], name)
    ensures states[j].now < states[i].now + t.duration
            && (forall c | c in states[i].clears :: !WakesBy(states[i].clears[c], name, states[j].now))
            ==> name in states[j].store && states[j].store[name] == Issued(password, states[i].now)
    ensures (exists c | c in states[i].clears :: Overdue(states[i].clears[c], name, t, states[j].now))
            ==> !Kept(states, actions, i + 1, j, name)
  {
    var s, s' := states[i], states[i + 1];
    assert Enabled(s, actions[i], t) && s' == Apply(s, actions[i], t);
    if states[j].now < s.now + t.duration && forall c | c in s.clears :: !WakesBy(s.clears[c], name, states[j].now) {
      assert Safe(s', name, Issued(password, s.now), states[j].now);
      StaysSafe(states, actions, t, i + 1, j, name, Issued(password, s.now));
    }
    if exists c | c in s.clears :: Overdue(s.clears[c], name, t, states[j].now) {
      var c :| c in s.clears && Overdue(s.clears[c], name, t, states[j].now);
      NotOverdue(states, actions, t, i + 1, j, c, name);
    }
  }

  /** A run in which a password is cut short: the clear of an earlier one, used at once, is still
      asleep when the next is issued at 1, and clears it at 2 although it should live until 3. */
  lemma CutShort(name: Name, first: Password, second: Password) returns (states: seq<State>, actions: seq<Action>)
    requires first != "" && second != ""
    ensures IsRun(states, actions, Timing(2, 0)) && |actions| == 9
    ensures Issues(states[5], actions[5], name, second) && states[5].now == 1
    ensures forall m | 5 < m < 9 :: !Uses(states[m], actions[m], name)
    ensures states[9].now == 2 && name !in states[9].store
  {
    hide Enabled, Apply;
    var s1, s2, s3, s4 := IssuedAndUsed(name, first);
    var s5, s6, s7, s8, s9 := IssuedAndCut(name, second, s4);
    states := [Init, s1, s2, s3, s4, s5, s6, s7, s8, s9];
    actions := [Generate(name, first, 0), StartClear(0), Verify(name, first, 1), Fire(1), Tick, Generate(name, second, 2),
                StartClear(2), Tick, Fire(0)];
  }

  predicate Steps(s: State, a: Action, s': State) {
    Enabled(s, a, Timing(2, 0)) && s' == Apply(s, a, Timing(2, 0))
  }

  lemma IssuedAndUsed(name: Name, first: Password) returns (s1: State, s2: State, s3: State, s4: State)
    requires first != ""
    ensures Steps(Init, Generate(name, first, 0), s1) && Steps(s1, StartClear(0), s2)
    ensures Steps(s2, Verify(name, first, 1), s3) && Steps(s3, Fire(1), s4)
    ensures s4 == State(0, map[], map[0 := Sleeping(name, 2)])
  {
    var one, stale := map[name := Issued(first, 0)], Sleeping(name, 2);
    s1, s2 := State(0, one, map[0 := Starting(name, 0)]), State(0, one, map[0 := stale]);
    s3, s4 := State(0, one, map[0 := stale, 1 := Sleeping(name, 0)]), State(0, map[], map[0 := stale]);
    assert Apply(s3, Fire(1), Timing(2, 0)) == s4;
  }

  lemma IssuedAndCut(name: Name, second: Password, s4: State) returns (s5: State, s6: State, s7: State, s8: State, s9: State)
    requires s4 == State(0, map[], map[0 := Sleeping(name, 2)])
    ensures Steps(s4, Tick, s5) && Steps(s5, Generate(name, second, 2), s6)
    ensures Steps(s6, StartClear(2), s7) && Steps(s7, Tick, s8) && Steps(s8, Fire(0), s9)
    ensures s5.now == 1 && name !in s5.store && s9.now == 2 && name !in s9.store
  {
    var two, stale, next := map[name := Issued(second, 1)], Sleeping(name, 2), Sleeping(name, 3);
    s5, s6 := State(1, map[], map[0 := stale]), State(1, two, map[0 := stale, 2 := Starting(name, 1)]);
    s7, s8 := State(1, two, map[0 := stale, 2 := next]), State(2, two, map[0 := stale, 2 := next]);
    s9 := State(2, map[], map[2 := next]);
    assert Apply(s8, Fire(0), Timing(2, 0)) == s9;
  }

  // What is issued and accepted -------------------------------------------------------

  /** The password that generating returns is the one stored, and is accepted. */
  lemma GeneratedIsStored(states: seq<State>, actions: seq<Action>, t: Timing, n: nat)
    requires IsRun(states, actions, t) && n < |actions| && actions[n].Generate?
    ensures var name, password := actions[n].name, Returned(states[n], actions[n].name, actions[n].random);
      && name in states[n + 1].store && states[n + 1].store[name].password == password
      && (password != "" ==> Accepts(states[n + 1], name, password))
      && (name !in states[n].store ==> password == actions[n].random)
  {
    assert states[n + 1] == Apply(states[n], actions[n], t);
  }

  /** What is accepted was issued under that name, and the name has not been cleared since. */
  lemma {:induction false} AcceptedWasIssued(states: seq<State>, actions: seq<Action>, t: Timing, n: nat, name: Name, input: Password) returns (i: nat)
    requires IsRun(states, actions, t) && n < |states| && Accepts(states[n], name, input)
    ensures i < n && Issues(states[i], actions[i], name, input) && Kept(states, actions, i + 1, n, name)
  {
    hide Enabled, Apply, Clears;
    AcceptedIsNotEmpty(states[n], name, input);
    assert n > 0;
    var l := n - 1;
    StepAccepts(states[l], actions[l], t, name, input);
    KeptOneMore(states, actions, l, name);
    if Issues(states[l], actions[l], name, input) {
      i := l;
    } else {
      i := AcceptedWasIssued(states, actions, t, l, name, input);
    }
  }

  /** A password that has been used is cleared within the delay. */
  lemma UsedIsCleared(states: seq<State>, actions: seq<Action>, t: Timing, i: nat, j: nat, name: Name)
    requires IsRun(states, actions, t) && i < j < |states| && Uses(states[i], actions[i], name)
    requires states[j].now > states[i].now + t.delay
    ensures !Kept(states, actions, i + 1, j, name)
  {
    var s' := states[i + 1];
    assert s' == Apply(states[i], actions[i], t);
    assert s'.clears[actions[i].clear] == Sleeping(name, states[i].now);
    NotOverdue(states, actions, t, i + 1, j, actions[i].clear, name);
  }
}
