/** Any number of concurrent callers of the service, one atomic action at a time. */
module WitnessProtocol {
  import opened Options
  import opened WitnessService

  /** Where a caller is inside `read` or `advance`. */
  datatype Phase =
    | Waiting
    | Entered
    | Matched
    | Rereading
    | Leaving(reply: Reply)
    | Done(reply: Reply)

  datatype Caller = Caller(call: Call, phase: Phase)

  /** One finished critical section; history only. */
  datatype Section = Section(caller: nat, before: nat, after: nat, reply: Reply)

  /** `unsettled` holds callers whose timed-out increment may still reach the
      device. `entry`, `moves` and `log` are history variables. */
  datatype State = State(
    counter: nat,
    holder: Option<nat>,
    callers: seq<Caller>,
    unsettled: set<nat>,
    entry: nat,
    moves: seq<nat>,
    log: seq<Section>)

  datatype Step =
    | Invoke(call: Call)
    | Acquire(t: nat)
    | FirstRead(t: nat, ok: bool)
    | TryIncrement(t: nat, outcome: Increment)
    | SecondRead(t: nat, ok: bool)
    | Release(t: nat)
    | Settle(t: nat, landed: bool)

  function Init(c0: nat): State {
    State(c0, None, [], {}, c0, [], [])
  }

  predicate InPhase(s: State, t: nat, phase: Phase) {
    t < |s.callers| && s.callers[t].phase == phase
  }

  predicate Enabled(s: State, step: Step) {
    match step
    case Invoke(_) => true
    case Acquire(t) => InPhase(s, t, Waiting) && s.holder.None?
    case FirstRead(t, _) => InPhase(s, t, Entered)
    case TryIncrement(t, _) => InPhase(s, t, Matched)
    case SecondRead(t, _) => InPhase(s, t, Rereading)
    case Release(t) => t < |s.callers| && s.callers[t].phase.Leaving?
    case Settle(t, _) => t in s.unsettled
  }

  function SetPhase(s: State, t: nat, phase: Phase): State
    requires t < |s.callers|
  {
    s.(callers := s.callers[t := s.callers[t].(phase := phase)])
  }

  function Bump(s: State, t: nat): State {
    s.(counter := s.counter + 1, moves := s.moves + [t])
  }

  function Apply(s: State, step: Step): State
    requires Enabled(s, step)
  {
    match step
    case Invoke(call) => s.(callers := s.callers + [Caller(call, Waiting)])
    case Acquire(t) => SetPhase(s, t, Entered).(holder := Some(t), entry := s.counter)
    case FirstRead(t, ok) =>
      if !ok then SetPhase(s, t, Leaving(Failed))
      else (match s.callers[t].call
            case Read => SetPhase(s, t, Leaving(ReadValue(s.counter)))
            case Advance(expected) =>
              if s.counter != expected then SetPhase(s, t, Leaving(Conflict(s.counter)))
              else SetPhase(s, t, Matched))
    case TryIncrement(t, outcome) =>
      (match outcome
       case Applied => Bump(SetPhase(s, t, Rereading), t)
       case AmbiguousApplied => Bump(SetPhase(s, t, Rereading), t)
       case AmbiguousLost => SetPhase(s, t, Rereading)
       case AmbiguousPending => SetPhase(s, t, Rereading).(unsettled := s.unsettled + {t})
       case Refused => SetPhase(s, t, Leaving(Failed)))
    case SecondRead(t, ok) => SetPhase(s, t, Leaving(if ok then Moved(s.counter) else Failed))
    case Release(t) =>
      var reply := s.callers[t].phase.reply;
      SetPhase(s, t, Done(reply)).(
        holder := None,
        log := s.log + [Section(t, s.entry, s.counter, reply)])
    case Settle(t, landed) =>
      var s' := s.(unsettled := s.unsettled - {t});
      if landed then Bump(s', t) else s'
  }

  /** The environment assumption: a timed-out increment has taken effect, or
      never will, by the time the confirming read runs. */
  predicate SettledStep(s: State, step: Step) {
    step.SecondRead? ==> step.t !in s.unsettled
  }

  ghost predicate Run(c0: nat, states: seq<State>, steps: seq<Step>) {
    && |states| == |steps| + 1
    && states[0] == Init(c0)
    && forall i :: 0 <= i < |steps| ==> Enabled(states[i], steps[i]) && states[i + 1] == Apply(states[i], steps[i])
  }

  ghost predicate SettledRun(c0: nat, states: seq<State>, steps: seq<Step>) {
    && Run(c0, states, steps)
    && forall i :: 0 <= i < |steps| ==> SettledStep(states[i], steps[i])
  }

  // ---------------------------------------------------------------- invariant

  predicate Critical(phase: Phase) {
    phase.Entered? || phase.Matched? || phase.Rereading? || phase.Leaving?
  }

  /** The lock is held by exactly the caller inside a critical section. */
  ghost predicate Exclusive(s: State) {
    && (s.holder.Some? ==> s.holder.value < |s.callers|)
    && (forall t :: 0 <= t < |s.callers| ==> (Critical(s.callers[t].phase) <==> s.holder == Some(t)))
    && (forall t :: t in s.unsettled ==> InPhase(s, t, Rereading))
  }

  /** The i-th movement of the counter was made by a caller that expected
      exactly the value the counter had then. */
  ghost predicate MovesMatch(s: State, c0: nat) {
    && s.counter == c0 + |s.moves|
    && forall i :: 0 <= i < |s.moves| ==>
         s.moves[i] < |s.callers| && s.callers[s.moves[i]].call == Advance(c0 + i)
  }

  /** What a caller's phase says about the counter since it took the lock. */
  ghost predicate CallerOk(s: State, t: nat)
    requires t < |s.callers|
  {
    var c := s.callers[t];
    match c.phase
    case Waiting => t !in s.moves
    case Entered => t !in s.moves && s.counter == s.entry
    case Matched => t !in s.moves && s.counter == s.entry && c.call == Advance(s.counter)
    case Rereading =>
      && c.call == Advance(s.entry)
      && s.counter == s.entry + (if t in s.moves then 1 else 0)
      && (t in s.unsettled ==> t !in s.moves)
    case Leaving(reply) =>
      && Allowed(c.call, s.entry, s.counter, reply)
      && (t in s.moves <==> s.counter != s.entry)
    case Done(reply) =>
      exists i :: 0 <= i < |s.log| && s.log[i].caller == t && s.log[i].reply == reply
  }

  /** The finished sections, in log order, are a sequential execution of the
      specification from `c0` to `end`. */
  ghost predicate Sequential(log: seq<Section>, callers: seq<Caller>, c0: nat, end: nat) {
    && (if log == [] then end == c0 else log[0].before == c0 && log[|log| - 1].after == end)
    && (forall i :: 0 < i < |log| ==> log[i].before == log[i - 1].after)
    && (forall i :: 0 <= i < |log| ==>
          log[i].caller < |callers| && Allowed(callers[log[i].caller].call, log[i].before, log[i].after, log[i].reply))
  }

  /** Each finished caller has one section, and it records whether it moved. */
  ghost predicate LogMatches(s: State) {
    && (forall i :: 0 <= i < |s.log| ==>
          && InPhase(s, s.log[i].caller, Done(s.log[i].reply))
          && (s.log[i].caller in s.moves <==> s.log[i].after != s.log[i].before))
    && (forall i, j :: 0 <= i < j < |s.log| ==> s.log[i].caller != s.log[j].caller)
  }

  ghost predicate Inv(s: State, c0: nat) {
    && Exclusive(s)
    && MovesMatch(s, c0)
    && (forall t :: 0 <= t < |s.callers| ==> CallerOk(s, t))
    && Sequential(s.log, s.callers, c0, if s.holder.None? then s.counter else s.entry)
    && LogMatches(s)
  }

  // --------------------------------------------------- every step keeps it

  lemma InvokeKeeps(s: State, call: Call, c0: nat)
    requires Inv(s, c0)
    ensures Inv(Apply(s, Invoke(call)), c0)
  {
    var s' := Apply(s, Invoke(call));
    forall t | 0 <= t < |s'.callers| ensures CallerOk(s', t) {
      if t < |s.callers| {
        assert CallerOk(s, t);
      }
    }
  }

  lemma AcquireKeeps(s: State, t: nat, c0: nat)
    requires Inv(s, c0) && Enabled(s, Acquire(t))
    ensures Inv(Apply(s, Acquire(t)), c0)
  {
    var s' := Apply(s, Acquire(t));
    forall u | 0 <= u < |s'.callers| ensures CallerOk(s', u) {
      assert CallerOk(s, u);
    }
  }

  /** A phase change inside the critical section. */
  lemma SetPhaseKeeps(s: State, t: nat, phase: Phase, c0: nat)
    requires Inv(s, c0) && t < |s.callers|
    requires Critical(s.callers[t].phase) && Critical(phase)
    requires t !in s.unsettled
    requires CallerOk(SetPhase(s, t, phase), t)
    ensures Inv(SetPhase(s, t, phase), c0)
  {
    var s' := SetPhase(s, t, phase);
    assert Exclusive(s');
    forall u | 0 <= u < |s'.callers| ensures CallerOk(s', u) {
      if u != t {
        assert CallerOk(s, u);
      }
    }
    assert LogMatches(s') by {
      forall i | 0 <= i < |s'.log| ensures InPhase(s', s'.log[i].caller, Done(s'.log[i].reply)) {
        assert InPhase(s, s.log[i].caller, Done(s.log[i].reply));
      }
    }
  }

  /** An increment of `t` reaching the device. */
  lemma BumpKeeps(s: State, t: nat, c0: nat)
    requires Inv(s, c0) && InPhase(s, t, Rereading) && t !in s.moves && t !in s.unsettled
    ensures Inv(Bump(s, t), c0)
  {
    var s' := Bump(s, t);
    assert CallerOk(s, t);
    forall u | 0 <= u < |s'.callers| ensures CallerOk(s', u) {
      assert CallerOk(s, u);
      if u != t {
        assert !Critical(s.callers[u].phase);
      }
    }
    assert LogMatches(s') by {
      forall i | 0 <= i < |s'.log| ensures s'.log[i].caller in s'.moves <==> s'.log[i].after != s'.log[i].before {
        assert InPhase(s, s.log[i].caller, Done(s.log[i].reply));
      }
    }
  }

  lemma FirstReadKeeps(s: State, t: nat, ok: bool, c0: nat)
    requires Inv(s, c0) && Enabled(s, FirstRead(t, ok))
    ensures Inv(Apply(s, FirstRead(t, ok)), c0)
  {
    assert CallerOk(s, t);
    SetPhaseKeeps(s, t, Apply(s, FirstRead(t, ok)).callers[t].phase, c0);
  }

  lemma TryIncrementKeeps(s: State, t: nat, outcome: Increment, c0: nat)
    requires Inv(s, c0) && Enabled(s, TryIncrement(t, outcome))
    ensures Inv(Apply(s, TryIncrement(t, outcome)), c0)
  {
    assert CallerOk(s, t);
    if outcome.Refused? {
      SetPhaseKeeps(s, t, Leaving(Failed), c0);
    } else {
      SetPhaseKeeps(s, t, Rereading, c0);
      var s1 := SetPhase(s, t, Rereading);
      if outcome.Applied? || outcome.AmbiguousApplied? {
        BumpKeeps(s1, t, c0);
      } else if outcome.AmbiguousPending? {
        UnsettledKeeps(s1, t, s1.unsettled + {t}, c0);
      }
    }
  }

  lemma UnsettledKeeps(s: State, t: nat, unsettled: set<nat>, c0: nat)
    requires Inv(s, c0) && InPhase(s, t, Rereading) && t !in s.moves
    requires unsettled <= s.unsettled + {t}
    ensures Inv(s.(unsettled := unsettled), c0)
  {
    var s' := s.(unsettled := unsettled);
    forall u | 0 <= u < |s'.callers| ensures CallerOk(s', u) {
      assert CallerOk(s, u);
    }
  }

  lemma SecondReadKeeps(s: State, t: nat, ok: bool, c0: nat)
    requires Inv(s, c0) && Enabled(s, SecondRead(t, ok)) && t !in s.unsettled
    ensures Inv(Apply(s, SecondRead(t, ok)), c0)
  {
    assert CallerOk(s, t);
    SetPhaseKeeps(s, t, Apply(s, SecondRead(t, ok)).callers[t].phase, c0);
  }

  lemma SettleKeeps(s: State, t: nat, landed: bool, c0: nat)
    requires Inv(s, c0) && Enabled(s, Settle(t, landed))
    ensures Inv(Apply(s, Settle(t, landed)), c0)
  {
    assert CallerOk(s, t);
    UnsettledKeeps(s, t, s.unsettled - {t}, c0);
    if landed {
      BumpKeeps(s.(unsettled := s.unsettled - {t}), t, c0);
    }
  }

  lemma ReleaseKeeps(s: State, t: nat, c0: nat)
    requires Inv(s, c0) && Enabled(s, Release(t))
    ensures Inv(Apply(s, Release(t)), c0)
  {
    var s' := Apply(s, Release(t));
    assert CallerOk(s, t);
    assert Exclusive(s');
    forall u | 0 <= u < |s'.callers| ensures CallerOk(s', u) {
      assert CallerOk(s, u);
      if u == t {
        assert s'.log[|s.log|].caller == t;
      } else if s.callers[u].phase.Done? {
        var i :| 0 <= i < |s.log| && s.log[i].caller == u && s.log[i].reply == s.callers[u].phase.reply;
        assert s'.log[i] == s.log[i];
      }
    }
    ReleaseKeepsLog(s, t, c0);
  }

  lemma ReleaseKeepsLog(s: State, t: nat, c0: nat)
    requires Inv(s, c0) && Enabled(s, Release(t))
    ensures var s' := Apply(s, Release(t)); Sequential(s'.log, s'.callers, c0, s'.counter) && LogMatches(s')
  {
    var s' := Apply(s, Release(t));
    assert CallerOk(s, t);
    var n := |s.log|;
    forall i | 0 <= i < |s'.log|
      ensures InPhase(s', s'.log[i].caller, Done(s'.log[i].reply))
      ensures s'.log[i].caller in s'.moves <==> s'.log[i].after != s'.log[i].before
      ensures i < n ==> s'.log[i] == s.log[i] && s'.log[i].caller != t
    {
      if i < n {
        assert s'.log[i] == s.log[i];
        assert InPhase(s, s.log[i].caller, Done(s.log[i].reply));
      }
    }
  }

  lemma StepKeepsInv(s: State, step: Step, c0: nat)
    requires Inv(s, c0) && Enabled(s, step) && SettledStep(s, step)
    ensures Inv(Apply(s, step), c0)
  {
    match step
    case Invoke(call) => InvokeKeeps(s, call, c0);
    case Acquire(t) => AcquireKeeps(s, t, c0);
    case FirstRead(t, ok) => FirstReadKeeps(s, t, ok, c0);
    case TryIncrement(t, outcome) => TryIncrementKeeps(s, t, outcome, c0);
    case SecondRead(t, ok) => SecondReadKeeps(s, t, ok, c0);
    case Release(t) => ReleaseKeeps(s, t, c0);
    case Settle(t, landed) => SettleKeeps(s, t, landed, c0);
  }

  lemma {:induction false} RunKeepsInv(c0: nat, states: seq<State>, steps: seq<Step>, i: nat)
    requires SettledRun(c0, states, steps) && i < |states|
    ensures Inv(states[i], c0)
  {
    if i > 0 {
      RunKeepsInv(c0, states, steps, i - 1);
      StepKeepsInv(states[i - 1], steps[i - 1], c0);
    }
  }

  // ------------------------------------------------------------ main results

  /** In every settled run, at most one caller with a given expected value ever
      moves the counter, and it moves it once. */
  lemma AtMostOneMover(c0: nat, states: seq<State>, steps: seq<Step>, n: nat, i: nat, j: nat)
    requires SettledRun(c0, states, steps) && n < |states|
    requires i < |states[n].moves| && j < |states[n].moves|
    ensures states[n].moves[i] < |states[n].callers| && states[n].moves[j] < |states[n].callers|
    ensures states[n].callers[states[n].moves[i]].call.Advance?
    ensures states[n].callers[states[n].moves[i]].call == states[n].callers[states[n].moves[j]].call ==> i == j
  {
    RunKeepsInv(c0, states, steps, n);
  }

  /** What a finished caller was told, against what it did to the counter. */
  lemma RepliesTellTheTruth(c0: nat, states: seq<State>, steps: seq<Step>, n: nat, t: nat)
    requires SettledRun(c0, states, steps) && n < |states|
    requires t < |states[n].callers| && states[n].callers[t].phase.Done?
    ensures var c := states[n].callers[t];
      match c.phase.reply
      case ReadValue(_) => c.call.Read? && t !in states[n].moves
      case Conflict(v) => c.call.Advance? && v != c.call.expected && t !in states[n].moves
      case Moved(v) => c.call.Advance? && v == c.call.expected + (if t in states[n].moves then 1 else 0)
      case Failed => true
  {
    RunKeepsInv(c0, states, steps, n);
    var s := states[n];
    assert CallerOk(s, t);
    var i :| 0 <= i < |s.log| && s.log[i].caller == t && s.log[i].reply == s.callers[t].phase.reply;
    assert Allowed(s.callers[t].call, s.log[i].before, s.log[i].after, s.log[i].reply);
  }

  /** Every settled run is linearizable: its finished calls, in the order in
      which they released the lock, are one sequential execution of the
      specification, each with the reply it actually got. */
  lemma Linearizable(c0: nat, states: seq<State>, steps: seq<Step>, n: nat)
    requires SettledRun(c0, states, steps) && n < |states|
    ensures var s := states[n];
      && Sequential(s.log, s.callers, c0, if s.holder.None? then s.counter else s.entry)
      && (forall i, j :: 0 <= i < j < |s.log| ==> s.log[i].caller != s.log[j].caller)
      && (forall t :: 0 <= t < |s.callers| && s.callers[t].phase.Done? ==>
            exists i :: 0 <= i < |s.log| && s.log[i].caller == t && s.log[i].reply == s.callers[t].phase.reply)
  {
    RunKeepsInv(c0, states, steps, n);
    forall t | 0 <= t < |states[n].callers| && states[n].callers[t].phase.Done?
      ensures exists i :: 0 <= i < |states[n].log| && states[n].log[i].caller == t && states[n].log[i].reply == states[n].callers[t].phase.reply
    {
      assert CallerOk(states[n], t);
    }
  }

  lemma {:induction false} LogOnlyGrows(c0: nat, states: seq<State>, steps: seq<Step>, m: nat, n: nat)
    requires Run(c0, states, steps) && m <= n < |states|
    ensures states[m].log <= states[n].log && |states[m].callers| <= |states[n].callers|
    decreases n - m
  {
    if m < n {
      LogOnlyGrows(c0, states, steps, m, n - 1);
      assert Enabled(states[n - 1], steps[n - 1]);
    }
  }

  /** The order of the log respects real time: a call that had returned before
      another was made comes first. */
  lemma RealTimeOrder(c0: nat, states: seq<State>, steps: seq<Step>, m: nat, n: nat, i: nat, j: nat)
    requires SettledRun(c0, states, steps) && m <= n < |states|
    requires i < |states[n].log| && j < |states[n].log|
    requires InPhase(states[m], states[n].log[i].caller, Done(states[n].log[i].reply))
    requires states[n].log[j].caller >= |states[m].callers|
    ensures i < j
  {
    RunKeepsInv(c0, states, steps, m);
    RunKeepsInv(c0, states, steps, n);
    LogOnlyGrows(c0, states, steps, m, n);
    var t := states[n].log[i].caller;
    assert CallerOk(states[m], t);
    var k :| 0 <= k < |states[m].log| && states[m].log[k].caller == t;
    assert states[n].log[k] == states[m].log[k];
    assert k == i;
    assert j >= |states[m].log| by {
      if j < |states[m].log| {
        assert false;
      }
    }
  }

  /** The protocol's steps are the service's: a caller that finds the lock free
      and is not interrupted ends exactly as `Service.Advance` does. */
  lemma UninterruptedAdvance(s: State, t: nat, first: bool, outcome: Increment, second: bool)
    requires InPhase(s, t, Waiting) && s.callers[t].call.Advance? && s.holder.None?
    ensures var e := Ended(s.counter, s.callers[t].call.expected, first, outcome, second);
      var s' := Execute(s, Program(s, t, first, outcome, second));
      && s'.Some?
      && s'.value.callers == s.callers[t := Caller(s.callers[t].call, Done(e.reply))]
      && s'.value.counter == e.counter && s'.value.holder.None?
  {
    var e := Ended(s.counter, s.callers[t].call.expected, first, outcome, second);
    var s1 := Apply(s, Acquire(t));
    var s2 := Apply(s1, FirstRead(t, first));
    var steps := Program(s, t, first, outcome, second);
    assert Execute(s, steps) == Execute(s1, steps[1..]);
    assert steps[1..][0] == FirstRead(t, first);
    assert Execute(s1, steps[1..]) == Execute(s2, steps[1..][1..]);
    assert steps[1..][1..] == AfterFirstRead(s, t, first, outcome, second);
    if !first || s.counter != s.callers[t].call.expected {
      ReleaseAlone(s2, t);
    } else {
      var s3 := Apply(s2, TryIncrement(t, outcome));
      var rest := AfterFirstRead(s, t, first, outcome, second);
      assert Execute(s2, rest) == Execute(s3, rest[1..]);
      if outcome.Refused? {
        ReleaseAlone(s3, t);
      } else {
        var s4 := Apply(s3, SecondRead(t, second));
        assert Execute(s3, rest[1..]) == Execute(s4, rest[1..][1..]);
        assert rest[1..][1..] == [Release(t)];
        ReleaseAlone(s4, t);
      }
    }
  }

  function AfterFirstRead(s: State, t: nat, first: bool, outcome: Increment, second: bool): seq<Step>
    requires t < |s.callers| && s.callers[t].call.Advance?
  {
    if !first || s.counter != s.callers[t].call.expected then [Release(t)]
    else if outcome.Refused? then [TryIncrement(t, outcome), Release(t)]
    else [TryIncrement(t, outcome), SecondRead(t, second), Release(t)]
  }

  /** The commands `advance` issues, in order. */
  function Program(s: State, t: nat, first: bool, outcome: Increment, second: bool): seq<Step>
    requires t < |s.callers| && s.callers[t].call.Advance?
  {
    [Acquire(t), FirstRead(t, first)] + AfterFirstRead(s, t, first, outcome, second)
  }

  function Execute(s: State, steps: seq<Step>): Option<State>
    decreases steps
  {
    if steps == [] then Some(s)
    else if !Enabled(s, steps[0]) then None
    else Execute(Apply(s, steps[0]), steps[1..])
  }

  lemma ReleaseAlone(s: State, t: nat)
    requires Enabled(s, Release(t))
    ensures Execute(s, [Release(t)]) == Some(Apply(s, Release(t)))
  {
    assert Execute(Apply(s, Release(t)), [Release(t)][1..]) == Some(Apply(s, Release(t)));
  }

  function LateSteps(): seq<Step> {
    [Invoke(Advance(0)), Acquire(0), FirstRead(0, true), TryIncrement(0, AmbiguousPending), SecondRead(0, true), Release(0),
     Invoke(Advance(0)), Acquire(1), FirstRead(1, true), TryIncrement(1, Applied), SecondRead(1, true), Release(1),
     Settle(0, true)]
  }

  function LateStates(): seq<State> {
    [State(0, None, [], {}, 0, [], []),
     State(0, None, [Caller(Advance(0), Waiting)], {}, 0, [], []),
     State(0, Some(0), [Caller(Advance(0), Entered)], {}, 0, [], []),
     State(0, Some(0), [Caller(Advance(0), Matched)], {}, 0, [], []),
     State(0, Some(0), [Caller(Advance(0), Rereading)], {0}, 0, [], []),
     State(0, Some(0), [Caller(Advance(0), Leaving(Moved(0)))], {0}, 0, [], []),
     State(0, None, [Caller(Advance(0), Done(Moved(0)))], {0}, 0, [], [Section(0, 0, 0, Moved(0))]),
     State(0, None, [Caller(Advance(0), Done(Moved(0))), Caller(Advance(0), Waiting)], {0}, 0, [], [Section(0, 0, 0, Moved(0))]),
     State(0, Some(1), [Caller(Advance(0), Done(Moved(0))), Caller(Advance(0), Entered)], {0}, 0, [], [Section(0, 0, 0, Moved(0))]),
     State(0, Some(1), [Caller(Advance(0), Done(Moved(0))), Caller(Advance(0), Matched)], {0}, 0, [], [Section(0, 0, 0, Moved(0))]),
     State(1, Some(1), [Caller(Advance(0), Done(Moved(0))), Caller(Advance(0), Rereading)], {0}, 0, [1], [Section(0, 0, 0, Moved(0))]),
     State(1, Some(1), [Caller(Advance(0), Done(Moved(0))), Caller(Advance(0), Leaving(Moved(1)))], {0}, 0, [1], [Section(0, 0, 0, Moved(0))]),
     State(1, None, [Caller(Advance(0), Done(Moved(0))), Caller(Advance(0), Done(Moved(1)))], {0}, 0, [1], [Section(0, 0, 0, Moved(0)), Section(1, 0, 1, Moved(1))]),
     State(2, None, [Caller(Advance(0), Done(Moved(0))), Caller(Advance(0), Done(Moved(1)))], {}, 0, [1, 0], [Section(0, 0, 0, Moved(0)), Section(1, 0, 1, Moved(1))])]
  }

  /** The environment assumption cannot be dropped: when a timed-out increment
      lands after the confirming read, two callers that both expected 0 move
      the counter, and the first of them was told that it had not. */
  lemma LateIncrementBreaksIt()
    ensures Run(0, LateStates(), LateSteps())
    ensures var s := LateStates()[13];
      && s.counter == 2 && s.moves == [1, 0]
      && s.callers == [Caller(Advance(0), Done(Moved(0))), Caller(Advance(0), Done(Moved(1)))]
  {
    var states, steps := LateStates(), LateSteps();
    forall i | 0 <= i < |steps|
      ensures Enabled(states[i], steps[i]) && states[i + 1] == Apply(states[i], steps[i])
    {
      LateStep(i);
    }
  }

  ghost predicate LateStepWorks(i: nat)
    requires i < 13
  {
    Enabled(LateStates()[i], LateSteps()[i]) && LateStates()[i + 1] == Apply(LateStates()[i], LateSteps()[i])
  }

  lemma LateStep(i: nat)
    requires i < 13
    ensures LateStepWorks(i)
  {
    if i < 4 {
      FirstLateSteps(i);
    } else if i < 9 {
      MiddleLateSteps(i);
    } else {
      LastLateSteps(i);
    }
  }

  lemma FirstLateSteps(i: nat)
    requires i < 4
    ensures LateStepWorks(i)
  {
    assert Apply(LateStates()[i], LateSteps()[i]).callers == LateStates()[i + 1].callers;
  }

  lemma MiddleLateSteps(i: nat)
    requires 4 <= i < 9
    ensures LateStepWorks(i)
  {
    var s' := Apply(LateStates()[i], LateSteps()[i]);
    assert s'.callers == LateStates()[i + 1].callers;
    assert s'.log == LateStates()[i + 1].log;
  }

  lemma LastLateSteps(i: nat)
    requires 9 <= i < 13
    ensures LateStepWorks(i)
  {
    var s' := Apply(LateStates()[i], LateSteps()[i]);
    assert s'.callers == LateStates()[i + 1].callers;
    assert s'.log == LateStates()[i + 1].log;
  }
}
