/**
  When the console drops an agent it no longer hears from: never before the agent has been silent for
  the configured time, always some time after it, and sooner only if the clock goes back.
 */
module AgentAgeing {
  import opened Options
  import opened AgentDirectory

  // ------------------------------------------------------------ no agent goes early

  /** A clock that never goes back. */
  predicate Clock(steps: seq<Timed>) {
    forall i, j :: 0 <= i < j < |steps| ==> steps[i].at <= steps[j].at
  }

  /** A listed agent with a count of passes has been silent for as many minutes. */
  ghost predicate Silent(s: Console, n: Name, heard: map<Name, nat>)
    requires s.WellFormed() && n in s.agents
  {
    && n in heard
    && (!s.records[s.agents[n]].touched ==>
          heard[n] / SECOND + SECONDS_PER_PASS * s.records[s.agents[n]].untouched <= s.lastAgePass)
  }

  ghost predicate Timely(r: Run) {
    && r.console.WellFormed()
    && r.console.lastAgePass <= r.now / SECOND
    && (forall n :: n in r.heard ==> r.heard[n] <= r.now)
    && (forall n :: n in r.console.agents ==> Silent(r.console, n, r.heard))
    && (r.console.broker.Some? ==>
          r.console.records[r.console.broker.value].touched && r.console.BrokerName() in r.heard)
  }

  lemma FilterTimely(r: Run, p: Attributes -> bool, at: nat)
    requires Timely(r) && r.now <= at
    ensures Timely(Step(r, Timed(Filter(p), at)))
  {
    var t := Step(r, Timed(Filter(p), at));
    forall n | n in t.console.agents ensures Silent(t.console, n, t.heard) {
      if n in r.console.agents {
        assert Silent(r.console, n, r.heard);
      }
    }
  }

  lemma TouchTimely(r: Run, name: Name, at: nat)
    requires Timely(r) && r.now <= at
    ensures Timely(Run(Touch(r.console, name), at, r.heard[name := at]))
  {
    var t := Run(Touch(r.console, name), at, r.heard[name := at]);
    forall n | n in t.console.agents ensures Silent(t.console, n, t.heard) {
      assert Silent(r.console, n, r.heard);
    }
  }

  lemma NewRecordTimely(r: Run, name: Name, attributes: Attributes, broker: Option<Handle>)
    requires Timely(r) && name in r.heard && (broker == r.console.broker || broker == Some(|r.console.records|))
    ensures var s := r.console.(records := r.console.records + [NewRecord(name, attributes)], broker := broker);
            Timely(r.(console := s))
  {
    var s := r.console.(records := r.console.records + [NewRecord(name, attributes)], broker := broker);
    forall n | n in s.agents ensures Silent(s, n, r.heard) {
      assert Silent(r.console, n, r.heard);
    }
  }

  lemma ListTimely(r: Run, name: Name, agent: Handle, listed: bool)
    requires Timely(r) && name in r.heard
    requires agent < |r.console.records| && r.console.records[agent].name == name && r.console.records[agent].touched
    ensures Timely(r.(console := List(r.console, name, agent).(brokerListed := listed)))
  {
    var t := List(r.console, name, agent).(brokerListed := listed);
    forall n | n in t.agents ensures Silent(t, n, r.heard) {
      if n != name {
        assert Silent(r.console, n, r.heard);
      }
    }
  }

  lemma RefreshTimely(r: Run, name: Name, attributes: Attributes)
    requires Timely(r) && name in r.console.agents
    ensures Timely(r.(console := Refresh(r.console, name, attributes)))
  {
    var t := Refresh(r.console, name, attributes);
    forall n | n in t.agents ensures Silent(t, n, r.heard) {
      assert Silent(r.console, n, r.heard);
    }
  }

  lemma ReceiveTimely(r: Run, m: Message, at: nat)
    requires Timely(r) && r.now <= at
    ensures Timely(Step(r, Timed(Receive(m), at)))
  {
    var t := Run(Touch(r.console, m.name), at, r.heard[m.name := at]);
    TouchTimely(r, m.name, at);
    if m.Update? {
      UpdateTimely(t, m.name, m.attributes, m.brokerLocate);
    }
  }

  lemma UpdateTimely(r: Run, name: Name, attributes: Attributes, brokerLocate: bool)
    requires Timely(r) && name in r.heard
    ensures Timely(r.(console := AgentUpdate(r.console, name, attributes, brokerLocate)))
  {
    var s, h := r.console, |r.console.records|;
    var t := s.(records := s.records + [NewRecord(name, attributes)]);
    if brokerLocate {
      NewRecordTimely(r, name, attributes, Some(h));
      ListTimely(r.(console := t.(broker := Some(h))), name, h, true);
    } else if name in s.agents {
      RefreshTimely(r, name, attributes);
    } else {
      NewRecordTimely(r, name, attributes, s.broker);
      ListTimely(r.(console := t), name, h, s.brokerListed);
    }
  }

  /** What one ageing pass does to one listed agent. */
  lemma AgePassOne(s: Console, n: Name)
    requires s.WellFormed() && n in s.agents
    ensures AgePass(s).WellFormed()
    ensures var rec := s.records[s.agents[n]];
            && (n in AgePass(s).agents <==> n == s.BrokerName() || rec.Age().untouched <= s.maxAge)
            && (n in AgePass(s).agents ==>
                  && AgePass(s).agents[n] == s.agents[n]
                  && AgePass(s).records[s.agents[n]] == if n == s.BrokerName() then rec else rec.Age())
  {
    assert Ages(s, s.agents[n]) <==> n != s.BrokerName();
  }

  lemma AgePassTimely(s: Console, heard: map<Name, nat>, before: nat, n: Name)
    requires s.WellFormed() && n in s.agents && n in heard
    requires before + SECONDS_PER_PASS <= s.lastAgePass && heard[n] / SECOND <= s.lastAgePass
    requires Silent(s.(lastAgePass := before), n, heard)
    ensures AgePass(s).WellFormed()
    ensures n in AgePass(s).agents ==> Silent(AgePass(s), n, heard)
    ensures n in Expired(s) ==> heard[n] / SECOND + SECONDS_PER_PASS * (s.maxAge + 1) <= s.lastAgePass
  {
    AgePassOne(s, n);
  }

  lemma TickSilent(s: Console, heard: map<Name, nat>, seconds: nat, n: Name)
    requires s.WellFormed() && n in s.agents && Silent(s, n, heard)
    requires s.lastAgePass <= seconds && heard[n] / SECOND <= seconds
    ensures Periodic(s, seconds).WellFormed()
    ensures n in Periodic(s, seconds).agents ==> Silent(Periodic(s, seconds), n, heard)
  {
    ElapsedBound(s.lastAgePass, seconds);
    if seconds != s.lastVisit && s.lastAgePass != 0 && Elapsed(s.lastAgePass, seconds) >= SECONDS_PER_PASS {
      AgePassTimely(s.(lastVisit := seconds, lastAgePass := seconds), heard, s.lastAgePass, n);
    }
  }

  lemma TickTimely(r: Run, at: nat)
    requires Timely(r) && r.now <= at
    ensures Timely(Step(r, Timed(Tick, at)))
  {
    PeriodicWellFormed(r.console, at / SECOND);
    var t := Periodic(r.console, at / SECOND);
    forall n | n in t.agents ensures Silent(t, n, r.heard) {
      assert n in r.console.agents;
      TickSilent(r.console, r.heard, at / SECOND, n);
    }
  }

  lemma StepTimely(r: Run, step: Timed)
    requires Timely(r) && r.now <= step.at
    ensures Timely(Step(r, step))
  {
    match step.action
    case Filter(p) => FilterTimely(r, p, step.at);
    case Receive(m) => ReceiveTimely(r, m, step.at);
    case Tick => TickTimely(r, step.at);
  }

  lemma {:induction false} RunsAreTimely(maxAge: nat, steps: seq<Timed>)
    requires Clock(steps)
    ensures Timely(After(maxAge, steps)) && After(maxAge, steps).console.maxAge == maxAge
    ensures After(maxAge, steps).now == if steps == [] then 0 else steps[|steps| - 1].at
  {
    if steps == [] {
    } else {
      var before := steps[..|steps| - 1];
      RunsAreTimely(maxAge, before);
      StepTimely(After(maxAge, before), steps[|steps| - 1]);
      MaxAgeStays(After(maxAge, before), steps[|steps| - 1]);
    }
  }

  lemma MaxAgeStays(r: Run, step: Timed)
    requires r.console.WellFormed()
    ensures Step(r, step).console.maxAge == r.console.maxAge
  {
    match step.action
    case Filter(p) =>
    case Receive(m) =>
    case Tick =>
  }

  /** An agent goes only in a pass that is due, and only when its count is over the limit. */
  lemma PeriodicRemoves(s: Console, seconds: nat, n: Name)
    requires s.WellFormed() && s.lastAgePass <= seconds
    requires n in s.agents && n !in Periodic(s, seconds).agents
    ensures s.lastAgePass + SECONDS_PER_PASS <= seconds
    ensures n in Expired(s.(lastVisit := seconds, lastAgePass := seconds))
  {
    ElapsedBound(s.lastAgePass, seconds);
  }

  lemma WholeSeconds(from: nat, to: nat, seconds: nat)
    requires to / SECOND - from / SECOND >= seconds
    ensures to - from > seconds * SECOND - SECOND
  {
  }

  /**
    In every run, an agent that an ageing pass removes has not been heard from for at least
    60 * (maxAge + 1) seconds of the whole-second clock, which is within a second of real time.
   */
  lemma AgedOnlyWhenSilent(maxAge: nat, steps: seq<Timed>, at: nat, n: Name)
    requires Clock(steps) && (steps != [] ==> steps[|steps| - 1].at <= at)
    requires n in After(maxAge, steps).console.agents
    requires n !in Periodic(After(maxAge, steps).console, at / SECOND).agents
    ensures var heard := After(maxAge, steps).heard;
            && n in heard
            && at / SECOND - heard[n] / SECOND >= 60 * (maxAge + 1)
            && at - heard[n] > 60 * (maxAge + 1) * SECOND - SECOND
  {
    RunsAreTimely(maxAge, steps);
    var r, seconds := After(maxAge, steps), at / SECOND;
    assert Silent(r.console, n, r.heard);
    PeriodicRemoves(r.console, seconds, n);
    var u := r.console.(lastVisit := seconds, lastAgePass := seconds);
    AgePassTimely(u, r.heard, r.console.lastAgePass, n);
    WholeSeconds(r.heard[n], at, 60 * (maxAge + 1));
  }

  lemma ElapsedBound(from: nat, to: nat)
    requires from <= to
    ensures Elapsed(from, to) <= to - from
  {
  }

  // ------------------------------------------------------------ a silent agent goes in the end

  /** Counts within the limit, and a last pass less than a minute before the last visit. */
  ghost predicate Kept(s: Console) {
    && s.WellFormed()
    && (forall n :: n in s.agents ==> s.records[s.agents[n]].untouched <= s.maxAge)
    && (s.broker.Some? ==> s.records[s.broker.value].untouched <= s.maxAge)
  }

  ghost predicate Visited(s: Console) {
    s.lastAgePass <= s.lastVisit < s.lastAgePass + SECONDS_PER_PASS && (s.lastVisit != 0 ==> s.lastAgePass != 0)
  }

  lemma UpdateKept(s: Console, name: Name, attributes: Attributes, brokerLocate: bool)
    requires Kept(s)
    ensures Kept(AgentUpdate(s, name, attributes, brokerLocate))
  {
    UpdateWellFormed(s, name, attributes, brokerLocate);
    var t := AgentUpdate(s, name, attributes, brokerLocate);
    forall n | n in t.agents ensures t.records[t.agents[n]].untouched <= t.maxAge {
      if n in s.agents {
        assert s.records[s.agents[n]].untouched <= s.maxAge;
      }
    }
  }

  lemma NextKept(s: Console, action: Action, at: nat)
    requires Kept(s)
    ensures Kept(Next(s, action, at))
  {
    NextWellFormed(s, action, at);
    match action
    case Filter(p) =>
    case Receive(m) =>
      assert Kept(Touch(s, m.name));
      if m.Update? {
        UpdateKept(Touch(s, m.name), m.name, m.attributes, m.brokerLocate);
      }
    case Tick => PeriodicKept(s, at / SECOND);
  }

  lemma PeriodicKept(s: Console, seconds: nat)
    requires Kept(s)
    ensures Kept(Periodic(s, seconds))
  {
    PeriodicWellFormed(s, seconds);
    var u := s.(lastVisit := seconds, lastAgePass := seconds);
    forall n | n in s.agents
      ensures n in AgePass(u).agents ==> AgePass(u).records[AgePass(u).agents[n]].untouched <= s.maxAge
    {
      AgePassOne(u, n);
    }
  }

  /** Over every run, whatever the clock does, the count of every listed agent is within the limit. */
  lemma {:induction false} CountsWithinLimit(maxAge: nat, steps: seq<Timed>)
    ensures Kept(After(maxAge, steps).console)
  {
    if steps == [] {
    } else {
      var before := steps[..|steps| - 1];
      CountsWithinLimit(maxAge, before);
      NextKept(After(maxAge, before).console, steps[|steps| - 1].action, steps[|steps| - 1].at);
    }
  }

  const CLOCK_LIMIT := 0x1_0000_0000_0000_0000

  /** The nanosecond clock fits its 64 bits. */
  predicate Bounded(steps: seq<Timed>) {
    forall i :: 0 <= i < |steps| ==> steps[i].at < CLOCK_LIMIT
  }

  lemma TickVisited(s: Console, seconds: nat)
    requires s.WellFormed() && Visited(s) && s.lastVisit <= seconds < CLOCK_LIMIT
    ensures Visited(Periodic(s, seconds)) && Periodic(s, seconds).lastVisit == seconds
  {
  }

  lemma NextVisited(s: Console, step: Timed)
    requires s.WellFormed() && Visited(s) && s.lastVisit <= step.at / SECOND && step.at < CLOCK_LIMIT
    ensures Visited(Next(s, step.action, step.at)) && Next(s, step.action, step.at).lastVisit <= step.at / SECOND
  {
    match step.action
    case Filter(p) =>
    case Receive(m) =>
    case Tick => TickVisited(s, step.at / SECOND);
  }

  lemma ClockPrefix(steps: seq<Timed>, k: nat)
    requires Clock(steps) && Bounded(steps) && k <= |steps|
    ensures Clock(steps[..k]) && Bounded(steps[..k])
  {
  }

  lemma {:induction false} RunsAreVisited(maxAge: nat, steps: seq<Timed>)
    requires Clock(steps) && Bounded(steps)
    ensures Visited(After(maxAge, steps).console)
    ensures After(maxAge, steps).console.lastVisit <= After(maxAge, steps).now / SECOND
  {
    if steps == [] {
    } else {
      var n := |steps| - 1;
      ClockPrefix(steps, n);
      RunsAreVisited(maxAge, steps[..n]);
      RunsAreTimely(maxAge, steps[..n]);
      NextVisited(After(maxAge, steps[..n]).console, steps[n]);
    }
  }

  /** How many passes have gone by since the agent was last touched. */
  function Done(rec: AgentRecord): nat {
    if rec.touched then 0 else rec.untouched + 1
  }

  /** With ticks at most `g` seconds apart a pass comes at most this long after the one before it. */
  function PassGap(g: nat): nat {
    SECONDS_PER_PASS - 1 + g
  }

  /** While the agent stays listed, its count keeps up with the passes since `start`. */
  ghost predicate Waiting(s: Console, n: Name, start: nat, g: nat) {
    && s.WellFormed() && Visited(s) && s.lastVisit != 0 && s.BrokerName() != n
    && (n in s.agents ==> s.lastAgePass <= start + Done(s.records[s.agents[n]]) * PassGap(g))
  }

  lemma OneMorePass(done: nat, gap: nat)
    ensures (done + 1) * gap == done * gap + gap
  {
  }

  lemma TickWaits(s: Console, n: Name, start: nat, g: nat, seconds: nat)
    requires Waiting(s, n, start, g) && s.lastVisit <= seconds <= s.lastVisit + g && seconds < CLOCK_LIMIT
    ensures Waiting(Periodic(s, seconds), n, start, g)
  {
    PeriodicWellFormed(s, seconds);
    TickVisited(s, seconds);
    if n in s.agents {
      AgePassOne(s.(lastVisit := seconds, lastAgePass := seconds), n);
      OneMorePass(Done(s.records[s.agents[n]]), PassGap(g));
    }
  }

  /** What happens to others leaves an agent's record alone, or takes it off the list. */
  ghost predicate Undisturbed(s: Console, t: Console, n: Name)
    requires s.WellFormed()
  {
    && t.WellFormed() && (s.BrokerName() != n ==> t.BrokerName() != n)
    && t.lastVisit == s.lastVisit && t.lastAgePass == s.lastAgePass
    && (s.BrokerName() != n && n in t.agents ==>
          n in s.agents && t.agents[n] == s.agents[n] && t.records[t.agents[n]] == s.records[s.agents[n]])
  }

  lemma FilterUndisturbed(s: Console, n: Name, p: Attributes -> bool)
    requires s.WellFormed()
    ensures Undisturbed(s, SetFilter(s, p), n)
  {
  }

  lemma UpdateUndisturbed(s: Console, n: Name, name: Name, attributes: Attributes, brokerLocate: bool)
    requires s.WellFormed() && name != n
    ensures Undisturbed(s, AgentUpdate(s, name, attributes, brokerLocate), n)
  {
    UpdateWellFormed(s, name, attributes, brokerLocate);
  }

  lemma ReceiveUndisturbed(s: Console, n: Name, m: Message)
    requires s.WellFormed() && m.name != n
    ensures Undisturbed(s, Dispatch(s, m), n)
  {
    var t := Touch(s, m.name);
    assert Undisturbed(s, t, n);
    if m.Update? {
      UpdateUndisturbed(t, n, m.name, m.attributes, m.brokerLocate);
    }
  }

  predicate Quiet(action: Action, n: Name) {
    action.Receive? ==> action.m.name != n
  }

  /** A tick comes at most `g` seconds after the last one. */
  predicate Paced(s: Console, step: Timed, g: nat) {
    step.action.Tick? ==> step.at / SECOND <= s.lastVisit + g
  }

  lemma NextWaits(s: Console, n: Name, start: nat, g: nat, step: Timed)
    requires Waiting(s, n, start, g) && Quiet(step.action, n) && Paced(s, step, g)
    requires s.lastVisit <= step.at / SECOND && step.at < CLOCK_LIMIT
    ensures Waiting(Next(s, step.action, step.at), n, start, g)
  {
    match step.action
    case Filter(p) => FilterUndisturbed(s, n, p);
    case Receive(m) => ReceiveUndisturbed(s, n, m);
    case Tick => TickWaits(s, n, start, g, step.at / SECOND);
  }

  /** From here on nothing is heard from the agent, ticks come at most `g` seconds apart, the clock goes forward. */
  ghost predicate Hushed(r: Run, more: seq<Timed>, n: Name, g: nat)
    requires r.console.WellFormed()
    decreases |more|
  {
    more == [] ||
    (var step := more[0];
     NextWellFormed(r.console, step.action, step.at);
     && Quiet(step.action, n) && Paced(r.console, step, g) && r.now <= step.at < CLOCK_LIMIT
     && Hushed(Step(r, step), more[1..], n, g))
  }

  /** The run that goes on with more steps, any of those a run is made of. */
  ghost function Onward(r: Run, more: seq<Timed>): (t: Run)
    requires r.console.WellFormed()
    ensures t.console.WellFormed()
    decreases |more|
  {
    if more == [] then r else
      NextWellFormed(r.console, more[0].action, more[0].at);
      Onward(Step(r, more[0]), more[1..])
  }

  ghost predicate WaitingRun(r: Run, maxAge: nat, n: Name, start: nat, g: nat) {
    && Waiting(r.console, n, start, g) && Kept(r.console)
    && r.console.maxAge == maxAge && r.console.lastVisit <= r.now / SECOND
  }

  lemma StepWaits(r: Run, step: Timed, maxAge: nat, n: Name, start: nat, g: nat)
    requires WaitingRun(r, maxAge, n, start, g)
    requires Quiet(step.action, n) && Paced(r.console, step, g) && r.now <= step.at < CLOCK_LIMIT
    ensures WaitingRun(Step(r, step), maxAge, n, start, g)
  {
    NextWaits(r.console, n, start, g, step);
    NextKept(r.console, step.action, step.at);
    NextVisited(r.console, step);
    MaxAgeStays(r, step);
  }

  lemma {:induction false} StillWaiting(r: Run, more: seq<Timed>, maxAge: nat, n: Name, start: nat, g: nat)
    requires WaitingRun(r, maxAge, n, start, g) && Hushed(r, more, n, g)
    ensures WaitingRun(Onward(r, more), maxAge, n, start, g)
    decreases |more|
  {
    if more != [] {
      StepWaits(r, more[0], maxAge, n, start, g);
      StillWaiting(Step(r, more[0]), more[1..], maxAge, n, start, g);
    }
  }

  lemma DoneBound(done: nat, maxAge: nat, gap: nat)
    requires done <= maxAge + 1
    ensures done * gap <= (maxAge + 1) * gap
  {
  }

  lemma WaitingEnds(s: Console, n: Name, start: nat, g: nat)
    requires Waiting(s, n, start, g) && Kept(s)
    ensures s.lastVisit >= start + (s.maxAge + 1) * PassGap(g) + SECONDS_PER_PASS ==> n !in s.agents
  {
    if n in s.agents {
      DoneBound(Done(s.records[s.agents[n]]), s.maxAge, PassGap(g));
    }
  }

  /**
    From any reachable state and whatever other agents and filters do: an agent that is not the broker's and is
    not heard from is off the list by the tick that comes (maxAge + 1) * (59 + g) + 60 seconds after the last
    ageing pass before its silence, when ticks come at most `g` seconds apart.
   */
  lemma SilentAgentsGo(maxAge: nat, steps: seq<Timed>, more: seq<Timed>, n: Name, g: nat)
    requires Clock(steps) && Bounded(steps) && Hushed(After(maxAge, steps), more, n, g)
    requires After(maxAge, steps).console.lastVisit != 0 && After(maxAge, steps).console.BrokerName() != n
    ensures var from, to := After(maxAge, steps).console, Onward(After(maxAge, steps), more).console;
            to.lastVisit >= from.lastAgePass + (maxAge + 1) * PassGap(g) + SECONDS_PER_PASS ==> n !in to.agents
  {
    var r := After(maxAge, steps);
    RunsAreVisited(maxAge, steps);
    CountsWithinLimit(maxAge, steps);
    RunsAreTimely(maxAge, steps);
    GoesFrom(r, more, maxAge, n, g);
  }

  lemma GoesFrom(r: Run, more: seq<Timed>, maxAge: nat, n: Name, g: nat)
    requires Kept(r.console) && Visited(r.console)
    requires r.console.maxAge == maxAge && r.console.lastVisit <= r.now / SECOND
    requires r.console.lastVisit != 0 && r.console.BrokerName() != n && Hushed(r, more, n, g)
    ensures var from, to := r.console, Onward(r, more).console;
            to.lastVisit >= from.lastAgePass + (maxAge + 1) * PassGap(g) + SECONDS_PER_PASS ==> n !in to.agents
  {
    var start := r.console.lastAgePass;
    assert WaitingRun(r, maxAge, n, start, g);
    StillWaiting(r, more, maxAge, n, start, g);
    RunEnds(Onward(r, more), maxAge, n, start, g);
  }

  lemma RunEnds(r: Run, maxAge: nat, n: Name, start: nat, g: nat)
    requires WaitingRun(r, maxAge, n, start, g)
    ensures r.console.lastVisit >= start + (maxAge + 1) * PassGap(g) + SECONDS_PER_PASS ==> n !in r.console.agents
  {
    WaitingEnds(r.console, n, start, g);
  }

  // ------------------------------------------------------------ passes with no message in between

  /** Whether the periodic work ages agents. */
  predicate PassRuns(s: Console, seconds: nat) {
    seconds != s.lastVisit && s.lastAgePass != 0 && Elapsed(s.lastAgePass, seconds) >= SECONDS_PER_PASS
  }

  lemma PeriodicPass(s: Console, seconds: nat)
    requires s.WellFormed() && PassRuns(s, seconds)
    ensures Periodic(s, seconds) == AgePass(s.(lastVisit := seconds, lastAgePass := seconds))
  {
  }

  /** Ticks at given times, with nothing in between. */
  ghost function Ticks(s: Console, times: seq<nat>): (t: Console)
    requires s.WellFormed()
    ensures t.WellFormed()
  {
    if times == [] then s else
      var before := Ticks(s, times[..|times| - 1]);
      PeriodicWellFormed(before, times[|times| - 1]);
      Periodic(before, times[|times| - 1])
  }

  /** Each of the ticks runs a pass. */
  ghost predicate AllRun(s: Console, times: seq<nat>)
    requires s.WellFormed()
  {
    times != [] ==>
      var before := times[..|times| - 1];
      AllRun(s, before) && PassRuns(Ticks(s, before), times[|times| - 1])
  }

  /** The count an unheard agent has after so many passes: the pass after a message counts as nought. */
  function Count(rec: AgentRecord, k: nat): nat {
    if k == 0 then rec.untouched else if rec.touched then k - 1 else rec.untouched + k
  }

  /** An agent that has been silent for so many passes: still listed exactly while its count is within the limit. */
  ghost predicate Standing(t: Console, n: Name, agent: Handle, rec: AgentRecord, k: nat) {
    && t.WellFormed()
    && (n in t.agents <==> Count(rec, k) <= t.maxAge)
    && (n in t.agents ==>
          && t.agents[n] == agent
          && t.records[agent].untouched == Count(rec, k)
          && (t.records[agent].touched <==> k == 0 && rec.touched))
  }

  lemma StandingStep(t: Console, n: Name, agent: Handle, rec: AgentRecord, k: nat, seconds: nat)
    requires Standing(t, n, agent, rec, k) && n != t.BrokerName() && rec.untouched <= t.maxAge && PassRuns(t, seconds)
    ensures var u := Periodic(t, seconds);
            Standing(u, n, agent, rec, k + 1) && u.BrokerName() == t.BrokerName() && u.maxAge == t.maxAge
  {
    PeriodicWellFormed(t, seconds);
    PeriodicPass(t, seconds);
    if n in t.agents {
      AgePassOne(t.(lastVisit := seconds, lastAgePass := seconds), n);
    }
  }

  /** Over any passes with no message in between, an agent stays listed exactly while its count is within the limit. */
  lemma {:induction false} ListedWhileCounted(s: Console, n: Name, times: seq<nat>)
    requires s.WellFormed() && n in s.agents && n != s.BrokerName() && AllRun(s, times)
    requires s.records[s.agents[n]].untouched <= s.maxAge
    ensures var t := Ticks(s, times);
            && Standing(t, n, s.agents[n], s.records[s.agents[n]], |times|)
            && t.BrokerName() == s.BrokerName() && t.maxAge == s.maxAge
    decreases |times|
  {
    if times != [] {
      var k := |times| - 1;
      ListedWhileCounted(s, n, times[..k]);
      StandingStep(Ticks(s, times[..k]), n, s.agents[n], s.records[s.agents[n]], k, times[k]);
    }
  }

  // ------------------------------------------------------------ a clock that goes back

  /** On a 64-bit nanosecond clock a pass runs within a minute of the last one if and only if the clock is behind it. */
  lemma EarlyPass(s: Console, at: nat)
    requires at < CLOCK_LIMIT && s.lastAgePass < CLOCK_LIMIT / SECOND
    requires s.lastAgePass != 0 && at / SECOND != s.lastVisit
    ensures PassRuns(s, at / SECOND) && at / SECOND < s.lastAgePass + SECONDS_PER_PASS <==> at / SECOND < s.lastAgePass
  {
  }

  /** Seconds counted down from `from`, `k` of them. */
  function Countdown(from: nat, k: nat): (times: seq<nat>)
    requires k <= from
    ensures |times| == k
  {
    if k == 0 then [] else Countdown(from, k - 1) + [from - k]
  }

  lemma BackTick(t: Console, seconds: nat)
    requires t.WellFormed() && t.lastVisit == t.lastAgePass == seconds + 1 && seconds < CLOCK_LIMIT / SECOND
    ensures PassRuns(t, seconds) && Periodic(t, seconds).lastVisit == Periodic(t, seconds).lastAgePass == seconds
  {
    assert Elapsed(seconds + 1, seconds) == CLOCK_LIMIT - 1;
  }

  /** On a clock that runs back, every tick runs a pass. */
  lemma {:induction false} CountdownRuns(s: Console, k: nat)
    requires s.WellFormed() && s.lastVisit == s.lastAgePass && k < s.lastAgePass < CLOCK_LIMIT / SECOND
    ensures var times := Countdown(s.lastAgePass, k); var t := Ticks(s, times);
            AllRun(s, times) && t.lastVisit == t.lastAgePass == s.lastAgePass - k
    decreases k
  {
    if k > 0 {
      var before, seconds := Countdown(s.lastAgePass, k - 1), s.lastAgePass - k;
      CountdownRuns(s, k - 1);
      assert Countdown(s.lastAgePass, k)[..k - 1] == before;
      BackTick(Ticks(s, before), seconds);
    }
  }

  /** So an agent just heard from goes with the second number maxAge + 2 of a clock running back, and not before. */
  lemma BackwardClockAges(s: Console, n: Name)
    requires s.WellFormed() && n in s.agents && n != s.BrokerName() && s.records[s.agents[n]].touched
    requires s.records[s.agents[n]].untouched <= s.maxAge
    requires s.lastVisit == s.lastAgePass && s.maxAge + 2 < s.lastAgePass < CLOCK_LIMIT / SECOND
    ensures n in Ticks(s, Countdown(s.lastAgePass, s.maxAge + 1)).agents
    ensures n !in Ticks(s, Countdown(s.lastAgePass, s.maxAge + 2)).agents
  {
    CountdownRuns(s, s.maxAge + 1);
    CountdownRuns(s, s.maxAge + 2);
    ListedWhileCounted(s, n, Countdown(s.lastAgePass, s.maxAge + 1));
    ListedWhileCounted(s, n, Countdown(s.lastAgePass, s.maxAge + 2));
  }

  /** Such a state is reached by a new agent's heartbeat and a tick in the same second. */
  lemma BackwardClockReached(maxAge: nat, n: Name, attributes: Attributes, seconds: nat)
    requires n != NO_NAME && maxAge + 2 < seconds < CLOCK_LIMIT / SECOND
    ensures var s := Periodic(Dispatch(Opened(maxAge), Update(n, attributes, false)), seconds);
            && s.WellFormed() && n in s.agents && n != s.BrokerName() && s.records[s.agents[n]].touched
            && s.records[s.agents[n]].untouched <= s.maxAge == maxAge && s.lastVisit == s.lastAgePass == seconds
  {
  }
}
