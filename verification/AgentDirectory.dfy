/**
  The console's directory of agents: which agents are listed, how filters, locate replies, heartbeats
  and the ageing pass change the list, and which events tell the application about it.

  Agent records are shared: the directory, the record of the connected broker's own agent and the queued
  events all hold handles to them. A handle is an index into the sequence of all records ever made.
  Names are numbered in the order of the directory; number 0 is the empty name.
 */
module AgentDirectory {
  import opened Options
  import opened OrderedKeys

  type Name = nat
  type Handle = nat

  /** Attribute values are opaque numbers; the two attributes the console itself reads are named. */
  type Attributes = map<string, nat>
  const EPOCH := "_epoch"
  const SCHEMA_UPDATED := "_schema_updated"

  const NO_NAME: Name := 0

  datatype AgentRecord = AgentRecord(name: Name, epoch: nat, attributes: Attributes, touched: bool, untouched: nat) {
    function Touch(): AgentRecord {
      this.(touched := true)
    }

    function Age(): AgentRecord {
      this.(untouched := if touched then 0 else untouched + 1, touched := false)
    }
  }

  datatype Reason = Filtered | Aged

  datatype Event =
    | AgentAdd(name: Name, agent: Handle)
    | AgentDel(name: Name, agent: Handle, reason: Reason)
    | AgentRestart(agent: Handle)
    | AgentSchemaUpdate(agent: Handle)

  datatype Console = Console(
    records: seq<AgentRecord>,
    agents: map<Name, Handle>,
    broker: Option<Handle>,
    brokerListed: bool,
    filter: Option<Attributes -> bool>,
    log: seq<Event>,
    lastVisit: nat,
    lastAgePass: nat,
    maxAge: nat)
  {
    /** Every handle is of a record, and the directory lists each agent under its own name. */
    ghost predicate WellFormed() {
      && (forall n :: n in agents ==> agents[n] < |records| && records[agents[n]].name == n)
      && (broker.Some? ==> broker.value < |records|)
    }

    ghost function BrokerName(): Name
      requires WellFormed()
    {
      if broker.Some? then records[broker.value].name else NO_NAME
    }
  }

  function Opened(maxAge: nat): Console {
    Console([], map[], None, false, None, [], 0, 0, maxAge)
  }

  // ------------------------------------------------------------ the event log

  /** What an application that follows the log believes the directory to be. */
  function Rebuild(log: seq<Event>): map<Name, Handle> {
    if log == [] then map[] else Follow(Rebuild(log[..|log| - 1]), log[|log| - 1])
  }

  function Follow(known: map<Name, Handle>, e: Event): map<Name, Handle> {
    if e.AgentAdd? then known[e.name := e.agent]
    else if e.AgentDel? then known - {e.name}
    else known
  }

  /** Every removal in the log is of the agent that the events before it show under that name. */
  predicate Coherent(log: seq<Event>) {
    log != [] ==>
      && Coherent(log[..|log| - 1])
      && (var e := log[|log| - 1];
          e.AgentDel? ==> e.name in Rebuild(log[..|log| - 1]) && Rebuild(log[..|log| - 1])[e.name] == e.agent)
  }

  /** The log tells exactly what the directory holds. */
  ghost predicate Mirrors(s: Console) {
    s.WellFormed() && Rebuild(s.log) == s.agents && Coherent(s.log)
  }

  lemma Snoc(log: seq<Event>, e: Event)
    ensures Rebuild(log + [e]) == Follow(Rebuild(log), e)
    ensures Coherent(log + [e]) <==>
            Coherent(log) && (e.AgentDel? ==> e.name in Rebuild(log) && Rebuild(log)[e.name] == e.agent)
  {
    assert (log + [e])[..|log|] == log;
  }

  /** The events of a removal loop: one for each name, in the order of the directory. */
  ghost function Removals(agents: map<Name, Handle>, names: set<Name>, reason: Reason): seq<Event>
    requires names <= agents.Keys
    decreases |names|
  {
    if names == {} then [] else
      var n := Least(names);
      [AgentDel(n, agents[n], reason)] + Removals(agents, names - {n}, reason)
  }

  /** A removal loop that takes one more name off the front. */
  lemma RemovalsStep(agents: map<Name, Handle>, events: seq<Event>, names: set<Name>, n: Name, reason: Reason)
    requires names <= agents.Keys && IsLeast(n, names)
    ensures events + Removals(agents, names, reason) ==
            events + [AgentDel(n, agents[n], reason)] + Removals(agents, names - {n}, reason)
  {
    assert Least(names) == n;
    var e, tail := AgentDel(n, agents[n], reason), Removals(agents, names - {n}, reason);
    assert events + ([e] + tail) == events + [e] + tail;
  }

  lemma {:induction false} RemovalsMirror(log: seq<Event>, agents: map<Name, Handle>, names: set<Name>, reason: Reason)
    requires names <= agents.Keys && Coherent(log)
    requires forall n :: n in names ==> n in Rebuild(log) && Rebuild(log)[n] == agents[n]
    ensures Rebuild(log + Removals(agents, names, reason)) == Rebuild(log) - names
    ensures Coherent(log + Removals(agents, names, reason))
    decreases |names|
  {
    if names == {} {
      assert log + [] == log;
    } else {
      var n := Least(names);
      var e := AgentDel(n, agents[n], reason);
      Snoc(log, e);
      RemovalsMirror(log + [e], agents, names - {n}, reason);
      RemovalsStep(agents, log, names, n, reason);
      assert Rebuild(log) - {n} - (names - {n}) == Rebuild(log) - names;
    }
  }

  // ------------------------------------------------------------ the handlers, on values

  predicate Matches(filter: Option<Attributes -> bool>, attributes: Attributes) {
    filter.None? || filter.value(attributes)
  }

  function NewRecord(name: Name, attributes: Attributes): AgentRecord {
    AgentRecord(name, if EPOCH in attributes then attributes[EPOCH] else 0, attributes - {EPOCH}, true, 0)
  }

  /** Any message from a listed agent. */
  ghost function Touch(s: Console, name: Name): Console
    requires s.WellFormed()
  {
    if name in s.agents
    then s.(records := s.records[s.agents[name] := s.records[s.agents[name]].Touch()])
    else s
  }

  /** A fresh record is listed under its name, and the application is told. */
  function List(s: Console, name: Name, agent: Handle): Console {
    s.(agents := s.agents[name := agent], log := s.log + [AgentAdd(name, agent)])
  }

  function BrokerLocated(s: Console, name: Name, attributes: Attributes): Console {
    var h := |s.records|;
    var t := s.(records := s.records + [NewRecord(name, attributes)], broker := Some(h));
    if Matches(s.filter, attributes) then List(t, name, h).(brokerListed := true) else t
  }

  /** A heartbeat or locate reply of an agent already listed. */
  ghost function Refresh(s: Console, name: Name, attributes: Attributes): Console
    requires s.WellFormed() && name in s.agents
  {
    var h := s.agents[name];
    var epoch := if EPOCH in attributes then attributes[EPOCH] else 0;
    var restarted := s.records[h].epoch != epoch;
    var updated := SCHEMA_UPDATED in attributes && SCHEMA_UPDATED in s.records[h].attributes &&
                   attributes[SCHEMA_UPDATED] > s.records[h].attributes[SCHEMA_UPDATED];
    var r := s.records[h].Touch().(epoch := epoch);
    s.(records := s.records[h := if updated
                                 then r.(attributes := r.attributes[SCHEMA_UPDATED := attributes[SCHEMA_UPDATED]])
                                 else r],
       log := s.log + if restarted then [AgentRestart(h)] else if updated then [AgentSchemaUpdate(h)] else [])
  }

  ghost function AgentUpdate(s: Console, name: Name, attributes: Attributes, brokerLocate: bool): Console
    requires s.WellFormed()
  {
    if brokerLocate then BrokerLocated(s, name, attributes)
    else if !Matches(s.filter, attributes) then s
    else if name in s.agents then Refresh(s, name, attributes)
    else List(s.(records := s.records + [NewRecord(name, attributes)]), name, |s.records|)
  }

  datatype Message =
    | Update(name: Name, attributes: Attributes, brokerLocate: bool)
    | Other(name: Name)

  ghost function Dispatch(s: Console, m: Message): Console
    requires s.WellFormed()
  {
    var t := Touch(s, m.name);
    assert t.WellFormed();
    if m.Update? then AgentUpdate(t, m.name, m.attributes, m.brokerLocate) else t
  }

  ghost function Unmatched(s: Console, p: Attributes -> bool): set<Name>
    requires s.WellFormed()
  {
    set n | n in s.agents && !p(s.records[s.agents[n]].attributes)
  }

  ghost function Remove(s: Console, names: set<Name>, reason: Reason): Console
    requires names <= s.agents.Keys
  {
    s.(agents := s.agents - names, log := s.log + Removals(s.agents, names, reason))
  }

  /** The broker's own agent comes back when a filter lets it in again. */
  ghost function Relist(s: Console, p: Attributes -> bool): Console
    requires s.WellFormed()
  {
    if !s.brokerListed && s.broker.Some? && p(s.records[s.broker.value].attributes)
    then List(s, s.BrokerName(), s.broker.value).(brokerListed := true)
    else s
  }

  ghost function SetFilter(s: Console, p: Attributes -> bool): Console
    requires s.WellFormed()
  {
    var gone := Unmatched(s, p);
    var t := Remove(s.(filter := Some(p), brokerListed := s.brokerListed && s.BrokerName() !in gone), gone, Filtered);
    Relist(t, p)
  }

  /** The ageing pass leaves the connected broker's name alone. */
  ghost predicate Ages(s: Console, h: Handle)
    requires s.WellFormed() && h < |s.records|
  {
    s.records[h].name in s.agents && s.agents[s.records[h].name] == h && s.records[h].name != s.BrokerName()
  }

  ghost function AgedRecords(s: Console): (r: seq<AgentRecord>)
    requires s.WellFormed()
    ensures |r| == |s.records|
  {
    seq(|s.records|, h requires 0 <= h < |s.records| => if Ages(s, h) then s.records[h].Age() else s.records[h])
  }

  ghost function Expired(s: Console): set<Name>
    requires s.WellFormed()
  {
    set n | n in s.agents && n != s.BrokerName() && s.records[s.agents[n]].Age().untouched > s.maxAge
  }

  ghost function AgePass(s: Console): Console
    requires s.WellFormed()
  {
    Remove(s, Expired(s), Aged).(records := AgedRecords(s))
  }

  const SECONDS_PER_PASS := 60

  /** The clock is unsigned: a difference that would be negative wraps around. */
  function Elapsed(from: nat, to: nat): nat {
    (to - from) % 0x1_0000_0000_0000_0000
  }

  ghost function Periodic(s: Console, seconds: nat): Console
    requires s.WellFormed()
  {
    if seconds == s.lastVisit then s else
      var t := s.(lastVisit := seconds, lastAgePass := if s.lastAgePass == 0 then seconds else s.lastAgePass);
      if Elapsed(t.lastAgePass, seconds) >= SECONDS_PER_PASS then AgePass(t.(lastAgePass := seconds)) else t
  }

  // ------------------------------------------------------------ the log mirrors the directory

  lemma TouchMirrors(s: Console, name: Name)
    requires Mirrors(s)
    ensures Mirrors(Touch(s, name))
  {
  }

  lemma ListMirrors(s: Console, name: Name, agent: Handle)
    requires Mirrors(s) && agent < |s.records| && s.records[agent].name == name
    ensures Mirrors(List(s, name, agent))
  {
    Snoc(s.log, AgentAdd(name, agent));
  }

  lemma RefreshMirrors(s: Console, name: Name, attributes: Attributes)
    requires Mirrors(s) && name in s.agents
    ensures Mirrors(Refresh(s, name, attributes))
  {
    var h := s.agents[name];
    Snoc(s.log, AgentRestart(h));
    Snoc(s.log, AgentSchemaUpdate(h));
    assert s.log + [] == s.log;
  }

  lemma UpdateMirrors(s: Console, name: Name, attributes: Attributes, brokerLocate: bool)
    requires Mirrors(s)
    ensures Mirrors(AgentUpdate(s, name, attributes, brokerLocate))
  {
    var h := |s.records|;
    var t := s.(records := s.records + [NewRecord(name, attributes)]);
    if brokerLocate {
      ListMirrors(t.(broker := Some(h)), name, h);
    } else if name in s.agents {
      RefreshMirrors(s, name, attributes);
    } else {
      ListMirrors(t, name, h);
    }
  }

  lemma DispatchMirrors(s: Console, m: Message)
    requires Mirrors(s)
    ensures Mirrors(Dispatch(s, m))
  {
    TouchMirrors(s, m.name);
    if m.Update? {
      UpdateMirrors(Touch(s, m.name), m.name, m.attributes, m.brokerLocate);
    }
  }

  lemma RemoveMirrors(s: Console, names: set<Name>, reason: Reason)
    requires Mirrors(s) && names <= s.agents.Keys
    ensures Mirrors(Remove(s, names, reason))
  {
    RemovalsMirror(s.log, s.agents, names, reason);
  }

  lemma SetFilterMirrors(s: Console, p: Attributes -> bool)
    requires Mirrors(s)
    ensures Mirrors(SetFilter(s, p))
  {
    var gone := Unmatched(s, p);
    var t := s.(filter := Some(p), brokerListed := s.brokerListed && s.BrokerName() !in gone);
    RemoveMirrors(t, gone, Filtered);
    var u := Remove(t, gone, Filtered);
    if u.broker.Some? {
      ListMirrors(u, u.BrokerName(), u.broker.value);
    }
  }

  /** A new filter leaves only agents that it matches. */
  lemma FilterPurges(s: Console, p: Attributes -> bool, n: Name)
    requires s.WellFormed()
    requires n in SetFilter(s, p).agents
    ensures SetFilter(s, p).WellFormed()
    ensures p(SetFilter(s, p).records[SetFilter(s, p).agents[n]].attributes)
  {
  }

  lemma PeriodicMirrors(s: Console, seconds: nat)
    requires Mirrors(s)
    ensures Mirrors(Periodic(s, seconds))
  {
    if seconds != s.lastVisit {
      var t := s.(lastVisit := seconds, lastAgePass := if s.lastAgePass == 0 then seconds else s.lastAgePass);
      var u := t.(lastAgePass := seconds);
      RemoveMirrors(u, Expired(u), Aged);
    }
  }

  // ------------------------------------------------------------ whole runs against the clock

  const SECOND := 1_000_000_000

  datatype Action = Filter(p: Attributes -> bool) | Receive(m: Message) | Tick

  /** A console with the clock, in nanoseconds, and the time each agent was last heard from. */
  datatype Run = Run(console: Console, now: nat, heard: map<Name, nat>)

  datatype Timed = Timed(action: Action, at: nat)

  ghost function Next(s: Console, action: Action, at: nat): Console
    requires s.WellFormed()
  {
    match action
    case Filter(p) => SetFilter(s, p)
    case Receive(m) => Dispatch(s, m)
    case Tick => Periodic(s, at / SECOND)
  }

  lemma UpdateWellFormed(s: Console, name: Name, attributes: Attributes, brokerLocate: bool)
    requires s.WellFormed()
    ensures AgentUpdate(s, name, attributes, brokerLocate).WellFormed()
  {
    if brokerLocate {
      assert BrokerLocated(s, name, attributes).WellFormed();
    } else if name in s.agents {
      assert Refresh(s, name, attributes).WellFormed();
    }
  }

  lemma DispatchWellFormed(s: Console, m: Message)
    requires s.WellFormed()
    ensures Dispatch(s, m).WellFormed()
  {
    if m.Update? {
      UpdateWellFormed(Touch(s, m.name), m.name, m.attributes, m.brokerLocate);
    }
  }

  lemma PeriodicWellFormed(s: Console, seconds: nat)
    requires s.WellFormed()
    ensures Periodic(s, seconds).WellFormed()
  {
  }

  lemma NextWellFormed(s: Console, action: Action, at: nat)
    requires s.WellFormed()
    ensures Next(s, action, at).WellFormed()
  {
    match action
    case Filter(p) => assert SetFilter(s, p).WellFormed();
    case Receive(m) => DispatchWellFormed(s, m);
    case Tick => PeriodicWellFormed(s, at / SECOND);
  }

  lemma NextMirrors(s: Console, action: Action, at: nat)
    requires Mirrors(s)
    ensures Mirrors(Next(s, action, at))
  {
    match action
    case Filter(p) => SetFilterMirrors(s, p);
    case Receive(m) => DispatchMirrors(s, m);
    case Tick => PeriodicMirrors(s, at / SECOND);
  }

  ghost function After(maxAge: nat, steps: seq<Timed>): (r: Run)
    ensures r.console.WellFormed()
  {
    if steps == [] then
      Run(Opened(maxAge), 0, map[])
    else
      var step := steps[|steps| - 1];
      var before := After(maxAge, steps[..|steps| - 1]);
      NextWellFormed(before.console, step.action, step.at);
      Step(before, step)
  }

  ghost function Step(r: Run, step: Timed): Run
    requires r.console.WellFormed()
  {
    Run(Next(r.console, step.action, step.at), step.at,
        if step.action.Receive? then r.heard[step.action.m.name := step.at] else r.heard)
  }

  /** In every reachable state the log rebuilds the directory, and removes only what it had added. */
  lemma {:induction false} LogMirrorsDirectory(maxAge: nat, steps: seq<Timed>)
    ensures Mirrors(After(maxAge, steps).console)
  {
    if steps == [] {
    } else {
      var before := steps[..|steps| - 1];
      LogMirrorsDirectory(maxAge, before);
      NextMirrors(After(maxAge, before).console, steps[|steps| - 1].action, steps[|steps| - 1].at);
    }
  }
}
