/**
  Which messages list an agent and which events the application is told: what each handler does to the
  directory and to the log, told from the message, the filter and the records alone.
 */
module AgentEvents {
  import opened Options
  import opened OrderedKeys
  import opened AgentDirectory

  /** The filter in force lets the attributes through. */
  ghost predicate Passes(s: Console, attributes: Attributes) {
    s.filter.None? || s.filter.value(attributes)
  }

  function EpochOf(attributes: Attributes): nat {
    if "_epoch" in attributes then attributes["_epoch"] else 0
  }

  // ------------------------------------------------------------ messages

  /** A message lists exactly the agent it is an update of, if the filter lets it through, and takes none off. */
  lemma ListedExactly(s: Console, m: Message, n: Name)
    requires s.WellFormed()
    ensures n in Dispatch(s, m).agents <==> n in s.agents || (m.Update? && n == m.name && Passes(s, m.attributes))
  {
  }

  /** An update that the filter stops, and that is no reply of the connected broker, changes neither list nor log. */
  lemma FilteredOut(s: Console, m: Message)
    requires s.WellFormed() && m.Update? && !m.brokerLocate && !Passes(s, m.attributes)
    ensures Dispatch(s, m).agents == s.agents && Dispatch(s, m).log == s.log && Dispatch(s, m).broker == s.broker
  {
  }

  /** Any other message changes neither list nor log, and counts as hearing from the agent if it is listed. */
  lemma OnlyHeard(s: Console, m: Message)
    requires s.WellFormed() && m.Other?
    ensures var t := Dispatch(s, m);
            && t.agents == s.agents && t.log == s.log && t.broker == s.broker && |t.records| == |s.records|
            && (m.name in s.agents ==> t.records[s.agents[m.name]] == s.records[s.agents[m.name]].(touched := true))
  {
  }

  /** An agent not known yet, or found by the broker's reply, gets a record of its own, is listed, and is announced. */
  lemma NewlyListed(s: Console, m: Message)
    requires s.WellFormed() && m.Update? && Passes(s, m.attributes) && (m.brokerLocate || m.name !in s.agents)
    ensures var t, h := Dispatch(s, m), |s.records|;
            && t.agents == s.agents[m.name := h] && t.log == s.log + [AgentAdd(m.name, h)] && |t.records| == h + 1
            && t.records[h] == AgentRecord(m.name, EpochOf(m.attributes), m.attributes - {"_epoch"}, true, 0)
            && (if m.brokerLocate then t.broker == Some(h) && t.brokerListed
                else t.broker == s.broker && t.brokerListed == s.brokerListed)
  {
  }

  /** The broker's reply is remembered even when the filter keeps it off the list. */
  lemma BrokerRemembered(s: Console, m: Message)
    requires s.WellFormed() && m.Update? && m.brokerLocate
    ensures var t, h := Dispatch(s, m), |s.records|;
            && t.broker == Some(h) && |t.records| == h + 1 && t.records[h].name == m.name
            && (!Passes(s, m.attributes) ==> t.agents == s.agents && t.log == s.log)
  {
  }

  /** The time stamp of the agent's schemas, as the message and the record have it, has risen. */
  ghost predicate Newer(attributes: Attributes, rec: AgentRecord) {
    && "_schema_updated" in attributes && "_schema_updated" in rec.attributes
    && attributes["_schema_updated"] > rec.attributes["_schema_updated"]
  }

  /**
    An update of a listed agent: a restart is announced exactly when the epoch changed, new schemas exactly when
    their time stamp rose without a restart; and the record takes over both.
   */
  lemma RefreshEvents(s: Console, m: Message)
    requires s.WellFormed() && m.Update? && !m.brokerLocate && Passes(s, m.attributes) && m.name in s.agents
    ensures var t, h := Dispatch(s, m), s.agents[m.name];
            var before := s.records[h];
            && t.agents == s.agents && |s.log| <= |t.log| <= |s.log| + 1 && t.log[..|s.log|] == s.log
            && (AgentRestart(h) in t.log[|s.log|..] <==> before.epoch != EpochOf(m.attributes))
            && (AgentSchemaUpdate(h) in t.log[|s.log|..] <==>
                before.epoch == EpochOf(m.attributes) && Newer(m.attributes, before))
            && (|t.log| > |s.log| ==> t.log[|s.log|] == AgentRestart(h) || t.log[|s.log|] == AgentSchemaUpdate(h))
  {
    RefreshLog(Touch(s, m.name), m.name, m.attributes);
  }

  lemma RefreshLog(s: Console, name: Name, attributes: Attributes)
    requires s.WellFormed() && name in s.agents
    ensures var t, h := Refresh(s, name, attributes), s.agents[name];
            t.agents == s.agents &&
            t.log == s.log + (if s.records[h].epoch != EpochOf(attributes) then [AgentRestart(h)]
                              else if Newer(attributes, s.records[h]) then [AgentSchemaUpdate(h)] else [])
  {
  }

  /** What the record of a listed agent takes over from an update. */
  lemma RefreshRecord(s: Console, m: Message)
    requires s.WellFormed() && m.Update? && !m.brokerLocate && Passes(s, m.attributes) && m.name in s.agents
    ensures var t, h := Dispatch(s, m), s.agents[m.name];
            var before := s.records[h];
            && |t.records| == |s.records| && t.records[h].epoch == EpochOf(m.attributes) && t.records[h].touched
            && t.records[h].attributes ==
               if Newer(m.attributes, before)
               then before.attributes["_schema_updated" := m.attributes["_schema_updated"]] else before.attributes
  {
  }

  // ------------------------------------------------------------ removals

  lemma {:induction false} RemovalEvents(agents: map<Name, Handle>, names: set<Name>, reason: Reason, e: Event)
    requires names <= agents.Keys
    ensures e in Removals(agents, names, reason) <==>
            e.AgentDel? && e.name in names && e == AgentDel(e.name, agents[e.name], reason)
    decreases |names|
  {
    if names != {} {
      RemovalEvents(agents, names - {Least(names)}, reason, e);
    }
  }

  lemma {:induction false} RemovalCount(agents: map<Name, Handle>, names: set<Name>, reason: Reason)
    requires names <= agents.Keys
    ensures |Removals(agents, names, reason)| == |names|
    decreases |names|
  {
    if names != {} {
      RemovalCount(agents, names - {Least(names)}, reason);
    }
  }

  // ------------------------------------------------------------ filters

  /** The connected broker's own agent is off the list, or about to be taken off it, and the new filter lets it in. */
  ghost predicate BrokerReturns(s: Console, p: Attributes -> bool)
    requires s.WellFormed()
  {
    && s.broker.Some? && p(s.records[s.broker.value].attributes)
    && (s.brokerListed ==> s.BrokerName() in s.agents && !p(s.records[s.agents[s.BrokerName()]].attributes))
  }

  /** After a filter change, exactly the agents that it matches are listed, and the broker's own if it comes back. */
  lemma FilterExactly(s: Console, p: Attributes -> bool, n: Name)
    requires s.WellFormed()
    ensures n in SetFilter(s, p).agents <==>
            (n in s.agents && p(s.records[s.agents[n]].attributes)) || (BrokerReturns(s, p) && n == s.BrokerName())
    ensures SetFilter(s, p).filter == Some(p) && SetFilter(s, p).records == s.records
  {
  }

  /** What is told: a removal for each agent that does not match, as filtered, and then the broker's return. */
  lemma FilterEvents(s: Console, p: Attributes -> bool, n: Name, agent: Handle, reason: Reason)
    requires s.WellFormed()
    ensures |SetFilter(s, p).log| >= |s.log| && SetFilter(s, p).log[..|s.log|] == s.log
    ensures var tail := SetFilter(s, p).log[|s.log|..];
            AgentDel(n, agent, reason) in tail <==>
            n in s.agents && agent == s.agents[n] && !p(s.records[agent].attributes) && reason == Filtered
    ensures var tail := SetFilter(s, p).log[|s.log|..];
            AgentAdd(n, agent) in tail <==> BrokerReturns(s, p) && n == s.BrokerName() && Some(agent) == s.broker
  {
    var gone := Unmatched(s, p);
    var told := Removals(s.agents, gone, Filtered);
    RemovalEvents(s.agents, gone, Filtered, AgentDel(n, agent, reason));
    RemovalEvents(s.agents, gone, Filtered, AgentAdd(n, agent));
    FilterLog(s, p);
    assert (s.log + told)[|s.log|..] == told;
    if BrokerReturns(s, p) {
      var back := AgentAdd(s.BrokerName(), s.broker.value);
      assert (s.log + told + [back])[|s.log|..] == told + [back];
    }
  }

  /** Setting the same filter again changes nothing, and tells nothing. */
  lemma FilterTwice(s: Console, p: Attributes -> bool)
    requires s.WellFormed()
    ensures SetFilter(s, p).WellFormed() && SetFilter(SetFilter(s, p), p) == SetFilter(s, p)
  {
    var t := SetFilter(s, p);
    assert Unmatched(t, p) == {};
    assert t.agents - {} == t.agents && t.log + [] == t.log;
  }

  lemma FilterLog(s: Console, p: Attributes -> bool)
    requires s.WellFormed()
    ensures SetFilter(s, p).log == s.log + Removals(s.agents, Unmatched(s, p), Filtered) +
            (if BrokerReturns(s, p) then [AgentAdd(s.BrokerName(), s.broker.value)] else [])
  {
    var told := s.log + Removals(s.agents, Unmatched(s, p), Filtered);
    assert told + [] == told;
  }

  // ------------------------------------------------------------ the periodic work

  /** A second visit within the same second does nothing. */
  lemma SameSecond(s: Console)
    requires s.WellFormed()
    ensures Periodic(s, s.lastVisit) == s
  {
  }

  /** The connected broker's own agent is never dropped for its age, nor is its count touched. */
  lemma BrokerNeverAges(s: Console, seconds: nat, n: Name)
    requires s.WellFormed() && n in s.agents && n == s.BrokerName()
    ensures var t := Periodic(s, seconds);
            n in t.agents && t.agents[n] == s.agents[n] && |t.records| == |s.records| &&
            t.records[s.agents[n]] == s.records[s.agents[n]]
  {
  }

  /** What a pass tells: a removal, as aged, for each agent that it drops, and nothing else. */
  lemma PeriodicEvents(s: Console, seconds: nat, e: Event)
    requires s.WellFormed()
    ensures |Periodic(s, seconds).log| >= |s.log| && Periodic(s, seconds).log[..|s.log|] == s.log
    ensures e in Periodic(s, seconds).log[|s.log|..] <==>
            && e.AgentDel? && e.name in s.agents && e.name !in Periodic(s, seconds).agents
            && e.agent == s.agents[e.name] && e.reason == Aged
  {
    var gone := Expired(s);
    RemovalEvents(s.agents, gone, Aged, e);
    assert (s.log + Removals(s.agents, gone, Aged))[|s.log|..] == Removals(s.agents, gone, Aged);
    PeriodicLog(s, seconds);
    assert s.log[|s.log|..] == [];
  }

  lemma PeriodicLog(s: Console, seconds: nat)
    requires s.WellFormed()
    ensures var t := Periodic(s, seconds);
            || (t.log == s.log && t.agents == s.agents)
            || (t.log == s.log + Removals(s.agents, Expired(s), Aged) && t.agents == s.agents - Expired(s))
  {
    assert Expired(s.(lastVisit := seconds, lastAgePass := seconds)) == Expired(s);
  }
}
