/** The console session, changed in place: each handler against its specification on values. */
module AgentConsoles {
  import opened Options
  import opened OrderedKeys
  import opened AgentDirectory

  /** The removal loop with some names still to come: what is left listed, and what has been told. */
  ghost predicate Erasing(s: Console, all: set<Name>, rest: set<Name>, reason: Reason,
                          agents: map<Name, Handle>, events: seq<Event>)
    requires all <= s.agents.Keys && rest <= all
  {
    && agents == s.agents - (all - rest)
    && events + Removals(s.agents, rest, reason) == s.log + Removals(s.agents, all, reason)
  }

  lemma ErasingBegins(s: Console, all: set<Name>, reason: Reason)
    requires all <= s.agents.Keys
    ensures Erasing(s, all, all, reason, s.agents, s.log)
  {
    assert s.agents - (all - all) == s.agents;
  }

  lemma ErasingStep(s: Console, all: set<Name>, rest: set<Name>, reason: Reason,
                    agents: map<Name, Handle>, events: seq<Event>, n: Name)
    requires all <= s.agents.Keys && rest <= all && Erasing(s, all, rest, reason, agents, events) && IsLeast(n, rest)
    ensures Erasing(s, all, rest - {n}, reason, agents - {n}, events + [AgentDel(n, s.agents[n], reason)])
  {
    RemovalsStep(s.agents, events, rest, n, reason);
    assert s.agents - (all - rest) - {n} == s.agents - (all - (rest - {n}));
  }

  lemma ErasingEnds(s: Console, all: set<Name>, reason: Reason, agents: map<Name, Handle>, events: seq<Event>)
    requires s.WellFormed() && all <= s.agents.Keys && Erasing(s, all, {}, reason, agents, events)
    ensures Remove(s, all, reason).WellFormed()
    ensures agents == Remove(s, all, reason).agents && events == Remove(s, all, reason).log
  {
    assert all - {} == all && events + [] == events;
  }

  /** The records in the middle of the ageing loop: some names are still to come. */
  ghost function PartlyAged(s: Console, rest: set<Name>): (r: seq<AgentRecord>)
    requires s.WellFormed()
    ensures |r| == |s.records|
  {
    seq(|s.records|, h requires 0 <= h < |s.records| =>
      if Ages(s, h) && s.records[h].name !in rest then s.records[h].Age() else s.records[h])
  }

  lemma PartlyAgedStep(s: Console, rest: set<Name>, n: Name)
    requires s.WellFormed() && n in rest && n in s.agents
    ensures PartlyAged(s, rest)[s.agents[n]] == s.records[s.agents[n]]
    ensures PartlyAged(s, rest - {n}) ==
            if n == s.BrokerName() then PartlyAged(s, rest)
            else PartlyAged(s, rest)[s.agents[n] := s.records[s.agents[n]].Age()]
  {
  }

  lemma PartlyAgedEnds(s: Console)
    requires s.WellFormed()
    ensures PartlyAged(s, s.agents.Keys) == s.records && PartlyAged(s, {}) == AgedRecords(s)
  {
  }

  /** What the ageing loop has set aside with some names still to come. */
  ghost predicate SetAside(s: Console, rest: set<Name>, toDelete: map<Name, Handle>)
    requires s.WellFormed()
  {
    && (forall n :: n in toDelete <==> n in Expired(s) && n !in rest)
    && (forall n :: n in toDelete ==> toDelete[n] == s.agents[n])
  }

  lemma SetAsideStep(s: Console, rest: set<Name>, toDelete: map<Name, Handle>, n: Name)
    requires s.WellFormed() && SetAside(s, rest, toDelete) && n in rest && n in s.agents
    ensures SetAside(s, rest - {n}, if n != s.BrokerName() && s.records[s.agents[n]].Age().untouched > s.maxAge
                                    then toDelete[n := s.agents[n]] else toDelete)
  {
  }

  class ConsoleSession {
    var records: seq<AgentRecord>
    var agents: map<Name, Handle>
    var connectedBrokerAgent: Option<Handle>
    var connectedBrokerInAgentList: bool
    var agentQuery: Option<Attributes -> bool>
    var events: seq<Event>
    var lastVisit: nat
    var lastAgePass: nat
    var maxAgentAgeMinutes: nat

    ghost function Value(): Console
      reads this
    {
      Console(records, agents, connectedBrokerAgent, connectedBrokerInAgentList, agentQuery, events,
              lastVisit, lastAgePass, maxAgentAgeMinutes)
    }

    ghost predicate Valid()
      reads this
    {
      Value().WellFormed()
    }

    constructor (maxAge: nat)
      ensures Valid() && Value() == Opened(maxAge)
    {
      records, agents, connectedBrokerAgent, connectedBrokerInAgentList := [], map[], None, false;
      agentQuery, events, lastVisit, lastAgePass, maxAgentAgeMinutes := None, [], 0, 0, maxAge;
    }

    method EnqueueEvent(e: Event)
      modifies this`events
      ensures events == old(events) + [e]
    {
      events := events + [e];
    }

    method BrokerName() returns (n: Name)
      requires Valid()
      ensures n == Value().BrokerName()
    {
      n := if connectedBrokerAgent.Some? then records[connectedBrokerAgent.value].name else NO_NAME;
    }

    /** The loop that both handlers end with: erase each name and tell the application. */
    method RemoveAll(toDelete: map<Name, Handle>, reason: Reason)
      requires Valid() && toDelete.Keys <= agents.Keys
      requires forall n :: n in toDelete ==> toDelete[n] == agents[n]
      modifies this`agents, this`events
      ensures Valid() && Value() == Remove(old(Value()), toDelete.Keys, reason)
    {
      ghost var s := Value();
      ErasingBegins(s, toDelete.Keys, reason);
      EraseEach(toDelete, reason, s);
      ErasingEnds(s, toDelete.Keys, reason, agents, events);
    }

    method EraseEach(toDelete: map<Name, Handle>, reason: Reason, ghost s: Console)
      requires toDelete.Keys <= s.agents.Keys && forall n :: n in toDelete ==> toDelete[n] == s.agents[n]
      requires Erasing(s, toDelete.Keys, toDelete.Keys, reason, agents, events)
      modifies this`agents, this`events
      ensures Erasing(s, toDelete.Keys, {}, reason, agents, events)
    {
      var rest := toDelete.Keys;
      while rest != {}
        invariant rest <= toDelete.Keys && Erasing(s, toDelete.Keys, rest, reason, agents, events)
        decreases |rest|
      {
        var n := LeastOf(rest);
        ErasingStep(s, toDelete.Keys, rest, reason, agents, events, n);
        agents := agents - {n};
        EnqueueEvent(AgentDel(n, toDelete[n], reason));
        rest := rest - {n};
      }
    }

    method SetAgentFilter(p: Attributes -> bool)
      requires Valid()
      modifies this
      ensures Valid() && Value() == SetFilter(old(Value()), p)
    {
      agentQuery := Some(p);
      var toDelete := CollectUnmatched(p);
      RemoveAll(toDelete, Filtered);
      RelistBroker(p);
    }

    method RelistBroker(p: Attributes -> bool)
      requires Valid()
      modifies this`agents, this`connectedBrokerInAgentList, this`events
      ensures Valid() && Value() == Relist(old(Value()), p)
    {
      if !connectedBrokerInAgentList && connectedBrokerAgent.Some? &&
         p(records[connectedBrokerAgent.value].attributes) {
        var name := BrokerName();
        agents := agents[name := connectedBrokerAgent.value];
        connectedBrokerInAgentList := true;
        EnqueueEvent(AgentAdd(name, connectedBrokerAgent.value));
      }
    }

    /** The loop over the directory that finds what a filter does not match. */
    method CollectUnmatched(p: Attributes -> bool) returns (toDelete: map<Name, Handle>)
      requires Valid()
      modifies this`connectedBrokerInAgentList
      ensures Valid() && toDelete.Keys == Unmatched(old(Value()), p)
      ensures forall n :: n in toDelete ==> toDelete[n] == agents[n]
      ensures connectedBrokerInAgentList ==
              (old(connectedBrokerInAgentList) && Value().BrokerName() !in Unmatched(old(Value()), p))
    {
      ghost var gone := Unmatched(Value(), p);
      toDelete := map[];
      var rest := agents.Keys;
      var brokerName := BrokerName();
      while rest != {}
        invariant rest <= agents.Keys
        invariant forall n :: n in toDelete <==> n in gone && n !in rest
        invariant forall n :: n in toDelete ==> toDelete[n] == agents[n]
        invariant connectedBrokerInAgentList == (old(connectedBrokerInAgentList) && brokerName !in toDelete)
        decreases |rest|
      {
        var n := LeastOf(rest);
        if !p(records[agents[n]].attributes) {
          toDelete := toDelete[n := agents[n]];
          if records[agents[n]].name == brokerName {
            connectedBrokerInAgentList := false;
          }
        }
        rest := rest - {n};
      }
    }

    method Receive(m: Message)
      requires Valid()
      modifies this
      ensures Valid() && Value() == Dispatch(old(Value()), m)
    {
      DispatchWellFormed(Value(), m);
      if m.name in agents {
        var h := agents[m.name];
        records := records[h := records[h].(touched := true)];
      }
      if m.Update? {
        HandleAgentUpdate(m.name, m.attributes, m.brokerLocate);
      }
    }

    method HandleAgentUpdate(name: Name, attributes: Attributes, brokerLocate: bool)
      requires Valid()
      modifies this
      ensures Value() == AgentUpdate(old(Value()), name, attributes, brokerLocate)
    {
      var epoch := 0;
      if EPOCH in attributes {
        epoch := attributes[EPOCH];
      }
      if brokerLocate {
        var h := AddRecord(name, epoch, attributes);
        connectedBrokerAgent := Some(h);
        if agentQuery.None? || agentQuery.value(attributes) {
          connectedBrokerInAgentList := true;
          agents := agents[name := h];
          EnqueueEvent(AgentAdd(name, h));
        }
        return;
      }
      if agentQuery.Some? && !agentQuery.value(attributes) {
        return;
      }
      if name !in agents {
        var h := AddRecord(name, epoch, attributes);
        agents := agents[name := h];
        EnqueueEvent(AgentAdd(name, h));
      } else {
        RefreshAgent(name, epoch, attributes);
      }
    }

    method AddRecord(name: Name, epoch: nat, attributes: Attributes) returns (h: Handle)
      requires epoch == if EPOCH in attributes then attributes[EPOCH] else 0
      modifies this`records
      ensures h == |old(records)| && records == old(records) + [NewRecord(name, attributes)]
    {
      h := |records|;
      records := records + [AgentRecord(name, epoch, attributes - {EPOCH}, true, 0)];
    }

    method RefreshAgent(name: Name, epoch: nat, attributes: Attributes)
      requires Valid() && name in agents
      requires epoch == if EPOCH in attributes then attributes[EPOCH] else 0
      modifies this`records, this`events
      ensures Value() == Refresh(old(Value()), name, attributes)
    {
      var detectedRestart := false;
      var h := agents[name];
      records := records[h := records[h].Touch()];
      if records[h].epoch != epoch {
        records := records[h := records[h].(epoch := epoch)];
        EnqueueEvent(AgentRestart(h));
        detectedRestart := true;
      }
      if SCHEMA_UPDATED in attributes && SCHEMA_UPDATED in records[h].attributes {
        var ts := attributes[SCHEMA_UPDATED];
        if ts > records[h].attributes[SCHEMA_UPDATED] {
          if !detectedRestart {
            EnqueueEvent(AgentSchemaUpdate(h));
          }
          records := records[h := records[h].(attributes := records[h].attributes[SCHEMA_UPDATED := ts])];
        }
      }
    }

    method PeriodicProcessing(seconds: nat)
      requires Valid()
      modifies this
      ensures Valid() && Value() == Periodic(old(Value()), seconds)
    {
      if seconds == lastVisit {
        return;
      }
      lastVisit := seconds;
      if lastAgePass == 0 {
        lastAgePass := seconds;
      }
      if (seconds - lastAgePass) % 0x1_0000_0000_0000_0000 >= 60 {
        lastAgePass := seconds;
        DropExpired();
      }
    }

    method DropExpired()
      requires Valid()
      modifies `records, `agents, `events
      ensures Valid() && Value() == AgePass(old(Value()))
    {
      var toDelete := AgeAgents();
      RemoveAll(toDelete, Aged);
    }

    /** The loop that ages each listed agent but the broker's and finds those over the limit. */
    method AgeAgents() returns (toDelete: map<Name, Handle>)
      requires Valid()
      modifies this`records
      ensures Valid() && records == AgedRecords(old(Value()))
      ensures toDelete.Keys == Expired(old(Value())) && forall n :: n in toDelete ==> toDelete[n] == agents[n]
    {
      ghost var s := Value();
      toDelete := map[];
      var rest := agents.Keys;
      var brokerName := BrokerName();
      PartlyAgedEnds(s);
      while rest != {}
        invariant rest <= agents.Keys && records == PartlyAged(s, rest)
        invariant SetAside(s, rest, toDelete)
        decreases |rest|
      {
        var n := LeastOf(rest);
        PartlyAgedStep(s, rest, n);
        SetAsideStep(s, rest, toDelete, n);
        if records[agents[n]].name != brokerName {
          records := records[agents[n] := records[agents[n]].Age()];
          if records[agents[n]].untouched > maxAgentAgeMinutes {
            toDelete := toDelete[n := agents[n]];
          }
        }
        rest := rest - {n};
      }
    }
  }
}
