/**
  How the session handlers at the two ends bring a broken session back. Each end has a single flag
  for having state, set by whatever it records, sent or received, in either direction. An end that
  has state asks its peer where to resume; a peer without state names no command, and is refused.
 */
module SessionHandlers {
  import opened Options
  import opened SessionPoints
  import opened SessionModel
  import opened SessionReplay

  // ------------------------------------------------------------ the handshake of one direction

  /** The command an end reports as expected: none unless it has state. */
  function Reported(s: System, receivingEnd: bool): Option<nat> {
    if receivingEnd then Some(s.receiver.expected.command) else None
  }

  /** A sending end without state starts at its send point; one with state replays from the command it is told. */
  function Replayed(s: System, sendingEnd: bool, reported: Option<nat>): Option<(Point, seq<Frame>)>
    requires Flows(s.sender.replayPoint, s.sender.replayList)
  {
    if !sendingEnd then Some((s.sender.sendPoint, []))
    else
      var command :- reported;
      var p := Point(command, 0);
      if s.sender.replayPoint.AtMost(p) && p.AtMost(s.sender.sendPoint) then Some((p, ToReplay(s.sender, command)))
      else None
  }

  /** The direction after the handshake, or None when one of the ends refuses; the flags say which ends have state. */
  function Reattach(s: System, sendingEnd: bool, receivingEnd: bool): Option<System>
    requires Flows(s.sender.replayPoint, s.sender.replayList)
  {
    var start :- Replayed(s, sendingEnd, Reported(s, receivingEnd));
    if PointInRange(s.receiver, receivingEnd, start.0)
    then Some(s.(attached := true, channel := start.1, receiver := SetPoint(s.receiver, start.0)))
    else None
  }

  // ------------------------------------------------------------ runs that resume as the handlers do

  /** Every resume is at the command of the expected point, as the receiver reports it. */
  ghost predicate HandlerRun(timeout: nat, hardLimit: nat, states: seq<System>, actions: seq<Action>) {
    && Run(timeout, hardLimit, states, actions)
    && forall i :: 0 <= i < |actions| && actions[i].Resume? ==> actions[i].from == states[i].receiver.expected.command
  }

  lemma DeliveredKeepsUp(s: System)
    requires Histories(s) && InFlight(s) && s.channel != []
    requires s.receiver.expected.command == s.receiver.received.command
    ensures var r := Receive(s.receiver, s.channel[0]); r.expected.command == r.received.command
  {
    DeliverCompares(s);
  }

  lemma OthersKeepUp(timeout: nat, hardLimit: nat, s: System, a: Action)
    requires Walkable(s) && Enabled(s, a) && !a.Deliver?
    requires s.receiver.expected.command == s.receiver.received.command
    requires a.Resume? ==> a.from == s.receiver.expected.command
    ensures var r := Next(timeout, hardLimit, s, a).receiver; r.expected.command == r.received.command
  {
  }

  lemma KeepsUpNext(timeout: nat, hardLimit: nat, states: seq<System>, actions: seq<Action>, i: nat)
    requires timeout != 0 && HandlerRun(timeout, hardLimit, states, actions) && i < |actions|
    requires states[i].receiver.expected.command == states[i].receiver.received.command
    ensures states[i + 1].receiver.expected.command == states[i + 1].receiver.received.command
  {
    if actions[i].Deliver? {
      Reached(timeout, hardLimit, states, actions, i);
      DeliveredKeepsUp(states[i]);
    } else {
      OthersKeepUp(timeout, hardLimit, states[i], actions[i]);
    }
  }

  /** Then the expected point never falls behind the command being received. */
  lemma {:induction false} ExpectedKeepsUp(
    timeout: nat, hardLimit: nat, states: seq<System>, actions: seq<Action>, i: nat)
    requires timeout != 0 && HandlerRun(timeout, hardLimit, states, actions) && i < |states|
    ensures states[i].receiver.expected.command == states[i].receiver.received.command
  {
    if i > 0 {
      ExpectedKeepsUp(timeout, hardLimit, states, actions, i - 1);
      KeepsUpNext(timeout, hardLimit, states, actions, i - 1);
    }
  }

  /** An end has state from the first frame it sent, or took in. */
  ghost predicate StateIsHistory(s: System) {
    (s.senderStateful <==> s.sent != []) && (s.receiverStateful <==> s.delivered != [])
  }

  lemma FirstIsNew(s: System)
    requires Histories(s) && InFlight(s) && s.delivered == [] && s.channel != []
    ensures ReceiveResult(s.receiver, s.channel[0]) == FirstTime
  {
    DeliverCompares(s);
  }

  lemma OthersHistory(timeout: nat, hardLimit: nat, s: System, a: Action)
    requires Walkable(s) && Enabled(s, a) && StateIsHistory(s)
    requires a.Deliver? && s.delivered == [] ==> ReceiveResult(s.receiver, s.channel[0]) == FirstTime
    ensures StateIsHistory(Next(timeout, hardLimit, s, a))
  {
  }

  lemma HistoryNext(timeout: nat, hardLimit: nat, states: seq<System>, actions: seq<Action>, i: nat)
    requires timeout != 0 && Run(timeout, hardLimit, states, actions) && i < |actions| && StateIsHistory(states[i])
    ensures StateIsHistory(states[i + 1])
  {
    if actions[i].Deliver? && states[i].delivered == [] {
      Reached(timeout, hardLimit, states, actions, i);
      FirstIsNew(states[i]);
    }
    OthersHistory(timeout, hardLimit, states[i], actions[i]);
  }

  /** Over every run, whatever commands it resumes at. */
  lemma {:induction false} StateFollowsHistory(
    timeout: nat, hardLimit: nat, states: seq<System>, actions: seq<Action>, i: nat)
    requires timeout != 0 && Run(timeout, hardLimit, states, actions) && i < |states|
    ensures StateIsHistory(states[i])
  {
    if i > 0 {
      StateFollowsHistory(timeout, hardLimit, states, actions, i - 1);
      HistoryNext(timeout, hardLimit, states, actions, i - 1);
    }
  }

  // ------------------------------------------------------------ when a direction can be resumed

  /** The flags of the two ends: set by this direction's own traffic, and possibly by the opposite one's. */
  ghost predicate Flags(s: System, sendingEnd: bool, receivingEnd: bool) {
    (s.senderStateful ==> sendingEnd) && (s.receiverStateful ==> receivingEnd)
  }

  /** What the handshake needs to know of a direction: its points are in order, and at the start before it is used. */
  ghost predicate Resting(s: System) {
    && Walkable(s) && !s.attached && StateIsHistory(s) && s.delivered <= s.sent
    && s.sender.replayPoint.offset == 0
    && s.sender.replayPoint.command <= s.receiver.expected.command == s.receiver.received.command
    && s.receiver.received.AtMost(s.sender.sendPoint)
    && (s.sent == [] ==> s.sender.replayList == [] && s.sender.sendPoint == Start)
  }

  lemma RestingState(s: System)
    requires Histories(s) && InFlight(s) && Walkable(s) && !s.attached && StateIsHistory(s)
    requires s.receiver.expected.command == s.receiver.received.command
    ensures Resting(s)
  {
    ReceivedAtMostSent(s);
  }

  lemma RestingRun(timeout: nat, hardLimit: nat, states: seq<System>, actions: seq<Action>, i: nat)
    requires timeout != 0 && HandlerRun(timeout, hardLimit, states, actions) && i < |states| && !states[i].attached
    ensures Resting(states[i])
  {
    StateFollowsHistory(timeout, hardLimit, states, actions, i);
    ExpectedKeepsUp(timeout, hardLimit, states, actions, i);
    RunWalkable(timeout, hardLimit, states, actions, i);
    Reached(timeout, hardLimit, states, actions, i);
    RestingState(states[i]);
  }

  lemma RunWalkable(timeout: nat, hardLimit: nat, states: seq<System>, actions: seq<Action>, i: nat)
    requires timeout != 0 && Run(timeout, hardLimit, states, actions) && i < |states|
    ensures Walkable(states[i])
  {
    ResumeAlwaysPossible(timeout, hardLimit, states, actions, i);
  }

  lemma ReattachResting(timeout: nat, hardLimit: nat, s: System, sendingEnd: bool, receivingEnd: bool)
    requires Resting(s) && Flags(s, sendingEnd, receivingEnd)
    ensures var from := s.receiver.expected.command;
            && Enabled(s, Resume(from))
            && Reattach(s, sendingEnd, receivingEnd) ==
               if sendingEnd && !receivingEnd then None else Some(Next(timeout, hardLimit, s, Resume(from)))
  {
    if !sendingEnd {
      assert s.sender.replayList[0..] == [];
    }
  }

  /**
    At any moment of any such run with the connection broken, the handlers refuse a direction exactly when the
    sending end has state and the receiving end has none; otherwise they take the step that resumes it.
   */
  lemma HandlersReattach(timeout: nat, hardLimit: nat, states: seq<System>, actions: seq<Action>, i: nat,
                         sendingEnd: bool, receivingEnd: bool)
    requires timeout != 0 && HandlerRun(timeout, hardLimit, states, actions) && i < |states| && !states[i].attached
    requires Flags(states[i], sendingEnd, receivingEnd)
    ensures Walkable(states[i])
    ensures var s := states[i];
            var from := s.receiver.expected.command;
            && Enabled(s, Resume(from))
            && Reattach(s, sendingEnd, receivingEnd) ==
               if sendingEnd && !receivingEnd then None else Some(Next(timeout, hardLimit, s, Resume(from)))
  {
    RestingRun(timeout, hardLimit, states, actions, i);
    ReattachResting(timeout, hardLimit, states[i], sendingEnd, receivingEnd);
  }

  /** With no traffic the other way, a broken session comes back exactly when nothing was sent or something arrived. */
  lemma OneWayResumes(timeout: nat, hardLimit: nat, states: seq<System>, actions: seq<Action>, i: nat)
    requires timeout != 0 && HandlerRun(timeout, hardLimit, states, actions) && i < |states| && !states[i].attached
    ensures Walkable(states[i])
    ensures var s := states[i];
            Reattach(s, s.senderStateful, s.receiverStateful).Some? <==> s.sent == [] || s.delivered != []
  {
    RestingRun(timeout, hardLimit, states, actions, i);
    ReattachResting(timeout, hardLimit, states[i], states[i].senderStateful, states[i].receiverStateful);
  }

  /** A session that has attached, and one that has then recorded its first frame. */
  const JustAttached := Init.(attached := true)

  function FirstSent(timeout: nat, hardLimit: nat, f: Frame): System {
    var kept := RecordResult(NewSender, timeout, hardLimit, f) == Kept;
    JustAttached.(sender := Record(NewSender, timeout, f), senderStateful := true, sent := [f],
                  channel := if kept then [f] else [], attached := kept)
  }

  ghost predicate StepsTo(timeout: nat, hardLimit: nat, s: System, a: Action, t: System) {
    Walkable(s) && Enabled(s, a) && t == Next(timeout, hardLimit, s, a)
  }

  /** Three steps from the initial state that resume only as the handlers do make a run. */
  lemma ThreeSteps(timeout: nat, hardLimit: nat, a: Action, s: System, b: Action, t: System, c: Action, u: System)
    requires StepsTo(timeout, hardLimit, Init, a, s) && StepsTo(timeout, hardLimit, s, b, t)
    requires StepsTo(timeout, hardLimit, t, c, u)
    requires a == Resume(0) && !b.Resume? && !c.Resume?
    ensures HandlerRun(timeout, hardLimit, [Init, s, t, u], [a, b, c])
  {
    var states, actions := [Init, s, t, u], [a, b, c];
    forall i | 0 <= i < 3 ensures StepsTo(timeout, hardLimit, states[i], actions[i], states[i + 1]) {
      assert i == 0 || i == 1 || i == 2;
    }
  }

  lemma AttachFirst(timeout: nat, hardLimit: nat)
    ensures StepsTo(timeout, hardLimit, Init, Resume(0), JustAttached)
  {
    assert NewSender.replayList[0..] == [];
  }

  lemma SendFirst(timeout: nat, hardLimit: nat, f: Frame)
    requires f.segment != Control && Start.Accepts(f)
    ensures StepsTo(timeout, hardLimit, JustAttached, Send(f), FirstSent(timeout, hardLimit, f))
  {
    assert [] + [f] == [f];
  }

  lemma BreakFirst(timeout: nat, hardLimit: nat, f: Frame, s: System)
    requires f.segment != Control && Start.Accepts(f)
    requires s == FirstSent(timeout, hardLimit, f).(attached := false, channel := [])
    ensures StepsTo(timeout, hardLimit, FirstSent(timeout, hardLimit, f), Detach, s) && Walkable(s)
  {
    var fs: seq<Frame> := [];
    assert fs + [f] == [f];
    FlowsSnoc(Start, fs, f);
    assert FirstSent(timeout, hardLimit, f).sender.replayList == if timeout != 0 then fs + [f] else fs;
  }

  /**
    The session that attaches, records one frame and loses the connection before it arrives is refused: its
    sender has state, and its receiver names no command.
   */
  lemma FirstFrameLost(timeout: nat, hardLimit: nat, f: Frame, s: System)
    requires timeout != 0 && f.segment != Control && Start.Accepts(f)
    requires s == FirstSent(timeout, hardLimit, f).(attached := false, channel := [])
    ensures HandlerRun(timeout, hardLimit, [Init, JustAttached, FirstSent(timeout, hardLimit, f), s],
                       [Resume(0), Send(f), Detach])
    ensures Walkable(s) && s.sent == [f] && s.delivered == []
    ensures Reattach(s, s.senderStateful, s.receiverStateful).None?
  {
    AttachFirst(timeout, hardLimit);
    SendFirst(timeout, hardLimit, f);
    BreakFirst(timeout, hardLimit, f, s);
    ThreeSteps(timeout, hardLimit, Resume(0), JustAttached, Send(f), FirstSent(timeout, hardLimit, f), Detach, s);
  }

  // ------------------------------------------------------------ both directions together

  /** Whether the end that sends in `out` and receives in `back` has state. */
  predicate EndStateful(out: System, back: System) {
    out.senderStateful || back.receiverStateful
  }

  /** Both directions of a session pass the handshake. */
  predicate BothReattach(there: System, back: System)
    requires Flows(there.sender.replayPoint, there.sender.replayList)
    requires Flows(back.sender.replayPoint, back.sender.replayList)
  {
    var near, far := EndStateful(there, back), EndStateful(back, there);
    Reattach(there, near, far).Some? && Reattach(back, far, near).Some?
  }

  lemma RestingBothWays(there: System, back: System)
    requires Resting(there) && Resting(back)
    ensures BothReattach(there, back) <==>
            || (there.sent == [] && back.sent == [])
            || (there.sent != [] && back.sent != [])
            || there.delivered != [] || back.delivered != []
  {
    var near, far := EndStateful(there, back), EndStateful(back, there);
    ReattachResting(0, 0, there, near, far);
    ReattachResting(0, 0, back, far, near);
  }

  /**
    A broken session with traffic both ways comes back if and only if nothing was ever sent, or both ends have
    sent something, or something has arrived one way or the other: what stays out is a session in which only
    one end has sent and nothing of it has arrived.
   */
  lemma TwoWayResumes(timeout: nat, hardLimit: nat,
                      states: seq<System>, actions: seq<Action>, i: nat,
                      states': seq<System>, actions': seq<Action>, j: nat)
    requires timeout != 0 && HandlerRun(timeout, hardLimit, states, actions) && i < |states| && !states[i].attached
    requires HandlerRun(timeout, hardLimit, states', actions') && j < |states'| && !states'[j].attached
    ensures Walkable(states[i]) && Walkable(states'[j])
    ensures var there, back := states[i], states'[j];
            BothReattach(there, back) <==>
            || (there.sent == [] && back.sent == [])
            || (there.sent != [] && back.sent != [])
            || there.delivered != [] || back.delivered != []
  {
    RestingRun(timeout, hardLimit, states, actions, i);
    RestingRun(timeout, hardLimit, states', actions', j);
    RestingBothWays(states[i], states'[j]);
  }
}
