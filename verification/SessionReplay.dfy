/**
  A sending session and a receiving session joined by a connection that delivers frames
  in order while it lasts and loses everything in flight when it breaks. Controls that
  report completion travel back with no promise at all: any that was ever sent may
  arrive late, twice or never. A run is any sequence of steps from the initial state.
 */
module SessionReplay {
  import opened SessionPoints
  import opened RangeLists
  import opened SessionModel

  datatype Confirmation = Confirmation(front: int, upTo: nat)

  datatype System = System(
    sender: Sender,
    receiver: Receiver,
    senderStateful: bool,
    receiverStateful: bool,
    attached: bool,
    channel: seq<Frame>,
    completions: set<seq<Range>>,
    confirmations: set<Confirmation>,
    knowns: set<seq<Range>>,
    sent: seq<Frame>,
    delivered: seq<Frame>,
    completed: set<int>)

  const Init := System(NewSender, NewReceiver, false, false, false, [], {}, {}, {}, [], [], {})

  datatype Action =
    | Send(f: Frame)
    | FlushSent
    | Deliver
    | CompleteCommand(command: nat, cumulative: bool, first: int)
    | SendCompletion(snapshot: seq<Range>)
    | SendConfirmation(front: int)
    | DeliverCompletion(snapshot: seq<Range>)
    | DeliverConfirmation(confirmation: Confirmation)
    | DeliverKnownCompleted(commands: seq<Range>)
    | Detach
    | Resume(from: nat)

  /** What the environment may do; a resume picks a command between the replay point and the received point. */
  ghost predicate Enabled(s: System, a: Action) {
    match a
    case Send(f) => s.attached && s.sender.sendPoint.Accepts(f)
    case FlushSent => true
    case Deliver => s.channel != []
    case CompleteCommand(command, cumulative, first) =>
      && command in s.receiver.incomplete && command < s.receiver.received.command
      && CompletesFrom(s.receiver, command, cumulative, first)
    case SendCompletion(snapshot) => Canonical(snapshot) && Elements(snapshot) == s.receiver.unknownCompleted
    case SendConfirmation(front) =>
      front in s.receiver.unknownCompleted && forall c :: c in s.receiver.unknownCompleted ==> front <= c
    case DeliverCompletion(snapshot) => snapshot in s.completions
    case DeliverConfirmation(confirmation) => confirmation in s.confirmations
    case DeliverKnownCompleted(commands) => commands in s.knowns
    case Detach => true
    case Resume(from) =>
      && !s.attached && s.sender.replayPoint.command <= from
      && Point(from, 0).AtMost(s.receiver.received)
  }

  /** What the code relies on to run at all: the replay list can be walked, command numbers are not negative. */
  ghost predicate Walkable(s: System) {
    && Flows(s.sender.replayPoint, s.sender.replayList)
    && (forall cs: seq<Range> :: cs in s.completions && cs != [] ==> cs[0].end >= 0)
  }

  /** The step itself; a control the session refuses changes nothing. */
  ghost function Next(timeout: nat, hardLimit: nat, s: System, a: Action): System
    requires Walkable(s) && Enabled(s, a)
  {
    match a
    case Send(f) =>
      var t := s.(sender := Record(s.sender, timeout, f), senderStateful := s.senderStateful || f.segment != Control);
      if f.segment == Control then t
      else if RecordResult(s.sender, timeout, hardLimit, f) == Kept then
        t.(sent := s.sent + [f], channel := s.channel + [f])
      else t.(sent := s.sent + [f], channel := [], attached := false)
    case FlushSent => s.(sender := Flush(s.sender))
    case Deliver =>
      var f := s.channel[0];
      s.(channel := s.channel[1..],
         receiver := Receive(s.receiver, f),
         receiverStateful := true,
         delivered := if ReceiveResult(s.receiver, f) == FirstTime then s.delivered + [f] else s.delivered)
    case CompleteCommand(command, cumulative, first) =>
      s.(receiver := Complete(s.receiver, first, command),
         completed := s.completed + (set c | c in s.receiver.incomplete && first <= c <= command))
    case SendCompletion(snapshot) => s.(completions := s.completions + {snapshot})
    case SendConfirmation(front) =>
      s.(confirmations := s.confirmations + {Confirmation(front, s.receiver.received.command)})
    case DeliverCompletion(snapshot) =>
      s.(sender := CompleteSent(s.sender, snapshot), knowns := s.knowns + {snapshot})
    case DeliverConfirmation(c) =>
      if c.front < s.sender.replayPoint.command || s.sender.sendPoint.Less(Point(c.upTo, 0)) then s
      else s.(sender := Confirm(s.sender, c.upTo))
    case DeliverKnownCompleted(commands) =>
      if KnownInRange(s.receiver, commands) then s.(receiver := KnownCompleted(s.receiver, commands)) else s
    case Detach => s.(attached := false, channel := [])
    case Resume(from) =>
      s.(attached := true, channel := ToReplay(s.sender, from), receiver := SetPoint(s.receiver, Point(from, 0)))
  }

  // ================================================================ the invariant

  /** The replay list is the tail of what was sent; what was delivered is a prefix of it. */
  ghost predicate Histories(s: System) {
    && SenderInv(s.sender)
    && Flows(Start, s.sent) && Past(Start, s.sent) == s.sender.sendPoint
    && Tail(s.sent, s.sender.replayList, s.sender.replayPoint)
    && s.delivered <= s.sent
    && Flows(Start, s.delivered) && Past(Start, s.delivered) == s.receiver.received
    && s.sender.replayPoint.command <= s.receiver.received.command
  }

  /** `fs` are the last frames of `sent`, and the frames before them end at `p`. */
  ghost predicate Tail(sent: seq<Frame>, fs: seq<Frame>, p: Point) {
    && |fs| <= |sent| && sent[|sent| - |fs|..] == fs
    && Flows(Start, sent[..|sent| - |fs|]) && Past(Start, sent[..|sent| - |fs|]) == p
  }

  /** While attached, the frames in flight are exactly those past the expected point. */
  ghost predicate InFlight(s: System) {
    && s.receiver.expected.AtMost(s.receiver.received)
    && (s.attached ==> Tail(s.sent, s.channel, s.receiver.expected))
    && (!s.attached ==> s.channel == [])
  }

  /** Received commands split into incomplete and completed; the sender forgets only completed ones. */
  ghost predicate Bookkeeping(s: System) {
    && (forall c :: Begun(s.receiver.received, c) <==> c in s.receiver.incomplete || c in s.completed)
    && s.receiver.incomplete !! s.completed
    && (forall c :: c in s.completed ==> c < s.receiver.received.command)
    && s.receiver.unknownCompleted <= s.completed
    && (forall c :: Begun(s.sender.sendPoint, c) ==> c in s.sender.incomplete || c in s.completed)
    && (forall c :: c in s.completed && c in s.sender.incomplete ==> c in s.receiver.unknownCompleted)
  }

  /** Controls under way say only what was true when they were sent, and stays true. */
  ghost predicate Controls(s: System) {
    && (forall cs :: cs in s.completions ==> Snapshot(s, cs))
    && (forall k :: k in s.knowns ==> k in s.completions && Elements(k) !! s.sender.incomplete)
    && (forall c :: c in s.confirmations ==> c.upTo <= s.receiver.received.command)
  }

  ghost predicate Snapshot(s: System, cs: seq<Range>) {
    && Canonical(cs) && Elements(cs) <= s.completed
    && (cs != [] ==> 0 <= cs[0].begin && 0 <= cs[0].end <= s.receiver.received.command)
    && (cs != [] ==> cs[|cs| - 1].end <= s.receiver.received.command)
  }

  ghost predicate Inv(s: System) {
    Histories(s) && InFlight(s) && Bookkeeping(s) && Controls(s)
  }

  // ================================================================ every step keeps it

  lemma TailGrows(sent: seq<Frame>, fs: seq<Frame>, p: Point, f: Frame)
    requires Tail(sent, fs, p)
    ensures Tail(sent + [f], fs + [f], p)
  {
    var k := |sent| - |fs|;
    assert (sent + [f])[..k] == sent[..k];
    assert (sent + [f])[k..] == sent[k..] + [f];
  }

  lemma TailShrinks(sent: seq<Frame>, fs: seq<Frame>, p: Point, k: nat)
    requires Tail(sent, fs, p) && Flows(p, fs) && k <= |fs|
    ensures Flows(p, fs[..k]) && Tail(sent, fs[k..], Past(p, fs[..k]))
  {
    var n := |sent| - |fs|;
    PrefixFlows(p, fs, k);
    FlowsConcat(Start, sent[..n], fs[..k]);
    assert sent[..n + k] == sent[..n] + fs[..k];
    assert sent[n + k..] == fs[k..];
  }

  /** What was received never runs ahead of what was sent. */
  lemma ReceivedAtMostSent(s: System)
    requires Histories(s)
    ensures s.receiver.received.AtMost(s.sender.sendPoint)
  {
    assert s.sent[..|s.delivered|] == s.delivered && s.sent[..|s.sent|] == s.sent;
    PastGrows(Start, s.sent, |s.delivered|, |s.sent|);
  }

  lemma SendHistories(timeout: nat, s: System, f: Frame)
    requires Histories(s) && s.sender.sendPoint.Accepts(f) && f.segment != Control && timeout != 0
    ensures Histories(s.(sender := Record(s.sender, timeout, f), sent := s.sent + [f]))
  {
    RecordKeeps(s.sender, timeout, f);
    FlowsSnoc(Start, s.sent, f);
    TailGrows(s.sent, s.sender.replayList, s.sender.replayPoint, f);
    assert s.delivered <= s.sent + [f];
  }

  lemma SendKeeps(timeout: nat, hardLimit: nat, s: System, f: Frame)
    requires Inv(s) && Enabled(s, Send(f)) && timeout != 0
    ensures Inv(Next(timeout, hardLimit, s, Send(f)))
  {
    var t := Next(timeout, hardLimit, s, Send(f));
    if f.segment == Control {
      assert t == s;
    } else {
      SendHistories(timeout, s, f);
      ReceivedAtMostSent(s);
      TailGrows(s.sent, s.channel, s.receiver.expected, f);
      SendBookkeeping(timeout, s, t, f);
    }
  }

  lemma SendBookkeeping(timeout: nat, s: System, t: System, f: Frame)
    requires Bookkeeping(s) && Controls(s) && s.receiver.received.AtMost(s.sender.sendPoint)
    requires s.sender.sendPoint.Accepts(f) && f.segment != Control
    requires t.sender == Record(s.sender, timeout, f) && t.receiver == s.receiver && t.completed == s.completed
    requires t.completions == s.completions && t.knowns == s.knowns && t.confirmations == s.confirmations
    ensures Bookkeeping(t) && Controls(t)
  {
    LaterSnapshots(s, t);
    forall k | k in t.knowns ensures Elements(k) !! t.sender.incomplete {
      assert Snapshot(s, k);
    }
  }

  /** The frame at the head of the channel is new exactly when everything before it was delivered. */
  lemma DeliverCompares(s: System)
    requires Histories(s) && InFlight(s) && s.channel != []
    ensures s.attached && s.channel[0].segment != Control && s.receiver.expected.Accepts(s.channel[0])
    ensures Tail(s.sent, s.channel[1..], s.receiver.expected.Advance(s.channel[0]))
    ensures |s.sent| - |s.channel| <= |s.delivered|
    ensures s.receiver.received.Less(s.receiver.expected.Advance(s.channel[0])) <==>
            |s.sent| - |s.channel| == |s.delivered|
    ensures |s.sent| - |s.channel| == |s.delivered| ==>
              s.receiver.expected == s.receiver.received && s.delivered + [s.channel[0]] <= s.sent
  {
    var e, n := |s.sent| - |s.channel|, |s.delivered|;
    assert s.channel[0] == s.sent[e] && s.delivered == s.sent[..n];
    PastStep(Start, s.sent, e);
    if n < e { PastGrows(Start, s.sent, n, e); }
    if n < e + 1 { PastGrows(Start, s.sent, n, e + 1); } else { PastGrows(Start, s.sent, e + 1, n); }
    assert s.sent[e + 1..] == s.channel[1..];
    if e == n { assert s.sent[..n + 1] == s.sent[..n] + [s.sent[n]]; }
  }

  lemma DeliverKeeps(timeout: nat, hardLimit: nat, s: System)
    requires Inv(s) && Enabled(s, Deliver)
    ensures Inv(Next(timeout, hardLimit, s, Deliver))
    ensures ReceiveResult(s.receiver, s.channel[0]) == FirstTime || ReceiveResult(s.receiver, s.channel[0]) == Duplicate
  {
    var t := Next(timeout, hardLimit, s, Deliver);
    DeliverCompares(s);
    if |s.sent| - |s.channel| == |s.delivered| {
      FlowsSnoc(Start, s.delivered, s.channel[0]);
      DeliverBookkeeping(s, t);
    }
    LaterSnapshots(s, t);
  }

  /** Snapshots stay true while the receiver only goes forward. */
  lemma LaterSnapshots(s: System, t: System)
    requires Controls(s) && s.completed <= t.completed
    requires s.receiver.received.command <= t.receiver.received.command
    ensures forall cs :: cs in s.completions ==> Snapshot(t, cs)
  {
    forall cs | cs in s.completions ensures Snapshot(t, cs) {
      assert Snapshot(s, cs);
    }
  }

  lemma DeliverBookkeeping(s: System, t: System)
    requires Bookkeeping(s) && s.receiver.expected == s.receiver.received
    requires s.channel != [] && s.receiver.expected.Accepts(s.channel[0]) && s.channel[0].segment != Control
    requires t.receiver == Receive(s.receiver, s.channel[0])
    requires t.sender == s.sender && t.completed == s.completed
    ensures Bookkeeping(t)
  {
    assert Current(t.receiver.received) == s.receiver.received.command;
    forall c
      ensures Begun(t.receiver.received, c) <==> Begun(s.receiver.received, c) || c == s.receiver.received.command
    {
    }
  }

  lemma CompleteKeeps(timeout: nat, hardLimit: nat, s: System, command: nat, cumulative: bool, first: int)
    requires Inv(s) && Enabled(s, CompleteCommand(command, cumulative, first))
    ensures Inv(Next(timeout, hardLimit, s, CompleteCommand(command, cumulative, first)))
  {
    var t := Next(timeout, hardLimit, s, CompleteCommand(command, cumulative, first));
    assert Begun(s.receiver.received, first);
    forall c | first <= c <= command ensures c in t.completed {
      assert Begun(s.receiver.received, c);
    }
    LaterSnapshots(s, t);
  }

  lemma SendCompletionKeeps(timeout: nat, hardLimit: nat, s: System, snapshot: seq<Range>)
    requires Inv(s) && Enabled(s, SendCompletion(snapshot))
    ensures Inv(Next(timeout, hardLimit, s, SendCompletion(snapshot)))
  {
    var t := Next(timeout, hardLimit, s, SendCompletion(snapshot));
    if snapshot != [] {
      var last := |snapshot| - 1;
      InOrder(snapshot, 0, last);
      assert snapshot[0].Has(snapshot[0].begin) && snapshot[0].Has(snapshot[0].end - 1);
      assert snapshot[last].Has(snapshot[last].end - 1);
      assert snapshot[0].begin in s.completed && snapshot[0].end - 1 in s.completed;
      assert snapshot[last].end - 1 in s.completed;
      assert Begun(s.receiver.received, snapshot[0].begin);
    }
    assert Snapshot(t, snapshot);
    LaterSnapshots(s, t);
  }

  lemma ConfirmTail(s: System, c: nat)
    requires Histories(s) && c <= s.receiver.received.command
    ensures Histories(s.(sender := Confirm(s.sender, c)))
  {
    ReceivedAtMostSent(s);
    ConfirmKeeps(s.sender, c);
    TailShrinks(s.sent, s.sender.replayList, s.sender.replayPoint,
                Skip(s.sender.replayPoint, s.sender.replayList, c));
  }

  lemma DeliverCompletionKeeps(timeout: nat, hardLimit: nat, s: System, snapshot: seq<Range>)
    requires Inv(s) && Enabled(s, DeliverCompletion(snapshot))
    ensures Inv(Next(timeout, hardLimit, s, DeliverCompletion(snapshot)))
  {
    assert Snapshot(s, snapshot);
    DeliverCompletionHistories(s, snapshot);
    DeliverCompletionControls(s, snapshot);
  }

  lemma DeliverCompletionControls(s: System, snapshot: seq<Range>)
    requires Bookkeeping(s) && Controls(s) && SenderInv(s.sender) && snapshot in s.completions && Snapshot(s, snapshot)
    requires Flows(s.sender.replayPoint, s.sender.replayList)
    ensures var t := s.(sender := CompleteSent(s.sender, snapshot), knowns := s.knowns + {snapshot});
            Bookkeeping(t) && Controls(t)
  {
    CompleteSentKeeps(s.sender, snapshot);
    LaterSnapshots(s, s.(sender := CompleteSent(s.sender, snapshot), knowns := s.knowns + {snapshot}));
  }

  lemma DeliverCompletionHistories(s: System, snapshot: seq<Range>)
    requires Histories(s) && Snapshot(s, snapshot)
    ensures Histories(s.(sender := CompleteSent(s.sender, snapshot)))
  {
    ReceivedAtMostSent(s);
    if snapshot != [] {
      var u := s.(sender := s.sender.(incomplete := s.sender.incomplete - Elements(snapshot)));
      ConfirmTail(u, snapshot[0].end);
      assert CompleteSent(s.sender, snapshot) == Confirm(u.sender, snapshot[0].end);
    }
  }

  lemma DeliverConfirmationKeeps(timeout: nat, hardLimit: nat, s: System, c: Confirmation)
    requires Inv(s) && Enabled(s, DeliverConfirmation(c))
    ensures Inv(Next(timeout, hardLimit, s, DeliverConfirmation(c)))
  {
    var t := Next(timeout, hardLimit, s, DeliverConfirmation(c));
    ReceivedAtMostSent(s);
    ConfirmKeeps(s.sender, c.upTo);
    ConfirmTail(s, c.upTo);
    LaterSnapshots(s, t);
  }

  lemma DeliverKnownCompletedKeeps(timeout: nat, hardLimit: nat, s: System, k: seq<Range>)
    requires Inv(s) && Enabled(s, DeliverKnownCompleted(k))
    ensures Inv(Next(timeout, hardLimit, s, DeliverKnownCompleted(k)))
    ensures KnownInRange(s.receiver, k)
  {
    var t := Next(timeout, hardLimit, s, DeliverKnownCompleted(k));
    assert Snapshot(s, k);
    LaterSnapshots(s, t);
  }

  /** A resume is never refused on either side, and puts exactly the missing frames in flight. */
  lemma ResumeKeeps(timeout: nat, hardLimit: nat, s: System, from: nat)
    requires Inv(s) && Enabled(s, Resume(from))
    ensures Inv(Next(timeout, hardLimit, s, Resume(from)))
    ensures s.sender.replayPoint.AtMost(Point(from, 0)) && Point(from, 0).AtMost(s.sender.sendPoint)
    ensures PointInRange(s.receiver, s.receiverStateful, Point(from, 0))
  {
    var t := Next(timeout, hardLimit, s, Resume(from));
    ReceivedAtMostSent(s);
    SkipToBoundary(s.sender.replayPoint, s.sender.replayList, from);
    TailShrinks(s.sent, s.sender.replayList, s.sender.replayPoint,
                Skip(s.sender.replayPoint, s.sender.replayList, from));
    LaterSnapshots(s, t);
  }

  /** No step, in any order, breaks the invariant. */
  lemma StepKeeps(timeout: nat, hardLimit: nat, s: System, a: Action)
    requires Inv(s) && Enabled(s, a) && timeout != 0
    ensures Walkable(s) && Inv(Next(timeout, hardLimit, s, a))
  {
    assert forall cs: seq<Range> :: cs in s.completions ==> Snapshot(s, cs);
    match a
    case Send(f) => SendKeeps(timeout, hardLimit, s, f);
    case FlushSent =>
      FlushKeeps(s.sender);
      LaterSnapshots(s, Next(timeout, hardLimit, s, a));
    case Deliver => DeliverKeeps(timeout, hardLimit, s);
    case CompleteCommand(command, cumulative, first) =>
      CompleteKeeps(timeout, hardLimit, s, command, cumulative, first);
    case SendCompletion(snapshot) => SendCompletionKeeps(timeout, hardLimit, s, snapshot);
    case SendConfirmation(front) => LaterSnapshots(s, Next(timeout, hardLimit, s, a));
    case DeliverCompletion(snapshot) => DeliverCompletionKeeps(timeout, hardLimit, s, snapshot);
    case DeliverConfirmation(c) => DeliverConfirmationKeeps(timeout, hardLimit, s, c);
    case DeliverKnownCompleted(commands) => DeliverKnownCompletedKeeps(timeout, hardLimit, s, commands);
    case Detach => LaterSnapshots(s, Next(timeout, hardLimit, s, a));
    case Resume(from) => ResumeKeeps(timeout, hardLimit, s, from);
  }

  // ================================================================ whole runs

  ghost predicate Run(timeout: nat, hardLimit: nat, states: seq<System>, actions: seq<Action>) {
    && |states| == |actions| + 1 && states[0] == Init
    && forall i :: 0 <= i < |actions| ==>
         && Walkable(states[i]) && Enabled(states[i], actions[i])
         && states[i + 1] == Next(timeout, hardLimit, states[i], actions[i])
  }

  lemma {:induction false} Reached(timeout: nat, hardLimit: nat, states: seq<System>, actions: seq<Action>, i: nat)
    requires timeout != 0 && Run(timeout, hardLimit, states, actions) && i < |states|
    ensures Inv(states[i])
  {
    if i > 0 {
      Reached(timeout, hardLimit, states, actions, i - 1);
      StepKeeps(timeout, hardLimit, states[i - 1], actions[i - 1]);
    }
  }

  /** A run can always take any step its environment allows: the code never meets a list it cannot walk. */
  lemma NeverStuck(timeout: nat, hardLimit: nat, states: seq<System>, actions: seq<Action>, a: Action)
    requires timeout != 0 && Run(timeout, hardLimit, states, actions)
    requires Enabled(states[|actions|], a)
    ensures Walkable(states[|actions|])
    ensures Run(timeout, hardLimit, states + [Next(timeout, hardLimit, states[|actions|], a)], actions + [a])
  {
    Reached(timeout, hardLimit, states, actions, |actions|);
    var n, last := |actions|, states[|actions|];
    StepKeeps(timeout, hardLimit, last, a);
    var states', actions' := states + [Next(timeout, hardLimit, last, a)], actions + [a];
    forall i | 0 <= i < |actions'|
      ensures Walkable(states'[i]) && Enabled(states'[i], actions'[i])
      ensures states'[i + 1] == Next(timeout, hardLimit, states'[i], actions'[i])
    {
      assert states'[i] == states[i];
      if i < n { assert actions'[i] == actions[i] && states'[i + 1] == states[i + 1]; }
    }
  }

  /**
    Over any run, with any number of broken connections and resumes: the frames the
    receiver takes as new are, in order, a prefix of the frames the sender recorded, none
    is taken back, and once nothing is in flight they are all of them.
   */
  lemma ExactlyOnceInOrder(timeout: nat, hardLimit: nat, states: seq<System>, actions: seq<Action>, i: nat)
    requires timeout != 0 && Run(timeout, hardLimit, states, actions) && i < |states|
    ensures states[i].delivered <= states[i].sent
    ensures i > 0 ==> states[i - 1].delivered <= states[i].delivered && states[i - 1].sent <= states[i].sent
    ensures states[i].attached && states[i].channel == [] ==> states[i].delivered == states[i].sent
  {
    Reached(timeout, hardLimit, states, actions, i);
    AllDelivered(states[i]);
    if i > 0 {
      HistoriesGrow(timeout, hardLimit, states[i - 1], actions[i - 1]);
    }
  }

  lemma AllDelivered(s: System)
    requires Inv(s)
    ensures s.attached && s.channel == [] ==> s.delivered == s.sent
  {
    if s.attached && s.channel == [] && |s.delivered| < |s.sent| {
      assert s.sent[..|s.sent|] == s.sent && s.sent[..|s.delivered|] == s.delivered;
      PastGrows(Start, s.sent, |s.delivered|, |s.sent|);
    }
  }

  lemma HistoriesGrow(timeout: nat, hardLimit: nat, s: System, a: Action)
    requires Walkable(s) && Enabled(s, a)
    ensures s.delivered <= Next(timeout, hardLimit, s, a).delivered
    ensures s.sent <= Next(timeout, hardLimit, s, a).sent
  {
  }

  /** The counters, points and list of the sender agree at every moment of every run. */
  lemma SenderAlwaysConsistent(timeout: nat, hardLimit: nat, states: seq<System>, actions: seq<Action>, i: nat)
    requires timeout != 0 && Run(timeout, hardLimit, states, actions) && i < |states|
    ensures SenderInv(states[i].sender)
    ensures states[i].sender.unflushedSize >= 0 && states[i].sender.replaySize >= states[i].sender.unflushedSize
  {
    Reached(timeout, hardLimit, states, actions, i);
    UnflushedAtMostAll(states[i].sender.replayPoint, states[i].sender.replayList, states[i].sender.flushPoint);
  }

  /** A frame recorded in any reachable state ends the session exactly when there is a limit that its bytes pass. */
  lemma HardLimitExactly(timeout: nat, hardLimit: nat, states: seq<System>, actions: seq<Action>, i: nat, f: Frame)
    requires timeout != 0 && Run(timeout, hardLimit, states, actions) && i < |states|
    requires f.segment != Control && Enabled(states[i], Send(f))
    ensures Walkable(states[i])
    ensures Next(timeout, hardLimit, states[i], Send(f)).attached <==>
            hardLimit == 0 ||
            Bytes(states[i].sender.replayList) + f.bodySize + (if f.segment == Payload then 12 else 14) <= hardLimit
  {
    Reached(timeout, hardLimit, states, actions, i);
    ResumeAlwaysPossible(timeout, hardLimit, states, actions, i);
  }

  /** The bytes of the frames that arrived since the last report of known completions, as a run tells them. */
  ghost function ArrivedSince(states: seq<System>, actions: seq<Action>, i: nat): nat
    requires i <= |actions| <= |states|
  {
    if i == 0 then 0 else
      match actions[i - 1]
      case DeliverKnownCompleted(_) => 0
      case Deliver =>
        var q := states[i - 1].channel;
        ArrivedSince(states, actions, i - 1) + (if q == [] then 0 else q[0].EncodedSize())
      case _ => ArrivedSince(states, actions, i - 1)
  }

  /** The next frame in flight is a data frame that the receiver accepts. */
  lemma NextAccepted(s: System)
    requires Inv(s) && s.channel != []
    ensures s.channel[0].segment != Control && s.receiver.expected.Accepts(s.channel[0])
  {
    var k := |s.sent| - |s.channel|;
    FlowsConcat(Start, s.sent[..k], s.channel);
    assert s.sent == s.sent[..k] + s.channel;
  }

  lemma SentCount(timeout: nat, hardLimit: nat, s: System, a: Action)
    requires Walkable(s) && Enabled(s, a)
    ensures var t := Next(timeout, hardLimit, s, a);
            t.sender.sinceKnownCompleted - s.sender.sinceKnownCompleted == Bytes(t.sent) - Bytes(s.sent)
  {
    if a.Send? {
      BytesConcat(s.sent, [a.f]);
      assert Bytes([a.f]) == a.f.EncodedSize() by { assert [a.f][1..] == []; }
    }
  }

  /** A report of known completions is never refused. */
  lemma ReceivedCount(timeout: nat, hardLimit: nat, s: System, a: Action)
    requires Inv(s) && Walkable(s) && Enabled(s, a)
    ensures Next(timeout, hardLimit, s, a).receiver.sinceKnownCompleted ==
            if a.DeliverKnownCompleted? then 0
            else s.receiver.sinceKnownCompleted + (if a.Deliver? then s.channel[0].EncodedSize() else 0)
  {
    if a.Deliver? {
      NextAccepted(s);
    } else if a.DeliverKnownCompleted? {
      assert Snapshot(s, a.commands);
    }
  }

  /** In every run the sender's count is of all bytes sent, and the receiver's of those that arrived since a report. */
  lemma {:induction false} CountsSinceKnown(
    timeout: nat, hardLimit: nat, states: seq<System>, actions: seq<Action>, i: nat)
    requires timeout != 0 && Run(timeout, hardLimit, states, actions) && i < |states|
    ensures states[i].sender.sinceKnownCompleted == Bytes(states[i].sent)
    ensures states[i].receiver.sinceKnownCompleted == ArrivedSince(states, actions, i)
  {
    if i > 0 {
      CountsSinceKnown(timeout, hardLimit, states, actions, i - 1);
      Reached(timeout, hardLimit, states, actions, i - 1);
      SentCount(timeout, hardLimit, states[i - 1], actions[i - 1]);
      ReceivedCount(timeout, hardLimit, states[i - 1], actions[i - 1]);
    }
  }

  lemma {:induction false} UnflushedAtMostAll(p: Point, fs: seq<Frame>, flush: Point)
    requires Flows(p, fs)
    ensures Unflushed(p, fs, flush) <= Bytes(fs)
    decreases |fs|
  {
    if fs != [] { UnflushedAtMostAll(p.Advance(fs[0]), fs[1..], flush); }
  }

  /**
    However stale the completions the sender has seen, it can always replay from the
    command the receiver is in: the range checks on both sides pass, and the frames it
    hands back are those of that command and later ones, all of them.
   */
  lemma ResumeAlwaysPossible(timeout: nat, hardLimit: nat, states: seq<System>, actions: seq<Action>, i: nat)
    requires timeout != 0 && Run(timeout, hardLimit, states, actions) && i < |states|
    ensures Walkable(states[i])
    ensures var s := states[i];
            var p := Point(s.receiver.received.command, 0);
            && s.sender.replayPoint.AtMost(p) && p.AtMost(s.sender.sendPoint)
            && PointInRange(s.receiver, s.receiverStateful, p)
            && Tail(s.sent, ToReplay(s.sender, p.command), p)
            && Flows(p, ToReplay(s.sender, p.command)) && Past(p, ToReplay(s.sender, p.command)) == s.sender.sendPoint
  {
    Reached(timeout, hardLimit, states, actions, i);
    var s := states[i];
    ReceivedAtMostSent(s);
    ReplayReaches(s.sender, s.receiver.received.command);
    SkipToBoundary(s.sender.replayPoint, s.sender.replayList, s.receiver.received.command);
    TailShrinks(s.sent, s.sender.replayList, s.sender.replayPoint,
                Skip(s.sender.replayPoint, s.sender.replayList, s.receiver.received.command));
  }

  /** All frames in flight arrive. */
  ghost function Drain(timeout: nat, hardLimit: nat, s: System): System
    requires Inv(s)
    decreases |s.channel|
  {
    if s.channel == [] then s else
      DeliverKeeps(timeout, hardLimit, s);
      Drain(timeout, hardLimit, Next(timeout, hardLimit, s, Deliver))
  }

  lemma {:induction false} DrainDelivers(timeout: nat, hardLimit: nat, s: System)
    requires Inv(s) && s.attached
    ensures Drain(timeout, hardLimit, s).delivered == s.sent
    decreases |s.channel|
  {
    if s.channel == [] {
      AllDelivered(s);
    } else {
      DeliverKeeps(timeout, hardLimit, s);
      DrainDelivers(timeout, hardLimit, Next(timeout, hardLimit, s, Deliver));
    }
  }

  /** From any broken connection, one resume and the arrival of what it replays recovers everything. */
  lemma ResumeRecovers(timeout: nat, hardLimit: nat, states: seq<System>, actions: seq<Action>, i: nat, from: nat)
    requires timeout != 0 && Run(timeout, hardLimit, states, actions) && i < |states|
    requires Enabled(states[i], Resume(from))
    ensures Inv(states[i]) && Inv(Next(timeout, hardLimit, states[i], Resume(from)))
    ensures Drain(timeout, hardLimit, Next(timeout, hardLimit, states[i], Resume(from))).delivered == states[i].sent
  {
    Reached(timeout, hardLimit, states, actions, i);
    StepKeeps(timeout, hardLimit, states[i], Resume(from));
    DrainDelivers(timeout, hardLimit, Next(timeout, hardLimit, states[i], Resume(from)));
  }

  /**
    Receiver bookkeeping and completion end to end: the commands received are contiguous
    and are either incomplete or completed; a sent command that the sender no longer
    lists as incomplete was completed by the receiver; and a completed command the
    receiver no longer reports is one the sender knows about.
   */
  lemma CompletionEndToEnd(timeout: nat, hardLimit: nat, states: seq<System>, actions: seq<Action>, i: nat, c: int)
    requires timeout != 0 && Run(timeout, hardLimit, states, actions) && i < |states|
    ensures var s := states[i];
            && s.receiver.expected.AtMost(s.receiver.received)
            && (Begun(s.receiver.received, c) <==> c in s.receiver.incomplete || c in s.completed)
            && !(c in s.receiver.incomplete && c in s.completed)
            && (c in s.receiver.unknownCompleted ==> c in s.completed && c < s.receiver.received.command)
            && (Begun(s.sender.sendPoint, c) && c !in s.sender.incomplete ==> c in s.completed)
            && (c in s.completed && c !in s.receiver.unknownCompleted ==> c !in s.sender.incomplete)
  {
    Reached(timeout, hardLimit, states, actions, i);
  }

  /** A completed command stops being reported only when the sender has named it known-completed. */
  lemma ReportedUntilKnown(timeout: nat, hardLimit: nat, s: System, a: Action, c: int)
    requires timeout != 0 && Inv(s) && Enabled(s, a)
    requires c in s.receiver.unknownCompleted
    ensures Walkable(s)
    ensures c !in Next(timeout, hardLimit, s, a).receiver.unknownCompleted ==>
              a.DeliverKnownCompleted? && c in Elements(a.commands) && c !in s.sender.incomplete
  {
    StepKeeps(timeout, hardLimit, s, a);
  }
}
