/**
  SessionState as the object it is: points, counters, a replay list and three command
  sets that the operations update in place. Each method is proved to do to the object
  exactly what the functions of SessionModel do to the values it holds.
 */
module SessionStates {
  import opened Options
  import opened SessionPoints
  import opened RangeLists
  import opened RangeSets
  import opened SessionModel

  class SessionState {
    // Configuration
    const replayHardLimit: nat
    var timeout: nat
    var stateful: bool
    var trackingDisabled: bool

    // Send state
    var replayPoint: Point
    var flushPoint: Point
    var sendPoint: Point
    var replayList: seq<Frame>
    var unflushedSize: int
    var replaySize: int
    const sentIncomplete: RangeSet
    var sentSinceKnownCompleted: int

    // Receive state
    var expected: Point
    var received: Point
    const unknownCompleted: RangeSet
    const receivedIncomplete: RangeSet
    var receivedSinceKnownCompleted: int

    ghost predicate Valid()
      reads this, sentIncomplete, unknownCompleted, receivedIncomplete
    {
      && sentIncomplete != unknownCompleted && sentIncomplete != receivedIncomplete
      && unknownCompleted != receivedIncomplete
      && sentIncomplete.Valid() && unknownCompleted.Valid() && receivedIncomplete.Valid()
    }

    ghost function SendState(): Sender
      reads this, sentIncomplete
    {
      Sender(replayPoint, flushPoint, sendPoint, replayList, unflushedSize, replaySize,
             sentIncomplete.Contents(), sentSinceKnownCompleted)
    }

    ghost function ReceiveState(): Receiver
      reads this, unknownCompleted, receivedIncomplete
    {
      Receiver(expected, received, unknownCompleted.Contents(), receivedIncomplete.Contents(),
               receivedSinceKnownCompleted)
    }

    constructor (hardLimit: nat)
      ensures Valid() && SendState() == NewSender && ReceiveState() == NewReceiver
      ensures fresh(sentIncomplete) && fresh(unknownCompleted) && fresh(receivedIncomplete)
      ensures replayHardLimit == hardLimit && timeout == 0 && !stateful && !trackingDisabled
    {
      replayHardLimit := hardLimit;
      timeout, stateful, trackingDisabled := 0, false, false;
      replayPoint, flushPoint, sendPoint := Start, Start, Start;
      replayList, unflushedSize, replaySize, sentSinceKnownCompleted := [], 0, 0, 0;
      expected, received, receivedSinceKnownCompleted := Start, Start, 0;
      sentIncomplete := new RangeSet();
      unknownCompleted := new RangeSet();
      receivedIncomplete := new RangeSet();
    }

    // ------------------------------------------------------------ sender

    method SenderRecord(f: Frame) returns (o: RecordOutcome)
      requires Valid()
      modifies `stateful, `replayList, `unflushedSize, `sentSinceKnownCompleted, `replaySize, `sendPoint
      modifies sentIncomplete
      ensures Valid() && SendState() == Record(old(SendState()), timeout, f)
      ensures o == RecordResult(old(SendState()), timeout, replayHardLimit, f)
      ensures stateful == (old(stateful) || f.segment != Control)
      ensures o == Ignored <==> f.segment == Control
      ensures o.BadFrame? <==> f.segment != Control && !old(sendPoint).Accepts(f)
      ensures f.segment != Control && old(sendPoint).Accepts(f) && old(SenderInv(SendState())) ==>
                (o == HardLimitExceeded <==>
                 replayHardLimit != 0 && Bytes(old(replayList)) + f.EncodedSize() > replayHardLimit)
    {
      if f.segment == Control {
        return Ignored;
      }
      stateful := true;
      if timeout != 0 {
        replayList := replayList + [f];
      }
      unflushedSize := unflushedSize + f.EncodedSize();
      sentSinceKnownCompleted := sentSinceKnownCompleted + f.EncodedSize();
      replaySize := replaySize + f.EncodedSize();
      sentIncomplete.AddNumber(sendPoint.command);
      assert SendState() == Record(old(SendState()), timeout, f).(sendPoint := sendPoint);
      var step := sendPoint.TryAdvance(f);
      if step.Moved? {
        sendPoint := step.to;
        o := if replayHardLimit != 0 && replayHardLimit < replaySize then HardLimitExceeded else Kept;
      } else {
        o := BadFrame(step);
      }
    }

    method SenderRecordFlush()
      modifies `flushPoint, `unflushedSize
      ensures SendState() == Flush(old(SendState()))
      ensures flushPoint == sendPoint && unflushedSize == 0
    {
      flushPoint := sendPoint;
      unflushedSize := 0;
    }

    /** Returns whether the point was in range; the two counters never go below zero on the way. */
    method SenderConfirmed(confirmed: Point) returns (ok: bool)
      requires Valid() && (SenderInv(SendState()) || Unkept(SendState()))
      modifies `replayPoint, `flushPoint, `replayList, `unflushedSize, `replaySize
      ensures ok <==> confirmed.AtMost(sendPoint)
      ensures SendState() == if ok then Confirm(old(SendState()), confirmed.command) else old(SendState())
    {
      if sendPoint.Less(confirmed) {
        return false;
      }
      ghost var s := SendState();
      var i := ConfirmWalk(confirmed.command);
      ConfirmEnds(s, confirmed.command, i, replayPoint, replaySize, unflushedSize);
      if flushPoint.Less(replayPoint) {
        flushPoint := replayPoint;
      }
      replayList := replayList[i..];
      assert replayPoint.offset == 0;
      ok := true;
    }

    /** The loop of senderConfirmed: past each frame of the commands before `c`. */
    method ConfirmWalk(c: nat) returns (i: nat)
      requires SenderInv(SendState()) || Unkept(SendState())
      modifies `replayPoint, `unflushedSize, `replaySize
      ensures Confirming(old(SendState()), c, i, replayPoint, replaySize, unflushedSize)
      ensures i == |replayList| || (i < |replayList| && replayPoint.command >= c)
    {
      ghost var s := SendState();
      i := 0;
      ConfirmBegins(s, c);
      while i < |replayList| && replayPoint.command < c
        invariant Confirming(s, c, i, replayPoint, replaySize, unflushedSize)
      {
        ConfirmStep(s, c, i, replayPoint, replaySize, unflushedSize);
        replayPoint := replayPoint.Advance(replayList[i]);
        assert replayPoint.AtMost(sendPoint);
        assert replaySize >= replayList[i].EncodedSize();
        replaySize := replaySize - replayList[i].EncodedSize();
        if flushPoint.Less(replayPoint) {
          assert unflushedSize >= replayList[i].EncodedSize();
          unflushedSize := unflushedSize - replayList[i].EncodedSize();
        }
        i := i + 1;
      }
    }

    /** Returns whether the confirmation that completion implies was in range. */
    method SenderCompleted(commands: RangeSet) returns (ok: bool)
      requires Valid() && (SenderInv(SendState()) || Unkept(SendState())) && commands.Valid()
      requires commands != sentIncomplete
      requires commands.ranges != [] ==> commands.ranges[0].begin >= 0
      modifies `replayPoint, `flushPoint, `replayList, `unflushedSize, `replaySize
      modifies sentIncomplete
      ensures Valid() && SendState() == CompleteSent(old(SendState()), commands.ranges)
      ensures ok <==> commands.ranges == [] || commands.ranges[0].end <= sendPoint.command
    {
      if commands.ranges == [] {
        return true;
      }
      InOrder(commands.ranges, 0, 0);
      sentIncomplete.RemoveSet(commands);
      ok := SenderConfirmed(Point(commands.ranges[0].end, 0));
    }

    /**
      The frames to replay from command `from.command`, or None when that is out of range. A session that keeps no
      frames can only be asked for the command at its replay point, as the assertion in the source demands.
     */
    method SenderExpected(from: Point) returns (frames: Option<seq<Frame>>)
      requires Valid()
      requires || SenderInv(SendState())
               || (&& Unkept(SendState())
                   && (replayPoint.AtMost(from) && from.AtMost(sendPoint) ==> from.command == replayPoint.command))
      ensures frames.Some? <==> replayPoint.AtMost(from) && from.AtMost(sendPoint)
      ensures frames.Some? ==> frames.value == ToReplay(SendState(), from.command)
      ensures frames.Some? && SenderInv(SendState()) ==>
                Flows(Point(from.command, 0), frames.value) && Past(Point(from.command, 0), frames.value) == sendPoint
    {
      if from.Less(replayPoint) || sendPoint.Less(from) {
        return None;
      }
      ghost var kept := SenderInv(SendState());
      if kept {
        ReplayReaches(SendState(), from.command);
      }
      var i, p := 0, replayPoint;
      assert replayList[0..] == replayList;
      while i < |replayList| && p.command < from.command
        invariant i <= |replayList| && Flows(p, replayList[i..])
        invariant kept ==> Past(p, replayList[i..]) == sendPoint
        invariant kept ==> p.command <= from.command
        invariant !kept ==> p == replayPoint
        invariant Skip(replayPoint, replayList, from.command) == i + Skip(p, replayList[i..], from.command)
      {
        assert replayList[i..][0] == replayList[i] && replayList[i..][1..] == replayList[i + 1..];
        p := p.Advance(replayList[i]);
        i := i + 1;
      }
      assert p.command == from.command;
      frames := Some(replayList[i..]);
    }

    // ------------------------------------------------------------ receiver

    /** Returns whether the point was accepted. */
    method ReceiverSetCommandPoint(point: Point) returns (ok: bool)
      requires Valid()
      modifies `expected, `received
      ensures ok <==> PointInRange(old(ReceiveState()), stateful, point)
      ensures !ok <==> stateful && old(received).Less(point)
      ensures ok ==> expected == point && received == if old(received).Less(point) then point else old(received)
      ensures ReceiveState() == if ok then SetPoint(old(ReceiveState()), point) else old(ReceiveState())
    {
      if stateful && received.Less(point) {
        return false;
      }
      expected := point;
      if received.Less(expected) {
        received := expected;
      }
      ok := true;
    }

    /** The frame is to be processed unless the outcome is Duplicate or Malformed. */
    method ReceiverRecord(f: Frame) returns (o: ReceiveOutcome)
      requires Valid()
      modifies `stateful, `expected, `received, `receivedSinceKnownCompleted
      modifies receivedIncomplete
      ensures Valid()
      ensures trackingDisabled ==> o == NotTracked && ReceiveState() == old(ReceiveState())
      ensures !trackingDisabled ==> o == ReceiveResult(old(ReceiveState()), f)
      ensures !trackingDisabled ==> ReceiveState() == Receive(old(ReceiveState()), f)
      ensures stateful == (old(stateful) || (!trackingDisabled && f.segment != Control))
      ensures o == FirstTime <==>
              && !trackingDisabled && f.segment != Control && old(expected).Accepts(f)
              && old(received).Less(old(expected).Advance(f))
      ensures o == FirstTime || o == Duplicate ==> expected == old(expected).Advance(f)
      ensures received == if o == FirstTime then expected else old(received)
    {
      if trackingDisabled || f.segment == Control {
        return NotTracked;
      }
      stateful := true;
      var step := expected.TryAdvance(f);
      if !step.Moved? {
        return Malformed(step);
      }
      expected := step.to;
      receivedSinceKnownCompleted := receivedSinceKnownCompleted + f.EncodedSize();
      if received.Less(expected) {
        received := expected;
        receivedIncomplete.AddNumber(Current(expected));
        o := FirstTime;
      } else {
        o := Duplicate;
      }
    }

    /** Completing a command twice is an internal error; cumulative completes all before it too. */
    method ReceiverCompleted(command: nat, cumulative: bool)
      requires Valid()
      requires !trackingDisabled ==> command in receivedIncomplete.Contents()
      modifies unknownCompleted, receivedIncomplete
      ensures Valid()
      ensures trackingDisabled ==> ReceiveState() == old(ReceiveState())
      ensures !trackingDisabled ==>
                && command in unknownCompleted.Contents() && command !in receivedIncomplete.Contents()
                && (forall c :: c in old(receivedIncomplete.Contents()) && c != command && (cumulative ==> c > command)
                      ==> c in receivedIncomplete.Contents())
                && (cumulative ==> forall c :: c in receivedIncomplete.Contents() ==> c > command)
      ensures !trackingDisabled ==>
                exists first :: CompletesFrom(old(ReceiveState()), command, cumulative, first) &&
                                ReceiveState() == Complete(old(ReceiveState()), first, command)
    {
      if trackingDisabled {
        return;
      }
      FrontIsLeast(receivedIncomplete.ranges, command);
      var first := if cumulative then receivedIncomplete.ranges[0].begin else command;
      unknownCompleted.AddClosed(first, command);
      receivedIncomplete.RemoveClosed(first, command);
      assert CompletesFrom(old(ReceiveState()), command, cumulative, first);
      assert unknownCompleted.Contents() == old(unknownCompleted.Contents()) + Range(first, command + 1).Elements();
      assert receivedIncomplete.Contents() == old(receivedIncomplete.Contents()) - Range(first, command + 1).Elements();
    }

    /** Returns whether the commands all lie below the command being received. */
    method ReceiverKnownCompleted(commands: RangeSet) returns (ok: bool)
      requires Valid() && commands.Valid() && commands != unknownCompleted
      modifies `receivedSinceKnownCompleted, unknownCompleted
      ensures Valid() && (ok <==> KnownInRange(old(ReceiveState()), commands.ranges))
      ensures ReceiveState() == if ok then KnownCompleted(old(ReceiveState()), commands.ranges)
                                else old(ReceiveState())
      ensures ok <==> forall c :: c in commands.Contents() ==> c < received.command
      ensures ok ==> unknownCompleted.Contents() == old(unknownCompleted.Contents()) - commands.Contents()
    {
      LastIsGreatest(commands.ranges);
      if commands.ranges != [] && commands.ranges[|commands.ranges| - 1].end > received.command {
        assert commands.ranges[|commands.ranges| - 1].end - 1 in commands.Contents();
        return false;
      }
      receivedSinceKnownCompleted := 0;
      unknownCompleted.RemoveSet(commands);
      ok := true;
    }
  }

  // ------------------------------------------------------------ the confirmation loop

  lemma LastIsGreatest(rs: seq<Range>)
    requires Canonical(rs)
    ensures rs != [] ==> rs[|rs| - 1].end - 1 in Elements(rs)
    ensures rs != [] ==> forall x :: x in Elements(rs) ==> x < rs[|rs| - 1].end
    ensures rs == [] ==> Elements(rs) == {}
  {
    if rs != [] {
      var n := |rs| - 1;
      InOrder(rs, n, n);
      assert rs[n].Has(rs[n].end - 1);
      forall x | x in Elements(rs) ensures x < rs[n].end {
        var i :| 0 <= i < |rs| && rs[i].Has(x);
        InOrder(rs, i, n);
      }
    }
  }

  lemma FrontIsLeast(rs: seq<Range>, x: int)
    requires Canonical(rs) && x in Elements(rs)
    ensures rs != [] && rs[0].begin in Elements(rs) && rs[0].begin <= x
    ensures forall y :: y in Elements(rs) ==> rs[0].begin <= y
  {
    CanonicalOrdered(rs);
    assert rs[0].Has(rs[0].begin);
  }

  /** The loop of senderConfirmed with `i` frames behind it. */
  ghost predicate Confirming(s: Sender, c: nat, i: nat, p: Point, size: int, unflushed: int)
    requires SenderInv(s) || Unkept(s)
  {
    var rp, fs := s.replayPoint, s.replayList;
    if !SenderInv(s) then i == 0 && p == rp && size == s.replaySize && unflushed == s.unflushedSize
    else
      && i <= |fs| && Flows(rp, fs[..i]) && Flows(p, fs[i..])
      && p == Past(rp, fs[..i])
      && Skip(rp, fs, c) == i + Skip(p, fs[i..], c)
      && size == s.replaySize - Bytes(fs[..i]) && size == Bytes(fs[i..])
      && unflushed == s.unflushedSize - Unflushed(rp, fs[..i], s.flushPoint)
      && unflushed == Unflushed(p, fs[i..], s.flushPoint)
  }

  lemma ConfirmBegins(s: Sender, c: nat)
    requires SenderInv(s) || Unkept(s)
    ensures Confirming(s, c, 0, s.replayPoint, s.replaySize, s.unflushedSize)
  {
    assert s.replayList[..0] == [] && s.replayList[0..] == s.replayList;
  }

  lemma ConfirmStep(s: Sender, c: nat, i: nat, p: Point, size: int, unflushed: int)
    requires (SenderInv(s) || Unkept(s)) && Confirming(s, c, i, p, size, unflushed)
    requires i < |s.replayList| && p.command < c
    ensures p.Accepts(s.replayList[i]) && p.Advance(s.replayList[i]).AtMost(s.sendPoint)
    ensures var n, q := s.replayList[i].EncodedSize(), p.Advance(s.replayList[i]);
            var m := if s.flushPoint.Less(q) then n else 0;
            size >= n && unflushed >= m && Confirming(s, c, i + 1, q, size - n, unflushed - m)
  {
    var rp, fs := s.replayPoint, s.replayList;
    ConfirmOneFrame(rp, fs, i, s.flushPoint);
    assert fs[i..][0] == fs[i] && fs[i..][1..] == fs[i + 1..];
    PastGrows(rp, fs, i + 1, |fs|);
    assert fs[..|fs|] == fs;
  }

  lemma ConfirmEnds(s: Sender, c: nat, i: nat, p: Point, size: int, unflushed: int)
    requires (SenderInv(s) || Unkept(s)) && c <= s.sendPoint.command && Confirming(s, c, i, p, size, unflushed)
    requires i == |s.replayList| || p.command >= c
    ensures p.offset == 0
    ensures Confirm(s, c) == s.(replayPoint := p, replayList := s.replayList[i..], replaySize := size,
                                unflushedSize := unflushed,
                                flushPoint := if s.flushPoint.Less(p) then p else s.flushPoint)
  {
    if SenderInv(s) {
      ConfirmKeeps(s, c);
    }
  }

  /** Moving the confirmation loop past frame `i`. */
  lemma ConfirmOneFrame(rp: Point, fs: seq<Frame>, i: nat, flush: Point)
    requires Flows(rp, fs) && i < |fs|
    ensures Flows(rp, fs[..i]) && Flows(rp, fs[..i + 1])
    ensures Bytes(fs[..i + 1]) == Bytes(fs[..i]) + fs[i].EncodedSize()
    ensures Past(rp, fs[..i]).Accepts(fs[i]) && Past(rp, fs[..i + 1]) == Past(rp, fs[..i]).Advance(fs[i])
    ensures Unflushed(rp, fs[..i + 1], flush) == Unflushed(rp, fs[..i], flush) +
            if flush.Less(Past(rp, fs[..i + 1])) then fs[i].EncodedSize() else 0
  {
    PastStep(rp, fs, i);
    assert fs[..i + 1] == fs[..i] + [fs[i]];
    BytesConcat(fs[..i], [fs[i]]);
    assert [fs[i]][1..] == [];
    FlowsConcat(rp, fs[..i], [fs[i]]);
    UnflushedConcat(rp, fs[..i], [fs[i]], flush);
  }
}
