/**
  The two halves of a session as values: what each operation of SessionState does to
  the send state and to the receive state, and the invariants that hold between calls.
  Command sets are plain sets here; a set that arrives in a control is the canonical
  list of ranges it is on the wire.
 */
module SessionModel {
  import opened SessionPoints
  import opened RangeLists

  // ================================================================ send state

  datatype Sender = Sender(
    replayPoint: Point,
    flushPoint: Point,
    sendPoint: Point,
    replayList: seq<Frame>,
    unflushedSize: int,
    replaySize: int,
    incomplete: set<int>,
    sinceKnownCompleted: int)

  const NewSender := Sender(Start, Start, Start, [], 0, 0, {}, 0)

  /** Bytes of the frames that end past `flush`. */
  function Unflushed(p: Point, fs: seq<Frame>, flush: Point): nat
    requires Flows(p, fs)
    decreases |fs|
  {
    if fs == [] then 0 else
      (if flush.Less(p.Advance(fs[0])) then fs[0].EncodedSize() else 0) + Unflushed(p.Advance(fs[0]), fs[1..], flush)
  }

  /** Commands of which a session at point `p` has seen at least one frame. */
  ghost predicate Begun(p: Point, c: int) {
    0 <= c < p.command || (c == p.command && p.offset > 0)
  }

  ghost predicate SenderInv(s: Sender) {
    && s.replayPoint.offset == 0
    && s.replayPoint.AtMost(s.flushPoint) && s.flushPoint.AtMost(s.sendPoint)
    && Flows(s.replayPoint, s.replayList)
    && Past(s.replayPoint, s.replayList) == s.sendPoint
    && s.replaySize == Bytes(s.replayList)
    && s.unflushedSize == Unflushed(s.replayPoint, s.replayList, s.flushPoint)
    && (forall c :: c in s.incomplete ==> Begun(s.sendPoint, c))
  }

  /** A session that keeps no frames for replay: without a timeout the list stays empty while the counters grow. */
  ghost predicate Unkept(s: Sender) {
    s.replayList == [] && s.replayPoint.offset == 0
  }

  datatype RecordOutcome = Ignored | Kept | BadFrame(why: Advanced) | HardLimitExceeded

  /** senderRecord: every counter and the list change before the point moves. */
  function Record(s: Sender, timeout: nat, f: Frame): Sender {
    if f.segment == Control then s else
      var n := f.EncodedSize();
      s.(replayList := if timeout != 0 then s.replayList + [f] else s.replayList,
         unflushedSize := s.unflushedSize + n,
         sinceKnownCompleted := s.sinceKnownCompleted + n,
         replaySize := s.replaySize + n,
         incomplete := s.incomplete + {s.sendPoint.command},
         sendPoint := if s.sendPoint.Accepts(f) then s.sendPoint.Advance(f) else s.sendPoint)
  }

  function RecordResult(s: Sender, timeout: nat, hardLimit: nat, f: Frame): RecordOutcome {
    if f.segment == Control then Ignored
    else if !s.sendPoint.Accepts(f) then BadFrame(s.sendPoint.TryAdvance(f))
    else if hardLimit != 0 && hardLimit < Record(s, timeout, f).replaySize then HardLimitExceeded
    else Kept
  }

  /** senderRecordFlush. */
  function Flush(s: Sender): Sender {
    s.(flushPoint := s.sendPoint, unflushedSize := 0)
  }

  /** senderConfirmed up to command `c`, once the range check has passed. */
  function Confirm(s: Sender, c: nat): Sender
    requires Flows(s.replayPoint, s.replayList)
  {
    var k := Skip(s.replayPoint, s.replayList, c);
    PrefixFlows(s.replayPoint, s.replayList, k);
    var gone := s.replayList[..k];
    var p := Past(s.replayPoint, gone);
    s.(replayPoint := p,
       replayList := s.replayList[k..],
       replaySize := s.replaySize - Bytes(gone),
       unflushedSize := s.unflushedSize - Unflushed(s.replayPoint, gone, s.flushPoint),
       flushPoint := if s.flushPoint.Less(p) then p else s.flushPoint)
  }

  /** senderCompleted: forget the commands, then confirm to the end of the first run. */
  function CompleteSent(s: Sender, commands: seq<Range>): Sender
    requires Flows(s.replayPoint, s.replayList)
    requires commands != [] ==> commands[0].end >= 0
  {
    if commands == [] then s else
      var t := s.(incomplete := s.incomplete - Elements(commands));
      if s.sendPoint.Less(Point(commands[0].end, 0)) then t else Confirm(t, commands[0].end)
  }

  /** Without a timeout the sender never comes to keep a frame, whatever it records, flushes, confirms or completes. */
  lemma UnkeptStays(s: Sender, f: Frame, c: nat, commands: seq<Range>)
    requires Unkept(s) && (commands != [] ==> commands[0].end >= 0)
    ensures Unkept(Record(s, 0, f)) && Unkept(Flush(s)) && Unkept(Confirm(s, c)) && Unkept(CompleteSent(s, commands))
    ensures Confirm(s, c).replaySize == s.replaySize && Confirm(s, c).unflushedSize == s.unflushedSize
  {
  }

  /** The frames senderExpected hands back for replay, once the range check has passed. */
  function ToReplay(s: Sender, c: nat): seq<Frame>
    requires Flows(s.replayPoint, s.replayList)
  {
    s.replayList[Skip(s.replayPoint, s.replayList, c)..]
  }

  // ---------------------------------------------------------------- what they keep

  lemma {:induction false} UnflushedConcat(p: Point, a: seq<Frame>, b: seq<Frame>, flush: Point)
    requires Flows(p, a) && Flows(Past(p, a), b)
    ensures Flows(p, a + b)
    ensures Unflushed(p, a + b, flush) == Unflushed(p, a, flush) + Unflushed(Past(p, a), b, flush)
    decreases |a|
  {
    FlowsConcat(p, a, b);
    if a == [] {
      assert a + b == b;
    } else {
      assert (a + b)[1..] == a[1..] + b;
      UnflushedConcat(p.Advance(a[0]), a[1..], b, flush);
    }
  }

  /** Past the flush point every byte counts. */
  lemma {:induction false} UnflushedAll(p: Point, fs: seq<Frame>, flush: Point)
    requires Flows(p, fs) && flush.AtMost(p)
    ensures Unflushed(p, fs, flush) == Bytes(fs)
    decreases |fs|
  {
    if fs != [] {
      UnflushedAll(p.Advance(fs[0]), fs[1..], flush);
    }
  }

  /** Up to the flush point none does. */
  lemma {:induction false} UnflushedNone(p: Point, fs: seq<Frame>, flush: Point)
    requires Flows(p, fs) && Past(p, fs).AtMost(flush)
    ensures Unflushed(p, fs, flush) == 0
    decreases |fs|
  {
    if fs != [] {
      assert fs[..1][0] == fs[0];
      PastGrows(p, fs, 1, |fs|);
      assert fs[..|fs|] == fs && fs[..1][1..] == [];
      UnflushedNone(p.Advance(fs[0]), fs[1..], flush);
    }
  }

  /**
    Recording keeps the invariant exactly when the frame is a control, or the session has
    a timeout and the frame continues the command in progress.
   */
  lemma RecordKeeps(s: Sender, timeout: nat, f: Frame)
    requires SenderInv(s)
    ensures SenderInv(Record(s, timeout, f)) <==>
            f.segment == Control || (timeout != 0 && s.sendPoint.Accepts(f))
  {
    if f.segment != Control {
      var t := Record(s, timeout, f);
      FlowsSnoc(s.replayPoint, s.replayList, f);
      BytesConcat(s.replayList, [f]);
      assert Bytes([f]) == f.EncodedSize() by { assert [f][1..] == []; }
      if timeout != 0 && s.sendPoint.Accepts(f) {
        assert Unflushed(s.sendPoint, [f], s.flushPoint) == f.EncodedSize() by { assert [f][1..] == []; }
        UnflushedConcat(s.replayPoint, s.replayList, [f], s.flushPoint);
      }
    }
  }

  lemma FlushKeeps(s: Sender)
    requires SenderInv(s)
    ensures SenderInv(Flush(s))
  {
    UnflushedNone(s.replayPoint, s.replayList, s.sendPoint);
  }

  /** The unflushed bytes of a prefix never exceed those of the whole, so no counter underflows. */
  lemma ConfirmKeeps(s: Sender, c: nat)
    requires SenderInv(s) && c <= s.sendPoint.command
    ensures SenderInv(Confirm(s, c))
    ensures Confirm(s, c).replayPoint == Point(Max(s.replayPoint.command, c), 0)
    ensures Confirm(s, c).sendPoint == s.sendPoint && Confirm(s, c).incomplete == s.incomplete
  {
    var rp, fs := s.replayPoint, s.replayList;
    var k := Skip(rp, fs, c);
    var t := Confirm(s, c);
    if rp.command <= c {
      SkipToBoundary(rp, fs, c);
    } else {
      assert k == 0 && fs[..k] == [] && fs[k..] == fs;
    }
    assert fs == fs[..k] + fs[k..];
    BytesConcat(fs[..k], fs[k..]);
    PrefixFlows(rp, fs, k);
    UnflushedConcat(rp, fs[..k], fs[k..], s.flushPoint);
    PastGrows(rp, fs, k, |fs|);
    assert fs[..|fs|] == fs;
    if s.flushPoint.Less(t.replayPoint) {
      UnflushedAll(t.replayPoint, fs[k..], s.flushPoint);
      UnflushedAll(t.replayPoint, fs[k..], t.replayPoint);
    }
  }

  lemma CompleteSentKeeps(s: Sender, commands: seq<Range>)
    requires SenderInv(s) && Canonical(commands) && (commands != [] ==> commands[0].begin >= 0)
    ensures SenderInv(CompleteSent(s, commands))
    ensures CompleteSent(s, commands).sendPoint == s.sendPoint
    ensures CompleteSent(s, commands).incomplete == s.incomplete - Elements(commands)
    ensures CompleteSent(s, commands).replayPoint ==
            if commands == [] || s.sendPoint.Less(Point(commands[0].end, 0)) then s.replayPoint
            else Point(Max(s.replayPoint.command, commands[0].end), 0)
  {
    if commands != [] {
      var t := s.(incomplete := s.incomplete - Elements(commands));
      if !s.sendPoint.Less(Point(commands[0].end, 0)) {
        ConfirmKeeps(t, commands[0].end);
      }
    } else {
      assert Elements(commands) == {};
    }
  }

  /**
    Replay from a command in range always starts on the boundary of that command and
    leads to the send point: the assertion in senderExpected cannot fail.
   */
  lemma ReplayReaches(s: Sender, c: nat)
    requires SenderInv(s) && s.replayPoint.command <= c <= s.sendPoint.command
    ensures Flows(Point(c, 0), ToReplay(s, c)) && Past(Point(c, 0), ToReplay(s, c)) == s.sendPoint
  {
    SkipToBoundary(s.replayPoint, s.replayList, c);
  }

  // ================================================================ receive state

  datatype Receiver = Receiver(
    expected: Point,
    received: Point,
    unknownCompleted: set<int>,
    incomplete: set<int>,
    sinceKnownCompleted: int)

  const NewReceiver := Receiver(Start, Start, {}, {}, 0)

  datatype ReceiveOutcome = NotTracked | FirstTime | Duplicate | Malformed(why: Advanced)

  /** receiverGetCurrent: the command that the point just reached belongs to. */
  function Current(p: Point): int {
    if p.offset == 0 then p.command - 1 else p.command
  }

  function Receive(r: Receiver, f: Frame): Receiver {
    if f.segment == Control || !r.expected.Accepts(f) then r else
      var e := r.expected.Advance(f);
      var t := r.(expected := e, sinceKnownCompleted := r.sinceKnownCompleted + f.EncodedSize());
      if r.received.Less(e) then t.(received := e, incomplete := r.incomplete + {Current(e)}) else t
  }

  function ReceiveResult(r: Receiver, f: Frame): ReceiveOutcome {
    if f.segment == Control then NotTracked
    else if !r.expected.Accepts(f) then Malformed(r.expected.TryAdvance(f))
    else if r.received.Less(r.expected.Advance(f)) then FirstTime
    else Duplicate
  }

  /** receiverSetCommandPoint is refused for a point past what was received, once there is state. */
  predicate PointInRange(r: Receiver, stateful: bool, p: Point) {
    stateful ==> p.AtMost(r.received)
  }

  function SetPoint(r: Receiver, p: Point): Receiver {
    r.(expected := p, received := if r.received.Less(p) then p else r.received)
  }

  /** receiverCompleted starts at the command itself, or at the first incomplete one. */
  ghost predicate CompletesFrom(r: Receiver, command: int, cumulative: bool, first: int) {
    if cumulative then first in r.incomplete && first <= command && forall c :: c in r.incomplete ==> first <= c
    else first == command
  }

  /** receiverCompleted over the closed range `first..last`. */
  function Complete(r: Receiver, first: int, last: int): Receiver {
    r.(unknownCompleted := r.unknownCompleted + Range(first, last + 1).Elements(),
       incomplete := r.incomplete - Range(first, last + 1).Elements())
  }

  predicate KnownInRange(r: Receiver, commands: seq<Range>) {
    commands == [] || commands[|commands| - 1].end <= r.received.command
  }

  function KnownCompleted(r: Receiver, commands: seq<Range>): Receiver {
    r.(sinceKnownCompleted := 0,
       unknownCompleted := r.unknownCompleted - Elements(commands))
  }
}
