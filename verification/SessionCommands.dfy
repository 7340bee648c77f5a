/**
  What a stream of frames is made of, told by the four position flags of its frames alone: whole commands, one
  after the other, and perhaps the beginning of one more. A session point counts the commands that are whole and
  the bytes of the one that is not.
 */
module SessionCommands {
  import opened SessionPoints

  /** Data frames of which only the first begins a command, with a method, and none ends it. */
  predicate Opening(fs: seq<Frame>) {
    && fs != [] && (forall k :: 0 <= k < |fs| ==> fs[k].segment != Control)
    && fs[0].segment == Command && fs[0].firstSegment && fs[0].firstFrame
    && (forall k :: 1 <= k < |fs| ==> !(fs[k].firstSegment && fs[k].firstFrame))
    && (forall k :: 0 <= k < |fs| ==> !(fs[k].lastSegment && fs[k].lastFrame))
  }

  /** The same, except that the last frame, and only the last, ends the command. */
  predicate Whole(fs: seq<Frame>) {
    && fs != [] && (forall k :: 0 <= k < |fs| ==> fs[k].segment != Control)
    && fs[0].segment == Command && fs[0].firstSegment && fs[0].firstFrame
    && (forall k :: 1 <= k < |fs| ==> !(fs[k].firstSegment && fs[k].firstFrame))
    && (forall k :: 0 <= k < |fs| - 1 ==> !(fs[k].lastSegment && fs[k].lastFrame))
    && fs[|fs| - 1].lastSegment && fs[|fs| - 1].lastFrame
  }

  lemma OpeningSplits(fs: seq<Frame>)
    requires |fs| > 1 && (Opening(fs) || Whole(fs))
    ensures Opening(fs[..|fs| - 1])
  {
  }

  lemma {:induction false} OpeningFlows(c: nat, fs: seq<Frame>)
    requires Opening(fs)
    ensures Flows(Point(c, 0), fs) && Past(Point(c, 0), fs) == Point(c, Bytes(fs)) && Bytes(fs) > 0
  {
    var n := |fs| - 1;
    if n == 0 {
      assert fs == [fs[0]] && fs[1..] == [];
    } else {
      OpeningSplits(fs);
      OpeningFlows(c, fs[..n]);
      assert fs == fs[..n] + [fs[n]];
      FlowsSnoc(Point(c, 0), fs[..n], fs[n]);
      BytesConcat(fs[..n], [fs[n]]);
      assert [fs[n]][1..] == [];
    }
  }

  /** A whole command is accepted from any command boundary and leads to the next one, and to none on the way. */
  lemma WholeFlows(c: nat, fs: seq<Frame>)
    requires Whole(fs)
    ensures Flows(Point(c, 0), fs) && Past(Point(c, 0), fs) == Point(c + 1, 0)
    ensures forall k :: 0 < k < |fs| ==>
              && Flows(Point(c, 0), fs[..k]) && Bytes(fs[..k]) > 0
              && Past(Point(c, 0), fs[..k]) == Point(c, Bytes(fs[..k]))
  {
    var n := |fs| - 1;
    if n == 0 {
      assert fs == [fs[0]] && fs[1..] == [];
    } else {
      OpeningSplits(fs);
      OpeningFlows(c, fs[..n]);
      assert fs == fs[..n] + [fs[n]];
      FlowsSnoc(Point(c, 0), fs[..n], fs[n]);
    }
    forall k | 0 < k < |fs|
      ensures Flows(Point(c, 0), fs[..k]) && Bytes(fs[..k]) > 0
      ensures Past(Point(c, 0), fs[..k]) == Point(c, Bytes(fs[..k]))
    {
      assert Opening(fs[..k]);
      OpeningFlows(c, fs[..k]);
    }
  }

  // ------------------------------------------------------------ streams

  function Flat(commands: seq<seq<Frame>>): seq<Frame> {
    if commands == [] then [] else Flat(commands[..|commands| - 1]) + commands[|commands| - 1]
  }

  predicate AllWhole(commands: seq<seq<Frame>>) {
    forall k :: 0 <= k < |commands| ==> Whole(commands[k])
  }

  /** A stream: whole commands, and then nothing or the beginning of one. */
  predicate Parts(fs: seq<Frame>, commands: seq<seq<Frame>>, begun: seq<Frame>) {
    fs == Flat(commands) + begun && AllWhole(commands) && (begun == [] || Opening(begun))
  }

  lemma {:induction false} FlatFlows(c: nat, commands: seq<seq<Frame>>)
    requires AllWhole(commands)
    ensures Flows(Point(c, 0), Flat(commands)) && Past(Point(c, 0), Flat(commands)) == Point(c + |commands|, 0)
    decreases |commands|
  {
    if commands != [] {
      var n := |commands| - 1;
      FlatFlows(c, commands[..n]);
      WholeFlows(c + n, commands[n]);
      FlowsConcat(Point(c, 0), Flat(commands[..n]), commands[n]);
    }
  }

  lemma PartsFlow(c: nat, fs: seq<Frame>, commands: seq<seq<Frame>>, begun: seq<Frame>)
    requires Parts(fs, commands, begun)
    ensures Flows(Point(c, 0), fs) && Past(Point(c, 0), fs) == Point(c + |commands|, Bytes(begun))
  {
    FlatFlows(c, commands);
    if begun != [] {
      OpeningFlows(c + |commands|, begun);
    }
    FlowsConcat(Point(c, 0), Flat(commands), begun);
  }

  /** A frame more goes on with the command that was begun, or begins one where none was. */
  predicate Follows(begun: seq<Frame>, f: Frame) {
    f.segment != Control && if begun == [] then f.segment == Command && f.firstSegment && f.firstFrame
                            else !(f.firstSegment && f.firstFrame)
  }

  lemma LastWhole(begun: seq<Frame>, f: Frame)
    requires (begun == [] || Opening(begun)) && Follows(begun, f)
    ensures if f.lastSegment && f.lastFrame then Whole(begun + [f]) else Opening(begun + [f])
  {
  }

  lemma FlatSnoc(commands: seq<seq<Frame>>, last: seq<Frame>)
    requires AllWhole(commands) && Whole(last)
    ensures Flat(commands + [last]) == Flat(commands) + last && AllWhole(commands + [last])
  {
    assert (commands + [last])[..|commands|] == commands;
  }

  lemma Assoc(a: seq<Frame>, b: seq<Frame>, f: Frame)
    ensures a + b + [f] == a + (b + [f]) && a + (b + [f]) == a + (b + [f]) + []
  {
  }

  lemma PartsSnoc(fs: seq<Frame>, commands: seq<seq<Frame>>, begun: seq<Frame>, f: Frame)
    requires Parts(fs, commands, begun) && Follows(begun, f)
    ensures f.lastSegment && f.lastFrame ==> Parts(fs + [f], commands + [begun + [f]], [])
    ensures !(f.lastSegment && f.lastFrame) ==> Parts(fs + [f], commands, begun + [f])
  {
    var last := begun + [f];
    LastWhole(begun, f);
    Assoc(Flat(commands), begun, f);
    if f.lastSegment && f.lastFrame {
      FlatSnoc(commands, last);
    }
  }

  /** What acceptance of a data frame says about its flags, and where it leads. */
  lemma StepRead(p: Point, f: Frame)
    requires f.segment != Control && p.Accepts(f)
    ensures p.offset == 0 <==> f.firstSegment && f.firstFrame
    ensures p.offset == 0 ==> f.segment == Command
    ensures p.Advance(f) == if f.lastSegment && f.lastFrame then Point(p.command + 1, 0)
                            else Point(p.command, p.offset + f.EncodedSize())
  {
  }

  lemma {:induction false} FlowHasParts(c: nat, fs: seq<Frame>) returns (commands: seq<seq<Frame>>, begun: seq<Frame>)
    requires Flows(Point(c, 0), fs)
    ensures Parts(fs, commands, begun)
    decreases |fs|
  {
    if fs == [] {
      commands, begun := [], [];
    } else {
      var k := |fs| - 1;
      PastStep(Point(c, 0), fs, k);
      commands, begun := FlowHasParts(c, fs[..k]);
      PartsFlow(c, fs[..k], commands, begun);
      NextFrame(Point(c, 0), fs[..k], begun, fs[k]);
      PartsSnoc(fs[..k], commands, begun, fs[k]);
      assert fs == fs[..k] + [fs[k]];
      if fs[k].lastSegment && fs[k].lastFrame {
        commands, begun := commands + [begun + [fs[k]]], [];
      } else {
        begun := begun + [fs[k]];
      }
    }
  }

  lemma NextFrame(p: Point, fs: seq<Frame>, begun: seq<Frame>, f: Frame)
    requires Flows(p, fs) && Past(p, fs).offset == Bytes(begun) && f.segment != Control && Past(p, fs).Accepts(f)
    requires begun == [] || Opening(begun)
    ensures Follows(begun, f)
  {
    StepRead(Past(p, fs), f);
    if begun != [] {
      OpeningFlows(0, begun);
    }
  }

  /** The frames are `n` whole commands and `bytes` bytes of one more. */
  ghost predicate Stream(fs: seq<Frame>, n: nat, bytes: nat) {
    exists commands, begun :: Parts(fs, commands, begun) && |commands| == n && Bytes(begun) == bytes
  }

  /**
    From a command boundary, exactly the streams of whole commands, with perhaps the beginning of one more, are
    accepted; and the point reached counts the commands and the bytes of the one begun.
   */
  lemma AcceptedExactly(c: nat, fs: seq<Frame>, n: nat, bytes: nat)
    ensures Stream(fs, n, bytes) <==> Flows(Point(c, 0), fs) && Past(Point(c, 0), fs) == Point(c + n, bytes)
  {
    if Stream(fs, n, bytes) {
      var commands, begun :| Parts(fs, commands, begun) && |commands| == n && Bytes(begun) == bytes;
      PartsFlow(c, fs, commands, begun);
    }
    if Flows(Point(c, 0), fs) && Past(Point(c, 0), fs) == Point(c + n, bytes) {
      var commands, begun := FlowHasParts(c, fs);
      PartsFlow(c, fs, commands, begun);
    }
  }

  /** Which error a data frame raises: a beginning inside a command, a beginning without a method, or none begun. */
  lemma Refusals(p: Point, f: Frame)
    requires f.segment != Control
    ensures p.TryAdvance(f) == UnexpectedStart <==> f.firstSegment && f.firstFrame && p.offset != 0
    ensures p.TryAdvance(f) == InvalidStartType <==>
            f.firstSegment && f.firstFrame && p.offset == 0 && f.segment != Command
    ensures p.TryAdvance(f) == UnexpectedContinuation <==> !(f.firstSegment && f.firstFrame) && p.offset == 0
  {
  }
}
