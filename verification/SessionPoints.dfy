/**
  Points in an AMQP 0-10 session: a command number and a byte offset into that command.
  A point moves past frames one at a time; the frames of a command come in order, and
  control frames do not move it.
 */
module SessionPoints {

  datatype Segment = Control | Command | Payload

  /**
    What the session layer looks at in a frame: the type of its body, its four position
    flags and its encoded size. `id` stands for the rest.
   */
  datatype Frame = Frame(
    segment: Segment,
    firstSegment: bool, firstFrame: bool, lastSegment: bool, lastFrame: bool,
    bodySize: nat,
    id: nat)
  {
    /** Twelve bytes of frame header, and class and method codes on method bodies. */
    function EncodedSize(): (n: nat)
      ensures n >= 12
    {
      12 + bodySize + (if segment == Payload then 0 else 2)
    }

    predicate Starts() {
      firstSegment && firstFrame
    }

    predicate Ends() {
      lastSegment && lastFrame
    }
  }

  datatype Advanced =
    | Moved(to: Point)
    | UnexpectedStart
    | InvalidStartType
    | UnexpectedContinuation

  datatype Point = Point(command: nat, offset: nat) {

    predicate Less(q: Point) {
      command < q.command || (command == q.command && offset < q.offset)
    }

    predicate AtMost(q: Point) {
      !q.Less(this)
    }

    /** Moving past a frame, or the framing error it raises. */
    function TryAdvance(f: Frame): Advanced {
      if f.segment == Control then Moved(this)
      else if f.Starts() then
        if offset != 0 then UnexpectedStart
        else if f.segment != Command then InvalidStartType
        else if f.Ends() then Moved(Point(command + 1, offset))
        else Moved(Point(command, offset + f.EncodedSize()))
      else
        if offset == 0 then UnexpectedContinuation
        else if f.Ends() then Moved(Point(command + 1, 0))
        else Moved(Point(command, offset + f.EncodedSize()))
    }

    predicate Accepts(f: Frame) {
      TryAdvance(f).Moved?
    }

    /** The point past an accepted frame: strictly later, and at most one command on. */
    function Advance(f: Frame): (q: Point)
      requires Accepts(f)
      ensures f.segment == Control ==> q == this
      ensures f.segment != Control ==> Less(q)
      ensures q.command == command || (q.command == command + 1 && q.offset == 0)
    {
      TryAdvance(f).to
    }
  }

  const Start := Point(0, 0)

  // ------------------------------------------------ runs of frames

  /** Each frame is a data frame that the point reached so far accepts. */
  predicate Flows(p: Point, fs: seq<Frame>)
    decreases |fs|
  {
    fs == [] ||
    (fs[0].segment != Control && p.Accepts(fs[0]) && Flows(p.Advance(fs[0]), fs[1..]))
  }

  /** The point reached from `p` past all of `fs`. */
  function Past(p: Point, fs: seq<Frame>): Point
    requires Flows(p, fs)
    decreases |fs|
  {
    if fs == [] then p else Past(p.Advance(fs[0]), fs[1..])
  }

  function Bytes(fs: seq<Frame>): nat {
    if fs == [] then 0 else fs[0].EncodedSize() + Bytes(fs[1..])
  }

  lemma {:induction false} FlowsConcat(p: Point, a: seq<Frame>, b: seq<Frame>)
    ensures Flows(p, a + b) <==> Flows(p, a) && Flows(Past(p, a), b)
    ensures Flows(p, a + b) ==> Past(p, a + b) == Past(Past(p, a), b)
    decreases |a|
  {
    if a == [] {
      assert a + b == b;
    } else {
      assert (a + b)[1..] == a[1..] + b;
      if a[0].segment != Control && p.Accepts(a[0]) {
        FlowsConcat(p.Advance(a[0]), a[1..], b);
      }
    }
  }

  lemma {:induction false} BytesConcat(a: seq<Frame>, b: seq<Frame>)
    ensures Bytes(a + b) == Bytes(a) + Bytes(b)
  {
    if a == [] {
      assert a + b == b;
    } else {
      assert (a + b)[1..] == a[1..] + b;
      BytesConcat(a[1..], b);
    }
  }

  /** Later frames end at later points. */
  lemma {:induction false} PastGrows(p: Point, fs: seq<Frame>, i: nat, j: nat)
    requires Flows(p, fs) && i <= j <= |fs|
    ensures Flows(p, fs[..i]) && Flows(p, fs[..j])
    ensures Past(p, fs[..i]).AtMost(Past(p, fs[..j]))
    ensures i < j ==> Past(p, fs[..i]).Less(Past(p, fs[..j]))
  {
    PrefixFlows(p, fs, i);
    PrefixFlows(p, fs, j);
    if i < j {
      PastGrows(p, fs, i, j - 1);
      PastStep(p, fs, j - 1);
    }
  }

  lemma PrefixFlows(p: Point, fs: seq<Frame>, i: nat)
    requires Flows(p, fs) && i <= |fs|
    ensures Flows(p, fs[..i]) && Flows(Past(p, fs[..i]), fs[i..])
    ensures Past(Past(p, fs[..i]), fs[i..]) == Past(p, fs)
  {
    FlowsConcat(p, fs[..i], fs[i..]);
    assert fs[..i] + fs[i..] == fs;
  }

  lemma PastStep(p: Point, fs: seq<Frame>, i: nat)
    requires Flows(p, fs) && i < |fs|
    ensures Flows(p, fs[..i]) && Flows(p, fs[..i + 1])
    ensures fs[i].segment != Control && Past(p, fs[..i]).Accepts(fs[i])
    ensures Past(p, fs[..i + 1]) == Past(p, fs[..i]).Advance(fs[i])
  {
    PrefixFlows(p, fs, i);
    PrefixFlows(p, fs, i + 1);
    assert fs[..i + 1] == fs[..i] + [fs[i]];
    FlowsConcat(p, fs[..i], [fs[i]]);
    var q := Past(p, fs[..i]);
    assert fs[i..][0] == fs[i];
    assert Past(q, [fs[i]]) == Past(q.Advance(fs[i]), [fs[i]][1..]);
  }

  /** Recording one more frame. */
  lemma FlowsSnoc(p: Point, fs: seq<Frame>, f: Frame)
    requires Flows(p, fs)
    ensures Flows(p, fs + [f]) <==> f.segment != Control && Past(p, fs).Accepts(f)
    ensures Flows(p, fs + [f]) ==> Past(p, fs + [f]) == Past(p, fs).Advance(f)
  {
    FlowsConcat(p, fs, [f]);
    assert [f][1..] == [];
  }

  // ------------------------------------------------ command boundaries

  /** How many of `fs` lie before command `c`: the loop of confirmation and of replay. */
  function Skip(p: Point, fs: seq<Frame>, c: nat): (k: nat)
    requires Flows(p, fs)
    ensures k <= |fs|
    decreases |fs|
  {
    if fs == [] || p.command >= c then 0 else 1 + Skip(p.Advance(fs[0]), fs[1..], c)
  }

  /** Skipping ends exactly on the boundary of command `c` when the frames reach it. */
  lemma {:induction false} SkipToBoundary(p: Point, fs: seq<Frame>, c: nat)
    requires Flows(p, fs) && p.command <= c <= Past(p, fs).command
    requires p.command == c ==> p.offset == 0
    ensures var k := Skip(p, fs, c);
            && Flows(p, fs[..k]) && Past(p, fs[..k]) == Point(c, 0)
            && Flows(Point(c, 0), fs[k..]) && Past(Point(c, 0), fs[k..]) == Past(p, fs)
    decreases |fs|
  {
    var k := Skip(p, fs, c);
    if p.command >= c {
      assert fs[..k] == [] && fs[k..] == fs;
    } else if fs != [] {
      var q := p.Advance(fs[0]);
      SkipToBoundary(q, fs[1..], c);
      assert fs[..k][1..] == fs[1..][..k - 1];
      assert fs[k..] == fs[1..][k - 1..];
    }
  }
}
