/**
  A query answered in a stream of messages: the agent queues results and sends them off
  eight at a time, the console puts them back together until the message that is not
  marked partial.
 */
module QueryStreams {

  import opened Options

  /** A handle to a data object; a default-constructed handle refers to none. */
  datatype Handle = NoData | Data(id: nat)

  datatype Message = Message(partial: bool, body: seq<nat>)

  const BATCH := 8

  // ------------------------------------------------------------ the queue

  /** The data before the first empty handle: what one flush sends. */
  function Ready(q: seq<Handle>): seq<nat> {
    if q == [] || q[0].NoData? then [] else [q[0].id] + Ready(q[1..])
  }

  /** What a flush leaves in the queue; it drops the handle it stopped at. */
  function Left(q: seq<Handle>): seq<Handle> {
    if q == [] then [] else if q[0].NoData? then q[1..] else Left(q[1..])
  }

  /** A flush sends the data up to the first empty handle, and drops them and that handle. */
  lemma {:induction false} FlushTakes(q: seq<Handle>)
    ensures var k := |Ready(q)|;
            && k <= |q| && (forall i :: 0 <= i < k ==> q[i] == Data(Ready(q)[i]))
            && (if k < |q| then q[k] == NoData && Left(q) == q[k + 1..] else Left(q) == [])
  {
    if q != [] && q[0].Data? {
      FlushTakes(q[1..]);
      var k := |Ready(q[1..])|;
      assert k < |q[1..]| ==> q[1..][k + 1..] == q[k + 2..];
      assert forall i :: 0 < i <= k ==> q[i] == q[1..][i - 1];
    }
  }

  /** The same two, once the head `d` has been taken off and `rest` is in the queue. */
  function Pending(d: Handle, rest: seq<Handle>): seq<nat> {
    if d.Data? then [d.id] + Ready(rest) else []
  }

  function After(d: Handle, rest: seq<Handle>): seq<Handle> {
    if d.Data? then Left(rest) else rest
  }

  lemma DequeueSplits(q: seq<Handle>, d: Handle, rest: seq<Handle>)
    requires if q == [] then d == NoData && rest == [] else d == q[0] && rest == q[1..]
    ensures Ready(q) == Pending(d, rest) && Left(q) == After(d, rest)
  {
  }

  lemma MoveOne(body: seq<nat>, id: nat, rest: seq<nat>)
    ensures body + ([id] + rest) == body + [id] + rest
  {
  }

  function Handles(ids: seq<nat>): (q: seq<Handle>)
    ensures |q| == |ids|
  {
    if ids == [] then [] else [Data(ids[0])] + Handles(ids[1..])
  }

  lemma {:induction false} ReadyHandles(ids: seq<nat>)
    ensures Ready(Handles(ids)) == ids && Left(Handles(ids)) == []
  {
    if ids != [] {
      ReadyHandles(ids[1..]);
      assert Handles(ids)[1..] == Handles(ids[1..]);
    }
  }

  lemma {:induction false} HandlesSnoc(ids: seq<nat>, id: nat)
    ensures Handles(ids + [id]) == Handles(ids) + [Data(id)]
  {
    if ids == [] {
      assert ids + [id] == [id] && [id][1..] == [];
    } else {
      assert (ids + [id])[1..] == ids[1..] + [id];
      HandlesSnoc(ids[1..], id);
    }
  }

  class AgentEvent {
    var dataQueue: seq<Handle>

    constructor ()
      ensures dataQueue == []
    {
      dataQueue := [];
    }

    method EnqueueData(d: Handle) returns (count: nat)
      modifies this
      ensures dataQueue == old(dataQueue) + [d] && count == |dataQueue|
    {
      dataQueue := dataQueue + [d];
      count := |dataQueue|;
    }

    method DequeueData() returns (d: Handle)
      modifies this
      ensures old(dataQueue) == [] ==> d == NoData && dataQueue == []
      ensures old(dataQueue) != [] ==> d == old(dataQueue)[0] && dataQueue == old(dataQueue)[1..]
    {
      if dataQueue == [] {
        return NoData;
      }
      d := dataQueue[0];
      dataQueue := dataQueue[1..];
    }
  }

  // ------------------------------------------------------------ the agent

  class AgentSession {
    var outbox: seq<Message>

    constructor ()
      ensures outbox == []
    {
      outbox := [];
    }

    method FlushResponses(event: AgentEvent, final: bool)
      modifies this, event
      ensures event.dataQueue == Left(old(event.dataQueue))
      ensures outbox == old(outbox) + [Message(!final, Ready(old(event.dataQueue)))]
    {
      ghost var q := event.dataQueue;
      var body: seq<nat> := [];
      var data := event.DequeueData();
      DequeueSplits(q, data, event.dataQueue);
      assert [] + Ready(q) == Ready(q);
      while data.Data?
        invariant outbox == old(outbox)
        invariant Ready(q) == body + Pending(data, event.dataQueue)
        invariant Left(q) == After(data, event.dataQueue)
        decreases |event.dataQueue|, data.Data?
      {
        ghost var rest := event.dataQueue;
        MoveOne(body, data.id, Ready(rest));
        body := body + [data.id];
        data := event.DequeueData();
        DequeueSplits(rest, data, event.dataQueue);
      }
      assert body + [] == body;
      outbox := outbox + [Message(!final, body)];
    }

    method Response(event: AgentEvent, data: Handle)
      modifies this, event
      ensures var q := old(event.dataQueue) + [data];
              if |q| < BATCH then event.dataQueue == q && outbox == old(outbox)
              else event.dataQueue == Left(q) && outbox == old(outbox) + [Message(true, Ready(q))]
    {
      var count := event.EnqueueData(data);
      if count >= BATCH {
        FlushResponses(event, false);
      }
    }

    method Complete(event: AgentEvent)
      modifies this, event
      ensures event.dataQueue == Left(old(event.dataQueue))
      ensures outbox == old(outbox) + [Message(false, Ready(old(event.dataQueue)))]
    {
      FlushResponses(event, true);
    }

    /** Answering a query: a response for each result, then completion. */
    method Answer(results: seq<nat>)
      modifies this
      ensures outbox == old(outbox) + Stream(results)
    {
      var event := new AgentEvent();
      ghost var pending: seq<nat> := [];
      ghost var all := outbox + Stream(results);
      assert [] + results == results;
      for k := 0 to |results|
        invariant |pending| < BATCH && event.dataQueue == Handles(pending)
        invariant Owing(outbox, pending, results[k..]) == all
      {
        assert results[k..] == [results[k]] + results[k + 1..];
        OneMore(outbox, pending, results[k], results[k + 1..]);
        HandlesSnoc(pending, results[k]);
        ReadyHandles(pending + [results[k]]);
        Response(event, Data(results[k]));
        pending := if |pending| + 1 < BATCH then pending + [results[k]] else [];
      }
      ReadyHandles(pending);
      assert pending + results[|results|..] == pending;
      Complete(event);
    }
  }

  // ------------------------------------------------------------ what the stream looks like

  /** Full batches marked partial, then one message, never full and possibly empty, that is not. */
  function Stream(results: seq<nat>): seq<Message> {
    if |results| < BATCH then [Message(false, results)]
    else [Message(true, results[..BATCH])] + Stream(results[BATCH..])
  }

  lemma StreamBatch(batch: seq<nat>, more: seq<nat>)
    requires |batch| == BATCH
    ensures Stream(batch + more) == [Message(true, batch)] + Stream(more)
  {
    assert (batch + more)[..BATCH] == batch && (batch + more)[BATCH..] == more;
  }

  /** What will have been sent in the end, with `pending` queued and `more` still to come. */
  function Owing(sent: seq<Message>, pending: seq<nat>, more: seq<nat>): seq<Message> {
    sent + Stream(pending + more)
  }

  lemma OneMore(sent: seq<Message>, pending: seq<nat>, id: nat, more: seq<nat>)
    requires |pending| < BATCH
    ensures Owing(sent, pending, [id] + more) ==
            if |pending| + 1 < BATCH then Owing(sent, pending + [id], more)
            else Owing(sent + [Message(true, pending + [id])], [], more)
  {
    var next := pending + [id];
    assert pending + ([id] + more) == next + more;
    if |next| == BATCH {
      StreamBatch(next, more);
      assert [] + more == more;
      assert sent + ([Message(true, next)] + Stream(more)) == sent + [Message(true, next)] + Stream(more);
    }
  }

  lemma {:induction false} StreamLength(results: seq<nat>)
    ensures |Stream(results)| == |results| / BATCH + 1
  {
    if |results| >= BATCH {
      StreamLength(results[BATCH..]);
    }
  }

  lemma {:induction false} StreamAt(results: seq<nat>, k: nat)
    requires k < |Stream(results)|
    ensures BATCH * k <= |results|
    ensures if BATCH * (k + 1) <= |results|
            then Stream(results)[k] == Message(true, results[BATCH * k..BATCH * (k + 1)])
            else Stream(results)[k] == Message(false, results[BATCH * k..])
  {
    if k > 0 {
      var rest := results[BATCH..];
      assert Stream(results)[k] == Stream(rest)[k - 1];
      StreamAt(rest, k - 1);
      SliceAfter(results, BATCH, BATCH * (k - 1));
    }
  }

  lemma SliceAfter(s: seq<nat>, n: nat, from: nat)
    requires n + from <= |s|
    ensures s[n..][from..] == s[n + from..]
    ensures n + from + BATCH <= |s| ==> s[n..][from..from + BATCH] == s[n + from..n + from + BATCH]
  {
  }

  /** n/8 + 1 messages; all but the last are partial and hold exactly eight; the last holds the remainder. */
  lemma {:induction false} StreamShape(results: seq<nat>)
    ensures var ms := Stream(results);
            && |ms| == |results| / 8 + 1
            && (forall k :: 0 <= k < |ms| - 1 ==> ms[k].partial && ms[k].body == results[8 * k..8 * (k + 1)])
            && !ms[|ms| - 1].partial && ms[|ms| - 1].body == results[8 * (|ms| - 1)..]
  {
    var ms := Stream(results);
    StreamLength(results);
    forall k | 0 <= k < |ms| - 1
      ensures ms[k].partial && ms[k].body == results[BATCH * k..BATCH * (k + 1)]
    {
      StreamAt(results, k);
    }
    StreamAt(results, |ms| - 1);
  }

  // ------------------------------------------------------------ the console

  datatype Response = Response(data: seq<nat>, final: bool)

  /** What a message does to the response collected so far. */
  function Collect(response: Option<Response>, msg: Message): Response {
    var r := if response.Some? then response.value else Response([], false);
    Response(r.data + msg.body, r.final || !msg.partial)
  }

  class SyncContext {
    var response: Option<Response>

    constructor ()
      ensures response == None
    {
      response := None;
    }

    method HandleQueryResponse(msg: Message)
      modifies this
      ensures response == Some(Collect(old(response), msg))
    {
      var r := if response.Some? then response.value else Response([], false);
      ghost var start := r;
      for k := 0 to |msg.body|
        invariant r == Response(start.data + msg.body[..k], start.final)
      {
        assert msg.body[..k + 1] == msg.body[..k] + [msg.body[k]];
        r := r.(data := r.data + [msg.body[k]]);
      }
      assert msg.body[..|msg.body|] == msg.body;
      if !msg.partial {
        r := r.(final := true);
      }
      response := Some(r);
    }
  }

  /** The response after the messages of a stream have arrived in order. */
  function CollectAll(response: Option<Response>, ms: seq<Message>): Option<Response> {
    if ms == [] then response else Some(Collect(CollectAll(response, ms[..|ms| - 1]), ms[|ms| - 1]))
  }

  /**
    Whatever the number of results: after each message but the last the response holds
    the results so far and is not final; after the last it is final and holds all of
    them, in order.
   */
  lemma {:induction false} StreamConserves(results: seq<nat>, k: nat)
    requires 1 <= k <= |Stream(results)|
    ensures k < |Stream(results)| ==> BATCH * k <= |results|
    ensures CollectAll(None, Stream(results)[..k]) ==
            Some(if k < |Stream(results)| then Response(results[..BATCH * k], false) else Response(results, true))
  {
    StreamShape(results);
    var ms := Stream(results);
    assert ms[..k][..k - 1] == ms[..k - 1];
    if k == 1 {
      assert ms[..0] == [];
      assert CollectAll(None, ms[..1]) == Some(Collect(None, ms[0]));
      assert [] + ms[0].body == ms[0].body;
    } else {
      StreamConserves(results, k - 1);
      var so := results[..BATCH * (k - 1)];
      if k < |ms| {
        assert so + results[BATCH * (k - 1)..BATCH * k] == results[..BATCH * k];
      } else {
        assert so + results[BATCH * (k - 1)..] == results;
      }
    }
  }

  /** The console takes in the messages of a stream one after the other. */
  method Gather(ms: seq<Message>) returns (response: Option<Response>)
    ensures response == CollectAll(None, ms)
  {
    var context := new SyncContext();
    for k := 0 to |ms|
      invariant context.response == CollectAll(None, ms[..k])
    {
      assert ms[..k + 1][..k] == ms[..k];
      context.HandleQueryResponse(ms[k]);
    }
    assert ms[..|ms|] == ms;
    response := context.response;
  }

  /** A query from end to end: the agent answers, the messages arrive in order, the console is given them all. */
  method QueryEndToEnd(results: seq<nat>) returns (r: Response)
    ensures r == Response(results, true)
  {
    var agent := new AgentSession();
    agent.Answer(results);
    assert [] + Stream(results) == Stream(results);
    var response := Gather(agent.outbox);
    StreamConserves(results, |Stream(results)|);
    assert Stream(results)[..|Stream(results)|] == Stream(results);
    r := response.value;
  }
}
