/** The client of a single server: it resends the current number over a new connection after any failure. */
module SingleClient {
  import opened Wrappers
  import opened Protocol

  /** The outcome of the network part of one call. */
  datatype Exchange =
    | ConnectFailed            // no connection, so nothing was sent
    | Broken                   // the write or the read failed, timed out or met a malformed message
    | Answered(reply: Message)

  class ClientApp {
    const clientId: string
    const replicaId: string
    var nextRequestNum: nat
    var connected: bool

    constructor (clientId: string, replicaId: string)
      ensures this.clientId == clientId && this.replicaId == replicaId && nextRequestNum == 1 && !connected
    {
      this.clientId, this.replicaId, nextRequestNum, connected := clientId, replicaId, 1, false;
    }

    method DropConnection()
      modifies this`connected
      ensures !connected
    {
      connected := false;
    }

    /** One call with the given outcome of its exchange; `fails` carries the cases in which the call raises. */
    method SendIncrement(exchange: Exchange) returns (r: Result<Message>)
      requires NonBlank(clientId) && NonBlank(replicaId) && nextRequestNum >= 1
      modifies this
      ensures var request := RequestOf(clientId, replicaId, old(nextRequestNum));
              r.Ok? <==> exchange.Answered? && ValidReply(exchange.reply, request)
      ensures r.Ok? ==> r.value == exchange.reply && nextRequestNum == old(nextRequestNum) + 1 && connected
      ensures r.Err? ==> nextRequestNum == old(nextRequestNum) && !connected
    {
      // a kept connection may have been found closed: then it is opened again, which may fail
      if !connected || exchange.ConnectFailed? {
        DropConnection();
        if exchange.ConnectFailed? {
          return Err("connection was not established");
        }
        connected := true;
      }
      RequestWellFormed(clientId, replicaId, nextRequestNum);
      var request := BuildClientRequest(clientId, replicaId, nextRequestNum);
      if !exchange.Answered? {
        DropConnection();
        return Err("connection broke or timed out");
      }
      if !ValidReply(exchange.reply, request.value) {
        DropConnection();
        return Err("reply identifiers do not match request");
      }
      nextRequestNum := nextRequestNum + 1;
      return Ok(exchange.reply);
    }
  }
}

/** One such client and its server, when requests left on old connections may still arrive in any order and any
    number of times, and other clients send whatever they like. */
module ReconnectingSystem {
  import opened Wrappers
  import opened Protocol
  import opened Replica
  import opened Links

  /** `current` is the client's open connection, `awaiting` whether a call waits for its reply there. `strays` are
      all requests ever written: the network may deliver any of them again at any time. `owed` are the numbers written
      on the current connection whose answers have not been read; it only serves to state properties. */
  datatype World = World(next: nat, current: Option<Link>, awaiting: bool, strays: set<Message>, server: ReplicaState,
                         returned: seq<Message>, owed: seq<nat>)

  datatype Event =
    | Connect
    | Write(queued: bool)          // a call writes its request; it may never reach the server on this connection
    | ServeCurrent                 // the server handles the next request of the current connection
    | ServeStray(request: Message) // the server handles a copy of a request from an old connection
    | ServeOther(request: Message) // the server handles a request of another client
    | ReadReply                    // the call reads a reply
    | Cancel                       // the waiting call is cancelled from outside, which keeps the connection
    | Drop                         // the call fails or the connection is found closed

  function Init(client: string, others: set<string>): World {
    World(1, None, false, {}, Fresh(others + {client}), [], [])
  }

  function Step(c: string, r: string, w: World, e: Event): World {
    match e
    case Connect => if w.current.None? then w.(current := Some(FRESH_LINK), owed := []) else w
    case Write(queued) =>
      if w.current.Some? && !w.awaiting then
        var request := RequestOf(c, r, w.next);
        w.(current := Some(Transmit(w.current.value, request, queued)), awaiting := true,
           strays := w.strays + {request}, owed := w.owed + [w.next])
      else w
    case ServeCurrent =>
      if w.current.Some? && w.current.value.requests != [] then
        var (server, link) := Serve(r, w.server, w.current.value);
        w.(server := server, current := Some(link))
      else w
    case ServeStray(request) =>
      if request in w.strays && request.ClientRequest? then w.(server := Process(r, w.server, request).0) else w
    case ServeOther(request) =>
      if request.ClientRequest? && request.clientId != c then w.(server := Process(r, w.server, request).0) else w
    case ReadReply =>
      if w.awaiting && w.current.Some? && w.current.value.replies != [] && w.owed != [] then
        var reply := w.current.value.replies[0];
        if ValidReply(reply, RequestOf(c, r, w.next)) then
          w.(next := w.next + 1, awaiting := false, returned := w.returned + [reply],
             current := Some(w.current.value.(replies := w.current.value.replies[1..])), owed := w.owed[1..])
        else w.(current := None, awaiting := false, owed := [])
      else w
    case Cancel => w.(awaiting := false)
    case Drop => w.(current := None, awaiting := false, owed := [])
  }

  function After(c: string, r: string, w: World, run: seq<Event>): World {
    if run == [] then w else Step(c, r, After(c, r, w, run[..|run| - 1]), run[|run| - 1])
  }

  // ----- The invariant -----

  /** What the server may answer to request `m`, once the client is at `next`: the genuine reply, or, only to a number
      the client has left behind, that it is stale. */
  ghost predicate Answers(c: string, r: string, m: nat, next: nat, answered: int, reply: Message) {
    && m <= answered
    && (|| reply == ReplyOf(c, r, m, m)
        || (m < next && reply == ErrorReply(r, RequestOf(c, r, m), StaleRequest, FixedText)))
  }

  /** The replies and then the requests on the current connection belong to the numbers owed, in order; some of the last
      may be lost. */
  ghost predicate CurrentInv(c: string, r: string, next: nat, link: Link, owed: seq<nat>, answered: int) {
    && link.downstream && |link.replies| + |link.requests| <= |owed|
    && (link.upstream ==> |link.replies| + |link.requests| == |owed|)
    && (forall i :: 0 <= i < |owed| ==> 1 <= owed[i] <= next)
    && (forall i :: 0 <= i < |link.replies| ==> Answers(c, r, owed[i], next, answered, link.replies[i]))
    && (forall i :: 0 <= i < |link.requests| ==> link.requests[i] == RequestOf(c, r, owed[|link.replies| + i]))
  }

  ghost predicate Inv(c: string, r: string, w: World) {
    && w.next >= 1
    && ExactlyOnce(c, r, SlotOf(w.server, c))
    && w.next - 1 <= Links.Answered(SlotOf(w.server, c)) <= w.next
    && (forall m :: m in w.strays ==> GenuineRequest(c, r, m) && m.requestNum <= w.next)
    && (w.current.Some? ==> CurrentInv(c, r, w.next, w.current.value, w.owed, Links.Answered(SlotOf(w.server, c))))
    && |w.returned| == w.next - 1
    && (forall i :: 0 <= i < |w.returned| ==> w.returned[i] == ReplyOf(c, r, i + 1, i + 1))
  }

  /** A copy of any earlier request: an old number is answered as stale, the last one by its cached reply, and only
      the number after the last is executed, once. */
  lemma StrayServed(c: string, r: string, s: ReplicaState, n: nat)
    requires ExactlyOnce(c, r, SlotOf(s, c)) && 1 <= n <= Links.Answered(SlotOf(s, c)) + 1
    ensures var k := Links.Answered(SlotOf(s, c));
            var (s1, response) := Process(r, s, RequestOf(c, r, n));
            && ExactlyOnce(c, r, SlotOf(s1, c))
            && Links.Answered(SlotOf(s1, c)) == (if n == k + 1 then n else k)
            && (n != k + 1 ==> s1 == s)
            && (n < k <==> response == ErrorReply(r, RequestOf(c, r, n), StaleRequest, FixedText))
            && (n >= k <==> response == ReplyOf(c, r, n, n))
  {
  }

  lemma ServingKeepsInv(c: string, r: string, w: World, e: Event)
    requires Inv(c, r, w) && (e.ServeStray? || e.ServeCurrent? || e.ServeOther?)
    ensures Inv(c, r, Step(c, r, w, e))
  {
    hide Process, RequestId, Serve;
    if e.ServeOther? {
      if e.request.ClientRequest? && e.request.clientId != c {
        ProcessIsLocal(r, w.server, w.server, e.request, c);
      }
    } else if e.ServeStray? {
      if e.request in w.strays {
        StrayServed(c, r, w.server, e.request.requestNum);
      }
    } else if w.current.Some? && w.current.value.requests != [] {
      ServingCurrentKeepsInv(c, r, w);
    }
  }

  lemma ServingCurrentKeepsInv(c: string, r: string, w: World)
    requires Inv(c, r, w) && w.current.Some? && w.current.value.requests != []
    ensures Inv(c, r, Step(c, r, w, ServeCurrent))
  {
    var link, n, k := w.current.value, |w.current.value.replies|, Links.Answered(SlotOf(w.server, c));
    assert link.requests[0] == RequestOf(c, r, w.owed[n]);
    StrayServed(c, r, w.server, w.owed[n]);
    var t := Step(c, r, w, ServeCurrent);
    var (server, response) := Process(r, w.server, link.requests[0]);
    AnswerQueued(c, r, w.next, link, w.owed, k, Links.Answered(SlotOf(server, c)), response);
    hide CurrentInv, ExactlyOnce, Process;
    assert t.current.value == link.(requests := link.requests[1..], replies := link.replies + [response]);
  }

  lemma AnswerQueued(c: string, r: string, next: nat, link: Link, owed: seq<nat>, k: int, k1: int, response: Message)
    requires CurrentInv(c, r, next, link, owed, k) && link.requests != [] && k <= k1
    requires Answers(c, r, owed[|link.replies|], next, k1, response)
    ensures CurrentInv(c, r, next, link.(requests := link.requests[1..], replies := link.replies + [response]), owed,
                       k1)
  {
  }

  lemma WriteKeepsInv(c: string, r: string, w: World, queued: bool)
    requires Inv(c, r, w) && w.current.Some? && !w.awaiting
    ensures Inv(c, r, Step(c, r, w, Write(queued)))
  {
    var link, link1 := w.current.value, Step(c, r, w, Write(queued)).current.value;
    hide ExactlyOnce, Answers;
    assert CurrentInv(c, r, w.next, link1, w.owed + [w.next], Links.Answered(SlotOf(w.server, c)));
  }

  lemma ReadKeepsInv(c: string, r: string, w: World)
    requires Inv(c, r, w) && w.current.Some? && w.awaiting && w.current.value.replies != []
    ensures Inv(c, r, Step(c, r, w, ReadReply))
  {
    hide ExactlyOnce, RequestId;
    assert Answers(c, r, w.owed[0], w.next, Links.Answered(SlotOf(w.server, c)), w.current.value.replies[0]);
  }

  lemma StepKeepsInv(c: string, r: string, w: World, e: Event)
    requires Inv(c, r, w)
    ensures Inv(c, r, Step(c, r, w, e))
  {
    match e
    case Write(queued) => if w.current.Some? && !w.awaiting { WriteKeepsInv(c, r, w, queued); }
    case ReadReply => if w.current.Some? && w.awaiting && w.current.value.replies != [] { ReadKeepsInv(c, r, w); }
    case ServeStray(_) => ServingKeepsInv(c, r, w, e);
    case ServeCurrent => ServingKeepsInv(c, r, w, e);
    case ServeOther(_) => ServingKeepsInv(c, r, w, e);
    case _ =>
  }

  /** Over every run: the server has executed exactly the requests 1..k, each once, where k is the highest number it
      processed; the client has been given 1, 2, ... with those values; and k is the client's number or the one
      before. */
  lemma {:induction false} ExactlyOnceAcrossReconnects(c: string, r: string, others: set<string>, run: seq<Event>)
    ensures Inv(c, r, After(c, r, Init(c, others), run))
  {
    if run == [] {
      assert Inv(c, r, Init(c, others));
    } else {
      var w := After(c, r, Init(c, others), run[..|run| - 1]);
      ExactlyOnceAcrossReconnects(c, r, others, run[..|run| - 1]);
      StepKeepsInv(c, r, w, run[|run| - 1]);
    }
  }

  /** The current number, first attempt or retry, is never answered as stale, cancelled calls or not: it always yields
      its genuine reply. The reply that a waiting call reads is accepted if and only if the oldest number owed on its
      connection is the current one; so it always is unless an earlier call was cancelled on this connection. */
  lemma RetryNeverStale(c: string, r: string, others: set<string>, run: seq<Event>)
    ensures var w := After(c, r, Init(c, others), run);
            && (w.current.Some? && w.current.value.requests != [] ==>
                  Process(r, w.server, RequestOf(c, r, w.next)).1 == ReplyOf(c, r, w.next, w.next)
                  && AddressedTo(w.current.value.requests[0], r))
            && (w.current.Some? && w.awaiting && w.current.value.replies != [] ==>
                  && w.owed != []
                  && (ValidReply(w.current.value.replies[0], RequestOf(c, r, w.next)) <==> w.owed[0] == w.next)
                  && (Uncancelled(run) ==> ValidReply(w.current.value.replies[0], RequestOf(c, r, w.next))))
  {
    ExactlyOnceAcrossReconnects(c, r, others, run);
    var w := After(c, r, Init(c, others), run);
    StrayServed(c, r, w.server, w.next);
    if w.current.Some? && w.current.value.requests != [] {
      assert w.current.value.requests[0] == RequestOf(c, r, w.owed[|w.current.value.replies|]);
    }
    if w.current.Some? && w.awaiting && w.current.value.replies != [] {
      assert Answers(c, r, w.owed[0], w.next, Links.Answered(SlotOf(w.server, c)), w.current.value.replies[0]);
      if Uncancelled(run) {
        OwesOne(c, r, others, run);
      }
    }
  }

  predicate Uncancelled(run: seq<Event>) {
    forall i :: 0 <= i < |run| ==> !run[i].Cancel?
  }

  /** Without cancellations nothing is owed but the answer to the waiting call. */
  lemma {:induction false} OwesOne(c: string, r: string, others: set<string>, run: seq<Event>)
    requires Uncancelled(run)
    ensures var w := After(c, r, Init(c, others), run);
            if w.current.Some? then w.owed == (if w.awaiting then [w.next] else []) else !w.awaiting
  {
    if run != [] {
      OwesOne(c, r, others, run[..|run| - 1]);
    }
  }

  /** From every reachable world, whatever was lost, cancelled or left behind, reconnecting and sending the current
      number once more brings its genuine reply: the call returns it, and the number advances. */
  lemma RetryReturns(c: string, r: string, others: set<string>, run: seq<Event>)
    ensures var w := After(c, r, Init(c, others), run);
            var t := After(c, r, w, [Drop, Connect, Write(true), ServeCurrent, ReadReply]);
            && t.returned == w.returned + [ReplyOf(c, r, w.next, w.next)] && t.next == w.next + 1
            && SlotOf(t.server, c).counter == Some(w.next) && !t.awaiting && t.owed == []
            && t.current == Some(FRESH_LINK)
  {
    ExactlyOnceAcrossReconnects(c, r, others, run);
    var w := After(c, r, Init(c, others), run);
    var w3 := Resent(c, r, w);
    var w4 := Step(c, r, w3, ServeCurrent);
    HeadServed(c, r, w3, w.next);
    hide Step, After, Inv, Process, ExactlyOnce, RequestOf, ReplyOf;
    var m, reply := RequestOf(c, r, w.next), ReplyOf(c, r, w.next, w.next);
    assert [m][1..] == [] && [] + [reply] == [reply];
    AnswerRead(c, r, w4);
    FiveSteps(c, r, w, Drop, Connect, Write(true), ServeCurrent, ReadReply);
  }

  /** The current number alone, on a fresh connection. */
  lemma Resent(c: string, r: string, w: World) returns (t: World)
    requires Inv(c, r, w)
    ensures t == Step(c, r, Step(c, r, Step(c, r, w, Drop), Connect), Write(true))
    ensures t.next == w.next && t.returned == w.returned && t.server == w.server && t.awaiting && t.owed == [w.next]
    ensures t.current == Some(Link([RequestOf(c, r, w.next)], [], true, true))
  {
    t := Step(c, r, Step(c, r, Step(c, r, w, Drop), Connect), Write(true));
    hide RequestOf, Inv;
    assert [] + [RequestOf(c, r, w.next)] == [RequestOf(c, r, w.next)];
  }

  lemma AnswerRead(c: string, r: string, w: World)
    requires w.next >= 1 && w.awaiting && w.owed == [w.next]
    requires w.current == Some(Link([], [ReplyOf(c, r, w.next, w.next)], true, true))
    ensures var t := Step(c, r, w, ReadReply);
            && t.returned == w.returned + [ReplyOf(c, r, w.next, w.next)] && t.next == w.next + 1
            && t.server == w.server && !t.awaiting && t.owed == [] && t.current == Some(FRESH_LINK)
  {
    assert [ReplyOf(c, r, w.next, w.next)][1..] == [];
  }

  /** A request that arrives late over an old connection counts all the same: if it carries the current number, it is
      executed, once, and the retry is answered from the cache with no further effect. */
  lemma LateArrivalCountsOnce(c: string, r: string, others: set<string>, run: seq<Event>)
    ensures var w := After(c, r, Init(c, others), run);
            var t := Step(c, r, w, ServeStray(RequestOf(c, r, w.next)));
            RequestOf(c, r, w.next) in w.strays ==>
              && SlotOf(t.server, c).counter == Some(w.next)
              && Process(r, t.server, RequestOf(c, r, w.next)) == (t.server, ReplyOf(c, r, w.next, w.next))
  {
    ExactlyOnceAcrossReconnects(c, r, others, run);
    var w := After(c, r, Init(c, others), run);
    if RequestOf(c, r, w.next) in w.strays {
      StrayServed(c, r, w.server, w.next);
      StrayServed(c, r, Step(c, r, w, ServeStray(RequestOf(c, r, w.next))).server, w.next);
    }
  }

  /** A call on a connection that owes an older answer fails and drops it; nothing else changes, and the next attempt
      starts on a fresh connection. */
  lemma OldAnswerCostsConnection(c: string, r: string, others: set<string>, run: seq<Event>)
    ensures var w := After(c, r, Init(c, others), run);
            w.current.Some? && w.awaiting && w.current.value.replies != [] && !(w.owed != [] && w.owed[0] == w.next) ==>
              Step(c, r, w, ReadReply) == w.(current := None, awaiting := false, owed := [])
  {
    RetryNeverStale(c, r, others, run);
  }

  /** That does happen: cancel a call, let its retry return, and call again on the same connection. */
  lemma CancelledCallLeavesAnswer(c: string, r: string)
    ensures var run := [Connect, Write(true), Cancel, Write(true), ServeCurrent, ServeCurrent, ReadReply];
            var w := After(c, r, Init(c, {}), run);
            && w.returned == [ReplyOf(c, r, 1, 1)] && !w.awaiting && w.next == 2 && w.owed == [1]
            && w.current.Some? && w.current.value.replies == [ReplyOf(c, r, 1, 1)]
  {
    var w0, m, reply := Init(c, {}), RequestOf(c, r, 1), ReplyOf(c, r, 1, 1);
    var w1 := Step(c, r, w0, Connect);
    var w3 := Step(c, r, Step(c, r, w1, Write(true)), Cancel);
    WriteEffect(c, r, w1);
    WriteEffect(c, r, w3);
    var w4 := Step(c, r, w3, Write(true));
    assert w4.owed == [1, 1] && w4.current.value.requests == [m, m];
    var w5 := Step(c, r, w4, ServeCurrent);
    var w6 := Step(c, r, w5, ServeCurrent);
    HeadServed(c, r, w4, 1);
    HeadServed(c, r, w5, 1);
    hide Process, RequestOf, ReplyOf, Serve, ExactlyOnce;
    SevenSteps(c, r, w0, Connect, Write(true), Cancel, Write(true), ServeCurrent, ServeCurrent, ReadReply);
    SecondAnswerLeft(c, r, w6);
  }

  lemma WriteEffect(c: string, r: string, w: World)
    requires w.current.Some? && w.current.value.upstream && !w.awaiting
    ensures var link, m := w.current.value, RequestOf(c, r, w.next);
            Step(c, r, w, Write(true))
            == w.(current := Some(link.(requests := link.requests + [m])), awaiting := true,
                  strays := w.strays + {m}, owed := w.owed + [w.next])
  {
  }

  lemma SecondAnswerLeft(c: string, r: string, w: World)
    requires w.awaiting && w.current.Some? && w.next == 1 && w.owed == [1, 1] && w.returned == []
    requires w.current.value.replies == [ReplyOf(c, r, 1, 1), ReplyOf(c, r, 1, 1)]
    ensures var t := Step(c, r, w, ReadReply);
            && t.returned == [ReplyOf(c, r, 1, 1)] && !t.awaiting && t.next == 2 && t.owed == [1]
            && t.current.Some? && t.current.value.replies == [ReplyOf(c, r, 1, 1)]
  {
  }

  /** Request `n` at the head of the connection is answered by its reply and leaves the rest as it is. */
  lemma HeadServed(c: string, r: string, w: World, n: nat)
    requires w.current.Some? && w.current.value.downstream && w.current.value.requests != []
    requires w.current.value.requests[0] == RequestOf(c, r, n) && n >= 1
    requires ExactlyOnce(c, r, SlotOf(w.server, c)) && n - 1 <= Links.Answered(SlotOf(w.server, c)) <= n
    ensures var t, link := Step(c, r, w, ServeCurrent), w.current.value;
            && t == w.(server := t.server, current := Some(link.(requests := link.requests[1..],
                                                                 replies := link.replies + [ReplyOf(c, r, n, n)])))
            && ExactlyOnce(c, r, SlotOf(t.server, c)) && Links.Answered(SlotOf(t.server, c)) == n
  {
    StrayServed(c, r, w.server, n);
  }

  lemma FiveSteps(c: string, r: string, w: World, a: Event, b: Event, d: Event, e: Event, f: Event)
    ensures var w3 := Step(c, r, Step(c, r, Step(c, r, w, a), b), d);
            After(c, r, w, [a, b, d, e, f]) == Step(c, r, Step(c, r, w3, e), f)
  {
    hide Step, After;
    AfterNone(c, r, w);
    AfterSnoc(c, r, w, [], a);
    AfterSnoc(c, r, w, [] + [a], b);
    AfterSnoc(c, r, w, [] + [a] + [b], d);
    AfterSnoc(c, r, w, [] + [a] + [b] + [d], e);
    AfterSnoc(c, r, w, [] + [a] + [b] + [d] + [e], f);
    assert [] + [a] + [b] + [d] + [e] + [f] == [a, b, d, e, f];
  }

  lemma SevenSteps(c: string, r: string, w: World, a: Event, b: Event, d: Event, e: Event, f: Event, g: Event, h: Event)
    ensures var w3 := Step(c, r, Step(c, r, Step(c, r, w, a), b), d);
            After(c, r, w, [a, b, d, e, f, g, h]) == Step(c, r, Step(c, r, Step(c, r, Step(c, r, w3, e), f), g), h)
  {
    hide Step, After;
    FiveSteps(c, r, w, a, b, d, e, f);
    AfterSnoc(c, r, w, [a, b, d, e, f], g);
    AfterSnoc(c, r, w, [a, b, d, e, f] + [g], h);
    assert [a, b, d, e, f] + [g] + [h] == [a, b, d, e, f, g, h];
  }

  lemma AfterNone(c: string, r: string, w: World)
    ensures After(c, r, w, []) == w
  {
  }

  lemma AfterSnoc(c: string, r: string, w: World, run: seq<Event>, e: Event)
    ensures After(c, r, w, run + [e]) == Step(c, r, After(c, r, w, run), e)
  {
    assert (run + [e])[..|run|] == run;
  }
}
