/** One connection between a client and a replica: two first-in first-out queues that may lose a suffix. */
module Links {
  import opened Wrappers
  import opened Protocol
  import opened Replica

  /** Once a direction is broken (`upstream` or `downstream` false), nothing more enters its queue. */
  datatype Link = Link(requests: seq<Message>, replies: seq<Message>, upstream: bool, downstream: bool)

  const FRESH_LINK := Link([], [], true, true)

  function Transmit(link: Link, request: Message, queued: bool): Link {
    if queued && link.upstream then link.(requests := link.requests + [request]) else link.(upstream := false)
  }

  /** The replica takes the head of the requests; a message it refuses ends the connection. */
  function Serve(id: string, s: ReplicaState, link: Link): (ReplicaState, Link)
    requires link.requests != []
  {
    var m := link.requests[0];
    if AddressedTo(m, id) then
      var (s1, response) := Process(id, s, m);
      (s1, Respond(link.(requests := link.requests[1..]), response))
    else
      (s, Respond(Link([], link.replies, false, link.downstream), Rejection(id, m)))
  }

  function Respond(link: Link, response: Message): Link {
    if link.downstream then link.(replies := link.replies + [response]) else link
  }

  function CutRequests(link: Link, kept: nat): Link
    requires kept <= |link.requests|
  {
    link.(requests := link.requests[..kept], upstream := false)
  }

  function CutReplies(link: Link, kept: nat): Link
    requires kept <= |link.replies|
  {
    link.(replies := link.replies[..kept], downstream := false)
  }

  /** The number of the last message of a queue, or `base` when it is empty. */
  function LastNumber(base: int, queue: seq<Message>): int
    decreases |queue|
  {
    if queue == [] then base else LastNumber(RequestNumber(queue[0]), queue[1..])
  }

  /** The highest request number of this client that the replica has answered. */
  function Answered(slot: Slot): int {
    if slot.last.Some? then slot.last.value.num else 0
  }

  /** The replica executed each of this client's requests 1..k once and remembers its reply to k. */
  ghost predicate ExactlyOnce(c: string, r: string, slot: Slot) {
    match slot.last
    case None => slot.counter == Some(0)
    case Some(cached) =>
      && cached.num >= 1 && slot.counter == Some(cached.num)
      && cached == Cached(cached.num, INCREMENT, ReplyOf(c, r, cached.num, cached.num))
  }

  ghost predicate GenuineRequest(c: string, r: string, m: Message) {
    m.ClientRequest? && m.requestNum >= 1 && m == RequestOf(c, r, m.requestNum)
  }

  ghost predicate GenuineReply(c: string, r: string, m: Message) {
    m.ClientReply? && m.requestNum >= 1 && m == ReplyOf(c, r, m.requestNum, m.requestNum)
  }

  /** Genuine requests whose numbers go on from `k` in steps of at most one. */
  ghost predicate Requests(c: string, r: string, k: int, queue: seq<Message>)
    decreases |queue|
  {
    queue != [] ==>
      && GenuineRequest(c, r, queue[0]) && k <= queue[0].requestNum <= k + 1
      && Requests(c, r, queue[0].requestNum, queue[1..])
  }

  /** Genuine replies in order, from `low` on and up to `k`. */
  ghost predicate Replies(c: string, r: string, low: int, k: int, queue: seq<Message>)
    decreases |queue|
  {
    && low <= k
    && (queue != [] ==>
          && GenuineReply(c, r, queue[0]) && low <= queue[0].requestNum
          && Replies(c, r, queue[0].requestNum, k, queue[1..]))
  }

  /** What holds of a connection whose client last sent number `sent` and last received number `received`. */
  ghost predicate LinkInv(c: string, r: string, sent: int, received: int, link: Link, slot: Slot) {
    match link
    case Link(requests, replies, upstream, downstream) =>
      && ExactlyOnce(c, r, slot)
      && Requests(c, r, Answered(slot), requests)
      && LastNumber(Answered(slot), requests) <= sent
      && (upstream ==> LastNumber(Answered(slot), requests) == sent)
      && Replies(c, r, received, Answered(slot), replies)
      && (downstream ==> LastNumber(received, replies) == Answered(slot))
  }

  lemma FreshLinkInv(c: string, r: string)
    ensures LinkInv(c, r, 0, 0, FRESH_LINK, Slot(Some(0), None))
  {
  }

  lemma {:induction false} AppendRequest(c: string, r: string, k: int, queue: seq<Message>, n: nat)
    requires Requests(c, r, k, queue) && 1 <= n && LastNumber(k, queue) <= n <= LastNumber(k, queue) + 1
    ensures Requests(c, r, k, queue + [RequestOf(c, r, n)]) && LastNumber(k, queue + [RequestOf(c, r, n)]) == n
    decreases |queue|
  {
    if queue != [] {
      AppendRequest(c, r, queue[0].requestNum, queue[1..], n);
      assert (queue + [RequestOf(c, r, n)])[1..] == queue[1..] + [RequestOf(c, r, n)];
    }
  }

  lemma {:induction false} AppendReply(c: string, r: string, low: int, k: int, queue: seq<Message>, n: nat)
    requires Replies(c, r, low, k, queue) && k <= n && 1 <= n
    ensures Replies(c, r, low, n, queue)
    ensures Replies(c, r, low, n, queue + [ReplyOf(c, r, n, n)]) && LastNumber(low, queue + [ReplyOf(c, r, n, n)]) == n
    decreases |queue|
  {
    if queue != [] {
      AppendReply(c, r, queue[0].requestNum, k, queue[1..], n);
      assert (queue + [ReplyOf(c, r, n, n)])[1..] == queue[1..] + [ReplyOf(c, r, n, n)];
    }
  }

  lemma {:induction false} CutRequestQueue(c: string, r: string, k: int, queue: seq<Message>, kept: nat)
    requires Requests(c, r, k, queue) && kept <= |queue|
    ensures Requests(c, r, k, queue[..kept]) && k <= LastNumber(k, queue[..kept]) <= LastNumber(k, queue)
    decreases |queue|
  {
    if kept > 0 {
      CutRequestQueue(c, r, queue[0].requestNum, queue[1..], kept - 1);
      assert queue[..kept][1..] == queue[1..][..kept - 1];
    } else if queue != [] {
      CutRequestQueue(c, r, queue[0].requestNum, queue[1..], 0);
    }
  }

  lemma {:induction false} CutReplyQueue(c: string, r: string, low: int, k: int, queue: seq<Message>, kept: nat)
    requires Replies(c, r, low, k, queue) && kept <= |queue|
    ensures Replies(c, r, low, k, queue[..kept])
    decreases |queue|
  {
    if kept > 0 {
      CutReplyQueue(c, r, queue[0].requestNum, k, queue[1..], kept - 1);
      assert queue[..kept][1..] == queue[1..][..kept - 1];
    }
  }

  /** A replica that executed 1..k once answers request k or k + 1 with the value equal to its number, never with an
      error, and has then executed 1..n once. */
  lemma ProcessGenuineRequest(c: string, r: string, s: ReplicaState, n: nat)
    requires ExactlyOnce(c, r, SlotOf(s, c)) && 1 <= n && Answered(SlotOf(s, c)) <= n <= Answered(SlotOf(s, c)) + 1
    ensures var (s1, response) := Process(r, s, RequestOf(c, r, n));
            && response == ReplyOf(c, r, n, n)
            && ExactlyOnce(c, r, SlotOf(s1, c)) && Answered(SlotOf(s1, c)) == n
  {
  }

  /** A replica whose counter a new request number has left behind answers it with the wrong value, and stays behind:
      its counter is then again too small for every later number. A replica that executed 1..k and is sent a number
      beyond k + 1 is in that state. */
  lemma SkippedNumberMiscounts(c: string, r: string, s: ReplicaState, n: nat)
    requires c in s.counters && s.counters[c] + 1 < n && (c in s.last ==> s.last[c].num < n)
    ensures var (s1, response) := Process(r, s, RequestOf(c, r, n));
            && response == ReplyOf(c, r, n, s.counters[c] + 1) && !GenuineReply(c, r, response)
            && c in s1.counters && c in s1.last && s1.last[c].num == n && s1.counters[c] < n
  {
  }

  /** So a replica that never saw request 1 answers request 2 with the value 1. */
  lemma FreshReplicaMiscounts(c: string, r: string, clients: set<string>)
    requires c in clients
    ensures Process(r, Fresh(clients), RequestOf(c, r, 2)).1 == ReplyOf(c, r, 2, 1)
  {
    SkippedNumberMiscounts(c, r, Fresh(clients), 2);
  }

  // ----- Each event on the connection keeps the invariant -----

  lemma TransmitKeepsInv(c: string, r: string, sent: int, received: int, link: Link, slot: Slot, n: nat, queued: bool)
    requires LinkInv(c, r, sent, received, link, slot) && 1 <= n && sent <= n <= sent + 1
    ensures LinkInv(c, r, n, received, Transmit(link, RequestOf(c, r, n), queued), slot)
  {
    if queued && link.upstream {
      AppendRequest(c, r, Answered(slot), link.requests, n);
    }
  }

  /** Serving the head of the queue; nothing about other clients changes at the replica. */
  lemma ServeKeepsInv(c: string, r: string, sent: int, received: int, link: Link, s: ReplicaState)
    requires LinkInv(c, r, sent, received, link, SlotOf(s, c)) && link.requests != []
    ensures var (s1, link1) := Serve(r, s, link);
            var n := RequestNumber(link.requests[0]);
            && n >= 1 && link1 == Respond(link.(requests := link.requests[1..]), ReplyOf(c, r, n, n))
            && LinkInv(c, r, sent, received, link1, SlotOf(s1, c)) && Answered(SlotOf(s1, c)) == n
            && forall d :: d != c ==> SlotOf(s1, d) == SlotOf(s, d)
  {
    var m, k := link.requests[0], Answered(SlotOf(s, c));
    ProcessGenuineRequest(c, r, s, m.requestNum);
    AppendReply(c, r, received, k, link.replies, m.requestNum);
    forall d | d != c
      ensures SlotOf(Process(r, s, m).0, d) == SlotOf(s, d)
    {
      ProcessIsLocal(r, s, s, m, d);
    }
  }

  /** The client takes the head of the replies: its number lies between what it received and what it sent. */
  lemma ReceiveKeepsInv(c: string, r: string, sent: int, received: int, link: Link, slot: Slot)
    requires LinkInv(c, r, sent, received, link, slot) && link.replies != []
    ensures GenuineReply(c, r, link.replies[0]) && received <= link.replies[0].requestNum <= sent
    ensures LinkInv(c, r, sent, link.replies[0].requestNum, link.(replies := link.replies[1..]), slot)
  {
    assert Replies(c, r, link.replies[0].requestNum, Answered(slot), link.replies[1..]);
    CutRequestQueue(c, r, Answered(slot), link.requests, 0);
  }

  lemma CutsKeepInv(c: string, r: string, sent: int, received: int, link: Link, slot: Slot, kept: nat)
    requires LinkInv(c, r, sent, received, link, slot)
    ensures kept <= |link.requests| ==> LinkInv(c, r, sent, received, CutRequests(link, kept), slot)
    ensures kept <= |link.replies| ==> LinkInv(c, r, sent, received, CutReplies(link, kept), slot)
  {
    if kept <= |link.requests| {
      CutRequestQueue(c, r, Answered(slot), link.requests, kept);
    }
    if kept <= |link.replies| {
      CutReplyQueue(c, r, received, Answered(slot), link.replies, kept);
    }
  }
}

/** N clients and M replicas with a connection for each pair, under every interleaving of calls, timeouts, retries,
    retirements, lost suffixes and replica crashes. */
module ReplicatedSystem {
  import opened Wrappers
  import opened Protocol
  import opened Replica
  import opened Links
  import AC = ActiveClient

  /** A client with its connections, by replica. */
  datatype Node = Node(caller: AC.Caller, links: map<string, Link>)

  /** What a caller of `send_increment` sees: the client, and the number and value of the reply it got. */
  datatype Observation = Observation(client: string, num: int, value: int)

  datatype System = System(nodes: map<string, Node>, replicas: map<string, ReplicaState>, up: set<string>,
                           trace: seq<Observation>)

  datatype NodeAction =
    | Local(action: AC.Action)                    // a section of the client that touches no queue
    | Transmit(replica: string, queued: bool)     // one send of a broadcast; the write may be lost
    | ServeHead(replica: string)                  // the replica handles the next request of this connection
    | Deliver(replica: string)                    // the client reads the next reply of this connection
    | CutUp(replica: string, kept: nat)           // the requests behind the first `kept` are lost for good
    | CutDown(replica: string, kept: nat)

  datatype Action = At(client: string, action: NodeAction) | Crash(replica: string)

  /** Clients with the replicas they are configured to use. */
  type Config = map<string, set<string>>

  predicate ValidConfig(config: Config, replicas: set<string>) {
    && (forall r :: r in replicas ==> NonBlank(r))
    && (forall c :: c in config ==> NonBlank(c) && config[c] <= replicas)
  }

  function Init(config: Config, replicas: set<string>): System {
    System(map c | c in config :: Node(AC.Start(c, config[c]), map r | r in config[c] :: FRESH_LINK),
           map r | r in replicas :: Fresh(config.Keys), replicas, [])
  }

  predicate CanServe(node: Node, replicas: map<string, ReplicaState>, up: set<string>, r: string) {
    r in node.links && r in replicas && r in up && node.links[r].requests != []
  }

  predicate CanDeliver(node: Node, r: string) {
    r in node.links && node.links[r].replies != [] && AC.Enabled(node.caller, AC.Read(r, node.links[r].replies[0]))
  }

  predicate CanTransmit(node: Node, r: string) {
    r in node.links && AC.Enabled(node.caller, AC.Send(r))
  }

  /** The client's part of a step; an action that is not possible has no effect. */
  function CallerAfter(node: Node, a: NodeAction): AC.Caller {
    match a
    case Local(action) => if action.Send? || action.Read? then node.caller else AC.Step(node.caller, action)
    case Transmit(r, _) => if CanTransmit(node, r) then AC.Step(node.caller, AC.Send(r)) else node.caller
    case Deliver(r) =>
      if CanDeliver(node, r) then AC.Step(node.caller, AC.Read(r, node.links[r].replies[0])) else node.caller
    case _ => node.caller
  }

  /** Connection `r` after the client has sent its current request there. */
  function Sending(c: string, node: Node, r: string, queued: bool): Link
    requires r in node.links
  {
    Links.Transmit(node.links[r], RequestOf(c, r, node.caller.client.next), queued)
  }

  /** What a step does to the queues. */
  function LinksAfter(c: string, node: Node, replicas: map<string, ReplicaState>, up: set<string>, a: NodeAction)
    : map<string, Link>
  {
    var links := node.links;
    match a
    case Local(_) => links
    case Transmit(r, queued) =>
      if CanTransmit(node, r) then links[r := Sending(c, node, r, queued)] else links
    case ServeHead(r) =>
      if CanServe(node, replicas, up, r) then links[r := Serve(r, replicas[r], links[r]).1] else links
    case Deliver(r) => if CanDeliver(node, r) then links[r := links[r].(replies := links[r].replies[1..])] else links
    case CutUp(r, kept) =>
      if r in links && kept <= |links[r].requests| then links[r := CutRequests(links[r], kept)] else links
    case CutDown(r, kept) =>
      if r in links && kept <= |links[r].replies| then links[r := CutReplies(links[r], kept)] else links
  }

  function ReplicasAfter(node: Node, replicas: map<string, ReplicaState>, up: set<string>, a: NodeAction)
    : map<string, ReplicaState>
  {
    if a.ServeHead? && CanServe(node, replicas, up, a.replica)
    then replicas[a.replica := Serve(a.replica, replicas[a.replica], node.links[a.replica]).0] else replicas
  }

  function NodeStep(c: string, node: Node, replicas: map<string, ReplicaState>, up: set<string>, a: NodeAction): Node {
    Node(CallerAfter(node, a), LinksAfter(c, node, replicas, up, a))
  }

  function Step(s: System, a: Action): System {
    match a
    case Crash(r) => s.(up := s.up - {r})
    case At(c, action) =>
      if c !in s.nodes then s
      else
        System(s.nodes[c := NodeStep(c, s.nodes[c], s.replicas, s.up, action)],
               ReplicasAfter(s.nodes[c], s.replicas, s.up, action), s.up, s.trace + Observed(c, s.nodes[c], action))
  }

  function Observed(c: string, node: Node, a: NodeAction): seq<Observation> {
    if a.Local? && AC.Returned(node.caller, a.action).Some? then
      var reply := AC.Returned(node.caller, a.action).value;
      [Observation(c, RequestNumber(reply), if reply.ClientReply? then reply.clientValue else 0)]
    else []
  }

  // ----- The invariant -----

  function Sent(cl: AC.Client, r: string): int {
    if r in cl.conns then cl.conns[r].lastSent else 0
  }

  function Received(cl: AC.Client, r: string): int {
    if r in cl.conns then cl.conns[r].lastReceived else 0
  }

  ghost predicate LinksInv(c: string, cl: AC.Client, links: map<string, Link>, replicas: map<string, ReplicaState>)
    requires links.Keys <= replicas.Keys
  {
    forall r :: r in links ==> LinkInv(c, r, Sent(cl, r), Received(cl, r), links[r], SlotOf(replicas[r], c))
  }

  /** Every value delivered so far equals its request number. */
  ghost predicate Genuine(history: seq<int>) {
    forall n :: 0 <= n < |history| ==> history[n] == n + 1
  }

  /** The client is the one the connections belong to, and all it has delivered is genuine. */
  ghost predicate NodeInv(c: string, node: Node, replicas: map<string, ReplicaState>) {
    && Genuine(node.caller.history)
    && node.caller.client.id == c && NonBlank(c) && (forall r :: r in node.links ==> NonBlank(r))
    && node.caller.client.endpoints == node.links.Keys <= replicas.Keys
    && LinksInv(c, node.caller.client, node.links, replicas)
  }

  ghost predicate Inv(s: System) {
    forall c :: c in s.nodes ==> AC.CallerInv(s.nodes[c].caller) && NodeInv(c, s.nodes[c], s.replicas)
  }

  lemma InitEstablishesInv(config: Config, replicas: set<string>)
    requires ValidConfig(config, replicas)
    ensures Inv(Init(config, replicas))
  {
    var s := Init(config, replicas);
    forall c | c in config
      ensures AC.CallerInv(s.nodes[c].caller) && NodeInv(c, s.nodes[c], s.replicas)
    {
      AC.StartEstablishesInv(c, config[c]);
      forall r | r in config[c]
        ensures LinkInv(c, r, 0, 0, FRESH_LINK, SlotOf(s.replicas[r], c))
      {
        FreshLinkInv(c, r);
      }
    }
  }

  /** When only connection `r` and its replica are touched, the invariant is a matter of that connection. */
  lemma OneLinkChanged(c: string, cl: AC.Client, cl1: AC.Client, links: map<string, Link>, link: Link,
                       replicas: map<string, ReplicaState>, s1: ReplicaState, r: string)
    requires links.Keys <= replicas.Keys && LinksInv(c, cl, links, replicas) && r in links
    requires forall q :: q != r ==> Sent(cl1, q) == Sent(cl, q) && Received(cl1, q) == Received(cl, q)
    ensures LinkInv(c, r, Sent(cl1, r), Received(cl1, r), link, SlotOf(s1, c)) ==>
              LinksInv(c, cl1, links[r := link], replicas[r := s1])
  {
  }

  lemma LocalKeepsLinks(c: string, node: Node, replicas: map<string, ReplicaState>, a: AC.Action)
    requires AC.CallerInv(node.caller) && NodeInv(c, node, replicas) && !a.Send? && !a.Read?
    ensures LinksInv(c, AC.Step(node.caller, a).client, node.links, replicas)
  {
    AC.LocalStepFrame(node.caller, a);
    hide AC.Step, LinkInv, AC.CallerInv;
    var cl, cl1 := node.caller.client, AC.Step(node.caller, a).client;
    forall r
      ensures Sent(cl1, r) == Sent(cl, r) && Received(cl1, r) == Received(cl, r)
    {
    }
  }

  /** Only the number sent on connection `r` changes, to `n`. */
  ghost predicate OnlySent(cl: AC.Client, cl1: AC.Client, r: string, n: int) {
    && Sent(cl1, r) == n && Received(cl1, r) == Received(cl, r)
    && forall q :: q != r ==> Sent(cl1, q) == Sent(cl, q) && Received(cl1, q) == Received(cl, q)
  }

  lemma SendEffect(caller: AC.Caller, r: string)
    requires AC.CallerInv(caller) && AC.Enabled(caller, AC.Send(r))
    ensures OnlySent(caller.client, AC.Step(caller, AC.Send(r)).client, r, caller.client.next)
    ensures Sent(caller.client, r) <= caller.client.next <= Sent(caller.client, r) + 1 && caller.client.next >= 1
  {
    AC.SendFrame(caller, r);
    hide AC.Step, AC.CallerInv;
  }

  lemma TransmitKeepsLinks(c: string, node: Node, replicas: map<string, ReplicaState>, r: string, queued: bool)
    requires AC.CallerInv(node.caller) && NodeInv(c, node, replicas) && CanTransmit(node, r)
    ensures var link := Links.Transmit(node.links[r], RequestOf(c, r, node.caller.client.next), queued);
            LinksInv(c, AC.Step(node.caller, AC.Send(r)).client, node.links[r := link], replicas)
  {
    SendEffect(node.caller, r);
    hide AC.Step, AC.CacheExact, AC.Broadcast, AC.FutureMatches, RequestOf;
    var cl, cl1 := node.caller.client, AC.Step(node.caller, AC.Send(r)).client;
    assert LinkInv(c, r, Sent(cl, r), Received(cl, r), node.links[r], SlotOf(replicas[r], c));
    TransmitKeepsInv(c, r, Sent(cl, r), Received(cl, r), node.links[r], SlotOf(replicas[r], c), cl.next, queued);
    var link := Links.Transmit(node.links[r], RequestOf(c, r, cl.next), queued);
    OneLinkChanged(c, cl, cl1, node.links, link, replicas, replicas[r], r);
    assert replicas[r := replicas[r]] == replicas;
  }

  lemma ServeKeepsLinks(c: string, node: Node, replicas: map<string, ReplicaState>, r: string)
    requires NodeInv(c, node, replicas) && r in node.links && node.links[r].requests != []
    ensures var (s1, link) := Serve(r, replicas[r], node.links[r]);
            && LinksInv(c, node.caller.client, node.links[r := link], replicas[r := s1])
            && forall d :: d != c ==> SlotOf(s1, d) == SlotOf(replicas[r], d)
  {
    var cl := node.caller.client;
    assert LinkInv(c, r, Sent(cl, r), Received(cl, r), node.links[r], SlotOf(replicas[r], c));
    ServeKeepsInv(c, r, Sent(cl, r), Received(cl, r), node.links[r], replicas[r]);
    var (s1, link) := Serve(r, replicas[r], node.links[r]);
    OneLinkChanged(c, cl, cl, node.links, link, replicas, s1, r);
  }

  /** The next reply on a connection is genuine, in sequence and accepted. */
  lemma NextReplyAccepted(c: string, node: Node, replicas: map<string, ReplicaState>, r: string)
    requires NodeInv(c, node, replicas) && r in node.links && r in node.caller.client.conns
             && node.links[r].replies != []
    ensures var cl, link, reply := node.caller.client, node.links[r], node.links[r].replies[0];
            && GenuineReply(c, r, reply) && AC.Accepts(c, r, reply) && AC.InSequence(cl.conns[r], reply.requestNum)
            && LinkInv(c, r, Sent(cl, r), reply.requestNum, link.(replies := link.replies[1..]), SlotOf(replicas[r], c))
  {
    var cl, reply := node.caller.client, node.links[r].replies[0];
    assert LinkInv(c, r, Sent(cl, r), Received(cl, r), node.links[r], SlotOf(replicas[r], c));
    ReceiveKeepsInv(c, r, Sent(cl, r), Received(cl, r), node.links[r], SlotOf(replicas[r], c));
    AC.AcceptsGenuineReply(c, r, reply.requestNum, reply.requestNum);
  }

  /** Only the number received on connection `r` changes, to `n`. */
  ghost predicate OnlyReceived(cl: AC.Client, cl1: AC.Client, r: string, n: int) {
    && Sent(cl1, r) == Sent(cl, r) && Received(cl1, r) == n
    && forall q :: q != r ==> Sent(cl1, q) == Sent(cl, q) && Received(cl1, q) == Received(cl, q)
  }

  lemma DeliverEffect(caller: AC.Caller, r: string, reply: Message)
    requires AC.CallerInv(caller) && AC.Enabled(caller, AC.Read(r, reply)) && reply.ClientReply?
    requires AC.InSequence(caller.client.conns[r], reply.requestNum) && AC.Accepts(caller.client.id, r, reply)
    ensures var t := AC.Step(caller, AC.Read(r, reply));
            && OnlyReceived(caller.client, t.client, r, reply.requestNum)
            && (t.history == caller.history
                || (reply.requestNum == |caller.history| + 1 && t.history == caller.history + [reply.clientValue]))
  {
    AC.AcceptedReadFrame(caller, r, reply);
    hide AC.Step, AC.Accepts, AC.CallerInv;
  }

  lemma DeliverKeepsLinks(c: string, node: Node, replicas: map<string, ReplicaState>, r: string)
    requires AC.CallerInv(node.caller) && NodeInv(c, node, replicas) && CanDeliver(node, r)
    ensures var caller := AC.Step(node.caller, AC.Read(r, node.links[r].replies[0]));
            LinksInv(c, caller.client, node.links[r := node.links[r].(replies := node.links[r].replies[1..])], replicas)
  {
    hide AC.Step, AC.Accepts, AC.CacheExact, AC.Broadcast, AC.FutureMatches, LinkInv;
    var reply, link := node.links[r].replies[0], node.links[r].(replies := node.links[r].replies[1..]);
    NextReplyAccepted(c, node, replicas, r);
    DeliverEffect(node.caller, r, reply);
    var cl, cl1 := node.caller.client, AC.Step(node.caller, AC.Read(r, reply)).client;
    OneLinkChanged(c, cl, cl1, node.links, link, replicas, replicas[r], r);
    assert replicas[r := replicas[r]] == replicas;
  }

  lemma DeliverKeepsGenuine(c: string, node: Node, replicas: map<string, ReplicaState>, r: string)
    requires AC.CallerInv(node.caller) && NodeInv(c, node, replicas) && CanDeliver(node, r)
    ensures Genuine(AC.Step(node.caller, AC.Read(r, node.links[r].replies[0])).history)
  {
    hide AC.Step, AC.Accepts, AC.CacheExact, AC.Broadcast, AC.FutureMatches, LinkInv;
    NextReplyAccepted(c, node, replicas, r);
    DeliverEffect(node.caller, r, node.links[r].replies[0]);
  }

  lemma CutsKeepLinks(c: string, node: Node, replicas: map<string, ReplicaState>, r: string, kept: nat)
    requires NodeInv(c, node, replicas) && r in node.links
    ensures kept <= |node.links[r].requests| ==>
              LinksInv(c, node.caller.client, node.links[r := CutRequests(node.links[r], kept)], replicas)
    ensures kept <= |node.links[r].replies| ==>
              LinksInv(c, node.caller.client, node.links[r := CutReplies(node.links[r], kept)], replicas)
  {
    var cl := node.caller.client;
    assert LinkInv(c, r, Sent(cl, r), Received(cl, r), node.links[r], SlotOf(replicas[r], c));
    CutsKeepInv(c, r, Sent(cl, r), Received(cl, r), node.links[r], SlotOf(replicas[r], c), kept);
    assert replicas[r := replicas[r]] == replicas;
    if kept <= |node.links[r].requests| {
      OneLinkChanged(c, cl, cl, node.links, CutRequests(node.links[r], kept), replicas, replicas[r], r);
    }
    if kept <= |node.links[r].replies| {
      OneLinkChanged(c, cl, cl, node.links, CutReplies(node.links[r], kept), replicas, replicas[r], r);
    }
  }

  lemma CallerStepKeepsInv(node: Node, a: NodeAction)
    requires AC.CallerInv(node.caller)
    ensures AC.CallerInv(CallerAfter(node, a))
  {
    match a
    case Local(action) => AC.StepKeepsInv(node.caller, action);
    case Transmit(r, _) => AC.StepKeepsInv(node.caller, AC.Send(r));
    case Deliver(r) =>
      if CanDeliver(node, r) {
        AC.StepKeepsInv(node.caller, AC.Read(r, node.links[r].replies[0]));
      }
    case _ =>
  }

  lemma CallerStepKeepsIdentity(c: string, node: Node, replicas: map<string, ReplicaState>, a: NodeAction)
    requires AC.CallerInv(node.caller) && NodeInv(c, node, replicas)
    ensures var cl, caller := node.caller.client, CallerAfter(node, a);
            caller.client.id == cl.id && caller.client.endpoints == cl.endpoints && Genuine(caller.history)
  {
    match a
    case Local(action) => AC.StepKeepsIdentity(node.caller, action);
    case Transmit(r, _) => AC.StepKeepsIdentity(node.caller, AC.Send(r));
    case Deliver(r) =>
      if CanDeliver(node, r) {
        AC.StepKeepsIdentity(node.caller, AC.Read(r, node.links[r].replies[0]));
        DeliverKeepsGenuine(c, node, replicas, r);
      }
    case _ =>
  }

  /** The connections stay in order under step `a`. */
  ghost predicate StepKeepsLinksInv(c: string, node: Node, replicas: map<string, ReplicaState>, up: set<string>,
                                    a: NodeAction) {
    && LinksAfter(c, node, replicas, up, a).Keys == node.links.Keys <= ReplicasAfter(node, replicas, up, a).Keys
    && LinksInv(c, CallerAfter(node, a).client, LinksAfter(c, node, replicas, up, a),
                ReplicasAfter(node, replicas, up, a))
  }

  lemma ServeStepKeepsLinks(c: string, node: Node, replicas: map<string, ReplicaState>, up: set<string>, r: string)
    requires NodeInv(c, node, replicas)
    ensures StepKeepsLinksInv(c, node, replicas, up, ServeHead(r))
  {
    if CanServe(node, replicas, up, r) {
      ServeKeepsLinks(c, node, replicas, r);
    }
  }

  lemma CutStepKeepsLinks(c: string, node: Node, replicas: map<string, ReplicaState>, up: set<string>, a: NodeAction)
    requires NodeInv(c, node, replicas) && (a.CutUp? || a.CutDown?)
    ensures StepKeepsLinksInv(c, node, replicas, up, a)
  {
    hide LinkInv;
    if a.replica in node.links {
      CutsKeepLinks(c, node, replicas, a.replica, a.kept);
    }
  }

  lemma LocalStepKeepsLinks(c: string, node: Node, replicas: map<string, ReplicaState>, up: set<string>,
                            action: AC.Action)
    requires AC.CallerInv(node.caller) && NodeInv(c, node, replicas)
    ensures StepKeepsLinksInv(c, node, replicas, up, Local(action))
  {
    if !action.Send? && !action.Read? {
      LocalKeepsLinks(c, node, replicas, action);
    }
  }

  lemma TransmitStepKeepsLinks(c: string, node: Node, replicas: map<string, ReplicaState>, up: set<string>,
                               a: NodeAction)
    requires AC.CallerInv(node.caller) && NodeInv(c, node, replicas) && a.Transmit?
    ensures StepKeepsLinksInv(c, node, replicas, up, a)
  {
    TransmitReduces(c, node, replicas, up, a);
    if CanTransmit(node, a.replica) {
      TransmitKeepsLinks(c, node, replicas, a.replica, a.queued);
    }
  }

  lemma TransmitReduces(c: string, node: Node, replicas: map<string, ReplicaState>, up: set<string>, a: NodeAction)
    requires a.Transmit? && node.links.Keys <= replicas.Keys
    ensures LinksInv(c, (if CanTransmit(node, a.replica) then AC.Step(node.caller, AC.Send(a.replica))
                         else node.caller).client,
                     if CanTransmit(node, a.replica)
                     then node.links[a.replica := Sending(c, node, a.replica, a.queued)] else node.links, replicas) ==>
              StepKeepsLinksInv(c, node, replicas, up, a)
  {
  }

  lemma DeliverStepKeepsLinks(c: string, node: Node, replicas: map<string, ReplicaState>, up: set<string>, r: string)
    requires AC.CallerInv(node.caller) && NodeInv(c, node, replicas)
    ensures StepKeepsLinksInv(c, node, replicas, up, Deliver(r))
  {
    hide AC.Step, LinkInv, AC.CacheExact, AC.Broadcast, AC.FutureMatches;
    if CanDeliver(node, r) {
      DeliverKeepsLinks(c, node, replicas, r);
    }
  }

  lemma StepKeepsLinks(c: string, node: Node, replicas: map<string, ReplicaState>, up: set<string>, a: NodeAction)
    requires AC.CallerInv(node.caller) && NodeInv(c, node, replicas)
    ensures StepKeepsLinksInv(c, node, replicas, up, a)
  {
    match a
    case ServeHead(r) => ServeStepKeepsLinks(c, node, replicas, up, r);
    case CutUp(_, _) => CutStepKeepsLinks(c, node, replicas, up, a);
    case CutDown(_, _) => CutStepKeepsLinks(c, node, replicas, up, a);
    case Local(action) => LocalStepKeepsLinks(c, node, replicas, up, action);
    case Transmit(_, _) => TransmitStepKeepsLinks(c, node, replicas, up, a);
    case Deliver(r) => DeliverStepKeepsLinks(c, node, replicas, up, r);
  }

  /** Every step of a client and its connections keeps its invariant. */
  lemma NodeStepKeepsInv(c: string, node: Node, replicas: map<string, ReplicaState>, up: set<string>, a: NodeAction)
    requires AC.CallerInv(node.caller) && NodeInv(c, node, replicas)
    ensures NodeInv(c, NodeStep(c, node, replicas, up, a), ReplicasAfter(node, replicas, up, a))
  {
    CallerStepKeepsIdentity(c, node, replicas, a);
    StepKeepsLinks(c, node, replicas, up, a);
  }

  /** A step of one client changes no other client's slot at any replica. */
  lemma StepKeepsSlots(c: string, node: Node, replicas: map<string, ReplicaState>, up: set<string>, a: NodeAction,
                       d: string)
    requires NodeInv(c, node, replicas) && d != c
    ensures ReplicasAfter(node, replicas, up, a).Keys == replicas.Keys
    ensures forall q :: q in replicas ==> SlotOf(ReplicasAfter(node, replicas, up, a)[q], d) == SlotOf(replicas[q], d)
  {
    if a.ServeHead? && CanServe(node, replicas, up, a.replica) {
      ServeKeepsLinks(c, node, replicas, a.replica);
    }
  }

  /** A client's invariant depends on the replicas only through its own slots. */
  lemma OthersKeepInv(d: string, node: Node, replicas: map<string, ReplicaState>, replicas1: map<string, ReplicaState>)
    requires NodeInv(d, node, replicas) && replicas1.Keys == replicas.Keys
    requires forall q :: q in replicas ==> SlotOf(replicas1[q], d) == SlotOf(replicas[q], d)
    ensures NodeInv(d, node, replicas1)
  {
  }

  lemma StepKeepsInv(s: System, a: Action)
    requires Inv(s)
    ensures Inv(Step(s, a))
  {
    if a.At? && a.client in s.nodes {
      var c, node := a.client, s.nodes[a.client];
      var replicas := ReplicasAfter(node, s.replicas, s.up, a.action);
      CallerStepKeepsInv(node, a.action);
      NodeStepKeepsInv(c, node, s.replicas, s.up, a.action);
      forall d | d in s.nodes && d != c
        ensures NodeInv(d, s.nodes[d], replicas)
      {
        StepKeepsSlots(c, node, s.replicas, s.up, a.action, d);
        OthersKeepInv(d, s.nodes[d], s.replicas, replicas);
      }
    }
  }

  // ----- Safety over all runs -----

  function After(s: System, run: seq<Action>): System {
    if run == [] then s else Step(After(s, run[..|run| - 1]), run[|run| - 1])
  }

  lemma {:induction false} RunKeepsInv(s: System, run: seq<Action>)
    requires Inv(s)
    ensures Inv(After(s, run))
  {
    if run != [] {
      RunKeepsInv(s, run[..|run| - 1]);
      StepKeepsInv(After(s, run[..|run| - 1]), run[|run| - 1]);
    }
  }

  /** The specification: one fault-free server that counts the calls of each client. */
  type Service = map<string, int>

  function Call(service: Service, c: string): (Service, Observation)
    requires c in service
  {
    (service[c := service[c] + 1], Observation(c, service[c] + 1, service[c] + 1))
  }

  /** The service that a system state stands for: the calls of each client that have returned. */
  function Abstraction(s: System): (service: Service)
    ensures service.Keys == s.nodes.Keys
  {
    map c | c in s.nodes :: s.nodes[c].caller.client.next - 1
  }

  /** A step of a client either returns the current number with the value equal to it, and moves on to the next, or
      returns nothing and leaves the number. */
  lemma NodeObservation(c: string, node: Node, replicas: map<string, ReplicaState>, a: NodeAction)
    requires AC.CallerInv(node.caller) && NodeInv(c, node, replicas)
    ensures var n := node.caller.client.next;
            || (Observed(c, node, a) == [] && CallerAfter(node, a).client.next == n)
            || (Observed(c, node, a) == [Observation(c, n, n)] && CallerAfter(node, a).client.next == n + 1)
  {
    match a
    case Local(action) => AC.ReturnsCurrentNumber(node.caller, action);
    case Transmit(r, _) => AC.ReturnsCurrentNumber(node.caller, AC.Send(r));
    case Deliver(r) =>
      if CanDeliver(node, r) {
        AC.ReturnsCurrentNumber(node.caller, AC.Read(r, node.links[r].replies[0]));
      }
    case _ =>
  }

  lemma AbstractionUpdated(s: System, t: System, c: string, node: Node)
    requires c in s.nodes && t.nodes == s.nodes[c := node]
    ensures Abstraction(t) == Abstraction(s)[c := node.caller.client.next - 1]
  {
  }

  /** Invisible to callers, or one call of the service by client `c`. */
  ghost predicate Refines(s: System, t: System, c: string) {
    || (t.trace == s.trace && Abstraction(t) == Abstraction(s))
    || (&& c in s.nodes && Abstraction(t) == Call(Abstraction(s), c).0
        && t.trace == s.trace + [Call(Abstraction(s), c).1])
  }

  lemma UpdateRefines(s: System, t: System, c: string, node: Node, observed: seq<Observation>)
    requires c in s.nodes && t.nodes == s.nodes[c := node] && t.trace == s.trace + observed
    requires var n := s.nodes[c].caller.client.next;
             || (observed == [] && node.caller.client.next == n)
             || (observed == [Observation(c, n, n)] && node.caller.client.next == n + 1)
    ensures Refines(s, t, c)
  {
    AbstractionUpdated(s, t, c, node);
    var service := Abstraction(s);
    assert service[c := service[c]] == service;
  }

  function Actor(a: Action): string {
    if a.At? then a.client else ""
  }

  /** Every step of the replicated system is either invisible or exactly one call of the service: the reply that a
      call returns carries the number and the value that the service gives. */
  lemma StepRefinesService(s: System, a: Action)
    requires Inv(s)
    ensures Refines(s, Step(s, a), Actor(a))
  {
    if a.At? && a.client in s.nodes {
      var c, node := a.client, s.nodes[a.client];
      NodeObservation(c, node, s.replicas, a.action);
      var observed := Observed(c, node, a.action);
      UpdateRefines(s, Step(s, a), c, NodeStep(c, node, s.replicas, s.up, a.action), observed);
    } else {
      assert Step(s, a).nodes == s.nodes;
    }
  }

  function Count(trace: seq<Observation>, c: string): nat {
    if trace == [] then 0
    else Count(trace[..|trace| - 1], c) + if trace[|trace| - 1].client == c then 1 else 0
  }

  /** The k-th call of each client returned number k with value k. */
  ghost predicate IsServiceTrace(trace: seq<Observation>) {
    forall i :: 0 <= i < |trace| ==>
      trace[i].num == trace[i].value == Count(trace[..i], trace[i].client) + 1
  }

  /** In every run, from the start, under any interleaving and any failures, what callers see is a trace of the
      fault-free service, and a client's number is one more than its calls that returned. */
  lemma {:induction false} RunRefinesService(config: Config, replicas: set<string>, run: seq<Action>)
    requires ValidConfig(config, replicas)
    ensures Inv(After(Init(config, replicas), run)) && TraceMatches(After(Init(config, replicas), run), config.Keys)
  {
    if run == [] {
      InitEstablishesInv(config, replicas);
    } else {
      var s, a := After(Init(config, replicas), run[..|run| - 1]), run[|run| - 1];
      RunRefinesService(config, replicas, run[..|run| - 1]);
      StepKeepsInv(s, a);
      StepRefinesService(s, a);
      ExtendTrace(s, Step(s, a), Actor(a));
    }
  }

  ghost predicate Counts(service: Service, trace: seq<Observation>) {
    forall c :: c in service ==> Count(trace, c) == service[c]
  }

  ghost predicate TraceMatches(s: System, clients: set<string>) {
    IsServiceTrace(s.trace) && s.nodes.Keys == clients && Counts(Abstraction(s), s.trace)
  }

  lemma CountSnoc(trace: seq<Observation>, o: Observation, c: string)
    ensures Count(trace + [o], c) == Count(trace, c) + if o.client == c then 1 else 0
  {
    assert (trace + [o])[..|trace|] == trace;
  }

  lemma CallExtendsTrace(service: Service, trace: seq<Observation>, c: string)
    requires IsServiceTrace(trace) && Counts(service, trace) && c in service
    ensures var (service1, observation) := Call(service, c);
            IsServiceTrace(trace + [observation]) && Counts(service1, trace + [observation])
  {
    hide Count;
    var (service1, observation) := Call(service, c);
    var longer := trace + [observation];
    forall i | 0 <= i < |longer|
      ensures longer[i].num == longer[i].value == Count(longer[..i], longer[i].client) + 1
    {
      if i < |trace| {
        assert longer[..i] == trace[..i] && longer[i] == trace[i];
      } else {
        assert longer[..i] == trace;
      }
    }
    forall d | d in service1
      ensures Count(longer, d) == service1[d]
    {
      CountSnoc(trace, observation, d);
    }
  }

  lemma ExtendTrace(s: System, t: System, c: string)
    requires TraceMatches(s, s.nodes.Keys) && Refines(s, t, c)
    ensures TraceMatches(t, s.nodes.Keys)
  {
    assert t.nodes.Keys == Abstraction(t).Keys;
    if t.trace != s.trace {
      CallExtendsTrace(Abstraction(s), s.trace, c);
    }
  }

  // ----- Exactly once: what no run can reach -----

  /** Every replica has executed requests 1..k of every client that uses it once each, k being the request its cached
      reply answers, and every reply under way carries its number as value. */
  lemma {:induction false} ExactlyOnceEverywhere(config: Config, replicas: set<string>, run: seq<Action>, c: string,
                                                 r: string)
    requires ValidConfig(config, replicas) && c in config && r in config[c]
    ensures var s := After(Init(config, replicas), run);
            && c in s.nodes && r in s.nodes[c].links && r in s.replicas
            && ExactlyOnce(c, r, SlotOf(s.replicas[r], c))
            && forall i :: 0 <= i < |s.nodes[c].links[r].replies| ==> GenuineReply(c, r, s.nodes[c].links[r].replies[i])
  {
    RunRefinesService(config, replicas, run);
    EndpointsStay(config, replicas, run, c);
    var s := After(Init(config, replicas), run);
    var link, cl := s.nodes[c].links[r], s.nodes[c].caller.client;
    assert LinkInv(c, r, Sent(cl, r), Received(cl, r), link, SlotOf(s.replicas[r], c));
    RepliesAreGenuine(c, r, Received(cl, r), Answered(SlotOf(s.replicas[r], c)), link.replies);
  }

  lemma {:induction false} RepliesAreGenuine(c: string, r: string, low: int, k: int, queue: seq<Message>)
    requires Replies(c, r, low, k, queue)
    ensures forall i :: 0 <= i < |queue| ==> GenuineReply(c, r, queue[i])
    decreases |queue|
  {
    if queue != [] {
      RepliesAreGenuine(c, r, queue[0].requestNum, k, queue[1..]);
      forall i | 0 < i < |queue|
        ensures queue[i] == queue[1..][i - 1]
      {
      }
    }
  }

  lemma StepKeepsKeys(c: string, node: Node, replicas: map<string, ReplicaState>, up: set<string>, a: NodeAction)
    ensures LinksAfter(c, node, replicas, up, a).Keys == node.links.Keys
    ensures ReplicasAfter(node, replicas, up, a).Keys == replicas.Keys
  {
  }

  lemma {:induction false} EndpointsStay(config: Config, replicas: set<string>, run: seq<Action>, c: string)
    requires ValidConfig(config, replicas) && c in config
    ensures var s := After(Init(config, replicas), run);
            c in s.nodes && s.nodes[c].links.Keys == config[c] <= s.replicas.Keys
  {
    if run != [] {
      var s, a := After(Init(config, replicas), run[..|run| - 1]), run[|run| - 1];
      EndpointsStay(config, replicas, run[..|run| - 1], c);
      if a.At? && a.client in s.nodes {
        StepKeepsKeys(a.client, s.nodes[a.client], s.replicas, s.up, a.action);
      }
    }
  }

  /** No replica ever answers a client with an error, so neither `stale_request` nor any other code is reachable. */
  lemma ServedWithoutError(config: Config, replicas: set<string>, run: seq<Action>, c: string, r: string)
    requires ValidConfig(config, replicas) && c in config
    ensures var s := After(Init(config, replicas), run);
            c in s.nodes && (CanServe(s.nodes[c], s.replicas, s.up, r) ==>
              && AddressedTo(s.nodes[c].links[r].requests[0], r)
              && GenuineReply(c, r, Process(r, s.replicas[r], s.nodes[c].links[r].requests[0]).1))
  {
    RunRefinesService(config, replicas, run);
    var s := After(Init(config, replicas), run);
    if CanServe(s.nodes[c], s.replicas, s.up, r) {
      HeadServedGenuinely(c, s.nodes[c], s.replicas, r);
    }
  }

  lemma HeadServedGenuinely(c: string, node: Node, replicas: map<string, ReplicaState>, r: string)
    requires NodeInv(c, node, replicas) && r in node.links && node.links[r].requests != []
    ensures AddressedTo(node.links[r].requests[0], r)
    ensures GenuineReply(c, r, Process(r, replicas[r], node.links[r].requests[0]).1)
  {
  }

  /** No reply is ever rejected or found to diverge: no connection is retired for a protocol error, and the
      replica-state-divergence warning is unreachable. */
  lemma DeliveredWithoutWarning(config: Config, replicas: set<string>, run: seq<Action>, c: string, r: string)
    requires ValidConfig(config, replicas) && c in config
    ensures var s := After(Init(config, replicas), run);
            c in s.nodes && (CanDeliver(s.nodes[c], r) ==>
              var event := AC.Receive(s.nodes[c].caller.client, r, s.nodes[c].links[r].replies[0]).1;
              !event.Rejected? && event != AC.Duplicate(true))
  {
    RunRefinesService(config, replicas, run);
    var s := After(Init(config, replicas), run);
    var node := s.nodes[c];
    if CanDeliver(node, r) {
      var reply := node.links[r].replies[0];
      NextReplyAccepted(c, node, s.replicas, r);
      NextReplyTaken(c, node, s.replicas, r);
      hide AC.Receive, LinkInv, AC.Accepts, AC.InSequence;
      if AC.Receive(node.caller.client, r, reply).1.Duplicate? {
        AC.DuplicateCompared(node.caller, r, reply);
      }
    }
  }

  // ----- Faults are final -----

  lemma LinkMendsNothing(c: string, node: Node, replicas: map<string, ReplicaState>, up: set<string>, a: NodeAction,
                         r: string)
    requires r in node.links
    ensures var before, links := node.links[r], LinksAfter(c, node, replicas, up, a);
            && r in links
            && (!before.upstream ==> !links[r].upstream && |links[r].requests| <= |before.requests|)
            && (!before.downstream ==> !links[r].downstream && |links[r].replies| <= |before.replies|)
            && (r !in up ==> |links[r].replies| <= |before.replies|)
  {
    hide CanTransmit, AC.Enabled, Process, AddressedTo, Rejection, RequestOf;
  }

  lemma ReplicaDownStays(node: Node, replicas: map<string, ReplicaState>, up: set<string>, a: NodeAction, r: string)
    requires r !in up
    ensures Get(ReplicasAfter(node, replicas, up, a), r) == Get(replicas, r)
  {
  }

  /** One step neither mends a broken direction nor revives a replica. */
  lemma StepMendsNothing(s: System, a: Action, c: string, r: string)
    requires c in s.nodes && r in s.nodes[c].links
    ensures var t := Step(s, a);
            c in t.nodes && r in t.nodes[c].links && NothingMended(s, t, s.nodes[c].links[r], t.nodes[c].links[r], r)
  {
    hide LinksAfter, CallerAfter, ReplicasAfter, Observed;
    if a.At? && a.client in s.nodes {
      if a.client == c {
        LinkMendsNothing(c, s.nodes[c], s.replicas, s.up, a.action, r);
      }
      if r !in s.up {
        ReplicaDownStays(s.nodes[a.client], s.replicas, s.up, a.action, r);
      }
    }
  }

  /** A broken direction stays broken and its queue never grows; a replica that is down changes no more and sends
      nothing on this connection. */
  ghost predicate NothingMended(s: System, t: System, before: Link, after: Link, r: string) {
    && (!before.upstream ==> !after.upstream && |after.requests| <= |before.requests|)
    && (!before.downstream ==> !after.downstream && |after.replies| <= |before.replies|)
    && (r !in s.up ==>
          r !in t.up && Get(t.replicas, r) == Get(s.replicas, r) && |after.replies| <= |before.replies|)
  }

  lemma {:induction false} RunMendsNothing(s: System, run: seq<Action>, c: string, r: string)
    requires c in s.nodes && r in s.nodes[c].links
    ensures var t := After(s, run);
            c in t.nodes && r in t.nodes[c].links && NothingMended(s, t, s.nodes[c].links[r], t.nodes[c].links[r], r)
  {
    hide Step;
    if run != [] {
      RunMendsNothing(s, run[..|run| - 1], c, r);
      StepMendsNothing(After(s, run[..|run| - 1]), run[|run| - 1], c, r);
    }
  }

  /** The requests and replies under way between `c` and `r`. */
  function Queued(s: System, c: string, r: string): (n: (nat, nat)) {
    if c in s.nodes && r in s.nodes[c].links then (|s.nodes[c].links[r].requests|, |s.nodes[c].links[r].replies|)
    else (0, 0)
  }

  /** What follows a fault cannot undo it: behind a cut there is never more in the queue than it kept; and whatever
      happens after a crash, the replica's counters and cache stay as they were and it sends no reply any more. */
  lemma FaultsAreFinal(s: System, run: seq<Action>, c: string, r: string, kept: nat)
    requires c in s.nodes && r in s.nodes[c].links
    ensures kept <= Queued(s, c, r).0 ==> Queued(After(Step(s, At(c, CutUp(r, kept))), run), c, r).0 <= kept
    ensures kept <= Queued(s, c, r).1 ==> Queued(After(Step(s, At(c, CutDown(r, kept))), run), c, r).1 <= kept
    ensures var t := After(Step(s, Crash(r)), run);
            Get(t.replicas, r) == Get(s.replicas, r) && Queued(t, c, r).1 <= Queued(s, c, r).1
  {
    RunMendsNothing(Step(s, At(c, CutUp(r, kept))), run, c, r);
    RunMendsNothing(Step(s, At(c, CutDown(r, kept))), run, c, r);
    RunMendsNothing(Step(s, Crash(r)), run, c, r);
    hide After;
  }

  // ----- Agreement when nothing is under way -----

  /** Between calls, every replica that the client still uses and whose requests have all arrived has counted to the
      last number the client ever sent to anyone; so any two of them agree. Only a torn broadcast may have sent one
      more, to connections that are no longer read. */
  lemma QuiescentAgreement(config: Config, replicas: set<string>, run: seq<Action>, c: string, r: string, q: string)
    requires ValidConfig(config, replicas) && c in config
    ensures var s := After(Init(config, replicas), run);
            c in s.nodes && (Quiet(s.nodes[c], r) && Quiet(s.nodes[c], q) ==>
              && r in s.replicas && q in s.replicas && c in s.replicas[r].counters && c in s.replicas[q].counters
              && s.replicas[r].counters[c] == s.replicas[q].counters[c] == Sent(s.nodes[c].caller.client, r)
              && NothingSentAfter(s.nodes[c].caller, r))
  {
    RunRefinesService(config, replicas, run);
    var s := After(Init(config, replicas), run);
    if Quiet(s.nodes[c], r) && Quiet(s.nodes[c], q) {
      QuietReplicasAgree(c, s.nodes[c], s.replicas, r, q);
    }
  }

  lemma QuietReplicasAgree(c: string, node: Node, replicas: map<string, ReplicaState>, r: string, q: string)
    requires AC.CallerInv(node.caller) && NodeInv(c, node, replicas) && Quiet(node, r) && Quiet(node, q)
    ensures r in replicas && q in replicas && c in replicas[r].counters && c in replicas[q].counters
    ensures replicas[r].counters[c] == replicas[q].counters[c] == Sent(node.caller.client, r)
    ensures NothingSentAfter(node.caller, r)
  {
    QuietCounter(c, node, replicas, r);
    QuietCounter(c, node, replicas, q);
    LiveAgree(node.caller, r, q);
  }

  /** Connection `x` is no longer read, and the last broadcast was cancelled after its number had gone there. */
  predicate Torn(caller: AC.Caller, x: string) {
    caller.torn && x in caller.client.conns && !caller.client.conns[x].task.Reading?
  }

  ghost predicate NothingSentAfter(caller: AC.Caller, r: string) {
    forall x :: Sent(caller.client, x) <= Sent(caller.client, r) || Torn(caller, x)
  }

  lemma LiveAgree(caller: AC.Caller, r: string, q: string)
    requires AC.CallerInv(caller) && caller.call.Idle? && {r, q} <= caller.client.live
    ensures Sent(caller.client, r) == Sent(caller.client, q)
  {
  }

  /** No call is in progress, and replica `r` is in use and has all requests that were sent to it. */
  predicate Quiet(node: Node, r: string) {
    && node.caller.call.Idle? && r in node.caller.client.live
    && r in node.links && node.links[r].upstream && node.links[r].requests == []
  }

  /** Broadcasts that are never cancelled are never torn. */
  lemma {:induction false} UncancelledIsWhole(config: Config, replicas: set<string>, run: seq<Action>, c: string)
    requires c in config && forall i :: 0 <= i < |run| ==> run[i] != At(c, Local(AC.Cancel))
    ensures var s := After(Init(config, replicas), run); c in s.nodes && !s.nodes[c].caller.torn
  {
    if run != [] {
      var s, a := After(Init(config, replicas), run[..|run| - 1]), run[|run| - 1];
      UncancelledIsWhole(config, replicas, run[..|run| - 1], c);
      if a.At? && a.client == c {
        CallerStaysWhole(s.nodes[c], a.action);
      }
    }
  }

  lemma CallerStaysWhole(node: Node, a: NodeAction)
    requires !node.caller.torn && a != Local(AC.Cancel)
    ensures !CallerAfter(node, a).torn
  {
    match a
    case Local(action) => AC.OnlyCancelTears(node.caller, action);
    case Transmit(r, _) => AC.OnlyCancelTears(node.caller, AC.Send(r));
    case Deliver(r) =>
      if CanDeliver(node, r) {
        AC.OnlyCancelTears(node.caller, AC.Read(r, node.links[r].replies[0]));
      }
    case _ =>
  }

  lemma QuietCounter(c: string, node: Node, replicas: map<string, ReplicaState>, r: string)
    requires AC.CallerInv(node.caller) && NodeInv(c, node, replicas) && Quiet(node, r)
    ensures r in replicas && Get(replicas[r].counters, c) == Some(Sent(node.caller.client, r))
    ensures NothingSentAfter(node.caller, r)
  {
    var cl := node.caller.client;
    assert LinkInv(c, r, Sent(cl, r), Received(cl, r), node.links[r], SlotOf(replicas[r], c));
  }

  // ----- Progress through any single replica -----

  /** The client still sends to and reads from replica `r`, over an unbroken connection. */
  predicate HealthyLink(node: Node, r: string) {
    r in node.links && node.links[r].upstream && node.links[r].downstream && AC.InUse(node.caller.client, r)
  }

  predicate Healthy(s: System, c: string, r: string) {
    c in s.nodes && r in s.replicas && r in s.up && HealthyLink(s.nodes[c], r)
  }

  /** What can happen to the connection between `c` and `r`, and to no other: its replica crashes, its send is lost or
      fails, its read fails, or one of its directions breaks. */
  predicate Harms(a: Action, c: string, r: string) {
    match a
    case Crash(q) => q == r
    case At(d, action) =>
      && d == c
      && match action {
        case Local(section) => section == AC.SendFailed(r) || section == AC.ReadFailed(r)
        case Transmit(q, queued) => q == r && !queued
        case CutUp(q, _) => q == r
        case CutDown(q, _) => q == r
        case _ => false
      }
  }

  /** The client's side of a connection. */
  lemma StaysInUse(c: string, node: Node, replicas: map<string, ReplicaState>, a: NodeAction, r: string)
    requires AC.CallerInv(node.caller) && NodeInv(c, node, replicas) && AC.InUse(node.caller.client, r)
    requires !Harms(At(c, a), c, r)
    ensures AC.InUse(CallerAfter(node, a).client, r)
  {
    hide AC.Step, AC.CallerInv, AC.Receive, NodeInv, AC.InUse;
    match a
    case Local(action) => AC.StaysInUse(node.caller, action, r);
    case Transmit(q, _) => AC.StaysInUse(node.caller, AC.Send(q), r);
    case Deliver(q) =>
      if CanDeliver(node, q) {
        NextReplyTaken(c, node, replicas, q);
        AC.StaysInUse(node.caller, AC.Read(q, node.links[q].replies[0]), r);
      }
    case _ =>
  }

  lemma NextReplyTaken(c: string, node: Node, replicas: map<string, ReplicaState>, r: string)
    requires AC.CallerInv(node.caller) && NodeInv(c, node, replicas) && CanDeliver(node, r)
    ensures !AC.Receive(node.caller.client, r, node.links[r].replies[0]).1.Rejected?
  {
    NextReplyAccepted(c, node, replicas, r);
    AC.UnexpectedNumberIsDead(node.caller, r, node.links[r].replies[0]);
    hide AC.CallerInv, AC.Receive, AC.Accepts, LinkInv, GenuineReply;
  }

  /** The two directions: a request at the head is addressed to the replica, so serving it breaks nothing. */
  lemma StaysUnbroken(c: string, node: Node, replicas: map<string, ReplicaState>, up: set<string>, a: NodeAction,
                      r: string)
    requires NodeInv(c, node, replicas) && r in node.links && node.links[r].upstream && node.links[r].downstream
    requires !Harms(At(c, a), c, r)
    ensures var links := LinksAfter(c, node, replicas, up, a); r in links && links[r].upstream && links[r].downstream
  {
    hide NodeInv, CanTransmit, CanDeliver, CanServe, Serve;
    if a.ServeHead? {
      ServeStaysUnbroken(c, node, replicas, up, a.replica, r);
    }
  }

  lemma ServeStaysUnbroken(c: string, node: Node, replicas: map<string, ReplicaState>, up: set<string>, q: string,
                           r: string)
    requires NodeInv(c, node, replicas) && r in node.links && node.links[r].upstream && node.links[r].downstream
    ensures var links := LinksAfter(c, node, replicas, up, ServeHead(q));
            r in links && links[r].upstream && links[r].downstream
  {
    if CanServe(node, replicas, up, q) {
      HeadServedGenuinely(c, node, replicas, q);
    }
    hide LinkInv, Process, AddressedTo;
  }

  /** Whatever happens elsewhere, to other clients, other replicas and other connections of this client, whatever times
      out, is cancelled or retired: a healthy connection stays healthy until something happens to it. */
  lemma HealthySurvives(s: System, a: Action, c: string, r: string)
    requires Inv(s) && Healthy(s, c, r) && !Harms(a, c, r)
    ensures Healthy(Step(s, a), c, r)
  {
    hide NodeInv, AC.CallerInv, AC.InUse, LinksAfter, CallerAfter;
    if a.At? && a.client in s.nodes {
      StepKeepsKeys(a.client, s.nodes[a.client], s.replicas, s.up, a.action);
      if a.client == c {
        StaysInUse(c, s.nodes[c], s.replicas, a.action, r);
        StaysUnbroken(c, s.nodes[c], s.replicas, s.up, a.action, r);
      }
    }
  }

  lemma {:induction false} HealthyStays(s: System, run: seq<Action>, c: string, r: string)
    requires Inv(s) && Healthy(s, c, r) && forall i :: 0 <= i < |run| ==> !Harms(run[i], c, r)
    ensures Inv(After(s, run)) && Healthy(After(s, run), c, r)
  {
    hide Step, Inv, Healthy, Harms;
    if run != [] {
      var before := run[..|run| - 1];
      HealthyStays(s, before, c, r);
      StepKeepsInv(After(s, before), run[|run| - 1]);
      HealthySurvives(After(s, before), run[|run| - 1], c, r);
    }
  }

  function Backlog(node: Node, r: string): nat
    requires r in node.links
  {
    2 * |node.links[r].requests| + |node.links[r].replies|
  }

  /** The next thing to do on a connection that has a backlog. */
  function Pump(node: Node, r: string): NodeAction
    requires r in node.links
  {
    if node.links[r].requests != [] then ServeHead(r) else Deliver(r)
  }

  lemma ServeShortensBacklog(c: string, node: Node, replicas: map<string, ReplicaState>, up: set<string>, r: string)
    requires NodeInv(c, node, replicas) && HealthyLink(node, r) && r in up && node.links[r].requests != []
    ensures var t := NodeStep(c, node, replicas, up, ServeHead(r));
            HealthyLink(t, r) && Backlog(t, r) == Backlog(node, r) - 1 && t.caller == node.caller
  {
  }

  lemma DeliverShortensBacklog(c: string, node: Node, replicas: map<string, ReplicaState>, up: set<string>, r: string)
    requires AC.CallerInv(node.caller) && NodeInv(c, node, replicas) && HealthyLink(node, r)
             && node.links[r].replies != []
    ensures var t := NodeStep(c, node, replicas, up, Deliver(r));
            && HealthyLink(t, r) && Backlog(t, r) == Backlog(node, r) - 1
            && t.caller.call == node.caller.call && t.caller.client.next == node.caller.client.next
  {
    hide AC.Step, AC.CallerInv, AC.Accepts, AC.InSequence, LinkInv;
    NextReplyAccepted(c, node, replicas, r);
    DeliveryGoesOn(node.caller, r, node.links[r].replies[0]);
  }

  lemma DeliveryGoesOn(caller: AC.Caller, r: string, reply: Message)
    requires AC.CallerInv(caller) && AC.InUse(caller.client, r) && reply.ClientReply?
    requires AC.InSequence(caller.client.conns[r], reply.requestNum) && AC.Accepts(caller.client.id, r, reply)
    ensures var t := AC.Step(caller, AC.Read(r, reply));
            AC.InUse(t.client, r) && t.call == caller.call && t.client.next == caller.client.next
  {
    AC.AcceptedReadFrame(caller, r, reply);
    hide AC.Step, AC.CallerInv, AC.Accepts;
  }

  /** Serving a healthy connection shortens its backlog by one and disturbs neither the connection nor the call. */
  lemma PumpShortensBacklog(s: System, c: string, r: string)
    requires Inv(s) && Healthy(s, c, r) && Backlog(s.nodes[c], r) > 0
    ensures var t := Step(s, At(c, Pump(s.nodes[c], r)));
            && Inv(t) && Healthy(t, c, r) && Backlog(t.nodes[c], r) == Backlog(s.nodes[c], r) - 1
            && t.nodes[c].caller.call == s.nodes[c].caller.call
            && t.nodes[c].caller.client.next == s.nodes[c].caller.client.next
  {
    var node := s.nodes[c];
    StepKeepsInv(s, At(c, Pump(node, r)));
    StepKeepsKeys(c, node, s.replicas, s.up, Pump(node, r));
    if node.links[r].requests != [] {
      ServeShortensBacklog(c, node, s.replicas, s.up, r);
    } else {
      DeliverShortensBacklog(c, node, s.replicas, s.up, r);
    }
  }

  /** The current call of `c` can return now, with its number `n` and the value `n`. */
  predicate CanReturn(s: System, c: string, n: int) {
    c in s.nodes && Observed(c, s.nodes[c], Local(AC.Return)) == [Observation(c, n, n)]
  }

  /** After a completed broadcast, a healthy connection without backlog has brought the reply. */
  lemma DrainedCallReturns(s: System, c: string, r: string)
    requires Inv(s) && Healthy(s, c, r) && Backlog(s.nodes[c], r) == 0 && s.nodes[c].caller.call.Waiting?
    ensures CanReturn(s, c, s.nodes[c].caller.client.next)
  {
    DrainedHasReceived(c, s.nodes[c], s.replicas, r);
    ReceivedCallReturns(c, s.nodes[c], r);
  }

  lemma DrainedHasReceived(c: string, node: Node, replicas: map<string, ReplicaState>, r: string)
    requires AC.CallerInv(node.caller) && NodeInv(c, node, replicas) && HealthyLink(node, r)
    requires Backlog(node, r) == 0 && node.caller.call.Waiting?
    ensures Received(node.caller.client, r) == node.caller.client.next
  {
  }

  lemma ReceivedCallReturns(c: string, node: Node, r: string)
    requires AC.CallerInv(node.caller) && Genuine(node.caller.history) && node.caller.call.Waiting?
    requires r in node.caller.client.conns && Received(node.caller.client, r) == node.caller.client.next
    ensures Observed(c, node, Local(AC.Return)) == [Observation(c, node.caller.client.next, node.caller.client.next)]
  {
  }

  lemma {:induction false} AfterCons(s: System, a: Action, run: seq<Action>)
    ensures After(s, [a] + run) == After(Step(s, a), run)
  {
    if run == [] {
      assert [a] + run == [a] && [a][..0] == [];
    } else {
      var n := |run| - 1;
      AfterCons(s, a, run[..n]);
      assert ([a] + run)[..n + 1] == [a] + run[..n];
    }
  }

  /** Only replica `r` serves and only its replies are read. */
  predicate Pumps(run: seq<Action>, c: string, r: string) {
    forall i :: 0 <= i < |run| ==> run[i] == At(c, ServeHead(r)) || run[i] == At(c, Deliver(r))
  }

  lemma PumpsCons(a: Action, run: seq<Action>, c: string, r: string)
    requires Pumps(run, c, r) && (a == At(c, ServeHead(r)) || a == At(c, Deliver(r)))
    ensures Pumps([a] + run, c, r)
  {
  }

  /** From every reachable state in which a client waits after its broadcast, one healthy connection suffices: serving
      only that connection, at most 2·requests + replies times, lets the call return its number with value equal to
      it, whatever happened to all other replicas. */
  lemma Progress(config: Config, replicas: set<string>, run: seq<Action>, c: string, r: string)
    returns (more: seq<Action>)
    requires ValidConfig(config, replicas)
    requires var s := After(Init(config, replicas), run); Healthy(s, c, r) && s.nodes[c].caller.call.Waiting?
    ensures var s := After(Init(config, replicas), run);
            && |more| == Backlog(s.nodes[c], r) && Pumps(more, c, r)
            && CanReturn(After(s, more), c, s.nodes[c].caller.client.next)
  {
    RunRefinesService(config, replicas, run);
    more := Pumped(After(Init(config, replicas), run), c, r);
  }

  lemma {:induction false} Pumped(s: System, c: string, r: string) returns (run: seq<Action>)
    requires Inv(s) && Healthy(s, c, r) && s.nodes[c].caller.call.Waiting?
    ensures |run| == Backlog(s.nodes[c], r) && Pumps(run, c, r)
    ensures CanReturn(After(s, run), c, s.nodes[c].caller.client.next)
    decreases Backlog(s.nodes[c], r)
  {
    if Backlog(s.nodes[c], r) == 0 {
      DrainedCallReturns(s, c, r);
      run := [];
    } else {
      var a := At(c, Pump(s.nodes[c], r));
      PumpShortensBacklog(s, c, r);
      var rest := Pumped(Step(s, a), c, r);
      AfterCons(s, a, rest);
      PumpsCons(a, rest, c, r);
      run := [a] + rest;
    }
  }

  // ----- From any point of a call, even before it -----

  /** Only the call of `c` goes on, over the connection to `r` alone: every send to another replica is lost and fails,
      which retires that replica. */
  predicate ThroughAlone(run: seq<Action>, c: string, r: string) {
    forall i :: 0 <= i < |run| ==> Through(run[i], c, r)
  }

  predicate Through(a: Action, c: string, r: string) {
    && a.At? && a.client == c
    && match a.action {
      case Local(action) =>
        action.Begin? || action.Broadcasted? || action.Return? || (action.SendFailed? && action.replica != r)
      case Transmit(q, queued) => queued <==> q == r
      case ServeHead(q) => q == r
      case Deliver(q) => q == r
      case _ => false
    }
  }

  lemma {:induction false} AfterAppend(s: System, run: seq<Action>, more: seq<Action>)
    ensures After(s, run + more) == After(After(s, run), more)
  {
    hide Step;
    if more == [] {
      assert run + more == run;
    } else {
      var n := |more| - 1;
      AfterAppend(s, run, more[..n]);
      assert (run + more)[..|run| + n] == run + more[..n];
    }
  }

  lemma AfterOne(s: System, a: Action)
    ensures After(s, [a]) == Step(s, a)
  {
    hide Step;
    assert [a][..0] == [];
    assert After(s, []) == s;
  }

  /** The call begins: it returns a late reply at once, or starts a broadcast to all replicas in use. */
  lemma BeginStarts(c: string, node: Node, replicas: map<string, ReplicaState>, up: set<string>, r: string)
    requires AC.CallerInv(node.caller) && HealthyLink(node, r) && node.caller.call.Idle?
    ensures var t := NodeStep(c, node, replicas, up, Local(AC.Begin));
            if AC.LateReplyWaits(node.caller.client) then Observed(c, node, Local(AC.Begin)) != []
            else && HealthyLink(t, r) && t.caller.call.Broadcasting? && t.caller.client.next == node.caller.client.next
                 && Observed(c, node, Local(AC.Begin)) == []
  {
  }

  /** The broadcast still can be sent to every replica it was not sent to. */
  lemma UnsentCanBeSent(c: string, node: Node, replicas: map<string, ReplicaState>, q: string)
    requires AC.CallerInv(node.caller) && NodeInv(c, node, replicas)
    requires node.caller.call.Broadcasting? && q in node.caller.call.unsent
    ensures CanTransmit(node, q)
  {
  }

  /** One send of the broadcast, successful only to `r`. */
  lemma SendGoesOn(c: string, node: Node, replicas: map<string, ReplicaState>, up: set<string>, r: string, q: string)
    requires HealthyLink(node, r) && CanTransmit(node, q)
    ensures var t := NodeStep(c, node, replicas, up, NodeAction.Transmit(q, q == r));
            && HealthyLink(t, r) && t.caller.call == AC.Broadcasting(node.caller.call.unsent - {q})
            && t.caller.client.next == node.caller.client.next && q in t.caller.client.conns
  {
    hide RequestOf;
  }

  lemma BroadcastEnds(c: string, node: Node, replicas: map<string, ReplicaState>, up: set<string>, r: string)
    requires HealthyLink(node, r) && node.caller.call == AC.Broadcasting({})
    ensures var t := NodeStep(c, node, replicas, up, Local(AC.Broadcasted));
            HealthyLink(t, r) && t.caller.call.Waiting? && t.caller.client.next == node.caller.client.next
    ensures Observed(c, node, Local(AC.Broadcasted)) == []
  {
  }

  /** A step of `c` that returns nothing, seen from the whole system. */
  lemma NodeStepAt(s: System, c: string, a: NodeAction)
    requires Inv(s) && c in s.nodes
    ensures var t := Step(s, At(c, a));
            && Inv(t) && c in t.nodes && t.nodes[c] == NodeStep(c, s.nodes[c], s.replicas, s.up, a)
            && t.up == s.up && t.replicas.Keys == s.replicas.Keys && t.trace == s.trace + Observed(c, s.nodes[c], a)
  {
    StepKeepsInv(s, At(c, a));
    StepKeepsKeys(c, s.nodes[c], s.replicas, s.up, a);
  }

  /** A broadcast in progress can be completed. */
  lemma {:induction false} BroadcastCompletes(s: System, c: string, r: string) returns (run: seq<Action>)
    requires Inv(s) && Healthy(s, c, r) && s.nodes[c].caller.call.Broadcasting?
    ensures ThroughAlone(run, c, r)
    ensures var t := After(s, run);
            && Inv(t) && Healthy(t, c, r) && t.nodes[c].caller.call.Waiting? && t.trace == s.trace
            && t.nodes[c].caller.client.next == s.nodes[c].caller.client.next
    decreases |s.nodes[c].caller.call.unsent|
  {
    hide Step, Inv, NodeStep, After;
    var node := s.nodes[c];
    if q :| q in node.caller.call.unsent {
      var sending := SendIfHealthy(s, c, r, q);
      var rest := BroadcastCompletes(After(s, sending), c, r);
      AfterAppend(s, sending, rest);
      run := sending + rest;
    } else {
      assert node.caller.call.unsent == {};
      NodeStepAt(s, c, Local(AC.Broadcasted));
      BroadcastEnds(c, node, s.replicas, s.up, r);
      run := [At(c, Local(AC.Broadcasted))];
      AfterOne(s, run[0]);
      assert s.trace + [] == s.trace;
    }
  }

  lemma SendInSystem(s: System, c: string, r: string, q: string)
    requires Inv(s) && Healthy(s, c, r) && s.nodes[c].caller.call.Broadcasting? && q in s.nodes[c].caller.call.unsent
    ensures var node, t := s.nodes[c], NodeStep(c, s.nodes[c], s.replicas, s.up, NodeAction.Transmit(q, q == r));
            && HealthyLink(t, r) && t.caller.call == AC.Broadcasting(node.caller.call.unsent - {q})
            && t.caller.client.next == node.caller.client.next && q in t.caller.client.conns
            && Observed(c, node, NodeAction.Transmit(q, q == r)) == []
  {
    UnsentCanBeSent(c, s.nodes[c], s.replicas, q);
    SendGoesOn(c, s.nodes[c], s.replicas, s.up, r, q);
  }

  /** The write to `r` succeeds; any other is lost, times out, and retires its replica. */
  lemma SendIfHealthy(s: System, c: string, r: string, q: string) returns (run: seq<Action>)
    requires Inv(s) && Healthy(s, c, r) && s.nodes[c].caller.call.Broadcasting? && q in s.nodes[c].caller.call.unsent
    ensures ThroughAlone(run, c, r)
    ensures var t := After(s, run);
            && Inv(t) && Healthy(t, c, r) && t.trace == s.trace
            && t.nodes[c].caller.call == AC.Broadcasting(s.nodes[c].caller.call.unsent - {q})
            && t.nodes[c].caller.client.next == s.nodes[c].caller.client.next
            && (q != r ==> q !in t.nodes[c].caller.client.live)
  {
    hide Step, Inv, NodeStep, After;
    var send, fail := At(c, NodeAction.Transmit(q, q == r)), At(c, Local(AC.SendFailed(q)));
    NodeStepAt(s, c, send.action);
    SendInSystem(s, c, r, q);
    AfterOne(s, send);
    run := [send];
    assert s.trace + [] == s.trace;
    if q != r {
      var t := Step(s, send);
      NodeStepAt(t, c, fail.action);
      FailedSendRetires(c, t.nodes[c], t.replicas, t.up, r, q);
      AfterOne(t, fail);
      AfterAppend(s, [send], [fail]);
      run := [send] + [fail];
    }
  }

  lemma FailedSendRetires(c: string, node: Node, replicas: map<string, ReplicaState>, up: set<string>, r: string,
                          q: string)
    requires HealthyLink(node, r) && q != r && node.caller.call.Broadcasting? && q !in node.caller.call.unsent
    ensures var t := NodeStep(c, node, replicas, up, Local(AC.SendFailed(q)));
            && HealthyLink(t, r) && t.caller.call == node.caller.call
            && t.caller.client.next == node.caller.client.next
            && (q in node.caller.client.conns ==> t.caller.client.live == node.caller.client.live - {q})
    ensures Observed(c, node, Local(AC.SendFailed(q))) == []
  {
  }

  /** A call that waits returns, served by this connection alone. */
  lemma WaitingReturns(s: System, c: string, r: string) returns (run: seq<Action>)
    requires Inv(s) && Healthy(s, c, r) && s.nodes[c].caller.call.Waiting?
    ensures ThroughAlone(run, c, r)
    ensures var n := s.nodes[c].caller.client.next; After(s, run).trace == s.trace + [Observation(c, n, n)]
  {
    hide Step, Inv;
    var pumping := Pumped(s, c, r);
    PumpsSilently(s, pumping, c, r);
    var t, last := After(s, pumping), At(c, Local(AC.Return));
    RunKeepsInv(s, pumping);
    NodeStepAt(t, c, last.action);
    AfterAppend(s, pumping, [last]);
    AfterOne(t, last);
    run := pumping + [last];
  }

  lemma {:induction false} PumpsSilently(s: System, run: seq<Action>, c: string, r: string)
    requires Pumps(run, c, r)
    ensures After(s, run).trace == s.trace
  {
    if run != [] {
      PumpsSilently(s, run[..|run| - 1], c, r);
    }
  }

  /** From every reachable state, idle, in the middle of a broadcast or waiting, one healthy connection suffices:
      without any other replica, whether its sends fail and retire it or its replies never come, the call of the current
      number can begin, go on and return that number with value equal to it. */
  lemma OneReplicaSuffices(config: Config, replicas: set<string>, run: seq<Action>, c: string, r: string)
    returns (more: seq<Action>)
    requires ValidConfig(config, replicas) && Healthy(After(Init(config, replicas), run), c, r)
    ensures ThroughAlone(more, c, r)
    ensures var s := After(Init(config, replicas), run);
            var n := s.nodes[c].caller.client.next;
            After(s, more).trace == s.trace + [Observation(c, n, n)]
  {
    RunRefinesService(config, replicas, run);
    more := CallReturns(After(Init(config, replicas), run), c, r);
  }

  lemma CallReturns(s: System, c: string, r: string) returns (run: seq<Action>)
    requires Inv(s) && Healthy(s, c, r)
    ensures ThroughAlone(run, c, r)
    ensures var n := s.nodes[c].caller.client.next; After(s, run).trace == s.trace + [Observation(c, n, n)]
  {
    hide Step, Inv, NodeStep, After;
    match s.nodes[c].caller.call
    case Waiting => run := WaitingReturns(s, c, r);
    case Broadcasting(_) => run := BroadcastReturns(s, c, r);
    case Idle =>
      var begin := At(c, Local(AC.Begin));
      NodeStepAt(s, c, begin.action);
      BeginInSystem(s, c, r);
      var t := Step(s, begin);
      if AC.LateReplyWaits(s.nodes[c].caller.client) {
        run := [begin];
        AfterOne(s, begin);
      } else {
        var rest := BroadcastReturns(t, c, r);
        AfterCons(s, begin, rest);
        run := [begin] + rest;
        assert s.trace + [] == s.trace;
      }
  }

  lemma BeginInSystem(s: System, c: string, r: string)
    requires Inv(s) && Healthy(s, c, r) && s.nodes[c].caller.call.Idle?
    ensures var node, n := s.nodes[c], s.nodes[c].caller.client.next;
            var t := NodeStep(c, node, s.replicas, s.up, Local(AC.Begin));
            if AC.LateReplyWaits(node.caller.client) then Observed(c, node, Local(AC.Begin)) == [Observation(c, n, n)]
            else && HealthyLink(t, r) && t.caller.call.Broadcasting? && t.caller.client.next == n
                 && Observed(c, node, Local(AC.Begin)) == []
  {
    BeginStarts(c, s.nodes[c], s.replicas, s.up, r);
    NodeObservation(c, s.nodes[c], s.replicas, Local(AC.Begin));
  }

  lemma BroadcastReturns(s: System, c: string, r: string) returns (run: seq<Action>)
    requires Inv(s) && Healthy(s, c, r) && s.nodes[c].caller.call.Broadcasting?
    ensures ThroughAlone(run, c, r)
    ensures var n := s.nodes[c].caller.client.next; After(s, run).trace == s.trace + [Observation(c, n, n)]
  {
    hide Step, Inv, After;
    var sending := BroadcastCompletes(s, c, r);
    var returning := WaitingReturns(After(s, sending), c, r);
    AfterAppend(s, sending, returning);
    run := sending + returning;
  }

  /** And after whatever follows from there, as long as nothing happens to that connection itself: crashes and
      retirements of all other replicas, calls that returned, timed out or were cancelled, other clients. */
  lemma SurvivorSuffices(config: Config, replicas: set<string>, run: seq<Action>, failures: seq<Action>, c: string,
                         r: string)
    returns (more: seq<Action>)
    requires ValidConfig(config, replicas) && Healthy(After(Init(config, replicas), run), c, r)
    requires forall i :: 0 <= i < |failures| ==> !Harms(failures[i], c, r)
    ensures ThroughAlone(more, c, r)
    ensures var s := After(After(Init(config, replicas), run), failures);
            && c in s.nodes
            && var n := s.nodes[c].caller.client.next; After(s, more).trace == s.trace + [Observation(c, n, n)]
  {
    RunRefinesService(config, replicas, run);
    HealthyStays(After(Init(config, replicas), run), failures, c, r);
    more := CallReturns(After(After(Init(config, replicas), run), failures), c, r);
  }

  /** Only readers of replicas other than `r` fail. */
  predicate OthersFail(run: seq<Action>, c: string, r: string) {
    forall i :: 0 <= i < |run| ==>
      run[i].At? && run[i].client == c && run[i].action.Local? && run[i].action.action.ReadFailed?
      && run[i].action.action.replica != r
  }

  /** In particular all other replicas can be retired, in the middle of a call too, and the last one finishes it. */
  lemma LastReplicaSuffices(config: Config, replicas: set<string>, run: seq<Action>, c: string, r: string)
    returns (failures: seq<Action>, more: seq<Action>)
    requires ValidConfig(config, replicas) && Healthy(After(Init(config, replicas), run), c, r)
    ensures OthersFail(failures, c, r) && ThroughAlone(more, c, r)
    ensures var s := After(Init(config, replicas), run);
            var t, n := After(s, failures), s.nodes[c].caller.client.next;
            && c in t.nodes && t.nodes[c].caller.client.live == {r} && t.nodes[c].caller.call == s.nodes[c].caller.call
            && After(t, more).trace == s.trace + [Observation(c, n, n)]
  {
    hide After, Inv;
    RunRefinesService(config, replicas, run);
    failures := OthersRetire(After(Init(config, replicas), run), c, r);
    more := CallReturns(After(After(Init(config, replicas), run), failures), c, r);
  }

  lemma {:induction false} OthersRetire(s: System, c: string, r: string) returns (run: seq<Action>)
    requires Inv(s) && Healthy(s, c, r)
    ensures OthersFail(run, c, r)
    ensures var t := After(s, run);
            && Inv(t) && Healthy(t, c, r) && t.trace == s.trace && t.nodes[c].caller.client.live == {r}
            && t.nodes[c].caller.call == s.nodes[c].caller.call
            && t.nodes[c].caller.client.next == s.nodes[c].caller.client.next
    decreases |s.nodes[c].caller.client.live|
  {
    hide Step, NodeStep, Inv;
    var live := s.nodes[c].caller.client.live;
    if q :| q in live - {r} {
      var a := At(c, Local(AC.ReadFailed(q)));
      NodeStepAt(s, c, a.action);
      FailedReadRetires(s, c, r, q);
      var rest := OthersRetire(Step(s, a), c, r);
      AfterCons(s, a, rest);
      run := [a] + rest;
      assert s.trace + [] == s.trace;
    } else {
      assert live - {r} == {};
      assert live == {r};
      run := [];
    }
  }

  lemma FailedReadRetires(s: System, c: string, r: string, q: string)
    requires Inv(s) && Healthy(s, c, r) && q != r && q in s.nodes[c].caller.client.live
    ensures Retired(s.nodes[c], NodeStep(c, s.nodes[c], s.replicas, s.up, Local(AC.ReadFailed(q))), r, q)
    ensures Observed(c, s.nodes[c], Local(AC.ReadFailed(q))) == []
  {
    hide NodeStep, Retired, NodeInv, HealthyLink;
    LiveIsRead(s.nodes[c].caller, q);
    ReadFailureRetires(c, s.nodes[c], s.replicas, s.up, r, q);
  }

  /** Replica `q` is out of use, the connection to `r` and the call go on. */
  ghost predicate Retired(node: Node, node1: Node, r: string, q: string) {
    && HealthyLink(node1, r) && node1.caller.call == node.caller.call
    && node1.caller.client.next == node.caller.client.next
    && node1.caller.client.live == node.caller.client.live - {q}
  }

  lemma ReadFailureRetires(c: string, node: Node, replicas: map<string, ReplicaState>, up: set<string>, r: string,
                           q: string)
    requires HealthyLink(node, r) && q != r && AC.Enabled(node.caller, AC.ReadFailed(q))
    ensures Retired(node, NodeStep(c, node, replicas, up, Local(AC.ReadFailed(q))), r, q)
    ensures Observed(c, node, Local(AC.ReadFailed(q))) == []
  {
  }

  lemma LiveIsRead(caller: AC.Caller, q: string)
    requires AC.CallerInv(caller) && q in caller.client.live
    ensures AC.Enabled(caller, AC.ReadFailed(q))
  {
  }
}
