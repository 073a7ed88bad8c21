/** The client that sends every request to all its replicas and delivers the first valid reply. */
module ActiveClient {
  import opened Wrappers
  import opened Protocol

  /** The reader task of a connection: in its loop, past it but not finished, or finished. */
  datatype Task = Reading | Closing | Done

  datatype Conn = Conn(lastSent: nat, lastReceived: nat, task: Task)

  datatype Future = NoFuture | Unresolved | Resolved(reply: Message)

  /** The fields of a client. `conns` holds every connection ever reached, `live` names those still used for sending. */
  datatype Client = Client(
    id: string, endpoints: set<string>, started: bool, conns: map<string, Conn>, live: set<string>,
    next: nat, delivered: nat, lastReply: Option<Message>, pending: Future, values: map<int, int>)

  function NewClient(id: string, endpoints: set<string>): Client {
    Client(id, endpoints, false, map[], {}, 1, 0, None, NoFuture, map[])
  }

  // ----- The atomic sections of the client, each between two suspension points -----

  function Connect(cl: Client, reached: set<string>): Client {
    if cl.started then cl
    else cl.(started := true, conns := map r | r in reached :: Conn(0, 0, Reading), live := reached)
  }

  /** A reply delivered after its caller gave up is returned by the next call. */
  predicate LateReplyWaits(cl: Client) {
    cl.delivered == cl.next
  }

  function MarkSent(cl: Client, r: string): Client
    requires r in cl.conns
  {
    cl.(conns := cl.conns[r := cl.conns[r].(lastSent := cl.next)])
  }

  function Retire(cl: Client, r: string): Client {
    cl.(live := cl.live - {r})
  }

  /** The reader leaves its loop. */
  function StopReading(cl: Client, r: string): Client
    requires r in cl.conns
  {
    Retire(cl, r).(conns := cl.conns[r := cl.conns[r].(task := Closing)])
  }

  function FinishTask(cl: Client, r: string): Client
    requires r in cl.conns
  {
    cl.(conns := cl.conns[r := cl.conns[r].(task := Done)])
  }

  /** Every connection has answered `number` or can no longer answer it. */
  predicate Settled(conns: map<string, Conn>, number: int) {
    forall r :: r in conns ==> conns[r].lastReceived >= number || conns[r].task.Done?
  }

  function Prune(cl: Client): Client {
    cl.(values := map n | n in cl.values && !Settled(cl.conns, n) :: cl.values[n])
  }

  predicate InSequence(conn: Conn, number: int) {
    conn.lastReceived <= number <= conn.lastSent && number >= 1
  }

  /** The reply answers the request that this client would send to this replica under the reply's number. */
  predicate Accepts(id: string, r: string, reply: Message) {
    && reply.ClientReply? && reply.requestNum > 0 && NonBlank(id) && NonBlank(r)
    && reply.clientId == id && reply.replicaId == r && reply.requestId == RequestId(id, reply.requestNum)
  }

  /** That is the outcome of rebuilding the request and checking the reply against it. */
  lemma AcceptsIsReplyCheck(id: string, r: string, reply: Message)
    ensures var request := BuildClientRequest(id, r, RequestNumber(reply));
            Accepts(id, r, reply) <==> request.Ok? && request.value.ClientRequest? && ValidReply(reply, request.value)
  {
    RequestWellFormed(id, r, RequestNumber(reply));
  }

  datatype Event = Duplicate(diverged: bool) | Delivered | Rejected

  /** What the reader of connection `r` does with one message. */
  function Receive(cl: Client, r: string, reply: Message): (Client, Event)
    requires r in cl.conns
  {
    Take(cl, r, reply, Accepts(cl.id, r, reply))
  }

  function Take(cl: Client, r: string, reply: Message, accepted: bool): (Client, Event)
    requires r in cl.conns && (accepted ==> reply.ClientReply?)
  {
    var number := RequestNumber(reply);
    if !InSequence(cl.conns[r], number) || !accepted then (StopReading(cl, r), Rejected)
    else
      var c1 := cl.(conns := cl.conns[r := cl.conns[r].(lastReceived := number)]);
      if number <= cl.delivered then
        (Prune(c1), Duplicate(number in cl.values && cl.values[number] != reply.clientValue))
      else if number == cl.next then
        (Prune(Deliver(c1, reply)), Delivered)
      else
        (StopReading(c1, r), Rejected)
  }

  function Deliver(cl: Client, reply: Message): Client
    requires reply.ClientReply? && reply.requestNum >= 0
  {
    cl.(delivered := reply.requestNum, values := cl.values[reply.requestNum := reply.clientValue],
        lastReply := Some(reply), pending := if cl.pending.Unresolved? then Resolved(reply) else cl.pending)
  }

  function Complete(cl: Client): Client {
    cl.(next := cl.next + 1, pending := NoFuture)
  }

  // ----- The client as a whole: interleaved runs of the sections -----

  /** Where the current call of `send_increment` stands. */
  datatype Call = Idle | Broadcasting(unsent: set<string>) | Waiting

  /** A client with its current call. `history` lists all values ever delivered, `ended` names the readers that finished
      since the last pruning, and `torn` tells that the last broadcast was cancelled when its number had only gone to
      connections that nobody reads any more: all three only serve to state properties. */
  datatype Caller = Caller(client: Client, call: Call, history: seq<int>, ended: set<string>, torn: bool)

  datatype Action =
    | Open(reached: set<string>)         // the connections a first call manages to open
    | Begin                             // start of a call, up to the broadcast
    | Send(replica: string)             // one send of the broadcast
    | SendFailed(replica: string)       // that send times out or breaks
    | Broadcasted                       // all sends have ended
    | Return                            // the future resolves in time
    | Timeout                           // the caller gives up
    | Cancel                            // the caller is cancelled from outside during the broadcast
    | Read(replica: string, reply: Message)
    | ReadFailed(replica: string)       // end of file, malformed message, broken connection
    | TaskDone(replica: string)
    | PruneCallback

  function Start(id: string, endpoints: set<string>): Caller {
    Caller(NewClient(id, endpoints), Idle, [], {}, false)
  }

  predicate Enabled(s: Caller, a: Action) {
    match a
    case Open(reached) => s.call.Idle? && !s.client.started && reached <= s.client.endpoints
    case Begin => s.call.Idle? && s.client.started
    case Send(r) => s.call.Broadcasting? && r in s.call.unsent && r in s.client.conns
    case SendFailed(r) => s.call.Broadcasting? && r !in s.call.unsent && r in s.client.conns
    case Broadcasted => s.call.Broadcasting? && s.call.unsent == {}
    case Return => s.call.Waiting? && s.client.pending.Resolved?
    case Timeout => s.call.Waiting?
    case Cancel => s.call.Broadcasting? && SafeToCancel(s.client)
    case Read(r, _) => r in s.client.conns && s.client.conns[r].task.Reading?
    case ReadFailed(r) => r in s.client.conns && s.client.conns[r].task.Reading?
    case TaskDone(r) => r in s.client.conns && s.client.conns[r].task.Closing?
    case PruneCallback => true
  }

  function Abandon(s: Caller): Caller {
    s.(client := s.client.(pending := NoFuture), call := Idle)
  }

  /** The current number has been sent to every live connection, or to none at all. */
  predicate FullOrNone(cl: Client) {
    || (forall r :: r in cl.live && r in cl.conns ==> cl.conns[r].lastSent == cl.next)
    || (cl.delivered < cl.next && forall r :: r in cl.conns ==> cl.conns[r].lastSent < cl.next)
  }

  /** The current number has been sent to every live connection, or it is not delivered and no reader can deliver it. */
  predicate SafeToCancel(cl: Client) {
    || (forall r :: r in cl.live && r in cl.conns ==> cl.conns[r].lastSent == cl.next)
    || (&& cl.delivered < cl.next
        && forall r :: r in cl.conns && cl.conns[r].task.Reading? ==> cl.conns[r].lastSent < cl.next)
  }

  /** The broadcast is cancelled from outside. */
  function Cancelled(s: Caller): Caller {
    Abandon(s).(torn := !FullOrNone(s.client))
  }

  /** One action; one that is not enabled has no effect, so every sequence of actions is a run. */
  function Step(s: Caller, a: Action): Caller {
    if Enabled(s, a) then Effect(s, a) else s
  }

  /** A call goes on behind `connect`, which finds the client started and leaves it as it is. */
  function Begun(s: Caller, cl: Client): Caller {
    if LateReplyWaits(cl) then s.(client := cl.(next := cl.next + 1))
    else if cl.live == {} then s.(client := cl)
    else s.(client := cl.(pending := Unresolved), call := Broadcasting(cl.live))
  }

  function Effect(s: Caller, a: Action): Caller
    requires Enabled(s, a)
  {
    var cl := s.client;
    match a
    case Open(reached) => s.(client := Connect(cl, reached))
    case Begin => Begun(s, Connect(cl, {}))
    case Send(r) => s.(client := MarkSent(cl, r), call := Broadcasting(s.call.unsent - {r}))
    case SendFailed(r) => s.(client := Retire(cl, r))
    case Broadcasted => s.(call := Waiting, torn := false)
    case Return => s.(client := Complete(cl), call := Idle)
    case Timeout => Abandon(s)
    case Cancel => Cancelled(s)
    case Read(r, reply) =>
      var (cl1, event) := Receive(cl, r, reply);
      if event.Rejected? then s.(client := cl1)
      else s.(client := cl1, ended := {},
              history := if event.Delivered? && reply.ClientReply? then s.history + [reply.clientValue] else s.history)
    case ReadFailed(r) => s.(client := StopReading(cl, r))
    case TaskDone(r) => s.(client := FinishTask(cl, r), ended := s.ended + {r})
    case PruneCallback => s.(client := Prune(cl), ended := {})
  }

  /** What a call returns to its caller in this step, if it returns. */
  function Returned(s: Caller, a: Action): Option<Message> {
    if !Enabled(s, a) then None
    else match a
      case Begin => if LateReplyWaits(s.client) then s.client.lastReply else None
      case Return => Some(s.client.pending.reply)
      case _ => None
  }

  // ----- Invariants, against replicas that may answer anything -----

  /** Request numbers on the client and on each of its connections. */
  ghost predicate Sequenced(cl: Client) {
    && 1 <= cl.next && cl.next - 1 <= cl.delivered <= cl.next
    && cl.live <= cl.conns.Keys <= cl.endpoints
    && (!cl.started ==> cl.conns == map[] && cl.next == 1 && cl.delivered == 0)
    && (forall r :: r in cl.conns ==>
          cl.conns[r].lastReceived <= cl.conns[r].lastSent <= cl.next && cl.conns[r].lastReceived <= cl.delivered)
    && (cl.delivered > 0 ==>
          cl.lastReply.Some? && cl.lastReply.value.ClientReply? && cl.lastReply.value.requestNum == cl.delivered)
  }

  /** The broadcast reaches every live connection before the number can advance. */
  ghost predicate Broadcast(cl: Client, call: Call, torn: bool)
    requires cl.live <= cl.conns.Keys
  {
    && (forall r :: r in cl.live ==> cl.conns[r].lastSent >= cl.next - 1 && cl.conns[r].task.Reading?)
    && (match call
        case Idle =>
          forall r :: r in cl.live ==>
            (cl.delivered == cl.next ==> cl.conns[r].lastSent == cl.next)
            && forall q :: q in cl.conns ==>
                 cl.conns[q].lastSent <= cl.conns[r].lastSent || (torn && !cl.conns[q].task.Reading?)
        case Broadcasting(unsent) =>
          && unsent <= cl.conns.Keys
          && (forall r :: r in unsent ==> cl.conns[r].lastSent >= cl.next - 1)
          && (forall r :: r in cl.live && r !in unsent ==> cl.conns[r].lastSent == cl.next)
        case Waiting => forall r :: r in cl.live ==> cl.conns[r].lastSent == cl.next)
  }

  /** The future exists during a call, and is resolved exactly when the current number has been delivered. */
  ghost predicate FutureMatches(cl: Client, call: Call) {
    match cl.pending
    case NoFuture => call.Idle?
    case Unresolved => !call.Idle? && cl.delivered == cl.next - 1
    case Resolved(reply) => !call.Idle? && cl.delivered == cl.next && cl.lastReply == Some(reply)
  }

  /** Some connection may still send its first answer to `n`, or finished after the last pruning. */
  ghost predicate Retained(conns: map<string, Conn>, ended: set<string>, n: int) {
    exists r :: r in conns && conns[r].lastReceived < n && (!conns[r].task.Done? || r in ended)
  }

  /** The cached values are the delivery history cut down to the retained numbers, nothing more and nothing less. */
  ghost predicate CacheExact(cl: Client, history: seq<int>, ended: set<string>) {
    && |history| == cl.delivered
    && (forall n :: n in cl.values <==> 1 <= n <= cl.delivered && Retained(cl.conns, ended, n))
    && (forall n :: n in cl.values && 1 <= n <= |history| ==> cl.values[n] == history[n - 1])
    && LastReplyIn(cl, history)
  }

  ghost predicate LastReplyIn(cl: Client, history: seq<int>) {
    history != [] && cl.lastReply.Some? && cl.lastReply.value.ClientReply? ==>
      cl.lastReply.value.clientValue == history[|history| - 1]
  }

  ghost predicate CallerInv(s: Caller) {
    match s
    case Caller(cl, call, history, ended, torn) =>
      Sequenced(cl) && Broadcast(cl, call, torn) && FutureMatches(cl, call) && CacheExact(cl, history, ended)
  }

  lemma StartEstablishesInv(id: string, endpoints: set<string>)
    ensures CallerInv(Start(id, endpoints))
  {
  }

  lemma TakeKeepsSequence(cl: Client, call: Call, torn: bool, r: string, reply: Message, accepted: bool)
    requires Sequenced(cl) && Broadcast(cl, call, torn) && FutureMatches(cl, call)
    requires r in cl.conns && cl.conns[r].task.Reading? && (accepted ==> reply.ClientReply?)
    ensures Sequenced(Take(cl, r, reply, accepted).0)
  {
  }

  lemma TakeKeepsCall(cl: Client, call: Call, torn: bool, r: string, reply: Message, accepted: bool)
    requires Sequenced(cl) && Broadcast(cl, call, torn) && FutureMatches(cl, call)
    requires r in cl.conns && cl.conns[r].task.Reading? && (accepted ==> reply.ClientReply?)
    ensures var cl1 := Take(cl, r, reply, accepted).0; Broadcast(cl1, call, torn) && FutureMatches(cl1, call)
  {
  }

  lemma OtherStepKeepsSequence(s: Caller, a: Action)
    requires Sequenced(s.client) && Broadcast(s.client, s.call, s.torn) && FutureMatches(s.client, s.call)
    requires Enabled(s, a) && !a.Read?
    ensures Sequenced(Effect(s, a).client)
  {
    hide Receive, Settled, SafeToCancel, FullOrNone;
  }

  lemma ReadKeepsSequence(s: Caller, r: string, reply: Message)
    requires Sequenced(s.client) && Broadcast(s.client, s.call, s.torn) && FutureMatches(s.client, s.call)
    requires r in s.client.conns && s.client.conns[r].task.Reading?
    ensures Sequenced(Effect(s, Read(r, reply)).client)
  {
    TakeKeepsSequence(s.client, s.call, s.torn, r, reply, Accepts(s.client.id, r, reply));
    hide Take, Accepts, Sequenced;
  }

  lemma StepKeepsSequence(s: Caller, a: Action)
    requires Sequenced(s.client) && Broadcast(s.client, s.call, s.torn) && FutureMatches(s.client, s.call)
    ensures Sequenced(Step(s, a).client)
  {
    hide Effect;
    if Enabled(s, a) {
      if a.Read? {
        ReadKeepsSequence(s, a.replica, a.reply);
      } else {
        OtherStepKeepsSequence(s, a);
      }
    }
  }

  lemma CancelKeepsBroadcast(s: Caller)
    requires Sequenced(s.client) && Broadcast(s.client, s.call, s.torn)
    requires s.call.Broadcasting? && SafeToCancel(s.client)
    ensures var t := Effect(s, Cancel); Broadcast(t.client, t.call, t.torn) && FutureMatches(t.client, t.call)
  {
  }

  lemma CallStepKeepsBroadcast(s: Caller, a: Action)
    requires Sequenced(s.client) && Broadcast(s.client, s.call, s.torn) && FutureMatches(s.client, s.call)
    requires Enabled(s, a) && !a.Cancel? && !a.Read? && !a.ReadFailed? && !a.TaskDone? && !a.PruneCallback?
    ensures var t := Effect(s, a);
            && t.client.live <= t.client.conns.Keys
            && Broadcast(t.client, t.call, t.torn) && FutureMatches(t.client, t.call)
  {
  }

  lemma ReadKeepsBroadcast(s: Caller, r: string, reply: Message)
    requires Sequenced(s.client) && Broadcast(s.client, s.call, s.torn) && FutureMatches(s.client, s.call)
    requires r in s.client.conns && s.client.conns[r].task.Reading?
    ensures var t := Effect(s, Read(r, reply));
            && t.client.live <= t.client.conns.Keys
            && Broadcast(t.client, t.call, t.torn) && FutureMatches(t.client, t.call)
  {
    TakeKeepsSequence(s.client, s.call, s.torn, r, reply, Accepts(s.client.id, r, reply));
    TakeKeepsCall(s.client, s.call, s.torn, r, reply, Accepts(s.client.id, r, reply));
    hide Take, Accepts;
  }

  lemma ReaderStepKeepsBroadcast(s: Caller, a: Action)
    requires Sequenced(s.client) && Broadcast(s.client, s.call, s.torn) && FutureMatches(s.client, s.call)
    requires Enabled(s, a) && (a.ReadFailed? || a.TaskDone? || a.PruneCallback?)
    ensures var t := Effect(s, a);
            && t.client.live <= t.client.conns.Keys
            && Broadcast(t.client, t.call, t.torn) && FutureMatches(t.client, t.call)
  {
  }

  lemma StepKeepsBroadcast(s: Caller, a: Action, t: Caller)
    requires Sequenced(s.client) && Broadcast(s.client, s.call, s.torn) && FutureMatches(s.client, s.call)
    requires t == Step(s, a) && Sequenced(t.client)
    ensures Broadcast(t.client, t.call, t.torn) && FutureMatches(t.client, t.call)
  {
    hide Effect;
    if Enabled(s, a) {
      if a.Cancel? {
        CancelKeepsBroadcast(s);
      } else if a.Read? {
        ReadKeepsBroadcast(s, a.replica, a.reply);
      } else if a.ReadFailed? || a.TaskDone? || a.PruneCallback? {
        ReaderStepKeepsBroadcast(s, a);
      } else {
        CallStepKeepsBroadcast(s, a);
      }
    }
  }

  /** What a cache must hold for pruning to make it exact. */
  ghost predicate CacheCovers(cl: Client, history: seq<int>) {
    && |history| == cl.delivered
    && (forall n :: 1 <= n <= cl.delivered && Retained(cl.conns, {}, n) ==> n in cl.values)
    && (forall n :: n in cl.values ==> 1 <= n <= cl.delivered && cl.values[n] == history[n - 1])
    && LastReplyIn(cl, history)
  }

  lemma PruningIsExact(cl: Client, history: seq<int>)
    requires CacheCovers(cl, history)
    ensures CacheExact(Prune(cl), history, {})
  {
  }

  /** Connections only lose their claim on old values: numbers received grow and finished readers stay finished. */
  lemma RetainedShrinks(before: map<string, Conn>, ended: set<string>, after: map<string, Conn>, n: int)
    requires before.Keys == after.Keys
    requires forall r :: r in before ==>
               before[r].lastReceived <= after[r].lastReceived && (before[r].task.Done? ==> after[r].task.Done?)
    ensures Retained(after, {}, n) ==> Retained(before, ended, n)
  {
  }

  lemma TakeKeepsCache(cl: Client, history: seq<int>, ended: set<string>, r: string, reply: Message, accepted: bool)
    requires Sequenced(cl) && CacheExact(cl, history, ended)
    requires r in cl.conns && cl.conns[r].task.Reading? && (accepted ==> reply.ClientReply?)
    ensures var (cl1, event) := Take(cl, r, reply, accepted);
            match event
            case Rejected => CacheExact(cl1, history, ended)
            case Duplicate(_) => CacheExact(cl1, history, {})
            case Delivered => reply.ClientReply? && CacheExact(cl1, history + [reply.clientValue], {})
  {
    var number := RequestNumber(reply);
    if !InSequence(cl.conns[r], number) || !accepted {
      SameRetained(cl, StopReading(cl, r), ended);
    } else {
      var c1 := cl.(conns := cl.conns[r := cl.conns[r].(lastReceived := number)]);
      forall n
        ensures Retained(c1.conns, {}, n) ==> Retained(cl.conns, ended, n)
      {
        RetainedShrinks(cl.conns, ended, c1.conns, n);
      }
      if number <= cl.delivered {
        PruningIsExact(c1, history);
      } else {
        PruningIsExact(Deliver(c1, reply), history + [reply.clientValue]);
      }
    }
  }

  /** Sending and leaving the read loop change no claim on old values. */
  lemma SameRetained(cl: Client, cl1: Client, ended: set<string>)
    requires cl.conns.Keys == cl1.conns.Keys
    requires forall r :: r in cl.conns ==>
               && cl.conns[r].lastReceived == cl1.conns[r].lastReceived
               && (cl.conns[r].task.Done? <==> cl1.conns[r].task.Done?)
    ensures forall n :: Retained(cl.conns, ended, n) <==> Retained(cl1.conns, ended, n)
  {
  }

  lemma TaskDoneKeepsCache(cl: Client, history: seq<int>, ended: set<string>, r: string)
    requires CacheExact(cl, history, ended) && r in cl.conns && !cl.conns[r].task.Done?
    ensures CacheExact(FinishTask(cl, r), history, ended + {r})
  {
    var cl1 := FinishTask(cl, r);
    forall n
      ensures Retained(cl1.conns, ended + {r}, n) <==> Retained(cl.conns, ended, n)
    {
      if Retained(cl.conns, ended, n) {
        var q :| q in cl.conns && cl.conns[q].lastReceived < n && (!cl.conns[q].task.Done? || q in ended);
        assert q in cl1.conns && cl1.conns[q].lastReceived < n;
      }
    }
  }

  lemma PruneKeepsCache(cl: Client, history: seq<int>, ended: set<string>)
    requires CacheExact(cl, history, ended)
    ensures CacheExact(Prune(cl), history, {})
  {
  }

  /** The other sections leave delivered values, received numbers and finished readers as they are. */
  lemma OtherStepKeepsCache(s: Caller, a: Action)
    requires Sequenced(s.client) && CacheExact(s.client, s.history, s.ended) && Enabled(s, a)
    requires !a.Read? && !a.TaskDone? && !a.PruneCallback?
    ensures var t := Effect(s, a); CacheExact(t.client, t.history, t.ended)
  {
    if !a.Open? {
      SameRetained(s.client, Effect(s, a).client, s.ended);
    }
  }

  lemma ReadKeepsCache(s: Caller, r: string, reply: Message)
    requires Sequenced(s.client) && CacheExact(s.client, s.history, s.ended)
    requires r in s.client.conns && s.client.conns[r].task.Reading?
    ensures var t := Effect(s, Read(r, reply)); CacheExact(t.client, t.history, t.ended)
  {
    hide CacheExact;
    TakeKeepsCache(s.client, s.history, s.ended, r, reply, Accepts(s.client.id, r, reply));
  }

  lemma StepKeepsCache(s: Caller, a: Action, t: Caller)
    requires Sequenced(s.client) && CacheExact(s.client, s.history, s.ended)
    requires t == Step(s, a)
    ensures CacheExact(t.client, t.history, t.ended)
  {
    if Enabled(s, a) {
      match a
      case Read(r, reply) => ReadKeepsCache(s, r, reply);
      case TaskDone(r) => TaskDoneKeepsCache(s.client, s.history, s.ended, r);
      case PruneCallback => PruneKeepsCache(s.client, s.history, s.ended);
      case _ =>
        hide Effect;
        OtherStepKeepsCache(s, a);
    }
  }

  lemma StepKeepsInv(s: Caller, a: Action)
    requires CallerInv(s)
    ensures CallerInv(Step(s, a))
  {
    StepKeepsSequence(s, a);
    StepKeepsBroadcast(s, a, Step(s, a));
    StepKeepsCache(s, a, Step(s, a));
  }

  /** Sections other than sending and reading leave all request numbers of the connections as they are. */
  lemma LocalStepFrame(s: Caller, a: Action)
    requires Sequenced(s.client) && !a.Send? && !a.Read?
    ensures var cl, cl1 := s.client, Step(s, a).client;
            && cl1.id == cl.id && cl1.endpoints == cl.endpoints && Step(s, a).history == s.history
            && cl.conns.Keys <= cl1.conns.Keys
            && forall r :: r in cl1.conns ==>
                 var conn := if r in cl.conns then cl.conns[r] else Conn(0, 0, Reading);
                 cl1.conns[r].lastSent == conn.lastSent && cl1.conns[r].lastReceived == conn.lastReceived
  {
    hide Receive, Settled, SafeToCancel, FullOrNone;
  }

  lemma TakeKeepsIdentity(cl: Client, r: string, reply: Message, accepted: bool)
    requires r in cl.conns && (accepted ==> reply.ClientReply?)
    ensures Take(cl, r, reply, accepted).0.id == cl.id && Take(cl, r, reply, accepted).0.endpoints == cl.endpoints
  {
    hide Settled;
  }

  lemma StepKeepsIdentity(s: Caller, a: Action)
    ensures Step(s, a).client.id == s.client.id && Step(s, a).client.endpoints == s.client.endpoints
    ensures !a.Read? ==> Step(s, a).history == s.history
  {
    if a.Read? && Enabled(s, a) {
      TakeKeepsIdentity(s.client, a.replica, a.reply, Accepts(s.client.id, a.replica, a.reply));
    }
    hide Take, Accepts, Settled, SafeToCancel, FullOrNone;
  }

  /** A send advances the sent number of its connection to the current number, by at most one. */
  lemma SendFrame(s: Caller, r: string)
    requires CallerInv(s) && Enabled(s, Send(r))
    ensures var t := Step(s, Send(r));
            && t.client.conns == s.client.conns[r := s.client.conns[r].(lastSent := s.client.next)]
            && t.client.id == s.client.id && t.client.endpoints == s.client.endpoints && t.history == s.history
    ensures s.client.conns[r].lastSent <= s.client.next <= s.client.conns[r].lastSent + 1 && s.client.next >= 1
  {
  }

  /** A reply in sequence that answers the request sent is taken: the connection stays in use and only its received
      number changes; a value is added to the history exactly when the number was not delivered before. */
  lemma AcceptedReadFrame(s: Caller, r: string, reply: Message)
    requires CallerInv(s) && Enabled(s, Read(r, reply))
    requires InSequence(s.client.conns[r], RequestNumber(reply)) && Accepts(s.client.id, r, reply)
    ensures var t := Step(s, Read(r, reply));
            && t.client.conns == s.client.conns[r := s.client.conns[r].(lastReceived := reply.requestNum)]
            && t.client.id == s.client.id && t.client.endpoints == s.client.endpoints && t.client.live == s.client.live
            && t.client.next == s.client.next && t.call == s.call
            && t.history == if reply.requestNum <= |s.history| then s.history else s.history + [reply.clientValue]
    ensures reply.requestNum <= |s.history| + 1
  {
  }

  // ----- What one failed connection costs -----

  /** A failed send, a failed read or a rejected reply retires its own replica and no other: every other connection, the
      call and all that was delivered stay as they are. Only the reader of a failed or rejected read leaves its loop. */
  lemma FailureRetiresOnlyIts(s: Caller, a: Action, r: string)
    requires CallerInv(s) && r in s.client.conns
    requires || (a == SendFailed(r) && s.call.Broadcasting? && r !in s.call.unsent)
             || (a == ReadFailed(r) && s.client.conns[r].task.Reading?)
             || (&& a.Read? && a.replica == r && s.client.conns[r].task.Reading?
                 && Receive(s.client, r, a.reply).1.Rejected?)
    ensures var conn := s.client.conns[r];
            var conn1 := if a.SendFailed? then conn else Conn(conn.lastSent, conn.lastReceived, Closing);
            Step(s, a) == s.(client := s.client.(live := s.client.live - {r}, conns := s.client.conns[r := conn1]))
  {
  }

  /** The connection of a reader that finished is done with, and nothing else has changed. */
  lemma TaskDoneEndsOnlyIts(s: Caller, r: string)
    requires r in s.client.conns && s.client.conns[r].task.Closing?
    ensures var conn := s.client.conns[r];
            var conns := s.client.conns[r := Conn(conn.lastSent, conn.lastReceived, Done)];
            Step(s, TaskDone(r)) == s.(client := s.client.(conns := conns), ended := s.ended + {r})
  {
  }

  /** The client sends to this replica and reads from it. */
  predicate InUse(cl: Client, r: string) {
    r in cl.live && r in cl.conns && cl.conns[r].task.Reading?
  }

  /** What takes a replica out of use: its own failed send, its own failed read, or an own reply that is rejected. */
  predicate TakesOut(s: Caller, a: Action, r: string) {
    || a == SendFailed(r) || a == ReadFailed(r)
    || (a.Read? && a.replica == r && r in s.client.conns && Receive(s.client, r, a.reply).1.Rejected?)
  }

  lemma ReadStaysInUse(s: Caller, q: string, reply: Message, r: string)
    requires CallerInv(s) && InUse(s.client, r) && Enabled(s, Read(q, reply))
    ensures InUse(Effect(s, Read(q, reply)).client, r) <==> !TakesOut(s, Read(q, reply), r)
  {
    hide Settled, CacheExact, Broadcast, FutureMatches, Accepts;
  }

  lemma OtherStaysInUse(s: Caller, a: Action, r: string)
    requires CallerInv(s) && InUse(s.client, r) && Enabled(s, a) && !a.Read?
    ensures InUse(Effect(s, a).client, r) <==> !TakesOut(s, a, r)
  {
    hide Receive, Settled, CacheExact, FutureMatches, SafeToCancel, FullOrNone;
  }

  /** Whatever else the client does, and whatever fails at other replicas, a replica stays in use; and only these take
      it out. */
  lemma StaysInUse(s: Caller, a: Action, r: string)
    requires CallerInv(s) && InUse(s.client, r)
    ensures InUse(Step(s, a).client, r) <==> !(Enabled(s, a) && TakesOut(s, a, r))
  {
    hide Effect, CallerInv, TakesOut;
    if Enabled(s, a) {
      if a.Read? {
        ReadStaysInUse(s, a.replica, a.reply, r);
      } else {
        OtherStaysInUse(s, a, r);
      }
    }
  }

  // ----- Runs -----

  /** The state after a run, and all that was returned to callers during it. */
  function After(s: Caller, run: seq<Action>): Caller {
    if run == [] then s else Step(After(s, run[..|run| - 1]), run[|run| - 1])
  }

  function Returns(s: Caller, run: seq<Action>): seq<Message> {
    if run == [] then []
    else
      var n := |run| - 1;
      match Returned(After(s, run[..n]), run[n])
      case None => Returns(s, run[..n])
      case Some(reply) => Returns(s, run[..n]) + [reply]
  }

  lemma {:induction false} RunKeepsInv(s: Caller, run: seq<Action>)
    requires CallerInv(s)
    ensures CallerInv(After(s, run))
  {
    if run != [] {
      var n := |run| - 1;
      RunKeepsInv(s, run[..n]);
      StepKeepsInv(After(s, run[..n]), run[n]);
    }
  }

  /** A call that returns gives the reply to the current number, with the value delivered for it, and only then does
      the number advance. */
  lemma ReturnsCurrentNumber(s: Caller, a: Action)
    requires CallerInv(s)
    ensures match Returned(s, a)
            case None => Step(s, a).client.next == s.client.next
            case Some(reply) =>
              && reply.ClientReply? && reply.requestNum == s.client.next == |s.history|
              && reply.clientValue == s.history[s.client.next - 1]
              && Step(s, a).client.next == s.client.next + 1 && Step(s, a).call.Idle?
  {
  }

  /** Values once delivered are never revised. */
  lemma HistoryGrows(s: Caller, a: Action)
    requires CallerInv(s)
    ensures s.history <= Step(s, a).history
  {
  }

  /** The replies numbered 1, 2, 3, ... up to `count`, each with the value delivered for its number. */
  ghost predicate Successive(replies: seq<Message>, count: int, history: seq<int>) {
    && |replies| == count <= |history|
    && forall k :: 0 <= k < |replies| ==>
         replies[k].ClientReply? && replies[k].requestNum == k + 1 && replies[k].clientValue == history[k]
  }

  lemma StepKeepsSuccessive(s: Caller, a: Action, replies: seq<Message>)
    requires CallerInv(s) && Successive(replies, s.client.next - 1, s.history)
    ensures var returned := Returned(s, a);
            Successive(if returned.Some? then replies + [returned.value] else replies,
                       Step(s, a).client.next - 1, Step(s, a).history)
  {
    ReturnsCurrentNumber(s, a);
    HistoryGrows(s, a);
  }

  /** Over every run, against replicas that may answer anything, the numbers returned by successive calls are
      1, 2, 3, ... without repetition or gap, and the k-th call returns the value that was delivered for k. */
  lemma {:induction false} ReturnsInSequence(id: string, endpoints: set<string>, run: seq<Action>)
    ensures var s := After(Start(id, endpoints), run);
            CallerInv(s) && Successive(Returns(Start(id, endpoints), run), s.client.next - 1, s.history)
  {
    if run == [] {
      StartEstablishesInv(id, endpoints);
    } else {
      var n := |run| - 1;
      ReturnsInSequence(id, endpoints, run[..n]);
      var s := After(Start(id, endpoints), run[..n]);
      StepKeepsInv(s, run[n]);
      StepKeepsSuccessive(s, run[n], Returns(Start(id, endpoints), run[..n]));
    }
  }

  /** In every run, a future is resolved at most once, by the reply to the number of the call it belongs to, and stays
      as it is until that call ends. */
  lemma FutureResolvesOnce(id: string, endpoints: set<string>, run: seq<Action>, a: Action)
    ensures var s, t := After(Start(id, endpoints), run), Step(After(Start(id, endpoints), run), a);
            && (s.client.pending.Resolved? ==>
                  t.client.pending == s.client.pending || (t.client.pending.NoFuture? && t.call.Idle?))
            && (!s.client.pending.Resolved? && t.client.pending.Resolved? ==>
                  && s.client.pending.Unresolved? && a.Read? && t.client.pending == Resolved(a.reply)
                  && a.reply.ClientReply? && a.reply.requestNum == s.client.next)
  {
    ReturnsInSequence(id, endpoints, run);
    FutureStepsOnce(After(Start(id, endpoints), run), a);
  }

  lemma FutureStepsOnce(s: Caller, a: Action)
    requires CallerInv(s)
    ensures s.client.pending.Resolved? ==>
              || Step(s, a).client.pending == s.client.pending
              || (Step(s, a).client.pending.NoFuture? && Step(s, a).call.Idle?)
    ensures !s.client.pending.Resolved? && Step(s, a).client.pending.Resolved? ==>
              && s.client.pending.Unresolved?
              && a.Read? && Step(s, a).client.pending == Resolved(a.reply)
              && a.reply.ClientReply? && a.reply.requestNum == s.client.next
  {
  }

  // ----- Cancelling a broadcast from outside -----

  /** A replica in use has missed a number: the client is past it and has not sent it there. */
  predicate Gap(cl: Client) {
    exists r :: r in cl.live && r in cl.conns && cl.conns[r].lastSent + 1 < cl.next
  }

  /** In no run from here on does a replica in use miss a number. */
  ghost predicate NoGapAhead(s: Caller) {
    forall run :: !Gap(After(s, run).client)
  }

  lemma {:induction false} SafeCancelLeavesNoGap(s: Caller, run: seq<Action>)
    requires CallerInv(s) && s.call.Broadcasting? && SafeToCancel(s.client)
    ensures !Gap(After(Cancelled(s), run).client)
  {
    StepKeepsInv(s, Cancel);
    RunKeepsInv(Cancelled(s), run);
  }

  lemma AfterSnoc(s: Caller, run: seq<Action>, a: Action)
    ensures After(s, run + [a]) == Step(After(s, run), a)
  {
    assert (run + [a])[..|run|] == run;
  }

  /** A number that is delivered is passed by the next call. */
  lemma DeliveredIsPassed(s: Caller, r: string)
    requires s.call.Idle? && s.client.started && LateReplyWaits(s.client)
    requires r in s.client.live && r in s.client.conns && s.client.conns[r].lastSent < s.client.next
    ensures Gap(Step(s, Begin).client)
  {
    var cl := Step(s, Begin).client;
    assert r in cl.live && r in cl.conns && cl.conns[r].lastSent + 1 < cl.next;
  }

  /** The reply of a connection that got the number is delivered also between calls. */
  lemma LateReplyDelivered(s: Caller, q: string)
    requires Sequenced(s.client) && q in s.client.conns && s.client.conns[q].task.Reading?
    requires s.client.conns[q].lastSent == s.client.next == s.client.delivered + 1
    requires NonBlank(s.client.id) && NonBlank(q)
    ensures var t := Step(s, Read(q, ReplyOf(s.client.id, q, s.client.next, s.client.next)));
            && t.call == s.call && t.client.started == s.client.started && LateReplyWaits(t.client)
            && t.client.live == s.client.live && t.client.next == s.client.next
            && t.client.conns.Keys == s.client.conns.Keys
            && forall r :: r in s.client.conns ==> t.client.conns[r].lastSent == s.client.conns[r].lastSent
  {
    AcceptsGenuineReply(s.client.id, q, s.client.next, s.client.next);
  }

  /** Otherwise the number is delivered already, or its reply can still arrive, and the next call moves past it while
      some replica in use was never sent it. */
  lemma UnsafeCancelLeavesGap(s: Caller) returns (run: seq<Action>)
    requires CallerInv(s) && s.call.Broadcasting? && !SafeToCancel(s.client)
    requires NonBlank(s.client.id) && forall r :: r in s.client.conns ==> NonBlank(r)
    ensures Gap(After(Cancelled(s), run).client)
  {
    var cl, t := s.client, Cancelled(s);
    var r :| r in cl.live && r in cl.conns && cl.conns[r].lastSent != cl.next;
    run := [];
    if cl.delivered < cl.next {
      var q :| q in cl.conns && cl.conns[q].task.Reading? && cl.conns[q].lastSent >= cl.next;
      var late := Read(q, ReplyOf(cl.id, q, cl.next, cl.next));
      LateReplyDelivered(t, q);
      AfterSnoc(t, [], late);
      run := [] + [late];
    }
    DeliveredIsPassed(After(t, run), r);
    AfterSnoc(t, run, Begin);
    run := run + [Begin];
  }

  /** Whenever a broadcast is cancelled, no replica in use can ever miss a number, in any run from there on, if and only
      if the number has been sent to all replicas in use, or is not delivered and has been sent to no connection that is
      still read. */
  lemma CancelIsSafe(s: Caller)
    requires CallerInv(s) && s.call.Broadcasting?
    requires NonBlank(s.client.id) && forall r :: r in s.client.conns ==> NonBlank(r)
    ensures SafeToCancel(s.client) <==> NoGapAhead(Cancelled(s))
  {
    if SafeToCancel(s.client) {
      forall run
        ensures !Gap(After(Cancelled(s), run).client)
      {
        SafeCancelLeavesNoGap(s, run);
      }
    } else {
      var run := UnsafeCancelLeavesGap(s);
    }
  }

  /** Only a cancellation between the two extremes tears a broadcast. */
  lemma OnlyCancelTears(s: Caller, a: Action)
    ensures Step(s, a).torn && !s.torn ==> a.Cancel? && !FullOrNone(s.client)
  {
  }

  /** For instance, with two replicas: cancel after the first send of request 1 and let its reply arrive late; then 1 is
      returned without ever having been sent to the second replica, which is sent 2 next; and a reply with the value 1,
      which a replica that never saw 1 gives, is delivered as the value of 2. */
  lemma CancelLeavesGap(id: string, a: string, b: string)
    requires NonBlank(id) && NonBlank(a) && NonBlank(b) && a != b
    ensures var first := ReplyOf(id, a, 1, 1);
            var cancelled := Cancelled(After(Start(id, {a, b}), [Open({a, b}), Begin, Send(a)]));
            var late := Step(cancelled, Read(a, first));
            && !SafeToCancel(cancelled.client)
            && Returned(late, Begin) == Some(first)
            && (var cl := Step(late, Begin).client;
                cl.next == 2 && b in cl.live && b in cl.conns && cl.conns[b].lastSent == 0)
            && (var sent := Step(Step(Step(late, Begin), Begin), Send(b)).client;
                b in sent.conns && sent.conns[b].lastSent == 2 && Receive(sent, b, ReplyOf(id, b, 2, 1)).1.Delivered?)
  {
    hide SafeToCancel, FullOrNone;
    AcceptsGenuineReply(id, a, 1, 1);
    var run := [Open({a, b}), Begin, Send(a)];
    var s0 := Start(id, {a, b});
    var s1 := Step(s0, run[0]);
    var s2 := Step(s1, run[1]);
    assert run[..1][..0] == [] && run[..0] == [] && After(s0, run[..1]) == s1;
    assert run[..2][..1] == run[..1] && After(s0, run[..2]) == s2;
    assert run[..3] == run;
    var s3 := Step(s2, run[2]);
    OneOfTwoIsUnsafe(Cancelled(s3).client, a, b);
    SkippedNumberSent(Step(Step(Cancelled(s3), Read(a, ReplyOf(id, a, 1, 1))), Begin), b);
  }

  /** The next number goes out as if nothing had been skipped, and any value that comes back for it is delivered. */
  lemma SkippedNumberSent(s: Caller, b: string)
    requires s.call.Idle? && s.client.started && s.client.delivered + 1 == s.client.next >= 1
    requires b in s.client.live && b in s.client.conns && s.client.conns[b].lastReceived <= s.client.next
    requires NonBlank(s.client.id) && NonBlank(b)
    ensures var cl, n := Step(Step(s, Begin), Send(b)).client, s.client.next;
            && b in cl.conns && cl.conns[b].lastSent == n
            && forall value: nat :: Receive(cl, b, ReplyOf(s.client.id, b, n, value)).1.Delivered?
  {
    forall value: nat
      ensures Accepts(s.client.id, b, ReplyOf(s.client.id, b, s.client.next, value))
    {
      AcceptsGenuineReply(s.client.id, b, s.client.next, value);
    }
  }

  lemma OneOfTwoIsUnsafe(cl: Client, a: string, b: string)
    requires a in cl.conns && b in cl.conns && cl.conns[a].task.Reading?
    requires b in cl.live && cl.conns[b].lastSent < cl.next == cl.conns[a].lastSent
    ensures !SafeToCancel(cl)
  {
  }

  /** In every run, a reply that arrived after its caller's timeout is returned by the next call at once: it is the
      reply to the current number, nothing is sent, the number advances, and the reply is not waiting a second time. */
  lemma LateReplyReturnedOnce(id: string, endpoints: set<string>, run: seq<Action>)
    ensures var s := After(Start(id, endpoints), run);
            Enabled(s, Begin) && LateReplyWaits(s.client) ==>
              && Returned(s, Begin) == s.client.lastReply && s.client.lastReply.Some?
              && RequestNumber(s.client.lastReply.value) == s.client.next
              && var t := Step(s, Begin);
                 t == s.(client := s.client.(next := s.client.next + 1)) && t.call.Idle? && !LateReplyWaits(t.client)
  {
    ReturnsInSequence(id, endpoints, run);
    ReturnsCurrentNumber(After(Start(id, endpoints), run), Begin);
  }

  /** And a call that timed out does get its reply that way: when any replica that was sent its number answers after
      all, the next call returns that answer. */
  lemma TimedOutCallGetsLateReply(s: Caller, r: string, value: nat)
    requires CallerInv(s) && s.call.Waiting? && s.client.delivered < s.client.next
    requires r in s.client.conns && s.client.conns[r].task.Reading? && s.client.conns[r].lastSent == s.client.next
    requires NonBlank(s.client.id) && NonBlank(r)
    ensures var cl := s.client;
            var reply := ReplyOf(cl.id, r, cl.next, value);
            var t := Step(Step(s, Timeout), Read(r, reply));
            Returned(t, Begin) == Some(reply) && Step(t, Begin).client.next == cl.next + 1
  {
    AcceptsGenuineReply(s.client.id, r, s.client.next, value);
  }

  /** Within the sent range only the next number is undelivered, so the `unexpected logical request number` branch
      is dead: a message is rejected exactly when it is out of range or not a reply to the request sent. */
  lemma UnexpectedNumberIsDead(s: Caller, r: string, reply: Message)
    requires CallerInv(s) && r in s.client.conns
    ensures Receive(s.client, r, reply).1.Rejected? <==>
            !InSequence(s.client.conns[r], RequestNumber(reply)) || !Accepts(s.client.id, r, reply)
  {
  }

  /** In the words of the messages: a reply from the wire is taken exactly when it is the reply of this replica to one
      of the requests sent there, not older than the last one it answered. */
  lemma TakenExactlyWhen(s: Caller, r: string, reply: Message)
    requires CallerInv(s) && r in s.client.conns && NonBlank(s.client.id) && NonBlank(r) && WellFormed(reply)
    ensures !Receive(s.client, r, reply).1.Rejected? <==>
              && reply.ClientReply? && reply.requestNum >= 1
              && s.client.conns[r].lastReceived <= reply.requestNum <= s.client.conns[r].lastSent
              && reply == ReplyOf(s.client.id, r, reply.requestNum, reply.clientValue)
  {
    UnexpectedNumberIsDead(s, r, reply);
    hide Receive, CallerInv;
  }

  /** A reply to an already delivered number is compared with the full history exactly when some connection, this
      one included, has not answered that number yet and was not seen finished by the last pruning. */
  lemma DuplicateCompared(s: Caller, r: string, reply: Message)
    requires CallerInv(s) && Enabled(s, Read(r, reply))
    requires Receive(s.client, r, reply).1.Duplicate?
    ensures reply.ClientReply? && 1 <= reply.requestNum <= |s.history|
    ensures Receive(s.client, r, reply).1.diverged <==>
            reply.clientValue != s.history[reply.requestNum - 1] && Retained(s.client.conns, s.ended, reply.requestNum)
  {
  }

  /** So in every run the first answer of every connection is compared as if nothing had ever been pruned. */
  lemma FirstReplyComparedInFull(id: string, endpoints: set<string>, run: seq<Action>, r: string, reply: Message)
    ensures var s := After(Start(id, endpoints), run);
            Enabled(s, Read(r, reply)) && s.client.conns[r].lastReceived < RequestNumber(reply)
            && Receive(s.client, r, reply).1.Duplicate? ==>
              && reply.ClientReply? && 1 <= reply.requestNum <= |s.history|
              && (Receive(s.client, r, reply).1.diverged <==> reply.clientValue != s.history[reply.requestNum - 1])
  {
    ReturnsInSequence(id, endpoints, run);
    var s := After(Start(id, endpoints), run);
    if Enabled(s, Read(r, reply)) && s.client.conns[r].lastReceived < RequestNumber(reply)
       && Receive(s.client, r, reply).1.Duplicate? {
      DuplicateCompared(s, r, reply);
      assert Retained(s.client.conns, s.ended, reply.requestNum);
    }
  }

  /** A replayed answer need not be: with one replica, answer 1 twice with different values. */
  lemma ReplayedReplyMayEscape(id: string, r: string)
    requires NonBlank(id) && NonBlank(r)
    ensures var first, again := ReplyOf(id, r, 1, 1), ReplyOf(id, r, 1, 2);
            var end := After(Start(id, {r}), [Open({r}), Begin, Send(r), Broadcasted, Read(r, first)]);
            && Enabled(end, Read(r, again)) && end.history == [1]
            && Receive(end.client, r, again).1 == Duplicate(false)
  {
    AcceptsGenuineReply(id, r, 1, 1);
    AcceptsGenuineReply(id, r, 1, 2);
    var s1 := ReachWaiting(id, r);
    var run := [Open({r}), Begin, Send(r), Broadcasted, Read(r, ReplyOf(id, r, 1, 1))];
    assert run[..4] == [Open({r}), Begin, Send(r), Broadcasted];
    assert s1.client.conns[r] == Conn(1, 0, Reading);
  }

  lemma ReachWaiting(id: string, r: string) returns (s: Caller)
    ensures After(Start(id, {r}), [Open({r}), Begin, Send(r), Broadcasted]) == s
    ensures s.call.Waiting? && s.history == [] && s.ended == {}
    ensures s.client == Client(id, {r}, true, map[r := Conn(1, 0, Reading)], {r}, 1, 0, None, Unresolved, map[])
  {
    var run := [Open({r}), Begin, Send(r), Broadcasted];
    var s0 := Start(id, {r});
    var s1 := Step(s0, run[0]);
    var s2 := Step(s1, run[1]);
    var s3 := Step(s2, run[2]);
    s := Step(s3, run[3]);
    assert run[..1][..0] == [] && run[..0] == [] && After(s0, run[..1]) == s1;
    assert run[..2][..1] == run[..1] && After(s0, run[..2]) == s2;
    assert run[..3][..2] == run[..2] && After(s0, run[..3]) == s3;
    assert run[..4] == run;
    assert s3.call.unsent == {};
  }

  /** A genuine reply is accepted whatever its value. */
  lemma AcceptsGenuineReply(id: string, r: string, n: nat, value: nat)
    requires NonBlank(id) && NonBlank(r) && n > 0
    ensures Accepts(id, r, ReplyOf(id, r, n, value))
  {
  }
}
