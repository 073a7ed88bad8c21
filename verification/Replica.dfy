/** The application state of one replica: an independent counter per configured client. */
module StateMachine {
  import opened Wrappers
  import opened Protocol

  datatype Transition = Transition(before: map<string, nat>, after: map<string, nat>, clientValue: nat)

  /** An applied operation, or the error raised instead. */
  datatype Outcome = Applied(transition: Transition) | Refused(why: Detail)

  /** The effect of one operation: the new counters with the transition, or why there is none. */
  function Apply(counters: map<string, nat>, client: string, operation: string): Outcome {
    if client !in counters then Refused(UnknownClient(client))
    else if operation != INCREMENT then Refused(BadOperation(operation))
    else Applied(Transition(counters, counters[client := counters[client] + 1], counters[client] + 1))
  }

  predicate ValidClientIds(ids: seq<string>) {
    && ids != []
    && "" !in ids
    && forall i, j :: 0 <= i < j < |ids| ==> ids[i] != ids[j]
  }

  class DeterministicStateMachine {
    var counters: map<string, nat>

    constructor (ids: seq<string>)
      requires ValidClientIds(ids)
      ensures counters == map id | id in ids :: 0
    {
      counters := map id | id in ids :: 0;
    }

    static method Create(ids: seq<string>) returns (r: Result<DeterministicStateMachine>)
      ensures r.Ok? <==> ValidClientIds(ids)
      ensures r.Ok? ==> fresh(r.value) && r.value.counters == map id | id in ids :: 0
    {
      if ids == [] {
        return Err("at least one client is required");
      }
      if "" in ids {
        return Err("client ids must be non-empty strings");
      }
      if exists i, j :: 0 <= i < j < |ids| && ids[i] == ids[j] {
        return Err("client ids must be unique");
      }
      var machine := new DeterministicStateMachine(ids);
      return Ok(machine);
    }

    method Snapshot() returns (copy: map<string, nat>)
      ensures copy == counters
    {
      copy := counters;
    }

    method Increment(client: string, operation: string) returns (r: Outcome)
      modifies this
      ensures r == Apply(old(counters), client, operation)
      ensures counters == if r.Applied? then r.transition.after else old(counters)
      ensures r.Applied? <==> client in old(counters) && operation == "increment"
      ensures client !in old(counters) ==> r == Refused(UnknownClient(client))
      ensures client in old(counters) && !r.Applied? ==> r == Refused(BadOperation(operation))
      ensures r.Applied? ==>
                && counters == old(counters)[client := old(counters)[client] + 1]
                && r.transition == Transition(old(counters), counters, counters[client])
    {
      if client !in counters {
        return Refused(UnknownClient(client));
      }
      if operation != INCREMENT {
        return Refused(BadOperation(operation));
      }
      var before := Snapshot();
      counters := counters[client := counters[client] + 1];
      var after := Snapshot();
      return Applied(Transition(before, after, after[client]));
    }
  }
}

/** The client listener of a replica: de-duplication by request number, cached replies, and the serving loop. */
module Replica {
  import opened Wrappers
  import opened Protocol
  import opened StateMachine

  /** The last reply given to a client, with the number and operation it answered. */
  datatype Cached = Cached(num: int, operation: string, reply: Message)

  datatype ReplicaState = ReplicaState(counters: map<string, nat>, last: map<string, Cached>)

  /** What a replica knows about one client. */
  datatype Slot = Slot(counter: Option<nat>, last: Option<Cached>)

  function SlotOf(s: ReplicaState, client: string): Slot {
    Slot(Get(s.counters, client), Get(s.last, client))
  }

  function Fresh(clients: set<string>): ReplicaState {
    ReplicaState(map c | c in clients :: 0, map[])
  }

  const UNSUPPORTED := "unsupported operation"

  /** Python's `words in text`. */
  predicate Contains(text: string, words: string) {
    words <= text || (text != [] && Contains(text[1..], words))
  }

  /** The words are somewhere in the text. */
  lemma {:induction false} ContainsSomewhere(text: string, words: string)
    ensures Contains(text, words) <==> exists before, after :: text == before + words + after
  {
    if words <= text {
      assert text == [] + words + text[|words|..];
    } else if text != [] {
      ContainsSomewhere(text[1..], words);
      if before, after :| text[1..] == before + words + after {
        assert text == ([text[0]] + before) + words + after;
      }
      if before, after :| text == before + words + after {
        assert before != [];
        assert text[1..] == before[1..] + words + after;
      }
    }
  }

  /** The code goes by the words of the error text, so a client whose name contains them gets the other code. */
  function CodeOf(why: Detail): ErrorCode {
    if why.BadOperation? || (why.UnknownClient? && Contains(why.client, UNSUPPORTED)) then UnsupportedOperation
    else StateMachineError
  }

  function ErrorReply(id: string, request: Message, code: ErrorCode, detail: Detail): Message
    requires request.ClientRequest?
  {
    Error(id, request.clientId, code, detail, Some(request.requestId))
  }

  /** The state after one request and the response to it. */
  function Process(id: string, s: ReplicaState, request: Message): (ReplicaState, Message)
    requires request.ClientRequest?
  {
    var c := request.clientId;
    if c in s.last && request.requestNum <= s.last[c].num then
      (s, if request.requestNum == s.last[c].num && request.operation == s.last[c].operation
          then s.last[c].reply
          else ErrorReply(id, request, StaleRequest, FixedText))
    else match Apply(s.counters, c, request.operation)
      case Refused(why) => (s, ErrorReply(id, request, CodeOf(why), why))
      case Applied(transition) =>
        var reply := ReplyTo(request, transition.clientValue);
        (ReplicaState(transition.after, s.last[c := Cached(request.requestNum, request.operation, reply)]), reply)
  }

  /** What is answered without touching the state, case by case: an old number, the last number again, with the same or
      with another operation, a client or an operation the replica does not know. */
  lemma AnsweredWithoutEffect(id: string, s: ReplicaState, request: Message)
    requires request.ClientRequest?
    ensures var (s1, response) := Process(id, s, request);
            var c, num, operation := request.clientId, request.requestNum, request.operation;
            var stale := Error(id, c, StaleRequest, FixedText, Some(request.requestId));
            var unsupported := Error(id, c, UnsupportedOperation, BadOperation(operation), Some(request.requestId));
            var unknown := UnknownClient(c);
            && (c in s.last && num < s.last[c].num ==> s1 == s && response == stale)
            && (c in s.last && num == s.last[c].num && operation == s.last[c].operation ==>
                  s1 == s && response == s.last[c].reply)
            && (c in s.last && num == s.last[c].num && operation != s.last[c].operation ==>
                  s1 == s && response == stale)
            && ((c in s.last ==> num > s.last[c].num) && c in s.counters && operation != "increment" ==>
                  s1 == s && response == unsupported)
            && ((c in s.last ==> num > s.last[c].num) && c !in s.counters ==>
                  && s1 == s
                  && response == Error(id, c, if Contains(c, UNSUPPORTED) then UnsupportedOperation
                                              else StateMachineError, unknown, Some(request.requestId)))
  {
  }

  /** What is executed: a new number of a known client, with the one operation there is. Its counter goes up by one, no
      other changes, and the reply with the new value is kept under that number. */
  lemma ExecutedOnce(id: string, s: ReplicaState, request: Message)
    requires request.ClientRequest? && request.clientId in s.counters && request.operation == "increment"
    requires request.clientId in s.last ==> request.requestNum > s.last[request.clientId].num
    ensures var (s1, response) := Process(id, s, request);
            var c, num := request.clientId, request.requestNum;
            && response == ClientReply(request.replicaId, c, c, request.replicaId, num, request.requestId,
                                       s.counters[c] + 1)
            && s1 == ReplicaState(s.counters[c := s.counters[c] + 1],
                                  s.last[c := Cached(num, "increment", response)])
  {
  }

  function ReplyTo(request: Message, value: int): Message
    requires request.ClientRequest?
  {
    ClientReply(request.replicaId, request.clientId, request.clientId, request.replicaId,
                request.requestNum, request.requestId, value)
  }

  /** The responses are what the message builders produce: no check of theirs fails on a request from the wire. */
  lemma ResponsesBuild(id: string, request: Message, value: nat, code: ErrorCode, detail: Detail)
    requires WellFormed(request) && request.ClientRequest? && NonBlank(id)
    ensures BuildClientReply(request, value) == Ok(ReplyTo(request, value))
    ensures BuildError(id, request.clientId, code, detail, Some(request.requestId))
            == Ok(ErrorReply(id, request, code, detail))
  {
  }

  /** What a connection handler reads: a well-formed message, or something that ends the connection. */
  datatype Input = Incoming(message: Message) | EndOfFile | Malformed

  predicate AddressedTo(m: Message, id: string) {
    m.ClientRequest? && m.destination == id
  }

  predicate Acceptable(input: Input, id: string) {
    input.Incoming? && AddressedTo(input.message, id)
  }

  /** The acceptable requests among the inputs of one connection, in order. */
  function Messages(inputs: seq<Input>, id: string): (log: seq<Message>)
    ensures IsLog(log)
  {
    if inputs == [] then []
    else
      var n := |inputs| - 1;
      Messages(inputs[..n], id) + if Acceptable(inputs[n], id) then [inputs[n].message] else []
  }

  function Rejection(id: string, m: Message): Message {
    Error(id, m.source, InvalidClientMessage, FixedText,
          if m.ClientRequest? || m.ClientReply? then Some(m.requestId) else if m.Error? then m.about else None)
  }

  /** On the message itself: a client request whose destination is this replica. */
  predicate IsRequestFor(input: Input, id: string) {
    input.Incoming? && input.message.ClientRequest? && input.message.destination == id
  }

  /** On the message itself: the one error with which any other message is answered. */
  predicate IsRefusalOf(response: Message, id: string, m: Message) {
    match m
    case ClientRequest(source, _, _, _, _, requestId, _) =>
      response == Error(id, source, InvalidClientMessage, FixedText, Some(requestId))
    case ClientReply(source, _, _, _, _, requestId, _) =>
      response == Error(id, source, InvalidClientMessage, FixedText, Some(requestId))
    case Error(source, _, _, _, about) => response == Error(id, source, InvalidClientMessage, FixedText, about)
    case _ => response == Error(id, m.source, InvalidClientMessage, FixedText, None)
  }

  lemma RejectionRefuses(id: string, m: Message)
    ensures IsRefusalOf(Rejection(id, m), id, m)
  {
  }

  class ClientListener {
    const replicaId: string
    const machine: DeterministicStateMachine
    var lastReplies: map<string, Cached>

    constructor (replicaId: string, machine: DeterministicStateMachine)
      ensures this.replicaId == replicaId && this.machine == machine
      ensures State() == ReplicaState(machine.counters, map[])
    {
      this.replicaId := replicaId;
      this.machine := machine;
      lastReplies := map[];
    }

    ghost function State(): ReplicaState
      reads this, machine
    {
      ReplicaState(machine.counters, lastReplies)
    }

    method ProcessRequest(request: Message) returns (response: Message)
      requires request.ClientRequest?
      modifies this, machine
      ensures State() == Process(replicaId, old(State()), request).0
      ensures response == Process(replicaId, old(State()), request).1
    {
      var client := request.clientId;
      if client in lastReplies {
        var previous := lastReplies[client];
        if request.requestNum <= previous.num {
          if request.requestNum == previous.num && request.operation == previous.operation {
            return previous.reply;
          }
          return ErrorReply(replicaId, request, StaleRequest, FixedText);
        }
      }
      var outcome := machine.Increment(client, request.operation);
      match outcome
      case Refused(why) =>
        return ErrorReply(replicaId, request, CodeOf(why), why);
      case Applied(transition) =>
        response := ReplyTo(request, transition.clientValue);
        lastReplies := lastReplies[client := Cached(request.requestNum, request.operation, response)];
    }

    /** The log of the first `n` inputs is those inputs themselves, all of them requests for this replica. */
    ghost predicate ServedInOrder(inputs: seq<Input>, n: nat)
      requires n <= |inputs|
    {
      && |Messages(inputs[..n], replicaId)| == n
      && forall i :: 0 <= i < n ==>
           IsRequestFor(inputs[i], replicaId) && Messages(inputs[..n], replicaId)[i] == inputs[i].message
    }

    lemma NothingServed(inputs: seq<Input>, s: ReplicaState)
      ensures Messages(inputs[..0], replicaId) == [] && RunLog(replicaId, s, []) == (s, [])
      ensures ServedInOrder(inputs, 0)
    {
    }

    lemma ServedGrows(inputs: seq<Input>, n: nat)
      requires n < |inputs| && ServedInOrder(inputs, n) && IsRequestFor(inputs[n], replicaId)
      ensures ServedInOrder(inputs, n + 1)
    {
      assert inputs[..n + 1][..n] == inputs[..n];
    }

    /** The message loop of one connection. It serves the longest acceptable prefix of the inputs, cut off by the
        first write that fails (`writable` writes succeed): what is served acts on the replica as a request log. */
    method Handle(inputs: seq<Input>, writable: nat) returns (outbox: seq<Message>, ghost served: nat)
      modifies this, machine
      ensures served <= |inputs| && served <= writable + 1
      ensures ServedInOrder(inputs, served)
      ensures served <= writable && served < |inputs| ==> !IsRequestFor(inputs[served], replicaId)
      ensures served < writable && served < |inputs| && inputs[served].Incoming? ==>
                |outbox| == served + 1 && IsRefusalOf(outbox[served], replicaId, inputs[served].message)
      ensures served >= writable || served == |inputs| || !inputs[served].Incoming? ==> |outbox| <= served
      ensures State() == RunLog(replicaId, old(State()), Messages(inputs[..served], replicaId)).0
      ensures var responses := RunLog(replicaId, old(State()), Messages(inputs[..served], replicaId)).1;
              if served > writable then responses == outbox + [responses[|responses| - 1]]
              else if served < writable && served < |inputs| && inputs[served].Incoming?
                then outbox == responses + [Rejection(replicaId, inputs[served].message)]
              else outbox == responses
    {
      hide Messages, RunLog, ServedInOrder, Process, Rejection;
      outbox, served := [], 0;
      var i := 0;
      NothingServed(inputs, old(State()));
      while i < |inputs| && inputs[i].Incoming?
        invariant 0 <= i == served == |outbox| <= |inputs| && i <= writable
        invariant ServedInOrder(inputs, i)
        invariant State() == RunLog(replicaId, old(State()), Messages(inputs[..i], replicaId)).0
        invariant outbox == RunLog(replicaId, old(State()), Messages(inputs[..i], replicaId)).1
      {
        var message := inputs[i].message;
        if !AddressedTo(message, replicaId) {
          RejectionRefuses(replicaId, message);
          if i < writable {
            outbox := outbox + [Rejection(replicaId, message)];
          }
          return;
        }
        ServingExtendsLog(replicaId, old(State()), inputs, i);
        ServedGrows(inputs, i);
        var response := ProcessRequest(message);
        served := i + 1;
        if i == writable {
          return;
        }
        outbox := outbox + [response];
        i := i + 1;
      }
    }
  }

  lemma ServingExtendsLog(id: string, s: ReplicaState, inputs: seq<Input>, i: nat)
    requires i < |inputs| && Acceptable(inputs[i], id)
    ensures |Messages(inputs[..i + 1], id)| == |Messages(inputs[..i], id)| + 1
    ensures var (s1, responses) := RunLog(id, s, Messages(inputs[..i], id));
            var (s2, response) := Process(id, s1, inputs[i].message);
            RunLog(id, s, Messages(inputs[..i + 1], id)) == (s2, responses + [response])
  {
    assert inputs[..i + 1][..i] == inputs[..i];
    var log := Messages(inputs[..i], id);
    assert (log + [inputs[i].message])[..|log|] == log;
  }

  // ----- Whole request logs -----

  /** The state after a log of requests, and the response to each of them. */
  function RunLog(id: string, s: ReplicaState, log: seq<Message>): (r: (ReplicaState, seq<Message>))
    requires IsLog(log)
    ensures |r.1| == |log|
  {
    if log == [] then (s, [])
    else
      var n := |log| - 1;
      var (s1, responses) := RunLog(id, s, log[..n]);
      var (s2, response) := Process(id, s1, log[n]);
      (s2, responses + [response])
  }

  predicate IsLog(log: seq<Message>) {
    forall i :: 0 <= i < |log| ==> log[i].ClientRequest?
  }

  /** The requests of one client, in order. */
  function Project(log: seq<Message>, client: string): (r: seq<Message>)
    requires IsLog(log)
    ensures IsLog(r)
  {
    if log == [] then []
    else
      var n := |log| - 1;
      Project(log[..n], client) + if log[n].clientId == client then [log[n]] else []
  }

  /** The responses given to one client, in order. */
  function ResponsesTo(log: seq<Message>, responses: seq<Message>, client: string): seq<Message>
    requires IsLog(log) && |responses| == |log|
  {
    if log == [] then []
    else
      var n := |log| - 1;
      ResponsesTo(log[..n], responses[..n], client) + if log[n].clientId == client then [responses[n]] else []
  }

  /** Whatever the request and the state, a repeated request changes nothing and gets the same response again, also if
      other clients were served in between. */
  lemma RetryIsIdempotent(id: string, s: ReplicaState, request: Message, others: seq<Message>)
    requires request.ClientRequest? && IsLog(others)
    requires forall i :: 0 <= i < |others| ==> others[i].clientId != request.clientId
    ensures var (s1, response) := Process(id, s, request);
            var s2 := RunLog(id, s1, others).0;
            Process(id, s2, request) == (s2, response)
  {
    var (s1, response) := Process(id, s, request);
    var s2 := RunLog(id, s1, others).0;
    LogIsLocal(id, s1, others, request.clientId);
    NoneProjected(others, request.clientId);
    assert SlotOf(s2, request.clientId) == SlotOf(s1, request.clientId);
  }

  lemma {:induction false} NoneProjected(log: seq<Message>, client: string)
    requires IsLog(log) && forall i :: 0 <= i < |log| ==> log[i].clientId != client
    ensures Project(log, client) == []
  {
    if log != [] {
      NoneProjected(log[..|log| - 1], client);
    }
  }

  /** A request of one client neither reads nor changes what the replica knows about another. */
  lemma ProcessIsLocal(id: string, s: ReplicaState, t: ReplicaState, request: Message, client: string)
    requires request.ClientRequest?
    ensures request.clientId != client ==> SlotOf(Process(id, s, request).0, client) == SlotOf(s, client)
    ensures request.clientId == client && SlotOf(s, client) == SlotOf(t, client) ==>
              && SlotOf(Process(id, s, request).0, client) == SlotOf(Process(id, t, request).0, client)
              && Process(id, s, request).1 == Process(id, t, request).1
    ensures Process(id, s, request).0.counters.Keys == s.counters.Keys
  {
  }

  /** Deleting every other client's requests from a log leaves this client's counter, its cached reply and all
      responses to it as they were: gaps, repeats, stale numbers, unknown clients and unsupported operations
      included. */
  lemma {:induction false} LogIsLocal(id: string, s: ReplicaState, log: seq<Message>, client: string)
    requires IsLog(log)
    ensures var (whole, responses) := RunLog(id, s, log);
            var (alone, own) := RunLog(id, s, Project(log, client));
            SlotOf(whole, client) == SlotOf(alone, client) && ResponsesTo(log, responses, client) == own
  {
    if log != [] {
      var n := |log| - 1;
      LogIsLocal(id, s, log[..n], client);
      var whole := RunLog(id, s, log[..n]);
      var own := Project(log[..n], client);
      assert RunLog(id, s, log).1[..n] == whole.1;
      ProcessIsLocal(id, whole.0, RunLog(id, s, own).0, log[n], client);
      if log[n].clientId == client {
        assert Project(log, client)[..|own|] == own;
      } else {
        assert Project(log, client) == own;
      }
    }
  }

  /** Two logs with equal projections on every client end in the same state and answer every client alike. */
  lemma LogsConverge(id: string, s: ReplicaState, log1: seq<Message>, log2: seq<Message>)
    requires IsLog(log1) && IsLog(log2)
    requires forall c :: Project(log1, c) == Project(log2, c)
    ensures RunLog(id, s, log1).0 == RunLog(id, s, log2).0
    ensures forall c :: ResponsesTo(log1, RunLog(id, s, log1).1, c) == ResponsesTo(log2, RunLog(id, s, log2).1, c)
  {
    var (a, r1) := RunLog(id, s, log1);
    var (b, r2) := RunLog(id, s, log2);
    forall c
      ensures SlotOf(a, c) == SlotOf(b, c) && ResponsesTo(log1, r1, c) == ResponsesTo(log2, r2, c)
    {
      LogIsLocal(id, s, log1, c);
      LogIsLocal(id, s, log2, c);
    }
    forall c
      ensures c in a.counters <==> c in b.counters
      ensures c in a.counters ==> a.counters[c] == b.counters[c]
      ensures c in a.last <==> c in b.last
      ensures c in a.last ==> a.last[c] == b.last[c]
    {
      assert SlotOf(a, c) == SlotOf(b, c);
    }
    assert a.counters == b.counters && a.last == b.last;
  }

  /** The request numbers of one client's increments, in order. */
  function Increments(log: seq<Message>, client: string): seq<int>
    requires IsLog(log)
  {
    if log == [] then []
    else
      var n := |log| - 1;
      Increments(log[..n], client)
      + if log[n].clientId == client && log[n].operation == INCREMENT then [log[n].requestNum] else []
  }

  /** The positions that hold a number larger than all numbers before them. */
  ghost function StrictMaxima(nums: seq<int>): set<nat> {
    set i: nat | i < |nums| && forall j :: 0 <= j < i ==> nums[j] < nums[i]
  }

  ghost predicate IsMaximum(m: int, nums: seq<int>) {
    m in nums && forall j :: 0 <= j < |nums| ==> nums[j] <= m
  }

  lemma StrictMaximaSnoc(nums: seq<int>, x: int)
    ensures StrictMaxima(nums + [x]) ==
            StrictMaxima(nums) + if forall j :: 0 <= j < |nums| ==> nums[j] < x then {|nums|} else {}
  {
    var longer := nums + [x];
    forall i: nat | i < |nums|
      ensures i in StrictMaxima(longer) <==> i in StrictMaxima(nums)
    {
      assert longer[i] == nums[i];
      assert forall j :: 0 <= j < i ==> longer[j] == nums[j];
    }
    assert longer[|nums|] == x;
    assert forall j :: 0 <= j < |nums| ==> longer[j] == nums[j];
  }

  /** The counter of `client` counts the strict maxima of `nums`, and the cached number is their maximum. */
  ghost predicate CountsMaxima(s: ReplicaState, client: string, nums: seq<int>) {
    && client in s.counters
    && s.counters[client] == |StrictMaxima(nums)|
    && (client in s.last <==> nums != [])
    && (client in s.last ==> IsMaximum(s.last[client].num, nums) && s.last[client].operation == INCREMENT)
  }

  lemma IncrementCountsMaxima(id: string, s: ReplicaState, request: Message, nums: seq<int>)
    requires request.ClientRequest? && request.operation == INCREMENT
    requires CountsMaxima(s, request.clientId, nums)
    ensures CountsMaxima(Process(id, s, request).0, request.clientId, nums + [request.requestNum])
  {
    var x, c := request.requestNum, request.clientId;
    var longer := nums + [x];
    StrictMaximaSnoc(nums, x);
    assert longer[|nums|] == x;
    assert forall j :: 0 <= j < |nums| ==> longer[j] == nums[j];
    if c in s.last && x <= s.last[c].num {
      var k :| 0 <= k < |nums| && nums[k] == s.last[c].num;
      assert longer[k] == nums[k] >= x;
      assert StrictMaxima(longer) == StrictMaxima(nums);
      assert Process(id, s, request).0 == s;
    } else {
      assert forall j :: 0 <= j < |nums| ==> nums[j] < x;
      assert StrictMaxima(longer) == StrictMaxima(nums) + {|nums|};
      assert |StrictMaxima(longer)| == |StrictMaxima(nums)| + 1;
      var t := Process(id, s, request).0;
      assert t.counters[c] == s.counters[c] + 1 && c in t.last && t.last[c].num == x;
    }
  }

  /** A fresh replica's counter of a client is the number of strict running maxima among the numbers of that
      client's increments, and the cached number is their maximum. Nothing else about the log, nor the identity
      of the replica, matters. */
  lemma {:induction false} CounterCountsMaxima(id: string, clients: set<string>, log: seq<Message>, client: string)
    requires IsLog(log) && client in clients
    ensures CountsMaxima(RunLog(id, Fresh(clients), log).0, client, Increments(log, client))
  {
    if log == [] {
      assert StrictMaxima([]) == {};
    } else {
      var n := |log| - 1;
      CounterCountsMaxima(id, clients, log[..n], client);
      var s := RunLog(id, Fresh(clients), log[..n]).0;
      if log[n].clientId == client && log[n].operation == INCREMENT {
        IncrementCountsMaxima(id, s, log[n], Increments(log[..n], client));
      } else {
        ProcessIsLocal(id, s, s, log[n], client);
        assert SlotOf(Process(id, s, log[n]).0, client) == SlotOf(s, client);
        assert Increments(log, client) == Increments(log[..n], client);
      }
    }
  }

  /** A cache all of whose replies can be sent. */
  ghost predicate SendableCache(last: map<string, Cached>) {
    forall c :: c in last ==> WellFormed(last[c].reply)
  }

  lemma ResponseSendable(id: string, s: ReplicaState, request: Message)
    requires NonBlank(id) && WellFormed(request) && request.ClientRequest? && SendableCache(s.last)
    ensures var (s1, response) := Process(id, s, request); WellFormed(response) && SendableCache(s1.last)
  {
    var c := request.clientId;
    match Apply(s.counters, c, request.operation)
    case Refused(why) => ResponsesBuild(id, request, 0, CodeOf(why), why);
    case Applied(transition) => ResponsesBuild(id, request, transition.clientValue, StaleRequest, FixedText);
    ResponsesBuild(id, request, 0, StaleRequest, FixedText);
  }

  /** A fresh replica can send all its responses: to any log of requests taken from the wire, no check of the builders
      or of the encoder fails on any of them, replayed replies and errors included. */
  lemma {:induction false} ResponsesSendable(id: string, clients: set<string>, log: seq<Message>)
    requires NonBlank(id) && IsLog(log) && forall i :: 0 <= i < |log| ==> WellFormed(log[i])
    ensures var (s, responses) := RunLog(id, Fresh(clients), log);
            SendableCache(s.last) && forall i :: 0 <= i < |responses| ==> WellFormed(responses[i])
  {
    if log != [] {
      var n := |log| - 1;
      ResponsesSendable(id, clients, log[..n]);
      ResponseSendable(id, RunLog(id, Fresh(clients), log[..n]).0, log[n]);
    }
  }

  /** Two fresh replicas, whatever their names and the order in which they served different clients, agree on the
      counter and on the answered number of a client whose increments arrived at both in the same order. */
  lemma ReplicasConverge(id1: string, id2: string, clients: set<string>, log1: seq<Message>, log2: seq<Message>,
                         client: string)
    requires IsLog(log1) && IsLog(log2) && client in clients
    requires Increments(log1, client) == Increments(log2, client)
    ensures var a := RunLog(id1, Fresh(clients), log1).0;
            var b := RunLog(id2, Fresh(clients), log2).0;
            && client in a.counters && client in b.counters && a.counters[client] == b.counters[client]
            && (client in a.last <==> client in b.last)
            && (client in a.last ==> a.last[client].num == b.last[client].num)
  {
    CounterCountsMaxima(id1, clients, log1, client);
    CounterCountsMaxima(id2, clients, log2, client);
  }
}
