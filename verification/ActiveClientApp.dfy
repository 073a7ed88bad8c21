/** The client object itself: connections and fields updated in place by the sections of its coroutines. Every
    method is proved to have the effect of the section of the same name in `ActiveClient`. */
module ActiveClientObjects {
  import opened Wrappers
  import opened Protocol
  import opened ActiveClient

  class ReplicaConnection {
    const replicaId: string
    var lastSent: nat
    var lastReceived: nat
    var task: Task

    constructor (replicaId: string)
      ensures this.replicaId == replicaId && Value() == Conn(0, 0, Reading)
    {
      this.replicaId := replicaId;
      lastSent, lastReceived, task := 0, 0, Reading;
    }

    ghost function Value(): Conn
      reads this
    {
      Conn(lastSent, lastReceived, task)
    }
  }

  /** How a call begins. */
  datatype Beginning =
    | LateReply(reply: Message)
    | NoReplicas
    | Broadcast(targets: set<ReplicaConnection>)

  lemma HasElement(s: set<int>)
    ensures s != {} ==> exists n :: n in s
  {
    if forall n :: n !in s {
      assert s == {};
    }
  }

  class ActiveClientApp {
    const clientId: string
    const endpoints: set<string>
    var started: bool
    var connections: map<string, ReplicaConnection>
    var allConnections: map<string, ReplicaConnection>  // by replica: endpoints are unique
    var nextRequestNum: nat
    var delivered: nat
    var lastReply: Option<Message>
    var pending: Future
    var deliveredValues: map<int, int>

    ghost predicate Valid()
      reads this, allConnections.Values
    {
      && (forall r :: r in allConnections ==> allConnections[r].replicaId == r)
      && (forall r :: r in connections ==> r in allConnections && connections[r] == allConnections[r])
    }

    ghost predicate Owns(connection: ReplicaConnection)
      reads this
    {
      connection.replicaId in allConnections && allConnections[connection.replicaId] == connection
    }

    ghost function Conns(): map<string, Conn>
      requires Valid()
      reads this, allConnections.Values
    {
      map r | r in allConnections :: allConnections[r].Value()
    }

    ghost function State(): Client
      requires Valid()
      reads this, allConnections.Values
    {
      Client(clientId, endpoints, started, Conns(), connections.Keys, nextRequestNum, delivered, lastReply, pending,
             deliveredValues)
    }

    constructor (clientId: string, endpoints: set<string>)
      ensures Valid() && State() == NewClient(clientId, endpoints)
    {
      this.clientId, this.endpoints := clientId, endpoints;
      started, connections, allConnections, nextRequestNum, delivered := false, map[], map[], 1, 0;
      lastReply, pending, deliveredValues := None, NoFuture, map[];
    }

    static method Create(clientId: string, endpoints: seq<string>) returns (r: Result<ActiveClientApp>)
      ensures r.Ok? <==> endpoints != [] && forall i, j :: 0 <= i < j < |endpoints| ==> endpoints[i] != endpoints[j]
      ensures r.Ok? ==> r.value.Valid() && r.value.State() == NewClient(clientId, set e | e in endpoints)
    {
      if endpoints == [] || exists i, j :: 0 <= i < j < |endpoints| && endpoints[i] == endpoints[j] {
        return Err("unique replica endpoints are required");
      }
      var app := new ActiveClientApp(clientId, set e | e in endpoints);
      return Ok(app);
    }

    /** Opens the connections once; `reached` are the replicas that could be reached. */
    method Connect(reached: seq<string>)
      requires Valid() && forall i, j :: 0 <= i < j < |reached| ==> reached[i] != reached[j]
      requires !started ==> allConnections == map[] && connections == map[]
      modifies this
      ensures Valid() && State() == ActiveClient.Connect(old(State()), set r | r in reached)
      ensures old(started) ==> unchanged(this) && State() == old(State())
      ensures !old(started) ==>
                && started && connections == allConnections && connections.Keys == set r | r in reached
                && (forall r :: r in connections ==>
                      fresh(connections[r]) && connections[r].Value() == Conn(0, 0, Reading))
                && unchanged(`nextRequestNum) && unchanged(`delivered) && unchanged(`lastReply)
                && unchanged(`pending) && unchanged(`deliveredValues)
    {
      if started {
        return;
      }
      started := true;
      OpenAll(reached);
      assert Conns() == ActiveClient.Connect(old(State()), set r | r in reached).conns;
    }

    /** Opens a connection to every replica that can be reached. */
    method OpenAll(reached: seq<string>)
      requires allConnections == map[] && connections == map[]
      requires forall i, j :: 0 <= i < j < |reached| ==> reached[i] != reached[j]
      modifies this`connections, this`allConnections
      ensures Valid() && connections == allConnections && connections.Keys == set r | r in reached
      ensures forall r :: r in connections ==> fresh(connections[r]) && connections[r].Value() == Conn(0, 0, Reading)
    {
      var i := 0;
      while i < |reached|
        invariant 0 <= i <= |reached| && Valid()
        invariant connections == allConnections && connections.Keys == set r | r in reached[..i]
        invariant forall r :: r in connections ==>
                    fresh(connections[r]) && connections[r].Value() == Conn(0, 0, Reading)
      {
        assert reached[..i + 1] == reached[..i] + [reached[i]];
        OpenReplica(reached[i]);
        i := i + 1;
      }
      assert reached[..i] == reached;
    }

    /** Registers a connection that was just established. */
    method OpenReplica(replica: string)
      requires Valid() && replica !in allConnections
      modifies this`connections, this`allConnections
      ensures Valid()
      ensures replica in allConnections && fresh(allConnections[replica])
      ensures allConnections == old(allConnections)[replica := allConnections[replica]]
      ensures connections == old(connections)[replica := allConnections[replica]]
      ensures allConnections[replica].Value() == Conn(0, 0, Reading)
    {
      var connection := new ReplicaConnection(replica);
      connections := connections[replica := connection];
      allConnections := allConnections[replica := connection];
    }

    /** The start of a call once the connections are open. */
    method BeginCall() returns (b: Beginning)
      requires Valid() && (delivered == nextRequestNum ==> lastReply.Some?)
      modifies this`nextRequestNum, this`pending
      ensures Valid()
      ensures match b
              case LateReply(reply) =>
                && LateReplyWaits(old(State())) && old(State()).lastReply == Some(reply)
                && State() == old(State()).(next := old(nextRequestNum) + 1)
              case NoReplicas => !LateReplyWaits(old(State())) && old(State()).live == {} && State() == old(State())
              case Broadcast(targets) =>
                && !LateReplyWaits(old(State())) && old(State()).live != {}
                && targets == connections.Values && State() == old(State()).(pending := Unresolved)
      ensures b.LateReply? <==> old(delivered == nextRequestNum)
      ensures b.NoReplicas? <==> !old(delivered == nextRequestNum) && connections.Keys == {}
    {
      if delivered == nextRequestNum {
        nextRequestNum := nextRequestNum + 1;
        return LateReply(lastReply.value);
      }
      if connections == map[] {
        return NoReplicas;
      }
      assert connections.Keys != {};
      pending := Unresolved;
      return Broadcast(connections.Values);
    }

    /** The section of one send before its write is awaited. */
    method MarkSent(connection: ReplicaConnection) returns (request: Result<Message>)
      requires Valid() && Owns(connection)
      modifies connection`lastSent
      ensures Valid() && State() == ActiveClient.MarkSent(old(State()), connection.replicaId)
      ensures request == BuildClientRequest(clientId, connection.replicaId, nextRequestNum)
      ensures connection.lastSent == nextRequestNum
    {
      request := BuildClientRequest(clientId, connection.replicaId, nextRequestNum);
      connection.lastSent := nextRequestNum;
    }

    method Retire(connection: ReplicaConnection)
      requires Valid() && Owns(connection)
      modifies this`connections
      ensures Valid() && State() == ActiveClient.Retire(old(State()), connection.replicaId)
      ensures connections == old(connections) - {connection.replicaId}
    {
      var replica := connection.replicaId;
      if replica in connections && connections[replica] == connection {
        connections := connections - {replica};
      }
    }

    /** The reader of a connection ends its loop. */
    method StopReading(connection: ReplicaConnection)
      requires Valid() && Owns(connection)
      modifies this`connections, connection`task
      ensures Valid() && State() == ActiveClient.StopReading(old(State()), connection.replicaId)
      ensures connections == old(connections) - {connection.replicaId} && connection.task == Closing
    {
      Retire(connection);
      connection.task := Closing;
      assert Conns() == old(Conns())[connection.replicaId := old(connection.Value()).(task := Closing)];
    }

    method FinishTask(connection: ReplicaConnection)
      requires Valid() && Owns(connection)
      modifies connection`task
      ensures Valid() && State() == ActiveClient.FinishTask(old(State()), connection.replicaId)
      ensures connection.task == Done
    {
      connection.task := Done;
    }

    method IsSettled(number: int) returns (settled: bool)
      requires Valid()
      ensures settled == Settled(Conns(), number)
      ensures settled <==>
                forall r :: r in allConnections ==>
                  allConnections[r].lastReceived >= number || allConnections[r].task == Done
    {
      assert forall r :: r in allConnections ==> Conns()[r] == allConnections[r].Value();
      settled := forall r | r in allConnections ::
                   allConnections[r].lastReceived >= number || allConnections[r].task.Done?;
    }

    /** Drops every cached value that no connection can still be compared with. */
    method Prune()
      requires Valid()
      modifies this`deliveredValues
      ensures Valid() && State() == ActiveClient.Prune(old(State()))
    {
      var numbers := deliveredValues.Keys;
      ghost var conns := Conns();
      while numbers != {}
        invariant Valid() && Conns() == conns && numbers <= deliveredValues.Keys
        invariant forall n :: n in deliveredValues <==>
                    n in old(deliveredValues) && (n in numbers || !Settled(conns, n))
        invariant forall n :: n in deliveredValues ==> deliveredValues[n] == old(deliveredValues)[n]
        decreases |numbers|
      {
        HasElement(numbers);
        var number: int :| number in numbers;
        var settled := IsSettled(number);
        if settled {
          deliveredValues := deliveredValues - {number};
        }
        numbers := numbers - {number};
      }
      ghost var pruned := ActiveClient.Prune(old(State())).values;
      assert forall n :: n in deliveredValues <==> n in pruned;
      assert deliveredValues == pruned;
    }

    /** One round of the receive loop. */
    method Receive(connection: ReplicaConnection, reply: Message) returns (event: Event)
      requires Valid() && Owns(connection)
      modifies this`connections, this`delivered, this`lastReply, this`pending, this`deliveredValues, connection
      ensures Valid()
      ensures State() == ActiveClient.Receive(old(State()), connection.replicaId, reply).0
      ensures event == ActiveClient.Receive(old(State()), connection.replicaId, reply).1
    {
      var number := RequestNumber(reply);
      assert Conns()[connection.replicaId] == connection.Value();
      if !(connection.lastReceived <= number <= connection.lastSent) || number < 1 {
        StopReading(connection);
        return Rejected;
      }
      if !Accepts(clientId, connection.replicaId, reply) {
        StopReading(connection);
        return Rejected;
      }
      NoteReceived(connection, number);
      if number <= delivered {
        event := Duplicate(number in deliveredValues && deliveredValues[number] != reply.clientValue);
      } else if number == nextRequestNum {
        Deliver(reply);
        event := Delivered;
      } else {
        StopReading(connection);
        return Rejected;
      }
      Prune();
    }

    method NoteReceived(connection: ReplicaConnection, number: nat)
      requires Valid() && Owns(connection)
      modifies connection`lastReceived
      ensures Valid()
      ensures var conn := old(connection.Value()).(lastReceived := number);
              State() == old(State()).(conns := old(Conns())[connection.replicaId := conn])
    {
      connection.lastReceived := number;
    }

    method Deliver(reply: Message)
      requires Valid() && reply.ClientReply? && reply.requestNum >= 0
      modifies this`delivered, this`lastReply, this`pending, this`deliveredValues
      ensures Valid() && State() == ActiveClient.Deliver(old(State()), reply)
      ensures delivered == reply.requestNum && lastReply == Some(reply)
      ensures deliveredValues == old(deliveredValues)[reply.requestNum := reply.clientValue]
      ensures pending == if old(pending) == Unresolved then Resolved(reply) else old(pending)
    {
      delivered := reply.requestNum;
      deliveredValues := deliveredValues[reply.requestNum := reply.clientValue];
      lastReply := Some(reply);
      if pending.Unresolved? {
        pending := Resolved(reply);
      }
    }

    /** The call returns the reply its future was resolved with. */
    method CompleteCall() returns (reply: Message)
      requires Valid() && pending.Resolved?
      modifies this`nextRequestNum, this`pending
      ensures Valid() && State() == Complete(old(State())) && reply == old(pending).reply
      ensures nextRequestNum == old(nextRequestNum) + 1 && pending == NoFuture
    {
      reply := pending.reply;
      nextRequestNum := nextRequestNum + 1;
      pending := NoFuture;
    }

    method AbandonCall()
      requires Valid()
      modifies this`pending
      ensures Valid() && State() == old(State()).(pending := NoFuture)
    {
      pending := NoFuture;
    }
  }
}
