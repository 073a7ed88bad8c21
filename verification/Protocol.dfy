/** Optional values and results that carry the reason of a failure. */
module Wrappers {
  datatype Option<+T> = None | Some(value: T)

  datatype Result<+T> = Ok(value: T) | Err(reason: string)

  function Get<K, V>(m: map<K, V>, key: K): Option<V> {
    if key in m then Some(m[key]) else None
  }
}

/** Typed wire messages, their well-formedness, and the message builders. */
module Protocol {
  import opened Wrappers

  datatype Message =
    | ClientRequest(source: string, destination: string, clientId: string, replicaId: string,
                    requestNum: int, requestId: string, operation: string)
    | ClientReply(source: string, destination: string, clientId: string, replicaId: string,
                  requestNum: int, requestId: string, clientValue: int)
    | Heartbeat(source: string, destination: string, count: int)
    | HeartbeatAck(source: string, destination: string, count: int)
    | Error(source: string, destination: string, code: ErrorCode, detail: Detail, about: Option<string>)
    | Register(source: string, destination: string, member: string, healthy: bool)
    | Membership(source: string, destination: string, member: string, healthy: bool)

  /** The error codes a replica sends; the wire carries their names, never empty. */
  datatype ErrorCode = InvalidClientMessage | StaleRequest | UnsupportedOperation | StateMachineError

  /** What an error message says: a fixed text, or one that quotes the request. */
  datatype Detail = FixedText | UnknownClient(client: string) | BadOperation(operation: string)

  const INCREMENT := "increment"
  const GFD := "GFD"

  /** The characters that Python's `str.strip` removes. */
  predicate IsSpace(c: char) {
    var code := c as int;
    || 0x09 <= code <= 0x0D || 0x1C <= code <= 0x20 || code == 0x85 || code == 0xA0
    || code == 0x1680 || 0x2000 <= code <= 0x200A || code == 0x2028 || code == 0x2029
    || code == 0x202F || code == 0x205F || code == 0x3000
  }

  predicate NonBlank(s: string) {
    exists i :: 0 <= i < |s| && !IsSpace(s[i])
  }

  /** Decimal digits of a natural number, most significant first. */
  function Decimal(n: nat): (s: string)
    ensures |s| > 0
    ensures forall i :: 0 <= i < |s| ==> '0' <= s[i] <= '9'
  {
    var digit := ('0' as int + n % 10) as char;
    if n < 10 then [digit] else Decimal(n / 10) + [digit]
  }

  function RequestId(client: string, num: nat): string {
    client + ":" + Decimal(num)
  }

  predicate HasRequestIdentity(m: Message)
    requires m.ClientRequest? || m.ClientReply?
  {
    && NonBlank(m.clientId)
    && NonBlank(m.replicaId)
    && m.requestNum > 0
    && NonBlank(m.requestId)
    && m.requestId == RequestId(m.clientId, m.requestNum)
    && (if m.ClientRequest? then m.source == m.clientId && m.destination == m.replicaId
        else m.source == m.replicaId && m.destination == m.clientId)
  }

  /** What a message must satisfy to be sent or to be accepted from the wire. */
  predicate WellFormed(m: Message) {
    && NonBlank(m.source)
    && NonBlank(m.destination)
    && match m {
      case ClientRequest(_, _, _, _, _, _, operation) => HasRequestIdentity(m) && NonBlank(operation)
      case ClientReply(_, _, _, _, _, _, value) => HasRequestIdentity(m) && value >= 0
      case Heartbeat(_, _, count) => count > 0
      case HeartbeatAck(_, _, count) => count > 0
      case Error(_, _, _, _, about) => about.Some? ==> NonBlank(about.value)
      case Register(_, destination, member, _) => NonBlank(member) && destination == GFD
      case Membership(_, destination, member, _) => NonBlank(member) && destination == GFD
    }
  }

  function Validate(m: Message): (r: Result<Message>)
    ensures r.Ok? <==> WellFormed(m)
    ensures r.Ok? ==> r.value == m
  {
    if WellFormed(m) then Ok(m) else Err("malformed message")
  }

  /** The request of client `c` numbered `n` as it travels to replica `r`. */
  function RequestOf(c: string, r: string, n: nat): Message {
    ClientRequest(c, r, c, r, n, RequestId(c, n), INCREMENT)
  }

  /** A reply of replica `r` to request `n` of client `c`. */
  function ReplyOf(c: string, r: string, n: nat, value: int): Message {
    ClientReply(r, c, c, r, n, RequestId(c, n), value)
  }

  function BuildClientRequest(c: string, r: string, n: int): Result<Message> {
    if n <= 0 then Err("request_num must be a positive integer") else Validate(RequestOf(c, r, n))
  }

  function BuildClientReply(request: Message, value: int): Result<Message> {
    if !WellFormed(request) then Err("malformed message")
    else if !request.ClientRequest? then Err("client reply requires a client_request")
    else Validate(ClientReply(request.replicaId, request.clientId, request.clientId, request.replicaId,
                              request.requestNum, request.requestId, value))
  }

  function BuildError(source: string, destination: string, code: ErrorCode, detail: Detail,
                      about: Option<string>): Result<Message> {
    Validate(Error(source, destination, code, detail, about))
  }

  function BuildHeartbeat(source: string, destination: string, count: int): Result<Message> {
    Validate(Heartbeat(source, destination, count))
  }

  function BuildHeartbeatAck(heartbeat: Message): Result<Message> {
    if !WellFormed(heartbeat) then Err("malformed message")
    else if !heartbeat.Heartbeat? then Err("heartbeat ACK requires a heartbeat")
    else Validate(HeartbeatAck(heartbeat.destination, heartbeat.source, heartbeat.count))
  }

  function BuildMembership(lfd: string, replica: string, healthy: bool, register: bool): Result<Message> {
    Validate(if register then Register(lfd, GFD, replica, healthy) else Membership(lfd, GFD, replica, healthy))
  }

  /** `reply.get("request_num", 0)`: only requests and replies carry a request number. */
  function RequestNumber(m: Message): int {
    if m.ClientRequest? || m.ClientReply? then m.requestNum else 0
  }

  /** The check a client makes of a reply against the request it sent. */
  predicate ValidReply(reply: Message, request: Message)
    requires request.ClientRequest?
  {
    && reply.ClientReply?
    && reply.clientId == request.clientId
    && reply.replicaId == request.replicaId
    && reply.requestNum == request.requestNum
    && reply.requestId == request.requestId
  }

  lemma NonBlankExtends(s: string, t: string)
    requires NonBlank(s)
    ensures NonBlank(s + t)
  {
    var i :| 0 <= i < |s| && !IsSpace(s[i]);
    assert (s + t)[i] == s[i];
  }

  lemma RequestWellFormed(c: string, r: string, n: int)
    ensures BuildClientRequest(c, r, n).Ok? <==> n > 0 && NonBlank(c) && NonBlank(r)
    ensures n > 0 && NonBlank(c) && NonBlank(r) ==> BuildClientRequest(c, r, n) == Ok(RequestOf(c, r, n))
  {
    if n > 0 && NonBlank(c) && NonBlank(r) {
      NonBlankExtends(c, ":" + Decimal(n));
      assert RequestId(c, n) == c + (":" + Decimal(n));
      assert !IsSpace(INCREMENT[0]);
    }
  }

  lemma {:induction false} DecimalInjective(m: nat, n: nat)
    requires Decimal(m) == Decimal(n)
    ensures m == n
  {
    var a, b := Decimal(m), Decimal(n);
    assert a[|a| - 1] == b[|b| - 1];
    assert (|a| == 1 <==> m < 10) && (|b| == 1 <==> n < 10);
    if m >= 10 && n >= 10 {
      assert Decimal(m / 10) == a[..|a| - 1] == b[..|b| - 1] == Decimal(n / 10);
      DecimalInjective(m / 10, n / 10);
    }
  }

  lemma LastColon(client: string, num: nat)
    ensures var id := RequestId(client, num);
            |client| < |id| && id[|client|] == ':' && forall i :: |client| < i < |id| ==> id[i] != ':'
  {
  }

  /** A request id tells the client and the number, even if client names contain colons and digits themselves: the last
      colon separates them. */
  lemma RequestIdInjective(c: string, d: string, m: nat, n: nat)
    ensures RequestId(c, m) == RequestId(d, n) <==> c == d && m == n
  {
    var a, b := RequestId(c, m), RequestId(d, n);
    if a == b {
      LastColon(c, m);
      LastColon(d, n);
      assert |c| == |d|;
      assert a[|c| + 1..] == Decimal(m) && b[|d| + 1..] == Decimal(n);
      assert a[..|c|] == c && b[..|d|] == d;
      DecimalInjective(m, n);
    }
  }

  /** Two requests or replies that pass validation under the same request id belong to the same call: they name the same
      client, at their client's end, and the same number. */
  lemma ValidatedIdentity(m1: Message, m2: Message)
    requires Validate(m1).Ok? && (m1.ClientRequest? || m1.ClientReply?)
    requires Validate(m2).Ok? && (m2.ClientRequest? || m2.ClientReply?)
    ensures m1.requestId == m2.requestId <==> m1.clientId == m2.clientId && m1.requestNum == m2.requestNum
    ensures m1.requestId == m2.requestId ==>
              (if m1.ClientRequest? then m1.source else m1.destination)
              == if m2.ClientRequest? then m2.source else m2.destination
  {
    RequestIdInjective(m1.clientId, m2.clientId, m1.requestNum, m2.requestNum);
  }

  /** A message taken from the wire passes the reply check exactly when it is the reply of that replica to
      that very request, with some non-negative value: no field is left to the sender's choice but the value. */
  lemma AcceptedReplyIsDetermined(m: Message, c: string, r: string, n: int)
    requires WellFormed(m) && BuildClientRequest(c, r, n).Ok?
    ensures ValidReply(m, RequestOf(c, r, n)) <==>
              m.ClientReply? && m.clientValue >= 0 && m == ReplyOf(c, r, n, m.clientValue)
    ensures m.ClientReply? && m.clientId == c && m.replicaId == r ==>
              (ValidReply(m, RequestOf(c, r, n)) <==> m.requestId == RequestId(c, n))
  {
    RequestWellFormed(c, r, n);
    if m.ClientReply? && m.clientId == c && m.replicaId == r {
      RequestIdInjective(c, c, m.requestNum, n);
    }
  }

  /** Building a reply to a genuine request and checking it against that request always succeeds. */
  lemma ReplyRoundTrip(c: string, r: string, n: int, value: int)
    requires NonBlank(c) && NonBlank(r) && n > 0 && value >= 0
    ensures BuildClientReply(RequestOf(c, r, n), value) == Ok(ReplyOf(c, r, n, value))
    ensures ValidReply(ReplyOf(c, r, n, value), RequestOf(c, r, n))
  {
    RequestWellFormed(c, r, n);
  }

  /** An acknowledgement swaps the two ends of its heartbeat and keeps the count. */
  lemma AckRoundTrip(source: string, destination: string, count: int)
    requires NonBlank(source) && NonBlank(destination) && count > 0
    ensures BuildHeartbeat(source, destination, count) == Ok(Heartbeat(source, destination, count))
    ensures BuildHeartbeatAck(Heartbeat(source, destination, count)) == Ok(HeartbeatAck(destination, source, count))
  {
  }

  /** Each builder succeeds exactly on what its message must satisfy, and then makes that message. */
  lemma BuildersRefuseExactly(a: string, b: string, count: int, healthy: bool, register: bool, code: ErrorCode,
                              about: Option<string>)
    ensures BuildHeartbeat(a, b, count).Ok? <==> NonBlank(a) && NonBlank(b) && count >= 1
    ensures BuildMembership(a, b, healthy, register).Ok? <==> NonBlank(a) && NonBlank(b)
    ensures BuildMembership(a, b, healthy, register).Ok? ==>
              BuildMembership(a, b, healthy, register).value
              == if register then Register(a, GFD, b, healthy) else Membership(a, GFD, b, healthy)
    ensures BuildError(a, b, code, FixedText, about).Ok? <==>
              NonBlank(a) && NonBlank(b) && (about.Some? ==> NonBlank(about.value))
  {
    assert NonBlank(GFD) by {
      assert !IsSpace(GFD[0]);
    }
  }

  /** A reply can be built exactly for a value of at least 0 and a request as its client would build it, whatever its
      operation, and an acknowledgement exactly for a heartbeat of at least 1. */
  lemma AnswersBuiltExactly(m: Message, value: int)
    requires NonBlank(m.source) && NonBlank(m.destination)
    ensures BuildClientReply(m, value).Ok? <==>
              && m.ClientRequest? && m.requestNum >= 1 && NonBlank(m.operation) && value >= 0
              && m == ClientRequest(m.source, m.destination, m.source, m.destination, m.requestNum,
                                    RequestId(m.source, m.requestNum), m.operation)
    ensures BuildHeartbeatAck(m).Ok? <==> m.Heartbeat? && m.count >= 1
    ensures BuildHeartbeatAck(m).Ok? ==> BuildHeartbeatAck(m).value == HeartbeatAck(m.destination, m.source, m.count)
  {
    if m.ClientRequest? && m.requestNum >= 1 {
      NonBlankExtends(m.source, ":" + Decimal(m.requestNum));
      assert RequestId(m.source, m.requestNum) == m.source + (":" + Decimal(m.requestNum));
    }
  }
}
