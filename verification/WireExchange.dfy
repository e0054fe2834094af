/** Whole exchanges over the framed protocol. */
module WireExchange {
  import opened Wrappers
  import opened Wire

  // ----- Lines

  lemma {:induction false} LineOfLine(body: seq<byte>, rest: seq<byte>)
    requires NEWLINE !in body
    ensures LineOf(body + [NEWLINE] + rest) == body + [NEWLINE]
  {
    var s := body + [NEWLINE] + rest;
    if body != [] {
      LineOfLine(body[1..], rest);
      assert s[1..] == body[1..] + [NEWLINE] + rest;
      assert body == [body[0]] + body[1..];
    }
  }

  /** Stripping an encoded line removes its newline and nothing else. */
  lemma StripLine(body: seq<byte>)
    requires body != [] && !IsSpace(body[0]) && !IsSpace(body[|body| - 1])
    ensures Strip(body + [NEWLINE]) == body
  {
    var line := body + [NEWLINE];
    assert StripLeft(line) == line;
    assert line[..|line| - 1] == body;
    assert StripRight(body) == body;
  }

  lemma EncodedLine(codec: Codec, h: Header, rest: seq<byte>)
    requires codec.Valid()
    ensures var line := codec.encode(h) + [NEWLINE];
            && LineOf(line + rest) == line && (line + rest)[|line|..] == rest && line != []
            && Strip(line) == codec.encode(h) && codec.encode(h) != []
            && codec.decode(codec.encode(h)) == Some(h) && Parsed(codec, line) == Success(h)
  {
    var body := codec.encode(h);
    LineOfLine(body, rest);
    StripLine(body);
    assert (body + [NEWLINE])[..|body|] == body;
  }

  // ----- One exchange

  /** The two halves share their pipes and codec; the worker has mapped the client's buffer or none. */
  ghost predicate Connected(client: Client, server: Server) {
    && client.stdin == server.stdin && client.stdout == server.stdout && client.stdin != client.stdout
    && client.codec == server.codec && client.codec.Valid()
    && (server.shm == null || server.shm == client.shm)
  }

  /** A client with its worker as started: empty pipes, and a buffer that the worker has mapped, or has
      failed to, or none. */
  method Connect(codec: Codec, shmBytes: Option<nat>, mapped: bool) returns (client: Client, server: Server)
    requires codec.Valid()
    ensures fresh(client) && fresh(server) && Connected(client, server)
    ensures client.codec == codec && client.stdin.content == [] && client.stdout.content == []
    ensures (client.shm != null <==> shmBytes.Some?)
    ensures client.ShmBytes() == if shmBytes.Some? then shmBytes.value else 0
    ensures server.shm != null <==> shmBytes.Some? && mapped
  {
    var stdin := new Pipe();
    var stdout := new Pipe();
    var shm: array?<byte> := null;
    if shmBytes.Some? {
      shm := new byte[shmBytes.value];
    }
    client := new Client(codec, stdin, stdout, shm);
    server := new Server(codec, stdin, stdout, if mapped then shm else null);
  }

  /** When the handler is given exactly what the client sent: the request is not the shutdown
      message, only a request with a payload carries a length, and a non-empty payload left in the
      shared buffer finds the worker with that buffer mapped. */
  predicate Deliverable(header: Header, payload: Option<seq<byte>>, clientMapped: bool, serverMapped: bool,
      shmBytes: nat) {
    && !IsShutdown(header)
    && (payload.None? ==> "n" !in header)
    && (payload.Some? && clientMapped && !serverMapped && 0 < |payload.value| <= shmBytes ==> IsInline(header))
  }

  /** The bytes after the header line. */
  function Trailer(sent: Header, payload: Option<seq<byte>>): seq<byte> {
    if payload.Some? && IsInline(sent) then payload.value else []
  }

  /** Given the line's request and the trailing bytes, what is fetched decides delivery. */
  lemma FetchedIff(header: Header, payload: Option<seq<byte>>, clientMapped: bool, shm: Option<seq<byte>>,
      shmBytes: nat, served: Served, left: seq<byte>)
    requires !IsShutdown(header)
    requires shm.Some? ==> clientMapped && |shm.value| == shmBytes
    requires payload.Some? && shm.Some? && |payload.value| <= shmBytes ==> shm.value[..|payload.value|] == payload.value
    requires var sent := Addressed(header, payload, clientMapped, shmBytes); Fetched(sent, Trailer(sent, payload), shm,
        served, left)
    ensures (served == Handled(Addressed(header, payload, clientMapped, shmBytes), payload) && left == [])
            <==> Deliverable(header, payload, clientMapped, shm.Some?, shmBytes)
  {
    var sent := Addressed(header, payload, clientMapped, shmBytes);
    if payload.Some? {
      var bytes := payload.value;
      assert "n" in sent && sent["n"] == Num(|bytes|);
      if IsInline(sent) {
        WholeTrailer(served.payload.value, left, bytes);
      } else if shm.Some? {
        assert Slice(shm.value, |bytes|) == bytes;
      } else if bytes == [] {
        WholeTrailer(served.payload.value, left, []);
      }
      assert IsInline(sent) <==> IsInline(header) || !clientMapped || |bytes| > shmBytes;
    }
  }

  lemma WholeTrailer(value: seq<byte>, left: seq<byte>, trailer: seq<byte>)
    requires value + left == trailer && |value| == |trailer|
    ensures value == trailer && left == []
  {
    assert value == (value + left)[..|value|];
  }

  /** The client's half, in terms of what the server will find. */
  lemma SentLine(codec: Codec, header: Header, payload: Option<seq<byte>>, mapped: bool, shmBytes: nat)
    requires codec.Valid()
    ensures var sent := Addressed(header, payload, mapped, shmBytes); var line := codec.encode(sent) + [NEWLINE];
            var content := line + Trailer(sent, payload);
            && LineOf(content) == line && content[|line|..] == Trailer(sent, payload) && line != [] && Strip(line) != []
            && codec.decode(Strip(line)) == Some(sent) && (IsShutdown(sent) <==> IsShutdown(header))
  {
    var sent := Addressed(header, payload, mapped, shmBytes);
    EncodedLine(codec, sent, Trailer(sent, payload));
  }

  /** One turn of the server on a request line and its trailing bytes. */
  method ServeSent(server: Server, sent: Header, ghost trailer: seq<byte>, answer: Answer) returns (served: Served)
    requires server.codec.Valid() && server.stdin != server.stdout
    requires server.stdin.content == server.codec.encode(sent) + [NEWLINE] + trailer && server.stdout.content == []
    modifies server.stdin, server.stdout
    ensures IsShutdown(sent) ==> served.Stopped?
    ensures !IsShutdown(sent) ==>
      Fetched(sent, trailer, if server.shm == null then None
          else Some(old(server.shm[..])), served, server.stdin.content)
    ensures served.Handled? || served.Rejected? ==>
      server.stdout.content == server.codec.encode(ReplyTo(served, answer)) + [NEWLINE]
  {
    hide LineOf, Strip, Fetched, Parsed, IsInline, IsShutdown;
    EncodedLine(server.codec, sent, trailer);
    served := server.ServeOne(answer);
    ghost var reply := server.codec.encode(ReplyTo(served, answer));
    assert [] + reply + [NEWLINE] == reply + [NEWLINE];
  }

  /** What the worker sends back: what the handler returned, or an object naming what was raised. */
  function ReplyTo(served: Served, answer: Answer): Header {
    if served.Rejected? then map["error" := Text(served.reason)]
    else if answer.Reply? then answer.response
    else map["error" := Text(answer.message)]
  }

  /** The reply read, in the client's terms. */
  ghost predicate IsReply(served: Served, answer: Answer, reply: Result<Header, string>) {
    && (served.Handled? && answer.Reply? ==> reply == Success(answer.response))
    && (served.Handled? && answer.Raise? ==> reply == Success(map["error" := Text(answer.message)]))
    && (served.Rejected? ==> reply == Success(map["error" := Text(served.reason)]))
  }

  /** The header the handler is given is the one sent: with a payload its length is added, and possibly
      the inline flag; every other field is as sent, and none is added or lost. */
  ghost predicate IsAsSent(got: Header, header: Header, payload: Option<seq<byte>>) {
    && (payload.None? ==> got == header)
    && (payload.Some? ==> "n" in got && got["n"] == Num(|payload.value|))
    && (forall k :: k != "n" && k != "inline" ==> (k in got <==> k in header) && (k in header ==> got[k] == header[k]))
    && ("inline" in got ==> got["inline"] == Flag(true) || ("inline" in header && got["inline"] == header["inline"]))
    && ("inline" in header ==> "inline" in got)
  }

  lemma AddressedIsAsSent(header: Header, payload: Option<seq<byte>>, mapped: bool, shmBytes: nat)
    ensures IsAsSent(Addressed(header, payload, mapped, shmBytes), header, payload)
  {
  }

  /** The client reads back the one reply line waiting for it. */
  method ReceiveOnly(client: Client, ghost response: Header) returns (reply: Result<Header, string>)
    requires client.codec.Valid()
    modifies client.stdout
    ensures old(client.stdout.content) == client.codec.encode(response) + [NEWLINE] ==>
      reply == Success(response) && client.stdout.content == []
  {
    hide LineOf, Strip, Parsed;
    ghost var line := client.codec.encode(response) + [NEWLINE];
    EncodedLine(client.codec, response, []);
    assert line + [] == line;
    reply := client.Receive();
  }

  method Exchange(client: Client, server: Server, header: Header, payload: Option<seq<byte>>, answer: Answer)
    returns (served: Served, reply: Result<Header, string>)
    requires Connected(client, server) && client.stdin.content == [] && client.stdout.content == []
    modifies client.stdin, client.stdout, if client.shm == null then {} else {client.shm}
    ensures (served == Handled(Addressed(header, payload, client.shm != null, client.ShmBytes()), payload)
        && client.stdin.content == [])
            <==> Deliverable(header, payload, client.shm != null, server.shm != null, client.ShmBytes())
    ensures served.Handled? ==> IsAsSent(served.header, header, payload)
    ensures served.Stopped? <==> "action" in header && header["action"] == Text("shutdown")
    ensures IsReply(served, answer, reply) && (served.Handled? || served.Rejected? ==> client.stdout.content == [])
  {
    hide LineOf, Strip, Addressed, Fetched, Deliverable, IsInline, IsShutdown, IsAsSent;
    ghost var clientMapped, serverMapped, size := client.shm != null, server.shm != null, client.ShmBytes();
    ghost var sent := Addressed(header, payload, clientMapped, size);
    SentLine(client.codec, header, payload, clientMapped, size);
    client.Send(header, payload);
    assert client.stdin.content == client.codec.encode(sent) + [NEWLINE] + Trailer(sent, payload);
    ghost var shm := if server.shm == null then None else Some(server.shm[..]);
    served := ServeSent(server, Addressed(header, payload, client.shm != null, client.ShmBytes()),
        Trailer(sent, payload), answer);
    if IsShutdown(header) {
      ShutdownNotDelivered(header, payload, clientMapped, serverMapped, size);
    } else {
      FetchedIff(header, payload, clientMapped, shm, size, served, client.stdin.content);
    }
    ShutdownIs(header);
    AddressedIsAsSent(header, payload, clientMapped, size);
    HandledIsSent(sent, Trailer(sent, payload), shm, served, client.stdin.content);
    reply := ReceiveOnly(client, ReplyTo(served, answer));
  }

  lemma HandledIsSent(sent: Header, trailer: seq<byte>, shm: Option<seq<byte>>, served: Served, left: seq<byte>)
    ensures Fetched(sent, trailer, shm, served, left) ==>
        !served.Stopped? && (served.Handled? ==> served.header == sent)
  {
  }

  lemma ShutdownIs(header: Header)
    ensures IsShutdown(header) <==> "action" in header && header["action"] == Text("shutdown")
  {
  }

  lemma ShutdownNotDelivered(header: Header, payload: Option<seq<byte>>, clientMapped: bool, serverMapped: bool,
      shmBytes: nat)
    requires IsShutdown(header)
    ensures !Deliverable(header, payload, clientMapped, serverMapped, shmBytes)
  {
  }

  // ----- Any number of exchanges

  /** For every sequence of deliverable requests, whatever bytes they carry and whatever the handler
      does: the handler is given exactly the requests sent, in order; each gets its own reply; and
      both pipes are empty in between. */
  method ExchangeAll(client: Client, server: Server, requests: seq<(Header, Option<seq<byte>>)>,
      answers: seq<Answer>) returns (handled: seq<Served>, replies: seq<Result<Header, string>>)
    requires Connected(client, server) && client.stdin.content == [] && client.stdout.content == []
    requires |answers| == |requests|
    requires forall k :: 0 <= k < |requests| ==>
      Deliverable(requests[k].0, requests[k].1, client.shm != null, server.shm != null, client.ShmBytes())
    modifies client.stdin, client.stdout, if client.shm == null then {} else {client.shm}
    ensures |handled| == |replies| == |requests|
    ensures forall k :: 0 <= k < |requests| ==>
      && handled[k] == Handled(Addressed(requests[k].0, requests[k].1, client.shm != null, client.ShmBytes()),
          requests[k].1)
      && IsAsSent(handled[k].header, requests[k].0, requests[k].1) && IsReply(handled[k], answers[k], replies[k])
    ensures client.stdin.content == [] && client.stdout.content == []
  {
    handled, replies := [], [];
    for k := 0 to |requests|
      invariant |handled| == |replies| == k
      invariant client.stdin.content == [] && client.stdout.content == []
      invariant forall q :: 0 <= q < k ==>
        && handled[q] == Handled(Addressed(requests[q].0, requests[q].1, client.shm != null, client.ShmBytes()),
            requests[q].1)
        && IsAsSent(handled[q].header, requests[q].0, requests[q].1) && IsReply(handled[q], answers[q], replies[q])
    {
      var served, reply := Exchange(client, server, requests[k].0, requests[k].1, answers[k]);
      handled, replies := handled + [served], replies + [reply];
    }
  }

  /** Which buffers are mapped decides, for all requests at once, whether they are deliverable. */
  lemma MappingDelivers(clientMapped: bool, serverMapped: bool, shmBytes: nat)
    ensures (forall header: Header, payload: Option<seq<byte>> ::
              IsRequest(header, payload) ==> Deliverable(header, payload, clientMapped, serverMapped, shmBytes))
            <==> (clientMapped ==> serverMapped || shmBytes == 0)
  {
    if clientMapped && !serverMapped && shmBytes > 0 {
      assert !Deliverable(map[], Some([NEWLINE]), clientMapped, serverMapped, shmBytes);
    }
  }

  /** Not the shutdown message, and with a length only if there is a payload to count. */
  predicate IsRequest(header: Header, payload: Option<seq<byte>>) {
    !IsShutdown(header) && (payload.None? ==> "n" !in header)
  }

  /** When both ends agree on the buffer, every sequence of requests is delivered. */
  method ExchangeAgreed(client: Client, server: Server, requests: seq<(Header, Option<seq<byte>>)>,
      answers: seq<Answer>) returns (handled: seq<Served>, replies: seq<Result<Header, string>>)
    requires Connected(client, server) && client.stdin.content == [] && client.stdout.content == []
    requires client.shm != null ==> server.shm != null || client.ShmBytes() == 0
    requires |answers| == |requests| && forall k :: 0 <= k < |requests| ==> IsRequest(requests[k].0, requests[k].1)
    modifies client.stdin, client.stdout, if client.shm == null then {} else {client.shm}
    ensures |handled| == |replies| == |requests|
    ensures forall k :: 0 <= k < |requests| ==>
      && handled[k] == Handled(Addressed(requests[k].0, requests[k].1, client.shm != null, client.ShmBytes()),
          requests[k].1)
      && IsAsSent(handled[k].header, requests[k].0, requests[k].1) && IsReply(handled[k], answers[k], replies[k])
    ensures client.stdin.content == [] && client.stdout.content == []
  {
    hide Addressed, IsRequest, Deliverable, IsAsSent, IsReply;
    MappingDelivers(client.shm != null, server.shm != null, client.ShmBytes());
    handled, replies := ExchangeAll(client, server, requests, answers);
  }

  /** When they do not, a payload of one byte is not delivered. */
  method ExchangeDisagreed(client: Client, server: Server, answer: Answer)
    returns (served: Served, reply: Result<Header, string>)
    requires Connected(client, server) && client.stdin.content == [] && client.stdout.content == []
    requires client.shm != null && server.shm == null && client.ShmBytes() > 0
    modifies client.stdin, client.stdout, client.shm
    ensures served != Handled(Addressed(map[], Some([NEWLINE]), true, client.ShmBytes()), Some([NEWLINE]))
        || client.stdin.content != []
  {
    served, reply := Exchange(client, server, map[], Some([NEWLINE]), answer);
  }

  // ----- Lengths

  function DigitOf(n: nat): char
    requires n < 10
  {
    ('0' as int + n) as char
  }

  /** How json.dumps and str() print a natural number. */
  function Decimal(n: nat): string {
    if n < 10 then [DigitOf(n)] else Decimal(n / 10) + [DigitOf(n % 10)]
  }

  lemma {:induction false} DigitsOfDecimal(n: nat)
    ensures Decimal(n) != "" && Digits(Decimal(n)) == Some(n)
    ensures '0' <= Decimal(n)[0] <= '9' && '0' <= Decimal(n)[|Decimal(n)| - 1] <= '9'
  {
    if n >= 10 {
      DigitsOfDecimal(n / 10);
      var t := Decimal(n);
      assert t[..|t| - 1] == Decimal(n / 10);
    }
  }

  lemma NothingTrimmed(t: string)
    requires t != "" && !IsBlank(t[0]) && !IsBlank(t[|t| - 1])
    ensures TrimRight(TrimLeft(t)) == t
  {
  }

  /** A length sent as printed text means the same length as the number. */
  lemma PrintedLength(n: nat)
    ensures IntOf(Text(Decimal(n))) == IntOf(Num(n)) && IntOf(Text(['-'] + Decimal(n))) == IntOf(Num(0 - n))
  {
    hide Digits, Decimal, TrimLeft, TrimRight;
    DigitsOfDecimal(n);
    var t := Decimal(n);
    NothingTrimmed(t);
    var negative := ['-'] + t;
    NothingTrimmed(negative);
    assert negative[1..] == t;
  }
}
