/** The framed protocol between a service container and its Python 3.12 worker: the client half
    (shard_wire.Py312Worker.request) and the serving half (worker_io.serve, _read_exact). */
module Wire {
  import opened Wrappers

  type byte = b: int | 0 <= b < 256

  const NEWLINE: byte := 10

  /** mantissa times ten to the exponent. */
  datatype Scaled = Scaled(mantissa: int, exponent: int)

  /** A decimal fraction in its one form without trailing zeros. */
  type Fraction = d: Scaled | d.mantissa % 10 != 0 || d == Scaled(0, 0) witness Scaled(0, 0)

  /** A JSON value; a number with a fraction or an exponent is a Real, of finitely many digits. */
  datatype Json =
    | Null
    | Num(number: int)
    | Real(value: Fraction)
    | Flag(flag: bool)
    | Text(text: string)
    | List(items: seq<Json>)
    | Object(fields: map<string, Json>)

  type Header = map<string, Json>

  /** json.dumps and json.loads as the protocol uses them. */
  datatype Codec = Codec(encode: Header -> seq<byte>, decode: seq<byte> -> Option<Header>) {
    /** One line per object: no newline, no white space at either end, and decoding inverts encoding. */
    ghost predicate Valid() {
      forall h: Header :: var line := encode(h);
        && NEWLINE !in line && line != [] && !IsSpace(line[0]) && !IsSpace(line[|line| - 1])
        && decode(line) == Some(h)
    }
  }

  predicate IsSpace(b: byte) {
    b == 32 || 9 <= b <= 13
  }

  function StripLeft(s: seq<byte>): seq<byte> {
    if s != [] && IsSpace(s[0]) then StripLeft(s[1..]) else s
  }

  function StripRight(s: seq<byte>): seq<byte> {
    if s != [] && IsSpace(s[|s| - 1]) then StripRight(s[..|s| - 1]) else s
  }

  function Strip(s: seq<byte>): seq<byte> {
    StripRight(StripLeft(s))
  }

  /** Up to and including the first newline, or everything. */
  function LineOf(s: seq<byte>): (line: seq<byte>)
    ensures line <= s
  {
    if s == [] then []
    else if s[0] == NEWLINE then [NEWLINE]
    else [s[0]] + LineOf(s[1..])
  }

  predicate Truthy(value: Json) {
    match value
    case Null => false
    case Num(n) => n != 0
    case Real(d) => d.mantissa != 0
    case Flag(b) => b
    case Text(t) => t != ""
    case List(items) => items != []
    case Object(fields) => fields != map[]
  }

  // ----- int(), as the worker applies it to a request's length

  predicate IsBlank(c: char) {
    '\t' <= c <= '\r' || '\U{1c}' <= c <= ' '
  }

  function TrimLeft(t: string): string {
    if t != "" && IsBlank(t[0]) then TrimLeft(t[1..]) else t
  }

  function TrimRight(t: string): string {
    if t != "" && IsBlank(t[|t| - 1]) then TrimRight(t[..|t| - 1]) else t
  }

  /** Decimal digits, with single underscores allowed between two of them. */
  function Digits(t: string): Option<nat> {
    if t == "" || !('0' <= t[|t| - 1] <= '9') then None
    else
      var digit := t[|t| - 1] as int - '0' as int;
      var rest := t[..|t| - 1];
      if rest == "" then Some(digit)
      else
        match Digits(if rest[|rest| - 1] == '_' then rest[..|rest| - 1] else rest)
        case None => None
        case Some(n) => Some(10 * n + digit)
  }

  function Signed(sign: int, magnitude: Option<nat>): Option<int> {
    match magnitude
    case None => None
    case Some(n) => Some(sign * n)
  }

  /** Digits after an optional sign, between any blanks. */
  function IntOfText(t: string): Option<int> {
    var body := TrimRight(TrimLeft(t));
    if body != "" && body[0] == '-' then
      Signed(-1, Digits(body[1..]))
    else
      Signed(1, Digits(if body != "" && body[0] == '+' then body[1..] else body))
  }

  function Pow10(n: nat): (p: nat)
    ensures p > 0
  {
    if n == 0 then 1 else 10 * Pow10(n - 1)
  }

  /** The integer part. */
  function Truncated(d: Fraction): int {
    if d.exponent >= 0 then d.mantissa * Pow10(d.exponent)
    else if d.mantissa >= 0 then d.mantissa / Pow10(-d.exponent)
    else -(-d.mantissa / Pow10(-d.exponent))
  }

  /** Truncation is toward zero and loses less than one. */
  lemma TruncatedTowardZero(d: Fraction)
    requires d.exponent < 0
    ensures var p := Pow10(-d.exponent);
            if d.mantissa >= 0 then 0 <= Truncated(d) * p <= d.mantissa < Truncated(d) * p + p
            else Truncated(d) * p - p < d.mantissa <= Truncated(d) * p <= 0
  {
    var p := Pow10(-d.exponent);
    var size := if d.mantissa >= 0 then d.mantissa else -d.mantissa;
    QuotientBounds(size, p);
    assert (-(size / p)) * p == -((size / p) * p);
  }

  lemma QuotientBounds(n: nat, p: nat)
    requires p > 0
    ensures 0 <= (n / p) * p <= n < (n / p) * p + p
  {
  }

  /** Numbers are truncated toward zero, flags count as 0 and 1, and text is parsed; nothing else has
      an integer value. */
  function IntOf(value: Json): Option<int> {
    match value
    case Num(n) => Some(n)
    case Real(d) => Some(Truncated(d))
    case Flag(b) => Some(if b then 1 else 0)
    case Text(t) => IntOfText(t)
    case Null | List(_) | Object(_) => None
  }

  /** The payload length a request names, if it names one that has an integer value. */
  function Length(request: Header): Option<int> {
    if "n" in request then IntOf(request["n"]) else None
  }

  predicate IsInline(h: Header) {
    "inline" in h && Truthy(h["inline"])
  }

  predicate IsShutdown(h: Header) {
    "action" in h && h["action"] == Text("shutdown")
  }

  // ----- Pipes

  /** A one-way byte pipe.  A read may return any non-empty part of what was asked for. */
  class Pipe {
    var content: seq<byte>

    constructor ()
      ensures content == []
    {
      content := [];
    }

    method Write(bytes: seq<byte>)
      modifies this
      ensures content == old(content) + bytes
    {
      content := content + bytes;
    }

    method Read(n: nat) returns (block: seq<byte>)
      requires n > 0
      modifies this
      ensures block + content == old(content) && |block| <= n
      ensures block == [] <==> old(content) == []
    {
      if content == [] {
        return [];
      }
      var size :| 0 < size <= n && size <= |content|;
      block, content := content[..size], content[size..];
    }

    method ReadLine() returns (line: seq<byte>)
      modifies this
      ensures line == LineOf(old(content)) && line + content == old(content)
    {
      line := LineOf(content);
      content := content[|line|..];
    }
  }

  /** Collects exactly n bytes however the pipe splits them, or fails once the pipe has ended. */
  method ReadExact(stream: Pipe, n: int) returns (r: Result<seq<byte>, string>)
    modifies stream
    ensures r.Success? <==> n <= |old(stream.content)|
    ensures r.Success? ==> r.value + stream.content == old(stream.content) && |r.value| == if n < 0 then 0 else n
    ensures r.Failure? ==> stream.content == []
  {
    var chunks: seq<byte>, got := [], 0;
    while got < n
      invariant got == |chunks| && (got <= n || got == 0)
      invariant chunks + stream.content == old(stream.content)
      decreases n - got
    {
      var block := stream.Read(n - got);
      if block == [] {
        return Failure("stdin closed");
      }
      chunks := chunks + block;
      got := got + |block|;
    }
    return Success(chunks);
  }

  // ----- The client half

  /** The header as it goes over the wire. */
  function Addressed(header: Header, payload: Option<seq<byte>>, mapped: bool, shmBytes: nat): Header {
    match payload
    case None => header
    case Some(bytes) =>
      var sized := header["n" := Num(|bytes|)];
      if !mapped || |bytes| > shmBytes then sized["inline" := Flag(true)] else sized
  }

  class Client {
    const codec: Codec
    const stdin: Pipe
    const stdout: Pipe
    const shm: array?<byte>

    constructor (codec: Codec, stdin: Pipe, stdout: Pipe, shm: array?<byte>)
      ensures this.codec == codec && this.stdin == stdin && this.stdout == stdout && this.shm == shm
    {
      this.codec, this.stdin, this.stdout, this.shm := codec, stdin, stdout, shm;
    }

    function ShmBytes(): nat {
      if shm == null then 0 else shm.Length
    }

    /** The first half of a request: header line, payload in the shared buffer or after the header. */
    method Send(header: Header, payload: Option<seq<byte>>)
      requires stdin != stdout
      modifies stdin, if shm == null then {} else {shm}
      ensures var sent := Addressed(header, payload, shm != null, ShmBytes());
              && stdin.content == old(stdin.content) + codec.encode(sent) + [NEWLINE]
                                  + (if payload.Some? && IsInline(sent) then payload.value else [])
              && (payload.Some? && shm != null && |payload.value| <= shm.Length ==>
                    shm[..|payload.value|] == payload.value && shm[|payload.value|..] == old(shm[|payload.value|..]))
    {
      var sent := header;
      if payload.Some? {
        var bytes := payload.value;
        sent := sent["n" := Num(|bytes|)];
        if shm == null || |bytes| > shm.Length {
          sent := sent["inline" := Flag(true)];
        } else {
          forall k | 0 <= k < |bytes| {
            shm[k] := bytes[k];
          }
        }
      }
      stdin.Write(codec.encode(sent) + [NEWLINE]);
      if payload.Some? && IsInline(sent) {
        stdin.Write(payload.value);
      }
      assert codec.encode(sent) + [NEWLINE] + [] == codec.encode(sent) + [NEWLINE];
    }

    /** The second half: the reply line, parsed. */
    method Receive() returns (r: Result<Header, string>)
      modifies stdout
      ensures var line := LineOf(old(stdout.content));
              && line + stdout.content == old(stdout.content)
              && r == (if line == [] then Failure("worker died mid-invoke") else Parsed(codec, line))
    {
      var line := stdout.ReadLine();
      if line == [] {
        return Failure("worker died mid-invoke");
      }
      return Parsed(codec, line);
    }
  }

  /** json.loads of a line without its newline. */
  function Parsed(codec: Codec, line: seq<byte>): Result<Header, string> {
    var body := if line != [] && line[|line| - 1] == NEWLINE then line[..|line| - 1] else line;
    match codec.decode(body)
    case Some(h) => Success(h)
    case None => Failure("not JSON")
  }

  // ----- The serving half

  /** What the handler does with the request it is given. */
  datatype Answer = Reply(response: Header) | Raise(message: string)

  function Response(answer: Answer): Header {
    match answer
    case Reply(response) => response
    case Raise(message) => map["error" := Text(message)]
  }

  /** Bytes 0 to n of the shared buffer, as Python slices them. */
  function Slice(buffer: seq<byte>, n: int): seq<byte> {
    var end := if n < 0 then |buffer| + n else n;
    buffer[..if end < 0 then 0 else if end > |buffer| then |buffer| else end]
  }

  datatype Served = Closed | Blank | Stopped | Handled(header: Header, payload: Option<seq<byte>>)
    | Rejected(reason: string)

  class Server {
    const codec: Codec
    const stdin: Pipe
    const stdout: Pipe
    const shm: array?<byte>

    constructor (codec: Codec, stdin: Pipe, stdout: Pipe, shm: array?<byte>)
      ensures this.codec == codec && this.stdin == stdin && this.stdout == stdout && this.shm == shm
    {
      this.codec, this.stdin, this.stdout, this.shm := codec, stdin, stdout, shm;
    }

    /** The payload a request names, read from the pipe or the shared buffer. */
    method Payload(request: Header) returns (r: Result<Option<seq<byte>>, string>)
      modifies stdin
      ensures "n" !in request ==> r == Success(None) && stdin.content == old(stdin.content)
      ensures "n" in request && r.Success? ==> r.value.Some?
      ensures "n" in request && Length(request).None? ==> r.Failure? && stdin.content == old(stdin.content)
      ensures Length(request).Some? && (IsInline(request) || shm == null) ==>
                var n := Length(request).value;
                && (r.Success? <==> n <= |old(stdin.content)|)
                && (r.Success? ==>
                      r.value.value + stdin.content == old(stdin.content) && |r.value.value| == if n < 0 then 0 else n)
      ensures Length(request).Some? && !IsInline(request) && shm != null ==>
                r == Success(Some(Slice(shm[..], Length(request).value))) && stdin.content == old(stdin.content)
    {
      if "n" !in request {
        return Success(None);
      }
      var length := IntOf(request["n"]);
      if length.None? {
        return Failure("n has no integer value");
      }
      var n := length.value;
      if IsInline(request) || shm == null {
        var bytes := ReadExact(stdin, n);
        return if bytes.Success? then Success(Some(bytes.value)) else Failure(bytes.error);
      }
      return Success(Some(Slice(shm[..], n)));
    }

    /** One turn of the serving loop; `answer` is what the handler does if it is called. */
    method ServeOne(answer: Answer) returns (served: Served)
      requires stdin != stdout
      modifies stdin, stdout
      ensures var line := LineOf(old(stdin.content)); var body := Strip(line);
              && (served.Closed? <==> line == [])
              && (served.Blank? <==> line != [] && body == [])
              && (served.Stopped? <==> body != [] && codec.decode(body).Some? && IsShutdown(codec.decode(body).value))
              && (served.Closed? || served.Blank? || served.Stopped? ==>
                    stdout.content == old(stdout.content) && line + stdin.content == old(stdin.content))
              && (served.Handled? && answer.Reply? ==>
                    stdout.content == old(stdout.content) + codec.encode(answer.response) + [NEWLINE])
              && (served.Handled? && answer.Raise? ==>
                    stdout.content
                    == old(stdout.content) + codec.encode(map["error" := Text(answer.message)]) + [NEWLINE])
              && (served.Rejected? ==>
                    stdout.content
                    == old(stdout.content) + codec.encode(map["error" := Text(served.reason)]) + [NEWLINE])
              && (body != [] && codec.decode(body).None? ==>
                    served.Rejected? && line + stdin.content == old(stdin.content))
              && (body != [] && codec.decode(body).Some? && !IsShutdown(codec.decode(body).value) ==>
                    Fetched(codec.decode(body).value, old(stdin.content)[|line|..], if shm == null then None
                        else Some(old(shm[..])), served, stdin.content))
    {
      var line := stdin.ReadLine();
      if line == [] {
        return Closed;
      }
      line := Strip(line);
      if line == [] {
        return Blank;
      }
      var request := codec.decode(line);
      if request.None? {
        stdout.Write(codec.encode(Response(Raise("not JSON"))) + [NEWLINE]);
        return Rejected("not JSON");
      }
      if IsShutdown(request.value) {
        return Stopped;
      }
      var payload := Payload(request.value);
      if payload.Failure? {
        stdout.Write(codec.encode(Response(Raise(payload.error))) + [NEWLINE]);
        return Rejected(payload.error);
      }
      stdout.Write(codec.encode(Response(answer)) + [NEWLINE]);
      return Handled(request.value, payload.value);
    }
  }

  /** What the handler is given for a request, and what is left in the pipe afterwards. */
  ghost predicate Fetched(request: Header, rest: seq<byte>, shm: Option<seq<byte>>, served: Served, left: seq<byte>) {
    && (served.Handled? || served.Rejected?)
    && (served.Handled? ==> served.header == request)
    && ("n" !in request ==> served == Handled(request, None) && left == rest)
    && ("n" in request && served.Handled? ==> served.payload.Some?)
    && ("n" in request && Length(request).None? ==> served.Rejected? && left == rest)
    && (Length(request).Some? ==>
          var n := Length(request).value;
          if IsInline(request) || shm.None? then
            && (served.Handled? <==> n <= |rest|)
            && (served.Handled? ==> served.payload.value + left == rest && |served.payload.value| == if n < 0 then 0
                else n)
          else served == Handled(request, Some(Slice(shm.value, n))) && left == rest)
  }
}
