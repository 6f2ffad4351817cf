/**
 * The UDP backend: its endpoint (`host`, `port`), its dialect
 * (`implementation`), the lazily created socket it caches, and the send
 * path of collect_metric with its two gates. The operating system's UDP
 * socket is modelled as an object that records the endpoint it was
 * connected to; what a send reports is an input.
 */
module Backends {
  import opened Wrappers
  import opened Text
  import opened Policy
  import opened Encoder

  /** The server used when none is given: "localhost:8125". */
  const DefaultHost: string := "localhost"
  const DefaultPort: nat := 8125
  const DefaultServer: string := DefaultHost + ":" + Decimal(DefaultPort)

  /** `server=`: host is the text before the first ':', port its remainder read by to_i (0 without one). */
  function ParseServer(connection: string): (endpoint: (Option<string>, int))
    ensures connection == [] ==> endpoint == (None, 0)
    ensures connection != [] && ':' !in connection ==> endpoint == (Some(connection), 0)
    ensures ':' in connection ==>
              var i := IndexOf(connection, ':');
              endpoint == (Some(connection[..i]), ToI(connection[i + 1..]))
  {
    var parts := SplitOnce(connection, ':');
    (if |parts| >= 1 then Some(parts[0]) else None, if |parts| == 2 then ToI(parts[1]) else 0)
  }

  /** A connection string written from a host without ':' and a port number is read back as that endpoint. */
  lemma ServerRoundTrip(host: string, port: nat)
    requires ':' !in host
    ensures ParseServer(host + ":" + Decimal(port)) == (Some(host), port)
  {
    ServerPort(host, Decimal(port));
    ToIDecimal(port);
  }

  /** Whatever follows the first ':' is the port text. */
  lemma ServerPort(host: string, portText: string)
    requires ':' !in host
    ensures ParseServer(host + ":" + portText) == (Some(host), ToI(portText))
  {
    var s := host + ":" + portText;
    assert s[|host|] == ':' && s[..|host|] == host;
    IndexOfUnique(s, ':', |host|);
    assert s[|host| + 1..] == portText;
  }

  /**
   * A port is read as far as it is a number: "host:80:90" and "host:80x"
   * have port 80, and a port text that does not start like a number
   * ("host:http", "host:") gives port 0.
   */
  lemma PortPrefix(host: string, port: nat, rest: string, junk: string)
    requires ':' !in host && StopsNumber(rest)
    requires junk == [] || (!IsDigit(junk[0]) && !IsSpace(junk[0]) && junk[0] != '+' && junk[0] != '-')
    ensures ParseServer(host + ":" + Decimal(port) + rest) == (Some(host), port)
    ensures ParseServer(host + ":" + junk) == (Some(host), 0)
  {
    assert host + ":" + Decimal(port) + rest == host + ":" + (Decimal(port) + rest);
    ServerPort(host, Decimal(port) + rest);
    ToIDecimalThen(port, rest);
    ServerPort(host, junk);
    ToINonNumeric(junk);
  }

  /** The default server is the text "localhost:8125". */
  lemma DefaultServerText()
    ensures DefaultServer == "localhost:8125"
  {
    assert Decimal(8) == "8";
    assert Decimal(81) == "81";
    assert Decimal(812) == "812";
    assert Decimal(8125) == "8125";
  }

  /** The default server is read as localhost, port 8125. */
  lemma DefaultEndpoint()
    ensures ParseServer(DefaultServer) == (Some(DefaultHost), DefaultPort as int)
    ensures DefaultHost == "localhost" && DefaultPort == 8125
  {
    ServerRoundTrip(DefaultHost, DefaultPort);
  }

  /** What collect_metric does with a metric: refuse it, sample it out, or write this packet. */
  datatype Decision = Unsupported | SampledOut | Write(packet: string)

  /**
   * The send path's decision, for the random draw `r` that `rand` returned:
   * refusal depends on the type alone, sampling drops only metrics below
   * full rate, and what is written is the packet.
   */
  function Decide(m: Metric, impl: Implementation, r: real): (d: Decision)
    ensures d == Unsupported <==> !Supports(m.mtype, impl)
    ensures d == SampledOut ==> m.sampleRate < 1.0 && r > m.sampleRate
    ensures d.Write? ==> d.packet == Packet(m, impl) && (m.sampleRate >= 1.0 || r <= m.sampleRate)
  {
    if !Supports(m.mtype, impl) then Unsupported
    else if m.sampleRate < 1.0 && r > m.sampleRate then SampledOut
    else Write(Packet(m, impl))
  }

  /** The type check comes first: an unsupported metric is refused whatever the draw. */
  lemma UnsupportedWhateverTheDraw(m: Metric, impl: Implementation, r: real, r': real)
    requires !Supports(m.mtype, impl)
    ensures Decide(m, impl, r) == Decide(m, impl, r') == Unsupported
  {
  }

  /** A supported metric is dropped exactly when its rate is below 1 and the draw exceeds it. */
  lemma SampledOutExactly(m: Metric, impl: Implementation, r: real)
    requires Supports(m.mtype, impl)
    ensures Decide(m, impl, r) == SampledOut <==> m.sampleRate < 1.0 && r > m.sampleRate
    ensures Decide(m, impl, r) != SampledOut ==> Decide(m, impl, r) == Write(Packet(m, impl))
  {
  }

  /** A metric with rate 1 or more is never dropped by sampling. */
  lemma FullRateNeverSampledOut(m: Metric, impl: Implementation, r: real)
    requires m.sampleRate >= 1.0
    ensures Decide(m, impl, r) != SampledOut
  {
  }

  /** Dropping is monotone in the draw: a larger draw drops whatever a smaller one drops. */
  lemma SamplingMonotone(m: Metric, impl: Implementation, r: real, r': real)
    requires r <= r'
    ensures Decide(m, impl, r) == SampledOut ==> Decide(m, impl, r') == SampledOut
    ensures Decide(m, impl, r') == Write(Packet(m, impl)) ==> Decide(m, impl, r) == Write(Packet(m, impl))
  {
  }

  /** A histogram under Statsd is never written, whatever its rate and whatever the draw. */
  lemma HistogramUnderStatsd(m: Metric, r: real)
    requires m.mtype == Histogram
    ensures Decide(m, Statsd, r) == Unsupported
  {
  }

  /** An entry the backend hands to StatsD.logger. */
  datatype LogEntry =
    | TypeNotSupported(mtype: MetricType, impl: Implementation)  // warn, collect_metric
    | TagsNotSupported                                             // warn, generate_packet
    | SendFailed                                                   // error, write_packet

  /**
   * What `socket.send(command, 0)` did: it reported a number of bytes, or it
   * raised a network error (SocketError, IOError, SystemCallError), in which
   * case write_packet returns what the logger's `error` call returned.
   */
  datatype SendOutcome = Sent(bytes: int) | Raised(loggerResult: bool)

  /** write_packet's result for a given outcome of the send. */
  function SendResult(outcome: SendOutcome): bool {
    match outcome
    case Sent(bytes) => bytes > 0
    case Raised(loggerResult) => loggerResult
  }

  function SendLog(outcome: SendOutcome): seq<LogEntry> {
    if outcome.Raised? then [SendFailed] else []
  }

  /** The warning generate_packet logs for tags the implementation cannot carry. */
  function TagsLog(m: Metric, impl: Implementation): seq<LogEntry> {
    if TagsDropped(m, impl) then [TagsNotSupported] else []
  }

  /** A datagram handed to a socket: the endpoint that socket was connected to, and the payload. */
  datatype Datagram = Datagram(host: Option<string>, port: int, payload: string)

  /** `UDPSocket.new` followed by `connect(host, port)`: a fresh handle bound to that endpoint. */
  class UdpSocket {
    const host: Option<string>
    const port: int

    constructor (host: Option<string>, port: int)
      ensures this.host == host && this.port == port
    {
      this.host := host;
      this.port := port;
    }
  }

  class UdpBackend {
    var host: Option<string>
    var port: int
    var implementation: Implementation
    /** `@socket`: null until the first send after a change of endpoint. */
    var socket: UdpSocket?
    /** What the backend has handed to the logger, oldest first. */
    ghost var log: seq<LogEntry>
    /** Every datagram handed to `send`, oldest first. */
    ghost var sent: seq<Datagram>

    /** A cached socket is always connected to the current endpoint. */
    ghost predicate Valid()
      reads this
    {
      socket != null ==> socket.host == host && socket.port == port
    }

    /**
     * `initialize(server = nil, implementation = nil)`: the endpoint is
     * parsed from `server`; without one it is the endpoint DefaultServer
     * parses to (DefaultEndpoint), localhost port 8125.
     */
    constructor (server: Option<string>, impl: Option<Implementation>)
      ensures Valid() && socket == null
      ensures server.Some? ==> (host, port) == ParseServer(server.value)
      ensures server.None? ==> (host, port) == (Some(DefaultHost), DefaultPort as int)
      ensures implementation == impl.GetOr(DefaultImplementation)
      ensures log == [] && sent == []
    {
      log, sent := [], [];
      new;
      if server.Some? {
        SetServer(server.value);
      } else {
        SetHost(Some(DefaultHost));
        SetPort(DefaultPort);
      }
      implementation := impl.GetOr(DefaultImplementation);
    }

    /** `server=`: parse "host:port" and drop the cached socket. */
    method SetServer(connection: string)
      modifies this`host, this`port, this`socket
      ensures Valid() && socket == null
      ensures (host, port) == ParseServer(connection)
    {
      var parts := SplitOnce(connection, ':');
      SetHost(if |parts| >= 1 then Some(parts[0]) else None);
      var portText := if |parts| == 2 then Some(parts[1]) else None;
      SetPort(if portText.Some? then ToI(portText.value) else 0);
      InvalidateSocket();
    }

    /** `host=`: a new host drops the cached socket. */
    method SetHost(h: Option<string>)
      modifies this`host, this`socket
      ensures Valid() && host == h && socket == null
    {
      host := h;
      InvalidateSocket();
    }

    /** `port=`: a new port drops the cached socket. */
    method SetPort(p: int)
      modifies this`port, this`socket
      ensures Valid() && port == p && socket == null
    {
      port := p;
      InvalidateSocket();
    }

    /** `implementation=`: the dialect changes, the socket stays. */
    method SetImplementation(impl: Implementation)
      requires Valid()
      modifies this`implementation
      ensures Valid() && implementation == impl
    {
      implementation := impl;
    }

    /** `invalidate_socket`. */
    method InvalidateSocket()
      modifies this`socket
      ensures Valid() && socket == null
    {
      socket := null;
    }

    /**
     * `socket`: the cached handle, or a fresh one connected to the current
     * endpoint when there is none; either way it is cached afterwards.
     */
    method Socket() returns (s: UdpSocket)
      requires Valid()
      modifies this`socket
      ensures Valid() && socket == s
      ensures s.host == host && s.port == port
      ensures old(socket) != null ==> s == old(socket)
      ensures old(socket) == null ==> fresh(s)
    {
      if socket == null {
        socket := new UdpSocket(host, port);
      }
      s := socket;
    }

    /** `generate_packet`: the wire string, built by appending its parts in order. */
    method GeneratePacket(m: Metric) returns (command: string)
      requires Valid()
      modifies this`log
      ensures Valid()
      ensures command == Packet(m, implementation)
      ensures log == old(log) + TagsLog(m, implementation)
    {
      ghost var body := Body(m.mtype, m.name, m.value, m.metadata);
      command := "";
      if m.mtype == Event {
        var title, text := Escape(m.name), Escape(m.value);
        command := command + EventHead(title, text);
        command := command + Metadata(m.metadata, EventOptions);
        assert command == body;
      } else if m.mtype == ServiceCheck {
        command := command + ("_sc|" + m.name + "|" + m.value);
        command := command + Metadata(m.metadata, ServiceCheckOptions);
        assert command == body;
      } else {
        command := m.name + ":" + m.value + "|" + Token(m.mtype);
        assert command == body;
      }
      ghost var rate := RateSuffix(m.sampleRate, m.sampleRateText, implementation);
      if m.sampleRate < 1.0 || (implementation == Statsite && m.sampleRate > 1.0) {
        command := command + ("|@" + m.sampleRateText);
      }
      assert command == body + rate;
      ghost var tags := TagSuffix(m.tags, implementation);
      if m.tags.Some? {
        if TagsSupported(implementation) {
          command := command + ("|#" + Join(m.tags.value, ","));
        } else {
          log := log + [TagsNotSupported];
        }
      }
      assert command == body + rate + tags;
      if implementation == Statsite {
        command := command + "\n";
      }
      assert command == body + rate + tags + Terminator(implementation);
    }

    /** `write_packet`: send the command through the (possibly new) socket. */
    method WritePacket(command: string, outcome: SendOutcome) returns (result: bool)
      requires Valid()
      modifies this`socket, this`log, this`sent
      ensures Valid() && socket != null
      ensures old(socket) != null ==> socket == old(socket)
      ensures old(socket) == null ==> fresh(socket)
      ensures sent == old(sent) + [Datagram(host, port, command)]
      ensures log == old(log) + SendLog(outcome)
      ensures result == SendResult(outcome)
    {
      var s := Socket();
      sent := sent + [Datagram(s.host, s.port, command)];
      match outcome
      case Sent(bytes) =>
        result := bytes > 0;
      case Raised(loggerResult) =>
        log := log + [SendFailed];
        result := loggerResult;
    }

    /**
     * `collect_metric`, for the draw `r` of `rand` and the outcome of the
     * send: it does what Decide says, and only a written packet touches the
     * socket.
     */
    method CollectMetric(m: Metric, r: real, outcome: SendOutcome) returns (result: bool)
      requires Valid()
      modifies this`socket, this`log, this`sent
      ensures Valid()
      ensures match Decide(m, implementation, r)
        case Unsupported =>
          !result && socket == old(socket) && sent == old(sent)
          && log == old(log) + [TypeNotSupported(m.mtype, implementation)]
        case SampledOut =>
          !result && socket == old(socket) && sent == old(sent) && log == old(log)
        case Write(packet) =>
          result == SendResult(outcome) && socket != null
          && (old(socket) != null ==> socket == old(socket))
          && (old(socket) == null ==> fresh(socket))
          && sent == old(sent) + [Datagram(host, port, packet)]
          && log == old(log) + TagsLog(m, implementation) + SendLog(outcome)
    {
      if !Supports(m.mtype, implementation) {
        log := log + [TypeNotSupported(m.mtype, implementation)];
        return false;
      }
      if m.sampleRate < 1.0 && r > m.sampleRate {
        return false;
      }
      var command := GeneratePacket(m);
      result := WritePacket(command, outcome);
    }
  }
}
