# UDP StatsD backend, modelled in Dafny

This project models the UDP backend of the `statsd-instrument` Ruby library
(`StatsD::Instrument::Backends::UDPBackend`). The backend turns one metric
into one StatsD datagram and sends it over UDP, using one of three wire
dialects (`implementation`): `:statsd` (the default), `:datadog` (tags,
histograms, events and service checks) and `:statsite` (key-value metrics and
newline-terminated packets).

The model has five modules:

- `Wrappers` (`wrappers.dfy`): `Option`, standing for Ruby's `nil`.
- `Text` (`text.dfy`): the parts of Ruby's core library that the backend's
  output depends on. These are Integer#to_s (`Decimal`), String#to_i (`ToI`),
  `split(':', 2)` (`SplitOnce`), Array#join (`Join`) and String#tr with
  literal tables of distinct characters (`Translate`). Each comes with its
  round trip or its defining property.
- `Policy` (`policy.dfy`): the dialects and metric types, the support checks
  (`implementation_supports_metric_type?`, `tags_supported?`), and the
  `EVENT_OPTIONS` and `SERVICE_CHECK_OPTIONS` tables.
- `Encoder` (`encoder.dfy`): the metric as the backend reads it. It defines
  `generate_metadata` (`Metadata`, built on Ruby's `Array#&` as `Intersect`)
  and the wire string of `generate_packet` (`Packet`). The lemmas relate
  packets to each other; for example, they say which inputs reach the wire
  under which dialect.
- `Backends` (`udp_backend.dfy`): a class `UdpBackend` with the fields
  `host`, `port`, `implementation` and the cached `socket`.
  - Its methods are the setters, `socket`, `invalidate_socket`,
    `generate_packet`, `write_packet` and `collect_metric`.
  - `generate_packet` is a method that appends the packet's parts in order, proved equal to `Packet`.
  - The object invariant `Valid()` says that a cached socket is always connected to the current endpoint.
  - The pure function `Decide` gives the send path's decision, and lemmas about it cover gate order and sampling.
  - The default server `DefaultServer` is built from `DefaultHost` and `DefaultPort`; `DefaultServerText` proves it is the text "localhost:8125".

Inputs the model takes as parameters:

- the random draw of `rand` is the parameter `r`;
- what `socket.send` reported is the parameter `outcome`; it is either a
  byte count, or a raised network error together with the value the
  logger's `error` call returned;
- the logger is a ghost trace `log` of entries;
- the datagrams handed to `send` are a ghost trace `sent`, each stamped with
  the endpoint of the socket it went through.

Three behaviours of the code are easy to misread and are modelled as written:

- **Event escaping.** `tr('\n', '\\n')` on lines 84-85 has single-quoted
  arguments, so both tables are the two characters backslash and `n`, and
  the call is the identity. Newlines in the event title and text stay raw.
  `Escape` is that call, and `TranslateSameTable` proves it changes nothing.
  So the header lengths are those of the title and text as given
  (`EventHeader`), and `EventExample` shows an event whose newlines are kept.
- **Gate order.** The type check (lines 35-38) comes before sampling
  (lines 40-42), so an unsupported metric is refused and logged whatever
  the draw.
- **Network errors.** A rescued network error (lines 121-122) returns
  whatever `StatsD.logger.error` returns. `SendOutcome.Raised` carries that
  value, and `CollectMetric` returns it.

## Model

| member | source | states |
|---|---|---|
| Policy.SupportsExactly | lib/statsd/instrument/backends/udp_backend.rb:47-55 | `h`, `_e` and `_sc` are supported exactly under Datadog, `kv` exactly under Statsite, and every other type is supported under every implementation |
| Policy.Supports | lib/statsd/instrument/backends/udp_backend.rb:47-55 | the support table read per dialect: Statsd takes exactly c, g, ms, s; Datadog takes everything except kv; Statsite takes exactly c, g, ms, s, kv |
| Policy.TagsSupported | lib/statsd/instrument/backends/udp_backend.rb:108-110 | tags are supported exactly by the dialect that takes histograms, events and service checks, and not by the default dialect |
| Policy.TokenInjective | lib/statsd/instrument/backends/udp_backend.rb:93 | two different metric types never write the same type token |
| Text.Decimal | lib/statsd/instrument/backends/udp_backend.rb:87 | the rendered length is a non-empty string of decimal digits with no leading zero, and is "0" for zero |
| Text.DecimalValue | lib/statsd/instrument/backends/udp_backend.rb:87 | the digits Decimal writes denote the number they were written from |
| Text.ToISign | lib/statsd/instrument/backends/udp_backend.rb:59 | `to_i` makes up no number: a negative result needs a minus sign after the leading white space, and a non-zero result needs a digit in the text |
| Text.ToIDigitsThen | lib/statsd/instrument/backends/udp_backend.rb:59 | a run of digits followed by something that is neither a digit nor an underscore reads as the value of the run |
| Text.ToIDecimal | lib/statsd/instrument/backends/udp_backend.rb:59 | `to_i` reads back an unsigned decimal port: `n.to_s.to_i == n` |
| Text.ToINegative | lib/statsd/instrument/backends/udp_backend.rb:59 | `to_i` reads a minus sign followed by digits as the negative number |
| Text.ToINonNumeric | lib/statsd/instrument/backends/udp_backend.rb:59 | a port text that does not start with white space, a sign or a digit reads as 0 |
| Text.LeadingDigitsStop | lib/statsd/instrument/backends/udp_backend.rb:59 | `to_i` keeps a digit run and stops at the first character that is neither a digit nor an underscore |
| Text.ToIDecimalThen | lib/statsd/instrument/backends/udp_backend.rb:59 | `to_i` reads the leading number and ignores what follows it (`"80:90".to_i == 80`) |
| Text.SplitOnce | lib/statsd/instrument/backends/udp_backend.rb:58 | `split(':', 2)` yields no field for "", the whole string when there is no ':', and otherwise the ':'-free text before the first ':' and the rest |
| Text.Join | lib/statsd/instrument/backends/udp_backend.rb:98 | a single tag is written as it is, without a separator |
| Text.JoinChars | lib/statsd/instrument/backends/udp_backend.rb:98 | the joined tags hold no character that is not in a tag or in the separator |
| Text.SplitJoin | lib/statsd/instrument/backends/udp_backend.rb:98 | comma-joined tags split back into the same tags when no tag contains a comma |
| Text.Translate | lib/statsd/instrument/backends/udp_backend.rb:84-85 | `tr` with equally long literal tables of distinct characters preserves length |
| Text.TranslateSameTable | lib/statsd/instrument/backends/udp_backend.rb:84-85 | `tr` with the same literal table on both sides (as in `tr('\n', '\\n')`, whose tables are backslash and `n`) returns its input unchanged |
| Encoder.Intersect | lib/statsd/instrument/backends/udp_backend.rb:132 | every key of `metadata.keys & options.keys` is a metadata key and a table key |
| Encoder.IntersectSpec | lib/statsd/instrument/backends/udp_backend.rb:132 | `a & b` holds exactly the shared keys, each once, in the order of their first occurrence in the metric's metadata |
| Encoder.Metadata | lib/statsd/instrument/backends/udp_backend.rb:131-135 | a non-empty metadata text opens with a bar, the start of its first segment |
| Encoder.MetadataNothingShared | lib/statsd/instrument/backends/udp_backend.rb:131-135 | the metadata text is empty exactly when no metadata key is in the table |
| Encoder.MetadataSnoc | lib/statsd/instrument/backends/udp_backend.rb:131-135 | one more metadata pair adds its segment (a bar, the table's code, ':', the value) at the end when its key is in the table and new, and nothing otherwise |
| Encoder.MetadataEmpty | lib/statsd/instrument/backends/udp_backend.rb:131-135 | no metadata gives no segments |
| Encoder.ServiceCheckMetadataExample | lib/statsd/instrument/backends/udp_backend.rb:131-135 | segments follow the hash's order (message before hostname), use the table's codes, and skip a key outside the table |
| Encoder.Body | lib/statsd/instrument/backends/udp_backend.rb:81-93 | an event body is the `_e{…}` header of the title and text as given, followed by the event metadata segments |
| Encoder.Packet | lib/statsd/instrument/backends/udp_backend.rb:81-106 | under Statsite the packet is non-empty and ends with a newline (one direction only: a Datadog event whose text ends in a newline also ends with one) |
| Encoder.PacketOutsideStatsite | lib/statsd/instrument/backends/udp_backend.rb:95-105 | outside Statsite the packet is the body, the rate suffix and the tag suffix, with nothing after the tags |
| Encoder.GenericPacket | lib/statsd/instrument/backends/udp_backend.rb:92-105 | a non-event, non-service-check metric with rate 1 and no tags, outside Statsite, is exactly the name, ':', the value, a bar and the type token |
| Encoder.CounterExample | lib/statsd/instrument/backends/udp_backend.rb:92-105 | the counter `a.b` with value 1 under Statsd is exactly `a.b:1`, a bar and `c` |
| Encoder.EventHeader | lib/statsd/instrument/backends/udp_backend.rb:83-88 | under every implementation an event packet starts with `_e{`, the decimal lengths of name and value separated by a comma, `}:`, the name, a bar and the value |
| Encoder.EventExample | lib/statsd/instrument/backends/udp_backend.rb:83-87 | the event "Hi\nThere" / "Body\nText" under Datadog is `_e{8,9}:` followed by the title and text with their newlines kept |
| Encoder.ServiceCheckTable | lib/statsd/instrument/backends/udp_backend.rb:17-21 | `message` and `hostname` are service-check keys with codes `m` and `h` |
| Encoder.ServiceCheckExample | lib/statsd/instrument/backends/udp_backend.rb:89-91 | for any name, status and values, a rate-1 untagged service check with metadata message, foo, hostname is under Datadog exactly `_sc`, the name and the status each after a bar, then a bar, `m:` and the message, then a bar, `h:` and the host; the key outside the table is skipped |
| Encoder.RateTextVisible | lib/statsd/instrument/backends/udp_backend.rb:95 | the rendered rate changes the packet exactly when the rate is below 1, or above 1 under Statsite |
| Encoder.FullRateNotWritten | lib/statsd/instrument/backends/udp_backend.rb:95 | a rate of exactly 1 never reaches the wire, under any implementation |
| Encoder.TagsVisible | lib/statsd/instrument/backends/udp_backend.rb:96-102 | given tags change the packet exactly when the implementation supports tags (Datadog) |
| Encoder.DatadogTagsLast | lib/statsd/instrument/backends/udp_backend.rb:96-98 | under Datadog the tags come last as a bar, `#` and the comma-joined tags, and an empty tag list leaves a bare bar and `#` |
| Encoder.DatadogVersusStatsd | lib/statsd/instrument/backends/udp_backend.rb:95-110 | a Datadog packet is the Statsd packet plus the tag suffix when tags are given |
| Encoder.StatsiteVersusStatsd | lib/statsd/instrument/backends/udp_backend.rb:95-104 | a Statsite packet is the Statsd packet, plus the rate when it is above 1, plus a final newline |
| Backends.ParseServer | lib/statsd/instrument/backends/udp_backend.rb:57-61 | "" gives no host and port 0; a string without ':' is the host, with port 0; otherwise the host is the text before the first ':' and the port is `to_i` of the rest |
| Backends.ServerRoundTrip | lib/statsd/instrument/backends/udp_backend.rb:57-61 | `host:port`, for a host without ':', is read back as that host and port |
| Backends.ServerPort | lib/statsd/instrument/backends/udp_backend.rb:58-59 | everything after the first ':' is the port text, read by `to_i` |
| Backends.PortPrefix | lib/statsd/instrument/backends/udp_backend.rb:58-59 | a port is read as far as it is a number (`host:80:90` gives 80); a port text that does not start like a number gives 0 |
| Backends.DefaultServerText | lib/statsd/instrument/backends/udp_backend.rb:30 | the default server is the text "localhost:8125" |
| Backends.DefaultEndpoint | lib/statsd/instrument/backends/udp_backend.rb:30 | the default server parses to host `DefaultHost` (localhost) and port `DefaultPort` (8125) |
| Backends.Decide | lib/statsd/instrument/backends/udp_backend.rb:34-44 | a metric is refused exactly when its type is unsupported; it is dropped by sampling only below full rate with a draw above the rate; what is written is its packet, and only at full rate or with a draw within the rate |
| Backends.UnsupportedWhateverTheDraw | lib/statsd/instrument/backends/udp_backend.rb:34-38 | an unsupported type is refused whatever the random draw: the type check comes before sampling |
| Backends.SampledOutExactly | lib/statsd/instrument/backends/udp_backend.rb:40-44 | a supported metric is dropped exactly when `rate < 1.0 && r > rate`, and is otherwise written as its packet |
| Backends.FullRateNeverSampledOut | lib/statsd/instrument/backends/udp_backend.rb:40-42 | a metric with rate 1 or more is never dropped by sampling |
| Backends.SamplingMonotone | lib/statsd/instrument/backends/udp_backend.rb:40-42 | a larger draw drops whatever a smaller draw drops |
| Backends.HistogramUnderStatsd | lib/statsd/instrument/backends/udp_backend.rb:35-49 | a histogram under Statsd is refused for every rate and draw |
| Backends.UdpSocket.constructor | lib/statsd/instrument/backends/udp_backend.rb:75-76 | a new socket is connected to the endpoint it was created for |
| Backends.UdpBackend.constructor | lib/statsd/instrument/backends/udp_backend.rb:28-32 | the endpoint is parsed from the given server, and is otherwise `DefaultHost` and `DefaultPort`, which `DefaultEndpoint` proves is what "localhost:8125" parses to; the implementation defaults to Statsd; no socket is cached and the traces are empty |
| Backends.UdpBackend.SetServer | lib/statsd/instrument/backends/udp_backend.rb:57-61 | the endpoint becomes `ParseServer(connection_string)` and the cached socket is dropped |
| Backends.UdpBackend.SetHost | lib/statsd/instrument/backends/udp_backend.rb:63-66 | the host is replaced and the cached socket is dropped |
| Backends.UdpBackend.SetPort | lib/statsd/instrument/backends/udp_backend.rb:68-71 | the port is replaced and the cached socket is dropped |
| Backends.UdpBackend.SetImplementation | lib/statsd/instrument/backends/udp_backend.rb:26 | the implementation is replaced, the cached socket is kept, and the invariant still holds |
| Backends.UdpBackend.InvalidateSocket | lib/statsd/instrument/backends/udp_backend.rb:125-127 | the cached socket is dropped |
| Backends.UdpBackend.Socket | lib/statsd/instrument/backends/udp_backend.rb:73-79 | returns the cached handle unchanged if there is one, and otherwise a fresh handle connected to the current host and port, which is then cached |
| Backends.UdpBackend.GeneratePacket | lib/statsd/instrument/backends/udp_backend.rb:81-106 | appending body, metadata, rate, tags and terminator in order builds exactly `Packet`; it logs a warning exactly when tags are given to an implementation without tag support |
| Backends.UdpBackend.WritePacket | lib/statsd/instrument/backends/udp_backend.rb:112-123 | the command goes out through the cached socket if there is one, and otherwise through a newly created socket bound to the current endpoint; the result is `bytes > 0`, or the logger's return value after a logged network error |
| Backends.UdpBackend.CollectMetric | lib/statsd/instrument/backends/udp_backend.rb:34-45 | an unsupported type logs a warning and returns false, with no packet and no socket; a sampled-out metric returns false silently, with no packet and no socket; otherwise exactly `Packet` is sent once, to the current endpoint, through the cached socket or, when none was cached, a newly created one, and the send's result is returned |

## Left out

- UDPSocket's operating-system calls are not modelled. Creating and connecting a socket always succeeds in the model. In the code, `connect` can raise on line 76, for an unresolvable host. That happens after `@socket` is assigned, so an unconnected socket stays cached; the model does not capture this.
- Dropping a cached socket does not close it, in the code or in the model. The model keeps no record of open sockets.
- `MonitorMixin#synchronize` and the `ThreadError` fallback (lines 23, 113-120) are not modelled. They exist only for concurrency and for use in signal handlers. The model is sequential, and the unlocked send behaves like the locked one. The fallback's exceptions, which the rescue on line 121 does not catch, are not modelled.
- The logger (lines 36, 100, 122) is a ghost trace of entries. Message texts are not modelled.
- `rand` (line 40) is the parameter `r`.
- Float#to_s of the sample rate is not modelled. The metric carries the rendered text (`sampleRateText`) beside the rate. The metric's `value` is likewise the already rendered `#{metric.value}`, and each metadata value is the already rendered `#{metric.metadata[key]}` of line 133.
- The sample rate is an exact real, so a Float NaN rate cannot be represented. In Ruby a NaN rate is never sampled out (line 40) and never written (line 95), because every comparison with NaN is false.
- String#to_i is modelled for ASCII white space, a sign, digits and single underscores. Ruby's optional `0d` prefix for base 10 is not modelled.
- Translate: String#tr's table syntax is not modelled. That covers `^` negation, `-` ranges, backslash escapes, and Ruby's rule for a character listed twice (`"hello".tr('^l', '^l')` is "lllll"). The model reads both tables literally, character by character, and its lemmas hold only for such tables. The one table the backend uses, backslash and `n`, has two distinct characters and none of that syntax. Read with Ruby's escaping, `\n` is just `n` on both sides, so the translation is still the identity.
- Only the three known implementations and the eight metric types are modelled. Other symbols (which the code would accept and compare) are not represented.
- Metadata is modelled as the hash's (key, value) pairs in insertion order, with keys written as symbol names. A Ruby hash cannot hold a key twice, so the model does not give duplicate keys any meaning beyond first-match lookup.
- The superclass `StatsD::Instrument::Backend` and the construction of metrics are not part of this model.
