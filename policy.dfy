/**
 * The dialect policy of the UDP backend: which metric types and whether
 * tags each implementation (wire dialect) accepts, and the tables that map
 * event and service-check metadata keys to their one-letter wire codes.
 */
module Policy {

  /** The implementations the backend knows: `:statsd` (the default), `:datadog` and `:statsite`. */
  datatype Implementation = Statsd | Datadog | Statsite

  const DefaultImplementation: Implementation := Statsd

  /** The metric type symbols a metric can carry. */
  datatype MetricType =
    | Counter       // :c
    | Gauge         // :g
    | Timing        // :ms
    | Histogram     // :h
    | Set           // :s
    | KeyValue      // :kv
    | Event         // :_e
    | ServiceCheck  // :_sc

  /** The symbol's text, as `#{metric.type}` writes it on the wire. */
  function Token(t: MetricType): string {
    match t
    case Counter => "c"
    case Gauge => "g"
    case Timing => "ms"
    case Histogram => "h"
    case Set => "s"
    case KeyValue => "kv"
    case Event => "_e"
    case ServiceCheck => "_sc"
  }

  /**
   * implementation_supports_metric_type?, written per type; its contract
   * reads the same table per dialect.
   */
  predicate Supports(t: MetricType, impl: Implementation): (b: bool)
    ensures impl == Statsd ==> (b <==> t in {Counter, Gauge, Timing, Set})
    ensures impl == Datadog ==> (b <==> t != KeyValue)
    ensures impl == Statsite ==> (b <==> t in {Counter, Gauge, Timing, Set, KeyValue})
  {
    match t
    case Histogram => impl == Datadog
    case Event => impl == Datadog
    case ServiceCheck => impl == Datadog
    case KeyValue => impl == Statsite
    case _ => true
  }

  /**
   * tags_supported?: tags go to exactly the dialect that also takes
   * histograms, events and service checks, and not to the default one.
   */
  predicate TagsSupported(impl: Implementation): (b: bool)
    ensures b <==> Supports(Histogram, impl) && Supports(Event, impl) && Supports(ServiceCheck, impl)
    ensures impl == DefaultImplementation ==> !b
  {
    impl == Datadog
  }

  /** EVENT_OPTIONS: metadata key (symbol name) to wire code, in declaration order. */
  const EventOptions: seq<(string, string)> := [
    ("date_happened", "d"),
    ("hostname", "h"),
    ("aggregation_key", "k"),
    ("priority", "p"),
    ("source_type_name", "s"),
    ("alert_type", "t")
  ]

  /** SERVICE_CHECK_OPTIONS: metadata key (symbol name) to wire code, in declaration order. */
  const ServiceCheckOptions: seq<(string, string)> := [
    ("timestamp", "d"),
    ("hostname", "h"),
    ("message", "m")
  ]

  /** Histograms, events and service checks need Datadog; key-value metrics need Statsite; the rest go everywhere. */
  lemma SupportsExactly(t: MetricType, impl: Implementation)
    ensures t in {Histogram, Event, ServiceCheck} ==> (Supports(t, impl) <==> impl == Datadog)
    ensures t == KeyValue ==> (Supports(t, impl) <==> impl == Statsite)
    ensures t in {Counter, Gauge, Timing, Set} ==> Supports(t, impl)
  {
  }

  /** Different types are written differently, so the receiver can tell them apart. */
  lemma TokenInjective(t: MetricType, u: MetricType)
    ensures Token(t) == Token(u) ==> t == u
  {
  }
}
