/**
 * The packet encoder: the metric as the backend reads it, the metadata
 * segments of events and service checks (generate_metadata), and the wire
 * string of one metric under one implementation (generate_packet), with
 * the relations between packets that say which inputs reach the wire.
 */
module Encoder {
  import opened Wrappers
  import opened Text
  import opened Policy

  /**
   * One metric as the backend reads it. `value` is the payload already
   * rendered as text (`#{metric.value}`), `sampleRateText` is the rate as
   * Float#to_s renders it, and `metadata` is the metric's metadata hash as
   * its (key, value) pairs in insertion order, keys written as symbol names.
   */
  datatype Metric = Metric(
    mtype: MetricType,
    name: string,
    value: string,
    sampleRate: real,
    sampleRateText: string,
    tags: Option<seq<string>>,
    metadata: seq<(string, string)>)

  /** The keys of a hash, in insertion order. */
  function Keys(pairs: seq<(string, string)>): seq<string> {
    seq(|pairs|, i requires 0 <= i < |pairs| => pairs[i].0)
  }

  /** `hash[key].to_s`: the value stored under `key`, or "" (nil.to_s) when there is none. */
  function Lookup(pairs: seq<(string, string)>, key: string): string {
    if pairs == [] then ""
    else if pairs[0].0 == key then pairs[0].1
    else Lookup(pairs[1..], key)
  }

  /**
   * Ruby's `a & b`: each element of `a` that also occurs in `b`, once, at
   * the place of its first occurrence in `a`.
   */
  function Intersect(a: seq<string>, b: seq<string>): (r: seq<string>)
    ensures forall x :: x in r ==> x in a && x in b
  {
    if a == [] then []
    else
      var init, x := a[..|a| - 1], a[|a| - 1];
      if x in b && x !in init then Intersect(init, b) + [x] else Intersect(init, b)
  }

  /** The shared keys, each once, in the order they first appear in `a`. */
  lemma {:induction false} IntersectSpec(a: seq<string>, b: seq<string>)
    ensures forall x :: x in Intersect(a, b) <==> x in a && x in b
    ensures forall i, j :: 0 <= i < j < |Intersect(a, b)| ==> Intersect(a, b)[i] != Intersect(a, b)[j]
    ensures forall i, j :: 0 <= i < j < |Intersect(a, b)| ==>
              IndexOf(a, Intersect(a, b)[i]) < IndexOf(a, Intersect(a, b)[j])
  {
    if a != [] {
      var init, x := a[..|a| - 1], a[|a| - 1];
      assert a == init + [x];
      IntersectSpec(init, b);
      var r0 := Intersect(init, b);
      forall y | y in init
        ensures IndexOf(a, y) == IndexOf(init, y)
      {
        IndexOfPrefix(init, [x], y);
      }
      if x in b && x !in init {
        IndexOfUnique(a, x, |init|);
        var r := r0 + [x];
        assert forall i :: 0 <= i < |r0| ==> r[i] == r0[i] && r0[i] in init;
      }
    }
  }

  /** One metadata segment on the wire. */
  function Segment(code: string, value: string): string {
    "|" + code + ":" + value
  }

  /** The segments for `keys`, joined in order: nothing for no keys, and otherwise a string that opens a segment. */
  function MetaSegments(keys: seq<string>, meta: seq<(string, string)>, table: seq<(string, string)>): (s: string)
    ensures s == "" <==> keys == []
    ensures s != "" ==> s[0] == '|'
  {
    if keys == [] then ""
    else
      var k := keys[|keys| - 1];
      MetaSegments(keys[..|keys| - 1], meta, table) + Segment(Lookup(table, k), Lookup(meta, k))
  }

  /**
   * generate_metadata: one `|code:value` segment per key the metadata shares
   * with the table; a non-empty result opens a segment.
   */
  function Metadata(meta: seq<(string, string)>, table: seq<(string, string)>): (s: string)
    ensures s != "" ==> s[0] == '|'
  {
    MetaSegments(Intersect(Keys(meta), Keys(table)), meta, table)
  }

  /** generate_metadata writes nothing exactly when the metadata shares no key with the table. */
  lemma MetadataNothingShared(meta: seq<(string, string)>, table: seq<(string, string)>)
    ensures Metadata(meta, table) == "" <==> forall k :: k in Keys(meta) ==> k !in Keys(table)
  {
    IntersectSpec(Keys(meta), Keys(table));
    var shared := Intersect(Keys(meta), Keys(table));
    if shared != [] {
      assert shared[0] in Keys(meta) && shared[0] in Keys(table);
    }
  }

  lemma KeysSnoc(meta: seq<(string, string)>, k: string, v: string)
    ensures Keys(meta + [(k, v)]) == Keys(meta) + [k]
  {
  }

  /** Appending a pair does not change what an existing key looks up. */
  lemma {:induction false} LookupSnoc(meta: seq<(string, string)>, k: string, v: string, key: string)
    ensures key in Keys(meta) ==> Lookup(meta + [(k, v)], key) == Lookup(meta, key)
    ensures key !in Keys(meta) && key == k ==> Lookup(meta + [(k, v)], key) == v
  {
    if meta != [] {
      assert (meta + [(k, v)])[1..] == meta[1..] + [(k, v)];
      assert Keys(meta) == [meta[0].0] + Keys(meta[1..]);
      LookupSnoc(meta[1..], k, v, key);
    }
  }

  lemma {:induction false} MetaSegmentsSnoc(keys: seq<string>, meta: seq<(string, string)>, k: string, v: string, table: seq<(string, string)>)
    requires forall x :: x in keys ==> x in Keys(meta)
    ensures MetaSegments(keys, meta + [(k, v)], table) == MetaSegments(keys, meta, table)
  {
    if keys != [] {
      MetaSegmentsSnoc(keys[..|keys| - 1], meta, k, v, table);
      LookupSnoc(meta, k, v, keys[|keys| - 1]);
    }
  }

  /**
   * What one more metadata pair adds: its segment, when its key is in the
   * table and has not been seen before; nothing otherwise. With
   * `Metadata([], table) == ""` this fixes the output for every hash.
   */
  lemma MetadataSnoc(meta: seq<(string, string)>, k: string, v: string, table: seq<(string, string)>)
    ensures Metadata(meta + [(k, v)], table) ==
            Metadata(meta, table) +
            (if k in Keys(table) && k !in Keys(meta) then Segment(Lookup(table, k), v) else "")
  {
    var meta' := meta + [(k, v)];
    var ks, kt := Keys(meta), Keys(table);
    KeysSnoc(meta, k, v);
    var ks' := Keys(meta');
    assert ks'[..|ks'| - 1] == ks && ks'[|ks'| - 1] == k;
    var shared := Intersect(ks, kt);
    assert Metadata(meta, table) == MetaSegments(shared, meta, table);
    MetaSegmentsSnoc(shared, meta, k, v, table);
    if k in kt && k !in ks {
      var shared' := shared + [k];
      assert Intersect(ks', kt) == shared';
      assert shared'[..|shared'| - 1] == shared && shared'[|shared'| - 1] == k;
      LookupSnoc(meta, k, v, k);
      calc {
        Metadata(meta', table);
        MetaSegments(shared', meta', table);
        MetaSegments(shared, meta', table) + Segment(Lookup(table, k), Lookup(meta', k));
        MetaSegments(shared, meta, table) + Segment(Lookup(table, k), v);
      }
    } else {
      assert Intersect(ks', kt) == shared;
      calc {
        Metadata(meta', table);
        MetaSegments(shared, meta', table);
        Metadata(meta, table);
        Metadata(meta, table) + "";
      }
    }
  }

  /** No metadata, no segments. */
  lemma MetadataEmpty(table: seq<(string, string)>)
    ensures Metadata([], table) == ""
  {
  }

  /** The title and text pass through String#tr('\n', '\\n'): both tables are the two characters backslash and n. */
  const EscapeTable: string := "\\n"

  function Escape(s: string): string {
    Translate(s, EscapeTable, EscapeTable)
  }

  /** The header of an event: the lengths of title and text, then both. */
  function EventHead(title: string, text: string): string {
    "_e{" + Decimal(|title|) + "," + Decimal(|text|) + "}:" + title + "|" + text
  }

  /**
   * The body of the packet, with the event or service-check metadata. An
   * event's header is that of its title and text as given, because the
   * escaping `tr` leaves them unchanged.
   */
  function Body(t: MetricType, name: string, value: string, meta: seq<(string, string)>): (b: string)
    ensures t == Event ==> b == EventHead(name, value) + Metadata(meta, EventOptions)
  {
    TranslateSameTable(name, EscapeTable);
    TranslateSameTable(value, EscapeTable);
    match t
    case Event =>
      EventHead(Escape(name), Escape(value)) + Metadata(meta, EventOptions)
    case ServiceCheck =>
      "_sc|" + name + "|" + value + Metadata(meta, ServiceCheckOptions)
    case _ =>
      name + ":" + value + "|" + Token(t)
  }

  /** When the `|@rate` suffix is written. */
  predicate RateShown(rate: real, impl: Implementation) {
    rate < 1.0 || (impl == Statsite && rate > 1.0)
  }

  function RateSuffix(rate: real, text: string, impl: Implementation): string {
    if RateShown(rate, impl) then "|@" + text else ""
  }

  function TagSuffix(tags: Option<seq<string>>, impl: Implementation): string {
    if tags.Some? && TagsSupported(impl) then "|#" + Join(tags.value, ",") else ""
  }

  function Terminator(impl: Implementation): string {
    if impl == Statsite then "\n" else ""
  }

  /** Tags that are given but not written: the case in which the backend warns. */
  predicate TagsDropped(m: Metric, impl: Implementation) {
    m.tags.Some? && !TagsSupported(impl)
  }

  /**
   * generate_packet: the wire string of `m` under `impl`: the body, then the
   * rate, the tags and the terminator. Under Statsite it ends with a newline.
   */
  function Packet(m: Metric, impl: Implementation): (p: string)
    ensures impl == Statsite ==> |p| > 0 && p[|p| - 1] == '\n'
  {
    Body(m.mtype, m.name, m.value, m.metadata)
    + RateSuffix(m.sampleRate, m.sampleRateText, impl)
    + TagSuffix(m.tags, impl)
    + Terminator(impl)
  }

  /** Outside Statsite nothing follows the tag suffix. */
  lemma PacketOutsideStatsite(m: Metric, impl: Implementation)
    requires impl != Statsite
    ensures Packet(m, impl) == Body(m.mtype, m.name, m.value, m.metadata)
      + RateSuffix(m.sampleRate, m.sampleRateText, impl) + TagSuffix(m.tags, impl)
  {
  }

  predicate StartsWith(s: string, prefix: string) {
    |prefix| <= |s| && s[..|prefix|] == prefix
  }

  /** A prefix of a string is a prefix of any extension of it. */
  lemma PrefixOfAppend(prefix: string, s: string, t: string)
    requires s == prefix || StartsWith(s, prefix)
    ensures StartsWith(s + t, prefix)
  {
    assert (s + t)[..|prefix|] == s[..|prefix|];
  }

  /** A plain metric at full rate without tags is exactly `name:value|type` outside Statsite. */
  lemma GenericPacket(m: Metric, impl: Implementation)
    requires m.mtype !in {Event, ServiceCheck}
    requires m.sampleRate == 1.0 && m.tags.None? && impl != Statsite
    ensures Packet(m, impl) == m.name + ":" + m.value + "|" + Token(m.mtype)
  {
  }

  /** `{name: "a.b", value: 1, type: :c}` under Statsd is `a.b:1|c`. */
  lemma CounterExample()
    ensures Packet(Metric(Counter, "a.b", "1", 1.0, "1.0", None, []), Statsd) == "a.b:1|c"
  {
  }

  /** The numbers in an event header are the lengths of the title and the text as given. */
  lemma EventHeader(m: Metric, impl: Implementation)
    requires m.mtype == Event
    ensures StartsWith(Packet(m, impl), EventHead(m.name, m.value))
  {
    var h := EventHead(m.name, m.value);
    var b := Body(m.mtype, m.name, m.value, m.metadata);
    var rate := RateSuffix(m.sampleRate, m.sampleRateText, impl);
    var tags := TagSuffix(m.tags, impl);
    assert StartsWith(b, h) by {
      PrefixOfAppend(h, h, Metadata(m.metadata, EventOptions));
    }
    PrefixOfAppend(h, b, rate);
    PrefixOfAppend(h, b + rate, tags);
    PrefixOfAppend(h, b + rate + tags, Terminator(impl));
  }

  /** An event whose title and text hold newlines keeps them: `tr` does not escape them. */
  lemma EventExample()
    ensures Packet(Metric(Event, "Hi\nThere", "Body\nText", 1.0, "1.0", None, []), Datadog)
            == "_e{8,9}:Hi\nThere|Body\nText"
  {
    TranslateSameTable("Hi\nThere", EscapeTable);
    TranslateSameTable("Body\nText", EscapeTable);
  }

  /** The keys of SERVICE_CHECK_OPTIONS and the codes of `message` and `hostname`. */
  lemma ServiceCheckTable()
    ensures "message" in Keys(ServiceCheckOptions) && Lookup(ServiceCheckOptions, "message") == "m"
    ensures "hostname" in Keys(ServiceCheckOptions) && Lookup(ServiceCheckOptions, "hostname") == "h"
    ensures "foo" !in Keys(ServiceCheckOptions)
  {
    assert Keys(ServiceCheckOptions) == ["timestamp", "hostname", "message"];
  }

  /** Metadata follows the hash's order, not the table's, and skips keys outside the table. */
  lemma ServiceCheckMetadataExample(message: string, other: string, host: string)
    ensures Metadata([("message", message), ("foo", other), ("hostname", host)], ServiceCheckOptions)
            == Segment("m", message) + Segment("h", host)
  {
    var table := ServiceCheckOptions;
    ServiceCheckTable();
    var m1 := [("message", message)];
    var m2 := m1 + [("foo", other)];
    assert Metadata(m1, table) == Segment("m", message) by {
      MetadataEmpty(table);
      MetadataSnoc([], "message", message, table);
      assert [] + [("message", message)] == m1;
    }
    assert Metadata(m2, table) == Segment("m", message) by {
      MetadataSnoc(m1, "foo", other, table);
    }
    assert "hostname" !in Keys(m2) by {
      assert Keys(m2) == ["message", "foo"];
    }
    MetadataSnoc(m2, "hostname", host, table);
    assert m2 + [("hostname", host)] == [("message", message), ("foo", other), ("hostname", host)];
  }

  /**
   * A service check with metadata, under Datadog: `_sc`, its name and its
   * status, then `|m:` and the message and `|h:` and the host, in the
   * hash's order, with the key outside the table left out.
   */
  lemma ServiceCheckExample(name: string, status: string, message: string, other: string, host: string)
    ensures Packet(Metric(ServiceCheck, name, status, 1.0, "1.0", None,
                          [("message", message), ("foo", other), ("hostname", host)]), Datadog)
            == "_sc|" + name + "|" + status + "|m:" + message + "|h:" + host
  {
    var meta := [("message", message), ("foo", other), ("hostname", host)];
    var m := Metric(ServiceCheck, name, status, 1.0, "1.0", None, meta);
    var head := "_sc|" + name + "|" + status;
    var md := Metadata(meta, ServiceCheckOptions);
    assert Packet(m, Datadog) == head + md;
    assert md == Segment("m", message) + Segment("h", host) by {
      ServiceCheckMetadataExample(message, other, host);
    }
    assert head + (Segment("m", message) + Segment("h", host)) == "_sc|" + name + "|" + status + "|m:" + message + "|h:" + host;
  }

  /**
   * The rendered rate reaches the wire exactly when the rate is below 1,
   * or above 1 under Statsite: only then does changing its text change
   * the packet.
   */
  lemma RateTextVisible(m: Metric, impl: Implementation, text: string)
    ensures Packet(m.(sampleRateText := text), impl) == Packet(m, impl)
            <==> !RateShown(m.sampleRate, impl) || text == m.sampleRateText
  {
    var m' := m.(sampleRateText := text);
    if RateShown(m.sampleRate, impl) && Packet(m', impl) == Packet(m, impl) {
      var head := Body(m.mtype, m.name, m.value, m.metadata) + "|@";
      var tail := Packet(m, impl)[|head| + |m.sampleRateText|..];
      assert Packet(m, impl) == head + m.sampleRateText + tail;
      assert Packet(m', impl) == head + text + tail;
      assert text == Packet(m', impl)[|head|..|head| + |text|];
    }
  }

  /** A rate of exactly 1 is never written, under any implementation. */
  lemma FullRateNotWritten(m: Metric, impl: Implementation, text: string)
    requires m.sampleRate == 1.0
    ensures Packet(m.(sampleRateText := text), impl) == Packet(m, impl)
  {
    RateTextVisible(m, impl, text);
  }

  /** Given tags change the packet exactly under Datadog; elsewhere they are left off. */
  lemma TagsVisible(m: Metric, impl: Implementation, tags: seq<string>)
    ensures Packet(m.(tags := Some(tags)), impl) == Packet(m.(tags := None), impl) <==> !TagsSupported(impl)
  {
    if TagsSupported(impl) {
      assert |Packet(m.(tags := Some(tags)), impl)| >= |Packet(m.(tags := None), impl)| + 2;
    }
  }

  /** Under Datadog the tags come last, comma-joined after `|#`; an empty list leaves a bare `|#`. */
  lemma DatadogTagsLast(m: Metric, tags: seq<string>)
    ensures Packet(m.(tags := Some(tags)), Datadog) == Packet(m.(tags := None), Datadog) + "|#" + Join(tags, ",")
    ensures Packet(m.(tags := Some([])), Datadog) == Packet(m.(tags := None), Datadog) + "|#"
  {
  }

  /** Datadog writes what Statsd writes, plus the tags. */
  lemma DatadogVersusStatsd(m: Metric)
    ensures Packet(m, Datadog) == Packet(m, Statsd) + (if m.tags.Some? then "|#" + Join(m.tags.value, ",") else "")
  {
  }

  /**
   * Statsite writes what Statsd writes, plus the rate when it is above 1,
   * and ends the packet with a newline.
   */
  lemma StatsiteVersusStatsd(m: Metric)
    ensures Packet(m, Statsite) ==
            Packet(m, Statsd) + (if m.sampleRate > 1.0 then "|@" + m.sampleRateText else "") + "\n"
    ensures Packet(m, Statsite)[|Packet(m, Statsite)| - 1] == '\n'
  {
  }
}
