/**
 The test-data builders for NetFlow v5 packets: `v5_record`, a default flow
 record overridden key by key, and `v5_data`, which copies the packet's
 arguments and its records and turns the three IPv4 address fields of each
 record into address values before the packet structure is built from them.

 Ruby hashes are modelled as `map<string, Value>` keyed by the symbol's name;
 a `Value` is one of the Ruby values the fixtures use. Because maps are
 values, the copies `v5_data` makes with `dup` are implicit: nothing the
 caller holds can change.
 */
module V5Fixtures {
  import opened TimeConversion

  /** The Ruby values that appear in the fixtures' hashes. */
  datatype Value =
    | Nil
    | Bool(b: bool)
    | Int(i: int)
    | Str(s: string)
    | List(items: seq<Value>)
    | Hash(entries: map<string, Value>)

  /** What Ruby raises when `v5_data` is handed something it cannot enumerate or index. */
  datatype Error = NoMethodError(receiver: Value) | TypeError(receiver: Value)

  datatype Result<T> = Success(value: T) | Failure(error: Error)

  /** Ruby truthiness: only `nil` and `false` are false; zero, the empty string
      and empty collections are true. */
  predicate Truthy(v: Value)
    ensures Truthy(v) ==> !v.Nil? && v != Bool(false)
    ensures v.Int? || v.Str? || v.List? || v.Hash? || v == Bool(true) ==> Truthy(v)
  {
    v != Nil && v != Bool(false)
  }

  /** `h[k]`: the stored value, or `nil` for an absent key. */
  function Lookup(h: map<string, Value>, k: string): (v: Value)
    ensures k in h ==> v == h[k]
    ensures k !in h ==> v == Nil
    ensures Truthy(v) ==> k in h && h[k] == v
  {
    if k in h then h[k] else Nil
  }

  // ---------------------------------------------------------------------------
  // v5_record

  /** The fields of the default v5 flow record: addresses as dotted-quad strings,
      switched times as uptime stamps 13 s and 12.95 s before export. */
  const DefaultRecord: map<string, Value> := map[
    "ipv4_src_addr" := Str("10.0.1.122"),
    "ipv4_dst_addr" := Str("192.168.0.3"),
    "ipv4_next_hop" := Str("10.0.0.3"),
    "input_snmp" := Int(1),
    "output_snmp" := Int(2),
    "in_pkts" := Int(156),
    "in_bytes" := Int(1024),
    "first_switched" := Int(DefaultUptime - 13000),
    "last_switched" := Int(DefaultUptime - 12950),
    "l4_src_port" := Int(1048),
    "l4_dst_port" := Int(80),
    "tcp_flags" := Int(27),
    "protocol" := Int(6),
    "src_tos" := Int(0),
    "src_as" := Int(101),
    "dst_as" := Int(201),
    "src_mask" := Int(24),
    "dst_mask" := Int(24)
  ]

  /** `v5_record(hash)`: the default record merged with `hash`; a key of `hash`
      overrides the default, every other default is kept, and keys the default
      lacks are added. */
  function V5Record(overrides: map<string, Value>): (r: map<string, Value>)
    ensures r.Keys == DefaultRecord.Keys + overrides.Keys
    ensures forall k :: k in overrides ==> r[k] == overrides[k]
    ensures forall k :: k in DefaultRecord && k !in overrides ==> r[k] == DefaultRecord[k]
  {
    DefaultRecord + overrides
  }

  /** With no overrides `v5_record` is the default record, whose `last_switched`
      is 50 ms after its `first_switched`, both before the export uptime. */
  lemma V5RecordDefaults()
    ensures V5Record(map[]) == DefaultRecord
    ensures DefaultRecord["last_switched"].i - DefaultRecord["first_switched"].i == 50
    ensures DefaultRecord["last_switched"].i < DefaultUptime
  {
    assert V5Record(map[]) == DefaultRecord;
  }

  // ---------------------------------------------------------------------------
  // v5_data

  /** The record keys whose values `v5_data` turns into IPv4 address values, in order. */
  const AddressKeys: seq<string> := ["ipv4_src_addr", "ipv4_dst_addr", "ipv4_next_hop"]

  /** A record with each present, truthy address field replaced by
      `ipv4addr` of its value; every other entry is kept. */
  function ConvertAddresses(r: map<string, Value>, ipv4addr: Value -> Value): (c: map<string, Value>)
    ensures c.Keys == r.Keys
    ensures forall k :: k in r && k !in AddressKeys ==> c[k] == r[k]
  {
    map k | k in r :: if k in AddressKeys && Truthy(r[k]) then ipv4addr(r[k]) else r[k]
  }

  /** Converting the addresses keeps the record's keys, leaves every non-address
      field and every absent, `nil` or `false` address field as it was, and
      converts the others. */
  lemma ConvertAddressesChangesOnlyAddresses(r: map<string, Value>, ipv4addr: Value -> Value)
    ensures ConvertAddresses(r, ipv4addr).Keys == r.Keys
    ensures forall k :: k in r && k !in AddressKeys ==> ConvertAddresses(r, ipv4addr)[k] == r[k]
    ensures forall k :: k in r && !Truthy(r[k]) ==> ConvertAddresses(r, ipv4addr)[k] == r[k]
    ensures forall k :: k in AddressKeys && Truthy(Lookup(r, k)) ==>
              ConvertAddresses(r, ipv4addr)[k] == ipv4addr(r[k])
    ensures |ConvertAddresses(r, ipv4addr)| == |r|
  {
    assert ConvertAddresses(r, ipv4addr).Keys == r.Keys;
  }

  /** A default record whose address fields were not overridden has all three
      converted. */
  lemma DefaultRecordAddressesConverted(overrides: map<string, Value>, ipv4addr: Value -> Value)
    requires forall k :: k in AddressKeys ==> k !in overrides
    ensures forall k :: k in AddressKeys ==>
              ConvertAddresses(V5Record(overrides), ipv4addr)[k] == ipv4addr(DefaultRecord[k])
  {
    forall k | k in AddressKeys
      ensures ConvertAddresses(V5Record(overrides), ipv4addr)[k] == ipv4addr(DefaultRecord[k])
    {
      assert k in DefaultRecord && DefaultRecord[k].Str?;
    }
  }

  /** `(hash[:records] || [])` followed by `.map` over it: what is enumerated,
      or the error Ruby raises. A falsy value is replaced by `[]`; an array
      yields its elements; an empty hash yields nothing, while a non-empty hash
      yields `[key, value]` arrays that the block cannot index by a symbol
      (the error records the hash, not the pair); anything else has no `map`. */
  function Enumerate(v: Value): (r: Result<seq<Value>>)
    ensures !Truthy(v) ==> r == Success([])
    ensures v.List? ==> r == Success(v.items)
    ensures v == Hash(map[]) ==> r == Success([])
    ensures r.Success? ==> v.List? || v == Hash(map[]) || !Truthy(v)
    ensures r.Failure? ==> r.error.receiver == v && (r.error.TypeError? <==> v.Hash?)
  {
    if !Truthy(v) then Success([])
    else match v
      case List(items) => Success(items)
      case Hash(entries) =>
        if entries == map[] then Success([])
        else Failure(TypeError(v))
      case _ => Failure(NoMethodError(v))
  }

  /** The error raised by `r[key]` on a copied element that is not a hash, as
      Ruby 2.4 and later raise it: there `nil.dup`, `true.dup` and `1.dup`
      return the value itself, and the failure comes from indexing it. */
  function ElementError(v: Value): (e: Error)
    requires !v.Hash?
    ensures e.receiver == v
    ensures e.NoMethodError? <==> (v.Nil? || v.Bool?)
  {
    if v.Nil? || v.Bool? then NoMethodError(v) else TypeError(v)
  }

  /** `items[i]` is the first element that is not a hash. */
  predicate FirstNonHash(items: seq<Value>, i: int)
  {
    0 <= i < |items| && !items[i].Hash? && forall j :: 0 <= j < i ==> items[j].Hash?
  }

  /** The converted copies of the records, in order; the first element that is
      not a hash raises. */
  function ConvertRecords(items: seq<Value>, ipv4addr: Value -> Value): (r: Result<seq<Value>>)
    ensures r.Success? <==> forall i :: 0 <= i < |items| ==> items[i].Hash?
    ensures r.Success? ==> (|r.value| == |items| &&
              forall i :: 0 <= i < |items| ==> r.value[i] == Hash(ConvertAddresses(items[i].entries, ipv4addr)))
    ensures r.Failure? ==> exists i :: FirstNonHash(items, i) && r.error == ElementError(items[i])
  {
    if items == [] then Success([])
    else if !items[0].Hash? then Failure(ElementError(items[0]))
    else
      var rest := ConvertRecords(items[1..], ipv4addr);
      if rest.Failure? then
        assert forall i :: 1 <= i < |items| ==> items[i] == items[1..][i - 1];
        rest
      else
        Success([Hash(ConvertAddresses(items[0].entries, ipv4addr))] + rest.value)
  }

  /** What `v5_data(hash)` hands to the packet constructor: a copy of `hash`
      whose `records` entry is the list of converted record copies. */
  function V5Args(hash: map<string, Value>, ipv4addr: Value -> Value): (r: Result<map<string, Value>>)
    ensures r.Success? <==> (Enumerate(Lookup(hash, "records")).Success? &&
              forall i :: 0 <= i < |Enumerate(Lookup(hash, "records")).value| ==>
                Enumerate(Lookup(hash, "records")).value[i].Hash?)
    ensures r.Success? ==> r.value.Keys == hash.Keys + {"records"}
    ensures r.Success? ==> forall k :: k in hash && k != "records" ==> r.value[k] == hash[k]
    ensures r.Success? ==> (var before := Enumerate(Lookup(hash, "records")).value;
              var out := r.value["records"];
              out.List? && |out.items| == |before| &&
              forall i :: 0 <= i < |before| ==> out.items[i] == Hash(ConvertAddresses(before[i].entries, ipv4addr)))
  {
    var records := Enumerate(Lookup(hash, "records"));
    if records.Failure? then Failure(records.error)
    else
      var converted := ConvertRecords(records.value, ipv4addr);
      if converted.Failure? then Failure(converted.error)
      else Success(hash["records" := List(converted.value)])
  }

  /** `v5_data` keeps the number and order of the records, and each record's
      keys; it changes a record's field only when it is a present and truthy
      address field. */
  lemma {:induction false} V5ArgsRecords(hash: map<string, Value>, ipv4addr: Value -> Value, i: nat)
    requires V5Args(hash, ipv4addr).Success?
    requires i < |Enumerate(Lookup(hash, "records")).value|
    ensures var out := V5Args(hash, ipv4addr).value["records"];
            var before := Enumerate(Lookup(hash, "records")).value;
            out.List? && |out.items| == |before| &&
            out.items[i].Hash? && before[i].Hash? &&
            out.items[i].entries.Keys == before[i].entries.Keys &&
            (forall k :: k in before[i].entries && (k !in AddressKeys || !Truthy(before[i].entries[k])) ==>
               out.items[i].entries[k] == before[i].entries[k]) &&
            (forall k :: k in AddressKeys && Truthy(Lookup(before[i].entries, k)) ==>
               out.items[i].entries[k] == ipv4addr(before[i].entries[k]))
  {
    var before := Enumerate(Lookup(hash, "records")).value;
    ConvertAddressesChangesOnlyAddresses(before[i].entries, ipv4addr);
  }

  /** The converted copy of one record: each address key in turn is rewritten
      when its value is truthy. */
  method ConvertRecordAddresses(r: map<string, Value>, ipv4addr: Value -> Value) returns (c: map<string, Value>)
    ensures c == ConvertAddresses(r, ipv4addr)
  {
    c := r;
    var n := 0;
    while n < |AddressKeys|
      invariant 0 <= n <= |AddressKeys|
      invariant c.Keys == r.Keys
      invariant forall k :: k in c ==>
                  c[k] == if k in AddressKeys[..n] && Truthy(r[k]) then ipv4addr(r[k]) else r[k]
    {
      var key := AddressKeys[n];
      assert key !in AddressKeys[..n];
      if Truthy(Lookup(c, key)) {
        c := c[key := ipv4addr(c[key])];
      }
      assert AddressKeys[..n + 1] == AddressKeys[..n] + [key];
      n := n + 1;
    }
    assert AddressKeys[..n] == AddressKeys;
  }

  /** `v5_data(hash)`, up to the packet constructor: copies `hash`, enumerates
      its records (or none), copies and converts each, and stores the list
      under `records`. */
  method V5Data(hash: map<string, Value>, ipv4addr: Value -> Value) returns (r: Result<map<string, Value>>)
    ensures r == V5Args(hash, ipv4addr)
  {
    var copy := hash;
    var records := Enumerate(Lookup(copy, "records"));
    if records.Failure? {
      return Failure(records.error);
    }
    var items := records.value;
    var converted: seq<Value> := [];
    var i := 0;
    while i < |items|
      invariant 0 <= i <= |items|
      invariant forall j :: 0 <= j < i ==> items[j].Hash?
      invariant |converted| == i
      invariant forall j :: 0 <= j < i ==> converted[j] == Hash(ConvertAddresses(items[j].entries, ipv4addr))
    {
      var item := items[i];
      if !item.Hash? {
        r := Failure(ElementError(item));
        assert ConvertRecords(items, ipv4addr).Failure?;
        assert ConvertRecords(items, ipv4addr).error == r.error;
        return;
      }
      var c := ConvertRecordAddresses(item.entries, ipv4addr);
      converted := converted + [Hash(c)];
      i := i + 1;
    }
    assert converted == ConvertRecords(items, ipv4addr).value;
    copy := copy["records" := List(converted)];
    r := Success(copy);
  }
}
