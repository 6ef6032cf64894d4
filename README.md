# NetFlow switched-time conversion and v5 test fixtures

This project models the self-contained logic of the test suite of a Fluentd
NetFlow parser plugin (`test/test_parser_netflow.rb`):

- converting a flow's "switched" time, a device-uptime stamp in milliseconds,
  into wall-clock time from the export packet's uptime and its export time
  in seconds and nanoseconds. The exact conversion on rationals is
  `TimeConversion.ByRational`. The fast conversion on integers, with its
  one-second borrow, is the method `TimeConversion.FromBoot`. A Ruby `Time`
  is modelled as the exact number of seconds it denotes, a `real`:
  `Time.at(seconds, micros)` is `At`, `Time#to_i` is `ToI` and `Time#usec`
  is `Usec`;
- the fixture constants: `DEFAULT_UPTIME` (12 days 3 h 13 min 3.625 s) and
  `DEFAULT_TIME`;
- the v5 test-data builders. `v5_record` merges overrides into a default
  flow record (`V5Fixtures.V5Record`). `v5_data` copies its arguments and
  records, then turns each record's three IPv4 address fields into address
  values (`V5Fixtures.V5Data`, specified by `V5Fixtures.V5Args`). Ruby
  hashes become `map<string, Value>`. Ruby truthiness (`nil` and `false`)
  and the exceptions Ruby raises on an unusable `records` entry are modelled,
  as Ruby 2.4 and later raise them (there `nil.dup` returns `nil`).
  The address constructor `ipv4addr` is a parameter of the model.

The main results:

- The two conversions agree on `to_i` and `usec` for every integer input.
  Both truncate to the same microsecond count, `TotalMicros`, which is the
  exact time truncated to whole microseconds.
- When the nanosecond field lies in `[0, 10^9)`, one borrow is always enough:
  the microseconds end in `[0, 10^6)`. The pair is then exactly the exact
  time's whole seconds and microseconds.
- A later uptime stamp never gives an earlier `(seconds, micros)` pair.
- `v5_data` keeps the number and order of the records and each record's keys.
  It changes only present, truthy address fields. It leaves every other
  argument as given.

## Model

| member | source | states |
|---|---|---|
| `TimeConversion.DefaultUptimeIsDuration` | test/test_parser_netflow.rb:67-68 | `DEFAULT_UPTIME` is 12 days 3 h 13 min 3 s plus 625 ms, in milliseconds |
| `TimeConversion.ToI` | test/test_parser_netflow.rb:96 | `Time#to_i` is the whole second at or below the time |
| `TimeConversion.Usec` | test/test_parser_netflow.rb:97 | `Time#usec` always lies in `[0, 10^6)` |
| `TimeConversion.FloorMicros` | test/test_parser_netflow.rb:95-98 | the time truncated to whole microseconds: the largest integer at or below the time times 10^6 |
| `TimeConversion.SecondsAndUsecOfMicros` | test/test_parser_netflow.rb:96-97 | `to_i` and `usec` are the quotient and remainder of the truncated microsecond count by 10^6, so times with equal microsecond counts compare equal in the test |
| `TimeConversion.At` | test/test_parser_netflow.rb:88 | `Time.at(seconds, micros)` is exactly `seconds * 10^6 + micros` microseconds, and lies in the second `seconds` when `micros` is in `[0, 10^6)` |
| `TimeConversion.AtMicros` | test/test_parser_netflow.rb:88 | `Time.at(seconds, micros)` denotes exactly `seconds * 10^6 + micros` microseconds |
| `TimeConversion.AtReadsBack` | test/test_parser_netflow.rb:88 | a pair with microseconds in `[0, 10^6)` reads back unchanged through `to_i` and `usec` |
| `TimeConversion.ByRational` | test/test_parser_netflow.rb:73-78 | the exact event time, scaled to nanoseconds, is the export time in nanoseconds minus the elapsed milliseconds in nanoseconds |
| `TimeConversion.TotalMicros` | test/test_parser_netflow.rb:73-89 | the integer microsecond count both strategies compute is the exact rational time truncated to whole microseconds |
| `TimeConversion.FromBoot` | test/test_parser_netflow.rb:80-89 | no microsecond is lost: `seconds * 10^6 + micros` is the truncated exact time; the borrow costs exactly one second iff `nsec/1000 < (millis%1000)*1000`; for `0 <= nsec < 10^9` the micros end in `[0, 10^6)` and the pair is the exact time's `to_i` and `usec`; for every input `to_i` and `usec` agree with the rational version |
| `TimeConversion.ByRationalMonotone` | test/test_parser_netflow.rb:73-78 | a later uptime stamp converts to a time later by exactly the elapsed milliseconds |
| `TimeConversion.FromBootMonotone` | test/test_parser_netflow.rb:80-89 | for two integer conversions under one packet header, a later stamp gives a pair that is not earlier in (seconds, micros) order, `d` ms later means `d * 1000` µs later, and the denoted times are ordered |
| `TimeConversion.DefaultSwitchedTimes` | test/test_parser_netflow.rb:347-348 | the default record's `first_switched` converts to exactly 13 s before export with no borrow, and `last_switched` to 50 ms after it, borrowing exactly when the export nanoseconds are below 0.95 s |
| `TimeConversion.ConversionTestCase` | test/test_parser_netflow.rb:95-98 | for the tested stamp 300 under the default uptime and export time, the exact time's `to_i` is 1048383 s before the export time, one more when the 325 ms remainder borrows, and its `usec` is the export microseconds shifted back by 325000 modulo 10^6 |
| `V5Fixtures.Truthy` | test/test_parser_netflow.rb:363-366 | only `nil` and `false` are false; integers (zero included), strings, arrays, hashes and `true` are true |
| `V5Fixtures.Lookup` | test/test_parser_netflow.rb:366 | `h[k]` is the stored value for a present key and `nil` for an absent one |
| `V5Fixtures.V5Record` | test/test_parser_netflow.rb:338-359 | the result's keys are the default's plus the overrides'; an overridden key has the override's value; every other key keeps its default |
| `V5Fixtures.V5RecordDefaults` | test/test_parser_netflow.rb:338-359 | `v5_record()` is the default record; its `last_switched` is 50 ms after `first_switched`, both before the export uptime |
| `V5Fixtures.ConvertAddresses` | test/test_parser_netflow.rb:365-367 | the rewritten record has the same keys, and every field other than the three addresses keeps its value |
| `V5Fixtures.ConvertAddressesChangesOnlyAddresses` | test/test_parser_netflow.rb:365-367 | converting a record keeps its keys and size; non-address fields and `nil`/`false` fields are unchanged; each present truthy address field becomes `ipv4addr` of its value |
| `V5Fixtures.DefaultRecordAddressesConverted` | test/test_parser_netflow.rb:363-367 | a default record whose addresses were not overridden has all three addresses converted from their default strings |
| `V5Fixtures.Enumerate` | test/test_parser_netflow.rb:363 | the `records` argument, defaulting to `[]`, is enumerated as no records when falsy or an empty hash and as its elements when an array; it succeeds only for those; otherwise the error names the value, `TypeError` exactly for a non-empty hash and `NoMethodError` for values without `map` |
| `V5Fixtures.ElementError` | test/test_parser_netflow.rb:364-366 | indexing a non-hash record raises on that record, `NoMethodError` exactly for `nil` and booleans (Ruby 2.4 and later) |
| `V5Fixtures.ConvertRecords` | test/test_parser_netflow.rb:363-369 | the records convert iff every element is a hash; then the result has the same length and order, element `i` being record `i` with its addresses converted; otherwise the error is that of the first non-hash element |
| `V5Fixtures.V5Args` | test/test_parser_netflow.rb:361-370 | succeeds iff the records are enumerable and all hashes; then the keys are the argument's plus `records`, every other argument is unchanged, and `records` is a list of the same length as the enumerated input (empty for an absent, falsy or empty one) whose element `i` is record `i` with its addresses converted |
| `V5Fixtures.V5ArgsRecords` | test/test_parser_netflow.rb:361-371 | after `v5_data`, record `i` exists at the same position, has the same keys, keeps every field that is not a truthy address, and has each truthy address converted |
| `V5Fixtures.ConvertRecordAddresses` | test/test_parser_netflow.rb:364-368 | the loop over the three address keys on a copied record yields exactly the converted record |
| `V5Fixtures.V5Data` | test/test_parser_netflow.rb:361-371 | the copying loop over the records computes exactly `V5Args`: the same result or the same error |

## Left out

- The NetFlow parser itself, the `Netflow5PDU` structure, `IP4Addr`, `IP6Addr`, `MacAddr`, `MplsLabel` and all v5/v9/IPFIX decoding are not part of this model. Their source is not among the modelled files. `V5Data` stops at the hash it would hand to `Netflow5PDU.new`.
- The `ipv4addr` helper builds a binary address record whose code is not part of this model. It is a parameter (`Value -> Value`), so the model cannot raise on a malformed address string.
- `ipv6addr`, `macaddr` and `mplslabel` wrap the same foreign records and are not used by the modelled builders. The `v9_template`, `v9_option` and `v9_data` helpers have empty bodies.
- The performance benchmark measures wall-clock time, uses `GC.start` and compares relative speeds. None of that is a functional property.
- `format_for_switched` wraps Ruby's `strftime` and UTC formatting, a foreign library.
- Reading the binary dump file, the Fluentd test driver and the `configure` plumbing are I/O and framework glue.
- `DEFAULT_NSEC` is a random number in `[0, 10^9)`. The model takes `nsec` as an arbitrary parameter, and the results state where they need that range.
- `DEFAULT_TIME` comes from `Time.parse` on a fixed date. The model writes out its value, 1456773240, and does not model date parsing.
- The default keyword arguments `uptime:`, `sec:` and `nsec:` are ordinary parameters in the model.
- Ruby hashes keep insertion order, but `map` does not. The key order of a merged or copied record is not modelled. Record order in the `records` list is modelled.
- Aliasing is not modelled. Hashes are values, so the `dup` copies are implicit. The property that `v5_data` leaves the caller's hash and records untouched holds by construction, not by proof.
- `V5Fixtures.Enumerate`: a non-empty hash given as `records` yields `[key, value]` pairs, and indexing a pair by a symbol raises `TypeError`. The model records the hash as the receiver of that error, not the pair.
