/**
 Conversion of a device-uptime millisecond stamp (a NetFlow "switched" time)
 into wall-clock time, given the export packet's uptime and its wall-clock
 export time as whole seconds plus nanoseconds.

 Two strategies are modelled: the exact one on rationals (`ByRational`) and
 the fast one on integers with a single borrow (`FromBoot`). A Ruby `Time`
 is modelled as the exact rational number of seconds it denotes (a `real`);
 `Time#to_i` and `Time#usec` become `ToI` and `Usec`.
 */
module TimeConversion {

  const MillisPerSecond: int := 1000
  const MicrosPerSecond: int := 1000000
  const NanosPerSecond: int := 1000000000

  /** Device uptime used by the test fixtures: 12 days 3 h 13 min 3.625 s, in ms. */
  const DefaultUptime: int := 1048383625

  /** Export time used by the test fixtures: 2016-02-29 11:14:00 -0800, as Unix seconds. */
  const DefaultTime: int := 1456773240

  lemma DefaultUptimeIsDuration()
    ensures DefaultUptime == (((12 * 24 + 3) * 60 + 13) * 60 + 3) * 1000 + 625
    ensures DefaultUptime / MillisPerSecond == ((12 * 24 + 3) * 60 + 13) * 60 + 3
    ensures DefaultUptime % MillisPerSecond == 625
  {
  }

  // ---------------------------------------------------------------------------
  // Ruby Time, as an exact number of seconds

  /** `Time.at(seconds, micros)`: exact, whatever the range of `micros`. */
  function At(seconds: int, micros: int): (t: real)
    ensures t * 1000000.0 == (seconds * MicrosPerSecond + micros) as real
    ensures 0 <= micros < MicrosPerSecond ==> seconds as real <= t < seconds as real + 1.0
  {
    seconds as real + micros as real / 1000000.0
  }

  /** `Time#to_i`: whole seconds, rounded toward negative infinity. */
  function ToI(t: real): (s: int)
    ensures s as real <= t < s as real + 1.0
  {
    t.Floor
  }

  /** `Time#usec`: the microseconds of the sub-second part, truncated. */
  function Usec(t: real): (u: int)
    ensures 0 <= u < MicrosPerSecond
  {
    var f := t - t.Floor as real;
    assert 0.0 <= f * 1000000.0 < 1000000.0;
    (f * 1000000.0).Floor
  }

  /** The time truncated to whole microseconds since the epoch. */
  function FloorMicros(t: real): (x: int)
    ensures x as real <= t * 1000000.0 < x as real + 1.0
  {
    (t * 1000000.0).Floor
  }

  /** Whole seconds and microseconds of a time are the quotient and remainder of
      its truncated microsecond count: times with the same `FloorMicros` have the
      same `to_i` and `usec`. */
  lemma {:induction false} SecondsAndUsecOfMicros(t: real)
    ensures ToI(t) == FloorMicros(t) / MicrosPerSecond
    ensures Usec(t) == FloorMicros(t) % MicrosPerSecond
  {
    var x := FloorMicros(t);
    var q, rem := x / MicrosPerSecond, x % MicrosPerSecond;
    assert x == q * MicrosPerSecond + rem && 0 <= rem < MicrosPerSecond;
    // t * 10^6 lies in [q * 10^6 + rem, q * 10^6 + rem + 1), inside [q * 10^6, (q + 1) * 10^6)
    assert (q * MicrosPerSecond) as real == q as real * 1000000.0;
    assert q as real * 1000000.0 <= t * 1000000.0 < (q as real + 1.0) * 1000000.0;
    assert q as real <= t < q as real + 1.0;
    assert t.Floor == q;
    var f := t - q as real;
    assert f * 1000000.0 == t * 1000000.0 - q as real * 1000000.0;
    assert rem as real <= f * 1000000.0 < rem as real + 1.0;
    assert (f * 1000000.0).Floor == rem;
  }

  /** A pair whose microseconds are already in range is read back unchanged by
      `to_i` and `usec`. */
  lemma {:induction false} AtReadsBack(seconds: int, micros: int)
    requires 0 <= micros < MicrosPerSecond
    ensures ToI(At(seconds, micros)) == seconds
    ensures Usec(At(seconds, micros)) == micros
  {
    AtMicros(seconds, micros);
    SecondsAndUsecOfMicros(At(seconds, micros));
  }

  /** `Time.at(seconds, micros)` denotes exactly `seconds * 10^6 + micros` microseconds. */
  lemma {:induction false} AtMicros(seconds: int, micros: int)
    ensures At(seconds, micros) * 1000000.0 == (seconds * MicrosPerSecond + micros) as real
    ensures FloorMicros(At(seconds, micros)) == seconds * MicrosPerSecond + micros
  {
    assert At(seconds, micros) * 1000000.0 == seconds as real * 1000000.0 + micros as real;
  }

  // ---------------------------------------------------------------------------
  // The two conversion strategies

  /** `msec_from_boot_to_time_by_rational`: the exact wall-clock time of the
      uptime stamp `msec`, that is `sec + nsec / 10^9 - (uptime - msec) / 1000`. */
  function ByRational(msec: int, uptime: int, sec: int, nsec: int): (t: real)
    ensures t * 1000000000.0 == (sec * NanosPerSecond + nsec - (uptime - msec) * 1000000) as real
  {
    var currentTime := sec as real + nsec as real / 1000000000.0;
    var diffMsec := uptime - msec;
    currentTime - diffMsec as real / 1000.0
  }

  /** The microsecond count both strategies agree on: the exact time of the stamp,
      truncated to whole microseconds. Ruby's `/` and `%` round toward negative
      infinity; with the positive divisor 1000 they coincide with Dafny's. */
  function TotalMicros(msec: int, uptime: int, sec: int, nsec: int): (x: int)
    ensures x == FloorMicros(ByRational(msec, uptime, sec, nsec))
  {
    var t := ByRational(msec, uptime, sec, nsec);
    var x := sec * MicrosPerSecond + nsec / 1000 - (uptime - msec) * 1000;
    var n := sec * NanosPerSecond + nsec - (uptime - msec) * 1000000;
    assert n == x * 1000 + nsec % 1000;
    assert t * 1000000.0 * 1000.0 == n as real;
    assert x as real * 1000.0 <= n as real < (x as real + 1.0) * 1000.0;
    assert x as real <= t * 1000000.0 < x as real + 1.0;
    x
  }

  /** `msec_from_boot_to_time`: the same conversion on integers. The remainder of
      the elapsed milliseconds is taken off the microseconds, and when that goes
      negative one second is borrowed. The result is the pair passed to
      `Time.at(seconds, micros)`. */
  method FromBoot(msec: int, uptime: int, sec: int, nsec: int) returns (seconds: int, micros: int)
    // no microsecond is lost or gained
    ensures seconds * MicrosPerSecond + micros == TotalMicros(msec, uptime, sec, nsec)
    // the borrow fires exactly when the sub-second nanoseconds cannot pay the milliseconds' remainder
    ensures seconds == sec - (uptime - msec) / 1000
                       - (if nsec / 1000 < ((uptime - msec) % 1000) * 1000 then 1 else 0)
    // for an in-range nanosecond field one borrow is always enough
    ensures 0 <= nsec < NanosPerSecond ==> 0 <= micros < MicrosPerSecond
    // both strategies give the same Time#to_i and Time#usec
    ensures ToI(At(seconds, micros)) == ToI(ByRational(msec, uptime, sec, nsec))
    ensures Usec(At(seconds, micros)) == Usec(ByRational(msec, uptime, sec, nsec))
    // and then the pair itself is the exact time's whole seconds and microseconds
    ensures 0 <= nsec < NanosPerSecond ==>
              seconds == ToI(ByRational(msec, uptime, sec, nsec)) &&
              micros == Usec(ByRational(msec, uptime, sec, nsec))
  {
    var millis := uptime - msec;
    seconds := sec - (millis / 1000);
    micros := (nsec / 1000) - ((millis % 1000) * 1000);
    if micros < 0 {
      seconds := seconds - 1;
      micros := micros + 1000000;
    }
    assert millis == (millis / 1000) * 1000 + millis % 1000;
    var exact := ByRational(msec, uptime, sec, nsec);
    AtMicros(seconds, micros);
    SecondsAndUsecOfMicros(At(seconds, micros));
    SecondsAndUsecOfMicros(exact);
    if 0 <= nsec < NanosPerSecond {
      AtReadsBack(seconds, micros);
    }
  }

  // ---------------------------------------------------------------------------
  // Ordering of converted stamps

  /** A later uptime stamp is never converted to an earlier time: the exact
      time advances by exactly the elapsed milliseconds. */
  lemma ByRationalMonotone(msec1: int, msec2: int, uptime: int, sec: int, nsec: int)
    requires msec1 <= msec2
    ensures ByRational(msec1, uptime, sec, nsec) <= ByRational(msec2, uptime, sec, nsec)
    ensures ByRational(msec2, uptime, sec, nsec) - ByRational(msec1, uptime, sec, nsec)
            == (msec2 - msec1) as real / 1000.0
  {
  }

  /** For two results of `FromBoot` from the same packet header, a later stamp
      gives a pair that is not earlier in (seconds, micros) order, and a stamp
      `d` milliseconds later is exactly `d * 1000` microseconds later. */
  lemma {:induction false} FromBootMonotone(msec1: int, msec2: int, uptime: int, sec: int, nsec: int,
                                           s1: int, us1: int, s2: int, us2: int)
    requires msec1 <= msec2
    requires 0 <= us1 < MicrosPerSecond && s1 * MicrosPerSecond + us1 == TotalMicros(msec1, uptime, sec, nsec)
    requires 0 <= us2 < MicrosPerSecond && s2 * MicrosPerSecond + us2 == TotalMicros(msec2, uptime, sec, nsec)
    ensures s1 < s2 || (s1 == s2 && us1 <= us2)
    ensures (s2 * MicrosPerSecond + us2) - (s1 * MicrosPerSecond + us1) == (msec2 - msec1) * 1000
    ensures At(s1, us1) <= At(s2, us2)
  {
    var x1, x2 := s1 * MicrosPerSecond + us1, s2 * MicrosPerSecond + us2;
    assert x1 <= x2;
    assert s1 == x1 / MicrosPerSecond && s2 == x2 / MicrosPerSecond;
    DivMonotone(x1, x2);
    AtMicros(s1, us1);
    AtMicros(s2, us2);
  }

  lemma {:induction false} DivMonotone(x1: int, x2: int)
    requires x1 <= x2
    ensures x1 / MicrosPerSecond <= x2 / MicrosPerSecond
    ensures x1 / MicrosPerSecond == x2 / MicrosPerSecond ==> x1 % MicrosPerSecond <= x2 % MicrosPerSecond
  {
    var q1, q2 := x1 / MicrosPerSecond, x2 / MicrosPerSecond;
    assert x1 == q1 * MicrosPerSecond + x1 % MicrosPerSecond;
    assert x2 == q2 * MicrosPerSecond + x2 % MicrosPerSecond;
  }

  // ---------------------------------------------------------------------------
  // The fixtures of the v5 record

  /** The default v5 record's `first_switched` (13 s before export) converts to
      exactly 13 s before the export time, with no borrow; its `last_switched`
      (50 ms later) borrows exactly when the export nanoseconds are below
      0.95 s, and is 50 ms after `first_switched` either way. */
  lemma DefaultSwitchedTimes(sec: int, nsec: int)
    requires 0 <= nsec < NanosPerSecond
    ensures TotalMicros(DefaultUptime - 13000, DefaultUptime, sec, nsec)
            == (sec - 13) * MicrosPerSecond + nsec / 1000
    ensures TotalMicros(DefaultUptime - 12950, DefaultUptime, sec, nsec)
            == TotalMicros(DefaultUptime - 13000, DefaultUptime, sec, nsec) + 50000
    ensures !(nsec / 1000 < ((DefaultUptime - (DefaultUptime - 13000)) % 1000) * 1000)
    ensures nsec / 1000 < ((DefaultUptime - (DefaultUptime - 12950)) % 1000) * 1000 <==> nsec < 950000000
  {
  }

  /** The test case of the conversion: the stamp 300 ms after boot under the
      fixtures' uptime and export time is 1048383 s (plus one when the 325 ms
      remainder needs a borrow) before the export time, and its microseconds
      are those of the export time shifted back by that remainder. */
  lemma ConversionTestCase(nsec: int)
    requires 0 <= nsec < NanosPerSecond
    ensures var exact := ByRational(300, DefaultUptime, DefaultTime, nsec);
            var borrow := nsec < 325000000;
            ToI(exact) == DefaultTime - 1048383 - (if borrow then 1 else 0) &&
            Usec(exact) == nsec / 1000 - 325000 + (if borrow then MicrosPerSecond else 0)
  {
    var exact := ByRational(300, DefaultUptime, DefaultTime, nsec);
    SecondsAndUsecOfMicros(exact);
    var x := TotalMicros(300, DefaultUptime, DefaultTime, nsec);
    var borrow := nsec < 325000000;
    var s := DefaultTime - 1048383 - (if borrow then 1 else 0);
    var us := nsec / 1000 - 325000 + (if borrow then MicrosPerSecond else 0);
    assert x == s * MicrosPerSecond + us && 0 <= us < MicrosPerSecond;
  }
}
