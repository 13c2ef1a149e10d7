/** The optional delay between outgoing packets in the IPv6 gateway's main loop. */
module Pacing {
  import opened Bytes

  // gettimeofday(2).
  datatype Time = Time(sec: nat, usec: nat)

  function Ms(t: Time): nat {
    t.sec * 1000 + t.usec / 1000
  }

  predicate NotAfter(a: Time, b: Time) {
    a.sec < b.sec || (a.sec == b.sec && a.usec <= b.usec)
  }

  predicate Proper(t: Time) {
    t.usec < 1_000_000
  }

  // Assignment of a long to an int.
  function Int32(x: int): int {
    (x + 0x8000_0000) % 0x1_0000_0000 - 0x8000_0000
  }

  // dmsec, from the stamp kept in two 32-bit fields.
  function Elapsed(now: Time, startSec: u32, startMs: u32): int {
    Int32((now.sec - startSec) * 1000 + now.usec / 1000 - startMs)
  }

  predicate Expired(now: Time, startSec: u32, startMs: u32, delay: u16) {
    Elapsed(now, startSec, startMs) < 0 || Elapsed(now, startSec, startMs) > delay
  }

  // The truncated stamp and the truncated difference cost nothing: the wait ends
  // only after more than `delay` milliseconds, and until 2^31 milliseconds have
  // passed it ends exactly then.
  lemma ExpiredMeansElapsed(stamp: Time, now: Time, delay: u16)
    requires NotAfter(stamp, now) && Proper(stamp) && Proper(now)
    ensures var e := Expired(now, stamp.sec % 0x1_0000_0000, stamp.usec / 1000, delay);
      && (e ==> Ms(now) - Ms(stamp) > delay)
      && (Ms(now) - Ms(stamp) < 0x8000_0000 ==> (e <==> Ms(now) - Ms(stamp) > delay))
  {
    var passed := Ms(now) - Ms(stamp);
    MsMonotone(stamp, now);
    Int32OfElapsed(passed, stamp.sec / 0x1_0000_0000 * 1000);
    assert (now.sec - stamp.sec % 0x1_0000_0000) * 1000 + now.usec / 1000 - stamp.usec / 1000
        == passed + stamp.sec / 0x1_0000_0000 * 1000 * 0x1_0000_0000;
  }

  lemma Int32OfElapsed(passed: nat, k: nat)
    ensures var d := Int32(passed + k * 0x1_0000_0000);
      (passed < 0x8000_0000 ==> d == passed) && (d >= 0 ==> d <= passed) && (d < 0 ==> passed >= 0x8000_0000)
  {
    ModShift(passed + 0x8000_0000, k);
  }

  lemma ModShift(x: int, k: int)
    ensures (x + k * 0x1_0000_0000) % 0x1_0000_0000 == x % 0x1_0000_0000
  {
  }

  lemma MsMonotone(a: Time, b: Time)
    requires NotAfter(a, b) && Proper(a) && Proper(b)
    ensures Ms(a) <= Ms(b)
  {
  }

  // The delay is over: none is set, or the test ends it.
  predicate Released(delay: u16, startSec: u32, startMs: u32, now: Time) {
    delay == 0 || Expired(now, startSec, startMs, delay)
  }

  ghost predicate Spaced(times: seq<Time>, gap: nat) {
    forall i :: 0 < i < |times| ==> Ms(times[i]) - Ms(times[i - 1]) > gap
  }

  class Pacer {
    const basedelay: u16
    var delaymsec: u16
    var delaystartsec: u32
    var delaystartmsec: u32
    ghost var encoded: seq<Time>  // when each TUN packet was encoded
    ghost var stamp: Time         // when the last one had been sent
    ghost var clock: Time         // the latest reading of the clock

    // Packets so far are spaced out, and the next one will be: either the stamp is
    // in force, or more than basedelay has passed since it.
    ghost predicate Valid()
      reads this
    {
      && Spaced(encoded, basedelay)
      && Proper(stamp) && Proper(clock)
      && (encoded != [] ==>
            && var last := encoded[|encoded| - 1];
            && Proper(last) && NotAfter(last, stamp) && NotAfter(stamp, clock)
            && (delaymsec == 0 ==> Ms(clock) - Ms(stamp) > basedelay)
            && (delaymsec != 0 ==>
                  && delaymsec == basedelay
                  && delaystartsec == stamp.sec % 0x1_0000_0000
                  && delaystartmsec == stamp.usec / 1000))
      && (encoded == [] ==> delaymsec == 0)
    }

    constructor (basedelay: u16)
      ensures Valid() && encoded == [] && this.basedelay == basedelay
      ensures clock == Time(0, 0)
    {
      this.basedelay := basedelay;
      delaymsec, delaystartsec, delaystartmsec := 0, 0, 0;
      encoded, stamp, clock := [], Time(0, 0), Time(0, 0);
    }

    // The test that CheckDelay is about to make.
    predicate Over(now: Time)
      reads this
    {
      Released(delaymsec, delaystartsec, delaystartmsec, now)
    }

    // The test in front of the TUN branch, with the clock at `now`.
    method CheckDelay(now: Time)
      requires Valid() && Proper(now) && NotAfter(clock, now)
      modifies this`delaymsec, this`clock
      ensures Valid() && clock == now
      ensures delaymsec == 0 || delaymsec == old(delaymsec)
      ensures delaymsec == 0 <==> old(Over(now))
      ensures encoded == [] ==> delaymsec == 0
      ensures encoded != [] && Ms(now) - Ms(stamp) < 0x8000_0000 ==>
        (delaymsec == 0 <==> old(delaymsec) == 0 || Ms(now) - Ms(stamp) > basedelay)
    {
      MsMonotone(clock, now);
      clock := now;
      if delaymsec != 0 {
        ExpiredMeansElapsed(stamp, now, delaymsec);
        var dmsec := Elapsed(now, delaystartsec, delaystartmsec);
        if dmsec < 0 {
          delaymsec := 0;
        }
        if dmsec > delaymsec {
          delaymsec := 0;
        }
      }
    }

    // A packet is encoded at `encoding` and the delay restarted at `after`.
    method MarkSent(encoding: Time, after: Time)
      requires Valid() && delaymsec == 0 && basedelay != 0
      requires Proper(encoding) && Proper(after) && NotAfter(clock, encoding) && NotAfter(encoding, after)
      modifies this
      ensures Valid() && clock == after && encoded == old(encoded) + [encoding]
    {
      MsMonotone(clock, encoding);
      MsMonotone(encoding, after);
      if encoded != [] {
        MsMonotone(encoded[|encoded| - 1], stamp);
      }
      encoded, stamp, clock := encoded + [encoding], after, after;
      delaymsec := basedelay;
      delaystartsec := after.sec % 0x1_0000_0000;
      delaystartmsec := after.usec / 1000;
    }
  }
}
