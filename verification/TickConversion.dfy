/** Microseconds to kernel ticks: the two-multiplication form against the exact quotient. */
module TickConversion {
  import opened Bytes

  const MEGA := 1_000_000

  // os_tickus_i and os_tickus_f, the whole and 1/65536 parts of ticks per microsecond.
  function TickusI(clock: u32): (i: nat)
    ensures i < 0x1_0000
  {
    clock / MEGA
  }

  function TickusF(clock: u32): (f: nat)
    ensures f < 0x1_0000
  {
    (clock - MEGA * (clock / MEGA)) * 0x1_0000 / MEGA
  }

  // The macro in 32-bit arithmetic, from its two products.
  function Combine(whole: nat, part: nat): u32 {
    (whole % 0x1_0000_0000 + part % 0x1_0000_0000 / 0x1_0000) % 0x1_0000_0000
  }

  function Fast(us: u32, clock: u32): u32 {
    Combine(us * TickusI(clock), us * TickusF(clock))
  }

  // The 64-bit form it replaces.
  function Exact(us: u32, clock: u32): nat {
    us * clock / MEGA
  }

  predicate Fits32(whole: nat, part: nat) {
    part < 0x1_0000_0000 && whole + part / 0x1_0000 < 0x1_0000_0000
  }

  // No intermediate result of the macro exceeds 32 bits.
  predicate NoWrap(us: u32, clock: u32) {
    Fits32(us * TickusI(clock), us * TickusF(clock))
  }

  // Never ahead, and behind by at most one tick plus one for every 65536 microseconds.
  predicate Close(fast: nat, exact: nat, us: u32) {
    fast <= exact <= fast + us / 0x1_0000 + 1
  }

  lemma ExactSplits(us: u32, clock: u32)
    ensures Exact(us, clock) == us * TickusI(clock) + us * (clock % MEGA) / MEGA
  {
    var i, r := clock / MEGA, clock % MEGA;
    assert us * clock == us * r + MEGA * (us * i) by {
      assert clock == MEGA * i + r;
      assert us * (MEGA * i) == MEGA * (us * i);
    }
    assert (us * r + MEGA * (us * i)) / MEGA == us * r / MEGA + us * i;
  }

  lemma MulMonotone(k: nat, x: int, y: int)
    requires x <= y
    ensures k * x <= k * y
  {
  }

  // exact/10^6 rounded down to part/65536, with an error below us/65536.
  predicate Scaled(part: nat, exact: nat, us: nat) {
    part * MEGA <= exact * 0x1_0000 <= (part + us) * MEGA
  }

  // The fraction f of r/10^6 is rounded down by less than one part in 65536.
  lemma ScaledFraction(us: nat, f: nat, r: nat)
    requires f * MEGA <= r * 0x1_0000 <= (f + 1) * MEGA
    ensures Scaled(us * f, us * r, us)
  {
    MulMonotone(us, f * MEGA, r * 0x1_0000);
    MulMonotone(us, r * 0x1_0000, (f + 1) * MEGA);
    assert us * (f * MEGA) == us * f * MEGA && us * (r * 0x1_0000) == us * r * 0x1_0000;
    assert us * ((f + 1) * MEGA) == (us * f + us) * MEGA;
  }

  lemma FloorsAreClose(exact: nat, part: nat, us: nat)
    requires Scaled(part, exact, us)
    ensures part / 0x1_0000 <= exact / MEGA <= part / 0x1_0000 + us / 0x1_0000 + 1
  {
    var q1, q2 := exact / MEGA, part / 0x1_0000;
    assert q1 * MEGA <= exact < (q1 + 1) * MEGA;
    assert q2 * 0x1_0000 <= part < (q2 + 1) * 0x1_0000;
  }

  lemma CombineIsClose(whole: nat, part: nat, exact: nat, us: u32)
    requires Scaled(part, exact, us) && Fits32(whole, part)
    ensures Close(Combine(whole, part), whole + exact / MEGA, us)
  {
    FloorsAreClose(exact, part, us);
  }

  // The macro is Close to the exact value exactly as long as nothing exceeds 32 bits.
  lemma FastIsCloseIff(us: u32, clock: u32)
    ensures Close(Fast(us, clock), Exact(us, clock), us) <==> NoWrap(us, clock)
  {
    ExactSplits(us, clock);
    FractionOfClock(clock);
    FractionCloseIff(us, us * TickusI(clock), TickusF(clock), clock % MEGA);
  }

  lemma FractionOfClock(clock: u32)
    ensures var f, r := TickusF(clock), clock % MEGA; f * MEGA <= r * 0x1_0000 <= (f + 1) * MEGA
  {
  }

  lemma FractionCloseIff(us: u32, whole: nat, f: nat, r: nat)
    requires f * MEGA <= r * 0x1_0000 <= (f + 1) * MEGA
    ensures Close(Combine(whole, us * f), whole + us * r / MEGA, us) <==> Fits32(whole, us * f)
  {
    ScaledFraction(us, f, r);
    FractionWraps(us, f, r, us * f, us * r);
    CombineIsCloseIff(whole, us * f, us * r, us);
  }

  // What a wrapped fractional product takes away is more than the allowance.
  predicate Lost(part: nat, exact: nat, us: nat) {
    exact / MEGA > part / 0x1_0000 - 0x1_0000 * (part / 0x1_0000_0000) + us / 0x1_0000 + 1
  }

  lemma CombineIsCloseIff(whole: nat, part: nat, exact: nat, us: u32)
    requires Scaled(part, exact, us) && (part >= 0x1_0000_0000 ==> Lost(part, exact, us))
    ensures Close(Combine(whole, part), whole + exact / MEGA, us) <==> Fits32(whole, part)
  {
    if Fits32(whole, part) {
      CombineIsClose(whole, part, exact, us);
    } else {
      FloorsAreClose(exact, part, us);
      CombineLags(whole, part);
    }
  }

  // What wrapping takes away.
  lemma CombineLags(whole: nat, part: nat)
    ensures Combine(whole, part) + 0x1_0000 * (part / 0x1_0000_0000) <= whole + part / 0x1_0000
    ensures whole + part / 0x1_0000 >= 0x1_0000_0000 && part < 0x1_0000_0000 ==>
      Combine(whole, part) + 0x1_0000_0000 <= whole + part / 0x1_0000
  {
    var wraps := part / 0x1_0000_0000;
    LowPart(part);
    var low := part % 0x1_0000_0000 / 0x1_0000;
    assert whole % 0x1_0000_0000 <= whole;
    assert Combine(whole, part) <= whole % 0x1_0000_0000 + low;
  }

  lemma LowPart(part: nat)
    ensures part % 0x1_0000_0000 / 0x1_0000 == part / 0x1_0000 - 0x1_0000 * (part / 0x1_0000_0000)
  {
    var wraps, low := part / 0x1_0000_0000, part % 0x1_0000_0000;
    assert part == 0x1_0000 * (0x1_0000 * wraps) + low;
  }

  lemma FractionWraps(us: u32, f: nat, r: nat, part: nat, exact: nat)
    requires part == us * f && exact == us * r && f * MEGA <= r * 0x1_0000 && Scaled(part, exact, us)
    ensures part >= 0x1_0000_0000 ==> Lost(part, exact, us)
  {
    FloorsAreClose(exact, part, us);
    if us >= 0xFFFF_0000 {
      if f <= 1 {
        MulMonotone(us, f, 1);
      } else if f == 2 {
        MulMonotone(us, 31, r);
        DoubleStep(us, exact);
      } else {
        MulMonotone(us, 3, f);
      }
    }
  }

  // A fraction of 2/65536 stands for at least 31 parts in a million.
  lemma DoubleStep(us: u32, exact: nat)
    requires us >= 0xFFFF_0000 && exact >= us * 31
    ensures exact / MEGA > us * 2 / 0x1_0000
  {
    var q := us * 2 / 0x1_0000;
    assert (q + 1) * MEGA <= us * 31;
  }

  // For a clock of whole megahertz the macro is exact precisely as long as the
  // product fits 32 bits.
  lemma ExactForWholeMegahertz(us: u32, clock: u32)
    requires clock % MEGA == 0
    ensures Fast(us, clock) == Exact(us, clock) <==> us * TickusI(clock) < 0x1_0000_0000
  {
    assert TickusF(clock) == 0;
    ExactSplits(us, clock);
  }

  // The first product that does not fit at 72 MHz: 59.652324 seconds come out as 32
  // ticks.
  lemma WrapsAtOneMinute()
    ensures Fast(59_652_324, 72 * MEGA) == 32 && Exact(59_652_324, 72 * MEGA) == 4_294_967_328
  {
    ExactSplits(59_652_324, 72 * MEGA);
  }
}
