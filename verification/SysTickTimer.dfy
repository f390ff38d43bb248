/** The SysTick down-counter (ARMv7-M section B3.3) and how often it fires after SysTick_Config. */
module SysTickTimer {
  import opened CInt

  const RELOAD_MASK: uint32 := 0xFF_FFFF
  const ENABLE: uint32 := 1
  const TICKINT: uint32 := 2
  const CLKSOURCE: uint32 := 4

  datatype Timer = Timer(load: uint32, val: uint32, ctrl: uint32)

  /** One processor clock, which drives the counter if ENABLE (bit 0) and CLKSOURCE (bit 2) are set: from 0 it
      reloads, otherwise it counts down. */
  function Clock(t: Timer): Timer {
    if t.ctrl % 2 == 0 || t.ctrl / 4 % 2 == 0 then t
    else t.(val := if t.val == 0 then t.load else t.val - 1)
  }

  /** The clock on which the counter goes from 1 to 0 pends the exception, if TICKINT is set. */
  function Fires(t: Timer): nat {
    if t.ctrl % 2 == 1 && t.ctrl / 2 % 2 == 1 && t.val == 1 then 1 else 0
  }

  function After(t: Timer, n: nat): Timer {
    if n == 0 then t else Clock(After(t, n - 1))
  }

  /** How often the exception is pended in the first `n` clocks. */
  function Fired(t: Timer, n: nat): nat {
    if n == 0 then 0 else Fired(t, n - 1) + Fires(After(t, n - 1))
  }

  /** The check of SysTick_Config, on the wrapping uint32 difference. */
  predicate Accepts(ticks: uint32) {
    U32(ticks - 1) <= RELOAD_MASK
  }

  /** Exactly the values 1 .. 2^24 are accepted: 0 wraps to a huge reload value. */
  lemma AcceptsIff(ticks: uint32)
    ensures Accepts(ticks) <==> 1 <= ticks <= 0x100_0000
  {
  }

  /** The timer as SysTick_Config leaves it. */
  function Configured(ticks: uint32): Timer
    requires Accepts(ticks)
  {
    Timer(U32(ticks - 1), 0, CLKSOURCE + TICKINT + ENABLE)
  }

  /** Position in the period after n clocks: the counter value follows it, and so does the count. */
  lemma {:induction false} CounterAfter(ticks: uint32, n: nat)
    requires 2 <= ticks <= 0x100_0000
    ensures After(Configured(ticks), n)
         == Configured(ticks).(val := if n % ticks == 0 then 0 else ticks - n % ticks)
    ensures Fired(Configured(ticks), n) == n / ticks
  {
    if n > 0 {
      CounterAfter(ticks, n - 1);
      NextInPeriod(n - 1, ticks);
    } else {
      FloorIs(0, ticks, 0);
    }
  }

  lemma NextInPeriod(n: nat, d: int)
    requires d >= 2
    ensures if n % d == d - 1 then (n + 1) % d == 0 && (n + 1) / d == n / d + 1
            else (n + 1) % d == n % d + 1 && (n + 1) / d == n / d
  {
    var q, r := n / d, n % d;
    assert n == d * q + r;
    if r == d - 1 {
      assert n + 1 == d * (q + 1);
      assert d * (q + 2) == d * (q + 1) + d;
      FloorIs(n + 1, d, q + 1);
    } else {
      assert d * (q + 1) == d * q + d;
      FloorIs(n + 1, d, q);
    }
  }

  /** A reload value of 0 stops the counter: it never fires. */
  lemma {:induction false} OneTickNeverFires(n: nat)
    ensures After(Configured(1), n) == Configured(1) && Fired(Configured(1), n) == 0
  {
    if n > 0 {
      OneTickNeverFires(n - 1);
    }
  }

  /** An accepted configuration is periodic, firing once every `ticks` clocks for ever, if and only if
      ticks >= 2; ticks = 1 is accepted but never fires. */
  lemma PeriodicIff(ticks: uint32)
    requires Accepts(ticks)
    ensures (forall n: nat :: Fired(Configured(ticks), n) == n / ticks) <==> ticks >= 2
  {
    AcceptsIff(ticks);
    if ticks >= 2 {
      forall n: nat
        ensures Fired(Configured(ticks), n) == n / ticks
      {
        CounterAfter(ticks, n);
      }
    } else {
      OneTickNeverFires(1);
      assert Fired(Configured(ticks), 1) != 1 / ticks;
    }
  }
}
