/** Relative and absolute timeouts over a clock reading (mnet/mn_timeout.c). */
module Timeouts {
  datatype Timeout = Timeout(block: real, total: real, start: real)

  function Init(block: real, total: real): Timeout {
    Timeout(block, total, 0.0)
  }

  function MarkStart(t: Timeout, now: real): Timeout {
    t.(start := now)
  }

  function Max(x: real, y: real): real {
    if x > y then x else y
  }

  function Min(x: real, y: real): real {
    if x < y then x else y
  }

  // The time left at the reading now; -1 for no limit.
  function Get(t: Timeout, now: real): real {
    if t.block < 0.0 && t.total < 0.0 then -1.0
    else if t.block < 0.0 then Max(t.total - now + t.start, 0.0)
    else if t.total < 0.0 then t.block
    else Min(t.block, Max(t.total - now + t.start, 0.0))
  }

  /**
   * When a timeout reads as expired: never without limits; by its block value alone when only that is set;
   * otherwise from start + total on, or at once with a zero block value.
   */
  lemma ExpiredIff(t: Timeout, now: real)
    ensures Get(t, now) == 0.0 <==>
              if t.total < 0.0 then t.block == 0.0
              else t.block == 0.0 || t.start + t.total <= now
  {
  }

  /** A relative timeout marked at a reading expires exactly total seconds later, and stays expired. */
  lemma MarkedTimeoutExpires(total: real, marked: real, now: real)
    requires total >= 0.0
    ensures Get(MarkStart(Init(-1.0, total), marked), now) == 0.0 <==> now >= marked + total
  {
  }
}
