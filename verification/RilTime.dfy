/** `struct timeval` arithmetic as the macros of `ril_event.cpp` do it. */
module RilTime {
  const USECS_PER_SEC := 1000000

  datatype TimeVal = TimeVal(sec: int, usec: int) {
    predicate Normal() { 0 <= usec < 1000000 }

    /** The time in microseconds, the reference that the field-wise macros are measured against. */
    function Micros(): int { sec * 1000000 + usec }
  }

  /** `timercmp(a, b, <)`. */
  predicate TimerLess(a: TimeVal, b: TimeVal) {
    if a.sec == b.sec then a.usec < b.usec else a.sec < b.sec
  }

  /** `timeradd`: at most one carry. */
  function TimerAdd(a: TimeVal, b: TimeVal): TimeVal {
    var sec, usec := a.sec + b.sec, a.usec + b.usec;
    if usec >= USECS_PER_SEC then TimeVal(sec + 1, usec - USECS_PER_SEC) else TimeVal(sec, usec)
  }

  /** `timersub`: at most one borrow. */
  function TimerSub(a: TimeVal, b: TimeVal): TimeVal {
    var sec, usec := a.sec - b.sec, a.usec - b.usec;
    if usec < 0 then TimeVal(sec - 1, usec + USECS_PER_SEC) else TimeVal(sec, usec)
  }

  /** On normal times the field-wise comparison is the comparison of microseconds. */
  lemma TimerLessIsMicros(a: TimeVal, b: TimeVal)
    requires a.Normal() && b.Normal()
    ensures TimerLess(a, b) <==> a.Micros() < b.Micros()
  {
  }

  /** One carry or borrow is enough to stay normal, and sums and differences are those of microseconds. */
  lemma TimerArithmetic(a: TimeVal, b: TimeVal)
    requires a.Normal() && b.Normal()
    ensures TimerAdd(a, b).Normal() && TimerAdd(a, b).Micros() == a.Micros() + b.Micros()
    ensures TimerSub(a, b).Normal() && TimerSub(a, b).Micros() == a.Micros() - b.Micros()
  {
  }

  /** Not being later is transitive, on all times. */
  lemma TimerOrder(a: TimeVal, b: TimeVal, c: TimeVal)
    requires !TimerLess(b, a) && !TimerLess(c, b)
    ensures !TimerLess(c, a)
  {
  }
}
