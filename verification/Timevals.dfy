/** The struct timeval arithmetic of ril/libril/ril_event.cpp, on normalised values. */
module Timevals {

  const USECS_PER_SEC := 1_000_000

  datatype Timeval = Timeval(sec: int, usec: int)
  {
    predicate Normalised() {
      0 <= usec < USECS_PER_SEC
    }

    ghost function Micros(): int {
      sec * USECS_PER_SEC + usec
    }
  }

  function TimerAdd(a: Timeval, b: Timeval): Timeval {
    var (sec, usec) := (a.sec + b.sec, a.usec + b.usec);
    if usec >= USECS_PER_SEC then Timeval(sec + 1, usec - USECS_PER_SEC) else Timeval(sec, usec)
  }

  function TimerSub(a: Timeval, b: Timeval): Timeval {
    var (sec, usec) := (a.sec - b.sec, a.usec - b.usec);
    if usec < 0 then Timeval(sec - 1, usec + USECS_PER_SEC) else Timeval(sec, usec)
  }

  predicate TimerLess(a: Timeval, b: Timeval) {
    if a.sec == b.sec then a.usec < b.usec else a.sec < b.sec
  }

  /** On normalised values the three macros are addition, subtraction and order on microseconds. */
  lemma TimevalArithmetic(a: Timeval, b: Timeval)
    requires a.Normalised() && b.Normalised()
    ensures TimerAdd(a, b).Normalised() && TimerAdd(a, b).Micros() == a.Micros() + b.Micros()
    ensures TimerSub(a, b).Normalised() && TimerSub(a, b).Micros() == a.Micros() - b.Micros()
    ensures TimerLess(a, b) <==> a.Micros() < b.Micros()
  {
  }
}
