/**
 * The read deadline of src/irda.c: the handle's millisecond timeout turned
 * into the `struct timeval` handed to `select`, or no deadline at all (a
 * NULL pointer) when the timeout is negative.
 */
module Timeval {
  import opened Types

  datatype Timeval = Timeval(sec: int, usec: int)

  /** The whole milliseconds a timeval stands for. */
  function Millis(tv: Timeval): int
  {
    tv.sec * 1000 + tv.usec / 1000
  }

  /**
   * `tv_sec = timeout / 1000` and `tv_usec = (timeout % 1000) * 1000` when
   * `timeout >= 0`. The division only ever sees non-negative operands, so C's
   * truncating operators and Dafny's Euclidean ones agree here.
   */
  function Deadline(timeout: int): (d: Option<Timeval>)
    ensures d.None? <==> timeout < 0
    ensures d.Some? ==> 0 <= d.value.sec && 0 <= d.value.usec < 1_000_000
    ensures d.Some? ==> d.value.usec % 1000 == 0 && Millis(d.value) == timeout
  {
    if timeout >= 0 then Some(Timeval(timeout / 1000, (timeout % 1000) * 1000)) else None
  }

  /** Different non-negative timeouts give different deadlines. */
  lemma DeadlineInjective(t1: int, t2: int)
    requires Deadline(t1) == Deadline(t2)
    ensures t1 == t2 || (t1 < 0 && t2 < 0)
  {
  }
}
