/** The catalog of programmable delay cells and the records a search produces. */
module Catalog {

  /** One delay-cell configuration: its selector and its measured rise and fall delays (ps). */
  datatype DelayEntry = DelayEntry(select: string, rise: int, fall: int)

  /** One position of a chain: the arithmetic target, the entry chosen for it and how far it is off. */
  datatype Step = Step(
    targetRise: int,
    targetFall: int,
    actualRise: int,
    actualFall: int,
    select: string,
    distance: int)

  datatype Option<+T> = None | Some(value: T)

  /** A candidate entry together with its distance from the current target. */
  datatype Match = Match(entry: DelayEntry, dist: int)

  function Abs(x: int): (r: nat)
    ensures r == x || r == -x
  {
    if x < 0 then -x else x
  }

  /** Combined absolute deviation of an entry from a (rise, fall) target. */
  function Distance(e: DelayEntry, targetRise: int, targetFall: int): (d: nat)
    ensures d == 0 <==> e.rise == targetRise && e.fall == targetFall
    ensures Abs(e.rise - targetRise) <= d
  {
    Abs(e.rise - targetRise) + Abs(e.fall - targetFall)
  }
}
