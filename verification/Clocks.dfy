/** Instants as the agent holds them. An instant read from the clock carries a
    wall and a monotonic reading; comparisons use the monotonic reading when
    both have one. What is shipped is the wall reading alone. */
module Clocks {
  import opened Wrappers

  datatype Instant = Instant(wall: int, mono: Option<int>)

  predicate Before(a: Instant, b: Instant) {
    if a.mono.Some? && b.mono.Some? then a.mono.value < b.mono.value else a.wall < b.wall
  }

  /** Round(0): the wall reading alone. */
  function Stripped(t: Instant): Instant {
    Instant(t.wall, None)
  }

  function Plus(t: Instant, d: int): Instant {
    Instant(t.wall + d, if t.mono.Some? then Some(t.mono.value + d) else None)
  }

  /** An instant read from the clock. */
  type Stamp = t: Instant | t.mono.Some? witness Instant(0, Some(0))

  const SECOND: int := 1_000_000_000

  /** A stamp at some seconds of each clock. */
  function Clock(wall: int, mono: int): Stamp {
    Instant(wall * SECOND, Some(mono * SECOND))
  }

  function Wall(t: Instant): int {
    t.wall
  }

  function Mono(t: Instant): int {
    if t.mono.Some? then t.mono.value else t.wall
  }

  function Earlier(a: Instant, b: Instant): Instant {
    if Before(b, a) then b else a
  }

  function Later(a: Instant, b: Instant): Instant {
    if Before(a, b) then b else a
  }

  /** A reading that puts two instants in the order the program does. */
  predicate Agrees(at: Instant -> int, x: Instant, y: Instant) {
    if Before(x, y) then at(x) <= at(y) else at(y) <= at(x)
  }

  ghost predicate InStep(at: Instant -> int, s: set<Instant>) {
    forall x, y :: x in s && y in s ==> Agrees(at, x, y)
  }

  lemma InStepSubset(at: Instant -> int, s: set<Instant>, t: set<Instant>)
    requires InStep(at, t) && s <= t
    ensures InStep(at, s)
  {
  }

  /** Instants that all carry a monotonic reading are in its order. */
  lemma MonoInStep(s: set<Instant>)
    requires forall t :: t in s ==> t.mono.Some?
    ensures InStep(Mono, s)
  {
  }

  /** Instants that carry none are in the order of their wall readings. */
  lemma WallInStep(s: set<Instant>)
    requires forall t :: t in s ==> t.mono.None?
    ensures InStep(Wall, s)
  {
  }
}
