/** Window rotation: where a closing window ends and the next one starts,
    whatever the wall clock did while it was open. */
module Rotation {
  import opened Wrappers
  import opened Clocks
  import opened Aggregation
  import opened GapAlgebra
  import opened GapBooks
  import GapLog

  function StepTolerance(elapsed: nat): int {
    SECOND + elapsed / 2000
  }

  datatype Bounds = Bounds(end: Instant, next: Instant, step: int)

  /** From the window's start, the clock now and the window's length on the
      monotonic clock; step is not zero when the window is cut. */
  function CloseBounds(start: Instant, now: Instant, elapsed: nat): Bounds {
    var wall := now.wall - start.wall;
    var d := wall - elapsed;
    if d < -StepTolerance(elapsed) then Bounds(Plus(start, elapsed), now, d)
    else if wall < 0 then Bounds(start, start, 0)
    else Bounds(now, now, 0)
  }

  /** What every closed window must be, by its two bounds, where the next one
      starts, the clock and its length on the monotonic clock: it is cut when the
      wall clock fell short of that length by more than a second and 500 parts per
      million, and else ends at the clock unless that reads before its start. */
  predicate Proper(start: Instant, end: Instant, next: Instant, now: Instant, elapsed: nat, cut: bool) {
    && start.wall <= end.wall
    && 2000 * (end.wall - start.wall) >= 1999 * elapsed - 2_000_000_000_000
    && (cut <==> now.wall - start.wall < elapsed - (1_000_000_000 + elapsed / 2000))
    && (cut ==> end.wall == start.wall + elapsed && (start.mono.Some? ==> end.mono == Some(start.mono.value + elapsed)))
    && (cut ==> end == Plus(start, elapsed) && next == now && now.wall < end.wall)
    && (!cut ==>
      next == end && (end == now || (end == start && now.wall < start.wall && 1999 * elapsed < 2_000_000_000_000)))
  }

  lemma BoundsProper(start: Instant, now: Instant, elapsed: nat)
    ensures var b := CloseBounds(start, now, elapsed); Proper(start, b.end, b.next, now, elapsed, b.step != 0)
    ensures CloseBounds(start, now, elapsed).step != 0 ==>
        CloseBounds(start, now, elapsed).step == now.wall - start.wall - elapsed
  {
  }

  /** A rotation reads the clock, and the time since the collector started on
      the monotonic clock. */
  datatype Reading = Reading(now: Instant, at: int)

  ghost predicate Forward(rs: seq<Reading>) {
    forall i, j :: 0 <= i < j < |rs| ==> rs[i].at <= rs[j].at
  }

  /** Where the window opened at a reading starts: the first at the clock, each
      other where its predecessor left it. */
  ghost function StartOf(rs: seq<Reading>, k: nat): Instant
    requires k < |rs| && Forward(rs)
  {
    if k == 0 then rs[0].now
    else CloseBounds(StartOf(rs, k - 1), rs[k].now, rs[k].at - rs[k - 1].at).next
  }

  ghost function EndOf(rs: seq<Reading>, k: nat): Bounds
    requires k + 1 < |rs| && Forward(rs)
  {
    CloseBounds(StartOf(rs, k), rs[k + 1].now, rs[k + 1].at - rs[k].at)
  }

  /** Whatever the wall clock does, each window of any run ends no earlier
      than it starts, is at most a tolerance shorter than it was open and
      exactly that long when cut, and meets the next unless it was cut. */
  lemma EveryWindowProper(rs: seq<Reading>, k: nat)
    requires k + 1 < |rs| && Forward(rs)
    ensures var b := EndOf(rs, k);
            && Proper(StartOf(rs, k), b.end, b.next, rs[k + 1].now, rs[k + 1].at - rs[k].at, b.step != 0)
            && StartOf(rs, k + 1) == b.next
  {
    BoundsProper(StartOf(rs, k), rs[k + 1].now, rs[k + 1].at - rs[k].at);
  }

  /** A clock that only slews, moving the wall clock within the tolerance of
      each window, never cuts one: the windows tile the whole run. */
  lemma {:induction false} SteadyClockTiles(rs: seq<Reading>, k: nat)
    requires k < |rs| && Forward(rs)
    requires forall i :: 0 <= i < k ==> rs[i].now.wall <= rs[i + 1].now.wall
    requires forall i :: 0 <= i < k ==>
      var elapsed := rs[i + 1].at - rs[i].at;
      rs[i + 1].now.wall - rs[i].now.wall >= elapsed - (1_000_000_000 + elapsed / 2000)
    ensures StartOf(rs, k) == rs[k].now
    ensures forall i :: 0 <= i < k ==> EndOf(rs, i) == Bounds(StartOf(rs, i + 1), StartOf(rs, i + 1), 0)
  {
    if k > 0 {
      SteadyClockTiles(rs, k - 1);
    }
  }

  class Collector {
    const agg: Aggregator
    var openedAt: int

    constructor (agg: Aggregator, openedAt: int)
      ensures this.agg == agg && this.openedAt == openedAt
    {
      this.agg, this.openedAt := agg, openedAt;
    }

    /** Closes the open window at a reading of the clocks. Its bounds are in
        order, so the control plane never refuses it for them. A loss still
        under way is recorded as far as the window runs, then what the window
        dropped; the order the open intervals are cut in is not determined. */
    method CloseWindow(now: Instant, at: int) returns (w: Window, ghost order: seq<string>)
      requires at >= openedAt
      modifies this, agg, agg.gaps
      ensures openedAt == at
      ensures var b := CloseBounds(old(agg.start), now, at - old(openedAt));
              && w.start == old(agg.start) && w.end == b.end && agg.start == b.next
              && ListsRecords(w.records, old(agg.View()), w.start, w.end, b.step != 0)
              && Proper(w.start, w.end, agg.start, now, at - old(openedAt), b.step != 0)
              && (agg.gaps != null ==>
                  && (set s | s in order) == old(agg.gaps.open).Keys && GapLog.Once(order)
                  && var cut := GapLog.Do(old(agg.gaps.View()), GapLog.Op.CutOpen(w.end, order), agg.gaps.Capacity());
                     agg.gaps.View() == Overflowed(cut, OverflowOf(old(agg.View()), w.start, w.end, b.step != 0),
                       agg.gaps.Capacity()))
    {
      hide ListsRecords, GapLog.Do, Overflowed, GapLog.Once;
      var start := agg.start;
      var b := CloseBounds(start, now, at - openedAt);
      BoundsProper(start, now, at - openedAt);
      openedAt := at;
      order := [];
      if agg.gaps != null {
        order := agg.gaps.CutOpen(b.end);
      }
      if b.step == 0 {
        w := agg.Close(b.end);
      } else {
        w := agg.Cut(b.end, b.next);
      }
    }
  }

  // ----- The records of a cut window -----

  /** The control plane refuses a record last seen before it was first seen. */
  predicate Refused(r: FlowRecord) {
    r.last < r.first
  }

  /** Every instant of a cut window's record lies within the bounds, and the
      record is taken exactly when the wall readings f of its earliest stamp and
      l of its latest satisfy f <= start, l >= end or f <= l, or the window has
      no length. */
  lemma CutRecordTakenIff(obs: seq<Observation>, maxKeys: nat, start: Instant, now: Instant, elapsed: nat,
      rs: seq<FlowRecord>, i: nat)
    requires var b := CloseBounds(start, now, elapsed);
             b.step != 0 && ListsRecords(rs, AddAll(obs, maxKeys), start, b.end, true)
    requires i < |rs|
    ensures exists e, l ::
              var of, end := Of(obs, rs[i].key), start.wall + elapsed;
              && 0 <= e < |of| && EarliestAt(of, e) && 0 <= l < |of| && LatestAt(of, l)
              && start.wall <= rs[i].first <= end && start.wall <= rs[i].last <= end
              && (!Refused(rs[i]) <==>
                  of[e].at.wall <= start.wall || of[l].at.wall >= end || of[e].at.wall <= of[l].at.wall || elapsed == 0)
  {
    hide ListsRecords, Of, EarliestAt, LatestAt, AddAll;
    BoundsProper(start, now, elapsed);
    RecordInOrderIff(obs, maxKeys, rs, start, CloseBounds(start, now, elapsed).end, true, i);
  }

  function Seen(k: Key, at: Stamp): Observation {
    Observation(at, k, 1, 0, "")
  }

  lemma TwiceSeen(k: Key, a: Stamp, b: Stamp, maxKeys: nat)
    requires maxKeys > 0 && Before(a, b)
    ensures AddAll([Seen(k, a), Seen(k, b)], maxKeys).records == map[k := Tally(2, 0, a, b, "")]
  {
    var x, y := Seen(k, a), Seen(k, b);
    assert [x, y][..1] == [x] && [x][..0] == [];
    var w := AddAll([x], maxKeys);
    assert w == AddTo(AddAll([], maxKeys), x, maxKeys);
    assert AddAll([], maxKeys).records == map[];
    assert w.records == map[k := Tally(1, 0, a, a, "")];
    assert AddAll([x, y], maxKeys) == AddTo(w, y, maxKeys);
  }

  lemma OneRecord(rs: seq<FlowRecord>, w: Open, k: Key, t: Tally, start: Instant, end: Instant)
    requires ListsRecords(rs, w, start, end, true) && w.records == map[k := t]
    ensures rs == [RecordOf(k, t, start, end, true)]
  {
    hide KeyLess, RecordOf;
    assert |w.records| == 1;
    assert rs == [rs[0]] && rs[0].key == k;
  }

  /** A key seen before and after the wall clock is set back by a minute: the
      window is cut, and its record ships first seen 100 and last seen 95, which
      the control plane refuses. */
  lemma StepBackInvertsRecord(k: Key, maxKeys: nat, rs: seq<FlowRecord>)
    requires maxKeys > 0
    requires ListsRecords(rs, AddAll([Seen(k, Clock(100, 5)), Seen(k, Clock(40, 15))], maxKeys), Clock(95, 0),
        Clock(115, 20), true)
    ensures CloseBounds(Clock(95, 0), Clock(45, 20), 20 * SECOND) == Bounds(Clock(115, 20), Clock(45, 20), -70 * SECOND)
    ensures rs == [FlowRecord(k, 2, 0, 100 * SECOND, 95 * SECOND, "")] && Refused(rs[0])
  {
    hide ListsRecords, AddAll;
    TwiceSeen(k, Clock(100, 5), Clock(40, 15), maxKeys);
    OneRecord(rs, AddAll([Seen(k, Clock(100, 5)), Seen(k, Clock(40, 15))], maxKeys), k,
              Tally(2, 0, Clock(100, 5), Clock(40, 15), ""), Clock(95, 0), Clock(115, 20));
  }

  /** A window that dropped observations is cut at a step back, and so is the
      start of its loss stripped of the monotonic reading; the next window
      overflows too. The two losses are compared on the wall clock, merge, and
      what is held covers the first on neither clock: it ends at 135, before the
      first loss did, and starts at 40 where the drop was at 25. */
  lemma CutOverflowUncovers(records: map<Key, Tally>, n: nat, m: nat)
    requires n > 0 && m > 0
    ensures CloseBounds(Clock(120, 20), Clock(75, 40), 20 * SECOND)
        == Bounds(Clock(140, 40), Clock(75, 40), -65 * SECOND)
    ensures CloseBounds(Clock(75, 40), Clock(135, 100), 60 * SECOND) == Bounds(Clock(135, 100), Clock(135, 100), 0)
    ensures var first := OverflowOf(Open(records, n, Clock(130, 25)), Clock(120, 20), Clock(140, 40), true);
            var second := OverflowOf(Open(records, m, Clock(75, 40)), Clock(75, 40), Clock(135, 100), false);
            var held := GapLog.AddAll([], first + second, GapLog.DEFAULT_GAP_CAPACITY);
            && held == [Gap(WindowOverflow, "", Clock(75, 40), Clock(135, 100), n + m, true)]
            && !Covered(Wall, held, first[0])
            && Mono(Clock(130, 25)) < Mono(held[0].from)
  {
    hide GapLog.AddAll;
    var a := Gap(WindowOverflow, "", Stripped(Clock(130, 25)), Clock(140, 40), n, true);
    var b := Gap(WindowOverflow, "", Clock(75, 40), Clock(135, 100), m, true);
    assert OverflowOf(Open(records, n, Clock(130, 25)), Clock(120, 20), Clock(140, 40), true) == [a];
    assert OverflowOf(Open(records, m, Clock(75, 40)), Clock(75, 40), Clock(135, 100), false) == [b];
    assert [a] + [b] == [a, b];
    MixedMerge(n, m);
    MeetingMerge(a, b);
  }

  lemma MixedMerge(n: nat, m: nat)
    ensures var a := Gap(WindowOverflow, "", Stripped(Clock(130, 25)), Clock(140, 40), n, true);
            var b := Gap(WindowOverflow, "", Clock(75, 40), Clock(135, 100), m, true);
            && Ordered(a) == a && Ordered(b) == b && Touches(a, b)
            && Merge(a, b) == Gap(WindowOverflow, "", Clock(75, 40), Clock(135, 100), n + m, true)
            && !Within(Wall, a, Merge(a, b))
  {
  }
}
