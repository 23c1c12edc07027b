/** Agent silence derived at ingest: the gap between two receipts that no
    running agent explains. */
module Silence {
  import opened Wrappers

  const SILENCE_WINDOWS: int := 2

  /** The agent process the latest heartbeat came from. */
  datatype Heartbeat = Heartbeat(startedAt: int, heartbeatAt: int)

  datatype Interval = Interval(from: int, to: int)

  predicate RanThrough(proc: Option<Heartbeat>, prev: int, receivedAt: int, window: int) {
    proc.Some? && proc.value.startedAt <= prev && proc.value.heartbeatAt >= receivedAt - window
  }

  predicate Silent(prev: Option<int>, proc: Option<Heartbeat>, at: int, window: int) {
    if window <= 0 || prev.None? then false
    else if at - prev.value <= SILENCE_WINDOWS * window then false
    else !RanThrough(proc, prev.value, at, window)
  }

  /** The gap a report reveals, closed where its window's evidence resumes. */
  function DeriveSilence(prev: Option<int>, proc: Option<Heartbeat>, windowStart: Option<int>, receivedAt: int,
      window: int): Option<Interval> {
    if !Silent(prev, proc, receivedAt, window) then None
    else if windowStart.None? then Some(Interval(prev.value, receivedAt))
    else if windowStart.value <= prev.value then None
    else Some(Interval(prev.value, if windowStart.value < receivedAt then windowStart.value else receivedAt))
  }

  function SilenceAtRetirement(prev: Option<int>, proc: Option<Heartbeat>, at: int, window: int): Option<Interval> {
    if !Silent(prev, proc, at, window) then None else Some(Interval(prev.value, at))
  }

  // ----- Runs -----

  datatype Report = Report(receivedAt: int, windowStart: Option<int>, proc: Option<Heartbeat>)

  /** One workload's receipts that advanced, oldest first, and what was
      derived from them. */
  datatype Derived = Derived(receipts: seq<int>, gaps: seq<Interval>)

  function Last(d: Derived): Option<int> {
    if d.receipts == [] then None else Some(d.receipts[|d.receipts| - 1])
  }

  function Keep(d: Derived, gap: Option<Interval>): Derived {
    if gap.None? then d else d.(gaps := d.gaps + [gap.value])
  }

  /** A report's receipt is recorded when it is later than the last; a stale
      one says nothing new. */
  function Received(d: Derived, r: Report, window: int): Derived {
    if Last(d).Some? && r.receivedAt <= Last(d).value then d
    else
      var gap := DeriveSilence(Last(d), r.proc, r.windowStart, r.receivedAt, window);
      Keep(d, gap).(receipts := d.receipts + [r.receivedAt])
  }

  function AfterReports(rs: seq<Report>, window: int): Derived {
    if rs == [] then Derived([], []) else Received(AfterReports(rs[..|rs| - 1], window), rs[|rs| - 1], window)
  }

  function Retired(d: Derived, proc: Option<Heartbeat>, at: int, window: int): Derived {
    Keep(d, SilenceAtRetirement(Last(d), proc, at, window))
  }

  /** A gap names a silence: it opens at a receipt, and no receipt lies
      inside it. */
  predicate Names(g: Interval, receipts: seq<int>) {
    g.from < g.to && g.from in receipts && forall r :: r in receipts ==> r <= g.from || r >= g.to
  }

  /** Receipts advance; every gap names a silence, and each ends before the
      next begins. */
  ghost predicate Sound(d: Derived) {
    && (forall i, j :: 0 <= i < j < |d.receipts| ==> d.receipts[i] < d.receipts[j])
    && (forall i :: 0 <= i < |d.gaps| ==> Names(d.gaps[i], d.receipts))
    && (forall i, j :: 0 <= i < j < |d.gaps| ==> d.gaps[i].to <= d.gaps[j].from)
    && (forall i :: 0 <= i < |d.gaps| ==> Last(d).Some? && d.gaps[i].to <= Last(d).value)
  }

  lemma DerivedBounds(prev: Option<int>, proc: Option<Heartbeat>, windowStart: Option<int>, at: int, window: int)
    ensures var g := DeriveSilence(prev, proc, windowStart, at, window);
            g.Some? ==> prev.Some? && g.value.from == prev.value && prev.value < g.value.to <= at
    ensures var g := SilenceAtRetirement(prev, proc, at, window);
            g.Some? ==> prev.Some? && g.value.from == prev.value && prev.value < g.value.to == at
  {
    if window > 0 {
      assert SILENCE_WINDOWS * window > 0;
    }
  }

  lemma LastLatest(d: Derived)
    requires Sound(d) && d.receipts != []
    ensures Last(d).value in d.receipts && forall r :: r in d.receipts ==> r <= Last(d).value
  {
    forall r | r in d.receipts ensures r <= Last(d).value {
      var i :| 0 <= i < |d.receipts| && d.receipts[i] == r;
    }
  }

  /** A gap opened at the last receipt comes after every gap there is. */
  lemma KeepSound(d: Derived, gap: Interval)
    requires Sound(d) && d.receipts != [] && gap.from == Last(d).value < gap.to
    ensures var k := d.gaps + [gap];
            && (forall i :: 0 <= i < |k| ==> Names(k[i], d.receipts))
            && (forall i, j :: 0 <= i < j < |k| ==> k[i].to <= k[j].from)
  {
    LastLatest(d);
  }

  lemma NamesLater(g: Interval, receipts: seq<int>, r: int)
    requires Names(g, receipts) && g.to <= r
    ensures Names(g, receipts + [r])
  {
  }

  lemma ReceivedSound(d: Derived, r: Report, window: int)
    requires Sound(d)
    ensures Sound(Received(d, r, window))
  {
    var gap := DeriveSilence(Last(d), r.proc, r.windowStart, r.receivedAt, window);
    DerivedBounds(Last(d), r.proc, r.windowStart, r.receivedAt, window);
    if d.receipts != [] { LastLatest(d); }
    hide DeriveSilence, Names;
    if Last(d).Some? && r.receivedAt <= Last(d).value {
    } else {
      var n := Received(d, r, window);
      if gap.Some? { KeepSound(d, gap.value); }
      forall i, j | 0 <= i < j < |n.receipts| ensures n.receipts[i] < n.receipts[j] {
        assert d.receipts[i] in d.receipts;
      }
      assert Last(n) == Some(r.receivedAt);
      forall i | 0 <= i < |n.gaps| ensures Names(n.gaps[i], n.receipts) && n.gaps[i].to <= r.receivedAt {
        NamesLater(n.gaps[i], d.receipts, r.receivedAt);
      }
    }
  }

  lemma {:induction false} ReportsSound(rs: seq<Report>, window: int)
    ensures Sound(AfterReports(rs, window))
  {
    hide Sound;
    if rs != [] {
      ReportsSound(rs[..|rs| - 1], window);
      ReceivedSound(AfterReports(rs[..|rs| - 1], window), rs[|rs| - 1], window);
    } else {
      NoneSound();
    }
  }

  lemma NoneSound()
    ensures Sound(Derived([], []))
  {
  }

  /** Over any run of reports, ended or not by a retirement, the derived gaps
      are not empty, lie inside the silence they name and are disjoint. */
  lemma SilencesDisjoint(rs: seq<Report>, proc: Option<Heartbeat>, at: int, window: int, retired: bool)
    ensures var d := if retired then Retired(AfterReports(rs, window), proc, at, window) else AfterReports(rs, window);
            && (forall i :: 0 <= i < |d.gaps| ==> Names(d.gaps[i], d.receipts))
            && (forall i, j :: 0 <= i < j < |d.gaps| ==> d.gaps[i].to <= d.gaps[j].from)
  {
    var d := AfterReports(rs, window);
    ReportsSound(rs, window);
    var gap := SilenceAtRetirement(Last(d), proc, at, window);
    DerivedBounds(Last(d), proc, None, at, window);
    if gap.Some? { KeepSound(d, gap.value); }
  }

  /** No silence goes unstated: when a report ends one, every instant of it
      before evidence resumes lies in a derived gap, and when it ends none
      nothing is derived. */
  lemma EverySilenceCovered(rs: seq<Report>, r: Report, window: int, t: int)
    requires var d := AfterReports(rs, window); Last(d).Some? && Last(d).value <= t < r.receivedAt
    ensures var prev := Last(AfterReports(rs, window)).value;
            var n := AfterReports(rs + [r], window);
            var lost :=
              && window > 0 && r.receivedAt - prev > 2 * window
              && !(r.proc.Some? && r.proc.value.startedAt <= prev && r.receivedAt - window <= r.proc.value.heartbeatAt)
              && (r.windowStart.Some? ==> prev <= t < r.windowStart.value);
            lost <==> exists g :: g in n.gaps && g.from <= t < g.to
  {
    var d, n := AfterReports(rs, window), AfterReports(rs + [r], window);
    assert (rs + [r])[..|rs|] == rs;
    ReportsSound(rs, window);
    assert forall g :: g in d.gaps ==> g.to <= Last(d).value by {
      forall g | g in d.gaps ensures g.to <= Last(d).value {
        var i :| 0 <= i < |d.gaps| && d.gaps[i] == g;
      }
    }
    var gap := DeriveSilence(Last(d), r.proc, r.windowStart, r.receivedAt, window);
    assert n == Received(d, r, window);
    if gap.Some? { assert gap.value in n.gaps; }
  }

  // ----- One process through the silence -----

  datatype Process = Process(started: int, ended: int)

  /** Two processes of one agent never overlap. */
  ghost predicate Apart(ps: set<Process>) {
    && (forall p :: p in ps ==> p.started <= p.ended)
    && forall p, q :: p in ps && q in ps && p != q ==> p.ended < q.started || q.ended < p.started
  }

  /** If one agent's processes never overlap, the heartbeat came from one of
      them and the report's sender ran for the last window, then a process
      that ran through the silence is the sender, and no process started in
      the silence: there was no restart to lose evidence. */
  lemma RanThroughNoRestart(ps: set<Process>, p: Process, sender: Process, proc: Heartbeat, prev: int, receivedAt: int,
      window: int)
    requires Apart(ps) && p in ps && sender in ps
    requires p.started == proc.startedAt && p.started <= proc.heartbeatAt <= p.ended
    requires sender.started <= receivedAt - window && receivedAt <= sender.ended
    requires prev < receivedAt && RanThrough(Some(proc), prev, receivedAt, window)
    ensures p == sender
    ensures forall q :: q in ps ==> !(prev < q.started <= receivedAt)
  {
    assert p != sender ==> p.ended < sender.started || sender.ended < p.started;
    forall q | q in ps ensures !(prev < q.started <= receivedAt) {
      assert q != p ==> p.ended < q.started || q.ended < p.started;
    }
  }

  /** And so at a retirement: every instant since the last receipt lies in a gap
      when the silence is long enough and no process ran through it, and else
      none does. */
  lemma RetirementCovered(rs: seq<Report>, proc: Option<Heartbeat>, at: int, window: int, t: int)
    requires var d := AfterReports(rs, window); Last(d).Some? && Last(d).value <= t < at
    ensures var prev := Last(AfterReports(rs, window)).value;
            var n := Retired(AfterReports(rs, window), proc, at, window);
            var lost :=
              && window > 0 && at - prev > 2 * window
              && !(proc.Some? && proc.value.startedAt <= prev && at - window <= proc.value.heartbeatAt);
            lost <==> exists g :: g in n.gaps && g.from <= t < g.to
  {
    var d := AfterReports(rs, window);
    var n := Retired(d, proc, at, window);
    ReportsSound(rs, window);
    forall g | g in d.gaps ensures g.to <= Last(d).value {
      var i :| 0 <= i < |d.gaps| && d.gaps[i] == g;
    }
    var gap := SilenceAtRetirement(Last(d), proc, at, window);
    if gap.Some? { assert gap.value in n.gaps; }
  }
}
