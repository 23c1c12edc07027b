/** What no run of the gap log loses: the fact of a loss, its extent and its
    count, wherever the gaps have got to. */
module GapBooks {
  import opened Clocks
  import Orders
  import opened GapAlgebra
  import opened GapLog

  // ----- Order does not matter to what gaps say -----

  lemma {:induction false} TotalPermuted(a: seq<Gap>, b: seq<Gap>, pair: Pair)
    requires multiset(a) == multiset(b)
    ensures Total(a, pair) == Total(b, pair)
  {
    if a != [] {
      hide Without;
      var front, last := a[..|a| - 1], a[|a| - 1];
      assert a == front + [last];
      assert last in multiset(b);
      var i :| 0 <= i < |b| && b[i] == last;
      WithoutMultiset(b, i);
      assert multiset(front) == multiset(a) - multiset{last};
      TotalPermuted(front, Without(b, i), pair);
      TotalWithout(b, i, pair);
    } else {
      assert |b| == |multiset(b)| == 0;
    }
  }

  lemma WithoutMultiset(b: seq<Gap>, i: nat)
    requires i < |b|
    ensures multiset(Without(b, i)) == multiset(b) - multiset{b[i]}
  {
    assert b == b[..i] + [b[i]] + b[i + 1..];
  }

  lemma KeepsPermuted(at: Instant -> int, a: seq<Gap>, b: seq<Gap>)
    requires multiset(a) == multiset(b)
    ensures Keeps(at, a, b)
  {
    SameMembers(a, b);
    forall g | g in b ensures g.from in Starts(a, PairOf(g)) && g.to in Stops(a, PairOf(g)) { SelfTight(a, g); }
    forall g | g in a ensures Covered(at, b, g) && Grounded(at, a, g) { assert Within(at, g, g); }
    forall pair ensures Total(a, pair) == Total(b, pair) { TotalPermuted(a, b, pair); }
  }

  lemma SameMembers(a: seq<Gap>, b: seq<Gap>)
    requires multiset(a) == multiset(b)
    ensures forall g :: g in a <==> g in b
  {
    forall g ensures g in a <==> g in b {
      assert g in a <==> g in multiset(a);
      assert g in b <==> g in multiset(b);
    }
  }

  lemma PairsConcat(a: seq<Gap>, b: seq<Gap>)
    ensures Pairs(a + b) == Pairs(a) + Pairs(b)
  {
    assert forall g :: g in a + b <==> g in a || g in b;
  }

  lemma KeepsBeside(at: Instant -> int, a: seq<Gap>, b: seq<Gap>, c: seq<Gap>)
    requires Keeps(at, a, b)
    ensures Keeps(at, a + c, b + c)
  {
    hide Pairs, Reads, Covers, Tight, Total, Counted;
    PairsConcat(a, c);
    PairsConcat(b, c);
    TightBeside(b, a, c);
    forall pair | Reads(at, a + c, pair) ensures Covers(at, b + c, a + c, pair) {
      ReadsPart(at, a, c, pair);
      CoversBeside(at, b, a, c, pair);
    }
    forall pair
      ensures Counted(a + c, pair) <==> Counted(b + c, pair)
      ensures Counted(a + c, pair) ==> Total(b + c, pair) == Total(a + c, pair)
    {
      CountedConcat(a, c, pair);
      CountedConcat(b, c, pair);
      TotalConcat(a, c, pair);
      TotalConcat(b, c, pair);
    }
  }

  lemma ReadsPart(at: Instant -> int, a: seq<Gap>, c: seq<Gap>, pair: Pair)
    requires Reads(at, a + c, pair)
    ensures Reads(at, a, pair)
  {
    assert forall g :: g in a ==> g in a + c;
    InStepSubset(at, Starts(a, pair), Starts(a + c, pair));
    InStepSubset(at, Stops(a, pair), Stops(a + c, pair));
  }

  lemma CoversBeside(at: Instant -> int, held: seq<Gap>, gaps: seq<Gap>, more: seq<Gap>, pair: Pair)
    requires Covers(at, held, gaps, pair)
    ensures Covers(at, held + more, gaps + more, pair)
  {
    forall g | g in gaps + more && PairOf(g) == pair ensures Covered(at, held + more, g) {
      if g in gaps {
        assert Covered(at, held, g);
        var h :| h in held && Within(at, g, h);
        assert h in held + more;
      } else {
        assert Within(at, g, g);
      }
    }
    forall h | h in held + more && PairOf(h) == pair ensures Grounded(at, gaps + more, h) {
      if h in held {
        assert Grounded(at, gaps, h);
        var g :| g in gaps && Within(at, g, h);
        assert g in gaps + more;
      } else {
        assert Within(at, h, h);
      }
    }
  }

  lemma TightBeside(held: seq<Gap>, gaps: seq<Gap>, more: seq<Gap>)
    requires Tight(held, gaps)
    ensures Tight(held + more, gaps + more)
  {
    assert forall g :: g in gaps ==> g in gaps + more;
    forall h | h in held + more
      ensures h.from in Starts(gaps + more, PairOf(h)) && h.to in Stops(gaps + more, PairOf(h))
    {
      if h in held {
        assert Starts(gaps, PairOf(h)) <= Starts(gaps + more, PairOf(h))
            && Stops(gaps, PairOf(h)) <= Stops(gaps + more, PairOf(h));
      } else {
        SelfTight(gaps + more, h);
      }
    }
  }

  lemma CountedConcat(a: seq<Gap>, b: seq<Gap>, pair: Pair)
    ensures Counted(a + b, pair) <==> Counted(a, pair) && Counted(b, pair)
  {
    assert forall g :: g in a + b <==> g in a || g in b;
  }

  function OrderedAll(gaps: seq<Gap>): (r: seq<Gap>)
    ensures |r| == |gaps|
  {
    if gaps == [] then [] else OrderedAll(gaps[..|gaps| - 1]) + [Ordered(gaps[|gaps| - 1])]
  }

  ghost predicate Fits(s: seq<Gap>, used: set<Pair>, capacity: nat) {
    |s| <= capacity && Pairs(s) <= used
  }

  lemma AddFits(at: Instant -> int, pending: seq<Gap>, gap: Gap, used: set<Pair>, capacity: nat)
    requires Fits(pending, used, capacity) && PairOf(gap) in used && |used| <= capacity
    ensures Keeps(at, pending + [Ordered(gap)], Add(pending, gap, capacity))
    ensures Fits(Add(pending, gap, capacity), used, capacity)
  {
    hide Keeps, Add;
    PairsAppend(pending, gap);
    PairsAppend(pending, Ordered(gap));
    Orders.SubsetSize(Pairs(pending + [gap]), used);
    AddKeeps(at, pending, gap, capacity);
    KeepsPairs(at, pending + [Ordered(gap)], Add(pending, gap, capacity));
  }

  lemma {:induction false} AddAllFits(at: Instant -> int, pending: seq<Gap>, gaps: seq<Gap>, used: set<Pair>,
      capacity: nat)
    requires Fits(pending, used, capacity) && Pairs(gaps) <= used && |used| <= capacity
    ensures Keeps(at, pending + OrderedAll(gaps), AddAll(pending, gaps, capacity))
    ensures Fits(AddAll(pending, gaps, capacity), used, capacity)
  {
    hide Keeps, Add, Fits, Pairs;
    if gaps == [] {
      KeepsSame(at, pending);
      assert pending + OrderedAll(gaps) == pending;
    } else {
      var front, last := gaps[..|gaps| - 1], gaps[|gaps| - 1];
      assert gaps == front + [last];
      PairsAppend(front, last);
      AddAllFits(at, pending, front, used, capacity);
      var mid := AddAll(pending, front, capacity);
      AddFits(at, mid, last, used, capacity);
      KeepsBeside(at, pending + OrderedAll(front), mid, [Ordered(last)]);
      assert pending + OrderedAll(front) + [Ordered(last)] == pending + OrderedAll(gaps);
      KeepsTransitive(at, pending + OrderedAll(gaps), mid + [Ordered(last)], Add(mid, last, capacity));
    }
  }

  // ----- Runs -----

  /** The log, everything ever recorded in it, and the batches taken from it
      and not put back. */
  datatype Books = Books(log: Log, recorded: seq<Gap>, out: seq<seq<Gap>>)

  datatype Step = Do(op: Op) | Take | Restore(batch: nat)

  function Flat(out: seq<seq<Gap>>): seq<Gap> {
    if out == [] then [] else Flat(out[..|out| - 1]) + out[|out| - 1]
  }

  function Restored(log: Log, gaps: seq<Gap>, capacity: nat): Log {
    if gaps == [] then log else log.(pending := Shrink(gaps + log.pending, capacity))
  }

  predicate Enabled(b: Books, step: Step) {
    step.Restore? ==> step.batch < |b.out|
  }

  function Next(b: Books, step: Step, capacity: nat): Books
    requires Enabled(b, step)
  {
    match step
    case Do(op) => Books(GapLog.Do(b.log, op, capacity), b.recorded + OrderedAll(Records(b.log.open, op)), b.out)
    case Take => Books(b.log.(pending := []), b.recorded, b.out + [b.log.pending])
    case Restore(i) => Books(Restored(b.log, b.out[i], capacity), b.recorded, b.out[..i] + b.out[i + 1..])
  }

  /** The gaps an operation may put on record have pairs in use. */
  predicate Uses(op: Op, used: set<Pair>) {
    match op
    case Record(gap) => PairOf(gap) in used
    case Open(s, kind, _) => (kind, s) in used
    case _ => true
  }

  ghost predicate Trace(states: seq<Books>, steps: seq<Step>, capacity: nat, used: set<Pair>) {
    && |states| == |steps| + 1
    && states[0] == Books(Log([], map[]), [], [])
    && forall k :: 0 <= k < |steps| ==>
      && Enabled(states[k], steps[k])
      && (steps[k].Do? ==> Uses(steps[k].op, used))
      && states[k + 1] == Next(states[k], steps[k], capacity)
  }

  /** Held or taken, the gaps still say everything that was recorded. */
  ghost predicate Kept(at: Instant -> int, b: Books, capacity: nat, used: set<Pair>) {
    && Fits(b.log.pending, used, capacity)
    && (forall s :: s in b.log.open ==> b.log.open[s].source == s && PairOf(b.log.open[s]) in used)
    && (forall k :: 0 <= k < |b.out| ==> Pairs(b.out[k]) <= used)
    && Keeps(at, b.recorded, b.log.pending + Flat(b.out))
  }

  lemma {:induction false} CutPiecesUse(open: map<string, Gap>, order: seq<string>, to: Instant, used: set<Pair>)
    requires forall s :: s in open ==> PairOf(open[s]) in used
    ensures Pairs(CutPieces(open, order, to)) <= used
  {
    if order != [] {
      var front, s := order[..|order| - 1], order[|order| - 1];
      CutPiecesUse(open, front, to, used);
      if s in open && Cuttable(open[s], to) {
        PairsAppend(CutPieces(open, front, to), open[s].(to := to));
      }
    }
  }

  lemma RecordsUse(open: map<string, Gap>, op: Op, used: set<Pair>)
    requires Uses(op, used) && forall s :: s in open ==> PairOf(open[s]) in used
    ensures Pairs(Records(open, op)) <= used
  {
    if op.CutOpen? {
      CutPiecesUse(open, op.order, op.to, used);
    }
  }

  lemma LeavesUse(open: map<string, Gap>, op: Op, used: set<Pair>)
    requires Uses(op, used) && forall s :: s in open ==> open[s].source == s && PairOf(open[s]) in used
    ensures forall s :: s in Leaves(open, op) ==> Leaves(open, op)[s].source == s && PairOf(Leaves(open, op)[s]) in used
  {
  }

  lemma DoKeeps(at: Instant -> int, b: Books, op: Op, capacity: nat, used: set<Pair>)
    requires Kept(at, b, capacity, used) && Uses(op, used) && |used| <= capacity
    ensures Kept(at, Next(b, Do(op), capacity), capacity, used)
  {
    hide Keeps, AddAll, Fits, Pairs, Uses, Records, Leaves;
    var gaps := Records(b.log.open, op);
    RecordsUse(b.log.open, op, used);
    LeavesUse(b.log.open, op, used);
    AddAllFits(at, b.log.pending, gaps, used, capacity);
    RecordKeeps(at, b.recorded, b.log.pending, Flat(b.out), OrderedAll(gaps), AddAll(b.log.pending, gaps, capacity));
  }

  lemma RecordKeeps(at: Instant -> int, recorded: seq<Gap>, pending: seq<Gap>, out: seq<Gap>, more: seq<Gap>,
      after: seq<Gap>)
    requires Keeps(at, recorded, pending + out) && Keeps(at, pending + more, after)
    ensures Keeps(at, recorded + more, after + out)
  {
    hide Keeps;
    KeepsBeside(at, recorded, pending + out, more);
    KeepsPermuted(at, pending + out + more, pending + more + out);
    KeepsBeside(at, pending + more, after, out);
    KeepsTransitive(at, recorded + more, pending + out + more, pending + more + out);
    KeepsTransitive(at, recorded + more, pending + more + out, after + out);
  }

  lemma TakeKeeps(at: Instant -> int, b: Books, capacity: nat, used: set<Pair>)
    requires Kept(at, b, capacity, used)
    ensures Kept(at, Next(b, Take, capacity), capacity, used)
  {
    hide Keeps;
    var n := Next(b, Take, capacity);
    assert n.out[..|n.out| - 1] == b.out;
    KeepsPermuted(at, b.log.pending + Flat(b.out), n.log.pending + Flat(n.out));
    KeepsTransitive(at, b.recorded, b.log.pending + Flat(b.out), n.log.pending + Flat(n.out));
  }

  lemma FlatLast(out: seq<seq<Gap>>)
    requires out != []
    ensures multiset(Flat(out)) == multiset(Flat(out[..|out| - 1])) + multiset(out[|out| - 1])
  {
  }

  lemma {:induction false} FlatWithout(out: seq<seq<Gap>>, i: nat)
    requires i < |out|
    ensures multiset(Flat(out)) == multiset(out[i]) + multiset(Flat(out[..i] + out[i + 1..]))
  {
    hide Flat;
    var n := |out| - 1;
    var rest := out[..i] + out[i + 1..];
    FlatLast(out);
    if i == n {
      assert rest == out[..n];
    } else {
      FlatWithout(out[..n], i);
      var front := out[..n][..i] + out[..n][i + 1..];
      assert rest[..|rest| - 1] == front && rest[|rest| - 1] == out[n];
      FlatLast(rest);
    }
  }

  lemma RestoredKeeps(at: Instant -> int, log: Log, gaps: seq<Gap>, capacity: nat, used: set<Pair>)
    requires Fits(log.pending, used, capacity) && Pairs(gaps) <= used && |used| <= capacity
    ensures Keeps(at, gaps + log.pending, Restored(log, gaps, capacity).pending)
    ensures Fits(Restored(log, gaps, capacity).pending, used, capacity)
  {
    hide Keeps, Shrink;
    var all := gaps + log.pending;
    if gaps == [] {
      assert all == log.pending;
      KeepsSame(at, all);
    } else {
      PairsConcat(gaps, log.pending);
      Orders.SubsetSize(Pairs(all), used);
      ShrinkKeeps(at, all, capacity);
      KeepsPairs(at, all, Shrink(all, capacity));
    }
  }

  lemma RestoreKeeps(at: Instant -> int, b: Books, i: nat, capacity: nat, used: set<Pair>)
    requires Kept(at, b, capacity, used) && i < |b.out| && |used| <= capacity
    ensures Kept(at, Next(b, Restore(i), capacity), capacity, used)
  {
    hide Keeps, Restored, Fits, Pairs, Flat;
    var n := Next(b, Restore(i), capacity);
    var gaps, pending, out := b.out[i], b.log.pending, Flat(n.out);
    FlatWithout(b.out, i);
    RestoredKeeps(at, b.log, gaps, capacity, used);
    KeepsPermuted(at, pending + Flat(b.out), gaps + pending + out);
    KeepsTransitive(at, b.recorded, pending + Flat(b.out), gaps + pending + out);
    KeepsBeside(at, gaps + pending, n.log.pending, out);
    KeepsTransitive(at, b.recorded, gaps + pending + out, n.log.pending + out);
    RestoredOpen(b.log, gaps, capacity);
  }

  lemma RestoredOpen(log: Log, gaps: seq<Gap>, capacity: nat)
    ensures Restored(log, gaps, capacity).open == log.open
  {
  }

  lemma StepKeeps(at: Instant -> int, b: Books, step: Step, capacity: nat, used: set<Pair>)
    requires Kept(at, b, capacity, used) && Enabled(b, step) && |used| <= capacity
    requires step.Do? ==> Uses(step.op, used)
    ensures Kept(at, Next(b, step, capacity), capacity, used)
  {
    hide Kept, Uses;
    match step
    case Do(op) => DoKeeps(at, b, op, capacity, used);
    case Take => TakeKeeps(at, b, capacity, used);
    case Restore(i) => RestoreKeeps(at, b, i, capacity, used);
  }

  /** No sequence of record, open, cut, close, take and restore loses a loss:
      with room for every kind and source in use, the held gaps stay within
      capacity, the held and taken gaps have the pairs that were recorded, start
      and end where recorded ones of their pair did, and count what was recorded
      of a pair always recorded with a count. On any reading of the clocks that
      orders the instants recorded of a pair as the program does, every interval
      ever recorded of it stays inside a held or taken one. */
  lemma {:induction false} NothingLost(
    at: Instant -> int, states: seq<Books>, steps: seq<Step>, capacity: nat, used: set<Pair>, k: nat)
    requires Trace(states, steps, capacity, used) && |used| <= capacity && k < |states|
    ensures var b := states[k];
            && |b.log.pending| <= capacity
            && Keeps(at, b.recorded, b.log.pending + Flat(b.out))
            && Kept(at, b, capacity, used)
  {
    hide Keeps;
    if k == 0 {
      KeepsSame(at, []);
      assert [] + Flat([]) == [];
    } else {
      NothingLost(at, states, steps, capacity, used, k - 1);
      StepKeeps(at, states[k - 1], steps[k - 1], capacity, used);
    }
  }

  // ----- Which clock -----

  ghost predicate AllStamped(gaps: seq<Gap>, pair: Pair) {
    forall g :: g in gaps && PairOf(g) == pair ==> g.from.mono.Some? && g.to.mono.Some?
  }

  /** While the instants recorded of a pair carry the monotonic reading, nothing
      recorded of it is lost on the monotonic clock, whatever the wall clock
      does. */
  lemma CoveredOnMono(states: seq<Books>, steps: seq<Step>, capacity: nat, used: set<Pair>, k: nat, pair: Pair)
    requires Trace(states, steps, capacity, used) && |used| <= capacity && k < |states|
    requires AllStamped(states[k].recorded, pair)
    ensures Covers(Mono, states[k].log.pending + Flat(states[k].out), states[k].recorded, pair)
  {
    hide Covers, Trace, Kept, Tight, Flat;
    NothingLost(Mono, states, steps, capacity, used, k);
    MonoInStep(Starts(states[k].recorded, pair));
    MonoInStep(Stops(states[k].recorded, pair));
  }

  /** What the control plane takes: wall readings in order. */
  predicate Accepted(g: Gap) {
    g.from.wall <= g.to.wall
  }

  /** A closed interval is recorded with its wall readings in order exactly
      when they were, or the program saw it inverted and closed it up. */
  lemma RecordedAcceptedIff(g: Gap)
    ensures Accepted(Ordered(g)) <==> Before(g.to, g.from) || Accepted(g)
  {
  }

  /** If the wall clock orders what was recorded of a pair as the program does,
      nothing of it is lost on the wall clock either, and if it was all recorded
      in order all that is shipped of it is accepted. */
  lemma CoveredOnWall(states: seq<Books>, steps: seq<Step>, capacity: nat, used: set<Pair>, k: nat, pair: Pair)
    requires Trace(states, steps, capacity, used) && |used| <= capacity && k < |states|
    requires Reads(Wall, states[k].recorded, pair)
    ensures var b := states[k];
            var held := b.log.pending + Flat(b.out);
            && Covers(Wall, held, b.recorded, pair)
            && ((forall g :: g in b.recorded && PairOf(g) == pair ==> Accepted(g)) ==>
              forall h :: h in held && PairOf(h) == pair ==> Accepted(h))
  {
    hide Trace, Kept, Tight, Flat, Reads;
    NothingLost(Wall, states, steps, capacity, used, k);
    var b := states[k];
    var held := b.log.pending + Flat(b.out);
    if forall g :: g in b.recorded && PairOf(g) == pair ==> Accepted(g) {
      forall h | h in held && PairOf(h) == pair ensures Accepted(h) {
        assert Grounded(Wall, b.recorded, h);
        var g :| g in b.recorded && Within(Wall, g, h);
      }
    }
  }

  /** Recorded in any order, with any capacity that has room for the pairs, the
      gaps stay covered on a reading. */
  ghost predicate AlwaysCovered(at: Instant -> int, gaps: seq<Gap>) {
    forall order: seq<Gap>, capacity: nat, pair ::
      (forall g :: g in order ==> g in gaps) && |Pairs(order)| <= capacity
      ==> Covers(at, AddAll([], order, capacity), order, pair)
  }

  lemma {:induction false} OrderedAlready(gaps: seq<Gap>)
    requires forall g :: g in gaps ==> Ordered(g) == g
    ensures OrderedAll(gaps) == gaps
  {
    if gaps != [] {
      var n := |gaps| - 1;
      assert gaps == gaps[..n] + [gaps[n]];
      OrderedAlready(gaps[..n]);
    }
  }

  lemma ReadsMembers(at: Instant -> int, order: seq<Gap>, gaps: seq<Gap>, pair: Pair)
    requires Reads(at, gaps, pair) && forall g :: g in order ==> g in gaps
    ensures Reads(at, order, pair)
  {
    InStepSubset(at, Starts(order, pair), Starts(gaps, pair));
    InStepSubset(at, Stops(order, pair), Stops(gaps, pair));
  }

  /** Two gaps of a pair, recorded with room for one, become one. */
  lemma TwoBecomeOne(p: Gap, g: Gap)
    requires PairOf(p) == PairOf(g) && Ordered(p) == p && Ordered(g) == g
    ensures |Pairs([p, g])| == 1 && AddAll([], [p, g], 1) == [Merge(p, g)]
  {
    hide Merge, Ordered, Add, AddAll, Shrink, ShrinkOnce, Before;
    assert Pairs([p, g]) == {PairOf(p)};
    assert [p] + [g] == [p, g] && [] + [p] == [p];
    AddAllOne([], p, 1);
    AddNew([], p, 1);
    AddAllMore([], [p], g, 1);
    AddAt([p], g, 1, 1);
    ShrinkTwo(p, g);
    assert [p][0 := Merge(p, g)] == [Merge(p, g)];
  }

  lemma ShrinkTwo(p: Gap, g: Gap)
    requires PairOf(p) == PairOf(g)
    ensures Shrink([p, g], 1) == [Merge(p, g)]
  {
    hide Merge, ShrinkOnce;
    ShrinkOnceMerges([p, g], 0, 1);
    assert [p, g][0 := Merge(p, g)] == [Merge(p, g), g];
    assert Without([Merge(p, g), g], 1) == [Merge(p, g)];
  }

  lemma DisagreeUncovers(at: Instant -> int, gaps: seq<Gap>, p: Gap, g: Gap)
    requires p in gaps && g in gaps && PairOf(p) == PairOf(g) && Ordered(p) == p && Ordered(g) == g
    requires !Agrees(at, g.from, p.from) || !Agrees(at, p.to, g.to)
    ensures !AlwaysCovered(at, gaps)
  {
    hide Merge, Ordered, Agrees;
    MergeWithinIff(at, p, g);
    TwoBecomeOne(p, g);
    assert p in [p, g] && g in [p, g];
    assert !Covers(at, [Merge(p, g)], [p, g], PairOf(p));
  }

  /** On a reading of the clocks, gaps stay covered in whatever order they are
      recorded exactly when the reading orders the starts, and the ends, of each
      pair as the program does. */
  lemma CoveredIffClocksAgree(at: Instant -> int, gaps: seq<Gap>)
    requires forall g :: g in gaps ==> Ordered(g) == g
    ensures AlwaysCovered(at, gaps) <==> forall pair :: Reads(at, gaps, pair)
  {
    hide Covers, Ordered, Agrees, AddAll;
    if forall pair :: Reads(at, gaps, pair) {
      forall order: seq<Gap>, capacity: nat, pair | (forall g :: g in order ==> g in gaps) && |Pairs(order)| <= capacity
        ensures Covers(at, AddAll([], order, capacity), order, pair)
      {
        OrderedAlready(order);
        assert [] + order == order;
        AddAllFits(at, [], order, Pairs(order), capacity);
        ReadsMembers(at, order, gaps, pair);
      }
    } else {
      var pair :| !Reads(at, gaps, pair);
      if !InStep(at, Starts(gaps, pair)) {
        var x, y :| x in Starts(gaps, pair) && y in Starts(gaps, pair) && !Agrees(at, x, y);
        var g :| g in gaps && PairOf(g) == pair && g.from == x;
        var p :| p in gaps && PairOf(p) == pair && p.from == y;
        DisagreeUncovers(at, gaps, p, g);
      } else {
        var x, y :| x in Stops(gaps, pair) && y in Stops(gaps, pair) && !Agrees(at, x, y);
        var p :| p in gaps && PairOf(p) == pair && p.to == x;
        var g :| g in gaps && PairOf(g) == pair && g.to == y;
        DisagreeUncovers(at, gaps, p, g);
      }
    }
  }

  /** Recorded in any order, with any capacity that has room for the pairs, the
      gaps are shipped whole: what is held covers them on the wall clock, and
      the control plane takes all of it. */
  ghost predicate AlwaysTaken(gaps: seq<Gap>) {
    && AlwaysCovered(Wall, gaps)
    && forall order: seq<Gap>, capacity: nat, h ::
      (forall g :: g in order ==> g in gaps) && |Pairs(order)| <= capacity && h in AddAll([], order, capacity)
      ==> Accepted(h)
  }

  lemma OneAlone(g: Gap)
    requires Ordered(g) == g
    ensures |Pairs([g])| == 1 && AddAll([], [g], 1) == [g]
  {
    hide Add, AddAll, Shrink, Ordered;
    assert Pairs([g]) == {PairOf(g)};
    AddAllOne([], g, 1);
    AddNew([], g, 1);
    assert [] + [g] == [g];
  }

  /** Covered on the wall clock by what covers something in order is itself in
      order, and taken. */
  lemma CoverTaken(held: seq<Gap>, gaps: seq<Gap>, h: Gap)
    requires h in held && Covers(Wall, held, gaps, PairOf(h)) && forall g :: g in gaps ==> Accepted(g)
    ensures Accepted(h)
  {
    assert Grounded(Wall, gaps, h);
    var g :| g in gaps && Within(Wall, g, h);
  }

  /** The fact of a loss reaches the control plane, in whatever order the losses
      are recorded and however they are merged, exactly when the wall clock
      orders the starts, and the ends, of each pair as the program does, and
      each loss was recorded with its wall readings in order. */
  lemma AlwaysTakenIff(gaps: seq<Gap>)
    requires forall g :: g in gaps ==> Ordered(g) == g
    ensures AlwaysTaken(gaps) <==> (forall pair :: Reads(Wall, gaps, pair)) && (forall g :: g in gaps ==> Accepted(g))
  {
    hide AlwaysCovered, Covers, Reads, Ordered, AddAll, Accepted;
    CoveredIffClocksAgree(Wall, gaps);
    if AlwaysTaken(gaps) {
      forall g | g in gaps ensures Accepted(g) {
        OneAlone(g);
        assert g in AddAll([], [g], 1);
      }
    } else if AlwaysCovered(Wall, gaps) && forall g :: g in gaps ==> Accepted(g) {
      var order: seq<Gap>, capacity: nat, h :|
        && (forall g :: g in order ==> g in gaps) && |Pairs(order)| <= capacity && h in AddAll([], order, capacity)
        && !Accepted(h);
      CoveredOrder(gaps, order, capacity, PairOf(h));
      CoverTaken(AddAll([], order, capacity), order, h);
    }
  }

  lemma CoveredOrder(gaps: seq<Gap>, order: seq<Gap>, capacity: nat, pair: Pair)
    requires AlwaysCovered(Wall, gaps) && (forall g :: g in order ==> g in gaps) && |Pairs(order)| <= capacity
    ensures Covers(Wall, AddAll([], order, capacity), order, pair)
  {
    hide Covers, AddAll, Pairs;
  }

  /** Two gaps that meet across a step back, each with its wall readings in
      order, merge into one whose readings are not: the loss is refused. */
  lemma StepBackInvertsMerge(kind: Kind, s: string)
    ensures var a := Gap(kind, s, Clock(100, 0), Clock(110, 10), 0, false);
            var b := Gap(kind, s, Clock(40, 10), Clock(50, 20), 0, false);
            var held := AddAll([], [a, b], DEFAULT_GAP_CAPACITY);
            && Accepted(a) && Accepted(b)
            && held == [Gap(kind, s, Clock(100, 0), Clock(50, 20), 0, false)]
            && !Accepted(held[0])
  {
    var a := Gap(kind, s, Clock(100, 0), Clock(110, 10), 0, false);
    var b := Gap(kind, s, Clock(40, 10), Clock(50, 20), 0, false);
    MeetingMerge(a, b);
  }

  /** A gap that meets the one before it is merged into it. */
  lemma MeetingMerge(a: Gap, b: Gap)
    requires PairOf(a) == PairOf(b) && Ordered(a) == a && Ordered(b) == b && Touches(a, b)
    ensures AddAll([], [a, b], DEFAULT_GAP_CAPACITY) == [Merge(a, b)]
  {
    hide Add, AddAll, Shrink, Ordered, Merge, Before;
    AddAllOne([], a, DEFAULT_GAP_CAPACITY);
    AddNew([], a, DEFAULT_GAP_CAPACITY);
    AddAllMore([], [a], b, DEFAULT_GAP_CAPACITY);
    AddAt([a], b, DEFAULT_GAP_CAPACITY, 1);
    assert [] + [a] == [a] && [a] + [b] == [a, b] && [a][0 := Merge(a, b)] == [Merge(a, b)];
  }

  /** The wall clock is set back by a minute while a source restarts: the
      interval is in order on the monotonic clock, is recorded as it is, and is
      shipped inverted, which the control plane refuses. */
  lemma StepBackInvertsGap(s: string)
    ensures var begun := GapLog.Do(Log([], map[]), Op.Open(s, SourceRestart, Clock(100, 5)), DEFAULT_GAP_CAPACITY);
            var closed := GapLog.Do(begun, Op.Close(s, Clock(50, 15)), DEFAULT_GAP_CAPACITY);
            && closed.pending == [Gap(SourceRestart, s, Clock(100, 5), Clock(50, 15), 0, false)]
            && !Accepted(closed.pending[0])
  {
    var g := Gap(SourceRestart, s, Clock(100, 5), Clock(50, 15), 0, false);
    AddAllOne([], g, DEFAULT_GAP_CAPACITY);
    assert [] + [g] == [g];
  }

  /** Windows dropped on both sides of a step back meet on the monotonic clock
      and merge into an interval that on the wall clock covers neither. */
  lemma StepBackUncovers(s: string, n: nat, m: nat)
    ensures var a := Gap(BufferOverflow, s, Clock(95, 0), Clock(115, 20), n, true);
            var b := Gap(BufferOverflow, s, Clock(45, 20), Clock(105, 80), m, true);
            var held := AddAll([], [a, b], DEFAULT_GAP_CAPACITY);
            && held == [Gap(BufferOverflow, s, Clock(95, 0), Clock(105, 80), n + m, true)]
            && !Covered(Wall, held, a) && !Covered(Wall, held, b)
            && Covered(Mono, held, a) && Covered(Mono, held, b)
  {
    var a := Gap(BufferOverflow, s, Clock(95, 0), Clock(115, 20), n, true);
    var b := Gap(BufferOverflow, s, Clock(45, 20), Clock(105, 80), m, true);
    MeetingMerge(a, b);
    var h := Merge(a, b);
    assert h in [h] && Within(Mono, a, h) && Within(Mono, b, h);
  }

  // ----- The pieces of an open interval -----

  /** Gaps of one pair that meet end to end from one instant to another. */
  predicate Tiles(pieces: seq<Gap>, pair: Pair, from: Instant, to: Instant) {
    if pieces == [] then from == to
    else
      var n := |pieces| - 1;
      && PairOf(pieces[n]) == pair
      && pieces[n].to == to && !Before(to, pieces[n].from)
      && Tiles(pieces[..n], pair, from, pieces[n].from)
  }

  function OfSource(gaps: seq<Gap>, s: string): seq<Gap> {
    if gaps == [] then []
    else
      var n := |gaps| - 1;
      OfSource(gaps[..n], s) + if gaps[n].source == s then [gaps[n]] else []
  }

  /** What an operation records of the open interval of a source. */
  function PiecesBy(open: map<string, Gap>, op: Op, s: string): seq<Gap> {
    if op.Record? then [] else OfSource(Records(open, op), s)
  }

  function PiecesOf(opens: seq<map<string, Gap>>, ops: seq<Op>, s: string): seq<Gap>
    requires |opens| > |ops|
  {
    if ops == [] then []
    else
      var n := |ops| - 1;
      PiecesOf(opens, ops[..n], s) + PiecesBy(opens[n], ops[n], s)
  }

  /** A cut ranges over every open interval, once each, in some order. */
  ghost predicate RangesOver(order: seq<string>, open: map<string, Gap>) {
    (set s | s in order) == open.Keys && Once(order)
  }

  /** The operation happens at an instant. */
  predicate At(op: Op, t: Instant) {
    match op
    case Record(_) => true
    case Open(_, _, from) => from == t
    case Close(_, to) => to == t
    case CutOpen(to, _) => to == t
  }

  /** The operation ends the open interval of a source. */
  predicate Ends(op: Op, s: string, kind: Kind) {
    (op.Close? && op.source == s) || (op.Open? && op.source == s && op.kind != kind)
  }

  /** A run of operations on the open intervals at non-decreasing instants. */
  ghost predicate OpenRun(opens: seq<map<string, Gap>>, ops: seq<Op>, times: seq<Instant>) {
    && |opens| == |ops| + 1 && |times| == |ops|
    && (forall i, j :: 0 <= i < j < |times| ==> !Before(times[j], times[i]))
    && (forall k :: 0 <= k < |ops| ==>
      && At(ops[k], times[k])
      && (ops[k].CutOpen? ==> RangesOver(ops[k].order, opens[k]))
      && opens[k + 1] == Leaves(opens[k], ops[k]))
  }

  ghost predicate Named(open: map<string, Gap>) {
    forall s :: s in open ==> open[s].source == s
  }

  lemma OnceFront(order: seq<string>, s: string)
    requires Once(order) && order != []
    ensures var n := |order| - 1;
            && Once(order[..n]) && order[n] !in order[..n] && order == order[..n] + [order[n]]
            && (s in order <==> s in order[..n] || s == order[n])
  {
    assert order == order[..|order| - 1] + [order[|order| - 1]];
  }

  lemma {:induction false} CutPiecesOf(open: map<string, Gap>, order: seq<string>, to: Instant, s: string)
    requires Named(open) && s in open && Once(order)
    ensures OfSource(CutPieces(open, order, to), s)
         == if s in order && Cuttable(open[s], to) then [open[s].(to := to)] else []
  {
    if order != [] {
      hide OfSource, Cuttable, CutPieces, Once;
      var front, x := order[..|order| - 1], order[|order| - 1];
      OnceFront(order, s);
      CutPiecesOf(open, front, to, s);
      CutPiecesNext(open, front, x, to);
      if x in open {
        OfSourceMore(CutPieces(open, front, to), open[x].(to := to), s);
      }
    }
  }

  lemma CutPiecesNext(open: map<string, Gap>, front: seq<string>, x: string, to: Instant)
    ensures CutPieces(open, front + [x], to)
         == if x in open && Cuttable(open[x], to) then CutPieces(open, front, to) + [open[x].(to := to)]
           else CutPieces(open, front, to)
  {
    assert (front + [x])[..|front|] == front;
  }

  lemma OfSourceMore(gaps: seq<Gap>, g: Gap, s: string)
    ensures OfSource(gaps + [g], s) == if g.source == s then OfSource(gaps, s) + [g] else OfSource(gaps, s)
  {
    assert (gaps + [g])[..|gaps|] == gaps;
  }

  /** Until it is ended, an open interval goes on from its last cut, and the
      pieces recorded of it fill the time from its start to there. */
  lemma {:induction false} PiecesTile(opens: seq<map<string, Gap>>, ops: seq<Op>, times: seq<Instant>, s: string,
      n: nat)
    requires OpenRun(opens, ops, times) && Named(opens[0]) && s in opens[0] && n <= |ops|
    requires forall k :: 0 <= k < n ==> !Before(times[k], opens[0][s].from) && !Ends(ops[k], s, opens[0][s].kind)
    ensures Named(opens[n]) && s in opens[n]
    ensures opens[n][s] == opens[0][s].(from := opens[n][s].from)
    ensures opens[n][s].from == opens[0][s].from || exists k :: 0 <= k < n && times[k] == opens[n][s].from
    ensures Tiles(PiecesOf(opens, ops[..n], s), PairOf(opens[0][s]), opens[0][s].from, opens[n][s].from)
  {
    if n > 0 {
      PiecesTile(opens, ops, times, s, n - 1);
      assert ops[..n][..n - 1] == ops[..n - 1];
      PieceTiles(opens[n - 1], ops[n - 1], s);
      var pieces, piece := PiecesOf(opens, ops[..n - 1], s), PiecesBy(opens[n - 1], ops[n - 1], s);
      if piece == [] {
        assert pieces + piece == pieces;
      } else {
        assert (pieces + piece)[..|pieces|] == pieces;
      }
    }
  }

  /** An operation that does not end an open interval either leaves it as it
      is or records it up to its instant and goes on from there. */
  lemma PieceTiles(open: map<string, Gap>, op: Op, s: string)
    requires Named(open) && s in open && !Ends(op, s, open[s].kind)
    requires op.CutOpen? ==> RangesOver(op.order, open)
    ensures var after, piece := Leaves(open, op), PiecesBy(open, op, s);
            && Named(after) && s in after
            && (|| (after[s] == open[s] && piece == [])
                || (op.CutOpen? && Before(open[s].from, op.to) && after[s] == open[s].(from := op.to)
                  && piece == [open[s].(to := op.to)]))
  {
    hide OfSource, CutPieces;
    match op
    case Record(_) =>
    case Open(x, _, _) =>
      assert x != s || Records(open, op) == [];
      OneOfSource(Records(open, op), s);
    case Close(x, _) =>
      OneOfSource(Records(open, op), s);
    case CutOpen(to, order) =>
      CutPiecesOf(open, order, to, s);
  }

  lemma OneOfSource(gaps: seq<Gap>, s: string)
    requires |gaps| <= 1
    ensures OfSource(gaps, s) == if gaps != [] && gaps[0].source == s then gaps else []
  {
  }

  /** What ends an open interval records the rest of it. */
  lemma EndRecords(open: map<string, Gap>, op: Op, s: string, t: Instant)
    requires Named(open) && s in open && Ends(op, s, open[s].kind) && At(op, t)
    ensures PiecesBy(open, op, s) == [open[s].(to := t)]
  {
    OneOfSource(Records(open, op), s);
  }

  /** The pieces of an open interval tile it exactly: cut any number of times
      and then ended, what was recorded of it meets end to end from the
      instant it opened to the instant it ended. */
  lemma OpenIntervalTiled(opens: seq<map<string, Gap>>, ops: seq<Op>, times: seq<Instant>, s: string)
    requires OpenRun(opens, ops, times) && Named(opens[0]) && s in opens[0] && ops != []
    requires forall k :: 0 <= k < |ops| ==> !Before(times[k], opens[0][s].from)
    requires forall k :: 0 <= k < |ops| - 1 ==> !Ends(ops[k], s, opens[0][s].kind)
    requires Ends(ops[|ops| - 1], s, opens[0][s].kind)
    ensures Tiles(PiecesOf(opens, ops, s), PairOf(opens[0][s]), opens[0][s].from, times[|ops| - 1])
  {
    hide PiecesBy, Leaves, Ends;
    var n := |ops| - 1;
    PiecesTile(opens, ops, times, s, n);
    assert ops[..n + 1] == ops;
    var op, cur := ops[n], opens[n][s];
    assert !Before(times[n], cur.from);
    assert At(op, times[n]);
    EndRecords(opens[n], op, s, times[n]);
    var pieces := PiecesOf(opens, ops[..n], s);
    assert (pieces + [cur.(to := times[n])])[..|pieces|] == pieces;
  }

  /** Gaps put back that fit stand ahead of newer ones, unmerged, so a delivery
      that is repeated repeats them exactly. */
  lemma RestoresAhead(log: Log, gaps: seq<Gap>, capacity: nat)
    requires |gaps| + |log.pending| <= capacity
    ensures Restored(log, gaps, capacity).pending == gaps + log.pending
        && Restored(log, gaps, capacity).open == log.open
  {
    assert [] + log.pending == log.pending;
  }

  /** Taking hands over all that is held, in order, and holds nothing. */
  lemma TakesAll(b: Books, capacity: nat)
    ensures var n := Next(b, Take, capacity);
            n.log.pending == [] && n.log.open == b.log.open && |n.out| == |b.out| + 1
            && n.out[..|b.out|] == b.out && n.out[|b.out|] == b.log.pending && n.recorded == b.recorded
  {
  }
}
