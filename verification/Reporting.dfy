/** The reporter: windows and gaps taken together, shipped, and put back or
    given up by what the control plane answered. The books of the pipeline
    balance at every point of every interleaving. */
module Reporting {
  import opened Clocks
  import opened Aggregation
  import opened GapAlgebra
  import opened Buffering
  import GapLog
  import opened GapBooks

  /** How a report ended: accepted, refused as malformed, failed, or failed
      because the agent is stopping. */
  datatype Answer = Accepted | Refused | Failed | Stopping

  /** The loss of a refused window, over its bounds put in order on the wall
      clock. */
  function RejectGap(w: Window): Gap {
    var start, end := Stripped(w.start), Stripped(w.end);
    Gap(WindowRejected, NO_SOURCE, Earlier(start, end), Later(start, end), |w.records|, true)
  }

  function RejectGaps(w: Window): seq<Gap> {
    if w.records == [] then [] else [RejectGap(w)]
  }

  class Reporter {
    const buffer: Buffer
    const gaps: GapLog.Gaps

    constructor (buffer: Buffer, gaps: GapLog.Gaps)
      ensures this.buffer == buffer && this.gaps == gaps
    {
      this.buffer, this.gaps := buffer, gaps;
    }

    /** Drops a window the control plane refused and records its records as
        lost over its bounds. */
    method Reject(w: Window)
      modifies gaps
      ensures gaps.capacity == old(gaps.capacity)
      ensures gaps.View() == Recorded(old(gaps.View()), RejectGaps(w), gaps.Capacity())
    {
      var from, to := Stripped(w.start), Stripped(w.end);
      if Before(to, from) {
        from, to := to, from;
      }
      if |w.records| > 0 {
        gaps.RecordGap(Gap(WindowRejected, NO_SOURCE, from, to, |w.records|, true));
      }
    }

    /** What a turn of the reporter does once the answer is in. */
    method Settle(w: Window, taken: seq<Gap>, answer: Answer) returns (more: bool)
      requires buffer.Valid() && buffer.gaps == gaps
      modifies buffer, gaps
      ensures buffer.Valid() && more == !answer.Stopping?
      ensures answer.Accepted? ==> unchanged(buffer) && unchanged(gaps)
      ensures answer.Refused? ==>
        && unchanged(buffer)
        && gaps.View() == Recorded(Restored(old(gaps.View()), taken, gaps.Capacity()), RejectGaps(w), gaps.Capacity())
      ensures answer.Failed? || answer.Stopping? ==>
        var r := if w.records == [] then Trimmed(old(buffer.windows), [])
          else Trim([w] + old(buffer.windows), buffer.capacity);
        && buffer.windows == r.windows && buffer.dropped == old(buffer.dropped) + Size(r.lost)
        && gaps.View() == Recorded(Restored(old(gaps.View()), taken, gaps.Capacity()), OverflowGaps(r.lost),
          gaps.Capacity())
    {
      hide Trim, Size, OverflowGaps, Shrink;
      TrimBegins(gaps.View(), 0, []);
      if answer.Accepted? {
        return true;
      }
      ghost var c := gaps.Capacity();
      TrimBegins(Restored(gaps.View(), taken, c), c, []);
      gaps.Restore(taken);
      if answer.Stopping? {
        buffer.Requeue(w);
        return false;
      }
      if answer.Refused? {
        Reject(w);
        return true;
      }
      buffer.Requeue(w);
      more := true;
    }
  }

  // ----- The pipeline as interleaved steps -----

  /** Where the reporter is in its turn. */
  datatype Phase =
    | Idle
    | Popped(window: Window)
    | Sent(window: Window)
    | Restoring(window: Window, answer: Answer)
    | Settling(window: Window, answer: Answer)
    | Done

  /** The pipeline. owed are the gaps of an overflow the buffer, whose lock is
      held, has still to record. pushed, delivered, lost and rejected are its
      history. */
  datatype Pipeline = Pipeline(
    queue: seq<Window>, dropped: nat, owed: seq<Gap>, books: Books, phase: Phase,
    pushed: seq<FlowRecord>, delivered: seq<FlowRecord>, lost: seq<Window>, rejected: seq<Window>)

  datatype Move =
    | Push(window: Window)
    | Carry(window: Window)
    | Pop
    | TakeGaps
    | Answered(answer: Answer)
    | RestoreGaps
    | Requeue
    | Reject
    | Owe
    | Lose(op: GapLog.Op)

  /** A loss the sources or the collector put on record themselves. */
  predicate Elsewhere(op: GapLog.Op) {
    match op
    case Record(gap) => gap.kind != BufferOverflow && gap.kind != WindowRejected
    case Open(_, kind, _) => kind != BufferOverflow && kind != WindowRejected
    case _ => true
  }

  /** A buffer operation waits for the buffer's lock; each reporter move has
      its place in the turn. */
  predicate Enabled(p: Pipeline, m: Move) {
    match m
    case Push(_) => p.owed == []
    case Carry(w) => p.owed == [] && w.records == []
    case Pop => p.owed == [] && p.phase.Idle? && p.queue != []
    case TakeGaps => p.phase.Popped?
    case Answered(_) => p.phase.Sent?
    case RestoreGaps => p.phase.Restoring? && p.books.out != []
    case Requeue => p.owed == [] && p.phase.Settling? && !p.phase.answer.Refused?
    case Reject => p.phase.Settling? && p.phase.answer.Refused?
    case Owe => p.owed != []
    case Lose(op) => Elsewhere(op)
  }

  function Queued(p: Pipeline, ws: seq<Window>, capacity: nat): Pipeline {
    var r := Trim(ws, capacity);
    p.(queue := r.windows, lost := p.lost + r.lost, dropped := p.dropped + Size(r.lost), owed := OverflowGaps(r.lost))
  }

  /** Recording one gap in the books. */
  function Booked(b: Books, gap: Gap, gapCapacity: nat): Books {
    GapBooks.Next(b, Do(GapLog.Op.Record(gap)), gapCapacity)
  }

  function Next(p: Pipeline, m: Move, capacity: nat, gapCapacity: nat): Pipeline
    requires Enabled(p, m)
  {
    match m
    case Push(w) =>
      var q := p.(pushed := p.pushed + w.records);
      if w.records == [] then q else Queued(q, p.queue + [w], capacity)
    case Carry(w) => if p.queue == [] then p.(queue := [w]) else p
    case Pop => p.(queue := p.queue[1..], phase := Popped(p.queue[0]))
    case TakeGaps => p.(books := GapBooks.Next(p.books, Take, gapCapacity), phase := Sent(p.phase.window))
    case Answered(a) =>
      if a.Accepted? then p.(delivered := p.delivered + p.phase.window.records, phase := Idle)
      else p.(phase := Restoring(p.phase.window, a))
    case RestoreGaps =>
      p.(books := GapBooks.Next(p.books, Restore(|p.books.out| - 1), gapCapacity),
        phase := Settling(p.phase.window, p.phase.answer))
    case Requeue =>
      var w := p.phase.window;
      var q := p.(phase := if p.phase.answer.Stopping? then Done else Idle);
      if w.records == [] then q else Queued(q, [w] + p.queue, capacity)
    case Reject =>
      var w := p.phase.window;
      if w.records == [] then p.(phase := Idle)
      else p.(books := Booked(p.books, RejectGap(w), gapCapacity), rejected := p.rejected + [w], phase := Idle)
    case Owe => p.(books := Booked(p.books, p.owed[0], gapCapacity), owed := p.owed[1..])
    case Lose(op) => p.(books := GapBooks.Next(p.books, Do(op), gapCapacity))
  }

  ghost predicate Trace(states: seq<Pipeline>, moves: seq<Move>, capacity: nat, gapCapacity: nat) {
    && |states| == |moves| + 1
    && states[0] == Pipeline([], 0, [], Books(GapLog.Log([], map[]), [], []), Idle, [], [], [], [])
    && forall k :: 0 <= k < |moves| ==>
      Enabled(states[k], moves[k]) && states[k + 1] == Next(states[k], moves[k], capacity, gapCapacity)
  }

  // ----- Records -----

  function InFlight(phase: Phase): seq<FlowRecord> {
    if phase.Idle? || phase.Done? then [] else phase.window.records
  }

  /** Every record pushed is in exactly one place, as often as it was pushed. */
  ghost predicate Balanced(p: Pipeline) {
    multiset(p.pushed)
    == multiset(p.delivered) + multiset(Contents(p.queue)) + multiset(InFlight(p.phase))
     + multiset(Contents(p.lost)) + multiset(Contents(p.rejected))
  }

  lemma QueuedBalances(p: Pipeline, ws: seq<Window>, capacity: nat)
    ensures var q := Queued(p, ws, capacity);
            && Size(q.queue) <= capacity
            && multiset(Contents(q.queue)) + multiset(Contents(q.lost))
              == multiset(Contents(ws)) + multiset(Contents(p.lost))
            && Size(q.lost) == Size(p.lost) + q.dropped - p.dropped
  {
    hide Trim, Contents, Size;
    var r := Trim(ws, capacity);
    TrimSplits(ws, capacity);
    ContentsConcat(p.lost, r.lost);
    assert multiset(Contents(ws)) == multiset(Contents(r.lost) + Contents(r.windows));
  }

  /** The places of a balanced pipeline, when some records join the queue and
      what does not fit is dropped. */
  lemma Rebalance<T>(
    all: multiset<T>, delivered: multiset<T>, queue: multiset<T>, flight: multiset<T>,
    lost: multiset<T>, rejected: multiset<T>,
    more: multiset<T>, queued: multiset<T>, losing: multiset<T>)
    requires all == delivered + queue + flight + lost + rejected
    requires queued + losing == queue + more + lost
    ensures all + more == delivered + queued + flight + losing + rejected
  {
    forall x ensures (all + more)[x] == (delivered + queued + flight + losing + rejected)[x] {
      assert (queued + losing)[x] == (queue + more + lost)[x];
    }
  }

  lemma PushBalances(p: Pipeline, w: Window, capacity: nat, gapCapacity: nat)
    requires Balanced(p) && Enabled(p, Push(w)) && Size(p.queue) <= capacity && p.dropped == Size(p.lost)
    ensures var q := Next(p, Push(w), capacity, gapCapacity);
            Balanced(q) && Size(q.queue) <= capacity && q.dropped == Size(q.lost)
  {
    hide Contents, Size, Queued;
    if w.records == [] {
      assert p.pushed + w.records == p.pushed;
    } else {
      var q := p.(pushed := p.pushed + w.records);
      QueuedBalances(q, p.queue + [w], capacity);
      ContentsConcat(p.queue, [w]);
      ContentsOne(w);
      QueuedElsewhere(q, p.queue + [w], capacity);
      var r := Queued(q, p.queue + [w], capacity);
      Rebalance(
        multiset(p.pushed), multiset(p.delivered), multiset(Contents(p.queue)), multiset(InFlight(p.phase)),
        multiset(Contents(p.lost)), multiset(Contents(p.rejected)),
        multiset(w.records), multiset(Contents(r.queue)), multiset(Contents(r.lost)));
    }
  }

  lemma RequeueBalances(p: Pipeline, capacity: nat, gapCapacity: nat)
    requires Balanced(p) && Enabled(p, Move.Requeue) && Size(p.queue) <= capacity && p.dropped == Size(p.lost)
    ensures var q := Next(p, Move.Requeue, capacity, gapCapacity);
            Balanced(q) && Size(q.queue) <= capacity && q.dropped == Size(q.lost)
  {
    hide Contents, Size, Queued;
    var w := p.phase.window;
    if w.records != [] {
      var q := p.(phase := if p.phase.answer.Stopping? then Done else Idle);
      QueuedBalances(q, [w] + p.queue, capacity);
      ContentsConcat([w], p.queue);
      ContentsOne(w);
      QueuedElsewhere(q, [w] + p.queue, capacity);
      var r := Queued(q, [w] + p.queue, capacity);
      var before := multiset(p.delivered) + multiset(Contents(p.queue)) + multiset{} + multiset(Contents(p.lost))
        + multiset(Contents(p.rejected));
      assert multiset(p.pushed) == before + multiset(w.records);
      Rebalance(
        before, multiset(p.delivered), multiset(Contents(p.queue)), multiset{},
        multiset(Contents(p.lost)), multiset(Contents(p.rejected)),
        multiset(w.records), multiset(Contents(r.queue)), multiset(Contents(r.lost)));
    }
  }

  lemma QueuedElsewhere(p: Pipeline, ws: seq<Window>, capacity: nat)
    ensures var q := Queued(p, ws, capacity);
            q.books == p.books && q.phase == p.phase && q.pushed == p.pushed && q.delivered == p.delivered
              && q.rejected == p.rejected
  {
  }

  lemma CarryBalances(p: Pipeline, w: Window, capacity: nat, gapCapacity: nat)
    requires Enabled(p, Carry(w))
    ensures var q := Next(p, Carry(w), capacity, gapCapacity);
            Contents(q.queue) == Contents(p.queue) && Size(q.queue) == Size(p.queue)
  {
    ContentsOne(w);
  }

  lemma PopBalances(p: Pipeline, capacity: nat, gapCapacity: nat)
    requires Balanced(p) && Enabled(p, Move.Pop)
    ensures var q := Next(p, Move.Pop, capacity, gapCapacity);
            Balanced(q) && Size(q.queue) <= Size(p.queue)
  {
    assert Contents(p.queue) == p.queue[0].records + Contents(p.queue[1..]);
  }

  lemma RejectBalances(p: Pipeline, capacity: nat, gapCapacity: nat)
    requires Balanced(p) && Enabled(p, Move.Reject)
    ensures Balanced(Next(p, Move.Reject, capacity, gapCapacity))
  {
    hide Contents, Size, Booked;
    var w := p.phase.window;
    ContentsConcat(p.rejected, [w]);
    ContentsOne(w);
  }

  lemma StepBalances(p: Pipeline, m: Move, capacity: nat, gapCapacity: nat)
    requires Balanced(p) && Enabled(p, m) && Size(p.queue) <= capacity && p.dropped == Size(p.lost)
    ensures var q := Next(p, m, capacity, gapCapacity);
            Balanced(q) && Size(q.queue) <= capacity && q.dropped == Size(q.lost)
  {
    hide Queued, GapBooks.Next, Contents, Size, Booked;
    match m
    case Push(w) => PushBalances(p, w, capacity, gapCapacity);
    case Requeue => RequeueBalances(p, capacity, gapCapacity);
    case Carry(w) => CarryBalances(p, w, capacity, gapCapacity);
    case Pop => PopBalances(p, capacity, gapCapacity);
    case Reject => RejectBalances(p, capacity, gapCapacity);
    case _ =>
  }

  // ----- What is on record of the losses -----

  const OVERFLOWN: Pair := (BufferOverflow, NO_SOURCE)
  const REJECTED: Pair := (WindowRejected, NO_SOURCE)

  function OfPair(gaps: seq<Gap>, pair: Pair): seq<Gap> {
    if gaps == [] then []
    else
      var n := |gaps| - 1;
      OfPair(gaps[..n], pair) + if PairOf(gaps[n]) == pair then [gaps[n]] else []
  }

  function RejectedGaps(ws: seq<Window>): seq<Gap> {
    if ws == [] then [] else RejectedGaps(ws[..|ws| - 1]) + [RejectGap(ws[|ws| - 1])]
  }

  /** Exactly the drops and refusals that happened are on record, in order,
      but for those of the overflow under way. */
  ghost predicate OnRecord(p: Pipeline) {
    && OfPair(p.books.recorded, OVERFLOWN) + OrderedAll(p.owed) == OrderedAll(OverflowGaps(p.lost))
    && OfPair(p.books.recorded, REJECTED) == RejectedGaps(p.rejected)
    && (forall s :: s in p.books.log.open ==>
      p.books.log.open[s].kind != BufferOverflow && p.books.log.open[s].kind != WindowRejected)
  }

  lemma {:induction false} OfPairConcat(a: seq<Gap>, b: seq<Gap>, pair: Pair)
    ensures OfPair(a + b, pair) == OfPair(a, pair) + OfPair(b, pair)
  {
    if b == [] {
      assert a + b == a;
    } else {
      var n := |b| - 1;
      OfPairConcat(a, b[..n], pair);
      assert (a + b)[..|a| + n] == a + b[..n];
    }
  }

  lemma {:induction false} OfPairNone(gaps: seq<Gap>, pair: Pair)
    requires forall g :: g in gaps ==> PairOf(g) != pair
    ensures OfPair(gaps, pair) == []
  {
    if gaps != [] { OfPairNone(gaps[..|gaps| - 1], pair); }
  }

  lemma {:induction false} OrderedAllConcat(a: seq<Gap>, b: seq<Gap>)
    ensures OrderedAll(a + b) == OrderedAll(a) + OrderedAll(b)
  {
    if b == [] {
      assert a + b == a;
    } else {
      OrderedAllConcat(a, b[..|b| - 1]);
      assert (a + b)[..|a + b| - 1] == a + b[..|b| - 1];
    }
  }

  lemma {:induction false} OverflowGapsConcat(a: seq<Window>, b: seq<Window>)
    ensures OverflowGaps(a + b) == OverflowGaps(a) + OverflowGaps(b)
  {
    if b == [] {
      assert a + b == a;
    } else {
      OverflowGapsConcat(a, b[..|b| - 1]);
      assert (a + b)[..|a + b| - 1] == a + b[..|b| - 1];
    }
  }

  lemma OrderedOne(g: Gap)
    ensures OrderedAll([g]) == [Ordered(g)]
  {
    assert [g][..0] == [];
  }

  lemma QueuedOnRecord(p: Pipeline, ws: seq<Window>, capacity: nat)
    requires OnRecord(p) && p.owed == []
    ensures OnRecord(Queued(p, ws, capacity))
  {
    hide Trim;
    var r := Trim(ws, capacity);
    OverflowGapsConcat(p.lost, r.lost);
    OrderedAllConcat(OverflowGaps(p.lost), OverflowGaps(r.lost));
    assert OfPair(p.books.recorded, OVERFLOWN) + [] == OfPair(p.books.recorded, OVERFLOWN);
  }

  lemma BookedOnRecord(b: Books, gap: Gap, gapCapacity: nat, pair: Pair)
    ensures OfPair(Booked(b, gap, gapCapacity).recorded, pair)
         == OfPair(b.recorded, pair) + if PairOf(gap) == pair then [Ordered(gap)] else []
    ensures Booked(b, gap, gapCapacity).log.open == b.log.open
  {
    OrderedOne(gap);
    OfPairConcat(b.recorded, [Ordered(gap)], pair);
    OfPairOne(Ordered(gap), pair);
  }

  lemma OfPairOne(g: Gap, pair: Pair)
    ensures OfPair([g], pair) == if PairOf(g) == pair then [g] else []
  {
    assert [g][..0] == [];
  }

  lemma OweOnRecord(p: Pipeline, capacity: nat, gapCapacity: nat)
    requires OnRecord(p) && p.owed != [] && PairOf(p.owed[0]) == OVERFLOWN
    ensures OnRecord(Next(p, Owe, capacity, gapCapacity))
  {
    hide Booked, OrderedAll, OverflowGaps, OfPair, RejectedGaps;
    var g := p.owed[0];
    BookedOnRecord(p.books, g, gapCapacity, OVERFLOWN);
    BookedOnRecord(p.books, g, gapCapacity, REJECTED);
    assert p.owed == [g] + p.owed[1..];
    OrderedAllConcat([g], p.owed[1..]);
    OrderedOne(g);
    var held := OfPair(p.books.recorded, OVERFLOWN);
    assert held + ([Ordered(g)] + OrderedAll(p.owed[1..])) == held + [Ordered(g)] + OrderedAll(p.owed[1..]);
    assert OfPair(p.books.recorded, REJECTED) + [] == OfPair(p.books.recorded, REJECTED);
  }

  lemma RejectOnRecord(p: Pipeline, capacity: nat, gapCapacity: nat)
    requires OnRecord(p) && Enabled(p, Move.Reject)
    ensures OnRecord(Next(p, Move.Reject, capacity, gapCapacity))
  {
    hide Booked, OrderedAll, OverflowGaps, OfPair;
    var w := p.phase.window;
    if w.records != [] {
      BookedOnRecord(p.books, RejectGap(w), gapCapacity, OVERFLOWN);
      BookedOnRecord(p.books, RejectGap(w), gapCapacity, REJECTED);
      assert (p.rejected + [w])[..|p.rejected|] == p.rejected;
      assert OfPair(p.books.recorded, OVERFLOWN) + [] == OfPair(p.books.recorded, OVERFLOWN);
    }
  }

  lemma {:induction false} OrderedMembers(gaps: seq<Gap>)
    ensures forall g :: g in OrderedAll(gaps) ==> exists h :: h in gaps && g == Ordered(h)
  {
    if gaps != [] {
      var front, last := gaps[..|gaps| - 1], gaps[|gaps| - 1];
      OrderedMembers(front);
      assert gaps == front + [last];
      forall g | g in OrderedAll(gaps) ensures exists h :: h in gaps && g == Ordered(h) {
        if g in OrderedAll(front) {
          var h :| h in front && g == Ordered(h);
          assert h in gaps;
        } else {
          assert last in gaps;
        }
      }
    }
  }

  predicate LossKind(k: Kind) {
    k == BufferOverflow || k == WindowRejected
  }

  lemma {:induction false} CutPiecesKinds(open: map<string, Gap>, order: seq<string>, to: Instant)
    requires forall s :: s in open ==> !LossKind(open[s].kind)
    ensures forall g :: g in GapLog.CutPieces(open, order, to) ==> !LossKind(g.kind)
  {
    if order != [] { CutPiecesKinds(open, order[..|order| - 1], to); }
  }

  lemma LoseOnRecord(p: Pipeline, op: GapLog.Op, capacity: nat, gapCapacity: nat)
    requires OnRecord(p) && Elsewhere(op)
    ensures OnRecord(Next(p, Lose(op), capacity, gapCapacity))
  {
    hide GapLog.AddAll, OrderedAll, OverflowGaps, OfPair, RejectedGaps;
    var gaps := GapLog.Records(p.books.log.open, op);
    assert forall g :: g in gaps ==> !LossKind(g.kind) by {
      if op.CutOpen? { CutPiecesKinds(p.books.log.open, op.order, op.to); }
    }
    RecordedElsewhere(p.books.recorded, gaps, OVERFLOWN);
    RecordedElsewhere(p.books.recorded, gaps, REJECTED);
  }

  lemma RecordedElsewhere(recorded: seq<Gap>, gaps: seq<Gap>, pair: Pair)
    requires (forall g :: g in gaps ==> !LossKind(g.kind)) && LossKind(pair.0)
    ensures OfPair(recorded + OrderedAll(gaps), pair) == OfPair(recorded, pair)
  {
    hide OfPair, OrderedAll;
    OrderedMembers(gaps);
    OfPairNone(OrderedAll(gaps), pair);
    OfPairConcat(recorded, OrderedAll(gaps), pair);
    assert OfPair(recorded, pair) + [] == OfPair(recorded, pair);
  }

  lemma StepOnRecord(p: Pipeline, m: Move, capacity: nat, gapCapacity: nat)
    requires OnRecord(p) && Enabled(p, m) && (forall g :: g in p.owed ==> PairOf(g) == OVERFLOWN)
    ensures OnRecord(Next(p, m, capacity, gapCapacity))
  {
    hide OrderedAll, OverflowGaps, OfPair, RejectedGaps, Queued, Booked, Elsewhere, OnRecord;
    match m
    case Push(w) =>
      var q := p.(pushed := p.pushed + w.records);
      SameOnRecord(p, q);
      QueuedOnRecord(q, p.queue + [w], capacity);
    case Requeue =>
      var q := p.(phase := if p.phase.answer.Stopping? then Done else Idle);
      SameOnRecord(p, q);
      QueuedOnRecord(q, [p.phase.window] + p.queue, capacity);
    case Owe => OweOnRecord(p, capacity, gapCapacity);
    case Reject => RejectOnRecord(p, capacity, gapCapacity);
    case Lose(op) => LoseOnRecord(p, op, capacity, gapCapacity);
    case _ => SameOnRecord(p, Next(p, m, capacity, gapCapacity));
  }

  lemma SameOnRecord(p: Pipeline, q: Pipeline)
    requires OnRecord(p)
    requires q.owed == p.owed && q.lost == p.lost && q.rejected == p.rejected
    requires q.books.recorded == p.books.recorded && q.books.log.open == p.books.log.open
    ensures OnRecord(q)
  {
  }

  lemma {:induction false} OverflowGapsPair(lost: seq<Window>)
    ensures forall g :: g in OverflowGaps(lost) ==> PairOf(g) == OVERFLOWN
  {
    if lost != [] { OverflowGapsPair(lost[..|lost| - 1]); }
  }

  lemma OwedPair(p: Pipeline, m: Move, capacity: nat, gapCapacity: nat)
    requires Enabled(p, m) && forall g :: g in p.owed ==> PairOf(g) == OVERFLOWN
    ensures forall g :: g in Next(p, m, capacity, gapCapacity).owed ==> PairOf(g) == OVERFLOWN
  {
    hide Trim, OverflowGaps, Booked, GapBooks.Next;
    match m
    case Push(w) => OverflowGapsPair(Trim(p.queue + [w], capacity).lost);
    case Requeue => OverflowGapsPair(Trim([p.phase.window] + p.queue, capacity).lost);
    case _ =>
  }

  /** Everything the books must say at every point of a run. */
  ghost predicate Accounts(p: Pipeline, capacity: nat) {
    && Balanced(p)
    && Size(p.queue) <= capacity
    && p.dropped == Size(p.lost)
    && OnRecord(p)
    && (forall g :: g in p.owed ==> PairOf(g) == OVERFLOWN)
    && HasBatch(p)
  }

  /** While a report is out, so are the gaps taken for it: the latest batch. */
  predicate HasBatch(p: Pipeline) {
    p.phase.Sent? || p.phase.Restoring? ==> p.books.out != []
  }

  lemma StepHasBatch(p: Pipeline, m: Move, capacity: nat, gapCapacity: nat)
    requires HasBatch(p) && Enabled(p, m)
    ensures HasBatch(Next(p, m, capacity, gapCapacity))
  {
    hide Trim, OverflowGaps, Size;
  }

  lemma {:induction false} AccountsAlways(states: seq<Pipeline>, moves: seq<Move>, capacity: nat, gapCapacity: nat,
      k: nat)
    requires Trace(states, moves, capacity, gapCapacity) && k < |states|
    ensures Accounts(states[k], capacity)
  {
    hide OnRecord, Enabled;
    if k == 0 {
      StartAccounts(states[0], capacity);
    } else {
      AccountsAlways(states, moves, capacity, gapCapacity, k - 1);
      var p, m := states[k - 1], moves[k - 1];
      hide Next, Balanced, Size, HasBatch;
      StepHasBatch(p, m, capacity, gapCapacity);
      StepBalances(p, m, capacity, gapCapacity);
      StepOnRecord(p, m, capacity, gapCapacity);
      OwedPair(p, m, capacity, gapCapacity);
    }
  }

  lemma StartAccounts(p: Pipeline, capacity: nat)
    requires p == Pipeline([], 0, [], Books(GapLog.Log([], map[]), [], []), Idle, [], [], [], [])
    ensures Accounts(p, capacity)
  {
  }

  // ----- What the counts add up to -----

  lemma {:induction false} TotalOfPair(gaps: seq<Gap>, pair: Pair)
    ensures Total(OfPair(gaps, pair), pair) == Total(gaps, pair)
    ensures Counted(OfPair(gaps, pair), pair) <==> Counted(gaps, pair)
  {
    if gaps != [] {
      var n := |gaps| - 1;
      var of := OfPair(gaps[..n], pair);
      TotalOfPair(gaps[..n], pair);
      assert gaps == gaps[..n] + [gaps[n]];
      if PairOf(gaps[n]) == pair {
        assert (of + [gaps[n]])[..|of|] == of;
      } else {
        assert of + [] == of;
      }
    }
  }

  lemma {:induction false} OverflowTotal(lost: seq<Window>)
    ensures Total(OrderedAll(OverflowGaps(lost)), OVERFLOWN) == Size(lost)
    ensures Counted(OrderedAll(OverflowGaps(lost)), OVERFLOWN)
  {
    if lost != [] {
      var front, w := lost[..|lost| - 1], lost[|lost| - 1];
      OverflowTotal(front);
      assert lost == front + [w];
      ContentsConcat(front, [w]);
      ContentsOne(w);
      var gs := OverflowGaps(front);
      assert (gs + [OverflowGap(w)])[..|gs|] == gs;
      var os := OrderedAll(gs);
      assert (os + [Ordered(OverflowGap(w))])[..|os|] == os;
    }
  }

  lemma {:induction false} RejectedTotal(ws: seq<Window>)
    ensures Total(RejectedGaps(ws), REJECTED) == Size(ws)
    ensures Counted(RejectedGaps(ws), REJECTED)
  {
    if ws != [] {
      var front, w := ws[..|ws| - 1], ws[|ws| - 1];
      RejectedTotal(front);
      assert ws == front + [w];
      ContentsConcat(front, [w]);
      ContentsOne(w);
      var gs := RejectedGaps(front);
      assert (gs + [RejectGap(w)])[..|gs|] == gs;
    }
  }

  /** Dropped and refused records are exactly those counted by the gaps ever
      recorded of the two kinds, and by the overflow under way. */
  lemma RecordedTotals(p: Pipeline, capacity: nat)
    requires Accounts(p, capacity)
    ensures Total(p.books.recorded, OVERFLOWN) + Total(OrderedAll(p.owed), OVERFLOWN) == p.dropped
    ensures Total(p.books.recorded, REJECTED) == Size(p.rejected)
    ensures Counted(p.books.recorded, OVERFLOWN) && Counted(p.books.recorded, REJECTED)
  {
    hide OfPair, OrderedAll, OverflowGaps, RejectedGaps, Total, Balanced, Size;
    var of, owed := OfPair(p.books.recorded, OVERFLOWN), OrderedAll(p.owed);
    TotalOfPair(p.books.recorded, OVERFLOWN);
    TotalOfPair(p.books.recorded, REJECTED);
    OverflowTotal(p.lost);
    RejectedTotal(p.rejected);
    TotalConcat(of, owed, OVERFLOWN);
    CountedConcat(of, owed, OVERFLOWN);
  }

  // ----- Whole runs -----

  ghost predicate Room(moves: seq<Move>, gapCapacity: nat, used: set<Pair>) {
    && |used| <= gapCapacity && OVERFLOWN in used && REJECTED in used
    && forall k :: 0 <= k < |moves| && moves[k].Lose? ==> Uses(moves[k].op, used)
  }

  lemma MoveKept(at: Instant -> int, p: Pipeline, m: Move, capacity: nat, gapCapacity: nat, used: set<Pair>)
    requires Enabled(p, m) && Kept(at, p.books, gapCapacity, used)
    requires forall g :: g in p.owed ==> PairOf(g) == OVERFLOWN
    requires |used| <= gapCapacity && OVERFLOWN in used && REJECTED in used && (m.Lose? ==> Uses(m.op, used))
    ensures Kept(at, Next(p, m, capacity, gapCapacity).books, gapCapacity, used)
  {
    hide Kept, GapBooks.Next, Queued;
    match m
    case Push(w) => QueuedElsewhere(p.(pushed := p.pushed + w.records), p.queue + [w], capacity);
    case Requeue =>
      var q := p.(phase := if p.phase.answer.Stopping? then Done else Idle);
      QueuedElsewhere(q, [p.phase.window] + p.queue, capacity);
    case TakeGaps => StepKeeps(at, p.books, Take, gapCapacity, used);
    case RestoreGaps => StepKeeps(at, p.books, Restore(|p.books.out| - 1), gapCapacity, used);
    case Owe => StepKeeps(at, p.books, Do(GapLog.Op.Record(p.owed[0])), gapCapacity, used);
    case Reject => StepKeeps(at, p.books, Do(GapLog.Op.Record(RejectGap(p.phase.window))), gapCapacity, used);
    case Lose(op) => StepKeeps(at, p.books, Do(op), gapCapacity, used);
    case _ =>
  }

  lemma {:induction false} KeptAlways(at: Instant -> int, states: seq<Pipeline>, moves: seq<Move>, capacity: nat,
      gapCapacity: nat, used: set<Pair>, k: nat)
    requires Trace(states, moves, capacity, gapCapacity) && k < |states| && Room(moves, gapCapacity, used)
    ensures Kept(at, states[k].books, gapCapacity, used)
  {
    hide Kept, Next, Enabled, Accounts, Uses;
    if k == 0 {
      StartKept(at, gapCapacity, used);
    } else {
      KeptAlways(at, states, moves, capacity, gapCapacity, used, k - 1);
      AccountsAlways(states, moves, capacity, gapCapacity, k - 1);
      AccountsOwed(states[k - 1], capacity);
      MoveKept(at, states[k - 1], moves[k - 1], capacity, gapCapacity, used);
    }
  }

  lemma StartKept(at: Instant -> int, gapCapacity: nat, used: set<Pair>)
    ensures Kept(at, Books(GapLog.Log([], map[]), [], []), gapCapacity, used)
  {
    assert [] + Flat([]) == [];
    KeepsSame(at, []);
  }

  lemma AccountsOwed(p: Pipeline, capacity: nat)
    requires Accounts(p, capacity)
    ensures forall g :: g in p.owed ==> PairOf(g) == OVERFLOWN
  {
  }

  /** At every point of every interleaving of the collector, the sources and
      the reporter, whatever the answers: each record pushed is delivered,
      queued, in flight, dropped or refused, exactly once; the queue is within
      capacity; and the drops and refusals are exactly those on record. */
  lemma EveryRecordAccounted(states: seq<Pipeline>, moves: seq<Move>, capacity: nat, gapCapacity: nat, k: nat)
    requires Trace(states, moves, capacity, gapCapacity) && k < |states|
    ensures var p := states[k];
            && |p.pushed| == |p.delivered| + Size(p.queue) + |InFlight(p.phase)| + p.dropped + Size(p.rejected)
            && Balanced(p)
            && Size(p.queue) <= capacity
            && Total(p.books.recorded, OVERFLOWN) + Total(OrderedAll(p.owed), OVERFLOWN) == p.dropped
            && Total(p.books.recorded, REJECTED) == Size(p.rejected)
  {
    hide OnRecord, Trace, Size, Contents, Total;
    var p := states[k];
    AccountsAlways(states, moves, capacity, gapCapacity, k);
    RecordedTotals(p, capacity);
    ContentsSize(p.queue);
    ContentsSize(p.lost);
    ContentsSize(p.rejected);
    assert |multiset(p.pushed)| == |p.pushed|;
  }

  /** With room for every kind and source in use, the losses of records stay
      countable from the gaps that are held, in flight or shipped alone. Every
      refused window stays inside one of them on the wall clock, and every
      dropped window on any reading of the clocks that orders the dropped
      windows' bounds as the program does. */
  lemma LossesStayCountable(
    at: Instant -> int, states: seq<Pipeline>, moves: seq<Move>, capacity: nat, gapCapacity: nat,
    used: set<Pair>, k: nat)
    requires Trace(states, moves, capacity, gapCapacity) && k < |states| && Room(moves, gapCapacity, used)
    ensures var p := states[k];
            var gaps := p.books.log.pending + Flat(p.books.out);
            && |p.books.log.pending| <= gapCapacity
            && Total(gaps, OVERFLOWN) + Total(OrderedAll(p.owed), OVERFLOWN) == p.dropped
            && Total(gaps, REJECTED) == Size(p.rejected)
            && (p.owed == [] && InStep(at, BoundsOf(p.lost)) ==>
                  forall w :: w in p.lost ==> exists h :: h in gaps && DropCovered(at, w, h))
            && (forall w :: w in p.rejected ==> exists h :: h in gaps && RefusalCovered(w, h))
  {
    hide OnRecord, Trace, Size, Total, Flat, Balanced, Accounts, Room;
    var p := states[k];
    var gaps := p.books.log.pending + Flat(p.books.out);
    AccountsAlways(states, moves, capacity, gapCapacity, k);
    RecordedTotals(p, capacity);
    KeptAlways(at, states, moves, capacity, gapCapacity, used, k);
    KeptAlways(Wall, states, moves, capacity, gapCapacity, used, k);
    KeptTotals(at, p.books, gapCapacity, used, OVERFLOWN);
    KeptTotals(at, p.books, gapCapacity, used, REJECTED);
    RejectedReads(p, capacity);
    RejectedCovered(p, capacity, gapCapacity, used);
    forall w | w in p.rejected ensures exists h :: h in gaps && RefusalCovered(w, h) {
      assert Covered(Wall, gaps, RejectGap(w));
      var h :| h in gaps && Within(Wall, RejectGap(w), h);
      RefusedWithin(w, h);
    }
    if p.owed == [] && InStep(at, BoundsOf(p.lost)) {
      LostReads(at, p.lost);
      LostCovered(at, p, capacity, gapCapacity, used);
      forall w | w in p.lost ensures exists h :: h in gaps && DropCovered(at, w, h) {
        assert Covered(at, gaps, Ordered(OverflowGap(w)));
        var h :| h in gaps && Within(at, Ordered(OverflowGap(w)), h);
        DroppedWithin(at, w, h);
      }
    }
  }

  /** The instants some windows start and end at. */
  function BoundsOf(ws: seq<Window>): set<Instant> {
    (set w | w in ws :: w.start) + (set w | w in ws :: w.end)
  }

  /** A gap that says records were dropped over all of a window. */
  predicate DropCovered(at: Instant -> int, w: Window, h: Gap) {
    && h.kind == BufferOverflow && h.source == ""
    && at(h.from) <= at(w.start) && (!Before(w.end, w.start) ==> at(w.end) <= at(h.to))
  }

  /** A gap that says records were refused over all of a window, whichever of its
      bounds reads first. */
  predicate RefusalCovered(w: Window, h: Gap) {
    && h.kind == WindowRejected && h.source == ""
    && h.from.wall <= w.start.wall <= h.to.wall && h.from.wall <= w.end.wall <= h.to.wall
  }

  lemma DroppedWithin(at: Instant -> int, w: Window, h: Gap)
    requires Within(at, Ordered(OverflowGap(w)), h)
    ensures DropCovered(at, w, h)
  {
  }

  lemma RefusedWithin(w: Window, h: Gap)
    requires Within(Wall, RejectGap(w), h)
    ensures RefusalCovered(w, h)
  {
  }

  lemma {:induction false} OverflowMembers(lost: seq<Window>)
    ensures forall g :: g in OverflowGaps(lost) ==> exists w :: w in lost && g == OverflowGap(w)
  {
    if lost != [] {
      var n := |lost| - 1;
      OverflowMembers(lost[..n]);
      assert lost == lost[..n] + [lost[n]];
      forall g | g in OverflowGaps(lost) ensures exists w :: w in lost && g == OverflowGap(w) {
        if g in OverflowGaps(lost[..n]) {
          var w :| w in lost[..n] && g == OverflowGap(w);
          assert w in lost;
        } else {
          assert lost[n] in lost;
        }
      }
    }
  }

  lemma LostReads(at: Instant -> int, lost: seq<Window>)
    requires InStep(at, BoundsOf(lost))
    ensures Reads(at, OrderedAll(OverflowGaps(lost)), OVERFLOWN)
  {
    hide InStep;
    var gaps := OrderedAll(OverflowGaps(lost));
    OverflowMembers(lost);
    OrderedMembers(OverflowGaps(lost));
    forall g | g in gaps ensures g.from in BoundsOf(lost) && g.to in BoundsOf(lost) {
      var h :| h in OverflowGaps(lost) && g == Ordered(h);
      var w :| w in lost && h == OverflowGap(w);
    }
    InStepSubset(at, Starts(gaps, OVERFLOWN), BoundsOf(lost));
    InStepSubset(at, Stops(gaps, OVERFLOWN), BoundsOf(lost));
  }

  lemma KeptTotals(at: Instant -> int, b: Books, gapCapacity: nat, used: set<Pair>, pair: Pair)
    requires Kept(at, b, gapCapacity, used) && Counted(b.recorded, pair)
    ensures |b.log.pending| <= gapCapacity
    ensures Total(b.log.pending + Flat(b.out), pair) == Total(b.recorded, pair)
  {
    hide Total, Counted, Flat, Covers, Tight, Pairs;
  }

  lemma RejectedCovered(p: Pipeline, capacity: nat, gapCapacity: nat, used: set<Pair>)
    requires Accounts(p, capacity) && Kept(Wall, p.books, gapCapacity, used) && Reads(Wall, p.books.recorded, REJECTED)
    ensures forall w :: w in p.rejected ==> Covered(Wall, p.books.log.pending + Flat(p.books.out), RejectGap(w))
  {
    hide Total, Counted, Flat, Tight, Pairs, Reads, Accounts, Covered;
    LossesOnRecord(p, capacity);
    forall w | w in p.rejected ensures Covered(Wall, p.books.log.pending + Flat(p.books.out), RejectGap(w)) {
      assert RejectGap(w) in p.books.recorded && PairOf(RejectGap(w)) == REJECTED;
    }
  }

  lemma LostCovered(at: Instant -> int, p: Pipeline, capacity: nat, gapCapacity: nat, used: set<Pair>)
    requires Accounts(p, capacity) && Kept(at, p.books, gapCapacity, used)
    requires p.owed == [] && Reads(at, OrderedAll(OverflowGaps(p.lost)), OVERFLOWN)
    ensures forall w :: w in p.lost ==> Covered(at, p.books.log.pending + Flat(p.books.out), Ordered(OverflowGap(w)))
  {
    hide Total, Counted, Flat, Tight, Pairs, Reads, Covered;
    LossesOnRecord(p, capacity);
    OfPairEnds(p.books.recorded, OVERFLOWN);
    assert OfPair(p.books.recorded, OVERFLOWN) + [] == OfPair(p.books.recorded, OVERFLOWN);
    SameReads(at, OfPair(p.books.recorded, OVERFLOWN), p.books.recorded, OVERFLOWN);
    forall w | w in p.lost ensures Covered(at, p.books.log.pending + Flat(p.books.out), Ordered(OverflowGap(w))) {
      assert Ordered(OverflowGap(w)) in p.books.recorded && PairOf(Ordered(OverflowGap(w))) == OVERFLOWN;
    }
  }

  lemma {:induction false} OfPairEnds(gaps: seq<Gap>, pair: Pair)
    ensures forall g :: g in OfPair(gaps, pair) <==> g in gaps && PairOf(g) == pair
  {
    if gaps != [] {
      var n := |gaps| - 1;
      OfPairEnds(gaps[..n], pair);
      assert gaps == gaps[..n] + [gaps[n]];
    }
  }

  lemma SameReads(at: Instant -> int, of: seq<Gap>, gaps: seq<Gap>, pair: Pair)
    requires forall g :: g in of <==> g in gaps && PairOf(g) == pair
    requires Reads(at, of, pair)
    ensures Reads(at, gaps, pair)
  {
    InStepSubset(at, Starts(gaps, pair), Starts(of, pair));
    InStepSubset(at, Stops(gaps, pair), Stops(of, pair));
  }

  lemma {:induction false} RejectedStripped(ws: seq<Window>)
    ensures forall g :: g in RejectedGaps(ws) ==> g.from.mono.None? && g.to.mono.None?
  {
    if ws != [] { RejectedStripped(ws[..|ws| - 1]); }
  }

  /** Refusals are recorded on the wall clock alone. */
  lemma RejectedReads(p: Pipeline, capacity: nat)
    requires Accounts(p, capacity)
    ensures Reads(Wall, p.books.recorded, REJECTED)
  {
    hide Balanced, OfPair, RejectedGaps;
    RejectedStripped(p.rejected);
    OfPairEnds(p.books.recorded, REJECTED);
    WallInStep(Starts(p.books.recorded, REJECTED));
    WallInStep(Stops(p.books.recorded, REJECTED));
  }

  lemma {:induction false} LostMembers(lost: seq<Window>)
    ensures forall w :: w in lost ==> Ordered(OverflowGap(w)) in OrderedAll(OverflowGaps(lost))
  {
    if lost != [] {
      LostMembers(lost[..|lost| - 1]);
      assert lost == lost[..|lost| - 1] + [lost[|lost| - 1]];
      var gs, g := OverflowGaps(lost[..|lost| - 1]), OverflowGap(lost[|lost| - 1]);
      OrderedAllConcat(gs, [g]);
      OrderedOne(g);
    }
  }

  lemma {:induction false} RejectedMembers(ws: seq<Window>)
    ensures forall w :: w in ws ==> RejectGap(w) in RejectedGaps(ws)
  {
    if ws != [] {
      RejectedMembers(ws[..|ws| - 1]);
      assert ws == ws[..|ws| - 1] + [ws[|ws| - 1]];
    }
  }

  lemma LossesOnRecord(p: Pipeline, capacity: nat)
    requires Accounts(p, capacity)
    ensures p.owed == [] ==> forall w :: w in p.lost ==> Ordered(OverflowGap(w)) in p.books.recorded
    ensures forall w :: w in p.rejected ==> RejectGap(w) in p.books.recorded
  {
    hide OverflowGap, RejectGap, Balanced, OfPair;
    OfPairEnds(p.books.recorded, OVERFLOWN);
    OfPairEnds(p.books.recorded, REJECTED);
    LostMembers(p.lost);
    RejectedMembers(p.rejected);
    if p.owed == [] {
      assert OfPair(p.books.recorded, OVERFLOWN) + [] == OfPair(p.books.recorded, OVERFLOWN);
    }
  }

  // ----- Order -----

  /** a is b with some elements left out. */
  predicate Sub<T(==)>(a: seq<T>, b: seq<T>) {
    if a == [] then true
    else if b == [] then false
    else (a[|a| - 1] == b[|b| - 1] && Sub(a[..|a| - 1], b[..|b| - 1])) || Sub(a, b[..|b| - 1])
  }

  lemma {:induction false} SubAppend<T>(a: seq<T>, b: seq<T>, c: seq<T>)
    requires Sub(a, b)
    ensures Sub(a + c, b + c)
  {
    if c == [] {
      assert a + c == a && b + c == b;
    } else {
      var n := |c| - 1;
      SubAppend(a, b, c[..n]);
      assert (a + c)[..|a| + n] == a + c[..n] && (b + c)[..|b| + n] == b + c[..n];
    }
  }

  lemma {:induction false} SubSelf<T>(a: seq<T>)
    ensures Sub(a, a)
  {
    if a != [] { SubSelf(a[..|a| - 1]); }
  }

  lemma {:induction false} SubPrefix<T>(a: seq<T>, b: seq<T>)
    ensures Sub(a, a + b)
  {
    if b == [] {
      assert a + b == a;
      SubSelf(a);
    } else {
      SubPrefix(a, b[..|b| - 1]);
      assert (a + b)[..|a + b| - 1] == a + b[..|b| - 1];
    }
  }

  lemma {:induction false} SubTransitive<T>(a: seq<T>, b: seq<T>, c: seq<T>)
    requires Sub(a, b) && Sub(b, c)
    ensures Sub(a, c)
    decreases |c|
  {
    if a != [] && b != [] && c != [] {
      var x, y, z := a[..|a| - 1], b[..|b| - 1], c[..|c| - 1];
      if Sub(b, z) {
        SubTransitive(a, b, z);
      } else if a[|a| - 1] == b[|b| - 1] && Sub(x, y) {
        SubTransitive(x, y, z);
      } else {
        SubTransitive(a, y, z);
      }
    }
  }

  /** Leaving out a middle part. */
  lemma SubMiddle<T>(a: seq<T>, m: seq<T>, c: seq<T>, all: seq<T>)
    requires Sub(a + m + c, all)
    ensures Sub(a + c, all)
  {
    SubPrefix(a, m);
    SubAppend(a, a + m, c);
    SubTransitive(a + c, a + m + c, all);
  }

  /** What is delivered, in flight and queued, in that order, is what was pushed
      with some left out. */
  ghost predicate InOrder(p: Pipeline) {
    Sub(p.delivered + InFlight(p.phase) + Contents(p.queue), p.pushed)
  }

  lemma QueuedInOrder(p: Pipeline, ws: seq<Window>, capacity: nat, ahead: seq<FlowRecord>)
    requires Sub(ahead + Contents(ws), p.pushed)
    ensures Sub(ahead + Contents(Queued(p, ws, capacity).queue), p.pushed)
  {
    hide Sub, Contents, Trim;
    var r := Trim(ws, capacity);
    TrimSplits(ws, capacity);
    assert ahead + Contents(ws) == ahead + Contents(r.lost) + Contents(r.windows);
    SubMiddle(ahead, Contents(r.lost), Contents(r.windows), p.pushed);
  }

  lemma PushInOrder(p: Pipeline, w: Window, capacity: nat, gapCapacity: nat)
    requires InOrder(p) && Enabled(p, Push(w))
    ensures InOrder(Next(p, Push(w), capacity, gapCapacity))
  {
    hide Sub, Contents, Queued;
    var ahead := p.delivered + InFlight(p.phase);
    var q := p.(pushed := p.pushed + w.records);
    SubAppend(ahead + Contents(p.queue), p.pushed, w.records);
    if w.records == [] {
      assert ahead + Contents(p.queue) + w.records == ahead + Contents(p.queue);
    } else {
      ContentsConcat(p.queue, [w]);
      ContentsOne(w);
      assert ahead + Contents(p.queue) + w.records == ahead + Contents(p.queue + [w]);
      QueuedInOrder(q, p.queue + [w], capacity, ahead);
      QueuedElsewhere(q, p.queue + [w], capacity);
    }
  }

  lemma RequeueInOrder(p: Pipeline, capacity: nat, gapCapacity: nat)
    requires InOrder(p) && Enabled(p, Move.Requeue)
    ensures InOrder(Next(p, Move.Requeue, capacity, gapCapacity))
  {
    hide Sub, Contents, Queued;
    var w := p.phase.window;
    var q := p.(phase := if p.phase.answer.Stopping? then Done else Idle);
    if w.records == [] {
      assert p.delivered + w.records == p.delivered + [];
    } else {
      ContentsConcat([w], p.queue);
      ContentsOne(w);
      assert p.delivered + w.records + Contents(p.queue) == p.delivered + Contents([w] + p.queue);
      QueuedInOrder(q, [w] + p.queue, capacity, p.delivered);
      QueuedElsewhere(q, [w] + p.queue, capacity);
      assert p.delivered + [] == p.delivered;
    }
  }

  lemma StepInOrder(p: Pipeline, m: Move, capacity: nat, gapCapacity: nat)
    requires InOrder(p) && Enabled(p, m)
    ensures InOrder(Next(p, m, capacity, gapCapacity))
  {
    hide Sub, Contents, Queued, Booked, GapBooks.Next, Elsewhere;
    match m
    case Push(w) => PushInOrder(p, w, capacity, gapCapacity);
    case Requeue => RequeueInOrder(p, capacity, gapCapacity);
    case Carry(w) => CarryBalances(p, w, capacity, gapCapacity);
    case Pop =>
      ContentsCons(p.queue);
      var w := p.queue[0];
      assert p.delivered + [] + Contents(p.queue) == p.delivered + w.records + Contents(p.queue[1..]);
    case Answered(a) =>
      var w := p.phase.window;
      assert p.delivered + w.records + [] == p.delivered + w.records;
    case Reject =>
      SubMiddle(p.delivered, p.phase.window.records, Contents(p.queue), p.pushed);
      assert p.delivered + [] == p.delivered;
    case _ =>
  }

  /** In every run records are delivered in the order they were pushed: what is
      delivered, then what is in flight, then what is queued, is what was pushed
      but for what was dropped or refused. */
  lemma {:induction false} DeliveredInOrder(states: seq<Pipeline>, moves: seq<Move>, capacity: nat, gapCapacity: nat,
      k: nat)
    requires Trace(states, moves, capacity, gapCapacity) && k < |states|
    ensures InOrder(states[k])
  {
    if k > 0 {
      hide InOrder, Next, Enabled;
      DeliveredInOrder(states, moves, capacity, gapCapacity, k - 1);
      StepInOrder(states[k - 1], moves[k - 1], capacity, gapCapacity);
    }
  }

  // ----- What an answer decides -----

  /** An accepted window is delivered; any other answer has its gaps put back
      first. Then a refused window is given up, on record if it held records, and
      never retried; every other is put back as the oldest, trimmed to fit, and
      the reporter goes on unless it is stopping. */
  lemma AnswersSay(p: Pipeline, a: Answer, capacity: nat, gapCapacity: nat)
    requires p.phase.Sent? && p.books.out != []
    ensures var w, q := p.phase.window, Next(p, Answered(a), capacity, gapCapacity);
            if a.Accepted? then q == p.(delivered := p.delivered + w.records, phase := Idle)
            else
              && Enabled(q, RestoreGaps)
              && var s := Next(q, RestoreGaps, capacity, gapCapacity);
                 && s.phase.Settling? && s.queue == p.queue && s.delivered == p.delivered && s.rejected == p.rejected
                 && s.books.out == p.books.out[..|p.books.out| - 1]
                 && (Enabled(s, Reject) <==> a.Refused?) && (Enabled(s, Requeue) <==> !a.Refused? && s.owed == [])
                 && (a.Refused? ==>
                       var r := Next(s, Reject, capacity, gapCapacity);
                       r.queue == s.queue && r.phase.Idle? && r.rejected == s.rejected + Losing(w))
                 && (!a.Refused? && s.owed == [] ==>
                       var r := Next(s, Requeue, capacity, gapCapacity);
                       && (r.phase.Done? <==> a.Stopping?) && r.rejected == s.rejected && r.delivered == s.delivered
                       && (Size([w] + s.queue) <= capacity && w.records != [] ==> r.queue == [w] + s.queue)
                       && (w.records == [] ==> r.queue == s.queue))
  {
    hide Shrink, OverflowGaps;
    var n := |p.books.out| - 1;
    assert p.books.out[..n] + p.books.out[n + 1..] == p.books.out[..n];
    TrimDoneIfFits([p.phase.window] + p.queue, capacity);
  }

  lemma TrimDoneIfFits(ws: seq<Window>, capacity: nat)
    ensures Size(ws) <= capacity ==> Trim(ws, capacity) == Trimmed(ws, [])
  {
  }
}
