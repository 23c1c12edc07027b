/** The bounded buffer of closed windows: what does not fit is dropped oldest
    first, counted, and put on record as a gap. */
module Buffering {
  import opened Aggregation
  import opened GapAlgebra
  import opened Wrappers
  import GapLog

  const DEFAULT_BUFFER_RECORDS: nat := 50_000
  const NO_SOURCE: string := ""

  function Size(ws: seq<Window>): nat {
    if ws == [] then 0 else |ws[0].records| + Size(ws[1..])
  }

  /** The queued records, oldest first. */
  function Contents(ws: seq<Window>): seq<FlowRecord> {
    if ws == [] then [] else ws[0].records + Contents(ws[1..])
  }

  lemma {:induction false} ContentsSize(ws: seq<Window>)
    ensures |Contents(ws)| == Size(ws)
  {
    if ws != [] { ContentsSize(ws[1..]); }
  }

  lemma {:induction false} ContentsConcat(a: seq<Window>, b: seq<Window>)
    ensures Contents(a + b) == Contents(a) + Contents(b)
    ensures Size(a + b) == Size(a) + Size(b)
  {
    if a == [] {
      assert a + b == b;
    } else {
      ContentsConcat(a[1..], b);
      assert (a + b)[1..] == a[1..] + b && (a + b)[0] == a[0];
      ContentsCons(a);
      ContentsCons(a + b);
      hide Contents, Size;
    }
  }

  lemma ContentsCons(ws: seq<Window>)
    requires ws != []
    ensures Contents(ws) == ws[0].records + Contents(ws[1..]) && Size(ws) == |ws[0].records| + Size(ws[1..])
  {
  }

  lemma ContentsOne(w: Window)
    ensures Contents([w]) == w.records && Size([w]) == |w.records|
  {
    assert [w][1..] == [];
  }

  /** What trimming leaves, and what it drops: whole windows and the cut part
      of a window. */
  datatype Trimmed = Trimmed(windows: seq<Window>, lost: seq<Window>)

  function Losing(w: Window): seq<Window> {
    if w.records == [] then [] else [w]
  }

  function Trim(ws: seq<Window>, capacity: nat): Trimmed {
    if Size(ws) > capacity && |ws| > 1 then
      var r := Trim(ws[1..], capacity);
      Trimmed(r.windows, Losing(ws[0]) + r.lost)
    else if Size(ws) > capacity && |ws| == 1 then
      var w := ws[0];
      assert Size(ws) == |w.records| by { assert ws[1..] == []; }
      var excess := Size(ws) - capacity;
      Trimmed([w.(records := w.records[excess..])], [w.(records := w.records[..excess])])
    else Trimmed(ws, [])
  }

  /** Trimming makes the windows fit and splits the records in two: what is
      dropped came before everything that is kept. */
  lemma {:induction false} TrimSplits(ws: seq<Window>, capacity: nat)
    ensures var r := Trim(ws, capacity);
            && Size(r.windows) <= capacity
            && Contents(r.lost) + Contents(r.windows) == Contents(ws)
            && Size(r.lost) + Size(r.windows) == Size(ws)
            && (forall w :: w in r.lost ==> w.records != [])
  {
    if Size(ws) > capacity && |ws| > 1 {
      TrimSplits(ws[1..], capacity);
      var r := Trim(ws[1..], capacity);
      ContentsConcat(Losing(ws[0]), r.lost);
      if ws[0].records != [] { ContentsOne(ws[0]); }
    } else if Size(ws) > capacity && |ws| == 1 {
      var w := ws[0];
      assert ws[1..] == [];
      var excess := Size(ws) - capacity;
      ContentsOne(w.(records := w.records[excess..]));
      ContentsOne(w.(records := w.records[..excess]));
    }
  }

  /** Trimming drops nothing that would have fitted: with the last part it
      dropped back in, the windows would be over capacity. */
  lemma {:induction false} TrimDropsLeast(ws: seq<Window>, capacity: nat)
    ensures var r := Trim(ws, capacity);
            && (r.lost == [] <==> Size(ws) <= capacity)
            && (r.lost != [] ==> Size(r.windows) + |r.lost[|r.lost| - 1].records| > capacity)
  {
    TrimSplits(ws, capacity);
    if Size(ws) > capacity && |ws| > 1 {
      TrimDropsLeast(ws[1..], capacity);
      TrimSplits(ws[1..], capacity);
    } else if Size(ws) > capacity && |ws| == 1 {
      assert ws == [ws[0]];
      TrimCuts(ws[0], capacity);
    }
  }

  function OverflowGap(w: Window): Gap {
    Gap(BufferOverflow, NO_SOURCE, w.start, w.end, |w.records|, true)
  }

  function OverflowGaps(lost: seq<Window>): (r: seq<Gap>)
    ensures |r| == |lost|
  {
    if lost == [] then [] else OverflowGaps(lost[..|lost| - 1]) + [OverflowGap(lost[|lost| - 1])]
  }

  /** A log after some gaps were recorded in it. */
  function Recorded(l: GapLog.Log, gaps: seq<Gap>, capacity: nat): GapLog.Log {
    GapLog.Log(GapLog.AddAll(l.pending, gaps, capacity), l.open)
  }

  lemma RecordedMore(l: GapLog.Log, lost: seq<Window>, w: Window, capacity: nat)
    ensures Recorded(l, OverflowGaps(lost + [w]), capacity)
         == GapLog.Do(Recorded(l, OverflowGaps(lost), capacity), GapLog.Op.Record(OverflowGap(w)), capacity)
  {
    assert (lost + [w])[..|lost|] == lost;
    GapLog.AddAllMore(l.pending, OverflowGaps(lost), OverflowGap(w), capacity);
    GapLog.AddAllOne(GapLog.AddAll(l.pending, OverflowGaps(lost), capacity), OverflowGap(w), capacity);
  }

  class Buffer {
    var windows: seq<Window>
    var records: int
    const capacity: nat
    var dropped: nat
    const gaps: GapLog.Gaps?

    ghost predicate Counts()
      reads this
    {
      records == Size(windows)
    }

    /** Between operations: the count is the sum of the window lengths, and
        within capacity. */
    ghost predicate Valid()
      reads this
    {
      Counts() && records <= capacity
    }

    constructor (capacity: int, gaps: GapLog.Gaps?)
      ensures Valid() && windows == [] && dropped == 0 && this.gaps == gaps
      ensures this.capacity == (if capacity <= 0 then 50_000 else capacity)
    {
      windows, records, dropped := [], 0, 0;
      this.capacity := if capacity <= 0 then DEFAULT_BUFFER_RECORDS else capacity;
      this.gaps := gaps;
    }

    /** The windows became what is left of these after trimming, and what was
        dropped is counted; the log follows in GapsTrimmed. */
    twostate predicate TrimmedFrom(ws: seq<Window>)
      reads this
    {
      var r := Trim(ws, capacity);
      windows == r.windows && dropped == old(dropped) + Size(r.lost) && Valid()
    }

    twostate predicate GapsTrimmed(ws: seq<Window>)
      reads this, gaps
    {
      gaps != null ==>
        && gaps.capacity == old(gaps.capacity)
        && gaps.View() == Recorded(old(gaps.View()), OverflowGaps(Trim(ws, capacity).lost), gaps.Capacity())
    }

    method Push(w: Window)
      requires Valid()
      modifies this, gaps
      ensures w.records == [] ==> unchanged(this) && (gaps != null ==> unchanged(gaps))
      ensures w.records != [] ==> TrimmedFrom(old(windows) + [w]) && GapsTrimmed(old(windows) + [w])
    {
      if |w.records| == 0 {
        return;
      }
      ContentsConcat(windows, [w]);
      ContentsOne(w);
      windows := windows + [w];
      records := records + |w.records|;
      TrimWindows();
    }

    method Requeue(w: Window)
      requires Valid()
      modifies this, gaps
      ensures w.records == [] ==> unchanged(this) && (gaps != null ==> unchanged(gaps))
      ensures w.records != [] ==> TrimmedFrom([w] + old(windows)) && GapsTrimmed([w] + old(windows))
    {
      if |w.records| == 0 {
        return;
      }
      ContentsConcat([w], windows);
      ContentsOne(w);
      windows := [w] + windows;
      records := records + |w.records|;
      TrimWindows();
    }

    method TrimWindows()
      requires Counts()
      modifies this, gaps
      ensures TrimmedFrom(old(windows)) && GapsTrimmed(old(windows))
    {
      hide Recorded, OverflowGap, OverflowGaps, Trim, Size;
      ghost var lost: seq<Window> := [];
      ghost var all := Trim(windows, capacity);
      ghost var log := if gaps != null then gaps.View() else GapLog.Log([], map[]);
      TrimBegins(log, if gaps != null then gaps.Capacity() else 0, all.lost);
      while records > capacity && |windows| > 1
        invariant Counts()
        invariant Trimmed(Trim(windows, capacity).windows, lost + Trim(windows, capacity).lost) == all
        invariant dropped == old(dropped) + Size(lost)
        invariant gaps != null ==>
            gaps.capacity == old(gaps.capacity) && gaps.View() == Recorded(log, OverflowGaps(lost), gaps.Capacity())
        decreases |windows|
      {
        var oldest := windows[0];
        TrimDrops(windows, capacity, lost);
        windows := windows[1..];
        records := records - |oldest.records|;
        lost := Overflow(oldest, |oldest.records|, oldest, lost, log);
      }
      if records > capacity && |windows| == 1 {
        var w := windows[0];
        assert windows == [w];
        TrimCuts(w, capacity);
        var excess := records - capacity;
        windows := [w.(records := w.records[excess..])];
        records := records - excess;
        lost := Overflow(w, excess, w.(records := w.records[..excess]), lost, log);
      } else {
        TrimDone(windows, capacity);
        assert lost + [] == lost;
      }
    }

    /** Counts n records dropped from w, the part of it that is lost, and
        records the loss over w's bounds. */
    method Overflow(w: Window, n: int, ghost part: Window, ghost lost: seq<Window>, ghost log: GapLog.Log)
      returns (ghost more: seq<Window>)
      requires n == |part.records| && part.start == w.start && part.end == w.end
      requires gaps != null ==> gaps.View() == Recorded(log, OverflowGaps(lost), gaps.Capacity())
      modifies this`dropped, gaps
      ensures more == lost + Losing(part)
      ensures dropped == old(dropped) + n && Size(more) == Size(lost) + n
      ensures gaps != null ==>
          gaps.capacity == old(gaps.capacity) && gaps.View() == Recorded(log, OverflowGaps(more), gaps.Capacity())
    {
      more := lost + Losing(part);
      if n <= 0 {
        assert more == lost;
        return;
      }
      ContentsConcat(lost, [part]);
      ContentsOne(part);
      dropped := dropped + n;
      if gaps != null {
        RecordedMore(log, lost, part, gaps.Capacity());
        gaps.RecordGap(Gap(BufferOverflow, NO_SOURCE, w.start, w.end, n, true));
      }
    }

    /** Queues a window for waiting gaps to ride, unless one is queued. It does
        not count its records, so the count stays right exactly when the window
        it queues holds none. */
    method Carry(w: Window)
      requires Valid()
      modifies this`windows
      ensures windows == if old(windows) != [] then old(windows) else [w]
      ensures Valid() <==> old(windows) != [] || w.records == []
    {
      if |windows| > 0 {
        return;
      }
      ContentsOne(w);
      windows := windows + [w];
    }

    /** Removes the oldest window; none is the caller's to wait for. */
    method Pop() returns (w: Option<Window>)
      requires Valid()
      modifies this`windows, this`records
      ensures Valid()
      ensures w == if old(windows) == [] then None else Some(old(windows)[0])
      ensures windows == if old(windows) == [] then [] else old(windows)[1..]
    {
      if |windows| > 0 {
        w := Some(windows[0]);
        windows := windows[1..];
        records := records - |w.value.records|;
      } else {
        w := None;
      }
    }
  }

  lemma TrimBegins(l: GapLog.Log, capacity: nat, lost: seq<Window>)
    ensures Recorded(l, OverflowGaps([]), capacity) == l && Size([]) == 0 && [] + lost == lost
  {
  }

  lemma TrimDrops(ws: seq<Window>, capacity: nat, lost: seq<Window>)
    requires Size(ws) > capacity && |ws| > 1
    ensures Size(ws) == |ws[0].records| + Size(ws[1..])
    ensures Trim(ws, capacity).windows == Trim(ws[1..], capacity).windows
    ensures lost + Trim(ws, capacity).lost == lost + Losing(ws[0]) + Trim(ws[1..], capacity).lost
  {
  }

  lemma TrimCuts(w: Window, capacity: nat)
    requires Size([w]) > capacity
    ensures Size([w]) == |w.records|
    ensures var excess := |w.records| - capacity;
            var kept, part := w.(records := w.records[excess..]), w.(records := w.records[..excess]);
            Trim([w], capacity) == Trimmed([kept], [part]) && Size([kept]) == capacity && Losing(part) == [part]
  {
    ContentsOne(w);
    ContentsOne(w.(records := w.records[|w.records| - capacity..]));
  }

  lemma TrimDone(ws: seq<Window>, capacity: nat)
    requires Size(ws) <= capacity || ws == []
    ensures Trim(ws, capacity) == Trimmed(ws, []) && Size(ws) <= capacity
  {
  }

  // ----- Splitting a window into requests -----

  const DEFAULT_BATCH_MAX: nat := 1000

  /** A request as it is shipped: its bounds are wall readings. */
  datatype Request = Request(start: int, end: int, records: seq<FlowRecord>)

  function Joined(reqs: seq<Request>): seq<FlowRecord> {
    if reqs == [] then [] else Joined(reqs[..|reqs| - 1]) + reqs[|reqs| - 1].records
  }

  /** Splits a window into requests of at most batchMax records, each with its
      bounds: joined again they are the window, and only the last is short. */
  method Batches(w: Window, batchMax: int) returns (out: seq<Request>)
    ensures out != [] && Joined(out) == w.records
    ensures forall r :: r in out ==> r.start == w.start.wall && r.end == w.end.wall
    ensures var most := if batchMax <= 0 then 1000 else batchMax;
            && (forall i :: 0 <= i < |out| ==> |out[i].records| <= most)
            && (forall i :: 0 <= i < |out| - 1 ==> |out[i].records| == most)
            && (w.records != [] ==> out[|out| - 1].records != [])
  {
    var most := if batchMax <= 0 then DEFAULT_BATCH_MAX else batchMax;
    if |w.records| == 0 {
      out := [Request(w.start.wall, w.end.wall, [])];
      assert Joined(out[..0]) == [];
      return;
    }
    out := [];
    var i := 0;
    while i < |w.records|
      invariant 0 <= i
      invariant out == [] ==> i == 0
      invariant Joined(out) == w.records[..if i < |w.records| then i else |w.records|]
      invariant forall r :: r in out ==> r.start == w.start.wall && r.end == w.end.wall
      invariant forall k :: 0 <= k < |out| ==> 0 < |out[k].records| <= most
      invariant forall k :: 0 <= k < |out| - 1 ==> |out[k].records| == most
      invariant i < |w.records| && out != [] ==> |out[|out| - 1].records| == most
    {
      var end := if i + most < |w.records| then i + most else |w.records|;
      var req := Request(w.start.wall, w.end.wall, w.records[i..end]);
      assert (out + [req])[..|out|] == out;
      assert w.records[..i] + w.records[i..end] == w.records[..end];
      out := out + [req];
      i := i + most;
    }
    assert w.records[..|w.records|] == w.records;
  }

  /** What is kept and what is dropped keeps the bounds of the window it was part
      of. */
  lemma {:induction false} TrimKeepsBounds(ws: seq<Window>, capacity: nat)
    ensures forall w :: w in Trim(ws, capacity).windows || w in Trim(ws, capacity).lost ==>
              exists v :: v in ws && v.start == w.start && v.end == w.end
  {
    if Size(ws) > capacity && |ws| > 1 {
      TrimKeepsBounds(ws[1..], capacity);
      assert ws == [ws[0]] + ws[1..];
    } else if Size(ws) > capacity && |ws| == 1 {
      assert ws == [ws[0]];
      TrimCuts(ws[0], capacity);
    }
  }
}
