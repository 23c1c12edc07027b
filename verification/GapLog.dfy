/** The gap log as an object, and what no sequence of its operations loses. */
module GapLog {
  import opened Wrappers
  import opened Clocks
  import opened GapAlgebra

  const DEFAULT_GAP_CAPACITY: nat := 1024

  /** The zero instant, which an open interval has for its end. */
  const ZERO: Instant := Instant(0, None)

  /** Kinds whose open interval can last, and is shipped in pieces. */
  predicate CutWhileOpen(k: Kind) {
    k == TableRemoved
  }

  datatype Log = Log(pending: seq<Gap>, open: map<string, Gap>)

  function AddAll(pending: seq<Gap>, gaps: seq<Gap>, capacity: nat): seq<Gap> {
    if gaps == [] then pending else Add(AddAll(pending, gaps[..|gaps| - 1], capacity), gaps[|gaps| - 1], capacity)
  }

  predicate Cuttable(g: Gap, to: Instant) {
    CutWhileOpen(g.kind) && Before(g.from, to)
  }

  /** The pieces a cut records, in the order the open intervals are ranged. */
  function CutPieces(open: map<string, Gap>, order: seq<string>, to: Instant): seq<Gap> {
    if order == [] then []
    else
      var n := |order| - 1;
      CutPieces(open, order[..n], to)
      + (if order[n] in open && Cuttable(open[order[n]], to) then [open[order[n]].(to := to)] else [])
  }

  /** The open intervals after a cut: a cut one goes on from the cut. */
  function CutFrom(open: map<string, Gap>, done: set<string>, to: Instant): map<string, Gap> {
    map s | s in open :: if s in done && Cuttable(open[s], to) then open[s].(from := to) else open[s]
  }

  predicate Once(order: seq<string>) {
    forall i, j :: 0 <= i < j < |order| ==> order[i] != order[j]
  }

  datatype Op =
    | Record(gap: Gap)
    | Open(source: string, kind: Kind, from: Instant)
    | Close(source: string, to: Instant)
    | CutOpen(to: Instant, order: seq<string>)

  /** The gaps an operation records, in order. */
  function Records(open: map<string, Gap>, op: Op): seq<Gap> {
    match op
    case Record(gap) => [gap]
    case Open(s, kind, from) => if s in open && open[s].kind != kind then [open[s].(to := from)] else []
    case Close(s, to) => if s in open then [open[s].(to := to)] else []
    case CutOpen(to, order) => CutPieces(open, order, to)
  }

  /** The open intervals an operation leaves. */
  function Leaves(open: map<string, Gap>, op: Op): map<string, Gap> {
    match op
    case Record(_) => open
    case Open(s, kind, from) =>
      if s in open && open[s].kind == kind then open else open[s := Gap(kind, s, from, ZERO, 0, false)]
    case Close(s, _) => open - {s}
    case CutOpen(to, order) => CutFrom(open, (set s | s in order), to)
  }

  function Do(l: Log, op: Op, capacity: nat): Log {
    Log(AddAll(l.pending, Records(l.open, op), capacity), Leaves(l.open, op))
  }

  class Gaps {
    var capacity: int
    var pending: seq<Gap>
    var open: map<string, Gap>

    constructor (capacity: int)
      ensures View() == Log([], map[]) && this.capacity == capacity
    {
      this.capacity, pending, open := capacity, [], map[];
    }

    function View(): Log
      reads this
    {
      Log(pending, open)
    }

    function Capacity(): (c: nat)
      reads this
      ensures c == if capacity > 0 then capacity else 1024
    {
      if capacity > 0 then capacity else DEFAULT_GAP_CAPACITY
    }

    method Add(gap: Gap)
      modifies this`pending
      ensures pending == GapAlgebra.Add(old(pending), gap, Capacity())
    {
      hide Merge, Shrink, NewestOf, Touches, GapAlgebra.Add;
      var g := if Before(gap.to, gap.from) then gap.(to := gap.from) else gap;
      var i := |pending|;
      while i > 0
        invariant 0 <= i <= |pending| && pending == old(pending)
        invariant forall k :: i <= k < |pending| ==> PairOf(pending[k]) != PairOf(g)
      {
        var p := pending[i - 1];
        if p.kind != g.kind || p.source != g.source {
          i := i - 1;
          continue;
        }
        AddAt(pending, gap, Capacity(), i);
        if !Before(p.to, g.from) && !Before(g.to, p.from) {
          pending := pending[i - 1 := Merge(p, g)];
          return;
        }
        break;
      }
      if i == 0 { AddNew(pending, gap, Capacity()); }
      pending := pending + [g];
      ShrinkPending();
    }

    /** Makes the held gaps fit by merging the two oldest of a pair. */
    method ShrinkPending()
      modifies this`pending
      ensures pending == GapAlgebra.Shrink(old(pending), Capacity())
    {
      while |pending| > Capacity()
        invariant GapAlgebra.Shrink(pending, Capacity()) == GapAlgebra.Shrink(old(pending), Capacity())
        decreases |pending|
      {
        MergeOldest();
      }
    }

    method MergeOldest()
      requires pending != []
      modifies this`pending
      ensures pending == ShrinkOnce(old(pending))
    {
      hide Merge, ShrinkOnce, FirstRepeat;
      var first: map<Pair, nat> := map[];
      for i := 0 to |pending|
        invariant pending == old(pending)
        invariant NoRepeat(pending, i)
        invariant forall j :: 0 <= j < i ==> PairOf(pending[j]) in first
        invariant forall p :: p in first ==> first[p] < i && PairOf(pending[first[p]]) == p
      {
        var k := PairOf(pending[i]);
        if k !in first {
          first := first[k := i];
        } else {
          var j := first[k];
          ShrinkOnceMerges(pending, j, i);
          pending := pending[j := Merge(pending[j], pending[i])];
          pending := pending[..i] + pending[i + 1..];
          return;
        }
      }
      ShrinkOnceDrops(pending);
      pending := pending[1..];
    }

    method Open(source: string, kind: Kind, from: Instant)
      modifies this`pending, this`open
      ensures View() == Do(old(View()), Op.Open(source, kind, from), Capacity())
    {
      if source in open {
        var cur := open[source];
        if cur.kind == kind {
          return;
        }
        AddAllOne(pending, cur.(to := from), Capacity());
        Add(cur.(to := from));
      }
      open := open[source := Gap(kind, source, from, ZERO, 0, false)];
    }

    method Close(source: string, to: Instant)
      modifies this`pending, this`open
      ensures View() == Do(old(View()), Op.Close(source, to), Capacity())
    {
      if source !in open {
        assert open - {source} == open;
        return;
      }
      var cur := open[source];
      open := open - {source};
      AddAllOne(pending, cur.(to := to), Capacity());
      Add(cur.(to := to));
    }

    /** Records every lasting open interval so far and keeps it open. The
        order it ranges over them in is not determined. */
    method CutOpen(to: Instant) returns (ghost order: seq<string>)
      modifies this`pending, this`open
      ensures (set s | s in order) == old(open).Keys && Once(order)
      ensures View() == Do(old(View()), Op.CutOpen(to, order), Capacity())
    {
      hide AddAll, CutPieces, CutFrom, GapAlgebra.Add, Cuttable;
      order := [];
      var todo := open.Keys;
      ghost var start := View();
      CutNone(start, to, Capacity());
      while todo != {}
        invariant todo <= start.open.Keys && (set s | s in order) == start.open.Keys - todo && Once(order)
        invariant View() == CutSoFar(start, order, to, Capacity())
      {
        var s :| s in todo;
        CutKeepsKeys(start.open, (set x | x in order), to);
        var cur := open[s];
        assert s !in (set x | x in order);
        CutOneMore(start, order, s, to, Capacity());
        order := order + [s];
        todo := todo - {s};
        if CutWhileOpen(cur.kind) && Before(cur.from, to) {
          Add(cur.(to := to));
          open := open[s := cur.(from := to)];
        }
      }
    }

    method RecordGap(gap: Gap)
      modifies this`pending
      ensures View() == Do(old(View()), Op.Record(gap), Capacity())
    {
      AddAllOne(pending, gap, Capacity());
      Add(gap);
    }

    method Take() returns (out: seq<Gap>)
      modifies this`pending
      ensures out == old(pending) && pending == []
    {
      out := pending;
      pending := [];
    }

    method Restore(gaps: seq<Gap>)
      modifies this`pending
      ensures pending == if gaps == [] then old(pending) else GapAlgebra.Shrink(gaps + old(pending), Capacity())
    {
      if |gaps| == 0 {
        return;
      }
      pending := gaps + pending;
      ShrinkPending();
    }
  }

  lemma AddNew(pending: seq<Gap>, gap: Gap, capacity: nat)
    requires forall k :: 0 <= k < |pending| ==> PairOf(pending[k]) != PairOf(gap)
    ensures GapAlgebra.Add(pending, gap, capacity) == Shrink(pending + [Ordered(gap)], capacity)
  {
    hide Shrink, NewestOf;
  }

  lemma AddAt(pending: seq<Gap>, gap: Gap, capacity: nat, n: nat)
    requires 0 < n <= |pending| && PairOf(pending[n - 1]) == PairOf(gap)
    requires forall k :: n <= k < |pending| ==> PairOf(pending[k]) != PairOf(gap)
    ensures GapAlgebra.Add(pending, gap, capacity)
         == var g, p := Ordered(gap), pending[n - 1];
            if !Before(p.to, g.from) && !Before(g.to, p.from) then pending[n - 1 := Merge(p, g)]
              else Shrink(pending + [g], capacity)
  {
    hide Shrink, NewestOf, Merge;
    var m := NewestOf(pending, PairOf(gap));
    assert m == n;
  }

  lemma AddAllOne(pending: seq<Gap>, gap: Gap, capacity: nat)
    ensures AddAll(pending, [gap], capacity) == Add(pending, gap, capacity)
  {
    assert [gap][..0] == [];
  }

  lemma AddAllMore(pending: seq<Gap>, gaps: seq<Gap>, gap: Gap, capacity: nat)
    ensures AddAll(pending, gaps + [gap], capacity) == Add(AddAll(pending, gaps, capacity), gap, capacity)
  {
    assert (gaps + [gap])[..|gaps|] == gaps;
  }

  /** The log part way through a cut, when those in order are done. */
  function CutSoFar(l: Log, order: seq<string>, to: Instant, capacity: nat): Log {
    Log(AddAll(l.pending, CutPieces(l.open, order, to), capacity), CutFrom(l.open, (set s | s in order), to))
  }

  lemma CutNone(l: Log, to: Instant, capacity: nat)
    ensures CutSoFar(l, [], to, capacity) == l
  {
    assert CutFrom(l.open, {}, to) == l.open;
  }

  lemma CutKeepsKeys(open: map<string, Gap>, done: set<string>, to: Instant)
    ensures CutFrom(open, done, to).Keys == open.Keys
  {
  }

  lemma CutOneMore(l: Log, order: seq<string>, s: string, to: Instant, capacity: nat)
    requires s in l.open && s !in order
    ensures (set x | x in order + [s]) == (set x | x in order) + {s}
    ensures var sofar := CutSoFar(l, order, to, capacity);
            s in sofar.open && var cur := sofar.open[s];
            CutSoFar(l, order + [s], to, capacity)
            == if CutWhileOpen(cur.kind) && Before(cur.from, to)
               then Log(Add(sofar.pending, cur.(to := to), capacity), sofar.open[s := cur.(from := to)])
               else sofar
  {
    hide Add, AddAll, CutPieces, CutFrom;
    var done := set x | x in order;
    assert forall x :: x in order + [s] <==> x in order || x == s;
    assert (set x | x in order + [s]) == done + {s};
    CutFromMore(l.open, done, s, to);
    CutPiecesMore(l.open, order, s, to);
    var pieces := CutPieces(l.open, order, to);
    if Cuttable(l.open[s], to) {
      AddAllMore(l.pending, pieces, l.open[s].(to := to), capacity);
    } else {
      assert pieces + [] == pieces;
      assert CutPieces(l.open, order + [s], to) == pieces;
      assert CutFrom(l.open, (set x | x in order + [s]), to) == CutFrom(l.open, done, to);
    }
  }

  lemma CutPiecesMore(open: map<string, Gap>, order: seq<string>, s: string, to: Instant)
    requires s in open
    ensures CutPieces(open, order + [s], to)
         == CutPieces(open, order, to) + (if Cuttable(open[s], to) then [open[s].(to := to)] else [])
  {
    assert (order + [s])[..|order|] == order;
  }

  lemma CutFromMore(open: map<string, Gap>, done: set<string>, s: string, to: Instant)
    requires s in open && s !in done
    ensures s in CutFrom(open, done, to) && CutFrom(open, done, to)[s] == open[s]
    ensures CutFrom(open, done + {s}, to)
         == if Cuttable(open[s], to) then CutFrom(open, done, to)[s := open[s].(from := to)]
           else CutFrom(open, done, to)
  {
    var a, b := CutFrom(open, done, to), CutFrom(open, done + {s}, to);
    if Cuttable(open[s], to) {
      assert b == a[s := open[s].(from := to)];
    } else {
      assert b == a;
    }
  }

  // ----- What the operations do to one source -----

  /** An interval opened where none is open, or one of another kind is, starts at
      its instant with its kind; one of its kind stands. */
  lemma OpensAt(open: map<string, Gap>, s: string, kind: Kind, from: Instant)
    ensures var after := Leaves(open, Op.Open(s, kind, from));
            && s in after && after[s].kind == kind
            && (s !in open || open[s].kind != kind ==>
              after[s].from == from && after[s].source == s && !after[s].hasCount)
            && (s in open && open[s].kind == kind ==> after == open)
            && (forall x :: x in open && x != s ==> x in after && after[x] == open[x])
            && after.Keys == open.Keys + {s}
  {
  }

  /** Only the removal of the table lasts, and is cut: a cut records each such
      interval up to its instant, and no other. */
  lemma {:induction false} CutSays(open: map<string, Gap>, order: seq<string>, to: Instant, g: Gap)
    ensures g in CutPieces(open, order, to) <==>
              exists s :: s in order && s in open && open[s].kind == TableRemoved && Before(open[s].from, to)
                          && g == open[s].(to := to)
  {
    if order != [] {
      var n := |order| - 1;
      CutSays(open, order[..n], to, g);
      assert forall s :: s in order <==> s in order[..n] || s == order[n] by {
        assert order == order[..n] + [order[n]];
      }
    }
  }
}
