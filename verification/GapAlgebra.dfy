/** The evidence-gap log: intervals of known loss, merged rather than dropped
    when the log is full. */
module GapAlgebra {
  import opened Clocks
  import Orders

  datatype Kind =
    | SourceOverrun | SourceRestart | BufferOverflow | DumpTruncated
    | WindowOverflow | WindowRejected | TableRemoved

  /** One interval of loss, [from, to), with how many were lost when known. */
  datatype Gap = Gap(kind: Kind, source: string, from: Instant, to: Instant, count: nat, hasCount: bool)

  type Pair = (Kind, string)

  function PairOf(g: Gap): Pair {
    (g.kind, g.source)
  }

  /** p widened to cover g; the count is known only when both were. */
  function Merge(p: Gap, g: Gap): Gap {
    var both := p.hasCount && g.hasCount;
    p.(from := Earlier(p.from, g.from), to := Later(p.to, g.to),
       hasCount := both, count := if both then p.count + g.count else 0)
  }

  function Ordered(g: Gap): Gap {
    if Before(g.to, g.from) then g.(to := g.from) else g
  }

  predicate Touches(p: Gap, g: Gap) {
    !Before(p.to, g.from) && !Before(g.to, p.from)
  }

  /** The newest held gap of a pair: one past its index, or 0 for none. */
  function NewestOf(pending: seq<Gap>, pair: Pair): (n: nat)
    ensures n <= |pending|
    ensures n > 0 ==> PairOf(pending[n - 1]) == pair
    ensures forall k :: n <= k < |pending| ==> PairOf(pending[k]) != pair
  {
    if pending == [] then 0
    else if PairOf(pending[|pending| - 1]) == pair then |pending|
    else NewestOf(pending[..|pending| - 1], pair)
  }

  /** The first gap whose pair an earlier one has: one past its index. */
  function FirstRepeat(pending: seq<Gap>, i: nat): (n: nat)
    requires i <= |pending|
    ensures n <= |pending|
    ensures n > 0 ==> i < n && exists j :: 0 <= j < n - 1 && PairOf(pending[j]) == PairOf(pending[n - 1])
    ensures n == 0 ==> forall k, j :: i <= k < |pending| && 0 <= j < k ==> PairOf(pending[j]) != PairOf(pending[k])
    decreases |pending| - i
  {
    if i == |pending| then 0
    else if exists j :: 0 <= j < i && PairOf(pending[j]) == PairOf(pending[i]) then i + 1
    else FirstRepeat(pending, i + 1)
  }

  /** The first gap of a pair that is held. */
  function FirstOf(pending: seq<Gap>, pair: Pair): (j: nat)
    requires exists k :: 0 <= k < |pending| && PairOf(pending[k]) == pair
    ensures j < |pending| && PairOf(pending[j]) == pair
    ensures forall k :: 0 <= k < j ==> PairOf(pending[k]) != pair
  {
    if PairOf(pending[0]) == pair then 0
    else
      assert exists k :: 0 <= k < |pending[1..]| && PairOf(pending[1..][k]) == pair by {
        var k :| 0 <= k < |pending| && PairOf(pending[k]) == pair;
        assert PairOf(pending[1..][k - 1]) == pair;
      }
      1 + FirstOf(pending[1..], pair)
  }

  function Without(s: seq<Gap>, i: nat): seq<Gap>
    requires i < |s|
  {
    s[..i] + s[i + 1..]
  }

  /** One turn of shrink: the two oldest gaps of one pair become one; with no
      pair held twice the oldest gap is dropped. */
  function ShrinkOnce(pending: seq<Gap>): (r: seq<Gap>)
    requires pending != []
    ensures |r| == |pending| - 1
  {
    var n := FirstRepeat(pending, 0);
    if n == 0 then pending[1..]
    else
      var i := n - 1;
      var j := FirstOf(pending, PairOf(pending[i]));
      Without(pending[j := Merge(pending[j], pending[i])], i)
  }

  /** No two of the first i gaps have the same pair. */
  predicate NoRepeat(s: seq<Gap>, i: nat)
    requires i <= |s|
  {
    forall k, j :: 0 <= j < k < i ==> PairOf(s[j]) != PairOf(s[k])
  }

  lemma FirstRepeatStep(s: seq<Gap>, from: nat, i: nat)
    requires from < i <= |s| && NoRepeat(s, i)
    ensures FirstRepeat(s, from) == FirstRepeat(s, from + 1)
  {
    assert !exists j :: 0 <= j < from && PairOf(s[j]) == PairOf(s[from]);
  }

  lemma FirstRepeatHere(s: seq<Gap>, i: nat)
    requires i < |s| && exists j :: 0 <= j < i && PairOf(s[j]) == PairOf(s[i])
    ensures FirstRepeat(s, i) == i + 1
  {
  }

  lemma {:induction false} RepeatAt(s: seq<Gap>, from: nat, i: nat)
    requires from <= i < |s| && NoRepeat(s, i)
    requires exists j :: 0 <= j < i && PairOf(s[j]) == PairOf(s[i])
    ensures FirstRepeat(s, from) == i + 1
    decreases i - from
  {
    hide FirstRepeat, NoRepeat;
    if from < i {
      RepeatAt(s, from + 1, i);
      FirstRepeatStep(s, from, i);
    } else {
      FirstRepeatHere(s, i);
    }
  }

  lemma ShrinkOnceMerges(s: seq<Gap>, j: nat, i: nat)
    requires j < i < |s| && NoRepeat(s, i) && PairOf(s[j]) == PairOf(s[i])
    ensures ShrinkOnce(s) == Without(s[j := Merge(s[j], s[i])], i)
  {
    hide Merge, FirstRepeat, FirstOf, Without;
    RepeatAt(s, 0, i);
    var f := FirstOf(s, PairOf(s[i]));
    assert f == j;
  }

  lemma ShrinkOnceDrops(s: seq<Gap>)
    requires s != [] && NoRepeat(s, |s|)
    ensures ShrinkOnce(s) == s[1..]
  {
  }

  function Shrink(pending: seq<Gap>, capacity: nat): (r: seq<Gap>)
    ensures |r| <= capacity || |r| == 0
    ensures |pending| <= capacity ==> r == pending
    decreases |pending|
  {
    if |pending| <= capacity then pending else Shrink(ShrinkOnce(pending), capacity)
  }

  /** Recording a gap: into the newest of its pair when they touch, else at
      the end, shrinking to fit. */
  function Add(pending: seq<Gap>, gap: Gap, capacity: nat): seq<Gap> {
    var g := Ordered(gap);
    var n := NewestOf(pending, PairOf(g));
    if n > 0 && Touches(pending[n - 1], g) then pending[n - 1 := Merge(pending[n - 1], g)]
    else Shrink(pending + [g], capacity)
  }

  // ----- Nothing held is lost -----

  function Pairs(s: seq<Gap>): set<Pair> {
    set g | g in s :: PairOf(g)
  }

  /** a lies inside b, on a reading of their instants. */
  predicate Within(at: Instant -> int, a: Gap, b: Gap) {
    PairOf(a) == PairOf(b) && at(b.from) <= at(a.from) && at(a.to) <= at(b.to)
  }

  predicate Covered(at: Instant -> int, held: seq<Gap>, g: Gap) {
    exists h :: h in held && Within(at, g, h)
  }

  predicate Grounded(at: Instant -> int, gaps: seq<Gap>, h: Gap) {
    exists g :: g in gaps && Within(at, g, h)
  }

  /** Every gap of a pair lies in a held one, and no held one is without. */
  ghost predicate Covers(at: Instant -> int, held: seq<Gap>, gaps: seq<Gap>, pair: Pair) {
    && (forall g :: g in gaps && PairOf(g) == pair ==> Covered(at, held, g))
    && (forall h :: h in held && PairOf(h) == pair ==> Grounded(at, gaps, h))
  }

  function Starts(s: seq<Gap>, pair: Pair): set<Instant> {
    set g | g in s && PairOf(g) == pair :: g.from
  }

  function Stops(s: seq<Gap>, pair: Pair): set<Instant> {
    set g | g in s && PairOf(g) == pair :: g.to
  }

  /** A reading that orders the starts of a pair's gaps, and their ends, as the
      program does. */
  ghost predicate Reads(at: Instant -> int, s: seq<Gap>, pair: Pair) {
    InStep(at, Starts(s, pair)) && InStep(at, Stops(s, pair))
  }

  /** Gaps no wider than what they stand for: each starts where one of its
      pair did and ends where one did. */
  ghost predicate Tight(held: seq<Gap>, gaps: seq<Gap>) {
    forall h :: h in held ==> h.from in Starts(gaps, PairOf(h)) && h.to in Stops(gaps, PairOf(h))
  }

  lemma TightSubset(held: seq<Gap>, gaps: seq<Gap>, pair: Pair)
    requires Tight(held, gaps)
    ensures Starts(held, pair) <= Starts(gaps, pair) && Stops(held, pair) <= Stops(gaps, pair)
  {
  }

  lemma TightTransitive(a: seq<Gap>, b: seq<Gap>, c: seq<Gap>)
    requires Tight(a, b) && Tight(b, c)
    ensures Tight(a, c)
  {
    hide Starts, Stops;
    forall h | h in a ensures h.from in Starts(c, PairOf(h)) && h.to in Stops(c, PairOf(h)) {
      TightSubset(b, c, PairOf(h));
    }
  }

  lemma ReadsTight(at: Instant -> int, held: seq<Gap>, gaps: seq<Gap>, pair: Pair)
    requires Tight(held, gaps) && Reads(at, gaps, pair)
    ensures Reads(at, held, pair)
  {
    TightSubset(held, gaps, pair);
    InStepSubset(at, Starts(held, pair), Starts(gaps, pair));
    InStepSubset(at, Stops(held, pair), Stops(gaps, pair));
  }

  function CountIn(g: Gap, pair: Pair): nat {
    if PairOf(g) == pair then g.count else 0
  }

  /** The losses of a pair the held gaps count. */
  function Total(s: seq<Gap>, pair: Pair): nat {
    if s == [] then 0 else Total(s[..|s| - 1], pair) + CountIn(s[|s| - 1], pair)
  }

  predicate Counted(s: seq<Gap>, pair: Pair) {
    forall g :: g in s && PairOf(g) == pair ==> g.hasCount
  }

  lemma {:induction false} TotalConcat(a: seq<Gap>, b: seq<Gap>, pair: Pair)
    ensures Total(a + b, pair) == Total(a, pair) + Total(b, pair)
  {
    if b == [] {
      assert a + b == a;
    } else {
      TotalConcat(a, b[..|b| - 1], pair);
      assert (a + b)[..|a + b| - 1] == a + b[..|b| - 1];
    }
  }

  lemma TotalOne(g: Gap, pair: Pair)
    ensures Total([g], pair) == CountIn(g, pair)
  {
    assert [g][..0] == [];
  }

  lemma TotalSplit(s: seq<Gap>, i: nat, pair: Pair)
    requires i < |s|
    ensures Total(s, pair) == Total(s[..i], pair) + CountIn(s[i], pair) + Total(s[i + 1..], pair)
  {
    assert s == s[..i] + [s[i]] + s[i + 1..];
    TotalConcat(s[..i] + [s[i]], s[i + 1..], pair);
    TotalConcat(s[..i], [s[i]], pair);
    TotalOne(s[i], pair);
  }

  lemma TotalWithout(s: seq<Gap>, i: nat, pair: Pair)
    requires i < |s|
    ensures Total(Without(s, i), pair) == Total(s, pair) - CountIn(s[i], pair)
  {
    TotalSplit(s, i, pair);
    TotalConcat(s[..i], s[i + 1..], pair);
  }

  lemma TotalUpdate(s: seq<Gap>, j: nat, g: Gap, pair: Pair)
    requires j < |s|
    ensures Total(s[j := g], pair) == Total(s, pair) - CountIn(s[j], pair) + CountIn(g, pair)
  {
    TotalSplit(s, j, pair);
    TotalSplit(s[j := g], j, pair);
    assert s[j := g][..j] == s[..j] && s[j := g][j + 1..] == s[j + 1..];
  }

  lemma CoversTransitive(at: Instant -> int, a: seq<Gap>, b: seq<Gap>, c: seq<Gap>, pair: Pair)
    requires Covers(at, a, b, pair) && Covers(at, b, c, pair)
    ensures Covers(at, a, c, pair)
  {
    forall g | g in c && PairOf(g) == pair ensures Covered(at, a, g) {
      var h :| h in b && Within(at, g, h);
      assert Covered(at, a, h);
      var i :| i in a && Within(at, h, i);
      assert Within(at, g, i);
    }
    forall h | h in a && PairOf(h) == pair ensures Grounded(at, c, h) {
      var g :| g in b && Within(at, g, h);
      assert Grounded(at, c, g);
      var e :| e in c && Within(at, e, g);
      assert Within(at, e, h);
    }
  }

  /** Everything a change of the held gaps must keep: the pairs, the counts of
      pairs that are counted, and, on a reading that orders a pair's instants
      as the program does, every interval of the pair; nothing is widened
      beyond what there was. */
  ghost predicate Keeps(at: Instant -> int, before: seq<Gap>, after: seq<Gap>) {
    && Pairs(after) == Pairs(before)
    && Tight(after, before)
    && (forall pair :: Reads(at, before, pair) ==> Covers(at, after, before, pair))
    && (forall pair :: Counted(before, pair) <==> Counted(after, pair))
    && forall pair :: Counted(before, pair) ==> Total(after, pair) == Total(before, pair)
  }

  lemma KeepsTransitive(at: Instant -> int, a: seq<Gap>, b: seq<Gap>, c: seq<Gap>)
    requires Keeps(at, a, b) && Keeps(at, b, c)
    ensures Keeps(at, a, c)
  {
    hide Reads, Covers, Tight, Total, Counted, Pairs;
    TightTransitive(c, b, a);
    forall pair | Reads(at, a, pair) ensures Covers(at, c, a, pair) {
      ReadsTight(at, b, a, pair);
      CoversTransitive(at, c, b, a, pair);
    }
    forall pair
      ensures (Counted(a, pair) <==> Counted(c, pair)) && (Counted(a, pair) ==> Total(c, pair) == Total(a, pair))
    {
      assert Counted(a, pair) <==> Counted(b, pair);
    }
  }

  /** Merging a later gap of a pair into an earlier one keeps everything. */
  lemma MergeKeeps(at: Instant -> int, s: seq<Gap>, j: nat, i: nat)
    requires j < i < |s| && PairOf(s[j]) == PairOf(s[i])
    ensures Keeps(at, s, Without(s[j := Merge(s[j], s[i])], i))
  {
    hide Merge, Without, PairOf, Reads, Covers, Tight, Counted, Total, Pairs;
    var r := Without(s[j := Merge(s[j], s[i])], i);
    MergePairs(s, j, i);
    MergeTight(s, j, i);
    forall pair | Reads(at, s, pair) ensures Covers(at, r, s, pair) {
      MergeCovers(at, s, j, i, pair);
    }
    forall pair
      ensures (Counted(s, pair) <==> Counted(r, pair)) && (Counted(s, pair) ==> Total(r, pair) == Total(s, pair))
    {
      MergeCounts(s, j, i, pair);
    }
  }

  /** A merged gap covers both exactly when the reading puts their starts, and
      their ends, in the order the program does. */
  lemma MergeWithinIff(at: Instant -> int, p: Gap, g: Gap)
    requires PairOf(p) == PairOf(g)
    ensures Within(at, p, Merge(p, g)) && Within(at, g, Merge(p, g))
        <==> Agrees(at, g.from, p.from) && Agrees(at, p.to, g.to)
  {
  }

  lemma MergeCovers(at: Instant -> int, s: seq<Gap>, j: nat, i: nat, pair: Pair)
    requires j < i < |s| && PairOf(s[j]) == PairOf(s[i]) && Reads(at, s, pair)
    ensures Covers(at, Without(s[j := Merge(s[j], s[i])], i), s, pair)
  {
    hide Without, Merge, Covers, Within;
    if PairOf(s[j]) == pair {
      SelfTight(s, s[j]);
      SelfTight(s, s[i]);
      MergeWithinIff(at, s[j], s[i]);
    }
    MergedCovers(at, s, j, i, pair);
  }

  lemma WithinSelf(at: Instant -> int, g: Gap)
    ensures Within(at, g, g)
  {
  }

  lemma MergedCovers(at: Instant -> int, s: seq<Gap>, j: nat, i: nat, pair: Pair)
    requires j < i < |s| && PairOf(s[j]) == PairOf(s[i])
    requires PairOf(s[j]) == pair ==> Within(at, s[j], Merge(s[j], s[i])) && Within(at, s[i], Merge(s[j], s[i]))
    ensures Covers(at, Without(s[j := Merge(s[j], s[i])], i), s, pair)
  {
    var m := Merge(s[j], s[i]);
    var r := Without(s[j := m], i);
    MergeMembers(s, j, i);
    assert PairOf(m) == PairOf(s[j]) && s[j] in s;
    hide Without, Merge, Within;
    forall g | g in s && PairOf(g) == pair ensures Covered(at, r, g) {
      if g == s[j] || g == s[i] {
        assert m in r && Within(at, g, m);
      } else {
        WithinSelf(at, g);
        assert g in r;
      }
    }
    forall h | h in r && PairOf(h) == pair ensures Grounded(at, s, h) {
      if h != m { WithinSelf(at, h); }
    }
  }

  lemma MergeCounts(s: seq<Gap>, j: nat, i: nat, pair: Pair)
    requires j < i < |s| && PairOf(s[j]) == PairOf(s[i])
    ensures var r := Without(s[j := Merge(s[j], s[i])], i);
            (Counted(s, pair) <==> Counted(r, pair)) && (Counted(s, pair) ==> Total(r, pair) == Total(s, pair))
  {
    var m := Merge(s[j], s[i]);
    var r := Without(s[j := m], i);
    MergeMembers(s, j, i);
    hide Without, Total;
    TotalUpdate(s, j, m, pair);
    TotalWithout(s[j := m], i, pair);
    assert s[j] in s && s[i] in s && m in r;
    if Counted(r, pair) {
      forall g | g in s && PairOf(g) == pair ensures g.hasCount {
        if g != s[j] && g != s[i] { assert g in r; }
      }
    }
  }

  /** Merged, two losses span both, and their count is known, and is the sum,
      exactly when both were; an unknown one is shipped without a number. */
  lemma MergeSays(p: Gap, g: Gap)
    requires PairOf(p) == PairOf(g)
    ensures var m := Merge(p, g);
            && m.kind == p.kind && m.source == p.source
            && (m.hasCount <==> p.hasCount && g.hasCount)
            && m.count == (if p.hasCount && g.hasCount then p.count + g.count else 0)
            && (m.from == p.from || m.from == g.from) && !(Before(g.from, p.from) && m.from == p.from)
            && (m.to == p.to || m.to == g.to) && !(Before(p.to, g.to) && m.to == p.to)
  {
  }

  lemma MergeTight(s: seq<Gap>, j: nat, i: nat)
    requires j < i < |s| && PairOf(s[j]) == PairOf(s[i])
    ensures Tight(Without(s[j := Merge(s[j], s[i])], i), s)
  {
    var m := Merge(s[j], s[i]);
    var r := Without(s[j := m], i);
    MergeMembers(s, j, i);
    SelfTight(s, s[j]);
    SelfTight(s, s[i]);
    assert m.from in Starts(s, PairOf(m)) && m.to in Stops(s, PairOf(m));
    hide Without, Starts, Stops, Merge;
    forall h | h in r ensures h.from in Starts(s, PairOf(h)) && h.to in Stops(s, PairOf(h)) {
      if h != m { SelfTight(s, h); }
    }
  }

  lemma SelfTight(s: seq<Gap>, h: Gap)
    requires h in s
    ensures h.from in Starts(s, PairOf(h)) && h.to in Stops(s, PairOf(h))
  {
  }

  lemma MergeMembers(s: seq<Gap>, j: nat, i: nat)
    requires j < i < |s|
    ensures var m := Merge(s[j], s[i]);
            var r := Without(s[j := m], i);
            && m in r
            && (forall g :: g in s && g != s[j] && g != s[i] ==> g in r)
            && (forall g :: g in r ==> g == m || g in s)
  {
    var m := Merge(s[j], s[i]);
    var u := s[j := m];
    var r := Without(u, i);
    assert r[j] == m;
    forall g | g in s && g != s[j] && g != s[i] ensures g in r {
      var k :| 0 <= k < |s| && s[k] == g;
      assert if k < i then r[k] == g else r[k - 1] == g;
    }
    forall g | g in r ensures g == m || g in s {
      var k :| 0 <= k < |r| && r[k] == g;
      assert r[k] == if k < i then u[k] else u[k + 1];
    }
  }

  lemma MergePairs(s: seq<Gap>, j: nat, i: nat)
    requires j < i < |s| && PairOf(s[j]) == PairOf(s[i])
    ensures Pairs(Without(s[j := Merge(s[j], s[i])], i)) == Pairs(s)
  {
    MergeMembers(s, j, i);
    var m := Merge(s[j], s[i]);
    var r := Without(s[j := m], i);
    forall p ensures p in Pairs(r) <==> p in Pairs(s) {
      if p in Pairs(s) {
        var g :| g in s && PairOf(g) == p;
        if g == s[j] || g == s[i] { assert m in r && PairOf(m) == p; } else { assert g in r; }
      }
      if p in Pairs(r) {
        var g :| g in r && PairOf(g) == p;
        if g == m { assert s[j] in s && PairOf(s[j]) == p; } else { assert g in s; }
      }
    }
  }

  /** Pigeonhole: with no pair held twice there are as many gaps as pairs. */
  lemma {:induction false} DistinctPairs(s: seq<Gap>)
    requires forall k, j :: 0 <= k < |s| && 0 <= j < k ==> PairOf(s[j]) != PairOf(s[k])
    ensures |Pairs(s)| == |s|
  {
    if s != [] {
      var front, last := s[..|s| - 1], s[|s| - 1];
      DistinctPairs(front);
      assert PairOf(last) !in Pairs(front);
      assert s == front + [last];
      PairsAppend(front, last);
    }
  }

  lemma PairsAppend(s: seq<Gap>, g: Gap)
    ensures Pairs(s + [g]) == Pairs(s) + {PairOf(g)}
  {
    assert forall h :: h in s + [g] <==> h in s || h == g;
    assert g in s + [g];
  }

  /** With more gaps than pairs some pair is held twice, and one turn of
      shrink merges two of it. */
  lemma ShrinkOnceKeeps(at: Instant -> int, s: seq<Gap>)
    requires |Pairs(s)| < |s|
    ensures Keeps(at, s, ShrinkOnce(s))
  {
    hide Keeps;
    var n := FirstRepeat(s, 0);
    if n == 0 {
      DistinctPairs(s);
    } else {
      var j := FirstOf(s, PairOf(s[n - 1]));
      MergeKeeps(at, s, j, n - 1);
    }
  }

  lemma KeepsPairs(at: Instant -> int, before: seq<Gap>, after: seq<Gap>)
    requires Keeps(at, before, after)
    ensures Pairs(after) == Pairs(before)
  {
  }

  /** With a capacity for every pair held, shrinking always finds two gaps to
      merge, and keeps every pair, every interval and every count. */
  lemma {:induction false} ShrinkKeeps(at: Instant -> int, s: seq<Gap>, capacity: nat)
    requires |Pairs(s)| <= capacity
    ensures Keeps(at, s, Shrink(s, capacity)) && |Shrink(s, capacity)| <= capacity
    decreases |s|
  {
    hide Keeps, ShrinkOnce;
    if |s| <= capacity {
      KeepsSame(at, s);
    } else {
      var t := ShrinkOnce(s);
      ShrinkOnceKeeps(at, s);
      KeepsPairs(at, s, t);
      ShrinkKeeps(at, t, capacity);
      KeepsTransitive(at, s, t, Shrink(t, capacity));
    }
  }

  lemma KeepsSame(at: Instant -> int, s: seq<Gap>)
    ensures Keeps(at, s, s)
  {
    forall g | g in s ensures g.from in Starts(s, PairOf(g)) && g.to in Stops(s, PairOf(g)) { SelfTight(s, g); }
    forall g | g in s ensures Covered(at, s, g) && Grounded(at, s, g) { assert Within(at, g, g); }
  }

  lemma {:induction false} PairsBound(s: seq<Gap>)
    ensures |Pairs(s)| <= |s|
  {
    if s != [] {
      var front, last := s[..|s| - 1], s[|s| - 1];
      PairsBound(front);
      assert s == front + [last];
      PairsAppend(front, last);
    }
  }

  /** Shrinking keeps the fact of every loss exactly when the capacity is at
      least the number of kinds and sources held. */
  lemma ShrinkKeepsIff(s: seq<Gap>, capacity: nat)
    ensures Pairs(s) <= Pairs(Shrink(s, capacity)) <==> |Pairs(s)| <= capacity
  {
    if |Pairs(s)| <= capacity {
      ShrinkKeeps(Wall, s, capacity);
    } else {
      var r := Shrink(s, capacity);
      PairsBound(r);
      if Pairs(s) <= Pairs(r) {
        Orders.SubsetSize(Pairs(s), Pairs(r));
      }
    }
  }

  /** Recording a gap keeps what was held and the gap itself. */
  lemma AddKeeps(at: Instant -> int, pending: seq<Gap>, gap: Gap, capacity: nat)
    requires |pending| <= capacity && |Pairs(pending + [gap])| <= capacity
    ensures Keeps(at, pending + [Ordered(gap)], Add(pending, gap, capacity))
        && |Add(pending, gap, capacity)| <= capacity
  {
    hide Keeps, Pairs, Shrink, Merge, NewestOf;
    var g := Ordered(gap);
    var all := pending + [g];
    PairsAppend(pending, g);
    PairsAppend(pending, gap);
    var n := NewestOf(pending, PairOf(g));
    if n > 0 && Touches(pending[n - 1], g) {
      MergeKeeps(at, all, n - 1, |pending|);
      assert Without(all[n - 1 := Merge(all[n - 1], all[|pending|])], |pending|)
          == pending[n - 1 := Merge(pending[n - 1], g)];
    } else {
      ShrinkKeeps(at, all, capacity);
    }
  }
}
