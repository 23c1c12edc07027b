/** The aggregator: observations folded into the open window, at most a
    bounded number of distinct keys of them. */
module Aggregation {
  import opened Clocks
  import opened Orders
  import opened Addresses
  import GapAlgebra
  import GapLog

  const DEFAULT_WINDOW_KEYS: nat := 50_000

  /** What records aggregate on within a window. */
  datatype Key = Key(src: Addr, dst: Addr, dstPort: nat, protocol: int, decision: int, ruleId: string)

  /** An observation, stamped by its source from the clock. */
  datatype Observation = Observation(at: Stamp, key: Key, connections: nat, bytes: nat, process: string)

  datatype Tally = Tally(connections: nat, bytes: nat, first: Stamp, last: Stamp, process: string)

  /** A record as it is shipped: its instants are wall readings. */
  datatype FlowRecord = FlowRecord(key: Key, connections: nat, bytes: nat, first: int, last: int, process: string)

  /** A closed reporting window, its records in key order. */
  datatype Window = Window(start: Instant, end: Instant, records: seq<FlowRecord>)

  // ----- The order of keys -----

  predicate KeyLess(a: Key, b: Key) {
    if a.src != b.src then AddrLess(a.src, b.src)
    else if a.dst != b.dst then AddrLess(a.dst, b.dst)
    else if a.dstPort != b.dstPort then a.dstPort < b.dstPort
    else if a.protocol != b.protocol then a.protocol < b.protocol
    else if a.decision != b.decision then a.decision < b.decision
    else StringLess(a.ruleId, b.ruleId)
  }

  function KeyFields(k: Key): (Addr, (Addr, (int, (int, (int, string))))) {
    (k.src, (k.dst, (k.dstPort, (k.protocol, (k.decision, k.ruleId)))))
  }

  lemma KeyOrder()
    ensures StrictOrder(KeyLess)
  {
    AddrOrder();
    IntOrder();
    StringOrder();
    var l1 := Lex(IntLess, StringLess);
    LexOrder(IntLess, StringLess);
    var l2 := Lex(IntLess, l1);
    LexOrder(IntLess, l1);
    var l3 := Lex(IntLess, l2);
    LexOrder(IntLess, l2);
    var l4 := Lex(AddrLess, l3);
    LexOrder(AddrLess, l3);
    var l5 := Lex(AddrLess, l4);
    LexOrder(AddrLess, l4);
    hide StrictOrder, AddrLess, StringLess;
    PullBackOrder(KeyFields, l5, KeyLess);
  }

  ghost function KeyListing(s: set<Key>): (r: seq<Key>)
    ensures Ascending(r, KeyLess) && Elems(r) == s && |r| == |s|
  {
    KeyOrder();
    Listing(s, KeyLess)
  }

  // ----- The open window -----

  /** The window being filled; firstDrop means something once dropped is not 0. */
  datatype Open = Open(records: map<Key, Tally>, dropped: nat, firstDrop: Stamp)

  function Fresh(o: Observation): Tally {
    Tally(0, 0, o.at, o.at, "")
  }

  function Fold(t: Tally, o: Observation): Tally {
    Tally(t.connections + o.connections, t.bytes + o.bytes,
          if Before(o.at, t.first) then o.at else t.first,
          if Before(t.last, o.at) then o.at else t.last,
          if o.process != "" then o.process else t.process)
  }

  /** Folding one observation in, or dropping it when its key is new and the
      window is full. */
  function AddTo(w: Open, o: Observation, maxKeys: nat): Open {
    if o.key in w.records then w.(records := w.records[o.key := Fold(w.records[o.key], o)])
    else if |w.records| >= maxKeys then
      w.(dropped := w.dropped + 1,
         firstDrop := if w.dropped == 0 || Before(o.at, w.firstDrop) then o.at else w.firstDrop)
    else w.(records := w.records[o.key := Fold(Fresh(o), o)])
  }

  function AddAll(obs: seq<Observation>, maxKeys: nat): Open {
    if obs == [] then Open(map[], 0, Clock(0, 0))
    else AddTo(AddAll(obs[..|obs| - 1], maxKeys), obs[|obs| - 1], maxKeys)
  }

  // ----- What a window should hold -----

  /** The distinct keys in the order they were first observed. */
  function Firsts(obs: seq<Observation>): seq<Key> {
    if obs == [] then []
    else
      var front, k := Firsts(obs[..|obs| - 1]), obs[|obs| - 1].key;
      if k in front then front else front + [k]
  }

  function FirstKeys(obs: seq<Observation>, maxKeys: nat): set<Key> {
    var f := Firsts(obs);
    Elems(if |f| <= maxKeys then f else f[..maxKeys])
  }

  /** The observations of a key, in order. */
  function Of(obs: seq<Observation>, k: Key): seq<Observation> {
    if obs == [] then []
    else
      var n := |obs| - 1;
      Of(obs[..n], k) + if obs[n].key == k then [obs[n]] else []
  }

  /** The observations of no key held. */
  function Outside(obs: seq<Observation>, keys: set<Key>): seq<Observation> {
    if obs == [] then []
    else
      var n := |obs| - 1;
      Outside(obs[..n], keys) + if obs[n].key !in keys then [obs[n]] else []
  }

  /** What is counted of an observation. */
  datatype Measure = InConnections | InBytes

  function Amount(unit: Measure, o: Observation): nat {
    if unit.InConnections? then o.connections else o.bytes
  }

  function Sum(unit: Measure, obs: seq<Observation>): nat {
    if obs == [] then 0 else Sum(unit, obs[..|obs| - 1]) + Amount(unit, obs[|obs| - 1])
  }

  /** The last process named, "" for none. */
  function LastProcess(obs: seq<Observation>): string {
    if obs == [] then ""
    else if obs[|obs| - 1].process != "" then obs[|obs| - 1].process
    else LastProcess(obs[..|obs| - 1])
  }

  /** The earliest stamp, as the program orders them; of equals the first. */
  ghost predicate EarliestAt(obs: seq<Observation>, i: nat)
    requires i < |obs|
  {
    && (forall j :: 0 <= j < |obs| ==> !Before(obs[j].at, obs[i].at))
    && (forall j :: 0 <= j < i ==> Before(obs[i].at, obs[j].at))
  }

  /** The latest stamp, as the program orders them; of equals the first. */
  ghost predicate LatestAt(obs: seq<Observation>, i: nat)
    requires i < |obs|
  {
    && (forall j :: 0 <= j < |obs| ==> !Before(obs[i].at, obs[j].at))
    && (forall j :: 0 <= j < i ==> Before(obs[j].at, obs[i].at))
  }

  ghost predicate Earliest(obs: seq<Observation>, t: Stamp) {
    exists i :: 0 <= i < |obs| && obs[i].at == t && EarliestAt(obs, i)
  }

  ghost predicate Latest(obs: seq<Observation>, t: Stamp) {
    exists i :: 0 <= i < |obs| && obs[i].at == t && LatestAt(obs, i)
  }

  /** t is the summary of the observations: sums, earliest, latest, and the
      last process named. */
  ghost predicate Summarizes(t: Tally, obs: seq<Observation>) {
    && t.connections == Sum(InConnections, obs) && t.bytes == Sum(InBytes, obs)
    && Earliest(obs, t.first) && Latest(obs, t.last)
    && t.process == LastProcess(obs)
  }

  /** w is the group-by of the observations over the first maxKeys distinct
      keys, with every other observation counted as dropped. */
  ghost predicate GroupsBy(w: Open, obs: seq<Observation>, maxKeys: nat) {
    var keys := FirstKeys(obs, maxKeys);
    var out := Outside(obs, keys);
    && w.records.Keys == keys
    && (forall k :: k in keys ==> Summarizes(w.records[k], Of(obs, k)))
    && w.dropped == |out|
    && (w.dropped > 0 ==> Earliest(out, w.firstDrop))
  }

  lemma SummarizeFirst(o: Observation)
    ensures Summarizes(Fold(Fresh(o), o), [o])
  {
    assert [o][..0] == [];
    assert EarliestAt([o], 0) && LatestAt([o], 0);
  }

  lemma SummarizeMore(t: Tally, obs: seq<Observation>, o: Observation)
    requires Summarizes(t, obs)
    ensures Summarizes(Fold(t, o), obs + [o])
  {
    hide Earliest, Latest;
    var all := obs + [o];
    assert all[..|obs|] == obs && all[|obs|] == o;
    EarliestMore(obs, t.first, o);
    LatestMore(obs, t.last, o);
  }

  lemma EarliestMore(obs: seq<Observation>, t: Stamp, o: Observation)
    requires Earliest(obs, t)
    ensures Earliest(obs + [o], if Before(o.at, t) then o.at else t)
  {
    var all := obs + [o];
    var i :| 0 <= i < |obs| && obs[i].at == t && EarliestAt(obs, i);
    if Before(o.at, t) {
      assert all[|obs|] == o && EarliestAt(all, |obs|);
    } else {
      assert all[i] == obs[i] && EarliestAt(all, i);
    }
  }

  lemma LatestMore(obs: seq<Observation>, t: Stamp, o: Observation)
    requires Latest(obs, t)
    ensures Latest(obs + [o], if Before(t, o.at) then o.at else t)
  {
    var all := obs + [o];
    var i :| 0 <= i < |obs| && obs[i].at == t && LatestAt(obs, i);
    if Before(t, o.at) {
      assert all[|obs|] == o && LatestAt(all, |obs|);
    } else {
      assert all[i] == obs[i] && LatestAt(all, i);
    }
  }

  lemma {:induction false} FirstsDistinct(obs: seq<Observation>)
    ensures forall i, j :: 0 <= i < j < |Firsts(obs)| ==> Firsts(obs)[i] != Firsts(obs)[j]
    ensures forall k :: k in Firsts(obs) <==> exists o :: o in obs && o.key == k
  {
    if obs != [] {
      var front, o := obs[..|obs| - 1], obs[|obs| - 1];
      FirstsDistinct(front);
      assert forall x :: x in obs <==> x in front || x == o by {
        assert obs == front + [o];
      }
    }
  }

  lemma {:induction false} OfNone(obs: seq<Observation>, k: Key)
    requires k !in Firsts(obs)
    ensures Of(obs, k) == []
  {
    if obs != [] {
      OfNone(obs[..|obs| - 1], k);
    }
  }

  lemma OfStep(front: seq<Observation>, o: Observation, k: Key)
    ensures Of(front + [o], k) == if o.key == k then Of(front, k) + [o] else Of(front, k)
  {
    assert (front + [o])[..|front|] == front;
  }

  /** How the first keys grow by one observation. */
  lemma FirstKeysStep(front: seq<Observation>, o: Observation, maxKeys: nat)
    ensures var keys := FirstKeys(front, maxKeys);
            var all := FirstKeys(front + [o], maxKeys);
            && (o.key in keys ==> all == keys)
            && (o.key !in keys && |keys| >= maxKeys ==> all == keys)
            && (o.key !in keys && |keys| < maxKeys ==> all == keys + {o.key} && Of(front, o.key) == [])
  {
    var obs := front + [o];
    assert obs[..|front|] == front;
    var f := Firsts(front);
    FirstsDistinct(front);
    var cut := if |f| <= maxKeys then f else f[..maxKeys];
    DistinctSize(cut);
    if o.key in f {
      if o.key !in Elems(cut) {
        assert |cut| == maxKeys;
      }
    } else {
      assert Firsts(obs) == f + [o.key];
      if |f| < maxKeys {
        ElemsAppend(f, o.key);
        OfNone(front, o.key);
      } else {
        assert (f + [o.key])[..maxKeys] == f[..maxKeys];
      }
    }
  }

  lemma OutsideStep(front: seq<Observation>, o: Observation, keys: set<Key>, all: set<Key>)
    requires all == keys || (all == keys + {o.key} && Of(front, o.key) == [])
    ensures Outside(front + [o], all) == Outside(front, keys) + if o.key in all then [] else [o]
  {
    assert (front + [o])[..|front|] == front;
    if all != keys {
      OutsideAgrees(front, keys, all, o.key);
    }
  }

  lemma {:induction false} OutsideAgrees(obs: seq<Observation>, keys: set<Key>, all: set<Key>, k: Key)
    requires all == keys + {k} && Of(obs, k) == []
    ensures Outside(obs, all) == Outside(obs, keys)
  {
    if obs != [] {
      var n := |obs| - 1;
      OutsideAgrees(obs[..n], keys, all, k);
    }
  }

  /** Counting is exact: whatever is observed, the open window is the group-by
      of it over the first maxKeys distinct keys, and every other observation
      is counted as dropped, from the earliest of them. */
  lemma {:induction false} WindowGroupsBy(obs: seq<Observation>, maxKeys: nat)
    ensures GroupsBy(AddAll(obs, maxKeys), obs, maxKeys)
  {
    if obs != [] {
      var front, o := obs[..|obs| - 1], obs[|obs| - 1];
      assert obs == front + [o];
      WindowGroupsBy(front, maxKeys);
      GroupsByStep(AddAll(front, maxKeys), front, o, maxKeys);
    }
  }

  lemma RecordsStep(w: Open, front: seq<Observation>, o: Observation, maxKeys: nat, k: Key)
    requires k in AddTo(w, o, maxKeys).records
    requires k in w.records ==> Summarizes(w.records[k], Of(front, k))
    requires k == o.key && k !in w.records ==> Of(front, k) == []
    ensures Summarizes(AddTo(w, o, maxKeys).records[k], Of(front + [o], k))
  {
    hide Summarizes, Fold, Fresh, Of;
    OfStep(front, o, k);
    if k == o.key {
      if k in w.records {
        SummarizeMore(w.records[k], Of(front, k), o);
      } else {
        SummarizeFirst(o);
        assert [] + [o] == [o];
      }
    }
  }

  lemma GroupsByStep(w: Open, front: seq<Observation>, o: Observation, maxKeys: nat)
    requires GroupsBy(w, front, maxKeys)
    ensures GroupsBy(AddTo(w, o, maxKeys), front + [o], maxKeys)
  {
    hide FirstKeys, Summarizes, Of, Outside, Fold, Fresh;
    var obs, r := front + [o], AddTo(w, o, maxKeys);
    var keys, all := FirstKeys(front, maxKeys), FirstKeys(obs, maxKeys);
    FirstKeysStep(front, o, maxKeys);
    assert |w.records.Keys| == |w.records|;
    OutsideStep(front, o, keys, all);
    forall k | k in all ensures k in r.records && Summarizes(r.records[k], Of(obs, k)) {
      RecordsStep(w, front, o, maxKeys, k);
    }
    var out := Outside(front, keys);
    DropsStep(w, out, o, maxKeys);
    assert out + [] == out;
  }

  /** The earliest drop stays the earliest. */
  lemma DropsStep(w: Open, out: seq<Observation>, o: Observation, maxKeys: nat)
    requires w.dropped == |out| && (w.dropped > 0 ==> Earliest(out, w.firstDrop))
    ensures var r := AddTo(w, o, maxKeys);
            var all := if o.key in w.records || |w.records| < maxKeys then out else out + [o];
            r.dropped == |all| && (r.dropped > 0 ==> Earliest(all, r.firstDrop))
  {
    if o.key !in w.records && |w.records| >= maxKeys {
      if w.dropped > 0 {
        EarliestMore(out, w.firstDrop, o);
      } else {
        assert out + [o] == [o] && EarliestAt([o], 0);
      }
    }
  }

  // ----- Closing -----

  /** An instant held within a window's bounds, when it must be: compared, and
      left, on the wall clock alone. */
  function Hold(t: Instant, start: Instant, end: Instant, within: bool): Instant {
    if !within then t
    else if Before(Stripped(t), Stripped(start)) then start
    else if Before(Stripped(end), Stripped(t)) then end
    else Stripped(t)
  }

  function RecordOf(k: Key, t: Tally, start: Instant, end: Instant, within: bool): FlowRecord {
    FlowRecord(k, t.connections, t.bytes, Hold(t.first, start, end, within).wall,
      Hold(t.last, start, end, within).wall, t.process)
  }

  /** The loss a closing window reports. */
  function OverflowOf(w: Open, start: Instant, end: Instant, within: bool): seq<GapAlgebra.Gap> {
    if w.dropped > 0
    then [GapAlgebra.Gap(GapAlgebra.WindowOverflow, "", Hold(w.firstDrop, start, end, within), end, w.dropped, true)]
    else []
  }

  /** r lists one record for each key of w, in key order. */
  ghost predicate ListsRecords(r: seq<FlowRecord>, w: Open, start: Instant, end: Instant, within: bool) {
    && |r| == |w.records|
    && (forall i, j :: 0 <= i < j < |r| ==> KeyLess(r[i].key, r[j].key))
    && (forall i :: 0 <= i < |r| ==>
      r[i].key in w.records && r[i] == RecordOf(r[i].key, w.records[r[i].key], start, end, within))
    && (forall k :: k in w.records ==> exists i :: 0 <= i < |r| && r[i].key == k)
  }

  class Aggregator {
    var start: Instant
    var records: map<Key, Tally>
    var maxKeys: nat
    var dropped: nat
    var firstDrop: Stamp
    const gaps: GapLog.Gaps?

    constructor (start: Instant, maxKeys: int, gaps: GapLog.Gaps?)
      ensures View() == AddAll([], this.maxKeys) && this.start == start && this.gaps == gaps
      ensures this.maxKeys == (if maxKeys <= 0 then 50_000 else maxKeys)
    {
      this.start, records, dropped, firstDrop := start, map[], 0, Clock(0, 0);
      this.maxKeys := if maxKeys <= 0 then DEFAULT_WINDOW_KEYS else maxKeys;
      this.gaps := gaps;
    }

    function View(): Open
      reads this
    {
      Open(records, dropped, firstDrop)
    }

    method Add(o: Observation)
      modifies this
      ensures View() == AddTo(old(View()), o, old(maxKeys))
      ensures start == old(start) && maxKeys == old(maxKeys)
    {
      var t: Tally;
      if o.key !in records {
        if |records| >= maxKeys {
          if dropped == 0 || Before(o.at, firstDrop) {
            firstDrop := o.at;
          }
          dropped := dropped + 1;
          return;
        }
        t := Tally(0, 0, o.at, o.at, "");
      } else {
        t := records[o.key];
      }
      t := t.(connections := t.connections + o.connections, bytes := t.bytes + o.bytes);
      if Before(o.at, t.first) {
        t := t.(first := o.at);
      }
      if Before(t.last, o.at) {
        t := t.(last := o.at);
      }
      if o.process != "" {
        t := t.(process := o.process);
      }
      records := records[o.key := t];
    }

    method Close(end: Instant) returns (w: Window)
      modifies this, gaps
      ensures Closed(old(start), end, end, false, old(View()), w)
      ensures gaps != null ==>
        var lost := OverflowOf(old(View()), old(start), end, false);
        gaps.capacity == old(gaps.capacity) && gaps.View() == Overflowed(old(gaps.View()), lost, gaps.Capacity())
    {
      w := CloseAt(end, end, false);
    }

    method Cut(end: Instant, next: Instant) returns (w: Window)
      modifies this, gaps
      ensures Closed(old(start), end, next, true, old(View()), w)
      ensures gaps != null ==>
        var lost := OverflowOf(old(View()), old(start), end, true);
        gaps.capacity == old(gaps.capacity) && gaps.View() == Overflowed(old(gaps.View()), lost, gaps.Capacity())
    {
      w := CloseAt(end, next, true);
    }

    /** The window was closed with these bounds and a new one is open. */
    ghost predicate Closed(start: Instant, end: Instant, next: Instant, within: bool, was: Open, w: Window)
      reads this
    {
      && w.start == start && w.end == end
      && ListsRecords(w.records, was, start, end, within)
      && this.start == next && records == map[] && dropped == 0
    }

    method CloseAt(end: Instant, next: Instant, within: bool) returns (w: Window)
      modifies this, gaps
      ensures Closed(old(start), end, next, within, old(View()), w)
      ensures maxKeys == old(maxKeys)
      ensures gaps != null ==>
        var lost := OverflowOf(old(View()), old(start), end, within);
        gaps.capacity == old(gaps.capacity) && gaps.View() == Overflowed(old(gaps.View()), lost, gaps.Capacity())
    {
      ghost var was := View();
      if dropped > 0 {
        if gaps != null {
          gaps.RecordGap(GapAlgebra.Gap(GapAlgebra.WindowOverflow, "", Hold(firstDrop, start, end, within), end,
            dropped, true));
        }
        dropped := 0;
      }
      var rs := ListRecords(records, start, end, within, was);
      w := Window(start, end, rs);
      start := next;
      records := map[];
    }
  }

  /** What a closing window reports lost ends where the window ends, and when
      the window was cut starts within its bounds. */
  lemma OverflowWithin(w: Open, start: Instant, end: Instant, within: bool)
    requires start.wall <= end.wall && w.dropped > 0
    ensures var g := OverflowOf(w, start, end, within)[0];
            && g.kind == GapAlgebra.WindowOverflow && g.source == "" && g.hasCount && g.count == w.dropped
            && g.to == end && (!within ==> g.from == w.firstDrop)
            && (within ==> start.wall <= g.from.wall <= end.wall)
            && (within && start.wall <= w.firstDrop.wall <= end.wall ==> g.from.wall == w.firstDrop.wall)
  {
  }

  /** The start of a reported loss carries the monotonic reading unless the
      window was cut and the first drop lay within its bounds: then it is held
      stripped of it. */
  lemma OverflowStampedIff(w: Open, start: Stamp, end: Stamp, within: bool)
    requires w.dropped > 0
    ensures var g := OverflowOf(w, start, end, within)[0];
            && g.to.mono.Some?
            && (g.from.mono.Some? <==> !within || w.firstDrop.wall < start.wall || end.wall < w.firstDrop.wall)
  {
  }

  function Overflowed(l: GapLog.Log, lost: seq<GapAlgebra.Gap>, capacity: nat): GapLog.Log {
    if lost == [] then l else GapLog.Do(l, GapLog.Op.Record(lost[0]), capacity)
  }

  method SortedKeys(keys: set<Key>) returns (out: seq<Key>)
    ensures out == KeyListing(keys)
  {
    out := RangeOver(keys);
    KeyOrder();
    SortDistinctIsListing(out, KeyLess);
    out := Sort(out, KeyLess);
  }

  method ListRecords(records: map<Key, Tally>, start: Instant, end: Instant, within: bool, ghost w: Open)
      returns (rs: seq<FlowRecord>)
    requires w.records == records
    ensures ListsRecords(rs, w, start, end, within)
  {
    hide KeyLess, Hold, ListsRecords, Ascending, Elems;
    var keys := SortedKeys(records.Keys);
    rs := [];
    ListedKeys(records, keys);
    for i := 0 to |keys|
      invariant |rs| == i
      invariant forall j :: 0 <= j < i ==>
          keys[j] in records && rs[j] == RecordOf(keys[j], records[keys[j]], start, end, within)
    {
      var t := records[keys[i]];
      rs := rs + [RecordOf(keys[i], t, start, end, within)];
    }
    RecordsListed(keys, rs, w, start, end, within);
  }

  lemma RecordsListed(keys: seq<Key>, rs: seq<FlowRecord>, w: Open, start: Instant, end: Instant, within: bool)
    requires |keys| == |w.records| == |rs| && Ascending(keys, KeyLess)
    requires forall j :: 0 <= j < |rs| ==>
        keys[j] in w.records && rs[j] == RecordOf(keys[j], w.records[keys[j]], start, end, within)
    requires forall k :: k in w.records ==> exists i :: 0 <= i < |keys| && keys[i] == k
    ensures ListsRecords(rs, w, start, end, within)
  {
    hide KeyLess, Hold;
    assert forall i :: 0 <= i < |rs| ==> rs[i].key == keys[i];
    forall k | k in w.records ensures exists i :: 0 <= i < |rs| && rs[i].key == k {
      var i :| 0 <= i < |keys| && keys[i] == k;
      assert rs[i].key == k;
    }
  }

  lemma ListedKeys(records: map<Key, Tally>, keys: seq<Key>)
    requires keys == KeyListing(records.Keys)
    ensures |keys| == |records|
    ensures forall i :: 0 <= i < |keys| ==> keys[i] in records
    ensures forall k :: k in records ==> exists i :: 0 <= i < |keys| && keys[i] == k
    ensures Ascending(keys, KeyLess)
  {
    hide KeyLess;
    assert |records.Keys| == |records|;
    assert forall i :: 0 <= i < |keys| ==> keys[i] in Elems(keys);
    forall k | k in records ensures exists i :: 0 <= i < |keys| && keys[i] == k {
      assert k in Elems(keys);
    }
  }

  // ----- Nothing is counted twice or not at all -----

  function RecordAmount(unit: Measure, r: FlowRecord): nat {
    if unit.InConnections? then r.connections else r.bytes
  }

  function RecordSum(unit: Measure, rs: seq<FlowRecord>): nat {
    if rs == [] then 0 else RecordSum(unit, rs[..|rs| - 1]) + RecordAmount(unit, rs[|rs| - 1])
  }

  function InKeys(unit: Measure, obs: seq<Observation>, keys: seq<Key>): nat {
    if keys == [] then 0 else InKeys(unit, obs, keys[..|keys| - 1]) + Sum(unit, Of(obs, keys[|keys| - 1]))
  }

  lemma SumMore(unit: Measure, obs: seq<Observation>, o: Observation)
    ensures Sum(unit, obs + [o]) == Sum(unit, obs) + Amount(unit, o)
  {
    assert (obs + [o])[..|obs|] == obs;
  }

  lemma {:induction false} InKeysStep(unit: Measure, front: seq<Observation>, o: Observation, keys: seq<Key>)
    requires forall i, j :: 0 <= i < j < |keys| ==> keys[i] != keys[j]
    ensures InKeys(unit, front + [o], keys) == InKeys(unit, front, keys) + if o.key in keys then Amount(unit, o) else 0
  {
    hide Of, Sum;
    if keys != [] {
      var n := |keys| - 1;
      var k := keys[n];
      InKeysStep(unit, front, o, keys[..n]);
      OfStep(front, o, k);
      SumMore(unit, Of(front, k), o);
      assert o.key in keys <==> o.key in keys[..n] || o.key == k by {
        assert keys == keys[..n] + [k];
      }
    }
  }

  lemma {:induction false} SumSplit(unit: Measure, obs: seq<Observation>, keys: seq<Key>)
    requires forall i, j :: 0 <= i < j < |keys| ==> keys[i] != keys[j]
    ensures Sum(unit, obs) == InKeys(unit, obs, keys) + Sum(unit, Outside(obs, Elems(keys)))
  {
    if obs == [] {
      InKeysNone(unit, keys);
    } else {
      var front, o := obs[..|obs| - 1], obs[|obs| - 1];
      assert obs == front + [o];
      SumSplit(unit, front, keys);
      InKeysStep(unit, front, o, keys);
      var out := Outside(front, Elems(keys));
      OutsideStep(front, o, Elems(keys), Elems(keys));
      SumMore(unit, out, o);
      assert out + [] == out;
    }
  }

  lemma {:induction false} InKeysNone(unit: Measure, keys: seq<Key>)
    ensures InKeys(unit, [], keys) == 0
  {
    if keys != [] { InKeysNone(unit, keys[..|keys| - 1]); }
  }

  lemma {:induction false} RecordsCount(unit: Measure, rs: seq<FlowRecord>, obs: seq<Observation>, keys: seq<Key>)
    requires |keys| == |rs|
    requires forall i :: 0 <= i < |rs| ==> RecordAmount(unit, rs[i]) == Sum(unit, Of(obs, keys[i]))
    ensures RecordSum(unit, rs) == InKeys(unit, obs, keys)
  {
    if rs != [] {
      RecordsCount(unit, rs[..|rs| - 1], obs, keys[..|rs| - 1]);
    }
  }

  /** A closed window conserves what was observed: the connections, and the
      bytes, of its records and of what it dropped are all there were, and it
      reports as many dropped as there are observations outside its keys. */
  lemma ClosedWindowConserves(unit: Measure, obs: seq<Observation>, maxKeys: nat, rs: seq<FlowRecord>, start: Instant,
      end: Instant, within: bool)
    requires ListsRecords(rs, AddAll(obs, maxKeys), start, end, within)
    ensures var keys := FirstKeys(obs, maxKeys);
            && RecordSum(unit, rs) + Sum(unit, Outside(obs, keys)) == Sum(unit, obs)
            && (forall k :: k in keys <==> exists i :: 0 <= i < |rs| && rs[i].key == k)
            && AddAll(obs, maxKeys).dropped == |Outside(obs, keys)|
  {
    hide KeyLess, AddAll, FirstKeys, Of, Outside, Sum, Summarizes, Hold, Elems;
    var w := AddAll(obs, maxKeys);
    WindowGroupsBy(obs, maxKeys);
    var keys := seq(|rs|, i requires 0 <= i < |rs| => rs[i].key);
    RecordKeys(rs, w, start, end, within, keys);
    KeysDistinct(rs);
    SumSplit(unit, obs, keys);
    forall i | 0 <= i < |rs| ensures RecordAmount(unit, rs[i]) == Sum(unit, Of(obs, keys[i])) {
      SummarySums(w.records[keys[i]], Of(obs, keys[i]));
    }
    RecordsCount(unit, rs, obs, keys);
  }

  lemma SummarySums(t: Tally, obs: seq<Observation>)
    requires Summarizes(t, obs)
    ensures t.connections == Sum(InConnections, obs) && t.bytes == Sum(InBytes, obs)
  {
  }

  lemma RecordKeys(rs: seq<FlowRecord>, w: Open, start: Instant, end: Instant, within: bool, keys: seq<Key>)
    requires ListsRecords(rs, w, start, end, within)
    requires |keys| == |rs| && forall i :: 0 <= i < |rs| ==> keys[i] == rs[i].key
    ensures Elems(keys) == w.records.Keys
  {
    hide KeyLess, Hold;
    forall k | k in w.records ensures k in keys {
      var i :| 0 <= i < |rs| && rs[i].key == k;
      assert keys[i] == k;
    }
  }

  lemma KeysDistinct(rs: seq<FlowRecord>)
    requires forall i, j :: 0 <= i < j < |rs| ==> KeyLess(rs[i].key, rs[j].key)
    ensures forall i, j :: 0 <= i < j < |rs| ==> rs[i].key != rs[j].key
  {
    forall i, j | 0 <= i < j < |rs| ensures rs[i].key != rs[j].key {
      KeyIrreflexive(rs[i].key);
    }
  }

  lemma KeyIrreflexive(k: Key)
    ensures !KeyLess(k, k)
  {
    KeyOrder();
  }

  // ----- The instants a window ships -----

  /** Instants held within bounds that are in order are in order exactly when
      they were, or one was held at the bound that puts it so. */
  lemma HoldOrder(f: Instant, l: Instant, start: Instant, end: Instant)
    requires start.wall <= end.wall
    ensures start.wall <= Hold(f, start, end, true).wall <= end.wall
    ensures Hold(f, start, end, true).wall <= Hold(l, start, end, true).wall
       <==> f.wall <= start.wall || l.wall >= end.wall || f.wall <= l.wall || start.wall == end.wall
  {
  }

  /** Every instant of a cut window's record lies within the bounds. Its first
      seen is not after its last seen, which the control plane demands, exactly
      when the wall readings f of its earliest stamp and l of its latest satisfy
      f <= start, l >= end or f <= l, or the window has no length; in a window
      that was not cut, exactly when f <= l. Earliest and latest are by the
      monotonic reading. */
  lemma RecordInOrderIff(
    obs: seq<Observation>, maxKeys: nat, rs: seq<FlowRecord>, start: Instant, end: Instant, within: bool, i: nat)
    requires ListsRecords(rs, AddAll(obs, maxKeys), start, end, within) && start.wall <= end.wall && i < |rs|
    ensures exists e, l ::
              var of := Of(obs, rs[i].key);
              && 0 <= e < |of| && EarliestAt(of, e) && 0 <= l < |of| && LatestAt(of, l)
              && (within ==> start.wall <= rs[i].first <= end.wall && start.wall <= rs[i].last <= end.wall)
              && (rs[i].first <= rs[i].last <==>
                  || of[e].at.wall <= of[l].at.wall
                  || (within && (of[e].at.wall <= start.wall || of[l].at.wall >= end.wall || start.wall == end.wall)))
  {
    hide KeyLess, AddAll, FirstKeys, Of, Outside, Summarizes, EarliestAt, LatestAt, Hold;
    WindowGroupsBy(obs, maxKeys);
    var k := rs[i].key;
    var t, of := AddAll(obs, maxKeys).records[k], Of(obs, k);
    SummarySpan(t, of);
    HoldFree(t.first, start, end);
    HoldFree(t.last, start, end);
    var e :| 0 <= e < |of| && of[e].at == t.first && EarliestAt(of, e);
    var l :| 0 <= l < |of| && of[l].at == t.last && LatestAt(of, l);
    HoldOrder(t.first, t.last, start, end);
    HoldOrder(t.last, t.first, start, end);
  }

  lemma SummarySpan(t: Tally, obs: seq<Observation>)
    requires Summarizes(t, obs)
    ensures Earliest(obs, t.first) && Latest(obs, t.last)
  {
  }

  lemma HoldFree(t: Instant, start: Instant, end: Instant)
    ensures Hold(t, start, end, false) == t
  {
  }

  /** A wall clock that orders the stamps of a key as the monotonic clock does
      puts its record in order, cut or not. */
  lemma SteadyRecordInOrder(
    obs: seq<Observation>, maxKeys: nat, rs: seq<FlowRecord>, start: Instant, end: Instant, within: bool, i: nat)
    requires ListsRecords(rs, AddAll(obs, maxKeys), start, end, within) && start.wall <= end.wall && i < |rs|
    requires InStep(Wall, set o | o in Of(obs, rs[i].key) :: o.at)
    ensures rs[i].first <= rs[i].last
  {
    hide KeyLess, AddAll, Of, ListsRecords;
    RecordInOrderIff(obs, maxKeys, rs, start, end, within, i);
    var of := Of(obs, rs[i].key);
    var e, l :|
      && 0 <= e < |of| && EarliestAt(of, e) && 0 <= l < |of| && LatestAt(of, l)
      && (rs[i].first <= rs[i].last <==>
          || of[e].at.wall <= of[l].at.wall
          || (within && (of[e].at.wall <= start.wall || of[l].at.wall >= end.wall || start.wall == end.wall)));
    assert of[e] in of && of[l] in of;
    assert Agrees(Wall, of[l].at, of[e].at);
  }

  /** What a record ships, in terms of the observations of its key: the sums, the
      last process named, and the wall readings of the earliest and the latest
      stamp, as they are when the window was not cut and else moved to the bound
      they lie beyond. */
  lemma RecordSays(
    obs: seq<Observation>, maxKeys: nat, rs: seq<FlowRecord>, start: Instant, end: Instant, within: bool, i: nat)
    requires ListsRecords(rs, AddAll(obs, maxKeys), start, end, within) && start.wall <= end.wall && i < |rs|
    ensures var of := Of(obs, rs[i].key);
            && rs[i].connections == Sum(InConnections, of) && rs[i].bytes == Sum(InBytes, of)
            && rs[i].process == LastProcess(of)
            && exists e, l ::
                 && 0 <= e < |of| && EarliestAt(of, e) && 0 <= l < |of| && LatestAt(of, l)
                 && rs[i].first == Moved(of[e].at.wall, start.wall, end.wall, within)
                 && rs[i].last == Moved(of[l].at.wall, start.wall, end.wall, within)
  {
    hide KeyLess, AddAll, FirstKeys, Of, Outside, EarliestAt, LatestAt, Hold, Sum, LastProcess;
    WindowGroupsBy(obs, maxKeys);
    var k := rs[i].key;
    var t, of := AddAll(obs, maxKeys).records[k], Of(obs, k);
    assert Summarizes(t, of);
    HoldMoves(t.first, start, end, within);
    HoldMoves(t.last, start, end, within);
    var e :| 0 <= e < |of| && of[e].at == t.first && EarliestAt(of, e);
    var l :| 0 <= l < |of| && of[l].at == t.last && LatestAt(of, l);
  }

  function Moved(t: int, start: int, end: int, within: bool): int {
    if within && t < start then start else if within && t > end then end else t
  }

  lemma HoldMoves(t: Instant, start: Instant, end: Instant, within: bool)
    requires start.wall <= end.wall
    ensures Hold(t, start, end, within).wall == Moved(t.wall, start.wall, end.wall, within)
  {
  }
}
