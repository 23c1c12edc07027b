/** Folding the records of a window into one record per totals key. */
module Totals {
  import opened Orders
  import opened Addresses

  /** A resolved peer: its kind (address, workload, group), its key and the
      labels captured with it. */
  datatype Peer = Peer(kind: int, key: string, labels: map<string, string>)

  datatype Record = Record(
    peer: Peer, src: Addr, dst: Addr, dstPort: nat, protocol: int, direction: int, decision: int,
    ruleId: string, connections: nat, bytes: nat, firstSeen: int, lastSeen: int, process: string)

  datatype TotalsKey = TotalsKey(
    peerKind: int, peerKey: string, dstPort: nat, protocol: int, direction: int, decision: int)

  function KeyOf(r: Record): TotalsKey {
    TotalsKey(r.peer.kind, r.peer.key, r.dstPort, r.protocol, r.direction, r.decision)
  }

  predicate KeyLess(a: TotalsKey, b: TotalsKey) {
    if a.peerKind != b.peerKind then a.peerKind < b.peerKind
    else if a.peerKey != b.peerKey then StringLess(a.peerKey, b.peerKey)
    else if a.dstPort != b.dstPort then a.dstPort < b.dstPort
    else if a.protocol != b.protocol then a.protocol < b.protocol
    else if a.direction != b.direction then a.direction < b.direction
    else a.decision < b.decision
  }

  function KeyFields(k: TotalsKey): (int, (string, (int, (int, (int, int))))) {
    (k.peerKind, (k.peerKey, (k.dstPort, (k.protocol, (k.direction, k.decision)))))
  }

  lemma KeyOrder()
    ensures StrictOrder(KeyLess)
  {
    IntOrder();
    StringOrder();
    var l1 := Lex(IntLess, IntLess);
    LexOrder(IntLess, IntLess);
    var l2 := Lex(IntLess, l1);
    LexOrder(IntLess, l1);
    var l3 := Lex(IntLess, l2);
    LexOrder(IntLess, l2);
    var l4 := Lex(StringLess, l3);
    LexOrder(StringLess, l3);
    var l5 := Lex(IntLess, l4);
    LexOrder(IntLess, l4);
    hide StrictOrder, StringLess;
    PullBackOrder(KeyFields, l5, KeyLess);
  }

  ghost predicate Lists(r: seq<TotalsKey>, s: set<TotalsKey>) {
    Ascending(r, KeyLess) && Elems(r) == s && |r| == |s|
  }

  ghost function KeyListing(s: set<TotalsKey>): (r: seq<TotalsKey>)
    ensures Lists(r, s)
  {
    KeyListingExists(s);
    var r :| Lists(r, s);
    r
  }

  lemma KeyListingExists(s: set<TotalsKey>)
    ensures exists r :: Lists(r, s)
  {
    KeyOrder();
    assert Lists(Listing(s, KeyLess), s);
  }

  lemma KeysUnique(a: seq<TotalsKey>, b: seq<TotalsKey>)
    requires Ascending(a, KeyLess) && Ascending(b, KeyLess) && Elems(a) == Elems(b)
    ensures a == b
  {
    KeyOrder();
    AscendingUnique(a, b, KeyLess);
  }

  // ----- One key -----

  /** m with r folded in: counts add, first seen is the earliest, and the
      attributes are those of the record seen last, of the later on a tie. */
  function Merge(m: Record, r: Record): Record {
    var sum := m.(connections := m.connections + r.connections, bytes := m.bytes + r.bytes,
                  firstSeen := if r.firstSeen < m.firstSeen then r.firstSeen else m.firstSeen);
    if r.lastSeen < m.lastSeen then sum
    else sum.(lastSeen := r.lastSeen, peer := r.peer, ruleId := r.ruleId, src := r.src, dst := r.dst,
      process := r.process)
  }

  function Folded(rs: seq<Record>): Record
    requires rs != []
  {
    if |rs| == 1 then rs[0] else Merge(Folded(rs[..|rs| - 1]), rs[|rs| - 1])
  }

  /** The records of one key, in order. */
  function Of(rs: seq<Record>, k: TotalsKey): seq<Record> {
    if rs == [] then []
    else
      var n := |rs| - 1;
      Of(rs[..n], k) + if KeyOf(rs[n]) == k then [rs[n]] else []
  }

  function Keys(rs: seq<Record>): set<TotalsKey> {
    set r | r in rs :: KeyOf(r)
  }

  lemma MergeAssociative(a: Record, b: Record, c: Record)
    requires KeyOf(a) == KeyOf(b) == KeyOf(c)
    ensures Merge(Merge(a, b), c) == Merge(a, Merge(b, c))
    ensures KeyOf(Merge(a, b)) == KeyOf(a)
  {
  }

  predicate Alike(rs: seq<Record>, k: TotalsKey) {
    forall r :: r in rs ==> KeyOf(r) == k
  }

  lemma {:induction false} FoldedKey(rs: seq<Record>, k: TotalsKey)
    requires rs != [] && Alike(rs, k)
    ensures KeyOf(Folded(rs)) == k
  {
    assert rs[|rs| - 1] in rs;
    if |rs| > 1 { FoldedKey(rs[..|rs| - 1], k); }
  }

  lemma {:induction false} FoldedConcat(a: seq<Record>, b: seq<Record>, k: TotalsKey)
    requires a != [] && b != [] && Alike(a, k) && Alike(b, k)
    ensures Folded(a + b) == Merge(Folded(a), Folded(b))
  {
    assert (a + b)[..|a + b| - 1] == a + b[..|b| - 1];
    if |b| == 1 {
      assert a + b[..0] == a;
    } else {
      var front, r := b[..|b| - 1], b[|b| - 1];
      FoldedConcat(a, front, k);
      FoldedKey(a, k);
      FoldedKey(front, k);
      MergeAssociative(Folded(a), Folded(front), r);
    }
  }

  lemma {:induction false} OfAlike(rs: seq<Record>, k: TotalsKey)
    ensures Alike(Of(rs, k), k)
    ensures k in Keys(rs) <==> Of(rs, k) != []
  {
    if rs != [] {
      var n := |rs| - 1;
      OfAlike(rs[..n], k);
      KeysAppend(rs[..n], rs[n]);
      assert rs == rs[..n] + [rs[n]];
    }
  }

  lemma KeysAppend(rs: seq<Record>, r: Record)
    ensures Keys(rs + [r]) == Keys(rs) + {KeyOf(r)}
  {
    assert forall x :: x in rs + [r] <==> x in rs || x == r;
    assert r in rs + [r];
  }

  lemma {:induction false} OfConcat(a: seq<Record>, b: seq<Record>, k: TotalsKey)
    ensures Of(a + b, k) == Of(a, k) + Of(b, k)
  {
    if b == [] {
      assert a + b == a;
    } else {
      var n := |b| - 1;
      OfConcat(a, b[..n], k);
      assert (a + b)[..|a| + n] == a + b[..n];
    }
  }

  lemma KeysConcat(a: seq<Record>, b: seq<Record>)
    ensures Keys(a + b) == Keys(a) + Keys(b)
  {
    assert forall x :: x in a + b <==> x in a || x in b;
  }

  /** What a folded record says of the records behind it. */
  ghost predicate Summarizes(m: Record, rs: seq<Record>) {
    && (forall unit :: Amount(unit, m) == Sum(unit, rs))
    && (exists r :: r in rs && r.firstSeen == m.firstSeen) && (forall r :: r in rs ==> m.firstSeen <= r.firstSeen)
    && exists i :: 0 <= i < |rs| && Latest(rs, i) && Attributes(m, rs[i])
  }

  /** The record seen last; among those seen last together, the latest. */
  predicate Latest(rs: seq<Record>, i: nat)
    requires i < |rs|
  {
    && (forall j :: 0 <= j < |rs| ==> rs[j].lastSeen <= rs[i].lastSeen)
    && (forall j :: i < j < |rs| ==> rs[j].lastSeen < rs[i].lastSeen)
  }

  predicate Attributes(m: Record, r: Record) {
    && m.lastSeen == r.lastSeen && m.peer == r.peer && m.ruleId == r.ruleId
    && m.src == r.src && m.dst == r.dst && m.process == r.process
  }

  /** What is counted of a record. */
  datatype Measure = InConnections | InBytes

  function Amount(unit: Measure, r: Record): nat {
    if unit.InConnections? then r.connections else r.bytes
  }

  function Sum(unit: Measure, rs: seq<Record>): nat {
    if rs == [] then 0 else Sum(unit, rs[..|rs| - 1]) + Amount(unit, rs[|rs| - 1])
  }

  lemma {:induction false} FoldedSummarizes(rs: seq<Record>)
    requires rs != []
    ensures Summarizes(Folded(rs), rs)
  {
    hide Summarizes, Merge;
    var n := |rs| - 1;
    if n == 0 {
      SummarizeOne(rs[0]);
      assert rs == [rs[0]];
    } else {
      FoldedSummarizes(rs[..n]);
      SummarizeMore(Folded(rs[..n]), rs[..n], rs[n]);
      assert rs == rs[..n] + [rs[n]];
    }
  }

  lemma SummarizeOne(r: Record)
    ensures Summarizes(r, [r])
  {
    assert [r][..0] == [] && r in [r];
    assert Latest([r], 0) && Attributes(r, [r][0]);
  }

  lemma SummarizeMore(m: Record, front: seq<Record>, r: Record)
    requires Summarizes(m, front)
    ensures Summarizes(Merge(m, r), front + [r])
  {
    hide Latest, Attributes;
    var rs := front + [r];
    assert rs[..|front|] == front;
    assert r in rs && forall x :: x in rs <==> x in front || x == r;
    var f :| f in front && f.firstSeen == m.firstSeen;
    assert f in rs;
    forall unit ensures Amount(unit, Merge(m, r)) == Sum(unit, rs) {
      assert Sum(unit, rs) == Sum(unit, front) + Amount(unit, r);
    }
    LatestStep(m, front, r);
  }

  lemma LatestStep(m: Record, front: seq<Record>, r: Record)
    requires exists i :: 0 <= i < |front| && Latest(front, i) && Attributes(m, front[i])
    ensures var rs := front + [r]; exists i :: 0 <= i < |rs| && Latest(rs, i) && Attributes(Merge(m, r), rs[i])
  {
    var rs := front + [r];
    var i :| 0 <= i < |front| && Latest(front, i) && Attributes(m, front[i]);
    if r.lastSeen < m.lastSeen {
      assert Latest(rs, i) && Attributes(Merge(m, r), rs[i]);
    } else {
      assert Latest(rs, |front|) && Attributes(Merge(m, r), rs[|front|]);
    }
  }

  // ----- All keys -----

  ghost function FoldEach(keys: seq<TotalsKey>, rs: seq<Record>): (out: seq<Record>)
    requires forall i :: 0 <= i < |keys| ==> Of(rs, keys[i]) != []
    ensures |out| == |keys|
    ensures forall i :: 0 <= i < |keys| ==> out[i] == Folded(Of(rs, keys[i]))
  {
    seq(|keys|, i requires 0 <= i < |keys| => Folded(Of(rs, keys[i])))
  }

  /** One folded record per key, in key order. */
  ghost function Aggregate(rs: seq<Record>): seq<Record> {
    var keys := KeyListing(Keys(rs));
    ListedKeys(rs);
    FoldEach(keys, rs)
  }

  lemma ListedKeys(rs: seq<Record>)
    ensures var keys := KeyListing(Keys(rs));
            && (forall i :: 0 <= i < |keys| ==> keys[i] in Keys(rs) && Of(rs, keys[i]) != [])
            && (forall k :: k in Keys(rs) ==> exists i :: 0 <= i < |keys| && keys[i] == k)
  {
    hide KeyLess;
    var keys := KeyListing(Keys(rs));
    forall i | 0 <= i < |keys| ensures keys[i] in Keys(rs) && Of(rs, keys[i]) != [] {
      assert keys[i] in Elems(keys);
      OfAlike(rs, keys[i]);
    }
    forall k | k in Keys(rs) ensures exists i :: 0 <= i < |keys| && keys[i] == k {
      assert k in Elems(keys);
    }
  }

  /** The aggregate has each key of the input once, ascending, and each of its
      records summarizes the input's records of that key. */
  lemma AggregateSays(rs: seq<Record>)
    ensures var out := Aggregate(rs);
            && Keys(out) == Keys(rs)
            && (forall i, j :: 0 <= i < j < |out| ==> KeyLess(KeyOf(out[i]), KeyOf(out[j])))
            && (forall i :: 0 <= i < |out| ==> Summarizes(out[i], Of(rs, KeyOf(out[i]))))
            && (forall k :: k in Keys(rs) ==> exists i :: 0 <= i < |out| && KeyOf(out[i]) == k)
  {
    hide KeyLess, Summarizes, Folded, Of;
    var out, keys := Aggregate(rs), KeyListing(Keys(rs));
    ListedKeys(rs);
    forall i | 0 <= i < |out| ensures KeyOf(out[i]) == keys[i] && Summarizes(out[i], Of(rs, keys[i])) {
      OfAlike(rs, keys[i]);
      FoldedKey(Of(rs, keys[i]), keys[i]);
      FoldedSummarizes(Of(rs, keys[i]));
    }
    forall k | k in Keys(rs) ensures exists i :: 0 <= i < |out| && KeyOf(out[i]) == k {
      var i :| 0 <= i < |keys| && keys[i] == k;
      assert KeyOf(out[i]) == k;
    }
    forall k ensures k in Keys(out) <==> k in Keys(rs) {
      if k in Keys(rs) {
        var i :| 0 <= i < |out| && KeyOf(out[i]) == k;
        assert out[i] in out;
      }
    }
  }

  /** In an aggregate a key has one record: its input's records folded. */
  lemma AggregateOf(rs: seq<Record>, k: TotalsKey)
    ensures Of(Aggregate(rs), k) == if Of(rs, k) != [] then [Folded(Of(rs, k))] else []
  {
    hide KeyLess, Summarizes, Folded, Of;
    var out, keys := Aggregate(rs), KeyListing(Keys(rs));
    AggregateSays(rs);
    ListedKeys(rs);
    OfAlike(rs, k);
    if k in Keys(rs) {
      var i :| 0 <= i < |keys| && keys[i] == k;
      FoldedKey(Of(rs, k), k);
      AscendingApart(out);
      OfOnly(out, i, k);
    } else {
      OfAlike(out, k);
    }
  }

  lemma AscendingApart(out: seq<Record>)
    requires forall i, j :: 0 <= i < j < |out| ==> KeyLess(KeyOf(out[i]), KeyOf(out[j]))
    ensures forall i, j :: 0 <= i < j < |out| ==> KeyOf(out[i]) != KeyOf(out[j])
  {
    forall i, j | 0 <= i < j < |out| ensures KeyOf(out[i]) != KeyOf(out[j]) {
      KeyIrreflexive(KeyOf(out[i]));
    }
  }

  lemma KeyIrreflexive(k: TotalsKey)
    ensures !KeyLess(k, k)
  {
    KeyOrder();
  }

  lemma {:induction false} OfOnly(out: seq<Record>, i: nat, k: TotalsKey)
    requires i < |out| && KeyOf(out[i]) == k
    requires forall i, j :: 0 <= i < j < |out| ==> KeyOf(out[i]) != KeyOf(out[j])
    ensures Of(out, k) == [out[i]]
  {
    var n := |out| - 1;
    if i == n {
      OfOthers(out[..n], k);
    } else {
      OfOnly(out[..n], i, k);
    }
  }

  lemma {:induction false} OfOthers(out: seq<Record>, k: TotalsKey)
    requires forall i :: 0 <= i < |out| ==> KeyOf(out[i]) != k
    ensures Of(out, k) == []
  {
    if out != [] { OfOthers(out[..|out| - 1], k); }
  }

  /** Aggregating in two stages is aggregating at once, to the attribute: the
      totals do not depend on how the records were split into reports. */
  lemma AggregateComposes(a: seq<Record>, b: seq<Record>)
    ensures Aggregate(Aggregate(a) + Aggregate(b)) == Aggregate(a + b)
  {
    hide KeyLess, Summarizes, Folded, Of, Keys;
    var x, y := Aggregate(a), Aggregate(b);
    AggregateSays(a);
    AggregateSays(b);
    KeysConcat(a, b);
    KeysConcat(x, y);
    var keys := KeyListing(Keys(a + b));
    ListedKeys(a + b);
    ListedKeys(x + y);
    forall i | 0 <= i < |keys| ensures Folded(Of(x + y, keys[i])) == Folded(Of(a + b, keys[i])) {
      ComposeKey(a, b, keys[i]);
    }
    assert Aggregate(x + y) == Aggregate(a + b);
  }

  lemma ComposeKey(a: seq<Record>, b: seq<Record>, k: TotalsKey)
    requires k in Keys(a) + Keys(b)
    ensures Of(Aggregate(a) + Aggregate(b), k) != [] && Of(a + b, k) != []
    ensures Folded(Of(Aggregate(a) + Aggregate(b), k)) == Folded(Of(a + b, k))
  {
    hide KeyLess, Of, Keys, Aggregate;
    var f, g := Of(a, k), Of(b, k);
    OfConcat(a, b, k);
    OfConcat(Aggregate(a), Aggregate(b), k);
    AggregateOf(a, k);
    AggregateOf(b, k);
    OfAlike(a, k);
    OfAlike(b, k);
    if f == [] {
      assert f + g == g && [] + [Folded(g)] == [Folded(g)];
    } else if g == [] {
      assert f + g == f && [Folded(f)] + [] == [Folded(f)];
    } else {
      FoldedConcat(f, g, k);
      FoldedKey(f, k);
      FoldedKey(g, k);
      assert [Folded(f)] + [Folded(g)] == [Folded(f), Folded(g)];
      FoldedPair(Folded(f), Folded(g));
    }
  }

  lemma FoldedPair(a: Record, b: Record)
    ensures Folded([a, b]) == Merge(a, b)
  {
    assert [a, b][..1] == [a];
  }

  // ----- Sums -----

  function InKeys(unit: Measure, rs: seq<Record>, keys: seq<TotalsKey>): nat {
    if keys == [] then 0 else InKeys(unit, rs, keys[..|keys| - 1]) + Sum(unit, Of(rs, keys[|keys| - 1]))
  }

  lemma SumMore(unit: Measure, rs: seq<Record>, r: Record)
    ensures Sum(unit, rs + [r]) == Sum(unit, rs) + Amount(unit, r)
  {
    assert (rs + [r])[..|rs|] == rs;
  }

  lemma OfStep(front: seq<Record>, r: Record, k: TotalsKey)
    ensures Of(front + [r], k) == if KeyOf(r) == k then Of(front, k) + [r] else Of(front, k)
  {
    assert (front + [r])[..|front|] == front;
  }

  lemma {:induction false} InKeysStep(unit: Measure, front: seq<Record>, r: Record, keys: seq<TotalsKey>)
    requires forall i, j :: 0 <= i < j < |keys| ==> keys[i] != keys[j]
    ensures InKeys(unit, front + [r], keys) == InKeys(unit, front, keys) + if KeyOf(r) in keys then Amount(unit, r)
        else 0
  {
    hide Of, Sum;
    if keys != [] {
      var n := |keys| - 1;
      InKeysStep(unit, front, r, keys[..n]);
      OfStep(front, r, keys[n]);
      SumMore(unit, Of(front, keys[n]), r);
      assert KeyOf(r) in keys <==> KeyOf(r) in keys[..n] || KeyOf(r) == keys[n] by {
        assert keys == keys[..n] + [keys[n]];
      }
    }
  }

  lemma {:induction false} InKeysAll(unit: Measure, rs: seq<Record>, keys: seq<TotalsKey>)
    requires forall i, j :: 0 <= i < j < |keys| ==> keys[i] != keys[j]
    requires forall r :: r in rs ==> KeyOf(r) in keys
    ensures InKeys(unit, rs, keys) == Sum(unit, rs)
  {
    if rs == [] {
      InKeysNone(unit, keys);
    } else {
      var front, r := rs[..|rs| - 1], rs[|rs| - 1];
      assert rs == front + [r];
      InKeysAll(unit, front, keys);
      InKeysStep(unit, front, r, keys);
    }
  }

  lemma {:induction false} InKeysNone(unit: Measure, keys: seq<TotalsKey>)
    ensures InKeys(unit, [], keys) == 0
  {
    if keys != [] { InKeysNone(unit, keys[..|keys| - 1]); }
  }

  lemma {:induction false} FoldEachSums(unit: Measure, out: seq<Record>, keys: seq<TotalsKey>, rs: seq<Record>)
    requires |out| == |keys| && forall i :: 0 <= i < |keys| ==> Amount(unit, out[i]) == Sum(unit, Of(rs, keys[i]))
    ensures Sum(unit, out) == InKeys(unit, rs, keys)
  {
    if out != [] { FoldEachSums(unit, out[..|out| - 1], keys[..|keys| - 1], rs); }
  }

  /** Aggregating neither loses nor invents a connection or a byte. */
  lemma AggregateConserves(unit: Measure, rs: seq<Record>)
    ensures Sum(unit, Aggregate(rs)) == Sum(unit, rs)
  {
    hide KeyLess, Of, Aggregate, Sum;
    var out := Aggregate(rs);
    AggregateSays(rs);
    AscendingApart(out);
    var keys := Map(KeyOf, out);
    forall r | r in rs ensures KeyOf(r) in keys {
      assert KeyOf(r) in Keys(rs);
      var i :| 0 <= i < |out| && KeyOf(out[i]) == KeyOf(r);
      assert keys[i] == KeyOf(r);
    }
    InKeysAll(unit, rs, keys);
    FoldEachSums(unit, out, keys, rs);
  }

  // ----- The loop -----

  /** out holds one folded record for each key so far, where index says. */
  ghost predicate Indexed(out: seq<Record>, index: map<TotalsKey, nat>, rs: seq<Record>) {
    && (forall j :: 0 <= j < |out| ==> KeyOf(out[j]) in index && index[KeyOf(out[j])] == j)
    && (forall k :: k in index ==> index[k] < |out| && KeyOf(out[index[k]]) == k)
    && (forall k :: k in index <==> Of(rs, k) != [])
    && (forall k :: k in index ==> out[index[k]] == Folded(Of(rs, k)))
  }

  lemma IndexedNew(out: seq<Record>, index: map<TotalsKey, nat>, rs: seq<Record>, r: Record)
    requires Indexed(out, index, rs) && KeyOf(r) !in index
    ensures Indexed(out + [r], index[KeyOf(r) := |out|], rs + [r])
  {
    hide Of, Folded, KeyOf;
    forall k ensures Of(rs + [r], k) == if KeyOf(r) == k then Of(rs, k) + [r] else Of(rs, k) { OfStep(rs, r, k); }
    assert Of(rs + [r], KeyOf(r)) == [r];
    FoldedOne(r);
  }

  lemma FoldedOne(r: Record)
    ensures Folded([r]) == r
  {
  }

  lemma FoldedMore(rs: seq<Record>, r: Record)
    requires rs != []
    ensures Folded(rs + [r]) == Merge(Folded(rs), r)
  {
    assert (rs + [r])[..|rs|] == rs;
  }

  lemma IndexedMerge(out: seq<Record>, index: map<TotalsKey, nat>, rs: seq<Record>, r: Record)
    requires Indexed(out, index, rs) && KeyOf(r) in index
    ensures Indexed(out[index[KeyOf(r)] := Merge(out[index[KeyOf(r)]], r)], index, rs + [r])
  {
    var j := index[KeyOf(r)];
    MergeAssociative(out[j], r, r);
    hide Of, Folded, KeyOf, Merge;
    forall k ensures Of(rs + [r], k) == if KeyOf(r) == k then Of(rs, k) + [r] else Of(rs, k) { OfStep(rs, r, k); }
    FoldedMore(Of(rs, KeyOf(r)), r);
  }

  predicate RecordLess(a: Record, b: Record) {
    KeyLess(KeyOf(a), KeyOf(b))
  }

  method AggregateTotals(records: seq<Record>) returns (out: seq<Record>)
    ensures out == Aggregate(records)
  {
    hide Indexed, KeyOf, Aggregate, RecordLess;
    var index: map<TotalsKey, nat> := map[];
    out := [];
    IndexedNone();
    for i := 0 to |records|
      invariant Indexed(out, index, records[..i])
    {
      var r := records[i];
      assert records[..i + 1] == records[..i] + [r];
      var key := KeyOf(r);
      if key !in index {
        IndexedNew(out, index, records[..i], r);
        index := index[key := |out|];
        out := out + [r];
      } else {
        IndexedMerge(out, index, records[..i], r);
        var j := index[key];
        IndexedBound(out, index, records[..i], key);
        var merged := out[j];
        merged := merged.(connections := merged.connections + r.connections, bytes := merged.bytes + r.bytes);
        if r.firstSeen < merged.firstSeen {
          merged := merged.(firstSeen := r.firstSeen);
        }
        if !(r.lastSeen < merged.lastSeen) {
          merged := merged.(lastSeen := r.lastSeen, peer := r.peer, ruleId := r.ruleId, src := r.src, dst := r.dst,
            process := r.process);
        }
        out := out[j := merged];
      }
    }
    assert records[..|records|] == records;
    SortedAggregate(out, index, records);
    out := Sort(out, RecordLess);
  }

  lemma IndexedNone()
    ensures Indexed([], map[], [])
  {
  }

  lemma IndexedBound(out: seq<Record>, index: map<TotalsKey, nat>, rs: seq<Record>, k: TotalsKey)
    requires Indexed(out, index, rs) && k in index
    ensures index[k] < |out|
  {
  }

  lemma SortedAggregate(out: seq<Record>, index: map<TotalsKey, nat>, rs: seq<Record>)
    requires Indexed(out, index, rs)
    ensures Sort(out, RecordLess) == Aggregate(rs)
  {
    hide KeyLess, Of, Folded, Elems;
    var s := Sort(out, RecordLess);
    var keys := KeyListing(Keys(rs));
    SortMembers(out, RecordLess);
    ListedKeys(rs);
    assert Map(KeyOf, s) == keys by { SortedKeys(out, index, rs); }
    forall i | 0 <= i < |s| ensures s[i] == Folded(Of(rs, keys[i])) {
      assert Map(KeyOf, s)[i] == KeyOf(s[i]);
      assert s[i] in out;
      var j :| 0 <= j < |out| && out[j] == s[i];
      assert index[KeyOf(out[j])] == j;
    }
    assert |s| == |keys|;
  }

  lemma SortedKeys(out: seq<Record>, index: map<TotalsKey, nat>, rs: seq<Record>)
    requires Indexed(out, index, rs)
    ensures Map(KeyOf, Sort(out, RecordLess)) == KeyListing(Keys(rs))
  {
    hide KeyLess, Of, Folded;
    var ks := Map(KeyOf, out);
    SortMaps(out, KeyOf, RecordLess, KeyLess);
    assert forall i, j :: 0 <= i < j < |ks| ==> ks[i] != ks[j];
    KeyOrder();
    SortDistinctIsListing(ks, KeyLess);
    assert Elems(ks) == Keys(rs) by {
      forall k ensures k in Elems(ks) <==> k in Keys(rs) {
        OfAlike(rs, k);
        if k in index { assert ks[index[k]] == k; }
        if k in Elems(ks) {
          var i :| 0 <= i < |ks| && ks[i] == k;
          assert KeyOf(out[i]) == k;
        }
      }
    }
    KeysUnique(Sort(ks, KeyLess), KeyListing(Keys(rs)));
  }

  // ----- Field by field -----

  /** Two records that go to one total: the same peer, service, direction and
      decision. */
  predicate Alongside(a: Record, b: Record) {
    && a.peer.kind == b.peer.kind && a.peer.key == b.peer.key
    && a.dstPort == b.dstPort && a.protocol == b.protocol && a.direction == b.direction && a.decision == b.decision
  }

  lemma AlongsideKey(a: Record, b: Record)
    ensures Alongside(a, b) <==> KeyOf(a) == KeyOf(b)
  {
  }

  /** The records that go where one does, in order. */
  function Companions(rs: seq<Record>, r: Record): seq<Record> {
    if rs == [] then []
    else
      var n := |rs| - 1;
      Companions(rs[..n], r) + if Alongside(rs[n], r) then [rs[n]] else []
  }

  lemma {:induction false} CompanionsOf(rs: seq<Record>, r: Record)
    ensures Companions(rs, r) == Of(rs, KeyOf(r))
  {
    if rs != [] {
      var n := |rs| - 1;
      CompanionsOf(rs[..n], r);
      AlongsideKey(rs[n], r);
    }
  }

  /** No two totals go together, each record has exactly one total it goes to,
      and each total sums up exactly the records that go to it, with the earliest
      first seen and the attributes of the one seen last. */
  lemma AggregateFields(rs: seq<Record>)
    ensures var out := Aggregate(rs);
            && (forall i, j :: 0 <= i < j < |out| ==> !Alongside(out[i], out[j]))
            && (forall r :: r in rs ==> exists i :: 0 <= i < |out| && Alongside(out[i], r))
            && (forall i :: 0 <= i < |out| ==>
              Companions(rs, out[i]) != [] && Summarizes(out[i], Companions(rs, out[i])))
  {
    hide KeyLess, KeyOf, Alongside, Summarizes, Of, Folded, Aggregate, Companions;
    var out := Aggregate(rs);
    AggregateSays(rs);
    AscendingApart(out);
    forall i, j | 0 <= i < j < |out| ensures !Alongside(out[i], out[j]) { AlongsideKey(out[i], out[j]); }
    forall r | r in rs ensures exists i :: 0 <= i < |out| && Alongside(out[i], r) {
      KeyMember(rs, r);
      var i :| 0 <= i < |out| && KeyOf(out[i]) == KeyOf(r);
      AlongsideKey(out[i], r);
    }
    forall i | 0 <= i < |out| ensures Companions(rs, out[i]) != [] && Summarizes(out[i], Companions(rs, out[i])) {
      CompanionsOf(rs, out[i]);
      KeyMember(out, out[i]);
      OfAlike(rs, KeyOf(out[i]));
    }
  }

  lemma KeyMember(rs: seq<Record>, r: Record)
    requires r in rs
    ensures KeyOf(r) in Keys(rs)
  {
  }
}
