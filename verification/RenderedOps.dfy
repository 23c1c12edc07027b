/** The rendered-policy operations as the program performs them, on message
    objects whose rules are updated in place, each proved against the value
    it computes. No operation here has a `modifies` clause: none of them
    changes an object its caller already holds. */
module RenderedOps {
  import opened Wrappers
  import opened Orders
  import opened Addresses
  import opened Rendered
  import opened Deltas

  class RuleMessage {
    const id: string
    const protocol: Protocol
    var peers: seq<Text>
    const ports: seq<PortRange>

    constructor (id: string, protocol: Protocol, peers: seq<Text>, ports: seq<PortRange>)
      ensures this.id == id && this.protocol == protocol && this.peers == peers && this.ports == ports
    {
      this.id, this.protocol, this.peers, this.ports := id, protocol, peers, ports;
    }

    function Value(): ResolvedRule
      reads this
    {
      ResolvedRule(id, protocol, peers, ports)
    }
  }

  class PolicyMessage {
    var version: nat
    var mode: Mode
    var rules: seq<RuleMessage>

    constructor (version: nat, mode: Mode, rules: seq<RuleMessage>)
      ensures this.version == version && this.mode == mode && this.rules == rules
    {
      this.version, this.mode, this.rules := version, mode, rules;
    }

    function Value(): Policy
      reads this, rules
    {
      Policy(version, mode, Values(rules))
    }
  }

  function Values(rules: seq<RuleMessage>): (r: seq<ResolvedRule>)
    reads rules
    ensures |r| == |rules| && forall i :: 0 <= i < |r| ==> r[i] == rules[i].Value()
  {
    seq(|rules|, i requires 0 <= i < |rules| reads rules => rules[i].Value())
  }

  method SortedKeys(keys: set<string>) returns (ids: seq<string>)
    ensures ids == IdListing(keys)
  {
    ids := RangeOver(keys);
    StringOrder();
    SortDistinctIsListing(ids, StringLess);
    ids := Sort(ids, StringLess);
    IdsUnique(ids, keys);
  }

  method CanonicalCIDRs(texts: seq<Text>) returns (out: seq<Text>)
    ensures out == PeerListing(NormalSet(texts))
  {
    out := [];
    for i := 0 to |texts|
      invariant |out| == i && forall k :: 0 <= k < i ==> out[k] == NormalizeCIDR(texts[k])
    {
      out := out + [NormalizeCIDR(texts[i])];
    }
    NormalizedElems(texts, out);
    SortCompactPeers(out);
    out := Compact(Sort(out, TextLess));
  }

  lemma NormalizedElems(texts: seq<Text>, out: seq<Text>)
    requires |out| == |texts| && forall k :: 0 <= k < |out| ==> out[k] == NormalizeCIDR(texts[k])
    ensures Elems(out) == NormalSet(texts)
  {
    forall t ensures t in Elems(out) <==> t in NormalSet(texts) {
      if t in Elems(out) {
        var k :| 0 <= k < |out| && out[k] == t;
        assert texts[k] in texts;
      }
      if t in NormalSet(texts) {
        var u :| u in texts && t == NormalizeCIDR(u);
        var k :| 0 <= k < |texts| && texts[k] == u;
        assert out[k] == t;
      }
    }
  }

  lemma SortCompactPeers(s: seq<Text>)
    ensures Compact(Sort(s, TextLess)) == PeerListing(Elems(s))
  {
    TextOrder();
    SortCompactIsListing(s, TextLess);
    AscendingUnique(Listing(Elems(s), TextLess), PeerListing(Elems(s)), TextLess);
  }

  method CanonicalPorts(ranges: seq<PortRange>) returns (out: seq<PortRange>)
    ensures out == PortListing(Elems(ranges))
  {
    PortOrder();
    SortCompactIsListing(ranges, PortLess);
    out := Compact(Sort(ranges, PortLess));
    AscendingUnique(out, PortListing(Elems(ranges)), PortLess);
  }

  method CanonicalRuleCopy(r: ResolvedRule) returns (out: RuleMessage)
    ensures fresh(out) && out.Value() == RuleFor(r.id, GrantOf(r))
  {
    var peers := CanonicalCIDRs(r.peers);
    var ports := CanonicalPorts(r.ports);
    out := new RuleMessage(r.id, r.protocol, peers, ports);
  }

  ghost predicate Keyed(rules: map<string, RuleMessage>)
  {
    forall id :: id in rules ==> rules[id].id == id
  }

  /** What an index of rule objects says. */
  ghost function Grants(rules: map<string, RuleMessage>): map<string, Grant>
    reads rules.Values
  {
    map id | id in rules :: GrantOf(rules[id].Value())
  }

  ghost predicate AllCanonical(rules: map<string, RuleMessage>)
    reads rules.Values
  {
    forall id :: id in rules ==> CanonicalRule(rules[id].Value())
  }

  /** Canonical copies of the rules by id; a later rule takes the id. */
  method IndexCopies(rules: seq<RuleMessage>) returns (byId: map<string, RuleMessage>)
    ensures byId.Keys == Index(Values(rules)).Keys && Keyed(byId)
    ensures forall id :: id in byId ==> fresh(byId[id]) && byId[id].Value() == RuleFor(id, Index(Values(rules))[id])
  {
    byId := map[];
    ghost var values := Values(rules);
    for i := 0 to |rules|
      invariant Keyed(byId)
      invariant byId.Keys == Index(values[..i]).Keys
      invariant forall id :: id in byId ==> fresh(byId[id]) && byId[id].Value() == RuleFor(id, Index(values[..i])[id])
    {
      var r := CanonicalRuleCopy(rules[i].Value());
      assert values[..i + 1][..i] == values[..i];
      byId := byId[r.id := r];
    }
    assert values[..|rules|] == values;
  }

  /** The indexed rules in ascending order of id. */
  method InOrder(byId: map<string, RuleMessage>) returns (rules: seq<RuleMessage>)
    ensures |rules| == |IdListing(byId.Keys)|
    ensures forall k :: 0 <= k < |rules| ==>
        IdListing(byId.Keys)[k] in byId && rules[k] == byId[IdListing(byId.Keys)[k]]
  {
    var ids := SortedKeys(byId.Keys);
    ListedIds(byId.Keys);
    rules := [];
    for i := 0 to |ids|
      invariant |rules| == i
      invariant forall k :: 0 <= k < i ==> rules[k] == byId[ids[k]]
    {
      rules := rules + [byId[ids[i]]];
    }
  }

  /** A copy in canonical form, in objects of its own. */
  method CanonicalCopy(p: PolicyMessage) returns (out: PolicyMessage)
    ensures fresh(out) && fresh(out.rules) && out.Value() == Canonical(p.Value())
  {
    hide Index, Grants, IdListing, RuleFor;
    var byId := IndexCopies(p.rules);
    var rules := InOrder(byId);
    out := new PolicyMessage(p.version, p.mode, rules);
    ExpressIndexed(p.version, ContentOf(p.Value()));
    assert Values(rules) == Canonical(p.Value()).rules;
  }

  /** The elements of each list that the other lacks, in order. */
  method SetDiff(was: seq<Text>, now: seq<Text>) returns (added: seq<Text>, removed: seq<Text>)
    requires Ascending(was, TextLess) && Ascending(now, TextLess)
    ensures added == PeerListing(Elems(now) - Elems(was))
    ensures removed == PeerListing(Elems(was) - Elems(now))
  {
    var wasSet := TextSet(was);
    var nowSet := TextSet(now);
    added := KeepOutside(now, wasSet);
    removed := KeepOutside(was, nowSet);
    FilterLists(now, wasSet);
    FilterLists(was, nowSet);
  }

  method TextSet(s: seq<Text>) returns (r: set<Text>)
    ensures r == Elems(s)
  {
    r := {};
    for i := 0 to |s|
      invariant r == Elems(s[..i])
    {
      assert s[..i + 1] == s[..i] + [s[i]];
      ElemsAppend(s[..i], s[i]);
      r := r + {s[i]};
    }
    assert s[..|s|] == s;
  }

  method KeepOutside(s: seq<Text>, drop: set<Text>) returns (kept: seq<Text>)
    ensures kept == Filter(s, drop)
  {
    kept := [];
    for i := 0 to |s|
      invariant kept == Filter(s[..i], drop)
    {
      assert s[..i + 1][..i] == s[..i];
      if s[i] !in drop {
        kept := kept + [s[i]];
      }
    }
    assert s[..|s|] == s;
  }

  /** The elements of s not in drop, in order. */
  function Filter(s: seq<Text>, drop: set<Text>): seq<Text> {
    if s == [] then []
    else
      var n := |s| - 1;
      Filter(s[..n], drop) + (if s[n] in drop then [] else [s[n]])
  }

  lemma {:induction false} FilterElems(s: seq<Text>, drop: set<Text>)
    ensures Elems(Filter(s, drop)) == Elems(s) - drop
  {
    if s != [] {
      var n := |s| - 1;
      FilterElems(s[..n], drop);
      assert s == s[..n] + [s[n]];
      assert Elems(s) == Elems(s[..n]) + {s[n]};
      assert Elems(Filter(s[..n], drop) + [s[n]]) == Elems(Filter(s[..n], drop)) + {s[n]};
      assert Filter(s[..n], drop) + [] == Filter(s[..n], drop);
    }
  }

  lemma {:induction false} FilterAscending(s: seq<Text>, drop: set<Text>)
    requires Ascending(s, TextLess)
    ensures Ascending(Filter(s, drop), TextLess)
  {
    if s != [] {
      var n := |s| - 1;
      FilterAscending(s[..n], drop);
      FilterElems(s[..n], drop);
      var f := Filter(s[..n], drop);
      forall k | 0 <= k < |f| ensures TextLess(f[k], s[n]) {
        assert f[k] in Elems(f);
        assert f[k] in s[..n];
      }
    }
  }

  lemma FilterLists(s: seq<Text>, drop: set<Text>)
    requires Ascending(s, TextLess)
    ensures Filter(s, drop) == PeerListing(Elems(s) - drop)
  {
    FilterElems(s, drop);
    FilterAscending(s, drop);
    TextOrder();
    AscendingUnique(Filter(s, drop), PeerListing(Elems(s) - drop), TextLess);
  }

  /** The rule objects by id; a later one takes the id. */
  method IndexRules(rules: seq<RuleMessage>) returns (m: map<string, RuleMessage>)
    requires DistinctIds(Values(rules))
    ensures Keyed(m) && Grants(m) == Index(Values(rules))
    ensures forall id :: id in m ==> m[id] in rules
  {
    m := map[];
    ghost var values := Values(rules);
    for i := 0 to |rules|
      invariant Keyed(m) && m.Keys == Index(values[..i]).Keys
      invariant forall id :: id in m ==> m[id] in rules && GrantOf(m[id].Value()) == Index(values[..i])[id]
    {
      assert values[..i + 1][..i] == values[..i];
      m := m[rules[i].id := rules[i]];
    }
    assert values[..|rules|] == values;
  }

  /** The rules of a fresh canonical copy, indexed. */
  method CanonicalIndex(p: PolicyMessage) returns (out: PolicyMessage, m: map<string, RuleMessage>)
    ensures fresh(out) && out.version == p.version && out.mode == p.mode
    ensures Keyed(m) && AllCanonical(m) && Grants(m) == Index(p.Value().rules)
    ensures forall id :: id in m ==> fresh(m[id])
  {
    out := CanonicalCopy(p);
    CanonicalSays(p.Value());
    AscendingIdsDistinct(out.Value().rules);
    m := IndexRules(out.rules);
    forall id | id in m ensures CanonicalRule(m[id].Value()) {
      var k :| 0 <= k < |out.rules| && out.rules[k] == m[id];
      assert out.Value().rules[k] == m[id].Value();
    }
  }

  method PortsEqual(a: seq<PortRange>, b: seq<PortRange>) returns (r: bool)
    ensures r <==> a == b
  {
    if |a| != |b| {
      return false;
    }
    for i := 0 to |a|
      invariant a[..i] == b[..i]
    {
      if a[i].start != b[i].start || a[i].end != b[i].end {
        return false;
      }
      assert a[..i + 1] == a[..i] + [a[i]] && b[..i + 1] == b[..i] + [b[i]];
    }
    assert a[..|a|] == a && b[..|a|] == b;
    return true;
  }

  lemma CanonicalParts(r: ResolvedRule, q: ResolvedRule)
    requires CanonicalRule(r) && CanonicalRule(q)
    ensures Elems(r.peers) == NormalSet(r.peers)
    ensures r.ports == q.ports <==> Elems(r.ports) == Elems(q.ports)
  {
    assert forall t :: t in r.peers ==> NormalizeCIDR(t) == t;
    PortOrder();
    if Elems(r.ports) == Elems(q.ports) {
      AscendingUnique(r.ports, q.ports, PortLess);
    }
  }

  /** The changes one rule id needs. */
  method RuleChanges(id: string, was: map<string, RuleMessage>, now: map<string, RuleMessage>)
      returns (changes: seq<Change>)
    requires id in was || id in now
    requires Keyed(was) && Keyed(now) && AllCanonical(was) && AllCanonical(now)
    ensures changes == RuleDiff(id, Grants(was), Grants(now))
  {
    if id in now {
      CanonicalRuleFixed(now[id].Value());
    }
    if id !in was {
      return [UpsertRule(now[id].Value())];
    }
    if id !in now {
      return [RemoveRule(id)];
    }
    CanonicalParts(was[id].Value(), now[id].Value());
    CanonicalParts(now[id].Value(), was[id].Value());
    var samePorts := PortsEqual(was[id].ports, now[id].ports);
    if was[id].protocol != now[id].protocol || !samePorts {
      return [UpsertRule(now[id].Value())];
    }
    var added, removed := SetDiff(was[id].peers, now[id].peers);
    changes := [];
    if |added| > 0 {
      changes := changes + [AddPeers(id, added)];
    }
    if |removed| > 0 {
      changes := changes + [RemovePeers(id, removed)];
    }
  }

  /** Every id of either index, sorted; neither map's order is relied on. */
  method UnionIds(was: set<string>, now: set<string>) returns (ids: seq<string>)
    ensures ids == IdListing(was + now)
  {
    ids := RangeOver(was);
    var more := RangeOver(now);
    for i := 0 to |more|
      invariant Elems(ids) == was + Elems(more[..i])
      invariant forall a, b :: 0 <= a < b < |ids| ==> ids[a] != ids[b]
    {
      assert more[..i + 1] == more[..i] + [more[i]];
      ElemsAppend(more[..i], more[i]);
      if more[i] !in was {
        assert more[i] !in more[..i];
        assert more[i] !in Elems(ids);
        ElemsAppend(ids, more[i]);
        ids := ids + [more[i]];
      }
    }
    assert more[..|more|] == more;
    StringOrder();
    SortDistinctIsListing(ids, StringLess);
    ids := Sort(ids, StringLess);
    IdsUnique(ids, was + now);
  }

  method AllRuleChanges(ids: seq<string>, was: map<string, RuleMessage>, now: map<string, RuleMessage>,
                        ghost a: map<string, Grant>, ghost b: map<string, Grant>) returns (changes: seq<Change>)
    requires forall i :: 0 <= i < |ids| ==> ids[i] in a || ids[i] in b
    requires Keyed(was) && Keyed(now) && AllCanonical(was) && AllCanonical(now)
    requires a == Grants(was) && b == Grants(now)
    ensures changes == RulesDiff(ids, a, b)
  {
    changes := [];
    for i := 0 to |ids|
      invariant changes == RulesDiff(ids[..i], a, b)
    {
      var more := RuleChanges(ids[i], was, now);
      assert ids[..i + 1][..i] == ids[..i];
      changes := changes + more;
    }
    assert ids[..|ids|] == ids;
  }

  lemma DiffAssembles(p: Policy, q: Policy)
    ensures Diff(p, q) == ModeDiff(p.mode, q.mode)
        + RulesDiff(AllIds(ContentOf(p), ContentOf(q)), Index(p.rules), Index(q.rules))
    ensures AllIds(ContentOf(p), ContentOf(q)) == IdListing(Index(p.rules).Keys + Index(q.rules).Keys)
  {
  }

  lemma GrantsKeys(m: map<string, RuleMessage>)
    ensures Grants(m).Keys == m.Keys
  {
  }

  lemma UnionListed(a: map<string, Grant>, b: map<string, Grant>)
    ensures forall i :: 0 <= i < |IdListing(a.Keys + b.Keys)| ==>
        IdListing(a.Keys + b.Keys)[i] in a || IdListing(a.Keys + b.Keys)[i] in b
  {
    ListedIds(a.Keys + b.Keys);
  }

  method DiffIndexed(fromMode: Mode, toMode: Mode, was: map<string, RuleMessage>, now: map<string, RuleMessage>,
                     ghost p: Policy, ghost q: Policy) returns (changes: seq<Change>)
    requires Keyed(was) && Keyed(now) && AllCanonical(was) && AllCanonical(now)
    requires p.mode == fromMode && Index(p.rules) == Grants(was)
    requires q.mode == toMode && Index(q.rules) == Grants(now)
    ensures changes == Diff(p, q)
  {
    hide Index, Grants, RulesDiff, Diff, AllCanonical;
    ghost var a, b := Index(p.rules), Index(q.rules);
    GrantsKeys(was);
    GrantsKeys(now);
    UnionListed(a, b);
    changes := [];
    if fromMode != toMode {
      changes := [SetMode(toMode)];
    }
    var ids := UnionIds(was.Keys, now.Keys);
    var more := AllRuleChanges(ids, was, now, a, b);
    changes := changes + more;
    DiffAssembles(p, q);
  }

  /** The difference of two policies, whatever order their maps are ranged
      over in. */
  method DiffMessages(from: PolicyMessage, to: PolicyMessage) returns (changes: seq<Change>)
    ensures changes == Diff(from.Value(), to.Value())
  {
    ghost var p, q := from.Value(), to.Value();
    var f, was := CanonicalIndex(from);
    assert to.Value() == q;
    var t, now := CanonicalIndex(to);
    changes := DiffIndexed(f.mode, t.mode, was, now, p, q);
    assert from.Value() == p && to.Value() == q;
  }

  lemma IndexOfListing(rules: map<string, RuleMessage>, listed: seq<RuleMessage>)
    requires Keyed(rules) && DistinctIds(Values(listed))
    requires forall r :: r in listed ==> r.id in rules && rules[r.id] == r
    requires forall id :: id in rules ==> rules[id] in listed
    ensures Index(Values(listed)) == Grants(rules)
  {
    IndexDistinct(Values(listed));
    var values := Values(listed);
    forall id ensures id in Index(values) <==> id in rules {
      if id in rules {
        var k :| 0 <= k < |listed| && listed[k] == rules[id];
        assert values[k] in values;
      }
      if id in Index(values) {
        var v :| v in values && v.id == id;
        var k :| 0 <= k < |values| && values[k] == v;
        assert listed[k] in listed;
      }
    }
    forall id | id in rules ensures Index(values)[id] == GrantOf(rules[id].Value()) {
      var k :| 0 <= k < |listed| && listed[k] == rules[id];
      assert values[k] in values;
    }
  }

  /** Gives a policy the rule objects of an index, in no particular order. */
  method RangeInto(out: PolicyMessage, rules: map<string, RuleMessage>)
    requires Keyed(rules)
    modifies out`rules
    ensures Index(Values(out.rules)) == Grants(rules)
    ensures forall id :: id in rules ==> rules[id].Value() == old(rules[id].Value())
  {
    var ids := RangeOver(rules.Keys);
    assert forall k :: 0 <= k < |ids| ==> ids[k] in Elems(ids);
    out.rules := [];
    for i := 0 to |ids|
      invariant |out.rules| == i
      invariant forall k :: 0 <= k < i ==> out.rules[k] == rules[ids[k]]
    {
      out.rules := out.rules + [rules[ids[i]]];
    }
    forall id | id in rules ensures rules[id] in out.rules {
      assert id in Elems(ids);
      var k :| 0 <= k < |ids| && ids[k] == id;
      assert out.rules[k] == rules[id];
    }
    IndexOfListing(rules, out.rules);
  }

  lemma AddedPeers(r: ResolvedRule, more: seq<Text>)
    requires CanonicalRule(r)
    ensures var s := r.(peers := PeerListing(NormalSet(r.peers + more)));
            CanonicalRule(s) && GrantOf(s) == GrantOf(r).(peers := GrantOf(r).peers + NormalSet(more))
  {
    var all := r.peers + more;
    assert NormalSet(all) == NormalSet(r.peers) + NormalSet(more);
    forall t | t in NormalSet(all) ensures NormalizeCIDR(t) == t {
      var u :| u in all && t == NormalizeCIDR(u);
      NormalizeIdempotent(u);
    }
    NormalListing(NormalSet(all));
    var l := PeerListing(NormalSet(all));
    assert forall t :: t in l ==> t in Elems(l);
  }

  lemma RemovedPeers(r: ResolvedRule, drop: set<Text>)
    requires CanonicalRule(r)
    ensures var s := r.(peers := Filter(r.peers, drop));
            CanonicalRule(s) && GrantOf(s) == GrantOf(r).(peers := GrantOf(r).peers - drop)
  {
    FilterAscending(r.peers, drop);
    FilterElems(r.peers, drop);
    var kept := Filter(r.peers, drop);
    assert forall t :: t in kept <==> t in Elems(kept);
    assert forall t :: t in r.peers ==> NormalizeCIDR(t) == t;
    assert NormalSet(kept) == Elems(kept) && NormalSet(r.peers) == Elems(r.peers);
  }

  /** Every change of a delta in turn, on the working copy, until one fails. */
  method ApplyAllInPlace(out: PolicyMessage, rules: map<string, RuleMessage>, changes: seq<Change>,
      ghost start: Content)
    returns (next: map<string, RuleMessage>, failed: Option<ApplyError>)
    requires Keyed(rules) && AllCanonical(rules) && start == Content(out.mode, Grants(rules))
    modifies out`mode, rules.Values
    ensures failed.Some? ==> ApplyChanges(start, changes) == Err(failed.value)
    ensures failed.None? ==> Keyed(next) && ApplyChanges(start, changes) == Ok(Content(out.mode, Grants(next)))
  {
    next := rules;
    assert changes[..0] == [];
    for i := 0 to |changes|
      invariant Keyed(next) && AllCanonical(next)
      invariant forall id :: id in next ==> next[id] in rules.Values || fresh(next[id])
      invariant ApplyChanges(start, changes[..i]) == Ok(Content(out.mode, Grants(next)))
    {
      ghost var c := Content(out.mode, Grants(next));
      next, failed := ApplyInPlace(out, next, changes[i], i, c);
      assert changes[..i + 1][..i] == changes[..i];
      if failed.Some? {
        ApplyStops(start, changes, i + 1);
        return;
      }
    }
    assert changes[..|changes|] == changes;
    failed := None;
  }

  /** The policy a delta takes base to, or why it does not apply. Rules of
      the working copy are changed in place; base and everything else the
      caller holds is left as it was, whether the delta applies or not. */
  method ApplyDelta(base: PolicyMessage, delta: Delta) returns (r: Result<PolicyMessage>)
    ensures r.Ok? ==> fresh(r.value) && Apply(old(base.Value()), delta) == Ok(r.value.Value())
    ensures r.Err? ==> Apply(old(base.Value()), delta) == Err(r.error)
    ensures base.Value() == old(base.Value())
  {
    ghost var p := base.Value();
    var out, rules := CanonicalIndex(base);
    if out.version != delta.from {
      return Err(BaseMismatch);
    }
    var next, failed := ApplyAllInPlace(out, rules, delta.changes, ContentOf(p));
    if failed.Some? {
      return Err(failed.value);
    }
    var done := Finish(out, next, delta.to);
    r := Ok(done);
  }

  /** The canonical policy of the working copy's rules at a version. */
  method Finish(out: PolicyMessage, rules: map<string, RuleMessage>, to: nat) returns (done: PolicyMessage)
    requires Keyed(rules)
    modifies out
    ensures fresh(done) && done.Value() == Express(to, Content(old(out.mode), old(Grants(rules))))
  {
    ghost var c := Content(out.mode, Grants(rules));
    out.version := to;
    RangeInto(out, rules);
    assert Grants(rules) == c.rules;
    ghost var p := out.Value();
    assert p.version == to && ContentOf(p) == c;
    done := CanonicalCopy(out);
    assert done.Value() == Canonical(p);
  }

  lemma {:induction false} ApplyStops(c: Content, changes: seq<Change>, n: nat)
    requires n <= |changes| && ApplyChanges(c, changes[..n]).Err?
    ensures ApplyChanges(c, changes) == ApplyChanges(c, changes[..n])
    decreases |changes|
  {
    if n < |changes| {
      var front := changes[..|changes| - 1];
      assert front[..n] == changes[..n];
      ApplyStops(c, front, n);
    } else {
      assert changes[..n] == changes;
    }
  }

  method NormalDrop(peers: seq<Text>) returns (drop: set<Text>)
    ensures drop == NormalSet(peers)
  {
    drop := {};
    for i := 0 to |peers|
      invariant drop == NormalSet(peers[..i])
    {
      assert peers[..i + 1] == peers[..i] + [peers[i]];
      drop := drop + {NormalizeCIDR(peers[i])};
    }
    assert peers[..|peers|] == peers;
  }

  /** Gives one indexed rule new peers, in place. */
  method ReplacePeers(rules: map<string, RuleMessage>, id: string, peers: seq<Text>)
    requires Keyed(rules) && AllCanonical(rules) && id in rules
    requires CanonicalRule(rules[id].Value().(peers := peers))
    modifies rules[id]
    ensures AllCanonical(rules)
    ensures Grants(rules) == old(Grants(rules))[id := GrantOf(old(rules[id].Value()).(peers := peers))]
  {
    rules[id].peers := peers;
    forall k | k in rules && k != id ensures rules[k].Value() == old(rules[k].Value()) {
      assert rules[k].id != rules[id].id;
    }
  }

  method UpsertCopy(rules: map<string, RuleMessage>, r: ResolvedRule) returns (next: map<string, RuleMessage>)
    requires Keyed(rules) && AllCanonical(rules)
    ensures Keyed(next) && AllCanonical(next) && Grants(next) == Grants(rules)[r.id := GrantOf(r)]
    ensures forall id :: id in next ==> next[id] in rules.Values || fresh(next[id])
  {
    var copy := CanonicalRuleCopy(r);
    NormalGrantOf(r);
    RuleForShape(r.id, GrantOf(r));
    GrantOfRuleFor(r.id, GrantOf(r));
    next := rules[r.id := copy];
  }

  /** One change of a delta, on the working copy. */
  method ApplyInPlace(out: PolicyMessage, rules: map<string, RuleMessage>, ch: Change, at: nat, ghost c: Content)
    returns (next: map<string, RuleMessage>, failed: Option<ApplyError>)
    requires Keyed(rules) && AllCanonical(rules) && c == Content(out.mode, Grants(rules))
    modifies out`mode, rules.Values
    ensures failed.Some? ==> ApplyChange(c, ch, at) == Err(failed.value)
    ensures failed.None? ==> ApplyChange(c, ch, at) == Ok(Content(out.mode, Grants(next)))
    ensures failed.None? ==> Keyed(next) && AllCanonical(next)
    ensures forall id :: id in next ==> next[id] in rules.Values || fresh(next[id])
  {
    next, failed := rules, None;
    match ch
    case UpsertRule(r) =>
      next := UpsertCopy(rules, r);
    case RemoveRule(id) =>
      next := rules - {id};
      assert Grants(next) == Grants(rules) - {id};
    case AddPeers(id, peers) =>
      if id !in rules {
        return rules, Some(UnknownRule(at));
      }
      AddedPeers(rules[id].Value(), peers);
      var all := CanonicalCIDRs(rules[id].peers + peers);
      ReplacePeers(rules, id, all);
    case RemovePeers(id, peers) =>
      if id !in rules {
        return rules, Some(UnknownRule(at));
      }
      var drop := NormalDrop(peers);
      RemovedPeers(rules[id].Value(), drop);
      var kept := KeepOutside(rules[id].peers, drop);
      ReplacePeers(rules, id, kept);
    case SetMode(mode) =>
      out.mode := mode;
    case Unset =>
      failed := Some(MalformedChange(at));
  }

  lemma NormalGrantOf(r: ResolvedRule)
    ensures NormalGrant(GrantOf(r))
  {
    forall t | t in GrantOf(r).peers ensures NormalizeCIDR(t) == t {
      var u :| u in r.peers && t == NormalizeCIDR(u);
      NormalizeIdempotent(u);
    }
  }
}
