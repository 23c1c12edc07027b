/** How short a delta can be, and when the difference is as short as any. */
module ShortestDeltas {
  import opened Orders
  import opened Addresses
  import opened Rendered
  import opened Deltas

  /** The ids at which two sets of rules differ. */
  ghost function Differing(a: map<string, Grant>, b: map<string, Grant>): set<string> {
    set id | id in a.Keys + b.Keys && !AgreeAt(a, b, id)
  }

  /** One for the mode, if it differs, and one for each rule that does. */
  ghost function Distance(c: Content, d: Content): nat {
    (if c.mode == d.mode then 0 else 1) + |Differing(c.rules, d.rules)|
  }

  // ----- No change does more than one thing -----

  lemma {:induction false} UnionSize<T>(a: set<T>, b: set<T>)
    ensures |a + b| <= |a| + |b|
  {
    if a == {} {
      assert a + b == b;
    } else {
      var x :| x in a;
      UnionSize(a - {x}, b);
      SubsetSize(a + b, (a - {x}) + b + {x});
    }
  }

  lemma Triangle(a: Content, b: Content, c: Content)
    ensures Distance(a, c) <= Distance(a, b) + Distance(b, c)
  {
    var x, y := Differing(a.rules, b.rules), Differing(b.rules, c.rules);
    assert Differing(a.rules, c.rules) <= x + y;
    hide Differing;
    SubsetSize(Differing(a.rules, c.rules), x + y);
    UnionSize(x, y);
  }

  lemma OneThing(c: Content, d: Content, ids: set<string>)
    requires Differing(c.rules, d.rules) <= ids && |ids| + (if c.mode == d.mode then 0 else 1) <= 1
    ensures Distance(c, d) <= 1
  {
    SubsetSize(Differing(c.rules, d.rules), ids);
  }

  lemma ChangeDistance(c: Content, ch: Change, at: nat)
    requires ApplyChange(c, ch, at).Ok?
    ensures Distance(c, ApplyChange(c, ch, at).value) <= 1
  {
    hide NormalSet, GrantOf;
    var d := ApplyChange(c, ch, at).value;
    match ch
    case UpsertRule(r) => OneThing(c, d, {r.id});
    case RemoveRule(id) => OneThing(c, d, {id});
    case AddPeers(id, _) => OneThing(c, d, {id});
    case RemovePeers(id, _) => OneThing(c, d, {id});
    case SetMode(_) => OneThing(c, d, {});
  }

  lemma {:induction false} ChangesDistance(c: Content, changes: seq<Change>)
    requires ApplyChanges(c, changes).Ok?
    ensures Distance(c, ApplyChanges(c, changes).value) <= |changes|
  {
    hide ApplyChange, Distance;
    if changes == [] {
      SameDistance(c);
    } else {
      var n := |changes| - 1;
      var e, d := ApplyChanges(c, changes[..n]).value, ApplyChanges(c, changes).value;
      ChangesDistance(c, changes[..n]);
      ChangeDistance(e, changes[n], n);
      Triangle(c, e, d);
    }
  }

  lemma SameDistance(c: Content)
    ensures Distance(c, c) == 0
  {
    assert Differing(c.rules, c.rules) == {};
  }

  /** The changes take one policy to another. */
  ghost predicate Takes(p: Policy, q: Policy, changes: seq<Change>) {
    Apply(p, Delta(p.version, q.version, changes)) == Ok(Canonical(q))
  }

  lemma TakesContent(p: Policy, q: Policy, changes: seq<Change>)
    ensures Takes(p, q, changes) <==> ApplyChanges(ContentOf(p), changes) == Ok(ContentOf(q))
  {
    hide ApplyChanges, ContentOf;
    var from := ContentOf(p);
    ContentNormal(p);
    if ApplyChanges(from, changes).Ok? {
      var x := ApplyChanges(from, changes).value;
      ApplyKeepsNormal(from, changes);
      ExpressSays(q.version, x);
      CanonicalSays(q);
    }
  }

  lemma ContentNormal(p: Policy)
    ensures NormalRules(ContentOf(p).rules)
  {
    IndexNormal(p.rules);
  }

  /** No sequence of changes that takes p to q is shorter than one change for
      the mode, if it differs, and one for each rule that does. */
  lemma NoneShorter(p: Policy, q: Policy, changes: seq<Change>)
    requires Takes(p, q, changes)
    ensures |changes| >= Distance(ContentOf(p), ContentOf(q))
  {
    hide Takes, Distance, ContentOf;
    TakesContent(p, q, changes);
    ChangesDistance(ContentOf(p), changes);
  }

  // ----- That many are enough -----

  /** The one change that brings a rule to its target, if it is not there. */
  ghost function Whole(id: string, from: map<string, Grant>, to: map<string, Grant>): seq<Change> {
    if AgreeAt(from, to, id) then []
    else if id in to then [UpsertRule(RuleFor(id, to[id]))]
    else [RemoveRule(id)]
  }

  ghost function Wholes(ids: seq<string>, from: map<string, Grant>, to: map<string, Grant>): seq<Change> {
    if ids == [] then [] else Wholes(ids[..|ids| - 1], from, to) + Whole(ids[|ids| - 1], from, to)
  }

  /** A shortest sequence: rules replaced whole. */
  ghost function WholeDiff(from: Content, to: Content): seq<Change> {
    ModeDiff(from.mode, to.mode) + Wholes(AllIds(from, to), from.rules, to.rules)
  }

  lemma WholeApplies(c: Content, id: string, from: map<string, Grant>, to: map<string, Grant>)
    requires NormalRules(to) && AgreeAt(c.rules, from, id)
    ensures ApplyChanges(c, Whole(id, from, to)) == Ok(c.(rules := SetAs(c.rules, id, to)))
  {
    if AgreeAt(from, to, id) {
      assert SetAs(c.rules, id, to) == c.rules;
    } else {
      ApplyOne(c, Whole(id, from, to)[0]);
      if id in to { GrantOfRuleFor(id, to[id]); }
    }
  }

  lemma {:induction false} WholesApply(c: Content, ids: seq<string>, from: map<string, Grant>, to: map<string, Grant>)
    requires forall i, j :: 0 <= i < j < |ids| ==> ids[i] != ids[j]
    requires NormalRules(to) && c.rules == from
    ensures ApplyChanges(c, Wholes(ids, from, to)) == Ok(c.(rules := Moved(from, ids, to)))
  {
    if ids != [] {
      hide Whole, NormalRules, SetAs;
      var front, id := ids[..|ids| - 1], ids[|ids| - 1];
      WholesApply(c, front, from, to);
      var d := c.(rules := Moved(from, front, to));
      MovedAt(from, front, to, id);
      assert id !in front;
      WholeApplies(d, id, from, to);
      ApplyConcat(c, d, Wholes(front, from, to), Whole(id, from, to));
    }
  }

  lemma WholeDiffApplies(from: Content, to: Content)
    requires NormalRules(to.rules)
    ensures ApplyChanges(from, WholeDiff(from, to)) == Ok(to)
  {
    hide Wholes, ApplyChanges, NormalRules;
    var ids := AllIds(from, to);
    var mid := from.(mode := to.mode);
    ModeDiffApplies(from, to.mode);
    WholesApply(mid, ids, from.rules, to.rules);
    MovedAll(from, to);
    ApplyConcat(from, mid, ModeDiff(from.mode, to.mode), Wholes(ids, from.rules, to.rules));
  }

  // ----- Lengths -----

  /** A rule both have that changes in nothing but its peers, and both gains
      and loses some. */
  ghost predicate Swaps(from: map<string, Grant>, to: map<string, Grant>, id: string) {
    && id in from && id in to
    && from[id].protocol == to[id].protocol && from[id].ports == to[id].ports
    && to[id].peers - from[id].peers != {} && from[id].peers - to[id].peers != {}
  }

  ghost function Swapping(from: map<string, Grant>, to: map<string, Grant>): set<string> {
    set id | id in from.Keys && Swaps(from, to, id)
  }

  /** How many of some ids are in a set. */
  ghost function Among(ids: seq<string>, s: set<string>): nat {
    if ids == [] then 0 else Among(ids[..|ids| - 1], s) + if ids[|ids| - 1] in s then 1 else 0
  }

  lemma {:induction false} AmongAll(ids: seq<string>, s: set<string>)
    requires forall i, j :: 0 <= i < j < |ids| ==> ids[i] != ids[j]
    requires forall id :: id in s ==> id in ids
    ensures Among(ids, s) == |s|
  {
    if ids == [] {
      assert s == {};
    } else {
      var n := |ids| - 1;
      assert ids == ids[..n] + [ids[n]];
      AmongAll(ids[..n], s - {ids[n]});
      AmongWithout(ids[..n], s, ids[n]);
      assert ids[n] in s ==> s == (s - {ids[n]}) + {ids[n]};
      assert ids[n] !in s ==> s == s - {ids[n]};
    }
  }

  lemma {:induction false} AmongWithout(ids: seq<string>, s: set<string>, x: string)
    requires forall i :: 0 <= i < |ids| ==> ids[i] != x
    ensures Among(ids, s - {x}) == Among(ids, s)
  {
    if ids != [] { AmongWithout(ids[..|ids| - 1], s, x); }
  }

  lemma RuleLength(id: string, from: map<string, Grant>, to: map<string, Grant>)
    requires id in from || id in to
    ensures |RuleDiff(id, from, to)|
        == (if id in Differing(from, to) then 1 else 0) + (if id in Swapping(from, to) then 1 else 0)
    ensures |Whole(id, from, to)| == if id in Differing(from, to) then 1 else 0
  {
    hide RuleFor;
    if id in from && id in to {
      SetsDiffer(from[id].peers, to[id].peers);
    }
  }

  lemma {:induction false} RulesLength(ids: seq<string>, from: map<string, Grant>, to: map<string, Grant>)
    requires forall i :: 0 <= i < |ids| ==> ids[i] in from || ids[i] in to
    ensures |RulesDiff(ids, from, to)| == Among(ids, Differing(from, to)) + Among(ids, Swapping(from, to))
    ensures |Wholes(ids, from, to)| == Among(ids, Differing(from, to))
  {
    if ids != [] {
      hide RuleDiff, Whole, Differing, Swapping;
      RulesLength(ids[..|ids| - 1], from, to);
      RuleLength(ids[|ids| - 1], from, to);
    }
  }

  /** The difference has one change for the mode, if it differs, one for each
      rule that does, and one more for each that swaps peers. */
  lemma DiffLength(p: Policy, q: Policy)
    ensures var from, to := ContentOf(p), ContentOf(q);
            && |Diff(p, q)| == Distance(from, to) + |Swapping(from.rules, to.rules)|
            && |WholeDiff(from, to)| == Distance(from, to)
  {
    hide ContentOf, RulesDiff, Wholes;
    var from, to := ContentOf(p), ContentOf(q);
    var ids := AllIds(from, to);
    RulesLength(ids, from.rules, to.rules);
    AmongAll(ids, Differing(from.rules, to.rules));
    AmongAll(ids, Swapping(from.rules, to.rules));
  }

  /** No sequence of changes that takes p to q is shorter than the difference
      exactly when no rule that both have, with the same protocol and ports,
      both gains and loses peers. */
  lemma DiffShortestIff(p: Policy, q: Policy)
    ensures Takes(p, q, Diff(p, q))
    ensures (forall changes :: Takes(p, q, changes) ==> |Diff(p, q)| <= |changes|)
       <==> (forall id :: !Swaps(ContentOf(p).rules, ContentOf(q).rules, id))
  {
    hide ContentOf, Takes, Distance, Diff;
    var from, to := ContentOf(p), ContentOf(q);
    var swapping := Swapping(from.rules, to.rules);
    DiffTakes(p, q);
    DiffLength(p, q);
    if forall id :: !Swaps(from.rules, to.rules, id) {
      assert swapping == {};
      forall changes | Takes(p, q, changes) ensures |Diff(p, q)| <= |changes| { NoneShorter(p, q, changes); }
    } else {
      var id :| Swaps(from.rules, to.rules, id);
      assert id in swapping;
      hide Swapping;
      ContentNormal(q);
      WholeDiffApplies(from, to);
      TakesContent(p, q, WholeDiff(from, to));
      assert |WholeDiff(from, to)| < |Diff(p, q)|;
    }
  }

  lemma DiffTakes(p: Policy, q: Policy)
    ensures Takes(p, q, Diff(p, q))
  {
    DeltaRoundTrip(p, p, q);
  }

  // ----- A swap -----

  function OnePeer(a: Prefix): Policy {
    Policy(1, Visibility, [ResolvedRule("r/tcp", Tcp, [PrefixText(a)], [])])
  }

  /** One peer for another: the difference adds the one and removes the other,
      where replacing the rule would do. */
  lemma PeerSwapTakesTwo(a: Prefix, b: Prefix)
    requires Masked(a) == a && Masked(b) == b && a != b
    ensures |Diff(OnePeer(a), OnePeer(b))| == 2
    ensures Takes(OnePeer(a), OnePeer(b), [UpsertRule(OnePeer(b).rules[0])])
  {
    hide ContentOf, Takes, Diff, Swapping, Differing, Masked, GrantOf, ApplyChanges;
    var p, q := OnePeer(a), OnePeer(b);
    OnePeerContent(a);
    OnePeerContent(b);
    var from, to := ContentOf(p), ContentOf(q);
    OneSwapped("r/tcp", from.rules["r/tcp"], to.rules["r/tcp"], PrefixText(a), PrefixText(b));
    DiffLength(p, q);
    ApplyOne(from, UpsertRule(q.rules[0]));
    assert from.rules["r/tcp" := GrantOf(q.rules[0])] == to.rules;
    TakesContent(p, q, [UpsertRule(q.rules[0])]);
  }

  lemma OneSwapped(id: string, g: Grant, h: Grant, s: Text, t: Text)
    requires g.protocol == h.protocol && g.ports == h.ports && s != t && g.peers == {s} && h.peers == {t}
    ensures Swapping(map[id := g], map[id := h]) == {id} == Differing(map[id := g], map[id := h])
  {
    assert s in g.peers - h.peers && t in h.peers - g.peers;
    assert Swaps(map[id := g], map[id := h], id);
  }

  lemma OnePeerContent(a: Prefix)
    requires Masked(a) == a
    ensures ContentOf(OnePeer(a)) == Content(Visibility, map["r/tcp" := Grant(Tcp, {PrefixText(a)}, {})])
    ensures GrantOf(OnePeer(a).rules[0]) == Grant(Tcp, {PrefixText(a)}, {})
  {
    var r := OnePeer(a).rules[0];
    assert OnePeer(a).rules[..0] == [];
    assert NormalSet(r.peers) == {PrefixText(a)} by {
      assert PrefixText(a) in r.peers;
      assert NormalizeCIDR(PrefixText(a)) == PrefixText(a);
    }
    assert GrantOf(r) == Grant(Tcp, {PrefixText(a)}, {});
    assert Index(OnePeer(a).rules) == Index([])[r.id := GrantOf(r)] == map["r/tcp" := GrantOf(r)];
  }
}
