/** What a dry run reports: the difference of the rendered policies from the
    persisted ones, as rules added, removed and changed and a mode. */
module DryRuns {
  import opened Orders
  import opened Addresses
  import opened Rendered
  import opened Deltas
  import opened RenderedOps
  import opened Compiler
  import opened Versions

  datatype RuleChange = RuleChange(before: ResolvedRule, after: ResolvedRule)

  datatype ModeChange = SameMode | ModeChange(from: Mode, to: Mode)

  datatype WorkloadDiff = WorkloadDiff(
    id: string, version: nat, mode: ModeChange,
    added: seq<ResolvedRule>, removed: seq<ResolvedRule>, changed: seq<RuleChange>)

  // ----- What should be reported -----

  /** The ids, in order, that one policy has and the other does not. */
  ghost function Only(ids: seq<string>, has: map<string, Grant>, lacks: map<string, Grant>): (r: seq<string>)
    ensures forall i :: 0 <= i < |r| ==> r[i] in has && r[i] !in lacks
    ensures forall id :: id in r <==> id in ids && id in has && id !in lacks
  {
    if ids == [] then []
    else
      var n := |ids| - 1;
      assert ids == ids[..n] + [ids[n]];
      Only(ids[..n], has, lacks) + if ids[n] in has && ids[n] !in lacks then [ids[n]] else []
  }

  /** The ids both have and grant differently. */
  ghost function Rewritten(from: map<string, Grant>, to: map<string, Grant>): set<string> {
    set id | id in from && id in to && from[id] != to[id]
  }

  ghost function ChangesFor(ids: seq<string>, from: map<string, Grant>, to: map<string, Grant>): (r: seq<RuleChange>)
    requires forall i :: 0 <= i < |ids| ==> ids[i] in from && ids[i] in to
    ensures |r| == |ids|
    ensures forall i :: 0 <= i < |ids| ==>
        r[i] == RuleChange(RuleFor(ids[i], from[ids[i]]), RuleFor(ids[i], to[ids[i]]))
  {
    seq(|ids|, i requires 0 <= i < |ids| => RuleChange(RuleFor(ids[i], from[ids[i]]), RuleFor(ids[i], to[ids[i]])))
  }

  /** d says exactly how one policy differs from another. */
  ghost predicate Describes(d: WorkloadDiff, id: string, prev: Policy, cur: Policy) {
    var from, to := ContentOf(prev), ContentOf(cur);
    var ids, differ := AllIds(from, to), Rewritten(from.rules, to.rules);
    ListedIds(differ);
    && d.id == id && d.version == prev.version
    && d.mode == (if from.mode == to.mode then SameMode else ModeChange(from.mode, to.mode))
    && d.added == RulesFor(Only(ids, to.rules, from.rules), to.rules)
    && d.removed == RulesFor(Only(ids, from.rules, to.rules), from.rules)
    && d.changed == ChangesFor(IdListing(differ), from.rules, to.rules)
  }

  // ----- Reading it off a difference -----

  ghost function AddedBy(ch: Change, was: set<string>): seq<string> {
    if ch.UpsertRule? && ch.rule.id !in was then [ch.rule.id] else []
  }

  ghost function RemovedBy(ch: Change): seq<string> {
    if ch.RemoveRule? then [ch.id] else []
  }

  ghost function ChangedBy(ch: Change, was: set<string>): set<string> {
    if ch.UpsertRule? then (if ch.rule.id in was then {ch.rule.id} else {})
    else if ch.AddPeers? || ch.RemovePeers? then {ch.id}
    else {}
  }

  /** What the changes read so far amount to. */
  datatype Reading = Reading(added: seq<string>, removed: seq<string>, changed: set<string>, mode: ModeChange)

  ghost function ReadChange(ch: Change, was: set<string>, mode: Mode): Reading {
    Reading(AddedBy(ch, was), RemovedBy(ch), ChangedBy(ch, was),
            if ch.SetMode? then ModeChange(mode, ch.mode) else SameMode)
  }

  ghost function Then(a: Reading, b: Reading): Reading {
    Reading(a.added + b.added, a.removed + b.removed, a.changed + b.changed,
            if b.mode.SameMode? then a.mode else b.mode)
  }

  ghost function Read(changes: seq<Change>, was: set<string>, mode: Mode): Reading {
    if changes == [] then Reading([], [], {}, SameMode)
    else Then(Read(changes[..|changes| - 1], was, mode), ReadChange(changes[|changes| - 1], was, mode))
  }

  lemma ThenAssociative(a: Reading, b: Reading, c: Reading)
    ensures Then(Then(a, b), c) == Then(a, Then(b, c))
  {
    assert a.changed + b.changed + c.changed == a.changed + (b.changed + c.changed);
  }

  lemma {:induction false} ReadConcat(a: seq<Change>, b: seq<Change>, was: set<string>, mode: Mode)
    ensures Read(a + b, was, mode) == Then(Read(a, was, mode), Read(b, was, mode))
  {
    hide ReadChange;
    if b == [] {
      assert a + b == a;
    } else {
      hide Then;
      var n := |b| - 1;
      ReadConcat(a, b[..n], was, mode);
      assert (a + b)[..|a| + n] == a + b[..n];
      ThenAssociative(Read(a, was, mode), Read(b[..n], was, mode), ReadChange(b[n], was, mode));
    }
  }

  lemma ReadOne(ch: Change, was: set<string>, mode: Mode)
    ensures Read([ch], was, mode) == ReadChange(ch, was, mode)
  {
    assert [ch][..0] == [];
  }

  ghost function ReadRule(id: string, from: map<string, Grant>, to: map<string, Grant>): Reading {
    Reading(if id in to && id !in from then [id] else [],
            if id in from && id !in to then [id] else [],
            if id in from && id in to && from[id] != to[id] then {id} else {}, SameMode)
  }

  lemma RuleRead(id: string, from: map<string, Grant>, to: map<string, Grant>, mode: Mode)
    requires id in from || id in to
    ensures Read(RuleDiff(id, from, to), from.Keys, mode) == ReadRule(id, from, to)
  {
    hide Read, RuleFor;
    if id !in from {
      ReadOne(UpsertRule(RuleFor(id, to[id])), from.Keys, mode);
      RuleForId(id, to[id]);
    } else if id !in to {
      ReadOne(RemoveRule(id), from.Keys, mode);
    } else if from[id].protocol != to[id].protocol || from[id].ports != to[id].ports {
      ReadOne(UpsertRule(RuleFor(id, to[id])), from.Keys, mode);
      RuleForId(id, to[id]);
    } else {
      PeersRead(id, from[id].peers, to[id].peers, from.Keys, mode);
    }
  }

  lemma PeersRead(id: string, from: set<Text>, to: set<Text>, was: set<string>, mode: Mode)
    ensures Read(AddPart(id, to - from) + RemovePart(id, from - to), was, mode)
         == Reading([], [], if from != to then {id} else {}, SameMode)
  {
    hide Read;
    var add, remove := AddPart(id, to - from), RemovePart(id, from - to);
    ReadConcat(add, remove, was, mode);
    ReadNone(was, mode);
    SetsDiffer(from, to);
    if add != [] { ReadOne(add[0], was, mode); }
    if remove != [] { ReadOne(remove[0], was, mode); }
  }

  ghost function ReadRules(ids: seq<string>, from: map<string, Grant>, to: map<string, Grant>): Reading {
    Reading(Only(ids, to, from), Only(ids, from, to), (set id | id in ids && id in Rewritten(from, to)), SameMode)
  }

  lemma ReadRulesStep(ids: seq<string>, from: map<string, Grant>, to: map<string, Grant>)
    requires ids != []
    ensures ReadRules(ids, from, to) == Then(ReadRules(ids[..|ids| - 1], from, to), ReadRule(ids[|ids| - 1], from, to))
  {
    hide Only, Rewritten;
    OnlyStep(ids, to, from);
    OnlyStep(ids, from, to);
    AmongStep(ids, Rewritten(from, to));
    RewrittenSays(from, to, ids[|ids| - 1]);
  }

  lemma RewrittenSays(from: map<string, Grant>, to: map<string, Grant>, id: string)
    ensures id in Rewritten(from, to) <==> id in from && id in to && from[id] != to[id]
  {
  }

  lemma AmongStep(ids: seq<string>, s: set<string>)
    requires ids != []
    ensures (set id | id in ids && id in s)
         == (set id | id in ids[..|ids| - 1] && id in s) + if ids[|ids| - 1] in s then {ids[|ids| - 1]} else {}
  {
    var n := |ids| - 1;
    assert forall id :: id in ids <==> id in ids[..n] || id == ids[n] by { assert ids == ids[..n] + [ids[n]]; }
  }

  lemma OnlyStep(ids: seq<string>, has: map<string, Grant>, lacks: map<string, Grant>)
    requires ids != []
    ensures Only(ids, has, lacks)
         == Only(ids[..|ids| - 1], has, lacks) + if ids[|ids| - 1] in has && ids[|ids| - 1] !in lacks
           then [ids[|ids| - 1]] else []
  {
  }

  lemma {:induction false} RulesRead(ids: seq<string>, from: map<string, Grant>, to: map<string, Grant>, mode: Mode)
    requires forall i :: 0 <= i < |ids| ==> ids[i] in from || ids[i] in to
    ensures Read(RulesDiff(ids, from, to), from.Keys, mode) == ReadRules(ids, from, to)
  {
    if ids == [] {
      ReadNone(from.Keys, mode);
    } else {
      hide RuleDiff, Read, ReadRules, ReadRule, Then;
      var n := |ids| - 1;
      RulesRead(ids[..n], from, to, mode);
      RuleRead(ids[n], from, to, mode);
      ReadConcat(RulesDiff(ids[..n], from, to), RuleDiff(ids[n], from, to), from.Keys, mode);
      ReadRulesStep(ids, from, to);
    }
  }

  lemma ReadNone(was: set<string>, mode: Mode)
    ensures Read([], was, mode) == Reading([], [], {}, SameMode)
  {
  }

  /** Reading a difference gives what it is the difference of. */
  lemma DiffRead(prev: Policy, cur: Policy)
    ensures var from, to := ContentOf(prev), ContentOf(cur);
            var ids := AllIds(from, to);
            Read(Diff(prev, cur), from.rules.Keys, from.mode)
            == Reading(Only(ids, to.rules, from.rules), Only(ids, from.rules, to.rules),
              Rewritten(from.rules, to.rules),
                       if from.mode == to.mode then SameMode else ModeChange(from.mode, to.mode))
  {
    hide Read, Only, RulesDiff, AllIds, ContentOf;
    var from, to := ContentOf(prev), ContentOf(cur);
    var ids, was := AllIds(from, to), from.rules.Keys;
    RulesRead(ids, from.rules, to.rules, from.mode);
    var mode := ModeDiff(from.mode, to.mode);
    ReadConcat(mode, RulesDiff(ids, from.rules, to.rules), was, from.mode);
    ReadNone(was, from.mode);
    ReadOne(SetMode(to.mode), was, from.mode);
    assert (set id | id in ids && id in Rewritten(from.rules, to.rules)) == Rewritten(from.rules, to.rules);
  }

  // ----- Classification -----

  /** A rule table: every id of the content, with its canonical rule. */
  ghost predicate Tabulates(m: map<string, ResolvedRule>, rules: map<string, Grant>) {
    m.Keys == rules.Keys && forall id :: id in rules ==> m[id] == RuleFor(id, rules[id])
  }

  method IndexValues(rules: seq<ResolvedRule>) returns (m: map<string, ResolvedRule>)
    requires DistinctIds(rules)
    ensures forall i :: 0 <= i < |rules| ==> rules[i].id in m && m[rules[i].id] == rules[i]
    ensures forall id :: id in m ==> exists i :: 0 <= i < |rules| && rules[i].id == id
  {
    m := map[];
    for k := 0 to |rules|
      invariant forall i :: 0 <= i < k ==> rules[i].id in m && m[rules[i].id] == rules[i]
      invariant forall id :: id in m ==> exists i :: 0 <= i < k && rules[i].id == id
    {
      ghost var was := m;
      m := m[rules[k].id := rules[k]];
      forall id | id in m ensures exists i :: 0 <= i < k + 1 && rules[i].id == id {
        if id != rules[k].id { assert id in was; }
      }
    }
  }

  method TableOf(p: Policy) returns (m: map<string, ResolvedRule>)
    ensures Tabulates(m, ContentOf(p).rules)
  {
    hide Canonical, ContentOf;
    var message := NewMessage(p);
    var copy := CanonicalCopy(message);
    var c := copy.Value();
    CanonicalTabulates(p);
    m := IndexValues(c.rules);
    TableTabulates(m, c, ContentOf(p).rules);
  }

  lemma CanonicalTabulates(p: Policy)
    ensures var c, rules := Canonical(p), ContentOf(p).rules;
            && DistinctIds(c.rules)
            && (forall i :: 0 <= i < |c.rules| ==>
              c.rules[i].id in rules && c.rules[i] == RuleFor(c.rules[i].id, rules[c.rules[i].id]))
            && (forall id :: id in rules ==> exists i :: 0 <= i < |c.rules| && c.rules[i].id == id)
  {
    hide RuleFor, ContentOf;
    var c, rules := Canonical(p), ContentOf(p).rules;
    ExpressIndexed(p.version, ContentOf(p));
    ExpressDistinct(p.version, ContentOf(p));
    ListedIds(rules.Keys);
    var ids := IdListing(rules.Keys);
    forall i | 0 <= i < |ids| ensures c.rules[i].id == ids[i] { RuleForId(ids[i], rules[ids[i]]); }
    forall id | id in rules ensures exists i :: 0 <= i < |c.rules| && c.rules[i].id == id {
      var i :| 0 <= i < |ids| && ids[i] == id;
      assert c.rules[i].id == id;
    }
  }

  lemma RuleForId(id: string, g: Grant)
    ensures RuleFor(id, g).id == id
  {
  }

  lemma TableTabulates(m: map<string, ResolvedRule>, c: Policy, rules: map<string, Grant>)
    requires forall i :: 0 <= i < |c.rules| ==> c.rules[i].id in m && m[c.rules[i].id] == c.rules[i]
    requires forall id :: id in m ==> exists i :: 0 <= i < |c.rules| && c.rules[i].id == id
    requires forall i :: 0 <= i < |c.rules| ==>
        c.rules[i].id in rules && c.rules[i] == RuleFor(c.rules[i].id, rules[c.rules[i].id])
    requires forall id :: id in rules ==> exists i :: 0 <= i < |c.rules| && c.rules[i].id == id
    ensures Tabulates(m, rules)
  {
    hide RuleFor;
    forall id | id in rules ensures id in m && m[id] == RuleFor(id, rules[id]) {
      var i :| 0 <= i < |c.rules| && c.rules[i].id == id;
    }
    forall id | id in m ensures id in rules {
      var i :| 0 <= i < |c.rules| && c.rules[i].id == id;
    }
  }

  /** The rules at some ids, looked up in a table. */
  ghost predicate Looks(rs: seq<ResolvedRule>, ids: seq<string>, table: map<string, ResolvedRule>) {
    |rs| == |ids| && forall i :: 0 <= i < |ids| ==> ids[i] in table && rs[i] == table[ids[i]]
  }

  /** Ids a difference mentions are where the classification looks for them. */
  ghost predicate Known(ch: Change, before: set<string>, after: set<string>) {
    && (ch.UpsertRule? ==> ch.rule.id in after)
    && (ch.RemoveRule? ==> ch.id in before)
  }

  lemma LooksNone(before: map<string, ResolvedRule>, after: map<string, ResolvedRule>)
    ensures Looks([], [], before) && Looks([], [], after)
  {
  }

  lemma LooksMore(rs: seq<ResolvedRule>, ids: seq<string>, table: map<string, ResolvedRule>, id: string)
    requires Looks(rs, ids, table) && id in table
    ensures Looks(rs + [table[id]], ids + [id], table)
  {
  }

  lemma ReadMore(changes: seq<Change>, ch: Change, was: set<string>, mode: Mode)
    ensures Read(changes + [ch], was, mode) == Then(Read(changes, was, mode), ReadChange(ch, was, mode))
  {
    assert (changes + [ch])[..|changes|] == changes;
  }

  method Classify(changes: seq<Change>, mode: Mode, before: map<string, ResolvedRule>, after: map<string, ResolvedRule>)
    returns (added: seq<ResolvedRule>, removed: seq<ResolvedRule>, changed: set<string>, modeChange: ModeChange)
    requires forall i :: 0 <= i < |changes| ==> Known(changes[i], before.Keys, after.Keys)
    ensures var r := Read(changes, before.Keys, mode);
            Looks(added, r.added, after) && Looks(removed, r.removed, before) && changed == r.changed
              && modeChange == r.mode
  {
    hide Read, Looks;
    added, removed, changed, modeChange := [], [], {}, SameMode;
    ReadNone(before.Keys, mode);
    LooksNone(before, after);
    for i := 0 to |changes|
      invariant var r := Read(changes[..i], before.Keys, mode);
                Looks(added, r.added, after) && Looks(removed, r.removed, before) && changed == r.changed
                  && modeChange == r.mode
    {
      ghost var r := Read(changes[..i], before.Keys, mode);
      assert changes[..i + 1] == changes[..i] + [changes[i]];
      ReadMore(changes[..i], changes[i], before.Keys, mode);
      assert Known(changes[i], before.Keys, after.Keys);
      assert r.added + [] == r.added && r.removed + [] == r.removed && r.changed + {} == r.changed;
      match changes[i]
      case UpsertRule(rule) =>
        if rule.id in before {
          changed := changed + {rule.id};
        } else {
          LooksMore(added, r.added, after, rule.id);
          added := added + [after[rule.id]];
        }
      case RemoveRule(id) =>
        LooksMore(removed, r.removed, before, id);
        removed := removed + [before[id]];
      case AddPeers(id, _) => changed := changed + {id};
      case RemovePeers(id, _) => changed := changed + {id};
      case SetMode(to) => modeChange := ModeChange(mode, to);
      case Unset =>
    }
    assert changes[..|changes|] == changes;
  }

  lemma RuleKnown(id: string, from: map<string, Grant>, to: map<string, Grant>)
    requires id in from || id in to
    ensures forall ch :: ch in RuleDiff(id, from, to) ==> Known(ch, from.Keys, to.Keys)
  {
  }

  lemma {:induction false} RulesKnown(ids: seq<string>, from: map<string, Grant>, to: map<string, Grant>)
    requires forall i :: 0 <= i < |ids| ==> ids[i] in from || ids[i] in to
    ensures forall ch :: ch in RulesDiff(ids, from, to) ==> Known(ch, from.Keys, to.Keys)
  {
    hide Known, RuleDiff;
    if ids != [] {
      RulesKnown(ids[..|ids| - 1], from, to);
      RuleKnown(ids[|ids| - 1], from, to);
    }
  }

  lemma DiffKnown(prev: Policy, cur: Policy)
    ensures forall i :: 0 <= i < |Diff(prev, cur)| ==>
        Known(Diff(prev, cur)[i], ContentOf(prev).rules.Keys, ContentOf(cur).rules.Keys)
  {
    hide RulesDiff, ContentOf, AllIds;
    var from, to := ContentOf(prev), ContentOf(cur);
    RulesKnown(AllIds(from, to), from.rules, to.rules);
    forall ch | ch in Diff(prev, cur) ensures Known(ch, from.rules.Keys, to.rules.Keys) {
      if ch in RulesDiff(AllIds(from, to), from.rules, to.rules) {} else { assert ch == SetMode(to.mode); }
    }
  }

  lemma LooksTabulated(rs: seq<ResolvedRule>, ids: seq<string>, table: map<string, ResolvedRule>,
      rules: map<string, Grant>)
    requires Looks(rs, ids, table) && Tabulates(table, rules)
    ensures (forall i :: 0 <= i < |ids| ==> ids[i] in rules) && rs == RulesFor(ids, rules)
  {
    hide RuleFor;
    assert forall i :: 0 <= i < |ids| ==> ids[i] in table.Keys;
  }

  /** What a dry run says of one workload: nothing when the difference is
      empty, else exactly how its policy would differ. */
  method DiffOne(id: string, prev: Policy, cur: Policy) returns (differs: bool, d: WorkloadDiff)
    ensures differs <==> Diff(prev, cur) != []
    ensures differs ==> Describes(d, id, prev, cur)
  {
    hide Diff, ContentOf, Canonical, Tabulates, Read, Only, Known, Looks, Describes;
    var changes, _ := DiffValues(prev, cur);
    d := WorkloadDiff(id, prev.version, SameMode, [], [], []);
    if |changes| == 0 {
      return false, d;
    }
    var before := TableOf(prev);
    var after := TableOf(cur);
    DiffKnown(prev, cur);
    TableKeys(before, ContentOf(prev).rules);
    TableKeys(after, ContentOf(cur).rules);
    ContentMode(prev);
    var added, removed, changed, mode := Classify(changes, prev.mode, before, after);
    DiffRead(prev, cur);
    assert changed == Rewritten(ContentOf(prev).rules, ContentOf(cur).rules);
    var ids := SortedKeys(changed);
    var rewrites := ListChanges(ids, before, after, ContentOf(prev).rules, ContentOf(cur).rules);
    d := WorkloadDiff(id, prev.version, mode, added, removed, rewrites);
    Described(d, id, prev, cur, before, after);
    differs := true;
  }

  lemma ContentMode(p: Policy)
    ensures ContentOf(p).mode == p.mode
  {
  }

  lemma TableKeys(m: map<string, ResolvedRule>, rules: map<string, Grant>)
    requires Tabulates(m, rules)
    ensures m.Keys == rules.Keys
  {
  }

  method ListChanges(ids: seq<string>, before: map<string, ResolvedRule>, after: map<string, ResolvedRule>,
                     ghost from: map<string, Grant>, ghost to: map<string, Grant>) returns (out: seq<RuleChange>)
    requires Tabulates(before, from) && Tabulates(after, to) && ids == IdListing(Rewritten(from, to))
    ensures (forall i :: 0 <= i < |ids| ==> ids[i] in from && ids[i] in to) && out == ChangesFor(ids, from, to)
  {
    hide RuleFor, IdListing;
    ListedIds(Rewritten(from, to));
    assert forall i :: 0 <= i < |ids| ==> ids[i] in from && ids[i] in to;
    assert before.Keys == from.Keys && after.Keys == to.Keys;
    out := [];
    for i := 0 to |ids|
      invariant |out| == i
      invariant forall j :: 0 <= j < i ==> out[j] == ChangesFor(ids, from, to)[j]
    {
      assert ids[i] in from && ids[i] in to;
      out := out + [RuleChange(before[ids[i]], after[ids[i]])];
    }
  }

  lemma Described(d: WorkloadDiff, id: string, prev: Policy, cur: Policy, before: map<string, ResolvedRule>,
      after: map<string, ResolvedRule>)
    requires d.id == id && d.version == prev.version
    requires Tabulates(before, ContentOf(prev).rules) && Tabulates(after, ContentOf(cur).rules)
    requires var from, to := ContentOf(prev), ContentOf(cur);
             var r := Read(Diff(prev, cur), from.rules.Keys, from.mode);
             var ids := IdListing(Rewritten(from.rules, to.rules));
             && Looks(d.added, r.added, after) && Looks(d.removed, r.removed, before) && d.mode == r.mode
             && (forall i :: 0 <= i < |ids| ==> ids[i] in from.rules && ids[i] in to.rules)
               && d.changed == ChangesFor(ids, from.rules, to.rules)
    ensures Describes(d, id, prev, cur)
  {
    hide Diff, ContentOf, Tabulates, Read, Only, Looks, IdListing, AllIds;
    var from, to := ContentOf(prev), ContentOf(cur);
    DiffRead(prev, cur);
    var r := Read(Diff(prev, cur), from.rules.Keys, from.mode);
    LooksTabulated(d.added, r.added, after, to.rules);
    LooksTabulated(d.removed, r.removed, before, from.rules);
  }

  // ----- The report -----

  method DiffAll(previous: map<string, Policy>, current: map<string, Policy>) returns (diffs: map<string, WorkloadDiff>)
    ensures forall id :: id in diffs <==> id in current && Diff(Previous(previous, id), current[id]) != []
    ensures forall id :: id in diffs ==> Describes(diffs[id], id, Previous(previous, id), current[id])
  {
    hide Describes, Diff, Previous;
    var ranged := RangeOver(current.Keys);
    assert forall i :: 0 <= i < |ranged| ==> ranged[i] in Elems(ranged);
    diffs := map[];
    for i := 0 to |ranged|
      invariant forall id ::
          id in diffs <==> id in ranged[..i] && id in current && Diff(Previous(previous, id), current[id]) != []
      invariant forall id :: id in diffs ==> Describes(diffs[id], id, Previous(previous, id), current[id])
    {
      var id := ranged[i];
      var prev := PreviousOf(previous, id);
      var differs, d := DiffOne(id, prev, current[id]);
      assert forall x :: x in ranged[..i + 1] <==> x in ranged[..i] || x == id by {
        assert ranged[..i + 1] == ranged[..i] + [id];
      }
      if differs {
        diffs := diffs[id := d];
      }
    }
    assert ranged[..|ranged|] == ranged;
    assert forall id :: id in current ==> id in Elems(ranged);
  }

  method PreviousOf(previous: map<string, Policy>, id: string) returns (p: Policy)
    ensures p == Previous(previous, id)
  {
    p := if id in previous then previous[id] else Empty();
  }

  /** The workloads a dry run must report: those whose policies differ. */
  ghost function Differ(previous: map<string, Policy>, current: map<string, Policy>): set<string> {
    set id | id in current && !Equal(Previous(previous, id), current[id])
  }

  /** A dry run reports, in order of id, exactly the workloads whose rendered
      policy is not equal to the persisted one, and how each would differ. */
  method DryRun(previous: map<string, Policy>, current: map<string, Policy>) returns (out: seq<WorkloadDiff>)
    ensures |out| == |IdListing(Differ(previous, current))|
    ensures forall i :: 0 <= i < |out| ==>
              var id := IdListing(Differ(previous, current))[i];
              id in current && Describes(out[i], id, Previous(previous, id), current[id])
  {
    hide Describes, Diff, Previous, IdListing, Equal;
    var diffs := DiffAll(previous, current);
    forall id ensures id in diffs.Keys <==> id in Differ(previous, current) {
      if id in current { DiffEmptyIffEqual(Previous(previous, id), current[id]); }
    }
    assert diffs.Keys == Differ(previous, current);
    var ids := SortedKeys(diffs.Keys);
    ListedIds(diffs.Keys);
    out := [];
    for i := 0 to |ids|
      invariant |out| == i && forall k :: 0 <= k < i ==> out[k] == diffs[ids[k]]
    {
      out := out + [diffs[ids[i]]];
    }
  }

  // ----- The parts patch the old policy into the new one -----

  ghost function Afters(changed: seq<RuleChange>): (r: seq<ResolvedRule>)
    ensures |r| == |changed| && forall i :: 0 <= i < |r| ==> r[i] == changed[i].after
  {
    seq(|changed|, i requires 0 <= i < |changed| => changed[i].after)
  }

  ghost function Patched(c: Content, d: WorkloadDiff): Content {
    Content(if d.mode.SameMode? then c.mode else d.mode.to,
            (c.rules - (set r | r in d.removed :: r.id)) + Index(Afters(d.changed)) + Index(d.added))
  }

  /** Canonical rules at some ids say what is granted at those ids. */
  lemma {:induction false} IndexRulesFor(ids: seq<string>, rules: map<string, Grant>, rs: seq<ResolvedRule>)
    requires NormalRules(rules)
    requires |rs| == |ids| && forall i :: 0 <= i < |ids| ==> ids[i] in rules && rs[i] == RuleFor(ids[i], rules[ids[i]])
    ensures Index(rs).Keys == Elems(ids)
    ensures forall id :: id in Index(rs) ==> id in rules && Index(rs)[id] == rules[id]
  {
    hide RuleFor, GrantOf;
    if ids != [] {
      var n := |ids| - 1;
      IndexRulesFor(ids[..n], rules, rs[..n]);
      GrantOfRuleFor(ids[n], rules[ids[n]]);
      RuleForId(ids[n], rules[ids[n]]);
      assert ids == ids[..n] + [ids[n]];
      ElemsAppend(ids[..n], ids[n]);
    }
  }

  lemma RemovedIds(ids: seq<string>, rules: map<string, Grant>)
    requires forall i :: 0 <= i < |ids| ==> ids[i] in rules
    ensures (set r | r in RulesFor(ids, rules) :: r.id) == Elems(ids)
  {
    hide RuleFor;
    var rs := RulesFor(ids, rules);
    forall id ensures id in (set r | r in rs :: r.id) <==> id in Elems(ids) {
      if id in Elems(ids) {
        var i :| 0 <= i < |ids| && ids[i] == id;
        assert rs[i] in rs && rs[i].id == id;
      }
    }
  }

  /** What a dry run reports patches what the workload holds into what it
      would hold: nothing is missing from the report and nothing is extra. */
  lemma ReportPatches(d: WorkloadDiff, id: string, prev: Policy, cur: Policy)
    requires Describes(d, id, prev, cur)
    ensures Patched(ContentOf(prev), d) == ContentOf(cur)
  {
    hide RuleFor, IdListing, AllIds, Index, NormalRules;
    var from, to := ContentOf(prev), ContentOf(cur);
    var ids, differ := AllIds(from, to), IdListing(Rewritten(from.rules, to.rules));
    ListedIds(Rewritten(from.rules, to.rules));
    IndexNormal(cur.rules);
    RemovedIds(Only(ids, from.rules, to.rules), from.rules);
    IndexRulesFor(Only(ids, to.rules, from.rules), to.rules, d.added);
    IndexRulesFor(differ, to.rules, Afters(d.changed));
    PatchedRules(from.rules, to.rules, Only(ids, from.rules, to.rules), Index(Afters(d.changed)), Index(d.added),
      differ, ids);
  }

  lemma PatchedRules(from: map<string, Grant>, to: map<string, Grant>, removed: seq<string>,
                     changed: map<string, Grant>, added: map<string, Grant>, differ: seq<string>, ids: seq<string>)
    requires forall id :: id in from || id in to ==> id in ids
    requires forall id :: id in removed <==> id in ids && id in from && id !in to
    requires changed.Keys == Elems(differ) && forall id :: id in changed ==> id in to && changed[id] == to[id]
    requires added.Keys == Elems(Only(ids, to, from)) && forall id :: id in added ==> id in to && added[id] == to[id]
    requires (forall i :: 0 <= i < |differ| ==> differ[i] in Rewritten(from, to))
    requires forall id :: id in Rewritten(from, to) ==> id in differ
    ensures (from - Elems(removed)) + changed + added == to
  {
    hide Only;
    var r := (from - Elems(removed)) + changed + added;
    assert forall id :: id in changed <==> id in differ;
    assert forall id :: id in added <==> id in ids && id in to && id !in from;
    forall id ensures AgreeAt(r, to, id) {
      if id in to && id in from && from[id] == to[id] {
        assert id !in Rewritten(from, to);
      }
    }
    AgreeEverywhere(r, to);
  }

  // ----- And back -----

  ghost function Befores(changed: seq<RuleChange>): (r: seq<ResolvedRule>)
    ensures |r| == |changed| && forall i :: 0 <= i < |r| ==> r[i] == changed[i].before
  {
    seq(|changed|, i requires 0 <= i < |changed| => changed[i].before)
  }

  ghost function Reverted(c: Content, d: WorkloadDiff): Content {
    Content(if d.mode.SameMode? then c.mode else d.mode.from,
            (c.rules - (set r | r in d.added :: r.id)) + Index(Befores(d.changed)) + Index(d.removed))
  }

  /** Read the other way, the report takes what the workload would hold back to
      what it holds: what it says was there was there. */
  lemma ReportReverts(d: WorkloadDiff, id: string, prev: Policy, cur: Policy)
    requires Describes(d, id, prev, cur)
    ensures Reverted(ContentOf(cur), d) == ContentOf(prev)
    ensures d.id == id && d.version == prev.version && (d.mode.ModeChange? ==> d.mode.from == prev.mode != cur.mode)
  {
    hide RuleFor, IdListing, AllIds, Index, NormalRules;
    var from, to := ContentOf(prev), ContentOf(cur);
    var ids, differ := AllIds(from, to), IdListing(Rewritten(from.rules, to.rules));
    ListedIds(Rewritten(from.rules, to.rules));
    RewrittenBothWays(from.rules, to.rules);
    IndexNormal(prev.rules);
    RemovedIds(Only(ids, to.rules, from.rules), to.rules);
    IndexRulesFor(Only(ids, from.rules, to.rules), from.rules, d.removed);
    IndexRulesFor(differ, from.rules, Befores(d.changed));
    PatchedRules(to.rules, from.rules, Only(ids, to.rules, from.rules), Index(Befores(d.changed)), Index(d.removed),
                 differ, ids);
  }

  lemma RewrittenBothWays(from: map<string, Grant>, to: map<string, Grant>)
    ensures Rewritten(from, to) == Rewritten(to, from)
  {
  }
}
