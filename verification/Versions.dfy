/** Versioning: each render diffs against what is persisted and advances a
    workload's version exactly when its content changed. */
module Versions {
  import opened Orders
  import opened Rendered
  import opened Deltas
  import opened RenderedOps
  import opened Authored
  import opened Compiler

  datatype Outcome = Outcome(id: string, policy: Policy, changes: seq<Change>, changed: bool)

  ghost function Previous(previous: map<string, Policy>, id: string): Policy {
    if id in previous then previous[id] else Empty()
  }

  ghost predicate Changes(previous: map<string, Policy>, id: string, cur: Policy) {
    id !in previous || Diff(previous[id], cur) != []
  }

  /** The verdict on one workload: its canonical policy at the version it is
      to be persisted at. */
  ghost function PlanOne(previous: map<string, Policy>, id: string, cur: Policy): Outcome {
    var prev := Previous(previous, id);
    var changed := Changes(previous, id, cur);
    Outcome(id, Canonical(cur).(version := prev.version + (if changed then 1 else 0)), Diff(prev, cur), changed)
  }

  lemma PlanVerdict(previous: map<string, Policy>, id: string, cur: Policy)
    ensures PlanOne(previous, id, cur).id == id && PlanOne(previous, id, cur).changed == Changes(previous, id, cur)
  {
  }

  method PlanWorkload(previous: map<string, Policy>, id: string, cur: Policy) returns (o: Outcome)
    ensures o == PlanOne(previous, id, cur)
  {
    hide Diff, Canonical;
    var ok := id in previous;
    var prev := if ok then previous[id] else Empty();
    var changes, next := DiffValues(prev, cur);
    next := next.(version := prev.version);
    var changed := |changes| > 0 || !ok;
    if changed {
      next := next.(version := prev.version + 1);
    }
    o := Outcome(id, next, changes, changed);
  }

  method DiffValues(prev: Policy, cur: Policy) returns (changes: seq<Change>, next: Policy)
    ensures changes == Diff(prev, cur) && next == Canonical(cur)
  {
    hide Diff, Canonical;
    var from := NewMessage(prev);
    var to := NewMessage(cur);
    changes := DiffMessages(from, to);
    var copy := CanonicalCopy(to);
    next := copy.Value();
  }

  method PlanAll(previous: map<string, Policy>, current: map<string, Policy>) returns (planned: map<string, Outcome>)
    ensures planned.Keys == current.Keys
    ensures forall id :: id in planned ==> planned[id] == PlanOne(previous, id, current[id])
  {
    hide PlanOne;
    var ranged := RangeOver(current.Keys);
    assert forall i :: 0 <= i < |ranged| ==> ranged[i] in Elems(ranged);
    planned := map[];
    for i := 0 to |ranged|
      invariant planned.Keys == Elems(ranged[..i]) && planned.Keys <= current.Keys
      invariant forall id :: id in planned ==> planned[id] == PlanOne(previous, id, current[id])
    {
      var o := PlanWorkload(previous, ranged[i], current[ranged[i]]);
      assert ranged[..i + 1] == ranged[..i] + [ranged[i]];
      ElemsAppend(ranged[..i], ranged[i]);
      planned := planned[ranged[i] := o];
    }
    assert ranged[..|ranged|] == ranged;
  }

  /** The verdicts on every rendered workload, in order of id. */
  method Plan(previous: map<string, Policy>, current: map<string, Policy>) returns (out: seq<Outcome>)
    ensures |out| == |IdListing(current.Keys)|
    ensures forall i :: 0 <= i < |out| ==>
              var id := IdListing(current.Keys)[i];
              id in current && out[i] == PlanOne(previous, id, current[id])
  {
    hide PlanOne, IdListing;
    var planned := PlanAll(previous, current);
    var ids := SortedKeys(planned.Keys);
    ListedIds(planned.Keys);
    out := [];
    for i := 0 to |ids|
      invariant |out| == i && forall k :: 0 <= k < i ==> out[k] == planned[ids[k]]
    {
      out := out + [planned[ids[i]]];
    }
  }

  // ----- The persisted state and its history -----

  /** One persisted policy and the inputs it was rendered from. */
  datatype Rendering = Rendering(policy: Policy, inputs: Inputs)

  /** What is persisted now, and everything that ever was, in order. */
  datatype Store = Store(policies: map<string, Policy>, history: map<string, seq<Rendering>>)

  ghost function Past(s: Store, id: string): seq<Rendering> {
    if id in s.history then s.history[id] else []
  }

  /** Saving one workload's verdict. */
  ghost function Save(s: Store, id: string, p: Policy, inputs: Inputs): Store {
    Store(s.policies[id := p], s.history[id := Past(s, id) + [Rendering(p, inputs)]])
  }

  /** One render transaction over the ids it renders, in order. */
  ghost function SaveChanged(s: Store, start: map<string, Policy>, ids: seq<string>, current: map<string, Policy>,
      inputs: Inputs): Store
    requires forall i :: 0 <= i < |ids| ==> ids[i] in current
  {
    if ids == [] then s
    else
      var n := |ids| - 1;
      var t := SaveChanged(s, start, ids[..n], current, inputs);
      if Changes(start, ids[n], current[ids[n]])
      then Save(t, ids[n], PlanOne(start, ids[n], current[ids[n]]).policy, inputs)
      else t
  }

  ghost function RenderStep(s: Store, inputs: Inputs): Store {
    ListedIds(Render(inputs).Keys);
    SaveChanged(s, s.policies, IdListing(Render(inputs).Keys), Render(inputs), inputs)
  }

  datatype ReportLine = ReportLine(id: string, version: nat, changes: nat)

  /** The report's lines: one per workload whose version advanced. */
  ghost function ReportOf(start: map<string, Policy>, ids: seq<string>, current: map<string, Policy>): seq<ReportLine>
    requires forall i :: 0 <= i < |ids| ==> ids[i] in current
  {
    if ids == [] then []
    else
      var n := |ids| - 1;
      var o := PlanOne(start, ids[n], current[ids[n]]);
      ReportOf(start, ids[..n], current) + (if o.changed then [ReportLine(o.id, o.policy.version, |o.changes|)] else [])
  }

  ghost function RenderReport(s: Store, inputs: Inputs): seq<ReportLine> {
    ListedIds(Render(inputs).Keys);
    ReportOf(s.policies, IdListing(Render(inputs).Keys), Render(inputs))
  }

  class Engine {
    var policies: map<string, Policy>
    ghost var history: map<string, seq<Rendering>>

    constructor ()
      ensures policies == map[] && history == map[]
    {
      policies, history := map[], map[];
    }

    ghost function View(): Store
      reads this
    {
      Store(policies, history)
    }

    method SavePolicy(id: string, p: Policy, ghost inputs: Inputs)
      modifies this
      ensures View() == Save(old(View()), id, p, inputs)
      ensures policies == old(policies)[id := p]
    {
      history := history[id := Past(View(), id) + [Rendering(p, inputs)]];
      policies := policies[id := p];
    }

    /** Saves the changed outcomes in order and reports them. */
    method SaveOutcomes(outcomes: seq<Outcome>, ghost start: map<string, Policy>, ghost ids: seq<string>,
                        ghost current: map<string, Policy>, ghost inputs: Inputs) returns (report: seq<ReportLine>)
      requires |outcomes| == |ids|
      requires forall i :: 0 <= i < |ids| ==>
          ids[i] in current && outcomes[i] == PlanOne(start, ids[i], current[ids[i]])
      modifies this
      ensures View() == SaveChanged(old(View()), start, ids, current, inputs)
      ensures report == ReportOf(start, ids, current)
    {
      hide PlanOne, Changes, Save;
      ghost var before := View();
      report := [];
      for i := 0 to |outcomes|
        invariant View() == SaveChanged(before, start, ids[..i], current, inputs)
        invariant report == ReportOf(start, ids[..i], current)
      {
        assert ids[..i + 1][..i] == ids[..i];
        var o := outcomes[i];
        PlanVerdict(start, ids[i], current[ids[i]]);
        if o.changed {
          SavePolicy(o.id, o.policy, inputs);
          report := report + [ReportLine(o.id, o.policy.version, |o.changes|)];
        }
      }
      assert ids[..|ids|] == ids;
    }

    /** Renders every active workload and saves those whose output changed. */
    method RenderIn(inputs: Inputs) returns (workloads: nat, report: seq<ReportLine>)
      modifies this
      ensures View() == RenderStep(old(View()), inputs)
      ensures workloads == |Render(inputs)|
      ensures report == RenderReport(old(View()), inputs)
    {
      hide PlanOne, Render, SaveChanged, IdListing, ReportOf;
      var current := RenderLoop(inputs);
      var outcomes := Plan(policies, current);
      ListedIds(current.Keys);
      workloads := |outcomes|;
      report := SaveOutcomes(outcomes, policies, IdListing(current.Keys), current, inputs);
    }
  }
}
