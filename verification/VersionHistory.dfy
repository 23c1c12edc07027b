/** What every sequence of renders keeps: each workload's versions are
    1, 2, 3, ... and name one content each, for ever. */
module VersionHistory {
  import opened Rendered
  import opened Deltas
  import opened Authored
  import opened Compiler
  import opened Versions
  import Orders

  // ----- One render, one workload -----

  lemma {:induction false} SaveChangedAt(s: Store, start: map<string, Policy>, ids: seq<string>,
                                         current: map<string, Policy>, inputs: Inputs, id: string)
    requires forall i :: 0 <= i < |ids| ==> ids[i] in current
    requires forall i, j :: 0 <= i < j < |ids| ==> ids[i] != ids[j]
    ensures var t := SaveChanged(s, start, ids, current, inputs);
            if id in ids && Changes(start, id, current[id]) then
              var p := PlanOne(start, id, current[id]).policy;
              id in t.policies && t.policies[id] == p && id in t.history
                && t.history[id] == Past(s, id) + [Rendering(p, inputs)]
            else SameAt(s, t, id)
  {
    hide PlanOne, Changes;
    if ids != [] {
      var n := |ids| - 1;
      SaveChangedAt(s, start, ids[..n], current, inputs, id);
      assert ids == ids[..n] + [ids[n]];
      if ids[n] == id {
        assert id !in ids[..n];
      }
    }
  }

  ghost predicate SameAt(s: Store, t: Store, id: string) {
    && (id in t.policies <==> id in s.policies) && (id in s.policies ==> t.policies[id] == s.policies[id])
    && (id in t.history <==> id in s.history) && (id in s.history ==> t.history[id] == s.history[id])
  }

  /** A render persists a new version of a workload exactly when the workload
      is rendered and its content differs from what is persisted, or nothing
      is; every other workload keeps its policy and version. */
  lemma StepAt(s: Store, inputs: Inputs, id: string)
    ensures var t, r := RenderStep(s, inputs), Render(inputs);
            if id in r && Changes(s.policies, id, r[id]) then
              var p := PlanOne(s.policies, id, r[id]).policy;
              id in t.policies && t.policies[id] == p && id in t.history
                && t.history[id] == Past(s, id) + [Rendering(p, inputs)]
            else SameAt(s, t, id)
  {
    hide PlanOne, Changes, SaveChanged, Render;
    var keys := Render(inputs).Keys;
    ListedIds(keys);
    IdListingDistinct(keys);
    SaveChangedAt(s, s.policies, IdListing(keys), Render(inputs), inputs, id);
    assert id in IdListing(keys) <==> id in Render(inputs);
  }

  // ----- The invariant -----

  /** The k-th persisted policy of a workload is version k + 1, is exactly what
      its inputs render to, and differs in content from the one before. */
  ghost predicate GoodRendering(id: string, h: seq<Rendering>, k: nat)
    requires k < |h|
  {
    && h[k].policy.version == k + 1
    && IsCanonical(h[k].policy)
    && id in Render(h[k].inputs)
    && h[k].policy == Render(h[k].inputs)[id].(version := k + 1)
    && (k > 0 ==> !Equal(h[k - 1].policy, h[k].policy))
  }

  ghost predicate GoodPast(id: string, h: seq<Rendering>) {
    h != [] && forall k :: 0 <= k < |h| ==> GoodRendering(id, h, k)
  }

  ghost predicate GoodAt(s: Store, id: string) {
    && (id in s.policies <==> id in s.history)
    && (id in s.history ==> GoodPast(id, s.history[id]) && s.policies[id] == s.history[id][|s.history[id]| - 1].policy)
  }

  lemma {:induction false} ActiveValues(ws: seq<Workload>, f: Workload -> Policy, n: nat, id: string)
    requires n <= |ws| && id in Active(ws, f, n)
    ensures exists w :: w in ws && Active(ws, f, n)[id] == f(w)
  {
    if n > 0 {
      if !ws[n - 1].retired && ws[n - 1].id == id {
        assert ws[n - 1] in ws;
      } else {
        ActiveValues(ws, f, n - 1, id);
      }
    }
  }

  lemma RenderedCanonical(inputs: Inputs, id: string)
    requires id in Render(inputs)
    ensures IsCanonical(Render(inputs)[id]) && Canonical(Render(inputs)[id]) == Render(inputs)[id]
  {
    var f := Renderer(inputs);
    ActiveValues(inputs.workloads, f, |inputs.workloads|, id);
    var w :| w in inputs.workloads && Render(inputs)[id] == f(w);
    CanonicalSays(RawPolicy(inputs, w));
  }

  lemma CanonicalAnyVersion(p: Policy, v: nat)
    requires IsCanonical(p)
    ensures IsCanonical(p.(version := v))
  {
  }

  lemma EqualAnyVersion(p: Policy, q: Policy, v: nat)
    ensures Equal(p, q.(version := v)) <==> Equal(p, q)
  {
    EqualIffSameContent(p, q);
    EqualIffSameContent(p, q.(version := v));
  }

  /** Appending a freshly planned policy keeps a history good. */
  lemma AppendKeepsGood(id: string, h: seq<Rendering>, cur: Policy, inputs: Inputs)
    requires h == [] || GoodPast(id, h)
    requires id in Render(inputs) && cur == Render(inputs)[id]
    requires h != [] ==> !Equal(h[|h| - 1].policy, cur)
    ensures GoodPast(id, h + [Rendering(cur.(version := |h| + 1), inputs)])
  {
    hide Render, Equal, IsCanonical;
    var g := h + [Rendering(cur.(version := |h| + 1), inputs)];
    RenderedCanonical(inputs, id);
    CanonicalAnyVersion(cur, |h| + 1);
    forall k | 0 <= k < |g| ensures GoodRendering(id, g, k) {
      if k < |h| {
        assert GoodRendering(id, h, k);
      } else if k > 0 {
        EqualAnyVersion(h[k - 1].policy, cur, |h| + 1);
      }
    }
  }

  /** Every render keeps the invariant, for every workload. */
  lemma StepKeepsGood(s: Store, inputs: Inputs, id: string)
    requires GoodAt(s, id)
    ensures GoodAt(RenderStep(s, inputs), id)
  {
    hide Render, Equal, IsCanonical, Diff, RenderStep, GoodRendering;
    StepAt(s, inputs, id);
    var r := Render(inputs);
    if id in r && Changes(s.policies, id, r[id]) {
      RenderedCanonical(inputs, id);
      var h := Past(s, id);
      if id in s.history {
        assert GoodRendering(id, h, |h| - 1);
        VersionOf(id, h, |h| - 1);
        DiffEmptyIffEqual(s.policies[id], r[id]);
      }
      AppendKeepsGood(id, h, r[id], inputs);
    }
  }

  lemma VersionOf(id: string, h: seq<Rendering>, k: nat)
    requires k < |h| && GoodRendering(id, h, k)
    ensures h[k].policy.version == k + 1
  {
    hide Render, Equal, IsCanonical;
  }

  // ----- Every run -----

  /** A render transaction that commits, or one that fails and rolls back. */
  datatype Event = Commit(inputs: Inputs) | Abort

  ghost function Next(s: Store, e: Event): Store {
    if e.Commit? then RenderStep(s, e.inputs) else s
  }

  ghost function Run(events: seq<Event>): Store {
    if events == [] then Store(map[], map[]) else Next(Run(events[..|events| - 1]), events[|events| - 1])
  }

  /** After any sequence of renders, each workload's persisted versions are
      1, 2, 3, ... without a gap, and what is persisted is the last of them. */
  lemma {:induction false} RunGood(events: seq<Event>, id: string)
    ensures GoodAt(Run(events), id)
  {
    hide GoodPast, RenderStep;
    if events != [] {
      var e := events[|events| - 1];
      RunGood(events[..|events| - 1], id);
      if e.Commit? {
        StepKeepsGood(Run(events[..|events| - 1]), e.inputs, id);
      }
    }
  }

  /** History only grows: what was persisted stays on record. */
  lemma {:induction false} RunExtends(events: seq<Event>, n: nat, id: string)
    requires n <= |events|
    ensures Past(Run(events[..n]), id) <= Past(Run(events), id)
  {
    hide PlanOne, RenderStep, Changes, Render;
    if n == |events| {
      assert events[..n] == events;
    } else {
      var front := events[..|events| - 1];
      RunExtends(front, n, id);
      assert front[..n] == events[..n];
      var e := events[|events| - 1];
      if e.Commit? {
        StepAt(Run(front), e.inputs, id);
      }
    }
  }

  /** A workload and a version determine the policy for all history: whenever
      two states of a run hold the same version of a workload, they hold the
      same policy. */
  lemma VersionDeterminesPolicy(events: seq<Event>, m: nat, n: nat, id: string)
    requires m <= n <= |events|
    requires id in Run(events[..m]).policies && id in Run(events[..n]).policies
    requires Run(events[..m]).policies[id].version == Run(events[..n]).policies[id].version
    ensures Run(events[..m]).policies[id] == Run(events[..n]).policies[id]
  {
    hide Run;
    var a, b := Run(events[..m]), Run(events[..n]);
    RunGood(events[..m], id);
    RunGood(events[..n], id);
    assert events[..n][..m] == events[..m];
    RunExtends(events[..n], m, id);
    LastVersion(id, a.history[id]);
    LastVersion(id, b.history[id]);
  }

  lemma LastVersion(id: string, h: seq<Rendering>)
    requires GoodPast(id, h)
    ensures h[|h| - 1].policy.version == |h|
  {
    VersionOf(id, h, |h| - 1);
  }

  /** The version of a workload advances by one exactly when a render changes
      its content or is its first, and never otherwise. */
  lemma VersionAdvancesIffChanged(events: seq<Event>, inputs: Inputs, id: string)
    ensures var s, t := Run(events), Run(events + [Commit(inputs)]);
            if id in Render(inputs) && (id in s.policies ==> !Equal(s.policies[id], Render(inputs)[id])) then
              id in t.policies
              && var last := if id in s.policies then s.policies[id].version else 0;
                 t.policies[id] == Render(inputs)[id].(version := last + 1)
            else SameAt(s, t, id)
  {
    hide Run, RenderStep, Diff, Equal, Render;
    var s := Run(events);
    RunStep(events, inputs);
    StepAt(s, inputs, id);
    if id in Render(inputs) {
      RenderedCanonical(inputs, id);
      if id in s.policies {
        DiffEmptyIffEqual(s.policies[id], Render(inputs)[id]);
      }
    }
  }

  lemma RunStep(events: seq<Event>, inputs: Inputs)
    ensures Run(events + [Commit(inputs)]) == RenderStep(Run(events), inputs)
  {
    assert (events + [Commit(inputs)])[..|events|] == events;
  }

  ghost predicate Unrendered(events: seq<Event>, id: string) {
    forall i :: 0 <= i < |events| ==> events[i].Commit? ==> id !in Render(events[i].inputs)
  }

  /** Once no render includes a workload, as when it has been retired, its
      policy and version never change again. */
  lemma {:induction false} RetiredNeverChanges(events: seq<Event>, later: seq<Event>, id: string)
    requires Unrendered(later, id)
    ensures SameAt(Run(events), Run(events + later), id)
  {
    hide RenderStep, Render, PlanOne, Changes;
    if later == [] {
      assert events + later == events;
    } else {
      var front, e := later[..|later| - 1], later[|later| - 1];
      RetiredNeverChanges(events, front, id);
      assert (events + later)[..|events + later| - 1] == events + front;
      if e.Commit? {
        StepAt(Run(events + front), e.inputs, id);
      }
    }
  }

  /** A workload retired in the inputs of every later render is unrendered. */
  lemma RetiredUnrendered(events: seq<Event>, id: string)
    requires forall i :: 0 <= i < |events| && events[i].Commit? ==>
               && DistinctWorkloads(events[i].inputs.workloads)
               && forall w :: w in events[i].inputs.workloads && w.id == id ==> w.retired
    ensures Unrendered(events, id)
  {
    hide Render;
    forall i | 0 <= i < |events| && events[i].Commit? ensures id !in Render(events[i].inputs) {
      RenderCovers(events[i].inputs);
    }
  }

  // ----- The report of a render -----

  lemma {:induction false} ReportOfSays(start: map<string, Policy>, ids: seq<string>, current: map<string, Policy>)
    requires (forall i :: 0 <= i < |ids| ==> ids[i] in current) && Orders.Ascending(ids, Orders.StringLess)
    ensures var r := ReportOf(start, ids, current);
            && (forall i :: 0 <= i < |r| ==>
                  && r[i].id in ids && Changes(start, r[i].id, current[r[i].id])
                  && r[i].version == Previous(start, r[i].id).version + 1
                  && r[i].changes == |Diff(Previous(start, r[i].id), current[r[i].id])|)
            && (forall id :: id in ids && Changes(start, id, current[id]) ==> exists i :: 0 <= i < |r| && r[i].id == id)
            && (forall i, j :: 0 <= i < j < |r| ==> Orders.StringLess(r[i].id, r[j].id))
  {
    hide Changes, Diff, Previous, Canonical, Orders.StringLess;
    if ids != [] {
      var n := |ids| - 1;
      var front, id := ids[..n], ids[n];
      ReportOfSays(start, front, current);
      var f, r := ReportOf(start, front, current), ReportOf(start, ids, current);
      assert forall x :: x in ids <==> x in front || x == id by { assert ids == front + [id]; }
      assert forall x :: x in front ==> Orders.StringLess(x, id);
      if Changes(start, id, current[id]) {
        assert |r| == |f| + 1 && r[|f|].id == id && r[..|f|] == f;
        forall x | x in ids && Changes(start, x, current[x]) ensures exists i :: 0 <= i < |r| && r[i].id == x {
          if x != id {
            var i :| 0 <= i < |f| && f[i].id == x;
            assert r[i].id == x;
          }
        }
      } else {
        assert r == f;
      }
    }
  }

  /** A render reports, in order of id and once each, exactly the workloads whose
      persisted policy it changed, with the version that is persisted now, one
      more than before, and the number of changes from what was. */
  lemma ReportSays(s: Store, inputs: Inputs)
    ensures var r, t := RenderReport(s, inputs), RenderStep(s, inputs);
            && (forall i :: 0 <= i < |r| ==>
                  && r[i].id in Render(inputs) && r[i].id in t.policies && r[i].version == t.policies[r[i].id].version
                  && r[i].version == (if r[i].id in s.policies then s.policies[r[i].id].version else 0) + 1
                  && r[i].changes
                     == |Diff(if r[i].id in s.policies then s.policies[r[i].id] else Empty(), Render(inputs)[r[i].id])|)
            && (forall id :: id in t.policies && (id !in s.policies || t.policies[id] != s.policies[id]) ==>
                  exists i :: 0 <= i < |r| && r[i].id == id)
            && (forall i, j :: 0 <= i < j < |r| ==> Orders.StringLess(r[i].id, r[j].id))
  {
    hide Diff, Canonical, Orders.StringLess, Render, SaveChanged, Changes;
    var r, t := RenderReport(s, inputs), RenderStep(s, inputs);
    var ids := IdListing(Render(inputs).Keys);
    ListedIds(Render(inputs).Keys);
    ReportOfSays(s.policies, ids, Render(inputs));
    assert r == ReportOf(s.policies, ids, Render(inputs));
    hide ReportOf, RenderReport, RenderStep;
    forall i | 0 <= i < |r|
      ensures r[i].id in Render(inputs) && r[i].id in t.policies && r[i].version == t.policies[r[i].id].version
    {
      var j :| 0 <= j < |ids| && ids[j] == r[i].id;
      StepAt(s, inputs, r[i].id);
    }
    forall id | id in t.policies && (id !in s.policies || t.policies[id] != s.policies[id])
      ensures exists i :: 0 <= i < |r| && r[i].id == id
    {
      StepAt(s, inputs, id);
    }
  }
}
