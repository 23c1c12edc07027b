/** Runs of the sync stream: what in-order delivery leaves an agent with, and
    runs that show where the conditions of its laws come from. */
module StreamRuns {
  import opened Wrappers
  import opened Rendered
  import opened Deltas
  import opened Authored
  import opened Compiler
  import opened Versions
  import opened VersionHistory
  import opened SyncStream

  // ----- In order -----

  /** What an agent holds after messages delivered in order. */
  ghost function ReceivedAll(agent: Policy, ms: seq<Message>): Policy {
    if ms == [] then agent else Received(ReceivedAll(agent, ms[..|ms| - 1]), ms[|ms| - 1])
  }

  lemma ReceivedMore(agent: Policy, ms: seq<Message>, m: Message)
    ensures ReceivedAll(agent, ms + [m]) == Received(ReceivedAll(agent, ms), m)
  {
    assert (ms + [m])[..|ms|] == ms;
  }

  /** Delivered in order, the messages bring every agent to one policy. */
  ghost predicate Leads(ms: seq<Message>, p: Policy) {
    forall agent :: ReceivedAll(agent, ms) == p
  }

  lemma LeadsMore(ms: seq<Message>, p: Policy, m: Message)
    requires Leads(ms, p)
    ensures Leads(ms + [m], Received(p, m))
  {
    hide Received;
    forall agent ensures ReceivedAll(agent, ms + [m]) == Received(p, m) {
      ReceivedMore(agent, ms, m);
      assert ReceivedAll(agent, ms) == p;
    }
  }

  lemma LeadsOnce(ms: seq<Message>, p: Policy)
    requires Leads(ms, p)
    ensures forall q :: Leads(ms, q) ==> q == p
  {
    assert ReceivedAll(Empty(), ms) == p;
  }

  lemma SnapshotLeads(ms: seq<Message>, p: Policy)
    ensures Leads(ms + [Snapshot(p)], p)
  {
    forall agent ensures ReceivedAll(agent, ms + [Snapshot(p)]) == p {
      ReceivedMore(agent, ms, Snapshot(p));
    }
  }

  /** A delta came before anything else: a push overtook the opening. */
  ghost predicate Overtaken(t: Stream) {
    t.sending.sent != [] && t.sending.sent[0].PolicyDelta?
  }

  /** Where a stream's messages lead, stage by stage of its opening: to its tip,
      or, overtaken and not yet recovered, to a version below it. */
  ghost predicate LeadsRight(t: Stream) {
    match t.opening
    case NotLoaded => t.sending == Sending(None, 0, []) && t.recovering.Idle? && t.recoveries == 0
    case OpenLoaded(_) => t.sending == Sending(None, 0, []) && t.recovering.Idle? && t.recoveries == 0
    case TipSet(p) =>
      && t.sending.tip.Some? && t.recovering.Idle? && t.recoveries == 0
      && (t.sending.sent == [] ==> t.sending.tip.value == p)
      && (t.sending.sent != [] ==> Overtaken(t) && t.sending.tip.value.version > p.version)
    case Opened =>
      && t.sending.tip.Some? && t.sending.sent != []
      && (!Overtaken(t) || t.recoveries > 0 ==> Leads(t.sending.sent, t.sending.tip.value))
      && (Overtaken(t) && t.recoveries == 0 ==>
          exists p: Policy :: Leads(t.sending.sent, p) && p.version < t.sending.tip.value.version)
  }

  lemma PushLeads(id: string, store: Store, x: Sending, p: Policy, at: Policy)
    requires GoodAt(store, id) && Persisted(id, store, p) && x.tip.Some? && Persisted(id, store, x.tip.value)
    requires Leads(x.sent, at) && p.version > x.tip.value.version
    ensures at == x.tip.value ==> Leads(PushTo(x, p).sent, p)
    ensures at.version < x.tip.value.version ==> Leads(PushTo(x, p).sent, at)
  {
    hide Leads, GoodAt, Persisted, Apply, Diff;
    var d := DeltaOf(x.tip.value, p);
    LeadsMore(x.sent, at, PolicyDelta(d));
    if at == x.tip.value {
      DeltaApplies(id, store, at, x.tip.value, p);
    } else if at.version < x.tip.value.version {
      MismatchRejected(at, d);
    }
  }

  lemma PushLeadsRight(id: string, s: System, k: nat, i: nat)
    requires Safe(id, s) && Enabled(id, s, PushLocked(k, i)) && LeadsRight(s.streams[k])
    ensures LeadsRight(StreamStep(id, s, PushLocked(k, i)))
  {
    hide Leads, GoodAt, Persisted, GoodMessage, DeltaOf;
    var t := s.streams[k];
    var p, u := t.pushes[i], StreamStep(id, s, PushLocked(k, i));
    assert GoodStream(id, s.store, t);
    if t.sending.tip.Some? && p.version > t.sending.tip.value.version {
      assert u.sending.sent == t.sending.sent + [PolicyDelta(DeltaOf(t.sending.tip.value, p))];
      if t.opening.Opened? {
        if !Overtaken(t) || t.recoveries > 0 {
          PushLeads(id, s.store, t.sending, p, t.sending.tip.value);
        } else {
          var at: Policy :| Leads(t.sending.sent, at) && at.version < t.sending.tip.value.version;
          PushLeads(id, s.store, t.sending, p, at);
        }
      }
    }
  }

  lemma StreamLeadsRight(id: string, s: System, step: Step)
    requires Safe(id, s) && Enabled(id, s, step) && !step.RenderNow? && !step.Deliver?
    requires !step.Open? ==> LeadsRight(s.streams[step.k])
    ensures LeadsRight(StreamStep(id, s, step))
  {
    hide Leads, GoodAt, Persisted, GoodMessage, DeltaOf;
    if step.PushLocked? {
      PushLeadsRight(id, s, step.k, step.i);
    } else if step.OpenSend? {
      var t := s.streams[step.k];
      SnapshotLeads(t.sending.sent, t.opening.policy);
    } else if step.RecoverLocked? {
      var t := s.streams[step.k];
      SnapshotLeads(t.sending.sent, t.recovering.policy);
    }
  }

  lemma {:induction false} AlwaysLeadsRight(id: string, states: seq<System>, steps: seq<Step>, n: nat, k: nat)
    requires Trace(id, states, steps) && n < |states|
    ensures k in states[n].streams ==> LeadsRight(states[n].streams[k])
  {
    hide Safe, LeadsRight, Enabled, StreamStep, Received;
    if n > 0 {
      AlwaysLeadsRight(id, states, steps, n - 1, k);
      AlwaysSafe(id, states, steps, n - 1);
      var s, step := states[n - 1], steps[n - 1];
      if !step.RenderNow? && !step.Deliver? && step.k == k {
        if !step.Open? { OpenedAlready(id, s, step); }
        StreamLeadsRight(id, s, step);
      }
    }
  }

  lemma OpenedAlready(id: string, s: System, step: Step)
    requires Enabled(id, s, step) && !step.RenderNow? && !step.Deliver? && !step.Open?
    ensures step.k in s.streams
  {
  }

  /** A push is queued on a stream after its tip was set and before its opening
      snapshot is queued. */
  ghost predicate Overtakes(states: seq<System>, steps: seq<Step>, k: nat, i: nat)
    requires |states| == |steps| + 1
  {
    && i < |steps| && steps[i].PushLocked? && steps[i].k == k
    && k in states[i].streams && states[i].streams[k].opening.TipSet?
    && k in states[i + 1].streams && states[i + 1].streams[k].sending.sent != states[i].streams[k].sending.sent
  }

  /** One step overtakes the opening, or leaves the first message as it was. */
  lemma OvertakenStep(id: string, states: seq<System>, steps: seq<Step>, n: nat, k: nat)
    requires Trace(id, states, steps) && n < |steps| && k in states[n + 1].streams
    requires k in states[n].streams ==> LeadsRight(states[n].streams[k])
    ensures Overtaken(states[n + 1].streams[k])
        <==> (k in states[n].streams && Overtaken(states[n].streams[k])) || Overtakes(states, steps, k, n)
  {
    hide Leads, Received, DeltaOf;
    var s, step := states[n], steps[n];
    assert states[n + 1] == Do(id, s, step) && Enabled(id, s, step);
  }

  /** By some step so far a push overtook the opening. */
  ghost predicate EverOvertaken(states: seq<System>, steps: seq<Step>, k: nat, n: nat)
    requires |states| == |steps| + 1
  {
    exists i :: 0 <= i < n && Overtakes(states, steps, k, i)
  }

  lemma EverStep(states: seq<System>, steps: seq<Step>, k: nat, n: nat)
    requires |states| == |steps| + 1
    ensures EverOvertaken(states, steps, k, n + 1)
        <==> EverOvertaken(states, steps, k, n) || Overtakes(states, steps, k, n)
  {
    hide Overtakes;
  }

  lemma {:induction false} OvertakenIff(id: string, states: seq<System>, steps: seq<Step>, n: nat, k: nat)
    requires |states| == |steps| + 1 && Trace(id, states, steps) && n < |states|
    ensures k in states[n].streams && Overtaken(states[n].streams[k]) <==> EverOvertaken(states, steps, k, n)
  {
    TraceSize(id, states, steps);
    if n > 0 {
      hide Overtaken, Overtakes, LeadsRight, Trace, EverOvertaken;
      OvertakenIff(id, states, steps, n - 1, k);
      AlwaysLeadsRight(id, states, steps, n - 1, k);
      EverStep(states, steps, k, n - 1);
      if k in states[n].streams {
        OvertakenStep(id, states, steps, n - 1, k);
      } else {
        NotYetOpen(id, states, steps, n - 1, k);
      }
    }
  }

  lemma TraceSize(id: string, states: seq<System>, steps: seq<Step>)
    requires Trace(id, states, steps)
    ensures |states| == |steps| + 1 && states[0].streams == map[]
  {
  }

  lemma NotYetOpen(id: string, states: seq<System>, steps: seq<Step>, n: nat, k: nat)
    requires Trace(id, states, steps) && n < |steps| && k !in states[n + 1].streams
    ensures k !in states[n].streams && !Overtakes(states, steps, k, n)
  {
    hide Received, StreamStep;
    assert states[n + 1] == Do(id, states[n], steps[n]) && Enabled(id, states[n], steps[n]);
  }

  /** In every run, for a stream that has opened: its messages delivered in
      order bring every agent to its tip exactly when no push was queued between
      its tip being set and its opening snapshot being queued, or a recovery
      snapshot was queued since. */
  lemma InOrderConvergesIff(id: string, states: seq<System>, steps: seq<Step>, n: nat, k: nat)
    requires |states| == |steps| + 1 && Trace(id, states, steps) && n < |states|
    requires k in states[n].streams && states[n].streams[k].opening.Opened?
    ensures var t := states[n].streams[k];
            && t.sending.tip.Some?
            && (Leads(t.sending.sent, t.sending.tip.value)
                <==> !EverOvertaken(states, steps, k, n) || t.recoveries > 0)
  {
    hide Trace, Overtaken, EverOvertaken, Leads;
    AlwaysLeadsRight(id, states, steps, n, k);
    OvertakenIff(id, states, steps, n, k);
    var t := states[n].streams[k];
    if Overtaken(t) && t.recoveries == 0 {
      var p: Policy :| Leads(t.sending.sent, p) && p.version < t.sending.tip.value.version;
      LeadsOnce(t.sending.sent, p);
    }
  }

  // ----- Answering a failed acknowledgement -----

  /** The steps of the machine that answer a failed acknowledgement do to the
      stream what the handler does. */
  lemma AckSteps(id: string, s: System, k: nat, version: nat)
    requires k in s.streams && s.streams[k].opening.Opened? && s.streams[k].recovering.Idle? && id in s.store.policies
    ensures var a := Do(id, s, FailedAck(k, version));
            var sending, answer := s.streams[k].sending, AckTo(s.streams[k].sending, version, s.store.policies[id]);
            if version <= sending.recovery then a.streams[k].sending == answer && a.streams[k].recovering.Idle?
            else
              && Enabled(id, a, RecoverLoad(k)) && Enabled(id, Do(id, a, RecoverLoad(k)), RecoverLocked(k))
              && var r := Do(id, Do(id, a, RecoverLoad(k)), RecoverLocked(k));
                 r.streams[k].sending == answer && r.streams[k].recovering.Idle?
  {
    hide RenderStep, Received, PushTo;
  }

  // ----- Runs -----

  lemma TraceExtends(id: string, states: seq<System>, steps: seq<Step>, step: Step)
    requires Trace(id, states, steps) && Enabled(id, states[|steps|], step)
    ensures Trace(id, states + [Do(id, states[|steps|], step)], steps + [step])
  {
    hide Enabled, Do;
    var all, done := states + [Do(id, states[|steps|], step)], steps + [step];
    forall i | 0 <= i < |done| ensures Enabled(id, all[i], done[i]) && all[i + 1] == Do(id, all[i], done[i]) {
      if i < |steps| { assert all[i] == states[i] && all[i + 1] == states[i + 1] && done[i] == steps[i]; }
    }
  }

  /** Inputs of one workload and nothing else. */
  function Alone(id: string, mode: Mode): Inputs {
    Inputs([Workload(id, false, [], mode, [])], [], [], [])
  }

  lemma AloneRenders(id: string, mode: Mode)
    ensures id in Render(Alone(id, mode)) && Render(Alone(id, mode))[id].mode == RenderedMode(mode)
  {
    hide Render, RenderWorkload;
    var inputs := Alone(id, mode);
    var w := inputs.workloads[0];
    assert w in inputs.workloads;
    RenderCovers(inputs);
    RenderedWorkloadMode(inputs, w);
  }

  lemma DifferentModes(p: Policy, q: Policy)
    requires p.mode != q.mode
    ensures !Equal(p, q)
  {
    EqualIffSameContent(p, q);
  }

  ghost function First(id: string): Store {
    RenderStep(Store(map[], map[]), Alone(id, Visibility))
  }

  ghost function Second(id: string): Store {
    RenderStep(First(id), Alone(id, Enforced))
  }

  /** A workload rendered twice, in two modes, has two versions. */
  lemma TwoVersions(id: string)
    ensures id in First(id).policies && First(id).policies[id].version == 1 && |Past(First(id), id)| == 1
    ensures id in Second(id).policies && Second(id).policies[id].version == 2
  {
    hide Render, RenderStep, Run;
    var a, b := Alone(id, Visibility), Alone(id, Enforced);
    RunNone();
    assert [] + [Commit(a)] == [Commit(a)] && [Commit(a)] + [Commit(b)] == [Commit(a), Commit(b)];
    RunStep([], a);
    RunStep([Commit(a)], b);
    AloneRenders(id, Visibility);
    AloneRenders(id, Enforced);
    VersionAdvancesIffChanged([], a, id);
    VersionAdvancesIffChanged([Commit(a)], b, id);
    DifferentModes(First(id).policies[id], Render(b)[id]);
    RunGood([Commit(a)], id);
    LastVersion(id, First(id).history[id]);
  }

  lemma RunNone()
    ensures Run([]) == Store(map[], map[])
  {
  }

  /** The steps by which a push overtakes an opening. */
  lemma OvertakenSteps(id: string, s: System)
    requires id in First(id).policies && s == TipAt(id)
    ensures var b := RenderNow(Alone(id, Enforced));
            Enabled(id, s, b) && var s5 := Do(id, s, b);
            Enabled(id, s5, PushLoad(0)) && var s6 := Do(id, s5, PushLoad(0));
            Enabled(id, s6, PushLocked(0, 0)) && var s7 := Do(id, s6, PushLocked(0, 0));
            Enabled(id, s7, OpenSend(0)) && var s8 := Do(id, s7, OpenSend(0));
            && 0 in s6.streams && s6.streams[0].opening.TipSet? && s6.streams[0].sending.sent == []
            && 0 in s7.streams && s7.streams[0].sending.sent != []
            && 0 in s8.streams && s8.streams[0].opening.Opened?
            && s8.streams[0].sending.tip == Some(Second(id).policies[id])
            && s8.streams[0].sending.sent == s7.streams[0].sending.sent + [Snapshot(First(id).policies[id])]
  {
    hide RenderStep, DeltaOf, Received;
    TwoVersions(id);
    var s5 := Do(id, s, RenderNow(Alone(id, Enforced)));
    assert s5.store == Second(id);
  }

  /** A run in which a push overtakes the opening: the tip is set to version 1,
      a delta to version 2 is queued, and then the snapshot of version 1.
      Delivered in order they leave every agent at version 1, below the tip. */
  lemma OvertakenOpening(id: string) returns (states: seq<System>, steps: seq<Step>, p: Policy, q: Policy)
    ensures Trace(id, states, steps) && |steps| == 8 && p.version == 1 && q.version == 2
    ensures var t := states[8].streams;
            0 in t && t[0].opening.Opened? && t[0].sending.tip == Some(q) && Leads(t[0].sending.sent, p)
    ensures Overtakes(states, steps, 0, 6)
  {
    hide RenderStep;
    TwoVersions(id);
    p, q := First(id).policies[id], Second(id).policies[id];
    states, steps := OpenedTo(id);
    var s4 := states[4];
    OvertakenSteps(id, s4);
    hide Leads, Do, Enabled, First, Second, TipAt, Trace;
    var b := RenderNow(Alone(id, Enforced));
    var s5 := Do(id, s4, b);
    var s6 := Do(id, s5, PushLoad(0));
    var s7 := Do(id, s6, PushLocked(0, 0));
    var s8 := Do(id, s7, OpenSend(0));
    states, steps := ExtendedBy(id, states, steps, b);
    states, steps := ExtendedBy(id, states, steps, PushLoad(0));
    states, steps := ExtendedBy(id, states, steps, PushLocked(0, 0));
    assert states[6] == s6 && states[7] == s7 && steps[6] == PushLocked(0, 0);
    states, steps := ExtendedBy(id, states, steps, OpenSend(0));
    SnapshotLeads(s7.streams[0].sending.sent, p);
  }

  lemma ExtendedBy(id: string, before: seq<System>, done: seq<Step>, step: Step)
      returns (states: seq<System>, steps: seq<Step>)
    requires Trace(id, before, done) && |before| == |done| + 1 && Enabled(id, before[|done|], step)
    ensures states == before + [Do(id, before[|done|], step)] && steps == done + [step]
    ensures Trace(id, states, steps)
  {
    TraceExtends(id, before, done, step);
    states, steps := before + [Do(id, before[|done|], step)], done + [step];
  }

  /** The workload is rendered once and a stream's tip is set to it. */
  ghost function TipAt(id: string): System
    requires id in First(id).policies
  {
    var p := First(id).policies[id];
    System(First(id), map[0 := Stream(Sending(Some(p), 0, []), TipSet(p), Idle, [], 0)], Empty())
  }

  lemma OpenedTo(id: string) returns (states: seq<System>, steps: seq<Step>)
    ensures Trace(id, states, steps) && |steps| == 4
    ensures id in First(id).policies && states[4] == TipAt(id)
  {
    hide RenderStep, DeltaOf, Received;
    TwoVersions(id);
    states, steps := [Start()], [];
    states, steps := ExtendedBy(id, states, steps, RenderNow(Alone(id, Visibility)));
    assert states[1] == System(First(id), map[], Empty());
    states, steps := ExtendedBy(id, states, steps, Open(0));
    states, steps := ExtendedBy(id, states, steps, OpenLoad(0));
    states, steps := ExtendedBy(id, states, steps, OpenTip(0));
    assert states[4].streams == map[0 := states[4].streams[0]];
  }

  // ----- Recovery without the condition -----

  /** The condition is needed: an acknowledgement of a version beyond what is
      persisted is answered with a snapshot that raises nothing, so it can be
      repeated for ever. */
  lemma DishonestAckRepeats(id: string, s: System, k: nat, version: nat)
    requires Safe(id, s) && k in s.streams && id in s.store.policies
    requires s.streams[k].opening.Opened? && s.streams[k].recovering.Idle?
    requires s.streams[k].sending.recovery == |Past(s.store, id)| < version
    ensures var a := FailedAck(k, version);
            Enabled(id, s, a) &&
            var s1 := Do(id, s, a);
            Enabled(id, s1, RecoverLoad(k)) &&
            var s2 := Do(id, s1, RecoverLoad(k));
            Enabled(id, s2, RecoverLocked(k)) &&
            var s3 := Do(id, s2, RecoverLocked(k));
            && s3.streams[k].recoveries == s.streams[k].recoveries + 1
            && s3.streams[k].sending.recovery == s.streams[k].sending.recovery
  {
    hide GoodAt, Persisted, RenderStep, Received, GoodMessage, GoodStream;
    CurrentPersisted(id, s.store);
  }

  /** A stream that is open and idle and has recovered to the only version. */
  ghost predicate Recovered(id: string, s: System, rounds: nat) {
    && 0 in s.streams && s.streams[0].opening.Opened? && s.streams[0].recovering.Idle?
    && id in s.store.policies && |Past(s.store, id)| == 1
    && s.streams[0].sending.recovery == 1 && s.streams[0].recoveries == rounds
  }

  /** The bound on recoveries fails without the condition: for every number
      there is a run, with one version persisted, in which a stream sends more
      recovery snapshots than that. */
  lemma {:induction false} DishonestAckUnbounded(id: string, rounds: nat)
      returns (states: seq<System>, steps: seq<Step>)
    ensures Trace(id, states, steps) && Recovered(id, states[|steps|], rounds + 1)
  {
    hide RenderStep, DeltaOf, Received, Trace;
    if rounds == 0 {
      states, steps := FirstRecovery(id);
    } else {
      states, steps := DishonestAckUnbounded(id, rounds - 1);
      var s := LastState(id, states, steps);
      AlwaysSafe(id, states, steps, |steps|);
      DishonestAckRepeats(id, s, 0, 2);
      states, steps := Answered(id, states, steps, 2);
    }
  }

  lemma LastState(id: string, states: seq<System>, steps: seq<Step>) returns (s: System)
    requires Trace(id, states, steps)
    ensures |states| == |steps| + 1 && s == states[|steps|]
  {
    s := states[|steps|];
  }

  /** A failed acknowledgement above the last recovery, answered. */
  lemma Answered(id: string, before: seq<System>, done: seq<Step>, version: nat)
      returns (states: seq<System>, steps: seq<Step>)
    requires Trace(id, before, done)
    requires var s := before[|done|];
             && 0 in s.streams && s.streams[0].opening.Opened? && s.streams[0].recovering.Idle?
             && id in s.store.policies && s.streams[0].sending.recovery < version
    ensures Trace(id, states, steps)
    ensures var s, t := before[|done|], states[|steps|];
            && t.store == s.store && 0 in t.streams
            && t.streams[0] == s.streams[0].(sending := RecoverTo(s.streams[0].sending, s.store.policies[id]),
              recoveries := s.streams[0].recoveries + 1)
  {
    hide RenderStep, DeltaOf, Received, PushTo;
    states, steps := ExtendedBy(id, before, done, FailedAck(0, version));
    states, steps := ExtendedBy(id, states, steps, RecoverLoad(0));
    states, steps := ExtendedBy(id, states, steps, RecoverLocked(0));
  }

  lemma FirstRecovery(id: string) returns (states: seq<System>, steps: seq<Step>)
    ensures Trace(id, states, steps) && Recovered(id, states[|steps|], 1)
  {
    hide RenderStep, DeltaOf, Received, PushTo;
    TwoVersions(id);
    states, steps := OpenedTo(id);
    states, steps := ExtendedBy(id, states, steps, OpenSend(0));
    states, steps := Answered(id, states, steps, 1);
  }
}
