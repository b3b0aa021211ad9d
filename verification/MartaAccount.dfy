/** The conversation of a job and the load kept for it belong together: what the accounting of MartaLoad takes for
    granted is what a legal conversation guarantees. */
module MartaAccount {
  import T = MartaTrace
  import L = MartaLoad

  function RunningNodes(works: seq<T.Work>): multiset<string> {
    if works == [] then multiset{}
    else RunningNodes(works[..|works| - 1]) + NodeIfRunning(works[|works| - 1])
  }

  function NodeIfRunning(w: T.Work): multiset<string> {
    if w.fate == T.Running then multiset{w.out.node} else multiset{}
  }

  function LastNode(last: T.Option<T.Work>): multiset<string> {
    if last.Some? then NodeIfRunning(last.value) else multiset{}
  }

  /** The accounted job has the maps of the conversation, running where they run, and its waiting reduces. */
  ghost predicate Agrees(job: L.JobLoad, s: T.Seen) {
    && |job.maps| == |s.maps|
    && (forall m :: 0 <= m < |s.maps| ==>
      job.maps[m].node == s.maps[m].out.node && (job.maps[m].running <==> s.maps[m].fate == T.Running))
    && multiset(job.reduces) == Waiting(s)
  }

  /** The accounting step that goes with a message. */
  predicate Accounts(j: nat, s: T.Seen, e: T.Event, step: L.Step) {
    match e
    case MapSent(m, out, b) =>
      step == if m < |s.maps| then L.MapReplanned(j, m, out.node, b) else L.MapPlanned(j, out.node, b)
    case MapReplied(m, _) => step == L.MapReplied(j, m)
    case ReduceSent(_, out, _) => step == L.ReduceOrdered(j, out.node)
    case ReduceReplied(_, _) => step.ReduceReplied? && step.job == j
    case _ => false
  }

  lemma {:induction false} NoneRunningNodes(works: seq<T.Work>)
    requires T.NoneRunning(works)
    ensures RunningNodes(works) == multiset{}
  {
    if works != [] {
      NoneRunningNodes(works[..|works| - 1]);
    }
  }

  lemma AtTheEnd(works: seq<T.Work>, w: T.Work)
    ensures RunningNodes(works + [w]) == RunningNodes(works) + NodeIfRunning(w)
  {
    assert (works + [w])[..|works|] == works;
  }

  lemma {:induction false} OneStops(works: seq<T.Work>, p: nat, ok: bool)
    requires p < |works| && works[p].fate == T.Running
    ensures RunningNodes(works) == RunningNodes(works[p := T.Replied(works[p], ok)]) + multiset{works[p].out.node}
    decreases |works|
  {
    hide RunningNodes;
    var k := |works| - 1;
    var stopped := T.Replied(works[p], ok);
    assert works == works[..k] + [works[k]];
    AtTheEnd(works[..k], works[k]);
    if p < k {
      OneStops(works[..k], p, ok);
      assert works[p := stopped] == works[..k][p := stopped] + [works[k]];
      AtTheEnd(works[..k][p := stopped], works[k]);
    } else {
      assert works[p := stopped] == works[..k] + [stopped];
      AtTheEnd(works[..k], stopped);
    }
  }

  lemma OneStarts(works: seq<T.Work>, w: T.Work)
    requires w.fate == T.Running
    ensures RunningNodes(works + [w]) == RunningNodes(works) + multiset{w.out.node}
    ensures RunningNodes([w]) == multiset{w.out.node}
  {
    assert (works + [w])[..|works|] == works;
    var one: seq<T.Work> := [w];
    assert one[..0] == [];
  }

  lemma ReduceStarts(combiner: bool, s: T.Seen, e: T.Event)
    requires e.ReduceSent? && T.Allowed(combiner, s, e)
    ensures var now := T.Apply(s, e);
      now.maps == s.maps && Waiting(now) == Waiting(s) + multiset{e.out.node}
  {
    OneStarts(s.partials, T.Work(e.out, e.inputs, T.Running));
    if e.reduce == 1 {
      NoneRunningNodes(s.partials);
    }
  }

  function Waiting(s: T.Seen): multiset<string> {
    RunningNodes(s.partials) + LastNode(s.last)
  }

  /** A reply to a reduce takes the node of that reduce out of the waiting ones. */
  lemma ReduceStops(combiner: bool, s: T.Seen, r: nat, fallen: T.Option<string>) returns (node: string)
    requires T.Allowed(combiner, s, T.ReduceReplied(r, fallen))
    ensures r == T.FINAL ==> s.last.Some? && node == s.last.value.out.node
    ensures r != T.FINAL ==> r <= |s.partials| && node == s.partials[r - 1].out.node
    ensures T.Apply(s, T.ReduceReplied(r, fallen)).maps == s.maps
    ensures Waiting(s) == Waiting(T.Apply(s, T.ReduceReplied(r, fallen))) + multiset{node}
  {
    if r == T.FINAL {
      node := s.last.value.out.node;
      LastStops(s, fallen);
    } else {
      node := s.partials[r - 1].out.node;
      OneStops(s.partials, r - 1, fallen.None?);
      PartialStops(s, r, fallen);
    }
    hide RunningNodes, LastNode, T.Allowed, T.Apply;
  }

  lemma LastStops(s: T.Seen, fallen: T.Option<string>)
    requires T.LastRunning(s)
    ensures var now := T.Apply(s, T.ReduceReplied(T.FINAL, fallen));
      now.maps == s.maps && now.partials == s.partials && now.last == T.Some(T.Replied(s.last.value, fallen.None?))
    ensures LastNode(s.last) == multiset{s.last.value.out.node}
    ensures LastNode(T.Some(T.Replied(s.last.value, fallen.None?))) == multiset{}
  {
  }

  lemma PartialStops(s: T.Seen, r: nat, fallen: T.Option<string>)
    requires 1 <= r <= |s.partials|
    ensures var now := T.Apply(s, T.ReduceReplied(r, fallen));
      now.maps == s.maps && now.last == s.last
      && now.partials == s.partials[r - 1 := T.Replied(s.partials[r - 1], fallen.None?)]
  {
  }

  lemma Found(places: seq<string>, node: string) returns (place: nat)
    requires node in multiset(places)
    ensures place < |places| && places[place] == node
  {
    place :| 0 <= place < |places| && places[place] == node;
  }

  lemma KnownNode(t: L.State, j: nat, place: nat)
    requires L.Inv(t) && j < |t.jobs| && place < |t.jobs[j].reduces|
    ensures t.jobs[j].reduces[place] in t.nodes
  {
    L.ReducingAtLeast(t.jobs, j, place);
  }

  lemma MapSentAgrees(combiner: bool, job: L.JobLoad, s: T.Seen, m: nat, out: T.TempFile, b: nat)
    requires Agrees(job, s) && T.Allowed(combiner, s, T.MapSent(m, out, b))
    ensures var place := L.MapPlace(out.node, b, true);
      Agrees(job.(maps := if m < |job.maps| then job.maps[m := place] else job.maps + [place]),
        T.Apply(s, T.MapSent(m, out, b)))
  {
    hide RunningNodes, LastNode, NodeIfRunning;
  }

  lemma MapRepliedAgrees(combiner: bool, job: L.JobLoad, s: T.Seen, m: nat, ok: bool)
    requires Agrees(job, s) && T.Allowed(combiner, s, T.MapReplied(m, ok))
    ensures Agrees(job.(maps := job.maps[m := job.maps[m].(running := false)]), T.Apply(s, T.MapReplied(m, ok)))
  {
    hide RunningNodes;
  }

  lemma ReduceSentAgrees(combiner: bool, job: L.JobLoad, s: T.Seen, e: T.Event)
    requires Agrees(job, s) && T.Allowed(combiner, s, e) && e.ReduceSent?
    ensures Agrees(job.(reduces := job.reduces + [e.out.node]), T.Apply(s, e))
  {
    hide Waiting, T.Allowed, T.Apply;
    ReduceStarts(combiner, s, e);
  }

  lemma ReduceRepliedAgrees(combiner: bool, job: L.JobLoad, s: T.Seen, r: nat, fallen: T.Option<string>)
    returns (place: nat)
    requires Agrees(job, s) && T.Allowed(combiner, s, T.ReduceReplied(r, fallen))
    ensures place < |job.reduces|
    ensures Agrees(job.(reduces := L.Without(job.reduces, place)), T.Apply(s, T.ReduceReplied(r, fallen)))
  {
    hide Waiting, T.Allowed, T.Apply, L.Without;
    var node := ReduceStops(combiner, s, r, fallen);
    place := Found(job.reduces, node);
    L.WithoutOne(job.reduces, place);
  }

  /** The step can happen and keeps accounting and conversation together. */
  ghost predicate Follows(t: L.State, j: nat, s: T.Seen, e: T.Event, step: L.Step)
    requires j < |t.jobs|
  {
    && Accounts(j, s, e, step) && L.Enabled(t, step)
    && |L.Apply(t, step).jobs| == |t.jobs| && Agrees(L.Apply(t, step).jobs[j], T.Apply(s, e))
  }

  lemma MapSentFollows(combiner: bool, t: L.State, j: nat, s: T.Seen, m: nat, out: T.TempFile, b: nat)
    requires j < |t.jobs| && Agrees(t.jobs[j], s) && T.Allowed(combiner, s, T.MapSent(m, out, b)) && out.node in t.nodes
    ensures Follows(t, j, s, T.MapSent(m, out, b),
                    if m < |s.maps| then L.MapReplanned(j, m, out.node, b) else L.MapPlanned(j, out.node, b))
  {
    hide RunningNodes, LastNode;
    MapSentAgrees(combiner, t.jobs[j], s, m, out, b);
  }

  lemma MapRepliedFollows(combiner: bool, t: L.State, j: nat, s: T.Seen, m: nat, ok: bool)
    requires j < |t.jobs| && Agrees(t.jobs[j], s) && T.Allowed(combiner, s, T.MapReplied(m, ok))
    ensures Follows(t, j, s, T.MapReplied(m, ok), L.MapReplied(j, m))
  {
    hide RunningNodes, LastNode;
    MapRepliedAgrees(combiner, t.jobs[j], s, m, ok);
  }

  lemma ReduceSentFollows(combiner: bool, t: L.State, j: nat, s: T.Seen, e: T.Event)
    requires j < |t.jobs| && Agrees(t.jobs[j], s) && T.Allowed(combiner, s, e) && e.ReduceSent? && e.out.node in t.nodes
    ensures Follows(t, j, s, e, L.ReduceOrdered(j, e.out.node))
  {
    ReduceSentAgrees(combiner, t.jobs[j], s, e);
    hide Agrees, T.Allowed, T.Apply;
  }

  lemma ReduceRepliedFollows(combiner: bool, t: L.State, j: nat, s: T.Seen, r: nat, fallen: T.Option<string>)
    returns (place: nat)
    requires L.Inv(t) && j < |t.jobs| && Agrees(t.jobs[j], s) && T.Allowed(combiner, s, T.ReduceReplied(r, fallen))
    ensures Follows(t, j, s, T.ReduceReplied(r, fallen), L.ReduceReplied(j, place))
  {
    hide Agrees, T.Allowed, T.Apply, L.Inv, L.Without;
    place := ReduceRepliedAgrees(combiner, t.jobs[j], s, r, fallen);
    KnownNode(t, j, place);
  }

  /** Every message of a legal conversation about orders comes with a step of the accounting that can happen, whatever
      the other jobs have done to the state, and the two stay together. */
  lemma MessageIsAccounted(combiner: bool, t: L.State, j: nat, s: T.Seen, e: T.Event) returns (step: L.Step)
    requires L.Inv(t) && j < |t.jobs| && Agrees(t.jobs[j], s) && T.Allowed(combiner, s, e)
    requires !e.CopyReplied? && !e.DieSent?
    requires (e.MapSent? || e.ReduceSent?) ==> e.out.node in t.nodes
    ensures Follows(t, j, s, e, step)
  {
    hide L.Inv, Agrees, Follows, T.Allowed;
    match e
    case MapSent(m, out, b) =>
      step := if m < |s.maps| then L.MapReplanned(j, m, out.node, b) else L.MapPlanned(j, out.node, b);
      MapSentFollows(combiner, t, j, s, m, out, b);
    case MapReplied(m, ok) =>
      step := L.MapReplied(j, m);
      MapRepliedFollows(combiner, t, j, s, m, ok);
    case ReduceSent(_, out, _) =>
      step := L.ReduceOrdered(j, out.node);
      ReduceSentFollows(combiner, t, j, s, e);
    case ReduceReplied(r, fallen) =>
      var place := ReduceRepliedFollows(combiner, t, j, s, r, fallen);
      step := L.ReduceReplied(j, place);
  }
}
