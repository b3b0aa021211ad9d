/** The load MaRTA keeps for every node while any number of jobs plan, fail and die
    (MaRTA/src/structs/node.c, MaRTA/src/structs/job.c). */
module MartaLoad {
  import opened Bytes
  import opened Wire

  /** The counter of reduces has 16 bits: counting up at the width and down at zero wraps around. */
  function Wrap(x: int): nat {
    x % LIMIT16
  }

  /** The list of block numbers of a node's maps, and the number of its reduces. */
  datatype NodeLoad = NodeLoad(maps: seq<nat>, reduces: nat)

  /** A map of a job: where it was ordered last, and whether that order still waits for its reply. */
  datatype MapPlace = MapPlace(node: string, block: nat, running: bool)

  /** A job: its maps, and the nodes of its reduce orders without a reply. A job that is gone has neither. */
  datatype JobLoad = JobLoad(maps: seq<MapPlace>, reduces: seq<string>)

  /** lost holds the nodes of the reduce orders whose job died before the reply. */
  datatype State = State(nodes: map<string, NodeLoad>, jobs: seq<JobLoad>, lost: multiset<string>)

  datatype Step =
    | NodeSeen(node: string)
    | JobAccepted
    | MapPlanned(job: nat, node: string, block: nat)
    | MapReplanned(job: nat, task: nat, node: string, block: nat)
    | MapReplied(job: nat, task: nat)
    | BlockSkipped(job: nat)
    | ReduceOrdered(job: nat, node: string)
    | ReduceReplied(job: nat, place: nat)
    | JobFreed(job: nat)

  const START: State := State(map[], [], multiset{})

  /** list_remove_by_condition: only the first entry goes. */
  function RemoveFirst(blocks: seq<nat>, b: nat): seq<nat> {
    if blocks == [] then [] else
    if blocks[0] == b then blocks[1..] else [blocks[0]] + RemoveFirst(blocks[1..], b)
  }

  lemma {:induction false} OneEntryLess(blocks: seq<nat>, b: nat)
    ensures multiset(RemoveFirst(blocks, b)) == multiset(blocks) - multiset{b}
  {
    if blocks != [] {
      assert blocks == [blocks[0]] + blocks[1..];
      if blocks[0] != b {
        OneEntryLess(blocks[1..], b);
      }
    }
  }

  function RemoveMapNode(nodes: map<string, NodeLoad>, p: MapPlace): map<string, NodeLoad>
  {
    if p.node in nodes then nodes[p.node := nodes[p.node].(maps := RemoveFirst(nodes[p.node].maps, p.block))] else nodes
  }

  function RemoveMapNodes(nodes: map<string, NodeLoad>, maps: seq<MapPlace>): (r: map<string, NodeLoad>)
    ensures r.Keys == nodes.Keys
  {
    if maps == [] then nodes else RemoveMapNode(RemoveMapNodes(nodes, maps[..|maps| - 1]), maps[|maps| - 1])
  }

  function Without(places: seq<string>, i: nat): seq<string>
    requires i < |places|
  {
    places[..i] + places[i + 1..]
  }

  /** What has to be so for the step to happen: nodes are known, and only an order without reply gets one. */
  predicate Enabled(s: State, step: Step) {
    match step
    case NodeSeen(_) => true
    case JobAccepted => true
    case MapPlanned(j, n, _) => j < |s.jobs| && n in s.nodes
    case MapReplanned(j, m, n, _) => j < |s.jobs| && n in s.nodes && m < |s.jobs[j].maps| && !s.jobs[j].maps[m].running
    case MapReplied(j, m) => j < |s.jobs| && m < |s.jobs[j].maps| && s.jobs[j].maps[m].running
    case BlockSkipped(j) => j < |s.jobs|
    case ReduceOrdered(j, n) => j < |s.jobs| && n in s.nodes
    case ReduceReplied(j, r) => j < |s.jobs| && r < |s.jobs[j].reduces| && s.jobs[j].reduces[r] in s.nodes
    case JobFreed(j) => j < |s.jobs|
  }

  function Apply(s: State, step: Step): State
    requires Enabled(s, step)
  {
    match step
    case NodeSeen(n) => if n in s.nodes then s else s.(nodes := s.nodes[n := NodeLoad([], 0)])
    case JobAccepted => s.(jobs := s.jobs + [JobLoad([], [])])
    case MapPlanned(j, n, b) =>
      s.(nodes := s.nodes[n := s.nodes[n].(maps := s.nodes[n].maps + [b])],
         jobs := s.jobs[j := s.jobs[j].(maps := s.jobs[j].maps + [MapPlace(n, b, true)])])
    case MapReplanned(j, m, n, b) =>
      s.(jobs := s.jobs[j := s.jobs[j].(maps := s.jobs[j].maps[m := MapPlace(n, b, true)])])
    case MapReplied(j, m) =>
      var p := s.jobs[j].maps[m];
      s.(nodes := RemoveMapNode(s.nodes, p),
         jobs := s.jobs[j := s.jobs[j].(maps := s.jobs[j].maps[m := p.(running := false)])])
    case BlockSkipped(j) => s.(nodes := RemoveMapNodes(s.nodes, s.jobs[j].maps))
    case ReduceOrdered(j, n) =>
      s.(nodes := s.nodes[n := s.nodes[n].(reduces := Wrap(s.nodes[n].reduces + 1))],
         jobs := s.jobs[j := s.jobs[j].(reduces := s.jobs[j].reduces + [n])])
    case ReduceReplied(j, r) =>
      var n := s.jobs[j].reduces[r];
      s.(nodes := s.nodes[n := s.nodes[n].(reduces := Wrap(s.nodes[n].reduces - 1))],
         jobs := s.jobs[j := s.jobs[j].(reduces := Without(s.jobs[j].reduces, r))])
    case JobFreed(j) =>
      s.(nodes := RemoveMapNodes(s.nodes, s.jobs[j].maps), jobs := s.jobs[j := JobLoad([], [])],
         lost := s.lost + multiset(s.jobs[j].reduces))
  }

  /** Map orders for a block of a node that wait for a reply. */
  function RunningAt(maps: seq<MapPlace>, n: string, b: nat): nat {
    if maps == [] then 0
    else RunningAt(maps[..|maps| - 1], n, b) + One(maps[|maps| - 1], n, b)
  }

  function One(p: MapPlace, n: string, b: nat): nat {
    if p == MapPlace(n, b, true) then 1 else 0
  }

  function Running(jobs: seq<JobLoad>, n: string, b: nat): nat {
    if jobs == [] then 0 else Running(jobs[..|jobs| - 1], n, b) + RunningAt(jobs[|jobs| - 1].maps, n, b)
  }

  /** Reduce orders for a node that wait for a reply. */
  function Reducing(jobs: seq<JobLoad>, n: string): nat {
    if jobs == [] then 0 else Reducing(jobs[..|jobs| - 1], n) + multiset(jobs[|jobs| - 1].reduces)[n]
  }

  /** The map load never exceeds the outstanding orders, block by block. */
  ghost predicate MapLoadBounded(s: State) {
    forall n, b :: n in s.nodes ==> multiset(s.nodes[n].maps)[b] <= Running(s.jobs, n, b)
  }

  /** The reduce counter is the outstanding reduce orders and the lost ones, as far as 16 bits can tell. */
  ghost predicate ReducesCounted(s: State) {
    forall n :: n in s.nodes ==> s.nodes[n].reduces == Wrap(Reducing(s.jobs, n) + s.lost[n])
  }

  /** Nothing is outstanding or lost on a node MaRTA has not seen. */
  ghost predicate Known(s: State) {
    && (forall n, b :: n !in s.nodes ==> Running(s.jobs, n, b) == 0)
    && forall n :: n !in s.nodes ==> Reducing(s.jobs, n) + s.lost[n] == 0
  }

  ghost predicate Inv(s: State) {
    MapLoadBounded(s) && ReducesCounted(s) && Known(s)
  }

  lemma {:induction false} RunningUpdate(jobs: seq<JobLoad>, j: nat, x: JobLoad, n: string, b: nat)
    requires j < |jobs|
    ensures Running(jobs[j := x], n, b) + RunningAt(jobs[j].maps, n, b) == Running(jobs, n, b) + RunningAt(x.maps, n, b)
    decreases |jobs|
  {
    var k := |jobs| - 1;
    if j < k {
      RunningUpdate(jobs[..k], j, x, n, b);
      assert jobs[j := x][..k] == jobs[..k][j := x];
    } else {
      assert jobs[j := x][..k] == jobs[..k];
    }
  }

  lemma {:induction false} ReducingUpdate(jobs: seq<JobLoad>, j: nat, x: JobLoad, n: string)
    requires j < |jobs|
    ensures Reducing(jobs[j := x], n) + multiset(jobs[j].reduces)[n] == Reducing(jobs, n) + multiset(x.reduces)[n]
    decreases |jobs|
  {
    var k := |jobs| - 1;
    if j < k {
      ReducingUpdate(jobs[..k], j, x, n);
      assert jobs[j := x][..k] == jobs[..k][j := x];
    } else {
      assert jobs[j := x][..k] == jobs[..k];
    }
  }

  lemma {:induction false} RunningAtUpdate(maps: seq<MapPlace>, m: nat, p: MapPlace, n: string, b: nat)
    requires m < |maps|
    ensures RunningAt(maps[m := p], n, b) + One(maps[m], n, b) == RunningAt(maps, n, b) + One(p, n, b)
    decreases |maps|
  {
    var k := |maps| - 1;
    if m < k {
      RunningAtUpdate(maps[..k], m, p, n, b);
      assert maps[m := p][..k] == maps[..k][m := p];
    } else {
      assert maps[m := p][..k] == maps[..k];
    }
  }

  lemma RunningAtAppend(maps: seq<MapPlace>, p: MapPlace, n: string, b: nat)
    ensures RunningAt(maps + [p], n, b) == RunningAt(maps, n, b) + One(p, n, b)
  {
    assert (maps + [p])[..|maps|] == maps;
  }

  /** How often a block is in the load list of a node. */
  function LoadOf(nodes: map<string, NodeLoad>, n: string, b: nat): nat {
    if n in nodes then multiset(nodes[n].maps)[b] else 0
  }

  lemma RemovedOne(nodes: map<string, NodeLoad>, p: MapPlace, n: string, b: nat)
    ensures LoadOf(RemoveMapNode(nodes, p), n, b) ==
      LoadOf(nodes, n, b) - if p.node == n && p.block == b && LoadOf(nodes, n, b) > 0 then 1 else 0
  {
    hide RemoveFirst;
    if p.node in nodes {
      OneEntryLess(nodes[p.node].maps, p.block);
    }
  }

  lemma RemovedEntry(nodes: map<string, NodeLoad>, p: MapPlace)
    ensures forall n, b: nat :: var load := LoadOf(nodes, n, b);
      LoadOf(RemoveMapNode(nodes, p), n, b) == if p.node == n && p.block == b && load > 0 then load - 1 else load
    ensures RemoveMapNode(nodes, p).Keys == nodes.Keys
    ensures forall n :: n in nodes ==> RemoveMapNode(nodes, p)[n].reduces == nodes[n].reduces
  {
    forall n, b: nat ensures var load := LoadOf(nodes, n, b);
      LoadOf(RemoveMapNode(nodes, p), n, b) == if p.node == n && p.block == b && load > 0 then load - 1 else load
    {
      RemovedOne(nodes, p, n, b);
    }
  }

  /** The places at which a map of the list is of a block on a node, waiting for a reply or not. */
  function PlacesOf(maps: seq<MapPlace>, n: string, b: nat): set<nat> {
    set i: nat | i < |maps| && maps[i].node == n && maps[i].block == b
  }

  lemma OnePlaceMore(maps: seq<MapPlace>, p: MapPlace, n: string, b: nat)
    ensures |PlacesOf(maps + [p], n, b)| == |PlacesOf(maps, n, b)| + if p.node == n && p.block == b then 1 else 0
  {
    var was, now := PlacesOf(maps, n, b), PlacesOf(maps + [p], n, b);
    if p.node == n && p.block == b {
      assert now == was + {|maps|};
    } else {
      assert now == was;
    }
  }

  /** Releasing the load of some maps takes one entry for every one of them from its block on its node, as long as there
      are any, and nothing else; the reduces stay. */
  lemma {:induction false} ReleasedExactly(nodes: map<string, NodeLoad>, maps: seq<MapPlace>, n: string, b: nat)
    ensures var load, gone := LoadOf(nodes, n, b), |PlacesOf(maps, n, b)|;
      LoadOf(RemoveMapNodes(nodes, maps), n, b) == if load <= gone then 0 else load - gone
    ensures n in nodes ==> RemoveMapNodes(nodes, maps)[n].reduces == nodes[n].reduces
  {
    if maps == [] {
      assert PlacesOf(maps, n, b) == {};
    } else {
      var k := |maps| - 1;
      ReleasedExactly(nodes, maps[..k], n, b);
      RemovedOne(RemoveMapNodes(nodes, maps[..k]), maps[k], n, b);
      OnePlaceMore(maps[..k], maps[k], n, b);
      assert maps == maps[..k] + [maps[k]];
      hide RemoveFirst, PlacesOf;
    }
  }

  /** The same for all blocks of all nodes. */
  ghost predicate Released(was: map<string, NodeLoad>, now: map<string, NodeLoad>, maps: seq<MapPlace>) {
    && now.Keys == was.Keys
    && (forall n, b: nat :: var load, gone := LoadOf(was, n, b), |PlacesOf(maps, n, b)|;
          LoadOf(now, n, b) == if load <= gone then 0 else load - gone)
    && forall n :: n in was ==> now[n].reduces == was[n].reduces
  }

  lemma ReleasedAll(nodes: map<string, NodeLoad>, maps: seq<MapPlace>)
    ensures Released(nodes, RemoveMapNodes(nodes, maps), maps)
  {
    hide RemoveMapNodes, LoadOf, PlacesOf;
    forall n, b: nat
      ensures var load, gone := LoadOf(nodes, n, b), |PlacesOf(maps, n, b)|;
      LoadOf(RemoveMapNodes(nodes, maps), n, b) == if load <= gone then 0 else load - gone
    {
      ReleasedExactly(nodes, maps, n, b);
    }
    forall n | n in nodes ensures RemoveMapNodes(nodes, maps)[n].reduces == nodes[n].reduces {
      ReleasedExactly(nodes, maps, n, 0);
    }
  }

  /** A block of a node of which none of the maps is keeps its load. */
  lemma OthersKeepTheirLoad(nodes: map<string, NodeLoad>, maps: seq<MapPlace>, n: string, b: nat)
    requires forall i :: 0 <= i < |maps| ==> !(maps[i].node == n && maps[i].block == b)
    ensures LoadOf(RemoveMapNodes(nodes, maps), n, b) == LoadOf(nodes, n, b)
  {
    ReleasedExactly(nodes, maps, n, b);
    assert PlacesOf(maps, n, b) == {};
  }

  lemma {:induction false} RunningIsPlaced(maps: seq<MapPlace>, n: string, b: nat)
    ensures RunningAt(maps, n, b) <= |PlacesOf(maps, n, b)|
  {
    if maps != [] {
      var k := |maps| - 1;
      RunningIsPlaced(maps[..k], n, b);
      OnePlaceMore(maps[..k], maps[k], n, b);
      assert maps == maps[..k] + [maps[k]];
    }
  }

  /** Taking out an entry for every map of a job takes out at least one for every order it has outstanding, if there are
      that many, and leaves the reduces alone. */
  lemma RemovedAll(nodes: map<string, NodeLoad>, maps: seq<MapPlace>, n: string, b: nat)
    requires n in nodes
    ensures var now := RemoveMapNodes(nodes, maps)[n];
      now.reduces == nodes[n].reduces &&
      multiset(now.maps)[b] <= multiset(nodes[n].maps)[b] &&
      (multiset(now.maps)[b] == 0 || multiset(now.maps)[b] + RunningAt(maps, n, b) <= multiset(nodes[n].maps)[b])
  {
    hide RemoveMapNodes, RunningAt, PlacesOf;
    ReleasedExactly(nodes, maps, n, b);
    RunningIsPlaced(maps, n, b);
  }

  lemma {:induction false} WithoutOne(places: seq<string>, i: nat)
    requires i < |places|
    ensures multiset(Without(places, i)) == multiset(places) - multiset{places[i]}
    ensures multiset(places)[places[i]] > 0
  {
    assert places == places[..i] + [places[i]] + places[i + 1..];
  }

  /** The map orders for a block of a node that a step adds to those outstanding. */
  function OrdersAdded(s: State, step: Step, n: string, b: nat): int
    requires Enabled(s, step)
  {
    match step
    case MapPlanned(_, n', b') => One(MapPlace(n', b', true), n, b)
    case MapReplanned(_, _, n', b') => One(MapPlace(n', b', true), n, b)
    case MapReplied(j, m) => 0 - One(s.jobs[j].maps[m], n, b)
    case JobFreed(j) => 0 - RunningAt(s.jobs[j].maps, n, b)
    case _ => 0
  }

  function Waiting(job: JobLoad, n: string): nat {
    multiset(job.reduces)[n]
  }

  function ReducesAdded(s: State, step: Step, n: string): int
    requires Enabled(s, step)
  {
    match step
    case ReduceOrdered(_, n') => if n == n' then 1 else 0
    case ReduceReplied(j, r) => if n == s.jobs[j].reduces[r] then -1 else 0
    case JobFreed(j) => 0 - Waiting(s.jobs[j], n)
    case _ => 0
  }

  lemma OrdersAfter(s: State, step: Step, n: string, b: nat)
    requires Enabled(s, step)
    ensures Running(Apply(s, step).jobs, n, b) == Running(s.jobs, n, b) + OrdersAdded(s, step, n, b)
  {
    match step
    case JobAccepted =>
      assert (s.jobs + [JobLoad([], [])])[..|s.jobs|] == s.jobs;
    case MapPlanned(j, n', b') =>
      RunningUpdate(s.jobs, j, s.jobs[j].(maps := s.jobs[j].maps + [MapPlace(n', b', true)]), n, b);
      RunningAtAppend(s.jobs[j].maps, MapPlace(n', b', true), n, b);
    case MapReplanned(j, m, n', b') =>
      RunningUpdate(s.jobs, j, s.jobs[j].(maps := s.jobs[j].maps[m := MapPlace(n', b', true)]), n, b);
      RunningAtUpdate(s.jobs[j].maps, m, MapPlace(n', b', true), n, b);
    case MapReplied(j, m) =>
      var p := s.jobs[j].maps[m].(running := false);
      RunningUpdate(s.jobs, j, s.jobs[j].(maps := s.jobs[j].maps[m := p]), n, b);
      RunningAtUpdate(s.jobs[j].maps, m, p, n, b);
    case ReduceOrdered(j, n') =>
      RunningUpdate(s.jobs, j, s.jobs[j].(reduces := s.jobs[j].reduces + [n']), n, b);
    case ReduceReplied(j, r) =>
      RunningUpdate(s.jobs, j, s.jobs[j].(reduces := Without(s.jobs[j].reduces, r)), n, b);
    case JobFreed(j) =>
      RunningUpdate(s.jobs, j, JobLoad([], []), n, b);
    case _ =>
  }

  lemma ReducesAfter(s: State, step: Step, n: string)
    requires Enabled(s, step)
    ensures Reducing(Apply(s, step).jobs, n) == Reducing(s.jobs, n) + ReducesAdded(s, step, n)
  {
    match step
    case JobAccepted =>
      assert (s.jobs + [JobLoad([], [])])[..|s.jobs|] == s.jobs;
    case MapPlanned(j, n', b') =>
      ReducingUpdate(s.jobs, j, s.jobs[j].(maps := s.jobs[j].maps + [MapPlace(n', b', true)]), n);
    case MapReplanned(j, m, n', b') =>
      ReducingUpdate(s.jobs, j, s.jobs[j].(maps := s.jobs[j].maps[m := MapPlace(n', b', true)]), n);
    case MapReplied(j, m) =>
      ReducingUpdate(s.jobs, j, s.jobs[j].(maps := s.jobs[j].maps[m := s.jobs[j].maps[m].(running := false)]), n);
    case ReduceOrdered(j, n') =>
      ReducingUpdate(s.jobs, j, s.jobs[j].(reduces := s.jobs[j].reduces + [n']), n);
    case ReduceReplied(j, r) =>
      ReducingUpdate(s.jobs, j, s.jobs[j].(reduces := Without(s.jobs[j].reduces, r)), n);
      WithoutOne(s.jobs[j].reduces, r);
    case JobFreed(j) =>
      ReducingUpdate(s.jobs, j, JobLoad([], []), n);
    case _ =>
  }

  /** What a step adds to the load of a block on a node. */
  function LoadAdded(s: State, step: Step, n: string, b: nat): int
    requires Enabled(s, step)
  {
    match step
    case MapPlanned(_, n', b') => if n == n' && b == b' then 1 else 0
    case MapReplied(j, m) => if s.jobs[j].maps[m] == MapPlace(n, b, true) && LoadOf(s.nodes, n, b) > 0 then -1 else 0
    case BlockSkipped(j) => 0 - Min(LoadOf(s.nodes, n, b), |PlacesOf(s.jobs[j].maps, n, b)|)
    case JobFreed(j) => 0 - Min(LoadOf(s.nodes, n, b), |PlacesOf(s.jobs[j].maps, n, b)|)
    case _ => 0
  }

  lemma LoadAfter(s: State, step: Step, n: string, b: nat)
    requires Enabled(s, step)
    ensures LoadOf(Apply(s, step).nodes, n, b) == LoadOf(s.nodes, n, b) + LoadAdded(s, step, n, b)
  {
    hide RemoveFirst, RemoveMapNode, RemoveMapNodes;
    match step
    case MapPlanned(j, n', b') => AddedOne(s.nodes, n', b', n, b);
    case MapReplied(j, m) => RemovedOne(s.nodes, s.jobs[j].maps[m], n, b);
    case BlockSkipped(j) => ReleasedExactly(s.nodes, s.jobs[j].maps, n, b);
    case JobFreed(j) => ReleasedExactly(s.nodes, s.jobs[j].maps, n, b);
    case _ =>
  }

  lemma AddedOne(nodes: map<string, NodeLoad>, n': string, b': nat, n: string, b: nat)
    requires n' in nodes
    ensures LoadOf(nodes[n' := nodes[n'].(maps := nodes[n'].maps + [b'])], n, b) ==
      LoadOf(nodes, n, b) + if n == n' && b == b' then 1 else 0
  {
  }

  lemma OneLoad(s: State, step: Step, n: string, b: nat)
    requires Enabled(s, step) && LoadOf(s.nodes, n, b) <= Running(s.jobs, n, b)
    ensures LoadOf(Apply(s, step).nodes, n, b) <= Running(Apply(s, step).jobs, n, b)
  {
    OrdersAfter(s, step, n, b);
    LoadAfter(s, step, n, b);
    hide Running, Apply;
    if n in s.nodes {
      match step
      case BlockSkipped(j) => RemovedAll(s.nodes, s.jobs[j].maps, n, b);
      case JobFreed(j) => RemovedAll(s.nodes, s.jobs[j].maps, n, b);
      case _ =>
    }
  }

  /** By how much a step moves the reduce counter of a node. */
  function Moved(s: State, step: Step, n: string): int
    requires Enabled(s, step)
  {
    match step
    case ReduceOrdered(_, n') => if n == n' then 1 else 0
    case ReduceReplied(j, r) => if n == s.jobs[j].reduces[r] then -1 else 0
    case _ => 0
  }

  function Turned(counter: nat, change: int): nat {
    if change == 0 then counter else Wrap(counter + change)
  }

  lemma CounterAfter(s: State, step: Step, n: string)
    requires Enabled(s, step) && n in Apply(s, step).nodes
    ensures Apply(s, step).nodes[n].reduces == Turned(if n in s.nodes then s.nodes[n].reduces else 0, Moved(s, step, n))
  {
    match step
    case BlockSkipped(j) => RemovedAll(s.nodes, s.jobs[j].maps, n, 0);
    case JobFreed(j) => RemovedAll(s.nodes, s.jobs[j].maps, n, 0);
    case _ =>
  }

  /** A reduce order stays accounted for when its job dies: it moves from the outstanding to the lost ones. */
  lemma TotalAfter(s: State, step: Step, n: string)
    requires Enabled(s, step)
    ensures Reducing(Apply(s, step).jobs, n) + Apply(s, step).lost[n] ==
      Reducing(s.jobs, n) + s.lost[n] + Moved(s, step, n)
  {
    ReducesAfter(s, step, n);
    hide Reducing;
  }

  lemma TurnedTotal(total: nat, change: int)
    requires -1 <= change <= 1 && total + change >= 0
    ensures Turned(Wrap(total), change) == Wrap(total + change)
  {
  }

  lemma Unwrapped(total: nat)
    requires total < LIMIT16
    ensures Wrap(total) == total
  {
  }

  lemma OneCounter(s: State, step: Step, n: string)
    requires Enabled(s, step) && n in Apply(s, step).nodes
    requires n in s.nodes ==> s.nodes[n].reduces == Wrap(Reducing(s.jobs, n) + s.lost[n])
    requires n !in s.nodes ==> Reducing(s.jobs, n) + s.lost[n] == 0
    ensures Apply(s, step).nodes[n].reduces == Wrap(Reducing(Apply(s, step).jobs, n) + Apply(s, step).lost[n])
  {
    hide Apply, Reducing, Turned, Enabled, Wrap, RemoveMapNodes, RemoveMapNode;
    CounterAfter(s, step, n);
    TotalAfter(s, step, n);
    Unwrapped(0);
    TurnedTotal(Reducing(s.jobs, n) + s.lost[n], Moved(s, step, n));
  }

  lemma StepKeepsMapLoad(s: State, step: Step)
    requires Inv(s) && Enabled(s, step)
    ensures MapLoadBounded(Apply(s, step))
  {
    hide Apply, Running, Enabled;
    forall n, b | n in Apply(s, step).nodes
      ensures multiset(Apply(s, step).nodes[n].maps)[b] <= Running(Apply(s, step).jobs, n, b)
    {
      assert n in s.nodes ==> multiset(s.nodes[n].maps)[b] <= Running(s.jobs, n, b);
      OneLoad(s, step, n, b);
    }
  }

  lemma StepKeepsReduces(s: State, step: Step)
    requires Inv(s) && Enabled(s, step)
    ensures ReducesCounted(Apply(s, step))
  {
    hide Apply, Reducing, Enabled;
    forall n | n in Apply(s, step).nodes
      ensures Apply(s, step).nodes[n].reduces == Wrap(Reducing(Apply(s, step).jobs, n) + Apply(s, step).lost[n])
    {
      assert n !in s.nodes ==> Reducing(s.jobs, n) + s.lost[n] == 0;
      OneCounter(s, step, n);
    }
  }

  lemma StepKeepsKnown(s: State, step: Step)
    requires Inv(s) && Enabled(s, step)
    ensures Known(Apply(s, step))
  {
    var t := Apply(s, step);
    forall n, b | n !in t.nodes ensures Running(t.jobs, n, b) == 0 {
      OrdersAfter(s, step, n, b);
      assert Running(s.jobs, n, b) == 0;
    }
    forall n | n !in t.nodes ensures Reducing(t.jobs, n) + t.lost[n] == 0 {
      ReducesAfter(s, step, n);
      assert Reducing(s.jobs, n) + s.lost[n] == 0;
    }
  }

  /** The state after a run; steps that cannot happen are passed over. */
  function Run(steps: seq<Step>): State {
    if steps == [] then START else
    var s := Run(steps[..|steps| - 1]);
    if Enabled(s, steps[|steps| - 1]) then Apply(s, steps[|steps| - 1]) else s
  }

  /** In every state that any jobs can reach: the map load of a node is at most its outstanding map orders, block by
      block, and its reduce counter is its outstanding and lost reduce orders modulo the width of the counter. */
  lemma {:induction false} RunKeeps(steps: seq<Step>)
    ensures Inv(Run(steps))
  {
    if steps != [] {
      RunKeeps(steps[..|steps| - 1]);
      var s := Run(steps[..|steps| - 1]);
      if Enabled(s, steps[|steps| - 1]) {
        StepKeepsMapLoad(s, steps[|steps| - 1]);
        StepKeepsReduces(s, steps[|steps| - 1]);
        StepKeepsKnown(s, steps[|steps| - 1]);
      }
    }
  }

  lemma {:induction false} ReducingAtLeast(jobs: seq<JobLoad>, j: nat, r: nat)
    requires j < |jobs| && r < |jobs[j].reduces|
    ensures Reducing(jobs, jobs[j].reduces[r]) > 0
    decreases |jobs|
  {
    var k := |jobs| - 1;
    if j < k {
      ReducingAtLeast(jobs[..k], j, r);
    } else {
      WithoutOne(jobs[j].reduces, r);
    }
  }

  /** Below the width of the counter, it is the outstanding and the lost reduce orders of the node: never under the
      outstanding ones, and equal to them when no job died waiting. */
  lemma CounterIsExact(steps: seq<Step>, n: string)
    requires n in Run(steps).nodes && Reducing(Run(steps).jobs, n) + Run(steps).lost[n] < LIMIT16
    ensures Run(steps).nodes[n].reduces == Reducing(Run(steps).jobs, n) + Run(steps).lost[n]
  {
    hide Run, Reducing, Wrap;
    RunKeeps(steps);
    Exact(Run(steps), n);
  }

  lemma Exact(s: State, n: string)
    requires ReducesCounted(s) && n in s.nodes && Reducing(s.jobs, n) + s.lost[n] < LIMIT16
    ensures s.nodes[n].reduces == Reducing(s.jobs, n) + s.lost[n]
  {
    hide Reducing, Wrap;
    Unwrapped(Reducing(s.jobs, n) + s.lost[n]);
  }

  /** A reply then takes the counter down by one instead of wrapping. */
  lemma CounterNeverWraps(steps: seq<Step>, j: nat, r: nat)
    requires Enabled(Run(steps), ReduceReplied(j, r))
    requires var n := Run(steps).jobs[j].reduces[r]; Reducing(Run(steps).jobs, n) + Run(steps).lost[n] < LIMIT16
    ensures var n := Run(steps).jobs[j].reduces[r];
      Apply(Run(steps), ReduceReplied(j, r)).nodes[n].reduces == Run(steps).nodes[n].reduces - 1
  {
    RunKeeps(steps);
    hide Run;
    OneDown(Run(steps), j, r);
  }

  lemma OneDown(s: State, j: nat, r: nat)
    requires ReducesCounted(s) && Enabled(s, ReduceReplied(j, r))
    requires Reducing(s.jobs, s.jobs[j].reduces[r]) + s.lost[s.jobs[j].reduces[r]] < LIMIT16
    ensures var n := s.jobs[j].reduces[r]; Apply(s, ReduceReplied(j, r)).nodes[n].reduces == s.nodes[n].reduces - 1
  {
    var n := s.jobs[j].reduces[r];
    hide Reducing, Wrap;
    Exact(s, n);
    ReducingAtLeast(s.jobs, j, r);
    Unwrapped(s.nodes[n].reduces - 1);
  }

  /** The map load is a lower bound and no more: planning a map again adds an order and no load, so a load that was
      exact no longer is. */
  lemma ReplanningAddsNoLoad(s: State, j: nat, m: nat, n: string, b: nat)
    requires Enabled(s, MapReplanned(j, m, n, b)) && multiset(s.nodes[n].maps)[b] <= Running(s.jobs, n, b)
    ensures var t := Apply(s, MapReplanned(j, m, n, b)); multiset(t.nodes[n].maps)[b] < Running(t.jobs, n, b)
  {
    OrdersAfter(s, MapReplanned(j, m, n, b), n, b);
  }

  predicate Plain(step: Step) {
    !step.MapReplanned? && !step.BlockSkipped? && !step.JobFreed?
  }

  lemma PlainStep(s: State, step: Step, n: string, b: nat)
    requires Enabled(s, step) && Plain(step) && LoadOf(s.nodes, n, b) == Running(s.jobs, n, b)
    ensures LoadOf(Apply(s, step).nodes, n, b) == Running(Apply(s, step).jobs, n, b)
  {
    OrdersAfter(s, step, n, b);
    LoadAfter(s, step, n, b);
    hide Running, Apply;
  }

  /** Without replanning, skipped blocks and ended jobs the map load is exact. */
  lemma {:induction false} PlainLoadIsExact(steps: seq<Step>, n: string, b: nat)
    requires forall i :: 0 <= i < |steps| ==> Plain(steps[i])
    ensures n in Run(steps).nodes ==> multiset(Run(steps).nodes[n].maps)[b] == Running(Run(steps).jobs, n, b)
  {
    if steps != [] {
      var step := steps[|steps| - 1];
      var s := Run(steps[..|steps| - 1]);
      PlainLoadIsExact(steps[..|steps| - 1], n, b);
      RunKeeps(steps[..|steps| - 1]);
      hide Running, Apply, Enabled;
      if Enabled(s, step) {
        assert n !in s.nodes ==> Running(s.jobs, n, b) == 0;
        PlainStep(s, step, n, b);
      }
    }
  }

  /** Ending a job keeps an exact load exact on a block of a node if and only if the job has no map there whose reply
      has come, or no other job has an order there: one entry goes for every map, whoever it counts for. */
  lemma FreedIsExactIff(s: State, j: nat, n: string, b: nat)
    requires Enabled(s, JobFreed(j)) && LoadOf(s.nodes, n, b) == Running(s.jobs, n, b)
    ensures var t, maps := Apply(s, JobFreed(j)), s.jobs[j].maps;
      LoadOf(t.nodes, n, b) == Running(t.jobs, n, b) <==>
      |PlacesOf(maps, n, b)| == RunningAt(maps, n, b) || Running(s.jobs, n, b) == RunningAt(maps, n, b)
  {
    OrdersAfter(s, JobFreed(j), n, b);
    LoadAfter(s, JobFreed(j), n, b);
    RunningIsPlaced(s.jobs[j].maps, n, b);
    hide Running, RunningAt, Apply, PlacesOf;
  }

  /** Skipping a block keeps it exact if and only if the job has no map there, or no job has an order there. */
  lemma SkippedIsExactIff(s: State, j: nat, n: string, b: nat)
    requires Enabled(s, BlockSkipped(j)) && LoadOf(s.nodes, n, b) == Running(s.jobs, n, b)
    ensures var t := Apply(s, BlockSkipped(j));
      LoadOf(t.nodes, n, b) == Running(t.jobs, n, b) <==>
      PlacesOf(s.jobs[j].maps, n, b) == {} || Running(s.jobs, n, b) == 0
  {
    OrdersAfter(s, BlockSkipped(j), n, b);
    LoadAfter(s, BlockSkipped(j), n, b);
    hide Running, Apply, PlacesOf;
  }

  lemma StepKeeps(s: State, step: Step)
    requires Inv(s) && Enabled(s, step)
    ensures Inv(Apply(s, step))
  {
    StepKeepsMapLoad(s, step);
    StepKeepsReduces(s, step);
    StepKeepsKnown(s, step);
  }

  lemma {:induction false} RemoveFirstAt(blocks: seq<nat>, b: nat, i: nat)
    requires i <= |blocks| && forall k :: 0 <= k < i ==> blocks[k] != b
    requires i < |blocks| ==> blocks[i] == b
    ensures RemoveFirst(blocks, b) == if i < |blocks| then blocks[..i] + blocks[i + 1..] else blocks
  {
    if i > 0 {
      var rest := blocks[1..];
      RemoveFirstAt(rest, b, i - 1);
      assert RemoveFirst(blocks, b) == [blocks[0]] + RemoveFirst(rest, b);
      hide RemoveFirst;
      assert blocks[..i] == [blocks[0]] + rest[..i - 1];
      if i < |blocks| {
        var x, y, z := [blocks[0]], rest[..i - 1], rest[i..];
        assert blocks[i + 1..] == z;
        assert x + (y + z) == x + y + z;
      }
    }
  }

  /** The node list and the jobs that share it. */
  class Scheduler {
    var nodes: map<string, NodeLoad>
    var jobs: seq<JobLoad>
    ghost var lost: multiset<string>

    ghost function Now(): State
      reads this
    {
      State(nodes, jobs, lost)
    }

    ghost predicate Valid()
      reads this
    {
      Inv(Now())
    }

    constructor ()
      ensures Valid() && Now() == START
    {
      nodes, jobs, lost := map[], [], multiset{};
    }

    method UpdateNodes(n: string)
      requires Valid()
      modifies this
      ensures Valid() && Now() == Apply(old(Now()), NodeSeen(n))
    {
      hide Inv;
      StepKeeps(Now(), NodeSeen(n));
      if n !in nodes {
        nodes := nodes[n := NodeLoad([], 0)];
      }
    }

    method AcceptJob()
      requires Valid()
      modifies this
      ensures Valid() && Now() == Apply(old(Now()), JobAccepted)
    {
      hide Inv;
      StepKeeps(Now(), JobAccepted);
      jobs := jobs + [JobLoad([], [])];
    }

    /** Takes the first entry of the block out of the node's list. */
    method RemoveMap(p: MapPlace)
      modifies this`nodes
      ensures nodes == RemoveMapNode(old(nodes), p)
    {
      if p.node in nodes {
        var blocks := nodes[p.node].maps;
        var i := 0;
        while i < |blocks| && blocks[i] != p.block
          invariant i <= |blocks| && forall k :: 0 <= k < i ==> blocks[k] != p.block
        {
          i := i + 1;
        }
        RemoveFirstAt(blocks, p.block, i);
        hide RemoveFirst;
        if i < |blocks| {
          nodes := nodes[p.node := nodes[p.node].(maps := blocks[..i] + blocks[i + 1..])];
        } else {
          assert nodes == nodes[p.node := nodes[p.node].(maps := blocks)];
        }
      }
    }

    method RemoveMaps(maps: seq<MapPlace>)
      modifies this`nodes
      ensures nodes == RemoveMapNodes(old(nodes), maps) && Released(old(nodes), nodes, maps)
    {
      for i := 0 to |maps|
        invariant nodes == RemoveMapNodes(old(nodes), maps[..i])
      {
        assert maps[..i + 1][..i] == maps[..i];
        RemoveMap(maps[i]);
      }
      assert maps[..|maps|] == maps;
      ReleasedAll(old(nodes), maps);
    }

    method PlanMap(j: nat, n: string, b: nat)
      requires Valid() && Enabled(Now(), MapPlanned(j, n, b))
      modifies this
      ensures Valid() && Now() == Apply(old(Now()), MapPlanned(j, n, b))
      ensures nodes == old(nodes)[n := old(nodes)[n].(maps := old(nodes)[n].maps + [b])] && lost == old(lost)
      ensures jobs == old(jobs)[j := old(jobs)[j].(maps := old(jobs)[j].maps + [MapPlace(n, b, true)])]
    {
      hide Inv;
      StepKeeps(Now(), MapPlanned(j, n, b));
      nodes := nodes[n := nodes[n].(maps := nodes[n].maps + [b])];
      jobs := jobs[j := jobs[j].(maps := jobs[j].maps + [MapPlace(n, b, true)])];
    }

    /** A block without a live holder: the load of all maps of the job so far is released. */
    method SkipBlock(j: nat)
      requires Valid() && Enabled(Now(), BlockSkipped(j))
      modifies this
      ensures Valid() && Now() == Apply(old(Now()), BlockSkipped(j))
      ensures forall n, b: nat :: var load, gone := old(LoadOf(nodes, n, b)), |PlacesOf(old(jobs)[j].maps, n, b)|;
        LoadOf(nodes, n, b) == if load <= gone then 0 else load - gone
      ensures nodes.Keys == old(nodes).Keys && forall n :: n in nodes ==> nodes[n].reduces == old(nodes)[n].reduces
      ensures jobs == old(jobs) && lost == old(lost)
    {
      hide Inv;
      ReleasedAll(nodes, jobs[j].maps);
      StepKeeps(Now(), BlockSkipped(j));
      RemoveMaps(jobs[j].maps);
    }

    method RePlanMap(j: nat, m: nat, n: string, b: nat)
      requires Valid() && Enabled(Now(), MapReplanned(j, m, n, b))
      modifies this
      ensures Valid() && Now() == Apply(old(Now()), MapReplanned(j, m, n, b))
      ensures nodes == old(nodes) && lost == old(lost)
      ensures jobs == old(jobs)[j := old(jobs)[j].(maps := old(jobs)[j].maps[m := MapPlace(n, b, true)])]
    {
      hide Inv;
      StepKeeps(Now(), MapReplanned(j, m, n, b));
      jobs := jobs[j := jobs[j].(maps := jobs[j].maps[m := MapPlace(n, b, true)])];
    }

    method MapResult(j: nat, m: nat)
      requires Valid() && Enabled(Now(), MapReplied(j, m))
      modifies this
      ensures Valid() && Now() == Apply(old(Now()), MapReplied(j, m))
      ensures forall n, b: nat :: var p, load := old(jobs)[j].maps[m], old(LoadOf(nodes, n, b));
        LoadOf(nodes, n, b) == if p.node == n && p.block == b && load > 0 then load - 1 else load
      ensures nodes.Keys == old(nodes).Keys && forall n :: n in nodes ==> nodes[n].reduces == old(nodes)[n].reduces
      ensures var was := old(jobs)[j];
        jobs == old(jobs)[j := was.(maps := was.maps[m := was.maps[m].(running := false)])] && lost == old(lost)
    {
      hide Inv, RemoveMapNode;
      StepKeeps(Now(), MapReplied(j, m));
      RemovedEntry(nodes, jobs[j].maps[m]);
      RemoveMap(jobs[j].maps[m]);
      jobs := jobs[j := jobs[j].(maps := jobs[j].maps[m := jobs[j].maps[m].(running := false)])];
    }

    method NotificarReduce(j: nat, n: string)
      requires Valid() && Enabled(Now(), ReduceOrdered(j, n))
      modifies this
      ensures Valid() && Now() == Apply(old(Now()), ReduceOrdered(j, n))
      ensures nodes == old(nodes)[n := old(nodes)[n].(reduces := (old(nodes)[n].reduces + 1) % 65536)]
      ensures jobs == old(jobs)[j := old(jobs)[j].(reduces := old(jobs)[j].reduces + [n])] && lost == old(lost)
    {
      hide Inv;
      StepKeeps(Now(), ReduceOrdered(j, n));
      nodes := nodes[n := nodes[n].(reduces := Wrap(nodes[n].reduces + 1))];
      jobs := jobs[j := jobs[j].(reduces := jobs[j].reduces + [n])];
    }

    method RemoveReduceNode(j: nat, r: nat)
      requires Valid() && Enabled(Now(), ReduceReplied(j, r))
      modifies this
      ensures Valid() && Now() == Apply(old(Now()), ReduceReplied(j, r))
      ensures var n := old(jobs)[j].reduces[r];
        nodes == old(nodes)[n := old(nodes)[n].(reduces := (old(nodes)[n].reduces - 1) % 65536)]
      ensures var places := old(jobs)[j].reduces;
        jobs == old(jobs)[j := old(jobs)[j].(reduces := places[..r] + places[r + 1..])] && lost == old(lost)
    {
      hide Inv;
      StepKeeps(Now(), ReduceReplied(j, r));
      var n := jobs[j].reduces[r];
      nodes := nodes[n := nodes[n].(reduces := Wrap(nodes[n].reduces - 1))];
      jobs := jobs[j := jobs[j].(reduces := Without(jobs[j].reduces, r))];
    }

    /** The load of the job's maps is released; its reduce orders without a reply stay counted. */
    method FreeJob(j: nat)
      requires Valid() && Enabled(Now(), JobFreed(j))
      modifies this
      ensures Valid() && Now() == Apply(old(Now()), JobFreed(j))
      ensures forall n, b: nat :: var load, gone := old(LoadOf(nodes, n, b)), |PlacesOf(old(jobs)[j].maps, n, b)|;
        LoadOf(nodes, n, b) == if load <= gone then 0 else load - gone
      ensures nodes.Keys == old(nodes).Keys && forall n :: n in nodes ==> nodes[n].reduces == old(nodes)[n].reduces
      ensures jobs == old(jobs)[j := JobLoad([], [])] && lost == old(lost) + multiset(old(jobs)[j].reduces)
    {
      hide Inv;
      ReleasedAll(nodes, jobs[j].maps);
      StepKeeps(Now(), JobFreed(j));
      RemoveMaps(jobs[j].maps);
      lost := lost + multiset(jobs[j].reduces);
      jobs := jobs[j := JobLoad([], [])];
    }
  }
}
