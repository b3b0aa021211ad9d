/** The fields of a job in MaRTA and how they agree with what MaRTA and the Job have said (MaRTA/src/structs/job.h). */
module MartaState {
  import opened Bytes
  import opened MartaTrace
  import opened Wire

  /** A node that has a copy of a block, and the slot it is in. */
  datatype Holder = Holder(node: string, block: nat)

  datatype NodeState = NodeState(active: bool, load: nat)

  datatype MapTask = MapTask(copies: seq<Holder>, node: string, block: nat, name: nat, done: bool)

  datatype ReduceTask = ReduceTask(node: string, name: nat, temps: seq<TempFile>, done: bool)

  datatype Order = MapOrder(task: nat) | ReduceOrder(reduce: nat)

  /** A message of the Job: pick chooses among the orders it still owes a reply. A failed reduce names the fallen node,
      or none when the reducing node itself could not be reached. */
  datatype Reply = Reply(pick: nat, ok: bool, fallen: Option<string>)

  datatype CopyReply = CopyDone | CopyFailed | CantCopy

  /** Why a job's thread ends: the connection to the Job is lost while waiting for a reply, or when sending; a file is
      unavailable; the result cannot be copied; the program stops at a null pointer. */
  datatype Cause = Lost | SendFailed | Unavailable | NoRoom | NullPointer

  /** The end of a call: the job's thread has ended, or goes on with a value. */
  datatype Verdict<T> = Gone(why: Cause) | Here(value: T)

  /** The failures among the replies of the Job. */
  function Fails(script: seq<Reply>): (r: nat)
    ensures r <= |script|
  {
    if script == [] then 0 else (if script[0].ok then 0 else 1) + Fails(script[1..])
  }

  function FailedReplies(script: seq<Reply>): set<nat> {
    set i: nat | i < |script| && !script[i].ok
  }

  lemma {:induction false} FailsLast(script: seq<Reply>)
    requires script != []
    ensures var n := |script| - 1; Fails(script) == Fails(script[..n]) + if script[n].ok then 0 else 1
  {
    var n := |script| - 1;
    if n > 0 {
      FailsLast(script[1..]);
      assert script[1..][..n - 1] == script[..n][1..];
    } else {
      assert script[..n] == [] && script[1..] == [];
    }
  }

  lemma {:induction false} FailsCounted(script: seq<Reply>)
    ensures Fails(script) == |FailedReplies(script)|
  {
    if script != [] {
      var n := |script| - 1;
      FailsLast(script);
      FailsCounted(script[..n]);
      if script[n].ok {
        assert FailedReplies(script) == FailedReplies(script[..n]);
      } else {
        assert FailedReplies(script) == FailedReplies(script[..n]) + {n};
      }
    }
  }

  /** At most n replies were consumed, and one more for every failure among them. */
  ghost predicate Costs(was: seq<Reply>, now: seq<Reply>, n: int) {
    |now| <= |was| && Fails(now) <= Fails(was) && |was| - |now| <= n + Fails(was) - Fails(now)
  }

  /** Not enough replies for n successes. */
  ghost predicate Short(script: seq<Reply>, n: int) {
    |script| < n + Fails(script)
  }

  lemma CostsAdd(a: seq<Reply>, b: seq<Reply>, c: seq<Reply>, n: int, m: int)
    requires Costs(a, b, n)
    ensures Costs(b, c, m) ==> Costs(a, c, n + m)
    ensures Short(b, m) ==> Short(a, n + m)
  {
  }

  lemma OneReply(script: seq<Reply>)
    requires script != []
    ensures Fails(script) == Fails(script[1..]) + if script[0].ok then 0 else 1
    ensures Costs(script, script[1..], if script[0].ok then 1 else 0)
  {
  }

  /** At most c replies were consumed, and w more for each failure: of a reply, or of a copy. */
  ghost predicate Paid(was: seq<Reply>, now: seq<Reply>, w: nat, failedCopies: int, c: int) {
    |was| - |now| <= w * (Fails(was) - Fails(now) + failedCopies) + c
  }

  /** The replies ran out before c of them, and w more for each failure, were there. */
  ghost predicate Starved(script: seq<Reply>, w: nat, failedCopies: int, c: int) {
    |script| < w * (Fails(script) + failedCopies) + c
  }

  lemma PaidAdd(a: seq<Reply>, b: seq<Reply>, c: seq<Reply>, w: nat, f: int, g: int, x: int, y: int)
    requires Paid(a, b, w, f, x)
    ensures Paid(b, c, w, g, y) ==> Paid(a, c, w, f + g, x + y)
    ensures Starved(b, w, g, y) ==> Starved(a, w, f + g, x + y)
  {
    assert w * (Fails(a) - Fails(b) + f) + w * (Fails(b) - Fails(c) + g) == w * (Fails(a) - Fails(c) + (f + g));
    assert w * (Fails(a) - Fails(b) + f) + w * (Fails(b) + g) == w * (Fails(a) + (f + g));
  }

  lemma StarvedMore(script: seq<Reply>, w: nat, f: int, g: int, c: int)
    requires Starved(script, w, f, c) && f <= g
    ensures Starved(script, w, g, c)
  {
    hide Fails;
    ProductGrows(Fails(script) + f, Fails(script) + g, w);
  }

  lemma PaidMore(a: seq<Reply>, b: seq<Reply>, w: nat, f: int, x: int, y: int)
    requires Paid(a, b, w, f, x) && x <= y
    ensures Paid(a, b, w, f, y)
  {
  }

  /** The replies a restart can take for m maps: those of the maps again, of the partial reduces, and the final one. */
  function PerFailure(m: nat): nat {
    2 * m + 1
  }

  lemma AsManyAsNeeded(script: seq<Reply>, m: nat)
    ensures PerFailure(m) * (1 + Fails(script)) == (2 * m + 1) * (1 + |FailedReplies(script)|)
  {
    FailsCounted(script);
  }

  lemma AtLeastOnce(w: nat, f: int)
    requires f >= 1 && w >= 1
    ensures w * f >= w + f - 1
  {
  }

  /** The replies of the maps themselves. */
  lemma MapsPaid(a: seq<Reply>, b: seq<Reply>, m: nat)
    ensures Costs(a, b, m) ==> Paid(a, b, PerFailure(m), 0, m)
    ensures Short(a, m) ==> Starved(a, PerFailure(m), 0, m)
  {
    if Costs(a, b, m) && Fails(a) > Fails(b) {
      AtLeastOnce(PerFailure(m), Fails(a) - Fails(b));
    }
    if Short(a, m) && Fails(a) > 0 {
      AtLeastOnce(PerFailure(m), Fails(a));
    }
  }

  /** A failed final reduce or copy: its reply, and those of the maps planned again. */
  lemma RestartPaid(a: seq<Reply>, b: seq<Reply>, c: seq<Reply>, m: nat, failedCopies: int)
    requires |a| == |b| + 1 && Fails(a) + failedCopies == Fails(b) + 1
    ensures Costs(b, c, m) ==> Paid(a, c, PerFailure(m), failedCopies, -(m as int))
    ensures Short(b, m) ==> Starved(a, PerFailure(m), failedCopies, 1)
  {
    var w := PerFailure(m);
    if Costs(b, c, m) {
      AtLeastOnce(w, Fails(a) - Fails(c) + failedCopies);
    }
    if Short(b, m) {
      AtLeastOnce(w, Fails(a) + failedCopies);
    }
  }

  lemma RoundBound(m: nat, f: nat, g: nat)
    requires f > 0
    ensures PerFailure(m) * (g + f) >= m + f * m + g
  {
    assert PerFailure(m) * (g + f) == 2 * (m * (g + f)) + g + f;
    assert m * (g + f) == m * g + f * m && m * g >= 0 && f * m >= m;
  }

  lemma NoneStarved(w: nat)
    ensures Starved([], w, 0, 1)
  {
  }

  lemma NonePaid(script: seq<Reply>, w: nat)
    ensures Paid(script, script, w, 0, 0)
  {
  }

  /** The reply of a final reduce that succeeded. */
  lemma OnePaid(a: seq<Reply>, b: seq<Reply>, w: nat, failedCopies: int)
    requires |a| == |b| + 1 && Fails(a) + failedCopies == Fails(b)
    ensures Paid(a, b, w, failedCopies, 1)
  {
  }

  /** A round of n partial reduces without a failure. */
  lemma RoundCosts(a: seq<Reply>, b: seq<Reply>, m: nat, n: nat)
    requires |a| == |b| + n && n <= m && Fails(a) == Fails(b)
    ensures Paid(a, b, PerFailure(m), 0, m)
  {
    hide PerFailure, Fails;
    assert PerFailure(m) * 0 == 0;
  }

  lemma SomeStarved(a: seq<Reply>, m: nat, n: nat)
    requires |a| < n <= m
    ensures Starved(a, PerFailure(m), 0, m)
  {
  }

  lemma StarvedMost(a: seq<Reply>, w: nat, f: int, c: int, d: int)
    requires Starved(a, w, f, c) && c <= d
    ensures Starved(a, w, f, d)
  {
  }

  /** Enough replies for a job of n maps and its failures are enough for fewer maps. */
  lemma NotStarved(script: seq<Reply>, m: nat, n: nat)
    requires m <= n && |script| >= PerFailure(n) * (1 + Fails(script))
    ensures !Starved(script, PerFailure(m), 0, PerFailure(m))
  {
    hide Fails;
    ProductGrows(PerFailure(m), PerFailure(n), 1 + Fails(script));
    hide PerFailure;
    assert PerFailure(m) * (1 + Fails(script)) == PerFailure(m) * (Fails(script) + 0) + PerFailure(m);
  }

  /** A round of n partial reduces of which f failed: their replies, and those of the maps planned again. */
  lemma RoundPaid(a: seq<Reply>, b: seq<Reply>, c: seq<Reply>, m: nat, n: nat, f: nat)
    requires |a| == |b| + n && n <= m && Fails(a) == Fails(b) + f && f > 0
    ensures Costs(b, c, f * m) ==> Paid(a, c, PerFailure(m), 0, 0) && |c| <= |b|
    ensures Short(b, f * m) ==> Starved(a, PerFailure(m), 0, m)
  {
    hide PerFailure, Fails;
    if Costs(b, c, f * m) {
      RoundBound(m, f, Fails(b) - Fails(c));
    }
    if Short(b, f * m) {
      RoundBound(m, f, Fails(b));
    }
  }

  function NodesOf(copies: seq<Holder>): (r: seq<string>)
    ensures |r| == |copies|
  {
    seq(|copies|, i requires 0 <= i < |copies| => copies[i].node)
  }

  /** A block has a live holder. */
  predicate Live(nodes: string -> NodeState, copies: seq<Holder>) {
    exists i :: 0 <= i < |copies| && nodes(copies[i].node).active
  }

  /** The first of the least loaded live holders of a block. */
  predicate BestAt(nodes: string -> NodeState, names: seq<string>, at: nat) {
    && at < |names| && nodes(names[at]).active
    && forall i :: 0 <= i < |names| && nodes(names[i]).active ==>
      nodes(names[at]).load <= nodes(names[i]).load && (i < at ==> nodes(names[at]).load < nodes(names[i]).load)
  }

  predicate BestHolder(nodes: string -> NodeState, copies: seq<Holder>, copy: Holder) {
    exists at :: 0 <= at < |copies| && copies[at] == copy && BestAt(nodes, NodesOf(copies), at)
  }

  lemma ItsBest(nodes: string -> NodeState, copies: seq<Holder>, at: nat)
    requires at < |copies| && BestAt(nodes, NodesOf(copies), at)
    ensures BestHolder(nodes, copies, copies[at])
  {
  }

  lemma BestIsLeast(nodes: string -> NodeState, copies: seq<Holder>, copy: Holder)
    requires BestHolder(nodes, copies, copy)
    ensures copy in copies && nodes(copy.node).active
    ensures forall i :: 0 <= i < |copies| && nodes(copies[i].node).active ==>
      nodes(copy.node).load <= nodes(copies[i].node).load
  {
    var at :| 0 <= at < |copies| && copies[at] == copy && BestAt(nodes, NodesOf(copies), at);
    assert forall i :: 0 <= i < |copies| ==> NodesOf(copies)[i] == copies[i].node;
  }

  function Minus(orders: seq<Order>, i: nat): (r: seq<Order>)
    requires i < |orders|
    ensures |r| == |orders| - 1
  {
    orders[..i] + orders[i + 1..]
  }

  lemma MinusOne(orders: seq<Order>, i: nat)
    requires i < |orders| && Distinct(orders)
    ensures Distinct(Minus(orders, i))
    ensures forall o :: o in Minus(orders, i) <==> o in orders && o != orders[i]
  {
    var rest := Minus(orders, i);
    assert forall k :: 0 <= k < |rest| ==> rest[k] == if k < i then orders[k] else orders[k + 1];
    forall o | o in orders && o != orders[i] ensures o in rest {
      var k :| 0 <= k < |orders| && orders[k] == o;
      assert rest[if k < i then k else k - 1] == o;
    }
  }

  ghost predicate OnlyMaps(orders: seq<Order>) {
    forall o :: o in orders ==> o.MapOrder?
  }

  ghost predicate OnlyReduces(orders: seq<Order>) {
    forall o :: o in orders ==> o.ReduceOrder?
  }

  /** Map number i is as the conversation shows it, and either done or ordered. */
  ghost predicate Tracked(maps: seq<MapTask>, orders: seq<Order>, seen: Seen, i: nat)
    requires i < |maps| == |seen.maps|
  {
    && seen.maps[i].out == TempFile(maps[i].node, maps[i].name)
    && (seen.maps[i].fate == Finished <==> maps[i].done)
    && (seen.maps[i].fate == Running <==> MapOrder(i) in orders)
    && seen.maps[i].fate != Failed
  }

  ghost predicate ReducesTracked(orders: seq<Order>, seen: Seen) {
    && (ReduceOrder(FINAL) in orders <==> LastRunning(seen))
    && forall p :: 0 <= p < |seen.partials| ==> (ReduceOrder(p + 1) in orders <==> seen.partials[p].fate == Running)
  }

  ghost predicate OrdersKnown(maps: seq<MapTask>, orders: seq<Order>, seen: Seen, partialCount: nat) {
    && Distinct(orders)
    && forall o :: o in orders ==>
      match o
      case MapOrder(i) => i < |maps|
      case ReduceOrder(r) => r == FINAL || (r <= partialCount && r <= |seen.partials|)
  }

  /** Every map is on a holder of its block. */
  ghost predicate Placed(maps: seq<MapTask>) {
    forall i :: 0 <= i < |maps| ==> Holder(maps[i].node, maps[i].block) in maps[i].copies
  }

  /** The fields of a job agree with its conversation, but for the map whose failure is being handled. */
  ghost predicate Coherent(maps: seq<MapTask>, orders: seq<Order>, seen: Seen, partialCount: nat, but: Option<nat>) {
    && OrdersKnown(maps, orders, seen, partialCount) && ReducesTracked(orders, seen) && Placed(maps)
    && |seen.maps| == |maps| && !seen.over
    && (forall i :: 0 <= i < |maps| && Some(i) != but ==> Tracked(maps, orders, seen, i))
    && (but.Some? ==> but.value < |maps| && MapOrder(but.value) !in orders && seen.maps[but.value].fate != Running)
  }

  lemma OneKind(orders: seq<Order>, i: nat)
    requires i < |orders| && (OnlyMaps(orders) || OnlyReduces(orders))
    ensures orders[i].MapOrder? <==> OnlyMaps(orders)
    ensures orders[i].ReduceOrder? <==> OnlyReduces(orders)
  {
    assert orders[i] in orders;
  }

  function Stored(maps: seq<MapTask>, m: nat, task: MapTask): seq<MapTask>
    requires m <= |maps|
  {
    if m < |maps| then maps[m := task] else maps + [task]
  }

  lemma MapSentKeeps(maps: seq<MapTask>, orders: seq<Order>, seen: Seen, partialCount: nat, m: nat, task: MapTask)
    requires m <= |maps| && OnlyMaps(orders)
    requires Coherent(maps, orders, seen, partialCount, if m < |maps| then Some(m) else None)
    requires Holder(task.node, task.block) in task.copies && !task.done
    ensures Permitted(seen, MapSent(m, TempFile(task.node, task.name), task.block))
    ensures var now := Apply(seen, MapSent(m, TempFile(task.node, task.name), task.block));
      Coherent(Stored(maps, m, task), orders + [MapOrder(m)], now, partialCount, None)
    ensures OnlyMaps(orders + [MapOrder(m)])
  {
    var now := orders + [MapOrder(m)];
    assert MapOrder(m) !in orders;
    assert forall o :: o in now <==> o in orders || o == MapOrder(m);
    assert Distinct(now);
  }

  lemma MapRepliedKeeps(maps: seq<MapTask>, orders: seq<Order>, seen: Seen, partialCount: nat, i: nat, m: nat)
    requires OnlyMaps(orders) && Coherent(maps, orders, seen, partialCount, None) && i < |orders| &&
      orders[i] == MapOrder(m)
    ensures m < |maps| && !maps[m].done && OnlyMaps(Minus(orders, i))
    ensures forall ok :: Permitted(seen, MapReplied(m, ok))
    ensures forall ok :: Apply(seen, MapReplied(m, ok)).down == if ok then seen.down else seen.down + [maps[m].node]
    ensures Coherent(maps[m := maps[m].(done := true)], Minus(orders, i), Apply(seen, MapReplied(m, true)),
      partialCount, None)
    ensures Coherent(maps, Minus(orders, i), Apply(seen, MapReplied(m, false)), partialCount, Some(m))
  {
    MinusOne(orders, i);
    assert orders[i] in orders && m < |maps|;
    assert Tracked(maps, orders, seen, m);
  }

  lemma ReduceRepliedKeeps(maps: seq<MapTask>, orders: seq<Order>, seen: Seen, partialCount: nat, i: nat, r: nat,
                           fallen: Option<string>)
    requires OnlyReduces(orders) && Coherent(maps, orders, seen, partialCount, None)
    requires i < |orders| && orders[i] == ReduceOrder(r)
    ensures r == FINAL || (r <= partialCount && r <= |seen.partials|)
    ensures Permitted(seen, ReduceReplied(r, fallen))
    ensures Apply(seen, ReduceReplied(r, fallen)).down == if fallen.None? then seen.down else seen.down + [fallen.value]
    ensures Coherent(maps, Minus(orders, i), Apply(seen, ReduceReplied(r, fallen)), partialCount, None)
    ensures OnlyReduces(Minus(orders, i))
  {
    MinusOne(orders, i);
    assert ReduceOrder(r) in orders;
    if r != FINAL {
      assert ReduceOrder((r - 1) + 1) in orders;
    }
    forall m | 0 <= m < |maps| ensures Tracked(maps, Minus(orders, i), Apply(seen, ReduceReplied(r, fallen)), m) {
      assert Tracked(maps, orders, seen, m);
    }
  }

  /** All maps are done when no map order is outstanding. */
  lemma AllDone(maps: seq<MapTask>, orders: seq<Order>, seen: Seen, partialCount: nat)
    requires OnlyReduces(orders) && Coherent(maps, orders, seen, partialCount, None)
    ensures AllFinished(seen.maps) && forall i :: 0 <= i < |maps| ==> maps[i].done
  {
    forall i | 0 <= i < |maps| ensures maps[i].done && seen.maps[i].fate == Finished {
      assert Tracked(maps, orders, seen, i);
    }
  }

  /** Maps already done stay as they are, and every map keeps its block. */
  predicate KeptMaps(was: seq<MapTask>, now: seq<MapTask>, but: Option<nat>) {
    && |was| == |now|
    && forall i :: 0 <= i < |was| ==>
      was[i].copies == now[i].copies && (was[i].done && Some(i) != but ==> now[i] == was[i])
  }

  /** The state of a job, as far as its orders go. */
  datatype View = View(maps: seq<MapTask>, orders: seq<Order>, seen: Seen, partials: seq<ReduceTask>, last: ReduceTask)

  /** What happens while maps are outstanding leaves the reduces alone, and the maps that are done. */
  ghost predicate MapStep(was: View, now: View, but: Option<nat>) {
    && KeptMaps(was.maps, now.maps, but) && OnlyMaps(now.orders) && ReducesKept(was, now)
    && now.seen.lost <= was.seen.lost
  }

  /** The reduces and what has been seen of them are as before. */
  ghost predicate ReducesKept(was: View, now: View) {
    && now.partials == was.partials && now.last == was.last
    && now.seen.partials == was.seen.partials && now.seen.last == was.seen.last
    && now.seen.failedCopies == was.seen.failedCopies
  }

  predicate SameReduce(was: ReduceTask, now: ReduceTask) {
    now == was.(done := now.done)
  }

  predicate SameReduces(was: seq<ReduceTask>, now: seq<ReduceTask>) {
    |was| == |now| && forall p :: 0 <= p < |was| ==> SameReduce(was[p], now[p])
  }

  /** A reply to the reduce order at place i; a failed one names the fallen node. */
  ghost predicate ReduceStep(was: View, now: View, i: nat, fallen: Option<string>) {
    && i < |was.orders| && was.orders[i].ReduceOrder?
    && now.orders == Minus(was.orders, i) && OnlyReduces(now.orders) && now.maps == was.maps
    && SameReduces(was.partials, now.partials) && SameReduce(was.last, now.last)
    && now.seen == Apply(was.seen, ReduceReplied(was.orders[i].reduce, fallen))
  }

  /** The node that was to run the reduce a reply is about. */
  function OwnNode(v: View, pick: nat): string {
    if v.orders == [] then "" else
    match v.orders[pick % |v.orders|]
    case ReduceOrder(r) => if 0 < r <= |v.partials| then v.partials[r - 1].node else v.last.node
    case MapOrder(_) => ""
  }

  /** The node a reply to a reduce reports as fallen: none when it succeeded, the one it names, or the reducing node
      itself. */
  predicate Reports(reply: Reply, own: string, fallen: Option<string>) {
    && (reply.ok ==> fallen.None?)
    && (!reply.ok && reply.fallen.Some? ==> fallen == reply.fallen)
    && (!reply.ok && reply.fallen.None? ==> fallen == Some(own))
  }

  function SettledView(v: View, r: nat, fallen: Option<string>): View
    requires r == FINAL || r <= |v.partials|
  {
    if fallen.Some? then v
    else if r == FINAL then v.(last := v.last.(done := true))
    else v.(partials := v.partials[r - 1 := v.partials[r - 1].(done := true)])
  }

  lemma SettledFields(v: View, r: nat, fallen: Option<string>)
    requires r == FINAL || r <= |v.partials|
    ensures var now := SettledView(v, r, fallen);
      now.maps == v.maps && now.orders == v.orders && now.seen == v.seen && |now.partials| == |v.partials|
  {
  }

  lemma ReduceDone(was: View, taken: View, now: View, i: nat, r: nat, fallen: Option<string>)
    requires i < |was.orders| && was.orders[i] == ReduceOrder(r) && (r == FINAL || r <= |was.partials|)
    requires taken == was.(orders := Minus(was.orders, i), seen := taken.seen) && OnlyReduces(taken.orders)
    requires taken.seen == Apply(was.seen, ReduceReplied(r, fallen))
    requires now == SettledView(taken, r, fallen)
    ensures ReduceStep(was, now, i, fallen)
  {
  }

  lemma MapStepAgain(a: View, b: View, c: View, m: nat)
    requires MapStep(a, b, Some(m)) && MapStep(b, c, None) && m < |a.maps|
    ensures MapStep(a, c, Some(m)) && (!a.maps[m].done ==> MapStep(a, c, None))
    ensures m !in b.seen.lost ==> m !in c.seen.lost
  {
  }

  lemma MapDone(was: View, now: View, m: nat)
    requires m < |was.maps| && !was.maps[m].done && OnlyMaps(now.orders)
    requires now.maps == was.maps[m := was.maps[m].(done := true)]
    requires now.seen == Apply(was.seen, MapReplied(m, true)) && now.partials == was.partials && now.last == was.last
    ensures MapStep(was, now, None)
  {
  }

  lemma MapStepNow(a: View, b: View, c: View, m: nat)
    requires m < |a.maps| && !a.maps[m].done && b.maps == a.maps && b.partials == a.partials && b.last == a.last
    requires b.seen == Apply(a.seen, MapReplied(m, false)) && MapStep(b, c, Some(m))
    ensures MapStep(a, c, None)
  {
  }

  function DoneSet(maps: seq<MapTask>): set<nat> {
    set i: nat | i < |maps| && maps[i].done
  }

  /** Done maps and outstanding orders together are all maps. */
  lemma DoneAndOutstanding(maps: seq<MapTask>, orders: seq<Order>, seen: Seen, partialCount: nat)
    requires OnlyMaps(orders) && Coherent(maps, orders, seen, partialCount, None)
    ensures |DoneSet(maps)| + |orders| == |maps|
  {
    var tasks := set o | o in orders :: o.task;
    forall i: nat | i < |maps| ensures i in tasks <==> !maps[i].done {
      assert Tracked(maps, orders, seen, i);
      assert MapOrder(i) in orders ==> MapOrder(i).task in tasks;
    }
    DistinctTasks(orders);
    assert forall i :: i in tasks ==> i < |maps|;
    assert DoneSet(maps) + tasks == Below(|maps|) && DoneSet(maps) !! tasks;
  }

  function Below(n: nat): (r: set<nat>)
    ensures |r| == n && forall i: nat :: i in r <==> i < n
  {
    if n == 0 then {} else Below(n - 1) + {n - 1}
  }

  lemma {:induction false} DistinctTasks(orders: seq<Order>)
    requires OnlyMaps(orders) && Distinct(orders)
    ensures |set o | o in orders :: o.task| == |orders|
  {
    var tasks := set o | o in orders :: o.task;
    if orders != [] {
      var n := |orders| - 1;
      var fewer := orders[..n];
      DistinctTasks(fewer);
      var others := set o | o in fewer :: o.task;
      forall o | o in fewer ensures o.task != orders[n].task {
        var k :| 0 <= k < n && orders[k] == o;
        assert o.MapOrder? && orders[n] in orders;
      }
      assert orders == fewer + [orders[n]];
      assert tasks == others + {orders[n].task};
    }
  }

  function Blocks(maps: seq<MapTask>): (r: seq<seq<Holder>>)
    ensures |r| == |maps|
  {
    seq(|maps|, i requires 0 <= i < |maps| => maps[i].copies)
  }

  lemma ItsLive(nodes: string -> NodeState, copies: seq<Holder>, at: nat)
    requires at < |copies| && BestAt(nodes, NodesOf(copies), at)
    ensures Live(nodes, copies)
  {
    assert NodesOf(copies)[at] == copies[at].node;
  }

  lemma NotLive(nodes: string -> NodeState, copies: seq<Holder>)
    requires forall i :: 0 <= i < |copies| ==> !nodes(NodesOf(copies)[i]).active
    ensures !Live(nodes, copies)
  {
    assert forall i :: 0 <= i < |copies| ==> NodesOf(copies)[i] == copies[i].node;
  }

  /** The blocks with a live holder at the moment at which each was looked at. */
  function PlannedFor(worlds: nat -> (string -> NodeState), blocks: seq<seq<Holder>>, at: seq<nat>): seq<seq<Holder>>
    requires |at| == |blocks|
  {
    if blocks == [] then [] else
    var n := |blocks| - 1;
    PlannedFor(worlds, blocks[..n], at[..n]) + if Live(worlds(at[n]), blocks[n]) then [blocks[n]] else []
  }

  lemma PlanOneMore(worlds: nat -> (string -> NodeState), blocks: seq<seq<Holder>>, b: nat, at: seq<nat>)
    requires b < |blocks| && |at| == b + 1
    ensures PlannedFor(worlds, blocks[..b + 1], at) ==
      PlannedFor(worlds, blocks[..b], at[..b]) + if Live(worlds(at[b]), blocks[b]) then [blocks[b]] else []
  {
    assert blocks[..b + 1][..b] == blocks[..b];
  }

  /** One map for every block exactly when every block had a live holder at its moment. */
  lemma {:induction false} OneMapPerBlock(worlds: nat -> (string -> NodeState), blocks: seq<seq<Holder>>, at: seq<nat>)
    requires |at| == |blocks|
    ensures |PlannedFor(worlds, blocks, at)| <= |blocks|
    ensures |PlannedFor(worlds, blocks, at)| == |blocks| <==> PlannedFor(worlds, blocks, at) == blocks
    ensures PlannedFor(worlds, blocks, at) == blocks <==>
      forall b :: 0 <= b < |blocks| ==> Live(worlds(at[b]), blocks[b])
  {
    if blocks != [] {
      var n := |blocks| - 1;
      OneMapPerBlock(worlds, blocks[..n], at[..n]);
      assert blocks == blocks[..n] + [blocks[n]];
      var few := PlannedFor(worlds, blocks[..n], at[..n]);
      if Live(worlds(at[n]), blocks[n]) {
        assert (few + [blocks[n]])[..|few|] == few;
      }
    }
  }

  /** The blocks of all files, when the file system has listed every one. */
  function AllBlocks(files: seq<Option<seq<seq<Holder>>>>): seq<seq<Holder>> {
    if files == [] then [] else
    AllBlocks(files[..|files| - 1]) + if files[|files| - 1].Some? then files[|files| - 1].value else []
  }

  /** When every file is listed, the blocks of a job are those of its files, one file after the other. */
  lemma {:induction false} BlocksOfListed(files: seq<Option<seq<seq<Holder>>>>)
    requires forall f :: 0 <= f < |files| ==> files[f].Some?
    ensures AllBlocks(files) == Flatten(seq(|files|, f requires 0 <= f < |files| => files[f].value))
  {
    var lists := seq(|files|, f requires 0 <= f < |files| => files[f].value);
    if files != [] {
      var n := |files| - 1;
      BlocksOfListed(files[..n]);
      FlattenPrefix(lists, n);
      assert lists[..n + 1] == lists;
      assert lists[..n] == seq(n, f requires 0 <= f < n => files[..n][f].value);
    }
  }

  /** The blocks a job plans are those with a live holder at their moment. */
  lemma {:induction false} PlannedAreLive(worlds: nat -> (string -> NodeState), blocks: seq<seq<Holder>>, at: seq<nat>,
                                         x: seq<Holder>)
    requires |at| == |blocks|
    ensures x in PlannedFor(worlds, blocks, at) <==>
      exists b :: 0 <= b < |blocks| && blocks[b] == x && Live(worlds(at[b]), x)
  {
    hide Live;
    if blocks != [] {
      var n := |blocks| - 1;
      PlannedAreLive(worlds, blocks[..n], at[..n], x);
      if b :| 0 <= b < n && blocks[..n][b] == x && Live(worlds(at[..n][b]), x) {
        assert blocks[b] == x && Live(worlds(at[b]), x);
      }
      if b :| 0 <= b < |blocks| && blocks[b] == x && Live(worlds(at[b]), x) {
        assert b < n ==> blocks[..n][b] == x && Live(worlds(at[..n][b]), x);
      }
    }
  }

  lemma {:induction false} PlannedConcat(worlds: nat -> (string -> NodeState), a: seq<seq<Holder>>, b: seq<seq<Holder>>,
                                         atA: seq<nat>, atB: seq<nat>)
    requires |atA| == |a| && |atB| == |b|
    ensures PlannedFor(worlds, a + b, atA + atB) == PlannedFor(worlds, a, atA) + PlannedFor(worlds, b, atB)
  {
    if b == [] {
      assert a + b == a && atA + atB == atA;
    } else {
      var n := |b| - 1;
      PlannedConcat(worlds, a, b[..n], atA, atB[..n]);
      assert (a + b)[..|a| + n] == a + b[..n] && (atA + atB)[..|a| + n] == atA + atB[..n];
    }
  }

  lemma ButOne(maps: seq<MapTask>, seen: Seen, partialCount: nat, i: nat)
    requires Coherent(maps, [], seen, partialCount, None) && i < |maps|
    ensures Coherent(maps, [], seen, partialCount, Some(i)) && maps[i].done
  {
    assert Tracked(maps, [], seen, i);
  }

  /** Without outstanding orders the list of partial reduces may be dropped. */
  lemma NoOrders(maps: seq<MapTask>, seen: Seen, partialCount: nat)
    requires Coherent(maps, [], seen, partialCount, None)
    ensures forall n: nat :: Coherent(maps, [], seen, n, None)
    ensures NoneRunning(seen.partials) && !LastRunning(seen) && AllFinished(seen.maps)
    ensures Outputs(seen.maps) == MapOutputs(maps)
  {
    AllDone(maps, [], seen, partialCount);
    forall i | 0 <= i < |maps| ensures Outputs(seen.maps)[i] == MapOutputs(maps)[i] {
      assert Tracked(maps, [], seen, i);
    }
  }

  /** The temporaries of the maps, in the order of the maps. */
  function MapOutputs(maps: seq<MapTask>): (r: seq<TempFile>)
    ensures |r| == |maps|
  {
    seq(|maps|, i requires 0 <= i < |maps| => TempFile(maps[i].node, maps[i].name))
  }

  lemma ReduceSentKeeps(maps: seq<MapTask>, orders: seq<Order>, seen: Seen, partialCount: nat, r: nat, out: TempFile,
                        inputs: seq<TempFile>)
    requires Coherent(maps, orders, seen, partialCount, None) && OnlyReduces(orders)
    requires r == FINAL ==> orders == []
    requires r != FINAL ==> r <= partialCount && ReduceOrder(FINAL) !in orders
    requires r != FINAL ==> if r == 1 then orders == [] else r == |seen.partials| + 1
    ensures Coherent(maps, orders + [ReduceOrder(r)], Apply(seen, ReduceSent(r, out, inputs)), partialCount, None)
    ensures OnlyReduces(orders + [ReduceOrder(r)])
  {
    var all, now := orders + [ReduceOrder(r)], Apply(seen, ReduceSent(r, out, inputs));
    assert ReduceOrder(r) !in orders;
    assert forall o :: o in all <==> o in orders || o == ReduceOrder(r);
    assert Distinct(all);
    forall m | 0 <= m < |maps| ensures Tracked(maps, all, now, m) {
      assert Tracked(maps, orders, seen, m);
    }
  }

  /** Only maps of the fallen node have been planned again. */
  predicate OnlyNode(was: seq<MapTask>, now: seq<MapTask>, node: string) {
    && |was| == |now|
    && forall i :: 0 <= i < |was| ==> was[i].copies == now[i].copies && (was[i].node != node ==> now[i] == was[i])
  }

  /** The only outstanding order is settled. */
  lemma FinalReplied(was: View, now: View, reply: Reply, fallen: Option<string>)
    requires ReduceReply(was, now, reply, fallen) && was.orders == [ReduceOrder(FINAL)] && was.seen.last.Some?
    ensures Reports(reply, was.last.node, fallen) && now.orders == [] && now.maps == was.maps
    ensures now.last == was.last.(done := now.last.done)
    ensures now.seen.last == Some(Replied(was.seen.last.value, fallen.None?)) &&
      now.seen.failedCopies == was.seen.failedCopies
    ensures now.seen.lost == was.seen.lost + if fallen.Some? then OutputsOn(was.seen.maps, fallen.value) else {}
    ensures now.seen.maps == was.seen.maps
  {
  }

  /** The lost outputs are those of the maps on these nodes. */
  ghost predicate LostIn(maps: seq<MapTask>, lost: set<nat>, nodes: seq<string>) {
    forall m: nat :: m in lost <==> m < |maps| && maps[m].node in nodes
  }

  lemma NothingLost(maps: seq<MapTask>, lost: set<nat>)
    requires LostIn(maps, lost, [])
    ensures lost == {}
  {
  }

  lemma LostMore(maps: seq<MapTask>, seen: Seen, nodes: seq<string>, node: string)
    requires forall m: nat :: m in OutputsOn(seen.maps, node) <==> m < |maps| && maps[m].node == node
    requires LostIn(maps, seen.lost, nodes)
    ensures LostIn(maps, seen.lost + OutputsOn(seen.maps, node), nodes + [node])
  {
  }

  lemma OutputsAre(maps: seq<MapTask>, orders: seq<Order>, seen: Seen, partialCount: nat, node: string)
    requires Coherent(maps, orders, seen, partialCount, None)
    ensures forall m: nat :: m in OutputsOn(seen.maps, node) <==> m < |maps| && maps[m].node == node
  {
    forall m: nat ensures m in OutputsOn(seen.maps, node) <==> m < |maps| && maps[m].node == node {
      if m < |maps| {
        assert Tracked(maps, orders, seen, m);
      }
    }
  }

  lemma ReduceSentFrame(seen: Seen, r: nat, out: TempFile, inputs: seq<TempFile>)
    ensures var now := Apply(seen, ReduceSent(r, out, inputs));
      now.down == seen.down && now.lost == seen.lost && now.failedCopies == seen.failedCopies && now.maps == seen.maps
    ensures r == FINAL ==> Apply(seen, ReduceSent(r, out, inputs)).last == Some(Work(out, inputs, Running))
  {
  }

  /** A reply to a copy order is in order after the final reduce, and then the report that there is no room for it. */
  lemma CopyPermitted(seen: Seen, ok: bool)
    requires !seen.over && seen.last.Some? && seen.last.value.fate == Finished
    ensures Permitted(seen, CopyReplied(ok)) && Permitted(Apply(seen, CopyReplied(ok)), DieSent(RESULT_CANT_COPY))
  {
  }

  lemma CopyFrame(seen: Seen, ok: bool)
    ensures var now := Apply(seen, CopyReplied(ok));
      now.down == seen.down && now.last == seen.last && now.maps == seen.maps
    ensures var now := Apply(seen, CopyReplied(ok));
      now.copied == ok && now.failedCopies == seen.failedCopies + if ok then 0 else 1
    ensures Apply(seen, CopyReplied(ok)).lost ==
      seen.lost + if !ok && seen.last.Some? then OutputsOn(seen.maps, seen.last.value.out.node) else {}
  {
  }

  function MapsOn(maps: seq<MapTask>, node: string): nat {
    if maps == [] then 0
    else MapsOn(maps[..|maps| - 1], node) + if maps[|maps| - 1].node == node then 1 else 0
  }

  /** The maps on a node. */
  function PlacesOn(maps: seq<MapTask>, node: string): set<nat> {
    set m: nat | m < |maps| && maps[m].node == node
  }

  lemma {:induction false} MapsOnCounted(maps: seq<MapTask>, node: string)
    ensures MapsOn(maps, node) == |PlacesOn(maps, node)|
  {
    if maps != [] {
      var n := |maps| - 1;
      MapsOnCounted(maps[..n], node);
      if maps[n].node == node {
        assert PlacesOn(maps, node) == PlacesOn(maps[..n], node) + {n};
      } else {
        assert PlacesOn(maps, node) == PlacesOn(maps[..n], node);
      }
    }
  }

  lemma OneMapMore(maps: seq<MapTask>, i: nat)
    requires i < |maps|
    ensures forall node ::
      MapsOn(maps[..i + 1], node) == MapsOn(maps[..i], node) + if maps[i].node == node then 1 else 0
  {
    assert maps[..i + 1][..i] == maps[..i];
  }

  /** One entry for every node that has a map, with the number of its maps. */
  predicate CountsOf(maps: seq<MapTask>, counts: seq<(string, nat)>) {
    && (forall c :: 0 <= c < |counts| ==> counts[c].1 == MapsOn(maps, counts[c].0) && counts[c].1 > 0)
    && (forall c, d :: 0 <= c < d < |counts| ==> counts[c].0 != counts[d].0)
    && forall j :: 0 <= j < |maps| ==> HasEntry(counts, maps[j].node)
  }

  predicate HasEntry(counts: seq<(string, nat)>, node: string) {
    exists c :: 0 <= c < |counts| && counts[c].0 == node
  }

  lemma NothingCounted()
    ensures CountsOf([], [])
  {
  }

  lemma CountNew(maps: seq<MapTask>, i: nat, counts: seq<(string, nat)>)
    requires i < |maps| && CountsOf(maps[..i], counts) && forall c :: 0 <= c < |counts| ==> counts[c].0 != maps[i].node
    ensures CountsOf(maps[..i + 1], counts + [(maps[i].node, 1)])
  {
    var now := counts + [(maps[i].node, 1)];
    OneMapMore(maps, i);
    forall j | 0 <= j < i ensures maps[j].node != maps[i].node && HasEntry(now, maps[j].node) {
      assert maps[..i][j].node == maps[j].node && HasEntry(counts, maps[j].node);
      var c :| 0 <= c < |counts| && counts[c].0 == maps[j].node;
      assert now[c].0 == maps[j].node;
    }
    NoMapOn(maps[..i], maps[i].node);
    assert now[|counts|].0 == maps[i].node;
  }

  lemma CountMore(maps: seq<MapTask>, i: nat, counts: seq<(string, nat)>, c: nat)
    requires i < |maps| && CountsOf(maps[..i], counts) && c < |counts| && counts[c].0 == maps[i].node
    ensures CountsOf(maps[..i + 1], counts[c := (counts[c].0, counts[c].1 + 1)])
  {
    var now := counts[c := (counts[c].0, counts[c].1 + 1)];
    OneMapMore(maps, i);
    assert forall d :: 0 <= d < |counts| ==> now[d].0 == counts[d].0;
    forall j | 0 <= j <= i ensures HasEntry(now, maps[j].node) {
      if j < i {
        assert maps[..i][j].node == maps[j].node && HasEntry(counts, maps[j].node);
        var d :| 0 <= d < |counts| && counts[d].0 == maps[j].node;
        assert now[d].0 == maps[j].node;
      } else {
        assert now[c].0 == maps[j].node;
      }
    }
  }

  /** An active node with at least as many map outputs as any other active one. */
  predicate MostOutputs(nodes: string -> NodeState, maps: seq<MapTask>, node: string) {
    && nodes(node).active && MapsOn(maps, node) > 0
    && forall i :: 0 <= i < |maps| && nodes(maps[i].node).active ==> MapsOn(maps, maps[i].node) <= MapsOn(maps, node)
  }

  /** No active node has more map outputs. */
  lemma MostIsMost(nodes: string -> NodeState, maps: seq<MapTask>, node: string)
    requires MostOutputs(nodes, maps, node)
    ensures nodes(node).active && PlacesOn(maps, node) != {}
    ensures forall m :: 0 <= m < |maps| && nodes(maps[m].node).active ==>
      |PlacesOn(maps, maps[m].node)| <= |PlacesOn(maps, node)|
  {
    hide MapsOn, PlacesOn;
    MapsOnCounted(maps, node);
    forall m | 0 <= m < |maps| && nodes(maps[m].node).active
      ensures |PlacesOn(maps, maps[m].node)| <= |PlacesOn(maps, node)|
    {
      MapsOnCounted(maps, maps[m].node);
    }
  }

  lemma {:induction false} NoMapOn(maps: seq<MapTask>, node: string)
    requires forall j :: 0 <= j < |maps| ==> maps[j].node != node
    ensures MapsOn(maps, node) == 0
  {
    if maps != [] {
      NoMapOn(maps[..|maps| - 1], node);
    }
  }

  lemma AllOthersDone(maps: seq<MapTask>, seen: Seen, partialCount: nat)
    requires Coherent(maps, [], seen, partialCount, None)
    ensures (forall j :: 0 <= j < |maps| ==> maps[j].done) && OnlyMaps([])
  {
    AllDone(maps, [], seen, partialCount);
  }

  lemma CopyKeeps(maps: seq<MapTask>, orders: seq<Order>, seen: Seen, partialCount: nat, ok: bool)
    requires Coherent(maps, orders, seen, partialCount, None)
    ensures Coherent(maps, orders, Apply(seen, CopyReplied(ok)), partialCount, None)
  {
    forall i | 0 <= i < |maps| ensures Tracked(maps, orders, Apply(seen, CopyReplied(ok)), i) {
      assert Tracked(maps, orders, seen, i);
    }
  }

  lemma OnlyTheFinal(maps: seq<MapTask>, seen: Seen, partialCount: nat)
    requires Coherent(maps, [ReduceOrder(FINAL)], seen, partialCount, None)
    ensures OnlyReduces([ReduceOrder(FINAL)]) && LastRunning(seen)
  {
    assert ReduceOrder(FINAL) in [ReduceOrder(FINAL)];
  }

  lemma OnlyNodeBlocks(was: seq<MapTask>, now: seq<MapTask>, node: string)
    requires OnlyNode(was, now, node)
    ensures Blocks(now) == Blocks(was)
  {
  }

  /** No map order is outstanding: the observer knows the outputs of all maps. */
  lemma MapsKnown(maps: seq<MapTask>, orders: seq<Order>, seen: Seen, partialCount: nat)
    requires Coherent(maps, orders, seen, partialCount, None) && OnlyReduces(orders)
    ensures AllFinished(seen.maps) && Outputs(seen.maps) == MapOutputs(maps)
    ensures ReduceOrder(FINAL) !in orders ==> !LastRunning(seen)
  {
    AllDone(maps, orders, seen, partialCount);
    forall i | 0 <= i < |maps| ensures Outputs(seen.maps)[i] == MapOutputs(maps)[i] {
      assert Tracked(maps, orders, seen, i);
    }
  }

  function AllTemps(reduces: seq<ReduceTask>): seq<TempFile> {
    if reduces == [] then [] else AllTemps(reduces[..|reduces| - 1]) + reduces[|reduces| - 1].temps
  }

  /** The partial reduces over the outputs of the first i maps: one for a node, and every output in one of them. */
  ghost predicate Grouped(maps: seq<MapTask>, reduces: seq<ReduceTask>, i: nat)
    requires i <= |maps|
  {
    && OneForNode(reduces)
    && (forall p :: 0 <= p < |reduces| ==> Local(maps, reduces[p]))
    && multiset(AllTemps(reduces)) == multiset(MapOutputs(maps)[..i])
  }

  predicate OneForNode(reduces: seq<ReduceTask>) {
    forall p, q :: 0 <= p < q < |reduces| ==> reduces[p].node != reduces[q].node
  }

  predicate Local(maps: seq<MapTask>, reduce: ReduceTask) {
    reduce.temps != [] && forall k :: 0 <= k < |reduce.temps| ==>
      reduce.temps[k].node == reduce.node && reduce.temps[k] in MapOutputs(maps)
  }

  lemma {:induction false} OneTempMore(reduces: seq<ReduceTask>, p: nat, t: TempFile)
    requires p < |reduces|
    ensures multiset(AllTemps(reduces[p := reduces[p].(temps := reduces[p].temps + [t])])) ==
      multiset(AllTemps(reduces)) + multiset{t}
  {
    hide AllTemps;
    var n := |reduces| - 1;
    var more := reduces[p].(temps := reduces[p].temps + [t]);
    assert reduces == reduces[..n] + [reduces[n]];
    TempsAtTheEnd(reduces[..n], reduces[n]);
    if p < n {
      OneTempMore(reduces[..n], p, t);
      assert reduces[p := more] == reduces[..n][p := more] + [reduces[n]];
      TempsAtTheEnd(reduces[..n][p := more], reduces[n]);
    } else {
      assert reduces[p := more] == reduces[..n] + [more];
      TempsAtTheEnd(reduces[..n], more);
    }
  }

  lemma TempsAtTheEnd(reduces: seq<ReduceTask>, reduce: ReduceTask)
    ensures AllTemps(reduces + [reduce]) == AllTemps(reduces) + reduce.temps
  {
    assert (reduces + [reduce])[..|reduces|] == reduces;
  }

  lemma LocalMore(maps: seq<MapTask>, reduce: ReduceTask, i: nat)
    requires Local(maps, reduce) && i < |maps| && maps[i].node == reduce.node
    ensures Local(maps, reduce.(temps := reduce.temps + [MapOutputs(maps)[i]]))
  {
    assert MapOutputs(maps)[i] in MapOutputs(maps);
  }

  lemma OneOutputMore(maps: seq<MapTask>, i: nat)
    requires i < |maps|
    ensures multiset(MapOutputs(maps)[..i + 1]) == multiset(MapOutputs(maps)[..i]) + multiset{MapOutputs(maps)[i]}
  {
    assert MapOutputs(maps)[..i + 1] == MapOutputs(maps)[..i] + [MapOutputs(maps)[i]];
  }

  lemma GroupedMore(maps: seq<MapTask>, reduces: seq<ReduceTask>, i: nat, p: nat)
    requires i < |maps| && Grouped(maps, reduces, i) && p < |reduces| && reduces[p].node == maps[i].node
    ensures Grouped(maps, reduces[p := reduces[p].(temps := reduces[p].temps + [MapOutputs(maps)[i]])], i + 1)
  {
    hide AllTemps, Local;
    OneTempMore(reduces, p, MapOutputs(maps)[i]);
    OneOutputMore(maps, i);
    LocalMore(maps, reduces[p], i);
  }

  lemma GroupedNew(maps: seq<MapTask>, reduces: seq<ReduceTask>, i: nat, name: nat)
    requires i < |maps| && Grouped(maps, reduces, i)
    requires forall p :: 0 <= p < |reduces| ==> reduces[p].node != maps[i].node
    ensures Grouped(maps, reduces + [ReduceTask(maps[i].node, name, [MapOutputs(maps)[i]], false)], i + 1)
  {
    var t := MapOutputs(maps)[i];
    var now := reduces + [ReduceTask(maps[i].node, name, [t], false)];
    assert t in MapOutputs(maps);
    assert now[..|reduces|] == reduces;
    assert MapOutputs(maps)[..i + 1] == MapOutputs(maps)[..i] + [t];
    assert Local(maps, now[|reduces|]);
  }

  lemma {:induction false} SameTemps(was: seq<ReduceTask>, now: seq<ReduceTask>)
    requires SameReduces(was, now)
    ensures AllTemps(was) == AllTemps(now)
  {
    if was != [] {
      SameTemps(was[..|was| - 1], now[..|was| - 1]);
    }
  }

  lemma SameGrouped(maps: seq<MapTask>, was: seq<ReduceTask>, now: seq<ReduceTask>)
    requires Grouped(maps, was, |maps|) && SameReduces(was, now)
    ensures Grouped(maps, now, |maps|)
  {
    SameTemps(was, now);
    forall p | 0 <= p < |now| ensures Local(maps, now[p]) {
      assert Local(maps, was[p]);
    }
  }

  /** The observer's partial reduces are those of the job's list. */
  predicate RoundMatch(works: seq<Work>, reduces: seq<ReduceTask>) {
    && |works| == |reduces|
    && forall p :: 0 <= p < |works| ==>
      works[p].out == TempFile(reduces[p].node, reduces[p].name) && works[p].inputs == reduces[p].temps
  }

  lemma {:induction false} RoundInputs(works: seq<Work>, reduces: seq<ReduceTask>)
    requires RoundMatch(works, reduces)
    ensures Inputs(works) == AllTemps(reduces)
  {
    if works != [] {
      RoundInputs(works[..|works| - 1], reduces[..|works| - 1]);
    }
  }

  predicate NoneFailed(works: seq<Work>) {
    forall p :: 0 <= p < |works| ==> works[p].fate != Failed
  }

  /** The order of partial reduce r is in order after those before it. */
  lemma PartialInOrder(maps: seq<MapTask>, orders: seq<Order>, seen: Seen, reduces: seq<ReduceTask>, r: nat)
    requires Coherent(maps, orders, seen, |reduces|, None) && OnlyReduces(orders) && ReduceOrder(FINAL) !in orders
    requires Grouped(maps, reduces, |maps|) && 1 <= r <= |reduces| && (r == 1 ==> orders == [])
    requires seen.lost == {} && (r > 1 ==> RoundMatch(seen.partials, reduces[..r - 1]))
    ensures Allowed(true, seen, ReduceSent(r, TempFile(reduces[r - 1].node, reduces[r - 1].name), reduces[r - 1].temps))
  {
    MapsKnown(maps, orders, seen, |reduces|);
    assert Local(maps, reduces[r - 1]);
    if r == 1 {
      NoOrders(maps, seen, |reduces|);
    }
  }

  lemma PartialSent(seen: Seen, reduces: seq<ReduceTask>, r: nat)
    requires 1 <= r <= |reduces| && (r > 1 ==> RoundMatch(seen.partials, reduces[..r - 1]) && NoneFailed(seen.partials))
    ensures var order := reduces[r - 1];
      var now := Apply(seen, ReduceSent(r, TempFile(order.node, order.name), order.temps));
      RoundMatch(now.partials, reduces[..r]) && NoneFailed(now.partials)
  {
  }

  /** A reply to a partial reduce. */
  lemma RoundStep(was: View, now: View, i: nat, fallen: Option<string>)
    requires ReduceStep(was, now, i, fallen) && ReduceOrder(FINAL) !in was.orders
    requires was.orders[i].reduce <= |was.seen.partials|
    requires OnlyReduces(was.orders) && ReducesTracked(was.orders, was.seen)
    requires RoundMatch(was.seen.partials, was.partials) && Grouped(was.maps, was.partials, |was.maps|)
    ensures forall o :: o in now.orders ==> o in was.orders
    ensures RoundMatch(now.seen.partials, now.partials) && Grouped(now.maps, now.partials, |now.maps|)
    ensures now.last.temps == was.last.temps && |now.partials| == |was.partials|
    ensures NoneFailed(now.seen.partials) <==> fallen.None? && NoneFailed(was.seen.partials)
  {
    hide Grouped, Minus;
    SameGrouped(was.maps, was.partials, now.partials);
    var r := was.orders[i].reduce;
    assert was.orders[i] in was.orders && was.orders[i] == ReduceOrder((r - 1) + 1);
    MinusFewer(was.orders, i);
  }

  /** What a reply to a partial reduce leaves. */
  lemma PartialReplied(was: View, now: View, reply: Reply, fallen: Option<string>)
    requires ReduceReply(was, now, reply, fallen) && ReduceOrder(FINAL) !in was.orders && OnlyReduces(was.orders)
    requires Coherent(was.maps, was.orders, was.seen, |was.partials|, None)
    requires RoundOrdered(was.maps, was.seen, was.partials) && was.partials != []
    ensures ReduceOrder(FINAL) !in now.orders && OnlyReduces(now.orders)
    ensures RoundOrdered(now.maps, now.seen, now.partials) && |now.partials| == |was.partials|
    ensures NoneFailed(now.seen.partials) <==> fallen.None? && NoneFailed(was.seen.partials)
    ensures now.maps == was.maps && now.last.temps == was.last.temps && now.seen.failedCopies == was.seen.failedCopies
    ensures now.seen.lost == was.seen.lost + if fallen.Some? then OutputsOn(was.seen.maps, fallen.value) else {}
    ensures now.seen.maps == was.seen.maps && (fallen.None? <==> reply.ok)
    ensures SameNodes(was.partials, now.partials)
    ensures fallen.Some? ==> fallen == reply.fallen || (reply.fallen.None? && IsNodeOf(was.partials, fallen.value))
  {
    hide Grouped, Minus, OutputsOn;
    var i := reply.pick % |was.orders|;
    assert was.orders[i] in was.orders;
    RoundStep(was, now, i, fallen);
    assert was.orders[i].reduce != FINAL;
    assert was.partials[was.orders[i].reduce - 1].node == OwnNode(was, reply.pick);
  }

  predicate SameNodes(was: seq<ReduceTask>, now: seq<ReduceTask>) {
    |was| == |now| && forall p :: 0 <= p < |was| ==> was[p].node == now[p].node
  }

  predicate IsNodeOf(reduces: seq<ReduceTask>, node: string) {
    exists p :: 0 <= p < |reduces| && reduces[p].node == node
  }

  /** One of the replies to the reduces reports the node as fallen: it names the node, or it names none and the node is
      that of a reduce. */
  ghost predicate IsReported(node: string, script: seq<Reply>, reduces: seq<ReduceTask>) {
    exists k :: 0 <= k < |reduces| && k < |script| && ReportsHere(node, script[k], reduces)
  }

  predicate ReportsHere(node: string, reply: Reply, reduces: seq<ReduceTask>) {
    !reply.ok && (reply.fallen == Some(node) || (reply.fallen.None? && IsNodeOf(reduces, node)))
  }

  /** After one reply more the list of fallen nodes has every node a reply names, and no other. */
  lemma OneReplyMore(script: seq<Reply>, first: seq<ReduceTask>, now: seq<ReduceTask>, nodes: seq<string>, i: nat,
                     fallen: Option<string>)
    requires i < |script| && i < |first| && SameNodes(first, now) && (fallen.None? <==> script[i].ok)
    requires fallen.Some? ==> fallen == script[i].fallen || (script[i].fallen.None? && IsNodeOf(now, fallen.value))
    requires NamedIn(script, i, nodes) && forall x :: x in nodes ==> IsReported(x, script, first)
    ensures var nodes' := if fallen.Some? then nodes + [fallen.value] else nodes;
      NamedIn(script, i + 1, nodes') && forall x :: x in nodes' ==> IsReported(x, script, first)
  {
    if fallen.Some? {
      if IsNodeOf(now, fallen.value) {
        var p :| 0 <= p < |now| && now[p].node == fallen.value;
        assert first[p].node == fallen.value;
      }
      assert ReportsHere(fallen.value, script[i], first);
    }
  }

  /** Every node that one of the first i replies names has been noted. */
  predicate NamedIn(script: seq<Reply>, i: nat, nodes: seq<string>) {
    forall k :: 0 <= k < i && k < |script| && !script[k].ok ==>
      script[k].fallen.Some? ==> script[k].fallen.value in nodes
  }

  lemma MinusFewer(orders: seq<Order>, i: nat)
    requires i < |orders|
    ensures forall o :: o in Minus(orders, i) ==> o in orders
  {
  }

  /** All partial reduces have been ordered as they are listed, one for every node that has a map output. */
  ghost predicate RoundOrdered(maps: seq<MapTask>, seen: Seen, reduces: seq<ReduceTask>) {
    Grouped(maps, reduces, |maps|) && (reduces != [] ==> RoundMatch(seen.partials, reduces))
  }

  /** Besides, none has failed. */
  ghost predicate RoundDone(maps: seq<MapTask>, seen: Seen, reduces: seq<ReduceTask>) {
    RoundOrdered(maps, seen, reduces) && (reduces != [] ==> NoneFailed(seen.partials))
  }

  function ReduceOutputs(reduces: seq<ReduceTask>): (r: seq<TempFile>)
    ensures |r| == |reduces|
  {
    seq(|reduces|, i requires 0 <= i < |reduces| => TempFile(reduces[i].node, reduces[i].name))
  }

  function ReduceNodes(reduces: seq<ReduceTask>): (r: seq<string>)
    ensures |r| == |reduces|
  {
    seq(|reduces|, i requires 0 <= i < |reduces| => reduces[i].node)
  }

  /** The first of the least loaded active nodes that have a partial result. */
  predicate LeastLoadedPartial(nodes: string -> NodeState, reduces: seq<ReduceTask>, node: string) {
    exists p :: 0 <= p < |reduces| && reduces[p].node == node && BestAt(nodes, ReduceNodes(reduces), p)
  }

  lemma LeastIsLeast(nodes: string -> NodeState, reduces: seq<ReduceTask>, node: string)
    requires LeastLoadedPartial(nodes, reduces, node)
    ensures nodes(node).active && IsNodeOf(reduces, node)
    ensures forall p :: 0 <= p < |reduces| && nodes(reduces[p].node).active ==>
      nodes(node).load <= nodes(reduces[p].node).load
  {
    var at :| 0 <= at < |reduces| && reduces[at].node == node && BestAt(nodes, ReduceNodes(reduces), at);
    assert forall p :: 0 <= p < |reduces| ==> ReduceNodes(reduces)[p] == reduces[p].node;
  }

  lemma FinalInOrder(maps: seq<MapTask>, seen: Seen, reduces: seq<ReduceTask>, out: TempFile)
    requires Coherent(maps, [], seen, |reduces|, None) && RoundDone(maps, seen, reduces) && reduces != [] &&
      seen.lost == {}
    ensures Allowed(true, seen, ReduceSent(FINAL, out, ReduceOutputs(reduces)))
  {
    NoOrders(maps, seen, |reduces|);
    RoundInputs(seen.partials, reduces);
    assert Outputs(seen.partials) == ReduceOutputs(reduces);
    assert MapOutputs(maps)[..|maps|] == MapOutputs(maps);
  }

  /** At some moment some block had no live holder. */
  ghost predicate Unheld(worlds: nat -> (string -> NodeState), blocks: seq<seq<Holder>>) {
    exists t: nat, b: nat :: b < |blocks| && !Live(worlds(t), blocks[b])
  }

  lemma ItsUnheld(worlds: nat -> (string -> NodeState), maps: seq<MapTask>, t: nat, m: nat)
    requires m < |maps| && !Live(worlds(t), maps[m].copies)
    ensures Unheld(worlds, Blocks(maps))
  {
    assert Blocks(maps)[m] == maps[m].copies;
  }

  /** No node with a map output is active. */
  predicate Unserved(nodes: string -> NodeState, maps: seq<MapTask>) {
    forall i :: 0 <= i < |maps| ==> !nodes(maps[i].node).active
  }

  lemma NoneServed(nodes: string -> NodeState, maps: seq<MapTask>)
    ensures maps == [] ==> Unserved(nodes, maps)
  {
  }

  lemma MostServed(nodes: string -> NodeState, maps: seq<MapTask>, node: string)
    requires MostOutputs(nodes, maps, node)
    ensures !Unserved(nodes, maps)
  {
    if Unserved(nodes, maps) {
      NoMapOn(maps, node);
    }
  }

  lemma AllPlaced(maps: seq<MapTask>, orders: seq<Order>, seen: Seen, partialCount: nat)
    requires Coherent(maps, orders, seen, partialCount, None)
    ensures Placed(maps)
  {
  }

  /** The nodes of the partial reduces are those of the maps, so one list has an active one if the other has. */
  lemma NodesOfRound(nodes: string -> NodeState, maps: seq<MapTask>, reduces: seq<ReduceTask>)
    requires Grouped(maps, reduces, |maps|)
    ensures Unserved(nodes, maps) <==> forall p :: 0 <= p < |reduces| ==> !nodes(reduces[p].node).active
    ensures maps == [] <==> reduces == []
  {
    var outputs := MapOutputs(maps);
    assert outputs[..|maps|] == outputs;
    forall i | 0 <= i < |maps| ensures exists p :: 0 <= p < |reduces| && reduces[p].node == maps[i].node {
      assert outputs[i] in multiset(AllTemps(reduces));
      var p := PartialWith(reduces, outputs[i]);
      var k :| 0 <= k < |reduces[p].temps| && reduces[p].temps[k] == outputs[i];
      assert Local(maps, reduces[p]);
    }
    forall p | 0 <= p < |reduces| ensures exists i :: 0 <= i < |maps| && reduces[p].node == maps[i].node {
      assert Local(maps, reduces[p]);
      assert reduces[p].temps[0] in outputs;
      var i :| 0 <= i < |outputs| && outputs[i] == reduces[p].temps[0];
    }
  }

  lemma NodesOfDone(nodes: string -> NodeState, maps: seq<MapTask>, seen: Seen, reduces: seq<ReduceTask>)
    requires RoundDone(maps, seen, reduces)
    ensures Unserved(nodes, maps) <==> forall p :: 0 <= p < |reduces| ==> !nodes(reduces[p].node).active
  {
    NodesOfRound(nodes, maps, reduces);
  }

  lemma NoneOrLeast(nodes: string -> NodeState, reduces: seq<ReduceTask>, at: Option<nat>)
    requires at.None? ==> forall p :: 0 <= p < |reduces| ==> !nodes(ReduceNodes(reduces)[p]).active
    requires at.Some? ==> at.value < |reduces| && BestAt(nodes, ReduceNodes(reduces), at.value)
    ensures at.None? <==> forall p :: 0 <= p < |reduces| ==> !nodes(reduces[p].node).active
    ensures at.Some? ==> LeastLoadedPartial(nodes, reduces, reduces[at.value].node)
  {
    assert forall p :: 0 <= p < |reduces| ==> ReduceNodes(reduces)[p] == reduces[p].node;
  }

  lemma {:induction false} PartialWith(reduces: seq<ReduceTask>, t: TempFile) returns (p: nat)
    requires t in AllTemps(reduces)
    ensures p < |reduces| && t in reduces[p].temps
  {
    var n := |reduces| - 1;
    if t in reduces[n].temps {
      p := n;
    } else {
      p := PartialWith(reduces[..n], t);
    }
  }

  /** Every partial reduce has an input of its own. */
  lemma SizeOfRound(maps: seq<MapTask>, reduces: seq<ReduceTask>)
    requires Grouped(maps, reduces, |maps|)
    ensures |reduces| <= |maps|
  {
    assert MapOutputs(maps)[..|maps|] == MapOutputs(maps);
    assert |multiset(AllTemps(reduces))| == |maps|;
    assert forall p :: 0 <= p < |reduces| ==> reduces[p].temps != [] by {
      assert forall p :: 0 <= p < |reduces| ==> Local(maps, reduces[p]);
    }
    ManyTemps(reduces);
  }

  lemma {:induction false} ManyTemps(reduces: seq<ReduceTask>)
    requires forall p :: 0 <= p < |reduces| ==> reduces[p].temps != []
    ensures |reduces| <= |AllTemps(reduces)|
  {
    if reduces != [] {
      ManyTemps(reduces[..|reduces| - 1]);
      assert reduces[|reduces| - 1].temps != [];
    }
  }

  /** A reply to a reduce order: it says which node has fallen, if it failed. */
  ghost predicate ReduceReply(was: View, now: View, reply: Reply, fallen: Option<string>) {
    && was.orders != []
    && var i := reply.pick % |was.orders|;
    && was.orders[i].ReduceOrder? && (was.orders[i].reduce == FINAL || was.orders[i].reduce <= |was.partials|)
    && Reports(reply, OwnNode(was, reply.pick), fallen)
    && ReduceStep(was, now, i, fallen)
  }

  /** A map order for the best holder of its block, as the nodes stood when it was planned. */
  ghost predicate IsPlanned(e: Event, m: nat, nodes: string -> NodeState, copies: seq<Holder>) {
    e.MapSent? && e.task == m && BestHolder(nodes, copies, Holder(e.out.node, e.block))
  }

  ghost predicate WellPlaced(worlds: nat -> (string -> NodeState), blocks: seq<seq<Holder>>, at: seq<nat>,
                             task: MapTask)
    requires |at| == |blocks|
  {
    exists b :: 0 <= b < |blocks| && task.copies == blocks[b] &&
      BestHolder(worlds(at[b]), blocks[b], Holder(task.node, task.block))
  }

  /** The map has been ordered since. */
  ghost predicate OrderedSince(log: seq<Event>, n: nat, m: nat) {
    exists k :: n <= k < |log| && log[k].MapSent? && log[k].task == m
  }

  lemma OrderedEarlier(log: seq<Event>, n: nat, n': nat, m: nat)
    requires n' <= n && OrderedSince(log, n, m)
    ensures OrderedSince(log, n', m)
  {
  }

  predicate Unlisted(files: seq<Option<seq<seq<Holder>>>>) {
    exists f :: 0 <= f < |files| && files[f].None?
  }

  /** At some moment some block had a live holder. */
  ghost predicate SomeLive(worlds: nat -> (string -> NodeState), blocks: seq<seq<Holder>>) {
    exists t: nat, b: nat :: b < |blocks| && Live(worlds(t), blocks[b])
  }

  lemma NotOver(maps: seq<MapTask>, orders: seq<Order>, seen: Seen, partialCount: nat, but: Option<nat>)
    requires Coherent(maps, orders, seen, partialCount, but)
    ensures !seen.over
  {
  }

  lemma SeenMaps(maps: seq<MapTask>, orders: seq<Order>, seen: Seen, partialCount: nat)
    requires Coherent(maps, orders, seen, partialCount, None)
    ensures |seen.maps| == |maps|
  {
  }

  lemma EachOnce(m: nat)
    ensures PerFailure(m) == m + (m + 1)
  {
  }

  lemma NoReplies()
    ensures Short([], 1)
  {
  }

  lemma SameBlocks(was: seq<MapTask>, now: seq<MapTask>)
    requires |was| == |now| && forall i :: 0 <= i < |was| ==> was[i].copies == now[i].copies
    ensures Blocks(was) == Blocks(now)
  {
  }

  lemma SameDowns(seen: Seen, m: nat, out: TempFile, block: nat)
    ensures Apply(seen, MapSent(m, out, block)).down == seen.down
  {
  }

  lemma MapSentStep(was: View, now: View, m: nat, out: TempFile, block: nat)
    requires m < |was.maps| && |was.maps| == |now.maps| && OnlyMaps(now.orders)
    requires now.maps == was.maps[m := now.maps[m]] && now.maps[m].copies == was.maps[m].copies
    requires now.partials == was.partials && now.last == was.last && now.seen == Apply(was.seen, MapSent(m, out, block))
    ensures MapStep(was, now, Some(m)) && m !in now.seen.lost && Blocks(now.maps) == Blocks(was.maps)
  {
  }

  lemma NoStep(v: View, but: Option<nat>)
    requires OnlyMaps(v.orders)
    ensures MapStep(v, v, but)
  {
  }

  lemma KnownReduce(maps: seq<MapTask>, orders: seq<Order>, seen: Seen, partialCount: nat, i: nat)
    requires Coherent(maps, orders, seen, partialCount, None) && OnlyReduces(orders) && i < |orders|
    ensures orders[i].ReduceOrder? && (orders[i].reduce == FINAL || orders[i].reduce <= partialCount)
  {
    assert orders[i] in orders;
  }

  /** What lies behind a job and stays so: the messages, the nodes it took out, and the blocks its maps are for. */
  datatype Past = Past(log: seq<Event>, downs: seq<string>, blocks: seq<seq<Holder>>)

  ghost predicate Continues(was: Past, now: Past) {
    was.log <= now.log && was.downs <= now.downs && was.blocks == now.blocks
  }

  /** The node has been taken out since. */
  ghost predicate TakenOut(was: Past, now: Past, node: string) {
    was.downs + [node] <= now.downs
  }

  lemma ContinuesOn(a: Past, b: Past, c: Past)
    requires Continues(a, b) && Continues(b, c)
    ensures Continues(a, c)
    ensures |a.log| < |b.log| ==> |a.log| < |c.log| && c.log[|a.log|] == b.log[|a.log|]
    ensures forall node :: TakenOut(a, b, node) ==> TakenOut(a, c, node)
  {
  }

  /** A message is in order in both modes. */
  predicate Permitted(s: Seen, e: Event) {
    forall combiner: bool :: Allowed(combiner, s, e)
  }

  lemma OneMessage(a: Past, b: Past)
    requires |b.log| > 0 && a.log == b.log[..|b.log| - 1] && a.downs == b.downs && a.blocks == b.blocks
    ensures Continues(a, b)
  {
  }

  lemma Same(a: Past)
    ensures Continues(a, a)
  {
  }

  lemma SameTakenOut(a: Past, b: Past, c: Past)
    requires a.downs == b.downs
    ensures forall node :: TakenOut(b, c, node) ==> TakenOut(a, c, node)
  {
  }

  /** The map of a block, at its best holder. */
  ghost predicate PlacedAt(nodes: string -> NodeState, block: seq<Holder>, task: MapTask) {
    task.copies == block && BestHolder(nodes, block, Holder(task.node, task.block))
  }

  lemma HolderIn(nodes: string -> NodeState, block: seq<Holder>, holder: Holder)
    requires BestHolder(nodes, block, holder)
    ensures holder in block
  {
  }

  lemma NothingPlanned(worlds: nat -> (string -> NodeState))
    ensures PlannedFor(worlds, [], []) == []
  {
  }

  lemma StillPlaced(worlds: nat -> (string -> NodeState), blocks: seq<seq<Holder>>, b: nat, at: seq<nat>, t: nat)
    requires b < |blocks| && |at| == b
    ensures forall task :: WellPlaced(worlds, blocks[..b], at, task) ==>
      WellPlaced(worlds, blocks[..b + 1], at + [t], task)
  {
    hide BestHolder;
    forall task | WellPlaced(worlds, blocks[..b], at, task)
      ensures WellPlaced(worlds, blocks[..b + 1], at + [t], task)
    {
      var k :| 0 <= k < b && task.copies == blocks[..b][k] &&
        BestHolder(worlds(at[k]), blocks[..b][k], Holder(task.node, task.block));
      assert blocks[..b + 1][k] == blocks[..b][k] && (at + [t])[k] == at[k];
    }
  }

  lemma NowPlaced(worlds: nat -> (string -> NodeState), blocks: seq<seq<Holder>>, b: nat, at: seq<nat>, task: MapTask)
    requires b < |blocks| && |at| == b + 1 && PlacedAt(worlds(at[b]), blocks[b], task)
    ensures WellPlaced(worlds, blocks[..b + 1], at, task) && task.copies == blocks[b]
  {
    assert blocks[..b + 1][b] == blocks[b];
  }

  lemma OnceLive(worlds: nat -> (string -> NodeState), blocks: seq<seq<Holder>>, t: nat, b: nat)
    requires b < |blocks| && Live(worlds(t), blocks[b])
    ensures SomeLive(worlds, blocks)
  {
  }

  lemma MapSentFrame(seen: Seen, m: nat, out: TempFile, block: nat)
    ensures var now := Apply(seen, MapSent(m, out, block));
      now.partials == seen.partials && now.last == seen.last && now.failedCopies == seen.failedCopies &&
        now.lost <= seen.lost
  {
  }

  lemma BlocksSoFar(worlds: nat -> (string -> NodeState), files: seq<Option<seq<seq<Holder>>>>, f: nat)
    requires f < |files| && files[f].Some?
    ensures AllBlocks(files[..f + 1]) == AllBlocks(files[..f]) + files[f].value
    ensures |AllBlocks(files[..f + 1])| <= |AllBlocks(files)|
    ensures SomeLive(worlds, files[f].value) ==> SomeLive(worlds, AllBlocks(files))
  {
    assert files[..f + 1][..f] == files[..f];
    BlocksPrefix(files, f + 1);
    if SomeLive(worlds, files[f].value) {
      var t: nat, b: nat :| b < |files[f].value| && Live(worlds(t), files[f].value[b]);
      var k := |AllBlocks(files[..f])| + b;
      assert AllBlocks(files)[k] == AllBlocks(files[..f + 1])[k] == files[f].value[b];
    }
  }

  lemma {:induction false} BlocksPrefix(files: seq<Option<seq<seq<Holder>>>>, n: nat)
    requires n <= |files|
    ensures AllBlocks(files[..n]) <= AllBlocks(files)
  {
    if n == |files| {
      assert files[..n] == files;
    } else {
      BlocksPrefix(files[..|files| - 1], n);
      assert files[..|files| - 1][..n] == files[..n];
    }
  }

  /** Every planned block is one of the blocks, and was live at its moment. */
  lemma {:induction false} PlannedIn(worlds: nat -> (string -> NodeState), blocks: seq<seq<Holder>>, at: seq<nat>)
    requires |at| == |blocks|
    ensures PlannedFor(worlds, blocks, at) != [] ==> SomeLive(worlds, blocks)
    ensures Unheld(worlds, PlannedFor(worlds, blocks, at)) ==> Unheld(worlds, blocks)
    ensures |PlannedFor(worlds, blocks, at)| <= |blocks|
  {
    hide Live;
    OneMapPerBlock(worlds, blocks, at);
    EachPlanned(worlds, blocks, at);
    var planned := PlannedFor(worlds, blocks, at);
    hide PlannedFor;
    if planned != [] {
      assert planned[0] in planned;
      var b: nat :| b < |blocks| && blocks[b] == planned[0] && Live(worlds(at[b]), blocks[b]);
    }
    if Unheld(worlds, planned) {
      var t: nat, i: nat :| i < |planned| && !Live(worlds(t), planned[i]);
      assert planned[i] in planned;
      var b: nat :| b < |blocks| && blocks[b] == planned[i] && Live(worlds(at[b]), blocks[b]);
      assert !Live(worlds(t), blocks[b]);
    }
  }

  lemma {:induction false} EachPlanned(worlds: nat -> (string -> NodeState), blocks: seq<seq<Holder>>, at: seq<nat>)
    requires |at| == |blocks|
    ensures forall c :: c in PlannedFor(worlds, blocks, at) ==>
      exists b: nat :: b < |blocks| && blocks[b] == c && Live(worlds(at[b]), blocks[b])
  {
    hide Live;
    if blocks != [] {
      var n := |blocks| - 1;
      EachPlanned(worlds, blocks[..n], at[..n]);
      forall c | c in PlannedFor(worlds, blocks, at)
        ensures exists b: nat :: b < |blocks| && blocks[b] == c && Live(worlds(at[b]), blocks[b])
      {
        if c in PlannedFor(worlds, blocks[..n], at[..n]) {
          var b: nat :| b < n && blocks[..n][b] == c && Live(worlds(at[..n][b]), blocks[..n][b]);
          assert blocks[b] == c && at[b] == at[..n][b];
        } else {
          assert blocks[n] == c;
        }
      }
    }
  }

  /** The reply of map i, and nothing else, has changed since it was planned again. */
  lemma AfterReplan(first: seq<MapTask>, was: View, now: View, i: nat, node: string)
    requires OnlyNode(first, was.maps, node) && MapStep(was, now, Some(i)) && i < |was.maps| && first[i].node == node
    requires forall j :: 0 <= j < |was.maps| ==> was.maps[j].done
    ensures OnlyNode(first, now.maps, node) && forall j :: 0 <= j < |was.maps| && j != i ==> now.maps[j] == was.maps[j]
    ensures ReducesKept(was, now) && now.seen.lost <= was.seen.lost
  {
  }

  /** Only maps of these nodes have been planned again. */
  predicate OnlyNodes(was: seq<MapTask>, now: seq<MapTask>, nodes: seq<string>) {
    && |was| == |now|
    && forall i :: 0 <= i < |was| ==> was[i].copies == now[i].copies && (was[i].node !in nodes ==> now[i] == was[i])
  }

  /** The outputs still lost are those of the maps on the nodes that have not had their turn. */
  ghost predicate StillLost(maps: seq<MapTask>, lost: set<nat>, nodes: seq<string>, f: nat)
    requires f <= |nodes|
  {
    forall m :: m in lost ==> m < |maps| && maps[m].node in nodes && maps[m].node !in nodes[..f]
  }

  /** No output is lost any more that was on the node. */
  ghost predicate Retrieved(was: View, now: View, node: string) {
    && now.seen.lost <= was.seen.lost
    && forall m :: m in now.seen.lost && m < |was.maps| ==> was.maps[m].node != node
  }

  lemma NextFallen(first: seq<MapTask>, was: View, now: View, nodes: seq<string>, f: nat)
    requires f < |nodes| && OnlyNodes(first, was.maps, nodes[..f]) && OnlyNode(was.maps, now.maps, nodes[f])
    ensures OnlyNodes(first, now.maps, nodes[..f + 1])
    ensures StillLost(first, was.seen.lost, nodes, f) && Retrieved(was, now, nodes[f]) ==>
      StillLost(first, now.seen.lost, nodes, f + 1)
  {
    assert nodes[..f + 1] == nodes[..f] + [nodes[f]];
  }

  lemma ItsRetrieved(was: View, now: View, node: string)
    requires now.seen.lost <= was.seen.lost
    requires forall m :: m in now.seen.lost && m < |was.maps| ==> was.maps[m].node != node
    ensures Retrieved(was, now, node)
  {
  }

  lemma StartFallen(maps: seq<MapTask>, lost: set<nat>, nodes: seq<string>, log: seq<Event>)
    requires LostIn(maps, lost, nodes)
    ensures OnlyNodes(maps, maps, nodes[..0]) && StillLost(maps, lost, nodes, 0)
    ensures NodesOrderedSince(maps, nodes[..0], log, |log|)
  {
  }

  lemma SameBlocksBehind(was: Past, now: Past)
    requires Continues(was, now)
    ensures now.blocks == was.blocks
  {
  }

  lemma Turns(f: nat, k: nat, n: nat)
    requires f < k
    ensures (f + 1) * n == f * n + n <= k * n
  {
    ProductGrows(f + 1, k, n);
  }

  lemma NoneLost(maps: seq<MapTask>, lost: set<nat>, nodes: seq<string>)
    requires StillLost(maps, lost, nodes, |nodes|)
    ensures lost == {}
  {
    assert nodes[..|nodes|] == nodes;
  }

  /** The maps of these nodes have been ordered since. */
  ghost predicate NodesOrderedSince(maps: seq<MapTask>, nodes: seq<string>, log: seq<Event>, n: nat) {
    forall m :: 0 <= m < |maps| && maps[m].node in nodes ==> OrderedSince(log, n, m)
  }

  lemma NextOrdered(first: seq<MapTask>, was: seq<MapTask>, nodes: seq<string>, f: nat, a: Past, b: Past, c: Past)
    requires f < |nodes| && OnlyNodes(first, was, nodes[..f]) && Continues(a, b) && Continues(b, c)
    requires NodesOrderedSince(first, nodes[..f], b.log, |a.log|)
    requires forall m :: 0 <= m < |was| && was[m].node == nodes[f] ==> OrderedSince(c.log, |b.log|, m)
    ensures NodesOrderedSince(first, nodes[..f + 1], c.log, |a.log|)
  {
    forall m | 0 <= m < |first| && first[m].node in nodes[..f + 1] ensures OrderedSince(c.log, |a.log|, m) {
      if first[m].node in nodes[..f] {
        var k :| |a.log| <= k < |b.log| && b.log[k].MapSent? && b.log[k].task == m;
        assert c.log[k] == b.log[k];
      } else {
        var k :| |b.log| <= k < |c.log| && c.log[k].MapSent? && c.log[k].task == m;
      }
    }
  }

  lemma StillOrdered(first: Past, was: Past, now: Past, i: nat)
    requires Continues(first, was) && Continues(was, now)
    ensures forall m :: OrderedSince(was.log, |first.log|, m) ==> OrderedSince(now.log, |first.log|, m)
    ensures |now.log| > |was.log| && now.log[|was.log|].MapSent? && now.log[|was.log|].task == i ==>
      OrderedSince(now.log, |first.log|, i)
  {
    forall m | OrderedSince(was.log, |first.log|, m) ensures OrderedSince(now.log, |first.log|, m) {
      var k :| |first.log| <= k < |was.log| && was.log[k].MapSent? && was.log[k].task == m;
      assert now.log[k] == was.log[k];
    }
  }

  lemma NoCosts(script: seq<Reply>)
    ensures Costs(script, script, 0) && Costs(script, script, 1)
  {
  }

  lemma CostsMore(a: seq<Reply>, b: seq<Reply>, n: int)
    requires Costs(a, b, n)
    ensures Costs(a, b, n + 1)
  {
  }

  lemma ShortMore(a: seq<Reply>, n: int, m: int)
    requires n <= m
    ensures Short(a, n) ==> Short(a, m)
  {
  }

  /** Every block that ever has a live holder always has all its holders active. */
  ghost predicate Steady(worlds: nat -> (string -> NodeState), blocks: seq<seq<Holder>>) {
    forall t: nat, u: nat, b: nat :: b < |blocks| && Live(worlds(t), blocks[b]) ==> AllActive(worlds(u), blocks[b])
  }

  predicate AllActive(nodes: string -> NodeState, copies: seq<Holder>) {
    forall i :: 0 <= i < |copies| ==> nodes(copies[i].node).active
  }

  lemma StillLive(nodes: string -> NodeState, later: string -> NodeState, copies: seq<Holder>)
    requires Live(nodes, copies) && AllActive(later, copies)
    ensures Live(later, copies)
  {
    assert later(copies[0].node).active;
  }

  /** Planned blocks stay held. */
  lemma NeverUnheld(worlds: nat -> (string -> NodeState), blocks: seq<seq<Holder>>, at: seq<nat>)
    requires Steady(worlds, blocks) && |at| == |blocks|
    ensures forall t: nat, c :: c in PlannedFor(worlds, blocks, at) ==> AllActive(worlds(t), c) && Live(worlds(t), c)
    ensures !Unheld(worlds, PlannedFor(worlds, blocks, at))
  {
    EachPlanned(worlds, blocks, at);
    hide PlannedFor, Live, AllActive;
    forall t: nat, c | c in PlannedFor(worlds, blocks, at) ensures AllActive(worlds(t), c) && Live(worlds(t), c) {
      var b: nat :| b < |blocks| && blocks[b] == c && Live(worlds(at[b]), blocks[b]);
      assert AllActive(worlds(t), blocks[b]);
      StillLive(worlds(at[b]), worlds(t), c);
    }
  }

  /** With a block that is live some time something is planned. */
  lemma SomePlanned(worlds: nat -> (string -> NodeState), blocks: seq<seq<Holder>>, at: seq<nat>)
    requires Steady(worlds, blocks) && SomeLive(worlds, blocks) && |at| == |blocks|
    ensures PlannedFor(worlds, blocks, at) != []
  {
    hide Live, AllActive;
    var t: nat, b: nat :| b < |blocks| && Live(worlds(t), blocks[b]);
    assert AllActive(worlds(at[b]), blocks[b]);
    StillLive(worlds(t), worlds(at[b]), blocks[b]);
    LiveIsPlanned(worlds, blocks, at, b);
  }

  lemma {:induction false} LiveIsPlanned(worlds: nat -> (string -> NodeState), blocks: seq<seq<Holder>>, at: seq<nat>,
                                        b: nat)
    requires |at| == |blocks| && b < |blocks| && Live(worlds(at[b]), blocks[b])
    ensures blocks[b] in PlannedFor(worlds, blocks, at)
  {
    hide Live;
    if b < |blocks| - 1 {
      LiveIsPlanned(worlds, blocks[..|blocks| - 1], at[..|blocks| - 1], b);
    }
  }

  lemma NeverUnserved(worlds: nat -> (string -> NodeState), maps: seq<MapTask>, t: nat)
    requires maps != [] && Placed(maps) && AllActive(worlds(t), maps[0].copies)
    ensures !Unserved(worlds(t), maps)
  {
    var k :| 0 <= k < |maps[0].copies| && maps[0].copies[k] == Holder(maps[0].node, maps[0].block);
    assert worlds(t)(maps[0].copies[k].node).active;
  }
}
