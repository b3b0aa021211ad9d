/** One job in MaRTA: planning the maps, receiving the replies in any order with nested replanning, and the reduces of
    both modes with their restarts (MaRTA/src/Planning, MaRTA/src/Connections/JobConnection.c). */
module MartaJob {
  import opened MartaTrace
  import opened MartaState
  import opened Wire

  class Job {
    const combiner: bool
    /** What others decide, by the number of times the job has looked: the node table as other jobs and the file system
        have left it, the time stamps, whether a message could be sent, and the file system's replies to copy orders. */
    const worlds: nat -> (string -> NodeState)
    const stamps: nat -> nat
    const sends: nat -> bool
    const copies: nat -> CopyReply
    var tick: nat
    var nodes: string -> NodeState
    /** The replies of the Job still to come; without one its connection is lost. */
    var script: seq<Reply>
    /** The orders the Job still owes a reply. */
    var outstanding: seq<Order>
    var maps: seq<MapTask>
    /** A 16-bit counter. */
    var mapsDone: nat
    var partialReduces: seq<ReduceTask>
    var finalReduce: ReduceTask
    ghost var log: seq<Event>
    ghost var seen: Seen
    /** The nodes the job has taken out, one after another. */
    ghost var downs: seq<string>

    ghost predicate Honest()
      reads this`log, this`seen
    {
      && seen == Watch(log) && Legal(combiner, log) && DieSent(RESULT_OK) !in log
      && (CopyReplied(false) in log ==> exists t :: copies(t) != CopyDone)
    }

    /** The invariant of the job, but for the map whose failure is being handled. */
    ghost predicate ValidBut(but: Option<nat>)
      reads this
    {
      Honest() && Coherent(maps, outstanding, seen, |partialReduces|, but) && downs == seen.down
    }

    ghost predicate Valid()
      reads this
    {
      ValidBut(None)
    }

    /** The thread has ended, and why. */
    ghost predicate Ended(why: Cause)
      reads this
    {
      && Honest()
      && match why
         case Lost => script == [] && !seen.over
         case SendFailed => !sends(tick) && !seen.over
         case Unavailable => log != [] && log[|log| - 1] == DieSent(RESULT_FILE_UNAVAILABLE)
         case NoRoom => copies(tick) == CantCopy && log != [] && log[|log| - 1] == DieSent(RESULT_CANT_COPY)
         case NullPointer => combiner && !seen.over
    }

    /** The thread has ended in the map phase. */
    ghost predicate EndedInMaps(why: Cause)
      reads this
    {
      Ended(why) && why in {Lost, SendFailed, Unavailable} && (why == Unavailable ==> Unheld(worlds, Blocks(maps)))
    }

    constructor (combiner: bool, worlds: nat -> (string -> NodeState), stamps: nat -> nat, sends: nat -> bool,
                 copies: nat -> CopyReply, script: seq<Reply>)
      ensures this.combiner == combiner && this.worlds == worlds
      ensures this.sends == sends && this.copies == copies && this.script == script
      ensures Valid() && maps == [] && mapsDone == 0 && outstanding == [] && log == [] && seen == NOTHING
      ensures partialReduces == [] && finalReduce.temps == []
    {
      this.combiner, this.worlds, this.stamps, this.sends, this.copies := combiner, worlds, stamps, sends, copies;
      tick, nodes, this.script, outstanding := 0, worlds(0), script, [];
      maps, mapsDone, partialReduces, finalReduce := [], 0, [], ReduceTask("", 0, [], false);
      log, seen, downs := [], NOTHING, [];
    }

    ghost function Now(): View
      reads this
    {
      View(maps, outstanding, seen, partialReduces, finalReduce)
    }

    ghost function Behind(): Past
      reads this
    {
      Past(log, downs, Blocks(maps))
    }

    ghost method Emit(e: Event)
      requires Honest() && Legal(combiner, log + [e]) && e != DieSent(RESULT_OK)
      requires e == CopyReplied(false) ==> copies(tick) != CopyDone
      modifies this`log, this`seen
      ensures Honest() && log == old(log) + [e] && seen == Apply(old(seen), e)
    {
      hide Legal, Watch, Apply;
      WatchAppend(log, e);
      log, seen := log + [e], Apply(seen, e);
    }

    /** A message that is in order leaves the conversation legal. */
    lemma InOrder(e: Event)
      requires Honest() && Allowed(combiner, seen, e)
      ensures Legal(combiner, log + [e])
    {
      LegalAppend(combiner, log, e);
    }

    lemma InOrderAnyway(e: Event)
      requires Honest() && Permitted(seen, e)
      ensures Legal(combiner, log + [e])
    {
      InOrder(e);
    }

    /** Whatever other threads do in the meantime. */
    method Others()
      modifies this`tick, this`nodes
      ensures tick == old(tick) + 1 && nodes == worlds(tick)
    {
      tick := tick + 1;
      nodes := worlds(tick);
    }

    method Stamp() returns (name: nat)
      modifies this`tick
    {
      tick := tick + 1;
      name := stamps(tick);
    }

    method DeactivateNode(name: string)
      modifies this`nodes, this`downs
      ensures !nodes(name).active && downs == old(downs) + [name]
    {
      var was := nodes;
      nodes := (x: string) => if x == name then was(x).(active := false) else was(x);
      downs := downs + [name];
    }

    /** The fold of selectNode and searchNode: the first of the least loaded active nodes. */
    method LeastLoaded(names: seq<string>) returns (at: Option<nat>)
      ensures at.None? ==> forall i :: 0 <= i < |names| ==> !nodes(names[i]).active
      ensures at.Some? ==> at.value < |names| && BestAt(nodes, names, at.value) && nodes(names[at.value]).active
      ensures at.Some? ==> forall i :: 0 <= i < |names| && nodes(names[i]).active ==>
        nodes(names[at.value]).load <= nodes(names[i]).load
      ensures at.Some? ==> forall i :: 0 <= i < at.value && nodes(names[i]).active ==>
        nodes(names[at.value]).load < nodes(names[i]).load
    {
      at := None;
      for k := 0 to |names|
        invariant at.None? ==> forall i :: 0 <= i < k ==> !nodes(names[i]).active
        invariant at.Some? ==> BestAt(nodes, names[..k], at.value)
      {
        if (at.None? || nodes(names[k]).load < nodes(names[at.value]).load) && nodes(names[k]).active {
          at := Some(k);
        }
      }
      assert names[..|names|] == names;
    }

    /** Stores the map and sends its order. */
    method NotificarMap(m: nat, task: MapTask) returns (v: Verdict<()>)
      requires m <= |maps| && ValidBut(if m < |maps| then Some(m) else None) && OnlyMaps(outstanding)
      requires Holder(task.node, task.block) in task.copies
      modifies this`tick, this`maps, this`outstanding, this`log, this`seen
      ensures v.Gone? ==> v.why == SendFailed && Ended(SendFailed) && maps == old(maps) && log == old(log)
      ensures v.Here? ==> Valid() && OnlyMaps(outstanding) && outstanding == old(outstanding) + [MapOrder(m)]
      ensures v.Here? ==> maps == Stored(old(maps), m, task.(done := false))
      ensures v.Here? ==> log == old(log) + [MapSent(m, TempFile(task.node, task.name), task.block)]
      ensures v.Here? ==> seen == Apply(old(seen), MapSent(m, TempFile(task.node, task.name), task.block))
    {
      hide Coherent, Honest, OnlyMaps, Legal, Apply, Permitted, Stored;
      NotOver(maps, outstanding, seen, |partialReduces|, if m < |maps| then Some(m) else None);
      var sending := task.(done := false);
      tick := tick + 1;
      if !sends(tick) {
        return Gone(SendFailed);
      }
      MapSentKeeps(maps, outstanding, seen, |partialReduces|, m, sending);
      SameDowns(seen, m, TempFile(task.node, task.name), task.block);
      InOrderAnyway(MapSent(m, TempFile(task.node, task.name), task.block));
      Emit(MapSent(m, TempFile(task.node, task.name), task.block));
      maps := Stored(maps, m, sending);
      outstanding := outstanding + [MapOrder(m)];
      v := Here(());
    }

    method NotifFileUnavailable()
      requires Honest() && !seen.over
      modifies this`log, this`seen
      ensures Ended(Unavailable) && log == old(log) + [DieSent(RESULT_FILE_UNAVAILABLE)]
    {
      InOrder(DieSent(RESULT_FILE_UNAVAILABLE));
      Emit(DieSent(RESULT_FILE_UNAVAILABLE));
    }

    /** Gives the map to the best holder of its block, as it stands now, and sends the order; false exactly when there
        is no live holder. */
    method OrderAgain(m: nat) returns (v: Verdict<bool>)
      requires m < |maps| && ValidBut(Some(m)) && OnlyMaps(outstanding)
      modifies this`tick, this`nodes, this`maps, this`outstanding, this`log, this`seen
      ensures v == Here(false) <==> !Live(worlds(old(tick) + 1), old(maps)[m].copies)
      ensures v.Gone? ==> v.why == SendFailed && Ended(SendFailed) && maps == old(maps) && log == old(log)
      ensures v == Here(false) ==> ValidBut(Some(m)) && Now() == old(Now()) && log == old(log)
      ensures v.Here? ==> Continues(old(Behind()), Behind()) && MapStep(old(Now()), Now(), Some(m))
      ensures v == Here(true) ==> Valid() && OnlyMaps(outstanding) && outstanding == old(outstanding) + [MapOrder(m)]
      ensures v == Here(true) ==> m !in seen.lost && |log| == |old(log)| + 1
      ensures v == Here(true) ==> IsPlanned(log[|old(log)|], m, worlds(old(tick) + 1), old(maps)[m].copies)
      ensures v == Here(true) ==> var node, world, copies := maps[m].node, worlds(old(tick) + 1), old(maps)[m].copies;
        world(node).active && forall i :: 0 <= i < |copies| && world(copies[i].node).active ==>
          world(node).load <= world(copies[i].node).load
    {
      hide Coherent, Honest, OnlyMaps, OnlyReduces, Valid, BestAt, BestHolder, Live, Apply, Blocks, MapStep;
      ghost var past := Behind();
      NoStep(Now(), Some(m));
      Others();
      var at := LeastLoaded(NodesOf(maps[m].copies));
      if at.None? {
        NotLive(nodes, maps[m].copies);
        return Here(false);
      }
      ItsLive(nodes, maps[m].copies, at.value);
      var copy := maps[m].copies[at.value];
      ItsBest(nodes, maps[m].copies, at.value);
      BestIsLeast(nodes, maps[m].copies, copy);
      var name := Stamp();
      ghost var was := Now();
      var sent := NotificarMap(m, maps[m].(node := copy.node, block := copy.block, name := name));
      if sent.Gone? {
        return Gone(sent.why);
      }
      MapSentStep(was, Now(), m, TempFile(copy.node, name), copy.block);
      OneMessage(past, Behind());
      v := Here(true);
    }

    /** Orders the map again and waits for one reply; false exactly when there is no live holder. */
    method RePlanMap(m: nat) returns (v: Verdict<bool>)
      requires m < |maps| && ValidBut(Some(m)) && OnlyMaps(outstanding)
      modifies this
      ensures v == Here(false) <==> !Live(worlds(old(tick) + 1), old(maps)[m].copies)
      ensures Continues(old(Behind()), Behind())
      ensures v.Gone? ==> EndedInMaps(v.why) && (v.why == Lost ==> Short(old(script), 1))
      ensures v.Here? ==> MapStep(old(Now()), Now(), Some(m)) && |outstanding| == old(|outstanding|)
      ensures v == Here(true) ==> Valid() && mapsDone == (old(mapsDone) + 1) % LIMIT16 && m !in seen.lost
      ensures v == Here(true) ==> Costs(old(script), script, 1) && |script| < old(|script|)
      ensures v == Here(true) ==> |log| > |old(log)|
      ensures v == Here(true) ==> IsPlanned(log[|old(log)|], m, worlds(old(tick) + 1), old(maps)[m].copies)
      ensures v == Here(false) ==> ValidBut(Some(m)) && Now() == old(Now()) && log == old(log)
      ensures v == Here(false) ==> mapsDone == old(mapsDone) && script == old(script)
      decreases |script|, 1
    {
      hide Coherent, Honest, OnlyMaps, OnlyReduces, ReduceReply, Valid, Live, Blocks, MapStep, IsPlanned, Costs,
        Short, Unheld;
      hide Continues;
      ghost var past, was := Behind(), Now();
      var sent := OrderAgain(m);
      if sent.Gone? {
        Same(past);
        return Gone(sent.why);
      }
      if !sent.value {
        return Here(false);
      }
      ghost var after, sentPast := Now(), Behind();
      var reply := RecvResult();
      ContinuesOn(past, sentPast, Behind());
      if reply.Gone? {
        return Gone(reply.why);
      }
      MapStepAgain(was, after, Now(), m);
      v := Here(true);
    }

    /** Takes the reply to the order at place i off the connection. */
    method TakeMapReply(i: nat, ok: bool) returns (m: nat)
      requires Valid() && OnlyMaps(outstanding) && i < |outstanding|
      modifies this`outstanding, this`log, this`seen
      ensures Honest() && OnlyMaps(outstanding) && |outstanding| == old(|outstanding|) - 1
      ensures old(outstanding)[i] == MapOrder(m) && m < |maps| && !maps[m].done
      ensures seen == Apply(old(seen), MapReplied(m, ok)) && log == old(log) + [MapReplied(m, ok)]
      ensures seen.down == if ok then downs else downs + [maps[m].node]
      ensures ok ==> Coherent(maps[m := maps[m].(done := true)], outstanding, seen, |partialReduces|, None)
      ensures !ok ==> Coherent(maps, outstanding, seen, |partialReduces|, Some(m))
    {
      hide Coherent, Honest, Legal, OnlyReduces, OnlyMaps, Apply, Minus, Permitted;
      OneKind(outstanding, i);
      m := outstanding[i].task;
      MapRepliedKeeps(maps, outstanding, seen, |partialReduces|, i, m);
      InOrderAnyway(MapReplied(m, ok));
      Emit(MapReplied(m, ok));
      outstanding := Minus(outstanding, i);
    }

    /** A map reply. The node of a failed map is taken out. */
    method DesserializeMapResult(i: nat, ok: bool) returns (v: Verdict<()>, m: nat)
      requires Valid() && OnlyMaps(outstanding) && i < |outstanding|
      modifies this
      ensures old(outstanding)[i] == MapOrder(m) && m < |old(maps)|
      ensures Continues(old(Behind()), Behind()) && (!ok ==> TakenOut(old(Behind()), Behind(), old(maps)[m].node))
      ensures v.Gone? ==> !ok && EndedInMaps(v.why) && (v.why == Lost ==> Short(old(script), 1))
      ensures v.Here? ==> Valid() && MapStep(old(Now()), Now(), None) && |outstanding| == old(|outstanding|) - 1
      ensures v.Here? ==> mapsDone == (old(mapsDone) + 1) % LIMIT16
      ensures v.Here? ==> if ok then script == old(script)
        else Costs(old(script), script, 1) && |script| < |old(script)|
      decreases |script|, 3
    {
      hide Coherent, Honest, OnlyReduces, OnlyMaps, MapStep, Apply, Blocks, TakenOut, EndedInMaps;
      ghost var was, past := Now(), Behind();
      m := TakeMapReply(i, ok);
      ghost var took := Behind();
      OneMessage(past, took);
      if ok {
        maps := maps[m := maps[m].(done := true)];
        mapsDone := (mapsDone + 1) % LIMIT16;
        MapDone(was, Now(), m);
        SameBlocks(was.maps, maps);
        v := Here(());
      } else {
        ghost var failed := Now();
        hide Continues;
        v := MapFailed(m);
        ContinuesOn(past, took, Behind());
        SameTakenOut(past, took, Behind());
        if v.Here? {
          MapStepNow(was, failed, Now(), m);
        }
      }
    }

    /** The branch of a failed map: its node is taken out and the map planned again, or the job ends. */
    method MapFailed(m: nat) returns (v: Verdict<()>)
      requires m < |maps| && Honest() && Coherent(maps, outstanding, seen, |partialReduces|, Some(m)) &&
        OnlyMaps(outstanding)
      requires seen.down == downs + [maps[m].node]
      modifies this
      ensures Continues(old(Behind()), Behind()) && TakenOut(old(Behind()), Behind(), old(maps)[m].node)
      ensures v.Gone? ==> EndedInMaps(v.why) && (v.why == Lost ==> Short(old(script), 1))
      ensures v.Here? ==> Valid() && MapStep(old(Now()), Now(), Some(m)) && |outstanding| == old(|outstanding|)
      ensures v.Here? ==> mapsDone == (old(mapsDone) + 1) % LIMIT16
      ensures v.Here? ==> Costs(old(script), script, 1) && |script| < old(|script|)
      decreases |script|, 2
    {
      hide Coherent, Honest, OnlyReduces, OnlyMaps, MapStep, Apply, Live, Blocks;
      ghost var past := Behind();
      DeactivateNode(maps[m].node);
      ghost var out := Behind();
      var planned := RePlanMap(m);
      ghost var replanned := Behind();
      ContinuesOn(past, out, replanned);
      hide Continues, TakenOut;
      if planned.Gone? {
        return Gone(planned.why);
      }
      if !planned.value {
        ItsUnheld(worlds, maps, old(tick) + 1, m);
        NotOver(maps, outstanding, seen, |partialReduces|, Some(m));
        NotifFileUnavailable();
        OneMessage(replanned, Behind());
        ContinuesOn(past, replanned, Behind());
        return Gone(Unavailable);
      }
      v := Here(());
    }

    method TakeReduceReply(i: nat, ghost fallen: Option<string>) returns (r: nat)
      requires Valid() && OnlyReduces(outstanding) && i < |outstanding|
      modifies this`outstanding, this`log, this`seen
      ensures Honest() && Coherent(maps, outstanding, seen, |partialReduces|, None)
      ensures OnlyReduces(outstanding) && outstanding == Minus(old(outstanding), i)
      ensures old(outstanding)[i] == ReduceOrder(r) && (r == FINAL || r <= |partialReduces|)
      ensures seen == Apply(old(seen), ReduceReplied(r, fallen)) && log == old(log) + [ReduceReplied(r, fallen)]
      ensures seen.down == if fallen.None? then downs else downs + [fallen.value]
    {
      hide Coherent, Honest, Legal, OnlyReduces, OnlyMaps, Apply, Minus, Permitted;
      OneKind(outstanding, i);
      r := outstanding[i].reduce;
      ReduceRepliedKeeps(maps, outstanding, seen, |partialReduces|, i, r, fallen);
      InOrderAnyway(ReduceReplied(r, fallen));
      Emit(ReduceReplied(r, fallen));
      outstanding := Minus(outstanding, i);
    }

    /** A reduce that succeeded is done; the fallen node of one that failed is taken out. */
    method SettleReduce(r: nat, fallen: Option<string>)
      requires r == FINAL || r <= |partialReduces|
      modifies this`nodes, this`partialReduces, this`finalReduce, this`downs
      ensures Now() == SettledView(old(Now()), r, fallen)
      ensures downs == if fallen.None? then old(downs) else old(downs) + [fallen.value]
      ensures fallen.Some? ==> !nodes(fallen.value).active
    {
      if fallen.Some? {
        DeactivateNode(fallen.value);
      } else if r == FINAL {
        finalReduce := finalReduce.(done := true);
      } else {
        partialReduces := partialReduces[r - 1 := partialReduces[r - 1].(done := true)];
      }
    }

    /** A reduce reply: the node that has fallen, when it failed, which is then taken out. */
    method DesserializaReduceResult(reply: Reply) returns (node: Option<string>)
      requires Valid() && OnlyReduces(outstanding) && outstanding != []
      modifies this`nodes, this`outstanding, this`partialReduces, this`finalReduce, this`log, this`seen, this`downs
      ensures Valid() && ReduceReply(old(Now()), Now(), reply, node) && |outstanding| == |old(outstanding)| - 1
      ensures Continues(old(Behind()), Behind())
      ensures reply.ok ==> node.None?
      ensures !reply.ok && reply.fallen.Some? ==> node == reply.fallen
      ensures !reply.ok && reply.fallen.None? ==> node == Some(OwnNode(old(Now()), reply.pick))
      ensures node.Some? ==> !nodes(node.value).active && downs == old(downs) + [node.value]
    {
      hide Coherent, Honest, OnlyMaps, Apply, OnlyReduces, Minus, ReduceStep, Blocks, SettledView;
      var i := reply.pick % |outstanding|;
      KnownReduce(maps, outstanding, seen, |partialReduces|, i);
      ghost var was := Now();
      var r := outstanding[i].reduce;
      node := None;
      if !reply.ok {
        node := if reply.fallen.Some? then reply.fallen else Some(ReduceOf(r).node);
      }
      var _ := TakeReduceReply(i, node);
      ghost var after := Now();
      SettleReduce(r, node);
      ReduceDone(was, after, Now(), i, r, node);
      SettledFields(after, r, node);
    }

    /** One reply. While maps are outstanding it nets exactly one more map done, whatever it replans; while reduces
        are, it settles the one the reply is about and names the fallen node if it failed. The thread ends only when
        the replies run out or, in a replanning, an order cannot be sent or a block has no live holder. */
    method RecvResult() returns (v: Verdict<Option<string>>)
      requires Valid() && outstanding != [] && (OnlyMaps(outstanding) || OnlyReduces(outstanding))
      modifies this
      ensures Continues(old(Behind()), Behind())
      ensures v.Gone? ==> EndedInMaps(v.why) && (v.why == Lost ==> Short(old(script), 1))
      ensures v.Gone? && old(OnlyReduces(outstanding)) ==> v.why == Lost && old(script) == [] && seen == old(seen)
      ensures v.Here? ==> Valid() && |outstanding| == old(|outstanding|) - 1 && |script| < old(|script|)
      ensures v.Here? && old(OnlyMaps(outstanding)) ==> MapStep(old(Now()), Now(), None) && v.value.None?
      ensures v.Here? && old(OnlyMaps(outstanding)) ==> mapsDone == (old(mapsDone) + 1) % LIMIT16
      ensures v.Here? && old(OnlyMaps(outstanding)) ==> Costs(old(script), script, 1)
      ensures v.Here? && old(OnlyReduces(outstanding)) ==> old(script) != [] && script == old(script)[1..]
      ensures v.Here? && old(OnlyReduces(outstanding)) ==> ReduceReply(old(Now()), Now(), old(script)[0], v.value)
      ensures v.Here? && old(OnlyReduces(outstanding)) ==> mapsDone == old(mapsDone)
      ensures v.Here? && old(OnlyReduces(outstanding)) ==> var reply := old(script)[0];
        && (reply.ok ==> v.value.None?)
        && (!reply.ok && reply.fallen.Some? ==> v.value == reply.fallen)
        && (!reply.ok && reply.fallen.None? ==> v.value == Some(OwnNode(old(Now()), reply.pick)))
      decreases |script|, 0
    {
      hide Coherent, Honest, OnlyMaps, OnlyReduces, MapStep, ReduceStep, ReduceReply, Minus, Apply, Fails, Blocks;
      NotOver(maps, outstanding, seen, |partialReduces|, None);
      ghost var past := Behind();
      Same(past);
      hide Continues;
      if script == [] {
        NoReplies();
        return Gone(Lost);
      }
      OneReply(script);
      var reply := script[0];
      script := script[1..];
      Others();
      var i := reply.pick % |outstanding|;
      OneKind(outstanding, i);
      match outstanding[i]
      case MapOrder(m) =>
        hide EndedInMaps;
        var done, _ := DesserializeMapResult(i, reply.ok);
        v := if done.Gone? then Gone(done.why) else Here(None);
      case ReduceOrder(r) =>
        var node := DesserializaReduceResult(reply);
        v := Here(node);
    }

    /** The counter is the number of maps flagged done. */
    ghost predicate Counted()
      reads this`maps, this`mapsDone
    {
      mapsDone == |DoneSet(maps)|
    }

    /** Orders the map of one block at its best holder; without a live holder the block is skipped. */
    method MapPlanning(block: seq<Holder>) returns (v: Verdict<()>)
      requires Valid() && OnlyMaps(outstanding) && |outstanding| == |maps|
      modifies this`tick, this`nodes, this`maps, this`outstanding, this`log, this`seen
      ensures v.Gone? ==>
        v.why == SendFailed && Ended(SendFailed) && Live(worlds(old(tick) + 1), block) && maps == old(maps)
      ensures v.Here? ==> Valid() && OnlyMaps(outstanding) && |outstanding| == |maps|
      ensures v.Here? ==> ReducesKept(old(Now()), Now()) && seen.lost <= old(seen.lost)
      ensures !Live(worlds(old(tick) + 1), block) ==> v.Here? && maps == old(maps) && log == old(log)
      ensures v.Here? && Live(worlds(old(tick) + 1), block) ==>
        |maps| == |old(maps)| + 1 && maps[..|old(maps)|] == old(maps)
      ensures v.Here? && Live(worlds(old(tick) + 1), block) ==>
        PlacedAt(worlds(old(tick) + 1), block, maps[|old(maps)|])
      ensures v.Here? && |maps| > |old(maps)| ==> var node, world := maps[|old(maps)|].node, worlds(old(tick) + 1);
        world(node).active && forall i :: 0 <= i < |block| && world(block[i].node).active ==>
          world(node).load <= world(block[i].node).load
    {
      hide Coherent, Honest, OnlyMaps, OnlyReduces, BestAt, BestHolder, Live, Apply;
      Others();
      ghost var world := nodes;
      var selected := LeastLoaded(NodesOf(block));
      if selected.Some? {
        var holder := block[selected.value];
        ItsBest(nodes, block, selected.value);
        ItsLive(nodes, block, selected.value);
        var name := Stamp();
        ghost var before := Now();
        HolderIn(world, block, holder);
        BestIsLeast(world, block, holder);
        v := NotificarMap(|maps|, MapTask(block, holder.node, holder.block, name, false));
        MapSentFrame(before.seen, |before.maps|, TempFile(holder.node, name), holder.block);
      } else {
        NotLive(nodes, block);
        v := Here(());
      }
    }

    /** Orders the maps of one file, each at the best holder of its block at its moment. */
    method FileMap(blocks: seq<seq<Holder>>) returns (v: Verdict<()>, ghost at: seq<nat>)
      requires Valid() && OnlyMaps(outstanding) && |outstanding| == |maps|
      modifies this`tick, this`nodes, this`maps, this`outstanding, this`log, this`seen
      ensures v.Gone? ==> v.why == SendFailed && Ended(SendFailed) && SomeLive(worlds, blocks)
      ensures |old(maps)| <= |maps| <= |old(maps)| + |blocks|
      ensures v.Here? ==> Valid() && OnlyMaps(outstanding) && |outstanding| == |maps|
      ensures v.Here? ==> |at| == |blocks| && Blocks(maps) == Blocks(old(maps)) + PlannedFor(worlds, blocks, at)
      ensures v.Here? ==> forall m :: |old(maps)| <= m < |maps| ==> WellPlaced(worlds, blocks, at, maps[m])
      ensures v.Here? ==> ReducesKept(old(Now()), Now()) && seen.lost <= old(seen.lost)
    {
      hide Coherent, Honest, OnlyMaps, OnlyReduces, BestHolder, Live, Apply, WellPlaced, SomeLive, PlannedFor, PlacedAt;
      at := [];
      v := Here(());
      NothingPlanned(worlds);
      for b := 0 to |blocks|
        invariant v.Here? && Valid() && OnlyMaps(outstanding) && |outstanding| == |maps| <= |old(maps)| + b
        invariant ReducesKept(old(Now()), Now()) && seen.lost <= old(seen.lost)
        invariant |at| == b && Blocks(maps) == Blocks(old(maps)) + PlannedFor(worlds, blocks[..b], at)
        invariant |old(maps)| <= |maps| && forall m :: |old(maps)| <= m < |maps| ==>
          WellPlaced(worlds, blocks[..b], at, maps[m])
      {
        ghost var was, before := at, maps;
        at := at + [tick + 1];
        v := MapPlanning(blocks[b]);
        if v.Gone? {
          OnceLive(worlds, blocks, at[b], b);
          return;
        }
        PlanOneMore(worlds, blocks, b, at);
        StillPlaced(worlds, blocks, b, was, at[b]);
        if Live(worlds(at[b]), blocks[b]) {
          NowPlaced(worlds, blocks, b, at, maps[|before|]);
          assert Blocks(maps) == Blocks(before) + [blocks[b]];
        }
      }
      assert blocks[..|blocks|] == blocks;
    }

    /** The state between phases: every map done, nothing outstanding, and no output lost on a fallen node. */
    ghost predicate Ready()
      reads this
    {
      Valid() && outstanding == [] && mapsDone == |maps| < LIMIT16 && finalReduce.temps == [] && seen.lost == {}
    }

    /** Whether a map was ordered for every block that had a live holder at its moment. */
    ghost predicate PlannedAs(files: seq<Option<seq<seq<Holder>>>>, at: seq<nat>)
      reads this`maps
    {
      |at| == |AllBlocks(files)| && Blocks(maps) == PlannedFor(worlds, AllBlocks(files), at)
    }

    /** Orders one map for every block with a live holder and returns when all of them are done. */
    method PlanMaps(files: seq<Option<seq<seq<Holder>>>>) returns (v: Verdict<()>, ghost at: seq<nat>)
      requires Valid() && maps == [] && outstanding == [] && mapsDone == 0 && finalReduce.temps == [] && seen.lost == {}
      requires |AllBlocks(files)| < LIMIT16
      modifies this
      ensures Unlisted(files) ==> v == Gone(Unavailable)
      ensures v.Gone? ==> Ended(v.why) && v.why in {Lost, SendFailed, Unavailable}
      ensures v == Gone(Lost) ==> Short(old(script), |maps|)
      ensures v.Gone? && !SomeLive(worlds, AllBlocks(files)) ==> Unlisted(files)
      ensures v == Gone(Unavailable) ==> Unlisted(files) || (PlannedAs(files, at) && Unheld(worlds, Blocks(maps)))
      ensures |maps| <= |AllBlocks(files)|
      ensures v.Here? ==> Ready() && Counted() && ReducesKept(old(Now()), Now()) && Costs(old(script), script, |maps|)
      ensures v.Here? ==> |at| == |AllBlocks(files)| && Blocks(maps) == PlannedFor(worlds, AllBlocks(files), at)
    {
      hide Coherent, Honest, OnlyMaps, OnlyReduces, PlannedFor, Fails, MapStep, EndedInMaps;
      at := [];
      var available := true;
      for f := 0 to |files|
        invariant available <==> forall g :: 0 <= g < f ==> files[g].Some?
      {
        if files[f].None? {
          available := false;
        }
      }
      if !available {
        NotOver(maps, outstanding, seen, |partialReduces|, None);
        NotifFileUnavailable();
        return Gone(Unavailable), at;
      }
      v, at := OrderMaps(files);
      if v.Gone? {
        return;
      }
      v := AwaitMaps(files, at);
    }

    /** The first half of planMaps: the orders of all files. */
    method OrderMaps(files: seq<Option<seq<seq<Holder>>>>) returns (v: Verdict<()>, ghost at: seq<nat>)
      requires Valid() && maps == [] && outstanding == [] && !Unlisted(files)
      modifies this`tick, this`nodes, this`maps, this`outstanding, this`log, this`seen
      ensures v.Gone? ==> v.why == SendFailed && Ended(SendFailed) && SomeLive(worlds, AllBlocks(files))
      ensures |maps| <= |AllBlocks(files)|
      ensures v.Here? ==> Valid() && OnlyMaps(outstanding) && |outstanding| == |maps|
      ensures v.Here? ==> |at| == |AllBlocks(files)| && Blocks(maps) == PlannedFor(worlds, AllBlocks(files), at)
      ensures v.Here? ==> ReducesKept(old(Now()), Now()) && seen.lost <= old(seen.lost)
    {
      hide Coherent, Honest, OnlyMaps, OnlyReduces, PlannedFor, WellPlaced, SomeLive;
      at := [];
      v := Here(());
      NothingYet(worlds);
      for f := 0 to |files|
        invariant v.Here? && Valid() && OnlyMaps(outstanding) && |outstanding| == |maps| <= |AllBlocks(files[..f])|
        invariant ReducesKept(old(Now()), Now()) && seen.lost <= old(seen.lost)
        invariant |at| == |AllBlocks(files[..f])| && Blocks(maps) == PlannedFor(worlds, AllBlocks(files[..f]), at)
      {
        ghost var more;
        v, more := FileMap(files[f].value);
        BlocksSoFar(worlds, files, f);
        if v.Gone? {
          return;
        }
        PlannedConcat(worlds, AllBlocks(files[..f]), files[f].value, at, more);
        at := at + more;
      }
      assert files[..|files|] == files;
    }

    /** The second half: the replies of all maps. */
    method AwaitMaps(ghost files: seq<Option<seq<seq<Holder>>>>, ghost at: seq<nat>) returns (v: Verdict<()>)
      requires Valid() && OnlyMaps(outstanding) && |outstanding| == |maps| < LIMIT16 && mapsDone == 0
      requires |at| == |AllBlocks(files)| && Blocks(maps) == PlannedFor(worlds, AllBlocks(files), at)
      requires finalReduce.temps == [] && seen.lost == {}
      modifies this
      ensures |maps| == |old(maps)|
      ensures v.Gone? ==> maps != [] && Ended(v.why) && v.why in {Lost, SendFailed, Unavailable}
      ensures v == Gone(Lost) ==> Short(old(script), |maps|)
      ensures v.Gone? ==> SomeLive(worlds, AllBlocks(files))
      ensures v == Gone(Unavailable) ==> Unheld(worlds, Blocks(maps))
      ensures v.Here? ==> Ready() && Counted() && ReducesKept(old(Now()), Now()) && Costs(old(script), script, |maps|)
      ensures Blocks(maps) == Blocks(old(maps))
    {
      hide Coherent, Honest, OnlyMaps, OnlyReduces, PlannedFor, Fails, Live, Unheld, SomeLive;
      var mapsCount := |maps|;
      DoneAndOutstanding(maps, outstanding, seen, |partialReduces|);
      PlannedIn(worlds, AllBlocks(files), at);
      for i := 0 to mapsCount
        invariant Valid() && OnlyMaps(outstanding) && |maps| == mapsCount && mapsDone + |outstanding| == |maps|
        invariant mapsDone == i && Counted() && Blocks(maps) == Blocks(old(maps))
        invariant ReducesKept(old(Now()), Now()) && seen.lost == {} && Costs(old(script), script, i)
      {
        ghost var left := script;
        var reply := RecvResult();
        CostsAdd(old(script), left, script, i, 1);
        CostsAdd(old(script), left, [], i, 1);
        if reply.Gone? {
          return Gone(reply.why);
        }
        DoneAndOutstanding(maps, outstanding, seen, |partialReduces|);
      }
      v := Here(());
    }

    /** Takes back one map that was done and plans it again. */
    method RePlanDone(i: nat) returns (v: Verdict<bool>)
      requires Valid() && outstanding == [] && i < |maps|
      modifies this
      ensures Continues(old(Behind()), Behind())
      ensures v.Gone? ==> EndedInMaps(v.why) && (v.why == Lost ==> Short(old(script), 1))
      ensures v.Here? ==>
        Valid() && outstanding == [] && MapStep(old(Now()), Now(), Some(i)) && Costs(old(script), script, 1)
      ensures forall j :: 0 <= j < |old(maps)| ==> old(maps)[j].done
      ensures v == Here(false) <==> !Live(worlds(old(tick) + 1), old(maps)[i].copies)
      ensures v == Here(true) && old(mapsDone) < LIMIT16 ==> mapsDone == old(mapsDone)
      ensures v == Here(true) ==> i !in seen.lost && |log| > |old(log)|
      ensures v == Here(true) ==> log[|old(log)|].MapSent? && log[|old(log)|].task == i
    {
      hide Coherent, Honest, OnlyMaps, OnlyReduces, Continues, Live, MapStep, Costs, Apply, BestHolder, EndedInMaps;
      ButOne(maps, seen, |partialReduces|, i);
      AllOthersDone(maps, seen, |partialReduces|);
      ghost var past, was := Behind(), Now();
      mapsDone := (mapsDone + LIMIT16 - 1) % LIMIT16;
      ghost var left := script;
      NoCosts(left);
      v := RePlanMap(i);
      if v.Here? && !v.value {
        assert v == Here(false);
        assert Now() == was && script == left;
      }
    }

    /** Plans again every map of a fallen node; false when one of them has no live holder left. */
    method RePlanMapsFromNode(node: string) returns (v: Verdict<bool>)
      requires Valid() && outstanding == []
      modifies this
      ensures Continues(old(Behind()), Behind()) && |maps| == |old(maps)|
      ensures v.Gone? ==> EndedInMaps(v.why) && (v.why == Lost ==> Short(old(script), |maps|))
      ensures v.Here? ==> Valid() && outstanding == [] && OnlyNode(old(maps), maps, node)
      ensures v.Here? ==>
        ReducesKept(old(Now()), Now()) && seen.lost <= old(seen.lost) && Costs(old(script), script, |maps|)
      ensures v == Here(false) ==> Unheld(worlds, Blocks(maps))
      ensures v == Here(true) && old(mapsDone) == |old(maps)| < LIMIT16 ==> mapsDone == |maps|
      ensures v == Here(true) ==> forall m :: m in seen.lost && m < |old(maps)| ==> old(maps)[m].node != node
      ensures v == Here(true) ==> forall m :: 0 <= m < |old(maps)| && old(maps)[m].node == node ==>
        OrderedSince(log, |old(log)|, m)
    {
      hide Coherent, Honest, OnlyMaps, OnlyReduces, Continues, Live, OrderedSince, MapStep, Fails, Costs, EndedInMaps,
        Unheld;
      var available := true;
      Same(Behind());
      NoCosts(script);
      for i := 0 to |maps|
        invariant Valid() && outstanding == [] && OnlyNode(old(maps), maps, node) && Continues(old(Behind()), Behind())
        invariant forall j :: i <= j < |maps| ==> maps[j] == old(maps)[j]
        invariant ReducesKept(old(Now()), Now()) && seen.lost <= old(seen.lost) && Costs(old(script), script, i)
        invariant !available ==> Unheld(worlds, Blocks(maps))
        invariant available && old(mapsDone) == |old(maps)| < LIMIT16 ==> mapsDone == |maps|
        invariant available ==> forall m :: m in seen.lost && m < i ==> old(maps)[m].node != node
        invariant available ==> forall m :: 0 <= m < i && old(maps)[m].node == node ==> OrderedSince(log, |old(log)|, m)
      {
        CostsMore(old(script), script, i);
        if maps[i].node == node {
          ghost var was, left, past, t := Now(), script, Behind(), tick + 1;
          var planned := RePlanDone(i);
          ContinuesOn(old(Behind()), past, Behind());
          CostsAdd(old(script), left, script, i, 1);
          CostsAdd(old(script), left, [], i, 1);
          if planned.Gone? {
            ShortMore(old(script), i + 1, |maps|);
            return Gone(planned.why);
          }
          AfterReplan(old(maps), was, Now(), i, node);
          OnlyNodeBlocks(old(maps), was.maps, node);
          OnlyNodeBlocks(old(maps), maps, node);
          StillOrdered(old(Behind()), past, Behind(), i);
          if !planned.value {
            ItsUnheld(worlds, was.maps, t, i);
            available := false;
          }
        }
      }
      v := Here(available);
    }

    /** How many map outputs every node has. */
    method CountTemporals() returns (counts: seq<(string, nat)>)
      ensures CountsOf(maps, counts)
    {
      hide CountsOf;
      counts := [];
      NothingCounted();
      assert maps[..0] == [];
      for i := 0 to |maps|
        invariant CountsOf(maps[..i], counts)
      {
        var c := 0;
        while c < |counts| && counts[c].0 != maps[i].node
          invariant c <= |counts| && forall d :: 0 <= d < c ==> counts[d].0 != maps[i].node
        {
          c := c + 1;
        }
        if c == |counts| {
          CountNew(maps, i, counts);
          counts := counts + [(maps[i].node, 1)];
        } else {
          CountMore(maps, i, counts, c);
          counts := counts[c := (counts[c].0, counts[c].1 + 1)];
        }
      }
      assert maps[..|maps|] == maps;
    }

    /** The active node with the most map outputs. */
    method MoreTempsNode() returns (node: Option<string>)
      ensures node.None? ==> Unserved(nodes, maps)
      ensures node.Some? ==> maps != [] && MostOutputs(nodes, maps, node.value) && nodes(node.value).active
      ensures node.Some? ==> forall m :: 0 <= m < |maps| && nodes(maps[m].node).active ==>
        |PlacesOn(maps, maps[m].node)| <= |PlacesOn(maps, node.value)|
    {
      var counts := CountTemporals();
      var selected: Option<nat> := None;
      for c := 0 to |counts|
        invariant selected.None? ==> forall d :: 0 <= d < c ==> !nodes(counts[d].0).active
        invariant selected.Some? ==> selected.value < c && nodes(counts[selected.value].0).active
        invariant selected.Some? ==> forall d :: 0 <= d < c && nodes(counts[d].0).active ==>
          counts[d].1 <= counts[selected.value].1
      {
        if selected.None? {
          if nodes(counts[c].0).active {
            selected := Some(c);
          }
        } else if counts[selected.value].1 < counts[c].1 && nodes(counts[c].0).active {
          selected := Some(c);
        }
      }
      node := if selected.None? then None else Some(counts[selected.value].0);
      if node.Some? {
        MostIsMost(nodes, maps, node.value);
      }
    }

    function ReduceOf(r: nat): ReduceTask
      requires r == FINAL || r <= |partialReduces|
      reads this`partialReduces, this`finalReduce
    {
      if r == FINAL then finalReduce else partialReduces[r - 1]
    }

    ghost function SentEvent(r: nat): Event
      requires r == FINAL || r <= |partialReduces|
      reads this`partialReduces, this`finalReduce
    {
      ReduceSent(r, TempFile(ReduceOf(r).node, ReduceOf(r).name), ReduceOf(r).temps)
    }

    /** Sends the order of a reduce. */
    method NotificarReduce(r: nat) returns (v: Verdict<()>)
      requires Valid() && OnlyReduces(outstanding) && (r == FINAL || r <= |partialReduces|)
      requires Legal(combiner, log + [SentEvent(r)])
      requires r == FINAL ==> outstanding == []
      requires r != FINAL ==> ReduceOrder(FINAL) !in outstanding
      requires r != FINAL ==> if r == 1 then outstanding == [] else r == |seen.partials| + 1
      modifies this`tick, this`partialReduces, this`finalReduce, this`outstanding, this`log, this`seen
      ensures v.Gone? ==> v.why == SendFailed && Ended(SendFailed) && log == old(log) && seen == old(seen)
      ensures v.Here? ==> Valid() && OnlyReduces(outstanding) && outstanding == old(outstanding) + [ReduceOrder(r)]
      ensures v.Here? ==> seen == Apply(old(seen), old(SentEvent(r))) && log == old(log) + [old(SentEvent(r))]
      ensures SameReduces(old(partialReduces), partialReduces) && SameReduce(old(finalReduce), finalReduce)
    {
      hide Coherent, Honest, OnlyMaps, OnlyReduces, Legal, Apply;
      NotOver(maps, outstanding, seen, |partialReduces|, None);
      ghost var event := SentEvent(r);
      if r == FINAL {
        finalReduce := finalReduce.(done := false);
      } else {
        partialReduces := partialReduces[r - 1 := partialReduces[r - 1].(done := false)];
      }
      tick := tick + 1;
      if !sends(tick) {
        return Gone(SendFailed);
      }
      ReduceSentKeeps(maps, outstanding, seen, |partialReduces|, r, event.out, event.inputs);
      ReduceSentFrame(seen, r, event.out, event.inputs);
      Emit(event);
      outstanding := outstanding + [ReduceOrder(r)];
      v := Here(());
    }

    /** The reply of the file system; without room for the copy the job ends. */
    method CopyFinalTemporal() returns (v: Verdict<bool>)
      requires Valid() && seen.last.Some? && seen.last.value.fate == Finished
      modifies this`tick, this`log, this`seen
      ensures v.Gone? ==> v.why == NoRoom && Ended(NoRoom)
      ensures v.Here? ==> Valid() && seen == Apply(old(seen), CopyReplied(v.value)) && |log| == |old(log)| + 1
    {
      hide Coherent, Honest, OnlyMaps, OnlyReduces, Legal, Apply, Permitted;
      NotOver(maps, outstanding, seen, |partialReduces|, None);
      tick := tick + 1;
      var reply := copies(tick);
      CopyPermitted(seen, reply.CopyDone?);
      CopyKeeps(maps, outstanding, seen, |partialReduces|, reply.CopyDone?);
      CopyFrame(seen, reply.CopyDone?);
      InOrderAnyway(CopyReplied(reply.CopyDone?));
      Emit(CopyReplied(reply.CopyDone?));
      if reply.CantCopy? {
        InOrderAnyway(DieSent(RESULT_CANT_COPY));
        Emit(DieSent(RESULT_CANT_COPY));
        return Gone(NoRoom);
      }
      v := Here(reply.CopyDone?);
    }

    /** What the job has achieved when it reports success. */
    ghost predicate Reported()
      reads this
    {
      Valid() && outstanding == [] && seen.copied && seen.last.Some? && seen.last.value.fate == Finished
    }

    /** The final reduce has been ordered, over outputs none of which is lost. */
    ghost predicate FinalSent()
      reads this
    {
      && Valid() && outstanding == [ReduceOrder(FINAL)] && seen.lost == {}
      && seen.last.Some? && seen.last.value.out == TempFile(finalReduce.node, finalReduce.name)
    }

    /** The reply of the final reduce and the copy: the fallen node, if there is one, and then the outputs on it are
        lost. */
    method FinalReply() returns (v: Verdict<Option<string>>)
      requires FinalSent()
      modifies this
      ensures Blocks(maps) == Blocks(old(maps))
      ensures v.Gone? ==> v.why in {Lost, NoRoom} && Ended(v.why)
      ensures v == Gone(Lost) ==> old(script) == [] && seen.failedCopies == old(seen.failedCopies)
      ensures v.Here? ==> Valid() && outstanding == [] && maps == old(maps) && mapsDone == old(mapsDone)
      ensures v.Here? ==> |old(script)| == |script| + 1
      ensures v.Here? && v.value.None? ==>
        Fails(old(script)) + seen.failedCopies == Fails(script) + old(seen.failedCopies)
      ensures v.Here? && v.value.Some? ==>
        Fails(old(script)) + seen.failedCopies == Fails(script) + old(seen.failedCopies) + 1
      ensures v.Here? ==> (v.value.None? <==> Reported())
      ensures v.Here? && v.value.Some? ==> LostIn(maps, seen.lost, [v.value.value])
      ensures v.Here? ==> seen.last.Some? && seen.last.value.out == old(seen.last.value.out)
      ensures v.Here? && !old(script)[0].ok && old(script)[0].fallen.Some? ==> v.value == old(script)[0].fallen
      ensures v.Here? && !old(script)[0].ok && old(script)[0].fallen.None? ==>
        v.value == Some(old(seen.last.value.out.node))
      ensures v.Here? && old(script)[0].ok ==>
        v.value == if seen.copied then None else Some(old(seen.last.value.out.node))
      ensures v.Here? ==> |old(log)| <= |log|
    {
      hide Coherent, Honest, OnlyMaps, OnlyReduces, ReduceReply, Apply, Fails, OutputsOn;
      OnlyTheFinal(maps, seen, |partialReduces|);
      ghost var was, left := Now(), script;
      var fallen := RecvResult();
      if fallen.Gone? {
        return Gone(Lost);
      }
      OneReply(left);
      FinalReplied(was, Now(), left[0], fallen.value);
      ghost var replied := seen;
      if fallen.value.None? {
        var copied := CopyFinalTemporal();
        if copied.Gone? {
          return Gone(copied.why);
        }
        CopyFrame(replied, copied.value);
        OutputsAre(maps, outstanding, seen, |partialReduces|, finalReduce.node);
        v := Here(if copied.value then None else Some(finalReduce.node));
      } else {
        OutputsAre(maps, outstanding, seen, |partialReduces|, fallen.value.value);
        v := fallen;
      }
    }

    /** How the thread can end in the reduce phase: the file is unavailable when some block has no live holder left, or
        outside combiner mode when no node with a map output is active; in combiner mode the latter is the null
        pointer. */
    ghost predicate EndedInReduces(why: Cause)
      reads this
    {
      && Ended(why)
      && (why == Unavailable ==> Unheld(worlds, Blocks(maps)) || (!combiner && Deserted()))
      && (why == NullPointer ==> combiner && Deserted())
    }

    /** The job has just looked, and no node with a map output is active. */
    ghost predicate Deserted()
      reads this
    {
      nodes == worlds(tick) && Unserved(nodes, maps) && Placed(maps)
    }

    /** After a failure of the final reduce or of its copy: the maps of the fallen node are planned again, and the
        reduces forgotten. */
    method Restart(node: string) returns (v: Verdict<()>)
      requires Valid() && outstanding == [] && mapsDone == |maps| < LIMIT16 && LostIn(maps, seen.lost, [node])
      modifies this
      ensures Blocks(maps) == Blocks(old(maps)) && old(seen.failedCopies) <= seen.failedCopies
      ensures v.Gone? ==> EndedInMaps(v.why) && (v.why == Lost ==> Short(old(script), |maps|))
      ensures v.Here? ==> Ready() && partialReduces == [] && Costs(old(script), script, |maps|)
      ensures v.Here? ==> seen.last == old(seen.last) && seen.failedCopies == old(seen.failedCopies)
      ensures v.Here? ==> forall m :: 0 <= m < |old(maps)| && old(maps)[m].node == node ==>
        OrderedSince(log, |old(log)|, m)
    {
      hide Coherent, OnlyMaps, OnlyReduces, Costs, Short, Legal, Watch, OrderedSince, Live, Unheld;
      var available := RePlanMapsFromNode(node);
      FailedCopiesSince(old(log));
      if available.Gone? {
        return Gone(available.why);
      }
      if !available.value {
        NotOver(maps, outstanding, seen, |partialReduces|, None);
        NotifFileUnavailable();
        FailedCopiesSince(old(log));
        return Gone(Unavailable);
      }
      NoOrders(maps, seen, |partialReduces|);
      partialReduces := [];
      finalReduce := finalReduce.(temps := []);
      v := Here(());
    }

    lemma FailedCopiesSince(was: seq<Event>)
      requires Honest() && was <= log
      ensures Watch(was).failedCopies <= seen.failedCopies
    {
      hide Legal, Watch;
      assert log[..|was|] == was;
      FailedCopiesGrow(log, |was|);
    }

    /** The end of both modes: true when there was a failure, and the reduces have to start again. */
    method AfterFinal() returns (v: Verdict<bool>)
      requires FinalSent() && mapsDone == |maps| < LIMIT16
      modifies this
      ensures Blocks(maps) == Blocks(old(maps)) && |maps| == |old(maps)|
      ensures v.Gone? ==> Ended(v.why) && v.why in {Lost, SendFailed, Unavailable, NoRoom}
      ensures v == Gone(Unavailable) ==> Unheld(worlds, Blocks(maps))
      ensures v == Gone(Lost) ==>
        Starved(old(script), PerFailure(|maps|), seen.failedCopies - old(seen.failedCopies), 1)
      ensures v == Here(false) ==> Reported()
      ensures v == Here(false) ==>
        Paid(old(script), script, PerFailure(|maps|), seen.failedCopies - old(seen.failedCopies), 1)
      ensures v == Here(true) ==> Ready() && partialReduces == [] && |script| < |old(script)|
      ensures v == Here(true) ==>
        Paid(old(script), script, PerFailure(|maps|), seen.failedCopies - old(seen.failedCopies), -(|maps| as int))
      ensures v.Here? ==> seen.last.Some? && seen.last.value.out == old(seen.last.value.out)
      ensures v == Here(true) ==> var reply, own := old(script)[0], old(seen.last.value.out.node);
        forall m :: 0 <= m < |old(maps)| ==>
          old(maps)[m].node == (if !reply.ok && reply.fallen.Some? then reply.fallen.value else own) ==>
          OrderedSince(log, |old(log)|, m)
    {
      hide Coherent, Honest, OnlyMaps, OnlyReduces, Fails, Paid, Starved, Short, Legal, PerFailure, FinalSent, Ready;
      hide Reported, Unheld, LostIn;
      ghost var first, failures := script, seen.failedCopies;
      var fallen := FinalReply();
      assert |maps| == |Blocks(maps)| == |old(maps)|;
      ghost var left, failed := script, seen.failedCopies - failures;
      if fallen.Gone? {
        NoneStarved(PerFailure(|maps|));
        return Gone(fallen.why);
      }
      if fallen.value.None? {
        OnePaid(first, left, PerFailure(|maps|), failed);
        return Here(false);
      }
      ghost var since := |log|;
      var restarted := Restart(fallen.value.value);
      assert |maps| == |Blocks(maps)| == |old(maps)|;
      RestartPaid(first, left, script, |maps|, failed);
      if restarted.Gone? {
        if restarted.why == Lost {
          StarvedMore(first, PerFailure(|maps|), failed, seen.failedCopies - failures, 1);
        }
        return Gone(restarted.why);
      }
      forall m | 0 <= m < |old(maps)| && old(maps)[m].node == fallen.value.value
        ensures OrderedSince(log, |old(log)|, m)
      {
        OrderedEarlier(log, since, |old(log)|, m);
      }
      v := Here(true);
    }

    /** Sends the final reduce with the temporaries collected for it. */
    method OrderFinal() returns (v: Verdict<()>)
      requires Valid() && outstanding == [] && seen.lost == {} && Legal(combiner, log + [SentEvent(FINAL)])
      modifies this`tick, this`finalReduce, this`partialReduces, this`outstanding, this`log, this`seen
      ensures v.Gone? ==> v.why == SendFailed && Ended(SendFailed)
      ensures v.Here? ==> FinalSent() && seen.failedCopies == old(seen.failedCopies)
      ensures v.Here? ==> seen.last.value.inputs == old(finalReduce.temps) && finalReduce.node == old(finalReduce.node)
    {
      hide Coherent, Honest, OnlyMaps, OnlyReduces, Legal, Apply;
      NothingSent();
      ReduceSentFrame(seen, FINAL, TempFile(finalReduce.node, finalReduce.name), finalReduce.temps);
      v := NotificarReduce(FINAL);
    }

    /** The final reduce over all map outputs is in order. */
    lemma AllInOrder()
      requires Valid() && outstanding == [] && seen.lost == {} && !combiner && maps != []
      requires finalReduce.temps == MapOutputs(maps)
      ensures Legal(combiner, log + [SentEvent(FINAL)])
    {
      hide Coherent, Honest, Legal, Apply;
      OneFinalInOrder(maps, seen, |partialReduces|, TempFile(finalReduce.node, finalReduce.name));
      InOrder(SentEvent(FINAL));
    }

    /** The final reduce over the results of the partial ones is in order. */
    lemma CombinedInOrder()
      requires Valid() && outstanding == [] && seen.lost == {} && combiner && partialReduces != []
      requires RoundDone(maps, seen, partialReduces) && finalReduce.temps == ReduceOutputs(partialReduces)
      ensures Legal(combiner, log + [SentEvent(FINAL)])
    {
      hide Coherent, Honest, Legal, Apply, RoundDone;
      FinalInOrder(maps, seen, partialReduces, TempFile(finalReduce.node, finalReduce.name));
      InOrder(SentEvent(FINAL));
    }

    /** The final reduce of a pass of noCombinerReducePlanning: over all map outputs, on an active node with the most of
        them. Without an active one the job ends. */
    method NoCombinerFinalReducePlanning() returns (v: Verdict<()>)
      requires Ready() && !combiner
      modifies this`tick, this`nodes, this`finalReduce, this`partialReduces, this`outstanding, this`log, this`seen
      ensures v == Gone(Unavailable) <==> Unserved(worlds(old(tick) + 1), maps)
      ensures v.Gone? ==> v.why in {Unavailable, SendFailed} && EndedInReduces(v.why)
      ensures v.Here? ==> FinalSent() && MostOutputs(worlds(old(tick) + 1), maps, finalReduce.node)
      ensures v.Here? ==> seen.last.value.inputs == MapOutputs(maps) && seen.failedCopies == old(seen.failedCopies)
    {
      hide Coherent, Honest, OnlyMaps, OnlyReduces, Legal, MostOutputs, Apply, Unheld, Allowed, Unserved, Placed;
      NotOver(maps, outstanding, seen, |partialReduces|, None);
      Others();
      var node := MoreTempsNode();
      if node.None? {
        AllPlaced(maps, outstanding, seen, |partialReduces|);
        NotifFileUnavailable();
        return Gone(Unavailable);
      }
      MostServed(nodes, maps, node.value);
      var name := Stamp();
      finalReduce := finalReduce.(node := node.value, name := name);
      for i := 0 to |maps|
        invariant finalReduce.node == node.value && finalReduce.name == name
        invariant finalReduce.temps == MapOutputs(maps)[..i]
        modifies this`finalReduce
      {
        finalReduce := finalReduce.(temps := finalReduce.temps + [TempFile(maps[i].node, maps[i].name)]);
      }
      assert MapOutputs(maps)[..|maps|] == MapOutputs(maps);
      AllInOrder();
      v := OrderFinal();
    }

    /** The final reduce until it and the copy of its result have succeeded. */
    method NoCombinerReducePlanning() returns (v: Verdict<()>)
      requires Ready() && !combiner
      modifies this
      ensures Blocks(maps) == Blocks(old(maps))
      ensures v.Gone? ==> EndedInReduces(v.why)
      ensures old(maps) == [] ==> v == Gone(Unavailable)
      ensures v == Gone(Lost) ==>
        Starved(old(script), PerFailure(|maps|), seen.failedCopies - old(seen.failedCopies), 1)
      ensures v.Here? ==> Reported()
    {
      hide Coherent, Honest, Starved, Paid, PerFailure, MostOutputs, Reported, FinalSent, Unserved, Unheld;
      var finalFailed := true;
      ghost var n, first, failures := |maps|, script, seen.failedCopies;
      ghost var w := PerFailure(n);
      NonePaid(first, w);
      while finalFailed
        invariant |maps| == n && Blocks(maps) == Blocks(old(maps)) &&
          (if finalFailed then Ready() else n > 0 && Reported())
        invariant finalFailed ==> Paid(first, script, w, seen.failedCopies - failures, 0)
        decreases if finalFailed then |script| + 1 else 0
      {
        NoneServed(worlds(tick + 1), maps);
        ghost var left, failed := script, seen.failedCopies - failures;
        var sent := NoCombinerFinalReducePlanning();
        if sent.Gone? {
          return Gone(sent.why);
        }
        ghost var before := seen.failedCopies;
        var failing := AfterFinal();
        PaidAdd(first, left, script, w, failed, seen.failedCopies - before, 0, -(n as int));
        PaidAdd(first, left, script, w, failed, seen.failedCopies - before, 0, 1);
        if failing.Gone? {
          return Gone(failing.why);
        }
        finalFailed := failing.value;
        if finalFailed {
          PaidMore(first, script, w, seen.failedCopies - failures, -(n as int), 0);
        }
      }
      v := Here(());
    }

    /** Groups the map outputs by node, one partial reduce for a node. */
    method GroupByNode()
      requires partialReduces == []
      modifies this`partialReduces, this`tick
      ensures Grouped(maps, partialReduces, |maps|)
    {
      hide AllTemps, Grouped, Local;
      NoGroups(maps);
      for i := 0 to |maps|
        invariant Grouped(maps, partialReduces, i)
        modifies this`partialReduces, this`tick
      {
        var p := 0;
        while p < |partialReduces| && partialReduces[p].node != maps[i].node
          invariant p <= |partialReduces| && forall q :: 0 <= q < p ==> partialReduces[q].node != maps[i].node
        {
          p := p + 1;
        }
        var temporal := TempFile(maps[i].node, maps[i].name);
        if p == |partialReduces| {
          var name := Stamp();
          GroupedNew(maps, partialReduces, i, name);
          partialReduces := partialReduces + [ReduceTask(maps[i].node, name, [temporal], false)];
        } else {
          GroupedMore(maps, partialReduces, i, p);
          partialReduces := partialReduces[p := partialReduces[p].(temps := partialReduces[p].temps + [temporal])];
        }
      }
    }

    /** Groups the map outputs by node and sends the order of every group. */
    method CombinerPartialsReducePlanning() returns (v: Verdict<()>)
      requires Ready() && combiner && partialReduces == []
      modifies this`tick, this`finalReduce, this`partialReduces, this`outstanding, this`log, this`seen
      ensures v.Gone? ==> v.why == SendFailed && Ended(SendFailed) && maps != []
      ensures v.Here? ==> Valid() && OnlyReduces(outstanding) && ReduceOrder(FINAL) !in outstanding
      ensures v.Here? ==> |outstanding| == |partialReduces| <= |maps| && RoundDone(maps, seen, partialReduces)
      ensures v.Here? ==> finalReduce.temps == [] && seen.lost == {}
      ensures seen.failedCopies == old(seen.failedCopies)
    {
      hide Coherent, Honest, OnlyMaps, OnlyReduces, Legal, AllTemps, Grouped, Apply, Allowed;
      NoOrders(maps, seen, |partialReduces|);
      GroupByNode();
      NodesOfRound(nodes, maps, partialReduces);
      NothingSent();
      var n := |partialReduces|;
      for r := 1 to n + 1
        invariant |partialReduces| == n && |outstanding| == r - 1
        invariant Valid() && OnlyReduces(outstanding) && ReduceOrder(FINAL) !in outstanding
        invariant Grouped(maps, partialReduces, |maps|) && SameReduce(old(finalReduce), finalReduce)
        invariant r > 1 ==> RoundMatch(seen.partials, partialReduces[..r - 1]) && NoneFailed(seen.partials)
        invariant seen.lost == {} && seen.failedCopies == old(seen.failedCopies)
        modifies this`tick, this`partialReduces, this`finalReduce, this`outstanding, this`log, this`seen
      {
        PartialInOrder(maps, outstanding, seen, partialReduces, r);
        InOrder(SentEvent(r));
        PartialSent(seen, partialReduces, r);
        ReduceSentFrame(seen, r, SentEvent(r).out, SentEvent(r).inputs);
        ghost var was := partialReduces;
        var sent := NotificarReduce(r);
        if sent.Gone? {
          return Gone(sent.why);
        }
        SameGrouped(maps, was, partialReduces);
      }
      assert partialReduces[..|partialReduces|] == partialReduces;
      SizeOfRound(maps, partialReduces);
      v := Here(());
    }

    /** Receives the replies of all partial reduces: the fallen nodes are one for every failed one, and the outputs of
        the maps on them are lost. */
    method PartialReplies() returns (v: Verdict<seq<string>>)
      requires Valid() && OnlyReduces(outstanding) && ReduceOrder(FINAL) !in outstanding
      requires |outstanding| == |partialReduces| && RoundDone(maps, seen, partialReduces)
      requires finalReduce.temps == [] && seen.lost == {}
      modifies this
      ensures Blocks(maps) == Blocks(old(maps))
      ensures v.Gone? ==> v.why == Lost && Ended(Lost) && |old(script)| < |old(partialReduces)|
      ensures seen.failedCopies == old(seen.failedCopies)
      ensures v.Here? ==> Valid() && outstanding == [] && maps == old(maps) && mapsDone == old(mapsDone)
      ensures v.Here? ==> finalReduce.temps == []
      ensures v.Here? ==>
        |old(script)| == |script| + |old(partialReduces)| && Fails(old(script)) == Fails(script) + |v.value|
      ensures v.Here? ==>
        |v.value| <= |old(partialReduces)| && (v.value == [] <==> RoundDone(maps, seen, partialReduces))
      ensures v.Here? ==> LostIn(maps, seen.lost, v.value)
      ensures v.Here? ==> forall k :: 0 <= k < |old(partialReduces)| ==>
        !old(script)[k].ok && old(script)[k].fallen.Some? ==> old(script)[k].fallen.value in v.value
      ensures v.Here? ==> forall x :: x in v.value ==> IsReported(x, old(script), old(partialReduces))
    {
      hide Coherent, Honest, OnlyMaps, OnlyReduces, ReduceReply, Grouped, Apply, Fails, OutputsOn, RoundMatch;
      hide NoneFailed, IsReported, IsNodeOf;
      var fallenNodes := [];
      var reduceCount := |partialReduces|;
      for i := 0 to reduceCount
        invariant Valid() && OnlyReduces(outstanding) && ReduceOrder(FINAL) !in outstanding
        invariant |outstanding| == reduceCount - i && |partialReduces| == reduceCount
        invariant maps == old(maps) && mapsDone == old(mapsDone) && finalReduce.temps == []
        invariant RoundOrdered(maps, seen, partialReduces) && seen.failedCopies == old(seen.failedCopies)
        invariant reduceCount > 0 ==> (fallenNodes == [] <==> NoneFailed(seen.partials))
        invariant |old(script)| == |script| + i && Fails(old(script)) == Fails(script) + |fallenNodes|
        invariant LostIn(maps, seen.lost, fallenNodes) && |fallenNodes| <= i
        invariant script == old(script)[i..] && SameNodes(old(partialReduces), partialReduces)
        invariant NamedIn(old(script), i, fallenNodes)
        invariant forall x :: x in fallenNodes ==> IsReported(x, old(script), old(partialReduces))
      {
        ghost var was, left := Now(), script;
        var fallenNode := RecvResult();
        if fallenNode.Gone? {
          return Gone(Lost);
        }
        OneReply(left);
        PartialReplied(was, Now(), left[0], fallenNode.value);
        OneReplyMore(old(script), old(partialReduces), was.partials, fallenNodes, i, fallenNode.value);
        if fallenNode.value.Some? {
          OutputsAre(maps, outstanding, seen, |partialReduces|, fallenNode.value.value);
          LostMore(maps, was.seen, fallenNodes, fallenNode.value.value);
          fallenNodes := fallenNodes + [fallenNode.value.value];
        }
      }
      v := Here(fallenNodes);
    }

    /** Plans again the maps of every fallen node, one node after another. */
    method RePlanFallen(fallenNodes: seq<string>) returns (v: Verdict<bool>)
      requires Valid() && outstanding == [] && mapsDone == |maps| < LIMIT16 && LostIn(maps, seen.lost, fallenNodes)
      modifies this
      ensures Continues(old(Behind()), Behind()) && |maps| == |old(maps)|
      ensures v.Gone? ==> EndedInMaps(v.why) && (v.why == Lost ==> Short(old(script), |fallenNodes| * |maps|))
      ensures v.Here? ==> Valid() && outstanding == [] && ReducesKept(old(Now()), Now())
      ensures v.Here? ==> Costs(old(script), script, |fallenNodes| * |maps|)
      ensures v == Here(false) ==> Unheld(worlds, Blocks(maps))
      ensures v == Here(true) ==> mapsDone == |maps| && seen.lost == {}
      ensures v == Here(true) ==> NodesOrderedSince(old(maps), fallenNodes, log, |old(log)|)
    {
      hide Coherent, Honest, OnlyMaps, OnlyReduces, Continues, OrderedSince, NodesOrderedSince, Fails, Costs, Short,
        Unheld;
      hide EndedInMaps, OnlyNode, OnlyNodes, StillLost, Retrieved, LostIn;
      var available := true;
      ghost var past, n := Behind(), |maps|;
      StartFallen(maps, seen.lost, fallenNodes, log);
      Same(past);
      NoCosts(script);
      for f := 0 to |fallenNodes|
        invariant Valid() && outstanding == [] && |maps| == n && Continues(past, Behind())
        invariant ReducesKept(old(Now()), Now()) && Costs(old(script), script, f * n)
        invariant OnlyNodes(old(maps), maps, fallenNodes[..f])
        invariant !available ==> Unheld(worlds, past.blocks)
        invariant available ==> mapsDone == n && StillLost(old(maps), seen.lost, fallenNodes, f)
        invariant available ==> NodesOrderedSince(old(maps), fallenNodes[..f], log, |past.log|)
      {
        ghost var was, before, left := Now(), Behind(), script;
        var planned := RePlanMapsFromNode(fallenNodes[f]);
        Turns(f, |fallenNodes|, n);
        ContinuesOn(past, before, Behind());
        CostsAdd(old(script), left, script, f * n, n);
        CostsAdd(old(script), left, [], f * n, n);
        SameBlocksBehind(past, Behind());
        if planned.Gone? {
          ShortMore(old(script), f * n + n, |fallenNodes| * n);
          return Gone(planned.why);
        }
        NextFallen(old(maps), was, Now(), fallenNodes, f);
        if planned.value {
          ItsRetrieved(was, Now(), fallenNodes[f]);
          if available {
            NextOrdered(old(maps), was.maps, fallenNodes, f, past, before, Behind());
          }
        } else {
          available := false;
        }
      }
      assert fallenNodes[..|fallenNodes|] == fallenNodes;
      SameBlocksBehind(past, Behind());
      if available {
        NoneLost(old(maps), seen.lost, fallenNodes);
      }
      v := Here(available);
    }

    /** One pass of the inner loop of combinerReducePlanning: true when a partial reduce failed and the maps of the
        fallen nodes have been done again. */
    method PartialsRound() returns (v: Verdict<bool>)
      requires Ready() && combiner && partialReduces == []
      modifies this
      ensures Blocks(maps) == Blocks(old(maps)) && |maps| == |old(maps)| && old(seen.failedCopies) <= seen.failedCopies
      ensures v.Gone? ==> maps != [] && EndedInMaps(v.why)
      ensures v == Gone(Lost) ==> Starved(old(script), PerFailure(|maps|), 0, |maps|)
      ensures v.Here? ==> Ready() && seen.failedCopies == old(seen.failedCopies)
      ensures v == Here(false) ==> RoundDone(maps, seen, partialReduces) && |script| <= |old(script)|
      ensures v == Here(false) ==> Paid(old(script), script, PerFailure(|maps|), 0, |maps|)
      ensures v == Here(true) ==> maps != [] && partialReduces == [] && |script| < |old(script)|
      ensures v == Here(true) ==> Paid(old(script), script, PerFailure(|maps|), 0, 0)
    {
      hide Coherent, OnlyMaps, OnlyReduces, RoundDone, Fails, Paid, Starved, Short, Costs, PerFailure, Unheld, Legal,
        Watch;
      hide LostIn, NodesOrderedSince;
      ghost var first := script;
      var sent := CombinerPartialsReducePlanning();
      if sent.Gone? {
        return Gone(sent.why);
      }
      ghost var n := |partialReduces|;
      var fallenNodes := PartialReplies();
      if fallenNodes.Gone? {
        SomeStarved(first, |maps|, n);
        return Gone(fallenNodes.why);
      }
      ghost var left := script;
      if fallenNodes.value == [] {
        RoundCosts(first, left, |maps|, n);
        NothingLost(maps, seen.lost);
        return Here(false);
      }
      ghost var replied := log;
      var planned := RePlanFallen(fallenNodes.value);
      FailedCopiesSince(replied);
      RoundPaid(first, left, script, |maps|, n, |fallenNodes.value|);
      if planned.Gone? {
        return Gone(planned.why);
      }
      if !planned.value {
        NotOver(maps, outstanding, seen, |partialReduces|, None);
        NotifFileUnavailable();
        FailedCopiesSince(replied);
        return Gone(Unavailable);
      }
      NoOrders(maps, seen, |partialReduces|);
      partialReduces := [];
      v := Here(true);
    }

    /** The node searchNode selects. */
    method LeastLoadedPartialNode() returns (node: Option<string>)
      ensures node.None? <==> forall p :: 0 <= p < |partialReduces| ==> !nodes(partialReduces[p].node).active
      ensures node.Some? ==> LeastLoadedPartial(nodes, partialReduces, node.value) && nodes(node.value).active
      ensures node.Some? ==> forall p :: 0 <= p < |partialReduces| && nodes(partialReduces[p].node).active ==>
        nodes(node.value).load <= nodes(partialReduces[p].node).load
    {
      hide BestAt;
      var at := LeastLoaded(ReduceNodes(partialReduces));
      NoneOrLeast(nodes, partialReduces, at);
      node := if at.None? then None else Some(partialReduces[at.value].node);
      if node.Some? {
        LeastIsLeast(nodes, partialReduces, node.value);
      }
    }

    /** The final reduce of combiner mode, on the least loaded of the nodes of the partial reduces. The program stops
        at a null pointer exactly when none of them is active, that is, no node with a map output. */
    method CombinerFinalReducePlanning() returns (v: Verdict<()>)
      requires Ready() && combiner && RoundDone(maps, seen, partialReduces)
      modifies this`tick, this`nodes, this`finalReduce, this`partialReduces, this`outstanding, this`log, this`seen
      ensures v == Gone(NullPointer) <==>
        forall p :: 0 <= p < |old(partialReduces)| ==> !worlds(old(tick) + 1)(old(partialReduces)[p].node).active
      ensures v == Gone(NullPointer) <==> Unserved(worlds(old(tick) + 1), maps)
      ensures v.Gone? ==> v.why in {NullPointer, SendFailed} && EndedInReduces(v.why)
      ensures v.Here? ==>
        FinalSent() && LeastLoadedPartial(worlds(old(tick) + 1), old(partialReduces), finalReduce.node)
      ensures v.Here? ==>
        seen.last.value.inputs == ReduceOutputs(old(partialReduces)) && seen.failedCopies == old(seen.failedCopies)
    {
      hide Coherent, Honest, OnlyMaps, OnlyReduces, Legal, RoundDone, BestAt, Apply, Unheld, Allowed, Unserved, Placed;
      hide LeastLoadedPartial;
      NotOver(maps, outstanding, seen, |partialReduces|, None);
      NodesOfDone(worlds(tick + 1), maps, seen, partialReduces);
      Others();
      var node := LeastLoadedPartialNode();
      if node.None? {
        AllPlaced(maps, outstanding, seen, |partialReduces|);
        return Gone(NullPointer);
      }
      var name := Stamp();
      finalReduce := finalReduce.(node := node.value, name := name);
      for p := 0 to |partialReduces|
        invariant finalReduce.node == node.value && finalReduce.name == name
        invariant finalReduce.temps == ReduceOutputs(partialReduces)[..p]
        modifies this`finalReduce
      {
        finalReduce := finalReduce.(temps := finalReduce.temps +
          [TempFile(partialReduces[p].node, partialReduces[p].name)]);
      }
      assert ReduceOutputs(partialReduces)[..|partialReduces|] == ReduceOutputs(partialReduces);
      CombinedInOrder();
      v := OrderFinal();
    }

    /** The rounds of partial reduces until one has no failure. */
    method PartialsUntilDone() returns (v: Verdict<()>)
      requires Ready() && combiner && partialReduces == []
      modifies this
      ensures Blocks(maps) == Blocks(old(maps)) && |maps| == |old(maps)| && old(seen.failedCopies) <= seen.failedCopies
      ensures v.Gone? ==> maps != [] && EndedInMaps(v.why)
      ensures v == Gone(Lost) ==> Starved(old(script), PerFailure(|maps|), 0, |maps|)
      ensures v.Here? ==>
        Ready() && seen.failedCopies == old(seen.failedCopies) && RoundDone(maps, seen, partialReduces)
      ensures v.Here? ==> Paid(old(script), script, PerFailure(|maps|), 0, |maps|) && |script| <= |old(script)|
    {
      hide Coherent, Honest, RoundDone, Starved, Paid, PerFailure, Fails, EndedInMaps, Ready;
      ghost var first, n := script, |maps|;
      ghost var w := PerFailure(n);
      NonePaid(first, w);
      var partialsFailed := true;
      while partialsFailed
        invariant |maps| == n && Blocks(maps) == Blocks(old(maps)) && seen.failedCopies == old(seen.failedCopies)
        invariant Ready() && |script| <= |first|
        invariant if partialsFailed then partialReduces == [] else RoundDone(maps, seen, partialReduces)
        invariant Paid(first, script, w, 0, if partialsFailed then 0 else n)
        decreases if partialsFailed then |script| + 1 else 0
      {
        ghost var left := script;
        var failed := PartialsRound();
        PaidAdd(first, left, script, w, 0, 0, 0, n);
        PaidAdd(first, left, script, w, 0, 0, 0, 0);
        if failed.Gone? {
          return Gone(failed.why);
        }
        partialsFailed := failed.value;
      }
      v := Here(());
    }

    method CombinerReducePlanning() returns (v: Verdict<()>)
      requires Ready() && combiner && partialReduces == []
      modifies this
      ensures Blocks(maps) == Blocks(old(maps))
      ensures v.Gone? ==> EndedInReduces(v.why)
      ensures old(maps) == [] ==> v == Gone(NullPointer)
      ensures v == Gone(Lost) ==>
        Starved(old(script), PerFailure(|maps|), seen.failedCopies - old(seen.failedCopies), |maps| + 1)
      ensures v.Here? ==> Reported()
    {
      hide Coherent, Honest, Starved, Paid, PerFailure, Reported, FinalSent, Unserved, Unheld, RoundDone,
        LeastLoadedPartial;
      hide Fails;
      var finalFailed := true;
      ghost var n, first, failures := |maps|, script, seen.failedCopies;
      ghost var w := PerFailure(n);
      NonePaid(first, w);
      while finalFailed
        invariant |maps| == n && Blocks(maps) == Blocks(old(maps))
        invariant if finalFailed then Ready() && partialReduces == [] else n > 0 && Reported()
        invariant finalFailed ==> Paid(first, script, w, seen.failedCopies - failures, 0)
        decreases if finalFailed then |script| + 1 else 0
      {
        ghost var start, failed := script, seen.failedCopies - failures;
        var done := PartialsUntilDone();
        PaidAdd(first, start, script, w, failed, 0, 0, n);
        if done.Gone? {
          if done.why == Lost {
            StarvedMore(first, w, failed, seen.failedCopies - failures, n);
            StarvedMost(first, w, seen.failedCopies - failures, n, n + 1);
          }
          return Gone(done.why);
        }
        NoneServed(worlds(tick + 1), maps);
        ghost var left := script;
        var sent := CombinerFinalReducePlanning();
        if sent.Gone? {
          return Gone(sent.why);
        }
        var failing := AfterFinal();
        ghost var more := seen.failedCopies - failures - failed;
        PaidAdd(first, left, script, w, failed, more, n, -(n as int));
        PaidAdd(first, left, script, w, failed, more, n, 1);
        if failing.Gone? {
          return Gone(failing.why);
        }
        finalFailed := failing.value;
      }
      v := Here(());
    }

    /** What was so when the thread ended without success: the replies ran out, although there were fewer than a job of
        this size needs with so many failures; a message could not be sent; a file was not listed, a planned block had
        no live holder left, or outside combiner mode no node with a map output was active; there was no room for a
        copy; in combiner mode no node with a map output was active. */
    ghost predicate Explained(why: Cause, files: seq<Option<seq<seq<Holder>>>>, at: seq<nat>, was: seq<Reply>)
      reads this
    {
      match why
      case Lost => script == [] && Starved(was, PerFailure(|maps|), seen.failedCopies, PerFailure(|maps|))
      case SendFailed => exists t :: !sends(t)
      case Unavailable =>
        Unlisted(files) || (PlannedAs(files, at) && (Unheld(worlds, Blocks(maps)) || (!combiner && Deserted())))
      case NoRoom => exists t :: copies(t) == CantCopy
      case NullPointer => combiner && Deserted() && PlannedAs(files, at)
    }

    /** Nothing goes wrong but what the Job reports: every file is listed, some block has a live holder, one that has
        keeps all its holders, every message can be sent, and every copy succeeds. */
    ghost predicate Healthy(files: seq<Option<seq<seq<Holder>>>>) {
      && !Unlisted(files) && Steady(worlds, AllBlocks(files)) && SomeLive(worlds, AllBlocks(files))
      && (forall t :: sends(t)) && forall t :: copies(t) == CopyDone
    }

    /** In a healthy environment only the end of the replies can end a job, and enough of them prevent it. */
    lemma HealthyGoesOn(why: Cause, files: seq<Option<seq<seq<Holder>>>>, at: seq<nat>, was: seq<Reply>)
      requires Healthy(files) && Honest() && Explained(why, files, at, was)
      requires |maps| <= |AllBlocks(files)|
      ensures |was| < PerFailure(|AllBlocks(files)|) * (1 + Fails(was))
    {
      hide Legal, Steady, SomeLive, PlannedFor, Starved, Watch, PerFailure, Fails, Unheld, AllActive, Live;
      FailedCopiesGrow(log, 0);
      if |was| >= PerFailure(|AllBlocks(files)|) * (1 + Fails(was)) {
        NotStarved(was, |maps|, |AllBlocks(files)|);
        assert why in {Unavailable, NullPointer} && PlannedAs(files, at);
        NeverUnheld(worlds, AllBlocks(files), at);
        SomePlanned(worlds, AllBlocks(files), at);
        assert Blocks(maps)[0] == maps[0].copies && maps[0].copies in PlannedFor(worlds, AllBlocks(files), at);
        NeverUnserved(worlds, maps, tick);
        assert false;
      }
    }

    /** A map for every block exactly when none was skipped. */
    lemma AllOrSome(files: seq<Option<seq<seq<Holder>>>>, at: seq<nat>)
      requires PlannedAs(files, at)
      ensures |at| == |AllBlocks(files)|
      ensures |maps| == |AllBlocks(files)| <==>
        forall b :: 0 <= b < |AllBlocks(files)| ==> Live(worlds(at[b]), AllBlocks(files)[b])
    {
      hide Live;
      OneMapPerBlock(worlds, AllBlocks(files), at);
      assert |Blocks(maps)| == |maps|;
    }

    /** The reduces of either mode. */
    method ReducePlanning() returns (v: Verdict<()>)
      requires Ready() && partialReduces == []
      modifies this
      ensures Blocks(maps) == Blocks(old(maps)) && |maps| == |old(maps)|
      ensures v.Gone? ==> EndedInReduces(v.why)
      ensures old(maps) == [] ==> v == Gone(if combiner then NullPointer else Unavailable)
      ensures v == Gone(Lost) ==>
        Starved(old(script), PerFailure(|maps|), seen.failedCopies - old(seen.failedCopies), |maps| + 1)
      ensures v.Here? ==> Reported()
    {
      hide Coherent, Honest, Starved, PerFailure, Reported, Ready, Ended, Unheld;
      if combiner {
        v := CombinerReducePlanning();
      } else {
        v := NoCombinerReducePlanning();
        if v == Gone(Lost) {
          StarvedMost(old(script), PerFailure(|maps|), seen.failedCopies - old(seen.failedCopies), 1, |maps| + 1);
        }
      }
      assert |maps| == |Blocks(maps)| == |old(maps)|;
    }

    lemma ReducesExplained(why: Cause, files: seq<Option<seq<seq<Holder>>>>, at: seq<nat>, was: seq<Reply>)
      requires EndedInReduces(why) && PlannedAs(files, at)
      requires why == Lost ==> Starved(was, PerFailure(|maps|), seen.failedCopies, PerFailure(|maps|))
      ensures Explained(why, files, at, was)
    {
      hide Legal, Watch, Starved, PerFailure, PlannedAs, Deserted, Unheld;
    }

    /** Maps and reduces. */
    method Plan(files: seq<Option<seq<seq<Holder>>>>) returns (end: Verdict<()>, ghost at: seq<nat>)
      requires Valid() && log == [] && seen == NOTHING && maps == [] && outstanding == [] && mapsDone == 0
      requires partialReduces == [] && finalReduce.temps == [] && |AllBlocks(files)| < LIMIT16
      modifies this
      ensures |maps| <= |AllBlocks(files)|
      ensures end.Here? ==> Reported() && PlannedAs(files, at)
      ensures end.Gone? ==> Honest() && Explained(end.why, files, at, old(script))
      ensures !Unlisted(files) && !SomeLive(worlds, AllBlocks(files)) ==>
        end == Gone(if combiner then NullPointer else Unavailable)
    {
      hide Coherent, Legal, Watch, Starved, Short, PerFailure, PlannedFor, Costs, Paid, Fails, Unheld, SomeLive,
        Unlisted;
      hide Deserted, Reported, Unserved;
      ghost var was := script;
      var planned;
      planned, at := PlanMaps(files);
      ghost var left, m := script, |maps|;
      MapsPaid(was, left, m);
      EachOnce(m);
      if planned.Gone? {
        if planned.why == Lost {
          StarvedMore(was, PerFailure(m), 0, seen.failedCopies, m);
          StarvedMost(was, PerFailure(m), seen.failedCopies, m, PerFailure(m));
        }
        return Gone(planned.why), at;
      }
      PlannedIn(worlds, AllBlocks(files), at);
      end := ReducePlanning();
      PaidAdd(was, left, [], PerFailure(m), 0, seen.failedCopies, m, m + 1);
      if end.Gone? {
        ReducesExplained(end.why, files, at, was);
      }
    }

    /** A whole job, whatever the Job answers, in whatever order, and whatever other threads do: the conversation is
        legal, success is reported exactly when the thread gets to its end, and when it does not there is a reason. */
    method AcceptJob(files: seq<Option<seq<seq<Holder>>>>) returns (end: Verdict<()>, ghost at: seq<nat>)
      requires Valid() && log == [] && seen == NOTHING && maps == [] && outstanding == [] && mapsDone == 0
      requires partialReduces == [] && finalReduce.temps == [] && |AllBlocks(files)| < LIMIT16
      modifies this
      ensures Legal(combiner, log) && seen == Watch(log) && |maps| <= |AllBlocks(files)|
      ensures end.Here? ==> log != [] && log[|log| - 1] == DieSent(RESULT_OK) && DieSent(RESULT_OK) !in log[..|log| - 1]
      ensures end.Here? ==> |seen.maps| == |maps| && PlannedAs(files, at)
      ensures end.Here? ==> (|maps| == |AllBlocks(files)| <==>
        forall b :: 0 <= b < |AllBlocks(files)| ==> Live(worlds(at[b]), AllBlocks(files)[b]))
      ensures end.Gone? ==> DieSent(RESULT_OK) !in log && Explained(end.why, files, at, old(script))
      ensures Healthy(files) ==> var m, f := |AllBlocks(files)|, |FailedReplies(old(script))|;
        |old(script)| >= (2 * m + 1) * (1 + f) ==> end.Here?
      ensures !Unlisted(files) && !SomeLive(worlds, AllBlocks(files)) ==>
        end == Gone(if combiner then NullPointer else Unavailable)
    {
      hide Coherent, Legal, Watch, PerFailure, PlannedFor, Fails, Unheld, SomeLive, Healthy, Explained, Unlisted,
        PlannedAs;
      ghost var was := script;
      end, at := Plan(files);
      if end.Gone? {
        if Healthy(files) {
          HealthyGoesOn(end.why, files, at, was);
          AsManyAsNeeded(was, |AllBlocks(files)|);
        }
        return;
      }
      AllOrSome(files, at);
      NoOrders(maps, seen, |partialReduces|);
      NotOver(maps, outstanding, seen, |partialReduces|, None);
      SeenMaps(maps, outstanding, seen, |partialReduces|);
      InOrder(DieSent(RESULT_OK));
      WatchAppend(log, DieSent(RESULT_OK));
      log, seen := log + [DieSent(RESULT_OK)], Apply(seen, DieSent(RESULT_OK));
    }
  }

  lemma NothingYet(worlds: nat -> (string -> NodeState))
    ensures PlannedFor(worlds, AllBlocks([]), []) == []
    ensures OnlyMaps([])
  {
  }

  lemma NothingSent()
    ensures OnlyReduces([])
  {
  }

  lemma OneFinalInOrder(maps: seq<MapTask>, seen: Seen, partialCount: nat, out: TempFile)
    requires Coherent(maps, [], seen, partialCount, None) && maps != [] && seen.lost == {}
    ensures Allowed(false, seen, ReduceSent(FINAL, out, MapOutputs(maps)))
  {
    NoOrders(maps, seen, partialCount);
  }

  lemma NoGroups(maps: seq<MapTask>)
    ensures Grouped(maps, [], 0)
  {
  }

  /** A job on a listed block whose only holder another job has taken out: outside combiner mode it ends in order, in
      combiner mode the program stops at the null pointer. */
  method OnAnUnheldBlock() returns (plain: Verdict<()>, combined: Verdict<()>)
    ensures plain == Gone(Unavailable) && combined == Gone(NullPointer)
  {
    var worlds: nat -> (string -> NodeState) := t => node => NodeState(false, 0);
    NoneLive(worlds);
    var job := new Job(false, worlds, t => t, t => true, t => CopyDone, []);
    ghost var at;
    plain, at := job.AcceptJob([Some([[Holder("a", 0)]])]);
    job := new Job(true, worlds, t => t, t => true, t => CopyDone, []);
    combined, at := job.AcceptJob([Some([[Holder("a", 0)]])]);
  }

  lemma NoneLive(worlds: nat -> (string -> NodeState))
    requires forall t, node :: !worlds(t)(node).active
    ensures var files := [Some([[Holder("a", 0)]])];
      AllBlocks(files) == [[Holder("a", 0)]] && !Unlisted(files) && !SomeLive(worlds, AllBlocks(files))
  {
    var files := [Some([[Holder("a", 0)]])];
    assert files[..0] == [];
  }

  /** Two blocks, of which only the first has a live holder. */
  const TWO_BLOCKS: seq<seq<Holder>> := [[Holder("a", 0)], [Holder("b", 0)]]

  /** A job on them: in either mode it reports success with one map. */
  method OnASkippedBlock(combiner: bool) returns (end: Verdict<()>, mapCount: nat)
    ensures end.Here? && mapCount == 1 < |TWO_BLOCKS|
  {
    hide Live, Steady, SomeLive, Unlisted, PerFailure, Fails, PlannedFor, Job.Explained, AllBlocks;
    var worlds: nat -> (string -> NodeState) := t => node => NodeState(node == "a", 0);
    var ok := Reply(0, true, None);
    var script := [ok, ok, ok, ok, ok];
    TwoListed();
    OneIsLive(worlds);
    EnoughReplies(script);
    var job := new Job(combiner, worlds, t => t, t => true, t => CopyDone, script);
    assert job.Healthy([Some(TWO_BLOCKS)]);
    ghost var at;
    end, at := job.AcceptJob([Some(TWO_BLOCKS)]);
    OneIsPlanned(worlds, at);
    assert |Blocks(job.maps)| == |job.maps|;
    mapCount := |job.maps|;
  }

  lemma TwoListed()
    ensures AllBlocks([Some(TWO_BLOCKS)]) == TWO_BLOCKS && !Unlisted([Some(TWO_BLOCKS)])
  {
    assert [Some(TWO_BLOCKS)][..0] == [];
  }

  lemma OneHolder(nodes: string -> NodeState, holder: Holder)
    ensures Live(nodes, [holder]) <==> nodes(holder.node).active
    ensures AllActive(nodes, [holder]) <==> nodes(holder.node).active
  {
    assert [holder][0] == holder;
  }

  lemma OneIsLive(worlds: nat -> (string -> NodeState))
    requires forall t, node :: worlds(t)(node).active <==> node == "a"
    ensures Steady(worlds, TWO_BLOCKS) && SomeLive(worlds, TWO_BLOCKS)
  {
    hide Live, AllActive;
    forall t: nat
      ensures Live(worlds(t), TWO_BLOCKS[0]) && AllActive(worlds(t), TWO_BLOCKS[0]) && !Live(worlds(t), TWO_BLOCKS[1])
    {
      OneHolder(worlds(t), Holder("a", 0));
      OneHolder(worlds(t), Holder("b", 0));
    }
    assert Live(worlds(0), TWO_BLOCKS[0]);
  }

  lemma EnoughReplies(script: seq<Reply>)
    requires |script| == 5 && forall i :: 0 <= i < |script| ==> script[i].ok
    ensures |script| >= (2 * |TWO_BLOCKS| + 1) * (1 + |FailedReplies(script)|)
  {
    NoFails(script);
    FailsCounted(script);
  }

  lemma {:induction false} NoFails(script: seq<Reply>)
    requires forall i :: 0 <= i < |script| ==> script[i].ok
    ensures Fails(script) == 0
  {
    if script != [] {
      NoFails(script[1..]);
    }
  }

  lemma OneIsPlanned(worlds: nat -> (string -> NodeState), at: seq<nat>)
    requires forall t, node :: worlds(t)(node).active <==> node == "a"
    requires |at| == |TWO_BLOCKS|
    ensures |PlannedFor(worlds, TWO_BLOCKS, at)| == 1
  {
    hide Live;
    OneHolder(worlds(at[0]), Holder("a", 0));
    OneHolder(worlds(at[1]), Holder("b", 0));
    PlanOneMore(worlds, TWO_BLOCKS, 0, at[..1]);
    PlanOneMore(worlds, TWO_BLOCKS, 1, at);
    assert TWO_BLOCKS[..2] == TWO_BLOCKS && TWO_BLOCKS[..0] == [] && at[..1][..0] == [];
  }
}
