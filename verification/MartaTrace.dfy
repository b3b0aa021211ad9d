/** What MaRTA and a Job say to each other, and an independent reading of such a conversation: what an observer can tell
    from the messages alone, and when a message is in order (MaRTA/src/Connections/JobConnection.c). */
module MartaTrace {
  import opened Bytes

  datatype Option<T> = None | Some(value: T)

  /** A temporary file: the node that has it and its name, a stamp. */
  datatype TempFile = TempFile(node: string, name: nat)

  /** A failed reduce names the fallen node: the one a part could not be fetched from, or the reducing node itself. */
  datatype Event =
    | MapSent(task: nat, out: TempFile, block: nat)
    | MapReplied(task: nat, ok: bool)
    | ReduceSent(reduce: nat, out: TempFile, inputs: seq<TempFile>)
    | ReduceReplied(reduce: nat, fallen: Option<string>)
    | CopyReplied(ok: bool)
    | DieSent(code: nat)

  const RESULT_OK := 20
  const RESULT_FILE_UNAVAILABLE := 21
  const RESULT_CANT_COPY := 22

  /** The reduce with this number is the final one. */
  const FINAL := 0

  datatype Fate = Running | Finished | Failed

  /** An order, as its last sending and reply left it. */
  datatype Work = Work(out: TempFile, inputs: seq<TempFile>, fate: Fate)

  /** What the conversation has shown: the maps, the partial reduces of the current round, the final reduce, and whether
      the copy of its result has succeeded; the maps whose output was on a fallen node and that have not been ordered
      again, the nodes reported down one after another, how many copies failed, and whether the job has been told to
      end. */
  datatype Seen = Seen(maps: seq<Work>, partials: seq<Work>, last: Option<Work>, copied: bool,
                       lost: set<nat>, down: seq<string>, failedCopies: nat, over: bool)

  const NOTHING: Seen := Seen([], [], None, false, {}, [], 0, false)

  function Replied(w: Work, ok: bool): Work {
    w.(fate := if ok then Finished else Failed)
  }

  /** The maps whose output is on a node. */
  function OutputsOn(maps: seq<Work>, node: string): set<nat> {
    set m: nat | m < |maps| && maps[m].out.node == node
  }

  function Settled(s: Seen, r: nat, ok: bool): Seen {
    if r == FINAL then (if s.last.Some? then s.(last := Some(Replied(s.last.value, ok))) else s)
    else if r <= |s.partials| then s.(partials := s.partials[r - 1 := Replied(s.partials[r - 1], ok)]) else s
  }

  function Apply(s: Seen, e: Event): Seen {
    match e
    case MapSent(m, out, _) =>
      var w := Work(out, [], Running);
      s.(maps := if m < |s.maps| then s.maps[m := w] else s.maps + [w], copied := false, lost := s.lost - {m})
    case MapReplied(m, ok) =>
      if m >= |s.maps| then s
      else if ok then s.(maps := s.maps[m := Replied(s.maps[m], true)])
      else s.(maps := s.maps[m := Replied(s.maps[m], false)], down := s.down + [s.maps[m].out.node])
    case ReduceSent(r, out, inputs) =>
      var w := Work(out, inputs, Running);
      if r == FINAL then s.(last := Some(w), copied := false)
      else s.(partials := if r == 1 then [w] else s.partials + [w], copied := false)
    case ReduceReplied(r, fallen) =>
      if fallen.None? then Settled(s, r, true)
      else Settled(s, r, false).(lost := s.lost + OutputsOn(s.maps, fallen.value), down := s.down + [fallen.value])
    case CopyReplied(ok) =>
      if ok then s.(copied := true)
      else s.(copied := false, failedCopies := s.failedCopies + 1,
              lost := s.lost + if s.last.Some? then OutputsOn(s.maps, s.last.value.out.node) else {})
    case DieSent(_) => s.(over := true)
  }

  function Watch(log: seq<Event>): Seen {
    if log == [] then NOTHING else Apply(Watch(log[..|log| - 1]), log[|log| - 1])
  }

  predicate AllFinished(works: seq<Work>) {
    forall i :: 0 <= i < |works| ==> works[i].fate == Finished
  }

  predicate NoneRunning(works: seq<Work>) {
    forall i :: 0 <= i < |works| ==> works[i].fate != Running
  }

  predicate LastRunning(s: Seen) {
    s.last.Some? && s.last.value.fate == Running
  }

  function Outputs(works: seq<Work>): (r: seq<TempFile>)
    ensures |r| == |works| && forall i :: 0 <= i < |works| ==> r[i] == works[i].out
  {
    seq(|works|, i requires 0 <= i < |works| => works[i].out)
  }

  function Inputs(works: seq<Work>): seq<TempFile> {
    if works == [] then [] else Inputs(works[..|works| - 1]) + works[|works| - 1].inputs
  }

  /** When a message is in order. Map orders are sent while no reduce runs. A reduce order is sent when every map has
      succeeded: a partial one for temporaries of its own node, one partial for a node; the final one when the partials
      have succeeded too, with exactly the current outputs: those of the maps, or those of the partials, whose inputs
      together are the outputs of all maps, each once. No reduce order is sent while a map whose output was on a fallen
      node has not been ordered again. Success is reported after the final reduce and the copy, and nothing is sent once
      the job has been told to end. */
  predicate Allowed(combiner: bool, s: Seen, e: Event) {
    !s.over &&
    match e
    case MapSent(m, _, _) =>
      && m <= |s.maps| && (m < |s.maps| ==> s.maps[m].fate != Running)
      && NoneRunning(s.partials) && !LastRunning(s)
    case MapReplied(m, _) => m < |s.maps| && s.maps[m].fate == Running
    case ReduceSent(r, out, inputs) =>
      AllFinished(s.maps) && s.lost == {} && !LastRunning(s) && inputs != [] &&
      if r == FINAL then
        if combiner then
          && AllFinished(s.partials) && inputs == Outputs(s.partials)
          && multiset(Inputs(s.partials)) == multiset(Outputs(s.maps))
        else inputs == Outputs(s.maps)
      else
        && combiner && (r == 1 || r == |s.partials| + 1) && (r == 1 ==> NoneRunning(s.partials))
        && (forall i :: 0 <= i < |inputs| ==> inputs[i].node == out.node && inputs[i] in Outputs(s.maps))
        && (r > 1 ==> forall p :: 0 <= p < |s.partials| ==> s.partials[p].out.node != out.node)
    case ReduceReplied(r, _) =>
      if r == FINAL then LastRunning(s) else r <= |s.partials| && s.partials[r - 1].fate == Running
    case CopyReplied(_) => s.last.Some? && s.last.value.fate == Finished
    case DieSent(code) =>
      code == RESULT_OK ==>
        s.copied && AllFinished(s.maps) && s.last.Some? && s.last.value.fate == Finished
  }

  predicate Legal(combiner: bool, log: seq<Event>) {
    forall k :: 0 <= k < |log| ==> Allowed(combiner, Watch(log[..k]), log[k])
  }

  lemma LegalAppend(combiner: bool, log: seq<Event>, e: Event)
    requires Legal(combiner, log) && Allowed(combiner, Watch(log), e)
    ensures Legal(combiner, log + [e])
  {
    var all := log + [e];
    assert all[..|log|] == log;
    assert forall k :: 0 <= k < |log| ==> all[..k] == log[..k];
  }

  lemma WatchAppend(log: seq<Event>, e: Event)
    ensures Watch(log + [e]) == Apply(Watch(log), e)
  {
    assert (log + [e])[..|log|] == log;
  }

  lemma LegalPrefix(combiner: bool, log: seq<Event>, n: nat)
    requires Legal(combiner, log) && n <= |log|
    ensures Legal(combiner, log[..n])
  {
    assert forall k :: 0 <= k < n ==> log[..n][..k] == log[..k];
  }

  predicate IsOrder(e: Event) {
    e.MapSent? || e.ReduceSent?
  }

  predicate IsFinalOrder(e: Event) {
    e.ReduceSent? && e.reduce == FINAL
  }

  lemma {:induction false} CopiedAt(log: seq<Event>) returns (j: nat)
    requires Watch(log).copied
    ensures j < |log| && log[j] == CopyReplied(true)
    ensures forall l :: j < l < |log| ==> !IsOrder(log[l])
  {
    var n := |log| - 1;
    if log[n] == CopyReplied(true) {
      j := n;
    } else {
      assert !IsOrder(log[n]);
      hide Watch, Apply;
      j := CopiedAt(log[..n]);
      forall l | j < l < |log| ensures !IsOrder(log[l]) {
        assert l < n ==> log[l] == log[..n][l];
      }
    }
  }

  lemma {:induction false} FinishedAt(log: seq<Event>) returns (i: nat)
    requires Watch(log).last.Some? && Watch(log).last.value.fate == Finished
    ensures i < |log| && log[i] == ReduceReplied(FINAL, None)
    ensures forall l :: i < l < |log| ==> !IsFinalOrder(log[l])
  {
    var n := |log| - 1;
    if log[n] == ReduceReplied(FINAL, None) {
      i := n;
    } else {
      assert !IsFinalOrder(log[n]);
      hide Watch, Apply;
      i := FinishedAt(log[..n]);
      forall l | i < l < |log| ensures !IsFinalOrder(log[l]) {
        assert l < n ==> log[l] == log[..n][l];
      }
    }
  }

  /** Before place k, the last final reduce succeeded at i and its copy at j, with no order since. */
  predicate ResultCopied(log: seq<Event>, k: nat, i: nat, j: nat)
    requires i < j < k <= |log|
  {
    && log[i] == ReduceReplied(FINAL, None) && log[j] == CopyReplied(true)
    && (forall l :: i < l < k ==> !IsFinalOrder(log[l])) && forall l :: j < l < k ==> !IsOrder(log[l])
  }

  /** Success is reported only after the last final reduce has succeeded and then its result has been copied, with no
      order sent since the copy. */
  lemma SuccessMeansCopied(combiner: bool, log: seq<Event>, k: nat)
    requires Legal(combiner, log) && k < |log| && log[k] == DieSent(RESULT_OK)
    ensures exists i, j :: 0 <= i < j < k && ResultCopied(log, k, i, j)
  {
    assert Allowed(combiner, Watch(log[..k]), log[k]);
    var j := CopiedAt(log[..k]);
    assert Allowed(combiner, Watch(log[..j]), log[j]);
    var i := FinishedAt(log[..j]);
    CopiedSince(log, k, i, j);
  }

  lemma CopiedSince(log: seq<Event>, k: nat, i: nat, j: nat)
    requires i < j < k <= |log| && log[j] == CopyReplied(true) && log[i] == ReduceReplied(FINAL, None)
    requires forall l :: j < l < k ==> !IsOrder(log[..k][l])
    requires forall l :: i < l < j ==> !IsFinalOrder(log[..j][l])
    ensures ResultCopied(log, k, i, j)
  {
    forall l | i < l < k ensures !IsFinalOrder(log[l]) {
      assert l < j ==> !IsFinalOrder(log[..j][l]);
      assert j < l ==> !IsOrder(log[..k][l]);
    }
    forall l | j < l < k ensures !IsOrder(log[l]) {
      assert !IsOrder(log[..k][l]);
    }
  }

  function OrdersOf(log: seq<Event>, m: nat): nat {
    if log == [] then 0
    else OrdersOf(log[..|log| - 1], m) + if log[|log| - 1].MapSent? && log[|log| - 1].task == m then 1 else 0
  }

  function RepliesOf(log: seq<Event>, m: nat): nat {
    if log == [] then 0
    else RepliesOf(log[..|log| - 1], m) + if log[|log| - 1].MapReplied? && log[|log| - 1].task == m then 1 else 0
  }

  lemma {:induction false} RepliesFollowOrders(combiner: bool, log: seq<Event>, m: nat)
    requires Legal(combiner, log)
    ensures OrdersOf(log, m) ==
      RepliesOf(log, m) + if m < |Watch(log).maps| && Watch(log).maps[m].fate == Running then 1 else 0
  {
    if log != [] {
      var n := |log| - 1;
      LegalPrefix(combiner, log, n);
      RepliesFollowOrders(combiner, log[..n], m);
      assert Allowed(combiner, Watch(log[..n]), log[n]);
    }
  }

  /** When a reduce order is sent, every map order has had its reply. */
  lemma MapsSettledBeforeReduce(combiner: bool, log: seq<Event>, k: nat, m: nat)
    requires Legal(combiner, log) && k < |log| && log[k].ReduceSent?
    ensures OrdersOf(log[..k], m) == RepliesOf(log[..k], m)
  {
    LegalPrefix(combiner, log, k);
    RepliesFollowOrders(combiner, log[..k], m);
    assert Allowed(combiner, Watch(log[..k]), log[k]);
  }

  /** A map whose output was on a node that a reply reports as fallen, or that a failed copy was to come from. */
  predicate Loses(s: Seen, e: Event, m: nat) {
    && m < |s.maps|
    && match e
       case ReduceReplied(_, fallen) => fallen == Some(s.maps[m].out.node)
       case CopyReplied(ok) => !ok && s.last.Some? && s.last.value.out.node == s.maps[m].out.node
       case _ => false
  }

  lemma LosesNow(s: Seen, e: Event, m: nat)
    requires Loses(s, e, m)
    ensures m in Apply(s, e).lost
  {
  }

  lemma LostStays(s: Seen, e: Event, m: nat)
    requires m in s.lost && !(e.MapSent? && e.task == m)
    ensures m in Apply(s, e).lost
  {
  }

  lemma {:induction false} LostUntilOrdered(log: seq<Event>, i: nat, m: nat)
    requires i < |log| && Loses(Watch(log[..i]), log[i], m)
    requires forall j :: i < j < |log| ==> !(log[j].MapSent? && log[j].task == m)
    ensures m in Watch(log).lost
  {
    hide Apply, Loses;
    var n := |log| - 1;
    if i < n {
      assert log[..n][..i] == log[..i] && log[..n][i] == log[i];
      LostUntilOrdered(log[..n], i, m);
      LostStays(Watch(log[..n]), log[n], m);
    } else {
      LosesNow(Watch(log[..n]), log[n], m);
    }
  }

  /** What a restart is for: between the report of a fallen node and the next reduce order, every map whose output was
      on that node is ordered again. */
  lemma FallenMapsAreOrderedAgain(combiner: bool, log: seq<Event>, i: nat, k: nat, m: nat)
    requires Legal(combiner, log) && i < k < |log| && log[k].ReduceSent? && Loses(Watch(log[..i]), log[i], m)
    ensures exists j :: i < j < k && log[j].MapSent? && log[j].task == m
  {
    assert Allowed(combiner, Watch(log[..k]), log[k]);
    assert log[..k][..i] == log[..i] && log[..k][i] == log[i];
    if forall j :: i < j < k ==> !(log[j].MapSent? && log[j].task == m) {
      assert forall j :: i < j < k ==> log[..k][j] == log[j];
      LostUntilOrdered(log[..k], i, m);
      assert false;
    }
  }

  lemma NotLegalAfterDie(combiner: bool, log: seq<Event>, k: nat)
    requires k + 1 < |log| && log[k].DieSent?
    ensures !Legal(combiner, log)
  {
    assert log[..k + 1] == log[..k] + [log[k]];
    WatchAppend(log[..k], log[k]);
    assert !Allowed(combiner, Watch(log[..k + 1]), log[k + 1]);
  }

  /** A die order ends the conversation. */
  lemma NothingAfterDie(combiner: bool, log: seq<Event>, k: nat)
    requires Legal(combiner, log) && k < |log| && log[k].DieSent?
    ensures k == |log| - 1
  {
    if k + 1 < |log| {
      NotLegalAfterDie(combiner, log, k);
    }
  }

  lemma FailedCopiesStep(s: Seen, e: Event)
    ensures Apply(s, e).failedCopies == s.failedCopies + if e == CopyReplied(false) then 1 else 0
  {
  }

  /** The count of failed copies never falls, and counts their messages. */
  lemma {:induction false} FailedCopiesGrow(log: seq<Event>, n: nat)
    requires n <= |log|
    ensures Watch(log[..n]).failedCopies <= Watch(log).failedCopies
    ensures CopyReplied(false) !in log ==> Watch(log).failedCopies == 0
  {
    hide Apply;
    if log != [] {
      var k := |log| - 1;
      FailedCopiesStep(Watch(log[..k]), log[k]);
      FailedCopiesGrow(log[..k], if n < k then n else k);
      assert n <= k ==> log[..k][..n] == log[..n];
    }
    assert n == |log| ==> log[..n] == log;
  }
}
