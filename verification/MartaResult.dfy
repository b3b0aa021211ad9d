/** What the order of a final reduce in combiner mode computes, given what the reducers do with files: the protocol of
    MaRTA/src/Planning/ReducePlanning.c and the reducers of Job/scripts together. */
module MartaResult {
  import opened Bytes
  import opened Lines
  import opened MartaTrace
  import WordCount
  import Weather

  /** The lines of the temporaries; file says what each one holds. */
  function Contents(temps: seq<TempFile>, file: TempFile -> seq<Line>): (r: seq<seq<Line>>)
    ensures |r| == |temps|
  {
    seq(|temps|, i requires 0 <= i < |temps| => file(temps[i]))
  }

  function InputContents(works: seq<Work>, file: TempFile -> seq<Line>): (r: seq<seq<seq<Line>>>)
    ensures |r| == |works|
  {
    seq(|works|, i requires 0 <= i < |works| => Contents(works[i].inputs, file))
  }

  lemma {:induction false} ContentsPermuted(a: seq<TempFile>, b: seq<TempFile>, file: TempFile -> seq<Line>)
    requires multiset(a) == multiset(b)
    ensures multiset(Contents(a, file)) == multiset(Contents(b, file))
    decreases |a|
  {
    hide Contents;
    if a == [] {
      assert |multiset(b)| == 0;
      assert b == a;
    } else {
      assert a[0] in multiset(b);
      var i :| 0 <= i < |b| && b[i] == a[0];
      var restA, restB := a[..0] + a[1..], b[..i] + b[i + 1..];
      assert multiset(restA) == multiset(restB) by {
        Removed(a, 0);
        Removed(b, i);
      }
      ContentsPermuted(restA, restB, file);
      ContentsWithout(a, 0, file);
      ContentsWithout(b, i, file);
    }
  }

  lemma ContentsWithout(temps: seq<TempFile>, i: nat, file: TempFile -> seq<Line>)
    requires i < |temps|
    ensures multiset(Contents(temps, file)) == multiset(Contents(temps[..i] + temps[i + 1..], file)) +
      multiset{file(temps[i])}
  {
    var all := Contents(temps, file);
    assert Contents(temps[..i] + temps[i + 1..], file) == all[..i] + all[i + 1..];
    Removed(all, i);
  }

  lemma {:induction false} FlattenInputs(works: seq<Work>, file: TempFile -> seq<Line>)
    ensures Flatten(InputContents(works, file)) == Contents(Inputs(works), file)
  {
    if works != [] {
      var n := |works| - 1;
      FlattenInputs(works[..n], file);
      var parts := InputContents(works, file);
      FlattenPrefix(parts, n);
      assert parts[..n + 1] == parts && parts[..n] == InputContents(works[..n], file);
      assert Contents(Inputs(works[..n]) + works[n].inputs, file) ==
        Contents(Inputs(works[..n]), file) + Contents(works[n].inputs, file);
    }
  }

  /** At the order of a final reduce in combiner mode: the parts it reads are the outputs of the partial reduces, whose
      parts together are the outputs of all maps, each once. */
  lemma FinalReads(log: seq<Event>, k: nat, file: TempFile -> seq<Line>)
    requires Legal(true, log) && k < |log| && IsFinalOrder(log[k])
    ensures var s := Watch(log[..k]);
      Contents(log[k].inputs, file) == seq(|s.partials|, p requires 0 <= p < |s.partials| => file(s.partials[p].out)) &&
      multiset(Contents(Outputs(s.maps), file)) == multiset(Flatten(InputContents(s.partials, file)))
  {
    var s := Watch(log[..k]);
    assert Allowed(true, s, log[k]);
    FlattenInputs(s.partials, file);
    ContentsPermuted(Outputs(s.maps), Inputs(s.partials), file);
  }

  /** In every legal conversation in combiner mode the final word count is the one a single reduce over all map outputs
      gives, in whatever order its parts arrive. */
  lemma WordCountIsTheSame(log: seq<Event>, k: nat, file: TempFile -> seq<Line>, arrived: seq<seq<Line>>,
                           merged: seq<Line>, direct: seq<Line>)
    requires Legal(true, log) && k < |log| && IsFinalOrder(log[k])
    requires forall p :: 0 <= p < |Watch(log[..k]).partials| ==>
      WordCount.IsReduction(Flatten(InputContents(Watch(log[..k]).partials, file)[p]),
        file(Watch(log[..k]).partials[p].out))
    requires multiset(arrived) == multiset(Contents(log[k].inputs, file)) &&
      WordCount.IsReduction(Flatten(arrived), merged)
    requires WordCount.IsReduction(Flatten(Contents(Outputs(Watch(log[..k]).maps), file)), direct)
    ensures merged == direct
  {
    var s := Watch(log[..k]);
    FinalReads(log, k, file);
    WordCount.CombinerAgrees(InputContents(s.partials, file), Contents(log[k].inputs, file), arrived, merged,
                             Contents(Outputs(s.maps), file), direct);
  }

  /** The same for the weather maximum. */
  lemma WeatherIsTheSame(num: Text -> real, log: seq<Event>, k: nat, file: TempFile -> seq<Line>,
                         arrived: seq<seq<Line>>, merged: seq<Line>, direct: seq<Line>)
    requires Legal(true, log) && k < |log| && IsFinalOrder(log[k])
    requires forall p :: 0 <= p < |Watch(log[..k]).partials| ==>
      Weather.IsReduction(num, Flatten(InputContents(Watch(log[..k]).partials, file)[p]),
        file(Watch(log[..k]).partials[p].out))
    requires multiset(arrived) == multiset(Contents(log[k].inputs, file)) &&
      Weather.IsReduction(num, Flatten(arrived), merged)
    requires Weather.IsReduction(num, Flatten(Contents(Outputs(Watch(log[..k]).maps), file)), direct)
    ensures merged == direct
  {
    var s := Watch(log[..k]);
    FinalReads(log, k, file);
    Weather.CombinerAgrees(num, InputContents(s.partials, file), Contents(log[k].inputs, file), arrived, merged,
                           Contents(Outputs(s.maps), file), direct);
  }
}
