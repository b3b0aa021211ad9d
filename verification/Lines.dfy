/** Lines of text in byte order, and the "cat | sort" in front of every reducer. A file is the sequence of its lines, or
    a File where the last newline may be missing. */
module Lines {
  import opened Bytes

  type Line = Text

  predicate Leq(a: Line, b: Line) {
    a == [] || (b != [] && (a[0] < b[0] || (a[0] == b[0] && Leq(a[1..], b[1..]))))
  }

  predicate Less(a: Line, b: Line) {
    Leq(a, b) && a != b
  }

  lemma {:induction false} LeqTotal(a: Line, b: Line)
    ensures Leq(a, b) || Leq(b, a)
    ensures Leq(a, b) && Leq(b, a) ==> a == b
    ensures a == b ==> Leq(a, b)
  {
    if a != [] && b != [] {
      LeqTotal(a[1..], b[1..]);
      assert a == [a[0]] + a[1..] && b == [b[0]] + b[1..];
    }
  }

  lemma {:induction false} LeqTransitive(a: Line, b: Line, c: Line)
    requires Leq(a, b) && Leq(b, c)
    ensures Leq(a, c)
  {
    if a != [] && b[0] == a[0] && c[0] == a[0] {
      LeqTransitive(a[1..], b[1..], c[1..]);
    }
  }

  /** One text sorts before another if it is a prefix of it, or has the smaller byte where they first differ. */
  lemma {:induction false} ByteOrder(a: Line, b: Line, k: nat)
    requires k <= |a| && k <= |b| && a[..k] == b[..k] && (k < |a| && k < |b| ==> a[k] != b[k])
    ensures Leq(a, b) <==> k == |a| || (k < |b| && a[k] < b[k])
  {
    if k > 0 {
      assert a[0] == a[..k][0] == b[..k][0] == b[0];
      assert a[1..][..k - 1] == a[..k][1..] && b[1..][..k - 1] == b[..k][1..];
      ByteOrder(a[1..], b[1..], k - 1);
    }
  }

  lemma LessTransitive(a: Line, b: Line, c: Line)
    requires Less(a, b) && Leq(b, c)
    ensures Less(a, c)
  {
    LeqTransitive(a, b, c);
    LeqTotal(a, b);
  }

  /** The order of two texts whose prefixes differ, neither being a prefix of the other, is that of the prefixes. */
  lemma {:induction false} PrefixDecides(p: Line, x: Line, q: Line, y: Line)
    requires !(p <= q) && !(q <= p)
    ensures Leq(p + x, q + y) <==> Leq(p, q)
  {
    assert (p + x)[0] == p[0] && (q + y)[0] == q[0];
    if p[0] == q[0] {
      assert p == [p[0]] + p[1..] && q == [q[0]] + q[1..];
      PrefixDecides(p[1..], x, q[1..], y);
      assert (p + x)[1..] == p[1..] + x && (q + y)[1..] == q[1..] + y;
    }
  }

  predicate Sorted(lines: seq<Line>) {
    forall i, j :: 0 <= i < j < |lines| ==> Leq(lines[i], lines[j])
  }

  lemma HeadLeast(lines: seq<Line>)
    requires Sorted(lines) && lines != []
    ensures forall y :: y in lines ==> Leq(lines[0], y)
  {
    LeqTotal(lines[0], lines[0]);
  }

  lemma PutInFront(x: Line, lines: seq<Line>)
    requires Sorted(lines) && forall y :: y in lines ==> Leq(x, y)
    ensures Sorted([x] + lines)
  {
  }

  function Insert(x: Line, lines: seq<Line>): (r: seq<Line>)
    requires Sorted(lines)
    ensures Sorted(r) && multiset(r) == multiset(lines) + multiset{x}
    ensures forall y :: y in r ==> y == x || y in lines
  {
    if lines == [] then [x] else
    LeqTotal(x, lines[0]);
    HeadLeast(lines);
    assert lines == [lines[0]] + lines[1..];
    if Leq(x, lines[0]) then
      assert forall y :: y in lines ==> Leq(x, y) by {
        forall y | y in lines ensures Leq(x, y) {
          LeqTransitive(x, lines[0], y);
        }
      }
      PutInFront(x, lines);
      [x] + lines
    else
      var rest := Insert(x, lines[1..]);
      PutInFront(lines[0], rest);
      [lines[0]] + rest
  }

  /** The sort program under byte collation. */
  function Sort(lines: seq<Line>): (r: seq<Line>)
    ensures Sorted(r) && multiset(r) == multiset(lines)
  {
    if lines == [] then [] else
    assert lines == [lines[0]] + lines[1..];
    Insert(lines[0], Sort(lines[1..]))
  }

  lemma SameFirst(a: seq<Line>, b: seq<Line>)
    requires Sorted(a) && Sorted(b) && multiset(a) == multiset(b) && a != []
    ensures b != [] && a[0] == b[0]
  {
    hide Leq, Sorted;
    assert a[0] in multiset(b);
    assert b != [] && b[0] in multiset(a);
    HeadLeast(a);
    HeadLeast(b);
    LeqTotal(a[0], b[0]);
  }

  lemma TailSorted(a: seq<Line>)
    requires Sorted(a) && a != []
    ensures Sorted(a[1..])
  {
  }

  /** Sorting does not depend on the order in which the parts arrive. */
  lemma {:induction false} SortedUnique(a: seq<Line>, b: seq<Line>)
    requires Sorted(a) && Sorted(b) && multiset(a) == multiset(b)
    ensures a == b
  {
    hide Leq, Sorted;
    if a == [] {
      assert |multiset(b)| == 0;
    } else {
      SameFirst(a, b);
      TailMultiset(a);
      TailMultiset(b);
      TailSorted(a);
      TailSorted(b);
      SortedUnique(a[1..], b[1..]);
      assert a == [a[0]] + a[1..] && b == [b[0]] + b[1..];
    }
  }

  lemma TailMultiset(a: seq<Line>)
    requires a != []
    ensures multiset(a[1..]) == multiset(a) - multiset{a[0]}
  {
    assert a == [a[0]] + a[1..];
  }

  /** The keys of the lines increase strictly. */
  predicate KeysIncrease(lines: seq<Line>, key: Line -> Line) {
    forall i, j :: 0 <= i < j < |lines| ==> Less(key(lines[i]), key(lines[j]))
  }

  /** Only one list with increasing keys has a given set of lines. */
  lemma {:induction false} IncreasingUnique(a: seq<Line>, b: seq<Line>, key: Line -> Line)
    requires KeysIncrease(a, key) && KeysIncrease(b, key) && forall x :: x in a <==> x in b
    ensures a == b
  {
    assert b != [] ==> b[0] in b;
    if a != [] {
      assert a[0] in b && b != [] && b[0] in a;
      var i :| 0 <= i < |b| && b[i] == a[0];
      var j :| 0 <= j < |a| && a[j] == b[0];
      LeqTotal(key(a[0]), key(b[0]));
      assert i == 0;
      forall x ensures x in a[1..] <==> x in b[1..] {
        if x in a[1..] {
          assert x in b;
        }
        if x in b[1..] {
          assert x in a;
        }
      }
      IncreasingUnique(a[1..], b[1..], key);
      assert a == [a[0]] + a[1..] && b == [b[0]] + b[1..];
    }
  }

  lemma FlattenAt<T>(parts: seq<seq<T>>, i: nat)
    requires i < |parts|
    ensures multiset(Flatten(parts)) == multiset(parts[i]) + multiset(Flatten(parts[..i] + parts[i + 1..]))
  {
    assert parts == parts[..i] + parts[i..];
    FlattenAppend(parts[..i], parts[i..]);
    FlattenAppend(parts[..i], parts[i + 1..]);
    assert parts[i..][1..] == parts[i + 1..];
  }

  lemma Removed<T>(parts: seq<T>, i: nat)
    requires i < |parts|
    ensures multiset(parts[..i] + parts[i + 1..]) == multiset(parts) - multiset{parts[i]}
  {
    assert parts == parts[..i] + [parts[i]] + parts[i + 1..];
  }

  /** cat of the same files in another order has the same lines. */
  lemma {:induction false} CatPermuted<T>(a: seq<seq<T>>, b: seq<seq<T>>)
    requires multiset(a) == multiset(b)
    ensures multiset(Flatten(a)) == multiset(Flatten(b))
    decreases |a|
  {
    hide Flatten;
    if a == [] {
      assert |multiset(b)| == 0;
      assert b == a;
    } else {
      assert a[0] in multiset(b);
      var i :| 0 <= i < |b| && b[i] == a[0];
      var restA, restB := a[..0] + a[1..], b[..i] + b[i + 1..];
      assert multiset(restA) == multiset(restB) by {
        Removed(a, 0);
        Removed(b, i);
      }
      CatPermuted(restA, restB);
      FlattenAt(a, 0);
      FlattenAt(b, i);
    }
  }

  /** The parts in an order of arrival: pick says which of those still on the way comes next. */
  method Arrive<T>(parts: seq<T>, pick: nat -> nat) returns (arrived: seq<T>)
    ensures multiset(arrived) == multiset(parts)
  {
    arrived := [];
    var onTheWay := parts;
    while onTheWay != []
      invariant multiset(arrived) + multiset(onTheWay) == multiset(parts)
      decreases |onTheWay|
    {
      var i := pick(|onTheWay|) % |onTheWay|;
      Removed(onTheWay, i);
      arrived := arrived + [onTheWay[i]];
      onTheWay := onTheWay[..i] + onTheWay[i + 1..];
    }
  }

  /** A file that may lack its last newline: its lines, and what follows them. */
  datatype File = File(lines: seq<Line>, tail: Line)

  const EMPTY := File([], [])

  /** What follows the last newline runs into the next file. */
  function Glue(a: File, b: File): File {
    if b.lines == [] then File(a.lines, a.tail + b.tail)
    else File(a.lines + [a.tail + b.lines[0]] + b.lines[1..], b.tail)
  }

  function Joined(parts: seq<File>): File {
    if parts == [] then EMPTY else Glue(parts[0], Joined(parts[1..]))
  }

  function LinesText(lines: seq<Line>): Text {
    if lines == [] then [] else lines[0] + [NEWLINE] + LinesText(lines[1..])
  }

  /** The bytes of a file: every line with its newline, and what follows the last one. */
  function TextOf(f: File): Text {
    LinesText(f.lines) + f.tail
  }

  lemma {:induction false} LinesTextConcat(a: seq<Line>, b: seq<Line>)
    ensures LinesText(a + b) == LinesText(a) + LinesText(b)
  {
    if a == [] {
      assert a + b == b;
    } else {
      LinesTextConcat(a[1..], b);
      assert (a + b)[0] == a[0] && (a + b)[1..] == a[1..] + b;
      var x, y, z := a[0] + [NEWLINE], LinesText(a[1..]), LinesText(b);
      assert x + (y + z) == x + y + z;
    }
  }

  lemma FirstLineText(lines: seq<Line>)
    ensures LinesText([]) == []
    ensures lines != [] ==> LinesText(lines) == lines[0] + [NEWLINE] + LinesText(lines[1..])
  {
  }

  /** cat: the bytes of the files one after another. */
  lemma GluedText(a: File, b: File)
    ensures TextOf(Glue(a, b)) == TextOf(a) + TextOf(b)
  {
    hide LinesText;
    FirstLineText(b.lines);
    var p, q, t := LinesText(a.lines), a.tail, b.tail;
    if b.lines == [] {
      assert p + (q + t) == p + q + ([] + t);
    } else {
      var line, rest := q + b.lines[0], b.lines[1..];
      LinesTextConcat(a.lines + [line], rest);
      LinesTextConcat(a.lines, [line]);
      FirstLineText([line]);
      var one: seq<Line> := [line];
      assert one[1..] == [] && line + [NEWLINE] + [] == q + (b.lines[0] + [NEWLINE]);
      RegroupText(p, q, b.lines[0] + [NEWLINE], LinesText(rest), t);
    }
  }

  lemma RegroupText(p: Text, q: Text, r: Text, s: Text, t: Text)
    ensures p + (q + r) + s + t == p + q + (r + s + t)
  {
    assert p + (q + r) == p + q + r;
  }

  lemma {:induction false} JoinedText(parts: seq<File>)
    ensures TextOf(Joined(parts)) == Flatten(seq(|parts|, i requires 0 <= i < |parts| => TextOf(parts[i])))
  {
    var texts := seq(|parts|, i requires 0 <= i < |parts| => TextOf(parts[i]));
    if parts != [] {
      JoinedText(parts[1..]);
      GluedText(parts[0], Joined(parts[1..]));
      assert texts[1..] == seq(|parts| - 1, i requires 0 <= i < |parts| - 1 => TextOf(parts[1..][i]));
    }
  }

  /** The lines sort reads: the last one needs no newline. */
  function LinesIn(f: File): seq<Line> {
    f.lines + if f.tail == [] then [] else [f.tail]
  }

  function Ended(parts: seq<seq<Line>>): (r: seq<File>)
    ensures |r| == |parts|
  {
    seq(|parts|, i requires 0 <= i < |parts| => File(parts[i], []))
  }

  /** Files whose lines all end: joining them is concatenating their lines. */
  lemma {:induction false} JoinedLines(parts: seq<seq<Line>>)
    ensures Joined(Ended(parts)) == File(Flatten(parts), [])
  {
    if parts != [] {
      JoinedLines(parts[1..]);
      assert Ended(parts)[1..] == Ended(parts[1..]);
      var rest := Flatten(parts[1..]);
      if rest != [] {
        assert [] + rest[0] == rest[0];
        assert parts[0] + [rest[0]] + rest[1..] == parts[0] + rest;
      }
    }
  }
}
