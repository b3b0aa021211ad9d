/** The word count reducer, and why reducing on every node first gives the same result
    (Job/scripts/wordcount/reduce.py in the two modes of MaRTA/src/Planning/ReducePlanning.c). */
module WordCount {
  import opened Bytes
  import opened Lines

  const SPACE: Byte := 32

  /** The bytes at which str.split cuts. */
  predicate IsSpace(b: Byte) {
    b == SPACE || 9 <= b <= 13
  }

  predicate IsWord(w: Text) {
    w != [] && forall i :: 0 <= i < |w| ==> !IsSpace(w[i])
  }

  function Decimal(n: nat): (r: Text)
    ensures r != [] && forall i :: 0 <= i < |r| ==> 48 <= r[i] <= 57
  {
    if n < 10 then [48 + n] else Decimal(n / 10) + [48 + n % 10]
  }

  function FromDecimal(s: Text): nat {
    if s == [] then 0
    else FromDecimal(s[..|s| - 1]) * 10 + (if s[|s| - 1] >= 48 then s[|s| - 1] - 48 else 0)
  }

  lemma {:induction false} DecimalRoundTrip(n: nat)
    ensures FromDecimal(Decimal(n)) == n
  {
    var d := Decimal(n);
    if n >= 10 {
      DecimalRoundTrip(n / 10);
      assert d[..|d| - 1] == Decimal(n / 10);
    } else {
      assert d[..|d| - 1] == [];
    }
  }

  lemma DigitBehind(n: nat, s: Text)
    requires forall i :: 0 <= i < |s| ==> s[|s| - 1 - i] == 48 + n / 10 / Power(10, i) % 10
    ensures var t := s + [48 + n % 10];
      forall i :: 0 <= i < |t| ==> t[|t| - 1 - i] == 48 + n / Power(10, i) % 10
  {
    hide Power;
    var t := s + [48 + n % 10];
    PowerZero(10);
    forall i | 0 < i < |t| ensures t[|t| - 1 - i] == 48 + n / Power(10, i) % 10 {
      assert t[|t| - 1 - i] == s[|s| - 1 - (i - 1)];
      DivideByPower(n, 10, i - 1);
    }
  }

  /** What the digits of a number are: the i-th from the right counts the tens to the power of i, there are enough of
      them, and the first is no zero unless it is the only one. */
  lemma {:induction false} DigitsOf(n: nat)
    ensures forall i :: 0 <= i < |Decimal(n)| ==> Decimal(n)[|Decimal(n)| - 1 - i] == 48 + n / Power(10, i) % 10
    ensures n < Power(10, |Decimal(n)|)
    ensures n == 0 ==> Decimal(n) == [48]
    ensures n > 0 ==> Decimal(n)[0] != 48
  {
    hide Power;
    PowerZero(10);
    if n >= 10 {
      DigitsOf(n / 10);
      DigitBehind(n, Decimal(n / 10));
      PowerNext(10, |Decimal(n / 10)|);
    } else {
      PowerNext(10, 0);
    }
  }

  /** The sum of the digits, each times its power of ten. */
  function ValueOf(digits: Text): int {
    if digits == [] then 0 else (digits[0] as int - 48) * Power(10, |digits| - 1) + ValueOf(digits[1..])
  }

  lemma {:induction false} ValueOfLast(digits: Text, d: Byte)
    ensures ValueOf(digits + [d]) == ValueOf(digits) * 10 + (d as int - 48)
  {
    if digits == [] {
      assert digits + [d] == [d] && [d][1..] == [];
    } else {
      ValueOfLast(digits[1..], d);
      assert (digits + [d])[1..] == digits[1..] + [d];
      var x, p := digits[0] as int - 48, Power(10, |digits| - 1);
      assert Power(10, |digits|) == 10 * p;
      assert x * (10 * p) == x * p * 10;
    }
  }

  /** int(): reading a number adds up its digits with their weights. */
  lemma {:induction false} ReadsItsValue(digits: Text)
    requires forall i :: 0 <= i < |digits| ==> 48 <= digits[i] <= 57
    ensures FromDecimal(digits) == ValueOf(digits)
  {
    if digits != [] {
      var k := |digits| - 1;
      ReadsItsValue(digits[..k]);
      ValueOfLast(digits[..k], digits[k]);
      assert digits == digits[..k] + [digits[k]];
    }
  }

  function Render(word: Text, count: nat): Line {
    word + [SPACE] + Decimal(count)
  }

  /** The first token of a line. */
  function WordOf(line: Line): (r: Text)
    ensures r <= line
  {
    if line == [] || IsSpace(line[0]) then [] else
    assert line == [line[0]] + line[1..];
    [line[0]] + WordOf(line[1..])
  }

  /** The second token of a line of the form word, space, number. */
  function CountOf(line: Line): nat {
    var w := WordOf(line);
    if |w| < |line| then FromDecimal(line[|w| + 1..]) else 0
  }

  predicate GoodLine(line: Line) {
    IsWord(WordOf(line)) && line == Render(WordOf(line), CountOf(line))
  }

  predicate GoodLines(lines: seq<Line>) {
    forall i :: 0 <= i < |lines| ==> GoodLine(lines[i])
  }

  lemma {:induction false} WordOfPrefix(word: Text, rest: Text)
    requires forall i :: 0 <= i < |word| ==> !IsSpace(word[i])
    requires rest != [] && IsSpace(rest[0])
    ensures WordOf(word + rest) == word
  {
    if word == [] {
      assert word + rest == rest;
    } else {
      assert (word + rest)[1..] == word[1..] + rest;
      WordOfPrefix(word[1..], rest);
    }
  }

  lemma Rendered(word: Text, count: nat)
    requires IsWord(word)
    ensures WordOf(Render(word, count)) == word && CountOf(Render(word, count)) == count
    ensures GoodLine(Render(word, count))
  {
    var rest := [SPACE] + Decimal(count);
    assert Render(word, count) == word + rest;
    WordOfPrefix(word, rest);
    assert Render(word, count)[|word| + 1..] == Decimal(count);
    DecimalRoundTrip(count);
  }

  /** What decides the order of the lines of different words. */
  function Key(line: Line): Line {
    WordOf(line) + [SPACE]
  }

  lemma KeyDecides(a: Line, b: Line)
    requires GoodLine(a) && GoodLine(b) && WordOf(a) != WordOf(b)
    ensures Leq(a, b) <==> Leq(Key(a), Key(b))
    ensures Key(a) != Key(b)
  {
    var v, w := WordOf(a), WordOf(b);
    assert a == Key(a) + Decimal(CountOf(a)) && b == Key(b) + Decimal(CountOf(b));
    KeyIsNoPrefix(v, w);
    KeyIsNoPrefix(w, v);
    PrefixDecides(Key(a), Decimal(CountOf(a)), Key(b), Decimal(CountOf(b)));
  }

  lemma {:induction false} KeyIsNoPrefix(v: Text, w: Text)
    requires (forall i :: 0 <= i < |v| ==> !IsSpace(v[i])) && forall i :: 0 <= i < |w| ==> !IsSpace(w[i])
    requires v != w
    ensures !(v + [SPACE] <= w + [SPACE])
  {
    if v != [] && w != [] && v[0] == w[0] {
      assert v == [v[0]] + v[1..] && w == [w[0]] + w[1..];
      KeyIsNoPrefix(v[1..], w[1..]);
      assert (v + [SPACE])[1..] == v[1..] + [SPACE] && (w + [SPACE])[1..] == w[1..] + [SPACE];
    } else {
      assert (v + [SPACE])[0] != (w + [SPACE])[0];
    }
  }

  /** The total count of a word. */
  function Total(lines: seq<Line>, word: Text): nat {
    if lines == [] then 0
    else (if WordOf(lines[0]) == word then CountOf(lines[0]) else 0) + Total(lines[1..], word)
  }

  ghost predicate Mentions(lines: seq<Line>, word: Text) {
    exists l :: l in lines && WordOf(l) == word
  }

  /** One line for every word of the input, in increasing order, with the word's total. */
  ghost predicate IsReduction(lines: seq<Line>, out: seq<Line>) {
    && GoodLines(out)
    && KeysIncrease(out, Key)
    && (forall w :: Mentions(out, w) <==> Mentions(lines, w))
    && forall l :: l in out ==> CountOf(l) == Total(lines, WordOf(l))
  }

  lemma {:induction false} TotalAppend(a: seq<Line>, b: seq<Line>, word: Text)
    ensures Total(a + b, word) == Total(a, word) + Total(b, word)
  {
    if a == [] {
      assert a + b == b;
    } else {
      TotalAppend(a[1..], b, word);
      assert (a + b)[1..] == a[1..] + b;
    }
  }

  lemma {:induction false} TotalOfOthers(lines: seq<Line>, word: Text)
    requires !Mentions(lines, word)
    ensures Total(lines, word) == 0
  {
    if lines != [] {
      assert lines[0] in lines;
      forall l | l in lines[1..] ensures WordOf(l) != word {
        assert l in lines;
      }
      TotalOfOthers(lines[1..], word);
    }
  }

  /** Two reductions of inputs with the same words and totals are equal. */
  lemma ReductionUnique(a: seq<Line>, b: seq<Line>, outA: seq<Line>, outB: seq<Line>)
    requires IsReduction(a, outA) && IsReduction(b, outB)
    requires forall w :: (Mentions(a, w) <==> Mentions(b, w)) && Total(a, w) == Total(b, w)
    ensures outA == outB
  {
    forall x ensures x in outA <==> x in outB {
      if x in outA {
        SameLine(a, b, outA, outB, x);
      }
      if x in outB {
        SameLine(b, a, outB, outA, x);
      }
    }
    IncreasingUnique(outA, outB, Key);
  }

  lemma SameLine(a: seq<Line>, b: seq<Line>, outA: seq<Line>, outB: seq<Line>, x: Line)
    requires IsReduction(a, outA) && IsReduction(b, outB) && x in outA
    requires forall w :: (Mentions(a, w) <==> Mentions(b, w)) && Total(a, w) == Total(b, w)
    ensures x in outB
  {
    assert Mentions(outA, WordOf(x));
    var y :| y in outB && WordOf(y) == WordOf(x);
    assert x == Render(WordOf(x), CountOf(x)) && y == Render(WordOf(y), CountOf(y));
  }

  lemma TotalAt(lines: seq<Line>, i: nat, word: Text)
    requires i < |lines|
    ensures Total(lines, word) == Total([lines[i]], word) + Total(lines[..i] + lines[i + 1..], word)
  {
    hide Total;
    assert lines == lines[..i] + ([lines[i]] + lines[i + 1..]);
    TotalAppend(lines[..i], [lines[i]] + lines[i + 1..], word);
    TotalAppend([lines[i]], lines[i + 1..], word);
    TotalAppend(lines[..i], lines[i + 1..], word);
  }

  lemma MentionsPermuted(a: seq<Line>, b: seq<Line>, word: Text)
    requires multiset(a) == multiset(b)
    ensures Mentions(a, word) <==> Mentions(b, word)
  {
    forall l ensures l in a <==> l in b {
      assert l in multiset(a) <==> l in multiset(b);
    }
  }

  lemma {:induction false} TotalPermuted(a: seq<Line>, b: seq<Line>, word: Text)
    requires multiset(a) == multiset(b)
    ensures Total(a, word) == Total(b, word) && (Mentions(a, word) <==> Mentions(b, word))
    decreases |a|
  {
    hide Total, Mentions;
    MentionsPermuted(a, b, word);
    if a == [] {
      assert |multiset(b)| == 0;
      assert b == a;
    } else {
      assert a[0] in multiset(b);
      var i :| 0 <= i < |b| && b[i] == a[0];
      var restA, restB := a[..0] + a[1..], b[..i] + b[i + 1..];
      assert multiset(restA) == multiset(restB) by {
        Removed(a, 0);
        Removed(b, i);
      }
      TotalPermuted(restA, restB, word);
      TotalAt(a, 0, word);
      TotalAt(b, i, word);
    }
  }

  lemma FirstLine(line: Line)
    requires GoodLine(line)
    ensures IsReduction([line], [Render(WordOf(line), CountOf(line))])
  {
    One(line, WordOf(line));
    assert forall l :: l in [line] <==> l == line;
    MentionsAppend([], line, WordOf(line));
  }

  lemma One(line: Line, word: Text)
    ensures Total([line], word) == if WordOf(line) == word then CountOf(line) else 0
  {
    var one: seq<Line> := [line];
    assert one[1..] == [];
  }

  lemma SameWord(lines: seq<Line>, out: seq<Line>, word: Text, acc: nat, line: Line)
    requires IsReduction(lines, out + [Render(word, acc)]) && IsWord(word) && GoodLine(line) && WordOf(line) == word
    ensures IsReduction(lines + [line], out + [Render(word, acc + CountOf(line))])
  {
    hide Render, WordOf, CountOf, IsWord, GoodLine, GoodLines, KeysIncrease, Mentions, Total;
    var last, next := Render(word, acc), Render(word, acc + CountOf(line));
    Rendered(word, acc);
    Rendered(word, acc + CountOf(line));
    SameKeys(out, last, next);
    SameCounts(lines, out, last, next, line);
  }

  lemma SameKeys(out: seq<Line>, last: Line, next: Line)
    requires GoodLines(out + [last]) && GoodLine(next) && KeysIncrease(out + [last], Key)
    requires WordOf(last) == WordOf(next)
    ensures GoodLines(out + [next]) && KeysIncrease(out + [next], Key)
  {
    hide GoodLine, Leq, WordOf;
    var was, now := out + [last], out + [next];
    assert forall i :: 0 <= i < |now| ==> now[i] == if i < |out| then was[i] else next;
    assert was[|out|] == last;
    forall i, j | 0 <= i < j < |now| ensures Less(Key(now[i]), Key(now[j])) {
      assert Less(Key(was[i]), Key(was[j]));
    }
  }

  lemma SameCounts(lines: seq<Line>, out: seq<Line>, last: Line, next: Line, line: Line)
    requires IsReduction(lines, out + [last])
    requires WordOf(last) == WordOf(next) == WordOf(line) && CountOf(next) == CountOf(last) + CountOf(line)
    ensures forall w :: Mentions(out + [next], w) <==> Mentions(lines + [line], w)
    ensures forall l :: l in out + [next] ==> CountOf(l) == Total(lines + [line], WordOf(l))
  {
    hide Render, GoodLine, WordOf, CountOf, Leq, Total, KeysIncrease, Mentions;
    forall w ensures Mentions(out + [next], w) <==> Mentions(lines + [line], w) {
      MentionsAppend(out, last, w);
      MentionsAppend(out, next, w);
      MentionsAppend(lines, line, w);
    }
    forall l | l in out + [next] ensures CountOf(l) == Total(lines + [line], WordOf(l)) {
      TotalAppend(lines, [line], WordOf(l));
      One(line, WordOf(l));
      if l in out {
        LastWord(out, last, l);
      } else {
        assert l == next && last in out + [last];
      }
    }
  }

  lemma LastWord(out: seq<Line>, last: Line, l: Line)
    requires KeysIncrease(out + [last], Key) && l in out
    ensures l in out + [last] && WordOf(l) != WordOf(last)
  {
    hide Leq, WordOf;
    var all := out + [last];
    var i :| 0 <= i < |out| && out[i] == l;
    assert all[i] == l && all[|out|] == last;
    assert Less(Key(all[i]), Key(all[|out|]));
  }

  lemma MentionsAppend(lines: seq<Line>, line: Line, w: Text)
    ensures Mentions(lines + [line], w) <==> Mentions(lines, w) || WordOf(line) == w
  {
    assert line in lines + [line];
    assert forall l :: l in lines + [line] <==> l in lines || l == line;
  }

  lemma NewWord(lines: seq<Line>, out: seq<Line>, line: Line)
    requires IsReduction(lines, out) && out != [] && GoodLine(line)
    requires Less(Key(out[|out| - 1]), Key(line))
    ensures IsReduction(lines + [line], out + [Render(WordOf(line), CountOf(line))])
  {
    var word := WordOf(line);
    var last := Render(word, CountOf(line));
    Rendered(word, CountOf(line));
    hide Render, WordOf, CountOf, IsWord, Leq, GoodLine, GoodLines, KeysIncrease, Total, Mentions;
    NewLast(out, last);
    NewCounts(lines, out, last, line);
  }

  lemma NewLast(out: seq<Line>, last: Line)
    requires GoodLines(out) && GoodLine(last) && KeysIncrease(out, Key)
    requires out != [] && Less(Key(out[|out| - 1]), Key(last))
    ensures GoodLines(out + [last]) && KeysIncrease(out + [last], Key)
    ensures forall i :: 0 <= i < |out| ==> Less(Key(out[i]), Key(last))
  {
    hide GoodLine, Leq, WordOf;
    forall i | 0 <= i < |out| ensures Less(Key(out[i]), Key(last)) {
      if i < |out| - 1 {
        LessTransitive(Key(out[i]), Key(out[|out| - 1]), Key(last));
      }
    }
  }

  lemma NewCounts(lines: seq<Line>, out: seq<Line>, last: Line, line: Line)
    requires IsReduction(lines, out) && forall i :: 0 <= i < |out| ==> Less(Key(out[i]), Key(last))
    requires WordOf(last) == WordOf(line) && CountOf(last) == CountOf(line)
    ensures forall w :: Mentions(out + [last], w) <==> Mentions(lines + [line], w)
    ensures forall l :: l in out + [last] ==> CountOf(l) == Total(lines + [line], WordOf(l))
  {
    hide Render, GoodLine, WordOf, CountOf, Leq, Total, KeysIncrease;
    var word := WordOf(line);
    forall l | l in out ensures WordOf(l) != word {
      var i :| 0 <= i < |out| && out[i] == l;
      assert Less(Key(out[i]), Key(last));
    }
    TotalOfOthers(lines, word);
    forall w ensures Mentions(out + [last], w) <==> Mentions(lines + [line], w) {
      MentionsAppend(out, last, w);
      MentionsAppend(lines, line, w);
    }
    forall l | l in out + [last] ensures CountOf(l) == Total(lines + [line], WordOf(l)) {
      TotalAppend(lines, [line], WordOf(l));
      One(line, WordOf(l));
    }
  }

  /** What the loop has reached after i lines: the last word is still to be written. */
  ghost predicate Reached(lines: seq<Line>, i: nat, out: seq<Line>, oldKey: Text, acc: nat) {
    && 0 < i <= |lines|
    && oldKey == WordOf(lines[i - 1]) && IsWord(oldKey)
    && (Sorted(lines) ==> IsReduction(lines[..i], out + [Render(oldKey, acc)]))
  }

  lemma ReachedFirst(lines: seq<Line>)
    requires GoodLines(lines) && lines != []
    ensures Reached(lines, 1, [], WordOf(lines[0]), CountOf(lines[0]))
  {
    var last := Render(WordOf(lines[0]), CountOf(lines[0]));
    FirstLine(lines[0]);
    assert lines[..1] == [lines[0]] && [] + [last] == [last];
  }

  lemma ReachedSame(lines: seq<Line>, i: nat, out: seq<Line>, oldKey: Text, acc: nat)
    requires GoodLines(lines) && i < |lines| && Reached(lines, i, out, oldKey, acc) && WordOf(lines[i]) == oldKey
    ensures Reached(lines, i + 1, out, oldKey, acc + CountOf(lines[i]))
  {
    hide Render, WordOf, CountOf, IsReduction, Leq, GoodLine;
    assert lines[..i + 1] == lines[..i] + [lines[i]];
    if Sorted(lines) {
      SameWord(lines[..i], out, oldKey, acc, lines[i]);
    }
  }

  lemma ReachedNew(lines: seq<Line>, i: nat, out: seq<Line>, oldKey: Text, acc: nat)
    requires GoodLines(lines) && i < |lines| && Reached(lines, i, out, oldKey, acc) && WordOf(lines[i]) != oldKey
    ensures Reached(lines, i + 1, out + [Render(oldKey, acc)], WordOf(lines[i]), CountOf(lines[i]))
  {
    hide Render, WordOf, CountOf, IsReduction, Leq, GoodLine;
    assert lines[..i + 1] == lines[..i] + [lines[i]];
    GoodWord(lines[i]);
    if Sorted(lines) {
      KeyGrows(lines, i, out + [Render(oldKey, acc)], oldKey, acc);
      NewWord(lines[..i], out + [Render(oldKey, acc)], lines[i]);
    }
  }

  /** The reducer program. Without input it stops with an exception and has written nothing. */
  method Reduce(lines: seq<Line>) returns (out: seq<Line>)
    requires GoodLines(lines)
    ensures Sorted(lines) ==> IsReduction(lines, out)
    ensures Sorted(lines) ==> forall l :: l in out ==>
      |l| > |WordOf(l)| + 1 && l[..|WordOf(l)| + 1] == WordOf(l) + [SPACE]
    ensures Sorted(lines) ==> forall l, i :: l in out && 0 <= i < |l| - |WordOf(l)| - 1 ==>
      l[|l| - 1 - i] == 48 + Total(lines, WordOf(l)) / Power(10, i) % 10
  {
    hide Render, WordOf, CountOf, Sorted, IsReduction, GoodLine, Reached, Total, Power;
    out := [];
    var acumulator := 0;
    var started, oldKey := false, [];
    var i := 0;
    while i < |lines|
      invariant 0 <= i <= |lines| && (started <==> i > 0)
      invariant !started ==> out == [] && acumulator == 0
      invariant started ==> Reached(lines, i, out, oldKey, acumulator)
    {
      var word, repetitions := WordOf(lines[i]), CountOf(lines[i]);
      if !started {
        ReachedFirst(lines);
        started, oldKey := true, word;
      } else if oldKey == word {
        ReachedSame(lines, i, out, oldKey, acumulator);
      }
      if oldKey != word {
        ReachedNew(lines, i, out, oldKey, acumulator);
        out := out + [Render(oldKey, acumulator)];
        acumulator := 0;
        oldKey := word;
      }
      acumulator := acumulator + repetitions;
      i := i + 1;
    }
    if started {
      ReachedLast(lines, out, oldKey, acumulator);
      out := out + [Render(oldKey, acumulator)];
    } else {
      NothingToReduce();
    }
    if Sorted(lines) {
      forall l | l in out ensures InDecimal(l, WordOf(l), Total(lines, WordOf(l))) {
        TotalsInDecimal(lines, out, l);
      }
    }
  }

  /** The line is the word, a space, and the number in decimal. */
  predicate InDecimal(line: Line, word: Text, n: nat) {
    && |line| > |word| + 1 && line[..|word| + 1] == word + [SPACE] && n == ValueOf(line[|word| + 1..])
    && (forall i :: 0 <= i < |line| - |word| - 1 ==> line[|line| - 1 - i] == 48 + n / Power(10, i) % 10)
    && n < Power(10, |line| - |word| - 1)
    && (n > 0 ==> line[|word| + 1] != 48) && (n == 0 ==> line[|word| + 1..] == [48])
  }

  lemma ItsDigits(line: Line)
    requires GoodLine(line)
    ensures InDecimal(line, WordOf(line), CountOf(line))
  {
    hide WordOf, CountOf, IsWord, Decimal, FromDecimal, ValueOf, Power;
    var w, n := WordOf(line), CountOf(line);
    var digits := Decimal(n);
    assert line == w + [SPACE] + digits && line[|w| + 1..] == digits && line[..|w| + 1] == w + [SPACE];
    DigitsOf(n);
    DecimalRoundTrip(n);
    ReadsItsValue(digits);
    forall i | 0 <= i < |digits| ensures line[|line| - 1 - i] == 48 + n / Power(10, i) % 10 {
      assert line[|line| - 1 - i] == digits[|digits| - 1 - i];
    }
  }

  /** The lines of a reduction as text: the word, a space, and the total of its counts in decimal. */
  lemma TotalsInDecimal(lines: seq<Line>, out: seq<Line>, l: Line)
    requires IsReduction(lines, out) && l in out
    ensures InDecimal(l, WordOf(l), Total(lines, WordOf(l)))
  {
    hide WordOf, CountOf, KeysIncrease, Mentions, Total, InDecimal;
    var i :| 0 <= i < |out| && out[i] == l;
    ItsDigits(l);
  }

  lemma ReachedLast(lines: seq<Line>, out: seq<Line>, oldKey: Text, acc: nat)
    requires Reached(lines, |lines|, out, oldKey, acc)
    ensures Sorted(lines) ==> IsReduction(lines, out + [Render(oldKey, acc)])
  {
    assert lines[..|lines|] == lines;
  }

  lemma NothingToReduce()
    ensures IsReduction([], [])
  {
  }

  lemma GoodWord(line: Line)
    requires GoodLine(line)
    ensures IsWord(WordOf(line))
  {
  }

  lemma KeyGrows(lines: seq<Line>, i: nat, out: seq<Line>, oldKey: Text, acc: nat)
    requires Sorted(lines) && GoodLines(lines) && 0 < i < |lines| && out != []
    requires oldKey == WordOf(lines[i - 1]) && oldKey != WordOf(lines[i]) && out[|out| - 1] == Render(oldKey, acc)
    ensures Less(Key(out[|out| - 1]), Key(lines[i]))
  {
    KeyDecides(lines[i - 1], lines[i]);
    Rendered(oldKey, acc);
  }

  /** One order of a node: "cat parts | sort | reducer" (Nodo/src/node.c:139). */
  method NodeReduce(parts: seq<seq<Line>>) returns (out: seq<Line>)
    requires forall p :: 0 <= p < |parts| ==> GoodLines(parts[p])
    ensures IsReduction(Flatten(parts), out)
  {
    var all := Flatten(parts);
    GoodCat(parts);
    var sorted := Sort(all);
    forall i | 0 <= i < |sorted| ensures GoodLine(sorted[i]) {
      assert sorted[i] in multiset(all);
    }
    out := Reduce(sorted);
    SameReduction(sorted, all, out);
  }

  lemma GoodCat(parts: seq<seq<Line>>)
    requires forall p :: 0 <= p < |parts| ==> GoodLines(parts[p])
    ensures GoodLines(Flatten(parts))
  {
    var all := Flatten(parts);
    forall i | 0 <= i < |all| ensures GoodLine(all[i]) {
      InFlatten(parts, all[i]);
    }
  }

  lemma SameReduction(a: seq<Line>, b: seq<Line>, out: seq<Line>)
    requires multiset(a) == multiset(b) && IsReduction(a, out)
    ensures IsReduction(b, out)
  {
    forall w ensures Total(a, w) == Total(b, w) && (Mentions(a, w) <==> Mentions(b, w)) {
      TotalPermuted(a, b, w);
    }
  }

  lemma {:induction false} TotalOfDistinct(out: seq<Line>, l: Line)
    requires KeysIncrease(out, Key) && l in out
    ensures Total(out, WordOf(l)) == CountOf(l)
  {
    hide WordOf, CountOf, Leq, Mentions;
    var rest := out[1..];
    forall x | x in rest ensures WordOf(x) != WordOf(out[0]) {
      var j :| 0 <= j < |rest| && rest[j] == x;
      assert out[j + 1] == x && Less(Key(out[0]), Key(out[j + 1]));
    }
    if l == out[0] {
      NotMentioned(rest, WordOf(l));
      TotalOfOthers(rest, WordOf(l));
    } else {
      TotalOfDistinct(rest, l);
    }
  }

  lemma NotMentioned(lines: seq<Line>, w: Text)
    requires forall x :: x in lines ==> WordOf(x) != w
    ensures !Mentions(lines, w)
  {
  }

  /** A reduction counts what its input counts. */
  lemma ReductionKeepsTotals(lines: seq<Line>, out: seq<Line>, w: Text)
    requires IsReduction(lines, out)
    ensures Total(out, w) == Total(lines, w)
  {
    hide WordOf, CountOf, KeysIncrease, Total;
    if Mentions(out, w) {
      var l :| l in out && WordOf(l) == w;
      TotalOfDistinct(out, l);
    } else {
      TotalOfOthers(out, w);
      TotalOfOthers(lines, w);
    }
  }

  lemma MentionsCat(a: seq<Line>, b: seq<Line>, w: Text)
    ensures Mentions(a + b, w) <==> Mentions(a, w) || Mentions(b, w)
  {
    assert forall l :: l in a + b <==> l in a || l in b;
  }

  /** Together the partial results say about every word what all map outputs say. */
  lemma {:induction false} PartialsKeepTotals(groups: seq<seq<seq<Line>>>, partials: seq<seq<Line>>, w: Text)
    requires |partials| == |groups|
    requires forall j :: 0 <= j < |groups| ==> IsReduction(Flatten(groups[j]), partials[j])
    ensures Total(Flatten(partials), w) == Total(Flatten(Flatten(groups)), w)
    ensures Mentions(Flatten(partials), w) <==> Mentions(Flatten(Flatten(groups)), w)
  {
    hide Mentions;
    if groups != [] {
      PartialsKeepTotals(groups[1..], partials[1..], w);
      ReductionKeepsTotals(Flatten(groups[0]), partials[0], w);
      FlattenAppend(groups[0], Flatten(groups[1..]));
      TotalAppend(partials[0], Flatten(partials[1..]), w);
      MentionsCat(partials[0], Flatten(partials[1..]), w);
      TotalAppend(Flatten(groups[0]), Flatten(Flatten(groups[1..])), w);
      MentionsCat(Flatten(groups[0]), Flatten(Flatten(groups[1..])), w);
    }
  }

  /** Combiner mode gives the lines of the other mode, however the map outputs lie on the nodes and in whatever
      order the parts reach the final reduce. */
  lemma CombinerAgrees(groups: seq<seq<seq<Line>>>, partials: seq<seq<Line>>, arrived: seq<seq<Line>>,
                       merged: seq<Line>, outputs: seq<seq<Line>>, direct: seq<Line>)
    requires |partials| == |groups|
    requires forall j :: 0 <= j < |groups| ==> IsReduction(Flatten(groups[j]), partials[j])
    requires multiset(arrived) == multiset(partials) && IsReduction(Flatten(arrived), merged)
    requires multiset(outputs) == multiset(Flatten(groups)) && IsReduction(Flatten(outputs), direct)
    ensures merged == direct
  {
    hide IsReduction;
    CatPermuted(arrived, partials);
    CatPermuted(outputs, Flatten(groups));
    forall w ensures (Mentions(Flatten(arrived), w) <==> Mentions(Flatten(outputs), w)) &&
                     Total(Flatten(arrived), w) == Total(Flatten(outputs), w) {
      TotalPermuted(Flatten(arrived), Flatten(partials), w);
      PartialsKeepTotals(groups, partials, w);
      TotalPermuted(Flatten(outputs), Flatten(Flatten(groups)), w);
    }
    ReductionUnique(Flatten(arrived), Flatten(outputs), merged, direct);
  }

  /** The job in both modes: groups are the map outputs by node, outputs the same in the order of one final reduce,
      and pick decides the order in which the partial results arrive. */
  method BothModes(groups: seq<seq<seq<Line>>>, outputs: seq<seq<Line>>, pick: nat -> nat)
    returns (merged: seq<Line>, direct: seq<Line>)
    requires forall p :: 0 <= p < |outputs| ==> GoodLines(outputs[p])
    requires multiset(outputs) == multiset(Flatten(groups))
    ensures merged == direct && IsReduction(Flatten(outputs), direct)
  {
    hide IsReduction, GoodLines;
    var partials := [];
    while |partials| < |groups|
      invariant |partials| <= |groups|
      invariant forall j :: 0 <= j < |partials| ==>
        GoodLines(partials[j]) && IsReduction(Flatten(groups[j]), partials[j])
    {
      forall p | 0 <= p < |groups[|partials|]| ensures GoodLines(groups[|partials|][p]) {
        InFlatten(groups, groups[|partials|][p]);
        assert groups[|partials|][p] in multiset(outputs);
      }
      var out := NodeReduce(groups[|partials|]);
      ReductionIsGood(Flatten(groups[|partials|]), out);
      partials := partials + [out];
    }
    var arrived := Arrive(partials, pick);
    forall p | 0 <= p < |arrived| ensures GoodLines(arrived[p]) {
      assert arrived[p] in multiset(partials);
    }
    merged := NodeReduce(arrived);
    direct := NodeReduce(outputs);
    CombinerAgrees(groups, partials, arrived, merged, outputs, direct);
  }

  lemma ReductionIsGood(lines: seq<Line>, out: seq<Line>)
    requires IsReduction(lines, out)
    ensures GoodLines(out)
  {
  }
}
